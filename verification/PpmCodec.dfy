/** PPM with exclusion over the range coder: escapes walk down the orders. */
module PpmCodec {
  import opened Arithmetic
  import opened Bytes
  import opened RangeCoding
  import opened RangeCoder
  import opened PpmTables
  import opened Sequences

  function Unset(): (f: seq<bool>)
    ensures |f| == 256 && forall i :: 0 <= i < 256 ==> !f[i]
  {
    seq(256, i => false)
  }

  /** Which bytes are excluded. */
  type Flags = f: seq<bool> | |f| == 256 witness Unset()

  type Contexts = map<nat, Table>

  ghost predicate ValidContexts(m: Contexts) {
    forall k :: k in m ==> ValidTable(m[k])
  }

  // ------------------------------------------------------------ one context under exclusion

  /** Counts and number of the symbols not excluded among the first `k`. */
  function Cum(s: seq<Entry>, ex: Flags, k: nat): nat
    requires k <= |s|
  {
    if k == 0 then 0 else Cum(s, ex, k - 1) + if ex[s[k - 1].sym] then 0 else s[k - 1].count
  }

  function Seen(s: seq<Entry>, ex: Flags, k: nat): nat
    requires k <= |s|
  {
    if k == 0 then 0 else Seen(s, ex, k - 1) + if ex[s[k - 1].sym] then 0 else 1
  }

  function Marked(s: seq<Entry>, ex: Flags, k: nat): Flags
    requires k <= |s|
  {
    if k == 0 then ex else Marked(s, ex, k - 1)[s[k - 1].sym := true]
  }

  lemma {:induction false} CumBounds(s: seq<Entry>, ex: Flags, k: nat)
    requires k <= |s| && Positive(s)
    ensures Seen(s, ex, k) <= Cum(s, ex, k) <= Sum(s, k)
    ensures Cum(s, ex, k) > 0 ==> Seen(s, ex, k) > 0
  {
    if k > 0 {
      CumBounds(s, ex, k - 1);
    }
  }

  lemma {:induction false} CumMonotone(s: seq<Entry>, ex: Flags, i: nat, k: nat)
    requires i <= k <= |s|
    ensures Cum(s, ex, i) <= Cum(s, ex, k)
    decreases k
  {
    if i < k {
      CumMonotone(s, ex, i, k - 1);
    }
  }

  lemma {:induction false} MarkedKeeps(s: seq<Entry>, ex: Flags, b: byte, k: nat)
    requires k <= |s| && !ex[b] && forall i :: 0 <= i < k ==> s[i].sym != b
    ensures !Marked(s, ex, k)[b]
  {
    if k > 0 {
      MarkedKeeps(s, ex, b, k - 1);
    }
  }

  function Denominator(s: seq<Entry>, ex: Flags): nat {
    Cum(s, ex, |s|) + Seen(s, ex, |s|)
  }

  /** Symbol and escape intervals fit the coder. */
  lemma IntervalsFit(t: Table, ex: Flags)
    requires ValidTable(t) && Cum(t.syms, ex, |t.syms|) > 0
    ensures Denominator(t.syms, ex) <= TOP
    ensures Codable(Freq(Cum(t.syms, ex, |t.syms|), Seen(t.syms, ex, |t.syms|), Denominator(t.syms, ex)))
    ensures forall i :: 0 <= i < |t.syms| && !ex[t.syms[i].sym] ==>
              Codable(Freq(Cum(t.syms, ex, i), t.syms[i].count, Denominator(t.syms, ex)))
              && Cum(t.syms, ex, i) + t.syms[i].count <= Cum(t.syms, ex, |t.syms|)
  {
    var s := t.syms;
    CumBounds(s, ex, |s|);
    forall i | 0 <= i < |s| && !ex[s[i].sym] ensures Cum(s, ex, i) + s[i].count <= Cum(s, ex, |s|) {
      CumMonotone(s, ex, i + 1, |s|);
    }
  }

  /** The first symbol whose interval ends past `target`. */
  function Locate(s: seq<Entry>, ex: Flags, target: nat, i: nat): (r: nat)
    requires i <= |s| && Cum(s, ex, i) <= target < Cum(s, ex, |s|)
    ensures i <= r < |s| && !ex[s[r].sym] && Cum(s, ex, r) <= target < Cum(s, ex, r) + s[r].count
    decreases |s| - i
  {
    if !ex[s[i].sym] && Cum(s, ex, i) + s[i].count > target then i else Locate(s, ex, target, i + 1)
  }

  /** Intervals do not overlap, so the target finds the symbol that was coded. */
  lemma {:induction false} LocateFinds(s: seq<Entry>, ex: Flags, target: nat, i: nat, j: nat)
    requires i <= j < |s| && !ex[s[j].sym] && Cum(s, ex, j) <= target < Cum(s, ex, j) + s[j].count
    requires Cum(s, ex, i) <= target < Cum(s, ex, |s|)
    ensures Locate(s, ex, target, i) == j
    decreases j - i
  {
    if i < j {
      CumMonotone(s, ex, i + 1, j);
      LocateFinds(s, ex, target, i + 1, j);
    }
  }

  // ------------------------------------------------------------ below order 0

  /** The bytes below `k` that are not excluded, in order. */
  function FreeBytes(ex: Flags, k: nat): (f: seq<byte>)
    requires k <= 256
    ensures |f| <= k
    decreases k, ex
  {
    if k == 0 then [] else FreeBytes(ex, k - 1) + if ex[k - 1] then [] else [k - 1]
  }

  lemma {:induction false} FreeByteAt(ex: Flags, b: byte, k: nat)
    requires b < k <= 256 && !ex[b]
    ensures |FreeBytes(ex, b)| < |FreeBytes(ex, k)| && FreeBytes(ex, k)[|FreeBytes(ex, b)|] == b
    decreases k
  {
    if b + 1 < k {
      FreeByteAt(ex, b, k - 1);
    }
  }

  // ------------------------------------------------------------ coding one byte

  /** Decisions that code a byte, and the order that coded it. */
  datatype Coding = Coding(ds: seq<Decision>, order: nat)

  predicate Useful(m: Contexts, h: History, order: nat, ex: Flags) {
    Key(h, order) in m && Cum(m[Key(h, order)].syms, ex, |m[Key(h, order)].syms|) > 0
  }

  /** From order `left - 1` down. */
  ghost function Steps(m: Contexts, h: History, b: byte, left: nat, ex: Flags): Coding
    decreases left, h.len
  {
    if left == 0 then Coding([Freq(|FreeBytes(ex, b)|, 1, |FreeBytes(ex, 256)|)], 0)
    else if !Useful(m, h, left - 1, ex) then Steps(m, h, b, left - 1, ex)
    else
      var s := m[Key(h, left - 1)].syms;
      var i := IndexFrom(s, b, 0);
      if i < |s| && !ex[b] then Coding([Freq(Cum(s, ex, i), s[i].count, Denominator(s, ex))], left - 1)
      else
        var c := Steps(m, h, b, left - 1, Marked(s, ex, |s|));
        Coding([Freq(Cum(s, ex, |s|), Seen(s, ex, |s|), Denominator(s, ex))] + c.ds, c.order)
  }

  /** The byte being coded is never excluded, so every decision can be coded. */
  lemma {:induction false} StepsCodable(m: Contexts, h: History, b: byte, left: nat, ex: Flags)
    requires ValidContexts(m) && !ex[b]
    ensures AllCodable(Steps(m, h, b, left, ex).ds)
    decreases left
  {
    hide Cum, Seen, Marked, FreeBytes, Denominator, ValidTable;
    if left == 0 {
      FreeByteAt(ex, b, 256);
    } else if !Useful(m, h, left - 1, ex) {
      StepsCodable(m, h, b, left - 1, ex);
    } else {
      var t := m[Key(h, left - 1)];
      IntervalsFit(t, ex);
      if IndexFrom(t.syms, b, 0) == |t.syms| {
        MarkedKeeps(t.syms, ex, b, |t.syms|);
        StepsCodable(m, h, b, left - 1, Marked(t.syms, ex, |t.syms|));
      }
    }
  }

  datatype Got = Got(b: byte, order: nat, reader: LiveReader)

  /** Consuming the interval that holds the target stays within the code. */
  lemma TargetAbove(r: LiveReader, cum: nat, total: nat)
    requires 0 < total <= TOP && cum <= ReadTarget(r, total)
    ensures cum * (r.range / total) <= r.code
  {
    RatioPositive(r.range, total);
    MulLe(cum, ReadTarget(r, total), r.range / total, r.range / total);
  }

  /** `decode_byte_ppm`, on any reader. */
  ghost function GetByte(m: Contexts, h: History, r: LiveReader, left: nat, ex: Flags): Option<Got>
    requires ValidContexts(m)
    decreases left, h.len
  {
    if left == 0 then
      var free := FreeBytes(ex, 256);
      if free == [] then None
      else
        var target := ReadTarget(r, |free|);
        TargetAbove(r, target, |free|);
        Some(Got(free[target], 0, ReadFreq(r, target, 1, |free|)))
    else if !Useful(m, h, left - 1, ex) then GetByte(m, h, r, left - 1, ex)
    else
      var t := m[Key(h, left - 1)];
      var s := t.syms;
      IntervalsFit(t, ex);
      var whole, denom := Cum(s, ex, |s|), Denominator(s, ex);
      var target := ReadTarget(r, denom);
      if target < whole then
        var i := Locate(s, ex, target, 0);
        TargetAbove(r, Cum(s, ex, i), denom);
        Some(Got(s[i].sym, left - 1, ReadFreq(r, Cum(s, ex, i), s[i].count, denom)))
      else
        TargetAbove(r, whole, denom);
        GetByte(m, h, ReadFreq(r, whole, Seen(s, ex, |s|), denom), left - 1, Marked(s, ex, |s|))
  }

  /** Reading follows the same path of escapes and ends at the same byte and order. */
  lemma {:induction false} GetsByte(m: Contexts, h: History, b: byte, left: nat, ex: Flags, r: Reader, rest: seq<Decision>)
    requires ValidContexts(m) && !ex[b] && Reads(r, Steps(m, h, b, left, ex).ds + rest)
    ensures Live(r)
    ensures GetByte(m, h, r, left, ex).Some?
    ensures var g := GetByte(m, h, r, left, ex).value;
            g.b == b && g.order == Steps(m, h, b, left, ex).order && Reads(g.reader, rest)
    decreases left
  {
    hide Cum, Seen, Marked, FreeBytes, Denominator, ValidTable, ReadTarget, ReadFreq, Live;
    var ds := Steps(m, h, b, left, ex).ds + rest;
    if left == 0 {
      FreeByteAt(ex, b, 256);
      assert ds[1..] == rest;
    } else if !Useful(m, h, left - 1, ex) {
      GetsByte(m, h, b, left - 1, ex, r, rest);
    } else {
      var t := m[Key(h, left - 1)];
      var s := t.syms;
      var i := IndexFrom(s, b, 0);
      IntervalsFit(t, ex);
      if i < |s| {
        assert ds[1..] == rest;
        CumZero(s, ex);
        LocateFinds(s, ex, ReadTarget(r, Denominator(s, ex)), 0, i);
      } else {
        var ex' := Marked(s, ex, |s|);
        MarkedKeeps(s, ex, b, |s|);
        assert ds[1..] == Steps(m, h, b, left - 1, ex').ds + rest;
        GetsByte(m, h, b, left - 1, ex', ReadFreq(r, Cum(s, ex, |s|), Seen(s, ex, |s|), Denominator(s, ex)), rest);
      }
    }
  }

  lemma CumZero(s: seq<Entry>, ex: Flags)
    ensures Cum(s, ex, 0) == 0
  {
  }

  // ------------------------------------------------------------ exclusion

  lemma {:induction false} MarkedAll(s: seq<Entry>, ex: Flags, k: nat, b: byte)
    requires k <= |s|
    ensures Marked(s, ex, k)[b] <==> ex[b] || exists i :: 0 <= i < k && s[i].sym == b
  {
    if k > 0 {
      MarkedAll(s, ex, k - 1, b);
    }
  }

  /** A context in which everything is excluded holds nothing else. */
  lemma {:induction false} UselessExcluded(s: seq<Entry>, ex: Flags, k: nat, b: byte)
    requires k <= |s| && Positive(s) && Cum(s, ex, k) == 0 && !ex[b]
    ensures forall i :: 0 <= i < k ==> s[i].sym != b
  {
    if k > 0 {
      UselessExcluded(s, ex, k - 1, b);
    }
  }

  /** From any stream, damaged ones included, a byte read is one that no longer context holds: what
      a context could have coded takes no room below it. */
  lemma {:induction false} NotInLonger(m: Contexts, h: History, r: LiveReader, left: nat, ex: Flags, o: nat)
    requires ValidContexts(m) && GetByte(m, h, r, left, ex).Some?
    requires var g := GetByte(m, h, r, left, ex).value; g.order < o < left && Key(h, o) in m
    ensures !Holds(m[Key(h, o)], GetByte(m, h, r, left, ex).value.b)
    decreases left
  {
    hide Cum, Seen, Marked, FreeBytes, Denominator, ValidTable, ReadTarget, ReadFreq, Live, Key, Locate;
    var g := GetByte(m, h, r, left, ex).value;
    NotExcluded(m, h, r, left, ex);
    if !Useful(m, h, left - 1, ex) {
      if o == left - 1 {
        UselessHolds(m[Key(h, o)], ex, g.b);
      } else {
        NotInLonger(m, h, r, left - 1, ex, o);
      }
    } else {
      var t := m[Key(h, left - 1)];
      var s := t.syms;
      IntervalsFit(t, ex);
      var whole, denom := Cum(s, ex, |s|), Denominator(s, ex);
      TargetAbove(r, whole, denom);
      var r', ex' := ReadFreq(r, whole, Seen(s, ex, |s|), denom), Marked(s, ex, |s|);
      NotExcluded(m, h, r', left - 1, ex');
      if o == left - 1 {
        MarkedAll(s, ex, |s|, g.b);
      } else {
        NotInLonger(m, h, r', left - 1, ex', o);
      }
    }
  }

  predicate Holds(t: Table, b: byte) {
    exists i :: 0 <= i < |t.syms| && t.syms[i].sym == b
  }

  lemma UselessHolds(t: Table, ex: Flags, b: byte)
    requires ValidTable(t) && Cum(t.syms, ex, |t.syms|) == 0 && !ex[b]
    ensures !Holds(t, b)
  {
    UselessExcluded(t.syms, ex, |t.syms|, b);
  }

  lemma {:induction false} FreeByteFree(ex: Flags, k: nat, i: nat)
    requires k <= 256 && i < |FreeBytes(ex, k)|
    ensures !ex[FreeBytes(ex, k)[i]]
    decreases k
  {
    if i < |FreeBytes(ex, k - 1)| {
      FreeByteFree(ex, k - 1, i);
    }
  }

  lemma {:induction false} MarkedMore(s: seq<Entry>, ex: Flags, k: nat, b: byte)
    requires k <= |s| && ex[b]
    ensures Marked(s, ex, k)[b]
  {
    if k > 0 {
      MarkedMore(s, ex, k - 1, b);
    }
  }

  /** Nothing excluded is ever read. */
  lemma {:induction false} NotExcluded(m: Contexts, h: History, r: LiveReader, left: nat, ex: Flags)
    requires ValidContexts(m) && GetByte(m, h, r, left, ex).Some?
    ensures !ex[GetByte(m, h, r, left, ex).value.b]
    decreases left
  {
    hide Cum, Seen, Marked, FreeBytes, Denominator, ValidTable, ReadTarget, ReadFreq, Live, Key, Locate;
    if left == 0 {
      var free := FreeBytes(ex, 256);
      FreeByteFree(ex, 256, ReadTarget(r, |free|));
    } else if !Useful(m, h, left - 1, ex) {
      NotExcluded(m, h, r, left - 1, ex);
    } else {
      var t := m[Key(h, left - 1)];
      var s := t.syms;
      IntervalsFit(t, ex);
      var whole, denom := Cum(s, ex, |s|), Denominator(s, ex);
      if ReadTarget(r, denom) >= whole {
        TargetAbove(r, whole, denom);
        var r', ex' := ReadFreq(r, whole, Seen(s, ex, |s|), denom), Marked(s, ex, |s|);
        NotExcluded(m, h, r', left - 1, ex');
        var b := GetByte(m, h, r', left - 1, ex').value.b;
        if ex[b] {
          MarkedMore(s, ex, |s|, b);
        }
      }
    }
  }

  // ------------------------------------------------------------ whole messages

  /** Orders from `order` up to the history's length count the byte. */
  ghost function Learn(m: Contexts, h: History, b: byte, order: nat): (r: Contexts)
    requires ValidContexts(m)
    ensures ValidContexts(r)
    decreases h.len + 1 - order
  {
    if order > h.len then m
    else
      var t := if Key(h, order) in m then m[Key(h, order)] else EMPTY_TABLE;
      UpdatedValid(t, b);
      Learn(m[Key(h, order) := Updated(t, b)], h, b, order + 1)
  }

  lemma {:induction false} StepsOrder(m: Contexts, h: History, b: byte, left: nat, ex: Flags)
    ensures Steps(m, h, b, left, ex).order <= left && (left > 0 ==> Steps(m, h, b, left, ex).order < left)
    decreases left
  {
    hide Cum, Seen, Marked, FreeBytes, Denominator, Key;
    if left > 0 {
      if !Useful(m, h, left - 1, ex) {
        StepsOrder(m, h, b, left - 1, ex);
      } else {
        var s := m[Key(h, left - 1)].syms;
        StepsOrder(m, h, b, left - 1, Marked(s, ex, |s|));
      }
    }
  }

  // ------------------------------------------------------------ what the tables hold

  /** The table of a key, empty when there is none. */
  function TableAt(m: Contexts, k: nat): Table {
    if k in m then m[k] else EMPTY_TABLE
  }

  lemma TableAtValid(m: Contexts, k: nat)
    requires ValidContexts(m)
    ensures ValidTable(TableAt(m, k))
  {
  }

  /** Each order from `order` to the longest has counted the byte once. */
  lemma {:induction false} LearnCounts(m: Contexts, h: History, b: byte, order: nat, o: nat)
    requires ValidContexts(m) && h.len <= MAX_ORDER && order <= o <= h.len
    ensures var k, r := Key(h, o), Learn(m, h, b, order); k in r && r[k] == Updated(TableAt(m, k), b)
    decreases h.len - order
  {
    hide Updated, ValidTable, Key;
    var k := Key(h, order);
    TableAtValid(m, k);
    UpdatedValid(TableAt(m, k), b);
    var m' := m[k := Updated(TableAt(m, k), b)];
    if o == order {
      forall x | order < x <= h.len ensures Key(h, x) != k {
        KeysApart(h, x, order);
      }
      LearnKeeps(m', h, b, order + 1, k);
    } else {
      KeysApart(h, o, order);
      LearnCounts(m', h, b, order + 1, o);
    }
  }

  /** All other tables stay as they are, those of lower orders in particular. */
  lemma {:induction false} LearnKeeps(m: Contexts, h: History, b: byte, order: nat, k: nat)
    requires ValidContexts(m) && forall o :: order <= o <= h.len ==> Key(h, o) != k
    ensures TableAt(Learn(m, h, b, order), k) == TableAt(m, k) && (k in Learn(m, h, b, order) <==> k in m)
    decreases h.len + 1 - order
  {
    hide Updated, ValidTable, Key;
    if order <= h.len {
      var c := Key(h, order);
      TableAtValid(m, c);
      UpdatedValid(TableAt(m, c), b);
      LearnKeeps(m[c := Updated(TableAt(m, c), b)], h, b, order + 1, k);
    }
  }

  /** Update exclusion: orders below the one that coded the byte do not count it. */
  lemma LowerOrdersKept(m: Contexts, h: History, b: byte, o: nat)
    requires ValidContexts(m) && h.len <= MAX_ORDER
    requires o < Steps(m, h, b, h.len + 1, Unset()).order
    ensures var c := Steps(m, h, b, h.len + 1, Unset());
      TableAt(Learn(m, h, b, c.order), Key(h, o)) == TableAt(m, Key(h, o))
  {
    hide Steps, Learn, Key;
    StepsOrder(m, h, b, h.len + 1, Unset());
    var order := Steps(m, h, b, h.len + 1, Unset()).order;
    forall x | order <= x <= h.len ensures Key(h, x) != Key(h, o) {
      KeysApart(h, x, o);
    }
    LearnKeeps(m, h, b, order, Key(h, o));
  }

  lemma UpdatedHolds(t: Table, b: byte, x: byte)
    requires x == b || Holds(t, x)
    ensures Holds(Updated(t, b), x)
  {
    var s, c := t.syms, Counted(t.syms, b);
    var i := IndexFrom(s, b, 0);
    assert c[i].sym == b;
    assert forall j :: 0 <= j < |s| ==> c[j].sym == s[j].sym;
    var at :| 0 <= at < |c| && c[at].sym == x;
    assert Updated(t, b).syms[at].sym == x;
  }

  /** A byte the longest context holds is coded there, in one decision. */
  lemma HeldAtOnce(m: Contexts, h: History, b: byte)
    requires ValidContexts(m) && Key(h, h.len) in m && Holds(m[Key(h, h.len)], b)
    ensures var c := Steps(m, h, b, h.len + 1, Unset()); c.order == h.len && |c.ds| == 1
  {
    hide Key, Denominator, Seen;
    var t := m[Key(h, h.len)];
    var i := IndexFrom(t.syms, b, 0);
    assert t.syms[i].count > 0;
    CumMonotone(t.syms, Unset(), i + 1, |t.syms|);
  }

  /** A byte just coded is coded at once, by the longest context, when that context comes back. */
  lemma CodedAtOnce(m: Contexts, h: History, b: byte)
    requires ValidContexts(m) && h.len <= MAX_ORDER
    ensures var c := Steps(m, h, b, h.len + 1, Unset());
      var d := Steps(Learn(m, h, b, c.order), h, b, h.len + 1, Unset());
      d.order == h.len && |d.ds| == 1
  {
    hide Steps, Learn, Key, Updated, ValidContexts, Holds;
    StepsOrder(m, h, b, h.len + 1, Unset());
    var order := Steps(m, h, b, h.len + 1, Unset()).order;
    LearnCounts(m, h, b, order, h.len);
    UpdatedHolds(TableAt(m, Key(h, h.len)), b, b);
    HeldAtOnce(Learn(m, h, b, order), h, b);
  }

  /** Until the counts are halved, a byte counted takes a larger share of its context: the
      fraction of the interval it had grows. */
  lemma CountedWider(t: Table, ex: Flags, b: byte)
    requires ValidTable(t) && t.total < MAX_TOTAL && !ex[b] && Holds(t, b)
    ensures var i, s, u := IndexFrom(t.syms, b, 0), t.syms, Updated(t, b).syms;
      i < |s| == |u| && s[i].count * Denominator(u, ex) < u[i].count * Denominator(s, ex)
  {
    hide Cum, Seen, ValidTable;
    var i, s := IndexFrom(t.syms, b, 0), t.syms;
    UpdatedBumps(t, b);
    CumBumped(s, ex, i, |s|);
    BelowDenominator(t, ex, i);
    WiderShare(s[i].count, Denominator(s, ex));
  }

  lemma UpdatedBumps(t: Table, b: byte)
    requires t.total < MAX_TOTAL && Holds(t, b)
    ensures var i, s := IndexFrom(t.syms, b, 0), t.syms;
      i < |s| && Updated(t, b).syms == s[i := Entry(s[i].sym, s[i].count + 1)]
  {
  }

  lemma BelowDenominator(t: Table, ex: Flags, i: nat)
    requires ValidTable(t) && i < |t.syms| && !ex[t.syms[i].sym]
    ensures t.syms[i].count < Denominator(t.syms, ex)
  {
    CumBounds(t.syms, ex, |t.syms|);
    CumMonotone(t.syms, ex, i + 1, |t.syms|);
  }

  lemma WiderShare(c: nat, d: nat)
    requires c < d
    ensures c * (d + 1) < (c + 1) * d
  {
  }

  lemma {:induction false} CumBumped(s: seq<Entry>, ex: Flags, i: nat, k: nat)
    requires i < |s| && !ex[s[i].sym] && k <= |s|
    ensures var u := s[i := Entry(s[i].sym, s[i].count + 1)];
      Cum(u, ex, k) == Cum(s, ex, k) + (if i < k then 1 else 0) && Seen(u, ex, k) == Seen(s, ex, k)
  {
    if k > 0 {
      CumBumped(s, ex, i, k - 1);
    }
  }

  ghost function AllSteps(m: Contexts, h: History, data: seq<byte>): seq<Decision>
    requires ValidContexts(m)
    decreases |data|
  {
    if data == [] then []
    else
      var c := Steps(m, h, data[0], h.len + 1, Unset());
      c.ds + AllSteps(Learn(m, h, data[0], c.order), Push(h, data[0]), data[1..])
  }

  ghost function GetAll(m: Contexts, h: History, r: LiveReader, count: nat): (d: Option<seq<byte>>)
    requires ValidContexts(m)
    ensures d.Some? ==> |d.value| == count
    decreases count
  {
    if count == 0 then Some([])
    else
      var g := GetByte(m, h, r, h.len + 1, Unset());
      if g.None? then None
      else
        var rest := GetAll(Learn(m, h, g.value.b, g.value.order), Push(h, g.value.b), g.value.reader, count - 1);
        if rest.None? then None else Some([g.value.b] + rest.value)
  }

  /** The tables after a message. */
  ghost function LearnAll(m: Contexts, h: History, data: seq<byte>): (r: Contexts)
    requires ValidContexts(m)
    ensures ValidContexts(r)
    decreases |data|
  {
    if data == [] then m
    else
      var c := Steps(m, h, data[0], h.len + 1, Unset());
      LearnAll(Learn(m, h, data[0], c.order), Push(h, data[0]), data[1..])
  }

  function PushAll(h: History, data: seq<byte>): History
    decreases |data|
  {
    if data == [] then h else PushAll(Push(h, data[0]), data[1..])
  }

  lemma {:induction false} PushAllIs(h: History, data: seq<byte>)
    ensures PushAll(h, data) == Pushed(h, data)
    decreases |data|
  {
    if data != [] {
      PushAllIs(Push(h, data[0]), data[1..]);
      PushedFront(h, data);
    }
  }

  lemma {:induction false} PushedFront(h: History, data: seq<byte>)
    requires data != []
    ensures Pushed(h, data) == Pushed(Push(h, data[0]), data[1..])
    decreases |data|
  {
    hide Push;
    var n := |data| - 1;
    if n > 0 {
      PushedFront(h, data[..n]);
      assert data[..n][1..] == data[1..][..n - 1];
    } else {
      assert data[..n] == [] && data[1..] == [];
    }
  }

  /** The decisions of a message are those of its first `k` bytes, of the next one under the
      tables these leave, and of the rest. */
  lemma {:induction false} AllStepsAt(m: Contexts, h: History, data: seq<byte>, k: nat)
    requires ValidContexts(m) && k < |data|
    ensures var l, g := LearnAll(m, h, data[..k]), PushAll(h, data[..k]);
      var c := Steps(l, g, data[k], g.len + 1, Unset());
      AllSteps(m, h, data) == AllSteps(m, h, data[..k]) + c.ds + AllSteps(Learn(l, g, data[k], c.order), Push(g, data[k]), data[k + 1..])
    decreases k
  {
    hide ValidContexts, Steps, Learn, Push;
    if k == 0 {
      assert data[..0] == [];
    } else {
      var c := Steps(m, h, data[0], h.len + 1, Unset());
      AllStepsAt(Learn(m, h, data[0], c.order), Push(h, data[0]), data[1..], k - 1);
      assert data[1..][..k - 1] == data[..k][1..] && data[1..][k..] == data[k + 1..] && data[1..][k - 1] == data[k];
    }
  }

  /** Nothing a table holds is lost, however often it is rescaled. */
  lemma {:induction false} HeldStays(m: Contexts, h: History, data: seq<byte>, k: nat, x: byte)
    requires ValidContexts(m) && h.len <= MAX_ORDER && k in m && Holds(m[k], x)
    ensures k in LearnAll(m, h, data) && Holds(LearnAll(m, h, data)[k], x)
    decreases |data|
  {
    hide ValidContexts, Steps, Learn, Key, Holds, Push;
    if data != [] {
      var order := Steps(m, h, data[0], h.len + 1, Unset()).order;
      LearnHolds(m, h, data[0], order, k, x);
      PushLen(h, data[0]);
      HeldStays(Learn(m, h, data[0], order), Push(h, data[0]), data[1..], k, x);
    }
  }

  lemma PushLen(h: History, b: byte)
    requires h.len <= MAX_ORDER
    ensures Push(h, b).len <= MAX_ORDER
  {
  }

  lemma LearnHolds(m: Contexts, h: History, b: byte, order: nat, k: nat, x: byte)
    requires ValidContexts(m) && h.len <= MAX_ORDER && k in m && Holds(m[k], x)
    ensures k in Learn(m, h, b, order) && Holds(Learn(m, h, b, order)[k], x)
  {
    hide ValidContexts, Learn, Key, Holds, Updated;
    if o: nat :| order <= o <= h.len && Key(h, o) == k {
      LearnCounts(m, h, b, order, o);
      UpdatedHolds(m[k], b, x);
    } else {
      LearnKeeps(m, h, b, order, k);
    }
  }

  /** Over a whole message: a byte that has followed the same bytes before, as many of them as the
      model looks at, is coded in one decision by the longest context. */
  lemma RepeatAtOnce(data: seq<byte>, i: nat, j: nat)
    requires i < j < |data| && data[i] == data[j]
    requires var k := Pushed(NO_HISTORY, data[..i]).len;
      k == Pushed(NO_HISTORY, data[..j]).len && k <= i && Last(data[..i], k) == Last(data[..j], k)
    ensures var h := Pushed(NO_HISTORY, data[..j]);
      var c := Steps(LearnAll(map[], NO_HISTORY, data[..j]), h, data[j], h.len + 1, Unset());
      c.order == h.len && |c.ds| == 1
  {
    hide ValidContexts, Steps, Learn, LearnAll, Key, Holds, Push, Last, Pushed, PushAll, Updated;
    var b, d, e := data[i], data[..i], data[i + 1..j];
    NoContexts();
    var m, h := LearnAll(map[], NO_HISTORY, d), Pushed(NO_HISTORY, d);
    HistoryLen(d);
    var c := Steps(m, h, b, h.len + 1, Unset());
    StepsOrder(m, h, b, h.len + 1, Unset());
    LearnCounts(m, h, b, c.order, h.len);
    var k, next := Key(h, h.len), Learn(m, h, b, c.order);
    UpdatedHolds(TableAt(m, k), b, b);
    HistoryLen(d + [b]);
    PushedSnoc(d, b);
    HeldStays(next, Push(h, b), e, k, b);
    assert data[..j] == d + [b] + e;
    PushAllIs(NO_HISTORY, d);
    LearnAllSplit(map[], NO_HISTORY, d, b, e);
    HistoryLen(data[..j]);
    KeysAreContexts(d, data[..j], h.len, h.len);
    HeldAtOnce(LearnAll(map[], NO_HISTORY, data[..j]), Pushed(NO_HISTORY, data[..j]), b);
  }

  lemma NoContexts()
    ensures ValidContexts(map[])
  {
  }

  lemma HistoryLen(d: seq<byte>)
    ensures Pushed(NO_HISTORY, d).len <= MAX_ORDER
  {
    HistoryIs(d);
  }

  lemma PushedSnoc(d: seq<byte>, b: byte)
    ensures Pushed(NO_HISTORY, d + [b]) == Push(Pushed(NO_HISTORY, d), b)
  {
    hide Push;
    assert (d + [b])[..|d|] == d;
  }

  lemma {:induction false} LearnAllSplit(m: Contexts, h: History, d: seq<byte>, b: byte, e: seq<byte>)
    requires ValidContexts(m)
    ensures var l, g := LearnAll(m, h, d), PushAll(h, d);
      var c := Steps(l, g, b, g.len + 1, Unset());
      LearnAll(m, h, d + [b] + e) == LearnAll(Learn(l, g, b, c.order), Push(g, b), e)
    decreases |d|
  {
    hide ValidContexts, Steps, Learn, Push;
    var all := d + [b] + e;
    if d == [] {
      assert all[0] == b && all[1..] == e;
    } else {
      var c := Steps(m, h, d[0], h.len + 1, Unset());
      LearnAllSplit(Learn(m, h, d[0], c.order), Push(h, d[0]), d[1..], b, e);
      assert all[0] == d[0] && all[1..] == d[1..] + [b] + e;
    }
  }

  lemma {:induction false} AllStepsCodable(m: Contexts, h: History, data: seq<byte>)
    requires ValidContexts(m)
    ensures AllCodable(AllSteps(m, h, data))
    decreases |data|
  {
    hide ValidContexts, Steps, Learn, Codable;
    if data != [] {
      var c := Steps(m, h, data[0], h.len + 1, Unset());
      StepsCodable(m, h, data[0], h.len + 1, Unset());
      AllStepsCodable(Learn(m, h, data[0], c.order), Push(h, data[0]), data[1..]);
    }
  }

  lemma {:induction false} GetsAll(m: Contexts, h: History, data: seq<byte>, r: Reader)
    requires ValidContexts(m) && Reads(r, AllSteps(m, h, data))
    ensures Live(r) && GetAll(m, h, r, |data|) == Some(data)
    decreases |data|
  {
    hide ValidContexts, Steps, Learn, Live, Reads, GetByte, Push;
    ReadsLive(r, AllSteps(m, h, data));
    if data != [] {
      var c := Steps(m, h, data[0], h.len + 1, Unset());
      var m', h' := Learn(m, h, data[0], c.order), Push(h, data[0]);
      GetsByte(m, h, data[0], h.len + 1, Unset(), r, AllSteps(m', h', data[1..]));
      var g := GetByte(m, h, r, h.len + 1, Unset()).value;
      GetsAll(m', h', data[1..], g.reader);
      assert [data[0]] + data[1..] == data;
    }
  }

  lemma ReadsLive(r: Reader, ds: seq<Decision>)
    requires Reads(r, ds)
    ensures Live(r)
  {
  }

  /** Header word, then the coded stream; nothing more for no data. */
  ghost predicate IsPayload(data: seq<byte>, payload: seq<byte>) {
    if data == [] then payload == [0, 0, 0, 0]
    else
      AllStepsCodable(map[], NO_HISTORY, data);
      |payload| >= 4 && payload[..4] == PutWord(|data|) && IsStream(payload[4..], AllSteps(map[], NO_HISTORY, data))
  }

  /** `ppm_decompress_checked`, on any payload. */
  ghost function Decompressed(payload: seq<byte>): (d: Option<seq<byte>>)
    ensures d.Some? ==> |payload| >= 4 && |d.value| == GetWord(payload[..4])
  {
    if |payload| < 4 then None
    else if GetWord(payload[..4]) == 0 then Some([])
    else if |payload| < 9 then None
    else GetAll(map[], NO_HISTORY, Open(payload[4..]), GetWord(payload[..4]))
  }

  /** PPM returns the data exactly when its length fits the header. */
  lemma PpmRoundTrip(data: seq<byte>, payload: seq<byte>)
    requires IsPayload(data, payload)
    ensures Decompressed(payload) == Some(data) <==> |data| < WORD
  {
    hide GetWord, PutWord, GetAll, AllSteps, Open;
    if data == [] {
      assert payload[..4] == PutWord(0) by {
        ZeroWord();
      }
      WordRoundTrip(0);
    } else if |data| < WORD {
      WordRoundTrip(|data|);
      var ds := AllSteps(map[], NO_HISTORY, data);
      AllStepsCodable(map[], NO_HISTORY, data);
      RangeCoderRoundTrip(payload[4..], ds);
      GetsAll(map[], NO_HISTORY, data, Open(payload[4..]));
    }
  }

  lemma ZeroWord()
    ensures PutWord(0) == [0, 0, 0, 0]
  {
  }

  // ------------------------------------------------------------ as it runs

  class Model {
    var contexts: Contexts

    constructor ()
      ensures contexts == map[] && ValidContexts(contexts)
    {
      contexts := map[];
    }

    method Update(h: History, b: byte, fromOrder: nat)
      requires ValidContexts(contexts)
      modifies this
      ensures ValidContexts(contexts) && contexts == Learn(old(contexts), h, b, fromOrder)
    {
      hide ValidContexts;
      ghost var goal := Learn(contexts, h, b, fromOrder);
      var order := fromOrder;
      while order <= h.len
        invariant ValidContexts(contexts) && Learn(contexts, h, b, order) == goal
        decreases h.len + 1 - order
      {
        TableLearned(contexts, h, b, order);
        var key := Key(h, order);
        var t := if key in contexts then contexts[key] else EMPTY_TABLE;
        var t' := CountSymbol(t, b);
        contexts := contexts[key := t'];
        order := order + 1;
      }
    }
  }

  lemma TableLearned(m: Contexts, h: History, b: byte, order: nat)
    requires ValidContexts(m) && order <= h.len
    ensures var t := if Key(h, order) in m then m[Key(h, order)] else EMPTY_TABLE;
            ValidContexts(m[Key(h, order) := Updated(t, b)])
  {
    UpdatedValid(if Key(h, order) in m then m[Key(h, order)] else EMPTY_TABLE, b);
  }

  /** Sums over the symbols not excluded, and the interval of `b` when it is one of them. */
  method Tally(s: seq<Entry>, excluded: array<bool>, b: byte)
    returns (total: nat, distinct: nat, found: Option<(nat, nat)>)
    requires excluded.Length == 256 && Distinct(s)
    ensures total == Cum(s, excluded[..], |s|) && distinct == Seen(s, excluded[..], |s|)
    ensures found == SlotOf(s, excluded[..], b, |s|)
  {
    total, distinct, found := 0, 0, None;
    for k := 0 to |s|
      invariant total == Cum(s, excluded[..], k) && distinct == Seen(s, excluded[..], k)
      invariant found == SlotOf(s, excluded[..], b, k)
    {
      if !excluded[s[k].sym] {
        if s[k].sym == b {
          found := Some((total, s[k].count));
        }
        total := total + s[k].count;
        distinct := distinct + 1;
      }
    }
  }

  /** Lower end and size of the interval of `b` among the first `k` symbols. */
  function SlotOf(s: seq<Entry>, ex: Flags, b: byte, k: nat): Option<(nat, nat)>
    requires k <= |s|
  {
    var i := IndexFrom(s, b, 0);
    if i < k && !ex[b] then Some((Cum(s, ex, i), s[i].count)) else None
  }

  method Exclude(s: seq<Entry>, excluded: array<bool>)
    requires excluded.Length == 256
    modifies excluded
    ensures excluded[..] == Marked(s, old(excluded[..]), |s|)
  {
    ghost var was := excluded[..];
    for k := 0 to |s|
      invariant excluded[..] == Marked(s, was, k)
    {
      ghost var before := excluded[..];
      excluded[s[k].sym] := true;
      assert excluded[..] == before[s[k].sym := true];
    }
  }

  /** How many bytes are not excluded, and how many of those are below `b`. */
  method CountFree(excluded: array<bool>, b: byte) returns (low: nat, free: nat)
    requires excluded.Length == 256 && !excluded[b]
    ensures low == |FreeBytes(excluded[..], b)| && free == |FreeBytes(excluded[..], 256)|
  {
    low, free := 0, 0;
    var found := false;
    for k := 0 to 256
      invariant found <==> b < k
      invariant low == |FreeBytes(excluded[..], if b < k then b else k)| && free == |FreeBytes(excluded[..], k)|
    {
      if !excluded[k] {
        if k == b {
          found := true;
        }
        if !found {
          low := low + 1;
        }
        free := free + 1;
      }
    }
  }

  /** The decisions `c` still lead from `iv` to `goal`. */
  ghost predicate LeadsTo(iv: Interval, c: Coding, goal: Interval, order: nat) {
    TOP <= iv.range < WORD && AllCodable(c.ds) && EncodeAll(iv, c.ds) == goal && c.order == order
  }

  lemma CodesHere(iv: Interval, m: Contexts, h: History, b: byte, left: nat, ex: Flags, goal: Interval, order: nat, d: Decision)
    requires LeadsTo(iv, Steps(m, h, b, left, ex), goal, order) && Steps(m, h, b, left, ex).ds == [d]
    ensures Codable(d) && Encode(iv, d) == goal
  {
    assert [d] + [] == [d];
    EncodeAllHead(iv, d, []);
  }

  lemma Escapes(iv: Interval, m: Contexts, h: History, b: byte, left: nat, ex: Flags, goal: Interval, order: nat)
    requires LeadsTo(iv, Steps(m, h, b, left, ex), goal, order) && left > 0 && Useful(m, h, left - 1, ex)
    requires var s := m[Key(h, left - 1)].syms; SlotOf(s, ex, b, |s|) == None
    ensures var s := m[Key(h, left - 1)].syms;
            var d := Freq(Cum(s, ex, |s|), Seen(s, ex, |s|), Denominator(s, ex));
            Codable(d) && LeadsTo(Encode(iv, d), Steps(m, h, b, left - 1, Marked(s, ex, |s|)), goal, order)
  {
    hide Cum, Seen, Marked, Denominator, EncodeAll, Encode;
    var s := m[Key(h, left - 1)].syms;
    EncodeAllHead(iv, Freq(Cum(s, ex, |s|), Seen(s, ex, |s|), Denominator(s, ex)), Steps(m, h, b, left - 1, Marked(s, ex, |s|)).ds);
  }

  /** `encode_byte_ppm`: returns the order that coded the byte. */
  method EncodeByte(enc: RangeEncoder, model: Model, h: History, b: byte) returns (order: nat)
    requires enc.Valid() && ValidContexts(model.contexts)
    modifies enc
    ensures enc.Valid()
    ensures LeadsTo(old(enc.View()), Steps(model.contexts, h, b, h.len + 1, Unset()), enc.View(), order)
  {
    hide Cum, Seen, Marked, FreeBytes, ValidTable, RangeEncoder.Valid, Encode, EncodeAll;
    ghost var m := model.contexts;
    var excluded := new bool[256](i => false);
    assert excluded[..] == Unset();
    StepsCodable(m, h, b, h.len + 1, Unset());
    EncoderLive(enc);
    ghost var goal := EncodeAll(enc.View(), Steps(m, h, b, h.len + 1, Unset()).ds);
    ghost var goalOrder := Steps(m, h, b, h.len + 1, Unset()).order;
    var left: nat := h.len + 1;
    while left > 0
      invariant enc.Valid() && fresh(excluded) && !excluded[b]
      invariant LeadsTo(enc.View(), Steps(m, h, b, left, excluded[..]), goal, goalOrder)
      decreases left
    {
      var key := Key(h, left - 1);
      if key in model.contexts {
        var s := model.contexts[key].syms;
        TableFacts(m, key);
        var total, distinct, found := Tally(s, excluded, b);
        if total > 0 {
          if found.Some? {
            CodesHere(enc.View(), m, h, b, left, excluded[..], goal, goalOrder, Freq(found.value.0, found.value.1, total + distinct));
            enc.EncodeFreq(found.value.0, found.value.1, total + distinct);
            return left - 1;
          }
          Escapes(enc.View(), m, h, b, left, excluded[..], goal, goalOrder);
          MarkedKeeps(s, excluded[..], b, |s|);
          enc.EncodeFreq(total, distinct, total + distinct);
          Exclude(s, excluded);
        }
      }
      left := left - 1;
    }
    var low, free := CountFree(excluded, b);
    CodesHere(enc.View(), m, h, b, left, excluded[..], goal, goalOrder, Freq(low, 1, free));
    enc.EncodeFreq(low, 1, free);
    order := 0;
  }

  lemma TableFacts(m: Contexts, key: nat)
    requires ValidContexts(m) && key in m
    ensures ValidTable(m[key]) && Distinct(m[key].syms)
  {
  }

  lemma EncoderLive(enc: RangeEncoder)
    requires enc.Valid()
    ensures TOP <= enc.View().range < WORD
  {
  }

  method Totals(s: seq<Entry>, excluded: array<bool>) returns (total: nat, distinct: nat)
    requires excluded.Length == 256
    ensures total == Cum(s, excluded[..], |s|) && distinct == Seen(s, excluded[..], |s|)
  {
    total, distinct := 0, 0;
    for k := 0 to |s|
      invariant total == Cum(s, excluded[..], k) && distinct == Seen(s, excluded[..], k)
    {
      if !excluded[s[k].sym] {
        total := total + s[k].count;
        distinct := distinct + 1;
      }
    }
  }

  /** Walk the intervals up to the one that holds `target`. */
  method FindInterval(s: seq<Entry>, excluded: array<bool>, target: nat) returns (i: nat, cum: nat)
    requires excluded.Length == 256 && target < Cum(s, excluded[..], |s|)
    ensures Cum(s, excluded[..], 0) == 0
    ensures i == Locate(s, excluded[..], target, 0) && cum == Cum(s, excluded[..], i)
  {
    i, cum := 0, 0;
    while excluded[s[i].sym] || cum + s[i].count <= target
      invariant i < |s| && cum == Cum(s, excluded[..], i) <= target
      invariant Locate(s, excluded[..], target, i) == Locate(s, excluded[..], target, 0)
      decreases |s| - i
    {
      if !excluded[s[i].sym] {
        cum := cum + s[i].count;
      }
      i := i + 1;
    }
  }

  method FreeList(excluded: array<bool>) returns (free: seq<byte>)
    requires excluded.Length == 256
    ensures free == FreeBytes(excluded[..], 256)
  {
    free := [];
    for k := 0 to 256
      invariant free == FreeBytes(excluded[..], k)
    {
      if !excluded[k] {
        free := free + [k];
      }
    }
  }

  /** What the method returns and where it leaves the decoder is what `GetByte` says. */
  ghost predicate Agrees(got: Option<(byte, nat)>, r: LiveReader, spec: Option<Got>) {
    if got.None? then spec.None? else spec.Some? && spec.value == Got(got.value.0, got.value.1, r)
  }

  lemma UsefulTable(m: Contexts, key: nat, ex: Flags)
    requires ValidContexts(m) && key in m && Cum(m[key].syms, ex, |m[key].syms|) > 0
    ensures var s := m[key].syms;
            0 < Denominator(s, ex) <= TOP && Codable(Freq(Cum(s, ex, |s|), Seen(s, ex, |s|), Denominator(s, ex)))
    ensures var s := m[key].syms;
            forall i :: 0 <= i < |s| && !ex[s[i].sym] ==> Codable(Freq(Cum(s, ex, i), s[i].count, Denominator(s, ex)))
  {
    IntervalsFit(m[key], ex);
  }

  /** `decode_byte_ppm`. */
  method DecodeByte(dec: RangeDecoder, model: Model, h: History) returns (got: Option<(byte, nat)>)
    requires dec.Valid() && ValidContexts(model.contexts)
    modifies dec
    ensures dec.Valid()
    ensures Agrees(got, dec.View(), GetByte(model.contexts, h, old(dec.View()), h.len + 1, Unset()))
  {
    hide Cum, Seen, Marked, FreeBytes, ValidContexts, ValidTable, ReadTarget, ReadFreq, Live, Locate;
    ghost var m := model.contexts;
    var excluded := new bool[256](i => false);
    assert excluded[..] == Unset();
    ghost var goal := GetByte(m, h, dec.View(), h.len + 1, Unset());
    var left: nat := h.len + 1;
    while left > 0
      invariant dec.Valid() && fresh(excluded)
      invariant GetByte(m, h, dec.View(), left, excluded[..]) == goal
      decreases left
    {
      var key := Key(h, left - 1);
      if key in model.contexts {
        var s := model.contexts[key].syms;
        var total, distinct := Totals(s, excluded);
        if total > 0 {
          UsefulTable(m, key, excluded[..]);
          var target := dec.GetFreq(total + distinct);
          if target < total {
            var i, cum := FindInterval(s, excluded, target);
            TargetAbove(dec.View(), cum, total + distinct);
            dec.DecodeFreq(cum, s[i].count, total + distinct);
            return Some((s[i].sym, left - 1));
          }
          TargetAbove(dec.View(), total, total + distinct);
          dec.DecodeFreq(total, distinct, total + distinct);
          Exclude(s, excluded);
        }
      }
      left := left - 1;
    }
    var free := FreeList(excluded);
    if free == [] {
      return None;
    }
    var target := dec.GetFreq(|free|);
    TargetAbove(dec.View(), target, |free|);
    dec.DecodeFreq(target, 1, |free|);
    got := Some((free[target], 0));
  }

  method Compress(data: seq<byte>) returns (payload: seq<byte>)
    ensures IsPayload(data, payload)
  {
    hide Steps, Learn, ValidContexts, EncodeAll, RangeEncoder.Valid;
    if data == [] {
      return [0, 0, 0, 0];
    }
    var model := new Model();
    var enc := new RangeEncoder();
    var h := NO_HISTORY;
    ghost var all := AllSteps(map[], NO_HISTORY, data);
    AllStepsCodable(map[], NO_HISTORY, data);
    ghost var goal := EncodeAll(START, all);
    assert data[0..] == data;
    for k := 0 to |data|
      invariant enc.Valid() && ValidContexts(model.contexts)
      invariant LeadsTo(enc.View(), Coding(AllSteps(model.contexts, h, data[k..]), 0), goal, 0)
    {
      StepsThenRest(enc.View(), model.contexts, h, data[k..], goal);
      assert data[k..][1..] == data[k + 1..];
      var order := EncodeByte(enc, model, h, data[k]);
      model.Update(h, data[k], order);
      h := Push(h, data[k]);
    }
    NothingLeft(enc.View(), model.contexts, h, data[|data|..], goal);
    var stream := enc.Finish();
    payload := PutWord(|data|) + stream;
    assert payload[4..] == stream && payload[..4] == PutWord(|data|);
  }

  /** A byte's decisions come first, then those of the rest. */
  lemma StepsThenRest(iv: Interval, m: Contexts, h: History, data: seq<byte>, goal: Interval)
    requires ValidContexts(m) && data != [] && LeadsTo(iv, Coding(AllSteps(m, h, data), 0), goal, 0)
    ensures var c := Steps(m, h, data[0], h.len + 1, Unset());
            forall iv', order :: LeadsTo(iv, c, iv', order) ==>
              order == c.order && LeadsTo(iv', Coding(AllSteps(Learn(m, h, data[0], order), Push(h, data[0]), data[1..]), 0), goal, 0)
  {
    hide Steps, Learn, ValidContexts;
    var c := Steps(m, h, data[0], h.len + 1, Unset());
    var rest := AllSteps(Learn(m, h, data[0], c.order), Push(h, data[0]), data[1..]);
    StepsCodable(m, h, data[0], h.len + 1, Unset());
    AllStepsCodable(Learn(m, h, data[0], c.order), Push(h, data[0]), data[1..]);
    EncodeAllConcat(iv, c.ds, rest);
  }

  lemma NothingLeft(iv: Interval, m: Contexts, h: History, data: seq<byte>, goal: Interval)
    requires ValidContexts(m) && data == [] && LeadsTo(iv, Coding(AllSteps(m, h, data), 0), goal, 0)
    ensures iv == goal
  {
  }

  /** `ppm_decompress_checked`. */
  method Decompress(payload: seq<byte>) returns (d: Option<seq<byte>>)
    ensures d == Decompressed(payload)
  {
    hide GetByte, Learn, ValidContexts, Live, Open;
    if |payload| < 4 {
      return None;
    }
    var count := GetWord(payload[..4]);
    if count == 0 {
      return Some([]);
    }
    if |payload| < 9 {
      return None;
    }
    var model := new Model();
    var dec := new RangeDecoder(payload[4..]);
    var h := NO_HISTORY;
    var output := [];
    ghost var goal := Decompressed(payload);
    PrefixedNothing(GetAll(map[], h, dec.View(), count));
    for k := 0 to count
      invariant dec.Valid() && ValidContexts(model.contexts) && |output| == k
      invariant Prefixed(output, GetAll(model.contexts, h, dec.View(), count - k)) == goal
    {
      PrefixedNext(output, model.contexts, h, dec.View(), count - k);
      var got := DecodeByte(dec, model, h);
      if got.None? {
        return None;
      }
      output := output + [got.value.0];
      model.Update(h, got.value.0, got.value.1);
      h := Push(h, got.value.0);
    }
    assert output + [] == output;
    d := Some(output);
  }

  lemma PrefixedNothing(d: Option<seq<byte>>)
    ensures Prefixed([], d) == d
  {
    if d.Some? {
      assert [] + d.value == d.value;
    }
  }

  lemma PrefixedNext(out: seq<byte>, m: Contexts, h: History, r: LiveReader, count: nat)
    requires ValidContexts(m) && count > 0
    ensures var g := GetByte(m, h, r, h.len + 1, Unset());
            Prefixed(out, GetAll(m, h, r, count)) == if g.None? then None
            else Prefixed(out + [g.value.b], GetAll(Learn(m, h, g.value.b, g.value.order), Push(h, g.value.b), g.value.reader, count - 1))
  {
    hide GetByte, Learn, Push, Live;
    var g := GetByte(m, h, r, h.len + 1, Unset());
    if g.Some? {
      var rest := GetAll(Learn(m, h, g.value.b, g.value.order), Push(h, g.value.b), g.value.reader, count - 1);
      if rest.Some? {
        assert out + ([g.value.b] + rest.value) == out + [g.value.b] + rest.value;
      }
    }
  }

  ghost function Prefixed(out: seq<byte>, d: Option<seq<byte>>): Option<seq<byte>> {
    if d.None? then None else Some(out + d.value)
  }

  /** Compress, then decompress. */
  method RoundTrip(data: seq<byte>) returns (back: Option<seq<byte>>)
    ensures back == Some(data) <==> |data| < WORD
  {
    hide IsPayload, Decompressed;
    var payload := Compress(data);
    back := Decompress(payload);
    PpmRoundTrip(data, payload);
  }
}
