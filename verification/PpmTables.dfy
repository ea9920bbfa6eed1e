/** Symbol counts of one context, the rolling history and its context keys. */
module PpmTables {
  import opened Arithmetic
  import opened Bytes
  import opened Counting

  const MAX_ORDER: nat := 5
  const MAX_TOTAL: nat := 8192

  datatype Entry = Entry(sym: byte, count: nat)

  /** Counts in first-seen order, which is the order of the coding intervals. */
  datatype Table = Table(syms: seq<Entry>, total: nat)

  const EMPTY_TABLE := Table([], 0)

  function Sum(s: seq<Entry>, k: nat): nat
    requires k <= |s|
  {
    if k == 0 then 0 else Sum(s, k - 1) + s[k - 1].count
  }

  ghost predicate Distinct(s: seq<Entry>) {
    forall i, j :: 0 <= i < j < |s| ==> s[i].sym != s[j].sym
  }

  ghost predicate Positive(s: seq<Entry>) {
    forall i :: 0 <= i < |s| ==> s[i].count > 0
  }

  ghost predicate ValidTable(t: Table) {
    Distinct(t.syms) && Positive(t.syms) && t.total == Sum(t.syms, |t.syms|) <= MAX_TOTAL
  }

  function IndexFrom(s: seq<Entry>, b: byte, i: nat): (r: nat)
    requires i <= |s|
    ensures i <= r <= |s| && (r < |s| ==> s[r].sym == b)
    ensures forall j :: i <= j < r ==> s[j].sym != b
    decreases |s| - i
  {
    if i == |s| || s[i].sym == b then i else IndexFrom(s, b, i + 1)
  }

  function Counted(s: seq<Entry>, b: byte): seq<Entry> {
    var i := IndexFrom(s, b, 0);
    if i < |s| then s[i := Entry(b, s[i].count + 1)] else s + [Entry(b, 1)]
  }

  function Halved(s: seq<Entry>): (r: seq<Entry>)
    ensures |r| == |s| && forall i :: 0 <= i < |s| ==> r[i] == Entry(s[i].sym, (s[i].count + 1) / 2)
  {
    seq(|s|, i requires 0 <= i < |s| => Entry(s[i].sym, (s[i].count + 1) / 2))
  }

  function Updated(t: Table, b: byte): Table {
    var s := Counted(t.syms, b);
    if t.total + 1 > MAX_TOTAL then Table(Halved(s), Sum(Halved(s), |s|)) else Table(s, t.total + 1)
  }

  lemma {:induction false} SumPrefix(s: seq<Entry>, e: Entry, k: nat)
    requires k <= |s|
    ensures Sum(s + [e], k) == Sum(s, k)
  {
    if k > 0 {
      SumPrefix(s, e, k - 1);
    }
  }

  lemma {:induction false} SumBumped(s: seq<Entry>, i: nat, b: byte, k: nat)
    requires i < |s| && k <= |s|
    ensures Sum(s[i := Entry(b, s[i].count + 1)], k) == Sum(s, k) + if i < k then 1 else 0
  {
    if k > 0 {
      SumBumped(s, i, b, k - 1);
    }
  }

  lemma {:induction false} HalvedSum(s: seq<Entry>, k: nat)
    requires k <= |s|
    ensures Sum(s, k) <= 2 * Sum(Halved(s), k) <= Sum(s, k) + k
  {
    if k > 0 {
      HalvedSum(s, k - 1);
    }
  }

  ghost function Syms(s: seq<Entry>): (r: seq<nat>)
    ensures |r| == |s| && forall i :: 0 <= i < |s| ==> r[i] == s[i].sym
  {
    seq(|s|, i requires 0 <= i < |s| => s[i].sym as int)
  }

  lemma AtMost256(s: seq<Entry>)
    requires Distinct(s)
    ensures |s| <= 256
  {
    DistinctSize(Syms(s));
    SubsetSize(Elements(Syms(s)), Range(256));
  }

  /** Counting keeps the table valid, however often it is rescaled. */
  lemma UpdatedValid(t: Table, b: byte)
    requires ValidTable(t)
    ensures ValidTable(Updated(t, b))
  {
    var s := Counted(t.syms, b);
    CountedFacts(t.syms, b);
    if t.total + 1 > MAX_TOTAL {
      AtMost256(s);
      HalvedSum(s, |s|);
    }
  }

  /** Rescaling brings the total down to about half and leaves the counts in their order. */
  lemma RescaledInOrder(t: Table, b: byte, i: nat, j: nat)
    requires ValidTable(t) && t.total == MAX_TOTAL
    ensures var s, u := Counted(t.syms, b), Updated(t, b);
      && |u.syms| == |s| <= 256 && MAX_TOTAL + 1 <= 2 * u.total <= MAX_TOTAL + 1 + |s|
      && (i < |s| && j < |s| && s[i].count <= s[j].count ==>
            u.syms[i].count <= u.syms[j].count && u.syms[i].sym == s[i].sym)
  {
    var s := Counted(t.syms, b);
    CountedFacts(t.syms, b);
    AtMost256(s);
    HalvedSum(s, |s|);
  }

  lemma CountedFacts(s: seq<Entry>, b: byte)
    requires Distinct(s) && Positive(s)
    ensures Distinct(Counted(s, b)) && Positive(Counted(s, b))
    ensures Sum(Counted(s, b), |Counted(s, b)|) == Sum(s, |s|) + 1
  {
    var i := IndexFrom(s, b, 0);
    if i < |s| {
      SumBumped(s, i, b, |s|);
    } else {
      SumPrefix(s, Entry(b, 1), |s|);
    }
  }

  /** `FreqTable::update`. */
  method CountSymbol(t: Table, b: byte) returns (t': Table)
    ensures t' == Updated(t, b)
  {
    var s := t.syms;
    var i := 0;
    while i < |s| && s[i].sym != b
      invariant 0 <= i <= |s| && IndexFrom(s, b, i) == IndexFrom(s, b, 0)
    {
      i := i + 1;
    }
    s := if i < |s| then s[i := Entry(b, s[i].count + 1)] else s + [Entry(b, 1)];
    var total := t.total + 1;
    if total > MAX_TOTAL {
      ghost var counted := s;
      total := 0;
      var k := 0;
      while k < |s|
        invariant 0 <= k <= |s| == |counted|
        invariant total == Sum(Halved(counted), k)
        invariant forall j :: 0 <= j < |s| ==> s[j] == if j < k then Halved(counted)[j] else counted[j]
      {
        s := s[k := Entry(s[k].sym, (s[k].count + 1) / 2)];
        total := total + s[k].count;
        k := k + 1;
      }
      assert s == Halved(counted);
    }
    t' := Table(s, total);
  }

  // ------------------------------------------------------------ history and keys

  const HISTORY_LIMIT: nat := 0x100_0000_0000

  datatype History = History(bytes: nat, len: nat)

  const NO_HISTORY := History(0, 0)

  function Push(h: History, b: byte): History {
    History((h.bytes * 256 + b) % HISTORY_LIMIT, if h.len < MAX_ORDER then h.len + 1 else MAX_ORDER)
  }

  /** The order in the top byte, the last `order` bytes below it. */
  function Key(h: History, order: nat): nat {
    order * HISTORY_LIMIT + h.bytes % Pow256(order)
  }

  function Pushed(h: History, data: seq<byte>): (r: History)
    decreases |data|
  {
    if data == [] then h else Push(Pushed(h, data[..|data| - 1]), data[|data| - 1])
  }

  function Last(data: seq<byte>, k: nat): seq<byte>
    requires k <= |data|
  {
    data[|data| - k..]
  }

  lemma {:induction false} HistoryIs(data: seq<byte>)
    ensures var h := Pushed(NO_HISTORY, data);
            h.bytes == Val(data) % Pow256(5) && h.len == if |data| < 5 then |data| else 5
    decreases |data|
  {
    assert Pow256(5) == HISTORY_LIMIT;
    if data != [] {
      var d, b := data[..|data| - 1], data[|data| - 1];
      HistoryIs(d);
      ShiftInto(Val(d), b);
    }
  }

  lemma ShiftInto(v: nat, b: byte)
    ensures (v % HISTORY_LIMIT * 256 + b) % HISTORY_LIMIT == (256 * v + b) % HISTORY_LIMIT
  {
    var q := v / HISTORY_LIMIT;
    assert v == HISTORY_LIMIT * q + v % HISTORY_LIMIT;
    assert 256 * v + b == HISTORY_LIMIT * (256 * q) + (v % HISTORY_LIMIT * 256 + b);
  }

  /** Reducing twice, the second time by a divisor. */
  lemma ModMod(v: nat, p: nat, q: nat, m: nat)
    requires p > 0 && m > 0 && m == p * q
    ensures v % m % p == v % p
  {
    var k, r := v / m, v % m;
    var a, c := r / p, r % p;
    Recompose(p, q, k, a, c, m, r);
    ModUnique(v, p, q * k + a, c);
  }

  lemma Recompose(p: nat, q: nat, k: nat, a: nat, c: nat, m: nat, r: nat)
    requires m == p * q && r == p * a + c
    ensures m * k + r == p * (q * k + a) + c
  {
    assert m * k == p * (q * k);
  }

  /** The history knows its last bytes. */
  lemma LastBytes(data: seq<byte>, order: nat)
    requires order <= Pushed(NO_HISTORY, data).len
    ensures order <= |data| && Pushed(NO_HISTORY, data).bytes % Pow256(order) == Val(Last(data, order))
  {
    hide Val, Pow256;
    HistoryIs(data);
    var p := Pow256(order);
    PowAdd(order, 5 - order);
    ModMod(Val(data), p, Pow256(5 - order), Pow256(5));
    ValTail(data, order, p);
  }

  lemma ValTail(data: seq<byte>, k: nat, p: nat)
    requires k <= |data| && p == Pow256(k)
    ensures Val(data) % p == Val(Last(data, k))
  {
    hide Val, Pow256;
    var a, z := data[..|data| - k], Last(data, k);
    assert data == a + z;
    ValConcat(a, z);
    ValBound(z);
    ModUnique(Val(data), p, Val(a), Val(z));
  }

  /** Two positions share a context exactly when order and context bytes are the same. */
  lemma KeysAreContexts(d: seq<byte>, e: seq<byte>, i: nat, j: nat)
    requires i <= Pushed(NO_HISTORY, d).len && j <= Pushed(NO_HISTORY, e).len
    ensures i <= |d| && j <= |e|
    ensures Key(Pushed(NO_HISTORY, d), i) == Key(Pushed(NO_HISTORY, e), j) <==> i == j && Last(d, i) == Last(e, j)
  {
    HistoryIs(d);
    HistoryIs(e);
    LastBytes(d, i);
    LastBytes(e, j);
    var x, y := Val(Last(d, i)), Val(Last(e, j));
    ContextBelowLimit(Last(d, i));
    ContextBelowLimit(Last(e, j));
    if i == j && x == y {
      ValInjective(Last(d, i), Last(e, j));
    }
  }

  /** Keys of different orders differ. */
  lemma KeysApart(h: History, i: nat, j: nat)
    requires i <= MAX_ORDER && j <= MAX_ORDER && i != j
    ensures Key(h, i) != Key(h, j)
  {
    KeyBelow(h, i);
    KeyBelow(h, j);
  }

  lemma KeyBelow(h: History, i: nat)
    requires i <= MAX_ORDER
    ensures Pow256(i) > 0 && 0 <= h.bytes % Pow256(i) < HISTORY_LIMIT
  {
    assert Pow256(5) == HISTORY_LIMIT;
    PowAdd(i, 5 - i);
    assert Pow256(i) <= Pow256(i) * Pow256(5 - i);
  }

  lemma ContextBelowLimit(z: seq<byte>)
    requires |z| <= 5
    ensures Val(z) < HISTORY_LIMIT
  {
    ValBound(z);
    assert Pow256(5) == HISTORY_LIMIT;
    PowAdd(|z|, 5 - |z|);
    assert Pow256(|z|) <= Pow256(|z|) * Pow256(5 - |z|);
  }
}
