/** Code lengths of a Huffman code: the Kraft sum in units of 2^-15, and the
    length limiting that keeps it at most one. */
module CodeLengths {
  import opened BitStrings
  import opened Counting

  const MAX_BITS: nat := 15
  const KRAFT_ONE: nat := 0x8000

  /** What a symbol of length `len`, capped at 15, takes of the code space. */
  function Share(len: nat): (r: nat)
    ensures r >= 1
  {
    if len <= MAX_BITS then Pow2(MAX_BITS - len) else 1
  }

  /** Code space taken, and number of overlong codes, over the symbols of `s` below `k`. */
  ghost function Taken(lens: seq<nat>, s: set<nat>, k: nat): nat
    requires k <= |lens|
  {
    if k == 0 then 0 else Taken(lens, s, k - 1) + if k - 1 in s then Share(lens[k - 1]) else 0
  }

  ghost function Overlong(lens: seq<nat>, s: set<nat>, k: nat): nat
    requires k <= |lens|
  {
    if k == 0 then 0 else Overlong(lens, s, k - 1) + if k - 1 in s && lens[k - 1] > MAX_BITS then 1 else 0
  }

  lemma {:induction false} TakenAdd(lens: seq<nat>, s: set<nat>, x: nat, k: nat)
    requires k <= |lens| && x !in s && x < |lens|
    ensures Taken(lens, s + {x}, k) == Taken(lens, s, k) + if x < k then Share(lens[x]) else 0
    ensures Overlong(lens, s + {x}, k) == Overlong(lens, s, k) + if x < k && lens[x] > MAX_BITS then 1 else 0
  {
    if k > 0 {
      TakenAdd(lens, s, x, k - 1);
    }
  }

  lemma {:induction false} TakenNone(lens: seq<nat>, k: nat)
    requires k <= |lens|
    ensures Taken(lens, {}, k) == 0 && Overlong(lens, {}, k) == 0
  {
    if k > 0 {
      TakenNone(lens, k - 1);
    }
  }

  lemma {:induction false} TakenUnion(lens: seq<nat>, s: set<nat>, u: set<nat>, k: nat)
    requires k <= |lens| && s !! u
    ensures Taken(lens, s + u, k) == Taken(lens, s, k) + Taken(lens, u, k)
    ensures Overlong(lens, s + u, k) == Overlong(lens, s, k) + Overlong(lens, u, k)
  {
    if k > 0 {
      TakenUnion(lens, s, u, k - 1);
    }
  }

  lemma {:induction false} NoneOverlong(lens: seq<nat>, s: set<nat>, k: nat)
    requires k <= |lens| && forall x :: x in s && x < |lens| ==> lens[x] <= MAX_BITS
    ensures Overlong(lens, s, k) == 0
  {
    if k > 0 {
      NoneOverlong(lens, s, k - 1);
    }
  }

  // ------------------------------------------------------------ counts per length

  /** Number of codes, and code space, of the lengths 1..k. */
  function Codes(bl: seq<int>, k: nat): int
    requires k < |bl|
  {
    if k == 0 then 0 else Codes(bl, k - 1) + bl[k]
  }

  function Space(bl: seq<int>, k: nat): int
    requires k < |bl|
  {
    if k == 0 then 0 else Space(bl, k - 1) + bl[k] * Share(k)
  }

  lemma {:induction false} CountsChange(bl: seq<int>, i: nat, d: int, k: nat)
    requires 1 <= i < |bl| && k < |bl|
    ensures Codes(bl[i := bl[i] + d], k) == Codes(bl, k) + if i <= k then d else 0
    ensures Space(bl[i := bl[i] + d], k) == Space(bl, k) + if i <= k then d * Share(i) else 0
  {
    if k > 0 {
      CountsChange(bl, i, d, k - 1);
      if i == k {
        assert (bl[i] + d) * Share(i) == bl[i] * Share(i) + d * Share(i);
      }
    }
  }

  lemma {:induction false} CountsEmpty(bl: seq<int>, k: nat)
    requires k < |bl| && forall l :: 1 <= l <= k ==> bl[l] == 0
    ensures Codes(bl, k) == 0 && Space(bl, k) == 0
  {
    if k > 0 {
      CountsEmpty(bl, k - 1);
    }
  }

  ghost predicate NoNegative(bl: seq<int>) {
    |bl| == MAX_BITS + 2 && bl[0] == 0 && forall l :: 1 <= l <= MAX_BITS ==> bl[l] >= 0
  }

  lemma {:induction false} CountsZero(bl: seq<int>, k: nat)
    requires NoNegative(bl) && k <= MAX_BITS && Codes(bl, k) <= 0
    ensures Codes(bl, k) == 0 && Space(bl, k) == 0
    ensures forall l :: 1 <= l <= k ==> bl[l] == 0
  {
    if k > 0 {
      CodesNatural(bl, k - 1);
      CountsZero(bl, k - 1);
    }
  }

  lemma {:induction false} CodesNatural(bl: seq<int>, k: nat)
    requires NoNegative(bl) && k <= MAX_BITS
    ensures Codes(bl, k) >= 0
  {
    if k > 0 {
      CodesNatural(bl, k - 1);
    }
  }

  /** Splitting one code of length `bits` and dropping one of 15 bits: as many codes
      as before, and one unit less of code space. */
  lemma SplitCode(bl: seq<int>, bits: nat)
    requires |bl| == MAX_BITS + 2 && 1 <= bits < MAX_BITS
    ensures var a := bl[bits := bl[bits] - 1];
            var b := a[bits + 1 := a[bits + 1] + 2];
            var c := b[MAX_BITS := b[MAX_BITS] - 1];
            Codes(c, MAX_BITS) == Codes(bl, MAX_BITS) && Space(c, MAX_BITS) == Space(bl, MAX_BITS) - 1
  {
    hide Codes, Space;
    var a := bl[bits := bl[bits] - 1];
    var b := a[bits + 1 := a[bits + 1] + 2];
    CountsChange(bl, bits, -1, MAX_BITS);
    CountsChange(a, bits + 1, 2, MAX_BITS);
    CountsChange(b, MAX_BITS, -1, MAX_BITS);
    assert Share(bits) == 2 * Share(bits + 1) && Share(MAX_BITS) == 1;
  }

  // ------------------------------------------------------------ limiting

  ghost predicate Distinct(s: seq<nat>, n: nat) {
    (forall k :: 0 <= k < |s| ==> s[k] < n) && forall i, j :: 0 <= i < j < |s| ==> s[i] != s[j]
  }

  /** Lengths usable for the symbols `s`: 1 to 15 bits, within the code space. */
  ghost predicate Limited(lens: seq<nat>, s: set<nat>) {
    && (forall x :: x in s && x < |lens| ==> 1 <= lens[x] <= MAX_BITS)
    && Taken(lens, s, |lens|) <= KRAFT_ONE
  }

  lemma NextElement(s: seq<nat>, k: nat)
    requires k < |s| && forall i, j :: 0 <= i < j < |s| ==> s[i] != s[j]
    ensures Elements(s[..k + 1]) == Elements(s[..k]) + {s[k]} && s[k] !in Elements(s[..k])
    ensures s[..k + 1] == s[..k] + [s[k]]
  {
    assert s[..k + 1] == s[..k] + [s[k]];
  }

  // ------------------------------------------------------------ capping

  /** How many of the first `k` listed lengths are too long. */
  function OverTo(lens: seq<nat>, nonzero: seq<nat>, k: nat): nat
    requires k <= |nonzero| && forall i :: 0 <= i < |nonzero| ==> nonzero[i] < |lens|
  {
    if k == 0 then 0 else OverTo(lens, nonzero, k - 1) + if lens[nonzero[k - 1]] > MAX_BITS then 1 else 0
  }

  function CapTo(lens: seq<nat>, nonzero: seq<nat>, k: nat): (c: seq<nat>)
    requires k <= |nonzero| && forall i :: 0 <= i < |nonzero| ==> nonzero[i] < |lens|
    ensures |c| == |lens|
  {
    seq(|lens|, i requires 0 <= i < |lens| => if i in nonzero[..k] && lens[i] > MAX_BITS then MAX_BITS else lens[i])
  }

  function Short15(len: nat): (l: nat)
    ensures l <= MAX_BITS
  {
    if len > MAX_BITS then MAX_BITS else len
  }

  /** Codes of each length among the first `k` listed, the overlong ones capped. */
  function CountsTo(lens: seq<nat>, nonzero: seq<nat>, k: nat): (bl: seq<int>)
    requires k <= |nonzero| && forall i :: 0 <= i < |nonzero| ==> nonzero[i] < |lens|
    ensures |bl| == MAX_BITS + 2
  {
    if k == 0 then seq(MAX_BITS + 2, i => 0)
    else
      var bl, l := CountsTo(lens, nonzero, k - 1), Short15(lens[nonzero[k - 1]]);
      bl[l := bl[l] + 1]
  }

  lemma {:induction false} CountsFacts(lens: seq<nat>, nonzero: seq<nat>, k: nat)
    requires Distinct(nonzero, |lens|) && k <= |nonzero|
    requires forall i :: 0 <= i < |nonzero| ==> lens[nonzero[i]] >= 1
    ensures var bl := CountsTo(lens, nonzero, k);
      && NoNegative(bl) && bl[MAX_BITS] >= OverTo(lens, nonzero, k) && Codes(bl, MAX_BITS) == k
      && Space(bl, MAX_BITS) == Taken(lens, Elements(nonzero[..k]), |lens|)
    ensures OverTo(lens, nonzero, k) == Overlong(lens, Elements(nonzero[..k]), |lens|)
  {
    hide Codes, Space, Taken, Overlong;
    if k == 0 {
      CountsEmpty(CountsTo(lens, nonzero, 0), MAX_BITS);
      TakenNone(lens, |lens|);
      assert Elements(nonzero[..0]) == {};
    } else {
      CountsFacts(lens, nonzero, k - 1);
      NextElement(nonzero, k - 1);
      var s := nonzero[k - 1];
      TakenAdd(lens, Elements(nonzero[..k - 1]), s, |lens|);
      CountsChange(CountsTo(lens, nonzero, k - 1), Short15(lens[s]), 1, MAX_BITS);
      assert Share(lens[s]) == Share(Short15(lens[s]));
    }
  }

  method AnyOver(lengths: array<nat>, nonzero: seq<nat>) returns (over: bool)
    requires Distinct(nonzero, lengths.Length)
    ensures over <==> OverTo(lengths[..], nonzero, |nonzero|) > 0
  {
    over := false;
    for i := 0 to |nonzero|
      invariant over <==> OverTo(lengths[..], nonzero, i) > 0
    {
      over := over || lengths[nonzero[i]] > MAX_BITS;
    }
  }

  /** Cap the lengths and count them. */
  method Cap(lengths: array<nat>, nonzero: seq<nat>) returns (bl: array<int>, overflow: nat)
    requires Distinct(nonzero, lengths.Length)
    modifies lengths
    ensures fresh(bl) && bl[..] == CountsTo(old(lengths[..]), nonzero, |nonzero|)
    ensures overflow == OverTo(old(lengths[..]), nonzero, |nonzero|)
    ensures lengths[..] == CapTo(old(lengths[..]), nonzero, |nonzero|)
  {
    hide CapTo, CountsTo, OverTo;
    ghost var was := lengths[..];
    bl := new int[MAX_BITS + 2](i => 0);
    overflow := 0;
    NothingCapped(was, nonzero, bl[..]);
    for k := 0 to |nonzero|
      invariant bl[..] == CountsTo(was, nonzero, k) && overflow == OverTo(was, nonzero, k)
      invariant lengths[..] == CapTo(was, nonzero, k)
    {
      var s := nonzero[k];
      CapNext(was, nonzero, k);
      if lengths[s] > MAX_BITS {
        overflow := overflow + 1;
        lengths[s] := MAX_BITS;
      }
      var l := lengths[s];
      assert lengths[..] == CapTo(was, nonzero, k)[s := l];
      ghost var before := bl[..];
      bl[l] := bl[l] + 1;
      assert bl[..] == before[l := before[l] + 1];
    }
  }

  lemma NothingCapped(lens: seq<nat>, nonzero: seq<nat>, bl: seq<int>)
    requires |bl| == MAX_BITS + 2 && (forall i :: 0 <= i < |bl| ==> bl[i] == 0)
    requires forall i :: 0 <= i < |nonzero| ==> nonzero[i] < |lens|
    ensures CapTo(lens, nonzero, 0) == lens && CountsTo(lens, nonzero, 0) == bl && OverTo(lens, nonzero, 0) == 0
  {
  }

  lemma CapNext(lens: seq<nat>, nonzero: seq<nat>, k: nat)
    requires Distinct(nonzero, |lens|) && k < |nonzero|
    ensures CapTo(lens, nonzero, k)[nonzero[k]] == lens[nonzero[k]]
    ensures CapTo(lens, nonzero, k + 1) == CapTo(lens, nonzero, k)[nonzero[k] := Short15(lens[nonzero[k]])]
    ensures var bl, l := CountsTo(lens, nonzero, k), Short15(lens[nonzero[k]]); CountsTo(lens, nonzero, k + 1) == bl[l := bl[l] + 1]
    ensures OverTo(lens, nonzero, k + 1) == OverTo(lens, nonzero, k) + if lens[nonzero[k]] > MAX_BITS then 1 else 0
  {
    NextElement(nonzero, k);
    assert nonzero[k] !in nonzero[..k];
  }

  // ------------------------------------------------------------ redistribution

  /** The deepest level at or above `bits` that has codes. */
  function DeepestAt(bl: seq<int>, bits: nat): (d: nat)
    requires bits < |bl|
    ensures d <= bits && (d > 0 ==> bl[d] != 0) && forall l :: d < l <= bits ==> bl[l] == 0
  {
    if bits == 0 || bl[bits] != 0 then bits else DeepestAt(bl, bits - 1)
  }

  /** One code of length `bits` becomes two that are longer, one of 15 bits goes. */
  function Split(bl: seq<int>, bits: nat): (r: seq<int>)
    requires |bl| == MAX_BITS + 2 && 1 <= bits < MAX_BITS
    ensures |r| == |bl|
  {
    var a := bl[bits := bl[bits] - 1];
    var b := a[bits + 1 := a[bits + 1] + 2];
    b[MAX_BITS := b[MAX_BITS] - 1]
  }

  function Redistributed(bl: seq<int>, overflow: nat): (r: seq<int>)
    requires |bl| == MAX_BITS + 2
    ensures |r| == |bl|
    decreases overflow
  {
    if overflow == 0 || DeepestAt(bl, MAX_BITS - 1) == 0 then bl
    else Redistributed(Split(bl, DeepestAt(bl, MAX_BITS - 1)), overflow - 1)
  }

  /** Every overlong code is paid for. */
  lemma {:induction false} RedistributedFits(bl: seq<int>, overflow: nat)
    requires NoNegative(bl) && bl[MAX_BITS] >= overflow && Codes(bl, MAX_BITS) <= KRAFT_ONE
    requires Space(bl, MAX_BITS) <= KRAFT_ONE + overflow
    ensures var r := Redistributed(bl, overflow);
      NoNegative(r) && Codes(r, MAX_BITS) == Codes(bl, MAX_BITS) && Space(r, MAX_BITS) <= KRAFT_ONE
    decreases overflow
  {
    hide Codes, Space;
    if overflow > 0 {
      var bits := DeepestAt(bl, MAX_BITS - 1);
      if bits == 0 {
        OnlyLongest(bl);
      } else {
        SplitCode(bl, bits);
        RedistributedFits(Split(bl, bits), overflow - 1);
      }
    }
  }

  /** Space less codes over the lengths 1..k: how many splits could still be made of them. */
  function Slack(bl: seq<int>, k: nat): int
    requires k < |bl|
  {
    Space(bl, k) - Codes(bl, k)
  }

  /** A split at `bits` takes one from the slack of every range that has `bits`, or more from
      the range that ends there. */
  lemma SplitSlack(bl: seq<int>, bits: nat, k: nat)
    requires |bl| == MAX_BITS + 2 && 1 <= bits < MAX_BITS && k < MAX_BITS
    ensures k < bits ==> Slack(Split(bl, bits), k) == Slack(bl, k) && Codes(Split(bl, bits), k) == Codes(bl, k)
    ensures bits <= k ==> Slack(Split(bl, bits), k) < Slack(bl, k)
    ensures Slack(Split(bl, bits), MAX_BITS - 1) - Slack(bl, MAX_BITS - 1) == -1
  {
    hide Codes, Space;
    var a := bl[bits := bl[bits] - 1];
    var b := a[bits + 1 := a[bits + 1] + 2];
    assert Share(bits) == 2 * Share(bits + 1) && Share(MAX_BITS) == 1;
    forall j: nat | j < MAX_BITS
      ensures Slack(Split(bl, bits), j) == Slack(bl, j) - (if bits <= j then Share(bits) - 1 else 0) + (if bits + 1 <= j then Share(bits) - 2 else 0)
      ensures j < bits ==> Codes(Split(bl, bits), j) == Codes(bl, j)
    {
      CountsChange(bl, bits, -1, j);
      CountsChange(a, bits + 1, 2, j);
      CountsChange(b, MAX_BITS, -1, j);
    }
  }

  lemma {:induction false} SlackNatural(bl: seq<int>, k: nat, j: nat)
    requires NoNegative(bl) && k <= j < MAX_BITS
    ensures Slack(bl, k) <= Slack(bl, j)
    ensures (forall l :: k < l <= j ==> bl[l] == 0) <==> Slack(bl, k) == Slack(bl, j)
    decreases j
  {
    hide Slack;
    if k < j {
      SlackNatural(bl, k, j - 1);
      SlackStep(bl, j);
    }
  }

  lemma SlackStep(bl: seq<int>, k: nat)
    requires NoNegative(bl) && 1 <= k < MAX_BITS
    ensures Slack(bl, k) >= Slack(bl, k - 1) && (Slack(bl, k) == Slack(bl, k - 1) <==> bl[k] == 0)
  {
    assert Share(k) == 2 * Share(k + 1) >= 2;
    Paid(bl[k], Share(k));
  }

  lemma Paid(codes: int, share: nat)
    requires codes >= 0 && share >= 2
    ensures codes * share >= codes && (codes * share == codes <==> codes == 0)
  {
  }

  lemma {:induction false} SlackSinks(bl: seq<int>, overflow: nat, k: nat)
    requires NoNegative(bl) && bl[MAX_BITS] >= overflow && k < MAX_BITS
    ensures Slack(Redistributed(bl, overflow), k) <= Slack(bl, k)
    decreases overflow
  {
    hide Slack;
    var bits := DeepestAt(bl, MAX_BITS - 1);
    if overflow > 0 && bits > 0 {
      SplitSlack(bl, bits, k);
      SlackSinks(Split(bl, bits), overflow - 1, k);
    }
  }

  ghost predicate SameTo(bl: seq<int>, r: seq<int>, k: nat)
    requires k < |bl| == |r|
  {
    forall l :: 0 <= l <= k ==> r[l] == bl[l]
  }

  lemma {:induction false} SameSlack(bl: seq<int>, r: seq<int>, k: nat)
    requires k < |bl| == |r| && SameTo(bl, r, k)
    ensures Slack(r, k) == Slack(bl, k)
  {
    if k > 0 {
      SameSlack(bl, r, k - 1);
    }
  }

  /** The longest codes pay first: lengths up to `k` keep their counts exactly when the codes
      between `k` and 15 can pay for every overlong one, or no code is so short. */
  lemma {:induction false} ShortCodesStay(bl: seq<int>, overflow: nat, k: nat)
    requires NoNegative(bl) && bl[MAX_BITS] >= overflow && k < MAX_BITS
    ensures SameTo(bl, Redistributed(bl, overflow), k)
       <==> overflow <= Slack(bl, MAX_BITS - 1) - Slack(bl, k) || forall l :: 1 <= l <= k ==> bl[l] == 0
    decreases overflow
  {
    hide Slack;
    SlackNatural(bl, k, MAX_BITS - 1);
    var bits := DeepestAt(bl, MAX_BITS - 1);
    if overflow > 0 && bits > 0 {
      var next := Split(bl, bits);
      SplitSlack(bl, bits, k);
      if bits > k {
        ShortCodesStay(next, overflow - 1, k);
        assert SameTo(bl, next, k);
      } else {
        SlackSinks(next, overflow - 1, k);
        if SameTo(bl, Redistributed(bl, overflow), k) {
          SameSlack(bl, Redistributed(bl, overflow), k);
        }
      }
    }
  }

  /** Split shorter codes until every overlong one is paid for. */
  method Redistribute(bl: array<int>, extra: nat)
    requires bl.Length == MAX_BITS + 2
    modifies bl
    ensures bl[..] == Redistributed(old(bl[..]), extra)
  {
    ghost var was := bl[..];
    var overflow := extra;
    while overflow > 0
      invariant Redistributed(bl[..], overflow) == Redistributed(was, extra)
    {
      var bits := MAX_BITS - 1;
      while bits > 0 && bl[bits] == 0
        invariant 0 <= bits < MAX_BITS && DeepestAt(bl[..], bits) == DeepestAt(bl[..], MAX_BITS - 1)
      {
        bits := bits - 1;
      }
      if bits == 0 {
        break;
      }
      ghost var a := bl[..];
      bl[bits] := bl[bits] - 1;
      ghost var b := bl[..];
      assert b == a[bits := a[bits] - 1];
      bl[bits + 1] := bl[bits + 1] + 2;
      ghost var c := bl[..];
      assert c == b[bits + 1 := b[bits + 1] + 2];
      bl[MAX_BITS] := bl[MAX_BITS] - 1;
      assert bl[..] == c[MAX_BITS := c[MAX_BITS] - 1];
      overflow := overflow - 1;
    }
  }

  /** All codes of 15 bits: 2^15 of them fit. */
  lemma OnlyLongest(bl: seq<int>)
    requires NoNegative(bl) && forall l :: 1 <= l < MAX_BITS ==> bl[l] == 0
    ensures Space(bl, MAX_BITS) == Codes(bl, MAX_BITS)
  {
    CountsEmpty(bl, MAX_BITS - 1);
  }

  // ------------------------------------------------------------ handing out

  /** The longest length at or below `bits` of which codes are left; 0 when none is. */
  function LongestLeft(bl: seq<int>, bits: nat): (l: nat)
    requires bits < |bl|
    ensures l <= bits && (l > 0 ==> bl[l] > 0) && forall k :: l < k <= bits ==> bl[k] <= 0
  {
    if bits == 0 || bl[bits] > 0 then bits else LongestLeft(bl, bits - 1)
  }

  /** The lengths when the longest left goes to each symbol of `order` in turn. */
  function HandedOut(lens: seq<nat>, order: seq<nat>, bl: seq<int>): (r: seq<nat>)
    requires |bl| == MAX_BITS + 2 && forall i :: 0 <= i < |order| ==> order[i] < |lens|
    ensures |r| == |lens| && forall i :: 0 <= i < |lens| && i !in order ==> r[i] == lens[i]
    decreases |order|
  {
    if order == [] then lens
    else
      var bits := LongestLeft(bl, MAX_BITS);
      if bits == 0 then HandedOut(lens, order[1..], bl)
      else HandedOut(lens[order[0] := bits], order[1..], bl[bits := bl[bits] - 1])
  }

  /** Lengths from `top` down to 1 that do not increase along `order`. */
  ghost predicate Descends(lens: seq<nat>, order: seq<nat>, top: nat) {
    && (forall i :: 0 <= i < |order| ==> order[i] < |lens| && 1 <= lens[order[i]] <= top)
    && forall i, j :: 0 <= i < j < |order| ==> lens[order[i]] >= lens[order[j]]
  }

  lemma DescendsCons(lens: seq<nat>, order: seq<nat>, top: nat, low: nat)
    requires order != [] && order[0] < |lens| && lens[order[0]] == top && 1 <= top && low <= top
    requires Descends(lens, order[1..], low)
    ensures Descends(lens, order, top)
  {
    assert forall i :: 1 <= i < |order| ==> order[i] == order[1..][i - 1];
  }

  /** With a code left for every symbol, each gets one, none longer than those before it, and
      the code space is what the counts take. */
  lemma {:induction false} HandedOutFits(lens: seq<nat>, order: seq<nat>, bl: seq<int>)
    requires Distinct(order, |lens|) && NoNegative(bl) && Codes(bl, MAX_BITS) == |order|
    ensures var r := HandedOut(lens, order, bl);
      Descends(r, order, LongestLeft(bl, MAX_BITS)) && Taken(r, Elements(order), |r|) == Space(bl, MAX_BITS)
    decreases |order|
  {
    hide Codes, Space, Taken, Descends;
    if order == [] {
      assert Elements(order) == {};
      TakenNone(lens, |lens|);
      CountsZero(bl, MAX_BITS);
      DescendsNone(lens, LongestLeft(bl, MAX_BITS));
    } else {
      var bits := LongestLeft(bl, MAX_BITS);
      SomeLeft(bl);
      var later, fewer := lens[order[0] := bits], bl[bits := bl[bits] - 1];
      var r := HandedOut(later, order[1..], fewer);
      assert r == HandedOut(lens, order, bl);
      hide HandedOut;
      CountsChange(bl, bits, -1, MAX_BITS);
      FirstApart(order);
      HandedOutFits(later, order[1..], fewer);
      assert r[order[0]] == bits;
      TakenAdd(r, Elements(order[1..]), order[0], |r|);
      DescendsCons(r, order, bits, LongestLeft(fewer, MAX_BITS));
    }
  }

  lemma DescendsNone(lens: seq<nat>, top: nat)
    ensures Descends(lens, [], top)
  {
  }

  lemma FirstApart(s: seq<nat>)
    requires s != [] && forall i, j :: 0 <= i < j < |s| ==> s[i] != s[j]
    ensures s[0] !in s[1..] && s[0] !in Elements(s[1..]) && Elements(s) == Elements(s[1..]) + {s[0]}
  {
    assert s == [s[0]] + s[1..];
  }

  lemma SomeLeft(bl: seq<int>)
    requires NoNegative(bl) && Codes(bl, MAX_BITS) > 0
    ensures LongestLeft(bl, MAX_BITS) > 0
  {
    hide Codes;
    if LongestLeft(bl, MAX_BITS) == 0 {
      CountsEmpty(bl, MAX_BITS);
    }
  }

  method LongestOf(bl: array<int>) returns (bits: nat)
    requires bl.Length == MAX_BITS + 2
    ensures bits == LongestLeft(bl[..], MAX_BITS)
  {
    bits := MAX_BITS;
    while bits > 0 && bl[bits] <= 0
      invariant 0 <= bits <= MAX_BITS && LongestLeft(bl[..], bits) == LongestLeft(bl[..], MAX_BITS)
      decreases bits
    {
      bits := bits - 1;
    }
  }

  /** Hand the lengths out, longest first, in the given order of the symbols. */
  method Reassign(lengths: array<nat>, order: seq<nat>, bl: array<int>)
    requires Distinct(order, lengths.Length) && bl.Length == MAX_BITS + 2
    modifies lengths, bl
    ensures lengths[..] == HandedOut(old(lengths[..]), order, old(bl[..]))
  {
    hide HandedOut, LongestLeft;
    ghost var goal := HandedOut(lengths[..], order, bl[..]);
    assert order[0..] == order;
    for k := 0 to |order|
      invariant HandedOut(lengths[..], order[k..], bl[..]) == goal
    {
      var sym := order[k];
      assert order[k..][0] == sym && order[k..][1..] == order[k + 1..];
      var bits := LongestOf(bl);
      HandNext(lengths[..], order[k..], bl[..]);
      if bits > 0 {
        ghost var before, lensBefore := bl[..], lengths[..];
        lengths[sym] := bits;
        bl[bits] := bl[bits] - 1;
        assert bl[..] == before[bits := before[bits] - 1];
        assert lengths[..] == lensBefore[sym := bits];
      }
    }
    assert order[|order|..] == [];
    HandNone(lengths[..], bl[..]);
  }

  lemma HandNext(lens: seq<nat>, order: seq<nat>, bl: seq<int>)
    requires |bl| == MAX_BITS + 2 && order != [] && forall i :: 0 <= i < |order| ==> order[i] < |lens|
    ensures var bits := LongestLeft(bl, MAX_BITS);
      HandedOut(lens, order, bl) ==
        if bits == 0 then HandedOut(lens, order[1..], bl)
        else HandedOut(lens[order[0] := bits], order[1..], bl[bits := bl[bits] - 1])
  {
  }

  lemma HandNone(lens: seq<nat>, bl: seq<int>)
    requires |bl| == MAX_BITS + 2
    ensures HandedOut(lens, [], bl) == lens
  {
  }

  // ------------------------------------------------------------ order

  /** Longest first; among equal lengths the smaller symbol first. */
  predicate Precedes(lens: seq<nat>, a: nat, b: nat)
    requires a < |lens| && b < |lens|
  {
    lens[a] > lens[b] || (lens[a] == lens[b] && a <= b)
  }

  ghost predicate InOrder(lens: seq<nat>, s: seq<nat>) {
    && (forall i :: 0 <= i < |s| ==> s[i] < |lens|)
    && forall i, j :: 0 <= i < j < |s| ==> Precedes(lens, s[i], s[j])
  }

  function Place(lens: seq<nat>, s: seq<nat>, x: nat, at: nat): (p: nat)
    requires at <= |s| && x < |lens| && forall i :: 0 <= i < |s| ==> s[i] < |lens|
    ensures p <= at && (p > 0 ==> Precedes(lens, s[p - 1], x)) && forall j :: p <= j < at ==> !Precedes(lens, s[j], x)
  {
    if at > 0 && !Precedes(lens, s[at - 1], x) then Place(lens, s, x, at - 1) else at
  }

  function PutInOrder(lens: seq<nat>, s: seq<nat>, x: nat): (r: seq<nat>)
    requires x < |lens| && forall i :: 0 <= i < |s| ==> s[i] < |lens|
    ensures |r| == |s| + 1 && forall i :: 0 <= i < |r| ==> r[i] < |lens|
  {
    var p := Place(lens, s, x, |s|);
    s[..p] + [x] + s[p..]
  }

  /** The symbols by that order. */
  function ByLength(lens: seq<nat>, nonzero: seq<nat>): (s: seq<nat>)
    requires forall i :: 0 <= i < |nonzero| ==> nonzero[i] < |lens|
    ensures |s| == |nonzero| && forall i :: 0 <= i < |s| ==> s[i] < |lens|
  {
    if nonzero == [] then [] else PutInOrder(lens, ByLength(lens, nonzero[..|nonzero| - 1]), nonzero[|nonzero| - 1])
  }

  lemma {:induction false} ByLengthSorts(lens: seq<nat>, nonzero: seq<nat>)
    requires Distinct(nonzero, |lens|)
    ensures var s := ByLength(lens, nonzero); Distinct(s, |lens|) && Elements(s) == Elements(nonzero) && InOrder(lens, s)
  {
    hide Precedes, InOrder;
    if nonzero == [] {
      NothingInOrder(lens);
    } else {
      var n := |nonzero| - 1;
      var t, x := ByLength(lens, nonzero[..n]), nonzero[n];
      ByLengthSorts(lens, nonzero[..n]);
      NextElement(nonzero, n);
      assert nonzero[..n + 1] == nonzero;
      var p := Place(lens, t, x, |t|);
      assert ByLength(lens, nonzero) == t[..p] + [x] + t[p..];
      hide ByLength, PutInOrder;
      InsertedElements(t, x, p);
      InsertedInOrder(lens, t, x, p);
      InsertedDistinct(t, x, p, |lens|);
    }
  }

  lemma NothingInOrder(lens: seq<nat>)
    ensures InOrder(lens, [])
  {
  }

  lemma InsertedDistinct(s: seq<nat>, x: nat, at: nat, n: nat)
    requires Distinct(s, n) && x < n && x !in Elements(s) && at <= |s|
    ensures Distinct(s[..at] + [x] + s[at..], n)
  {
    assert forall i :: 0 <= i < |s| ==> s[i] in Elements(s);
  }

  lemma InsertedInOrder(lens: seq<nat>, s: seq<nat>, x: nat, at: nat)
    requires InOrder(lens, s) && x < |lens| && at <= |s|
    requires at > 0 ==> Precedes(lens, s[at - 1], x)
    requires forall j :: at <= j < |s| ==> !Precedes(lens, s[j], x)
    ensures InOrder(lens, s[..at] + [x] + s[at..])
  {
    assert forall i :: 0 <= i < at ==> Precedes(lens, s[i], s[at - 1]) || i == at - 1;
  }

  lemma InsertedElements(s: seq<nat>, x: nat, at: nat)
    requires at <= |s| && x !in s
    ensures Elements(s[..at] + [x] + s[at..]) == Elements(s) + {x}
  {
    assert s == s[..at] + s[at..];
  }

  method SortByLength(lengths: array<nat>, nonzero: seq<nat>) returns (sorted: seq<nat>)
    requires Distinct(nonzero, lengths.Length)
    ensures sorted == ByLength(lengths[..], nonzero)
  {
    sorted := [];
    for k := 0 to |nonzero|
      invariant sorted == ByLength(lengths[..], nonzero[..k])
    {
      var s := nonzero[k];
      assert nonzero[..k + 1][..k] == nonzero[..k];
      var at := k;
      while at > 0 && !Precedes(lengths[..], sorted[at - 1], s)
        invariant 0 <= at <= k && Place(lengths[..], sorted, s, at) == Place(lengths[..], sorted, s, k)
        decreases at
      {
        at := at - 1;
      }
      sorted := sorted[..at] + [s] + sorted[at..];
    }
    assert nonzero[..|nonzero|] == nonzero;
  }

  // ------------------------------------------------------------ all of it

  /** The lengths after limiting, a function of the lengths before. */
  function LimitedLengths(lens: seq<nat>, nonzero: seq<nat>): (r: seq<nat>)
    requires forall i :: 0 <= i < |nonzero| ==> nonzero[i] < |lens|
    ensures |r| == |lens|
  {
    var over := OverTo(lens, nonzero, |nonzero|);
    if over == 0 then lens
    else
      var capped := CapTo(lens, nonzero, |nonzero|);
      HandedOut(capped, ByLength(capped, nonzero), Redistributed(CountsTo(lens, nonzero, |nonzero|), over))
  }

  /** Every length ends in 1 .. 15 and the code space is not exceeded, although capping alone
      may have exceeded it. */
  lemma LimitedFits(lens: seq<nat>, nonzero: seq<nat>)
    requires Distinct(nonzero, |lens|) && |nonzero| <= KRAFT_ONE
    requires forall k :: 0 <= k < |nonzero| ==> lens[nonzero[k]] >= 1
    requires Taken(lens, Elements(nonzero), |lens|) <= KRAFT_ONE + Overlong(lens, Elements(nonzero), |lens|)
    ensures var r := LimitedLengths(lens, nonzero);
      && Limited(r, Elements(nonzero))
      && (forall i :: 0 <= i < |lens| && i !in nonzero ==> r[i] == lens[i])
      && (Overlong(lens, Elements(nonzero), |lens|) == 0 ==> r == lens)
  {
    hide *;
    DistinctFacts(nonzero, |lens|);
    var n := |nonzero|;
    var over := OverTo(lens, nonzero, n);
    CountsFacts(lens, nonzero, n);
    assert nonzero[..n] == nonzero;
    if over == 0 {
      NoneOver(lens, nonzero, n);
      NothingLimited(lens, nonzero);
    } else {
      var capped := CapTo(lens, nonzero, n);
      var order, bl := ByLength(capped, nonzero), Redistributed(CountsTo(lens, nonzero, n), over);
      ByLengthSorts(capped, nonzero);
      DistinctFacts(order, |lens|);
      CapKeeps(lens, nonzero);
      RedistributedFits(CountsTo(lens, nonzero, n), over);
      HandedOutFits(capped, order, bl);
      assert LimitedLengths(lens, nonzero) == HandedOut(capped, order, bl) by {
        LimitedIs(lens, nonzero);
      }
      LimitedFrom(HandedOut(capped, order, bl), capped, order, nonzero, LongestLeft(bl, MAX_BITS));
    }
  }

  /** Limiting keeps the order of the capped lengths: a symbol deeper in the tree never gets the
      shorter code, and among equal ones the smaller symbol never does. */
  lemma LimitKeepsOrder(lens: seq<nat>, nonzero: seq<nat>, a: nat, b: nat)
    requires Distinct(nonzero, |lens|) && |nonzero| <= KRAFT_ONE && a in nonzero && b in nonzero
    requires forall k :: 0 <= k < |nonzero| ==> lens[nonzero[k]] >= 1
    requires Taken(lens, Elements(nonzero), |lens|) <= KRAFT_ONE + Overlong(lens, Elements(nonzero), |lens|)
    ensures a < |lens| && b < |lens|
    ensures Short15(lens[a]) < Short15(lens[b]) ==> LimitedLengths(lens, nonzero)[a] <= LimitedLengths(lens, nonzero)[b]
    ensures Short15(lens[a]) == Short15(lens[b]) && a < b ==> LimitedLengths(lens, nonzero)[a] >= LimitedLengths(lens, nonzero)[b]
  {
    hide *;
    DistinctFacts(nonzero, |lens|);
    var n := |nonzero|;
    var over := OverTo(lens, nonzero, n);
    CountsFacts(lens, nonzero, n);
    assert nonzero[..n] == nonzero;
    if over == 0 {
      NoneOver(lens, nonzero, n);
      NothingOver(lens, nonzero, a, b);
    } else {
      var capped := CapTo(lens, nonzero, n);
      var order, bl := ByLength(capped, nonzero), Redistributed(CountsTo(lens, nonzero, n), over);
      ByLengthSorts(capped, nonzero);
      RedistributedFits(CountsTo(lens, nonzero, n), over);
      DistinctFacts(order, |lens|);
      HandedOutFits(capped, order, bl);
      LimitedIs(lens, nonzero);
      Capped(lens, nonzero, a);
      Capped(lens, nonzero, b);
      InElements(nonzero, order, a);
      InElements(nonzero, order, b);
      OrderHandsOut(capped, order, HandedOut(capped, order, bl), LongestLeft(bl, MAX_BITS), a, b);
      OrderHandsOut(capped, order, HandedOut(capped, order, bl), LongestLeft(bl, MAX_BITS), b, a);
    }
  }

  lemma NothingOver(lens: seq<nat>, nonzero: seq<nat>, a: nat, b: nat)
    requires Distinct(nonzero, |lens|) && OverTo(lens, nonzero, |nonzero|) == 0 && a in nonzero && b in nonzero
    requires forall k :: 0 <= k < |nonzero| ==> lens[nonzero[k]] <= MAX_BITS
    ensures LimitedLengths(lens, nonzero) == lens && Short15(lens[a]) == lens[a] && Short15(lens[b]) == lens[b]
  {
    hide OverTo;
  }

  lemma Capped(lens: seq<nat>, nonzero: seq<nat>, a: nat)
    requires Distinct(nonzero, |lens|) && a in nonzero
    ensures CapTo(lens, nonzero, |nonzero|)[a] == Short15(lens[a])
  {
    assert nonzero[..|nonzero|] == nonzero;
  }

  lemma InElements(s: seq<nat>, t: seq<nat>, a: nat)
    requires Elements(s) == Elements(t) && a in s
    ensures a in t
  {
    assert a in Elements(s);
  }

  /** Along an order by length, lengths that do not increase go the same way. */
  lemma OrderHandsOut(lens: seq<nat>, order: seq<nat>, r: seq<nat>, top: nat, a: nat, b: nat)
    requires InOrder(lens, order) && Descends(r, order, top) && |r| == |lens| && a in order && b in order
    ensures a < |lens| && b < |lens|
    ensures lens[a] < lens[b] || (lens[a] == lens[b] && b < a) ==> r[a] <= r[b]
  {
    var i :| 0 <= i < |order| && order[i] == a;
    var j :| 0 <= j < |order| && order[j] == b;
    assert i < j ==> Precedes(lens, order[i], order[j]);
  }

  lemma DistinctFacts(s: seq<nat>, n: nat)
    requires Distinct(s, n)
    ensures |Elements(s)| == |s| && forall i :: 0 <= i < |s| ==> s[i] < n
  {
    DistinctSize(s);
  }

  lemma CapKeeps(lens: seq<nat>, nonzero: seq<nat>)
    requires forall i :: 0 <= i < |nonzero| ==> nonzero[i] < |lens|
    ensures forall i :: 0 <= i < |lens| && i !in nonzero ==> CapTo(lens, nonzero, |nonzero|)[i] == lens[i]
  {
    assert nonzero[..|nonzero|] == nonzero;
  }

  lemma NothingLimited(lens: seq<nat>, nonzero: seq<nat>)
    requires Distinct(nonzero, |lens|) && OverTo(lens, nonzero, |nonzero|) == 0
    requires forall k :: 0 <= k < |nonzero| ==> 1 <= lens[nonzero[k]] <= MAX_BITS
    requires Taken(lens, Elements(nonzero), |lens|) <= KRAFT_ONE
    ensures LimitedLengths(lens, nonzero) == lens && Limited(lens, Elements(nonzero))
  {
    hide Taken, OverTo;
  }

  lemma LimitedIs(lens: seq<nat>, nonzero: seq<nat>)
    requires Distinct(nonzero, |lens|) && OverTo(lens, nonzero, |nonzero|) > 0
    ensures var capped := CapTo(lens, nonzero, |nonzero|);
      LimitedLengths(lens, nonzero) == HandedOut(capped, ByLength(capped, nonzero),
        Redistributed(CountsTo(lens, nonzero, |nonzero|), OverTo(lens, nonzero, |nonzero|)))
  {
    hide CapTo, HandedOut, ByLength, Redistributed, CountsTo, OverTo;
  }

  lemma LimitedFrom(r: seq<nat>, capped: seq<nat>, order: seq<nat>, nonzero: seq<nat>, top: nat)
    requires |r| == |capped| && Elements(order) == Elements(nonzero) && Descends(r, order, top) && top <= MAX_BITS
    requires Taken(r, Elements(order), |r|) <= KRAFT_ONE
    requires forall i :: 0 <= i < |r| && i !in order ==> r[i] == capped[i]
    ensures Limited(r, Elements(nonzero))
    ensures forall i :: 0 <= i < |r| && i !in nonzero ==> r[i] == capped[i]
  {
    hide Taken;
    assert forall i :: i in order <==> i in Elements(order);
    assert forall i :: i in nonzero <==> i in Elements(nonzero);
  }

  lemma {:induction false} NoneOver(lens: seq<nat>, nonzero: seq<nat>, k: nat)
    requires k <= |nonzero| && (forall i :: 0 <= i < |nonzero| ==> nonzero[i] < |lens|) && OverTo(lens, nonzero, k) == 0
    ensures forall i :: 0 <= i < k ==> lens[nonzero[i]] <= MAX_BITS
  {
    if k > 0 {
      NoneOver(lens, nonzero, k - 1);
    }
  }

  /** `limit_code_lengths` at 15 bits. */
  method LimitCodeLengths(lengths: array<nat>, nonzero: seq<nat>)
    requires Distinct(nonzero, lengths.Length)
    modifies lengths
    ensures lengths[..] == LimitedLengths(old(lengths[..]), nonzero)
  {
    hide CountsTo, CapTo, HandedOut, Redistributed, ByLength;
    var over := AnyOver(lengths, nonzero);
    if !over {
      return;
    }
    var bl, overflow := Cap(lengths, nonzero);
    Redistribute(bl, overflow);
    var sorted := SortByLength(lengths, nonzero);
    SortedDistinct(lengths[..], nonzero);
    Reassign(lengths, sorted, bl);
  }

  lemma SortedDistinct(lens: seq<nat>, nonzero: seq<nat>)
    requires Distinct(nonzero, |lens|)
    ensures Distinct(ByLength(lens, nonzero), |lens|)
  {
    ByLengthSorts(lens, nonzero);
  }
}
