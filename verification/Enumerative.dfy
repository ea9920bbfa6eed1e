/** Exact enumerative coding: a set of positions is stored as its rank. */
module Enumerative {
  import opened Arithmetic
  import opened BitStrings
  import opened BigNat
  import opened Binomials
  import opened Counting
  import opened Sequences

  /** Sizes for which every factor and divisor on the way fits 32 bits. */
  const SIZE_LIMIT: nat := HALF

  /** Multiply, then divide by a factor of the product: nothing is lost. */
  method Ratio(v: Big, m: nat, d: nat, ghost result: nat)
    requires v.Valid() && m < HALF && 0 < d < HALF && v.Num() * m == result * d
    modifies v
    ensures v.Valid() && v.Num() == result
  {
    v.MulSmall(m);
    var rem := v.DivSmall(d);
    QuotientUnique(v.Num(), rem, result, d);
  }

  lemma QuotientUnique(q: nat, rem: nat, y: nat, d: nat)
    requires d > 0 && rem < d && q * d + rem == y * d
    ensures q == y
  {
    if q < y {
      MulLe(q + 1, y, d, d);
      MulAdd(q, 1, d);
    } else if y < q {
      MulLe(y + 1, q, d, d);
      MulAdd(y, 1, d);
    }
  }

  method Binom(n: nat, k: nat) returns (c: Big)
    requires n < SIZE_LIMIT
    ensures fresh(c) && c.Valid() && c.Num() == C(n, k)
  {
    hide C;
    if k > n {
      TooMany(n, k);
      c := new Big.Zero();
      return;
    }
    Symmetric(n, k);
    var m := if k < n - k then k else n - k;
    c := new Big.One();
    ChooseNone(n);
    for i := 0 to m
      invariant fresh(c) && c.Valid() && c.Num() == C(n, i)
    {
      NextChoice(n, i);
      Ratio(c, n - i, i + 1, C(n, i + 1));
    }
  }

  // ------------------------------------------------------------ ranking

  /** Positions of the set bits, ascending. */
  function Ones(e: seq<bool>): (r: seq<nat>)
    ensures forall i :: 0 <= i < |r| ==> r[i] < |e|
  {
    if e == [] then []
    else
      var r := Ones(e[..|e| - 1]);
      if e[|e| - 1] then r + [|e| - 1] else r
  }

  lemma {:induction false} OnesAscend(e: seq<bool>)
    ensures Positions(Ones(e), |e|)
    ensures forall p: nat :: p in Ones(e) <==> p < |e| && e[p]
  {
    if e != [] {
      OnesAscend(e[..|e| - 1]);
    }
  }

  /** Two bitmaps of one length with the same ones are the same. */
  lemma OnesDetermine(e: seq<bool>, f: seq<bool>)
    requires |e| == |f| && Ones(e) == Ones(f)
    ensures e == f
  {
    OnesAscend(e);
    OnesAscend(f);
    forall p | 0 <= p < |e| ensures e[p] == f[p] {
      assert p in Ones(e) <==> p in Ones(f);
    }
  }

  ghost function RankOf(e: seq<bool>): nat {
    Rank(Ones(e), |Ones(e)|)
  }

  /** Each binomial on its own. */
  method RankDirect(ones: seq<nat>) returns (rank: Big)
    requires Positions(ones, SIZE_LIMIT)
    ensures fresh(rank) && rank.Valid() && rank.Num() == Rank(ones, |ones|)
  {
    hide C;
    rank := new Big.Zero();
    for i := 0 to |ones|
      invariant fresh(rank) && rank.Valid() && rank.Num() == Rank(ones, i)
    {
      var b := Binom(ones[i], i + 1);
      rank.Add(b);
    }
  }

  /** C(a, i) for the next a. */
  method StepUp(v: Big, a: nat, i: nat) returns (w: Big)
    requires v.Valid() && v.Num() == C(a, i) && 1 <= i && a + 1 < SIZE_LIMIT
    modifies v
    ensures w.Valid() && w.Num() == C(a + 1, i) && (w == v || fresh(w))
  {
    hide C;
    w := v;
    if a + 1 == i {
      AllOf(i);
      w := new Big.One();
    } else if a + 1 > i {
      Shrink(a + 1, i);
      Ratio(w, a + 1, a + 1 - i, C(a + 1, i));
    } else {
      TooMany(a + 1, i);
      TooMany(a, i);
    }
  }

  /** Walking every position once, updating C(a, i) as it goes. */
  method RankIncremental(ones: seq<nat>) returns (rank: Big)
    requires Positions(ones, SIZE_LIMIT)
    ensures fresh(rank) && rank.Valid() && rank.Num() == Rank(ones, |ones|)
  {
    hide C;
    rank := new Big.Zero();
    var v := new Big.Zero();
    TooMany(0, 1);
    var a := 0;
    for k := 0 to |ones|
      invariant fresh(rank) && fresh(v) && rank != v && rank.Valid() && v.Valid()
      invariant rank.Num() == Rank(ones, k) && v.Num() == C(a, k + 1)
      invariant 0 <= a && (k < |ones| ==> a <= ones[k]) && (k > 0 ==> a == ones[k - 1])
    {
      var i := k + 1;
      var p := ones[k];
      while a < p
        invariant fresh(v) && rank != v && v.Valid() && v.Num() == C(a, i) && 0 <= a <= p
        invariant fresh(rank) && rank.Valid() && rank.Num() == Rank(ones, k)
      {
        v := StepUp(v, a, i);
        a := a + 1;
      }
      rank.Add(v);
      if a > i {
        NextChoice(a, i);
        Ratio(v, a - i, i + 1, C(a, i + 1));
      } else {
        TooMany(a, i + 1);
        v := new Big.Zero();
      }
    }
  }

  method OnesOf(e: seq<bool>) returns (ones: seq<nat>)
    ensures ones == Ones(e)
  {
    ones := [];
    for p := 0 to |e|
      invariant ones == Ones(e[..p])
    {
      assert e[..p + 1][..p] == e[..p];
      if e[p] {
        ones := ones + [p];
      }
    }
    assert e[..|e|] == e;
  }

  /** Sparse maps sum the binomials directly, dense ones walk: the rank is the same. */
  method RankBits(e: seq<bool>) returns (rank: Big)
    requires |e| < SIZE_LIMIT
    ensures fresh(rank) && rank.Valid() && rank.Num() == RankOf(e) < C(|e|, |Ones(e)|)
  {
    OnesAscend(e);
    RankBelow(Ones(e), |Ones(e)|, |e|);
    var ones := OnesOf(e);
    var t := |ones|;
    if t * t / 2 < |e| {
      rank := RankDirect(ones);
    } else {
      rank := RankIncremental(ones);
    }
  }

  // ------------------------------------------------------------ unranking

  /** Bits set so far: the positions in `ones`. */
  ghost predicate Marks(out: seq<bool>, ones: seq<nat>) {
    Positions(ones, |out|) && forall p: nat :: p < |out| ==> (out[p] <==> p in ones)
  }

  lemma MarkedOnes(out: seq<bool>, ones: seq<nat>)
    requires Marks(out, ones)
    ensures Ones(out) == ones
  {
    OnesAscend(out);
    assert Elements(Ones(out)) == Elements(ones);
    AscendingUnique(Ones(out), ones, |out|);
  }

  lemma {:induction false} AscendingUnique(a: seq<nat>, b: seq<nat>, n: nat)
    requires Positions(a, n) && Positions(b, n) && Elements(a) == Elements(b)
    ensures a == b
    decreases |a|
  {
    FirstIn(a);
    FirstIn(b);
    if a != [] && b != [] {
      LastApart(a, n);
      LastApart(b, n);
      AscendingUnique(a[..|a| - 1], b[..|b| - 1], n);
      assert a == a[..|a| - 1] + [a[|a| - 1]] && b == b[..|b| - 1] + [b[|b| - 1]];
    }
  }

  lemma FirstIn(a: seq<nat>)
    ensures a == [] <==> Elements(a) == {}
  {
    assert a != [] ==> a[0] in Elements(a);
  }

  /** The last position is the largest, and the others are those before it. */
  lemma LastApart(a: seq<nat>, n: nat)
    requires Positions(a, n) && a != []
    ensures Elements(a[..|a| - 1]) == Elements(a) - {a[|a| - 1]}
    ensures a[|a| - 1] in Elements(a) && forall x: nat :: x in Elements(a) ==> x <= a[|a| - 1]
  {
    var m := |a| - 1;
    assert a == a[..m] + [a[m]];
  }

  /** The largest position whose binomial fits, scanning down; C(i - 1, i) = 0 always
      fits, so the scan cannot run past position 0. */
  method ScanDown(v: Big, rest: Big, from: nat, i: nat) returns (p: nat, w: Big)
    requires v.Valid() && rest.Valid() && v != rest && v.Num() == C(from, i) && 1 <= i && from < SIZE_LIMIT
    modifies v
    ensures p <= from && w.Valid() && w.Num() == C(p, i) && (w == v || fresh(w)) && w != rest
    ensures C(p, i) <= rest.Num() && (from >= i - 1 ==> p >= i - 1)
    ensures p < from ==> rest.Num() < C(p + 1, i)
  {
    hide C;
    p, w := from, v;
    var c := w.Compare(rest);
    while c > 0
      invariant p <= from && w.Valid() && w.Num() == C(p, i) && (w == v || fresh(w)) && w != rest
      invariant rest.Num() == old(rest.Num()) && rest.Valid()
      invariant (c > 0) <==> C(p, i) > rest.Num()
      invariant p < from ==> rest.Num() < C(p + 1, i)
      invariant from >= i - 1 ==> p >= i - 1
      decreases p
    {
      if p < i {
        TooMany(p, i);
      }
      if p > i {
        Shrink(p, i);
        Ratio(w, p - i, p, C(p - 1, i));
      } else {
        TooMany(p - 1, i);
        w := new Big.Zero();
      }
      p := p - 1;
      c := w.Compare(rest);
    }
  }

  /** Sum of C(p, i) over positions that belong to the indices i + 1 and up. */
  ghost function RankTail(tail: seq<nat>, i: nat): nat
    decreases |tail|
  {
    if tail == [] then 0 else C(tail[0], i + 1) + RankTail(tail[1..], i + 1)
  }

  lemma {:induction false} TailIsRank(s: seq<nat>, k: nat)
    requires k <= |s|
    ensures Rank(s, k) + RankTail(s[k..], k) == Rank(s, |s|)
    decreases |s| - k
  {
    if k < |s| {
      TailIsRank(s, k + 1);
      assert s[k..][1..] == s[k + 1..];
    }
  }

  /** Above the positions still to come lie those already chosen. */
  ghost predicate Chosen(out: seq<bool>, tail: seq<nat>, bound: nat) {
    Marks(out, tail) && forall j :: 0 <= j < |tail| ==> bound <= tail[j]
  }

  lemma ChooseNext(out: seq<bool>, tail: seq<nat>, p: nat)
    requires Chosen(out, tail, p + 1) && p < |out|
    ensures Chosen(out[p := true], [p] + tail, p)
  {
    assert forall x: nat :: x in [p] + tail <==> x == p || x in tail;
  }

  /** What choosing `p` for index `i` leaves is again within reach of the positions below p. */
  lemma StillInReach(rest: nat, p: nat, i: nat)
    requires i >= 1 && C(p, i) <= rest < C(p + 1, i)
    ensures rest - C(p, i) < C(p, i - 1)
  {
    Pascal(p + 1, i);
  }

  /** `unrank`: the set of t positions below n with rank `r`, when there is one. */
  method Unrank(r: Big, n: nat, t: nat) returns (e: Option<seq<bool>>)
    requires r.Valid() && n < SIZE_LIMIT
    ensures e.Some? <==> r.Num() < C(n, t)
    ensures e.Some? ==> |e.value| == n && |Ones(e.value)| == t && RankOf(e.value) == r.Num()
  {
    hide C, Marks, Ones, Unranking, Chosen;
    ghost var target := r.Num();
    var out := seq(n, i => false);
    ghost var tail: seq<nat> := [];
    NoneChosen(out);
    if t == 0 {
      ChooseNone(n);
      MarkedOnes(out, tail);
      var z := r.IsZero();
      return if z then Some(out) else None;
    }
    if t > n {
      TooMany(n, t);
      return None;
    }
    var rest := new Big.Copy(r);
    var p: nat, i: nat := n - 1, t;
    UnrankStart(target, n, t, out);
    var v := Binom(p, i);
    while i > 0
      invariant fresh(rest) && rest.Valid() && Unranking(target, rest.Num(), n, t, out, tail, p, i)
      invariant i > 0 ==> fresh(v) && v != rest && v.Valid() && v.Num() == C(p, i)
      decreases i
    {
      ghost var from := p;
      UnrankingFacts(target, rest.Num(), n, t, out, tail, p, i);
      p, v := ScanDown(v, rest, p, i);
      UnrankStep(target, rest.Num(), n, t, out, tail, from, p, i);
      out := out[p := true];
      tail := [p] + tail;
      rest.Sub(v);
      if i > 1 {
        AbsorbFor(p, i, v.Num());
        Ratio(v, i, p, C(p - 1, i - 1));
        p := p - 1;
      }
      i := i - 1;
    }
    UnrankEnd(target, rest.Num(), n, t, out, tail, p);
    var z := rest.IsZero();
    e := if z then Some(out) else None;
  }

  lemma AbsorbFor(p: nat, i: nat, v: nat)
    requires p >= 1 && i >= 1 && v == C(p, i)
    ensures v * i == C(p - 1, i - 1) * p
  {
    Absorb(p, i);
  }

  /** Bits chosen for the indices above i, the target not yet covered, and, if the target
      is a rank at all, within reach of the positions up to p. */
  ghost predicate Unranking(target: nat, rest: nat, n: nat, t: nat, out: seq<bool>, tail: seq<nat>, p: nat, i: nat) {
    && |out| == n && |tail| + i == t && (i > 0 ==> i <= p + 1 <= n)
    && target == rest + RankTail(tail, i)
    && Chosen(out, tail, if i == 0 then 0 else p + 1)
    && (target < C(n, t) ==> if i == 0 then rest == 0 else rest < C(p + 1, i))
  }

  lemma UnrankStart(target: nat, n: nat, t: nat, out: seq<bool>)
    requires 0 < t <= n == |out| && Chosen(out, [], n)
    ensures Unranking(target, target, n, t, out, [], n - 1, t)
  {
  }

  lemma UnrankingFacts(target: nat, rest: nat, n: nat, t: nat, out: seq<bool>, tail: seq<nat>, p: nat, i: nat)
    requires Unranking(target, rest, n, t, out, tail, p, i)
    ensures |out| == n && (i > 0 ==> i <= p + 1 <= n)
  {
  }

  lemma UnrankStep(target: nat, rest: nat, n: nat, t: nat, out: seq<bool>, tail: seq<nat>, from: nat, p: nat, i: nat)
    requires Unranking(target, rest, n, t, out, tail, from, i) && 1 <= i <= p + 1 && p <= from
    requires C(p, i) <= rest && (p < from ==> rest < C(p + 1, i))
    ensures p < |out| && Unranking(target, rest - C(p, i), n, t, out[p := true], [p] + tail, if i > 1 then p - 1 else p, i - 1)
  {
    hide C, Marks, Chosen;
    ChosenLower(out, tail, from + 1, p + 1);
    ChooseNext(out, tail, p);
    if target < C(n, t) {
      StillInReach(rest, p, i);
    }
    assert ([p] + tail)[1..] == tail;
    if i == 1 {
      ChooseNone(p);
      ChosenLower(out[p := true], [p] + tail, p, 0);
    }
  }

  lemma UnrankEnd(target: nat, rest: nat, n: nat, t: nat, out: seq<bool>, tail: seq<nat>, p: nat)
    requires Unranking(target, rest, n, t, out, tail, p, 0)
    ensures rest == 0 <==> target < C(n, t)
    ensures |out| == n && |Ones(out)| == t && RankOf(out) == target - rest
  {
    hide C, Marks, Ones;
    ChosenMarks(out, tail);
    MarkedOnes(out, tail);
    assert tail[0..] == tail;
    TailIsRank(tail, 0);
    RankBelow(tail, |tail|, n);
  }

  lemma NoneChosen(out: seq<bool>)
    requires forall i :: 0 <= i < |out| ==> !out[i]
    ensures Chosen(out, [], |out|) && Marks(out, [])
  {
  }

  lemma ChosenLower(out: seq<bool>, tail: seq<nat>, bound: nat, p: nat)
    requires p <= bound && Chosen(out, tail, bound)
    ensures Chosen(out, tail, p)
  {
  }

  lemma ChosenMarks(out: seq<bool>, tail: seq<nat>)
    requires Chosen(out, tail, 0)
    ensures Marks(out, tail) && Positions(tail, |out|)
  {
  }

  /** Rank, then unrank: the map comes back, for every map. */
  method RoundTrip(e: seq<bool>) returns (back: Option<seq<bool>>)
    requires |e| < SIZE_LIMIT
    ensures back == Some(e)
  {
    var rank := RankBits(e);
    back := Unrank(rank, |e|, |Ones(e)|);
    var f := back.value;
    OnesAscend(e);
    OnesAscend(f);
    RankInjective(Ones(e), Ones(f), |e|);
    OnesDetermine(e, f);
  }

  // ------------------------------------------------------------ field width

  /** Bits needed for any rank below C(n, t): exact, and no more than needed. */
  method RankWidth(n: nat, t: nat) returns (w: nat)
    requires n < SIZE_LIMIT
    ensures t <= n ==> C(n, t) <= Pow2(w)
    ensures w > 0 ==> Pow2(w - 1) < C(n, t)
  {
    hide C;
    if t == 0 || t >= n {
      ChooseNone(n);
      if t == n {
        AllOf(n);
      }
      return 0;
    }
    var c := Binom(n, t);
    AtLeastOne(n, t);
    var one := new Big.One();
    c.Sub(one);
    w := c.BitLength();
  }

  lemma {:induction false} AtLeastOne(n: nat, t: nat)
    requires t <= n
    ensures C(n, t) >= 1
    decreases n
  {
    if t > 0 {
      AtLeastOne(n - 1, t - 1);
    }
  }
}
