/** Shift registers over the fields: how one is corrected, and how short it can be. */
module FieldRegisters {
  import opened GaloisField
  import opened FieldProducts
  import opened FieldPolynomials

  // ------------------------------------------------------------ connection polynomials against a sequence

  /** Sum of c[j] x[i - j] for j < q. */
  function Conv(m: Size, c: seq<Elem>, x: seq<Elem>, i: int, q: nat): Elem {
    if q == 0 then ZERO else Plus(Conv(m, c, x, i, q - 1), Product(m, At(c, q - 1), At(x, i - (q - 1))))
  }

  /** All terms: those past index `i` meet no element of x. */
  function Sum(m: Size, c: seq<Elem>, x: seq<Elem>, i: int): Elem {
    Conv(m, c, x, i, |c|)
  }

  lemma {:induction false} ConvInside(m: Size, c: seq<Elem>, x: seq<Elem>, i: int, q: nat)
    requires AllInside(m, c) && AllInside(m, x)
    ensures Inside(m, Conv(m, c, x, i, q))
  {
    OneInside(m);
    hide Inside, Plus, Product, At;
    if q > 0 {
      ConvInside(m, c, x, i, q - 1);
      AtInside(m, c, q - 1);
      AtInside(m, x, i - (q - 1));
      TimesInside(m, At(c, q - 1), At(x, i - (q - 1)));
      PlusInside(m, Conv(m, c, x, i, q - 1), Product(m, At(c, q - 1), At(x, i - (q - 1))));
    }
  }

  /** Terms where c is zero do not count. */
  lemma {:induction false} ConvBeyond(m: Size, c: seq<Elem>, x: seq<Elem>, i: int, l: nat, q: nat)
    requires |c| <= l <= q
    ensures Conv(m, c, x, i, q) == Conv(m, c, x, i, l)
    decreases q
  {
    hide Plus, Product;
    if l < q {
      ConvBeyond(m, c, x, i, l, q - 1);
      TimesNone(m, At(x, i - (q - 1)));
      PlusNone(Conv(m, c, x, i, q - 1));
    }
  }

  /** `c` plus `coef` times `b` moved up by `shift`. */
  function Corrected(m: Size, c: seq<Elem>, b: seq<Elem>, coef: Elem, shift: nat): (d: seq<Elem>)
    ensures |d| == if |c| < |b| + shift then |b| + shift else |c|
    ensures forall i :: 0 <= i < |d| ==> d[i] == Plus(At(c, i), Product(m, coef, At(b, i - shift)))
  {
    var n := if |c| < |b| + shift then |b| + shift else |c|;
    seq(n, i requires 0 <= i < n => Plus(At(c, i), Product(m, coef, At(b, i - shift))))
  }

  lemma CorrectedAt(m: Size, c: seq<Elem>, b: seq<Elem>, coef: Elem, shift: nat, i: nat)
    ensures At(Corrected(m, c, b, coef, shift), i) == Plus(At(c, i), Product(m, coef, At(b, i - shift)))
  {
    hide Plus, Product;
    TimesNone(m, coef);
    PlusNone(ZERO);
  }

  lemma CorrectedInside(m: Size, c: seq<Elem>, b: seq<Elem>, coef: Elem, shift: nat)
    requires AllInside(m, c) && AllInside(m, b) && Inside(m, coef)
    ensures AllInside(m, Corrected(m, c, b, coef, shift))
  {
    hide Plus, Product, Inside, At;
    var d := Corrected(m, c, b, coef, shift);
    forall i | 0 <= i < |d| ensures Inside(m, d[i]) {
      AtInside(m, c, i);
      AtInside(m, b, i - shift);
      TimesInside(m, coef, At(b, i - shift));
      PlusInside(m, At(c, i), Product(m, coef, At(b, i - shift)));
    }
  }

  function Past(q: nat, shift: nat): nat {
    if q < shift then 0 else q - shift
  }

  /** One term of a corrected polynomial. */
  lemma CorrectedTerm(m: Size, u: Elem, coef: Elem, v: Elem, y: Elem)
    requires Inside(m, u) && Inside(m, coef) && Inside(m, v) && Inside(m, y)
    ensures Product(m, Plus(u, Product(m, coef, v)), y) == Plus(Product(m, u, y), Product(m, coef, Product(m, v, y)))
  {
    hide *;
    TimesInside(m, coef, v);
    PlusTimes(m, u, Product(m, coef, v), y);
    TimesRegroups(m, coef, v, y);
  }

  lemma {:induction false} ConvCorrected(m: Size, c: seq<Elem>, b: seq<Elem>, coef: Elem, shift: nat, x: seq<Elem>, i: int, q: nat)
    requires AllInside(m, c) && AllInside(m, b) && AllInside(m, x) && Inside(m, coef)
    ensures Conv(m, Corrected(m, c, b, coef, shift), x, i, q)
      == Plus(Conv(m, c, x, i, q), Product(m, coef, Conv(m, b, x, i - shift, Past(q, shift))))
    decreases q
  {
    hide Plus, Product, Inside, At, Corrected, AllInside;
    if q == 0 {
      TimesNone(m, coef);
      PlusNone(ZERO);
    } else {
      var j := q - 1;
      var u, v, y := At(c, j), At(b, j - shift), At(x, i - j);
      ConvCorrected(m, c, b, coef, shift, x, i, j);
      CorrectedAt(m, c, b, coef, shift, j);
      AtInside(m, c, j);
      AtInside(m, b, j - shift);
      AtInside(m, x, i - j);
      CorrectedTerm(m, u, coef, v, y);
      var old1, old2 := Conv(m, c, x, i, j), Conv(m, b, x, i - shift, Past(j, shift));
      PlusShuffle(old1, Product(m, coef, old2), Product(m, u, y), Product(m, coef, Product(m, v, y)));
      ProductPlus(m, coef, old2, Product(m, v, y));
      if j < shift {
        BelowZero(b, j - shift);
        TimesNone(m, y);
        PlusNone(old2);
      }
    }
  }

  lemma BelowZero(c: seq<Elem>, i: int)
    requires i < 0
    ensures At(c, i) == ZERO
  {
  }

  lemma SumCorrected(m: Size, c: seq<Elem>, b: seq<Elem>, coef: Elem, shift: nat, x: seq<Elem>, i: int)
    requires AllInside(m, c) && AllInside(m, b) && AllInside(m, x) && Inside(m, coef)
    ensures Sum(m, Corrected(m, c, b, coef, shift), x, i)
      == Plus(Sum(m, c, x, i), Product(m, coef, Sum(m, b, x, i - shift)))
  {
    var d := Corrected(m, c, b, coef, shift);
    hide Plus, Product, Inside, At, Conv, Corrected, AllInside;
    ConvCorrected(m, c, b, coef, shift, x, i, |d|);
    ConvBeyond(m, c, x, i, |c|, |d|);
    ConvBeyond(m, b, x, i - shift, |b|, Past(|d|, shift));
  }

  // ------------------------------------------------------------ the algorithm's invariant

  /** `c` is a connection polynomial of length at most `l` that annihilates x from `l` to `k`. */
  ghost predicate Annihilates(m: Size, c: seq<Elem>, l: nat, x: seq<Elem>, k: int) {
    && c != [] && c[0] == ONE && |c| <= l + 1 && AllInside(m, c)
    && forall i :: l <= i < k ==> Sum(m, c, x, i) == ZERO
  }

  /** `b` is the polynomial from before the last length change, `shift` steps ago, with
      length lb; it failed there by `bd`, unless nothing has changed yet. */
  ghost predicate Fits(m: Size, c: seq<Elem>, b: seq<Elem>, l: nat, lb: nat, shift: nat, bd: Elem, x: seq<Elem>, k: nat) {
    && AllInside(m, x) && k <= |x| && l <= k && Annihilates(m, c, l, x, k)
    && 1 <= shift <= k + 1 && Annihilates(m, b, lb, x, k - shift)
    && shift + lb == k + 1 - l && bd != ZERO && Inside(m, bd)
    && (if shift == k + 1 then l == 0 else Sum(m, b, x, k - shift) == bd)
  }

  /** No discrepancy. */
  lemma FitsOn(m: Size, c: seq<Elem>, b: seq<Elem>, l: nat, lb: nat, shift: nat, bd: Elem, x: seq<Elem>, k: nat)
    requires Fits(m, c, b, l, lb, shift, bd, x, k) && k < |x| && Sum(m, c, x, k) == ZERO
    ensures Fits(m, c, b, l, lb, shift + 1, bd, x, k + 1)
  {
    hide Sum, Inside;
  }

  function Longer(l: nat, k: nat): nat {
    if 2 * l <= k then k + 1 - l else l
  }

  /** The corrected polynomial is right one step further; its length is as claimed. */
  lemma CorrectedAnnihilates(m: Size, c: seq<Elem>, b: seq<Elem>, l: nat, lb: nat, shift: nat, bd: Elem, x: seq<Elem>, k: nat, coef: Elem)
    requires Fits(m, c, b, l, lb, shift, bd, x, k) && k < |x|
    requires Inside(m, coef) && Product(m, coef, bd) == Sum(m, c, x, k)
    ensures Annihilates(m, Corrected(m, c, b, coef, shift), Longer(l, k), x, k + 1)
  {
    hide Sum, Inside, Plus, Product;
    var d := Corrected(m, c, b, coef, shift);
    CorrectedInside(m, c, b, coef, shift);
    forall i | Longer(l, k) <= i < k + 1 ensures Sum(m, d, x, i) == ZERO {
      SumCorrected(m, c, b, coef, shift, x, i);
      PlusSelf(Sum(m, c, x, k));
      TimesNone(m, coef);
      PlusNone(ZERO);
    }
    TimesNone(m, coef);
    PlusNone(ONE);
    assert At(b, 0 - shift) == ZERO;
  }

  lemma FitsCorrected(m: Size, c: seq<Elem>, b: seq<Elem>, l: nat, lb: nat, shift: nat, bd: Elem, x: seq<Elem>, k: nat, coef: Elem)
    requires Fits(m, c, b, l, lb, shift, bd, x, k) && k < |x| && Sum(m, c, x, k) != ZERO
    requires Inside(m, coef) && Product(m, coef, bd) == Sum(m, c, x, k)
    ensures var d := Corrected(m, c, b, coef, shift);
      if 2 * l <= k then Fits(m, d, c, k + 1 - l, l, 1, Sum(m, c, x, k), x, k + 1)
      else Fits(m, d, b, l, lb, shift + 1, bd, x, k + 1)
  {
    hide Conv, Inside, Corrected;
    CorrectedAnnihilates(m, c, b, l, lb, shift, bd, x, k, coef);
    ConvInside(m, c, x, k, |c|);
  }

  lemma FitsStart(m: Size, x: seq<Elem>)
    requires AllInside(m, x)
    ensures Fits(m, [ONE], [ONE], 0, 0, 1, ONE, x, 0)
  {
    OneInside(m);
    hide Sum, Inside;
  }

  // ------------------------------------------------------------ minimal length

  /** c applied to the sequence i -> Conv(e, x, i, q), term by term. */
  function DoubleSum(m: Size, c: seq<Elem>, e: seq<Elem>, x: seq<Elem>, i: int, p: nat, q: nat): Elem {
    if p == 0 then ZERO
    else Plus(DoubleSum(m, c, e, x, i, p - 1, q), Product(m, At(c, p - 1), Conv(m, e, x, i - (p - 1), q)))
  }

  lemma {:induction false} DoubleNone(m: Size, c: seq<Elem>, e: seq<Elem>, x: seq<Elem>, i: int, p: nat)
    ensures DoubleSum(m, c, e, x, i, p, 0) == ZERO
  {
    hide Plus, Product;
    if p > 0 {
      DoubleNone(m, c, e, x, i, p - 1);
      TimesNone(m, At(c, p - 1));
      PlusNone(ZERO);
    }
  }

  /** One more column of the double sum. */
  lemma {:induction false} DoubleColumn(m: Size, c: seq<Elem>, e: seq<Elem>, x: seq<Elem>, i: int, p: nat, q: nat)
    requires AllInside(m, c) && AllInside(m, e) && AllInside(m, x)
    ensures DoubleSum(m, c, e, x, i, p, q + 1)
      == Plus(DoubleSum(m, c, e, x, i, p, q), Product(m, At(e, q), Conv(m, c, x, i - q, p)))
    decreases p
  {
    hide Plus, Product, Inside, At, AllInside;
    if p == 0 {
      TimesNone(m, At(e, q));
      PlusNone(ZERO);
    } else {
      var j := p - 1;
      var u, v, y := At(c, j), At(e, q), At(x, i - j - q);
      DoubleColumn(m, c, e, x, i, j, q);
      AtInside(m, c, j);
      AtInside(m, e, q);
      AtInside(m, x, i - j - q);
      ProductPlus(m, u, Conv(m, e, x, i - j, q), Product(m, v, y));
      TimesShuffle(m, u, v, y);
      ProductPlus(m, v, Conv(m, c, x, i - q, j), Product(m, u, y));
      PlusShuffle(DoubleSum(m, c, e, x, i, j, q), Product(m, v, Conv(m, c, x, i - q, j)),
        Product(m, u, Conv(m, e, x, i - j, q)), Product(m, v, Product(m, u, y)));
    }
  }

  /** The order of summation does not matter. */
  lemma {:induction false} DoubleSwap(m: Size, c: seq<Elem>, e: seq<Elem>, x: seq<Elem>, i: int, p: nat, q: nat)
    requires AllInside(m, c) && AllInside(m, e) && AllInside(m, x)
    ensures DoubleSum(m, c, e, x, i, p, q) == DoubleSum(m, e, c, x, i, q, p)
    decreases q
  {
    hide Plus, Product, Inside, At, AllInside;
    if q == 0 {
      DoubleNone(m, c, e, x, i, p);
    } else {
      DoubleSwap(m, c, e, x, i, p, q - 1);
      DoubleColumn(m, c, e, x, i, p, q - 1);
    }
  }

  /** e yields nothing `j` before position `i`. */
  ghost predicate Silent(m: Size, e: seq<Elem>, x: seq<Elem>, i: int, j: nat, q: nat) {
    Conv(m, e, x, i - j, q) == ZERO
  }

  /** If e annihilates every position the terms of c reach except the first, only the first counts. */
  lemma {:induction false} DoubleFirst(m: Size, c: seq<Elem>, e: seq<Elem>, x: seq<Elem>, i: int, p: nat, q: nat)
    requires p >= 1 && c != [] && c[0] == ONE && AllInside(m, e) && AllInside(m, x)
    requires forall j :: 1 <= j < p ==> Silent(m, e, x, i, j, q)
    ensures DoubleSum(m, c, e, x, i, p, q) == Conv(m, e, x, i, q)
    decreases p
  {
    hide Plus, Product, Inside, Conv;
    if p == 1 {
      assert DoubleSum(m, c, e, x, i, 0, q) == ZERO;
      ConvInside(m, e, x, i, q);
      OneTimes(m, Conv(m, e, x, i, q));
      PlusNone(Conv(m, e, x, i, q));
    } else {
      assert Silent(m, e, x, i, p - 1, q);
      DoubleFirst(m, c, e, x, i, p - 1, q);
      TimesNone(m, At(c, p - 1));
      PlusNone(Conv(m, e, x, i, q));
    }
  }

  /** Massey's bound: if c fails first at k and e does not, their lengths add up to k + 1. */
  lemma LengthsAddUp(m: Size, c: seq<Elem>, l: nat, e: seq<Elem>, le: nat, x: seq<Elem>, k: nat)
    requires AllInside(m, x) && Annihilates(m, c, l, x, k) && Sum(m, c, x, k) != ZERO
    requires Annihilates(m, e, le, x, k + 1) && l <= k
    ensures l + le >= k + 1
  {
    hide Conv, DoubleSum, Inside;
    assert le <= k ==> Sum(m, e, x, k) == ZERO;
    if l + le <= k {
      var p, q := le + 1, l + 1;
      forall j | 1 <= j < p ensures Silent(m, c, x, k, j, q) {
        assert Sum(m, c, x, k - j) == ZERO;
        ConvBeyond(m, c, x, k - j, |c|, q);
      }
      forall j | 1 <= j < q ensures Silent(m, e, x, k, j, p) {
        assert Sum(m, e, x, k - j) == ZERO;
        ConvBeyond(m, e, x, k - j, |e|, p);
      }
      DoubleFirst(m, e, c, x, k, p, q);
      DoubleFirst(m, c, e, x, k, q, p);
      DoubleSwap(m, c, e, x, k, q, p);
      ConvBeyond(m, c, x, k, |c|, q);
      ConvBeyond(m, e, x, k, |e|, p);
    }
  }

  /** No annihilator of the first k elements is shorter than l. */
  ghost predicate Shortest(m: Size, l: nat, x: seq<Elem>, k: nat) {
    forall e, le: nat :: Annihilates(m, e, le, x, k) ==> l <= le
  }

  lemma ShortestOn(m: Size, l: nat, x: seq<Elem>, k: nat)
    requires Shortest(m, l, x, k)
    ensures Shortest(m, l, x, k + 1)
  {
    hide Sum, Inside;
    var next := k + 1;
    forall e, le: nat | Annihilates(m, e, le, x, next) ensures l <= le {
      assert Annihilates(m, e, le, x, k);
    }
  }

  lemma ShortestLonger(m: Size, c: seq<Elem>, l: nat, x: seq<Elem>, k: nat)
    requires AllInside(m, x) && l <= k && Annihilates(m, c, l, x, k) && Sum(m, c, x, k) != ZERO
    ensures Shortest(m, k + 1 - l, x, k + 1)
  {
    hide Sum, Annihilates, Inside;
    var next := k + 1;
    forall e, le: nat | Annihilates(m, e, le, x, next) ensures next - l <= le {
      LengthsAddUp(m, c, l, e, le, x, k);
    }
  }

  // ------------------------------------------------------------ as it runs

  /** The discrepancy: the sum with its first term apart. */
  lemma {:induction false} FirstTerm(m: Size, c: seq<Elem>, x: seq<Elem>, k: nat)
    requires c != [] && c[0] == ONE && AllInside(m, x) && k < |x|
    ensures Conv(m, c, x, k, 1) == x[k]
  {
    hide Plus, Product, Inside;
    OneTimes(m, x[k]);
    PlusNone(x[k]);
    assert Conv(m, c, x, k, 0) == ZERO;
  }

  method Discrepancy(m: Size, t: Tables, c: seq<Elem>, l: nat, x: seq<Elem>, k: nat) returns (d: Elem)
    requires IsTables(m, t) && AllInside(m, x) && AllInside(m, c) && l <= k < |x|
    requires c != [] && c[0] == ONE && |c| <= l + 1
    ensures d == Sum(m, c, x, k)
  {
    hide Plus, Product, Inside, Conv, IsTables;
    d := x[k];
    FirstTerm(m, c, x, k);
    for i := 1 to |c|
      invariant d == Conv(m, c, x, k, i)
    {
      ConvNext(m, c, x, k, i);
      d := Plus(d, Times(m, t, c[i], x[k - i]));
    }
  }

  lemma ConvNext(m: Size, c: seq<Elem>, x: seq<Elem>, k: nat, i: nat)
    requires i < |c| && i <= k < |x|
    ensures Conv(m, c, x, k, i + 1) == Plus(Conv(m, c, x, k, i), Product(m, c[i], x[k - i]))
  {
    hide Plus, Product;
  }

  /** The update in place, after the polynomial has been lengthened. */
  method Correct(m: Size, t: Tables, c: seq<Elem>, b: seq<Elem>, coef: Elem, shift: nat) returns (d: seq<Elem>)
    requires IsTables(m, t) && AllInside(m, b) && Inside(m, coef)
    ensures d == Corrected(m, c, b, coef, shift)
  {
    hide Plus, Product, Inside, IsTables;
    d := c;
    if |c| < |b| + shift {
      d := c + seq(|b| + shift - |c|, i => ZERO);
    }
    TimesNone(m, coef);
    forall y: Elem ensures Plus(y, ZERO) == y {
      PlusNone(y);
    }
    for i := 0 to |b|
      invariant |d| == |Corrected(m, c, b, coef, shift)|
      invariant forall j :: 0 <= j < |d| ==> d[j] == if j - shift < i then Corrected(m, c, b, coef, shift)[j] else At(c, j)
    {
      d := d[i + shift := Plus(d[i + shift], Times(m, t, coef, b[i]))];
    }
  }

  /** Berlekamp-Massey: a shortest register through the whole sequence. */
  method FitRegister(m: Size, t: Tables, x: seq<Elem>) returns (c: seq<Elem>, l: nat)
    requires IsTables(m, t) && AllInside(m, x)
    ensures l <= |x| && Annihilates(m, c, l, x, |x|) && Shortest(m, l, x, |x|)
  {
    hide *;
    c, l := [ONE], 0;
    var b, shift: nat, bd := c, 1, ONE;
    ghost var lb: nat := 0;
    FitsStart(m, x);
    ShortestStart(m, x);
    for k := 0 to |x|
      invariant Fits(m, c, b, l, lb, shift, bd, x, k) && Shortest(m, l, x, k)
    {
      FitsFacts(m, c, b, l, lb, shift, bd, x, k);
      var d := Discrepancy(m, t, c, l, x, k);
      if d == ZERO {
        FitsOn(m, c, b, l, lb, shift, bd, x, k);
        ShortestOn(m, l, x, k);
        shift := shift + 1;
      } else {
        SumInside(m, c, x, k);
        var coef := Over(m, t, d, bd);
        FitsCorrected(m, c, b, l, lb, shift, bd, x, k, coef);
        var prev := c;
        c := Correct(m, t, c, b, coef, shift);
        if 2 * l <= k {
          ShortestLonger(m, prev, l, x, k);
          lb := l;
          l := k + 1 - l;
          b, bd, shift := prev, d, 1;
        } else {
          ShortestOn(m, l, x, k);
          shift := shift + 1;
        }
      }
    }
    FitsFacts(m, c, b, l, lb, shift, bd, x, |x|);
  }

  lemma FitsFacts(m: Size, c: seq<Elem>, b: seq<Elem>, l: nat, lb: nat, shift: nat, bd: Elem, x: seq<Elem>, k: nat)
    requires Fits(m, c, b, l, lb, shift, bd, x, k)
    ensures Annihilates(m, c, l, x, k) && l <= k <= |x| && AllInside(m, c) && AllInside(m, b)
    ensures c != [] && c[0] == ONE && |c| <= l + 1 && bd != ZERO && Inside(m, bd)
  {
    hide Sum, Inside;
  }

  lemma SumInside(m: Size, c: seq<Elem>, x: seq<Elem>, k: nat)
    requires AllInside(m, c) && AllInside(m, x)
    ensures Inside(m, Sum(m, c, x, k))
  {
    hide Inside;
    ConvInside(m, c, x, k, |c|);
  }

  lemma ShortestStart(m: Size, x: seq<Elem>)
    ensures Shortest(m, 0, x, 0)
  {
  }
}
