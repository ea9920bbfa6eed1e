/** The register through the syndromes of a light pattern is the pattern's locator: its
    roots are the pattern's positions and nothing else. */
module BchLocator {
  import opened Arithmetic
  import opened GaloisField
  import opened PrimitiveElements
  import opened FieldProducts
  import opened FieldPolynomials
  import opened FieldSums
  import opened FieldRegisters

  // ------------------------------------------------------------ syndromes

  /** The sum over the positions of alpha to the position times `j`. */
  function PowerSum(m: Size, ps: seq<nat>, j: nat): Elem {
    if ps == [] then ZERO else Plus(PowerSum(m, ps[..|ps| - 1], j), Alpha(m, ps[|ps| - 1] * j))
  }

  lemma {:induction false} PowerSumInside(m: Size, ps: seq<nat>, j: nat)
    ensures Inside(m, PowerSum(m, ps, j))
    decreases |ps|
  {
    OneInside(m);
    hide Inside, Plus, Alpha;
    if ps != [] {
      var n := |ps| - 1;
      PowerSumInside(m, ps[..n], j);
      AlphaInside(m, ps[n] * j);
      PlusInside(m, PowerSum(m, ps[..n], j), Alpha(m, ps[n] * j));
    }
  }

  /** The first `n` syndromes, from the first power on. */
  function Syndromes(m: Size, ps: seq<nat>, n: nat): (s: seq<Elem>)
    ensures |s| == n && forall j :: 0 <= j < n ==> s[j] == PowerSum(m, ps, j + 1)
  {
    seq(n, j requires 0 <= j < n => PowerSum(m, ps, j + 1))
  }

  lemma SyndromesInside(m: Size, ps: seq<nat>, n: nat)
    ensures AllInside(m, Syndromes(m, ps, n))
  {
    hide Inside, PowerSum;
    forall j | 0 <= j < n ensures Inside(m, Syndromes(m, ps, n)[j]) {
      PowerSumInside(m, ps, j + 1);
    }
  }

  // ------------------------------------------------------------ a register over the positions

  /** Sum of c[i] times the (l - i)-th power of alpha to the p, for i < q. */
  function Reverse(m: Size, c: seq<Elem>, l: nat, p: nat, q: nat): Elem
    requires q <= l + 1
  {
    if q == 0 then ZERO
    else
      var k: nat := l + 1 - q;
      Plus(Reverse(m, c, l, p, q - 1), Product(m, At(c, q - 1), Alpha(m, p * k)))
  }

  lemma {:induction false} ReverseInside(m: Size, c: seq<Elem>, l: nat, p: nat, q: nat)
    requires AllInside(m, c) && q <= l + 1
    ensures Inside(m, Reverse(m, c, l, p, q))
    decreases q
  {
    OneInside(m);
    hide Inside, Plus, Product, Alpha, At, AllInside;
    if q > 0 {
      var k: nat := l + 1 - q;
      ReverseInside(m, c, l, p, q - 1);
      AtInside(m, c, q - 1);
      AlphaInside(m, p * k);
      TimesInside(m, At(c, q - 1), Alpha(m, p * k));
      PlusInside(m, Reverse(m, c, l, p, q - 1), Product(m, At(c, q - 1), Alpha(m, p * k)));
    }
  }

  /** The weights a register gives to the positions. */
  function Weights(m: Size, c: seq<Elem>, l: nat, ps: seq<nat>, q: nat): (a: seq<Elem>)
    requires q <= l + 1
    ensures |a| == |ps| && forall i :: 0 <= i < |a| ==> a[i] == Reverse(m, c, l, ps[i], q)
  {
    seq(|ps|, i requires 0 <= i < |ps| => Reverse(m, c, l, ps[i], q))
  }

  lemma WeightsInside(m: Size, c: seq<Elem>, l: nat, ps: seq<nat>, q: nat)
    requires AllInside(m, c) && q <= l + 1
    ensures AllInside(m, Weights(m, c, l, ps, q))
  {
    hide Inside, Reverse;
    forall i | 0 <= i < |ps| ensures Inside(m, Weights(m, c, l, ps, q)[i]) {
      ReverseInside(m, c, l, ps[i], q);
    }
  }

  lemma PowersProduct(m: Size, p: nat, i: nat, j: nat, e: Elem)
    requires Inside(m, e)
    ensures Product(m, Product(m, e, Alpha(m, p * i)), Alpha(m, p * j)) == Product(m, e, Alpha(m, p * (i + j)))
  {
    hide Product, Alpha, Inside;
    AlphaInside(m, p * i);
    AlphaInside(m, p * j);
    TimesRegroups(m, e, Alpha(m, p * i), Alpha(m, p * j));
    ProductOfPowers(m, p * i, p * j);
    MulAdd(i, j, p);
  }

  /** One more term of the register over all positions at once. */
  lemma {:induction false} WeightsNext(m: Size, c: seq<Elem>, l: nat, ps: seq<nat>, q: nat, j: nat)
    requires AllInside(m, c) && q <= l
    ensures Powers(m, ps, Weights(m, c, l, ps, q + 1), j)
      == Plus(Powers(m, ps, Weights(m, c, l, ps, q), j), Product(m, At(c, q), PowerSum(m, ps, l - q + j)))
    decreases |ps|
  {
    hide Inside, Plus, Product, Alpha, Powers, Reverse, At, AllInside;
    if ps == [] {
      PowersNone(m, j);
      TimesNone(m, At(c, q));
      PlusNone(ZERO);
    } else {
      var n := |ps| - 1;
      var front, p, e := ps[..n], ps[n], At(c, q);
      WeightsNext(m, c, l, front, q, j);
      assert ps == front + [p];
      assert Weights(m, c, l, ps, q + 1) == Weights(m, c, l, front, q + 1) + [Reverse(m, c, l, p, q + 1)];
      assert Weights(m, c, l, ps, q) == Weights(m, c, l, front, q) + [Reverse(m, c, l, p, q)];
      PowersSnoc(m, front, Weights(m, c, l, front, q + 1), p, Reverse(m, c, l, p, q + 1), j);
      PowersSnoc(m, front, Weights(m, c, l, front, q), p, Reverse(m, c, l, p, q), j);
      ReverseTerm(m, c, l, p, q, j);
      ProductPlus(m, e, PowerSum(m, front, l - q + j), Alpha(m, p * (l - q + j)));
      PlusShuffle(Powers(m, front, Weights(m, c, l, front, q), j), Product(m, e, PowerSum(m, front, l - q + j)),
        Product(m, Reverse(m, c, l, p, q), Alpha(m, p * j)), Product(m, e, Alpha(m, p * (l - q + j))));
    }
  }

  lemma ReverseTerm(m: Size, c: seq<Elem>, l: nat, p: nat, q: nat, j: nat)
    requires AllInside(m, c) && q <= l
    ensures Product(m, Reverse(m, c, l, p, q + 1), Alpha(m, p * j))
      == Plus(Product(m, Reverse(m, c, l, p, q), Alpha(m, p * j)), Product(m, At(c, q), Alpha(m, p * (l - q + j))))
  {
    hide Inside, Plus, Product, Alpha, At, AllInside;
    AtInside(m, c, q);
    AlphaInside(m, p * (l - q));
    AlphaInside(m, p * j);
    TimesInside(m, At(c, q), Alpha(m, p * (l - q)));
    ReverseInside(m, c, l, p, q);
    PlusTimes(m, Reverse(m, c, l, p, q), Product(m, At(c, q), Alpha(m, p * (l - q))), Alpha(m, p * j));
    PowersProduct(m, p, l - q, j, At(c, q));
  }

  /** A register against the syndromes, position by position. */
  lemma {:induction false} ConvOverPositions(m: Size, c: seq<Elem>, l: nat, ps: seq<nat>, n: nat, k: nat, q: nat)
    requires AllInside(m, c) && q <= l + 1 && l <= k < n
    ensures Conv(m, c, Syndromes(m, ps, n), k, q) == Powers(m, ps, Weights(m, c, l, ps, q), k + 1 - l)
    decreases q
  {
    hide Inside, Plus, Product, Alpha, Powers, PowerSum, AllInside;
    var x := Syndromes(m, ps, n);
    if q == 0 {
      NoWeights(m, ps, Weights(m, c, l, ps, 0), k + 1 - l);
    } else {
      ConvOverPositions(m, c, l, ps, n, k, q - 1);
      WeightsNext(m, c, l, ps, q - 1, k + 1 - l);
      assert At(x, k - (q - 1)) == PowerSum(m, ps, l - (q - 1) + (k + 1 - l));
    }
  }

  // ------------------------------------------------------------ registers as polynomials

  /** The register's coefficients, as many as its length asks for. */
  function Whole(c: seq<Elem>, l: nat): (d: seq<Elem>)
    ensures |d| == l + 1 && forall i :: 0 <= i <= l ==> d[i] == At(c, i)
  {
    seq(l + 1, i requires 0 <= i <= l => At(c, i))
  }

  lemma WholeInside(m: Size, c: seq<Elem>, l: nat)
    requires AllInside(m, c)
    ensures AllInside(m, Whole(c, l))
  {
    hide Inside, At;
    forall i | 0 <= i <= l ensures Inside(m, Whole(c, l)[i]) {
      AtInside(m, c, i);
    }
  }

  lemma {:induction false} ReverseIsEval(m: Size, c: seq<Elem>, l: nat, p: nat, q: nat)
    requires AllInside(m, c) && q <= l + 1
    ensures Reverse(m, c, l, p, q) == Product(m, Eval(m, Whole(c, l)[..q], Alpha(m, p)), Alpha(m, p * (l + 1 - q)))
    decreases q
  {
    WholeInside(m, c, l);
    hide Inside, Plus, Product, Alpha, Eval, At, AllInside;
    var d, x := Whole(c, l), Alpha(m, p);
    if q == 0 {
      EvalConstant(m, d[..0], x);
      TimesNone(m, Alpha(m, p * (l + 1)));
    } else {
      var f, y := Eval(m, d[..q - 1], x), Alpha(m, p * (l + 1 - q));
      ReverseIsEval(m, c, l, p, q - 1);
      assert d[..q] == d[..q - 1] + [d[q - 1]];
      EvalSnoc(m, d[..q - 1], d[q - 1], x);
      AlphaInside(m, p);
      AlphaInside(m, p * (l + 1 - q));
      PrefixInside(m, d, q - 1);
      EvalInside(m, d[..q - 1], x);
      TimesInside(m, x, f);
      AtInside(m, c, q - 1);
      PlusTimes(m, Product(m, x, f), d[q - 1], y);
      TimesSwaps(m, x, f);
      TimesRegroups(m, f, x, y);
      NextPower(m, p, l + 1 - q);
    }
  }

  lemma PrefixInside(m: Size, c: seq<Elem>, q: nat)
    requires AllInside(m, c) && q <= |c|
    ensures AllInside(m, c[..q])
  {
    hide Inside;
  }

  lemma ReverseWhole(m: Size, c: seq<Elem>, l: nat, p: nat)
    requires AllInside(m, c)
    ensures Reverse(m, c, l, p, l + 1) == Eval(m, Whole(c, l), Alpha(m, p))
  {
    WholeInside(m, c, l);
    hide Inside, Product, Alpha, Eval, At;
    ReverseIsEval(m, c, l, p, l + 1);
    assert Whole(c, l)[..l + 1] == Whole(c, l);
    AlphaItself(m);
    ProductOne(m, Eval(m, Whole(c, l), Alpha(m, p)));
  }

  /** The polynomial with the positions' powers as its roots. */
  function Locator(m: Size, ps: seq<nat>): (c: seq<Elem>)
    ensures |c| == |ps| + 1
  {
    if ps == [] then [ONE] else TimesRoot(m, Locator(m, ps[..|ps| - 1]), Alpha(m, ps[|ps| - 1]))
  }

  lemma {:induction false} LocatorInside(m: Size, ps: seq<nat>)
    ensures AllInside(m, Locator(m, ps)) && Locator(m, ps)[0] == ONE
    decreases |ps|
  {
    OneInside(m);
    hide Inside, Alpha, TimesRoot;
    if ps != [] {
      LocatorInside(m, ps[..|ps| - 1]);
      AlphaInside(m, ps[|ps| - 1]);
      TimesRootInside(m, Locator(m, ps[..|ps| - 1]), Alpha(m, ps[|ps| - 1]));
    }
  }

  lemma {:induction false} LocatorVanishes(m: Size, ps: seq<nat>, i: nat)
    requires i < |ps|
    ensures Eval(m, Locator(m, ps), Alpha(m, ps[i])) == ZERO
    decreases |ps|
  {
    hide Inside, Alpha, TimesRoot, Eval, Product, Plus;
    var n := |ps| - 1;
    var front, x, r := Locator(m, ps[..n]), Alpha(m, ps[i]), Alpha(m, ps[n]);
    LocatorInside(m, ps[..n]);
    AlphaInside(m, ps[i]);
    AlphaInside(m, ps[n]);
    EvalTimesRoot(m, front, r, x);
    if i == n {
      PlusSelf(x);
    } else {
      LocatorVanishes(m, ps[..n], i);
    }
    TimesNone(m, Plus(x, r));
    TimesNone(m, Eval(m, front, x));
  }

  /** The locator annihilates the syndromes of its positions. */
  lemma LocatorAnnihilates(m: Size, ps: seq<nat>, n: nat)
    ensures Annihilates(m, Locator(m, ps), |ps|, Syndromes(m, ps, n), n)
  {
    LocatorInside(m, ps);
    hide Inside, Alpha, Eval, Product, Plus, Conv, Powers, Locator, AllInside;
    var c, l, x := Locator(m, ps), |ps|, Syndromes(m, ps, n);
    forall k | l <= k < n ensures Sum(m, c, x, k) == ZERO {
      ConvOverPositions(m, c, l, ps, n, k, l + 1);
      var w := Weights(m, c, l, ps, l + 1);
      forall i | 0 <= i < |ps| ensures w[i] == ZERO {
        ReverseWhole(m, c, l, ps[i]);
        assert Whole(c, l) == c;
        LocatorVanishes(m, ps, i);
      }
      NoWeights(m, ps, w, k + 1 - l);
    }
  }

  // ------------------------------------------------------------ the register found

  /** The weights moved up by one power. */
  function Raised(m: Size, ps: seq<nat>, a: seq<Elem>): (b: seq<Elem>)
    requires |a| == |ps|
    ensures |b| == |a| && forall i :: 0 <= i < |b| ==> b[i] == Product(m, a[i], Alpha(m, ps[i]))
  {
    seq(|a|, i requires 0 <= i < |a| => Product(m, a[i], Alpha(m, ps[i])))
  }

  lemma {:induction false} RaisedPowers(m: Size, ps: seq<nat>, a: seq<Elem>, j: nat)
    requires |a| == |ps| && AllInside(m, a)
    ensures Powers(m, ps, Raised(m, ps, a), j) == Powers(m, ps, a, j + 1)
    decreases |ps|
  {
    hide Inside, Plus, Product, Alpha, Powers;
    if ps == [] {
      PowersNone(m, j);
      PowersNone(m, j + 1);
    } else {
      var n := |ps| - 1;
      var front, b, p, e := ps[..n], a[..n], ps[n], a[n];
      RaisedPowers(m, front, b, j);
      assert ps == front + [p] && a == b + [e];
      assert Raised(m, ps, a) == Raised(m, front, b) + [Product(m, e, Alpha(m, p))];
      PowersSnoc(m, front, Raised(m, front, b), p, Product(m, e, Alpha(m, p)), j);
      PowersSnoc(m, front, b, p, e, j + 1);
      PowersProduct(m, p, 1, j, e);
    }
  }

  lemma RaisedInside(m: Size, ps: seq<nat>, a: seq<Elem>)
    requires |a| == |ps| && AllInside(m, a)
    ensures AllInside(m, Raised(m, ps, a))
    ensures forall i :: 0 <= i < |a| ==> (Raised(m, ps, a)[i] == ZERO <==> a[i] == ZERO)
  {
    hide Inside, Product, Alpha;
    forall i | 0 <= i < |a|
      ensures Inside(m, Raised(m, ps, a)[i]) && (Raised(m, ps, a)[i] == ZERO <==> a[i] == ZERO)
    {
      AlphaInside(m, ps[i]);
      TimesInside(m, a[i], Alpha(m, ps[i]));
    }
  }

  /** A register no longer than half the syndromes vanishes at every position. */
  lemma VanishesAtPositions(m: Size, c: seq<Elem>, l: nat, ps: seq<nat>, n: nat)
    requires Distinct(m, ps) && Annihilates(m, c, l, Syndromes(m, ps, n), n) && l + |ps| <= n
    ensures forall i :: 0 <= i < |ps| ==> Eval(m, Whole(c, l), Alpha(m, ps[i])) == ZERO
  {
    hide Inside, Alpha, Eval, Product, Plus, Conv, Powers, AllInside, Order, Reverse;
    var x, w := Syndromes(m, ps, n), Weights(m, c, l, ps, l + 1);
    WeightsInside(m, c, l, ps, l + 1);
    var r := Raised(m, ps, w);
    RaisedInside(m, ps, w);
    forall j: nat | j < |ps| ensures Powers(m, ps, r, j) == ZERO {
      var k := l + j;
      RaisedPowers(m, ps, w, j);
      assert Sum(m, c, x, k) == ZERO;
      ConvBeyond(m, c, x, k, |c|, l + 1);
      ConvOverPositions(m, c, l, ps, n, k, l + 1);
    }
    WeightsVanish(m, ps, r);
    forall i | 0 <= i < |ps| ensures Eval(m, Whole(c, l), Alpha(m, ps[i])) == ZERO {
      assert w[i] == ZERO;
      ReverseWhole(m, c, l, ps[i]);
    }
  }

  /** The powers at the positions. */
  function RootsAt(m: Size, ps: seq<nat>): (roots: seq<Elem>)
    ensures |roots| == |ps| && forall i :: 0 <= i < |ps| ==> roots[i] == Alpha(m, ps[i])
  {
    seq(|ps|, i requires 0 <= i < |ps| => Alpha(m, ps[i]))
  }

  /** Positions where a register vanishes are no more than its length. */
  lemma FewPositions(m: Size, c: seq<Elem>, l: nat, ps: seq<nat>)
    requires AllInside(m, c) && c != [] && c[0] == ONE && Distinct(m, ps)
    requires forall i :: 0 <= i < |ps| ==> Eval(m, Whole(c, l), Alpha(m, ps[i])) == ZERO
    ensures |ps| <= l
  {
    WholeInside(m, c, l);
    hide Inside, Alpha, Eval, Order, AllInside;
    var roots := RootsAt(m, ps);
    forall i | 0 <= i < |ps| ensures Inside(m, roots[i]) && Eval(m, Whole(c, l), roots[i]) == ZERO {
      AlphaInside(m, ps[i]);
    }
    forall i, j | 0 <= i < j < |ps| ensures roots[i] != roots[j] {
      DifferentPowers(m, ps[i], ps[j]);
    }
    RootBound(m, Whole(c, l), roots);
  }

  /** The shortest register through twice as many syndromes as positions has their number for
      its length, and vanishes there and nowhere else. */
  lemma RegisterLocates(m: Size, c: seq<Elem>, l: nat, ps: seq<nat>, n: nat)
    requires Distinct(m, ps) && 2 * |ps| <= n
    requires Annihilates(m, c, l, Syndromes(m, ps, n), n) && Shortest(m, l, Syndromes(m, ps, n), n)
    ensures l == |ps|
    ensures forall p: nat :: p < Order(m) ==> (Eval(m, Whole(c, l), Alpha(m, p)) == ZERO <==> p in ps)
  {
    hide Inside, Alpha, Eval, Order, AllInside, Sum, Locator, Syndromes;
    LocatorAnnihilates(m, ps, n);
    assert l <= |ps|;
    VanishesAtPositions(m, c, l, ps, n);
    FewPositions(m, c, l, ps);
    forall p: nat | p < Order(m) ensures Eval(m, Whole(c, l), Alpha(m, p)) == ZERO <==> p in ps {
      if p in ps {
        var i :| 0 <= i < |ps| && ps[i] == p;
      } else if Eval(m, Whole(c, l), Alpha(m, p)) == ZERO {
        FewPositions(m, c, l, ps + [p]);
      }
    }
  }
}
