/** Weighted sums of powers: enough of them vanish only if every weight does. */
module FieldSums {
  import opened Arithmetic
  import opened GaloisField
  import opened PrimitiveElements
  import opened FieldProducts
  import opened FieldPolynomials

  /** The sum of a[i] times the j-th power of alpha to the ps[i]. */
  function Powers(m: Size, ps: seq<nat>, a: seq<Elem>, j: nat): Elem
    requires |a| == |ps|
  {
    if ps == [] then ZERO
    else Plus(Powers(m, ps[..|ps| - 1], a[..|ps| - 1], j), Product(m, a[|ps| - 1], Alpha(m, ps[|ps| - 1] * j)))
  }

  lemma PowersSnoc(m: Size, ps: seq<nat>, a: seq<Elem>, p: nat, e: Elem, j: nat)
    requires |a| == |ps|
    ensures Powers(m, ps + [p], a + [e], j) == Plus(Powers(m, ps, a, j), Product(m, e, Alpha(m, p * j)))
  {
    hide Plus, Product, Alpha;
    assert (ps + [p])[..|ps|] == ps && (a + [e])[..|ps|] == a;
  }

  lemma PowersNone(m: Size, j: nat)
    ensures Powers(m, [], [], j) == ZERO
  {
  }

  /** Each weight times the difference of its power and that of `p`. */
  function Lessened(m: Size, ps: seq<nat>, a: seq<Elem>, p: nat): (b: seq<Elem>)
    requires |a| == |ps|
    ensures |b| == |a| && forall i :: 0 <= i < |b| ==> b[i] == Product(m, a[i], Plus(Alpha(m, ps[i]), Alpha(m, p)))
  {
    seq(|a|, i requires 0 <= i < |a| => Product(m, a[i], Plus(Alpha(m, ps[i]), Alpha(m, p))))
  }

  lemma LessenedInside(m: Size, ps: seq<nat>, a: seq<Elem>, p: nat)
    requires |a| == |ps| && AllInside(m, a)
    ensures AllInside(m, Lessened(m, ps, a, p))
  {
    hide Inside, Plus, Product, Alpha;
    forall i | 0 <= i < |a| ensures Inside(m, Lessened(m, ps, a, p)[i]) {
      AlphaInside(m, ps[i]);
      AlphaInside(m, p);
      PlusInside(m, Alpha(m, ps[i]), Alpha(m, p));
      TimesInside(m, a[i], Plus(Alpha(m, ps[i]), Alpha(m, p)));
    }
  }

  /** The next power of one term. */
  lemma NextPower(m: Size, p: nat, j: nat)
    ensures Alpha(m, p * (j + 1)) == Product(m, Alpha(m, p), Alpha(m, p * j))
  {
    hide Product, Alpha;
    ProductOfPowers(m, p, p * j);
    MulAdd(j, 1, p);
  }

  lemma LessenedTerm(m: Size, e: Elem, p: nat, q: nat, j: nat)
    requires Inside(m, e)
    ensures Product(m, Product(m, e, Plus(Alpha(m, q), Alpha(m, p))), Alpha(m, q * j))
      == Plus(Product(m, e, Alpha(m, q * (j + 1))), Product(m, Alpha(m, p), Product(m, e, Alpha(m, q * j))))
  {
    hide *;
    var x, y, z := Alpha(m, q), Alpha(m, p), Alpha(m, q * j);
    AlphaInside(m, q);
    AlphaInside(m, p);
    AlphaInside(m, q * j);
    PlusInside(m, x, y);
    TimesRegroups(m, e, Plus(x, y), z);
    PlusTimes(m, x, y, z);
    TimesInside(m, x, z);
    TimesInside(m, y, z);
    ProductPlus(m, e, Product(m, x, z), Product(m, y, z));
    TimesShuffle(m, e, y, z);
    NextPower(m, q, j);
  }

  lemma {:induction false} LessenedPowers(m: Size, ps: seq<nat>, a: seq<Elem>, p: nat, j: nat)
    requires |a| == |ps| && AllInside(m, a)
    ensures Powers(m, ps, Lessened(m, ps, a, p), j)
      == Plus(Powers(m, ps, a, j + 1), Product(m, Alpha(m, p), Powers(m, ps, a, j)))
    decreases |ps|
  {
    hide Inside, Plus, Product, Alpha, Powers;
    var y := Alpha(m, p);
    if ps == [] {
      PowersNone(m, j);
      PowersNone(m, j + 1);
      TimesNone(m, y);
      PlusNone(ZERO);
    } else {
      var n := |ps| - 1;
      var front, b, q, e := ps[..n], a[..n], ps[n], a[n];
      LessenedPowers(m, front, b, p, j);
      assert ps == front + [q] && a == b + [e];
      assert Lessened(m, ps, a, p) == Lessened(m, front, b, p) + [Product(m, e, Plus(Alpha(m, q), y))];
      PowersSnoc(m, front, Lessened(m, front, b, p), q, Product(m, e, Plus(Alpha(m, q), y)), j);
      LessenedTerm(m, e, p, q, j);
      PowersSnoc(m, front, b, q, e, j);
      PowersSnoc(m, front, b, q, e, j + 1);
      ProductPlus(m, y, Powers(m, front, b, j), Product(m, e, Alpha(m, q * j)));
      PlusShuffle(Powers(m, front, b, j + 1), Product(m, y, Powers(m, front, b, j)),
        Product(m, e, Alpha(m, q * (j + 1))), Product(m, y, Product(m, e, Alpha(m, q * j))));
    }
  }

  /** Dropping the last position: its own term cancels. */
  lemma LastCancels(m: Size, ps: seq<nat>, a: seq<Elem>, p: nat, e: Elem, j: nat)
    requires |a| == |ps| && AllInside(m, a) && Inside(m, e)
    ensures Powers(m, ps, Lessened(m, ps, a, p), j)
      == Plus(Powers(m, ps + [p], a + [e], j + 1), Product(m, Alpha(m, p), Powers(m, ps + [p], a + [e], j)))
  {
    hide Inside, Plus, Product, Alpha, Powers;
    var y := Alpha(m, p);
    LessenedPowers(m, ps, a, p, j);
    PowersSnoc(m, ps, a, p, e, j);
    PowersSnoc(m, ps, a, p, e, j + 1);
    AlphaInside(m, p);
    AlphaInside(m, p * j);
    NextPower(m, p, j);
    TimesShuffle(m, y, e, Alpha(m, p * j));
    ProductPlus(m, y, Powers(m, ps, a, j), Product(m, e, Alpha(m, p * j)));
    PlusCancels(Powers(m, ps, a, j + 1), Product(m, y, Powers(m, ps, a, j)), Product(m, e, Alpha(m, p * (j + 1))));
  }

  ghost predicate Distinct(m: Size, ps: seq<nat>) {
    && (forall i :: 0 <= i < |ps| ==> ps[i] < Order(m))
    && (forall i, j :: 0 <= i < j < |ps| ==> ps[i] != ps[j])
  }

  ghost predicate Vanish(m: Size, ps: seq<nat>, a: seq<Elem>, n: nat)
    requires |a| == |ps|
  {
    forall j: nat :: j < n ==> Powers(m, ps, a, j) == ZERO
  }

  lemma DifferentPowers(m: Size, i: nat, j: nat)
    requires i < Order(m) && j < Order(m) && i != j
    ensures Alpha(m, i) != Alpha(m, j)
  {
    hide Alpha, Order;
    if i < j {
      PowersDiffer(m, i, j);
    } else {
      PowersDiffer(m, j, i);
    }
  }

  /** As many consecutive sums as positions vanish only when every weight is zero. */
  lemma {:induction false} WeightsVanish(m: Size, ps: seq<nat>, a: seq<Elem>)
    requires |a| == |ps| && AllInside(m, a) && Distinct(m, ps) && Vanish(m, ps, a, |ps|)
    ensures forall i :: 0 <= i < |a| ==> a[i] == ZERO
    decreases |ps|
  {
    hide Inside, Plus, Product, Alpha, Powers, Order;
    if ps != [] {
      var n := |ps| - 1;
      var front, b, p, e := ps[..n], a[..n], ps[n], a[n];
      assert ps == front + [p] && a == b + [e];
      var less := Lessened(m, front, b, p);
      LessenedInside(m, front, b, p);
      forall j: nat | j < n ensures Powers(m, front, less, j) == ZERO {
        LastCancels(m, front, b, p, e, j);
        var next := j + 1;
        assert Powers(m, ps, a, j) == ZERO && Powers(m, ps, a, next) == ZERO;
        TimesNone(m, Alpha(m, p));
        PlusNone(ZERO);
      }
      WeightsVanish(m, front, less);
      forall i | 0 <= i < n ensures b[i] == ZERO {
        assert less[i] == ZERO;
        DifferentPowers(m, ps[i], p);
        AlphaInside(m, ps[i]);
        AlphaInside(m, p);
        PlusInside(m, Alpha(m, ps[i]), Alpha(m, p));
        TimesInside(m, b[i], Plus(Alpha(m, ps[i]), Alpha(m, p)));
        if Plus(Alpha(m, ps[i]), Alpha(m, p)) == ZERO {
          PlusDiffers(Alpha(m, ps[i]), Alpha(m, p));
        }
      }
      LastWeight(m, front, b, p, e);
    }
  }

  lemma LastWeight(m: Size, ps: seq<nat>, a: seq<Elem>, p: nat, e: Elem)
    requires |a| == |ps| && Inside(m, e) && (forall i :: 0 <= i < |a| ==> a[i] == ZERO)
    requires Powers(m, ps + [p], a + [e], 0) == ZERO
    ensures e == ZERO
  {
    hide Inside, Plus, Product, Alpha, Powers;
    PowersSnoc(m, ps, a, p, e, 0);
    NoWeights(m, ps, a, 0);
    AlphaItself(m);
    ProductOne(m, e);
    PlusNone(e);
  }

  lemma {:induction false} NoWeights(m: Size, ps: seq<nat>, a: seq<Elem>, j: nat)
    requires |a| == |ps| && forall i :: 0 <= i < |a| ==> a[i] == ZERO
    ensures Powers(m, ps, a, j) == ZERO
    decreases |ps|
  {
    hide Plus, Product, Alpha;
    if ps != [] {
      var n := |ps| - 1;
      NoWeights(m, ps[..n], a[..n], j);
      TimesNone(m, Alpha(m, ps[n] * j));
      PlusNone(ZERO);
    }
  }
}
