/** Polynomials over the fields: evaluation, roots, and sums of powers. */
module FieldPolynomials {
  import opened GaloisField
  import opened FieldProducts

  ghost predicate AllInside(m: Size, c: seq<Elem>) {
    forall i :: 0 <= i < |c| ==> Inside(m, c[i])
  }

  /** Coefficient `i`, zero outside. */
  function At(c: seq<Elem>, i: int): Elem {
    if 0 <= i < |c| then c[i] else ZERO
  }

  lemma AtInside(m: Size, c: seq<Elem>, i: int)
    requires AllInside(m, c)
    ensures Inside(m, At(c, i))
  {
    OneInside(m);
    hide Inside;
  }

  // ------------------------------------------------------------ evaluation, high coefficient first

  function Eval(m: Size, c: seq<Elem>, x: Elem): Elem {
    if c == [] then ZERO else Plus(Product(m, x, Eval(m, c[..|c| - 1], x)), c[|c| - 1])
  }

  lemma EvalSnoc(m: Size, c: seq<Elem>, e: Elem, x: Elem)
    ensures Eval(m, c + [e], x) == Plus(Product(m, x, Eval(m, c, x)), e)
  {
    hide Plus, Product;
    assert (c + [e])[..|c|] == c;
  }

  lemma {:induction false} EvalInside(m: Size, c: seq<Elem>, x: Elem)
    requires AllInside(m, c) && Inside(m, x)
    ensures Inside(m, Eval(m, c, x))
    decreases |c|
  {
    OneInside(m);
    hide Inside, Plus, Product;
    if c != [] {
      EvalInside(m, c[..|c| - 1], x);
      TimesInside(m, x, Eval(m, c[..|c| - 1], x));
      PlusInside(m, Product(m, x, Eval(m, c[..|c| - 1], x)), c[|c| - 1]);
    }
  }

  function Added(c: seq<Elem>, d: seq<Elem>): (e: seq<Elem>)
    requires |c| == |d|
    ensures |e| == |c| && forall i :: 0 <= i < |e| ==> e[i] == Plus(c[i], d[i])
  {
    seq(|c|, i requires 0 <= i < |c| => Plus(c[i], d[i]))
  }

  function Scaled(m: Size, r: Elem, c: seq<Elem>): (e: seq<Elem>)
    ensures |e| == |c| && forall i :: 0 <= i < |e| ==> e[i] == Product(m, r, c[i])
  {
    seq(|c|, i requires 0 <= i < |c| => Product(m, r, c[i]))
  }

  lemma {:induction false} EvalAdded(m: Size, c: seq<Elem>, d: seq<Elem>, x: Elem)
    requires |c| == |d|
    ensures Eval(m, Added(c, d), x) == Plus(Eval(m, c, x), Eval(m, d, x))
    decreases |c|
  {
    hide Plus, Product;
    if c == [] {
      PlusNone(ZERO);
    } else {
      var n := |c| - 1;
      assert Added(c, d)[..n] == Added(c[..n], d[..n]);
      EvalAdded(m, c[..n], d[..n], x);
      ProductPlus(m, x, Eval(m, c[..n], x), Eval(m, d[..n], x));
      PlusShuffle(Product(m, x, Eval(m, c[..n], x)), Product(m, x, Eval(m, d[..n], x)), c[n], d[n]);
    }
  }

  lemma {:induction false} EvalScaled(m: Size, r: Elem, c: seq<Elem>, x: Elem)
    requires AllInside(m, c) && Inside(m, r) && Inside(m, x)
    ensures Eval(m, Scaled(m, r, c), x) == Product(m, r, Eval(m, c, x))
    decreases |c|
  {
    hide Plus, Product, Inside;
    if c == [] {
      TimesNone(m, r);
    } else {
      var n := |c| - 1;
      assert Scaled(m, r, c)[..n] == Scaled(m, r, c[..n]);
      EvalScaled(m, r, c[..n], x);
      EvalInside(m, c[..n], x);
      TimesShuffle(m, x, r, Eval(m, c[..n], x));
      ProductPlus(m, r, Product(m, x, Eval(m, c[..n], x)), c[n]);
    }
  }

  lemma {:induction false} EvalLeadingZero(m: Size, c: seq<Elem>, x: Elem)
    ensures Eval(m, [ZERO] + c, x) == Eval(m, c, x)
    decreases |c|
  {
    hide Plus, Product;
    if c == [] {
      EvalSnoc(m, [], ZERO, x);
      assert [] + [ZERO] == [ZERO] + c;
      TimesNone(m, x);
      PlusNone(ZERO);
    } else {
      var n := |c| - 1;
      EvalLeadingZero(m, c[..n], x);
      assert [ZERO] + c == ([ZERO] + c[..n]) + [c[n]] && c == c[..n] + [c[n]];
      EvalSnoc(m, [ZERO] + c[..n], c[n], x);
      EvalSnoc(m, c[..n], c[n], x);
    }
  }

  /** Times a linear factor with root `r`. */
  function TimesRoot(m: Size, c: seq<Elem>, r: Elem): (d: seq<Elem>)
    ensures |d| == |c| + 1
  {
    Added(c + [ZERO], Scaled(m, r, [ZERO] + c))
  }

  lemma EvalTimesRoot(m: Size, c: seq<Elem>, r: Elem, x: Elem)
    requires AllInside(m, c) && Inside(m, r) && Inside(m, x)
    ensures Eval(m, TimesRoot(m, c, r), x) == Product(m, Plus(x, r), Eval(m, c, x))
  {
    LeadingInside(m, c);
    hide Plus, Product, Inside;
    EvalAdded(m, c + [ZERO], Scaled(m, r, [ZERO] + c), x);
    EvalSnoc(m, c, ZERO, x);
    PlusNone(Product(m, x, Eval(m, c, x)));
    EvalScaled(m, r, [ZERO] + c, x);
    EvalLeadingZero(m, c, x);
    EvalInside(m, c, x);
    PlusTimes(m, x, r, Eval(m, c, x));
  }

  lemma LeadingInside(m: Size, c: seq<Elem>)
    requires AllInside(m, c)
    ensures AllInside(m, [ZERO] + c) && AllInside(m, c + [ZERO])
  {
    OneInside(m);
    hide Inside;
  }

  lemma TimesRootInside(m: Size, c: seq<Elem>, r: Elem)
    requires AllInside(m, c) && Inside(m, r)
    ensures AllInside(m, TimesRoot(m, c, r))
    ensures c != [] ==> TimesRoot(m, c, r)[0] == c[0]
  {
    LeadingInside(m, c);
    hide Inside, Plus, Product;
    var u, v := c + [ZERO], [ZERO] + c;
    forall i | 0 <= i <= |c| ensures Inside(m, TimesRoot(m, c, r)[i]) {
      TimesInside(m, r, v[i]);
      PlusInside(m, u[i], Product(m, r, v[i]));
    }
    if c != [] {
      TimesNone(m, r);
      PlusNone(c[0]);
    }
  }

  // ------------------------------------------------------------ roots

  /** What dividing by a linear factor with root `r` leaves above the remainder. */
  function Divided(m: Size, c: seq<Elem>, r: Elem): (q: seq<Elem>)
    ensures |q| == if c == [] then 0 else |c| - 1
  {
    if |c| <= 1 then [] else Divided(m, c[..|c| - 1], r) + [Eval(m, c[..|c| - 1], r)]
  }

  lemma {:induction false} DividedInside(m: Size, c: seq<Elem>, r: Elem)
    requires AllInside(m, c) && Inside(m, r)
    ensures AllInside(m, Divided(m, c, r))
    ensures |c| > 1 ==> Divided(m, c, r)[0] == c[0]
    decreases |c|
  {
    hide Inside, Plus, Product;
    if |c| > 1 {
      DividedInside(m, c[..|c| - 1], r);
      EvalInside(m, c[..|c| - 1], r);
      if |c| == 2 {
        EvalConstant(m, c[..1], r);
      }
    }
  }

  /** The polynomial is the quotient times the factor, plus its value at the root. */
  lemma {:induction false} EvalDivided(m: Size, c: seq<Elem>, r: Elem, x: Elem)
    requires AllInside(m, c) && Inside(m, r) && Inside(m, x)
    ensures Plus(Eval(m, c, x), Eval(m, c, r)) == Product(m, Plus(x, r), Eval(m, Divided(m, c, r), x))
    decreases |c|
  {
    PlusInside(m, x, r);
    hide Inside, Plus, Product, Eval;
    if |c| <= 1 {
      TimesNone(m, Plus(x, r));
      EvalConstant(m, c, x);
      EvalConstant(m, c, r);
      PlusSelf(Eval(m, c, x));
      EvalConstant(m, [], x);
    } else {
      var n := |c| - 1;
      var d, e := c[..n], c[n];
      assert c == d + [e];
      EvalDivided(m, d, r, x);
      EvalSnoc(m, d, e, x);
      EvalSnoc(m, d, e, r);
      EvalSnoc(m, Divided(m, d, r), Eval(m, d, r), x);
      DividedInside(m, d, r);
      EvalInside(m, d, x);
      EvalInside(m, d, r);
      EvalInside(m, Divided(m, d, r), x);
      var u, v, q := Eval(m, d, x), Eval(m, d, r), Eval(m, Divided(m, d, r), x);
      DividedProduct(m, x, r, q, v);
      ProductPlus(m, x, u, v);
      Telescopes(Product(m, x, u), Product(m, x, v), Product(m, r, v));
      PlusCancels(Product(m, x, u), Product(m, r, v), e);
    }
  }

  lemma EvalConstant(m: Size, c: seq<Elem>, x: Elem)
    requires |c| <= 1
    ensures Eval(m, c, x) == if c == [] then ZERO else c[0]
  {
    hide Plus, Product;
    if c != [] {
      EvalSnoc(m, [], c[0], x);
      assert c == [] + [c[0]];
      TimesNone(m, x);
      PlusNone(c[0]);
    }
  }

  lemma DividedProduct(m: Size, x: Elem, r: Elem, q: Elem, v: Elem)
    requires Inside(m, x) && Inside(m, r) && Inside(m, q) && Inside(m, v)
    ensures Product(m, Plus(x, r), Plus(Product(m, x, q), v))
      == Plus(Product(m, x, Product(m, Plus(x, r), q)), Plus(Product(m, x, v), Product(m, r, v)))
  {
    hide *;
    PlusInside(m, x, r);
    ProductPlus(m, Plus(x, r), Product(m, x, q), v);
    TimesShuffle(m, Plus(x, r), x, q);
    PlusTimes(m, x, r, v);
  }

  lemma Telescopes(a: Elem, b: Elem, c: Elem)
    ensures Plus(Plus(a, b), Plus(b, c)) == Plus(a, c)
  {
    hide Plus;
    PlusRegroups(a, b, Plus(b, c));
    PlusRegroups(b, b, c);
    PlusSelf(b);
    PlusNone(c);
  }

  ghost predicate DistinctRoots(m: Size, c: seq<Elem>, roots: seq<Elem>) {
    && (forall i :: 0 <= i < |roots| ==> Inside(m, roots[i]) && Eval(m, c, roots[i]) == ZERO)
    && (forall i, j :: 0 <= i < j < |roots| ==> roots[i] != roots[j])
  }

  /** No more roots than the degree. */
  lemma {:induction false} RootBound(m: Size, c: seq<Elem>, roots: seq<Elem>)
    requires c != [] && c[0] == ONE && AllInside(m, c) && DistinctRoots(m, c, roots)
    ensures |roots| <= |c| - 1
    decreases |c|
  {
    hide Inside, Plus, Product, Eval;
    if roots != [] {
      var n := |roots| - 1;
      var r := roots[n];
      if |c| == 1 {
        EvalConstant(m, c, r);
        assert false;
      }
      var q := Divided(m, c, r);
      DividedInside(m, c, r);
      forall i | 0 <= i < n ensures Eval(m, q, roots[i]) == ZERO {
        EvalDivided(m, c, r, roots[i]);
        PlusNone(ZERO);
        EvalInside(m, q, roots[i]);
        PlusInside(m, roots[i], r);
        TimesInside(m, Plus(roots[i], r), Eval(m, q, roots[i]));
        if Plus(roots[i], r) == ZERO {
          PlusDiffers(roots[i], r);
        }
      }
      RootBound(m, q, roots[..n]);
    }
  }
}
