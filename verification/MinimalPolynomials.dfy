/** The minimal polynomials: products of linear factors over a set of exponents closed under
    doubling have only zeros and ones for coefficients. */
module MinimalPolynomials {
  import opened Arithmetic
  import opened GaloisField
  import opened FieldProducts
  import opened FieldPolynomials
  import opened BinaryPolynomials

  // ------------------------------------------------------------ low coefficient first

  /** The value at the j-th power of alpha. */
  function LowValue(m: Size, p: seq<Elem>, j: nat): Elem {
    if p == [] then ZERO else Plus(LowValue(m, p[..|p| - 1], j), Product(m, p[|p| - 1], Alpha(m, (|p| - 1) * j)))
  }

  lemma LowValueSnoc(m: Size, p: seq<Elem>, e: Elem, j: nat)
    ensures LowValue(m, p + [e], j) == Plus(LowValue(m, p, j), Product(m, e, Alpha(m, |p| * j)))
  {
    hide Plus, Alpha, Product;
    assert (p + [e])[..|p|] == p;
  }

  lemma {:induction false} LowValueInside(m: Size, p: seq<Elem>, j: nat)
    requires AllInside(m, p)
    ensures Inside(m, LowValue(m, p, j))
    decreases |p|
  {
    OneInside(m);
    hide Inside, Plus, Alpha, Product;
    if p != [] {
      var n := |p| - 1;
      LowValueInside(m, p[..n], j);
      AlphaInside(m, n * j);
      TimesInside(m, p[n], Alpha(m, n * j));
      PlusInside(m, LowValue(m, p[..n], j), Product(m, p[n], Alpha(m, n * j)));
    }
  }

  /** Times a linear factor with root `r`: `next[k + 1]` takes p[k] and `next[k]` its multiple. */
  function WithRoot(m: Size, p: seq<Elem>, r: Elem): (d: seq<Elem>)
    ensures |d| == |p| + 1
    ensures forall i :: 0 <= i < |d| ==> d[i] == Plus(At(p, i - 1), Product(m, r, At(p, i)))
  {
    seq(|p| + 1, i requires 0 <= i <= |p| => Plus(At(p, i - 1), Product(m, r, At(p, i))))
  }

  lemma WithRootAt(m: Size, p: seq<Elem>, r: Elem, i: int)
    ensures At(WithRoot(m, p, r), i) == Plus(At(p, i - 1), Product(m, r, At(p, i)))
  {
    hide Plus, Product;
    TimesNone(m, r);
    PlusNone(ZERO);
  }

  lemma WithRootInside(m: Size, p: seq<Elem>, r: Elem)
    requires AllInside(m, p) && Inside(m, r)
    ensures AllInside(m, WithRoot(m, p, r))
    ensures p != [] ==> WithRoot(m, p, r)[|p|] == p[|p| - 1]
  {
    hide Inside, Plus, Product;
    forall i | 0 <= i <= |p| ensures Inside(m, WithRoot(m, p, r)[i]) {
      AtInside(m, p, i - 1);
      AtInside(m, p, i);
      TimesInside(m, r, At(p, i));
      PlusInside(m, At(p, i - 1), Product(m, r, At(p, i)));
    }
    if p != [] {
      TimesNone(m, r);
      PlusNone(p[|p| - 1]);
    }
  }

  /** Factors go in any order. */
  lemma WithRootsSwap(m: Size, p: seq<Elem>, r: Elem, s: Elem)
    requires AllInside(m, p) && Inside(m, r) && Inside(m, s)
    ensures WithRoot(m, WithRoot(m, p, r), s) == WithRoot(m, WithRoot(m, p, s), r)
  {
    hide Inside, Plus, Product, At;
    var u, v := WithRoot(m, WithRoot(m, p, r), s), WithRoot(m, WithRoot(m, p, s), r);
    forall i | 0 <= i < |u| ensures u[i] == v[i] {
      SwappedAt(m, p, r, s, i);
      SwappedAt(m, p, s, r, i);
      var b, c := At(p, i - 1), At(p, i);
      AtInside(m, p, i);
      PlusSwaps(Product(m, r, b), Product(m, s, b));
      TimesShuffle(m, s, r, c);
    }
  }

  lemma SwappedAt(m: Size, p: seq<Elem>, r: Elem, s: Elem, i: nat)
    requires i < |p| + 2
    ensures WithRoot(m, WithRoot(m, p, r), s)[i]
      == Plus(At(p, i - 2), Plus(Plus(Product(m, r, At(p, i - 1)), Product(m, s, At(p, i - 1))), Product(m, s, Product(m, r, At(p, i)))))
  {
    hide Inside, Plus, Product, At;
    var a, b, c := At(p, i - 2), At(p, i - 1), At(p, i);
    WithRootAt(m, p, r, i - 1);
    WithRootAt(m, p, r, i);
    ProductPlus(m, s, b, Product(m, r, c));
    PlusRegroups(a, Product(m, r, b), Plus(Product(m, s, b), Product(m, s, Product(m, r, c))));
    PlusRegroups(Product(m, r, b), Product(m, s, b), Product(m, s, Product(m, r, c)));
  }

  lemma {:induction false} LowValueAdded(m: Size, p: seq<Elem>, q: seq<Elem>, j: nat)
    requires |p| == |q| && AllInside(m, p) && AllInside(m, q)
    ensures LowValue(m, Added(p, q), j) == Plus(LowValue(m, p, j), LowValue(m, q, j))
    decreases |p|
  {
    hide Inside, Plus, Alpha, Product;
    if p == [] {
      PlusNone(ZERO);
    } else {
      var n := |p| - 1;
      var a := Alpha(m, n * j);
      assert Added(p, q)[..n] == Added(p[..n], q[..n]);
      LowValueAdded(m, p[..n], q[..n], j);
      AlphaInside(m, n * j);
      PlusTimes(m, p[n], q[n], a);
      PlusShuffle(LowValue(m, p[..n], j), LowValue(m, q[..n], j), Product(m, p[n], a), Product(m, q[n], a));
    }
  }

  lemma {:induction false} LowValueScaled(m: Size, r: Elem, p: seq<Elem>, j: nat)
    requires AllInside(m, p) && Inside(m, r)
    ensures LowValue(m, Scaled(m, r, p), j) == Product(m, r, LowValue(m, p, j))
    decreases |p|
  {
    hide Inside, Plus, Alpha, Product;
    if p == [] {
      TimesNone(m, r);
    } else {
      var n := |p| - 1;
      var a := Alpha(m, n * j);
      assert Scaled(m, r, p)[..n] == Scaled(m, r, p[..n]);
      LowValueScaled(m, r, p[..n], j);
      AlphaInside(m, n * j);
      TimesRegroups(m, r, p[n], a);
      ProductPlus(m, r, LowValue(m, p[..n], j), Product(m, p[n], a));
    }
  }

  lemma {:induction false} LowValueRaised(m: Size, p: seq<Elem>, j: nat)
    requires AllInside(m, p)
    ensures LowValue(m, [ZERO] + p, j) == Product(m, Alpha(m, j), LowValue(m, p, j))
    decreases |p|
  {
    hide Inside, Plus, Alpha, Product;
    var x := Alpha(m, j);
    AlphaInside(m, j);
    if p == [] {
      LowValueSnoc(m, [], ZERO, j);
      assert [] + [ZERO] == [ZERO] + p;
      TimesNone(m, Alpha(m, 0 * j));
      TimesNone(m, x);
      PlusNone(ZERO);
    } else {
      var n := |p| - 1;
      var front, e := p[..n], p[n];
      LowValueRaised(m, front, j);
      assert [ZERO] + p == ([ZERO] + front) + [e] && p == front + [e];
      LowValueSnoc(m, [ZERO] + front, e, j);
      LowValueSnoc(m, front, e, j);
      ProductPlus(m, x, LowValue(m, front, j), Product(m, e, Alpha(m, n * j)));
      AlphaInside(m, n * j);
      TimesShuffle(m, x, e, Alpha(m, n * j));
      OneMore(m, n, j);
    }
  }

  lemma OneMore(m: Size, n: nat, j: nat)
    ensures Alpha(m, (n + 1) * j) == Product(m, Alpha(m, j), Alpha(m, n * j))
  {
    hide Alpha, Product;
    MulAdd(n, 1, j);
    ProductOfPowers(m, j, n * j);
  }

  /** The new factor vanishes at its root, and nowhere the rest did not allow it. */
  lemma LowValueWithRoot(m: Size, p: seq<Elem>, r: Elem, j: nat)
    requires AllInside(m, p) && Inside(m, r)
    ensures LowValue(m, WithRoot(m, p, r), j) == Product(m, Plus(Alpha(m, j), r), LowValue(m, p, j))
  {
    hide *;
    LeadingInside(m, p);
    ScaledInside(m, r, p);
    WithRootSplit(m, p, r);
    LowValueAdded(m, [ZERO] + p, Scaled(m, r, p) + [ZERO], j);
    LowValueRaised(m, p, j);
    LowValuePadded(m, Scaled(m, r, p), j);
    LowValueScaled(m, r, p, j);
    AlphaInside(m, j);
    LowValueInside(m, p, j);
    PlusTimes(m, Alpha(m, j), r, LowValue(m, p, j));
  }

  lemma LowValuePadded(m: Size, p: seq<Elem>, j: nat)
    ensures LowValue(m, p + [ZERO], j) == LowValue(m, p, j)
  {
    hide Plus, Alpha, Product, LowValue;
    LowValueSnoc(m, p, ZERO, j);
    TimesNone(m, Alpha(m, |p| * j));
    PlusNone(LowValue(m, p, j));
  }

  lemma ScaledInside(m: Size, r: Elem, p: seq<Elem>)
    requires AllInside(m, p) && Inside(m, r)
    ensures AllInside(m, Scaled(m, r, p) + [ZERO])
  {
    OneInside(m);
    hide Inside, Product;
    forall i | 0 <= i < |p| ensures Inside(m, Scaled(m, r, p)[i]) {
      TimesInside(m, r, p[i]);
    }
  }

  lemma WithRootSplit(m: Size, p: seq<Elem>, r: Elem)
    ensures WithRoot(m, p, r) == Added([ZERO] + p, Scaled(m, r, p) + [ZERO])
  {
    hide Plus, Product, At;
    var a, b := [ZERO] + p, Scaled(m, r, p) + [ZERO];
    forall i | 0 <= i <= |p| ensures WithRoot(m, p, r)[i] == Plus(a[i], b[i]) {
      SplitAt(m, p, r, i);
    }
  }

  lemma SplitAt(m: Size, p: seq<Elem>, r: Elem, i: nat)
    requires i <= |p|
    ensures ([ZERO] + p)[i] == At(p, i - 1) && (Scaled(m, r, p) + [ZERO])[i] == Product(m, r, At(p, i))
  {
    hide Product;
    TimesNone(m, r);
  }

  // ------------------------------------------------------------ products over exponents

  /** The product of the linear factors with these powers of alpha as roots. */
  function OfRoots(m: Size, roots: seq<nat>): (p: seq<Elem>)
    ensures |p| == |roots| + 1
  {
    if roots == [] then [ONE] else WithRoot(m, OfRoots(m, roots[..|roots| - 1]), Alpha(m, roots[|roots| - 1]))
  }

  lemma OfRootsSnoc(m: Size, roots: seq<nat>, r: nat)
    ensures OfRoots(m, roots + [r]) == WithRoot(m, OfRoots(m, roots), Alpha(m, r))
  {
    hide Alpha, WithRoot;
    assert (roots + [r])[..|roots|] == roots;
  }

  lemma {:induction false} OfRootsInside(m: Size, roots: seq<nat>)
    ensures AllInside(m, OfRoots(m, roots)) && OfRoots(m, roots)[|roots|] == ONE
    decreases |roots|
  {
    OneInside(m);
    hide Inside, Alpha, WithRoot;
    if roots != [] {
      var n := |roots| - 1;
      OfRootsInside(m, roots[..n]);
      AlphaInside(m, roots[n]);
      WithRootInside(m, OfRoots(m, roots[..n]), Alpha(m, roots[n]));
    }
  }

  lemma {:induction false} OfRootsVanishes(m: Size, roots: seq<nat>, j: nat)
    requires j in roots
    ensures LowValue(m, OfRoots(m, roots), j) == ZERO
    decreases |roots|
  {
    hide Inside, Alpha, WithRoot, LowValue, Product, Plus;
    var n := |roots| - 1;
    var front, r := OfRoots(m, roots[..n]), Alpha(m, roots[n]);
    OfRootsInside(m, roots[..n]);
    AlphaInside(m, roots[n]);
    LowValueWithRoot(m, front, r, j);
    TimesNone(m, Plus(Alpha(m, j), r));
    TimesNone(m, LowValue(m, front, j));
    if j == roots[n] {
      PlusSelf(r);
    } else {
      OfRootsVanishes(m, roots[..n], j);
    }
  }

  /** The first exponent may as well come last. */
  lemma {:induction false} OfRootsRotated(m: Size, r: nat, rest: seq<nat>)
    ensures OfRoots(m, [r] + rest) == OfRoots(m, rest + [r])
    decreases |rest|
  {
    hide Inside, Alpha, WithRoot, OfRoots;
    if rest == [] {
      assert [r] + rest == rest + [r];
    } else {
      var n := |rest| - 1;
      var front, s := rest[..n], rest[n];
      OfRootsRotated(m, r, front);
      assert [r] + rest == ([r] + front) + [s] && rest == front + [s];
      OfRootsSnoc(m, [r] + front, s);
      OfRootsSnoc(m, front, r);
      OfRootsSnoc(m, front, s);
      OfRootsSnoc(m, front + [s], r);
      OfRootsInside(m, front);
      AlphaInside(m, r);
      AlphaInside(m, s);
      WithRootsSwap(m, OfRoots(m, front), Alpha(m, r), Alpha(m, s));
    }
  }

  // ------------------------------------------------------------ squares

  function Square(m: Size, x: Elem): Elem {
    Product(m, x, x)
  }

  function Squares(m: Size, p: seq<Elem>): (q: seq<Elem>)
    ensures |q| == |p| && forall i :: 0 <= i < |q| ==> q[i] == Square(m, p[i])
  {
    seq(|p|, i requires 0 <= i < |p| => Square(m, p[i]))
  }

  /** Squaring is linear: the mixed terms cancel. */
  lemma SquarePlus(m: Size, x: Elem, y: Elem)
    requires Inside(m, x) && Inside(m, y)
    ensures Square(m, Plus(x, y)) == Plus(Square(m, x), Square(m, y))
  {
    hide Plus, Product, Inside;
    PlusInside(m, x, y);
    ProductPlus(m, Plus(x, y), x, y);
    PlusTimes(m, x, y, x);
    PlusTimes(m, x, y, y);
    TimesSwaps(m, x, y);
    MixedCancel(Product(m, x, x), Product(m, x, y), Product(m, y, y));
  }

  lemma MixedCancel(a: Elem, b: Elem, c: Elem)
    ensures Plus(Plus(a, b), Plus(b, c)) == Plus(a, c)
  {
    hide Plus;
    Telescopes(a, b, c);
  }

  lemma SquareTimes(m: Size, x: Elem, y: Elem)
    requires Inside(m, x) && Inside(m, y)
    ensures Square(m, Product(m, x, y)) == Product(m, Square(m, x), Square(m, y))
  {
    hide Product, Inside;
    TimesInside(m, x, y);
    TimesInside(m, y, y);
    TimesRegroups(m, x, y, Product(m, x, y));
    TimesShuffle(m, y, x, y);
    TimesRegroups(m, x, x, Product(m, y, y));
  }

  lemma SquareAlpha(m: Size, r: nat)
    ensures Square(m, Alpha(m, r)) == Alpha(m, 2 * r)
  {
    hide Product, Alpha;
    ProductOfPowers(m, r, r);
  }

  lemma SquaresAt(m: Size, p: seq<Elem>, i: int)
    ensures At(Squares(m, p), i) == Square(m, At(p, i))
  {
    hide Product;
    TimesNone(m, ZERO);
  }

  lemma SquaredTerm(m: Size, a: Elem, r: Elem, b: Elem)
    requires Inside(m, a) && Inside(m, r) && Inside(m, b)
    ensures Square(m, Plus(a, Product(m, r, b))) == Plus(Square(m, a), Product(m, Square(m, r), Square(m, b)))
  {
    hide *;
    TimesInside(m, r, b);
    SquarePlus(m, a, Product(m, r, b));
    SquareTimes(m, r, b);
  }

  lemma SquaredAt(m: Size, p: seq<Elem>, r: Elem, i: nat)
    requires AllInside(m, p) && Inside(m, r) && i <= |p|
    ensures Squares(m, WithRoot(m, p, r))[i] == WithRoot(m, Squares(m, p), Square(m, r))[i]
  {
    hide *;
    SquaresAt(m, p, i - 1);
    SquaresAt(m, p, i);
    AtInside(m, p, i - 1);
    AtInside(m, p, i);
    SquaredTerm(m, At(p, i - 1), r, At(p, i));
  }

  /** Squaring the coefficients squares the root. */
  lemma SquaresWithRoot(m: Size, p: seq<Elem>, r: Elem)
    requires AllInside(m, p) && Inside(m, r)
    ensures Squares(m, WithRoot(m, p, r)) == WithRoot(m, Squares(m, p), Square(m, r))
  {
    hide *;
    var u, v := Squares(m, WithRoot(m, p, r)), WithRoot(m, Squares(m, p), Square(m, r));
    forall i | 0 <= i < |u| ensures u[i] == v[i] {
      SquaredAt(m, p, r, i);
    }
  }

  /** Every exponent doubled, in one turn. */
  function Doubled(m: Size, roots: seq<nat>): (d: seq<nat>)
    requires Order(m) > 0
    ensures |d| == |roots| && forall i :: 0 <= i < |d| ==> d[i] == 2 * roots[i] % Order(m)
  {
    seq<nat>(|roots|, i requires 0 <= i < |roots| => 2 * roots[i] % Order(m))
  }

  lemma {:induction false} SquaresOfRoots(m: Size, roots: seq<nat>)
    requires Order(m) > 0
    ensures Squares(m, OfRoots(m, roots)) == OfRoots(m, Doubled(m, roots))
    decreases |roots|
  {
    hide Inside, Alpha, WithRoot, OfRoots, Order, Square;
    if roots == [] {
      NoRoots(m);
    } else {
      var n := |roots| - 1;
      var front, r := roots[..n], roots[n];
      SquaresOfRoots(m, front);
      assert roots == front + [r] && Doubled(m, roots) == Doubled(m, front) + [2 * r % Order(m)];
      OfRootsSnoc(m, front, r);
      OfRootsSnoc(m, Doubled(m, front), 2 * r % Order(m));
      OfRootsInside(m, front);
      AlphaInside(m, r);
      SquaresWithRoot(m, OfRoots(m, front), Alpha(m, r));
      SquareAlpha(m, r);
      AlphaMod(m, 2 * r);
    }
  }

  lemma NoRoots(m: Size)
    requires Order(m) > 0
    ensures Squares(m, OfRoots(m, [])) == OfRoots(m, Doubled(m, []))
  {
    hide Product;
    OneInside(m);
    ProductOne(m, ONE);
    assert Squares(m, [ONE]) == [ONE];
  }

  ghost predicate Binary(p: seq<Elem>) {
    forall i :: 0 <= i < |p| ==> p[i] == ZERO || p[i] == ONE
  }

  lemma OwnSquare(m: Size, x: Elem)
    requires Inside(m, x) && Square(m, x) == x
    ensures x == ZERO || x == ONE
  {
    hide Product, Plus, Inside;
    OneInside(m);
    PlusInside(m, x, ONE);
    ProductPlus(m, x, x, ONE);
    ProductOne(m, x);
    PlusSelf(x);
    TimesInside(m, x, Plus(x, ONE));
    if Plus(x, ONE) == ZERO {
      PlusDiffers(x, ONE);
    }
  }

  /** When doubling only turns the list of exponents round, the polynomial is binary. */
  lemma ClosedIsBinary(m: Size, r: nat, rest: seq<nat>)
    requires Order(m) > 0 && Doubled(m, [r] + rest) == rest + [r]
    ensures Binary(OfRoots(m, [r] + rest))
  {
    hide Inside, OfRoots, Order, Square;
    var p := OfRoots(m, [r] + rest);
    SquaresOfRoots(m, [r] + rest);
    OfRootsRotated(m, r, rest);
    OfRootsInside(m, [r] + rest);
    forall i | 0 <= i < |p| ensures p[i] == ZERO || p[i] == ONE {
      assert Squares(m, p)[i] == Square(m, p[i]);
      OwnSquare(m, p[i]);
    }
  }

  /** The coefficients as bits. */
  function BitsOfCoefficients(p: seq<Elem>): (g: seq<bool>)
    ensures |g| == |p| && forall i :: 0 <= i < |g| ==> g[i] == (p[i] == ONE)
  {
    seq(|p|, i requires 0 <= i < |p| => p[i] == ONE)
  }

  lemma {:induction false} BinaryValue(m: Size, p: seq<Elem>, j: nat)
    requires Binary(p)
    ensures BitValue(m, BitsOfCoefficients(p), j) == LowValue(m, p, j)
    decreases |p|
  {
    hide Plus, Product, Alpha;
    if p != [] {
      var n := |p| - 1;
      BinaryValue(m, p[..n], j);
      assert BitsOfCoefficients(p)[..n] == BitsOfCoefficients(p[..n]);
      AlphaInside(m, n * j);
      OneTimes(m, Alpha(m, n * j));
      TimesNone(m, Alpha(m, n * j));
    }
  }

  // ------------------------------------------------------------ as it runs

  /** `minimal_poly`: one factor after the other, then the coefficients as bits. */
  method MinimalPolynomial(m: Size, t: Tables, coset: seq<nat>) returns (bits: seq<bool>)
    requires IsTables(m, t)
    ensures bits == BitsOfCoefficients(OfRoots(m, coset))
  {
    hide *;
    var poly := [ONE];
    assert coset[..0] == [];
    OfRootsNone(m);
    for i := 0 to |coset|
      invariant poly == OfRoots(m, coset[..i])
    {
      OfRootsInside(m, coset[..i]);
      poly := TimesFactor(m, t, poly, PowerOf(m, t, coset[i]), coset[i]);
      assert coset[..i + 1] == coset[..i] + [coset[i]];
      OfRootsSnoc(m, coset[..i], coset[i]);
    }
    assert coset[..|coset|] == coset;
    bits := BitsOfCoefficients(poly);
  }

  lemma OfRootsNone(m: Size)
    ensures OfRoots(m, []) == [ONE]
  {
  }

  /** The product while the first `k` coefficients have been taken. */
  ghost function Partly(m: Size, p: seq<Elem>, r: Elem, k: nat, i: nat): Elem {
    if i < k then Plus(At(p, i - 1), Product(m, r, At(p, i))) else if i == k then At(p, i - 1) else ZERO
  }

  method TimesFactor(m: Size, t: Tables, poly: seq<Elem>, root: Elem, ghost j: nat) returns (next: seq<Elem>)
    requires IsTables(m, t) && AllInside(m, poly) && root == Alpha(m, j)
    ensures next == WithRoot(m, poly, root)
  {
    hide Inside, Product, Plus, Alpha, IsTables, Partly;
    AlphaInside(m, j);
    next := seq(|poly| + 1, k => ZERO);
    PartlyStart(m, poly, root);
    for k := 0 to |poly|
      invariant |next| == |poly| + 1
      invariant forall i :: 0 <= i < |next| ==> next[i] == Partly(m, poly, root, k, i)
    {
      TimesSwaps(m, poly[k], root);
      PartlyNext(m, poly, root, k);
      next := next[k + 1 := Plus(next[k + 1], poly[k])];
      next := next[k := Plus(next[k], Times(m, t, poly[k], root))];
    }
    PartlyEnd(m, poly, root);
  }

  lemma PartlyStart(m: Size, p: seq<Elem>, r: Elem)
    ensures forall i: nat :: Partly(m, p, r, 0, i) == ZERO
  {
    hide Plus, Product;
  }

  lemma PartlyNext(m: Size, p: seq<Elem>, r: Elem, k: nat)
    requires k < |p|
    ensures Partly(m, p, r, k + 1, k + 1) == Plus(Partly(m, p, r, k, k + 1), p[k])
    ensures Partly(m, p, r, k + 1, k) == Plus(Partly(m, p, r, k, k), Product(m, r, p[k]))
    ensures forall i: nat :: i != k && i != k + 1 ==> Partly(m, p, r, k + 1, i) == Partly(m, p, r, k, i)
  {
    hide Plus, Product;
    PlusNone(p[k]);
  }

  lemma PartlyEnd(m: Size, p: seq<Elem>, r: Elem)
    ensures forall i: nat :: i <= |p| ==> Partly(m, p, r, |p|, i) == WithRoot(m, p, r)[i]
  {
    hide Plus, Product;
    TimesNone(m, r);
    PlusNone(At(p, |p| - 1));
  }
}
