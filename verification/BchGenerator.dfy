/** The generators: products of minimal polynomials over the cosets of the first exponents. */
module BchGenerator {
  import opened Arithmetic
  import opened BitStrings
  import opened Counting
  import opened BerlekampMassey
  import opened GaloisField
  import opened FieldProducts
  import opened BinaryPolynomials
  import opened MinimalPolynomials
  import opened BchSyndrome

  // ------------------------------------------------------------ cosets

  /** Doubled `k` times, modulo the order. */
  function Turned(m: Size, i: nat, k: nat): nat {
    OrderPositive(m);
    if k == 0 then i else 2 * Turned(m, i, k - 1) % Order(m)
  }

  lemma {:induction false} TurnedAdds(m: Size, i: nat, j: nat, k: nat)
    ensures Turned(m, Turned(m, i, j), k) == Turned(m, i, j + k)
    decreases k
  {
    hide Order;
    if k > 0 {
      TurnedAdds(m, i, j, k - 1);
    }
  }

  lemma TurnedInside(m: Size, i: nat, k: nat)
    requires i < Order(m)
    ensures Turned(m, i, k) < Order(m)
  {
    hide Order;
    OrderPositive(m);
  }

  lemma DoubledRemainder(a: nat, n: nat)
    requires n > 0
    ensures 2 * (a % n) % n == 2 * a % n
  {
    var q, r := a / n, a % n;
    assert a == n * q + r;
    DoubledSplit(n, q, r);
  }

  lemma DoubledSplit(n: nat, q: nat, r: nat)
    requires r < n
    ensures 2 * r % n == 2 * (n * q + r) % n
  {
    MulTwice(n, q);
    if 2 * r < n {
      ModUnique(2 * r, n, 0, 2 * r);
      ModUnique(2 * (n * q + r), n, 2 * q, 2 * r);
    } else {
      MulAdd(2 * q, 1, n);
      ModUnique(2 * r, n, 1, 2 * r - n);
      ModUnique(2 * (n * q + r), n, 2 * q + 1, 2 * r - n);
    }
  }

  lemma {:induction false} TurnedIs(m: Size, i: nat, k: nat)
    requires i < Order(m)
    ensures Turned(m, i, k) == i * Pow2(k) % Order(m)
    decreases k
  {
    hide Order;
    if k == 0 {
      ModUnique(i, Order(m), 0, i);
    } else {
      TurnedIs(m, i, k - 1);
      DoubledRemainder(i * Pow2(k - 1), Order(m));
      MulTwice(i, Pow2(k - 1));
    }
  }

  lemma OrderIsPower(m: Size)
    ensures Order(m) == Pow2(m) - 1
  {
    if m == 8 {
      assert Pow2(8) == 256;
    } else if m == 9 {
      assert Pow2(9) == 512;
    } else if m == 10 {
      assert Pow2(10) == 1024;
    } else if m == 11 {
      assert Pow2(11) == 2048;
    } else if m == 12 {
      assert Pow2(12) == 4096;
    } else {
      assert Pow2(13) == 8192;
    }
  }

  /** After m doublings an exponent is back. */
  lemma FullCircle(m: Size, i: nat)
    requires i < Order(m)
    ensures Turned(m, i, m) == i
  {
    hide Order, Turned, Pow2;
    TurnedIs(m, i, m);
    OrderIsPower(m);
    MulAdd(Order(m), 1, i);
    ModUnique(i * Pow2(m), Order(m), i, i);
  }

  /** The first return after `k` doublings. */
  function Period(m: Size, i: nat, k: nat): (p: nat)
    requires i < Order(m) && 1 <= k <= m
    ensures k <= p <= m && Turned(m, i, p) == i
    ensures forall j :: k <= j < p ==> Turned(m, i, j) != i
    decreases m - k
  {
    FullCircle(m, i);
    if Turned(m, i, k) == i then k else Period(m, i, k + 1)
  }

  /** The exponents that doubling leads to. */
  function Coset(m: Size, i: nat): (s: seq<nat>)
    requires i < Order(m)
    ensures |s| == Period(m, i, 1) && forall k :: 0 <= k < |s| ==> s[k] == Turned(m, i, k)
  {
    seq<nat>(Period(m, i, 1), k requires 0 <= k => Turned(m, i, k))
  }

  lemma CosetDistinct(m: Size, i: nat)
    requires i < Order(m)
    ensures forall a, b :: 0 <= a < b < |Coset(m, i)| ==> Coset(m, i)[a] != Coset(m, i)[b]
  {
    hide Order, Turned;
    var s := Coset(m, i);
    forall a, b | 0 <= a < b < |s| ensures s[a] != s[b] {
      if s[a] == s[b] {
        MeetsStart(m, i, a, b);
      }
    }
  }

  /** Exponents that meet have met at the start. */
  lemma MeetsStart(m: Size, i: nat, a: nat, b: nat)
    requires i < Order(m) && a <= b <= m && Turned(m, i, a) == Turned(m, i, b)
    ensures Turned(m, i, b - a) == i
  {
    hide Order, Turned;
    TurnedAdds(m, i, a, m - a);
    TurnedAdds(m, i, b, m - a);
    FullCircle(m, i);
    TurnedAdds(m, i, m, b - a);
  }

  /** Doubling turns a coset round by one. */
  lemma CosetTurns(m: Size, i: nat)
    requires i < Order(m)
    ensures Order(m) > 0 && Coset(m, i) != [] && Coset(m, i)[0] == i
    ensures Doubled(m, Coset(m, i)) == Coset(m, i)[1..] + [i]
  {
    var s := Coset(m, i);
    hide Order;
    forall k | 0 <= k < |s| ensures Doubled(m, s)[k] == (s[1..] + [i])[k] {
      assert Turned(m, i, k + 1) == 2 * s[k] % Order(m);
    }
  }

  // ------------------------------------------------------------ the generators

  function MinimalPoly(m: Size, i: nat): (g: seq<bool>)
    requires i < Order(m)
  {
    BitsOfCoefficients(OfRoots(m, Coset(m, i)))
  }

  lemma MinimalPolyFacts(m: Size, i: nat)
    requires i < Order(m)
    ensures Monic(MinimalPoly(m, i)) && Degree(MinimalPoly(m, i)) == |Coset(m, i)|
    ensures forall j :: j in Coset(m, i) ==> BitValue(m, MinimalPoly(m, i), j) == ZERO
  {
    hide Order, Coset, OfRoots, BitValue, LowValue;
    var s := Coset(m, i);
    CosetTurns(m, i);
    assert s == [i] + s[1..];
    ClosedIsBinary(m, i, s[1..]);
    OfRootsInside(m, s);
    forall j | j in s ensures BitValue(m, MinimalPoly(m, i), j) == ZERO {
      OfRootsVanishes(m, s, j);
      BinaryValue(m, OfRoots(m, s), j);
    }
  }

  function GfProduct(a: seq<bool>, b: seq<bool>): (x: seq<bool>)
    requires |a| >= 1 && |b| >= 1
    ensures |x| == |a| + |b| - 1
  {
    Multiple(a, b, |b|, |a| + |b| - 1)
  }

  lemma GfProductFacts(m: Size, a: seq<bool>, b: seq<bool>)
    requires Monic(a) && Monic(b)
    ensures Monic(GfProduct(a, b)) && Degree(GfProduct(a, b)) == Degree(a) + Degree(b)
    ensures forall j: nat :: BitValue(m, GfProduct(a, b), j) == Product(m, BitValue(m, a, j), BitValue(m, b, j))
  {
    hide Product, BitValue, Multiple;
    TopCoefficient(a, b, |b|, |a| + |b| - 1);
    forall j: nat ensures BitValue(m, GfProduct(a, b), j) == Product(m, BitValue(m, a, j), BitValue(m, b, j)) {
      MultipleValue(m, a, b, |b|, |a| + |b| - 1, j);
      assert b[..|b|] == b;
    }
  }

  /** A generator on the way, and the exponents it vanishes at. */
  datatype Family = Family(g: seq<bool>, marked: set<nat>)

  ghost function Joined(m: Size, f: Family, i: nat): Family
    requires i < Order(m) && |f.g| >= 1
  {
    if i in f.marked then f
    else Family(GfProduct(f.g, MinimalPoly(m, i)), f.marked + Elements(Coset(m, i)))
  }

  ghost predicate Good(m: Size, f: Family) {
    && Monic(f.g) && Degree(f.g) == |f.marked|
    && (forall j :: j in f.marked ==> j < Order(m) && Turned(m, j, 1) in f.marked && BitValue(m, f.g, j) == ZERO)
  }

  lemma {:induction false} MarkedTurns(m: Size, f: Family, j: nat, k: nat)
    requires Good(m, f) && j in f.marked
    ensures Turned(m, j, k) in f.marked
    decreases k
  {
    hide Order, BitValue;
    if k > 0 {
      MarkedTurns(m, f, j, k - 1);
      TurnedAdds(m, j, k - 1, 1);
    }
  }

  /** A coset is marked as a whole or not at all. */
  lemma CosetApart(m: Size, f: Family, i: nat)
    requires Good(m, f) && i < Order(m) && i !in f.marked
    ensures forall k :: 0 <= k < |Coset(m, i)| ==> Coset(m, i)[k] !in f.marked
  {
    hide Order, BitValue, Turned;
    var s := Coset(m, i);
    forall k | 0 <= k < |s| ensures s[k] !in f.marked {
      if s[k] in f.marked {
        MarkedTurns(m, f, s[k], m - k);
        TurnedAdds(m, i, k, m - k);
        FullCircle(m, i);
      }
    }
  }

  lemma JoinedGood(m: Size, f: Family, i: nat)
    requires Good(m, f) && i < Order(m)
    ensures Good(m, Joined(m, f, i)) && i in Joined(m, f, i).marked && f.marked <= Joined(m, f, i).marked
  {
    hide Order, BitValue, Turned, Product, Multiple, Coset, MinimalPoly, GfProduct;
    if i !in f.marked {
      var s, h := Coset(m, i), Joined(m, f, i);
      CosetTurns(m, i);
      CosetApart(m, f, i);
      CosetDistinct(m, i);
      MinimalPolyFacts(m, i);
      GfProductFacts(m, f.g, MinimalPoly(m, i));
      DistinctSize(s);
      DisjointSize(f.marked, Elements(s));
      assert s[0] in s;
      forall j | j in h.marked ensures j < Order(m) && Turned(m, j, 1) in h.marked && BitValue(m, h.g, j) == ZERO {
        TimesNone(m, BitValue(m, f.g, j));
        TimesNone(m, BitValue(m, MinimalPoly(m, i), j));
        if j !in f.marked {
          CosetClosed(m, i, j);
        }
      }
    }
  }

  lemma DisjointSize(a: set<nat>, b: set<nat>)
    requires a !! b
    ensures |a + b| == |a| + |b|
  {
  }

  lemma CosetClosed(m: Size, i: nat, j: nat)
    requires i < Order(m) && j in Coset(m, i)
    ensures j < Order(m) && Turned(m, j, 1) in Coset(m, i)
  {
    hide Order, Turned;
    var s := Coset(m, i);
    var k :| 0 <= k < |s| && s[k] == j;
    TurnedInside(m, i, k);
    TurnedAdds(m, i, k, 1);
    if k + 1 < |s| {
      var next := k + 1;
      assert s[next] == Turned(m, i, next);
    } else {
      CosetTurns(m, i);
      assert s[0] == i;
    }
  }

  /** After the exponents 1 .. k. */
  ghost function FamilyAt(m: Size, k: nat): (f: Family)
    requires k < Order(m)
    ensures |f.g| >= 1
  {
    if k == 0 then Family([true], {}) else Joined(m, FamilyAt(m, k - 1), k)
  }

  lemma {:induction false} FamilyGood(m: Size, k: nat)
    requires k < Order(m)
    ensures Good(m, FamilyAt(m, k)) && forall j: nat :: 1 <= j <= k ==> j in FamilyAt(m, k).marked
    decreases k
  {
    hide Order, Joined, BitValue, Turned;
    if k > 0 {
      FamilyGood(m, k - 1);
      JoinedGood(m, FamilyAt(m, k - 1), k);
    }
  }

  /** The generator for patterns of weight up to `t`. */
  ghost function Generator(m: Size, t: nat): (g: seq<bool>)
    requires 2 * t < Order(m)
    ensures |g| >= 1
  {
    FamilyAt(m, 2 * t).g
  }

  /** It vanishes at the first 2t powers, and its degree fits the block. */
  lemma GeneratorVanishes(m: Size, t: nat)
    requires 2 * t < Order(m)
    ensures Monic(Generator(m, t)) && Degree(Generator(m, t)) <= Order(m)
    ensures forall j :: 1 <= j <= 2 * t ==> BitValue(m, Generator(m, t), j) == ZERO
  {
    hide Order, FamilyAt, BitValue, Turned;
    var f := FamilyAt(m, 2 * t);
    FamilyGood(m, 2 * t);
    assert f.marked <= Range(Order(m));
    SubsetSize(f.marked, Range(Order(m)));
  }

  // ------------------------------------------------------------ as it runs

  /** `cyclotomic_coset`. */
  method CyclotomicCoset(m: Size, i: nat) returns (coset: seq<nat>)
    requires i < Order(m)
    ensures coset == Coset(m, i)
  {
    hide Order;
    OrderPositive(m);
    coset := [i];
    var j := 2 * i % Order(m);
    TurnedOnce(m, i);
    while j != i
      invariant 1 <= |coset| <= Period(m, i, 1) && j == Turned(m, i, |coset|)
      invariant forall k :: 0 <= k < |coset| ==> coset[k] == Turned(m, i, k)
      decreases m - |coset|
    {
      coset := coset + [j];
      j := 2 * j % Order(m);
    }
  }

  lemma TurnedOnce(m: Size, i: nat)
    ensures Order(m) > 0 && Turned(m, i, 1) == 2 * i % Order(m) && Turned(m, i, 0) == i
  {
    OrderPositive(m);
  }

  /** `gf2_mul`: the first polynomial added in for every bit of the second. */
  method BinaryTimes(a: seq<bool>, b: seq<bool>) returns (out: seq<bool>)
    requires |a| >= 1 && |b| >= 1
    ensures out == GfProduct(a, b)
  {
    var n := |a| + |b| - 1;
    out := Blank(n);
    for k := 0 to |b|
      invariant out == Multiple(a, b, k, n)
    {
      if b[k] {
        out := Xor(out, Slice(a, -k, n));
      }
    }
  }

  const MAX_T: nat := 256

  /** The largest weight a generator is built for. */
  function LargestWeight(m: Size): (t: nat)
    ensures 2 * t < Order(m)
  {
    OrderPositive(m);
    if 2 * MAX_T < Order(m) then MAX_T else (Order(m) - 1) / 2
  }

  /** `Bch::new`: generators by designed weight, each from the one before. */
  method BuildGenerators(m: Size, t: Tables) returns (generators: seq<seq<bool>>)
    requires IsTables(m, t)
    ensures |generators| == LargestWeight(m) + 1
    ensures forall w :: 0 <= w < |generators| ==> generators[w] == Generator(m, w)
  {
    hide Order, Joined, Coset, OfRoots, IsTables, GfProduct;
    var n := Order(m);
    OrderPositive(m);
    var marked := new bool[n](i => false);
    var g := [true];
    generators := [g];
    NoFamily(m);
    var w := 1;
    while w <= MAX_T && 2 * w < n
      invariant 1 <= w <= LargestWeight(m) + 1
      invariant |generators| == w && forall v :: 0 <= v < w ==> generators[v] == Generator(m, v)
      invariant forall j :: 0 <= j < n ==> (marked[j] <==> j in FamilyAt(m, 2 * (w - 1)).marked)
      invariant g == FamilyAt(m, 2 * (w - 1)).g
    {
      FamilyNext(m, 2 * w - 1);
      FamilyNext(m, 2 * w);
      g := Join(m, t, marked, g, FamilyAt(m, 2 * w - 2), 2 * w - 1);
      g := Join(m, t, marked, g, FamilyAt(m, 2 * w - 1), 2 * w);
      generators := generators + [g];
      w := w + 1;
    }
  }

  lemma NoFamily(m: Size)
    ensures Order(m) > 0 && FamilyAt(m, 0) == Family([true], {})
  {
  }

  lemma FamilyNext(m: Size, k: nat)
    requires 0 < k < Order(m)
    ensures FamilyAt(m, k) == Joined(m, FamilyAt(m, k - 1), k)
  {
    hide Joined, Order;
  }

  /** One exponent: its coset marked and its minimal polynomial multiplied in, once. */
  method Join(m: Size, t: Tables, marked: array<bool>, g: seq<bool>, ghost f: Family, i: nat) returns (h: seq<bool>)
    requires IsTables(m, t) && i < Order(m) && |g| >= 1 && f.g == g && marked.Length == Order(m)
    requires forall j :: 0 <= j < Order(m) ==> (marked[j] <==> j in f.marked)
    modifies marked
    ensures h == Joined(m, f, i).g
    ensures forall j :: 0 <= j < Order(m) ==> (marked[j] <==> j in Joined(m, f, i).marked)
  {
    hide Order, OfRoots, IsTables, GfProduct, Turned, BitsOfCoefficients;
    h := g;
    if !marked[i] {
      var coset := CyclotomicCoset(m, i);
      for k := 0 to |coset|
        invariant forall j :: 0 <= j < Order(m) ==> (marked[j] <==> j in f.marked || j in coset[..k])
      {
        TurnedInside(m, i, k);
        marked[coset[k]] := true;
        assert coset[..k + 1] == coset[..k] + [coset[k]];
      }
      assert coset[..|coset|] == coset;
      var minimal := MinimalPolynomial(m, t, coset);
      h := BinaryTimes(g, minimal);
    }
  }
}
