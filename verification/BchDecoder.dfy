/** The syndrome decoder: every pattern of at most the designed weight comes back from its
    remainder, and nothing else ever does. */
module BchDecoder {
  import opened Arithmetic
  import opened Sequences
  import opened Enumerative
  import opened GaloisField
  import opened FieldProducts
  import opened FieldPolynomials
  import opened FieldSums
  import opened FieldRegisters
  import opened BinaryPolynomials
  import opened BchLocator
  import opened BchGenerator
  import BerlekampMassey
  import opened BchSyndrome

  // ------------------------------------------------------------ from bits to positions

  /** A pattern's value is the sum over its positions. */
  lemma {:induction false} ValueOfPositions(m: Size, e: seq<bool>, j: nat)
    ensures PowerSum(m, Ones(e), j) == BitValue(m, e, j)
    decreases |e|
  {
    hide Plus, Alpha;
    if e != [] {
      var n := |e| - 1;
      ValueOfPositions(m, e[..n], j);
      PlusNone(BitValue(m, e[..n], j));
      if e[n] {
        assert Ones(e)[..|Ones(e)| - 1] == Ones(e[..n]);
      }
    }
  }

  lemma PositionsDistinct(m: Size, e: seq<bool>)
    requires |e| == Order(m)
    ensures Distinct(m, Ones(e)) && forall p: nat :: p < |e| ==> (p in Ones(e) <==> e[p])
  {
    hide Order;
    OnesAscend(e);
  }

  /** The remainder has the syndromes of the pattern it came from. */
  lemma SameSyndromes(m: Size, g: seq<bool>, e: seq<bool>, r: seq<bool>, n: nat)
    requires Monic(g) && Degree(g) <= |e| && IsRemainder(g, e, r)
    requires forall j :: 1 <= j <= n ==> BitValue(m, g, j) == ZERO
    ensures Syndromes(m, Ones(r), n) == Syndromes(m, Ones(e), n)
  {
    hide PowerSum, BitValue, IsRemainder, Ones;
    var u, v := Syndromes(m, Ones(r), n), Syndromes(m, Ones(e), n);
    forall j | 0 <= j < n ensures u[j] == v[j] {
      var next := j + 1;
      RemainderValue(m, g, e, r, next);
      ValueOfPositions(m, r, next);
      ValueOfPositions(m, e, next);
    }
  }

  // ------------------------------------------------------------ the distance of the code

  /** No light pattern but zero is a multiple of the generator: any 2t positions have
      independent syndromes. */
  lemma GeneratorSeparates(m: Size, t: nat)
    requires 2 * t < Order(m)
    ensures Monic(Generator(m, t)) && Degree(Generator(m, t)) <= Order(m)
    ensures Separates(Generator(m, t), Order(m), t)
  {
    hide Order, Generator, BitValue, Ones, Multiple, PowerSum;
    GeneratorVanishes(m, t);
    var g, n := Generator(m, t), Order(m);
    forall x: seq<bool> | |x| == n && |Ones(x)| <= 2 * t && DividedBy(g, x) ensures x == Blank(n) {
      LightIsZero(m, t, x);
    }
  }

  lemma {:induction false} RootPowers(m: Size, ps: seq<nat>, j: nat)
    ensures Powers(m, ps, RootsAt(m, ps), j) == PowerSum(m, ps, j + 1)
    decreases |ps|
  {
    hide Plus, Product, Alpha;
    if ps != [] {
      var n := |ps| - 1;
      RootPowers(m, ps[..n], j);
      assert RootsAt(m, ps)[..n] == RootsAt(m, ps[..n]);
      NextPower(m, ps[n], j);
    }
  }

  lemma MultipleVanishes(m: Size, g: seq<bool>, x: seq<bool>, j: nat)
    requires Monic(g) && Degree(g) <= |x| && DividedBy(g, x) && BitValue(m, g, j) == ZERO
    ensures BitValue(m, x, j) == ZERO
  {
    hide Product, BitValue, Multiple;
    var d := |x| - Degree(g);
    var q :| |q| == d && Multiple(g, q, d, |x|) == x;
    MultipleValue(m, g, q, d, |x|, j);
    TimesNone(m, BitValue(m, q[..d], j));
  }

  lemma RootsInside(m: Size, ps: seq<nat>)
    ensures AllInside(m, RootsAt(m, ps))
  {
    hide Inside, Alpha;
    forall i | 0 <= i < |ps| ensures Inside(m, RootsAt(m, ps)[i]) {
      AlphaInside(m, ps[i]);
    }
  }

  lemma LightIsZero(m: Size, t: nat, x: seq<bool>)
    requires 2 * t < Order(m) && |x| == Order(m) && |Ones(x)| <= 2 * t
    requires Monic(Generator(m, t)) && Degree(Generator(m, t)) <= |x| && DividedBy(Generator(m, t), x)
    ensures x == Blank(|x|)
  {
    hide Order, Generator, BitValue, Ones, Multiple, PowerSum, Inside, Powers, DividedBy, Alpha;
    var g, ps := Generator(m, t), Ones(x);
    var roots := RootsAt(m, ps);
    GeneratorVanishes(m, t);
    PositionsDistinct(m, x);
    RootsInside(m, ps);
    forall j: nat | j < |ps| ensures Powers(m, ps, roots, j) == ZERO {
      var next := j + 1;
      RootPowers(m, ps, j);
      ValueOfPositions(m, x, next);
      MultipleVanishes(m, g, x, next);
    }
    WeightsVanish(m, ps, roots);
    forall p | 0 <= p < |x| ensures !x[p] {
      if x[p] {
        var i :| 0 <= i < |ps| && ps[i] == p;
        AlphaInside(m, ps[i]);
      }
    }
  }

  // ------------------------------------------------------------ the Chien search

  /** What the search adds up at position `p`. */
  function ChienSum(m: Size, c: seq<Elem>, p: nat, q: nat): Elem
    requires q <= |c| && p < Order(m)
  {
    if q == 0 then ZERO else Plus(ChienSum(m, c, p, q - 1), Product(m, c[q - 1], Alpha(m, (Order(m) - p) * (q - 1))))
  }

  lemma ChienTerm(m: Size, c: Elem, u: nat, v: nat, w: nat, i: nat)
    requires Inside(m, c) && u + v == w + Order(m) * i
    ensures Product(m, Alpha(m, u), Product(m, c, Alpha(m, v))) == Product(m, c, Alpha(m, w))
  {
    hide Product, Alpha, Inside, Order;
    AlphaInside(m, u);
    AlphaInside(m, v);
    TimesShuffle(m, Alpha(m, u), c, Alpha(m, v));
    ProductOfPowers(m, u, v);
    AlphaTurns(m, w, i);
  }

  lemma ExponentTurns(n: nat, p: nat, l: nat, i: nat)
    requires p <= n && i <= l
    ensures p * l + (n - p) * i == p * (l - i) + n * i
  {
    MulAdd(n - p, p, i);
    MulAdd(l - i, i, p);
  }

  /** One term of both sums, with the exponents as they are. */
  lemma ChienStep(m: Size, c: seq<Elem>, l: nat, p: nat, q: nat, u: nat, v: nat, w: nat)
    requires AllInside(m, c) && q < |c| <= l + 1 && p < Order(m)
    requires u == p * l && v == (Order(m) - p) * q && w == p * (l - q)
    requires Product(m, Alpha(m, u), ChienSum(m, c, p, q)) == Reverse(m, c, l, p, q)
    ensures Product(m, Alpha(m, u), ChienSum(m, c, p, q + 1)) == Reverse(m, c, l, p, q + 1)
  {
    hide Product, Plus, Alpha, Inside, Order;
    var e := Product(m, c[q], Alpha(m, v));
    assert ChienSum(m, c, p, q + 1) == Plus(ChienSum(m, c, p, q), e);
    assert Reverse(m, c, l, p, q + 1) == Plus(Reverse(m, c, l, p, q), Product(m, c[q], Alpha(m, w)));
    hide ChienSum, Reverse;
    ProductPlus(m, Alpha(m, u), ChienSum(m, c, p, q), e);
    ExponentTurns(Order(m), p, l, q);
    ChienTerm(m, c[q], u, v, w, q);
  }

  lemma Exponents(n: nat, p: nat, l: nat, q: nat) returns (v: nat, w: nat)
    requires p <= n && q <= l
    ensures v == (n - p) * q && w == p * (l - q)
  {
    v, w := (n - p) * q, p * (l - q);
  }

  /** The sum is the register's value at the position, but for a factor. */
  lemma {:induction false} ChienIsReverse(m: Size, c: seq<Elem>, l: nat, p: nat, q: nat, u: nat)
    requires AllInside(m, c) && q <= |c| <= l + 1 && p < Order(m) && u == p * l
    ensures Product(m, Alpha(m, u), ChienSum(m, c, p, q)) == Reverse(m, c, l, p, q)
    decreases q
  {
    hide Product, Plus, Alpha, Inside, Order;
    if q == 0 {
      TimesNone(m, Alpha(m, u));
    } else {
      hide ChienSum, Reverse;
      ChienIsReverse(m, c, l, p, q - 1, u);
      var v, w := Exponents(Order(m), p, l, q - 1);
      ChienStep(m, c, l, p, q - 1, u, v, w);
    }
  }

  lemma {:induction false} ReverseBeyond(m: Size, c: seq<Elem>, l: nat, p: nat, q: nat)
    requires |c| <= q <= l + 1
    ensures Reverse(m, c, l, p, q) == Reverse(m, c, l, p, |c|)
    decreases q
  {
    hide Product, Plus, Alpha;
    if |c| < q {
      var k: nat := l + 1 - q;
      ReverseBeyond(m, c, l, p, q - 1);
      TimesNone(m, Alpha(m, p * k));
      PlusNone(Reverse(m, c, l, p, q - 1));
    }
  }

  lemma {:induction false} ChienInside(m: Size, c: seq<Elem>, p: nat, q: nat)
    requires AllInside(m, c) && q <= |c| && p < Order(m)
    ensures Inside(m, ChienSum(m, c, p, q))
  {
    OneInside(m);
    hide Product, Plus, Alpha, Inside, Order;
    if q > 0 {
      ChienInside(m, c, p, q - 1);
      AlphaInside(m, (Order(m) - p) * (q - 1));
      TimesInside(m, c[q - 1], Alpha(m, (Order(m) - p) * (q - 1)));
      PlusInside(m, ChienSum(m, c, p, q - 1), Product(m, c[q - 1], Alpha(m, (Order(m) - p) * (q - 1))));
    }
  }

  /** A position is found exactly where the register vanishes. */
  lemma ChienFinds(m: Size, c: seq<Elem>, l: nat, p: nat)
    requires AllInside(m, c) && |c| <= l + 1 && p < Order(m)
    ensures ChienSum(m, c, p, |c|) == ZERO <==> Eval(m, Whole(c, l), Alpha(m, p)) == ZERO
  {
    hide Product, Alpha, Inside, Order, ChienSum, Reverse, Eval;
    ChienIsReverse(m, c, l, p, |c|, p * l);
    ReverseBeyond(m, c, l, p, l + 1);
    ReverseWhole(m, c, l, p);
    AlphaInside(m, p * l);
    ChienInside(m, c, p, |c|);
    TimesInside(m, Alpha(m, p * l), ChienSum(m, c, p, |c|));
  }

  // ------------------------------------------------------------ decoding

  /** The positions the search finds. */
  function Found(m: Size, c: seq<Elem>): (e: seq<bool>)
    ensures |e| == Order(m) && forall p :: 0 <= p < |e| ==> e[p] == (ChienSum(m, c, p, |c|) == ZERO)
  {
    seq(Order(m), p requires 0 <= p < Order(m) => ChienSum(m, c, p, |c|) == ZERO)
  }

  /** The shortest register through a light pattern's syndromes finds the pattern. */
  lemma LightIsFound(m: Size, c: seq<Elem>, l: nat, e: seq<bool>, n: nat)
    requires |e| == Order(m) && 2 * |Ones(e)| <= n
    requires Annihilates(m, c, l, Syndromes(m, Ones(e), n), n) && Shortest(m, l, Syndromes(m, Ones(e), n), n)
    ensures l == |Ones(e)| && Found(m, c) == e
  {
    hide Order, Inside, Alpha, Eval, ChienSum, Ones, Sum, Syndromes;
    PositionsDistinct(m, e);
    RegisterLocates(m, c, l, Ones(e), n);
    forall p | 0 <= p < |e| ensures Found(m, c)[p] == e[p] {
      ChienFinds(m, c, l, p);
    }
  }

  /** A pattern of at most this weight with this remainder. */
  ghost predicate IsLight(m: Size, t: nat, r: seq<bool>, e: seq<bool>)
    requires 2 * t < Order(m)
  {
    && |e| == Order(m) && |Ones(e)| <= t
    && Monic(Generator(m, t)) && Degree(Generator(m, t)) <= |e| && IsRemainder(Generator(m, t), e, r)
  }

  /** The pattern, if there is one. */
  ghost function LightOf(m: Size, t: nat, r: seq<bool>): Option<seq<bool>>
    requires 2 * t < Order(m)
  {
    if exists e: seq<bool> :: IsLight(m, t, r, e) then
      var e: seq<bool> :| IsLight(m, t, r, e);
      Some(e)
    else None
  }

  lemma LightOfLight(m: Size, t: nat, r: seq<bool>)
    requires 2 * t < Order(m)
    ensures LightOf(m, t, r).Some? ==> IsLight(m, t, r, LightOf(m, t, r).value)
    ensures LightOf(m, t, r).None? ==> forall e: seq<bool> :: !IsLight(m, t, r, e)
  {
    hide IsLight, Order;
  }

  /** Every pattern of at most the designed weight is the one its remainder stands for. */
  lemma LightComesBack(m: Size, t: nat, r: seq<bool>, e: seq<bool>)
    requires 2 * t < Order(m) && IsLight(m, t, r, e)
    ensures LightOf(m, t, r) == Some(e)
  {
    hide Order, Generator, IsRemainder, Ones, Separates;
    LightOfLight(m, t, r);
    var f := LightOf(m, t, r).value;
    GeneratorSeparates(m, t);
    OneLightPattern(Generator(m, t), e, f, r, t);
  }

  /** The field of a block length, if it has one. */
  function ForLength(n: nat): (m: Option<Size>)
    ensures m.Some? ==> Order(m.value) == n
    ensures m.None? ==> forall k: Size :: Order(k) != n
  {
    if n == 255 then Some(8) else if n == 511 then Some(9) else if n == 1023 then Some(10)
    else if n == 2047 then Some(11) else if n == 4095 then Some(12) else if n == 8191 then Some(13)
    else None
  }

  method SyndromesOf(m: Size, tables: Tables, ones: seq<nat>, n: nat) returns (syn: seq<Elem>)
    requires IsTables(m, tables)
    ensures syn == Syndromes(m, ones, n)
  {
    hide Plus, Alpha, IsTables;
    syn := [];
    for j := 0 to n
      invariant |syn| == j && forall i :: 0 <= i < j ==> syn[i] == PowerSum(m, ones, i + 1)
    {
      var acc := ZERO;
      assert ones[..0] == [];
      for i := 0 to |ones|
        invariant acc == PowerSum(m, ones[..i], j + 1)
      {
        assert ones[..i + 1][..i] == ones[..i];
        acc := Plus(acc, PowerOf(m, tables, ones[i] * (j + 1)));
      }
      assert ones[..|ones|] == ones;
      syn := syn + [acc];
    }
  }

  method ChienSearch(m: Size, tables: Tables, c: seq<Elem>) returns (e: seq<bool>, roots: nat)
    requires IsTables(m, tables) && AllInside(m, c)
    ensures e == Found(m, c) && roots == |Ones(e)|
  {
    hide Plus, Alpha, IsTables, Product, Inside, Order;
    var n := Order(m);
    e, roots := [], 0;
    for p := 0 to n
      invariant |e| == p && roots == |Ones(e)|
      invariant forall k :: 0 <= k < p ==> e[k] == (ChienSum(m, c, k, |c|) == ZERO)
    {
      var acc := ZERO;
      for i := 0 to |c|
        invariant acc == ChienSum(m, c, p, i)
      {
        AlphaInside(m, (n - p) * i);
        acc := Plus(acc, Times(m, tables, c[i], PowerOf(m, tables, (n - p) * i)));
      }
      OnesSnoc(e, acc == ZERO);
      if acc == ZERO {
        roots := roots + 1;
      }
      e := e + [acc == ZERO];
    }
  }

  lemma OnesSnoc(e: seq<bool>, bit: bool)
    ensures |Ones(e + [bit])| == |Ones(e)| + if bit then 1 else 0
  {
    assert (e + [bit])[..|e|] == e;
  }

  /** `decode`: the pattern of at most the designed weight with this remainder, if there is one. */
  method Decode(m: Size, tables: Tables, t: nat, g: seq<bool>, r: seq<bool>) returns (e: Option<seq<bool>>)
    requires IsTables(m, tables) && 2 * t < Order(m) && g == Generator(m, t) && |r| == |g| - 1
    ensures e.Some? ==> IsLight(m, t, r, e.value)
    ensures forall pattern: seq<bool> :: IsLight(m, t, r, pattern) ==> e == Some(pattern)
    ensures e == LightOf(m, t, r)
  {
    hide *;
    GeneratorMonic(m, t);
    LightOfLight(m, t, r);
    if t == 0 {
      NoWeight(m, r);
      return Some(Blank(Order(m)));
    }
    var syn := SyndromesOf(m, tables, Ones(r), 2 * t);
    SyndromesInside(m, Ones(r), 2 * t);
    var c, l := FitRegister(m, tables, syn);
    forall pattern: seq<bool> | IsLight(m, t, r, pattern) ensures l == |Ones(pattern)| <= t && Found(m, c) == pattern {
      LightDecodes(m, t, r, pattern, c, l);
    }
    if l > t {
      return None;
    }
    RegisterInside(m, c, l, syn, 2 * t);
    var found, roots := ChienSearch(m, tables, c);
    var back := Syndrome(g, found);
    LightChecked(m, t, r, found, back);
    e := if roots == l && back == r then Some(found) else None;
  }

  lemma GeneratorMonic(m: Size, t: nat)
    requires 2 * t < Order(m)
    ensures Monic(Generator(m, t)) && Degree(Generator(m, t)) == |Generator(m, t)| - 1 <= Order(m)
  {
    hide BitValue, Order, Generator;
    GeneratorVanishes(m, t);
  }

  lemma RegisterInside(m: Size, c: seq<Elem>, l: nat, x: seq<Elem>, n: nat)
    requires Annihilates(m, c, l, x, n)
    ensures AllInside(m, c)
  {
    hide Sum, Inside;
  }

  lemma LightDecodes(m: Size, t: nat, r: seq<bool>, e: seq<bool>, c: seq<Elem>, l: nat)
    requires 2 * t < Order(m) && IsLight(m, t, r, e)
    requires Annihilates(m, c, l, Syndromes(m, Ones(r), 2 * t), 2 * t) && Shortest(m, l, Syndromes(m, Ones(r), 2 * t), 2 * t)
    ensures l == |Ones(e)| <= t && Found(m, c) == e
  {
    hide Order, Generator, BitValue, Syndromes, Annihilates, Shortest, Found, IsRemainder;
    GeneratorVanishes(m, t);
    SameSyndromes(m, Generator(m, t), e, r, 2 * t);
    LightIsFound(m, c, l, e, 2 * t);
  }

  /** Recomputing the remainder tells whether the pattern found has it. */
  lemma LightChecked(m: Size, t: nat, r: seq<bool>, e: seq<bool>, back: seq<bool>)
    requires 2 * t < Order(m) && |e| == Order(m)
    requires Monic(Generator(m, t)) && Degree(Generator(m, t)) <= |e| && IsRemainder(Generator(m, t), e, back)
    ensures IsLight(m, t, r, e) <==> |Ones(e)| <= t && back == r
  {
    hide Order, Generator, Ones;
    if IsRemainder(Generator(m, t), e, r) {
      RemainderUnique(Generator(m, t), e, r, back);
    }
  }

  /** The generator for no positions is 1: only the zero pattern, and no remainder. */
  lemma NoWeight(m: Size, r: seq<bool>)
    requires 0 < Order(m) && |r| == |Generator(m, 0)| - 1
    ensures forall pattern: seq<bool> :: IsLight(m, 0, r, pattern) <==> pattern == Blank(Order(m))
  {
    hide Order;
    forall pattern: seq<bool> ensures IsLight(m, 0, r, pattern) <==> pattern == Blank(Order(m)) {
      NoWeightAt(m, r, pattern);
    }
  }

  lemma NoWeightAt(m: Size, r: seq<bool>, e: seq<bool>)
    requires 0 < Order(m) && |r| == |Generator(m, 0)| - 1
    ensures IsLight(m, 0, r, e) <==> e == Blank(Order(m))
  {
    hide Order, Ones, DividedBy, Multiple;
    GeneratorOne(m);
    OnesAscend(e);
    if |e| == Order(m) && |Ones(e)| == 0 {
      assert forall p :: 0 <= p < |e| ==> !e[p];
    }
    if e == Blank(Order(m)) {
      BlankOnes(Order(m));
      BlankDivided(Order(m));
      assert BerlekampMassey.Xor(e, Padded(r, |e|)) == Blank(|e|);
    }
  }

  lemma GeneratorOne(m: Size)
    requires 0 < Order(m)
    ensures Generator(m, 0) == [true]
  {
  }

  lemma {:induction false} BlankOnes(n: nat)
    ensures Ones(Blank(n)) == []
  {
    if n > 0 {
      BlankOnes(n - 1);
      assert Blank(n)[..n - 1] == Blank(n - 1);
    }
  }

  lemma BlankDivided(n: nat)
    ensures DividedBy([true], Blank(n))
  {
    var q := Blank(n);
    MultipleOfNone([true], q, n, n);
    assert |q| == n - Degree([true]) && Multiple([true], q, |q|, n) == Blank(n);
  }
}
