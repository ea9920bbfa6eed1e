/** The residual that stores a light pattern as its weight and its remainder. */
module BchResidual {
  import opened Arithmetic
  import opened BchDecoder
  import opened BchGenerator
  import opened BchSyndrome
  import opened BitStrings
  import opened Enumerative
  import opened FieldProducts
  import opened GaloisField
  import opened MsbStream
  import opened Sequences

  /** The length has a code, and the code is built for the weight. */
  predicate Light(e: seq<bool>) {
    ForLength(|e|).Some? && |Ones(e)| <= LargestWeight(ForLength(|e|).value)
  }

  ghost predicate Remainder(e: seq<bool>, r: seq<bool>)
    requires Light(e)
  {
    IsLight(ForLength(|e|).value, |Ones(e)|, r, e)
  }

  /** The weight, and the remainder under the generator for exactly that weight. */
  ghost predicate BchBits(e: seq<bool>, s: seq<bool>) {
    Light(e) && exists r: seq<bool> :: Remainder(e, r) && s == Gamma(|Ones(e)| + 1) + r
  }

  ghost function TakeBch(s: seq<bool>, n: nat): Option<(seq<bool>, seq<bool>)> {
    match TakeGamma(s, 0)
    case None => None
    case Some((g, rest)) =>
      match ForLength(n)
      case None => None
      case Some(m) => if g - 1 > LargestWeight(m) then None else TakeLight(m, g - 1, rest)
  }

  ghost function TakeLight(m: Size, t: nat, s: seq<bool>): Option<(seq<bool>, seq<bool>)>
    requires 2 * t < Order(m)
  {
    var k := |Generator(m, t)| - 1;
    if k < 0 || k > |s| then None
    else
      match LightOf(m, t, s[..k])
      case None => None
      case Some(e) => Some((e, s[k..]))
  }

  lemma TakeLightBack(m: Size, t: nat, e: seq<bool>, r: seq<bool>, tail: seq<bool>)
    requires 2 * t < Order(m) && IsLight(m, t, r, e)
    ensures TakeLight(m, t, r + tail) == Some((e, tail))
  {
    hide Order, Generator, LightOf, DividedBy;
    assert (r + tail)[..|r|] == r && (r + tail)[|r|..] == tail;
    assert |Generator(m, t)| - 1 == |r|;
    LightComesBack(m, t, r, e);
  }

  /** A pattern with a code for its length and weight reads back from its weight and remainder. */
  lemma BchBack(e: seq<bool>, s: seq<bool>, tail: seq<bool>)
    requires BchBits(e, s)
    ensures TakeBch(s + tail, |e|) == Some((e, tail))
  {
    hide Order, Generator, TakeGamma, Gamma, Ones, TakeLight, IsLight, BitLength, Pow2;
    var m, t := ForLength(|e|).value, |Ones(e)|;
    var r: seq<bool> :| Remainder(e, r) && s == Gamma(t + 1) + r;
    CountFits(m, t);
    GammaBack(t + 1, r + tail);
    assert s + tail == Gamma(t + 1) + (r + tail);
    TakeLightBack(m, t, e, r, tail);
  }

  lemma CountFits(m: Size, t: nat)
    requires t <= LargestWeight(m)
    ensures t + 1 < Pow2(64)
  {
    hide Order, Pow2;
    Pow8();
    Pow2Add(8, 8);
    Pow2Add(16, 48);
    MulLe(1, Pow2(48), Pow2(16), Pow2(16));
  }

  /** What is read has the length asked for. */
  lemma BchTaken(s: seq<bool>, n: nat)
    requires TakeBch(s, n).Some?
    ensures |TakeBch(s, n).value.0| == n
  {
    hide TakeGamma, Generator, LightOf, IsRemainder;
    var m, t := ForLength(n).value, TakeGamma(s, 0).value.0 - 1;
    var rest := TakeGamma(s, 0).value.1;
    LightOfLight(m, t, rest[..|Generator(m, t)| - 1]);
  }

  /** Bits of the remainder for the weight a pattern has. */
  ghost function RemainderBits(e: seq<bool>): nat
    requires Light(e)
  {
    var m := ForLength(|e|).value;
    GeneratorMonic(m, |Ones(e)|);
    Degree(Generator(m, |Ones(e)|))
  }

  lemma BchSize(e: seq<bool>, s: seq<bool>)
    requires BchBits(e, s)
    ensures |s| == |Gamma(|Ones(e)| + 1)| + RemainderBits(e)
  {
    hide Generator, DividedBy, Gamma, Ones;
  }

  lemma LightEncodes(e: seq<bool>, t: nat)
    requires Light(e) && t == |Ones(e)|
    ensures ForLength(|e|).Some? && t <= LargestWeight(ForLength(|e|).value) && t + 1 < Pow2(64)
    ensures var m := ForLength(|e|).value; Monic(Generator(m, t)) && Degree(Generator(m, t)) <= |e|
  {
    hide Pow2, Order, Generator;
    var m := ForLength(|e|).value;
    CountFits(m, t);
    GeneratorMonic(m, t);
  }

  lemma IsBchBits(e: seq<bool>, r: seq<bool>, s: seq<bool>)
    requires Light(e) && s == Gamma(|Ones(e)| + 1) + r
    requires var m, t := ForLength(|e|).value, |Ones(e)|;
      Monic(Generator(m, t)) && Degree(Generator(m, t)) <= |e| && IsRemainder(Generator(m, t), e, r)
    ensures BchBits(e, s)
  {
    hide Generator, DividedBy, Gamma, Ones;
    assert Remainder(e, r);
  }

  method EncodeBch(e: seq<bool>, t: nat, w: BitWriter) returns (ghost s: seq<bool>)
    requires w.Valid() && Light(e) && t == |Ones(e)|
    modifies w
    ensures w.Valid() && w.Written() == old(w.Written()) + s && BchBits(e, s)
  {
    hide *;
    LightEncodes(e, t);
    var m := ForLength(|e|).value;
    var tables := BuildTables(m);
    var generators := BuildGenerators(m, tables);
    var r := Syndrome(generators[t], e);
    ghost var start := w.Written();
    w.PutGamma(t + 1);
    w.PutBits(r);
    s := Gamma(t + 1) + r;
    IsBchBits(e, r, s);
    assert start + Gamma(t + 1) + r == start + s;
  }

  method DecodeBch(n: nat, r: BitReader) returns (e: Option<seq<bool>>)
    requires r.Valid()
    modifies r
    ensures r.Valid() && (e.None? <==> TakeBch(old(r.Rest()), n).None?)
    ensures e.Some? ==> TakeBch(old(r.Rest()), n) == Some((e.value, r.Rest()))
  {
    hide TakeGamma, BitReader.Valid, BitReader.Rest, Order, Generator, LightOf, IsLight, IsTables;
    var g := r.GetGamma();
    if g.None? {
      return None;
    }
    var length := ForLength(n);
    if length.None? {
      return None;
    }
    var m, t := length.value, g.value - 1;
    var tables := BuildTables(m);
    var generators := BuildGenerators(m, tables);
    if t >= |generators| {
      return None;
    }
    GeneratorMonic(m, t);
    ghost var rest := r.Rest();
    var syndrome := r.GetBits(|generators[t]| - 1);
    if syndrome.None? {
      return None;
    }
    assert rest[..|generators[t]| - 1] == syndrome.value && rest[|generators[t]| - 1..] == r.Rest();
    e := Decode(m, tables, t, generators[t], syndrome.value);
  }
}
