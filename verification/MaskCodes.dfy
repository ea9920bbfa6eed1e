/** How a mask is described in bits: family, then its own parameters. */
module MaskCodes {
  import opened Arithmetic
  import opened BitStrings
  import opened BitWords
  import opened Sequences
  import opened MsbStream
  import opened Masks

  type TakenMask = Option<(Mask, seq<bool>)>

  function Family(m: Mask): (f: nat)
    ensures f < 9
  {
    match m
    case Zero => 0
    case Pattern(_, _) => 1
    case Stride(_) => 2
    case PrevBlock => 3
    case Match(_) => 4
    case AddDelta(_) => 5
    case Lfsr(_, _) => 6
    case BmLfsr(_, _) => 7
    case TwoStage(_, _, _) => 8
  }

  function PatternField(len: nat, bits: nat): seq<bool>
    requires len < 6
  {
    Msb(len, INDEX_BITS) + Msb(bits, PatternLens()[len])
  }

  function BodyBits(m: Mask): seq<bool>
    requires Describable(m, Linear)
  {
    match m
    case Pattern(len, bits) => PatternField(len, bits)
    case Stride(idx) => Msb(idx, INDEX_BITS)
    case Match(dist) => Gamma(dist)
    case AddDelta(idx) => Msb(idx, INDEX_BITS)
    case Lfsr(poly, seed) => Msb(poly, 2) + Msb(seed, Polys()[poly].0)
    case BmLfsr(conn, start) => Gamma(|conn| + 1) + conn + start
    case TwoStage(dist, len, bits) => Gamma(dist) + PatternField(len, bits)
    case _ => []
  }

  function MaskBits(m: Mask): seq<bool>
    requires Describable(m, Linear)
  {
    Msb(Family(m), FAMILY_BITS) + BodyBits(m)
  }

  /** The size the encoder ranks masks by. */
  function MaskCost(m: Mask): nat
    requires Describable(m, Linear)
  {
    FAMILY_BITS +
    match m
    case Pattern(len, _) => INDEX_BITS + PatternLens()[len]
    case Stride(_) => INDEX_BITS
    case Match(dist) => 2 * BitLength(dist) - 1
    case AddDelta(_) => INDEX_BITS
    case Lfsr(poly, _) => 2 + Polys()[poly].0
    case BmLfsr(conn, _) => 2 * BitLength(|conn| + 1) - 1 + 2 * |conn|
    case TwoStage(dist, len, _) => 2 * BitLength(dist) - 1 + INDEX_BITS + PatternLens()[len]
    case _ => 0
  }

  lemma MaskCostIsSize(m: Mask)
    requires Describable(m, Linear)
    ensures |MaskBits(m)| == MaskCost(m)
  {
    hide Msb, BitLength;
  }

  // ------------------------------------------------------------ reading

  function TakeIndex(s: seq<bool>, limit: nat): Option<(nat, seq<bool>)> {
    match TakeNat(s, INDEX_BITS)
    case None => None
    case Some((i, rest)) => if i < limit then Some((i, rest)) else None
  }

  function TakePattern(s: seq<bool>): Option<(nat, nat, seq<bool>)> {
    match TakeIndex(s, 6)
    case None => None
    case Some((len, rest)) =>
      match TakeNat(rest, PatternLens()[len])
      case None => None
      case Some((bits, later)) => Some((len, bits, later))
  }

  function TakeLfsr(s: seq<bool>): TakenMask {
    match TakeNat(s, 2)
    case None => None
    case Some((poly, rest)) =>
      if poly >= 4 then None
      else
        match TakeNat(rest, Polys()[poly].0)
        case None => None
        case Some((seed, later)) => Some((Lfsr(poly, seed), later))
  }

  function TakeBm(s: seq<bool>): TakenMask {
    match TakeGamma(s, 0)
    case None => None
    case Some((g, rest)) =>
      var l := g - 1;
      if l > BM_MAX_BITS || 2 * l > |rest| then None
      else Some((BmLfsr(rest[..l], rest[l..2 * l]), rest[2 * l..]))
  }

  function TakeTwoStage(s: seq<bool>): TakenMask {
    match TakeGamma(s, 0)
    case None => None
    case Some((dist, rest)) =>
      match TakePattern(rest)
      case None => None
      case Some((len, bits, later)) => Some((TwoStage(dist, len, bits), later))
  }

  function TakeBody(family: nat, s: seq<bool>, repr: Repr): TakenMask {
    if family == 0 then Some((Zero, s))
    else if family == 1 then
      match TakePattern(s)
      case None => None
      case Some((len, bits, rest)) => Some((Pattern(len, bits), rest))
    else if family == 2 then
      match TakeIndex(s, 7)
      case None => None
      case Some((idx, rest)) => Some((Stride(idx), rest))
    else if family == 3 then Some((PrevBlock, s))
    else if family == 4 then
      match TakeGamma(s, 0)
      case None => None
      case Some((dist, rest)) => Some((Match(dist), rest))
    else if family == 5 && repr.Linear? then
      match TakeIndex(s, 7)
      case None => None
      case Some((idx, rest)) => Some((AddDelta(idx), rest))
    else if family == 6 then TakeLfsr(s)
    else if family == 7 then TakeBm(s)
    else if family == 8 then TakeTwoStage(s)
    else None
  }

  function TakeMask(s: seq<bool>, repr: Repr): TakenMask {
    match TakeNat(s, FAMILY_BITS)
    case None => None
    case Some((family, rest)) => TakeBody(family, rest, repr)
  }

  lemma SmallPowers()
    ensures Pow2(2) == 4 && Pow2(INDEX_BITS) == 8 && Pow2(FAMILY_BITS) == 16
  {
  }

  lemma IndexBack(i: nat, limit: nat, tail: seq<bool>)
    requires i < limit <= 8
    ensures TakeIndex(Msb(i, INDEX_BITS) + tail, limit) == Some((i, tail))
  {
    hide Msb, TakeNat, Pow2;
    SmallPowers();
    TakeBack(i, INDEX_BITS, tail);
  }

  lemma PatternBack(len: nat, bits: nat, tail: seq<bool>)
    requires len < 6 && bits < Pow2(PatternLens()[len])
    ensures TakePattern(PatternField(len, bits) + tail) == Some((len, bits, tail))
  {
    hide Msb, TakeNat, Pow2, TakeIndex, PatternLens;
    var field := Msb(bits, PatternLens()[len]);
    assert PatternField(len, bits) + tail == Msb(len, INDEX_BITS) + (field + tail);
    IndexBack(len, 6, field + tail);
    TakeBack(bits, PatternLens()[len], tail);
  }

  lemma LfsrBack(poly: nat, seed: nat, tail: seq<bool>)
    requires poly < 4 && seed < Pow2(Polys()[poly].0)
    ensures TakeLfsr(Msb(poly, 2) + Msb(seed, Polys()[poly].0) + tail) == Some((Lfsr(poly, seed), tail))
  {
    hide Msb, TakeNat, Pow2, Polys;
    SmallPowers();
    var field := Msb(seed, Polys()[poly].0);
    assert Msb(poly, 2) + field + tail == Msb(poly, 2) + (field + tail);
    TakeBack(poly, 2, field + tail);
    TakeBack(seed, Polys()[poly].0, tail);
  }

  lemma BmBack(conn: seq<bool>, start: seq<bool>, tail: seq<bool>)
    requires |conn| == |start| <= BM_MAX_BITS
    ensures TakeBm(Gamma(|conn| + 1) + conn + start + tail) == Some((BmLfsr(conn, start), tail))
  {
    hide Gamma, TakeGamma, Pow2, BitLength;
    var l := |conn|;
    LengthsFit(l + 1);
    var rest := conn + start + tail;
    assert Gamma(l + 1) + conn + start + tail == Gamma(l + 1) + rest;
    GammaBack(l + 1, rest);
    assert rest[..l] == conn && rest[l..2 * l] == start && rest[2 * l..] == tail;
  }

  lemma LengthsFit(v: nat)
    requires v <= BM_MAX_BITS + 1
    ensures v < Pow2(64)
  {
    hide Pow2;
    Pow8();
    Pow2Add(8, 8);
    Pow2Add(16, 48);
    MulLe(1, Pow2(48), Pow2(16), Pow2(16));
  }

  lemma TwoStageBack(dist: nat, len: nat, bits: nat, tail: seq<bool>)
    requires 1 <= dist < Pow2(64) && len < 6 && bits < Pow2(PatternLens()[len])
    ensures TakeTwoStage(Gamma(dist) + PatternField(len, bits) + tail) == Some((TwoStage(dist, len, bits), tail))
  {
    hide Gamma, TakeGamma, Pow2, BitLength, PatternField, TakePattern, PatternLens;
    assert Gamma(dist) + PatternField(len, bits) + tail == Gamma(dist) + (PatternField(len, bits) + tail);
    GammaBack(dist, PatternField(len, bits) + tail);
    PatternBack(len, bits, tail);
  }

  lemma BodyBack(m: Mask, repr: Repr, tail: seq<bool>)
    requires Describable(m, repr)
    ensures Describable(m, Linear)
    ensures TakeBody(Family(m), BodyBits(m) + tail, repr) == Some((m, tail))
  {
    hide Msb, Gamma, TakeGamma, TakeNat, TakeIndex, TakePattern, TakeLfsr, TakeBm, TakeTwoStage, PatternField, PatternLens, Polys;
    hide Pow2, BitLength;
    match m
    case Zero => assert [] + tail == tail;
    case Pattern(len, bits) => PatternBack(len, bits, tail);
    case Stride(idx) => IndexBack(idx, 7, tail);
    case PrevBlock => assert [] + tail == tail;
    case Match(dist) => GammaBack(dist, tail);
    case AddDelta(idx) => IndexBack(idx, 7, tail);
    case Lfsr(poly, seed) => LfsrBack(poly, seed, tail);
    case BmLfsr(conn, start) => BmBack(conn, start, tail);
    case TwoStage(dist, len, bits) => TwoStageBack(dist, len, bits, tail);
  }

  /** A description reads back as the mask it describes, whatever follows. */
  lemma MaskRoundTrip(m: Mask, repr: Repr, tail: seq<bool>)
    requires Describable(m, repr)
    ensures Describable(m, Linear)
    ensures TakeMask(MaskBits(m) + tail, repr) == Some((m, tail))
  {
    hide Msb, TakeNat, TakeBody, BodyBits, Pow2;
    SmallPowers();
    BodyBack(m, repr, tail);
    assert MaskBits(m) + tail == Msb(Family(m), FAMILY_BITS) + (BodyBits(m) + tail);
    TakeBack(Family(m), FAMILY_BITS, BodyBits(m) + tail);
  }

  /** Whatever the bits, a mask that is read can be applied; only a copy of the previous
      block could look back no distance, and blocks are not empty. */
  lemma TakenIsDefined(s: seq<bool>, repr: Repr, blockBits: nat)
    requires TakeMask(s, repr).Some? && blockBits >= 1
    ensures Defined(TakeMask(s, repr).value.0)
    ensures Copies(TakeMask(s, repr).value.0) ==> Distance(TakeMask(s, repr).value.0, repr, blockBits) >= 1
  {
    hide TakeNat, TakeGamma;
  }

  // ------------------------------------------------------------ as it runs

  method WriteMask(m: Mask, w: BitWriter)
    requires w.Valid() && Describable(m, Linear)
    modifies w
    ensures w.Valid() && w.Written() == old(w.Written()) + MaskBits(m)
  {
    hide BitWriter.Valid, BitWriter.Written, Gamma, Msb, Pow2, BitLength, Polys, PatternLens;
    ghost var start := w.Written();
    w.Put(Family(m), FAMILY_BITS);
    WriteBody(m, w);
    assert (start + Msb(Family(m), FAMILY_BITS)) + BodyBits(m) == start + MaskBits(m);
  }

  method WriteBody(m: Mask, w: BitWriter)
    requires w.Valid() && Describable(m, Linear)
    modifies w
    ensures w.Valid() && w.Written() == old(w.Written()) + BodyBits(m)
  {
    hide BitWriter.Valid, BitWriter.Written, Gamma, Msb, Pow2, BitLength, Polys, PatternLens, PatternField;
    ghost var start := w.Written();
    match m
    case Pattern(len, bits) => WritePattern(len, bits, w);
    case Stride(idx) => w.Put(idx, INDEX_BITS);
    case Match(dist) => w.PutGamma(dist);
    case AddDelta(idx) => w.Put(idx, INDEX_BITS);
    case Lfsr(poly, seed) =>
      w.Put(poly, 2);
      w.Put(seed, Polys()[poly].0);
      assert start + Msb(poly, 2) + Msb(seed, Polys()[poly].0) == start + BodyBits(m);
    case BmLfsr(conn, first) =>
      LengthsFit(|conn| + 1);
      w.PutGamma(|conn| + 1);
      w.PutBits(conn);
      w.PutBits(first);
      assert start + Gamma(|conn| + 1) + conn + first == start + BodyBits(m);
    case TwoStage(dist, len, bits) =>
      w.PutGamma(dist);
      WritePattern(len, bits, w);
      assert start + Gamma(dist) + PatternField(len, bits) == start + BodyBits(m);
    case _ => assert start + [] == start;
  }

  method WritePattern(len: nat, bits: nat, w: BitWriter)
    requires w.Valid() && len < 6
    modifies w
    ensures w.Valid() && w.Written() == old(w.Written()) + PatternField(len, bits)
  {
    hide BitWriter.Valid, BitWriter.Written, Msb;
    ghost var start := w.Written();
    w.Put(len, INDEX_BITS);
    w.Put(bits, PatternLens()[len]);
    assert start + Msb(len, INDEX_BITS) + Msb(bits, PatternLens()[len]) == start + PatternField(len, bits);
  }

  ghost predicate Reads<T(!new)>(v: Option<T>, rest: seq<bool>, taken: Option<(T, seq<bool>)>) {
    if taken.None? then v.None? else v == Some(taken.value.0) && rest == taken.value.1
  }

  method ReadIndex(r: BitReader, limit: nat) returns (i: Option<nat>)
    requires r.Valid()
    modifies r
    ensures r.Valid() && Reads(i, r.Rest(), TakeIndex(old(r.Rest()), limit))
  {
    hide BitReader.Valid, BitReader.Rest, TakeNat;
    i := r.Get(INDEX_BITS);
    if i.Some? && i.value >= limit {
      i := None;
    }
  }

  method ReadPattern(r: BitReader) returns (p: Option<(nat, nat)>)
    requires r.Valid()
    modifies r
    ensures r.Valid() && (p.None? <==> TakePattern(old(r.Rest())).None?)
    ensures p.Some? ==> TakePattern(old(r.Rest())) == Some((p.value.0, p.value.1, r.Rest()))
  {
    hide BitReader.Valid, BitReader.Rest, TakeNat;
    var len := ReadIndex(r, 6);
    if len.None? {
      return None;
    }
    var bits := r.Get(PatternLens()[len.value]);
    if bits.None? {
      return None;
    }
    return Some((len.value, bits.value));
  }

  method ReadMask(r: BitReader, repr: Repr) returns (m: Option<Mask>)
    requires r.Valid()
    modifies r
    ensures r.Valid() && Reads(m, r.Rest(), TakeMask(old(r.Rest()), repr))
  {
    hide BitReader.Valid, BitReader.Rest, TakeNat, TakeBody;
    var family := r.Get(FAMILY_BITS);
    if family.None? {
      return None;
    }
    m := ReadBody(family.value, r, repr);
  }

  method ReadBody(family: nat, r: BitReader, repr: Repr) returns (m: Option<Mask>)
    requires r.Valid()
    modifies r
    ensures r.Valid() && Reads(m, r.Rest(), TakeBody(family, old(r.Rest()), repr))
  {
    hide BitReader.Valid, BitReader.Rest, TakeNat, TakeGamma, TakeIndex, TakePattern;
    m := None;
    if family == 0 {
      m := Some(Zero);
    } else if family == 1 {
      var p := ReadPattern(r);
      if p.Some? {
        m := Some(Pattern(p.value.0, p.value.1));
      }
    } else if family == 2 {
      var idx := ReadIndex(r, 7);
      if idx.Some? {
        m := Some(Stride(idx.value));
      }
    } else if family == 3 {
      m := Some(PrevBlock);
    } else if family == 4 {
      var dist := r.GetGamma();
      if dist.Some? {
        m := Some(Match(dist.value));
      }
    } else if family == 5 && repr.Linear? {
      var idx := ReadIndex(r, 7);
      if idx.Some? {
        m := Some(AddDelta(idx.value));
      }
    } else if family == 6 {
      m := ReadLfsr(r);
    } else if family == 7 {
      m := ReadBm(r);
    } else if family == 8 {
      var dist := r.GetGamma();
      if dist.Some? {
        var p := ReadPattern(r);
        if p.Some? {
          m := Some(TwoStage(dist.value, p.value.0, p.value.1));
        }
      }
    }
  }

  method ReadLfsr(r: BitReader) returns (m: Option<Mask>)
    requires r.Valid()
    modifies r
    ensures r.Valid() && Reads(m, r.Rest(), TakeLfsr(old(r.Rest())))
  {
    hide BitReader.Valid, BitReader.Rest, FromMsb;
    SmallPowers();
    var poly := r.Get(2);
    if poly.None? || poly.value >= 4 {
      return None;
    }
    var seed := r.Get(Polys()[poly.value].0);
    if seed.None? {
      return None;
    }
    return Some(Lfsr(poly.value, seed.value));
  }

  method ReadBm(r: BitReader) returns (m: Option<Mask>)
    requires r.Valid()
    modifies r
    ensures r.Valid() && Reads(m, r.Rest(), TakeBm(old(r.Rest())))
  {
    hide BitReader.Valid, BitReader.Rest, TakeGamma;
    var g := r.GetGamma();
    if g.None? || g.value - 1 > BM_MAX_BITS {
      return None;
    }
    var l := g.value - 1;
    ghost var rest := r.Rest();
    var conn := r.GetBits(l);
    if conn.None? {
      return None;
    }
    var start := r.GetBits(l);
    if start.None? {
      return None;
    }
    assert rest[..l] == conn.value && rest[l..2 * l] == start.value && rest[2 * l..] == r.Rest();
    return Some(BmLfsr(conn.value, start.value));
  }
}
