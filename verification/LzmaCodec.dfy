/** The LZMA-style codec as it runs: loops over tokens, bytes and bits, driving
    the range coder.  Each method is tied to the symbol-level functions of Lzma. */
module LzmaCodec {
  import opened Bytes
  import opened BitStrings
  import opened AdaptiveModel
  import opened Lzma
  import opened Tokens

  type Encoder = AdaptiveEncoder<Ctx>
  type Decoder = AdaptiveDecoder<Ctx>

  // ------------------------------------------------------------ shared helpers

  /** Shift the queue down to `idx` and put entry `idx` in front, in place. */
  method MoveRepToFront(reps: Reps, idx: nat) returns (r: Reps)
    requires idx < 4
    ensures r == ToFront(reps, idx)
  {
    var value := reps[idx];
    r := reps;
    var i := idx;
    while i >= 1
      invariant 0 <= i <= idx
      invariant r == reps[..i + 1] + reps[i..idx] + reps[idx + 1..]
    {
      r := r[i := r[i - 1]];
      i := i - 1;
    }
    r := r[0 := value];
  }

  /** Copies byte by byte from a fixed start, so that a length above the offset
      repeats the bytes just written. */
  method CopyInto(output: seq<byte>, offset: nat, length: nat) returns (r: Result<seq<byte>>)
    ensures offset == 0 || offset > |output| ==> r == Err(InvalidMatch(offset, |output|))
    ensures 1 <= offset <= |output| ==> r == Ok(CopyMatch(output, offset, length))
  {
    if offset == 0 || offset > |output| {
      return Err(InvalidMatch(offset, |output|));
    }
    var start := |output| - offset;
    var out := output;
    for i := 0 to length
      invariant |out| == |output| + i
      invariant CopyMatch(out, offset, length - i) == CopyMatch(output, offset, length)
    {
      out := out + [out[start + i]];
    }
    r := Ok(out);
  }

  // ------------------------------------------------------------ encoder

  method EncodeDistance(enc: Encoder, dist: nat, len: nat)
    requires enc.Valid() && 1 <= dist <= U32_MAX
    modifies enc, enc.enc
    ensures enc.Valid() && enc.syms == old(enc.syms) + DistSyms(dist, len)
  {
    hide TreeSyms, ReverseSyms, PlainSyms, DistSlot, SpecOffset, SlotBase, Pow2, AdaptiveEncoder.Valid;
    var dist0 := dist - 1;
    var slot := DistSlot(dist0);
    SlotBaseBelow(dist0);
    enc.PutTree(SlotNode(LenState(len)), slot, 6);
    if slot >= START_POS_MODEL {
      var bits := SlotBits(slot);
      var extra := dist0 - SlotBase(slot);
      if slot < END_POS_MODEL {
        enc.PutReverse(SpecNode(SpecOffset(slot)), extra, bits);
      } else {
        enc.PutDirect(extra / 16, bits - ALIGN_BITS);
        enc.PutReverse(AlignNode(), extra % 16, ALIGN_BITS);
      }
    }
  }

  lemma SlotBaseBelow(dist0: nat)
    requires dist0 < U32_MAX
    ensures SlotBase(DistSlot(dist0)) <= dist0
  {
    Pow2Of32();
    SlotSpans(dist0, 32);
  }

  method EncodeLength(enc: Encoder, rep: bool, len: nat, ps: nat)
    requires enc.Valid()
    modifies enc, enc.enc
    ensures enc.Valid() && enc.syms == old(enc.syms) + LenSyms(rep, len, ps)
  {
    hide TreeSyms, AdaptiveEncoder.Valid;
    ghost var before := enc.syms;
    var value := if len < 2 then 0 else len - 2;
    if value < 8 {
      enc.PutBit(LenChoice(rep, ps), false);
      enc.PutTree(LowNode(rep, ps), value, 3);
      return;
    }
    enc.PutBit(LenChoice(rep, ps), true);
    value := value - 8;
    if value < 8 {
      enc.PutBit(LenChoice2(rep, ps), false);
      enc.PutTree(MidNode(rep, ps), value, 3);
      Joined(before, [Coded(LenChoice(rep, ps), true)], [Coded(LenChoice2(rep, ps), false)], TreeSyms(MidNode(rep, ps), 1, value, 3));
    } else {
      var w := if value - 8 < 255 then value - 8 else 255;
      enc.PutBit(LenChoice2(rep, ps), true);
      enc.PutTree(HighNode(rep), w, 8);
      Joined(before, [Coded(LenChoice(rep, ps), true)], [Coded(LenChoice2(rep, ps), true)], TreeSyms(HighNode(rep), 1, w, 8));
    }
  }

  lemma Joined<T>(a: seq<T>, b: seq<T>, c: seq<T>, d: seq<T>)
    ensures a + b + c + d == a + (b + (c + d))
  {
  }

  method EncodeMatchedLiteral(enc: Encoder, ctx: nat, b: byte, guide: byte)
    requires enc.Valid()
    modifies enc, enc.enc
    ensures enc.Valid() && enc.syms == old(enc.syms) + MatchedSyms(ctx, b, guide, true, 1, 8)
  {
    hide AdaptiveEncoder.Valid, BitOf, MatchedSyms, MatchedIndex;
    var sym: nat := 1;
    var active := true;
    var i := 8;
    ghost var goal := enc.syms + MatchedSyms(ctx, b, guide, true, 1, 8);
    while i > 0
      invariant 0 <= i <= 8 && enc.Valid()
      invariant enc.syms + MatchedSyms(ctx, b, guide, active, sym, i) == goal
    {
      MatchedStep(enc.syms, ctx, b, guide, active, sym, i);
      i := i - 1;
      var bit, g := BitOf(b, i), BitOf(guide, i);
      enc.PutBit(Lit(ctx, MatchedIndex(active, g, sym)), bit);
      sym := 2 * sym + if bit then 1 else 0;
      if active && g != bit {
        active := false;
      }
    }
    MatchedNone(enc.syms, ctx, b, guide, active, sym);
  }

  lemma MatchedNone(syms: Syms, ctx: nat, b: byte, guide: byte, active: bool, sym: nat)
    ensures syms + MatchedSyms(ctx, b, guide, active, sym, 0) == syms
  {
  }

  lemma MatchedStep(syms: Syms, ctx: nat, b: nat, guide: nat, active: bool, sym: nat, count: nat)
    requires count > 0
    ensures var bit, g := BitOf(b, count - 1), BitOf(guide, count - 1);
      syms + MatchedSyms(ctx, b, guide, active, sym, count)
      == syms + [Coded(Lit(ctx, MatchedIndex(active, g, sym)), bit)]
         + MatchedSyms(ctx, b, guide, active && g == bit, 2 * sym + if bit then 1 else 0, count - 1)
  {
    hide BitOf, MatchedIndex;
    var bit, g := BitOf(b, count - 1), BitOf(guide, count - 1);
    var head := [Coded(Lit(ctx, MatchedIndex(active, g, sym)), bit)];
    var rest := MatchedSyms(ctx, b, guide, active && g == bit, 2 * sym + if bit then 1 else 0, count - 1);
    assert MatchedSyms(ctx, b, guide, active, sym, count) == head + rest;
  }

  method EncodeRepIndex(enc: Encoder, s: StateId, ps: nat, idx: nat, length: nat)
    requires enc.Valid() && idx < 4
    modifies enc, enc.enc
    ensures enc.Valid() && enc.syms == old(enc.syms) + RepSyms(s, ps, idx, length)
  {
    hide LenSyms, AdaptiveEncoder.Valid;
    if idx == 0 {
      enc.PutBit(IsRep0(s), false);
      if length == 1 {
        enc.PutBit(IsRep0Long(s, ps), false);
      } else {
        enc.PutBit(IsRep0Long(s, ps), true);
        EncodeLength(enc, true, length, ps);
      }
    } else {
      enc.PutBit(IsRep0(s), true);
      if idx == 1 {
        enc.PutBit(IsRep1(s), false);
      } else {
        enc.PutBit(IsRep1(s), true);
        enc.PutBit(IsRep2(s), idx != 2);
      }
      EncodeLength(enc, true, length, ps);
    }
  }

  /** The body of the encoder's token loop: bits out, state and queue forward. */
  method EncodeToken(enc: Encoder, data: seq<byte>, pos: nat, state: StateId, reps: Reps, t: Token)
    returns (pos': nat, state': StateId, reps': Reps)
    requires enc.Valid() && pos <= |data|
    requires Encodable(Lz(data[..pos], state, reps), t)
    requires var z' := Step(Lz(data[..pos], state, reps), t); |z'.out| <= |data| && z'.out == data[..|z'.out|]
    modifies enc, enc.enc
    ensures enc.Valid() && enc.syms == old(enc.syms) + TokenSyms(Lz(data[..pos], state, reps), t)
    ensures pos' <= |data| && Lz(data[..pos'], state', reps') == Step(Lz(data[..pos], state, reps), t)
  {
    hide LenSyms, DistSyms, RepSyms, MatchedSyms, TreeSyms, CopyMatch, AdaptiveEncoder.Valid;
    var ps := pos % 4;
    ghost var z := Lz(data[..pos], state, reps);
    match t
    case Literal(b) =>
      enc.PutBit(IsMatch(state, ps), false);
      var prev := if pos == 0 then 0 else data[pos - 1];
      var ctx := LitContext(prev);
      assert prev == LastByte(z.out);
      if state < 7 || reps[0] > pos || reps[0] == 0 {
        enc.PutTree(LitNode(ctx), b, 8);
      } else {
        EncodeMatchedLiteral(enc, ctx, b, data[pos - reps[0]]);
      }
      pos', state', reps' := pos + 1, AfterLiteral(state), reps;
    case Match(offset, length) =>
      var idx := RepIndex(reps, offset);
      if idx < 4 {
        enc.PutBit(IsMatch(state, ps), true);
        enc.PutBit(IsRep(state), true);
        EncodeRepIndex(enc, state, ps, idx, length);
        if idx == 0 && length == 1 {
          pos', state', reps' := pos + 1, AfterShortRep(state), reps;
        } else {
          reps' := MoveRepToFront(reps, idx);
          pos', state' := pos + length, AfterRep(state);
        }
      } else {
        enc.PutBit(IsMatch(state, ps), true);
        enc.PutBit(IsRep(state), false);
        EncodeLength(enc, false, length, ps);
        EncodeDistance(enc, offset, length);
        pos', state', reps' := pos + length, AfterMatch(state), Pushed(reps, offset);
      }
  }

  /** `encode_tokens`. The program indexes `data` by token lengths and offsets,
      so it needs a token list that spells `data`. */
  method EncodeTokens(data: seq<byte>, tokens: seq<Token>) returns (payload: seq<byte>)
    requires Spells(tokens, data)
    ensures IsEncoding(payload, data, tokens)
  {
    hide TokenSyms, Step, AdaptiveEncoder.Valid;
    payload := PutWord(|data|);
    if data == [] {
      return;
    }
    var enc := new AdaptiveEncoder<Ctx>();
    var pos: nat, state: StateId, reps: Reps := 0, 0, [1, 2, 3, 4];
    assert data[..0] == [];
    for k := 0 to |tokens|
      invariant fresh(enc) && fresh(enc.enc) && enc.Valid() && pos <= |data|
      invariant AllEncodable(Lz(data[..pos], state, reps), tokens[k..])
      invariant StepAll(Lz(data[..pos], state, reps), tokens[k..]).out == data
      invariant enc.syms + StreamSyms(Lz(data[..pos], state, reps), tokens[k..]) == StreamSyms(LZ_START, tokens)
    {
      ghost var z, rest := Lz(data[..pos], state, reps), tokens[k..];
      assert rest[0] == tokens[k] && rest[1..] == tokens[k + 1..];
      ghost var z' := Step(z, rest[0]);
      assert StepAll(z', rest[1..]).out == data;
      assert data[..|z'.out|] == z'.out;
      ghost var before := enc.syms;
      pos, state, reps := EncodeToken(enc, data, pos, state, reps, tokens[k]);
      assert before + (TokenSyms(z, rest[0]) + StreamSyms(z', rest[1..])) == enc.syms + StreamSyms(z', rest[1..]);
    }
    var stream := enc.Finish();
    payload := payload + stream;
    assert payload[..4] == PutWord(|data|) && payload[4..] == stream;
    assert enc.syms + StreamSyms(Lz(data[..pos], state, reps), []) == enc.syms;
  }

  // ------------------------------------------------------------ decoder

  method DecodeDistance(dec: Decoder, len: nat) returns (dist: nat)
    requires dec.Valid()
    modifies dec, dec.dec
    ensures dec.Valid() && (dist, dec.View()) == GetDist(old(dec.View()), len)
  {
    hide GetTree, GetReverse, GetPlain, SlotBase, SpecOffset;
    TreeEnds(dec.View(), SlotNode(LenState(len)), 1, 6);
    var node := dec.TakeTree(SlotNode(LenState(len)), 6);
    var slot := if node < 64 then 0 else node - 64;
    if slot < START_POS_MODEL {
      return slot + 1;
    }
    var bits := SlotBits(slot);
    var extra;
    if slot < END_POS_MODEL {
      extra := dec.TakeReverse(SpecNode(SpecOffset(slot)), bits);
    } else {
      var high := dec.TakeDirect(bits - ALIGN_BITS);
      var low := dec.TakeReverse(AlignNode(), ALIGN_BITS);
      extra := 16 * high + low;
    }
    dist := SatAdd(SatAdd(SlotBase(slot), extra), 1);
  }

  method DecodeLength(dec: Decoder, rep: bool, ps: nat) returns (len: nat)
    requires dec.Valid()
    modifies dec, dec.dec
    ensures dec.Valid() && (len, dec.View()) == GetLen(old(dec.View()), rep, ps)
  {
    hide GetTree;
    var c := dec.TakeBit(LenChoice(rep, ps));
    if !c {
      var node := dec.TakeTree(LowNode(rep, ps), 3);
      return 2 + NodeValue(node, 8);
    }
    c := dec.TakeBit(LenChoice2(rep, ps));
    if !c {
      var node := dec.TakeTree(MidNode(rep, ps), 3);
      return 10 + NodeValue(node, 8);
    }
    var node := dec.TakeTree(HighNode(rep), 8);
    len := 18 + NodeValue(node, 256);
  }

  method DecodeMatchedLiteral(dec: Decoder, ctx: nat, guide: byte) returns (sym: nat)
    requires dec.Valid()
    modifies dec, dec.dec
    ensures dec.Valid() && (sym, dec.View()) == GetMatched(old(dec.View()), ctx, guide, true, 1, 8)
  {
    sym := 1;
    var active := true;
    var i := 8;
    ghost var goal := GetMatched(dec.View(), ctx, guide, true, 1, 8);
    while i > 0
      invariant 0 <= i <= 8
      invariant dec.Valid() && GetMatched(dec.View(), ctx, guide, active, sym, i) == goal
    {
      i := i - 1;
      var g := BitOf(guide, i);
      var bit := dec.TakeBit(Lit(ctx, MatchedIndex(active, g, sym)));
      sym := 2 * sym + if bit then 1 else 0;
      if active && g != bit {
        active := false;
      }
    }
  }

  method DecodeLiteral(dec: Decoder, z: Lz) returns (b: byte)
    requires dec.Valid()
    modifies dec, dec.dec
    ensures dec.Valid() && (b, dec.View()) == GetLiteral(old(dec.View()), z)
  {
    hide GetTree, GetMatched;
    var prev := if z.out == [] then 0 else z.out[|z.out| - 1];
    var ctx := LitContext(prev);
    var node;
    if z.state < 7 || z.reps[0] > |z.out| || z.reps[0] == 0 {
      node := dec.TakeTree(LitNode(ctx), 8);
    } else {
      node := DecodeMatchedLiteral(dec, ctx, z.out[|z.out| - z.reps[0]]);
    }
    b := NodeValue(node, 256) % 256;
  }

  /** `r` and the decoder's state are what GetToken gives. */
  ghost predicate Matches(r: Result<Lz>, d: Dec<Ctx, State<Ctx>>, spec: Result<(Lz, Dec<Ctx, State<Ctx>>)>) {
    match r
    case Ok(z) => spec == Ok((z, d))
    case Err(e) => spec == Err(e)
  }

  method DecodeRep(dec: Decoder, z: Lz) returns (r: Result<Lz>)
    requires dec.Valid()
    modifies dec, dec.dec
    ensures dec.Valid() && Matches(r, dec.View(), GetRep(old(dec.View()), z))
  {
    hide GetLen, CopyMatch;
    var s, ps := z.state, |z.out| % 4;
    var rep0 := dec.TakeBit(IsRep0(s));
    var idx := 0;
    if !rep0 {
      var long := dec.TakeBit(IsRep0Long(s, ps));
      if !long {
        var out := CopyInto(z.out, z.reps[0], 1);
        return if out.Err? then Err(out.error) else Ok(Lz(out.value, AfterShortRep(s), z.reps));
      }
    } else {
      var rep1 := dec.TakeBit(IsRep1(s));
      if !rep1 {
        idx := 1;
      } else {
        var rep2 := dec.TakeBit(IsRep2(s));
        idx := if rep2 then 3 else 2;
      }
    }
    var reps := MoveRepToFront(z.reps, idx);
    var len := DecodeLength(dec, true, ps);
    var out := CopyInto(z.out, z.reps[idx], len);
    r := if out.Err? then Err(out.error) else Ok(Lz(out.value, AfterRep(s), reps));
  }

  method DecodeToken(dec: Decoder, z: Lz) returns (r: Result<Lz>)
    requires dec.Valid()
    modifies dec, dec.dec
    ensures dec.Valid() && Matches(r, dec.View(), GetToken(old(dec.View()), z))
  {
    hide GetLen, GetDist, GetRep, GetLiteral, CopyMatch;
    var s, ps := z.state, |z.out| % 4;
    var isMatch := dec.TakeBit(IsMatch(s, ps));
    if !isMatch {
      var b := DecodeLiteral(dec, z);
      return Ok(Lz(z.out + [b], AfterLiteral(s), z.reps));
    }
    var isRep := dec.TakeBit(IsRep(s));
    if isRep {
      r := DecodeRep(dec, z);
      return;
    }
    var len := DecodeLength(dec, false, ps);
    var dist := DecodeDistance(dec, len);
    var out := CopyInto(z.out, dist, len);
    r := if out.Err? then Err(out.error) else Ok(Lz(out.value, AfterMatch(s), Pushed(z.reps, dist)));
  }

  /** `decode_block`, on any payload. */
  method DecodeBlock(payload: seq<byte>) returns (r: Result<seq<byte>>)
    ensures r == DecodeSpec(payload)
  {
    hide GetToken;
    if |payload| < 4 {
      return Err(PayloadTooShort);
    }
    var total := GetWord(payload[..4]);
    if total == 0 {
      return Ok([]);
    }
    var stream := payload[4..];
    if |stream| < 5 {
      return Err(StreamTooShort);
    }
    var dec := new AdaptiveDecoder<Ctx>(stream);
    var z := LZ_START;
    while |z.out| < total
      invariant fresh(dec) && fresh(dec.dec) && dec.Valid()
      invariant GetAll(dec.View(), z, total) == DecodeSpec(payload)
      decreases total - |z.out|
    {
      TokenGrows(dec.View(), z);
      var t := DecodeToken(dec, z);
      if t.Err? {
        return Err(t.error);
      }
      z := t.value;
    }
    r := Ok(z.out[..total]);
  }

  /** Compress and decompress: the bytes come back for every parse of them. */
  method RoundTrip(data: seq<byte>, tokens: seq<Token>) returns (r: Result<seq<byte>>)
    requires |data| < WORD && Spells(tokens, data)
    ensures r == Ok(data)
  {
    var payload := EncodeTokens(data, tokens);
    LzmaRoundTrip(payload, data, tokens);
    r := DecodeBlock(payload);
  }
}
