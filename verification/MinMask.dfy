/** The minimum-description mask codec: blocks of a bit stream, each a mask, a
    complement flag and a coded residual. */
module MinMask {
  import opened Arithmetic
  import opened Bytes
  import opened BitStrings
  import opened BitWords
  import opened Sequences
  import opened MsbStream
  import opened Masks
  import opened MaskCodes
  import opened Residual
  import ResidualCodec

  const HEADER_BYTES: nat := 5
  const MAX_INPUT: nat := 0x400_0000

  /** Block sizes in bits. */
  function BlockSizes(): (s: seq<nat>)
    ensures |s| == 12 && forall k :: 0 <= k < 12 ==> 255 <= s[k] <= MAX_BLOCK
  {
    [255, 511, 1023, 2047, 4095, 8191, 2048, 4096, 8192, 32768, 131072, 524288]
  }

  // ------------------------------------------------------------ the two layouts

  function PlaneBits(data: seq<byte>): (s: seq<bool>)
    ensures |s| == 8 * |data|
  {
    seq(8 * |data|, k requires 0 <= k < 8 * |data| => BitOf(data[k % |data|], k / |data|))
  }

  function StreamOf(data: seq<byte>, repr: Repr): (s: seq<bool>)
    ensures |s| == 8 * |data|
  {
    if repr.Linear? then BytesBits(data) else PlaneBits(data)
  }

  /** Planes `p` and above of byte `i`, as the number they spell. */
  function PlaneByte(s: seq<bool>, len: nat, i: nat, p: nat): (v: nat)
    requires i < len && 8 * len <= |s| && p <= 8
    ensures v < Pow2(8 - p)
    decreases 8 - p
  {
    if p == 8 then 0
    else
      PlaneIndex(len, i, p);
      (if s[p * len + i] then 1 else 0) + 2 * PlaneByte(s, len, i, p + 1)
  }

  lemma PlaneIndex(len: nat, i: nat, p: nat)
    requires i < len && p < 8
    ensures 0 <= p * len + i < 8 * len
    ensures (p * len + i) % len == i && (p * len + i) / len == p
  {
    MulLe(p, 7, len, len);
    ModUnique(p * len + i, len, p, i);
  }

  function BytesOf(s: seq<bool>, repr: Repr, len: nat): (data: seq<byte>)
    requires |s| == 8 * len
    ensures |data| == len
  {
    Pow8();
    if repr.Linear? then Packed(s)
    else seq<byte>(len, i requires 0 <= i < len => PlaneByte(s, len, i, 0))
  }

  lemma {:induction false} PlanesBack(data: seq<byte>, i: nat, p: nat)
    requires i < |data| && p <= 8
    ensures PlaneByte(PlaneBits(data), |data|, i, p) == Low(Shr(data[i], p), 8 - p)
    decreases 8 - p
  {
    if p < 8 {
      PlaneIndex(|data|, i, p);
      PlanesBack(data, i, p + 1);
      ShrNext(data[i], p);
    }
  }

  /** Either layout can be undone. */
  lemma LayoutRoundTrip(data: seq<byte>, repr: Repr)
    ensures BytesOf(StreamOf(data, repr), repr, |data|) == data
  {
    if repr.Linear? {
      PackedBytes(data);
    } else {
      forall i | 0 <= i < |data| ensures PlaneByte(PlaneBits(data), |data|, i, 0) == data[i] {
        PlanesBack(data, i, 0);
        Pow8();
        LowIsAll(data[i], 8);
      }
    }
  }

  // ------------------------------------------------------------ what a block may hold

  /** The encoder's choices for one block. */
  datatype Choice = Choice(mask: Mask, complement: bool, codec: Codec)

  function CodecId(codec: Codec): (id: nat)
    ensures id < 8
  {
    match codec
    case Raw => 0
    case Rle => 1
    case SparsePos => 2
    case RiceGaps => 3
    case Enum => 4
    case Bch => 5
    case Arith => 6
    case StaticRans => 7
  }

  function CodecOf(id: nat): Option<Codec> {
    if id == 0 then Some(Raw)
    else if id == 1 then Some(Rle)
    else if id == 2 then Some(SparsePos)
    else if id == 3 then Some(RiceGaps)
    else if id == 4 then Some(Enum)
    else if id == 5 then Some(Bch)
    else if id == 6 then Some(Arith)
    else if id == 7 then Some(StaticRans)
    else None
  }

  function BlockLength(total: nat, off: nat, blockBits: nat): (n: nat)
    requires off < total && blockBits >= 1
    ensures 1 <= n <= blockBits && off + n <= total
  {
    if blockBits < total - off then blockBits else total - off
  }

  ghost function Left(s: seq<bool>, off: nat, n: nat, ch: Choice, repr: Repr, blockBits: nat): (e: seq<bool>)
    requires off + n <= |s| && Defined(ch.mask)
    ensures |e| == n
  {
    Difference(s[off..off + n], Rendered(ch.mask, s, off, n, repr, blockBits), ch.complement)
  }

  /** Any mask that can be described, no register longer than the block, and a codec for what it leaves. */
  ghost predicate Allowed(s: seq<bool>, off: nat, n: nat, ch: Choice, repr: Repr, blockBits: nat)
    requires off + n <= |s|
  {
    && Describable(ch.mask, repr) && (ch.mask.BmLfsr? ==> |ch.mask.conn| <= n)
    && Applies(ch.codec, Left(s, off, n, ch, repr, blockBits))
  }

  ghost predicate AllAllowed(s: seq<bool>, off: nat, choices: seq<Choice>, repr: Repr, blockBits: nat)
    requires off <= |s| && blockBits >= 1
    decreases |choices|
  {
    if off == |s| then choices == []
    else
      var n := BlockLength(|s|, off, blockBits);
      choices != [] && Allowed(s, off, n, choices[0], repr, blockBits) && AllAllowed(s, off + n, choices[1..], repr, blockBits)
  }

  function RecordHead(ch: Choice): seq<bool>
    requires Describable(ch.mask, Linear)
  {
    MaskBits(ch.mask) + [ch.complement] + Msb(CodecId(ch.codec), 3)
  }

  /** The bits of the blocks from `off` on. */
  ghost predicate IsRecords(bits: seq<bool>, s: seq<bool>, off: nat, choices: seq<Choice>, repr: Repr, blockBits: nat)
    requires off <= |s| && blockBits >= 1 && AllAllowed(s, off, choices, repr, blockBits)
    decreases |choices|
  {
    if off == |s| then bits == []
    else
      var n := BlockLength(|s|, off, blockBits);
      exists res, later ::
        && Codes(choices[0].codec, Left(s, off, n, choices[0], repr, blockBits), res)
        && bits == Joined(RecordHead(choices[0]), res, later)
        && IsRecords(later, s, off + n, choices[1..], repr, blockBits)
  }

  function Joined(head: seq<bool>, res: seq<bool>, later: seq<bool>): seq<bool> {
    head + res + later
  }

  // ------------------------------------------------------------ decoding, for any bits

  datatype Head = Head(mask: Mask, complement: bool, codec: Codec, rest: seq<bool>)

  function TakeHead(bits: seq<bool>, repr: Repr): Option<Head> {
    match TakeMask(bits, repr)
    case None => None
    case Some((mask, rest)) =>
      if rest == [] then None
      else
        match TakeNat(rest[1..], 3)
        case None => None
        case Some((id, later)) =>
          match CodecOf(id)
          case None => None
          case Some(codec) => Some(Head(mask, rest[0], codec, later))
  }

  lemma HeadIsDefined(bits: seq<bool>, repr: Repr, blockBits: nat)
    requires TakeHead(bits, repr).Some? && blockBits >= 1
    ensures Defined(TakeHead(bits, repr).value.mask)
    ensures Copies(TakeHead(bits, repr).value.mask) ==> Distance(TakeHead(bits, repr).value.mask, repr, blockBits) >= 1
  {
    hide TakeMask, TakeNat, CodecOf;
    TakenIsDefined(bits, repr, blockBits);
  }

  /** The stream from what is known of it, block after block. */
  ghost function DecodedStream(bits: seq<bool>, known: seq<bool>, total: nat, repr: Repr, blockBits: nat): (s: Option<seq<bool>>)
    requires |known| <= total && blockBits >= 1
    ensures s.Some? ==> |s.value| == total
    decreases total - |known|
  {
    if |known| == total then Some(known)
    else
      var n := BlockLength(total, |known|, blockBits);
      match TakeHead(bits, repr)
      case None => None
      case Some(Head(mask, complement, codec, rest)) =>
        match Take(codec, rest, n)
        case None => None
        case Some((e, later)) =>
          HeadIsDefined(bits, repr, blockBits);
          TakenLength(codec, rest, n);
          if mask.BmLfsr? && |mask.conn| > n then None
          else DecodedStream(later, Rebuilt(mask, known, |known|, e, complement, repr, blockBits), total, repr, blockBits)
  }

  lemma HeadBack(ch: Choice, repr: Repr, tail: seq<bool>)
    requires Describable(ch.mask, repr)
    ensures Describable(ch.mask, Linear)
    ensures TakeHead(RecordHead(ch) + tail, repr) == Some(Head(ch.mask, ch.complement, ch.codec, tail))
  {
    hide MaskBits, TakeMask, Msb, TakeNat, Pow2;
    var id := Msb(CodecId(ch.codec), 3);
    var rest := [ch.complement] + (id + tail);
    MaskRoundTrip(ch.mask, repr, rest);
    assert RecordHead(ch) + tail == MaskBits(ch.mask) + rest;
    assert rest[1..] == id + tail;
    SmallPowers();
    TakeBack(CodecId(ch.codec), 3, tail);
  }

  /** One block decodes to the next stretch of the stream. */
  lemma BlockBack(s: seq<bool>, off: nat, n: nat, ch: Choice, res: seq<bool>, later: seq<bool>, tail: seq<bool>, repr: Repr, blockBits: nat)
    requires off < |s| && 1 <= blockBits <= MAX_BLOCK && n == BlockLength(|s|, off, blockBits)
    requires Allowed(s, off, n, ch, repr, blockBits) && Codes(ch.codec, Left(s, off, n, ch, repr, blockBits), res)
    ensures Describable(ch.mask, Linear)
    ensures DecodedStream(Joined(RecordHead(ch), res, later) + tail, s[..off], |s|, repr, blockBits)
         == DecodedStream(later + tail, s[..off + n], |s|, repr, blockBits)
  {
    hide RecordHead, TakeHead, Take, Codes, Rebuilt, Rendered, Applies;
    var e := Left(s, off, n, ch, repr, blockBits);
    assert Joined(RecordHead(ch), res, later) + tail == RecordHead(ch) + (res + (later + tail));
    HeadBack(ch, repr, res + (later + tail));
    ResidualRoundTrip(ch.codec, e, res, later + tail);
    CausalIsRender(ch.mask, s, off, n, 0, ch.complement, repr, blockBits);
    assert s[..off + 0] == s[..off];
  }

  /** For every choice of masks, flags and codecs the decoder rebuilds the stream. */
  lemma {:induction false} StreamBack(bits: seq<bool>, s: seq<bool>, off: nat, choices: seq<Choice>, tail: seq<bool>, repr: Repr, blockBits: nat)
    requires off <= |s| && 1 <= blockBits <= MAX_BLOCK && AllAllowed(s, off, choices, repr, blockBits)
    requires IsRecords(bits, s, off, choices, repr, blockBits)
    ensures DecodedStream(bits + tail, s[..off], |s|, repr, blockBits) == Some(s)
    decreases |choices|
  {
    hide Codes, RecordHead, Joined, Left, Applies, Rebuilt, Take, TakeHead;
    if off == |s| {
      assert s[..off] == s;
    } else {
      var n := BlockLength(|s|, off, blockBits);
      var res, later :|
        && Codes(choices[0].codec, Left(s, off, n, choices[0], repr, blockBits), res)
        && bits == Joined(RecordHead(choices[0]), res, later)
        && IsRecords(later, s, off + n, choices[1..], repr, blockBits);
      BlockBack(s, off, n, choices[0], res, later, tail, repr, blockBits);
      StreamBack(later, s, off + n, choices[1..], tail, repr, blockBits);
    }
  }

  // ------------------------------------------------------------ the payload

  function ReprBit(repr: Repr): nat {
    if repr.Linear? then 0 else 128
  }

  ghost function Decompressed(payload: seq<byte>): (r: Option<seq<byte>>)
    ensures r.Some? ==> |payload| >= HEADER_BYTES && |r.value| == GetWord(payload[..4])
  {
    if |payload| < HEADER_BYTES then None
    else
      var len, config := GetWord(payload[..4]), payload[4];
      var repr := if config / 128 == 0 then Linear else Planes;
      if config % 16 >= 12 || len > MAX_INPUT || config / 16 % 8 != 0 then None
      else
        match DecodedStream(BytesBits(payload[HEADER_BYTES..]), [], 8 * len, repr, BlockSizes()[config % 16])
        case None => None
        case Some(s) => Some(BytesOf(s, repr, len))
  }

  ghost predicate IsPayload(payload: seq<byte>, data: seq<byte>, choices: seq<Choice>, repr: Repr, blockId: nat)
    requires blockId < 12 && AllAllowed(StreamOf(data, repr), 0, choices, repr, BlockSizes()[blockId])
  {
    && |payload| >= HEADER_BYTES
    && payload[..4] == PutWord(|data|) && payload[4] == ReprBit(repr) + blockId
    && exists bits :: IsRecords(bits, StreamOf(data, repr), 0, choices, repr, BlockSizes()[blockId])
                   && bits <= BytesBits(payload[HEADER_BYTES..]) && 8 * (|payload| - HEADER_BYTES) < |bits| + 8
  }

  /** Inputs up to the decoder's limit come back; longer ones are refused or cut short. */
  lemma PayloadRoundTrip(payload: seq<byte>, data: seq<byte>, choices: seq<Choice>, repr: Repr, blockId: nat)
    requires blockId < 12 && AllAllowed(StreamOf(data, repr), 0, choices, repr, BlockSizes()[blockId])
    requires IsPayload(payload, data, choices, repr, blockId)
    ensures Decompressed(payload) == Some(data) <==> |data| <= MAX_INPUT
  {
    hide IsRecords, AllAllowed, DecodedStream, BytesBits, BytesOf, GetWord, PutWord, BlockSizes;
    if |data| <= MAX_INPUT {
      WordRoundTrip(|data|);
      ConfigBack(repr, blockId);
      BodyDecodes(payload[HEADER_BYTES..], data, choices, repr, blockId);
    }
  }

  lemma ConfigBack(repr: Repr, blockId: nat)
    requires blockId < 12
    ensures var config := ReprBit(repr) + blockId;
      config / 128 == (if repr.Linear? then 0 else 1) && config % 16 == blockId && config / 16 % 8 == 0
  {
  }

  lemma BodyDecodes(body: seq<byte>, data: seq<byte>, choices: seq<Choice>, repr: Repr, blockId: nat)
    requires blockId < 12 && AllAllowed(StreamOf(data, repr), 0, choices, repr, BlockSizes()[blockId])
    requires exists bits :: IsRecords(bits, StreamOf(data, repr), 0, choices, repr, BlockSizes()[blockId]) && bits <= BytesBits(body)
    ensures var s := DecodedStream(BytesBits(body), [], 8 * |data|, repr, BlockSizes()[blockId]);
      s.Some? && BytesOf(s.value, repr, |data|) == data
  {
    hide IsRecords, AllAllowed, DecodedStream, BytesBits, BytesOf, BlockSizes, StreamOf;
    var s, blockBits := StreamOf(data, repr), BlockSizes()[blockId];
    var bits :| IsRecords(bits, s, 0, choices, repr, blockBits) && bits <= BytesBits(body);
    var tail := BytesBits(body)[|bits|..];
    assert bits + tail == BytesBits(body);
    StreamBack(bits, s, 0, choices, tail, repr, blockBits);
    assert s[..0] == [];
    LayoutRoundTrip(data, repr);
  }

  // ------------------------------------------------------------ as it runs

  /** One block's record in a writer of its own. */
  method EncodeBlock(data: seq<byte>, s: seq<bool>, off: nat, n: nat, ch: Choice, repr: Repr, blockBits: nat)
    returns (w: BitWriter, ghost res: seq<bool>)
    requires off + n <= |s| && n <= MAX_BLOCK && blockBits >= 1 && s == StreamOf(data, repr)
    requires Allowed(s, off, n, ch, repr, blockBits)
    ensures fresh(w) && w.Valid() && Describable(ch.mask, Linear)
    ensures Codes(ch.codec, Left(s, off, n, ch, repr, blockBits), res)
    ensures w.Written() == RecordHead(ch) + res
  {
    hide BitWriter.Valid, BitWriter.Written, MaskBits, Codes, Rendered, Msb, PlaneBits, BytesBits, Applies;
    var mask := Render(ch.mask, s, data, off, n, repr, blockBits);
    var e := Difference(s[off..off + n], mask, ch.complement);
    assert e == Left(s, off, n, ch, repr, blockBits);
    w := new BitWriter();
    WriteMask(ch.mask, w);
    w.PutBit(ch.complement);
    w.Put(CodecId(ch.codec), 3);
    assert w.Written() == RecordHead(ch);
    res := ResidualCodec.Encode(ch.codec, e, w);
  }

  /** `compress_config` with the search's outcome given as one choice for each block. */
  method Compress(data: seq<byte>, repr: Repr, blockId: nat, choices: seq<Choice>) returns (payload: seq<byte>)
    requires blockId < 12 && AllAllowed(StreamOf(data, repr), 0, choices, repr, BlockSizes()[blockId])
    ensures IsPayload(payload, data, choices, repr, blockId)
  {
    hide BitWriter.Valid, BitWriter.Written, AllAllowed, IsRecords, RecordHead, Codes, Left, BlockSizes, StreamOf, BytesBits, PutWord;
    var blockBits := BlockSizes()[blockId];
    var s := StreamOf(data, repr);
    var w := new BitWriter();
    var off, c := 0, 0;
    assert choices[0..] == choices;
    assert forall later :: w.Written() + later == later;
    while off < |s|
      invariant fresh(w) && w.Valid() && 0 <= off <= |s| && 0 <= c <= |choices|
      invariant AllAllowed(s, off, choices[c..], repr, blockBits)
      invariant forall later :: IsRecords(later, s, off, choices[c..], repr, blockBits)
                            ==> IsRecords(w.Written() + later, s, 0, choices, repr, blockBits)
      decreases |s| - off
    {
      var n := BlockLength(|s|, off, blockBits);
      FirstAllowed(s, off, choices[c..], repr, blockBits);
      assert choices[c..][0] == choices[c] && choices[c..][1..] == choices[c + 1..];
      ghost var before := w.Written();
      var record, res := EncodeBlock(data, s, off, n, choices[c], repr, blockBits);
      ghost var head := RecordHead(choices[c]);
      w.Append(record);
      forall later | IsRecords(later, s, off + n, choices[c + 1..], repr, blockBits)
        ensures IsRecords(w.Written() + later, s, 0, choices, repr, blockBits)
      {
        RecordFirst(s, off, choices[c..], res, later, repr, blockBits);
        assert before + Joined(head, res, later) == w.Written() + later;
      }
      off, c := off + n, c + 1;
    }
    NoRecords(s, choices[c..], repr, blockBits);
    ghost var bits := w.Written() + [];
    var body := w.Finish();
    payload := PutWord(|data|) + [ReprBit(repr) + blockId] + body;
    assert payload[..4] == PutWord(|data|) && payload[HEADER_BYTES..] == body;
    assert IsRecords(bits, s, 0, choices, repr, blockBits) && bits <= BytesBits(payload[HEADER_BYTES..]);
  }

  lemma FirstAllowed(s: seq<bool>, off: nat, choices: seq<Choice>, repr: Repr, blockBits: nat)
    requires off < |s| && blockBits >= 1 && AllAllowed(s, off, choices, repr, blockBits)
    ensures choices != []
    ensures var n := BlockLength(|s|, off, blockBits);
      Allowed(s, off, n, choices[0], repr, blockBits) && AllAllowed(s, off + n, choices[1..], repr, blockBits)
  {
  }

  lemma RecordFirst(s: seq<bool>, off: nat, choices: seq<Choice>, res: seq<bool>, later: seq<bool>, repr: Repr, blockBits: nat)
    requires off < |s| && blockBits >= 1 && AllAllowed(s, off, choices, repr, blockBits)
    requires var n := BlockLength(|s|, off, blockBits);
      && Codes(choices[0].codec, Left(s, off, n, choices[0], repr, blockBits), res)
      && IsRecords(later, s, off + n, choices[1..], repr, blockBits)
    ensures Describable(choices[0].mask, Linear)
    ensures IsRecords(Joined(RecordHead(choices[0]), res, later), s, off, choices, repr, blockBits)
  {
    hide Codes, RecordHead, Joined, Left;
  }

  lemma NoRecords(s: seq<bool>, choices: seq<Choice>, repr: Repr, blockBits: nat)
    requires blockBits >= 1 && AllAllowed(s, |s|, choices, repr, blockBits)
    ensures IsRecords([], s, |s|, choices, repr, blockBits)
  {
  }

  method ReadHead(r: BitReader, repr: Repr) returns (h: Option<(Mask, bool, Codec)>)
    requires r.Valid()
    modifies r
    ensures r.Valid() && (h.None? <==> TakeHead(old(r.Rest()), repr).None?)
    ensures h.Some? ==> TakeHead(old(r.Rest()), repr) == Some(Head(h.value.0, h.value.1, h.value.2, r.Rest()))
  {
    hide BitReader.Valid, BitReader.Rest, TakeMask, TakeNat;
    var mask := ReadMask(r, repr);
    if mask.None? {
      return None;
    }
    ghost var rest := r.Rest();
    var complement := r.GetBit();
    if complement.None? {
      return None;
    }
    assert rest[1..] == r.Rest() && rest[0] == complement.value;
    var id := r.Get(3);
    if id.None? {
      return None;
    }
    var codec := CodecOf(id.value);
    if codec.None? {
      return None;
    }
    return Some((mask.value, complement.value, codec.value));
  }

  /** The stream is rebuilt in place, block after block; any damage is refused. */
  method DecodeBlocks(r: BitReader, s: array<bool>, repr: Repr, blockBits: nat) returns (ok: bool)
    requires r.Valid() && 1 <= blockBits <= MAX_BLOCK
    modifies r, s
    ensures r.Valid()
    ensures ok <==> DecodedStream(old(r.Rest()), [], s.Length, repr, blockBits).Some?
    ensures ok ==> DecodedStream(old(r.Rest()), [], s.Length, repr, blockBits) == Some(s[..])
  {
    hide BitReader.Valid, BitReader.Rest, TakeHead, Take, Rebuilt;
    ghost var goal := DecodedStream(r.Rest(), [], s.Length, repr, blockBits);
    var off := 0;
    while off < s.Length
      invariant r.Valid() && 0 <= off <= s.Length
      invariant DecodedStream(r.Rest(), s[..off], s.Length, repr, blockBits) == goal
    {
      var n := BlockLength(s.Length, off, blockBits);
      ghost var bits := r.Rest();
      var head := ReadHead(r, repr);
      if head.None? {
        return false;
      }
      HeadIsDefined(bits, repr, blockBits);
      var (mask, complement, codec) := head.value;
      ghost var rest := r.Rest();
      var e := ResidualCodec.Decode(codec, n, r);
      if e.None? {
        return false;
      }
      TakenLength(codec, rest, n);
      if mask.BmLfsr? && |mask.conn| > n {
        return false;
      }
      ghost var known := s[..off];
      var rebuilt := Reconstruct(mask, s, off, e.value, complement, repr, blockBits);
      assert s[..off + n] == Rebuilt(mask, known, off, e.value, complement, repr, blockBits);
      off := off + n;
    }
    assert s[..off] == s[..];
    return true;
  }

  method Decompress(payload: seq<byte>) returns (data: Option<seq<byte>>)
    ensures data == Decompressed(payload)
  {
    hide DecodedStream, BytesOf, BlockSizes, GetWord, BitReader.Valid, BitReader.Rest;
    if |payload| < HEADER_BYTES {
      return None;
    }
    var len, config: nat := GetWord(payload[..4]), payload[4];
    var repr := if config / 128 == 0 then Linear else Planes;
    if config % 16 >= 12 || len > MAX_INPUT || config / 16 % 8 != 0 {
      return None;
    }
    var s := new bool[8 * len](i => false);
    var r := new BitReader(payload[HEADER_BYTES..]);
    var ok := DecodeBlocks(r, s, repr, BlockSizes()[config % 16]);
    if !ok {
      return None;
    }
    return Some(BytesOf(s[..], repr, len));
  }

  /** Compressed and decompressed: the input, for every layout, block size and choice of
      mask, flag and codec, exactly when the decoder's limit admits it. */
  method RoundTrip(data: seq<byte>, repr: Repr, blockId: nat, choices: seq<Choice>) returns (back: Option<seq<byte>>)
    requires blockId < 12 && AllAllowed(StreamOf(data, repr), 0, choices, repr, BlockSizes()[blockId])
    ensures back == Some(data) <==> |data| <= MAX_INPUT
  {
    hide AllAllowed, IsPayload, Decompressed;
    var payload := Compress(data, repr, blockId, choices);
    PayloadRoundTrip(payload, data, choices, repr, blockId);
    back := Decompress(payload);
  }
}
