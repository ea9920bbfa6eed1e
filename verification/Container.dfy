/** The adaptive container: each block under a codec of its own, with lengths, checksums
    and a digest of the whole, and the checks a reader makes before and after decoding. */
module Container {
  import opened Bytes
  import opened Sequences
  import Tokens
  import Lz77
  import Lzma
  import LzmaCodec
  import BwtCodec
  import PpmCodec
  import BcjFilter
  import HuffmanContainer
  import Delta = DeltaAns
  import Rle = RleHuffman
  import Stride = StrideCm
  import BlockCodecs

  const BLOCK_SIZE: nat := 0x40_0000
  const FILE_HEADER: nat := 16
  const BLOCK_HEADER: nat := 14
  const DIGEST: nat := 32

  type Crc = v: nat | v < 0x1_0000_0000
  type Hash = s: seq<byte> | |s| == 32
    witness [0, 0, 0, 0, 0, 0, 0, 0, 0, 0, 0, 0, 0, 0, 0, 0, 0, 0, 0, 0, 0, 0, 0, 0, 0, 0, 0, 0, 0, 0, 0, 0]

  datatype CodecId = Lz77Huffman | LzmaStyle | DeltaAns | RleHuffman | Passthrough | BwtRans | Ppm | StrideCm

  function IdOf(c: CodecId): (id: nat)
    ensures id < 8
  {
    match c
    case Lz77Huffman => 0
    case LzmaStyle => 1
    case DeltaAns => 2
    case RleHuffman => 3
    case Passthrough => 4
    case BwtRans => 5
    case Ppm => 6
    case StrideCm => 7
  }

  function CodecOf(id: nat): Option<CodecId> {
    if id == 0 then Some(Lz77Huffman)
    else if id == 1 then Some(LzmaStyle)
    else if id == 2 then Some(DeltaAns)
    else if id == 3 then Some(RleHuffman)
    else if id == 4 then Some(Passthrough)
    else if id == 5 then Some(BwtRans)
    else if id == 6 then Some(Ppm)
    else if id == 7 then Some(StrideCm)
    else None
  }

  /** How the delta codec may difference a block. */
  type Kind = k: nat | k <= 4

  /** What stands outside this model: checksum and digest, the prices the LZMA parse learns from
      the parse before it, the stride codec's mixing model and the shape it detects, the difference with the least entropy, and the tables of delta
      payloads from before the order of ties was settled. */
  datatype Outside = Outside(
    prices: BlockCodecs.Pricing,
    mix: Stride.Mixing,
    shape: seq<byte> -> Stride.Shape,
    kind: seq<byte> -> Kind,
    unpinned: seq<nat> -> Delta.Freqs,
    crc: seq<byte> -> Crc,
    hash: seq<byte> -> Hash)

  datatype Error =
    | BadMagic
    | Truncated
    | TrailingBytes
    | UnknownCodec(id: nat)
    | Undecodable(codec: CodecId)
    | LengthMismatch(codec: CodecId)
    | BadLayout
    | OutputLimit(declared: nat, limit: nat)
    | SizeMismatch(expected: nat, got: nat)
    | ChecksumMismatch
    | DigestMismatch

  datatype Result<+T> = Ok(value: T) | Err(error: Error)

  // ------------------------------------------------------------ one block's payload

  /** What a codec may have written for the data. */
  ghost predicate IsCoded(o: Outside, c: CodecId, data: seq<byte>, coded: seq<byte>) {
    match c
    case Lz77Huffman => BlockCodecs.IsBaseline(data, coded)
    case LzmaStyle => BlockCodecs.IsLzma(o.prices, data, coded)
    case Passthrough => coded == data
    case BwtRans => BwtCodec.IsPayload(data, coded)
    case Ppm => PpmCodec.IsPayload(data, coded)
    case DeltaAns => coded == Delta.Encoded(data, o.kind(data))
    case RleHuffman => |data| < WORD && coded == Rle.Encoded(data)
    case StrideCm => |data| <= Stride.MAX_LEN && coded == Stride.Encoded(o.mix, data, o.shape(data))
  }

  /** Tokens declared by a run of blocks, each whole within the payload. */
  function TokenSum(s: seq<byte>, pos: nat, blocks: nat, sum: nat): Option<nat>
    decreases blocks, pos
  {
    if blocks == 0 then Some(sum)
    else
      var count, length := WordFrom(s, pos), WordFrom(s, pos + 4);
      if length.None? || pos + 8 + length.value > |s| then None
      else
        assert count.Some?;
        TokenSum(s, pos + 8 + length.value, blocks - 1, sum + count.value)
  }

  const LANE_HEADER: nat := 1032
  const LANE_COUNTS: nat := 1024

  /** The delta codec's lanes from `lane` on: each declares its share of the bytes, and its
      coded bytes lie within the payload; `None` where the payload ends too early. */
  function LanesAgree(s: seq<byte>, pos: nat, lane: nat, lanes: nat, expected: nat, ok: bool): Option<bool>
    requires lane <= lanes
    decreases lanes - lane
  {
    if lane == lanes then Some(ok)
    else
      var symbols, coded := WordFrom(s, pos), WordFrom(s, pos + 4 + LANE_COUNTS);
      if coded.None? then None
      else
        assert symbols.Some?;
        var end := pos + LANE_HEADER + if symbols.value > 0 then coded.value else 0;
        if symbols.value > 0 && end > |s| then None
        else
          LanesAgree(s, end, lane + 1, lanes, expected, ok && symbols.value == (expected + lanes - 1 - lane) / lanes)
  }

  function Verdict(c: CodecId, agree: Option<bool>): Option<Error> {
    if agree.None? then Some(Truncated) else if agree.value then None else Some(LengthMismatch(c))
  }

  /** Whether the word at `pos` is `expected`. */
  function Declares(s: seq<byte>, pos: nat, expected: nat): Option<bool> {
    var w := WordFrom(s, pos);
    if w.None? then None else Some(w.value == expected)
  }

  /** `check_declared_lengths`: what the payload declares, against the container's length. */
  function LengthFault(c: CodecId, s: seq<byte>, expected: nat): Option<Error> {
    match c
    case Passthrough => Verdict(c, Some(|s| == expected))
    case LzmaStyle => Verdict(c, Declares(s, 0, expected))
    case Ppm => Verdict(c, Declares(s, 0, expected))
    case BwtRans => Verdict(c, Declares(s, 0, expected))
    case StrideCm => Verdict(c, Declares(s, 0, expected))
    case RleHuffman =>
      var declared := Declares(s, 5, expected);
      if declared == Some(true) && |s| > 9 && s[9] == 1 then
        var runs := WordFrom(s, 10);
        Verdict(c, if runs.None? then None else Some(runs.value <= expected))
      else Verdict(c, declared)
    case DeltaAns =>
      if |s| < 2 then Some(Truncated)
      else
        var declared := Declares(s, 2, expected);
        if declared.None? then Some(Truncated)
        else Verdict(c, LanesAgree(s, 6, 0, s[1], expected, declared.value && s[1] > 0))
    case Lz77Huffman =>
      if |s| < 8 then Some(Truncated)
      else
        var sum := TokenSum(s, 8, GetWord(s[4..8]), 0);
        Verdict(c, if sum.None? then None else Some(GetWord(s[0..4]) <= expected && sum.value == GetWord(s[0..4])))
  }

  ghost function CodecDecoded(o: Outside, c: CodecId, s: seq<byte>, expected: nat): Option<seq<byte>> {
    match c
    case Lz77Huffman => BlockCodecs.BaselineDecoded(s, expected)
    case LzmaStyle => if Lzma.DecodeSpec(s).Ok? then Some(Lzma.DecodeSpec(s).value) else None
    case Passthrough => Some(s)
    case BwtRans => Some(BwtCodec.Decompressed(s))
    case Ppm => PpmCodec.Decompressed(s)
    case DeltaAns => Delta.Decoded(o.unpinned, s)
    case RleHuffman => Rle.Decoded(s)
    case StrideCm => Stride.Decoded(o.mix, s)
  }

  /** Every codec's payload decodes to the data, and passes the length checks unless it is the
      delta codec's for no data, which has no lanes for the check to find. */
  lemma CodecRoundTrip(o: Outside, c: CodecId, data: seq<byte>, coded: seq<byte>)
    requires IsCoded(o, c, data, coded) && |data| <= BLOCK_SIZE
    ensures LengthFault(c, coded, |data|).None? <==> (c.DeltaAns? ==> data != [])
    ensures CodecDecoded(o, c, coded, |data|) == Some(data)
  {
    hide Delta.Encoded, Delta.Decoded, Rle.Encoded, Rle.Decoded, Stride.Encoded, Stride.Decoded, LanesAgree;
    hide BlockCodecs.IsBaseline, BlockCodecs.IsLzma, BwtCodec.IsPayload, PpmCodec.IsPayload, TokenSum, PutWord, GetWord;
    hide BlockCodecs.BaselineDecoded, Lzma.DecodeSpec, BwtCodec.Decompressed, PpmCodec.Decompressed;
    match c
    case Lz77Huffman =>
      BaselineLengths(data, coded);
      BlockCodecs.BaselineRoundTrip(data, coded, |data|);
    case LzmaStyle =>
      LzmaLength(o, data, coded);
      BlockCodecs.LzmaBlockRoundTrip(o.prices, data, coded);
    case Passthrough =>
    case BwtRans =>
      BwtLength(data, coded);
      BwtCodec.ContainerRoundTrip(data, coded);
    case Ppm =>
      PpmLength(data, coded);
      PpmCodec.PpmRoundTrip(data, coded);
    case DeltaAns =>
      DeltaLengths(data, o.kind(data));
      Delta.DeltaRoundTrip(o.unpinned, data, o.kind(data));
    case RleHuffman =>
      RleLengths(data, coded);
      Rle.RleRoundTrip(data);
    case StrideCm =>
      Stride.StrideRoundTrip(o.mix, data, o.shape(data));
      DeclaresLength(data, coded);
  }

  lemma RleLengths(data: seq<byte>, coded: seq<byte>)
    requires |data| <= BLOCK_SIZE && coded == Rle.Encoded(data)
    ensures LengthFault(RleHuffman, coded, |data|).None?
  {
    hide Rle.Encoded, Rle.Decoded, GetWord;
    Rle.RleRoundTrip(data);
  }

  /** The lanes from the `k`th on declare their shares. */
  lemma {:induction false} LanesDeclared(s: seq<byte>, pos: nat, r: seq<byte>, k: nat)
    requires |r| <= BLOCK_SIZE && k <= Delta.LANES && pos <= |s|
    requires Delta.LanesBytes(Delta.AllLanes(r)[k..]) <= s[pos..]
    ensures LanesAgree(s, pos, k, Delta.LANES, |r|, true) == Some(true)
    decreases Delta.LANES - k
  {
    hide Delta.LaneBytes, WordFrom, Delta.LaneCode, Delta.AllLanes, Delta.CountsAt, LanesAgree;
    var lanes := Delta.AllLanes(r);
    if k == Delta.LANES {
      AllAgree(s, pos, Delta.LANES, |r|);
    } else {
      var later := lanes[k + 1..];
      Delta.LanesSmall(r);
      Delta.FirstLane(lanes[k..]);
      assert lanes[k..][0] == lanes[k] && lanes[k..][1..] == later;
      Delta.PrefixSplit(Delta.LaneBytes(lanes[k]), Delta.LanesBytes(later), s, pos);
      Delta.LaneAt(s, pos, lanes[k]);
      Delta.EmptyCode(lanes[k]);
      LanesDeclared(s, pos + LANE_HEADER + |Delta.LaneCode(lanes[k])|, r, k + 1);
      NextAgrees(s, pos, k, |r|, |lanes[k]|, |Delta.LaneCode(lanes[k])|);
    }
  }

  lemma AllAgree(s: seq<byte>, pos: nat, lanes: nat, expected: nat)
    ensures LanesAgree(s, pos, lanes, lanes, expected, true) == Some(true)
  {
  }

  lemma NextAgrees(s: seq<byte>, pos: nat, k: nat, expected: nat, symbols: nat, coded: nat)
    requires k < Delta.LANES && WordFrom(s, pos) == Some(symbols) && WordFrom(s, pos + 4 + LANE_COUNTS) == Some(coded)
    requires symbols == Delta.Share(expected, Delta.LANES, k) && pos + LANE_HEADER + coded <= |s| && (symbols == 0 ==> coded == 0)
    ensures LanesAgree(s, pos, k, Delta.LANES, expected, true)
         == LanesAgree(s, pos + LANE_HEADER + coded, k + 1, Delta.LANES, expected, true)
  {
    hide WordFrom;
  }

  lemma DeltaLengths(data: seq<byte>, kind: Kind)
    requires |data| <= BLOCK_SIZE
    ensures LengthFault(DeltaAns, Delta.Encoded(data, kind), |data|).None? <==> data != []
  {
    hide Delta.LanesBytes, Delta.AllLanes, Delta.Difference, LanesAgree, PutWord, GetWord;
    var s := Delta.Encoded(data, kind);
    if data == [] {
      NoLanesFound(s);
    } else {
      var r := Delta.Difference(kind, data);
      WordRoundTrip(|data|);
      assert s[2..6] == PutWord(|data|) && s[6..] == Delta.LanesBytes(Delta.AllLanes(r));
      assert Delta.AllLanes(r)[0..] == Delta.AllLanes(r);
      LanesDeclared(s, 6, r, 0);
    }
  }

  lemma NoLanesFound(s: seq<byte>)
    requires s == [0, 4, 0, 0, 0, 0]
    ensures LengthFault(DeltaAns, s, 0).Some?
  {
  }

  lemma DeclaresLength(data: seq<byte>, coded: seq<byte>)
    requires |data| <= BLOCK_SIZE && |coded| >= 4 && coded[..4] == PutWord(|data|)
    ensures GetWord(coded[0..4]) == |data|
  {
    assert coded[0..4] == coded[..4];
    WordRoundTrip(|data|);
  }

  lemma LzmaLength(o: Outside, data: seq<byte>, coded: seq<byte>)
    requires |data| <= BLOCK_SIZE && BlockCodecs.IsLzma(o.prices, data, coded)
    ensures |coded| >= 4 && GetWord(coded[0..4]) == |data|
  {
    DeclaresLength(data, coded);
  }

  lemma BwtLength(data: seq<byte>, coded: seq<byte>)
    requires |data| <= BLOCK_SIZE && BwtCodec.IsPayload(data, coded)
    ensures |coded| >= 4 && GetWord(coded[0..4]) == |data|
  {
    assert coded[..4] == coded[..8][..4];
    DeclaresLength(data, coded);
  }

  lemma PpmLength(data: seq<byte>, coded: seq<byte>)
    requires |data| <= BLOCK_SIZE && PpmCodec.IsPayload(data, coded)
    ensures |coded| >= 4 && GetWord(coded[0..4]) == |data|
  {
    if data == [] {
      assert coded[..4] == PutWord(0);
    }
    DeclaresLength(data, coded);
  }

  lemma SumNone(s: seq<byte>, pos: nat, sum: nat)
    ensures TokenSum(s, pos, 0, sum) == Some(sum)
  {
  }

  lemma SumStep(s: seq<byte>, pos: nat, blocks: nat, sum: nat)
    requires blocks > 0 && pos + 8 <= |s| && pos + 8 + HuffmanContainer.WordAt(s, pos + 4) <= |s|
    ensures TokenSum(s, pos, blocks, sum)
         == TokenSum(s, pos + 8 + HuffmanContainer.WordAt(s, pos + 4), blocks - 1, sum + HuffmanContainer.WordAt(s, pos))
  {
    hide GetWord;
  }

  /** The blocks declare all the tokens between them, and take few bytes for each. */
  lemma {:induction false} BlocksSum(s: seq<byte>, pos: nat, ts: seq<Tokens.Token>, blockSize: nat, sizes: seq<nat>, blocks: nat, sum: nat)
    requires pos <= |s| && HuffmanContainer.IsBlocks(ts, blockSize, s[pos..], sizes)
    requires HuffmanContainer.SizesFit(sizes) && (ts != [] ==> 0 < blockSize) && |ts| < WORD
    requires blocks == HuffmanContainer.BlockCount(|ts|, blockSize)
    ensures TokenSum(s, pos, blocks, sum) == Some(sum + |ts|)
    ensures |s| <= pos + 183 * |ts|
    decreases |ts|
  {
    hide HuffmanContainer.StartsWithBlock, HuffmanContainer.BlockCount, GetWord, TokenSum, HuffmanContainer.WordAt;
    if ts == [] {
      SumNone(s, pos, sum);
      HuffmanContainer.NoCount(blockSize);
    } else {
      var n, k := HuffmanContainer.ChunkLength(ts, blockSize), sizes[0];
      HuffmanContainer.CountDown(|ts|, blockSize);
      HuffmanContainer.StartsSmall(ts[..n], s[pos..], k);
      assert s[pos..][k..] == s[pos + k..];
      HuffmanContainer.BlockDecodes(s, pos, ts[..n], k);
      SumStep(s, pos, blocks, sum);
      BlocksSum(s, pos + k, ts[n..], blockSize, sizes[1..], blocks - 1, sum + n);
    }
  }

  lemma BaselineLengths(data: seq<byte>, coded: seq<byte>)
    requires |data| <= BLOCK_SIZE && BlockCodecs.IsBaseline(data, coded)
    ensures LengthFault(Lz77Huffman, coded, |data|).None?
    ensures |coded| < WORD
  {
    hide Lz77.Covers, Lz77.LazyTokens, HuffmanContainer.IsBlocks, TokenSum, PutWord, GetWord, HuffmanContainer.BlockCount;
    hide HuffmanContainer.SizesFit, BlockCodecs.IsBaseline;
    var tokens := Lz77.LazyTokens(data);
    var blockSize := BlockCodecs.BaselineParts(data, coded);
    var sizes :| HuffmanContainer.Laid(tokens, blockSize, coded, sizes);
    HuffmanContainer.SmallBlocksFit(tokens, blockSize, coded[8..], sizes);
    BlockCodecs.CoversFacts(tokens, data);
    HuffmanContainer.CountAtMost(|tokens|, blockSize);
    var blocks := HuffmanContainer.BlockCount(|tokens|, blockSize);
    WordRoundTrip(|tokens|);
    WordRoundTrip(blocks);
    assert coded[0..4] == coded[..8][0..4] == PutWord(|tokens|);
    assert coded[4..8] == coded[..8][4..8] == PutWord(blocks);
    BlocksSum(coded, 8, tokens, blockSize, sizes, blocks, 0);
  }

  // ------------------------------------------------------------ what the checks are for

  /** A block that passes the checks is not decoded to more than the container declares; where the
      payload states its own length, to exactly that. */
  lemma CheckedLength(o: Outside, c: CodecId, s: seq<byte>, expected: nat)
    requires LengthFault(c, s, expected).None? && CodecDecoded(o, c, s, expected).Some?
    ensures |CodecDecoded(o, c, s, expected).value| <= expected
    ensures c != Lz77Huffman && c != BwtRans ==> |CodecDecoded(o, c, s, expected).value| == expected
  {
    hide GetWord, Lzma.DecodeSpec, Delta.Decoded, Rle.Decoded, Stride.Decoded, PpmCodec.Decompressed, BwtCodec.Decompressed, LanesAgree, TokenSum,
      BlockCodecs.BaselineDecoded;
    DeclaredIs(s, expected);
    match c
    case Lz77Huffman => BlockCodecs.BaselineWithin(s, expected);
    case LzmaStyle => Lzma.DecodedLength(s);
    case Passthrough =>
    case BwtRans => BwtCodec.NeverExceedsDeclared(s);
    case Ppm =>
    case DeltaAns =>
      LanesKeep(s, 6, 0, s[1], expected, GetWord(s[2..6]) == expected && s[1] > 0);
      Delta.DecodedLength(o.unpinned, s);
    case RleHuffman => Rle.DecodedLength(s);
    case StrideCm => Stride.DecodedLength(o.mix, s);
  }

  lemma DeclaredIs(s: seq<byte>, expected: nat)
    ensures Declares(s, 0, expected) == Some(true) ==> |s| >= 4 && GetWord(s[..4]) == expected && BwtCodec.WordAt(s, 0) == expected
    ensures |s| >= 4 ==> Declares(s, 0, expected) == Some(GetWord(s[..4]) == expected)
    ensures |s| >= 9 ==> Declares(s, 5, expected) == Some(GetWord(s[5..9]) == expected)
    ensures |s| >= 6 ==> Declares(s, 2, expected) == Some(GetWord(s[2..6]) == expected)
  {
    hide GetWord;
    assert |s| >= 4 ==> s[0..4] == s[..4];
  }

  /** Lanes that agree leave the verdict as it was. */
  lemma {:induction false} LanesKeep(s: seq<byte>, pos: nat, lane: nat, lanes: nat, expected: nat, ok: bool)
    requires lane <= lanes && LanesAgree(s, pos, lane, lanes, expected, ok) == Some(true)
    ensures ok
    decreases lanes - lane
  {
    hide GetWord;
    if lane < lanes {
      var symbols, coded := WordFrom(s, pos), WordFrom(s, pos + 4 + LANE_COUNTS);
      if coded.Some? {
        assert symbols.Some?;
        var end := pos + LANE_HEADER + if symbols.value > 0 then coded.value else 0;
        if symbols.value == 0 || end <= |s| {
          LanesKeep(s, end, lane + 1, lanes, expected, ok && symbols.value == (expected + lanes - 1 - lane) / lanes);
        }
      }
    }
  }

  // ------------------------------------------------------------ blocks

  datatype Block = Block(codec: CodecId, bcj: bool, origLen: nat, crc: nat, data: seq<byte>)

  /** `decode_block`: lengths, codec, filter, size, checksum, in this order. */
  ghost function BlockDecoded(o: Outside, b: Block): Result<seq<byte>> {
    var fault := LengthFault(b.codec, b.data, b.origLen);
    if fault.Some? then Err(fault.value)
    else
      var d := CodecDecoded(o, b.codec, b.data, b.origLen);
      if d.None? then Err(Undecodable(b.codec))
      else
        var plain := if b.bcj then BcjFilter.Filtered(d.value, 0, false) else d.value;
        if |plain| != b.origLen then Err(SizeMismatch(b.origLen, |plain|))
        else if o.crc(plain) != b.crc then Err(ChecksumMismatch)
        else Ok(plain)
  }

  /** The block a writer makes of a chunk. */
  ghost predicate IsBlockOf(o: Outside, chunk: seq<byte>, b: Block) {
    && IsCoded(o, b.codec, if b.bcj then BcjFilter.Filtered(chunk, 0, true) else chunk, b.data)
    && b.origLen == |chunk| && b.crc == o.crc(chunk) && |b.data| < WORD
  }

  lemma BlockRoundTrip(o: Outside, chunk: seq<byte>, b: Block)
    requires IsBlockOf(o, chunk, b) && 0 < |chunk| <= BLOCK_SIZE
    ensures BlockDecoded(o, b) == Ok(chunk)
  {
    hide IsCoded, LengthFault, CodecDecoded, BcjFilter.Filtered;
    CodecRoundTrip(o, b.codec, if b.bcj then BcjFilter.Filtered(chunk, 0, true) else chunk, b.data);
    if b.bcj {
      BcjFilter.FilterRoundTrip(chunk, 0);
    }
  }

  ghost function BlocksDecoded(o: Outside, blocks: seq<Block>): Result<seq<byte>> {
    if blocks == [] then Ok([])
    else
      var first := BlockDecoded(o, blocks[0]);
      if first.Err? then first
      else
        var rest := BlocksDecoded(o, blocks[1..]);
        if rest.Err? then rest else Ok(first.value + rest.value)
  }

  // ------------------------------------------------------------ the wire format

  function PutLong(v: nat): (s: seq<byte>)
    ensures |s| == 8
  {
    PutWord(v) + PutWord(v / WORD)
  }

  function GetLong(s: seq<byte>): nat
    requires |s| == 8
  {
    GetWord(s[..4]) + WORD * GetWord(s[4..])
  }

  lemma LongRoundTrip(v: nat)
    requires v < WORD * WORD
    ensures GetLong(PutLong(v)) == v
  {
    hide PutWord, GetWord;
    LowWord(v);
    WordRoundTrip(v % WORD);
    assert v / WORD < WORD && v == v % WORD + WORD * (v / WORD);
    WordRoundTrip(v / WORD);
    assert PutLong(v)[..4] == PutWord(v) && PutLong(v)[4..] == PutWord(v / WORD);
  }

  lemma LowWord(v: nat)
    ensures PutWord(v) == PutWord(v % WORD)
  {
    var q, r := v / WORD, v % WORD;
    LowByte(v, r, 0x100_0000 * q);
    LowByte(v / 0x100, r / 0x100, 0x1_0000 * q);
    LowByte(v / 0x1_0000, r / 0x1_0000, 0x100 * q);
    LowByte(v / 0x100_0000, r / 0x100_0000, q);
    assert v / 0x1_0000 == v / 0x100 / 0x100 && r / 0x1_0000 == r / 0x100 / 0x100;
    assert v / 0x100_0000 == v / 0x1_0000 / 0x100 && r / 0x100_0000 == r / 0x1_0000 / 0x100;
  }

  /** A multiple of 256 more changes the quotient and not the low byte. */
  lemma LowByte(v: nat, r: nat, m: nat)
    requires v == 256 * m + r
    ensures v % 256 == r % 256 && v / 256 == m + r / 256
  {
  }

  function BlockBytes(b: Block): (s: seq<byte>)
    ensures |s| == BLOCK_HEADER + |b.data|
  {
    [IdOf(b.codec), if b.bcj then 1 else 0] + PutWord(b.origLen) + PutWord(|b.data|) + PutWord(b.crc) + b.data
  }

  function BlocksBytes(blocks: seq<Block>): seq<byte> {
    if blocks == [] then [] else BlockBytes(blocks[0]) + BlocksBytes(blocks[1..])
  }

  function BlockCount(n: nat): nat {
    (n + BLOCK_SIZE - 1) / BLOCK_SIZE
  }

  const MAGIC: seq<byte> := [78, 88, 49, 53]

  /** Footer length of the formats this reader knows. */
  function FooterLength(s: seq<byte>): Option<nat> {
    if |s| < 4 then None
    else if s[..4] == [78, 88, 49, 51] then Some(0)
    else if s[..4] == [78, 88, 49, 52] || s[..4] == MAGIC then Some(DIGEST)
    else None
  }

  datatype Parsed = Parsed(origLen: nat, blocks: seq<Block>, digest: Option<seq<byte>>)

  function BlockLength(origLen: nat, index: nat): nat {
    var left := if index * BLOCK_SIZE <= origLen then origLen - index * BLOCK_SIZE else 0;
    if BLOCK_SIZE < left then BLOCK_SIZE else left
  }

  /** The block at `pos` and where it ends. */
  function ParseBlock(s: seq<byte>, pos: nat, expected: nat): Result<(Block, nat)> {
    if pos + 2 > |s| then Err(Truncated)
    else
      var codec := CodecOf(s[pos]);
      if codec.None? then Err(UnknownCodec(s[pos]))
      else if pos + BLOCK_HEADER > |s| then Err(Truncated)
      else
        var origLen, length := GetWord(s[pos + 2..pos + 6]), GetWord(s[pos + 6..pos + 10]);
        var crc := GetWord(s[pos + 10..pos + 14]);
        if origLen != expected then Err(BadLayout)
        else if pos + BLOCK_HEADER + length > |s| then Err(Truncated)
        else
          var end := pos + BLOCK_HEADER + length;
          Ok((Block(codec.value, s[pos + 1] != 0, origLen, crc, s[pos + BLOCK_HEADER..end]), end))
  }

  function ParseBlocks(s: seq<byte>, pos: nat, index: nat, left: nat, origLen: nat): Result<(seq<Block>, nat)>
    decreases left
  {
    if left == 0 then Ok(([], pos))
    else
      var b := ParseBlock(s, pos, BlockLength(origLen, index));
      if b.Err? then Err(b.error)
      else
        var rest := ParseBlocks(s, b.value.1, index + 1, left - 1, origLen);
        if rest.Err? then Err(rest.error) else Ok(([b.value.0] + rest.value.0, rest.value.1))
  }

  /** `parse_container`. */
  function Parse(s: seq<byte>): Result<Parsed> {
    var footer := FooterLength(s);
    if footer.None? then Err(BadMagic)
    else if |s| < FILE_HEADER + footer.value then Err(Truncated)
    else
      var origLen, count := GetLong(s[4..12]), GetWord(s[12..16]);
      if count > (|s| - FILE_HEADER - footer.value) / BLOCK_HEADER then Err(Truncated)
      else if count != BlockCount(origLen) then Err(BadLayout)
      else
        var blocks := ParseBlocks(s, FILE_HEADER, 0, count, origLen);
        if blocks.Err? then Err(blocks.error)
        else
          var pos := blocks.value.1;
          if pos + footer.value > |s| then Err(Truncated)
          else if pos + footer.value < |s| then Err(TrailingBytes)
          else Ok(Parsed(origLen, blocks.value.0, if footer.value > 0 then Some(s[pos..]) else None))
  }

  /** `try_adaptive_decompress_limited`. */
  ghost function Decompressed(o: Outside, s: seq<byte>, limit: nat): Result<seq<byte>> {
    var p := Parse(s);
    if p.Err? then Err(p.error)
    else if p.value.origLen > limit then Err(OutputLimit(p.value.origLen, limit))
    else
      var d := BlocksDecoded(o, p.value.blocks);
      if d.Err? then d
      else if p.value.digest.Some? && o.hash(d.value) != p.value.digest.value then Err(DigestMismatch)
      else d
  }

  // ------------------------------------------------------------ what is accepted

  lemma {:induction false} BlocksLength(o: Outside, blocks: seq<Block>)
    requires BlocksDecoded(o, blocks).Ok?
    ensures |BlocksDecoded(o, blocks).value| == Total(blocks)
  {
    hide LengthFault, CodecDecoded, BcjFilter.Filtered;
    if blocks != [] {
      BlocksLength(o, blocks[1..]);
    }
  }

  function Total(blocks: seq<Block>): nat {
    if blocks == [] then 0 else blocks[0].origLen + Total(blocks[1..])
  }

  lemma {:induction false} ParsedTotal(s: seq<byte>, pos: nat, index: nat, left: nat, origLen: nat)
    requires ParseBlocks(s, pos, index, left, origLen).Ok? && index + left == BlockCount(origLen)
    ensures Total(ParseBlocks(s, pos, index, left, origLen).value.0) == if index * BLOCK_SIZE <= origLen then origLen - index * BLOCK_SIZE else 0
    decreases left
  {
    hide GetWord;
    if left > 0 {
      var b := ParseBlock(s, pos, BlockLength(origLen, index)).value;
      ParsedTotal(s, b.1, index + 1, left - 1, origLen);
      var rest := ParseBlocks(s, b.1, index + 1, left - 1, origLen).value;
      assert ([b.0] + rest.0)[1..] == rest.0;
    }
  }

  /** Nothing is returned that does not have the declared length and, where the file
      carries one, the declared digest; and nothing beyond the limit. */
  lemma OnlyVerifiedOutput(o: Outside, s: seq<byte>, limit: nat)
    requires Decompressed(o, s, limit).Ok?
    ensures Parse(s).Ok?
    ensures var out, p := Decompressed(o, s, limit).value, Parse(s).value;
      && |out| == p.origLen <= limit
      && (p.digest.Some? ==> o.hash(out) == p.digest.value)
      && (forall k :: 0 <= k < |p.blocks| ==> BlockDecoded(o, p.blocks[k]).Ok?)
  {
    hide ParseBlocks, BlockDecoded, GetWord, BlockCount;
    var p := Parse(s).value;
    BlocksLength(o, p.blocks);
    ParsedTotal(s, FILE_HEADER, 0, BlockCount(p.origLen), p.origLen);
    EveryBlock(o, p.blocks);
  }

  lemma {:induction false} EveryBlock(o: Outside, blocks: seq<Block>)
    requires BlocksDecoded(o, blocks).Ok?
    ensures forall k :: 0 <= k < |blocks| ==> BlockDecoded(o, blocks[k]).Ok?
  {
    hide BlockDecoded;
    if blocks != [] {
      EveryBlock(o, blocks[1..]);
      forall k | 0 <= k < |blocks| ensures BlockDecoded(o, blocks[k]).Ok? {
        assert k > 0 ==> blocks[k] == blocks[1..][k - 1];
      }
    }
  }

  // ------------------------------------------------------------ round trip

  function FirstChunk(data: seq<byte>): (n: nat)
    ensures n <= |data| && n <= BLOCK_SIZE && (data != [] ==> n > 0)
  {
    if BLOCK_SIZE < |data| then BLOCK_SIZE else |data|
  }

  ghost predicate BlocksOf(o: Outside, data: seq<byte>, blocks: seq<Block>)
    decreases |data|
  {
    if data == [] then blocks == []
    else
      var n := FirstChunk(data);
      blocks != [] && IsBlockOf(o, data[..n], blocks[0]) && BlocksOf(o, data[n..], blocks[1..])
  }

  function Stored(o: Outside, data: seq<byte>, blocks: seq<Block>): seq<byte> {
    MAGIC + PutLong(|data|) + PutWord(|blocks|) + BlocksBytes(blocks) + o.hash(data)
  }

  ghost predicate IsContainer(o: Outside, data: seq<byte>, payload: seq<byte>) {
    exists blocks :: BlocksOf(o, data, blocks) && payload == Stored(o, data, blocks)
  }

  lemma CountNext(n: nat)
    requires n > 0
    ensures BlockCount(n) == 1 + BlockCount(n - if BLOCK_SIZE < n then BLOCK_SIZE else n)
    ensures BlockCount(0) == 0
  {
  }

  lemma {:induction false} BlocksCounted(o: Outside, data: seq<byte>, blocks: seq<Block>)
    requires BlocksOf(o, data, blocks)
    ensures |blocks| == BlockCount(|data|) && |BlocksBytes(blocks)| >= BLOCK_HEADER * |blocks|
    decreases |data|
  {
    hide IsBlockOf, BlockCount;
    if data == [] {
      CountNext(1);
    } else {
      var n := FirstChunk(data);
      CountNext(|data|);
      BlocksCounted(o, data[n..], blocks[1..]);
    }
  }

  lemma ParsesBlock(o: Outside, s: seq<byte>, pos: nat, b: Block, chunk: seq<byte>)
    requires IsBlockOf(o, chunk, b) && |chunk| <= BLOCK_SIZE && pos <= |s| && BlockBytes(b) <= s[pos..]
    ensures ParseBlock(s, pos, |chunk|) == Ok((b, pos + |BlockBytes(b)|))
  {
    hide IsCoded, PutWord, GetWord;
    var t := BlockBytes(b);
    WordRoundTrip(b.origLen);
    WordRoundTrip(|b.data|);
    WordRoundTrip(b.crc);
    assert forall k :: 0 <= k < |t| ==> s[pos + k] == s[pos..][k] == t[k];
    assert s[pos + 2..pos + 6] == t[2..6] == PutWord(b.origLen);
    assert s[pos + 6..pos + 10] == t[6..10] == PutWord(|b.data|);
    assert s[pos + 10..pos + 14] == t[10..14] == PutWord(b.crc);
    assert s[pos + 14..pos + |t|] == t[14..] == b.data;
    assert s[pos] == IdOf(b.codec) && (s[pos + 1] != 0 <==> b.bcj);
    IdBack(b.codec);
  }

  lemma IdBack(c: CodecId)
    ensures CodecOf(IdOf(c)) == Some(c)
  {
  }

  lemma ChunkAt(origLen: nat, index: nat, data: seq<byte>)
    requires data != [] && index * BLOCK_SIZE + |data| == origLen
    ensures BlockLength(origLen, index) == FirstChunk(data)
    ensures |data| > BLOCK_SIZE ==> (index + 1) * BLOCK_SIZE + (|data| - BLOCK_SIZE) == origLen
  {
  }

  lemma {:induction false} ParsesBlocks(o: Outside, s: seq<byte>, pos: nat, data: seq<byte>, blocks: seq<Block>, index: nat, origLen: nat)
    requires BlocksOf(o, data, blocks) && (data != [] ==> index * BLOCK_SIZE + |data| == origLen)
    requires pos <= |s| && BlocksBytes(blocks) <= s[pos..]
    ensures ParseBlocks(s, pos, index, |blocks|, origLen) == Ok((blocks, pos + |BlocksBytes(blocks)|))
    decreases |data|
  {
    hide IsBlockOf, ParseBlock, BlockLength, BlockBytes;
    if data != [] {
      var n, first := FirstChunk(data), BlockBytes(blocks[0]);
      ChunkAt(origLen, index, data);
      PrefixSplit(first, BlocksBytes(blocks[1..]), s, pos);
      ParsesBlock(o, s, pos, blocks[0], data[..n]);
      ParsesBlocks(o, s, pos + |first|, data[n..], blocks[1..], index + 1, origLen);
      assert [blocks[0]] + blocks[1..] == blocks;
    }
  }

  lemma PrefixSplit(a: seq<byte>, b: seq<byte>, s: seq<byte>, pos: nat)
    requires pos <= |s| && a + b <= s[pos..]
    ensures a <= s[pos..] && pos + |a| <= |s| && b <= s[pos + |a|..]
  {
    assert s[pos..][|a|..] == s[pos + |a|..];
    assert (a + b)[|a|..] == b;
    assert s[pos..][..|a|] == (a + b)[..|a|] == a;
  }

  const MAX_FILE: nat := 0xFFFF_FFFF * BLOCK_SIZE

  lemma ParsesBack(o: Outside, data: seq<byte>, blocks: seq<Block>)
    requires BlocksOf(o, data, blocks) && |data| <= MAX_FILE
    ensures Parse(Stored(o, data, blocks)) == Ok(Parsed(|data|, blocks, Some(o.hash(data))))
  {
    hide BlocksOf, ParseBlocks, PutLong, GetLong, PutWord, GetWord, BlocksBytes, BlockCount;
    var s, body, digest := Stored(o, data, blocks), BlocksBytes(blocks), o.hash(data);
    BlocksCounted(o, data, blocks);
    CountFits(|data|);
    LongRoundTrip(|data|);
    WordRoundTrip(|blocks|);
    assert s[..4] == MAGIC && s[4..12] == PutLong(|data|) && s[12..16] == PutWord(|blocks|);
    assert s[16..] == body + digest && s[16 + |body|..] == digest;
    ParsesBlocks(o, s, FILE_HEADER, data, blocks, 0, |data|);
  }

  lemma CountFits(n: nat)
    requires n <= MAX_FILE
    ensures BlockCount(n) < WORD
  {
  }

  lemma {:induction false} BlocksBack(o: Outside, data: seq<byte>, blocks: seq<Block>)
    requires BlocksOf(o, data, blocks)
    ensures BlocksDecoded(o, blocks) == Ok(data)
    decreases |data|
  {
    hide IsBlockOf, BlockDecoded;
    if data != [] {
      var n := FirstChunk(data);
      BlockRoundTrip(o, data[..n], blocks[0]);
      BlocksBack(o, data[n..], blocks[1..]);
      assert data[..n] + data[n..] == data;
    }
  }

  /** The whole compressor: whatever codec and filter each block took, a reader gets the
      input back, or the refusal its own limit asks for. */
  lemma ContainerRoundTrip(o: Outside, data: seq<byte>, payload: seq<byte>, limit: nat)
    requires IsContainer(o, data, payload) && |data| <= MAX_FILE
    ensures Decompressed(o, payload, limit) == if |data| <= limit then Ok(data) else Err(OutputLimit(|data|, limit))
  {
    hide BlocksOf, Stored, Parse, BlocksDecoded;
    var blocks :| BlocksOf(o, data, blocks) && payload == Stored(o, data, blocks);
    ParsesBack(o, data, blocks);
    BlocksBack(o, data, blocks);
  }

  // ------------------------------------------------------------ compression as it runs

  /** What the classifiers settle for one block: the codecs tried after the baseline, plain
      and filtered. */
  datatype Plan = Plan(plain: seq<CodecId>, filtered: seq<CodecId>, tryFilter: bool)

  /** Every codec takes every block. */
  method EncodeWith(o: Outside, c: CodecId, data: seq<byte>) returns (coded: seq<byte>)
    requires |data| <= BLOCK_SIZE
    ensures IsCoded(o, c, data, coded)
  {
    hide BlockCodecs.IsBaseline, BlockCodecs.IsLzma, BwtCodec.IsPayload, PpmCodec.IsPayload, Rle.Encoded, Delta.Encoded,
      Stride.Encoded;
    match c
    case Lz77Huffman => coded := Baseline(o, data);
    case LzmaStyle => coded := BlockCodecs.CompressLzma(o.prices, data);
    case Passthrough => coded := data;
    case BwtRans => coded := BwtCodec.Compress(data);
    case Ppm => coded := PpmCodec.Compress(data);
    case DeltaAns => coded := Delta.Encode(data, o.kind(data));
    case RleHuffman => coded := Rle.Encode(data);
    case StrideCm => coded := Stride.Encode(o.mix, data, o.shape(data));
  }

  method Baseline(o: Outside, data: seq<byte>) returns (coded: seq<byte>)
    requires |data| <= BLOCK_SIZE
    ensures IsCoded(o, Lz77Huffman, data, coded) && 0 < |coded| < WORD
  {
    hide BlockCodecs.IsBaseline;
    ghost var tries, k;
    coded, tries, k := BlockCodecs.CompressBaseline(data);
    BaselineLengths(data, coded);
  }

  /** An output that can be chosen. */
  predicate Eligible(coded: seq<byte>) {
    coded != []
  }

  /** The codecs tried, the baseline first. */
  function Tried(candidates: seq<CodecId>): (codecs: seq<CodecId>)
    ensures |codecs| == 1 + |candidates|
  {
    [Lz77Huffman] + candidates
  }

  /** Every codec's output; the `k`th is the first of the shortest that can be chosen. */
  ghost predicate Chosen(o: Outside, data: seq<byte>, candidates: seq<CodecId>, outputs: seq<seq<byte>>, k: nat) {
    && k < |outputs| == 1 + |candidates| && Eligible(outputs[k])
    && (forall j :: 0 <= j < |outputs| ==> IsCoded(o, Tried(candidates)[j], data, outputs[j]))
    && (forall j :: 0 <= j < |outputs| && Eligible(outputs[j]) ==>
          |outputs[k]| <= |outputs[j]| && (j < k ==> |outputs[k]| < |outputs[j]|))
  }

  /** The first of the shortest outputs over the baseline and the candidates. */
  ghost predicate IsBest(o: Outside, data: seq<byte>, candidates: seq<CodecId>, codec: CodecId, best: seq<byte>) {
    exists outputs: seq<seq<byte>>, k: nat ::
      Chosen(o, data, candidates, outputs, k) && codec == Tried(candidates)[k] && best == outputs[k]
  }

  lemma ChosenNext(o: Outside, data: seq<byte>, candidates: seq<CodecId>, outputs: seq<seq<byte>>, k: nat, c: CodecId, coded: seq<byte>)
    requires Chosen(o, data, candidates, outputs, k) && IsCoded(o, c, data, coded)
    ensures var better := Eligible(coded) && |coded| < |outputs[k]|;
      Chosen(o, data, candidates + [c], outputs + [coded], if better then |outputs| else k)
  {
    hide IsCoded;
    var more, all := candidates + [c], outputs + [coded];
    forall j | 0 <= j < |all| ensures IsCoded(o, Tried(more)[j], data, all[j]) {
      if j < |outputs| {
        assert Tried(more)[j] == Tried(candidates)[j];
      }
    }
  }

  /** The baseline and then every candidate; a tie keeps the earlier. */
  method SelectBest(o: Outside, data: seq<byte>, candidates: seq<CodecId>)
    returns (best: seq<byte>, codec: CodecId, ghost outputs: seq<seq<byte>>, ghost k: nat)
    requires |data| <= BLOCK_SIZE
    ensures Chosen(o, data, candidates, outputs, k) && codec == Tried(candidates)[k] && best == outputs[k]
    ensures |best| < WORD
  {
    hide IsCoded;
    best := Baseline(o, data);
    codec := Lz77Huffman;
    outputs, k := [best], 0;
    for i := 0 to |candidates|
      invariant Chosen(o, data, candidates[..i], outputs, k)
      invariant codec == Tried(candidates[..i])[k] && best == outputs[k] && |best| < WORD
    {
      var other := EncodeWith(o, candidates[i], data);
      ChosenNext(o, data, candidates[..i], outputs, k, candidates[i], other);
      assert candidates[..i] + [candidates[i]] == candidates[..i + 1];
      outputs := outputs + [other];
      if other != [] && |other| < |best| {
        best, codec, k := other, candidates[i], i + 1;
      }
    }
    assert candidates[..|candidates|] == candidates;
  }

  /** The block is the best of the plain codecs, or the strictly smaller best of the codecs
      over the filtered chunk. */
  ghost predicate IsSelected(o: Outside, chunk: seq<byte>, plan: Plan, b: Block) {
    if b.bcj then
      && plan.tryFilter && IsBest(o, BcjFilter.Filtered(chunk, 0, true), plan.filtered, b.codec, b.data)
      && exists codec, plain: seq<byte> :: IsBest(o, chunk, plan.plain, codec, plain) && |b.data| < |plain|
    else
      && IsBest(o, chunk, plan.plain, b.codec, b.data)
      && (plan.tryFilter ==> exists codec, other: seq<byte> ::
            IsBest(o, BcjFilter.Filtered(chunk, 0, true), plan.filtered, codec, other) && |b.data| <= |other|)
  }

  /** A selected block is no larger than the chunk's baseline. */
  lemma NoRegression(o: Outside, chunk: seq<byte>, plan: Plan, b: Block)
    requires IsSelected(o, chunk, plan, b) && |chunk| <= BLOCK_SIZE
    ensures |b.data| <= |BlockCodecs.BaselineOf(chunk)|
  {
    hide BlockCodecs.IsBaseline, BlockCodecs.BaselineOf, BcjFilter.Filtered, IsBest;
    if b.bcj {
      var codec, plain: seq<byte> :| IsBest(o, chunk, plan.plain, codec, plain) && |b.data| < |plain|;
      BestWithinBaseline(o, chunk, plan.plain, codec, plain);
    } else {
      BestWithinBaseline(o, chunk, plan.plain, b.codec, b.data);
    }
  }

  lemma BestWithinBaseline(o: Outside, data: seq<byte>, candidates: seq<CodecId>, codec: CodecId, best: seq<byte>)
    requires IsBest(o, data, candidates, codec, best) && |data| <= BLOCK_SIZE
    ensures |best| <= |BlockCodecs.BaselineOf(data)|
  {
    hide BlockCodecs.IsBaseline;
    var outputs: seq<seq<byte>>, k: nat :| Chosen(o, data, candidates, outputs, k)
      && codec == Tried(candidates)[k] && best == outputs[k];
    assert IsCoded(o, Tried(candidates)[0], data, outputs[0]);
    BlockCodecs.BaselineUnique(data, outputs[0]);
    BaselineNotEmpty(data, outputs[0]);
  }

  lemma BaselineNotEmpty(data: seq<byte>, payload: seq<byte>)
    requires BlockCodecs.IsBaseline(data, payload)
    ensures payload != []
  {
    hide BlockCodecs.IsBaseline;
    var blockSize := BlockCodecs.BaselineParts(data, payload);
  }

  /** `compress_block_adaptive`: the filtered block only when it is strictly smaller. */
  method CompressBlock(o: Outside, chunk: seq<byte>, plan: Plan) returns (b: Block)
    requires 0 < |chunk| <= BLOCK_SIZE
    ensures IsBlockOf(o, chunk, b) && IsSelected(o, chunk, plan, b)
  {
    hide IsCoded, BcjFilter.Filtered, Chosen;
    ghost var outputs, k;
    var best, codec;
    best, codec, outputs, k := SelectBest(o, chunk, plan.plain);
    BestCoded(o, chunk, plan.plain, outputs, k);
    b := Block(codec, false, |chunk|, o.crc(chunk), best);
    if plan.tryFilter {
      var filtered := Filter(chunk, true);
      var other, otherCodec;
      other, otherCodec, outputs, k := SelectBest(o, filtered, plan.filtered);
      BestCoded(o, filtered, plan.filtered, outputs, k);
      if |other| < |best| {
        b := Block(otherCodec, true, |chunk|, o.crc(chunk), other);
      }
    }
  }

  lemma BestCoded(o: Outside, data: seq<byte>, candidates: seq<CodecId>, outputs: seq<seq<byte>>, k: nat)
    requires Chosen(o, data, candidates, outputs, k)
    ensures k < |outputs| == 1 + |candidates|
    ensures IsCoded(o, Tried(candidates)[k], data, outputs[k])
    ensures IsBest(o, data, candidates, Tried(candidates)[k], outputs[k])
  {
    hide IsCoded;
  }

  method Filter(data: seq<byte>, forward: bool) returns (out: seq<byte>)
    ensures out == BcjFilter.Filtered(data, 0, forward)
  {
    hide BcjFilter.Filtered;
    var a := new byte[|data|](i requires 0 <= i < |data| => data[i]);
    assert a[..] == data;
    BcjFilter.Filter(a, forward);
    out := a[..];
  }

  lemma {:induction false} BlocksSnoc(o: Outside, data: seq<byte>, blocks: seq<Block>, chunk: seq<byte>, b: Block)
    requires BlocksOf(o, data, blocks) && |data| % BLOCK_SIZE == 0
    requires 0 < |chunk| <= BLOCK_SIZE && IsBlockOf(o, chunk, b)
    ensures BlocksOf(o, data + chunk, blocks + [b])
    decreases |data|
  {
    hide IsBlockOf;
    if data == [] {
      assert data + chunk == chunk && blocks + [b] == [b] && chunk[..|chunk|] == chunk;
    } else {
      var n := FirstChunk(data);
      assert |data| >= BLOCK_SIZE && n == BLOCK_SIZE;
      BlocksSnoc(o, data[n..], blocks[1..], chunk, b);
      assert (data + chunk)[..n] == data[..n] && (data + chunk)[n..] == data[n..] + chunk;
      assert (blocks + [b])[1..] == blocks[1..] + [b] && (blocks + [b])[0] == blocks[0];
    }
  }

  lemma {:induction false} BytesSnoc(blocks: seq<Block>, b: Block)
    ensures BlocksBytes(blocks + [b]) == BlocksBytes(blocks) + BlockBytes(b)
  {
    hide BlockBytes;
    if blocks == [] {
      assert blocks + [b] == [b];
      assert BlocksBytes([b]) == BlockBytes(b) + BlocksBytes([]);
    } else {
      BytesSnoc(blocks[1..], b);
      assert (blocks + [b])[1..] == blocks[1..] + [b] && (blocks + [b])[0] == blocks[0];
      assert BlockBytes(blocks[0]) + (BlocksBytes(blocks[1..]) + BlockBytes(b)) == BlocksBytes(blocks) + BlockBytes(b);
    }
  }

  /** The `k`th chunk of the data. */
  function Chunk(data: seq<byte>, k: nat): (chunk: seq<byte>) {
    if k * BLOCK_SIZE > |data| then [] else data[k * BLOCK_SIZE..][..FirstChunk(data[k * BLOCK_SIZE..])]
  }

  /** `adaptive_compress`, with each block's plan given. */
  method Compress(o: Outside, data: seq<byte>, plans: nat -> Plan) returns (payload: seq<byte>, ghost blocks: seq<Block>)
    ensures BlocksOf(o, data, blocks) && payload == Stored(o, data, blocks)
    ensures forall k :: 0 <= k < |blocks| ==> IsSelected(o, Chunk(data, k), plans(k), blocks[k])
  {
    hide BlocksOf, IsBlockOf, IsSelected, IsCoded, BlocksBytes, BlockBytes, PutWord, PutLong, FirstChunk;
    blocks := [];
    var start, count := 0, 0;
    var body: seq<byte> := [];
    NoBlocks(o);
    while start < |data|
      invariant 0 <= start <= |data| && (start == count * BLOCK_SIZE || start == |data|)
      invariant BlocksOf(o, data[..start], blocks) && body == BlocksBytes(blocks) && count == |blocks|
      invariant forall k :: 0 <= k < |blocks| ==> IsSelected(o, Chunk(data, k), plans(k), blocks[k])
    {
      var end := start + FirstChunk(data[start..]);
      var chunk := data[start..end];
      assert chunk == Chunk(data, count);
      ChunkEnd(data, start, count);
      var b := CompressBlock(o, chunk, plans(count));
      BlocksSnoc(o, data[..start], blocks, chunk, b);
      BytesSnoc(blocks, b);
      assert data[..start] + chunk == data[..end];
      blocks, body := blocks + [b], body + BlockBytes(b);
      start, count := end, count + 1;
    }
    assert data[..start] == data;
    payload := MAGIC + PutLong(|data|) + PutWord(count) + body + o.hash(data);
  }

  lemma ChunkEnd(data: seq<byte>, start: nat, count: nat)
    requires start == count * BLOCK_SIZE < |data|
    ensures var end := start + FirstChunk(data[start..]); end == (count + 1) * BLOCK_SIZE || end == |data|
    ensures start % BLOCK_SIZE == 0
  {
  }

  lemma NoBlocks(o: Outside)
    ensures BlocksOf(o, [], []) && BlocksBytes([]) == []
  {
  }

  // ------------------------------------------------------------ decompression as it runs

  method DecodeCodec(o: Outside, c: CodecId, s: seq<byte>, expected: nat) returns (d: Option<seq<byte>>)
    ensures d == CodecDecoded(o, c, s, expected)
  {
    hide BlockCodecs.BaselineDecoded, Lzma.DecodeSpec, BwtCodec.Decompressed, PpmCodec.Decompressed, Delta.Decoded, Rle.Decoded,
      Stride.Decoded;
    match c
    case Lz77Huffman => d := BlockCodecs.DecompressBaseline(s, expected);
    case LzmaStyle =>
      var r := LzmaCodec.DecodeBlock(s);
      d := if r.Ok? then Some(r.value) else None;
    case Passthrough => d := Some(s);
    case BwtRans =>
      var out := BwtCodec.Decompress(s);
      d := Some(out);
    case Ppm => d := PpmCodec.Decompress(s);
    case DeltaAns => d := Delta.Decode(o.unpinned, s);
    case RleHuffman => d := Rle.Decode(s);
    case StrideCm => d := Stride.Decode(o.mix, s);
  }

  /** Token counts are added up block by block, lanes compared one by one. */
  method CheckLengths(c: CodecId, s: seq<byte>, expected: nat) returns (fault: Option<Error>)
    ensures fault == LengthFault(c, s, expected)
  {
    hide GetWord;
    match c
    case Lz77Huffman => fault := CheckTokens(s, expected);
    case DeltaAns => fault := CheckLanes(s, expected);
    case _ => fault := LengthFault(c, s, expected);
  }

  method CheckTokens(s: seq<byte>, expected: nat) returns (fault: Option<Error>)
    ensures fault == LengthFault(Lz77Huffman, s, expected)
  {
    hide GetWord;
    if |s| < 8 {
      return Some(Truncated);
    }
    var tokens, blocks := GetWord(s[0..4]), GetWord(s[4..8]);
    var pos: nat, sum: nat := 8, 0;
    for k := 0 to blocks
      invariant TokenSum(s, pos, blocks - k, sum) == TokenSum(s, 8, blocks, 0)
    {
      var count, length := WordFrom(s, pos), WordFrom(s, pos + 4);
      if length.None? || pos + 8 + length.value > |s| {
        return Some(Truncated);
      }
      sum := sum + count.value;
      pos := pos + 8 + length.value;
    }
    fault := if tokens <= expected && sum == tokens then None else Some(LengthMismatch(Lz77Huffman));
  }

  method CheckLanes(s: seq<byte>, expected: nat) returns (fault: Option<Error>)
    ensures fault == LengthFault(DeltaAns, s, expected)
  {
    hide GetWord;
    if |s| < 2 {
      return Some(Truncated);
    }
    var declared := WordFrom(s, 2);
    if declared.None? {
      return Some(Truncated);
    }
    var lanes: nat, pos: nat, ok := s[1], 6, declared.value == expected && s[1] > 0;
    ghost var goal := LanesAgree(s, 6, 0, lanes, expected, ok);
    for lane := 0 to lanes
      invariant LanesAgree(s, pos, lane, lanes, expected, ok) == goal
    {
      var symbols, coded := WordFrom(s, pos), WordFrom(s, pos + 4 + LANE_COUNTS);
      if coded.None? {
        return Some(Truncated);
      }
      pos := pos + LANE_HEADER;
      ok := ok && symbols.value == (expected + lanes - 1 - lane) / lanes;
      if symbols.value > 0 {
        pos := pos + coded.value;
        if pos > |s| {
          return Some(Truncated);
        }
      }
    }
    fault := if ok then None else Some(LengthMismatch(DeltaAns));
  }

  method DecodeBlock(o: Outside, b: Block) returns (r: Result<seq<byte>>)
    ensures r == BlockDecoded(o, b)
  {
    hide LengthFault, CodecDecoded, BcjFilter.Filtered;
    var fault := CheckLengths(b.codec, b.data, b.origLen);
    if fault.Some? {
      return Err(fault.value);
    }
    var d := DecodeCodec(o, b.codec, b.data, b.origLen);
    if d.None? {
      return Err(Undecodable(b.codec));
    }
    var plain := d.value;
    if b.bcj {
      plain := Filter(plain, false);
    }
    if |plain| != b.origLen {
      return Err(SizeMismatch(b.origLen, |plain|));
    }
    if o.crc(plain) != b.crc {
      return Err(ChecksumMismatch);
    }
    return Ok(plain);
  }

  ghost function Joined<T>(done: seq<T>, r: Result<(seq<T>, nat)>): Result<(seq<T>, nat)> {
    if r.Err? then r else Ok((done + r.value.0, r.value.1))
  }

  method ParseContainer(s: seq<byte>) returns (p: Result<Parsed>)
    ensures p == Parse(s)
  {
    hide ParseBlock, GetWord, GetLong;
    var footer := FooterLength(s);
    if footer.None? {
      return Err(BadMagic);
    }
    if |s| < FILE_HEADER + footer.value {
      return Err(Truncated);
    }
    var origLen, count := GetLong(s[4..12]), GetWord(s[12..16]);
    if count > (|s| - FILE_HEADER - footer.value) / BLOCK_HEADER {
      return Err(Truncated);
    }
    if count != BlockCount(origLen) {
      return Err(BadLayout);
    }
    var blocks: seq<Block> := [];
    var pos: nat := FILE_HEADER;
    ghost var goal := ParseBlocks(s, FILE_HEADER, 0, count, origLen);
    assert goal.Ok? ==> blocks + goal.value.0 == goal.value.0;
    for index := 0 to count
      invariant Joined(blocks, ParseBlocks(s, pos, index, count - index, origLen)) == goal
    {
      var b := ParseBlock(s, pos, BlockLength(origLen, index));
      if b.Err? {
        return Err(b.error);
      }
      ghost var rest := ParseBlocks(s, b.value.1, index + 1, count - index - 1, origLen);
      if rest.Ok? {
        assert blocks + ([b.value.0] + rest.value.0) == (blocks + [b.value.0]) + rest.value.0;
      }
      blocks, pos := blocks + [b.value.0], b.value.1;
    }
    assert blocks + [] == blocks;
    if pos + footer.value > |s| {
      return Err(Truncated);
    }
    if pos + footer.value < |s| {
      return Err(TrailingBytes);
    }
    return Ok(Parsed(origLen, blocks, if footer.value > 0 then Some(s[pos..]) else None));
  }

  /** Blocks are decoded in order; the digest is checked over everything written. */
  method Decompress(o: Outside, s: seq<byte>, limit: nat) returns (r: Result<seq<byte>>)
    ensures r == Decompressed(o, s, limit)
  {
    hide Parse, BlockDecoded;
    var parsed := ParseContainer(s);
    if parsed.Err? {
      return Err(parsed.error);
    }
    var p := parsed.value;
    if p.origLen > limit {
      return Err(OutputLimit(p.origLen, limit));
    }
    var out: seq<byte> := [];
    ghost var goal := BlocksDecoded(o, p.blocks);
    assert p.blocks[0..] == p.blocks && (goal.Ok? ==> out + goal.value == goal.value);
    for k := 0 to |p.blocks|
      invariant Appended(out, BlocksDecoded(o, p.blocks[k..])) == goal
    {
      var d := DecodeBlock(o, p.blocks[k]);
      assert p.blocks[k..][1..] == p.blocks[k + 1..];
      if d.Err? {
        return d;
      }
      ghost var rest := BlocksDecoded(o, p.blocks[k + 1..]);
      if rest.Ok? {
        assert out + (d.value + rest.value) == (out + d.value) + rest.value;
      }
      out := out + d.value;
    }
    assert out + [] == out;
    if p.digest.Some? && o.hash(out) != p.digest.value {
      return Err(DigestMismatch);
    }
    return Ok(out);
  }

  ghost function Appended(done: seq<byte>, r: Result<seq<byte>>): Result<seq<byte>> {
    if r.Err? then r else Ok(done + r.value)
  }

  method RoundTrip(o: Outside, data: seq<byte>, plans: nat -> Plan, limit: nat) returns (r: Result<seq<byte>>)
    requires |data| <= MAX_FILE
    ensures r == if |data| <= limit then Ok(data) else Err(OutputLimit(|data|, limit))
  {
    hide BlocksOf, Stored, Decompressed, IsSelected;
    ghost var blocks;
    var payload;
    payload, blocks := Compress(o, data, plans);
    ContainerRoundTrip(o, data, payload, limit);
    r := Decompress(o, payload, limit);
  }
}
