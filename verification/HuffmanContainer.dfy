/** The container of token blocks: two header words, then per block its token count,
    its byte length and its bits. */
module HuffmanContainer {
  import opened Arithmetic
  import opened Bytes
  import opened CanonicalCode
  import opened BitStream
  import opened HuffmanTree
  import opened HuffmanCodes
  import opened Tokens
  import opened HuffmanBlock
  import opened HuffmanCodec
  import opened Sequences

  function ChunkLength(ts: seq<Token>, blockSize: nat): (n: nat)
    ensures n <= |ts| && n <= blockSize && (ts != [] && blockSize > 0 ==> n > 0)
  {
    if |ts| < blockSize then |ts| else blockSize
  }

  function BlockCount(n: nat, blockSize: nat): nat
    requires n > 0 ==> blockSize > 0
  {
    if n == 0 then 0 else (n + blockSize - 1) / blockSize
  }

  ghost predicate IsBlock(ts: seq<Token>, s: seq<byte>) {
    exists litLens, distLens, bytes :: Written(ts, litLens, distLens, bytes) && s == BlockBytes(|ts|, bytes)
  }

  /** `bytes` hold the bits of the block, the last byte filled up with zeros. */
  ghost predicate Written(ts: seq<Token>, litLens: seq<nat>, distLens: seq<nat>, bytes: seq<byte>) {
    Encodes(ts, litLens, distLens) && bytes == BytesOf(BlockBits(litLens, distLens, ts))
  }

  function BlockBytes(count: nat, bytes: seq<byte>): (s: seq<byte>)
    ensures |s| == 8 + |bytes|
  {
    PutWord(count) + PutWord(|bytes|) + bytes
  }

  ghost predicate StartsWithBlock(chunk: seq<Token>, s: seq<byte>, k: nat) {
    k <= |s| && IsBlock(chunk, s[..k])
  }

  /** The tokens in blocks of `sizes` bytes each, header words included. */
  ghost predicate IsBlocks(ts: seq<Token>, blockSize: nat, s: seq<byte>, sizes: seq<nat>)
    decreases |ts|
  {
    if ts == [] then s == [] && sizes == []
    else
      var n := ChunkLength(ts, blockSize);
      && n > 0 && sizes != [] && StartsWithBlock(ts[..n], s, sizes[0])
      && IsBlocks(ts[n..], blockSize, s[sizes[0]..], sizes[1..])
  }

  /** Header and blocks. */
  ghost predicate Laid(ts: seq<Token>, blockSize: nat, payload: seq<byte>, sizes: seq<nat>)
    requires ts != [] ==> blockSize > 0
  {
    && |payload| >= 8
    && payload[..8] == PutWord(|ts|) + PutWord(BlockCount(|ts|, blockSize))
    && IsBlocks(ts, blockSize, payload[8..], sizes)
  }

  ghost predicate IsPayload(ts: seq<Token>, blockSize: nat, payload: seq<byte>)
    requires ts != [] ==> blockSize > 0
  {
    exists sizes :: Laid(ts, blockSize, payload, sizes)
  }

  /** Every block's byte count fits its 32-bit word. */
  ghost predicate SizesFit(sizes: seq<nat>) {
    forall k :: 0 <= k < |sizes| ==> sizes[k] < 8 + WORD
  }

  // ------------------------------------------------------------ the payload as a function

  /** The one block of these tokens. */
  ghost function BlockOf(ts: seq<Token>): seq<byte>
    requires AllValid(ts) && |ts| < FREQ_LIMIT
  {
    FrequenciesEncode(ts);
    BlockBytes(|ts|, BytesOf(BlockBits(LengthsFor(LitFreqs(ts)), LengthsFor(DistFreqs(ts)), ts)))
  }

  lemma BlockOfThem(ts: seq<Token>)
    requires AllValid(ts) && |ts| < FREQ_LIMIT
    ensures IsBlock(ts, BlockOf(ts))
  {
    hide BlockBits, Usable, CodePair, AllHaveCodes, AllValid, Canonical, LengthsFor, LitFreqs, DistFreqs, BytesOf;
    FrequenciesEncode(ts);
    var litLens, distLens := LengthsFor(LitFreqs(ts)), LengthsFor(DistFreqs(ts));
    assert Written(ts, litLens, distLens, BytesOf(BlockBits(litLens, distLens, ts)));
  }

  lemma BlockUnique(ts: seq<Token>, s: seq<byte>)
    requires IsBlock(ts, s) && |ts| < FREQ_LIMIT
    ensures AllValid(ts) && s == BlockOf(ts)
  {
    hide BlockBits, Usable, CodePair, AllHaveCodes, AllValid, Canonical, LengthsFor, LitFreqs, DistFreqs, BytesOf;
  }

  /** The blocks of a list of tokens and the bytes each takes. */
  ghost function BlocksOf(ts: seq<Token>, blockSize: nat): (r: (seq<byte>, seq<nat>))
    requires AllValid(ts) && |ts| < FREQ_LIMIT && (ts != [] ==> blockSize > 0)
    decreases |ts|
  {
    hide *;
    if ts == [] then ([], [])
    else
      var n := ChunkLength(ts, blockSize);
      PartsValid(ts, n);
      var block, later := BlockOf(ts[..n]), BlocksOf(ts[n..], blockSize);
      (block + later.0, [|block|] + later.1)
  }

  lemma {:induction false} BlocksOfThem(ts: seq<Token>, blockSize: nat)
    requires AllValid(ts) && |ts| < FREQ_LIMIT && (ts != [] ==> blockSize > 0)
    ensures IsBlocks(ts, blockSize, BlocksOf(ts, blockSize).0, BlocksOf(ts, blockSize).1)
    decreases |ts|
  {
    hide IsBlock, BlockOf, AllValid;
    if ts != [] {
      var n := ChunkLength(ts, blockSize);
      PartsValid(ts, n);
      var block, later := BlockOf(ts[..n]), BlocksOf(ts[n..], blockSize);
      BlockOfThem(ts[..n]);
      BlocksOfThem(ts[n..], blockSize);
      assert (block + later.0)[..|block|] == block && (block + later.0)[|block|..] == later.0;
      assert ([|block|] + later.1)[1..] == later.1;
    }
  }

  lemma PartsValid(ts: seq<Token>, n: nat)
    requires AllValid(ts) && n <= |ts|
    ensures AllValid(ts[..n]) && AllValid(ts[n..])
  {
  }

  lemma {:induction false} BlocksUnique(ts: seq<Token>, blockSize: nat, s: seq<byte>, sizes: seq<nat>)
    requires AllValid(ts) && |ts| < FREQ_LIMIT && (ts != [] ==> blockSize > 0)
    requires IsBlocks(ts, blockSize, s, sizes)
    ensures BlocksOf(ts, blockSize) == (s, sizes)
    decreases |ts|
  {
    hide IsBlock, BlockOf, AllValid;
    if ts != [] {
      var n, k := ChunkLength(ts, blockSize), sizes[0];
      PartsValid(ts, n);
      BlockUnique(ts[..n], s[..k]);
      BlocksUnique(ts[n..], blockSize, s[k..], sizes[1..]);
      assert s[..k] + s[k..] == s && [k] + sizes[1..] == sizes;
    }
  }

  /** What is written for the tokens in blocks of this size. */
  ghost function PayloadOf(ts: seq<Token>, blockSize: nat): seq<byte>
    requires AllValid(ts) && |ts| < FREQ_LIMIT && (ts != [] ==> blockSize > 0)
  {
    PutWord(|ts|) + PutWord(BlockCount(|ts|, blockSize)) + BlocksOf(ts, blockSize).0
  }

  /** Tokens and block size settle every byte. */
  lemma PayloadUnique(ts: seq<Token>, blockSize: nat, payload: seq<byte>)
    requires AllValid(ts) && |ts| < FREQ_LIMIT && (ts != [] ==> blockSize > 0)
    ensures IsPayload(ts, blockSize, payload) <==> payload == PayloadOf(ts, blockSize)
  {
    hide AllValid, IsBlocks, BlocksOf, PutWord, BlockCount;
    BlocksOfThem(ts, blockSize);
    var s := PayloadOf(ts, blockSize);
    assert s[..8] == PutWord(|ts|) + PutWord(BlockCount(|ts|, blockSize)) && s[8..] == BlocksOf(ts, blockSize).0;
    assert Laid(ts, blockSize, s, BlocksOf(ts, blockSize).1);
    if IsPayload(ts, blockSize, payload) {
      var sizes :| Laid(ts, blockSize, payload, sizes);
      BlocksUnique(ts, blockSize, payload[8..], sizes);
      assert payload == payload[..8] + payload[8..];
    }
  }

  // ------------------------------------------------------------ decoding, for any payload

  function WordAt(payload: seq<byte>, pos: nat): nat
    requires pos + 4 <= |payload|
  {
    GetWord(payload[pos..pos + 4])
  }

  ghost function DecodeBlocks(payload: seq<byte>, pos: nat, blocks: nat, out: seq<Token>): Option<seq<Token>>
    decreases blocks, pos
  {
    if blocks == 0 then Some(out)
    else if |payload| < pos + 8 then None
    else
      var count, length := WordAt(payload, pos), WordAt(payload, pos + 4);
      if |payload| < pos + 8 + length then None
      else
        var ts := GetBlock(BitsOf(payload[pos + 8..pos + 8 + length]), count);
        if ts.None? then None else DecodeBlocks(payload, pos + 8 + length, blocks - 1, out + ts.value)
  }

  /** `huffman_decode_blocked_checked`; the total token count is read but not used. */
  ghost function Decoded(payload: seq<byte>): Option<seq<Token>> {
    if |payload| < 8 then None else DecodeBlocks(payload, 8, WordAt(payload, 4), [])
  }

  // ------------------------------------------------------------ round trip

  lemma BlockFields(payload: seq<byte>, pos: nat, count: nat, bytes: seq<byte>, k: nat)
    requires count < WORD && |bytes| < WORD
    requires pos + k <= |payload| && payload[pos..][..k] == BlockBytes(count, bytes)
    ensures k == 8 + |bytes| && WordAt(payload, pos) == count && WordAt(payload, pos + 4) == |bytes|
    ensures payload[pos + 8..pos + 8 + |bytes|] == bytes
  {
    hide PutWord, GetWord;
    var s := payload[pos..][..k];
    WordRoundTrip(count);
    WordRoundTrip(|bytes|);
    assert payload[pos..pos + 4] == s[0..4] == PutWord(count);
    assert payload[pos + 4..pos + 8] == s[4..8] == PutWord(|bytes|);
    assert payload[pos + 8..pos + 8 + |bytes|] == s[8..] == bytes;
  }

  lemma BlockDecodes(payload: seq<byte>, pos: nat, chunk: seq<Token>, k: nat)
    requires pos <= |payload| && StartsWithBlock(chunk, payload[pos..], k) && 0 < |chunk| < WORD && k < 8 + WORD
    ensures |payload| >= pos + 8 && k == 8 + WordAt(payload, pos + 4) && pos + k <= |payload|
    ensures WordAt(payload, pos) == |chunk|
    ensures GetBlock(BitsOf(payload[pos + 8..pos + k]), |chunk|) == Some(chunk)
  {
    hide Encodes, BlockBits, GetBlock, BitsOf, WordAt;
    var litLens, distLens, bytes :| Written(chunk, litLens, distLens, bytes) && payload[pos..][..k] == BlockBytes(|chunk|, bytes);
    BlockFields(payload, pos, |chunk|, bytes, k);
    WrittenDecodes(chunk, litLens, distLens, bytes);
  }

  /** What a written block decodes to. */
  lemma WrittenDecodes(ts: seq<Token>, litLens: seq<nat>, distLens: seq<nat>, bytes: seq<byte>)
    requires Written(ts, litLens, distLens, bytes) && ts != []
    ensures GetBlock(BitsOf(bytes), |ts|) == Some(ts)
  {
    hide BlockBits, Usable, CodePair, AllHaveCodes, AllValid, Canonical, GetBlock, BitsOf, LengthsFor, LitFreqs, DistFreqs;
    BytesOfFits(BlockBits(litLens, distLens, ts));
    BlockRoundTrip(litLens, distLens, ts, BitsOf(bytes));
  }

  /** A block takes few bytes for each token. */
  lemma StartsSmall(chunk: seq<Token>, s: seq<byte>, k: nat)
    requires StartsWithBlock(chunk, s, k)
    ensures 8 <= k <= |s| && k <= 176 + 7 * |chunk|
  {
    hide BlockBits, Usable, CodePair, AllHaveCodes, AllValid, Canonical, BitsOf, LengthsFor, LitFreqs, DistFreqs;
    var litLens, distLens, bytes :| Written(chunk, litLens, distLens, bytes) && s[..k] == BlockBytes(|chunk|, bytes);
    BlockSize(litLens, distLens, chunk);
  }

  /** Blocks of this many tokens always fit. */
  const BLOCK_LIMIT: nat := 0x2000_0000

  lemma {:induction false} SmallBlocksFit(ts: seq<Token>, blockSize: nat, s: seq<byte>, sizes: seq<nat>)
    requires IsBlocks(ts, blockSize, s, sizes) && (blockSize <= BLOCK_LIMIT || |ts| <= BLOCK_LIMIT)
    ensures SizesFit(sizes)
    decreases |ts|
  {
    hide StartsWithBlock;
    if ts != [] {
      var n := ChunkLength(ts, blockSize);
      StartsSmall(ts[..n], s, sizes[0]);
      SmallBlocksFit(ts[n..], blockSize, s[sizes[0]..], sizes[1..]);
    }
  }

  lemma CountDown(n: nat, b: nat)
    requires n > 0 && b > 0
    ensures BlockCount(n, b) > 0
    ensures BlockCount(if n < b then 0 else n - b, b) == BlockCount(n, b) - 1
    ensures BlockCount(n, b) <= n
  {
    if n <= b {
      QuotientIs(n + b - 1, b, 1);
    } else {
      QuotientNext(n - 1, b);
    }
    QuotientAtMost(n, b);
  }

  lemma QuotientNext(v: nat, b: nat)
    requires b > 0
    ensures (v + b) / b == v / b + 1
  {
    assert v == b * (v / b) + v % b;
    MulAdd(v / b, 1, b);
    QuotientIs(v + b, b, v / b + 1);
  }

  lemma QuotientAtMost(n: nat, b: nat)
    requires n > 0 && b > 0
    ensures (n + b - 1) / b <= n
  {
    var q := (n + b - 1) / b;
    assert n + b - 1 == b * q + (n + b - 1) % b;
    if q > n {
      MulLe(b, b, n + 1, q);
      MulAdd(n, 1, b);
      MulLe(1, b, n, n);
    }
  }

  lemma QuotientIs(v: nat, p: nat, q: nat)
    requires p > 0 && p * q <= v < p * q + p
    ensures v / p == q
  {
    ModUnique(v, p, q, v - p * q);
  }

  lemma {:induction false} BlocksDecode(payload: seq<byte>, pos: nat, ts: seq<Token>, blockSize: nat, sizes: seq<nat>, blocks: nat, out: seq<Token>)
    requires pos <= |payload| && IsBlocks(ts, blockSize, payload[pos..], sizes) && SizesFit(sizes)
    requires (ts != [] ==> 0 < blockSize) && |ts| < WORD && blocks == BlockCount(|ts|, blockSize)
    ensures DecodeBlocks(payload, pos, blocks, out) == Some(out + ts)
    decreases |ts|
  {
    hide StartsWithBlock, GetBlock, BitsOf, BlockCount, WordAt;
    if ts == [] {
      NoCount(blockSize);
      assert out + ts == out;
    } else {
      var n, k := ChunkLength(ts, blockSize), sizes[0];
      CountDown(|ts|, blockSize);
      BlockDecodes(payload, pos, ts[..n], k);
      assert payload[pos..][k..] == payload[pos + k..];
      BlocksDecode(payload, pos + k, ts[n..], blockSize, sizes[1..], blocks - 1, out + ts[..n]);
      assert out + ts[..n] + ts[n..] == out + ts;
    }
  }

  lemma NoCount(blockSize: nat)
    ensures BlockCount(0, blockSize) == 0
  {
  }

  lemma {:induction false} CountAtMost(n: nat, b: nat)
    requires n > 0 ==> b > 0
    ensures BlockCount(n, b) <= n
  {
    if n > 0 {
      CountDown(n, b);
    }
  }

  /** Encoding in blocks and decoding returns the tokens whenever every block's byte count
      fits its word. */
  lemma BlockedRoundTrip(ts: seq<Token>, blockSize: nat, payload: seq<byte>, sizes: seq<nat>)
    requires ts != [] ==> blockSize > 0
    requires |ts| < WORD && Laid(ts, blockSize, payload, sizes) && SizesFit(sizes)
    ensures Decoded(payload) == Some(ts)
  {
    hide IsBlocks, PutWord, GetWord, DecodeBlocks, BlockCount, SizesFit;
    CountAtMost(|ts|, blockSize);
    WordRoundTrip(BlockCount(|ts|, blockSize));
    assert payload[4..8] == payload[..8][4..8] == PutWord(BlockCount(|ts|, blockSize));
    BlocksDecode(payload, 8, ts, blockSize, sizes, BlockCount(|ts|, blockSize), []);
    assert [] + ts == ts;
  }

  /** Blocks of at most BLOCK_LIMIT tokens fit whatever the tokens are. */
  lemma SmallBlocksRoundTrip(ts: seq<Token>, blockSize: nat, payload: seq<byte>)
    requires ts != [] ==> blockSize > 0
    requires |ts| < WORD && IsPayload(ts, blockSize, payload) && (blockSize <= BLOCK_LIMIT || |ts| <= BLOCK_LIMIT)
    ensures Decoded(payload) == Some(ts)
  {
    hide IsBlocks, PutWord, BlockCount, Decoded, SizesFit;
    var sizes :| Laid(ts, blockSize, payload, sizes);
    SmallBlocksFit(ts, blockSize, payload[8..], sizes);
    BlockedRoundTrip(ts, blockSize, payload, sizes);
  }

  // ------------------------------------------------------------ as it runs

  lemma {:induction false} BlocksSnoc(a: seq<Token>, blockSize: nat, s: seq<byte>, sizes: seq<nat>, chunk: seq<Token>, block: seq<byte>)
    requires blockSize > 0 && IsBlocks(a, blockSize, s, sizes) && WholeBlocks(a, blockSize)
    requires 0 < |chunk| <= blockSize && IsBlock(chunk, block)
    ensures IsBlocks(a + chunk, blockSize, s + block, sizes + [|block|])
    decreases |a|
  {
    hide IsBlock;
    var ts, all := a + chunk, sizes + [|block|];
    var n := ChunkLength(ts, blockSize);
    if a == [] {
      assert ts[..n] == chunk && ts[n..] == [] && all[1..] == [];
      assert (s + block)[..|block|] == block && (s + block)[|block|..] == [];
    } else {
      var k := sizes[0];
      BlocksSnoc(a[n..], blockSize, s[k..], sizes[1..], chunk, block);
      assert ts[..n] == a[..n] && ts[n..] == a[n..] + chunk && all[1..] == sizes[1..] + [|block|];
      assert (s + block)[..k] == s[..k] && (s + block)[k..] == s[k..] + block;
    }
  }

  /** The list splits into blocks of exactly the block size. */
  ghost predicate WholeBlocks(a: seq<Token>, blockSize: nat)
    decreases |a|
  {
    a == [] || (0 < blockSize <= |a| && WholeBlocks(a[blockSize..], blockSize))
  }

  lemma {:induction false} WholeSnoc(a: seq<Token>, blockSize: nat, chunk: seq<Token>)
    requires WholeBlocks(a, blockSize) && |chunk| == blockSize > 0
    ensures WholeBlocks(a + chunk, blockSize)
    decreases |a|
  {
    if a == [] {
      assert (a + chunk)[blockSize..] == [];
    } else {
      WholeSnoc(a[blockSize..], blockSize, chunk);
      assert (a + chunk)[blockSize..] == a[blockSize..] + chunk;
    }
  }

  lemma BlockMade(chunk: seq<Token>, litLens: seq<nat>, distLens: seq<nat>, bytes: seq<byte>)
    requires Written(chunk, litLens, distLens, bytes)
    ensures IsBlock(chunk, BlockBytes(|chunk|, bytes))
  {
  }

  /** One block, bits and all. */
  method WriteBlock(chunk: seq<Token>) returns (block: seq<byte>)
    requires AllValid(chunk) && |chunk| < FREQ_LIMIT
    ensures IsBlock(chunk, block)
  {
    hide BitWriter.Valid, BlockBits, BitsOf, Usable, CodePair, AllHaveCodes, Canonical, LengthsFor, LitFreqs, DistFreqs;
    var writer := new BitWriter();
    var litLens, distLens := EncodeBlock(chunk, writer);
    assert [] + BlockBits(litLens, distLens, chunk) == BlockBits(litLens, distLens, chunk);
    var bytes := writer.Finish();
    BlockMade(chunk, litLens, distLens, bytes);
    block := PutWord(|chunk|) + PutWord(|bytes|) + bytes;
  }

  /** `huffman_encode_blocked`. */
  method EncodeBlocked(ts: seq<Token>, blockSize: nat) returns (result: seq<byte>, ghost sizes: seq<nat>)
    requires AllValid(ts) && (ts != [] ==> blockSize > 0) && |ts| < FREQ_LIMIT
    ensures Laid(ts, blockSize, result, sizes) && result == PayloadOf(ts, blockSize)
  {
    hide IsBlocks, IsBlock, WholeBlocks, PutWord, BlockCount, PayloadOf;
    var header := PutWord(|ts|) + PutWord(BlockCount(|ts|, blockSize));
    result, sizes := header, [];
    NoBlocks(blockSize, result);
    var start := 0;
    while start < |ts|
      invariant 0 <= start <= |ts|
      invariant start < |ts| ==> WholeBlocks(ts[..start], blockSize)
      invariant |result| >= 8 && result[..8] == header && IsBlocks(ts[..start], blockSize, result[8..], sizes)
    {
      var end := start + ChunkLength(ts[start..], blockSize);
      var chunk := ts[start..end];
      var block := WriteBlock(chunk);
      BlocksSnoc(ts[..start], blockSize, result[8..], sizes, chunk, block);
      assert ts[..start] + chunk == ts[..end];
      if end < |ts| {
        WholeSnoc(ts[..start], blockSize, chunk);
      }
      assert (result + block)[8..] == result[8..] + block;
      result, sizes := result + block, sizes + [|block|];
      start := end;
    }
    assert ts[..start] == ts;
    LaidIs(ts, blockSize, result, sizes);
  }

  lemma LaidIs(ts: seq<Token>, blockSize: nat, payload: seq<byte>, sizes: seq<nat>)
    requires AllValid(ts) && |ts| < FREQ_LIMIT && (ts != [] ==> blockSize > 0) && Laid(ts, blockSize, payload, sizes)
    ensures IsPayload(ts, blockSize, payload) && payload == PayloadOf(ts, blockSize)
  {
    hide AllValid, PayloadOf, Laid;
    PayloadUnique(ts, blockSize, payload);
  }

  lemma NoBlocks(blockSize: nat, result: seq<byte>)
    requires |result| == 8
    ensures IsBlocks([], blockSize, result[8..], []) && WholeBlocks([], blockSize)
  {
  }

  method DecodeBlocked(data: seq<byte>) returns (r: Option<seq<Token>>)
    ensures r == Decoded(data)
  {
    hide GetBlock, BitsOf;
    if |data| < 8 {
      return None;
    }
    var blocks := WordAt(data, 4);
    var tokens: seq<Token> := [];
    var pos := 8;
    for b := 0 to blocks
      invariant DecodeBlocks(data, pos, blocks - b, tokens) == Decoded(data)
    {
      if |data| < pos + 8 {
        return None;
      }
      var count, length := WordAt(data, pos), WordAt(data, pos + 4);
      if |data| < pos + 8 + length {
        return None;
      }
      var ts := DecodeBlock(data[pos + 8..pos + 8 + length], count);
      if ts.None? {
        return None;
      }
      tokens := tokens + ts.value;
      pos := pos + 8 + length;
    }
    r := Some(tokens);
  }

  /** Encode, then decode. */
  method RoundTrip(ts: seq<Token>, blockSize: nat) returns (back: Option<seq<Token>>, ghost sizes: seq<nat>)
    requires AllValid(ts) && (ts != [] ==> blockSize > 0) && |ts| < WORD
    ensures SizesFit(sizes) ==> back == Some(ts)
    ensures blockSize <= BLOCK_LIMIT || |ts| <= BLOCK_LIMIT ==> SizesFit(sizes)
  {
    hide IsBlocks, Decoded, SizesFit, PutWord, BlockCount;
    var payload;
    payload, sizes := EncodeBlocked(ts, blockSize);
    back := DecodeBlocked(payload);
    if SizesFit(sizes) {
      BlockedRoundTrip(ts, blockSize, payload, sizes);
    }
    if blockSize <= BLOCK_LIMIT || |ts| <= BLOCK_LIMIT {
      SmallBlocksFit(ts, blockSize, payload[8..], sizes);
    }
  }
}
