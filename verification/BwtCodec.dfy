/** The block container around the transform and its entropy coder. */
module BwtCodec {
  import opened Bytes
  import opened Bwt
  import opened CarrylessCoder
  import opened ContextMixing

  const BLOCK_SIZE: nat := 0x40_0000

  function ChunkLength(data: seq<byte>): (n: nat)
    ensures n <= |data| && n <= BLOCK_SIZE && (data != [] ==> n > 0)
  {
    if |data| < BLOCK_SIZE then |data| else BLOCK_SIZE
  }

  function ChunkCount(n: nat): nat {
    (n + BLOCK_SIZE - 1) / BLOCK_SIZE
  }

  function BlockBytes(index: nat, size: nat, coded: seq<byte>): (s: seq<byte>)
    ensures |s| == 12 + |coded|
  {
    PutWord(index) + PutWord(size) + PutWord(|coded|) + coded
  }

  function Coded(bwt: seq<byte>): seq<byte> {
    EncodeBytes(CM, Initial(), bwt)
  }

  ghost predicate IsBlock(chunk: seq<byte>, s: seq<byte>) {
    exists rows, bwt, index :: IsBwt(chunk, rows, bwt, index) && s == BlockBytes(index, |chunk|, Coded(bwt))
  }

  ghost predicate IsBlocks(data: seq<byte>, s: seq<byte>)
    decreases |data|
  {
    if data == [] then s == []
    else exists k: nat :: k <= |s| && StartsWithBlock(data[..ChunkLength(data)], s, k) && IsBlocks(data[ChunkLength(data)..], s[k..])
  }

  ghost predicate StartsWithBlock(chunk: seq<byte>, s: seq<byte>, k: nat) {
    k <= |s| && IsBlock(chunk, s[..k])
  }

  /** What compression writes: both header words truncated to 32 bits, then the blocks. */
  ghost predicate IsPayload(data: seq<byte>, payload: seq<byte>) {
    && |payload| >= 8
    && payload[..8] == PutWord(|data|) + PutWord(ChunkCount(|data|))
    && IsBlocks(data, payload[8..])
  }

  // ------------------------------------------------------------ decoding, for any payload

  function WordAt(payload: seq<byte>, pos: nat): nat {
    if pos + 4 <= |payload| then GetWord(payload[pos..pos + 4]) else 0
  }

  /** A block is taken only when it is whole, within the block size, has a row index
      in range and stays within the declared length; else decoding stops. */
  predicate Acceptable(payload: seq<byte>, pos: nat, have: nat, declared: nat) {
    && pos + 12 <= |payload|
    && var index, size, length := WordAt(payload, pos), WordAt(payload, pos + 4), WordAt(payload, pos + 8);
       && pos + 12 + length <= |payload|
       && size <= BLOCK_SIZE && index != 0 && index <= size && have + size <= declared
  }

  ghost function DecodedBlock(payload: seq<byte>, pos: nat, have: nat, declared: nat): (d: seq<byte>)
    requires Acceptable(payload, pos, have, declared)
    ensures |d| == WordAt(payload, pos + 4)
  {
    var index, size, length := WordAt(payload, pos), WordAt(payload, pos + 4), WordAt(payload, pos + 8);
    Inverse(DecodeBytes(CM, Initial(), payload[pos + 12..pos + 12 + length], size), index)
  }

  ghost function DecodeBlocks(payload: seq<byte>, pos: nat, blocks: nat, out: seq<byte>, declared: nat): seq<byte>
    decreases blocks, pos
  {
    if blocks == 0 || !Acceptable(payload, pos, |out|, declared) then out
    else DecodeBlocks(payload, pos + 12 + WordAt(payload, pos + 8), blocks - 1,
                      out + DecodedBlock(payload, pos, |out|, declared), declared)
  }

  ghost function Decompressed(payload: seq<byte>): seq<byte> {
    DecodeBlocks(payload, 8, WordAt(payload, 4), [], WordAt(payload, 0))
  }

  lemma {:induction false} WithinDeclared(payload: seq<byte>, pos: nat, blocks: nat, out: seq<byte>, declared: nat)
    requires |out| <= declared
    ensures |DecodeBlocks(payload, pos, blocks, out, declared)| <= declared
    decreases blocks
  {
    hide DecodedBlock;
    if blocks > 0 && Acceptable(payload, pos, |out|, declared) {
      WithinDeclared(payload, pos + 12 + WordAt(payload, pos + 8), blocks - 1,
                     out + DecodedBlock(payload, pos, |out|, declared), declared);
    }
  }

  /** No payload decodes past the length it declares. */
  lemma NeverExceedsDeclared(payload: seq<byte>)
    ensures |Decompressed(payload)| <= WordAt(payload, 0)
  {
    WithinDeclared(payload, 8, WordAt(payload, 4), [], WordAt(payload, 0));
  }

  // ------------------------------------------------------------ round trip

  lemma BlockFields(payload: seq<byte>, pos: nat, index: nat, size: nat, coded: seq<byte>, k: nat)
    requires index < WORD && size < WORD && |coded| < WORD
    requires pos + k <= |payload| && payload[pos..][..k] == BlockBytes(index, size, coded)
    ensures k == 12 + |coded|
    ensures WordAt(payload, pos) == index && WordAt(payload, pos + 4) == size && WordAt(payload, pos + 8) == |coded|
    ensures payload[pos + 12..pos + 12 + |coded|] == coded
  {
    hide PutWord, GetWord;
    var s := payload[pos..][..k];
    WordRoundTrip(index);
    WordRoundTrip(size);
    WordRoundTrip(|coded|);
    assert payload[pos..pos + 4] == s[0..4] == PutWord(index);
    assert payload[pos + 4..pos + 8] == s[4..8] == PutWord(size);
    assert payload[pos + 8..pos + 12] == s[8..12] == PutWord(|coded|);
    assert payload[pos + 12..pos + 12 + |coded|] == s[12..] == coded;
  }

  /** A block decodes to the chunk it was made from. */
  lemma BlockDecodes(payload: seq<byte>, pos: nat, chunk: seq<byte>, k: nat, have: nat, declared: nat)
    requires pos <= |payload| && StartsWithBlock(chunk, payload[pos..], k)
    requires |chunk| <= BLOCK_SIZE && have + |chunk| <= declared
    ensures Acceptable(payload, pos, have, declared) && WordAt(payload, pos + 8) + 12 == k
    ensures DecodedBlock(payload, pos, have, declared) == chunk
  {
    hide IsBwt, WordAt, BlockBytes, EncodeBytes, DecodeBytes, Inverse, Initial;
    var rows, bwt, index :| IsBwt(chunk, rows, bwt, index) && payload[pos..][..k] == BlockBytes(index, |chunk|, Coded(bwt));
    BwtLength(chunk, rows, bwt, index);
    EncodedSize(CM, Initial(), bwt);
    BlockFields(payload, pos, index, |chunk|, Coded(bwt), k);
    CarrylessRoundTrip(CM, Initial(), bwt);
    BwtRoundTrip(chunk, rows, bwt, index);
  }

  lemma {:induction false} BlocksDecode(payload: seq<byte>, pos: nat, data: seq<byte>, blocks: nat, out: seq<byte>, declared: nat)
    requires pos <= |payload| && IsBlocks(data, payload[pos..])
    requires |out| + |data| <= declared && blocks == ChunkCount(|data|)
    ensures DecodeBlocks(payload, pos, blocks, out, declared) == out + data
    decreases |data|
  {
    hide StartsWithBlock, Acceptable, DecodedBlock;
    if data == [] {
      assert out + data == out;
    } else {
      var n := ChunkLength(data);
      var k: nat :| k <= |payload[pos..]| && StartsWithBlock(data[..n], payload[pos..], k) && IsBlocks(data[n..], payload[pos..][k..]);
      assert payload[pos..][k..] == payload[pos + k..];
      BlockDecodes(payload, pos, data[..n], k, |out|, declared);
      BlocksDecode(payload, pos + k, data[n..], blocks - 1, out + data[..n], declared);
      assert out + data[..n] + data[n..] == out + data;
    }
  }

  lemma HeaderFields(data: seq<byte>, payload: seq<byte>)
    requires IsPayload(data, payload)
    ensures WordAt(payload, 0) == |data| % WORD
    ensures |data| < WORD ==> WordAt(payload, 4) == ChunkCount(|data|)
  {
    hide PutWord, GetWord, IsBlocks;
    WordRoundTrip(|data| % WORD);
    PutWordTruncates(|data|);
    assert payload[0..4] == payload[..8][0..4] == PutWord(|data|);
    assert payload[4..8] == payload[..8][4..8] == PutWord(ChunkCount(|data|));
    if |data| < WORD {
      WordRoundTrip(ChunkCount(|data|));
    }
  }

  lemma PutWordTruncates(v: nat)
    ensures PutWord(v) == PutWord(v % WORD)
  {
    hide PutWord;
    var q, r := v / WORD, v % WORD;
    assert v == WORD * q + r;
    var v1, r1 := v / 256, r / 256;
    assert v1 == 0x100_0000 * q + r1;
    var v2, r2 := v1 / 256, r1 / 256;
    assert v2 == 0x1_0000 * q + r2;
    var v3, r3 := v2 / 256, r2 / 256;
    assert v3 == 256 * q + r3;
    Halves(v, v1, v2, v3);
    Halves(r, r1, r2, r3);
  }

  lemma Halves(v: nat, v1: nat, v2: nat, v3: nat)
    requires v1 == v / 256 && v2 == v1 / 256 && v3 == v2 / 256
    ensures PutWord(v) == [v % 256, v1 % 256, v2 % 256, v3 % 256]
  {
  }

  /** Decompression returns the data exactly when its length fits the 32-bit header. */
  lemma ContainerRoundTrip(data: seq<byte>, payload: seq<byte>)
    requires IsPayload(data, payload)
    ensures Decompressed(payload) == data <==> |data| < WORD
  {
    hide IsBlocks, DecodeBlocks, WordAt;
    HeaderFields(data, payload);
    if |data| < WORD {
      BlocksDecode(payload, 8, data, ChunkCount(|data|), [], |data|);
      assert [] + data == data;
    } else {
      NeverExceedsDeclared(payload);
    }
  }

  // ------------------------------------------------------------ as it runs

  lemma {:induction false} BlocksSnoc(a: seq<byte>, s: seq<byte>, chunk: seq<byte>, block: seq<byte>)
    requires IsBlocks(a, s) && |a| % BLOCK_SIZE == 0 && 0 < |chunk| <= BLOCK_SIZE && IsBlock(chunk, block)
    ensures IsBlocks(a + chunk, s + block)
    decreases |a|
  {
    hide IsBlock;
    var data := a + chunk;
    var n := ChunkLength(data);
    if a == [] {
      assert data[..n] == chunk && data[n..] == [];
      assert StartsWithBlock(chunk, s + block, |block|) by {
        assert (s + block)[..|block|] == block;
      }
      assert (s + block)[|block|..] == [];
    } else {
      var k: nat :| k <= |s| && StartsWithBlock(a[..ChunkLength(a)], s, k) && IsBlocks(a[ChunkLength(a)..], s[k..]);
      assert ChunkLength(a) == n == BLOCK_SIZE;
      BlocksSnoc(a[n..], s[k..], chunk, block);
      assert data[..n] == a[..n] && data[n..] == a[n..] + chunk;
      assert (s + block)[..k] == s[..k] && (s + block)[k..] == s[k..] + block;
      assert StartsWithBlock(data[..n], s + block, k);
    }
  }

  method Compress(data: seq<byte>) returns (out: seq<byte>)
    ensures IsPayload(data, out)
  {
    hide IsBlocks, IsBwt, EncodeBytes, PutWord, BlockBytes, Initial;
    var header := PutWord(|data|) + PutWord(ChunkCount(|data|));
    out := header;
    var start := 0;
    NoBlocks(out);
    while start < |data|
      invariant 0 <= start <= |data| && (start % BLOCK_SIZE == 0 || start == |data|)
      invariant |out| >= 8 && out[..8] == header && IsBlocks(data[..start], out[8..])
    {
      var end := start + ChunkLength(data[start..]);
      var chunk := data[start..end];
      var bwt, index, rows := BwtForward(chunk);
      var coded := EncodeBlock(bwt);
      var block := PutWord(index) + PutWord(|chunk|) + PutWord(|coded|) + coded;
      BlockMade(chunk, rows, bwt, index, block);
      BlocksSnoc(data[..start], out[8..], chunk, block);
      assert data[..start] + chunk == data[..end];
      assert (out + block)[8..] == out[8..] + block;
      out := out + block;
      start := end;
    }
    assert data[..start] == data;
  }

  lemma NoBlocks(out: seq<byte>)
    requires |out| == 8
    ensures IsBlocks([], out[8..])
  {
  }

  lemma BlockMade(chunk: seq<byte>, rows: seq<nat>, bwt: seq<byte>, index: nat, block: seq<byte>)
    requires IsBwt(chunk, rows, bwt, index)
    requires block == PutWord(index) + PutWord(|chunk|) + PutWord(|Coded(bwt)|) + Coded(bwt)
    ensures IsBlock(chunk, block)
  {
    hide IsBwt, Coded;
    assert block == BlockBytes(index, |chunk|, Coded(bwt));
  }

  method Decompress(payload: seq<byte>) returns (output: seq<byte>)
    ensures output == Decompressed(payload)
  {
    hide Inverse, DecodeBytes, Initial, WordAt;
    var originalLen := WordAt(payload, 0);
    var numBlocks := WordAt(payload, 4);
    ghost var goal := Decompressed(payload);
    output := [];
    var pos := 8;
    var b := 0;
    while b < numBlocks
      invariant 0 <= b <= numBlocks
      invariant DecodeBlocks(payload, pos, numBlocks - b, output, originalLen) == goal
    {
      if |payload| < pos + 12 {
        return;
      }
      var index, size, length := WordAt(payload, pos), WordAt(payload, pos + 4), WordAt(payload, pos + 8);
      if |payload| < pos + 12 + length {
        return;
      }
      if size > BLOCK_SIZE || index == 0 || index > size || |output| + size > originalLen {
        return;
      }
      var bwt := DecodeBlock(payload[pos + 12..pos + 12 + length], size);
      var block := BwtInverse(bwt, index);
      output := output + block;
      pos := pos + 12 + length;
      b := b + 1;
    }
  }

  /** Compress, then decompress, for any input the header can describe. */
  method RoundTripBlocks(data: seq<byte>) returns (back: seq<byte>)
    ensures back == data <==> |data| < WORD
  {
    hide IsPayload, Decompressed;
    var payload := Compress(data);
    back := Decompress(payload);
    ContainerRoundTrip(data, payload);
  }
}
