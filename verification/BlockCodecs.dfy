/** The two LZ77-based block codecs of the container, from bytes to bytes. */
module BlockCodecs {
  import opened Bytes
  import opened Tokens
  import opened LzTokens
  import opened Sequences
  import HashChains
  import Lz77
  import Lzma
  import LzmaCodec
  import OptimalParse
  import HuffmanTree
  import HuffmanBlock
  import HuffmanContainer

  // ------------------------------------------------------------ LZ77 + blocked Huffman

  /** No token stands for less than a byte. */
  lemma {:induction false} NoMoreTokens(tokens: seq<Token>)
    requires Lz77.Meaning(tokens).Some? && HuffmanBlock.AllValid(tokens)
    ensures |tokens| <= |Lz77.Meaning(tokens).value|
    decreases |tokens|
  {
    if tokens != [] {
      var m := |tokens| - 1;
      Lz77.MeaningGrows(tokens, m);
      NoMoreTokens(tokens[..m]);
      assert ValidToken(tokens[m]);
    }
  }

  const BASELINE_BLOCKS: seq<nat> := [8192, 16384, 4096]

  /** What a new LZ77 encoder makes of the data, in blocks of three sizes. */
  ghost predicate BaselineTries(data: seq<byte>, tries: seq<seq<byte>>) {
    |tries| == 3 && forall k :: 0 <= k < 3 ==> HuffmanContainer.IsPayload(Lz77.LazyTokens(data), BASELINE_BLOCKS[k], tries[k])
  }

  /** The `k`th is the first of the shortest. */
  ghost predicate FirstShortest(tries: seq<seq<byte>>, k: nat) {
    && k < |tries|
    && (forall j :: 0 <= j < |tries| ==> |tries[k]| <= |tries[j]|)
    && (forall j :: 0 <= j < k ==> |tries[k]| < |tries[j]|)
  }

  ghost predicate IsBaseline(data: seq<byte>, payload: seq<byte>) {
    exists tries, k: nat :: BaselineTries(data, tries) && FirstShortest(tries, k) && payload == tries[k]
  }

  /** The first of the shortest of three block sizes. */
  method CompressBaseline(data: seq<byte>) returns (best: seq<byte>, ghost tries: seq<seq<byte>>, ghost k: nat)
    requires |data| < HuffmanTree.FREQ_LIMIT
    ensures BaselineTries(data, tries) && FirstShortest(tries, k) && best == tries[k]
    ensures IsBaseline(data, best) && best == BaselineOf(data)
  {
    hide BaselineOf, HuffmanContainer.PayloadOf, Lz77.Covers, HuffmanContainer.IsPayload, HuffmanContainer.Laid, Lz77.Meaning, Lz77.LazyTokens;
    var chain := new HashChains.HashChain();
    var tokens := Lz77.Encode(chain, data);
    IsLazy(data);
    CoversFacts(tokens, data);
    var bs8k, bs16k, bs4k;
    ghost var s8k, s16k, s4k;
    bs8k, s8k := HuffmanContainer.EncodeBlocked(tokens, 8192);
    bs16k, s16k := HuffmanContainer.EncodeBlocked(tokens, 16384);
    bs4k, s4k := HuffmanContainer.EncodeBlocked(tokens, 4096);
    PayloadLaid(tokens, 8192, bs8k, s8k);
    PayloadLaid(tokens, 16384, bs16k, s16k);
    PayloadLaid(tokens, 4096, bs4k, s4k);
    tries, k := [bs8k, bs16k, bs4k], 0;
    best := bs8k;
    if |bs16k| < |best| {
      best, k := bs16k, 1;
    }
    if |bs4k| < |best| {
      best, k := bs4k, 2;
    }
    BaselineUnique(data, best);
  }

  lemma PayloadLaid(ts: seq<Token>, blockSize: nat, payload: seq<byte>, sizes: seq<nat>)
    requires blockSize > 0 && HuffmanContainer.Laid(ts, blockSize, payload, sizes)
    ensures HuffmanContainer.IsPayload(ts, blockSize, payload)
  {
    hide HuffmanContainer.Laid;
  }

  lemma IsLazy(data: seq<byte>)
    ensures Lz77.LazyTokens(data) == Lz77.LazyFrom(HashChains.EmptyChain(), FIRST_RECENT, data, 0)
    ensures Lz77.Covers(Lz77.LazyTokens(data), data, |data|)
  {
    hide Lz77.LazyFrom, Lz77.Covers;
    Lz77.EmittingStart(HashChains.EmptyChain(), data);
  }

  /** The first of the shortest of three. */
  function FirstOf(tries: seq<seq<byte>>): (k: nat)
    requires |tries| == 3
    ensures FirstShortest(tries, k)
    ensures forall j: nat :: FirstShortest(tries, j) ==> j == k
  {
    if |tries[1]| < |tries[0]| then if |tries[2]| < |tries[1]| then 2 else 1
    else if |tries[2]| < |tries[0]| then 2 else 0
  }

  /** The baseline of the data: lazy matching from an empty chain, Huffman codes for every
      block, the best of three block sizes. */
  ghost function BaselineOf(data: seq<byte>): seq<byte>
    requires |data| < HuffmanTree.FREQ_LIMIT
  {
    LazyFits(data);
    var tokens := Lz77.LazyTokens(data);
    var tries := [HuffmanContainer.PayloadOf(tokens, 8192), HuffmanContainer.PayloadOf(tokens, 16384),
                  HuffmanContainer.PayloadOf(tokens, 4096)];
    tries[FirstOf(tries)]
  }

  lemma LazyFits(data: seq<byte>)
    requires |data| < HuffmanTree.FREQ_LIMIT
    ensures var tokens := Lz77.LazyTokens(data); HuffmanBlock.AllValid(tokens) && |tokens| < HuffmanTree.FREQ_LIMIT
  {
    hide Lz77.LazyTokens, Lz77.Covers, HuffmanBlock.AllValid, Lz77.Meaning;
    IsLazy(data);
    CoversFacts(Lz77.LazyTokens(data), data);
  }

  /** The data settles every byte of its baseline. */
  lemma BaselineUnique(data: seq<byte>, payload: seq<byte>)
    requires |data| < HuffmanTree.FREQ_LIMIT
    ensures IsBaseline(data, payload) <==> payload == BaselineOf(data)
  {
    hide Lz77.LazyTokens, HuffmanBlock.AllValid, HuffmanContainer.PayloadOf, HuffmanContainer.IsPayload;
    LazyFits(data);
    var tokens := Lz77.LazyTokens(data);
    var exact := [HuffmanContainer.PayloadOf(tokens, 8192), HuffmanContainer.PayloadOf(tokens, 16384),
                  HuffmanContainer.PayloadOf(tokens, 4096)];
    forall k | 0 <= k < 3 ensures HuffmanContainer.IsPayload(tokens, BASELINE_BLOCKS[k], exact[k]) {
      HuffmanContainer.PayloadUnique(tokens, BASELINE_BLOCKS[k], exact[k]);
    }
    assert BaselineTries(data, exact);
    if IsBaseline(data, payload) {
      var tries, k: nat :| BaselineTries(data, tries) && FirstShortest(tries, k) && payload == tries[k];
      forall j | 0 <= j < 3 ensures tries[j] == exact[j] {
        HuffmanContainer.PayloadUnique(tokens, BASELINE_BLOCKS[j], tries[j]);
      }
      assert tries == exact;
    }
  }

  /** The tokens, one of the three block sizes, and the payload they give. */
  lemma BaselineParts(data: seq<byte>, payload: seq<byte>) returns (blockSize: nat)
    requires IsBaseline(data, payload)
    ensures 0 < blockSize <= HuffmanContainer.BLOCK_LIMIT && Lz77.Covers(Lz77.LazyTokens(data), data, |data|)
    ensures HuffmanContainer.IsPayload(Lz77.LazyTokens(data), blockSize, payload)
  {
    hide HuffmanContainer.IsPayload, Lz77.LazyTokens, Lz77.Covers;
    var tries, k: nat :| BaselineTries(data, tries) && FirstShortest(tries, k) && payload == tries[k];
    blockSize := BASELINE_BLOCKS[k];
    IsLazy(data);
  }

  lemma CoversFacts(tokens: seq<Token>, data: seq<byte>)
    requires Lz77.Covers(tokens, data, |data|)
    ensures HuffmanBlock.AllValid(tokens) && Lz77.Meaning(tokens) == Some(data) && |tokens| <= |data|
  {
    assert data[..|data|] == data;
    NoMoreTokens(tokens);
  }

  /** `decompress_baseline`: both stages may refuse. */
  ghost function BaselineDecoded(payload: seq<byte>, expected: nat): Option<seq<byte>> {
    var tokens := HuffmanContainer.Decoded(payload);
    if tokens.None? then None
    else
      var r := Lz77.DecodeFrom([], tokens.value, expected);
      if r.Data? then Some(r.d) else None
  }

  lemma BaselineWithin(payload: seq<byte>, expected: nat)
    requires BaselineDecoded(payload, expected).Some?
    ensures |BaselineDecoded(payload, expected).value| <= expected
  {
    hide HuffmanContainer.Decoded, Lz77.DecodeFrom;
    Lz77.WithinLimit([], HuffmanContainer.Decoded(payload).value, expected);
  }

  method DecompressBaseline(payload: seq<byte>, expected: nat) returns (d: Option<seq<byte>>)
    ensures d == BaselineDecoded(payload, expected)
    ensures d.Some? ==> |d.value| <= expected
  {
    hide HuffmanContainer.Decoded, Lz77.DecodeFrom;
    var tokens := HuffmanContainer.DecodeBlocked(payload);
    if tokens.None? {
      return None;
    }
    var r := Lz77.Decode(tokens.value, expected);
    d := if r.Data? then Some(r.d) else None;
  }

  /** LZ77, Huffman coding and back: the data, if the length given allows it. */
  lemma BaselineRoundTrip(data: seq<byte>, payload: seq<byte>, expected: nat)
    requires |data| < WORD && IsBaseline(data, payload)
    ensures BaselineDecoded(payload, expected) == if |data| <= expected then Some(data) else None
  {
    hide *;
    var blockSize := BaselineParts(data, payload);
    var tokens := Lz77.LazyTokens(data);
    CoversFacts(tokens, data);
    HuffmanContainer.SmallBlocksRoundTrip(tokens, blockSize, payload);
    Lz77.DecodeIsMeaning(tokens, data, expected);
    DecodedIs(payload, tokens, data, expected);
  }

  lemma DecodedIs(payload: seq<byte>, tokens: seq<Token>, data: seq<byte>, expected: nat)
    requires HuffmanContainer.Decoded(payload) == Some(tokens)
    requires Lz77.DecodeFrom([], tokens, expected) == if |data| <= expected then Lz77.Data(data) else Lz77.TooLarge(expected)
    ensures BaselineDecoded(payload, expected) == if |data| <= expected then Some(data) else None
  {
    hide HuffmanContainer.Decoded, Lz77.DecodeFrom;
  }

  // ------------------------------------------------------------ LZMA with parse rounds

  const PARSE_ITERATIONS: nat := 5

  /** LZ77 tokens are a parse the LZMA format can express. */
  lemma {:induction false} MeaningSteps(tokens: seq<Token>, data: seq<byte>)
    requires Lz77.Meaning(tokens) == Some(data) && HuffmanBlock.AllValid(tokens) && |data| <= Lzma.U32_MAX
    ensures Lzma.Spells(tokens, data)
    decreases |tokens|
  {
    hide Lzma.AfterLiteral, Lzma.AfterMatch, Lzma.AfterRep, Lzma.AfterShortRep, Lzma.ToFront;
    if tokens != [] {
      var m := |tokens| - 1;
      var before := Lz77.Meaning(tokens[..m]).value;
      Lz77.MeaningGrows(tokens, m);
      MeaningSteps(tokens[..m], before);
      assert ValidToken(tokens[m]);
      OptimalParse.StepAllSnoc(Lzma.LZ_START, tokens[..m], tokens[m]);
      assert tokens[..m] + [tokens[m]] == tokens;
    }
  }

  /** What a parse teaches about prices. */
  type Pricing = seq<Token> -> OptimalParse.Prices

  /** The parse that follows another: the optimal one under the prices learned from it. */
  ghost predicate Follows(learn: Pricing, data: seq<byte>, before: seq<Token>, after: seq<Token>) {
    |data| <= Lzma.U32_MAX && after == OptimalParse.ParseOf(learn(before), data)
  }

  /** Parses of the data and what each encodes to, the parse of lazy matching first. */
  ghost predicate LzmaRounds(learn: Pricing, data: seq<byte>, parses: seq<seq<Token>>, outputs: seq<seq<byte>>) {
    && 1 <= |parses| == |outputs| <= PARSE_ITERATIONS + 1 && parses[0] == Lz77.LazyTokens(data)
    && (forall k :: 0 <= k < |parses| ==> Lzma.Spells(parses[k], data) && Lzma.IsEncoding(outputs[k], data, parses[k]))
    && forall k :: 0 <= k < |parses| - 1 ==> Follows(learn, data, parses[k], parses[k + 1])
  }

  /** Every round up to the `k`th made the block smaller; the next did not, or the rounds ran out. */
  ghost predicate KeptAt(outputs: seq<seq<byte>>, k: nat) {
    && k < |outputs| && (forall j :: 0 <= j < k ==> |outputs[j + 1]| < |outputs[j]|)
    && (k + 1 < |outputs| ==> k + 2 == |outputs| && |outputs[k + 1]| >= |outputs[k]|)
    && (k + 1 == |outputs| ==> |outputs| == PARSE_ITERATIONS + 1)
  }

  ghost predicate IsLzma(learn: Pricing, data: seq<byte>, payload: seq<byte>) {
    exists parses, outputs, k: nat :: LzmaRounds(learn, data, parses, outputs) && KeptAt(outputs, k) && payload == outputs[k]
  }

  /** The prices and the data settle every round. */
  lemma {:induction false} RoundsAgree(learn: Pricing, data: seq<byte>, parses: seq<seq<Token>>, outputs: seq<seq<byte>>,
                                       others: seq<seq<Token>>, theirs: seq<seq<byte>>, k: nat)
    requires LzmaRounds(learn, data, parses, outputs) && LzmaRounds(learn, data, others, theirs)
    requires k < |outputs| && k < |theirs|
    ensures parses[k] == others[k] && outputs[k] == theirs[k]
  {
    hide Lzma.Spells, Lzma.IsEncoding, Lz77.LazyTokens, OptimalParse.ParseOf;
    if k > 0 {
      RoundsAgree(learn, data, parses, outputs, others, theirs, k - 1);
      assert Follows(learn, data, parses[k - 1], parses[k - 1 + 1]) && Follows(learn, data, others[k - 1], others[k - 1 + 1]);
    }
    Lzma.EncodingUnique(outputs[k], theirs[k], data, parses[k]);
  }

  /** The prices and the data settle the block. */
  lemma LzmaUnique(learn: Pricing, data: seq<byte>, a: seq<byte>, b: seq<byte>)
    requires IsLzma(learn, data, a) && IsLzma(learn, data, b)
    ensures a == b
  {
    hide LzmaRounds;
    var parses, outputs, k: nat :| LzmaRounds(learn, data, parses, outputs) && KeptAt(outputs, k) && a == outputs[k];
    var others, theirs, j: nat :| LzmaRounds(learn, data, others, theirs) && KeptAt(theirs, j) && b == theirs[j];
    RoundsNumber(learn, data, parses, outputs);
    RoundsNumber(learn, data, others, theirs);
    forall i | 0 <= i < |outputs| && i < |theirs| ensures outputs[i] == theirs[i] {
      RoundsAgree(learn, data, parses, outputs, others, theirs, i);
    }
  }

  lemma RoundsNumber(learn: Pricing, data: seq<byte>, parses: seq<seq<Token>>, outputs: seq<seq<byte>>)
    requires LzmaRounds(learn, data, parses, outputs)
    ensures |parses| == |outputs| <= PARSE_ITERATIONS + 1
  {
    hide Lzma.Spells, Lzma.IsEncoding, Lz77.LazyTokens;
  }

  /** The block kept encodes the data under some parse, in no more bytes than lazy matching's. */
  lemma LzmaKept(learn: Pricing, data: seq<byte>, payload: seq<byte>)
    requires IsLzma(learn, data, payload)
    ensures exists tokens :: Lzma.Spells(tokens, data) && Lzma.IsEncoding(payload, data, tokens)
    ensures Lzma.Spells(Lz77.LazyTokens(data), data)
    ensures exists lazy: seq<byte> :: Lzma.IsEncoding(lazy, data, Lz77.LazyTokens(data)) && |payload| <= |lazy|
  {
    hide Lzma.Spells, Lzma.IsEncoding, Lz77.LazyTokens;
    var parses, outputs, k: nat :| LzmaRounds(learn, data, parses, outputs) && KeptAt(outputs, k) && payload == outputs[k];
    Shrinking(outputs, k, k);
    assert Lzma.IsEncoding(outputs[0], data, parses[0]);
  }

  lemma {:induction false} Shrinking(outputs: seq<seq<byte>>, k: nat, j: nat)
    requires KeptAt(outputs, k) && j <= k
    ensures |outputs[j]| <= |outputs[0]|
  {
    if j > 0 {
      Shrinking(outputs, k, j - 1);
    }
  }

  /** `encode_block`: lazy matching, then re-parses, each under prices of its own, while they
      shrink the block. */
  method CompressLzma(learn: Pricing, data: seq<byte>) returns (best: seq<byte>)
    requires |data| < WORD
    ensures IsLzma(learn, data, best)
  {
    hide *;
    var chain := new HashChains.HashChain();
    var tokens := Lz77.Encode(chain, data);
    LazySpells(data, tokens);
    best := LzmaCodec.EncodeTokens(data, tokens);
    ghost var parses, outputs := [tokens], [best];
    RoundsStart(learn, data, tokens, best);
    var round := 0;
    while round < PARSE_ITERATIONS
      invariant 0 <= round <= PARSE_ITERATIONS && |parses| == |outputs| == round + 1
      invariant LzmaRounds(learn, data, parses, outputs) && Shrunk(outputs)
      invariant best == outputs[round] && tokens == parses[round]
    {
      tokens := OptimalParse.Parse(data, learn(tokens));
      var encoded := LzmaCodec.EncodeTokens(data, tokens);
      FollowsBy(learn, data, parses[round], tokens);
      RoundsNext(learn, data, parses, outputs, tokens, encoded);
      if |encoded| >= |best| {
        RoundsStop(learn, data, parses + [tokens], outputs, encoded);
        return;
      }
      StillShrunk(outputs, encoded);
      parses, outputs := parses + [tokens], outputs + [encoded];
      best := encoded;
      round := round + 1;
    }
    RoundsEnd(learn, data, parses, outputs);
  }

  /** Each output is shorter than the one before it. */
  ghost predicate Shrunk(outputs: seq<seq<byte>>) {
    forall j :: 0 <= j < |outputs| - 1 ==> |outputs[j + 1]| < |outputs[j]|
  }

  lemma LazySpells(data: seq<byte>, tokens: seq<Token>)
    requires |data| < WORD && tokens == Lz77.LazyFrom(HashChains.EmptyChain(), FIRST_RECENT, data, 0)
    ensures tokens == Lz77.LazyTokens(data) && Lzma.Spells(tokens, data) && |data| <= Lzma.U32_MAX
  {
    hide Lz77.Covers, Lz77.LazyFrom, Lzma.Spells;
    IsLazy(data);
    CoversFacts(tokens, data);
    MeaningSteps(tokens, data);
  }

  lemma FollowsBy(learn: Pricing, data: seq<byte>, before: seq<Token>, tokens: seq<Token>)
    requires |data| <= Lzma.U32_MAX && tokens == OptimalParse.ParseOf(learn(before), data)
    ensures Follows(learn, data, before, tokens)
  {
    hide OptimalParse.ParseOf;
  }

  lemma StillShrunk(outputs: seq<seq<byte>>, encoded: seq<byte>)
    requires Shrunk(outputs) && outputs != [] && |encoded| < |outputs[|outputs| - 1]|
    ensures Shrunk(outputs + [encoded])
  {
  }

  lemma RoundsStart(learn: Pricing, data: seq<byte>, tokens: seq<Token>, encoded: seq<byte>)
    requires tokens == Lz77.LazyTokens(data) && Lzma.Spells(tokens, data) && Lzma.IsEncoding(encoded, data, tokens)
    ensures LzmaRounds(learn, data, [tokens], [encoded]) && Shrunk([encoded])
  {
    hide Lzma.Spells, Lzma.IsEncoding, Lz77.LazyTokens;
  }

  /** A round that does not shrink the block is the last, and its output is not kept. */
  lemma RoundsStop(learn: Pricing, data: seq<byte>, parses: seq<seq<Token>>, outputs: seq<seq<byte>>, encoded: seq<byte>)
    requires LzmaRounds(learn, data, parses, outputs + [encoded]) && Shrunk(outputs)
    requires outputs != [] && |encoded| >= |outputs[|outputs| - 1]|
    ensures IsLzma(learn, data, outputs[|outputs| - 1])
  {
    hide LzmaRounds;
    var k, all := |outputs| - 1, outputs + [encoded];
    assert KeptAt(all, k) by {
      assert forall j :: 0 <= j < k ==> |outputs[j + 1]| < |outputs[j]|;
    }
    assert all[k] == outputs[k];
  }

  /** The rounds ran out. */
  lemma RoundsEnd(learn: Pricing, data: seq<byte>, parses: seq<seq<Token>>, outputs: seq<seq<byte>>)
    requires LzmaRounds(learn, data, parses, outputs) && Shrunk(outputs) && |outputs| == PARSE_ITERATIONS + 1
    ensures IsLzma(learn, data, outputs[PARSE_ITERATIONS])
  {
    hide LzmaRounds;
    assert KeptAt(outputs, PARSE_ITERATIONS);
  }

  lemma RoundsNext(learn: Pricing, data: seq<byte>, parses: seq<seq<Token>>, outputs: seq<seq<byte>>,
                   tokens: seq<Token>, encoded: seq<byte>)
    requires LzmaRounds(learn, data, parses, outputs) && |outputs| <= PARSE_ITERATIONS
    requires Lzma.Spells(tokens, data) && Lzma.IsEncoding(encoded, data, tokens)
    requires Follows(learn, data, parses[|parses| - 1], tokens)
    ensures LzmaRounds(learn, data, parses + [tokens], outputs + [encoded])
  {
    hide Lzma.Spells, Lzma.IsEncoding, Lz77.LazyTokens, Follows;
  }

  /** Whatever the prices were, the block decodes to the data. */
  lemma LzmaBlockRoundTrip(learn: Pricing, data: seq<byte>, payload: seq<byte>)
    requires |data| < WORD && IsLzma(learn, data, payload)
    ensures Lzma.DecodeSpec(payload) == Lzma.Ok(data)
  {
    hide Lzma.Spells, Lzma.IsEncoding, Lzma.DecodeSpec, IsLzma;
    LzmaKept(learn, data, payload);
    var tokens :| Lzma.Spells(tokens, data) && Lzma.IsEncoding(payload, data, tokens);
    Lzma.LzmaRoundTrip(payload, data, tokens);
  }
}
