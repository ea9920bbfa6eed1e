/** The codes of a block are the best for its tokens: no other code lengths, decodable by the same
    rules, write the block in fewer bits. */
module BlockOptimality {
  import opened Arithmetic
  import opened BitStrings
  import opened BitWords
  import opened CodeLengths
  import opened CanonicalCode
  import opened HuffmanTree
  import opened HuffmanCodes
  import opened HuffmanOptimality
  import opened HuffmanBlock
  import opened HuffmanCodec
  import opened LzTokens
  import opened Tokens

  // ------------------------------------------------------------ bits of a block, symbol by symbol

  /** Bits of the codes of the first `k` tokens' literal and length symbols. */
  ghost function LitBits(ts: seq<Token>, lens: seq<nat>, k: nat): nat
    requires k <= |ts| && AllValid(ts) && |lens| == LITLEN_SYMBOLS
  {
    if k == 0 then 0
    else
      SymbolsInRange(ts, k - 1);
      LitBits(ts, lens, k - 1) + lens[LitSym(CodedAt(ts, k - 1))]
  }

  ghost function DistBits(ts: seq<Token>, lens: seq<nat>, k: nat): nat
    requires k <= |ts| && AllValid(ts) && |lens| == DIST_SYMBOLS
  {
    if k == 0 then 0
    else
      SymbolsInRange(ts, k - 1);
      DistBits(ts, lens, k - 1) + if CodedAt(ts, k - 1).Pair? then lens[CodedAt(ts, k - 1).dist.sym] else 0
  }

  /** The extra bits, which no code changes. */
  ghost function ExtraBits(ts: seq<Token>, k: nat): nat
    requires k <= |ts| && AllValid(ts)
  {
    if k == 0 then 0
    else
      var c := CodedAt(ts, k - 1);
      ExtraBits(ts, k - 1) + if c.Pair? then c.length.bits + c.dist.bits else 0
  }

  lemma LsbSize(v: nat, n: nat)
    ensures |Lsb(v, n)| == n
  {
  }

  lemma MsbSize(c: HuffCode)
    ensures |Word(c)| == c.len
  {
  }

  lemma OneTokenSize(litLens: seq<nat>, distLens: seq<nat>, c: Coded)
    requires |litLens| == LITLEN_SYMBOLS && |distLens| == DIST_SYMBOLS
    requires CodePair(Canonical(litLens), Canonical(distLens)) && HasCodes(Canonical(litLens), Canonical(distLens), c)
    ensures LitSym(c) < LITLEN_SYMBOLS && (c.Pair? ==> c.dist.sym < DIST_SYMBOLS)
    ensures |TokenBits(Canonical(litLens), Canonical(distLens), c)| ==
      litLens[LitSym(c)] + if c.Pair? then c.length.bits + distLens[c.dist.sym] + c.dist.bits else 0
  {
    hide Canonical, CodePair, Word, Lsb;
    var lit, dist := Canonical(litLens), Canonical(distLens);
    MsbSize(lit[LitSym(c)]);
    if c.Pair? {
      MsbSize(dist[c.dist.sym]);
      LsbSize(c.length.val, c.length.bits);
      LsbSize(c.dist.val, c.dist.bits);
    }
  }

  lemma {:induction false} TokensAddUp(litLens: seq<nat>, distLens: seq<nat>, ts: seq<Token>, k: nat)
    requires |litLens| == LITLEN_SYMBOLS && |distLens| == DIST_SYMBOLS && AllValid(ts) && k <= |ts|
    requires CodePair(Canonical(litLens), Canonical(distLens)) && AllHaveCodes(Canonical(litLens), Canonical(distLens), ts)
    ensures |TokensBits(Canonical(litLens), Canonical(distLens), ts, k)|
         == LitBits(ts, litLens, k) + DistBits(ts, distLens, k) + ExtraBits(ts, k)
  {
    hide Canonical, CodePair, HasCodes, TokenBits, CodedAt;
    if k > 0 {
      TokensAddUp(litLens, distLens, ts, k - 1);
      OneTokenSize(litLens, distLens, CodedAt(ts, k - 1));
    }
  }

  // ------------------------------------------------------------ the same, by frequency

  /** One more occurrence costs one more code. */
  lemma {:induction false} CostOneMore(w: seq<nat>, d: seq<nat>, i: nat)
    requires |w| == |d| && i < |w|
    ensures Cost(w[i := w[i] + 1], d) == Cost(w, d) + d[i]
    decreases |w|
  {
    hide Times;
    var n, v := |w| - 1, w[i := w[i] + 1];
    if i < n {
      CostOneMore(w[..n], d[..n], i);
      assert v[..n] == w[..n][i := w[..n][i] + 1];
    } else {
      assert v[..n] == w[..n];
      MulAdd(w[n], 1, d[n]);
    }
  }

  lemma {:induction false} CostOfNothing(w: seq<nat>, d: seq<nat>)
    requires |w| == |d| && forall i :: 0 <= i < |w| ==> w[i] == 0
    ensures Cost(w, d) == 0
    decreases |w|
  {
    hide Times;
    if w != [] {
      CostOfNothing(w[..|w| - 1], d[..|w| - 1]);
      TimesNone(d[|w| - 1]);
    }
  }

  ghost function LitCounts(ts: seq<Token>, k: nat): (f: seq<nat>)
    requires k <= |ts| && AllValid(ts)
    ensures |f| == LITLEN_SYMBOLS && forall s :: 0 <= s < LITLEN_SYMBOLS ==> f[s] == LitCount(ts, s, k)
  {
    seq(LITLEN_SYMBOLS, s requires 0 <= s < LITLEN_SYMBOLS => LitCount(ts, s, k))
  }

  ghost function DistCounts(ts: seq<Token>, k: nat): (f: seq<nat>)
    requires k <= |ts| && AllValid(ts)
    ensures |f| == DIST_SYMBOLS && forall s :: 0 <= s < DIST_SYMBOLS ==> f[s] == DistCount(ts, s, k)
  {
    seq(DIST_SYMBOLS, s requires 0 <= s < DIST_SYMBOLS => DistCount(ts, s, k))
  }

  lemma {:induction false} LitBitsByCount(ts: seq<Token>, lens: seq<nat>, k: nat)
    requires k <= |ts| && AllValid(ts) && |lens| == LITLEN_SYMBOLS
    ensures Cost(LitCounts(ts, k), lens) == LitBits(ts, lens, k)
  {
    hide Cost, LitCount, CodedAt;
    if k == 0 {
      CountNone(ts);
      CostOfNothing(LitCounts(ts, 0), lens);
    } else {
      LitBitsByCount(ts, lens, k - 1);
      SymbolsInRange(ts, k - 1);
      CountNext(ts, k - 1);
      var f, s := LitCounts(ts, k - 1), LitSym(CodedAt(ts, k - 1));
      assert LitCounts(ts, k) == f[s := f[s] + 1];
      CostOneMore(f, lens, s);
    }
  }

  lemma {:induction false} DistBitsByCount(ts: seq<Token>, lens: seq<nat>, k: nat)
    requires k <= |ts| && AllValid(ts) && |lens| == DIST_SYMBOLS
    ensures Cost(DistCounts(ts, k), lens) == DistBits(ts, lens, k)
  {
    hide Cost, DistCount, CodedAt;
    if k == 0 {
      CountNone(ts);
      CostOfNothing(DistCounts(ts, 0), lens);
    } else {
      DistBitsByCount(ts, lens, k - 1);
      SymbolsInRange(ts, k - 1);
      CountNext(ts, k - 1);
      var f := DistCounts(ts, k - 1);
      if CodedAt(ts, k - 1).Pair? {
        var s := CodedAt(ts, k - 1).dist.sym;
        assert DistCounts(ts, k) == f[s := f[s] + 1];
        CostOneMore(f, lens, s);
      } else {
        assert DistCounts(ts, k) == f;
      }
    }
  }

  // ------------------------------------------------------------ usable lengths are within the code space

  lemma {:induction false} KraftRoom(freqs: seq<nat>, lens: seq<nat>, k: nat)
    requires k <= |freqs| == |lens| && Short(lens) && forall s :: 0 <= s < |freqs| && freqs[s] > 0 ==> lens[s] > 0
    ensures AtMost(At(lens, Nonzero(freqs, k)), MAX_BITS)
    ensures Room(At(lens, Nonzero(freqs, k)), MAX_BITS) <= Shorter(lens, MAX_BITS + 1, k)
  {
    hide *;
    LensShort(lens, Nonzero(freqs, k));
    ShorterSteps(lens, k);
    if k == 0 {
      NonzeroNone(freqs);
      NothingAt(lens);
    } else {
      KraftRoom(freqs, lens, k - 1);
      NonzeroNext(freqs, k - 1);
      if freqs[k - 1] > 0 {
        LensShort(lens, Nonzero(freqs, k - 1));
        AtSnoc(lens, Nonzero(freqs, k - 1), k - 1);
        RoomSnoc(At(lens, Nonzero(freqs, k - 1)), MAX_BITS, lens[k - 1]);
        ShareIs(lens[k - 1]);
      }
    }
  }

  lemma LensShort(lens: seq<nat>, places: seq<nat>)
    requires Short(lens) && forall k :: 0 <= k < |places| ==> places[k] < |lens|
    ensures AtMost(At(lens, places), MAX_BITS) && forall i :: 0 <= i < |lens| ==> lens[i] <= MAX_BITS
  {
  }

  lemma NothingAt(lens: seq<nat>)
    ensures At(lens, []) == [] && AtMost([], MAX_BITS) && Room([], MAX_BITS) == 0
  {
  }

  lemma ShareIs(len: nat)
    requires len <= MAX_BITS
    ensures Share(len) == Pow2(MAX_BITS - len)
  {
  }

  lemma ShorterSteps(lens: seq<nat>, k: nat)
    requires k <= |lens| && Short(lens)
    ensures k == 0 ==> Shorter(lens, MAX_BITS + 1, 0) == 0
    ensures k > 0 ==> Shorter(lens, MAX_BITS + 1, k) == Shorter(lens, MAX_BITS + 1, k - 1) + if lens[k - 1] > 0 then Share(lens[k - 1]) else 0
  {
    hide Share;
  }

  lemma UsableIsCodable(freqs: seq<nat>, lens: seq<nat>)
    requires |freqs| == |lens| && Usable(lens) && forall s :: 0 <= s < |freqs| && freqs[s] > 0 ==> lens[s] > 0
    ensures Codable(freqs, lens, MAX_BITS)
  {
    hide Room, Shorter, Nonzero, At;
    KraftRoom(freqs, lens, |freqs|);
    WholeKraft();
  }

  lemma WholeKraft()
    ensures Pow2(MAX_BITS) == KRAFT_ONE
  {
    Pow2Add(8, 7);
    assert Pow2(8) == 256 && Pow2(7) == 128;
  }

  /** What has a code is what occurs. */
  lemma OccurringHaveCodes(litLens: seq<nat>, distLens: seq<nat>, ts: seq<Token>)
    requires |litLens| == LITLEN_SYMBOLS && |distLens| == DIST_SYMBOLS && AllValid(ts)
    requires CodePair(Canonical(litLens), Canonical(distLens)) && AllHaveCodes(Canonical(litLens), Canonical(distLens), ts)
    ensures forall s :: 0 <= s < LITLEN_SYMBOLS && LitFreqs(ts)[s] > 0 ==> litLens[s] > 0
    ensures forall s :: 0 <= s < DIST_SYMBOLS && DistFreqs(ts)[s] > 0 ==> distLens[s] > 0
  {
    hide Canonical, CodePair, CodedAt, LitCount, DistCount;
    forall s | 0 <= s < LITLEN_SYMBOLS && LitFreqs(ts)[s] > 0 ensures litLens[s] > 0 {
      var k := LitOccurs(ts, s, |ts|);
      assert HasCodes(Canonical(litLens), Canonical(distLens), CodedAt(ts, k));
    }
    forall s | 0 <= s < DIST_SYMBOLS && DistFreqs(ts)[s] > 0 ensures distLens[s] > 0 {
      var k := DistOccurs(ts, s, |ts|);
      assert HasCodes(Canonical(litLens), Canonical(distLens), CodedAt(ts, k));
    }
  }

  lemma {:induction false} LitOccurs(ts: seq<Token>, s: nat, n: nat) returns (k: nat)
    requires n <= |ts| && AllValid(ts) && LitCount(ts, s, n) > 0
    ensures k < n && LitSym(CodedAt(ts, k)) == s
  {
    hide CodedAt;
    k := n - 1;
    if LitSym(CodedAt(ts, k)) != s {
      k := LitOccurs(ts, s, n - 1);
    }
  }

  lemma {:induction false} DistOccurs(ts: seq<Token>, s: nat, n: nat) returns (k: nat)
    requires n <= |ts| && AllValid(ts) && DistCount(ts, s, n) > 0
    ensures k < n && CodedAt(ts, k).Pair? && CodedAt(ts, k).dist.sym == s
  {
    hide CodedAt;
    k := n - 1;
    if !(CodedAt(ts, k).Pair? && CodedAt(ts, k).dist.sym == s) {
      k := DistOccurs(ts, s, n - 1);
    }
  }

  // ------------------------------------------------------------ the theorem

  /** The tree of the frequencies has no leaf deeper than 15. */
  ghost predicate Shallow(freqs: seq<nat>) {
    |Nonzero(freqs, |freqs|)| >= 2 ==> AtMost(TreeLengths(TreeOf(freqs), |freqs|), MAX_BITS)
  }

  /** While neither tree is deeper than 15, no code lengths a decoder accepts write the block in
      fewer bits than the ones the encoder chooses. */
  lemma BlockIsBest(ts: seq<Token>, litLens: seq<nat>, distLens: seq<nat>)
    requires AllValid(ts) && |ts| < FREQ_LIMIT && Shallow(LitFreqs(ts)) && Shallow(DistFreqs(ts))
    requires |litLens| == LITLEN_SYMBOLS && |distLens| == DIST_SYMBOLS && Usable(litLens) && Usable(distLens)
    requires CodePair(Canonical(litLens), Canonical(distLens)) && AllHaveCodes(Canonical(litLens), Canonical(distLens), ts)
    ensures Encodes(ts, LengthsFor(LitFreqs(ts)), LengthsFor(DistFreqs(ts)))
    ensures |BlockBits(LengthsFor(LitFreqs(ts)), LengthsFor(DistFreqs(ts)), ts)| <= |BlockBits(litLens, distLens, ts)|
  {
    hide CodePair, AllHaveCodes, Usable, Canonical, LengthsFor, LitCount, DistCount, Cost, LitBits, DistBits, ExtraBits, Shallow, LengthsBits, Codable;
    var lit, dist := LengthsFor(LitFreqs(ts)), LengthsFor(DistFreqs(ts));
    FrequenciesEncode(ts);
    FrequenciesFit(ts);
    OccurringHaveCodes(litLens, distLens, ts);
    UsableIsCodable(LitFreqs(ts), litLens);
    UsableIsCodable(DistFreqs(ts), distLens);
    ShallowBest(LitFreqs(ts), litLens);
    ShallowBest(DistFreqs(ts), distLens);
    BlockAddsUp(ts, lit, dist);
    BlockAddsUp(ts, litLens, distLens);
  }

  lemma ShallowBest(freqs: seq<nat>, lens: seq<nat>)
    requires |freqs| <= KRAFT_ONE && (forall i :: 0 <= i < |freqs| ==> freqs[i] < FREQ_LIMIT) && Shallow(freqs)
    requires Codable(freqs, lens, MAX_BITS)
    ensures |lens| == |freqs| && Cost(freqs, LengthsFor(freqs)) <= Cost(freqs, lens)
  {
    hide LengthsFor, Nonzero, TreeOf, TreeLengths, Room, Cost;
    HuffmanIsBest(freqs, lens, MAX_BITS);
  }

  /** A block takes its header, the extra bits and the codes, each as often as it occurs. */
  lemma BlockAddsUp(ts: seq<Token>, litLens: seq<nat>, distLens: seq<nat>)
    requires AllValid(ts) && |litLens| == LITLEN_SYMBOLS && |distLens| == DIST_SYMBOLS && Usable(litLens) && Usable(distLens)
    requires CodePair(Canonical(litLens), Canonical(distLens)) && AllHaveCodes(Canonical(litLens), Canonical(distLens), ts)
    ensures |BlockBits(litLens, distLens, ts)|
         == 4 * (LITLEN_SYMBOLS + DIST_SYMBOLS) + ExtraBits(ts, |ts|) + Cost(LitFreqs(ts), litLens) + Cost(DistFreqs(ts), distLens)
  {
    hide CodePair, AllHaveCodes, Usable, Canonical, LitCount, DistCount, Cost, LengthsBits, TokensBits, LitBits, DistBits, ExtraBits;
    LengthsSize(litLens);
    LengthsSize(distLens);
    TokensAddUp(litLens, distLens, ts, |ts|);
    LitBitsByCount(ts, litLens, |ts|);
    DistBitsByCount(ts, distLens, |ts|);
    assert LitCounts(ts, |ts|) == LitFreqs(ts) && DistCounts(ts, |ts|) == DistFreqs(ts);
  }
}
