/** The blocked token coder as it runs, and its container. */
module HuffmanCodec {
  import opened Bytes
  import opened BitStrings
  import opened BitWords
  import opened CanonicalCode
  import opened DecodeTable
  import opened BitStream
  import opened HuffmanTree
  import opened HuffmanCodes
  import opened LzTokens
  import opened Tokens
  import opened HuffmanBlock
  import opened Sequences

  // ------------------------------------------------------------ one block, written

  lemma SymbolsInRange(ts: seq<Token>, k: nat)
    requires k < |ts| && AllValid(ts)
    ensures LitSym(CodedAt(ts, k)) < LITLEN_SYMBOLS
    ensures CodedAt(ts, k).Pair? ==> CodedAt(ts, k).dist.sym < DIST_SYMBOLS
  {
    hide LengthTable, DistTable, LengthFrom, DistFrom, RecentAt;
    if ts[k].Match? {
      LengthRoundTrip(ts[k].length);
      DistRoundTrip(ts[k].offset);
    }
  }

  lemma CountNext(ts: seq<Token>, k: nat)
    requires k < |ts| && AllValid(ts)
    ensures forall s: nat :: LitCount(ts, s, k + 1) == LitCount(ts, s, k) + if LitSym(CodedAt(ts, k)) == s then 1 else 0
    ensures forall s: nat :: DistCount(ts, s, k + 1)
              == DistCount(ts, s, k) + if CodedAt(ts, k).Pair? && CodedAt(ts, k).dist.sym == s then 1 else 0
  {
    hide CodedAt;
  }

  lemma CountNone(ts: seq<Token>)
    requires AllValid(ts)
    ensures forall s: nat :: LitCount(ts, s, 0) == 0 && DistCount(ts, s, 0) == 0
  {
  }

  /** A token through the cache, as both passes of the encoder do it. */
  method CodeToken(mru: MruCache, t: Token) returns (c: Coded)
    requires ValidToken(t)
    modifies mru
    ensures c == CodedToken(old(mru.recent), t) && mru.recent == After(old(mru.recent), t)
  {
    hide LengthFrom, DistFrom, Promoted, Inserted;
    match t
    case Literal(b) => c := Lit(b);
    case Match(offset, length) =>
      var l := EncodeLength(length);
      var i := Found(mru.recent, offset);
      if i.Some? {
        c := Pair(l, Code(REP_OFFSET_0 + i.value, 0, 0));
        mru.Promote(i.value);
      } else {
        var d := EncodeOffset(offset);
        c := Pair(l, d);
        mru.Insert(offset);
      }
  }

  method CountFrequencies(ts: seq<Token>) returns (lit: array<nat>, dist: array<nat>)
    requires AllValid(ts)
    ensures fresh(lit) && fresh(dist) && lit.Length == LITLEN_SYMBOLS && dist.Length == DIST_SYMBOLS
    ensures forall s :: 0 <= s < LITLEN_SYMBOLS ==> lit[s] == LitCount(ts, s, |ts|)
    ensures forall s :: 0 <= s < DIST_SYMBOLS ==> dist[s] == DistCount(ts, s, |ts|)
  {
    hide LitCount, DistCount, CodedToken, After;
    lit := new nat[LITLEN_SYMBOLS](i => 0);
    dist := new nat[DIST_SYMBOLS](i => 0);
    var mru := new MruCache();
    CountNone(ts);
    for k := 0 to |ts|
      invariant mru.recent == RecentAt(ts, k)
      invariant forall s :: 0 <= s < LITLEN_SYMBOLS ==> lit[s] == LitCount(ts, s, k)
      invariant forall s :: 0 <= s < DIST_SYMBOLS ==> dist[s] == DistCount(ts, s, k)
    {
      var c := CodeToken(mru, ts[k]);
      assert c == CodedAt(ts, k);
      CountNext(ts, k);
      SymbolsInRange(ts, k);
      match c
      case Lit(b) => lit[b] := lit[b] + 1;
      case Pair(l, d) =>
        lit[l.sym] := lit[l.sym] + 1;
        dist[d.sym] := dist[d.sym] + 1;
    }
  }

  /** How often each literal and length symbol occurs in the block. */
  ghost function LitFreqs(ts: seq<Token>): (f: seq<nat>)
    requires AllValid(ts)
    ensures |f| == LITLEN_SYMBOLS && forall s :: 0 <= s < LITLEN_SYMBOLS ==> f[s] == LitCount(ts, s, |ts|)
  {
    seq(LITLEN_SYMBOLS, s requires 0 <= s < LITLEN_SYMBOLS => LitCount(ts, s, |ts|))
  }

  ghost function DistFreqs(ts: seq<Token>): (f: seq<nat>)
    requires AllValid(ts)
    ensures |f| == DIST_SYMBOLS && forall s :: 0 <= s < DIST_SYMBOLS ==> f[s] == DistCount(ts, s, |ts|)
  {
    seq(DIST_SYMBOLS, s requires 0 <= s < DIST_SYMBOLS => DistCount(ts, s, |ts|))
  }

  /** The lengths the block's own frequencies give, and codes for every token. */
  ghost predicate Encodes(ts: seq<Token>, litLens: seq<nat>, distLens: seq<nat>) {
    && AllValid(ts) && |litLens| == LITLEN_SYMBOLS && |distLens| == DIST_SYMBOLS
    && Usable(litLens) && Usable(distLens)
    && CodePair(Canonical(litLens), Canonical(distLens)) && AllHaveCodes(Canonical(litLens), Canonical(distLens), ts)
    && litLens == LengthsFor(LitFreqs(ts)) && distLens == LengthsFor(DistFreqs(ts))
  }

  lemma FrequenciesFit(ts: seq<Token>)
    requires AllValid(ts) && |ts| < FREQ_LIMIT
    ensures forall s :: 0 <= s < LITLEN_SYMBOLS ==> LitFreqs(ts)[s] < FREQ_LIMIT
    ensures forall s :: 0 <= s < DIST_SYMBOLS ==> DistFreqs(ts)[s] < FREQ_LIMIT
  {
    hide LitCount, DistCount;
    forall s: nat ensures LitCount(ts, s, |ts|) <= |ts| && DistCount(ts, s, |ts|) <= |ts| {
      CountsAtMost(ts, s, |ts|);
    }
  }

  /** Every block has its code lengths, and every token a code under them. */
  lemma FrequenciesEncode(ts: seq<Token>)
    requires AllValid(ts) && |ts| < FREQ_LIMIT
    ensures Encodes(ts, LengthsFor(LitFreqs(ts)), LengthsFor(DistFreqs(ts)))
  {
    hide LitCount, DistCount, CodedAt, Kraft, CodePair, Canonical, LengthsFor;
    var litLens, distLens := LengthsFor(LitFreqs(ts)), LengthsFor(DistFreqs(ts));
    FrequenciesFit(ts);
    LengthsForGood(LitFreqs(ts));
    LengthsForGood(DistFreqs(ts));
    UsableCodes(litLens, distLens);
    forall k | 0 <= k < |ts| ensures HasCodes(Canonical(litLens), Canonical(distLens), CodedAt(ts, k)) {
      Counted(ts, k, |ts|);
      SymbolsInRange(ts, k);
    }
  }

  method WriteLengths(writer: BitWriter, codes: seq<HuffCode>, ghost lens: seq<nat>)
    requires writer.Valid() && |lens| == |codes| && Short(lens) && forall s :: 0 <= s < |lens| ==> codes[s].len == lens[s]
    modifies writer
    ensures writer.Valid() && writer.Written() == old(writer.Written()) + LengthsBits(lens)
  {
    hide Lsb, BitWriter.Valid, BitsOf;
    ghost var was := writer.Written();
    FourBits();
    assert was + [] == was;
    for i := 0 to |codes|
      invariant writer.Valid() && writer.Written() == was + LengthsBits(lens[..i])
    {
      assert lens[..i + 1][..i] == lens[..i];
      assert was + LengthsBits(lens[..i]) + Lsb(lens[i], HEADER_BITS) == was + (LengthsBits(lens[..i]) + Lsb(lens[i], HEADER_BITS));
      writer.WriteBits(codes[i].len, HEADER_BITS);
    }
    assert lens[..|lens|] == lens;
  }

  method WriteToken(writer: BitWriter, lit: seq<HuffCode>, dist: seq<HuffCode>, c: Coded, ghost r: Recent, ghost t: Token)
    requires writer.Valid() && CodePair(lit, dist) && ValidToken(t) && c == CodedToken(r, t) && HasCodes(lit, dist, c)
    modifies writer
    ensures writer.Valid() && writer.Written() == old(writer.Written()) + TokenBits(lit, dist, c)
  {
    hide Lsb, Word, BitWriter.Valid, BitWriter.Written, LengthTable, DistTable, LengthFrom, DistFrom;
    ghost var was := writer.Written();
    match c
    case Lit(b) => writer.WriteCode(lit[b]);
    case Pair(l, d) =>
      LengthRoundTrip(t.length);
      DistRoundTrip(t.offset);
      RepFits();
      writer.WriteCode(lit[l.sym]);
      if l.bits > 0 {
        writer.WriteBits(l.val, l.bits);
      }
      EmptyBits(l.val);
      writer.WriteCode(dist[d.sym]);
      if d.bits > 0 {
        writer.WriteBits(d.val, d.bits);
      }
      EmptyBits(d.val);
      Parts(was, Word(lit[l.sym]), Lsb(l.val, l.bits), Word(dist[d.sym]), Lsb(d.val, d.bits));
  }

  lemma RepFits()
    ensures 0 < Pow2(0)
  {
  }

  lemma EmptyBits(v: nat)
    ensures Lsb(v, 0) == []
  {
  }

  lemma Parts(was: seq<bool>, a: seq<bool>, b: seq<bool>, c: seq<bool>, d: seq<bool>)
    ensures was + a + b + c + d == was + (a + b + c + d)
    ensures b == [] ==> was + a + b == was + a
    ensures d == [] ==> was + a + b + c + d == was + a + b + c
  {
  }

  /** `encode_block`. */
  method EncodeBlock(ts: seq<Token>, writer: BitWriter) returns (ghost litLens: seq<nat>, ghost distLens: seq<nat>)
    requires AllValid(ts) && |ts| < FREQ_LIMIT && writer.Valid()
    modifies writer
    ensures writer.Valid() && Encodes(ts, litLens, distLens)
    ensures writer.Written() == old(writer.Written()) + BlockBits(litLens, distLens, ts)
  {
    hide Kraft, Canonical, BitWriter.Valid, BitWriter.Written, LitCount, DistCount, HasCodes, CodePair, TokenBits, LengthsBits, CodedToken, After,
      LengthsFor;
    var litFreq, distFreq := CountFrequencies(ts);
    assert litFreq[..] == LitFreqs(ts) && distFreq[..] == DistFreqs(ts);
    FrequenciesFit(ts);
    var lit, ll := BuildHuffmanCodes(litFreq[..]);
    var dist, dl := BuildHuffmanCodes(distFreq[..]);
    litLens, distLens := ll, dl;
    FrequenciesEncode(ts);
    ghost var was := writer.Written();
    WriteLengths(writer, lit, litLens);
    WriteLengths(writer, dist, distLens);
    ghost var header := was + LengthsBits(litLens) + LengthsBits(distLens);
    var mru := new MruCache();
    assert header + [] == header;
    for k := 0 to |ts|
      invariant writer.Valid() && mru.recent == RecentAt(ts, k)
      invariant writer.Written() == header + TokensBits(lit, dist, ts, k)
    {
      var c := CodeToken(mru, ts[k]);
      assert c == CodedAt(ts, k) && HasCodes(lit, dist, c);
      WriteToken(writer, lit, dist, c, RecentAt(ts, k), ts[k]);
      assert header + TokensBits(lit, dist, ts, k) + TokenBits(lit, dist, c)
          == header + (TokensBits(lit, dist, ts, k) + TokenBits(lit, dist, c));
    }
    var a, b, c := LengthsBits(litLens), LengthsBits(distLens), TokensBits(lit, dist, ts, |ts|);
    assert was + a + b + c == was + (a + b + c);
  }

  // ------------------------------------------------------------ one block, read

  /** What the method returns, and where it leaves cache and reader, is what `GetToken` says. */
  ghost predicate Agrees(t: Option<Token>, r: Recent, bits: seq<bool>, spec: Option<Got>) {
    if t.None? then spec.None? else spec == Some(Got(t.value, r, bits))
  }

  method DecodeDist(reader: BitReader, table: array<nat>, maxLen: nat, mru: MruCache, length: nat, ghost dist: seq<HuffCode>)
    returns (t: Option<Token>)
    requires reader.Valid() && |dist| == DIST_SYMBOLS && IsTable(table[..], maxLen, dist)
    modifies reader, mru
    ensures reader.Valid() && Agrees(t, mru.recent, reader.Rest(), GetDist(dist, length, old(mru.recent), old(reader.Rest())))
  {
    hide BitReader.Valid, BitReader.Rest, NextSymbol, IsTable, Peek, Dropped, DistTable, Promoted, Inserted;
    var d := reader.ReadHuffman(table, maxLen, dist);
    SymbolBelow(dist, old(reader.Rest()));
    if d.None? {
      return None;
    }
    if d.value >= REP_OFFSET_0 {
      var idx := d.value - REP_OFFSET_0;
      t := Some(Match(mru.recent[idx], length));
      mru.Promote(idx);
    } else {
      var range := DistTable()[d.value];
      DistExtras(d.value);
      PeekNothing(reader.Rest());
      var extra := 0;
      if range.extra > 0 {
        extra := reader.ReadBits(range.extra);
      }
      var offset := range.base + extra;
      t := Some(Match(offset, length));
      mru.Insert(offset);
    }
  }

  lemma SymbolBelow(codes: seq<HuffCode>, bits: seq<bool>)
    ensures var s := NextSymbol(codes, bits); s.Some? ==> s.value < |codes| && codes[s.value].len <= |bits|
  {
  }

  lemma PeekNothing(bits: seq<bool>)
    ensures Peek(bits, 0) == 0 && Dropped(bits, 0) == bits
  {
  }

  method DecodeToken(reader: BitReader, litTable: array<nat>, litMax: nat, distTable: array<nat>, distMax: nat, mru: MruCache,
                     ghost lit: seq<HuffCode>, ghost dist: seq<HuffCode>)
    returns (t: Option<Token>)
    requires reader.Valid() && |lit| == LITLEN_SYMBOLS && |dist| == DIST_SYMBOLS
    requires IsTable(litTable[..], litMax, lit) && IsTable(distTable[..], distMax, dist)
    modifies reader, mru
    ensures reader.Valid() && Agrees(t, mru.recent, reader.Rest(), GetToken(lit, dist, old(mru.recent), old(reader.Rest())))
  {
    hide BitReader.Valid, BitReader.Rest, NextSymbol, IsTable, Peek, Dropped, LengthTable, GetDist;
    var s := reader.ReadHuffman(litTable, litMax, lit);
    SymbolBelow(lit, old(reader.Rest()));
    if s.None? {
      return None;
    }
    if s.value < 256 {
      return Some(Literal(s.value));
    }
    if s.value < FIRST_LENGTH {
      return None;
    }
    var range := LengthTable()[s.value - FIRST_LENGTH];
    LengthExtras(s.value - FIRST_LENGTH);
    PeekNothing(reader.Rest());
    var extra := 0;
    if range.extra > 0 {
      extra := reader.ReadBits(range.extra);
    }
    t := DecodeDist(reader, distTable, distMax, mru, range.base + extra, dist);
  }

  method ReadLengths(reader: BitReader, n: nat) returns (lens: seq<nat>)
    requires reader.Valid()
    modifies reader
    ensures reader.Valid() && (lens, reader.Rest()) == GetLengths(old(reader.Rest()), n)
  {
    hide BitReader.Valid, BitReader.Rest, Peek, Dropped;
    lens := [];
    for i := 0 to n
      invariant reader.Valid() && (lens, reader.Rest()) == GetLengths(old(reader.Rest()), i)
    {
      var len := reader.ReadBits(HEADER_BITS);
      lens := lens + [len];
    }
  }

  method TableFor(lens: seq<nat>, symbols: nat) returns (lookup: array<nat>, maxLen: nat)
    requires |lens| == symbols <= SYMBOL_LIMIT && Usable(lens)
    ensures fresh(lookup) && IsTable(lookup[..], maxLen, Canonical(lens))
  {
    hide Kraft, Entry, Decodable;
    var codes := CanonicalCodes(lens, symbols);
    assert codes == codes[..symbols] == Canonical(lens);
    CanonicalDecodable(lens);
    lookup, maxLen := BuildDecodeTable(codes);
  }

  /** The block decoder: every check of the program, on any bytes. */
  method DecodeBlock(data: seq<byte>, count: nat) returns (r: Option<seq<Token>>)
    ensures r == GetBlock(BitsOf(data), count)
  {
    hide BitReader.Valid, BitReader.Rest, Kraft, IsTable, Canonical, GetToken, GetLengths, BitsOf;
    var reader := new BitReader(data);
    var litLens := ReadLengths(reader, LITLEN_SYMBOLS);
    var distLens := ReadLengths(reader, DIST_SYMBOLS);
    ghost var goal := GetBlock(BitsOf(data), count);
    var litOk := LengthsArePrefixFree(litLens);
    var distOk := LengthsArePrefixFree(distLens);
    if !litOk || !distOk {
      return None;
    }
    if count == 0 {
      return None;
    }
    var litTable, litMax := TableFor(litLens, LITLEN_SYMBOLS);
    var distTable, distMax := TableFor(distLens, DIST_SYMBOLS);
    ghost var lit, dist := Canonical(litLens), Canonical(distLens);
    var mru := new MruCache();
    var tokens := [];
    Behind(GetTokens(lit, dist, FIRST_RECENT, reader.Rest(), count));
    for k := 0 to count
      invariant reader.Valid() && IsTable(litTable[..], litMax, lit) && IsTable(distTable[..], distMax, dist)
      invariant Prepended(tokens, GetTokens(lit, dist, mru.recent, reader.Rest(), count - k)) == goal
    {
      PrependedNext(tokens, lit, dist, mru.recent, reader.Rest(), count - k);
      var t := DecodeToken(reader, litTable, litMax, distTable, distMax, mru, lit, dist);
      if t.None? {
        return None;
      }
      tokens := tokens + [t.value];
    }
    assert tokens + [] == tokens;
    r := Some(tokens);
  }

  ghost function Prepended(ts: seq<Token>, rest: Option<seq<Token>>): Option<seq<Token>> {
    if rest.None? then None else Some(ts + rest.value)
  }

  lemma Behind(rest: Option<seq<Token>>)
    ensures Prepended([], rest) == rest
  {
    if rest.Some? {
      assert [] + rest.value == rest.value;
    }
  }

  lemma PrependedNext(ts: seq<Token>, lit: seq<HuffCode>, dist: seq<HuffCode>, r: Recent, bits: seq<bool>, count: nat)
    requires |lit| == LITLEN_SYMBOLS && |dist| == DIST_SYMBOLS && count > 0
    ensures var g := GetToken(lit, dist, r, bits);
            Prepended(ts, GetTokens(lit, dist, r, bits, count)) == if g.None? then None
            else Prepended(ts + [g.value.token], GetTokens(lit, dist, g.value.recent, g.value.bits, count - 1))
  {
    hide GetToken;
    var g := GetToken(lit, dist, r, bits);
    if g.Some? {
      var rest := GetTokens(lit, dist, g.value.recent, g.value.bits, count - 1);
      if rest.Some? {
        assert ts + ([g.value.token] + rest.value) == ts + [g.value.token] + rest.value;
      }
    }
  }
}
