/** One block of tokens as bits: two code-length headers, then the tokens, and what a
    decoder makes of any bits. */
module HuffmanBlock {
  import opened Bytes
  import opened BitStrings
  import opened BitWords
  import opened CodeLengths
  import opened CanonicalCode
  import opened DecodeTable
  import opened BitStream
  import opened LzTokens
  import opened Tokens
  import opened Sequences

  const HEADER_BITS: nat := 4

  /** The symbols and extra bits of a token. */
  datatype Coded = Lit(b: byte) | Pair(length: Code, dist: Code)

  function CodedToken(r: Recent, t: Token): Coded
    requires t.Match? ==> t.offset >= 1
  {
    match t
    case Literal(b) => Lit(b)
    case Match(offset, length) =>
      var i := Found(r, offset);
      Pair(LengthFrom(length, 0), if i.Some? then Code(REP_OFFSET_0 + i.value, 0, 0) else DistFrom(offset, 44))
  }

  function After(r: Recent, t: Token): Recent {
    match t
    case Literal(_) => r
    case Match(offset, _) =>
      var i := Found(r, offset);
      if i.Some? then Promoted(r, i.value) else Inserted(r, offset)
  }

  /** A match puts its offset to the front; the others keep their order, and the oldest falls out when
      the offset is new. */
  lemma AfterMoves(r: Recent, offset: nat, length: nat) returns (i: nat)
    ensures i < 4 && (r[i] == offset || (i == 3 && offset !in r)) && offset !in r[..i]
    ensures After(r, Match(offset, length)) == [offset] + r[..i] + r[i + 1..]
  {
    var f := Found(r, offset);
    i := if f.Some? then f.value else 3;
  }

  predicate AllValid(ts: seq<Token>) {
    forall k :: 0 <= k < |ts| ==> ValidToken(ts[k])
  }

  /** The cache after the first `k` tokens of a block. */
  function RecentAt(ts: seq<Token>, k: nat): Recent
    requires k <= |ts|
  {
    if k == 0 then FIRST_RECENT else After(RecentAt(ts, k - 1), ts[k - 1])
  }

  function CodedAt(ts: seq<Token>, k: nat): Coded
    requires k < |ts| && AllValid(ts)
  {
    CodedToken(RecentAt(ts, k), ts[k])
  }

  function LitSym(c: Coded): nat {
    match c
    case Lit(b) => b
    case Pair(length, _) => length.sym
  }

  /** Occurrences among the first `k` tokens. */
  ghost function LitCount(ts: seq<Token>, sym: nat, k: nat): nat
    requires k <= |ts| && AllValid(ts)
  {
    if k == 0 then 0 else LitCount(ts, sym, k - 1) + if LitSym(CodedAt(ts, k - 1)) == sym then 1 else 0
  }

  ghost function DistCount(ts: seq<Token>, sym: nat, k: nat): nat
    requires k <= |ts| && AllValid(ts)
  {
    if k == 0 then 0
    else DistCount(ts, sym, k - 1) + if CodedAt(ts, k - 1).Pair? && CodedAt(ts, k - 1).dist.sym == sym then 1 else 0
  }

  lemma {:induction false} CountsAtMost(ts: seq<Token>, sym: nat, k: nat)
    requires k <= |ts| && AllValid(ts)
    ensures LitCount(ts, sym, k) <= k && DistCount(ts, sym, k) <= k
  {
    hide CodedAt;
    if k > 0 {
      CountsAtMost(ts, sym, k - 1);
    }
  }

  lemma {:induction false} Counted(ts: seq<Token>, i: nat, k: nat)
    requires i < k <= |ts| && AllValid(ts)
    ensures LitCount(ts, LitSym(CodedAt(ts, i)), k) > 0
    ensures CodedAt(ts, i).Pair? ==> DistCount(ts, CodedAt(ts, i).dist.sym, k) > 0
    decreases k
  {
    hide CodedAt;
    if i + 1 < k {
      Counted(ts, i, k - 1);
    }
  }

  // ------------------------------------------------------------ bits

  ghost predicate CodePair(lit: seq<HuffCode>, dist: seq<HuffCode>) {
    |lit| == LITLEN_SYMBOLS && |dist| == DIST_SYMBOLS && Decodable(lit) && Decodable(dist)
  }

  /** Every symbol of the token has a code, and the extra bits fit. */
  ghost predicate HasCodes(lit: seq<HuffCode>, dist: seq<HuffCode>, c: Coded)
    requires CodePair(lit, dist)
  {
    match c
    case Lit(b) => lit[b].len > 0
    case Pair(l, d) => l.sym < LITLEN_SYMBOLS && d.sym < DIST_SYMBOLS && lit[l.sym].len > 0 && dist[d.sym].len > 0
  }

  ghost function TokenBits(lit: seq<HuffCode>, dist: seq<HuffCode>, c: Coded): seq<bool>
    requires CodePair(lit, dist) && HasCodes(lit, dist, c)
  {
    match c
    case Lit(b) => Word(lit[b])
    case Pair(l, d) => Word(lit[l.sym]) + Lsb(l.val, l.bits) + Word(dist[d.sym]) + Lsb(d.val, d.bits)
  }

  ghost predicate AllHaveCodes(lit: seq<HuffCode>, dist: seq<HuffCode>, ts: seq<Token>)
    requires CodePair(lit, dist) && AllValid(ts)
  {
    forall k :: 0 <= k < |ts| ==> HasCodes(lit, dist, CodedAt(ts, k))
  }

  /** The bits of the first `k` tokens. */
  ghost function TokensBits(lit: seq<HuffCode>, dist: seq<HuffCode>, ts: seq<Token>, k: nat): seq<bool>
    requires CodePair(lit, dist) && AllValid(ts) && AllHaveCodes(lit, dist, ts) && k <= |ts|
  {
    if k == 0 then [] else TokensBits(lit, dist, ts, k - 1) + TokenBits(lit, dist, CodedAt(ts, k - 1))
  }

  ghost function LengthsBits(lens: seq<nat>): seq<bool> {
    if lens == [] then [] else LengthsBits(lens[..|lens| - 1]) + Lsb(lens[|lens| - 1], HEADER_BITS)
  }

  // ------------------------------------------------------------ reading, for any bits

  datatype Got = Got(token: Token, recent: Recent, bits: seq<bool>)

  /** The match that a distance symbol completes. */
  ghost function GetDist(dist: seq<HuffCode>, length: nat, r: Recent, bits: seq<bool>): Option<Got>
    requires |dist| == DIST_SYMBOLS
  {
    var d := NextSymbol(dist, bits);
    if d.None? then None
    else
      var rest := bits[dist[d.value].len..];
      if d.value >= REP_OFFSET_0 then
        var i := d.value - REP_OFFSET_0;
        Some(Got(Match(r[i], length), Promoted(r, i), rest))
      else
        var range := DistTable()[d.value];
        var offset := range.base + Peek(rest, range.extra);
        Some(Got(Match(offset, length), Inserted(r, offset), Dropped(rest, range.extra)))
  }

  ghost function GetToken(lit: seq<HuffCode>, dist: seq<HuffCode>, r: Recent, bits: seq<bool>): Option<Got>
    requires |lit| == LITLEN_SYMBOLS && |dist| == DIST_SYMBOLS
  {
    var s := NextSymbol(lit, bits);
    if s.None? then None
    else
      var rest := bits[lit[s.value].len..];
      if s.value < 256 then Some(Got(Literal(s.value), r, rest))
      else if s.value < FIRST_LENGTH then None
      else
        var range := LengthTable()[s.value - FIRST_LENGTH];
        GetDist(dist, range.base + Peek(rest, range.extra), r, Dropped(rest, range.extra))
  }

  ghost function GetTokens(lit: seq<HuffCode>, dist: seq<HuffCode>, r: Recent, bits: seq<bool>, count: nat): Option<seq<Token>>
    requires |lit| == LITLEN_SYMBOLS && |dist| == DIST_SYMBOLS
    decreases count
  {
    if count == 0 then Some([])
    else
      var g := GetToken(lit, dist, r, bits);
      if g.None? then None
      else
        var rest := GetTokens(lit, dist, g.value.recent, g.value.bits, count - 1);
        if rest.None? then None else Some([g.value.token] + rest.value)
  }

  ghost function GetLengths(bits: seq<bool>, n: nat): (r: (seq<nat>, seq<bool>))
    ensures |r.0| == n
    decreases n, bits
  {
    if n == 0 then ([], bits)
    else
      var (lens, rest) := GetLengths(bits, n - 1);
      (lens + [Peek(rest, HEADER_BITS)], Dropped(rest, HEADER_BITS))
  }

  ghost function GetBlock(bits: seq<bool>, count: nat): Option<seq<Token>> {
    var (litLens, rest) := GetLengths(bits, LITLEN_SYMBOLS);
    var (distLens, body) := GetLengths(rest, DIST_SYMBOLS);
    if !(Short(litLens) && Kraft(litLens) <= KRAFT_ONE) || !(Short(distLens) && Kraft(distLens) <= KRAFT_ONE) then None
    else if count == 0 then None
    else GetTokens(Canonical(litLens), Canonical(distLens), FIRST_RECENT, body, count)
  }

  // ------------------------------------------------------------ round trip

  lemma CodeNext(codes: seq<HuffCode>, s: nat, rest: seq<bool>)
    requires Decodable(codes) && s < |codes| && codes[s].len > 0
    ensures NextSymbol(codes, Word(codes[s]) + rest) == Some(s)
    ensures (Word(codes[s]) + rest)[codes[s].len..] == rest
  {
    NextSymbolIs(codes, Word(codes[s]) + rest, s);
  }

  /** Writer and reader update their caches alike. */
  lemma GetsDist(dist: seq<HuffCode>, length: nat, offset: nat, r: Recent, rest: seq<bool>)
    requires |dist| == DIST_SYMBOLS && Decodable(dist) && ValidToken(Match(offset, length))
    requires var d := CodedToken(r, Match(offset, length)).dist; d.sym < DIST_SYMBOLS && dist[d.sym].len > 0
    ensures var d := CodedToken(r, Match(offset, length)).dist;
            GetDist(dist, length, r, Word(dist[d.sym]) + (Lsb(d.val, d.bits) + rest))
            == Some(Got(Match(offset, length), After(r, Match(offset, length)), rest))
  {
    hide NextSymbol, Word, DistFrom, DistTable, Peek, Dropped, Lsb, LengthFrom, LengthTable, Decodable, Pow2, Promoted;
    var t := Match(offset, length);
    var d := CodedToken(r, t).dist;
    CodeNext(dist, d.sym, Lsb(d.val, d.bits) + rest);
    var i := Found(r, offset);
    if i.Some? {
      NoBits(d.val, rest);
    } else {
      DistRoundTrip(offset);
      PeekWritten(d.val, d.bits, rest);
    }
  }

  lemma NoBits(v: nat, rest: seq<bool>)
    ensures Lsb(v, 0) + rest == rest
  {
  }

  lemma GetsToken(lit: seq<HuffCode>, dist: seq<HuffCode>, r: Recent, t: Token, rest: seq<bool>)
    requires CodePair(lit, dist) && ValidToken(t) && HasCodes(lit, dist, CodedToken(r, t))
    ensures GetToken(lit, dist, r, TokenBits(lit, dist, CodedToken(r, t)) + rest) == Some(Got(t, After(r, t), rest))
  {
    hide NextSymbol, Word, DistFrom, LengthFrom, LengthTable, Peek, Dropped, Lsb, GetDist, Decodable;
    match t
    case Literal(b) => CodeNext(lit, b, rest);
    case Match(offset, length) =>
      var c := CodedToken(r, t);
      var l, d := c.length, c.dist;
      LengthRoundTrip(length);
      var tail := Word(dist[d.sym]) + (Lsb(d.val, d.bits) + rest);
      FourParts(Word(lit[l.sym]), Lsb(l.val, l.bits), Word(dist[d.sym]), Lsb(d.val, d.bits), rest);
      CodeNext(lit, l.sym, Lsb(l.val, l.bits) + tail);
      PeekWritten(l.val, l.bits, tail);
      GetsDist(dist, length, offset, r, rest);
  }

  lemma FourParts(a: seq<bool>, b: seq<bool>, c: seq<bool>, d: seq<bool>, rest: seq<bool>)
    ensures a + b + c + d + rest == a + (b + (c + (d + rest)))
  {
  }

  /** The bits of the tokens from `k` on. */
  ghost function BitsFrom(lit: seq<HuffCode>, dist: seq<HuffCode>, ts: seq<Token>, k: nat): seq<bool>
    requires CodePair(lit, dist) && AllValid(ts) && AllHaveCodes(lit, dist, ts) && k <= |ts|
    decreases |ts| - k
  {
    if k == |ts| then [] else TokenBits(lit, dist, CodedAt(ts, k)) + BitsFrom(lit, dist, ts, k + 1)
  }

  lemma {:induction false} BitsSplit(lit: seq<HuffCode>, dist: seq<HuffCode>, ts: seq<Token>, k: nat)
    requires CodePair(lit, dist) && AllValid(ts) && AllHaveCodes(lit, dist, ts) && k <= |ts|
    ensures TokensBits(lit, dist, ts, |ts|) == TokensBits(lit, dist, ts, k) + BitsFrom(lit, dist, ts, k)
    decreases |ts| - k
  {
    hide TokenBits, CodedAt, CodePair, HasCodes;
    if k < |ts| {
      BitsSplit(lit, dist, ts, k + 1);
      var a, b, c := TokensBits(lit, dist, ts, k), TokenBits(lit, dist, CodedAt(ts, k)), BitsFrom(lit, dist, ts, k + 1);
      assert a + b + c == a + (b + c);
    }
  }

  lemma {:induction false} GetsTokens(lit: seq<HuffCode>, dist: seq<HuffCode>, ts: seq<Token>, k: nat, rest: seq<bool>)
    requires CodePair(lit, dist) && AllValid(ts) && AllHaveCodes(lit, dist, ts) && k <= |ts|
    ensures GetTokens(lit, dist, RecentAt(ts, k), BitsFrom(lit, dist, ts, k) + rest, |ts| - k) == Some(ts[k..])
    decreases |ts| - k
  {
    hide TokenBits, GetToken, After, HasCodes, CodedToken;
    if k < |ts| {
      var c := CodedAt(ts, k);
      assert HasCodes(lit, dist, c);
      assert TokenBits(lit, dist, c) + BitsFrom(lit, dist, ts, k + 1) + rest
          == TokenBits(lit, dist, c) + (BitsFrom(lit, dist, ts, k + 1) + rest);
      GetsToken(lit, dist, RecentAt(ts, k), ts[k], BitsFrom(lit, dist, ts, k + 1) + rest);
      GetsTokens(lit, dist, ts, k + 1, rest);
      assert [ts[k]] + ts[k + 1..] == ts[k..];
    } else {
      assert ts[k..] == [];
    }
  }

  lemma {:induction false} GetsLengths(lens: seq<nat>, rest: seq<bool>)
    requires Short(lens)
    ensures GetLengths(LengthsBits(lens) + rest, |lens|) == (lens, rest)
    decreases |lens|
  {
    hide Lsb, Peek, Dropped;
    if lens == [] {
      assert LengthsBits(lens) + rest == rest;
    } else {
      var m := |lens| - 1;
      var tail := Lsb(lens[m], HEADER_BITS) + rest;
      assert LengthsBits(lens) + rest == LengthsBits(lens[..m]) + tail;
      GetsLengths(lens[..m], tail);
      FourBits();
      PeekWritten(lens[m], HEADER_BITS, rest);
      assert lens[..m] + [lens[m]] == lens;
    }
  }

  lemma FourBits()
    ensures Pow2(HEADER_BITS) == 16
  {
  }

  /** Lengths a block may be written with. */
  ghost predicate Usable(lens: seq<nat>) {
    Short(lens) && Kraft(lens) <= KRAFT_ONE
  }

  lemma UsableCodes(litLens: seq<nat>, distLens: seq<nat>)
    requires |litLens| == LITLEN_SYMBOLS && |distLens| == DIST_SYMBOLS && Usable(litLens) && Usable(distLens)
    ensures CodePair(Canonical(litLens), Canonical(distLens))
  {
    hide Decodable, Kraft;
    CanonicalDecodable(litLens);
    CanonicalDecodable(distLens);
  }

  /** The bits of a whole block under the given code lengths. */
  ghost function BlockBits(litLens: seq<nat>, distLens: seq<nat>, ts: seq<Token>): seq<bool>
    requires |litLens| == LITLEN_SYMBOLS && |distLens| == DIST_SYMBOLS && Usable(litLens) && Usable(distLens)
    requires AllValid(ts) && CodePair(Canonical(litLens), Canonical(distLens))
    requires AllHaveCodes(Canonical(litLens), Canonical(distLens), ts)
  {
    LengthsBits(litLens) + LengthsBits(distLens) + TokensBits(Canonical(litLens), Canonical(distLens), ts, |ts|)
  }

  /** Reading a written block, whatever bits follow it, returns its tokens. */
  lemma BlockRoundTrip(litLens: seq<nat>, distLens: seq<nat>, ts: seq<Token>, bits: seq<bool>)
    requires |litLens| == LITLEN_SYMBOLS && |distLens| == DIST_SYMBOLS && Usable(litLens) && Usable(distLens)
    requires AllValid(ts) && ts != [] && CodePair(Canonical(litLens), Canonical(distLens))
    requires AllHaveCodes(Canonical(litLens), Canonical(distLens), ts)
    requires BlockBits(litLens, distLens, ts) <= bits
    ensures GetBlock(bits, |ts|) == Some(ts)
  {
    hide Kraft, CodePair, AllHaveCodes, GetTokens, LengthsBits, TokensBits, Canonical, BitsFrom, GetLengths;
    var lit, dist := Canonical(litLens), Canonical(distLens);
    var rest := bits[|BlockBits(litLens, distLens, ts)|..];
    var body := TokensBits(lit, dist, ts, |ts|) + rest;
    assert bits == LengthsBits(litLens) + (LengthsBits(distLens) + body);
    GetsLengths(litLens, LengthsBits(distLens) + body);
    GetsLengths(distLens, body);
    BitsSplit(lit, dist, ts, 0);
    NoTokenBits(lit, dist, ts);
    GetsTokens(lit, dist, ts, 0, rest);
    assert RecentAt(ts, 0) == FIRST_RECENT && ts[0..] == ts;
  }

  lemma NoTokenBits(lit: seq<HuffCode>, dist: seq<HuffCode>, ts: seq<Token>)
    requires CodePair(lit, dist) && AllValid(ts) && AllHaveCodes(lit, dist, ts)
    ensures TokensBits(lit, dist, ts, 0) + BitsFrom(lit, dist, ts, 0) == BitsFrom(lit, dist, ts, 0)
  {
    assert TokensBits(lit, dist, ts, 0) == [];
  }

  // ------------------------------------------------------------ size

  lemma TokenSize(lit: seq<HuffCode>, dist: seq<HuffCode>, r: Recent, t: Token)
    requires CodePair(lit, dist) && ValidToken(t) && HasCodes(lit, dist, CodedToken(r, t))
    ensures |TokenBits(lit, dist, CodedToken(r, t))| <= 55
  {
    hide LengthTable, DistTable, LengthFrom, DistFrom, Lsb, Word, Msb;
    if t.Match? {
      LengthRoundTrip(t.length);
      DistRoundTrip(t.offset);
      WordSize(lit, LitSym(CodedToken(r, t)));
      WordSize(dist, CodedToken(r, t).dist.sym);
    } else {
      WordSize(lit, t.b);
    }
  }

  lemma WordSize(codes: seq<HuffCode>, s: nat)
    requires Decodable(codes) && s < |codes|
    ensures |Word(codes[s])| <= MAX_BITS
  {
  }

  lemma {:induction false} TokensSize(lit: seq<HuffCode>, dist: seq<HuffCode>, ts: seq<Token>, k: nat)
    requires CodePair(lit, dist) && AllValid(ts) && AllHaveCodes(lit, dist, ts) && k <= |ts|
    ensures |TokensBits(lit, dist, ts, k)| <= 55 * k
  {
    hide TokenBits, HasCodes, After, CodedToken;
    if k > 0 {
      TokensSize(lit, dist, ts, k - 1);
      assert HasCodes(lit, dist, CodedAt(ts, k - 1));
      TokenSize(lit, dist, RecentAt(ts, k - 1), ts[k - 1]);
    }
  }

  lemma {:induction false} LengthsSize(lens: seq<nat>)
    ensures |LengthsBits(lens)| == 4 * |lens|
  {
    if lens != [] {
      LengthsSize(lens[..|lens| - 1]);
    }
  }

  lemma BlockSize(litLens: seq<nat>, distLens: seq<nat>, ts: seq<Token>)
    requires |litLens| == LITLEN_SYMBOLS && |distLens| == DIST_SYMBOLS && Usable(litLens) && Usable(distLens)
    requires AllValid(ts) && CodePair(Canonical(litLens), Canonical(distLens))
    requires AllHaveCodes(Canonical(litLens), Canonical(distLens), ts)
    ensures |BlockBits(litLens, distLens, ts)| <= 1336 + 55 * |ts|
  {
    hide CodePair, AllHaveCodes, TokensBits, LengthsBits, Canonical, Usable;
    LengthsSize(litLens);
    LengthsSize(distLens);
    TokensSize(Canonical(litLens), Canonical(distLens), ts, |ts|);
  }
}
