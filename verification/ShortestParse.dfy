/** Optimal parsing of the LZ77 stage: a shortest path over literals and offered matches. */
module ShortestParse {
  import opened Arithmetic
  import opened Bytes
  import opened Sequences
  import opened Suffixes
  import opened Tokens
  import opened LzTokens
  import opened HashChains
  import opened Lz77

  const COST_INF: nat := 0x7FFF_FFFF_FFFF_FFFF
  const COST_SCALE: nat := 256

  // ------------------------------------------------------------ prices

  datatype Prices = Prices(litlen: seq<nat>, dist: seq<nat>)

  predicate Priced(p: Prices) {
    |p.litlen| == LITLEN_SYMBOLS && |p.dist| == DIST_SYMBOLS
  }

  function Bits(n: nat): nat {
    COST_SCALE * n
  }

  function InitialLitPrice(i: nat): nat
    requires i < LITLEN_SYMBOLS
  {
    if i < FIRST_LENGTH then Bits(8) else Bits(7 + LengthTable()[i - FIRST_LENGTH].extra)
  }

  function InitialDistPrice(i: nat): nat {
    if i < REP_OFFSET_0 then Bits(5 + DistTable()[i].extra) else Bits(2)
  }

  /** Every symbol of the first pass has a price. */
  function InitialPrices(): (p: Prices)
    ensures Priced(p) && forall i :: 0 <= i < 256 ==> p.litlen[i] == Bits(8)
  {
    Prices(
      seq<nat>(LITLEN_SYMBOLS, i requires 0 <= i < LITLEN_SYMBOLS => InitialLitPrice(i)),
      seq<nat>(DIST_SYMBOLS, i requires 0 <= i < DIST_SYMBOLS => InitialDistPrice(i)))
  }

  function LiteralCost(p: Prices, b: byte): nat
    requires Priced(p)
  {
    p.litlen[b]
  }

  predicate InLimits(length: nat, offset: nat) {
    MIN_MATCH <= length <= MAX_MATCH && 1 <= offset <= MAX_WINDOW
  }

  ghost function MatchCost(p: Prices, length: nat, offset: nat): nat
    requires Priced(p) && InLimits(length, offset)
  {
    LengthRoundTrip(length);
    DistRoundTrip(offset);
    var l, d := LengthFrom(length, 0), DistFrom(offset, 44);
    if p.litlen[l.sym] >= COST_INF || p.dist[d.sym] >= COST_INF then COST_INF
    else p.litlen[l.sym] + Bits(l.bits) + p.dist[d.sym] + Bits(d.bits)
  }

  method PriceMatch(p: Prices, length: nat, offset: nat) returns (cost: nat)
    requires Priced(p) && InLimits(length, offset)
    ensures cost == MatchCost(p, length, offset)
  {
    hide LengthTable, DistTable, LengthFrom, DistFrom;
    LengthRoundTrip(length);
    DistRoundTrip(offset);
    var l := EncodeLength(length);
    var d := EncodeOffset(offset);
    if p.litlen[l.sym] >= COST_INF || p.dist[d.sym] >= COST_INF {
      return COST_INF;
    }
    cost := p.litlen[l.sym] + Bits(l.bits) + p.dist[d.sym] + Bits(d.bits);
  }

  // ------------------------------------------------------------ paths through the offered edges

  datatype Edge = Edge(length: nat, offset: nat)

  /** For each position the match edges the finder offered there, every one a true match. */
  ghost predicate Offered(offers: seq<seq<Edge>>, data: seq<byte>) {
    |offers| == |data|
    && forall i :: 0 <= i < |data| ==> forall e :: e in offers[i] ==> Usable(data, i, e.offset, e.length)
  }

  lemma OfferedEdge(offers: seq<seq<Edge>>, data: seq<byte>, i: nat, e: Edge)
    requires Offered(offers, data) && i < |data| && e in offers[i]
    ensures Usable(data, i, e.offset, e.length) && InLimits(e.length, e.offset) && i + e.length <= |data|
  {
  }

  /** The tokens lead from the start to `pos`, matches only along offered edges. */
  ghost predicate Path(tokens: seq<Token>, offers: seq<seq<Edge>>, data: seq<byte>, pos: nat)
    requires |offers| == |data| && pos <= |data|
  {
    if tokens == [] then pos == 0
    else
      var front := tokens[..|tokens| - 1];
      match tokens[|tokens| - 1]
      case Literal(b) => pos >= 1 && b == data[pos - 1] && Path(front, offers, data, pos - 1)
      case Match(offset, length) =>
        1 <= length <= pos && Edge(length, offset) in offers[pos - length] && Path(front, offers, data, pos - length)
  }

  ghost function TokenCost(p: Prices, t: Token): nat
    requires Priced(p) && ValidToken(t)
  {
    match t
    case Literal(b) => LiteralCost(p, b)
    case Match(offset, length) => MatchCost(p, length, offset)
  }

  ghost predicate AllValid(tokens: seq<Token>) {
    forall k :: 0 <= k < |tokens| ==> ValidToken(tokens[k])
  }

  ghost function Cost(p: Prices, tokens: seq<Token>): nat
    requires Priced(p) && AllValid(tokens)
  {
    if tokens == [] then 0
    else Cost(p, tokens[..|tokens| - 1]) + TokenCost(p, tokens[|tokens| - 1])
  }

  lemma {:induction false} PathValid(tokens: seq<Token>, offers: seq<seq<Edge>>, data: seq<byte>, pos: nat)
    requires Offered(offers, data) && pos <= |data| && Path(tokens, offers, data, pos)
    ensures AllValid(tokens) && Covers(tokens, data, pos)
    decreases |tokens|
  {
    hide Offered, Usable, Covers;
    if tokens == [] {
      NothingCovered(data);
    } else {
      var front, t := tokens[..|tokens| - 1], tokens[|tokens| - 1];
      assert tokens == front + [t];
      match t
      case Literal(b) =>
        PathValid(front, offers, data, pos - 1);
        CoverLiteral(front, data, pos - 1);
      case Match(offset, length) =>
        PathValid(front, offers, data, pos - length);
        OfferedEdge(offers, data, pos - length, Edge(length, offset));
        CoverMatch(front, data, pos - length, offset, length);
    }
  }

  // ------------------------------------------------------------ the relaxed table

  datatype Table = Table(cost: seq<nat>, len: seq<nat>, dist: seq<nat>)

  ghost predicate Sized(t: Table, n: nat) {
    |t.cost| == n + 1 && |t.len| == n + 1 && |t.dist| == n + 1 && t.cost[0] == 0
    && forall j :: 0 <= j <= n ==> t.cost[j] <= COST_INF
  }

  /** No edge out of `i` still improves its end. */
  ghost predicate Relaxed(t: Table, p: Prices, offers: seq<seq<Edge>>, data: seq<byte>, i: nat)
    requires Priced(p) && Sized(t, |data|) && i < |data| && |offers| > i
  {
    && t.cost[i + 1] <= t.cost[i] + LiteralCost(p, data[i])
    && forall e :: e in offers[i] ==>
         InLimits(e.length, e.offset) && i + e.length <= |data|
         && t.cost[i + e.length] <= t.cost[i] + MatchCost(p, e.length, e.offset)
  }

  /** Position `j` was reached by the edge the table names, at exactly its cost;
      positions never reached are left as literals. */
  ghost predicate Reached(t: Table, p: Prices, offers: seq<seq<Edge>>, data: seq<byte>, j: nat)
    requires Priced(p) && Sized(t, |data|) && 0 < j <= |data| && |offers| == |data|
  {
    if t.len[j] == 0 then t.cost[j] < COST_INF ==> t.cost[j - 1] < COST_INF && t.cost[j] == t.cost[j - 1] + LiteralCost(p, data[j - 1])
    else
      && t.cost[j] < COST_INF && t.len[j] <= j && Edge(t.len[j], t.dist[j]) in offers[j - t.len[j]]
      && InLimits(t.len[j], t.dist[j])
      && t.cost[j - t.len[j]] < COST_INF
      && t.cost[j] == t.cost[j - t.len[j]] + MatchCost(p, t.len[j], t.dist[j])
  }

  ghost predicate Solved(t: Table, p: Prices, offers: seq<seq<Edge>>, data: seq<byte>)
    requires Priced(p)
  {
    && Sized(t, |data|) && |offers| == |data| && Offered(offers, data)
    && (forall i :: 0 <= i < |data| ==> t.cost[i] < COST_INF ==> Relaxed(t, p, offers, data, i))
    && (forall j :: 0 < j <= |data| ==> Reached(t, p, offers, data, j))
  }

  /** A relaxed table bounds every path from below, infinite prices included. */
  lemma {:induction false} NoCheaperPath(t: Table, p: Prices, offers: seq<seq<Edge>>, data: seq<byte>, tokens: seq<Token>, pos: nat)
    requires Priced(p) && Solved(t, p, offers, data) && pos <= |data| && Path(tokens, offers, data, pos)
    requires AllValid(tokens)
    ensures t.cost[pos] <= Cost(p, tokens)
    decreases |tokens|
  {
    hide Offered, Reached, MatchCost;
    if tokens != [] {
      var front, last := tokens[..|tokens| - 1], tokens[|tokens| - 1];
      var from := if last.Literal? then pos - 1 else pos - last.length;
      NoCheaperPath(t, p, offers, data, front, from);
      assert t.cost[from] < COST_INF ==> Relaxed(t, p, offers, data, from);
    }
  }

  function Back(t: Table, data: seq<byte>, pos: nat): (token: Token)
    requires 0 < pos <= |data| && |t.len| == |data| + 1 && |t.dist| == |data| + 1
  {
    if t.len[pos] == 0 then Literal(data[pos - 1]) else Match(t.dist[pos], t.len[pos])
  }

  ghost function Trace(t: Table, p: Prices, offers: seq<seq<Edge>>, data: seq<byte>, pos: nat): seq<Token>
    requires Priced(p) && Solved(t, p, offers, data) && pos <= |data|
    decreases pos
  {
    if pos == 0 then []
    else
      assert Reached(t, p, offers, data, pos);
      Trace(t, p, offers, data, if t.len[pos] == 0 then pos - 1 else pos - t.len[pos]) + [Back(t, data, pos)]
  }

  /** Tracing back gives a path even through positions no edge reached; where the end
      was reached, the path costs what the table says. */
  lemma {:induction false} TraceIsPath(t: Table, p: Prices, offers: seq<seq<Edge>>, data: seq<byte>, pos: nat)
    requires Priced(p) && Solved(t, p, offers, data) && pos <= |data|
    ensures var tokens := Trace(t, p, offers, data, pos);
      && Path(tokens, offers, data, pos)
      && AllValid(tokens)
      && (t.cost[pos] < COST_INF ==> Cost(p, tokens) == t.cost[pos])
    decreases pos
  {
    hide Offered, Relaxed, MatchCost;
    if pos > 0 {
      assert Reached(t, p, offers, data, pos);
      var from := if t.len[pos] == 0 then pos - 1 else pos - t.len[pos];
      TraceIsPath(t, p, offers, data, from);
      var front, tokens := Trace(t, p, offers, data, from), Trace(t, p, offers, data, pos);
      assert tokens == front + [Back(t, data, pos)] && tokens[..|tokens| - 1] == front;
    }
  }

  // ------------------------------------------------------------ relaxing one edge

  ghost predicate FromAtMost(t: Table, j: nat, i: nat)
    requires 0 < j < |t.cost| && |t.len| == |t.cost|
  {
    t.cost[j] < COST_INF ==> if t.len[j] == 0 then j - 1 <= i else j - t.len[j] <= i
  }

  /** The table while the edges out of `i` are being tried. */
  ghost predicate Progress(t: Table, p: Prices, offers: seq<seq<Edge>>, data: seq<byte>, i: nat)
    requires Priced(p)
  {
    && Sized(t, |data|) && |offers| == |data| && Offered(offers, data)
    && (forall k :: 0 <= k < |data| && k < i ==> t.cost[k] < COST_INF ==> Relaxed(t, p, offers, data, k))
    && (forall j :: 0 < j <= |data| ==> Reached(t, p, offers, data, j) && FromAtMost(t, j, i))
  }

  function Improved(t: Table, end: nat, cost: nat, len: nat, dist: nat): Table
    requires end < |t.cost| && |t.len| == |t.dist| == |t.cost|
  {
    if cost < t.cost[end] then Table(t.cost[end := cost], t.len[end := len], t.dist[end := dist]) else t
  }

  lemma TryLiteral(t: Table, p: Prices, offers: seq<seq<Edge>>, data: seq<byte>, i: nat)
    requires Priced(p) && Progress(t, p, offers, data, i) && i < |data| && t.cost[i] < COST_INF && offers[i] == []
    ensures var u := Improved(t, i + 1, t.cost[i] + LiteralCost(p, data[i]), 0, 0);
      Progress(u, p, offers, data, i) && u.cost[i] < COST_INF && Relaxed(u, p, offers, data, i)
  {
    hide Offered, MatchCost, InLimits, Relaxed, Reached, FromAtMost;
    var u := Improved(t, i + 1, t.cost[i] + LiteralCost(p, data[i]), 0, 0);
    LiteralRelaxed(t, p, offers, data, i);
    forall k | 0 <= k < i && u.cost[k] < COST_INF ensures Relaxed(u, p, offers, data, k) {
      assert Relaxed(t, p, offers, data, k);
      LiteralKeepsRelaxed(t, p, offers, data, i, k);
    }
    forall j | 0 < j <= |data| ensures Reached(u, p, offers, data, j) && FromAtMost(u, j, i) {
      assert Reached(t, p, offers, data, j) && FromAtMost(t, j, i);
      LiteralKeepsReached(t, p, offers, data, i, j);
    }
  }

  lemma LiteralRelaxed(t: Table, p: Prices, offers: seq<seq<Edge>>, data: seq<byte>, i: nat)
    requires Priced(p) && Sized(t, |data|) && |offers| == |data| && i < |data| && offers[i] == []
    ensures var u := Improved(t, i + 1, t.cost[i] + LiteralCost(p, data[i]), 0, 0);
      Sized(u, |data|) && Relaxed(u, p, offers, data, i)
  {
    hide MatchCost, InLimits;
  }

  lemma LiteralKeepsRelaxed(t: Table, p: Prices, offers: seq<seq<Edge>>, data: seq<byte>, i: nat, k: nat)
    requires Priced(p) && Sized(t, |data|) && |offers| == |data| && k < i < |data| && Relaxed(t, p, offers, data, k)
    ensures var u := Improved(t, i + 1, t.cost[i] + LiteralCost(p, data[i]), 0, 0);
      Sized(u, |data|) && Relaxed(u, p, offers, data, k)
  {
    hide MatchCost, InLimits;
  }

  lemma LiteralKeepsReached(t: Table, p: Prices, offers: seq<seq<Edge>>, data: seq<byte>, i: nat, j: nat)
    requires Priced(p) && Sized(t, |data|) && |offers| == |data| && i < |data| && t.cost[i] < COST_INF
    requires 0 < j <= |data| && Reached(t, p, offers, data, j) && FromAtMost(t, j, i)
    ensures var u := Improved(t, i + 1, t.cost[i] + LiteralCost(p, data[i]), 0, 0);
      Sized(u, |data|) && Reached(u, p, offers, data, j) && FromAtMost(u, j, i)
  {
    hide MatchCost, InLimits;
  }

  lemma TryEdge(t: Table, p: Prices, offers: seq<seq<Edge>>, data: seq<byte>, i: nat, e: Edge)
    requires Priced(p) && Progress(t, p, offers, data, i) && i < |data| && t.cost[i] < COST_INF
    requires Relaxed(t, p, offers, data, i) && Usable(data, i, e.offset, e.length)
    ensures InLimits(e.length, e.offset) && i + e.length <= |data|
    ensures var u := Improved(t, i + e.length, t.cost[i] + MatchCost(p, e.length, e.offset), e.length, e.offset);
      var more := offers[i := offers[i] + [e]];
      Progress(u, p, more, data, i) && u.cost[i] < COST_INF && Relaxed(u, p, more, data, i)
  {
    hide Offered, MatchCost, Relaxed, Reached, FromAtMost;
    UsableLimits(data, i, e);
    hide InLimits, Usable;
    var cost := t.cost[i] + MatchCost(p, e.length, e.offset);
    var u := Improved(t, i + e.length, cost, e.length, e.offset);
    var more := offers[i := offers[i] + [e]];
    OfferOne(offers, data, i, e);
    EdgeKeepsRelaxed(t, p, offers, data, i, e, i);
    forall k | 0 <= k < i && u.cost[k] < COST_INF ensures Relaxed(u, p, more, data, k) {
      assert Relaxed(t, p, offers, data, k);
      EdgeKeepsRelaxed(t, p, offers, data, i, e, k);
    }
    forall j | 0 < j <= |data| ensures Reached(u, p, more, data, j) && FromAtMost(u, j, i) {
      assert Reached(t, p, offers, data, j) && FromAtMost(t, j, i);
      EdgeKeepsReached(t, p, offers, data, i, e, j);
    }
  }

  lemma EdgeKeepsRelaxed(t: Table, p: Prices, offers: seq<seq<Edge>>, data: seq<byte>, i: nat, e: Edge, k: nat)
    requires Priced(p) && Sized(t, |data|) && |offers| == |data| && k <= i < |data| && t.cost[i] < COST_INF
    requires InLimits(e.length, e.offset) && i + e.length <= |data|
    requires Relaxed(t, p, offers, data, k)
    ensures var u := Improved(t, i + e.length, t.cost[i] + MatchCost(p, e.length, e.offset), e.length, e.offset);
      Sized(u, |data|) && Relaxed(u, p, offers[i := offers[i] + [e]], data, k)
  {
    hide MatchCost;
  }

  lemma EdgeKeepsReached(t: Table, p: Prices, offers: seq<seq<Edge>>, data: seq<byte>, i: nat, e: Edge, j: nat)
    requires Priced(p) && Sized(t, |data|) && |offers| == |data| && i < |data| && t.cost[i] < COST_INF
    requires InLimits(e.length, e.offset) && i + e.length <= |data|
    requires 0 < j <= |data| && Reached(t, p, offers, data, j) && FromAtMost(t, j, i)
    ensures var u := Improved(t, i + e.length, t.cost[i] + MatchCost(p, e.length, e.offset), e.length, e.offset);
      Sized(u, |data|) && Reached(u, p, offers[i := offers[i] + [e]], data, j) && FromAtMost(u, j, i)
  {
    hide MatchCost;
  }

  lemma UsableLimits(data: seq<byte>, i: nat, e: Edge)
    requires Usable(data, i, e.offset, e.length)
    ensures InLimits(e.length, e.offset) && i + e.length <= |data| && e.length >= MIN_MATCH
  {
  }

  lemma OfferOne(offers: seq<seq<Edge>>, data: seq<byte>, i: nat, e: Edge)
    requires Offered(offers, data) && i < |data| && Usable(data, i, e.offset, e.length)
    ensures Offered(offers[i := offers[i] + [e]], data)
  {
    hide Usable;
  }

  // ------------------------------------------------------------ the edges the finder offers

  function Below(steps: seq<nat>, m: nat): (s: seq<nat>)
    ensures forall k :: 0 <= k < |s| ==> MIN_MATCH < s[k] < m
  {
    if steps == [] then []
    else (if MIN_MATCH < steps[0] < m then [steps[0]] else []) + Below(steps[1..], m)
  }

  /** Short matches are tried at every length, long ones at a few and at the longest. */
  function LengthsTried(m: nat): (s: seq<nat>)
    requires m >= MIN_MATCH
    ensures forall k :: 0 <= k < |s| ==> MIN_MATCH <= s[k] <= m
    ensures |s| > 0 && s[|s| - 1] == m
  {
    if m <= 10 then seq<nat>(m - 2, k requires 0 <= k => MIN_MATCH + k)
    else [MIN_MATCH] + Below([4, 6, 8, 12, 16, 24, 32, 48, 64, 96, 128, 192, 258], m) + [m]
  }

  /** A match at every length tried. */
  function Expanded(m: Edge): (edges: seq<Edge>)
    requires m.length >= MIN_MATCH
  {
    var lengths := LengthsTried(m.length);
    seq<Edge>(|lengths|, k requires 0 <= k < |lengths| => Edge(lengths[k], m.offset))
  }

  predicate LongEnough(matches: seq<Edge>) {
    forall k :: 0 <= k < |matches| ==> matches[k].length >= MIN_MATCH
  }

  function AllExpanded(matches: seq<Edge>): (edges: seq<Edge>)
    requires LongEnough(matches)
  {
    if matches == [] then []
    else AllExpanded(matches[..|matches| - 1]) + Expanded(matches[|matches| - 1])
  }

  function Matched(hits: seq<Hit>): (matches: seq<Edge>)
    ensures |matches| == |hits|
  {
    seq<Edge>(|hits|, k requires 0 <= k < |hits| => Edge(hits[k].length, hits[k].offset))
  }

  /** The matches the walk along the chain reports. */
  function Reported(c: Chain, data: seq<byte>, pos: nat): (matches: seq<Edge>)
    requires Shaped(c) && pos <= |data|
    ensures LongEnough(matches)
  {
    HitsAreRecords(c, data, pos);
    Matched(Hits(c, data, pos))
  }

  /** The match edges out of `pos`: each match reported, at each length tried. */
  function OffersAt(c: Chain, data: seq<byte>, pos: nat): (edges: seq<Edge>)
    requires Shaped(c) && pos <= |data|
  {
    AllExpanded(Reported(c, data, pos))
  }

  lemma ReportedUsable(c: Chain, data: seq<byte>, pos: nat)
    requires Shaped(c) && pos <= |data|
    ensures forall k :: 0 <= k < |Reported(c, data, pos)| ==>
      Usable(data, pos, Reported(c, data, pos)[k].offset, Reported(c, data, pos)[k].length)
  {
    hide Hits, Usable, CommonRun;
    HitsAreRecords(c, data, pos);
  }

  // ------------------------------------------------------------ a pass over the data

  function StartTable(n: nat): (t: Table)
    ensures |t.cost| == |t.len| == |t.dist| == n + 1
    ensures forall j :: 0 <= j <= n ==> t.len[j] == 0 && t.cost[j] == if j == 0 then 0 else COST_INF
  {
    Table(seq(n + 1, j => if j == 0 then 0 else COST_INF), seq(n + 1, j => 0), seq(n + 1, j => 0))
  }

  /** One edge out of `i`, skipped where it would lead past the end. */
  ghost function TriedEdge(t: Table, p: Prices, i: nat, e: Edge): (u: Table)
    requires Priced(p) && i < |t.cost| && |t.len| == |t.dist| == |t.cost|
    ensures |u.len| == |u.dist| == |u.cost| == |t.cost|
  {
    if InLimits(e.length, e.offset) && i + e.length < |t.cost| then
      Improved(t, i + e.length, t.cost[i] + MatchCost(p, e.length, e.offset), e.length, e.offset)
    else t
  }

  ghost function Tried(t: Table, p: Prices, i: nat, edges: seq<Edge>): (u: Table)
    requires Priced(p) && i < |t.cost| && |t.len| == |t.dist| == |t.cost|
    ensures |u.len| == |u.dist| == |u.cost| == |t.cost|
    decreases |edges|
  {
    if edges == [] then t else TriedEdge(Tried(t, p, i, edges[..|edges| - 1]), p, i, edges[|edges| - 1])
  }

  /** The literal out of `i`. */
  ghost function TriedLiteral(t: Table, p: Prices, data: seq<byte>, i: nat): (u: Table)
    requires Priced(p) && i < |data| && |t.len| == |t.dist| == |t.cost| == |data| + 1
    ensures |u.len| == |u.dist| == |u.cost| == |t.cost|
  {
    Improved(t, i + 1, t.cost[i] + LiteralCost(p, data[i]), 0, 0)
  }

  /** A pass so far: the chain, the table, and the edges offered at each position passed. */
  datatype Pass = Pass(chain: Chain, table: Table, offers: seq<seq<Edge>>)

  ghost predicate Passing(s: Pass, data: seq<byte>, i: nat) {
    && Shaped(s.chain) && |s.offers| == i <= |data|
    && |s.table.cost| == |s.table.len| == |s.table.dist| == |data| + 1
  }

  /** Position `i`: only where some edge led there is it inserted and left. */
  ghost function Left(s: Pass, p: Prices, data: seq<byte>, i: nat): (u: Pass)
    requires Priced(p) && i < |data| && Passing(s, data, i)
    ensures Passing(u, data, i + 1)
  {
    if s.table.cost[i] >= COST_INF then Pass(s.chain, s.table, s.offers + [[]])
    else
      var chain := LinkedAt(s.chain, data, i);
      var edges := OffersAt(chain, data, i);
      Pass(chain, Tried(TriedLiteral(s.table, p, data, i), p, i, edges), s.offers + [edges])
  }

  /** The pass up to position `i`, under the prices `p`. */
  ghost function Passed(p: Prices, data: seq<byte>, i: nat): (s: Pass)
    requires Priced(p) && i <= |data|
    ensures Passing(s, data, i)
    decreases i
  {
    if i == 0 then Pass(EmptyChain(), StartTable(|data|), []) else Left(Passed(p, data, i - 1), p, data, i - 1)
  }

  /** The edges a pass under the prices `p` offers at each position. */
  ghost function Offers(p: Prices, data: seq<byte>): (offers: seq<seq<Edge>>)
    requires Priced(p)
    ensures |offers| == |data|
  {
    Passed(p, data, |data|).offers
  }

  lemma {:induction false} TriedMore(t: Table, p: Prices, i: nat, edges: seq<Edge>, more: seq<Edge>)
    requires Priced(p) && i < |t.cost| && |t.len| == |t.dist| == |t.cost|
    ensures Tried(t, p, i, edges + more) == Tried(Tried(t, p, i, edges), p, i, more)
    decreases |more|
  {
    hide TriedEdge;
    if more == [] {
      assert edges + [] == edges;
    } else {
      var front, last := more[..|more| - 1], more[|more| - 1];
      TriedMore(t, p, i, edges, front);
      assert (edges + more)[..|edges + more| - 1] == edges + front && (edges + more)[|edges + more| - 1] == last;
    }
  }

  lemma TriedNone(t: Table, p: Prices, i: nat)
    requires Priced(p) && i < |t.cost| && |t.len| == |t.dist| == |t.cost|
    ensures Tried(t, p, i, []) == t
  {
  }

  lemma TriedOne(t: Table, p: Prices, i: nat, edges: seq<Edge>, e: Edge)
    requires Priced(p) && i < |t.cost| && |t.len| == |t.dist| == |t.cost|
    ensures Tried(t, p, i, edges + [e]) == TriedEdge(Tried(t, p, i, edges), p, i, e)
  {
    hide TriedEdge;
    assert (edges + [e])[..|edges|] == edges;
  }

  // ------------------------------------------------------------ the finder as it runs

  method FindAllMatches(chain: HashChain, data: seq<byte>, pos: nat) returns (matches: seq<Edge>)
    requires chain.Valid() && pos <= |data|
    ensures matches == Reported(chain.View(), data, pos)
  {
    matches := [];
    if pos + MIN_MATCH > |data| {
      NothingReported(chain.View(), data, pos);
      return;
    }
    ghost var c := chain.View();
    assert c == Chain(chain.head[..], chain.prev[..]);
    hide Searching, HashAt, Reported, CommonRun, MaxLen, HashChain.View;
    SearchStart(c, data, pos);
    var candidate: nat := chain.head[HashAt(data, pos)];
    var maxLen: nat := if MAX_MATCH < |data| - pos then MAX_MATCH else |data| - pos;
    var bestLen: nat, chainCount: nat := MIN_MATCH - 1, 0;
    while candidate != NO_POS && chainCount < MAX_CHAIN
      invariant chainCount <= MAX_CHAIN && MIN_MATCH - 1 <= bestLen <= maxLen
      invariant Searching(c, data, pos, candidate, bestLen, chainCount, matches)
      decreases MAX_CHAIN - chainCount
    {
      var len := 0;
      if candidate < pos {
        if pos - candidate > MAX_WINDOW {
          break;
        }
        len := RunLength(data, candidate, pos, if maxLen < |data| - candidate then maxLen else |data| - candidate);
      }
      if len >= MIN_MATCH && len > bestLen {
        SearchHit(c, data, pos, candidate, bestLen, chainCount, matches, len);
        matches := matches + [Edge(len, pos - candidate)];
        bestLen := len;
        if bestLen == maxLen {
          return;
        }
      } else {
        SearchOn(c, data, pos, candidate, bestLen, chainCount, matches);
      }
      candidate := chain.prev[candidate % MAX_WINDOW];
      chainCount := chainCount + 1;
    }
    SearchEnd(c, data, pos, candidate, bestLen, chainCount, matches);
  }

  lemma NothingReported(c: Chain, data: seq<byte>, pos: nat)
    requires Shaped(c) && pos <= |data| < pos + MIN_MATCH
    ensures Reported(c, data, pos) == []
  {
  }

  /** The matches found so far and those of the rest of the walk make up the whole. */
  ghost predicate Searching(c: Chain, data: seq<byte>, pos: nat, candidate: nat, best: nat, steps: nat, matches: seq<Edge>)
    requires Shaped(c) && pos <= |data| && MIN_MATCH - 1 <= best && steps <= MAX_CHAIN
  {
    Reported(c, data, pos) == matches + Matched(Walk(c, data, pos, candidate, best, steps))
  }

  lemma SearchStart(c: Chain, data: seq<byte>, pos: nat)
    requires Shaped(c) && pos + MIN_MATCH <= |data|
    ensures |c.head| == HASH_SIZE && |c.prev| == MAX_WINDOW
    ensures MaxLen(data, pos) == if MAX_MATCH < |data| - pos then MAX_MATCH else |data| - pos
    ensures Searching(c, data, pos, c.head[HashAt(data, pos)], MIN_MATCH - 1, 0, [])
  {
    hide Walk, HashAt;
  }

  lemma SearchOn(c: Chain, data: seq<byte>, pos: nat, candidate: nat, best: nat, steps: nat, matches: seq<Edge>)
    requires Shaped(c) && pos <= |data| && MIN_MATCH - 1 <= best && steps < MAX_CHAIN && candidate != NO_POS
    requires Searching(c, data, pos, candidate, best, steps, matches)
    requires candidate < pos ==>
      pos - candidate <= MAX_WINDOW && CommonRun(data, candidate, pos, MaxLen(data, pos)) <= best
    ensures |c.prev| == MAX_WINDOW && Searching(c, data, pos, c.prev[candidate % MAX_WINDOW], best, steps + 1, matches)
  {
    hide CommonRun, Reported;
  }

  lemma SearchHit(c: Chain, data: seq<byte>, pos: nat, candidate: nat, best: nat, steps: nat, matches: seq<Edge>, len: nat)
    requires Shaped(c) && pos <= |data| && MIN_MATCH - 1 <= best && steps < MAX_CHAIN && candidate != NO_POS
    requires Searching(c, data, pos, candidate, best, steps, matches)
    requires candidate < pos && pos - candidate <= MAX_WINDOW
    requires len == CommonRun(data, candidate, pos, MaxLen(data, pos)) > best
    ensures |c.prev| == MAX_WINDOW
    ensures var more := matches + [Edge(len, pos - candidate)];
      if len == MaxLen(data, pos) then more == Reported(c, data, pos)
      else Searching(c, data, pos, c.prev[candidate % MAX_WINDOW], len, steps + 1, more)
  {
    hide CommonRun, Reported;
    var hit, e := Hit(pos - candidate, len, steps), Edge(len, pos - candidate);
    if len == MaxLen(data, pos) {
      assert Matched([hit]) == [e];
    } else {
      var rest := Walk(c, data, pos, c.prev[candidate % MAX_WINDOW], len, steps + 1);
      assert Matched([hit] + rest) == [e] + Matched(rest);
      assert matches + ([e] + Matched(rest)) == matches + [e] + Matched(rest);
    }
  }

  lemma SearchEnd(c: Chain, data: seq<byte>, pos: nat, candidate: nat, best: nat, steps: nat, matches: seq<Edge>)
    requires Shaped(c) && pos <= |data| && MIN_MATCH - 1 <= best && steps <= MAX_CHAIN
    requires Searching(c, data, pos, candidate, best, steps, matches)
    requires candidate == NO_POS || steps == MAX_CHAIN || candidate + MAX_WINDOW < pos
    ensures matches == Reported(c, data, pos)
  {
    hide Reported;
    assert matches + [] == matches;
  }

  lemma ShorterUsable(data: seq<byte>, pos: nat, e: Edge, len: nat)
    requires Usable(data, pos, e.offset, e.length) && MIN_MATCH <= len <= e.length
    ensures Usable(data, pos, e.offset, len)
  {
    AgreeShorter(data, pos - e.offset, pos, e.length, len);
  }

  lemma {:induction false} AgreeShorter(s: seq<nat>, a: nat, b: nat, d: nat, less: nat)
    requires less <= d && a + d <= |s| && b + d <= |s| && Agree(s, a, b, d)
    ensures Agree(s, a, b, less)
    decreases d
  {
    if less > 0 {
      AgreeShorter(s, a + 1, b + 1, d - 1, less - 1);
    }
  }

  method RelaxMatch(start: Table, p: Prices, ghost offers: seq<seq<Edge>>, data: seq<byte>, i: nat, m: Edge)
    returns (t: Table)
    requires Priced(p) && Leaving(start, p, offers, data, i) && Usable(data, i, m.offset, m.length)
    ensures m.length >= MIN_MATCH && i < |start.cost| && |start.len| == |start.dist| == |start.cost| && i < |offers|
    ensures t == Tried(start, p, i, Expanded(m))
    ensures Leaving(t, p, More(offers, i, Expanded(m)), data, i)
  {
    hide *;
    UsableLimits(data, i, m);
    LeavingSizes(start, p, offers, data, i);
    TriedNone(start, p, i);
    NoMore(offers, i);
    t := start;
    var lengths := LengthsTried(m.length);
    ghost var all, edges: seq<Edge> := Expanded(m), [];
    ExpandedEdges(m);
    for k := 0 to |lengths|
      invariant edges == all[..k] && t == Tried(start, p, i, edges)
      invariant Leaving(t, p, More(offers, i, edges), data, i)
    {
      ghost var e := Edge(lengths[k], m.offset);
      ShorterUsable(data, i, m, lengths[k]);
      TriedOne(start, p, i, edges, e);
      MoreTwice(offers, i, edges, [e]);
      t := RelaxEdge(t, p, More(offers, i, edges), data, i, Edge(lengths[k], m.offset));
      edges := edges + [e];
    }
    assert all[..|lengths|] == all;
  }

  /** More edges offered at `i`. */
  function More(offers: seq<seq<Edge>>, i: nat, edges: seq<Edge>): (more: seq<seq<Edge>>)
    requires i < |offers|
    ensures |more| == |offers|
  {
    offers[i := offers[i] + edges]
  }

  lemma MoreHere(offers: seq<seq<Edge>>, i: nat, edges: seq<Edge>)
    requires i < |offers| && offers[i] == []
    ensures var more := More(offers, i, edges);
      more[..i] == offers[..i] && more[i] == edges && forall k :: i < k < |offers| ==> more[k] == offers[k]
  {
    assert [] + edges == edges;
  }

  lemma NoMore(offers: seq<seq<Edge>>, i: nat)
    requires i < |offers|
    ensures More(offers, i, []) == offers
  {
    assert offers[i] + [] == offers[i];
  }

  lemma MoreTwice(offers: seq<seq<Edge>>, i: nat, edges: seq<Edge>, more: seq<Edge>)
    requires i < |offers|
    ensures More(More(offers, i, edges), i, more) == More(offers, i, edges + more)
  {
    assert offers[i] + edges + more == offers[i] + (edges + more);
  }

  lemma ExpandedEdges(m: Edge)
    requires m.length >= MIN_MATCH
    ensures |Expanded(m)| == |LengthsTried(m.length)|
    ensures forall k :: 0 <= k < |Expanded(m)| ==> Expanded(m)[k] == Edge(LengthsTried(m.length)[k], m.offset)
  {
    hide LengthsTried;
  }

  method RelaxEdge(start: Table, p: Prices, ghost offers: seq<seq<Edge>>, data: seq<byte>, i: nat, e: Edge)
    returns (t: Table)
    requires Priced(p) && Leaving(start, p, offers, data, i) && Usable(data, i, e.offset, e.length) && i < |offers|
    ensures i < |start.cost| && |start.len| == |start.dist| == |start.cost|
    ensures t == TriedEdge(start, p, i, e)
    ensures Leaving(t, p, More(offers, i, [e]), data, i)
  {
    hide *;
    UsableLimits(data, i, e);
    LeavingSizes(start, p, offers, data, i);
    var price := PriceMatch(p, e.length, e.offset);
    LeaveBy(start, p, offers, data, i, e, price);
    TriedWithin(start, p, i, e);
    t := Improved(start, i + e.length, start.cost[i] + price, e.length, e.offset);
  }

  lemma TriedWithin(t: Table, p: Prices, i: nat, e: Edge)
    requires Priced(p) && InLimits(e.length, e.offset) && i + e.length < |t.cost| && |t.len| == |t.dist| == |t.cost|
    ensures TriedEdge(t, p, i, e)
      == Improved(t, i + e.length, t.cost[i] + MatchCost(p, e.length, e.offset), e.length, e.offset)
  {
    hide MatchCost, Improved;
  }

  /** `i` was reached and everything offered there so far has been tried. */
  ghost predicate Leaving(t: Table, p: Prices, offers: seq<seq<Edge>>, data: seq<byte>, i: nat)
    requires Priced(p)
  {
    Progress(t, p, offers, data, i) && i < |data| && t.cost[i] < COST_INF && Relaxed(t, p, offers, data, i)
  }

  lemma LeavingSizes(t: Table, p: Prices, offers: seq<seq<Edge>>, data: seq<byte>, i: nat)
    requires Priced(p) && Leaving(t, p, offers, data, i)
    ensures |t.cost| == |t.len| == |t.dist| == |data| + 1 && |offers| == |data| && i < |data|
  {
  }

  lemma LeaveBy(t: Table, p: Prices, offers: seq<seq<Edge>>, data: seq<byte>, i: nat, e: Edge, price: nat)
    requires Priced(p) && Leaving(t, p, offers, data, i) && Usable(data, i, e.offset, e.length)
    requires InLimits(e.length, e.offset) && i + e.length < |t.cost| && |t.len| == |t.dist| == |t.cost| && i < |offers|
    requires price == MatchCost(p, e.length, e.offset)
    ensures Leaving(Improved(t, i + e.length, t.cost[i] + price, e.length, e.offset), p, More(offers, i, [e]), data, i)
  {
    hide Progress, Relaxed, Usable, Improved, MatchCost, InLimits;
    ProgressSizes(t, p, offers, data, i);
    TryEdge(t, p, offers, data, i, e);
  }

  lemma ProgressSizes(t: Table, p: Prices, offers: seq<seq<Edge>>, data: seq<byte>, i: nat)
    requires Priced(p) && Progress(t, p, offers, data, i)
    ensures Sized(t, |data|) && |offers| == |data|
  {
  }

  lemma StartProgress(p: Prices, data: seq<byte>, offers: seq<seq<Edge>>)
    requires Priced(p) && |offers| == |data| && forall k :: 0 <= k < |data| ==> offers[k] == []
    ensures Progress(StartTable(|data|), p, offers, data, 0)
  {
    hide MatchCost, InLimits;
  }

  lemma NextPosition(t: Table, p: Prices, offers: seq<seq<Edge>>, data: seq<byte>, i: nat)
    requires Priced(p) && Progress(t, p, offers, data, i) && i < |data|
    requires t.cost[i] < COST_INF ==> Relaxed(t, p, offers, data, i)
    ensures Progress(t, p, offers, data, i + 1)
  {
    hide Offered, MatchCost;
    var next := i + 1;
    forall j | 0 < j <= |data| ensures FromAtMost(t, j, next) {
      assert FromAtMost(t, j, i);
    }
  }

  lemma AllRelaxed(t: Table, p: Prices, offers: seq<seq<Edge>>, data: seq<byte>)
    requires Priced(p) && Progress(t, p, offers, data, |data|)
    ensures Solved(t, p, offers, data)
  {
    hide Offered, Relaxed, Reached;
  }

  /** Leaving position `i` as the program does: every match found, at every length tried. */
  method RelaxPosition(start: Table, p: Prices, chain: HashChain, ghost offers: seq<seq<Edge>>, data: seq<byte>, i: nat)
    returns (t: Table)
    requires Priced(p) && chain.Valid() && Progress(start, p, offers, data, i) && i < |data| && |start.cost| == |data| + 1
    requires start.cost[i] < COST_INF && |offers| == |data| && offers[i] == []
    ensures |start.len| == |start.dist| == |start.cost|
    ensures var edges := OffersAt(chain.View(), data, i);
      && t == Tried(TriedLiteral(start, p, data, i), p, i, edges)
      && Leaving(t, p, More(offers, i, edges), data, i)
  {
    hide *;
    LiteralLeaves(start, p, offers, data, i);
    t := Improved(start, i + 1, start.cost[i] + LiteralCost(p, data[i]), 0, 0);
    ghost var first := t;
    var matches := FindAllMatches(chain, data, i);
    OffersReported(chain.View(), data, i);
    TriedNone(t, p, i);
    NoMore(offers, i);
    LeavingSizes(t, p, offers, data, i);
    ghost var edges: seq<Edge> := [];
    for k := 0 to |matches|
      invariant LongEnough(matches[..k]) && edges == AllExpanded(matches[..k])
      invariant t == Tried(first, p, i, edges)
      invariant Leaving(t, p, More(offers, i, edges), data, i)
    {
      ghost var more := Expanded(matches[k]);
      ExpandedSnoc(matches, k);
      TriedMore(first, p, i, edges, more);
      MoreTwice(offers, i, edges, more);
      t := RelaxMatch(t, p, More(offers, i, edges), data, i, matches[k]);
      edges := edges + more;
    }
    assert matches[..|matches|] == matches;
  }

  lemma OffersReported(c: Chain, data: seq<byte>, pos: nat)
    requires Shaped(c) && pos <= |data|
    ensures LongEnough(Reported(c, data, pos)) && OffersAt(c, data, pos) == AllExpanded(Reported(c, data, pos))
    ensures forall k :: 0 <= k < |Reported(c, data, pos)| ==>
      var m := Reported(c, data, pos)[k]; m.length >= MIN_MATCH && Usable(data, pos, m.offset, m.length)
    ensures LongEnough([]) && AllExpanded([]) == []
  {
    hide Usable, Reported, AllExpanded;
    ReportedUsable(c, data, pos);
    NothingExpanded();
  }

  lemma NothingExpanded()
    ensures LongEnough([]) && AllExpanded([]) == []
  {
  }

  lemma ExpandedSnoc(matches: seq<Edge>, k: nat)
    requires k < |matches| && LongEnough(matches[..k]) && matches[k].length >= MIN_MATCH
    ensures LongEnough(matches[..k + 1]) && AllExpanded(matches[..k + 1]) == AllExpanded(matches[..k]) + Expanded(matches[k])
  {
    assert matches[..k + 1][..k] == matches[..k];
  }

  lemma LiteralLeaves(t: Table, p: Prices, offers: seq<seq<Edge>>, data: seq<byte>, i: nat)
    requires Priced(p) && Progress(t, p, offers, data, i) && i < |data| && |t.cost| == |data| + 1
    requires t.cost[i] < COST_INF && |offers| == |data| && offers[i] == []
    ensures |t.len| == |t.dist| == |t.cost|
    ensures TriedLiteral(t, p, data, i) == Improved(t, i + 1, t.cost[i] + LiteralCost(p, data[i]), 0, 0)
    ensures Leaving(TriedLiteral(t, p, data, i), p, offers, data, i)
  {
    hide Progress, Relaxed, Improved, LiteralCost;
    ProgressSizes(t, p, offers, data, i);
    TryLiteral(t, p, offers, data, i);
  }

  /** The table and the edges offered are those of the pass, and the table is solved for them. */
  method RelaxAll(p: Prices, data: seq<byte>) returns (t: Table)
    requires Priced(p)
    ensures t == Passed(p, data, |data|).table
    ensures Solved(t, p, Offers(p, data), data)
  {
    hide *;
    var chain := new HashChain();
    var n := |data|;
    t := StartTable(n);
    ghost var offers: seq<seq<Edge>> := NoOffers(n);
    StartProgress(p, data, offers);
    PassStarts(p, data);
    for i := 0 to n
      invariant |t.cost| == |offers| + 1 == n + 1 && Progress(t, p, offers, data, i)
      invariant forall k :: i <= k < n ==> offers[k] == []
      invariant Passed(p, data, i) == Pass(chain.View(), t, offers[..i])
    {
      PassLeaves(p, data, i);
      if t.cost[i] < COST_INF {
        InsertAt(chain, data, i);
        ghost var edges := OffersAt(chain.View(), data, i);
        t := RelaxPosition(t, p, chain, offers, data, i);
        MoreHere(offers, i, edges);
        offers := More(offers, i, edges);
        LeavingProgress(t, p, offers, data, i);
      }
      NextPosition(t, p, offers, data, i);
      ProgressSizes(t, p, offers, data, i + 1);
      assert offers[..i + 1] == offers[..i] + [offers[i]];
    }
    assert offers[..n] == offers;
    AllRelaxed(t, p, offers, data);
    OffersPassed(p, data);
  }

  function NoOffers(n: nat): (offers: seq<seq<Edge>>)
    ensures |offers| == n && forall k :: 0 <= k < n ==> offers[k] == []
  {
    seq(n, k => [])
  }

  lemma PassStarts(p: Prices, data: seq<byte>)
    requires Priced(p)
    ensures Passed(p, data, 0) == Pass(EmptyChain(), StartTable(|data|), [])
  {
  }

  lemma PassLeaves(p: Prices, data: seq<byte>, i: nat)
    requires Priced(p) && i < |data|
    ensures var s := Passed(p, data, i);
      && |s.table.cost| == |s.table.len| == |s.table.dist| == |data| + 1 && Shaped(s.chain)
      && Passed(p, data, i + 1) ==
        if s.table.cost[i] >= COST_INF then Pass(s.chain, s.table, s.offers + [[]])
        else
          var chain := LinkedAt(s.chain, data, i);
          var edges := OffersAt(chain, data, i);
          Pass(chain, Tried(TriedLiteral(s.table, p, data, i), p, i, edges), s.offers + [edges])
  {
    hide LinkedAt, OffersAt, Tried, TriedLiteral;
  }

  lemma OffersPassed(p: Prices, data: seq<byte>)
    requires Priced(p)
    ensures Offers(p, data) == Passed(p, data, |data|).offers
  {
  }

  lemma LeavingProgress(t: Table, p: Prices, offers: seq<seq<Edge>>, data: seq<byte>, i: nat)
    requires Priced(p) && Leaving(t, p, offers, data, i)
    ensures Progress(t, p, offers, data, i) && Sized(t, |data|) && i < |data| == |offers|
    ensures Relaxed(t, p, offers, data, i)
  {
    hide Progress, Relaxed;
    ProgressSizes(t, p, offers, data, i);
  }

  method TraceBack(t: Table, p: Prices, ghost offers: seq<seq<Edge>>, data: seq<byte>) returns (tokens: seq<Token>)
    requires Priced(p) && Solved(t, p, offers, data)
    ensures tokens == Trace(t, p, offers, data, |data|)
  {
    tokens := [];
    hide Offered, Relaxed, MatchCost;
    ghost var goal := Trace(t, p, offers, data, |data|);
    var pos := |data|;
    while pos > 0
      invariant 0 <= pos <= |data|
      invariant goal == Trace(t, p, offers, data, pos) + Reversed(tokens)
    {
      assert Reached(t, p, offers, data, pos);
      var len := t.len[pos];
      var token := if len == 0 then Literal(data[pos - 1]) else Match(t.dist[pos], len);
      var from := if len == 0 then pos - 1 else pos - len;
      ReversedSnoc(tokens, token);
      assert (Trace(t, p, offers, data, from) + [token]) + Reversed(tokens)
          == Trace(t, p, offers, data, from) + ([token] + Reversed(tokens));
      tokens := tokens + [token];
      pos := from;
    }
    tokens := Reversed(tokens);
  }

  // ------------------------------------------------------------ what a parse promises

  /** No path of finite cost over the offered edges is cheaper. */
  ghost predicate Cheapest(p: Prices, tokens: seq<Token>, offers: seq<seq<Edge>>, data: seq<byte>)
    requires Priced(p) && AllValid(tokens) && |offers| == |data|
  {
    forall other :: AllValid(other) && Path(other, offers, data, |data|) && Cost(p, other) < COST_INF ==>
      Cost(p, tokens) <= Cost(p, other)
  }

  method ParsePass(p: Prices, data: seq<byte>) returns (tokens: seq<Token>)
    requires Priced(p)
    ensures Path(tokens, Offers(p, data), data, |data|)
    ensures AllValid(tokens) && Covers(tokens, data, |data|)
    ensures Cheapest(p, tokens, Offers(p, data), data)
  {
    hide Relaxed, Reached, Path, Cost, Covers, Offers;
    var t := RelaxAll(p, data);
    ghost var offers := Offers(p, data);
    tokens := TraceBack(t, p, offers, data);
    TraceIsPath(t, p, offers, data, |data|);
    PathValid(tokens, offers, data, |data|);
    forall other | AllValid(other) && Path(other, offers, data, |data|) && Cost(p, other) < COST_INF
      ensures Cost(p, tokens) <= Cost(p, other)
    {
      NoCheaperPath(t, p, offers, data, other, |data|);
    }
  }

  function Literals(data: seq<byte>): (tokens: seq<Token>)
    ensures |tokens| == |data|
  {
    seq(|data|, k requires 0 <= k < |data| => Literal(data[k]))
  }

  lemma {:induction false} LiteralPath(offers: seq<seq<Edge>>, data: seq<byte>, pos: nat)
    requires |offers| == |data| && pos <= |data|
    ensures AllValid(Literals(data)[..pos]) && Path(Literals(data)[..pos], offers, data, pos)
    ensures Cost(InitialPrices(), Literals(data)[..pos]) == Bits(8) * pos
  {
    hide Bits, InitialPrices, Cost;
    if pos > 0 {
      LiteralPath(offers, data, pos - 1);
      assert Literals(data)[..pos][..pos - 1] == Literals(data)[..pos - 1];
      OneMoreLiteral(Literals(data)[..pos - 1], data[pos - 1]);
      assert Literals(data)[..pos] == Literals(data)[..pos - 1] + [Literal(data[pos - 1])];
      MulAdd(pos - 1, 1, Bits(8));
    } else {
      NoCost();
    }
  }

  lemma NoCost()
    ensures Cost(InitialPrices(), []) == 0
  {
    hide InitialPrices;
  }

  lemma OneMoreLiteral(tokens: seq<Token>, b: byte)
    requires AllValid(tokens)
    ensures AllValid(tokens + [Literal(b)])
    ensures Cost(InitialPrices(), tokens + [Literal(b)]) == Cost(InitialPrices(), tokens) + Bits(8)
  {
    hide InitialPrices;
    assert (tokens + [Literal(b)])[..|tokens|] == tokens;
  }

  // ------------------------------------------------------------ the first pass

  /** The chain after every position before `n`. */
  function ChainOf(data: seq<byte>, n: nat): (c: Chain)
    ensures Shaped(c)
  {
    LinkedRange(EmptyChain(), data, 0, n)
  }

  /** The edges out of every position when every position up to it is in the chain. */
  function FirstOffers(data: seq<byte>): (offers: seq<seq<Edge>>)
    ensures |offers| == |data|
    ensures forall i :: 0 <= i < |data| ==> offers[i] == OffersAt(ChainOf(data, i + 1), data, i)
  {
    seq(|data|, i requires 0 <= i < |data| => OffersAt(ChainOf(data, i + 1), data, i))
  }

  ghost predicate Lowered(t: Table, u: Table, i: nat) {
    |t.cost| == |u.cost| && (forall j :: 0 <= j < |t.cost| ==> u.cost[j] <= t.cost[j])
    && forall j :: 0 <= j < |t.cost| && j <= i ==> u.cost[j] == t.cost[j]
  }

  /** Trying edges out of `i` lowers costs past `i` only. */
  lemma {:induction false} TriedLowers(t: Table, p: Prices, i: nat, edges: seq<Edge>)
    requires Priced(p) && i < |t.cost| && |t.len| == |t.dist| == |t.cost|
    ensures Lowered(t, Tried(t, p, i, edges), i)
    decreases |edges|
  {
    hide MatchCost;
    if edges != [] {
      TriedLowers(t, p, i, edges[..|edges| - 1]);
    }
  }

  /** With a price for every byte, every position is reached, for no more than its literals cost. */
  lemma {:induction false} EveryPositionReached(data: seq<byte>, i: nat)
    requires i <= |data| && Bits(8) * |data| < COST_INF
    ensures var s := Passed(InitialPrices(), data, i);
      && s.chain == ChainOf(data, i) && s.offers == FirstOffers(data)[..i]
      && s.table.cost[i] <= Bits(8) * i
    decreases i
  {
    hide InitialPrices, Bits, LinkedAt, OffersAt, Tried, TriedEdge, MatchCost, Passed, StartTable;
    var p := InitialPrices();
    if i == 0 {
      PassStarts(p, data);
    } else {
      var k := i - 1;
      EveryPositionReached(data, k);
      LiteralsFit(k, |data|);
      var s := Passed(p, data, k);
      PassLeaves(p, data, k);
      var edges := OffersAt(LinkedAt(s.chain, data, k), data, k);
      TriedLowers(TriedLiteral(s.table, p, data, k), p, k, edges);
      assert FirstOffers(data)[..i] == FirstOffers(data)[..k] + [edges];
    }
  }

  lemma LiteralsFit(i: nat, n: nat)
    requires i < n && Bits(8) * n < COST_INF
    ensures Bits(8) * i < COST_INF && Bits(8) * i + Bits(8) == Bits(8) * (i + 1)
  {
  }

  /** The first pass offers at every position all that the chain of all positions reports. */
  lemma FirstPassOffers(data: seq<byte>)
    requires Bits(8) * |data| < COST_INF
    ensures Offers(InitialPrices(), data) == FirstOffers(data)
  {
    hide InitialPrices, Passed, FirstOffers;
    EveryPositionReached(data, |data|);
    assert FirstOffers(data)[..|data|] == FirstOffers(data);
  }

  lemma {:induction false} ChainLists(data: seq<byte>, n: nat)
    requires n <= |data| <= WORD
    ensures Lists(ChainOf(data, n), data, n)
    decreases n
  {
    hide Lists;
    if n == 0 {
      ListsNothing(data);
    } else {
      ChainLists(data, n - 1);
      ListsNext(ChainOf(data, n - 1), data, n - 1);
    }
  }

  /** No near match is missed: every earlier position in the window that agrees on three bytes,
      among the last MAX_CHAIN with their hash, has an edge as near and as long. */
  lemma FirstOffersComplete(data: seq<byte>, i: nat, p: nat)
    requires p < i < |data| <= NO_POS && i - p <= MAX_WINDOW
    requires CommonRun(data, p, i, MaxLen(data, i)) >= MIN_MATCH
    requires Rank(data, HashAt(data, p), p, i + 1) <= MAX_CHAIN
    ensures exists e :: e in FirstOffers(data)[i] && e.offset <= i - p && e.length >= CommonRun(data, p, i, MaxLen(data, i))
  {
    hide Lists, CommonRun, Hits, HashAt, ChainOf, FirstOffers;
    var c, run := ChainOf(data, i + 1), CommonRun(data, p, i, MaxLen(data, i));
    ChainLists(data, i + 1);
    NearMatchOffered(c, data, i, i + 1, p);
    var hits := Hits(c, data, i);
    var k :| 0 <= k < |hits| && hits[k].offset <= i - p && hits[k].length >= run;
    LongestOffered(Reported(c, data, i), k);
    assert Reported(c, data, i)[k] == Edge(hits[k].length, hits[k].offset);
  }

  lemma {:induction false} LongestOffered(matches: seq<Edge>, k: nat)
    requires LongEnough(matches) && k < |matches|
    ensures matches[k] in AllExpanded(matches)
    decreases |matches|
  {
    var last := |matches| - 1;
    if k < last {
      LongestOffered(matches[..last], k);
    } else {
      var edges := Expanded(matches[last]);
      assert edges[|edges| - 1] == matches[last];
    }
  }

  /** No path over the offered edges is cheaper, at any price. */
  ghost predicate Optimal(p: Prices, tokens: seq<Token>, offers: seq<seq<Edge>>, data: seq<byte>)
    requires Priced(p) && AllValid(tokens) && |offers| == |data|
  {
    forall other :: AllValid(other) && Path(other, offers, data, |data|) ==> Cost(p, tokens) <= Cost(p, other)
  }

  /** In the first pass every byte has a price, so the parse is the cheapest outright over
      everything the chain of all positions offers. */
  lemma FirstPassOptimal(tokens: seq<Token>, data: seq<byte>)
    requires AllValid(tokens) && Bits(8) * |data| < COST_INF
    requires Cheapest(InitialPrices(), tokens, Offers(InitialPrices(), data), data)
    ensures Optimal(InitialPrices(), tokens, FirstOffers(data), data)
  {
    hide Path, Cost, InitialPrices, Offers, FirstOffers;
    FirstPassOffers(data);
    LiteralPath(FirstOffers(data), data, |data|);
    assert Literals(data)[..|data|] == Literals(data);
  }

  // ------------------------------------------------------------ the parser

  /** The first pass and one more for each further price table; the last pass's tokens are kept. */
  method Parse(data: seq<byte>, later: seq<Prices>) returns (tokens: seq<Token>)
    requires forall k :: 0 <= k < |later| ==> Priced(later[k])
    ensures AllValid(tokens) && Covers(tokens, data, |data|)
    ensures var p := if later == [] then InitialPrices() else later[|later| - 1];
      Path(tokens, Offers(p, data), data, |data|) && Cheapest(p, tokens, Offers(p, data), data)
    ensures later == [] && Bits(8) * |data| < COST_INF ==>
      Path(tokens, FirstOffers(data), data, |data|) && Optimal(InitialPrices(), tokens, FirstOffers(data), data)
  {
    hide Covers, Path, Cost, Offers, Cheapest, Optimal, InitialPrices, Bits, FirstOffers;
    tokens := ParsePass(InitialPrices(), data);
    if Bits(8) * |data| < COST_INF {
      FirstPassOptimal(tokens, data);
      FirstPassOffers(data);
    }
    for k := 0 to |later|
      invariant AllValid(tokens) && Covers(tokens, data, |data|)
      invariant var p := if k == 0 then InitialPrices() else later[k - 1];
        Path(tokens, Offers(p, data), data, |data|) && Cheapest(p, tokens, Offers(p, data), data)
      invariant later == [] && Bits(8) * |data| < COST_INF ==>
        Path(tokens, FirstOffers(data), data, |data|) && Optimal(InitialPrices(), tokens, FirstOffers(data), data)
    {
      tokens := ParsePass(later[k], data);
    }
  }

  /** What any parse stands for, the decoder gives back. */
  method RoundTrip(data: seq<byte>, later: seq<Prices>) returns (r: Outcome)
    requires forall k :: 0 <= k < |later| ==> Priced(later[k])
    ensures r == Data(data)
  {
    var tokens := Parse(data, later);
    assert data[..|data|] == data;
    DecodeIsMeaning(tokens, data, |data|);
    r := Decode(tokens, |data|);
  }
}
