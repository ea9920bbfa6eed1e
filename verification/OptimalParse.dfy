/** The shortest-path parse: every position keeps the cheapest way into it under the prices
    given, and the recent distances tracked along it are those encoder and decoder replay. */
module OptimalParse {
  import opened Bytes
  import opened Suffixes
  import opened Lzma
  import opened Tokens
  import opened Sequences
  import opened ParseEdges
  import MatchTree
  import MatchFinder

  /** `tokens` lead to the first `p` bytes and the rep queue `r`. */
  ghost predicate LeadsTo(data: seq<byte>, p: nat, tokens: seq<Token>, r: Reps) {
    && p <= |data| && AllEncodable(LZ_START, tokens) && AllDifferent(r)
    && StepAll(LZ_START, tokens).out == data[..p] && StepAll(LZ_START, tokens).reps == r
  }

  lemma {:induction false} StepAllSnoc(z: Lz, tokens: seq<Token>, t: Token)
    requires AllEncodable(z, tokens) && Encodable(StepAll(z, tokens), t)
    ensures AllEncodable(z, tokens + [t]) && StepAll(z, tokens + [t]) == Step(StepAll(z, tokens), t)
    decreases |tokens|
  {
    hide Encodable, Step;
    if tokens == [] {
      assert (tokens + [t])[1..] == [] && (tokens + [t])[0] == t;
      assert StepAll(Step(z, t), []) == Step(z, t);
    } else {
      assert (tokens + [t])[1..] == tokens[1..] + [t] && (tokens + [t])[0] == tokens[0];
      StepAllSnoc(Step(z, tokens[0]), tokens[1..], t);
    }
  }

  /** A copy from where the data repeats itself continues the data. */
  lemma {:induction false} CopyContinues(data: seq<byte>, p: nat, dist: nat, len: nat)
    requires 1 <= dist <= p && p + len <= |data| && MatchTree.Same(data, p - dist, p, len)
    ensures CopyMatch(data[..p], dist, len) == data[..p + len]
    decreases len
  {
    if len > 0 {
      assert data[..p] + [data[p]] == data[..p + 1];
      CopyContinues(data, p + 1, dist, len - 1);
    }
  }

  lemma LiteralLeads(data: seq<byte>, p: nat, tokens: seq<Token>, r: Reps)
    requires LeadsTo(data, p, tokens, r) && p < |data|
    ensures LeadsTo(data, p + 1, tokens + [Literal(data[p])], r)
  {
    hide AllEncodable, StepAll;
    StepAllSnoc(LZ_START, tokens, Literal(data[p]));
    assert data[..p] + [data[p]] == data[..p + 1];
  }

  lemma ShortRepLeads(data: seq<byte>, p: nat, tokens: seq<Token>, r: Reps)
    requires LeadsTo(data, p, tokens, r) && p < |data| && 1 <= r[0] <= p <= U32_MAX && data[p - r[0]] == data[p]
    ensures LeadsTo(data, p + 1, tokens + [Match(r[0], 1)], r)
  {
    hide AllEncodable, StepAll;
    StepAllSnoc(LZ_START, tokens, Match(r[0], 1));
    assert Agree(data, p - r[0], p, 1);
    CopyContinues(data, p, r[0], 1);
  }

  lemma MatchLeads(data: seq<byte>, p: nat, tokens: seq<Token>, r: Reps, dist: nat, len: nat)
    requires LeadsTo(data, p, tokens, r) && 1 <= dist <= p <= U32_MAX && 2 <= len <= MAX_MATCH
    requires MatchTree.Same(data, p - dist, p, len)
    ensures p + len <= |data| && LeadsTo(data, p + len, tokens + [Match(dist, len)], RepsAfter(r, dist))
  {
    hide AllEncodable, StepAll, CopyMatch, MatchTree.Same;
    SameFits(data, p, dist, len);
    StayDifferent(r, dist);
    CopyContinues(data, p, dist, len);
    StepAllSnoc(LZ_START, tokens, Match(dist, len));
  }

  /** The token of an edge that ends at `p`. */
  function TokenOf(data: seq<byte>, p: nat, e: Edge): Token
    requires 0 < p <= |data|
  {
    if e.dist == 0 then Literal(data[p - 1]) else Match(e.dist, e.len)
  }

  lemma EdgeLeads(data: seq<byte>, p: nat, tokens: seq<Token>, r: Reps, e: Edge)
    requires LeadsTo(data, p, tokens, r) && Sound(data, p, r, e)
    ensures p + e.len <= |data| && LeadsTo(data, p + e.len, tokens + [TokenOf(data, p + e.len, e)], NextReps(r, e))
  {
    hide LeadsTo, RepsAfter;
    if e.dist == 0 {
      LiteralLeads(data, p, tokens, r);
    } else if e.len == 1 {
      assert data[p - e.dist] == data[p];
      ShortRepLeads(data, p, tokens, r);
    } else {
      MatchLeads(data, p, tokens, r, e.dist, e.len);
    }
  }

  // ------------------------------------------------------------ prices

  /** Prices of a round. Costs are places on an ordered scale, such as the bit patterns of
      non-negative floating-point numbers, and `add` is whatever sum the scale has. */
  datatype Prices = Prices(
    add: (nat, nat) -> nat, literal: nat -> nat, matchFlag: nat, shortRep: nat, rep: nat -> nat,
    matchLen: nat -> nat, repLen: nat -> nat, distSlot: nat -> nat)

  function NormalMatch(pr: Prices, dist: nat, len: nat): nat {
    pr.add(pr.add(pr.matchFlag, pr.matchLen(len)), pr.distSlot(DistSlot(if dist == 0 then 0 else dist - 1)))
  }

  /** The cost after a match of two bytes or more at queue place `idx`, 4 for none. */
  function AfterMatchAt(pr: Prices, here: nat, idx: nat, dist: nat, len: nat): nat {
    if idx < 4 then pr.add(pr.add(here, pr.rep(idx)), pr.repLen(len)) else pr.add(here, NormalMatch(pr, dist, len))
  }

  /** The cost once `t` is coded with queue `r`. */
  function Charge(pr: Prices, r: Reps, here: nat, t: Token): nat {
    match t
    case Literal(b) => pr.add(here, pr.literal(b))
    case Match(dist, len) =>
      if len == 1 then pr.add(here, pr.shortRep) else AfterMatchAt(pr, here, RepIndex(r, dist), dist, len)
  }

  /** The cost of a parse: its tokens charged in order, each under the queue the encoder has then. */
  function CostFrom(pr: Prices, z: Lz, here: nat, tokens: seq<Token>): nat
    requires AllEncodable(z, tokens)
    decreases |tokens|
  {
    if tokens == [] then here
    else CostFrom(pr, Step(z, tokens[0]), Charge(pr, z.reps, here, tokens[0]), tokens[1..])
  }

  function Cost(pr: Prices, tokens: seq<Token>): nat
    requires AllEncodable(LZ_START, tokens)
  {
    CostFrom(pr, LZ_START, 0, tokens)
  }

  lemma {:induction false} CostSnoc(pr: Prices, z: Lz, here: nat, tokens: seq<Token>, t: Token)
    requires AllEncodable(z, tokens) && Encodable(StepAll(z, tokens), t)
    ensures AllEncodable(z, tokens + [t])
    ensures CostFrom(pr, z, here, tokens + [t]) == Charge(pr, StepAll(z, tokens).reps, CostFrom(pr, z, here, tokens), t)
    decreases |tokens|
  {
    hide Encodable, Step, Charge;
    StepAllSnoc(z, tokens, t);
    if tokens == [] {
      assert (tokens + [t])[1..] == [] && (tokens + [t])[0] == t;
    } else {
      assert (tokens + [t])[1..] == tokens[1..] + [t] && (tokens + [t])[0] == tokens[0];
      CostSnoc(pr, Step(z, tokens[0]), Charge(pr, z.reps, here, tokens[0]), tokens[1..], t);
    }
  }

  /** Starting dearer never ends cheaper. */
  ghost predicate Monotone(add: (nat, nat) -> nat) {
    forall a, b, c :: a <= b ==> add(a, c) <= add(b, c)
  }

  lemma ChargeMonotone(pr: Prices, r: Reps, a: nat, b: nat, t: Token)
    requires Monotone(pr.add) && a <= b
    ensures Charge(pr, r, a, t) <= Charge(pr, r, b, t)
  {
    hide RepIndex, NormalMatch;
    if t.Match? && t.length != 1 {
      var idx := RepIndex(r, t.offset);
      if idx < 4 {
        assert pr.add(a, pr.rep(idx)) <= pr.add(b, pr.rep(idx));
      }
    }
  }

  // ------------------------------------------------------------ the table

  /** The cheapest known way into a position; no cost while there is none. */
  datatype Entry = Entry(cost: Option<nat>, len: nat, dist: nat, reps: Reps)

  const ORIGIN := Entry(Some(0), 0, 0, [1, 2, 3, 4])
  const UNREACHED := Entry(None, 0, 0, [1, 2, 3, 4])

  function StartEntries(n: nat): (s: seq<Entry>)
    ensures |s| == n + 1 && s[0] == ORIGIN && forall j :: 0 < j <= n ==> s[j] == UNREACHED
  {
    seq(n + 1, j => if j == 0 then ORIGIN else UNREACHED)
  }

  /** An edge that ends at `to` for `cost`; a tie keeps the earlier way. */
  function Improved(s: seq<Entry>, to: nat, cost: nat, len: nat, dist: nat, r: Reps): (u: seq<Entry>)
    requires to < |s|
    ensures |u| == |s|
  {
    if s[to].cost.None? || cost < s[to].cost.value then s[to := Entry(Some(cost), len, dist, r)] else s
  }

  /** Try `e` out of `i`, reached at cost `here` with queue `r`. */
  function Tried(s: seq<Entry>, pr: Prices, data: seq<byte>, i: nat, here: nat, r: Reps, e: Edge): (u: seq<Entry>)
    ensures |u| == |s|
  {
    var to := i + e.len;
    if 0 < to < |s| && to <= |data| then
      Improved(s, to, Charge(pr, r, here, TokenOf(data, to, e)), e.len, e.dist, NextReps(r, e))
    else s
  }

  function AllTried(s: seq<Entry>, pr: Prices, data: seq<byte>, i: nat, here: nat, r: Reps, edges: seq<Edge>): (u: seq<Entry>)
    ensures |u| == |s|
  {
    if edges == [] then s
    else Tried(AllTried(s, pr, data, i, here, r, edges[..|edges| - 1]), pr, data, i, here, r, edges[|edges| - 1])
  }

  lemma TriedOne(s: seq<Entry>, pr: Prices, data: seq<byte>, i: nat, here: nat, r: Reps, edges: seq<Edge>, e: Edge)
    ensures AllTried(s, pr, data, i, here, r, edges + [e]) == Tried(AllTried(s, pr, data, i, here, r, edges), pr, data, i, here, r, e)
  {
    hide Tried;
    assert (edges + [e])[..|edges|] == edges;
  }

  /** The table and the edges offered out of every position passed, none out of those skipped. */
  datatype Pass = Pass(entries: seq<Entry>, offers: seq<seq<Edge>>)

  function Nothing(n: int): (s: seq<seq<Edge>>)
    ensures |s| == (if n < 0 then 0 else n) && forall k :: 0 <= k < |s| ==> s[k] == []
  {
    seq(if n < 0 then 0 else n, k => [])
  }

  /** Expand the next position: try all its edges, skip to where the parse goes on. */
  ghost function Expanded(s: Pass, pr: Prices, data: seq<byte>): (t: Pass)
    requires |s.offers| < |data| && |s.entries| == |data| + 1
    ensures |t.entries| == |s.entries| && |t.offers| > |s.offers|
  {
    var i := |s.offers|;
    var from := s.entries[i];
    var edges := OffersAt(data, i, from.reps);
    Pass(
      if from.cost.Some? then AllTried(s.entries, pr, data, i, from.cost.value, from.reps, edges) else s.entries,
      s.offers + [edges] + Nothing(NextAt(data, i, from.reps) - i - 1))
  }

  ghost function Finished(s: Pass, pr: Prices, data: seq<byte>): (t: Pass)
    requires |s.entries| == |data| + 1
    ensures |t.entries| == |data| + 1
    decreases |data| - |s.offers|
  {
    if |s.offers| >= |data| then s else Finished(Expanded(s, pr, data), pr, data)
  }

  /** The table after the whole pass. */
  ghost function PassOver(pr: Prices, data: seq<byte>): (t: Pass)
    ensures |t.entries| == |data| + 1
  {
    Finished(Pass(StartEntries(|data|), []), pr, data)
  }

  // ------------------------------------------------------------ what the table keeps

  /** No edge out of `k` improves its end; where the end was reached from a later position,
      that way is strictly cheaper. */
  ghost predicate Relaxed(pr: Prices, data: seq<byte>, s: seq<Entry>, edges: seq<Edge>, k: nat)
    requires |s| == |data| + 1 && k < |data|
  {
    && s[k].cost.Some? && AllSound(data, k, s[k].reps, edges)
    && forall e :: e in edges ==> Settles(pr, data, s, k, e)
  }

  ghost predicate Settles(pr: Prices, data: seq<byte>, s: seq<Entry>, k: nat, e: Edge)
    requires |s| == |data| + 1 && k < |data| && s[k].cost.Some?
  {
    && 1 <= e.len && k + e.len <= |data|
    && var to := s[k + e.len];
       var cost := Charge(pr, s[k].reps, s[k].cost.value, TokenOf(data, k + e.len, e));
       to.cost.Some? && to.cost.value <= cost && (to.len < e.len ==> to.cost.value < cost)
  }

  /** Position `j` was reached along an offered edge, at exactly its cost. */
  ghost predicate Reached(pr: Prices, data: seq<byte>, s: seq<Entry>, offers: seq<seq<Edge>>, j: nat)
    requires |s| == |data| + 1 && 0 < j <= |data|
  {
    var e := Edge(s[j].len, s[j].dist);
    && 1 <= e.len <= j && j - e.len < |offers| && e in offers[j - e.len]
    && s[j - e.len].cost.Some? && AllDifferent(s[j].reps)
    && s[j].cost == Some(Charge(pr, s[j - e.len].reps, s[j - e.len].cost.value, TokenOf(data, j, e)))
    && s[j].reps == NextReps(s[j - e.len].reps, e)
  }

  ghost predicate Progress(pr: Prices, data: seq<byte>, s: seq<Entry>, offers: seq<seq<Edge>>) {
    && |s| == |data| + 1 && |offers| <= |data| <= U32_MAX && s[0] == ORIGIN
    && (forall k :: 0 <= k < |offers| && offers[k] != [] ==> Relaxed(pr, data, s, offers[k], k))
    && (forall j {:trigger Reached(pr, data, s, offers, j)} :: 0 < j <= |data| && s[j].cost.Some? ==>
          Reached(pr, data, s, offers, j))
  }

  lemma ProgressAt(pr: Prices, data: seq<byte>, s: seq<Entry>, offers: seq<seq<Edge>>, j: nat)
    requires Progress(pr, data, s, offers) && j <= |data| && s[j].cost.Some?
    ensures AllDifferent(s[j].reps)
    ensures j > 0 ==> Reached(pr, data, s, offers, j)
    ensures j < |offers| && offers[j] != [] ==> Relaxed(pr, data, s, offers[j], j)
  {
    hide Relaxed, Charge;
  }

  /** The entry an edge out of `i` may have replaced. */
  ghost predicate Better(s: seq<Entry>, u: seq<Entry>, to: nat, len: nat) {
    && |u| == |s| && to < |s| && (forall j :: 0 <= j < |s| && j != to ==> u[j] == s[j])
    && (u[to] == s[to]
        || (u[to].cost.Some? && u[to].len == len && (s[to].cost.Some? ==> u[to].cost.value < s[to].cost.value)))
  }

  lemma TriedBetter(s: seq<Entry>, pr: Prices, data: seq<byte>, i: nat, here: nat, r: Reps, e: Edge)
    requires |s| == |data| + 1 && 1 <= e.len && i + e.len <= |data|
    ensures Better(s, Tried(s, pr, data, i, here, r, e), i + e.len, e.len)
  {
    hide Charge, NextReps;
  }

  /** What was settled stays settled when a later position improves an entry. */
  lemma StaysSettled(pr: Prices, data: seq<byte>, s: seq<Entry>, u: seq<Entry>, i: nat, len: nat, k: nat, e: Edge)
    requires |s| == |data| + 1 && k <= i < i + len <= |data| && s[k].cost.Some? && Settles(pr, data, s, k, e)
    requires Better(s, u, i + len, len)
    ensures u[k].cost.Some? && u[k] == s[k] && Settles(pr, data, u, k, e)
  {
    hide Charge;
  }

  lemma StaysRelaxed(pr: Prices, data: seq<byte>, s: seq<Entry>, u: seq<Entry>, i: nat, len: nat, edges: seq<Edge>, k: nat)
    requires |s| == |data| + 1 && k <= i < i + len <= |data| && Better(s, u, i + len, len)
    requires Relaxed(pr, data, s, edges, k)
    ensures Relaxed(pr, data, u, edges, k)
  {
    hide Charge, Sound, Settles, AllSound;
    assert u[k] == s[k];
    forall e | e in edges ensures Settles(pr, data, u, k, e) {
      StaysSettled(pr, data, s, u, i, len, k, e);
    }
  }

  /** The edge just tried is settled: its end was reached from no later position. */
  lemma NowSettled(pr: Prices, data: seq<byte>, s: seq<Entry>, offers: seq<seq<Edge>>, i: nat, e: Edge)
    requires Progress(pr, data, s, offers) && |offers| == i + 1 && i + e.len <= |data| && 1 <= e.len
    requires s[i].cost.Some?
    ensures var u := Tried(s, pr, data, i, s[i].cost.value, s[i].reps, e);
      u[i] == s[i] && Settles(pr, data, u, i, e)
  {
    hide Charge, Relaxed, NextReps, AllDifferent;
    var to := i + e.len;
    if s[to].cost.Some? {
      assert Reached(pr, data, s, offers, to);
    }
  }

  lemma NowReached(pr: Prices, data: seq<byte>, s: seq<Entry>, offers: seq<seq<Edge>>, i: nat, e: Edge, j: nat)
    requires Progress(pr, data, s, offers) && |offers| == i + 1 && s[i].cost.Some?
    requires Sound(data, i, s[i].reps, e) && i + e.len <= |data| && 1 <= e.len && AllDifferent(s[i].reps)
    requires 0 < j <= |data|
    ensures var u, more := Tried(s, pr, data, i, s[i].cost.value, s[i].reps, e), offers[i := offers[i] + [e]];
      |u| == |data| + 1 && (u[j].cost.Some? ==> Reached(pr, data, u, more, j))
  {
    hide Charge, Relaxed, NextReps, AllDifferent, Sound;
    QueueStays(data, i, s[i].reps, e);
    if s[j].cost.Some? {
      assert Reached(pr, data, s, offers, j);
    }
  }

  lemma QueueStays(data: seq<byte>, i: nat, r: Reps, e: Edge)
    requires Sound(data, i, r, e) && AllDifferent(r)
    ensures AllDifferent(NextReps(r, e))
  {
    hide MatchTree.Same;
    if e.len >= 2 {
      StayDifferent(r, e.dist);
    }
  }

  /** Trying one sound edge out of the position at hand. */
  lemma TryEdge(pr: Prices, data: seq<byte>, s: seq<Entry>, offers: seq<seq<Edge>>, i: nat, e: Edge)
    requires Progress(pr, data, s, offers) && |offers| == i + 1 && i < |data| && s[i].cost.Some?
    requires Sound(data, i, s[i].reps, e)
    ensures var u, more := Tried(s, pr, data, i, s[i].cost.value, s[i].reps, e), offers[i := offers[i] + [e]];
      u[i] == s[i] && Progress(pr, data, u, more)
  {
    hide Sound, Relaxed, Reached, Tried, Better, Settles, AllSound, AllDifferent;
    var u, more := Tried(s, pr, data, i, s[i].cost.value, s[i].reps, e), offers[i := offers[i] + [e]];
    EdgeInside(data, i, s[i].reps, e);
    ProgressAt(pr, data, s, offers, i);
    TriedBetter(s, pr, data, i, s[i].cost.value, s[i].reps, e);
    OriginStays(s, u, i + e.len, e.len);
    NowSettled(pr, data, s, offers, i, e);
    forall k | 0 <= k < |more| && more[k] != [] ensures Relaxed(pr, data, u, more[k], k) {
      if k < i {
        StaysRelaxed(pr, data, s, u, i, e.len, offers[k], k);
      } else {
        OneMoreRelaxed(pr, data, s, u, i, offers[i], e);
      }
    }
    forall j | 0 < j <= |data| && u[j].cost.Some? ensures Reached(pr, data, u, more, j) {
      NowReached(pr, data, s, offers, i, e, j);
    }
  }

  lemma OriginStays(s: seq<Entry>, u: seq<Entry>, to: nat, len: nat)
    requires Better(s, u, to, len) && to > 0
    ensures u[0] == s[0] && |u| == |s|
  {
  }

  lemma EdgeInside(data: seq<byte>, i: nat, r: Reps, e: Edge)
    requires Sound(data, i, r, e)
    ensures 1 <= e.len && i + e.len <= |data|
  {
  }

  lemma OneMoreRelaxed(pr: Prices, data: seq<byte>, s: seq<Entry>, u: seq<Entry>, i: nat, edges: seq<Edge>, e: Edge)
    requires |s| == |data| + 1 && i < i + e.len <= |data| && Better(s, u, i + e.len, e.len) && s[i].cost.Some?
    requires edges != [] ==> Relaxed(pr, data, s, edges, i)
    requires u[i] == s[i] && Sound(data, i, s[i].reps, e) && Settles(pr, data, u, i, e)
    ensures Relaxed(pr, data, u, edges + [e], i)
  {
    hide Sound, Settles, Better;
    if edges != [] {
      StaysRelaxed(pr, data, s, u, i, e.len, edges, i);
    }
  }

  /** Trying every sound edge out of the position at hand, in order. */
  lemma {:induction false} TryAll(pr: Prices, data: seq<byte>, s: seq<Entry>, before: seq<seq<Edge>>, edges: seq<Edge>)
    requires Progress(pr, data, s, before) && |before| < |data| && s[|before|].cost.Some?
    requires AllSound(data, |before|, s[|before|].reps, edges)
    ensures var i := |before|;
      var u := AllTried(s, pr, data, i, s[i].cost.value, s[i].reps, edges);
      u[i] == s[i] && Progress(pr, data, u, before + [edges])
    decreases |edges|
  {
    hide Sound, Tried, Progress;
    var i := |before|;
    ProgressSize(pr, data, s, before);
    if edges == [] {
      NoEdgesYet(pr, data, s, before);
    } else {
      var m := |edges| - 1;
      TryAll(pr, data, s, before, edges[..m]);
      var u := AllTried(s, pr, data, i, s[i].cost.value, s[i].reps, edges[..m]);
      TryEdge(pr, data, u, before + [edges[..m]], i, edges[m]);
      assert edges[..m] + [edges[m]] == edges;
      assert (before + [edges[..m]])[i := edges] == before + [edges];
    }
  }

  lemma NoEdgesYet(pr: Prices, data: seq<byte>, s: seq<Entry>, offers: seq<seq<Edge>>)
    requires Progress(pr, data, s, offers) && |offers| < |data|
    ensures Progress(pr, data, s, offers + [[]])
  {
    hide Relaxed, Charge, AllDifferent;
    forall j | 0 < j <= |data| && s[j].cost.Some? ensures Reached(pr, data, s, offers + [[]], j) {
      assert Reached(pr, data, s, offers, j);
    }
  }

  lemma NothingSkipped(pr: Prices, data: seq<byte>, s: seq<Entry>, offers: seq<seq<Edge>>, n: nat)
    requires Progress(pr, data, s, offers) && |offers| + n <= |data|
    ensures Progress(pr, data, s, offers + Nothing(n))
  {
    hide Relaxed, Charge, AllDifferent;
    forall j | 0 < j <= |data| && s[j].cost.Some? ensures Reached(pr, data, s, offers + Nothing(n), j) {
      assert Reached(pr, data, s, offers, j);
    }
  }

  /** A pass under way: the position it has come to is reached. */
  ghost predicate UnderWay(s: Pass, pr: Prices, data: seq<byte>) {
    && Progress(pr, data, s.entries, s.offers) && s.entries[|s.offers|].cost.Some?
    && forall k :: 0 <= k < |s.offers| ==> s.offers[k] == [] || s.offers[k] == OffersAt(data, k, s.entries[k].reps)
  }

  lemma StartsUnderWay(pr: Prices, data: seq<byte>)
    requires |data| <= U32_MAX
    ensures UnderWay(Pass(StartEntries(|data|), []), pr, data)
  {
    hide Relaxed, Reached;
  }

  lemma ExpandStays(s: Pass, pr: Prices, data: seq<byte>)
    requires UnderWay(s, pr, data) && |s.offers| < |data|
    ensures UnderWay(Expanded(s, pr, data), pr, data)
    ensures var i := |s.offers|; Expanded(s, pr, data).entries[i] == s.entries[i]
  {
    hide Progress, Relaxed, AllSound, OffersAt, NextAt, AllTried, AllDifferent, Reached, LongestAt;
    UnderWaySize(s, pr, data);
    var i := |s.offers|;
    var from := s.entries[i];
    var edges, next := OffersAt(data, i, from.reps), NextAt(data, i, from.reps);
    ProgressAt(pr, data, s.entries, s.offers, i);
    OffersSound(data, i, from.reps);
    TryAll(pr, data, s.entries, s.offers, edges);
    var u := AllTried(s.entries, pr, data, i, from.cost.value, from.reps, edges);
    NothingSkipped(pr, data, u, s.offers + [edges], next - i - 1);
    NextReached(pr, data, u, s.offers + [edges], i);
    TriedKeepEarlier(s.entries, pr, data, i, from.cost.value, from.reps, edges);
  }

  lemma ProgressSize(pr: Prices, data: seq<byte>, s: seq<Entry>, offers: seq<seq<Edge>>)
    requires Progress(pr, data, s, offers)
    ensures |s| == |data| + 1 && |offers| <= |data| <= U32_MAX
  {
  }

  /** Where the parse goes on is reached: by the literal or by the match committed to. */
  lemma NextReached(pr: Prices, data: seq<byte>, u: seq<Entry>, offers: seq<seq<Edge>>, i: nat)
    requires Progress(pr, data, u, offers) && |offers| == i + 1 && i < |data| && u[i].cost.Some?
    requires offers[i] == OffersAt(data, i, u[i].reps)
    ensures NextAt(data, i, u[i].reps) <= |data| && u[NextAt(data, i, u[i].reps)].cost.Some?
  {
    hide AllSound, OffersAt, AllDifferent, Reached, LongestAt, Sound, Charge;
    ProgressAt(pr, data, u, offers, i);
    OffersSound(data, i, u[i].reps);
    assert Relaxed(pr, data, u, offers[i], i);
    assert Settles(pr, data, u, i, LITERAL_EDGE);
    var e := LongestAt(data, i, u[i].reps);
    if Commits(e) {
      assert Settles(pr, data, u, i, e);
    }
  }

  lemma {:induction false} TriedKeepEarlier(s: seq<Entry>, pr: Prices, data: seq<byte>, i: nat, here: nat, r: Reps, edges: seq<Edge>)
    requires AllSound(data, i, r, edges)
    ensures var u := AllTried(s, pr, data, i, here, r, edges);
      |u| == |s| && forall k :: 0 <= k < |s| && k <= i ==> u[k] == s[k]
    decreases |edges|
  {
    hide Charge, Sound, NextReps;
    if edges != [] {
      var m := |edges| - 1;
      TriedKeepEarlier(s, pr, data, i, here, r, edges[..m]);
      SoundInside(data, i, r, edges, edges[m]);
    }
  }

  /** The finished pass has come to the end of the data. */
  lemma {:induction false} FinishedStays(s: Pass, pr: Prices, data: seq<byte>)
    requires UnderWay(s, pr, data)
    ensures UnderWay(Finished(s, pr, data), pr, data) && |Finished(s, pr, data).offers| == |data|
    decreases |data| - |s.offers|
  {
    hide UnderWay, Expanded;
    UnderWaySize(s, pr, data);
    if |s.offers| < |data| {
      ExpandStays(s, pr, data);
      FinishedStays(Expanded(s, pr, data), pr, data);
    }
  }

  lemma UnderWaySize(s: Pass, pr: Prices, data: seq<byte>)
    requires UnderWay(s, pr, data)
    ensures |s.entries| == |data| + 1 && |s.offers| <= |data| <= U32_MAX && s.entries[|s.offers|].cost.Some?
  {
    hide Relaxed, Reached, OffersAt;
  }

  // ------------------------------------------------------------ the cheapest parse

  /** Offered edges end to end, from the start to `pos`. */
  ghost predicate Path(path: seq<Edge>, offers: seq<seq<Edge>>, pos: nat)
    decreases |path|
  {
    if path == [] then pos == 0
    else
      var m := |path| - 1;
      var e := path[m];
      1 <= e.len <= pos && pos - e.len < |offers| && e in offers[pos - e.len] && Path(path[..m], offers, pos - e.len)
  }

  ghost function Spelled(data: seq<byte>, path: seq<Edge>, offers: seq<seq<Edge>>, pos: nat): seq<Token>
    requires Path(path, offers, pos) && pos <= |data|
    decreases |path|
  {
    if path == [] then []
    else
      var m := |path| - 1;
      Spelled(data, path[..m], offers, pos - path[m].len) + [TokenOf(data, pos, path[m])]
  }

  /** The cost of a path as the table charges it, every edge under the queue the table holds. */
  ghost function PathCost(pr: Prices, data: seq<byte>, s: seq<Entry>, path: seq<Edge>, offers: seq<seq<Edge>>, pos: nat): nat
    requires Path(path, offers, pos) && pos <= |data| < |s|
    decreases |path|
  {
    if path == [] then 0
    else
      var m := |path| - 1;
      var from := pos - path[m].len;
      Charge(pr, s[from].reps, PathCost(pr, data, s, path[..m], offers, from), TokenOf(data, pos, path[m]))
  }

  /** Wherever the path stops, the queue replayed along it is the one the table holds. */
  ghost predicate Queued(data: seq<byte>, s: seq<Entry>, path: seq<Edge>, offers: seq<seq<Edge>>, pos: nat)
    requires Path(path, offers, pos) && pos <= |data| < |s|
    decreases |path|
  {
    && LeadsTo(data, pos, Spelled(data, path, offers, pos), s[pos].reps)
    && (path != [] ==>
          var m := |path| - 1;
          Queued(data, s, path[..m], offers, pos - path[m].len))
  }

  /** The table bounds every path over the edges offered from below. */
  lemma {:induction false} NoCheaperPath(pr: Prices, data: seq<byte>, s: seq<Entry>, path: seq<Edge>, offers: seq<seq<Edge>>, pos: nat)
    requires Progress(pr, data, s, offers) && Monotone(pr.add) && pos <= |data| && Path(path, offers, pos)
    ensures s[pos].cost.Some? && s[pos].cost.value <= PathCost(pr, data, s, path, offers, pos)
    decreases |path|
  {
    hide Charge, Reached, Sound, AllSound, Monotone;
    if path != [] {
      var m := |path| - 1;
      var e := path[m];
      var from := pos - e.len;
      NoCheaperPath(pr, data, s, path[..m], offers, from);
      assert Relaxed(pr, data, s, offers[from], from);
      assert Settles(pr, data, s, from, e);
      ChargeMonotone(pr, s[from].reps, s[from].cost.value, PathCost(pr, data, s, path[..m], offers, from), TokenOf(data, pos, e));
    }
  }

  /** Along the queues the table holds, the table charges what the encoder does. */
  lemma {:induction false} TrueCost(pr: Prices, data: seq<byte>, s: seq<Entry>, path: seq<Edge>, offers: seq<seq<Edge>>, pos: nat)
    requires Path(path, offers, pos) && pos <= |data| < |s| && Queued(data, s, path, offers, pos)
    ensures AllEncodable(LZ_START, Spelled(data, path, offers, pos))
    ensures Cost(pr, Spelled(data, path, offers, pos)) == PathCost(pr, data, s, path, offers, pos)
    decreases |path|
  {
    hide Charge, AllDifferent, StepAll;
    if path == [] {
    } else {
      var m := |path| - 1;
      var from := pos - path[m].len;
      TrueCost(pr, data, s, path[..m], offers, from);
      var front, t := Spelled(data, path[..m], offers, from), TokenOf(data, pos, path[m]);
      LastEncodable(LZ_START, front, t);
      CostSnoc(pr, LZ_START, 0, front, t);
    }
  }

  lemma {:induction false} LastEncodable(z: Lz, tokens: seq<Token>, t: Token)
    requires AllEncodable(z, tokens + [t])
    ensures AllEncodable(z, tokens) && Encodable(StepAll(z, tokens), t)
    decreases |tokens|
  {
    hide Encodable, Step;
    if tokens == [] {
      assert (tokens + [t])[0] == t;
    } else {
      assert (tokens + [t])[1..] == tokens[1..] + [t] && (tokens + [t])[0] == tokens[0];
      LastEncodable(Step(z, tokens[0]), tokens[1..], t);
    }
  }

  /** The edges the table names, followed back from `pos`. */
  ghost function Trace(pr: Prices, data: seq<byte>, s: seq<Entry>, offers: seq<seq<Edge>>, pos: nat): (path: seq<Edge>)
    requires Progress(pr, data, s, offers) && pos <= |data| && s[pos].cost.Some?
    ensures Path(path, offers, pos)
    decreases pos
  {
    if pos == 0 then []
    else
      assert Reached(pr, data, s, offers, pos);
      var e := Edge(s[pos].len, s[pos].dist);
      var path := Trace(pr, data, s, offers, pos - e.len);
      assert (path + [e])[..|path|] == path;
      path + [e]
  }

  /** The path traced leads to `pos` with the queue of the table, at exactly the table's cost. */
  lemma {:induction false} TraceIsPath(pr: Prices, data: seq<byte>, s: seq<Entry>, offers: seq<seq<Edge>>, pos: nat)
    requires Progress(pr, data, s, offers) && pos <= |data| && s[pos].cost.Some?
    ensures var path := Trace(pr, data, s, offers, pos);
      Queued(data, s, path, offers, pos) && PathCost(pr, data, s, path, offers, pos) == s[pos].cost.value
    decreases pos
  {
    hide Charge, Sound, AllDifferent, LeadsTo, Relaxed, NextReps;
    if pos == 0 {
      NothingLeads(data);
    } else {
      ProgressAt(pr, data, s, offers, pos);
      var e := Edge(s[pos].len, s[pos].dist);
      var from := pos - e.len;
      TraceIsPath(pr, data, s, offers, from);
      ProgressAt(pr, data, s, offers, from);
      RelaxedSound(pr, data, s, offers[from], from, e);
      var path := Trace(pr, data, s, offers, from);
      assert (path + [e])[..|path|] == path;
      EdgeLeads(data, from, Spelled(data, path, offers, from), s[from].reps, e);
    }
  }

  lemma RelaxedSound(pr: Prices, data: seq<byte>, s: seq<Entry>, edges: seq<Edge>, k: nat, e: Edge)
    requires |s| == |data| + 1 && k < |data| && Relaxed(pr, data, s, edges, k) && e in edges
    ensures Sound(data, k, s[k].reps, e)
  {
    hide Sound, Settles;
  }

  lemma NothingLeads(data: seq<byte>)
    ensures LeadsTo(data, 0, [], ORIGIN.reps)
  {
  }

  /** The parse under these prices. */
  ghost function ParseOf(pr: Prices, data: seq<byte>): seq<Token>
    requires |data| <= U32_MAX
  {
    StartsUnderWay(pr, data);
    FinishedStays(Pass(StartEntries(|data|), []), pr, data);
    var t := PassOver(pr, data);
    Spelled(data, Trace(pr, data, t.entries, t.offers, |data|), t.offers, |data|)
  }

  lemma PassStays(pr: Prices, data: seq<byte>)
    requires |data| <= U32_MAX
    ensures var t := PassOver(pr, data);
      UnderWay(t, pr, data) && Progress(pr, data, t.entries, t.offers) && |t.offers| == |data| && t.entries[|data|].cost.Some?
  {
    hide Relaxed, Reached, OffersAt;
    StartsUnderWay(pr, data);
    FinishedStays(Pass(StartEntries(|data|), []), pr, data);
  }

  /** The parse spells the data, and coding it costs what the table says. */
  lemma ParseCost(pr: Prices, data: seq<byte>)
    requires |data| <= U32_MAX
    ensures Spells(ParseOf(pr, data), data)
    ensures PassOver(pr, data).entries[|data|].cost == Some(Cost(pr, ParseOf(pr, data)))
  {
    hide UnderWay, Progress, PassOver, Cost, AllEncodable;
    PassStays(pr, data);
    var t := PassOver(pr, data);
    var path := Trace(pr, data, t.entries, t.offers, |data|);
    TraceIsPath(pr, data, t.entries, t.offers, |data|);
    TrueCost(pr, data, t.entries, path, t.offers, |data|);
    PathSpells(data, Spelled(data, path, t.offers, |data|), t.entries[|data|].reps);
  }

  lemma PathSpells(data: seq<byte>, tokens: seq<Token>, r: Reps)
    requires LeadsTo(data, |data|, tokens, r)
    ensures Spells(tokens, data)
  {
    assert data[..|data|] == data;
  }

  /** Where sums are monotone, no parse along offered edges that passes the same queues costs
      less to code. */
  lemma ParseIsCheapest(pr: Prices, data: seq<byte>, path: seq<Edge>)
    requires |data| <= U32_MAX && Monotone(pr.add)
    requires var t := PassOver(pr, data); Path(path, t.offers, |data|) && Queued(data, t.entries, path, t.offers, |data|)
    ensures AllEncodable(LZ_START, Spelled(data, path, PassOver(pr, data).offers, |data|))
    ensures Spells(ParseOf(pr, data), data)
    ensures Cost(pr, ParseOf(pr, data)) <= Cost(pr, Spelled(data, path, PassOver(pr, data).offers, |data|))
  {
    hide UnderWay, Progress, PassOver, Cost, AllEncodable, ParseOf, Monotone, Queued, Path, PathCost;
    PassStays(pr, data);
    var t := PassOver(pr, data);
    ParseCost(pr, data);
    NoCheaperPath(pr, data, t.entries, path, t.offers, |data|);
    TrueCost(pr, data, t.entries, path, t.offers, |data|);
  }

  // ------------------------------------------------------------ the table in place

  class Table {
    const cost: array<Option<nat>>
    const fromLen: array<nat>
    const fromDist: array<nat>
    const reps: array<Reps>

    predicate Sized() {
      cost.Length == fromLen.Length == fromDist.Length == reps.Length && fromLen != fromDist
    }

    ghost function View(): (s: seq<Entry>)
      requires Sized()
      reads cost, fromLen, fromDist, reps
      ensures |s| == cost.Length
      ensures forall j :: 0 <= j < |s| ==> s[j] == Entry(cost[j], fromLen[j], fromDist[j], reps[j])
    {
      seq(cost.Length, j requires 0 <= j < cost.Length reads cost, fromLen, fromDist, reps
        requires Sized() => Entry(cost[j], fromLen[j], fromDist[j], reps[j]))
    }

    lemma ViewAt(j: nat)
      requires Sized() && j < cost.Length
      ensures |View()| == cost.Length && View()[j] == Entry(cost[j], fromLen[j], fromDist[j], reps[j])
      ensures fromLen.Length == fromDist.Length == cost.Length
    {
    }

    constructor (n: nat)
      ensures Sized() && View() == StartEntries(n)
      ensures fresh(cost) && fresh(fromLen) && fresh(fromDist) && fresh(reps)
    {
      cost := new Option<nat>[n + 1](i => if i == 0 then Some(0) else None);
      fromLen := new nat[n + 1](i => 0);
      fromDist := new nat[n + 1](i => 0);
      reps := new Reps[n + 1](i => [1, 2, 3, 4]);
    }

    /** Take the way into `to` if it is cheaper than the one known. */
    method Relax(to: nat, c: nat, len: nat, dist: nat, r: Reps)
      requires Sized() && to < cost.Length
      modifies cost, fromLen, fromDist, reps
      ensures View() == Improved(old(View()), to, c, len, dist, r)
    {
      ghost var was := View();
      if cost[to].None? || c < cost[to].value {
        cost[to] := Some(c);
        fromLen[to] := len;
        fromDist[to] := dist;
        reps[to] := r;
        assert View() == was[to := Entry(Some(c), len, dist, r)];
      }
    }
  }

  // ------------------------------------------------------------ the parse

  method MatchLenAt(data: seq<byte>, pos: nat, dist: nat, maxLen: nat) returns (len: nat)
    requires 1 <= dist <= pos && pos + maxLen <= |data|
    ensures len == MatchTree.Common(data, pos - dist, pos, maxLen)
  {
    hide MatchTree.Common;
    len := 0;
    while len < maxLen && data[pos - dist + len] == data[pos + len]
      invariant 0 <= len <= maxLen && MatchTree.Same(data, pos - dist, pos, len)
    {
      AgreeSnoc(data, pos - dist, pos, len);
      len := len + 1;
    }
    MatchTree.CommonIs(data, pos - dist, pos, maxLen, len);
  }

  /** The position being expanded: where, at what cost, with which queue. */
  datatype From = From(pos: nat, here: nat, reps: Reps)

  ghost function Shown(s: seq<Entry>, pr: Prices, data: seq<byte>, f: From, edges: seq<Edge>): (u: seq<Entry>)
    ensures |u| == |s|
  {
    AllTried(s, pr, data, f.pos, f.here, f.reps, edges)
  }

  /** One edge more has been tried. */
  lemma ShownOne(s: seq<Entry>, pr: Prices, data: seq<byte>, f: From, edges: seq<Edge>, e: Edge, cost: nat, r: Reps)
    requires 1 <= e.len && f.pos + e.len <= |data| < |s|
    requires cost == Charge(pr, f.reps, f.here, TokenOf(data, f.pos + e.len, e)) && r == NextReps(f.reps, e)
    ensures Shown(s, pr, data, f, edges + [e])
         == Improved(Shown(s, pr, data, f, edges), f.pos + e.len, cost, e.len, e.dist, r)
  {
    hide Charge, NextReps, AllTried, Improved;
    TriedOne(s, pr, data, f.pos, f.here, f.reps, edges, e);
  }

  /** The lengths `lo` to `hi` of the distance at queue place `idx`, 4 for none. */
  method RelaxRange(table: Table, pr: Prices, data: seq<byte>, f: From, lo: nat, hi: nat, dist: nat, idx: nat, r: Reps,
                    ghost was: seq<Entry>, ghost edges: seq<Edge>)
    requires table.Sized() && 2 <= lo && f.pos + hi <= |data| && |was| == |data| + 1 && dist >= 1
    requires idx == RepIndex(f.reps, dist) && r == RepsAfter(f.reps, dist)
    requires table.View() == Shown(was, pr, data, f, edges)
    modifies table.cost, table.fromLen, table.fromDist, table.reps
    ensures table.View() == Shown(was, pr, data, f, edges + Lengths(lo, hi, dist))
  {
    hide AllTried, Improved, RepIndex, RepsAfter, NormalMatch;
    var l := lo;
    NoLengths(lo, dist);
    assert edges + [] == edges;
    while l <= hi
      invariant lo <= l && (l <= hi + 1 || l == lo)
      invariant table.View() == Shown(was, pr, data, f, edges + Lengths(lo, l - 1, dist))
      decreases hi + 1 - l
    {
      var c := AfterMatchAt(pr, f.here, idx, dist, l);
      ShownOne(was, pr, data, f, edges + Lengths(lo, l - 1, dist), Edge(l, dist), c, r);
      table.Relax(f.pos + l, c, l, dist, r);
      assert edges + Lengths(lo, l - 1, dist) + [Edge(l, dist)] == edges + Lengths(lo, l, dist);
      l := l + 1;
    }
    if hi < lo {
      NoLengthsTo(lo, hi, dist);
    }
  }

  lemma NoLengths(lo: nat, dist: nat)
    requires lo >= 1
    ensures Lengths(lo, lo - 1, dist) == []
  {
  }

  lemma NoLengthsTo(lo: nat, hi: nat, dist: nat)
    requires hi < lo
    ensures Lengths(lo, hi, dist) == []
  {
  }

  lemma QueuePlace(r: Reps, idx: nat)
    requires AllDifferent(r) && idx < 4
    ensures RepIndex(r, r[idx]) == idx && RepsAfter(r, r[idx]) == ToFront(r, idx) && r[idx] >= 1
  {
  }

  /** Edges of the distance at queue place `idx`. */
  method RelaxRep(table: Table, pr: Prices, data: seq<byte>, f: From, idx: nat, maxLen: nat, before: Edge, beforeReps: Reps,
                  ghost was: seq<Entry>, ghost edges: seq<Edge>)
    returns (longest: Edge, longestReps: Reps)
    requires table.Sized() && f.pos < |data| && |was| == |data| + 1 && AllDifferent(f.reps) && maxLen == Room(data, f.pos) && idx < 4
    requires table.View() == Shown(was, pr, data, f, edges)
    modifies table.cost, table.fromLen, table.fromDist, table.reps
    ensures table.View() == Shown(was, pr, data, f, edges + EdgesOfRep(data, f.pos, f.reps, idx))
    ensures var len := RepLen(data, f.pos, f.reps[idx]);
      && longest == (if len >= 2 then Longer(before, len, f.reps[idx]) else before)
      && longestReps == if len >= 2 && longest != before then RepsAfter(f.reps, f.reps[idx]) else beforeReps
  {
    hide AllTried, Improved, RepIndex, RepsAfter, NormalMatch, AllDifferent, MatchTree.Common, Lengths, Room, EdgesOfRep, Shown;
    var i, r := f.pos, f.reps;
    longest, longestReps := before, beforeReps;
    var dist := r[idx];
    QueuePlace(r, idx);
    RepEdgesAre(data, i, r, idx);
    assert edges + ([] + []) == edges;
    if dist <= i {
      var len := MatchLenAt(data, i, dist, maxLen);
      ghost var short: seq<Edge> := [];
      if idx == 0 && len >= 1 {
        ShownOne(was, pr, data, f, edges, Edge(1, dist), pr.add(f.here, pr.shortRep), r);
        table.Relax(i + 1, pr.add(f.here, pr.shortRep), 1, dist, r);
        short := [Edge(1, dist)];
      }
      assert edges + (short + []) == edges + short;
      if len >= 2 {
        var moved := ToFront(r, idx);
        if len > longest.len {
          longest, longestReps := Edge(len, dist), moved;
        }
        if len < MatchTree.NICE_LEN {
          RelaxRange(table, pr, data, f, 2, len, dist, idx, moved, was, edges + short);
        }
      }
      assert edges + short + Lengths(2, len, dist) == edges + (short + Lengths(2, len, dist));
    }
  }

  /** Edges that repeat a recent distance. */
  method RelaxReps(table: Table, pr: Prices, data: seq<byte>, f: From, maxLen: nat, ghost was: seq<Entry>)
    returns (longest: Edge, longestReps: Reps)
    requires table.Sized() && f.pos < |data| && |was| == |data| + 1 && AllDifferent(f.reps) && maxLen == Room(data, f.pos)
    requires table.View() == Shown(was, pr, data, f, [LITERAL_EDGE])
    modifies table.cost, table.fromLen, table.fromDist, table.reps
    ensures table.View() == Shown(was, pr, data, f, [LITERAL_EDGE] + RepEdges(data, f.pos, f.reps, 4))
    ensures longest == LongestRep(data, f.pos, f.reps, 4) && (longest.len > 0 ==> longestReps == RepsAfter(f.reps, longest.dist))
  {
    hide Shown, RepsAfter, AllDifferent, RepLen, Room, EdgesOfRep;
    var i, r := f.pos, f.reps;
    longest, longestReps := Edge(0, 0), r;
    ghost var edges := [LITERAL_EDGE];
    for idx := 0 to 4
      invariant edges == [LITERAL_EDGE] + RepEdges(data, i, r, idx)
      invariant table.View() == Shown(was, pr, data, f, edges)
      invariant longest == LongestRep(data, i, r, idx) && (longest.len > 0 ==> longestReps == RepsAfter(r, longest.dist))
    {
      longest, longestReps := RelaxRep(table, pr, data, f, idx, maxLen, longest, longestReps, was, edges);
      edges := edges + EdgesOfRep(data, i, r, idx);
    }
  }

  lemma RepEdgesAre(data: seq<byte>, p: nat, r: Reps, idx: nat)
    requires p <= |data| && idx < 4
    ensures var len := RepLen(data, p, r[idx]);
      EdgesOfRep(data, p, r, idx)
      == (if idx == 0 && len >= 1 then [Edge(1, r[idx])] else [])
         + (if 2 <= len < MatchTree.NICE_LEN then Lengths(2, len, r[idx]) else [])
  {
  }

  lemma ShiftedQueue(r: Reps, dist: nat)
    requires dist !in r
    ensures RepIndex(r, dist) == 4 && RepsAfter(r, dist) == [dist, r[0], r[1], r[2]]
  {
    assert r[..3] == [r[0], r[1], r[2]];
  }

  /** Edges of the match finder. */
  method RelaxMatches(table: Table, pr: Prices, data: seq<byte>, f: From, ms: seq<(nat, nat)>, start: Edge, startReps: Reps,
                      ghost was: seq<Entry>, ghost first: seq<Edge>)
    returns (longest: Edge, longestReps: Reps)
    requires table.Sized() && f.pos < |data| <= U32_MAX && |was| == |data| + 1 && TrueMatches(data, f.pos, ms)
    requires table.View() == Shown(was, pr, data, f, first)
    requires start.len > 0 ==> startReps == RepsAfter(f.reps, start.dist)
    modifies table.cost, table.fromLen, table.fromDist, table.reps
    ensures table.View() == Shown(was, pr, data, f, first + MatchEdges(f.reps, ms, |ms|))
    ensures longest == LongestMatch(f.reps, ms, |ms|, start)
    ensures longest.len > 0 ==> longestReps == RepsAfter(f.reps, longest.dist)
  {
    hide AllTried, Improved, RepIndex, RepsAfter, NormalMatch, TrueMatches, Lengths, AllSound, Sound;
    var r := f.reps;
    longest, longestReps := start, startReps;
    var prevLen := MIN_MATCH - 1;
    ghost var edges := first;
    for k := 0 to |ms|
      invariant edges == first + MatchEdges(r, ms, k) && prevLen == LengthBefore(ms, k)
      invariant table.View() == Shown(was, pr, data, f, edges)
      invariant longest == LongestMatch(r, ms, k, start) && (longest.len > 0 ==> longestReps == RepsAfter(r, longest.dist))
    {
      var (dist, len) := ms[k];
      MatchNear(data, f.pos, ms, k);
      OneMatch(data, f.pos, r, ms, k);
      EdgeInside(data, f.pos, r, Edge(len, dist));
      ghost var before := edges;
      if dist !in r {
        ShiftedQueue(r, dist);
        var shifted := [dist, r[0], r[1], r[2]];
        if len > longest.len {
          longest, longestReps := Edge(len, dist), shifted;
        }
        if len < MatchTree.NICE_LEN {
          RelaxRange(table, pr, data, f, prevLen + 1, len, dist, 4, shifted, was, edges);
          edges := edges + Lengths(prevLen + 1, len, dist);
        }
      }
      assert edges == before + EdgesOfMatch(r, ms, k);
      prevLen := len;
    }
  }

  // ------------------------------------------------------------ the finder along the way

  /** Every bucket holds the tree of the positions before `n`. */
  ghost predicate HoldsTrees(finder: MatchFinder.Finder, data: seq<byte>, n: nat)
    requires n <= |data|
    reads finder, finder.head, finder.son
  {
    finder.Valid(data, n) && forall h :: 0 <= h < HASH_SIZE ==> finder.Tree(h) == TreeOf(data, h, n)
  }

  lemma FinderLater(finder: MatchFinder.Finder, data: seq<byte>, n: nat)
    requires n < |data| && HoldsTrees(finder, data, n) && n + MIN_MATCH > |data|
    ensures HoldsTrees(finder, data, n + 1)
  {
    hide MatchFinder.CandTree, MatchTree.Ordered, HashAt;
  }

  /** Insert one position; too close to the end, nothing is inserted. */
  method Advance(finder: MatchFinder.Finder, data: seq<byte>, p: nat, collect: bool) returns (ms: seq<(nat, nat)>)
    requires p < |data| && HoldsTrees(finder, data, p)
    modifies finder.head, finder.son
    ensures HoldsTrees(finder, data, p + 1)
    ensures ms == if collect && p + MIN_MATCH <= |data| then Found(data, p) else []
  {
    hide MatchFinder.Bucket, MatchFinder.Older, MatchFinder.CandTree, HashAt, MatchTree.Split, MatchTree.Met, MatchTree.Uncut,
      MatchFinder.AllRepresented, MatchFinder.Matches;
    ms := [];
    if p + MIN_MATCH <= |data| {
      ms := finder.Insert(data, p, collect);
    } else {
      FinderLater(finder, data, p);
    }
  }

  lemma MatchesAre(data: seq<byte>, p: nat)
    requires p < |data|
    ensures MatchesAt(data, p) ==
      if p + MIN_MATCH > |data| then []
      else
        var ms := Found(data, p);
        var k := |ms| - 1;
        if ms == [] || ms[k].1 != MatchTree.NICE_LEN then ms
        else
          assert MatchFinder.IsMatch(data, p, ms[k].0, ms[k].1);
          ms[k := (ms[k].0, MatchTree.Common(data, p - ms[k].0, p, Room(data, p)))]
    ensures p + MIN_MATCH <= |data| && Found(data, p) != [] ==>
      var ms := Found(data, p);
      1 <= ms[|ms| - 1].0 <= p
  {
    hide Found, MatchTree.Common, MatchTree.Same, Room;
    if p + MIN_MATCH <= |data| && Found(data, p) != [] {
      var ms := Found(data, p);
      assert MatchFinder.IsMatch(data, p, ms[|ms| - 1].0, ms[|ms| - 1].1);
    }
  }

  /** Search at `p`, the longest match followed to its end. */
  method Search(finder: MatchFinder.Finder, data: seq<byte>, p: nat, maxLen: nat) returns (ms: seq<(nat, nat)>)
    requires p < |data| && HoldsTrees(finder, data, p) && maxLen == Room(data, p)
    modifies finder.head, finder.son
    ensures HoldsTrees(finder, data, p + 1) && ms == MatchesAt(data, p)
  {
    hide *;
    ms := Advance(finder, data, p, true);
    MatchesAre(data, p);
    if ms != [] {
      var last := ms[|ms| - 1];
      if last.1 == MatchTree.NICE_LEN {
        var len := MatchLenAt(data, p, last.0, maxLen);
        ms := ms[|ms| - 1 := (last.0, len)];
      }
    }
  }

  /** The positions a committed match covers are inserted but not searched from. */
  method SkipTo(finder: MatchFinder.Finder, data: seq<byte>, from: nat, to: nat)
    requires from <= to <= |data| && HoldsTrees(finder, data, from)
    modifies finder.head, finder.son
    ensures HoldsTrees(finder, data, to)
  {
    hide HoldsTrees;
    for p := from to to
      invariant HoldsTrees(finder, data, p)
    {
      var _ := Advance(finder, data, p, false);
    }
  }

  /** Table and finder share no array. */
  predicate Separate(table: Table, finder: MatchFinder.Finder) {
    && finder.head != table.fromLen && finder.head != table.fromDist
    && finder.son != table.fromLen && finder.son != table.fromDist
  }

  /** All edges out of `i`; returns the next position to expand. */
  method Expand(table: Table, finder: MatchFinder.Finder, pr: Prices, data: seq<byte>, i: nat, ghost s: Pass) returns (to: nat)
    requires Separate(table, finder) && table.Sized() && i == |s.offers| < |data| && HoldsTrees(finder, data, i)
    requires UnderWay(s, pr, data) && table.View() == s.entries
    modifies table.cost, table.fromLen, table.fromDist, table.reps, finder.head, finder.son
    ensures table.View() == Expanded(s, pr, data).entries && to == |Expanded(s, pr, data).offers| <= |data|
    ensures HoldsTrees(finder, data, to)
  {
    hide *;
    SeparateArrays(table, finder);
    RoomIs(data, i);
    UnderWaySize(s, pr, data);
    ExpandStays(s, pr, data);
    UnderWaySize(Expanded(s, pr, data), pr, data);
    ExpandedShows(s, pr, data);
    table.ViewAt(i);
    var here, r := table.cost[i].value, table.reps[i];
    var f := From(i, here, r);
    ghost var was := s.entries;
    OffersAre(data, i, r);
    QueueHere(s, pr, data);
    MatchesTrue(data, i);
    var maxLen := if |data| - i < MAX_MATCH then |data| - i else MAX_MATCH;
    table.Relax(i + 1, pr.add(here, pr.literal(data[i])), 1, 0, r);
    LiteralShown(was, pr, data, f);
    var longest, longestReps := RelaxReps(table, pr, data, f, maxLen, was);
    var ms := Search(finder, data, i, maxLen);
    longest, longestReps := RelaxMatches(table, pr, data, f, ms, longest, longestReps, was, [LITERAL_EDGE] + RepEdges(data, i, r, 4));
    ghost var edges := [LITERAL_EDGE] + RepEdges(data, i, r, 4) + MatchEdges(r, ms, |ms|);
    to := i + 1;
    assert edges + [] == edges;
    if longest.len >= MatchTree.NICE_LEN {
      LongestFits(s, pr, data);
      var c := AfterMatchAt(pr, here, RepIndex(r, longest.dist), longest.dist, longest.len);
      ShownCommitted(was, pr, data, f, edges, longest, c, longestReps);
      table.Relax(i + longest.len, c, longest.len, longest.dist, longestReps);
      to := i + longest.len;
      SkipTo(finder, data, i + 1, to);
    }
  }

  lemma SeparateArrays(table: Table, finder: MatchFinder.Finder)
    requires Separate(table, finder) && table.Sized()
    ensures finder.head != table.fromLen && finder.head != table.fromDist
    ensures finder.son != table.fromLen && finder.son != table.fromDist
    ensures table.cost.Length == table.fromLen.Length == table.fromDist.Length == table.reps.Length
  {
  }

  lemma RoomIs(data: seq<byte>, p: nat)
    requires p <= |data|
    ensures Room(data, p) == if |data| - p < MAX_MATCH then |data| - p else MAX_MATCH
  {
  }

  lemma ExpandedShows(s: Pass, pr: Prices, data: seq<byte>)
    requires |s.offers| < |data| && |s.entries| == |data| + 1 && s.entries[|s.offers|].cost.Some?
    ensures var i, t := |s.offers|, Expanded(s, pr, data);
      var from := s.entries[i];
      && t.entries == Shown(s.entries, pr, data, From(i, from.cost.value, from.reps), OffersAt(data, i, from.reps))
      && |t.offers| == NextAt(data, i, from.reps)
  {
    hide OffersAt, NextAt, AllTried;
  }

  lemma OffersAre(data: seq<byte>, p: nat, r: Reps)
    requires p <= |data|
    ensures var ms := MatchesAt(data, p);
      var long := LongestMatch(r, ms, |ms|, LongestRep(data, p, r, 4));
      && long == LongestAt(data, p, r)
      && OffersAt(data, p, r) == [LITERAL_EDGE] + RepEdges(data, p, r, 4) + MatchEdges(r, ms, |ms|)
           + (if long.len >= MatchTree.NICE_LEN then [long] else [])
      && NextAt(data, p, r) == if long.len >= MatchTree.NICE_LEN then p + long.len else p + 1
  {
    hide MatchesAt, RepEdges, MatchEdges, LongestRep, LongestMatch;
  }

  lemma QueueHere(s: Pass, pr: Prices, data: seq<byte>)
    requires UnderWay(s, pr, data) && |s.offers| < |data|
    ensures AllDifferent(s.entries[|s.offers|].reps)
  {
    hide Relaxed, Reached, OffersAt, AllDifferent;
    ProgressAt(pr, data, s.entries, s.offers, |s.offers|);
  }

  lemma LiteralShown(s: seq<Entry>, pr: Prices, data: seq<byte>, f: From)
    requires f.pos < |data| < |s|
    ensures Shown(s, pr, data, f, [LITERAL_EDGE]) == Improved(s, f.pos + 1, pr.add(f.here, pr.literal(data[f.pos])), 1, 0, f.reps)
  {
    hide Improved;
    ShownOne(s, pr, data, f, [], LITERAL_EDGE, pr.add(f.here, pr.literal(data[f.pos])), f.reps);
    assert [] + [LITERAL_EDGE] == [LITERAL_EDGE];
  }

  lemma LongestFits(s: Pass, pr: Prices, data: seq<byte>)
    requires UnderWay(s, pr, data) && |s.offers| < |data|
    ensures var i := |s.offers|;
      var e := LongestAt(data, i, s.entries[i].reps);
      e.len >= MatchTree.NICE_LEN ==> e.len >= 2 && i + e.len <= |data| && e.dist >= 1
  {
    hide Relaxed, Reached, OffersAt, AllDifferent, AllSound, LongestAt, MatchTree.Same;
    QueueHere(s, pr, data);
    OffersSound(data, |s.offers|, s.entries[|s.offers|].reps);
  }

  lemma ShownCommitted(s: seq<Entry>, pr: Prices, data: seq<byte>, f: From, edges: seq<Edge>, e: Edge, cost: nat, r: Reps)
    requires 2 <= e.len && e.dist >= 1 && f.pos + e.len <= |data| < |s|
    requires cost == AfterMatchAt(pr, f.here, RepIndex(f.reps, e.dist), e.dist, e.len) && r == RepsAfter(f.reps, e.dist)
    ensures Shown(s, pr, data, f, edges + [e])
         == Improved(Shown(s, pr, data, f, edges), f.pos + e.len, cost, e.len, e.dist, r)
  {
    hide AllTried, Improved, RepIndex, RepsAfter, NormalMatch;
    ShownOne(s, pr, data, f, edges, e, cost, r);
  }

  /** Follow the entries back from the end. */
  method Backtrace(table: Table, pr: Prices, data: seq<byte>, ghost t: Pass) returns (tokens: seq<Token>)
    requires table.Sized() && table.View() == t.entries && Progress(pr, data, t.entries, t.offers)
    requires t.entries[|data|].cost.Some?
    ensures tokens == Spelled(data, Trace(pr, data, t.entries, t.offers, |data|), t.offers, |data|)
  {
    hide *;
    ghost var s, offers := t.entries, t.offers;
    TraceNothing(pr, data, s, offers);
    ghost var goal := Spelled(data, Trace(pr, data, s, offers, |data|), offers, |data|);
    var back := [];
    var pos := |data|;
    while pos > 0
      invariant 0 <= pos <= |data| && s[pos].cost.Some?
      invariant table.View() == s && table.Sized() && Progress(pr, data, s, offers)
      invariant goal == Spelled(data, Trace(pr, data, s, offers, pos), offers, pos) + Reversed(back)
    {
      TraceStep(pr, data, s, offers, pos);
      table.ViewAt(pos);
      var len := table.fromLen[pos];
      var dist := table.fromDist[pos];
      var token := if dist == 0 then Literal(data[pos - 1]) else Match(dist, len);
      TokenIs(data, pos, len, dist);
      ReversedSnoc(back, token);
      assert (Spelled(data, Trace(pr, data, s, offers, pos - len), offers, pos - len) + [token]) + Reversed(back)
          == Spelled(data, Trace(pr, data, s, offers, pos - len), offers, pos - len) + ([token] + Reversed(back));
      back := back + [token];
      pos := pos - len;
    }
    tokens := Reversed(back);
  }

  lemma TokenIs(data: seq<byte>, pos: nat, len: nat, dist: nat)
    requires 0 < pos <= |data|
    ensures TokenOf(data, pos, Edge(len, dist)) == if dist == 0 then Literal(data[pos - 1]) else Match(dist, len)
  {
  }

  lemma TraceNothing(pr: Prices, data: seq<byte>, s: seq<Entry>, offers: seq<seq<Edge>>)
    requires Progress(pr, data, s, offers)
    ensures |s| == |data| + 1 && s[0].cost.Some? && Spelled(data, Trace(pr, data, s, offers, 0), offers, 0) == []
  {
    hide Relaxed, Reached;
  }

  lemma ReachedFrom(pr: Prices, data: seq<byte>, s: seq<Entry>, offers: seq<seq<Edge>>, pos: nat)
    requires Progress(pr, data, s, offers) && 0 < pos <= |data| && s[pos].cost.Some?
    ensures |s| == |data| + 1 && 1 <= s[pos].len <= pos && s[pos - s[pos].len].cost.Some?
  {
    hide Charge, AllDifferent, NextReps, Relaxed;
    assert Reached(pr, data, s, offers, pos);
  }

  lemma TraceUnfolds(pr: Prices, data: seq<byte>, s: seq<Entry>, offers: seq<seq<Edge>>, pos: nat)
    requires Progress(pr, data, s, offers) && 0 < pos <= |data| && s[pos].cost.Some?
    ensures |s| == |data| + 1 && 1 <= s[pos].len <= pos && s[pos - s[pos].len].cost.Some?
    ensures Trace(pr, data, s, offers, pos)
         == Trace(pr, data, s, offers, pos - s[pos].len) + [Edge(s[pos].len, s[pos].dist)]
  {
    ReachedFrom(pr, data, s, offers, pos);
    hide Progress, Path, Reached, Relaxed, Charge, AllDifferent, NextReps, Sound;
  }

  lemma SpelledSnoc(data: seq<byte>, path: seq<Edge>, e: Edge, offers: seq<seq<Edge>>, pos: nat)
    requires pos <= |data| && Path(path + [e], offers, pos)
    ensures 1 <= e.len <= pos && Path(path, offers, pos - e.len)
    ensures Spelled(data, path + [e], offers, pos) == Spelled(data, path, offers, pos - e.len) + [TokenOf(data, pos, e)]
  {
    hide TokenOf;
    assert (path + [e])[..|path|] == path;
  }

  lemma TraceStep(pr: Prices, data: seq<byte>, s: seq<Entry>, offers: seq<seq<Edge>>, pos: nat)
    requires Progress(pr, data, s, offers) && 0 < pos <= |data| && s[pos].cost.Some?
    ensures var e := Edge(s[pos].len, s[pos].dist);
      && 1 <= e.len <= pos && s[pos - e.len].cost.Some?
      && Spelled(data, Trace(pr, data, s, offers, pos), offers, pos)
         == Spelled(data, Trace(pr, data, s, offers, pos - e.len), offers, pos - e.len) + [TokenOf(data, pos, e)]
  {
    hide *;
    TraceUnfolds(pr, data, s, offers, pos);
    var e := Edge(s[pos].len, s[pos].dist);
    SpelledSnoc(data, Trace(pr, data, s, offers, pos - e.len), e, offers, pos);
  }

  /** `optimal_parse`: the parse the cheapest entries spell. */
  method Parse(data: seq<byte>, pr: Prices) returns (tokens: seq<Token>)
    requires |data| <= U32_MAX
    ensures tokens == ParseOf(pr, data) && Spells(tokens, data)
  {
    hide UnderWay, HoldsTrees, Progress, Expanded, Trace, Spelled;
    var table := new Table(|data|);
    var finder := new MatchFinder.Finder(data);
    FinderStarts(finder, data);
    ghost var s := Pass(StartEntries(|data|), []);
    StartsUnderWay(pr, data);
    var i := 0;
    while i < |data|
      invariant 0 <= i <= |data| && i == |s.offers| && |s.entries| == |data| + 1
      invariant UnderWay(s, pr, data) && table.View() == s.entries && HoldsTrees(finder, data, i)
      invariant Finished(s, pr, data) == PassOver(pr, data)
    {
      i := Expand(table, finder, pr, data, i, s);
      ExpandStays(s, pr, data);
      s := Expanded(s, pr, data);
    }
    PassStays(pr, data);
    tokens := Backtrace(table, pr, data, s);
    ParseCost(pr, data);
  }

  lemma FinderStarts(finder: MatchFinder.Finder, data: seq<byte>)
    requires finder.Valid(data, 0) && forall h :: 0 <= h < HASH_SIZE ==> finder.Tree(h) == MatchTree.Leaf
    ensures HoldsTrees(finder, data, 0)
  {
    hide MatchFinder.CandTree, MatchFinder.Bucket;
  }
}
