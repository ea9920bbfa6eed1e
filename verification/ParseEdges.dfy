/** The edges that the price-driven parse weighs out of one position: a literal, repeats of
    the recent distances, what the match finder reports, and the long match it commits to. */
module ParseEdges {
  import opened Bytes
  import opened Suffixes
  import opened Lzma
  import opened Tokens
  import MatchTree
  import MatchFinder

  /** Four different distances. */
  ghost predicate AllDifferent(r: Reps) {
    (forall i, j :: 0 <= i < j < 4 ==> r[i] != r[j]) && forall i :: 0 <= i < 4 ==> r[i] >= 1
  }

  /** The queue after a match of two bytes or more. */
  function RepsAfter(r: Reps, dist: nat): Reps {
    var idx := RepIndex(r, dist);
    if idx < 4 then ToFront(r, idx) else Pushed(r, dist)
  }

  lemma StayDifferent(r: Reps, dist: nat)
    requires AllDifferent(r) && dist >= 1
    ensures AllDifferent(RepsAfter(r, dist))
  {
  }

  /** Length and distance; distance 0 is a literal, length 1 the short repeat. */
  datatype Edge = Edge(len: nat, dist: nat)

  const LITERAL_EDGE := Edge(1, 0)

  function NextReps(r: Reps, e: Edge): Reps {
    if e.len < 2 then r else RepsAfter(r, e.dist)
  }

  /** An edge out of `p` that every path leading there with queue `r` can take. */
  ghost predicate Sound(data: seq<byte>, p: nat, r: Reps, e: Edge) {
    && p + e.len <= |data| <= U32_MAX && 1 <= e.len <= MAX_MATCH
    && (if e.dist == 0 then e.len == 1
        else e.dist <= p && MatchTree.Same(data, p - e.dist, p, e.len) && (e.len == 1 ==> e.dist == r[0]))
  }

  ghost predicate AllSound(data: seq<byte>, p: nat, r: Reps, edges: seq<Edge>) {
    forall e :: e in edges ==> Sound(data, p, r, e)
  }

  lemma SoundBoth(data: seq<byte>, p: nat, r: Reps, a: seq<Edge>, b: seq<Edge>)
    requires AllSound(data, p, r, a) && AllSound(data, p, r, b)
    ensures AllSound(data, p, r, a + b)
  {
    hide Sound;
  }

  lemma SoundInside(data: seq<byte>, p: nat, r: Reps, edges: seq<Edge>, e: Edge)
    requires AllSound(data, p, r, edges) && e in edges
    ensures Sound(data, p, r, e) && 1 <= e.len && p + e.len <= |data|
  {
  }

  lemma SoundNone(data: seq<byte>, p: nat, r: Reps)
    ensures AllSound(data, p, r, [])
  {
  }

  // ------------------------------------------------------------ one distance

  /** How far a match may reach from `p`. */
  function Room(data: seq<byte>, p: nat): (m: nat)
    requires p <= |data|
    ensures m <= MAX_MATCH && p + m <= |data| && (m == MAX_MATCH || p + m == |data|)
  {
    if |data| - p < MAX_MATCH then |data| - p else MAX_MATCH
  }

  /** How long the data at `p` repeats what is `dist` back; nothing from before the start. */
  function RepLen(data: seq<byte>, p: nat, dist: nat): (len: nat)
    requires p <= |data|
    ensures len <= Room(data, p)
  {
    if dist <= p then MatchTree.Common(data, p - dist, p, Room(data, p)) else 0
  }

  /** Every length from `lo` to `hi` at one distance. */
  function Lengths(lo: nat, hi: nat, dist: nat): seq<Edge> {
    if hi < lo then [] else if hi == 0 then [Edge(0, dist)] else Lengths(lo, hi - 1, dist) + [Edge(hi, dist)]
  }

  lemma {:induction false} LengthsAre(lo: nat, hi: nat, dist: nat, e: Edge)
    ensures e in Lengths(lo, hi, dist) <==> lo <= e.len <= hi && e.dist == dist
    decreases hi
  {
    if lo <= hi && hi > 0 {
      LengthsAre(lo, hi - 1, dist, e);
    }
  }

  lemma LengthsSound(data: seq<byte>, p: nat, r: Reps, lo: nat, hi: nat, dist: nat)
    requires 2 <= lo && 1 <= dist <= p && p + hi <= |data| <= U32_MAX && hi <= MAX_MATCH
    requires MatchTree.Same(data, p - dist, p, hi)
    ensures AllSound(data, p, r, Lengths(lo, hi, dist))
  {
    hide MatchTree.Same;
    forall e | e in Lengths(lo, hi, dist) ensures Sound(data, p, r, e) {
      LengthsAre(lo, hi, dist, e);
      MatchTree.SameShorter(data, p - dist, p, hi, e.len);
    }
  }

  // ------------------------------------------------------------ recent distances

  /** The short repeat belongs to the most recent distance only; from NICE_LEN on a match is
      left to the commitment. */
  function EdgesOfRep(data: seq<byte>, p: nat, r: Reps, idx: nat): seq<Edge>
    requires p <= |data| && idx < 4
  {
    var len := RepLen(data, p, r[idx]);
    (if idx == 0 && len >= 1 then [Edge(1, r[idx])] else [])
    + (if 2 <= len < MatchTree.NICE_LEN then Lengths(2, len, r[idx]) else [])
  }

  /** Edges of the first `k` distances of the queue. */
  function RepEdges(data: seq<byte>, p: nat, r: Reps, k: nat): seq<Edge>
    requires p <= |data| && k <= 4
  {
    if k == 0 then [] else RepEdges(data, p, r, k - 1) + EdgesOfRep(data, p, r, k - 1)
  }

  function Longer(e: Edge, len: nat, dist: nat): Edge {
    if len > e.len then Edge(len, dist) else e
  }

  /** The longest repeat among the first `k` distances, the most recent one on a tie. */
  function LongestRep(data: seq<byte>, p: nat, r: Reps, k: nat): Edge
    requires p <= |data| && k <= 4
  {
    if k == 0 then Edge(0, 0)
    else
      var e, len := LongestRep(data, p, r, k - 1), RepLen(data, p, r[k - 1]);
      if len >= 2 then Longer(e, len, r[k - 1]) else e
  }

  lemma RepSound(data: seq<byte>, p: nat, r: Reps, idx: nat)
    requires p <= |data| <= U32_MAX && idx < 4 && AllDifferent(r)
    ensures var len := RepLen(data, p, r[idx]);
      && (len >= 1 ==> r[idx] <= p && MatchTree.Same(data, p - r[idx], p, len))
      && (len >= 2 ==> Sound(data, p, r, Edge(len, r[idx])))
      && AllSound(data, p, r, EdgesOfRep(data, p, r, idx))
  {
    hide MatchTree.Same, MatchTree.Common, Lengths, AllSound;
    var len := RepLen(data, p, r[idx]);
    var short: seq<Edge> := if idx == 0 && len >= 1 then [Edge(1, r[idx])] else [];
    var long := if 2 <= len < MatchTree.NICE_LEN then Lengths(2, len, r[idx]) else [];
    SoundNone(data, p, r);
    if len >= 1 {
      MatchTree.SameShorter(data, p - r[idx], p, len, 1);
      if idx == 0 {
        OneSound(data, p, r, Edge(1, r[idx]));
      }
      LengthsSound(data, p, r, 2, len, r[idx]);
    }
    SoundBoth(data, p, r, short, long);
  }

  lemma OneSound(data: seq<byte>, p: nat, r: Reps, e: Edge)
    requires Sound(data, p, r, e)
    ensures AllSound(data, p, r, [e])
  {
    hide Sound;
  }

  lemma {:induction false} RepsSound(data: seq<byte>, p: nat, r: Reps, k: nat)
    requires p <= |data| <= U32_MAX && k <= 4 && AllDifferent(r)
    ensures AllSound(data, p, r, RepEdges(data, p, r, k))
    ensures var e := LongestRep(data, p, r, k); e.len > 0 ==> e.len >= 2 && e.dist >= 1 && Sound(data, p, r, e)
  {
    hide AllSound, Sound, EdgesOfRep, RepLen;
    SoundNone(data, p, r);
    if k > 0 {
      RepsSound(data, p, r, k - 1);
      RepSound(data, p, r, k - 1);
      SoundBoth(data, p, r, RepEdges(data, p, r, k - 1), EdgesOfRep(data, p, r, k - 1));
    }
  }

  // ------------------------------------------------------------ the match finder

  /** The tree of bucket `h` once every position before `n` has been inserted. */
  ghost function TreeOf(data: seq<byte>, h: nat, n: nat): (t: MatchTree.Tree)
    requires n <= |data|
    ensures MatchTree.AllBelow(t, n)
  {
    if n == 0 then MatchTree.Leaf
    else
      var p := n - 1;
      var t := TreeOf(data, h, p);
      if p + MIN_MATCH <= |data| && HashAt(data, p) == h then
        MatchTree.SplitShrinks(data, t, p, MatchTree.TREE_DEPTH);
        var (s, g) := MatchTree.Split(data, t, p, MatchTree.TREE_DEPTH);
        MatchTree.Node(p, s, g)
      else t
  }

  /** The finder looks NICE_LEN bytes far; a match of that length is followed to its end. */
  ghost function Extended(data: seq<byte>, p: nat, ms: seq<(nat, nat)>): (r: seq<(nat, nat)>)
    requires p <= |data| && MatchFinder.Matches(data, p, ms)
    ensures |r| == |ms|
  {
    var k := |ms| - 1;
    if ms == [] || ms[k].1 != MatchTree.NICE_LEN then ms
    else
      assert MatchFinder.IsMatch(data, p, ms[k].0, ms[k].1);
      ms[k := (ms[k].0, MatchTree.Common(data, p - ms[k].0, p, Room(data, p)))]
  }

  /** What the finder reports at `p` when every earlier position has been inserted. */
  ghost function Found(data: seq<byte>, p: nat): (ms: seq<(nat, nat)>)
    requires p + MIN_MATCH <= |data|
    ensures MatchFinder.Matches(data, p, ms)
  {
    var t := TreeOf(data, HashAt(data, p), p);
    MatchFinder.MetMatches(data, t, p, MatchTree.TREE_DEPTH, MIN_MATCH - 1);
    MatchTree.Met(data, t, p, MatchTree.TREE_DEPTH, MIN_MATCH - 1)
  }

  ghost function MatchesAt(data: seq<byte>, p: nat): seq<(nat, nat)>
    requires p <= |data|
  {
    if p + MIN_MATCH <= |data| then Extended(data, p, Found(data, p)) else []
  }

  /** The length before which match `k` has nothing to offer. */
  function LengthBefore(ms: seq<(nat, nat)>, k: nat): nat
    requires k <= |ms|
  {
    if k == 0 then MIN_MATCH - 1 else ms[k - 1].1
  }

  function EdgesOfMatch(r: Reps, ms: seq<(nat, nat)>, k: nat): seq<Edge>
    requires k < |ms|
  {
    if ms[k].0 !in r && ms[k].1 < MatchTree.NICE_LEN then Lengths(LengthBefore(ms, k) + 1, ms[k].1, ms[k].0) else []
  }

  /** Edges of the first `k` matches; a distance in the queue is left to the repeats. */
  function MatchEdges(r: Reps, ms: seq<(nat, nat)>, k: nat): seq<Edge>
    requires k <= |ms|
  {
    if k == 0 then [] else MatchEdges(r, ms, k - 1) + EdgesOfMatch(r, ms, k - 1)
  }

  function LongestMatch(r: Reps, ms: seq<(nat, nat)>, k: nat, start: Edge): Edge
    requires k <= |ms|
  {
    if k == 0 then start
    else
      var e := LongestMatch(r, ms, k - 1, start);
      if ms[k - 1].0 !in r then Longer(e, ms[k - 1].1, ms[k - 1].0) else e
  }

  /** Each match repeats what it points at; the lengths rise from MIN_MATCH. */
  ghost predicate TrueMatches(data: seq<byte>, p: nat, ms: seq<(nat, nat)>) {
    && (forall k :: 0 <= k < |ms| ==>
      1 <= ms[k].0 <= p && MIN_MATCH <= ms[k].1 <= MAX_MATCH && MatchTree.Same(data, p - ms[k].0, p, ms[k].1))
    && (forall j, k :: 0 <= j < k < |ms| ==> ms[j].1 < ms[k].1)
  }

  lemma FoundTrue(data: seq<byte>, p: nat, ms: seq<(nat, nat)>)
    requires MatchFinder.Matches(data, p, ms)
    ensures TrueMatches(data, p, ms)
  {
    hide MatchTree.Same, MatchTree.Common;
    forall k | 0 <= k < |ms|
      ensures 1 <= ms[k].0 <= p && MIN_MATCH <= ms[k].1 <= MAX_MATCH && MatchTree.Same(data, p - ms[k].0, p, ms[k].1)
    {
      assert MatchFinder.IsMatch(data, p, ms[k].0, ms[k].1);
    }
  }

  /** A run followed to its first difference is at least as long as a run known to agree. */
  lemma LongerRun(data: seq<byte>, p: nat, dist: nat, known: nat, max: nat)
    requires 1 <= dist <= p && p + max <= |data| && known <= max
    requires MatchTree.Same(data, p - dist, p, known)
    ensures known <= MatchTree.Common(data, p - dist, p, max)
  {
    hide MatchTree.Common;
    var len := MatchTree.Common(data, p - dist, p, max);
    if len < known {
      AgreeAt(data, p - dist, p, known, len);
    }
  }

  lemma ExtendedTrue(data: seq<byte>, p: nat, ms: seq<(nat, nat)>)
    requires p <= |data| && MatchFinder.Matches(data, p, ms)
    ensures TrueMatches(data, p, Extended(data, p, ms))
  {
    hide MatchTree.Same, MatchTree.Common;
    FoundTrue(data, p, ms);
    if ms != [] {
      var last := ms[|ms| - 1];
      assert MatchFinder.IsMatch(data, p, last.0, last.1);
      LongerRun(data, p, last.0, last.1, Room(data, p));
    }
  }

  lemma MatchesTrue(data: seq<byte>, p: nat)
    requires p <= |data|
    ensures TrueMatches(data, p, MatchesAt(data, p))
  {
    hide TrueMatches, MatchFinder.Matches, Extended, Found, HashAt;
    if p + MIN_MATCH <= |data| {
      ExtendedTrue(data, p, Found(data, p));
    } else {
      NoneTrue(data, p);
    }
  }

  lemma NoneTrue(data: seq<byte>, p: nat)
    ensures TrueMatches(data, p, [])
  {
  }

  lemma OneMatch(data: seq<byte>, p: nat, r: Reps, ms: seq<(nat, nat)>, k: nat)
    requires TrueMatches(data, p, ms) && k < |ms| && p < |data| <= U32_MAX
    ensures Sound(data, p, r, Edge(ms[k].1, ms[k].0)) && ms[k].1 >= 3
    ensures AllSound(data, p, r, EdgesOfMatch(r, ms, k))
    ensures LengthBefore(ms, k) >= 2
  {
    hide MatchTree.Same, AllSound, Lengths;
    SameFits(data, p, ms[k].0, ms[k].1);
    SoundNone(data, p, r);
    LengthsSound(data, p, r, LengthBefore(ms, k) + 1, ms[k].1, ms[k].0);
  }

  lemma SameFits(data: seq<byte>, p: nat, dist: nat, len: nat)
    requires dist <= p && MatchTree.Same(data, p - dist, p, len)
    ensures p + len <= |data|
  {
  }

  lemma {:induction false} MatchesSound(data: seq<byte>, p: nat, r: Reps, ms: seq<(nat, nat)>, k: nat, start: Edge)
    requires TrueMatches(data, p, ms) && k <= |ms| && p < |data| <= U32_MAX
    requires start.len > 0 ==> start.len >= 2 && start.dist >= 1 && Sound(data, p, r, start)
    ensures AllSound(data, p, r, MatchEdges(r, ms, k))
    ensures var e := LongestMatch(r, ms, k, start); e.len > 0 ==> e.len >= 2 && e.dist >= 1 && Sound(data, p, r, e)
  {
    hide AllSound, Sound, EdgesOfMatch, TrueMatches;
    SoundNone(data, p, r);
    if k > 0 {
      MatchesSound(data, p, r, ms, k - 1, start);
      OneMatch(data, p, r, ms, k - 1);
      MatchNear(data, p, ms, k - 1);
      SoundBoth(data, p, r, MatchEdges(r, ms, k - 1), EdgesOfMatch(r, ms, k - 1));
    }
  }

  lemma MatchNear(data: seq<byte>, p: nat, ms: seq<(nat, nat)>, k: nat)
    requires TrueMatches(data, p, ms) && k < |ms|
    ensures 1 <= ms[k].0 <= p && MIN_MATCH <= ms[k].1 <= MAX_MATCH
  {
  }

  // ------------------------------------------------------------ all edges

  /** The longest repeat or match at `p`; a repeat on a tie. */
  ghost function LongestAt(data: seq<byte>, p: nat, r: Reps): Edge
    requires p <= |data|
  {
    var ms := MatchesAt(data, p);
    LongestMatch(r, ms, |ms|, LongestRep(data, p, r, 4))
  }

  /** Long enough to be taken without looking further. */
  predicate Commits(e: Edge) {
    e.len >= MatchTree.NICE_LEN
  }

  /** All edges out of `p` under queue `r`, in the order they are tried. */
  ghost function OffersAt(data: seq<byte>, p: nat, r: Reps): seq<Edge>
    requires p <= |data|
  {
    var ms := MatchesAt(data, p);
    [LITERAL_EDGE] + RepEdges(data, p, r, 4) + MatchEdges(r, ms, |ms|)
    + if Commits(LongestAt(data, p, r)) then [LongestAt(data, p, r)] else []
  }

  /** The next position to expand. */
  ghost function NextAt(data: seq<byte>, p: nat, r: Reps): (next: nat)
    requires p <= |data|
    ensures next > p
  {
    var e := LongestAt(data, p, r);
    if Commits(e) then p + e.len else p + 1
  }

  lemma OffersSound(data: seq<byte>, p: nat, r: Reps)
    requires p < |data| <= U32_MAX && AllDifferent(r)
    ensures AllSound(data, p, r, OffersAt(data, p, r)) && NextAt(data, p, r) <= |data|
    ensures LITERAL_EDGE in OffersAt(data, p, r)
    ensures var e := LongestAt(data, p, r); Commits(e) ==> e in OffersAt(data, p, r) && e.dist >= 1 && Sound(data, p, r, e)
  {
    hide AllSound, RepEdges, MatchEdges, TrueMatches, MatchesAt, LongestRep, LongestMatch, MatchTree.Same, AllDifferent;
    var ms, e := MatchesAt(data, p), LongestAt(data, p, r);
    MatchesTrue(data, p);
    RepsSound(data, p, r, 4);
    MatchesSound(data, p, r, ms, |ms|, LongestRep(data, p, r, 4));
    OneSound(data, p, r, LITERAL_EDGE);
    var a, b, c := [LITERAL_EDGE], RepEdges(data, p, r, 4), MatchEdges(r, ms, |ms|);
    var d: seq<Edge> := if Commits(e) then [e] else [];
    if Commits(e) {
      OneSound(data, p, r, e);
    } else {
      SoundNone(data, p, r);
    }
    SoundBoth(data, p, r, a, b);
    SoundBoth(data, p, r, a + b, c);
    SoundBoth(data, p, r, a + b + c, d);
  }

  // ------------------------------------------------------------ nothing useful is left out

  lemma {:induction false} RepEdgesIn(data: seq<byte>, p: nat, r: Reps, k: nat, idx: nat, e: Edge)
    requires p <= |data| && idx < k <= 4 && e in EdgesOfRep(data, p, r, idx)
    ensures e in RepEdges(data, p, r, k)
  {
    hide EdgesOfRep;
    if idx < k - 1 {
      RepEdgesIn(data, p, r, k - 1, idx, e);
    }
  }

  /** A recent distance that repeats is offered at every length it repeats for, the most
      recent one for a single byte too. */
  lemma RepeatsOffered(data: seq<byte>, p: nat, r: Reps, idx: nat, len: nat)
    requires p <= |data| && idx < 4 && RepLen(data, p, r[idx]) < MatchTree.NICE_LEN
    requires (if idx == 0 then 1 else 2) <= len <= RepLen(data, p, r[idx])
    ensures Edge(len, r[idx]) in OffersAt(data, p, r)
  {
    hide RepEdges, MatchEdges, MatchesAt, RepLen, Lengths, LongestAt;
    LengthsAre(2, RepLen(data, p, r[idx]), r[idx], Edge(len, r[idx]));
    assert Edge(len, r[idx]) in EdgesOfRep(data, p, r, idx);
    RepEdgesIn(data, p, r, 4, idx, Edge(len, r[idx]));
  }

  lemma {:induction false} LongestRepIs(data: seq<byte>, p: nat, r: Reps, k: nat, idx: nat)
    requires p <= |data| && idx < k <= 4
    ensures RepLen(data, p, r[idx]) >= 2 ==> RepLen(data, p, r[idx]) <= LongestRep(data, p, r, k).len
  {
    hide RepLen;
    if idx < k - 1 {
      LongestRepIs(data, p, r, k - 1, idx);
    }
  }

  lemma {:induction false} LongestMatchIs(r: Reps, ms: seq<(nat, nat)>, k: nat, start: Edge, j: nat)
    requires k <= |ms|
    ensures start.len <= LongestMatch(r, ms, k, start).len
    ensures j < k && ms[j].0 !in r ==> ms[j].1 <= LongestMatch(r, ms, k, start).len
  {
    if k > 0 {
      LongestMatchIs(r, ms, k - 1, start, j);
    }
  }

  /** A match at a recent distance is no longer than the repeat of that distance. */
  lemma RepeatsReach(data: seq<byte>, p: nat, dist: nat, len: nat)
    requires 1 <= dist <= p <= |data| && len <= MAX_MATCH && MatchTree.Same(data, p - dist, p, len)
    ensures len <= RepLen(data, p, dist)
  {
    LongerRun(data, p, dist, len, Room(data, p));
  }

  /** Nothing that repeats at `p` is longer than the longest edge. */
  lemma LongestIsLongest(data: seq<byte>, p: nat, r: Reps, idx: nat, k: nat)
    requires p < |data| <= U32_MAX
    ensures idx < 4 && RepLen(data, p, r[idx]) >= 2 ==> RepLen(data, p, r[idx]) <= LongestAt(data, p, r).len
    ensures k < |MatchesAt(data, p)| ==> MatchesAt(data, p)[k].1 <= LongestAt(data, p, r).len
  {
    hide RepLen, MatchesAt, LongestRep, LongestMatch, MatchTree.Same;
    var ms, start := MatchesAt(data, p), LongestRep(data, p, r, 4);
    LongestMatchIs(r, ms, |ms|, start, k);
    if idx < 4 {
      LongestRepIs(data, p, r, 4, idx);
    }
    if k < |ms| && ms[k].0 in r {
      MatchesTrue(data, p);
      var i := RepIndex(r, ms[k].0);
      RepeatsReach(data, p, ms[k].0, ms[k].1);
      LongestRepIs(data, p, r, 4, i);
    }
  }

  lemma {:induction false} MatchEdgesIn(r: Reps, ms: seq<(nat, nat)>, k: nat, j: nat, e: Edge)
    requires j < k <= |ms| && e in EdgesOfMatch(r, ms, j)
    ensures e in MatchEdges(r, ms, k)
  {
    hide EdgesOfMatch;
    if j < k - 1 {
      MatchEdgesIn(r, ms, k - 1, j, e);
    }
  }

  /** The first match that reaches length `len` offers it. */
  lemma {:induction false} FirstReaching(ms: seq<(nat, nat)>, k: nat, len: nat) returns (j: nat)
    requires k < |ms| && MIN_MATCH <= len <= ms[k].1
    ensures j <= k && LengthBefore(ms, j) < len <= ms[j].1
    decreases k
  {
    if k > 0 && ms[k - 1].1 >= len {
      j := FirstReaching(ms, k - 1, len);
    } else {
      j := k;
    }
  }

  /** Unless a long match is committed to, every length up to that of a match found is
      offered at a distance no greater. */
  lemma MatchOffered(data: seq<byte>, p: nat, r: Reps, k: nat, len: nat)
    requires p < |data| <= U32_MAX && k < |MatchesAt(data, p)| && MIN_MATCH <= len <= MatchesAt(data, p)[k].1
    requires !Commits(LongestAt(data, p, r)) && Rising(MatchesAt(data, p))
    ensures exists e :: e in OffersAt(data, p, r) && e.len == len && 1 <= e.dist <= MatchesAt(data, p)[k].0
  {
    hide RepLen, MatchesAt, RepEdges, MatchEdges, LongestAt, Lengths, MatchTree.Same;
    var ms := MatchesAt(data, p);
    var j := FirstReaching(ms, k, len);
    MatchesTrue(data, p);
    var e := Edge(len, ms[j].0);
    assert 1 <= e.dist <= ms[k].0;
    LongestIsLongest(data, p, r, RepIndex(r, ms[j].0), j);
    if ms[j].0 in r {
      RepeatsReach(data, p, ms[j].0, ms[j].1);
      RepeatsOffered(data, p, r, RepIndex(r, ms[j].0), len);
    } else {
      LengthsAre(LengthBefore(ms, j) + 1, ms[j].1, ms[j].0, e);
      assert e in EdgesOfMatch(r, ms, j);
      MatchEdgesIn(r, ms, |ms|, j, e);
    }
  }

  /** Each match is farther than the one before. */
  ghost predicate Rising(ms: seq<(nat, nat)>) {
    forall j, k :: 0 <= j < k < |ms| ==> ms[j].0 <= ms[k].0
  }

  /** The walk goes from newer to older positions. */
  lemma {:induction false} MetRising(data: seq<byte>, t: MatchTree.Tree, p: nat, depth: nat, best: nat)
    requires p <= |data| && MatchTree.AllBelow(t, p) && MatchTree.Ordered(data, t)
    ensures var ms := MatchTree.Met(data, t, p, depth, best);
      Rising(ms) && (t.Node? ==> Beyond(ms, p - t.pos))
    decreases t
  {
    hide *;
    MatchTree.MetCut(data, t, p, depth, best);
    NothingRises();
    if t.Node? && depth > 0 && p - t.pos <= MAX_WINDOW {
      MatchTree.ChildrenBelow(t, p);
      MatchTree.OrderedParts(data, t);
      var len := MatchTree.CommonWith(data, t.pos, p);
      MatchTree.MetAt(data, t, p, depth, best, len);
      var own: seq<(nat, nat)> := if len > best then [(p - t.pos, len)] else [];
      if len < MatchTree.Limit(data, p) {
        var onward := MatchTree.Onward(data, t, p, len);
        MatchTree.OnwardSide(data, t, p, len);
        var more := if len > best then len else best;
        MetRising(data, onward, p, depth - 1, more);
        MatchTree.MetCut(data, onward, p, depth - 1, more);
        OnwardOlder(data, t, onward);
        RisesOn(own, MatchTree.Met(data, onward, p, depth - 1, more), p - t.pos, if onward.Node? then p - onward.pos else 0);
      } else {
        RisesOn(own, [], p - t.pos, p - t.pos);
        assert own + [] == own;
      }
    }
  }

  ghost predicate Beyond(ms: seq<(nat, nat)>, dist: int) {
    forall k :: 0 <= k < |ms| ==> dist <= ms[k].0
  }

  lemma NothingRises()
    ensures Rising([]) && forall dist :: Beyond([], dist)
  {
  }

  lemma RisesOn(own: seq<(nat, nat)>, ms: seq<(nat, nat)>, dist: int, next: int)
    requires |own| <= 1 && (own != [] ==> own[0].0 == dist)
    requires Rising(ms) && (ms != [] ==> dist <= next && Beyond(ms, next))
    ensures Rising(own + ms) && Beyond(own + ms, dist)
  {
  }

  lemma OnwardOlder(data: seq<byte>, t: MatchTree.Tree, onward: MatchTree.Tree)
    requires t.Node? && MatchTree.Ordered(data, t) && (onward == t.smaller || onward == t.greater)
    ensures onward.Node? ==> onward.pos <= t.pos
  {
    if onward.Node? {
      assert onward.pos in MatchTree.Nodes(onward);
      MatchTree.NodeOlder(data, t, onward.pos);
    }
  }

  // ------------------------------------------------------------ no near match is missed

  lemma {:induction false} TreeOrdered(data: seq<byte>, h: nat, n: nat)
    requires n <= |data|
    ensures MatchTree.Ordered(data, TreeOf(data, h, n))
  {
    hide MatchTree.Split, HashAt;
    if n > 0 {
      TreeOrdered(data, h, n - 1);
      var t := TreeOf(data, h, n - 1);
      MatchTree.SplitOrdered(data, t, n - 1, MatchTree.TREE_DEPTH);
      MatchTree.SplitShrinks(data, t, n - 1, MatchTree.TREE_DEPTH);
    }
  }

  /** Neither depth nor window cut the walk at any position before `n` with hash `h`. */
  ghost predicate WalksUncut(data: seq<byte>, h: nat, n: nat)
    requires n <= |data|
  {
    forall p: nat :: p < n && p + MIN_MATCH <= |data| && HashAt(data, p) == h ==>
      MatchTree.Uncut(data, TreeOf(data, h, p), p, MatchTree.TREE_DEPTH)
  }

  lemma {:induction false} TreeRepresents(data: seq<byte>, h: nat, n: nat, q: nat)
    requires q < n <= |data| && q + MIN_MATCH <= |data| && HashAt(data, q) == h && WalksUncut(data, h, n)
    ensures MatchTree.Represented(data, TreeOf(data, h, n), q)
    decreases n
  {
    hide MatchTree.Split, HashAt, MatchTree.Uncut, MatchTree.Represented;
    var p := n - 1;
    if q == p {
      MatchTree.TopRepresented(data, TreeOf(data, h, n));
    } else {
      TreeRepresents(data, h, p, q);
      if p + MIN_MATCH <= |data| && HashAt(data, p) == h {
        MatchTree.StaysRepresented(data, TreeOf(data, h, p), p, q);
      }
    }
  }

  /** While no walk is cut and no long match is committed to, a position that agrees with an
      earlier one on `len` bytes has an edge of exactly that length, at a distance no greater. */
  lemma EveryLengthOffered(data: seq<byte>, p: nat, q: nat, r: Reps, len: nat)
    requires q < p < |data| <= U32_MAX && p + MIN_MATCH <= |data| && q + MatchTree.Limit(data, p) <= |data|
    requires WalksUncut(data, HashAt(data, p), p + 1)
    requires MIN_MATCH <= len <= MatchTree.Common(data, q, p, MatchTree.Limit(data, p))
    requires !Commits(LongestAt(data, p, r))
    ensures exists e :: e in OffersAt(data, p, r) && e.len == len && 1 <= e.dist <= p - q
  {
    hide MatchTree.Limit, MatchTree.Common, MatchTree.Same, MatchTree.Met, MatchTree.Uncut, MatchTree.Ordered, HashAt,
      OffersAt, LongestAt, MatchTree.Represented, TreeOf;
    var h, run := HashAt(data, p), MatchTree.Common(data, q, p, MatchTree.Limit(data, p));
    MatchFinder.AlikeHash(data, q, p, run);
    var t := TreeOf(data, h, p);
    TreeOrdered(data, h, p);
    TreeRepresents(data, h, p, q);
    MatchTree.RepresentedMet(data, t, p, q);
    var found := Found(data, p);
    MetRising(data, t, p, MatchTree.TREE_DEPTH, MIN_MATCH - 1);
    var k :| 0 <= k < |found| && found[k].0 <= p - q && found[k].1 >= run;
    ExtendedFarther(data, p, found, k);
    MatchOffered(data, p, r, k, len);
  }

  lemma ExtendedFarther(data: seq<byte>, p: nat, ms: seq<(nat, nat)>, k: nat)
    requires p <= |data| && MatchFinder.Matches(data, p, ms) && k < |ms| && Rising(ms)
    ensures var r := Extended(data, p, ms); Rising(r) && r[k].0 == ms[k].0 && r[k].1 >= ms[k].1
  {
    hide MatchTree.Common, MatchTree.Same;
    var last := |ms| - 1;
    assert MatchFinder.IsMatch(data, p, ms[last].0, ms[last].1);
    LongerRun(data, p, ms[last].0, ms[last].1, Room(data, p));
  }
}
