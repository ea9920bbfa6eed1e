/** The hash chain of the match finders: what its two arrays hold, which earlier positions
    a walk along it reports, and that it misses no near match. */
module HashChains {
  import opened Bytes
  import opened Suffixes
  import opened Tokens
  import opened Sequences

  const MAX_CHAIN: nat := 256
  const NO_POS: nat := 0xFFFF_FFFF

  // ------------------------------------------------------------ matches

  ghost predicate Repeats(data: seq<byte>, p: nat, offset: nat, len: nat) {
    1 <= offset <= p && p + len <= |data| && Agree(data, p - offset, p, len)
  }

  /** A match the encoder may emit at `p`. */
  ghost predicate Usable(data: seq<byte>, p: nat, offset: nat, len: nat) {
    Repeats(data, p, offset, len) && MIN_MATCH <= len <= MAX_MATCH && offset <= MAX_WINDOW
  }

  lemma RunUsable(data: seq<byte>, p: nat, offset: nat, len: nat)
    requires 1 <= offset <= p && offset <= MAX_WINDOW && MIN_MATCH <= len <= MAX_MATCH && p + len <= |data|
    requires Agree(data, p - offset, p, len)
    ensures Usable(data, p, offset, len)
  {
  }

  /** How many bytes, at most `max`, agree from `a` and from `b` on. */
  function CommonRun(data: seq<byte>, a: nat, b: nat, max: nat): (len: nat)
    requires a <= b && b + max <= |data|
    ensures len <= max
    decreases max
  {
    if max == 0 || data[a] != data[b] then 0 else 1 + CommonRun(data, a + 1, b + 1, max - 1)
  }

  lemma {:induction false} CommonRunAgrees(data: seq<byte>, a: nat, b: nat, max: nat)
    requires a <= b && b + max <= |data|
    ensures var len := CommonRun(data, a, b, max);
      Agree(data, a, b, len) && (len < max ==> data[a + len] != data[b + len])
    decreases max
  {
    if max > 0 && data[a] == data[b] {
      CommonRunAgrees(data, a + 1, b + 1, max - 1);
    }
  }

  method RunLength(data: seq<byte>, a: nat, b: nat, max: nat) returns (len: nat)
    requires a <= b && b + max <= |data|
    ensures len == CommonRun(data, a, b, max)
  {
    len := 0;
    while len < max && data[a + len] == data[b + len]
      invariant 0 <= len <= max
      invariant CommonRun(data, a, b, max) == len + CommonRun(data, a + len, b + len, max - len)
    {
      len := len + 1;
    }
  }

  function MaxLen(data: seq<byte>, pos: nat): (m: nat)
    requires pos <= |data|
    ensures pos + m <= |data| && m <= MAX_MATCH
  {
    if MAX_MATCH < |data| - pos then MAX_MATCH else |data| - pos
  }

  // ------------------------------------------------------------ the chain's contents

  /** For each hash the newest position; for each slot of the window the position that had
      the same hash before the one stored there. */
  datatype Chain = Chain(head: seq<nat>, prev: seq<nat>)

  predicate Shaped(c: Chain) {
    |c.head| == HASH_SIZE && |c.prev| == MAX_WINDOW
  }

  function EmptyChain(): (c: Chain)
    ensures Shaped(c)
  {
    Chain(seq(HASH_SIZE, k => NO_POS), seq(MAX_WINDOW, k => NO_POS))
  }

  function Linked(c: Chain, h: nat, pos: nat): (d: Chain)
    requires Shaped(c) && h < HASH_SIZE
    ensures Shaped(d)
  {
    Chain(c.head[h := pos], c.prev[pos % MAX_WINDOW := c.head[h]])
  }

  /** The chain after position `p`, where three bytes are left, stored in 32 bits. */
  function LinkedAt(c: Chain, data: seq<byte>, p: nat): (d: Chain)
    requires Shaped(c)
    ensures Shaped(d)
  {
    if p + MIN_MATCH <= |data| then Linked(c, HashAt(data, p), p % WORD) else c
  }

  /** The chain after all positions from `first` up to `end`. */
  function LinkedRange(c: Chain, data: seq<byte>, first: nat, end: nat): (d: Chain)
    requires Shaped(c) && first <= end
    ensures Shaped(d)
    decreases end
  {
    if first == end then c else LinkedAt(LinkedRange(c, data, first, end - 1), data, end - 1)
  }

  // ------------------------------------------------------------ what a walk reports

  /** A match found after `steps` links. */
  datatype Hit = Hit(offset: nat, length: nat, steps: nat)

  /** The walk from `candidate` on: every match longer than `best` and than those before it. */
  function Walk(c: Chain, data: seq<byte>, pos: nat, candidate: nat, best: nat, steps: nat): (hits: seq<Hit>)
    requires Shaped(c) && pos <= |data| && MIN_MATCH - 1 <= best && steps <= MAX_CHAIN
    decreases MAX_CHAIN - steps
  {
    if candidate == NO_POS || steps == MAX_CHAIN then []
    else
      var next := c.prev[candidate % MAX_WINDOW];
      if candidate >= pos then Walk(c, data, pos, next, best, steps + 1)
      else if pos - candidate > MAX_WINDOW then []
      else
        var len := CommonRun(data, candidate, pos, MaxLen(data, pos));
        if len <= best then Walk(c, data, pos, next, best, steps + 1)
        else if len == MaxLen(data, pos) then [Hit(pos - candidate, len, steps)]
        else [Hit(pos - candidate, len, steps)] + Walk(c, data, pos, next, len, steps + 1)
  }

  /** All matches the chain offers at `pos`. */
  function Hits(c: Chain, data: seq<byte>, pos: nat): (hits: seq<Hit>)
    requires Shaped(c) && pos <= |data|
  {
    if pos + MIN_MATCH > |data| then [] else Walk(c, data, pos, c.head[HashAt(data, pos)], MIN_MATCH - 1, 0)
  }

  /** True matches, each as long as the bytes agree and longer than the one before. */
  ghost predicate Records(hits: seq<Hit>, data: seq<byte>, pos: nat, best: nat)
    requires pos <= |data|
  {
    && (forall k :: 0 <= k < |hits| ==>
          && Usable(data, pos, hits[k].offset, hits[k].length)
          && hits[k].length == CommonRun(data, pos - hits[k].offset, pos, MaxLen(data, pos))
          && hits[k].length > best)
    && (forall k, l :: 0 <= k < l < |hits| ==> hits[k].length < hits[l].length)
  }

  /** For any contents of the chain, self-referential ones included. */
  lemma {:induction false} WalkRecords(c: Chain, data: seq<byte>, pos: nat, candidate: nat, best: nat, steps: nat)
    requires Shaped(c) && pos <= |data| && MIN_MATCH - 1 <= best && steps <= MAX_CHAIN
    ensures Records(Walk(c, data, pos, candidate, best, steps), data, pos, best)
    decreases MAX_CHAIN - steps
  {
    hide CommonRun, Agree, Usable, Records;
    RecordsNone(data, pos, best);
    if candidate != NO_POS && steps < MAX_CHAIN {
      var next := c.prev[candidate % MAX_WINDOW];
      if candidate >= pos {
        WalkRecords(c, data, pos, next, best, steps + 1);
      } else if pos - candidate <= MAX_WINDOW {
        var len := CommonRun(data, candidate, pos, MaxLen(data, pos));
        if len > best {
          CommonRunAgrees(data, candidate, pos, MaxLen(data, pos));
          RunUsable(data, pos, pos - candidate, len);
          WalkRecords(c, data, pos, next, len, steps + 1);
          RecordsNone(data, pos, len);
          RecordsFirst(Hit(pos - candidate, len, steps), [], data, pos, best);
          assert [Hit(pos - candidate, len, steps)] + [] == [Hit(pos - candidate, len, steps)];
          RecordsFirst(Hit(pos - candidate, len, steps), Walk(c, data, pos, next, len, steps + 1), data, pos, best);
        } else {
          WalkRecords(c, data, pos, next, best, steps + 1);
        }
      }
    }
  }

  lemma RecordsNone(data: seq<byte>, pos: nat, best: nat)
    requires pos <= |data|
    ensures Records([], data, pos, best)
  {
  }

  lemma RecordsFirst(hit: Hit, hits: seq<Hit>, data: seq<byte>, pos: nat, best: nat)
    requires pos <= |data| && Usable(data, pos, hit.offset, hit.length) && hit.length > best
    requires hit.length == CommonRun(data, pos - hit.offset, pos, MaxLen(data, pos))
    requires Records(hits, data, pos, hit.length)
    ensures Records([hit] + hits, data, pos, best)
  {
    hide CommonRun, Agree;
    var all := [hit] + hits;
    forall k | 0 <= k < |all|
      ensures Usable(data, pos, all[k].offset, all[k].length) && all[k].length > best
        && all[k].length == CommonRun(data, pos - all[k].offset, pos, MaxLen(data, pos))
    {
      if k > 0 {
        assert all[k] == hits[k - 1];
      }
    }
  }

  lemma HitsAreRecords(c: Chain, data: seq<byte>, pos: nat)
    requires Shaped(c) && pos <= |data|
    ensures Records(Hits(c, data, pos), data, pos, MIN_MATCH - 1)
  {
    if pos + MIN_MATCH <= |data| {
      WalkRecords(c, data, pos, c.head[HashAt(data, pos)], MIN_MATCH - 1, 0);
    }
  }

  /** The longest match the chain offers. */
  function BestHit(c: Chain, data: seq<byte>, pos: nat): Option<Hit>
    requires Shaped(c) && pos <= |data|
  {
    var hits := Hits(c, data, pos);
    if hits == [] then None else Some(hits[|hits| - 1])
  }

  lemma BestUsable(c: Chain, data: seq<byte>, pos: nat)
    requires Shaped(c) && pos <= |data|
    ensures var hit := BestHit(c, data, pos);
      hit.Some? ==> pos + MIN_MATCH <= |data| && Usable(data, pos, hit.value.offset, hit.value.length)
  {
    HitsAreRecords(c, data, pos);
    hide Walk, Usable, CommonRun;
  }

  // ------------------------------------------------------------ no near match is missed

  ghost predicate Hashed(data: seq<byte>, p: nat, h: nat) {
    p + MIN_MATCH <= |data| && HashAt(data, p) == h
  }

  /** The newest position before `n` with hash `h`. */
  ghost function Newest(data: seq<byte>, h: nat, n: nat): nat {
    if n == 0 then NO_POS else if Hashed(data, n - 1, h) then n - 1 else Newest(data, h, n - 1)
  }

  /** How many positions from `p` up to `n` have hash `h`. */
  ghost function Rank(data: seq<byte>, h: nat, p: nat, n: nat): nat {
    if n <= p then 0 else Rank(data, h, p, n - 1) + if Hashed(data, n - 1, h) then 1 else 0
  }

  /** The chain lists every position before `n`, newest first, as far as the window holds them. */
  ghost predicate Lists(c: Chain, data: seq<byte>, n: nat) {
    && Shaped(c)
    && (forall h :: 0 <= h < HASH_SIZE ==> c.head[h] == Newest(data, h, n))
    && (forall p :: 0 <= p < n <= p + MAX_WINDOW && p + MIN_MATCH <= |data| ==>
          c.prev[p % MAX_WINDOW] == Newest(data, HashAt(data, p), p))
  }

  lemma ListsNothing(data: seq<byte>)
    ensures Lists(EmptyChain(), data, 0)
  {
  }

  lemma SlotsApart(p: nat, n: nat)
    requires p < n < p + MAX_WINDOW
    ensures p % MAX_WINDOW != n % MAX_WINDOW
  {
  }

  lemma ListsNext(c: Chain, data: seq<byte>, n: nat)
    requires Lists(c, data, n) && n < |data| <= WORD
    ensures Lists(LinkedAt(c, data, n), data, n + 1)
  {
    hide HashAt;
    var d, next := LinkedAt(c, data, n), n + 1;
    forall h | 0 <= h < HASH_SIZE ensures d.head[h] == Newest(data, h, next) {
      hide Lists;
      HeadNext(c, data, n, h);
    }
    forall p | 0 <= p < next <= p + MAX_WINDOW && p + MIN_MATCH <= |data|
      ensures d.prev[p % MAX_WINDOW] == Newest(data, HashAt(data, p), p)
    {
      hide Lists;
      PrevNext(c, data, n, p);
    }
    hide Newest, LinkedAt;
  }

  lemma HeadNext(c: Chain, data: seq<byte>, n: nat, h: nat)
    requires Lists(c, data, n) && n < |data| <= WORD && h < HASH_SIZE
    ensures LinkedAt(c, data, n).head[h] == Newest(data, h, n + 1)
  {
    hide HashAt;
    assert c.head[h] == Newest(data, h, n);
  }

  lemma PrevNext(c: Chain, data: seq<byte>, n: nat, p: nat)
    requires Lists(c, data, n) && n < |data| <= WORD && p <= n < p + MAX_WINDOW && p + MIN_MATCH <= |data|
    ensures LinkedAt(c, data, n).prev[p % MAX_WINDOW] == Newest(data, HashAt(data, p), p)
  {
    hide HashAt, Newest;
    if p < n {
      SlotsApart(p, n);
      assert c.prev[p % MAX_WINDOW] == Newest(data, HashAt(data, p), p);
    } else {
      assert c.head[HashAt(data, p)] == Newest(data, HashAt(data, p), p);
    }
  }

  lemma {:induction false} NewestIs(data: seq<byte>, h: nat, p: nat, n: nat)
    requires p < n && Hashed(data, p, h)
    ensures var q := Newest(data, h, n);
      p <= q < n && Hashed(data, q, h) && Rank(data, h, p, n) == Rank(data, h, p, q) + 1
    decreases n
  {
    hide Hashed;
    if !Hashed(data, n - 1, h) {
      NewestIs(data, h, p, n - 1);
    }
  }

  ghost predicate Covered(hits: seq<Hit>, offset: nat, length: nat) {
    exists k :: 0 <= k < |hits| && hits[k].offset <= offset && hits[k].length >= length
  }

  /** Like a list, but a position inserted twice is linked to itself. */
  ghost predicate Links(c: Chain, data: seq<byte>, n: nat) {
    && Shaped(c)
    && (forall h :: 0 <= h < HASH_SIZE ==> c.head[h] == Newest(data, h, n))
    && (forall p :: 0 <= p < n <= p + MAX_WINDOW && p + MIN_MATCH <= |data| ==>
          c.prev[p % MAX_WINDOW] == Newest(data, HashAt(data, p), p) || c.prev[p % MAX_WINDOW] == p)
  }

  /** No position of hash `h` between `p` and `n` is linked to itself. */
  ghost predicate Straight(c: Chain, data: seq<byte>, h: nat, p: nat, n: nat)
    requires Shaped(c)
  {
    forall q :: p < q < n && Hashed(data, q, h) ==> c.prev[q % MAX_WINDOW] != q
  }

  lemma LinksShaped(c: Chain, data: seq<byte>, n: nat)
    requires Links(c, data, n)
    ensures Shaped(c)
  {
  }

  lemma ListsAreLinks(c: Chain, data: seq<byte>, n: nat, h: nat, p: nat)
    requires Lists(c, data, n) && |data| <= NO_POS && n <= p + 1 + MAX_WINDOW
    ensures Shaped(c) && Links(c, data, n) && Straight(c, data, h, p, n)
  {
    hide HashAt, Newest;
    forall q | p < q < n && Hashed(data, q, h) ensures c.prev[q % MAX_WINDOW] != q {
      NewestEarlier(data, h, q);
    }
  }

  lemma {:induction false} NewestEarlier(data: seq<byte>, h: nat, n: nat)
    ensures Newest(data, h, n) < n || Newest(data, h, n) == NO_POS
  {
    if n > 0 {
      NewestEarlier(data, h, n - 1);
    }
  }

  lemma LinkedBefore(c: Chain, data: seq<byte>, n: nat, h: nat, p: nat, q: nat)
    requires Links(c, data, n) && Straight(c, data, h, p, n) && p < q < n <= q + MAX_WINDOW && Hashed(data, q, h)
    ensures |c.prev| == MAX_WINDOW && c.prev[q % MAX_WINDOW] == Newest(data, h, q)
  {
    hide HashAt, Newest;
  }

  /** From the newest position before `m` on, the walk reaches `p` or something as good. */
  lemma {:induction false} WalkReaches(c: Chain, data: seq<byte>, pos: nat, n: nat, h: nat, m: nat, best: nat, steps: nat, p: nat, run: nat)
    requires Shaped(c) && Links(c, data, n) && Straight(c, data, h, p, n)
    requires p < pos <= n <= pos + 1 && pos <= |data| <= NO_POS && p < m <= n && pos - p <= MAX_WINDOW
    requires Hashed(data, p, h) && Rank(data, h, p, m) + steps <= MAX_CHAIN
    requires MIN_MATCH - 1 <= best < run == CommonRun(data, p, pos, MaxLen(data, pos))
    ensures Covered(Walk(c, data, pos, Newest(data, h, m), best, steps), pos - p, run)
    decreases m
  {
    hide *;
    NewestIs(data, h, p, m);
    var q := Newest(data, h, m);
    HashedInside(data, q, h);
    if q > p {
      LinkedBefore(c, data, n, h, p, q);
    }
    if q >= pos {
      WalkPast(c, data, pos, q, best, steps);
      WalkReaches(c, data, pos, n, h, q, best, steps + 1, p, run);
    } else {
      var len := CommonRun(data, q, pos, MaxLen(data, pos));
      if len >= run {
        WalkFirst(c, data, pos, q, best, steps, pos - p, run);
      } else if len <= best {
        WalkPast(c, data, pos, q, best, steps);
        WalkReaches(c, data, pos, n, h, q, best, steps + 1, p, run);
      } else {
        WalkReaches(c, data, pos, n, h, q, len, steps + 1, p, run);
        WalkMore(c, data, pos, q, best, steps, len, pos - p, run);
      }
    }
  }

  lemma HashedInside(data: seq<byte>, p: nat, h: nat)
    requires Hashed(data, p, h)
    ensures p < |data| && |data| >= MIN_MATCH
  {
  }

  /** One link that reports nothing. */
  lemma WalkPast(c: Chain, data: seq<byte>, pos: nat, q: nat, best: nat, steps: nat)
    requires Shaped(c) && pos <= |data| && MIN_MATCH - 1 <= best && steps < MAX_CHAIN && q != NO_POS
    requires q < pos ==> pos - q <= MAX_WINDOW && CommonRun(data, q, pos, MaxLen(data, pos)) <= best
    ensures |c.prev| == MAX_WINDOW
    ensures Walk(c, data, pos, q, best, steps) == Walk(c, data, pos, c.prev[q % MAX_WINDOW], best, steps + 1)
  {
    hide CommonRun;
  }

  lemma WalkFirst(c: Chain, data: seq<byte>, pos: nat, q: nat, best: nat, steps: nat, offset: nat, run: nat)
    requires Shaped(c) && q < pos <= |data| && MIN_MATCH - 1 <= best < run && steps < MAX_CHAIN && q != NO_POS
    requires pos - q <= MAX_WINDOW && pos - q <= offset && CommonRun(data, q, pos, MaxLen(data, pos)) >= run
    ensures Covered(Walk(c, data, pos, q, best, steps), offset, run)
  {
    hide CommonRun;
    assert Walk(c, data, pos, q, best, steps)[0] == Hit(pos - q, CommonRun(data, q, pos, MaxLen(data, pos)), steps);
  }

  lemma WalkMore(c: Chain, data: seq<byte>, pos: nat, q: nat, best: nat, steps: nat, len: nat, offset: nat, run: nat)
    requires Shaped(c) && q < pos <= |data| && MIN_MATCH - 1 <= best && steps < MAX_CHAIN && q != NO_POS
    requires pos - q <= MAX_WINDOW && best < len < run <= MaxLen(data, pos)
    requires len == CommonRun(data, q, pos, MaxLen(data, pos)) && |c.prev| == MAX_WINDOW
    requires Covered(Walk(c, data, pos, c.prev[q % MAX_WINDOW], len, steps + 1), offset, run)
    ensures Covered(Walk(c, data, pos, q, best, steps), offset, run)
  {
    hide CommonRun, Covered;
    CoveredAfter(Hit(pos - q, len, steps), Walk(c, data, pos, c.prev[q % MAX_WINDOW], len, steps + 1), offset, run);
  }

  lemma CoveredAfter(hit: Hit, hits: seq<Hit>, offset: nat, length: nat)
    requires Covered(hits, offset, length)
    ensures Covered([hit] + hits, offset, length)
  {
    var k :| 0 <= k < |hits| && hits[k].offset <= offset && hits[k].length >= length;
    var next := k + 1;
    assert ([hit] + hits)[next] == hits[k];
  }

  /** A chain that lists every position offers, for every earlier position in the window that
      agrees on three bytes and is among the last MAX_CHAIN with their hash, a match as near
      and as long. */
  lemma NearMatchOffered(c: Chain, data: seq<byte>, pos: nat, n: nat, p: nat)
    requires Lists(c, data, n) && p < pos <= n <= pos + 1 && pos <= |data| <= NO_POS && pos - p <= MAX_WINDOW
    requires CommonRun(data, p, pos, MaxLen(data, pos)) >= MIN_MATCH
    requires Rank(data, HashAt(data, p), p, n) <= MAX_CHAIN
    ensures Shaped(c) && Covered(Hits(c, data, pos), pos - p, CommonRun(data, p, pos, MaxLen(data, pos)))
  {
    hide *;
    SameHash(data, p, pos);
    ListsAreLinks(c, data, n, HashAt(data, p), p);
    LinksShaped(c, data, n);
    NearMatchLinked(c, data, pos, n, p);
  }

  /** So does one with positions inserted twice, down to the newest of those with the hash. */
  lemma NearMatchLinked(c: Chain, data: seq<byte>, pos: nat, n: nat, p: nat)
    requires Links(c, data, n) && p < pos <= n <= pos + 1 && pos <= |data| <= NO_POS && pos - p <= MAX_WINDOW
    requires CommonRun(data, p, pos, MaxLen(data, pos)) >= MIN_MATCH && p + MIN_MATCH <= |data|
    requires Shaped(c) && Straight(c, data, HashAt(data, p), p, n) && Rank(data, HashAt(data, p), p, n) <= MAX_CHAIN
    ensures Covered(Hits(c, data, pos), pos - p, CommonRun(data, p, pos, MaxLen(data, pos)))
  {
    var h := HashAt(data, p);
    SameHash(data, p, pos);
    assert Hashed(data, p, h) && c.head[h] == Newest(data, h, n);
    hide HashAt, CommonRun, Walk, Links, Straight, Hashed, Newest, Covered;
    WalkReaches(c, data, pos, n, h, n, MIN_MATCH - 1, 0, p, CommonRun(data, p, pos, MaxLen(data, pos)));
  }

  // ------------------------------------------------------------ positions inserted twice

  lemma LinksNothing(data: seq<byte>)
    ensures Links(EmptyChain(), data, 0)
  {
  }

  /** A position inserted for the first time leads on to the one before it. */
  lemma LinksNext(c: Chain, data: seq<byte>, n: nat)
    requires Links(c, data, n) && n < |data| <= WORD
    ensures Shaped(c)
    ensures var d := LinkedAt(c, data, n);
      Links(d, data, n + 1) && (n + MIN_MATCH <= |data| ==> d.prev[n % MAX_WINDOW] == Newest(data, HashAt(data, n), n))
  {
    hide HashAt, Newest, LinkedAt, Links;
    LinksShaped(c, data, n);
    var d, next := LinkedAt(c, data, n), n + 1;
    forall h | 0 <= h < HASH_SIZE ensures d.head[h] == Newest(data, h, next) {
      HeadLinked(c, data, n, h, n);
      NewestNext(data, h, n);
    }
    forall p | 0 <= p < next <= p + MAX_WINDOW && p + MIN_MATCH <= |data|
      ensures d.prev[p % MAX_WINDOW] == Newest(data, HashAt(data, p), p) || d.prev[p % MAX_WINDOW] == p
    {
      PrevLinked(c, data, n, p, n);
    }
    if n + MIN_MATCH <= |data| {
      PrevLinked(c, data, n, n, n);
    }
    LinksFrom(d, data, next);
  }

  /** Inserted once more it is linked to itself, and nothing else changes. */
  lemma LinksAgain(c: Chain, data: seq<byte>, n: nat)
    requires Links(c, data, n + 1) && n < |data| <= WORD
    ensures Shaped(c) && Links(LinkedAt(c, data, n), data, n + 1)
  {
    hide HashAt, Newest, LinkedAt, Links;
    LinksShaped(c, data, n + 1);
    var d, next := LinkedAt(c, data, n), n + 1;
    forall h | 0 <= h < HASH_SIZE ensures d.head[h] == Newest(data, h, next) {
      HeadLinked(c, data, n, h, next);
      NewestNext(data, h, n);
    }
    forall p | 0 <= p < next <= p + MAX_WINDOW && p + MIN_MATCH <= |data|
      ensures d.prev[p % MAX_WINDOW] == Newest(data, HashAt(data, p), p) || d.prev[p % MAX_WINDOW] == p
    {
      PrevLinked(c, data, n, p, next);
      if p == n {
        NewestNext(data, HashAt(data, n), n);
      }
    }
    LinksFrom(d, data, next);
  }

  lemma LinksFrom(d: Chain, data: seq<byte>, n: nat)
    requires Shaped(d) && forall h :: 0 <= h < HASH_SIZE ==> d.head[h] == Newest(data, h, n)
    requires forall p :: 0 <= p < n <= p + MAX_WINDOW && p + MIN_MATCH <= |data| ==>
      d.prev[p % MAX_WINDOW] == Newest(data, HashAt(data, p), p) || d.prev[p % MAX_WINDOW] == p
    ensures Links(d, data, n)
  {
    hide HashAt, Newest;
  }

  lemma NewestNext(data: seq<byte>, h: nat, n: nat)
    ensures Newest(data, h, n + 1) == if n + MIN_MATCH <= |data| && HashAt(data, n) == h then n else Newest(data, h, n)
  {
    hide HashAt;
  }

  lemma HeadLinked(c: Chain, data: seq<byte>, n: nat, h: nat, listed: nat)
    requires Links(c, data, listed) && n < |data| <= WORD && h < HASH_SIZE
    ensures Shaped(c) && LinkedAt(c, data, n).head[h] == if n + MIN_MATCH <= |data| && HashAt(data, n) == h then n else Newest(data, h, listed)
  {
    hide HashAt, Newest;
  }

  lemma PrevLinked(c: Chain, data: seq<byte>, n: nat, p: nat, listed: nat)
    requires Links(c, data, listed) && n <= listed <= n + 1 && n < |data| <= WORD
    requires p <= n && n + 1 <= p + MAX_WINDOW && p + MIN_MATCH <= |data|
    ensures Shaped(c)
    ensures p < n ==> LinkedAt(c, data, n).prev[p % MAX_WINDOW] == c.prev[p % MAX_WINDOW]
    ensures p < n ==> c.prev[p % MAX_WINDOW] == Newest(data, HashAt(data, p), p) || c.prev[p % MAX_WINDOW] == p
    ensures p == n ==> LinkedAt(c, data, n).prev[n % MAX_WINDOW] == Newest(data, HashAt(data, n), listed)
  {
    hide HashAt, Newest;
    if p < n {
      SlotsApart(p, n);
    }
  }

  lemma {:induction false} LinksRange(c: Chain, data: seq<byte>, first: nat, end: nat)
    requires Links(c, data, first) && first <= end <= |data| <= WORD
    ensures Shaped(c) && Links(LinkedRange(c, data, first, end), data, end)
    decreases end
  {
    hide Links, LinkedAt;
    LinksShaped(c, data, first);
    if first < end {
      LinksRange(c, data, first, end - 1);
      LinksNext(LinkedRange(c, data, first, end - 1), data, end - 1);
    }
  }

  lemma SameHash(data: seq<byte>, p: nat, q: nat)
    requires p < q <= |data| && CommonRun(data, p, q, MaxLen(data, q)) >= MIN_MATCH
    ensures q + MIN_MATCH <= |data| && HashAt(data, p) == HashAt(data, q)
  {
    CommonRunAgrees(data, p, q, MaxLen(data, q));
    hide CommonRun, Agree, Hash3;
    AgreeAt(data, p, q, CommonRun(data, p, q, MaxLen(data, q)), 0);
    AgreeAt(data, p, q, CommonRun(data, p, q, MaxLen(data, q)), 1);
    AgreeAt(data, p, q, CommonRun(data, p, q, MaxLen(data, q)), 2);
  }

  // ------------------------------------------------------------ the chain as it runs

  class HashChain {
    const head: array<nat>
    const prev: array<nat>

    ghost predicate Valid() {
      head.Length == HASH_SIZE && prev.Length == MAX_WINDOW && head != prev
    }

    ghost function View(): (c: Chain)
      requires Valid()
      reads head, prev
      ensures Shaped(c)
    {
      Chain(head[..], prev[..])
    }

    constructor ()
      ensures Valid() && fresh(head) && fresh(prev)
      ensures View() == EmptyChain()
    {
      head := new nat[HASH_SIZE](i => NO_POS);
      prev := new nat[MAX_WINDOW](i => NO_POS);
    }

    method Insert(h: nat, pos: nat)
      requires Valid() && h < HASH_SIZE
      modifies head, prev
      ensures View() == Linked(old(View()), h, pos)
    {
      prev[pos % MAX_WINDOW] := head[h];
      head[h] := pos;
    }

    /** Follows at most MAX_CHAIN links, wherever they lead, comparing one byte first: the
        last and longest match of the plain walk. */
    method FindBestMatch(data: seq<byte>, current: nat) returns (m: Option<Hit>)
      requires Valid() && current <= |data|
      ensures m == BestHit(View(), data, current)
    {
      if current + MIN_MATCH > |data| {
        return None;
      }
      ghost var c := View();
      WalkStart(c, data, current);
      assert c == Chain(head[..], prev[..]);
      hide *;
      var candidate: nat := head[HashAt(data, current)];
      var bestLen: nat, bestOffset: nat, bestSteps: nat := MIN_MATCH - 1, 0, 0;
      var maxLen := if MAX_MATCH < |data| - current then MAX_MATCH else |data| - current;
      var chainCount := 0;
      while candidate != NO_POS && chainCount < MAX_CHAIN
        invariant 0 <= chainCount <= MAX_CHAIN && MIN_MATCH - 1 <= bestLen <= maxLen
        invariant Walking(c, data, current, candidate, bestOffset, bestLen, bestSteps, chainCount)
        decreases MAX_CHAIN - chainCount
      {
        if candidate < current {
          var distance := current - candidate;
          if distance > MAX_WINDOW {
            WalkEnd(c, data, current, candidate, bestOffset, bestLen, bestSteps, chainCount);
            break;
          }
          var len := LongerRun(data, candidate, current, maxLen, bestLen);
          if len > bestLen {
            WalkHit(c, data, current, candidate, bestOffset, bestLen, bestSteps, chainCount, len);
            bestLen, bestOffset, bestSteps := len, distance, chainCount;
            if bestLen == maxLen {
              break;
            }
          } else {
            WalkOn(c, data, current, candidate, bestOffset, bestLen, bestSteps, chainCount);
          }
        } else {
          WalkOn(c, data, current, candidate, bestOffset, bestLen, bestSteps, chainCount);
        }
        candidate := prev[candidate % MAX_WINDOW];
        chainCount := chainCount + 1;
      }
      if candidate == NO_POS || chainCount == MAX_CHAIN {
        WalkEnd(c, data, current, candidate, bestOffset, bestLen, bestSteps, chainCount);
      }
      m := Sofar(bestOffset, bestLen, bestSteps);
    }
  }

  /** The run if it is longer than `best`; the byte a longer run must agree on is compared first. */
  method LongerRun(data: seq<byte>, candidate: nat, current: nat, maxLen: nat, best: nat) returns (len: nat)
    requires candidate < current && current + maxLen <= |data|
    ensures len > best <==> CommonRun(data, candidate, current, maxLen) > best
    ensures len > best ==> len == CommonRun(data, candidate, current, maxLen)
  {
    hide CommonRun, Agree;
    var candMax := if maxLen < |data| - candidate then maxLen else |data| - candidate;
    len := 0;
    RunReaches(data, candidate, current, maxLen, best);
    if best < candMax && data[candidate + best] == data[current + best] {
      len := RunLength(data, candidate, current, candMax);
    }
  }

  function Sofar(offset: nat, length: nat, steps: nat): Option<Hit> {
    if length >= MIN_MATCH then Some(Hit(offset, length, steps)) else None
  }

  function Latest(hit: Option<Hit>, more: seq<Hit>): Option<Hit> {
    if more == [] then hit else Some(more[|more| - 1])
  }

  /** The match found so far and the rest of the walk make up the whole. */
  ghost predicate Walking(c: Chain, data: seq<byte>, pos: nat, candidate: nat, offset: nat, best: nat, found: nat, steps: nat)
    requires Shaped(c) && pos <= |data| && MIN_MATCH - 1 <= best && steps <= MAX_CHAIN
  {
    BestHit(c, data, pos) == Latest(Sofar(offset, best, found), Walk(c, data, pos, candidate, best, steps))
  }

  lemma WalkStart(c: Chain, data: seq<byte>, pos: nat)
    requires Shaped(c) && pos + MIN_MATCH <= |data|
    ensures |c.head| == HASH_SIZE && |c.prev| == MAX_WINDOW
    ensures MaxLen(data, pos) == if MAX_MATCH < |data| - pos then MAX_MATCH else |data| - pos
    ensures Walking(c, data, pos, c.head[HashAt(data, pos)], 0, MIN_MATCH - 1, 0, 0)
  {
    hide Walk, HashAt;
  }

  /** One link of the walk that reports nothing. */
  lemma WalkOn(c: Chain, data: seq<byte>, pos: nat, candidate: nat, offset: nat, best: nat, found: nat, steps: nat)
    requires Shaped(c) && pos <= |data| && MIN_MATCH - 1 <= best && steps < MAX_CHAIN && candidate != NO_POS
    requires Walking(c, data, pos, candidate, offset, best, found, steps)
    requires candidate < pos ==>
      pos - candidate <= MAX_WINDOW && CommonRun(data, candidate, pos, MaxLen(data, pos)) <= best
    ensures |c.prev| == MAX_WINDOW && Walking(c, data, pos, c.prev[candidate % MAX_WINDOW], offset, best, found, steps + 1)
  {
    hide CommonRun, Agree, BestHit;
  }

  /** One link that reports a match, the last one when it cannot be longer. */
  lemma WalkHit(c: Chain, data: seq<byte>, pos: nat, candidate: nat, offset: nat, best: nat, found: nat, steps: nat, len: nat)
    requires Shaped(c) && pos <= |data| && MIN_MATCH - 1 <= best && steps < MAX_CHAIN && candidate != NO_POS
    requires Walking(c, data, pos, candidate, offset, best, found, steps)
    requires candidate < pos && pos - candidate <= MAX_WINDOW
    requires len == CommonRun(data, candidate, pos, MaxLen(data, pos)) > best
    ensures |c.prev| == MAX_WINDOW
    ensures if len == MaxLen(data, pos) then BestHit(c, data, pos) == Sofar(pos - candidate, len, steps)
      else Walking(c, data, pos, c.prev[candidate % MAX_WINDOW], pos - candidate, len, steps, steps + 1)
  {
    hide CommonRun, Agree, BestHit;
  }

  lemma WalkEnd(c: Chain, data: seq<byte>, pos: nat, candidate: nat, offset: nat, best: nat, found: nat, steps: nat)
    requires Shaped(c) && pos <= |data| && MIN_MATCH - 1 <= best && steps <= MAX_CHAIN
    requires Walking(c, data, pos, candidate, offset, best, found, steps)
    requires candidate == NO_POS || steps == MAX_CHAIN || candidate + MAX_WINDOW < pos
    ensures BestHit(c, data, pos) == Sofar(offset, best, found)
  {
    hide BestHit;
  }

  /** A run longer than `best` agrees there. */
  lemma RunReaches(data: seq<byte>, a: nat, b: nat, max: nat, best: nat)
    requires a <= b && b + max <= |data|
    ensures best < CommonRun(data, a, b, max) ==> data[a + best] == data[b + best]
  {
    var run := CommonRun(data, a, b, max);
    if best < run {
      CommonRunAgrees(data, a, b, max);
      AgreeAt(data, a, b, run, best);
    }
  }
}
