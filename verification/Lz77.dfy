/** LZ77 with a hash chain and two-step lazy matching: whatever the chain holds, the
    tokens decode to the data. */
module Lz77 {
  import opened Bytes
  import opened Suffixes
  import opened Tokens
  import opened HashChains
  import opened LzTokens
  import opened Sequences

  // ------------------------------------------------------------ decoding

  datatype Outcome = Data(d: seq<byte>) | TooLarge(limit: nat) | InvalidMatch(offset: nat, available: nat)

  /** `decode_with_limit`, from output `out` on. */
  function DecodeFrom(out: seq<byte>, tokens: seq<Token>, limit: nat): Outcome
    decreases |tokens|
  {
    if tokens == [] then Data(out)
    else
      match tokens[0]
      case Literal(b) => if |out| >= limit then TooLarge(limit) else DecodeFrom(out + [b], tokens[1..], limit)
      case Match(offset, length) =>
        if |out| + length > limit then TooLarge(limit)
        else if offset == 0 || offset > |out| then InvalidMatch(offset, |out|)
        else DecodeFrom(CopyMatch(out, offset, length), tokens[1..], limit)
  }

  /** Decoding never goes past the limit. */
  lemma {:induction false} WithinLimit(out: seq<byte>, tokens: seq<Token>, limit: nat)
    requires |out| <= limit
    ensures var r := DecodeFrom(out, tokens, limit); r.Data? ==> |r.d| <= limit
    decreases |tokens|
  {
    if tokens != [] {
      match tokens[0]
      case Literal(b) =>
        if |out| < limit {
          WithinLimit(out + [b], tokens[1..], limit);
        }
      case Match(offset, length) =>
        if |out| + length <= limit && 0 < offset <= |out| {
          WithinLimit(CopyMatch(out, offset, length), tokens[1..], limit);
        }
    }
  }

  method Decode(tokens: seq<Token>, limit: nat) returns (r: Outcome)
    ensures r == DecodeFrom([], tokens, limit)
    ensures r.Data? ==> |r.d| <= limit
  {
    var output: seq<byte> := [];
    assert tokens[0..] == tokens;
    for k := 0 to |tokens|
      invariant DecodeFrom(output, tokens[k..], limit) == DecodeFrom([], tokens, limit)
      invariant |output| <= limit
    {
      assert tokens[k..][1..] == tokens[k + 1..];
      match tokens[k]
      case Literal(b) =>
        if |output| >= limit {
          return TooLarge(limit);
        }
        output := output + [b];
      case Match(offset, length) =>
        if |output| + length > limit {
          return TooLarge(limit);
        }
        if offset > |output| || offset == 0 {
          return InvalidMatch(offset, |output|);
        }
        var start := |output| - offset;
        ghost var was := output;
        for i := 0 to length
          invariant |output| == |was| + i
          invariant CopyMatch(output, offset, length - i) == CopyMatch(was, offset, length)
        {
          output := output + [output[start + i]];
        }
    }
    r := Data(output);
  }

  /** What the tokens stand for, without a limit. */
  function Meaning(tokens: seq<Token>): Option<seq<byte>>
    decreases |tokens|
  {
    if tokens == [] then Some([])
    else
      var before := Meaning(tokens[..|tokens| - 1]);
      if before.None? then None else Extended(before.value, tokens[|tokens| - 1])
  }

  function Extended(out: seq<byte>, t: Token): Option<seq<byte>> {
    match t
    case Literal(b) => Some(out + [b])
    case Match(offset, length) => if 1 <= offset <= |out| then Some(CopyMatch(out, offset, length)) else None
  }

  lemma MeaningSnoc(tokens: seq<Token>, t: Token)
    ensures Meaning(tokens + [t]) == if Meaning(tokens).None? then None else Extended(Meaning(tokens).value, t)
  {
    assert (tokens + [t])[..|tokens|] == tokens;
  }

  lemma {:induction false} MeaningGrows(tokens: seq<Token>, k: nat)
    requires k <= |tokens| && Meaning(tokens).Some?
    ensures Meaning(tokens[..k]).Some? && |Meaning(tokens[..k]).value| <= |Meaning(tokens).value|
    decreases |tokens|
  {
    if k == |tokens| {
      assert tokens[..k] == tokens;
    } else {
      var m := |tokens| - 1;
      MeaningGrows(tokens[..m], k);
      assert tokens[..m][..k] == tokens[..k];
    }
  }

  /** Within the limit, decoding the rest of the tokens reaches their meaning. */
  lemma {:induction false} DecodeReaches(tokens: seq<Token>, k: nat, limit: nat)
    requires k <= |tokens| && Meaning(tokens).Some? && |Meaning(tokens).value| <= limit
    ensures Meaning(tokens[..k]).Some?
    ensures DecodeFrom(Meaning(tokens[..k]).value, tokens[k..], limit) == Data(Meaning(tokens).value)
    decreases |tokens| - k
  {
    MeaningGrows(tokens, k);
    if k == |tokens| {
      assert tokens[..k] == tokens && tokens[k..] == [];
    } else {
      DecodeReaches(tokens, k + 1, limit);
      MeaningGrows(tokens, k + 1);
      assert tokens[..k + 1][..k] == tokens[..k] && tokens[k..][1..] == tokens[k + 1..];
    }
  }

  lemma {:induction false} DecodeStops(tokens: seq<Token>, k: nat, limit: nat)
    requires k <= |tokens| && Meaning(tokens).Some? && |Meaning(tokens).value| > limit
    requires Meaning(tokens[..k]).Some? && |Meaning(tokens[..k]).value| <= limit
    ensures DecodeFrom(Meaning(tokens[..k]).value, tokens[k..], limit) == TooLarge(limit)
    decreases |tokens| - k
  {
    assert tokens[..|tokens|] == tokens;
    if k < |tokens| {
      MeaningGrows(tokens, k + 1);
      assert tokens[..k + 1][..k] == tokens[..k] && tokens[k..][1..] == tokens[k + 1..];
      if |Meaning(tokens[..k + 1]).value| <= limit {
        DecodeStops(tokens, k + 1, limit);
      }
    }
  }

  /** Tokens that stand for `data` decode to it exactly when the limit allows it. */
  lemma DecodeIsMeaning(tokens: seq<Token>, data: seq<byte>, limit: nat)
    requires Meaning(tokens) == Some(data)
    ensures DecodeFrom([], tokens, limit) == if |data| <= limit then Data(data) else TooLarge(limit)
  {
    assert tokens[..0] == [] && tokens[0..] == tokens;
    if |data| <= limit {
      DecodeReaches(tokens, 0, limit);
    } else {
      DecodeStops(tokens, 0, limit);
    }
  }

  // ------------------------------------------------------------ matches

  lemma {:induction false} CopyRepeats(data: seq<byte>, p: nat, offset: nat, len: nat)
    requires Repeats(data, p, offset, len)
    ensures CopyMatch(data[..p], offset, len) == data[..p + len]
    decreases len
  {
    if len > 0 {
      assert data[..p] + [data[p]] == data[..p + 1];
      CopyRepeats(data, p + 1, offset, len - 1);
    }
  }

  // ------------------------------------------------------------ the encoder

  /** A candidate match: offset, length, whether it repeats a recent offset. */
  datatype Pick = Pick(offset: nat, length: nat, isRep: bool)

  ghost predicate PickOk(data: seq<byte>, p: nat, m: Option<Pick>) {
    m.Some? ==> Usable(data, p, m.value.offset, m.value.length)
  }

  /** Recent offsets the encoder tries are within the window. */
  ghost predicate InWindow(r: Recent) {
    forall i :: 0 <= i < 4 ==> r[i] <= MAX_WINDOW
  }

  function RepRun(data: seq<byte>, pos: nat, offset: nat): (len: nat)
    requires pos <= |data|
    ensures len <= MaxLen(data, pos)
  {
    if 1 <= offset <= pos then CommonRun(data, pos - offset, pos, MaxLen(data, pos)) else 0
  }

  /** Trying the recent offsets from the `k`th on, with the best match so far. */
  function RepFrom(data: seq<byte>, pos: nat, recent: Recent, k: nat, offset: nat, best: nat): (m: Option<Pick>)
    requires pos <= |data| && k <= 4 && best <= MaxLen(data, pos)
    ensures m.Some? ==> m.value.length >= MIN_MATCH && pos + m.value.length <= |data|
    decreases 4 - k
  {
    if k == 4 || best == MaxLen(data, pos) then
      if best >= MIN_MATCH then Some(Pick(offset, best, true)) else None
    else
      var len := RepRun(data, pos, recent[k]);
      if len > best then RepFrom(data, pos, recent, k + 1, recent[k], len) else RepFrom(data, pos, recent, k + 1, offset, best)
  }

  /** The longest match at a recent offset; a tie keeps the more recent. */
  function RepBest(data: seq<byte>, pos: nat, recent: Recent): (m: Option<Pick>)
    requires pos <= |data|
    ensures m.Some? ==> m.value.length >= MIN_MATCH && pos + m.value.length <= |data|
  {
    if pos + MIN_MATCH > |data| then None else RepFrom(data, pos, recent, 0, 0, MIN_MATCH - 1)
  }

  method TryRepMatch(data: seq<byte>, pos: nat, recent: Recent) returns (m: Option<Pick>)
    requires pos <= |data|
    ensures m == RepBest(data, pos, recent)
  {
    var remaining := |data| - pos;
    if remaining < MIN_MATCH {
      return None;
    }
    var maxLen := if remaining < MAX_MATCH then remaining else MAX_MATCH;
    assert maxLen == MaxLen(data, pos);
    hide CommonRun, MaxLen;
    var bestOffset: nat, bestLen: nat := 0, MIN_MATCH - 1;
    var k := 0;
    while k < 4
      invariant 0 <= k <= 4 && MIN_MATCH - 1 <= bestLen <= maxLen
      invariant RepBest(data, pos, recent) == RepFrom(data, pos, recent, k, bestOffset, bestLen)
    {
      var co := recent[k];
      if co != 0 && co <= pos {
        var len := RunLength(data, pos - co, pos, maxLen);
        if len > bestLen {
          bestLen, bestOffset := len, co;
          if bestLen == maxLen {
            break;
          }
        }
      }
      k := k + 1;
    }
    m := if bestLen >= MIN_MATCH then Some(Pick(bestOffset, bestLen, true)) else None;
  }

  lemma RepRunUsable(data: seq<byte>, pos: nat, offset: nat)
    requires pos <= |data| && offset <= MAX_WINDOW && RepRun(data, pos, offset) >= MIN_MATCH
    ensures Usable(data, pos, offset, RepRun(data, pos, offset))
  {
    hide CommonRun, Agree;
    CommonRunAgrees(data, pos - offset, pos, MaxLen(data, pos));
  }

  lemma {:induction false} RepFromUsable(data: seq<byte>, pos: nat, recent: Recent, k: nat, offset: nat, best: nat)
    requires pos <= |data| && k <= 4 && best <= MaxLen(data, pos) && InWindow(recent)
    requires best >= MIN_MATCH ==> Usable(data, pos, offset, best)
    ensures PickOk(data, pos, RepFrom(data, pos, recent, k, offset, best))
    decreases 4 - k
  {
    hide RepRun, Usable, MaxLen;
    if k < 4 && best != MaxLen(data, pos) {
      var len := RepRun(data, pos, recent[k]);
      if len > best {
        if len >= MIN_MATCH {
          RepRunUsable(data, pos, recent[k]);
        }
        RepFromUsable(data, pos, recent, k + 1, recent[k], len);
      } else {
        RepFromUsable(data, pos, recent, k + 1, offset, best);
      }
    }
  }

  /** The length settled on, two when no recent offset matches. */
  function Settled(m: Option<Pick>): nat {
    if m.Some? then m.value.length else MIN_MATCH - 1
  }

  lemma {:induction false} RepFromLongest(data: seq<byte>, pos: nat, recent: Recent, k: nat, offset: nat, best: nat)
    requires pos <= |data| && k <= 4 && best <= MaxLen(data, pos)
    ensures Settled(RepFrom(data, pos, recent, k, offset, best)) >= best || best < MIN_MATCH
    ensures forall l :: k <= l < 4 ==> RepRun(data, pos, recent[l]) <= Settled(RepFrom(data, pos, recent, k, offset, best))
    decreases 4 - k
  {
    hide RepRun, MaxLen;
    if k < 4 && best != MaxLen(data, pos) {
      var len := RepRun(data, pos, recent[k]);
      if len > best {
        RepFromLongest(data, pos, recent, k + 1, recent[k], len);
      } else {
        RepFromLongest(data, pos, recent, k + 1, offset, best);
      }
    }
  }

  /** A match at a recent offset is a true match, and no recent offset matches longer. */
  lemma RepBestLongest(data: seq<byte>, pos: nat, recent: Recent)
    requires pos <= |data| && InWindow(recent)
    ensures PickOk(data, pos, RepBest(data, pos, recent))
    ensures forall k :: 0 <= k < 4 ==> RepRun(data, pos, recent[k]) <= Settled(RepBest(data, pos, recent))
  {
    if pos + MIN_MATCH <= |data| {
      hide RepFrom, Usable, CommonRun;
      RepFromUsable(data, pos, recent, 0, 0, MIN_MATCH - 1);
      RepFromLongest(data, pos, recent, 0, 0, MIN_MATCH - 1);
    }
  }

  /** A rep match wins when it is within one byte of the hash chain's. */
  function Merged(rep: Option<Pick>, hash: Option<Pick>): Option<Pick> {
    if rep.Some? && (hash.None? || rep.value.length + 1 >= hash.value.length) then rep else hash
  }

  /** Short matches far away, or found late, cost more than literals. */
  function Filtered(hit: Option<Hit>): Option<Pick> {
    if hit.None? then None
    else
      var Hit(offset, length, steps) := hit.value;
      if length == 3 && (offset > 4096 || (offset > 1024 && steps >= 4)) then None else Some(Pick(offset, length, false))
  }

  /** The match considered at `pos`. */
  function Best(c: Chain, data: seq<byte>, pos: nat, recent: Recent): (m: Option<Pick>)
    requires Shaped(c) && pos <= |data|
    ensures m.Some? ==> m.value.length >= MIN_MATCH && pos + m.value.length <= |data|
  {
    BestUsable(c, data, pos);
    Merged(RepBest(data, pos, recent), Filtered(BestHit(c, data, pos)))
  }

  lemma BestOk(c: Chain, data: seq<byte>, pos: nat, recent: Recent)
    requires Shaped(c) && pos <= |data| && InWindow(recent)
    ensures PickOk(data, pos, Best(c, data, pos, recent))
  {
    hide Usable, RepBest, BestHit;
    RepBestLongest(data, pos, recent);
    BestUsable(c, data, pos);
  }

  /** The match considered is no shorter than any at a recent offset, and within a byte of the chain's
      longest unless that one is three bytes far away. Only a match longer by two takes a new offset. */
  lemma BestNearLongest(c: Chain, data: seq<byte>, pos: nat, recent: Recent)
    requires Shaped(c) && pos <= |data| && InWindow(recent)
    ensures var m := Best(c, data, pos, recent);
      forall k :: 0 <= k < 4 && RepRun(data, pos, recent[k]) >= MIN_MATCH ==>
        m.Some? && m.value.length >= RepRun(data, pos, recent[k]) && (!m.value.isRep ==> m.value.length >= RepRun(data, pos, recent[k]) + 2)
    ensures var m, hit := Best(c, data, pos, recent), BestHit(c, data, pos);
      hit.Some? && (hit.value.length > 3 || hit.value.offset <= 1024) ==> m.Some? && m.value.length + 1 >= hit.value.length
    ensures var m, hit := Best(c, data, pos, recent), BestHit(c, data, pos);
      m.Some? && !m.value.isRep ==>
        && hit.Some? && m.value.offset == hit.value.offset && m.value.length == hit.value.length
        && (hit.value.length == 3 ==> hit.value.offset <= 4096 && (hit.value.offset <= 1024 || hit.value.steps < 4))
    ensures var m := Best(c, data, pos, recent);
      m.Some? && m.value.isRep ==> exists k :: 0 <= k < 4 && m.value.offset == recent[k] && m.value.length == RepRun(data, pos, recent[k])
  {
    hide RepBest, BestHit, RepRun, Usable;
    RepBestLongest(data, pos, recent);
    RepBestIsRep(data, pos, recent);
  }

  lemma RepBestIsRep(data: seq<byte>, pos: nat, recent: Recent)
    requires pos <= |data|
    ensures var m := RepBest(data, pos, recent);
      m.Some? ==> m.value.isRep && exists k :: 0 <= k < 4 && m.value.offset == recent[k] && m.value.length == RepRun(data, pos, recent[k])
  {
    hide RepFrom, RepRun;
    if pos + MIN_MATCH <= |data| {
      RepFromIsRep(data, pos, recent, 0, 0, MIN_MATCH - 1);
    }
  }

  lemma {:induction false} RepFromIsRep(data: seq<byte>, pos: nat, recent: Recent, k: nat, offset: nat, best: nat)
    requires pos <= |data| && k <= 4 && best <= MaxLen(data, pos)
    requires best >= MIN_MATCH ==> exists l :: 0 <= l < 4 && offset == recent[l] && best == RepRun(data, pos, recent[l])
    ensures var m := RepFrom(data, pos, recent, k, offset, best);
      m.Some? ==> m.value.isRep && exists l :: 0 <= l < 4 && m.value.offset == recent[l] && m.value.length == RepRun(data, pos, recent[l])
    decreases 4 - k
  {
    hide RepRun, MaxLen;
    if k < 4 && best != MaxLen(data, pos) {
      var len := RepRun(data, pos, recent[k]);
      if len > best {
        RepFromIsRep(data, pos, recent, k + 1, recent[k], len);
      } else {
        RepFromIsRep(data, pos, recent, k + 1, offset, best);
      }
    }
  }

  method BestAt(chain: HashChain, data: seq<byte>, pos: nat, recent: Recent) returns (m: Option<Pick>)
    requires chain.Valid() && pos <= |data|
    ensures m == Best(chain.View(), data, pos, recent)
  {
    hide RepFrom, Hits;
    var rep := TryRepMatch(data, pos, recent);
    var hash := chain.FindBestMatch(data, pos);
    m := Merged(rep, Filtered(hash));
  }

  /** The tokens so far stand for the first `pos` bytes and are all expressible. */
  ghost predicate Covers(tokens: seq<Token>, data: seq<byte>, pos: nat) {
    pos <= |data| && Meaning(tokens) == Some(data[..pos]) && forall k :: 0 <= k < |tokens| ==> ValidToken(tokens[k])
  }

  lemma CoverLiteral(tokens: seq<Token>, data: seq<byte>, pos: nat)
    requires Covers(tokens, data, pos) && pos < |data|
    ensures Covers(tokens + [Literal(data[pos])], data, pos + 1)
  {
    hide Meaning;
    MeaningSnoc(tokens, Literal(data[pos]));
    assert data[..pos] + [data[pos]] == data[..pos + 1];
  }

  lemma CoverMatch(tokens: seq<Token>, data: seq<byte>, pos: nat, offset: nat, len: nat)
    requires Covers(tokens, data, pos) && Usable(data, pos, offset, len)
    ensures Covers(tokens + [Match(offset, len)], data, pos + len)
  {
    hide Meaning;
    MeaningSnoc(tokens, Match(offset, len));
    CopyRepeats(data, pos, offset, len);
  }

  method InsertCovered(chain: HashChain, data: seq<byte>, first: nat, end: nat)
    requires chain.Valid() && first <= end <= |data|
    modifies chain.head, chain.prev
    ensures chain.View() == LinkedRange(old(chain.View()), data, first, end)
  {
    hide HashAt, Linked;
    ghost var start := chain.View();
    for p := first to end
      invariant chain.View() == LinkedRange(start, data, first, p)
    {
      InsertAt(chain, data, p);
    }
  }

  method InsertAt(chain: HashChain, data: seq<byte>, p: nat)
    requires chain.Valid() && p < |data|
    modifies chain.head, chain.prev
    ensures chain.View() == LinkedAt(old(chain.View()), data, p)
  {
    if p + MIN_MATCH <= |data| {
      chain.Insert(HashAt(data, p), p % WORD);
    }
  }

  function Used(r: Recent, offset: nat): Recent {
    var i := Found(r, offset);
    if i.Some? then Promoted(r, i.value) else Inserted(r, offset)
  }

  /** The offset used goes to the front; the others keep their order, and the oldest falls out when
      the offset is new. */
  lemma UsedMoves(r: Recent, offset: nat) returns (i: nat)
    ensures i < 4 && (r[i] == offset || (i == 3 && offset !in r)) && offset !in r[..i]
    ensures Used(r, offset) == [offset] + r[..i] + r[i + 1..]
  {
    var f := Found(r, offset);
    i := if f.Some? then f.value else 3;
  }

  /** How many bytes to pass as literals because the matches behind them are longer than
      `length`; `c` already holds `pos`. */
  function Ahead(c: Chain, recent: Recent, data: seq<byte>, pos: nat, length: nat): (skip: nat)
    requires Shaped(c) && pos < |data|
    ensures skip <= 2 && (skip > 0 ==> pos + skip < |data|)
  {
    var next1 := Best(c, data, pos + 1, recent);
    if next1.None? || next1.value.length <= length then 0
    else
      var next2 := Best(LinkedAt(c, data, pos + 1), data, pos + 2, recent);
      if next2.Some? && next2.value.length > next1.value.length then 2 else 1
  }

  /** What one round of the encoder emits at `pos`, and the chain and offsets it leaves. */
  datatype Round = Round(tokens: seq<Token>, chain: Chain, recent: Recent, pos: nat)

  function Lazy(c: Chain, recent: Recent, data: seq<byte>, pos: nat): (r: Round)
    requires Shaped(c) && pos < |data|
    ensures Shaped(r.chain) && pos < r.pos <= |data|
  {
    var literal := Literal(data[pos]);
    if pos + MIN_MATCH > |data| then Round([literal], c, recent, pos + 1)
    else
      var here := LinkedAt(c, data, pos);
      var m := Best(c, data, pos, recent);
      if m.None? then Round([literal], here, recent, pos + 1)
      else
        var skip := Ahead(here, recent, data, pos, m.value.length);
        if skip == 0 then Taken(here, recent, data, pos, m.value)
        else
          Round([literal] + if skip == 2 then [Literal(data[pos + 1])] else [],
            LinkedAt(here, data, pos + 1), recent, pos + skip)
  }

  function Taken(c: Chain, recent: Recent, data: seq<byte>, pos: nat, m: Pick): (r: Round)
    requires Shaped(c) && m.length > 0
    ensures Shaped(r.chain) && r.pos == pos + m.length
  {
    Round([Match(m.offset, m.length)], LinkedRange(c, data, pos + 1, pos + m.length), Used(recent, m.offset), pos + m.length)
  }

  /** A match is emitted exactly when there is one and the next position has none longer; two literals
      are passed exactly when each of the two positions ahead has a longer one than the last. */
  lemma LazyMeans(c: Chain, recent: Recent, data: seq<byte>, pos: nat)
    requires Shaped(c) && pos + MIN_MATCH <= |data|
    ensures var r, m, here := Lazy(c, recent, data, pos), Best(c, data, pos, recent), LinkedAt(c, data, pos);
      var next1, next2 := Best(here, data, pos + 1, recent), Best(LinkedAt(here, data, pos + 1), data, pos + 2, recent);
      && (r.tokens[0].Match? <==> m.Some? && !(next1.Some? && next1.value.length > m.value.length))
      && (r.tokens[0].Match? ==>
            r.tokens == [Match(m.value.offset, m.value.length)] && r.pos == pos + m.value.length && r.recent == Used(recent, m.value.offset))
      && (!r.tokens[0].Match? ==> r.tokens == Literals(data, pos, r.pos) && r.recent == recent)
      && (r.pos == pos + 2 && !r.tokens[0].Match? <==>
            m.Some? && next1.Some? && next2.Some? && m.value.length < next1.value.length < next2.value.length)
  {
    hide Best, LinkedAt, LinkedRange, Used;
  }

  function Literals(data: seq<byte>, first: nat, end: nat): (t: seq<Token>)
    requires first <= end <= |data|
    ensures |t| == end - first
  {
    seq(end - first, k requires 0 <= k < end - first => Literal(data[first + k]))
  }

  /** The tokens from `pos` on: lazy matching, looking up to two positions ahead. */
  function LazyFrom(c: Chain, recent: Recent, data: seq<byte>, pos: nat): (tokens: seq<Token>)
    requires Shaped(c) && pos <= |data|
    decreases |data| - pos
  {
    if pos == |data| then []
    else
      var r := Lazy(c, recent, data, pos);
      r.tokens + LazyFrom(r.chain, r.recent, data, r.pos)
  }

  /** What a new encoder makes of the data. */
  function LazyTokens(data: seq<byte>): (tokens: seq<Token>) {
    LazyFrom(EmptyChain(), FIRST_RECENT, data, 0)
  }

  lemma UsedInWindow(r: Recent, offset: nat)
    requires InWindow(r) && offset <= MAX_WINDOW
    ensures InWindow(Used(r, offset))
  {
  }

  /** One round keeps the tokens standing for the bytes passed. */
  lemma RoundCovers(c: Chain, recent: Recent, data: seq<byte>, pos: nat, tokens: seq<Token>)
    requires Shaped(c) && pos < |data| && InWindow(recent) && Covers(tokens, data, pos)
    ensures var r := Lazy(c, recent, data, pos);
      Covers(tokens + r.tokens, data, r.pos) && InWindow(r.recent)
  {
    hide Covers, Usable, Best, LinkedAt, LinkedRange, InWindow, Used, Ahead;
    var r := Lazy(c, recent, data, pos);
    CoverLiteral(tokens, data, pos);
    if r.tokens[0].Match? {
      var Pick(offset, length, _) := Best(c, data, pos, recent).value;
      BestOk(c, data, pos, recent);
      UsableFacts(data, pos, offset, length);
      CoverMatch(tokens, data, pos, offset, length);
      UsedInWindow(recent, offset);
    } else if |r.tokens| > 1 {
      CoverLiteral(tokens + [Literal(data[pos])], data, pos + 1);
      assert tokens + [Literal(data[pos])] + [Literal(data[pos + 1])] == tokens + r.tokens;
    } else {
      assert r.tokens == [Literal(data[pos])];
    }
  }

  lemma {:induction false} LazyCovers(c: Chain, recent: Recent, data: seq<byte>, pos: nat, tokens: seq<Token>)
    requires Shaped(c) && pos <= |data| && InWindow(recent) && Covers(tokens, data, pos)
    ensures Covers(tokens + LazyFrom(c, recent, data, pos), data, |data|)
    decreases |data| - pos
  {
    hide Covers, Lazy, InWindow;
    if pos < |data| {
      var r := Lazy(c, recent, data, pos);
      RoundCovers(c, recent, data, pos, tokens);
      LazyCovers(r.chain, r.recent, data, r.pos, tokens + r.tokens);
      assert tokens + r.tokens + LazyFrom(r.chain, r.recent, data, r.pos) == tokens + LazyFrom(c, recent, data, pos);
    } else {
      assert tokens + [] == tokens;
    }
  }

  /** The tokens emitted and those still to come make up the whole. */
  ghost predicate Emitting(whole: seq<Token>, tokens: seq<Token>, c: Chain, recent: Recent, data: seq<byte>, pos: nat)
    requires Shaped(c) && pos <= |data|
  {
    whole == tokens + LazyFrom(c, recent, data, pos)
  }

  /** A round moves tokens from the rest to what is emitted. */
  lemma RoundEmits(whole: seq<Token>, tokens: seq<Token>, c: Chain, recent: Recent, data: seq<byte>, pos: nat)
    requires Shaped(c) && pos < |data| && Emitting(whole, tokens, c, recent, data, pos)
    ensures var r := Lazy(c, recent, data, pos); Emitting(whole, tokens + r.tokens, r.chain, r.recent, data, r.pos)
  {
    hide Lazy;
  }

  lemma EmittingEnd(whole: seq<Token>, tokens: seq<Token>, c: Chain, recent: Recent, data: seq<byte>, pos: nat)
    requires Shaped(c) && pos == |data| && Emitting(whole, tokens, c, recent, data, pos)
    ensures tokens == whole
  {
  }

  lemma EmittingStart(c: Chain, data: seq<byte>)
    requires Shaped(c)
    ensures var whole := LazyFrom(c, FIRST_RECENT, data, 0);
      Emitting(whole, [], c, FIRST_RECENT, data, 0) && Covers(whole, data, |data|)
  {
    var whole := LazyFrom(c, FIRST_RECENT, data, 0);
    assert whole == [] + whole;
    LazyCovers(c, FIRST_RECENT, data, 0, []);
  }

  // ------------------------------------------------------------ what the searches find

  /** A search at `pos` misses no near match: every earlier position in the window that agrees on
      three bytes, among the last 255 with its hash and no older than the newest of these inserted
      twice, is met by a match as near and as long. */
  ghost predicate Sees(c: Chain, data: seq<byte>, pos: nat)
    requires Shaped(c) && pos <= |data|
  {
    forall p :: 0 <= p < pos <= p + MAX_WINDOW && p + MIN_MATCH <= |data| && Close(c, data, p, pos) ==>
      Covered(Hits(c, data, pos), pos - p, CommonRun(data, p, pos, MaxLen(data, pos)))
  }

  ghost predicate Close(c: Chain, data: seq<byte>, p: nat, pos: nat)
    requires Shaped(c) && p < pos <= |data| && p + MIN_MATCH <= |data|
  {
    && CommonRun(data, p, pos, MaxLen(data, pos)) >= MIN_MATCH
    && Rank(data, HashAt(data, p), p, pos) < MAX_CHAIN && Straight(c, data, HashAt(data, p), p, pos)
  }

  /** The chain holds all positions before `pos`, and possibly `pos` itself, inserted once. */
  ghost predicate Ready(c: Chain, data: seq<byte>, pos: nat) {
    || Links(c, data, pos)
    || (pos + MIN_MATCH <= |data| && Links(c, data, pos + 1) && c.prev[pos % MAX_WINDOW] == Newest(data, HashAt(data, pos), pos))
  }

  lemma ReadyShaped(c: Chain, data: seq<byte>, pos: nat)
    requires Ready(c, data, pos)
    ensures Shaped(c)
  {
    hide HashAt, Newest;
  }

  lemma ReadySees(c: Chain, data: seq<byte>, pos: nat)
    requires Ready(c, data, pos) && pos <= |data| <= NO_POS
    ensures Shaped(c) && Sees(c, data, pos)
  {
    hide *;
    ReadyShaped(c, data, pos);
    forall p | 0 <= p < pos <= p + MAX_WINDOW && p + MIN_MATCH <= |data| && Close(c, data, p, pos)
      ensures Covered(Hits(c, data, pos), pos - p, CommonRun(data, p, pos, MaxLen(data, pos)))
    {
      CloseSeen(c, data, p, pos);
    }
    SeesAll(c, data, pos);
  }

  lemma SeesAll(c: Chain, data: seq<byte>, pos: nat)
    requires Shaped(c) && pos <= |data|
    requires forall p :: 0 <= p < pos <= p + MAX_WINDOW && p + MIN_MATCH <= |data| && Close(c, data, p, pos) ==>
      Covered(Hits(c, data, pos), pos - p, CommonRun(data, p, pos, MaxLen(data, pos)))
    ensures Sees(c, data, pos)
  {
  }

  lemma CloseSeen(c: Chain, data: seq<byte>, p: nat, pos: nat)
    requires Shaped(c) && Ready(c, data, pos) && pos <= |data| <= NO_POS
    requires p < pos <= p + MAX_WINDOW && p + MIN_MATCH <= |data| && Close(c, data, p, pos)
    ensures Covered(Hits(c, data, pos), pos - p, CommonRun(data, p, pos, MaxLen(data, pos)))
  {
    hide HashAt, Newest, Links, Hits, CommonRun, Covered;
    var h := HashAt(data, p);
    if Links(c, data, pos) {
      NearMatchLinked(c, data, pos, pos, p);
    } else {
      NewestEarlier(data, HashAt(data, pos), pos);
      SameHash(data, p, pos);
      assert Straight(c, data, h, p, pos + 1);
      assert Rank(data, h, p, pos + 1) <= Rank(data, h, p, pos) + 1;
      NearMatchLinked(c, data, pos, pos + 1, p);
    }
  }

  /** Every search of the encoder from `pos` on sees what is near. */
  ghost predicate Watchful(c: Chain, recent: Recent, data: seq<byte>, pos: nat)
    requires Shaped(c) && pos <= |data|
    decreases |data| - pos
  {
    pos < |data| ==>
      var here, r := LinkedAt(c, data, pos), Lazy(c, recent, data, pos);
      && Sees(c, data, pos) && Sees(here, data, pos + 1)
      && (pos + 2 <= |data| ==> Sees(LinkedAt(here, data, pos + 1), data, pos + 2))
      && Watchful(r.chain, r.recent, data, r.pos)
  }

  /** After an insertion all positions up to `pos` are there, `pos` for the first or second time. */
  lemma ReadyLinked(c: Chain, data: seq<byte>, pos: nat)
    requires Ready(c, data, pos) && pos < |data| <= NO_POS
    ensures Shaped(c) && Links(LinkedAt(c, data, pos), data, pos + 1)
  {
    hide HashAt, Newest, Links, LinkedAt;
    if Links(c, data, pos) {
      LinksNext(c, data, pos);
    } else {
      LinksAgain(c, data, pos);
    }
  }

  lemma LinksReady(c: Chain, data: seq<byte>, pos: nat)
    requires Links(c, data, pos)
    ensures Ready(c, data, pos)
  {
  }

  /** The next position may be in the chain already when the encoder comes to it. */
  lemma NextReady(c: Chain, data: seq<byte>, pos: nat)
    requires Links(c, data, pos) && pos < |data| <= NO_POS
    ensures Shaped(c) && Ready(LinkedAt(c, data, pos), data, pos)
  {
    hide HashAt, Newest, Links;
    LinksNext(c, data, pos);
  }

  lemma RoundReady(c: Chain, recent: Recent, data: seq<byte>, pos: nat)
    requires Shaped(c) && Ready(c, data, pos) && pos < |data| <= NO_POS
    ensures var r := Lazy(c, recent, data, pos); Ready(r.chain, data, r.pos)
  {
    hide Ready, Links, LinkedAt, Best, Used, LinkedRange, Ahead;
    ReadyLinked(c, data, pos);
    var here, r := LinkedAt(c, data, pos), Lazy(c, recent, data, pos);
    LinksReady(here, data, pos + 1);
    if pos + MIN_MATCH > |data| {
      NotLinked(c, data, pos);
    } else if r.tokens[0].Match? {
      LinksRange(here, data, pos + 1, r.pos);
      LinksReady(r.chain, data, r.pos);
    } else if r.pos == pos + 2 {
      LinksNext(here, data, pos + 1);
      LinksReady(LinkedAt(here, data, pos + 1), data, pos + 2);
    } else if pos + 1 < |data| {
      NextReady(here, data, pos + 1);
    }
  }

  lemma NotLinked(c: Chain, data: seq<byte>, pos: nat)
    requires Shaped(c) && pos + MIN_MATCH > |data|
    ensures LinkedAt(c, data, pos) == c
  {
  }

  /** A chain that holds what was passed goes on doing so, round by round, although looking ahead
      inserts positions that are inserted again: no search misses what is near. */
  lemma {:induction false} LazyWatchful(c: Chain, recent: Recent, data: seq<byte>, pos: nat)
    requires Shaped(c) && Ready(c, data, pos) && pos <= |data| <= NO_POS
    ensures Watchful(c, recent, data, pos)
    decreases |data| - pos
  {
    hide Ready, Links, LinkedAt, Sees, Lazy;
    if pos < |data| {
      ReadySees(c, data, pos);
      ReadyLinked(c, data, pos);
      var here, r := LinkedAt(c, data, pos), Lazy(c, recent, data, pos);
      LinksReady(here, data, pos + 1);
      ReadySees(here, data, pos + 1);
      if pos + 2 <= |data| {
        LinksNext(here, data, pos + 1);
        LinksReady(LinkedAt(here, data, pos + 1), data, pos + 2);
        ReadySees(LinkedAt(here, data, pos + 1), data, pos + 2);
      }
      RoundReady(c, recent, data, pos);
      LazyWatchful(r.chain, r.recent, data, r.pos);
    }
  }

  /** A new encoder, over the whole of the data. */
  lemma AllSeen(data: seq<byte>)
    requires |data| <= NO_POS
    ensures Watchful(EmptyChain(), FIRST_RECENT, data, 0)
  {
    hide Watchful, Links;
    LinksNothing(data);
    LinksReady(EmptyChain(), data, 0);
    LazyWatchful(EmptyChain(), FIRST_RECENT, data, 0);
  }

  /** In particular the newest earlier position with the same three bytes is always met, by a match
      as long as it gives. */
  lemma NewestSeen(c: Chain, data: seq<byte>, pos: nat)
    requires Shaped(c) && pos + MIN_MATCH <= |data| <= NO_POS && Sees(c, data, pos)
    requires var p := Newest(data, HashAt(data, pos), pos);
      p != NO_POS && p < pos <= p + MAX_WINDOW && CommonRun(data, p, pos, MaxLen(data, pos)) >= MIN_MATCH
    ensures var p := Newest(data, HashAt(data, pos), pos);
      p < pos && Covered(Hits(c, data, pos), pos - p, CommonRun(data, p, pos, MaxLen(data, pos)))
  {
    hide *;
    var h := HashAt(data, pos);
    var p := Newest(data, h, pos);
    SameHash(data, p, pos);
    NoneAfterNewest(data, h, pos, pos);
    NewestClose(c, data, p, pos);
    SeesAt(c, data, p, pos);
  }

  lemma NewestClose(c: Chain, data: seq<byte>, p: nat, pos: nat)
    requires Shaped(c) && p < pos <= |data| && p + MIN_MATCH <= |data|
    requires CommonRun(data, p, pos, MaxLen(data, pos)) >= MIN_MATCH && Rank(data, HashAt(data, p), p, pos) == 1
    requires forall q :: p < q < pos ==> !Hashed(data, q, HashAt(data, p))
    ensures Close(c, data, p, pos)
  {
    hide HashAt, Hashed, CommonRun, Rank;
  }

  lemma SeesAt(c: Chain, data: seq<byte>, p: nat, pos: nat)
    requires Shaped(c) && pos <= |data| && Sees(c, data, pos)
    requires p < pos <= p + MAX_WINDOW && p + MIN_MATCH <= |data| && Close(c, data, p, pos)
    ensures Covered(Hits(c, data, pos), pos - p, CommonRun(data, p, pos, MaxLen(data, pos)))
  {
    hide Close, Hits, CommonRun, Covered;
  }

  /** Nothing of that hash lies between, so the newest has rank one. */
  lemma {:induction false} NoneAfterNewest(data: seq<byte>, h: nat, pos: nat, n: nat)
    requires n <= pos <= |data| <= NO_POS && Newest(data, h, n) == Newest(data, h, pos) != NO_POS
    requires forall q :: n <= q < pos ==> !Hashed(data, q, h)
    ensures var p := Newest(data, h, pos);
      p < n && Rank(data, h, p, n) == 1 && forall q :: p < q < pos ==> !Hashed(data, q, h)
    decreases n
  {
    hide Hashed;
    if n > 0 && !Hashed(data, n - 1, h) {
      NoneAfterNewest(data, h, pos, n - 1);
    }
  }

  method UpdateMru(mru: MruCache, offset: nat)
    modifies mru
    ensures mru.recent == Used(old(mru.recent), offset)
  {
    hide Promoted, Inserted;
    var i := Found(mru.recent, offset);
    if i.Some? {
      mru.Promote(i.value);
    } else {
      mru.Insert(offset);
    }
  }

  /** The two steps of looking ahead; the next position is inserted only on the way to the second. */
  method LookAhead(chain: HashChain, data: seq<byte>, pos: nat, recent: Recent, length: nat) returns (skip: nat)
    requires chain.Valid() && pos < |data|
    modifies chain.head, chain.prev
    ensures skip == Ahead(old(chain.View()), recent, data, pos, length)
    ensures chain.View() == if skip == 0 then old(chain.View()) else LinkedAt(old(chain.View()), data, pos + 1)
  {
    hide Best, LinkedAt, HashChain.View;
    var next1 := BestAt(chain, data, pos + 1, recent);
    if next1.None? || next1.value.length <= length {
      return 0;
    }
    InsertAt(chain, data, pos + 1);
    var next2 := BestAt(chain, data, pos + 2, recent);
    skip := if next2.Some? && next2.value.length > next1.value.length then 2 else 1;
  }

  /** One round where three bytes are left: find, insert, look ahead, emit. */
  method EncodeRound(chain: HashChain, mru: MruCache, data: seq<byte>, pos: nat) returns (emitted: seq<Token>, end: nat)
    requires chain.Valid() && pos + MIN_MATCH <= |data|
    modifies chain.head, chain.prev, mru
    ensures Round(emitted, chain.View(), mru.recent, end) == Lazy(old(chain.View()), old(mru.recent), data, pos)
  {
    hide Best, LinkedAt, LinkedRange, Used, Ahead, HashChain.View;
    var current := BestAt(chain, data, pos, mru.recent);
    InsertAt(chain, data, pos);
    if current.None? {
      return [Literal(data[pos])], pos + 1;
    }
    var Pick(offset, length, _) := current.value;
    var skip := LookAhead(chain, data, pos, mru.recent, length);
    if skip == 0 {
      UpdateMru(mru, offset);
      InsertCovered(chain, data, pos + 1, pos + length);
      emitted, end := [Match(offset, length)], pos + length;
    } else {
      emitted, end := [Literal(data[pos])], pos + skip;
      if skip == 2 {
        emitted := emitted + [Literal(data[pos + 1])];
      }
    }
  }

  /** `encode`: for any chain left by earlier calls, tokens that stand for the data. */
  method Encode(chain: HashChain, data: seq<byte>) returns (tokens: seq<Token>)
    requires chain.Valid()
    modifies chain.head, chain.prev
    ensures tokens == LazyFrom(old(chain.View()), FIRST_RECENT, data, 0)
    ensures Covers(tokens, data, |data|)
  {
    EmittingStart(chain.View(), data);
    hide Covers, Emitting, HashChain.View, Best, LinkedAt, Taken, LazyFrom;
    tokens := [];
    var pos := 0;
    var mru := new MruCache();
    ghost var whole := LazyFrom(chain.View(), FIRST_RECENT, data, 0);
    while pos < |data|
      invariant 0 <= pos <= |data| && Emitting(whole, tokens, chain.View(), mru.recent, data, pos)
      decreases |data| - pos
    {
      RoundEmits(whole, tokens, chain.View(), mru.recent, data, pos);
      if pos + MIN_MATCH > |data| {
        assert Lazy(chain.View(), mru.recent, data, pos) == Round([Literal(data[pos])], chain.View(), mru.recent, pos + 1);
        tokens := tokens + [Literal(data[pos])];
        pos := pos + 1;
      } else {
        var emitted, end := EncodeRound(chain, mru, data, pos);
        tokens, pos := tokens + emitted, end;
      }
    }
    EmittingEnd(whole, tokens, chain.View(), mru.recent, data, pos);
  }

  lemma NothingCovered(data: seq<byte>)
    ensures Covers([], data, 0)
  {
  }

  lemma UsableFacts(data: seq<byte>, p: nat, offset: nat, len: nat)
    requires Usable(data, p, offset, len)
    ensures p + len <= |data| && len >= MIN_MATCH && offset <= MAX_WINDOW
  {
  }

  /** Encode, then decode under a limit. */
  method RoundTrip(chain: HashChain, data: seq<byte>, limit: nat) returns (r: Outcome)
    requires chain.Valid()
    modifies chain.head, chain.prev
    ensures r == if |data| <= limit then Data(data) else TooLarge(limit)
  {
    var tokens := Encode(chain, data);
    assert data[..|data|] == data;
    DecodeIsMeaning(tokens, data, limit);
    r := Decode(tokens, limit);
  }
}
