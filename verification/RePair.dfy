/** Re-Pair compression: replace a most frequent pair by a new symbol, again and again. */
module RePair {
  import opened Bytes
  import opened Sequences
  import opened Grammar

  // ------------------------------------------------------------ what every round keeps

  function Symbols(input: seq<byte>): (s: seq<nat>)
    ensures |s| == |input| && forall k :: 0 <= k < |s| ==> s[k] == input[k]
  {
    seq<nat>(|input|, k requires 0 <= k < |input| => input[k])
  }

  /** The sequence still means the input, no rule's pair is left in it, no two rules
      share a pair, and every rule has paid for itself. */
  ghost predicate Keeps(input: seq<byte>, rules: seq<Rule>, s: seq<nat>) {
    && OlderOnly(rules) && Known(rules, s)
    && ExpandAll(rules, s) == input
    && (forall i :: 0 <= i < |rules| ==> Absent(s, rules[i].left, rules[i].right))
    && (forall i, j :: 0 <= i < j < |rules| ==> rules[i] != rules[j])
    && |s| + |rules| <= |input|
  }

  lemma {:induction false} SymbolsMean(input: seq<byte>)
    ensures Known([], Symbols(input)) && ExpandAll([], Symbols(input)) == input
  {
    if input != [] {
      SymbolsMean(input[1..]);
      assert Symbols(input)[1..] == Symbols(input[1..]);
    }
  }

  lemma KeepsStep(input: seq<byte>, rules: seq<Rule>, s: seq<nat>, l: nat, r: nat)
    requires Keeps(input, rules, s) && PairCount(s, l, r) > 0
    ensures l < TERMINALS + |rules| && r < TERMINALS + |rules|
    ensures Keeps(input, rules + [Rule(l, r)], Replaced(s, l, r, TERMINALS + |rules|))
    ensures |Replaced(s, l, r, TERMINALS + |rules|)| < |s|
  {
    hide ExpandAll, Replaced, PairCount;
    CountedPair(s, l, r);
    var k :| 0 <= k < |s| - 1 && s[k] == l && s[k + 1] == r;
    var sym := TERMINALS + |rules|;
    ReplacedExpands(rules, s, l, r);
    ReplacedShorter(s, l, r, sym);
    var more, t := rules + [Rule(l, r)], Replaced(s, l, r, sym);
    forall i | 0 <= i < |more| ensures Absent(t, more[i].left, more[i].right) {
      if i < |rules| {
        assert more[i] == rules[i];
      }
      ReplacedAbsent(s, l, r, sym, more[i].left, more[i].right);
    }
  }

  /** Each symbol of the buffer read goes to the other one, the pair as one. */
  method Replace(src: seq<nat>, l: nat, r: nat, sym: nat) returns (dst: seq<nat>)
    ensures dst == Replaced(src, l, r, sym)
  {
    dst := [];
    var i := 0;
    while i < |src|
      invariant 0 <= i <= |src|
      invariant dst + Replaced(src[i..], l, r, sym) == Replaced(src, l, r, sym)
      decreases |src| - i
    {
      var rest := src[i..];
      if i + 1 < |src| && src[i] == l && src[i + 1] == r {
        assert rest[2..] == src[i + 2..];
        assert dst + Replaced(rest, l, r, sym) == (dst + [sym]) + Replaced(rest[2..], l, r, sym);
        dst := dst + [sym];
        i := i + 2;
      } else {
        assert rest[1..] == src[i + 1..];
        assert dst + Replaced(rest, l, r, sym) == (dst + [src[i]]) + Replaced(rest[1..], l, r, sym);
        dst := dst + [src[i]];
        i := i + 1;
      }
    }
  }

  function AtLeastTwo(minFreq: nat): (m: nat)
    ensures m >= 2 && m >= minFreq
  {
    if minFreq < 2 then 2 else minFreq
  }

  // ------------------------------------------------------------ the greedy choice

  /** The sequence after the rules, each replacing its pair everywhere. */
  function After(s: seq<nat>, rules: seq<Rule>): (t: seq<nat>)
    decreases |rules|
  {
    if rules == [] then s
    else
      var k := |rules| - 1;
      Replaced(After(s, rules[..k]), rules[k].left, rules[k].right, TERMINALS + k)
  }

  /** How the encoders break ties between equally frequent pairs: the first in the packed
      table, or the largest key of the heap. */
  datatype Ties = LowestPair | HighestPair

  predicate Precedes(a: Rule, b: Rule) {
    a.left < b.left || (a.left == b.left && a.right < b.right)
  }

  /** A most frequent pair, and of those the one the ties ask for. */
  ghost predicate IsTop(s: seq<nat>, best: Rule, ties: Ties) {
    forall l: nat, r: nat ::
      PairCount(s, l, r) <= PairCount(s, best.left, best.right)
      && (PairCount(s, l, r) == PairCount(s, best.left, best.right) ==>
            !(if ties.LowestPair? then Precedes(Rule(l, r), best) else Precedes(best, Rule(l, r))))
  }

  /** Every rule replaced a most frequent pair of what the rules before it left. */
  ghost predicate Greedy(s: seq<nat>, rules: seq<Rule>, least: nat, ties: Ties) {
    forall k :: 0 <= k < |rules| ==> GreedyAt(s, rules, k, least, ties)
  }

  ghost predicate GreedyAt(s: seq<nat>, rules: seq<Rule>, k: nat, least: nat, ties: Ties)
    requires k < |rules|
  {
    var t := After(s, rules[..k]);
    PairCount(t, rules[k].left, rules[k].right) >= least && IsTop(t, rules[k], ties)
  }

  lemma GreedyNext(s: seq<nat>, rules: seq<Rule>, least: nat, ties: Ties, best: Rule)
    requires Greedy(s, rules, least, ties)
    requires PairCount(After(s, rules), best.left, best.right) >= least && IsTop(After(s, rules), best, ties)
    ensures Greedy(s, rules + [best], least, ties)
    ensures After(s, rules + [best]) == Replaced(After(s, rules), best.left, best.right, TERMINALS + |rules|)
  {
    hide IsTop, PairCount, Replaced;
    var more := rules + [best];
    assert more[..|rules|] == rules;
    forall k | 0 <= k < |more| ensures GreedyAt(s, more, k, least, ties) {
      if k < |rules| {
        assert GreedyAt(s, rules, k, least, ties);
        assert more[..k] == rules[..k];
      }
    }
  }

  /** The input and the number of rounds settle the grammar. */
  lemma {:induction false} GreedyUnique(s: seq<nat>, a: seq<Rule>, b: seq<Rule>, least: nat, ties: Ties)
    requires Greedy(s, a, least, ties) && Greedy(s, b, least, ties) && |a| == |b|
    ensures a == b
    decreases |a|
  {
    hide PairCount, After;
    if a != [] {
      var k := |a| - 1;
      GreedyFront(s, a, least, ties);
      GreedyFront(s, b, least, ties);
      GreedyUnique(s, a[..k], b[..k], least, ties);
      assert GreedyAt(s, a, k, least, ties) && GreedyAt(s, b, k, least, ties);
      OneTop(After(s, a[..k]), a[k], b[k], ties);
      assert a == a[..k] + [a[k]] && b == b[..k] + [b[k]];
    }
  }

  lemma GreedyFront(s: seq<nat>, rules: seq<Rule>, least: nat, ties: Ties)
    requires rules != [] && Greedy(s, rules, least, ties)
    ensures Greedy(s, rules[..|rules| - 1], least, ties)
  {
    hide IsTop, PairCount, After;
    var front := rules[..|rules| - 1];
    forall k | 0 <= k < |front| ensures GreedyAt(s, front, k, least, ties) {
      assert GreedyAt(s, rules, k, least, ties);
      assert front[..k] == rules[..k];
    }
  }

  lemma OneTop(s: seq<nat>, a: Rule, b: Rule, ties: Ties)
    requires IsTop(s, a, ties) && IsTop(s, b, ties)
    ensures a == b
  {
    hide PairCount;
    assert PairCount(s, a.left, a.right) <= PairCount(s, b.left, b.right);
    assert PairCount(s, b.left, b.right) <= PairCount(s, a.left, a.right);
  }

  /** Nothing was left to gain. */
  ghost predicate Exhausted(s: seq<nat>, minFreq: nat) {
    forall l: nat, r: nat :: PairCount(s, l, r) < minFreq
  }

  // ------------------------------------------------------------ the flat table

  const SIDE: nat := 512

  ghost predicate IsTable(freq: seq<nat>, s: seq<nat>) {
    |freq| == SIDE * SIDE && forall i :: 0 <= i < SIDE * SIDE ==> freq[i] == PairCount(s, i / SIDE, i % SIDE)
  }

  lemma {:induction false} CountBounded(s: seq<nat>, l: nat, r: nat)
    requires l >= SIDE || r >= SIDE
    requires forall k :: 0 <= k < |s| ==> s[k] < SIDE
    ensures PairCount(s, l, r) == 0
  {
    if |s| >= 2 {
      CountBounded(s[..|s| - 1], l, r);
    }
  }

  /** Ids below 512 pack into 18 bits without collision. */
  lemma PackedPair(a: nat, b: nat)
    requires a < SIDE && b < SIDE
    ensures a * SIDE + b < SIDE * SIDE
    ensures (a * SIDE + b) / SIDE == a && (a * SIDE + b) % SIDE == b
  {
  }

  method CountPairs(freq: array<nat>, s: seq<nat>)
    requires freq.Length == SIDE * SIDE && forall k :: 0 <= k < |s| ==> s[k] < SIDE
    modifies freq
    ensures IsTable(freq[..], s)
  {
    for i := 0 to freq.Length
      invariant forall j :: 0 <= j < i ==> freq[j] == 0
    {
      freq[i] := 0;
    }
    if |s| < 2 {
      return;
    }
    CountsEmpty(s);
    for i := 0 to |s| - 1
      invariant IsTable(freq[..], s[..i + 1])
    {
      CountNext(s, i, freq[..]);
      PackedPair(s[i], s[i + 1]);
      freq[s[i] * SIDE + s[i + 1]] := freq[s[i] * SIDE + s[i + 1]] + 1;
    }
    assert s[..|s|] == s;
  }

  lemma CountsEmpty(s: seq<nat>)
    requires |s| >= 1
    ensures forall l: nat, r: nat :: PairCount(s[..1], l, r) == 0
  {
  }

  lemma CountNext(s: seq<nat>, i: nat, freq: seq<nat>)
    requires i + 1 < |s| && s[i] < SIDE && s[i + 1] < SIDE && IsTable(freq, s[..i + 1])
    ensures s[i] * SIDE + s[i + 1] < SIDE * SIDE
    ensures IsTable(freq[s[i] * SIDE + s[i + 1] := freq[s[i] * SIDE + s[i + 1]] + 1], s[..i + 2])
  {
    PackedPair(s[i], s[i + 1]);
    var at := s[i] * SIDE + s[i + 1];
    var after := freq[at := freq[at] + 1];
    var t := s[..i + 2];
    assert t[..i + 1] == s[..i + 1];
    forall j | 0 <= j < SIDE * SIDE ensures after[j] == PairCount(t, j / SIDE, j % SIDE) {
      assert j == SIDE * (j / SIDE) + j % SIDE;
      assert freq[j] == PairCount(s[..i + 1], j / SIDE, j % SIDE);
    }
  }

  method MostFrequent(freq: array<nat>, ghost s: seq<nat>) returns (best: nat, l: nat, r: nat)
    requires IsTable(freq[..], s) && forall k :: 0 <= k < |s| ==> s[k] < SIDE
    ensures l < SIDE && r < SIDE && (best > 0 ==> best == PairCount(s, l, r) && IsTop(s, Rule(l, r), LowestPair))
    ensures forall a: nat, b: nat :: PairCount(s, a, b) <= best
  {
    var at: nat := 0;
    best := 0;
    for i: int := 0 to freq.Length
      invariant at < freq.Length && at <= i && (best > 0 ==> best == freq[at])
      invariant forall j :: 0 <= j < i ==> freq[j] <= best && (j < at ==> freq[j] < best)
    {
      if freq[i] > best {
        best, at := freq[i], i;
      }
    }
    l, r := at / SIDE, at % SIDE;
    forall a: nat, b: nat ensures PairCount(s, a, b) <= best {
      if a < SIDE && b < SIDE {
        PackedPair(a, b);
        assert freq[..][a * SIDE + b] <= best;
      } else {
        CountBounded(s, a, b);
      }
    }
    assert freq[..][at] == PairCount(s, l, r);
    if best > 0 {
      forall a: nat, b: nat | PairCount(s, a, b) == best ensures !Precedes(Rule(a, b), Rule(l, r)) {
        if a < SIDE && b < SIDE {
          PackedPair(a, b);
          assert freq[..][a * SIDE + b] == best;
        } else {
          CountBounded(s, a, b);
        }
      }
    }
  }

  /** `rounds` is how many rounds the clock allows. */
  method EncodeFast(input: seq<byte>, minFreq: nat, rounds: nat) returns (r: Result<Repaired>)
    ensures input == [] ==> r == Err(EmptyInput)
    ensures |input| > MAX_INPUT ==> r == Err(InputTooLarge(|input|))
    ensures 0 < |input| <= MAX_INPUT ==>
      && r.Ok? && r.value.originalLen == |input|
      && Keeps(input, r.value.rules, r.value.sequence) && |r.value.rules| <= MAX_RULES && |r.value.rules| <= rounds
      && Greedy(Symbols(input), r.value.rules, AtLeastTwo(minFreq), LowestPair)
      && r.value.sequence == After(Symbols(input), r.value.rules)
      && (|r.value.rules| < MAX_RULES && |r.value.rules| < rounds ==> Exhausted(r.value.sequence, AtLeastTwo(minFreq)))
  {
    hide PairCount, ExpandAll, Replaced, Absent, IsTop, GreedyAt;
    if input == [] {
      return Err(EmptyInput);
    }
    if |input| > MAX_INPUT {
      return Err(InputTooLarge(|input|));
    }
    var s: seq<nat> := Symbols(input);
    var rules: seq<Rule> := [];
    SymbolsMean(input);
    var freq := new nat[SIDE * SIDE];
    CountPairs(freq, s);
    var least := AtLeastTwo(minFreq);
    while |rules| < MAX_RULES && |rules| < rounds
      invariant Keeps(input, rules, s) && |rules| <= MAX_RULES && |rules| <= rounds && IsTable(freq[..], s)
      invariant Greedy(Symbols(input), rules, least, LowestPair) && s == After(Symbols(input), rules)
      decreases MAX_RULES - |rules|
    {
      var best, left, right := MostFrequent(freq, s);
      if best < least {
        break;
      }
      KeepsStep(input, rules, s, left, right);
      GreedyNext(Symbols(input), rules, least, LowestPair, Rule(left, right));
      s := Replace(s, left, right, TERMINALS + |rules|);
      rules := rules + [Rule(left, right)];
      CountPairs(freq, s);
    }
    return Ok(Repaired(rules, s, |input|));
  }

  // ------------------------------------------------------------ the heap of pairs

  /** The counts of the pairs that occur, as the map holds them. */
  ghost predicate IsMap(freq: map<(nat, nat), nat>, s: seq<nat>) {
    forall l: nat, r: nat ::
      if (l, r) in freq then freq[(l, r)] == PairCount(s, l, r) > 0 else PairCount(s, l, r) == 0
  }

  method MapPairs(s: seq<nat>) returns (freq: map<(nat, nat), nat>)
    ensures IsMap(freq, s)
  {
    freq := map[];
    if |s| < 2 {
      return;
    }
    for i := 0 to |s| - 1
      invariant IsMap(freq, s[..i + 1])
    {
      var key := (s[i], s[i + 1]);
      assert s[..i + 2][..i + 1] == s[..i + 1];
      freq := freq[key := (if key in freq then freq[key] else 0) + 1];
    }
    assert s[..|s|] == s;
  }

  predicate Above(f: nat, key: (nat, nat), g: nat, other: (nat, nat)) {
    f > g || (f == g && (key.0 > other.0 || (key.0 == other.0 && key.1 >= other.1)))
  }

  /** The heap's top: the largest count, ties to the largest packed pair. No entry is
      stale, since the heap is rebuilt with the counts after every round. */
  method PopTop(freq: map<(nat, nat), nat>, least: nat) returns (top: Option<(nat, nat)>)
    ensures top.None? ==> forall key :: key in freq ==> freq[key] < least
    ensures top.Some? ==> top.value in freq && freq[top.value] >= least
    ensures top.Some? ==> forall key :: key in freq ==> Above(freq[top.value], top.value, freq[key], key)
  {
    top := None;
    var keys := freq.Keys;
    while keys != {}
      invariant keys <= freq.Keys
      invariant top.None? ==> forall key :: key in freq && key !in keys ==> freq[key] < least
      invariant top.Some? ==> top.value in freq && freq[top.value] >= least
      invariant top.Some? ==> forall key :: key in freq && key !in keys ==> Above(freq[top.value], top.value, freq[key], key)
      decreases |keys|
    {
      var key :| key in keys;
      keys := keys - {key};
      if freq[key] >= least && (top.None? || Above(freq[key], key, freq[top.value], top.value)) {
        top := Some(key);
      }
    }
  }

  const STALL_WINDOW: nat := 10

  /** Windows in a row that shrank the sequence by less than one part in a hundred, and its
      length at the last check. */
  function Stalls(s: seq<nat>, rules: seq<Rule>): (state: (nat, nat))
    decreases |rules|
  {
    if rules == [] then (0, |s|)
    else NextStalls(Stalls(s, rules[..|rules| - 1]), |rules|, |After(s, rules)|)
  }

  function NextStalls(state: (nat, nat), rules: nat, length: nat): (nat, nat) {
    if rules % STALL_WINDOW == 0 && rules > STALL_WINDOW then (if Shrunk(state.1, length) then 0 else state.0 + 1, length)
    else state
  }

  predicate Shrunk(prevLen: nat, length: nat) {
    prevLen > length && 100 * (prevLen - length) / prevLen >= 1
  }

  /** What every round of the heap-based encoder keeps. */
  ghost predicate Steady(input: seq<byte>, rules: seq<Rule>, s: seq<nat>) {
    && Keeps(input, rules, s)
    && Greedy(Symbols(input), rules, 2, HighestPair) && s == After(Symbols(input), rules)
    && forall k :: 0 <= k < |rules| ==> Stalls(Symbols(input), rules[..k]).0 < 2
  }

  lemma SteadyStart(input: seq<byte>)
    ensures Steady(input, [], Symbols(input)) && Stalls(Symbols(input), []) == (0, |input|)
  {
    hide ExpandAll, GreedyAt, Shrunk;
    SymbolsMean(input);
  }

  lemma SteadyNext(input: seq<byte>, rules: seq<Rule>, s: seq<nat>, freq: map<(nat, nat), nat>, best: Rule)
    requires Steady(input, rules, s) && IsMap(freq, s) && Stalls(Symbols(input), rules).0 < 2
    requires (best.left, best.right) in freq && freq[(best.left, best.right)] >= 2
    requires forall key :: key in freq ==> Above(freq[(best.left, best.right)], (best.left, best.right), freq[key], key)
    ensures var more, t := rules + [best], Replaced(s, best.left, best.right, TERMINALS + |rules|);
      Steady(input, more, t) && Stalls(Symbols(input), more) == NextStalls(Stalls(Symbols(input), rules), |more|, |t|)
  {
    hide PairCount, ExpandAll, Replaced, Absent, Above, IsTop, Greedy, NextStalls, Stalls, Keeps;
    KeepsStep(input, rules, s, best.left, best.right);
    TopOfMap(freq, s, best);
    GreedyNext(Symbols(input), rules, 2, HighestPair, best);
    StallsNext(Symbols(input), rules, best);
  }

  method Encode(input: seq<byte>, rounds: nat) returns (r: Result<Repaired>)
    ensures input == [] ==> r == Err(EmptyInput)
    ensures |input| > MAX_INPUT ==> r == Err(InputTooLarge(|input|))
    ensures 0 < |input| <= MAX_INPUT ==>
      && r.Ok? && r.value.originalLen == |input|
      && Keeps(input, r.value.rules, r.value.sequence) && |r.value.rules| <= MAX_RULES && |r.value.rules| <= rounds
      && Greedy(Symbols(input), r.value.rules, 2, HighestPair)
      && r.value.sequence == After(Symbols(input), r.value.rules)
      && (forall k :: 0 <= k < |r.value.rules| ==> Stalls(Symbols(input), r.value.rules[..k]).0 < 2)
      && (|r.value.rules| < MAX_RULES && |r.value.rules| < rounds ==>
            Stalls(Symbols(input), r.value.rules).0 == 2 || Exhausted(r.value.sequence, 2))
  {
    hide PairCount, Replaced, Above, Shrunk, Steady, Stalls, After, IsMap, Exhausted, Keeps, Greedy;
    if input == [] {
      return Err(EmptyInput);
    }
    if |input| > MAX_INPUT {
      return Err(InputTooLarge(|input|));
    }
    var s: seq<nat> := Symbols(input);
    var rules: seq<Rule> := [];
    SteadyStart(input);
    var freq := MapPairs(s);
    var stalls, prevLen := 0, |s|;
    while |rules| < MAX_RULES && |rules| < rounds
      invariant Steady(input, rules, s) && |rules| <= MAX_RULES && |rules| <= rounds && IsMap(freq, s)
      invariant Stalls(Symbols(input), rules) == (stalls, prevLen) && stalls < 2
      decreases MAX_RULES - |rules|
    {
      var top := PopTop(freq, 2);
      if top.None? {
        NoneLeft(freq, s);
        break;
      }
      var l, r := top.value.0, top.value.1;
      SteadyNext(input, rules, s, freq, Rule(l, r));
      s := Replace(s, l, r, TERMINALS + |rules|);
      rules := rules + [Rule(l, r)];
      freq := MapPairs(s);
      if |rules| % STALL_WINDOW == 0 && |rules| > STALL_WINDOW {
        if !Shrunk(prevLen, |s|) {
          stalls := stalls + 1;
          if stalls >= 2 {
            break;
          }
        } else {
          stalls := 0;
        }
        prevLen := |s|;
      }
    }
    SteadyMeans(input, rules, s);
    return Ok(Repaired(rules, s, |input|));
  }

  lemma SteadyMeans(input: seq<byte>, rules: seq<Rule>, s: seq<nat>)
    requires Steady(input, rules, s)
    ensures Keeps(input, rules, s) && Greedy(Symbols(input), rules, 2, HighestPair) && s == After(Symbols(input), rules)
    ensures forall k :: 0 <= k < |rules| ==> Stalls(Symbols(input), rules[..k]).0 < 2
  {
    hide Keeps, Greedy, After, Stalls;
  }

  lemma NoneLeft(freq: map<(nat, nat), nat>, s: seq<nat>)
    requires IsMap(freq, s) && forall key :: key in freq ==> freq[key] < 2
    ensures Exhausted(s, 2)
  {
    hide PairCount;
    forall l: nat, r: nat ensures PairCount(s, l, r) < 2 {
      if (l, r) in freq {
        assert freq[(l, r)] == PairCount(s, l, r);
      }
    }
  }

  lemma TopOfMap(freq: map<(nat, nat), nat>, s: seq<nat>, best: Rule)
    requires IsMap(freq, s) && (best.left, best.right) in freq
    requires forall key :: key in freq ==> Above(freq[(best.left, best.right)], (best.left, best.right), freq[key], key)
    ensures IsTop(s, best, HighestPair)
  {
    hide PairCount;
    forall l: nat, r: nat
      ensures PairCount(s, l, r) <= PairCount(s, best.left, best.right)
      ensures PairCount(s, l, r) == PairCount(s, best.left, best.right) ==> !Precedes(best, Rule(l, r))
    {
      if (l, r) in freq {
        assert freq[(l, r)] == PairCount(s, l, r);
      }
    }
  }

  lemma StallsNext(s: seq<nat>, rules: seq<Rule>, best: Rule)
    ensures var more := rules + [best];
      && Stalls(s, more) == NextStalls(Stalls(s, rules), |more|, |After(s, more)|)
      && more[..|rules|] == rules && forall k :: 0 <= k < |rules| ==> more[..k] == rules[..k]
  {
    hide After, NextStalls;
    assert (rules + [best])[..|rules|] == rules;
  }

  // ------------------------------------------------------------ stored form

  function PutWords(s: seq<nat>): (bytes: seq<byte>)
    ensures |bytes| == 4 * |s|
  {
    if s == [] then [] else PutWord(s[0]) + PutWords(s[1..])
  }

  function Flat(rules: seq<Rule>): (s: seq<nat>)
    ensures |s| == 2 * |rules|
  {
    if rules == [] then [] else [rules[0].left, rules[0].right] + Flat(rules[1..])
  }

  function Serialized(g: Repaired): seq<byte> {
    PutWord(g.originalLen) + PutWord(|g.rules|) + PutWord(|g.sequence|) + PutWords(Flat(g.rules)) + PutWords(g.sequence)
  }

  function WordAt(data: seq<byte>, k: nat): nat
    requires 4 * k + 4 <= |data|
  {
    GetWord(data[4 * k..4 * k + 4])
  }

  /** A stored result holds as many words as its header declares. */
  predicate Complete(data: seq<byte>) {
    |data| >= 12 ==> 4 * (3 + 2 * WordAt(data, 1) + WordAt(data, 2)) <= |data|
  }

  method Serialize(g: Repaired) returns (out: seq<byte>)
    ensures out == Serialized(g)
  {
    out := PutWord(g.originalLen) + PutWord(|g.rules|) + PutWord(|g.sequence|);
    for k := 0 to |g.rules|
      invariant out + PutWords(Flat(g.rules[k..])) + PutWords(g.sequence) == Serialized(g)
    {
      var rule := g.rules[k];
      FlatStep(g.rules, k);
      assert out + (PutWord(rule.left) + PutWord(rule.right) + PutWords(Flat(g.rules[k + 1..])))
          == (out + PutWord(rule.left) + PutWord(rule.right)) + PutWords(Flat(g.rules[k + 1..]));
      out := out + PutWord(rule.left) + PutWord(rule.right);
    }
    assert g.sequence[0..] == g.sequence;
    for k := 0 to |g.sequence|
      invariant out + PutWords(g.sequence[k..]) == Serialized(g)
    {
      assert g.sequence[k..][1..] == g.sequence[k + 1..];
      assert out + (PutWord(g.sequence[k]) + PutWords(g.sequence[k + 1..]))
          == (out + PutWord(g.sequence[k])) + PutWords(g.sequence[k + 1..]);
      out := out + PutWord(g.sequence[k]);
    }
  }

  lemma FlatStep(rules: seq<Rule>, k: nat)
    requires k < |rules|
    ensures PutWords(Flat(rules[k..])) == PutWord(rules[k].left) + PutWord(rules[k].right) + PutWords(Flat(rules[k + 1..]))
  {
    assert rules[k..][1..] == rules[k + 1..];
    var later := Flat(rules[k + 1..]);
    var s := [rules[k].left, rules[k].right] + later;
    assert Flat(rules[k..]) == s && s[1..] == [rules[k].right] + later && s[1..][1..] == later;
  }

  ghost predicate Declares(data: seq<byte>, g: Repaired)
    requires |data| >= 12 && Complete(data)
  {
    && g.originalLen == WordAt(data, 0)
    && |g.rules| == WordAt(data, 1) && |g.sequence| == WordAt(data, 2)
    && (forall k :: 0 <= k < |g.rules| ==> g.rules[k] == Rule(WordAt(data, 3 + 2 * k), WordAt(data, 4 + 2 * k)))
    && (forall k :: 0 <= k < |g.sequence| ==> g.sequence[k] == WordAt(data, 3 + 2 * |g.rules| + k))
  }

  method Deserialize(data: seq<byte>) returns (r: Result<Repaired>)
    requires Complete(data)
    ensures |data| < 12 ==> r == Err(EmptyInput)
    ensures |data| >= 12 ==> r.Ok? && Declares(data, r.value)
  {
    hide GetWord;
    if |data| < 12 {
      return Err(EmptyInput);
    }
    var originalLen, ruleCount, seqLen := WordAt(data, 0), WordAt(data, 1), WordAt(data, 2);
    var at := 3;
    var rules: seq<Rule> := [];
    for k := 0 to ruleCount
      invariant |rules| == k && at == 3 + 2 * k
      invariant forall j :: 0 <= j < k ==> rules[j] == Rule(WordAt(data, 3 + 2 * j), WordAt(data, 4 + 2 * j))
    {
      rules := rules + [Rule(WordAt(data, at), WordAt(data, at + 1))];
      at := at + 2;
    }
    var sequence: seq<nat> := [];
    for k := 0 to seqLen
      invariant |sequence| == k && at == 3 + 2 * ruleCount + k
      invariant forall j :: 0 <= j < k ==> sequence[j] == WordAt(data, 3 + 2 * ruleCount + j)
    {
      sequence := sequence + [WordAt(data, at)];
      at := at + 1;
    }
    return Ok(Repaired(rules, sequence, originalLen));
  }

  function Words(g: Repaired): seq<nat> {
    [g.originalLen, |g.rules|, |g.sequence|] + Flat(g.rules) + g.sequence
  }

  lemma {:induction false} PutWordsConcat(a: seq<nat>, b: seq<nat>)
    ensures PutWords(a + b) == PutWords(a) + PutWords(b)
  {
    if a == [] {
      assert a + b == b;
    } else {
      assert (a + b)[1..] == a[1..] + b;
      PutWordsConcat(a[1..], b);
    }
  }

  lemma {:induction false} PutWordsAt(s: seq<nat>, k: nat)
    requires k < |s| && s[k] < WORD
    ensures WordAt(PutWords(s), k) == s[k]
  {
    hide PutWord, GetWord;
    var data := PutWords(s);
    if k == 0 {
      assert data[0..4] == PutWord(s[0]);
      WordRoundTrip(s[0]);
    } else {
      PutWordsAt(s[1..], k - 1);
      assert data[4..] == PutWords(s[1..]);
      assert data[4 * k..4 * k + 4] == data[4..][4 * (k - 1)..4 * (k - 1) + 4];
    }
  }

  lemma {:induction false} FlatAt(rules: seq<Rule>, k: nat)
    requires k < |rules|
    ensures Flat(rules)[2 * k] == rules[k].left && Flat(rules)[2 * k + 1] == rules[k].right
  {
    if k > 0 {
      FlatAt(rules[1..], k - 1);
    }
  }

  lemma OneWord(v: nat)
    ensures PutWords([v]) == PutWord(v)
  {
  }

  lemma SerializedWords(g: Repaired)
    ensures Serialized(g) == PutWords(Words(g))
  {
    var head := [g.originalLen, |g.rules|, |g.sequence|];
    PutWordsConcat(head + Flat(g.rules), g.sequence);
    PutWordsConcat(head, Flat(g.rules));
    PutWordsConcat([g.originalLen], [|g.rules|]);
    PutWordsConcat([g.originalLen] + [|g.rules|], [|g.sequence|]);
    OneWord(g.originalLen);
    OneWord(|g.rules|);
    OneWord(|g.sequence|);
    assert head == [g.originalLen] + [|g.rules|] + [|g.sequence|];
    assert PutWords(head) == PutWord(g.originalLen) + PutWord(|g.rules|) + PutWord(|g.sequence|);
  }

  ghost predicate FitsWords(g: Repaired) {
    forall k :: 0 <= k < |Words(g)| ==> Words(g)[k] < WORD
  }

  lemma StoredWords(g: Repaired)
    requires FitsWords(g)
    ensures |Serialized(g)| == 4 * |Words(g)|
    ensures forall k :: 0 <= k < |Words(g)| ==> WordAt(Serialized(g), k) == Words(g)[k]
  {
    SerializedWords(g);
    forall k | 0 <= k < |Words(g)| ensures WordAt(Serialized(g), k) == Words(g)[k] {
      PutWordsAt(Words(g), k);
    }
  }

  lemma KeptFits(input: seq<byte>, g: Repaired)
    requires |input| <= MAX_INPUT && g.originalLen == |input| && Keeps(input, g.rules, g.sequence) && |g.rules| <= MAX_RULES
    ensures FitsWords(g)
  {
    hide ExpandAll, Absent;
    FlatKnown(g.rules);
  }

  lemma FlatKnown(rules: seq<Rule>)
    requires OlderOnly(rules)
    ensures forall k :: 0 <= k < |Flat(rules)| ==> Flat(rules)[k] < TERMINALS + |rules|
  {
    forall k | 0 <= k < |Flat(rules)| ensures Flat(rules)[k] < TERMINALS + |rules| {
      FlatAt(rules, k / 2);
      assert k == 2 * (k / 2) || k == 2 * (k / 2) + 1;
    }
  }

  /** Stored and read back, a result is the one that was stored. */
  method Reload(g: Repaired) returns (h: Result<Repaired>)
    requires FitsWords(g)
    ensures h == Ok(g)
  {
    hide WordAt, Serialized;
    var data := Serialize(g);
    StoredWords(g);
    ghost var w := Words(g);
    assert w[0] == g.originalLen && w[1] == |g.rules| && w[2] == |g.sequence|;
    assert WordAt(data, 1) == w[1] && WordAt(data, 2) == w[2] && WordAt(data, 0) == w[0];
    h := Deserialize(data);
    forall k | 0 <= k < |g.rules| ensures h.value.rules[k] == g.rules[k] {
      FlatAt(g.rules, k);
      assert w[3 + 2 * k] == Flat(g.rules)[2 * k] && w[4 + 2 * k] == Flat(g.rules)[2 * k + 1];
    }
    forall k | 0 <= k < |g.sequence| ensures h.value.sequence[k] == g.sequence[k] {
      assert w[3 + 2 * |g.rules| + k] == g.sequence[k];
    }
    assert h.value.rules == g.rules && h.value.sequence == g.sequence;
  }

  /** Through the stored form and back to the bytes, wherever either coder stopped. */
  method RoundTrip(input: seq<byte>, fast: bool, minFreq: nat, rounds: nat) returns (r: Result<seq<byte>>)
    ensures r == if input == [] then Err(EmptyInput)
                 else if |input| > MAX_INPUT then Err(InputTooLarge(|input|)) else Ok(input)
  {
    hide ExpandAll, Absent, FitsWords;
    var g: Result<Repaired>;
    if fast {
      g := EncodeFast(input, minFreq, rounds);
    } else {
      g := Encode(input, rounds);
    }
    if g.Err? {
      return Err(g.error);
    }
    KeptFits(input, g.value);
    var h := Reload(g.value);
    MeaningYields(h.value);
    var output := Decode(h.value, TERMINALS + |h.value.rules|);
    return Ok(output);
  }
}
