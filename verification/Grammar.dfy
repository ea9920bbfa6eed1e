/** Straight-line grammars: what the symbols of a Re-Pair result stand for. */
module Grammar {
  import opened Bytes
  import opened Sequences

  const TERMINALS: nat := 256
  const MAX_RULES: nat := 256
  const MAX_INPUT: nat := 100 * 1024 * 1024

  datatype Rule = Rule(left: nat, right: nat)

  datatype Repaired = Repaired(rules: seq<Rule>, sequence: seq<nat>, originalLen: nat)

  datatype RepairError = EmptyInput | InputTooLarge(size: nat)

  datatype Result<+T> = Ok(value: T) | Err(error: RepairError)

  /** Rule `i` introduces symbol 256 + i out of older symbols. */
  ghost predicate OlderOnly(rules: seq<Rule>) {
    forall i :: 0 <= i < |rules| ==> rules[i].left < TERMINALS + i && rules[i].right < TERMINALS + i
  }

  ghost predicate Known(rules: seq<Rule>, s: seq<nat>) {
    forall k :: 0 <= k < |s| ==> s[k] < TERMINALS + |rules|
  }

  ghost function Expand(rules: seq<Rule>, sym: nat): (bytes: seq<byte>)
    requires OlderOnly(rules) && sym < TERMINALS + |rules|
    ensures |bytes| > 0
    decreases sym
  {
    if sym < TERMINALS then [sym]
    else
      var rule := rules[sym - TERMINALS];
      Expand(rules, rule.left) + Expand(rules, rule.right)
  }

  ghost function ExpandAll(rules: seq<Rule>, s: seq<nat>): seq<byte>
    requires OlderOnly(rules) && Known(rules, s)
  {
    if s == [] then [] else Expand(rules, s[0]) + ExpandAll(rules, s[1..])
  }

  lemma {:induction false} ExpandStable(rules: seq<Rule>, rule: Rule, sym: nat)
    requires OlderOnly(rules + [rule]) && sym < TERMINALS + |rules|
    ensures OlderOnly(rules)
    ensures Expand(rules + [rule], sym) == Expand(rules, sym)
    decreases sym
  {
    PrefixOlder(rules, rule);
    if sym >= TERMINALS {
      ExpandStable(rules, rule, rules[sym - TERMINALS].left);
      ExpandStable(rules, rule, rules[sym - TERMINALS].right);
    }
  }

  lemma PrefixOlder(rules: seq<Rule>, rule: Rule)
    requires OlderOnly(rules + [rule])
    ensures OlderOnly(rules)
  {
    forall i | 0 <= i < |rules| ensures rules[i].left < TERMINALS + i && rules[i].right < TERMINALS + i {
      assert (rules + [rule])[i] == rules[i];
    }
  }

  // ------------------------------------------------------------ one replacement

  /** Every occurrence of the pair, found left to right without overlap, becomes `sym`. */
  function Replaced(s: seq<nat>, l: nat, r: nat, sym: nat): (t: seq<nat>)
    ensures |t| <= |s|
  {
    if s == [] then []
    else if |s| >= 2 && s[0] == l && s[1] == r then [sym] + Replaced(s[2..], l, r, sym)
    else [s[0]] + Replaced(s[1..], l, r, sym)
  }

  function PairCount(s: seq<nat>, l: nat, r: nat): nat {
    if |s| < 2 then 0
    else PairCount(s[..|s| - 1], l, r) + (if s[|s| - 2] == l && s[|s| - 1] == r then 1 else 0)
  }

  /** The pair stands nowhere in the sequence. */
  ghost predicate Absent(s: seq<nat>, l: nat, r: nat) {
    forall k :: 0 <= k < |s| - 1 ==> s[k] != l || s[k + 1] != r
  }

  lemma {:induction false} CountedPair(s: seq<nat>, l: nat, r: nat)
    ensures Absent(s, l, r) <==> PairCount(s, l, r) == 0
  {
    if |s| >= 2 {
      var n := |s| - 1;
      CountedPair(s[..n], l, r);
      assert Absent(s, l, r) <==> Absent(s[..n], l, r) && (s[n - 1] != l || s[n] != r) by {
        assert forall k :: 0 <= k < n ==> s[..n][k] == s[k];
      }
    }
  }

  /** The new rule says what the replacement took away. */
  lemma {:induction false} ReplacedExpands(rules: seq<Rule>, s: seq<nat>, l: nat, r: nat)
    requires OlderOnly(rules) && Known(rules, s) && l < TERMINALS + |rules| && r < TERMINALS + |rules|
    ensures OlderOnly(rules + [Rule(l, r)])
    ensures Known(rules + [Rule(l, r)], Replaced(s, l, r, TERMINALS + |rules|))
    ensures ExpandAll(rules + [Rule(l, r)], Replaced(s, l, r, TERMINALS + |rules|)) == ExpandAll(rules, s)
    decreases |s|
  {
    hide Expand, ExpandAll;
    var more, sym := rules + [Rule(l, r)], TERMINALS + |rules|;
    NewSymbol(rules, l, r);
    if s == [] {
      ExpandEmpty(rules);
      ExpandEmpty(more);
    } else if |s| >= 2 && s[0] == l && s[1] == r {
      ReplacedExpands(rules, s[2..], l, r);
      assert s == [l] + ([r] + s[2..]);
      ExpandCons(rules, l, [r] + s[2..]);
      ExpandCons(rules, r, s[2..]);
      ExpandCons(more, sym, Replaced(s[2..], l, r, sym));
    } else {
      ReplacedExpands(rules, s[1..], l, r);
      assert s == [s[0]] + s[1..];
      ExpandCons(rules, s[0], s[1..]);
      ExpandCons(more, s[0], Replaced(s[1..], l, r, sym));
      ExpandStable(rules, Rule(l, r), s[0]);
    }
  }

  lemma ExpandEmpty(rules: seq<Rule>)
    requires OlderOnly(rules)
    ensures ExpandAll(rules, []) == []
  {
  }

  lemma ExpandCons(rules: seq<Rule>, sym: nat, rest: seq<nat>)
    requires OlderOnly(rules) && sym < TERMINALS + |rules| && Known(rules, rest)
    ensures ExpandAll(rules, [sym] + rest) == Expand(rules, sym) + ExpandAll(rules, rest)
  {
    assert ([sym] + rest)[1..] == rest;
  }

  lemma NewSymbol(rules: seq<Rule>, l: nat, r: nat)
    requires OlderOnly(rules) && l < TERMINALS + |rules| && r < TERMINALS + |rules|
    ensures OlderOnly(rules + [Rule(l, r)])
    ensures Expand(rules + [Rule(l, r)], TERMINALS + |rules|) == Expand(rules, l) + Expand(rules, r)
  {
    ExpandStable(rules, Rule(l, r), l);
    ExpandStable(rules, Rule(l, r), r);
  }

  lemma {:induction false} ReplacedShorter(s: seq<nat>, l: nat, r: nat, sym: nat)
    requires !Absent(s, l, r)
    ensures |Replaced(s, l, r, sym)| < |s|
  {
    if !(s[0] == l && s[1] == r) {
      var k :| 0 <= k < |s| - 1 && s[k] == l && s[k + 1] == r;
      assert s[1..][k - 1] == l && s[1..][k] == r;
      ReplacedShorter(s[1..], l, r, sym);
    }
  }

  /** Replacing makes neighbours only with the new symbol: a pair absent before stays
      absent, and the replaced pair is gone. */
  lemma {:induction false} ReplacedAbsent(s: seq<nat>, l: nat, r: nat, sym: nat, a: nat, b: nat)
    requires a != sym && b != sym
    requires (a == l && b == r) || Absent(s, a, b)
    ensures Absent(Replaced(s, l, r, sym), a, b)
    decreases |s|
  {
    if s == [] {
    } else if |s| >= 2 && s[0] == l && s[1] == r {
      assert Absent(s, a, b) ==> Absent(s[2..], a, b) by {
        assert forall k :: 0 <= k < |s| - 2 ==> s[2..][k] == s[k + 2];
      }
      ReplacedAbsent(s[2..], l, r, sym, a, b);
    } else {
      assert Absent(s, a, b) ==> Absent(s[1..], a, b) by {
        assert forall k :: 0 <= k < |s| - 1 ==> s[1..][k] == s[k + 1];
      }
      ReplacedAbsent(s[1..], l, r, sym, a, b);
      var later := Replaced(s[1..], l, r, sym);
      assert later != [] ==> later[0] == s[1] || later[0] == sym;
    }
  }

  // ------------------------------------------------------------ decoding

  /** What a symbol stands for within `depth` rules below each other, and how many symbols
      that takes; none where a rule is missing or the depth does not reach. */
  ghost function Yield(rules: seq<Rule>, sym: nat, depth: nat): (y: Option<(seq<byte>, nat)>)
    ensures y.Some? ==> y.value.1 > 0
    decreases depth
  {
    if sym < TERMINALS then Some(([sym], 1))
    else if sym >= TERMINALS + |rules| || depth == 0 then None
    else
      var rule := rules[sym - TERMINALS];
      Both(Yield(rules, rule.left, depth - 1), Yield(rules, rule.right, depth - 1), 1)
  }

  ghost function Both(a: Option<(seq<byte>, nat)>, b: Option<(seq<byte>, nat)>, extra: nat): Option<(seq<byte>, nat)> {
    if a.None? || b.None? then None else Some((a.value.0 + b.value.0, extra + a.value.1 + b.value.1))
  }

  ghost function YieldAll(rules: seq<Rule>, s: seq<nat>, depth: nat): Option<(seq<byte>, nat)> {
    if s == [] then Some(([], 0)) else Both(Yield(rules, s[0], depth), YieldAll(rules, s[1..], depth), 0)
  }

  lemma {:induction false} Deeper(rules: seq<Rule>, sym: nat, depth: nat)
    requires Yield(rules, sym, depth).Some?
    ensures Yield(rules, sym, depth + 1) == Yield(rules, sym, depth)
    decreases depth
  {
    if sym >= TERMINALS {
      var rule := rules[sym - TERMINALS];
      Deeper(rules, rule.left, depth - 1);
      Deeper(rules, rule.right, depth - 1);
    }
  }

  /** Ranks that fall from every rule to its symbols: no rule leads back to itself. */
  ghost predicate Acyclic(rules: seq<Rule>, rank: seq<nat>) {
    |rank| == |rules| && forall i :: 0 <= i < |rules| ==>
      && rules[i].left < TERMINALS + |rules| && rules[i].right < TERMINALS + |rules|
      && RankOf(rank, rules[i].left) <= rank[i] && RankOf(rank, rules[i].right) <= rank[i]
  }

  /** One more than the rank of a rule's symbol, zero for a byte. */
  ghost function RankOf(rank: seq<nat>, sym: nat): nat
    requires sym < TERMINALS + |rank|
  {
    if sym < TERMINALS then 0 else 1 + rank[sym - TERMINALS]
  }

  /** Without cycles every symbol stands for something, whatever the order of the rules. */
  lemma {:induction false} AcyclicYields(rules: seq<Rule>, rank: seq<nat>, sym: nat, depth: nat)
    requires Acyclic(rules, rank) && sym < TERMINALS + |rules| && RankOf(rank, sym) <= depth
    ensures Yield(rules, sym, depth).Some?
    decreases depth
  {
    if sym >= TERMINALS {
      var rule := rules[sym - TERMINALS];
      AcyclicYields(rules, rank, rule.left, depth - 1);
      AcyclicYields(rules, rank, rule.right, depth - 1);
    }
  }

  /** Rules of older symbols yield what they expand to. */
  lemma {:induction false} OlderYields(rules: seq<Rule>, sym: nat, depth: nat)
    requires OlderOnly(rules) && sym < TERMINALS + |rules| && sym <= depth
    ensures Yield(rules, sym, depth).Some? && Yield(rules, sym, depth).value.0 == Expand(rules, sym)
    decreases depth
  {
    if sym >= TERMINALS {
      var rule := rules[sym - TERMINALS];
      OlderYields(rules, rule.left, depth - 1);
      OlderYields(rules, rule.right, depth - 1);
    }
  }

  lemma {:induction false} OlderYieldsAll(rules: seq<Rule>, s: seq<nat>, depth: nat)
    requires OlderOnly(rules) && Known(rules, s) && TERMINALS + |rules| <= depth
    ensures YieldAll(rules, s, depth).Some? && YieldAll(rules, s, depth).value.0 == ExpandAll(rules, s)
  {
    hide Yield, Expand;
    if s != [] {
      OlderYields(rules, s[0], depth);
      OlderYieldsAll(rules, s[1..], depth);
    }
  }

  ghost predicate WellFormed(g: Repaired) {
    OlderOnly(g.rules) && Known(g.rules, g.sequence)
  }

  ghost function Meaning(g: Repaired): seq<byte>
    requires WellFormed(g)
  {
    ExpandAll(g.rules, g.sequence)
  }

  lemma MeaningYields(g: Repaired)
    requires WellFormed(g)
    ensures var y := YieldAll(g.rules, g.sequence, TERMINALS + |g.rules|); y.Some? && y.value.0 == Meaning(g)
  {
    OlderYieldsAll(g.rules, g.sequence, TERMINALS + |g.rules|);
  }

  /** The stack holds what is still to expand, next symbol last. For any grammar under which
      the sequence stands for something within some depth; otherwise the program stops with
      an index error or does not stop. */
  method Decode(g: Repaired, ghost depth: nat) returns (output: seq<byte>)
    requires YieldAll(g.rules, g.sequence, depth).Some?
    ensures output == YieldAll(g.rules, g.sequence, depth).value.0
  {
    hide Yield, YieldAll, Both;
    output := [];
    var stack: seq<nat> := Reversed(g.sequence);
    assert Reversed(stack) == g.sequence;
    ghost var goal := YieldAll(g.rules, g.sequence, depth).value.0;
    ghost var left := YieldAll(g.rules, Reversed(stack), depth).value;
    assert output + left.0 == goal;
    while stack != []
      invariant YieldAll(g.rules, Reversed(stack), depth) == Some(left) && output + left.0 == goal
      decreases left.1
    {
      var sym := stack[|stack| - 1];
      var rest := stack[..|stack| - 1];
      ReversedSnoc(rest, sym);
      assert rest + [sym] == stack;
      assert Reversed(stack)[1..] == Reversed(rest) && Reversed(stack)[0] == sym;
      NextSymbol(g.rules, Reversed(stack), depth);
      ghost var later := YieldAll(g.rules, Reversed(rest), depth).value;
      stack := rest;
      if sym < TERMINALS {
        assert output + ([sym as byte] + later.0) == (output + [sym as byte]) + later.0;
        output := output + [sym];
        left := later;
      } else {
        var rule := g.rules[sym - TERMINALS];
        ReversedSnoc(rest, rule.right);
        ReversedSnoc(rest + [rule.right], rule.left);
        stack := stack + [rule.right] + [rule.left];
        assert Reversed(stack) == [rule.left] + ([rule.right] + Reversed(rest));
        left := YieldAll(g.rules, Reversed(stack), depth).value;
      }
    }
    YieldNone(g.rules, depth);
    assert output + [] == output;
  }

  lemma YieldNone(rules: seq<Rule>, depth: nat)
    ensures YieldAll(rules, [], depth) == Some(([], 0))
  {
  }

  /** Taking the next symbol: a byte goes out, a rule's symbol makes way for its two. */
  lemma NextSymbol(rules: seq<Rule>, s: seq<nat>, depth: nat)
    requires s != [] && YieldAll(rules, s, depth).Some?
    ensures YieldAll(rules, s[1..], depth).Some?
    ensures var all, later := YieldAll(rules, s, depth).value, YieldAll(rules, s[1..], depth).value;
      if s[0] < TERMINALS then all == ([s[0] as byte] + later.0, 1 + later.1)
      else
        s[0] < TERMINALS + |rules| &&
        var rule := rules[s[0] - TERMINALS];
        YieldAll(rules, [rule.left] + ([rule.right] + s[1..]), depth) == Some((all.0, all.1 - 1))
  {
    if s[0] >= TERMINALS {
      var rule := rules[s[0] - TERMINALS];
      RuleYields(rules, s[0], depth);
      hide Yield;
      PairOnTop(rules, rule, s[1..], depth);
      BothRegroup(Yield(rules, rule.left, depth), Yield(rules, rule.right, depth), YieldAll(rules, s[1..], depth));
    }
  }

  lemma RuleYields(rules: seq<Rule>, sym: nat, depth: nat)
    requires Yield(rules, sym, depth).Some? && sym >= TERMINALS
    ensures sym < TERMINALS + |rules|
    ensures var rule := rules[sym - TERMINALS];
      Yield(rules, sym, depth) == Both(Yield(rules, rule.left, depth), Yield(rules, rule.right, depth), 1)
  {
    var rule := rules[sym - TERMINALS];
    Deeper(rules, rule.left, depth - 1);
    Deeper(rules, rule.right, depth - 1);
  }

  lemma BothRegroup(a: Option<(seq<byte>, nat)>, b: Option<(seq<byte>, nat)>, c: Option<(seq<byte>, nat)>)
    requires Both(Both(a, b, 1), c, 0).Some?
    ensures var all := Both(Both(a, b, 1), c, 0).value; Both(a, Both(b, c, 0), 0) == Some((all.0, all.1 - 1))
  {
    assert a.value.0 + b.value.0 + c.value.0 == a.value.0 + (b.value.0 + c.value.0);
  }

  lemma PairOnTop(rules: seq<Rule>, rule: Rule, rest: seq<nat>, depth: nat)
    ensures YieldAll(rules, [rule.left] + ([rule.right] + rest), depth)
      == Both(Yield(rules, rule.left, depth), Both(Yield(rules, rule.right, depth), YieldAll(rules, rest, depth), 0), 0)
  {
    hide Yield;
    var s := [rule.left] + ([rule.right] + rest);
    assert s[1..] == [rule.right] + rest && s[1..][1..] == rest;
  }
}
