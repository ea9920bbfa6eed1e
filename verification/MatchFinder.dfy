/** The match finder in place: `head` and `son` arrays rewired while walking down. */
module MatchFinder {
  import opened Bytes
  import opened Suffixes
  import opened Tokens
  import opened MatchTree

  /** The tree hanging in slot `s` (slots 2p and 2p + 1 belong to position p), where the
      slots in `holes` are taken to hold the given trees. */
  ghost function SlotTree(son: seq<nat>, s: nat, holes: map<nat, Tree>): Tree
    decreases s / 2
  {
    if s in holes then holes[s]
    else if s < |son| && son[s] < s / 2 then
      Node(son[s], SlotTree(son, 2 * son[s], holes), SlotTree(son, 2 * son[s] + 1, holes))
    else Leaf
  }

  /** The tree of a candidate: no tree for the empty mark. */
  ghost function CandTree(son: seq<nat>, cand: nat): Tree {
    if 2 * cand + 1 < |son| then Node(cand, SlotTree(son, 2 * cand, map[]), SlotTree(son, 2 * cand + 1, map[])) else Leaf
  }

  ghost predicate Older(son: seq<nat>) {
    forall s :: 0 <= s < |son| ==> son[s] == EMPTY || son[s] < s / 2
  }

  /** Slots of a tree that nobody touches leave it as it is. */
  lemma {:induction false} Untouched(son: seq<nat>, son': seq<nat>, s: nat, holes: map<nat, Tree>)
    requires |son| == |son'| && s !in holes && (s < |son| ==> son'[s] == son[s])
    requires forall x :: 0 <= x < |son| && x / 2 in Nodes(SlotTree(son, s, map[])) ==> son'[x] == son[x] && x !in holes
    ensures SlotTree(son', s, holes) == SlotTree(son, s, map[])
    decreases s / 2
  {
    if s < |son| && son[s] < s / 2 {
      var d := son[s];
      assert d in Nodes(SlotTree(son, s, map[]));
      Untouched(son, son', 2 * d, holes);
      Untouched(son, son', 2 * d + 1, holes);
    }
  }

  lemma {:induction false} PlugNodes(son: seq<nat>, s: nat, f: nat, a: Tree, o: nat, b: Tree)
    requires f != o
    ensures Nodes(SlotTree(son, s, map[f := a, o := b])) <= Nodes(SlotTree(son, s, map[f := Leaf, o := Leaf])) + Nodes(a) + Nodes(b)
    decreases s / 2
  {
    if s != f && s != o && s < |son| && son[s] < s / 2 {
      PlugNodes(son, 2 * son[s], f, a, o, b);
      PlugNodes(son, 2 * son[s] + 1, f, a, o, b);
    }
  }

  /** `c` with the tree it keeps and the tree still to come in its open slot. */
  function Joined(c: nat, keep: Tree, open: nat, next: Tree): Tree {
    if open == 2 * c + 1 then Node(c, keep, next) else Node(c, next, keep)
  }

  function OtherSlot(c: nat, open: nat): nat {
    if open == 2 * c + 1 then 2 * c else 2 * c + 1
  }

  /** Hanging `c` into hole `f` moves the hole to a slot of `c`. */
  lemma PlugMoves(son: seq<nat>, s: nat, f: nat, o: nat, c: nat, open: nat, keep: Tree, x: Tree, u: Tree)
    requires f != o && f < |son| && c < f / 2 && 2 * c + 1 < |son| && (open == 2 * c || open == 2 * c + 1)
    requires s / 2 != c && o / 2 != c && f / 2 != c
    requires c !in Nodes(SlotTree(son, s, map[f := Leaf, o := Leaf]))
    requires SlotTree(son[f := c], OtherSlot(c, open), map[open := x, o := u]) == keep
    ensures SlotTree(son[f := c], s, map[open := x, o := u]) == SlotTree(son, s, map[f := Joined(c, keep, open, x), o := u])
  {
    HungTree(son, f, c, open, keep, map[open := x, o := u], x);
    PlugMovesIn(son, s, f, o, c, open, map[f := Leaf, o := Leaf], map[f := Joined(c, keep, open, x), o := u], map[open := x, o := u]);
  }

  /** What hangs in `f` once `c` is there. */
  lemma HungTree(son: seq<nat>, f: nat, c: nat, open: nat, keep: Tree, holes: map<nat, Tree>, x: Tree)
    requires f < |son| && c < f / 2 && 2 * c + 1 < |son| && (open == 2 * c || open == 2 * c + 1)
    requires f !in holes && open in holes && holes[open] == x
    requires SlotTree(son[f := c], OtherSlot(c, open), holes) == keep
    ensures SlotTree(son[f := c], f, holes) == Joined(c, keep, open, x)
  {
  }

  lemma {:induction false} PlugMovesIn(son: seq<nat>, s: nat, f: nat, o: nat, c: nat, open: nat,
                                       apart: map<nat, Tree>, before: map<nat, Tree>, after: map<nat, Tree>)
    requires f != o && f < |son| && (open == 2 * c || open == 2 * c + 1) && s / 2 != c && o / 2 != c && f / 2 != c
    requires apart.Keys == before.Keys == {f, o} && after.Keys == {open, o} && before[o] == after[o]
    requires SlotTree(son[f := c], f, after) == before[f] && c !in Nodes(SlotTree(son, s, apart))
    ensures SlotTree(son[f := c], s, after) == SlotTree(son, s, before)
    decreases s / 2
  {
    hide *;
    if s != f && s != o && s < |son| && son[s] < s / 2 {
      var d := son[s];
      assert (2 * d) / 2 == (2 * d + 1) / 2 == d;
      SlotNodes(son, s, apart);
      SlotNode(son, s, before);
      SlotNode(son[f := c], s, after);
      PlugMovesIn(son, 2 * d, f, o, c, open, apart, before, after);
      PlugMovesIn(son, 2 * d + 1, f, o, c, open, apart, before, after);
    } else if s == o {
      SlotHole(son, s, before);
      SlotHole(son[f := c], s, after);
    } else if s == f {
      SlotHole(son, s, before);
    } else {
      SlotEmpty(son, s, before);
      SlotEmpty(son[f := c], s, after);
    }
  }

  lemma SlotNode(son: seq<nat>, s: nat, holes: map<nat, Tree>)
    requires s < |son| && son[s] < s / 2 && s !in holes
    ensures SlotTree(son, s, holes) == Node(son[s], SlotTree(son, 2 * son[s], holes), SlotTree(son, 2 * son[s] + 1, holes))
  {
  }

  lemma SlotNodes(son: seq<nat>, s: nat, holes: map<nat, Tree>)
    requires s < |son| && son[s] < s / 2 && s !in holes
    ensures Nodes(SlotTree(son, s, holes))
         == {son[s]} + Nodes(SlotTree(son, 2 * son[s], holes)) + Nodes(SlotTree(son, 2 * son[s] + 1, holes))
  {
    SlotNode(son, s, holes);
    hide SlotTree;
  }

  lemma SlotHole(son: seq<nat>, s: nat, holes: map<nat, Tree>)
    requires s in holes
    ensures SlotTree(son, s, holes) == holes[s]
  {
  }

  lemma SlotEmpty(son: seq<nat>, s: nat, holes: map<nat, Tree>)
    requires s !in holes && (s >= |son| || son[s] >= s / 2)
    ensures SlotTree(son, s, holes) == Leaf
  {
  }

  /** Filling both holes for good. */
  lemma {:induction false} PlugEnds(son: seq<nat>, son': seq<nat>, s: nat, f: nat, o: nat)
    requires f != o && f < |son| && o < |son| && |son'| == |son|
    requires forall x :: 0 <= x < |son| && x != f && x != o ==> son'[x] == son[x]
    ensures SlotTree(son', s, map[])
         == SlotTree(son, s, map[f := SlotTree(son', f, map[]), o := SlotTree(son', o, map[])])
    decreases s / 2
  {
    if s != f && s != o && s < |son| && son[s] < s / 2 {
      PlugEnds(son, son', 2 * son[s], f, o);
      PlugEnds(son, son', 2 * son[s] + 1, f, o);
    }
  }

  // ------------------------------------------------------------ the walk

  /** Nodes already hung below `p`, `p` included. */
  ghost function Hung(son: seq<nat>, p: nat, f: nat, o: nat): set<nat> {
    {p} + Nodes(SlotTree(son, 2 * p, map[f := Leaf, o := Leaf])) + Nodes(SlotTree(son, 2 * p + 1, map[f := Leaf, o := Leaf]))
  }

  /** The two open slots are apart from what is left of the old tree, which is older than
      the owners of both and shares no node with what is already hung. */
  ghost predicate Open(son: seq<nat>, p: nat, f: nat, o: nat, cur: Tree) {
    && f != o && f < |son| && o < |son|
    && Hung(son, p, f, o) !! Nodes(cur) && AllBelow(cur, f / 2) && AllBelow(cur, o / 2)
  }

  /** With `a` in hole `f` and `b` in hole `o`, the children of `p` are `s0` and `g0`. */
  ghost predicate Leads(son: seq<nat>, p: nat, f: nat, a: Tree, o: nat, b: Tree, s0: Tree, g0: Tree) {
    && SlotTree(son, 2 * p, map[f := a, o := b]) == s0
    && SlotTree(son, 2 * p + 1, map[f := a, o := b]) == g0
  }

  lemma LeadsSwapped(son: seq<nat>, p: nat, f: nat, a: Tree, o: nat, b: Tree, s0: Tree, g0: Tree)
    requires f != o && Leads(son, p, f, a, o, b, s0, g0)
    ensures Leads(son, p, o, b, f, a, s0, g0)
  {
    assert map[f := a, o := b] == map[o := b, f := a];
  }

  lemma OpenSwapped(son: seq<nat>, p: nat, f: nat, o: nat, cur: Tree)
    requires Open(son, p, f, o, cur)
    ensures Open(son, p, o, f, cur) && Hung(son, p, o, f) == Hung(son, p, f, o)
  {
    assert map[f := Leaf, o := Leaf] == map[o := Leaf, f := Leaf];
  }

  /** The part of the candidate's tree that the walk goes on with. */
  function NextTree(cur: Tree, open: nat): Tree
    requires cur.Node?
  {
    if open == 2 * cur.pos + 1 then cur.greater else cur.smaller
  }

  function KeptTree(cur: Tree, open: nat): Tree
    requires cur.Node?
  {
    if open == 2 * cur.pos + 1 then cur.smaller else cur.greater
  }

  /** Hanging the candidate: kept side and next side stay as they are. */
  lemma HangTrees(data: seq<byte>, son: seq<nat>, p: nat, f: nat, o: nat, c: nat, open: nat, holes: map<nat, Tree>)
    requires 2 * c + 1 < |son| && Open(son, p, f, o, CandTree(son, c)) && Ordered(data, CandTree(son, c))
    requires open == 2 * c || open == 2 * c + 1
    requires forall x :: x in holes ==> x == open || x == o
    ensures var cur := CandTree(son, c);
            SlotTree(son[f := c], OtherSlot(c, open), holes) == KeptTree(cur, open)
            && SlotTree(son[f := c], open, map[]) == NextTree(cur, open)
  {
    hide NoLater, Limit;
    var cur := CandTree(son, c);
    assert c in Nodes(cur) && Nodes(cur.smaller) <= Nodes(cur) && Nodes(cur.greater) <= Nodes(cur);
    Untouched(son, son[f := c], OtherSlot(c, open), holes);
    Untouched(son, son[f := c], open, map[]);
  }

  /** Hanging the candidate into hole `f` opens its own slot instead. */
  lemma Hang(data: seq<byte>, son: seq<nat>, p: nat, f: nat, o: nat, c: nat, open: nat)
    requires 2 * c + 1 < |son| && Open(son, p, f, o, CandTree(son, c)) && Ordered(data, CandTree(son, c)) && c < p
    requires open == 2 * c || open == 2 * c + 1
    ensures Open(son[f := c], p, open, o, NextTree(CandTree(son, c), open))
  {
    hide NoLater, Limit;
    var cur := CandTree(son, c);
    CandNodes(data, cur, open);
    HangTrees(data, son, p, f, o, c, open, map[open := Leaf, o := Leaf]);
    HungGrows(data, son, p, f, o, c, open);
  }

  lemma CandNodes(data: seq<byte>, cur: Tree, open: nat)
    requires cur.Node? && Ordered(data, cur) && (open == 2 * cur.pos || open == 2 * cur.pos + 1)
    ensures cur.pos in Nodes(cur) && Nodes(NextTree(cur, open)) <= Nodes(cur) && Nodes(KeptTree(cur, open)) <= Nodes(cur)
    ensures AllBelow(NextTree(cur, open), cur.pos) && Nodes(NextTree(cur, open)) !! Nodes(KeptTree(cur, open))
    ensures cur.pos !in Nodes(NextTree(cur, open)) && Ordered(data, NextTree(cur, open))
  {
    hide NoLater, Limit;
  }

  lemma HungGrows(data: seq<byte>, son: seq<nat>, p: nat, f: nat, o: nat, c: nat, open: nat)
    requires 2 * c + 1 < |son| && Open(son, p, f, o, CandTree(son, c)) && Ordered(data, CandTree(son, c)) && c < p
    requires open == 2 * c || open == 2 * c + 1
    ensures Hung(son[f := c], p, open, o) <= Hung(son, p, f, o) + {c} + Nodes(KeptTree(CandTree(son, c), open))
  {
    hide NoLater, Limit, Ordered, SlotTree;
    var cur := CandTree(son, c);
    var keep := KeptTree(cur, open);
    CandNodes(data, cur, open);
    HangTrees(data, son, p, f, o, c, open, map[open := Leaf, o := Leaf]);
    var t := Joined(c, keep, open, Leaf);
    assert Nodes(t) == {c} + Nodes(keep);
    PlugMoves(son, 2 * p, f, o, c, open, keep, Leaf, Leaf);
    PlugMoves(son, 2 * p + 1, f, o, c, open, keep, Leaf, Leaf);
    PlugNodes(son, 2 * p, f, t, o, Leaf);
    PlugNodes(son, 2 * p + 1, f, t, o, Leaf);
  }

  /** Nothing is lost: what the holes led to before, they lead to now. */
  lemma HangLeads(data: seq<byte>, son: seq<nat>, p: nat, f: nat, o: nat, c: nat, open: nat, x: Tree, u: Tree, s0: Tree, g0: Tree)
    requires 2 * c + 1 < |son| && Open(son, p, f, o, CandTree(son, c)) && Ordered(data, CandTree(son, c)) && c < p
    requires open == 2 * c || open == 2 * c + 1
    requires Leads(son, p, f, Joined(c, KeptTree(CandTree(son, c), open), open, x), o, u, s0, g0)
    ensures Leads(son[f := c], p, open, x, o, u, s0, g0)
  {
    hide NoLater, Limit, Ordered, SlotTree;
    var cur := CandTree(son, c);
    CandNodes(data, cur, open);
    HangTrees(data, son, p, f, o, c, open, map[open := x, o := u]);
    PlugMoves(son, 2 * p, f, o, c, open, KeptTree(cur, open), x, u);
    PlugMoves(son, 2 * p + 1, f, o, c, open, KeptTree(cur, open), x, u);
  }

  /** The next candidate's tree is the side the walk goes on with. */
  lemma NextCandidate(data: seq<byte>, son: seq<nat>, p: nat, f: nat, o: nat, c: nat, open: nat)
    requires 2 * c + 1 < |son| <= 2 * EMPTY && Open(son, p, f, o, CandTree(son, c)) && Ordered(data, CandTree(son, c))
    requires (open == 2 * c || open == 2 * c + 1) && Older(son)
    ensures f != open && CandTree(son[f := c], son[open]) == NextTree(CandTree(son, c), open)
    ensures Older(son[f := c])
  {
    hide NoLater, Limit;
    var cur := CandTree(son, c);
    CandNodes(data, cur, open);
    HangTrees(data, son, p, f, o, c, open, map[]);
  }

  /** The walk is cut off: both slots are emptied. */
  lemma FinishCut(son: seq<nat>, p: nat, f: nat, o: nat, cur: Tree, s0: Tree, g0: Tree)
    requires Open(son, p, f, o, cur) && Leads(son, p, f, Leaf, o, Leaf, s0, g0) && 2 * p + 1 < |son| <= 2 * EMPTY
    ensures CandTree(son[f := EMPTY][o := EMPTY], p) == Node(p, s0, g0)
    ensures Older(son) ==> Older(son[f := EMPTY][o := EMPTY])
  {
    var son' := son[f := EMPTY][o := EMPTY];
    PlugEnds(son, son', 2 * p, f, o);
    PlugEnds(son, son', 2 * p + 1, f, o);
  }

  /** `p` takes over the children of a node that equals it. */
  lemma FinishTake(data: seq<byte>, son: seq<nat>, p: nat, f: nat, o: nat, c: nat, s0: Tree, g0: Tree)
    requires Older(son) && 2 * c + 1 < |son| <= 2 * EMPTY && 2 * p + 1 < |son| && Open(son, p, f, o, CandTree(son, c)) && Ordered(data, CandTree(son, c))
    requires Leads(son, p, f, CandTree(son, c).smaller, o, CandTree(son, c).greater, s0, g0)
    ensures CandTree(son[f := son[2 * c]][o := son[2 * c + 1]], p) == Node(p, s0, g0)
    ensures Older(son[f := son[2 * c]][o := son[2 * c + 1]])
  {
    hide NoLater, Limit, SlotTree, Ordered;
    var son' := son[f := son[2 * c]][o := son[2 * c + 1]];
    TakenSlot(data, son, son', p, f, o, c, 2 * c, f);
    TakenSlot(data, son, son', p, f, o, c, 2 * c + 1, o);
    PlugEnds(son, son', 2 * p, f, o);
    PlugEnds(son, son', 2 * p + 1, f, o);
    assert c in Nodes(CandTree(son, c));
  }

  lemma TakenSlot(data: seq<byte>, son: seq<nat>, son': seq<nat>, p: nat, f: nat, o: nat, c: nat, from: nat, to: nat)
    requires Older(son) && 2 * c + 1 < |son| <= 2 * EMPTY && Open(son, p, f, o, CandTree(son, c)) && Ordered(data, CandTree(son, c))
    requires son' == son[f := son[2 * c]][o := son[2 * c + 1]] && (from == 2 * c || from == 2 * c + 1)
    requires to == if from == 2 * c then f else o
    ensures SlotTree(son', to, map[]) == SlotTree(son, from, map[])
  {
    hide NoLater, Limit, Ordered, SlotTree, Nodes, Open, Older;
    var cur := CandTree(son, c);
    CandNodes(data, cur, from);
    CandBelow(son, c, from);
    OpenOthers(son, p, f, o, cur);
    OwnersApart(son, p, f, o, cur);
    var d := son[from];
    if d < c {
      assert c < to / 2;
      FromNode(son, from);
      FromNode(son', to);
      assert d in Nodes(cur);
      assert 2 * d / 2 == d && (2 * d + 1) / 2 == d;
      Untouched(son, son', 2 * d, map[]);
      Untouched(son, son', 2 * d + 1, map[]);
    } else {
      FromEmpty(son, from);
      FromEmpty(son', to);
    }
  }

  lemma OwnersApart(son: seq<nat>, p: nat, f: nat, o: nat, cur: Tree)
    requires Open(son, p, f, o, cur)
    ensures forall x: nat :: x / 2 in Nodes(cur) ==> x != f && x != o
    ensures forall z: nat :: z in Nodes(cur) ==> z < f / 2 && z < o / 2
  {
  }

  lemma FromNode(son: seq<nat>, s: nat)
    requires s < |son| && son[s] < s / 2
    ensures var d := son[s];
            SlotTree(son, s, map[]) == Node(d, SlotTree(son, 2 * d, map[]), SlotTree(son, 2 * d + 1, map[]))
            && d in Nodes(SlotTree(son, s, map[]))
            && Nodes(SlotTree(son, 2 * d, map[])) <= Nodes(SlotTree(son, s, map[]))
            && Nodes(SlotTree(son, 2 * d + 1, map[])) <= Nodes(SlotTree(son, s, map[]))
  {
  }

  lemma FromEmpty(son: seq<nat>, s: nat)
    requires s < |son| && son[s] >= s / 2
    ensures SlotTree(son, s, map[]) == Leaf
  {
  }

  // ------------------------------------------------------------ matches

  /** A true match inside the window, as long as the comparison goes. */
  ghost predicate IsMatch(data: seq<byte>, p: nat, dist: nat, len: nat) {
    && p + MIN_MATCH <= |data| && 1 <= dist <= p && dist <= MAX_WINDOW && MIN_MATCH <= len <= Limit(data, p)
    && len == Common(data, p - dist, p, Limit(data, p))
  }

  ghost predicate Matches(data: seq<byte>, p: nat, ms: seq<(nat, nat)>) {
    && (forall i :: 0 <= i < |ms| ==> IsMatch(data, p, ms[i].0, ms[i].1))
    && (forall i, j :: 0 <= i < j < |ms| ==> ms[i].1 < ms[j].1)
  }

  /** The walk reports true matches only, each longer than the one before. */
  lemma {:induction false} MetMatches(data: seq<byte>, t: Tree, p: nat, depth: nat, best: nat)
    requires p + MIN_MATCH <= |data| && AllBelow(t, p) && best >= MIN_MATCH - 1
    ensures var ms := Met(data, t, p, depth, best); Matches(data, p, ms) && forall i :: 0 <= i < |ms| ==> ms[i].1 > best
    decreases t
  {
    hide Limit, Same, Common, AllBelow, Met, Uncut;
    MetCut(data, t, p, depth, best);
    if t.Node? && depth > 0 {
      ChildrenBelow(t, p);
      if p - t.pos <= MAX_WINDOW {
        var len := CommonWith(data, t.pos, p);
        MetAt(data, t, p, depth, best, len);
        if len < Limit(data, p) {
          MetMatches(data, Onward(data, t, p, len), p, depth - 1, if len > best then len else best);
        }
      }
    }
  }

  lemma NoMatches(data: seq<byte>, p: nat)
    ensures Matches(data, p, [])
  {
  }

  /** What the walk has reported, and what it will report from `cur` on, is `all`. */
  ghost predicate Reporting(data: seq<byte>, cur: Tree, p: nat, depth: nat, best: nat, met: seq<(nat, nat)>, all: seq<(nat, nat)>)
    requires p <= |data|
  {
    AllBelow(cur, p) && met + Met(data, cur, p, depth, best) == all
  }

  /** The report of one candidate. */
  ghost function Report(dist: nat, len: nat, best: nat): seq<(nat, nat)> {
    if len > best then [(dist, len)] else []
  }

  lemma ReportStarts(data: seq<byte>, t: Tree, p: nat, depth: nat, best: nat)
    requires p <= |data| && AllBelow(t, p)
    ensures Reporting(data, t, p, depth, best, [], Met(data, t, p, depth, best))
  {
    hide Met, AllBelow;
    assert [] + Met(data, t, p, depth, best) == Met(data, t, p, depth, best);
  }

  lemma ReportStep(data: seq<byte>, cur: Tree, p: nat, depth: nat, best: nat, len: nat, met: seq<(nat, nat)>, all: seq<(nat, nat)>)
    requires p <= |data| && Reporting(data, cur, p, depth, best, met, all)
    requires cur.Node? && depth > 0 && cur.pos < p && p - cur.pos <= MAX_WINDOW
    requires cur.pos + Limit(data, p) <= |data| && len == Common(data, cur.pos, p, Limit(data, p))
    ensures var own := Report(p - cur.pos, len, best);
            if len == Limit(data, p) then met + own == all
            else Reporting(data, Onward(data, cur, p, len), p, depth - 1, if len > best then len else best, met + own, all)
  {
    hide Met, AllBelow, Limit, Common, Same, Uncut;
    MetAt(data, cur, p, depth, best, len);
    if len < Limit(data, p) {
      OnwardSide(data, cur, p, len);
      var more := Met(data, Onward(data, cur, p, len), p, depth - 1, if len > best then len else best);
      assert met + (Report(p - cur.pos, len, best) + more) == (met + Report(p - cur.pos, len, best)) + more;
    }
  }

  lemma ReportEnds(data: seq<byte>, son: seq<nat>, cand: nat, p: nat, depth: nat, best: nat, met: seq<(nat, nat)>, all: seq<(nat, nat)>)
    requires p <= |data| && |son| <= 2 * EMPTY && Reporting(data, CandTree(son, cand), p, depth, best, met, all)
    requires depth == 0 || cand == EMPTY || p - cand > MAX_WINDOW
    ensures met == all
  {
    hide Met, AllBelow, SlotTree, Uncut;
    MetCut(data, CandTree(son, cand), p, depth, best);
  }

  /** One bucket: its newest position first, every node of it in the bucket and inserted. */
  ghost predicate Bucket(data: seq<byte>, son: seq<nat>, first: nat, h: nat, upto: nat) {
    && (first == EMPTY || first < upto)
    && Ordered(data, CandTree(son, first))
    && forall z :: z in Nodes(CandTree(son, first)) ==> z < upto && z + MIN_MATCH <= |data| && HashAt(data, z) == h
  }

  /** What the walk keeps at every candidate. */
  ghost predicate Walking(data: seq<byte>, was: seq<nat>, son: seq<nat>, t0: Tree, p: nat, f: nat, o: nat, cand: nat, depth: nat, low: nat, high: nat)
    requires p <= |data|
  {
    var cur := CandTree(son, cand);
    && |son| == |was| == 2 * |data| <= 2 * EMPTY && p < |data|
    && Older(son) && (cand == EMPTY || cand < p)
    && Ordered(data, cur) && AllBelow(cur, p) && Nodes(cur) <= Nodes(t0)
    && Open(son, p, f, o, cur)
    && AllBelow(t0, p) && Leads(son, p, f, Split(data, cur, p, depth).0, o, Split(data, cur, p, depth).1,
             Split(data, t0, p, TREE_DEPTH).0, Split(data, t0, p, TREE_DEPTH).1)
    && Between(data, cur, p, low, high) && low <= Limit(data, p) && high <= Limit(data, p)
    && Inside(was, son, t0, p) && InTree(t0, p, f) && InTree(t0, p, o)
  }

  ghost predicate InTree(t0: Tree, p: nat, s: nat) {
    s / 2 == p || s / 2 in Nodes(t0)
  }

  /** Only slots of `p` and of the old tree have changed. */
  ghost predicate Inside(was: seq<nat>, son: seq<nat>, t0: Tree, p: nat)
    requires |son| == |was|
  {
    forall x :: 0 <= x < |son| && !InTree(t0, p, x) ==> son[x] == was[x]
  }

  lemma BetweenAtFirst(data: seq<byte>, t: Tree, p: nat)
    requires p <= |data| && AllBelow(t, p)
    ensures Between(data, t, p, 0, 0)
  {
    forall z | z in Nodes(t) ensures NoLater(data, p, z, 0) && NoLater(data, z, p, 0) {
    }
  }

  lemma OpenAtFirst(son: seq<nat>, p: nat, cur: Tree)
    requires 2 * p + 1 < |son| && AllBelow(cur, p)
    ensures Open(son, p, 2 * p, 2 * p + 1, cur)
  {
    hide SlotTree;
    SlotHole(son, 2 * p, map[2 * p := Leaf, 2 * p + 1 := Leaf]);
    SlotHole(son, 2 * p + 1, map[2 * p := Leaf, 2 * p + 1 := Leaf]);
  }

  lemma LeadsAtFirst(son: seq<nat>, p: nat, a: Tree, b: Tree)
    ensures Leads(son, p, 2 * p, a, 2 * p + 1, b, a, b)
  {
    hide SlotTree;
    SlotHole(son, 2 * p, map[2 * p := a, 2 * p + 1 := b]);
    SlotHole(son, 2 * p + 1, map[2 * p := a, 2 * p + 1 := b]);
  }

  lemma WalkStarts(data: seq<byte>, son: seq<nat>, p: nat, first: nat, h: nat)
    requires |son| == 2 * |data| <= 2 * EMPTY && p + MIN_MATCH <= |data| && Older(son) && Bucket(data, son, first, h, p)
    ensures Walking(data, son, son, CandTree(son, first), p, 2 * p, 2 * p + 1, first, TREE_DEPTH, 0, 0)
  {
    hide Limit, Split, Ordered, CandTree, SlotTree, AllBelow, Between, Open, Leads, Older, HashAt;
    var cur := CandTree(son, first);
    BucketFacts(data, son, first, h, p);
    BetweenAtFirst(data, cur, p);
    OpenAtFirst(son, p, cur);
    var r := Split(data, cur, p, TREE_DEPTH);
    LeadsAtFirst(son, p, r.0, r.1);
  }

  /** The candidate sorts before `p`: it is hung on the smaller side, and the walk goes on
      with its greater side. */
  lemma StepGreater(data: seq<byte>, was: seq<nat>, son: seq<nat>, t0: Tree, p: nat, f: nat, o: nat, cand: nat, depth: nat, low: nat, high: nat, len: nat)
    requires p <= |data| && cand != EMPTY && depth > 0 && 2 * cand + 1 < |son| && cand < p && p - cand <= MAX_WINDOW
    requires Walking(data, was, son, t0, p, f, o, cand, depth, low, high)
    requires cand + Limit(data, p) <= |data| && len == Common(data, cand, p, Limit(data, p)) < Limit(data, p)
    requires data[cand + len] < data[p + len]
    ensures f < |son| && f != 2 * cand + 1
    ensures Walking(data, was, son[f := cand], t0, p, 2 * cand + 1, o, son[f := cand][2 * cand + 1], depth - 1, len, high)
    ensures var cur := CandTree(son, cand); cur.Node? && CandTree(son[f := cand], son[f := cand][2 * cand + 1]) == cur.greater
  {
    hide Limit, NoLater, Common, SlotTree, CandTree, Ordered, AllBelow, Between, Open, Leads, Same, Split;
    var cur := CandTree(son, cand);
    var open := 2 * cand + 1;
    CandIs(son, cand);
    CandNodes(data, cur, open);
    SplitAt(data, cur, p, depth, len);
    OpenOthers(son, p, f, o, cur);
    Hang(data, son, p, f, o, cand, open);
    NextCandidate(data, son, p, f, o, cand, open);
    BelowToo(cur, cur.greater, p);
    var n := Split(data, cur.greater, p, depth - 1);
    HangLeads(data, son, p, f, o, cand, open, n.0, n.1, Split(data, t0, p, TREE_DEPTH).0, Split(data, t0, p, TREE_DEPTH).1);
    BetweenGreater(data, cur, p, low, high, len);
    CandBelow(son, cand, open);
    StaysInside(was, son, t0, p, f, cand);
  }

  /** The candidate sorts after `p`. */
  lemma StepSmaller(data: seq<byte>, was: seq<nat>, son: seq<nat>, t0: Tree, p: nat, f: nat, o: nat, cand: nat, depth: nat, low: nat, high: nat, len: nat)
    requires p <= |data| && cand != EMPTY && depth > 0 && 2 * cand + 1 < |son| && cand < p && p - cand <= MAX_WINDOW
    requires Walking(data, was, son, t0, p, o, f, cand, depth, low, high)
    requires cand + Limit(data, p) <= |data| && len == Common(data, cand, p, Limit(data, p)) < Limit(data, p)
    requires data[cand + len] > data[p + len]
    ensures f < |son| && f != 2 * cand
    ensures Walking(data, was, son[f := cand], t0, p, o, 2 * cand, son[f := cand][2 * cand], depth - 1, low, len)
    ensures var cur := CandTree(son, cand); cur.Node? && CandTree(son[f := cand], son[f := cand][2 * cand]) == cur.smaller
  {
    hide Limit, NoLater, Common, SlotTree, CandTree, Ordered, AllBelow, Between, Open, Leads, Same, Split;
    var cur := CandTree(son, cand);
    var open := 2 * cand;
    CandIs(son, cand);
    CandNodes(data, cur, open);
    SplitAt(data, cur, p, depth, len);
    OpenSwapped(son, p, o, f, cur);
    OpenOthers(son, p, f, o, cur);
    Hang(data, son, p, f, o, cand, open);
    NextCandidate(data, son, p, f, o, cand, open);
    BelowToo(cur, cur.smaller, p);
    var n, r := Split(data, cur.smaller, p, depth - 1), Split(data, cur, p, depth);
    var s0, g0 := Split(data, t0, p, TREE_DEPTH).0, Split(data, t0, p, TREE_DEPTH).1;
    LeadsSwapped(son, p, o, r.0, f, r.1, s0, g0);
    HangLeads(data, son, p, f, o, cand, open, n.1, n.0, s0, g0);
    OpenOthers(son[f := cand], p, open, o, cur.smaller);
    LeadsSwapped(son[f := cand], p, open, n.1, o, n.0, s0, g0);
    OpenSwapped(son[f := cand], p, open, o, cur.smaller);
    BetweenSmaller(data, cur, p, low, high, len);
    CandBelow(son, cand, open);
    StaysInside(was, son, t0, p, f, cand);
  }

  lemma StaysInside(was: seq<nat>, son: seq<nat>, t0: Tree, p: nat, f: nat, v: nat)
    requires |was| == |son| && f < |son| && Inside(was, son, t0, p) && InTree(t0, p, f)
    ensures Inside(was, son[f := v], t0, p)
  {
  }

  lemma CandIs(son: seq<nat>, cand: nat)
    requires 2 * cand + 1 < |son|
    ensures CandTree(son, cand).Node? && CandTree(son, cand).pos == cand
  {
  }

  lemma CandBelow(son: seq<nat>, cand: nat, open: nat)
    requires Older(son) && 2 * cand + 1 < |son| && (open == 2 * cand || open == 2 * cand + 1)
    ensures son[open] == EMPTY || son[open] < cand
  {
  }

  lemma BelowToo(t: Tree, u: Tree, p: nat)
    requires AllBelow(t, p) && Nodes(u) <= Nodes(t)
    ensures AllBelow(u, p)
  {
  }

  lemma OpenOthers(son: seq<nat>, p: nat, f: nat, o: nat, cur: Tree)
    requires Open(son, p, f, o, cur)
    ensures f != o && f < |son| && o < |son|
  {
  }

  /** One step of the split, as the walk sees it. */
  lemma SplitAt(data: seq<byte>, t: Tree, p: nat, depth: nat, len: nat)
    requires p <= |data| && t.Node? && AllBelow(t, p) && depth > 0 && p - t.pos <= MAX_WINDOW
    requires t.pos + Limit(data, p) <= |data| && len == Common(data, t.pos, p, Limit(data, p))
    ensures AllBelow(t.smaller, p) && AllBelow(t.greater, p)
    ensures len == Limit(data, p) ==> Split(data, t, p, depth) == (t.smaller, t.greater)
    ensures len < Limit(data, p) ==>
              Split(data, t, p, depth) ==
              if data[t.pos + len] < data[p + len]
              then (Joined(t.pos, t.smaller, 2 * t.pos + 1, Split(data, t.greater, p, depth - 1).0), Split(data, t.greater, p, depth - 1).1)
              else (Split(data, t.smaller, p, depth - 1).0, Joined(t.pos, t.greater, 2 * t.pos, Split(data, t.smaller, p, depth - 1).1))
  {
    hide Common, Limit;
    ChildrenBelow(t, p);
  }

  // ------------------------------------------------------------ after the walk

  /** Other buckets do not notice: their nodes are not in the tree that was rewired. */
  lemma OtherBucket(data: seq<byte>, was: seq<nat>, son: seq<nat>, t0: Tree, p: nat, first: nat, h: nat)
    requires |son| == |was| == 2 * |data| <= 2 * EMPTY && p + MIN_MATCH <= |data| && Inside(was, son, t0, p)
    requires forall z :: z in Nodes(t0) ==> z + MIN_MATCH <= |data| && HashAt(data, z) == HashAt(data, p)
    requires Bucket(data, was, first, h, p) && h != HashAt(data, p)
    ensures CandTree(son, first) == CandTree(was, first) && Bucket(data, son, first, h, p + 1)
  {
    hide HashAt, Ordered, SlotTree;
    var t := CandTree(was, first);
    if 2 * first + 1 < |was| {
      assert first in Nodes(t) && Nodes(t.smaller) <= Nodes(t) && Nodes(t.greater) <= Nodes(t);
      Untouched(was, son, 2 * first, map[]);
      Untouched(was, son, 2 * first + 1, map[]);
      assert CandTree(son, first) == t;
    }
  }

  /** The bucket of `p` holds `p` on top of the split old tree. */
  lemma OwnBucket(data: seq<byte>, was: seq<nat>, son: seq<nat>, p: nat, first: nat)
    requires |was| == |son| == 2 * |data| <= 2 * EMPTY && p + MIN_MATCH <= |data| && Bucket(data, was, first, HashAt(data, p), p)
    requires AllBelow(CandTree(was, first), p)
    requires var r := Split(data, CandTree(was, first), p, TREE_DEPTH); CandTree(son, p) == Node(p, r.0, r.1)
    ensures Bucket(data, son, p, HashAt(data, p), p + 1)
  {
    hide HashAt, NoLater, Limit, SlotTree, Split;
    var t0 := CandTree(was, first);
    SplitOrdered(data, t0, p, TREE_DEPTH);
    SplitShrinks(data, t0, p, TREE_DEPTH);
  }

  lemma BucketFacts(data: seq<byte>, son: seq<nat>, first: nat, h: nat, upto: nat)
    requires Bucket(data, son, first, h, upto)
    ensures (first == EMPTY || first < upto) && AllBelow(CandTree(son, first), upto)
    ensures forall z :: z in Nodes(CandTree(son, first)) ==> z + MIN_MATCH <= |data| && HashAt(data, z) == h
  {
    hide SlotTree, Ordered, HashAt;
  }

  /** What the walk tells about the candidate it stands at. */
  lemma WalkFacts(data: seq<byte>, was: seq<nat>, son: seq<nat>, t0: Tree, p: nat, f: nat, o: nat, cand: nat, depth: nat, low: nat, high: nat)
    requires p <= |data| && Walking(data, was, son, t0, p, f, o, cand, depth, low, high)
    ensures f < |son| && o < |son| && f != o && Older(son) && |son| == |was| == 2 * |data|
    ensures cand == EMPTY || cand < p
    ensures low <= Limit(data, p) && high <= Limit(data, p)
    ensures cand != EMPTY && cand < p ==> 2 * cand + 1 < |son| && Same(data, cand, p, if low < high then low else high)
    ensures cand != EMPTY ==> CandTree(son, cand).Node? && CandTree(son, cand).pos == cand
  {
    hide SlotTree, Ordered, NoLater, Same, Split, Limit, Leads;
    if cand != EMPTY && cand < p {
      CandIs(son, cand);
      assert cand in Nodes(CandTree(son, cand));
      SharedPrefix(data, CandTree(son, cand), p, low, high);
    }
  }

  /** The walk is cut off: no candidate left, none in the window, or too deep. */
  lemma WalkCut(data: seq<byte>, was: seq<nat>, son: seq<nat>, t0: Tree, p: nat, f: nat, o: nat, cand: nat, depth: nat, low: nat, high: nat)
    requires p <= |data| && Walking(data, was, son, t0, p, f, o, cand, depth, low, high)
    requires depth == 0 || cand == EMPTY || p - cand > MAX_WINDOW
    ensures f < |son| && o < |son| && 2 * p + 1 < |son|
    ensures var son' := son[f := EMPTY][o := EMPTY];
            Older(son') && Inside(was, son', t0, p) && AllBelow(t0, p)
            && CandTree(son', p) == Node(p, Split(data, t0, p, TREE_DEPTH).0, Split(data, t0, p, TREE_DEPTH).1)
  {
    hide SlotTree, Ordered, NoLater, Limit, Leads, Between;
    var s0, g0 := Split(data, t0, p, TREE_DEPTH).0, Split(data, t0, p, TREE_DEPTH).1;
    var cur := CandTree(son, cand);
    assert Split(data, cur, p, depth) == (Leaf, Leaf);
    FinishCut(son, p, f, o, cur, s0, g0);
  }

  /** The walk meets a node that equals `p`. */
  lemma WalkTaken(data: seq<byte>, was: seq<nat>, son: seq<nat>, t0: Tree, p: nat, f: nat, o: nat, cand: nat, depth: nat, low: nat, high: nat)
    requires p <= |data| && Walking(data, was, son, t0, p, f, o, cand, depth, low, high)
    requires depth > 0 && cand != EMPTY && 2 * cand + 1 < |son| && cand < p && p - cand <= MAX_WINDOW
    requires cand + Limit(data, p) <= |data| && Limit(data, p) == Common(data, cand, p, Limit(data, p))
    ensures f < |son| && o < |son| && 2 * p + 1 < |son| && f != 2 * cand + 1
    ensures var son' := son[f := son[2 * cand]][o := son[2 * cand + 1]];
            Older(son') && Inside(was, son', t0, p) && AllBelow(t0, p)
            && CandTree(son', p) == Node(p, Split(data, t0, p, TREE_DEPTH).0, Split(data, t0, p, TREE_DEPTH).1)
  {
    hide SlotTree, Ordered, NoLater, Limit, Leads, Between, Common, Split;
    var s0, g0 := Split(data, t0, p, TREE_DEPTH).0, Split(data, t0, p, TREE_DEPTH).1;
    CandIs(son, cand);
    var cur := CandTree(son, cand);
    SplitAt(data, cur, p, depth, Limit(data, p));
    assert cand in Nodes(cur);
    FinishTake(data, son, p, f, o, cand, s0, g0);
  }

  class Finder {
    const head: array<nat>
    const son: array<nat>

    ghost predicate Valid(data: seq<byte>, upto: nat)
      reads this, head, son
    {
      && head.Length == HASH_SIZE && son.Length == 2 * |data| <= 2 * EMPTY && head != son
      && Older(son[..])
      && forall h :: 0 <= h < HASH_SIZE ==> Bucket(data, son[..], head[h], h, upto)
    }

    /** Every position inserted so far is represented in its bucket. */
    ghost predicate Complete(data: seq<byte>, upto: nat)
      reads this, head, son
    {
      AllRepresented(data, son[..], head[..], upto)
    }

    constructor (data: seq<byte>)
      requires |data| <= EMPTY
      ensures Valid(data, 0) && Complete(data, 0) && fresh(head) && fresh(son)
      ensures forall h :: 0 <= h < HASH_SIZE ==> Tree(h) == Leaf
    {
      head := new nat[HASH_SIZE](i => EMPTY);
      son := new nat[2 * |data|](i => EMPTY);
    }

    /** The tree of the bucket `h`. */
    ghost function Tree(h: nat): MatchTree.Tree
      requires h < head.Length
      reads head, son
    {
      CandTree(son[..], head[h])
    }

    /** Insert `pos`; with `collect`, report the matches met, longer and longer. The first
        `min(smallerLen, greaterLen)` bytes of a comparison are skipped. */
    method Insert(data: seq<byte>, pos: nat, collect: bool) returns (out: seq<(nat, nat)>)
      requires Valid(data, pos) && pos + MIN_MATCH <= |data|
      modifies head, son
      ensures Valid(data, pos + 1) && Matches(data, pos, out)
      ensures forall h :: 0 <= h < HASH_SIZE && h != HashAt(data, pos) ==> Tree(h) == old(Tree(h))
      ensures AllBelow(old(Tree(HashAt(data, pos))), pos)
      ensures out == if collect then Met(data, old(Tree(HashAt(data, pos))), pos, TREE_DEPTH, MIN_MATCH - 1) else []
      ensures var r := Split(data, old(Tree(HashAt(data, pos))), pos, TREE_DEPTH);
              Tree(HashAt(data, pos)) == Node(pos, r.0, r.1)
      ensures old(Complete(data, pos)) && Uncut(data, old(Tree(HashAt(data, pos))), pos, TREE_DEPTH) ==> Complete(data, pos + 1)
    {
      hide HashAt, Bucket, Walking, Split, NoLater, Same, Limit, Common, Ordered, SlotTree, CandTree, AllBelow, Inside, Matches, Older, Met, Uncut, Reporting, AllRepresented;
      out := [];
      ghost var was, firsts := son[..], head[..];
      var h := HashAt(data, pos);
      var cand: nat := head[h];
      ghost var t0 := CandTree(was, cand);
      WalkStarts(data, was, pos, cand, h);
      BucketFacts(data, was, cand, h, pos);
      var best: nat := MIN_MATCH - 1;
      ghost var met: seq<(nat, nat)>, all := [], Met(data, t0, pos, TREE_DEPTH, best);
      ReportStarts(data, t0, pos, TREE_DEPTH, best);
      MetMatches(data, t0, pos, TREE_DEPTH, best);
      NoMatches(data, pos);
      head[h] := pos;
      ghost var topped := head[..];
      assert topped == firsts[h := pos];
      var lenLimit := Limit(data, pos);
      var smallerSlot: nat, greaterSlot: nat := 2 * pos, 2 * pos + 1;
      var smallerLen: nat, greaterLen: nat := 0, 0;
      var depth: nat := TREE_DEPTH;
      while depth > 0
        invariant head[..] == topped
        invariant Walking(data, was, son[..], t0, pos, smallerSlot, greaterSlot, cand, depth, smallerLen, greaterLen)
        invariant Reporting(data, CandTree(son[..], cand), pos, depth, best, met, all) && out == if collect then met else []
        decreases depth
      {
        WalkFacts(data, was, son[..], t0, pos, smallerSlot, greaterSlot, cand, depth, smallerLen, greaterLen);
        if cand == EMPTY || pos - cand > MAX_WINDOW {
          break;
        }
        var len := ExtendMatch(data, cand, pos, if smallerLen < greaterLen then smallerLen else greaterLen, lenLimit);
        ReportStep(data, CandTree(son[..], cand), pos, depth, best, len, met, all);
        met := met + Report(pos - cand, len, best);
        if len > best {
          best := len;
          if collect {
            out := out + [(pos - cand, len)];
          }
        }
        ghost var before: seq<nat> := son[..];
        if len == lenLimit {
          assert out == if collect then all else [];
          WalkTaken(data, was, before, t0, pos, smallerSlot, greaterSlot, cand, depth, smallerLen, greaterLen);
          son[smallerSlot] := son[2 * cand];
          ghost var mid: seq<nat> := son[..];
          assert mid == before[smallerSlot := before[2 * cand]];
          son[greaterSlot] := son[2 * cand + 1];
          assert son[..] == mid[greaterSlot := before[2 * cand + 1]];
          Inserted(data, was, son[..], firsts, head[..], pos);
          return;
        }
        if data[cand + len] < data[pos + len] {
          StepGreater(data, was, before, t0, pos, smallerSlot, greaterSlot, cand, depth, smallerLen, greaterLen, len);
          son[smallerSlot] := cand;
          assert son[..] == before[smallerSlot := cand];
          smallerSlot := 2 * cand + 1;
          smallerLen := len;
          cand := son[smallerSlot];
        } else {
          StepSmaller(data, was, before, t0, pos, greaterSlot, smallerSlot, cand, depth, smallerLen, greaterLen, len);
          son[greaterSlot] := cand;
          assert son[..] == before[greaterSlot := cand];
          greaterSlot := 2 * cand;
          greaterLen := len;
          cand := son[greaterSlot];
        }
        depth := depth - 1;
      }
      WalkCut(data, was, son[..], t0, pos, smallerSlot, greaterSlot, cand, depth, smallerLen, greaterLen);
      ReportEnds(data, son[..], cand, pos, depth, best, met, all);
      ghost var before: seq<nat> := son[..];
      son[smallerSlot] := EMPTY;
      ghost var mid: seq<nat> := son[..];
      assert mid == before[smallerSlot := EMPTY];
      son[greaterSlot] := EMPTY;
      assert son[..] == mid[greaterSlot := EMPTY];
      Inserted(data, was, son[..], firsts, head[..], pos);
    }
  }

  /** All buckets after an insertion. */
  lemma Inserted(data: seq<byte>, was: seq<nat>, son: seq<nat>, firsts: seq<nat>, heads: seq<nat>, p: nat)
    requires |was| == |son| == 2 * |data| <= 2 * EMPTY && p + MIN_MATCH <= |data| && |firsts| == HASH_SIZE
    requires heads == firsts[HashAt(data, p) := p]
    requires forall h :: 0 <= h < HASH_SIZE ==> Bucket(data, was, firsts[h], h, p)
    requires var t0 := CandTree(was, firsts[HashAt(data, p)]);
             AllBelow(t0, p) && Inside(was, son, t0, p)
             && CandTree(son, p) == Node(p, Split(data, t0, p, TREE_DEPTH).0, Split(data, t0, p, TREE_DEPTH).1)
    ensures forall h :: 0 <= h < HASH_SIZE ==> Bucket(data, son, heads[h], h, p + 1)
    ensures forall h :: 0 <= h < HASH_SIZE && h != HashAt(data, p) ==> CandTree(son, heads[h]) == CandTree(was, firsts[h])
    ensures AllRepresented(data, was, firsts, p) && Uncut(data, CandTree(was, firsts[HashAt(data, p)]), p, TREE_DEPTH)
            ==> AllRepresented(data, son, heads, p + 1)
  {
    hide HashAt, Bucket, Split, CandTree, AllBelow, Inside, Uncut, AllRepresented;
    var own := HashAt(data, p);
    var t0 := CandTree(was, firsts[own]);
    BucketFacts(data, was, firsts[own], own, p);
    OwnBucket(data, was, son, p, firsts[own]);
    forall h | 0 <= h < HASH_SIZE && h != own
      ensures Bucket(data, son, heads[h], h, p + 1) && CandTree(son, heads[h]) == CandTree(was, firsts[h])
    {
      OtherBucket(data, was, son, t0, p, firsts[h], h);
    }
    if AllRepresented(data, was, firsts, p) && Uncut(data, t0, p, TREE_DEPTH) {
      StaysComplete(data, was, son, firsts, heads, p);
    }
  }

  // ------------------------------------------------------------ nothing near is missed

  /** Each position inserted before `upto` is represented in its bucket. */
  ghost predicate AllRepresented(data: seq<byte>, son: seq<nat>, heads: seq<nat>, upto: nat) {
    && |heads| == HASH_SIZE
    && forall q: nat :: q < upto && q + MIN_MATCH <= |data| ==> Represented(data, CandTree(son, heads[HashAt(data, q)]), q)
  }

  /** An insertion whose walk nothing cuts keeps every position represented. */
  lemma StaysComplete(data: seq<byte>, was: seq<nat>, son: seq<nat>, firsts: seq<nat>, heads: seq<nat>, p: nat)
    requires AllRepresented(data, was, firsts, p) && |heads| == HASH_SIZE && p + MIN_MATCH <= |data|
    requires heads[HashAt(data, p)] == p
    requires forall h :: 0 <= h < HASH_SIZE && h != HashAt(data, p) ==> CandTree(son, heads[h]) == CandTree(was, firsts[h])
    requires var t0 := CandTree(was, firsts[HashAt(data, p)]);
             AllBelow(t0, p) && Uncut(data, t0, p, TREE_DEPTH)
             && CandTree(son, p) == Node(p, Split(data, t0, p, TREE_DEPTH).0, Split(data, t0, p, TREE_DEPTH).1)
    ensures AllRepresented(data, son, heads, p + 1)
  {
    hide HashAt, Split, CandTree, AllBelow, Uncut, Represented;
    var own := HashAt(data, p);
    var t0 := CandTree(was, firsts[own]);
    forall q: nat | q < p + 1 && q + MIN_MATCH <= |data| ensures Represented(data, CandTree(son, heads[HashAt(data, q)]), q) {
      if q == p {
        TopRepresented(data, CandTree(son, p));
      } else if HashAt(data, q) == own {
        StaysRepresented(data, t0, p, q);
      }
    }
  }

  /** While nothing cuts the walks, the search misses no earlier position: whichever agrees
      with `p` on three bytes or more, a reported match is as near and as long. */
  lemma NearMatchReported(data: seq<byte>, son: seq<nat>, heads: seq<nat>, p: nat, q: nat)
    requires q < p && p + MIN_MATCH <= |data| && q + Limit(data, p) <= |data| && AllRepresented(data, son, heads, p)
    requires Bucket(data, son, heads[HashAt(data, p)], HashAt(data, p), p)
    requires AllBelow(CandTree(son, heads[HashAt(data, p)]), p) && Uncut(data, CandTree(son, heads[HashAt(data, p)]), p, TREE_DEPTH)
    requires MIN_MATCH <= Common(data, q, p, Limit(data, p))
    ensures AsGood(Met(data, CandTree(son, heads[HashAt(data, p)]), p, TREE_DEPTH, MIN_MATCH - 1), p - q, Common(data, q, p, Limit(data, p)))
  {
    hide Limit, CandTree, Represented, Met, Uncut, Ordered, AllBelow, AsGood;
    AlikeHash(data, q, p, Common(data, q, p, Limit(data, p)));
    RepresentedMet(data, CandTree(son, heads[HashAt(data, p)]), p, q);
  }

  lemma AlikeHash(data: seq<byte>, q: nat, p: nat, k: nat)
    requires MIN_MATCH <= k && Same(data, q, p, k)
    ensures HashAt(data, q) == HashAt(data, p)
  {
    AgreeAt(data, q, p, k, 0);
    AgreeAt(data, q, p, k, 1);
    AgreeAt(data, q, p, k, 2);
  }

  method ExtendMatch(data: seq<byte>, c: nat, p: nat, start: nat, limit: nat) returns (len: nat)
    requires c < p && p + limit <= |data| && start <= limit && Same(data, c, p, start)
    ensures len == Common(data, c, p, limit)
  {
    hide Common;
    len := start;
    while len < limit && data[c + len] == data[p + len]
      invariant start <= len <= limit && Same(data, c, p, len)
    {
      AgreeSnoc(data, c, p, len);
      len := len + 1;
    }
    CommonIs(data, c, p, limit, len);
  }
}
