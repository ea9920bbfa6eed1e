/** The binary-tree match finder: search order, the prefix that may be skipped, and the
    in-place insertion against a tree-valued specification. */
module MatchTree {
  import opened Bytes
  import opened Suffixes
  import opened Tokens

  const NICE_LEN: nat := 64
  const TREE_DEPTH: nat := 48
  const EMPTY: nat := 0xFFFF_FFFF

  /** How many bytes comparisons with `p` look at. */
  function Limit(data: seq<byte>, p: nat): (k: nat)
    requires p <= |data|
    ensures p + k <= |data|
  {
    if |data| - p < NICE_LEN then |data| - p else NICE_LEN
  }

  /** The first `k` bytes from `a` sort no later than those from `b`. */
  ghost predicate NoLater(data: seq<byte>, a: nat, b: nat, k: nat) {
    a + k <= |data| && b + k <= |data| && WinLe(data, a, a + k, b, b + k)
  }

  ghost predicate Same(data: seq<byte>, a: nat, b: nat, k: nat) {
    a + k <= |data| && b + k <= |data| && Agree(data, a, b, k)
  }

  lemma {:induction false} NoLaterShorter(data: seq<byte>, a: nat, b: nat, k: nat, j: nat)
    requires NoLater(data, a, b, k) && j <= k
    ensures NoLater(data, a, b, j)
    decreases k
  {
    if j > 0 && data[a] == data[b] {
      assert WinLe(data, a + 1, a + 1 + (k - 1), b + 1, b + 1 + (k - 1));
      NoLaterShorter(data, a + 1, b + 1, k - 1, j - 1);
    }
  }

  lemma {:induction false} SameIsNoLater(data: seq<byte>, a: nat, b: nat, k: nat)
    requires Same(data, a, b, k)
    ensures NoLater(data, a, b, k) && NoLater(data, b, a, k) && Same(data, b, a, k)
    decreases k
  {
    if k > 0 {
      SameIsNoLater(data, a + 1, b + 1, k - 1);
    }
  }

  lemma NoLaterTransitive(data: seq<byte>, a: nat, b: nat, c: nat, k: nat)
    requires NoLater(data, a, b, k) && NoLater(data, b, c, k)
    ensures NoLater(data, a, c, k)
  {
    WinTransitive(data, a, a + k, b, b + k, c, c + k);
  }

  lemma BothNoLater(data: seq<byte>, a: nat, b: nat, k: nat)
    requires NoLater(data, a, b, k) && NoLater(data, b, a, k)
    ensures Same(data, a, b, k)
  {
    WinAntisymmetric(data, a, a + k, b, b + k);
  }

  /** A first difference decides the order of every longer stretch. */
  lemma {:induction false} DifferenceDecides(data: seq<byte>, a: nat, b: nat, len: nat, k: nat)
    requires len < k && a + k <= |data| && b + k <= |data| && Same(data, a, b, len) && data[a + len] < data[b + len]
    ensures NoLater(data, a, b, k)
    decreases len
  {
    if len > 0 {
      DifferenceDecides(data, a + 1, b + 1, len - 1, k - 1);
    }
  }

  // ------------------------------------------------------------ search trees

  datatype Tree = Leaf | Node(pos: nat, smaller: Tree, greater: Tree)

  ghost function Nodes(t: Tree): set<nat> {
    match t
    case Leaf => {}
    case Node(p, s, g) => {p} + Nodes(s) + Nodes(g)
  }

  ghost predicate AllBelow(t: Tree, bound: nat) {
    forall z :: z in Nodes(t) ==> z < bound
  }

  /** Every node of `t` sorts no later (no earlier) than `p` as far as `p` is compared. */
  ghost predicate AllNoLater(data: seq<byte>, t: Tree, p: nat)
    requires p <= |data|
  {
    forall z :: z in Nodes(t) ==> NoLater(data, z, p, Limit(data, p))
  }

  ghost predicate AllNoEarlier(data: seq<byte>, t: Tree, p: nat)
    requires p <= |data|
  {
    forall z :: z in Nodes(t) ==> NoLater(data, p, z, Limit(data, p))
  }

  /** Search order; children are older than their parents; no node occurs twice. */
  ghost predicate Ordered(data: seq<byte>, t: Tree) {
    match t
    case Leaf => true
    case Node(p, s, g) =>
      && p <= |data| && AllBelow(s, p) && AllBelow(g, p)
      && AllNoLater(data, s, p) && AllNoEarlier(data, g, p)
      && Nodes(s) !! Nodes(g)
      && Ordered(data, s) && Ordered(data, g)
  }

  /** Length of the common stretch of `c` and `p`, up to `k`. */
  function Common(data: seq<byte>, c: nat, p: nat, k: nat): (len: nat)
    requires c + k <= |data| && p + k <= |data|
    ensures len <= k && Same(data, c, p, len)
    ensures len < k ==> data[c + len] != data[p + len]
    decreases k
  {
    if k == 0 || data[c] != data[p] then 0 else 1 + Common(data, c + 1, p + 1, k - 1)
  }

  lemma {:induction false} CommonIs(data: seq<byte>, c: nat, p: nat, k: nat, len: nat)
    requires c + k <= |data| && p + k <= |data| && len <= k && Same(data, c, p, len)
    requires len == k || data[c + len] != data[p + len]
    ensures Common(data, c, p, k) == len
    decreases len
  {
    if len > 0 {
      CommonIs(data, c + 1, p + 1, k - 1, len - 1);
    }
  }

  lemma ChildrenBelow(t: Tree, bound: nat)
    requires t.Node? && AllBelow(t, bound)
    ensures t.pos < bound && AllBelow(t.smaller, bound) && AllBelow(t.greater, bound)
  {
    assert t.pos in Nodes(t);
    assert Nodes(t.smaller) <= Nodes(t) && Nodes(t.greater) <= Nodes(t);
  }

  /** Split `t` at `p`: the trees that become the children of `p`. The walk stops at the
      depth limit or at a node beyond the window and drops the rest; a node that equals
      `p` as far as compared gives up its children. */
  ghost function Split(data: seq<byte>, t: Tree, p: nat, depth: nat): (r: (Tree, Tree))
    requires p <= |data| && AllBelow(t, p)
    decreases t
  {
    match t
    case Leaf => (Leaf, Leaf)
    case Node(c, s, g) =>
      ChildrenBelow(t, p);
      var k := Limit(data, p);
      if depth == 0 || p - c > MAX_WINDOW then (Leaf, Leaf)
      else
        var len := Common(data, c, p, k);
        if len == k then (s, g)
        else if data[c + len] < data[p + len] then
          var (a, b) := Split(data, g, p, depth - 1);
          (Node(c, s, a), b)
        else
          var (a, b) := Split(data, s, p, depth - 1);
          (a, Node(c, b, g))
  }

  lemma {:induction false} SplitShrinks(data: seq<byte>, t: Tree, p: nat, depth: nat)
    requires p <= |data| && AllBelow(t, p)
    ensures var r := Split(data, t, p, depth); Nodes(r.0) <= Nodes(t) && Nodes(r.1) <= Nodes(t)
    decreases t
  {
    if t.Node? && depth > 0 {
      ChildrenBelow(t, p);
      SplitShrinks(data, t.smaller, p, depth - 1);
      SplitShrinks(data, t.greater, p, depth - 1);
    }
  }

  /** Older positions are compared at least as far. */
  lemma LimitGrows(data: seq<byte>, c: nat, p: nat)
    requires c <= p <= |data|
    ensures Limit(data, p) <= Limit(data, c)
  {
  }

  /** What holds against an older node, and of that node against `p`, holds against `p`. */
  lemma ThroughNode(data: seq<byte>, t: Tree, c: nat, p: nat)
    requires c < p <= |data|
    ensures AllNoLater(data, t, c) && NoLater(data, c, p, Limit(data, p)) ==> AllNoLater(data, t, p)
    ensures AllNoEarlier(data, t, c) && NoLater(data, p, c, Limit(data, p)) ==> AllNoEarlier(data, t, p)
  {
    hide NoLater, Limit;
    LimitGrows(data, c, p);
    var j, k := Limit(data, p), Limit(data, c);
    if AllNoLater(data, t, c) && NoLater(data, c, p, j) {
      forall z | z in Nodes(t) ensures NoLater(data, z, p, j) {
        NoLaterShorter(data, z, c, k, j);
        NoLaterTransitive(data, z, c, p, j);
      }
    }
    if AllNoEarlier(data, t, c) && NoLater(data, p, c, j) {
      forall z | z in Nodes(t) ensures NoLater(data, p, z, j) {
        NoLaterShorter(data, c, z, k, j);
        NoLaterTransitive(data, p, c, z, j);
      }
    }
  }

  /** `c` keeps its smaller side and takes `a`, a part of its greater side, for the other. */
  lemma KeepSmaller(data: seq<byte>, t: Tree, p: nat, a: Tree, b: Tree)
    requires t.Node? && Ordered(data, t) && t.pos < p <= |data| && NoLater(data, t.pos, p, Limit(data, p))
    requires Nodes(a) <= Nodes(t.greater) && Nodes(b) <= Nodes(t.greater) && Nodes(a) !! Nodes(b) && Ordered(data, a) && AllNoLater(data, a, p)
    ensures Ordered(data, Node(t.pos, t.smaller, a)) && AllNoLater(data, Node(t.pos, t.smaller, a), p)
    ensures Nodes(Node(t.pos, t.smaller, a)) !! Nodes(b)
  {
    hide NoLater, Limit;
    ThroughNode(data, t.smaller, t.pos, p);
  }

  lemma KeepGreater(data: seq<byte>, t: Tree, p: nat, a: Tree, b: Tree)
    requires t.Node? && Ordered(data, t) && t.pos < p <= |data| && NoLater(data, p, t.pos, Limit(data, p))
    requires Nodes(b) <= Nodes(t.smaller) && Nodes(a) <= Nodes(t.smaller) && Nodes(a) !! Nodes(b) && Ordered(data, b) && AllNoEarlier(data, b, p)
    ensures Ordered(data, Node(t.pos, b, t.greater)) && AllNoEarlier(data, Node(t.pos, b, t.greater), p)
    ensures Nodes(a) !! Nodes(Node(t.pos, b, t.greater))
  {
    hide NoLater, Limit;
    ThroughNode(data, t.greater, t.pos, p);
  }

  lemma OrderedParts(data: seq<byte>, t: Tree)
    requires Ordered(data, t)
    ensures Ordered(data, Leaf) && Nodes(Leaf) == {}
    ensures forall p: nat :: p <= |data| ==> AllNoLater(data, Leaf, p) && AllNoEarlier(data, Leaf, p)
    ensures t.Node? ==>
              && Ordered(data, t.smaller) && Ordered(data, t.greater) && t.pos <= |data|
              && AllNoLater(data, t.smaller, t.pos) && AllNoEarlier(data, t.greater, t.pos)
              && Nodes(t.smaller) !! Nodes(t.greater)
  {
  }

  /** Splitting keeps the search order, and its halves lie on their sides of `p`. */
  lemma {:induction false} SplitOrdered(data: seq<byte>, t: Tree, p: nat, depth: nat)
    requires p <= |data| && AllBelow(t, p) && Ordered(data, t)
    ensures var r := Split(data, t, p, depth);
            Ordered(data, r.0) && Ordered(data, r.1) && Nodes(r.0) !! Nodes(r.1)
            && AllNoLater(data, r.0, p) && AllNoEarlier(data, r.1, p)
    decreases t
  {
    hide NoLater, Limit, Common, Same, Ordered, AllNoLater, AllNoEarlier, Nodes, AllBelow;
    OrderedParts(data, t);
    if t.Node? && depth > 0 && p - t.pos <= MAX_WINDOW {
      ChildrenBelow(t, p);
      var c, s, g := t.pos, t.smaller, t.greater;
      var k := Limit(data, p);
      var len := CommonWith(data, c, p);
      if len == k {
        SameIsNoLater(data, c, p, k);
        ThroughNode(data, s, c, p);
        ThroughNode(data, g, c, p);
      } else if data[c + len] < data[p + len] {
        DifferenceDecides(data, c, p, len, k);
        SplitOrdered(data, g, p, depth - 1);
        SplitShrinks(data, g, p, depth - 1);
        KeepSmaller(data, t, p, Split(data, g, p, depth - 1).0, Split(data, g, p, depth - 1).1);
      } else {
        SameIsNoLater(data, c, p, len);
        DifferenceDecides(data, p, c, len, k);
        SplitOrdered(data, s, p, depth - 1);
        SplitShrinks(data, s, p, depth - 1);
        KeepGreater(data, t, p, Split(data, s, p, depth - 1).0, Split(data, s, p, depth - 1).1);
      }
    }
  }

  lemma CommonWith(data: seq<byte>, c: nat, p: nat) returns (len: nat)
    requires c < p <= |data|
    ensures c + Limit(data, p) <= |data| && len == Common(data, c, p, Limit(data, p))
    ensures len <= Limit(data, p) && Same(data, c, p, len)
    ensures len < Limit(data, p) ==> data[c + len] != data[p + len]
    ensures p + Limit(data, p) <= |data|
  {
    len := Common(data, c, p, Limit(data, p));
  }

  // ------------------------------------------------------------ what may be skipped

  /** All of `t` lies between a bound that agrees with `p` on `low` bytes from below and
      one that agrees on `high` bytes from above. */
  ghost predicate Between(data: seq<byte>, t: Tree, p: nat, low: nat, high: nat) {
    forall z :: z in Nodes(t) ==> NoLater(data, p, z, low) && NoLater(data, z, p, high)
  }

  /** Every node of the subtree shares the shorter of the two prefixes with `p`, so
      comparison may start there. */
  lemma SharedPrefix(data: seq<byte>, t: Tree, p: nat, low: nat, high: nat)
    requires Between(data, t, p, low, high)
    ensures forall z :: z in Nodes(t) ==> Same(data, z, p, if low < high then low else high)
  {
    hide NoLater, Same;
    var m := if low < high then low else high;
    forall z | z in Nodes(t) ensures Same(data, z, p, m) {
      NoLaterShorter(data, p, z, low, m);
      NoLaterShorter(data, z, p, high, m);
      BothNoLater(data, z, p, m);
    }
  }

  /** Descending to the greater side of `c` raises the lower bound. */
  lemma BetweenGreater(data: seq<byte>, t: Tree, p: nat, low: nat, high: nat, len: nat)
    requires t.Node? && p <= |data| && Ordered(data, t) && t.pos < p && Between(data, t, p, low, high)
    requires len <= Limit(data, p) && Same(data, t.pos, p, len)
    ensures Between(data, t.greater, p, len, high)
  {
    hide NoLater, Limit, Same;
    var c := t.pos;
    LimitGrows(data, c, p);
    SameIsNoLater(data, c, p, len);
    forall z | z in Nodes(t.greater) ensures NoLater(data, p, z, len) {
      NoLaterShorter(data, c, z, Limit(data, c), len);
      NoLaterTransitive(data, p, c, z, len);
    }
  }

  lemma BetweenSmaller(data: seq<byte>, t: Tree, p: nat, low: nat, high: nat, len: nat)
    requires t.Node? && p <= |data| && Ordered(data, t) && t.pos < p && Between(data, t, p, low, high)
    requires len <= Limit(data, p) && Same(data, t.pos, p, len)
    ensures Between(data, t.smaller, p, low, len)
  {
    hide NoLater, Limit, Same;
    var c := t.pos;
    LimitGrows(data, c, p);
    SameIsNoLater(data, c, p, len);
    forall z | z in Nodes(t.smaller) ensures NoLater(data, z, p, len) {
      NoLaterShorter(data, z, c, Limit(data, c), len);
      NoLaterTransitive(data, z, c, p, len);
    }
  }

  // ------------------------------------------------------------ what is reported

  /** The child the walk goes on with after a node that differs from `p`. */
  ghost function Onward(data: seq<byte>, t: Tree, p: nat, len: nat): Tree
    requires t.Node? && t.pos + len < |data| && p + len < |data|
  {
    if data[t.pos + len] < data[p + len] then t.greater else t.smaller
  }

  lemma OnwardSide(data: seq<byte>, t: Tree, p: nat, len: nat)
    requires t.Node? && t.pos + len < |data| && p + len < |data|
    ensures Onward(data, t, p, len) == t.smaller || Onward(data, t, p, len) == t.greater
  {
  }

  /** The matches (distance, length) that the walk down `t` reports: each longer than
      `best` and than those before it. */
  ghost function Met(data: seq<byte>, t: Tree, p: nat, depth: nat, best: nat): seq<(nat, nat)>
    requires p <= |data| && AllBelow(t, p)
    decreases t
  {
    if t.Leaf? || depth == 0 then []
    else
      ChildrenBelow(t, p);
      if p - t.pos > MAX_WINDOW then []
      else
        var k := Limit(data, p);
        var len := Common(data, t.pos, p, k);
        var own := if len > best then [(p - t.pos, len)] else [];
        if len == k then own
        else own + Met(data, Onward(data, t, p, len), p, depth - 1, if len > best then len else best)
  }

  /** The walk down `t` ends at a free slot or at a node that equals `p`: neither the depth
      limit nor the window cuts it. */
  ghost predicate Uncut(data: seq<byte>, t: Tree, p: nat, depth: nat)
    requires p <= |data| && AllBelow(t, p)
    decreases t
  {
    if t.Leaf? then true
    else
      ChildrenBelow(t, p);
      && depth > 0 && p - t.pos <= MAX_WINDOW
      && var k := Limit(data, p);
         var len := Common(data, t.pos, p, k);
         len == k || Uncut(data, Onward(data, t, p, len), p, depth - 1)
  }

  /** Some match in `ms` is at least as near and as long. */
  ghost predicate AsGood(ms: seq<(nat, nat)>, dist: int, len: nat) {
    exists i :: 0 <= i < |ms| && ms[i].0 <= dist && ms[i].1 >= len
  }

  lemma AsGoodLater(own: seq<(nat, nat)>, ms: seq<(nat, nat)>, dist: int, len: nat)
    requires AsGood(own, dist, len) || AsGood(ms, dist, len)
    ensures AsGood(own + ms, dist, len)
  {
    if AsGood(own, dist, len) {
      var i :| 0 <= i < |own| && own[i].0 <= dist && own[i].1 >= len;
      assert (own + ms)[i] == own[i];
    } else {
      var i :| 0 <= i < |ms| && ms[i].0 <= dist && ms[i].1 >= len;
      assert (own + ms)[|own| + i] == ms[i];
    }
  }

  lemma {:induction false} SameShorter(data: seq<byte>, a: nat, b: nat, k: nat, j: nat)
    requires Same(data, a, b, k) && j <= k
    ensures Same(data, a, b, j)
    ensures j < k ==> data[a + j] == data[b + j]
    decreases k
  {
    if j > 0 {
      SameShorter(data, a + 1, b + 1, k - 1, j - 1);
    }
  }

  lemma SideOrder(data: seq<byte>, t: Tree, z: nat)
    requires t.Node? && Ordered(data, t)
    ensures t.pos <= |data| && (z in Nodes(t.smaller) ==> NoLater(data, z, t.pos, Limit(data, t.pos)))
    ensures z in Nodes(t.greater) ==> NoLater(data, t.pos, z, Limit(data, t.pos))
  {
    hide Limit, NoLater;
  }

  /** A position on the far side of `c` shares no more with `p` than `c` does. */
  lemma Beyond(data: seq<byte>, c: nat, p: nat, z: nat, len: nat, k: nat)
    requires len < k && c + k <= |data| && p + k <= |data| && z + k <= |data| && Same(data, c, p, len)
    requires || (data[c + len] < data[p + len] && NoLater(data, z, c, k))
             || (data[c + len] > data[p + len] && NoLater(data, c, z, k))
    ensures Common(data, z, p, k) <= len
  {
    hide NoLater, Same, Common;
    var m, j := Common(data, z, p, k), len + 1;
    if m > len {
      SameShorter(data, z, p, m, j);
      SameIsNoLater(data, z, p, j);
      SameIsNoLater(data, c, p, len);
      if data[c + len] < data[p + len] {
        NoLaterShorter(data, z, c, k, j);
        NoLaterTransitive(data, p, z, c, j);
        DifferenceDecides(data, c, p, len, j);
      } else {
        NoLaterShorter(data, c, z, k, j);
        NoLaterTransitive(data, c, z, p, j);
        DifferenceDecides(data, p, c, len, j);
      }
      BothNoLater(data, c, p, j);
      SameShorter(data, c, p, j, len);
    }
  }

  /** What the walk leaves aside shares no more with `p` than the node it turned at. */
  lemma FarSide(data: seq<byte>, t: Tree, p: nat, z: nat)
    requires t.Node? && t.pos < p <= |data| && Ordered(data, t)
    requires z + Limit(data, p) <= |data| && t.pos + Limit(data, p) <= |data| && p + Limit(data, p) <= |data|
    requires var len := Common(data, t.pos, p, Limit(data, p));
             len < Limit(data, p) && z !in Nodes(Onward(data, t, p, len))
    requires z in Nodes(t.smaller) || z in Nodes(t.greater)
    ensures Common(data, z, p, Limit(data, p)) <= Common(data, t.pos, p, Limit(data, p))
  {
    hide Limit, Common, NoLater, Ordered, Same, Nodes;
    var c, k := t.pos, Limit(data, p);
    var len := Common(data, c, p, k);
    SideOrder(data, t, z);
    LimitGrows(data, c, p);
    if data[c + len] < data[p + len] {
      NoLaterShorter(data, z, c, Limit(data, c), k);
    } else {
      NoLaterShorter(data, c, z, Limit(data, c), k);
    }
    Beyond(data, c, p, z, len, k);
  }

  /** One step of the walk: what it reports at the node, and where it goes on. */
  lemma MetAt(data: seq<byte>, t: Tree, p: nat, depth: nat, best: nat, len: nat)
    requires p <= |data| && t.Node? && AllBelow(t, p) && depth > 0 && p - t.pos <= MAX_WINDOW
    requires t.pos + Limit(data, p) <= |data| && len == Common(data, t.pos, p, Limit(data, p))
    ensures AllBelow(t.smaller, p) && AllBelow(t.greater, p)
    ensures var own := if len > best then [(p - t.pos, len)] else [];
            Met(data, t, p, depth, best) ==
            if len == Limit(data, p) then own
            else own + Met(data, Onward(data, t, p, len), p, depth - 1, if len > best then len else best)
    ensures Uncut(data, t, p, depth) <==> (len == Limit(data, p) || Uncut(data, Onward(data, t, p, len), p, depth - 1))
  {
    hide Common, Limit, Same;
    ChildrenBelow(t, p);
  }

  lemma MetCut(data: seq<byte>, t: Tree, p: nat, depth: nat, best: nat)
    requires p <= |data| && AllBelow(t, p)
    ensures (t.Leaf? || depth == 0 || p - t.pos > MAX_WINDOW) ==> Met(data, t, p, depth, best) == []
    ensures t.Node? && (depth == 0 || p - t.pos > MAX_WINDOW) ==> !Uncut(data, t, p, depth)
  {
    hide Common, Limit, Same;
  }

  /** A walk that nothing cuts misses no node: a reported match is at least as near as the
      node and as long as its common stretch with `p`. */
  lemma {:induction false} NearMatchMet(data: seq<byte>, t: Tree, p: nat, depth: nat, best: nat, z: nat)
    requires p <= |data| && AllBelow(t, p) && Ordered(data, t) && Uncut(data, t, p, depth) && z in Nodes(t)
    requires z + Limit(data, p) <= |data|
    ensures var len := Common(data, z, p, Limit(data, p));
            len <= best || AsGood(Met(data, t, p, depth, best), p - z, len)
    decreases t
  {
    hide *;
    OrderedParts(data, t);
    NodeOlder(data, t, z);
    MetCut(data, t, p, depth, best);
    ChildrenBelow(t, p);
    var c, k := t.pos, Limit(data, p);
    var len := CommonWith(data, c, p);
    MetAt(data, t, p, depth, best, len);
    var m := Common(data, z, p, k);
    var own: seq<(nat, nat)> := if len > best then [(p - c, len)] else [];
    OwnAsGood(own, p - c, len, best, p - z, m);
    if len < k {
      var next := Onward(data, t, p, len);
      OnwardSide(data, t, p, len);
      var more := if len > best then len else best;
      var ms := Met(data, next, p, depth - 1, more);
      if z in Nodes(next) {
        NearMatchMet(data, next, p, depth - 1, more, z);
      } else if z != c {
        FarSide(data, t, p, z);
      }
      if AsGood(own, p - z, m) || AsGood(ms, p - z, m) {
        AsGoodLater(own, ms, p - z, m);
      }
    }
  }

  lemma NodeOlder(data: seq<byte>, t: Tree, z: nat)
    requires Ordered(data, t) && z in Nodes(t)
    ensures t.Node? && z <= t.pos && (z == t.pos || z in Nodes(t.smaller) || z in Nodes(t.greater))
  {
    hide NoLater, Limit;
  }

  lemma OwnAsGood(own: seq<(nat, nat)>, dist: nat, len: nat, best: nat, far: int, m: nat)
    requires own == if len > best then [(dist, len)] else []
    requires dist <= far
    ensures m <= len && m > best ==> AsGood(own, far, m)
  {
    if m <= len && m > best {
      assert own[0] == (dist, len);
    }
  }

  // ------------------------------------------------------------ nothing is lost

  /** Position `q` is in the tree, or a later one is there that equals it as far as the
      later one is compared. */
  ghost predicate Represented(data: seq<byte>, t: Tree, q: nat) {
    exists z :: z in Nodes(t) && Stands(data, z, q)
  }

  ghost predicate Stands(data: seq<byte>, z: nat, q: nat) {
    q <= z <= |data| && Same(data, q, z, Limit(data, z))
  }

  /** A split that nothing cuts drops at most nodes that equal `p`. */
  lemma {:induction false} SplitKeeps(data: seq<byte>, t: Tree, p: nat, depth: nat, z: nat)
    requires p <= |data| && AllBelow(t, p) && Uncut(data, t, p, depth) && z in Nodes(t)
    ensures var r := Split(data, t, p, depth); z in Nodes(r.0) || z in Nodes(r.1) || Same(data, z, p, Limit(data, p))
    decreases t
  {
    hide Limit, Same;
    ChildrenBelow(t, p);
    var k := Limit(data, p);
    var len := CommonWith(data, t.pos, p);
    if len < k {
      var next := Onward(data, t, p, len);
      if z in Nodes(next) {
        SplitKeeps(data, next, p, depth - 1, z);
      }
    }
  }

  lemma {:induction false} SameTransitive(data: seq<byte>, a: nat, b: nat, c: nat, k: nat)
    requires Same(data, a, b, k) && Same(data, b, c, k)
    ensures Same(data, a, c, k)
    decreases k
  {
    if k > 0 {
      SameTransitive(data, a + 1, b + 1, c + 1, k - 1);
    }
  }

  /** What was represented stays represented once `p` is on top. */
  lemma StaysRepresented(data: seq<byte>, t: Tree, p: nat, q: nat)
    requires p <= |data| && AllBelow(t, p) && Uncut(data, t, p, TREE_DEPTH) && Represented(data, t, q)
    ensures var r := Split(data, t, p, TREE_DEPTH); Represented(data, Node(p, r.0, r.1), q)
  {
    hide Limit, Same, Split, Uncut;
    var r := Split(data, t, p, TREE_DEPTH);
    var z :| z in Nodes(t) && Stands(data, z, q);
    SplitKeeps(data, t, p, TREE_DEPTH, z);
    var top := Node(p, r.0, r.1);
    assert p in Nodes(top) && Nodes(r.0) <= Nodes(top) && Nodes(r.1) <= Nodes(top);
    if z !in Nodes(r.0) && z !in Nodes(r.1) {
      LimitGrows(data, z, p);
      SameShorter(data, q, z, Limit(data, z), Limit(data, p));
      SameTransitive(data, q, z, p, Limit(data, p));
      assert Stands(data, p, q);
    }
  }

  lemma TopRepresented(data: seq<byte>, t: Tree)
    requires t.Node? && t.pos <= |data|
    ensures Represented(data, t, t.pos)
  {
    AgreeSelf(data, t.pos, Limit(data, t.pos));
    assert Stands(data, t.pos, t.pos);
  }

  lemma {:induction false} AgreeSelf(data: seq<byte>, a: nat, k: nat)
    requires a + k <= |data|
    ensures Same(data, a, a, k)
    decreases k
  {
    if k > 0 {
      AgreeSelf(data, a + 1, k - 1);
    }
  }

  /** A represented position is met as well. */
  lemma RepresentedMet(data: seq<byte>, t: Tree, p: nat, q: nat)
    requires p <= |data| && AllBelow(t, p) && Ordered(data, t) && Uncut(data, t, p, TREE_DEPTH) && Represented(data, t, q)
    requires q < p
    requires q + Limit(data, p) <= |data| && MIN_MATCH <= Common(data, q, p, Limit(data, p))
    ensures AsGood(Met(data, t, p, TREE_DEPTH, MIN_MATCH - 1), p - q, Common(data, q, p, Limit(data, p)))
  {
    hide Limit, Same, Met, Uncut, Common, Ordered;
    var z :| z in Nodes(t) && Stands(data, z, q);
    var k := Limit(data, p);
    LimitGrows(data, z, p);
    var m := Common(data, q, p, k);
    SameShorter(data, q, z, Limit(data, z), k);
    SameIsNoLater(data, q, z, k);
    CommonAlike(data, z, q, p, k);
    NearMatchMet(data, t, p, TREE_DEPTH, MIN_MATCH - 1, z);
    var ms := Met(data, t, p, TREE_DEPTH, MIN_MATCH - 1);
    var i :| 0 <= i < |ms| && ms[i].0 <= p - z && ms[i].1 >= m;
  }

  lemma {:induction false} CommonAlike(data: seq<byte>, a: nat, b: nat, p: nat, k: nat)
    requires Same(data, a, b, k) && p + k <= |data|
    ensures Common(data, a, p, k) == Common(data, b, p, k)
    decreases k
  {
    if k > 0 {
      CommonAlike(data, a + 1, b + 1, p + 1, k - 1);
    }
  }
}
