/** Huffman's tree by repeated merging of the two lightest nodes, kept as a
    parent array; code lengths are the climbs from leaf to root. */
module HuffmanTree {
  import opened BitStrings
  import opened Counting
  import opened CodeLengths

  const NO_PARENT: nat := 0xFFFF_FFFF_FFFF_FFFF
  const FREQ_LIMIT: nat := 0x1_0000_0000

  /** What the parent array stands for. */
  datatype Tree = Leaf(id: nat, weight: nat) | Node(id: nat, left: Tree, right: Tree)

  function Weight(t: Tree): nat {
    match t
    case Leaf(_, w) => w
    case Node(_, l, r) => Weight(l) + Weight(r)
  }

  function Height(t: Tree): nat {
    match t
    case Leaf(_, _) => 0
    case Node(_, l, r) => 1 + if Height(l) < Height(r) then Height(r) else Height(l)
  }

  ghost function Ids(t: Tree): set<nat> {
    match t
    case Leaf(id, _) => {id}
    case Node(id, l, r) => {id} + Ids(l) + Ids(r)
  }

  ghost function Syms(t: Tree): set<nat> {
    match t
    case Leaf(id, _) => {id}
    case Node(_, l, r) => Syms(l) + Syms(r)
  }

  ghost predicate Proper(t: Tree) {
    t.Node? ==>
      && t.left.id < t.id && t.right.id < t.id
      && Ids(t.left) !! Ids(t.right)
      && Proper(t.left) && Proper(t.right)
  }

  ghost predicate Linked(parent: seq<nat>, t: Tree) {
    t.id < |parent| &&
    (t.Node? ==>
      && Linked(parent, t.left) && Linked(parent, t.right)
      && parent[t.left.id] == t.id && parent[t.right.id] == t.id)
  }

  lemma {:induction false} IdsBelow(t: Tree)
    requires Proper(t)
    ensures forall x :: x in Ids(t) ==> x <= t.id
    ensures t.id in Ids(t) && Syms(t) <= Ids(t)
  {
    if t.Node? {
      IdsBelow(t.left);
      IdsBelow(t.right);
    }
  }

  lemma {:induction false} LinkedFrame(p: seq<nat>, q: seq<nat>, t: Tree)
    requires Proper(t) && Linked(p, t) && |p| == |q|
    requires forall x :: x in Ids(t) && x != t.id && x < |p| ==> q[x] == p[x]
    ensures Linked(q, t)
  {
    if t.Node? {
      IdsBelow(t.left);
      IdsBelow(t.right);
      LinkedFrame(p, q, t.left);
      LinkedFrame(p, q, t.right);
    }
  }

  // ------------------------------------------------------------ depths

  /** Steps from a node up to the root. */
  function Climb(parent: seq<nat>, x: nat): nat
    decreases |parent| - x
  {
    if x < |parent| && x < parent[x] < |parent| then 1 + Climb(parent, parent[x]) else 0
  }

  /** Every leaf's length is its depth, the root of `t` being at depth `d`. */
  ghost predicate Depths(lens: seq<nat>, t: Tree, d: nat) {
    match t
    case Leaf(id, _) => id < |lens| && lens[id] == d
    case Node(_, l, r) => Depths(lens, l, d + 1) && Depths(lens, r, d + 1)
  }

  lemma {:induction false} ClimbDepths(parent: seq<nat>, lens: seq<nat>, t: Tree, d: nat)
    requires Proper(t) && Linked(parent, t) && Climb(parent, t.id) == d
    requires forall s :: s in Syms(t) ==> s < |lens| && lens[s] == Climb(parent, s)
    ensures Depths(lens, t, d)
  {
    if t.Node? {
      ClimbDepths(parent, lens, t.left, d + 1);
      ClimbDepths(parent, lens, t.right, d + 1);
    }
  }

  /** How deep a leaf lies. */
  ghost function DepthIn(t: Tree, x: nat): nat
    requires x in Syms(t)
  {
    match t
    case Leaf(_, _) => 0
    case Node(_, l, r) => 1 + if x in Syms(l) then DepthIn(l, x) else DepthIn(r, x)
  }

  /** The depths of the leaves, and zero for every other symbol. */
  ghost function TreeLengths(t: Tree, n: nat): (lens: seq<nat>)
    ensures |lens| == n
  {
    seq(n, s requires 0 <= s < n => if s in Syms(t) then DepthIn(t, s) else 0)
  }

  lemma {:induction false} DepthsAre(lens: seq<nat>, t: Tree, d: nat)
    requires Proper(t)
    ensures Depths(lens, t, d) <==> forall s :: s in Syms(t) ==> s < |lens| && lens[s] == d + DepthIn(t, s)
    decreases t
  {
    match t
    case Leaf(_, _) =>
    case Node(_, l, r) =>
      IdsBelow(l);
      IdsBelow(r);
      DepthsAre(lens, l, d + 1);
      DepthsAre(lens, r, d + 1);
      DepthsSplit(lens, t, d);
  }

  lemma DepthsSplit(lens: seq<nat>, t: Tree, d: nat)
    requires t.Node? && Syms(t.left) !! Syms(t.right)
    ensures (forall s :: s in Syms(t) ==> s < |lens| && lens[s] == d + DepthIn(t, s))
      <==> ((forall s :: s in Syms(t.left) ==> s < |lens| && lens[s] == d + 1 + DepthIn(t.left, s))
            && forall s :: s in Syms(t.right) ==> s < |lens| && lens[s] == d + 1 + DepthIn(t.right, s))
  {
    assert forall s :: s in Syms(t.left) ==> s in Syms(t) && DepthIn(t, s) == 1 + DepthIn(t.left, s);
    assert forall s :: s in Syms(t.right) ==> s in Syms(t) && s !in Syms(t.left) && DepthIn(t, s) == 1 + DepthIn(t.right, s);
  }

  lemma SingleLeaf(lens: seq<nat>, x: nat)
    requires x < |lens|
    ensures Taken(lens, {x}, |lens|) == Share(lens[x])
    ensures Overlong(lens, {x}, |lens|) == if lens[x] > MAX_BITS then 1 else 0
  {
    TakenNone(lens, |lens|);
    assert {} + {x} == {x};
    TakenAdd(lens, {}, x, |lens|);
  }

  /** A subtree at depth d takes the share of a code of length d, apart from one unit
      for each of its leaves that had to be capped. */
  lemma {:induction false} TreeSpace(lens: seq<nat>, t: Tree, d: nat)
    requires Proper(t) && Depths(lens, t, d)
    ensures d <= MAX_BITS ==> Taken(lens, Syms(t), |lens|) <= Share(d) + Overlong(lens, Syms(t), |lens|)
    ensures d > MAX_BITS ==> Taken(lens, Syms(t), |lens|) == Overlong(lens, Syms(t), |lens|)
    decreases t
  {
    match t
    case Leaf(id, _) => SingleLeaf(lens, id);
    case Node(_, l, r) =>
      IdsBelow(l);
      IdsBelow(r);
      assert Syms(l) !! Syms(r);
      TakenUnion(lens, Syms(l), Syms(r), |lens|);
      TreeSpace(lens, l, d + 1);
      TreeSpace(lens, r, d + 1);
      assert d < MAX_BITS ==> Share(d) == 2 * Share(d + 1);
  }

  lemma {:induction false} DepthRange(lens: seq<nat>, t: Tree, d: nat)
    requires Depths(lens, t, d)
    ensures forall s :: s in Syms(t) ==> s < |lens| && d <= lens[s] <= d + Height(t)
    ensures t.Node? ==> forall s :: s in Syms(t) ==> d < lens[s]
    decreases t
  {
    if t.Node? {
      DepthRange(lens, t.left, d + 1);
      DepthRange(lens, t.right, d + 1);
    }
  }

  // ------------------------------------------------------------ growth: depths fit in eight bits

  function Fib(h: nat): (f: nat)
    ensures f >= 1
  {
    if h == 0 then 1 else if h == 1 then 2 else Fib(h - 1) + Fib(h - 2)
  }

  lemma {:induction false} FibGrows(k: nat)
    ensures Fib(2 * k) >= Pow2(k)
    decreases k
  {
    if k > 0 {
      FibGrows(k - 1);
      FibStep(2 * k - 2);
    }
  }

  lemma FibStep(h: nat)
    ensures Fib(h + 2) >= 2 * Fib(h) && Fib(h + 1) >= Fib(h)
  {
    assert Fib(h + 2) == Fib(h + 1) + Fib(h);
    assert h > 0 ==> Fib(h + 1) == Fib(h) + Fib(h - 1);
  }

  lemma {:induction false} FibMonotone(g: nat, h: nat)
    requires g <= h
    ensures Fib(g) <= Fib(h)
    decreases h - g
  {
    if g < h {
      FibStep(g);
      FibMonotone(g + 1, h);
    }
  }

  ghost predicate Grown(t: Tree) {
    Weight(t) >= Fib(Height(t)) && (t.Node? ==> Grown(t.left) && Grown(t.right))
  }

  ghost predicate KidsAtMost(t: Tree, m: nat) {
    t.Node? ==> Weight(t.left) <= m && Weight(t.right) <= m
  }

  /** The lighter partner is no lighter than what was merged before, so weights grow
      at least as fast as the Fibonacci numbers. */
  lemma MergeGrows(l: Tree, r: Tree, id: nat, m: nat)
    requires Grown(l) && Grown(r) && KidsAtMost(l, m) && KidsAtMost(r, m)
    requires m <= Weight(l) && m <= Weight(r)
    ensures Grown(Node(id, l, r))
  {
    hide Fib;
    if Height(l) < Height(r) {
      TallerGrows(r, l, m);
    } else {
      TallerGrows(l, r, m);
    }
  }

  lemma HeightAbove(a: Tree)
    ensures a.Leaf? ==> Height(a) == 0
    ensures a.Node? ==> Height(a) == 1 + Height(if Height(a.left) < Height(a.right) then a.right else a.left)
  {
  }

  lemma FibSum(h: nat)
    ensures Fib(h + 2) == Fib(h + 1) + Fib(h) && Fib(0) == 1 && Fib(1) == 2
  {
  }

  lemma TallerGrows(a: Tree, b: Tree, m: nat)
    requires Grown(a) && Grown(b) && KidsAtMost(a, m) && m <= Weight(b)
    ensures Weight(a) + Weight(b) >= Fib(1 + Height(a))
  {
    hide Weight, Height, Ids, Fib;
    HeightAbove(a);
    if a.Node? {
      var c := if Height(a.left) < Height(a.right) then a.right else a.left;
      FibSum(Height(c));
      assert Weight(a) >= Fib(Height(c) + 1) && Weight(b) >= Weight(c) >= Fib(Height(c));
    } else {
      FibSum(0);
    }
  }

  ghost predicate Light(t: Tree) {
    match t
    case Leaf(_, w) => w < FREQ_LIMIT
    case Node(_, l, r) => Light(l) && Light(r)
  }

  lemma {:induction false} WeightBound(t: Tree)
    requires Proper(t) && Light(t)
    ensures Weight(t) <= FREQ_LIMIT * |Syms(t)|
    decreases t
  {
    if t.Node? {
      WeightBound(t.left);
      WeightBound(t.right);
      IdsBelow(t.left);
      IdsBelow(t.right);
      assert |Syms(t)| == |Syms(t.left)| + |Syms(t.right)|;
    }
  }

  /** Frequencies below 2^32 and at most 2^15 symbols: no leaf is deeper than 95. */
  lemma HeightBound(t: Tree, n: nat)
    requires Proper(t) && Light(t) && Grown(t) && n <= KRAFT_ONE
    requires forall s :: s in Syms(t) ==> s < n
    ensures Height(t) < 96
  {
    hide Fib, Height, Weight, Proper, Light;
    WeightBound(t);
    assert Syms(t) <= Range(n);
    SubsetSize(Syms(t), Range(n));
    assert Weight(t) <= FREQ_LIMIT * KRAFT_ONE;
    FibGrows(48);
    Pow48();
    if Height(t) >= 96 {
      FibMonotone(96, Height(t));
    }
  }

  lemma Pow48()
    ensures Pow2(48) == 0x1_0000_0000_0000
  {
    assert Pow2(8) == 256;
    Pow2Add(8, 8);
    Pow2Add(16, 16);
    Pow2Add(32, 16);
  }

  // ------------------------------------------------------------ the forest being merged

  datatype Item = Item(freq: nat, id: nat)

  predicate NoLater(a: Item, b: Item) {
    a.freq < b.freq || (a.freq == b.freq && a.id <= b.id)
  }

  ghost predicate Stands(parent: seq<nat>, x: Item, t: Tree, next: nat, last: nat, n: nat) {
    && x.id == t.id < next <= |parent| && x.freq == Weight(t) >= last
    && Proper(t) && Linked(parent, t) && parent[t.id] == NO_PARENT
    && Grown(t) && KidsAtMost(t, last) && Light(t)
    && forall s :: s in Syms(t) ==> s < n
  }

  ghost predicate Apart(trees: seq<Tree>) {
    forall i, j :: 0 <= i < j < |trees| ==> Ids(trees[i]) !! Ids(trees[j])
  }

  ghost predicate Forest(parent: seq<nat>, heap: seq<Item>, trees: seq<Tree>, next: nat, last: nat, n: nat) {
    && |trees| == |heap| && next <= |parent|
    && (forall i :: 0 <= i < |heap| ==> Stands(parent, heap[i], trees[i], next, last, n))
    && Apart(trees)
  }

  ghost function AllSyms(trees: seq<Tree>): set<nat>
  {
    if trees == [] then {} else AllSyms(trees[..|trees| - 1]) + Syms(trees[|trees| - 1])
  }

  function Without<T>(s: seq<T>, i: nat): (r: seq<T>)
    requires i < |s|
    ensures |r| == |s| - 1
    ensures forall k :: 0 <= k < |r| ==> r[k] == if k < i then s[k] else s[k + 1]
  {
    s[..i] + s[i + 1..]
  }

  lemma {:induction false} AllSymsWithout(trees: seq<Tree>, i: nat)
    requires i < |trees|
    ensures AllSyms(trees) == AllSyms(Without(trees, i)) + Syms(trees[i])
    decreases |trees|
  {
    var m := |trees| - 1;
    if i < m {
      AllSymsWithout(trees[..m], i);
      assert Without(trees, i)[..m - 1] == Without(trees[..m], i);
    } else {
      assert Without(trees, i) == trees[..m];
    }
  }

  /** Where the least item is. */
  function Least(heap: seq<Item>): (at: nat)
    requires heap != []
    ensures at < |heap| && forall i :: 0 <= i < |heap| ==> NoLater(heap[at], heap[i])
  {
    if |heap| == 1 then 0
    else
      var m := |heap| - 1;
      var best := Least(heap[..m]);
      assert forall i :: 0 <= i < m ==> heap[..m][i] == heap[i];
      if NoLater(heap[best], heap[m]) then best else m
  }

  /** What the heap holds for a tree. */
  function ItemOf(t: Tree): Item {
    Item(Weight(t), t.id)
  }

  function Items(trees: seq<Tree>): (heap: seq<Item>)
    ensures |heap| == |trees| && forall i :: 0 <= i < |heap| ==> heap[i] == ItemOf(trees[i])
  {
    seq(|trees|, i requires 0 <= i < |trees| => ItemOf(trees[i]))
  }

  /** The two lightest trees, ties by number, become the children of a new node. */
  function MergedOnce(trees: seq<Tree>, next: nat): (r: seq<Tree>)
    requires |trees| > 1
    ensures |r| == |trees| - 1
  {
    var i := Least(Items(trees));
    var rest := Without(trees, i);
    var j := Least(Items(rest));
    Without(rest, j) + [Node(next, trees[i], rest[j])]
  }

  /** The tree that merging ends with. */
  function MergedFrom(trees: seq<Tree>, next: nat): Tree
    requires trees != []
    decreases |trees|
  {
    if |trees| == 1 then trees[0] else MergedFrom(MergedOnce(trees, next), next + 1)
  }

  lemma LeastIs(trees: seq<Tree>, k: nat)
    requires k < |trees|
    ensures var i := Least(Items(trees));
      Weight(trees[i]) < Weight(trees[k]) || (Weight(trees[i]) == Weight(trees[k]) && trees[i].id <= trees[k].id)
  {
    hide Weight, Least;
    assert NoLater(Items(trees)[Least(Items(trees))], Items(trees)[k]);
  }

  /** The two trees merged are the lightest, of equal weights the one made or numbered first. */
  lemma MergesTwoLightest(trees: seq<Tree>, next: nat) returns (i: nat, j: nat)
    requires |trees| > 1
    ensures i < |trees| && j < |trees| && i != j
    ensures MergedOnce(trees, next)[|trees| - 2] == Node(next, trees[i], trees[j])
    ensures forall k :: 0 <= k < |trees| ==>
      Weight(trees[i]) < Weight(trees[k]) || (Weight(trees[i]) == Weight(trees[k]) && trees[i].id <= trees[k].id)
    ensures forall k :: 0 <= k < |trees| && k != i ==>
      Weight(trees[j]) < Weight(trees[k]) || (Weight(trees[j]) == Weight(trees[k]) && trees[j].id <= trees[k].id)
  {
    hide Weight, Least, Items, NoLater;
    i := Least(Items(trees));
    var rest := Without(trees, i);
    var l := Least(Items(rest));
    j := if l < i then l else l + 1;
    assert rest[l] == trees[j];
    assert |Without(rest, l)| == |trees| - 2;
    forall k | 0 <= k < |trees|
      ensures Weight(trees[i]) < Weight(trees[k]) || (Weight(trees[i]) == Weight(trees[k]) && trees[i].id <= trees[k].id)
    {
      LeastIs(trees, k);
    }
    forall k | 0 <= k < |trees| && k != i
      ensures Weight(trees[j]) < Weight(trees[k]) || (Weight(trees[j]) == Weight(trees[k]) && trees[j].id <= trees[k].id)
    {
      var k0 := if k < i then k else k - 1;
      assert rest[k0] == trees[k];
      LeastIs(rest, k0);
    }
  }

  method PopMin(heap: seq<Item>) returns (x: Item, rest: seq<Item>, ghost at: nat)
    requires heap != []
    ensures at == Least(heap) < |heap| && x == heap[at] && rest == Without(heap, at)
    ensures forall i :: 0 <= i < |heap| ==> NoLater(x, heap[i])
  {
    var best := 0;
    for k := 1 to |heap|
      invariant 0 <= best < k <= |heap| && best == Least(heap[..k])
    {
      assert heap[..k + 1][..k] == heap[..k];
      if !NoLater(heap[best], heap[k]) {
        best := k;
      }
    }
    assert heap[..|heap|] == heap;
    x, rest, at := heap[best], heap[..best] + heap[best + 1..], best;
  }

  /** A tree that is not merged stands as before. */
  lemma StandsStill(p: seq<nat>, q: seq<nat>, x: Item, t: Tree, next: nat, last: nat, last': nat, n: nat)
    requires Stands(p, x, t, next, last, n) && |q| == |p| && next < |q| && last <= last' <= x.freq
    requires forall i :: 0 <= i < |p| && i in Ids(t) ==> q[i] == p[i]
    ensures Stands(q, x, t, next + 1, last', n)
  {
    hide Grown, Light;
    IdsBelow(t);
    LinkedFrame(p, q, t);
  }

  /** The merged tree stands at the new node. */
  lemma StandsMerged(p: seq<nat>, q: seq<nat>, a: Item, b: Item, ta: Tree, tb: Tree, next: nat, last: nat, n: nat)
    requires Stands(p, a, ta, next, last, n) && Stands(p, b, tb, next, last, n) && Ids(ta) !! Ids(tb)
    requires a.freq <= b.freq && next < |p| && p[next] == NO_PARENT
    requires q == p[a.id := next][b.id := next]
    ensures Stands(q, Item(a.freq + b.freq, next), Node(next, ta, tb), next + 1, b.freq, n)
  {
    hide Grown, Height, Fib;
    IdsBelow(ta);
    IdsBelow(tb);
    assert forall x :: x in Ids(ta) && x != ta.id && x < |p| ==> q[x] == p[x];
    assert forall x :: x in Ids(tb) && x != tb.id && x < |p| ==> q[x] == p[x];
    LinkedFrame(p, q, ta);
    LinkedFrame(p, q, tb);
    MergeGrows(ta, tb, next, last);
  }

  /** One round: the two lightest become children of a new node. */
  lemma Merge(parent: seq<nat>, heap: seq<Item>, trees: seq<Tree>, next: nat, last: nat, n: nat, i: nat, j: nat)
    requires Forest(parent, heap, trees, next, last, n) && next < |parent| && parent[next] == NO_PARENT
    requires i < |heap| && j < |heap| - 1
    requires var rest := Without(heap, i);
             (forall k :: 0 <= k < |heap| ==> NoLater(heap[i], heap[k])) && (forall k :: 0 <= k < |rest| ==> NoLater(rest[j], rest[k]))
    ensures var rest, trest := Without(heap, i), Without(trees, i);
            var a, b, ta, tb := heap[i], rest[j], trees[i], trest[j];
            a.id < |parent| && b.id < |parent|
            && Forest(parent[a.id := next][b.id := next], Without(rest, j) + [Item(a.freq + b.freq, next)],
                      Without(trest, j) + [Node(next, ta, tb)], next + 1, b.freq, n)
            && AllSyms(Without(trest, j) + [Node(next, ta, tb)]) == AllSyms(trees)
  {
    hide Proper, Linked, Grown, Light, KidsAtMost, Weight, Ids, Syms, AllSyms;
    var rest, trest := Without(heap, i), Without(trees, i);
    var a, b, ta, tb := heap[i], rest[j], trees[i], trest[j];
    var j' := if j < i then j else j + 1;
    assert b == heap[j'] && tb == trees[j'];
    assert Stands(parent, a, ta, next, last, n) && Stands(parent, b, tb, next, last, n);
    assert Ids(ta) !! Ids(tb);
    var q := parent[a.id := next][b.id := next];
    StandsMerged(parent, q, a, b, ta, tb, next, last, n);
    var left, tleft := Without(rest, j), Without(trest, j);
    forall k | 0 <= k < |left|
      ensures Stands(q, left[k], tleft[k], next + 1, b.freq, n) && Ids(tleft[k]) !! Ids(Node(next, ta, tb))
    {
      var k1 := if k < j then k else k + 1;
      var k2 := if k1 < i then k1 else k1 + 1;
      assert left[k] == rest[k1] == heap[k2] && tleft[k] == trees[k2];
      OtherStands(parent, q, a, b, heap[k2], ta, tb, trees[k2], next, last, n);
    }
    ApartAfter(trees, i, j, Node(next, ta, tb));
    AllSymsWithout(trees, i);
    AllSymsWithout(trest, j);
    AllSymsAppend(tleft, next, ta, tb);
  }

  lemma OtherStands(p: seq<nat>, q: seq<nat>, a: Item, b: Item, x: Item, ta: Tree, tb: Tree, t: Tree, next: nat, last: nat, n: nat)
    requires Stands(p, a, ta, next, last, n) && Stands(p, b, tb, next, last, n) && Stands(p, x, t, next, last, n)
    requires Ids(t) !! Ids(ta) && Ids(t) !! Ids(tb)
    requires next < |p| && b.freq <= x.freq && q == p[a.id := next][b.id := next]
    ensures Stands(q, x, t, next + 1, b.freq, n) && Ids(t) !! Ids(Node(next, ta, tb))
  {
    hide Proper, Linked, Grown, Light, KidsAtMost, Weight, Ids, Syms;
    RootsAre(p, a, ta, next, last, n);
    RootsAre(p, b, tb, next, last, n);
    RootsAre(p, x, t, next, last, n);
    StandsStill(p, q, x, t, next, last, b.freq, n);
    NodeApart(next, ta, tb, t);
  }

  lemma RootsAre(parent: seq<nat>, x: Item, t: Tree, next: nat, last: nat, n: nat)
    requires Stands(parent, x, t, next, last, n)
    ensures x.id == t.id && t.id in Ids(t) && forall i :: i in Ids(t) ==> i < next
  {
    IdsBelow(t);
  }

  lemma NodeApart(id: nat, l: Tree, r: Tree, t: Tree)
    requires Ids(t) !! Ids(l) && Ids(t) !! Ids(r) && forall i :: i in Ids(t) ==> i < id
    ensures Ids(t) !! Ids(Node(id, l, r))
  {
  }

  lemma ApartAfter(trees: seq<Tree>, i: nat, j: nat, t: Tree)
    requires Apart(trees) && i < |trees| && j < |trees| - 1
    requires var left := Without(Without(trees, i), j); forall k :: 0 <= k < |left| ==> Ids(left[k]) !! Ids(t)
    ensures Apart(Without(Without(trees, i), j) + [t])
  {
    hide Ids;
    var left := Without(Without(trees, i), j);
    forall x, y | 0 <= x < y < |left| ensures Ids(left[x]) !! Ids(left[y]) {
      var x1, y1 := if x < j then x else x + 1, if y < j then y else y + 1;
      var x2, y2 := if x1 < i then x1 else x1 + 1, if y1 < i then y1 else y1 + 1;
      assert left[x] == trees[x2] && left[y] == trees[y2] && x2 < y2;
    }
  }

  lemma AllSymsAppend(trees: seq<Tree>, id: nat, l: Tree, r: Tree)
    ensures AllSyms(trees + [Node(id, l, r)]) == AllSyms(trees) + Syms(l) + Syms(r)
  {
    assert (trees + [Node(id, l, r)])[..|trees|] == trees;
  }

  // ------------------------------------------------------------ as it runs

  ghost predicate Used(freqs: seq<nat>, n: nat, nonzero: seq<nat>)
    requires n <= |freqs|
  {
    && Distinct(nonzero, n)
    && (forall k :: 0 <= k < |nonzero| ==> 0 < freqs[nonzero[k]] < FREQ_LIMIT)
    && (forall i :: 0 <= i < n && freqs[i] > 0 ==> i in nonzero)
  }

  /** The symbols below `n` that occur, in order. */
  function Nonzero(freqs: seq<nat>, n: nat): (nonzero: seq<nat>)
    requires n <= |freqs|
    ensures forall k :: 0 <= k < |nonzero| ==> nonzero[k] < n && freqs[nonzero[k]] > 0
    ensures forall k, l :: 0 <= k < l < |nonzero| ==> nonzero[k] != nonzero[l]
    ensures forall j :: 0 <= j < n && freqs[j] > 0 ==> j in nonzero
  {
    if n == 0 then [] else Nonzero(freqs, n - 1) + if freqs[n - 1] > 0 then [n - 1] else []
  }

  lemma NonzeroUsed(freqs: seq<nat>, n: nat)
    requires n <= |freqs| && forall i :: 0 <= i < n ==> freqs[i] < FREQ_LIMIT
    ensures Used(freqs, n, Nonzero(freqs, n))
  {
  }

  method NonzeroSymbols(freqs: seq<nat>, n: nat) returns (nonzero: seq<nat>)
    requires n <= |freqs|
    ensures nonzero == Nonzero(freqs, n)
  {
    nonzero := [];
    for i := 0 to n
      invariant nonzero == Nonzero(freqs, i)
    {
      if freqs[i] > 0 {
        nonzero := nonzero + [i];
      }
    }
  }

  function Leaves(freqs: seq<nat>, nonzero: seq<nat>): (ts: seq<Tree>)
    requires forall k :: 0 <= k < |nonzero| ==> nonzero[k] < |freqs|
    ensures |ts| == |nonzero| && forall k :: 0 <= k < |ts| ==> ts[k] == Leaf(nonzero[k], freqs[nonzero[k]])
  {
    seq(|nonzero|, k requires 0 <= k < |nonzero| => Leaf(nonzero[k], freqs[nonzero[k]]))
  }

  lemma {:induction false} LeavesSyms(freqs: seq<nat>, nonzero: seq<nat>)
    requires forall k :: 0 <= k < |nonzero| ==> nonzero[k] < |freqs|
    ensures AllSyms(Leaves(freqs, nonzero)) == Elements(nonzero)
  {
    if nonzero != [] {
      var m := |nonzero| - 1;
      LeavesSyms(freqs, nonzero[..m]);
      assert Leaves(freqs, nonzero)[..m] == Leaves(freqs, nonzero[..m]);
      assert nonzero == nonzero[..m] + [nonzero[m]];
    }
  }

  lemma LeavesStand(freqs: seq<nat>, n: nat, nonzero: seq<nat>, parent: seq<nat>, heap: seq<Item>)
    requires n <= |freqs| && Used(freqs, n, nonzero) && |parent| == 2 * n
    requires forall i :: 0 <= i < |parent| ==> parent[i] == NO_PARENT
    requires |heap| == |nonzero| && forall k :: 0 <= k < |heap| ==> heap[k] == Item(freqs[nonzero[k]], nonzero[k])
    ensures Forest(parent, heap, Leaves(freqs, nonzero), n, 0, n)
  {
  }

  ghost predicate ParentsAhead(parent: seq<nat>) {
    forall i :: 0 <= i < |parent| && parent[i] != NO_PARENT ==> i < parent[i] < |parent|
  }

  lemma NoneAhead(p: seq<nat>)
    requires forall i :: 0 <= i < |p| ==> p[i] == NO_PARENT
    ensures ParentsAhead(p)
  {
  }

  lemma AheadAfter(p: seq<nat>, a: nat, b: nat, next: nat)
    requires ParentsAhead(p) && a < next < |p| && b < next
    ensures ParentsAhead(p[a := next][b := next])
  {
  }

  /** Take the two lightest items off the heap and put their parent on it. */
  method MergeLightest(parent: array<nat>, heap: seq<Item>, ghost trees: seq<Tree>, next: nat, ghost last: nat, n: nat)
    returns (heap': seq<Item>, ghost trees': seq<Tree>, ghost last': nat)
    requires Forest(parent[..], heap, trees, next, last, n) && |heap| > 1 && next < parent.Length
    requires parent[next] == NO_PARENT && ParentsAhead(parent[..])
    modifies parent
    ensures |heap'| == |heap| - 1 && Forest(parent[..], heap', trees', next + 1, last', n)
    ensures |trees| == |heap| && trees' == MergedOnce(trees, next)
    ensures AllSyms(trees') == AllSyms(trees) && Merged(trees') && ParentsAhead(parent[..])
    ensures forall k :: next < k < parent.Length ==> parent[k] == old(parent[k])
  {
    hide Forest, AllSyms, Proper, Linked, Grown, Light, Syms, ParentsAhead, NoLater, MergedOnce, Least, ItemOf;
    ForestSizes(parent[..], heap, trees, next, last, n);
    ForestIds(parent[..], heap, trees, next, last, n);
    ForestItems(parent[..], heap, trees, next, last, n);
    var a, rest, i := PopMin(heap);
    var b, left, j := PopMin(rest);
    ghost var trest := Without(trees, i);
    OnceIs(trees, heap, next, i, j);
    assert b == heap[if j < i then j else j + 1];
    assert a.id < next && b.id < next;
    Merge(parent[..], heap, trees, next, last, n, i, j);
    ghost var was := parent[..];
    AheadAfter(was, a.id, b.id, next);
    parent[a.id] := next;
    ghost var mid := parent[..];
    assert mid == was[a.id := next];
    parent[b.id] := next;
    assert parent[..] == mid[b.id := next];
    trees' := Without(trest, j) + [Node(next, trees[i], trest[j])];
    heap' := left + [Item(a.freq + b.freq, next)];
    last' := b.freq;
  }

  lemma OnceIs(trees: seq<Tree>, heap: seq<Item>, next: nat, i: nat, j: nat)
    requires |trees| > 1 && heap == Items(trees) && i == Least(heap) && j == Least(Without(heap, i))
    ensures var rest := Without(trees, i);
      MergedOnce(trees, next) == Without(rest, j) + [Node(next, trees[i], rest[j])]
  {
    hide Least, ItemOf;
    assert Without(heap, i) == Items(Without(trees, i));
  }

  /** Merge until one tree is left; returns the parent array. */
  method BuildTree(freqs: seq<nat>, n: nat, nonzero: seq<nat>) returns (parent: array<nat>, ghost t: Tree)
    requires n <= |freqs| && Used(freqs, n, nonzero) && |nonzero| >= 2
    ensures fresh(parent) && parent.Length == 2 * n && ParentsAhead(parent[..])
    ensures t == MergedFrom(Leaves(freqs, nonzero), n)
    ensures Syms(t) == Elements(nonzero) && t.Node?
    ensures t.id < parent.Length && parent[t.id] == NO_PARENT
    ensures Proper(t) && Linked(parent[..], t) && Grown(t) && Light(t)
  {
    hide Forest, AllSyms, Proper, Linked, Grown, Light, Syms, ParentsAhead, Merged, Leaves, MergedOnce;
    parent := new nat[2 * n](i => NO_PARENT);
    var heap: seq<Item> := [];
    for k := 0 to |nonzero|
      invariant |heap| == k && forall i :: 0 <= i < k ==> heap[i] == Item(freqs[nonzero[i]], nonzero[i])
    {
      heap := heap + [Item(freqs[nonzero[k]], nonzero[k])];
    }
    ghost var trees := Leaves(freqs, nonzero);
    LeavesStand(freqs, n, nonzero, parent[..], heap);
    NoneAhead(parent[..]);
    LeavesSyms(freqs, nonzero);
    DistinctSize(nonzero);
    SubsetSize(Elements(nonzero), Range(n));
    var next: nat := n;
    ghost var last: nat := 0;
    while |heap| > 1
      invariant parent.Length == 2 * n && next + |heap| == n + |nonzero| && |heap| >= 1
      invariant Forest(parent[..], heap, trees, next, last, n)
      invariant forall i :: next <= i < 2 * n ==> parent[i] == NO_PARENT
      invariant ParentsAhead(parent[..])
      invariant AllSyms(trees) == Elements(nonzero)
      invariant |heap| == |nonzero| || Merged(trees)
      invariant |trees| == |heap| && MergedFrom(trees, next) == MergedFrom(Leaves(freqs, nonzero), n)
      decreases |heap|
    {
      heap, trees, last := MergeLightest(parent, heap, trees, next, last, n);
      next := next + 1;
    }
    ForestSizes(parent[..], heap, trees, next, last, n);
    t := trees[0];
    MergedRoot(trees);
    OneTree(parent[..], heap, trees, next, last, n);
  }

  /** Merging a forest ends with a tree over all its symbols. */
  lemma {:induction false} MergedStands(parent: seq<nat>, heap: seq<Item>, trees: seq<Tree>, next: nat, last: nat, n: nat)
    requires Forest(parent, heap, trees, next, last, n) && |trees| >= 1 && next + |trees| - 1 <= |parent|
    requires forall i :: next <= i < |parent| ==> parent[i] == NO_PARENT
    ensures var t := MergedFrom(trees, next);
      Syms(t) == AllSyms(trees) && Proper(t) && Grown(t) && Light(t) && (|trees| > 1 || trees[0].Node? ==> t.Node?)
    decreases |trees|
  {
    hide Forest, AllSyms, Proper, Linked, Grown, Light, Syms, NoLater, MergedOnce, Least, ItemOf;
    ForestSizes(parent, heap, trees, next, last, n);
    if |trees| == 1 {
      OneTree(parent, heap, trees, next, last, n);
    } else {
      ForestIds(parent, heap, trees, next, last, n);
      ForestItems(parent, heap, trees, next, last, n);
      var i := Least(heap);
      var rest, trest := Without(heap, i), Without(trees, i);
      assert rest == Items(trest);
      var j := Least(rest);
      var a, b := heap[i], rest[j];
      assert b == heap[if j < i then j else j + 1];
      OnceIs(trees, heap, next, i, j);
      Merge(parent, heap, trees, next, last, n, i, j);
      MergedStands(parent[a.id := next][b.id := next], Without(rest, j) + [Item(a.freq + b.freq, next)],
                   Without(trest, j) + [Node(next, trees[i], trest[j])], next + 1, b.freq, n);
    }
  }

  /** The tree of the frequencies. */
  lemma TreeStands(freqs: seq<nat>, n: nat, nonzero: seq<nat>)
    requires n <= |freqs| && Used(freqs, n, nonzero) && |nonzero| >= 2
    ensures var t := MergedFrom(Leaves(freqs, nonzero), n);
      Syms(t) == Elements(nonzero) && Proper(t) && Grown(t) && Light(t) && t.Node?
  {
    hide Forest, AllSyms, Proper, Grown, Light, Syms, MergedFrom;
    var parent: seq<nat> := seq(2 * n, i => NO_PARENT);
    var heap := seq(|nonzero|, k requires 0 <= k < |nonzero| => Item(freqs[nonzero[k]], nonzero[k]));
    LeavesStand(freqs, n, nonzero, parent, heap);
    LeavesSyms(freqs, nonzero);
    DistinctSize(nonzero);
    SubsetSize(Elements(nonzero), Range(n));
    MergedStands(parent, heap, Leaves(freqs, nonzero), n, 0, n);
  }

  /** The last tree of the list is an inner node. */
  ghost predicate Merged(trees: seq<Tree>) {
    trees != [] && trees[|trees| - 1].Node?
  }

  lemma MergedRoot(trees: seq<Tree>)
    requires |trees| == 1 && Merged(trees)
    ensures trees[0].Node?
  {
  }

  lemma ForestSizes(parent: seq<nat>, heap: seq<Item>, trees: seq<Tree>, next: nat, last: nat, n: nat)
    requires Forest(parent, heap, trees, next, last, n)
    ensures |trees| == |heap|
  {
  }

  lemma ForestIds(parent: seq<nat>, heap: seq<Item>, trees: seq<Tree>, next: nat, last: nat, n: nat)
    requires Forest(parent, heap, trees, next, last, n)
    ensures forall i :: 0 <= i < |heap| ==> heap[i].id < next
  {
    hide Proper, Linked, Grown, Light, KidsAtMost, Weight, Apart;
    assert forall i :: 0 <= i < |heap| ==> Stands(parent, heap[i], trees[i], next, last, n);
  }

  lemma ForestItems(parent: seq<nat>, heap: seq<Item>, trees: seq<Tree>, next: nat, last: nat, n: nat)
    requires Forest(parent, heap, trees, next, last, n)
    ensures heap == Items(trees)
  {
    hide Proper, Linked, Grown, Light, KidsAtMost, Weight, Apart;
    forall i | 0 <= i < |heap| ensures heap[i] == ItemOf(trees[i]) {
      assert Stands(parent, heap[i], trees[i], next, last, n);
    }
  }

  lemma OneTree(parent: seq<nat>, heap: seq<Item>, trees: seq<Tree>, next: nat, last: nat, n: nat)
    requires Forest(parent, heap, trees, next, last, n) && |heap| == 1
    ensures |trees| == 1 && trees[0].id < |parent|
    ensures var t := trees[0];
            Syms(t) == AllSyms(trees) && Proper(t) && Linked(parent, t) && parent[t.id] == NO_PARENT && Grown(t) && Light(t)
  {
    hide Proper, Linked, Grown, Light, Weight, Apart;
    assert Stands(parent, heap[0], trees[0], next, last, n);
    assert AllSyms(trees[..0]) == {};
  }

  method ClimbUp(parent: array<nat>, sym: nat) returns (depth: nat)
    requires ParentsAhead(parent[..])
    requires parent.Length <= NO_PARENT && sym < parent.Length
    ensures depth == Climb(parent[..], sym)
  {
    depth := 0;
    var node := sym;
    while parent[node] != NO_PARENT
      invariant node < parent.Length && depth + Climb(parent[..], node) == Climb(parent[..], sym)
      decreases parent.Length - node
    {
      depth := depth + 1;
      node := parent[node];
    }
  }
}
