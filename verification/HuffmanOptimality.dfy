/** Huffman's lengths are the cheapest: no lengths within the code space spend fewer bits. */
module HuffmanOptimality {
  import opened Arithmetic
  import opened BitStrings
  import opened Counting
  import opened CodeLengths
  import opened HuffmanTree
  import opened HuffmanCodes

  /** Weights times lengths, added up. */
  function Cost(w: seq<nat>, d: seq<nat>): nat
    requires |w| == |d|
  {
    if w == [] then 0
    else
      var n := |w| - 1;
      Cost(w[..n], d[..n]) + Times(w[n], d[n])
  }

  function Times(a: nat, b: nat): (r: nat)
    ensures r == a * b
  {
    a * b
  }

  predicate AtMost(d: seq<nat>, m: nat) {
    forall i :: 0 <= i < |d| ==> d[i] <= m
  }

  /** Kraft's sum in units of 2^-m. */
  function Room(d: seq<nat>, m: nat): nat
    requires AtMost(d, m)
  {
    if d == [] then 0
    else
      var n := |d| - 1;
      Room(d[..n], m) + Pow2(m - d[n])
  }

  // ------------------------------------------------------------ changing one length

  lemma {:induction false} CostUpdate(w: seq<nat>, d: seq<nat>, i: nat, v: nat)
    requires |w| == |d| && i < |d|
    ensures Cost(w, d[i := v]) + Times(w[i], d[i]) == Cost(w, d) + Times(w[i], v)
    decreases |d|
  {
    var n, e := |d| - 1, d[i := v];
    if i < n {
      CostUpdate(w[..n], d[..n], i, v);
      assert e[..n] == d[..n][i := v];
    } else {
      assert e[..n] == d[..n];
    }
  }

  lemma {:induction false} RoomUpdate(d: seq<nat>, m: nat, i: nat, v: nat)
    requires AtMost(d, m) && i < |d| && v <= m
    ensures AtMost(d[i := v], m) && Room(d[i := v], m) + Pow2(m - d[i]) == Room(d, m) + Pow2(m - v)
    decreases |d|
  {
    hide Pow2;
    var n, e := |d| - 1, d[i := v];
    if i < n {
      RoomUpdate(d[..n], m, i, v);
      assert e[..n] == d[..n][i := v];
    } else {
      assert e[..n] == d[..n];
    }
  }

  lemma {:induction false} CostWithout(w: seq<nat>, d: seq<nat>, i: nat)
    requires |w| == |d| && i < |d|
    ensures Cost(w, d) == Cost(Without(w, i), Without(d, i)) + Times(w[i], d[i])
    decreases |d|
  {
    var n := |d| - 1;
    if i < n {
      CostWithout(w[..n], d[..n], i);
      assert Without(w, i)[..n - 1] == Without(w[..n], i) && Without(d, i)[..n - 1] == Without(d[..n], i);
    } else {
      assert Without(w, i) == w[..n] && Without(d, i) == d[..n];
    }
  }

  lemma {:induction false} RoomWithout(d: seq<nat>, m: nat, i: nat)
    requires AtMost(d, m) && i < |d|
    ensures AtMost(Without(d, i), m) && Room(d, m) == Room(Without(d, i), m) + Pow2(m - d[i])
    decreases |d|
  {
    hide Pow2;
    var n := |d| - 1;
    if i < n {
      RoomWithout(d[..n], m, i);
      assert Without(d, i)[..n - 1] == Without(d[..n], i);
    } else {
      assert Without(d, i) == d[..n];
    }
  }

  lemma {:induction false} RoomScale(d: seq<nat>, l: nat, m: nat)
    requires AtMost(d, l) && l <= m
    ensures Room(d, m) == Room(d, l) * Pow2(m - l)
    decreases |d|
  {
    hide Pow2;
    if d != [] {
      var n := |d| - 1;
      RoomScale(d[..n], l, m);
      Pow2Add(l - d[n], m - l);
      MulAdd(Room(d[..n], l), Pow2(l - d[n]), Pow2(m - l));
    }
  }

  lemma {:induction false} RoomOfNone(d: seq<nat>, m: nat)
    requires AtMost(d, 0)
    ensures Room(d, m) == |d| * Pow2(m)
    decreases |d|
  {
    hide Pow2;
    if d != [] {
      RoomOfNone(d[..|d| - 1], m);
      MulAdd(|d| - 1, 1, Pow2(m));
    }
  }

  // ------------------------------------------------------------ shortening and exchanging

  function Deepest(d: seq<nat>): (p: nat)
    requires d != []
    ensures p < |d| && AtMost(d, d[p])
  {
    if |d| == 1 then 0
    else
      var n := |d| - 1;
      var p := Deepest(d[..n]);
      assert AtMost(d[..n], d[p]);
      if d[n] > d[p] then n else p
  }

  /** A length that is alone the longest may be one shorter. */
  lemma LonelyShortens(d: seq<nat>, m: nat, p: nat)
    requires AtMost(d, m) && Room(d, m) <= Pow2(m) && p < |d| && d[p] > 0
    requires forall i :: 0 <= i < |d| && i != p ==> d[i] < d[p]
    ensures AtMost(d[p := d[p] - 1], m) && Room(d[p := d[p] - 1], m) <= Pow2(m)
  {
    hide Pow2, Room;
    var l: nat := d[p] - 1;
    var k: nat := m - d[p];
    var others := Without(d, p);
    RoomWithout(d, m, p);
    RoomScale(others, l, m);
    RoomUpdate(d, m, p, l);
    Pow2Add(k + 1, l);
    PowNext(k);
    assert m - l == k + 1 && m == k + 1 + l;
    Halves(Room(others, l), Pow2(l), Pow2(k));
  }

  lemma PowNext(k: nat)
    ensures Pow2(k + 1) == 2 * Pow2(k)
  {
  }

  /** An odd number of units below an even number leaves room for one more. */
  lemma Halves(r: nat, q: nat, u: nat)
    requires u > 0 && r * (2 * u) + u <= (2 * u) * q
    ensures r * (2 * u) + 2 * u <= (2 * u) * q
  {
    if r >= q {
      MulLe(q, r, 2 * u, 2 * u);
    } else {
      MulLe(r + 1, q, 2 * u, 2 * u);
      MulAdd(r, 1, 2 * u);
    }
  }

  /** Giving the longer of two lengths to the lighter symbol costs nothing. */
  lemma Exchange(w: seq<nat>, d: seq<nat>, m: nat, i: nat, p: nat)
    requires |w| == |d| && AtMost(d, m) && i < |d| && p < |d| && w[i] <= w[p] && d[i] <= d[p]
    ensures var e := d[i := d[p]][p := d[i]];
      AtMost(e, m) && Room(e, m) == Room(d, m) && Cost(w, e) <= Cost(w, d)
  {
    hide Pow2, Room, Cost, Times;
    var mid := d[i := d[p]];
    if i == p {
      assert mid == d && d[i := d[p]][p := d[i]] == d;
    } else {
      CostUpdate(w, d, i, d[p]);
      CostUpdate(w, mid, p, d[i]);
      RoomUpdate(d, m, i, d[p]);
      RoomUpdate(mid, m, p, d[i]);
      Rearranged(w[i], w[p], d[i], d[p]);
    }
  }

  lemma Rearranged(a: nat, b: nat, x: nat, y: nat)
    requires a <= b && x <= y
    ensures Times(a, y) + Times(b, x) <= Times(a, x) + Times(b, y)
  {
    MulLe(a, b, y - x, y - x);
    MulAdd(y - x, x, a);
    MulAdd(y - x, x, b);
  }

  /** Two of the longest lengths can be given to any two lightest symbols. */
  lemma PairDeepest(w: seq<nat>, d: seq<nat>, m: nat, i: nat, j: nat, p: nat, q: nat) returns (e: seq<nat>)
    requires |w| == |d| && AtMost(d, m) && i < |d| && j < |d| && i != j && p < |d| && q < |d| && p != q
    requires (forall k :: 0 <= k < |w| ==> w[i] <= w[k]) && forall k :: 0 <= k < |w| && k != i ==> w[j] <= w[k]
    requires AtMost(d, d[p]) && d[q] == d[p]
    ensures |e| == |d| && AtMost(e, m) && Room(e, m) == Room(d, m) && Cost(w, e) <= Cost(w, d)
    ensures e[i] == e[j] == d[p] && AtMost(e, d[p])
  {
    hide Room, Cost;
    var first := d[i := d[p]][p := d[i]];
    Exchange(w, d, m, i, p);
    var other := if q == i then p else q;
    assert first[other] == d[p] && other != i && first[i] == d[p];
    e := first[j := first[other]][other := first[j]];
    Exchange(w, first, m, j, other);
  }

  // ------------------------------------------------------------ merging is best

  function Weights(trees: seq<Tree>): (w: seq<nat>)
    ensures |w| == |trees| && forall k :: 0 <= k < |w| ==> w[k] == Weight(trees[k])
  {
    seq(|trees|, k requires 0 <= k < |trees| => Weight(trees[k]))
  }

  /** What merging adds up: the weight of every node it makes. */
  function Built(trees: seq<Tree>, next: nat): nat
    decreases |trees|
  {
    if |trees| <= 1 then 0
    else
      var once := MergedOnce(trees, next);
      Weight(once[|once| - 1]) + Built(once, next + 1)
  }

  /** The two trees merged and what remains. */
  lemma OnceParts(trees: seq<Tree>, next: nat) returns (i: nat, j: nat)
    requires |trees| > 1
    ensures i < |trees| && j < |trees| - 1
    ensures var w, rest := Weights(trees), Without(trees, i);
      && (forall k :: 0 <= k < |w| ==> w[i] <= w[k]) && (forall k :: 0 <= k < |rest| ==> Weight(rest[j]) <= Weight(rest[k]))
      && MergedOnce(trees, next) == Without(rest, j) + [Node(next, trees[i], rest[j])]
  {
    hide Weight;
    var heap := Items(trees);
    i := Least(heap);
    var rest := Without(trees, i);
    j := Least(Items(rest));
    forall k | 0 <= k < |trees| ensures Weight(trees[i]) <= Weight(trees[k]) {
      assert NoLater(heap[i], heap[k]);
    }
    forall k | 0 <= k < |rest| ensures Weight(rest[j]) <= Weight(rest[k]) {
      assert NoLater(Items(rest)[j], Items(rest)[k]);
    }
  }

  /** Two siblings at the deepest level are one node a level up. */
  lemma Siblings(trees: seq<Tree>, next: nat, e: seq<nat>, m: nat, i: nat, j: nat, j0: nat) returns (f: seq<nat>)
    requires |e| == |trees| > 1 && AtMost(e, m) && i < |trees| && j < |trees| - 1 && j0 == (if j < i then j else j + 1)
    requires e[i] == e[j0] > 0
    requires MergedOnce(trees, next) == Without(Without(trees, i), j) + [Node(next, trees[i], Without(trees, i)[j])]
    ensures var once := MergedOnce(trees, next);
      && |f| == |once| && AtMost(f, m) && Room(f, m) == Room(e, m)
      && Cost(Weights(trees), e) == Cost(Weights(once), f) + Weight(once[|once| - 1])
  {
    hide *;
    var w, rest, erest := Weights(trees), Without(trees, i), Without(e, i);
    var up: nat := e[i] - 1;
    var left, fleft := Without(rest, j), Without(erest, j);
    var node := Node(next, trees[i], rest[j]);
    f := fleft + [up];
    CostWithout(w, e, i);
    CostWithout(Weights(rest), erest, j);
    RoomWithout(e, m, i);
    RoomWithout(erest, m, j);
    WeightsWithout(trees, i);
    WeightsWithout(rest, j);
    Bounded(e, m, i);
    WeightsSnoc(left, node);
    CostSnoc(Weights(left), fleft, Weight(node), up);
    RoomSnoc(fleft, m, up);
    PowNext(m - e[i]);
    NodeWeight(node);
    Distributes(Weight(trees[i]), Weight(rest[j]), up);
    PlaceWithout(e, i, j, j0);
  }

  lemma PlaceWithout(s: seq<nat>, i: nat, j: nat, j0: nat)
    requires i < |s| && j < |s| - 1 && j0 == (if j < i then j else j + 1)
    ensures Without(s, i)[j] == s[j0]
  {
  }

  lemma Bounded(d: seq<nat>, m: nat, i: nat)
    requires AtMost(d, m) && i < |d|
    ensures d[i] <= m
  {
  }

  lemma WeightsWithout(trees: seq<Tree>, i: nat)
    requires i < |trees|
    ensures Weights(Without(trees, i)) == Without(Weights(trees), i)
  {
    hide Weight;
  }

  lemma WeightsSnoc(trees: seq<Tree>, t: Tree)
    ensures Weights(trees + [t]) == Weights(trees) + [Weight(t)]
  {
    hide Weight;
  }

  lemma CostSnoc(w: seq<nat>, d: seq<nat>, x: nat, y: nat)
    requires |w| == |d|
    ensures Cost(w + [x], d + [y]) == Cost(w, d) + Times(x, y)
  {
    hide Times;
    assert (w + [x])[..|w|] == w && (d + [y])[..|d|] == d;
  }

  lemma RoomSnoc(d: seq<nat>, m: nat, y: nat)
    requires AtMost(d, m) && y <= m
    ensures AtMost(d + [y], m) && Room(d + [y], m) == Room(d, m) + Pow2(m - y)
  {
    hide Pow2;
    assert (d + [y])[..|d|] == d;
  }

  lemma NodeWeight(t: Tree)
    requires t.Node?
    ensures Weight(t) == Weight(t.left) + Weight(t.right)
  {
  }

  lemma Distributes(a: nat, b: nat, d: nat)
    ensures Times(a, d + 1) + Times(b, d + 1) == Times(a + b, d) + (a + b)
  {
    MulAdd(d, 1, a);
    MulAdd(d, 1, b);
    MulAdd(a, b, d);
  }

  function Sum(d: seq<nat>): nat {
    if d == [] then 0 else Sum(d[..|d| - 1]) + d[|d| - 1]
  }

  lemma {:induction false} SumLess(d: seq<nat>, p: nat)
    requires p < |d| && d[p] > 0
    ensures Sum(d[p := d[p] - 1]) == Sum(d) - 1
    decreases |d|
  {
    var n, e := |d| - 1, d[p := d[p] - 1];
    if p < n {
      SumLess(d[..n], p);
      assert e[..n] == d[..n][p := d[p] - 1];
    } else {
      assert e[..n] == d[..n];
    }
  }

  /** No lengths within the code space cost less than merging adds up. */
  lemma {:induction false} NothingCheaper(trees: seq<Tree>, next: nat, d: seq<nat>, m: nat)
    requires |d| == |trees| >= 1 && AtMost(d, m) && Room(d, m) <= Pow2(m)
    ensures Cost(Weights(trees), d) >= Built(trees, next)
    decreases |trees|, 1, Sum(d)
  {
    hide Pow2, Room, Cost, Weights, Sum, MergedOnce;
    if |trees| > 1 {
      var w, p := Weights(trees), Deepest(d);
      SomeDepth(d, m, p);
      if forall k :: 0 <= k < |d| && k != p ==> d[k] < d[p] {
        var e := d[p := d[p] - 1];
        LonelyShortens(d, m, p);
        SumLess(d, p);
        NothingCheaper(trees, next, e, m);
        CostUpdate(w, d, p, d[p] - 1);
        MulLe(w[p], w[p], d[p] - 1, d[p]);
      } else {
        var q :| 0 <= q < |d| && q != p && d[q] >= d[p];
        MergeCheapest(trees, next, d, m, p, q);
      }
    }
  }

  lemma {:induction false} MergeCheapest(trees: seq<Tree>, next: nat, d: seq<nat>, m: nat, p: nat, q: nat)
    requires |d| == |trees| > 1 && AtMost(d, m) && Room(d, m) <= Pow2(m)
    requires p < |d| && q < |d| && p != q && AtMost(d, d[p]) && d[q] == d[p] > 0
    ensures Cost(Weights(trees), d) >= Built(trees, next)
    decreases |trees|, 0, 0
  {
    hide Pow2, Room, Cost, Weights, Sum, MergedOnce, Weight;
    var w := Weights(trees);
    var i, j := OnceParts(trees, next);
    var j0 := if j < i then j else j + 1;
    LightestTwo(trees, i, j, j0);
    var e := PairDeepest(w, d, m, i, j0, p, q);
    var f := Siblings(trees, next, e, m, i, j, j0);
    NothingCheaper(MergedOnce(trees, next), next + 1, f, m);
  }

  lemma LightestTwo(trees: seq<Tree>, i: nat, j: nat, j0: nat)
    requires i < |trees| && j < |trees| - 1 && j0 == (if j < i then j else j + 1)
    requires var rest := Without(trees, i); forall k :: 0 <= k < |rest| ==> Weight(rest[j]) <= Weight(rest[k])
    ensures var w := Weights(trees); j0 < |w| && j0 != i && forall k :: 0 <= k < |w| && k != i ==> w[j0] <= w[k]
  {
    hide Weight;
    var rest := Without(trees, i);
    forall k | 0 <= k < |trees| && k != i ensures Weight(trees[j0]) <= Weight(trees[k]) {
      var k0 := if k < i then k else k - 1;
      assert rest[k0] == trees[k] && rest[j] == trees[j0];
    }
  }

  /** Two symbols cannot both have no bits. */
  lemma SomeDepth(d: seq<nat>, m: nat, p: nat)
    requires |d| > 1 && AtMost(d, m) && Room(d, m) <= Pow2(m) && p < |d| && AtMost(d, d[p])
    ensures d[p] > 0
  {
    hide Pow2, Room;
    if d[p] == 0 {
      RoomOfNone(d, m);
      MulLe(2, |d|, Pow2(m), Pow2(m));
    }
  }

  // ------------------------------------------------------------ what the tree costs

  /** The weights of the inner nodes. */
  function Inner(t: Tree): nat {
    match t
    case Leaf(_, _) => 0
    case Node(_, l, r) => Weight(t) + Inner(l) + Inner(r)
  }

  function InnerAll(trees: seq<Tree>): nat {
    if trees == [] then 0 else InnerAll(trees[..|trees| - 1]) + Inner(trees[|trees| - 1])
  }

  lemma {:induction false} InnerWithout(trees: seq<Tree>, i: nat)
    requires i < |trees|
    ensures InnerAll(trees) == InnerAll(Without(trees, i)) + Inner(trees[i])
    decreases |trees|
  {
    hide Inner;
    var n := |trees| - 1;
    if i < n {
      InnerWithout(trees[..n], i);
      assert Without(trees, i)[..n - 1] == Without(trees[..n], i);
    } else {
      assert Without(trees, i) == trees[..n];
    }
  }

  lemma {:induction false} BuiltIsInner(trees: seq<Tree>, next: nat)
    requires trees != []
    ensures Inner(MergedFrom(trees, next)) == InnerAll(trees) + Built(trees, next)
    decreases |trees|
  {
    hide Inner, Weight, MergedOnce;
    if |trees| == 1 {
      assert trees[..0] == [];
    } else {
      var i, j := OnceParts(trees, next);
      var rest := Without(trees, i);
      var left, node := Without(rest, j), Node(next, trees[i], rest[j]);
      var once := MergedOnce(trees, next);
      BuiltIsInner(once, next + 1);
      InnerWithout(trees, i);
      InnerWithout(rest, j);
      assert once[..|left|] == left;
      InnerNode(node);
    }
  }

  lemma InnerNode(t: Tree)
    requires t.Node?
    ensures Inner(t) == Weight(t) + Inner(t.left) + Inner(t.right)
  {
  }

  /** Frequency times length over the symbols of `s` below `k`. */
  ghost function CostOver(freqs: seq<nat>, lens: seq<nat>, s: set<nat>, k: nat): nat
    requires k <= |freqs| && k <= |lens|
  {
    if k == 0 then 0 else CostOver(freqs, lens, s, k - 1) + if k - 1 in s then Times(freqs[k - 1], lens[k - 1]) else 0
  }

  lemma {:induction false} CostUnion(freqs: seq<nat>, lens: seq<nat>, s: set<nat>, u: set<nat>, k: nat)
    requires k <= |freqs| && k <= |lens| && s !! u
    ensures CostOver(freqs, lens, s + u, k) == CostOver(freqs, lens, s, k) + CostOver(freqs, lens, u, k)
  {
    if k > 0 {
      CostUnion(freqs, lens, s, u, k - 1);
    }
  }

  lemma {:induction false} CostOfOne(freqs: seq<nat>, lens: seq<nat>, x: nat, k: nat)
    requires k <= |freqs| && k <= |lens|
    ensures CostOver(freqs, lens, {x}, k) == if x < k then Times(freqs[x], lens[x]) else 0
  {
    if k > 0 {
      CostOfOne(freqs, lens, x, k - 1);
    }
  }

  lemma {:induction false} CostOfUsed(freqs: seq<nat>, lens: seq<nat>, s: set<nat>, k: nat)
    requires k <= |freqs| == |lens| && forall i :: 0 <= i < |freqs| && freqs[i] > 0 ==> i in s
    ensures CostOver(freqs, lens, s, k) == Cost(freqs[..k], lens[..k])
  {
    if k > 0 {
      CostOfUsed(freqs, lens, s, k - 1);
      assert freqs[..k][..k - 1] == freqs[..k - 1] && lens[..k][..k - 1] == lens[..k - 1];
    }
  }

  /** The leaves carry the frequencies of their symbols. */
  ghost predicate Carries(t: Tree, freqs: seq<nat>) {
    match t
    case Leaf(id, w) => id < |freqs| && w == freqs[id]
    case Node(_, l, r) => Carries(l, freqs) && Carries(r, freqs)
  }

  /** A subtree at depth `d` costs its inner nodes and `d` times its weight. */
  lemma {:induction false} TreeCost(t: Tree, freqs: seq<nat>, lens: seq<nat>, d: nat)
    requires Proper(t) && Carries(t, freqs) && Depths(lens, t, d) && |freqs| == |lens|
    ensures CostOver(freqs, lens, Syms(t), |freqs|) == Inner(t) + Times(Weight(t), d)
    decreases t
  {
    match t
    case Leaf(id, w) => CostOfOne(freqs, lens, id, |freqs|);
    case Node(_, l, r) =>
      hide Times, CostOver;
      TreeCost(l, freqs, lens, d + 1);
      TreeCost(r, freqs, lens, d + 1);
      IdsBelow(l);
      IdsBelow(r);
      CostUnion(freqs, lens, Syms(l), Syms(r), |freqs|);
      Distributes(Weight(l), Weight(r), d);
  }

  ghost predicate AllCarry(trees: seq<Tree>, freqs: seq<nat>) {
    forall k :: 0 <= k < |trees| ==> Carries(trees[k], freqs)
  }

  lemma CarryWithout(trees: seq<Tree>, freqs: seq<nat>, i: nat)
    requires AllCarry(trees, freqs) && i < |trees|
    ensures AllCarry(Without(trees, i), freqs) && Carries(trees[i], freqs)
  {
    hide Carries;
  }

  lemma CarryNode(trees: seq<Tree>, freqs: seq<nat>, id: nat, l: Tree, r: Tree)
    requires AllCarry(trees, freqs) && Carries(l, freqs) && Carries(r, freqs)
    ensures AllCarry(trees + [Node(id, l, r)], freqs)
  {
    assert Carries(Node(id, l, r), freqs);
  }

  lemma {:induction false} MergedCarries(trees: seq<Tree>, next: nat, freqs: seq<nat>)
    requires trees != [] && AllCarry(trees, freqs)
    ensures Carries(MergedFrom(trees, next), freqs)
    decreases |trees|
  {
    hide Weight, AllCarry, Carries, MergedOnce;
    if |trees| == 1 {
      CarryWithout(trees, freqs, 0);
    } else {
      var i, j := OnceParts(trees, next);
      var rest := Without(trees, i);
      CarryWithout(trees, freqs, i);
      CarryWithout(rest, freqs, j);
      CarryNode(Without(rest, j), freqs, next, trees[i], rest[j]);
      MergedCarries(MergedOnce(trees, next), next + 1, freqs);
    }
  }

  // ------------------------------------------------------------ the theorem

  function At(d: seq<nat>, places: seq<nat>): (r: seq<nat>)
    requires forall k :: 0 <= k < |places| ==> places[k] < |d|
    ensures |r| == |places|
  {
    seq(|places|, k requires 0 <= k < |places| => d[places[k]])
  }

  /** Symbols that do not occur cost nothing. */
  lemma {:induction false} CostOfNonzero(freqs: seq<nat>, lens: seq<nat>, n: nat)
    requires n <= |freqs| == |lens|
    ensures Cost(freqs[..n], lens[..n]) == Cost(At(freqs, Nonzero(freqs, n)), At(lens, Nonzero(freqs, n)))
  {
    hide *;
    if n == 0 {
      NonzeroNone(freqs);
      NoCost(freqs[..0], lens[..0], At(freqs, []), At(lens, []));
    } else {
      var k := n - 1;
      var shorter := Nonzero(freqs, k);
      CostOfNonzero(freqs, lens, k);
      NonzeroNext(freqs, k);
      assert freqs[..n] == freqs[..k] + [freqs[k]] && lens[..n] == lens[..k] + [lens[k]];
      CostSnoc(freqs[..k], lens[..k], freqs[k], lens[k]);
      if freqs[k] > 0 {
        AtSnoc(freqs, shorter, k);
        AtSnoc(lens, shorter, k);
        CostSnoc(At(freqs, shorter), At(lens, shorter), freqs[k], lens[k]);
      } else {
        TimesNone(lens[k]);
      }
    }
  }

  lemma NonzeroNone(freqs: seq<nat>)
    ensures Nonzero(freqs, 0) == []
  {
  }

  lemma NonzeroNext(freqs: seq<nat>, k: nat)
    requires k < |freqs|
    ensures Nonzero(freqs, k + 1) == if freqs[k] > 0 then Nonzero(freqs, k) + [k] else Nonzero(freqs, k)
  {
  }

  lemma NoCost(w: seq<nat>, d: seq<nat>, v: seq<nat>, e: seq<nat>)
    requires w == d == v == e == []
    ensures Cost(w, d) == Cost(v, e)
  {
  }

  lemma TimesNone(b: nat)
    ensures Times(0, b) == 0
  {
  }

  lemma AtSnoc(d: seq<nat>, places: seq<nat>, p: nat)
    requires p < |d| && forall k :: 0 <= k < |places| ==> places[k] < |d|
    ensures At(d, places + [p]) == At(d, places) + [d[p]]
  {
  }

  /** The depths of the tree cost what merging adds up. */
  lemma DepthsCost(freqs: seq<nat>)
    requires |freqs| <= KRAFT_ONE && forall i :: 0 <= i < |freqs| ==> freqs[i] < FREQ_LIMIT
    requires |Nonzero(freqs, |freqs|)| >= 2
    ensures var n := |freqs|;
      Cost(freqs, TreeLengths(TreeOf(freqs), n)) == Built(Leaves(freqs, Nonzero(freqs, n)), n)
  {
    hide Proper, Syms, Depths, Weight, Inner, Cost, CostOver, Built, MergedFrom, DepthIn, Grown, Light;
    var n, nonzero := |freqs|, Nonzero(freqs, |freqs|);
    var leaves, t := Leaves(freqs, nonzero), TreeOf(freqs);
    var lens := TreeLengths(t, n);
    TreeFacts(freqs);
    MergedCarries(leaves, n, freqs);
    TreeCost(t, freqs, lens, 0);
    assert forall i :: i in nonzero <==> i in Elements(nonzero);
    CostOfUsed(freqs, lens, Syms(t), n);
    assert freqs[..n] == freqs && lens[..n] == lens;
    BuiltIsInner(leaves, n);
    LeavesInner(leaves);
  }

  lemma {:induction false} LeavesInner(trees: seq<Tree>)
    requires forall k :: 0 <= k < |trees| ==> trees[k].Leaf?
    ensures InnerAll(trees) == 0
  {
    if trees != [] {
      LeavesInner(trees[..|trees| - 1]);
    }
  }

  /** Kraft's sum over the symbols that occur is at most 1. */
  ghost predicate Codable(freqs: seq<nat>, lens: seq<nat>, m: nat) {
    && |lens| == |freqs|
    && (forall i :: 0 <= i < |freqs| && freqs[i] > 0 ==> 1 <= lens[i] <= m)
    && Room(At(lens, Nonzero(freqs, |freqs|)), m) <= Pow2(m)
  }

  /** While no leaf of the tree is deeper than 15, the lengths given to the symbols spend no
      more bits than any lengths within the code space, of whatever size. */
  lemma HuffmanIsBest(freqs: seq<nat>, lens: seq<nat>, m: nat)
    requires |freqs| <= KRAFT_ONE && forall i :: 0 <= i < |freqs| ==> freqs[i] < FREQ_LIMIT
    requires var n := |freqs|; |Nonzero(freqs, n)| >= 2 ==> AtMost(TreeLengths(TreeOf(freqs), n), MAX_BITS)
    requires Codable(freqs, lens, m)
    ensures Cost(freqs, LengthsFor(freqs)) <= Cost(freqs, lens)
  {
    hide *;
    var n, nonzero := |freqs|, Nonzero(freqs, |freqs|);
    CodableFacts(freqs, lens, m);
    FewLengths(freqs);
    WholeCost(freqs, lens);
    WholeCost(freqs, LengthsFor(freqs));
    if |nonzero| <= 1 {
      FewBest(freqs, lens, m);
    } else {
      ShallowUnlimited(freqs);
      DepthsCost(freqs);
      NothingCheaper(Leaves(freqs, nonzero), n, At(lens, nonzero), m);
      LeavesWeigh(freqs, nonzero);
    }
  }

  lemma CodableFacts(freqs: seq<nat>, lens: seq<nat>, m: nat)
    requires Codable(freqs, lens, m)
    ensures |lens| == |freqs|
    ensures var d := At(lens, Nonzero(freqs, |freqs|)); AtMost(d, m) && Room(d, m) <= Pow2(m)
  {
    hide Room, Pow2;
  }

  lemma FewBest(freqs: seq<nat>, lens: seq<nat>, m: nat)
    requires Codable(freqs, lens, m) && |Nonzero(freqs, |freqs|)| <= 1
    ensures var nonzero := Nonzero(freqs, |freqs|);
      Cost(At(freqs, nonzero), At(LengthsFor(freqs), nonzero)) <= Cost(At(freqs, nonzero), At(lens, nonzero))
  {
    hide Room, LengthsFor, Pow2;
    var nonzero := Nonzero(freqs, |freqs|);
    FewLengths(freqs);
    if |nonzero| == 1 {
      var x := nonzero[0];
      OneCost([freqs[x]], [1]);
      OneCost([freqs[x]], [lens[x]]);
      assert At(freqs, nonzero) == [freqs[x]] && At(lens, nonzero) == [lens[x]] && At(LengthsFor(freqs), nonzero) == [1];
      MulLe(freqs[x], freqs[x], 1, lens[x]);
    }
  }

  lemma OneCost(w: seq<nat>, d: seq<nat>)
    requires |w| == |d| == 1
    ensures Cost(w, d) == Times(w[0], d[0])
  {
  }

  /** Nothing is limited in a tree of at most 15 levels. */
  lemma ShallowUnlimited(freqs: seq<nat>)
    requires var n := |freqs|; |Nonzero(freqs, n)| >= 2 && AtMost(TreeLengths(TreeOf(freqs), n), MAX_BITS)
    ensures LengthsFor(freqs) == TreeLengths(TreeOf(freqs), |freqs|)
  {
    hide TreeLengths, TreeOf;
    FewLengths(freqs);
    NoneOverlong(TreeLengths(TreeOf(freqs), |freqs|), Nonzero(freqs, |freqs|), |Nonzero(freqs, |freqs|)|);
  }

  lemma {:induction false} NoneOverlong(lens: seq<nat>, nonzero: seq<nat>, k: nat)
    requires AtMost(lens, MAX_BITS) && k <= |nonzero| && forall i :: 0 <= i < |nonzero| ==> nonzero[i] < |lens|
    ensures OverTo(lens, nonzero, k) == 0
  {
    if k > 0 {
      NoneOverlong(lens, nonzero, k - 1);
    }
  }

  lemma WholeCost(freqs: seq<nat>, lens: seq<nat>)
    requires |freqs| == |lens|
    ensures Cost(freqs, lens) == Cost(At(freqs, Nonzero(freqs, |freqs|)), At(lens, Nonzero(freqs, |freqs|)))
  {
    hide *;
    CostOfNonzero(freqs, lens, |freqs|);
    assert freqs[..|freqs|] == freqs && lens[..|lens|] == lens;
  }

  lemma LeavesWeigh(freqs: seq<nat>, nonzero: seq<nat>)
    requires forall k :: 0 <= k < |nonzero| ==> nonzero[k] < |freqs|
    ensures Weights(Leaves(freqs, nonzero)) == At(freqs, nonzero)
  {
  }

  // ------------------------------------------------------------ more frequent, no longer

  /** Code space over the symbols of `s` below `k`, in units of 2^-m. */
  ghost function RoomOver(lens: seq<nat>, s: set<nat>, m: nat, k: nat): nat
    requires k <= |lens|
  {
    if k == 0 then 0 else RoomOver(lens, s, m, k - 1) + if k - 1 in s && lens[k - 1] <= m then Pow2(m - lens[k - 1]) else 0
  }

  lemma {:induction false} RoomUnion(lens: seq<nat>, s: set<nat>, u: set<nat>, m: nat, k: nat)
    requires k <= |lens| && s !! u
    ensures RoomOver(lens, s + u, m, k) == RoomOver(lens, s, m, k) + RoomOver(lens, u, m, k)
  {
    if k > 0 {
      RoomUnion(lens, s, u, m, k - 1);
    }
  }

  lemma {:induction false} RoomOfOne(lens: seq<nat>, x: nat, m: nat, k: nat)
    requires k <= |lens|
    ensures RoomOver(lens, {x}, m, k) == if x < k && lens[x] <= m then Pow2(m - lens[x]) else 0
  {
    if k > 0 {
      RoomOfOne(lens, x, m, k - 1);
    }
  }

  lemma NodeParts(t: Tree, lens: seq<nat>, d: nat)
    requires t.Node? && Proper(t) && Depths(lens, t, d)
    ensures Proper(t.left) && Proper(t.right) && Depths(lens, t.left, d + 1) && Depths(lens, t.right, d + 1)
    ensures Syms(t) == Syms(t.left) + Syms(t.right) && Syms(t.left) !! Syms(t.right)
  {
    IdsBelow(t.left);
    IdsBelow(t.right);
  }

  lemma LeafParts(t: Tree, lens: seq<nat>, d: nat)
    requires t.Leaf? && Depths(lens, t, d)
    ensures Syms(t) == {t.id} && t.id < |lens| && lens[t.id] == d
  {
  }

  /** The leaves of a subtree take exactly the code space of a code of its depth. */
  lemma {:induction false} TreeRoom(t: Tree, lens: seq<nat>, d: nat, m: nat)
    requires Proper(t) && Depths(lens, t, d)
    requires forall s :: s in Syms(t) ==> s < |lens| && lens[s] <= m
    ensures d <= m && RoomOver(lens, Syms(t), m, |lens|) == Pow2(m - d)
    decreases t
  {
    hide *;
    match t
    case Leaf(id, w) =>
      LeafParts(t, lens, d);
      RoomOfOne(lens, id, m, |lens|);
    case Node(_, l, r) =>
      NodeParts(t, lens, d);
      TreeRoom(l, lens, d + 1, m);
      TreeRoom(r, lens, d + 1, m);
      RoomUnion(lens, Syms(l), Syms(r), m, |lens|);
      PowNext(m - d - 1);
  }

  lemma {:induction false} RoomOfNonzero(freqs: seq<nat>, lens: seq<nat>, m: nat, s: set<nat>, n: nat)
    requires n <= |freqs| == |lens| && AtMost(lens, m)
    requires forall i :: 0 <= i < |freqs| ==> (i in s <==> freqs[i] > 0)
    ensures AtMost(At(lens, Nonzero(freqs, n)), m) && Room(At(lens, Nonzero(freqs, n)), m) == RoomOver(lens, s, m, n)
  {
    hide *;
    RoomOverSteps(lens, s, m, n);
    AtWithin(lens, Nonzero(freqs, n), m);
    if n == 0 {
      NonzeroNone(freqs);
      NoRoom(lens, m);
    } else {
      var k := n - 1;
      var shorter := Nonzero(freqs, k);
      RoomOfNonzero(freqs, lens, m, s, k);
      NonzeroNext(freqs, k);
      if freqs[k] > 0 {
        AtSnoc(lens, shorter, k);
        LensWithin(lens, m, k);
        RoomSnoc(At(lens, shorter), m, lens[k]);
      }
    }
  }

  lemma RoomOverSteps(lens: seq<nat>, s: set<nat>, m: nat, n: nat)
    requires n <= |lens|
    ensures n == 0 ==> RoomOver(lens, s, m, n) == 0
    ensures n > 0 ==>
      RoomOver(lens, s, m, n) == RoomOver(lens, s, m, n - 1) + if n - 1 in s && lens[n - 1] <= m then Pow2(m - lens[n - 1]) else 0
  {
  }

  lemma AtWithin(lens: seq<nat>, places: seq<nat>, m: nat)
    requires AtMost(lens, m) && forall k :: 0 <= k < |places| ==> places[k] < |lens|
    ensures AtMost(At(lens, places), m)
  {
  }

  lemma LensWithin(lens: seq<nat>, m: nat, k: nat)
    requires AtMost(lens, m) && k < |lens|
    ensures lens[k] <= m
  {
  }

  lemma NoRoom(lens: seq<nat>, m: nat)
    ensures AtMost(At(lens, []), m) && Room(At(lens, []), m) == 0
  {
  }

  /** The depths fill the code space exactly. */
  lemma DepthsRoom(freqs: seq<nat>) returns (m: nat)
    requires |freqs| <= KRAFT_ONE && forall i :: 0 <= i < |freqs| ==> freqs[i] < FREQ_LIMIT
    requires |Nonzero(freqs, |freqs|)| >= 2
    ensures var d := At(TreeLengths(TreeOf(freqs), |freqs|), Nonzero(freqs, |freqs|));
      AtMost(d, m) && Room(d, m) == Pow2(m)
  {
    hide Proper, Syms, Depths, MergedFrom, DepthIn, Grown, Light, Room, RoomOver, Pow2, Nonzero, TreeOf, TreeLengths;
    var n, nonzero, t := |freqs|, Nonzero(freqs, |freqs|), TreeOf(freqs);
    var lens := TreeLengths(t, n);
    TreeFacts(freqs);
    NonzeroUsed(freqs, n);
    m := if n == 0 then 0 else lens[Deepest(lens)];
    assert AtMost(lens, m);
    forall s | s in Syms(t) ensures s < |lens| && lens[s] <= m {
      assert s in nonzero;
    }
    TreeRoom(t, lens, 0, m);
    assert forall i :: i in nonzero <==> i in Elements(nonzero);
    RoomOfNonzero(freqs, lens, m, Syms(t), n);
  }

  /** Giving the shorter of two lengths to the heavier symbol gains. */
  lemma Gains(a: nat, b: nat, x: nat, y: nat)
    requires a < b && x < y
    ensures Times(a, y) + Times(b, x) < Times(a, x) + Times(b, y)
  {
    MulLe(a + 1, b, y - x, y - x);
    MulAdd(a, 1, y - x);
    MulAdd(y - x, x, a);
    MulAdd(y - x, x, b);
  }

  /** A more frequent symbol is never deeper in the tree, or else exchanging the two lengths
      would beat the best. */
  lemma FrequentShallow(freqs: seq<nat>, a: nat, b: nat)
    requires |freqs| <= KRAFT_ONE && forall i :: 0 <= i < |freqs| ==> freqs[i] < FREQ_LIMIT
    requires |Nonzero(freqs, |freqs|)| >= 2 && a < |freqs| && b < |freqs| && freqs[a] > freqs[b] > 0
    ensures var depths := TreeLengths(TreeOf(freqs), |freqs|); depths[a] <= depths[b]
  {
    hide *;
    var n, nonzero := |freqs|, Nonzero(freqs, |freqs|);
    var depths := TreeLengths(TreeOf(freqs), n);
    NonzeroHas(freqs, a);
    NonzeroHas(freqs, b);
    var p: nat :| p < |nonzero| && nonzero[p] == a;
    var i: nat :| i < |nonzero| && nonzero[i] == b;
    var w, d := At(freqs, nonzero), At(depths, nonzero);
    AtIs(freqs, nonzero, p);
    AtIs(freqs, nonzero, i);
    AtIs(depths, nonzero, p);
    AtIs(depths, nonzero, i);
    if depths[a] > depths[b] {
      var m := DepthsRoom(freqs);
      var mid, e := d[i := d[p]], d[i := d[p]][p := d[i]];
      LensWithin(d, m, p);
      LensWithin(d, m, i);
      CostUpdate(w, d, i, d[p]);
      RoomUpdate(d, m, i, d[p]);
      CostUpdate(w, mid, p, d[i]);
      RoomUpdate(mid, m, p, d[i]);
      Gains(w[i], w[p], d[i], d[p]);
      DepthsCost(freqs);
      WholeCost(freqs, depths);
      LeavesWeigh(freqs, nonzero);
      NothingCheaper(Leaves(freqs, nonzero), n, e, m);
      assert false;
    }
  }

  lemma NonzeroHas(freqs: seq<nat>, a: nat)
    requires a < |freqs| && freqs[a] > 0 && forall i :: 0 <= i < |freqs| ==> freqs[i] < FREQ_LIMIT
    ensures a in Nonzero(freqs, |freqs|)
  {
    NonzeroUsed(freqs, |freqs|);
  }

  lemma AtIs(d: seq<nat>, places: seq<nat>, k: nat)
    requires (forall j :: 0 <= j < |places| ==> places[j] < |d|) && k < |places|
    ensures At(d, places)[k] == d[places[k]]
  {
  }

  /** So limiting never gives the more frequent of two symbols the longer code, unless the
      tree had both at the limit or at one depth. */
  lemma FrequentShorter(freqs: seq<nat>, a: nat, b: nat)
    requires |freqs| <= KRAFT_ONE && forall i :: 0 <= i < |freqs| ==> freqs[i] < FREQ_LIMIT
    requires |Nonzero(freqs, |freqs|)| >= 2 && a < |freqs| && b < |freqs| && freqs[a] > freqs[b] > 0
    ensures var depths := TreeLengths(TreeOf(freqs), |freqs|);
      Short15(depths[a]) != Short15(depths[b]) ==> LengthsFor(freqs)[a] <= LengthsFor(freqs)[b]
    ensures var depths := TreeLengths(TreeOf(freqs), |freqs|);
      AtMost(depths, MAX_BITS) ==> LengthsFor(freqs)[a] <= LengthsFor(freqs)[b]
  {
    hide TreeOf, TreeLengths, LengthsFor, Nonzero;
    FrequentShallow(freqs, a, b);
    DeeperIsLonger(freqs, a, b);
    if AtMost(TreeLengths(TreeOf(freqs), |freqs|), MAX_BITS) {
      ShallowUnlimited(freqs);
    }
  }
}
