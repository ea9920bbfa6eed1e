/** From symbol frequencies to codes: tree, depths, length limit, canonical codes. */
module HuffmanCodes {
  import opened Counting
  import opened CodeLengths
  import opened CanonicalCode
  import opened HuffmanTree

  /** Lengths of at most 15 bits, within the code space, for exactly the symbols that occur. */
  ghost predicate GoodLengths(freqs: seq<nat>, lens: seq<nat>) {
    && |lens| == |freqs| && Short(lens) && Kraft(lens) <= KRAFT_ONE
    && forall s :: 0 <= s < |lens| ==> (lens[s] > 0 <==> freqs[s] > 0)
  }

  lemma LimitedIsGood(freqs: seq<nat>, lens: seq<nat>, nonzero: seq<nat>)
    requires |lens| == |freqs| && Used(freqs, |freqs|, nonzero) && Limited(lens, Elements(nonzero))
    requires forall i :: 0 <= i < |lens| && i !in nonzero ==> lens[i] == 0
    ensures GoodLengths(freqs, lens)
  {
    hide Taken, Shorter;
    assert forall i :: i in nonzero <==> i in Elements(nonzero);
    KraftIsTaken(lens, Elements(nonzero), |lens|);
  }

  /** One symbol gets the code 0 of one bit. */
  lemma OneSymbol(freqs: seq<nat>, lens: seq<nat>, codes: seq<HuffCode>, sym: nat)
    requires |lens| == |codes| == |freqs| && Used(freqs, |freqs|, [sym])
    requires forall i :: 0 <= i < |lens| ==> lens[i] == if i == sym then 1 else 0
    requires forall i :: 0 <= i < |lens| ==> codes[i] == if i == sym then HuffCode(0, 1) else NO_CODE
    ensures GoodLengths(freqs, lens) && codes == Canonical(lens)
  {
    hide Taken, Cnt, Share;
    assert [sym][0] == sym && sym in [sym];
    SingleLeaf(lens, sym);
    assert Elements([sym]) == {sym};
    HalfSpace();
    LimitedIsGood(freqs, lens, [sym]);
    NoneBefore(lens, sym, sym);
    assert FirstCode(lens, 1) == 0;
  }

  lemma HalfSpace()
    ensures Share(1) == 0x4000
  {
    KraftSplit(1);
  }

  lemma {:induction false} NoneBefore(lens: seq<nat>, sym: nat, k: nat)
    requires k <= sym < |lens| && forall i :: 0 <= i < |lens| ==> lens[i] == if i == sym then 1 else 0
    ensures Cnt(lens, 1, k) == 0
    decreases k
  {
    if k > 0 {
      NoneBefore(lens, sym, k - 1);
    }
  }

  lemma WholeSpace()
    ensures Share(0) == KRAFT_ONE
  {
    KraftSplit(0);
  }

  /** Depths of a tree over the symbols that occur: within one code space apart from the
      overlong ones, and always below 96, so eight bits hold them. */
  lemma DepthsFit(freqs: seq<nat>, nonzero: seq<nat>, t: Tree, lens: seq<nat>)
    requires |lens| == |freqs| <= KRAFT_ONE && Used(freqs, |freqs|, nonzero)
    requires Syms(t) == Elements(nonzero) && t.Node? && Proper(t) && Grown(t) && Light(t) && Depths(lens, t, 0)
    ensures |nonzero| <= |freqs| && forall k :: 0 <= k < |nonzero| ==> 1 <= lens[nonzero[k]] < 96
    ensures Taken(lens, Elements(nonzero), |lens|) <= KRAFT_ONE + Overlong(lens, Elements(nonzero), |lens|)
  {
    hide Taken, Overlong, Proper, Grown, Light, Depths, Share, Height, Syms;
    assert forall s :: s in nonzero <==> s in Elements(nonzero);
    TreeSpace(lens, t, 0);
    WholeSpace();
    DepthRange(lens, t, 0);
    HeightBound(t, |freqs|);
    DistinctSize(nonzero);
    SubsetSize(Elements(nonzero), Range(|freqs|));
  }

  // ------------------------------------------------------------ lengths as a function

  /** Huffman's tree of the frequencies. */
  function TreeOf(freqs: seq<nat>): Tree
    requires |Nonzero(freqs, |freqs|)| >= 2
  {
    MergedFrom(Leaves(freqs, Nonzero(freqs, |freqs|)), |freqs|)
  }

  /** The code lengths the frequencies give. */
  ghost function LengthsFor(freqs: seq<nat>): (lens: seq<nat>)
    ensures |lens| == |freqs|
  {
    var n, nonzero := |freqs|, Nonzero(freqs, |freqs|);
    if |nonzero| == 0 then seq(n, i => 0)
    else if |nonzero| == 1 then seq(n, i requires 0 <= i < n => if i == nonzero[0] then 1 else 0)
    else LimitedLengths(TreeLengths(TreeOf(freqs), n), nonzero)
  }

  /** What the tree is like, and what its depths are. */
  lemma TreeFacts(freqs: seq<nat>)
    requires |freqs| <= KRAFT_ONE && forall i :: 0 <= i < |freqs| ==> freqs[i] < FREQ_LIMIT
    requires |Nonzero(freqs, |freqs|)| >= 2
    ensures var t := TreeOf(freqs);
      && Syms(t) == Elements(Nonzero(freqs, |freqs|)) && t.Node? && Proper(t) && Grown(t) && Light(t)
      && Depths(TreeLengths(t, |freqs|), t, 0)
  {
    hide Syms, Proper, Grown, Light, Depths, MergedFrom, DepthIn;
    var n, nonzero, t := |freqs|, Nonzero(freqs, |freqs|), TreeOf(freqs);
    NonzeroUsed(freqs, n);
    TreeStands(freqs, n, nonzero);
    var lens := TreeLengths(t, n);
    forall s | s in Syms(t) ensures s < n && lens[s] == 0 + DepthIn(t, s) {
      assert s in nonzero;
    }
    DepthsAre(lens, t, 0);
  }

  /** Frequencies of 32 bits give lengths of at most 15 bits, within the code space, for
      exactly the symbols that occur. */
  lemma LengthsForGood(freqs: seq<nat>)
    requires |freqs| <= KRAFT_ONE && forall i :: 0 <= i < |freqs| ==> freqs[i] < FREQ_LIMIT
    ensures GoodLengths(freqs, LengthsFor(freqs))
  {
    hide GoodLengths, LengthsFor, Nonzero;
    var n, nonzero, lens := |freqs|, Nonzero(freqs, |freqs|), LengthsFor(freqs);
    NonzeroUsed(freqs, n);
    FewLengths(freqs);
    if |nonzero| == 0 {
      NoSymbols(freqs, lens, nonzero);
    } else if |nonzero| == 1 {
      assert nonzero == [nonzero[0]];
      CanonicalOne(lens, nonzero[0]);
      OneSymbol(freqs, lens, Canonical(lens), nonzero[0]);
    } else {
      ManyGood(freqs);
    }
  }

  lemma FewLengths(freqs: seq<nat>)
    ensures var n, nonzero, lens := |freqs|, Nonzero(freqs, |freqs|), LengthsFor(freqs);
      && (|nonzero| == 0 ==> forall i :: 0 <= i < n ==> lens[i] == 0)
      && (|nonzero| == 1 ==> forall i :: 0 <= i < n ==> lens[i] == if i == nonzero[0] then 1 else 0)
      && (|nonzero| >= 2 ==> lens == LimitedLengths(TreeLengths(TreeOf(freqs), n), nonzero))
  {
    hide LimitedLengths, TreeOf;
  }

  lemma CanonicalOne(lens: seq<nat>, sym: nat)
    requires sym < |lens| && forall i :: 0 <= i < |lens| ==> lens[i] == if i == sym then 1 else 0
    ensures forall i :: 0 <= i < |lens| ==> Canonical(lens)[i] == if i == sym then HuffCode(0, 1) else NO_CODE
  {
    NoneBefore(lens, sym, sym);
    assert FirstCode(lens, 1) == 0;
  }

  lemma ManyGood(freqs: seq<nat>)
    requires |freqs| <= KRAFT_ONE && forall i :: 0 <= i < |freqs| ==> freqs[i] < FREQ_LIMIT
    requires |Nonzero(freqs, |freqs|)| >= 2
    ensures GoodLengths(freqs, LengthsFor(freqs))
  {
    hide *;
    var n, nonzero, t := |freqs|, Nonzero(freqs, |freqs|), TreeOf(freqs);
    var depths := TreeLengths(t, n);
    NonzeroUsed(freqs, n);
    UsedDistinct(freqs, nonzero);
    TreeFacts(freqs);
    DepthsFit(freqs, nonzero, t, depths);
    LimitedFits(depths, nonzero);
    FewLengths(freqs);
    DepthsElsewhere(t, n, nonzero);
    LimitedIsGood(freqs, LengthsFor(freqs), nonzero);
  }

  lemma UsedDistinct(freqs: seq<nat>, nonzero: seq<nat>)
    requires Used(freqs, |freqs|, nonzero)
    ensures Distinct(nonzero, |freqs|)
  {
  }

  lemma DepthsElsewhere(t: Tree, n: nat, nonzero: seq<nat>)
    requires Syms(t) == Elements(nonzero)
    ensures forall i :: 0 <= i < n && i !in nonzero ==> TreeLengths(t, n)[i] == 0
  {
    hide Syms, DepthIn;
    assert forall i :: i in nonzero <==> i in Elements(nonzero);
  }

  /** Of two symbols that occur the one deeper in the tree, depths beyond 15 counting as 15,
      never gets the shorter code; between equals the smaller symbol never does. */
  lemma DeeperIsLonger(freqs: seq<nat>, a: nat, b: nat)
    requires |freqs| <= KRAFT_ONE && forall i :: 0 <= i < |freqs| ==> freqs[i] < FREQ_LIMIT
    requires |Nonzero(freqs, |freqs|)| >= 2 && a < |freqs| && b < |freqs| && freqs[a] > 0 && freqs[b] > 0
    ensures InDepthOrder(freqs, LengthsFor(freqs), a, b)
  {
    hide *;
    var n, nonzero, t := |freqs|, Nonzero(freqs, |freqs|), TreeOf(freqs);
    var depths := TreeLengths(t, n);
    NonzeroUsed(freqs, n);
    UsedDistinct(freqs, nonzero);
    UsedIn(freqs, nonzero, a);
    UsedIn(freqs, nonzero, b);
    TreeFacts(freqs);
    DepthsFit(freqs, nonzero, t, depths);
    LimitKeepsOrder(depths, nonzero, a, b);
    FewLengths(freqs);
    InDepthOrderIs(freqs, LengthsFor(freqs), a, b);
  }

  /** The lengths of `a` and `b` go the way their capped depths go. */
  ghost predicate InDepthOrder(freqs: seq<nat>, lens: seq<nat>, a: nat, b: nat)
    requires |lens| == |freqs| && |Nonzero(freqs, |freqs|)| >= 2 && a < |freqs| && b < |freqs|
  {
    var depths := TreeLengths(TreeOf(freqs), |freqs|);
    && (Short15(depths[a]) < Short15(depths[b]) ==> lens[a] <= lens[b])
    && (Short15(depths[a]) == Short15(depths[b]) && a < b ==> lens[a] >= lens[b])
  }

  lemma InDepthOrderIs(freqs: seq<nat>, lens: seq<nat>, a: nat, b: nat)
    requires |lens| == |freqs| && |Nonzero(freqs, |freqs|)| >= 2 && a < |freqs| && b < |freqs|
    requires var depths := TreeLengths(TreeOf(freqs), |freqs|);
      && (Short15(depths[a]) < Short15(depths[b]) ==> lens[a] <= lens[b])
      && (Short15(depths[a]) == Short15(depths[b]) && a < b ==> lens[a] >= lens[b])
    ensures InDepthOrder(freqs, lens, a, b)
  {
  }

  lemma UsedIn(freqs: seq<nat>, nonzero: seq<nat>, a: nat)
    requires Used(freqs, |freqs|, nonzero) && a < |freqs| && freqs[a] > 0
    ensures a in nonzero
  {
  }

  /** `build_huffman_codes`: the codes are those of the lengths the frequencies give. */
  method BuildHuffmanCodes(freqs: seq<nat>) returns (codes: seq<HuffCode>, ghost lens: seq<nat>)
    requires |freqs| <= KRAFT_ONE && forall i :: 0 <= i < |freqs| ==> freqs[i] < FREQ_LIMIT
    ensures lens == LengthsFor(freqs) && codes == Canonical(lens)
    ensures GoodLengths(freqs, lens)
    ensures |codes| == |lens| && forall s :: 0 <= s < |lens| ==> codes[s].len == lens[s]
    ensures |Nonzero(freqs, |freqs|)| >= 2 ==>
      forall a, b :: 0 <= a < |freqs| && 0 <= b < |freqs| && freqs[a] > 0 && freqs[b] > 0 ==> InDepthOrder(freqs, lens, a, b)
  {
    hide Kraft, CodeBits, Climb, GoodLengths, LimitedLengths, LengthsFor, TreeOf, Nonzero, TreeLengths, InDepthOrder;
    var n := |freqs|;
    lens := LengthsFor(freqs);
    LengthsForGood(freqs);
    FewLengths(freqs);
    var nonzero := NonzeroSymbols(freqs, n);
    if |nonzero| == 0 {
      codes := seq(n, i => NO_CODE);
      assert codes == Canonical(lens);
    } else if |nonzero| == 1 {
      codes := seq(n, i => NO_CODE);
      codes := codes[nonzero[0] := HuffCode(0, 1)];
      CanonicalOne(lens, nonzero[0]);
      assert codes == Canonical(lens);
    } else {
      forall a, b | 0 <= a < n && 0 <= b < n && freqs[a] > 0 && freqs[b] > 0 ensures InDepthOrder(freqs, lens, a, b) {
        DeeperIsLonger(freqs, a, b);
      }
      var lengths := LimitedDepths(freqs, nonzero);
      codes := CanonicalCodes(lengths[..], n);
      assert codes[..n] == codes;
    }
  }

  /** The tree, the climbs and the limit. */
  method LimitedDepths(freqs: seq<nat>, nonzero: seq<nat>) returns (lengths: array<nat>)
    requires |freqs| <= KRAFT_ONE && forall i :: 0 <= i < |freqs| ==> freqs[i] < FREQ_LIMIT
    requires nonzero == Nonzero(freqs, |freqs|) && |nonzero| >= 2
    ensures fresh(lengths) && lengths[..] == LimitedLengths(TreeLengths(TreeOf(freqs), |freqs|), nonzero)
  {
    hide Syms, Proper, Linked, Grown, Light, Climb, MergedFrom, LimitedLengths, TreeLengths, Nonzero, ParentsAhead;
    var n := |freqs|;
    NonzeroUsed(freqs, n);
    var parent, t := BuildTree(freqs, n, nonzero);
    ghost var p := parent[..];
    lengths := new nat[n](i => 0);
    for k := 0 to |nonzero|
      invariant parent[..] == p
      invariant forall i :: 0 <= i < k ==> lengths[nonzero[i]] == Climb(p, nonzero[i])
      invariant forall i :: 0 <= i < n && i !in nonzero ==> lengths[i] == 0
    {
      var depth := ClimbUp(parent, nonzero[k]);
      lengths[nonzero[k]] := depth;
    }
    ClimbedLengths(p, t, lengths[..], nonzero);
    LimitCodeLengths(lengths, nonzero);
  }

  /** Climbing from every leaf finds the depths. */
  lemma ClimbedLengths(parent: seq<nat>, t: Tree, lens: seq<nat>, nonzero: seq<nat>)
    requires Syms(t) == Elements(nonzero) && Proper(t) && Linked(parent, t) && parent[t.id] == NO_PARENT && |parent| < NO_PARENT
    requires forall s :: s in nonzero ==> s < |lens| && lens[s] == Climb(parent, s)
    requires forall i :: 0 <= i < |lens| && i !in nonzero ==> lens[i] == 0
    ensures lens == TreeLengths(t, |lens|)
  {
    hide Proper, Linked, Depths, Syms, DepthIn;
    assert forall s :: s in nonzero <==> s in Elements(nonzero);
    assert Climb(parent, t.id) == 0;
    ClimbDepths(parent, lens, t, 0);
    DepthsAre(lens, t, 0);
  }

  lemma NoSymbols(freqs: seq<nat>, lens: seq<nat>, nonzero: seq<nat>)
    requires |lens| == |freqs| && Used(freqs, |freqs|, nonzero) && nonzero == []
    requires forall i :: 0 <= i < |lens| ==> lens[i] == 0
    ensures GoodLengths(freqs, lens)
  {
    assert Elements(nonzero) == {};
    TakenNone(lens, |lens|);
    LimitedIsGood(freqs, lens, nonzero);
  }
}
