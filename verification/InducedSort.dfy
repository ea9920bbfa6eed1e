/** Induced sorting, once and for all.

    Position i is compared by its window Enc(t)[i..e[i]].  Whenever the window of
    an L position (S position) is its own symbol followed by the window of the
    next position, one left-to-right (right-to-left) scan sorts all L (all S)
    positions.  With e constant this sorts suffixes; with e at the next LMS
    position it sorts LMS substrings.  The two passes of the program are proved
    for every such e. */
module InducedSort {
  import opened Counting
  import opened Suffixes

  const EMPTY: nat := 0xFFFF_FFFF

  ghost predicate Windows(t: seq<nat>, e: seq<nat>) {
    |e| == |t| && forall i :: 0 <= i < |t| ==> i < e[i] <= |t|
  }

  ghost predicate KeyLe(t: seq<nat>, e: seq<nat>, x: nat, y: nat)
    requires Windows(t, e) && x < |t| && y < |t|
  {
    WinLe(Enc(t), x, e[x], y, e[y])
  }

  lemma KeyLeBySymbol(t: seq<nat>, e: seq<nat>, x: nat, y: nat)
    requires Windows(t, e) && x < |t| && y < |t|
    requires t[x] < t[y] || (t[x] == t[y] && LType(t, x) && SType(t, y))
    ensures KeyLe(t, e, x, y)
  {
  }

  /** Two positions with the same typed symbol compare as their successors do. */
  lemma KeyLeByNext(t: seq<nat>, e: seq<nat>, x: nat, y: nat)
    requires Windows(t, e) && x + 1 < |t| && y + 1 < |t|
    requires t[x] == t[y] && SType(t, x) == SType(t, y)
    requires e[x] == e[x + 1] && e[y] == e[y + 1]
    ensures KeyLe(t, e, x, y) == KeyLe(t, e, x + 1, y + 1)
  {
  }

  ghost predicate Symbols(t: seq<nat>, k: nat) {
    forall i :: 0 <= i < |t| ==> t[i] < k
  }

  ghost predicate AtHome(t: seq<nat>, sa: seq<nat>) {
    |sa| == |t| && forall p :: 0 <= p < |sa| && sa[p] != EMPTY ==> sa[p] < |t| && Home(t, p, sa[p])
  }

  ghost predicate Has(sa: seq<nat>, v: nat, hi: nat)
    requires hi <= |sa|
  {
    exists q :: 0 <= q < hi && sa[q] == v
  }

  // ------------------------------------------------------------ left-to-right pass

  ghost predicate LWindows(t: seq<nat>, e: seq<nat>) {
    Terminated(t) && |t| < EMPTY && Windows(t, e) && forall j :: 0 <= j < |t| && LType(t, j) ==> j + 1 < |t| && e[j] == e[j + 1]
  }

  ghost predicate Distinct(sa: seq<nat>) {
    forall p, q :: 0 <= p < q < |sa| && sa[p] != EMPTY ==> sa[p] != sa[q]
  }

  ghost predicate Sorted(t: seq<nat>, e: seq<nat>, sa: seq<nat>)
    requires Windows(t, e) && AtHome(t, sa)
  {
    forall p, q :: 0 <= p < q < |sa| && sa[p] != EMPTY && sa[q] != EMPTY ==> KeyLe(t, e, sa[p], sa[q])
  }

  ghost predicate HeadsOk(t: seq<nat>, sa: seq<nat>, heads: seq<nat>)
    requires |sa| == |t|
  {
    && Symbols(t, |heads|)
    && (forall c :: 0 <= c < |heads| ==> Start(t, c) <= heads[c] <= SStart(t, c) <= |t|)
    && (forall c, p :: 0 <= c < |heads| && Start(t, c) <= p < heads[c] ==> sa[p] != EMPTY)
  }

  /** Every L position in the array was put there by its successor. */
  ghost predicate LOrigin(t: seq<nat>, sa: seq<nat>, heads: seq<nat>, i: nat)
    requires AtHome(t, sa) && Symbols(t, |heads|) && i <= |sa|
  {
    forall p :: 0 <= p < |sa| && sa[p] != EMPTY && LType(t, sa[p]) ==>
      p < heads[t[sa[p]]] && Has(sa, sa[p] + 1, i)
  }

  ghost predicate LmsPresent(t: seq<nat>, sa: seq<nat>) {
    forall v :: 0 <= v < |t| && Lms(t, v) ==> Has(sa, v, |sa|)
  }

  ghost predicate LComplete(t: seq<nat>, sa: seq<nat>, i: nat)
    requires i <= |sa|
  {
    forall j :: 0 <= j < |t| && LType(t, j) && Has(sa, j + 1, i) ==> Has(sa, j, |sa|)
  }

  ghost predicate LInv(t: seq<nat>, e: seq<nat>, sa: seq<nat>, heads: seq<nat>, i: nat)
    requires Windows(t, e)
  {
    && AtHome(t, sa) && i <= |sa|
    && Distinct(sa) && Sorted(t, e, sa)
    && HeadsOk(t, sa, heads)
    && LOrigin(t, sa, heads, i)
    && LmsPresent(t, sa)
    && LComplete(t, sa, i)
  }

  lemma HasGrows(sa: seq<nat>, v: nat, i: nat)
    requires i < |sa|
    ensures Has(sa, v, i + 1) <==> Has(sa, v, i) || sa[i] == v
  {
  }

  lemma HasUpdate(sa: seq<nat>, p: nat, j: nat, v: nat, i: nat)
    requires p < |sa| && i <= |sa| && sa[p] == EMPTY && v != EMPTY
    ensures Has(sa, v, i) ==> Has(sa[p := j], v, i)
    ensures Has(sa[p := j], v, i) ==> Has(sa, v, i) || (v == j && p < i)
    ensures p < i && v == j ==> Has(sa[p := j], v, i)
  {
    if Has(sa, v, i) {
      var q :| 0 <= q < i && sa[q] == v;
      assert sa[p := j][q] == v;
    }
    if Has(sa[p := j], v, i) {
      var q :| 0 <= q < i && sa[p := j][q] == v;
      assert q == p || sa[q] == v;
    }
    if p < i && v == j {
      assert sa[p := j][p] == v;
    }
  }

  /** Nothing to induce at slot `i`. */
  lemma LSkip(t: seq<nat>, e: seq<nat>, sa: seq<nat>, heads: seq<nat>, i: nat)
    requires LWindows(t, e) && LInv(t, e, sa, heads, i) && i < |sa|
    requires sa[i] == EMPTY || sa[i] == 0 || SType(t, sa[i] - 1)
    ensures LInv(t, e, sa, heads, i + 1)
  {
    hide KeyLe, Home, Start, SStart, SType, Sorted, HeadsOk;
    forall p | 0 <= p < |sa| && sa[p] != EMPTY && LType(t, sa[p])
      ensures Has(sa, sa[p] + 1, i + 1)
    {
      HasGrows(sa, sa[p] + 1, i);
    }
    forall j | 0 <= j < |t| && LType(t, j) && Has(sa, j + 1, i + 1)
      ensures Has(sa, j, |sa|)
    {
      HasGrows(sa, j + 1, i);
    }
  }

  /** Where the predecessor of slot `i` goes: ahead of the scan, into a free slot
      of its own bucket's L part. */
  lemma LTarget(t: seq<nat>, e: seq<nat>, sa: seq<nat>, heads: seq<nat>, i: nat)
    requires LWindows(t, e) && LInv(t, e, sa, heads, i) && i < |sa|
    requires sa[i] != EMPTY && sa[i] != 0 && LType(t, sa[i] - 1)
    ensures var j := sa[i] - 1;
            var p := heads[t[j]];
            && !Has(sa, j, |sa|)
            && i < p < SStart(t, t[j]) && p < |sa| && sa[p] == EMPTY
            && Home(t, p, j)
  {
    hide KeyLe, Home, Sorted, LComplete, LmsPresent, Start, SStart, SType;
    var s := sa[i];
    var j := s - 1;
    var c := t[j];
    assert !Has(sa, j + 1, i);
    LRoom(t, sa, heads, j);
    var p := heads[c];
    if sa[p] != EMPTY {
      LSlot(t, sa, p, c);
    }
    LAhead(t, i, s, p);
  }

  /** An L predecessor goes to the right of slot `i`, which holds its successor. */
  lemma LAhead(t: seq<nat>, i: nat, s: nat, p: nat)
    requires Terminated(t) && 0 < s < |t| && LType(t, s - 1) && Home(t, i, s)
    requires Start(t, t[s - 1]) <= p < SStart(t, t[s - 1])
    requires t[s] == t[s - 1] && LType(t, s) ==> i < p
    ensures i < p && Home(t, p, s - 1)
  {
    hide Start, SStart;
    var c := t[s - 1];
    BucketSizes(t, t[s]);
    if t[s] < c {
      StartMonotone(t, t[s] + 1, c);
    } else {
      assert t[s] == c && LType(t, s);
    }
  }

  /** A slot in the L part of bucket `c` can only hold an L position of that bucket. */
  lemma LSlot(t: seq<nat>, sa: seq<nat>, p: nat, c: nat)
    requires AtHome(t, sa) && p < |sa| && sa[p] != EMPTY
    requires Start(t, c) <= p < SStart(t, c)
    ensures t[sa[p]] == c && LType(t, sa[p])
  {
    var x := sa[p];
    hide Start, SStart;
    BucketSizes(t, c);
    BucketSizes(t, t[x]);
    if t[x] < c {
      StartMonotone(t, t[x] + 1, c);
    } else if c < t[x] {
      StartMonotone(t, c + 1, t[x]);
    }
  }

  /** Pigeonhole: while an L position of a bucket is missing, the L part has room. */
  lemma LRoom(t: seq<nat>, sa: seq<nat>, heads: seq<nat>, j: nat)
    requires AtHome(t, sa) && Distinct(sa) && HeadsOk(t, sa, heads)
    requires j < |t| && LType(t, j) && !Has(sa, j, |sa|)
    ensures heads[t[j]] < SStart(t, t[j])
  {
    var c := t[j];
    var lo, hi := Start(t, c), heads[c];
    var part := sa[lo..hi];
    forall k | 0 <= k < |part| ensures part[k] in LSet(t, c) && part[k] != j {
      LSlot(t, sa, lo + k, c);
      assert part[k] == sa[lo + k];
    }
    DistinctSize(part);
    assert j !in part;
    assert Elements(part) + {j} <= LSet(t, c);
    SubsetSize(Elements(part) + {j}, LSet(t, c));
  }

  lemma LOrder(t: seq<nat>, e: seq<nat>, sa: seq<nat>, heads: seq<nat>, i: nat, q: nat)
    requires LWindows(t, e) && LInv(t, e, sa, heads, i) && i < |sa|
    requires sa[i] != EMPTY && sa[i] != 0 && LType(t, sa[i] - 1)
    requires q < |sa| && sa[q] != EMPTY
    ensures var j := sa[i] - 1;
            var p := heads[t[j]];
            && (q < p ==> KeyLe(t, e, sa[q], j))
            && (p < q ==> KeyLe(t, e, j, sa[q]))
  {
    hide KeyLe, LComplete, LmsPresent, Start, SStart, SType, Distinct;
    LTarget(t, e, sa, heads, i);
    var s, x := sa[i], sa[q];
    var j := s - 1;
    var p := heads[t[j]];
    if q < p {
      HomesOrdered(t, q, x, p, j);
      if t[x] == t[j] {
        var q' :| 0 <= q' < i && sa[q'] == x + 1;
        KeyLeByNext(t, e, x, j);
      } else {
        KeyLeBySymbol(t, e, x, j);
      }
    } else if p < q {
      HomesOrdered(t, p, j, q, x);
      KeyLeBySymbol(t, e, j, x);
    }
  }

  /** The predecessor of slot `i` is induced. */
  lemma LPlace(t: seq<nat>, e: seq<nat>, sa: seq<nat>, heads: seq<nat>, i: nat)
    requires LWindows(t, e) && LInv(t, e, sa, heads, i) && i < |sa|
    requires sa[i] != EMPTY && sa[i] != 0 && LType(t, sa[i] - 1)
    ensures var j := sa[i] - 1;
            var p := heads[t[j]];
            p < |sa| && LInv(t, e, sa[p := j], heads[t[j] := p + 1], i + 1)
  {
    hide KeyLe, Home, Start, SStart, SType, Sorted, Distinct, LOrigin, LmsPresent, LComplete;
    LPlaceSorted(t, e, sa, heads, i);
    LPlaceOrigin(t, e, sa, heads, i);
    LPlaceComplete(t, e, sa, heads, i);
    LTarget(t, e, sa, heads, i);
    LHeads(t, sa, heads, t[sa[i] - 1], sa[i] - 1);
  }

  lemma LPlaceSorted(t: seq<nat>, e: seq<nat>, sa: seq<nat>, heads: seq<nat>, i: nat)
    requires LWindows(t, e) && LInv(t, e, sa, heads, i) && i < |sa|
    requires sa[i] != EMPTY && sa[i] != 0 && LType(t, sa[i] - 1)
    ensures var j := sa[i] - 1;
            var p := heads[t[j]];
            p < |sa| && AtHome(t, sa[p := j]) && Distinct(sa[p := j]) && Sorted(t, e, sa[p := j])
  {
    hide KeyLe, Home, Start, SStart, SType, LOrigin, LmsPresent, LComplete;
    LTarget(t, e, sa, heads, i);
    var j := sa[i] - 1;
    var p := heads[t[j]];
    var sa' := sa[p := j];
    forall a, b | 0 <= a < b < |sa'| && sa'[a] != EMPTY && sa'[b] != EMPTY
      ensures KeyLe(t, e, sa'[a], sa'[b])
    {
      if a == p {
        LOrder(t, e, sa, heads, i, b);
      } else if b == p {
        LOrder(t, e, sa, heads, i, a);
      }
    }
  }

  lemma LPlaceOrigin(t: seq<nat>, e: seq<nat>, sa: seq<nat>, heads: seq<nat>, i: nat)
    requires LWindows(t, e) && LInv(t, e, sa, heads, i) && i < |sa|
    requires sa[i] != EMPTY && sa[i] != 0 && LType(t, sa[i] - 1)
    ensures var j := sa[i] - 1;
            var p := heads[t[j]];
            p < |sa| && AtHome(t, sa[p := j]) && LOrigin(t, sa[p := j], heads[t[j] := p + 1], i + 1)
  {
    hide KeyLe, Home, Start, SStart, SType, Sorted, Distinct, LmsPresent, LComplete, Has;
    LTarget(t, e, sa, heads, i);
    var j := sa[i] - 1;
    var p := heads[t[j]];
    var sa', heads' := sa[p := j], heads[t[j] := p + 1];
    forall q | 0 <= q < |sa'| && sa'[q] != EMPTY && LType(t, sa'[q])
      ensures q < heads'[t[sa'[q]]] && Has(sa', sa'[q] + 1, i + 1)
    {
      var x := sa'[q];
      HasGrows(sa', x + 1, i);
      if q != p {
        HasUpdate(sa, p, j, x + 1, i);
      }
    }
  }

  lemma LPlaceComplete(t: seq<nat>, e: seq<nat>, sa: seq<nat>, heads: seq<nat>, i: nat)
    requires LWindows(t, e) && LInv(t, e, sa, heads, i) && i < |sa|
    requires sa[i] != EMPTY && sa[i] != 0 && LType(t, sa[i] - 1)
    ensures var j := sa[i] - 1;
            var p := heads[t[j]];
            p < |sa| && LmsPresent(t, sa[p := j]) && LComplete(t, sa[p := j], i + 1)
  {
    hide KeyLe, Home, Start, SStart, SType, Sorted, Distinct, LOrigin, Has, Lms;
    LTarget(t, e, sa, heads, i);
    var j := sa[i] - 1;
    var p := heads[t[j]];
    var sa' := sa[p := j];
    forall v | 0 <= v < |t| && Lms(t, v) ensures Has(sa', v, |sa'|) {
      HasUpdate(sa, p, j, v, |sa|);
    }
    forall y | 0 <= y < |t| && LType(t, y) && Has(sa', y + 1, i + 1) ensures Has(sa', y, |sa'|) {
      HasUpdate(sa, p, j, y + 1, i + 1);
      HasGrows(sa, y + 1, i);
      HasUpdate(sa, p, j, y, |sa|);
    }
  }

  lemma LHeads(t: seq<nat>, sa: seq<nat>, heads: seq<nat>, c: nat, j: nat)
    requires |sa| == |t| && HeadsOk(t, sa, heads) && c < |heads|
    requires heads[c] < SStart(t, c) && heads[c] < |sa| && j != EMPTY
    ensures HeadsOk(t, sa[heads[c] := j], heads[c := heads[c] + 1])
  {
    hide Start, SStart;
  }

  /** After the pass every L position is in the array. */
  lemma {:induction false} LAll(t: seq<nat>, e: seq<nat>, sa: seq<nat>, heads: seq<nat>, j: nat)
    requires LWindows(t, e) && LInv(t, e, sa, heads, |sa|)
    requires j < |t| && LType(t, j)
    ensures Has(sa, j, |sa|)
    decreases |t| - j
  {
    hide KeyLe, Home, Start, SStart;
    if LType(t, j + 1) {
      LAll(t, e, sa, heads, j + 1);
    } else {
      assert Lms(t, j + 1);
    }
  }

  // ------------------------------------------------------------ right-to-left pass

  ghost predicate SWindows(t: seq<nat>, e: seq<nat>) {
    && Terminated(t) && |t| < EMPTY && Windows(t, e)
    && (forall j :: 0 <= j < |t| - 1 && SType(t, j) ==> e[j] == e[j + 1])
  }

  /** Slot `p` already holds its final kind of entry: an L position, the sentinel,
      or an S position placed by this pass. Other entries are left over from seeding. */
  ghost predicate Fresh(t: seq<nat>, sa: seq<nat>, tails: seq<nat>, p: nat)
    requires AtHome(t, sa) && Symbols(t, |tails|) && p < |sa|
  {
    sa[p] != EMPTY && (LType(t, sa[p]) || sa[p] == |t| - 1 || tails[t[sa[p]]] <= p)
  }

  ghost predicate FHas(t: seq<nat>, sa: seq<nat>, tails: seq<nat>, v: nat, lo: nat)
    requires AtHome(t, sa) && Symbols(t, |tails|)
  {
    exists q :: lo <= q < |sa| && Fresh(t, sa, tails, q) && sa[q] == v
  }

  ghost predicate FDistinct(t: seq<nat>, sa: seq<nat>, tails: seq<nat>)
    requires AtHome(t, sa) && Symbols(t, |tails|)
  {
    forall p, q :: 0 <= p < q < |sa| && Fresh(t, sa, tails, p) && Fresh(t, sa, tails, q) ==> sa[p] != sa[q]
  }

  ghost predicate FSorted(t: seq<nat>, e: seq<nat>, sa: seq<nat>, tails: seq<nat>)
    requires Windows(t, e) && AtHome(t, sa) && Symbols(t, |tails|)
  {
    forall p, q :: 0 <= p < q < |sa| && Fresh(t, sa, tails, p) && Fresh(t, sa, tails, q) ==> KeyLe(t, e, sa[p], sa[q])
  }

  ghost predicate FilledIn(sa: seq<nat>, lo: nat, hi: nat)
    requires hi <= |sa|
  {
    forall p :: lo <= p < hi ==> sa[p] != EMPTY
  }

  ghost predicate TailsOk(t: seq<nat>, sa: seq<nat>, tails: seq<nat>)
    requires |sa| == |t|
  {
    && (forall c :: 0 <= c < |tails| ==> SStart(t, c) <= tails[c] <= Start(t, c + 1) <= |t|)
    && (forall c :: 0 <= c < |tails| ==> FilledIn(sa, tails[c], Start(t, c + 1)))
  }

  ghost predicate SOrigin(t: seq<nat>, sa: seq<nat>, tails: seq<nat>, i: nat)
    requires AtHome(t, sa) && Symbols(t, |tails|)
  {
    forall p :: 0 <= p < |sa| && Fresh(t, sa, tails, p) && SType(t, sa[p]) && sa[p] < |t| - 1 ==>
      FHas(t, sa, tails, sa[p] + 1, i)
  }

  ghost predicate SComplete(t: seq<nat>, sa: seq<nat>, tails: seq<nat>, i: nat)
    requires AtHome(t, sa) && Symbols(t, |tails|)
  {
    && (forall j :: 0 <= j < |t| - 1 && SType(t, j) && FHas(t, sa, tails, j + 1, i) ==> FHas(t, sa, tails, j, 0))
    && (forall j :: 0 <= j < |t| && LType(t, j) ==> FHas(t, sa, tails, j, 0))
  }

  /** The scan has left nothing stale behind it. */
  ghost predicate Passed(t: seq<nat>, tails: seq<nat>, i: nat)
    requires |t| >= 1
  {
    forall c :: 0 <= c < |tails| && c != t[|t| - 1] ==> tails[c] <= i || tails[c] == SStart(t, c)
  }

  ghost predicate SInv(t: seq<nat>, e: seq<nat>, sa: seq<nat>, tails: seq<nat>, i: nat)
    requires Windows(t, e) && |t| >= 1
  {
    && AtHome(t, sa) && Symbols(t, |tails|) && i <= |sa| && sa[0] == |t| - 1
    && FDistinct(t, sa, tails) && FSorted(t, e, sa, tails)
    && TailsOk(t, sa, tails)
    && SOrigin(t, sa, tails, i)
    && SComplete(t, sa, tails, i)
    && Passed(t, tails, i)
  }

  /** A slot in the S part of bucket `c` can only hold an S position of that bucket. */
  lemma SSlot(t: seq<nat>, sa: seq<nat>, p: nat, c: nat)
    requires AtHome(t, sa) && p < |sa| && sa[p] != EMPTY
    requires SStart(t, c) <= p < Start(t, c + 1)
    ensures t[sa[p]] == c && SType(t, sa[p])
  {
    var x := sa[p];
    hide Start, SStart;
    BucketSizes(t, c);
    BucketSizes(t, t[x]);
    if t[x] < c {
      StartMonotone(t, t[x] + 1, c);
    } else if c < t[x] {
      StartMonotone(t, c + 1, t[x]);
    }
  }

  /** The S positions placed in bucket `c`, one per slot. */
  lemma SPart(t: seq<nat>, sa: seq<nat>, tails: seq<nat>, c: nat) returns (had: set<nat>)
    requires AtHome(t, sa) && Symbols(t, |tails|) && FDistinct(t, sa, tails) && TailsOk(t, sa, tails)
    requires c < |tails|
    ensures |had| == Start(t, c + 1) - tails[c] && had <= SSet(t, c)
    ensures forall v :: v in had ==> FHas(t, sa, tails, v, 0)
    ensures forall q :: tails[c] <= q < Start(t, c + 1) ==> sa[q] in had
  {
    hide Start, SStart, SType, Home;
    var lo, hi := tails[c], Start(t, c + 1);
    var part := sa[lo..hi];
    assert FilledIn(sa, lo, hi);
    forall k | 0 <= k < |part|
      ensures part[k] in SSet(t, c) && Fresh(t, sa, tails, lo + k) && FHas(t, sa, tails, part[k], 0)
    {
      SSlot(t, sa, lo + k, c);
      assert part[k] == sa[lo + k];
    }
    forall a, b | 0 <= a < b < |part| ensures part[a] != part[b] {
      assert Fresh(t, sa, tails, lo + a) && Fresh(t, sa, tails, lo + b);
    }
    DistinctSize(part);
    had := Elements(part);
    forall q | tails[c] <= q < Start(t, c + 1) ensures sa[q] in had {
      assert sa[q] == part[q - lo];
    }
  }

  /** Pigeonhole: while an S position of a bucket is missing, the S part has room. */
  lemma SRoom(t: seq<nat>, sa: seq<nat>, tails: seq<nat>, j: nat)
    requires AtHome(t, sa) && Symbols(t, |tails|) && FDistinct(t, sa, tails) && TailsOk(t, sa, tails)
    requires j < |t| && SType(t, j) && !FHas(t, sa, tails, j, 0)
    ensures SStart(t, t[j]) < tails[t[j]]
  {
    hide FHas, Fresh, FDistinct, Home;
    var c := t[j];
    var had := SPart(t, sa, tails, c);
    BucketSizes(t, c);
    assert j !in had;
    SubsetSize(had + {j}, SSet(t, c));
  }

  /** Pigeonhole, the other way: when none is missing, there is no room. */
  lemma SFull(t: seq<nat>, sa: seq<nat>, tails: seq<nat>, c: nat)
    requires AtHome(t, sa) && Symbols(t, |tails|) && FDistinct(t, sa, tails) && TailsOk(t, sa, tails)
    requires c < |tails| && |t| >= 1 && c != t[|t| - 1]
    requires forall j :: 0 <= j < |t| && t[j] == c && SType(t, j) ==> FHas(t, sa, tails, j, 0)
    ensures tails[c] == SStart(t, c)
  {
    hide Start, SStart, SType, FDistinct;
    var had := SPart(t, sa, tails, c);
    BucketSizes(t, c);
    forall j | j in SSet(t, c) ensures j in had {
      var q :| 0 <= q < |sa| && Fresh(t, sa, tails, q) && sa[q] == j;
      HomeBelowEnd(t, q, j);
      assert sa[q] in had;
    }
    SubsetSize(SSet(t, c), had);
  }

  /** Every S position of bucket `c` or above is placed before the scan enters the S part of `c`. */
  lemma {:induction false} SAbove(t: seq<nat>, e: seq<nat>, sa: seq<nat>, tails: seq<nat>, i: nat, c: nat, j: nat)
    requires SWindows(t, e) && SInv(t, e, sa, tails, i)
    requires c < |tails| && i <= Start(t, c + 1) && i <= tails[c]
    requires j < |t| - 1 && SType(t, j) && c <= t[j]
    ensures FHas(t, sa, tails, j, 0)
    decreases |t| - j
  {
    hide KeyLe, Start, SStart, FDistinct, FSorted, SOrigin, Passed, TailsOk;
    assert j + 1 < |t| - 1 && t[j] <= t[j + 1];
    if SType(t, j + 1) {
      SAbove(t, e, sa, tails, i, c, j + 1);
    }
    assert FHas(t, sa, tails, j + 1, 0);
    var q :| 0 <= q < |sa| && Fresh(t, sa, tails, q) && sa[q] == j + 1;
    if t[j + 1] > c {
      BucketSizes(t, t[j + 1]);
      StartMonotone(t, c + 1, t[j + 1]);
    }
    assert i <= q;
    assert FHas(t, sa, tails, j + 1, i);
  }

  /** The slot the scan reaches next holds no stale entry. */
  lemma SNext(t: seq<nat>, e: seq<nat>, sa: seq<nat>, tails: seq<nat>, i: nat)
    requires SWindows(t, e) && SInv(t, e, sa, tails, i) && 0 < i
    ensures Passed(t, tails, i - 1)
    ensures sa[i - 1] != EMPTY ==> Fresh(t, sa, tails, i - 1)
  {
    hide KeyLe, Start, SStart, SType, Home, FSorted, FDistinct, SOrigin, SComplete, TailsOk, FHas;
    forall c | 0 <= c < |tails| && c != t[|t| - 1] && tails[c] == i
      ensures tails[c] == SStart(t, c)
    {
      STailsBelow(t, sa, tails, c);
      forall j | 0 <= j < |t| && t[j] == c && SType(t, j) ensures FHas(t, sa, tails, j, 0) {
        SAbove(t, e, sa, tails, i, c, j);
      }
      SFull(t, sa, tails, c);
    }
    if sa[i - 1] != EMPTY && SType(t, sa[i - 1]) && sa[i - 1] != |t| - 1 {
      HomeBelowEnd(t, i - 1, sa[i - 1]);
    }
  }

  lemma STailsBelow(t: seq<nat>, sa: seq<nat>, tails: seq<nat>, c: nat)
    requires |sa| == |t| && TailsOk(t, sa, tails) && c < |tails|
    ensures SStart(t, c) <= tails[c] <= Start(t, c + 1) <= |t|
  {
  }

  lemma FHasShrink(t: seq<nat>, sa: seq<nat>, tails: seq<nat>, v: nat, i: nat)
    requires AtHome(t, sa) && Symbols(t, |tails|) && 0 < i <= |sa|
    ensures FHas(t, sa, tails, v, i - 1) <==> FHas(t, sa, tails, v, i) || (Fresh(t, sa, tails, i - 1) && sa[i - 1] == v)
  {
    hide Fresh;
  }

  /** Nothing to induce at slot `i - 1`. */
  lemma SSkip(t: seq<nat>, e: seq<nat>, sa: seq<nat>, tails: seq<nat>, i: nat)
    requires SWindows(t, e) && SInv(t, e, sa, tails, i) && 0 < i
    requires sa[i - 1] == EMPTY || sa[i - 1] == 0 || LType(t, sa[i - 1] - 1)
    ensures SInv(t, e, sa, tails, i - 1)
  {
    hide KeyLe, Home, Start, SStart, SType, FSorted, FDistinct, TailsOk, Passed, FHas;
    SNext(t, e, sa, tails, i);
    forall p | 0 <= p < |sa| && Fresh(t, sa, tails, p) && SType(t, sa[p]) && sa[p] < |t| - 1
      ensures FHas(t, sa, tails, sa[p] + 1, i - 1)
    {
      FHasShrink(t, sa, tails, sa[p] + 1, i);
    }
    forall j | 0 <= j < |t| - 1 && SType(t, j) && FHas(t, sa, tails, j + 1, i - 1)
      ensures FHas(t, sa, tails, j, 0)
    {
      FHasShrink(t, sa, tails, j + 1, i);
    }
  }

  /** Slot `i - 1` holds the successor of the S position `j`, whose bucket has its
      next free slot at `p`. */
  ghost predicate STakes(t: seq<nat>, sa: seq<nat>, tails: seq<nat>, i: nat, j: nat, p: nat) {
    && 0 < i <= |sa| && sa[i - 1] == j + 1 != EMPTY
    && j < |t| && SType(t, j)
    && t[j] < |tails| && tails[t[j]] == p + 1
  }

  /** `j` may go to `p`: ahead of the scan, a slot of its own bucket's S part that
      holds nothing fresh, and `j` is not placed yet. */
  ghost predicate SFits(t: seq<nat>, sa: seq<nat>, tails: seq<nat>, i: nat, j: nat, p: nat)
    requires AtHome(t, sa) && Symbols(t, |tails|)
  {
    && j < |t| - 1 < EMPTY && SType(t, j) && t[j] < |tails| && t[j] != t[|t| - 1]
    && !FHas(t, sa, tails, j, 0)
    && tails[t[j]] == p + 1 && p + 1 < i <= |sa|
    && Home(t, p, j) && !Fresh(t, sa, tails, p)
  }

  lemma STarget(t: seq<nat>, e: seq<nat>, sa: seq<nat>, tails: seq<nat>, i: nat, j: nat, p: nat)
    requires SWindows(t, e) && SInv(t, e, sa, tails, i) && STakes(t, sa, tails, i, j, p)
    ensures SFits(t, sa, tails, i, j, p)
  {
    hide KeyLe, Start, SStart, FSorted, SComplete, FDistinct, Passed;
    var s := j + 1;
    assert s < |t| && j < |t| - 1 && t[j] <= t[s] && t[j] != t[|t| - 1];
    SNext(t, e, sa, tails, i);
    SUnplaced(t, e, sa, tails, i, j);
    SRoom(t, sa, tails, j);
    if sa[p] != EMPTY {
      SSlot(t, sa, p, t[j]);
    }
    BucketSizes(t, t[s]);
    if t[j] < t[s] {
      StartMonotone(t, t[j] + 1, t[s]);
    }
  }

  lemma SUnplaced(t: seq<nat>, e: seq<nat>, sa: seq<nat>, tails: seq<nat>, i: nat, j: nat)
    requires SWindows(t, e) && SInv(t, e, sa, tails, i) && 0 < i <= |sa|
    requires sa[i - 1] == j + 1 != EMPTY && j < |t| - 1 && SType(t, j) && Fresh(t, sa, tails, i - 1)
    ensures !FHas(t, sa, tails, j, 0)
  {
    hide KeyLe, Start, SStart, Home, FSorted, SComplete, Passed, TailsOk, Fresh;
    assert !FHas(t, sa, tails, j + 1, i);
  }

  lemma SOrder(t: seq<nat>, e: seq<nat>, sa: seq<nat>, tails: seq<nat>, i: nat, j: nat, p: nat, q: nat)
    requires SWindows(t, e) && SInv(t, e, sa, tails, i) && STakes(t, sa, tails, i, j, p)
    requires q < |sa| && Fresh(t, sa, tails, q)
    ensures q < p ==> KeyLe(t, e, sa[q], j)
    ensures p < q ==> KeyLe(t, e, j, sa[q])
  {
    hide KeyLe, SComplete, Start, SStart, Passed, FDistinct, TailsOk;
    STarget(t, e, sa, tails, i, j, p);
    SNext(t, e, sa, tails, i);
    var x := sa[q];
    if q < p {
      HomesOrdered(t, q, x, p, j);
      KeyLeBySymbol(t, e, x, j);
    } else if p < q {
      HomesOrdered(t, p, j, q, x);
      if t[x] == t[j] {
        var q' :| i <= q' < |sa| && Fresh(t, sa, tails, q') && sa[q'] == x + 1;
        KeyLeByNext(t, e, j, x);
      } else {
        KeyLeBySymbol(t, e, j, x);
      }
    }
  }

  /** Placing `j` at `p` makes slot `p` fresh and leaves the others as they were. */
  lemma FreshUpdate(t: seq<nat>, sa: seq<nat>, tails: seq<nat>, i: nat, j: nat, p: nat, q: nat)
    requires AtHome(t, sa) && Symbols(t, |tails|) && SFits(t, sa, tails, i, j, p) && q < |sa|
    ensures AtHome(t, sa[p := j])
    ensures Fresh(t, sa[p := j], tails[t[j] := p], q) <==> q == p || Fresh(t, sa, tails, q)
  {
    hide Start, SStart, SType, FHas;
  }

  lemma FHasUpdate(t: seq<nat>, sa: seq<nat>, tails: seq<nat>, i: nat, j: nat, p: nat, v: nat, lo: nat)
    requires AtHome(t, sa) && Symbols(t, |tails|) && SFits(t, sa, tails, i, j, p)
    ensures AtHome(t, sa[p := j])
    ensures FHas(t, sa[p := j], tails[t[j] := p], v, lo) <==> FHas(t, sa, tails, v, lo) || (v == j && lo <= p)
  {
    hide Start, SStart, SType, Fresh, Home;
    FreshUpdate(t, sa, tails, i, j, p, p);
    var sa', tails' := sa[p := j], tails[t[j] := p];
    if FHas(t, sa', tails', v, lo) {
      var q :| lo <= q < |sa'| && Fresh(t, sa', tails', q) && sa'[q] == v;
      FreshUpdate(t, sa, tails, i, j, p, q);
    }
    if FHas(t, sa, tails, v, lo) {
      var q :| lo <= q < |sa| && Fresh(t, sa, tails, q) && sa[q] == v;
      FreshUpdate(t, sa, tails, i, j, p, q);
      assert Fresh(t, sa', tails', q) && sa'[q] == v;
    }
    if v == j && lo <= p {
      assert Fresh(t, sa', tails', p) && sa'[p] == v;
    }
  }

  /** The predecessor of slot `i - 1` is induced. */
  lemma SPlace(t: seq<nat>, e: seq<nat>, sa: seq<nat>, tails: seq<nat>, i: nat, j: nat, p: nat)
    requires SWindows(t, e) && SInv(t, e, sa, tails, i) && STakes(t, sa, tails, i, j, p)
    ensures p < |sa| && SInv(t, e, sa[p := j], tails[t[j] := p], i - 1)
  {
    hide KeyLe, Home, Start, SStart, SType, Fresh, FSorted, FDistinct, SOrigin, SComplete, FHas, Passed, TailsOk;
    STarget(t, e, sa, tails, i, j, p);
    SNext(t, e, sa, tails, i);
    FreshUpdate(t, sa, tails, i, j, p, p);
    SPlaceSorted(t, e, sa, tails, i, j, p);
    SPlaceOrigin(t, e, sa, tails, i, j, p);
    SPlaceTails(t, sa, tails, i, j, p, sa[p := j], tails[t[j] := p]);
    SPassedKept(t, sa, tails, i, j, p);
  }

  lemma SPlaceTails(t: seq<nat>, sa: seq<nat>, tails: seq<nat>, i: nat, j: nat, p: nat, sa': seq<nat>, tails': seq<nat>)
    requires Terminated(t) && AtHome(t, sa) && Symbols(t, |tails|) && SFits(t, sa, tails, i, j, p)
    requires TailsOk(t, sa, tails) && sa[0] == |t| - 1
    requires sa' == sa[p := j] && tails' == tails[t[j] := p]
    ensures p != 0 && TailsOk(t, sa', tails')
  {
    hide Start, SStart, SType, FHas, Fresh;
    HomeBelowEnd(t, p, j);
    if p == 0 {
      SSlot(t, sa, 0, t[j]);
    }
    forall c | 0 <= c < |tails'| ensures SStart(t, c) <= tails'[c] <= Start(t, c + 1) <= |t| {
      STailsBelow(t, sa, tails, c);
    }
    forall c | 0 <= c < |tails'| ensures FilledIn(sa', tails'[c], Start(t, c + 1)) {
      assert FilledIn(sa, tails[c], Start(t, c + 1));
    }
  }

  lemma SPassedKept(t: seq<nat>, sa: seq<nat>, tails: seq<nat>, i: nat, j: nat, p: nat)
    requires AtHome(t, sa) && Symbols(t, |tails|) && SFits(t, sa, tails, i, j, p) && Passed(t, tails, i - 1)
    ensures Passed(t, tails[t[j] := p], i - 1)
  {
    hide Start, SStart, SType, FHas, Fresh, Home;
  }

  lemma SPlaceSorted(t: seq<nat>, e: seq<nat>, sa: seq<nat>, tails: seq<nat>, i: nat, j: nat, p: nat)
    requires SWindows(t, e) && SInv(t, e, sa, tails, i) && STakes(t, sa, tails, i, j, p)
    requires SFits(t, sa, tails, i, j, p) && AtHome(t, sa[p := j])
    ensures FDistinct(t, sa[p := j], tails[t[j] := p]) && FSorted(t, e, sa[p := j], tails[t[j] := p])
  {
    hide KeyLe, Home, Start, SStart, SType, SOrigin, SComplete, Passed, TailsOk;
    var sa', tails' := sa[p := j], tails[t[j] := p];
    forall a, b | 0 <= a < b < |sa'| && Fresh(t, sa', tails', a) && Fresh(t, sa', tails', b)
      ensures sa'[a] != sa'[b] && KeyLe(t, e, sa'[a], sa'[b])
    {
      FreshUpdate(t, sa, tails, i, j, p, a);
      FreshUpdate(t, sa, tails, i, j, p, b);
      if a == p {
        SOrder(t, e, sa, tails, i, j, p, b);
      } else if b == p {
        SOrder(t, e, sa, tails, i, j, p, a);
      }
    }
  }

  lemma SPlaceOrigin(t: seq<nat>, e: seq<nat>, sa: seq<nat>, tails: seq<nat>, i: nat, j: nat, p: nat)
    requires SWindows(t, e) && SInv(t, e, sa, tails, i) && STakes(t, sa, tails, i, j, p)
    requires SFits(t, sa, tails, i, j, p) && AtHome(t, sa[p := j]) && Fresh(t, sa, tails, i - 1)
    ensures SOrigin(t, sa[p := j], tails[t[j] := p], i - 1) && SComplete(t, sa[p := j], tails[t[j] := p], i - 1)
  {
    hide KeyLe, Home, Start, SStart, SType, Fresh, FHas, FSorted, FDistinct, Passed, TailsOk;
    var sa', tails' := sa[p := j], tails[t[j] := p];
    forall q | 0 <= q < |sa'| && Fresh(t, sa', tails', q) && SType(t, sa'[q]) && sa'[q] < |t| - 1
      ensures FHas(t, sa', tails', sa'[q] + 1, i - 1)
    {
      var x := sa'[q];
      FreshUpdate(t, sa, tails, i, j, p, q);
      FHasUpdate(t, sa, tails, i, j, p, x + 1, i - 1);
      FHasShrink(t, sa, tails, x + 1, i);
    }
    forall y | 0 <= y < |t| - 1 && SType(t, y) && FHas(t, sa', tails', y + 1, i - 1)
      ensures FHas(t, sa', tails', y, 0)
    {
      FHasUpdate(t, sa, tails, i, j, p, y + 1, i - 1);
      FHasShrink(t, sa, tails, y + 1, i);
      FHasUpdate(t, sa, tails, i, j, p, y, 0);
    }
    forall y | 0 <= y < |t| && LType(t, y) ensures FHas(t, sa', tails', y, 0) {
      FHasUpdate(t, sa, tails, i, j, p, y, 0);
    }
  }

  /** `sa` lists every position once, in window order. */
  ghost predicate SortedBy(t: seq<nat>, e: seq<nat>, sa: seq<nat>)
    requires Windows(t, e)
  {
    && |sa| == |t|
    && (forall p :: 0 <= p < |sa| ==> sa[p] < |t|)
    && (forall p, q :: 0 <= p < q < |sa| ==> sa[p] != sa[q] && KeyLe(t, e, sa[p], sa[q]))
  }

  lemma {:induction false} SAll(t: seq<nat>, e: seq<nat>, sa: seq<nat>, tails: seq<nat>, j: nat)
    requires SWindows(t, e) && SInv(t, e, sa, tails, 0) && j < |t|
    ensures FHas(t, sa, tails, j, 0)
    decreases |t| - j
  {
    hide KeyLe, Home, Start, SStart, FSorted, FDistinct, Passed, TailsOk, SOrigin;
    if j == |t| - 1 {
      assert Fresh(t, sa, tails, 0);
    } else if SType(t, j) {
      SAll(t, e, sa, tails, j + 1);
    }
  }

  lemma SDone(t: seq<nat>, e: seq<nat>, sa: seq<nat>, tails: seq<nat>)
    requires SWindows(t, e) && SInv(t, e, sa, tails, 0)
    ensures SortedBy(t, e, sa)
  {
    hide KeyLe, Home, Start, SStart, SType, Fresh, Passed, TailsOk, SOrigin, SComplete;
    forall p | 0 <= p < |sa| ensures Fresh(t, sa, tails, p) && sa[p] < |t| {
      SAllFresh(t, e, sa, tails, p);
    }
  }

  ghost function FreshSlots(t: seq<nat>, sa: seq<nat>, tails: seq<nat>): set<nat>
    requires AtHome(t, sa) && Symbols(t, |tails|)
  {
    set p | p in Range(|sa|) && Fresh(t, sa, tails, p)
  }

  /** Pigeonhole: |t| positions are in |t| slots, so no slot is left over. */
  lemma SAllFresh(t: seq<nat>, e: seq<nat>, sa: seq<nat>, tails: seq<nat>, p: nat)
    requires SWindows(t, e) && SInv(t, e, sa, tails, 0) && p < |sa|
    ensures Fresh(t, sa, tails, p) && sa[p] < |t|
  {
    hide KeyLe, Home, Start, SStart, SType, Fresh, Image, FHas, FDistinct, FSorted, TailsOk, SOrigin, SComplete, Passed;
    var slots := FreshSlots(t, sa, tails);
    forall j | j in Range(|t|) ensures j in Image(slots, sa) {
      SAll(t, e, sa, tails, j);
      FHasSlot(t, sa, tails, j);
    }
    ImageSize(slots, sa);
    SubsetSize(Range(|t|), Image(slots, sa));
    SubsetSize(slots, Range(|t|));
    assert p in slots;
    FreshIsPosition(t, sa, tails, p);
  }

  lemma FHasSlot(t: seq<nat>, sa: seq<nat>, tails: seq<nat>, j: nat)
    requires AtHome(t, sa) && Symbols(t, |tails|) && FHas(t, sa, tails, j, 0)
    ensures j in Image(FreshSlots(t, sa, tails), sa)
  {
    hide Fresh;
    var q :| 0 <= q < |sa| && Fresh(t, sa, tails, q) && sa[q] == j;
    assert q in FreshSlots(t, sa, tails);
  }

  lemma FreshIsPosition(t: seq<nat>, sa: seq<nat>, tails: seq<nat>, p: nat)
    requires AtHome(t, sa) && Symbols(t, |tails|) && p < |sa| && Fresh(t, sa, tails, p)
    ensures sa[p] < |t|
  {
  }

  ghost function Image(ps: set<nat>, sa: seq<nat>): set<nat> {
    set p | p in ps && p < |sa| :: sa[p]
  }

  lemma {:induction false} ImageSize(ps: set<nat>, sa: seq<nat>)
    ensures |Image(ps, sa)| <= |ps|
    decreases |ps|
  {
    if ps == {} {
      assert Image(ps, sa) == {};
    } else {
      var x :| x in ps;
      ImageSize(ps - {x}, sa);
      var one := if x < |sa| then {sa[x]} else {};
      assert Image(ps, sa) == Image(ps - {x}, sa) + one;
    }
  }

  /** The array the left-to-right pass leaves is where the right-to-left pass starts. */
  lemma LToS(t: seq<nat>, e1: seq<nat>, e2: seq<nat>, sa: seq<nat>, heads: seq<nat>, tails: seq<nat>)
    requires LWindows(t, e1) && SWindows(t, e2) && LInv(t, e1, sa, heads, |sa|)
    requires forall j :: 0 <= j < |t| && LType(t, j) ==> e1[j] == e2[j]
    requires e1[|t| - 1] == e2[|t| - 1]
    requires |tails| == |heads| && forall c :: 0 <= c < |tails| ==> tails[c] == Start(t, c + 1)
    requires sa[0] == |t| - 1
    ensures SInv(t, e2, sa, tails, |sa|)
  {
    hide Start, SStart, Home, SType, KeyLe;
    LToSTails(t, sa, tails);
    forall p | 0 <= p < |sa| && Fresh(t, sa, tails, p)
      ensures LType(t, sa[p]) || sa[p] == |t| - 1
    {
      HomeBelowEnd(t, p, sa[p]);
    }
    forall j | 0 <= j < |t| && LType(t, j) ensures FHas(t, sa, tails, j, 0) {
      LAll(t, e1, sa, heads, j);
      var q :| 0 <= q < |sa| && sa[q] == j;
      assert Fresh(t, sa, tails, q);
    }
    forall p, q | 0 <= p < q < |sa| && Fresh(t, sa, tails, p) && Fresh(t, sa, tails, q)
      ensures KeyLe(t, e2, sa[p], sa[q])
    {
      SameKey(t, e1, e2, sa[p], sa[q]);
    }
  }

  lemma SameKey(t: seq<nat>, e1: seq<nat>, e2: seq<nat>, x: nat, y: nat)
    requires Windows(t, e1) && Windows(t, e2) && x < |t| && y < |t| && e1[x] == e2[x] && e1[y] == e2[y]
    ensures KeyLe(t, e1, x, y) == KeyLe(t, e2, x, y)
  {
  }

  lemma LToSTails(t: seq<nat>, sa: seq<nat>, tails: seq<nat>)
    requires |sa| == |t| && Symbols(t, |tails|)
    requires forall c :: 0 <= c < |tails| ==> tails[c] == Start(t, c + 1)
    requires |t| >= 1
    ensures TailsOk(t, sa, tails) && Passed(t, tails, |sa|)
  {
    hide Start, SStart, FilledIn;
    forall c | 0 <= c < |tails| ensures SStart(t, c) <= tails[c] <= Start(t, c + 1) <= |t| {
      BucketSizes(t, c);
      StartMonotone(t, c + 1, |tails|);
      StartEnd(t, |tails|);
    }
    forall c | 0 <= c < |tails| ensures FilledIn(sa, tails[c], Start(t, c + 1)) {
      NothingBetween(sa, tails[c]);
    }
    forall c | 0 <= c < |tails| ensures tails[c] <= |sa| {
      assert SStart(t, c) <= tails[c] <= Start(t, c + 1) <= |t|;
    }
    assert forall c :: 0 <= c < |tails| ==> SStart(t, c) <= tails[c] <= Start(t, c + 1) <= |t|;
    assert forall c :: 0 <= c < |tails| ==> FilledIn(sa, tails[c], Start(t, c + 1));
  }

  lemma NothingBetween(sa: seq<nat>, p: nat)
    requires p <= |sa|
    ensures FilledIn(sa, p, p)
  {
  }

  lemma HomeBelowEnd(t: seq<nat>, p: nat, x: nat)
    requires x < |t| && Home(t, p, x)
    ensures p < Start(t, t[x] + 1)
    ensures SType(t, x) ==> SStart(t, t[x]) <= p
  {
    hide Start, SStart, SType;
    BucketSizes(t, t[x]);
  }
}
