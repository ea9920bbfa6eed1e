/** SA-IS: linear-time suffix sorting by induction, as the program runs it. */
module Sais {
  import opened Counting
  import opened Suffixes
  import opened InducedSort
  import opened LmsNames
  import opened Sequences

  /** `sa` is the permutation of positions sorted by suffix. */
  ghost predicate IsSuffixArray(t: seq<nat>, sa: seq<nat>) {
    && |sa| == |t|
    && (forall p :: 0 <= p < |sa| ==> sa[p] < |t|)
    && (forall p, q :: 0 <= p < q < |sa| ==> sa[p] != sa[q] && LexLe(t[sa[p]..], t[sa[q]..]))
  }

  ghost predicate Types(t: seq<nat>, isS: seq<bool>) {
    |isS| == |t| && forall i :: 0 <= i < |t| ==> isS[i] == SType(t, i)
  }

  method Classify(text: seq<nat>) returns (isS: array<bool>)
    requires |text| >= 1
    ensures fresh(isS) && Types(text, isS[..])
  {
    var n := |text|;
    isS := new bool[n](_ => false);
    isS[n - 1] := true;
    var i := n - 1;
    while i > 0
      invariant 0 <= i <= n - 1
      invariant forall m :: i <= m < n ==> isS[m] == SType(text, m)
    {
      i := i - 1;
      isS[i] := text[i] < text[i + 1] || (text[i] == text[i + 1] && isS[i + 1]);
    }
  }

  // ------------------------------------------------------------ buckets

  ghost function Among(t: seq<nat>, n: nat, c: nat): set<nat> {
    set i: nat | i < n && i < |t| && t[i] == c
  }

  lemma AmongNext(t: seq<nat>, n: nat, c: nat)
    requires n < |t|
    ensures |Among(t, n + 1, c)| == |Among(t, n, c)| + if t[n] == c then 1 else 0
  {
    assert Among(t, n + 1, c) == Among(t, n, c) + if t[n] == c then {n} else {};
  }

  lemma AmongStart(t: seq<nat>, c: nat)
    ensures Start(t, c + 1) == Start(t, c) + |Among(t, |t|, c)|
  {
    assert Below(t, c + 1) == Below(t, c) + Among(t, |t|, c);
  }

  method CountSymbols(text: seq<nat>, k: nat) returns (sizes: array<nat>)
    requires Symbols(text, k)
    ensures fresh(sizes) && sizes.Length == k
    ensures forall c :: 0 <= c < k ==> sizes[c] == |Among(text, |text|, c)|
  {
    hide Among;
    sizes := new nat[k](_ => 0);
    forall c | 0 <= c < k ensures |Among(text, 0, c)| == 0 {
      NoneAmong(text, c);
    }
    for n := 0 to |text|
      invariant forall c :: 0 <= c < k ==> sizes[c] == |Among(text, n, c)|
    {
      forall c | 0 <= c < k ensures |Among(text, n + 1, c)| == |Among(text, n, c)| + if text[n] == c then 1 else 0 {
        AmongNext(text, n, c);
      }
      sizes[text[n]] := sizes[text[n]] + 1;
    }
  }

  lemma NoneAmong(t: seq<nat>, c: nat)
    ensures |Among(t, 0, c)| == 0
  {
    assert Among(t, 0, c) == {};
  }

  /** Bucket starts, or one past bucket ends. */
  method GetBuckets(ghost text: seq<nat>, sizes: array<nat>, end: bool) returns (b: array<nat>)
    requires forall c :: 0 <= c < sizes.Length ==> sizes[c] == |Among(text, |text|, c)|
    ensures fresh(b) && b.Length == sizes.Length
    ensures forall c :: 0 <= c < b.Length ==> b[c] == Start(text, if end then c + 1 else c)
  {
    hide Among, Start;
    b := new nat[sizes.Length](_ => 0);
    var sum := 0;
    StartOfZero(text);
    for i := 0 to sizes.Length
      invariant sum == Start(text, i)
      invariant forall c :: 0 <= c < i ==> b[c] == Start(text, if end then c + 1 else c)
    {
      AmongStart(text, i);
      if end {
        sum := sum + sizes[i];
        b[i] := sum;
      } else {
        b[i] := sum;
        sum := sum + sizes[i];
      }
    }
  }

  lemma StartOfZero(t: seq<nat>)
    ensures Start(t, 0) == 0
  {
    assert Below(t, 0) == {};
  }

  // ------------------------------------------------------------ seeding

  /** What the left-to-right pass needs of the seeded array. */
  ghost predicate Seeded(t: seq<nat>, e: seq<nat>, sa: seq<nat>)
    requires Windows(t, e)
  {
    && AtHome(t, sa) && Distinct(sa) && Sorted(t, e, sa) && LmsPresent(t, sa)
    && (forall p :: 0 <= p < |sa| && sa[p] != EMPTY ==> SType(t, sa[p]))
    && |sa| > 0 && sa[0] == |t| - 1
  }

  lemma SeededStart(t: seq<nat>, e: seq<nat>, sa: seq<nat>, heads: seq<nat>)
    requires LWindows(t, e) && Seeded(t, e, sa) && Symbols(t, |heads|)
    requires forall c :: 0 <= c < |heads| ==> heads[c] == Start(t, c)
    ensures LInv(t, e, sa, heads, 0)
  {
    hide Start, SStart, KeyLe, Home, SType;
    forall c | 0 <= c < |heads| ensures Start(t, c) <= SStart(t, c) <= |t| {
      BucketSizes(t, c);
      StartMonotone(t, c + 1, |heads|);
      StartEnd(t, |heads|);
    }
  }

  /** The order in which LMS positions may be seeded: each once, and later ones
      smaller within a bucket. */
  ghost predicate SeedOrder(t: seq<nat>, e: seq<nat>, ps: seq<nat>)
    requires Windows(t, e)
  {
    && (forall k :: 0 <= k < |ps| ==> Lms(t, ps[k]))
    && (forall k, l :: 0 <= k < l < |ps| ==> ps[k] != ps[l] && (t[ps[k]] == t[ps[l]] ==> KeyLe(t, e, ps[l], ps[k])))
  }

  ghost predicate SeedInv(t: seq<nat>, e: seq<nat>, sa: seq<nat>, tails: seq<nat>, ps: seq<nat>)
    requires Windows(t, e)
  {
    && AtHome(t, sa) && Symbols(t, |tails|) && Distinct(sa) && Sorted(t, e, sa) && TailsOk(t, sa, tails)
    && (forall p :: 0 <= p < |sa| && sa[p] != EMPTY ==> SType(t, sa[p]) && tails[t[sa[p]]] <= p && sa[p] in ps)
    && (forall v :: v in ps ==> Has(sa, v, |sa|))
  }

  /** Seeding the next position keeps the invariant; its slot is free. */
  lemma SeedStep(t: seq<nat>, e: seq<nat>, sa: seq<nat>, tails: seq<nat>, ps: seq<nat>, k: nat)
    requires Windows(t, e) && |t| < EMPTY && k < |ps| && SeedOrder(t, e, ps) && SeedInv(t, e, sa, tails, ps[..k])
    ensures var j := ps[k];
            j < |t| && t[j] < |tails| && 0 < tails[t[j]] <= |sa|
            && SeedInv(t, e, sa[tails[t[j]] - 1 := j], tails[t[j] := tails[t[j]] - 1], ps[..k + 1])
  {
    hide Start, SStart, KeyLe, Home, SType, Lms, Sorted, TailsOk;
    var j := ps[k];
    SeedSlot(t, e, sa, tails, ps, k);
    var p := tails[t[j]] - 1;
    var sa', tails' := sa[p := j], tails[t[j] := p];
    SeedTails(t, sa, tails, j, p, sa', tails');
    SeedSorted(t, e, sa, tails, ps, k);
    assert ps[..k + 1] == ps[..k] + [j];
    forall v | v in ps[..k + 1] ensures Has(sa', v, |sa'|) {
      if v != j {
        var l :| 0 <= l < k && ps[l] == v;
        LmsInText(t, v);
        var q :| 0 <= q < |sa| && sa[q] == v;
        assert sa'[q] == v;
      } else {
        assert sa'[p] == v;
      }
    }
  }

  /** The slot seeding uses is inside the bucket's S part, and free. */
  lemma SeedSlot(t: seq<nat>, e: seq<nat>, sa: seq<nat>, tails: seq<nat>, ps: seq<nat>, k: nat)
    requires Windows(t, e) && |t| < EMPTY && k < |ps| && SeedOrder(t, e, ps) && SeedInv(t, e, sa, tails, ps[..k])
    ensures var j := ps[k];
            && j < |t| && SType(t, j) && t[j] < |tails| && j !in ps[..k]
            && SStart(t, t[j]) < tails[t[j]] <= Start(t, t[j] + 1) <= |sa|
            && sa[tails[t[j]] - 1] == EMPTY && Home(t, tails[t[j]] - 1, j)
  {
    hide Start, SStart, KeyLe, Sorted;
    var j := ps[k];
    var c := t[j];
    STailsBelow(t, sa, tails, c);
    assert FDistinct(t, sa, tails);
    assert !FHas(t, sa, tails, j, 0);
    SRoom(t, sa, tails, j);
    var p := tails[c] - 1;
    if sa[p] != EMPTY {
      SSlot(t, sa, p, c);
    }
  }

  lemma SeedTails(t: seq<nat>, sa: seq<nat>, tails: seq<nat>, j: nat, p: nat, sa': seq<nat>, tails': seq<nat>)
    requires |sa| == |t| < EMPTY && Symbols(t, |tails|) && TailsOk(t, sa, tails)
    requires j < |t| && tails[t[j]] == p + 1 && SStart(t, t[j]) <= p && p < |sa|
    requires sa' == sa[p := j] && tails' == tails[t[j] := p]
    ensures TailsOk(t, sa', tails')
  {
    hide Start, SStart, FilledIn;
    forall c | 0 <= c < |tails'| ensures SStart(t, c) <= tails'[c] <= Start(t, c + 1) <= |t| {
      STailsBelow(t, sa, tails, c);
    }
    forall c | 0 <= c < |tails'| ensures FilledIn(sa', tails'[c], Start(t, c + 1)) {
      assert FilledIn(sa, tails[c], Start(t, c + 1));
      FilledSet(sa, p, j, tails[c], Start(t, c + 1));
    }
  }

  lemma FilledSet(sa: seq<nat>, p: nat, j: nat, lo: nat, hi: nat)
    requires p < |sa| && j != EMPTY && hi <= |sa| && FilledIn(sa, lo, hi)
    ensures FilledIn(sa[p := j], lo, hi)
    ensures lo == p + 1 ==> FilledIn(sa[p := j], p, hi)
  {
  }

  lemma SeedSorted(t: seq<nat>, e: seq<nat>, sa: seq<nat>, tails: seq<nat>, ps: seq<nat>, k: nat)
    requires Windows(t, e) && |t| < EMPTY && k < |ps| && SeedOrder(t, e, ps) && SeedInv(t, e, sa, tails, ps[..k])
    ensures var j := ps[k];
            && j < |t| && t[j] < |tails| && 0 < tails[t[j]] <= |sa|
            && AtHome(t, sa[tails[t[j]] - 1 := j]) && Sorted(t, e, sa[tails[t[j]] - 1 := j])
            && Distinct(sa[tails[t[j]] - 1 := j])
  {
    hide Start, SStart, KeyLe, Home, SType, TailsOk;
    SeedSlot(t, e, sa, tails, ps, k);
    var j := ps[k];
    var p := tails[t[j]] - 1;
    forall q | 0 <= q < |sa| && sa[q] != EMPTY
      ensures q < p ==> KeyLe(t, e, sa[q], j)
      ensures p < q ==> KeyLe(t, e, j, sa[q])
    {
      var x := sa[q];
      var l :| 0 <= l < k && ps[l] == x;
      if q < p {
        HomesOrdered(t, q, x, p, j);
        KeyLeBySymbol(t, e, x, j);
      } else if p < q {
        HomesOrdered(t, p, j, q, x);
        if t[x] != t[j] {
          KeyLeBySymbol(t, e, j, x);
        }
      }
    }
  }

  /** Place LMS positions at their bucket tails, in the order given. */
  method SeedLms(text: seq<nat>, sizes: array<nat>, sa: array<nat>, ps: seq<nat>, ghost e: seq<nat>)
    requires Terminated(text) && 2 <= |text| < EMPTY && Windows(text, e) && Symbols(text, sizes.Length)
    requires forall c :: 0 <= c < sizes.Length ==> sizes[c] == |Among(text, |text|, c)|
    requires SeedOrder(text, e, ps) && forall v :: 0 <= v < |text| && Lms(text, v) ==> v in ps
    requires sa.Length == |text| && forall p :: 0 <= p < sa.Length ==> sa[p] == EMPTY
    requires sa != sizes
    modifies sa
    ensures Seeded(text, e, sa[..])
  {
    hide Among, Start, SStart, KeyLe, Home, SType, Lms;
    var tails := GetBuckets(text, sizes, true);
    LToSTails(text, sa[..], tails[..]);
    for k := 0 to |ps|
      invariant SeedInv(text, e, sa[..], tails[..], ps[..k])
    {
      SeedStep(text, e, sa[..], tails[..], ps, k);
      var c := text[ps[k]];
      ghost var was, wasTails := sa[..], tails[..];
      tails[c] := tails[c] - 1;
      sa[tails[c]] := ps[k];
      assert tails[..] == wasTails[c := tails[c]];
      assert sa[..] == was[tails[c] := ps[k]];
    }
    assert ps[..|ps|] == ps;
    LastIsLms(text);
    SentinelFirst(text, sa[..]);
  }

  /** The sentinel's bucket is slot 0. */
  lemma SentinelFirst(t: seq<nat>, sa: seq<nat>)
    requires Terminated(t) && |t| < EMPTY && AtHome(t, sa) && Has(sa, |t| - 1, |sa|)
    ensures |sa| > 0 && sa[0] == |t| - 1
  {
    var n := |t| - 1;
    var p :| 0 <= p < |sa| && sa[p] == n;
    assert Below(t, t[n]) == {};
    assert Below(t, t[n] + 1) == {n};
  }

  // ------------------------------------------------------------ inducing

  /** Both induction passes: from seeds sorted under `e1` to all positions sorted under `e2`. */
  method Induce(text: seq<nat>, isS: array<bool>, sizes: array<nat>, sa: array<nat>, ghost e1: seq<nat>, ghost e2: seq<nat>)
    requires LWindows(text, e1) && SWindows(text, e2) && Symbols(text, sizes.Length)
    requires forall j :: 0 <= j < |text| && LType(text, j) ==> e1[j] == e2[j]
    requires e1[|text| - 1] == e2[|text| - 1]
    requires Types(text, isS[..])
    requires forall c :: 0 <= c < sizes.Length ==> sizes[c] == |Among(text, |text|, c)|
    requires sa.Length == |text| && sa != sizes && Seeded(text, e1, sa[..])
    modifies sa
    ensures SortedBy(text, e2, sa[..])
  {
    hide Among, Start, SStart, KeyLe, Home, SType, LInv, SInv, Seeded, SortedBy, Sorted, Distinct;
    var n := |text|;
    var heads := GetBuckets(text, sizes, false);
    SeededStart(text, e1, sa[..], heads[..]);
    SeededFacts(text, e1, sa[..]);
    for i := 0 to n
      invariant LInv(text, e1, sa[..], heads[..], i) && sa[0] == n - 1
    {
      LInvFacts(text, e1, sa[..], heads[..], i);
      if sa[i] == EMPTY || sa[i] == 0 || isS[sa[i] - 1] {
        LSkip(text, e1, sa[..], heads[..], i);
      } else {
        var j := sa[i] - 1;
        var c := text[j];
        LTarget(text, e1, sa[..], heads[..], i);
        LPlace(text, e1, sa[..], heads[..], i);
        ghost var was, wasHeads := sa[..], heads[..];
        sa[heads[c]] := j;
        assert sa[..] == was[heads[c] := j];
        heads[c] := heads[c] + 1;
        assert heads[..] == wasHeads[c := heads[c]];
      }
    }
    var tails := GetBuckets(text, sizes, true);
    LToS(text, e1, e2, sa[..], heads[..], tails[..]);
    var i := n;
    while i > 0
      invariant 0 <= i <= n && SInv(text, e2, sa[..], tails[..], i)
    {
      SInvFacts(text, e2, sa[..], tails[..], i);
      if sa[i - 1] == EMPTY || sa[i - 1] == 0 || !isS[sa[i - 1] - 1] {
        SSkip(text, e2, sa[..], tails[..], i);
      } else {
        var j := sa[i - 1] - 1;
        var c := text[j];
        STakesHere(text, e2, sa[..], tails[..], i, j);
        SPlace(text, e2, sa[..], tails[..], i, j, tails[c] - 1);
        ghost var was, wasTails := sa[..], tails[..];
        tails[c] := tails[c] - 1;
        sa[tails[c]] := j;
        assert tails[..] == wasTails[c := tails[c]];
        assert sa[..] == was[tails[c] := j];
      }
      i := i - 1;
    }
    SDone(text, e2, sa[..], tails[..]);
  }

  lemma SeededFacts(t: seq<nat>, e: seq<nat>, sa: seq<nat>)
    requires Windows(t, e) && Seeded(t, e, sa)
    ensures |sa| > 0 && sa[0] == |t| - 1
  {
  }

  lemma LInvFacts(t: seq<nat>, e: seq<nat>, sa: seq<nat>, heads: seq<nat>, i: nat)
    requires Windows(t, e) && LInv(t, e, sa, heads, i)
    ensures AtHome(t, sa) && Symbols(t, |heads|)
  {
  }

  lemma SInvFacts(t: seq<nat>, e: seq<nat>, sa: seq<nat>, tails: seq<nat>, i: nat)
    requires Windows(t, e) && |t| >= 1 && SInv(t, e, sa, tails, i)
    ensures AtHome(t, sa) && Symbols(t, |tails|)
  {
  }

  lemma STakesHere(t: seq<nat>, e: seq<nat>, sa: seq<nat>, tails: seq<nat>, i: nat, j: nat)
    requires SWindows(t, e) && SInv(t, e, sa, tails, i) && 0 < i
    requires sa[i - 1] == j + 1 != EMPTY && j < |t| && SType(t, j)
    ensures t[j] < |tails| && tails[t[j]] > 0 && STakes(t, sa, tails, i, j, tails[t[j]] - 1)
  {
    hide KeyLe, Start, SStart, SType, FSorted, SComplete, FDistinct, Passed;
    SNext(t, e, sa, tails, i);
    assert j < |t| - 1;
    SUnplaced(t, e, sa, tails, i, j);
    SRoom(t, sa, tails, j);
  }

  // ------------------------------------------------------------ naming

  /** Compare two LMS substrings symbol by symbol, types included. */
  method SameSubstring(text: seq<nat>, isS: array<bool>, a: nat, b: nat) returns (same: bool)
    requires Terminated(text) && Types(text, isS[..])
    requires a != b && Lms(text, a) && Lms(text, b) && SubLe(text, a, b)
    ensures same <==> SubLe(text, b, a)
  {
    hide SType, SubLe, NextLms;
    var n := |text|;
    ghost var enc := Enc(text);
    var k := 0;
    while true
      invariant a + k < n && b + k < n && Agree(enc, a, b, k)
      invariant forall m :: a < m < a + k ==> !Lms(text, m)
      invariant forall m :: b < m < b + k ==> !Lms(text, m)
      decreases n - k
    {
      if text[a + k] != text[b + k] || isS[a + k] != isS[b + k] {
        SubDiffer(text, a, b, k);
        return false;
      }
      AgreeSnoc(enc, a, b, k);
      var lmsA := a + k > 0 && isS[a + k] && !isS[a + k - 1];
      var lmsB := b + k > 0 && isS[b + k] && !isS[b + k - 1];
      if k > 0 && (lmsA || lmsB) {
        SubSame(text, a, b, k);
        return true;
      }
      NotAtEnd(text, a, b, k);
      k := k + 1;
    }
  }

  lemma NotAtEnd(t: seq<nat>, a: nat, b: nat, k: nat)
    requires Terminated(t) && a != b && Lms(t, a) && Lms(t, b)
    requires a + k < |t| && b + k < |t| && Enc(t)[a + k] == Enc(t)[b + k]
    ensures a + k + 1 < |t| && b + k + 1 < |t|
  {
    SameSymbol(t, a + k, b + k);
  }

  lemma SubDiffer(t: seq<nat>, a: nat, b: nat, k: nat)
    requires Terminated(t) && Lms(t, a) && Lms(t, b) && SubLe(t, a, b)
    requires a + k < |t| && b + k < |t| && Agree(Enc(t), a, b, k) && Enc(t)[a + k] != Enc(t)[b + k]
    requires forall m :: a < m < a + k ==> !Lms(t, m)
    requires forall m :: b < m < b + k ==> !Lms(t, m)
    ensures !SubLe(t, b, a)
  {
    hide SType;
    if SubLe(t, b, a) {
      WindowReaches(t, a, k);
      EqualNames(t, a, b);
      if a < |t| - 1 && NextLms(t, a) - a > k {
        AgreeAt(Enc(t), a, b, NextLms(t, a) - a, k);
      } else {
        EqualEnds(t, a, b);
      }
    }
  }

  /** Equal LMS substrings also agree on the symbol at their end. */
  lemma EqualEnds(t: seq<nat>, a: nat, b: nat)
    requires Terminated(t) && Lms(t, a) && Lms(t, b) && SubLe(t, a, b) && SubLe(t, b, a)
    ensures var d := SubEnds(t)[a] - 1 - a; b + d < |t| && Enc(t)[a + d] == Enc(t)[b + d]
  {
    hide SType, NextLms;
    var ex, ey := SubEnds(t)[a], SubEnds(t)[b];
    WinAntisymmetric(Enc(t), a, ex, b, ey);
    AgreeAt(Enc(t), a, b, ex - a, ex - a - 1);
  }

  lemma WindowReaches(t: seq<nat>, a: nat, k: nat)
    requires Terminated(t) && a + k < |t| && forall m :: a < m < a + k ==> !Lms(t, m)
    ensures a + k < SubEnds(t)[a]
  {
    hide SType;
    if a + 1 < |t| {
      NextLmsFound(t, a);
    }
  }

  lemma SubSame(t: seq<nat>, a: nat, b: nat, k: nat)
    requires Terminated(t) && Lms(t, a) && Lms(t, b) && 0 < k
    requires a + k < |t| && b + k < |t| && Agree(Enc(t), a, b, k + 1)
    requires forall m :: a < m < a + k ==> !Lms(t, m)
    requires forall m :: b < m < b + k ==> !Lms(t, m)
    requires Lms(t, a + k) || Lms(t, b + k)
    ensures SubLe(t, b, a)
  {
    hide SType, NextLms;
    AgreeAt(Enc(t), a, b, k + 1, k);
    AgreeAt(Enc(t), a, b, k + 1, k - 1);
    SameSymbol(t, a + k, b + k);
    SameSymbol(t, a + k - 1, b + k - 1);
    assert Lms(t, a + k) && Lms(t, b + k);
    NextLmsIsNext(t, a, a + k);
    NextLmsIsNext(t, b, b + k);
    WinOfEqual(Enc(t), b, b + k + 1, a, a + k + 1);
  }

  /** Names given so far to the LMS positions in `seen`; `prev` is the last of them. */
  ghost predicate Named(t: seq<nat>, names: seq<nat>, seen: set<nat>, count: nat, prev: nat) {
    && |names| == |t|
    && (forall u :: u in seen ==> Lms(t, u) && names[u] < count)
    && (forall u, v :: u in seen && v in seen ==> (names[u] <= names[v] <==> SubLe(t, u, v)))
    && (seen != {} ==> prev in seen && names[prev] == count - 1 && forall u :: u in seen ==> SubLe(t, u, prev))
    && (seen == {} ==> count == 0)
    && count <= |seen|
    && (count == |seen| ==> forall u, v :: u in seen && v in seen && u != v ==> names[u] != names[v])
  }

  lemma SubTransitive(t: seq<nat>, x: nat, y: nat, z: nat)
    requires x < |t| && y < |t| && z < |t| && SubLe(t, x, y) && SubLe(t, y, z)
    ensures SubLe(t, x, z)
  {
    var e := SubEnds(t);
    WinTransitive(Enc(t), x, e[x], y, e[y], z, e[z]);
  }

  lemma NameStep(t: seq<nat>, names: seq<nat>, seen: set<nat>, count: nat, prev: nat, cur: nat, diff: bool)
    requires Named(t, names, seen, count, prev) && Lms(t, cur) && cur !in seen
    requires forall u :: u in seen ==> SubLe(t, u, cur)
    requires SubLe(t, cur, cur)
    requires diff <==> seen == {} || !SubLe(t, cur, prev)
    ensures var count' := if diff then count + 1 else count;
            count' > 0 && Named(t, names[cur := count' - 1], seen + {cur}, count', cur)
  {
    hide SubLe, Lms;
    assert forall u :: u in seen ==> u < |t| by {
      forall u | u in seen ensures u < |t| {
        LmsInText(t, u);
      }
    }
    LmsInText(t, cur);
    var count' := if diff then count + 1 else count;
    var names' := names[cur := count' - 1];
    forall u | u in seen ensures names'[cur] <= names'[u] <==> SubLe(t, cur, u) {
      if SubLe(t, cur, u) {
        SubTransitive(t, cur, u, prev);
        SubTransitive(t, prev, cur, u);
      }
      if SubLe(t, prev, u) && !diff {
        SubTransitive(t, cur, prev, u);
      }
    }
    assert |seen + {cur}| == |seen| + 1;
  }

  lemma LmsInText(t: seq<nat>, u: nat)
    requires Lms(t, u)
    ensures u < |t|
  {
  }

  ghost function LmsSeen(t: seq<nat>, sa: seq<nat>, i: nat): set<nat>
    requires i <= |sa|
    decreases i
  {
    if i == 0 then {}
    else LmsSeen(t, sa, i - 1) + if Lms(t, sa[i - 1]) then {sa[i - 1]} else {}
  }

  lemma {:induction false} LmsSeenIs(t: seq<nat>, sa: seq<nat>, i: nat)
    requires i <= |sa|
    ensures forall u :: u in LmsSeen(t, sa, i) <==> u in sa[..i] && Lms(t, u)
    decreases i
  {
    if i > 0 {
      LmsSeenIs(t, sa, i - 1);
      assert sa[..i] == sa[..i - 1] + [sa[i - 1]];
    }
  }

  /** Names of the LMS substrings, in the order of the sorted positions. */
  method NameLms(text: seq<nat>, isS: array<bool>, sa: array<nat>) returns (names: array<nat>, count: nat, ghost last: nat)
    requires Terminated(text) && 2 <= |text| && Types(text, isS[..]) && SortedBy(text, SubEnds(text), sa[..])
    ensures fresh(names) && Named(text, names[..], LmsSeen(text, sa[..], |text|), count, last)
  {
    hide SType, SubLe, NextLms, Named, LmsSeen, KeyLe;
    var n := |text|;
    names := new nat[n](_ => EMPTY);
    count := 0;
    var prev := n;
    NamedStart(text, names[..], sa[..], prev);
    for i := 0 to n
      invariant Named(text, names[..], LmsSeen(text, sa[..], i), count, prev)
      invariant prev == n <==> LmsSeen(text, sa[..], i) == {}
    {
      var cur := sa[i];
      SeenStep(text, sa[..], i, prev);
      if cur > 0 && isS[cur] && !isS[cur - 1] {
        assert Lms(text, cur);
        NamedPrev(text, names[..], LmsSeen(text, sa[..], i), count, prev);
        var diff := prev == n;
        if !diff {
          var same := SameSubstring(text, isS, prev, cur);
          diff := !same;
        }
        NameStep(text, names[..], LmsSeen(text, sa[..], i), count, prev, cur, diff);
        if diff {
          count := count + 1;
        }
        ghost var was := names[..];
        var name: nat := count - 1;
        names[cur] := name;
        assert names[..] == was[cur := name];
        prev := cur;
      }
    }
    last := prev;
  }

  lemma NamedStart(t: seq<nat>, names: seq<nat>, sa: seq<nat>, prev: nat)
    requires |names| == |t|
    ensures LmsSeen(t, sa, 0) == {} && Named(t, names, LmsSeen(t, sa, 0), 0, prev)
  {
  }

  lemma NamedPrev(t: seq<nat>, names: seq<nat>, seen: set<nat>, count: nat, prev: nat)
    requires Named(t, names, seen, count, prev)
    ensures seen != {} ==> prev in seen && Lms(t, prev)
  {
  }

  lemma SeenStep(t: seq<nat>, sa: seq<nat>, i: nat, prev: nat)
    requires Terminated(t) && SortedBy(t, SubEnds(t), sa) && i < |sa|
    ensures LmsSeen(t, sa, i + 1) == LmsSeen(t, sa, i) + if Lms(t, sa[i]) then {sa[i]} else {}
    ensures sa[i] !in LmsSeen(t, sa, i)
    ensures forall u :: u in LmsSeen(t, sa, i) ==> u < |t| && SubLe(t, u, sa[i])
    ensures SubLe(t, sa[i], sa[i])
  {
    hide SType, NextLms;
    LmsSeenIs(t, sa, i);
    forall u | u in LmsSeen(t, sa, i) ensures u < |t| && SubLe(t, u, sa[i]) {
      var p :| 0 <= p < i && sa[p] == u;
    }
    var e := SubEnds(t);
    WinTotal(Enc(t), sa[i], e[sa[i]], sa[i], e[sa[i]]);
  }

  // ------------------------------------------------------------ the reduced text

  method LmsPositions(text: seq<nat>, isS: array<bool>) returns (lms: seq<nat>)
    requires |text| >= 1 && Types(text, isS[..])
    ensures LmsList(text, lms)
  {
    hide SType;
    lms := [];
    for i := 0 to |text|
      invariant forall a :: 0 <= a < |lms| ==> lms[a] < i && Lms(text, lms[a])
      invariant forall a, b :: 0 <= a < b < |lms| ==> lms[a] < lms[b]
      invariant forall v :: 0 <= v < i && Lms(text, v) ==> v in lms
    {
      if i > 0 && isS[i] && !isS[i - 1] {
        lms := lms + [i];
      }
    }
  }

  /** In text order every LMS position may be seeded: its window is one symbol. */
  lemma FirstSeedOrder(t: seq<nat>, lms: seq<nat>)
    requires Terminated(t) && |t| >= 2 && LmsList(t, lms)
    ensures SeedOrder(t, SeedEnds(t), Reversed(lms))
    ensures forall v :: 0 <= v < |t| && Lms(t, v) ==> v in Reversed(lms)
  {
    hide NextLms, SType, Lms, KeyLe, SeedEnds;
    var ps := Reversed(lms);
    LmsFacts(t, lms);
    forall k, l | 0 <= k < l < |ps| && t[ps[k]] == t[ps[l]] ensures KeyLe(t, SeedEnds(t), ps[l], ps[k]) {
      SeedsEqual(t, ps[l], ps[k]);
    }
    InReversed(t, lms);
  }

  lemma SeedsEqual(t: seq<nat>, x: nat, y: nat)
    requires Terminated(t) && Lms(t, x) && Lms(t, y) && t[x] == t[y]
    ensures KeyLe(t, SeedEnds(t), x, y)
  {
    hide NextLms, SubEnds;
    var e := SeedEnds(t);
    assert e[x] == x + 1 && e[y] == y + 1;
    assert Enc(t)[x] == Enc(t)[y];
    assert WinLe(Enc(t), x + 1, e[x], y + 1, e[y]);
  }

  lemma InReversed(t: seq<nat>, lms: seq<nat>)
    requires LmsList(t, lms)
    ensures forall v :: 0 <= v < |t| && Lms(t, v) ==> v in Reversed(lms)
  {
    forall v | 0 <= v < |t| && Lms(t, v) ensures v in Reversed(lms) {
      var k :| 0 <= k < |lms| && lms[k] == v;
      assert Reversed(lms)[|lms| - 1 - k] == v;
    }
  }

  function Mapped(m: seq<nat>, s: seq<nat>): (r: seq<nat>)
    requires forall k :: 0 <= k < |s| ==> s[k] < |m|
    ensures |r| == |s| && forall k :: 0 <= k < |s| ==> r[k] == m[s[k]]
  {
    seq(|s|, k requires 0 <= k < |s| => m[s[k]])
  }

  /** The sorted reduced suffixes give a seeding order for whole suffixes. */
  lemma FinalSeedOrder(t: seq<nat>, lms: seq<nat>, r: seq<nat>, rsa: seq<nat>)
    requires Terminated(t) && |t| >= 2 && LmsList(t, lms) && NamesOrder(t, lms, r) && IsSuffixArray(r, rsa)
    ensures SeedOrder(t, WholeEnds(t), Reversed(Mapped(lms, rsa)))
    ensures forall v :: 0 <= v < |t| && Lms(t, v) ==> v in Reversed(Mapped(lms, rsa))
  {
    hide SType, Lms, SubLe, NextLms, LexLe, KeyLe, WholeEnds, NamesOrder;
    NamesLength(t, lms, r);
    var ms := Mapped(lms, rsa);
    var ps := Reversed(ms);
    forall k | 0 <= k < |ps| ensures Lms(t, ps[k]) {
      assert ps[k] == lms[rsa[|ms| - 1 - k]];
    }
    forall k, l | 0 <= k < l < |ps| ensures ps[k] != ps[l] && ps[k] < |t| && ps[l] < |t| && KeyLe(t, WholeEnds(t), ps[l], ps[k]) {
      var a, b := rsa[|ms| - 1 - l], rsa[|ms| - 1 - k];
      assert ps[l] == lms[a] && ps[k] == lms[b] && a != b;
      LmsFacts(t, lms);
      SortedPair(t, lms, r, a, b);
    }
    SortedOnto(t, lms, rsa);
  }

  lemma NamesLength(t: seq<nat>, lms: seq<nat>, r: seq<nat>)
    requires LmsList(t, lms) && NamesOrder(t, lms, r)
    ensures |r| == |lms|
  {
  }

  lemma SortedPair(t: seq<nat>, lms: seq<nat>, r: seq<nat>, a: nat, b: nat)
    requires Terminated(t) && |t| >= 2 && LmsList(t, lms) && NamesOrder(t, lms, r)
    requires a < |r| && b < |r| && lms[a] < |t| && lms[b] < |t| && LexLe(r[a..], r[b..])
    ensures KeyLe(t, WholeEnds(t), lms[a], lms[b])
  {
    hide SType, SubLe, NextLms, NamesOrder, LmsList;
    NamesLength(t, lms, r);
    WinIsLex(r, a, |r|, b, |r|);
    assert r[a..|r|] == r[a..] && r[b..|r|] == r[b..];
    ReducedOrder(t, lms, r, a, b);
    var e := WholeEnds(t);
    assert e[lms[a]] == |t| && e[lms[b]] == |t|;
  }

  lemma SortedOnto(t: seq<nat>, lms: seq<nat>, rsa: seq<nat>)
    requires LmsList(t, lms) && |rsa| == |lms|
    requires forall p :: 0 <= p < |rsa| ==> rsa[p] < |rsa|
    requires forall p, q :: 0 <= p < q < |rsa| ==> rsa[p] != rsa[q]
    ensures forall v :: 0 <= v < |t| && Lms(t, v) ==> v in Reversed(Mapped(lms, rsa))
  {
    hide Lms;
    var ms := Mapped(lms, rsa);
    Onto(rsa);
    forall v | 0 <= v < |t| && Lms(t, v) ensures v in Reversed(ms) {
      var k :| 0 <= k < |lms| && lms[k] == v;
      assert k in rsa;
      var q :| 0 <= q < |rsa| && rsa[q] == k;
      assert Reversed(ms)[|ms| - 1 - q] == v;
    }
  }

  /** What naming leaves for the reduced text. */
  lemma ReducedText(t: seq<nat>, lms: seq<nat>, names: seq<nat>, sa: seq<nat>, count: nat, last: nat, r: seq<nat>)
    requires Terminated(t) && |t| >= 2 && LmsList(t, lms) && SortedBy(t, SubEnds(t), sa)
    requires Named(t, names, LmsSeen(t, sa, |t|), count, last)
    requires |r| == |lms| && forall k :: 0 <= k < |r| ==> Lms(t, lms[k]) && r[k] == names[lms[k]]
    ensures NamesOrder(t, lms, r) && Symbols(r, count) && count <= |r|
    ensures count == |r| ==> forall a, b :: 0 <= a < b < |r| ==> r[a] != r[b]
  {
    hide SType, SubLe, NextLms, KeyLe;
    var seen := LmsSeen(t, sa, |t|);
    LmsSeenIs(t, sa, |t|);
    assert sa[..|t|] == sa;
    Onto(sa);
    forall k | 0 <= k < |lms| ensures lms[k] in seen {
      LmsInText(t, lms[k]);
    }
    DistinctSize(lms);
    assert seen == Elements(lms) by {
      forall u | u in seen ensures u in Elements(lms) {
        LmsInText(t, u);
      }
    }
  }

  /** The sentinel's name is the unique smallest, so the reduced text is again terminated. */
  lemma ReducedTerminated(t: seq<nat>, lms: seq<nat>, r: seq<nat>)
    requires Terminated(t) && |t| >= 2 && LmsList(t, lms) && NamesOrder(t, lms, r)
    ensures |r| >= 1 && Terminated(r)
  {
    hide NextLms, SType, SubLe;
    LastIsLms(t);
    var k :| 0 <= k < |lms| && lms[k] == |t| - 1;
    LmsNeighbours(t, lms, 0);
    var m := |r| - 1;
    forall i | 0 <= i < m ensures r[m] < r[i] {
      assert lms[i] < lms[m];
      SentinelBelow(t, lms[i]);
    }
  }

  lemma SentinelBelow(t: seq<nat>, x: nat)
    requires Terminated(t) && x < |t| - 1
    ensures !SubLe(t, x, |t| - 1)
  {
    hide NextLms;
  }

  /** When every name is unique the suffix array can be written down. */
  method DirectOrder(r: seq<nat>) returns (rsa: array<nat>)
    requires Symbols(r, |r|) && forall a, b :: 0 <= a < b < |r| ==> r[a] != r[b]
    ensures fresh(rsa) && IsSuffixArray(r, rsa[..])
  {
    rsa := new nat[|r|](_ => 0);
    for i := 0 to |r|
      invariant forall k :: 0 <= k < i ==> rsa[r[k]] == k
    {
      rsa[r[i]] := i;
    }
    Onto(r);
    forall c | 0 <= c < |r| ensures rsa[c] < |r| && r[rsa[c]] == c {
      assert c in r;
    }
    forall p, q | 0 <= p < q < |r| ensures rsa[p] != rsa[q] && LexLe(r[rsa[p]..], r[rsa[q]..]) {
      assert r[rsa[p]] == p && r[rsa[q]] == q;
    }
  }

  /** Sorted by whole windows is sorted by suffix. */
  lemma WholeIsSuffixOrder(t: seq<nat>, sa: seq<nat>)
    requires Terminated(t) && SortedBy(t, WholeEnds(t), sa)
    ensures IsSuffixArray(t, sa)
  {
    hide SType, LexLe;
    forall p, q | 0 <= p < q < |sa| ensures LexLe(t[sa[p]..], t[sa[q]..]) {
      assert KeyLe(t, WholeEnds(t), sa[p], sa[q]);
      TypedOrder(t, sa[p], sa[q]);
      WinIsLex(t, sa[p], |t|, sa[q], |t|);
      assert t[sa[p]..|t|] == t[sa[p]..] && t[sa[q]..|t|] == t[sa[q]..];
    }
  }

  // ------------------------------------------------------------ SA-IS

  /** `sais_core`. The text must end in a unique smallest symbol; positions are `u32`. */
  method SaisCore(text: seq<nat>, k: nat) returns (sa: array<nat>)
    requires text == [] || Terminated(text)
    requires Symbols(text, k) && |text| < EMPTY
    ensures fresh(sa) && IsSuffixArray(text, sa[..])
    decreases |text|
  {
    hide Terminated, SType, Lms, LexLe, KeyLe, Among, NextLms, Seeded, SeedOrder, NamesOrder, Named, LmsSeen, IsSuffixArray, SortedBy, LWindows, SWindows, LmsList;
    var n := |text|;
    if n == 0 {
      sa := new nat[0];
      NoSuffix(text, sa[..]);
      return;
    }
    if n == 1 {
      sa := new nat[1](_ => 0);
      OneSuffix(text, sa[..]);
      return;
    }
    if n == 2 {
      sa := new nat[2];
      if text[0] < text[1] {
        EndsSmallest(text);
        assert false;
      }
      sa[0], sa[1] := 1, 0;
      TwoSuffixes(text, sa[..]);
      return;
    }
    WindowsInduce(text);
    var isS := Classify(text);
    var sizes := CountSymbols(text, k);
    var lms := LmsPositions(text, isS);

    // Sort LMS substrings: seed in text order and induce.
    var first := new nat[n](_ => EMPTY);
    FirstSeedOrder(text, lms);
    SeedLms(text, sizes, first, Reversed(lms), SeedEnds(text));
    Induce(text, isS, sizes, first, SeedEnds(text), SubEnds(text));

    // Name them, and solve the reduced text.
    var names, count, last := NameLms(text, isS, first);
    LmsFacts(text, lms);
    NamedLength(text, names[..], LmsSeen(text, first[..], n), count, last);
    var reduced := Mapped(names[..], lms);
    ReducedText(text, lms, names[..], first[..], count, last, reduced);
    ReducedTerminated(text, lms, reduced);
    HalfAsLong(text, lms);
    var rsa;
    if count < |lms| {
      rsa := SaisCore(reduced, count);
    } else {
      rsa := DirectOrder(reduced);
    }

    // Induce from the sorted LMS suffixes.
    sa := new nat[n](_ => EMPTY);
    FinalSeedOrder(text, lms, reduced, rsa[..]);
    SuffixArrayFacts(reduced, rsa[..]);
    SeedLms(text, sizes, sa, Reversed(Mapped(lms, rsa[..])), WholeEnds(text));
    Induce(text, isS, sizes, sa, WholeEnds(text), WholeEnds(text));
    WholeIsSuffixOrder(text, sa[..]);
  }

  lemma NamedLength(t: seq<nat>, names: seq<nat>, seen: set<nat>, count: nat, prev: nat)
    requires Named(t, names, seen, count, prev)
    ensures |names| == |t|
  {
  }

  lemma LmsFacts(t: seq<nat>, lms: seq<nat>)
    requires LmsList(t, lms)
    ensures forall k :: 0 <= k < |lms| ==> lms[k] < |t| && Lms(t, lms[k])
  {
  }

  lemma SuffixArrayFacts(t: seq<nat>, sa: seq<nat>)
    requires IsSuffixArray(t, sa)
    ensures |sa| == |t| && forall p :: 0 <= p < |sa| ==> sa[p] < |t|
  {
  }

  lemma EndsSmallest(t: seq<nat>)
    requires Terminated(t)
    ensures forall i :: 0 <= i < |t| - 1 ==> t[|t| - 1] < t[i]
  {
  }

  lemma NoSuffix(t: seq<nat>, sa: seq<nat>)
    requires t == [] && sa == []
    ensures IsSuffixArray(t, sa)
  {
  }

  lemma OneSuffix(t: seq<nat>, sa: seq<nat>)
    requires |t| == 1 && sa == [0]
    ensures IsSuffixArray(t, sa)
  {
  }

  lemma TwoSuffixes(t: seq<nat>, sa: seq<nat>)
    requires |t| == 2 && Terminated(t) && sa == [1, 0]
    ensures IsSuffixArray(t, sa)
  {
    assert t[1..] == [t[1]];
    assert t[0..] == t;
  }
}
