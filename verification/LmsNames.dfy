/** LMS substrings, their names, and the reduced text: sorting the suffixes of
    the reduced text sorts the LMS suffixes of the text. */
module LmsNames {
  import opened Suffixes
  import opened InducedSort

  /** First LMS position after `i`. */
  function NextLms(t: seq<nat>, i: nat): (r: nat)
    requires i + 1 < |t|
    ensures i < r < |t|
    decreases |t| - i
  {
    if Lms(t, i + 1) || i + 2 >= |t| then i + 1 else NextLms(t, i + 1)
  }

  lemma {:induction false} NextLmsIsNext(t: seq<nat>, i: nat, r: nat)
    requires Terminated(t) && i < r < |t| && Lms(t, r)
    requires forall m :: i < m < r ==> !Lms(t, m)
    ensures NextLms(t, i) == r
    decreases |t| - i
  {
    if i + 1 < r {
      NextLmsIsNext(t, i + 1, r);
    }
  }

  lemma {:induction false} NextLmsFound(t: seq<nat>, i: nat)
    requires Terminated(t) && i + 1 < |t|
    ensures Lms(t, NextLms(t, i))
    ensures forall m :: i < m < NextLms(t, i) ==> !Lms(t, m)
    decreases |t| - i
  {
    if !Lms(t, i + 1) {
      if i + 2 >= |t| {
        LastIsLms(t);
      } else {
        NextLmsFound(t, i + 1);
      }
    }
  }

  lemma LastIsLms(t: seq<nat>)
    requires Terminated(t) && |t| >= 2
    ensures Lms(t, |t| - 1) && LType(t, |t| - 2)
  {
  }

  /** Window ends: LMS substrings, seeds of one symbol, whole suffixes. */
  ghost function SubEnds(t: seq<nat>): (e: seq<nat>)
    ensures Windows(t, e)
    ensures forall i :: 0 <= i < |t| ==> e[i] == if i + 1 < |t| then NextLms(t, i) + 1 else |t|
  {
    seq(|t|, i requires 0 <= i < |t| => if i + 1 < |t| then NextLms(t, i) + 1 else |t|)
  }

  ghost function SeedEnds(t: seq<nat>): (e: seq<nat>)
    ensures Windows(t, e)
    ensures forall i :: 0 <= i < |t| ==> e[i] == if Lms(t, i) then i + 1 else SubEnds(t)[i]
  {
    seq(|t|, i requires 0 <= i < |t| => if Lms(t, i) then i + 1 else SubEnds(t)[i])
  }

  ghost function WholeEnds(t: seq<nat>): (e: seq<nat>)
    ensures Windows(t, e)
    ensures forall i :: 0 <= i < |t| ==> e[i] == |t|
  {
    seq(|t|, i requires 0 <= i < |t| => |t|)
  }

  /** Both choices of windows can be induced. */
  lemma WindowsInduce(t: seq<nat>)
    requires Terminated(t) && 2 <= |t| < EMPTY
    ensures LWindows(t, SeedEnds(t)) && SWindows(t, SubEnds(t))
    ensures LWindows(t, WholeEnds(t)) && SWindows(t, WholeEnds(t))
    ensures forall j :: 0 <= j < |t| && LType(t, j) ==> SeedEnds(t)[j] == SubEnds(t)[j]
    ensures SeedEnds(t)[|t| - 1] == SubEnds(t)[|t| - 1]
  {
    forall j | 0 <= j < |t| && LType(t, j) ensures j + 1 < |t| && SeedEnds(t)[j] == SeedEnds(t)[j + 1] {
      if !Lms(t, j + 1) {
        assert LType(t, j + 1);
      }
    }
    forall j | 0 <= j < |t| - 1 && SType(t, j) ensures SubEnds(t)[j] == SubEnds(t)[j + 1] {
      LastIsLms(t);
      assert !Lms(t, j + 1);
    }
  }

  /** `lms` lists the LMS positions in text order. */
  ghost predicate LmsList(t: seq<nat>, lms: seq<nat>) {
    && (forall a, b :: 0 <= a < b < |lms| ==> lms[a] < lms[b])
    && (forall a :: 0 <= a < |lms| ==> Lms(t, lms[a]))
    && (forall v :: 0 <= v < |t| && Lms(t, v) ==> v in lms)
  }

  /** Positions are at least two apart, so there are at most half as many. */
  lemma {:induction false} LmsApart(t: seq<nat>, lms: seq<nat>, k: nat)
    requires LmsList(t, lms) && k < |lms|
    ensures lms[k] >= 2 * k + 1
  {
    if k > 0 {
      LmsApart(t, lms, k - 1);
      assert lms[k - 1] < lms[k] && Lms(t, lms[k - 1]) && Lms(t, lms[k]);
    }
  }

  lemma HalfAsLong(t: seq<nat>, lms: seq<nat>)
    requires LmsList(t, lms)
    ensures 2 * |lms| <= |t|
  {
    if |lms| > 0 {
      LmsApart(t, lms, |lms| - 1);
      assert Lms(t, lms[|lms| - 1]);
    }
  }

  lemma LmsNeighbours(t: seq<nat>, lms: seq<nat>, a: nat)
    requires Terminated(t) && |t| >= 2 && LmsList(t, lms) && a < |lms|
    ensures lms[|lms| - 1] == |t| - 1
    ensures if a + 1 < |lms| then lms[a] + 1 < |t| && NextLms(t, lms[a]) == lms[a + 1] else lms[a] == |t| - 1
  {
    hide SType, NextLms;
    LastIsLms(t);
    var last := |lms| - 1;
    assert Lms(t, lms[last]);
    assert forall k :: 0 <= k < |lms| ==> lms[k] <= lms[last];
    if a + 1 < |lms| {
      assert Lms(t, lms[a + 1]) && lms[a] < lms[a + 1];
      assert forall b :: 0 <= b < |lms| ==> lms[b] <= lms[a] || lms[a + 1] <= lms[b];
      NextLmsIsNext(t, lms[a], lms[a + 1]);
    }
  }

  ghost predicate SubLe(t: seq<nat>, x: nat, y: nat)
    requires x < |t| && y < |t|
  {
    KeyLe(t, SubEnds(t), x, y)
  }

  /** The reduced text names LMS substrings in their order. */
  ghost predicate NamesOrder(t: seq<nat>, lms: seq<nat>, r: seq<nat>)
    requires LmsList(t, lms)
  {
    |r| == |lms| && forall a, b :: 0 <= a < |r| && 0 <= b < |r| ==> (r[a] <= r[b] <==> SubLe(t, lms[a], lms[b]))
  }

  /** One LMS substring cannot be a proper prefix of another. */
  lemma SubNotPrefix(t: seq<nat>, x: nat, y: nat)
    requires Terminated(t) && Lms(t, x) && Lms(t, y)
    requires var ex, ey := SubEnds(t)[x], SubEnds(t)[y]; ex - x <= ey - y && Agree(Enc(t), x, y, ex - x)
    ensures SubEnds(t)[x] - x == SubEnds(t)[y] - y
    ensures x == |t| - 1 <==> y == |t| - 1
  {
    hide SType, NextLms;
    var ex, ey := SubEnds(t)[x], SubEnds(t)[y];
    AgreeAt(Enc(t), x, y, ex - x, 0);
    SameSymbol(t, x, y);
    if x < |t| - 1 {
      var d := ex - 1 - x;
      NextLmsFound(t, x);
      AgreeAt(Enc(t), x, y, ex - x, d);
      AgreeAt(Enc(t), x, y, ex - x, d - 1);
      SameSymbol(t, x + d, y + d);
      SameSymbol(t, x + d - 1, y + d - 1);
      assert Lms(t, y + d);
      NextLmsFound(t, y);
    }
  }

  lemma SameSymbol(t: seq<nat>, x: nat, y: nat)
    requires Terminated(t) && x < |t| && y < |t| && Enc(t)[x] == Enc(t)[y]
    ensures t[x] == t[y] && SType(t, x) == SType(t, y)
    ensures x == |t| - 1 <==> y == |t| - 1
  {
  }

  /** LMS substrings in order, and different: the suffixes are in order. */
  lemma SubDecides(t: seq<nat>, x: nat, y: nat)
    requires Terminated(t) && Lms(t, x) && Lms(t, y) && SubLe(t, x, y) && !SubLe(t, y, x)
    ensures WinLe(Enc(t), x, |t|, y, |t|)
  {
    hide SType, NextLms;
    var ex, ey := SubEnds(t)[x], SubEnds(t)[y];
    if ex - x <= ey - y && Agree(Enc(t), x, y, ex - x) {
      SubNotPrefix(t, x, y);
      WinOfEqual(Enc(t), y, ey, x, ex);
    }
    WinExtend(Enc(t), x, ex, y, ey);
  }

  lemma {:induction false} WinOfEqual(s: seq<nat>, a: nat, ea: nat, b: nat, eb: nat)
    requires a <= ea <= |s| && b <= eb <= |s| && ea - a == eb - b && Agree(s, b, a, eb - b)
    ensures WinLe(s, a, ea, b, eb)
    decreases ea - a
  {
    if a < ea {
      WinOfEqual(s, a + 1, ea, b + 1, eb);
    }
  }

  /** The order of the reduced text's suffixes is the order of the LMS suffixes. */
  lemma {:induction false} ReducedOrder(t: seq<nat>, lms: seq<nat>, r: seq<nat>, a: nat, b: nat)
    requires Terminated(t) && |t| >= 2 && LmsList(t, lms) && NamesOrder(t, lms, r)
    requires a < |r| && b < |r| && WinLe(r, a, |r|, b, |r|)
    ensures WinLe(Enc(t), lms[a], |t|, lms[b], |t|)
    decreases |r| - a
  {
    hide SType, NextLms, Lms, SubLe;
    var x, y := lms[a], lms[b];
    assert Lms(t, x) && Lms(t, y);
    if r[a] < r[b] {
      SubDecides(t, x, y);
    } else {
      EqualNames(t, x, y);
      LmsNeighbours(t, lms, a);
      LmsNeighbours(t, lms, b);
      if x == |t| - 1 {
        WinOfEqual(Enc(t), x, |t|, y, |t|);
      } else {
        ReducedOrder(t, lms, r, a + 1, b + 1);
        WinSkip(Enc(t), x, |t|, y, |t|, lms[a + 1] - x);
      }
    }
  }

  /** Equal names: the substrings agree up to the next LMS position, equally far. */
  lemma EqualNames(t: seq<nat>, x: nat, y: nat)
    requires Terminated(t) && Lms(t, x) && Lms(t, y) && SubLe(t, x, y) && SubLe(t, y, x)
    ensures x == |t| - 1 <==> y == |t| - 1
    ensures x == |t| - 1 ==> Agree(Enc(t), y, x, 1)
    ensures x < |t| - 1 ==> NextLms(t, x) - x == NextLms(t, y) - y && Agree(Enc(t), x, y, NextLms(t, x) - x)
  {
    hide SType, NextLms;
    var ex, ey := SubEnds(t)[x], SubEnds(t)[y];
    WinAntisymmetric(Enc(t), x, ex, y, ey);
    SubNotPrefix(t, x, y);
    if x < |t| - 1 {
      AgreeShorter(Enc(t), x, y, ex - x, ex - x - 1);
    }
  }

  lemma {:induction false} AgreeShorter(s: seq<nat>, a: nat, b: nat, d: nat, k: nat)
    requires a + d <= |s| && b + d <= |s| && k <= d && Agree(s, a, b, d)
    ensures Agree(s, a, b, k)
    decreases k
  {
    if k > 0 {
      AgreeShorter(s, a + 1, b + 1, d - 1, k - 1);
    }
  }
}
