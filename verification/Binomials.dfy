/** Binomial coefficients and the ranks they give to sets of positions. */
module Binomials {
  import opened Arithmetic

  function C(n: nat, k: nat): nat
    decreases n
  {
    if k == 0 then 1 else if n == 0 then 0 else C(n - 1, k - 1) + C(n - 1, k)
  }

  lemma {:induction false} TooMany(n: nat, k: nat)
    requires k > n
    ensures C(n, k) == 0
    decreases n
  {
    if n > 0 {
      TooMany(n - 1, k - 1);
      TooMany(n - 1, k);
    }
  }

  lemma {:induction false} AllOf(n: nat)
    ensures C(n, n) == 1
  {
    if n > 0 {
      AllOf(n - 1);
      TooMany(n - 1, n);
    }
  }

  lemma {:induction false} Symmetric(n: nat, k: nat)
    requires k <= n
    ensures C(n, k) == C(n, n - k)
    decreases n
  {
    if k == 0 || k == n {
      AllOf(n);
    } else {
      Symmetric(n - 1, k - 1);
      Symmetric(n - 1, k);
    }
  }

  lemma {:induction false} Monotone(m: nat, n: nat, k: nat)
    requires m <= n
    ensures C(m, k) <= C(n, k)
    decreases n
  {
    if m < n {
      Monotone(m, n - 1, k);
    }
  }

  /** k C(n, k) = n C(n - 1, k - 1). */
  lemma {:induction false} Absorb(n: nat, k: nat)
    requires n >= 1 && k >= 1
    ensures C(n, k) * k == n * C(n - 1, k - 1)
    decreases n
  {
    hide C;
    Pascal(n, k);
    if n == 1 {
      SmallCases(k);
    } else {
      Absorb(n - 1, k);
      var a, b := C(n - 1, k - 1), C(n - 1, k);
      if k == 1 {
        ChooseNone(n - 1);
        ChooseNone(n - 2);
      } else {
        Absorb(n - 1, k - 1);
        Pascal(n - 1, k - 1);
        MulAdd(a, b, k);
        MulAdd(C(n - 2, k - 2), C(n - 2, k - 1), n - 1);
        MulAdd(n - 1, 1, a);
        MulAdd(k - 1, 1, a);
      }
    }
  }

  lemma Pascal(n: nat, k: nat)
    requires n >= 1 && k >= 1
    ensures C(n, k) == C(n - 1, k - 1) + C(n - 1, k)
  {
  }

  lemma ChooseNone(n: nat)
    ensures C(n, 0) == 1
  {
  }

  lemma SmallCases(k: nat)
    requires k >= 1
    ensures C(1, k) * k == C(0, k - 1)
  {
    assert k > 1 ==> C(1, k) == 0;
  }

  /** C(n, k) (n - k) = n C(n - 1, k). */
  lemma Shrink(n: nat, k: nat)
    requires n >= 1 && k <= n
    ensures C(n, k) * (n - k) == n * C(n - 1, k)
  {
    hide C;
    if k == 0 {
      ChooseNone(n);
      ChooseNone(n - 1);
    } else {
      Absorb(n, k);
      Pascal(n, k);
      MulSub(C(n, k), n, k);
      MulAdd(C(n - 1, k - 1), C(n - 1, k), n);
    }
  }

  lemma MulSub(c: nat, n: nat, k: nat)
    requires k <= n
    ensures c * (n - k) == c * n - c * k
  {
  }

  /** C(n, k + 1) (k + 1) = C(n, k) (n - k). */
  lemma NextChoice(n: nat, k: nat)
    requires k <= n
    ensures C(n, k + 1) * (k + 1) == C(n, k) * (n - k)
  {
    hide C;
    if n == 0 {
      TooMany(0, 1);
    } else {
      Absorb(n, k + 1);
      Shrink(n, k);
    }
  }

  // ------------------------------------------------------------ ranks

  /** Strictly increasing positions below `n`. */
  ghost predicate Positions(ones: seq<nat>, n: nat) {
    (forall i :: 0 <= i < |ones| ==> ones[i] < n) && forall i, j :: 0 <= i < j < |ones| ==> ones[i] < ones[j]
  }

  /** Sum of C(p, i) over the first k positions, the i-th position counted with i. */
  ghost function Rank(ones: seq<nat>, k: nat): nat
    requires k <= |ones|
  {
    if k == 0 then 0 else Rank(ones, k - 1) + C(ones[k - 1], k)
  }

  /** A set of k positions below n has a rank below C(n, k). */
  lemma {:induction false} RankBelow(ones: seq<nat>, k: nat, n: nat)
    requires Positions(ones, n) && k <= |ones|
    requires k > 0 ==> ones[k - 1] < n
    ensures Rank(ones, k) < C(n, k)
    decreases k
  {
    if k > 0 {
      var p := ones[k - 1];
      PrefixBelow(ones, k);
      Pascal(p + 1, k);
      Monotone(p + 1, n, k);
    }
  }

  lemma {:induction false} PrefixBelow(ones: seq<nat>, k: nat)
    requires Positions(ones, if ones == [] then 0 else ones[|ones| - 1] + 1) && 0 < k <= |ones|
    ensures Rank(ones, k - 1) < C(ones[k - 1], k - 1)
    decreases k
  {
    if k > 1 {
      var p, q := ones[k - 1], ones[k - 2];
      PrefixBelow(ones, k - 1);
      Pascal(q + 1, k - 1);
      Monotone(q + 1, p, k - 1);
    }
  }

  lemma {:induction false} RankPrefix(a: seq<nat>, b: seq<nat>, k: nat)
    requires k <= |a| && k <= |b| && forall i :: 0 <= i < k ==> a[i] == b[i]
    ensures Rank(a, k) == Rank(b, k)
  {
    if k > 0 {
      RankPrefix(a, b, k - 1);
    }
  }

  /** The rank determines the set. */
  lemma {:induction false} RankInjective(a: seq<nat>, b: seq<nat>, n: nat)
    requires Positions(a, n) && Positions(b, n) && |a| == |b| && Rank(a, |a|) == Rank(b, |b|)
    ensures a == b
    decreases |a|
  {
    hide C, Rank, Positions;
    if a != [] {
      var k := |a|;
      var p, q := a[k - 1], b[k - 1];
      if p < q {
        TopDecides(a, b, n);
      } else if q < p {
        TopDecides(b, a, n);
      }
      RankFront(a, n);
      RankFront(b, n);
      RankInjective(a[..k - 1], b[..k - 1], n);
      assert a == a[..k - 1] + [p] && b == b[..k - 1] + [q];
    }
  }

  lemma RankFront(a: seq<nat>, n: nat)
    requires a != [] && Positions(a, n)
    ensures var k := |a| - 1; Positions(a[..k], n) && Rank(a, k + 1) == Rank(a[..k], k) + C(a[k], k + 1)
  {
    hide C;
    RankPrefix(a, a[..|a| - 1], |a| - 1);
  }

  lemma TopDecides(a: seq<nat>, b: seq<nat>, n: nat)
    requires Positions(a, n) && Positions(b, n) && |a| == |b| > 0 && a[|a| - 1] < b[|b| - 1]
    ensures Rank(a, |a|) < Rank(b, |b|)
  {
    var k := |a|;
    RankBelow(a, k, a[k - 1] + 1);
    Monotone(a[k - 1] + 1, b[k - 1], k);
  }
}
