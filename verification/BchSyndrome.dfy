/** Syndrome coding with binary polynomials: the remainder that is stored, and when no two
    light patterns share one. */
module BchSyndrome {
  import opened BerlekampMassey
  import opened Enumerative

  /** A generator of degree |g| - 1. */
  predicate Monic(g: seq<bool>) {
    |g| >= 1 && g[|g| - 1]
  }

  function Degree(g: seq<bool>): nat
    requires Monic(g)
  {
    |g| - 1
  }

  function Blank(n: nat): (z: seq<bool>)
    ensures |z| == n && forall i :: 0 <= i < n ==> !z[i]
  {
    seq(n, i => false)
  }

  /** Coefficients 0..n of g times the first `k` terms of q. */
  function Multiple(g: seq<bool>, q: seq<bool>, k: nat, n: nat): (x: seq<bool>)
    requires k <= |q|
    ensures |x| == n
  {
    if k == 0 then Blank(n)
    else
      var x := Multiple(g, q, k - 1, n);
      if q[k - 1] then Xor(x, Slice(g, 1 - k, n)) else x
  }

  ghost predicate DividedBy(g: seq<bool>, x: seq<bool>)
    requires Monic(g) && Degree(g) <= |x|
  {
    exists q :: |q| == |x| - Degree(g) && Multiple(g, q, |q|, |x|) == x
  }

  /** `r` is what division of `e` by `g` leaves. */
  ghost predicate IsRemainder(g: seq<bool>, e: seq<bool>, r: seq<bool>)
    requires Monic(g) && Degree(g) <= |e|
  {
    |r| == Degree(g) && DividedBy(g, Xor(e, Padded(r, |e|)))
  }

  function Padded(r: seq<bool>, n: nat): (x: seq<bool>)
    requires |r| <= n
    ensures |x| == n && forall i :: 0 <= i < n ==> x[i] == At(r, i)
  {
    seq(n, i => At(r, i))
  }

  lemma {:induction false} MultipleUpdate(g: seq<bool>, q: seq<bool>, j: nat, k: nat, n: nat)
    requires j < k <= |q| && !q[j]
    ensures Multiple(g, q[j := true], k, n) == Xor(Multiple(g, q, k, n), Slice(g, -(j as int), n))
    decreases k
  {
    if j == k - 1 {
      MultipleSame(g, q, q[j := true], k - 1, n);
    } else {
      MultipleUpdate(g, q, j, k - 1, n);
    }
  }

  lemma {:induction false} MultipleSame(g: seq<bool>, q: seq<bool>, p: seq<bool>, k: nat, n: nat)
    requires k <= |q| == |p| && forall i :: 0 <= i < k ==> q[i] == p[i]
    ensures Multiple(g, q, k, n) == Multiple(g, p, k, n)
  {
    if k > 0 {
      MultipleSame(g, q, p, k - 1, n);
    }
  }

  lemma {:induction false} MultipleAdds(g: seq<bool>, a: seq<bool>, b: seq<bool>, k: nat, n: nat)
    requires k <= |a| == |b|
    ensures Multiple(g, Xor(a, b), k, n) == Xor(Multiple(g, a, k, n), Multiple(g, b, k, n))
  {
    if k > 0 {
      MultipleAdds(g, a, b, k - 1, n);
    }
  }

  lemma {:induction false} MultipleOfNone(g: seq<bool>, q: seq<bool>, k: nat, n: nat)
    requires k <= |q| && forall i :: 0 <= i < k ==> !q[i]
    ensures Multiple(g, q, k, n) == Blank(n)
  {
    if k > 0 {
      MultipleOfNone(g, q, k - 1, n);
    }
  }

  lemma {:induction false} NothingAbove(g: seq<bool>, q: seq<bool>, k: nat, n: nat)
    requires Monic(g) && k <= |q|
    ensures forall i :: k + Degree(g) <= i < n ==> !Multiple(g, q, k, n)[i]
  {
    if k > 0 {
      NothingAbove(g, q, k - 1, n);
    }
  }

  /** A multiple that stays below the degree is zero. */
  lemma {:induction false} LowMultiple(g: seq<bool>, q: seq<bool>, k: nat, n: nat)
    requires Monic(g) && k <= |q| && k + Degree(g) <= n
    requires forall i :: Degree(g) <= i < n ==> !Multiple(g, q, k, n)[i]
    ensures Multiple(g, q, k, n) == Blank(n)
  {
    if k > 0 {
      if q[k - 1] {
        TopCoefficient(g, q, k, n);
      }
      LowMultiple(g, q, k - 1, n);
    }
  }

  lemma TopCoefficient(g: seq<bool>, q: seq<bool>, k: nat, n: nat)
    requires Monic(g) && 0 < k <= |q| && k + Degree(g) <= n && q[k - 1]
    ensures Multiple(g, q, k, n)[k - 1 + Degree(g)]
  {
    NothingAbove(g, q, k - 1, n);
    assert Slice(g, 1 - k, n)[k - 1 + Degree(g)] == At(g, Degree(g));
  }

  /** Two patterns leave the same remainder exactly when the generator divides their difference. */
  lemma SameRemainder(g: seq<bool>, e: seq<bool>, f: seq<bool>, r: seq<bool>, s: seq<bool>)
    requires Monic(g) && Degree(g) <= |e| == |f| && IsRemainder(g, e, r) && IsRemainder(g, f, s)
    ensures r == s <==> DividedBy(g, Xor(e, f))
  {
    hide Multiple;
    var n, m := |e|, |e| - Degree(g);
    var a :| |a| == m && Multiple(g, a, m, n) == Xor(e, Padded(r, n));
    var b :| |b| == m && Multiple(g, b, m, n) == Xor(f, Padded(s, n));
    MultipleAdds(g, a, b, m, n);
    var ab := Xor(a, b);
    if r == s {
      assert Multiple(g, ab, m, n) == Xor(e, f);
    }
    if DividedBy(g, Xor(e, f)) {
      var c :| |c| == m && Multiple(g, c, m, n) == Xor(e, f);
      MultipleAdds(g, ab, c, m, n);
      var low := Multiple(g, Xor(ab, c), m, n);
      assert low == Xor(Padded(r, n), Padded(s, n));
      LowMultiple(g, Xor(ab, c), m, n);
      forall i | 0 <= i < |r| ensures r[i] == s[i] {
        assert !low[i];
      }
    }
  }

  lemma RemainderUnique(g: seq<bool>, e: seq<bool>, r: seq<bool>, s: seq<bool>)
    requires Monic(g) && Degree(g) <= |e| && IsRemainder(g, e, r) && IsRemainder(g, e, s)
    ensures r == s
  {
    var q := Blank(|e| - Degree(g));
    MultipleOfNone(g, q, |q|, |e|);
    assert Xor(e, e) == Blank(|e|);
    SameRemainder(g, e, e, r, s);
  }

  /** Schoolbook division, from the top coefficient down. */
  method Syndrome(g: seq<bool>, e: seq<bool>) returns (r: seq<bool>)
    requires Monic(g) && Degree(g) <= |e|
    ensures IsRemainder(g, e, r)
  {
    hide Multiple;
    var deg, n := Degree(g), |e|;
    var left := e;
    ghost var q := Blank(n - deg);
    MultipleOfNone(g, q, |q|, n);
    for p := n downto deg
      invariant |left| == n && |q| == n - deg
      invariant forall i :: p <= i < n ==> !left[i]
      invariant forall i :: 0 <= i < p - deg ==> !q[i]
      invariant Xor(left, Multiple(g, q, |q|, n)) == e
    {
      if left[p] {
        MultipleUpdate(g, q, p - deg, |q|, n);
        var shifted := Slice(g, deg - p, n);
        ghost var before, was := left, Multiple(g, q, |q|, n);
        left := Xor(left, shifted);
        q := q[p - deg := true];
        assert Xor(left, Xor(was, shifted)) == Xor(before, was);
        assert shifted[p] == At(g, deg);
      }
    }
    r := left[..deg];
    assert Padded(r, n) == left;
    assert Xor(e, left) == Multiple(g, q, |q|, n);
  }

  // ------------------------------------------------------------ light patterns

  /** No two patterns of weight at most `t` differ by a multiple of the generator. */
  ghost predicate Separates(g: seq<bool>, n: nat, t: nat)
    requires Monic(g) && Degree(g) <= n
  {
    forall x: seq<bool> :: |x| == n && |Ones(x)| <= 2 * t && DividedBy(g, x) ==> x == Blank(n)
  }

  lemma {:induction false} WeightOfSum(a: seq<bool>, b: seq<bool>)
    requires |a| == |b|
    ensures |Ones(Xor(a, b))| <= |Ones(a)| + |Ones(b)|
    decreases |a|
  {
    if a != [] {
      var n := |a| - 1;
      assert Xor(a, b)[..n] == Xor(a[..n], b[..n]);
      WeightOfSum(a[..n], b[..n]);
    }
  }

  lemma OneLightPattern(g: seq<bool>, e: seq<bool>, f: seq<bool>, r: seq<bool>, t: nat)
    requires Monic(g) && Degree(g) <= |e| == |f| && Separates(g, |e|, t)
    requires IsRemainder(g, e, r) && IsRemainder(g, f, r) && |Ones(e)| <= t && |Ones(f)| <= t
    ensures e == f
  {
    hide IsRemainder, DividedBy;
    SameRemainder(g, e, f, r, r);
    WeightOfSum(e, f);
    assert Xor(e, f) == Blank(|e|);
    forall i | 0 <= i < |e| ensures e[i] == f[i] {
      assert !Xor(e, f)[i];
    }
  }
}
