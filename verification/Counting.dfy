/** Pigeonhole arguments over finite sets and sequences of numbers. */
module Counting {
  lemma SubsetSize<T>(a: set<T>, b: set<T>)
    requires a <= b
    ensures |a| <= |b|
    ensures |a| == |b| ==> a == b
  {
    assert b == a + (b - a);
  }

  ghost function Range(n: nat): (r: set<nat>)
    ensures |r| == n
    ensures forall i: nat :: i in r <==> i < n
  {
    if n == 0 then {} else Range(n - 1) + {n - 1}
  }

  ghost function Elements(s: seq<nat>): set<nat> {
    set v | v in s
  }

  lemma {:induction false} DistinctSize(s: seq<nat>)
    requires forall i, j :: 0 <= i < j < |s| ==> s[i] != s[j]
    ensures |Elements(s)| == |s|
  {
    if s != [] {
      var n := |s| - 1;
      DistinctSize(s[..n]);
      assert s == s[..n] + [s[n]];
      assert Elements(s) == Elements(s[..n]) + {s[n]};
      assert s[n] !in s[..n];
    }
  }

  /** Distinct numbers below their count are all the numbers below it. */
  lemma Onto(s: seq<nat>)
    requires forall p :: 0 <= p < |s| ==> s[p] < |s|
    requires forall p, q :: 0 <= p < q < |s| ==> s[p] != s[q]
    ensures forall v :: 0 <= v < |s| ==> v in s
  {
    DistinctSize(s);
    assert Elements(s) <= Range(|s|);
    SubsetSize(Elements(s), Range(|s|));
    forall v | 0 <= v < |s| ensures v in s {
      assert v in Range(|s|);
    }
  }
}
