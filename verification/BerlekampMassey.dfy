/** Binary Berlekamp-Massey: the register it fits regenerates the bits, and no shorter
    register does. */
module BerlekampMassey {
  import opened Sequences

  /** Bit `i`, zero outside the vector. */
  predicate At(s: seq<bool>, i: int) {
    0 <= i < |s| && s[i]
  }

  /** `len` bits from `start` on, zeros outside; `start` may be negative. */
  function Slice(s: seq<bool>, start: int, len: nat): (r: seq<bool>)
    ensures |r| == len && forall i :: 0 <= i < len ==> r[i] == At(s, start + i)
  {
    seq(len, i => At(s, start + i))
  }

  function Xor(a: seq<bool>, b: seq<bool>): (r: seq<bool>)
    requires |a| == |b|
    ensures |r| == |a| && forall i :: 0 <= i < |a| ==> r[i] == (a[i] != b[i])
  {
    seq(|a|, i requires 0 <= i < |a| => a[i] != b[i])
  }

  /** Parity of the bits the two vectors have in common, up to `m`. */
  function Parity(a: seq<bool>, b: seq<bool>, m: nat): bool
    requires m <= |a| == |b|
  {
    m > 0 && Parity(a, b, m - 1) != (a[m - 1] && b[m - 1])
  }

  // ------------------------------------------------------------ polynomials against the bits

  /** Sum over GF(2) of c[j] x[i - j] for j < m. */
  ghost predicate Conv(c: seq<bool>, x: seq<bool>, i: int, m: nat) {
    m > 0 && Conv(c, x, i, m - 1) != (At(c, m - 1) && At(x, i - (m - 1)))
  }

  /** All terms: those past index `i` meet no bit of x. */
  ghost predicate Sum(c: seq<bool>, x: seq<bool>, i: int) {
    Conv(c, x, i, |c|)
  }

  lemma {:induction false} ConvXor(a: seq<bool>, b: seq<bool>, x: seq<bool>, i: int, m: nat)
    requires |a| == |b|
    ensures Conv(Xor(a, b), x, i, m) == (Conv(a, x, i, m) != Conv(b, x, i, m))
  {
    if m > 0 {
      ConvXor(a, b, x, i, m - 1);
    }
  }

  lemma {:induction false} ConvShift(b: seq<bool>, x: seq<bool>, i: int, s: nat, n: nat, m: nat)
    requires m <= n
    ensures Conv(Slice(b, -(s as int), n), x, i, m) == Conv(b, x, i - s, if m < s then 0 else m - s)
  {
    if m > 0 {
      ConvShift(b, x, i, s, n, m - 1);
    }
  }

  /** Terms where c is zero do not count. */
  lemma {:induction false} ConvBeyond(c: seq<bool>, x: seq<bool>, i: int, l: nat, m: nat)
    requires l <= m && forall j :: l <= j < m ==> !At(c, j)
    ensures Conv(c, x, i, m) == Conv(c, x, i, l)
    decreases m
  {
    if l < m {
      ConvBeyond(c, x, i, l, m - 1);
    }
  }

  /** `c` is a connection polynomial of length at most `l` that annihilates x from `l` to `k`. */
  ghost predicate Annihilates(c: seq<bool>, l: nat, x: seq<bool>, k: int) {
    && |c| == |x| + 1 && c[0] && l <= |x|
    && (forall j :: l < j < |c| ==> !c[j])
    && (forall i :: l <= i < k ==> !Sum(c, x, i))
  }

  // ------------------------------------------------------------ the algorithm's invariant

  /** `b` is the polynomial from before the last length change, `shift` steps ago, with
      length lb; it failed there, unless nothing has changed yet. */
  ghost predicate Fits(c: seq<bool>, b: seq<bool>, l: nat, lb: nat, shift: nat, x: seq<bool>, k: nat) {
    && k <= |x| && l <= k && Annihilates(c, l, x, k)
    && 1 <= shift <= k + 1 && Annihilates(b, lb, x, k - shift)
    && shift + lb == k + 1 - l
    && (if shift == k + 1 then l == 0 else Sum(b, x, k - shift))
  }

  lemma FitsStart(c: seq<bool>, x: seq<bool>)
    requires |c| == |x| + 1 && forall j :: 0 <= j < |c| ==> c[j] == (j == 0)
    ensures Fits(c, c, 0, 0, 1, x, 0)
  {
  }

  /** No discrepancy. */
  lemma FitsOn(c: seq<bool>, b: seq<bool>, l: nat, lb: nat, shift: nat, x: seq<bool>, k: nat)
    requires Fits(c, b, l, lb, shift, x, k) && k < |x| && !Sum(c, x, k)
    ensures Fits(c, b, l, lb, shift + 1, x, k + 1)
  {
    hide Sum;
  }

  lemma CorrectedSum(c: seq<bool>, b: seq<bool>, shift: nat, lb: nat, x: seq<bool>, i: int)
    requires |c| == |b| == |x| + 1 && shift + lb <= |x| && forall j :: lb < j < |b| ==> !b[j]
    ensures Sum(Xor(c, Slice(b, -(shift as int), |c|)), x, i) == (Sum(c, x, i) != Sum(b, x, i - shift))
  {
    hide Conv;
    ConvXor(c, Slice(b, -(shift as int), |c|), x, i, |c|);
    ConvShift(b, x, i, shift, |c|, |c|);
    ConvBeyond(b, x, i - shift, |c| - shift, |c|);
  }

  /** The corrected polynomial is right one bit further; its length is as claimed. */
  lemma Corrected(c: seq<bool>, b: seq<bool>, l: nat, lb: nat, shift: nat, x: seq<bool>, k: nat)
    requires Fits(c, b, l, lb, shift, x, k) && k < |x| && Sum(c, x, k)
    ensures var l' := if 2 * l <= k then k + 1 - l else l;
            Annihilates(Xor(c, Slice(b, -(shift as int), |c|)), l', x, k + 1)
  {
    hide Sum;
    var c' := Xor(c, Slice(b, -(shift as int), |c|));
    var l' := if 2 * l <= k then k + 1 - l else l;
    forall i | l' <= i < k + 1 ensures !Sum(c', x, i) {
      CorrectedSum(c, b, shift, lb, x, i);
    }
  }

  lemma FitsCorrected(c: seq<bool>, b: seq<bool>, l: nat, lb: nat, shift: nat, x: seq<bool>, k: nat)
    requires Fits(c, b, l, lb, shift, x, k) && k < |x| && Sum(c, x, k)
    ensures var c' := Xor(c, Slice(b, -(shift as int), |c|));
            if 2 * l <= k then Fits(c', c, k + 1 - l, l, 1, x, k + 1) else Fits(c', b, l, lb, shift + 1, x, k + 1)
  {
    hide Sum;
    Corrected(c, b, l, lb, shift, x, k);
  }

  // ------------------------------------------------------------ registers

  /** What the register feeds back at `k`: the sum of its taps. */
  ghost predicate Feedback(conn: seq<bool>, x: seq<bool>, k: int, m: nat) {
    m > 0 && Feedback(conn, x, k, m - 1) != (At(conn, m - 1) && At(x, k - m))
  }

  /** The register of length |conn|, started on x, runs through all of x. */
  ghost predicate Runs(conn: seq<bool>, x: seq<bool>, k: nat) {
    forall i :: |conn| <= i < k ==> At(x, i) == Feedback(conn, x, i, |conn|)
  }

  lemma {:induction false} SumIsFeedback(c: seq<bool>, x: seq<bool>, i: int, l: nat, m: nat)
    requires l < |c| && c[0] && m <= l
    ensures Conv(c, x, i, m + 1) == (At(x, i) != Feedback(Slice(c, 1, l), x, i, m))
  {
    if m > 0 {
      SumIsFeedback(c, x, i, l, m - 1);
    } else {
      assert !Conv(c, x, i, 0);
    }
  }

  lemma AnnihilatorRuns(c: seq<bool>, l: nat, x: seq<bool>, k: nat)
    requires Annihilates(c, l, x, k) && k <= |x|
    ensures Runs(Slice(c, 1, l), x, k)
  {
    hide Conv, Feedback;
    forall i | l <= i < k ensures At(x, i) == Feedback(Slice(c, 1, l), x, i, l) {
      assert !Sum(c, x, i);
      ConvBeyond(c, x, i, l + 1, |c|);
      SumIsFeedback(c, x, i, l, l);
    }
  }

  /** A register is the polynomial 1 followed by its taps. */
  ghost function PolyOf(conn: seq<bool>, n: nat): (c: seq<bool>)
    requires |conn| <= n
    ensures |c| == n + 1 && c[0] && forall j :: 1 <= j <= n ==> c[j] == At(conn, j - 1)
  {
    seq(n + 1, j => j == 0 || At(conn, j - 1))
  }

  lemma RunnerAnnihilates(conn: seq<bool>, x: seq<bool>, k: nat)
    requires |conn| <= |x| && k <= |x| && Runs(conn, x, k)
    ensures Annihilates(PolyOf(conn, |x|), |conn|, x, k)
  {
    hide Conv, Feedback;
    var c, l := PolyOf(conn, |x|), |conn|;
    assert Slice(c, 1, l) == conn;
    forall i | l <= i < k ensures !Sum(c, x, i) {
      ConvBeyond(c, x, i, l + 1, |c|);
      SumIsFeedback(c, x, i, l, l);
    }
  }

  // ------------------------------------------------------------ minimal length

  /** c applied to the sequence i -> Conv(e, x, i, q), term by term. */
  ghost predicate Double(c: seq<bool>, e: seq<bool>, x: seq<bool>, i: int, p: nat, q: nat) {
    p > 0 && Double(c, e, x, i, p - 1, q) != (At(c, p - 1) && Conv(e, x, i - (p - 1), q))
  }

  lemma {:induction false} DoubleNone(c: seq<bool>, e: seq<bool>, x: seq<bool>, i: int, p: nat)
    ensures !Double(c, e, x, i, p, 0)
  {
    if p > 0 {
      DoubleNone(c, e, x, i, p - 1);
    }
  }

  /** One more column of the double sum. */
  lemma {:induction false} DoubleColumn(c: seq<bool>, e: seq<bool>, x: seq<bool>, i: int, p: nat, q: nat)
    ensures Double(c, e, x, i, p, q + 1) == (Double(c, e, x, i, p, q) != (At(e, q) && Conv(c, x, i - q, p)))
  {
    if p > 0 {
      DoubleColumn(c, e, x, i, p - 1, q);
    }
  }

  /** The order of summation does not matter. */
  lemma {:induction false} DoubleSwap(c: seq<bool>, e: seq<bool>, x: seq<bool>, i: int, p: nat, q: nat)
    ensures Double(c, e, x, i, p, q) == Double(e, c, x, i, q, p)
    decreases q
  {
    if q == 0 {
      DoubleNone(c, e, x, i, p);
    } else {
      DoubleSwap(c, e, x, i, p, q - 1);
      DoubleColumn(c, e, x, i, p, q - 1);
    }
  }

  /** e yields nothing `j` before position `i`. */
  ghost predicate Silent(e: seq<bool>, x: seq<bool>, i: int, j: nat, q: nat) {
    !Conv(e, x, i - j, q)
  }

  /** If e annihilates every position the terms of c reach except the first, only the first counts. */
  lemma {:induction false} DoubleFirst(c: seq<bool>, e: seq<bool>, x: seq<bool>, i: int, p: nat, q: nat)
    requires p >= 1 && At(c, 0) && forall j :: 1 <= j < p ==> Silent(e, x, i, j, q)
    ensures Double(c, e, x, i, p, q) == Conv(e, x, i, q)
    decreases p
  {
    if p == 1 {
      assert !Double(c, e, x, i, 0, q);
    } else {
      assert Silent(e, x, i, p - 1, q);
      DoubleFirst(c, e, x, i, p - 1, q);
    }
  }

  /** Massey's bound: if c fails first at k and e does not, their lengths add up to k + 1. */
  lemma LengthsAddUp(c: seq<bool>, l: nat, e: seq<bool>, le: nat, x: seq<bool>, k: nat)
    requires k < |x| && Annihilates(c, l, x, k) && Sum(c, x, k) && Annihilates(e, le, x, k + 1) && l <= k
    ensures l + le >= k + 1
  {
    hide Conv, Double;
    assert le <= k ==> !Sum(e, x, k);
    if l + le <= k {
      var p, q := le + 1, l + 1;
      forall j | 1 <= j < p ensures Silent(c, x, k, j, q) {
        assert !Sum(c, x, k - j);
        ConvBeyond(c, x, k - j, q, |c|);
      }
      forall j | 1 <= j < q ensures Silent(e, x, k, j, p) {
        assert !Sum(e, x, k - j);
        ConvBeyond(e, x, k - j, p, |e|);
      }
      DoubleFirst(e, c, x, k, p, q);
      DoubleFirst(c, e, x, k, q, p);
      DoubleSwap(c, e, x, k, q, p);
      ConvBeyond(c, x, k, q, |c|);
      ConvBeyond(e, x, k, p, |e|);
    }
  }

  /** No annihilator of the first k bits is shorter than l. */
  ghost predicate Shortest(l: nat, x: seq<bool>, k: nat) {
    forall e, le: nat :: Annihilates(e, le, x, k) ==> l <= le
  }

  lemma ShortestOn(l: nat, x: seq<bool>, k: nat)
    requires Shortest(l, x, k)
    ensures Shortest(l, x, k + 1)
  {
    hide Sum;
    var next := k + 1;
    forall e, le: nat | Annihilates(e, le, x, next) ensures l <= le {
      assert Annihilates(e, le, x, k);
    }
  }

  lemma ShortestLonger(c: seq<bool>, l: nat, x: seq<bool>, k: nat)
    requires k < |x| && l <= k && Annihilates(c, l, x, k) && Sum(c, x, k) && Shortest(l, x, k) && 2 * l <= k
    ensures Shortest(k + 1 - l, x, k + 1)
  {
    hide Sum, Annihilates;
    var next := k + 1;
    forall e, le: nat | Annihilates(e, le, x, next) ensures next - l <= le {
      LengthsAddUp(c, l, e, le, x, k);
    }
  }

  // ------------------------------------------------------------ as it runs

  /** Taps and the reversed window meet as the terms of the sum. */
  lemma {:induction false} WindowSum(c: seq<bool>, x: seq<bool>, k: nat, l: nat, m: nat)
    requires |c| == |x| + 1 && c[0] && k < |x| && m <= l <= |x|
    ensures Conv(c, x, k, m + 1) == (x[k] != Parity(Slice(c, 1, l), Slice(Reversed(x), |x| - k, l), m))
  {
    if m > 0 {
      WindowSum(c, x, k, l, m - 1);
      assert Slice(c, 1, l)[m - 1] == At(c, m);
      var r := Slice(Reversed(x), |x| - k, l)[m - 1];
      assert r == At(Reversed(x), |x| - k + m - 1);
      if m <= k {
        assert Reversed(x)[|x| - 1 - (k - m)] == x[k - m];
      }
      assert r == At(x, k - m);
    } else {
      assert !Conv(c, x, k, 0);
    }
  }

  /** `bm_fit`: connection bits and seed of a shortest register for `x`. */
  method Fit(x: seq<bool>) returns (conn: seq<bool>, seed: seq<bool>)
    ensures |conn| <= |x| && seed == x[..|conn|] && Runs(conn, x, |x|)
    ensures forall other: seq<bool> :: |other| <= |x| && Runs(other, x, |x|) ==> |conn| <= |other|
  {
    hide Conv, Sum, Shortest, Runs, Annihilates, Parity, Fits;
    var n := |x|;
    var rev := Reversed(x);
    var c := seq(n + 1, i => i == 0);
    var b := c;
    var l: nat, shift: nat := 0, 1;
    ghost var lb: nat := 0;
    FitsStart(c, x);
    ShortestStart(x);
    for k := 0 to n
      invariant Fits(c, b, l, lb, shift, x, k) && Shortest(l, x, k)
    {
      FitsFacts(c, b, l, lb, shift, x, k);
      var taps := Slice(c, 1, l);
      var window := Slice(rev, n - k, l);
      WindowSum(c, x, k, l, l);
      SumWithin(c, x, k, l);
      if x[k] == Parity(taps, window, l) {
        FitsOn(c, b, l, lb, shift, x, k);
        ShortestOn(l, x, k);
        shift := shift + 1;
      } else {
        FitsCorrected(c, b, l, lb, shift, x, k);
        var prev := c;
        c := Xor(c, Slice(b, -(shift as int), n + 1));
        if 2 * l <= k {
          ShortestLonger(prev, l, x, k);
          lb := l;
          l := k + 1 - l;
          b := prev;
          shift := 1;
        } else {
          ShortestOn(l, x, k);
          shift := shift + 1;
        }
      }
    }
    FitsFacts(c, b, l, lb, shift, x, n);
    conn, seed := Slice(c, 1, l), Slice(x, 0, l);
    AnnihilatorRuns(c, l, x, n);
    NoneShorter(l, x);
  }

  lemma FitsFacts(c: seq<bool>, b: seq<bool>, l: nat, lb: nat, shift: nat, x: seq<bool>, k: nat)
    requires Fits(c, b, l, lb, shift, x, k)
    ensures |c| == |b| == |x| + 1 && c[0] && l <= k <= |x| && Annihilates(c, l, x, k)
  {
    hide Sum;
  }

  lemma ShortestStart(x: seq<bool>)
    ensures Shortest(0, x, 0)
  {
  }

  lemma SumWithin(c: seq<bool>, x: seq<bool>, k: nat, l: nat)
    requires Annihilates(c, l, x, k)
    ensures Sum(c, x, k) == Conv(c, x, k, l + 1)
  {
    hide Conv;
    ConvBeyond(c, x, k, l + 1, |c|);
  }

  lemma NoneShorter(l: nat, x: seq<bool>)
    requires Shortest(l, x, |x|)
    ensures forall other: seq<bool> :: |other| <= |x| && Runs(other, x, |x|) ==> l <= |other|
  {
    hide Annihilates, Runs;
    forall other: seq<bool> | |other| <= |x| && Runs(other, x, |x|) ensures l <= |other| {
      RunnerAnnihilates(other, x, |x|);
    }
  }

  /** `bm_generate`: the seed, then the register's feedback over its own output. */
  method Generate(n: nat, conn: seq<bool>, seed: seq<bool>) returns (m: seq<bool>)
    requires |seed| == |conn|
    ensures |m| == n && forall k :: 0 <= k < n ==> m[k] == if k < |conn| then seed[k] else Feedback(conn, m, k, |conn|)
  {
    hide Feedback;
    var l := |conn|;
    m := [];
    for k := 0 to n
      invariant |m| == k
      invariant forall i :: 0 <= i < k ==> m[i] == if i < l then seed[i] else Feedback(conn, m, i, l)
    {
      var bit;
      if k < l {
        bit := seed[k];
      } else {
        bit := FeedBack(conn, m, k);
      }
      forall i | l <= i <= k ensures Feedback(conn, m + [bit], i, l) == Feedback(conn, m, i, l) {
        FeedbackLooksBack(conn, m, m + [bit], i, l);
      }
      m := m + [bit];
    }
  }

  method FeedBack(conn: seq<bool>, m: seq<bool>, k: nat) returns (bit: bool)
    requires |conn| <= k == |m|
    ensures bit == Feedback(conn, m, k, |conn|)
  {
    bit := false;
    for j := 0 to |conn|
      invariant bit == Feedback(conn, m, k, j)
    {
      if conn[j] {
        bit := bit != m[k - (j + 1)];
      }
    }
  }

  lemma {:induction false} FeedbackLooksBack(conn: seq<bool>, a: seq<bool>, b: seq<bool>, k: nat, m: nat)
    requires m <= |conn| && k <= |a| && k <= |b| && a[..k] == b[..k]
    ensures Feedback(conn, a, k, m) == Feedback(conn, b, k, m)
  {
    if m > 0 {
      FeedbackLooksBack(conn, a, b, k, m - 1);
      assert k >= m ==> a[..k][k - m] == b[..k][k - m];
    }
  }

  /** A register that runs through x regenerates x from its first bits. */
  lemma {:induction false} Regenerates(conn: seq<bool>, x: seq<bool>, m: seq<bool>, k: nat)
    requires |conn| <= |x| && Runs(conn, x, |x|) && |m| == |x| && k <= |x|
    requires forall i :: 0 <= i < |x| ==> m[i] == if i < |conn| then x[i] else Feedback(conn, m, i, |conn|)
    ensures m[..k] == x[..k]
    decreases k
  {
    hide Feedback;
    if k > 0 {
      Regenerates(conn, x, m, k - 1);
      if k - 1 >= |conn| {
        FeedbackLooksBack(conn, m, x, k - 1, |conn|);
        assert At(x, k - 1) == Feedback(conn, x, k - 1, |conn|);
      }
      assert m[..k] == m[..k - 1] + [m[k - 1]] && x[..k] == x[..k - 1] + [x[k - 1]];
    }
  }

  /** Fit, then generate: the bits come back, for every bit vector. */
  method RoundTrip(x: seq<bool>) returns (m: seq<bool>)
    ensures m == x
  {
    var conn, seed := Fit(x);
    m := Generate(|x|, conn, seed);
    Regenerates(conn, x, m, |x|);
    assert m[..|x|] == m && x[..|x|] == x;
  }
}
