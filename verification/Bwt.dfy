/** The Burrows-Wheeler transform without a stored sentinel, and its inverse by
    LF mapping. */
module Bwt {
  import opened Bytes
  import opened Counting
  import opened Suffixes
  import opened InducedSort
  import opened Sais

  /** Bytes shifted up by one, then the sentinel 0. */
  function WithSentinel(data: seq<byte>): (t: seq<nat>)
    ensures |t| == |data| + 1 && t[|data|] == 0
    ensures forall i :: 0 <= i < |data| ==> t[i] == data[i] as int + 1
    ensures Terminated(t)
  {
    seq(|data| + 1, i requires 0 <= i < |data| + 1 => if i < |data| then data[i] as int + 1 else 0)
  }

  /** The sentinel's suffix sorts first. */
  lemma SentinelRow(t: seq<nat>, sa: seq<nat>)
    requires Terminated(t) && IsSuffixArray(t, sa)
    ensures sa[0] == |t| - 1
  {
    Onto(sa);
    assert |t| - 1 in sa;
    var q :| 0 <= q < |sa| && sa[q] == |t| - 1;
    if q > 0 {
      RowsBefore(t, sa, 0, q);
    }
  }

  /** There is only one suffix array. */
  lemma SuffixArrayUnique(t: seq<nat>, a: seq<nat>, b: seq<nat>)
    requires IsSuffixArray(t, a) && IsSuffixArray(t, b)
    ensures a == b
  {
    hide LexLe;
    Onto(b);
    forall p | 0 <= p < |a| ensures a[p] == b[p] {
      assert a[p] in b;
      var q :| 0 <= q < |b| && b[q] == a[p];
      RowIsRank(t, a, p);
      RowIsRank(t, b, q);
    }
  }

  ghost function Smaller(t: seq<nat>, x: nat): set<nat>
    requires x < |t|
  {
    set i: nat | i < |t| && i != x && WinLe(t, i, |t|, x, |t|)
  }

  /** The row of a suffix is the number of suffixes smaller than it. */
  lemma RowIsRank(t: seq<nat>, sa: seq<nat>, p: nat)
    requires IsSuffixArray(t, sa) && p < |sa|
    ensures |Smaller(t, sa[p])| == p
  {
    hide LexLe;
    Onto(sa);
    forall i: nat | i < |t| ensures i in Smaller(t, sa[p]) <==> i in Elements(sa[..p]) {
      assert i in sa;
      var q :| 0 <= q < |sa| && sa[q] == i;
      if q != p {
        RowsInOrder(t, sa, q, p);
      }
      if q < p {
        assert sa[..p][q] == i;
      }
      if i in sa[..p] {
        var q' :| 0 <= q' < p && sa[q'] == i;
      }
    }
    forall i | i in sa[..p] ensures i < |t| {
      var q' :| 0 <= q' < p && sa[q'] == i;
    }
    assert Smaller(t, sa[p]) == Elements(sa[..p]);
    DistinctSize(sa[..p]);
  }

  /** Rows are ordered exactly as their suffixes. */
  lemma RowsInOrder(t: seq<nat>, sa: seq<nat>, p: nat, q: nat)
    requires IsSuffixArray(t, sa) && p < |sa| && q < |sa| && p != q
    ensures p < q <==> WinLe(t, sa[p], |t|, sa[q], |t|)
    ensures sa[p] != sa[q]
  {
    RowsBefore(t, sa, if p < q then p else q, if p < q then q else p);
    if WinLe(t, sa[p], |t|, sa[q], |t|) && WinLe(t, sa[q], |t|, sa[p], |t|) {
      WinAntisymmetric(t, sa[p], |t|, sa[q], |t|);
    }
  }

  lemma RowsBefore(t: seq<nat>, sa: seq<nat>, p: nat, q: nat)
    requires IsSuffixArray(t, sa) && p < q < |sa|
    ensures WinLe(t, sa[p], |t|, sa[q], |t|) && sa[p] != sa[q]
  {
    WinIsLex(t, sa[p], |t|, sa[q], |t|);
    assert t[sa[p]..|t|] == t[sa[p]..] && t[sa[q]..|t|] == t[sa[q]..];
  }

  // ------------------------------------------------------------ forward

  method SuffixArray(data: seq<byte>) returns (sa: seq<nat>)
    requires |data| + 1 < EMPTY
    ensures IsSuffixArray(WithSentinel(data), [|data|] + sa)
  {
    hide IsSuffixArray;
    var n := |data|;
    ghost var t := WithSentinel(data);
    if n == 0 {
      sa := [];
      assert [n] + sa == [n];
      OneSuffix(t, [n]);
      return;
    }
    if n == 1 {
      TwoSuffixes(t, [n] + [0]);
      return [0];
    }
    var text := WithSentinel(data);
    var a := SaisCore(text, 257);
    SentinelRow(text, a[..]);
    SuffixArrayFacts(text, a[..]);
    sa := a[1..];
    assert a[..] == [n] + sa;
  }

  /** The row stored at position `j` of the output: row `index` is skipped. */
  function RowOf(j: nat, index: nat): nat {
    if j < index then j else j + 1
  }

  /** `bwt`, `index` is the transform of `data`: the byte before each sorted suffix,
      in order, leaving out the row of the whole text. */
  ghost predicate IsBwt(data: seq<byte>, rows: seq<nat>, bwt: seq<byte>, index: nat) {
    && IsSuffixArray(WithSentinel(data), rows)
    && |bwt| == |data| && 1 <= index <= |data| && rows[index] == 0
    && (forall j :: 0 <= j < |data| ==> Preceding(data, rows, RowOf(j, index), bwt[j]))
  }

  ghost predicate Preceding(data: seq<byte>, rows: seq<nat>, row: nat, b: byte)
  {
    row < |rows| && 0 < rows[row] <= |data| && data[rows[row] - 1] == b
  }

  /** The first `m` rows are written; `index` is 0 while row 0 of the text is not met. */
  ghost predicate Emitted(data: seq<byte>, rows: seq<nat>, bwt: seq<byte>, index: nat, m: nat) {
    && m <= |rows| && |bwt| == (if index == 0 then m else m - 1)
    && (if index == 0 then forall q :: 0 <= q < m ==> rows[q] != 0 else index < m && rows[index] == 0)
    && (forall j :: 0 <= j < |bwt| ==> Preceding(data, rows, if index == 0 then j else RowOf(j, index), bwt[j]))
  }

  method BwtForward(data: seq<byte>) returns (bwt: seq<byte>, index: nat, ghost rows: seq<nat>)
    requires |data| + 1 < EMPTY
    ensures data == [] ==> bwt == [] && index == 0
    ensures data != [] ==> IsBwt(data, rows, bwt, index)
  {
    hide LexLe, IsSuffixArray, Emitted, Terminated;
    var n := |data|;
    if n == 0 {
      return [], 0, [];
    }
    var sa := SuffixArray(data);
    rows := [n] + sa;
    bwt := [data[n - 1]];
    index := 0;
    SuffixArrayFacts(WithSentinel(data), rows);
    FirstRow(data, rows, bwt);
    for k := 0 to |sa|
      invariant Emitted(data, rows, bwt, index, k + 1)
    {
      var s := sa[k];
      assert rows[k + 1] == s;
      if s == 0 {
        SkipRow(data, rows, bwt, index, k + 1);
        index := k + 1;
      } else {
        EmitRow(data, rows, bwt, index, k + 1);
        bwt := bwt + [data[s - 1]];
      }
    }
    AllEmitted(data, rows, bwt, index);
  }

  lemma FirstRow(data: seq<byte>, rows: seq<nat>, bwt: seq<byte>)
    requires data != [] && |rows| == |data| + 1 && rows[0] == |data| && bwt == [data[|data| - 1]]
    ensures Emitted(data, rows, bwt, 0, 1)
  {
  }

  lemma SkipRow(data: seq<byte>, rows: seq<nat>, bwt: seq<byte>, index: nat, m: nat)
    requires IsSuffixArray(WithSentinel(data), rows) && Emitted(data, rows, bwt, index, m) && 0 < m < |rows| && rows[m] == 0
    ensures Emitted(data, rows, bwt, m, m + 1)
  {
    hide LexLe, Preceding;
    assert forall q :: 0 <= q < m ==> rows[q] != rows[m];
  }

  lemma EmitRow(data: seq<byte>, rows: seq<nat>, bwt: seq<byte>, index: nat, m: nat)
    requires IsSuffixArray(WithSentinel(data), rows) && Emitted(data, rows, bwt, index, m) && m < |rows|
    requires 0 < rows[m] <= |data|
    ensures Emitted(data, rows, bwt + [data[rows[m] - 1]], index, m + 1)
  {
    hide LexLe, Preceding;
    var b := data[rows[m] - 1];
    assert Preceding(data, rows, m, b) by {
      PrecedingRow(data, rows, m);
    }
    forall j | 0 <= j < |bwt + [b]| ensures Preceding(data, rows, if index == 0 then j else RowOf(j, index), (bwt + [b])[j]) {
      if j < |bwt| {
        assert (bwt + [b])[j] == bwt[j];
      }
    }
  }

  lemma PrecedingRow(data: seq<byte>, rows: seq<nat>, m: nat)
    requires m < |rows| && 0 < rows[m] <= |data|
    ensures Preceding(data, rows, m, data[rows[m] - 1])
  {
  }

  lemma AllEmitted(data: seq<byte>, rows: seq<nat>, bwt: seq<byte>, index: nat)
    requires data != [] && IsSuffixArray(WithSentinel(data), rows) && Emitted(data, rows, bwt, index, |rows|)
    ensures IsBwt(data, rows, bwt, index)
  {
    hide LexLe, Preceding;
    Onto(rows);
    assert 0 in rows;
  }

  // ------------------------------------------------------------ inverse

  /** Stored bytes that sort before the one at `j`, equal bytes in stored order. */
  ghost function Before(s: seq<byte>, j: nat): set<nat>
    requires j < |s|
  {
    set i: nat | i < |s| && (s[i] < s[j] || (s[i] == s[j] && i < j))
  }

  /** The row that stored position `j` leads to. */
  ghost function Lf(s: seq<byte>, j: nat): (row: nat)
    requires j < |s|
    ensures 1 <= row <= |s|
  {
    assert Before(s, j) + {j} <= Range(|s|);
    SubsetSize(Before(s, j) + {j}, Range(|s|));
    1 + |Before(s, j)|
  }

  function StoredAt(row: nat, index: nat): nat
    requires 0 < index
  {
    if row < index then row else row - 1
  }

  /** The row reached from the sentinel's row after `k` steps. */
  ghost function WalkRow(s: seq<byte>, index: nat, k: nat): (row: nat)
    requires 1 <= index <= |s|
    ensures row <= |s|
    decreases k
  {
    if k == 0 then 0 else Lf(s, StoredAt(WalkRow(s, index, k - 1), index))
  }

  ghost function Inverse(s: seq<byte>, index: nat): (r: seq<byte>)
    requires s == [] || 1 <= index <= |s|
    ensures |r| == |s|
  {
    seq(|s|, i requires 0 <= i < |s| => s[StoredAt(WalkRow(s, index, |s| - 1 - i), index)])
  }

  lemma LfSplit(s: seq<byte>, j: nat)
    requires j < |s|
    ensures Lf(s, j) == 1 + Start(s, s[j]) + |Among(s, j, s[j])|
  {
    assert Before(s, j) == Below(s, s[j]) + Among(s, j, s[j]);
    assert Below(s, s[j]) !! Among(s, j, s[j]);
  }

  method LfTable(s: seq<byte>) returns (lf: array<nat>)
    ensures fresh(lf) && lf.Length == |s| && forall j :: 0 <= j < |s| ==> lf[j] == Lf(s, j)
  {
    hide Start, Among, Lf;
    var counts := CountSymbols(s, 256);
    var running := new nat[256](_ => 0);
    var sum := 1;
    StartOfZero(s);
    for i := 0 to 256
      invariant sum == 1 + Start(s, i)
      invariant forall c :: 0 <= c < 256 ==> counts[c] == |Among(s, |s|, c)|
      invariant forall c :: 0 <= c < i ==> running[c] == 1 + Start(s, c)
    {
      AmongStart(s, i);
      running[i] := sum;
      sum := sum + counts[i];
    }
    lf := new nat[|s|](_ => 0);
    forall c: nat ensures |Among(s, 0, c)| == 0 {
      NoneAmong(s, c);
    }
    for j := 0 to |s|
      invariant forall c :: 0 <= c < 256 ==> running[c] == 1 + Start(s, c) + |Among(s, j, c)|
      invariant forall i :: 0 <= i < j ==> lf[i] == Lf(s, i)
    {
      LfSplit(s, j);
      forall c | 0 <= c < 256 ensures |Among(s, j + 1, c)| == |Among(s, j, c)| + if s[j] == c then 1 else 0 {
        AmongNext(s, j, c);
      }
      lf[j] := running[s[j]];
      running[s[j]] := running[s[j]] + 1;
    }
  }

  method BwtInverse(transformed: seq<byte>, index: nat) returns (r: seq<byte>)
    requires transformed == [] || 1 <= index <= |transformed|
    ensures r == Inverse(transformed, index)
  {
    hide Lf;
    var n := |transformed|;
    if n == 0 {
      return [];
    }
    var lf := LfTable(transformed);
    var result := new byte[n](_ => 0);
    var row := 0;
    var i := n;
    while i > 0
      invariant 0 <= i <= n && row == WalkRow(transformed, index, n - i)
      invariant forall j :: 0 <= j < n ==> lf[j] == Lf(transformed, j)
      invariant forall k :: i <= k < n ==> result[k] == Inverse(transformed, index)[k]
    {
      i := i - 1;
      var j := if row < index then row else row - 1;
      result[i] := transformed[j];
      row := lf[j];
    }
    r := result[..];
  }

  // ------------------------------------------------------------ round trip

  ghost function RowWith(rows: seq<nat>, v: nat): (row: nat)
    requires v in rows
    ensures row < |rows| && rows[row] == v
  {
    var row :| 0 <= row < |rows| && rows[row] == v;
    row
  }

  /** The row of the suffix one longer than the one stored at `j`. */
  ghost function Longer(data: seq<byte>, rows: seq<nat>, bwt: seq<byte>, index: nat, j: nat): (row: nat)
    requires IsBwt(data, rows, bwt, index) && j < |bwt|
    ensures 1 <= row <= |data| && rows[row] == rows[RowOf(j, index)] - 1
  {
    Onto(rows);
    SentinelRow(WithSentinel(data), rows);
    assert Preceding(data, rows, RowOf(j, index), bwt[j]);
    RowWith(rows, rows[RowOf(j, index)] - 1)
  }

  /** Equal bytes keep their relative order. */
  lemma SameOrder(data: seq<byte>, rows: seq<nat>, bwt: seq<byte>, index: nat, i: nat, j: nat)
    requires IsBwt(data, rows, bwt, index) && i < |bwt| && j < |bwt| && i != j
    ensures Longer(data, rows, bwt, index, i) != Longer(data, rows, bwt, index, j)
    ensures i in Before(bwt, j) <==> Longer(data, rows, bwt, index, i) < Longer(data, rows, bwt, index, j)
  {
    hide LexLe, Terminated, RowWith;
    var t := WithSentinel(data);
    var p, q := Longer(data, rows, bwt, index, i), Longer(data, rows, bwt, index, j);
    assert Preceding(data, rows, RowOf(i, index), bwt[i]) && Preceding(data, rows, RowOf(j, index), bwt[j]);
    RowsInOrder(t, rows, RowOf(i, index), RowOf(j, index));
    RowsInOrder(t, rows, p, q);
    assert t[rows[p]] == bwt[i] as int + 1 && t[rows[q]] == bwt[j] as int + 1;
  }

  ghost function LongerRows(data: seq<byte>, rows: seq<nat>, bwt: seq<byte>, index: nat): (ls: seq<nat>)
    requires IsBwt(data, rows, bwt, index)
    ensures |ls| == |bwt| && forall j :: 0 <= j < |bwt| ==> ls[j] == Longer(data, rows, bwt, index, j)
  {
    seq(|bwt|, j requires 0 <= j < |bwt| => Longer(data, rows, bwt, index, j))
  }

  ghost function Under(ls: seq<nat>, m: nat): set<nat> {
    set i: nat | i < |ls| && ls[i] < m
  }

  /** Among the numbers 1..n in any order, m - 1 are below m. */
  lemma {:induction false} UnderSize(ls: seq<nat>, m: nat)
    requires forall i :: 0 <= i < |ls| ==> 1 <= ls[i] <= |ls|
    requires forall i, j :: 0 <= i < j < |ls| ==> ls[i] != ls[j]
    requires 1 <= m <= |ls| + 1
    ensures |Under(ls, m)| == m - 1
    decreases m
  {
    if m == 1 {
      assert Under(ls, 1) == {};
    } else {
      UnderSize(ls, m - 1);
      var down := seq(|ls|, i requires 0 <= i < |ls| => ls[i] - 1);
      Onto(down);
      assert m - 2 in down;
      var i :| 0 <= i < |down| && down[i] == m - 2;
      assert ls[i] == m - 1;
      UnderNext(ls, m - 1, i);
    }
  }

  lemma UnderNext(ls: seq<nat>, m: nat, i: nat)
    requires i < |ls| && ls[i] == m && forall k :: 0 <= k < |ls| && k != i ==> ls[k] != m
    ensures |Under(ls, m + 1)| == |Under(ls, m)| + 1
  {
    assert Under(ls, m + 1) == Under(ls, m) + {i};
  }

  /** LF mapping goes from a suffix to the one that is a byte longer. */
  lemma LfIsLonger(data: seq<byte>, rows: seq<nat>, bwt: seq<byte>, index: nat, j: nat)
    requires IsBwt(data, rows, bwt, index) && j < |bwt|
    ensures Lf(bwt, j) == Longer(data, rows, bwt, index, j)
  {
    hide IsBwt, Longer, Before;
    var ls := LongerRows(data, rows, bwt, index);
    BwtLength(data, rows, bwt, index);
    forall i, k | 0 <= i < k < |ls| ensures ls[i] != ls[k] {
      SameOrder(data, rows, bwt, index, i, k);
    }
    UnderSize(ls, ls[j]);
    forall i: nat | i < |bwt| ensures i in Before(bwt, j) <==> i in Under(ls, ls[j]) {
      if i != j {
        SameOrder(data, rows, bwt, index, i, j);
      } else {
        NotBeforeItself(bwt, j);
      }
    }
    BeforeInRange(bwt, j);
    assert Before(bwt, j) == Under(ls, ls[j]);
  }

  lemma BwtLength(data: seq<byte>, rows: seq<nat>, bwt: seq<byte>, index: nat)
    requires IsBwt(data, rows, bwt, index)
    ensures |bwt| == |data| && 1 <= index <= |data| && |rows| == |data| + 1 && rows[index] == 0
  {
  }

  lemma NotBeforeItself(s: seq<byte>, j: nat)
    requires j < |s|
    ensures j !in Before(s, j)
  {
  }

  lemma BeforeInRange(s: seq<byte>, j: nat)
    requires j < |s|
    ensures forall i :: i in Before(s, j) ==> i < |s|
  {
  }

  /** The walk visits the suffixes from the sentinel up, one byte longer each time. */
  lemma {:induction false} WalkVisits(data: seq<byte>, rows: seq<nat>, bwt: seq<byte>, index: nat, k: nat)
    requires IsBwt(data, rows, bwt, index) && k <= |data|
    ensures 1 <= index <= |bwt| && |rows| == |bwt| + 1
    ensures rows[WalkRow(bwt, index, k)] == |data| - k
    decreases k
  {
    hide IsBwt, IsSuffixArray, Longer, Lf;
    BwtLength(data, rows, bwt, index);
    if k == 0 {
      BwtRows(data, rows, bwt, index);
    } else {
      WalkVisits(data, rows, bwt, index, k - 1);
      var row := WalkRow(bwt, index, k - 1);
      assert row != index;
      LfIsLonger(data, rows, bwt, index, StoredAt(row, index));
    }
  }

  lemma BwtRows(data: seq<byte>, rows: seq<nat>, bwt: seq<byte>, index: nat)
    requires IsBwt(data, rows, bwt, index)
    ensures rows[0] == |data|
  {
    SentinelRow(WithSentinel(data), rows);
  }

  /** The inverse undoes the transform. */
  lemma BwtRoundTrip(data: seq<byte>, rows: seq<nat>, bwt: seq<byte>, index: nat)
    requires IsBwt(data, rows, bwt, index)
    ensures 1 <= index <= |bwt| && Inverse(bwt, index) == data
  {
    hide WalkRow, Lf, IsSuffixArray;
    var n := |data|;
    forall i | 0 <= i < n ensures Inverse(bwt, index)[i] == data[i] {
      var k := n - 1 - i;
      WalkVisits(data, rows, bwt, index, k);
      var row := WalkRow(bwt, index, k);
      assert row != index;
      var j := StoredAt(row, index);
      assert RowOf(j, index) == row && Preceding(data, rows, row, bwt[j]);
    }
  }
}
