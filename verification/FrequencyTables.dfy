/** Turning symbol counts into frequencies that sum to exactly 4096. */
module FrequencyTables {
  import opened Arithmetic
  import opened Rans

  function PresentTo(counts: seq<nat>, k: nat): (n: nat)
    requires k <= |counts|
    ensures n <= k
  {
    if k == 0 then 0 else PresentTo(counts, k - 1) + (if counts[k - 1] > 0 then 1 else 0)
  }

  function Present(counts: seq<nat>): nat {
    PresentTo(counts, |counts|)
  }

  function Sum(f: seq<nat>): nat {
    SumTo(f, |f|)
  }

  lemma {:induction false} SumUpdate(f: seq<nat>, i: nat, v: nat, k: nat)
    requires i < |f| && k <= |f|
    ensures SumTo(f[i := v], k) == if i < k then SumTo(f, k) - f[i] + v else SumTo(f, k)
  {
    if k > 0 {
      SumUpdate(f, i, v, k - 1);
    }
  }

  // ------------------------------------------------------------ proportional shares

  function Quota(c: nat, scale: nat, total: nat): nat
    requires total > 0
  {
    QuotientNatural(c * scale, total);
    c * scale / total
  }

  lemma QuotientNatural(a: nat, b: nat)
    requires b > 0
    ensures a / b >= 0
    ensures b * (a / b) <= a <= b * (a / b) + b - 1
  {
    assert a == b * (a / b) + a % b;
  }

  function Quotas(counts: seq<nat>, scale: nat, total: nat): (q: seq<nat>)
    requires total > 0
    ensures |q| == |counts| && forall i :: 0 <= i < |q| ==> q[i] == Quota(counts[i], scale, total)
  {
    seq(|counts|, i requires 0 <= i < |counts| => Quota(counts[i], scale, total))
  }

  /** Rounding down loses less than one for each symbol that occurs. */
  lemma {:induction false} QuotaLoss(counts: seq<nat>, scale: nat, total: nat, k: nat)
    requires total > 0 && k <= |counts|
    ensures total * SumTo(Quotas(counts, scale, total), k) <= scale * SumTo(counts, k)
    ensures scale * SumTo(counts, k) <= total * SumTo(Quotas(counts, scale, total), k) + (total - 1) * PresentTo(counts, k)
  {
    hide Quota;
    if k > 0 {
      var qs, c := Quotas(counts, scale, total), counts[k - 1];
      QuotaLoss(counts, scale, total, k - 1);
      QuotaStep(c, scale, total);
      LossStep(scale, total, SumTo(counts, k - 1), SumTo(qs, k - 1), PresentTo(counts, k - 1), c, qs[k - 1], if c > 0 then 1 else 0);
    }
  }

  lemma LossStep(scale: nat, total: nat, s: nat, q: nat, p: nat, c: nat, d: nat, one: nat)
    requires total > 0
    requires total * q <= scale * s <= total * q + (total - 1) * p
    requires total * d <= scale * c <= total * d + (total - 1) * one
    ensures total * (q + d) <= scale * (s + c) <= total * (q + d) + (total - 1) * (p + one)
  {
    MulAdd(q, d, total);
    MulAdd(s, c, scale);
    MulAdd(p, one, total - 1);
  }

  lemma QuotaStep(c: nat, scale: nat, total: nat)
    requires total > 0
    ensures total * Quota(c, scale, total) <= scale * c
    ensures scale * c <= total * Quota(c, scale, total) + (total - 1) * (if c > 0 then 1 else 0)
  {
    QuotientNatural(c * scale, total);
  }

  /** What rounding down leaves over never reaches the number of symbols that occur. */
  lemma LeftOver(counts: seq<nat>, scale: nat)
    requires Sum(counts) > 0
    ensures Sum(Quotas(counts, scale, Sum(counts))) <= scale
    ensures scale < Sum(Quotas(counts, scale, Sum(counts))) + Present(counts)
  {
    hide SumTo, PresentTo, Quotas;
    var total, q, p := Sum(counts), Sum(Quotas(counts, scale, Sum(counts))), Present(counts);
    QuotaLoss(counts, scale, total, |counts|);
    SomePresent(counts, |counts|);
    if q > scale {
      MulLe(scale + 1, q, total, total);
      MulAdd(scale, 1, total);
    }
    if scale >= q + p {
      MulLe(q + p, scale, total, total);
      MulAdd(q, p, total);
      MulAdd(total - 1, 1, p);
    }
  }

  lemma {:induction false} SomePresent(counts: seq<nat>, k: nat)
    requires k <= |counts| && SumTo(counts, k) > 0
    ensures PresentTo(counts, k) > 0
  {
    if counts[k - 1] == 0 {
      SomePresent(counts, k - 1);
    }
  }

  // ------------------------------------------------------------ the pinned order

  /** By the fraction lost, largest or smallest first, ties by index. */
  predicate Precedes(part: seq<nat>, largest: bool, a: nat, b: nat)
    requires a < |part| && b < |part|
  {
    || (if largest then part[a] > part[b] else part[a] < part[b])
    || (part[a] == part[b] && a < b)
  }

  ghost predicate Sorted(part: seq<nat>, largest: bool, order: seq<nat>) {
    && (forall k :: 0 <= k < |order| ==> order[k] < |part|)
    && (forall k, l :: 0 <= k < l < |order| ==> Precedes(part, largest, order[k], order[l]))
  }

  ghost predicate Lists(eligible: seq<bool>, order: seq<nat>) {
    forall i: nat :: i in order <==> i < |eligible| && eligible[i]
  }

  /** Ties broken by index leave one order only, so a decoder that sorts again finds the same table. */
  lemma {:induction false} OrderUnique(part: seq<nat>, largest: bool, a: seq<nat>, b: seq<nat>)
    requires Sorted(part, largest, a) && Sorted(part, largest, b)
    requires forall i: nat :: i in a <==> i in b
    ensures a == b
    decreases |a|
  {
    assert b == [] || b[0] in b;
    if a == [] {
      assert b == [];
    } else {
      assert a[0] in b;
      var k :| 0 <= k < |b| && b[k] == a[0];
      assert b[0] in a;
      var l :| 0 <= l < |a| && a[l] == b[0];
      assert k == 0;
      forall i: nat ensures i in a[1..] <==> i in b[1..] {
        InTail(part, largest, a, i);
        InTail(part, largest, b, i);
      }
      OrderUnique(part, largest, a[1..], b[1..]);
    }
  }

  lemma InTail(part: seq<nat>, largest: bool, a: seq<nat>, i: nat)
    requires a != [] && Sorted(part, largest, a)
    ensures i in a[1..] <==> i in a && i != a[0]
  {
    if i in a[1..] {
      var k :| 0 <= k < |a| - 1 && a[1..][k] == i;
      assert a[k + 1] == i;
    }
    if i in a && i != a[0] {
      var k :| 0 <= k < |a| && a[k] == i;
      assert a[1..][k - 1] == i;
    }
  }

  /** The library sort, as an insertion of each eligible index in turn. */
  method SortIndices(eligible: seq<bool>, part: seq<nat>, largest: bool) returns (order: seq<nat>)
    requires |part| == |eligible|
    ensures Sorted(part, largest, order) && Lists(eligible, order)
  {
    order := [];
    for i: int := 0 to |eligible|
      invariant Sorted(part, largest, order)
      invariant forall j: nat :: j in order <==> j < i && eligible[j]
    {
      if eligible[i] {
        ghost var before := order;
        var at := 0;
        while at < |order| && Precedes(part, largest, order[at], i)
          invariant at <= |order| && forall k :: 0 <= k < at ==> Precedes(part, largest, order[k], i)
        {
          at := at + 1;
        }
        InsertSorted(part, largest, order, i, at);
        order := order[..at] + [i] + order[at..];
        forall j: nat ensures j in order <==> j == i || j in before {
          assert before == before[..at] + before[at..];
        }
      }
    }
  }

  lemma InsertSorted(part: seq<nat>, largest: bool, order: seq<nat>, i: nat, at: nat)
    requires Sorted(part, largest, order) && i < |part| && i !in order && at <= |order|
    requires forall k :: 0 <= k < at ==> Precedes(part, largest, order[k], i)
    requires at < |order| ==> !Precedes(part, largest, order[at], i)
    ensures Sorted(part, largest, order[..at] + [i] + order[at..])
  {
    forall k | at <= k < |order| ensures Precedes(part, largest, i, order[k]) {
      assert order[at] != i;
      assert k == at || Precedes(part, largest, order[at], order[k]);
    }
  }

  /** Where `i` goes in the order, looking from `at` on. */
  function Place(part: seq<nat>, largest: bool, order: seq<nat>, i: nat, at: nat): (place: nat)
    requires i < |part| && at <= |order| && forall k :: 0 <= k < |order| ==> order[k] < |part|
    requires forall k :: 0 <= k < at ==> Precedes(part, largest, order[k], i)
    ensures place <= |order| && forall k :: 0 <= k < place ==> Precedes(part, largest, order[k], i)
    ensures place < |order| ==> !Precedes(part, largest, order[place], i)
    decreases |order| - at
  {
    if at < |order| && Precedes(part, largest, order[at], i) then Place(part, largest, order, i, at + 1) else at
  }

  /** The order with `i` inserted. */
  ghost function Placed(part: seq<nat>, largest: bool, order: seq<nat>, i: nat): (r: seq<nat>)
    requires Sorted(part, largest, order) && i < |part| && i !in order
    ensures Sorted(part, largest, r) && forall j: nat :: j in r <==> j == i || j in order
  {
    var at := Place(part, largest, order, i, 0);
    InsertSorted(part, largest, order, i, at);
    assert order == order[..at] + order[at..];
    order[..at] + [i] + order[at..]
  }

  /** The order of the eligible indices below `n`. */
  ghost function OrderTo(eligible: seq<bool>, part: seq<nat>, largest: bool, n: nat): (order: seq<nat>)
    requires n <= |eligible| == |part|
    ensures Sorted(part, largest, order) && forall j: nat :: j in order <==> j < n && eligible[j]
  {
    if n == 0 then []
    else
      var order := OrderTo(eligible, part, largest, n - 1);
      if eligible[n - 1] then Placed(part, largest, order, n - 1) else order
  }

  lemma OrderExists(eligible: seq<bool>, part: seq<nat>, largest: bool)
    requires |part| == |eligible|
    ensures var order := OrderTo(eligible, part, largest, |eligible|);
      Sorted(part, largest, order) && Lists(eligible, order)
  {
    hide Sorted;
  }

  // ------------------------------------------------------------ handing out and taking back

  /** One more for each of the first `extra` symbols of the order. */
  function Topped(f: seq<nat>, order: seq<nat>, extra: nat): (r: seq<nat>)
    requires forall k :: 0 <= k < |order| ==> order[k] < |f|
    ensures |r| == |f|
    decreases |order|
  {
    if extra == 0 || order == [] then f
    else Topped(f[order[0] := f[order[0]] + 1], order[1..], extra - 1)
  }

  lemma {:induction false} ToppedSums(f: seq<nat>, order: seq<nat>, extra: nat)
    requires forall k :: 0 <= k < |order| ==> order[k] < |f|
    ensures extra <= |order| ==> Sum(Topped(f, order, extra)) == Sum(f) + extra
    ensures forall i :: 0 <= i < |f| ==> f[i] <= Topped(f, order, extra)[i]
    ensures forall i :: 0 <= i < |f| && i !in order ==> Topped(f, order, extra)[i] == f[i]
    decreases |order|
  {
    if extra > 0 && order != [] {
      SumUpdate(f, order[0], f[order[0]] + 1, |f|);
      ToppedSums(f[order[0] := f[order[0]] + 1], order[1..], extra - 1);
    }
  }

  /** What a pass over the order leaves: the frequencies and the excess still to reclaim. */
  function Pass(f: seq<nat>, order: seq<nat>, excess: nat): (r: (seq<nat>, nat))
    requires forall k :: 0 <= k < |order| ==> order[k] < |f|
    ensures |r.0| == |f| && r.1 <= excess
    decreases |order|
  {
    if excess == 0 || order == [] then (f, excess)
    else if f[order[0]] > 1 then Pass(f[order[0] := f[order[0]] - 1], order[1..], excess - 1)
    else Pass(f, order[1..], excess)
  }

  function Reclaimed(f: seq<nat>, order: seq<nat>, excess: nat): (r: seq<nat>)
    requires forall k :: 0 <= k < |order| ==> order[k] < |f|
    ensures |r| == |f|
    decreases excess
  {
    var p := Pass(f, order, excess);
    if p.1 == excess then p.0 else Reclaimed(p.0, order, p.1)
  }

  lemma {:induction false} PassKeeps(f: seq<nat>, order: seq<nat>, excess: nat)
    requires forall k :: 0 <= k < |order| ==> order[k] < |f|
    ensures Sum(Pass(f, order, excess).0) + excess == Sum(f) + Pass(f, order, excess).1
    ensures forall i :: 0 <= i < |f| ==> Pass(f, order, excess).0[i] <= f[i]
    ensures forall i :: 0 <= i < |f| ==> (Pass(f, order, excess).0[i] > 0 <==> f[i] > 0)
    ensures Pass(f, order, excess).1 == excess > 0 ==> forall i: nat :: i < |f| && i in order ==> f[i] <= 1
    ensures Pass(f, order, excess).1 == excess ==> Pass(f, order, excess).0 == f
    decreases |order|
  {
    if excess > 0 && order != [] {
      if f[order[0]] > 1 {
        SumUpdate(f, order[0], f[order[0]] - 1, |f|);
        PassKeeps(f[order[0] := f[order[0]] - 1], order[1..], excess - 1);
      } else {
        PassKeeps(f, order[1..], excess);
      }
    }
  }

  /** Reclaiming stops only when nothing is left to reclaim or every frequency is at most 1. */
  lemma {:induction false} ReclaimedSums(f: seq<nat>, order: seq<nat>, excess: nat)
    requires forall k :: 0 <= k < |order| ==> order[k] < |f|
    requires excess <= Sum(f) && forall i: nat :: i < |f| && f[i] > 1 ==> i in order
    ensures var r := Reclaimed(f, order, excess);
      && (forall i :: 0 <= i < |f| ==> r[i] <= f[i] && (r[i] > 0 <==> f[i] > 0))
      && (Sum(r) == Sum(f) - excess || (Sum(r) > Sum(f) - excess && forall i :: 0 <= i < |f| ==> r[i] <= 1))
    decreases excess
  {
    PassKeeps(f, order, excess);
    var p := Pass(f, order, excess);
    if p.1 != excess {
      ReclaimedSums(p.0, order, p.1);
    }
  }

  // ------------------------------------------------------------ the normalised table

  function Share(c: nat, total: nat): (s: nat)
    requires total > 0
    ensures s > 0 <==> c > 0
  {
    if c == 0 then 0 else if Quota(c, TOTAL, total) == 0 then 1 else Quota(c, TOTAL, total)
  }

  function Shares(counts: seq<nat>): (f: seq<nat>)
    requires Sum(counts) > 0
    ensures |f| == |counts| && forall i :: 0 <= i < |f| ==> f[i] == Share(counts[i], Sum(counts))
  {
    seq(|counts|, i requires 0 <= i < |counts| => Share(counts[i], Sum(counts)))
  }

  function Parts(counts: seq<nat>, scale: nat): (p: seq<nat>)
    requires Sum(counts) > 0
    ensures |p| == |counts| && forall i :: 0 <= i < |p| ==> p[i] == counts[i] * scale % Sum(counts)
  {
    seq<nat>(|counts|, i requires 0 <= i < |counts| => counts[i] * scale % Sum(counts))
  }

  function Above(f: seq<nat>, least: nat): (e: seq<bool>)
    ensures |e| == |f| && forall i :: 0 <= i < |f| ==> (e[i] <==> f[i] > least)
  {
    seq(|f|, i requires 0 <= i < |f| => f[i] > least)
  }

  /** The fallback for a message without symbols. */
  function Uniform(n: nat): (f: seq<nat>)
    requires n > 0
    ensures |f| == n
  {
    QuotientNatural(TOTAL, n);
    seq(n, i requires 0 <= i < n => TOTAL / n + (if i < TOTAL % n then 1 else 0))
  }

  /** The order in which phase two visits symbols. */
  ghost predicate PhaseTwo(counts: seq<nat>, order: seq<nat>)
    requires Sum(counts) > 0
  {
    var f, part := Shares(counts), Parts(counts, TOTAL);
    if Sum(f) <= TOTAL then Sorted(part, true, order) && Lists(Above(counts, 0), order)
    else Sorted(part, false, order) && Lists(Above(f, 1), order)
  }

  ghost function Normalized(counts: seq<nat>, order: seq<nat>): seq<nat>
    requires Sum(counts) > 0 && PhaseTwo(counts, order)
  {
    var f := Shares(counts);
    if Sum(f) <= TOTAL then Topped(f, order, TOTAL - Sum(f)) else Reclaimed(f, order, Sum(f) - TOTAL)
  }

  lemma OnePhaseTwo(counts: seq<nat>, a: seq<nat>, b: seq<nat>)
    requires Sum(counts) > 0 && PhaseTwo(counts, a) && PhaseTwo(counts, b)
    ensures a == b
  {
    OrderUnique(Parts(counts, TOTAL), Sum(Shares(counts)) <= TOTAL, a, b);
  }

  ghost function PhaseOrder(counts: seq<nat>): (order: seq<nat>)
    requires Sum(counts) > 0
    ensures PhaseTwo(counts, order)
  {
    var f, part := Shares(counts), Parts(counts, TOTAL);
    if Sum(f) <= TOTAL then
      OrderExists(Above(counts, 0), part, true);
      OrderTo(Above(counts, 0), part, true, |counts|)
    else
      OrderExists(Above(f, 1), part, false);
      OrderTo(Above(f, 1), part, false, |counts|)
  }

  /** The table for these counts. */
  ghost function NormalFreqs(counts: seq<nat>): (freqs: seq<nat>)
    requires |counts| > 0
  {
    if Sum(counts) == 0 then Uniform(|counts|) else Normalized(counts, PhaseOrder(counts))
  }

  /** The table sums to the scale exactly when at most that many symbols occur, and covers
      exactly those. */
  lemma NormalFreqsCover(counts: seq<nat>)
    requires |counts| > 0
    ensures var freqs := NormalFreqs(counts);
      && |freqs| == |counts|
      && (Sum(freqs) == TOTAL <==> Present(counts) <= TOTAL)
      && (Sum(counts) > 0 ==> forall i :: 0 <= i < |freqs| ==> (freqs[i] > 0 <==> counts[i] > 0))
  {
    hide SumTo, PresentTo, Normalized, PhaseOrder;
    if Sum(counts) == 0 {
      UniformSums(|counts|);
      NonePresent(counts, |counts|);
    } else {
      NormalizedSums(counts, PhaseOrder(counts));
    }
  }

  lemma {:induction false} SharesCover(counts: seq<nat>, k: nat)
    requires Sum(counts) > 0 && k <= |counts|
    ensures SumTo(Shares(counts), k) >= SumTo(Quotas(counts, TOTAL, Sum(counts)), k)
    ensures SumTo(Shares(counts), k) >= PresentTo(counts, k)
  {
    hide Quota;
    if k > 0 {
      SharesCover(counts, k - 1);
      var i := k - 1;
      assert Shares(counts)[i] == Share(counts[i], Sum(counts));
      assert Quotas(counts, TOTAL, Sum(counts))[i] == Quota(counts[i], TOTAL, Sum(counts));
      if counts[i] == 0 {
        QuotientNatural(0, Sum(counts));
        QuotaStep(0, TOTAL, Sum(counts));
        QuotaOfNone(Sum(counts));
      }
    }
  }

  lemma QuotaOfNone(total: nat)
    requires total > 0
    ensures Quota(0, TOTAL, total) == 0
  {
  }

  lemma {:induction false} SmallSum(f: seq<nat>, counts: seq<nat>, k: nat)
    requires |f| == |counts| && k <= |f|
    requires forall i :: 0 <= i < |f| ==> (f[i] > 0 <==> counts[i] > 0)
    ensures SumTo(f, k) >= PresentTo(counts, k)
    ensures (forall i :: 0 <= i < |f| ==> f[i] <= 1) ==> SumTo(f, k) == PresentTo(counts, k)
  {
    if k > 0 {
      SmallSum(f, counts, k - 1);
    }
  }

  lemma ListsAll(eligible: seq<bool>, part: seq<nat>, largest: bool, order: seq<nat>)
    requires |part| == |eligible| && Sorted(part, largest, order) && Lists(eligible, order)
    ensures forall k :: 0 <= k < |order| ==> order[k] < |eligible| && eligible[order[k]]
  {
    forall k | 0 <= k < |order| ensures order[k] < |eligible| && eligible[order[k]] {
      assert order[k] in order;
    }
  }

  /** An order without repetition that lists what occurs has one entry for each. */
  lemma {:induction false} OrderLength(counts: seq<nat>, order: seq<nat>, k: nat)
    requires k <= |counts|
    requires forall i: nat :: i < k && counts[i] > 0 ==> i in order
    ensures |order| >= PresentTo(counts, k)
    decreases k
  {
    if k > 0 {
      if counts[k - 1] > 0 {
        var at :| 0 <= at < |order| && order[at] == k - 1;
        var rest := order[..at] + order[at + 1..];
        forall i: nat | i < k - 1 && counts[i] > 0 ensures i in rest {
          var j :| 0 <= j < |order| && order[j] == i;
          assert rest[if j < at then j else j - 1] == i;
        }
        OrderLength(counts, rest, k - 1);
      } else {
        OrderLength(counts, order, k - 1);
      }
    }
  }

  /** One pass is enough to hand out what rounding left; reclaiming ends exactly at the
      scale. Only more present symbols than the scale has quanta keep the sum off it. */
  lemma NormalizedSums(counts: seq<nat>, order: seq<nat>)
    requires Sum(counts) > 0 && PhaseTwo(counts, order)
    ensures var r := Normalized(counts, order);
      && |r| == |counts|
      && (forall i :: 0 <= i < |r| ==> (r[i] > 0 <==> counts[i] > 0))
      && (Sum(r) == TOTAL <==> Present(counts) <= TOTAL)
  {
    hide SumTo, PresentTo, Quota, Precedes, Topped, Reclaimed, Quotas;
    var f := Shares(counts);
    SharesCover(counts, |counts|);
    LeftOver(counts, TOTAL);
    var r := Normalized(counts, order);
    if Sum(f) <= TOTAL {
      ListsAll(Above(counts, 0), Parts(counts, TOTAL), true, order);
      OrderLength(counts, order, |counts|);
      ToppedSums(f, order, TOTAL - Sum(f));
      forall i: nat | i < |counts| ensures r[i] > 0 <==> counts[i] > 0 {
        assert i in order <==> counts[i] > 0;
      }
    } else {
      ListsAll(Above(f, 1), Parts(counts, TOTAL), false, order);
      ReclaimedSums(f, order, Sum(f) - TOTAL);
    }
    SmallSum(r, counts, |counts|);
  }

  lemma {:induction false} EvenSum(f: seq<nat>, base: nat, extra: nat, k: nat)
    requires k <= |f| && forall i :: 0 <= i < |f| ==> f[i] == base + (if i < extra then 1 else 0)
    ensures SumTo(f, k) == base * k + (if k < extra then k else extra)
  {
    if k > 0 {
      EvenSum(f, base, extra, k - 1);
      assert base * k == base * (k - 1) + base by {
        MulAdd(k - 1, 1, base);
      }
      assert f[k - 1] == base + (if k - 1 < extra then 1 else 0);
    }
  }

  lemma UniformSums(n: nat)
    requires n > 0
    ensures Sum(Uniform(n)) == TOTAL
  {
    QuotientNatural(TOTAL, n);
    EvenSum(Uniform(n), TOTAL / n, TOTAL % n, n);
  }

  // ------------------------------------------------------------ as it runs

  method SumOf(counts: seq<nat>) returns (total: nat)
    ensures total == Sum(counts)
  {
    total := 0;
    for i := 0 to |counts|
      invariant total == SumTo(counts, i)
    {
      total := total + counts[i];
    }
  }

  /** The table is a function of the counts alone; it sums to the scale and covers
      exactly the symbols that occur. */
  method Normalize(counts: seq<nat>) returns (freqs: seq<nat>)
    requires |counts| > 0
    ensures freqs == NormalFreqs(counts) && |freqs| == |counts|
    ensures Sum(freqs) == TOTAL <==> Present(counts) <= TOTAL
    ensures Sum(counts) > 0 ==> forall i :: 0 <= i < |freqs| ==> (freqs[i] > 0 <==> counts[i] > 0)
    ensures Sum(counts) == 0 ==> freqs == Uniform(|counts|)
    ensures Sum(counts) > 0 ==> forall order :: PhaseTwo(counts, order) ==> freqs == Normalized(counts, order)
    ensures Sum(counts) > 0 ==> forall i, j :: 0 <= i < |counts| && 0 <= j < |counts| ==> NoLess(counts, freqs, i, j)
  {
    hide SumTo, PresentTo, Quota, Sorted, Lists, Topped, Pass, Reclaimed, PhaseOrder, NoLess;
    NormalFreqsCover(counts);
    var total := SumOf(counts);
    if total == 0 {
      freqs := Uniform(|counts|);
      return;
    }
    freqs := seq(|counts|, i requires 0 <= i < |counts| => Share(counts[i], total));
    assert freqs == Shares(counts);
    var handed := SumOf(freqs);
    var part: seq<nat> := seq(|counts|, i requires 0 <= i < |counts| => counts[i] * TOTAL % total);
    assert part == Parts(counts, TOTAL);
    ghost var chosen: seq<nat>;
    if handed <= TOTAL {
      var order := SortIndices(Above(counts, 0), part, true);
      chosen := order;
      freqs := TopUp(freqs, order, TOTAL - handed);
    } else {
      var order := SortIndices(Above(freqs, 1), part, false);
      chosen := order;
      freqs := Reclaim(freqs, order, handed - TOTAL);
    }
    assert freqs == Normalized(counts, chosen);
    OnePhaseTwo(counts, chosen, PhaseOrder(counts));
    forall order | PhaseTwo(counts, order) ensures freqs == Normalized(counts, order) {
      OnePhaseTwo(counts, chosen, order);
    }
    forall i, j | 0 <= i < |counts| && 0 <= j < |counts| ensures NoLess(counts, freqs, i, j) {
      NoLessIs(counts, chosen, i, j);
    }
  }

  lemma {:induction false} NonePresent(counts: seq<nat>, k: nat)
    requires k <= |counts| && SumTo(counts, k) == 0
    ensures PresentTo(counts, k) == 0
  {
    if k > 0 {
      NonePresent(counts, k - 1);
    }
  }

  method TopUp(f: seq<nat>, order: seq<nat>, extra: nat) returns (freqs: seq<nat>)
    requires forall k :: 0 <= k < |order| ==> order[k] < |f|
    ensures freqs == Topped(f, order, extra)
  {
    freqs := f;
    var remainder := extra;
    assert order[0..] == order;
    for k := 0 to |order|
      invariant |freqs| == |f| && Topped(freqs, order[k..], remainder) == Topped(f, order, extra)
    {
      if remainder == 0 {
        break;
      }
      assert order[k..][0] == order[k] && order[k..][1..] == order[k + 1..];
      freqs := freqs[order[k] := freqs[order[k]] + 1];
      remainder := remainder - 1;
    }
  }

  method Reclaim(f: seq<nat>, order: seq<nat>, amount: nat) returns (freqs: seq<nat>)
    requires forall k :: 0 <= k < |order| ==> order[k] < |f|
    ensures freqs == Reclaimed(f, order, amount)
  {
    freqs := f;
    var excess := amount;
    while excess > 0
      invariant |freqs| == |f| && Reclaimed(freqs, order, excess) == Reclaimed(f, order, amount)
      decreases excess
    {
      var start := excess;
      ghost var pass := Pass(freqs, order, excess);
      assert order[0..] == order;
      for k := 0 to |order|
        invariant |freqs| == |f| && excess <= start && Pass(freqs, order[k..], excess) == pass
      {
        if excess == 0 {
          break;
        }
        assert order[k..][0] == order[k] && order[k..][1..] == order[k + 1..];
        if freqs[order[k]] > 1 {
          freqs := freqs[order[k] := freqs[order[k]] - 1];
          excess := excess - 1;
        }
      }
      assert (freqs, excess) == pass;
      if excess == start {
        break;
      }
    }
  }

  // ------------------------------------------------------------ who gets the remainder

  /** `a` stands before `b` in the order. */
  ghost predicate Earlier(order: seq<nat>, a: nat, b: nat) {
    exists k, l :: 0 <= k < l < |order| && order[k] == a && order[l] == b
  }

  ghost predicate Distinct(order: seq<nat>) {
    forall k, l :: 0 <= k < l < |order| ==> order[k] != order[l]
  }

  lemma FirstOnce(order: seq<nat>)
    requires order != [] && Distinct(order)
    ensures Distinct(order[1..]) && order[0] !in order[1..]
    ensures forall x :: x in order <==> x == order[0] || x in order[1..]
  {
    assert order == [order[0]] + order[1..];
  }

  /** `b` in the rest comes after the first; otherwise both are in the rest. */
  lemma EarlierRest(order: seq<nat>, a: nat, b: nat)
    requires order != [] && Distinct(order) && Earlier(order, a, b)
    ensures b in order[1..] && b != order[0] && (a == order[0] || Earlier(order[1..], a, b))
  {
    var k, l :| 0 <= k < l < |order| && order[k] == a && order[l] == b;
    assert order[1..][l - 1] == b;
    if k > 0 {
      var i, j := k - 1, l - 1;
      assert order[1..][i] == a && order[1..][j] == b;
    }
  }

  /** Nobody is topped up twice. */
  lemma {:induction false} ToppedOnce(f: seq<nat>, order: seq<nat>, extra: nat)
    requires Distinct(order) && forall k :: 0 <= k < |order| ==> order[k] < |f|
    ensures forall x :: 0 <= x < |f| ==> f[x] <= Topped(f, order, extra)[x] <= f[x] + 1
    ensures forall x :: 0 <= x < |f| && x !in order ==> Topped(f, order, extra)[x] == f[x]
    decreases |order|
  {
    hide Distinct;
    if extra > 0 && order != [] {
      FirstOnce(order);
      ToppedOnce(f[order[0] := f[order[0]] + 1], order[1..], extra - 1);
    }
  }

  /** The one earlier in the order is topped up first. */
  lemma {:induction false} ToppedFair(f: seq<nat>, order: seq<nat>, extra: nat, i: nat, j: nat)
    requires Distinct(order) && (forall k :: 0 <= k < |order| ==> order[k] < |f|) && i < |f| && j < |f|
    requires f[i] > f[j] || (f[i] == f[j] && Earlier(order, i, j))
    ensures Topped(f, order, extra)[i] >= Topped(f, order, extra)[j]
    decreases |order|
  {
    hide Distinct, Earlier;
    ToppedOnce(f, order, extra);
    if f[i] == f[j] && extra > 0 && order != [] {
      FirstOnce(order);
      EarlierRest(order, i, j);
      var more := f[order[0] := f[order[0]] + 1];
      ToppedOnce(more, order[1..], extra - 1);
      if order[0] != i {
        ToppedFair(more, order[1..], extra - 1, i, j);
      }
    }
  }

  /** A pass takes one at most from each, and from all above 1 when something is left to reclaim. */
  lemma {:induction false} PassOnce(f: seq<nat>, order: seq<nat>, excess: nat)
    requires Distinct(order) && forall k :: 0 <= k < |order| ==> order[k] < |f|
    ensures var p := Pass(f, order, excess);
      && (forall x :: 0 <= x < |f| ==> p.0[x] <= f[x] <= p.0[x] + 1 && (f[x] <= 1 || x !in order ==> p.0[x] == f[x]))
      && (p.1 > 0 ==> forall x: nat :: x < |f| && x in order && f[x] > 1 ==> p.0[x] == f[x] - 1)
    decreases |order|
  {
    hide Distinct;
    if excess > 0 && order != [] {
      FirstOnce(order);
      if f[order[0]] > 1 {
        PassOnce(f[order[0] := f[order[0]] - 1], order[1..], excess - 1);
      } else {
        PassOnce(f, order[1..], excess);
      }
    }
  }

  /** What a later one in the order gives back, an earlier one has given back. */
  lemma {:induction false} PassFair(f: seq<nat>, order: seq<nat>, excess: nat, i: nat, j: nat)
    requires Distinct(order) && (forall k :: 0 <= k < |order| ==> order[k] < |f|) && i < |f| && j < |f|
    requires f[i] >= f[j] && Earlier(order, j, i)
    ensures Pass(f, order, excess).0[i] >= Pass(f, order, excess).0[j]
    decreases |order|
  {
    hide Distinct, Earlier;
    if excess > 0 && order != [] {
      FirstOnce(order);
      EarlierRest(order, j, i);
      PassOnce(f, order, excess);
      var first := order[0];
      if f[first] > 1 {
        var less := f[first := f[first] - 1];
        PassOnce(less, order[1..], excess - 1);
        if first != j {
          PassFair(less, order[1..], excess - 1, i, j);
        }
      } else if first != j {
        PassFair(f, order[1..], excess, i, j);
      }
    }
  }

  lemma {:induction false} ReclaimedFair(f: seq<nat>, order: seq<nat>, excess: nat, i: nat, j: nat)
    requires Distinct(order) && (forall k :: 0 <= k < |order| ==> order[k] < |f|) && i < |f| && j < |f|
    requires forall x: nat :: x < |f| && f[x] > 1 ==> x in order
    requires f[i] >= f[j] && (f[i] > f[j] || f[j] <= 1 || Earlier(order, j, i))
    ensures Reclaimed(f, order, excess)[i] >= Reclaimed(f, order, excess)[j]
    decreases excess
  {
    hide Distinct, Earlier, Pass;
    var p := Pass(f, order, excess);
    PassOnce(f, order, excess);
    PassStalls(f, order, excess);
    if Earlier(order, j, i) {
      PassFair(f, order, excess, i, j);
    }
    if p.1 != excess {
      if p.1 > 0 {
        ReclaimedFair(p.0, order, p.1, i, j);
      } else {
        PassStalls(p.0, order, 0);
      }
    }
  }

  lemma PassStalls(f: seq<nat>, order: seq<nat>, excess: nat)
    requires forall k :: 0 <= k < |order| ==> order[k] < |f|
    ensures excess == 0 ==> Pass(f, order, excess) == (f, 0)
    ensures Pass(f, order, excess).1 == excess ==> Pass(f, order, excess).0 == f
  {
    PassKeeps(f, order, excess);
  }

  /** The larger count has the larger quotient or, the quotients being equal, the larger fraction. */
  lemma QuotaOrder(c: nat, d: nat, scale: nat, total: nat)
    requires c > d && total > 0 && scale > 0
    ensures Quota(c, scale, total) >= Quota(d, scale, total)
    ensures Quota(c, scale, total) == Quota(d, scale, total) ==> c * scale % total > d * scale % total
  {
    var a, b := c * scale, d * scale;
    assert a > b by {
      MulLe(d + 1, c, scale, scale);
      MulAdd(d, 1, scale);
    }
    QuotientNatural(a, total);
    QuotientNatural(b, total);
    assert a == total * (a / total) + a % total && b == total * (b / total) + b % total;
    if a / total < b / total {
      MulLe(a / total + 1, b / total, total, total);
      MulAdd(a / total, 1, total);
    }
  }

  lemma SortedDistinct(part: seq<nat>, largest: bool, order: seq<nat>)
    requires Sorted(part, largest, order)
    ensures Distinct(order)
  {
    forall k, l | 0 <= k < l < |order| ensures order[k] != order[l] {
      assert Precedes(part, largest, order[k], order[l]);
    }
  }

  /** Larger fractions stand first when handing out, smaller ones when taking back. */
  lemma FractionFirst(part: seq<nat>, largest: bool, order: seq<nat>, a: nat, b: nat)
    requires Sorted(part, largest, order) && a in order && b in order
    ensures a < |part| && b < |part|
    ensures (if largest then part[a] > part[b] else part[a] < part[b]) ==> Earlier(order, a, b)
  {
    var k: nat :| k < |order| && order[k] == a;
    var l: nat :| l < |order| && order[l] == b;
    assert l < k ==> Precedes(part, largest, order[l], order[k]);
  }

  /** The symbols that get one of the units left over. */
  function Favoured(order: seq<nat>, extra: nat): seq<nat> {
    if extra < |order| then order[..extra] else order
  }

  lemma {:induction false} ToppedExactly(f: seq<nat>, order: seq<nat>, extra: nat, x: nat)
    requires Distinct(order) && (forall k :: 0 <= k < |order| ==> order[k] < |f|) && x < |f|
    ensures Topped(f, order, extra)[x] == f[x] + if x in Favoured(order, extra) then 1 else 0
    decreases |order|
  {
    hide Distinct;
    if extra > 0 && order != [] {
      FirstOnce(order);
      var more := f[order[0] := f[order[0]] + 1];
      ToppedExactly(more, order[1..], extra - 1, x);
      assert Favoured(order, extra) == [order[0]] + Favoured(order[1..], extra - 1);
      FavouredAmong(order[1..], extra - 1);
    }
  }

  lemma FavouredAmong(order: seq<nat>, extra: nat)
    ensures forall x :: x in Favoured(order, extra) ==> x in order
  {
  }

  /** `j`, rounded up from nothing to the single unit of `i`, gets a unit of what is left over,
      and `i` none. */
  ghost predicate Overtakes(counts: seq<nat>, order: seq<nat>, j: nat, i: nat)
    requires Sum(counts) > 0 && i < |counts| && j < |counts|
  {
    var total, f := Sum(counts), Shares(counts);
    && Sum(f) <= TOTAL && counts[j] > 0 && Quota(counts[j], TOTAL, total) == 0 && Quota(counts[i], TOTAL, total) == 1
    && var favoured := Favoured(order, TOTAL - Sum(f)); j in favoured && i !in favoured
  }

  /** Of two symbols the one that occurs more often gets no less, except exactly where a symbol
      rounded up from nothing overtakes it. */
  lemma MoreGetsMore(counts: seq<nat>, order: seq<nat>, i: nat, j: nat)
    requires Sum(counts) > 0 && PhaseTwo(counts, order) && i < |counts| && j < |counts| && counts[i] > counts[j]
    ensures Normalized(counts, order)[i] >= Normalized(counts, order)[j] <==> !Overtakes(counts, order, j, i)
  {
    hide SumTo, Quota, Precedes, Sorted, Topped, Reclaimed, Earlier, Distinct, Lists, Overtakes;
    var total, f, part := Sum(counts), Shares(counts), Parts(counts, TOTAL);
    SharesInOrder(counts, i, j);
    OvertakesIs(counts, order, j, i);
    if Sum(f) <= TOTAL {
      ListedAll(Above(counts, 0), part, true, order);
      SortedDistinct(part, true, order);
      ToppedExactly(f, order, TOTAL - Sum(f), i);
      ToppedExactly(f, order, TOTAL - Sum(f), j);
      if f[i] == f[j] && part[i] > part[j] {
        SharesOfPresent(counts, i, j);
        FractionFirst(part, true, order, i, j);
        ToppedFair(f, order, TOTAL - Sum(f), i, j);
      }
    } else {
      ListedAll(Above(f, 1), part, false, order);
      SortedDistinct(part, false, order);
      if f[i] == f[j] > 1 {
        FractionFirst(part, false, order, j, i);
      }
      ReclaimedFair(f, order, Sum(f) - TOTAL, i, j);
    }
  }

  lemma OvertakesIs(counts: seq<nat>, order: seq<nat>, j: nat, i: nat)
    requires Sum(counts) > 0 && i < |counts| && j < |counts|
    ensures var total, f := Sum(counts), Shares(counts);
      Overtakes(counts, order, j, i) <==>
        && Sum(f) <= TOTAL && counts[j] > 0 && Quota(counts[j], TOTAL, total) == 0 && Quota(counts[i], TOTAL, total) == 1
        && j in Favoured(order, TOTAL - Sum(f)) && i !in Favoured(order, TOTAL - Sum(f))
    ensures Overtakes(counts, order, j, i) ==> Shares(counts)[i] == Shares(counts)[j] == 1
  {
    hide SumTo, Quota, Favoured;
    QuotaOfNone(Sum(counts));
  }

  lemma SharesOfPresent(counts: seq<nat>, i: nat, j: nat)
    requires Sum(counts) > 0 && i < |counts| && j < |counts| && counts[i] > counts[j] && Shares(counts)[i] == Shares(counts)[j]
    ensures counts[j] > 0
  {
    hide SumTo, Quota;
  }

  /** The larger count has no smaller share; equal shares leave it the larger fraction, unless
      the other was rounded up from nothing. */
  lemma SharesInOrder(counts: seq<nat>, i: nat, j: nat)
    requires Sum(counts) > 0 && i < |counts| && j < |counts| && counts[i] > counts[j]
    ensures var total, f, part := Sum(counts), Shares(counts), Parts(counts, TOTAL);
      && f[i] >= f[j]
      && (f[i] == f[j] && part[i] <= part[j] ==>
            counts[j] > 0 && Quota(counts[j], TOTAL, total) == 0 && Quota(counts[i], TOTAL, total) == 1)
  {
    hide SumTo, Quota;
    QuotaOrder(counts[i], counts[j], TOTAL, Sum(counts));
    QuotaOfNone(Sum(counts));
  }

  ghost predicate NoLess(counts: seq<nat>, freqs: seq<nat>, i: nat, j: nat)
    requires Sum(counts) > 0 && |freqs| == |counts| && i < |counts| && j < |counts|
  {
    counts[i] > counts[j] && (Quota(counts[j], TOTAL, Sum(counts)) >= 1 || Quota(counts[i], TOTAL, Sum(counts)) != 1) ==>
      freqs[i] >= freqs[j]
  }

  lemma NoLessIs(counts: seq<nat>, order: seq<nat>, i: nat, j: nat)
    requires Sum(counts) > 0 && PhaseTwo(counts, order) && i < |counts| && j < |counts|
    ensures |Normalized(counts, order)| == |counts| && NoLess(counts, Normalized(counts, order), i, j)
  {
    hide SumTo, Quota, Sorted, Lists, Topped, Reclaimed;
    NormalizedSums(counts, order);
    if counts[i] > counts[j] {
      MoreGetsMore(counts, order, i, j);
      OvertakesIs(counts, order, j, i);
    }
  }

  /** It does happen: of four symbols the one that occurs nine times gets more than the one that
      occurs ten times. */
  lemma RareOvertakes()
    ensures var counts, order := [20475, 20466, 10, 9], [3, 1, 0, 2];
      && Sum(counts) > 0 && PhaseTwo(counts, order) && Overtakes(counts, order, 3, 2)
      && Normalized(counts, order) == [2047, 2046, 1, 2]
  {
    var counts, order := [20475, 20466, 10, 9], [3, 1, 0, 2];
    assert SumTo(counts, 1) == 20475 && SumTo(counts, 2) == 40941 && SumTo(counts, 3) == 40951;
    assert Sum(counts) == 40960;
    assert Shares(counts) == [2047, 2046, 1, 1];
    var f := Shares(counts);
    assert SumTo(f, 1) == 2047 && SumTo(f, 2) == 4093 && SumTo(f, 3) == 4094 && SumTo(f, 4) == 4095;
    var left := Topped(f[3 := 2], [1, 0, 2], 0);
    assert left == f[3 := 2] && Topped(f, order, 1) == left;
    assert Favoured(order, 1) == [3];
    assert Parts(counts, TOTAL) == [20480, 24576, 0, 36864];
  }

  lemma ListedAll(eligible: seq<bool>, part: seq<nat>, largest: bool, order: seq<nat>)
    requires |part| == |eligible| && Sorted(part, largest, order) && Lists(eligible, order)
    ensures forall k :: 0 <= k < |order| ==> order[k] < |eligible|
    ensures forall i: nat :: i < |eligible| && eligible[i] ==> i in order
  {
    hide Precedes;
  }

  /** Handing out, no frequency ends more than one above its share; taking back, none ends above it. */
  lemma NearShare(counts: seq<nat>, order: seq<nat>, i: nat)
    requires Sum(counts) > 0 && PhaseTwo(counts, order) && i < |counts|
    ensures var s, r := Share(counts[i], Sum(counts)), Normalized(counts, order)[i];
      if Sum(Shares(counts)) <= TOTAL then s <= r <= s + 1 else r <= s
  {
    hide SumTo, Quota, Precedes, Sorted, Topped, Reclaimed, Distinct, Lists, Share;
    var f, part := Shares(counts), Parts(counts, TOTAL);
    if Sum(f) <= TOTAL {
      ListedAll(Above(counts, 0), part, true, order);
      SortedDistinct(part, true, order);
      ToppedOnce(f, order, TOTAL - Sum(f));
    } else {
      ListedAll(Above(f, 1), part, false, order);
      ReclaimedSums(f, order, Sum(f) - TOTAL);
    }
  }

  // ------------------------------------------------------------ the order-1 rows

  /** One quantum for each byte that occurs, the rest shared in proportion. */
  function Base(counts: seq<nat>): (f: seq<nat>)
    requires Sum(counts) > 0 && Present(counts) <= TOTAL
    ensures |f| == |counts|
    ensures forall i :: 0 <= i < |f| ==>
      f[i] == if counts[i] == 0 then 0 else 1 + Quota(counts[i], TOTAL - Present(counts), Sum(counts))
  {
    seq(|counts|, i requires 0 <= i < |counts| =>
      if counts[i] == 0 then 0 else 1 + Quota(counts[i], TOTAL - Present(counts), Sum(counts)))
  }

  lemma {:induction false} BaseSum(counts: seq<nat>, k: nat)
    requires Sum(counts) > 0 && Present(counts) <= TOTAL && k <= |counts|
    ensures SumTo(Base(counts), k)
         == PresentTo(counts, k) + SumTo(Quotas(counts, TOTAL - Present(counts), Sum(counts)), k)
  {
    hide Quota, Present;
    if k > 0 {
      BaseSum(counts, k - 1);
      QuotaStep(counts[k - 1], TOTAL - Present(counts), Sum(counts));
      var scale, total := TOTAL - Present(counts), Sum(counts);
      assert Base(counts)[k - 1] == if counts[k - 1] == 0 then 0 else 1 + Quota(counts[k - 1], scale, total);
      assert Quotas(counts, scale, total)[k - 1] == Quota(counts[k - 1], scale, total);
      if counts[k - 1] == 0 {
        NoQuota(scale, total);
      }
    }
  }

  lemma NoQuota(scale: nat, total: nat)
    requires total > 0
    ensures Quota(0, scale, total) == 0
  {
  }

  lemma BaseFits(counts: seq<nat>)
    requires Sum(counts) > 0 && Present(counts) <= TOTAL
    ensures Sum(Base(counts)) <= TOTAL < Sum(Base(counts)) + Present(counts)
  {
    BaseSum(counts, |counts|);
    LeftOver(counts, TOTAL - Present(counts));
  }

  ghost predicate ExactOrder(counts: seq<nat>, order: seq<nat>)
    requires Sum(counts) > 0 && Present(counts) <= TOTAL
  {
    Sorted(Parts(counts, TOTAL - Present(counts)), true, order) && Lists(Above(counts, 0), order)
  }

  ghost function Exact(counts: seq<nat>, order: seq<nat>): seq<nat>
    requires Sum(counts) > 0 && Present(counts) <= TOTAL && ExactOrder(counts, order)
  {
    BaseFits(counts);
    Topped(Base(counts), order, TOTAL - Sum(Base(counts)))
  }

  /** In the rows every symbol has a quantum of its own, so the order holds without exception. */
  lemma ExactMoreGetsMore(counts: seq<nat>, order: seq<nat>, i: nat, j: nat)
    requires Sum(counts) > 0 && Present(counts) <= TOTAL && ExactOrder(counts, order) && i < |counts| && j < |counts|
    requires counts[i] > counts[j]
    ensures Exact(counts, order)[i] >= Exact(counts, order)[j]
  {
    hide SumTo, PresentTo, Quota, Precedes, Sorted, Topped, Earlier, Distinct, Lists;
    var total, scale, f := Sum(counts), TOTAL - Present(counts), Base(counts);
    var part := Parts(counts, scale);
    BaseFits(counts);
    ListedAll(Above(counts, 0), part, true, order);
    SortedDistinct(part, true, order);
    if counts[j] == 0 {
      NotListed(Above(counts, 0), order, j);
      ToppedOnce(f, order, TOTAL - Sum(f));
    } else if scale > 0 {
      QuotaOrder(counts[i], counts[j], scale, total);
      assert part[i] == counts[i] * scale % total && part[j] == counts[j] * scale % total;
      assert f[i] == 1 + Quota(counts[i], scale, total) && f[j] == 1 + Quota(counts[j], scale, total);
      FractionFirst(part, true, order, i, j);
      ToppedFair(f, order, TOTAL - Sum(f), i, j);
    } else {
      BaseSum(counts, |counts|);
      ToppedNone(f, order);
      NothingShared(counts[i], total);
      NothingShared(counts[j], total);
    }
  }

  lemma ToppedNone(f: seq<nat>, order: seq<nat>)
    requires forall k :: 0 <= k < |order| ==> order[k] < |f|
    ensures Topped(f, order, 0) == f
  {
  }

  lemma NothingShared(c: nat, total: nat)
    requires total > 0
    ensures Quota(c, 0, total) == 0
  {
    assert c * 0 == 0;
  }

  lemma NotListed(eligible: seq<bool>, order: seq<nat>, j: nat)
    requires Lists(eligible, order) && j < |eligible| && !eligible[j]
    ensures j !in order
  {
  }

  ghost function RowOrder(counts: seq<nat>): (order: seq<nat>)
    requires Sum(counts) > 0 && Present(counts) <= TOTAL
    ensures ExactOrder(counts, order)
  {
    var part := Parts(counts, TOTAL - Present(counts));
    OrderExists(Above(counts, 0), part, true);
    OrderTo(Above(counts, 0), part, true, |counts|)
  }

  /** The frequencies of a row, a function of its counts. */
  ghost function RowFreqs(counts: seq<nat>): (freqs: seq<nat>)
    requires |counts| == 256
    ensures |freqs| == 256
  {
    PresentFits(counts, 256);
    if Sum(counts) == 0 then Uniform(256)
    else
      var order := RowOrder(counts);
      BaseFits(counts);
      Exact(counts, order)
  }

  lemma PresentFits(counts: seq<nat>, k: nat)
    requires k <= |counts|
    ensures PresentTo(counts, k) <= k
  {
  }

  /** The symbol counted more often gets no less. */
  lemma RowFreqsOrder(counts: seq<nat>, i: nat, j: nat)
    requires |counts| == 256 && i < 256 && j < 256 && counts[i] > counts[j]
    ensures RowFreqs(counts)[i] >= RowFreqs(counts)[j]
  {
    hide SumTo, PresentTo, Exact, RowOrder;
    PresentFits(counts, 256);
    SomeCount(counts, i, 256);
    ExactMoreGetsMore(counts, RowOrder(counts), i, j);
  }

  lemma {:induction false} SomeCount(f: seq<nat>, i: nat, k: nat)
    requires i < k <= |f| && f[i] > 0
    ensures SumTo(f, k) > 0
  {
    if i < k - 1 {
      SomeCount(f, i, k - 1);
    }
  }

  method BuildFromCounts(counts: seq<nat>) returns (freqs: seq<nat>)
    requires |counts| == 256
    ensures |freqs| == 256 && Sum(freqs) == TOTAL && freqs == RowFreqs(counts)
    ensures Sum(counts) == 0 ==> freqs == Uniform(256)
    ensures Sum(counts) > 0 ==> forall i :: 0 <= i < 256 ==> (freqs[i] > 0 <==> counts[i] > 0)
    ensures Sum(counts) > 0 ==> forall order :: ExactOrder(counts, order) ==> freqs == Exact(counts, order)
    ensures Sum(counts) > 0 ==> forall i, j :: 0 <= i < 256 && 0 <= j < 256 && counts[i] > counts[j] ==> freqs[i] >= freqs[j]
  {
    hide SumTo, PresentTo, Quota, Sorted, Lists, Topped, Quotas;
    var total := SumOf(counts);
    if total == 0 {
      freqs := Uniform(256);
      UniformSums(256);
      return;
    }
    var present := 0;
    PresentEmpty(counts);
    for i := 0 to 256
      invariant present == PresentTo(counts, i)
    {
      PresentNext(counts, i);
      if counts[i] > 0 {
        present := present + 1;
      }
    }
    var scale: nat := TOTAL - present;
    freqs := seq(256, i requires 0 <= i < 256 => if counts[i] == 0 then 0 else 1 + Quota(counts[i], scale, total));
    assert freqs == Base(counts);
    var handed := SumOf(freqs);
    BaseFits(counts);
    var part: seq<nat> := seq(256, i requires 0 <= i < 256 => counts[i] * scale % total);
    assert part == Parts(counts, scale);
    var order := SortIndices(Above(counts, 0), part, true);
    ListsAll(Above(counts, 0), part, true, order);
    ListsEvery(counts, order);
    OrderLength(counts, order, 256);
    ToppedSums(freqs, order, TOTAL - handed);
    freqs := TopUp(freqs, order, TOTAL - handed);
    forall other | ExactOrder(counts, other) ensures other == order
    {
      ListsSame(Above(counts, 0), order, other);
      OrderUnique(part, true, order, other);
    }
    forall i, j | 0 <= i < 256 && 0 <= j < 256 && counts[i] > counts[j] ensures freqs[i] >= freqs[j] {
      ExactMoreGetsMore(counts, order, i, j);
    }
  }

  lemma PresentEmpty(counts: seq<nat>)
    ensures PresentTo(counts, 0) == 0
  {
  }

  lemma PresentNext(counts: seq<nat>, i: nat)
    requires i < |counts|
    ensures PresentTo(counts, i + 1) == PresentTo(counts, i) + (if counts[i] > 0 then 1 else 0)
  {
  }

  lemma ListsEvery(counts: seq<nat>, order: seq<nat>)
    requires Lists(Above(counts, 0), order)
    ensures forall i: nat :: i < |counts| ==> (i in order <==> counts[i] > 0)
  {
  }

  lemma ListsSame(eligible: seq<bool>, a: seq<nat>, b: seq<nat>)
    requires Lists(eligible, a) && Lists(eligible, b)
    ensures forall i: nat :: i in a <==> i in b
  {
  }
}
