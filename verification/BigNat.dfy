/** Big integers in 64-bit limbs, changed in place, against the numbers they stand for. */
module BigNat {
  import opened Arithmetic
  import opened BitStrings

  const BASE: nat := 0x1_0000_0000_0000_0000
  const HALF: nat := 0x1_0000_0000

  type Limb = x: int | 0 <= x < 0x1_0000_0000_0000_0000

  function Pow(k: nat): (p: nat)
    ensures p >= 1
  {
    if k == 0 then 1 else BASE * Pow(k - 1)
  }

  /** Value of the lowest `k` limbs. */
  function LowLimbs(s: seq<Limb>, k: nat): nat
    requires k <= |s|
  {
    if k == 0 then 0 else LowLimbs(s, k - 1) + s[k - 1] * Pow(k - 1)
  }

  /** Value of the limbs from `k` up, as a number of its own. */
  function HighLimbs(s: seq<Limb>, k: nat): nat
    requires k <= |s|
    decreases |s| - k
  {
    if k == |s| then 0 else s[k] as int + BASE * HighLimbs(s, k + 1)
  }

  function Value(s: seq<Limb>): nat {
    LowLimbs(s, |s|)
  }

  lemma {:induction false} LowHigh(s: seq<Limb>, k: nat)
    requires k <= |s|
    ensures Value(s) == LowLimbs(s, k) + Pow(k) * HighLimbs(s, k)
    decreases |s| - k
  {
    if k < |s| {
      LowHigh(s, k + 1);
      Regroup(Pow(k), s[k], HighLimbs(s, k + 1));
    }
  }

  lemma Regroup(p: nat, x: nat, h: nat)
    ensures x * p + BASE * p * h == p * (x + BASE * h)
  {
  }

  lemma {:induction false} LowBound(s: seq<Limb>, k: nat)
    requires k <= |s|
    ensures LowLimbs(s, k) < Pow(k)
  {
    if k > 0 {
      LowBound(s, k - 1);
      MulLe(s[k - 1], BASE - 1, Pow(k - 1), Pow(k - 1));
    }
  }

  lemma {:induction false} LowSame(a: seq<Limb>, b: seq<Limb>, k: nat)
    requires k <= |a| && k <= |b| && forall i :: 0 <= i < k ==> a[i] == b[i]
    ensures LowLimbs(a, k) == LowLimbs(b, k)
  {
    if k > 0 {
      LowSame(a, b, k - 1);
    }
  }

  lemma {:induction false} HighSame(a: seq<Limb>, b: seq<Limb>, k: nat)
    requires k <= |a| == |b| && forall i :: k <= i < |a| ==> a[i] == b[i]
    ensures HighLimbs(a, k) == HighLimbs(b, k)
    decreases |a| - k
  {
    if k < |a| {
      HighSame(a, b, k + 1);
    }
  }

  /** No leading zero limb. */
  predicate Trimmed(s: seq<Limb>) {
    s == [] || s[|s| - 1] != 0
  }

  function Trim(s: seq<Limb>): (r: seq<Limb>)
    ensures Trimmed(r)
  {
    if s == [] || s[|s| - 1] != 0 then s else Trim(s[..|s| - 1])
  }

  lemma {:induction false} TrimKeeps(s: seq<Limb>)
    ensures Value(Trim(s)) == Value(s)
  {
    if s != [] && s[|s| - 1] == 0 {
      var n := |s| - 1;
      TrimKeeps(s[..n]);
      LowSame(s, s[..n], n);
    }
  }

  /** A trimmed number of more limbs is larger. */
  lemma LongerIsLarger(a: seq<Limb>, b: seq<Limb>)
    requires |a| < |b| && Trimmed(b)
    ensures Value(a) < Value(b)
  {
    LowBound(a, |a|);
    var n := |b| - 1;
    PowMonotone(|a|, n);
    MulLe(1, b[n], Pow(n), Pow(n));
  }

  lemma {:induction false} PowMonotone(i: nat, j: nat)
    requires i <= j
    ensures Pow(i) <= Pow(j)
    decreases j
  {
    if i < j {
      PowMonotone(i, j - 1);
    }
  }

  /** With equal limbs above, the first difference decides. */
  lemma DifferenceDecides(a: seq<Limb>, b: seq<Limb>, k: nat)
    requires k < |a| == |b| && a[k] < b[k] && forall i :: k < i < |a| ==> a[i] == b[i]
    ensures Value(a) < Value(b)
  {
    LowHigh(a, k + 1);
    LowHigh(b, k + 1);
    HighSame(a, b, k + 1);
    LowBound(a, k);
    MulLe(a[k] as int + 1, b[k], Pow(k), Pow(k));
    MulAdd(a[k], 1, Pow(k));
  }

  lemma TrimmedUnique(a: seq<Limb>, b: seq<Limb>)
    requires Trimmed(a) && Trimmed(b) && Value(a) == Value(b)
    ensures a == b
  {
    if |a| < |b| {
      LongerIsLarger(a, b);
    } else if |b| < |a| {
      LongerIsLarger(b, a);
    } else {
      SameLength(a, b, |a|);
    }
  }

  lemma {:induction false} SameLength(a: seq<Limb>, b: seq<Limb>, k: nat)
    requires |a| == |b| && k <= |a| && Value(a) == Value(b) && forall i :: k <= i < |a| ==> a[i] == b[i]
    ensures a == b
    decreases k
  {
    if k > 0 {
      if a[k - 1] < b[k - 1] {
        DifferenceDecides(a, b, k - 1);
      } else if b[k - 1] < a[k - 1] {
        DifferenceDecides(b, a, k - 1);
      }
      SameLength(a, b, k - 1);
    }
  }

  class Big {
    var limbs: seq<Limb>

    ghost predicate Valid()
      reads this
    {
      Trimmed(limbs)
    }

    ghost function Num(): nat
      reads this
    {
      Value(limbs)
    }

    constructor Zero()
      ensures Valid() && Num() == 0
    {
      limbs := [];
    }

    constructor One()
      ensures Valid() && Num() == 1
    {
      limbs := [1];
      new;
      assert LowLimbs([1], 1) == LowLimbs([1], 0) + 1 * Pow(0);
    }

    constructor Copy(o: Big)
      requires o.Valid()
      ensures Valid() && Num() == o.Num()
    {
      limbs := o.limbs;
    }

    method IsZero() returns (z: bool)
      requires Valid()
      ensures z <==> Num() == 0
    {
      z := limbs == [];
      if limbs != [] {
        LongerIsLarger([], limbs);
      }
    }

    method MulSmall(m: Limb)
      requires Valid()
      modifies this
      ensures Valid() && Num() == old(Num()) * m
    {
      ghost var was := limbs;
      var carry: nat := 0;
      var i := 0;
      while i < |limbs|
        invariant 0 <= i <= |limbs| == |was| && carry < BASE
        invariant forall k :: i <= k < |was| ==> limbs[k] == was[k]
        invariant LowLimbs(limbs, i) + carry * Pow(i) == LowLimbs(was, i) * m
      {
        var x := limbs[i] as int * m as int + carry;
        ProductFits(limbs[i], m, carry, x);
        MulStep(LowLimbs(limbs, i), LowLimbs(was, i), Pow(i), carry, was[i], m, x);
        ghost var before := limbs;
        limbs := limbs[i := x % BASE];
        LowSame(before, limbs, i);
        carry := x / BASE;
        i := i + 1;
      }
      if carry > 0 {
        ghost var before := limbs;
        limbs := limbs + [carry];
        LowSame(before, limbs, |before|);
      }
      TrimKeeps(limbs);
      limbs := Trim(limbs);
    }

    /** Two native divisions a limb; the remainder of one half leads the next. */
    method DivSmall(d: nat) returns (rem: nat)
      requires Valid() && 0 < d < HALF
      modifies this
      ensures Valid() && old(Num()) == Num() * d + rem && rem < d
    {
      ghost var was := limbs;
      LowHigh(limbs, 0);
      rem := 0;
      var i := |limbs|;
      while i > 0
        invariant 0 <= i <= |limbs| == |was| && rem < d
        invariant forall k :: 0 <= k < i ==> limbs[k] == was[k]
        invariant HighLimbs(was, i) == HighLimbs(limbs, i) * d + rem
      {
        i := i - 1;
        var q, r := DivLimb(limbs[i], rem, d);
        ghost var before := limbs;
        limbs := limbs[i := q];
        HighSame(before, limbs, i + 1);
        DivStep(HighLimbs(was, i + 1), HighLimbs(before, i + 1), d, rem, was[i], q, r);
        rem := r;
      }
      LowHigh(limbs, 0);
      TrimKeeps(limbs);
      limbs := Trim(limbs);
    }

    static method DivLimb(limb: Limb, rem: nat, d: nat) returns (q: Limb, r: nat)
      requires rem < d < HALF
      ensures r < d && rem * BASE + limb == q * d + r
    {
      var hi: nat := rem * HALF + limb / HALF;
      QuotientNatural(hi, d);
      var qHi: nat, rHi: nat := hi / d, hi % d;
      var lo: nat := rHi * HALF + limb % HALF;
      QuotientNatural(lo, d);
      var qLo: nat, rLo: nat := lo / d, lo % d;
      HalvesDivide(rem, limb, d, hi, qHi, rHi, lo, qLo, rLo);
      q, r := qHi * HALF + qLo, rLo;
    }

    method Add(o: Big)
      requires Valid() && o.Valid() && o != this
      modifies this
      ensures Valid() && Num() == old(Num()) + o.Num()
    {
      hide LowLimbs, LowPart, Pow;
      LowPartNext(o.limbs, 0);
      if |limbs| < |o.limbs| {
        Padded(limbs, |o.limbs| - |limbs|);
        limbs := limbs + Zeros(|o.limbs| - |limbs|);
      }
      ghost var was := limbs;
      LowZero(was);
      var carry: nat := 0;
      var i := 0;
      while i < |limbs|
        invariant 0 <= i <= |limbs| == |was| && |o.limbs| <= |limbs| && carry <= 1
        invariant forall k :: i <= k < |was| ==> limbs[k] == was[k]
        invariant LowLimbs(limbs, i) + carry * Pow(i) == LowLimbs(was, i) + LowPart(o.limbs, i)
      {
        var s := limbs[i] as int + (if i < |o.limbs| then o.limbs[i] else 0) as int + carry;
        ghost var before := limbs;
        LowNext(was, i);
        LowPartNext(o.limbs, i);
        AddStep(LowLimbs(limbs, i), LowLimbs(was, i) + LowPart(o.limbs, i), Pow(i), carry, was[i], if i < |o.limbs| then o.limbs[i] else 0, s);
        limbs := limbs[i := s % BASE];
        LowSame(before, limbs, i);
        LowNext(limbs, i);
        carry := s / BASE;
        i := i + 1;
      }
      ghost var before := limbs;
      LowPartNext(o.limbs, |limbs|);
      if carry > 0 {
        limbs := limbs + [carry];
        LowSame(before, limbs, |before|);
        LowNext(limbs, |before|);
      }
      SumTrimmed(was, limbs, o.limbs);
    }

    method Sub(o: Big)
      requires Valid() && o.Valid() && o != this && o.Num() <= Num()
      modifies this
      ensures Valid() && Num() == old(Num()) - o.Num()
    {
      hide LowLimbs, LowPart, Pow;
      NoLonger(o.limbs, limbs);
      LowPartNext(o.limbs, 0);
      LowZero(limbs);
      ghost var was := limbs;
      var borrow: nat := 0;
      var i := 0;
      while i < |limbs|
        invariant 0 <= i <= |limbs| == |was| && |o.limbs| <= |limbs| && borrow <= 1
        invariant forall k :: i <= k < |was| ==> limbs[k] == was[k]
        invariant LowLimbs(limbs, i) + LowPart(o.limbs, i) == LowLimbs(was, i) + borrow * Pow(i)
      {
        var d := limbs[i] as int - (if i < |o.limbs| then o.limbs[i] else 0) as int - borrow;
        ghost var before := limbs;
        LowNext(was, i);
        LowPartNext(o.limbs, i);
        SubStep(LowLimbs(limbs, i), LowPart(o.limbs, i), LowLimbs(was, i), Pow(i), borrow, was[i], if i < |o.limbs| then o.limbs[i] else 0, d);
        limbs := limbs[i := if d < 0 then d + BASE else d];
        LowSame(before, limbs, i);
        LowNext(limbs, i);
        borrow := if d < 0 then 1 else 0;
        i := i + 1;
      }
      NoBorrowLeft(limbs, was, o.limbs, borrow);
      TrimKeeps(limbs);
      limbs := Trim(limbs);
    }

    /** Position of the highest set bit, counted from 1. */
    method BitLength() returns (n: nat)
      requires Valid()
      ensures Num() < Pow2(n) && (n > 0 ==> Pow2(n - 1) <= Num())
    {
      hide Pow2, LowLimbs, Pow;
      if |limbs| == 0 {
        LowZero(limbs);
        return 0;
      }
      var k := |limbs| - 1;
      var top: nat := limbs[k];
      n := 0;
      var bit: nat := 1;
      PowersMeet(0);
      while bit <= top
        invariant bit == Pow2(n) && n <= 64 && (n > 0 ==> Pow2(n - 1) <= top)
        decreases top - bit
      {
        NextPower(n);
        n := n + 1;
        bit := 2 * bit;
      }
      TopLimb(limbs, n);
      n := n + 64 * k;
    }

    method Bit(i: nat) returns (b: bool)
      requires Valid()
      ensures b == BitOf(Num(), i)
    {
      if i / 64 < |limbs| {
        LimbBit(limbs, i / 64, i % 64);
        b := BitOf(limbs[i / 64], i % 64);
      } else {
        LowBound(limbs, |limbs|);
        PowersMeet(|limbs|);
        LowHigh(limbs, |limbs|);
        Pow2Grows(64 * |limbs|, i);
        NoBitAbove(Num(), i);
        b := false;
      }
    }

    method Compare(o: Big) returns (c: int)
      requires Valid() && o.Valid()
      ensures c < 0 <==> Num() < o.Num()
      ensures c == 0 <==> Num() == o.Num()
    {
      if |limbs| < |o.limbs| {
        LongerIsLarger(limbs, o.limbs);
        return -1;
      }
      if |limbs| > |o.limbs| {
        LongerIsLarger(o.limbs, limbs);
        return 1;
      }
      var i := |limbs|;
      while i > 0
        invariant 0 <= i <= |limbs| && forall k :: i <= k < |limbs| ==> limbs[k] == o.limbs[k]
      {
        i := i - 1;
        if limbs[i] < o.limbs[i] {
          DifferenceDecides(limbs, o.limbs, i);
          return -1;
        }
        if limbs[i] > o.limbs[i] {
          DifferenceDecides(o.limbs, limbs, i);
          return 1;
        }
      }
      assert limbs == o.limbs;
      c := 0;
    }
  }

  // ------------------------------------------------------------ one limb at a time

  lemma ProductFits(a: nat, m: nat, carry: nat, x: nat)
    requires a < BASE && m < BASE && carry < BASE && x == a * m + carry
    ensures 0 <= x / BASE < BASE && 0 <= x % BASE < BASE
  {
    MulLe(a, BASE - 1, m, BASE - 1);
  }

  lemma MulStep(low: nat, was: nat, p: nat, carry: nat, a: nat, m: nat, x: nat)
    requires low + carry * p == was * m && x == a * m + carry
    ensures low + x % BASE * p + x / BASE * (BASE * p) == (was + a * p) * m
  {
    var q, r := x / BASE, x % BASE;
    assert x == BASE * q + r;
    Carry(q, r, p, x);
    MulAdd(a * m, carry, p);
    MulAdd(was, a * p, m);
    Reorder(a, m, p);
  }

  lemma Carry(q: nat, r: nat, p: nat, x: nat)
    requires x == BASE * q + r
    ensures r * p + q * (BASE * p) == x * p
  {
    MulAdd(BASE * q, r, p);
    MulAssoc(q, BASE, p);
  }

  lemma Reorder(a: nat, m: nat, p: nat)
    ensures a * m * p == a * p * m
  {
    MulAssoc(a, m, p);
    MulAssoc(a, p, m);
  }

  lemma HalvesDivide(rem: nat, limb: nat, d: nat, hi: nat, qHi: nat, rHi: nat, lo: nat, qLo: nat, rLo: nat)
    requires rem < d < HALF && limb < BASE && d > 0
    requires hi == rem * HALF + limb / HALF && qHi == hi / d && rHi == hi % d
    requires lo == rHi * HALF + limb % HALF && qLo == lo / d && rLo == lo % d
    ensures rLo < d && qHi < HALF && qLo < HALF
    ensures rem * BASE + limb == (qHi * HALF + qLo) * d + rLo
  {
    DivideBy(hi, d, qHi, rHi);
    DivideBy(lo, d, qLo, rLo);
    QuotientSmall(hi, d, rem, limb / HALF, qHi);
    QuotientSmall(lo, d, rHi, limb % HALF, qLo);
    assert limb == HALF * (limb / HALF) + limb % HALF;
    Combine(qHi, qLo, d);
  }

  lemma QuotientNatural(v: nat, d: nat)
    requires d > 0
    ensures v / d >= 0 && 0 <= v % d < d
  {
  }

  lemma DivideBy(v: nat, d: nat, q: nat, r: nat)
    requires d > 0 && q == v / d && r == v % d
    ensures v == q * d + r && r < d
  {
    assert v == d * (v / d) + v % d;
  }

  lemma QuotientSmall(v: nat, d: nat, rem: nat, low: nat, q: nat)
    requires rem < d && low < HALF && v == rem * HALF + low && d > 0 && q == v / d
    ensures q < HALF
  {
    DivideBy(v, d, q, v % d);
    if q >= HALF {
      MulLe(HALF, q, d, d);
    }
  }

  lemma Combine(qHi: nat, qLo: nat, d: nat)
    ensures (qHi * HALF + qLo) * d == qHi * d * HALF + qLo * d
  {
    MulAdd(qHi * HALF, qLo, d);
  }

  lemma DivStep(was: nat, now: nat, d: nat, rem: nat, limb: nat, q: nat, r: nat)
    requires was == now * d + rem && rem * BASE + limb == q * d + r
    ensures limb + BASE * was == (q + BASE * now) * d + r
  {
    MulAdd(q, BASE * now, d);
    MulAssoc(BASE, now, d);
  }

  function LowPart(s: seq<Limb>, k: nat): nat {
    LowLimbs(s, if k < |s| then k else |s|)
  }

  function Zeros(k: nat): (z: seq<Limb>)
    ensures |z| == k && forall i :: 0 <= i < k ==> z[i] == 0
  {
    seq(k, i => 0)
  }

  lemma {:induction false} Padded(s: seq<Limb>, k: nat)
    ensures Value(s + Zeros(k)) == Value(s)
  {
    LowSame(s, s + Zeros(k), |s|);
    PaddedTo(s, k, |s| + k);
  }

  lemma {:induction false} PaddedTo(s: seq<Limb>, k: nat, i: nat)
    requires |s| <= i <= |s| + k
    ensures LowLimbs(s + Zeros(k), i) == LowLimbs(s + Zeros(k), |s|)
    decreases i
  {
    if i > |s| {
      PaddedTo(s, k, i - 1);
      assert (s + Zeros(k))[i - 1] == 0;
    }
  }

  lemma LowNext(s: seq<Limb>, i: nat)
    requires i < |s|
    ensures LowLimbs(s, i + 1) == LowLimbs(s, i) + s[i] * Pow(i) && LowLimbs(s, 0) == 0
    ensures Pow(i + 1) == BASE * Pow(i)
  {
  }

  lemma LowZero(s: seq<Limb>)
    ensures LowLimbs(s, 0) == 0
  {
  }

  lemma LowPartNext(s: seq<Limb>, i: nat)
    ensures LowPart(s, i + 1) == LowPart(s, i) + (if i < |s| then s[i] else 0) * Pow(i)
    ensures LowPart(s, 0) == 0 && (i >= |s| ==> LowPart(s, i) == Value(s))
  {
  }

  lemma AddStep(low: nat, was: nat, p: nat, carry: nat, a: nat, b: nat, s: nat)
    requires low + carry * p == was && s == a + b + carry
    ensures low + s % BASE * p + s / BASE * (BASE * p) == was + a * p + b * p
  {
    Carry(s / BASE, s % BASE, p, s);
    MulAdd(a + b, carry, p);
    MulAdd(a, b, p);
  }

  lemma SubStep(low: nat, part: nat, was: nat, p: nat, borrow: nat, a: nat, b: nat, d: int)
    requires low + part == was + borrow * p && d == a - b - borrow
    ensures low + (if d < 0 then d + BASE else d) * p + part + b * p == was + a * p + (if d < 0 then 1 else 0) * (BASE * p)
  {
    MulAdd(d, BASE, p);
    MulAdd(a, 0 - (b as int) - borrow, p);
    MulAdd(0 - (b as int), 0 - (borrow as int), p);
    MulAdd(0 - (b as int), b, p);
    MulAdd(0 - (borrow as int), borrow, p);
  }

  /** The sum of a trimmed number and another is trimmed: it is at least as large. */
  lemma SumTrimmed(was: seq<Limb>, now: seq<Limb>, o: seq<Limb>)
    requires |o| <= |was| && (Trimmed(was) || |o| == |was|) && Trimmed(o)
    requires Value(now) == Value(was) + Value(o) && |was| <= |now| <= |was| + 1
    requires |now| == |was| + 1 ==> now[|was|] != 0
    ensures Trimmed(now)
  {
    if now != [] && |now| == |was| && now[|now| - 1] == 0 {
      var n := |now| - 1;
      LowBound(now, n);
      if Trimmed(was) {
        MulLe(1, was[n], Pow(n), Pow(n));
      } else {
        MulLe(1, o[n], Pow(n), Pow(n));
      }
    }
  }

  lemma NoLonger(a: seq<Limb>, b: seq<Limb>)
    requires Trimmed(a) && Value(a) <= Value(b)
    ensures |a| <= |b|
  {
    if |b| < |a| {
      LongerIsLarger(b, a);
    }
  }

  lemma NextPower(n: nat)
    ensures Pow2(n + 1) == 2 * Pow2(n)
  {
  }

  lemma {:induction false} PowersMeet(k: nat)
    ensures Pow(k) == Pow2(64 * k) && Pow2(0) == 1 && Pow2(64) == BASE
    decreases k
  {
    Pow64();
    if k > 0 {
      PowersMeet(k - 1);
      Pow2Add(64, 64 * (k - 1));
    }
  }

  lemma Pow64()
    ensures Pow2(64) == BASE
  {
    assert Pow2(8) == 256;
    hide Pow2;
    Pow2Add(8, 8);
    Pow2Add(16, 16);
    Pow2Add(32, 32);
  }

  /** The top limb's bits decide the number's. */
  lemma TopLimb(s: seq<Limb>, n: nat)
    requires s != [] && Trimmed(s) && s[|s| - 1] < Pow2(n) && (n > 0 ==> Pow2(n - 1) <= s[|s| - 1])
    ensures n > 0 && Value(s) < Pow2(n + 64 * (|s| - 1)) && Pow2(n - 1 + 64 * (|s| - 1)) <= Value(s)
  {
    hide Pow2, Pow;
    var k := |s| - 1;
    PowersMeet(k);
    LowBound(s, k);
    Pow2Add(n, 64 * k);
    MulLe(s[k] as int + 1, Pow2(n), Pow(k), Pow(k));
    MulAdd(s[k], 1, Pow(k));
    if n > 0 {
      Pow2Add(n - 1, 64 * k);
      MulLe(Pow2(n - 1), s[k], Pow(k), Pow(k));
    }
  }

  lemma Once(p: nat)
    ensures 1 * p == p && 0 * p == 0
  {
  }

  lemma NoBorrowLeft(now: seq<Limb>, was: seq<Limb>, o: seq<Limb>, borrow: nat)
    requires |now| == |was| && |o| <= |was| && borrow <= 1 && Value(o) <= Value(was)
    requires LowLimbs(now, |now|) + LowPart(o, |now|) == LowLimbs(was, |was|) + borrow * Pow(|was|)
    ensures borrow == 0 && Value(now) == Value(was) - Value(o)
  {
    LowBound(now, |now|);
    Once(Pow(|was|));
  }

  lemma {:induction false} Pow2Grows(i: nat, j: nat)
    requires i <= j
    ensures Pow2(i) <= Pow2(j)
    decreases j
  {
    if i < j {
      Pow2Grows(i, j - 1);
    }
  }

  lemma {:induction false} NoBitAbove(v: nat, i: nat)
    requires v < Pow2(i)
    ensures !BitOf(v, i)
  {
    if i > 0 {
      NoBitAbove(v / 2, i - 1);
    }
  }

  /** Skipping `n` low bits skips a remainder. */
  lemma {:induction false} BitBeyond(low: nat, high: nat, n: nat, i: nat)
    requires low < Pow2(n)
    ensures BitOf(low + Pow2(n) * high, n + i) == BitOf(high, i)
    ensures forall j: nat :: j < n ==> BitOf(low + Pow2(n) * high, j) == BitOf(low, j)
    decreases n
  {
    if n > 0 {
      var p := Pow2(n - 1);
      MulAssoc(2, p, high);
      var v := low + Pow2(n) * high;
      assert v == low + 2 * (p * high);
      assert v / 2 == low / 2 + p * high && v % 2 == low % 2;
      BitBeyond(low / 2, high, n - 1, i);
      forall j: nat | j < n ensures BitOf(v, j) == BitOf(low, j) {
        if j > 0 {
          assert BitOf(v / 2, j - 1) == BitOf(low / 2, j - 1);
        }
      }
    }
  }

  lemma LimbBit(s: seq<Limb>, k: nat, j: nat)
    requires k < |s| && j < 64
    ensures BitOf(Value(s), 64 * k + j) == BitOf(s[k], j)
  {
    hide BitOf, Pow2;
    LowHigh(s, k);
    LowBound(s, k);
    PowersMeet(k);
    BitBeyond(LowLimbs(s, k), HighLimbs(s, k), 64 * k, j);
    BitBeyond(s[k], HighLimbs(s, k + 1), 64, 0);
  }
}
