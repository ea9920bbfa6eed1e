/** Numbers bit by bit, with shifts written as repeated halving and doubling. */
module BitStrings {
  function Pow2(k: nat): (r: nat)
    ensures r >= 1
  {
    if k == 0 then 1 else 2 * Pow2(k - 1)
  }

  lemma {:induction false} Pow2Add(i: nat, j: nat)
    ensures Pow2(i + j) == Pow2(i) * Pow2(j)
    decreases i
  {
    if i > 0 {
      Pow2Add(i - 1, j);
      assert Pow2(i + j) == 2 * Pow2((i - 1) + j);
      assert 2 * (Pow2(i - 1) * Pow2(j)) == Pow2(i) * Pow2(j);
    }
  }

  /** Bit `i` of `v`, least significant first. */
  predicate BitOf(v: nat, i: nat) {
    if i == 0 then v % 2 == 1 else BitOf(v / 2, i - 1)
  }

  function Shr(v: nat, i: nat): nat {
    if i == 0 then v else Shr(v / 2, i - 1)
  }

  lemma {:induction false} ShrNext(v: nat, i: nat)
    ensures BitOf(v, i) == (Shr(v, i) % 2 == 1)
    ensures Shr(v, i + 1) == Shr(v, i) / 2
  {
    if i > 0 {
      ShrNext(v / 2, i - 1);
    }
  }

  /** The low `k` bits of `v`. */
  function Low(v: nat, k: nat): nat {
    if k == 0 then 0 else 2 * Low(v / 2, k - 1) + v % 2
  }

  lemma {:induction false} LowBits(v: nat, k: nat)
    ensures Low(v, k + 1) == Low(v, k) + if BitOf(v, k) then Pow2(k) else 0
    ensures Low(v, k) < Pow2(k)
  {
    if k > 0 {
      LowBits(v / 2, k - 1);
    }
  }

  lemma {:induction false} LowIsAll(v: nat, k: nat)
    requires v < Pow2(k)
    ensures Low(v, k) == v
  {
    if k > 0 {
      LowIsAll(v / 2, k - 1);
    }
  }

  /** `acc` with the low `count` bits of `value` shifted in, high bit first. */
  function ShiftedIn(acc: nat, value: nat, count: nat): nat
    decreases count, value
  {
    if count == 0 then acc
    else ShiftedIn(2 * acc + if BitOf(value, count - 1) then 1 else 0, value, count - 1)
  }

  function Shl(a: nat, k: nat): nat
    decreases k
  {
    if k == 0 then a else Shl(2 * a, k - 1)
  }

  lemma {:induction false} ShlNext(a: nat, k: nat)
    ensures Shl(a + 1, k) == Shl(a, k) + Pow2(k)
    decreases k
  {
    if k > 0 {
      ShlNext(2 * a, k - 1);
      ShlNext(2 * a + 1, k - 1);
    }
  }

  lemma {:induction false} ShiftedInValue(acc: nat, value: nat, count: nat)
    ensures ShiftedIn(acc, value, count) == Shl(acc, count) + Low(value, count)
    ensures Shl(0, count) == 0 && Shl(1, count) == Pow2(count)
    decreases count
  {
    if count > 0 {
      var b := if BitOf(value, count - 1) then 1 else 0;
      ShiftedInValue(2 * acc + b, value, count - 1);
      LowBits(value, count - 1);
      ShlNext(2 * acc, count - 1);
      ShlNext(0, count);
    } else {
      assert Shl(1, 0) == 1;
    }
  }

  /** `acc` with the low `count` bits of `value` added, low bit first, from weight `w` up. */
  function PlacedIn(acc: nat, value: nat, w: nat, count: nat): nat
    decreases count, value
  {
    if count == 0 then acc
    else PlacedIn(acc + if value % 2 == 1 then w else 0, value / 2, 2 * w, count - 1)
  }

  lemma {:induction false} PlacedInValue(acc: nat, value: nat, w: nat, count: nat)
    ensures PlacedIn(acc, value, w, count) == acc + w * Low(value, count)
    decreases count
  {
    if count > 0 {
      var b := value % 2;
      assert b * w == if b == 1 then w else 0;
      PlacedInValue(acc + if b == 1 then w else 0, value / 2, 2 * w, count - 1);
      Distribute(w, Low(value / 2, count - 1), b);
    }
  }

  lemma Distribute(w: nat, x: nat, b: nat)
    ensures w * (2 * x + b) == 2 * w * x + b * w
  {
  }
}
