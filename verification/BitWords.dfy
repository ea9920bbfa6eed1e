/** Numbers as words of bits, written from either end. */
module BitWords {
  import opened Arithmetic
  import opened BitStrings

  /** The low `len` bits of `v`, low bit first. */
  function Lsb(v: nat, len: nat): (s: seq<bool>)
    ensures |s| == len
    decreases len, v
  {
    if len == 0 then [] else [v % 2 == 1] + Lsb(v / 2, len - 1)
  }

  /** The low `len` bits of `v`, high bit first. */
  function Msb(v: nat, len: nat): (s: seq<bool>)
    ensures |s| == len
    decreases len, v
  {
    if len == 0 then [] else Msb(v / 2, len - 1) + [v % 2 == 1]
  }

  /** The number written low bit first. */
  function Value(s: seq<bool>): (v: nat)
    ensures v < Pow2(|s|)
  {
    if s == [] then 0 else (if s[0] then 1 else 0) + 2 * Value(s[1..])
  }

  lemma {:induction false} ValueOfLsb(v: nat, len: nat)
    requires v < Pow2(len)
    ensures Value(Lsb(v, len)) == v
    decreases len
  {
    if len > 0 {
      ValueOfLsb(v / 2, len - 1);
      assert Lsb(v, len)[1..] == Lsb(v / 2, len - 1);
    }
  }

  lemma {:induction false} LsbOfValue(s: seq<bool>)
    ensures Lsb(Value(s), |s|) == s
  {
    if s != [] {
      LsbOfValue(s[1..]);
      assert s == [s[0]] + s[1..];
    }
  }

  /** The low `k` bits and the rest. */
  lemma {:induction false} LsbSplit(v: nat, w: nat, k: nat, m: nat)
    requires v < Pow2(k)
    ensures Lsb(v + w * Pow2(k), k + m) == Lsb(v, k) + Lsb(w, m)
    decreases k
  {
    if k == 0 {
      assert v + w * Pow2(0) == w;
      assert Lsb(v, 0) + Lsb(w, m) == Lsb(w, m);
    } else {
      var p := Pow2(k - 1);
      MulTwice(w, p);
      LsbSplit(v / 2, w, k - 1, m);
      Halve(v, w * p);
      assert Lsb(v + w * Pow2(k), k + m) == [v % 2 == 1] + Lsb(v / 2 + w * p, k - 1 + m);
      assert [v % 2 == 1] + (Lsb(v / 2, k - 1) + Lsb(w, m)) == [v % 2 == 1] + Lsb(v / 2, k - 1) + Lsb(w, m);
    }
  }

  lemma Halve(v: nat, x: nat)
    ensures (v + 2 * x) % 2 == v % 2 && (v + 2 * x) / 2 == v / 2 + x
  {
  }

  /** Bits of `v` moved one by one onto the low end of `r`. */
  function Mirrored(r: nat, v: nat, count: nat): nat
    decreases count, v
  {
    if count == 0 then r else Mirrored(2 * r + v % 2, v / 2, count - 1)
  }

  lemma {:induction false} ReversedBits(r: nat, v: nat, count: nat, k: nat)
    ensures Lsb(Mirrored(r, v, count), count + k) == Msb(v, count) + Lsb(r, k)
    decreases count
  {
    if count == 0 {
      assert Msb(v, 0) + Lsb(r, k) == Lsb(r, k);
    } else {
      var b := v % 2;
      ReversedBits(2 * r + b, v / 2, count - 1, k + 1);
      assert Lsb(2 * r + b, k + 1) == [b == 1] + Lsb(r, k);
      assert Msb(v / 2, count - 1) + ([b == 1] + Lsb(r, k)) == Msb(v / 2, count - 1) + [b == 1] + Lsb(r, k);
    }
  }

  lemma {:induction false} ReversedBound(r: nat, v: nat, count: nat, k: nat)
    requires r < Pow2(k)
    ensures Mirrored(r, v, count) < Pow2(k + count)
    decreases count
  {
    if count > 0 {
      ReversedBound(2 * r + v % 2, v / 2, count - 1, k + 1);
    }
  }

  /** Writing the reversed code low bit first writes the code high bit first. */
  lemma ReverseForStream(v: nat, len: nat)
    ensures Mirrored(0, v, len) < Pow2(len) && Lsb(Mirrored(0, v, len), len) == Msb(v, len)
  {
    ReversedBits(0, v, len, 0);
    ReversedBound(0, v, len, 0);
    assert Msb(v, len) + Lsb(0, 0) == Msb(v, len);
  }

  method ReverseBits(value: nat, count: nat) returns (result: nat)
    ensures result == Mirrored(0, value, count)
  {
    result := 0;
    var v := value;
    for i := 0 to count
      invariant Mirrored(result, v, count - i) == Mirrored(0, value, count)
    {
      result := 2 * result + v % 2;
      v := v / 2;
    }
  }

  /** The number whose high-bit-first word starts with that of `a` lies in a's slot. */
  lemma {:induction false} PrefixValue(a: nat, la: nat, b: nat, lb: nat)
    requires la <= lb && a < Pow2(la) && b < Pow2(lb) && Msb(a, la) <= Msb(b, lb)
    ensures a * Pow2(lb - la) <= b < (a + 1) * Pow2(lb - la)
    decreases lb
  {
    if la == lb {
      MsbInjective(a, b, la);
    } else {
      assert Msb(b, lb) == Msb(b / 2, lb - 1) + [b % 2 == 1];
      PrefixValue(a, la, b / 2, lb - 1);
      var p := Pow2(lb - 1 - la);
      MulTwice(a, p);
      MulTwice(a + 1, p);
    }
  }

  lemma {:induction false} MsbInjective(a: nat, b: nat, len: nat)
    requires a < Pow2(len) && b < Pow2(len) && Msb(a, len) == Msb(b, len)
    ensures a == b
    decreases len
  {
    if len > 0 {
      var x, y := Msb(a, len), Msb(b, len);
      assert x[..len - 1] == Msb(a / 2, len - 1) && y[..len - 1] == Msb(b / 2, len - 1);
      assert x[len - 1] == (a % 2 == 1) && y[len - 1] == (b % 2 == 1);
      MsbInjective(a / 2, b / 2, len - 1);
    }
  }
}
