/** Polynomials with bits for coefficients, evaluated at powers of alpha: products, shifts and
    remainders, and which polynomials over the field are binary. */
module BinaryPolynomials {
  import opened Arithmetic
  import opened GaloisField
  import opened FieldProducts
  import opened BerlekampMassey
  import opened BchSyndrome

  // ------------------------------------------------------------ values

  function Term(m: Size, bit: bool, e: nat): Elem {
    if bit then Alpha(m, e) else ZERO
  }

  /** The value at the j-th power of alpha, low coefficient first. */
  function BitValue(m: Size, g: seq<bool>, j: nat): Elem {
    if g == [] then ZERO else Plus(BitValue(m, g[..|g| - 1], j), Term(m, g[|g| - 1], (|g| - 1) * j))
  }

  lemma BitValueSnoc(m: Size, g: seq<bool>, bit: bool, j: nat)
    ensures BitValue(m, g + [bit], j) == Plus(BitValue(m, g, j), Term(m, bit, |g| * j))
  {
    hide Plus, Alpha;
    assert (g + [bit])[..|g|] == g;
  }

  lemma {:induction false} BitValueInside(m: Size, g: seq<bool>, j: nat)
    ensures Inside(m, BitValue(m, g, j))
    decreases |g|
  {
    OneInside(m);
    hide Inside, Plus, Alpha;
    if g != [] {
      var n := |g| - 1;
      BitValueInside(m, g[..n], j);
      AlphaInside(m, n * j);
      PlusInside(m, BitValue(m, g[..n], j), Term(m, g[n], n * j));
    }
  }

  lemma TermXor(m: Size, a: bool, b: bool, e: nat)
    ensures Term(m, a != b, e) == Plus(Term(m, a, e), Term(m, b, e))
  {
    hide Plus, Alpha;
    PlusSelf(Alpha(m, e));
    PlusNone(Alpha(m, e));
    PlusNone(ZERO);
  }

  lemma {:induction false} BitValueXor(m: Size, a: seq<bool>, b: seq<bool>, j: nat)
    requires |a| == |b|
    ensures BitValue(m, Xor(a, b), j) == Plus(BitValue(m, a, j), BitValue(m, b, j))
    decreases |a|
  {
    hide Plus, Term;
    if a == [] {
      PlusNone(ZERO);
    } else {
      var n := |a| - 1;
      assert Xor(a, b)[..n] == Xor(a[..n], b[..n]);
      BitValueXor(m, a[..n], b[..n], j);
      TermXor(m, a[n], b[n], n * j);
      PlusShuffle(BitValue(m, a[..n], j), BitValue(m, b[..n], j), Term(m, a[n], n * j), Term(m, b[n], n * j));
    }
  }

  /** Zeros on top change nothing. */
  lemma {:induction false} BitValuePadded(m: Size, g: seq<bool>, n: nat, j: nat)
    requires |g| <= n
    ensures BitValue(m, Padded(g, n), j) == BitValue(m, g, j)
    decreases n
  {
    hide Plus, Alpha;
    if n == |g| {
      assert Padded(g, n) == g;
    } else {
      BitValuePadded(m, g, n - 1, j);
      assert Padded(g, n)[..n - 1] == Padded(g, n - 1);
      PlusNone(BitValue(m, g, j));
    }
  }

  lemma BitValueBlank(m: Size, n: nat, j: nat)
    ensures BitValue(m, Blank(n), j) == ZERO
  {
    assert Blank(n) == Padded([], n);
    BitValuePadded(m, [], n, j);
  }

  /** Zeros below: a factor for each. */
  lemma {:induction false} BitValueShifted(m: Size, g: seq<bool>, k: nat, j: nat)
    ensures BitValue(m, Blank(k) + g, j) == Product(m, Alpha(m, k * j), BitValue(m, g, j))
    decreases |g|
  {
    hide Plus, Alpha, Product, Inside;
    if g == [] {
      assert Blank(k) + g == Blank(k);
      BitValueBlank(m, k, j);
      TimesNone(m, Alpha(m, k * j));
    } else {
      var n := |g| - 1;
      var front, bit := g[..n], g[n];
      BitValueShifted(m, front, k, j);
      assert Blank(k) + g == (Blank(k) + front) + [bit] && g == front + [bit];
      BitValueSnoc(m, Blank(k) + front, bit, j);
      BitValueSnoc(m, front, bit, j);
      ProductPlus(m, Alpha(m, k * j), BitValue(m, front, j), Term(m, bit, n * j));
      ShiftedTerm(m, bit, k, n, j);
    }
  }

  lemma ShiftedTerm(m: Size, bit: bool, k: nat, n: nat, j: nat)
    ensures Term(m, bit, (k + n) * j) == Product(m, Alpha(m, k * j), Term(m, bit, n * j))
  {
    hide Alpha, Product;
    MulAdd(k, n, j);
    ProductOfPowers(m, k * j, n * j);
    TimesNone(m, Alpha(m, k * j));
  }

  lemma SliceIsShifted(g: seq<bool>, k: nat, n: nat)
    requires k + |g| <= n
    ensures Slice(g, -(k as int), n) == Padded(Blank(k) + g, n)
  {
  }

  /** The product of two binary polynomials. */
  lemma {:induction false} MultipleValue(m: Size, g: seq<bool>, q: seq<bool>, k: nat, n: nat, j: nat)
    requires k <= |q| && k + |g| <= n + 1
    ensures BitValue(m, Multiple(g, q, k, n), j) == Product(m, BitValue(m, g, j), BitValue(m, q[..k], j))
    decreases k
  {
    hide Plus, Alpha, Product, Inside, BitValue;
    var v := BitValue(m, g, j);
    if k == 0 {
      BitValueBlank(m, n, j);
      BitValueNone(m, j);
      TimesNone(m, v);
    } else {
      var x := Multiple(g, q, k - 1, n);
      var s := Slice(g, 1 - k, n);
      MultipleValue(m, g, q, k - 1, n, j);
      assert q[..k] == q[..k - 1] + [q[k - 1]];
      BitValueSnoc(m, q[..k - 1], q[k - 1], j);
      ProductPlus(m, v, BitValue(m, q[..k - 1], j), Term(m, q[k - 1], (k - 1) * j));
      TimesNone(m, v);
      PlusNone(BitValue(m, x, j));
      if q[k - 1] {
        BitValueXor(m, x, s, j);
        SliceIsShifted(g, k - 1, n);
        BitValuePadded(m, Blank(k - 1) + g, n, j);
        BitValueShifted(m, g, k - 1, j);
        BitValueInside(m, g, j);
        AlphaInside(m, (k - 1) * j);
        TimesSwaps(m, Alpha(m, (k - 1) * j), v);
      }
    }
  }

  lemma BitValueNone(m: Size, j: nat)
    ensures BitValue(m, [], j) == ZERO
  {
  }

  /** Where the generator vanishes, a pattern and its remainder have the same value. */
  lemma RemainderValue(m: Size, g: seq<bool>, e: seq<bool>, r: seq<bool>, j: nat)
    requires Monic(g) && Degree(g) <= |e| && IsRemainder(g, e, r) && BitValue(m, g, j) == ZERO
    ensures BitValue(m, e, j) == BitValue(m, r, j)
  {
    hide Plus, Product, BitValue, Multiple;
    var n, d := |e|, |e| - Degree(g);
    var q :| |q| == d && Multiple(g, q, d, n) == Xor(e, Padded(r, n));
    MultipleValue(m, g, q, d, n, j);
    TimesNone(m, BitValue(m, q[..d], j));
    BitValueXor(m, e, Padded(r, n), j);
    BitValuePadded(m, r, n, j);
    PlusDiffers(BitValue(m, e, j), BitValue(m, r, j));
  }
}
