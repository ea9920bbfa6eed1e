/** That alpha generates every field: its order is the number of nonzero elements. The
    powers that decide this are computed from one another by doubling and adding exponents. */
module PrimitiveElements {
  import opened Arithmetic
  import opened GaloisField

  /** A power from two smaller ones. */
  lemma StepTo(m: Size, i: nat, j: nat, u: Elem, v: Elem, w: Elem)
    requires Alpha(m, i) == u && Alpha(m, j) == v && Horner(Top(m), PrimPoly(m), u, v) == w
    ensures Alpha(m, i + j) == w
  {
    hide Alpha, Horner, PrimPoly, Product;
    ProductOfPowers(m, i, j);
    AlphaInside(m, j);
    InsideSmall(m, v);
    HornerIs(m, u, v);
  }

  lemma InsideSmall(m: Size, x: Elem)
    requires Inside(m, x)
    ensures x < 0x4000
  {
    hide Top;
    TopSmall(m);
  }

  lemma AlphaItself(m: Size)
    ensures Alpha(m, 0) == 1 && Alpha(m, 1) == 2
  {
    ShiftOnce(m);
    TwiceOne(m);
  }

  lemma ShiftOnce(m: Size)
    ensures Alpha(m, 0) == 1 && Alpha(m, 1) == Twice(m, 1)
  {
    hide Twice;
  }

  lemma TwiceOne(m: Size)
    ensures Twice(m, 1) == 2
  {
  }

  lemma Powers8At0()
    ensures Alpha(8, 2) == 0x4
    ensures Alpha(8, 4) == 0x10
    ensures Alpha(8, 8) == 0x1D
    ensures Alpha(8, 16) == 0x4C
    ensures Alpha(8, 32) == 0x9D
    ensures Alpha(8, 64) == 0x5F
  {
    hide Alpha;
    AlphaItself(8);
    StepTo(8, 1, 1, 0x2, 0x2, 0x4);
    StepTo(8, 2, 2, 0x4, 0x4, 0x10);
    StepTo(8, 4, 4, 0x10, 0x10, 0x1D);
    StepTo(8, 8, 8, 0x1D, 0x1D, 0x4C);
    StepTo(8, 16, 16, 0x4C, 0x4C, 0x9D);
    StepTo(8, 32, 32, 0x9D, 0x9D, 0x5F);
  }

  lemma Powers8At1()
    ensures Alpha(8, 128) == 0x85
    ensures Alpha(8, 256) == 0x2
    ensures Alpha(8, 5) == 0x20
    ensures Alpha(8, 21) == 0x75
    ensures Alpha(8, 85) == 0xD6
    ensures Alpha(8, 3) == 0x8
  {
    hide Alpha;
    AlphaItself(8);
    Powers8At0();
    StepTo(8, 64, 64, 0x5F, 0x5F, 0x85);
    StepTo(8, 128, 128, 0x85, 0x85, 0x2);
    StepTo(8, 4, 1, 0x10, 0x2, 0x20);
    StepTo(8, 16, 5, 0x4C, 0x20, 0x75);
    StepTo(8, 64, 21, 0x5F, 0x75, 0xD6);
    StepTo(8, 2, 1, 0x4, 0x2, 0x8);
  }

  lemma Powers8At2()
    ensures Alpha(8, 19) == 0x5A
    ensures Alpha(8, 51) == 0xA
    ensures Alpha(8, 7) == 0x80
    ensures Alpha(8, 15) == 0x26
  {
    hide Alpha;
    Powers8At0();
    Powers8At1();
    StepTo(8, 16, 3, 0x4C, 0x8, 0x5A);
    StepTo(8, 32, 19, 0x9D, 0x5A, 0xA);
    StepTo(8, 4, 3, 0x10, 0x8, 0x80);
    StepTo(8, 8, 7, 0x1D, 0x80, 0x26);
  }

  lemma Powers8()
    ensures Alpha(8, 256) == 2
    ensures Alpha(8, 85) != 1 && Alpha(8, 51) != 1 && Alpha(8, 15) != 1
  {
    hide Alpha;
    Powers8At0();
    Powers8At1();
    Powers8At2();
  }

  lemma Powers9At0()
    ensures Alpha(9, 2) == 0x4
    ensures Alpha(9, 4) == 0x10
    ensures Alpha(9, 8) == 0x100
    ensures Alpha(9, 16) == 0xC4
    ensures Alpha(9, 32) == 0xA9
    ensures Alpha(9, 64) == 0x52
  {
    hide Alpha;
    AlphaItself(9);
    StepTo(9, 1, 1, 0x2, 0x2, 0x4);
    StepTo(9, 2, 2, 0x4, 0x4, 0x10);
    StepTo(9, 4, 4, 0x10, 0x10, 0x100);
    StepTo(9, 8, 8, 0x100, 0x100, 0xC4);
    StepTo(9, 16, 16, 0xC4, 0xC4, 0xA9);
    StepTo(9, 32, 32, 0xA9, 0xA9, 0x52);
  }

  lemma Powers9At1()
    ensures Alpha(9, 128) == 0x18C
    ensures Alpha(9, 256) == 0xA5
    ensures Alpha(9, 512) == 0x2
    ensures Alpha(9, 9) == 0x11
    ensures Alpha(9, 73) == 0x150
    ensures Alpha(9, 3) == 0x8
  {
    hide Alpha;
    AlphaItself(9);
    Powers9At0();
    StepTo(9, 64, 64, 0x52, 0x52, 0x18C);
    StepTo(9, 128, 128, 0x18C, 0x18C, 0xA5);
    StepTo(9, 256, 256, 0xA5, 0xA5, 0x2);
    StepTo(9, 8, 1, 0x100, 0x2, 0x11);
    StepTo(9, 64, 9, 0x52, 0x11, 0x150);
    StepTo(9, 2, 1, 0x4, 0x2, 0x8);
  }

  lemma Powers9At2()
    ensures Alpha(9, 7) == 0x80
  {
    hide Alpha;
    Powers9At0();
    Powers9At1();
    StepTo(9, 4, 3, 0x10, 0x8, 0x80);
  }

  lemma Powers9()
    ensures Alpha(9, 512) == 2
    ensures Alpha(9, 73) != 1 && Alpha(9, 7) != 1
  {
    hide Alpha;
    Powers9At0();
    Powers9At1();
    Powers9At2();
  }

  lemma Powers10At0()
    ensures Alpha(10, 2) == 0x4
    ensures Alpha(10, 4) == 0x10
    ensures Alpha(10, 8) == 0x100
    ensures Alpha(10, 16) == 0x240
    ensures Alpha(10, 32) == 0x136
    ensures Alpha(10, 64) == 0x35D
  {
    hide Alpha;
    AlphaItself(10);
    StepTo(10, 1, 1, 0x2, 0x2, 0x4);
    StepTo(10, 2, 2, 0x4, 0x4, 0x10);
    StepTo(10, 4, 4, 0x10, 0x10, 0x100);
    StepTo(10, 8, 8, 0x100, 0x100, 0x240);
    StepTo(10, 16, 16, 0x240, 0x240, 0x136);
    StepTo(10, 32, 32, 0x136, 0x136, 0x35D);
  }

  lemma Powers10At1()
    ensures Alpha(10, 128) == 0x227
    ensures Alpha(10, 256) == 0x10E
    ensures Alpha(10, 512) == 0x214
    ensures Alpha(10, 1024) == 0x2
    ensures Alpha(10, 5) == 0x20
    ensures Alpha(10, 21) == 0x82
  {
    hide Alpha;
    AlphaItself(10);
    Powers10At0();
    StepTo(10, 64, 64, 0x35D, 0x35D, 0x227);
    StepTo(10, 128, 128, 0x227, 0x227, 0x10E);
    StepTo(10, 256, 256, 0x10E, 0x10E, 0x214);
    StepTo(10, 512, 512, 0x214, 0x214, 0x2);
    StepTo(10, 4, 1, 0x10, 0x2, 0x20);
    StepTo(10, 16, 5, 0x240, 0x20, 0x82);
  }

  lemma Powers10At2()
    ensures Alpha(10, 85) == 0x300
    ensures Alpha(10, 341) == 0xED
    ensures Alpha(10, 13) == 0x48
    ensures Alpha(10, 29) == 0x320
    ensures Alpha(10, 93) == 0x2C9
    ensures Alpha(10, 33) == 0x26C
  {
    hide Alpha;
    AlphaItself(10);
    Powers10At0();
    Powers10At1();
    StepTo(10, 64, 21, 0x35D, 0x82, 0x300);
    StepTo(10, 256, 85, 0x10E, 0x300, 0xED);
    StepTo(10, 8, 5, 0x100, 0x20, 0x48);
    StepTo(10, 16, 13, 0x240, 0x48, 0x320);
    StepTo(10, 64, 29, 0x35D, 0x320, 0x2C9);
    StepTo(10, 32, 1, 0x136, 0x2, 0x26C);
  }

  lemma Powers10()
    ensures Alpha(10, 1024) == 2
    ensures Alpha(10, 341) != 1 && Alpha(10, 93) != 1 && Alpha(10, 33) != 1
  {
    hide Alpha;
    Powers10At0();
    Powers10At1();
    Powers10At2();
  }

  lemma Powers11At0()
    ensures Alpha(11, 2) == 0x4
    ensures Alpha(11, 4) == 0x10
    ensures Alpha(11, 8) == 0x100
    ensures Alpha(11, 16) == 0xA0
    ensures Alpha(11, 32) == 0x428
    ensures Alpha(11, 64) == 0x645
  {
    hide Alpha;
    AlphaItself(11);
    StepTo(11, 1, 1, 0x2, 0x2, 0x4);
    StepTo(11, 2, 2, 0x4, 0x4, 0x10);
    StepTo(11, 4, 4, 0x10, 0x10, 0x100);
    StepTo(11, 8, 8, 0x100, 0x100, 0xA0);
    StepTo(11, 16, 16, 0xA0, 0xA0, 0x428);
    StepTo(11, 32, 32, 0x428, 0x428, 0x645);
  }

  lemma Powers11At1()
    ensures Alpha(11, 128) == 0x9E
    ensures Alpha(11, 256) == 0x17C
    ensures Alpha(11, 512) == 0x5FA
    ensures Alpha(11, 1024) == 0x7C3
    ensures Alpha(11, 2048) == 0x2
    ensures Alpha(11, 9) == 0x200
  {
    hide Alpha;
    AlphaItself(11);
    Powers11At0();
    StepTo(11, 64, 64, 0x645, 0x645, 0x9E);
    StepTo(11, 128, 128, 0x9E, 0x9E, 0x17C);
    StepTo(11, 256, 256, 0x17C, 0x17C, 0x5FA);
    StepTo(11, 512, 512, 0x5FA, 0x5FA, 0x7C3);
    StepTo(11, 1024, 1024, 0x7C3, 0x7C3, 0x2);
    StepTo(11, 8, 1, 0x100, 0x2, 0x200);
  }

  lemma Powers11At2()
    ensures Alpha(11, 25) == 0x88
    ensures Alpha(11, 89) == 0x142
    ensures Alpha(11, 3) == 0x8
    ensures Alpha(11, 7) == 0x80
    ensures Alpha(11, 23) == 0x22
  {
    hide Alpha;
    AlphaItself(11);
    Powers11At0();
    Powers11At1();
    StepTo(11, 16, 9, 0xA0, 0x200, 0x88);
    StepTo(11, 64, 25, 0x645, 0x88, 0x142);
    StepTo(11, 2, 1, 0x4, 0x2, 0x8);
    StepTo(11, 4, 3, 0x10, 0x8, 0x80);
    StepTo(11, 16, 7, 0xA0, 0x80, 0x22);
  }

  lemma Powers11()
    ensures Alpha(11, 2048) == 2
    ensures Alpha(11, 89) != 1 && Alpha(11, 23) != 1
  {
    hide Alpha;
    Powers11At0();
    Powers11At1();
    Powers11At2();
  }

  lemma Powers12At0()
    ensures Alpha(12, 2) == 0x4
    ensures Alpha(12, 4) == 0x10
    ensures Alpha(12, 8) == 0x100
    ensures Alpha(12, 16) == 0x530
    ensures Alpha(12, 32) == 0x22F
    ensures Alpha(12, 64) == 0xC6
  {
    hide Alpha;
    AlphaItself(12);
    StepTo(12, 1, 1, 0x2, 0x2, 0x4);
    StepTo(12, 2, 2, 0x4, 0x4, 0x10);
    StepTo(12, 4, 4, 0x10, 0x10, 0x100);
    StepTo(12, 8, 8, 0x100, 0x100, 0x530);
    StepTo(12, 16, 16, 0x530, 0x530, 0x22F);
    StepTo(12, 32, 32, 0x22F, 0x22F, 0xC6);
  }

  lemma Powers12At1()
    ensures Alpha(12, 128) == 0x10B
    ensures Alpha(12, 256) == 0x575
    ensures Alpha(12, 512) == 0x26D
    ensures Alpha(12, 1024) == 0x91
    ensures Alpha(12, 2048) == 0x4D
    ensures Alpha(12, 4096) == 0x2
  {
    hide Alpha;
    Powers12At0();
    StepTo(12, 64, 64, 0xC6, 0xC6, 0x10B);
    StepTo(12, 128, 128, 0x10B, 0x10B, 0x575);
    StepTo(12, 256, 256, 0x575, 0x575, 0x26D);
    StepTo(12, 512, 512, 0x26D, 0x26D, 0x91);
    StepTo(12, 1024, 1024, 0x91, 0x91, 0x4D);
    StepTo(12, 2048, 2048, 0x4D, 0x4D, 0x2);
  }

  lemma Powers12At2()
    ensures Alpha(12, 5) == 0x20
    ensures Alpha(12, 21) == 0x43E
    ensures Alpha(12, 85) == 0x754
    ensures Alpha(12, 341) == 0x1B2
    ensures Alpha(12, 1365) == 0x46
    ensures Alpha(12, 3) == 0x8
  {
    hide Alpha;
    AlphaItself(12);
    Powers12At0();
    Powers12At1();
    StepTo(12, 4, 1, 0x10, 0x2, 0x20);
    StepTo(12, 16, 5, 0x530, 0x20, 0x43E);
    StepTo(12, 64, 21, 0xC6, 0x43E, 0x754);
    StepTo(12, 256, 85, 0x575, 0x754, 0x1B2);
    StepTo(12, 1024, 341, 0x91, 0x1B2, 0x46);
    StepTo(12, 2, 1, 0x4, 0x2, 0x8);
  }

  lemma Powers12At3()
    ensures Alpha(12, 19) == 0x926
    ensures Alpha(12, 51) == 0x31E
    ensures Alpha(12, 307) == 0xD02
    ensures Alpha(12, 819) == 0xC8E
    ensures Alpha(12, 9) == 0x200
    ensures Alpha(12, 73) == 0xBA8
  {
    hide Alpha;
    AlphaItself(12);
    Powers12At0();
    Powers12At1();
    Powers12At2();
    StepTo(12, 16, 3, 0x530, 0x8, 0x926);
    StepTo(12, 32, 19, 0x22F, 0x926, 0x31E);
    StepTo(12, 256, 51, 0x575, 0x31E, 0xD02);
    StepTo(12, 512, 307, 0x26D, 0xD02, 0xC8E);
    StepTo(12, 8, 1, 0x100, 0x2, 0x200);
    StepTo(12, 64, 9, 0xC6, 0x200, 0xBA8);
  }

  lemma Powers12At4()
    ensures Alpha(12, 585) == 0x3A9
    ensures Alpha(12, 11) == 0x800
    ensures Alpha(12, 27) == 0xAB0
    ensures Alpha(12, 59) == 0x103
    ensures Alpha(12, 315) == 0xA85
  {
    hide Alpha;
    Powers12At0();
    Powers12At1();
    Powers12At2();
    Powers12At3();
    StepTo(12, 512, 73, 0x26D, 0xBA8, 0x3A9);
    StepTo(12, 8, 3, 0x100, 0x8, 0x800);
    StepTo(12, 16, 11, 0x530, 0x800, 0xAB0);
    StepTo(12, 32, 27, 0x22F, 0xAB0, 0x103);
    StepTo(12, 256, 59, 0x575, 0x103, 0xA85);
  }

  lemma Powers12()
    ensures Alpha(12, 4096) == 2
    ensures Alpha(12, 1365) != 1 && Alpha(12, 819) != 1 && Alpha(12, 585) != 1 && Alpha(12, 315) != 1
  {
    hide Alpha;
    Powers12At0();
    Powers12At1();
    Powers12At2();
    Powers12At3();
    Powers12At4();
  }

  lemma Powers13At0()
    ensures Alpha(13, 2) == 0x4
    ensures Alpha(13, 4) == 0x10
    ensures Alpha(13, 8) == 0x100
    ensures Alpha(13, 16) == 0xD8
    ensures Alpha(13, 32) == 0x1176
    ensures Alpha(13, 64) == 0xD96
  {
    hide Alpha;
    AlphaItself(13);
    StepTo(13, 1, 1, 0x2, 0x2, 0x4);
    StepTo(13, 2, 2, 0x4, 0x4, 0x10);
    StepTo(13, 4, 4, 0x10, 0x10, 0x100);
    StepTo(13, 8, 8, 0x100, 0x100, 0xD8);
    StepTo(13, 16, 16, 0xD8, 0xD8, 0x1176);
    StepTo(13, 32, 32, 0x1176, 0x1176, 0xD96);
  }

  lemma Powers13At1()
    ensures Alpha(13, 128) == 0x1A61
    ensures Alpha(13, 256) == 0x1920
    ensures Alpha(13, 512) == 0xA99
    ensures Alpha(13, 1024) == 0x140C
    ensures Alpha(13, 2048) == 0x158A
    ensures Alpha(13, 4096) == 0x1570
  {
    hide Alpha;
    Powers13At0();
    StepTo(13, 64, 64, 0xD96, 0xD96, 0x1A61);
    StepTo(13, 128, 128, 0x1A61, 0x1A61, 0x1920);
    StepTo(13, 256, 256, 0x1920, 0x1920, 0xA99);
    StepTo(13, 512, 512, 0xA99, 0xA99, 0x140C);
    StepTo(13, 1024, 1024, 0x140C, 0x140C, 0x158A);
    StepTo(13, 2048, 2048, 0x158A, 0x158A, 0x1570);
  }

  lemma Powers13At2()
    ensures Alpha(13, 8192) == 0x2
  {
    hide Alpha;
    Powers13At1();
    StepTo(13, 4096, 4096, 0x1570, 0x1570, 0x2);
  }

  lemma Powers13()
    ensures Alpha(13, 8192) == 2
    ensures Alpha(13, 1) != 1
  {
    hide Alpha;
    AlphaItself(13);
    Powers13At0();
    Powers13At1();
    Powers13At2();
  }

  // ------------------------------------------------------------ the order of alpha

  lemma PastOrder(m: Size)
    ensures Alpha(m, Order(m) + 1) == 2
  {
    hide Alpha;
    if m == 8 {
      Powers8();
    } else if m == 9 {
      Powers9();
    } else if m == 10 {
      Powers10();
    } else if m == 11 {
      Powers11();
    } else if m == 12 {
      Powers12();
    } else {
      Powers13();
    }
  }

  lemma FullTurn(m: Size)
    ensures Alpha(m, Order(m)) == 1
  {
    hide *;
    PastOrder(m);
    TwiceOne(m);
    AlphaAdds(m, Order(m), 1);
    ShiftsOnce(m, Alpha(m, Order(m)));
    ShiftsOnce(m, 1);
    AlphaInside(m, Order(m));
    OneInside(m);
    ShiftCancels(m, Alpha(m, Order(m)), 1, 1);
  }

  lemma ShiftsOnce(m: Size, x: Elem)
    ensures Shift(m, x, 1) == Twice(m, x)
  {
    hide Twice;
  }

  lemma AfterPeriod(m: Size, k: nat, r: nat)
    requires Alpha(m, k) == 1
    ensures Alpha(m, k + r) == Alpha(m, r)
  {
    AlphaAdds(m, k, r);
  }

  lemma {:induction false} Periods(m: Size, k: nat, q: nat)
    requires Alpha(m, k) == 1
    ensures Alpha(m, k * q) == 1
    decreases q
  {
    hide Alpha;
    if q == 0 {
      AlphaItself(m);
    } else {
      Periods(m, k, q - 1);
      MulAdd(q - 1, 1, k);
      AfterPeriod(m, k * (q - 1), k);
    }
  }

  /** Two periods have a common divisor that is a period. */
  lemma {:induction false} CommonPeriod(m: Size, a: nat, b: nat) returns (g: nat, x: nat, y: nat)
    requires a > 0 && Alpha(m, a) == 1 && Alpha(m, b) == 1
    ensures g > 0 && Alpha(m, g) == 1 && a == g * x && b == g * y
    decreases b
  {
    hide Alpha;
    if b == 0 {
      g, x, y := a, 1, 0;
    } else {
      var q: nat, r: nat := a / b, a % b;
      assert a == b * q + r;
      Periods(m, b, q);
      AfterPeriod(m, b * q, r);
      var u: nat, v: nat;
      g, u, v := CommonPeriod(m, b, r);
      x, y := u * q + v, u;
      Regroup(g, u, q, v);
    }
  }

  lemma Regroup(g: nat, u: nat, q: nat, v: nat)
    ensures g * (u * q + v) == (g * u) * q + g * v
  {
    MulAdd(u * q, v, g);
  }

  predicate DivisibleBy(x: nat, p: nat, q: nat, r: nat, s: nat)
    requires p > 0 && q > 0 && r > 0 && s > 0
  {
    x % p == 0 || x % q == 0 || x % r == 0 || x % s == 0
  }

  /** Up to `d`, both factors of every factorisation of `n` are 1 or divisible by one of four. */
  predicate Factored(n: nat, d: nat, p: nat, q: nat, r: nat, s: nat)
    requires p > 0 && q > 0 && r > 0 && s > 0
  {
    if d == 0 then true
    else
      && (n % d == 0 ==> (d == 1 || DivisibleBy(d, p, q, r, s)) && (n / d == 1 || DivisibleBy(n / d, p, q, r, s)))
      && Factored(n, d - 1, p, q, r, s)
  }

  lemma {:induction false} FactoredAt(n: nat, d: nat, e: nat, p: nat, q: nat, r: nat, s: nat)
    requires p > 0 && q > 0 && r > 0 && s > 0
    requires Factored(n, d, p, q, r, s) && 0 < e <= d && n % e == 0
    ensures (e == 1 || DivisibleBy(e, p, q, r, s)) && (n / e == 1 || DivisibleBy(n / e, p, q, r, s))
    decreases d
  {
    if e < d {
      FactoredAt(n, d - 1, e, p, q, r, s);
    }
  }

  lemma OneFactorSmall(n: nat, d: nat, g: nat, x: nat, p: nat, q: nat, r: nat, s: nat)
    requires p > 0 && q > 0 && r > 0 && s > 0 && Factored(n, d, p, q, r, s)
    requires g * x == n && 0 < n < (d + 1) * (d + 1) && x > 1
    ensures DivisibleBy(x, p, q, r, s)
  {
    hide Factored, DivisibleBy;
    if x <= d {
      DividesProduct(x, g);
      FactoredAt(n, d, x, p, q, r, s);
    } else {
      if g > d {
        MulLe(d + 1, g, d + 1, x);
      }
      assert g != 0;
      DividesProduct(g, x);
      FactoredAt(n, d, g, p, q, r, s);
    }
  }

  lemma DividesProduct(a: nat, b: nat)
    requires a > 0
    ensures (a * b) % a == 0 && (a * b) / a == b && b * a == a * b
  {
    ModUnique(a * b, a, b, 0);
  }

  lemma Factors8()
    ensures Factored(255, 15, 3, 5, 17, 17)
  {
  }

  lemma Factors9To15()
    ensures Factored(511, 15, 7, 73, 73, 73)
  {
  }

  lemma Factors9()
    ensures Factored(511, 22, 7, 73, 73, 73)
  {
    Factors9To15();
  }

  lemma Factors10To15()
    ensures Factored(1023, 15, 3, 11, 31, 31)
  {
  }

  lemma Factors10To30()
    ensures Factored(1023, 30, 3, 11, 31, 31)
  {
    Factors10To15();
  }

  lemma Factors10()
    ensures Factored(1023, 31, 3, 11, 31, 31)
  {
    Factors10To30();
  }

  lemma Factors11To15()
    ensures Factored(2047, 15, 23, 89, 89, 89)
  {
  }

  lemma Factors11To30()
    ensures Factored(2047, 30, 23, 89, 89, 89)
  {
    Factors11To15();
  }

  lemma Factors11()
    ensures Factored(2047, 45, 23, 89, 89, 89)
  {
    Factors11To30();
  }

  lemma Factors12To15()
    ensures Factored(4095, 15, 3, 5, 7, 13)
  {
  }

  lemma Factors12To30()
    ensures Factored(4095, 30, 3, 5, 7, 13)
  {
    Factors12To15();
  }

  lemma Factors12To45()
    ensures Factored(4095, 45, 3, 5, 7, 13)
  {
    Factors12To30();
  }

  lemma Factors12To60()
    ensures Factored(4095, 60, 3, 5, 7, 13)
  {
    Factors12To45();
  }

  lemma Factors12()
    ensures Factored(4095, 63, 3, 5, 7, 13)
  {
    Factors12To60();
  }

  lemma Factors13To15()
    ensures Factored(8191, 15, 8191, 8191, 8191, 8191)
  {
  }

  lemma Factors13To30()
    ensures Factored(8191, 30, 8191, 8191, 8191, 8191)
  {
    Factors13To15();
  }

  lemma Factors13To45()
    ensures Factored(8191, 45, 8191, 8191, 8191, 8191)
  {
    Factors13To30();
  }

  lemma Factors13To60()
    ensures Factored(8191, 60, 8191, 8191, 8191, 8191)
  {
    Factors13To45();
  }

  lemma Factors13To75()
    ensures Factored(8191, 75, 8191, 8191, 8191, 8191)
  {
    Factors13To60();
  }

  lemma Factors13()
    ensures Factored(8191, 90, 8191, 8191, 8191, 8191)
  {
    Factors13To75();
  }

  /** No smaller power of alpha than the full turn is one. */
  lemma NoSmallerTurn(m: Size, k: nat)
    requires 0 < k < Order(m)
    ensures Alpha(m, k) != 1
  {
    hide Alpha, DivisibleBy, Factored;
    if Alpha(m, k) == 1 {
      FullTurn(m);
      var g, x, y := CommonPeriod(m, k, Order(m));
      Proper(g, x, k, y, Order(m));
      if m == 8 {
        Powers8();
        Factors8();
        OneFactorSmall(255, 15, g, y, 3, 5, 17, 17);
        SmallPeriods(m, g, y, 3, 5, 17, 17);
      } else if m == 9 {
        Powers9();
        Factors9();
        OneFactorSmall(511, 22, g, y, 7, 73, 73, 73);
        SmallPeriods(m, g, y, 7, 73, 73, 73);
      } else if m == 10 {
        Powers10();
        Factors10();
        OneFactorSmall(1023, 31, g, y, 3, 11, 31, 31);
        SmallPeriods(m, g, y, 3, 11, 31, 31);
      } else if m == 11 {
        Powers11();
        Factors11();
        OneFactorSmall(2047, 45, g, y, 23, 89, 89, 89);
        SmallPeriods(m, g, y, 23, 89, 89, 89);
      } else if m == 12 {
        Powers12();
        Factors12();
        OneFactorSmall(4095, 63, g, y, 3, 5, 7, 13);
        SmallPeriods(m, g, y, 3, 5, 7, 13);
      } else {
        Powers13();
        Factors13();
        OneFactorSmall(8191, 90, g, y, 8191, 8191, 8191, 8191);
        SmallPeriods(m, g, y, 8191, 8191, 8191, 8191);
      }
    }
  }

  lemma Proper(g: nat, x: nat, k: nat, y: nat, n: nat)
    requires g > 0 && k == g * x && n == g * y && 0 < k < n
    ensures y > 1
  {
    if y <= 1 {
      MulLe(g, g, y, 1);
      MulLe(g, g, 1, x);
    }
  }

  /** A period divided out by one of four numbers gives a larger period. */
  lemma SmallPeriods(m: Size, g: nat, y: nat, p: nat, q: nat, r: nat, s: nat)
    requires p > 0 && q > 0 && r > 0 && s > 0 && Alpha(m, g) == 1 && DivisibleBy(y, p, q, r, s)
    ensures Alpha(m, g * y / p) == 1 || Alpha(m, g * y / q) == 1 || Alpha(m, g * y / r) == 1 || Alpha(m, g * y / s) == 1
  {
    hide Alpha;
    var d := if y % p == 0 then p else if y % q == 0 then q else if y % r == 0 then r else s;
    DividesOut(g, y, d);
    Periods(m, g, y / d);
  }

  lemma DividesOut(g: nat, y: nat, d: nat)
    requires d > 0 && y % d == 0
    ensures g * y / d == g * (y / d)
  {
    var e := y / d;
    assert y == d * e;
    assert g * y == d * (g * e);
    ModUnique(g * y, d, g * e, 0);
  }

  /** Below a full turn all powers of alpha are different. */
  lemma PowersDiffer(m: Size, i: nat, j: nat)
    requires i < j < Order(m)
    ensures Alpha(m, i) != Alpha(m, j)
  {
    hide Alpha, Shift, Order;
    if Alpha(m, i) == Alpha(m, j) {
      AlphaAdds(m, j - i, i);
      AlphaAdds(m, 0, i);
      AlphaItself(m);
      AlphaInside(m, j - i);
      OneInside(m);
      ShiftCancels(m, Alpha(m, j - i), 1, i);
      NoSmallerTurn(m, j - i);
    }
  }
}
