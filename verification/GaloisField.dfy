/** The fields of the syndrome codes: 2^m elements for m from 8 to 13 in 16-bit words, with
    exclusive or for addition and the powers of an element alpha for the rest. */
module GaloisField {
  type Elem = bv16

  const ZERO: Elem := 0
  const ONE: Elem := 1

  const MIN_M: nat := 8
  const MAX_M: nat := 13

  type Size = m: nat | MIN_M <= m <= MAX_M witness 8

  function Plus(x: Elem, y: Elem): Elem {
    x ^ y
  }

  lemma PlusSwaps(x: Elem, y: Elem)
    ensures Plus(x, y) == Plus(y, x)
  {
  }

  lemma PlusRegroups(x: Elem, y: Elem, z: Elem)
    ensures Plus(Plus(x, y), z) == Plus(x, Plus(y, z))
  {
  }

  lemma PlusNone(x: Elem)
    ensures Plus(x, 0) == x && Plus(0, x) == x
  {
  }

  lemma PlusSelf(x: Elem)
    ensures Plus(x, x) == 0
  {
  }

  lemma PlusDiffers(x: Elem, y: Elem)
    requires Plus(x, y) == 0
    ensures x == y
  {
  }

  lemma PlusShuffle(a: Elem, b: Elem, c: Elem, d: Elem)
    ensures Plus(Plus(a, b), Plus(c, d)) == Plus(Plus(a, c), Plus(b, d))
  {
    hide Plus;
    PlusRegroups(a, b, Plus(c, d));
    PlusRegroups(b, c, d);
    PlusSwaps(b, c);
    PlusRegroups(c, b, d);
    PlusRegroups(a, c, Plus(b, d));
  }

  lemma PlusCancels(x: Elem, y: Elem, z: Elem)
    ensures Plus(Plus(x, z), Plus(y, z)) == Plus(x, y)
    ensures Plus(Plus(x, z), y) == Plus(Plus(x, y), z) && Plus(x, Plus(y, z)) == Plus(Plus(x, y), z)
  {
    hide Plus;
    PlusShuffle(x, z, y, z);
    PlusSelf(z);
    PlusNone(Plus(x, y));
    PlusRegroups(x, y, z);
    PlusRegroups(x, z, y);
    PlusSwaps(z, y);
  }

  // ------------------------------------------------------------ multiplying by alpha

  function Double(x: Elem): Elem {
    x << 1
  }

  lemma DoublePlus(x: Elem, y: Elem)
    ensures Double(Plus(x, y)) == Plus(Double(x), Double(y))
  {
  }

  predicate HasBit(x: Elem, bit: Elem) {
    x & bit != 0
  }

  function Reduced(top: Elem, poly: Elem, x: Elem): Elem {
    if HasBit(x, top) then Plus(x, poly) else x
  }

  /** Reducing is linear when the top bit is. */
  lemma ReducedPlus(top: Elem, poly: Elem, x: Elem, y: Elem)
    requires HasBit(Plus(x, y), top) <==> HasBit(x, top) != HasBit(y, top)
    ensures Reduced(top, poly, Plus(x, y)) == Plus(Reduced(top, poly, x), Reduced(top, poly, y))
  {
    hide Plus, HasBit;
    PlusCancels(x, y, poly);
  }

  /** The bit a shift may overflow into. */
  function Top(m: Size): Elem {
    if m == 8 then 0x100 else if m == 9 then 0x200 else if m == 10 then 0x400 else if m == 11 then 0x800 else if m == 12 then 0x1000 else 0x2000
  }

  /** The primitive polynomial of the field. */
  function PrimPoly(m: Size): Elem {
    if m == 8 then 0x11D else if m == 9 then 0x211 else if m == 10 then 0x409 else if m == 11 then 0x805 else if m == 12 then 0x1053 else 0x201B
  }

  predicate Inside(m: Size, x: Elem) {
    x < Top(m)
  }

  /** The number of elements but zero. */
  function Order(m: Size): nat {
    if m == 8 then 255 else if m == 9 then 511 else if m == 10 then 1023 else if m == 11 then 2047 else if m == 12 then 4095 else 8191
  }

  /** A shift, reduced when it overflows. */
  function Twice(m: Size, x: Elem): Elem {
    Reduced(Top(m), PrimPoly(m), Double(x))
  }

  lemma BitBy8(x: Elem, y: Elem)
    ensures HasBit(Plus(x, y), 0x100) <==> HasBit(x, 0x100) != HasBit(y, 0x100)
  {
  }

  lemma InsideBy8(x: Elem)
    requires x < 0x100
    ensures Reduced(0x100, 0x11D, Double(x)) < 0x100
  {
  }

  lemma NonzeroBy8(x: Elem)
    requires x < 0x100 && Reduced(0x100, 0x11D, Double(x)) == 0
    ensures x == 0
  {
  }

  lemma SumBy8(x: Elem, y: Elem)
    requires x < 0x100 && y < 0x100
    ensures Plus(x, y) < 0x100
  {
  }

  lemma BitBy9(x: Elem, y: Elem)
    ensures HasBit(Plus(x, y), 0x200) <==> HasBit(x, 0x200) != HasBit(y, 0x200)
  {
  }

  lemma InsideBy9(x: Elem)
    requires x < 0x200
    ensures Reduced(0x200, 0x211, Double(x)) < 0x200
  {
  }

  lemma NonzeroBy9(x: Elem)
    requires x < 0x200 && Reduced(0x200, 0x211, Double(x)) == 0
    ensures x == 0
  {
  }

  lemma SumBy9(x: Elem, y: Elem)
    requires x < 0x200 && y < 0x200
    ensures Plus(x, y) < 0x200
  {
  }

  lemma BitBy10(x: Elem, y: Elem)
    ensures HasBit(Plus(x, y), 0x400) <==> HasBit(x, 0x400) != HasBit(y, 0x400)
  {
  }

  lemma InsideBy10(x: Elem)
    requires x < 0x400
    ensures Reduced(0x400, 0x409, Double(x)) < 0x400
  {
  }

  lemma NonzeroBy10(x: Elem)
    requires x < 0x400 && Reduced(0x400, 0x409, Double(x)) == 0
    ensures x == 0
  {
  }

  lemma SumBy10(x: Elem, y: Elem)
    requires x < 0x400 && y < 0x400
    ensures Plus(x, y) < 0x400
  {
  }

  lemma BitBy11(x: Elem, y: Elem)
    ensures HasBit(Plus(x, y), 0x800) <==> HasBit(x, 0x800) != HasBit(y, 0x800)
  {
  }

  lemma InsideBy11(x: Elem)
    requires x < 0x800
    ensures Reduced(0x800, 0x805, Double(x)) < 0x800
  {
  }

  lemma NonzeroBy11(x: Elem)
    requires x < 0x800 && Reduced(0x800, 0x805, Double(x)) == 0
    ensures x == 0
  {
  }

  lemma SumBy11(x: Elem, y: Elem)
    requires x < 0x800 && y < 0x800
    ensures Plus(x, y) < 0x800
  {
  }

  lemma BitBy12(x: Elem, y: Elem)
    ensures HasBit(Plus(x, y), 0x1000) <==> HasBit(x, 0x1000) != HasBit(y, 0x1000)
  {
  }

  lemma InsideBy12(x: Elem)
    requires x < 0x1000
    ensures Reduced(0x1000, 0x1053, Double(x)) < 0x1000
  {
  }

  lemma NonzeroBy12(x: Elem)
    requires x < 0x1000 && Reduced(0x1000, 0x1053, Double(x)) == 0
    ensures x == 0
  {
  }

  lemma SumBy12(x: Elem, y: Elem)
    requires x < 0x1000 && y < 0x1000
    ensures Plus(x, y) < 0x1000
  {
  }

  lemma BitBy13(x: Elem, y: Elem)
    ensures HasBit(Plus(x, y), 0x2000) <==> HasBit(x, 0x2000) != HasBit(y, 0x2000)
  {
  }

  lemma InsideBy13(x: Elem)
    requires x < 0x2000
    ensures Reduced(0x2000, 0x201B, Double(x)) < 0x2000
  {
  }

  lemma NonzeroBy13(x: Elem)
    requires x < 0x2000 && Reduced(0x2000, 0x201B, Double(x)) == 0
    ensures x == 0
  {
  }

  lemma SumBy13(x: Elem, y: Elem)
    requires x < 0x2000 && y < 0x2000
    ensures Plus(x, y) < 0x2000
  {
  }

  lemma BitLinear(m: Size, x: Elem, y: Elem)
    ensures HasBit(Plus(x, y), Top(m)) <==> HasBit(x, Top(m)) != HasBit(y, Top(m))
  {
    hide HasBit, Plus;
    if m == 8 {
      BitBy8(x, y);
    } else if m == 9 {
      BitBy9(x, y);
    } else if m == 10 {
      BitBy10(x, y);
    } else if m == 11 {
      BitBy11(x, y);
    } else if m == 12 {
      BitBy12(x, y);
    } else {
      BitBy13(x, y);
    }
  }

  lemma TwicePlus(m: Size, x: Elem, y: Elem)
    ensures Twice(m, Plus(x, y)) == Plus(Twice(m, x), Twice(m, y))
  {
    hide Reduced, Plus, Double, HasBit, Top, PrimPoly;
    DoublePlus(x, y);
    BitLinear(m, Double(x), Double(y));
    ReducedPlus(Top(m), PrimPoly(m), Double(x), Double(y));
  }

  lemma TwiceInside(m: Size, x: Elem)
    requires Inside(m, x)
    ensures Inside(m, Twice(m, x))
  {
    hide Reduced, Double;
    if m == 8 {
      InsideBy8(x);
    } else if m == 9 {
      InsideBy9(x);
    } else if m == 10 {
      InsideBy10(x);
    } else if m == 11 {
      InsideBy11(x);
    } else if m == 12 {
      InsideBy12(x);
    } else {
      InsideBy13(x);
    }
  }

  lemma TwiceNonzero(m: Size, x: Elem)
    requires Inside(m, x) && Twice(m, x) == 0
    ensures x == 0
  {
    hide Reduced, Double;
    if m == 8 {
      NonzeroBy8(x);
    } else if m == 9 {
      NonzeroBy9(x);
    } else if m == 10 {
      NonzeroBy10(x);
    } else if m == 11 {
      NonzeroBy11(x);
    } else if m == 12 {
      NonzeroBy12(x);
    } else {
      NonzeroBy13(x);
    }
  }

  lemma PlusInside(m: Size, x: Elem, y: Elem)
    requires Inside(m, x) && Inside(m, y)
    ensures Inside(m, Plus(x, y))
  {
    hide Plus;
    if m == 8 {
      SumBy8(x, y);
    } else if m == 9 {
      SumBy9(x, y);
    } else if m == 10 {
      SumBy10(x, y);
    } else if m == 11 {
      SumBy11(x, y);
    } else if m == 12 {
      SumBy12(x, y);
    } else {
      SumBy13(x, y);
    }
  }

  lemma TwiceNone(m: Size)
    ensures Twice(m, 0) == 0
  {
  }

  /** Times alpha, `k` times. */
  function Shift(m: Size, x: Elem, k: nat): Elem {
    if k == 0 then x else Twice(m, Shift(m, x, k - 1))
  }

  function Alpha(m: Size, k: nat): Elem {
    Shift(m, 1, k)
  }

  lemma {:induction false} ShiftPlus(m: Size, x: Elem, y: Elem, k: nat)
    ensures Shift(m, Plus(x, y), k) == Plus(Shift(m, x, k), Shift(m, y, k))
    decreases k
  {
    hide Twice, Plus;
    if k > 0 {
      ShiftPlus(m, x, y, k - 1);
      TwicePlus(m, Shift(m, x, k - 1), Shift(m, y, k - 1));
    }
  }

  lemma {:induction false} ShiftInside(m: Size, x: Elem, k: nat)
    requires Inside(m, x)
    ensures Inside(m, Shift(m, x, k)) && (Shift(m, x, k) == 0 ==> x == 0)
    decreases k
  {
    hide Twice, Inside;
    if k > 0 {
      ShiftInside(m, x, k - 1);
      TwiceInside(m, Shift(m, x, k - 1));
      if Twice(m, Shift(m, x, k - 1)) == 0 {
        TwiceNonzero(m, Shift(m, x, k - 1));
      }
    }
  }

  lemma {:induction false} ShiftAdds(m: Size, x: Elem, i: nat, j: nat)
    ensures Shift(m, Shift(m, x, i), j) == Shift(m, x, i + j)
    decreases j
  {
    hide Twice;
    if j > 0 {
      ShiftAdds(m, x, i, j - 1);
    }
  }

  lemma ShiftCancels(m: Size, x: Elem, y: Elem, k: nat)
    requires Inside(m, x) && Inside(m, y) && Shift(m, x, k) == Shift(m, y, k)
    ensures x == y
  {
    hide Shift, Plus, Inside;
    ShiftPlus(m, x, y, k);
    PlusSelf(Shift(m, x, k));
    PlusInside(m, x, y);
    ShiftInside(m, Plus(x, y), k);
    PlusDiffers(x, y);
  }

  lemma OneInside(m: Size)
    ensures Inside(m, 1) && Inside(m, 0)
  {
  }

  lemma AlphaInside(m: Size, k: nat)
    ensures Inside(m, Alpha(m, k)) && Alpha(m, k) != 0
  {
    hide Inside, Shift;
    OneInside(m);
    ShiftInside(m, 1, k);
  }

  lemma AlphaAdds(m: Size, i: nat, j: nat)
    ensures Alpha(m, i + j) == Shift(m, Alpha(m, i), j)
  {
    ShiftAdds(m, 1, i, j);
  }

  // ------------------------------------------------------------ the product of two powers

  function Half(b: Elem): (h: Elem)
    ensures b != 0 ==> h < b
  {
    b >> 1
  }

  predicate Odd(b: Elem) {
    b & 1 != 0
  }

  function Chosen(bit: bool, a: Elem): Elem {
    if bit then a else 0
  }

  /** `a` times alpha to the i, added up over the bits i of `b`. */
  function Product(m: Size, a: Elem, b: Elem): Elem
    decreases b
  {
    if b == 0 then 0 else Plus(Chosen(Odd(b), a), Twice(m, Product(m, a, Half(b))))
  }

  lemma HalfOfNone()
    ensures Half(0) == 0 && !Odd(0)
  {
  }

  lemma ProductStep(m: Size, a: Elem, b: Elem)
    ensures Product(m, a, b) == Plus(Chosen(Odd(b), a), Twice(m, Product(m, a, Half(b))))
  {
    hide Plus, Half, Odd, Twice;
    if b == 0 {
      HalfOfNone();
      TwiceNone(m);
      PlusNone(0);
    }
  }

  lemma HalfOfPlus(b: Elem, c: Elem)
    ensures Half(Plus(b, c)) == Plus(Half(b), Half(c))
  {
  }

  lemma OddPlus(b: Elem, c: Elem)
    ensures Odd(Plus(b, c)) <==> Odd(b) != Odd(c)
  {
  }

  lemma ChosenPlus(u: bool, v: bool, a: Elem)
    ensures Chosen(u != v, a) == Plus(Chosen(u, a), Chosen(v, a))
  {
    hide Plus;
    PlusNone(a);
    PlusNone(0);
    PlusSelf(a);
  }

  lemma {:induction false} ProductPlus(m: Size, a: Elem, b: Elem, c: Elem)
    ensures Product(m, a, Plus(b, c)) == Plus(Product(m, a, b), Product(m, a, c))
    decreases b, c
  {
    hide Twice, Product, Plus, Half, Odd, Chosen;
    if b == 0 {
      PlusNone(c);
      ProductNone(m, a);
      PlusNone(Product(m, a, c));
    } else {
      var u, v := Product(m, a, Half(b)), Product(m, a, Half(c));
      ProductPlus(m, a, Half(b), Half(c));
      TwicePlus(m, u, v);
      ProductStep(m, a, b);
      ProductStep(m, a, c);
      ProductStep(m, a, Plus(b, c));
      HalfOfPlus(b, c);
      OddPlus(b, c);
      ChosenPlus(Odd(b), Odd(c), a);
      PlusShuffle(Chosen(Odd(b), a), Chosen(Odd(c), a), Twice(m, u), Twice(m, v));
    }
  }

  lemma ProductNone(m: Size, a: Elem)
    ensures Product(m, a, 0) == 0
  {
  }

  lemma OddOne()
    ensures Odd(1) && Half(1) == 0
  {
  }

  lemma ProductOne(m: Size, a: Elem)
    ensures Product(m, a, 1) == a
  {
    hide Twice, Plus, Half, Odd, Product;
    OddOne();
    ProductStep(m, a, 1);
    ProductNone(m, a);
    TwiceNone(m);
    PlusNone(a);
  }

  lemma {:induction false} ProductTwice(m: Size, a: Elem, b: Elem)
    ensures Product(m, Twice(m, a), b) == Twice(m, Product(m, a, b))
    decreases b
  {
    hide Twice, Product, Plus, Half, Odd;
    TwiceNone(m);
    if b == 0 {
      ProductNone(m, a);
      ProductNone(m, Twice(m, a));
    } else {
      ProductTwice(m, a, Half(b));
      ProductStep(m, a, b);
      ProductStep(m, Twice(m, a), b);
      TwicePlus(m, Chosen(Odd(b), a), Twice(m, Product(m, a, Half(b))));
    }
  }

  lemma DoubleHalved(m: Size, b: Elem)
    requires Inside(m, b)
    ensures Half(Double(b)) == b
  {
    TopSmall(m);
    HalvedBack(b);
  }

  lemma TopSmall(m: Size)
    ensures Top(m) <= 0x2000
  {
  }

  lemma HalvedBack(b: Elem)
    requires b < 0x8000
    ensures Half(Double(b)) == b
  {
  }

  lemma DoubleEven(b: Elem)
    ensures !Odd(Double(b))
  {
  }

  lemma ProductDouble(m: Size, a: Elem, b: Elem)
    requires Inside(m, b)
    ensures Product(m, a, Double(b)) == Twice(m, Product(m, a, b))
  {
    hide Twice, Product, Plus, Half, Odd, Double, Inside;
    ProductStep(m, a, Double(b));
    DoubleHalved(m, b);
    DoubleEven(b);
    PlusNone(Twice(m, Product(m, a, b)));
  }

  /** One step of the product. */
  function Step(top: Elem, poly: Elem, r: Elem, a: Elem, bit: bool): Elem {
    Plus(Chosen(bit, a), Reduced(top, poly, Double(r)))
  }

  /** The product spelled out over the fourteen bits a word of these fields may have. */
  function Horner(top: Elem, poly: Elem, a: Elem, b: Elem): Elem {
    var b1 := Half(b);
    var b2 := Half(b1);
    var b3 := Half(b2);
    var b4 := Half(b3);
    var b5 := Half(b4);
    var b6 := Half(b5);
    var b7 := Half(b6);
    var b8 := Half(b7);
    var b9 := Half(b8);
    var b10 := Half(b9);
    var b11 := Half(b10);
    var b12 := Half(b11);
    var b13 := Half(b12);
    var r := Chosen(Odd(b13), a);
    var r := Step(top, poly, r, a, Odd(b12));
    var r := Step(top, poly, r, a, Odd(b11));
    var r := Step(top, poly, r, a, Odd(b10));
    var r := Step(top, poly, r, a, Odd(b9));
    var r := Step(top, poly, r, a, Odd(b8));
    var r := Step(top, poly, r, a, Odd(b7));
    var r := Step(top, poly, r, a, Odd(b6));
    var r := Step(top, poly, r, a, Odd(b5));
    var r := Step(top, poly, r, a, Odd(b4));
    var r := Step(top, poly, r, a, Odd(b3));
    var r := Step(top, poly, r, a, Odd(b2));
    var r := Step(top, poly, r, a, Odd(b1));
    Step(top, poly, r, a, Odd(b))
  }

  lemma HornerIs(m: Size, a: Elem, b: Elem)
    requires b < 0x4000
    ensures Product(m, a, b) == Horner(Top(m), PrimPoly(m), a, b)
  {
    NothingLeft(b);
    hide Product, Half, Odd, Plus, Chosen, Reduced, Double, Top, PrimPoly;
    var b1 := Half(b);
    var b2 := Half(b1);
    var b3 := Half(b2);
    var b4 := Half(b3);
    var b5 := Half(b4);
    var b6 := Half(b5);
    var b7 := Half(b6);
    var b8 := Half(b7);
    var b9 := Half(b8);
    var b10 := Half(b9);
    var b11 := Half(b10);
    var b12 := Half(b11);
    var b13 := Half(b12);
    var b14 := Half(b13);
    ProductNone(m, a);
    TwiceNone(m);
    PlusNone(Chosen(Odd(b13), a));
    ProductStep(m, a, b13);
    ProductStep(m, a, b12);
    ProductStep(m, a, b11);
    ProductStep(m, a, b10);
    ProductStep(m, a, b9);
    ProductStep(m, a, b8);
    ProductStep(m, a, b7);
    ProductStep(m, a, b6);
    ProductStep(m, a, b5);
    ProductStep(m, a, b4);
    ProductStep(m, a, b3);
    ProductStep(m, a, b2);
    ProductStep(m, a, b1);
    ProductStep(m, a, b);
  }

  lemma NothingLeft(b: Elem)
    requires b < 0x4000
    ensures Half(Half(Half(Half(Half(Half(Half(Half(Half(Half(Half(Half(Half(Half(b)))))))))))))) == 0
  {
  }

  /** Alpha is a root of the polynomial. */
  lemma PolyVanishes(m: Size)
    ensures Product(m, 1, PrimPoly(m)) == 0
  {
    PolySmall(m);
    HornerIs(m, 1, PrimPoly(m));
    hide Product;
    if m == 8 {
      Vanishes8();
    } else if m == 9 {
      Vanishes9();
    } else if m == 10 {
      Vanishes10();
    } else if m == 11 {
      Vanishes11();
    } else if m == 12 {
      Vanishes12();
    } else {
      Vanishes13();
    }
  }

  lemma PolySmall(m: Size)
    ensures PrimPoly(m) < 0x4000
  {
  }

  lemma Vanishes8()
    ensures Horner(0x100, 0x11D, 1, 0x11D) == 0
  {
  }

  lemma Vanishes9()
    ensures Horner(0x200, 0x211, 1, 0x211) == 0
  {
  }

  lemma Vanishes10()
    ensures Horner(0x400, 0x409, 1, 0x409) == 0
  {
  }

  lemma Vanishes11()
    ensures Horner(0x800, 0x805, 1, 0x805) == 0
  {
  }

  lemma Vanishes12()
    ensures Horner(0x1000, 0x1053, 1, 0x1053) == 0
  {
  }

  lemma Vanishes13()
    ensures Horner(0x2000, 0x201B, 1, 0x201B) == 0
  {
  }

  lemma {:induction false} PolyVanishesAt(m: Size, i: nat)
    ensures Product(m, Alpha(m, i), PrimPoly(m)) == 0
    decreases i
  {
    hide Product, PrimPoly, Twice;
    if i == 0 {
      PolyVanishes(m);
    } else {
      PolyVanishesAt(m, i - 1);
      ProductTwice(m, Alpha(m, i - 1), PrimPoly(m));
      TwiceNone(m);
    }
  }

  lemma ProductByTwice(m: Size, i: nat, b: Elem)
    requires Inside(m, b)
    ensures Product(m, Alpha(m, i), Twice(m, b)) == Twice(m, Product(m, Alpha(m, i), b))
  {
    hide Product, PrimPoly, Plus, Alpha, HasBit, Top, Double, Inside;
    var a := Alpha(m, i);
    ProductDouble(m, a, b);
    PolyVanishesAt(m, i);
    ProductPlus(m, a, Double(b), PrimPoly(m));
    PlusNone(Product(m, a, Double(b)));
  }

  /** The product of two powers of alpha is the power of the sum. */
  lemma {:induction false} ProductOfPowers(m: Size, i: nat, j: nat)
    ensures Product(m, Alpha(m, i), Alpha(m, j)) == Alpha(m, i + j)
    decreases j
  {
    hide Product, Twice, Inside;
    if j == 0 {
      ProductOne(m, Alpha(m, i));
    } else {
      ProductOfPowers(m, i, j - 1);
      AlphaInside(m, j - 1);
      ProductByTwice(m, i, Alpha(m, j - 1));
    }
  }
}
