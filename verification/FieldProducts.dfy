/** Multiplication in the fields: the laws, logarithms, and the tables the program looks
    products up in. */
module FieldProducts {
  import opened Counting
  import opened GaloisField
  import opened PrimitiveElements

  // ------------------------------------------------------------ logarithms

  /** The word as a number. */
  function Value(x: Elem): nat {
    x as nat
  }

  lemma ValueInjective(x: Elem, y: Elem)
    requires Value(x) == Value(y)
    ensures x == y
  {
    assert (x as nat) as bv16 == x;
    assert (y as nat) as bv16 == y;
  }

  lemma ValueZero(x: Elem)
    ensures Value(x) == 0 <==> x == ZERO
  {
    if Value(x) == 0 {
      ValueInjective(x, ZERO);
    }
  }

  lemma ValueBound(m: Size, x: Elem)
    requires Inside(m, x)
    ensures Value(x) <= Order(m)
  {
    if m == 8 {
      Below8(x);
    } else if m == 9 {
      Below9(x);
    } else if m == 10 {
      Below10(x);
    } else if m == 11 {
      Below11(x);
    } else if m == 12 {
      Below12(x);
    } else {
      Below13(x);
    }
  }

  lemma Below8(x: Elem)
    requires x < 0x100
    ensures x as nat < 0x100
  {
  }

  lemma Below9(x: Elem)
    requires x < 0x200
    ensures x as nat < 0x200
  {
  }

  lemma Below10(x: Elem)
    requires x < 0x400
    ensures x as nat < 0x400
  {
  }

  lemma Below11(x: Elem)
    requires x < 0x800
    ensures x as nat < 0x800
  {
  }

  lemma Below12(x: Elem)
    requires x < 0x1000
    ensures x as nat < 0x1000
  {
  }

  lemma Below13(x: Elem)
    requires x < 0x2000
    ensures x as nat < 0x2000
  {
  }

  /** One less than the value of each power of alpha below a full turn. */
  ghost function Values(m: Size): (s: seq<nat>)
    ensures |s| == Order(m)
    ensures forall i :: 0 <= i < |s| ==> s[i] == Value(Alpha(m, i)) - 1 < Order(m)
  {
    seq<nat>(Order(m), i requires 0 <= i < Order(m) => PowerIndex(m, i))
  }

  ghost function PowerIndex(m: Size, i: nat): (v: nat)
    ensures v == Value(Alpha(m, i)) - 1 < Order(m)
  {
    AlphaInside(m, i);
    ValueZero(Alpha(m, i));
    ValueBound(m, Alpha(m, i));
    Value(Alpha(m, i)) - 1
  }

  /** Every nonzero element is a power of alpha. */
  lemma PowerExists(m: Size, x: Elem)
    requires Inside(m, x) && x != ZERO
    ensures exists k: nat :: k < Order(m) && Alpha(m, k) == x
  {
    hide Inside, Alpha, Order, Value;
    var s := Values(m);
    forall p, q | 0 <= p < q < |s| ensures s[p] != s[q] {
      PowersDiffer(m, p, q);
      if s[p] == s[q] {
        ValueInjective(Alpha(m, p), Alpha(m, q));
      }
    }
    Onto(s);
    ValueZero(x);
    ValueBound(m, x);
    var v: nat := Value(x) - 1;
    assert v in s;
    var k: nat :| k < |s| && s[k] == v;
    ValueInjective(Alpha(m, k), x);
  }

  ghost function Log(m: Size, x: Elem): (k: nat)
    requires Inside(m, x) && x != ZERO
    ensures k < Order(m) && Alpha(m, k) == x
  {
    PowerExists(m, x);
    var k: nat :| k < Order(m) && Alpha(m, k) == x;
    k
  }

  /** Exponents count modulo the order. */
  lemma AlphaTurns(m: Size, k: nat, q: nat)
    ensures Alpha(m, k + Order(m) * q) == Alpha(m, k)
  {
    hide Alpha, Order;
    FullTurn(m);
    Periods(m, Order(m), q);
    AfterPeriod(m, Order(m) * q, k);
  }

  lemma OrderPositive(m: Size)
    ensures Order(m) >= 255
  {
  }

  lemma AlphaMod(m: Size, k: nat)
    ensures Order(m) > 0 && Alpha(m, k % Order(m)) == Alpha(m, k)
  {
    hide Alpha, Order;
    OrderPositive(m);
    AlphaTurns(m, k % Order(m), k / Order(m));
  }

  // ------------------------------------------------------------ the laws

  lemma TimesNone(m: Size, a: Elem)
    ensures Product(m, a, ZERO) == ZERO && Product(m, ZERO, a) == ZERO
  {
    hide Product;
    ProductNone(m, a);
    ProductZeroLeft(m, a);
  }

  lemma {:induction false} ProductZeroLeft(m: Size, b: Elem)
    ensures Product(m, ZERO, b) == ZERO
    decreases b
  {
    hide Plus, Twice, Half, Odd;
    if b != ZERO {
      ProductZeroLeft(m, Half(b));
      TwiceNone(m);
      PlusNone(ZERO);
    }
  }

  lemma TimesSwaps(m: Size, a: Elem, b: Elem)
    requires Inside(m, a) && Inside(m, b)
    ensures Product(m, a, b) == Product(m, b, a)
  {
    hide Inside, Product, Alpha;
    if a == ZERO || b == ZERO {
      TimesNone(m, a);
      TimesNone(m, b);
    } else {
      var i, j := Log(m, a), Log(m, b);
      ProductOfPowers(m, i, j);
      ProductOfPowers(m, j, i);
    }
  }

  lemma TimesInside(m: Size, a: Elem, b: Elem)
    requires Inside(m, a) && Inside(m, b)
    ensures Inside(m, Product(m, a, b))
    ensures Product(m, a, b) == ZERO <==> a == ZERO || b == ZERO
  {
    hide Inside, Product, Alpha;
    OneInside(m);
    if a == ZERO || b == ZERO {
      TimesNone(m, a);
      TimesNone(m, b);
    } else {
      var i, j := Log(m, a), Log(m, b);
      ProductOfPowers(m, i, j);
      AlphaInside(m, i + j);
    }
  }

  lemma TimesRegroups(m: Size, a: Elem, b: Elem, c: Elem)
    requires Inside(m, a) && Inside(m, b) && Inside(m, c)
    ensures Product(m, Product(m, a, b), c) == Product(m, a, Product(m, b, c))
  {
    hide Inside, Product, Alpha;
    if a == ZERO || b == ZERO || c == ZERO {
      TimesNone(m, a);
      TimesNone(m, b);
      TimesNone(m, c);
      TimesNone(m, Product(m, a, b));
      TimesNone(m, Product(m, b, c));
    } else {
      var i, j, k := Log(m, a), Log(m, b), Log(m, c);
      ProductOfPowers(m, i, j);
      ProductOfPowers(m, j, k);
      ProductOfPowers(m, i + j, k);
      ProductOfPowers(m, i, j + k);
    }
  }

  /** The other distributive law. */
  lemma PlusTimes(m: Size, a: Elem, b: Elem, c: Elem)
    requires Inside(m, a) && Inside(m, b) && Inside(m, c)
    ensures Product(m, Plus(a, b), c) == Plus(Product(m, a, c), Product(m, b, c))
  {
    hide Inside, Product, Plus;
    PlusInside(m, a, b);
    TimesSwaps(m, Plus(a, b), c);
    TimesSwaps(m, a, c);
    TimesSwaps(m, b, c);
    ProductPlus(m, c, a, b);
  }

  lemma OneTimes(m: Size, a: Elem)
    requires Inside(m, a)
    ensures Product(m, ONE, a) == a
  {
    hide Inside, Product;
    OneInside(m);
    TimesSwaps(m, ONE, a);
    ProductOne(m, a);
  }

  lemma TimesShuffle(m: Size, a: Elem, b: Elem, c: Elem)
    requires Inside(m, a) && Inside(m, b) && Inside(m, c)
    ensures Product(m, a, Product(m, b, c)) == Product(m, b, Product(m, a, c))
  {
    hide Inside, Product;
    TimesRegroups(m, a, b, c);
    TimesRegroups(m, b, a, c);
    TimesSwaps(m, a, b);
  }

  // ------------------------------------------------------------ the tables

  datatype Tables = Tables(exp: seq<Elem>, log: seq<nat>)

  /** Two turns of powers, and the exponent of every nonzero word. */
  ghost predicate IsTables(m: Size, t: Tables) {
    && |t.exp| == 2 * Order(m) && |t.log| == Order(m) + 1
    && (forall i :: 0 <= i < |t.exp| ==> t.exp[i] == Alpha(m, i))
    && (forall i :: 0 <= i < Order(m) ==> LogAt(m, t.log, i))
  }

  ghost predicate LogAt(m: Size, log: seq<nat>, i: nat) {
    Value(Alpha(m, i)) < |log| && log[Value(Alpha(m, i))] == i
  }

  lemma PowerValue(m: Size, i: nat)
    ensures 0 < Value(Alpha(m, i)) <= Order(m)
  {
    hide Inside, Alpha, Value, Order;
    AlphaInside(m, i);
    ValueZero(Alpha(m, i));
    ValueBound(m, Alpha(m, i));
  }

  /** Different exponents, different entries. */
  lemma EntriesApart(m: Size, i: nat, j: nat)
    requires i < j < Order(m)
    ensures Value(Alpha(m, i)) != Value(Alpha(m, j))
  {
    hide Alpha, Value, Order;
    PowersDiffer(m, i, j);
    if Value(Alpha(m, i)) == Value(Alpha(m, j)) {
      ValueInjective(Alpha(m, i), Alpha(m, j));
    }
  }

  lemma NextAlpha(m: Size, i: nat)
    ensures Alpha(m, i + 1) == Twice(m, Alpha(m, i)) && Alpha(m, 0) == ONE
  {
    hide Twice;
  }

  /** `Gf::new`. */
  method BuildTables(m: Size) returns (t: Tables)
    ensures IsTables(m, t)
  {
    hide Alpha, Value, Twice, Inside, Order;
    var n := Order(m);
    var exp := new Elem[2 * n](i => ZERO);
    var log := new nat[n + 1](i => 0);
    var x := ONE;
    NextAlpha(m, 0);
    for i := 0 to n
      invariant x == Alpha(m, i)
      invariant forall j :: 0 <= j < i ==> exp[j] == Alpha(m, j)
      invariant forall j :: 0 <= j < i ==> LogAt(m, log[..], j)
    {
      PowerValue(m, i);
      ghost var was := log[..];
      exp[i] := x;
      log[Value(x)] := i;
      assert log[..] == was[Value(x) := i];
      forall j | 0 <= j < i + 1 ensures LogAt(m, log[..], j) {
        if j < i {
          assert LogAt(m, was, j);
          EntriesApart(m, j, i);
        }
      }
      NextAlpha(m, i);
      x := Twice(m, x);
    }
    for i := 0 to n
      invariant forall j :: 0 <= j < n + i ==> exp[j] == Alpha(m, j)
      invariant forall j :: 0 <= j < n ==> LogAt(m, log[..], j)
    {
      AlphaTurns(m, i, 1);
      exp[n + i] := exp[i];
    }
    t := Tables(exp[..], log[..]);
  }

  lemma LogFound(m: Size, t: Tables, x: Elem)
    requires IsTables(m, t) && Inside(m, x) && x != ZERO
    ensures Value(x) < |t.log| && t.log[Value(x)] == Log(m, x)
  {
    hide Alpha, Value, Inside, Order;
    assert LogAt(m, t.log, Log(m, x));
  }

  /** `mul`. */
  function Times(m: Size, t: Tables, a: Elem, b: Elem): (r: Elem)
    requires IsTables(m, t) && Inside(m, a) && Inside(m, b)
    ensures r == Product(m, a, b)
  {
    if a == ZERO || b == ZERO then
      TimesNone(m, a);
      TimesNone(m, b);
      ZERO
    else
      LogFound(m, t, a);
      LogFound(m, t, b);
      ProductOfPowers(m, Log(m, a), Log(m, b));
      t.exp[t.log[Value(a)] + t.log[Value(b)]]
  }

  ghost function Ratio(m: Size, d: Elem, e: Elem): (r: Elem)
    requires Inside(m, d) && Inside(m, e) && e != ZERO
  {
    if d == ZERO then ZERO else Alpha(m, Log(m, d) + Order(m) - Log(m, e))
  }

  lemma RatioTimes(m: Size, d: Elem, e: Elem)
    requires Inside(m, d) && Inside(m, e) && e != ZERO
    ensures Inside(m, Ratio(m, d, e)) && Product(m, Ratio(m, d, e), e) == d
  {
    OneInside(m);
    hide Inside, Product, Alpha, Order;
    if d == ZERO {
      TimesNone(m, e);
    } else {
      var i, j := Log(m, d), Log(m, e);
      AlphaInside(m, i + Order(m) - j);
      ProductOfPowers(m, i + Order(m) - j, j);
      AlphaTurns(m, i, 1);
    }
  }

  /** `div`. */
  function Over(m: Size, t: Tables, a: Elem, b: Elem): (r: Elem)
    requires IsTables(m, t) && Inside(m, a) && Inside(m, b) && b != ZERO
    ensures Inside(m, r) && Product(m, r, b) == a
  {
    RatioTimes(m, a, b);
    if a == ZERO then ZERO
    else
      LogFound(m, t, a);
      LogFound(m, t, b);
      t.exp[t.log[Value(a)] + Order(m) - t.log[Value(b)]]
  }

  /** `alpha_pow`. */
  function PowerOf(m: Size, t: Tables, e: nat): (r: Elem)
    requires IsTables(m, t)
    ensures r == Alpha(m, e)
  {
    AlphaMod(m, e);
    t.exp[e % Order(m)]
  }
}
