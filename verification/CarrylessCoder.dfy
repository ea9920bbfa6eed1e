/** The carry-less binary coder over 32-bit bounds, for any deterministic predictor. */
module CarrylessCoder {
  import opened Arithmetic
  import opened Bytes
  import opened BitStrings

  const TOP_BYTE: nat := 0x100_0000

  /** Probability of a 1 in 16-bit fixed point. */
  type P1 = p: int | 1 <= p <= 65535 witness 32768

  datatype Choice = Choice(bit: bool, p1: P1)

  datatype Writer = Writer(x1: nat, x2: nat, out: seq<byte>)

  const START := Writer(0, WORD - 1, [])

  predicate SameTop(x1: nat, x2: nat) {
    x1 / TOP_BYTE == x2 / TOP_BYTE
  }

  /** Between two decisions the bounds differ in their top byte. */
  predicate Split(x1: nat, x2: nat) {
    x1 < x2 < WORD && !SameTop(x1, x2)
  }

  function Mid(x1: nat, x2: nat, p1: P1): nat
    requires x1 <= x2
  {
    x1 + (x2 - x1) * p1 / 0x1_0000
  }

  lemma MidInside(x1: nat, x2: nat, p1: P1)
    requires x1 < x2
    ensures x1 <= Mid(x1, x2, p1) < x2
  {
    var d := x2 - x1;
    Fraction(d, p1, d * p1);
  }

  lemma Fraction(d: nat, p: nat, m: nat)
    requires 0 < d && p <= 65535 && m == d * p
    ensures m / 0x1_0000 < d
  {
    MulLe(d, d, p, 65535);
  }

  lemma MidIs(x1: nat, x2: nat, p1: P1, xmid: int)
    requires x1 < x2 && xmid == x1 + (x2 - x1) * p1 / 0x1_0000
    ensures xmid == Mid(x1, x2, p1) && x1 <= xmid < x2
  {
    MidInside(x1, x2, p1);
  }

  function Shift(w: Writer): (r: Writer)
    requires w.x1 <= w.x2 < WORD
    ensures Split(r.x1, r.x2)
    decreases WORD - (w.x2 - w.x1)
  {
    if SameTop(w.x1, w.x2)
    then Shift(Writer(w.x1 % TOP_BYTE * 256, w.x2 % TOP_BYTE * 256 + 255, w.out + [w.x2 / TOP_BYTE]))
    else w
  }

  function Narrow(w: Writer, c: Choice): (r: Writer)
    requires w.x1 < w.x2 < WORD
    ensures w.x1 <= r.x1 <= r.x2 <= w.x2 && r.out == w.out
  {
    MidInside(w.x1, w.x2, c.p1);
    if c.bit then w.(x2 := Mid(w.x1, w.x2, c.p1)) else w.(x1 := Mid(w.x1, w.x2, c.p1) + 1)
  }

  /** How much room the bounds leave. */
  function Width(w: Writer): int {
    w.x2 - w.x1 + 1
  }

  /** The likelier a bit, the more room it is given. */
  lemma LikelierWider(w: Writer, bit: bool, p: P1, q: P1)
    requires w.x1 < w.x2 < WORD && (if bit then p <= q else q <= p)
    ensures Width(Narrow(w, Choice(bit, p))) <= Width(Narrow(w, Choice(bit, q)))
  {
    var d := w.x2 - w.x1;
    MulLe(d, d, if bit then p else q, if bit then q else p);
    QuotientGrows(d * p, d * q, 0x1_0000);
    QuotientGrows(d * q, d * p, 0x1_0000);
  }

  lemma QuotientGrows(a: nat, b: nat, n: nat)
    requires n > 0
    ensures a <= b ==> a / n <= b / n
  {
    assert a == n * (a / n) + a % n && b == n * (b / n) + b % n;
    if a <= b && a / n > b / n {
      MulLe(b / n + 1, a / n, n, n);
      MulAdd(b / n, 1, n);
    }
  }

  function Put(w: Writer, c: Choice): (r: Writer)
    requires Split(w.x1, w.x2)
    ensures Split(r.x1, r.x2)
  {
    Shift(Narrow(w, c))
  }

  function PutAll(w: Writer, cs: seq<Choice>): (r: Writer)
    requires Split(w.x1, w.x2)
    ensures Split(r.x1, r.x2)
    decreases |cs|
  {
    if cs == [] then w else PutAll(Put(w, cs[0]), cs[1..])
  }

  /** The four flushed bytes, high byte first. */
  function BigEndian(v: nat): (s: seq<byte>)
    requires v < WORD
    ensures |s| == 4
  {
    [v / TOP_BYTE, v / 0x1_0000 % 256, v / 256 % 256, v % 256]
  }

  function Finish(w: Writer): seq<byte>
    requires w.x1 < WORD
  {
    w.out + BigEndian(w.x1)
  }

  // ------------------------------------------------------------ renormalisation

  /** However narrow the bounds have become, four shifts at most renew them. */
  lemma AtMostFourShifts(w: Writer)
    requires w.x1 <= w.x2 < WORD
    ensures |Shift(w).out| <= |w.out| + 4
  {
    ShiftsLeft(w, 0);
  }

  lemma {:induction false} ShiftsLeft(w: Writer, k: nat)
    requires w.x1 <= w.x2 < WORD && k <= 4 && w.x2 - w.x1 >= Pow256(k) - 1
    ensures |Shift(w).out| <= |w.out| + (4 - k)
    decreases 4 - k
  {
    assert Pow256(4) == WORD;
    if SameTop(w.x1, w.x2) {
      ShiftsLeft(Writer(w.x1 % TOP_BYTE * 256, w.x2 % TOP_BYTE * 256 + 255, w.out + [w.x2 / TOP_BYTE]), k + 1);
    }
  }

  // ------------------------------------------------------------ the decoder

  /** The input reads as zero past its end, and the position moves on regardless. */
  datatype Reader = Reader(x1: nat, x2: nat, x: nat, input: seq<byte>, pos: nat)

  function ByteAt(s: seq<byte>, i: nat): byte {
    if i < |s| then s[i] else 0
  }

  /** Four bytes from `i` on. */
  function Window(s: seq<byte>, i: nat): (v: nat)
    ensures v < WORD
  {
    ByteAt(s, i) * TOP_BYTE + ByteAt(s, i + 1) * 0x1_0000 + ByteAt(s, i + 2) * 256 + ByteAt(s, i + 3)
  }

  lemma WindowSlides(s: seq<byte>, i: nat)
    ensures Window(s, i + 1) == Window(s, i) % TOP_BYTE * 256 + ByteAt(s, i + 4)
    ensures Window(s, i) == ByteAt(s, i) * TOP_BYTE + Window(s, i + 1) / 256
  {
  }

  function Opened(input: seq<byte>): Reader {
    Reader(0, WORD - 1, Window(input, 0), input, 4)
  }

  function Refill(r: Reader): (n: Reader)
    requires r.x1 <= r.x2 < WORD
    ensures Split(n.x1, n.x2)
    decreases WORD - (r.x2 - r.x1)
  {
    if SameTop(r.x1, r.x2)
    then Refill(Reader(r.x1 % TOP_BYTE * 256, r.x2 % TOP_BYTE * 256 + 255,
                       r.x % TOP_BYTE * 256 + ByteAt(r.input, r.pos), r.input, r.pos + 1))
    else r
  }

  function NextBit(r: Reader, p1: P1): bool
    requires Split(r.x1, r.x2)
  {
    r.x <= Mid(r.x1, r.x2, p1)
  }

  function AfterBit(r: Reader, p1: P1): (n: Reader)
    requires Split(r.x1, r.x2)
    ensures Split(n.x1, n.x2)
  {
    MidInside(r.x1, r.x2, p1);
    Refill(if NextBit(r, p1) then r.(x2 := Mid(r.x1, r.x2, p1)) else r.(x1 := Mid(r.x1, r.x2, p1) + 1))
  }

  // ------------------------------------------------------------ nested intervals

  /** What is finally written stays inside the bounds held at any time: `z` extends
      `w.out` and its next four bytes, zeros past the end, are within `w`. */
  ghost predicate Holds(w: Writer, z: seq<byte>) {
    w.out <= z && w.x1 <= Window(z, |w.out|) <= w.x2
  }

  lemma {:induction false} HoldsBeforeShift(w: Writer, z: seq<byte>)
    requires w.x1 <= w.x2 < WORD && Holds(Shift(w), z)
    ensures Holds(w, z)
    decreases WORD - (w.x2 - w.x1)
  {
    if SameTop(w.x1, w.x2) {
      var next := Writer(w.x1 % TOP_BYTE * 256, w.x2 % TOP_BYTE * 256 + 255, w.out + [w.x2 / TOP_BYTE]);
      HoldsBeforeShift(next, z);
      WindowSlides(z, |w.out|);
      assert z[|w.out|] == next.out[|w.out|];
    }
  }

  lemma {:induction false} FinishHolds(w: Writer, cs: seq<Choice>)
    requires Split(w.x1, w.x2)
    ensures Holds(w, Finish(PutAll(w, cs)))
    decreases |cs|
  {
    if cs == [] {
      FlushHolds(w);
    } else {
      hide Holds, Finish, Narrow, Shift;
      FinishHolds(Put(w, cs[0]), cs[1..]);
      HoldsBeforeShift(Narrow(w, cs[0]), Finish(PutAll(w, cs)));
      HoldsWider(w, Narrow(w, cs[0]), Finish(PutAll(w, cs)));
    }
  }

  lemma HoldsWider(w: Writer, inner: Writer, z: seq<byte>)
    requires Holds(inner, z) && w.x1 <= inner.x1 <= inner.x2 <= w.x2 && w.out == inner.out
    ensures Holds(w, z)
  {
  }

  lemma FlushHolds(w: Writer)
    requires Split(w.x1, w.x2)
    ensures Holds(w, Finish(w))
  {
    var z := Finish(w);
    hide Finish;
    WindowOfFour(z, |w.out|, w.x1);
  }

  lemma WindowOfFour(z: seq<byte>, at: nat, v: nat)
    requires v < WORD && |z| == at + 4 && z[at..] == BigEndian(v)
    ensures Window(z, at) == v
  {
    var e := BigEndian(v);
    BigEndianValue(v);
    hide BigEndian;
    assert z[at] == e[0] && z[at + 1] == e[1] && z[at + 2] == e[2] && z[at + 3] == e[3];
  }

  lemma BigEndianValue(v: nat)
    requires v < WORD
    ensures var e := BigEndian(v); e[0] as nat * TOP_BYTE + e[1] as nat * 0x1_0000 + e[2] as nat * 256 + e[3] as nat == v
  {
    assert v / 0x1_0000 == v / 256 / 256 && v / TOP_BYTE == v / 256 / 256 / 256;
  }

  // ------------------------------------------------------------ lockstep

  /** `r` reads what a writer at `w` goes on to produce when it still has `cs` to put. */
  ghost predicate SyncAt(r: Reader, w: Writer, cs: seq<Choice>) {
    && Split(w.x1, w.x2) && r.x1 == w.x1 && r.x2 == w.x2
    && r.input == Finish(PutAll(w, cs))
    && r.pos == |w.out| + 4 && r.x == Window(r.input, |w.out|)
  }

  ghost predicate Reads(r: Reader, cs: seq<Choice>) {
    exists w :: SyncAt(r, w, cs)
  }

  lemma {:induction false} RefillKeepsStep(r: Reader, w: Writer)
    requires w.x1 <= w.x2 < WORD && r.x1 == w.x1 && r.x2 == w.x2
    requires r.pos == |w.out| + 4 && r.x == Window(r.input, |w.out|)
    ensures var r', w' := Refill(r), Shift(w);
            r'.x1 == w'.x1 && r'.x2 == w'.x2 && r'.input == r.input
            && r'.pos == |w'.out| + 4 && r'.x == Window(r.input, |w'.out|)
    decreases WORD - (w.x2 - w.x1)
  {
    if SameTop(w.x1, w.x2) {
      WindowSlides(r.input, |w.out|);
      RefillKeepsStep(Reader(r.x1 % TOP_BYTE * 256, r.x2 % TOP_BYTE * 256 + 255,
                             r.x % TOP_BYTE * 256 + ByteAt(r.input, r.pos), r.input, r.pos + 1),
                      Writer(w.x1 % TOP_BYTE * 256, w.x2 % TOP_BYTE * 256 + 255, w.out + [w.x2 / TOP_BYTE]));
    }
  }

  /** A decoder in step reads the next bit back and stays in step. */
  lemma ReadsNext(r: Reader, cs: seq<Choice>)
    requires Reads(r, cs) && cs != []
    ensures Split(r.x1, r.x2)
    ensures NextBit(r, cs[0].p1) == cs[0].bit
    ensures Reads(AfterBit(r, cs[0].p1), cs[1..])
  {
    hide Mid, Shift, Refill, Finish, Window;
    var w :| SyncAt(r, w, cs);
    var c := cs[0];
    FinishHolds(Put(w, c), cs[1..]);
    var narrowed := Narrow(w, c);
    HoldsBeforeShift(narrowed, r.input);
    MidInside(w.x1, w.x2, c.p1);
    assert NextBit(r, c.p1) == c.bit;
    RefillKeepsStep(r.(x1 := narrowed.x1, x2 := narrowed.x2), narrowed);
    assert SyncAt(AfterBit(r, c.p1), Put(w, c), cs[1..]);
  }

  lemma OpenedReads(cs: seq<Choice>)
    ensures Reads(Opened(Finish(PutAll(START, cs))), cs)
  {
    assert SyncAt(Opened(Finish(PutAll(START, cs))), START, cs);
  }

  // ------------------------------------------------------------ adaptive coding

  /** A model: any function of its own history. */
  datatype Predictor<!S> = Predictor(predict: S -> P1, update: (S, bool) -> S)

  /** The decisions that code the low `count` bits of `v`, high bit first. */
  function BitChoices<S>(m: Predictor<S>, s: S, v: nat, count: nat): seq<Choice>
    decreases count, v
  {
    if count == 0 then []
    else
      var bit := BitOf(v, count - 1);
      [Choice(bit, m.predict(s))] + BitChoices(m, m.update(s, bit), v, count - 1)
  }

  function AfterBits<S>(m: Predictor<S>, s: S, v: nat, count: nat): S
    decreases count, v
  {
    if count == 0 then s else AfterBits(m, m.update(s, BitOf(v, count - 1)), v, count - 1)
  }

  function ByteChoices<S>(m: Predictor<S>, s: S, data: seq<byte>): seq<Choice>
    decreases |data|
  {
    if data == [] then []
    else BitChoices(m, s, data[0], 8) + ByteChoices(m, AfterBits(m, s, data[0], 8), data[1..])
  }

  function EncodeBytes<S>(m: Predictor<S>, s: S, data: seq<byte>): seq<byte> {
    Finish(PutAll(START, ByteChoices(m, s, data)))
  }

  datatype Progress<S> = Progress(value: nat, reader: Reader, model: S)

  /** Read `count` bits under `m`, shifting them into `acc`. */
  function GetBits<S>(m: Predictor<S>, s: S, r: Reader, acc: nat, count: nat): (p: Progress<S>)
    requires Split(r.x1, r.x2)
    ensures Split(p.reader.x1, p.reader.x2)
    decreases count, acc, r.pos
  {
    if count == 0 then Progress(acc, r, s)
    else
      var p1 := m.predict(s);
      var bit := NextBit(r, p1);
      GetBits(m, m.update(s, bit), AfterBit(r, p1), 2 * acc + if bit then 1 else 0, count - 1)
  }

  lemma {:induction false} GetBitsBound<S>(m: Predictor<S>, s: S, r: Reader, acc: nat, count: nat, k: nat)
    requires Split(r.x1, r.x2) && acc < Pow2(k)
    ensures GetBits(m, s, r, acc, count).value < Pow2(k + count)
    decreases count
  {
    if count > 0 {
      var p1 := m.predict(s);
      var bit := NextBit(r, p1);
      GetBitsBound(m, m.update(s, bit), AfterBit(r, p1), 2 * acc + if bit then 1 else 0, count - 1, k + 1);
    }
  }

  lemma GetByteBound<S>(m: Predictor<S>, s: S, r: Reader)
    requires Split(r.x1, r.x2)
    ensures GetBits(m, s, r, 0, 8).value < 256
  {
    hide GetBits;
    GetBitsBound(m, s, r, 0, 8, 0);
    assert Pow2(8) == 256;
  }

  function GetBytes<S>(m: Predictor<S>, s: S, r: Reader, len: nat): (d: seq<byte>)
    requires Split(r.x1, r.x2)
    ensures |d| == len
    decreases len
  {
    if len == 0 then []
    else
      GetByteBound(m, s, r);
      var p := GetBits(m, s, r, 0, 8);
      [p.value] + GetBytes(m, p.model, p.reader, len - 1)
  }

  function DecodeBytes<S>(m: Predictor<S>, s: S, input: seq<byte>, len: nat): seq<byte> {
    GetBytes(m, s, Opened(input), len)
  }

  lemma {:induction false} GetsBits<S>(m: Predictor<S>, s: S, r: Reader, v: nat, acc: nat, count: nat, rest: seq<Choice>)
    requires Reads(r, BitChoices(m, s, v, count) + rest)
    ensures Split(r.x1, r.x2)
    ensures var p := GetBits(m, s, r, acc, count);
            p.value == ShiftedIn(acc, v, count) && p.model == AfterBits(m, s, v, count) && Reads(p.reader, rest)
    decreases count
  {
    hide Split, NextBit, AfterBit, Reads;
    ReadsSplit(r, BitChoices(m, s, v, count) + rest);
    if count == 0 {
      assert BitChoices(m, s, v, count) + rest == rest;
    } else {
      var cs := BitChoices(m, s, v, count) + rest;
      var bit := BitOf(v, count - 1);
      ReadsNext(r, cs);
      var s' := m.update(s, bit);
      assert cs[1..] == BitChoices(m, s', v, count - 1) + rest;
      GetsBits(m, s', AfterBit(r, m.predict(s)), v, 2 * acc + if bit then 1 else 0, count - 1, rest);
    }
  }

  lemma ReadsSplit(r: Reader, cs: seq<Choice>)
    requires Reads(r, cs)
    ensures Split(r.x1, r.x2)
  {
  }

  lemma {:induction false} GetsBytes<S>(m: Predictor<S>, s: S, r: Reader, data: seq<byte>)
    requires Reads(r, ByteChoices(m, s, data))
    ensures Split(r.x1, r.x2)
    ensures GetBytes(m, s, r, |data|) == data
    decreases |data|
  {
    hide Split, Reads, GetBits, BitChoices, AfterBits;
    ReadsSplit(r, ByteChoices(m, s, data));
    if data != [] {
      var s' := AfterBits(m, s, data[0], 8);
      GetsBits(m, s, r, data[0], 0, 8, ByteChoices(m, s', data[1..]));
      ByteShiftedIn(data[0]);
      GetsBytes(m, s', GetBits(m, s, r, 0, 8).reader, data[1..]);
    }
  }

  lemma ByteShiftedIn(b: byte)
    ensures ShiftedIn(0, b, 8) == b
  {
    ShiftedInValue(0, b, 8);
    assert Pow2(8) == 256;
    LowIsAll(b, 8);
  }

  /** Whatever the model predicts, decoding returns the bytes. */
  lemma CarrylessRoundTrip<S>(m: Predictor<S>, s: S, data: seq<byte>)
    ensures DecodeBytes(m, s, EncodeBytes(m, s, data), |data|) == data
  {
    OpenedReads(ByteChoices(m, s, data));
    GetsBytes(m, s, Opened(EncodeBytes(m, s, data)), data);
  }

  // ------------------------------------------------------------ size

  lemma {:induction false} PutAllSize(w: Writer, cs: seq<Choice>)
    requires Split(w.x1, w.x2)
    ensures |PutAll(w, cs).out| <= |w.out| + 4 * |cs|
    decreases |cs|
  {
    if cs != [] {
      AtMostFourShifts(Narrow(w, cs[0]));
      PutAllSize(Put(w, cs[0]), cs[1..]);
    }
  }

  lemma {:induction false} BitChoicesSize<S>(m: Predictor<S>, s: S, v: nat, count: nat)
    ensures |BitChoices(m, s, v, count)| == count
    decreases count
  {
    if count > 0 {
      BitChoicesSize(m, m.update(s, BitOf(v, count - 1)), v, count - 1);
    }
  }

  lemma {:induction false} ByteChoicesSize<S>(m: Predictor<S>, s: S, data: seq<byte>)
    ensures |ByteChoices(m, s, data)| == 8 * |data|
    decreases |data|
  {
    if data != [] {
      BitChoicesSize(m, s, data[0], 8);
      ByteChoicesSize(m, AfterBits(m, s, data[0], 8), data[1..]);
    }
  }

  /** Coding never takes more than 32 bytes a byte, plus the flush. */
  lemma EncodedSize<S>(m: Predictor<S>, s: S, data: seq<byte>)
    ensures |EncodeBytes(m, s, data)| <= 32 * |data| + 4
  {
    ByteChoicesSize(m, s, data);
    PutAllSize(START, ByteChoices(m, s, data));
  }

  // ------------------------------------------------------------ the coder objects

  class Encoder {
    var x1: nat
    var x2: nat
    var out: seq<byte>

    ghost function State(): Writer
      reads this
    {
      Writer(x1, x2, out)
    }

    ghost predicate Valid()
      reads this
    {
      Split(x1, x2)
    }

    constructor ()
      ensures Valid() && State() == START
    {
      x1, x2, out := 0, WORD - 1, [];
    }

    method Encode(bit: bool, p1: P1)
      requires Valid()
      modifies this
      ensures Valid() && State() == Put(old(State()), Choice(bit, p1))
    {
      hide Mid;
      ghost var goal := Put(State(), Choice(bit, p1));
      var xmid := x1 + (x2 - x1) * p1 / 0x1_0000;
      MidIs(x1, x2, p1, xmid);
      if bit {
        x2 := xmid;
      } else {
        x1 := xmid + 1;
      }
      while x1 / TOP_BYTE == x2 / TOP_BYTE
        invariant x1 <= x2 < WORD && Shift(State()) == goal
        decreases WORD - (x2 - x1)
      {
        out := out + [x2 / TOP_BYTE];
        x1 := x1 % TOP_BYTE * 256;
        x2 := x2 % TOP_BYTE * 256 + 255;
      }
    }

    method Flush() returns (r: seq<byte>)
      requires Valid()
      ensures r == Finish(State())
    {
      r := out + BigEndian(x1);
    }
  }

  class Decoder {
    var x1: nat
    var x2: nat
    var x: nat
    const input: seq<byte>
    var pos: nat

    ghost function State(): Reader
      reads this
    {
      Reader(x1, x2, x, input, pos)
    }

    ghost predicate Valid()
      reads this
    {
      Split(x1, x2)
    }

    constructor (input: seq<byte>)
      ensures Valid() && State() == Opened(input)
    {
      this.input := input;
      x1, x2, x, pos := 0, WORD - 1, 0, 0;
      new;
      var i := 0;
      while i < 4
        invariant 0 <= i <= 4 && pos == i && x1 == 0 && x2 == WORD - 1
        invariant x == Leading(input, i)
      {
        var b := NextByte();
        x := x % TOP_BYTE * 256 + b;
        i := i + 1;
      }
    }

    method NextByte() returns (b: byte)
      modifies this`pos
      ensures b == ByteAt(input, old(pos)) && pos == old(pos) + 1
    {
      b := if pos < |input| then input[pos] else 0;
      pos := pos + 1;
    }

    method Decode(p1: P1) returns (bit: bool)
      requires Valid()
      modifies this
      ensures Valid() && bit == NextBit(old(State()), p1) && State() == AfterBit(old(State()), p1)
    {
      hide Mid, Refill, ByteAt;
      ghost var goal := AfterBit(State(), p1);
      var xmid := x1 + (x2 - x1) * p1 / 0x1_0000;
      MidIs(x1, x2, p1, xmid);
      bit := x <= xmid;
      if bit {
        x2 := xmid;
      } else {
        x1 := xmid + 1;
      }
      while x1 / TOP_BYTE == x2 / TOP_BYTE
        invariant x1 <= x2 < WORD && Refill(State()) == goal
        decreases WORD - (x2 - x1)
      {
        RefillNext(State());
        x1 := x1 % TOP_BYTE * 256;
        x2 := x2 % TOP_BYTE * 256 + 255;
        var b := NextByte();
        x := x % TOP_BYTE * 256 + b;
      }
      RefillDone(State());
    }
  }

  lemma RefillNext(r: Reader)
    requires r.x1 <= r.x2 < WORD && SameTop(r.x1, r.x2)
    ensures var a, b := r.x1 % TOP_BYTE * 256, r.x2 % TOP_BYTE * 256 + 255;
      && a <= b < WORD && b - a > r.x2 - r.x1
      && Refill(r) == Refill(Reader(a, b, r.x % TOP_BYTE * 256 + ByteAt(r.input, r.pos), r.input, r.pos + 1))
  {
    ShiftWidens(r.x1, r.x2);
  }

  lemma ShiftWidens(x1: nat, x2: nat)
    requires x1 <= x2 < WORD && SameTop(x1, x2)
    ensures x2 % TOP_BYTE - x1 % TOP_BYTE == x2 - x1 && x2 % TOP_BYTE * 256 + 255 < WORD
  {
  }

  lemma RefillDone(r: Reader)
    requires r.x1 <= r.x2 < WORD && !SameTop(r.x1, r.x2)
    ensures Refill(r) == r
  {
  }

  /** The first `i` bytes of the window, as the constructor gathers them. */
  function Leading(s: seq<byte>, i: nat): nat
    requires i <= 4
  {
    if i == 0 then 0
    else if i == 1 then ByteAt(s, 0)
    else if i == 2 then ByteAt(s, 0) * 256 + ByteAt(s, 1)
    else if i == 3 then ByteAt(s, 0) * 0x1_0000 + ByteAt(s, 1) * 256 + ByteAt(s, 2)
    else Window(s, 0)
  }
}
