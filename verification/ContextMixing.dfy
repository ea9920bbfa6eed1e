/** The context-mixing model that codes the transform's output: three adaptive
    counters, refined by a table keyed by the partial byte and a run flag. */
module ContextMixing {
  import opened Arithmetic
  import opened Bytes
  import opened BitStrings
  import opened CarrylessCoder

  type U16 = x: int | 0 <= x < 0x1_0000

  const COUNTER_INIT: U16 := 0x8000
  const SSE_BUCKETS: nat := 17

  /** `node` is the partial byte under a leading 1 bit. */
  datatype Mixer = Mixer(
    order0: seq<U16>, order1: seq<seq<U16>>, sse: seq<seq<U16>>,
    node: nat, c1: nat, c2: nat, run: nat, sseRow: nat, bucket: nat)

  predicate WellFormed(m: Mixer) {
    && |m.order0| == 256
    && |m.order1| == 256 && (forall i :: 0 <= i < 256 ==> |m.order1[i]| == 256)
    && |m.sse| == 512 && (forall i :: 0 <= i < 512 ==> |m.sse[i]| == SSE_BUCKETS)
    && 1 <= m.node < 256 && m.c1 < 256 && m.c2 < 256
    && m.sseRow < 512 && m.bucket + 1 < SSE_BUCKETS
  }

  function Repeat<T>(x: T, n: nat): (s: seq<T>)
    ensures |s| == n && forall i :: 0 <= i < n ==> s[i] == x
  {
    seq(n, i => x)
  }

  /** The refinement table starts as the identity over sixteen equal buckets. */
  function Identity(): (s: seq<U16>)
    ensures |s| == SSE_BUCKETS
  {
    seq<U16>(SSE_BUCKETS, k requires 0 <= k < SSE_BUCKETS => if k == SSE_BUCKETS - 1 then 0xFFFF else 0x1000 * k)
  }

  function Initial(): (m: Mixer)
    ensures WellFormed(m)
  {
    Mixer(Repeat(COUNTER_INIT, 256), Repeat(Repeat(COUNTER_INIT, 256), 256), Repeat(Identity(), 512), 1, 0, 0, 0, 0, 0)
  }

  type Mix = m: Mixer | WellFormed(m) witness Initial()

  /** Move a counter toward the observed bit; it stays in 16 bits. */
  function Adapt(p: U16, bit: bool, rate: nat): U16 {
    ShrAtMost(p, rate);
    ShrAtMost(0xFFFF - p, rate);
    if bit then p as int + Shr(0xFFFF - p, rate) else p as int - Shr(p, rate)
  }

  lemma {:induction false} ShrAtMost(v: nat, i: nat)
    ensures Shr(v, i) <= v
    decreases i
  {
    if i > 0 {
      ShrAtMost(v / 2, i - 1);
    }
  }

  function Adapted(row: seq<U16>, i: nat, bit: bool, rate: nat): (r: seq<U16>)
    requires i < |row|
    ensures |r| == |row|
  {
    row[i := Adapt(row[i], bit, rate)]
  }

  function BlendOf(p0: int, p1: int, p2: int): (p: U16)
    requires 0 <= p0 < 0x1_0000 && 0 <= p1 < 0x1_0000 && 0 <= p2 < 0x1_0000
  {
    ((p0 + p1) * 7 + p2 * 2) / 16
  }

  function Blend(m: Mix): U16 {
    BlendOf(m.order0[m.node], m.order1[m.c1][m.node], m.order1[m.c2][m.node])
  }

  /** Linear interpolation between neighbouring buckets; the shift rounds down. */
  function Interpolate(lo: U16, hi: U16, frac: nat): (r: U16)
    requires frac < 0x1000
    ensures lo <= hi ==> lo <= r <= hi
    ensures hi <= lo ==> hi <= r <= lo
  {
    InterpolateInside(lo, hi, frac, (hi - lo) * frac);
    lo as int + (hi as int - lo as int) * frac / 0x1000
  }

  lemma InterpolateInside(lo: U16, hi: U16, frac: nat, m: int)
    requires frac < 0x1000 && m == (hi - lo) * frac
    ensures lo <= hi ==> lo <= lo + m / 0x1000 <= hi
    ensures hi <= lo ==> hi <= lo + m / 0x1000 <= lo
  {
    if lo <= hi {
      MulLe(hi - lo, hi - lo, frac, 0x1000);
      MulLe(hi - lo, hi - lo, 0, frac);
    } else {
      MulLe(lo - hi, lo - hi, frac, 0x1000);
      MulLe(lo - hi, lo - hi, 0, frac);
      assert m == -((lo - hi) * frac);
    }
  }

  /** The state after a prediction: it remembers which buckets it used. */
  function Located(m: Mix): Mix {
    m.(sseRow := (if m.run > 2 then 256 else 0) + m.node, bucket := Blend(m) / 0x1000)
  }

  function Weighted(p: int, refined: int): P1 {
    var mixed := (p + 3 * refined) / 4;
    if mixed < 1 then 1 else if mixed > 0xFFFF then 0xFFFF else mixed
  }

  function Predict(m: Mix): P1 {
    var p := Blend(m);
    var row := m.sse[Located(m).sseRow];
    var refined := Interpolate(row[p / 0x1000], row[p / 0x1000 + 1], p % 0x1000);
    Weighted(p, refined)
  }

  function Advance(m: Mix, bit: bool): Mix {
    var node := 2 * m.node + if bit then 1 else 0;
    if node < 256 then m.(node := node)
    else m.(node := 1, c1 := node % 256, c2 := m.c1, run := if node % 256 == m.c1 then m.run + 1 else 0)
  }

  function Learn(m: Mix, bit: bool): Mix {
    var row := Adapted(Adapted(m.sse[m.sseRow], m.bucket, bit, 6), m.bucket + 1, bit, 6);
    Advance(m.(order0 := Adapted(m.order0, m.node, bit, 2),
               order1 := m.order1[m.c1 := Adapted(m.order1[m.c1], m.node, bit, 4)],
               sse := m.sse[m.sseRow := row]), bit)
  }

  function Step(m: Mix, bit: bool): Mix {
    Learn(Located(m), bit)
  }

  const CM := Predictor(Predict, Step)

  // ------------------------------------------------------------ a bit seen becomes likelier

  lemma {:induction false} ShrPositive(v: nat, i: nat)
    ensures Shr(v, i) > 0 <==> v >= Pow2(i)
    decreases i
  {
    if i > 0 {
      ShrPositive(v / 2, i - 1);
    }
  }

  /** A counter moves toward the bit until less than one step is left. */
  lemma AdaptToward(p: U16, bit: bool, rate: nat)
    ensures if bit then Adapt(p, bit, rate) >= p else Adapt(p, bit, rate) <= p
    ensures Adapt(p, bit, rate) == p <==> (if bit then 0xFFFF - p else p) < Pow2(rate)
  {
    ShrPositive(p, rate);
    ShrPositive(0xFFFF - p, rate);
  }

  /** The tables as a bit leaves them, back in the context it was coded in. */
  function Again(m: Mix, bit: bool): Mix {
    var l := Learn(Located(m), bit);
    m.(order0 := l.order0, order1 := l.order1, sse := l.sse)
  }

  /** The two counters that were read move, each until it is within its own step of the end, and
      no other counter changes. */
  lemma LearnMoves(m: Mix, bit: bool)
    ensures var v := Again(m, bit);
      && (if bit then v.order0[m.node] >= m.order0[m.node] else v.order0[m.node] <= m.order0[m.node])
      && (v.order0[m.node] == m.order0[m.node] <==> (if bit then 0xFFFF - m.order0[m.node] else m.order0[m.node]) < 4)
      && (forall i :: 0 <= i < 256 && i != m.node ==> v.order0[i] == m.order0[i])
    ensures var x, y := m.order1[m.c1][m.node], Again(m, bit).order1[m.c1][m.node];
      && (if bit then y >= x else y <= x)
      && (y == x <==> (if bit then 0xFFFF - x else x) < 16)
    ensures var v := Again(m, bit);
      forall c, i :: 0 <= c < 256 && 0 <= i < 256 && !(c == m.c1 && i == m.node) ==> v.order1[c][i] == m.order1[c][i]
  {
    hide Adapt, Interpolate, Predict;
    AdaptToward(m.order0[m.node], bit, 2);
    AdaptToward(m.order1[m.c1][m.node], bit, 4);
    FewPowers();
  }

  lemma FewPowers()
    ensures Pow2(2) == 4 && Pow2(4) == 16 && Pow2(6) == 64
  {
  }

  /** So does the pair of table entries the prediction was refined with; the rest stays. */
  lemma LearnRefines(m: Mix, bit: bool)
    ensures var r, b := Located(m).sseRow, Located(m).bucket;
      var row, next := m.sse[r], Again(m, bit).sse[r];
      && (forall k :: b <= k <= b + 1 ==>
            && (if bit then next[k] >= row[k] else next[k] <= row[k])
            && (next[k] == row[k] <==> (if bit then 0xFFFF - row[k] else row[k]) < 64))
      && (forall k :: 0 <= k < SSE_BUCKETS && k != b && k != b + 1 ==> next[k] == row[k])
    ensures forall r :: 0 <= r < 512 && r != Located(m).sseRow ==> Again(m, bit).sse[r] == m.sse[r]
  {
    hide Adapt, Interpolate, Predict, Blend;
    var l := Located(m);
    var row := m.sse[l.sseRow];
    AdaptToward(row[l.bucket], bit, 6);
    AdaptToward(row[l.bucket + 1], bit, 6);
    FewPowers();
  }

  /** The blend of the counters moves toward the bit. */
  lemma BlendToward(m: Mix, bit: bool)
    ensures if bit then Blend(Again(m, bit)) >= Blend(m) else Blend(Again(m, bit)) <= Blend(m)
  {
    hide Learn, Again;
    LearnMoves(m, bit);
    AgainPlace(m, bit);
  }

  lemma AgainPlace(m: Mix, bit: bool)
    ensures var v := Again(m, bit); v.node == m.node && v.c1 == m.c1 && v.c2 == m.c2 && v.run == m.run
  {
  }

  lemma InterpolateIs(lo: U16, hi: U16, frac: nat)
    requires frac < 0x1000
    ensures Interpolate(lo, hi, frac) == (lo * (0x1000 - frac) + hi * frac) / 0x1000
  {
    var a, b := lo as int, hi as int;
    assert (b - a) * frac == b * frac - a * frac;
    assert a * (0x1000 - frac) == 0x1000 * a - a * frac;
  }

  /** Between higher ends interpolation gives more. */
  lemma EndsGrow(lo: U16, hi: U16, lo': U16, hi': U16, frac: nat)
    requires frac < 0x1000 && lo <= lo' && hi <= hi'
    ensures Interpolate(lo, hi, frac) <= Interpolate(lo', hi', frac)
  {
    InterpolateIs(lo, hi, frac);
    InterpolateIs(lo', hi', frac);
    hide Interpolate;
    MulLe(lo, lo', 0x1000 - frac, 0x1000 - frac);
    MulLe(hi, hi', frac, frac);
    QuotientGrows(lo * (0x1000 - frac) + hi * frac, lo' * (0x1000 - frac) + hi' * frac, 0x1000);
  }

  /** Between rising ends it gives more further on. */
  lemma PlaceGrows(lo: U16, hi: U16, frac: nat, further: nat)
    requires frac <= further < 0x1000 && lo <= hi
    ensures Interpolate(lo, hi, frac) <= Interpolate(lo, hi, further)
  {
    MulLe(hi - lo, hi - lo, frac, further);
    QuotientGrows((hi - lo) * frac, (hi - lo) * further, 0x1000);
  }

  lemma WeightedGrows(p: int, refined: int, q: int, finer: int)
    requires p <= q && refined <= finer
    ensures Weighted(p, refined) <= Weighted(q, finer)
  {
  }

  /** Coded again in the same context, a bit is predicted at least as strongly: as long as the blend
      stays in its bucket and the table rises there, as it does to begin with. */
  lemma PredictToward(m: Mix, bit: bool)
    requires Blend(Again(m, bit)) / 0x1000 == Blend(m) / 0x1000
    requires var row, b := m.sse[Located(m).sseRow], Blend(m) / 0x1000; row[b] <= row[b + 1]
    ensures if bit then Predict(Again(m, bit)) >= Predict(m) else Predict(Again(m, bit)) <= Predict(m)
  {
    hide Learn, Again, Interpolate, Blend, Weighted;
    var v := Again(m, bit);
    var p, q, b := Blend(m), Blend(v), Blend(m) / 0x1000;
    var row, next := m.sse[Located(m).sseRow], v.sse[Located(m).sseRow];
    BlendToward(m, bit);
    LearnRefines(m, bit);
    AgainPlace(m, bit);
    var lo, hi, lo', hi' := row[b], row[b + 1], next[b], next[b + 1];
    if bit {
      PlaceGrows(lo, hi, p % 0x1000, q % 0x1000);
      EndsGrow(lo, hi, lo', hi', q % 0x1000);
      WeightedGrows(p, Interpolate(lo, hi, p % 0x1000), q, Interpolate(lo', hi', q % 0x1000));
    } else {
      PlaceGrows(lo, hi, q % 0x1000, p % 0x1000);
      EndsGrow(lo', hi', lo, hi, q % 0x1000);
      WeightedGrows(q, Interpolate(lo', hi', q % 0x1000), p, Interpolate(lo, hi, p % 0x1000));
    }
  }

  class Model {
    var order0: seq<U16>
    var order1: seq<seq<U16>>
    var sse: seq<seq<U16>>
    var node: nat
    var c1: nat
    var c2: nat
    var run: nat
    var sseRow: nat
    var bucket: nat

    ghost function Fields(): Mixer
      reads this
    {
      Mixer(order0, order1, sse, node, c1, c2, run, sseRow, bucket)
    }

    ghost predicate Valid()
      reads this
    {
      WellFormed(Fields())
    }

    ghost function State(): Mix
      requires Valid()
      reads this
    {
      Fields()
    }

    constructor ()
      ensures Valid() && State() == Initial()
    {
      order0 := Repeat(COUNTER_INIT, 256);
      order1 := Repeat(Repeat(COUNTER_INIT, 256), 256);
      sse := Repeat(Identity(), 512);
      node, c1, c2, run, sseRow, bucket := 1, 0, 0, 0, 0, 0;
    }

    method PredictBit() returns (p1: P1)
      requires Valid()
      modifies this`sseRow, this`bucket
      ensures Valid() && State() == Located(old(State())) && p1 == Predict(old(State()))
    {
      hide Adapted, Learn, Interpolate, Weighted, BlendOf;
      var p := BlendOf(order0[node], order1[c1][node], order1[c2][node]);
      sseRow := (if run > 2 then 256 else 0) + node;
      bucket := p / 0x1000;
      var row := sse[sseRow];
      var refined := Interpolate(row[bucket], row[bucket + 1], p % 0x1000);
      p1 := Weighted(p, refined);
    }

    method Update(bit: bool)
      requires Valid()
      modifies this
      ensures Valid() && State() == Learn(old(State()), bit)
    {
      hide Adapted, Predict, Blend;
      order0 := Adapted(order0, node, bit, 2);
      order1 := order1[c1 := Adapted(order1[c1], node, bit, 4)];
      var row := Adapted(sse[sseRow], bucket, bit, 6);
      row := Adapted(row, bucket + 1, bit, 6);
      sse := sse[sseRow := row];
      node := 2 * node + if bit then 1 else 0;
      if node >= 256 {
        c2 := c1;
        c1 := node % 256;
        run := if c1 == c2 then run + 1 else 0;
        node := 1;
      }
    }
  }

  // ------------------------------------------------------------ coding bytes

  /** One byte, high bit first, with the bytes `rest` still to come. */
  method EncodeByte(model: Model, enc: Encoder, b: byte, ghost rest: seq<byte>)
    requires model.Valid() && enc.Valid()
    modifies model, enc
    ensures model.Valid() && enc.Valid()
    ensures PutAll(enc.State(), ByteChoices(CM, model.State(), rest)) == old(PutAll(enc.State(), Remaining(model.State(), b, 8, rest)))
  {
    hide Predict, Located, Learn, Initial, Put, WellFormed, BitChoices, AfterBits, Remaining, BitOf;
    ghost var goal := PutAll(enc.State(), Remaining(model.State(), b, 8, rest));
    var i := 8;
    while i > 0
      invariant 0 <= i <= 8 && model.Valid() && enc.Valid()
      invariant PutAll(enc.State(), Remaining(model.State(), b, i, rest)) == goal
    {
      RemainingNext(model.State(), b, i, rest);
      i := i - 1;
      var bit := BitOf(b, i);
      var p1 := model.PredictBit();
      enc.Encode(bit, p1);
      model.Update(bit);
    }
    RemainingNone(model.State(), b, rest);
  }

  method EncodeBlock(bwt: seq<byte>) returns (r: seq<byte>)
    ensures r == EncodeBytes(CM, Initial(), bwt)
  {
    hide Predict, Located, Learn, Initial, Put, WellFormed, BitChoices, AfterBits;
    var model := new Model();
    var enc := new Encoder();
    ghost var goal := PutAll(START, ByteChoices(CM, Initial(), bwt));
    assert bwt[0..] == bwt;
    for k := 0 to |bwt|
      invariant model.Valid() && enc.Valid() && fresh(model) && fresh(enc)
      invariant PutAll(enc.State(), ByteChoices(CM, model.State(), bwt[k..])) == goal
    {
      ghost var rest := bwt[k + 1..];
      assert bwt[k..][1..] == rest;
      EncodeByte(model, enc, bwt[k], rest);
    }
    assert ByteChoices(CM, model.State(), bwt[|bwt|..]) == [];
    r := enc.Flush();
  }

  /** The choices left when `i` bits of `b` and the bytes `rest` are still to be coded. */
  ghost function Remaining(m: Mix, b: byte, i: nat, rest: seq<byte>): seq<Choice> {
    BitChoices(CM, m, b, i) + ByteChoices(CM, AfterBits(CM, m, b, i), rest)
  }

  lemma RemainingNext(m: Mix, b: byte, i: nat, rest: seq<byte>)
    requires i > 0
    ensures var bit := BitOf(b, i - 1);
            Remaining(m, b, i, rest) == [Choice(bit, Predict(m))] + Remaining(Learn(Located(m), bit), b, i - 1, rest)
    ensures var cs := Remaining(m, b, i, rest);
            cs != [] && cs[0] == Choice(BitOf(b, i - 1), Predict(m))
            && cs[1..] == Remaining(Learn(Located(m), BitOf(b, i - 1)), b, i - 1, rest)
  {
    hide Predict, Located, Learn, ByteChoices, BitOf;
  }

  lemma RemainingNone(m: Mix, b: byte, rest: seq<byte>)
    ensures Remaining(m, b, 0, rest) == ByteChoices(CM, m, rest)
  {
  }

  method DecodeByte(model: Model, dec: Decoder) returns (b: byte)
    requires model.Valid() && dec.Valid()
    modifies model, dec
    ensures model.Valid() && dec.Valid()
    ensures Progress(b, dec.State(), model.State()) == GetBits(CM, old(model.State()), old(dec.State()), 0, 8)
  {
    hide Predict, Located, Learn, AfterBit, NextBit, WellFormed, Split;
    ghost var goal := GetBits(CM, model.State(), dec.State(), 0, 8);
    GetByteBound(CM, model.State(), dec.State());
    var acc: nat := 0;
    for j := 0 to 8
      invariant model.Valid() && dec.Valid()
      invariant GetBits(CM, model.State(), dec.State(), acc, 8 - j) == goal
    {
      var p1 := model.PredictBit();
      var bit := dec.Decode(p1);
      model.Update(bit);
      acc := 2 * acc + if bit then 1 else 0;
    }
    b := acc;
  }

  method DecodeBlock(data: seq<byte>, len: nat) returns (r: seq<byte>)
    ensures r == DecodeBytes(CM, Initial(), data, len)
  {
    hide Predict, Located, Learn, Initial, AfterBit, NextBit, WellFormed, Opened, Split, GetBits;
    var model := new Model();
    var dec := new Decoder(data);
    ghost var goal := DecodeBytes(CM, Initial(), data, len);
    r := [];
    for k := 0 to len
      invariant model.Valid() && dec.Valid()
      invariant r + GetBytes(CM, model.State(), dec.State(), len - k) == goal
    {
      var b := DecodeByte(model, dec);
      r := r + [b];
    }
  }

  /** Context mixing loses nothing. */
  method RoundTrip(bwt: seq<byte>) returns (coded: seq<byte>, back: seq<byte>)
    ensures back == bwt && |coded| <= 32 * |bwt| + 4
  {
    coded := EncodeBlock(bwt);
    EncodedSize(CM, Initial(), bwt);
    back := DecodeBlock(coded, |bwt|);
    CarrylessRoundTrip(CM, Initial(), bwt);
  }
}
