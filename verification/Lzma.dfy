/** The LZMA-style codec: tokens to modelled bits and back. */
module Lzma {
  import opened Bytes
  import opened BitStrings
  import opened AdaptiveModel
  import opened Tokens

  /** The cells of the probability arrays. `rep` tells the two length coders apart. */
  datatype Ctx =
    | IsMatch(state: nat, posState: nat)
    | IsRep(state: nat)
    | IsRep0(state: nat)
    | IsRep0Long(state: nat, posState: nat)
    | IsRep1(state: nat)
    | IsRep2(state: nat)
    | Lit(ctx: nat, index: nat)
    | LenChoice(rep: bool, posState: nat)
    | LenChoice2(rep: bool, posState: nat)
    | LenLow(rep: bool, posState: nat, index: nat)
    | LenMid(rep: bool, posState: nat, index: nat)
    | LenHigh(rep: bool, index: nat)
    | Slot(lenState: nat, index: nat)
    | Spec(index: nat)
    | Align(index: nat)

  type Syms = seq<Sym<Ctx>>

  function LitNode(ctx: nat): nat -> Ctx { (i: nat) => Lit(ctx, i) }
  function LowNode(rep: bool, ps: nat): nat -> Ctx { (i: nat) => LenLow(rep, ps, i) }
  function MidNode(rep: bool, ps: nat): nat -> Ctx { (i: nat) => LenMid(rep, ps, i) }
  function HighNode(rep: bool): nat -> Ctx { (i: nat) => LenHigh(rep, i) }
  function SlotNode(ls: nat): nat -> Ctx { (i: nat) => Slot(ls, i) }
  function SpecNode(off: nat): nat -> Ctx { (i: nat) => Spec(off + i) }
  function AlignNode(): nat -> Ctx { (i: nat) => Align(i) }

  // ------------------------------------------------------------ distances

  const START_POS_MODEL: nat := 4
  const END_POS_MODEL: nat := 14
  const ALIGN_BITS: nat := 4

  function Log2(v: nat): nat {
    if v < 2 then 0 else 1 + Log2(v / 2)
  }

  /** Distance slot of a 0-based distance. */
  function DistSlot(dist: nat): nat {
    if dist < 4 then dist
    else
      var bsr := Log2(dist);
      2 * bsr + if BitOf(dist, bsr - 1) then 1 else 0
  }

  function SlotBits(slot: nat): nat {
    if slot < 4 then 0 else slot / 2 - 1
  }

  function SlotBase(slot: nat): nat {
    if slot < 4 then slot else Shl(2 + slot % 2, SlotBits(slot))
  }

  /** Every distance lies in the span of its own slot, and slots fit six bits. */
  lemma {:induction false} SlotSpans(dist: nat, k: nat)
    requires dist < Pow2(k) && k >= 2
    ensures SlotBase(DistSlot(dist)) <= dist < SlotBase(DistSlot(dist)) + Pow2(SlotBits(DistSlot(dist)))
    ensures DistSlot(dist) < 2 * k
    ensures if dist < 4 then DistSlot(dist) == dist else DistSlot(dist) >= 4
    decreases dist
  {
    if dist >= 8 {
      SlotSpans(dist / 2, k - 1);
      SlotDoubles(dist);
    } else if dist >= 4 {
      SmallSlots(dist);
    } else {
      assert k == 2 || Pow2(k) >= 4;
    }
  }

  lemma SmallSlots(dist: nat)
    requires 4 <= dist < 8
    ensures DistSlot(dist) == (if dist >= 6 then 5 else 4)
    ensures SlotBase(4) == 4 && SlotBase(5) == 6 && SlotBits(4) == 1 && SlotBits(5) == 1 && Pow2(1) == 2
  {
    assert Log2(dist / 2 / 2) == 0 && Log2(dist / 2) == 1 && Log2(dist) == 2;
    assert BitOf(dist, 1) == BitOf(dist / 2, 0) == (dist / 2 == 3);
    assert Shl(2, 1) == Shl(4, 0) == 4 && Shl(3, 1) == Shl(6, 0) == 6;
  }

  /** Doubling a distance moves it two slots up and doubles base and span. */
  lemma SlotDoubles(dist: nat)
    requires dist >= 8
    ensures var slot := DistSlot(dist / 2);
            && DistSlot(dist) == slot + 2
            && (slot >= 4 ==> SlotBase(slot + 2) == 2 * SlotBase(slot)
                              && Pow2(SlotBits(slot + 2)) == 2 * Pow2(SlotBits(slot)))
  {
    TwoSlotsUp(dist);
    hide *;
    var slot := DistSlot(dist / 2);
    if slot >= 4 {
      SpanDoubles(slot);
    }
  }

  lemma TwoSlotsUp(dist: nat)
    requires dist >= 8
    ensures DistSlot(dist) == DistSlot(dist / 2) + 2
  {
    var bsr := Log2(dist / 2);
    assert Log2(dist / 2) == 1 + Log2(dist / 2 / 2) && dist / 2 / 2 >= 2;
    assert Log2(dist / 2 / 2) == 1 + Log2(dist / 2 / 2 / 2);
    assert Log2(dist) == bsr + 1 && bsr >= 2;
    assert BitOf(dist, bsr) == BitOf(dist / 2, bsr - 1);
  }

  lemma SpanDoubles(slot: nat)
    requires slot >= 4
    ensures SlotBase(slot + 2) == 2 * SlotBase(slot) && Pow2(SlotBits(slot + 2)) == 2 * Pow2(SlotBits(slot))
  {
    assert (slot + 2) % 2 == slot % 2 && SlotBits(slot + 2) == SlotBits(slot) + 1;
    ShlDouble(2 + slot % 2, SlotBits(slot));
  }

  lemma {:induction false} ShlDouble(a: nat, k: nat)
    ensures Shl(a, k + 1) == 2 * Shl(a, k)
    decreases k
  {
    if k > 0 {
      ShlDouble(2 * a, k - 1);
    }
  }

  function LenState(len: nat): nat {
    if len < 2 then 0 else if len - 2 < 3 then len - 2 else 3
  }

  /** Where the bit tree of a slot starts in the shared array of 128 cells. */
  function SpecOffset(slot: nat): nat {
    if slot <= START_POS_MODEL then 0 else SpecOffset(slot - 1) + Pow2(SlotBits(slot - 1))
  }

  ghost function DistSyms(dist: nat, len: nat): Syms
    requires dist >= 1
  {
    var slot := DistSlot(dist - 1);
    TreeSyms(SlotNode(LenState(len)), 1, slot, 6) + ExtraSyms(slot, dist - 1)
  }

  ghost function ExtraSyms(slot: nat, dist0: nat): Syms {
    if slot < START_POS_MODEL || dist0 < SlotBase(slot) then []
    else
      var extra := dist0 - SlotBase(slot);
      if slot < END_POS_MODEL then ReverseSyms(SpecNode(SpecOffset(slot)), 1, extra, SlotBits(slot))
      else PlainSyms(extra / 16, SlotBits(slot) - ALIGN_BITS) + ReverseSyms(AlignNode(), 1, extra % 16, ALIGN_BITS)
  }

  const U32_MAX: nat := 0xFFFF_FFFF

  function SatAdd(a: nat, b: nat): nat {
    if a + b > U32_MAX then U32_MAX else a + b
  }

  ghost function GetDist<S>(d: Dec<Ctx, S>, len: nat): (nat, Dec<Ctx, S>) {
    var (node, d1) := GetTree(d, SlotNode(LenState(len)), 1, 6);
    var slot := if node < 64 then 0 else node - 64;
    if slot < START_POS_MODEL then (slot + 1, d1)
    else
      var (extra, d2) := GetExtra(d1, slot);
      (SatAdd(SatAdd(SlotBase(slot), extra), 1), d2)
  }

  ghost function GetExtra<S>(d: Dec<Ctx, S>, slot: nat): (nat, Dec<Ctx, S>)
    requires slot >= START_POS_MODEL
  {
    if slot < END_POS_MODEL then GetReverse(d, SpecNode(SpecOffset(slot)), 1, 0, 1, SlotBits(slot))
    else
      var (high, d2) := GetPlain(d, 0, SlotBits(slot) - ALIGN_BITS);
      var (low, d3) := GetReverse(d2, AlignNode(), 1, 0, 1, ALIGN_BITS);
      (16 * high + low, d3)
  }

  lemma GetsExtra<S>(d: Dec<Ctx, S>, slot: nat, dist0: nat, rest: Syms)
    requires slot >= START_POS_MODEL
    requires SlotBase(slot) <= dist0 < SlotBase(slot) + Pow2(SlotBits(slot))
    requires InStep(d, ExtraSyms(slot, dist0) + rest)
    ensures GetExtra(d, slot).0 == dist0 - SlotBase(slot)
    ensures InStep(GetExtra(d, slot).1, rest) == true
  {
    hide ReverseSyms, PlainSyms, GetReverse, GetPlain, InStep, Pow2, PlacedIn, Low;
    if slot < END_POS_MODEL {
      var extra := dist0 - SlotBase(slot);
      GetsReverse(d, SpecNode(SpecOffset(slot)), 1, 0, 1, extra, SlotBits(slot), rest);
      PlacedInValue(0, extra, 1, SlotBits(slot));
      LowIsAll(extra, SlotBits(slot));
    } else {
      GetsAligned(d, dist0 - SlotBase(slot), SlotBits(slot), rest);
    }
  }

  /** Long distances: direct high bits, then four modelled low bits. */
  lemma GetsAligned<S>(d: Dec<Ctx, S>, extra: nat, bits: nat, rest: Syms)
    requires bits >= ALIGN_BITS && extra < Pow2(bits)
    requires InStep(d, PlainSyms(extra / 16, bits - ALIGN_BITS) + ReverseSyms(AlignNode(), 1, extra % 16, ALIGN_BITS) + rest)
    ensures var (high, d2) := GetPlain(d, 0, bits - ALIGN_BITS);
            var (low, d3) := GetReverse(d2, AlignNode(), 1, 0, 1, ALIGN_BITS);
            16 * high + low == extra && InStep(d3, rest)
  {
    hide ReverseSyms, PlainSyms, GetReverse, GetPlain, InStep;
    var count := bits - ALIGN_BITS;
    var tail := ReverseSyms(AlignNode(), 1, extra % 16, ALIGN_BITS) + rest;
    assert PlainSyms(extra / 16, count) + ReverseSyms(AlignNode(), 1, extra % 16, ALIGN_BITS) + rest
        == PlainSyms(extra / 16, count) + tail;
    GetsPlain(d, 0, extra / 16, count, tail);
    GetsReverse(GetPlain(d, 0, count).1, AlignNode(), 1, 0, 1, extra % 16, ALIGN_BITS, rest);
    AlignedValue(extra, count);
  }

  lemma AlignedValue(extra: nat, count: nat)
    requires extra < Pow2(count + 4)
    ensures ShiftedIn(0, extra / 16, count) == extra / 16
    ensures PlacedIn(0, extra % 16, 1, 4) == extra % 16
  {
    ShiftedInValue(0, extra / 16, count);
    assert Pow2(count + 4) == 2 * Pow2(count + 3) == 4 * Pow2(count + 2) == 8 * Pow2(count + 1) == 16 * Pow2(count);
    LowIsAll(extra / 16, count);
    PlacedInValue(0, extra % 16, 1, 4);
    assert Pow2(4) == 16;
    LowIsAll(extra % 16, 4);
  }

  /** Every 32-bit distance comes back. */
  lemma GetsDist<S>(d: Dec<Ctx, S>, dist: nat, len: nat, rest: Syms)
    requires 1 <= dist <= U32_MAX
    requires InStep(d, DistSyms(dist, len) + rest)
    ensures GetDist(d, len).0 == dist
    ensures InStep(GetDist(d, len).1, rest) == true
  {
    hide GetExtra, TreeSyms, GetTree, InStep, ShiftedIn, Pow2, DistSlot, SlotBase, SlotBits;
    var dist0 := dist - 1;
    var slot := DistSlot(dist0);
    Pow2Of32();
    SlotSpans(dist0, 32);
    var node := SlotNode(LenState(len));
    var tail := ExtraSyms(slot, dist0) + rest;
    assert DistSyms(dist, len) + rest == TreeSyms(node, 1, slot, 6) + tail;
    GetsTree(d, node, 1, slot, 6, tail);
    TreeValue(slot, 6);
    var d1 := GetTree(d, node, 1, 6).1;
    if slot < START_POS_MODEL {
      assert tail == rest;
    } else {
      GetsExtra(d1, slot, dist0, rest);
    }
  }

  lemma Pow2Of32()
    ensures Pow2(32) == WORD && Pow2(3) == 8 && Pow2(6) == 64 && Pow2(8) == 256
  {
    assert Pow2(8) == 256;
    assert Pow2(16) == 0x1_0000;
    assert Pow2(24) == 0x100_0000;
  }

  lemma TreeValue(v: nat, count: nat)
    requires v < Pow2(count)
    ensures ShiftedIn(1, v, count) == Pow2(count) + v
  {
    ShiftedInValue(1, v, count);
    LowIsAll(v, count);
  }

  // ------------------------------------------------------------ lengths

  ghost function LenSyms(rep: bool, len: nat, ps: nat): Syms {
    var v := if len < 2 then 0 else len - 2;
    if v < 8 then
      [Coded(LenChoice(rep, ps), false)] + TreeSyms(LowNode(rep, ps), 1, v, 3)
    else if v < 16 then
      [Coded(LenChoice(rep, ps), true)] + ([Coded(LenChoice2(rep, ps), false)] + TreeSyms(MidNode(rep, ps), 1, v - 8, 3))
    else
      var w := if v - 16 < 255 then v - 16 else 255;
      [Coded(LenChoice(rep, ps), true)] + ([Coded(LenChoice2(rep, ps), true)] + TreeSyms(HighNode(rep), 1, w, 8))
  }

  ghost function GetLen<S>(d: Dec<Ctx, S>, rep: bool, ps: nat): (nat, Dec<Ctx, S>) {
    var (c1, d1) := GetBit(d, LenChoice(rep, ps));
    if !c1 then
      var (node, d2) := GetTree(d1, LowNode(rep, ps), 1, 3);
      (2 + NodeValue(node, 8), d2)
    else
      var (c2, d2) := GetBit(d1, LenChoice2(rep, ps));
      if !c2 then
        var (node, d3) := GetTree(d2, MidNode(rep, ps), 1, 3);
        (10 + NodeValue(node, 8), d3)
      else
        var (node, d3) := GetTree(d2, HighNode(rep), 1, 8);
        (18 + NodeValue(node, 256), d3)
  }

  /** The value at a leaf of a tree with `size` leaves. */
  function NodeValue(node: nat, size: nat): nat {
    if node < size then 0 else node - size
  }

  /** Every length a coder can express comes back. */
  lemma GetsLen<S>(d: Dec<Ctx, S>, rep: bool, len: nat, ps: nat, rest: Syms)
    requires 2 <= len <= 273
    requires InStep(d, LenSyms(rep, len, ps) + rest)
    ensures GetLen(d, rep, ps).0 == len
    ensures InStep(GetLen(d, rep, ps).1, rest) == true
  {
    hide TreeSyms, GetTree, InStep, ShiftedIn, Pow2;
    var v := len - 2;
    Pow2Of32();
    if v < 8 {
      var tail := TreeSyms(LowNode(rep, ps), 1, v, 3) + rest;
      assert LenSyms(rep, len, ps) + rest == [Coded(LenChoice(rep, ps), false)] + tail;
      GetsBit(d, LenChoice(rep, ps), false, tail);
      GetsTree(GetBit(d, LenChoice(rep, ps)).1, LowNode(rep, ps), 1, v, 3, rest);
      TreeValue(v, 3);
    } else {
      GetsLongLen(d, rep, v, ps, rest);
    }
  }

  lemma GetsLongLen<S>(d: Dec<Ctx, S>, rep: bool, v: nat, ps: nat, rest: Syms)
    requires 8 <= v <= 271
    requires InStep(d, LenSyms(rep, v + 2, ps) + rest)
    ensures GetLen(d, rep, ps).0 == v + 2
    ensures InStep(GetLen(d, rep, ps).1, rest) == true
  {
    hide TreeSyms, GetTree, InStep, ShiftedIn, Pow2;
    var node := if v < 16 then MidNode(rep, ps) else HighNode(rep);
    var w, count := if v < 16 then v - 8 else v - 16, if v < 16 then 3 else 8;
    var tail := TreeSyms(node, 1, w, count) + rest;
    var last := [Coded(LenChoice2(rep, ps), v >= 16)] + tail;
    assert LenSyms(rep, v + 2, ps) + rest == [Coded(LenChoice(rep, ps), true)] + last;
    GetsBit(d, LenChoice(rep, ps), true, last);
    var d1 := GetBit(d, LenChoice(rep, ps)).1;
    GetsBit(d1, LenChoice2(rep, ps), v >= 16, tail);
    GetsTree(GetBit(d1, LenChoice2(rep, ps)).1, node, 1, w, count, rest);
    Pow2Of32();
    TreeValue(w, count);
  }

  // ------------------------------------------------------------ literals

  /** Top three bits of the previous byte (no position bits are used). */
  function LitContext(prev: byte): nat {
    prev / 32
  }

  function MatchedIndex(active: bool, matchBit: bool, sym: nat): nat {
    if active then (if matchBit then 0x200 else 0x100) + sym else sym
  }

  /** A literal conditioned, bit by bit, on the byte a match would predict;
      once they differ the plain tree is used. */
  ghost function MatchedSyms(ctx: nat, value: nat, guide: nat, active: bool, sym: nat, count: nat): Syms
    decreases count, value
  {
    if count == 0 then []
    else
      var b, g := BitOf(value, count - 1), BitOf(guide, count - 1);
      [Coded(Lit(ctx, MatchedIndex(active, g, sym)), b)]
      + MatchedSyms(ctx, value, guide, active && g == b, 2 * sym + if b then 1 else 0, count - 1)
  }

  ghost function GetMatched<S>(d: Dec<Ctx, S>, ctx: nat, guide: nat, active: bool, sym: nat, count: nat): (nat, Dec<Ctx, S>)
    decreases count, guide
  {
    if count == 0 then (sym, d)
    else
      var g := BitOf(guide, count - 1);
      var (b, d') := GetBit(d, Lit(ctx, MatchedIndex(active, g, sym)));
      GetMatched(d', ctx, guide, active && g == b, 2 * sym + if b then 1 else 0, count - 1)
  }

  lemma {:induction false} GetsMatched<S>(d: Dec<Ctx, S>, ctx: nat, value: nat, guide: nat, active: bool, sym: nat, count: nat, rest: Syms)
    requires InStep(d, MatchedSyms(ctx, value, guide, active, sym, count) + rest)
    ensures GetMatched(d, ctx, guide, active, sym, count).0 == ShiftedIn(sym, value, count)
    ensures InStep(GetMatched(d, ctx, guide, active, sym, count).1, rest) == true
    decreases count
  {
    if count == 0 {
      assert MatchedSyms(ctx, value, guide, active, sym, count) + rest == rest;
    } else {
      var b, g := BitOf(value, count - 1), BitOf(guide, count - 1);
      var c := Lit(ctx, MatchedIndex(active, g, sym));
      var next := 2 * sym + if b then 1 else 0;
      var tail := MatchedSyms(ctx, value, guide, active && g == b, next, count - 1) + rest;
      assert MatchedSyms(ctx, value, guide, active, sym, count) + rest == [Coded(c, b)] + tail;
      GetsBit(d, c, b, tail);
      GetsMatched(GetBit(d, c).1, ctx, value, guide, active && g == b, next, count - 1, rest);
    }
  }

  // ------------------------------------------------------------ the state machine

  const LITERAL_NEXT := [0, 0, 0, 0, 1, 2, 3, 4, 5, 6, 4, 5]
  const MATCH_NEXT := [7, 7, 7, 7, 7, 7, 7, 10, 10, 10, 10, 10]
  const REP_NEXT := [8, 8, 8, 8, 8, 8, 8, 11, 11, 11, 11, 11]
  const SHORTREP_NEXT := [9, 9, 9, 9, 9, 9, 9, 11, 11, 11, 11, 11]

  type StateId = s: nat | s < 12
  type Reps = r: seq<nat> | |r| == 4 witness [1, 2, 3, 4]

  function Next(table: seq<int>, s: StateId): StateId
    requires |table| == 12 && forall i :: 0 <= i < 12 ==> 0 <= table[i] < 12
  {
    table[s]
  }

  function AfterLiteral(s: StateId): StateId { Next(LITERAL_NEXT, s) }
  function AfterMatch(s: StateId): StateId { Next(MATCH_NEXT, s) }
  function AfterRep(s: StateId): StateId { Next(REP_NEXT, s) }
  function AfterShortRep(s: StateId): StateId { Next(SHORTREP_NEXT, s) }

  /** What encoder and decoder both know: the bytes so far, the state, the rep queue. */
  datatype Lz = Lz(out: seq<byte>, state: StateId, reps: Reps)

  const LZ_START := Lz([], 0, [1, 2, 3, 4])

  /** First place of `offset` in the queue, 4 if it is not there. */
  function RepIndex(reps: Reps, offset: nat): (i: nat)
    ensures i <= 4 && (i < 4 ==> reps[i] == offset) && (i == 4 ==> offset !in reps)
  {
    if reps[0] == offset then 0
    else if reps[1] == offset then 1
    else if reps[2] == offset then 2
    else if reps[3] == offset then 3
    else 4
  }

  function ToFront(reps: Reps, idx: nat): Reps
    requires idx < 4
  {
    [reps[idx]] + reps[..idx] + reps[idx + 1..]
  }

  function Pushed(reps: Reps, offset: nat): Reps {
    [offset] + reps[..3]
  }

  /** A token the format can express at this point. */
  predicate Encodable(z: Lz, t: Token) {
    t.Match? ==>
      && 1 <= t.offset <= |z.out| && t.offset <= U32_MAX
      && (2 <= t.length <= 273 || (t.length == 1 && t.offset == z.reps[0]))
  }

  function Step(z: Lz, t: Token): (z': Lz)
    requires Encodable(z, t)
    ensures |z.out| < |z'.out| && z'.out[..|z.out|] == z.out
  {
    match t
    case Literal(b) => Lz(z.out + [b], AfterLiteral(z.state), z.reps)
    case Match(offset, length) =>
      var out := CopyMatch(z.out, offset, length);
      var idx := RepIndex(z.reps, offset);
      if idx == 0 && length == 1 then Lz(out, AfterShortRep(z.state), z.reps)
      else if idx < 4 then Lz(out, AfterRep(z.state), ToFront(z.reps, idx))
      else Lz(out, AfterMatch(z.state), Pushed(z.reps, offset))
  }

  predicate AllEncodable(z: Lz, tokens: seq<Token>)
    decreases |tokens|
  {
    tokens != [] ==> Encodable(z, tokens[0]) && AllEncodable(Step(z, tokens[0]), tokens[1..])
  }

  function StepAll(z: Lz, tokens: seq<Token>): (z': Lz)
    requires AllEncodable(z, tokens)
    ensures |z.out| <= |z'.out| && z'.out[..|z.out|] == z.out
    decreases |tokens|
  {
    if tokens == [] then z
    else
      var z1 := Step(z, tokens[0]);
      var z' := StepAll(z1, tokens[1..]);
      assert z'.out[..|z.out|] == z'.out[..|z1.out|][..|z.out|];
      z'
  }

  /** `tokens` is a parse of `data` that the format can express. */
  predicate Spells(tokens: seq<Token>, data: seq<byte>) {
    AllEncodable(LZ_START, tokens) && StepAll(LZ_START, tokens).out == data
  }

  function LastByte(out: seq<byte>): byte {
    if out == [] then 0 else out[|out| - 1]
  }

  predicate UsesPlainLiteral(z: Lz) {
    z.state < 7 || z.reps[0] > |z.out| || z.reps[0] == 0
  }

  ghost function LiteralSyms(z: Lz, b: byte): Syms {
    var ctx := LitContext(LastByte(z.out));
    if UsesPlainLiteral(z) then TreeSyms(LitNode(ctx), 1, b, 8)
    else MatchedSyms(ctx, b, z.out[|z.out| - z.reps[0]], true, 1, 8)
  }

  /** Which queue entry a rep match uses. */
  ghost function RepSyms(s: StateId, ps: nat, idx: nat, length: nat): Syms {
    if idx == 0 then
      [Coded(IsRep0(s), false)] +
      if length == 1 then [Coded(IsRep0Long(s, ps), false)]
      else [Coded(IsRep0Long(s, ps), true)] + LenSyms(true, length, ps)
    else
      [Coded(IsRep0(s), true)] +
      if idx == 1 then [Coded(IsRep1(s), false)] + LenSyms(true, length, ps)
      else [Coded(IsRep1(s), true)] + ([Coded(IsRep2(s), idx != 2)] + LenSyms(true, length, ps))
  }

  ghost function TokenSyms(z: Lz, t: Token): Syms
    requires Encodable(z, t)
  {
    var s, ps := z.state, |z.out| % 4;
    match t
    case Literal(b) => [Coded(IsMatch(s, ps), false)] + LiteralSyms(z, b)
    case Match(offset, length) =>
      var idx := RepIndex(z.reps, offset);
      [Coded(IsMatch(s, ps), true)] +
      if idx < 4 then [Coded(IsRep(s), true)] + RepSyms(s, ps, idx, length)
      else [Coded(IsRep(s), false)] + (LenSyms(false, length, ps) + DistSyms(offset, length))
  }

  ghost function StreamSyms(z: Lz, tokens: seq<Token>): Syms
    requires AllEncodable(z, tokens)
    decreases |tokens|
  {
    if tokens == [] then [] else TokenSyms(z, tokens[0]) + StreamSyms(Step(z, tokens[0]), tokens[1..])
  }

  // ------------------------------------------------------------ decoding

  datatype LzmaError = PayloadTooShort | StreamTooShort | InvalidMatch(offset: nat, available: nat)
  datatype Result<+T> = Ok(value: T) | Err(error: LzmaError)

  ghost function Copied<S>(z: Lz, offset: nat, length: nat, state: StateId, reps: Reps, d: Dec<Ctx, S>): Result<(Lz, Dec<Ctx, S>)> {
    if offset == 0 || offset > |z.out| then Err(InvalidMatch(offset, |z.out|))
    else Ok((Lz(CopyMatch(z.out, offset, length), state, reps), d))
  }

  ghost function GetLiteral<S>(d: Dec<Ctx, S>, z: Lz): (byte, Dec<Ctx, S>) {
    var ctx := LitContext(LastByte(z.out));
    var (node, d') :=
      if UsesPlainLiteral(z) then GetTree(d, LitNode(ctx), 1, 8)
      else GetMatched(d, ctx, z.out[|z.out| - z.reps[0]], true, 1, 8);
    (NodeValue(node, 256) % 256, d')
  }

  ghost function GetRep<S>(d: Dec<Ctx, S>, z: Lz): Result<(Lz, Dec<Ctx, S>)> {
    var s, ps := z.state, |z.out| % 4;
    var (b0, d1) := GetBit(d, IsRep0(s));
    if !b0 then
      var (long, d2) := GetBit(d1, IsRep0Long(s, ps));
      if !long then Copied(z, z.reps[0], 1, AfterShortRep(s), z.reps, d2)
      else GetRepMatch(d2, z, 0)
    else
      var (b1, d2) := GetBit(d1, IsRep1(s));
      if !b1 then GetRepMatch(d2, z, 1)
      else
        var (b2, d3) := GetBit(d2, IsRep2(s));
        GetRepMatch(d3, z, if b2 then 3 else 2)
  }

  ghost function GetRepMatch<S>(d: Dec<Ctx, S>, z: Lz, idx: nat): Result<(Lz, Dec<Ctx, S>)>
    requires idx < 4
  {
    var (len, d') := GetLen(d, true, |z.out| % 4);
    Copied(z, z.reps[idx], len, AfterRep(z.state), ToFront(z.reps, idx), d')
  }

  ghost function GetToken<S>(d: Dec<Ctx, S>, z: Lz): Result<(Lz, Dec<Ctx, S>)> {
    var s, ps := z.state, |z.out| % 4;
    var (isMatch, d1) := GetBit(d, IsMatch(s, ps));
    if !isMatch then
      var (b, d2) := GetLiteral(d1, z);
      Ok((Lz(z.out + [b], AfterLiteral(s), z.reps), d2))
    else
      var (isRep, d2) := GetBit(d1, IsRep(s));
      if isRep then GetRep(d2, z)
      else
        var (len, d3) := GetLen(d2, false, ps);
        var (dist, d4) := GetDist(d3, len);
        Copied(z, dist, len, AfterMatch(s), Pushed(z.reps, dist), d4)
  }

  /** Every token that is decoded adds at least one byte. */
  lemma TokenGrows<S>(d: Dec<Ctx, S>, z: Lz)
    ensures GetToken(d, z).Ok? ==> |GetToken(d, z).value.0.out| > |z.out|
  {
  }

  ghost function GetAll<S>(d: Dec<Ctx, S>, z: Lz, total: nat): Result<seq<byte>>
    decreases total - |z.out|
  {
    if |z.out| >= total then Ok(z.out[..total])
    else
      match GetToken(d, z)
      case Err(e) => Err(e)
      case Ok((z', d')) => TokenGrows(d, z); GetAll(d', z', total)
  }

  ghost function DecodeSpec(payload: seq<byte>): Result<seq<byte>> {
    if |payload| < 4 then Err(PayloadTooShort)
    else
      var total := GetWord(payload[..4]);
      if total == 0 then Ok([])
      else if |payload| - 4 < 5 then Err(StreamTooShort)
      else GetAll(RangeCodedAt(payload[4..]), LZ_START, total)
  }

  lemma {:induction false} AllLength<S>(d: Dec<Ctx, S>, z: Lz, total: nat)
    ensures GetAll(d, z, total).Ok? ==> |GetAll(d, z, total).value| == total
    decreases total - |z.out|
  {
    hide GetToken;
    if |z.out| < total {
      match GetToken(d, z)
      case Err(_) =>
      case Ok((z', d')) =>
        TokenGrows(d, z);
        AllLength(d', z', total);
    }
  }

  /** What is decoded is as long as the payload declares. */
  lemma DecodedLength(payload: seq<byte>)
    requires DecodeSpec(payload).Ok?
    ensures |payload| >= 4 && |DecodeSpec(payload).value| == GetWord(payload[..4])
  {
    hide GetWord, GetAll, RangeCodedAt;
    if GetWord(payload[..4]) > 0 {
      AllLength(RangeCodedAt(payload[4..]), LZ_START, GetWord(payload[..4]));
    }
  }

  // ------------------------------------------------------------ round trip

  lemma GetsLiteral<S>(d: Dec<Ctx, S>, z: Lz, b: byte, rest: Syms)
    requires InStep(d, LiteralSyms(z, b) + rest)
    ensures GetLiteral(d, z).0 == b
    ensures InStep(GetLiteral(d, z).1, rest) == true
  {
    hide TreeSyms, GetTree, MatchedSyms, GetMatched, InStep, ShiftedIn, Pow2;
    var ctx := LitContext(LastByte(z.out));
    Pow2Of32();
    if UsesPlainLiteral(z) {
      GetsTree(d, LitNode(ctx), 1, b, 8, rest);
    } else {
      GetsMatched(d, ctx, b, z.out[|z.out| - z.reps[0]], true, 1, 8, rest);
    }
    TreeValue(b, 8);
  }

  lemma GetsRep<S>(d: Dec<Ctx, S>, z: Lz, idx: nat, length: nat, rest: Syms)
    requires idx < 4 && 1 <= z.reps[idx] <= |z.out|
    requires 2 <= length <= 273 || (length == 1 && idx == 0)
    requires InStep(d, RepSyms(z.state, |z.out| % 4, idx, length) + rest)
    ensures GetRep(d, z).Ok? && InStep(GetRep(d, z).value.1, rest)
    ensures GetRep(d, z).value.0 ==
            if length == 1 then Lz(CopyMatch(z.out, z.reps[0], 1), AfterShortRep(z.state), z.reps)
            else Lz(CopyMatch(z.out, z.reps[idx], length), AfterRep(z.state), ToFront(z.reps, idx))
  {
    hide LenSyms, GetLen, CopyMatch, InStep;
    var s, ps := z.state, |z.out| % 4;
    var all := RepSyms(s, ps, idx, length) + rest;
    var d1 := GetBit(d, IsRep0(s)).1;
    var lens := LenSyms(true, length, ps) + rest;
    if idx == 0 {
      var d2 := GetBit(d1, IsRep0Long(s, ps)).1;
      var tail := if length == 1 then rest else lens;
      assert all == [Coded(IsRep0(s), false)] + ([Coded(IsRep0Long(s, ps), length != 1)] + tail);
      GetsBit(d, IsRep0(s), false, [Coded(IsRep0Long(s, ps), length != 1)] + tail);
      GetsBit(d1, IsRep0Long(s, ps), length != 1, tail);
      if length != 1 {
        GetsLen(d2, true, length, ps, rest);
      }
    } else if idx == 1 {
      assert all == [Coded(IsRep0(s), true)] + ([Coded(IsRep1(s), false)] + lens);
      GetsBit(d, IsRep0(s), true, [Coded(IsRep1(s), false)] + lens);
      GetsBit(d1, IsRep1(s), false, lens);
      GetsLen(GetBit(d1, IsRep1(s)).1, true, length, ps, rest);
    } else {
      var last := [Coded(IsRep2(s), idx != 2)] + lens;
      var d2 := GetBit(d1, IsRep1(s)).1;
      assert all == [Coded(IsRep0(s), true)] + ([Coded(IsRep1(s), true)] + last);
      GetsBit(d, IsRep0(s), true, [Coded(IsRep1(s), true)] + last);
      GetsBit(d1, IsRep1(s), true, last);
      GetsBit(d2, IsRep2(s), idx != 2, lens);
      GetsLen(GetBit(d2, IsRep2(s)).1, true, length, ps, rest);
    }
  }

  /** One token of lockstep: the decoder reads the token and both sides move to
      the same bytes, state and queue. */
  lemma GetsToken<S>(d: Dec<Ctx, S>, z: Lz, t: Token, rest: Syms)
    requires Encodable(z, t)
    requires InStep(d, TokenSyms(z, t) + rest)
    ensures GetToken(d, z).Ok? && GetToken(d, z).value.0 == Step(z, t)
    ensures InStep(GetToken(d, z).value.1, rest) == true
  {
    var s, ps := z.state, |z.out| % 4;
    match t
    case Literal(b) =>
      var tail := LiteralSyms(z, b) + rest;
      assert TokenSyms(z, t) + rest == [Coded(IsMatch(s, ps), false)] + tail;
      GetsBit(d, IsMatch(s, ps), false, tail);
      GetsLiteral(GetBit(d, IsMatch(s, ps)).1, z, b, rest);
    case Match(offset, length) =>
      if RepIndex(z.reps, offset) < 4 {
        GetsRepToken(d, z, offset, length, rest);
      } else {
        GetsNewMatch(d, z, offset, length, rest);
      }
  }

  lemma GetsRepToken<S>(d: Dec<Ctx, S>, z: Lz, offset: nat, length: nat, rest: Syms)
    requires Encodable(z, Match(offset, length)) && RepIndex(z.reps, offset) < 4
    requires InStep(d, TokenSyms(z, Match(offset, length)) + rest)
    ensures GetToken(d, z).Ok? && GetToken(d, z).value.0 == Step(z, Match(offset, length))
    ensures InStep(GetToken(d, z).value.1, rest) == true
  {
    hide InStep, RepSyms, GetRep, LenSyms, DistSyms, GetLen, GetDist, CopyMatch;
    var s, ps, idx := z.state, |z.out| % 4, RepIndex(z.reps, offset);
    var tail := RepSyms(s, ps, idx, length) + rest;
    assert TokenSyms(z, Match(offset, length)) + rest
        == [Coded(IsMatch(s, ps), true)] + ([Coded(IsRep(s), true)] + tail);
    GetsBit(d, IsMatch(s, ps), true, [Coded(IsRep(s), true)] + tail);
    var d1 := GetBit(d, IsMatch(s, ps)).1;
    GetsBit(d1, IsRep(s), true, tail);
    GetsRep(GetBit(d1, IsRep(s)).1, z, idx, length, rest);
  }

  lemma GetsNewMatch<S>(d: Dec<Ctx, S>, z: Lz, offset: nat, length: nat, rest: Syms)
    requires Encodable(z, Match(offset, length)) && RepIndex(z.reps, offset) == 4
    requires InStep(d, TokenSyms(z, Match(offset, length)) + rest)
    ensures GetToken(d, z).Ok? && GetToken(d, z).value.0 == Step(z, Match(offset, length))
    ensures InStep(GetToken(d, z).value.1, rest) == true
  {
    hide LenSyms, DistSyms, GetLen, GetDist, InStep, CopyMatch;
    var s, ps := z.state, |z.out| % 4;
    var tail := DistSyms(offset, length) + rest;
    var lens := LenSyms(false, length, ps) + tail;
    assert TokenSyms(z, Match(offset, length)) + rest
        == [Coded(IsMatch(s, ps), true)] + ([Coded(IsRep(s), false)] + lens);
    GetsBit(d, IsMatch(s, ps), true, [Coded(IsRep(s), false)] + lens);
    var d1 := GetBit(d, IsMatch(s, ps)).1;
    GetsBit(d1, IsRep(s), false, lens);
    var d2 := GetBit(d1, IsRep(s)).1;
    GetsLen(d2, false, length, ps, tail);
    GetsDist(GetLen(d2, false, ps).1, offset, length, rest);
  }

  lemma {:induction false} GetsAll<S>(d: Dec<Ctx, S>, z: Lz, tokens: seq<Token>)
    requires AllEncodable(z, tokens) && InStep(d, StreamSyms(z, tokens))
    ensures GetAll(d, z, |StepAll(z, tokens).out|) == Ok(StepAll(z, tokens).out)
    decreases |tokens|
  {
    if tokens != [] {
      var z' := Step(z, tokens[0]);
      GetsToken(d, z, tokens[0], StreamSyms(z', tokens[1..]));
      GetsAll(GetToken(d, z).value.1, z', tokens[1..]);
    } else {
      assert z.out[..|z.out|] == z.out;
    }
  }

  /** `payload` is what the encoder writes for `data` parsed as `tokens`. */
  ghost predicate IsEncoding(payload: seq<byte>, data: seq<byte>, tokens: seq<Token>)
    requires Spells(tokens, data)
  {
    && |payload| >= 4 && payload[..4] == PutWord(|data|)
    && if data == [] then |payload| == 4
       else IsRangeStream(payload[4..], StreamSyms(LZ_START, tokens))
  }

  /** A parse has one encoding. */
  lemma EncodingUnique(a: seq<byte>, b: seq<byte>, data: seq<byte>, tokens: seq<Token>)
    requires Spells(tokens, data) && IsEncoding(a, data, tokens) && IsEncoding(b, data, tokens)
    ensures a == b
  {
    hide Spells, StreamSyms;
    if data != [] {
      ValInjective(a[4..], b[4..]);
    }
    assert a == a[..4] + a[4..] && b == b[..4] + b[4..];
  }

  /** The decoder inverts the encoder for every parse the format can express. */
  lemma LzmaRoundTrip(payload: seq<byte>, data: seq<byte>, tokens: seq<Token>)
    requires |data| < WORD && Spells(tokens, data) && IsEncoding(payload, data, tokens)
    ensures DecodeSpec(payload) == Ok(data)
  {
    WordRoundTrip(|data|);
    if data != [] {
      AdaptiveRoundTrip(payload[4..], StreamSyms(LZ_START, tokens));
      GetsAll(RangeCodedAt(payload[4..]), LZ_START, tokens);
    }
  }
}
