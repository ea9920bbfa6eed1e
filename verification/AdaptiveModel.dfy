/** Adaptive bits in named contexts: the layer the LZMA-style codec is written
    against.  A context stands for one cell of one of the program's probability
    arrays; a cell that was never coded holds PROB_INIT.

    Decoding is stated for any binary decoder: a reader type and a function that
    takes the next bit.  Only the last section plugs in the range coder. */
module AdaptiveModel {
  import opened Bytes
  import opened BitStrings
  import opened RangeCoding
  import opened RangeCoder

  datatype Sym<C> = Coded(ctx: C, bit: bool) | Plain(bit: bool)

  type Probs<!C> = map<C, Prob>

  function ProbAt<C>(m: Probs<C>, c: C): Prob {
    if c in m then m[c] else PROB_INIT
  }

  function DecisionOf<C>(m: Probs<C>, s: Sym<C>): Decision {
    match s
    case Coded(c, b) => Bit(ProbAt(m, c), b)
    case Plain(b) => Direct(b)
  }

  function Learn<C>(m: Probs<C>, s: Sym<C>): Probs<C> {
    match s
    case Coded(c, b) => m[c := Adapt(ProbAt(m, c), b)]
    case Plain(_) => m
  }

  function LearnAll<C>(m: Probs<C>, syms: seq<Sym<C>>): Probs<C>
    decreases |syms|
  {
    if syms == [] then m else LearnAll(Learn(m, syms[0]), syms[1..])
  }

  /** The decisions an adaptive model makes of a list of symbols. */
  function Decide<C>(m: Probs<C>, syms: seq<Sym<C>>): (ds: seq<Decision>)
    ensures AllCodable(ds) && |ds| == |syms|
    decreases |syms|
  {
    if syms == [] then [] else [DecisionOf(m, syms[0])] + Decide(Learn(m, syms[0]), syms[1..])
  }

  lemma {:induction false} DecideSnoc<C>(m: Probs<C>, syms: seq<Sym<C>>, s: Sym<C>)
    ensures LearnAll(m, syms + [s]) == Learn(LearnAll(m, syms), s)
    ensures Decide(m, syms + [s]) == Decide(m, syms) + [DecisionOf(LearnAll(m, syms), s)]
    decreases |syms|
  {
    if syms == [] {
      assert [] + [s] == [s];
      assert Decide(Learn(m, s), []) == [];
      assert LearnAll(Learn(m, s), []) == Learn(m, s);
    } else {
      assert (syms + [s])[1..] == syms[1..] + [s];
      DecideSnoc(Learn(m, syms[0]), syms[1..], s);
    }
  }

  /** Any symbol decoder: a state `s`, the next bit in a context, the next plain bit. */
  datatype Dec<!C, !S> = Dec(take: (S, C) -> (bool, S), plain: S -> (bool, S), s: S)

  ghost function GetBit<C, S>(d: Dec<C, S>, c: C): (bool, Dec<C, S>) {
    var (b, s') := d.take(d.s, c);
    (b, d.(s := s'))
  }

  ghost function GetDirect<C, S>(d: Dec<C, S>): (bool, Dec<C, S>) {
    var (b, s') := d.plain(d.s);
    (b, d.(s := s'))
  }

  /** The decoder `d` reads exactly `syms`, then goes on. */
  ghost predicate InStep<C, S>(d: Dec<C, S>, syms: seq<Sym<C>>)
    decreases |syms|
  {
    syms != [] ==>
      match syms[0]
      case Coded(c, b) => GetBit(d, c).0 == b && InStep(GetBit(d, c).1, syms[1..])
      case Plain(b) => GetDirect(d).0 == b && InStep(GetDirect(d).1, syms[1..])
  }

  lemma GetsBit<C, S>(d: Dec<C, S>, c: C, b: bool, rest: seq<Sym<C>>)
    requires InStep(d, [Coded(c, b)] + rest)
    ensures GetBit(d, c).0 == b && InStep(GetBit(d, c).1, rest)
  {
    var syms := [Coded(c, b)] + rest;
    assert syms[0] == Coded(c, b) && syms[1..] == rest;
  }

  /** `count` direct bits of `value`, high bit first. */
  ghost function PlainSyms<C>(value: nat, count: nat): (syms: seq<Sym<C>>)
    ensures |syms| == count
    decreases count, value
  {
    if count == 0 then [] else [Plain(BitOf(value, count - 1))] + PlainSyms(value, count - 1)
  }

  ghost function GetPlain<C, S>(d: Dec<C, S>, acc: nat, count: nat): (nat, Dec<C, S>)
    decreases count, acc
  {
    if count == 0 then (acc, d)
    else
      var (b, d') := GetDirect(d);
      GetPlain(d', 2 * acc + if b then 1 else 0, count - 1)
  }

  lemma {:induction false} GetsPlain<C, S>(d: Dec<C, S>, acc: nat, value: nat, count: nat, rest: seq<Sym<C>>)
    requires InStep(d, PlainSyms(value, count) + rest)
    ensures GetPlain(d, acc, count).0 == ShiftedIn(acc, value, count)
    ensures InStep(GetPlain(d, acc, count).1, rest)
    decreases count
  {
    var syms := PlainSyms(value, count) + rest;
    if count == 0 {
      assert syms == rest;
    } else {
      assert syms[0] == Plain(BitOf(value, count - 1));
      assert syms[1..] == PlainSyms(value, count - 1) + rest;
      var (b, d') := GetDirect(d);
      GetsPlain(d', 2 * acc + if b then 1 else 0, value, count - 1, rest);
    }
  }

  /** A bit tree: `count` bits of `value`, high bit first, each in the context of
      the node reached so far (`sym`, a leading 1 followed by the bits coded). */
  ghost function TreeSyms<C>(node: nat -> C, sym: nat, value: nat, count: nat): seq<Sym<C>>
    decreases count, value
  {
    if count == 0 then []
    else
      var b := BitOf(value, count - 1);
      [Coded(node(sym), b)] + TreeSyms(node, 2 * sym + if b then 1 else 0, value, count - 1)
  }

  ghost function GetTree<C, S>(d: Dec<C, S>, node: nat -> C, sym: nat, count: nat): (nat, Dec<C, S>)
    decreases count, sym
  {
    if count == 0 then (sym, d)
    else
      var (b, d') := GetBit(d, node(sym));
      GetTree(d', node, 2 * sym + if b then 1 else 0, count - 1)
  }

  lemma {:induction false} GetsTree<C, S>(d: Dec<C, S>, node: nat -> C, sym: nat, value: nat, count: nat, rest: seq<Sym<C>>)
    requires InStep(d, TreeSyms(node, sym, value, count) + rest)
    ensures GetTree(d, node, sym, count).0 == ShiftedIn(sym, value, count)
    ensures InStep(GetTree(d, node, sym, count).1, rest) == true
    decreases count
  {
    if count == 0 {
      assert TreeSyms(node, sym, value, count) + rest == rest;
    } else {
      var b := BitOf(value, count - 1);
      var next := 2 * sym + if b then 1 else 0;
      var tail := TreeSyms(node, next, value, count - 1) + rest;
      assert TreeSyms(node, sym, value, count) + rest == [Coded(node(sym), b)] + tail;
      GetsBit(d, node(sym), b, tail);
      GetsTree(GetBit(d, node(sym)).1, node, next, value, count - 1, rest);
    }
  }

  /** Whatever is read, a tree walk of `count` bits from the root ends in 2^count .. 2^(count+1). */
  lemma {:induction false} TreeEnds<C, S>(d: Dec<C, S>, node: nat -> C, sym: nat, count: nat)
    ensures Shl(sym, count) <= GetTree(d, node, sym, count).0 < Shl(sym, count) + Pow2(count)
    decreases count
  {
    if count > 0 {
      var (b, d') := GetBit(d, node(sym));
      TreeEnds(d', node, 2 * sym + if b then 1 else 0, count - 1);
      ShlNext(2 * sym, count - 1);
    }
  }

  /** A reverse bit tree: the low `count` bits of `value`, low bit first. */
  ghost function ReverseSyms<C>(node: nat -> C, sym: nat, value: nat, count: nat): seq<Sym<C>>
    decreases count, value
  {
    if count == 0 then []
    else
      var b := value % 2 == 1;
      [Coded(node(sym), b)] + ReverseSyms(node, 2 * sym + if b then 1 else 0, value / 2, count - 1)
  }

  /** Bits read so far are in `acc`; the next one has weight `w`. */
  ghost function GetReverse<C, S>(d: Dec<C, S>, node: nat -> C, sym: nat, acc: nat, w: nat, count: nat): (nat, Dec<C, S>)
    decreases count, sym
  {
    if count == 0 then (acc, d)
    else
      var (b, d') := GetBit(d, node(sym));
      GetReverse(d', node, 2 * sym + if b then 1 else 0, acc + if b then w else 0, 2 * w, count - 1)
  }

  lemma {:induction false} GetsReverse<C, S>(d: Dec<C, S>, node: nat -> C, sym: nat, acc: nat, w: nat, value: nat, count: nat, rest: seq<Sym<C>>)
    requires InStep(d, ReverseSyms(node, sym, value, count) + rest)
    ensures GetReverse(d, node, sym, acc, w, count).0 == PlacedIn(acc, value, w, count)
    ensures InStep(GetReverse(d, node, sym, acc, w, count).1, rest) == true
    decreases count
  {
    if count == 0 {
      assert ReverseSyms(node, sym, value, count) + rest == rest;
    } else {
      var b := value % 2 == 1;
      var next := 2 * sym + if b then 1 else 0;
      var tail := ReverseSyms(node, next, value / 2, count - 1) + rest;
      assert ReverseSyms(node, sym, value, count) + rest == [Coded(node(sym), b)] + tail;
      GetsBit(d, node(sym), b, tail);
      GetsReverse(GetBit(d, node(sym)).1, node, next, acc + if b then w else 0, 2 * w, value / 2, count - 1, rest);
    }
  }

  // ------------------------------------------------------------ the range coder as the decoder

  datatype State<!C> = State(reader: LiveReader, probs: Probs<C>)

  ghost function ReadCoded<C>(s: State<C>, c: C): (bool, State<C>) {
    var p := ProbAt(s.probs, c);
    var (b, r) := ReadBit(s.reader, p);
    (b, State(r, s.probs[c := Adapt(p, b)]))
  }

  ghost function ReadPlain<C>(s: State<C>): (bool, State<C>) {
    var (b, r) := ReadDirect(s.reader);
    (b, s.(reader := r))
  }

  /** The triggers keep the range coder's arithmetic out of proofs that do not mention it. */
  ghost predicate IsRangeCoded<C(!new)>(d: Dec<C, State<C>>) {
    && (forall s: State<C>, c: C {:trigger ReadCoded(s, c)} :: d.take(s, c) == ReadCoded(s, c))
    && (forall s: State<C> {:trigger ReadPlain(s)} :: d.plain(s) == ReadPlain(s))
  }

  ghost function RangeCoded<C(!new)>(reader: LiveReader): (d: Dec<C, State<C>>)
    ensures IsRangeCoded(d) && d.s == State(reader, map[])
  {
    Dec((s: State<C>, c: C) => ReadCoded(s, c), (s: State<C>) => ReadPlain(s), State(reader, map[]))
  }

  lemma {:induction false} ReadsInStep<C(!new)>(d: Dec<C, State<C>>, syms: seq<Sym<C>>)
    requires IsRangeCoded(d) && Reads(d.s.reader, Decide(d.s.probs, syms))
    ensures InStep(d, syms)
    decreases |syms|
  {
    if syms != [] {
      var ds := Decide(d.s.probs, syms);
      assert ds[1..] == Decide(Learn(d.s.probs, syms[0]), syms[1..]);
      match syms[0]
      case Coded(c, b) =>
        assert ReadCoded(d.s, c) == (GetBit(d, c).0, GetBit(d, c).1.s);
        ReadsInStep(GetBit(d, c).1, syms[1..]);
      case Plain(b) =>
        assert ReadPlain(d.s) == (GetDirect(d).0, GetDirect(d).1.s);
        ReadsInStep(GetDirect(d).1, syms[1..]);
    }
  }

  /** A fresh decoder of `stream`. */
  ghost function RangeCodedAt<C(!new)>(stream: seq<byte>): Dec<C, State<C>>
    requires |stream| >= 5
  {
    RangeCoded(Open(stream))
  }

  /** `stream` is what a fresh adaptive encoder writes for `syms`. */
  ghost predicate IsRangeStream<C>(stream: seq<byte>, syms: seq<Sym<C>>) {
    IsStream(stream, Decide(map[], syms))
  }

  /** A decoder of a finished stream reads back the symbols that were coded. */
  lemma AdaptiveRoundTrip<C(!new)>(stream: seq<byte>, syms: seq<Sym<C>>)
    requires IsRangeStream(stream, syms)
    ensures |stream| >= 5 && InStep(RangeCodedAt(stream), syms)
  {
    RangeCoderRoundTrip(stream, Decide(map[], syms));
    ReadsInStep(RangeCoded(Open(stream)), syms);
  }

  lemma {:induction false} PlainReader<C(!new)>(d: Dec<C, State<C>>, acc: nat, count: nat)
    requires IsRangeCoded(d)
    ensures var (v, d') := GetPlain(d, acc, count);
            d' == d.(s := d'.s) && ReadDirectBits(d.s.reader, acc, count) == (v, d'.s.reader) && d'.s.probs == d.s.probs
    decreases count
  {
    if count > 0 {
      var (b, d') := GetDirect(d);
      assert ReadPlain(d.s) == (b, d'.s);
      PlainReader(d', 2 * acc + if b then 1 else 0, count - 1);
    }
  }

  /** An encoder and its probability tables. */
  class AdaptiveEncoder<C(==)> {
    const enc: RangeEncoder
    var probs: Probs<C>
    /** Every symbol coded so far. */
    ghost var syms: seq<Sym<C>>

    ghost predicate Valid()
      reads this, enc
    {
      && enc.Valid()
      && probs == LearnAll(map[], syms)
      && enc.View() == EncodeAll(START, Decide(map[], syms))
    }

    constructor ()
      ensures Valid() && syms == [] && fresh(enc)
    {
      enc := new RangeEncoder();
      probs := map[];
      syms := [];
    }

    method PutBit(c: C, bit: bool)
      requires Valid()
      modifies this, enc
      ensures Valid() && syms == old(syms) + [Coded(c, bit)]
    {
      var p := if c in probs then probs[c] else PROB_INIT;
      DecideSnoc(map[], syms, Coded(c, bit));
      StreamSnoc(Decide(map[], syms), Bit(p, bit), enc.View());
      var p' := enc.EncodeBit(p, bit);
      probs := probs[c := p'];
      syms := syms + [Coded(c, bit)];
    }

    method PutDirect(value: nat, count: nat)
      requires Valid()
      modifies this, enc
      ensures Valid() && syms == old(syms) + PlainSyms(value, count)
    {
      PlainTrace(map[], syms, value, count);
      enc.EncodeDirectBits(value, count);
      syms := syms + PlainSyms(value, count);
    }

    /** The program's bit-tree loops (`encode_tree3`, `encode_tree6`, `encode_tree8`, `encode_literal`). */
    method PutTree(node: nat -> C, value: nat, count: nat)
      requires Valid()
      modifies this, enc
      ensures Valid() && syms == old(syms) + TreeSyms(node, 1, value, count)
    {
      hide Valid, BitOf;
      var sym := 1;
      var i := count;
      while i > 0
        invariant 0 <= i <= count && sym >= 1
        invariant Valid()
        invariant syms + TreeSyms(node, sym, value, i) == old(syms) + TreeSyms(node, 1, value, count)
      {
        i := i - 1;
        var bit := BitOf(value, i);
        ghost var before := syms;
        PutBit(node(sym), bit);
        ghost var next := 2 * sym + if bit then 1 else 0;
        assert before + TreeSyms(node, sym, value, i + 1) == syms + TreeSyms(node, next, value, i);
        sym := 2 * sym + if bit then 1 else 0;
      }
    }

    method PutReverse(node: nat -> C, value: nat, count: nat)
      requires Valid()
      modifies this, enc
      ensures Valid() && syms == old(syms) + ReverseSyms(node, 1, value, count)
    {
      hide Valid, BitOf;
      var sym := 1;
      for i := 0 to count
        invariant sym >= 1
        invariant Valid()
        invariant syms + ReverseSyms(node, sym, Shr(value, i), count - i) == old(syms) + ReverseSyms(node, 1, value, count)
      {
        var bit := BitOf(value, i);
        ShrNext(value, i);
        ghost var before := syms;
        PutBit(node(sym), bit);
        ghost var next := 2 * sym + if bit then 1 else 0;
        assert before + ReverseSyms(node, sym, Shr(value, i), count - i)
               == syms + ReverseSyms(node, next, Shr(value, i + 1), count - i - 1);
        sym := 2 * sym + if bit then 1 else 0;
      }
    }

    method Finish() returns (stream: seq<byte>)
      requires Valid()
      modifies enc
      ensures IsRangeStream(stream, old(syms))
    {
      stream := enc.Finish();
    }
  }

  lemma {:induction false} PlainTrace<C>(m: Probs<C>, syms: seq<Sym<C>>, value: nat, count: nat)
    ensures var more := syms + PlainSyms(value, count);
            && LearnAll(m, more) == LearnAll(m, syms)
            && EncodeAll(START, Decide(m, more)) == EncodeAll(EncodeAll(START, Decide(m, syms)), DirectBits(value, count))
    decreases count
  {
    hide Encode, LearnAll, Decide;
    if count == 0 {
      assert syms + PlainSyms(value, 0) == syms;
    } else {
      var s: Sym<C> := Plain(BitOf(value, count - 1));
      DecideSnoc(m, syms, s);
      StreamSnoc(Decide(m, syms), DecisionOf(LearnAll(m, syms), s), EncodeAll(START, Decide(m, syms)));
      PlainTrace(m, syms + [s], value, count - 1);
      assert syms + [s] + PlainSyms(value, count - 1) == syms + PlainSyms(value, count);
    }
  }

  class AdaptiveDecoder<C(==,!new)> {
    const dec: RangeDecoder
    var probs: Probs<C>
    ghost const model: Dec<C, State<C>>

    ghost function View(): Dec<C, State<C>>
      reads this, dec
      requires dec.Valid()
    {
      model.(s := State(dec.View(), probs))
    }

    ghost predicate Valid()
      reads this, dec
    {
      dec.Valid() && IsRangeCoded(model)
    }

    constructor (data: seq<byte>)
      requires |data| >= 5
      ensures Valid() && View() == RangeCodedAt(data) && fresh(dec)
    {
      dec := new RangeDecoder(data);
      probs := map[];
      model := RangeCoded(Open(data));
    }

    method TakeBit(c: C) returns (bit: bool)
      requires Valid()
      modifies this, dec
      ensures Valid() && (bit, View()) == GetBit(old(View()), c)
    {
      assert ReadCoded(View().s, c) == View().take(View().s, c);
      var p := if c in probs then probs[c] else PROB_INIT;
      var p';
      bit, p' := dec.DecodeBit(p);
      probs := probs[c := p'];
    }

    method TakeDirect(count: nat) returns (value: nat)
      requires Valid()
      modifies this, dec
      ensures Valid() && (value, View()) == GetPlain(old(View()), 0, count)
    {
      PlainReader(View(), 0, count);
      value := dec.DecodeDirectBits(count);
    }

    /** The node reached: a leading 1 followed by the `count` bits read. */
    method TakeTree(node: nat -> C, count: nat) returns (sym: nat)
      requires Valid()
      modifies this, dec
      ensures Valid() && (sym, View()) == GetTree(old(View()), node, 1, count)
    {
      sym := 1;
      ghost var goal := GetTree(View(), node, 1, count);
      for i := 0 to count
        invariant Valid() && GetTree(View(), node, sym, count - i) == goal
      {
        var bit := TakeBit(node(sym));
        sym := 2 * sym + if bit then 1 else 0;
      }
    }

    method TakeReverse(node: nat -> C, count: nat) returns (value: nat)
      requires Valid()
      modifies this, dec
      ensures Valid() && (value, View()) == GetReverse(old(View()), node, 1, 0, 1, count)
    {
      var sym: nat := 1;
      value := 0;
      var weight: nat := 1;
      ghost var goal := GetReverse(View(), node, 1, 0, 1, count);
      for i := 0 to count
        invariant Valid() && GetReverse(View(), node, sym, value, weight, count - i) == goal
      {
        var bit := TakeBit(node(sym));
        sym := 2 * sym + if bit then 1 else 0;
        value := value + if bit then weight else 0;
        weight := 2 * weight;
      }
    }
  }
}
