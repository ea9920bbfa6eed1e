/** The range asymmetric numeral system: a byte-wise stack coder over 12-bit tables. */
module Rans {
  import opened Arithmetic
  import opened Bytes
  import opened Sequences

  const TOTAL: nat := 4096
  const LOW: nat := 0x10_0000

  datatype RansError =
    | InvalidFrequencySum(sum: nat)
    | SymbolOutOfRange(symbol: nat, size: nat)
    | EmptyInput
    | DecodeUnderflow
    | ZeroFrequency(symbol: nat)

  datatype Result<+T> = Ok(value: T) | Err(error: RansError)

  // ------------------------------------------------------------ tables

  datatype Table = Table(freq: seq<nat>, cumul: seq<nat>)

  function SumTo(f: seq<nat>, k: nat): nat
    requires k <= |f|
  {
    if k == 0 then 0 else SumTo(f, k - 1) + f[k - 1]
  }

  ghost predicate WellFormed(t: Table) {
    && |t.cumul| == |t.freq| + 1
    && (forall k :: 0 <= k <= |t.freq| ==> t.cumul[k] == SumTo(t.freq, k))
    && SumTo(t.freq, |t.freq|) == TOTAL
  }

  /** Decoders hold symbols in bytes. */
  ghost predicate ByteTable(t: Table) {
    WellFormed(t) && |t.freq| <= 256
  }

  /** Slot `i` belongs to symbol `s`. */
  predicate Owns(t: Table, s: nat, i: nat)
    requires |t.cumul| == |t.freq| + 1
  {
    s < |t.freq| && t.cumul[s] <= i < t.cumul[s + 1]
  }

  lemma {:induction false} SumMonotone(f: seq<nat>, i: nat, j: nat)
    requires i <= j <= |f|
    ensures SumTo(f, i) <= SumTo(f, j)
  {
    if i < j {
      SumMonotone(f, i, j - 1);
    }
  }

  ghost function Owner(t: Table, i: nat, n: nat): (s: nat)
    requires WellFormed(t) && n <= |t.freq| && i < SumTo(t.freq, n)
    ensures Owns(t, s, i)
  {
    if i < SumTo(t.freq, n - 1) then Owner(t, i, n - 1) else n - 1
  }

  ghost function SymbolAt(t: Table, i: nat): (s: nat)
    requires WellFormed(t) && i < TOTAL
    ensures Owns(t, s, i)
  {
    Owner(t, i, |t.freq|)
  }

  lemma OwnerUnique(t: Table, i: nat, a: nat, b: nat)
    requires WellFormed(t) && Owns(t, a, i) && Owns(t, b, i)
    ensures a == b
  {
    SumMonotone(t.freq, if a < b then a + 1 else b + 1, if a < b then b else if b < a then a else b + 1);
  }

  lemma OwnerFacts(t: Table, s: nat)
    requires WellFormed(t) && s < |t.freq|
    ensures t.cumul[s + 1] == t.cumul[s] + t.freq[s] <= TOTAL
  {
    SumMonotone(t.freq, s + 1, |t.freq|);
  }

  /** Tables are accepted exactly when their frequencies sum to the scale. */
  method BuildTable(freqs: seq<nat>) returns (r: Result<Table>)
    ensures r.Ok? <==> SumTo(freqs, |freqs|) == TOTAL
    ensures r.Ok? ==> r.value.freq == freqs && WellFormed(r.value)
    ensures r.Err? ==> r.error == InvalidFrequencySum(SumTo(freqs, |freqs|))
  {
    var cumul: seq<nat> := [0];
    for k := 0 to |freqs|
      invariant |cumul| == k + 1 && forall j :: 0 <= j <= k ==> cumul[j] == SumTo(freqs, j)
    {
      cumul := cumul + [cumul[k] + freqs[k]];
    }
    var sum := cumul[|freqs|];
    if sum != TOTAL {
      return Err(InvalidFrequencySum(sum));
    }
    return Ok(Table(freqs, cumul));
  }

  ghost predicate IsSpread(t: Table, spread: seq<byte>)
    requires WellFormed(t)
  {
    |spread| == TOTAL && forall i :: 0 <= i < TOTAL ==> SymbolAt(t, i) == spread[i]
  }

  method BuildDecodeTable(t: Table) returns (spread: seq<byte>)
    requires ByteTable(t)
    ensures IsSpread(t, spread)
  {
    hide Owner;
    var a := new byte[TOTAL](i => 0);
    for s := 0 to |t.freq|
      invariant forall i, o :: 0 <= i < TOTAL && 0 <= o < s && Owns(t, o, i) ==> a[i] == o
    {
      OwnerFacts(t, s);
      for i := t.cumul[s] to t.cumul[s + 1]
        invariant forall k :: t.cumul[s] <= k < i ==> a[k] == s
        invariant forall k, o :: 0 <= k < TOTAL && 0 <= o < s && Owns(t, o, k) ==> a[k] == o
      {
        forall o | 0 <= o < s ensures !Owns(t, o, i) {
          if Owns(t, o, i) {
            OwnerUnique(t, i, o, s);
          }
        }
        a[i] := s;
      }
    }
    spread := a[..];
    forall i | 0 <= i < TOTAL ensures SymbolAt(t, i) == spread[i] {
      assert Owns(t, SymbolAt(t, i), i);
    }
  }

  // ------------------------------------------------------------ one symbol

  /** A state and the bytes still stacked above it, last written first. */
  datatype Cursor = Cursor(x: nat, rest: seq<byte>)

  predicate Normal(x: nat) {
    LOW <= x < 256 * LOW
  }

  /** Stack low bytes until the state leaves room for a symbol of frequency `f`. */
  function Spill(c: Cursor, f: nat): Cursor
    requires f > 0
    decreases c.x
  {
    if c.x >= 65536 * f then Spill(Cursor(c.x / 256, [c.x % 256] + c.rest), f) else c
  }

  function Push(c: Cursor, t: Table, s: nat): Cursor
    requires |t.cumul| == |t.freq| + 1 && s < |t.freq| && t.freq[s] > 0
  {
    var p := Spill(c, t.freq[s]);
    Cursor(p.x / t.freq[s] * TOTAL + t.cumul[s] + p.x % t.freq[s], p.rest)
  }

  function Refill(c: Cursor): Option<Cursor>
    decreases |c.rest|
  {
    if c.x >= LOW then Some(c)
    else if c.rest == [] then None
    else Refill(Cursor(c.x * 256 + c.rest[0], c.rest[1..]))
  }

  ghost function Advance(x: nat, t: Table): (y: nat)
    requires WellFormed(t)
  {
    var s := SymbolAt(t, x % TOTAL);
    assert t.freq[s] * (x / TOTAL) >= 0;
    t.freq[s] * (x / TOTAL) + x % TOTAL - t.cumul[s]
  }

  ghost function Pop(c: Cursor, t: Table): Option<(nat, Cursor)>
    requires WellFormed(t)
  {
    match Refill(Cursor(Advance(c.x, t), c.rest))
    case None => None
    case Some(d) => Some((SymbolAt(t, c.x % TOTAL), d))
  }

  /** The bytes a push stacks are those the matching refill takes back. */
  lemma {:induction false} SpillThenRefill(c: Cursor, f: nat)
    requires 0 < f <= TOTAL && 256 * f <= c.x < 256 * LOW
    ensures 256 * f <= Spill(c, f).x < 65536 * f
    ensures Refill(Spill(c, f)) == Refill(c)
    decreases c.x
  {
    if c.x >= 65536 * f {
      var d := Cursor(c.x / 256, [c.x % 256] + c.rest);
      assert d.rest[1..] == c.rest;
      SpillThenRefill(d, f);
      assert Refill(d) == Refill(c);
    }
  }

  lemma {:induction false} RefillThenSpill(c: Cursor, f: nat)
    requires 0 < f <= TOTAL && 256 * f <= c.x < 256 * LOW && Refill(c).Some?
    ensures Normal(Refill(c).value.x)
    ensures Spill(Refill(c).value, f) == Spill(c, f)
    decreases |c.rest|
  {
    if c.x < LOW {
      var d := Cursor(c.x * 256 + c.rest[0], c.rest[1..]);
      RefillThenSpill(d, f);
      assert [d.x % 256] + d.rest == c.rest;
    }
  }

  lemma StepBounds(f: nat, q: nat, r: nat)
    requires 0 < f && r < f
    ensures q >= 256 <==> f * q + r >= 256 * f
    ensures q < 65536 <==> f * q + r < 65536 * f
  {
    if q >= 256 { MulLe(256, q, f, f); } else { MulLe(q + 1, 256, f, f); }
    if q >= 65536 { MulLe(65536, q, f, f); } else { MulLe(q + 1, 65536, f, f); }
  }

  /** Pushing keeps the state in its interval and is undone by one pop. */
  lemma PushThenPop(c: Cursor, t: Table, s: nat)
    requires WellFormed(t) && s < |t.freq| && t.freq[s] > 0 && Normal(c.x)
    ensures Normal(Push(c, t, s).x)
    ensures Pop(Push(c, t, s), t) == Some((s, c))
  {
    hide Owner, Spill, Refill, SumTo;
    OwnerFacts(t, s);
    var f := t.freq[s];
    SpillThenRefill(c, f);
    RefillNormal(c);
    var p := Spill(c, f);
    var q, r := p.x / f, p.x % f;
    assert p.x == f * q + r;
    StepBounds(f, q, r);
    var x := Push(c, t, s).x;
    ModUnique(x, TOTAL, q, t.cumul[s] + r);
    OwnerUnique(t, x % TOTAL, s, SymbolAt(t, x % TOTAL));
    assert Advance(x, t) == p.x;
  }

  lemma RefillNormal(c: Cursor)
    requires c.x >= LOW
    ensures Refill(c) == Some(c)
  {
  }

  /** Every pop is a push undone: no two messages share a state and its bytes. */
  lemma PopThenPush(c: Cursor, t: Table, s: nat, d: Cursor)
    requires WellFormed(t) && Normal(c.x) && Pop(c, t) == Some((s, d))
    ensures s < |t.freq| && t.freq[s] > 0 && Normal(d.x)
    ensures Push(d, t, s) == c
  {
    hide Owner, Spill, Refill, SumTo;
    OwnerFacts(t, s);
    var f := t.freq[s];
    var q, r := c.x / TOTAL, c.x % TOTAL - t.cumul[s];
    var y := Advance(c.x, t);
    assert y == f * q + r;
    StepBounds(f, q, r);
    RefillThenSpill(Cursor(y, c.rest), f);
    SpillSmall(Cursor(y, c.rest), f);
    ModUnique(y, f, q, r);
  }

  lemma SpillSmall(c: Cursor, f: nat)
    requires 0 < f && c.x < 65536 * f
    ensures Spill(c, f) == c
  {
  }

  /** From any 64-bit state, damaged input included, the decoder's product and sum stay within 64 bits. */
  lemma AdvanceFits(x: nat, t: Table)
    requires WellFormed(t)
    ensures Advance(x, t) + t.cumul[SymbolAt(t, x % TOTAL)] <= x
  {
    hide Owner;
    var s := SymbolAt(t, x % TOTAL);
    OwnerFacts(t, s);
    MulLe(t.freq[s], TOTAL, x / TOTAL, x / TOTAL);
  }

  // ------------------------------------------------------------ messages

  /** One table for every byte, or one for each preceding byte. */
  datatype Model = Single(table: Table) | PerByte(tables: seq<Table>)

  ghost predicate Usable(m: Model) {
    match m
    case Single(t) => ByteTable(t)
    case PerByte(ts) => |ts| == 256 && forall k :: 0 <= k < 256 ==> ByteTable(ts[k])
  }

  function TableFor(m: Model, prev: byte): (t: Table)
    requires m.PerByte? ==> |m.tables| == 256
  {
    match m
    case Single(t) => t
    case PerByte(ts) => ts[prev]
  }

  lemma TableUsable(m: Model, prev: byte)
    requires Usable(m)
    ensures m.PerByte? ==> |m.tables| == 256
    ensures ByteTable(TableFor(m, prev))
    ensures |TableFor(m, prev).cumul| == |TableFor(m, prev).freq| + 1
  {
  }

  function SymbolFault(t: Table, s: nat): Option<RansError> {
    if s >= |t.freq| then Some(SymbolOutOfRange(s, |t.freq|))
    else if t.freq[s] == 0 then Some(ZeroFrequency(s))
    else None
  }

  /** The error coding stops at: messages are coded from their last byte. */
  function Fault(m: Model, msg: seq<byte>, prev: byte): Option<RansError>
    requires m.PerByte? ==> |m.tables| == 256
  {
    if msg == [] then None
    else
      var later := Fault(m, msg[1..], msg[0]);
      if later.Some? then later else SymbolFault(TableFor(m, prev), msg[0])
  }

  ghost function PushAll(m: Model, msg: seq<byte>, prev: byte): (c: Cursor)
    requires Usable(m) && Fault(m, msg, prev).None?
  {
    if msg == [] then Cursor(LOW, [])
    else
      TableUsable(m, prev);
      Push(PushAll(m, msg[1..], msg[0]), TableFor(m, prev), msg[0])
  }

  ghost function PopAll(m: Model, c: Cursor, prev: byte, n: nat): Option<(seq<byte>, Cursor)>
    requires Usable(m)
    decreases n
  {
    if n == 0 then Some(([], c))
    else
      TableUsable(m, prev);
      match Pop(c, TableFor(m, prev))
      case None => None
      case Some((s, d)) =>
        match PopAll(m, d, s, n - 1)
        case None => None
        case Some((later, e)) => Some(([s as byte] + later, e))
  }

  /** Decoding returns the message, the initial state and no byte left over. */
  lemma {:induction false} PopsWhatWasPushed(m: Model, msg: seq<byte>, prev: byte)
    requires Usable(m) && Fault(m, msg, prev).None?
    ensures Normal(PushAll(m, msg, prev).x)
    ensures PopAll(m, PushAll(m, msg, prev), prev, |msg|) == Some((msg, Cursor(LOW, [])))
    decreases |msg|
  {
    hide Push, Pop, Usable;
    if msg != [] {
      PopsWhatWasPushed(m, msg[1..], msg[0]);
      TableUsable(m, prev);
      PushThenPop(PushAll(m, msg[1..], msg[0]), TableFor(m, prev), msg[0]);
      assert [msg[0]] + msg[1..] == msg;
    }
  }

  /** The eight bytes of the final state, most significant first. */
  function StateBytes(x: nat, k: nat): (s: seq<byte>)
    ensures |s| == k
  {
    if k == 0 then [] else StateBytes(x / 256, k - 1) + [x % 256]
  }

  lemma {:induction false} StateBytesRead(x: nat, k: nat)
    requires x < Pow256(k)
    ensures Val(StateBytes(x, k)) == x
  {
    if k > 0 {
      StateBytesRead(x / 256, k - 1);
      ValSnoc(StateBytes(x / 256, k - 1), x % 256);
    }
  }

  function Emitted(c: Cursor): seq<byte> {
    StateBytes(c.x, 8) + c.rest
  }

  function Opened(data: seq<byte>): Cursor
    requires |data| >= 8
  {
    Cursor(Val(data[..8]), data[8..])
  }

  lemma OpensWhatWasEmitted(c: Cursor)
    requires Normal(c.x)
    ensures |Emitted(c)| >= 8 && Opened(Emitted(c)) == c
  {
    assert Pow256(4) == WORD;
    PowAdd(4, 4);
    StateBytesRead(c.x, 8);
    assert Emitted(c)[..8] == StateBytes(c.x, 8) && Emitted(c)[8..] == c.rest;
  }
}
