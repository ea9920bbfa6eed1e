/** The stateful rANS coder, its whole-message drivers and the order-1 model's. */
module RansCoder {
  import opened Bytes
  import opened Sequences
  import opened Rans

  lemma SpillStep(c: Cursor, f: nat)
    requires f > 0 && c.x >= 65536 * f
    ensures Spill(c, f) == Spill(Cursor(c.x / 256, [c.x % 256] + c.rest), f)
  {
  }

  lemma PushNormal(c: Cursor, t: Table, s: nat)
    requires WellFormed(t) && s < |t.freq| && t.freq[s] > 0 && Normal(c.x)
    ensures Normal(Push(c, t, s).x)
  {
    PushThenPop(c, t, s);
  }

  class Encoder {
    var state: nat
    var output: seq<byte>

    function Cur(): Cursor
      reads this
    {
      Cursor(state, Reversed(output))
    }

    constructor ()
      ensures Cur() == Cursor(LOW, [])
    {
      state, output := LOW, [];
    }

    method EncodeSymbol(t: Table, symbol: nat) returns (fault: Option<RansError>)
      requires WellFormed(t) && Normal(state)
      modifies this
      ensures fault == SymbolFault(t, symbol)
      ensures fault.Some? ==> Cur() == old(Cur())
      ensures fault.None? ==> Cur() == Push(old(Cur()), t, symbol)
      ensures Normal(state)
    {
      hide Spill, Reversed, SumTo;
      if symbol >= |t.freq| {
        return Some(SymbolOutOfRange(symbol, |t.freq|));
      }
      var freq := t.freq[symbol];
      if freq == 0 {
        return Some(ZeroFrequency(symbol));
      }
      ghost var start := Cur();
      PushNormal(start, t, symbol);
      var upper := LOW / TOTAL * 256 * freq;
      while state >= upper
        invariant Spill(Cur(), freq) == Spill(start, freq)
        decreases state
      {
        ghost var c := Cur();
        SpillStep(c, freq);
        ReversedSnoc(output, state % 256);
        output := output + [state % 256];
        state := state / 256;
        assert Cur() == Cursor(c.x / 256, [c.x % 256] + c.rest);
      }
      SpillSmall(Cur(), freq);
      state := state / freq * TOTAL + t.cumul[symbol] + state % freq;
      return None;
    }

    /** The eight state bytes go out low byte first; then the whole output turns around. */
    method Finish() returns (bytes: seq<byte>)
      requires Normal(state)
      modifies this
      ensures bytes == Emitted(old(Cur()))
    {
      ghost var start := Cur();
      for k := 0 to 8
        invariant Reversed(output) == StateTail(start.x, k) + start.rest
        invariant state == ShiftedRight(start.x, k)
      {
        ReversedSnoc(output, state % 256);
        StateTailNext(start.x, k);
        output := output + [state % 256];
        state := state / 256;
        assert [ShiftedRight(start.x, k) % 256] + (StateTail(start.x, k) + start.rest)
            == ([ShiftedRight(start.x, k) % 256] + StateTail(start.x, k)) + start.rest;
      }
      StateTailAll(start.x, 8);
      bytes := Reversed(output);
    }
  }

  function ShiftedRight(x: nat, k: nat): nat {
    if k == 0 then x else ShiftedRight(x, k - 1) / 256
  }

  /** The low `k` bytes of the state, most significant first. */
  function StateTail(x: nat, k: nat): (s: seq<byte>) {
    if k == 0 then [] else [ShiftedRight(x, k - 1) % 256] + StateTail(x, k - 1)
  }

  lemma StateTailNext(x: nat, k: nat)
    ensures StateTail(x, k + 1) == [ShiftedRight(x, k) % 256] + StateTail(x, k)
  {
  }

  lemma {:induction false} StateTailAll(x: nat, k: nat)
    ensures StateTail(x, k) == StateBytes(x, k)
  {
    if k > 0 {
      StateTailAll(x / 256, k - 1);
      StateTailShift(x, k - 1);
    }
  }

  lemma {:induction false} StateTailShift(x: nat, k: nat)
    ensures StateTail(x, k + 1) == StateTail(x / 256, k) + [x % 256]
    ensures ShiftedRight(x, k + 1) == ShiftedRight(x / 256, k)
  {
    if k > 0 {
      StateTailShift(x, k - 1);
    }
  }

  class Decoder {
    const input: seq<byte>
    var state: nat
    var pos: nat

    ghost predicate Valid()
      reads this
    {
      pos <= |input|
    }

    function Cur(): Cursor
      requires Valid()
      reads this
    {
      Cursor(state, input[pos..])
    }

    constructor (data: seq<byte>)
      requires |data| >= 8
      ensures Valid() && Cur() == Opened(data)
    {
      var x: nat := 0;
      for i := 0 to 8
        invariant x == Val(data[..i])
      {
        assert data[..i + 1] == data[..i] + [data[i]];
        ValSnoc(data[..i], data[i]);
        x := x * 256 + data[i];
      }
      input, state, pos := data, x, 8;
    }

    method DecodeSymbol(t: Table, spread: seq<byte>) returns (r: Result<byte>)
      requires Valid() && ByteTable(t) && IsSpread(t, spread)
      modifies this
      ensures Valid()
      ensures Pop(old(Cur()), t).None? ==> r == Err(DecodeUnderflow)
      ensures Pop(old(Cur()), t).Some? ==> r.Ok? && Pop(old(Cur()), t) == Some((r.value as nat, Cur()))
    {
      hide Owner, SumTo;
      ghost var start := Cur();
      ghost var s := SymbolAt(t, state % TOTAL);
      var symbol := spread[state % TOTAL];
      state := t.freq[symbol] * (state / TOTAL) + state % TOTAL - t.cumul[symbol];
      assert Cur() == Cursor(Advance(start.x, t), start.rest);
      while state < LOW
        invariant Valid() && Refill(Cur()) == Refill(Cursor(Advance(start.x, t), start.rest))
        decreases |input| - pos
      {
        if pos >= |input| {
          return Err(DecodeUnderflow);
        }
        assert input[pos..][1..] == input[pos + 1..];
        state := state * 256 + input[pos];
        pos := pos + 1;
      }
      return Ok(symbol);
    }
  }

  // ------------------------------------------------------------ whole messages

  ghost function Coded(m: Model, msg: seq<byte>): Result<seq<byte>>
    requires Usable(m)
  {
    match Fault(m, msg, 0)
    case Some(e) => Err(e)
    case None => Ok(Emitted(PushAll(m, msg, 0)))
  }

  function Before(msg: seq<byte>, i: nat): byte
    requires i <= |msg|
  {
    if i == 0 then 0 else msg[i - 1]
  }

  lemma {:induction false} FaultSpreads(m: Model, msg: seq<byte>, i: nat)
    requires Usable(m) && i <= |msg| && Fault(m, msg[i..], Before(msg, i)).Some?
    ensures Fault(m, msg, 0) == Fault(m, msg[i..], Before(msg, i))
  {
    if i > 0 {
      assert msg[i - 1..][1..] == msg[i..] && msg[i - 1..][0] == msg[i - 1];
      FaultSpreads(m, msg, i - 1);
    } else {
      assert msg[0..] == msg;
    }
  }

  /** From the last byte to the first, each under the table its predecessor selects;
      with a `Single` model this is the order-0 coder. */
  method Encode(m: Model, msg: seq<byte>) returns (r: Result<seq<byte>>)
    requires Usable(m)
    ensures r == if msg == [] then Err(EmptyInput) else Coded(m, msg)
  {
    hide Push, SymbolFault, Emitted, Normal, WellFormed;
    if msg == [] {
      return Err(EmptyInput);
    }
    var encoder := new Encoder();
    assert msg[|msg|..] == [];
    LowIsNormal();
    for i := |msg| downto 0
      invariant Normal(encoder.state)
      invariant Fault(m, msg[i..], Before(msg, i)).None?
      invariant encoder.Cur() == PushAll(m, msg[i..], Before(msg, i))
    {
      assert msg[i..][0] == msg[i] && msg[i..][1..] == msg[i + 1..];
      TableUsable(m, Before(msg, i));
      var fault := encoder.EncodeSymbol(TableFor(m, Before(msg, i)), msg[i] as nat);
      if fault.Some? {
        FaultSpreads(m, msg, i);
        return Err(fault.value);
      }
    }
    assert msg[0..] == msg;
    var bytes := encoder.Finish();
    return Ok(bytes);
  }

  lemma LowIsNormal()
    ensures Normal(LOW)
  {
  }

  ghost function After(done: seq<byte>, r: Option<(seq<byte>, Cursor)>): Option<seq<byte>> {
    match r
    case None => None
    case Some((later, c)) => Some(done + later)
  }

  /** The reading side of a model: one lookup table for each of its tables. */
  ghost predicate Spreads(m: Model, spreads: seq<seq<byte>>)
    requires Usable(m)
  {
    match m
    case Single(t) => |spreads| == 1 && IsSpread(t, spreads[0])
    case PerByte(ts) => |spreads| == 256 && forall k :: 0 <= k < 256 ==> IsSpread(ts[k], spreads[k])
  }

  /** The order-1 reader answers an empty request without opening the data. */
  method Decode(m: Model, spreads: seq<seq<byte>>, data: seq<byte>, n: nat) returns (r: Result<seq<byte>>)
    requires Usable(m) && Spreads(m, spreads)
    ensures m.PerByte? && n == 0 ==> r == Ok([])
    ensures m.Single? || n > 0 ==>
      r == if |data| < 8 then Err(DecodeUnderflow)
           else match After([], PopAll(m, Opened(data), 0, n)) case None => Err(DecodeUnderflow) case Some(msg) => Ok(msg)
  {
    hide Pop, WellFormed, IsSpread, Opened;
    if m.PerByte? && n == 0 {
      return Ok([]);
    }
    if |data| < 8 {
      return Err(DecodeUnderflow);
    }
    var decoder := new Decoder(data);
    var output: seq<byte> := [];
    var ctx: byte := 0;
    ghost var goal := After([], PopAll(m, Opened(data), 0, n));
    for i := 0 to n
      invariant decoder.Valid()
      invariant After(output, PopAll(m, decoder.Cur(), ctx, n - i)) == goal
    {
      TableUsable(m, ctx);
      ghost var left := PopAll(m, decoder.Cur(), ctx, n - i);
      var symbol := decoder.DecodeSymbol(TableFor(m, ctx), if m.Single? then spreads[0] else spreads[ctx]);
      if symbol.Err? {
        return Err(DecodeUnderflow);
      }
      ghost var later := PopAll(m, decoder.Cur(), symbol.value, n - i - 1);
      if later.Some? {
        assert output + ([symbol.value] + later.value.0) == (output + [symbol.value]) + later.value.0;
      }
      output := output + [symbol.value];
      ctx := symbol.value;
    }
    assert output + [] == output;
    return Ok(output);
  }

  method BuildSpreads(m: Model) returns (spreads: seq<seq<byte>>)
    requires Usable(m)
    ensures Spreads(m, spreads)
  {
    hide WellFormed, IsSpread;
    if m.Single? {
      var spread := BuildDecodeTable(m.table);
      return [spread];
    }
    spreads := [];
    for k := 0 to 256
      invariant |spreads| == k && forall j :: 0 <= j < k ==> IsSpread(m.tables[j], spreads[j])
    {
      var spread := BuildDecodeTable(m.tables[k]);
      spreads := spreads + [spread];
    }
  }

  /** What the decoder makes of the coder's output: the message, whenever it was codable. */
  method RoundTrip(m: Model, msg: seq<byte>) returns (r: Result<seq<byte>>)
    requires Usable(m)
    ensures r == Ok(msg) <==> msg != [] && Fault(m, msg, 0).None?
    ensures msg == [] ==> r == Err(EmptyInput)
    ensures msg != [] && Fault(m, msg, 0).Some? ==> r == Err(Fault(m, msg, 0).value)
  {
    hide Emitted, Opened, Spreads;
    r := Encode(m, msg);
    if r.Ok? {
      PopsWhatWasPushed(m, msg, 0);
      OpensWhatWasEmitted(PushAll(m, msg, 0));
      var spreads := BuildSpreads(m);
      r := Decode(m, spreads, r.value, |msg|);
      assert [] + msg == msg;
    }
  }
}
