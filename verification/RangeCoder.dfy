/** The range coder on machine words: 32-bit window, carry propagation through
    a cached byte, and pending 0xFF bytes. */
module RangeCoder {
  import opened Arithmetic
  import opened Bytes
  import opened BitStrings
  import opened RangeCoding

  /** Decisions made by coding the low `count` bits of `value`, high bit first. */
  function DirectBits(value: nat, count: nat): (ds: seq<Decision>)
    ensures AllCodable(ds) && |ds| == count
  {
    if count == 0 then [] else [Direct(BitOf(value, count - 1))] + DirectBits(value, count - 1)
  }

  function Repeat(b: byte, k: nat): (s: seq<byte>)
    ensures |s| == k
  {
    if k == 0 then [] else Repeat(b, k - 1) + [b]
  }

  /** What shifting a byte out of the window does to the string of settled bytes. */
  lemma WindowShift(low: nat)
    ensures low == WORD * (low / WORD) + 0x100_0000 * (low / 0x100_0000 % 256) + low % 0x100_0000
  {
    var a := low / 0x100_0000;
    assert low / WORD == a / 256;
  }

  /** `low` is empty after four shifts. */
  lemma LowDrains(a: nat, b: nat, c: nat, d: nat, e: nat)
    requires b == a % 0x100_0000 * 256 && c == b % 0x100_0000 * 256
    requires d == c % 0x100_0000 * 256 && e == d % 0x100_0000 * 256
    ensures e == 0
  {
    ModScale(0x100, a % 0x100_0000, 0x1_0000);
    ModScale(0x1_0000, a % 0x100_0000 % 0x1_0000, 0x100);
    ModScale(0x100_0000, a % 0x100_0000 % 0x1_0000 % 0x100, 1);
  }

  lemma ModScale(u: nat, q: nat, m: nat)
    requires u > 0 && m > 0
    ensures u * q % (u * m) == u * (q % m)
  {
    var k, r := q / m, q % m;
    assert q == m * k + r;
    assert u * (m * k + r) == u * m * k + u * r;
    MulLe(u, u, r + 1, m);
    assert u * (r + 1) == u * r + u;
    ModUnique(u * q, u * m, k, u * r);
  }

  /** The value of window and settled bytes when a byte moves from one to the other. */
  lemma ShiftArith(head: nat, low: nat, width: nat)
    requires 0 < width <= TOP && low + width <= 2 * WORD
    ensures ((head + low / WORD) * 256 + low / TOP % 256) * WORD + low % TOP * 256 == 256 * (head * WORD + low)
    ensures low / WORD <= 1
    ensures low / TOP % 256 == 0xFF && (low >= WORD || low + width <= WORD) ==> low % TOP + width <= TOP
  {
    WindowShift(low);
  }

  /** Adding the carry to the cached byte turns every pending 0xFF into 0. */
  lemma {:induction false} CarryRipples(out: seq<byte>, cache: byte, k: nat)
    requires cache < 0xFF
    ensures Val(out + [cache + 1] + Repeat(0, k)) == Val(out + [cache] + Repeat(0xFF, k)) + 1
  {
    if k == 0 {
      assert out + [cache + 1] + [] == out + [cache + 1];
      assert out + [cache] + [] == out + [cache];
      ValSnoc(out, cache + 1);
      ValSnoc(out, cache);
    } else {
      CarryRipples(out, cache, k - 1);
      var a, b := out + [cache + 1] + Repeat(0, k - 1), out + [cache] + Repeat(0xFF, k - 1);
      ValSnoc(a, 0);
      ValSnoc(b, 0xFF);
      assert a + [0] == out + [cache + 1] + Repeat(0, k);
      assert b + [0xFF] == out + [cache] + Repeat(0xFF, k);
    }
  }

  /** Bits and direct bits renormalise with a single `if`. */
  lemma OneShift(iv: Interval, d: Decision)
    requires TOP <= iv.range < WORD && Codable(d) && !d.Freq?
    ensures var s := Narrow(iv, d);
            s.range >= 0x1_0000 && SliceOff(iv.range, d) + s.range <= iv.range
  {
    SliceFits(iv.range, d);
  }

  class RangeEncoder {
    var low: nat
    var range: nat
    var cache: byte
    var cacheSize: nat
    var output: seq<byte>
    /** Value and number of the settled bytes. */
    ghost var head: nat
    ghost var settled: nat

    /** Bytes whose value is fixed up to a carry: written, cached, pending. */
    ghost function Settled(): seq<byte>
      reads `cache, `cacheSize, `output
    {
      output + [cache] + Repeat(0xFF, if cacheSize == 0 then 0 else cacheSize - 1)
    }

    ghost predicate Held()
      reads `cache, `cacheSize, `output, `head, `settled
    {
      cacheSize >= 1 && head == Val(Settled()) && settled == |Settled()|
    }

    /** The interval the machine words stand for, its lower end exact. */
    ghost function View(): Interval
      reads `low, `range, `head, `settled
    {
      Interval(head * WORD + low, range, settled)
    }

    /** A carry can only be due while the cache byte has room for it. */
    ghost predicate CarryHasRoom(width: nat)
      reads `low, `cache
    {
      low + width <= 2 * WORD && (cache == 0xFF ==> low + width <= WORD)
    }

    ghost predicate Valid()
      reads this
    {
      && Held()
      && TOP <= range < WORD
      && CarryHasRoom(range)
    }

    constructor ()
      ensures Valid() && View() == START && output == []
    {
      low, range, cache, cacheSize, output := 0, RANGE_INIT, 0, 1, [];
      head, settled := 0, 1;
      new;
      assert Settled() == [] + [0];
      ValSnoc([], 0);
    }

    /** One byte of `low` leaves the window; the exact value is scaled by 256. */
    method ShiftLow(ghost width: nat)
      requires Held() && 0 < width <= TOP && CarryHasRoom(width)
      modifies `low, `cache, `cacheSize, `output, `head, `settled
      ensures Held() && low == old(low) % 0x100_0000 * 256
      ensures settled == old(settled) + 1
      ensures head * WORD + low == 256 * old(head * WORD + low)
      ensures CarryHasRoom(256 * width)
      ensures old(low) == 0 ==> output == old(Settled())
    {
      hide Val;
      var lowHi := low / WORD;
      ShiftArith(head, low, width);
      if low < 0xFF00_0000 || lowHi != 0 {
        Flush(lowHi);
        ghost var written := output;
        cache := low / 0x100_0000 % 256;
        cacheSize := 1;
        assert Settled() == written + [cache];
        ValSnoc(written, cache);
      } else {
        ghost var before := Settled();
        cacheSize := cacheSize + 1;
        assert Settled() == before + [0xFF];
        ValSnoc(before, 0xFF);
      }
      head, settled := Val(Settled()), |Settled()|;
      low := low % 0x100_0000 * 256;
    }

    /** Write the cached byte and every pending 0xFF, adding the carry. */
    method Flush(carry: nat)
      requires Held() && carry <= 1 && (carry == 1 ==> cache < 0xFF)
      modifies `cacheSize, `output
      ensures |output| == settled && Val(output) == head + carry
      ensures carry == 0 ==> output == old(Settled())
    {
      ghost var k := cacheSize - 1;
      ghost var out0 := output;
      ghost var fill: byte := if carry == 0 then 0xFF else 0;
      var c := cache;
      output := output + [(c + carry) % 256];
      cacheSize := cacheSize - 1;
      c := 0xFF;
      ghost var first: byte := (cache + carry) % 256;
      ghost var written := 0;
      assert output == out0 + [first] + Repeat(fill, 0);
      while cacheSize != 0
        invariant c == 0xFF && 0 <= cacheSize && written + cacheSize == k
        invariant output == out0 + [first] + Repeat(fill, written)
        decreases cacheSize
      {
        output := output + [(c + carry) % 256];
        c := 0xFF;
        cacheSize := cacheSize - 1;
        written := written + 1;
        assert Repeat(fill, written) == Repeat(fill, written - 1) + [fill];
      }
      if carry == 1 {
        CarryRipples(out0, cache, k);
      }
    }

    /** Shift one byte out and widen the range accordingly. */
    method Normalize()
      requires Held() && 0 < range < TOP && CarryHasRoom(range)
      modifies `low, `range, `cache, `cacheSize, `output, `head, `settled
      ensures Held() && CarryHasRoom(range)
      ensures View() == Interval(256 * old(View()).low, 256 * old(range), old(settled) + 1)
    {
      ShiftLow(range);
      range := range * 256;
    }

    method EncodeBit(prob: Prob, bit: bool) returns (prob': Prob)
      requires Valid()
      modifies this
      ensures Valid() && View() == Encode(old(View()), Bit(prob, bit))
      ensures prob' == Adapt(prob, bit)
    {
      OneShift(View(), Bit(prob, bit));
      var bound := range / 2048 * prob;
      if !bit {
        Keep(0, bound);
        prob' := prob + (2048 - prob) / 32;
      } else {
        Keep(bound, range - bound);
        prob' := prob - prob / 32;
      }
    }

    /** Narrow to the slice at `off` of `size`, then renormalise once. */
    method Keep(off: nat, size: nat)
      requires Valid() && 0x1_0000 <= size && off + size <= range
      modifies this
      ensures Valid() && View() == Renorm(Interval(old(View()).low + off, size, old(settled)))
    {
      low := low + off;
      range := size;
      RenormOnce(View());
      if range < TOP {
        Normalize();
      }
    }

    method EncodeDirectBits(value: nat, count: nat)
      requires Valid()
      modifies this
      ensures Valid() && View() == EncodeAll(old(View()), DirectBits(value, count))
    {
      var i := count;
      while i > 0
        invariant 0 <= i <= count
        invariant Valid()
        invariant EncodeAll(View(), DirectBits(value, i)) == EncodeAll(old(View()), DirectBits(value, count))
      {
        i := i - 1;
        EncodeDirectBit(BitOf(value, i));
      }
    }

    /** One iteration of the program's direct-bit loop. */
    method EncodeDirectBit(bit: bool)
      requires Valid()
      modifies this
      ensures Valid() && View() == Encode(old(View()), Direct(bit))
    {
      OneShift(View(), Direct(bit));
      Keep(if bit then range / 2 else 0, range / 2);
    }

    method EncodeFreq(cum: nat, freq: nat, total: nat)
      requires Valid() && Codable(Freq(cum, freq, total))
      modifies this
      ensures Valid() && View() == Encode(old(View()), Freq(cum, freq, total))
    {
      ghost var d := Freq(cum, freq, total);
      EncodeInside(View(), d);
      ghost var slice := Narrow(View(), d);
      var r := range / total;
      low := low + cum * r;
      range := if cum + freq == total then range - r * cum else r * freq;
      assert View() == slice;
      while range < TOP
        invariant Held() && 0 < range < WORD && CarryHasRoom(range)
        invariant Renorm(View()) == Renorm(slice)
        decreases TOP - range
      {
        Normalize();
      }
    }

    /** Everything still held back is written; what comes out is the exact
        lower end of the final interval, so no decision is lost. */
    method Finish() returns (stream: seq<byte>)
      requires Valid()
      modifies this
      ensures |stream| == old(View()).settled + 4 && Val(stream) == old(View()).low
    {
      ghost var low0 := low;
      ShiftLow(1);
      ghost var low1 := low;
      ShiftLow(1);
      ghost var low2 := low;
      ShiftLow(1);
      ghost var low3 := low;
      ShiftLow(1);
      LowDrains(low0, low1, low2, low3, low);
      assert head == old(View()).low;
      ShiftLow(1);
      stream := output;
    }
  }

  lemma UndoWrap(code: nat, h: nat)
    requires code < WORD && h < WORD
    ensures ((code + WORD - h) % WORD + h) % WORD == code
  {
    if code >= h {
      assert (code + WORD - h) % WORD == code - h;
    } else {
      assert (code + WORD - h) % WORD == code + WORD - h;
    }
  }

  lemma FourBytes(d: seq<byte>)
    requires |d| == 4
    ensures Val(d) == d[0] as int * 0x100_0000 + d[1] as int * 0x1_0000 + d[2] as int * 0x100 + d[3] as int
  {
    ValSnoc([], d[0]);
    ValSnoc([d[0]], d[1]);
    ValSnoc([d[0], d[1]], d[2]);
    ValSnoc([d[0], d[1], d[2]], d[3]);
    assert [d[0]] == [] + [d[0]];
    assert [d[0], d[1]] == [d[0]] + [d[1]];
    assert [d[0], d[1], d[2]] == [d[0], d[1]] + [d[2]];
    assert d == [d[0], d[1], d[2]] + [d[3]];
  }

  class RangeDecoder {
    var range: nat
    var code: nat
    const input: seq<byte>
    var pos: nat

    ghost function View(): Reader
      reads this
    {
      Reader(range, code, input, pos)
    }

    ghost predicate Valid()
      reads this
    {
      Live(View())
    }

    constructor (data: seq<byte>)
      requires |data| >= 5
      ensures Valid() && View() == Open(data)
    {
      range := 0xFFFF_FFFF;
      code := data[1] as int * 0x100_0000 + data[2] as int * 0x1_0000 + data[3] as int * 0x100 + data[4] as int;
      input := data;
      pos := 5;
      new;
      FourBytes(data[1..5]);
    }

    method NextByte() returns (b: byte)
      modifies `pos
      ensures b == ByteAt(input, old(pos)) && pos == NextPos(old(View()))
    {
      if pos < |input| {
        b := input[pos];
        pos := pos + 1;
      } else {
        b := 0;
      }
    }

    /** Shift one byte in. `u32` arithmetic drops what leaves the window. */
    method Normalize()
      requires range < TOP && code < WORD
      modifies `range, `code, `pos
      ensures range == 256 * old(range)
      ensures View() == Reader(256 * old(range), (256 * old(code) + ByteAt(input, old(pos))) % WORD, input, NextPos(old(View())))
    {
      range := range * 256;
      var b := NextByte();
      code := code * 256 % WORD + b;
    }

    method DecodeBit(prob: Prob) returns (bit: bool, prob': Prob)
      requires Valid()
      modifies this
      ensures Valid() && (bit, View()) == ReadBit(old(View()), prob)
      ensures prob' == Adapt(prob, bit)
    {
      SliceFits(range, Bit(prob, true));
      SliceFits(range, Bit(prob, false));
      var bound := range / 2048 * prob;
      if code < bound {
        range := bound;
        prob' := prob + (2048 - prob) / 32;
        bit := false;
      } else {
        code := code - bound;
        range := range - bound;
        prob' := prob - prob / 32;
        bit := true;
      }
      RefillOnce(View());
      if range < TOP {
        Normalize();
      }
    }

    method DecodeDirectBits(count: nat) returns (value: nat)
      requires Valid()
      modifies this
      ensures Valid() && (value, View()) == ReadDirectBits(old(View()), 0, count)
    {
      value := 0;
      for i := 0 to count
        invariant Valid()
        invariant ReadDirectBits(View(), value, count - i) == ReadDirectBits(old(View()), 0, count)
      {
        var bit := DecodeDirectBit();
        value := 2 * value + if bit then 1 else 0;
      }
    }

    /** One iteration of the program's direct-bit loop: subtract half the range
        with wrap-around and undo it when the sign bit shows an underflow. */
    method DecodeDirectBit() returns (bit: bool)
      requires Valid()
      modifies this
      ensures Valid() && (bit, View()) == ReadDirect(old(View()))
    {
      hide Val, Pow256;
      range := range / 2;
      code := (code + WORD - range) % WORD;
      var t := code >= WORD / 2;
      UndoWrap(old(code), range);
      code := (code + if t then range else 0) % WORD;
      bit := !t;
      RefillOnce(View());
      if range < TOP {
        Normalize();
      }
    }

    method GetFreq(total: nat) returns (target: nat)
      requires Valid() && 0 < total <= TOP
      ensures target == ReadTarget(View(), total)
    {
      RatioPositive(range, total);
      var r := range / total;
      var q := code / r;
      target := if q < total - 1 then q else total - 1;
    }

    method DecodeFreq(cum: nat, freq: nat, total: nat)
      requires Valid() && Codable(Freq(cum, freq, total))
      requires cum * (range / total) <= code
      modifies this
      ensures Valid() && View() == ReadFreq(old(View()), cum, freq, total)
    {
      SliceFits(range, Freq(cum, freq, total));
      var r := range / total;
      code := code - cum * r;
      range := if cum + freq == total then range - r * cum else r * freq;
      while range < TOP
        invariant 0 < range < WORD && code < WORD
        invariant Refill(View()) == ReadFreq(old(View()), cum, freq, total)
        decreases TOP - range
      {
        Normalize();
      }
    }
  }

  /** `count` direct bits appended to `acc`, high bit first. */
  function ReadDirectBits(r: LiveReader, acc: nat, count: nat): (nat, LiveReader)
    decreases count
  {
    if count == 0 then (acc, r)
    else
      var (b, r') := ReadDirect(r);
      ReadDirectBits(r', 2 * acc + if b then 1 else 0, count - 1)
  }
}
