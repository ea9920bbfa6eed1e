/** Bits in and out of bytes, low bit of each byte first. */
module BitStream {
  import opened Arithmetic
  import opened Bytes
  import opened BitStrings
  import opened BitWords
  import opened CodeLengths
  import opened CanonicalCode
  import opened DecodeTable
  import opened Sequences

  function BitsOf(s: seq<byte>): (b: seq<bool>)
    ensures |b| == 8 * |s|
  {
    if s == [] then [] else BitsOf(s[..|s| - 1]) + Lsb(s[|s| - 1], 8)
  }

  lemma BitsSnoc(s: seq<byte>, b: byte)
    ensures BitsOf(s + [b]) == BitsOf(s) + Lsb(b, 8)
  {
    assert (s + [b])[..|s|] == s;
  }

  lemma {:induction false} BitsConcat(a: seq<byte>, b: seq<byte>)
    ensures BitsOf(a + b) == BitsOf(a) + BitsOf(b)
  {
    hide Lsb;
    if b == [] {
      assert a + b == a;
    } else {
      var b', z := b[..|b| - 1], b[|b| - 1];
      assert a + b == (a + b') + [z];
      BitsSnoc(a + b', z);
      BitsConcat(a, b');
      assert BitsOf(a) + BitsOf(b') + Lsb(z, 8) == BitsOf(a) + (BitsOf(b') + Lsb(z, 8));
    }
  }

  lemma BitsHead(b: byte, s: seq<byte>)
    ensures BitsOf([b] + s) == Lsb(b, 8) + BitsOf(s)
  {
    BitsConcat([b], s);
    BitsSnoc([], b);
    assert [] + [b] == [b] && BitsOf([]) + Lsb(b, 8) == Lsb(b, 8);
  }

  /** A word of `n` bits is its low `k` bits and the rest, by division. */
  lemma LsbDivide(v: nat, n: nat, k: nat)
    requires k <= n && v < Pow2(n)
    ensures Lsb(v, n) == Lsb(v % Pow2(k), k) + Lsb(v / Pow2(k), n - k)
    ensures v % Pow2(k) < Pow2(k) && v / Pow2(k) < Pow2(n - k)
  {
    hide Lsb, Pow2;
    var p := Pow2(k);
    Divide(v, p);
    LsbSplit(v % p, v / p, k, n - k);
    Pow2Add(n - k, k);
    QuotientBelow(v, p, Pow2(n - k));
  }

  /** Two words side by side are one number. */
  lemma LsbJoin(v: nat, w: nat, k: nat, m: nat)
    requires v < Pow2(k) && w < Pow2(m)
    ensures v + w * Pow2(k) < Pow2(k + m)
    ensures Lsb(v + w * Pow2(k), k + m) == Lsb(v, k) + Lsb(w, m)
  {
    hide Lsb, Pow2;
    LsbSplit(v, w, k, m);
    Pow2Add(m, k);
    BelowEnd(v + w * Pow2(k), w, Pow2(m), Pow2(k), v);
  }

  lemma {:induction false} Pow2Monotone(i: nat, j: nat)
    requires i <= j
    ensures Pow2(i) <= Pow2(j)
    decreases j
  {
    if i < j {
      Pow2Monotone(i, j - 1);
    }
  }

  class BitWriter {
    var buffer: seq<byte>
    var current: nat
    var bitsIn: nat

    ghost predicate Valid()
      reads this
    {
      bitsIn < 8 && current < Pow2(bitsIn)
    }

    ghost function Written(): seq<bool>
      reads this
    {
      BitsOf(buffer) + Lsb(current, bitsIn)
    }

    constructor ()
      ensures Valid() && Written() == []
    {
      buffer, current, bitsIn := [], 0, 0;
    }

    /** The value joins the current word above the bits already there; 31 bits are the most it holds. */
    method WriteBits(value: nat, count: nat)
      requires Valid() && count <= 24 && value < Pow2(count)
      modifies this
      ensures Valid() && Written() == old(Written()) + Lsb(value, count)
    {
      hide Lsb, Pow2, BitsOf;
      LsbJoin(current, value, bitsIn, count);
      ghost var goal := Written() + Lsb(value, count);
      assert goal == BitsOf(buffer) + (Lsb(current, bitsIn) + Lsb(value, count));
      current := current + value * Pow2(bitsIn);
      bitsIn := bitsIn + count;
      while bitsIn >= 8
        invariant bitsIn <= 31 && current < Pow2(bitsIn) && Written() == goal
        decreases bitsIn
      {
        PushByte(buffer, current, bitsIn);
        buffer := buffer + [current % 256];
        current := current / 256;
        bitsIn := bitsIn - 8;
      }
    }

    method WriteCode(code: HuffCode)
      requires Valid() && code.len <= MAX_BITS
      modifies this
      ensures Valid() && Written() == old(Written()) + Word(code)
    {
      hide Lsb, Msb, Pow2, BitsOf;
      var reversed := ReverseBits(code.bits, code.len);
      ReverseForStream(code.bits, code.len);
      WriteBits(reversed, code.len);
    }

    /** The last byte is filled up with zero bits. */
    method Finish() returns (r: seq<byte>)
      requires Valid()
      ensures r == BytesOf(Written())
      ensures Written() <= BitsOf(r) && 8 * |r| < |Written()| + 8
    {
      hide Lsb, Pow2, BytesOf, BitsOf;
      BytesOfFits(Written());
      BytesOfBuffer(buffer, current, bitsIn);
      if bitsIn > 0 {
        r := buffer + [current];
      } else {
        r := buffer;
      }
    }
  }

  lemma PushByte(buffer: seq<byte>, current: nat, bitsIn: nat)
    requires bitsIn >= 8 && current < Pow2(bitsIn)
    ensures current / 256 < Pow2(bitsIn - 8)
    ensures BitsOf(buffer + [current % 256]) + Lsb(current / 256, bitsIn - 8) == BitsOf(buffer) + Lsb(current, bitsIn)
  {
    hide Lsb, BitsOf;
    assert Pow2(8) == 256;
    LsbDivide(current, bitsIn, 8);
    BitsSnoc(buffer, current % 256);
    assert BitsOf(buffer) + Lsb(current % 256, 8) + Lsb(current / 256, bitsIn - 8)
        == BitsOf(buffer) + (Lsb(current % 256, 8) + Lsb(current / 256, bitsIn - 8));
  }

  /** The bits in bytes, the last filled up with zeros. */
  function BytesOf(bits: seq<bool>): (s: seq<byte>)
    ensures 8 * |s| < |bits| + 8 && |bits| <= 8 * |s|
  {
    if bits == [] then []
    else
      ByteBelow(bits[..FirstByte(bits)]);
      [Value(bits[..FirstByte(bits)])] + BytesOf(bits[FirstByte(bits)..])
  }

  function FirstByte(bits: seq<bool>): (n: nat)
    ensures n <= |bits| && n <= 8 && (bits != [] ==> n > 0) && (n < 8 ==> n == |bits|)
  {
    if |bits| < 8 then |bits| else 8
  }

  lemma ByteBelow(bits: seq<bool>)
    requires |bits| <= 8
    ensures Value(bits) < 256
  {
    hide Value;
    Pow2Monotone(|bits|, 8);
    assert Pow2(8) == 256;
  }

  lemma {:induction false} BytesOfFits(bits: seq<bool>)
    ensures bits <= BitsOf(BytesOf(bits))
    decreases |bits|
  {
    hide Lsb, Value, Pow2, BitsOf;
    if bits != [] {
      var n := FirstByte(bits);
      var first, later := bits[..n], BytesOf(bits[n..]);
      ByteBelow(first);
      BytesOfFits(bits[n..]);
      BitsHead(Value(first), later);
      LsbOfValue(first);
      LsbSplit(Value(first), 0, n, 8 - n);
      assert Value(first) + 0 * Pow2(n) == Value(first);
      assert BytesOf(bits) == [Value(first)] + later;
      if n < 8 {
        assert bits == first;
      } else {
        assert bits == first + bits[8..];
      }
    }
  }

  lemma {:induction false} BytesOfBuffer(buffer: seq<byte>, current: nat, bitsIn: nat)
    requires bitsIn < 8 && current < Pow2(bitsIn)
    ensures BytesOf(BitsOf(buffer) + Lsb(current, bitsIn)) == buffer + if bitsIn > 0 then [current] else []
    decreases |buffer|
  {
    hide Lsb, Value, Pow2, BitsOf;
    var tail := Lsb(current, bitsIn);
    if buffer == [] {
      NoBits();
      assert [] + tail == tail;
      ValueOfLsb(current, bitsIn);
      if bitsIn > 0 {
        assert tail[..bitsIn] == tail && tail[bitsIn..] == [];
      }
    } else {
      BitsHead(buffer[0], buffer[1..]);
      assert buffer == [buffer[0]] + buffer[1..];
      var bits, later := BitsOf(buffer) + tail, BitsOf(buffer[1..]) + tail;
      assert bits == Lsb(buffer[0], 8) + later;
      assert bits[..8] == Lsb(buffer[0], 8) && bits[8..] == later;
      assert Pow2(8) == 256 by {
        EightBits();
      }
      ValueOfLsb(buffer[0], 8);
      BytesOfBuffer(buffer[1..], current, bitsIn);
    }
  }

  lemma NoBits()
    ensures BitsOf([]) == []
  {
  }

  lemma EightBits()
    ensures Pow2(8) == 256
  {
  }

  // ------------------------------------------------------------ reading

  /** The next `count` bits as a number; bits past the end read as zero. */
  ghost function Peek(bits: seq<bool>, count: nat): nat {
    Value(bits[..if count < |bits| then count else |bits|])
  }

  ghost function Dropped(bits: seq<bool>, count: nat): seq<bool> {
    bits[if count < |bits| then count else |bits|..]
  }

  /** Bits that were written are read back as the number they came from. */
  lemma PeekWritten(v: nat, count: nat, rest: seq<bool>)
    requires v < Pow2(count)
    ensures Peek(Lsb(v, count) + rest, count) == v && Dropped(Lsb(v, count) + rest, count) == rest
  {
    hide Lsb;
    assert (Lsb(v, count) + rest)[..count] == Lsb(v, count);
    ValueOfLsb(v, count);
  }

  /** The low `count` bits of a word that holds what comes next, and what remains. */
  lemma WordPeek(current: nat, bitsIn: nat, ahead: seq<bool>, count: nat)
    requires current < Pow2(bitsIn) && (count <= bitsIn || ahead == [])
    ensures var bits := Lsb(current, bitsIn) + ahead;
            current % Pow2(count) == Peek(bits, count)
            && Lsb(current / Pow2(count), if count < bitsIn then bitsIn - count else 0) + ahead == Dropped(bits, count)
    ensures current / Pow2(count) < Pow2(if count < bitsIn then bitsIn - count else 0)
  {
    hide Lsb, Value, Pow2, Peek, Dropped;
    var bits := Lsb(current, bitsIn) + ahead;
    if count <= bitsIn {
      LsbDivide(current, bitsIn, count);
      assert bits == Lsb(current % Pow2(count), count) + (Lsb(current / Pow2(count), bitsIn - count) + ahead);
      PeekWritten(current % Pow2(count), count, Lsb(current / Pow2(count), bitsIn - count) + ahead);
    } else {
      Pow2Monotone(bitsIn, count);
      assert bits == Lsb(current, bitsIn);
      ValueOfLsb(current, bitsIn);
      SmallDivide(current, Pow2(count));
      PeekPastEnd(bits, count);
      assert Lsb(0, 0) + ahead == [];
    }
  }

  lemma PeekPastEnd(bits: seq<bool>, count: nat)
    requires |bits| < count
    ensures Peek(bits, count) == Value(bits) && Dropped(bits, count) == []
  {
    assert bits[..|bits|] == bits;
  }

  lemma SmallDivide(v: nat, p: nat)
    requires v < p
    ensures v / p == 0 && v % p == v
  {
    ModUnique(v, p, 0, v);
  }

  class BitReader {
    const data: seq<byte>
    var pos: nat
    var current: nat
    var bitsIn: nat

    ghost predicate Valid()
      reads this
    {
      pos <= |data| && bitsIn <= 32 && current < Pow2(bitsIn)
    }

    ghost function Rest(): seq<bool>
      requires Valid()
      reads this
    {
      Lsb(current, bitsIn) + BitsOf(data[pos..])
    }

    constructor (data: seq<byte>)
      ensures Valid() && Rest() == BitsOf(data)
    {
      this.data := data;
      pos, current, bitsIn := 0, 0, 0;
      new;
      assert data[0..] == data && Lsb(0, 0) + BitsOf(data) == BitsOf(data);
    }

    method EnsureBits(need: nat)
      requires Valid() && need <= 25
      modifies this
      ensures Valid() && Rest() == old(Rest())
      ensures bitsIn >= need || pos == |data|
    {
      hide Lsb, Pow2, BitsOf;
      while bitsIn < need && bitsIn < 25 && pos < |data|
        invariant Valid() && Rest() == old(Rest())
        decreases |data| - pos
      {
        LoadByte(current, bitsIn, data, pos);
        current := current + data[pos] * Pow2(bitsIn);
        pos := pos + 1;
        bitsIn := bitsIn + 8;
      }
    }

    method ReadBits(count: nat) returns (val: nat)
      requires Valid() && count <= 25
      modifies this
      ensures Valid() && val == Peek(old(Rest()), count) && Rest() == Dropped(old(Rest()), count)
    {
      hide Lsb, Pow2, BitsOf, Peek, Dropped;
      EnsureBits(count);
      NothingAhead(data, pos);
      var p := Pow2(count);
      WordPeek(current, bitsIn, BitsOf(data[pos..]), count);
      val := current % p;
      current := current / p;
      bitsIn := if count < bitsIn then bitsIn - count else 0;
    }

    /** One look into the table: `None` for an empty entry or a code that runs past the end. */
    method ReadEntry(lookup: array<nat>, maxLen: nat) returns (sym: Option<nat>)
      requires Valid() && maxLen <= MAX_BITS && lookup.Length == Pow2(maxLen)
      requires forall idx :: 0 <= idx < lookup.Length ==> lookup[idx] / SYMBOL_LIMIT <= maxLen
      modifies this
      ensures Valid() && Peek(old(Rest()), maxLen) < lookup.Length
      ensures sym == EntryRead(lookup[Peek(old(Rest()), maxLen)], |old(Rest())|)
      ensures sym.Some? ==>
        Rest() == old(Rest())[lookup[Peek(old(Rest()), maxLen)] / SYMBOL_LIMIT..]
    {
      hide Lsb, Pow2, BitsOf, Value, Peek, Dropped;
      EnsureBits(maxLen);
      ghost var rest, ahead := Rest(), BitsOf(data[pos..]);
      NothingAhead(data, pos);
      var p := Pow2(maxLen);
      WordPeek(current, bitsIn, ahead, maxLen);
      PeekInTable(current, p);
      var entry := lookup[current % p];
      var len, s := entry / SYMBOL_LIMIT, entry % SYMBOL_LIMIT;
      if len == 0 || len > bitsIn {
        return None;
      }
      ConsumeWord(current, bitsIn, ahead, len);
      var q := Pow2(len);
      current := current / q;
      bitsIn := bitsIn - len;
      sym := Some(s);
    }

    /** `None` for bits no code starts, or a code that runs past the end. */
    method ReadHuffman(lookup: array<nat>, maxLen: nat, ghost codes: seq<HuffCode>) returns (sym: Option<nat>)
      requires Valid() && IsTable(lookup[..], maxLen, codes)
      modifies this
      ensures Valid() && sym == NextSymbol(codes, old(Rest()))
      ensures sym.Some? ==> Rest() == old(Rest())[codes[sym.value].len..]
    {
      hide Lsb, Pow2, BitsOf, IsTable, Value, NextSymbol, Word, Peek, Dropped;
      TableFacts(lookup[..], maxLen, codes);
      ghost var rest := Rest();
      forall idx | 0 <= idx < lookup.Length ensures lookup[idx] / SYMBOL_LIMIT <= maxLen {
        EntryShort(lookup[..], maxLen, codes, idx);
      }
      sym := ReadEntry(lookup, maxLen);
      TableDecides(lookup[..], maxLen, codes, rest, Peek(rest, maxLen));
    }
  }

  /** The symbol an entry gives when `left` bits are left. */
  function EntryRead(entry: nat, left: nat): Option<nat> {
    if entry / SYMBOL_LIMIT == 0 || entry / SYMBOL_LIMIT > left then None else Some(entry % SYMBOL_LIMIT)
  }

  lemma EntryShort(lookup: seq<nat>, maxLen: nat, codes: seq<HuffCode>, idx: nat)
    requires IsTable(lookup, maxLen, codes) && idx < |lookup|
    ensures lookup[idx] / SYMBOL_LIMIT <= maxLen
  {
    hide Entry, Matches;
    EntryMatches(codes, maxLen, idx, |codes|);
  }

  lemma ConsumeWord(current: nat, bitsIn: nat, ahead: seq<bool>, len: nat)
    requires current < Pow2(bitsIn) && len <= bitsIn
    ensures Lsb(current / Pow2(len), bitsIn - len) + ahead == (Lsb(current, bitsIn) + ahead)[len..]
    ensures 0 <= current / Pow2(len) < Pow2(bitsIn - len)
  {
    hide Lsb, Pow2, Peek;
    WordPeek(current, bitsIn, ahead, len);
  }

  lemma NothingAhead(data: seq<byte>, pos: nat)
    requires pos <= |data|
    ensures pos == |data| ==> BitsOf(data[pos..]) == []
  {
  }

  lemma PeekInTable(v: nat, p: nat)
    requires p > 0
    ensures 0 <= v % p < p
  {
  }

  lemma LoadByte(current: nat, bitsIn: nat, data: seq<byte>, pos: nat)
    requires current < Pow2(bitsIn) && pos < |data|
    ensures current + data[pos] * Pow2(bitsIn) < Pow2(bitsIn + 8)
    ensures Lsb(current + data[pos] * Pow2(bitsIn), bitsIn + 8) + BitsOf(data[pos + 1..])
         == Lsb(current, bitsIn) + BitsOf(data[pos..])
  {
    hide Lsb, BitsOf;
    assert Pow2(8) == 256;
    var b := data[pos];
    LsbJoin(current, b, bitsIn, 8);
    assert data[pos..] == [b] + data[pos + 1..];
    BitsHead(b, data[pos + 1..]);
    assert Lsb(current, bitsIn) + Lsb(b, 8) + BitsOf(data[pos + 1..])
        == Lsb(current, bitsIn) + (Lsb(b, 8) + BitsOf(data[pos + 1..]));
  }

  /** What `BuildDecodeTable` leaves for prefix-free codes. */
  ghost predicate IsTable(lookup: seq<nat>, maxLen: nat, codes: seq<HuffCode>) {
    && 1 <= maxLen <= MAX_BITS && |lookup| == Pow2(maxLen) && |codes| <= SYMBOL_LIMIT && Decodable(codes)
    && (forall s :: 0 <= s < |codes| ==> codes[s].len <= maxLen)
    && (forall idx :: 0 <= idx < |lookup| ==> lookup[idx] == Entry(codes, maxLen, idx, |codes|))
  }

  lemma TableFacts(lookup: seq<nat>, maxLen: nat, codes: seq<HuffCode>)
    requires IsTable(lookup, maxLen, codes)
    ensures 1 <= maxLen <= MAX_BITS && |lookup| == Pow2(maxLen)
  {
  }

  /** The table's answer for the next `maxLen` bits is the next symbol, provided its
      code does not run past the bits that are left. */
  lemma TableDecides(lookup: seq<nat>, maxLen: nat, codes: seq<HuffCode>, bits: seq<bool>, peek: nat)
    requires IsTable(lookup, maxLen, codes) && peek == Peek(bits, maxLen) && peek < |lookup|
    ensures var sym := EntryRead(lookup[peek], |bits|);
            sym == NextSymbol(codes, bits)
            && (sym.Some? ==> lookup[peek] / SYMBOL_LIMIT == codes[sym.value].len)
  {
    hide Lsb, Pow2, Word, Entry, NextSymbol;
    var e := lookup[peek];
    EntryMatches(codes, maxLen, peek, |codes|);
    PeekAgrees(bits, maxLen, peek);
    var padded := Lsb(peek, maxLen);
    var next := NextSymbol(codes, bits);
    if next.Some? {
      SymbolKnown(codes, bits);
      MatchPadded(codes[next.value], bits, padded, maxLen);
      if e != 0 {
        OnlyMatch(codes, padded, next.value, e % SYMBOL_LIMIT);
      }
    } else if e != 0 && e / SYMBOL_LIMIT <= |bits| {
      SymbolUnknown(codes, bits);
      MatchBits(codes[e % SYMBOL_LIMIT], bits, padded);
    }
  }

  lemma SymbolKnown(codes: seq<HuffCode>, bits: seq<bool>)
    requires NextSymbol(codes, bits).Some?
    ensures NextSymbol(codes, bits).value < |codes| && Matches(codes[NextSymbol(codes, bits).value], bits)
  {
  }

  lemma SymbolUnknown(codes: seq<HuffCode>, bits: seq<bool>)
    requires NextSymbol(codes, bits).None?
    ensures forall i :: 0 <= i < |codes| ==> !Matches(codes[i], bits)
  {
  }

  /** The peeked word is the bits themselves as far as they go. */
  lemma PeekAgrees(bits: seq<bool>, count: nat, peek: nat)
    requires peek == Peek(bits, count)
    ensures var n := if count < |bits| then count else |bits|; Lsb(peek, count)[..n] == bits[..n]
  {
    hide Lsb, Value;
    var n := if count < |bits| then count else |bits|;
    LsbOfValue(bits[..n]);
    LsbSplit(peek, 0, n, count - n);
    assert peek + 0 * Pow2(n) == peek;
  }

  lemma MatchPadded(c: HuffCode, bits: seq<bool>, padded: seq<bool>, count: nat)
    requires Matches(c, bits) && c.len <= count == |padded|
    requires var n := if count < |bits| then count else |bits|; padded[..n] == bits[..n]
    ensures Matches(c, padded) && c.len <= |bits|
  {
    var n := if count < |bits| then count else |bits|;
    assert Word(c) == bits[..n][..c.len];
    assert padded[..c.len] == padded[..n][..c.len];
  }

  lemma MatchBits(c: HuffCode, bits: seq<bool>, padded: seq<bool>)
    requires Matches(c, padded) && c.len <= |bits|
    requires var n := if |padded| < |bits| then |padded| else |bits|; padded[..n] == bits[..n]
    ensures Matches(c, bits)
  {
    var n := if |padded| < |bits| then |padded| else |bits|;
    assert Word(c) == padded[..n][..c.len];
    assert bits[..c.len] == bits[..n][..c.len];
  }
}
