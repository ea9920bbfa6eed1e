/** Bits in and out of bytes, high bit first, with Elias-gamma and Rice codes. */
module MsbStream {
  import opened Arithmetic
  import opened Bytes
  import opened BitStrings
  import opened BitWords
  import opened Sequences

  // ------------------------------------------------------------ numbers as bits, high bit first

  function FromMsb(s: seq<bool>): (v: nat)
    ensures v < Pow2(|s|)
  {
    if s == [] then 0 else 2 * FromMsb(s[..|s| - 1]) + (if s[|s| - 1] then 1 else 0)
  }

  lemma {:induction false} FromMsbOf(v: nat, n: nat)
    requires v < Pow2(n)
    ensures FromMsb(Msb(v, n)) == v
    decreases n
  {
    if n > 0 {
      FromMsbOf(v / 2, n - 1);
      assert Msb(v, n)[..n - 1] == Msb(v / 2, n - 1);
    }
  }

  lemma {:induction false} MsbOfFrom(s: seq<bool>)
    ensures Msb(FromMsb(s), |s|) == s
  {
    if s != [] {
      MsbOfFrom(s[..|s| - 1]);
      assert s == s[..|s| - 1] + [s[|s| - 1]];
    }
  }

  lemma {:induction false} FromMsbConcat(a: seq<bool>, b: seq<bool>)
    ensures FromMsb(a + b) == FromMsb(a) * Pow2(|b|) + FromMsb(b)
  {
    if b == [] {
      assert a + b == a;
    } else {
      var n := |b| - 1;
      var bit := if b[n] then 1 else 0;
      assert (a + b)[..|a + b| - 1] == a + b[..n];
      FromMsbConcat(a, b[..n]);
      assert FromMsb(a + b) == 2 * FromMsb(a + b[..n]) + bit;
      JoinStep(FromMsb(a), Pow2(n), FromMsb(b[..n]), bit);
    }
  }

  lemma JoinStep(a: nat, p: nat, b: nat, bit: nat)
    ensures 2 * (a * p + b) + bit == a * (2 * p) + (2 * b + bit)
  {
    MulTwice(a, p);
  }

  /** The high `i` bits and the low `j` bits, by division. */
  lemma {:induction false} MsbSplit(v: nat, i: nat, j: nat)
    ensures v / Pow2(j) >= 0
    ensures Msb(v, i + j) == Msb(v / Pow2(j), i) + Msb(v, j)
    decreases j
  {
    if j == 0 {
      assert v / 1 == v;
    } else {
      MsbSplit(v / 2, i, j - 1);
      HalfQuotient(v, Pow2(j - 1));
    }
  }

  lemma HalfQuotient(v: nat, p: nat)
    requires p > 0
    ensures (v / 2) / p == v / (2 * p) >= 0
    ensures (v / 2) % p == (v % (2 * p)) / 2 && v % 2 == (v % (2 * p)) % 2
  {
    var q, r := (v / 2) / p, (v / 2) % p;
    assert v / 2 == p * q + r;
    MulAssoc(2, p, q);
    ModUnique(v, 2 * p, q, 2 * r + v % 2);
  }

  lemma {:induction false} MsbLow(v: nat, n: nat)
    ensures v % Pow2(n) >= 0
    ensures Msb(v % Pow2(n), n) == Msb(v, n)
    decreases n
  {
    if n > 0 {
      MsbLow(v / 2, n - 1);
      HalfQuotient(v, Pow2(n - 1));
    }
  }

  lemma MsbJoin(a: nat, k: nat, v: nat, n: nat)
    requires a < Pow2(k) && v < Pow2(n)
    ensures a * Pow2(n) + v < Pow2(k + n)
    ensures Msb(a * Pow2(n) + v, k + n) == Msb(a, k) + Msb(v, n)
  {
    hide Msb, Pow2;
    var x := a * Pow2(n) + v;
    ModUnique(x, Pow2(n), a, v);
    MsbSplit(x, k, n);
    MsbLow(x, n);
    Pow2Add(k, n);
    MulLe(a + 1, Pow2(k), Pow2(n), Pow2(n));
    MulAdd(a, 1, Pow2(n));
  }

  function BytesBits(s: seq<byte>): (b: seq<bool>)
    ensures |b| == 8 * |s|
  {
    if s == [] then [] else BytesBits(s[..|s| - 1]) + Msb(s[|s| - 1], 8)
  }

  lemma BytesBitsSnoc(s: seq<byte>, b: byte)
    ensures BytesBits(s + [b]) == BytesBits(s) + Msb(b, 8)
  {
    assert (s + [b])[..|s|] == s;
  }

  lemma {:induction false} BytesBitsAt(s: seq<byte>, k: nat)
    requires k < |s|
    ensures BytesBits(s)[8 * k..8 * k + 8] == Msb(s[k], 8)
  {
    hide Msb;
    var n := |s| - 1;
    if k < n {
      BytesBitsAt(s[..n], k);
    }
  }

  // ------------------------------------------------------------ what is written

  /** The number of bits up to the leading 1. */
  function BitLength(v: nat): (n: nat)
    ensures v > 0 ==> n > 0 && Pow2(n - 1) <= v < Pow2(n)
  {
    if v == 0 then 0 else BitLength(v / 2) + 1
  }

  function Zeros(n: nat): (s: seq<bool>)
    ensures |s| == n && forall k :: 0 <= k < n ==> !s[k]
  {
    if n == 0 then [] else [false] + Zeros(n - 1)
  }

  function Units(n: nat): (s: seq<bool>)
    ensures |s| == n && forall k :: 0 <= k < n ==> s[k]
  {
    if n == 0 then [] else [true] + Units(n - 1)
  }

  function Gamma(v: nat): (s: seq<bool>)
    requires v >= 1
    ensures |s| == 2 * BitLength(v) - 1
  {
    Zeros(BitLength(v) - 1) + Msb(v, BitLength(v))
  }

  function Rice(v: nat, k: nat): seq<bool> {
    Units(Shr(v, k)) + [false] + Msb(v, k)
  }

  // ------------------------------------------------------------ what is read

  function TakeNat(s: seq<bool>, n: nat): Option<(nat, seq<bool>)> {
    if n > |s| then None else Some((FromMsb(s[..n]), s[n..]))
  }

  function TakeGamma(s: seq<bool>, zeros: nat): (r: Option<(nat, seq<bool>)>)
    ensures r.Some? ==> r.value.0 >= 1
    decreases |s|
  {
    if s == [] then None
    else if s[0] then
      match TakeNat(s[1..], zeros)
      case None => None
      case Some((v, rest)) => Some((Pow2(zeros) + v, rest))
    else if zeros + 1 > 63 then None
    else TakeGamma(s[1..], zeros + 1)
  }

  function TakeRice(s: seq<bool>, q: nat, k: nat): Option<(nat, seq<bool>)>
    decreases |s|
  {
    if s == [] then None
    else if s[0] then TakeRice(s[1..], q + 1, k)
    else
      match TakeNat(s[1..], k)
      case None => None
      case Some((v, rest)) => Some((q * Pow2(k) + v, rest))
  }

  lemma TakeBack(v: nat, n: nat, tail: seq<bool>)
    requires v < Pow2(n)
    ensures TakeNat(Msb(v, n) + tail, n) == Some((v, tail))
  {
    hide Msb;
    FromMsbOf(v, n);
    assert (Msb(v, n) + tail)[..n] == Msb(v, n) && (Msb(v, n) + tail)[n..] == tail;
  }

  /** A gamma code below 2^64 reads back as the number written, whatever follows it. */
  lemma GammaBack(v: nat, tail: seq<bool>)
    requires 1 <= v < Pow2(64)
    ensures TakeGamma(Gamma(v) + tail, 0) == Some((v, tail))
  {
    hide Pow2, Msb, BitLength, Gamma, TakeGamma, TakeNat;
    var n := BitLength(v);
    LengthBound(v, 64);
    var low := v - Pow2(n - 1);
    GammaParts(v, tail);
    GammaFrom(n - 1, 0, [true] + (Msb(low, n - 1) + tail));
    TakeBack(low, n - 1, tail);
    GammaStops(Msb(low, n - 1) + tail, n - 1);
  }

  lemma GammaParts(v: nat, tail: seq<bool>)
    requires v >= 1
    ensures var n := BitLength(v);
      && 0 <= v - Pow2(n - 1) < Pow2(n - 1)
      && Gamma(v) + tail == Zeros(n - 1) + ([true] + (Msb(v - Pow2(n - 1), n - 1) + tail))
  {
    hide Pow2, Msb, BitLength, Zeros;
    var n := BitLength(v);
    MsbTop(v, n);
    var low := Msb(v - Pow2(n - 1), n - 1);
    assert Gamma(v) + tail == Zeros(n - 1) + (Msb(v, n) + tail);
    assert ([true] + low) + tail == [true] + (low + tail);
  }

  lemma GammaStops(s: seq<bool>, zeros: nat)
    ensures TakeGamma([true] + s, zeros) ==
      match TakeNat(s, zeros) case None => None case Some((v, rest)) => Some((Pow2(zeros) + v, rest))
  {
    assert ([true] + s)[1..] == s;
  }

  lemma {:induction false} GammaFrom(n: nat, zeros: nat, s: seq<bool>)
    requires zeros + n <= 63
    ensures TakeGamma(Zeros(n) + s, zeros) == TakeGamma(s, zeros + n)
    decreases n
  {
    if n == 0 {
      assert Zeros(n) + s == s;
    } else {
      assert Zeros(n) + s == [false] + (Zeros(n - 1) + s);
      assert (Zeros(n) + s)[1..] == Zeros(n - 1) + s;
      GammaFrom(n - 1, zeros + 1, s);
    }
  }

  lemma {:induction false} LengthBound(v: nat, n: nat)
    requires v < Pow2(n)
    ensures BitLength(v) <= n
    decreases n
  {
    if v > 0 {
      LengthBound(v / 2, n - 1);
    }
  }

  /** The leading bit of a number is its top power of two. */
  lemma {:induction false} MsbTop(v: nat, n: nat)
    requires n > 0 && Pow2(n - 1) <= v < Pow2(n)
    ensures Msb(v, n) == [true] + Msb(v - Pow2(n - 1), n - 1)
    ensures v - Pow2(n - 1) < Pow2(n - 1)
    decreases n
  {
    if n == 1 {
      assert Msb(v, 1) == Msb(v / 2, 0) + [v % 2 == 1];
    } else {
      MsbTop(v / 2, n - 1);
      var low := v - Pow2(n - 1);
      assert low / 2 == v / 2 - Pow2(n - 2) && low % 2 == v % 2;
      assert Msb(low, n - 1) == Msb(low / 2, n - 2) + [v % 2 == 1];
    }
  }

  lemma RiceBack(v: nat, k: nat, tail: seq<bool>)
    ensures TakeRice(Rice(v, k) + tail, 0, k) == Some((v, tail))
  {
    hide Msb;
    var q := Shr(v, k);
    assert Rice(v, k) + tail == Units(q) + ([false] + (Msb(v, k) + tail));
    RiceFrom(q, 0, k, [false] + (Msb(v, k) + tail));
    assert ([false] + (Msb(v, k) + tail))[1..] == Msb(v, k) + tail;
    ShrDivides(v, k);
    MsbLow(v, k);
    TakeBack(v % Pow2(k), k, tail);
  }

  lemma {:induction false} RiceFrom(n: nat, q: nat, k: nat, s: seq<bool>)
    ensures TakeRice(Units(n) + s, q, k) == TakeRice(s, q + n, k)
    decreases n
  {
    if n == 0 {
      assert Units(n) + s == s;
    } else {
      assert (Units(n) + s)[1..] == Units(n - 1) + s;
      RiceFrom(n - 1, q + 1, k, s);
    }
  }

  lemma {:induction false} ShrDivides(v: nat, k: nat)
    ensures Shr(v, k) * Pow2(k) + v % Pow2(k) == v
    ensures 0 <= v % Pow2(k) < Pow2(k) && Shr(v, k) == v / Pow2(k)
    decreases k
  {
    if k > 0 {
      ShrDivides(v / 2, k - 1);
      HalfQuotient(v, Pow2(k - 1));
      MulTwice(Shr(v, k), Pow2(k - 1));
    }
  }

  // ------------------------------------------------------------ the writer

  class BitWriter {
    var bytes: seq<byte>
    var acc: nat
    var nacc: nat

    ghost predicate Valid()
      reads this
    {
      nacc < 8 && acc < Pow2(nacc)
    }

    ghost function Written(): seq<bool>
      reads this
    {
      BytesBits(bytes) + Msb(acc, nacc)
    }

    constructor ()
      ensures Valid() && Written() == []
    {
      bytes, acc, nacc := [], 0, 0;
    }

    /** The low `n` bits of the value, at most 32 at a time. */
    method Put(value: nat, n: nat)
      requires Valid() && n <= 64
      modifies this
      ensures Valid() && Written() == old(Written()) + Msb(value, n)
      decreases n
    {
      hide Msb, BytesBits, Pow2;
      if n == 0 {
        NoBits(value);
        return;
      }
      if n > 32 {
        MsbSplit(value, n - 32, 32);
        MsbLow(value, 32);
        ghost var start := Written();
        Put(value / Pow2(32), n - 32);
        Put(value % Pow2(32), 32);
        assert (start + Msb(value / Pow2(32), n - 32)) + Msb(value, 32) == start + (Msb(value / Pow2(32), n - 32) + Msb(value, 32));
        return;
      }
      ghost var goal := Written() + Msb(value, n);
      MsbLow(value, n);
      MsbJoin(acc, nacc, value % Pow2(n), n);
      assert goal == BytesBits(bytes) + (Msb(acc, nacc) + Msb(value, n));
      acc := acc * Pow2(n) + value % Pow2(n);
      nacc := nacc + n;
      while nacc >= 8
        invariant BytesBits(bytes) + Msb(acc, nacc) == goal
        decreases nacc
      {
        nacc := nacc - 8;
        MsbSplit(acc, 8, nacc);
        MsbLow(acc / Pow2(nacc), 8);
        Pow8();
        BytesBitsSnoc(bytes, acc / Pow2(nacc) % 256);
        assert BytesBits(bytes) + (Msb(acc / Pow2(nacc), 8) + Msb(acc, nacc)) == (BytesBits(bytes) + Msb(acc / Pow2(nacc), 8)) + Msb(acc, nacc);
        bytes := bytes + [acc / Pow2(nacc) % 256];
      }
      MsbLow(acc, nacc);
      acc := acc % Pow2(nacc);
    }

    method PutBit(b: bool)
      requires Valid()
      modifies this
      ensures Valid() && Written() == old(Written()) + [b]
    {
      OneBit(b);
      Put(if b then 1 else 0, 1);
    }

    method PutGamma(v: nat)
      requires Valid() && 1 <= v < Pow2(64)
      modifies this
      ensures Valid() && Written() == old(Written()) + Gamma(v)
    {
      hide Msb, Zeros, BitLength, BytesBits, Pow2, Valid, Written;
      var n := BitLength(v);
      LengthBound(v, 64);
      ZeroBits(n - 1);
      ghost var start := Written();
      Put(0, n - 1);
      Put(v, n);
      assert (start + Zeros(n - 1)) + Msb(v, n) == start + Gamma(v);
    }

    method PutRice(v: nat, k: nat)
      requires Valid() && k <= 64
      modifies this
      ensures Valid() && Written() == old(Written()) + Rice(v, k)
    {
      hide Msb, Units, Shr, BytesBits, Pow2, Valid, Written;
      var q := Shr(v, k);
      ghost var start := Written();
      assert start + Units(Shr(v, k)) == start + Units(q);
      while q >= 32
        invariant Valid() && Written() + Units(q) == start + Units(Shr(v, k))
      {
        UnitsBits(32);
        UnitsJoin(32, q - 32);
        ghost var now := Written();
        Put(Pow2(32) - 1, 32);
        assert (now + Units(32)) + Units(q - 32) == now + (Units(32) + Units(q - 32));
        q := q - 32;
      }
      UnitsBits(q);
      Put(Pow2(q) - 1, q);
      PutBit(false);
      Put(v, k);
      assert start + Units(Shr(v, k)) + [false] + Msb(v, k) == start + Rice(v, k);
    }

    /** A bit vector in index order. */
    method PutBits(b: seq<bool>)
      requires Valid()
      modifies this
      ensures Valid() && Written() == old(Written()) + b
    {
      hide Valid, Written;
      ghost var start := Written();
      for i := 0 to |b|
        invariant Valid() && Written() == start + b[..i]
      {
        PutBit(b[i]);
        assert b[..i + 1] == b[..i] + [b[i]];
      }
      assert b[..|b|] == b;
    }

    method PutBytes(data: seq<byte>)
      requires Valid()
      modifies this
      ensures Valid() && Written() == old(Written()) + BytesBits(data)
    {
      hide Valid, Written, Msb, BytesBits;
      ghost var start := Written();
      NoBytes();
      for i := 0 to |data|
        invariant Valid() && Written() == start + BytesBits(data[..i])
      {
        Put(data[i] as nat, 8);
        BytesBitsSnoc(data[..i], data[i]);
        assert data[..i + 1] == data[..i] + [data[i]];
      }
      assert data[..|data|] == data;
    }

    /** Everything the other writer holds, to the bit. */
    method Append(other: BitWriter)
      requires Valid() && other.Valid() && other != this
      modifies this, other
      ensures Valid() && Written() == old(Written()) + old(other.Written())
    {
      hide Valid, Written, Msb, BytesBits, Pow2;
      ghost var start, all := Written(), other.Written();
      var bits := other.Bits();
      var out := other.Finish();
      assert start + all[..0] == start;
      for k := 0 to bits / 8
        invariant Valid() && Written() == start + all[..8 * k]
      {
        WholeByte(out, all, k);
        Put(out[k] as nat, 8);
        assert all[..8 * k] + all[8 * k..8 * k + 8] == all[..8 * k + 8];
      }
      if bits % 8 != 0 {
        PartByte(out, all, bits / 8, bits % 8);
        Put(out[bits / 8] as nat / Pow2(8 - bits % 8), bits % 8);
      }
      assert all[..8 * (bits / 8)] + all[8 * (bits / 8)..] == all;
    }

    method Bits() returns (n: nat)
      requires Valid()
      ensures n == |Written()|
    {
      n := 8 * |bytes| + nacc;
    }

    /** The last byte is filled with zeros. */
    method Finish() returns (out: seq<byte>)
      requires Valid()
      modifies this
      ensures old(Written()) <= BytesBits(out) && |BytesBits(out)| < |old(Written())| + 8
    {
      hide Msb, BytesBits, Pow2;
      ghost var written := Written();
      if nacc > 0 {
        MsbJoin(acc, nacc, 0, 8 - nacc);
        MsbLow(acc * Pow2(8 - nacc), 8);
        Pow8();
        PadFits(acc, nacc);
        BytesBitsSnoc(bytes, acc * Pow2(8 - nacc));
        assert BytesBits(bytes + [acc * Pow2(8 - nacc)]) == written + Msb(0, 8 - nacc);
        bytes := bytes + [acc * Pow2(8 - nacc)];
      } else {
        NoBits(acc);
      }
      out := bytes;
    }
  }

  lemma WholeByte(out: seq<byte>, all: seq<bool>, k: nat)
    requires all <= BytesBits(out) && 8 * k + 8 <= |all|
    ensures k < |out| && Msb(out[k], 8) == all[8 * k..8 * k + 8]
  {
    hide Msb, BytesBits;
    BytesBitsAt(out, k);
    SliceOfPrefix(all, BytesBits(out), 8 * k, 8 * k + 8);
  }

  lemma SliceOfPrefix(a: seq<bool>, b: seq<bool>, i: nat, j: nat)
    requires a <= b && i <= j <= |a|
    ensures a[i..j] == b[i..j]
  {
  }

  lemma PartByte(out: seq<byte>, all: seq<bool>, q: nat, rem: nat)
    requires all <= BytesBits(out) && |all| == 8 * q + rem && 0 < rem < 8
    ensures q < |out| && out[q] as nat / Pow2(8 - rem) >= 0
    ensures Msb(out[q] as nat / Pow2(8 - rem), rem) == all[8 * q..]
  {
    hide Msb, BytesBits, Pow2;
    BytesBitsAt(out, q);
    MsbSplit(out[q], rem, 8 - rem);
    var high := Msb(out[q] as nat / Pow2(8 - rem), rem);
    assert Msb(out[q], 8)[..rem] == high;
    SliceOfPrefix(all, BytesBits(out), 8 * q, 8 * q + rem);
    SliceOfSlice(BytesBits(out), 8 * q, 0, rem);
  }

  lemma Pow8()
    ensures Pow2(8) == 256
  {
  }

  lemma PadFits(acc: nat, nacc: nat)
    requires nacc <= 8 && acc < Pow2(nacc)
    ensures acc * Pow2(8 - nacc) < 256
  {
    Pow2Add(nacc, 8 - nacc);
    Pow8();
    MulLe(acc + 1, Pow2(nacc), Pow2(8 - nacc), Pow2(8 - nacc));
    MulAdd(acc, 1, Pow2(8 - nacc));
  }

  lemma NoBits(v: nat)
    ensures Msb(v, 0) == []
  {
  }

  lemma NoBytes()
    ensures BytesBits([]) == []
  {
  }

  lemma OneBit(b: bool)
    ensures Msb(if b then 1 else 0, 1) == [b]
  {
    assert Msb(if b then 1 else 0, 1) == Msb((if b then 1 else 0) / 2, 0) + [b];
  }

  lemma {:induction false} ZeroBits(n: nat)
    ensures Msb(0, n) == Zeros(n)
  {
    if n > 0 {
      ZeroBits(n - 1);
      assert Zeros(n - 1) + [false] == Zeros(n);
    }
  }

  lemma {:induction false} UnitsBits(n: nat)
    ensures Msb(Pow2(n) - 1, n) == Units(n)
  {
    if n > 0 {
      UnitsBits(n - 1);
      assert (Pow2(n) - 1) / 2 == Pow2(n - 1) - 1 && (Pow2(n) - 1) % 2 == 1;
      assert Units(n - 1) + [true] == Units(n);
    }
  }

  lemma UnitsJoin(i: nat, j: nat)
    ensures Units(i + j) == Units(i) + Units(j)
  {
  }

  // ------------------------------------------------------------ the reader

  class BitReader {
    const data: seq<byte>
    var pos: nat

    ghost predicate Valid()
      reads this
    {
      pos <= 8 * |data|
    }

    ghost function Rest(): seq<bool>
      requires Valid()
      reads this
    {
      BytesBits(data)[pos..]
    }

    constructor (bytes: seq<byte>)
      ensures Valid() && Rest() == BytesBits(bytes)
    {
      data, pos := bytes, 0;
    }

    method Remaining() returns (n: nat)
      requires Valid()
      ensures n == |Rest()|
    {
      n := 8 * |data| - pos;
    }

    /** A byte's worth at a time; a read past the end takes nothing. */
    method Get(n: nat) returns (v: Option<nat>)
      requires Valid()
      modifies this
      ensures Valid()
      ensures v.None? <==> TakeNat(old(Rest()), n).None?
      ensures v.None? ==> Rest() == old(Rest())
      ensures v.Some? ==> TakeNat(old(Rest()), n) == Some((v.value, Rest()))
    {
      hide Msb, BytesBits, FromMsb;
      if n > 8 * |data| - pos {
        return None;
      }
      var start := pos;
      var value, need := 0, n;
      EmptyValue();
      while need > 0
        invariant Valid() && 0 <= need <= n && pos == start + n - need <= 8 * |data|
        invariant value == FromMsb(BytesBits(data)[start..pos])
      {
        var b := data[pos / 8];
        var avail := 8 - pos % 8;
        var take := if avail < need then avail else need;
        ChunkBits(data, pos, take);
        var bits := b as nat / Pow2(avail - take) % Pow2(take);
        FromMsbConcat(BytesBits(data)[start..pos], BytesBits(data)[pos..pos + take]);
        assert BytesBits(data)[start..pos] + BytesBits(data)[pos..pos + take] == BytesBits(data)[start..pos + take];
        value := value * Pow2(take) + bits;
        pos := pos + take;
        need := need - take;
      }
      assert BytesBits(data)[start..][..n] == BytesBits(data)[start..start + n];
      assert BytesBits(data)[start..][n..] == BytesBits(data)[start + n..];
      return Some(value);
    }

    method GetBit() returns (b: Option<bool>)
      requires Valid()
      modifies this
      ensures Valid()
      ensures b.None? <==> old(Rest()) == []
      ensures b.None? ==> Rest() == old(Rest())
      ensures b.Some? ==> old(Rest()) == [b.value] + Rest()
    {
      ghost var was := Rest();
      var v := Get(1);
      if v.None? {
        return None;
      }
      FirstBit(was);
      return Some(v.value == 1);
    }

    method GetGamma() returns (v: Option<nat>)
      requires Valid()
      modifies this
      ensures Valid()
      ensures v.None? <==> TakeGamma(old(Rest()), 0).None?
      ensures v.Some? ==> v.value >= 1 && TakeGamma(old(Rest()), 0) == Some((v.value, Rest()))
    {
      hide Rest, Valid, TakeNat, Pow2;
      ghost var goal := TakeGamma(Rest(), 0);
      var zeros := 0;
      while true
        invariant Valid() && TakeGamma(Rest(), zeros) == goal && zeros <= 63
        decreases 64 - zeros
      {
        ghost var was := Rest();
        var b := GetBit();
        if b.None? {
          return None;
        }
        assert was[1..] == Rest();
        if b.value {
          break;
        }
        zeros := zeros + 1;
        if zeros > 63 {
          return None;
        }
      }
      var low := Get(zeros);
      return if low.None? then None else Some(Pow2(zeros) + low.value);
    }

    method GetRice(k: nat) returns (v: Option<nat>)
      requires Valid()
      modifies this
      ensures Valid()
      ensures v.None? <==> TakeRice(old(Rest()), 0, k).None?
      ensures v.Some? ==> TakeRice(old(Rest()), 0, k) == Some((v.value, Rest()))
    {
      hide Rest, Valid, TakeNat, Pow2;
      ghost var goal := TakeRice(Rest(), 0, k);
      var q := 0;
      while true
        invariant Valid() && TakeRice(Rest(), q, k) == goal
        decreases |Rest()|
      {
        ghost var was := Rest();
        var b := GetBit();
        if b.None? {
          return None;
        }
        assert was[1..] == Rest();
        if !b.value {
          break;
        }
        q := q + 1;
      }
      var low := Get(k);
      return if low.None? then None else Some(q * Pow2(k) + low.value);
    }

    method GetBits(n: nat) returns (b: Option<seq<bool>>)
      requires Valid()
      modifies this
      ensures Valid()
      ensures b.None? <==> n > |old(Rest())|
      ensures b.Some? ==> |b.value| == n && old(Rest()) == b.value + Rest()
    {
      var left := Remaining();
      if n > left {
        return None;
      }
      hide Rest, Valid;
      ghost var was := Rest();
      var bits: seq<bool> := [];
      for i := 0 to n
        invariant Valid() && |bits| == i && was == bits + Rest()
      {
        ghost var now := Rest();
        var bit := GetBit();
        assert bits + ([bit.value] + Rest()) == (bits + [bit.value]) + Rest();
        bits := bits + [bit.value];
      }
      return Some(bits);
    }

    method GetBytes(n: nat) returns (b: Option<seq<byte>>)
      requires Valid()
      modifies this
      ensures Valid()
      ensures b.None? <==> 8 * n > |old(Rest())|
      ensures b.Some? ==> |b.value| == n && old(Rest()) == BytesBits(b.value) + Rest()
    {
      var left := Remaining();
      if 8 * n > left {
        return None;
      }
      hide Rest, Valid, BytesBits;
      ghost var was := Rest();
      var bytes: seq<byte> := [];
      NoBytes();
      for i := 0 to n
        invariant Valid() && |bytes| == i && was == BytesBits(bytes) + Rest()
      {
        ghost var now := Rest();
        var b := GetByte();
        BytesBitsSnoc(bytes, b);
        assert BytesBits(bytes) + (Msb(b, 8) + Rest()) == (BytesBits(bytes) + Msb(b, 8)) + Rest();
        bytes := bytes + [b];
      }
      return Some(bytes);
    }

    method GetByte() returns (b: byte)
      requires Valid() && |Rest()| >= 8
      modifies this
      ensures Valid() && old(Rest()) == Msb(b, 8) + Rest()
    {
      hide Rest, Valid, Msb, FromMsb;
      ghost var was := Rest();
      var v := Get(8);
      TakenByte(was, v.value);
      b := v.value;
    }
  }

  lemma EmptyValue()
    ensures FromMsb([]) == 0
  {
  }

  lemma FirstBit(s: seq<bool>)
    requires s != []
    ensures FromMsb(s[..1]) == (if s[0] then 1 else 0) && s == [s[0]] + s[1..]
  {
    assert s[..1][..0] == [];
  }

  lemma TakenByte(s: seq<bool>, v: nat)
    requires |s| >= 8 && v == FromMsb(s[..8])
    ensures v < 256 && s == Msb(v, 8) + s[8..]
  {
    Pow8();
    MsbOfFrom(s[..8]);
  }

  lemma SliceOfSlice(s: seq<bool>, at: nat, o: nat, take: nat)
    requires at + 8 <= |s| && o + take <= 8
    ensures s[at..at + 8][o..o + take] == s[at + o..at + o + take]
  {
    var t, u := s[at..at + 8], s[at + o..at + o + take];
    forall k | 0 <= k < take ensures t[o..o + take][k] == u[k] {
      assert t[o + k] == s[at + (o + k)];
      assert u[k] == s[at + o + k];
    }
    assert t[o..o + take] == u;
  }

  lemma Middle(a: seq<bool>, b: seq<bool>, c: seq<bool>)
    ensures (a + b + c)[|a|..|a| + |b|] == b
  {
  }

  /** A shift and a mask of one byte give the bits at a position. */
  lemma ChunkBits(data: seq<byte>, pos: nat, take: nat)
    requires pos < 8 * |data| && take <= 8 - pos % 8
    ensures var p := data[pos / 8] as nat / Pow2(8 - pos % 8 - take);
      p >= 0 && FromMsb(BytesBits(data)[pos..pos + take]) == p % Pow2(take)
  {
    hide Msb, BytesBits, FromMsb, Pow2;
    var k, o := pos / 8, pos % 8;
    var b: nat := data[k];
    var low := 8 - o - take;
    BytesBitsAt(data, k);
    MsbSplit(b, o + take, low);
    var x := b / Pow2(low);
    MsbSplit(x, o, take);
    MsbLow(x, take);
    var all := BytesBits(data);
    SliceOfSlice(all, 8 * k, o, take);
    Middle(Msb(x / Pow2(take), o), Msb(x, take), Msb(b, low));
    assert all[pos..pos + take] == Msb(x, take);
    FromMsbOf(x % Pow2(take), take);
  }
}
