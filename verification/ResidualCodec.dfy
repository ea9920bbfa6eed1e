/** The residual coders as they run: loops over a bit writer and a bit reader. */
module ResidualCodec {
  import opened Bytes
  import opened BitStrings
  import opened BitWords
  import opened Sequences
  import opened MsbStream
  import opened Binomials
  import opened BigNat
  import opened Enumerative
  import opened OrderZero
  import opened Residual
  import CarrylessCoder
  import Rans
  import BchResidual

  // ------------------------------------------------------------ runs and positions

  method RunsOf(e: seq<bool>) returns (runs: seq<nat>)
    ensures runs == Runs(e)
  {
    hide Lead, Runs;
    runs := [];
    NoRunsAtAll([]);
    if e == [] {
      return;
    }
    var start := 0;
    var value := e[0];
    assert e[0..] == e && runs + Runs(e) == Runs(e);
    while start < |e|
      invariant 0 <= start <= |e|
      invariant start < |e| ==> value == e[start]
      invariant runs + Runs(e[start..]) == Runs(e)
    {
      var end := NextDiff(e, start, value);
      RunsStep(e, start);
      assert runs + ([end - start] + Runs(e[end..])) == (runs + [end - start]) + Runs(e[end..]);
      runs := runs + [end - start];
      start := end;
      value := !value;
    }
    assert e[|e|..] == [];
    assert runs + [] == runs;
  }

  method NextDiff(e: seq<bool>, from: nat, value: bool) returns (at: nat)
    requires from < |e| && e[from] == value
    ensures at == from + Lead(e[from..], value) <= |e|
  {
    at := from;
    while at < |e| && e[at] == value
      invariant from <= at <= |e|
      invariant at + Lead(e[at..], value) == from + Lead(e[from..], value)
    {
      assert e[at..][1..] == e[at + 1..];
      at := at + 1;
    }
  }

  method EncodeRle(e: seq<bool>, w: BitWriter)
    requires w.Valid() && |e| <= MAX_BLOCK
    modifies w
    ensures w.Valid() && w.Written() == old(w.Written()) + RleBits(e)
  {
    hide Gamma, Runs, BitWriter.Valid, BitWriter.Written, BitLength, Pow2;
    var runs := RunsOf(e);
    ghost var start := w.Written();
    SmallFits(|runs| + 1);
    w.PutGamma(|runs| + 1);
    w.PutBit(e != [] && e[0]);
    var written := ButLast(runs);
    assert written[0..] == written;
    ghost var goal := start + RleBits(e);
    assert goal == start + Gamma(|runs| + 1) + [e != [] && e[0]] + Gammas(written);
    for k := 0 to |written|
      invariant w.Valid() && w.Written() + Gammas(written[k..]) == goal
    {
      assert written[k] in runs;
      SmallFits(written[k]);
      ghost var now := w.Written();
      w.PutGamma(written[k]);
      assert written[k..][1..] == written[k + 1..];
      assert now + (Gamma(written[k]) + Gammas(written[k + 1..])) == (now + Gamma(written[k])) + Gammas(written[k + 1..]);
    }
  }

  method DecodeRle(n: nat, r: BitReader) returns (e: Option<seq<bool>>)
    requires r.Valid()
    modifies r
    ensures r.Valid() && Agrees(e, r.Rest(), TakeRle(old(r.Rest()), n))
  {
    hide TakeGamma, BitReader.Valid, BitReader.Rest;
    var g := r.GetGamma();
    if g.None? {
      return None;
    }
    var first := r.GetBit();
    if first.None? {
      return None;
    }
    var value := first.value;
    var k := g.value - 1;
    var out := Same(false, n);
    var pos := 0;
    ghost var goal := TakeRuns(r.Rest(), k, n, [], value);
    for i := 0 to k
      invariant r.Valid() && 0 <= pos <= n && |out| == n
      invariant forall j :: pos <= j < n ==> !out[j]
      invariant TakeRuns(r.Rest(), k - i, n, out[..pos], value) == goal
    {
      ghost var before, filled := r.Rest(), out[..pos];
      var run: nat := n - pos;
      if i + 1 < k {
        var next := r.GetGamma();
        if next.None? {
          return None;
        }
        run := next.value;
      }
      if run == 0 || pos + run > n {
        return None;
      }
      if value {
        out := out[..pos] + Same(true, run) + out[pos + run..];
      }
      assert out[..pos + run] == filled + Same(value, run);
      pos := pos + run;
      value := !value;
    }
    assert out[..n] == out;
    e := if pos == n then Some(out) else None;
  }

  /** The reader did what the parse says: the same value, the same bits left. */
  ghost predicate Agrees(e: Option<seq<bool>>, rest: seq<bool>, taken: Taken) {
    if taken.None? then e.None? else e == Some(taken.value.0) && rest == taken.value.1
  }

  method EncodeSparse(e: seq<bool>, w: BitWriter)
    requires w.Valid() && |e| <= MAX_BLOCK
    modifies w
    ensures w.Valid() && w.Written() == old(w.Written()) + SparseBits(e)
  {
    hide Gamma, Ones, BitWriter.Valid, BitWriter.Written, BitLength, Pow2, Msb;
    var ones := OnesOf(e);
    WeightBound(e);
    SmallFits(|ones| + 1);
    ghost var start := w.Written();
    w.PutGamma(|ones| + 1);
    var width := FieldWidth(|e|);
    WidthBound(|e|);
    WriteList(ones, width, w);
    assert start + Gamma(|ones| + 1) + Fields(ones, width) == start + SparseBits(e);
  }

  lemma WidthBound(n: nat)
    requires n <= MAX_BLOCK
    ensures FieldWidth(n) <= 64
  {
    if n > 1 {
      SmallFits(n - 1);
      LengthBound(n - 1, 64);
    }
  }

  method DecodeSparse(n: nat, r: BitReader) returns (e: Option<seq<bool>>)
    requires r.Valid()
    modifies r
    ensures r.Valid() && Agrees(e, r.Rest(), TakeSparse(old(r.Rest()), n))
  {
    hide TakeGamma, TakeNat, BitReader.Valid, BitReader.Rest, FieldWidth;
    var g := r.GetGamma();
    if g.None? {
      return None;
    }
    var width := FieldWidth(n);
    var out := Same(false, n);
    ghost var ones: seq<nat> := [];
    var prev: Option<nat> := None;
    ghost var goal := TakeFields(r.Rest(), g.value - 1, width, n, []);
    assert Marked(n, []) == out;
    for i := 0 to g.value - 1
      invariant r.Valid() && out == Marked(n, ones)
      invariant prev == if ones == [] then None else Some(ones[|ones| - 1])
      invariant TakeFields(r.Rest(), g.value - 1 - i, width, n, ones) == goal
    {
      var p := r.Get(width);
      if p.None? || p.value >= n || (prev.Some? && p.value <= prev.value) {
        return None;
      }
      out := out[p.value := true];
      assert out == Marked(n, ones + [p.value]);
      ones := ones + [p.value];
      prev := p;
    }
    e := Some(out);
  }

  // ------------------------------------------------------------ gaps

  method RiceCostOf(ones: seq<nat>, k: nat) returns (bits: nat)
    requires Ascending(ones)
    ensures bits == GapCost(ones, 0, k)
  {
    hide Shr;
    bits := 0;
    var next := 0;
    assert ones[0..] == ones;
    for i := 0 to |ones|
      invariant next == if i == 0 then 0 else ones[i - 1] + 1
      invariant bits + GapCost(ones[i..], next, k) == GapCost(ones, 0, k)
    {
      assert ones[i..][1..] == ones[i + 1..];
      bits := bits + Shr(ones[i] - next, k) + 1 + k;
      next := ones[i] + 1;
    }
  }

  ghost predicate Ascending(ones: seq<nat>) {
    forall i, j :: 0 <= i < j < |ones| ==> ones[i] < ones[j]
  }

  method BestRiceK(ones: seq<nat>) returns (best: nat)
    requires Ascending(ones)
    ensures best == BestK(ones)
  {
    hide GapCost;
    best := 0;
    var least := RiceCostOf(ones, 0);
    for k := 1 to 16
      invariant best == BestBelow(ones, k) && least == GapCost(ones, 0, best)
    {
      var cost := RiceCostOf(ones, k);
      if cost < least {
        best, least := k, cost;
      }
    }
  }

  method EncodeRice(e: seq<bool>, w: BitWriter)
    requires w.Valid() && |e| <= MAX_BLOCK
    modifies w
    ensures w.Valid() && w.Written() == old(w.Written()) + RiceBits(e)
  {
    hide Gamma, Ones, BitWriter.Valid, BitWriter.Written, BitLength, Pow2, Msb, MsbStream.Rice, BestK;
    var ones := OnesOf(e);
    OnesAscend(e);
    WeightBound(e);
    SmallFits(|ones| + 1);
    ghost var start := w.Written();
    w.PutGamma(|ones| + 1);
    if |ones| == 0 {
      assert start + Gamma(1) + [] == start + Gamma(1);
      return;
    }
    var k := BestRiceK(ones);
    w.Put(k, RICE_K_BITS);
    WriteGaps(ones, k, w);
    assert start + Gamma(|ones| + 1) + Msb(k, RICE_K_BITS) + GapCodes(ones, 0, k) == start + RiceBits(e);
  }

  method WriteGaps(ones: seq<nat>, k: nat, w: BitWriter)
    requires w.Valid() && k <= 64 && Ascending(ones)
    modifies w
    ensures w.Valid() && w.Written() == old(w.Written()) + GapCodes(ones, 0, k)
  {
    hide BitWriter.Valid, BitWriter.Written, MsbStream.Rice;
    var next: nat := 0;
    assert ones[0..] == ones;
    ghost var goal := w.Written() + GapCodes(ones, 0, k);
    for i := 0 to |ones|
      invariant w.Valid() && next == if i == 0 then 0 else ones[i - 1] + 1
      invariant w.Written() + GapCodes(ones[i..], next, k) == goal
    {
      assert ones[i..][1..] == ones[i + 1..];
      assert i > 0 ==> ones[i - 1] < ones[i];
      ghost var now := w.Written();
      w.PutRice(ones[i] - next, k);
      ghost var later := GapCodes(ones[i + 1..], ones[i] + 1, k);
      assert now + (MsbStream.Rice(ones[i] - next, k) + later) == (now + MsbStream.Rice(ones[i] - next, k)) + later;
      next := ones[i] + 1;
    }
    assert w.Written() + [] == w.Written();
  }

  method DecodeRice(n: nat, r: BitReader) returns (e: Option<seq<bool>>)
    requires r.Valid()
    modifies r
    ensures r.Valid() && Agrees(e, r.Rest(), TakeRiceGaps(old(r.Rest()), n))
  {
    hide TakeGamma, TakeNat, TakeRice, BitReader.Valid, BitReader.Rest;
    var g := r.GetGamma();
    if g.None? {
      return None;
    }
    var out := Same(false, n);
    assert Marked(n, []) == out;
    if g.value == 1 {
      return Some(out);
    }
    var k := r.Get(RICE_K_BITS);
    if k.None? {
      return None;
    }
    var next: nat := 0;
    ghost var ones: seq<nat> := [];
    ghost var goal := TakeGaps(r.Rest(), g.value - 1, k.value, n, 0, []);
    for i := 0 to g.value - 1
      invariant r.Valid() && out == Marked(n, ones)
      invariant TakeGaps(r.Rest(), g.value - 1 - i, k.value, n, next, ones) == goal
    {
      var gap := r.GetRice(k.value);
      if gap.None? || next + gap.value >= n {
        return None;
      }
      out := out[next + gap.value := true];
      assert out == Marked(n, ones + [next + gap.value]);
      ones := ones + [next + gap.value];
      next := next + gap.value + 1;
    }
    e := Some(out);
  }

  // ------------------------------------------------------------ ranks

  method RankFieldOf(n: nat, t: nat) returns (width: nat)
    requires n < SIZE_LIMIT && t <= n
    ensures width == RankField(n, t)
  {
    hide C;
    width := RankWidth(n, t);
    AtLeastOne(n, t);
    WidthUnique(C(n, t) - 1, width);
  }

  lemma WidthUnique(v: nat, w: nat)
    requires v < Pow2(w) && (w > 0 ==> Pow2(w - 1) <= v)
    ensures BitLength(v) == w
  {
    LengthBound(v, w);
    if w > 0 && BitLength(v) < w {
      Pow2Grows(BitLength(v), w - 1);
    }
  }

  method EncodeEnum(e: seq<bool>, w: BitWriter)
    requires w.Valid() && |e| <= MAX_BLOCK
    modifies w
    ensures w.Valid() && w.Written() == old(w.Written()) + EnumBits(e)
  {
    hide Gamma, Ones, BitWriter.Valid, BitWriter.Written, BitLength, Pow2, Msb, C, RankField, RankOf, BitOf;
    var ones := OnesOf(e);
    WeightBound(e);
    SmallFits(|ones| + 1);
    ghost var start := w.Written();
    w.PutGamma(|ones| + 1);
    var width := RankFieldOf(|e|, |ones|);
    var rank := RankBits(e);
    ghost var v := rank.Num();
    ghost var mid := w.Written();
    NoBits(Shr(v, width));
    assert mid + [] == mid;
    for i := width downto 0
      invariant w.Valid() && rank.Valid() && rank.Num() == v
      invariant w.Written() == mid + Msb(Shr(v, i), width - i)
    {
      var bit := rank.Bit(i);
      HighBits(v, i, width - i - 1);
      assert mid + (Msb(Shr(v, i + 1), width - i - 1) + [BitOf(v, i)]) == (mid + Msb(Shr(v, i + 1), width - i - 1)) + [BitOf(v, i)];
      w.PutBit(bit);
    }
    assert start + Gamma(|ones| + 1) + Msb(v, width) == start + EnumBits(e);
  }

  lemma HighBits(v: nat, i: nat, n: nat)
    ensures Msb(Shr(v, i), n + 1) == Msb(Shr(v, i + 1), n) + [BitOf(v, i)]
  {
    ShrNext(v, i);
  }

  method FromBits(bits: seq<bool>) returns (v: Big)
    ensures fresh(v) && v.Valid() && v.Num() == FromMsb(bits)
  {
    v := new Big.Zero();
    EmptyValue();
    for i := 0 to |bits|
      invariant fresh(v) && v.Valid() && v.Num() == FromMsb(bits[..i])
    {
      v.MulSmall(2);
      assert bits[..i + 1][..i] == bits[..i];
      if bits[i] {
        var one := new Big.One();
        v.Add(one);
      }
    }
    assert bits[..|bits|] == bits;
  }

  method DecodeEnum(n: nat, r: BitReader) returns (e: Option<seq<bool>>)
    requires r.Valid() && n < SIZE_LIMIT
    modifies r
    ensures r.Valid() && Agrees(e, r.Rest(), TakeEnum(old(r.Rest()), n))
  {
    hide TakeGamma, BitReader.Valid, BitReader.Rest, RankField, Unranked, FromMsb, C;
    var g := r.GetGamma();
    if g.None? || g.value - 1 > n {
      return None;
    }
    var t := g.value - 1;
    var width := RankFieldOf(n, t);
    ghost var s := r.Rest();
    var bits := r.GetBits(width);
    if bits.None? {
      return None;
    }
    assert s[..width] == bits.value && s[width..] == r.Rest();
    var rank := FromBits(bits.value);
    e := Unrank(rank, n, t);
    UnrankedMatches(n, t, rank.Num(), e);
  }

  lemma UnrankedMatches(n: nat, t: nat, rank: nat, e: Option<seq<bool>>)
    requires e.Some? <==> rank < C(n, t)
    requires e.Some? ==> |e.value| == n && |Ones(e.value)| == t && RankOf(e.value) == rank
    ensures Unranked(n, t, rank) == e
  {
    hide C, Ones, RankOf;
    if e.Some? {
      UnrankedIs(e.value);
    } else {
      forall f ensures !HasRank(f, n, t, rank) {
        RankFits(f);
      }
    }
  }

  // ------------------------------------------------------------ adaptive arithmetic coding

  method ArithEncode(e: seq<bool>) returns (bytes: seq<byte>)
    ensures bytes == ArithBytes(e)
  {
    hide KtP1, CarrylessCoder.Put, CarrylessCoder.Finish;
    var enc := new CarrylessCoder.Encoder();
    var m := KT_START;
    ghost var goal := CarrylessCoder.PutAll(CarrylessCoder.START, KtChoices(KT_START, e));
    assert e[0..] == e;
    for i := 0 to |e|
      invariant enc.Valid()
      invariant CarrylessCoder.PutAll(enc.State(), KtChoices(m, e[i..])) == goal
    {
      ghost var cs := KtChoices(m, e[i..]);
      assert e[i..][1..] == e[i + 1..] && e[i..][0] == e[i];
      assert cs[0] == CarrylessCoder.Choice(e[i], KtP1(Counts(m))) && cs[1..] == KtChoices(Seen(m, e[i]), e[i + 1..]);
      enc.Encode(e[i], KtP1(Counts(m)));
      m := Seen(m, e[i]);
    }
    bytes := enc.Flush();
  }

  method ArithDecode(data: seq<byte>, n: nat) returns (e: seq<bool>)
    ensures e == KtRead(CarrylessCoder.Opened(data), KT_START, n)
  {
    hide KtP1, CarrylessCoder.NextBit, CarrylessCoder.AfterBit;
    var dec := new CarrylessCoder.Decoder(data);
    var m := KT_START;
    e := [];
    ghost var goal := KtRead(dec.State(), m, n);
    for i := 0 to n
      invariant dec.Valid() && e + KtRead(dec.State(), m, n - i) == goal
    {
      ghost var was := dec.State();
      var bit := dec.Decode(KtP1(Counts(m)));
      assert e + ([bit] + KtRead(dec.State(), Seen(m, bit), n - i - 1)) == (e + [bit]) + KtRead(dec.State(), Seen(m, bit), n - i - 1);
      e := e + [bit];
      m := Seen(m, bit);
    }
    assert e + [] == e;
  }

  method EncodeArith(e: seq<bool>, w: BitWriter)
    requires w.Valid() && |e| <= MAX_BLOCK
    modifies w
    ensures w.Valid() && w.Written() == old(w.Written()) + ArithBits(e)
  {
    hide Gamma, BitWriter.Valid, BitWriter.Written, BitLength, Pow2, BytesBits, ArithBytes;
    var bytes := ArithEncode(e);
    ArithSize(e);
    SmallFits(|bytes| + 1);
    ghost var start := w.Written();
    w.PutGamma(|bytes| + 1);
    w.PutBytes(bytes);
    assert start + Gamma(|bytes| + 1) + BytesBits(bytes) == start + ArithBits(e);
  }

  method DecodeArith(n: nat, r: BitReader) returns (e: Option<seq<bool>>)
    requires r.Valid()
    modifies r
    ensures r.Valid() && Agrees(e, r.Rest(), TakeArith(old(r.Rest()), n))
  {
    hide TakeGamma, BitReader.Valid, BitReader.Rest, KtRead, Packed, BytesBits;
    var g := r.GetGamma();
    if g.None? {
      return None;
    }
    var data := ReadBytes(r, g.value - 1);
    if data.None? {
      return None;
    }
    var bits := ArithDecode(data.value, n);
    e := Some(bits);
  }

  /** Whole bytes, as the parse packs them. */
  method ReadBytes(r: BitReader, n: nat) returns (b: Option<seq<byte>>)
    requires r.Valid()
    modifies r
    ensures r.Valid() && (b.None? <==> TakeBytes(old(r.Rest()), n).None?)
    ensures b.Some? ==> TakeBytes(old(r.Rest()), n) == Some((b.value, r.Rest())) && |b.value| == n
  {
    hide BitReader.Valid, BitReader.Rest, Packed, BytesBits;
    b := r.GetBytes(n);
    if b.Some? {
      TakeBytesBack(b.value, r.Rest());
    }
  }

  // ------------------------------------------------------------ static rANS

  method PackBits(e: seq<bool>) returns (bytes: seq<byte>)
    ensures bytes == Packed(e)
  {
    hide FromMsb, Pow2;
    Pow8();
    bytes := [];
    var pos := 0;
    assert e[0..] == e;
    while pos < |e|
      invariant 0 <= pos <= |e| && bytes + Packed(e[pos..]) == Packed(e)
      decreases |e| - pos
    {
      var rest := e[pos..];
      if |rest| < 8 {
        return bytes + [FromMsb(rest + MsbStream.Zeros(8 - |rest|))];
      }
      assert rest[8..] == e[pos + 8..];
      assert bytes + ([FromMsb(rest[..8]) as byte] + Packed(rest[8..])) == (bytes + [FromMsb(rest[..8]) as byte]) + Packed(rest[8..]);
      bytes := bytes + [FromMsb(rest[..8])];
      pos := pos + 8;
    }
    assert bytes + [] == bytes;
  }

  method EncodeRans(e: seq<bool>, w: BitWriter) returns (ghost s: seq<bool>)
    requires w.Valid() && 0 < |e| <= MAX_BLOCK
    modifies w
    ensures w.Valid() && w.Written() == old(w.Written()) + s && Codes(StaticRans, e, s)
  {
    hide Gamma, BitWriter.Valid, BitWriter.Written, BitLength, Pow2, Msb, BytesBits, Packed, Fields, NormalFor, CodedBytes, FreqsFor;
    var data := PackBits(e);
    PackedPrefix(e);
    var counts := CountBytes(data);
    var freqs, payload := OrderZero.EncodeBytes(data, counts);
    RansReads(e, freqs);
    SmallFits(|payload| + 1);
    ghost var start := w.Written();
    WriteList(freqs, FREQ_BITS, w);
    w.PutGamma(|payload| + 1);
    w.PutBytes(payload);
    s := RansBits(e, freqs);
    assert start + Fields(freqs, FREQ_BITS) + Gamma(|payload| + 1) + BytesBits(payload) == start + s;
  }

  method WriteList(list: seq<nat>, width: nat, w: BitWriter)
    requires w.Valid() && width <= 64
    modifies w
    ensures w.Valid() && w.Written() == old(w.Written()) + Fields(list, width)
  {
    hide BitWriter.Valid, BitWriter.Written, Msb;
    ghost var goal := w.Written() + Fields(list, width);
    assert list[0..] == list;
    for k := 0 to |list|
      invariant w.Valid() && w.Written() + Fields(list[k..], width) == goal
    {
      ghost var now := w.Written();
      w.Put(list[k], width);
      assert list[k..][1..] == list[k + 1..];
      assert now + (Msb(list[k], width) + Fields(list[k + 1..], width)) == (now + Msb(list[k], width)) + Fields(list[k + 1..], width);
    }
    assert w.Written() + [] == w.Written();
  }

  method ReadList(r: BitReader, count: nat, width: nat) returns (list: Option<seq<nat>>)
    requires r.Valid()
    modifies r
    ensures r.Valid() && (list.None? <==> TakeList(old(r.Rest()), count, width).None?)
    ensures list.Some? ==> TakeList(old(r.Rest()), count, width) == Some((list.value, r.Rest()))
  {
    hide BitReader.Valid, BitReader.Rest, TakeNat;
    ghost var goal := TakeList(r.Rest(), count, width);
    var read: seq<nat> := [];
    assert goal.Some? ==> read + goal.value.0 == goal.value.0;
    for i := 0 to count
      invariant r.Valid() && Listed(read, TakeList(r.Rest(), count - i, width)) == goal
    {
      ghost var rest := r.Rest();
      ghost var later := TakeList(rest, count - i, width);
      var v := r.Get(width);
      if v.None? {
        return None;
      }
      ghost var after := TakeList(r.Rest(), count - i - 1, width);
      if after.Some? {
        assert read + ([v.value] + after.value.0) == (read + [v.value]) + after.value.0;
      }
      read := read + [v.value];
    }
    assert read + [] == read;
    return Some(read);
  }

  ghost function Listed(done: seq<nat>, t: Option<(seq<nat>, seq<bool>)>): Option<(seq<nat>, seq<bool>)> {
    match t
    case None => None
    case Some((later, rest)) => Some((done + later, rest))
  }

  method DecodeRans(n: nat, r: BitReader) returns (e: Option<seq<bool>>)
    requires r.Valid()
    modifies r
    ensures r.Valid() && Agrees(e, r.Rest(), TakeRans(old(r.Rest()), n))
  {
    hide TakeGamma, BitReader.Valid, BitReader.Rest, TakeList, TakeBytes, BytesBits, RansDecoded, Rans.WellFormed;
    ghost var s := r.Rest();
    var freqs := ReadList(r, 256, FREQ_BITS);
    if freqs.None? {
      return None;
    }
    ListLength(s, 256, FREQ_BITS);
    var g := r.GetGamma();
    if g.None? {
      return None;
    }
    var data := ReadBytes(r, g.value - 1);
    if data.None? {
      return None;
    }
    var bytes := OrderZero.Decode(freqs.value, data.value, (n + 7) / 8);
    if bytes.None? {
      return None;
    }
    var bits := UnpackBits(bytes.value);
    e := Some(bits[..n]);
  }

  method UnpackBits(bytes: seq<byte>) returns (bits: seq<bool>)
    ensures bits == BytesBits(bytes)
  {
    hide Msb;
    bits := [];
    for k := 0 to |bytes|
      invariant bits == BytesBits(bytes[..k])
    {
      BytesBitsSnoc(bytes[..k], bytes[k]);
      assert bytes[..k + 1] == bytes[..k] + [bytes[k]];
      bits := bits + Msb(bytes[k], 8);
    }
    assert bytes[..|bytes|] == bytes;
  }

  // ------------------------------------------------------------ all of them

  /** Writes the residual; `s` is what was written. */
  method Encode(codec: Codec, e: seq<bool>, w: BitWriter) returns (ghost s: seq<bool>)
    requires w.Valid() && |e| <= MAX_BLOCK && Applies(codec, e)
    modifies w
    ensures w.Valid() && w.Written() == old(w.Written()) + s && Codes(codec, e, s)
  {
    hide BitWriter.Valid, BitWriter.Written, RleBits, SparseBits, RiceBits, EnumBits, ArithBits, Ones;
    hide BchResidual.BchBits, BchResidual.Light;
    match codec
    case Raw =>
      w.PutBits(e);
      s := e;
    case Rle =>
      EncodeRle(e, w);
      s := RleBits(e);
    case SparsePos =>
      EncodeSparse(e, w);
      s := SparseBits(e);
    case RiceGaps =>
      EncodeRice(e, w);
      s := RiceBits(e);
    case Enum =>
      EncodeEnum(e, w);
      s := EnumBits(e);
    case Bch =>
      var ones := OnesOf(e);
      s := BchResidual.EncodeBch(e, |ones|, w);
    case Arith =>
      EncodeArith(e, w);
      s := ArithBits(e);
    case StaticRans =>
      s := EncodeRans(e, w);
  }

  method Decode(codec: Codec, n: nat, r: BitReader) returns (e: Option<seq<bool>>)
    requires r.Valid() && n < SIZE_LIMIT
    modifies r
    ensures r.Valid() && Agrees(e, r.Rest(), Take(codec, old(r.Rest()), n))
  {
    hide BitReader.Valid, BitReader.Rest, TakeRle, TakeSparse, TakeRiceGaps, TakeEnum, TakeArith, TakeRans;
    hide BchResidual.TakeBch;
    match codec
    case Raw =>
      ghost var s := r.Rest();
      e := r.GetBits(n);
      assert e.Some? ==> s[..n] == e.value && s[n..] == r.Rest();
    case Rle => e := DecodeRle(n, r);
    case SparsePos => e := DecodeSparse(n, r);
    case RiceGaps => e := DecodeRice(n, r);
    case Enum => e := DecodeEnum(n, r);
    case Bch => e := BchResidual.DecodeBch(n, r);
    case Arith => e := DecodeArith(n, r);
    case StaticRans => e := DecodeRans(n, r);
  }
}
