/** The range coder over unbounded integers.

    The encoder narrows an interval [low, low + range) that is kept exactly:
    every renormalisation multiplies both ends by 256 and nothing is ever
    dropped. `settled` counts the bytes of `low` above its 32-bit window.
    The decoder keeps only a 32-bit offset `code` into the interval.  This is
    the reference the machine-word coder of module RangeCoder is proved against. */
module RangeCoding {
  import opened Arithmetic
  import opened Bytes

  const TOP: nat := 0x100_0000
  const RANGE_INIT: nat := 0xFFFF_FFFF
  const PROB_TOTAL: nat := 2048
  const PROB_INIT: nat := 1024

  /** Adaptive probabilities never leave this range once they start at PROB_INIT. */
  type Prob = p: int | 31 <= p <= 2017 witness PROB_INIT

  function Adapt(p: Prob, bit: bool): Prob {
    if bit then p - p / 32 else p + (PROB_TOTAL - p) / 32
  }

  datatype Interval = Interval(low: nat, range: nat, settled: nat)

  const START := Interval(0, RANGE_INIT, 1)

  /** One coding decision with everything the coder needs to size its slice. */
  datatype Decision =
    | Bit(prob: Prob, bit: bool)
    | Direct(bit: bool)
    | Freq(cum: nat, freq: nat, total: nat)

  predicate Codable(d: Decision) {
    d.Freq? ==> 0 < d.freq && d.cum + d.freq <= d.total <= TOP
  }

  function Bound(range: nat, prob: nat): nat {
    range / PROB_TOTAL * prob
  }

  /** Lower end and size of the slice of [0, range) that stands for `d`. */
  function SliceOff(range: nat, d: Decision): nat {
    match d
    case Bit(p, b) => if b then Bound(range, p) else 0
    case Direct(b) => if b then range / 2 else 0
    case Freq(c, f, t) => if t == 0 then 0 else c * (range / t)
  }

  function SliceSize(range: nat, d: Decision): int {
    match d
    case Bit(p, b) => if b then range - Bound(range, p) else Bound(range, p)
    case Direct(b) => range / 2
    case Freq(c, f, t) =>
      if t == 0 then 0
      else if c + f == t then range - range / t * c else range / t * f
  }

  /** A slice is never empty and never leaves the interval; one made by a bit
      needs at most one renormalisation shift. */
  lemma SliceFits(range: nat, d: Decision)
    requires TOP <= range < WORD && Codable(d)
    ensures 0 < SliceSize(range, d)
    ensures SliceOff(range, d) + SliceSize(range, d) <= range
    ensures !d.Freq? ==> SliceSize(range, d) >= 0x1_0000
  {
    match d
    case Bit(p, _) => BitSplits(range / PROB_TOTAL, p, range);
    case Direct(_) =>
    case Freq(c, f, t) =>
      RatioPositive(range, t);
      FreqSplits(range / t, c, f, t, range);
  }

  /** The slices tile the interval in order: a clear bit below a set one, a symbol below those
      whose frequencies start where its own end, and the last one up to the end. */
  lemma SlicesTile(range: nat, p: Prob, cum: nat, freq: nat, more: nat, total: nat)
    requires TOP <= range < WORD && cum + freq <= total && 0 < total <= TOP
    ensures SliceOff(range, Bit(p, false)) == 0
    ensures SliceOff(range, Bit(p, true)) == SliceSize(range, Bit(p, false))
    ensures SliceOff(range, Bit(p, true)) + SliceSize(range, Bit(p, true)) == range
    ensures SliceOff(range, Direct(false)) == 0 && SliceOff(range, Direct(true)) == SliceSize(range, Direct(false))
    ensures range - 1 <= SliceOff(range, Direct(true)) + SliceSize(range, Direct(true)) <= range
    ensures SliceOff(range, Freq(0, freq, total)) == 0
    ensures cum + freq < total ==>
      SliceOff(range, Freq(cum + freq, more, total)) == SliceOff(range, Freq(cum, freq, total)) + SliceSize(range, Freq(cum, freq, total))
    ensures cum + freq == total ==> SliceOff(range, Freq(cum, freq, total)) + SliceSize(range, Freq(cum, freq, total)) == range
  {
    hide Bound;
    MulAdd(cum, freq, range / total);
  }

  /** A bit coded makes its own slice wider the next time it is coded at the same place, and the
      slice of the other bit narrower, until the probability stands at its end. */
  lemma AdaptWidens(range: nat, p: Prob, b: bool)
    requires TOP <= range < WORD
    ensures SliceSize(range, Bit(Adapt(p, b), b)) >= SliceSize(range, Bit(p, b))
    ensures SliceSize(range, Bit(Adapt(p, b), !b)) <= SliceSize(range, Bit(p, !b))
    ensures SliceSize(range, Bit(Adapt(p, b), b)) == SliceSize(range, Bit(p, b)) <==> p == (if b then 31 else 2017)
  {
    hide Bound;
    var q := Adapt(p, b);
    if q < p {
      BoundGrows(range, q, p);
    } else if p < q {
      BoundGrows(range, p, q);
    }
  }

  lemma BoundGrows(range: nat, p: nat, q: nat)
    requires TOP <= range && p < q
    ensures Bound(range, p) < Bound(range, q)
  {
    var r := range / PROB_TOTAL;
    assert r >= 8192;
    MulLe(r, r, p + 1, q);
    MulAdd(p, 1, r);
  }

  lemma BitSplits(r: nat, p: nat, range: nat)
    requires 8192 <= r && 31 <= p <= 2017 && r * PROB_TOTAL <= range
    ensures 0x1_0000 <= r * p <= range - 0x1_0000
  {
    MulLe(8192, r, 31, p);
    MulLe(r, r, p, 2017);
    MulLe(8192, r, 31, 31);
    assert r * 2017 + r * 31 == r * PROB_TOTAL;
  }

  lemma FreqSplits(r: nat, c: nat, f: nat, t: nat, range: nat)
    requires r > 0 && f > 0 && c + f <= t && r * t <= range
    ensures 0 < r * f && c * r == r * c && r * c + r * f <= range
  {
    MulLe(r, r, c + f, t);
    assert r * (c + f) == r * c + r * f;
    MulLe(1, r, 1, f);
  }

  function Renorm(iv: Interval): (r: Interval)
    requires 0 < iv.range
    decreases TOP - iv.range
  {
    if iv.range < TOP then Renorm(Interval(256 * iv.low, 256 * iv.range, iv.settled + 1)) else iv
  }

  /** A range of at least 2^16 needs at most one shift. */
  lemma RenormOnce(iv: Interval)
    requires 0x1_0000 <= iv.range
    ensures Renorm(iv) ==
            if iv.range < TOP then Interval(256 * iv.low, 256 * iv.range, iv.settled + 1) else iv
  {
    if iv.range < TOP {
      var iv' := Interval(256 * iv.low, 256 * iv.range, iv.settled + 1);
      assert Renorm(iv') == iv';
    }
  }

  function Narrow(iv: Interval, d: Decision): (slice: Interval)
    requires TOP <= iv.range < WORD && Codable(d)
    ensures 0 < slice.range <= iv.range && slice.low + slice.range <= iv.low + iv.range
  {
    SliceFits(iv.range, d);
    Interval(iv.low + SliceOff(iv.range, d), SliceSize(iv.range, d), iv.settled)
  }

  function Encode(iv: Interval, d: Decision): Interval
    requires TOP <= iv.range < WORD && Codable(d)
  {
    Renorm(Narrow(iv, d))
  }

  /** `inner` lies inside `outer` once both are scaled to the same number of bytes. */
  ghost predicate Inside(inner: Interval, outer: Interval) {
    && outer.settled <= inner.settled
    && outer.low * Pow256(inner.settled - outer.settled) <= inner.low
    && inner.low + inner.range <= (outer.low + outer.range) * Pow256(inner.settled - outer.settled)
  }

  lemma {:induction false} RenormInside(iv: Interval)
    requires 0 < iv.range < WORD
    ensures TOP <= Renorm(iv).range < WORD
    ensures Inside(Renorm(iv), iv)
    decreases TOP - iv.range
  {
    if iv.range < TOP {
      var next := Interval(256 * iv.low, 256 * iv.range, iv.settled + 1);
      RenormInside(next);
      assert Pow256(1) == 256 * Pow256(0);
      assert Inside(next, iv);
      InsideTransitive(Renorm(next), next, iv);
    } else {
      assert Pow256(0) == 1;
    }
  }

  lemma InsideTransitive(a: Interval, b: Interval, c: Interval)
    requires Inside(a, b) && Inside(b, c)
    ensures Inside(a, c)
  {
    var i, j := a.settled - b.settled, b.settled - c.settled;
    PowAdd(j, i);
    ScaleTwice(c.low, Pow256(j), Pow256(i), b.low, b.low);
    ScaleTwice(c.low + c.range, Pow256(j), Pow256(i), b.low + b.range, b.low + b.range);
  }

  lemma ScaleTwice(x: nat, q: nat, p: nat, y: nat, z: nat)
    ensures x * q <= y ==> x * (q * p) <= y * p
    ensures z <= x * q ==> z * p <= x * (q * p)
  {
    assert x * q * p == x * (q * p);
    if x * q <= y {
      MulLe(x * q, y, p, p);
    }
    if z <= x * q {
      MulLe(z, x * q, p, p);
    }
  }

  lemma EncodeInside(iv: Interval, d: Decision)
    requires TOP <= iv.range < WORD && Codable(d)
    ensures TOP <= Encode(iv, d).range < WORD
    ensures Inside(Encode(iv, d), iv)
  {
    SliceFits(iv.range, d);
    var slice := Interval(iv.low + SliceOff(iv.range, d), SliceSize(iv.range, d), iv.settled);
    RenormInside(slice);
    assert Pow256(0) == 1;
    assert Inside(slice, iv);
    InsideTransitive(Encode(iv, d), slice, iv);
  }

  predicate AllCodable(ds: seq<Decision>) {
    forall i :: 0 <= i < |ds| ==> Codable(ds[i])
  }

  function EncodeAll(iv: Interval, ds: seq<Decision>): (r: Interval)
    requires TOP <= iv.range < WORD && AllCodable(ds)
    ensures TOP <= r.range < WORD
    decreases |ds|
  {
    if ds == [] then iv
    else EncodeInside(iv, ds[0]); EncodeAll(Encode(iv, ds[0]), ds[1..])
  }

  lemma {:induction false} EncodeAllInside(iv: Interval, ds: seq<Decision>)
    requires TOP <= iv.range < WORD && AllCodable(ds)
    ensures Inside(EncodeAll(iv, ds), iv)
    decreases |ds|
  {
    if ds == [] {
      assert Pow256(0) == 1;
    } else {
      EncodeInside(iv, ds[0]);
      EncodeAllInside(Encode(iv, ds[0]), ds[1..]);
      InsideTransitive(EncodeAll(iv, ds), Encode(iv, ds[0]), iv);
    }
  }

  lemma {:induction false} EncodeAllSnoc(iv: Interval, ds: seq<Decision>, d: Decision)
    requires TOP <= iv.range < WORD && AllCodable(ds) && Codable(d)
    ensures AllCodable(ds + [d])
    ensures EncodeAll(iv, ds + [d]) == Encode(EncodeAll(iv, ds), d)
    decreases |ds|
  {
    if ds == [] {
      assert ds + [d] == [d];
      EncodeInside(iv, d);
      assert EncodeAll(Encode(iv, d), []) == Encode(iv, d);
    } else {
      EncodeInside(iv, ds[0]);
      EncodeAllSnoc(Encode(iv, ds[0]), ds[1..], d);
      assert (ds + [d])[1..] == ds[1..] + [d];
    }
  }

  lemma {:induction false} EncodeAllConcat(iv: Interval, a: seq<Decision>, b: seq<Decision>)
    requires TOP <= iv.range < WORD && AllCodable(a) && AllCodable(b)
    ensures AllCodable(a + b) && EncodeAll(iv, a + b) == EncodeAll(EncodeAll(iv, a), b)
    decreases |a|
  {
    hide Encode;
    if a == [] {
      assert a + b == b;
    } else {
      EncodeInside(iv, a[0]);
      EncodeAllConcat(Encode(iv, a[0]), a[1..], b);
      assert (a + b)[1..] == a[1..] + b;
    }
  }

  lemma StreamSnoc(ds: seq<Decision>, d: Decision, iv: Interval)
    requires AllCodable(ds) && iv == EncodeAll(START, ds) && Codable(d)
    ensures AllCodable(ds + [d]) && Encode(iv, d) == EncodeAll(START, ds + [d])
  {
    EncodeAllSnoc(START, ds, d);
  }

  /** `s` is what a finished encoder must emit for the decisions `ds`: the exact
      lower end of the final interval, four bytes of window included. */
  ghost predicate IsStream(s: seq<byte>, ds: seq<Decision>)
    requires AllCodable(ds)
  {
    var f := EncodeAll(START, ds);
    |s| == f.settled + 4 && Val(s) == f.low
  }

  /** Decoder state; the input reads as zero past its end. */
  datatype Reader = Reader(range: nat, code: nat, input: seq<byte>, pos: nat)

  function ByteAt(s: seq<byte>, i: nat): byte {
    if i < |s| then s[i] else 0
  }

  /** The program panics on fewer than five bytes; byte 0 is discarded. */
  function Open(input: seq<byte>): (r: Reader)
    requires |input| >= 5
    ensures Live(r)
  {
    ValBound(input[1..5]);
    assert Pow256(4) == WORD;
    Reader(RANGE_INIT, Val(input[1..5]), input, 5)
  }

  /** The program does not move past the end. */
  function NextPos(r: Reader): nat {
    if r.pos < |r.input| then r.pos + 1 else r.pos
  }

  function Refill(r: Reader): Reader
    requires 0 < r.range
    decreases TOP - r.range
  {
    if r.range < TOP
    then Refill(Reader(256 * r.range, (256 * r.code + ByteAt(r.input, r.pos)) % WORD, r.input, NextPos(r)))
    else r
  }

  /** A range of at least 2^16 needs at most one byte. */
  lemma RefillOnce(r: Reader)
    requires 0x1_0000 <= r.range
    ensures Refill(r) ==
            if r.range < TOP
            then Reader(256 * r.range, (256 * r.code + ByteAt(r.input, r.pos)) % WORD, r.input, NextPos(r))
            else r
  {
    if r.range < TOP {
      var r' := Reader(256 * r.range, (256 * r.code + ByteAt(r.input, r.pos)) % WORD, r.input, NextPos(r));
      assert Refill(r') == r';
    }
  }

  /** Keep the slice `off`, `size` of the current range. */
  function Take(r: Reader, off: nat, size: nat): Reader
    requires 0 < size && off <= r.code
  {
    Refill(r.(range := size, code := r.code - off))
  }

  /** `r` is where a decoder stands when the encoder that wrote its input had
      reached `iv` and still had `ds` to code. */
  ghost predicate SyncAt(r: Reader, iv: Interval, ds: seq<Decision>) {
    && AllCodable(ds)
    && TOP <= iv.range < WORD
    && r.range == iv.range
    && r.pos == iv.settled + 4
    && var f := EncodeAll(iv, ds);
    && |r.input| == f.settled + 4
    && r.pos <= |r.input|
    && Val(r.input) == f.low
    && r.code == Val(r.input[..r.pos]) - iv.low
  }

  /** Lower ends survive scaling: the first `k` bytes of a string inside a scaled
      interval lie inside the unscaled one. */
  lemma PrefixInside(s: seq<byte>, k: nat, lo: nat, hi: nat)
    requires k <= |s|
    requires lo * Pow256(|s| - k) <= Val(s) < hi * Pow256(|s| - k)
    ensures lo <= Val(s[..k]) < hi
  {
    var a, b := s[..k], s[k..];
    assert s == a + b;
    ValConcat(a, b);
    ValBound(b);
    DigitBetween(Val(a), Val(b), Pow256(|b|), lo, hi);
  }

  lemma DigitBetween(a: nat, b: nat, p: nat, lo: nat, hi: nat)
    requires b < p
    requires lo * p <= a * p + b < hi * p
    ensures lo <= a < hi
  {
    assert (a + 1) * p == a * p + p;
    if a < lo {
      MulLe(a + 1, lo, p, p);
    }
    if hi <= a {
      MulLe(hi, a, p, p);
    }
  }

  /** The invariant that makes decoding work: code = value - low lies in the range. */
  lemma CodeInRange(r: Reader, iv: Interval, ds: seq<Decision>)
    requires SyncAt(r, iv, ds)
    ensures 0 <= r.code < r.range
  {
    var f := EncodeAll(iv, ds);
    EncodeAllInside(iv, ds);
    PrefixInside(r.input, r.pos, iv.low, iv.low + iv.range);
  }

  lemma PrefixGrows(s: seq<byte>, k: nat)
    requires k < |s|
    ensures Val(s[..k + 1]) == 256 * Val(s[..k]) + s[k]
  {
    assert s[..k + 1] == s[..k] + [s[k]];
    ValSnoc(s[..k], s[k]);
  }

  lemma NoWrap(code: nat, b: byte)
    requires code < TOP
    ensures (256 * code + b) % WORD == 256 * code + b
  {
  }

  lemma {:induction false} RefillSync(r: Reader, iv: Interval, f: Interval)
    requires 0 < r.range == iv.range < WORD
    requires r.pos == iv.settled + 4 <= |r.input|
    requires r.code == Val(r.input[..r.pos]) - iv.low
    requires r.code < r.range
    requires iv.settled < Renorm(iv).settled ==> r.pos < |r.input|
    requires f.settled >= Renorm(iv).settled && |r.input| == f.settled + 4
    ensures var r', iv' := Refill(r), Renorm(iv);
            r'.range == iv'.range && r'.input == r.input && r'.pos == iv'.settled + 4 <= |r.input|
            && r'.code == Val(r.input[..r'.pos]) - iv'.low
    decreases TOP - r.range
  {
    if r.range < TOP {
      var iv' := Interval(256 * iv.low, 256 * iv.range, iv.settled + 1);
      RenormInside(iv');
      PrefixGrows(r.input, r.pos);
      var b := r.input[r.pos];
      var r' := Reader(256 * r.range, 256 * r.code + b, r.input, r.pos + 1);
      NoWrap(r.code, b);
      assert Refill(r) == Refill(r') && Renorm(iv) == Renorm(iv');
      RefillSync(r', iv', f);
    }
  }

  /** One decoding step: the code falls in the slice of the decision that was
      coded, and taking that slice keeps decoder and encoder in step. */
  lemma SyncStep(r: Reader, iv: Interval, d: Decision, ds: seq<Decision>)
    requires SyncAt(r, iv, [d] + ds)
    ensures Codable(d) && TOP <= r.range < WORD
    ensures SliceSize(r.range, d) > 0
    ensures SliceOff(r.range, d) <= r.code < SliceOff(r.range, d) + SliceSize(r.range, d) <= r.range
    ensures SyncAt(Take(r, SliceOff(r.range, d), SliceSize(r.range, d)), Encode(iv, d), ds)
  {
    EncodeAllHead(iv, d, ds);
    SliceFits(r.range, d);
    var f := EncodeAll(Encode(iv, d), ds);
    var slice := Narrow(iv, d);
    SliceHoldsRest(iv, d, ds, f);
    PrefixInside(r.input, r.pos, slice.low, slice.low + slice.range);
    RefillSync(r.(range := slice.range, code := r.code - SliceOff(r.range, d)), slice, f);
  }

  lemma EncodeAllHead(iv: Interval, d: Decision, ds: seq<Decision>)
    requires TOP <= iv.range < WORD && AllCodable([d] + ds)
    ensures Codable(d) && AllCodable(ds)
    ensures TOP <= Encode(iv, d).range < WORD
    ensures EncodeAll(iv, [d] + ds) == EncodeAll(Encode(iv, d), ds)
  {
    var all := [d] + ds;
    assert all[0] == d && all[1..] == ds;
    forall i | 0 <= i < |ds| ensures Codable(ds[i]) {
      assert all[i + 1] == ds[i];
    }
    EncodeInside(iv, d);
  }

  lemma SliceHoldsRest(iv: Interval, d: Decision, ds: seq<Decision>, f: Interval)
    requires TOP <= iv.range < WORD && Codable(d) && AllCodable(ds)
    requires TOP <= Encode(iv, d).range < WORD
    requires f == EncodeAll(Encode(iv, d), ds)
    ensures SliceSize(iv.range, d) > 0
    ensures Inside(f, Interval(iv.low + SliceOff(iv.range, d), SliceSize(iv.range, d), iv.settled))
    ensures f.range > 0
    ensures f.settled >= Encode(iv, d).settled
  {
    SliceFits(iv.range, d);
    var slice := Interval(iv.low + SliceOff(iv.range, d), SliceSize(iv.range, d), iv.settled);
    RenormInside(slice);
    EncodeAllInside(Encode(iv, d), ds);
    InsideTransitive(f, Encode(iv, d), slice);
  }

  /** A freshly opened decoder is in step with a fresh encoder; in particular the
      first byte of every stream is zero, which is why it may be discarded. */
  lemma SyncOpen(s: seq<byte>, ds: seq<Decision>)
    requires AllCodable(ds) && IsStream(s, ds)
    ensures |s| >= 5 && s[0] == 0
    ensures SyncAt(Open(s), START, ds)
  {
    EncodeAllInside(START, ds);
    assert START.low * Pow256(|s| - 5) == 0;
    PrefixInside(s, 5, 0, RANGE_INIT);
    FirstByteZero(s[..5]);
    assert s[..5][1..] == s[1..5];
  }

  lemma FirstByteZero(a: seq<byte>)
    requires |a| == 5 && Val(a) < RANGE_INIT
    ensures a[0] == 0 && Val(a) == Val(a[1..])
  {
    hide Val, Pow256;
    var b := a[1..];
    assert a == [a[0]] + b;
    ValConcat([a[0]], b);
    OneByte(a[0]);
    ValBound(b);
    WholeWord();
    DigitBetween(a[0], Val(b), Pow256(4), 0, 1);
  }

  lemma OneByte(b: byte)
    ensures Val([b]) == b
  {
    ValSnoc([], b);
    assert [b] == [] + [b];
  }

  lemma WholeWord()
    ensures Pow256(4) == WORD
  {
  }

  ghost predicate Sync(r: Reader, ds: seq<Decision>) {
    exists iv :: SyncAt(r, iv, ds)
  }

  predicate Live(r: Reader) {
    TOP <= r.range < WORD && r.code < WORD
  }

  type LiveReader = r: Reader | Live(r) witness Reader(TOP, 0, [], 0)

  /** The three reading operations, on any reader (a corrupt stream may leave
      `code` at or above `range`, so nothing is assumed about it). */
  function ReadBit(r: LiveReader, prob: Prob): (bool, LiveReader) {
    SliceFits(r.range, Bit(prob, true));
    SliceFits(r.range, Bit(prob, false));
    var bound := Bound(r.range, prob);
    var bit := r.code >= bound;
    var r' := if bit then Take(r, bound, r.range - bound) else Take(r, 0, bound);
    RefillLive(if bit then r.(range := r.range - bound, code := r.code - bound) else r.(range := bound));
    (bit, r')
  }

  /** The program subtracts with wrap-around and looks at the sign bit. */
  function ReadDirect(r: LiveReader): (bool, LiveReader) {
    var h := r.range / 2;
    var x := (r.code + WORD - h) % WORD;
    var next := if x >= WORD / 2 then r.(range := h) else Reader(h, x, r.input, r.pos);
    RefillLive(next);
    (x < WORD / 2, Refill(next))
  }

  function ReadTarget(r: LiveReader, total: nat): (t: nat)
    requires 0 < total <= TOP
    ensures t < total
    ensures t * (r.range / total) <= r.code
  {
    RatioPositive(r.range, total);
    var u := r.range / total;
    var t := if r.code / u < total - 1 then r.code / u else total - 1;
    assert r.code == u * (r.code / u) + r.code % u;
    MulLe(t, r.code / u, u, u);
    t
  }

  function ReadFreq(r: LiveReader, cum: nat, freq: nat, total: nat): LiveReader
    requires Codable(Freq(cum, freq, total))
    requires cum * (r.range / total) <= r.code
  {
    var d := Freq(cum, freq, total);
    SliceFits(r.range, d);
    RefillLive(r.(range := SliceSize(r.range, d), code := r.code - SliceOff(r.range, d)));
    Take(r, SliceOff(r.range, d), SliceSize(r.range, d))
  }

  lemma {:induction false} RefillLive(r: Reader)
    requires 0 < r.range < WORD && r.code < WORD
    ensures Live(Refill(r))
    decreases TOP - r.range
  {
    if r.range < TOP {
      RefillLive(Reader(256 * r.range, (256 * r.code + ByteAt(r.input, r.pos)) % WORD, r.input, NextPos(r)));
    }
  }

  lemma SyncLive(r: Reader, ds: seq<Decision>)
    requires Sync(r, ds)
    ensures Live(r) && r.code < r.range && AllCodable(ds)
  {
    var iv :| SyncAt(r, iv, ds);
    CodeInRange(r, iv, ds);
  }

  /** Reading an adaptive bit returns the bit that was coded. */
  lemma ReadsBit(r: Reader, p: Prob, b: bool, ds: seq<Decision>)
    requires Sync(r, [Bit(p, b)] + ds)
    ensures Live(r)
    ensures ReadBit(r, p).0 == b && Sync(ReadBit(r, p).1, ds)
  {
    SyncLive(r, [Bit(p, b)] + ds);
    assert Codable(([Bit(p, b)] + ds)[0]);
    var iv :| SyncAt(r, iv, [Bit(p, b)] + ds);
    SyncStep(r, iv, Bit(p, b), ds);
  }

  /** On a code below the range the sign test is a comparison. */
  lemma HalfStep(r: Reader)
    requires Live(r) && r.code < r.range / 2 * 2 + 1
    ensures r.code < r.range / 2 ==> ReadDirect(r) == (false, Take(r, 0, r.range / 2))
    ensures r.range / 2 <= r.code < r.range / 2 * 2 ==> ReadDirect(r) == (true, Take(r, r.range / 2, r.range / 2))
  {
    var h := r.range / 2;
    if r.code < h {
      assert (r.code + WORD - h) % WORD == r.code + WORD - h;
    } else {
      assert (r.code + WORD - h) % WORD == r.code - h;
    }
  }

  /** Reading a direct bit returns the bit that was coded. */
  lemma ReadsDirect(r: Reader, b: bool, ds: seq<Decision>)
    requires Sync(r, [Direct(b)] + ds)
    ensures Live(r)
    ensures ReadDirect(r).0 == b && Sync(ReadDirect(r).1, ds)
  {
    SyncLive(r, [Direct(b)] + ds);
    var iv :| SyncAt(r, iv, [Direct(b)] + ds);
    SyncStep(r, iv, Direct(b), ds);
    HalfStep(r);
  }

  /** The target read for a frequency symbol lies in that symbol's own interval,
      and consuming the interval keeps decoder and encoder in step. */
  lemma ReadsFreq(r: Reader, cum: nat, freq: nat, total: nat, ds: seq<Decision>)
    requires Sync(r, [Freq(cum, freq, total)] + ds)
    ensures Live(r) && Codable(Freq(cum, freq, total))
    ensures cum <= ReadTarget(r, total) < cum + freq
    ensures cum * (r.range / total) <= r.code
    ensures Sync(ReadFreq(r, cum, freq, total), ds)
  {
    var d := Freq(cum, freq, total);
    SyncLive(r, [d] + ds);
    var iv :| SyncAt(r, iv, [d] + ds);
    SyncStep(r, iv, d, ds);
    RatioPositive(r.range, total);
    var u := r.range / total;
    TargetInside(r.code, u, cum, freq, total);
  }

  lemma TargetInside(code: nat, u: nat, cum: nat, freq: nat, total: nat)
    requires 0 < u && 0 < freq && cum + freq <= total
    requires cum * u <= code
    requires cum + freq < total ==> code < cum * u + u * freq
    ensures cum <= (if code / u < total - 1 then code / u else total - 1) < cum + freq
  {
    var q := code / u;
    assert code == u * q + code % u;
    assert (q + 1) * u == u * q + u;
    assert (cum + freq) * u == cum * u + u * freq;
    if q < cum {
      MulLe(q + 1, cum, u, u);
    }
    if cum + freq <= q && cum + freq < total {
      MulLe(cum + freq, q, u, u);
    }
  }

  /** Reading `r` decision by decision returns exactly `ds`: every bit comes back,
      and every frequency target falls in the interval that was coded. */
  ghost predicate Reads(r: Reader, ds: seq<Decision>)
    decreases |ds|
  {
    Live(r) &&
    (ds != [] ==>
       && Codable(ds[0])
       && match ds[0]
          case Bit(p, b) => ReadBit(r, p).0 == b && Reads(ReadBit(r, p).1, ds[1..])
          case Direct(b) => ReadDirect(r).0 == b && Reads(ReadDirect(r).1, ds[1..])
          case Freq(c, f, t) =>
            && c <= ReadTarget(r, t) < c + f
            && c * (r.range / t) <= r.code
            && Reads(ReadFreq(r, c, f, t), ds[1..]))
  }

  lemma {:induction false} SyncReads(r: Reader, ds: seq<Decision>)
    requires Sync(r, ds)
    ensures Reads(r, ds)
    decreases |ds|
  {
    SyncLive(r, ds);
    if ds != [] {
      var rest := ds[1..];
      assert ds == [ds[0]] + rest;
      match ds[0]
      case Bit(p, b) =>
        ReadsBit(r, p, b, rest);
        SyncReads(ReadBit(r, p).1, rest);
      case Direct(b) =>
        ReadsDirect(r, b, rest);
        SyncReads(ReadDirect(r).1, rest);
      case Freq(c, f, t) =>
        ReadsFreq(r, c, f, t, rest);
        SyncReads(ReadFreq(r, c, f, t), rest);
    }
  }

  /** The coder loses nothing: whatever was coded, in whatever order the three
      kinds of decision were mixed, is what a decoder of the finished stream reads. */
  lemma RangeCoderRoundTrip(stream: seq<byte>, ds: seq<Decision>)
    requires AllCodable(ds) && IsStream(stream, ds)
    ensures |stream| >= 5 && stream[0] == 0
    ensures Reads(Open(stream), ds)
  {
    SyncOpen(stream, ds);
    SyncReads(Open(stream), ds);
  }
}
