/** The mask families: predictions of a block from the stream before it, and the
    causal reconstruction that undoes the difference in place. */
module Masks {
  import opened Bytes
  import opened BitStrings
  import opened BitWords
  import opened Sequences
  import opened MsbStream
  import opened BerlekampMassey

  /** Bytes bit by bit in order, or bit plane by bit plane. */
  datatype Repr = Linear | Planes

  function ByteStep(repr: Repr): nat {
    if repr.Linear? then 8 else 1
  }

  const FAMILY_BITS: nat := 4
  const INDEX_BITS: nat := 3
  const BM_MAX_BITS: nat := 8192

  function PatternLens(): (s: seq<nat>)
    ensures |s| == 6 && forall k :: 0 <= k < 6 ==> 2 <= s[k] <= 64
  {
    [2, 4, 8, 16, 32, 64]
  }

  function Strides(): (s: seq<nat>)
    ensures |s| == 7 && forall k :: 0 <= k < 7 ==> 1 <= s[k] <= 64
  {
    [1, 2, 4, 8, 16, 32, 64]
  }

  /** Maximal-length feedback polynomials x^a + x^b + 1. */
  function Polys(): (s: seq<(nat, nat)>)
    ensures |s| == 4 && forall k :: 0 <= k < 4 ==> 0 < s[k].1 < s[k].0 <= 31
  {
    [(7, 6), (15, 14), (23, 18), (31, 28)]
  }

  datatype Mask =
    | Zero
    | Pattern(len: nat, bits: nat)
    | Stride(idx: nat)
    | PrevBlock
    | Match(dist: nat)
    | AddDelta(idx: nat)
    | Lfsr(poly: nat, seed: nat)
    | BmLfsr(conn: seq<bool>, start: seq<bool>)
    | TwoStage(dist: nat, len: nat, bits: nat)

  /** What a description can hold; the extrapolation is for the linear layout only. */
  predicate Describable(m: Mask, repr: Repr) {
    match m
    case Pattern(len, bits) => len < 6 && bits < Pow2(PatternLens()[len])
    case Stride(idx) => idx < 7
    case Match(dist) => 1 <= dist < Pow2(64)
    case AddDelta(idx) => repr.Linear? && idx < 7
    case Lfsr(poly, seed) => poly < 4 && seed < Pow2(Polys()[poly].0)
    case BmLfsr(conn, start) => |conn| == |start| <= BM_MAX_BITS
    case TwoStage(dist, len, bits) => 1 <= dist < Pow2(64) && len < 6 && bits < Pow2(PatternLens()[len])
    case _ => true
  }

  // ------------------------------------------------------------ one bit, from the bits before it

  function PatternBit(len: nat, bits: nat, i: nat): bool
    requires len < 6
  {
    BitOf(bits, i % PatternLens()[len])
  }

  function LfsrBits(poly: nat, seed: nat, n: nat): (m: seq<bool>)
    requires poly < 4
    ensures |m| == n
  {
    if n == 0 then []
    else
      var m := LfsrBits(poly, seed, n - 1);
      var (a, b) := Polys()[poly];
      m + [if n - 1 < a then BitOf(seed, n - 1) else m[n - 1 - a] != m[n - 1 - a + b]]
  }

  ghost function BmBits(conn: seq<bool>, start: seq<bool>, n: nat): (m: seq<bool>)
    requires |conn| == |start|
    ensures |m| == n
  {
    if n == 0 then []
    else
      var m := BmBits(conn, start, n - 1);
      m + [if n - 1 < |conn| then start[n - 1] else Feedback(conn, m, n - 1, |conn|)]
  }

  /** A byte of the stream, its first bit highest. */
  function StreamByte(s: seq<bool>, b: nat): (v: nat)
    requires 8 * b + 8 <= |s|
    ensures v < 256
  {
    Pow8();
    FromMsb(s[8 * b..8 * b + 8])
  }

  function BackByte(s: seq<bool>, i: nat, back: nat): (v: nat)
    requires back >= 1 && 8 * i <= |s|
    ensures v < 256
  {
    if i >= back then StreamByte(s, i - back) else 0
  }

  /** 2 B[i - s] - B[i - 2s], bytes before the stream reading as zero. */
  function AddDeltaByte(s: seq<bool>, i: nat, stride: nat): (v: nat)
    requires stride >= 1 && 8 * i <= |s|
    ensures v < 256
  {
    (2 * BackByte(s, i, stride) - BackByte(s, i, 2 * stride)) % 256
  }

  /** How far back a copying mask looks. */
  function Distance(m: Mask, repr: Repr, blockBits: nat): nat
    requires m.Stride? ==> m.idx < 7
  {
    match m
    case Stride(idx) => Strides()[idx] * ByteStep(repr)
    case PrevBlock => blockBits
    case Match(dist) => dist
    case TwoStage(dist, _, _) => dist
    case _ => 0
  }

  predicate Copies(m: Mask) {
    m.Stride? || m.PrevBlock? || m.Match? || m.TwoStage?
  }

  predicate Defined(m: Mask) {
    match m
    case Pattern(len, _) => len < 6
    case Stride(idx) => idx < 7
    case AddDelta(idx) => idx < 7
    case Lfsr(poly, _) => poly < 4
    case BmLfsr(conn, start) => |conn| == |start|
    case TwoStage(_, len, _) => len < 6
    case _ => true
  }

  /** The bit `back` places before the end of what is known. */
  function Earlier(known: seq<bool>, back: nat): bool {
    if 1 <= back <= |known| then known[|known| - back] else false
  }

  /** Bit `i` of the mask, where `known` are the bits of the stream before it. */
  ghost function MaskBit(m: Mask, known: seq<bool>, i: nat, repr: Repr, blockBits: nat): bool
    requires Defined(m)
  {
    match m
    case Zero => false
    case Pattern(len, bits) => PatternBit(len, bits, i)
    case AddDelta(idx) => Msb(AddDeltaByte(known, |known| / 8, Strides()[idx]), 8)[|known| % 8]
    case Lfsr(poly, seed) => LfsrBits(poly, seed, i + 1)[i]
    case BmLfsr(conn, start) => BmBits(conn, start, i + 1)[i]
    case TwoStage(dist, len, bits) => Earlier(known, dist) != PatternBit(len, bits, i)
    case _ => Earlier(known, Distance(m, repr, blockBits))
  }

  /** The mask of the `n` bits at `off` of a stream already known in full. */
  ghost function Rendered(m: Mask, s: seq<bool>, off: nat, n: nat, repr: Repr, blockBits: nat): (r: seq<bool>)
    requires Defined(m) && off + n <= |s|
    ensures |r| == n && forall i :: 0 <= i < n ==> r[i] == MaskBit(m, s[..off + i], i, repr, blockBits)
  {
    seq(n, i requires 0 <= i < n => MaskBit(m, s[..off + i], i, repr, blockBits))
  }

  /** What is left of a block under a mask, inverted or not. */
  function Difference(x: seq<bool>, m: seq<bool>, complement: bool): (e: seq<bool>)
    requires |x| == |m|
    ensures |e| == |x| && forall i :: 0 <= i < |x| ==> e[i] == ((x[i] != m[i]) != complement)
  {
    seq(|x|, i requires 0 <= i < |x| => (x[i] != m[i]) != complement)
  }

  /** The stream rebuilt bit by bit, each from those before it. */
  ghost function Rebuilt(m: Mask, known: seq<bool>, off: nat, e: seq<bool>, complement: bool, repr: Repr, blockBits: nat): (s: seq<bool>)
    requires Defined(m) && off <= |known| <= off + |e|
    ensures |s| == off + |e| && s[..|known|] == known
    decreases off + |e| - |known|
  {
    if |known| == off + |e| then known
    else
      var i := |known| - off;
      var bit := (e[i] != MaskBit(m, known, i, repr, blockBits)) != complement;
      var s := Rebuilt(m, known + [bit], off, e, complement, repr, blockBits);
      assert s[..|known|] == s[..|known| + 1][..|known|];
      s
  }

  /** Causal reconstruction undoes the whole-stream difference, overlapping copies included. */
  lemma {:induction false} CausalIsRender(m: Mask, s: seq<bool>, off: nat, n: nat, i: nat, complement: bool, repr: Repr, blockBits: nat)
    requires Defined(m) && off + n <= |s| && i <= n
    ensures var e := Difference(s[off..off + n], Rendered(m, s, off, n, repr, blockBits), complement);
      Rebuilt(m, s[..off + i], off, e, complement, repr, blockBits) == s[..off + n]
    decreases n - i
  {
    hide MaskBit;
    if i < n {
      assert s[..off + i] + [s[off + i]] == s[..off + i + 1];
      CausalIsRender(m, s, off, n, i + 1, complement, repr, blockBits);
    }
  }

  /** The first `n` bits of the block are difference, mask and complement together. */
  ghost predicate Obeys(m: Mask, s: seq<bool>, off: nat, e: seq<bool>, n: nat, complement: bool, repr: Repr, blockBits: nat)
    requires Defined(m) && off + |e| <= |s| && n <= |e|
  {
    forall k :: 0 <= k < n ==> s[off + k] == ((e[k] != MaskBit(m, s[..off + k], k, repr, blockBits)) != complement)
  }

  lemma ObeysNext(m: Mask, s: seq<bool>, off: nat, e: seq<bool>, n: nat, v: bool, complement: bool, repr: Repr, blockBits: nat)
    requires Defined(m) && off + |e| <= |s| && n < |e| && Obeys(m, s, off, e, n, complement, repr, blockBits)
    requires v == ((e[n] != MaskBit(m, s[..off + n], n, repr, blockBits)) != complement)
    ensures Obeys(m, s[off + n := v], off, e, n + 1, complement, repr, blockBits)
  {
    hide MaskBit;
    var t := s[off + n := v];
    forall k | 0 <= k < n + 1 ensures t[off + k] == ((e[k] != MaskBit(m, t[..off + k], k, repr, blockBits)) != complement) {
      assert t[..off + k] == s[..off + k];
    }
  }

  /** A stream whose block obeys the difference bit by bit is the rebuilt one. */
  lemma {:induction false} RebuiltIs(m: Mask, s: seq<bool>, off: nat, e: seq<bool>, i: nat, complement: bool, repr: Repr, blockBits: nat)
    requires Defined(m) && off + |e| <= |s| && i <= |e|
    requires Obeys(m, s, off, e, |e|, complement, repr, blockBits)
    ensures Rebuilt(m, s[..off + i], off, e, complement, repr, blockBits) == s[..off + |e|]
    decreases |e| - i
  {
    hide MaskBit;
    if i < |e| {
      assert s[..off + i] + [s[off + i]] == s[..off + i + 1];
      assert s[off + i] == ((e[i] != MaskBit(m, s[..off + i], i, repr, blockBits)) != complement);
      RebuiltIs(m, s, off, e, i + 1, complement, repr, blockBits);
    }
  }

  // ------------------------------------------------------------ rendering

  method RenderPattern(n: nat, len: nat, bits: nat) returns (m: seq<bool>)
    requires len < 6
    ensures |m| == n && forall i :: 0 <= i < n ==> m[i] == PatternBit(len, bits, i)
  {
    m := seq(n, i requires 0 <= i < n => PatternBit(len, bits, i));
  }

  lemma {:induction false} LfsrPrefix(poly: nat, seed: nat, i: nat, n: nat)
    requires poly < 4 && i <= n
    ensures LfsrBits(poly, seed, n)[..i] == LfsrBits(poly, seed, i)
    decreases n
  {
    if i < n {
      LfsrPrefix(poly, seed, i, n - 1);
      assert LfsrBits(poly, seed, n)[..n - 1] == LfsrBits(poly, seed, n - 1);
      assert LfsrBits(poly, seed, n)[..n - 1][..i] == LfsrBits(poly, seed, n)[..i];
    }
  }

  method RenderLfsr(n: nat, poly: nat, seed: nat) returns (m: seq<bool>)
    requires poly < 4
    ensures m == LfsrBits(poly, seed, n)
  {
    hide Polys;
    m := [];
    var (a, b) := Polys()[poly];
    for k := 0 to n
      invariant m == LfsrBits(poly, seed, k)
    {
      var bit := if k < a then BitOf(seed, k) else m[k - a] != m[k - a + b];
      m := m + [bit];
    }
  }

  /** Bits that are the register's seed and then its feedback. */
  ghost predicate IsGenerated(conn: seq<bool>, start: seq<bool>, m: seq<bool>)
    requires |conn| == |start|
  {
    forall j :: 0 <= j < |m| ==> m[j] == if j < |conn| then start[j] else Feedback(conn, m, j, |conn|)
  }

  lemma {:induction false} GeneratedIs(conn: seq<bool>, start: seq<bool>, m: seq<bool>, k: nat)
    requires |conn| == |start| && k <= |m|
    requires IsGenerated(conn, start, m)
    ensures m[..k] == BmBits(conn, start, k)
  {
    hide Feedback;
    if k > 0 {
      GeneratedIs(conn, start, m, k - 1);
      var front := m[..k - 1];
      assert m[..k] == front + [m[k - 1]];
      if k - 1 >= |conn| {
        FeedbackLooksBack(conn, m, front, k - 1, |conn|);
      }
    }
  }

  /** The extrapolated byte over the input bytes is the one over their bits. */
  lemma BytesAreStream(data: seq<byte>, k: nat, b: nat)
    requires b < k <= |data|
    ensures 8 * b + 8 <= |BytesBits(data)[..8 * k]| && StreamByte(BytesBits(data)[..8 * k], b) == data[b]
  {
    hide Msb, FromMsb, BytesBits;
    BytesBitsAt(data, b);
    assert BytesBits(data)[..8 * k][8 * b..8 * b + 8] == BytesBits(data)[8 * b..8 * b + 8];
    Pow8();
    FromMsbOf(data[b], 8);
  }

  function DataByte(data: seq<byte>, i: nat, back: nat): nat
    requires i <= |data| && back >= 1
  {
    if i >= back then data[i - back] else 0
  }

  /** Only whole bytes before the one predicted are read. */
  lemma WholeBytes(s: seq<bool>, p: nat, i: nat, stride: nat)
    requires stride >= 1 && 8 * i <= p <= |s|
    ensures AddDeltaByte(s[..p], i, stride) == AddDeltaByte(s[..8 * i], i, stride)
  {
    hide FromMsb;
    SameBack(s, p, i, stride);
    SameBack(s, p, i, 2 * stride);
  }

  lemma SameBack(s: seq<bool>, p: nat, i: nat, back: nat)
    requires back >= 1 && 8 * i <= p <= |s|
    ensures BackByte(s[..p], i, back) == BackByte(s[..8 * i], i, back)
  {
    hide FromMsb;
    if i >= back {
      var b := i - back;
      var u, v := s[..p][8 * b..8 * b + 8], s[..8 * i][8 * b..8 * b + 8];
      forall k | 0 <= k < 8 ensures u[k] == v[k] {
        assert u[k] == s[8 * b + k] && v[k] == s[8 * b + k];
      }
      assert u == v;
    }
  }

  lemma DataIsStream(data: seq<byte>, p: nat, i: nat, stride: nat)
    requires stride >= 1 && i <= |data| && 8 * i <= p <= 8 * |data|
    ensures AddDeltaByte(BytesBits(data)[..p], i, stride) == (2 * DataByte(data, i, stride) - DataByte(data, i, 2 * stride)) % 256
  {
    hide BytesBits, StreamByte;
    WholeBytes(BytesBits(data), p, i, stride);
    if i >= stride {
      BytesAreStream(data, i, i - stride);
    }
    if i >= 2 * stride {
      BytesAreStream(data, i, i - 2 * stride);
    }
  }

  /** The mask of a block, from the whole stream and the input bytes. */
  method Render(m: Mask, s: seq<bool>, data: seq<byte>, off: nat, n: nat, repr: Repr, blockBits: nat) returns (r: seq<bool>)
    requires Defined(m) && off + n <= |s|
    requires m.AddDelta? ==> s == BytesBits(data)
    requires Copies(m) ==> Distance(m, repr, blockBits) >= 1
    ensures r == Rendered(m, s, off, n, repr, blockBits)
  {
    hide LfsrBits, BmBits, Distance, PatternBit, AddDeltaByte;
    if m.Zero? {
      r := Zeros(n);
    } else if m.Pattern? {
      r := RenderPattern(n, m.len, m.bits);
    } else if m.Lfsr? {
      r := RenderLfsr(n, m.poly, m.seed);
      LfsrBitwise(m.poly, m.seed, n);
    } else if m.BmLfsr? {
      r := Generate(n, m.conn, m.start);
      GeneratedBitwise(m.conn, m.start, r);
    } else if m.AddDelta? {
      r := RenderAddDelta(data, off, n, Strides()[m.idx]);
    } else {
      r := RenderCopy(m, s, off, n, repr, blockBits);
    }
  }

  lemma LfsrBitwise(poly: nat, seed: nat, n: nat)
    requires poly < 4
    ensures forall i :: 0 <= i < n ==> LfsrBits(poly, seed, n)[i] == LfsrBits(poly, seed, i + 1)[i]
  {
    hide LfsrBits;
    forall i | 0 <= i < n ensures LfsrBits(poly, seed, n)[i] == LfsrBits(poly, seed, i + 1)[i] {
      LfsrPrefix(poly, seed, i + 1, n);
      assert LfsrBits(poly, seed, n)[..i + 1][i] == LfsrBits(poly, seed, n)[i];
    }
  }

  lemma GeneratedBitwise(conn: seq<bool>, start: seq<bool>, m: seq<bool>)
    requires |conn| == |start|
    requires IsGenerated(conn, start, m)
    ensures forall i :: 0 <= i < |m| ==> m[i] == BmBits(conn, start, i + 1)[i]
  {
    hide BmBits, Feedback, IsGenerated;
    forall i | 0 <= i < |m| ensures m[i] == BmBits(conn, start, i + 1)[i] {
      GeneratedIs(conn, start, m, i + 1);
      assert m[..i + 1][i] == m[i];
    }
  }

  method RenderCopy(m: Mask, s: seq<bool>, off: nat, n: nat, repr: Repr, blockBits: nat) returns (r: seq<bool>)
    requires Defined(m) && Copies(m) && off + n <= |s| && Distance(m, repr, blockBits) >= 1
    ensures r == Rendered(m, s, off, n, repr, blockBits)
  {
    hide Distance, PatternBit;
    var d := Distance(m, repr, blockBits);
    r := Slice(s, off - d, n);
    var pattern := SecondStage(m, n);
    r := Xor(r, pattern);
    forall i | 0 <= i < n ensures r[i] == MaskBit(m, s[..off + i], i, repr, blockBits) {
      CopiedBit(m, s[..off + i], i, repr, blockBits, pattern[i]);
    }
  }

  /** The pattern over a two-stage copy; nothing over the others. */
  method SecondStage(m: Mask, n: nat) returns (pattern: seq<bool>)
    requires Defined(m)
    ensures |pattern| == n && forall k :: 0 <= k < n ==> pattern[k] == (m.TwoStage? && PatternBit(m.len, m.bits, k))
  {
    if m.TwoStage? {
      pattern := RenderPattern(n, m.len, m.bits);
    } else {
      pattern := Zeros(n);
    }
  }

  method RenderAddDelta(data: seq<byte>, off: nat, n: nat, stride: nat) returns (r: seq<bool>)
    requires stride >= 1 && off + n <= 8 * |data|
    ensures |r| == n && forall i :: 0 <= i < n ==>
      r[i] == Msb(AddDeltaByte(BytesBits(data)[..off + i], (off + i) / 8, stride), 8)[(off + i) % 8]
  {
    hide Msb, BytesBits, AddDeltaByte;
    r := [];
    for i := 0 to n
      invariant |r| == i && forall j :: 0 <= j < i ==>
        r[j] == Msb(AddDeltaByte(BytesBits(data)[..off + j], (off + j) / 8, stride), 8)[(off + j) % 8]
    {
      var k := off + i;
      DataIsStream(data, k, k / 8, stride);
      var predicted := (2 * DataByte(data, k / 8, stride) - DataByte(data, k / 8, 2 * stride)) % 256;
      r := r + [Msb(predicted, 8)[k % 8]];
    }
  }

  // ------------------------------------------------------------ what each mask predicts

  /** A copying mask leaves nothing of a bit exactly when it repeats the one at the mask's distance;
      bits before the stream read as zero. */
  lemma CopyLeaves(m: Mask, s: seq<bool>, off: nat, n: nat, repr: Repr, blockBits: nat, k: nat, d: nat)
    requires Defined(m) && Copies(m) && !m.TwoStage? && off + n <= |s| && 1 <= d == Distance(m, repr, blockBits) && k < n
    ensures Difference(s[off..off + n], Rendered(m, s, off, n, repr, blockBits), false)[k]
         == (s[off + k] != (off + k >= d && s[off + k - d]))
  {
    hide Rendered, MaskBit, Difference, Defined, Distance;
    LeftAt(s[off..off + n], Rendered(m, s, off, n, repr, blockBits), k);
    SliceAt(s, off, n, k);
    assert Rendered(m, s, off, n, repr, blockBits)[k] == MaskBit(m, s[..off + k], k, repr, blockBits);
    CopiedFrom(m, s[..off + k], k, repr, blockBits);
  }

  lemma CopiedFrom(m: Mask, known: seq<bool>, i: nat, repr: Repr, blockBits: nat)
    requires Defined(m) && Copies(m) && !m.TwoStage? && Distance(m, repr, blockBits) >= 1
    ensures var d := Distance(m, repr, blockBits); MaskBit(m, known, i, repr, blockBits) == (|known| >= d && known[|known| - d])
  {
    hide Distance;
  }

  /** Bit `k` of the stream of bytes. */
  lemma BitOfByte(data: seq<byte>, k: nat)
    requires k < 8 * |data|
    ensures BytesBits(data)[k] == Msb(data[k / 8], 8)[k % 8]
  {
    hide BytesBits, Msb;
    BytesBitsAt(data, k / 8);
    assert k == 8 * (k / 8) + k % 8;
    assert BytesBits(data)[8 * (k / 8)..8 * (k / 8) + 8][k % 8] == BytesBits(data)[k];
  }

  predicate Recurs(data: seq<byte>, i: nat, stride: nat)
    requires i < |data|
  {
    i >= stride && data[i] == data[i - stride]
  }

  /** A block of bytes that recur with one of the strides leaves nothing under that stride. */
  lemma StrideLeavesNothing(data: seq<byte>, a: nat, c: nat, idx: nat, blockBits: nat)
    requires idx < 7 && a + c <= |data| && forall i :: a <= i < a + c ==> Recurs(data, i, Strides()[idx])
    ensures var s := BytesBits(data);
      Difference(s[8 * a..8 * a + 8 * c], Rendered(Stride(idx), s, 8 * a, 8 * c, Linear, blockBits), false) == Zeroes(8 * c)
  {
    hide *;
    StrideDistance(idx, blockBits);
    var s := BytesBits(data);
    var e := Difference(s[8 * a..8 * a + 8 * c], Rendered(Stride(idx), s, 8 * a, 8 * c, Linear, blockBits), false);
    forall k | 0 <= k < |e| ensures !e[k] {
      StrideBitLeft(data, a, c, idx, blockBits, k);
    }
    AllZero(e);
  }

  lemma StrideBitLeft(data: seq<byte>, a: nat, c: nat, idx: nat, blockBits: nat, k: nat)
    requires idx < 7 && a + c <= |data| && forall i :: a <= i < a + c ==> Recurs(data, i, Strides()[idx])
    requires k < 8 * c
    ensures var s := BytesBits(data);
      !Difference(s[8 * a..8 * a + 8 * c], Rendered(Stride(idx), s, 8 * a, 8 * c, Linear, blockBits), false)[k]
  {
    hide *;
    StrideDistance(idx, blockBits);
    CopyLeaves(Stride(idx), BytesBits(data), 8 * a, 8 * c, Linear, blockBits, k, 8 * Strides()[idx]);
    var i := a + k / 8;
    assert a <= i < a + c && (8 * a + k) / 8 == i;
    StrideBit(data, 8 * a + k, Strides()[idx], i);
  }

  lemma AllZero(e: seq<bool>)
    requires forall k :: 0 <= k < |e| ==> !e[k]
    ensures e == Zeroes(|e|)
  {
  }

  lemma StrideDistance(idx: nat, blockBits: nat)
    requires idx < 7
    ensures Defined(Stride(idx)) && Copies(Stride(idx)) && Distance(Stride(idx), Linear, blockBits) == 8 * Strides()[idx]
  {
    hide Strides;
  }

  lemma StrideBit(data: seq<byte>, k: nat, stride: nat, i: nat)
    requires k < 8 * |data| && i == k / 8 && Recurs(data, i, stride)
    ensures k >= 8 * stride && BytesBits(data)[k] == BytesBits(data)[k - 8 * stride]
  {
    hide BytesBits, Msb;
    var j := k - 8 * stride;
    assert j / 8 == i - stride && j % 8 == k % 8;
    BitOfByte(data, k);
    BitOfByte(data, j);
  }

  function Zeroes(n: nat): (z: seq<bool>)
    ensures |z| == n && forall k :: 0 <= k < n ==> !z[k]
  {
    seq(n, k => false)
  }

  /** The byte the extrapolating mask expects. */
  function Extrapolated(data: seq<byte>, i: nat, stride: nat): byte
    requires stride >= 1 && i <= |data|
  {
    (2 * DataByte(data, i, stride) - DataByte(data, i, 2 * stride)) % 256
  }

  /** How the step to byte `i` differs from the step before, `stride` bytes apart. */
  function SecondDifference(data: seq<byte>, i: nat, stride: nat): int
    requires stride >= 1 && i < |data|
  {
    var step, before := data[i] as int - DataByte(data, i, stride), DataByte(data, i, stride) - DataByte(data, i, 2 * stride);
    (step - before) % 256
  }

  /** What the extrapolating mask leaves of the bytes from `a` to `a + c`. */
  ghost function AddDeltaLeft(data: seq<byte>, a: nat, c: nat, idx: nat, blockBits: nat): (e: seq<bool>)
    requires idx < 7 && a + c <= |data|
    ensures |e| == 8 * c
  {
    var s := BytesBits(data);
    Difference(s[8 * a..8 * a + 8 * c], Rendered(AddDelta(idx), s, 8 * a, 8 * c, Linear, blockBits), false)
  }

  /** The extrapolating mask leaves nothing of a byte exactly when the steps are equal, as they are
      along an arithmetic progression. */
  lemma EqualStepsLeaveNothing(data: seq<byte>, a: nat, c: nat, idx: nat, blockBits: nat, i: nat)
    requires idx < 7 && a + c <= |data| && i < c
    ensures AddDeltaLeft(data, a, c, idx, blockBits)[8 * i..8 * i + 8] == Zeroes(8)
       <==> SecondDifference(data, a + i, Strides()[idx]) == 0
  {
    hide *;
    var x, stride := a + i, Strides()[idx];
    var own, other := Msb(data[x], 8), Msb(Extrapolated(data, x, stride), 8);
    var e := AddDeltaLeft(data, a, c, idx, blockBits)[8 * i..8 * i + 8];
    forall j | 0 <= j < 8 ensures e[j] == (own[j] != other[j]) {
      BitLeft(data, a, c, idx, blockBits, i, j);
    }
    SameWhenZero(own, other, e);
    Pow8();
    FromMsbOf(data[x], 8);
    FromMsbOf(Extrapolated(data, x, stride), 8);
    SecondIs(data, x, stride);
  }

  lemma BitLeft(data: seq<byte>, a: nat, c: nat, idx: nat, blockBits: nat, i: nat, j: nat)
    requires idx < 7 && a + c <= |data| && i < c && j < 8
    ensures AddDeltaLeft(data, a, c, idx, blockBits)[8 * i + j]
         == (Msb(data[a + i], 8)[j] != Msb(Extrapolated(data, a + i, Strides()[idx]), 8)[j])
  {
    hide Rendered, BytesBits, Msb, Extrapolated, Strides;
    var k := 8 * i + j;
    assert (8 * a + k) / 8 == a + i && (8 * a + k) % 8 == j;
    BitOfByte(data, 8 * a + k);
    RenderedBit(data, a, c, idx, blockBits, i, j);
    AddDeltaLeftAt(data, a, c, idx, blockBits, k);
  }

  lemma AddDeltaLeftAt(data: seq<byte>, a: nat, c: nat, idx: nat, blockBits: nat, k: nat)
    requires idx < 7 && a + c <= |data| && k < 8 * c
    ensures AddDeltaLeft(data, a, c, idx, blockBits)[k] ==
      (BytesBits(data)[8 * a + k] != Rendered(AddDelta(idx), BytesBits(data), 8 * a, 8 * c, Linear, blockBits)[k])
  {
    hide Rendered, BytesBits, MaskBit, Difference, Defined;
    AddDeltaDefined(idx);
    var s := BytesBits(data);
    LeftAt(s[8 * a..8 * a + 8 * c], Rendered(AddDelta(idx), s, 8 * a, 8 * c, Linear, blockBits), k);
    SliceAt(s, 8 * a, 8 * c, k);
  }

  lemma SliceAt(s: seq<bool>, off: nat, n: nat, k: nat)
    requires off + n <= |s| && k < n
    ensures s[off..off + n][k] == s[off + k]
  {
  }

  lemma LeftAt(x: seq<bool>, m: seq<bool>, k: nat)
    requires |x| == |m| && k < |x|
    ensures Difference(x, m, false)[k] == (x[k] != m[k])
  {
  }

  lemma AddDeltaDefined(idx: nat)
    requires idx < 7
    ensures Defined(AddDelta(idx))
  {
  }

  lemma RenderedBit(data: seq<byte>, a: nat, c: nat, idx: nat, blockBits: nat, i: nat, j: nat)
    requires idx < 7 && a + c <= |data| && i < c && j < 8
    ensures Rendered(AddDelta(idx), BytesBits(data), 8 * a, 8 * c, Linear, blockBits)[8 * i + j]
         == Msb(Extrapolated(data, a + i, Strides()[idx]), 8)[j]
  {
    hide *;
    AddDeltaDefined(idx);
    var s, k := BytesBits(data), 8 * i + j;
    assert (8 * a + k) / 8 == a + i && (8 * a + k) % 8 == j;
    AddDeltaBit(s[..8 * a + k], k, idx, blockBits);
    ExtrapolatedIs(data, 8 * a + k, a + i, Strides()[idx]);
  }

  lemma ExtrapolatedIs(data: seq<byte>, p: nat, i: nat, stride: nat)
    requires stride >= 1 && i <= |data| && 8 * i <= p <= 8 * |data|
    ensures AddDeltaByte(BytesBits(data)[..p], i, stride) == Extrapolated(data, i, stride)
  {
    hide BytesBits, AddDeltaByte;
    DataIsStream(data, p, i, stride);
  }

  lemma AddDeltaBit(known: seq<bool>, i: nat, idx: nat, blockBits: nat)
    requires idx < 7
    ensures MaskBit(AddDelta(idx), known, i, Linear, blockBits) == Msb(AddDeltaByte(known, |known| / 8, Strides()[idx]), 8)[|known| % 8]
  {
    hide Msb, AddDeltaByte, Strides;
  }

  lemma SameWhenZero(u: seq<bool>, v: seq<bool>, e: seq<bool>)
    requires |u| == |v| == |e| && forall j :: 0 <= j < |e| ==> e[j] == (u[j] != v[j])
    ensures e == Zeroes(|e|) <==> u == v
  {
    if e == Zeroes(|e|) {
      forall j | 0 <= j < |u| ensures u[j] == v[j] {
        assert !e[j];
      }
    }
  }

  lemma SecondIs(data: seq<byte>, i: nat, stride: nat)
    requires stride >= 1 && i < |data|
    ensures SecondDifference(data, i, stride) == 0 <==> data[i] == Extrapolated(data, i, stride)
  {
  }

  // ------------------------------------------------------------ rebuilding in place

  method WriteAt(s: array<bool>, at: nat, x: seq<bool>)
    requires at + |x| <= s.Length
    modifies s
    ensures s[..] == old(s[..at]) + x + old(s[at + |x|..])
  {
    for i := 0 to |x|
      invariant forall k :: 0 <= k < i ==> s[at + k] == x[k]
      invariant forall k :: 0 <= k < s.Length && !(at <= k < at + i) ==> s[k] == old(s[k])
    {
      s[at + i] := x[i];
    }
    ghost var goal := old(s[..at]) + x + old(s[at + |x|..]);
    forall k | 0 <= k < s.Length ensures s[k] == goal[k] {
      if at <= k < at + |x| {
        assert s[at + (k - at)] == x[k - at];
      }
    }
    assert s[..] == goal;
  }

  /** Masks that do not look at the stream are the same over any stream. */
  lemma IndependentMask(m: Mask, s: seq<bool>, x: seq<bool>, off: nat, e: seq<bool>, complement: bool, repr: Repr, blockBits: nat)
    requires Defined(m) && !Copies(m) && !m.AddDelta? && off + |e| <= |s|
    requires x == Difference(Rendered(m, s, off, |e|, repr, blockBits), e, complement)
    ensures Obeys(m, s[..off] + x + s[off + |e|..], off, e, |e|, complement, repr, blockBits)
  {
    hide LfsrBits, BmBits, PatternBit;
    var t := s[..off] + x + s[off + |e|..];
    forall k | 0 <= k < |e| ensures t[off + k] == ((e[k] != MaskBit(m, t[..off + k], k, repr, blockBits)) != complement) {
      assert t[off + k] == x[k];
    }
  }

  /** Copies: whole when every source bit precedes the block, else bit by bit over what is being written. */
  method CopyBack(m: Mask, s: array<bool>, off: nat, e: seq<bool>, complement: bool, repr: Repr, blockBits: nat, d: nat)
    requires Defined(m) && Copies(m) && off + |e| <= s.Length && d == Distance(m, repr, blockBits) >= 1
    modifies s
    ensures Obeys(m, s[..], off, e, |e|, complement, repr, blockBits)
    ensures s[..off] == old(s[..off]) && s[off + |e|..] == old(s[off + |e|..])
  {
    hide Distance, PatternBit, Obeys;
    ghost var before := s[..];
    var pattern := SecondStage(m, |e|);
    if d >= |e| {
      var x := Slice(s[..], off - d, |e|);
      x := Xor(Xor(x, e), pattern);
      if complement {
        x := Inverted(x);
      }
      WholeCopy(m, before, off, e, x, pattern, complement, repr, blockBits, d);
      WriteAt(s, off, x);
      assert before[..off] == s[..off] && before[off + |e|..] == s[off + |e|..];
    } else {
      NothingYet(m, s[..], off, e, complement, repr, blockBits);
      for k := 0 to |e|
        invariant Obeys(m, s[..], off, e, k, complement, repr, blockBits)
        invariant s[..off] == before[..off] && s[off + |e|..] == before[off + |e|..]
      {
        var bit := if off + k >= d then s[off + k - d] else false;
        assert bit == Earlier(s[..off + k], d);
        CopiedBit(m, s[..off + k], k, repr, blockBits, pattern[k]);
        var v := (e[k] != (bit != pattern[k])) != complement;
        assert s[..][..off + k] == s[..off + k];
        ObeysNext(m, s[..], off, e, k, v, complement, repr, blockBits);
        ghost var next := s[..][off + k := v];
        s[off + k] := v;
        assert s[..] == next;
        assert s[..off] == before[..off] && s[off + |e|..] == before[off + |e|..];
      }
    }
  }

  function Inverted(x: seq<bool>): (y: seq<bool>)
    ensures |y| == |x| && forall i :: 0 <= i < |x| ==> y[i] == !x[i]
  {
    seq(|x|, i requires 0 <= i < |x| => !x[i])
  }

  lemma NothingYet(m: Mask, s: seq<bool>, off: nat, e: seq<bool>, complement: bool, repr: Repr, blockBits: nat)
    requires Defined(m) && off + |e| <= |s|
    ensures Obeys(m, s, off, e, 0, complement, repr, blockBits)
  {
  }

  /** When every bit copied lies before the block, what is written does not change the copy. */
  lemma WholeCopy(m: Mask, s: seq<bool>, off: nat, e: seq<bool>, x: seq<bool>, pattern: seq<bool>, complement: bool, repr: Repr,
      blockBits: nat, d: nat)
    requires Defined(m) && Copies(m) && off + |e| <= |s| && |x| == |e| == |pattern| && d == Distance(m, repr, blockBits) >= |e|
    requires d >= 1
    requires forall k :: 0 <= k < |e| ==> pattern[k] == (m.TwoStage? && PatternBit(m.len, m.bits, k))
    requires forall k :: 0 <= k < |e| ==> x[k] == (((At(s, off - d + k) != e[k]) != pattern[k]) != complement)
    ensures Obeys(m, s[..off] + x + s[off + |e|..], off, e, |e|, complement, repr, blockBits)
  {
    hide Distance, PatternBit, MaskBit;
    var t := s[..off] + x + s[off + |e|..];
    forall k | 0 <= k < |e| ensures t[off + k] == ((e[k] != MaskBit(m, t[..off + k], k, repr, blockBits)) != complement) {
      assert t[off + k] == x[k];
      CopiedBit(m, t[..off + k], k, repr, blockBits, pattern[k]);
      assert d <= off + k ==> t[..off + k][off + k - d] == s[off + k - d];
      assert Earlier(t[..off + k], d) == At(s, off - d + k);
    }
  }

  lemma CopiedBit(m: Mask, known: seq<bool>, i: nat, repr: Repr, blockBits: nat, p: bool)
    requires Defined(m) && Copies(m) && p == (m.TwoStage? && PatternBit(m.len, m.bits, i))
    ensures MaskBit(m, known, i, repr, blockBits) == (Earlier(known, Distance(m, repr, blockBits)) != p)
  {
  }

  /** The byte being predicted is worked out once, from whole bytes already rebuilt. */
  method Extrapolate(s: array<bool>, off: nat, e: seq<bool>, complement: bool, idx: nat, repr: Repr, blockBits: nat)
    requires idx < 7 && off + |e| <= s.Length
    modifies s
    ensures Obeys(AddDelta(idx), s[..], off, e, |e|, complement, repr, blockBits)
    ensures s[..off] == old(s[..off]) && s[off + |e|..] == old(s[off + |e|..])
  {
    hide Msb, AddDeltaByte, Obeys;
    var m := AddDelta(idx);
    var stride := Strides()[idx];
    var cached: Option<(nat, nat)> := None;
    ghost var before := s[..];
    NothingYet(m, s[..], off, e, complement, repr, blockBits);
    for k := 0 to |e|
      invariant cached.Some? ==> 8 * cached.value.0 <= off + k
      invariant cached.Some? ==> cached.value.1 == AddDeltaByte(s[..8 * cached.value.0], cached.value.0, stride)
      invariant Obeys(m, s[..], off, e, k, complement, repr, blockBits)
      invariant s[..off] == before[..off] && s[off + |e|..] == before[off + |e|..]
    {
      var at := off + k;
      if cached.None? || cached.value.0 != at / 8 {
        cached := Some((at / 8, AddDeltaByte(s[..8 * (at / 8)], at / 8, stride)));
      }
      ghost var now := s[..];
      WholeBytes(now, at, at / 8, stride);
      assert now[..at] == s[..at] && now[..8 * (at / 8)] == s[..8 * (at / 8)];
      var bit := Msb(cached.value.1, 8)[at % 8];
      var v := (e[k] != bit) != complement;
      ObeysNext(m, now, off, e, k, v, complement, repr, blockBits);
      s[at] := v;
      assert s[..] == now[at := v];
      assert s[..8 * (at / 8)] == now[..8 * (at / 8)];
      assert s[..off] == before[..off] && s[off + |e|..] == before[off + |e|..];
    }
  }

  /** The block of `s` at `off` becomes difference, mask and complement together; the
      bits after it stay. Fails, changing nothing, only on a copy from nowhere. */
  method Reconstruct(m: Mask, s: array<bool>, off: nat, e: seq<bool>, complement: bool, repr: Repr, blockBits: nat) returns (ok: bool)
    requires Defined(m) && off + |e| <= s.Length
    modifies s
    ensures !ok <==> Copies(m) && Distance(m, repr, blockBits) == 0
    ensures !ok ==> s[..] == old(s[..])
    ensures ok ==> s[..off + |e|] == Rebuilt(m, old(s[..off]), off, e, complement, repr, blockBits)
    ensures s[off + |e|..] == old(s[off + |e|..])
  {
    hide Rebuilt, MaskBit, Obeys, Distance;
    ghost var before := s[..off];
    ok := true;
    if Copies(m) {
      var d := Distance(m, repr, blockBits);
      if d == 0 {
        return false;
      }
      CopyBack(m, s, off, e, complement, repr, blockBits, d);
    } else if m.AddDelta? {
      Extrapolate(s, off, e, complement, m.idx, repr, blockBits);
    } else {
      ghost var start := s[..];
      var x := Render(m, s[..], [], off, |e|, repr, blockBits);
      x := Difference(x, e, complement);
      IndependentMask(m, start, x, off, e, complement, repr, blockBits);
      WriteAt(s, off, x);
      assert start[..off] == before && start[off + |e|..] == s[off + |e|..];
    }
    RebuiltIs(m, s[..], off, e, 0, complement, repr, blockBits);
    assert s[..][..off + 0] == before && s[..][..off + |e|] == s[..off + |e|];
  }
}
