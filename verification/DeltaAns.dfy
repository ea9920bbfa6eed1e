/** The delta codec: differences from earlier bytes, dealt out to four lanes, each under the
    normalised counts of its own bytes. */
module DeltaAns {
  import opened Arithmetic
  import opened BitStrings
  import opened Bytes
  import opened Sequences
  import opened OrderZero
  import FrequencyTables

  const LANES: nat := 4
  const PINNED: nat := 128

  // ------------------------------------------------------------ differences

  /** Exclusive or of the low `k` bits. */
  function XorLow(a: nat, b: nat, k: nat): (r: nat)
    ensures r < Pow2(k)
    decreases k, a
  {
    if k == 0 then 0 else (if a % 2 == b % 2 then 0 else 1) + 2 * XorLow(a / 2, b / 2, k - 1)
  }

  function Xor(a: byte, b: byte): byte {
    assert Pow2(8) == 256;
    XorLow(a, b, 8)
  }

  lemma {:induction false} XorLowBack(a: nat, b: nat, k: nat)
    requires a < Pow2(k)
    ensures XorLow(XorLow(a, b, k), b, k) == a
    decreases k
  {
    if k > 0 {
      XorLowStep(a, b, k);
      var low: nat := if a % 2 == b % 2 then 0 else 1;
      XorLowStep(low + 2 * XorLow(a / 2, b / 2, k - 1), b, k);
      HalfBelow(a, k);
      hide *;
      XorLowBack(a / 2, b / 2, k - 1);
      Halves(low, XorLow(a / 2, b / 2, k - 1));
      assert a == a % 2 + 2 * (a / 2);
    }
  }

  lemma XorLowStep(a: nat, b: nat, k: nat)
    requires k > 0
    ensures XorLow(a, b, k) == (if a % 2 == b % 2 then 0 else 1) + 2 * XorLow(a / 2, b / 2, k - 1)
  {
  }

  lemma HalfBelow(a: nat, k: nat)
    requires k > 0 && a < Pow2(k)
    ensures a / 2 < Pow2(k - 1)
  {
  }

  lemma Halves(low: nat, high: nat)
    requires low < 2
    ensures (low + 2 * high) / 2 == high && (low + 2 * high) % 2 == low
  {
  }

  lemma XorBack(a: byte, b: byte)
    ensures Xor(Xor(a, b), b) == a
  {
    hide XorLow;
    assert Pow2(8) == 256;
    XorLowBack(a, b, 8);
  }

  /** How far back the byte lies that each byte is compared with; zero for no difference. */
  function Stride(kind: nat): nat {
    if kind == 2 then 2 else if kind == 3 then 4 else if kind == 4 then 0 else 1
  }

  /** Kind 1 subtracts, the others exclusive-or. */
  function Less(kind: nat, x: byte, before: byte): byte {
    if kind == 1 then (x - before) % 256 else Xor(x, before)
  }

  function More(kind: nat, x: byte, before: byte): byte {
    if kind == 1 then (x + before) % 256 else Xor(x, before)
  }

  lemma MoreLess(kind: nat, x: byte, before: byte)
    ensures More(kind, Less(kind, x, before), before) == x
  {
    hide Xor;
    XorBack(x, before);
  }

  predicate Compared(kind: nat, i: nat) {
    0 < Stride(kind) <= i
  }

  function Difference(kind: nat, data: seq<byte>): (r: seq<byte>)
    ensures |r| == |data|
  {
    seq<byte>(|data|, i requires 0 <= i < |data| =>
      if Compared(kind, i) then Less(kind, data[i], data[i - Stride(kind)]) else data[i])
  }

  function Restored(kind: nat, r: seq<byte>): (d: seq<byte>)
    ensures |d| == |r|
  {
    if r == [] then []
    else
      var n := |r| - 1;
      var d := Restored(kind, r[..n]);
      d + [if Compared(kind, n) then More(kind, r[n], d[n - Stride(kind)]) else r[n]]
  }

  lemma {:induction false} DifferenceBack(kind: nat, data: seq<byte>)
    ensures Restored(kind, Difference(kind, data)) == data
    decreases |data|
  {
    hide Less, More;
    if data != [] {
      var n := |data| - 1;
      DifferenceBack(kind, data[..n]);
      assert Difference(kind, data)[..n] == Difference(kind, data[..n]);
      if Compared(kind, n) {
        MoreLess(kind, data[n], data[n - Stride(kind)]);
      }
      assert data[..n] + [data[n]] == data;
    }
  }

  lemma {:induction false} XorLowZero(a: nat, b: nat, k: nat)
    requires a < Pow2(k) && b < Pow2(k)
    ensures XorLow(a, b, k) == 0 <==> a == b
    decreases k
  {
    if k > 0 {
      XorLowZero(a / 2, b / 2, k - 1);
    }
  }

  /** The difference is zero just where a byte repeats the one before it, the one two or the one four
      places back, by kind; kind 4 leaves the data alone, and kind 1 turns steady steps into
      equal bytes. */
  lemma ZeroWhereRepeated(kind: nat, data: seq<byte>, i: nat)
    requires i < |data|
    ensures kind <= 1 && i >= 1 ==> (Difference(kind, data)[i] == 0 <==> data[i] == data[i - 1])
    ensures kind == 2 && i >= 2 ==> (Difference(kind, data)[i] == 0 <==> data[i] == data[i - 2])
    ensures kind == 3 && i >= 4 ==> (Difference(kind, data)[i] == 0 <==> data[i] == data[i - 4])
    ensures kind == 4 ==> Difference(kind, data) == data
    ensures kind == 1 && i >= 2 ==>
      (Difference(kind, data)[i] == Difference(kind, data)[i - 1] <==> (data[i] as int - 2 * data[i - 1] as int + data[i - 2] as int) % 256 == 0)
  {
    hide Less;
    if Compared(kind, i) {
      LessZero(kind, data[i], data[i - Stride(kind)]);
    }
    if kind == 1 && i >= 2 {
      EqualSteps(data[i], data[i - 1], data[i - 2]);
    }
  }

  lemma LessZero(kind: nat, x: byte, before: byte)
    ensures Less(kind, x, before) == 0 <==> x == before
  {
    hide XorLow;
    assert Pow2(8) == 256;
    XorLowZero(x, before, 8);
  }

  lemma EqualSteps(x: byte, y: byte, z: byte)
    ensures Less(1, x, y) == Less(1, y, z) <==> (x as int - 2 * y as int + z as int) % 256 == 0
  {
    hide Xor;
  }

  // ------------------------------------------------------------ lanes

  /** The bytes that lane `lane` of `lanes` holds out of `n`. */
  function Share(n: nat, lanes: nat, lane: nat): nat
    requires lane < lanes
  {
    (n + lanes - 1 - lane) / lanes
  }

  lemma ShareInside(n: nat, lanes: nat, lane: nat, j: nat)
    requires lane < lanes
    ensures j < Share(n, lanes, lane) <==> lanes * j + lane < n
  {
    var m := n + lanes - 1 - lane;
    assert m == lanes * (m / lanes) + m % lanes;
    if j < m / lanes {
      Steps(lanes, j + 1, m / lanes);
    } else {
      Steps(lanes, m / lanes, j);
    }
  }

  lemma Steps(k: nat, i: nat, j: nat)
    requires i <= j
    ensures k * i <= k * j && k * (i + 1) == k * i + k
  {
  }

  function Lane(data: seq<byte>, lane: nat): (s: seq<byte>)
    requires lane < LANES
    ensures |s| == Share(|data|, LANES, lane)
  {
    seq<byte>(Share(|data|, LANES, lane), j requires 0 <= j < Share(|data|, LANES, lane) =>
      ShareInside(|data|, LANES, lane, j);
      data[LANES * j + lane])
  }

  /** Place `i` has a byte in its lane. */
  ghost predicate Has(lanes: seq<seq<byte>>, i: nat)
    requires lanes != []
  {
    0 <= i / |lanes| < |lanes[i % |lanes|]|
  }

  ghost function Dealt(lanes: seq<seq<byte>>, i: nat): byte
    requires lanes != [] && Has(lanes, i)
  {
    lanes[i % |lanes|][i / |lanes|]
  }

  /** The lanes read in turn; none when one runs out. */
  ghost function Merged(lanes: seq<seq<byte>>, n: nat): Option<seq<byte>> {
    if lanes == [] then if n == 0 then Some([]) else None
    else if forall i: nat :: i < n ==> Has(lanes, i) then
      Some(seq<byte>(n, i requires 0 <= i < n && Has(lanes, i) => Dealt(lanes, i)))
    else None
  }

  ghost function AllLanes(data: seq<byte>): (lanes: seq<seq<byte>>)
    ensures |lanes| == LANES
  {
    [Lane(data, 0), Lane(data, 1), Lane(data, 2), Lane(data, 3)]
  }

  lemma MergedBack(data: seq<byte>)
    ensures Merged(AllLanes(data), |data|) == Some(data)
  {
    hide AllLanes, Has, Dealt;
    var lanes := AllLanes(data);
    forall i: nat | i < |data| ensures Has(lanes, i) && Dealt(lanes, i) == data[i] {
      InLane(data, i);
    }
    assert Merged(lanes, |data|).value == data;
  }

  lemma InLane(data: seq<byte>, i: nat)
    requires i < |data|
    ensures Has(AllLanes(data), i) && Dealt(AllLanes(data), i) == data[i]
  {
    hide Share;
    var q, r := i / LANES, i % LANES;
    assert i == LANES * q + r;
    ShareInside(|data|, LANES, r, q);
    assert AllLanes(data)[r] == Lane(data, r);
    assert Lane(data, r)[q] == data[i];
  }

  // ------------------------------------------------------------ payload

  const COUNTS: nat := 1024
  const LANE_HEADER: nat := 1032

  function Words(list: seq<nat>): (s: seq<byte>)
    ensures |s| == 4 * |list|
  {
    if list == [] then [] else Words(list[..|list| - 1]) + PutWord(list[|list| - 1])
  }

  /** A lane's own coded bytes; an empty lane has none. */
  ghost function LaneCode(lane: seq<byte>): seq<byte> {
    if lane == [] then []
    else
      NormalForCovers(lane);
      CodedBytes(lane, NormalFor(lane))
  }

  lemma EmptyCode(lane: seq<byte>)
    ensures |lane| == 0 ==> |LaneCode(lane)| == 0
  {
  }

  ghost function LaneBytes(lane: seq<byte>): (s: seq<byte>)
    ensures |s| == LANE_HEADER + |LaneCode(lane)|
  {
    PutWord(|lane|) + Words(ByteCounts(lane)) + PutWord(|LaneCode(lane)|) + LaneCode(lane)
  }

  ghost function LanesBytes(lanes: seq<seq<byte>>): seq<byte> {
    if lanes == [] then [] else LaneBytes(lanes[0]) + LanesBytes(lanes[1..])
  }

  /** What is written when differences of this kind were chosen. */
  ghost function Encoded(data: seq<byte>, kind: nat): seq<byte>
    requires kind <= 4
  {
    if data == [] then [0, LANES, 0, 0, 0, 0]
    else [kind + PINNED, LANES] + PutWord(|data|) + LanesBytes(AllLanes(Difference(kind, data)))
  }

  type Freqs = f: seq<nat> | |f| == 256 witness seq(256, i => 0)

  /** The table for the counts a payload carries; those written before the order of ties was
      settled have one that depends on the sort then used. */
  ghost function TableFrom(unpinned: seq<nat> -> Freqs, pinned: bool, counts: seq<nat>): (freqs: seq<nat>)
    requires |counts| == 256
    ensures |freqs| == 256
  {
    FrequencyTables.NormalFreqsCover(counts);
    if pinned then FrequencyTables.NormalFreqs(counts) else unpinned(counts)
  }

  function CountsAt(s: seq<byte>, pos: nat): (counts: seq<nat>)
    requires pos + COUNTS <= |s|
    ensures |counts| == 256
  {
    seq(256, k requires 0 <= k < 256 => GetWord(s[pos + 4 * k..pos + 4 * k + 4]))
  }

  /** One lane and where the next begins; none for a payload that ends too early or a table
      that does not sum to its scale. */
  ghost function TakeLane(unpinned: seq<nat> -> Freqs, pinned: bool, s: seq<byte>, pos: nat): Option<(seq<byte>, nat)> {
    var symbols, coded := WordFrom(s, pos), WordFrom(s, pos + 4 + COUNTS);
    if coded.None? then None
    else
      assert symbols.Some?;
      var start := pos + LANE_HEADER;
      if symbols.value == 0 then Some(([], start))
      else if start + coded.value > |s| then None
      else
        var freqs := TableFrom(unpinned, pinned, CountsAt(s, pos + 4));
        match RansDecoded(freqs, s[start..start + coded.value], symbols.value)
        case None => None
        case Some(lane) => Some((lane, start + coded.value))
  }

  ghost function TakeLanes(unpinned: seq<nat> -> Freqs, pinned: bool, s: seq<byte>, pos: nat, left: nat): Option<seq<seq<byte>>>
    decreases left
  {
    if left == 0 then Some([])
    else
      match TakeLane(unpinned, pinned, s, pos)
      case None => None
      case Some((lane, next)) =>
        match TakeLanes(unpinned, pinned, s, next, left - 1)
        case None => None
        case Some(later) => Some([lane] + later)
  }

  /** `delta_ans_decode`, on any bytes. */
  ghost function Decoded(unpinned: seq<nat> -> Freqs, s: seq<byte>): Option<seq<byte>> {
    if |s| < 6 || GetWord(s[2..6]) == 0 then Some([])
    else
      match TakeLanes(unpinned, s[0] >= PINNED, s, 6, s[1])
      case None => None
      case Some(lanes) =>
        match Merged(lanes, GetWord(s[2..6]))
        case None => None
        case Some(r) => Some(Restored(s[0] % PINNED, r))
  }

  /** What is decoded is as long as the payload declares. */
  lemma DecodedLength(unpinned: seq<nat> -> Freqs, s: seq<byte>)
    requires |s| >= 6 && Decoded(unpinned, s).Some?
    ensures |Decoded(unpinned, s).value| == GetWord(s[2..6])
  {
    hide GetWord, TakeLanes, Has, Dealt;
  }

  // ------------------------------------------------------------ round trip

  lemma {:induction false} WordOfWords(list: seq<nat>, k: nat)
    requires k < |list|
    ensures Words(list)[4 * k..4 * k + 4] == PutWord(list[k])
    decreases |list|
  {
    hide PutWord;
    var n := |list| - 1;
    if k < n {
      WordOfWords(list[..n], k);
      assert Words(list)[4 * k..4 * k + 4] == Words(list[..n])[4 * k..4 * k + 4];
    }
  }

  lemma CountAtMost(lane: seq<byte>, b: byte)
    ensures ByteCounts(lane)[b] <= |lane|
  {
    assert multiset(lane)[b] <= |multiset(lane)| by {
      SomeOfAll(multiset(lane), b);
    }
  }

  lemma SomeOfAll(m: multiset<byte>, b: byte)
    ensures m[b] <= |m|
  {
    var n := m[b];
    var rest := m[b := 0];
    assert m == rest + multiset{}[b := n];
  }

  /** The words and the code of a lane, where it begins at `pos`. */
  lemma LaneAt(s: seq<byte>, pos: nat, lane: seq<byte>)
    requires pos <= |s| && LaneBytes(lane) <= s[pos..] && |lane| <= 0x4000_0000
    ensures WordFrom(s, pos) == Some(|lane|) && WordFrom(s, pos + 4 + COUNTS) == Some(|LaneCode(lane)|)
    ensures pos + LANE_HEADER + |LaneCode(lane)| <= |s|
    ensures CountsAt(s, pos + 4) == ByteCounts(lane)
    ensures s[pos + LANE_HEADER..pos + LANE_HEADER + |LaneCode(lane)|] == LaneCode(lane)
  {
    hide PutWord, GetWord, CodedBytes, NormalFor, ByteCounts, Words, CountsAt, LaneCode;
    CodeFits(lane);
    var t := LaneBytes(lane);
    var end := pos + |t|;
    assert s[pos..end] == t;
    assert s[pos..pos + 4] == t[..4] == PutWord(|lane|);
    assert s[pos + 4 + COUNTS..pos + LANE_HEADER] == t[4 + COUNTS..LANE_HEADER] == PutWord(|LaneCode(lane)|);
    WordRoundTrip(|lane|);
    WordRoundTrip(|LaneCode(lane)|);
    assert s[pos + 4..pos + 4 + COUNTS] == t[4..4 + COUNTS] == Words(ByteCounts(lane));
    CountsBack(s, pos + 4, lane);
    assert s[pos + LANE_HEADER..end] == t[LANE_HEADER..] == LaneCode(lane);
  }

  lemma CountsBack(s: seq<byte>, pos: nat, lane: seq<byte>)
    requires pos + COUNTS <= |s| && s[pos..pos + COUNTS] == Words(ByteCounts(lane)) && |lane| < WORD
    ensures CountsAt(s, pos) == ByteCounts(lane)
  {
    hide PutWord, GetWord, ByteCounts, Words;
    var counts := ByteCounts(lane);
    forall k | 0 <= k < 256 ensures CountsAt(s, pos)[k] == counts[k] {
      WordOfWords(counts, k);
      CountAtMost(lane, k);
      WordRoundTrip(counts[k]);
      SliceOfSlice(s, pos, pos + COUNTS, 4 * k, 4 * k + 4);
    }
  }

  lemma SliceOfSlice(s: seq<byte>, from: nat, end: nat, i: nat, j: nat)
    requires from <= end <= |s| && i <= j <= end - from
    ensures s[from..end][i..j] == s[from + i..from + j]
  {
    var a, b := s[from..end][i..j], s[from + i..from + j];
    forall k | 0 <= k < j - i ensures a[k] == b[k] {
      assert a[k] == s[from..end][i + k];
    }
  }

  lemma CodeFits(lane: seq<byte>)
    requires |lane| <= 0x4000_0000
    ensures |LaneCode(lane)| < WORD
  {
    hide CodedBytes, NormalFor;
    if lane != [] {
      NormalForCovers(lane);
      CodedReadsBack(lane, NormalFor(lane));
    }
  }

  lemma TakesLane(unpinned: seq<nat> -> Freqs, s: seq<byte>, pos: nat, lane: seq<byte>)
    requires pos <= |s| && LaneBytes(lane) <= s[pos..] && |lane| <= 0x4000_0000
    ensures TakeLane(unpinned, true, s, pos) == Some((lane, pos + |LaneBytes(lane)|))
  {
    hide CountsAt, RansDecoded, CodedBytes, WordFrom, ByteCounts;
    LaneAt(s, pos, lane);
    if lane != [] {
      NormalForCovers(lane);
      CodedReadsBack(lane, NormalFor(lane));
    }
  }

  lemma {:induction false} TakesLanes(unpinned: seq<nat> -> Freqs, s: seq<byte>, pos: nat, lanes: seq<seq<byte>>)
    requires pos <= |s| && LanesBytes(lanes) <= s[pos..]
    requires forall k :: 0 <= k < |lanes| ==> |lanes[k]| <= 0x4000_0000
    ensures TakeLanes(unpinned, true, s, pos, |lanes|) == Some(lanes)
    decreases |lanes|
  {
    hide *;
    if lanes == [] {
      NoLanes(unpinned, s, pos);
    } else {
      FirstLane(lanes);
      PrefixSplit(LaneBytes(lanes[0]), LanesBytes(lanes[1..]), s, pos);
      TakesLane(unpinned, s, pos, lanes[0]);
      TakesLanes(unpinned, s, pos + |LaneBytes(lanes[0])|, lanes[1..]);
      LanesNext(unpinned, s, pos, lanes[0], pos + |LaneBytes(lanes[0])|, lanes[1..]);
      assert [lanes[0]] + lanes[1..] == lanes;
    }
  }

  lemma NoLanes(unpinned: seq<nat> -> Freqs, s: seq<byte>, pos: nat)
    ensures TakeLanes(unpinned, true, s, pos, 0) == Some([])
  {
  }

  lemma FirstLane(lanes: seq<seq<byte>>)
    requires lanes != []
    ensures LanesBytes(lanes) == LaneBytes(lanes[0]) + LanesBytes(lanes[1..])
  {
    hide LaneBytes;
  }

  lemma LanesNext(unpinned: seq<nat> -> Freqs, s: seq<byte>, pos: nat, lane: seq<byte>, next: nat, later: seq<seq<byte>>)
    requires TakeLane(unpinned, true, s, pos) == Some((lane, next))
    requires TakeLanes(unpinned, true, s, next, |later|) == Some(later)
    ensures TakeLanes(unpinned, true, s, pos, |later| + 1) == Some([lane] + later)
  {
    hide TakeLane;
  }

  lemma PrefixSplit(a: seq<byte>, b: seq<byte>, s: seq<byte>, pos: nat)
    requires pos <= |s| && a + b <= s[pos..]
    ensures a <= s[pos..] && pos + |a| <= |s| && b <= s[pos + |a|..]
  {
    assert s[pos..][|a|..] == s[pos + |a|..];
    assert (a + b)[|a|..] == b;
    assert s[pos..][..|a|] == (a + b)[..|a|] == a;
  }

  lemma LanesSmall(data: seq<byte>)
    requires |data| < WORD
    ensures forall k :: 0 <= k < LANES ==> |AllLanes(data)[k]| == Share(|data|, LANES, k) <= 0x4000_0000
  {
  }

  /** Whatever differences were chosen, the data comes back. */
  lemma DeltaRoundTrip(unpinned: seq<nat> -> Freqs, data: seq<byte>, kind: nat)
    requires kind <= 4 && |data| < WORD
    ensures Decoded(unpinned, Encoded(data, kind)) == Some(data)
  {
    hide PutWord, GetWord, LanesBytes, TakeLanes, Merged, Restored, Difference, AllLanes;
    var s := Encoded(data, kind);
    if data == [] {
      NoLength(s);
    } else {
      var r := Difference(kind, data);
      WordRoundTrip(|data|);
      assert s[2..6] == PutWord(|data|) && s[6..] == LanesBytes(AllLanes(r));
      LanesSmall(r);
      TakesLanes(unpinned, s, 6, AllLanes(r));
      MergedBack(r);
      DifferenceBack(kind, data);
    }
  }

  lemma NoLength(s: seq<byte>)
    requires s == [0, LANES, 0, 0, 0, 0]
    ensures GetWord(s[2..6]) == 0
  {
  }

  // ------------------------------------------------------------ as it runs

  method Differences(kind: nat, data: seq<byte>) returns (r: seq<byte>)
    ensures r == Difference(kind, data)
  {
    hide Less;
    r := [];
    for i := 0 to |data|
      invariant |r| == i && forall k :: 0 <= k < i ==> r[k] == Difference(kind, data)[k]
    {
      r := r + [if Compared(kind, i) then Less(kind, data[i], data[i - Stride(kind)]) else data[i]];
    }
  }

  method Restore(kind: nat, r: seq<byte>) returns (d: seq<byte>)
    ensures d == Restored(kind, r)
  {
    hide More;
    d := [];
    for i := 0 to |r|
      invariant d == Restored(kind, r[..i])
    {
      assert r[..i + 1][..i] == r[..i];
      d := d + [if Compared(kind, i) then More(kind, r[i], d[i - Stride(kind)]) else r[i]];
    }
    assert r[..|r|] == r;
  }

  lemma ShareNext(n: nat, lanes: nat, lane: nat)
    requires lane < lanes
    ensures Share(0, lanes, lane) == 0
    ensures Share(n + 1, lanes, lane) == Share(n, lanes, lane) + if n % lanes == lane then 1 else 0
    ensures n % lanes == lane ==> Share(n, lanes, lane) == n / lanes
  {
    hide Share;
    var q, r := n / lanes, n % lanes;
    assert n == lanes * q + r;
    ShareIs(n, lanes, lane, q, r);
    ShareAfter(n, lanes, lane, q, r);
    ShareIs(0, lanes, lane, 0, 0);
  }

  /** The share by quotient and remainder. */
  lemma ShareIs(n: nat, lanes: nat, lane: nat, q: nat, r: nat)
    requires lane < lanes && r < lanes && n == lanes * q + r
    ensures Share(n, lanes, lane) == q + if lane < r then 1 else 0
  {
    var up := q + if lane < r then 1 else 0;
    var rest := n + lanes - 1 - lane - lanes * up;
    Steps(lanes, q, q);
    assert 0 <= rest < lanes;
    ModUnique(n + lanes - 1 - lane, lanes, up, rest);
  }

  lemma ShareAfter(n: nat, lanes: nat, lane: nat, q: nat, r: nat)
    requires lane < lanes && r < lanes && n == lanes * q + r
    ensures Share(n + 1, lanes, lane) == q + if lane <= r then 1 else 0
  {
    hide Share;
    if r + 1 < lanes {
      ShareIs(n + 1, lanes, lane, q, r + 1);
    } else {
      Steps(lanes, q, q);
      ShareIs(n + 1, lanes, lane, q + 1, 0);
    }
  }

  lemma LaneNext(data: seq<byte>, i: nat, lane: nat)
    requires i < |data| && lane < LANES
    ensures Lane(data[..i + 1], lane) == Lane(data[..i], lane) + if i % LANES == lane then [data[i]] else []
  {
    hide Share;
    ShareNext(i, LANES, lane);
    var longer, shorter := Lane(data[..i + 1], lane), Lane(data[..i], lane);
    forall j | 0 <= j < |shorter| ensures longer[j] == shorter[j] {
      ShareInside(i, LANES, lane, j);
    }
    if i % LANES == lane {
      ShareInside(i + 1, LANES, lane, |shorter|);
      assert i == LANES * (i / LANES) + lane;
    }
  }

  method SplitLanes(data: seq<byte>) returns (lanes: seq<seq<byte>>)
    ensures lanes == AllLanes(data)
  {
    hide Lane;
    lanes := [[], [], [], []];
    NothingDealt(data);
    for i := 0 to |data|
      invariant |lanes| == LANES && forall l :: 0 <= l < LANES ==> lanes[l] == Lane(data[..i], l)
    {
      forall l | 0 <= l < LANES ensures Lane(data[..i + 1], l) == Lane(data[..i], l) + if i % LANES == l then [data[i]] else [] {
        LaneNext(data, i, l);
      }
      var lane := i % LANES;
      lanes := lanes[lane := lanes[lane] + [data[i]]];
    }
    assert data[..|data|] == data;
  }

  lemma NothingDealt(data: seq<byte>)
    ensures forall l :: 0 <= l < LANES ==> Lane(data[..0], l) == []
  {
  }

  /** The next place to read in each lane after `i` bytes. */
  ghost predicate Reached(positions: seq<nat>, i: nat) {
    forall l :: 0 <= l < |positions| ==> positions[l] == Share(i, |positions|, l)
  }

  lemma ReachedStart(positions: seq<nat>)
    requires forall l :: 0 <= l < |positions| ==> positions[l] == 0
    ensures Reached(positions, 0)
  {
    hide Share;
    forall l | 0 <= l < |positions| ensures Share(0, |positions|, l) == 0 {
      ShareNext(0, |positions|, l);
    }
  }

  lemma ReachedNext(positions: seq<nat>, lanes: seq<seq<byte>>, i: nat, lane: nat)
    requires lanes != [] && |positions| == |lanes| && Reached(positions, i) && lane == i % |lanes|
    ensures lane < |lanes| && Reached(positions[lane := positions[lane] + 1], i + 1)
    ensures Has(lanes, i) <==> positions[lane] < |lanes[lane]|
    ensures Has(lanes, i) ==> Dealt(lanes, i) == lanes[lane][positions[lane]]
  {
    hide Share;
    forall l | 0 <= l < |lanes| ensures Share(i + 1, |lanes|, l) == Share(i, |lanes|, l) + (if lane == l then 1 else 0) {
      ShareNext(i, |lanes|, l);
    }
    ShareNext(i, |lanes|, lane);
  }

  /** The program stops with an index error where a lane runs out. */
  method MergeLanes(lanes: seq<seq<byte>>, n: nat) returns (out: Option<seq<byte>>)
    ensures out == Merged(lanes, n)
  {
    hide Reached, Has, Dealt;
    if lanes == [] {
      return if n == 0 then Some([]) else None;
    }
    var positions: seq<nat> := seq(|lanes|, l => 0);
    var merged: seq<byte> := [];
    ReachedStart(positions);
    for i := 0 to n
      invariant |positions| == |lanes| && Reached(positions, i) && |merged| == i
      invariant forall j: nat :: j < i ==> Has(lanes, j) && merged[j] == Dealt(lanes, j)
    {
      var lane := i % |lanes|;
      ReachedNext(positions, lanes, i, lane);
      if positions[lane] >= |lanes[lane]| {
        return None;
      }
      merged := merged + [lanes[lane][positions[lane]]];
      positions := positions[lane := positions[lane] + 1];
    }
    assert Merged(lanes, n).value == merged;
    out := Some(merged);
  }

  /** The differences, the lanes, and each lane under its own table. */
  method Encode(data: seq<byte>, kind: nat) returns (s: seq<byte>)
    requires kind <= 4
    ensures s == Encoded(data, kind)
  {
    hide LaneBytes, Difference, AllLanes, PutWord;
    if data == [] {
      return [0, LANES, 0, 0, 0, 0];
    }
    var r := Differences(kind, data);
    var lanes := SplitLanes(r);
    s := [kind + PINNED, LANES] + PutWord(|data|);
    ghost var goal := s + LanesBytes(lanes);
    assert lanes[0..] == lanes;
    for l := 0 to |lanes|
      invariant s + LanesBytes(lanes[l..]) == goal
    {
      var lane := EncodeLane(lanes[l]);
      FirstLane(lanes[l..]);
      assert lanes[l..][1..] == lanes[l + 1..];
      assert s + (lane + LanesBytes(lanes[l + 1..])) == (s + lane) + LanesBytes(lanes[l + 1..]);
      s := s + lane;
    }
    assert s + [] == s;
  }

  method EncodeLane(lane: seq<byte>) returns (s: seq<byte>)
    ensures s == LaneBytes(lane)
  {
    hide PutWord, CodedBytes, NormalFor, ByteCounts, FreqsFor;
    var counts := CountBytes(lane);
    var words := PutWords(counts);
    if lane == [] {
      assert PutWord(|lane|) + words + PutWord(0) + [] == PutWord(|lane|) + words + PutWord(0);
      return PutWord(|lane|) + words + PutWord(0);
    }
    var freqs, coded := EncodeBytes(lane, counts);
    s := PutWord(|lane|) + words + PutWord(|coded|) + coded;
  }

  method PutWords(list: seq<nat>) returns (s: seq<byte>)
    ensures s == Words(list)
  {
    hide PutWord;
    s := [];
    for k := 0 to |list|
      invariant s == Words(list[..k])
    {
      assert list[..k + 1][..k] == list[..k];
      s := s + PutWord(list[k]);
    }
    assert list[..|list|] == list;
  }

  method Decode(unpinned: seq<nat> -> Freqs, s: seq<byte>) returns (d: Option<seq<byte>>)
    ensures d == Decoded(unpinned, s)
  {
    hide GetWord, TakeLane, Merged, Restored;
    if |s| < 6 {
      return Some([]);
    }
    var n := GetWord(s[2..6]);
    if n == 0 {
      return Some([]);
    }
    var pinned, count: nat, pos: nat := s[0] >= PINNED, s[1], 6;
    var lanes: seq<seq<byte>> := [];
    ghost var goal := TakeLanes(unpinned, pinned, s, pos, count);
    assert goal.Some? ==> lanes + goal.value == goal.value;
    for l := 0 to count
      invariant Joined(lanes, TakeLanes(unpinned, pinned, s, pos, count - l)) == goal
    {
      var lane := DecodeLane(unpinned, pinned, s, pos);
      if lane.None? {
        return None;
      }
      ghost var later := TakeLanes(unpinned, pinned, s, lane.value.1, count - l - 1);
      if later.Some? {
        assert lanes + ([lane.value.0] + later.value) == (lanes + [lane.value.0]) + later.value;
      }
      lanes, pos := lanes + [lane.value.0], lane.value.1;
    }
    assert lanes + [] == lanes;
    var merged := MergeLanes(lanes, n);
    if merged.None? {
      return None;
    }
    var out := Restore(s[0] % PINNED, merged.value);
    d := Some(out);
  }

  ghost function Joined(done: seq<seq<byte>>, later: Option<seq<seq<byte>>>): Option<seq<seq<byte>>> {
    if later.None? then None else Some(done + later.value)
  }

  method DecodeLane(unpinned: seq<nat> -> Freqs, pinned: bool, s: seq<byte>, pos: nat) returns (lane: Option<(seq<byte>, nat)>)
    ensures lane == TakeLane(unpinned, pinned, s, pos)
  {
    hide GetWord, RansDecoded, FrequencyTables.NormalFreqs;
    var symbols, coded := WordFrom(s, pos), WordFrom(s, pos + 4 + COUNTS);
    if coded.None? {
      return None;
    }
    var start := pos + LANE_HEADER;
    if symbols.value == 0 {
      return Some(([], start));
    }
    if start + coded.value > |s| {
      return None;
    }
    var counts := CountsAt(s, pos + 4);
    var freqs: seq<nat>;
    if pinned {
      freqs := FrequencyTables.Normalize(counts);
    } else {
      freqs := unpinned(counts);
    }
    var bytes := OrderZero.Decode(freqs, s[start..start + coded.value], symbols.value);
    if bytes.None? {
      return None;
    }
    lane := Some((bytes.value, start + coded.value));
  }
}
