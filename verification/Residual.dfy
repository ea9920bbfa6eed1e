/** The residual codecs of the minimum-description masks: what each writes for a bit
    string, how many bits that takes, and how it reads back. */
module Residual {
  import opened Arithmetic
  import opened Bytes
  import opened BitStrings
  import opened BitWords
  import opened Sequences
  import opened MsbStream
  import opened Binomials
  import opened Enumerative
  import opened CarrylessCoder
  import opened OrderZero
  import Rans
  import BchResidual

  /** The largest block, in bits. */
  const MAX_BLOCK: nat := 524288
  const ENUM_MAX_T: nat := 1024
  const RICE_K_BITS: nat := 4
  const FREQ_BITS: nat := 13

  datatype Codec = Raw | Rle | SparsePos | RiceGaps | Enum | Bch | Arith | StaticRans

  type Taken = Option<(seq<bool>, seq<bool>)>

  function Weight(e: seq<bool>): nat {
    |Ones(e)|
  }

  lemma {:induction false} WeightBound(e: seq<bool>)
    ensures Weight(e) <= |e|
  {
    if e != [] {
      WeightBound(e[..|e| - 1]);
    }
  }

  /** Every count a residual writes fits a gamma code. */
  lemma SmallFits(v: nat)
    requires v < 0x1_0000_0000
    ensures v < Pow2(32) < Pow2(64)
  {
    hide Pow2;
    Pow8();
    Pow2Add(8, 8);
    Pow2Add(16, 16);
    Pow2Add(32, 32);
    MulLe(2, Pow2(32), Pow2(32), Pow2(32));
  }

  // ------------------------------------------------------------ runs

  /** Length of the first run of `v`. */
  function Lead(e: seq<bool>, v: bool): (n: nat)
    ensures n <= |e| && (forall k :: 0 <= k < n ==> e[k] == v) && (n < |e| ==> e[n] != v)
  {
    if e == [] || e[0] != v then 0 else 1 + Lead(e[1..], v)
  }

  /** Lengths of the maximal runs, in order. */
  function Runs(e: seq<bool>): (r: seq<nat>)
    ensures forall k :: 0 <= k < |r| ==> 1 <= r[k] <= |e|
    ensures |r| <= |e| && (e != [] ==> r != [])
    decreases |e|
  {
    if e == [] then [] else [Lead(e, e[0])] + Runs(e[Lead(e, e[0])..])
  }

  function Same(v: bool, n: nat): (s: seq<bool>)
    ensures |s| == n && forall k :: 0 <= k < n ==> s[k] == v
  {
    seq(n, k => v)
  }

  function Gammas(r: seq<nat>): seq<bool>
    requires forall k :: 0 <= k < |r| ==> r[k] >= 1
  {
    if r == [] then [] else Gamma(r[0]) + Gammas(r[1..])
  }

  /** All runs but the last are written; the last is implied by the block length. */
  function ButLast(r: seq<nat>): (s: seq<nat>)
    ensures forall k :: 0 <= k < |s| ==> s[k] in r
  {
    if r == [] then [] else r[..|r| - 1]
  }

  function RleBits(e: seq<bool>): seq<bool> {
    Gamma(|Runs(e)| + 1) + [e != [] && e[0]] + Gammas(ButLast(Runs(e)))
  }

  /** `left` runs still to come after the bits of `out`, the next of value `v`. */
  function TakeRuns(s: seq<bool>, left: nat, n: nat, out: seq<bool>, v: bool): Taken
    requires |out| <= n
    decreases left
  {
    if left == 0 then if |out| == n then Some((out, s)) else None
    else
      var next: Option<(nat, seq<bool>)> := if left > 1 then TakeGamma(s, 0) else Some((n - |out|, s));
      match next
      case None => None
      case Some((run, rest)) =>
        if run == 0 || |out| + run > n then None
        else TakeRuns(rest, left - 1, n, out + Same(v, run), !v)
  }

  function TakeRle(s: seq<bool>, n: nat): Taken {
    match TakeGamma(s, 0)
    case None => None
    case Some((g, rest)) => if rest == [] then None else TakeRuns(rest[1..], g - 1, n, [], rest[0])
  }

  /** The first run and what is left after it. */
  lemma RunsStep(e: seq<bool>, p: nat)
    requires p < |e|
    ensures var q := p + Lead(e[p..], e[p]);
      && p < q <= |e|
      && Runs(e[p..]) == [q - p] + Runs(e[q..])
      && e[..p] + Same(e[p], q - p) == e[..q]
      && (q < |e| ==> e[q] == !e[p] && Runs(e[q..]) != [])
  {
    hide Lead;
    var rest := e[p..];
    var run := Lead(rest, e[p]);
    LeadPositive(rest);
    RunsUnfold(rest);
    var q := p + run;
    assert rest[run..] == e[q..];
    forall k | p <= k < q ensures e[k] == e[p] {
      assert e[k] == rest[k - p];
    }
    assert e[..p] + Same(e[p], run) == e[..q];
    assert q < |e| ==> e[q] == rest[run];
  }

  lemma LeadPositive(e: seq<bool>)
    requires e != []
    ensures Lead(e, e[0]) > 0
  {
  }

  lemma RunsUnfold(e: seq<bool>)
    requires e != []
    ensures Runs(e) == [Lead(e, e[0])] + Runs(e[Lead(e, e[0])..])
  {
  }

  lemma TakeLastRun(s: seq<bool>, n: nat, out: seq<bool>, v: bool)
    requires |out| < n
    ensures TakeRuns(s, 1, n, out, v) == Some((out + Same(v, n - |out|), s))
  {
    assert TakeRuns(s, 0, n, out + Same(v, n - |out|), !v) == Some((out + Same(v, n - |out|), s));
  }

  lemma TakeFirstRun(run: nat, s: seq<bool>, left: nat, n: nat, out: seq<bool>, v: bool)
    requires left > 1 && 1 <= run && |out| + run <= n <= MAX_BLOCK
    ensures TakeRuns(Gamma(run) + s, left, n, out, v) == TakeRuns(s, left - 1, n, out + Same(v, run), !v)
  {
    hide Gamma, TakeGamma, Pow2, BitLength;
    SmallFits(run);
    GammaBack(run, s);
  }

  lemma GammasStep(run: nat, later: seq<nat>, tail: seq<bool>)
    requires run >= 1 && later != [] && forall k :: 0 <= k < |later| ==> later[k] >= 1
    ensures forall k :: 0 <= k < |ButLast([run] + later)| ==> ButLast([run] + later)[k] >= 1
    ensures Gammas(ButLast([run] + later)) + tail == Gamma(run) + (Gammas(ButLast(later)) + tail)
  {
    hide Gamma;
    assert ButLast([run] + later) == [run] + ButLast(later);
    assert ([run] + ButLast(later))[1..] == ButLast(later);
  }

  lemma {:induction false} RunsBack(e: seq<bool>, p: nat, tail: seq<bool>)
    requires p < |e| && |e| <= MAX_BLOCK
    ensures TakeRuns(Gammas(ButLast(Runs(e[p..]))) + tail, |Runs(e[p..])|, |e|, e[..p], e[p]) == Some((e, tail))
    decreases |e| - p
  {
    hide Gamma, TakeRuns, Lead, Gammas, ButLast, Runs;
    RunsStep(e, p);
    var q := p + Lead(e[p..], e[p]);
    if q == |e| {
      TakeLastRun(tail, |e|, e[..p], e[p]);
      NoRuns(q - p, tail);
      assert Runs(e[q..]) == [] && e[..q] == e;
      assert Runs(e[p..]) == [q - p];
    } else {
      var later := Runs(e[q..]);
      GammasStep(q - p, later, tail);
      TakeFirstRun(q - p, Gammas(ButLast(later)) + tail, 1 + |later|, |e|, e[..p], e[p]);
      RunsBack(e, q, tail);
    }
  }

  lemma NoRuns(run: nat, tail: seq<bool>)
    ensures ButLast([run]) == [] && Gammas(ButLast([run])) + tail == tail
  {
  }

  lemma RleBack(e: seq<bool>, tail: seq<bool>)
    requires |e| <= MAX_BLOCK
    ensures TakeRle(RleBits(e) + tail, |e|) == Some((e, tail))
  {
    hide Gamma, TakeGamma, Runs, Gammas, TakeRuns, ButLast, Pow2, BitLength;
    var r := Runs(e);
    SmallFits(|r| + 1);
    var first := e != [] && e[0];
    var rest := Gammas(ButLast(r)) + tail;
    GammaBack(|r| + 1, [first] + rest);
    assert RleBits(e) + tail == Gamma(|r| + 1) + ([first] + rest);
    assert ([first] + rest)[1..] == rest;
    if e != [] {
      RunsBack(e, 0, tail);
      assert e[0..] == e && e[..0] == [];
    } else {
      NoRunsAtAll(tail);
    }
  }

  lemma NoRunsAtAll(tail: seq<bool>)
    ensures Runs([]) == [] && ButLast([]) == [] && Gammas([]) + tail == tail
    ensures TakeRuns(tail, 0, 0, [], false) == Some(([], tail))
  {
  }

  // ------------------------------------------------------------ positions

  function FieldWidth(n: nat): nat {
    if n <= 1 then 0 else BitLength(n - 1)
  }

  function Fields(ones: seq<nat>, width: nat): seq<bool> {
    if ones == [] then [] else Msb(ones[0], width) + Fields(ones[1..], width)
  }

  function SparseBits(e: seq<bool>): seq<bool> {
    Gamma(Weight(e) + 1) + Fields(Ones(e), FieldWidth(|e|))
  }

  /** The bitmap of a list of positions. */
  function Marked(n: nat, ones: seq<nat>): (e: seq<bool>)
    ensures |e| == n
  {
    seq(n, i => i in ones)
  }

  function TakeFields(s: seq<bool>, left: nat, width: nat, n: nat, ones: seq<nat>): Taken
    decreases left
  {
    if left == 0 then Some((Marked(n, ones), s))
    else
      match TakeNat(s, width)
      case None => None
      case Some((p, rest)) =>
        if p >= n || (ones != [] && p <= ones[|ones| - 1]) then None
        else TakeFields(rest, left - 1, width, n, ones + [p])
  }

  function TakeSparse(s: seq<bool>, n: nat): Taken {
    match TakeGamma(s, 0)
    case None => None
    case Some((g, rest)) => TakeFields(rest, g - 1, FieldWidth(n), n, [])
  }

  lemma MarkedBack(e: seq<bool>)
    ensures Marked(|e|, Ones(e)) == e
  {
    OnesAscend(e);
  }

  lemma FieldFits(p: nat, n: nat)
    requires p < n
    ensures p < Pow2(FieldWidth(n))
  {
  }

  lemma {:induction false} FieldsBack(e: seq<bool>, k: nat, tail: seq<bool>)
    requires k <= Weight(e)
    ensures TakeFields(Fields(Ones(e)[k..], FieldWidth(|e|)) + tail, Weight(e) - k, FieldWidth(|e|), |e|, Ones(e)[..k])
         == Some((e, tail))
    decreases Weight(e) - k
  {
    hide Ones, Msb, FieldWidth, TakeNat, Marked;
    var ones, width := Ones(e), FieldWidth(|e|);
    if k == Weight(e) {
      MarkedBack(e);
      assert ones[..k] == ones && ones[k..] == [] && Fields([], width) + tail == tail;
    } else {
      OnesAscend(e);
      FieldFits(ones[k], |e|);
      var later := Fields(ones[k + 1..], width) + tail;
      assert ones[k..][1..] == ones[k + 1..];
      assert Fields(ones[k..], width) + tail == Msb(ones[k], width) + later;
      TakeBack(ones[k], width, later);
      assert ones[..k] + [ones[k]] == ones[..k + 1];
      FieldsBack(e, k + 1, tail);
    }
  }

  lemma SparseBack(e: seq<bool>, tail: seq<bool>)
    requires |e| <= MAX_BLOCK
    ensures TakeSparse(SparseBits(e) + tail, |e|) == Some((e, tail))
  {
    hide Gamma, TakeGamma, FieldWidth, Ones, Fields, TakeFields, BitLength, Pow2;
    WeightBound(e);
    SmallFits(Weight(e) + 1);
    var rest := Fields(Ones(e), FieldWidth(|e|)) + tail;
    GammaBack(Weight(e) + 1, rest);
    assert SparseBits(e) + tail == Gamma(Weight(e) + 1) + rest;
    FieldsBack(e, 0, tail);
    assert Ones(e)[0..] == Ones(e) && Ones(e)[..0] == [];
  }

  // ------------------------------------------------------------ gaps

  /** The zeros before each set bit; `next` is the first position not yet passed. */
  function GapCodes(ones: seq<nat>, next: nat, k: nat): seq<bool> {
    if ones == [] || ones[0] < next then []
    else Rice(ones[0] - next, k) + GapCodes(ones[1..], ones[0] + 1, k)
  }

  function GapCost(ones: seq<nat>, next: nat, k: nat): nat {
    if ones == [] || ones[0] < next then 0
    else Shr(ones[0] - next, k) + 1 + k + GapCost(ones[1..], ones[0] + 1, k)
  }

  /** The first cheapest of the parameters below `n`. */
  function BestBelow(ones: seq<nat>, n: nat): (k: nat)
    requires n > 0
    ensures k < n && forall j: nat :: j < n ==> GapCost(ones, 0, k) <= GapCost(ones, 0, j)
  {
    if n == 1 then 0
    else
      var k := BestBelow(ones, n - 1);
      if GapCost(ones, 0, n - 1) < GapCost(ones, 0, k) then n - 1 else k
  }

  function BestK(ones: seq<nat>): (k: nat)
    ensures k < 16
  {
    BestBelow(ones, 16)
  }

  function RiceBits(e: seq<bool>): seq<bool> {
    Gamma(Weight(e) + 1) +
    if Weight(e) == 0 then [] else Msb(BestK(Ones(e)), RICE_K_BITS) + GapCodes(Ones(e), 0, BestK(Ones(e)))
  }

  function TakeGaps(s: seq<bool>, left: nat, k: nat, n: nat, next: nat, ones: seq<nat>): Taken
    decreases left
  {
    if left == 0 then Some((Marked(n, ones), s))
    else
      match TakeRice(s, 0, k)
      case None => None
      case Some((gap, rest)) =>
        if next + gap >= n then None
        else TakeGaps(rest, left - 1, k, n, next + gap + 1, ones + [next + gap])
  }

  function TakeRiceGaps(s: seq<bool>, n: nat): Taken {
    match TakeGamma(s, 0)
    case None => None
    case Some((g, rest)) =>
      if g == 1 then Some((Marked(n, []), rest))
      else
        match TakeNat(rest, RICE_K_BITS)
        case None => None
        case Some((k, gaps)) => TakeGaps(gaps, g - 1, k, n, 0, [])
  }

  lemma {:induction false} GapsBack(e: seq<bool>, i: nat, k: nat, next: nat, tail: seq<bool>)
    requires i <= Weight(e) && next == if i == 0 then 0 else Ones(e)[i - 1] + 1
    ensures TakeGaps(GapCodes(Ones(e)[i..], next, k) + tail, Weight(e) - i, k, |e|, next, Ones(e)[..i]) == Some((e, tail))
    decreases Weight(e) - i
  {
    hide Ones, Msb, TakeRice, Rice, Marked;
    var ones := Ones(e);
    if i == Weight(e) {
      MarkedBack(e);
      assert ones[..i] == ones && ones[i..] == [] && GapCodes([], next, k) + tail == tail;
    } else {
      OnesAscend(e);
      assert i > 0 ==> ones[i - 1] < ones[i];
      var later := GapCodes(ones[i + 1..], ones[i] + 1, k) + tail;
      assert ones[i..][1..] == ones[i + 1..];
      assert GapCodes(ones[i..], next, k) + tail == Rice(ones[i] - next, k) + later;
      RiceBack(ones[i] - next, k, later);
      assert ones[..i] + [ones[i]] == ones[..i + 1];
      GapsBack(e, i + 1, k, ones[i] + 1, tail);
    }
  }

  lemma RiceGapsBack(e: seq<bool>, tail: seq<bool>)
    requires |e| <= MAX_BLOCK
    ensures TakeRiceGaps(RiceBits(e) + tail, |e|) == Some((e, tail))
  {
    hide Gamma, TakeGamma, Ones, GapCodes, TakeGaps, BitLength, Pow2, Msb, TakeNat, BestK;
    WeightBound(e);
    SmallFits(Weight(e) + 1);
    if Weight(e) == 0 {
      GammaBack(1, tail);
      MarkedBack(e);
      assert Ones(e) == [] && Gamma(1) + [] == Gamma(1);
    } else {
      var k := BestK(Ones(e));
      var gaps := GapCodes(Ones(e), 0, k) + tail;
      GammaBack(Weight(e) + 1, Msb(k, RICE_K_BITS) + gaps);
      assert RiceBits(e) + tail == Gamma(Weight(e) + 1) + (Msb(k, RICE_K_BITS) + gaps);
      Pow4();
      TakeBack(k, RICE_K_BITS, gaps);
      GapsBack(e, 0, k, 0, tail);
      assert Ones(e)[0..] == Ones(e) && Ones(e)[..0] == [];
    }
  }

  lemma Pow4()
    ensures Pow2(RICE_K_BITS) == 16
  {
  }

  // ------------------------------------------------------------ ranks

  /** Bits for any rank among the subsets of `t` positions of `n`. */
  function RankField(n: nat, t: nat): nat {
    if C(n, t) == 0 then 0 else BitLength(C(n, t) - 1)
  }

  ghost function EnumBits(e: seq<bool>): seq<bool> {
    Gamma(Weight(e) + 1) + Msb(RankOf(e), RankField(|e|, Weight(e)))
  }

  ghost predicate HasRank(e: seq<bool>, n: nat, t: nat, rank: nat) {
    |e| == n && Weight(e) == t && RankOf(e) == rank
  }

  ghost function Unranked(n: nat, t: nat, rank: nat): Option<seq<bool>> {
    if exists e :: HasRank(e, n, t, rank) then
      var e :| HasRank(e, n, t, rank);
      Some(e)
    else None
  }

  lemma UnrankedIs(e: seq<bool>)
    ensures Unranked(|e|, Weight(e), RankOf(e)) == Some(e)
  {
    assert HasRank(e, |e|, Weight(e), RankOf(e));
    var f := Unranked(|e|, Weight(e), RankOf(e)).value;
    OnesAscend(e);
    OnesAscend(f);
    RankInjective(Ones(e), Ones(f), |e|);
    OnesDetermine(e, f);
  }

  lemma RankFits(e: seq<bool>)
    ensures RankOf(e) < C(|e|, Weight(e))
    ensures RankOf(e) < Pow2(RankField(|e|, Weight(e)))
  {
    hide C, Ones;
    OnesAscend(e);
    var t := Weight(e);
    RankBelow(Ones(e), t, |e|);
    assert C(|e|, t) - 1 == 0 ==> Pow2(RankField(|e|, t)) >= 1;
  }

  ghost function TakeEnum(s: seq<bool>, n: nat): Taken {
    match TakeGamma(s, 0)
    case None => None
    case Some((g, rest)) =>
      if g - 1 > n then None
      else
        match TakeNat(rest, RankField(n, g - 1))
        case None => None
        case Some((rank, later)) =>
          match Unranked(n, g - 1, rank)
          case None => None
          case Some(e) => Some((e, later))
  }

  lemma EnumBack(e: seq<bool>, tail: seq<bool>)
    requires |e| <= MAX_BLOCK
    ensures TakeEnum(EnumBits(e) + tail, |e|) == Some((e, tail))
  {
    hide Gamma, TakeGamma, Ones, BitLength, Pow2, Msb, TakeNat, RankField, Unranked;
    WeightBound(e);
    SmallFits(Weight(e) + 1);
    var field := Msb(RankOf(e), RankField(|e|, Weight(e)));
    GammaBack(Weight(e) + 1, field + tail);
    assert EnumBits(e) + tail == Gamma(Weight(e) + 1) + (field + tail);
    RankFits(e);
    TakeBack(RankOf(e), RankField(|e|, Weight(e)), tail);
    UnrankedIs(e);
  }

  // ------------------------------------------------------------ adaptive arithmetic coding

  /** Counts of zeros and ones after a 0 and after a 1, and the bit before. */
  datatype Kt = Kt(after0: (nat, nat), after1: (nat, nat), prev: bool)

  const KT_START := Kt((0, 0), (0, 0), false)

  /** (n1 + 1/2) / (n0 + n1 + 1) in sixteen bits, kept off both ends. */
  function KtP1(counts: (nat, nat)): P1 {
    var p := (2 * counts.1 + 1) * 0x1_0000 / (2 * (counts.0 + counts.1) + 2);
    if p < 1 then 1 else if p > 65535 then 65535 else p
  }

  function Counts(m: Kt): (nat, nat) {
    if m.prev then m.after1 else m.after0
  }

  function Counted(c: (nat, nat), bit: bool): (nat, nat) {
    if bit then (c.0, c.1 + 1) else (c.0 + 1, c.1)
  }

  function Seen(m: Kt, bit: bool): Kt {
    if m.prev then Kt(m.after0, Counted(m.after1, bit), bit) else Kt(Counted(m.after0, bit), m.after1, bit)
  }

  function KtChoices(m: Kt, e: seq<bool>): (cs: seq<Choice>)
    ensures |cs| == |e|
    decreases |e|
  {
    if e == [] then [] else [Choice(e[0], KtP1(Counts(m)))] + KtChoices(Seen(m, e[0]), e[1..])
  }

  /** The model after the bits. */
  function SeenAll(m: Kt, e: seq<bool>): Kt
    decreases |e|
  {
    if e == [] then m else Seen(SeenAll(m, e[..|e| - 1]), e[|e| - 1])
  }

  /** How often, in `e`, the bit `y` follows the bit `x`; a zero stands before the first. */
  function Follows(e: seq<bool>, x: bool, y: bool): nat
    decreases |e|
  {
    if e == [] then 0
    else
      var n := |e| - 1;
      Follows(e[..n], x, y) + if e[n] == y && x == (n > 0 && e[n - 1]) then 1 else 0
  }

  /** The model counts which bit followed which. */
  lemma {:induction false} KtCounts(e: seq<bool>)
    ensures var m := SeenAll(KT_START, e);
      && m.after0 == (Follows(e, false, false), Follows(e, false, true))
      && m.after1 == (Follows(e, true, false), Follows(e, true, true))
      && m.prev == (e != [] && e[|e| - 1])
    decreases |e|
  {
    if e != [] {
      KtCounts(e[..|e| - 1]);
    }
  }

  lemma {:induction false} SeenFirst(m: Kt, e: seq<bool>)
    requires e != []
    ensures SeenAll(m, e) == SeenAll(Seen(m, e[0]), e[1..])
    decreases |e|
  {
    hide Seen;
    var n := |e| - 1;
    if n == 0 {
      assert e[..0] == [] && e[1..] == [];
    } else {
      SeenFirst(m, e[..n]);
      assert e[..n][1..] == e[1..][..n - 1];
    }
  }

  /** Every bit is coded with the probability its own past gives it. */
  lemma {:induction false} KtChoiceAt(m: Kt, e: seq<bool>, i: nat)
    requires i < |e|
    ensures KtChoices(m, e)[i] == Choice(e[i], KtP1(Counts(SeenAll(m, e[..i]))))
    decreases i
  {
    hide KtP1, Seen, Counts;
    if i > 0 {
      KtChoiceAt(Seen(m, e[0]), e[1..], i - 1);
      assert e[1..][..i - 1] == e[..i][1..];
      SeenFirst(m, e[..i]);
    } else {
      assert e[..0] == [];
    }
  }

  /** A bit counted is expected more the next time. */
  lemma KtToward(c: (nat, nat), bit: bool)
    ensures if bit then KtP1(Counted(c, bit)) >= KtP1(c) else KtP1(Counted(c, bit)) <= KtP1(c)
  {
    var a, b := (2 * c.1 + 1) * 0x1_0000, 2 * (c.0 + c.1) + 2;
    var a', b' := a + (if bit then 2 * 0x1_0000 else 0), b + 2;
    if bit {
      RatioOrder(a, b, a', b');
    } else {
      RatioOrder(a', b', a, b);
    }
  }

  lemma RatioOrder(a: nat, b: nat, c: nat, d: nat)
    requires b > 0 && d > 0 && a * d <= c * b
    ensures a / b <= c / d
  {
    var q, r := a / b, c / d;
    assert a == b * q + a % b && c == d * r + c % d;
    if q > r {
      MulLe(r + 1, q, b, b);
      MulAdd(r, 1, b);
      MulLe(b * (r + 1), a, d, d);
      MulAssoc(r + 1, b, d);
      MulLe(c + 1, d * (r + 1), b, b);
      MulAdd(c, 1, b);
    }
  }

  function ArithBytes(e: seq<bool>): seq<byte> {
    Finish(PutAll(START, KtChoices(KT_START, e)))
  }

  function ArithBits(e: seq<bool>): seq<bool> {
    Gamma(|ArithBytes(e)| + 1) + BytesBits(ArithBytes(e))
  }

  function KtRead(r: Reader, m: Kt, n: nat): seq<bool>
    requires Split(r.x1, r.x2)
    decreases n
  {
    if n == 0 then []
    else
      var p := KtP1(Counts(m));
      [NextBit(r, p)] + KtRead(AfterBit(r, p), Seen(m, NextBit(r, p)), n - 1)
  }

  lemma {:induction false} KtReadsBack(r: Reader, m: Kt, e: seq<bool>)
    requires Split(r.x1, r.x2) && Reads(r, KtChoices(m, e))
    ensures KtRead(r, m, |e|) == e
    decreases |e|
  {
    hide Reads, KtP1, NextBit, AfterBit;
    if e != [] {
      var cs := KtChoices(m, e);
      ReadsNext(r, cs);
      assert cs[1..] == KtChoices(Seen(m, e[0]), e[1..]);
      KtReadsBack(AfterBit(r, cs[0].p1), Seen(m, e[0]), e[1..]);
    }
  }

  /** The bytes whose bits these are; a last byte in part is filled with zeros. */
  function Packed(b: seq<bool>): (s: seq<byte>)
    ensures |s| == (|b| + 7) / 8
    decreases |b|
  {
    Pow8();
    if b == [] then []
    else if |b| < 8 then [FromMsb(b + Zeros(8 - |b|))]
    else [FromMsb(b[..8])] + Packed(b[8..])
  }

  lemma BytesBitsCons(b: byte, s: seq<byte>)
    ensures BytesBits([b] + s) == Msb(b, 8) + BytesBits(s)
  {
    BytesBitsConcat([b], s);
    BytesBitsSnoc([], b);
    assert [] + [b] == [b] && BytesBits([]) + Msb(b, 8) == Msb(b, 8);
  }

  lemma {:induction false} BytesBitsConcat(a: seq<byte>, b: seq<byte>)
    ensures BytesBits(a + b) == BytesBits(a) + BytesBits(b)
  {
    hide Msb;
    if b == [] {
      assert a + b == a;
    } else {
      var n := |b| - 1;
      assert a + b == (a + b[..n]) + [b[n]];
      BytesBitsSnoc(a + b[..n], b[n]);
      BytesBitsConcat(a, b[..n]);
      assert (BytesBits(a) + BytesBits(b[..n])) + Msb(b[n], 8) == BytesBits(a) + BytesBits(b);
    }
  }

  lemma {:induction false} PackedBits(b: seq<bool>)
    ensures b <= BytesBits(Packed(b))
    ensures |b| % 8 == 0 ==> BytesBits(Packed(b)) == b
    decreases |b|
  {
    hide Msb, FromMsb, BytesBits, Pow2, Zeros;
    NoBytes();
    Pow8();
    if b == [] {
    } else if |b| < 8 {
      var whole := b + Zeros(8 - |b|);
      MsbOfFrom(whole);
      BytesBitsCons(FromMsb(whole), []);
      assert [FromMsb(whole) as byte] + [] == Packed(b);
    } else {
      MsbOfFrom(b[..8]);
      PackedBits(b[8..]);
      BytesBitsCons(FromMsb(b[..8]), Packed(b[8..]));
      assert b == b[..8] + b[8..];
    }
  }

  lemma {:induction false} PackedBytes(s: seq<byte>)
    ensures Packed(BytesBits(s)) == s
    decreases |s|
  {
    hide Msb, FromMsb, Pow2;
    if s == [] {
    } else {
      BytesBitsCons(s[0], s[1..]);
      assert s == [s[0]] + s[1..];
      Pow8();
      FromMsbOf(s[0], 8);
      assert BytesBits(s)[..8] == Msb(s[0], 8) && BytesBits(s)[8..] == BytesBits(s[1..]);
      PackedBytes(s[1..]);
    }
  }

  function TakeBytes(s: seq<bool>, n: nat): Option<(seq<byte>, seq<bool>)> {
    if 8 * n > |s| then None else Some((Packed(s[..8 * n]), s[8 * n..]))
  }

  lemma TakeBytesBack(data: seq<byte>, tail: seq<bool>)
    ensures TakeBytes(BytesBits(data) + tail, |data|) == Some((data, tail))
  {
    hide Packed, BytesBits;
    PackedBytes(data);
    var s := BytesBits(data) + tail;
    assert s[..8 * |data|] == BytesBits(data) && s[8 * |data|..] == tail;
  }

  function TakeArith(s: seq<bool>, n: nat): Taken {
    match TakeGamma(s, 0)
    case None => None
    case Some((g, rest)) =>
      match TakeBytes(rest, g - 1)
      case None => None
      case Some((data, later)) => Some((KtRead(Opened(data), KT_START, n), later))
  }

  lemma ArithSize(e: seq<bool>)
    requires |e| <= MAX_BLOCK
    ensures |ArithBytes(e)| + 1 < 0x1_0000_0000
  {
    PutAllSize(START, KtChoices(KT_START, e));
  }

  lemma ArithBack(e: seq<bool>, tail: seq<bool>)
    requires |e| <= MAX_BLOCK
    ensures TakeArith(ArithBits(e) + tail, |e|) == Some((e, tail))
  {
    hide Gamma, TakeGamma, BitLength, Pow2, BytesBits, TakeBytes, KtRead, KtChoices, ArithBytes;
    var data := ArithBytes(e);
    ArithSize(e);
    SmallFits(|data| + 1);
    GammaBack(|data| + 1, BytesBits(data) + tail);
    assert ArithBits(e) + tail == Gamma(|data| + 1) + (BytesBits(data) + tail);
    TakeBytesBack(data, tail);
    ArithReads(e);
  }

  lemma ArithReads(e: seq<bool>)
    ensures KtRead(Opened(ArithBytes(e)), KT_START, |e|) == e
  {
    OpenedReads(KtChoices(KT_START, e));
    KtReadsBack(Opened(ArithBytes(e)), KT_START, e);
  }

  // ------------------------------------------------------------ static rANS over the packed bytes

  /** The normalised frequencies of the packed bytes. */
  ghost function FreqsOf(e: seq<bool>): seq<nat> {
    NormalFor(Packed(e))
  }

  lemma FreqsOfCover(e: seq<bool>)
    requires e != []
    ensures FreqsFor(FreqsOf(e), Packed(e))
  {
    PackedPrefix(e);
    NormalForCovers(Packed(e));
  }

  ghost function RansBytes(e: seq<bool>, freqs: seq<nat>): seq<byte>
    requires FreqsFor(freqs, Packed(e))
  {
    CodedBytes(Packed(e), freqs)
  }

  ghost function RansBits(e: seq<bool>, freqs: seq<nat>): seq<bool>
    requires FreqsFor(freqs, Packed(e))
  {
    Fields(freqs, FREQ_BITS) + Gamma(|RansBytes(e, freqs)| + 1) + BytesBits(RansBytes(e, freqs))
  }

  function TakeList(s: seq<bool>, left: nat, width: nat): Option<(seq<nat>, seq<bool>)>
    decreases left
  {
    if left == 0 then Some(([], s))
    else
      match TakeNat(s, width)
      case None => None
      case Some((v, rest)) =>
        match TakeList(rest, left - 1, width)
        case None => None
        case Some((later, end)) => Some(([v] + later, end))
  }

  ghost function TakeRansPayload(freqs: seq<nat>, s: seq<bool>, n: nat): Taken
    requires |freqs| == 256
  {
    match TakeGamma(s, 0)
    case None => None
    case Some((g, more)) =>
      match TakeBytes(more, g - 1)
      case None => None
      case Some((data, later)) =>
        match RansDecoded(freqs, data, (n + 7) / 8)
        case None => None
        case Some(bytes) => if |bytes| == (n + 7) / 8 then Some((BytesBits(bytes)[..n], later)) else None
  }

  ghost function TakeRans(s: seq<bool>, n: nat): Taken {
    match TakeList(s, 256, FREQ_BITS)
    case None => None
    case Some((freqs, rest)) =>
      ListLength(s, 256, FREQ_BITS);
      TakeRansPayload(freqs, rest, n)
  }

  lemma {:induction false} ListLength(s: seq<bool>, left: nat, width: nat)
    requires TakeList(s, left, width).Some?
    ensures |TakeList(s, left, width).value.0| == left
    decreases left
  {
    if left > 0 {
      ListLength(TakeNat(s, width).value.1, left - 1, width);
    }
  }

  lemma {:induction false} ListBack(list: seq<nat>, width: nat, tail: seq<bool>)
    requires forall k :: 0 <= k < |list| ==> list[k] < Pow2(width)
    ensures TakeList(Fields(list, width) + tail, |list|, width) == Some((list, tail))
    decreases |list|
  {
    hide Msb, Pow2, TakeNat;
    if list == [] {
      assert Fields([], width) + tail == tail;
    } else {
      var later := Fields(list[1..], width) + tail;
      assert Fields(list, width) + tail == Msb(list[0], width) + later;
      TakeBack(list[0], width, later);
      ListBack(list[1..], width, tail);
      assert [list[0]] + list[1..] == list;
    }
  }

  lemma FreqFits(freqs: seq<nat>, k: nat)
    requires |freqs| == 256 && Rans.SumTo(freqs, 256) == Rans.TOTAL && k < 256
    ensures freqs[k] <= Rans.TOTAL
    ensures freqs[k] < Pow2(FREQ_BITS)
  {
    Rans.SumMonotone(freqs, k + 1, 256);
    Pow8();
    Pow2Add(8, 5);
  }

  lemma RansReads(e: seq<bool>, freqs: seq<nat>)
    requires FreqsFor(freqs, Packed(e)) && |e| <= MAX_BLOCK
    ensures |RansBytes(e, freqs)| + 1 < 0x1_0000_0000
    ensures RansDecoded(freqs, RansBytes(e, freqs), (|e| + 7) / 8) == Some(Packed(e))
  {
    hide Packed, RansDecoded, FreqsFor, CodedBytes;
    PackedPrefix(e);
    CodedReadsBack(Packed(e), freqs);
  }

  lemma RansBack(e: seq<bool>, freqs: seq<nat>, tail: seq<bool>)
    requires FreqsFor(freqs, Packed(e)) && |e| <= MAX_BLOCK
    ensures TakeRans(RansBits(e, freqs) + tail, |e|) == Some((e, tail))
  {
    hide *;
    RansListed(e, freqs, tail);
    RansPayloadBack(e, freqs, tail);
    TakeRansIs(RansBits(e, freqs) + tail, |e|);
  }

  lemma RansPayloadBack(e: seq<bool>, freqs: seq<nat>, tail: seq<bool>)
    requires FreqsFor(freqs, Packed(e)) && |e| <= MAX_BLOCK
    ensures |freqs| == 256
    ensures TakeRansPayload(freqs, Gamma(|RansBytes(e, freqs)| + 1) + (BytesBits(RansBytes(e, freqs)) + tail), |e|)
         == Some((e, tail))
  {
    hide *;
    RansReads(e, freqs);
    FreqsSum(freqs, Packed(e));
    PackedPrefix(e);
    RansPayload(freqs, RansBytes(e, freqs), tail, |e|, Packed(e));
  }

  lemma TakeRansIs(s: seq<bool>, n: nat)
    requires TakeList(s, 256, FREQ_BITS).Some? && |TakeList(s, 256, FREQ_BITS).value.0| == 256
    ensures TakeRans(s, n) == TakeRansPayload(TakeList(s, 256, FREQ_BITS).value.0, TakeList(s, 256, FREQ_BITS).value.1, n)
  {
    hide TakeRansPayload, TakeList;
  }

  lemma RansPayload(freqs: seq<nat>, data: seq<byte>, tail: seq<bool>, n: nat, bytes: seq<byte>)
    requires |data| + 1 < 0x1_0000_0000 && |freqs| == 256
    requires |bytes| == (n + 7) / 8 && RansDecoded(freqs, data, (n + 7) / 8) == Some(bytes)
    ensures TakeRansPayload(freqs, Gamma(|data| + 1) + (BytesBits(data) + tail), n) == Some((BytesBits(bytes)[..n], tail))
  {
    hide Gamma, TakeGamma, TakeBytes, BytesBits, RansDecoded, BitLength, Pow2;
    SmallFits(|data| + 1);
    GammaBack(|data| + 1, BytesBits(data) + tail);
    TakeBytesBack(data, tail);
  }

  lemma RansListed(e: seq<bool>, freqs: seq<nat>, tail: seq<bool>)
    requires FreqsFor(freqs, Packed(e))
    ensures |freqs| == 256
    ensures TakeList(RansBits(e, freqs) + tail, 256, FREQ_BITS)
         == Some((freqs, Gamma(|RansBytes(e, freqs)| + 1) + (BytesBits(RansBytes(e, freqs)) + tail)))
  {
    hide Gamma, BitLength, Pow2, BytesBits, TakeList, RansBytes, FreqsFor, Packed, Fields, RansBits;
    FreqsSum(freqs, Packed(e));
    forall k | 0 <= k < 256 ensures freqs[k] < Pow2(FREQ_BITS) {
      FreqFits(freqs, k);
    }
    ListBack(freqs, FREQ_BITS, Gamma(|RansBytes(e, freqs)| + 1) + (BytesBits(RansBytes(e, freqs)) + tail));
    RansShape(e, freqs, tail);
  }

  lemma PackedPrefix(e: seq<bool>)
    ensures |e| <= |BytesBits(Packed(e))| && BytesBits(Packed(e))[..|e|] == e
    ensures |Packed(e)| == (|e| + 7) / 8
  {
    hide Packed, BytesBits;
    PackedBits(e);
  }

  lemma RansShape(e: seq<bool>, freqs: seq<nat>, tail: seq<bool>)
    requires FreqsFor(freqs, Packed(e))
    ensures var data := RansBytes(e, freqs);
      RansBits(e, freqs) + tail == Fields(freqs, FREQ_BITS) + (Gamma(|data| + 1) + (BytesBits(data) + tail))
  {
    hide Fields, Gamma, BytesBits, RansBytes, FreqsFor, Packed;
  }

  // ------------------------------------------------------------ all of them

  /** A codec represents a residual: ranking only sparse or co-sparse ones, remainders only those
      a code corrects, rANS only non-empty ones. */
  predicate Applies(codec: Codec, e: seq<bool>) {
    match codec
    case Enum => Weight(e) <= ENUM_MAX_T || |e| - Weight(e) <= ENUM_MAX_T
    case Bch => BchResidual.Light(e)
    case StaticRans => e != []
    case _ => true
  }

  /** What the codec writes for `e`. */
  ghost predicate Codes(codec: Codec, e: seq<bool>, s: seq<bool>) {
    Applies(codec, e) &&
    match codec
    case Raw => s == e
    case Rle => s == RleBits(e)
    case SparsePos => s == SparseBits(e)
    case RiceGaps => s == RiceBits(e)
    case Enum => s == EnumBits(e)
    case Bch => BchResidual.BchBits(e, s)
    case Arith => s == ArithBits(e)
    case StaticRans =>
      FreqsOfCover(e);
      s == RansBits(e, FreqsOf(e))
  }

  function TakeRaw(s: seq<bool>, n: nat): Taken {
    if n > |s| then None else Some((s[..n], s[n..]))
  }

  ghost function Take(codec: Codec, s: seq<bool>, n: nat): Taken {
    match codec
    case Raw => TakeRaw(s, n)
    case Rle => TakeRle(s, n)
    case SparsePos => TakeSparse(s, n)
    case RiceGaps => TakeRiceGaps(s, n)
    case Enum => TakeEnum(s, n)
    case Bch => BchResidual.TakeBch(s, n)
    case Arith => TakeArith(s, n)
    case StaticRans => TakeRans(s, n)
  }

  /** Every codec reads back exactly the residual it wrote and stops where it ended. */
  lemma ResidualRoundTrip(codec: Codec, e: seq<bool>, s: seq<bool>, tail: seq<bool>)
    requires |e| <= MAX_BLOCK && Codes(codec, e, s)
    ensures Take(codec, s + tail, |e|) == Some((e, tail))
  {
    hide TakeRle, TakeSparse, TakeRiceGaps, TakeEnum, TakeArith, TakeRans, RleBits, SparseBits, RiceBits, EnumBits, ArithBits, RansBits;
    hide BchResidual.TakeBch, BchResidual.BchBits, BchResidual.Light;
    match codec
    case Raw => assert (s + tail)[..|e|] == e && (s + tail)[|e|..] == tail;
    case Rle => RleBack(e, tail);
    case SparsePos => SparseBack(e, tail);
    case RiceGaps => RiceGapsBack(e, tail);
    case Enum => EnumBack(e, tail);
    case Bch => BchResidual.BchBack(e, s, tail);
    case Arith => ArithBack(e, tail);
    case StaticRans =>
      FreqsOfCover(e);
      RansBack(e, FreqsOf(e), tail);
  }

  /** A residual that is read has the length asked for. */
  lemma TakenLength(codec: Codec, s: seq<bool>, n: nat)
    requires Take(codec, s, n).Some?
    ensures |Take(codec, s, n).value.0| == n
  {
    hide TakeGamma, TakeNat, TakeRice, TakeBytes, TakeList, RansDecoded, RankField, BytesBits;
    hide BchResidual.TakeBch, TakeRuns, TakeFields, TakeGaps, KtRead;
    match codec
    case Raw =>
    case Rle =>
      var rest := TakeGamma(s, 0).value.1;
      RunsLength(rest[1..], TakeGamma(s, 0).value.0 - 1, n, [], rest[0]);
    case SparsePos => FieldsLength(TakeGamma(s, 0).value.1, TakeGamma(s, 0).value.0 - 1, FieldWidth(n), n, []);
    case RiceGaps =>
      var (g, rest) := TakeGamma(s, 0).value;
      if g > 1 {
        var (k, gaps) := TakeNat(rest, RICE_K_BITS).value;
        GapsLength(gaps, g - 1, k, n, 0, []);
      }
    case Enum =>
    case Bch => BchResidual.BchTaken(s, n);
    case Arith =>
      var (g, rest) := TakeGamma(s, 0).value;
      KtLength(Opened(TakeBytes(rest, g - 1).value.0), KT_START, n);
    case StaticRans =>
  }

  lemma {:induction false} RunsLength(s: seq<bool>, left: nat, n: nat, out: seq<bool>, v: bool)
    requires |out| <= n && TakeRuns(s, left, n, out, v).Some?
    ensures |TakeRuns(s, left, n, out, v).value.0| == n
    decreases left
  {
    hide TakeGamma;
    if left > 0 {
      var next: (nat, seq<bool>) := if left > 1 then TakeGamma(s, 0).value else (n - |out|, s);
      RunsLength(next.1, left - 1, n, out + Same(v, next.0), !v);
    }
  }

  lemma {:induction false} FieldsLength(s: seq<bool>, left: nat, width: nat, n: nat, ones: seq<nat>)
    requires TakeFields(s, left, width, n, ones).Some?
    ensures |TakeFields(s, left, width, n, ones).value.0| == n
    decreases left
  {
    if left > 0 {
      var (p, rest) := TakeNat(s, width).value;
      FieldsLength(rest, left - 1, width, n, ones + [p]);
    }
  }

  lemma {:induction false} GapsLength(s: seq<bool>, left: nat, k: nat, n: nat, next: nat, ones: seq<nat>)
    requires TakeGaps(s, left, k, n, next, ones).Some?
    ensures |TakeGaps(s, left, k, n, next, ones).value.0| == n
    decreases left
  {
    if left > 0 {
      var (gap, rest) := TakeRice(s, 0, k).value;
      GapsLength(rest, left - 1, k, n, next + gap + 1, ones + [next + gap]);
    }
  }

  lemma {:induction false} KtLength(r: Reader, m: Kt, n: nat)
    requires Split(r.x1, r.x2)
    ensures |KtRead(r, m, n)| == n
    decreases n
  {
    if n > 0 {
      var bit := NextBit(r, KtP1(Counts(m)));
      KtLength(AfterBit(r, KtP1(Counts(m))), Seen(m, bit), n - 1);
    }
  }

  // ------------------------------------------------------------ cost

  function GammaCost(v: nat): nat
    requires v >= 1
  {
    2 * BitLength(v) - 1
  }

  function GammasCost(r: seq<nat>): nat
    requires forall k :: 0 <= k < |r| ==> r[k] >= 1
  {
    if r == [] then 0 else GammaCost(r[0]) + GammasCost(r[1..])
  }

  function RleCost(e: seq<bool>): nat {
    GammaCost(|Runs(e)| + 1) + 1 + GammasCost(ButLast(Runs(e)))
  }

  function RiceCost(e: seq<bool>): nat {
    GammaCost(Weight(e) + 1)
    + if Weight(e) == 0 then 0 else RICE_K_BITS + GapCost(Ones(e), 0, BestK(Ones(e)))
  }

  function SparseCost(e: seq<bool>): nat {
    assert Weight(e) * FieldWidth(|e|) >= 0;
    GammaCost(Weight(e) + 1) + Weight(e) * FieldWidth(|e|)
  }

  /** The declared size; none where the codec does not represent the residual. */
  ghost function Cost(codec: Codec, e: seq<bool>): (cost: Option<nat>)
    ensures cost.Some? <==> Applies(codec, e)
  {
    match codec
    case Raw => Some(|e|)
    case Rle => Some(RleCost(e))
    case SparsePos => Some(SparseCost(e))
    case RiceGaps => Some(RiceCost(e))
    case Enum => if Applies(Enum, e) then Some(GammaCost(Weight(e) + 1) + RankField(|e|, Weight(e))) else None
    case Bch => if BchResidual.Light(e) then Some(GammaCost(Weight(e) + 1) + BchResidual.RemainderBits(e)) else None
    case Arith => Some(BytesCost(ArithBytes(e)))
    case StaticRans =>
      if e == [] then None
      else
        FreqsOfCover(e);
        Some(256 * FREQ_BITS + BytesCost(RansBytes(e, FreqsOf(e))))
  }

  /** Bytes behind their count. */
  function BytesCost(data: seq<byte>): nat {
    GammaCost(|data| + 1) + 8 * |data|
  }

  lemma {:induction false} GammasSize(r: seq<nat>)
    requires forall k :: 0 <= k < |r| ==> r[k] >= 1
    ensures |Gammas(r)| == GammasCost(r)
  {
    if r != [] {
      GammasSize(r[1..]);
    }
  }

  lemma {:induction false} FieldsSize(ones: seq<nat>, width: nat)
    ensures |Fields(ones, width)| == |ones| * width
  {
    if ones != [] {
      FieldsSize(ones[1..], width);
      MulAdd(|ones| - 1, 1, width);
    }
  }

  lemma {:induction false} GapsSize(ones: seq<nat>, next: nat, k: nat)
    ensures |GapCodes(ones, next, k)| == GapCost(ones, next, k)
    decreases |ones|
  {
    if ones != [] && ones[0] >= next {
      GapsSize(ones[1..], ones[0] + 1, k);
    }
  }

  lemma {:induction false} BytesSize(data: seq<byte>)
    ensures |BytesBits(data)| == 8 * |data|
  {
  }

  lemma RansSize(e: seq<bool>, freqs: seq<nat>)
    requires FreqsFor(freqs, Packed(e))
    ensures |RansBits(e, freqs)| == 256 * FREQ_BITS + BytesCost(RansBytes(e, freqs))
  {
    hide RansBytes, Packed, BytesBits, BitLength;
    FieldsSize(freqs, FREQ_BITS);
    BytesSize(RansBytes(e, freqs));
  }

  lemma PositionsSize(e: seq<bool>)
    ensures |SparseBits(e)| == SparseCost(e) && |RiceBits(e)| == RiceCost(e)
  {
    hide Ones, BitLength, BestK, Fields, GapCodes, GapCost, FieldWidth;
    FieldsSize(Ones(e), FieldWidth(|e|));
    GapsSize(Ones(e), 0, BestK(Ones(e)));
  }

  lemma RleSize(e: seq<bool>)
    ensures |RleBits(e)| == RleCost(e)
  {
    hide BitLength, Runs, Gammas, GammasCost;
    GammasSize(ButLast(Runs(e)));
  }

  lemma PackedSize(e: seq<bool>)
    ensures |EnumBits(e)| == GammaCost(Weight(e) + 1) + RankField(|e|, Weight(e))
    ensures |ArithBits(e)| == BytesCost(ArithBytes(e))
  {
    hide Ones, BitLength, RankField, ArithBytes;
    BytesSize(ArithBytes(e));
  }

  lemma CodeSize(e: seq<bool>, s: seq<bool>)
    requires BchResidual.BchBits(e, s)
    ensures BchResidual.Light(e) && |s| == GammaCost(Weight(e) + 1) + BchResidual.RemainderBits(e)
  {
    hide Ones, BitLength, BchResidual.Light, BchResidual.RemainderBits;
    BchResidual.BchSize(e, s);
  }

  /** Each residual takes exactly the bits its cost declares. */
  lemma CostIsSize(codec: Codec, e: seq<bool>, s: seq<bool>)
    requires Codes(codec, e, s)
    ensures Cost(codec, e) == Some(|s|)
  {
    hide Weight, GammaCost, RankField, RleCost, SparseCost, RiceCost, BytesCost, ArithBytes, RansBytes, FreqsOf, FreqsFor, Packed;
    hide RleBits, SparseBits, RiceBits, EnumBits, ArithBits, RansBits;
    hide BchResidual.BchBits, BchResidual.Light, BchResidual.RemainderBits;
    match codec
    case Raw =>
    case Rle => RleSize(e);
    case SparsePos => PositionsSize(e);
    case RiceGaps => PositionsSize(e);
    case Enum => PackedSize(e);
    case Bch => CodeSize(e, s);
    case Arith => PackedSize(e);
    case StaticRans =>
      FreqsOfCover(e);
      RansSize(e, FreqsOf(e));
  }
}
