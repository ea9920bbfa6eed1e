/** Canonical codes from code lengths: when the lengths fit the code space the codes
    fit their lengths and none is a prefix of another. */
module CanonicalCode {
  import opened Arithmetic
  import opened BitStrings
  import opened BitWords
  import opened CodeLengths

  datatype HuffCode = HuffCode(bits: nat, len: nat)

  const NO_CODE := HuffCode(0, 0)

  /** Number of symbols of length `b` below `k`. */
  function Cnt(lens: seq<nat>, b: nat, k: nat): nat
    requires k <= |lens|
    decreases k, b
  {
    if k == 0 then 0 else Cnt(lens, b, k - 1) + if lens[k - 1] == b then 1 else 0
  }

  /** Code space of the symbols below `k` that have a code shorter than `b`. */
  ghost function Shorter(lens: seq<nat>, b: nat, k: nat): nat
    requires k <= |lens|
    decreases k, b
  {
    if k == 0 then 0 else Shorter(lens, b, k - 1) + if 0 < lens[k - 1] < b then Share(lens[k - 1]) else 0
  }

  ghost function Kraft(lens: seq<nat>): nat {
    Shorter(lens, MAX_BITS + 1, |lens|)
  }

  ghost predicate Short(lens: seq<nat>) {
    forall i :: 0 <= i < |lens| ==> lens[i] <= MAX_BITS
  }

  /** The smallest code of length `b`. */
  function FirstCode(lens: seq<nat>, b: nat): nat
    decreases b, lens
  {
    if b == 0 then 0 else 2 * (FirstCode(lens, b - 1) + if b == 1 then 0 else Cnt(lens, b - 1, |lens|))
  }

  function CodeBits(lens: seq<nat>, sym: nat): nat
    requires sym < |lens|
  {
    FirstCode(lens, lens[sym]) + Cnt(lens, lens[sym], sym)
  }

  function Canonical(lens: seq<nat>): (codes: seq<HuffCode>)
    ensures |codes| == |lens|
    ensures forall s :: 0 <= s < |lens| ==> codes[s].len == lens[s]
  {
    seq(|lens|, s requires 0 <= s < |lens| => if lens[s] == 0 then NO_CODE else HuffCode(CodeBits(lens, s), lens[s]))
  }

  function Word(c: HuffCode): seq<bool> {
    Msb(c.bits, c.len)
  }

  // ------------------------------------------------------------ slots of the code space

  lemma {:induction false} ShorterNext(lens: seq<nat>, b: nat, k: nat)
    requires k <= |lens| && 1 <= b <= MAX_BITS
    ensures Shorter(lens, b + 1, k) == Shorter(lens, b, k) + Cnt(lens, b, k) * Share(b)
    decreases k
  {
    if k > 0 {
      ShorterNext(lens, b, k - 1);
      if lens[k - 1] == b {
        assert (Cnt(lens, b, k - 1) + 1) * Share(b) == Cnt(lens, b, k - 1) * Share(b) + Share(b);
      }
    }
  }

  lemma {:induction false} ShorterMonotone(lens: seq<nat>, b: nat, c: nat, k: nat)
    requires k <= |lens| && b <= c
    ensures Shorter(lens, b, k) <= Shorter(lens, c, k)
    decreases k
  {
    if k > 0 {
      ShorterMonotone(lens, b, c, k - 1);
    }
  }

  lemma {:induction false} ShorterThanOne(lens: seq<nat>, k: nat)
    requires k <= |lens|
    ensures Shorter(lens, 1, k) == 0
    decreases k
  {
    if k > 0 {
      ShorterThanOne(lens, k - 1);
    }
  }

  /** The smallest code of a length starts where the shorter codes end. */
  lemma {:induction false} FirstCodeSlot(lens: seq<nat>, b: nat)
    requires 1 <= b <= MAX_BITS
    ensures FirstCode(lens, b) * Share(b) == Shorter(lens, b, |lens|)
    decreases b
  {
    hide Cnt, Shorter, Share;
    if b == 1 {
      ShorterThanOne(lens, |lens|);
      assert FirstCode(lens, 1) == 0;
    } else {
      FirstCodeSlot(lens, b - 1);
      ShorterNext(lens, b - 1, |lens|);
      var f, c, s := FirstCode(lens, b - 1), Cnt(lens, b - 1, |lens|), Share(b);
      ShareHalves(b - 1);
      MulAdd(f, c, 2 * s);
      assert 2 * (f + c) * s == (f + c) * (2 * s);
    }
  }

  lemma ShareHalves(b: nat)
    requires b < MAX_BITS
    ensures Share(b) == 2 * Share(b + 1)
  {
  }

  /** Where the slot of `sym` starts in the code space. */
  ghost function Slot(lens: seq<nat>, sym: nat): nat
    requires sym < |lens|
  {
    CodeBits(lens, sym) * Share(lens[sym])
  }

  lemma SlotIs(lens: seq<nat>, sym: nat)
    requires sym < |lens| && 1 <= lens[sym] <= MAX_BITS
    ensures var b := lens[sym];
            Slot(lens, sym) == Shorter(lens, b, |lens|) + Cnt(lens, b, sym) * Share(b)
  {
    hide Cnt, Shorter, Share, FirstCode;
    var b := lens[sym];
    FirstCodeSlot(lens, b);
    MulAdd(FirstCode(lens, b), Cnt(lens, b, sym), Share(b));
  }

  lemma {:induction false} CntMonotone(lens: seq<nat>, b: nat, i: nat, k: nat)
    requires i <= k <= |lens|
    ensures Cnt(lens, b, i) <= Cnt(lens, b, k)
    decreases k
  {
    if i < k {
      CntMonotone(lens, b, i, k - 1);
    }
  }

  lemma SlotEnd(lens: seq<nat>, sym: nat)
    requires sym < |lens| && 1 <= lens[sym] <= MAX_BITS
    ensures Slot(lens, sym) + Share(lens[sym]) <= Shorter(lens, lens[sym] + 1, |lens|)
  {
    hide Shorter, Share, Slot, FirstCode;
    var b := lens[sym];
    SlotIs(lens, sym);
    ShorterNext(lens, b, |lens|);
    CntMonotone(lens, b, sym + 1, |lens|);
    MulLe(Cnt(lens, b, sym) + 1, Cnt(lens, b, |lens|), Share(b), Share(b));
    MulAdd(Cnt(lens, b, sym), 1, Share(b));
  }

  predicate Earlier(lens: seq<nat>, a: nat, b: nat)
    requires a < |lens| && b < |lens|
  {
    lens[a] < lens[b] || (lens[a] == lens[b] && a < b)
  }

  lemma SlotStartsAfter(lens: seq<nat>, sym: nat)
    requires sym < |lens| && 1 <= lens[sym] <= MAX_BITS
    ensures Slot(lens, sym) >= Shorter(lens, lens[sym], |lens|)
  {
    hide Cnt, Shorter, Share, Slot;
    SlotIs(lens, sym);
    MulLe(0, Cnt(lens, lens[sym], sym), 0, Share(lens[sym]));
  }

  /** Slots follow one another without overlap, by length and then by symbol. */
  lemma SlotsDisjoint(lens: seq<nat>, a: nat, b: nat)
    requires a < |lens| && b < |lens| && 1 <= lens[a] <= MAX_BITS && 1 <= lens[b] <= MAX_BITS
    requires Earlier(lens, a, b)
    ensures Slot(lens, a) + Share(lens[a]) <= Slot(lens, b)
  {
    hide Shorter, Share, Slot, FirstCode;
    SlotIs(lens, a);
    SlotIs(lens, b);
    SlotStartsAfter(lens, b);
    if lens[a] < lens[b] {
      SlotEnd(lens, a);
      ShorterMonotone(lens, lens[a] + 1, lens[b], |lens|);
    } else {
      var l := lens[a];
      CntMonotone(lens, l, a + 1, b);
      MulLe(Cnt(lens, l, a) + 1, Cnt(lens, l, b), Share(l), Share(l));
      MulAdd(Cnt(lens, l, a), 1, Share(l));
    }
  }

  lemma SlotInside(lens: seq<nat>, sym: nat)
    requires sym < |lens| && 1 <= lens[sym] <= MAX_BITS
    ensures Slot(lens, sym) + Share(lens[sym]) <= Kraft(lens)
  {
    SlotEnd(lens, sym);
    ShorterMonotone(lens, lens[sym] + 1, MAX_BITS + 1, |lens|);
  }

  /** Every code fits in its length. */
  lemma CodesFit(lens: seq<nat>, sym: nat)
    requires sym < |lens| && 1 <= lens[sym] <= MAX_BITS && Kraft(lens) <= KRAFT_ONE
    ensures CodeBits(lens, sym) < Pow2(lens[sym])
  {
    hide CodeBits, Kraft, Share, Pow2;
    var l, c := lens[sym], CodeBits(lens, sym);
    SlotInside(lens, sym);
    KraftSplit(l);
    if c >= Pow2(l) {
      MulLe(Pow2(l), c, Share(l), Share(l));
    }
  }

  lemma KraftSplit(l: nat)
    requires l <= MAX_BITS
    ensures Pow2(l) * Share(l) == KRAFT_ONE
  {
    Pow2Add(l, MAX_BITS - l);
    Pow2Add(8, 7);
    assert Pow2(8) == 256 && Pow2(7) == 128;
  }

  /** No code is a prefix of another. */
  lemma PrefixFree(lens: seq<nat>, a: nat, b: nat)
    requires Short(lens) && Kraft(lens) <= KRAFT_ONE
    requires a < |lens| && b < |lens| && a != b && lens[a] > 0 && lens[b] > 0
    ensures !(Word(Canonical(lens)[a]) <= Word(Canonical(lens)[b]))
  {
    hide Slot, Kraft, CodeBits, Msb, Share, Pow2;
    if Word(Canonical(lens)[a]) <= Word(Canonical(lens)[b]) {
      PrefixMeansOverlap(lens, a, b);
      SlotsApart(lens, a, b);
    }
  }

  lemma PrefixMeansOverlap(lens: seq<nat>, a: nat, b: nat)
    requires Short(lens) && Kraft(lens) <= KRAFT_ONE && a < |lens| && b < |lens| && lens[a] > 0 && lens[b] > 0
    requires Word(Canonical(lens)[a]) <= Word(Canonical(lens)[b])
    ensures Slot(lens, a) <= Slot(lens, b) < Slot(lens, a) + Share(lens[a])
    ensures lens[a] <= lens[b]
  {
    hide Slot, Kraft, CodeBits, Msb, Share, Pow2;
    CodesFit(lens, a);
    CodesFit(lens, b);
    PrefixValue(CodeBits(lens, a), lens[a], CodeBits(lens, b), lens[b]);
    SlotsOverlap(lens, a, b);
  }

  lemma SlotsApart(lens: seq<nat>, a: nat, b: nat)
    requires Short(lens) && a < |lens| && b < |lens| && a != b && lens[a] > 0 && lens[b] > 0
    ensures Slot(lens, a) + Share(lens[a]) <= Slot(lens, b) || Slot(lens, b) + Share(lens[b]) <= Slot(lens, a)
    ensures Share(lens[b]) > 0
  {
    hide Slot;
    if Earlier(lens, a, b) {
      SlotsDisjoint(lens, a, b);
    } else {
      SlotsDisjoint(lens, b, a);
    }
  }

  lemma SlotsOverlap(lens: seq<nat>, a: nat, b: nat)
    requires a < |lens| && b < |lens| && lens[a] <= lens[b] <= MAX_BITS
    requires var p := Pow2(lens[b] - lens[a]); CodeBits(lens, a) * p <= CodeBits(lens, b) < (CodeBits(lens, a) + 1) * p
    ensures Slot(lens, a) <= Slot(lens, b) < Slot(lens, a) + Share(lens[a])
  {
    hide CodeBits, Share, Pow2;
    var ca, cb, p, s := CodeBits(lens, a), CodeBits(lens, b), Pow2(lens[b] - lens[a]), Share(lens[b]);
    ShareSplit(lens[a], lens[b]);
    MulLe(ca * p, cb, s, s);
    MulLe(cb + 1, (ca + 1) * p, s, s);
    MulAssoc(ca, p, s);
    MulAssoc(ca + 1, p, s);
    MulAdd(ca, 1, p * s);
    MulAdd(cb, 1, s);
  }

  lemma ShareSplit(la: nat, lb: nat)
    requires la <= lb <= MAX_BITS
    ensures Share(la) == Pow2(lb - la) * Share(lb)
  {
    Pow2Add(lb - la, MAX_BITS - lb);
  }

  // ------------------------------------------------------------ the Kraft test

  lemma {:induction false} KraftIsTaken(lens: seq<nat>, s: set<nat>, k: nat)
    requires Short(lens) && k <= |lens| && forall i :: 0 <= i < |lens| ==> (i in s <==> lens[i] > 0)
    ensures Shorter(lens, MAX_BITS + 1, k) == Taken(lens, s, k)
  {
    if k > 0 {
      KraftIsTaken(lens, s, k - 1);
    }
  }

  lemma {:induction false} ShorterPrefix(lens: seq<nat>, b: nat, i: nat, k: nat)
    requires i <= k <= |lens|
    ensures Shorter(lens, b, i) <= Shorter(lens, b, k)
    decreases k
  {
    if i < k {
      ShorterPrefix(lens, b, i, k - 1);
    }
  }

  /** `lengths_are_prefix_free`. */
  method LengthsArePrefixFree(lengths: seq<nat>) returns (ok: bool)
    ensures ok <==> Short(lengths) && Kraft(lengths) <= KRAFT_ONE
  {
    hide Share;
    var weight := 0;
    for i := 0 to |lengths|
      invariant forall j :: 0 <= j < i ==> lengths[j] <= MAX_BITS
      invariant weight == Shorter(lengths, MAX_BITS + 1, i) <= KRAFT_ONE
    {
      var len := lengths[i];
      if len != 0 {
        if len > MAX_BITS {
          return false;
        }
        weight := weight + Share(len);
        if weight > KRAFT_ONE {
          ShorterPrefix(lengths, MAX_BITS + 1, i + 1, |lengths|);
          return false;
        }
      }
    }
    ok := true;
  }

  /** The test is exact: lengths of at most 15 bits pass it just when all their codes fit. */
  lemma KraftTestExact(lens: seq<nat>)
    requires Short(lens)
    ensures Kraft(lens) <= KRAFT_ONE <==>
            forall s :: 0 <= s < |lens| && lens[s] > 0 ==> CodeBits(lens, s) < Pow2(lens[s])
  {
    hide CodeBits, Shorter, Share, Pow2;
    if Kraft(lens) <= KRAFT_ONE {
      forall s | 0 <= s < |lens| && lens[s] > 0 ensures CodeBits(lens, s) < Pow2(lens[s]) {
        CodesFit(lens, s);
      }
    } else {
      var s := LastSlot(lens, MAX_BITS);
      var l, c := lens[s], CodeBits(lens, s);
      KraftSplit(l);
      MulAdd(c, 1, Share(l));
      if c < Pow2(l) {
        MulLe(c + 1, Pow2(l), Share(l), Share(l));
      }
    }
  }

  /** The last slot ends where the code space taken ends. */
  lemma {:induction false} LastSlot(lens: seq<nat>, b: nat) returns (s: nat)
    requires b <= MAX_BITS && Shorter(lens, b + 1, |lens|) > 0
    ensures s < |lens| && 1 <= lens[s] <= b && Slot(lens, s) + Share(lens[s]) == Shorter(lens, b + 1, |lens|)
    decreases b
  {
    hide Shorter, Cnt, Share, Slot;
    if b == 0 {
      ShorterThanOne(lens, |lens|);
      assert false;
    } else {
      ShorterNext(lens, b, |lens|);
      if Cnt(lens, b, |lens|) == 0 {
        s := LastSlot(lens, b - 1);
      } else {
        s := LastOfLength(lens, b, |lens|);
        SlotIs(lens, s);
        MulAdd(Cnt(lens, b, s), 1, Share(b));
      }
    }
  }

  lemma {:induction false} LastOfLength(lens: seq<nat>, b: nat, k: nat) returns (s: nat)
    requires k <= |lens| && Cnt(lens, b, k) > 0
    ensures s < k && lens[s] == b && Cnt(lens, b, s) + 1 == Cnt(lens, b, k)
    decreases k
  {
    if lens[k - 1] == b {
      s := k - 1;
    } else {
      s := LastOfLength(lens, b, k - 1);
    }
  }

  // ------------------------------------------------------------ assigning codes

  method MaxOf(lengths: seq<nat>) returns (m: nat)
    ensures forall i :: 0 <= i < |lengths| ==> lengths[i] <= m
    ensures m == 0 || m in lengths
  {
    m := 0;
    for i := 0 to |lengths|
      invariant forall j :: 0 <= j < i ==> lengths[j] <= m
      invariant m == 0 || m in lengths
    {
      if lengths[i] > m {
        m := lengths[i];
      }
    }
  }

  /** `canonical_codes`: symbols past the lengths get no code. */
  method CanonicalCodes(lengths: seq<nat>, maxSymbols: nat) returns (codes: seq<HuffCode>)
    requires |lengths| <= maxSymbols
    ensures |codes| == maxSymbols && codes[..|lengths|] == Canonical(lengths)
    ensures forall s :: |lengths| <= s < maxSymbols ==> codes[s] == NO_CODE
  {
    hide Cnt, FirstCode;
    var n := |lengths|;
    codes := seq(maxSymbols, i => NO_CODE);
    var maxLen := MaxOf(lengths);
    if maxLen == 0 {
      return;
    }
    var nextCode := StartingCodes(lengths, maxLen);
    CntStart(lengths);
    for sym := 0 to n
      invariant |codes| == maxSymbols && forall s :: sym <= s < maxSymbols ==> codes[s] == NO_CODE
      invariant forall s :: 0 <= s < sym ==> codes[s] == Canonical(lengths)[s]
      invariant nextCode.Length == maxLen + 1
      invariant forall b :: 1 <= b <= maxLen ==> nextCode[b] == FirstCode(lengths, b) + Cnt(lengths, b, sym)
    {
      var len := lengths[sym];
      CntNext(lengths, sym);
      if len > 0 {
        codes := codes[sym := HuffCode(nextCode[len], len)];
        nextCode[len] := nextCode[len] + 1;
      }
    }
  }

  lemma CntStart(lens: seq<nat>)
    ensures forall b: nat :: Cnt(lens, b, 0) == 0
  {
  }

  lemma CntNext(lens: seq<nat>, k: nat)
    requires k < |lens|
    ensures forall b: nat :: Cnt(lens, b, k + 1) == Cnt(lens, b, k) + if lens[k] == b then 1 else 0
  {
  }

  lemma FirstCodeNext(lens: seq<nat>, b: nat)
    ensures FirstCode(lens, 0) == 0
    ensures b > 0 ==> FirstCode(lens, b) == 2 * (FirstCode(lens, b - 1) + if b == 1 then 0 else Cnt(lens, b - 1, |lens|))
  {
  }

  method StartingCodes(lengths: seq<nat>, maxLen: nat) returns (nextCode: array<nat>)
    requires forall i :: 0 <= i < |lengths| ==> lengths[i] <= maxLen
    requires maxLen > 0
    ensures fresh(nextCode) && nextCode.Length == maxLen + 1
    ensures forall b :: 1 <= b <= maxLen ==> nextCode[b] == FirstCode(lengths, b)
  {
    hide Cnt, FirstCode;
    var blCount := new nat[maxLen + 1](i => 0);
    CntStart(lengths);
    for i := 0 to |lengths|
      invariant blCount[0] == 0
      invariant forall b :: 1 <= b <= maxLen ==> blCount[b] == Cnt(lengths, b, i)
    {
      CntNext(lengths, i);
      if lengths[i] > 0 {
        blCount[lengths[i]] := blCount[lengths[i]] + 1;
      }
    }
    nextCode := new nat[maxLen + 1](i => 0);
    var code := 0;
    FirstCodeNext(lengths, 0);
    for bits := 1 to maxLen + 1
      invariant code == FirstCode(lengths, bits - 1)
      invariant blCount[0] == 0 && forall b :: 1 <= b <= maxLen ==> blCount[b] == Cnt(lengths, b, |lengths|)
      invariant forall b :: 1 <= b < bits ==> nextCode[b] == FirstCode(lengths, b)
    {
      FirstCodeNext(lengths, bits);
      code := 2 * (code + blCount[bits - 1]);
      nextCode[bits] := code;
    }
  }
}
