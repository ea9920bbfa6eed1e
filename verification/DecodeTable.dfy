/** The lookup table that decodes one symbol from the next bits of the stream. */
module DecodeTable {
  import opened Arithmetic
  import opened BitStrings
  import opened BitWords
  import opened CodeLengths
  import opened CanonicalCode
  import opened Sequences

  ghost predicate Matches(c: HuffCode, bits: seq<bool>) {
    c.len > 0 && Word(c) <= bits
  }

  /** The codes as decoding needs them: at most 15 bits, none a prefix of another. */
  ghost predicate Decodable(codes: seq<HuffCode>) {
    && (forall s :: 0 <= s < |codes| ==> codes[s].len <= MAX_BITS)
    && (forall a, b :: 0 <= a < |codes| && 0 <= b < |codes| && a != b && codes[a].len > 0 && codes[b].len > 0 ==>
          !(Word(codes[a]) <= Word(codes[b])))
  }

  lemma CanonicalDecodable(lens: seq<nat>)
    requires Short(lens) && Kraft(lens) <= KRAFT_ONE
    ensures Decodable(Canonical(lens))
  {
    hide Kraft, Word;
    forall a, b | 0 <= a < |lens| && 0 <= b < |lens| && a != b && lens[a] > 0 && lens[b] > 0
      ensures !(Word(Canonical(lens)[a]) <= Word(Canonical(lens)[b]))
    {
      PrefixFree(lens, a, b);
    }
  }

  /** The symbol whose code comes next, if any. */
  ghost function NextSymbol(codes: seq<HuffCode>, bits: seq<bool>): (s: Option<nat>)
    ensures s.Some? ==> s.value < |codes| && Matches(codes[s.value], bits)
    ensures s.None? ==> forall i :: 0 <= i < |codes| ==> !Matches(codes[i], bits)
  {
    if i: nat :| i < |codes| && Matches(codes[i], bits) then Some(i) else None
  }

  lemma OnlyMatch(codes: seq<HuffCode>, bits: seq<bool>, a: nat, b: nat)
    requires Decodable(codes) && a < |codes| && b < |codes| && Matches(codes[a], bits) && Matches(codes[b], bits)
    ensures a == b
  {
    hide Word;
    PrefixesNest(Word(codes[a]), Word(codes[b]), bits);
  }

  lemma PrefixesNest(x: seq<bool>, y: seq<bool>, bits: seq<bool>)
    requires x <= bits && y <= bits
    ensures x <= y || y <= x
  {
  }

  lemma NextSymbolIs(codes: seq<HuffCode>, bits: seq<bool>, s: nat)
    requires Decodable(codes) && s < |codes| && Matches(codes[s], bits)
    ensures NextSymbol(codes, bits) == Some(s)
  {
    OnlyMatch(codes, bits, NextSymbol(codes, bits).value, s);
  }

  // ------------------------------------------------------------ the table

  const SYMBOL_LIMIT: nat := 0x1_0000

  /** What the table holds at `idx` once the first `k` symbols are entered: length above,
      symbol below, of the last one whose code the index starts with. */
  ghost function Entry(codes: seq<HuffCode>, maxLen: nat, idx: nat, k: nat): nat
    requires k <= |codes|
    decreases k, idx
  {
    if k == 0 then 0
    else if Matches(codes[k - 1], Lsb(idx, maxLen)) then codes[k - 1].len * SYMBOL_LIMIT + (k - 1)
    else Entry(codes, maxLen, idx, k - 1)
  }

  lemma {:induction false} EntryMatches(codes: seq<HuffCode>, maxLen: nat, idx: nat, k: nat)
    requires k <= |codes| <= SYMBOL_LIMIT
    ensures Entry(codes, maxLen, idx, k) == 0 ==> forall s :: 0 <= s < k ==> !Matches(codes[s], Lsb(idx, maxLen))
    ensures var e := Entry(codes, maxLen, idx, k);
            e != 0 ==> e % SYMBOL_LIMIT < k && e / SYMBOL_LIMIT == codes[e % SYMBOL_LIMIT].len
                       && Matches(codes[e % SYMBOL_LIMIT], Lsb(idx, maxLen))
    decreases k
  {
    hide Lsb, Word;
    if k > 0 && !Matches(codes[k - 1], Lsb(idx, maxLen)) {
      EntryMatches(codes, maxLen, idx, k - 1);
    }
  }

  /** The indices that start with a code are its reversed bits plus multiples of 2^len. */
  lemma IndexMatches(c: HuffCode, maxLen: nat, idx: nat)
    requires 0 < c.len <= maxLen && idx < Pow2(maxLen)
    ensures Matches(c, Lsb(idx, maxLen)) <==> idx % Pow2(c.len) == Mirrored(0, c.bits, c.len)
  {
    hide Lsb, Msb, Pow2;
    var p := Pow2(c.len);
    ReverseForStream(c.bits, c.len);
    Divide(idx, p);
    SplitIndex(idx, idx % p, idx / p, p, c.len, maxLen);
    SameLow(idx % p, Mirrored(0, c.bits, c.len), c.len);
  }

  lemma SplitIndex(idx: nat, lo: nat, hi: nat, p: nat, k: nat, maxLen: nat)
    requires k <= maxLen && p == Pow2(k) && lo < p && idx == lo + hi * p
    ensures Lsb(idx, maxLen)[..k] == Lsb(lo, k)
  {
    LsbSplit(lo, hi, k, maxLen - k);
  }

  lemma SameLow(a: nat, b: nat, k: nat)
    requires a < Pow2(k) && b < Pow2(k)
    ensures Lsb(a, k) == Lsb(b, k) <==> a == b
  {
    ValueOfLsb(a, k);
    ValueOfLsb(b, k);
  }

  lemma Divide(v: nat, p: nat)
    requires p > 0
    ensures v == v % p + v / p * p && v % p < p
  {
    assert v == p * (v / p) + v % p;
  }

  /** The length of the longest code, at least 1. */
  function Longest(codes: seq<HuffCode>): (m: nat)
    ensures m >= 1 && forall s :: 0 <= s < |codes| ==> codes[s].len <= m
    ensures m == 1 || exists s :: 0 <= s < |codes| && codes[s].len == m
  {
    if codes == [] then 1
    else
      var n := |codes| - 1;
      var m := Longest(codes[..n]);
      assert forall s :: 0 <= s < n ==> codes[..n][s] == codes[s];
      if codes[n].len > m then codes[n].len else m
  }

  method MaxLength(codes: seq<HuffCode>) returns (m: nat)
    ensures m == Longest(codes)
  {
    m := 1;
    for i := 0 to |codes|
      invariant m == Longest(codes[..i])
    {
      assert codes[..i + 1][..i] == codes[..i];
      if codes[i].len > m {
        m := codes[i].len;
      }
    }
    assert codes[..|codes|] == codes;
  }

  /** `build_decode_table`. */
  method BuildDecodeTable(codes: seq<HuffCode>) returns (lookup: array<nat>, maxLen: nat)
    requires forall s :: 0 <= s < |codes| ==> codes[s].len <= MAX_BITS
    ensures fresh(lookup) && 1 <= maxLen <= MAX_BITS && lookup.Length == Pow2(maxLen)
    ensures maxLen == Longest(codes) && forall s :: 0 <= s < |codes| ==> codes[s].len <= maxLen
    ensures forall idx :: 0 <= idx < lookup.Length ==> lookup[idx] == Entry(codes, maxLen, idx, |codes|)
  {
    hide Entry, Matches, Pow2;
    maxLen := MaxLength(codes);
    lookup := new nat[Pow2(maxLen)](i => 0);
    NoEntries(codes, maxLen);
    for sym := 0 to |codes|
      invariant lookup.Length == Pow2(maxLen)
      invariant forall idx :: 0 <= idx < lookup.Length ==> lookup[idx] == Entry(codes, maxLen, idx, sym)
    {
      var code := codes[sym];
      EntryNext(codes, maxLen, sym);
      if code.len != 0 {
        FillEntries(lookup, code, maxLen, code.len * SYMBOL_LIMIT + sym);
      }
    }
  }

  lemma NoEntries(codes: seq<HuffCode>, maxLen: nat)
    ensures forall idx: nat :: Entry(codes, maxLen, idx, 0) == 0
  {
  }

  lemma EntryNext(codes: seq<HuffCode>, maxLen: nat, k: nat)
    requires k < |codes|
    ensures forall idx: nat :: Entry(codes, maxLen, idx, k + 1) ==
              if Matches(codes[k], Lsb(idx, maxLen)) then codes[k].len * SYMBOL_LIMIT + k else Entry(codes, maxLen, idx, k)
    ensures codes[k].len == 0 ==> forall idx: nat :: Entry(codes, maxLen, idx, k + 1) == Entry(codes, maxLen, idx, k)
  {
    hide Lsb, Word;
  }

  /** Enter one code at every index that starts with it. */
  method FillEntries(lookup: array<nat>, code: HuffCode, maxLen: nat, entry: nat)
    requires lookup.Length == Pow2(maxLen) && 0 < code.len <= maxLen
    modifies lookup
    ensures forall idx :: 0 <= idx < lookup.Length ==>
              lookup[idx] == if Matches(code, Lsb(idx, maxLen)) then entry else old(lookup[idx])
  {
    hide Matches, Pow2, Filled, Msb;
    var reversed := ReverseBits(code.bits, code.len);
    ReverseForStream(code.bits, code.len);
    var p := Pow2(code.len);
    var fill := Pow2(maxLen - code.len);
    Pow2Add(maxLen - code.len, code.len);
    ghost var was := lookup[..];
    NothingFilled(p, reversed);
    for j := 0 to fill
      invariant forall idx :: 0 <= idx < lookup.Length ==>
                  lookup[idx] == if Filled(idx, p, reversed, j) then entry else was[idx]
    {
      var at := reversed + j * p;
      BelowEnd(at, j, fill, p, reversed);
      FilledNext(p, reversed, j, at);
      lookup[at] := entry;
    }
    forall idx | 0 <= idx < lookup.Length ensures Filled(idx, p, reversed, fill) <==> Matches(code, Lsb(idx, maxLen)) {
      IndexMatches(code, maxLen, idx);
      AllFilled(idx, p, reversed, fill);
    }
  }

  lemma BelowEnd(at: nat, j: nat, fill: nat, p: nat, reversed: nat)
    requires j < fill && reversed < p && at == reversed + j * p
    ensures at < fill * p
  {
    MulLe(j + 1, fill, p, p);
    MulAdd(j, 1, p);
  }

  /** `idx` is one of the first `j` indices that end in `reversed` modulo `p`. */
  predicate Filled(idx: nat, p: nat, reversed: nat, j: nat)
    requires p > 0
  {
    idx % p == reversed && idx / p < j
  }

  lemma NothingFilled(p: nat, reversed: nat)
    requires p > 0
    ensures forall idx: nat :: !Filled(idx, p, reversed, 0)
  {
    forall idx: nat ensures !Filled(idx, p, reversed, 0) {
      Divide(idx, p);
      NotNegative(idx, p);
    }
  }

  lemma NotNegative(v: nat, p: nat)
    requires p > 0
    ensures v / p >= 0
  {
  }

  lemma AllFilled(idx: nat, p: nat, reversed: nat, fill: nat)
    requires p > 0 && idx < fill * p
    ensures Filled(idx, p, reversed, fill) <==> idx % p == reversed
  {
    QuotientBelow(idx, p, fill);
  }

  lemma FilledNext(p: nat, reversed: nat, j: nat, at: nat)
    requires reversed < p && at == reversed + j * p
    ensures forall idx: nat :: Filled(idx, p, reversed, j + 1) <==> Filled(idx, p, reversed, j) || idx == at
  {
    ModUnique(at, p, j, reversed);
    forall idx: nat | Filled(idx, p, reversed, j + 1) && !Filled(idx, p, reversed, j) ensures idx == at {
      Divide(idx, p);
    }
  }

  lemma QuotientBelow(v: nat, p: nat, q: nat)
    requires p > 0 && v < q * p
    ensures v / p < q
  {
    Divide(v, p);
    if v / p >= q {
      MulLe(q, v / p, p, p);
    }
  }
}
