/** The run-length codec: bytes under one Huffman code, or runs as values and lengths under
    two, whichever is shorter. */
module RleHuffman {
  import opened Bytes
  import opened BitStrings
  import opened BitWords
  import opened Sequences
  import opened CodeLengths
  import opened CanonicalCode
  import opened DecodeTable
  import opened BitStream
  import opened HuffmanCodes
  import HuffmanTree
  import opened RunLengths

  const MAGIC: seq<byte> := [82, 72, 70, 49]
  const HEADER: nat := 10
  const PACKED: nat := 128
  const CLASSES: nat := 256

  // ------------------------------------------------------------ code lengths

  /** How often each of `n` symbols occurs. */
  ghost function Occurrences(syms: seq<nat>, n: nat): (f: seq<nat>)
    ensures |f| == n && forall b :: 0 <= b < n ==> f[b] == multiset(syms)[b]
  {
    seq(n, b requires 0 <= b < n => multiset(syms)[b])
  }

  function Nibbles(lens: seq<nat>): (s: seq<byte>)
    requires Short(lens) && |lens| % 2 == 0
    ensures |s| == |lens| / 2
  {
    seq<byte>(|lens| / 2, i requires 0 <= i < |lens| / 2 => lens[2 * i] + 16 * lens[2 * i + 1])
  }

  function Unpacked(s: seq<byte>): (lens: seq<nat>)
    ensures |lens| == 2 * |s| && Short(lens)
  {
    seq(2 * |s|, i requires 0 <= i < 2 * |s| => if i % 2 == 0 then s[i / 2] % 16 else s[i / 2] / 16)
  }

  lemma NibblesBack(lens: seq<nat>)
    requires Short(lens) && |lens| % 2 == 0
    ensures Unpacked(Nibbles(lens)) == lens
  {
    var s := Nibbles(lens);
    forall i | 0 <= i < |lens| ensures Unpacked(s)[i] == lens[i] {
      var k := i / 2;
      assert s[k] == lens[2 * k] + 16 * lens[2 * k + 1];
    }
  }

  /** `rebuild_canonical_codes`: without any length the first symbol gets a code of one bit. */
  function Rebuilt(lens: seq<nat>): (codes: seq<HuffCode>)
    ensures |codes| == |lens|
  {
    if lens != [] && (forall i :: 0 <= i < |lens| ==> lens[i] == 0) then Canonical(lens)[0 := HuffCode(0, 1)]
    else Canonical(lens)
  }

  // ------------------------------------------------------------ symbols

  /** The next symbol by the table, which for codes that overlap holds the last one entered. */
  ghost function ReadSymbol(codes: seq<HuffCode>, bits: seq<bool>): (r: Option<(byte, seq<bool>)>)
    requires |codes| <= 256
    ensures r.Some? ==> r.value.0 < |codes|
  {
    var e := Entry(codes, Longest(codes), Peek(bits, Longest(codes)), |codes|);
    EntryMatches(codes, Longest(codes), Peek(bits, Longest(codes)), |codes|);
    if EntryRead(e, |bits|).None? then None else Some((e % SYMBOL_LIMIT, bits[e / SYMBOL_LIMIT..]))
  }

  /** Codes that do not overlap read back. */
  lemma SymbolBack(codes: seq<HuffCode>, s: nat, rest: seq<bool>)
    requires Decodable(codes) && s < |codes| <= 256 && codes[s].len > 0
    ensures ReadSymbol(codes, Word(codes[s]) + rest) == Some((s, rest))
  {
    hide Entry, Word, NextSymbol, Peek, Pow2, Matches, Longest;
    var bits, maxLen := Word(codes[s]) + rest, Longest(codes);
    var lookup := seq(Pow2(maxLen), idx requires 0 <= idx < Pow2(maxLen) => Entry(codes, maxLen, idx, |codes|));
    LongestShort(codes);
    PeekBelow(bits, maxLen);
    TableDecides(lookup, maxLen, codes, bits, Peek(bits, maxLen));
    WordNext(codes, s, rest);
  }

  lemma LongestShort(codes: seq<HuffCode>)
    requires forall s :: 0 <= s < |codes| ==> codes[s].len <= MAX_BITS
    ensures 1 <= Longest(codes) <= MAX_BITS
  {
    hide Longest;
  }

  lemma PeekBelow(bits: seq<bool>, count: nat)
    ensures Peek(bits, count) < Pow2(count)
  {
    hide Value;
    var n := if count < |bits| then count else |bits|;
    Pow2Monotone(n, count);
  }

  lemma WordNext(codes: seq<HuffCode>, s: nat, rest: seq<bool>)
    requires Decodable(codes) && s < |codes| && codes[s].len > 0
    ensures NextSymbol(codes, Word(codes[s]) + rest) == Some(s)
    ensures (Word(codes[s]) + rest)[codes[s].len..] == rest
  {
    NextSymbolIs(codes, Word(codes[s]) + rest, s);
  }

  /** Every symbol has a code, and no two codes overlap. */
  ghost predicate Encodes(codes: seq<HuffCode>, syms: seq<nat>) {
    Decodable(codes) && |codes| <= 256 && forall k :: 0 <= k < |syms| ==> syms[k] < |codes| && codes[syms[k]].len > 0
  }

  ghost function SymbolsBits(codes: seq<HuffCode>, syms: seq<nat>): seq<bool>
    requires Encodes(codes, syms)
  {
    if syms == [] then [] else Word(codes[syms[0]]) + SymbolsBits(codes, syms[1..])
  }

  ghost function ReadSymbols(codes: seq<HuffCode>, bits: seq<bool>, n: nat): Option<seq<byte>>
    requires |codes| <= 256
    decreases n
  {
    if n == 0 then Some([])
    else
      match ReadSymbol(codes, bits)
      case None => None
      case Some((sym, rest)) =>
        match ReadSymbols(codes, rest, n - 1)
        case None => None
        case Some(later) => Some([sym] + later)
  }

  lemma {:induction false} SymbolsBack(codes: seq<HuffCode>, data: seq<byte>, rest: seq<bool>)
    requires Encodes(codes, data)
    ensures ReadSymbols(codes, SymbolsBits(codes, data) + rest, |data|) == Some(data)
    decreases |data|
  {
    hide Word, ReadSymbol, Decodable;
    if data != [] {
      var later := SymbolsBits(codes, data[1..]) + rest;
      assert SymbolsBits(codes, data) + rest == Word(codes[data[0]]) + later;
      SymbolBack(codes, data[0], later);
      SymbolsBack(codes, data[1..], rest);
      assert [data[0]] + data[1..] == data;
    }
  }

  // ------------------------------------------------------------ runs

  /** The values below `k` that occur, in order. */
  ghost function PaletteTo(runs: seq<Run>, k: nat): (p: seq<byte>)
    requires k <= 256
    ensures |p| <= k && forall v: byte :: v in p <==> v < k && Occurs(runs, v)
  {
    if k == 0 then [] else PaletteTo(runs, k - 1) + if Occurs(runs, k - 1) then [(k - 1) as byte] else []
  }

  ghost predicate Occurs(runs: seq<Run>, v: nat) {
    exists i :: 0 <= i < |runs| && runs[i].value == v
  }

  ghost function Palette(runs: seq<Run>): seq<byte> {
    PaletteTo(runs, 256)
  }

  function IndexIn(p: seq<byte>, v: byte): (i: nat)
    ensures v in p ==> i < |p| && p[i] == v
  {
    if p == [] || p[0] == v then 0 else 1 + IndexIn(p[1..], v)
  }

  ghost predicate Encodable(values: seq<HuffCode>, lengths: seq<HuffCode>, palette: seq<byte>, runs: seq<Run>) {
    && |values| == |palette| <= 256 && |lengths| == CLASSES && Decodable(values) && Decodable(lengths) && Legal(runs)
    && forall k :: 0 <= k < |runs| ==> RunHasCodes(values, lengths, palette, runs[k])
  }

  ghost predicate RunHasCodes(values: seq<HuffCode>, lengths: seq<HuffCode>, palette: seq<byte>, run: Run)
    requires |values| == |palette| && |lengths| == CLASSES && 1 <= run.length <= MAX_RUN
  {
    && run.value in palette && values[IndexIn(palette, run.value)].len > 0
    && lengths[ClassOf(run).sym].len > 0
  }

  function ClassOf(run: Run): (c: Class)
    requires 1 <= run.length <= MAX_RUN
    ensures c.sym < CLASSES && c.bits <= 20 && c.extra < Pow2(c.bits)
  {
    ClassBack(run.length);
    ClassFrom(run.length - 1, 0).value
  }

  ghost function RunBits(values: seq<HuffCode>, lengths: seq<HuffCode>, palette: seq<byte>, run: Run): seq<bool>
    requires |values| == |palette| && |lengths| == CLASSES && 1 <= run.length <= MAX_RUN
    requires RunHasCodes(values, lengths, palette, run)
  {
    Word(values[IndexIn(palette, run.value)]) + Word(lengths[ClassOf(run).sym]) + Lsb(ClassOf(run).extra, ClassOf(run).bits)
  }

  ghost function RunsBits(values: seq<HuffCode>, lengths: seq<HuffCode>, palette: seq<byte>, runs: seq<Run>): seq<bool>
    requires Encodable(values, lengths, palette, runs)
  {
    if runs == [] then []
    else RunBits(values, lengths, palette, runs[0]) + RunsBits(values, lengths, palette, runs[1..])
  }

  /** One run: its value and its length. */
  ghost function ReadRun(values: seq<HuffCode>, lengths: seq<HuffCode>, palette: seq<byte>, bits: seq<bool>): Option<(Run, seq<bool>)>
    requires |values| == |palette| <= 256 && |lengths| == CLASSES
  {
    match ReadSymbol(values, bits)
    case None => None
    case Some((index, rest)) =>
      match ReadSymbol(lengths, rest)
      case None => None
      case Some((sym, more)) =>
        AllSpans(sym);
        var span := SpanFrom(sym, 0).value;
        Some((Run(palette[index], span.base + Peek(more, span.bits) + 1), Dropped(more, span.bits)))
  }

  /** `left` more runs after the bytes of `out`; none when they exceed `limit`. */
  ghost function ReadRuns(values: seq<HuffCode>, lengths: seq<HuffCode>, palette: seq<byte>, bits: seq<bool>,
                          left: nat, limit: nat, out: seq<byte>): Option<seq<byte>>
    requires |values| == |palette| <= 256 && |lengths| == CLASSES
    decreases left
  {
    if left == 0 then Some(out)
    else
      match ReadRun(values, lengths, palette, bits)
      case None => None
      case Some((run, rest)) =>
        if |out| + run.length > limit then None
        else ReadRuns(values, lengths, palette, rest, left - 1, limit, out + Repeated(run.value, run.length))
  }

  lemma RunBack(values: seq<HuffCode>, lengths: seq<HuffCode>, palette: seq<byte>, run: Run, rest: seq<bool>)
    requires |values| == |palette| <= 256 && |lengths| == CLASSES && Decodable(values) && Decodable(lengths)
    requires 1 <= run.length <= MAX_RUN && RunHasCodes(values, lengths, palette, run)
    ensures ReadRun(values, lengths, palette, RunBits(values, lengths, palette, run) + rest) == Some((run, rest))
  {
    hide Word, ReadSymbol, Decodable, IndexIn, Lsb, Peek, Dropped, ClassFrom, SpanFrom, Pow2;
    var i, c := IndexIn(palette, run.value), ClassOf(run);
    var tail := Lsb(c.extra, c.bits) + rest;
    assert RunBits(values, lengths, palette, run) + rest == Word(values[i]) + (Word(lengths[c.sym]) + tail);
    SymbolBack(values, i, Word(lengths[c.sym]) + tail);
    SymbolBack(lengths, c.sym, tail);
    PeekWritten(c.extra, c.bits, rest);
    ClassBack(run.length);
  }

  lemma {:induction false} RunsRead(values: seq<HuffCode>, lengths: seq<HuffCode>, palette: seq<byte>, runs: seq<Run>,
                                    rest: seq<bool>, limit: nat, out: seq<byte>)
    requires Encodable(values, lengths, palette, runs) && |out| + |Expanded(runs)| <= limit
    ensures ReadRuns(values, lengths, palette, RunsBits(values, lengths, palette, runs) + rest, |runs|, limit, out)
         == Some(out + Expanded(runs))
    decreases |runs|
  {
    hide RunBits, ReadRun, RunHasCodes, Decodable;
    if runs == [] {
      assert out + [] == out;
    } else {
      var later := RunsBits(values, lengths, palette, runs[1..]) + rest;
      assert RunsBits(values, lengths, palette, runs) + rest == RunBits(values, lengths, palette, runs[0]) + later;
      RunBack(values, lengths, palette, runs[0], later);
      var longer := out + Repeated(runs[0].value, runs[0].length);
      RunsRead(values, lengths, palette, runs[1..], rest, limit, longer);
      assert longer + Expanded(runs[1..]) == out + Expanded(runs);
    }
  }

  // ------------------------------------------------------------ payload

  function Header(n: nat, mode: byte): (s: seq<byte>)
    ensures |s| == HEADER
  {
    MAGIC + [1] + PutWord(n) + [mode]
  }

  /** The code lengths that symbols below `n` get from how often they occur. */
  ghost function LengthsOver(syms: seq<nat>, n: nat): (lens: seq<nat>)
    ensures |lens| == n
  {
    LengthsFor(Occurrences(syms, n))
  }

  lemma OccurrencesFit(syms: seq<nat>, n: nat)
    requires |syms| < WORD
    ensures forall b :: 0 <= b < n ==> Occurrences(syms, n)[b] < HuffmanTree.FREQ_LIMIT
  {
    forall b: nat | b < n ensures multiset(syms)[b] <= |syms| {
      SomeOfAll(multiset(syms), b);
    }
  }

  lemma SomeOfAll(m: multiset<nat>, b: nat)
    ensures m[b] <= |m|
  {
    assert m == m[b := 0] + multiset{}[b := m[b]];
  }

  /** They are within the code space and cover every symbol. */
  lemma LengthsOverGood(syms: seq<nat>, n: nat)
    requires n <= 256 && |syms| < WORD && forall k :: 0 <= k < |syms| ==> syms[k] < n
    ensures GoodLengths(Occurrences(syms, n), LengthsOver(syms, n)) && Short(LengthsOver(syms, n))
    ensures Encodes(Canonical(LengthsOver(syms, n)), syms)
  {
    hide Kraft, Canonical, Occurrences, Decodable, LengthsFor;
    OccurrencesFit(syms, n);
    LengthsForGood(Occurrences(syms, n));
    CanonicalDecodable(LengthsOver(syms, n));
    forall k | 0 <= k < |syms| ensures Canonical(LengthsOver(syms, n))[syms[k]].len > 0 {
      InOccurrences(syms, k, n);
    }
  }

  lemma InOccurrences(syms: seq<nat>, k: nat, n: nat)
    requires k < |syms| && syms[k] < n
    ensures Occurrences(syms, n)[syms[k]] > 0
  {
    assert syms[k] in multiset(syms);
  }

  /** Mode 0: code lengths of the bytes, then the bytes. */
  ghost function DirectOf(data: seq<byte>): (s: seq<byte>)
    requires |data| < WORD
  {
    hide *;
    LengthsOverGood(data, 256);
    var lens := LengthsOver(data, 256);
    Header(|data|, 0) + Nibbles(lens) + BytesOf(SymbolsBits(Canonical(lens), data))
  }

  ghost function Indices(runs: seq<Run>): (x: seq<nat>)
    ensures |x| == |runs|
  {
    seq(|runs|, k requires 0 <= k < |runs| => IndexIn(Palette(runs), runs[k].value))
  }

  ghost function ClassSyms(runs: seq<Run>): (x: seq<nat>)
    requires Legal(runs)
    ensures |x| == |runs|
  {
    seq(|runs|, k requires 0 <= k < |runs| => ClassOf(runs[k]).sym)
  }

  /** What stands before the bits of the runs. */
  ghost function RunsHeader(n: nat, runs: seq<Run>, palette: seq<byte>, values: seq<nat>, lengths: seq<nat>): (s: seq<byte>)
    requires |palette| <= 256 && |values| == |palette| && |lengths| == CLASSES && Short(values) && Short(lengths)
    ensures |s| == HEADER + 6 + 2 * |palette| + PACKED
  {
    Header(n, 1) + PutWord(|runs|) + [|palette| % 256, |palette| / 256] + palette
    + seq<byte>(|values|, k requires 0 <= k < |values| => values[k]) + Nibbles(lengths)
  }

  /** The codes cover the runs' values and lengths. */
  lemma RunsGood(runs: seq<Run>)
    requires Legal(runs) && |runs| < WORD
    ensures var palette := Palette(runs);
      var values, lengths := LengthsOver(Indices(runs), |palette|), LengthsOver(ClassSyms(runs), CLASSES);
      && |palette| <= 256 && Short(values) && Short(lengths)
      && GoodLengths(Occurrences(Indices(runs), |palette|), values) && GoodLengths(Occurrences(ClassSyms(runs), CLASSES), lengths)
      && Encodable(Canonical(values), Canonical(lengths), palette, runs)
  {
    hide Palette, IndexIn, ClassOf, Decodable, LengthsFor, Kraft, Canonical, Occurrences, GoodLengths;
    PaletteSize(runs);
    forall k | 0 <= k < |runs| ensures Indices(runs)[k] < |Palette(runs)| {
      PaletteHas(runs, k);
    }
    LengthsOverGood(Indices(runs), |Palette(runs)|);
    LengthsOverGood(ClassSyms(runs), CLASSES);
    RunsEncodable(runs, Palette(runs), Canonical(LengthsOver(Indices(runs), |Palette(runs)|)),
                  Canonical(LengthsOver(ClassSyms(runs), CLASSES)));
  }

  /** Mode 1: runs, palette, both code lengths, then the runs. */
  ghost function RunsPayloadOf(data: seq<byte>): (s: seq<byte>)
    requires |data| < WORD
  {
    RunsBack(data);
    var runs := Runs(data);
    RunsGood(runs);
    var palette := Palette(runs);
    var values, lengths := LengthsOver(Indices(runs), |palette|), LengthsOver(ClassSyms(runs), CLASSES);
    RunsHeader(|data|, runs, palette, values, lengths) + BytesOf(RunsBits(Canonical(values), Canonical(lengths), palette, runs))
  }

  /** `rle_huffman_encode`: the shorter of the two, mode 0 when they are equally long. */
  ghost function Encoded(data: seq<byte>): seq<byte>
    requires |data| < WORD
  {
    if data == [] then Header(0, 0) else Shorter(DirectOf(data), RunsPayloadOf(data))
  }

  function Shorter(direct: seq<byte>, runs: seq<byte>): seq<byte> {
    if |direct| <= |runs| then direct else runs
  }

  // ------------------------------------------------------------ decoding, for any payload

  ghost function DirectDecoded(s: seq<byte>, n: nat): Option<seq<byte>>
    requires |s| >= HEADER
  {
    if |s| < HEADER + PACKED then None
    else ReadSymbols(Rebuilt(Unpacked(s[HEADER..HEADER + PACKED])), BitsOf(s[HEADER + PACKED..]), n)
  }

  ghost function RunsDecoded(s: seq<byte>, n: nat): Option<seq<byte>>
    requires |s| >= HEADER
  {
    if |s| < HEADER + 6 + PACKED then None
    else
      var runs, size := GetWord(s[HEADER..HEADER + 4]), s[HEADER + 4] as nat + 256 * s[HEADER + 5] as nat;
      var pos := HEADER + 6;
      if size == 0 || size > 256 || |s| - pos < size then None
      else if |s| - (pos + size) < size + PACKED then None
      else RunsDecodedFrom(s, n, runs, size)
  }

  predicate TooLong(lens: seq<nat>) {
    exists k :: 0 <= k < |lens| && lens[k] > MAX_BITS
  }

  ghost function RunsDecodedFrom(s: seq<byte>, n: nat, runs: nat, size: nat): Option<seq<byte>>
    requires 0 < size <= 256 && |s| >= HEADER + 6 + 2 * size + PACKED
  {
    var pos := HEADER + 6;
    var palette, values: seq<nat> := s[pos..pos + size], s[pos + size..pos + 2 * size];
    if TooLong(values) then None
    else
      var end := pos + 2 * size + PACKED;
      var lengths := Unpacked(s[pos + 2 * size..end]);
      var out := ReadRuns(Rebuilt(values), Rebuilt(lengths), palette, BitsOf(s[end..]), runs, n, []);
      if out.None? || |out.value| != n then None else out
  }

  /** `rle_huffman_decode_checked`, on any bytes. */
  ghost function Decoded(s: seq<byte>): Option<seq<byte>> {
    if |s| < HEADER || s[..4] != MAGIC then None
    else
      var n := GetWord(s[5..9]);
      if n == 0 then Some([])
      else if s[9] == 0 then DirectDecoded(s, n)
      else if s[9] == 1 then RunsDecoded(s, n)
      else None
  }

  lemma {:induction false} SymbolsLength(codes: seq<HuffCode>, bits: seq<bool>, n: nat)
    requires |codes| <= 256
    ensures ReadSymbols(codes, bits, n).Some? ==> |ReadSymbols(codes, bits, n).value| == n
    decreases n
  {
    hide ReadSymbol;
    if n > 0 {
      match ReadSymbol(codes, bits)
      case None =>
      case Some((sym, rest)) => SymbolsLength(codes, rest, n - 1);
    }
  }

  /** What is decoded is as long as the payload declares. */
  lemma DecodedLength(s: seq<byte>)
    requires Decoded(s).Some?
    ensures |s| >= HEADER && |Decoded(s).value| == GetWord(s[5..9])
  {
    hide GetWord, ReadSymbols, ReadRuns, Rebuilt, Unpacked, BitsOf;
    var n := GetWord(s[5..9]);
    if n > 0 && s[9] == 0 {
      SymbolsLength(Rebuilt(Unpacked(s[HEADER..HEADER + PACKED])), BitsOf(s[HEADER + PACKED..]), n);
    }
  }

  /** The header declares `n` bytes and, in mode 1, no more runs than bytes. */
  predicate Declares(s: seq<byte>, n: nat) {
    && |s| >= HEADER && GetWord(s[5..9]) == n
    && (s[9] == 1 ==> |s| >= HEADER + 4 && GetWord(s[HEADER..HEADER + 4]) <= n)
  }

  // ------------------------------------------------------------ round trip

  lemma GoodNotZero(freqs: seq<nat>, lens: seq<nat>, sym: nat)
    requires GoodLengths(freqs, lens) && sym < |freqs| && freqs[sym] > 0
    ensures Rebuilt(lens) == Canonical(lens)
  {
    hide Kraft, Canonical;
    assert lens[sym] > 0;
  }

  lemma HeaderParts(n: nat, mode: byte, rest: seq<byte>)
    requires n < WORD
    ensures var s := Header(n, mode) + rest;
      s[..4] == MAGIC && GetWord(s[5..9]) == n && s[9] == mode && s[HEADER..] == rest
  {
    hide PutWord, GetWord;
    WordRoundTrip(n);
    assert (Header(n, mode) + rest)[5..9] == PutWord(n);
  }

  lemma DirectBack(data: seq<byte>)
    requires data != [] && |data| < WORD
    ensures Declares(DirectOf(data), |data|)
    ensures Decoded(DirectOf(data)) == Some(data)
  {
    hide GetWord, Header, Nibbles, Unpacked, SymbolsBits, ReadSymbols, BitsOf, Kraft, Canonical, Rebuilt, Encodes, Occurrences,
      LengthsOver, BytesOf;
    LengthsOverGood(data, 256);
    var s, lens := DirectOf(data), LengthsOver(data, 256);
    var codes := Canonical(lens);
    var bits := SymbolsBits(codes, data);
    var body := BytesOf(bits);
    HeaderParts(|data|, 0, Nibbles(lens) + body);
    assert s == Header(|data|, 0) + (Nibbles(lens) + body);
    assert s[HEADER..][..PACKED] == Nibbles(lens) && s[HEADER..][PACKED..] == body;
    assert s[HEADER..HEADER + PACKED] == s[HEADER..][..PACKED] && s[HEADER + PACKED..] == s[HEADER..][PACKED..];
    NibblesBack(lens);
    InOccurrences(data, 0, 256);
    GoodNotZero(Occurrences(data, 256), lens, data[0]);
    BytesOfFits(bits);
    assert BitsOf(body) == bits + BitsOf(body)[|bits|..];
    SymbolsBack(codes, data, BitsOf(body)[|bits|..]);
  }

  lemma RunsParts(n: nat, runs: seq<Run>, palette: seq<byte>, values: seq<nat>, lengths: seq<nat>, body: seq<byte>)
    requires 0 < |palette| <= 256 && |values| == |palette| && |lengths| == CLASSES && Short(values) && Short(lengths)
    requires n < WORD && |runs| < WORD
    ensures var s, size, pos := RunsHeader(n, runs, palette, values, lengths) + body, |palette|, HEADER + 6;
      && |s| >= pos + 2 * size + PACKED
      && s[..4] == MAGIC && GetWord(s[5..9]) == n && s[9] == 1
      && GetWord(s[HEADER..HEADER + 4]) == |runs| && s[HEADER + 4] as nat + 256 * s[HEADER + 5] as nat == size
      && s[pos..pos + size] == palette && s[pos + size..pos + 2 * size] == values
      && Unpacked(s[pos + 2 * size..pos + 2 * size + PACKED]) == lengths && s[pos + 2 * size + PACKED..] == body
  {
    hide PutWord, GetWord, Header, Nibbles, Unpacked;
    var s, size := RunsHeader(n, runs, palette, values, lengths) + body, |palette|;
    var small := seq<byte>(|values|, k requires 0 <= k < |values| => values[k]);
    var a, b, c := PutWord(|runs|), [size % 256, size / 256], Nibbles(lengths);
    assert s == Header(n, 1) + (a + b + palette + small + c + body);
    HeaderParts(n, 1, a + b + palette + small + c + body);
    WordRoundTrip(|runs|);
    var t := s[HEADER..];
    assert t == a + b + palette + small + c + body;
    assert s[HEADER..HEADER + 4] == t[..4] == a;
    assert t[4] == b[0] && t[5] == b[1];
    RunsSlices(t, a + b, palette, small, c, body);
    assert s[HEADER + 6..HEADER + 6 + size] == t[6..6 + size];
    assert s[HEADER + 6 + size..HEADER + 6 + 2 * size] == t[6 + size..6 + 2 * size];
    assert s[HEADER + 6 + 2 * size..HEADER + 6 + 2 * size + PACKED] == t[6 + 2 * size..6 + 2 * size + PACKED];
    assert s[HEADER + 6 + 2 * size + PACKED..] == t[6 + 2 * size + PACKED..];
    NibblesBack(lengths);
    var back: seq<nat> := small;
    assert back == values;
  }

  lemma RunsSlices(t: seq<byte>, head: seq<byte>, p: seq<byte>, q: seq<byte>, r: seq<byte>, body: seq<byte>)
    requires t == head + p + q + r + body && |head| == 6 && |p| == |q| && |r| == PACKED
    ensures t[6..6 + |p|] == p && t[6 + |p|..6 + 2 * |p|] == q && t[6 + 2 * |p|..6 + 2 * |p| + PACKED] == r
    ensures t[6 + 2 * |p| + PACKED..] == body
  {
  }

  lemma RunsPayloadBack(data: seq<byte>)
    requires data != [] && |data| < WORD
    ensures Declares(RunsPayloadOf(data), |data|)
    ensures Decoded(RunsPayloadOf(data)) == Some(data)
  {
    hide GetWord, RunsHeader, Unpacked, RunsBits, ReadRuns, BitsOf, Kraft, Canonical, Rebuilt, Encodable, Occurrences, Runs,
      Palette, Indices, ClassSyms, Legal, Expanded, LengthsOver, BytesOf;
    RunsBack(data);
    var runs := Runs(data);
    var palette := Palette(runs);
    RunsGood(runs);
    var values, lengths := LengthsOver(Indices(runs), |palette|), LengthsOver(ClassSyms(runs), CLASSES);
    var bits := RunsBits(Canonical(values), Canonical(lengths), palette, runs);
    var body := BytesOf(bits);
    PaletteHas(runs, 0);
    IndexOccurs(runs);
    RunsParts(|data|, runs, palette, values, lengths, body);
    GoodNotZero(Occurrences(Indices(runs), |palette|), values, Indices(runs)[0]);
    GoodNotZero(Occurrences(ClassSyms(runs), CLASSES), lengths, ClassSyms(runs)[0]);
    BytesOfFits(bits);
    assert BitsOf(body) == bits + BitsOf(body)[|bits|..];
    RunsRead(Canonical(values), Canonical(lengths), palette, runs, BitsOf(body)[|bits|..], |data|, []);
    assert [] + Expanded(runs) == data;
  }

  lemma PaletteHas(runs: seq<Run>, k: nat)
    requires k < |runs|
    ensures runs[k].value in Palette(runs) && 0 < |Palette(runs)| <= 256
    ensures Indices(runs)[k] < |Palette(runs)| && Palette(runs)[Indices(runs)[k]] == runs[k].value
  {
    hide PaletteTo, IndexIn;
    assert Occurs(runs, runs[k].value);
  }

  lemma IndexOccurs(runs: seq<Run>)
    requires runs != [] && Legal(runs)
    ensures var x, n := Indices(runs), |Palette(runs)|; x[0] < n && Occurrences(x, n)[x[0]] > 0
    ensures var y := ClassSyms(runs); y[0] < CLASSES && Occurrences(y, CLASSES)[y[0]] > 0
  {
    hide Palette, Occurrences, IndexIn;
    PaletteHas(runs, 0);
    InOccurrences(Indices(runs), 0, |Palette(runs)|);
    InOccurrences(ClassSyms(runs), 0, CLASSES);
  }

  /** Either mode gives the data back. */
  lemma RleRoundTrip(data: seq<byte>)
    requires |data| < WORD
    ensures Declares(Encoded(data), |data|)
    ensures Decoded(Encoded(data)) == Some(data)
  {
    hide DirectOf, RunsPayloadOf, DirectDecoded, RunsDecoded, GetWord, Header;
    if data == [] {
      HeaderParts(0, 0, []);
      assert Header(0, 0) + [] == Header(0, 0);
    } else {
      DirectBack(data);
      RunsPayloadBack(data);
    }
  }

  // ------------------------------------------------------------ encoding as it runs

  method CountSymbols(syms: seq<nat>, n: nat) returns (freqs: seq<nat>)
    requires forall k :: 0 <= k < |syms| ==> syms[k] < n
    ensures freqs == Occurrences(syms, n)
    ensures forall b :: 0 <= b < n ==> freqs[b] <= |syms|
  {
    freqs := seq(n, b => 0);
    for k := 0 to |syms|
      invariant |freqs| == n && forall b :: 0 <= b < n ==> freqs[b] == multiset(syms[..k])[b] <= k
    {
      assert syms[..k + 1] == syms[..k] + [syms[k]];
      freqs := freqs[syms[k] := freqs[syms[k]] + 1];
    }
    assert syms[..|syms|] == syms;
  }

  function LengthsOf(codes: seq<HuffCode>): seq<nat> {
    seq(|codes|, i requires 0 <= i < |codes| => codes[i].len)
  }

  /** Codes for the symbols that occur. */
  method CodesFor(syms: seq<nat>, n: nat) returns (codes: seq<HuffCode>, ghost lens: seq<nat>)
    requires n <= 256 && |syms| < WORD && forall k :: 0 <= k < |syms| ==> syms[k] < n
    ensures lens == LengthsOver(syms, n) && codes == Canonical(lens) && Encodes(codes, syms)
    ensures LengthsOf(codes) == lens && Short(lens)
  {
    hide Kraft, Canonical, Occurrences, Decodable, LengthsFor;
    LengthsOverGood(syms, n);
    var freqs := CountSymbols(syms, n);
    codes, lens := BuildHuffmanCodes(freqs);
  }

  lemma {:induction false} SymbolsSnoc(codes: seq<HuffCode>, syms: seq<nat>, sym: nat)
    requires Encodes(codes, syms + [sym])
    ensures Encodes(codes, syms) && sym < |codes|
    ensures SymbolsBits(codes, syms + [sym]) == SymbolsBits(codes, syms) + Word(codes[sym])
    decreases |syms|
  {
    hide Word, Decodable;
    var all := syms + [sym];
    assert all[|syms|] == sym && forall k :: 0 <= k < |syms| ==> all[k] == syms[k];
    if syms == [] {
      assert all[1..] == [];
    } else {
      assert all[1..] == syms[1..] + [sym];
      SymbolsSnoc(codes, syms[1..], sym);
      assert Word(codes[syms[0]]) + (SymbolsBits(codes, syms[1..]) + Word(codes[sym]))
          == SymbolsBits(codes, syms) + Word(codes[sym]);
    }
  }

  method WriteSymbols(writer: BitWriter, codes: seq<HuffCode>, syms: seq<nat>)
    requires writer.Valid() && Encodes(codes, syms)
    modifies writer
    ensures writer.Valid() && writer.Written() == old(writer.Written()) + SymbolsBits(codes, syms)
  {
    hide BitWriter.Valid, BitWriter.Written, Word;
    ghost var was := writer.Written();
    assert was + [] == was;
    for k := 0 to |syms|
      invariant writer.Valid() && writer.Written() == was + SymbolsBits(codes, syms[..k])
    {
      assert syms[..k + 1] == syms[..k] + [syms[k]];
      SymbolsSnoc(codes, syms[..k], syms[k]);
      ghost var now := SymbolsBits(codes, syms[..k]);
      writer.WriteCode(codes[syms[k]]);
      assert was + now + Word(codes[syms[k]]) == was + (now + Word(codes[syms[k]]));
    }
    assert syms[..|syms|] == syms;
  }

  method EncodeDirect(data: seq<byte>) returns (s: seq<byte>)
    requires |data| < WORD
    ensures s == DirectOf(data)
  {
    hide BitWriter.Valid, BitWriter.Written, SymbolsBits, BitsOf, Kraft, Canonical, Header, Occurrences, Encodes, LengthsOver, BytesOf;
    var codes;
    ghost var lens;
    codes, lens := CodesFor(data, 256);
    var writer := new BitWriter();
    WriteSymbols(writer, codes, data);
    assert [] + SymbolsBits(codes, data) == SymbolsBits(codes, data);
    var body := writer.Finish();
    s := Header(|data|, 0) + Nibbles(LengthsOf(codes)) + body;
  }

  method PaletteOf(runs: seq<Run>) returns (palette: seq<byte>)
    ensures palette == Palette(runs)
  {
    hide Occurs;
    var seen := new bool[256](i => false);
    NoneOccur(runs);
    for k := 0 to |runs|
      invariant forall v :: 0 <= v < 256 ==> (seen[v] <==> Occurs(runs[..k], v))
    {
      ghost var was := seen[..];
      seen[runs[k].value] := true;
      forall v | 0 <= v < 256 ensures seen[v] <==> Occurs(runs[..k + 1], v) {
        OccursNext(runs, k, v);
        assert seen[v] <==> was[v] || v == runs[k].value;
      }
    }
    assert runs[..|runs|] == runs;
    palette := [];
    for v := 0 to 256
      invariant palette == PaletteTo(runs, v)
    {
      if seen[v] {
        palette := palette + [v];
      }
    }
  }

  lemma NoneOccur(runs: seq<Run>)
    ensures forall v: nat :: !Occurs(runs[..0], v)
  {
  }

  lemma OccursNext(runs: seq<Run>, k: nat, v: nat)
    requires k < |runs|
    ensures Occurs(runs[..k + 1], v) <==> Occurs(runs[..k], v) || v == runs[k].value
  {
    var longer, shorter := runs[..k + 1], runs[..k];
    assert longer[k] == runs[k];
    if Occurs(longer, v) && v != runs[k].value {
      var i :| 0 <= i < |longer| && longer[i].value == v;
      assert shorter[i] == longer[i];
    }
    if Occurs(shorter, v) {
      var i :| 0 <= i < |shorter| && shorter[i].value == v;
      assert longer[i] == shorter[i];
    }
  }

  method WriteRun(writer: BitWriter, values: seq<HuffCode>, lengths: seq<HuffCode>, palette: seq<byte>, run: Run)
    requires writer.Valid() && |values| == |palette| && |lengths| == CLASSES && Decodable(values) && Decodable(lengths)
    requires 1 <= run.length <= MAX_RUN && RunHasCodes(values, lengths, palette, run)
    modifies writer
    ensures writer.Valid() && writer.Written() == old(writer.Written()) + RunBits(values, lengths, palette, run)
  {
    hide BitWriter.Valid, BitWriter.Written, Word, Lsb, IndexIn, ClassOf, Pow2;
    ghost var was := writer.Written();
    var i, c := IndexIn(palette, run.value), ClassOf(run);
    writer.WriteCode(values[i]);
    writer.WriteCode(lengths[c.sym]);
    NoExtra(c.extra);
    if c.bits > 0 {
      writer.WriteBits(c.extra, c.bits);
    }
    ThreeParts(was, Word(values[i]), Word(lengths[c.sym]), Lsb(c.extra, c.bits));
  }

  lemma NoExtra(v: nat)
    ensures Lsb(v, 0) == []
  {
  }

  lemma ThreeParts(was: seq<bool>, a: seq<bool>, b: seq<bool>, c: seq<bool>)
    ensures was + a + b + c == was + (a + b + c)
    ensures c == [] ==> was + a + b == was + (a + b + c)
  {
  }

  lemma {:induction false} RunsSnoc(values: seq<HuffCode>, lengths: seq<HuffCode>, palette: seq<byte>, runs: seq<Run>, run: Run)
    requires Encodable(values, lengths, palette, runs + [run])
    ensures Encodable(values, lengths, palette, runs) && 1 <= run.length <= MAX_RUN && RunHasCodes(values, lengths, palette, run)
    ensures RunsBits(values, lengths, palette, runs + [run])
         == RunsBits(values, lengths, palette, runs) + RunBits(values, lengths, palette, run)
    decreases |runs|
  {
    hide RunBits, RunHasCodes, Decodable;
    var all := runs + [run];
    assert all[|runs|] == run && forall k :: 0 <= k < |runs| ==> all[k] == runs[k];
    if runs == [] {
      assert all[1..] == [];
    } else {
      assert all[1..] == runs[1..] + [run];
      RunsSnoc(values, lengths, palette, runs[1..], run);
      assert RunBits(values, lengths, palette, runs[0])
             + (RunsBits(values, lengths, palette, runs[1..]) + RunBits(values, lengths, palette, run))
          == RunsBits(values, lengths, palette, runs) + RunBits(values, lengths, palette, run);
    }
  }

  method WriteRuns(writer: BitWriter, values: seq<HuffCode>, lengths: seq<HuffCode>, palette: seq<byte>, runs: seq<Run>)
    requires writer.Valid() && Encodable(values, lengths, palette, runs)
    modifies writer
    ensures writer.Valid() && writer.Written() == old(writer.Written()) + RunsBits(values, lengths, palette, runs)
  {
    hide BitWriter.Valid, BitWriter.Written, RunBits, RunHasCodes;
    ghost var was := writer.Written();
    assert was + [] == was;
    for k := 0 to |runs|
      invariant writer.Valid() && writer.Written() == was + RunsBits(values, lengths, palette, runs[..k])
    {
      assert runs[..k + 1] == runs[..k] + [runs[k]];
      RunsSnoc(values, lengths, palette, runs[..k], runs[k]);
      ghost var now := RunsBits(values, lengths, palette, runs[..k]);
      WriteRun(writer, values, lengths, palette, runs[k]);
      assert was + now + RunBits(values, lengths, palette, runs[k]) == was + (now + RunBits(values, lengths, palette, runs[k]));
    }
    assert runs[..|runs|] == runs;
  }

  method SymbolsOf(runs: seq<Run>, palette: seq<byte>) returns (indices: seq<nat>, classes: seq<nat>)
    requires Legal(runs) && palette == Palette(runs)
    ensures indices == Indices(runs) && classes == ClassSyms(runs)
    ensures forall k :: 0 <= k < |runs| ==> indices[k] < |palette| && classes[k] < CLASSES
  {
    hide IndexIn, Palette, ClassOf;
    indices, classes := [], [];
    for k := 0 to |runs|
      invariant |indices| == |classes| == k
      invariant forall j :: 0 <= j < k ==> indices[j] == Indices(runs)[j] && classes[j] == ClassSyms(runs)[j]
    {
      indices := indices + [IndexIn(palette, runs[k].value)];
      classes := classes + [ClassOf(runs[k]).sym];
    }
    forall k | 0 <= k < |runs| ensures indices[k] < |palette| && classes[k] < CLASSES {
      PaletteHas(runs, k);
    }
  }

  method EncodeRuns(data: seq<byte>) returns (s: seq<byte>)
    requires |data| < WORD
    ensures s == RunsPayloadOf(data)
  {
    hide BitWriter.Valid, BitWriter.Written, RunsBits, BitsOf, Kraft, Canonical, Header, Occurrences, Encodes, Runs, Legal, Expanded,
      Palette, Indices, ClassSyms, Encodable, LengthsOver, BytesOf;
    RunsBack(data);
    var runs := RunsOf(data);
    var palette := PaletteOf(runs);
    PaletteSize(runs);
    var indices, classes := SymbolsOf(runs, palette);
    var values, lengths;
    ghost var vl, ll;
    values, vl := CodesFor(indices, |palette|);
    lengths, ll := CodesFor(classes, CLASSES);
    RunsEncodable(runs, palette, values, lengths);
    var writer := new BitWriter();
    WriteRuns(writer, values, lengths, palette, runs);
    assert [] + RunsBits(values, lengths, palette, runs) == RunsBits(values, lengths, palette, runs);
    var body := writer.Finish();
    var small, count := LengthsOf(values), |palette|;
    s := Header(|data|, 1) + PutWord(|runs|) + [count % 256, count / 256] + palette
         + seq<byte>(|small|, k requires 0 <= k < |small| => small[k]) + Nibbles(LengthsOf(lengths)) + body;
    assert s == RunsHeader(|data|, runs, palette, vl, ll) + body;
  }

  lemma PaletteSize(runs: seq<Run>)
    ensures |Palette(runs)| <= 256
  {
    hide PaletteTo;
  }

  lemma RunsEncodable(runs: seq<Run>, palette: seq<byte>, values: seq<HuffCode>, lengths: seq<HuffCode>)
    requires Legal(runs) && palette == Palette(runs) && |values| == |palette| && |lengths| == CLASSES
    requires Encodes(values, Indices(runs)) && Encodes(lengths, ClassSyms(runs))
    ensures Encodable(values, lengths, palette, runs)
  {
    hide Palette, IndexIn, ClassOf, Decodable;
    PaletteSize(runs);
    forall k | 0 <= k < |runs| ensures RunHasCodes(values, lengths, palette, runs[k]) {
      PaletteHas(runs, k);
      assert Indices(runs)[k] == IndexIn(palette, runs[k].value) && ClassSyms(runs)[k] == ClassOf(runs[k]).sym;
    }
  }

  method Encode(data: seq<byte>) returns (s: seq<byte>)
    requires |data| < WORD
    ensures s == Encoded(data)
  {
    hide DirectOf, RunsPayloadOf, Header;
    if data == [] {
      return Header(0, 0);
    }
    var direct := EncodeDirect(data);
    var runs := EncodeRuns(data);
    s := if |direct| <= |runs| then direct else runs;
  }

  // ------------------------------------------------------------ decoding as it runs

  ghost predicate IsLookup(lookup: seq<nat>, maxLen: nat, codes: seq<HuffCode>) {
    && |codes| <= 256 && maxLen == Longest(codes) <= MAX_BITS && |lookup| == Pow2(maxLen)
    && forall idx :: 0 <= idx < |lookup| ==> lookup[idx] == Entry(codes, maxLen, idx, |codes|)
  }

  lemma LookupShort(lookup: seq<nat>, maxLen: nat, codes: seq<HuffCode>)
    requires IsLookup(lookup, maxLen, codes)
    ensures maxLen <= MAX_BITS && |lookup| == Pow2(maxLen)
    ensures forall idx :: 0 <= idx < |lookup| ==> lookup[idx] / SYMBOL_LIMIT <= maxLen
  {
    hide Entry, Matches, Pow2, Longest;
    forall idx | 0 <= idx < |lookup| ensures lookup[idx] / SYMBOL_LIMIT <= maxLen {
      EntryMatches(codes, maxLen, idx, |codes|);
    }
  }

  lemma LookupReads(lookup: seq<nat>, maxLen: nat, codes: seq<HuffCode>, bits: seq<bool>)
    requires IsLookup(lookup, maxLen, codes) && Peek(bits, maxLen) < |lookup|
    ensures var e := lookup[Peek(bits, maxLen)];
      match EntryRead(e, |bits|)
      case None => ReadSymbol(codes, bits) == None
      case Some(sym) => sym < 256 && ReadSymbol(codes, bits) == Some((sym, bits[e / SYMBOL_LIMIT..]))
  {
    hide Entry, Pow2, Longest, Peek;
    EntryMatches(codes, maxLen, Peek(bits, maxLen), |codes|);
  }

  method ReadOne(reader: BitReader, lookup: array<nat>, maxLen: nat, ghost codes: seq<HuffCode>) returns (sym: Option<byte>)
    requires reader.Valid() && IsLookup(lookup[..], maxLen, codes)
    modifies reader
    ensures reader.Valid()
    ensures match ReadSymbol(codes, old(reader.Rest()))
            case None => sym == None
            case Some((b, rest)) => sym == Some(b) && reader.Rest() == rest
  {
    hide BitReader.Valid, BitReader.Rest, IsLookup, Peek, ReadSymbol, Pow2;
    LookupShort(lookup[..], maxLen, codes);
    ghost var bits := reader.Rest();
    var read := reader.ReadEntry(lookup, maxLen);
    LookupReads(lookup[..], maxLen, codes, bits);
    if read.None? {
      return None;
    }
    sym := Some(read.value);
  }

  method TableOf(lens: seq<nat>) returns (lookup: array<nat>, maxLen: nat)
    requires |lens| <= 256 && Short(lens)
    ensures fresh(lookup) && IsLookup(lookup[..], maxLen, Rebuilt(lens))
  {
    hide Entry, Pow2, Longest;
    var longest := MaxOf(lens);
    var codes := CanonicalCodes(lens, |lens|);
    assert codes[..|lens|] == codes;
    if longest == 0 && lens != [] {
      codes := codes[0 := HuffCode(0, 1)];
    }
    lookup, maxLen := BuildDecodeTable(codes);
  }

  method DecodeDirect(s: seq<byte>, n: nat) returns (d: Option<seq<byte>>)
    requires |s| >= HEADER
    ensures d == DirectDecoded(s, n)
  {
    hide BitReader.Valid, BitReader.Rest, IsLookup, Rebuilt, ReadSymbol, BitsOf, Unpacked;
    if |s| < HEADER + PACKED {
      return None;
    }
    var lens := Unpacked(s[HEADER..HEADER + PACKED]);
    var lookup, maxLen := TableOf(lens);
    ghost var codes := Rebuilt(lens);
    var reader := new BitReader(s[HEADER + PACKED..]);
    var out: seq<byte> := [];
    ghost var goal := ReadSymbols(codes, reader.Rest(), n);
    assert goal.Some? ==> out + goal.value == goal.value;
    for k := 0 to n
      invariant reader.Valid() && IsLookup(lookup[..], maxLen, codes)
      invariant Continued(out, ReadSymbols(codes, reader.Rest(), n - k)) == goal
    {
      var sym := ReadOne(reader, lookup, maxLen, codes);
      if sym.None? {
        return None;
      }
      ghost var later := ReadSymbols(codes, reader.Rest(), n - k - 1);
      if later.Some? {
        assert out + ([sym.value] + later.value) == (out + [sym.value]) + later.value;
      }
      out := out + [sym.value];
    }
    assert out + [] == out;
    d := Some(out);
  }

  ghost function Continued(done: seq<byte>, later: Option<seq<byte>>): Option<seq<byte>> {
    if later.None? then None else Some(done + later.value)
  }

  method ReadOneRun(reader: BitReader, values: array<nat>, valuesMax: nat, lengths: array<nat>, lengthsMax: nat, palette: seq<byte>,
                    ghost valueCodes: seq<HuffCode>, ghost lengthCodes: seq<HuffCode>)
    returns (run: Option<Run>)
    requires reader.Valid() && IsLookup(values[..], valuesMax, valueCodes) && IsLookup(lengths[..], lengthsMax, lengthCodes)
    requires |valueCodes| == |palette| <= 256 && |lengthCodes| == CLASSES
    modifies reader
    ensures reader.Valid()
    ensures match ReadRun(valueCodes, lengthCodes, palette, old(reader.Rest()))
            case None => run == None
            case Some((r, rest)) => run == Some(r) && reader.Rest() == rest
  {
    hide BitReader.Valid, BitReader.Rest, IsLookup, ReadSymbol, Peek, Dropped, SpanFrom;
    var index := ReadOne(reader, values, valuesMax, valueCodes);
    if index.None? {
      return None;
    }
    var sym := ReadOne(reader, lengths, lengthsMax, lengthCodes);
    if sym.None? {
      return None;
    }
    AllSpans(sym.value);
    var span := SpanFrom(sym.value, 0).value;
    NothingPeeked(reader.Rest());
    var extra := 0;
    if span.bits > 0 {
      extra := reader.ReadBits(span.bits);
    }
    run := Some(Run(palette[index.value], span.base + extra + 1));
  }

  lemma NothingPeeked(bits: seq<bool>)
    ensures Peek(bits, 0) == 0 && Dropped(bits, 0) == bits
  {
  }

  method DecodeRuns(s: seq<byte>, n: nat) returns (d: Option<seq<byte>>)
    requires |s| >= HEADER
    ensures d == RunsDecoded(s, n)
  {
    hide GetWord, RunsDecodedFrom;
    if |s| < HEADER + 6 + PACKED {
      return None;
    }
    var runs: nat, size: nat := GetWord(s[HEADER..HEADER + 4]), s[HEADER + 4] as nat + 256 * s[HEADER + 5] as nat;
    var pos := HEADER + 6;
    if size == 0 || size > 256 || |s| - pos < size {
      return None;
    }
    if |s| - (pos + size) < size + PACKED {
      return None;
    }
    d := DecodeRunsFrom(s, n, runs, size);
  }

  method DecodeRunsFrom(s: seq<byte>, n: nat, runs: nat, size: nat) returns (d: Option<seq<byte>>)
    requires 0 < size <= 256 && |s| >= HEADER + 6 + 2 * size + PACKED
    ensures d == RunsDecodedFrom(s, n, runs, size)
  {
    hide BitReader.Valid, BitReader.Rest, IsLookup, Rebuilt, ReadRun, BitsOf, Unpacked;
    var pos := HEADER + 6;
    var palette: seq<byte>, valueLens: seq<nat> := s[pos..pos + size], s[pos + size..pos + 2 * size];
    if TooLong(valueLens) {
      return None;
    }
    var end := pos + 2 * size + PACKED;
    var lengthLens := Unpacked(s[pos + 2 * size..end]);
    var values, valuesMax := TableOf(valueLens);
    var lengths, lengthsMax := TableOf(lengthLens);
    ghost var valueCodes, lengthCodes := Rebuilt(valueLens), Rebuilt(lengthLens);
    var reader := new BitReader(s[end..]);
    var out: seq<byte> := [];
    ghost var goal := ReadRuns(valueCodes, lengthCodes, palette, reader.Rest(), runs, n, []);
    for k := 0 to runs
      invariant reader.Valid() && IsLookup(values[..], valuesMax, valueCodes) && IsLookup(lengths[..], lengthsMax, lengthCodes)
      invariant ReadRuns(valueCodes, lengthCodes, palette, reader.Rest(), runs - k, n, out) == goal
    {
      var run := ReadOneRun(reader, values, valuesMax, lengths, lengthsMax, palette, valueCodes, lengthCodes);
      if run.None? {
        return None;
      }
      if |out| + run.value.length > n {
        return None;
      }
      out := out + Repeated(run.value.value, run.value.length);
    }
    if |out| != n {
      return None;
    }
    d := Some(out);
  }

  method Decode(s: seq<byte>) returns (d: Option<seq<byte>>)
    ensures d == Decoded(s)
  {
    hide GetWord, DirectDecoded, RunsDecoded;
    if |s| < HEADER || s[..4] != MAGIC {
      return None;
    }
    var n := GetWord(s[5..9]);
    if n == 0 {
      return Some([]);
    }
    if s[9] == 0 {
      d := DecodeDirect(s, n);
    } else if s[9] == 1 {
      d := DecodeRuns(s, n);
    } else {
      d := None;
    }
  }
}
