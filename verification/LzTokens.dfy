/** LZ77 tokens as symbols: length and distance codes with extra bits, and the cache
    of recent offsets. */
module LzTokens {
  import opened BitStrings
  import opened Tokens
  import opened Sequences

  predicate ValidToken(t: Token) {
    t.Match? ==> MIN_MATCH <= t.length <= MAX_MATCH && 1 <= t.offset <= MAX_WINDOW
  }

  const LITLEN_SYMBOLS: nat := 286
  const DIST_SYMBOLS: nat := 48
  const REP_OFFSET_0: nat := 44
  const FIRST_LENGTH: nat := 257

  datatype Range = Range(base: nat, extra: nat)

  function LengthTable(): (t: seq<Range>)
    ensures |t| == 29
  {
    [Range(3, 0), Range(4, 0), Range(5, 0), Range(6, 0), Range(7, 0), Range(8, 0), Range(9, 0), Range(10, 0),
     Range(11, 1), Range(13, 1), Range(15, 1), Range(17, 1), Range(19, 2), Range(23, 2), Range(27, 2), Range(31, 2),
     Range(35, 3), Range(43, 3), Range(51, 3), Range(59, 3), Range(67, 4), Range(83, 4), Range(99, 4), Range(115, 4),
     Range(131, 5), Range(163, 5), Range(195, 5), Range(227, 5), Range(258, 0)]
  }

  function DistTable(): (t: seq<Range>)
    ensures |t| == 44
  {
    [Range(1, 0), Range(2, 0), Range(3, 0), Range(4, 0), Range(5, 1), Range(7, 1), Range(9, 2), Range(13, 2),
     Range(17, 3), Range(25, 3), Range(33, 4), Range(49, 4), Range(65, 5), Range(97, 5), Range(129, 6), Range(193, 6),
     Range(257, 7), Range(385, 7), Range(513, 8), Range(769, 8), Range(1025, 9), Range(1537, 9),
     Range(2049, 10), Range(3073, 10), Range(4097, 11), Range(6145, 11), Range(8193, 12), Range(12289, 12),
     Range(16385, 13), Range(24577, 13), Range(32769, 14), Range(49153, 14), Range(65537, 15), Range(98305, 15),
     Range(131073, 16), Range(196609, 16), Range(262145, 17), Range(393217, 17), Range(524289, 18), Range(786433, 18),
     Range(1048577, 19), Range(1572865, 19), Range(2097153, 20), Range(3145729, 20)]
  }

  predicate InRange(r: Range, v: nat) {
    r.base <= v < r.base + Pow2(r.extra)
  }

  /** Each range ends where the next begins. */
  ghost predicate Joined(t: seq<Range>, i: nat)
    requires i + 1 < |t|
  {
    t[i].base + Pow2(t[i].extra) == t[i + 1].base
  }

  /** The last length is an extra code of its own, already covered by the range before it. */
  lemma LengthsJoined(i: nat)
    requires i < 27
    ensures Joined(LengthTable(), i)
  {
  }

  lemma LengthEnds()
    ensures LengthTable()[0] == Range(3, 0) && LengthTable()[27] == Range(227, 5) && LengthTable()[28] == Range(258, 0)
    ensures Pow2(5) == 32
  {
  }

  lemma LengthExtras(i: nat)
    requires i < 29
    ensures LengthTable()[i].extra <= 5
  {
  }

  lemma DistEnds()
    ensures DistTable()[0] == Range(1, 0) && DistTable()[43] == Range(3145729, 20)
  {
  }

  lemma DistExtras(i: nat)
    requires i < 44
    ensures DistTable()[i].extra <= 20
  {
  }

  ghost predicate Doubles(t: seq<Range>, i: nat)
    requires 2 <= i < |t| - 1
  {
    t[i + 1].base as int - t[i].base == 2 * (t[i - 1].base as int - t[i - 2].base) && t[i].extra == t[i - 2].extra + 1
  }

  lemma NearDoubles(i: nat)
    requires 4 <= i < 24
    ensures Doubles(DistTable(), i)
  {
  }

  lemma FarDoubles(i: nat)
    requires 24 <= i < 43
    ensures Doubles(DistTable(), i)
  {
  }

  /** Every second range doubles in width. */
  lemma DistDoubles(i: nat)
    requires 4 <= i < 43
    ensures Doubles(DistTable(), i)
  {
    hide DistTable, Doubles;
    if i < 24 {
      NearDoubles(i);
    } else {
      FarDoubles(i);
    }
  }

  lemma DistStart(i: nat)
    requires i < 4
    ensures Joined(DistTable(), i)
  {
  }

  lemma {:induction false} DistsJoined(i: nat)
    requires i < 43
    ensures Joined(DistTable(), i)
  {
    hide DistTable;
    if i < 4 {
      DistStart(i);
    } else {
      DistDoubles(i);
      DistsJoined(i - 2);
    }
  }

  // ------------------------------------------------------------ lengths

  datatype Code = Code(sym: nat, bits: nat, val: nat)

  predicate LengthFits(r: Range, length: nat) {
    if r.extra == 0 then length == r.base else InRange(r, length)
  }

  /** `encode_length`: the first entry that fits. */
  function LengthFrom(length: nat, i: nat): Code
    decreases 29 - i
  {
    if i >= 29 then Code(285, 0, 0)
    else
      var r := LengthTable()[i];
      if LengthFits(r, length) then Code(FIRST_LENGTH + i, r.extra, if r.extra == 0 then 0 else length - r.base)
      else LengthFrom(length, i + 1)
  }

  /** A length code and its extra bits give the length back. */
  ghost predicate LengthBack(c: Code, length: nat) {
    && FIRST_LENGTH <= c.sym < LITLEN_SYMBOLS && c.bits == LengthTable()[c.sym - FIRST_LENGTH].extra <= 5
    && c.val < Pow2(c.bits) && LengthTable()[c.sym - FIRST_LENGTH].base + c.val == length
  }

  lemma {:induction false} LengthFound(length: nat, i: nat)
    requires i <= 27 && LengthTable()[i].base <= length <= MAX_MATCH
    ensures LengthBack(LengthFrom(length, i), length)
    decreases 29 - i
  {
    hide LengthTable, Pow2;
    LengthEnds();
    LengthExtras(i);
    ExtraZero();
    if !LengthFits(LengthTable()[i], length) {
      LengthsJoined(i);
      LengthFound(length, i + 1);
    }
  }

  lemma ExtraZero()
    ensures Pow2(0) == 1
  {
  }

  lemma LengthRoundTrip(length: nat)
    requires MIN_MATCH <= length <= MAX_MATCH
    ensures LengthBack(LengthFrom(length, 0), length)
  {
    LengthEnds();
    LengthFound(length, 0);
  }

  method EncodeLength(length: nat) returns (c: Code)
    ensures c == LengthFrom(length, 0)
  {
    for i := 0 to 29
      invariant LengthFrom(length, i) == LengthFrom(length, 0)
    {
      var r := LengthTable()[i];
      if r.extra == 0 {
        if length == r.base {
          return Code(FIRST_LENGTH + i, 0, 0);
        }
      } else if r.base <= length < r.base + Pow2(r.extra) {
        return Code(FIRST_LENGTH + i, r.extra, length - r.base);
      }
    }
    c := Code(285, 0, 0);
  }

  // ------------------------------------------------------------ offsets

  /** `encode_offset`: searching from the top. */
  function DistFrom(offset: nat, n: nat): Code
    requires n <= 44 && offset >= 1
  {
    if n == 0 then Code(43, 20, if offset >= 3145729 then offset - 3145729 else 0)
    else
      var r := DistTable()[n - 1];
      if InRange(r, offset) then Code(n - 1, r.extra, offset - r.base) else DistFrom(offset, n - 1)
  }

  ghost predicate DistBack(c: Code, offset: nat) {
    && c.sym < REP_OFFSET_0 && c.bits == DistTable()[c.sym].extra <= 20
    && c.val < Pow2(c.bits) && DistTable()[c.sym].base + c.val == offset
  }

  lemma {:induction false} DistFound(offset: nat, n: nat)
    requires 1 <= n <= 44 && 1 <= offset < DistTable()[n - 1].base + Pow2(DistTable()[n - 1].extra)
    ensures DistBack(DistFrom(offset, n), offset)
    decreases n
  {
    hide DistTable, Pow2;
    DistEnds();
    DistExtras(n - 1);
    if !InRange(DistTable()[n - 1], offset) {
      DistsJoined(n - 2);
      DistFound(offset, n - 1);
    }
  }

  lemma DistRoundTrip(offset: nat)
    requires 1 <= offset <= MAX_WINDOW
    ensures DistBack(DistFrom(offset, 44), offset)
  {
    hide DistTable;
    DistEnds();
    Pow20();
    DistFound(offset, 44);
  }

  lemma Pow20()
    ensures Pow2(20) == 0x10_0000
  {
    Pow2Add(10, 10);
    assert Pow2(10) == 1024;
  }

  method EncodeOffset(offset: nat) returns (c: Code)
    requires offset >= 1
    ensures c == DistFrom(offset, 44)
  {
    hide DistTable;
    var i := 44;
    while i > 0
      invariant 0 <= i <= 44 && DistFrom(offset, i) == DistFrom(offset, 44)
    {
      i := i - 1;
      var r := DistTable()[i];
      if offset >= r.base && offset < r.base + Pow2(r.extra) {
        return Code(i, r.extra, offset - r.base);
      }
    }
    c := Code(43, 20, if offset >= 3145729 then offset - 3145729 else 0);
  }

  // ------------------------------------------------------------ recent offsets

  type Recent = r: seq<nat> | |r| == 4 witness [1, 2, 3, 4]

  const FIRST_RECENT: Recent := [1, 2, 3, 4]

  function Found(r: Recent, offset: nat): (i: Option<nat>)
    ensures i.Some? ==> i.value < 4 && r[i.value] == offset
    ensures i.None? ==> offset !in r
  {
    if offset == r[0] then Some(0)
    else if offset == r[1] then Some(1)
    else if offset == r[2] then Some(2)
    else if offset == r[3] then Some(3)
    else None
  }

  /** Move the entry at `idx` to the front. */
  function Promoted(r: Recent, idx: nat): Recent
    requires idx < 4
  {
    [r[idx]] + r[..idx] + r[idx + 1..]
  }

  function Inserted(r: Recent, offset: nat): Recent {
    [offset] + r[..3]
  }

  class MruCache {
    var recent: Recent

    constructor ()
      ensures recent == FIRST_RECENT
    {
      recent := [1, 2, 3, 4];
    }

    /** Indices past the cache change nothing. */
    method Promote(idx: nat)
      modifies this
      ensures recent == if idx < 4 then Promoted(old(recent), idx) else old(recent)
    {
      if idx == 1 {
        recent := recent[0 := recent[1]][1 := recent[0]];
      } else if idx == 2 {
        var tmp := recent[2];
        recent := recent[2 := recent[1]];
        recent := recent[1 := recent[0]];
        recent := recent[0 := tmp];
      } else if idx == 3 {
        var tmp := recent[3];
        recent := recent[3 := recent[2]];
        recent := recent[2 := recent[1]];
        recent := recent[1 := recent[0]];
        recent := recent[0 := tmp];
      }
    }

    method Insert(offset: nat)
      modifies this
      ensures recent == Inserted(old(recent), offset)
    {
      recent := recent[3 := recent[2]];
      recent := recent[2 := recent[1]];
      recent := recent[1 := recent[0]];
      recent := recent[0 := offset];
    }
  }
}
