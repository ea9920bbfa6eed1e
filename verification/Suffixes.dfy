/** Suffix order, S/L types, LMS positions and buckets of an integer text. */
module Suffixes {
  import opened Counting

  /** Lexicographic order; a prefix comes first. */
  predicate LexLe(a: seq<nat>, b: seq<nat>) {
    a == [] || (b != [] && (a[0] < b[0] || (a[0] == b[0] && LexLe(a[1..], b[1..]))))
  }

  /** The same order on the windows text[a..ea] and text[b..eb], by index. */
  predicate WinLe(s: seq<nat>, a: nat, ea: nat, b: nat, eb: nat)
    requires ea <= |s| && eb <= |s|
    decreases ea - a
  {
    a >= ea || (b < eb && (s[a] < s[b] || (s[a] == s[b] && WinLe(s, a + 1, ea, b + 1, eb))))
  }

  lemma {:induction false} WinIsLex(s: seq<nat>, a: nat, ea: nat, b: nat, eb: nat)
    requires a <= ea <= |s| && b <= eb <= |s|
    ensures WinLe(s, a, ea, b, eb) == LexLe(s[a..ea], s[b..eb])
    decreases ea - a
  {
    if a < ea && b < eb {
      assert s[a..ea][1..] == s[a + 1..ea] && s[b..eb][1..] == s[b + 1..eb];
      WinIsLex(s, a + 1, ea, b + 1, eb);
    }
  }

  lemma {:induction false} WinTransitive(s: seq<nat>, a: nat, ea: nat, b: nat, eb: nat, c: nat, ec: nat)
    requires ea <= |s| && eb <= |s| && ec <= |s|
    requires WinLe(s, a, ea, b, eb) && WinLe(s, b, eb, c, ec)
    ensures WinLe(s, a, ea, c, ec)
    decreases ea - a
  {
    if a < ea && s[a] == s[b] && s[b] == s[c] {
      WinTransitive(s, a + 1, ea, b + 1, eb, c + 1, ec);
    }
  }

  lemma {:induction false} WinTotal(s: seq<nat>, a: nat, ea: nat, b: nat, eb: nat)
    requires ea <= |s| && eb <= |s|
    ensures WinLe(s, a, ea, b, eb) || WinLe(s, b, eb, a, ea)
    decreases ea - a
  {
    if a < ea && b < eb && s[a] == s[b] {
      WinTotal(s, a + 1, ea, b + 1, eb);
    }
  }

  /** The next `d` symbols from `a` and from `b` are the same. */
  predicate Agree(s: seq<nat>, a: nat, b: nat, d: nat)
    requires a + d <= |s| && b + d <= |s|
    decreases d
  {
    d == 0 || (s[a] == s[b] && Agree(s, a + 1, b + 1, d - 1))
  }

  lemma {:induction false} AgreeAt(s: seq<nat>, a: nat, b: nat, d: nat, k: nat)
    requires k < d && a + d <= |s| && b + d <= |s| && Agree(s, a, b, d)
    ensures s[a + k] == s[b + k]
    decreases k
  {
    if k > 0 {
      AgreeAt(s, a + 1, b + 1, d - 1, k - 1);
    }
  }

  lemma {:induction false} AgreeSnoc(s: seq<nat>, a: nat, b: nat, d: nat)
    requires a + d < |s| && b + d < |s| && Agree(s, a, b, d) && s[a + d] == s[b + d]
    ensures Agree(s, a, b, d + 1)
    decreases d
  {
    if d > 0 {
      AgreeSnoc(s, a + 1, b + 1, d - 1);
    }
  }

  /** The windows hold the same symbols. */
  predicate WinEq(s: seq<nat>, a: nat, ea: nat, b: nat, eb: nat)
    requires a <= ea <= |s| && b <= eb <= |s|
  {
    ea - a == eb - b && Agree(s, a, b, ea - a)
  }

  lemma {:induction false} WinAntisymmetric(s: seq<nat>, a: nat, ea: nat, b: nat, eb: nat)
    requires a <= ea <= |s| && b <= eb <= |s|
    requires WinLe(s, a, ea, b, eb) && WinLe(s, b, eb, a, ea)
    ensures WinEq(s, a, ea, b, eb)
    decreases ea - a
  {
    if a < ea {
      WinAntisymmetric(s, a + 1, ea, b + 1, eb);
    }
  }

  /** Order decided past a common stretch of length `d`. */
  lemma {:induction false} WinSkip(s: seq<nat>, a: nat, ea: nat, b: nat, eb: nat, d: nat)
    requires a + d <= ea <= |s| && b + d <= eb <= |s| && Agree(s, a, b, d)
    ensures WinLe(s, a, ea, b, eb) == WinLe(s, a + d, ea, b + d, eb)
    decreases d
  {
    if d > 0 {
      WinSkip(s, a + 1, ea, b + 1, eb, d - 1);
    }
  }

  /** A strict difference inside two windows decides every longer window. */
  lemma {:induction false} WinExtend(s: seq<nat>, a: nat, ea: nat, b: nat, eb: nat)
    requires a <= ea <= |s| && b <= eb <= |s|
    requires WinLe(s, a, ea, b, eb)
    requires !(ea - a <= eb - b && Agree(s, a, b, ea - a))
    ensures WinLe(s, a, |s|, b, |s|)
    decreases ea - a
  {
    if s[a] == s[b] {
      WinExtend(s, a + 1, ea, b + 1, eb);
    }
  }

  // ------------------------------------------------------------ texts and types

  /** `t` ends in a symbol that is smaller than all others. */
  predicate Terminated(t: seq<nat>) {
    |t| >= 1 && forall i :: 0 <= i < |t| - 1 ==> t[|t| - 1] < t[i]
  }

  /** S-type: the suffix is smaller than the next one; the sentinel is S-type. */
  predicate SType(t: seq<nat>, i: nat)
    decreases |t| - i
  {
    i + 1 >= |t| || t[i] < t[i + 1] || (t[i] == t[i + 1] && SType(t, i + 1))
  }

  predicate LType(t: seq<nat>, i: nat) {
    !SType(t, i)
  }

  predicate Lms(t: seq<nat>, i: nat) {
    0 < i < |t| && SType(t, i) && LType(t, i - 1)
  }

  /** Symbol and type in one number: L before S within a symbol. */
  function Enc(t: seq<nat>): (e: seq<nat>)
    ensures |e| == |t|
    ensures forall i :: 0 <= i < |t| ==> e[i] == 2 * t[i] + if SType(t, i) then 1 else 0
  {
    seq(|t|, i requires 0 <= i < |t| => 2 * t[i] + if SType(t, i) then 1 else 0)
  }

  lemma {:induction false} LBeforeS(t: seq<nat>, a: nat, b: nat)
    requires Terminated(t) && a < |t| && b < |t| && t[a] == t[b] && LType(t, a) && SType(t, b)
    ensures WinLe(t, a, |t|, b, |t|)
    decreases |t| - a
  {
    if b + 1 < |t| && t[a + 1] == t[a] && t[b + 1] == t[b] {
      LBeforeS(t, a + 1, b + 1);
    }
  }

  /** The typed order of suffixes is the order of suffixes. */
  lemma {:induction false} TypedOrder(t: seq<nat>, a: nat, b: nat)
    requires Terminated(t) && a < |t| && b < |t|
    requires WinLe(Enc(t), a, |t|, b, |t|)
    ensures WinLe(t, a, |t|, b, |t|)
    decreases |t| - a
  {
    if t[a] == t[b] {
      if SType(t, a) == SType(t, b) {
        if a + 1 < |t| && b + 1 < |t| {
          TypedOrder(t, a + 1, b + 1);
        }
      } else {
        LBeforeS(t, a, b);
      }
    }
  }

  // ------------------------------------------------------------ buckets

  ghost function Below(t: seq<nat>, c: nat): set<nat> {
    set i: nat | i < |t| && t[i] < c
  }

  ghost function LSet(t: seq<nat>, c: nat): set<nat> {
    set i: nat | i < |t| && t[i] == c && LType(t, i)
  }

  ghost function SSet(t: seq<nat>, c: nat): set<nat> {
    set i: nat | i < |t| && t[i] == c && SType(t, i)
  }

  /** First slot of bucket `c`, and first slot of its S part. */
  ghost function Start(t: seq<nat>, c: nat): nat {
    |Below(t, c)|
  }

  ghost function SStart(t: seq<nat>, c: nat): nat {
    |Below(t, c)| + |LSet(t, c)|
  }

  lemma BucketSizes(t: seq<nat>, c: nat)
    ensures Start(t, c + 1) == SStart(t, c) + |SSet(t, c)|
    ensures Start(t, c) <= SStart(t, c) <= Start(t, c + 1)
  {
    var u := Below(t, c) + LSet(t, c);
    assert Below(t, c + 1) == u + SSet(t, c);
    assert Below(t, c) !! LSet(t, c) && u !! SSet(t, c);
  }

  lemma {:induction false} StartMonotone(t: seq<nat>, c: nat, d: nat)
    requires c <= d
    ensures Start(t, c) <= Start(t, d)
  {
    SubsetSize(Below(t, c), Below(t, d));
  }

  lemma StartEnd(t: seq<nat>, k: nat)
    requires forall i :: 0 <= i < |t| ==> t[i] < k
    ensures Start(t, k) == |t|
  {
    assert Below(t, k) == Range(|t|);
  }

  /** Slot `p` lies in the part of the array where position `x` belongs. */
  ghost predicate Home(t: seq<nat>, p: nat, x: nat)
    requires x < |t|
  {
    if LType(t, x) then Start(t, t[x]) <= p < SStart(t, t[x])
    else SStart(t, t[x]) <= p < Start(t, t[x] + 1)
  }

  /** Slots in order have homes in order. */
  lemma HomesOrdered(t: seq<nat>, p: nat, x: nat, q: nat, y: nat)
    requires x < |t| && y < |t| && Home(t, p, x) && Home(t, q, y) && p <= q
    ensures t[x] <= t[y]
    ensures t[x] == t[y] && LType(t, y) ==> LType(t, x)
    ensures Start(t, t[x]) <= p < Start(t, t[x] + 1)
  {
    BucketSizes(t, t[x]);
    BucketSizes(t, t[y]);
    if t[y] < t[x] {
      StartMonotone(t, t[y] + 1, t[x]);
    }
  }
}
