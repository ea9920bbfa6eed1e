/** Byte strings read as big-endian integers, and the little-endian 32-bit
    header words every container of the compressor uses. */
module Bytes {
  import opened Sequences

  type byte = b: int | 0 <= b < 256

  const WORD: nat := 0x1_0000_0000

  function Pow256(k: nat): (r: nat)
    ensures r >= 1
  {
    if k == 0 then 1 else 256 * Pow256(k - 1)
  }

  lemma {:induction false} PowAdd(i: nat, j: nat)
    ensures Pow256(i + j) == Pow256(i) * Pow256(j)
  {
    if i > 0 {
      PowAdd(i - 1, j);
      assert Pow256(i + j) == 256 * Pow256((i - 1) + j);
    }
  }

  /** The bytes of `s` as one big-endian integer. */
  function Val(s: seq<byte>): nat {
    if s == [] then 0 else 256 * Val(s[..|s| - 1]) + s[|s| - 1]
  }

  lemma ValSnoc(s: seq<byte>, b: byte)
    ensures Val(s + [b]) == 256 * Val(s) + b
  {
    assert (s + [b])[..|s|] == s;
  }

  lemma {:induction false} ValConcat(a: seq<byte>, b: seq<byte>)
    ensures Val(a + b) == Val(a) * Pow256(|b|) + Val(b)
  {
    if b == [] {
      assert a + b == a;
    } else {
      var b' := b[..|b| - 1];
      assert a + b == (a + b') + [b[|b| - 1]];
      ValSnoc(a + b', b[|b| - 1]);
      ValConcat(a, b');
      assert Val(a) * Pow256(|b|) == 256 * (Val(a) * Pow256(|b'|));
    }
  }

  lemma {:induction false} ValBound(s: seq<byte>)
    ensures Val(s) < Pow256(|s|)
  {
    if s != [] {
      ValBound(s[..|s| - 1]);
    }
  }

  /** Two strings of one length that read as the same integer are the same string. */
  lemma {:induction false} ValInjective(a: seq<byte>, b: seq<byte>)
    requires |a| == |b| && Val(a) == Val(b)
    ensures a == b
  {
    if a != [] {
      var n := |a| - 1;
      ValInjective(a[..n], b[..n]);
      assert a == a[..n] + [a[n]] && b == b[..n] + [b[n]];
    }
  }

  /** Little-endian 32-bit header word; the value is truncated as `as u32` does. */
  function PutWord(v: nat): (s: seq<byte>)
    ensures |s| == 4
  {
    [v % 256, v / 0x100 % 256, v / 0x1_0000 % 256, v / 0x100_0000 % 256]
  }

  function GetWord(s: seq<byte>): (v: nat)
    requires |s| == 4
    ensures v < WORD
  {
    s[0] as int + 0x100 * s[1] as int + 0x1_0000 * s[2] as int + 0x100_0000 * s[3] as int
  }

  lemma WordRoundTrip(v: nat)
    requires v < WORD
    ensures GetWord(PutWord(v)) == v
  {
    var a := v / 0x100;
    var b := a / 0x100;
    var c := b / 0x100;
    assert v / 0x1_0000 == b && v / 0x100_0000 == c && c < 256;
  }

  /** The word at `pos`, if it lies within the bytes. */
  function WordFrom(s: seq<byte>, pos: nat): Option<nat> {
    if pos + 4 <= |s| then Some(GetWord(s[pos..pos + 4])) else None
  }
}
