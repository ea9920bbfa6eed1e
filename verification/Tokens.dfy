/** LZ77 tokens, the limits every match finder shares, and the overlapping copy. */
module Tokens {
  import opened Bytes

  datatype Token = Literal(b: byte) | Match(offset: nat, length: nat)

  const MIN_MATCH: nat := 3
  const MAX_MATCH: nat := 258
  const MAX_WINDOW: nat := 0x40_0000
  const HASH_SIZE: nat := 0x4_0000

  /** Top eighteen bits of the product with a 32-bit multiplier. */
  function Hash3(a: byte, b: byte, c: byte): (h: nat)
    ensures h < HASH_SIZE
  {
    (a as int * 0x1_0000 + b as int * 0x100 + c as int) * 0x1E35_A7BD % 0x1_0000_0000 / 0x4000
  }

  function HashAt(data: seq<byte>, p: nat): (h: nat)
    requires p + MIN_MATCH <= |data|
    ensures h < HASH_SIZE
  {
    Hash3(data[p], data[p + 1], data[p + 2])
  }

  /** Byte-by-byte copy; the bytes read may overlap what is being written. */
  function CopyMatch(out: seq<byte>, offset: nat, length: nat): (r: seq<byte>)
    requires 1 <= offset <= |out|
    ensures |r| == |out| + length && r[..|out|] == out
    decreases length
  {
    if length == 0 then out
    else
      var r := CopyMatch(out + [out[|out| - offset]], offset, length - 1);
      assert r[..|out|] == r[..|out| + 1][..|out|];
      r
  }
}
