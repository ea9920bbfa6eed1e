/** The x86 branch filter: relative call and jump targets become absolute, in place. */
module BcjFilter {
  import opened Bytes

  predicate Branch(op: byte) {
    op == 0xE8 || op == 0xE9
  }

  function Target(word: nat, pos: nat, forward: bool): (t: nat)
    ensures t < WORD
  {
    if forward then (word + pos) % WORD else (word - pos) % WORD
  }

  /** The bytes from position `pos` on; a target's own bytes are never scanned for opcodes. */
  function Filtered(rest: seq<byte>, pos: nat, forward: bool): (r: seq<byte>)
    ensures |r| == |rest|
    decreases |rest|
  {
    if |rest| < 5 then rest
    else if Branch(rest[0]) then
      [rest[0]] + PutWord(Target(GetWord(rest[1..5]), pos, forward)) + Filtered(rest[5..], pos + 5, forward)
    else [rest[0]] + Filtered(rest[1..], pos + 1, forward)
  }

  lemma TargetBack(word: nat, pos: nat)
    requires word < WORD
    ensures Target(Target(word, pos, true), pos, false) == word
  {
  }

  lemma PutGot(s: seq<byte>)
    requires |s| == 4
    ensures PutWord(GetWord(s)) == s
  {
    var v := GetWord(s);
    Digits(v, s[0], s[1], s[2], s[3]);
  }

  lemma Digits(v: nat, a: byte, b: byte, c: byte, d: byte)
    requires v == a as nat + 0x100 * b as nat + 0x1_0000 * c as nat + 0x100_0000 * d as nat
    ensures v % 256 == a && v / 0x100 % 256 == b && v / 0x1_0000 % 256 == c && v / 0x100_0000 % 256 == d
  {
    var x: nat := b as nat + 0x100 * c as nat + 0x1_0000 * d as nat;
    var y: nat := c as nat + 0x100 * d as nat;
    LowDigit(v, a, x);
    LowDigit(x, b, y);
    LowDigit(y, c, d);
    assert v / 0x1_0000 == x / 0x100 && v / 0x100_0000 == y / 0x100;
  }

  lemma LowDigit(v: nat, digit: byte, rest: nat)
    requires v == digit as nat + 0x100 * rest
    ensures v % 0x100 == digit && v / 0x100 == rest
  {
  }

  /** The inverse meets the same opcodes at the same places. */
  lemma {:induction false} FilterRoundTrip(rest: seq<byte>, pos: nat)
    ensures Filtered(Filtered(rest, pos, true), pos, false) == rest
    decreases |rest|
  {
    hide PutWord, GetWord, Target;
    if |rest| < 5 {
    } else if Branch(rest[0]) {
      var word := GetWord(rest[1..5]);
      var put := PutWord(Target(word, pos, true));
      var later := Filtered(rest[5..], pos + 5, true);
      var out := [rest[0]] + put + later;
      assert Filtered(rest, pos, true) == out;
      assert out[1..5] == put && out[5..] == later;
      WordRoundTrip(Target(word, pos, true));
      TargetBack(word, pos);
      PutGot(rest[1..5]);
      FilterRoundTrip(rest[5..], pos + 5);
      assert rest == [rest[0]] + rest[1..5] + rest[5..];
    } else {
      var later := Filtered(rest[1..], pos + 1, true);
      assert ([rest[0]] + later)[1..] == later;
      FilterRoundTrip(rest[1..], pos + 1);
    }
  }

  // ------------------------------------------------------------ what the filter is for

  /** The scan meets an opcode at `i` that has its four bytes. */
  predicate Meets(rest: seq<byte>, i: nat)
    decreases |rest|
  {
    if |rest| < 5 then false
    else if Branch(rest[0]) then i == 0 || (i >= 5 && Meets(rest[5..], i - 5))
    else i > 0 && Meets(rest[1..], i - 1)
  }

  lemma AfterBranch(rest: seq<byte>, pos: nat, forward: bool)
    requires |rest| >= 5 && Branch(rest[0])
    ensures Filtered(rest, pos, forward)[1..5] == PutWord(Target(GetWord(rest[1..5]), pos, forward))
    ensures Filtered(rest, pos, forward)[5..] == Filtered(rest[5..], pos + 5, forward)
  {
    hide PutWord, GetWord, Target;
  }

  lemma AfterOther(rest: seq<byte>, pos: nat, forward: bool)
    requires |rest| >= 5 && !Branch(rest[0])
    ensures Filtered(rest, pos, forward)[1..] == Filtered(rest[1..], pos + 1, forward)
  {
    hide PutWord, GetWord, Target;
  }

  /** At each opcode met the four bytes behind it become the target. */
  lemma {:induction false} TargetAt(rest: seq<byte>, pos: nat, i: nat, forward: bool)
    requires Meets(rest, i)
    ensures i + 5 <= |rest| && Branch(rest[i])
    ensures Filtered(rest, pos, forward)[i + 1..i + 5] == PutWord(Target(GetWord(rest[i + 1..i + 5]), pos + i, forward))
    decreases |rest|
  {
    hide PutWord, GetWord, Target, Filtered;
    var out := Filtered(rest, pos, forward);
    if Branch(rest[0]) {
      AfterBranch(rest, pos, forward);
      if i > 0 {
        TargetAt(rest[5..], pos + 5, i - 5, forward);
        assert out[i + 1..i + 5] == out[5..][i - 4..i];
        assert rest[5..][i - 4..i] == rest[i + 1..i + 5];
      }
    } else {
      AfterOther(rest, pos, forward);
      TargetAt(rest[1..], pos + 1, i - 1, forward);
      assert out[i + 1..i + 5] == out[1..][i..i + 4];
      assert rest[1..][i..i + 4] == rest[i + 1..i + 5];
    }
  }

  /** Two branches are given the same four bytes exactly when they go to the same address: the
      address behind the instruction plus its displacement, in 32 bits. */
  lemma SameAddress(data: seq<byte>, i: nat, j: nat)
    requires Meets(data, i) && Meets(data, j)
    ensures i + 5 <= |data| && j + 5 <= |data|
    ensures var out := Filtered(data, 0, true);
      out[i + 1..i + 5] == out[j + 1..j + 5] <==>
      (i + 5 + GetWord(data[i + 1..i + 5])) % WORD == (j + 5 + GetWord(data[j + 1..j + 5])) % WORD
  {
    hide PutWord, GetWord, Filtered;
    TargetAt(data, 0, i, true);
    TargetAt(data, 0, j, true);
    var v, w := GetWord(data[i + 1..i + 5]), GetWord(data[j + 1..j + 5]);
    WordRoundTrip(Target(v, i, true));
    WordRoundTrip(Target(w, j, true));
    Shifted(v + i, w + j, 5);
  }

  lemma Shifted(a: nat, b: nat, k: nat)
    ensures a % WORD == b % WORD <==> (a + k) % WORD == (b + k) % WORD
  {
  }

  /** How far the filter has come: the part before `i` is done. */
  ghost function Whole(s: seq<byte>, i: nat, forward: bool): seq<byte>
    requires i <= |s|
  {
    s[..i] + Filtered(s[i..], i, forward)
  }

  lemma BranchStep(s: seq<byte>, i: nat, forward: bool)
    requires i + 4 < |s| && Branch(s[i])
    ensures var bytes := PutWord(Target(GetWord(s[i + 1..i + 5]), i, forward));
      var t := s[..i + 1] + bytes + s[i + 5..];
      |t| == |s| && Whole(t, i + 5, forward) == Whole(s, i, forward)
  {
    hide PutWord, GetWord, Target;
    var rest := s[i..];
    assert rest[1..5] == s[i + 1..i + 5] && rest[5..] == s[i + 5..];
    var bytes := PutWord(Target(GetWord(s[i + 1..i + 5]), i, forward));
    var t := s[..i + 1] + bytes + s[i + 5..];
    assert t[..i + 5] == s[..i] + [s[i]] + bytes && t[i + 5..] == s[i + 5..];
  }

  lemma PlainStep(s: seq<byte>, i: nat, forward: bool)
    requires i + 4 < |s| && !Branch(s[i])
    ensures Whole(s, i + 1, forward) == Whole(s, i, forward)
  {
    hide PutWord, GetWord, Target;
    var rest, later := s[i..], Filtered(s[i + 1..], i + 1, forward);
    assert rest[1..] == s[i + 1..] && rest[0] == s[i] && |rest| >= 5;
    assert Filtered(rest, i, forward) == [s[i]] + later;
    assert s[..i + 1] == s[..i] + [s[i]];
  }

  /** Both directions step by five over a branch and by one over anything else. */
  method Filter(out: array<byte>, forward: bool)
    modifies out
    ensures out[..] == Filtered(old(out[..]), 0, forward)
  {
    hide PutWord, GetWord, Target, Filtered, Whole;
    ghost var goal := Whole(out[..], 0, forward);
    WholeEnds(out[..], 0, forward);
    var i := 0;
    while i + 4 < out.Length
      invariant 0 <= i <= out.Length && Whole(out[..], i, forward) == goal
      decreases out.Length - i
    {
      ghost var s := out[..];
      if Branch(out[i]) {
        BranchStep(s, i, forward);
        assert out[i + 1..i + 5] == s[i + 1..i + 5];
        var bytes := PutWord(Target(GetWord(out[i + 1..i + 5]), i, forward));
        out[i + 1], out[i + 2], out[i + 3], out[i + 4] := bytes[0], bytes[1], bytes[2], bytes[3];
        assert out[..] == s[..i + 1] + bytes + s[i + 5..];
        i := i + 5;
      } else {
        PlainStep(s, i, forward);
        i := i + 1;
      }
    }
    WholeEnds(out[..], i, forward);
  }

  lemma WholeEnds(s: seq<byte>, i: nat, forward: bool)
    requires i <= |s|
    ensures i == 0 ==> Whole(s, i, forward) == Filtered(s, 0, forward)
    ensures i + 4 >= |s| ==> Whole(s, i, forward) == s
  {
    assert s[0..] == s && s[..i] + s[i..] == s;
  }
}
