/** The stride-aware context-mixing codec: header, coded bits and the choice between two model
    sets, for any model that knows only the header and the bits before. */
module StrideCm {
  import opened Bytes
  import opened BitStrings
  import opened Sequences
  import opened CarrylessCoder

  const HEADER: nat := 8
  const MAX_LEN: nat := 0x400_0000
  const MAX_RECORD: nat := 4096
  const ALL_MODELS: nat := 63
  const ALL_BUT_MATCH: nat := 31

  /** What the header tells the model. */
  datatype Layout = Layout(len: nat, stride: nat, record: nat, models: nat)

  predicate IsStride(s: nat) {
    s == 1 || s == 2 || s == 3 || s == 4 || s == 6 || s == 8 || s == 12 || s == 16
  }

  /** The headers a decoder reads on from. */
  predicate Accepted(l: Layout) {
    l.len <= MAX_LEN && IsStride(l.stride) && l.record <= MAX_RECORD && l.models <= ALL_MODELS
  }

  /** Element stride and record length, as detected. */
  type Shape = s: (nat, nat) | IsStride(s.0) && s.1 <= MAX_RECORD witness (1, 0)

  /** The probability of a 1 after the bits so far. */
  type Mixing = (Layout, seq<bool>) -> P1

  function Mixer(mix: Mixing, l: Layout): Predictor<seq<bool>> {
    Predictor((past: seq<bool>) => mix(l, past), (past: seq<bool>, bit: bool) => past + [bit])
  }

  function HeaderBytes(l: Layout): (s: seq<byte>)
    requires Accepted(l)
    ensures |s| == HEADER
  {
    PutWord(l.len) + [l.stride, l.record % 256, l.record / 256, l.models]
  }

  function LayoutOf(data: seq<byte>, shape: Shape, models: nat): (l: Layout)
    requires |data| <= MAX_LEN && models <= ALL_MODELS
    ensures Accepted(l)
  {
    Layout(|data|, shape.0, shape.1, models)
  }

  function Payload(mix: Mixing, data: seq<byte>, l: Layout): seq<byte>
    requires Accepted(l)
  {
    HeaderBytes(l) + EncodeBytes(Mixer(mix, l), [], data)
  }

  /** With the match model and without, the smaller of the two. */
  function Encoded(mix: Mixing, data: seq<byte>, shape: Shape): seq<byte>
    requires |data| <= MAX_LEN
  {
    var with := Payload(mix, data, LayoutOf(data, shape, ALL_MODELS));
    var without := Payload(mix, data, LayoutOf(data, shape, ALL_BUT_MATCH));
    if |without| < |with| then without else with
  }

  function HeaderOf(s: seq<byte>): Layout
    requires |s| >= HEADER
  {
    Layout(GetWord(s[..4]), s[4], s[5] as nat + 256 * s[6] as nat, s[7])
  }

  /** `decode`: `None` for a header out of range. */
  function Decoded(mix: Mixing, s: seq<byte>): Option<seq<byte>> {
    if |s| < HEADER || !Accepted(HeaderOf(s)) then None
    else Some(DecodeBytes(Mixer(mix, HeaderOf(s)), [], s[HEADER..], HeaderOf(s).len))
  }

  /** What is decoded is as long as the payload declares. */
  lemma DecodedLength(mix: Mixing, s: seq<byte>)
    requires Decoded(mix, s).Some?
    ensures |s| >= 4 && |Decoded(mix, s).value| == GetWord(s[..4])
  {
    hide GetWord;
  }

  lemma HeaderBack(l: Layout, body: seq<byte>)
    requires Accepted(l)
    ensures HeaderOf(HeaderBytes(l) + body) == l
  {
    hide PutWord, GetWord;
    WordRoundTrip(l.len);
    assert (HeaderBytes(l) + body)[..4] == PutWord(l.len);
  }

  /** Whatever the model and the detected shape, the data comes back. */
  lemma StrideRoundTrip(mix: Mixing, data: seq<byte>, shape: Shape)
    requires |data| <= MAX_LEN
    ensures Decoded(mix, Encoded(mix, data, shape)) == Some(data)
    ensures var s := Encoded(mix, data, shape); |s| >= HEADER && s[..4] == PutWord(|data|)
  {
    hide PutWord, HeaderOf, HeaderBytes, EncodeBytes, DecodeBytes;
    PayloadBack(mix, data, LayoutOf(data, shape, ALL_MODELS));
    PayloadBack(mix, data, LayoutOf(data, shape, ALL_BUT_MATCH));
  }

  lemma PayloadBack(mix: Mixing, data: seq<byte>, l: Layout)
    requires Accepted(l) && l.len == |data|
    ensures Decoded(mix, Payload(mix, data, l)) == Some(data)
    ensures |Payload(mix, data, l)| >= HEADER && Payload(mix, data, l)[..4] == PutWord(|data|)
  {
    hide PutWord, HeaderOf, EncodeBytes, DecodeBytes;
    var body := EncodeBytes(Mixer(mix, l), [], data);
    HeaderBack(l, body);
    CarrylessRoundTrip(Mixer(mix, l), [], data);
    assert Payload(mix, data, l)[HEADER..] == body;
    assert Payload(mix, data, l)[..4] == HeaderBytes(l)[..4];
  }

  // ------------------------------------------------------------ as it runs

  method EncodeWith(mix: Mixing, data: seq<byte>, l: Layout) returns (s: seq<byte>)
    requires Accepted(l)
    ensures s == Payload(mix, data, l)
  {
    hide Put, BitChoices, AfterBits, Mixer;
    var m := Mixer(mix, l);
    var enc := new Encoder();
    var past: seq<bool> := [];
    ghost var goal := PutAll(START, ByteChoices(m, [], data));
    assert data[0..] == data;
    for k := 0 to |data|
      invariant enc.Valid() && PutAll(enc.State(), ByteChoices(m, past, data[k..])) == goal
    {
      ghost var rest := data[k + 1..];
      assert data[k..][1..] == rest;
      for i := 8 downto 0
        invariant enc.Valid() && PutAll(enc.State(), Remaining(m, past, data[k], i, rest)) == goal
      {
        RemainingNext(m, past, data[k], i + 1, rest);
        var bit := BitOf(data[k], i);
        enc.Encode(bit, m.predict(past));
        past := m.update(past, bit);
      }
      RemainingNone(m, past, data[k], rest);
    }
    assert ByteChoices(m, past, data[|data|..]) == [];
    var body := enc.Flush();
    s := HeaderBytes(l) + body;
  }

  /** The choices left when `i` bits of `b` and the bytes `rest` are still to be coded. */
  ghost function Remaining(m: Predictor<seq<bool>>, past: seq<bool>, b: byte, i: nat, rest: seq<byte>): seq<Choice> {
    BitChoices(m, past, b, i) + ByteChoices(m, AfterBits(m, past, b, i), rest)
  }

  lemma RemainingNext(m: Predictor<seq<bool>>, past: seq<bool>, b: byte, i: nat, rest: seq<byte>)
    requires i > 0
    ensures var bit, cs := BitOf(b, i - 1), Remaining(m, past, b, i, rest);
            cs != [] && cs[0] == Choice(bit, m.predict(past)) && cs[1..] == Remaining(m, m.update(past, bit), b, i - 1, rest)
  {
    hide ByteChoices, BitOf;
  }

  lemma RemainingNone(m: Predictor<seq<bool>>, past: seq<bool>, b: byte, rest: seq<byte>)
    ensures Remaining(m, past, b, 0, rest) == ByteChoices(m, past, rest)
  {
  }

  method Encode(mix: Mixing, data: seq<byte>, shape: Shape) returns (s: seq<byte>)
    requires |data| <= MAX_LEN
    ensures s == Encoded(mix, data, shape)
  {
    hide Payload;
    var with := EncodeWith(mix, data, LayoutOf(data, shape, ALL_MODELS));
    var without := EncodeWith(mix, data, LayoutOf(data, shape, ALL_BUT_MATCH));
    s := if |without| < |with| then without else with;
  }

  method Decode(mix: Mixing, s: seq<byte>) returns (d: Option<seq<byte>>)
    ensures d == Decoded(mix, s)
  {
    hide AfterBit, NextBit, Opened, Split, GetBits, Mixer, HeaderOf;
    if |s| < HEADER {
      return None;
    }
    var l := HeaderOf(s);
    if !Accepted(l) {
      return None;
    }
    var m := Mixer(mix, l);
    var dec := new Decoder(s[HEADER..]);
    var past: seq<bool> := [];
    ghost var goal := DecodeBytes(m, [], s[HEADER..], l.len);
    var out: seq<byte> := [];
    for k := 0 to l.len
      invariant dec.Valid() && out + GetBytes(m, past, dec.State(), l.len - k) == goal
    {
      var b;
      b, past := DecodeByte(m, past, dec);
      out := out + [b];
    }
    assert out + [] == out;
    assert goal == Decoded(mix, s).value;
    d := Some(out);
  }

  method DecodeByte(m: Predictor<seq<bool>>, past: seq<bool>, dec: Decoder) returns (b: byte, after: seq<bool>)
    requires dec.Valid()
    modifies dec
    ensures dec.Valid() && Progress(b, dec.State(), after) == GetBits(m, past, old(dec.State()), 0, 8)
  {
    hide AfterBit, NextBit, Split;
    ghost var goal := GetBits(m, past, dec.State(), 0, 8);
    GetByteBound(m, past, dec.State());
    var acc: nat := 0;
    after := past;
    for j := 0 to 8
      invariant dec.Valid() && GetBits(m, after, dec.State(), acc, 8 - j) == goal
    {
      var bit := dec.Decode(m.predict(after));
      after := m.update(after, bit);
      acc := 2 * acc + if bit then 1 else 0;
    }
    b := acc;
  }
}
