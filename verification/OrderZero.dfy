/** Bytes coded under one table, the normalised counts of those very bytes. */
module OrderZero {
  import opened Bytes
  import opened Sequences
  import Rans
  import RansCoder
  import FrequencyTables

  ghost predicate FreqsFor(freqs: seq<nat>, data: seq<byte>) {
    |freqs| == 256 && Rans.SumTo(freqs, 256) == Rans.TOTAL && forall k :: 0 <= k < |data| ==> freqs[data[k]] > 0
  }

  /** How often each byte occurs. */
  ghost function ByteCounts(data: seq<byte>): (counts: seq<nat>)
    ensures |counts| == 256 && forall b :: 0 <= b < 256 ==> counts[b] == multiset(data)[b]
  {
    seq<nat>(256, b requires 0 <= b < 256 => multiset(data)[b])
  }

  /** The normalised frequencies of the bytes. */
  ghost function NormalFor(data: seq<byte>): seq<nat> {
    FrequencyTables.NormalFreqs(ByteCounts(data))
  }

  lemma NormalForCovers(data: seq<byte>)
    requires data != []
    ensures FreqsFor(NormalFor(data), data)
  {
    hide FrequencyTables.NormalFreqs, FrequencyTables.Present, Rans.SumTo;
    var counts := ByteCounts(data);
    FrequencyTables.NormalFreqsCover(counts);
    SumPositive(counts, data[0], 256);
    assert FrequencyTables.Present(counts) <= 256 by {
      PresentBound(counts);
    }
  }

  lemma PresentBound(counts: seq<nat>)
    ensures FrequencyTables.Present(counts) <= |counts|
  {
  }

  lemma {:induction false} SumPositive(f: seq<nat>, i: nat, k: nat)
    requires i < k <= |f| && f[i] > 0
    ensures Rans.SumTo(f, k) > 0
  {
    if i < k - 1 {
      SumPositive(f, i, k - 1);
    }
  }

  function TableOf(freqs: seq<nat>): Rans.Table {
    Rans.Table(freqs, seq(|freqs| + 1, k requires 0 <= k <= |freqs| => Rans.SumTo(freqs, k)))
  }

  function Order0(freqs: seq<nat>): Rans.Model {
    Rans.Single(TableOf(freqs))
  }

  lemma TableUnique(t: Rans.Table)
    requires Rans.WellFormed(t)
    ensures t == TableOf(t.freq)
  {
  }

  lemma {:induction false} FreqsCode(freqs: seq<nat>, data: seq<byte>, prev: byte)
    requires FreqsFor(freqs, data)
    ensures Rans.Usable(Order0(freqs)) && Rans.Fault(Order0(freqs), data, prev).None?
    decreases |data|
  {
    if data != [] {
      FreqsCode(freqs, data[1..], data[0]);
    }
  }

  ghost function CodedBytes(data: seq<byte>, freqs: seq<nat>): seq<byte>
    requires FreqsFor(freqs, data)
  {
    FreqsCode(freqs, data, 0);
    Rans.Emitted(Rans.PushAll(Order0(freqs), data, 0))
  }

  lemma CodedBytesIs(data: seq<byte>, freqs: seq<nat>)
    requires FreqsFor(freqs, data)
    ensures Rans.Usable(Order0(freqs)) && RansCoder.Coded(Order0(freqs), data) == Rans.Ok(CodedBytes(data, freqs))
  {
    FreqsCode(freqs, data, 0);
  }

  ghost function RansDecoded(freqs: seq<nat>, data: seq<byte>, n: nat): Option<seq<byte>>
    requires |freqs| == 256
  {
    if Rans.SumTo(freqs, 256) != Rans.TOTAL || |data| < 8 then None
    else RansCoder.After([], Rans.PopAll(Order0(freqs), Rans.Opened(data), 0, n))
  }

  lemma {:induction false} SpillSize(c: Rans.Cursor, f: nat, k: nat)
    requires f > 0 && k <= 2 && c.x < 65536 * Pow256(k)
    ensures |Rans.Spill(c, f).rest| <= |c.rest| + k
    decreases c.x
  {
    if c.x >= 65536 * f {
      SpillSize(Rans.Cursor(c.x / 256, [c.x % 256] + c.rest), f, k - 1);
    }
  }

  lemma PushSize(c: Rans.Cursor, t: Rans.Table, s: nat)
    requires Rans.WellFormed(t) && s < |t.freq| && t.freq[s] > 0 && Rans.Normal(c.x)
    ensures |Rans.Push(c, t, s).rest| <= |c.rest| + 2
  {
    assert Pow256(2) == 256 * Pow256(1) == 65536;
    SpillSize(c, t.freq[s], 2);
  }

  lemma {:induction false} PushAllSize(m: Rans.Model, data: seq<byte>, prev: byte)
    requires Rans.Usable(m) && Rans.Fault(m, data, prev).None?
    ensures |Rans.PushAll(m, data, prev).rest| <= 2 * |data|
    decreases |data|
  {
    hide Rans.Push, Rans.Usable;
    if data != [] {
      PushAllSize(m, data[1..], data[0]);
      Rans.TableUsable(m, prev);
      Rans.PopsWhatWasPushed(m, data[1..], data[0]);
      PushSize(Rans.PushAll(m, data[1..], data[0]), Rans.TableFor(m, prev), data[0]);
    }
  }

  /** At most two bytes a byte and the state, and they read back. */
  lemma CodedReadsBack(data: seq<byte>, freqs: seq<nat>)
    requires FreqsFor(freqs, data)
    ensures |CodedBytes(data, freqs)| <= 8 + 2 * |data|
    ensures RansDecoded(freqs, CodedBytes(data, freqs), |data|) == Some(data)
  {
    hide Rans.PushAll, Rans.PopAll, Rans.Emitted, Rans.Opened, Rans.Usable, Rans.Fault, FreqsFor, Order0;
    var m := Order0(freqs);
    FreqsCode(freqs, data, 0);
    Rans.PopsWhatWasPushed(m, data, 0);
    Rans.OpensWhatWasEmitted(Rans.PushAll(m, data, 0));
    PushAllSize(m, data, 0);
    EmittedSize(Rans.PushAll(m, data, 0));
    FreqsSum(freqs, data);
    assert [] + data == data;
  }

  lemma EmittedSize(c: Rans.Cursor)
    ensures |Rans.Emitted(c)| == 8 + |c.rest|
  {
  }

  lemma FreqsSum(freqs: seq<nat>, data: seq<byte>)
    requires FreqsFor(freqs, data)
    ensures |freqs| == 256 && Rans.SumTo(freqs, 256) == Rans.TOTAL
  {
  }

  // ------------------------------------------------------------ as it runs

  method CountBytes(data: seq<byte>) returns (counts: seq<nat>)
    ensures counts == ByteCounts(data)
  {
    counts := seq(256, i => 0);
    for k := 0 to |data|
      invariant |counts| == 256 && forall b :: 0 <= b < 256 ==> counts[b] == multiset(data[..k])[b]
    {
      assert data[..k + 1] == data[..k] + [data[k]];
      counts := counts[data[k] := counts[data[k]] + 1];
    }
    assert data[..|data|] == data;
  }

  /** Frequencies, table, coding. */
  method EncodeBytes(data: seq<byte>, counts: seq<nat>) returns (freqs: seq<nat>, coded: seq<byte>)
    requires data != [] && counts == ByteCounts(data)
    ensures freqs == NormalFor(data) && FreqsFor(freqs, data) && coded == CodedBytes(data, freqs)
  {
    hide FreqsFor, CodedBytes, ByteCounts, Rans.WellFormed, Rans.Usable, FrequencyTables.NormalFreqs, Rans.SumTo,
      FrequencyTables.Uniform, FrequencyTables.PhaseTwo, FrequencyTables.Normalized, RansCoder.Coded;
    NormalForCovers(data);
    freqs := FrequencyTables.Normalize(counts);
    FreqsSum(freqs, data);
    var table := Rans.BuildTable(freqs);
    TableUnique(table.value);
    CodedBytesIs(data, freqs);
    var r := RansCoder.Encode(Order0(freqs), data);
    coded := r.value;
  }

  method Decode(freqs: seq<nat>, data: seq<byte>, n: nat) returns (bytes: Option<seq<byte>>)
    requires |freqs| == 256
    ensures bytes == RansDecoded(freqs, data, n)
    ensures bytes.Some? ==> |bytes.value| == n
  {
    hide Rans.PopAll, Rans.Opened, Rans.SumTo;
    var table := Rans.BuildTable(freqs);
    if table.Err? {
      return None;
    }
    TableUnique(table.value);
    var m := Order0(freqs);
    var spreads := RansCoder.BuildSpreads(m);
    var decoded := RansCoder.Decode(m, spreads, data, n);
    if decoded.Err? {
      return None;
    }
    PopsLength(m, Rans.Opened(data), 0, n);
    return Some(decoded.value);
  }

  lemma {:induction false} PopsLength(m: Rans.Model, c: Rans.Cursor, prev: byte, n: nat)
    requires Rans.Usable(m)
    ensures Rans.PopAll(m, c, prev, n).Some? ==> |Rans.PopAll(m, c, prev, n).value.0| == n
    decreases n
  {
    hide Rans.Pop, Rans.WellFormed;
    if n > 0 {
      Rans.TableUsable(m, prev);
      var p := Rans.Pop(c, Rans.TableFor(m, prev));
      if p.Some? {
        PopIsByte(c, Rans.TableFor(m, prev));
        PopsLength(m, p.value.1, p.value.0, n - 1);
      }
    }
  }

  lemma PopIsByte(c: Rans.Cursor, t: Rans.Table)
    requires Rans.ByteTable(t) && Rans.Pop(c, t).Some?
    ensures Rans.Pop(c, t).value.0 < 256
  {
  }
}
