/** The order-1 model: each byte is coded under the table of the byte before it. */
module ContextModel {
  import opened Bytes
  import opened Rans
  import opened RansCoder
  import opened FrequencyTables

  /** How often `s` follows `c` among the first `n` bytes; 0 stands before the first. */
  function PairCount(stream: seq<byte>, c: byte, s: byte, n: nat): nat
    requires n <= |stream|
  {
    if n == 0 then 0
    else PairCount(stream, c, s, n - 1) + if Before(stream, n - 1) == c && stream[n - 1] == s then 1 else 0
  }

  /** The counts of what follows `c`. */
  function Row(stream: seq<byte>, c: byte, n: nat): (row: seq<nat>)
    requires n <= |stream|
    ensures |row| == 256 && forall s: byte :: row[s] == PairCount(stream, c, s, n)
  {
    seq(256, s requires 0 <= s < 256 => PairCount(stream, c, s, n))
  }

  method CountPairs(stream: seq<byte>) returns (counts: seq<seq<nat>>)
    ensures |counts| == 256 && forall c: byte :: counts[c] == Row(stream, c, |stream|)
  {
    hide Row;
    counts := seq(256, c => seq(256, s => 0));
    forall c: byte ensures counts[c] == Row(stream, c, 0) {
      NoPairs(stream, c);
    }
    for i := 0 to |stream|
      invariant |counts| == 256 && forall c: byte :: counts[c] == Row(stream, c, i)
    {
      var prev: byte := if i > 0 then stream[i - 1] else 0;
      ghost var was := counts;
      var row := counts[prev];
      row := row[stream[i] := row[stream[i]] + 1];
      counts := counts[prev := row];
      forall c: byte ensures counts[c] == Row(stream, c, i + 1) {
        RowNext(stream, c, i);
        assert c != prev ==> counts[c] == was[c];
      }
    }
  }

  lemma NoPairs(stream: seq<byte>, c: byte)
    ensures Row(stream, c, 0) == seq(256, s => 0)
  {
  }

  lemma RowNext(stream: seq<byte>, c: byte, i: nat)
    requires i < |stream|
    ensures var row := Row(stream, c, i);
      Row(stream, c, i + 1) == if Before(stream, i) == c then row[stream[i] := row[stream[i]] + 1] else row
  {
    var row, next := Row(stream, c, i), Row(stream, c, i + 1);
    forall s: nat | s < 256
      ensures next[s] == if Before(stream, i) == c && stream[i] == s then row[s] + 1 else row[s]
    {
      var b: byte := s;
      assert next[b] == PairCount(stream, c, b, i + 1) && row[b] == PairCount(stream, c, b, i);
    }
  }

  /** What occurs has been counted. */
  lemma {:induction false} PairCounted(stream: seq<byte>, i: nat, n: nat)
    requires i < n <= |stream|
    ensures PairCount(stream, Before(stream, i), stream[i], n) > 0
  {
    if i < n - 1 {
      PairCounted(stream, i, n - 1);
    }
  }

  lemma {:induction false} CountedSum(f: seq<nat>, i: nat, k: nat)
    requires i < k <= |f| && f[i] > 0
    ensures SumTo(f, k) > 0
  {
    if i < k - 1 {
      CountedSum(f, i, k - 1);
    }
  }

  /** Training succeeds on every stream, with the tables its pairs give, and what it was trained on
      can be coded. */
  method Train(stream: seq<byte>) returns (m: Model)
    ensures m.PerByte? && Usable(m)
    ensures forall c: byte :: m.tables[c].freq == RowFreqs(Row(stream, c, |stream|))
    ensures Fault(m, stream, 0).None?
  {
    hide Row, RowFreqs;
    var counts := CountPairs(stream);
    var tables: seq<Table> := [];
    for c := 0 to 256
      invariant |tables| == c
      invariant forall k :: 0 <= k < c ==> ByteTable(tables[k]) && Covers(tables[k], counts[k]) && tables[k].freq == RowFreqs(counts[k])
    {
      var freqs := BuildFromCounts(counts[c]);
      var table := BuildTable(freqs);
      forall s | 0 <= s < 256 && counts[c][s] > 0 ensures freqs[s] > 0 {
        CountedSum(counts[c], s, 256);
      }
      tables := tables + [table.value];
    }
    m := PerByte(tables);
    TrainedNoFault(m, counts, stream, 0);
    assert stream[0..] == stream;
  }

  ghost predicate Covers(t: Table, row: seq<nat>) {
    |t.freq| == 256 && |row| == 256 && forall s :: 0 <= s < 256 && row[s] > 0 ==> t.freq[s] > 0
  }

  lemma {:induction false} TrainedNoFault(m: Model, counts: seq<seq<nat>>, stream: seq<byte>, i: nat)
    requires m.PerByte? && Usable(m) && i <= |stream|
    requires |counts| == 256 && forall c: byte :: counts[c] == Row(stream, c, |stream|)
    requires forall k :: 0 <= k < 256 ==> Covers(m.tables[k], counts[k])
    ensures Fault(m, stream[i..], Before(stream, i)).None?
    decreases |stream| - i
  {
    hide ByteTable, Covers, SymbolFault, PairCount;
    if i < |stream| {
      PairCounted(stream, i, |stream|);
      assert stream[i..][1..] == stream[i + 1..] && stream[i..][0] == stream[i];
      TrainedNoFault(m, counts, stream, i + 1);
      var row := counts[Before(stream, i)];
      CoversSymbol(TableFor(m, Before(stream, i)), row, stream[i]);
    }
  }

  lemma CoversSymbol(t: Table, row: seq<nat>, s: byte)
    requires Covers(t, row) && row[s] > 0
    ensures SymbolFault(t, s).None?
  {
  }

  /** The byte that follows more often is given no less of the table. */
  lemma LikelierFollower(stream: seq<byte>, c: byte, s: byte, z: byte)
    requires PairCount(stream, c, s, |stream|) > PairCount(stream, c, z, |stream|)
    ensures var row := Row(stream, c, |stream|); RowFreqs(row)[s] >= RowFreqs(row)[z]
  {
    hide RowFreqs, PairCount;
    var row := Row(stream, c, |stream|);
    RowFreqsOrder(row, s, z);
  }

  /** A trained model codes its own stream and reads it back. */
  method RoundTrip(stream: seq<byte>) returns (r: Result<seq<byte>>)
    ensures r == if stream == [] then Err(EmptyInput) else Ok(stream)
  {
    var m := Train(stream);
    r := RansCoder.RoundTrip(m, stream);
  }
}
