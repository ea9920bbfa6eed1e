/** Runs of equal bytes, and run lengths as classes with extra bits. */
module RunLengths {
  import opened Arithmetic
  import opened Bytes
  import opened BitStrings
  import opened Sequences

  const MAX_RUN: nat := 2250592

  datatype Run = Run(value: byte, length: nat)

  // ------------------------------------------------------------ runs

  /** Length of the run of `v` the data starts with, cut off at `limit`. */
  function Lead(data: seq<byte>, v: byte, limit: nat): (n: nat)
    ensures n <= |data| && n <= limit && forall k :: 0 <= k < n ==> data[k] == v
    ensures n < |data| && n < limit ==> data[n] != v
  {
    if data == [] || limit == 0 || data[0] != v then 0 else 1 + Lead(data[1..], v, limit - 1)
  }

  /** Runs from the left, each as long as it may be. */
  function Runs(data: seq<byte>): seq<Run>
    decreases |data|
  {
    if data == [] then []
    else
      var n := Lead(data, data[0], MAX_RUN);
      [Run(data[0], n)] + Runs(data[n..])
  }

  function Repeated(v: byte, n: nat): (s: seq<byte>)
    ensures |s| == n && forall k :: 0 <= k < n ==> s[k] == v
  {
    seq<byte>(n, k => v)
  }

  function Expanded(runs: seq<Run>): seq<byte> {
    if runs == [] then [] else Repeated(runs[0].value, runs[0].length) + Expanded(runs[1..])
  }

  predicate Legal(runs: seq<Run>) {
    forall k :: 0 <= k < |runs| ==> 1 <= runs[k].length <= MAX_RUN
  }

  /** The runs stand for the data; they are legal and no more than the bytes. */
  lemma {:induction false} RunsBack(data: seq<byte>)
    ensures Expanded(Runs(data)) == data && Legal(Runs(data)) && |Runs(data)| <= |data|
    ensures data != [] ==> Runs(data) != []
    decreases |data|
  {
    hide *;
    if data == [] {
      NoRuns();
    } else {
      var n := FirstRun(data);
      RunsBack(data[n..]);
      OneMoreRun(Run(data[0], n), Runs(data[n..]));
      assert data[..n] + data[n..] == data;
    }
  }

  lemma NoRuns()
    ensures Runs([]) == [] && Expanded([]) == [] && Legal([])
  {
  }

  lemma FirstRun(data: seq<byte>) returns (n: nat)
    requires data != []
    ensures 1 <= n <= |data| && n <= MAX_RUN
    ensures n == Lead(data, data[0], MAX_RUN)
    ensures Runs(data) == [Run(data[0], n)] + Runs(data[n..]) && Repeated(data[0], n) == data[..n]
  {
    n := Lead(data, data[0], MAX_RUN);
  }

  lemma OneMoreRun(run: Run, later: seq<Run>)
    requires Legal(later) && 1 <= run.length <= MAX_RUN
    ensures Legal([run] + later)
    ensures Expanded([run] + later) == Repeated(run.value, run.length) + Expanded(later)
  {
    assert ([run] + later)[1..] == later;
  }

  /** The first run of what is left when a byte is taken from the front is the old one, shorter by a
      byte or cut off at the limit again. */
  lemma LeadAfter(data: seq<byte>, v: byte, limit: nat)
    requires data != [] && data[0] == v && limit >= 1 && Lead(data, v, limit) >= 2
    ensures var n := Lead(data, v, limit); Lead(data[1..], v, limit) == n - 1 || (n == limit && Lead(data[1..], v, limit) == n)
  {
    var n := Lead(data, v, limit);
    var rest := data[1..];
    assert forall k :: 0 <= k < n - 1 ==> rest[k] == data[k + 1];
    if n < |data| && n == limit && data[n] == v {
      assert rest[n - 1] == data[n];
      LeadIs(rest, v, limit, n);
    } else {
      assert n < |data| ==> rest[n - 1] == data[n];
      LeadIs(rest, v, limit, n - 1);
    }
  }

  /** Taking a byte from the front does not need more runs. */
  lemma {:induction false} NoMoreRuns(data: seq<byte>)
    requires data != []
    ensures |Runs(data[1..])| <= |Runs(data)|
    decreases |data|
  {
    hide Lead, Runs;
    var n := FirstRun(data);
    var rest := data[1..];
    if n == 1 {
      assert data[n..] == rest;
    } else {
      LeadAfter(data, data[0], MAX_RUN);
      LeadFacts(data);
      var m := FirstRun(rest);
      if m == n - 1 {
        assert rest[m..] == data[n..];
      } else {
        assert rest[m..] == data[n..][1..];
        NoMoreRuns(data[n..]);
      }
    }
  }

  lemma LeadFacts(data: seq<byte>)
    requires |data| >= 2 && Lead(data, data[0], MAX_RUN) >= 2
    ensures data[1] == data[0]
    ensures Lead(data[1..], data[0], MAX_RUN) == Lead(data, data[0], MAX_RUN) ==> |data| > Lead(data, data[0], MAX_RUN)
  {
  }

  lemma {:induction false} NoMoreRunsLater(data: seq<byte>, k: nat)
    requires k <= |data|
    ensures |Runs(data[k..])| <= |Runs(data)|
    decreases k
  {
    hide Runs;
    if k > 0 {
      NoMoreRunsLater(data, k - 1);
      NoMoreRuns(data[k - 1..]);
      assert data[k - 1..][1..] == data[k..];
    } else {
      assert data[0..] == data;
    }
  }

  /** No legal list of runs that stands for the data is shorter. */
  lemma {:induction false} FewestRuns(data: seq<byte>, other: seq<Run>)
    requires Legal(other) && Expanded(other) == data
    ensures |Runs(data)| <= |other|
    decreases |other|
  {
    hide Runs, Lead;
    if other == [] {
      NoRuns();
    } else {
      var run, later := other[0], other[1..];
      assert data[..run.length] == Repeated(run.value, run.length) && data[run.length..] == Expanded(later);
      assert data[0] == run.value;
      var n := FirstRun(data);
      LeadAtLeast(data, data[0], MAX_RUN, run.length);
      FewestRuns(data[run.length..], later);
      NoMoreRunsLater(data[run.length..], n - run.length);
      assert data[run.length..][n - run.length..] == data[n..];
    }
  }

  lemma {:induction false} LeadAtLeast(data: seq<byte>, v: byte, limit: nat, k: nat)
    requires k <= |data| && k <= limit && forall i :: 0 <= i < k ==> data[i] == v
    ensures Lead(data, v, limit) >= k
    decreases k
  {
    if k > 0 {
      LeadAtLeast(data[1..], v, limit - 1, k - 1);
    }
  }

  lemma {:induction false} LeadIs(data: seq<byte>, v: byte, limit: nat, n: nat)
    requires n <= |data| && n <= limit && (forall k :: 0 <= k < n ==> data[k] == v)
    requires n < |data| && n < limit ==> data[n] != v
    ensures Lead(data, v, limit) == n
    decreases n
  {
    if n > 0 {
      LeadIs(data[1..], v, limit - 1, n - 1);
    }
  }

  /** `rle_encode`. */
  method RunsOf(data: seq<byte>) returns (runs: seq<Run>)
    ensures runs == Runs(data)
  {
    hide Lead, Runs;
    runs := [];
    var i := 0;
    NoRuns();
    assert data[0..] == data && runs + Runs(data) == Runs(data);
    while i < |data|
      invariant 0 <= i <= |data| && runs + Runs(data[i..]) == Runs(data)
      decreases |data| - i
    {
      var n := RunAt(data, i);
      assert data[i..][n..] == data[i + n..];
      assert runs + ([Run(data[i], n)] + Runs(data[i + n..])) == (runs + [Run(data[i], n)]) + Runs(data[i + n..]);
      runs := runs + [Run(data[i], n)];
      i := i + n;
    }
    assert data[|data|..] == [];
    assert runs + [] == runs;
  }

  method RunAt(data: seq<byte>, i: nat) returns (n: nat)
    requires i < |data|
    ensures 0 < n <= |data| - i && Runs(data[i..]) == [Run(data[i], n)] + Runs(data[i..][n..])
  {
    hide Lead;
    n := 1;
    while i + n < |data| && data[i + n] == data[i] && n < MAX_RUN
      invariant 0 < n <= |data| - i && n <= MAX_RUN
      invariant forall k :: i <= k < i + n ==> data[k] == data[i]
      decreases |data| - n
    {
      n := n + 1;
    }
    var rest := data[i..];
    assert forall k :: 0 <= k < n ==> rest[k] == data[i + k];
    LeadIs(rest, data[i], MAX_RUN, n);
    ghost var first := FirstRun(rest);
  }

  // ------------------------------------------------------------ lengths as classes

  /** Classes `first` .. `first + count - 1` with `extra` more bits each, from `base` on. */
  datatype Group = Group(first: nat, count: nat, extra: nat, base: nat)

  function Groups(): (g: seq<Group>)
    ensures |g| == 10
  {
    [Group(0, 64, 0, 0), Group(64, 64, 1, 64), Group(128, 64, 2, 192), Group(192, 32, 4, 448), Group(224, 16, 6, 960),
     Group(240, 8, 9, 1984), Group(248, 4, 12, 5984), Group(252, 2, 16, 22368), Group(254, 1, 20, 153440),
     Group(255, 1, 20, 1202016)]
  }

  datatype Class = Class(sym: nat, extra: nat, bits: nat)

  function Times(a: nat, b: nat): (r: nat)
    ensures r == a * b
  {
    a * b
  }

  function Quotient(d: nat, step: nat): (q: nat)
    requires step > 0
    ensures q == d / step && d == step * q + d % step && d % step < step
  {
    d / step
  }

  predicate Holds(g: Group, v: nat) {
    g.base <= v < g.base + Times(g.count, Pow2(g.extra))
  }

  function ClassIn(g: Group, v: nat): Class
    requires Holds(g, v)
  {
    hide Pow2;
    var d: nat := v - g.base;
    Class(g.first + Quotient(d, Pow2(g.extra)), d % Pow2(g.extra), g.extra)
  }

  /** `encode_length_class`: the first group that holds the value. The groups overlap once, at
      5984 .. 6079, where the earlier one is taken. */
  function ClassFrom(v: nat, i: nat): Option<Class>
    requires i <= 10
    decreases 10 - i
  {
    if i == 10 then None else if Holds(Groups()[i], v) then Some(ClassIn(Groups()[i], v)) else ClassFrom(v, i + 1)
  }

  datatype Span = Span(base: nat, bits: nat)

  /** `decode_length_class`. */
  function SpanFrom(sym: nat, i: nat): Option<Span>
    requires i <= 10
    decreases 10 - i
  {
    if i == 10 then None
    else
      var g := Groups()[i];
      if g.first <= sym < g.first + g.count then Some(Span(g.base + Times(sym - g.first, Pow2(g.extra)), g.extra))
      else SpanFrom(sym, i + 1)
  }

  lemma SmallPowers()
    ensures Pow2(0) == 1 && Pow2(1) == 2 && Pow2(2) == 4 && Pow2(4) == 16 && Pow2(6) == 64
    ensures Pow2(9) == 512 && Pow2(12) == 4096 && Pow2(16) == 65536 && Pow2(20) == 1048576
  {
    assert Pow2(4) == 16;
    Pow2Add(4, 2);
    Pow2Add(6, 3);
    Pow2Add(6, 6);
    Pow2Add(12, 4);
    Pow2Add(16, 4);
  }

  /** Every class belongs to exactly one group. */
  lemma {:induction false} SpanIs(sym: nat, i: nat, j: nat)
    requires i <= j < 10 && var g := Groups()[j]; g.first <= sym < g.first + g.count
    ensures var g := Groups()[j]; SpanFrom(sym, i) == Some(Span(g.base + Times(sym - g.first, Pow2(g.extra)), g.extra))
    decreases j - i
  {
    hide Pow2;
    if i < j {
      GroupsApart(i, j);
      SpanIs(sym, i + 1, j);
    }
  }

  lemma GroupsApart(i: nat, j: nat)
    requires i < j < 10
    ensures Groups()[i].first + Groups()[i].count <= Groups()[j].first
  {
    if i < 5 {
      if j < 5 {
      } else {
      }
    }
  }

  /** Below the longest run some group holds the length. */
  lemma SomeGroup(v: nat)
    requires v < MAX_RUN
    ensures exists i :: 0 <= i < 10 && Holds(Groups()[i], v)
  {
    SmallPowers();
    hide Pow2;
    var g := Groups();
    if v < 64 { assert Holds(g[0], v); }
    else if v < 192 { assert Holds(g[1], v); }
    else if v < 448 { assert Holds(g[2], v); }
    else if v < 960 { assert Holds(g[3], v); }
    else if v < 1984 { assert Holds(g[4], v); }
    else if v < 6080 { assert Holds(g[5], v); }
    else if v < 22368 { assert Holds(g[6], v); }
    else if v < 153440 { assert Holds(g[7], v); }
    else if v < 1202016 { assert Holds(g[8], v); }
    else { assert Holds(g[9], v); }
  }

  lemma {:induction false} ClassFound(v: nat, i: nat, j: nat) returns (k: nat)
    requires i <= j < 10 && Holds(Groups()[j], v)
    ensures i <= k < 10 && Holds(Groups()[k], v) && ClassFrom(v, i) == Some(ClassIn(Groups()[k], v))
    decreases j - i
  {
    hide Holds, Groups, ClassIn;
    if Holds(Groups()[i], v) {
      k := i;
    } else {
      k := ClassFound(v, i + 1, j);
    }
  }

  lemma InGroup(k: nat, v: nat)
    requires k < 10 && Holds(Groups()[k], v)
    ensures var g, c := Groups()[k], ClassIn(Groups()[k], v);
      && g.first <= c.sym < g.first + g.count <= 256 && c.bits == g.extra <= 20 && c.extra < Pow2(c.bits)
      && g.base + Times(c.sym - g.first, Pow2(g.extra)) + c.extra == v
  {
    hide Pow2, Groups, Quotient, Times;
    GroupFacts(k);
    var g := Groups()[k];
    var d: nat := v - g.base;
    QuotientBelow(d, Pow2(g.extra), g.count);
  }

  lemma QuotientBelow(d: nat, step: nat, count: nat)
    requires step > 0 && d < Times(count, step)
    ensures Quotient(d, step) < count && Times(Quotient(d, step), step) + d % step == d
  {
    var q := Quotient(d, step);
    if q >= count {
      MulLe(count, q, step, step);
    }
  }

  lemma GroupFacts(k: nat)
    requires k < 10
    ensures Groups()[k].first + Groups()[k].count <= 256 && Groups()[k].extra <= 20
  {
  }

  /** Every run length is given back by its class and extra bits. */
  lemma ClassBack(length: nat)
    requires 1 <= length <= MAX_RUN
    ensures ClassFrom(length - 1, 0).Some?
    ensures var c := ClassFrom(length - 1, 0).value;
      && c.sym < 256 && c.bits <= 20 && c.extra < Pow2(c.bits)
      && SpanFrom(c.sym, 0).Some? && SpanFrom(c.sym, 0).value.bits == c.bits
      && SpanFrom(c.sym, 0).value.base + c.extra + 1 == length
  {
    hide Holds, Groups, ClassIn, Pow2, ClassFrom, SpanFrom;
    var v := length - 1;
    SomeGroup(v);
    var j: nat :| j < 10 && Holds(Groups()[j], v);
    var k := ClassFound(v, 0, j);
    InGroup(k, v);
    SpanIs(ClassIn(Groups()[k], v).sym, 0, k);
  }

  /** Every one of the 256 classes has a span. */
  lemma AllSpans(sym: nat)
    requires sym < 256
    ensures SpanFrom(sym, 0).Some? && SpanFrom(sym, 0).value.bits <= 20
  {
    hide Pow2, Groups, SpanFrom;
    var k := GroupOf(sym);
    SpanIs(sym, 0, k);
    GroupFacts(k);
  }

  lemma GroupOf(sym: nat) returns (k: nat)
    requires sym < 256
    ensures k < 10 && Groups()[k].first <= sym < Groups()[k].first + Groups()[k].count
  {
    k := if sym < 64 then 0 else if sym < 128 then 1 else if sym < 192 then 2 else if sym < 224 then 3
         else if sym < 240 then 4 else if sym < 248 then 5 else if sym < 252 then 6 else if sym < 254 then 7
         else if sym < 255 then 8 else 9;
  }
}
