/** What the states, the distance queue and the shared cells of the LZMA format stand for. */
module LzmaStates {
  import opened Bytes
  import opened BitStrings
  import opened Tokens
  import opened Lzma

  // ------------------------------------------------------------ states

  /** The four kinds of packet. */
  datatype Packet = Lit | Fresh | Rep | Short

  function PacketOf(z: Lz, t: Token): Packet {
    match t
    case Literal(_) => Packet.Lit
    case Match(offset, length) =>
      if RepIndex(z.reps, offset) == 0 && length == 1 then Short else if RepIndex(z.reps, offset) < 4 then Rep else Fresh
  }

  /** The packets of a parse. */
  function Packets(z: Lz, tokens: seq<Token>): (ps: seq<Packet>)
    requires AllEncodable(z, tokens)
    ensures |ps| == |tokens|
    decreases |tokens|
  {
    if tokens == [] then [] else [PacketOf(z, tokens[0])] + Packets(Step(z, tokens[0]), tokens[1..])
  }

  /** How many literals the packets end in. */
  function Tail(ps: seq<Packet>): (n: nat)
    ensures n <= |ps|
  {
    if ps == [] || ps[|ps| - 1] != Packet.Lit then 0 else 1 + Tail(ps[..|ps| - 1])
  }

  /** The state, read off the packets: zero unless one of the last three is no literal; otherwise by
      the kind of the last that is none, by what stood before it, and by how many literals followed. */
  function StateOf(ps: seq<Packet>): nat {
    var n := Tail(ps);
    if n == |ps| || n >= 3 then 0
    else
      var at := |ps| - n - 1;
      var afterLiteral := at == 0 || ps[at - 1] == Packet.Lit;
      match ps[at]
      case Fresh => if n == 0 then (if afterLiteral then 7 else 10) else if n == 1 then 4 else 1
      case Rep => if n == 0 then (if afterLiteral then 8 else 11) else if n == 1 then 5 else 2
      case Short => if !afterLiteral then (if n == 0 then 11 else if n == 1 then 5 else 2)
                    else if n == 0 then 9 else if n == 1 then 6 else 3
      case Lit => 0
  }

  function AfterPacket(s: StateId, p: Packet): StateId {
    match p
    case Lit => AfterLiteral(s)
    case Fresh => AfterMatch(s)
    case Rep => AfterRep(s)
    case Short => AfterShortRep(s)
  }

  lemma StepState(z: Lz, t: Token)
    requires Encodable(z, t)
    ensures Step(z, t).state == AfterPacket(z.state, PacketOf(z, t))
  {
  }

  /** One packet more. */
  lemma StateNext(ps: seq<Packet>, p: Packet)
    requires StateOf(ps) < 12
    ensures StateOf(ps + [p]) == AfterPacket(StateOf(ps), p)
  {
    var all := ps + [p];
    assert all[..|ps|] == ps && all[|ps|] == p;
    assert forall i :: 0 <= i < |ps| ==> all[i] == ps[i];
    TailStops(ps);
  }

  lemma {:induction false} TailStops(ps: seq<Packet>)
    ensures Tail(ps) < |ps| ==> ps[|ps| - 1 - Tail(ps)] != Packet.Lit
    ensures forall i :: |ps| - Tail(ps) <= i < |ps| ==> ps[i] == Packet.Lit
    decreases |ps|
  {
    if ps != [] && ps[|ps| - 1] == Packet.Lit {
      TailStops(ps[..|ps| - 1]);
    }
  }

  lemma StateSmall(ps: seq<Packet>)
    ensures StateOf(ps) < 12
  {
  }

  lemma {:induction false} StatesFrom(z: Lz, tokens: seq<Token>, before: seq<Packet>)
    requires AllEncodable(z, tokens) && z.state == StateOf(before)
    ensures StepAll(z, tokens).state == StateOf(before + Packets(z, tokens))
    decreases |tokens|
  {
    hide StateOf, Step, PacketOf, AfterPacket;
    if tokens == [] {
      assert before + [] == before;
    } else {
      var t := tokens[0];
      StateSmall(before);
      StateNext(before, PacketOf(z, t));
      StepState(z, t);
      StatesFrom(Step(z, t), tokens[1..], before + [PacketOf(z, t)]);
      assert before + [PacketOf(z, t)] + Packets(Step(z, t), tokens[1..]) == before + Packets(z, tokens);
    }
  }

  /** After any parse the state is the one its packets say. */
  lemma StateTells(tokens: seq<Token>)
    requires AllEncodable(LZ_START, tokens)
    ensures StepAll(LZ_START, tokens).state == StateOf(Packets(LZ_START, tokens))
  {
    hide AllEncodable, StepAll, Packets;
    assert [] + Packets(LZ_START, tokens) == Packets(LZ_START, tokens);
    StatesFrom(LZ_START, tokens, []);
  }

  /** The states below seven are those after a literal, and the one at the start. */
  lemma LiteralStates(tokens: seq<Token>)
    requires AllEncodable(LZ_START, tokens)
    ensures StepAll(LZ_START, tokens).state < 7 <==> tokens == [] || tokens[|tokens| - 1].Literal?
  {
    hide StepAll, AllEncodable, StateOf, Packets;
    StateTells(tokens);
    if tokens != [] {
      LastPacket(LZ_START, tokens);
    }
    BelowSeven(Packets(LZ_START, tokens));
  }

  lemma BelowSeven(ps: seq<Packet>)
    ensures StateOf(ps) < 7 <==> ps == [] || ps[|ps| - 1] == Packet.Lit
  {
    TailStops(ps);
  }

  lemma {:induction false} LastPacket(z: Lz, tokens: seq<Token>)
    requires AllEncodable(z, tokens) && tokens != []
    ensures Packets(z, tokens)[|tokens| - 1] == Packet.Lit <==> tokens[|tokens| - 1].Literal?
    decreases |tokens|
  {
    hide Step, Encodable;
    if |tokens| > 1 {
      LastPacket(Step(z, tokens[0]), tokens[1..]);
    }
  }

  // ------------------------------------------------------------ the queue of distances

  function Removed(r: seq<nat>, x: nat): (s: seq<nat>)
    ensures |s| <= |r|
  {
    if r == [] then [] else if r[0] == x then Removed(r[1..], x) else [r[0]] + Removed(r[1..], x)
  }

  ghost predicate NoRepeat(r: seq<nat>) {
    forall i, j :: 0 <= i < j < |r| ==> r[i] != r[j]
  }

  /** A match puts its distance first; the others keep their order and the oldest falls out, unless
      the distance was there. */
  lemma QueueMoves(z: Lz, offset: nat, length: nat)
    requires Encodable(z, Match(offset, length)) && NoRepeat(z.reps)
    ensures |Removed(z.reps, offset)| >= 3
    ensures Step(z, Match(offset, length)).reps == [offset] + Removed(z.reps, offset)[..3]
  {
    hide CopyMatch;
    var a, b, c, d := z.reps[0], z.reps[1], z.reps[2], z.reps[3];
    RemovedFour(a, b, c, d, offset);
    assert z.reps == [a, b, c, d];
  }

  lemma RemovedFour(a: nat, b: nat, c: nat, d: nat, x: nat)
    requires a != b && a != c && a != d && b != c && b != d && c != d
    ensures Removed([a, b, c, d], x) ==
      if x == a then [b, c, d] else if x == b then [a, c, d] else if x == c then [a, b, d] else if x == d then [a, b, c] else [a, b, c, d]
  {
    hide Removed;
    RemovedCons(d, [], x);
    RemovedCons(c, [d], x);
    RemovedCons(b, [c, d], x);
    RemovedCons(a, [b, c, d], x);
    assert [d] + [] == [d] && [c] + [d] == [c, d] && [b] + [c, d] == [b, c, d] && [a] + [b, c, d] == [a, b, c, d];
  }

  lemma RemovedCons(a: nat, r: seq<nat>, x: nat)
    ensures Removed([a] + r, x) == if a == x then Removed(r, x) else [a] + Removed(r, x)
    ensures Removed([], x) == []
  {
    assert ([a] + r)[1..] == r;
  }

  // ------------------------------------------------------------ cells of the distance slots

  /** The cells the reverse tree of a slot uses: its nodes are numbered from one. */
  predicate UsesCell(slot: nat, cell: nat) {
    START_POS_MODEL <= slot < END_POS_MODEL && 1 <= cell - SpecOffset(slot) < Pow2(SlotBits(slot))
  }

  /** The slots share one array of 128 cells without sharing a cell. */
  lemma CellsApart(s: nat, t: nat, cell: nat)
    requires UsesCell(s, cell) && UsesCell(t, cell)
    ensures s == t && cell < 128
  {
    Offsets();
  }

  lemma Offsets()
    ensures SpecOffset(4) == 0 && SpecOffset(5) == 2 && SpecOffset(6) == 4 && SpecOffset(7) == 8 && SpecOffset(8) == 12
    ensures SpecOffset(9) == 20 && SpecOffset(10) == 28 && SpecOffset(11) == 44 && SpecOffset(12) == 60 && SpecOffset(13) == 92
    ensures Pow2(SlotBits(4)) == 2 && Pow2(SlotBits(5)) == 2 && Pow2(SlotBits(6)) == 4 && Pow2(SlotBits(7)) == 4
    ensures Pow2(SlotBits(8)) == 8 && Pow2(SlotBits(9)) == 8 && Pow2(SlotBits(10)) == 16 && Pow2(SlotBits(11)) == 16
    ensures Pow2(SlotBits(12)) == 32 && Pow2(SlotBits(13)) == 32
  {
    assert Pow2(1) == 2 && Pow2(2) == 4 && Pow2(3) == 8 && Pow2(4) == 16 && Pow2(5) == 32;
  }
}
