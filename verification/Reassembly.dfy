/** Reassembly of fragmented messages over whole runs of commands: reassemblies do not interfere,
    bytes are conserved, and an honest fragmentation is invisible in the callbacks. */
module Reassembly {
  import opened Bytes
  import opened Commands

  // ---- The table invariant ----

  /** Every pending buffer has its full length and has not yet counted that many bytes. */
  ghost predicate TableOk(t: Table) {
    forall s :: s in t ==> |t[s].payload| == t[s].total && t[s].written < t[s].total
  }

  lemma StepKeepsTable(h: Handlers, t: Table, cmd: Command)
    requires TableOk(t)
    ensures TableOk(Step(h, t, cmd).0)
  {
    hide Deliver;
  }

  lemma {:induction false} RunKeepsTable(h: Handlers, t: Table, cmds: seq<Command>)
    requires TableOk(t)
    ensures TableOk(Run(h, t, cmds).0)
    decreases cmds
  {
    hide Step;
    if cmds == [] {
    } else {
      StepKeepsTable(h, t, cmds[0]);
      RunKeepsTable(h, Step(h, t, cmds[0]).0, cmds[1..]);
    }
  }

  // ---- Packets as commands ----

  /** A packet marked as encrypted acts as one encrypted message. */
  function PacketCommands(packet: seq<byte>): seq<Command> {
    if |packet| >= PHOTON_HEADER_LENGTH && packet[2] == 1
    then [Command(CMD_SEND_RELIABLE, [0, MSG_ENCRYPTED])]
    else Handled(packet)
  }

  function AllCommands(packets: seq<seq<byte>>): seq<Command> {
    if packets == [] then [] else PacketCommands(packets[0]) + AllCommands(packets[1..])
  }

  function RunPackets(h: Handlers, t: Table, packets: seq<seq<byte>>): (Table, seq<Callback>)
    decreases packets
  {
    if packets == [] then (t, [])
    else
      var one := PacketStep(h, t, packets[0]);
      var others := RunPackets(h, one.0, packets[1..]);
      (others.0, one.1 + others.1)
  }

  lemma PacketIsRun(h: Handlers, t: Table, packet: seq<byte>)
    ensures PacketStep(h, t, packet) == Run(h, t, PacketCommands(packet))
  {
    hide Handled, DeliverRequest, DeliverResponse, DeliverEvent;
    var cmd := Command(CMD_SEND_RELIABLE, [0, MSG_ENCRYPTED]);
    assert [cmd][1..] == [];
    var one := FireIf(h.encrypted, OnEncrypted);
    assert Deliver(h, cmd.body) == one;
    assert Step(h, t, cmd) == (t, one);
    assert one + [] == one;
  }

  /** Packet boundaries do not matter: a run of packets is the run of their commands. */
  lemma {:induction false} PacketsAreRun(h: Handlers, t: Table, packets: seq<seq<byte>>)
    ensures RunPackets(h, t, packets) == Run(h, t, AllCommands(packets))
    decreases packets
  {
    hide PacketStep, PacketCommands, Step;
    if packets == [] {
    } else {
      PacketIsRun(h, t, packets[0]);
      PacketsAreRun(h, PacketStep(h, t, packets[0]).0, packets[1..]);
      RunConcat(h, t, PacketCommands(packets[0]), AllCommands(packets[1..]));
    }
  }

  lemma PacketsKeepTable(h: Handlers, packets: seq<seq<byte>>)
    ensures TableOk(RunPackets(h, map[], packets).0)
  {
    hide *;
    PacketsAreRun(h, map[], packets);
    assert TableOk(map[]) by { EmptyTableOk(); }
    RunKeepsTable(h, map[], AllCommands(packets));
  }

  lemma EmptyTableOk()
    ensures TableOk(map[])
  {
  }

  // ---- One start sequence on its own ----

  /** A fragment of the message with start sequence `s`. */
  predicate IsFragmentOf(cmd: Command, s: nat) {
    IsFragment(cmd) && ParseFragment(cmd.body).startSeq == s
  }

  function FragmentsOf(cmds: seq<Command>, s: nat): seq<Fragment> {
    if cmds == [] then []
    else if IsFragmentOf(cmds[0], s) then [ParseFragment(cmds[0].body)] + FragmentsOf(cmds[1..], s)
    else FragmentsOf(cmds[1..], s)
  }

  function PendingFor(t: Table, s: nat): Option<Segment> {
    if s in t then Some(t[s]) else None
  }

  function Current(e: Option<Segment>, f: Fragment): Segment {
    if e.Some? then e.value else NewSegment(f.total)
  }

  /** The entry of one start sequence after its fragments, and the segments it completed, with
      no regard to any other command. */
  function Alone(e: Option<Segment>, fs: seq<Fragment>): (Option<Segment>, seq<Segment>)
    decreases fs
  {
    if fs == [] then (e, [])
    else
      var seg := Write(Current(e, fs[0]), fs[0]);
      if seg.written >= seg.total then
        var others := Alone(None, fs[1..]);
        (others.0, [seg] + others.1)
      else Alone(Some(seg), fs[1..])
  }

  /** A message handed to the dispatcher: either carried by one command, or reassembled. */
  datatype Delivery = Whole(message: seq<byte>) | Reassembled(startSeq: nat, segment: Segment)

  function MessageOf(d: Delivery): seq<byte> {
    match d
    case Whole(message) => message
    case Reassembled(_, segment) => segment.payload
  }

  function StepDeliveries(t: Table, cmd: Command): seq<Delivery> {
    if cmd.kind == CMD_SEND_RELIABLE then [Whole(cmd.body)]
    else if cmd.kind == CMD_SEND_UNRELIABLE then (if |cmd.body| < 4 then [] else [Whole(cmd.body[4..])])
    else if IsFragment(cmd) then
      var f := ParseFragment(cmd.body);
      var seg := Write(Lookup(t, f), f);
      if seg.written >= seg.total then [Reassembled(f.startSeq, seg)] else []
    else []
  }

  /** Everything a run hands to the dispatcher, in order. */
  function Deliveries(h: Handlers, t: Table, cmds: seq<Command>): seq<Delivery>
    decreases cmds
  {
    if cmds == [] then []
    else StepDeliveries(t, cmds[0]) + Deliveries(h, Step(h, t, cmds[0]).0, cmds[1..])
  }

  function Calls(h: Handlers, ds: seq<Delivery>): seq<Callback> {
    if ds == [] then [] else Deliver(h, MessageOf(ds[0])) + Calls(h, ds[1..])
  }

  lemma {:induction false} CallsConcat(h: Handlers, a: seq<Delivery>, b: seq<Delivery>)
    ensures Calls(h, a + b) == Calls(h, a) + Calls(h, b)
  {
    hide Deliver, MessageOf;
    if a == [] {
      assert a + b == b;
    } else {
      assert (a + b)[1..] == a[1..] + b;
      CallsConcat(h, a[1..], b);
    }
  }

  lemma StepCalls(h: Handlers, t: Table, cmd: Command)
    ensures Step(h, t, cmd).1 == Calls(h, StepDeliveries(t, cmd))
  {
    hide Deliver;
    var ds := StepDeliveries(t, cmd);
    if ds != [] {
      assert ds[1..] == [];
      assert Calls(h, ds) == Deliver(h, MessageOf(ds[0])) + [];
    }
  }

  /** The callbacks of a run are those of its deliveries. */
  lemma {:induction false} RunCalls(h: Handlers, t: Table, cmds: seq<Command>)
    ensures Run(h, t, cmds).1 == Calls(h, Deliveries(h, t, cmds))
    decreases cmds
  {
    hide Step, StepDeliveries, Deliver;
    if cmds == [] {
    } else {
      StepCalls(h, t, cmds[0]);
      RunCalls(h, Step(h, t, cmds[0]).0, cmds[1..]);
      CallsConcat(h, StepDeliveries(t, cmds[0]), Deliveries(h, Step(h, t, cmds[0]).0, cmds[1..]));
    }
  }

  /** The segments that deliveries completed for one start sequence. */
  function CompletedOf(ds: seq<Delivery>, s: nat): seq<Segment> {
    if ds == [] then []
    else if ds[0].Reassembled? && ds[0].startSeq == s then [ds[0].segment] + CompletedOf(ds[1..], s)
    else CompletedOf(ds[1..], s)
  }

  lemma {:induction false} CompletedConcat(a: seq<Delivery>, b: seq<Delivery>, s: nat)
    ensures CompletedOf(a + b, s) == CompletedOf(a, s) + CompletedOf(b, s)
  {
    if a == [] {
      assert a + b == b;
    } else {
      assert (a + b)[1..] == a[1..] + b;
      CompletedConcat(a[1..], b, s);
    }
  }

  /** A command that is not a fragment of `s` neither touches its entry nor completes it. */
  lemma OtherCommand(h: Handlers, t: Table, cmd: Command, s: nat)
    requires !IsFragmentOf(cmd, s)
    ensures PendingFor(Step(h, t, cmd).0, s) == PendingFor(t, s)
    ensures CompletedOf(StepDeliveries(t, cmd), s) == []
  {
    hide Deliver, ParseFragment, Write;
    var ds := StepDeliveries(t, cmd);
    if ds != [] {
      assert ds[1..] == [];
    }
  }

  lemma OwnCommand(h: Handlers, t: Table, cmd: Command, s: nat)
    requires IsFragmentOf(cmd, s)
    ensures var seg := Write(Current(PendingFor(t, s), ParseFragment(cmd.body)), ParseFragment(cmd.body));
      if seg.written >= seg.total
      then PendingFor(Step(h, t, cmd).0, s) == None && CompletedOf(StepDeliveries(t, cmd), s) == [seg]
      else PendingFor(Step(h, t, cmd).0, s) == Some(seg) && CompletedOf(StepDeliveries(t, cmd), s) == []
  {
    hide Deliver, ParseFragment, Write, NewSegment;
    var ds := StepDeliveries(t, cmd);
    if ds != [] {
      assert ds[1..] == [];
    }
  }

  lemma AloneStep(e: Option<Segment>, f: Fragment, others: seq<Fragment>)
    ensures var seg := Write(Current(e, f), f);
      var r := Alone(if seg.written >= seg.total then None else Some(seg), others);
      Alone(e, [f] + others) == if seg.written >= seg.total then (r.0, [seg] + r.1) else r
  {
    hide Write, Current;
    assert ([f] + others)[1..] == others;
  }

  lemma NoneAlone(e: Option<Segment>)
    ensures Alone(e, []) == (e, [])
  {
  }

  /** NON-INTERFERENCE: over any interleaved run, the pending entry of a start sequence and what
      it completes are exactly those of its own fragments processed alone. */
  lemma {:induction false} NonInterference(h: Handlers, t: Table, cmds: seq<Command>, s: nat)
    ensures var alone := Alone(PendingFor(t, s), FragmentsOf(cmds, s));
      PendingFor(Run(h, t, cmds).0, s) == alone.0 && CompletedOf(Deliveries(h, t, cmds), s) == alone.1
    decreases cmds
  {
    hide Step, StepDeliveries, ParseFragment, Write, PendingFor, Current, Alone;
    if cmds == [] {
      NoneAlone(PendingFor(t, s));
    } else {
      var t' := Step(h, t, cmds[0]).0;
      NonInterference(h, t', cmds[1..], s);
      CompletedConcat(StepDeliveries(t, cmds[0]), Deliveries(h, t', cmds[1..]), s);
      if IsFragmentOf(cmds[0], s) {
        OwnCommand(h, t, cmds[0], s);
        AloneStep(PendingFor(t, s), ParseFragment(cmds[0].body), FragmentsOf(cmds[1..], s));
      } else {
        OtherCommand(h, t, cmds[0], s);
      }
    }
  }

  // ---- Conservation ----

  function DataLength(fs: seq<Fragment>): nat {
    if fs == [] then 0 else |fs[0].data| + DataLength(fs[1..])
  }

  function CountedIn(segs: seq<Segment>): nat {
    if segs == [] then 0 else segs[0].written + CountedIn(segs[1..])
  }

  function WrittenIn(e: Option<Segment>): nat {
    if e.Some? then e.value.written else 0
  }

  lemma {:induction false} AloneConserves(e: Option<Segment>, fs: seq<Fragment>)
    ensures var r := Alone(e, fs);
      WrittenIn(e) + DataLength(fs) == WrittenIn(r.0) + CountedIn(r.1)
    decreases fs
  {
    hide Blit, NewSegment;
    if fs == [] {
    } else {
      var seg := Write(Current(e, fs[0]), fs[0]);
      assert seg.written == WrittenIn(e) + |fs[0].data| by { NewIsEmpty(fs[0].total); }
      if seg.written >= seg.total {
        AloneConserves(None, fs[1..]);
        assert ([seg] + Alone(None, fs[1..]).1)[1..] == Alone(None, fs[1..]).1;
      } else {
        AloneConserves(Some(seg), fs[1..]);
      }
    }
  }

  lemma NewIsEmpty(total: nat)
    ensures NewSegment(total).written == 0
  {
  }

  /** CONSERVATION: for every start sequence, the bytes that its fragments carried are counted
      exactly once, in the pending entry or in a completed message. */
  lemma BytesAreConserved(h: Handlers, t: Table, cmds: seq<Command>, s: nat)
    ensures WrittenIn(PendingFor(t, s)) + DataLength(FragmentsOf(cmds, s))
         == WrittenIn(PendingFor(Run(h, t, cmds).0, s)) + CountedIn(CompletedOf(Deliveries(h, t, cmds), s))
  {
    hide *;
    NonInterference(h, t, cmds, s);
    AloneConserves(PendingFor(t, s), FragmentsOf(cmds, s));
  }

  /** The bytes counted in all pending entries together. */
  ghost function TotalWritten(t: Table): nat {
    if t == map[] then 0
    else
      var s :| s in t;
      t[s].written + TotalWritten(t - {s})
  }

  /** The sum does not depend on the order in which the entries are counted. */
  lemma {:induction false} TotalWithout(t: Table, s: nat)
    ensures TotalWritten(t) == WrittenIn(PendingFor(t, s)) + TotalWritten(t - {s})
    decreases |t|
  {
    if s !in t {
      assert t - {s} == t;
    } else {
      var picked :| picked in t && TotalWritten(t) == t[picked].written + TotalWritten(t - {picked});
      if picked != s {
        TotalWithout(t - {picked}, s);
        TotalWithout(t - {s}, picked);
        assert t - {picked} - {s} == t - {s} - {picked};
      }
    }
  }

  function CarriedBy(cmd: Command): nat {
    if IsFragment(cmd) then |ParseFragment(cmd.body).data| else 0
  }

  function Carried(cmds: seq<Command>): nat {
    if cmds == [] then 0 else CarriedBy(cmds[0]) + Carried(cmds[1..])
  }

  function Completed(ds: seq<Delivery>): nat {
    if ds == [] then 0
    else (if ds[0].Reassembled? then ds[0].segment.written else 0) + Completed(ds[1..])
  }

  lemma {:induction false} CompletedAdds(a: seq<Delivery>, b: seq<Delivery>)
    ensures Completed(a + b) == Completed(a) + Completed(b)
  {
    if a == [] {
      assert a + b == b;
    } else {
      assert (a + b)[1..] == a[1..] + b;
      CompletedAdds(a[1..], b);
    }
  }

  lemma StepConserves(h: Handlers, t: Table, cmd: Command)
    ensures TotalWritten(t) + CarriedBy(cmd) == TotalWritten(Step(h, t, cmd).0) + Completed(StepDeliveries(t, cmd))
  {
    hide Deliver, ParseFragment, NewSegment, Blit, TotalWritten;
    var ds := StepDeliveries(t, cmd);
    assert ds != [] ==> ds[1..] == [];
    if IsFragment(cmd) {
      var f := ParseFragment(cmd.body);
      var t' := Step(h, t, cmd).0;
      NewIsEmpty(f.total);
      TotalWithout(t, f.startSeq);
      TotalWithout(t', f.startSeq);
      assert t' - {f.startSeq} == t - {f.startSeq};
    }
  }

  /** CONSERVATION over the whole table: the bytes pending before a run and those its fragments
      carry are those pending after it and those counted in the messages that it completes. */
  lemma {:induction false} AllBytesAreConserved(h: Handlers, t: Table, cmds: seq<Command>)
    ensures TotalWritten(t) + Carried(cmds)
         == TotalWritten(Run(h, t, cmds).0) + Completed(Deliveries(h, t, cmds))
    decreases cmds
  {
    hide Step, StepDeliveries, TotalWritten, CarriedBy;
    if cmds == [] {
    } else {
      var t' := Step(h, t, cmds[0]).0;
      StepConserves(h, t, cmds[0]);
      AllBytesAreConserved(h, t', cmds[1..]);
      CompletedAdds(StepDeliveries(t, cmds[0]), Deliveries(h, t', cmds[1..]));
    }
  }

  // ---- Honest fragmentations ----

  /** A fragment that carries the bytes of `m` that belong at its offset, perhaps none. */
  ghost predicate IsPiece(f: Fragment, s: nat, m: seq<byte>) {
    && f.startSeq == s && f.total == |m|
    && f.offset + |f.data| <= |m|
    && f.data == m[f.offset..f.offset + |f.data|]
  }

  predicate Covers(f: Fragment, p: int) {
    f.offset <= p < f.offset + |f.data|
  }

  ghost predicate CoveredBy(fs: seq<Fragment>, p: int) {
    exists i :: 0 <= i < |fs| && Covers(fs[i], p)
  }

  ghost predicate AllPieces(fs: seq<Fragment>, s: nat, m: seq<byte>) {
    forall i :: 0 <= i < |fs| ==> IsPiece(fs[i], s, m)
  }

  ghost predicate PairwiseDisjoint(fs: seq<Fragment>) {
    forall i, j, p :: 0 <= i < j < |fs| && Covers(fs[i], p) ==> !Covers(fs[j], p)
  }

  /** Every byte of `m` is in exactly one of the pieces; their order is free, except that of several
      pieces the last is not empty. */
  ghost predicate IsCut(fs: seq<Fragment>, s: nat, m: seq<byte>) {
    && fs != [] && (|fs| == 1 || fs[|fs| - 1].data != [])
    && AllPieces(fs, s, m) && PairwiseDisjoint(fs)
    && (forall p :: 0 <= p < |m| ==> CoveredBy(fs, p))
  }

  /** What a cut is there for, and what repeated or overlapping pieces may meet too: the count of
      bytes comes up to the message with the last piece and not before, and every byte that no
      piece covers is zero. */
  ghost predicate CompletesOnce(fs: seq<Fragment>, m: seq<byte>) {
    && fs != [] && (|fs| == 1 || DataLength(fs[..|fs| - 1]) < |m|) && |m| <= DataLength(fs)
    && (forall p :: 0 <= p < |m| && m[p] != 0 ==> CoveredBy(fs, p))
  }

  ghost function Interval(a: int, b: int): (r: set<int>)
    requires a <= b
    ensures forall p :: p in r <==> a <= p < b
    ensures |r| == b - a
    decreases b - a
  {
    if a == b then {} else Interval(a, b - 1) + {b - 1}
  }

  ghost function Positions(f: Fragment): set<int> {
    Interval(f.offset, f.offset + |f.data|)
  }

  ghost function AllPositions(fs: seq<Fragment>): set<int> {
    if fs == [] then {} else Positions(fs[0]) + AllPositions(fs[1..])
  }

  lemma {:induction false} PositionsAreCovered(fs: seq<Fragment>, p: int)
    ensures p in AllPositions(fs) <==> CoveredBy(fs, p)
  {
    if fs == [] {
    } else {
      PositionsAreCovered(fs[1..], p);
      if p in AllPositions(fs) && p !in Positions(fs[0]) {
        var i :| 0 <= i < |fs[1..]| && Covers(fs[1..][i], p);
        assert Covers(fs[i + 1], p);
      }
      if CoveredBy(fs, p) && !Covers(fs[0], p) {
        var i :| 0 <= i < |fs| && Covers(fs[i], p);
        assert Covers(fs[1..][i - 1], p);
      }
    }
  }

  lemma NotCoveredTwice(fs: seq<Fragment>, p: int)
    requires fs != [] && PairwiseDisjoint(fs) && Covers(fs[0], p)
    ensures !CoveredBy(fs[1..], p)
  {
    forall i | 0 <= i < |fs| - 1
      ensures !Covers(fs[1..][i], p)
    {
      assert fs[1..][i] == fs[i + 1];
    }
  }

  /** Disjoint pieces carry as many bytes as they cover. */
  lemma {:induction false} DisjointLength(fs: seq<Fragment>)
    requires PairwiseDisjoint(fs)
    ensures |AllPositions(fs)| == DataLength(fs)
  {
    if fs == [] {
    } else {
      assert PairwiseDisjoint(fs[1..]);
      DisjointLength(fs[1..]);
      forall p | p in Positions(fs[0])
        ensures p !in AllPositions(fs[1..])
      {
        PositionsAreCovered(fs[1..], p);
        NotCoveredTwice(fs, p);
      }
      assert Positions(fs[0]) !! AllPositions(fs[1..]);
    }
  }

  /** The pieces of a cut carry exactly the message's length. */
  lemma CutLength(fs: seq<Fragment>, s: nat, m: seq<byte>)
    requires IsCut(fs, s, m)
    ensures DataLength(fs) == |m|
  {
    DisjointLength(fs);
    forall p
      ensures p in AllPositions(fs) <==> 0 <= p < |m|
    {
      PositionsAreCovered(fs, p);
    }
    assert AllPositions(fs) == Interval(0, |m|);
  }

  lemma {:induction false} DataLengthConcat(a: seq<Fragment>, b: seq<Fragment>)
    ensures DataLength(a + b) == DataLength(a) + DataLength(b)
  {
    if a == [] {
      assert a + b == b;
    } else {
      assert (a + b)[1..] == a[1..] + b;
      DataLengthConcat(a[1..], b);
    }
  }

  lemma CutCompletesOnce(fs: seq<Fragment>, s: nat, m: seq<byte>)
    requires IsCut(fs, s, m)
    ensures CompletesOnce(fs, m)
  {
    var n := |fs| - 1;
    CutLength(fs, s, m);
    assert fs == fs[..n] + [fs[n]] && IsPiece(fs[n], s, m);
    DataLengthConcat(fs[..n], [fs[n]]);
  }

  /** The segment after the pieces `done`: their bytes in place, zeros elsewhere. */
  ghost predicate Holds(seg: Segment, done: seq<Fragment>, m: seq<byte>) {
    && seg.total == |m| && seg.written == DataLength(done) && |seg.payload| == |m|
    && forall p :: 0 <= p < |m| ==> seg.payload[p] == if CoveredBy(done, p) then m[p] else 0
  }

  lemma NothingHeld(m: seq<byte>)
    ensures Holds(NewSegment(|m|), [], m)
  {
  }

  lemma CoveredByOneMore(done: seq<Fragment>, f: Fragment, p: int)
    ensures CoveredBy(done + [f], p) <==> CoveredBy(done, p) || Covers(f, p)
  {
    var fs := done + [f];
    if CoveredBy(done, p) {
      var i :| 0 <= i < |done| && Covers(done[i], p);
      assert Covers(fs[i], p);
    }
    if Covers(f, p) {
      assert Covers(fs[|done|], p);
    }
  }

  lemma WriteHolds(seg: Segment, done: seq<Fragment>, f: Fragment, s: nat, m: seq<byte>)
    requires Holds(seg, done, m) && IsPiece(f, s, m)
    ensures Holds(Write(seg, f), done + [f], m)
  {
    hide CoveredBy;
    var r := Write(seg, f);
    DataLengthConcat(done, [f]);
    assert DataLength([f]) == |f.data|;
    forall p | 0 <= p < |m|
      ensures r.payload[p] == if CoveredBy(done + [f], p) then m[p] else 0
    {
      CoveredByOneMore(done, f, p);
      if Covers(f, p) {
        assert r.payload[p] == f.data[p - f.offset];
      } else {
        assert r.payload[p] == seg.payload[p];
      }
    }
  }

  /** When everything is covered, the buffer is the message. */
  lemma FullBuffer(seg: Segment, fs: seq<Fragment>, s: nat, m: seq<byte>)
    requires Holds(seg, fs, m)
    ensures seg.payload == m <==> forall p :: 0 <= p < |m| && m[p] != 0 ==> CoveredBy(fs, p)
  {
  }

  // ---- Fragmentation is transparent ----

  /** The run without fragmentation: the last fragment of `s` becomes one reliable command that
      carries all of `m`, the other fragments of `s` disappear. */
  function Unfragmented(cmds: seq<Command>, s: nat, m: seq<byte>): seq<Command> {
    if cmds == [] then []
    else if !IsFragmentOf(cmds[0], s) then [cmds[0]] + Unfragmented(cmds[1..], s, m)
    else if FragmentsOf(cmds[1..], s) == [] then [Command(CMD_SEND_RELIABLE, m)] + cmds[1..]
    else Unfragmented(cmds[1..], s, m)
  }

  /** The table of the fragmented run: the other run's table, plus what is held of `m`. */
  ghost predicate Extends(tA: Table, tB: Table, s: nat, done: seq<Fragment>, m: seq<byte>) {
    && s !in tB
    && (if done == [] then tA == tB else s in tA && tA == tB[s := tA[s]] && Holds(tA[s], done, m))
  }

  /** Commands of other messages act alike on both tables. */
  lemma OtherKeepsExtends(h: Handlers, tA: Table, tB: Table, cmd: Command, s: nat, done: seq<Fragment>, m: seq<byte>)
    requires Extends(tA, tB, s, done, m) && !IsFragmentOf(cmd, s)
    ensures Step(h, tA, cmd).1 == Step(h, tB, cmd).1
    ensures Extends(Step(h, tA, cmd).0, Step(h, tB, cmd).0, s, done, m)
  {
    hide Deliver, ParseFragment, Write, Holds;
  }

  /** A piece that does not finish the message is held; nothing is delivered. */
  lemma PieceIsHeld(h: Handlers, tA: Table, tB: Table, cmd: Command, s: nat, done: seq<Fragment>, m: seq<byte>)
    requires Extends(tA, tB, s, done, m) && IsFragmentOf(cmd, s) && IsPiece(ParseFragment(cmd.body), s, m)
    requires DataLength(done + [ParseFragment(cmd.body)]) < |m|
    ensures Step(h, tA, cmd).1 == []
    ensures Extends(Step(h, tA, cmd).0, tB, s, done + [ParseFragment(cmd.body)], m)
  {
    hide Deliver, ParseFragment, Write, Holds, IsPiece;
    var f := ParseFragment(cmd.body);
    NothingHeld(m);
    assert f.total == |m| by { PieceTotal(f, s, m); }
    var seg := Lookup(tA, f);
    assert Holds(seg, done, m);
    WriteHolds(seg, done, f, s, m);
    HeldLength(Write(seg, f), done + [f], m);
    assert Step(h, tA, cmd) == (tA[s := Write(seg, f)], []);
  }

  lemma PieceTotal(f: Fragment, s: nat, m: seq<byte>)
    requires IsPiece(f, s, m)
    ensures f.total == |m|
  {
  }

  lemma HeldLength(seg: Segment, done: seq<Fragment>, m: seq<byte>)
    requires Holds(seg, done, m)
    ensures seg.total == |m| && seg.written == DataLength(done)
  {
  }

  /** The piece that finishes the message delivers it, and the entry is gone. */
  lemma LastPieceDelivers(h: Handlers, tA: Table, tB: Table, cmd: Command, s: nat, done: seq<Fragment>, m: seq<byte>)
    requires Extends(tA, tB, s, done, m) && IsFragmentOf(cmd, s) && IsPiece(ParseFragment(cmd.body), s, m)
    requires CompletesOnce(done + [ParseFragment(cmd.body)], m)
    ensures Step(h, tA, cmd) == (tB, Deliver(h, m))
  {
    hide Deliver, ParseFragment, Write, Holds, IsPiece;
    var f := ParseFragment(cmd.body);
    var fs := done + [f];
    NothingHeld(m);
    PieceTotal(f, s, m);
    var seg := Lookup(tA, f);
    assert Holds(seg, done, m);
    WriteHolds(seg, done, f, s, m);
    HeldLength(Write(seg, f), fs, m);
    FullBuffer(Write(seg, f), fs, s, m);
    assert tA - {s} == tB;
  }

  /** Before the last piece, the bytes counted are short of the total. */
  lemma PrefixIsShort(done: seq<Fragment>, f: Fragment, others: seq<Fragment>, m: seq<byte>)
    requires CompletesOnce(done + [f] + others, m) && others != []
    ensures DataLength(done + [f]) < |m|
  {
    var fs, k := done + [f] + others, |others| - 1;
    assert fs[..|fs| - 1] == done + [f] + others[..k];
    DataLengthConcat(done + [f], others[..k]);
  }

  /** TRANSPARENCY, from any point of a run: the fragmented run and the run without
      fragmentation end with the same table and the same callbacks. */
  lemma {:induction false} TransparentFrom(
      h: Handlers, tA: Table, tB: Table, cmds: seq<Command>, s: nat, done: seq<Fragment>, m: seq<byte>)
    requires Extends(tA, tB, s, done, m)
    requires FragmentsOf(cmds, s) != [] && AllPieces(FragmentsOf(cmds, s), s, m)
    requires CompletesOnce(done + FragmentsOf(cmds, s), m)
    ensures Run(h, tA, cmds) == Run(h, tB, Unfragmented(cmds, s, m))
    ensures s !in Run(h, tA, cmds).0
    decreases cmds
  {
    hide Step, ParseFragment, IsFragmentOf, IsPiece, CompletesOnce, Extends;
    var cmd, others := cmds[0], cmds[1..];
    if !IsFragmentOf(cmd, s) {
      OtherKeepsExtends(h, tA, tB, cmd, s, done, m);
      TransparentFrom(h, Step(h, tA, cmd).0, Step(h, tB, cmd).0, others, s, done, m);
      assert ([cmd] + Unfragmented(others, s, m))[1..] == Unfragmented(others, s, m);
    } else {
      var f := FragmentsOf(cmds, s)[0];
      assert FragmentsOf(cmds, s) == [f] + FragmentsOf(others, s);
      assert done + FragmentsOf(cmds, s) == done + [f] + FragmentsOf(others, s);
      FirstFragment(cmds, s);
      FirstPiece(f, FragmentsOf(others, s), s, m);
      if FragmentsOf(others, s) == [] {
        assert done + [f] + [] == done + [f];
        LastPieceDelivers(h, tA, tB, cmd, s, done, m);
        var whole := Command(CMD_SEND_RELIABLE, m);
        assert ([whole] + others)[1..] == others;
        assert Step(h, tB, whole) == (tB, Deliver(h, m)) by { ReliableStep(h, tB, m); }
        StaysAbsent(h, tB, others, s) by { ExtendsAbsent(tA, tB, s, done, m); }
      } else {
        PrefixIsShort(done, f, FragmentsOf(others, s), m);
        PieceIsHeld(h, tA, tB, cmd, s, done, m);
        TransparentFrom(h, Step(h, tA, cmd).0, tB, others, s, done + [f], m);
        assert [] + Run(h, Step(h, tA, cmd).0, others).1 == Run(h, Step(h, tA, cmd).0, others).1;
      }
    }
  }

  lemma FirstFragment(cmds: seq<Command>, s: nat)
    requires cmds != [] && IsFragmentOf(cmds[0], s)
    ensures IsFragment(cmds[0])
    ensures FragmentsOf(cmds, s) == [ParseFragment(cmds[0].body)] + FragmentsOf(cmds[1..], s)
  {
  }

  lemma FirstPiece(f: Fragment, others: seq<Fragment>, s: nat, m: seq<byte>)
    requires AllPieces([f] + others, s, m)
    ensures IsPiece(f, s, m) && AllPieces(others, s, m)
  {
    hide IsPiece;
    var fs := [f] + others;
    assert fs[0] == f;
    forall i | 0 <= i < |others|
      ensures IsPiece(others[i], s, m)
    {
      assert fs[i + 1] == others[i];
    }
  }

  lemma ReliableStep(h: Handlers, t: Table, m: seq<byte>)
    ensures Step(h, t, Command(CMD_SEND_RELIABLE, m)) == (t, Deliver(h, m))
  {
    hide Deliver;
  }

  lemma ExtendsAbsent(tA: Table, tB: Table, s: nat, done: seq<Fragment>, m: seq<byte>)
    requires Extends(tA, tB, s, done, m)
    ensures s !in tB
  {
  }

  lemma StaysAbsent(h: Handlers, t: Table, cmds: seq<Command>, s: nat)
    requires s !in t && FragmentsOf(cmds, s) == []
    ensures s !in Run(h, t, cmds).0
  {
    hide Run, FragmentsOf, Deliveries, CompletedOf;
    NonInterference(h, t, cmds, s);
  }

  /** The same from a state in which nothing is pending for `s`. */
  lemma PiecesAreTransparent(h: Handlers, t: Table, cmds: seq<Command>, s: nat, m: seq<byte>)
    requires s !in t && AllPieces(FragmentsOf(cmds, s), s, m) && CompletesOnce(FragmentsOf(cmds, s), m)
    ensures Run(h, t, cmds) == Run(h, t, Unfragmented(cmds, s, m))
    ensures s !in Run(h, t, cmds).0
  {
    hide Run, FragmentsOf, Unfragmented, Step;
    var fs := FragmentsOf(cmds, s);
    assert [] + fs == fs;
    TransparentFrom(h, t, t, cmds, s, [], m);
  }

  /** TRANSPARENCY: when the fragments of `s` in a run are a cut of the message `m`, in any order
      and among any other commands, and nothing is pending for `s` before, then the callbacks and
      the final table are those of the run in which `m` is sent whole at the position of the last
      fragment; in particular nothing is delivered earlier and nothing stays pending for `s`. */
  lemma FragmentationIsTransparent(h: Handlers, t: Table, cmds: seq<Command>, s: nat, m: seq<byte>)
    requires s !in t && IsCut(FragmentsOf(cmds, s), s, m)
    ensures Run(h, t, cmds) == Run(h, t, Unfragmented(cmds, s, m))
    ensures s !in Run(h, t, cmds).0
  {
    hide Run, FragmentsOf, Unfragmented, Step, CompletesOnce;
    CutCompletesOnce(FragmentsOf(cmds, s), s, m);
    PiecesAreTransparent(h, t, cmds, s, m);
  }

  /** The same over packets: the fragments may be spread over any number of them. */
  lemma FragmentedPacketsAreTransparent(h: Handlers, t: Table, packets: seq<seq<byte>>, s: nat, m: seq<byte>)
    requires s !in t && IsCut(FragmentsOf(AllCommands(packets), s), s, m)
    ensures RunPackets(h, t, packets) == Run(h, t, Unfragmented(AllCommands(packets), s, m))
  {
    hide *;
    PacketsAreRun(h, t, packets);
    FragmentationIsTransparent(h, t, AllCommands(packets), s, m);
  }

  // ---- Exactly when repeated fragments do no harm ----

  lemma {:induction false} PiecesAlone(
      e: Option<Segment>, done: seq<Fragment>, fs: seq<Fragment>, s: nat, m: seq<byte>)
      returns (seg: Segment)
    requires AllPieces(fs, s, m) && fs != []
    requires Holds(if e.Some? then e.value else NewSegment(|m|), done, m)
    requires |fs| == 1 || DataLength(done) + DataLength(fs[..|fs| - 1]) < |m|
    requires |m| <= DataLength(done) + DataLength(fs)
    ensures Alone(e, fs) == (None, [seg]) && Holds(seg, done + fs, m)
    decreases fs
  {
    hide Holds, IsPiece, NewSegment, Write;
    var f := fs[0];
    PieceTotal(f, s, m);
    var one := Write(Current(e, f), f);
    WriteHolds(Current(e, f), done, f, s, m);
    HeldLength(one, done + [f], m);
    DataLengthConcat(done, [f]);
    assert DataLength([f]) == |f.data|;
    if |fs| == 1 {
      seg := one;
      assert fs == [f] && fs[1..] == [];
      assert [one] + [] == [one];
      assert Alone(e, fs) == (None, [one] + []);
    } else {
      assert fs[..|fs| - 1][1..] == fs[1..][..|fs| - 2];
      assert done + [f] + fs[1..] == done + fs;
      assert DataLength(fs) == |f.data| + DataLength(fs[1..]);
      seg := PiecesAlone(Some(one), done + [f], fs[1..], s, m);
      assert Alone(e, fs) == Alone(Some(one), fs[1..]);
    }
  }

  lemma {:induction false} AloneConcat(e: Option<Segment>, a: seq<Fragment>, b: seq<Fragment>)
    ensures var r := Alone(e, a); Alone(e, a + b) == (Alone(r.0, b).0, r.1 + Alone(r.0, b).1)
    decreases a
  {
    hide Write, NewSegment;
    if a == [] {
      assert a + b == b;
      assert [] + Alone(e, b).1 == Alone(e, b).1;
    } else {
      assert (a + b)[1..] == a[1..] + b;
      var seg := Write(Current(e, a[0]), a[0]);
      if seg.written >= seg.total {
        AloneConcat(None, a[1..], b);
        var r := Alone(None, a[1..]);
        assert [seg] + (r.1 + Alone(r.0, b).1) == [seg] + r.1 + Alone(r.0, b).1;
      } else {
        AloneConcat(Some(seg), a[1..], b);
      }
    }
  }

  ghost predicate IsShort(e: Option<Segment>, m: seq<byte>) {
    e.Some? ==> e.value.total == |m| && e.value.written < |m|
  }

  /** Pieces leave less than a message pending, and complete only with at least its length. */
  lemma {:induction false} AloneCounts(e: Option<Segment>, fs: seq<Fragment>, s: nat, m: seq<byte>)
    requires AllPieces(fs, s, m) && IsShort(e, m)
    ensures var r := Alone(e, fs); IsShort(r.0, m) && forall i :: 0 <= i < |r.1| ==> r.1[i].written >= |m|
    decreases fs
  {
    hide Blit, Zeros;
    if fs == [] {
    } else {
      assert IsPiece(fs[0], s, m);
      var seg := Write(Current(e, fs[0]), fs[0]);
      AloneCounts(if seg.written >= seg.total then None else Some(seg), fs[1..], s, m);
    }
  }

  lemma CountedOne(seg: Segment)
    ensures CountedIn([seg]) == seg.written
  {
    assert [seg][1..] == [];
  }

  /** Exactly one completion and nothing pending means that the last piece completed it. */
  lemma OneCompletion(fs: seq<Fragment>, s: nat, m: seq<byte>)
    requires AllPieces(fs, s, m) && fs != []
    requires Alone(None, fs).0 == None && |Alone(None, fs).1| == 1
    ensures |fs| == 1 || DataLength(fs[..|fs| - 1]) < |m|
    ensures |m| <= DataLength(fs)
  {
    hide Alone, IsPiece, DataLength, CountedIn;
    var n := |fs| - 1;
    var a, b := fs[..n], [fs[n]];
    assert fs == a + b;
    var seg := Alone(None, fs).1[0];
    AloneCounts(None, fs, s, m);
    AloneConserves(None, fs);
    CountedOne(seg);
    assert Alone(None, fs).1 == [seg];
    AloneCounts(None, a, s, m);
    AloneConserves(None, a);
    AloneConcat(None, a, b);
    LastEither(Alone(None, a).0, fs[n]);
    assert Alone(None, a).1 == [];
    NothingCounted();
    if n > 0 {
      SomethingHappens(None, a);
    }
  }

  lemma LastEither(e: Option<Segment>, f: Fragment)
    ensures var r := Alone(e, [f]); r.0 == None ==> |r.1| == 1
  {
    hide Write, NewSegment;
    assert [f][1..] == [];
    assert Alone(None, []) == (None, []);
  }

  /** Fragments leave something pending or complete something. */
  lemma {:induction false} SomethingHappens(e: Option<Segment>, fs: seq<Fragment>)
    requires fs != []
    ensures Alone(e, fs).0.Some? || Alone(e, fs).1 != []
    decreases fs
  {
    hide Write, NewSegment;
    if |fs| == 1 {
      assert fs[1..] == [];
    } else {
      var seg := Write(Current(e, fs[0]), fs[0]);
      SomethingHappens(if seg.written >= seg.total then None else Some(seg), fs[1..]);
    }
  }

  lemma NothingCounted()
    ensures CountedIn([]) == 0
  {
  }

  /** EXACTLY WHEN REPEATED PIECES DO NO HARM: any pieces of `m`, repeated or overlapping, deliver
      exactly `m`, once, and leave nothing pending, if and only if the count of bytes first comes
      up to the message with the last of them and every byte that none covers is zero. */
  lemma RepeatedPiecesExactly(fs: seq<Fragment>, s: nat, m: seq<byte>)
    requires AllPieces(fs, s, m)
    ensures var r := Alone(None, fs);
      (r.0 == None && |r.1| == 1 && r.1[0].payload == m) <==> CompletesOnce(fs, m)
  {
    hide Alone, IsPiece;
    var r := Alone(None, fs);
    if fs == [] {
      NoneAlone(None);
      return;
    }
    if r.0 == None && |r.1| == 1 {
      OneCompletion(fs, s, m);
    }
    if (|fs| == 1 || DataLength(fs[..|fs| - 1]) < |m|) && |m| <= DataLength(fs) {
      NothingHeld(m);
      assert [] + fs == fs;
      var seg := PiecesAlone(None, [], fs, s, m);
      FullBuffer(seg, fs, s, m);
    }
  }

  /** The same of whole runs, with any other commands in between: and when the pieces do no harm,
      callbacks and table are those of the run with the message sent whole. */
  lemma RepeatedFragmentsExactly(h: Handlers, t: Table, cmds: seq<Command>, s: nat, m: seq<byte>)
    requires s !in t && AllPieces(FragmentsOf(cmds, s), s, m)
    ensures var completed := CompletedOf(Deliveries(h, t, cmds), s);
      (s !in Run(h, t, cmds).0 && |completed| == 1 && completed[0].payload == m)
      <==> CompletesOnce(FragmentsOf(cmds, s), m)
    ensures CompletesOnce(FragmentsOf(cmds, s), m) ==> Run(h, t, cmds) == Run(h, t, Unfragmented(cmds, s, m))
  {
    hide Run, FragmentsOf, Unfragmented, Deliveries, CompletedOf, CompletesOnce, Alone, IsPiece;
    NonInterference(h, t, cmds, s);
    RepeatedPiecesExactly(FragmentsOf(cmds, s), s, m);
    if CompletesOnce(FragmentsOf(cmds, s), m) {
      PiecesAreTransparent(h, t, cmds, s, m);
    }
  }

  lemma RunOne(h: Handlers, t: Table, cmd: Command)
    ensures Run(h, t, [cmd]) == Step(h, t, cmd)
  {
    hide Step;
    assert [cmd][1..] == [];
    var one := Step(h, t, cmd);
    assert Run(h, t, [cmd]) == (one.0, one.1 + []);
    assert one.1 + [] == one.1;
  }

  lemma RunTwo(h: Handlers, t: Table, a: Command, b: Command)
    ensures var one := Step(h, t, a); var two := Step(h, one.0, b);
      Run(h, t, [a, b]) == (two.0, one.1 + two.1)
  {
    hide *;
    assert [a] + [b] == [a, b];
    RunConcat(h, t, [a], [b]);
    RunOne(h, t, a);
    RunOne(h, Step(h, t, a).0, b);
  }

  /** Two ways to fail, with a message [0, 2, 1, 3] in two halves. The first half twice delivers
      zeros in place of the second half. Both halves and the second once more deliver the message
      and leave the repeated half pending. */
  lemma RepeatedFragmentCorrupts(h: Handlers, a: Command, b: Command)
    requires IsFragment(a) && ParseFragment(a.body) == Fragment(7, 4, 0, [0, 2])
    requires IsFragment(b) && ParseFragment(b.body) == Fragment(7, 4, 2, [1, 3])
    ensures Run(h, map[], [a, a]) == (map[], Deliver(h, [0, 2, 0, 0]))
    ensures Run(h, map[], [a, b, b]) == (map[7 := Segment(4, 2, [0, 0, 1, 3])], Deliver(h, [0, 2, 1, 3]))
  {
    hide Deliver, ParseFragment, Run;
    var fa, fb := ParseFragment(a.body), ParseFragment(b.body);
    var first, late := Segment(4, 2, [0, 2, 0, 0]), Segment(4, 2, [0, 0, 1, 3]);
    var held: Table := map[7 := first];
    assert Write(NewSegment(4), fa) == first;
    assert Write(first, fa) == Segment(4, 4, [0, 2, 0, 0]);
    assert Write(first, fb) == Segment(4, 4, [0, 2, 1, 3]);
    assert Write(NewSegment(4), fb) == late;
    assert Step(h, map[], a) == (held, []);
    assert held - {7} == map[];
    assert Step(h, held, a) == (map[], Deliver(h, [0, 2, 0, 0]));
    assert Step(h, held, b) == (map[], Deliver(h, [0, 2, 1, 3]));
    assert Step(h, map[], b) == (map[7 := late], []);
    RunTwo(h, map[], a, a);
    RunTwo(h, map[], a, b);
    RunConcat(h, map[], [a, b], [b]);
    RunOne(h, map[], b);
    var zeros, whole := Deliver(h, [0, 2, 0, 0]), Deliver(h, [0, 2, 1, 3]);
    assert [] + zeros == zeros && [] + whole == whole && whole + [] == whole;
    assert [a, b] + [b] == [a, b, b];
  }

  /** Data beyond the end of the message is counted and not copied; and the first fragment's total
      counts, whatever a later one says. */
  lemma OddFragments(h: Handlers, a: Command, b: Command, c: Command)
    requires IsFragment(a) && ParseFragment(a.body) == Fragment(7, 4, 3, [1, 2, 3, 4])
    requires IsFragment(b) && ParseFragment(b.body) == Fragment(7, 4, 0, [1, 2])
    requires IsFragment(c) && ParseFragment(c.body) == Fragment(7, 9, 2, [3, 4])
    ensures Run(h, map[], [a]) == (map[], Deliver(h, [0, 0, 0, 0]))
    ensures Run(h, map[], [b, c]) == (map[], Deliver(h, [1, 2, 3, 4]))
  {
    hide Deliver, ParseFragment, Run;
    var fa, fb, fc := ParseFragment(a.body), ParseFragment(b.body), ParseFragment(c.body);
    var first := Segment(4, 2, [1, 2, 0, 0]);
    var held: Table := map[7 := first];
    assert Write(NewSegment(4), fa) == Segment(4, 4, [0, 0, 0, 0]);
    assert Write(NewSegment(4), fb) == first;
    assert Write(first, fc) == Segment(4, 4, [1, 2, 3, 4]);
    var none: Table := map[];
    assert none - {7} == none && held - {7} == none;
    assert Step(h, none, a) == (none, Deliver(h, [0, 0, 0, 0]));
    assert Step(h, none, b) == (held, []);
    assert Step(h, held, c) == (none, Deliver(h, [1, 2, 3, 4]));
    RunOne(h, none, a);
    RunTwo(h, none, b, c);
    var whole := Deliver(h, [1, 2, 3, 4]);
    assert [] + whole == whole;
  }
}
