/** Packets as a sender prints them: splitting, parsing and delivering invert printing. */
module PacketRoundTrip {
  import opened Bytes
  import opened Values
  import opened Protocol18
  import opened WireTree
  import opened RoundTrip
  import opened Survival
  import Varint
  import opened Commands
  import opened Reassembly

  // ---- Commands ----

  /** A command with the header fields that the parser skips: channel, flags and a reserved byte,
      and the reliable sequence number. */
  datatype Printed = Printed(cmd: Command, channel: seq<byte>, sequence: seq<byte>)

  predicate IsPrintable(p: Printed) {
    |p.channel| == 3 && |p.sequence| == 4 && CommandSize(p.cmd) < 0x1_0000_0000
  }

  function CommandBytes(p: Printed): seq<byte> {
    [p.cmd.kind] + p.channel + ToBigEndian(CommandSize(p.cmd), 4) + p.sequence + p.cmd.body
  }

  function CommandsBytes(ps: seq<Printed>): seq<byte> {
    if ps == [] then [] else CommandBytes(ps[0]) + CommandsBytes(ps[1..])
  }

  function CommandsOf(ps: seq<Printed>): seq<Command> {
    if ps == [] then [] else [ps[0].cmd] + CommandsOf(ps[1..])
  }

  predicate AllPrintable(ps: seq<Printed>) {
    ps == [] || (IsPrintable(ps[0]) && !IsTooShort(ps[0].cmd) && AllPrintable(ps[1..]))
  }

  lemma CommandLayout(p: Printed, rest: seq<byte>)
    requires IsPrintable(p)
    ensures var src := CommandBytes(p) + rest; var size := CommandSize(p.cmd);
      |src| >= size && src[0] == p.cmd.kind && src[4..8] == ToBigEndian(size, 4)
      && src[COMMAND_HEADER_LENGTH..size] == p.cmd.body && src[size..] == rest
  {
  }

  lemma FirstCommandOfPrinted(p: Printed, rest: seq<byte>)
    requires IsPrintable(p)
    ensures var src := CommandBytes(p) + rest;
      FirstCommand(src) == Some(p.cmd) && src[CommandSize(p.cmd)..] == rest
  {
    hide CommandBytes, ToBigEndian, BigEndian;
    CommandLayout(p, rest);
    assert BigEndian(ToBigEndian(CommandSize(p.cmd), 4)) == CommandSize(p.cmd) by {
      Pow256Constants();
      BigEndianRoundTrip(CommandSize(p.cmd), 4);
    }
  }

  /** The splitter finds exactly the printed commands, whatever follows them. */
  lemma {:induction false} SplitOfPrinted(ps: seq<Printed>, rest: seq<byte>)
    requires AllPrintable(ps)
    ensures Split(|ps|, CommandsBytes(ps) + rest) == (CommandsOf(ps), true)
    decreases ps
  {
    hide FirstCommand, CommandBytes, IsPrintable;
    if ps == [] {
    } else {
      var tail := CommandsBytes(ps[1..]) + rest;
      assert CommandsBytes(ps) + rest == CommandBytes(ps[0]) + tail;
      FirstCommandOfPrinted(ps[0], tail);
      SplitOfPrinted(ps[1..], rest);
    }
  }

  // ---- Packets ----

  /** The 12-byte header: peer id, flags, command count, timestamp and challenge. */
  function PacketBytes(peer: seq<byte>, flags: byte, stamp: seq<byte>, ps: seq<Printed>): seq<byte>
    requires |ps| < 0x100
  {
    peer + [flags, |ps|] + stamp + CommandsBytes(ps)
  }

  lemma PacketLayout(peer: seq<byte>, flags: byte, stamp: seq<byte>, ps: seq<Printed>)
    requires |ps| < 0x100 && |peer| == 2 && |stamp| == 8
    ensures var packet := PacketBytes(peer, flags, stamp, ps);
      |packet| >= PHOTON_HEADER_LENGTH && packet[2] == flags && packet[3] == |ps|
      && packet[PHOTON_HEADER_LENGTH..] == CommandsBytes(ps) + []
  {
  }

  /** PACKET ROUND TRIP: an unencrypted packet of at most 255 printable commands is accepted and
      does exactly what its commands do. */
  lemma PacketRoundTrip(h: Handlers, t: Table, peer: seq<byte>, flags: byte, stamp: seq<byte>, ps: seq<Printed>)
    requires |ps| < 0x100 && |peer| == 2 && |stamp| == 8 && flags != 1 && AllPrintable(ps)
    ensures var packet := PacketBytes(peer, flags, stamp, ps);
      IsAccepted(packet) && Handled(packet) == CommandsOf(ps)
      && PacketStep(h, t, packet) == Run(h, t, CommandsOf(ps))
  {
    hide Split, PacketBytes, CommandsBytes, Run, AllPrintable, CommandsOf;
    PacketLayout(peer, flags, stamp, ps);
    SplitOfPrinted(ps, []);
  }

  /** An unencrypted packet with its commands. */
  datatype Packet = Packet(peer: seq<byte>, flags: byte, stamp: seq<byte>, commands: seq<Printed>)

  predicate IsPacket(p: Packet) {
    |p.commands| < 0x100 && |p.peer| == 2 && |p.stamp| == 8 && p.flags != 1 && AllPrintable(p.commands)
  }

  predicate AllPackets(ps: seq<Packet>) {
    ps == [] || (IsPacket(ps[0]) && AllPackets(ps[1..]))
  }

  function PacketsBytes(ps: seq<Packet>): seq<seq<byte>>
    requires AllPackets(ps)
  {
    if ps == [] then []
    else [PacketBytes(ps[0].peer, ps[0].flags, ps[0].stamp, ps[0].commands)] + PacketsBytes(ps[1..])
  }

  function PacketsCommands(ps: seq<Packet>): seq<Command> {
    if ps == [] then [] else CommandsOf(ps[0].commands) + PacketsCommands(ps[1..])
  }

  /** Printed packets do exactly what their commands do, one packet after the other. */
  lemma {:induction false} PacketsRoundTrip(h: Handlers, t: Table, ps: seq<Packet>)
    requires AllPackets(ps)
    ensures RunPackets(h, t, PacketsBytes(ps)) == Run(h, t, PacketsCommands(ps))
    decreases ps
  {
    hide Run, CommandsOf, PacketStep, PacketBytes, AllPrintable;
    if ps == [] {
      NoCommands(h, t);
    } else {
      PacketRoundTrip(h, t, ps[0].peer, ps[0].flags, ps[0].stamp, ps[0].commands);
      var next := Run(h, t, CommandsOf(ps[0].commands)).0;
      PacketsRoundTrip(h, next, ps[1..]);
      RunConcat(h, t, CommandsOf(ps[0].commands), PacketsCommands(ps[1..]));
    }
  }

  lemma NoCommands(h: Handlers, t: Table)
    ensures Run(h, t, []) == (t, [])
  {
  }

  // ---- Fragments ----

  /** A fragment's body: start sequence, fragment count and number, total length, offset, data. */
  function FragmentBytes(f: Fragment, counts: seq<byte>): seq<byte> {
    ToBigEndian(f.startSeq, 4) + counts + ToBigEndian(f.total, 4) + ToBigEndian(f.offset, 4) + f.data
  }

  lemma FragmentLayout(f: Fragment, counts: seq<byte>)
    requires |counts| == 8
    ensures var body := FragmentBytes(f, counts);
      |body| >= FRAGMENT_HEADER_LENGTH && body[0..4] == ToBigEndian(f.startSeq, 4)
      && body[12..16] == ToBigEndian(f.total, 4) && body[16..20] == ToBigEndian(f.offset, 4)
      && body[20..] == f.data
  {
    hide ToBigEndian;
  }

  lemma FragmentRoundTrip(f: Fragment, counts: seq<byte>)
    requires |counts| == 8
    requires f.startSeq < 0x1_0000_0000 && f.total < 0x1_0000_0000 && f.offset < 0x1_0000_0000
    ensures var cmd := Command(8, FragmentBytes(f, counts));
      IsFragment(cmd) && ParseFragment(cmd.body) == f
  {
    hide FragmentBytes, ToBigEndian, BigEndian;
    FragmentLayout(f, counts);
    Pow256Constants();
    BigEndianRoundTrip(f.startSeq, 4);
    BigEndianRoundTrip(f.total, 4);
    BigEndianRoundTrip(f.offset, 4);
  }

  // ---- Messages ----

  datatype Message =
    | RequestM(opCode: byte, table: ParamList)
    | ResponseM(isAlt: bool, opCode: byte, returnCode: int16, debug: Tree, table: ParamList)
    | EventM(code: byte, table: ParamList)
    | EncryptedM(cipher: seq<byte>)

  predicate IsMessage(m: Message) {
    match m
    case RequestM(_, table) => WellFormedTable(table)
    case ResponseM(_, _, _, debug, table) => WellFormed(debug) && WellFormedTable(table)
    case EventM(_, table) => WellFormedTable(table)
    case EncryptedM(_) => true
  }

  function MessageType(m: Message): byte {
    match m
    case RequestM(_, _) => 2
    case ResponseM(isAlt, _, _, _, _) => if isAlt then 7 else 3
    case EventM(_, _) => 4
    case EncryptedM(_) => 131
  }

  function MessageData(m: Message): seq<byte> {
    match m
    case RequestM(opCode, table) => [opCode] + TableBytes(table)
    case ResponseM(_, opCode, returnCode, debug, table) =>
      [opCode] + (ToLittleEndian(FromInt16(returnCode), 2) + ([Tag(debug)] + (Payload(debug) + TableBytes(table))))
    case EventM(code, table) => [code] + TableBytes(table)
    case EncryptedM(cipher) => cipher
  }

  function MessageBytes(signal: byte, m: Message): seq<byte> {
    [signal, MessageType(m)] + MessageData(m)
  }

  /** The callback with given parameters; a string array in debug position replaces those of a
      response. */
  function CallWith(m: Message, params: Params): Callback {
    match m
    case RequestM(opCode, _) => OnRequest(opCode, params)
    case ResponseM(_, opCode, returnCode, debug, _) =>
      if Denote(debug).StrArray? then OnResponse(opCode, returnCode, [], map[0 := Denote(debug)])
      else OnResponse(opCode, returnCode, TextIn(debug), params)
    case EventM(code, _) => OnEvent(code, params)
    case EncryptedM(_) => OnEncrypted
  }

  /** The callback that a message stands for. */
  function MessageCall(m: Message): Callback {
    CallWith(m, if m.EncryptedM? then map[] else ParamsOf(m.table))
  }

  /** The callback that it causes: its table ends a buffer. */
  function ReadCall(m: Message): Callback {
    CallWith(m, if m.EncryptedM? then map[] else ReadParams(m.table, false))
  }

  /** No dictionary is lost at the end of the message, or the table is not looked at. */
  predicate IsIntact(m: Message) {
    m.EncryptedM? || TableSurvives(m.table) || (m.ResponseM? && Denote(m.debug).StrArray?)
  }

  predicate IsHandled(h: Handlers, m: Message) {
    match m
    case RequestM(_, _) => h.request
    case ResponseM(_, _, _, _, _) => h.response
    case EventM(_, _) => h.event
    case EncryptedM(_) => h.encrypted
  }

  lemma TableRead(table: ParamList)
    requires WellFormedTable(table)
    ensures ParamTable(TableBytes(table)).val == ReadParams(table, false)
  {
    hide ParamTable, TableBytes, ReadParams, WellFormedTable;
    TableIsRead(table, []);
    assert TableBytes(table) + [] == TableBytes(table);
  }

  lemma ResponseRead(m: Message)
    requires IsMessage(m) && m.ResponseM?
    ensures |MessageData(m)| >= 3 && ResponseCall(MessageData(m)) == ReadCall(m)
  {
    hide Decode, ParamTable, Payload, TableBytes, ReadParams, Denote, ReadAs, WellFormedTable, WellFormed;
    var code := ToLittleEndian(FromInt16(m.returnCode), 2);
    var table := TableBytes(m.table);
    var body := Payload(m.debug) + table;
    var tail := [Tag(m.debug)] + body;
    var data := MessageData(m);
    assert data == [m.opCode] + (code + tail);
    assert data[1..] == code + tail && data[3..] == tail && tail[1..] == body;
    ShortRoundTrip(FromInt16(m.returnCode), tail);
    TableIsNotEmpty(m.table);
    TreeIsRead(m.debug, table);
    FollowedIsDenoted(m.debug);
    TextOfDebug(m.debug);
    TableRead(m.table);
  }

  /** Delivering a printed message calls exactly the callback that it is read as, if set. */
  lemma MessageIsDelivered(h: Handlers, signal: byte, m: Message)
    requires IsMessage(m)
    ensures Deliver(h, MessageBytes(signal, m)) == if IsHandled(h, m) then [ReadCall(m)] else []
  {
    hide ParamTable, TableBytes, ReadParams, Denote, WellFormedTable, WellFormed, ResponseCall, Payload;
    var message := MessageBytes(signal, m);
    assert message[2..] == MessageData(m);
    match m
    case RequestM(opCode, table) =>
      TableRead(table);
      CutFirst(opCode, TableBytes(table));
    case EventM(code, table) =>
      TableRead(table);
      CutFirst(code, TableBytes(table));
    case ResponseM(_, _, _, _, _) => ResponseRead(m);
    case EncryptedM(_) =>
  }

  lemma ReadCallExactly(m: Message)
    requires IsMessage(m)
    ensures ReadCall(m) == MessageCall(m) <==> IsIntact(m)
  {
    hide ReadParams, ParamsOf, Denote, TableSurvives, WellFormedTable, WellFormed, TextIn;
    if !m.EncryptedM? {
      TableExactly(m.table);
    }
  }

  /** MESSAGE ROUND TRIP, EXACTLY: if the callback is set, delivering a printed message calls
      exactly the callback that it stands for, if and only if no dictionary is lost at its end. */
  lemma MessageDelivers(h: Handlers, signal: byte, m: Message)
    requires IsMessage(m) && IsHandled(h, m)
    ensures Deliver(h, MessageBytes(signal, m)) == [MessageCall(m)] <==> IsIntact(m)
  {
    hide *;
    MessageIsDelivered(h, signal, m);
    ReadCallExactly(m);
  }

  /** The debug message of a response reaches the callback: a string as it is, anything else that
      is neither a string nor a string array as the empty text. */
  lemma DebugArrives(h: Handlers, signal: byte, m: Message)
    requires m.ResponseM? && IsMessage(m) && h.response
    ensures var calls := Deliver(h, MessageBytes(signal, m)); var params := ReadParams(m.table, false);
      && (m.debug.TextT? ==> calls == [OnResponse(m.opCode, m.returnCode, m.debug.text.data, params)])
      && (!Denote(m.debug).Str? && !Denote(m.debug).StrArray? ==>
            calls == [OnResponse(m.opCode, m.returnCode, [], params)])
  {
    hide Deliver, MessageBytes, ReadParams;
    MessageIsDelivered(h, signal, m);
    TextOfDebug(m.debug);
  }

  /** The same for a nested response. */
  lemma DebugIsDecoded(t: Tree, rest: seq<byte>)
    requires t.ResponseT? && WellFormed(t)
    ensures var r := Decode(25, Payload(t) + rest); var params := ReadParams(t.table, rest != []);
      && (t.debug.TextT? ==> r == Read(Response(t.opCode, t.returnCode, t.debug.text.data, params), rest))
      && (!Denote(t.debug).Str? ==> r == Read(Response(t.opCode, t.returnCode, [], params), rest))
  {
    hide Decode, Payload, ReadParams, ReadAs, WellFormed;
    TreeIsRead(t, rest);
    ReadFromParts(t, rest != []);
    TextOfDebug(t.debug);
  }

  // ---- Whole packets of messages ----

  /** How one message is sent: reliably, or unreliably behind four more header bytes. */
  datatype Sent = Sent(message: Message, signal: byte, prefix: seq<byte>)

  predicate IsSent(s: Sent) {
    IsMessage(s.message) && (s.prefix == [] || |s.prefix| == 4)
  }

  function SentCommand(s: Sent): Command {
    if s.prefix == [] then Command(6, MessageBytes(s.signal, s.message))
    else Command(7, s.prefix + MessageBytes(s.signal, s.message))
  }

  function SentCommands(ss: seq<Sent>): seq<Command> {
    if ss == [] then [] else [SentCommand(ss[0])] + SentCommands(ss[1..])
  }

  function SentCalls(h: Handlers, ss: seq<Sent>): seq<Callback> {
    if ss == [] then []
    else (if IsHandled(h, ss[0].message) then [ReadCall(ss[0].message)] else []) + SentCalls(h, ss[1..])
  }

  predicate AllSent(ss: seq<Sent>) {
    ss == [] || (IsSent(ss[0]) && AllSent(ss[1..]))
  }

  lemma SentStep(h: Handlers, t: Table, s: Sent)
    requires IsSent(s)
    ensures Step(h, t, SentCommand(s)) == (t, if IsHandled(h, s.message) then [ReadCall(s.message)] else [])
  {
    hide Deliver, MessageBytes, ReadCall, IsHandled, IsMessage;
    MessageIsDelivered(h, s.signal, s.message);
    if s.prefix != [] {
      assert (s.prefix + MessageBytes(s.signal, s.message))[4..] == MessageBytes(s.signal, s.message);
    }
  }

  lemma {:induction false} SentRun(h: Handlers, t: Table, ss: seq<Sent>)
    requires AllSent(ss)
    ensures Run(h, t, SentCommands(ss)) == (t, SentCalls(h, ss))
    decreases ss
  {
    hide Step, SentCommand, IsSent, ReadCall, IsHandled;
    if ss == [] {
    } else {
      SentStep(h, t, ss[0]);
      SentRun(h, t, ss[1..]);
      assert ([SentCommand(ss[0])] + SentCommands(ss[1..]))[1..] == SentCommands(ss[1..]);
    }
  }

  /** END TO END: a printed packet of up to 255 messages, sent reliably or not, is accepted,
      calls exactly the callbacks of its messages in order, and leaves the pending table alone. */
  lemma MessagesArrive(
      h: Handlers, t: Table, peer: seq<byte>, flags: byte, stamp: seq<byte>, ps: seq<Printed>, ss: seq<Sent>)
    requires |ps| < 0x100 && |peer| == 2 && |stamp| == 8 && flags != 1
    requires AllPrintable(ps) && AllSent(ss) && CommandsOf(ps) == SentCommands(ss)
    ensures var packet := PacketBytes(peer, flags, stamp, ps);
      IsAccepted(packet) && PacketStep(h, t, packet) == (t, SentCalls(h, ss))
  {
    hide *;
    PacketRoundTrip(h, t, peer, flags, stamp, ps);
    SentRun(h, t, ss);
  }

  // ---- Whole messages in fragments ----

  /** One command of a stream that carries a fragmented message: a piece of the message, with its
      own fragment count and number, or anything else. */
  datatype Part = Piece(fragment: Fragment, counts: seq<byte>) | Other(cmd: Command)

  function PartCommand(p: Part): Command {
    match p
    case Piece(fragment, counts) => Command(8, FragmentBytes(fragment, counts))
    case Other(cmd) => cmd
  }

  function PartCommands(ps: seq<Part>): seq<Command> {
    if ps == [] then [] else [PartCommand(ps[0])] + PartCommands(ps[1..])
  }

  function PiecesOf(ps: seq<Part>): seq<Fragment> {
    if ps == [] then []
    else (if ps[0].Piece? then [ps[0].fragment] else []) + PiecesOf(ps[1..])
  }

  function OthersOf(ps: seq<Part>): seq<Command> {
    if ps == [] then []
    else (if ps[0].Other? then [ps[0].cmd] else []) + OthersOf(ps[1..])
  }

  /** The pieces are printable and have start sequence `s`, the other commands do not. */
  predicate IsStream(ps: seq<Part>, s: nat) {
    ps == [] || (IsPart(ps[0], s) && IsStream(ps[1..], s))
  }

  predicate IsPart(p: Part, s: nat) {
    match p
    case Piece(f, counts) =>
      |counts| == 8 && f.startSeq == s && s < 0x1_0000_0000 && f.total < 0x1_0000_0000 && f.offset < 0x1_0000_0000
    case Other(cmd) => !IsFragmentOf(cmd, s)
  }

  lemma PartIsFragment(p: Part, s: nat)
    requires IsPart(p, s)
    ensures IsFragmentOf(PartCommand(p), s) <==> p.Piece?
    ensures p.Piece? ==> IsFragment(PartCommand(p)) && ParseFragment(PartCommand(p).body) == p.fragment
  {
    hide FragmentBytes, ParseFragment;
    if p.Piece? {
      FragmentRoundTrip(p.fragment, p.counts);
    }
  }

  lemma {:induction false} FragmentsOfStream(ps: seq<Part>, s: nat)
    requires IsStream(ps, s)
    ensures FragmentsOf(PartCommands(ps), s) == PiecesOf(ps)
  {
    hide PartCommand, IsPart, IsFragmentOf, ParseFragment;
    if ps == [] {
    } else {
      PartIsFragment(ps[0], s);
      FragmentsOfStream(ps[1..], s);
      assert ([PartCommand(ps[0])] + PartCommands(ps[1..]))[1..] == PartCommands(ps[1..]);
    }
  }

  lemma {:induction false} NoPieces(ps: seq<Part>)
    requires PiecesOf(ps) == []
    ensures PartCommands(ps) == OthersOf(ps)
  {
    if ps == [] {
    } else {
      NoPieces(ps[1..]);
    }
  }

  lemma UnfragmentedStep(ps: seq<Part>, s: nat, m: seq<byte>)
    requires ps != [] && IsStream(ps, s)
    ensures IsStream(ps[1..], s)
    ensures Unfragmented(PartCommands(ps), s, m) ==
      if ps[0].Other? then [ps[0].cmd] + Unfragmented(PartCommands(ps[1..]), s, m)
      else if PiecesOf(ps[1..]) == [] then [Command(CMD_SEND_RELIABLE, m)] + PartCommands(ps[1..])
      else Unfragmented(PartCommands(ps[1..]), s, m)
  {
    hide PartCommand, IsPart, IsFragmentOf, ParseFragment, FragmentsOf, PiecesOf;
    assert ([PartCommand(ps[0])] + PartCommands(ps[1..]))[1..] == PartCommands(ps[1..]);
    PartIsFragment(ps[0], s);
    FragmentsOfStream(ps[1..], s);
    OtherCommandIs(ps[0]);
  }

  /** A stream up to its last piece, that piece, and what follows. */
  lemma {:induction false} UnfragmentedStream(before: seq<Part>, last: Part, after: seq<Part>, s: nat, m: seq<byte>)
    requires IsStream(before + [last] + after, s) && last.Piece? && PiecesOf(after) == []
    ensures Unfragmented(PartCommands(before + [last] + after), s, m)
         == OthersOf(before) + [Command(CMD_SEND_RELIABLE, m)] + OthersOf(after)
  {
    hide IsStream, Unfragmented, PartCommands, PiecesOf, OthersOf;
    UnfragmentedStep(before + [last] + after, s, m);
    if before == [] {
      assert ([last] + after)[1..] == after;
      NoPieces(after);
      NoOthers();
      Reassociate([], [], [Command(CMD_SEND_RELIABLE, m)], OthersOf(after));
    } else {
      assert (before + [last] + after)[1..] == before[1..] + [last] + after;
      UnfragmentedStream(before[1..], last, after, s, m);
      PieceAmong(before[1..], last, after);
      var head := if before[0].Other? then [before[0].cmd] else [];
      OthersStep(before);
      Reassociate(head, OthersOf(before[1..]), [Command(CMD_SEND_RELIABLE, m)], OthersOf(after));
    }
  }

  lemma OthersStep(ps: seq<Part>)
    requires ps != []
    ensures OthersOf(ps) == (if ps[0].Other? then [ps[0].cmd] else []) + OthersOf(ps[1..])
  {
  }

  lemma NoOthers()
    ensures OthersOf([]) == []
  {
  }

  lemma Reassociate(a: seq<Command>, b: seq<Command>, c: seq<Command>, d: seq<Command>)
    ensures a + (b + c + d) == a + b + c + d && [] + c == c
  {
  }

  lemma OtherCommandIs(p: Part)
    ensures p.Other? ==> PartCommand(p) == p.cmd
  {
  }

  lemma {:induction false} PieceAmong(before: seq<Part>, last: Part, after: seq<Part>)
    requires last.Piece?
    ensures PiecesOf(before + [last] + after) != []
  {
    var ps := before + [last] + after;
    if before == [] {
    } else {
      assert ps[1..] == before[1..] + [last] + after;
      PieceAmong(before[1..], last, after);
    }
  }

  /** END TO END, in fragments: packets carry the pieces of a printed message, each with its own
      fragment number, in any order, mixed with any other commands and spread over the packets in
      any way. They do what the other commands do, except that at the last piece the message's
      own callback is called; nothing stays pending for it. */
  lemma FragmentedMessageArrives(
      h: Handlers, t: Table, packets: seq<Packet>, before: seq<Part>, last: Part, after: seq<Part>, s: nat,
      signal: byte, msg: Message)
    requires AllPackets(packets) && PacketsCommands(packets) == PartCommands(before + [last] + after)
    requires IsStream(before + [last] + after, s) && last.Piece? && PiecesOf(after) == [] && s !in t
    requires IsMessage(msg) && IsCut(PiecesOf(before + [last] + after), s, MessageBytes(signal, msg))
    ensures var one := Run(h, t, OthersOf(before)); var two := Run(h, one.0, OthersOf(after));
      RunPackets(h, t, PacketsBytes(packets))
      == (two.0, one.1 + (if IsHandled(h, msg) then [ReadCall(msg)] else []) + two.1)
    ensures s !in RunPackets(h, t, PacketsBytes(packets)).0
  {
    hide *;
    var m := MessageBytes(signal, msg);
    var cmds := PartCommands(before + [last] + after);
    PacketsRoundTrip(h, t, packets);
    FragmentsOfStream(before + [last] + after, s);
    FragmentationIsTransparent(h, t, cmds, s, m);
    UnfragmentedStream(before, last, after, s, m);
    RunAround(h, t, OthersOf(before), m, OthersOf(after));
    MessageIsDelivered(h, signal, msg);
  }

  lemma RunAround(h: Handlers, t: Table, a: seq<Command>, m: seq<byte>, b: seq<Command>)
    ensures var one := Run(h, t, a); var two := Run(h, one.0, b);
      Run(h, t, a + [Command(CMD_SEND_RELIABLE, m)] + b) == (two.0, one.1 + Deliver(h, m) + two.1)
  {
    hide Run, Step, Deliver;
    var whole := Command(CMD_SEND_RELIABLE, m);
    RunConcat(h, t, a + [whole], b);
    RunConcat(h, t, a, [whole]);
    RunOne(h, Run(h, t, a).0, whole);
    ReliableStep(h, Run(h, t, a).0, m);
  }

  // ---- The two response decoders ----

  /** The dispatcher and the decoder of nested responses read the same layout with separate
      code. On every body of at least 3 bytes they agree, unless the debug value is a string
      array and the table after it is not just that array under key 0. */
  lemma ResponseDecodersAgree(data: seq<byte>)
    requires |data| >= 3
    ensures var c := ResponseCall(data); var v := ResponseBody(data).val; var dbg := DebugValue(data[3..]);
      v.Response? && c.OnResponse? &&
      ((c == OnResponse(v.opCode, v.returnCode, v.debug, v.params))
       <==> (!dbg.val.StrArray? || ParamTable(dbg.rest).val == map[0 := dbg.val]))
  {
    hide Decode, ParamTable;
    assert Short16(data[1..]).rest == data[3..];
  }

  /** The debug value of a response: a string array with one string, "A". */
  const STRINGS: Tree := TypedT([1], TYPE_STRING, [TextT(Chunk([1], [65]))])
  const NO_PARAMS: ParamList := ParamList([0], [])

  lemma StringsAreWellFormed()
    ensures WellFormed(STRINGS) && WellFormedTable(NO_PARAMS)
    ensures Tag(STRINGS) == 0x47 && Payload(STRINGS) == [1, 1, 65] && TableBytes(NO_PARAMS) == [0]
    ensures Denote(STRINGS) == StrArray([[65]]) && ReadParams(NO_PARAMS, false) == map[]
  {
    hide Varint.Spells;
    OneIsSpelled();
    ZeroIsSpelled();
    var text := TextT(Chunk([1], [65]));
    assert [text][1..] == [];
    assert WellFormedAll([text]) && AllTagged([text], TYPE_STRING);
    assert Payloads([text]) == Payload(text) + Payloads([]);
    assert DenoteAll([text]) == [Denote(text)];
    assert TextsOf([Str([65])]) == [[65]];
  }

  lemma ZeroIsSpelled()
    ensures IsCount([0], 0)
  {
    Pow2OfWidth(32);
    Varint.UvarintRoundTrip(32, 0, []);
  }

  /** An instance: the dispatcher makes the string array parameter 0, the nested decoder drops it. */
  lemma DecodersDisagree(op: byte)
    ensures var data := [op, 0, 0, 0x47, 1, 1, 65, 0];
      && ResponseCall(data) == OnResponse(op, 0, [], map[0 := StrArray([[65]])])
      && ResponseBody(data) == Read(Response(op, 0, [], map[]), [])
  {
    hide ResponseCall, ResponseBody, Decode, Denote, Payload, TableBytes, ReadParams, WellFormed, WellFormedTable;
    StringsAreWellFormed();
    var data := [op, 0, 0, 0x47, 1, 1, 65, 0];
    var m := ResponseM(false, op, 0, STRINGS, NO_PARAMS);
    var t := ResponseT(op, 0, STRINGS, NO_PARAMS);
    assert ToLittleEndian(0, 2) == [0, 0];
    assert MessageData(m) == data;
    ResponseRead(m);
    assert WellFormed(t) && Payload(t) == data by { ResponseIsTree(op); }
    assert data + [] == data;
    ResponseIsRead(t, []);
    ReadFromParts(t, false);
  }

  lemma ResponseIsTree(op: byte)
    ensures var t := ResponseT(op, 0, STRINGS, NO_PARAMS);
      WellFormed(t) && Payload(t) == [op, 0, 0, 0x47, 1, 1, 65, 0]
  {
    hide Varint.Spells, WellFormedTable, TableBytes;
    StringsAreWellFormed();
    assert ToLittleEndian(FromInt16(0), 2) == [0, 0];
    ResponseBytesOf(op, STRINGS, NO_PARAMS);
    assert [op] + ([0, 0] + ([0x47] + ([1, 1, 65] + [0]))) == [op, 0, 0, 0x47, 1, 1, 65, 0];
  }

  lemma ResponseBytesOf(op: byte, debug: Tree, table: ParamList)
    ensures var t := ResponseT(op, 0, debug, table);
      Payload(t) == [op] + (ToLittleEndian(FromInt16(0), 2) + ([Tag(debug)] + (Payload(debug) + TableBytes(table))))
    ensures WellFormed(debug) && WellFormedTable(table) ==> WellFormed(ResponseT(op, 0, debug, table))
  {
    hide Tag, TableBytes, WellFormedTable, ToLittleEndian;
  }
}
