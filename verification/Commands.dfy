/** Photon packets as lists of commands, and what the commands do: the messages they deliver and
    the table of partly received messages. The splitter looks at lengths only. */
module Commands {
  import opened Bytes
  import opened Values
  import opened Protocol18

  const PHOTON_HEADER_LENGTH: nat := 12
  const COMMAND_HEADER_LENGTH: nat := 12
  const FRAGMENT_HEADER_LENGTH: nat := 20

  const CMD_DISCONNECT: byte := 4
  const CMD_SEND_RELIABLE: byte := 6
  const CMD_SEND_UNRELIABLE: byte := 7
  const CMD_SEND_FRAGMENT: byte := 8

  const MSG_REQUEST: byte := 2
  const MSG_RESPONSE: byte := 3
  const MSG_EVENT: byte := 4
  const MSG_RESPONSE_ALT: byte := 7
  const MSG_ENCRYPTED: byte := 131

  /** A call of one of the parser's callbacks. */
  datatype Callback =
    | OnRequest(opCode: byte, params: Params)
    | OnResponse(opCode: byte, returnCode: int16, debug: seq<byte>, params: Params)
    | OnEvent(code: byte, params: Params)
    | OnEncrypted

  /** Which callbacks are set; the others are nil and never called. */
  datatype Handlers = Handlers(request: bool, response: bool, event: bool, encrypted: bool)

  /** A command: its type and the bytes after its 12-byte header. */
  datatype Command = Command(kind: byte, body: seq<byte>)

  // ---- Messages ----

  function FireIf(isSet: bool, c: Callback): seq<Callback> {
    if isSet then [c] else []
  }

  function DeliverRequest(h: Handlers, data: seq<byte>): seq<Callback> {
    if |data| < 1 then [] else FireIf(h.request, OnRequest(data[0], ParamTable(data[1..]).val))
  }

  function DeliverEvent(h: Handlers, data: seq<byte>): seq<Callback> {
    if |data| < 1 then [] else FireIf(h.event, OnEvent(data[0], ParamTable(data[1..]).val))
  }

  /** A string array in debug position becomes parameter 0, and the rest is not read. */
  function ResponseCall(data: seq<byte>): Callback
    requires |data| >= 3
  {
    var rc := Short16(data[1..]).val;
    var dbg := DebugValue(data[3..]);
    if dbg.val.StrArray? then OnResponse(data[0], rc, [], map[0 := dbg.val])
    else OnResponse(data[0], rc, DebugText(dbg.val), ParamTable(dbg.rest).val)
  }

  function DeliverResponse(h: Handlers, data: seq<byte>): seq<Callback> {
    if |data| < 3 then [] else FireIf(h.response, ResponseCall(data))
  }

  /** What a whole message (signal byte, message type, data) makes the parser call. */
  function Deliver(h: Handlers, message: seq<byte>): seq<Callback> {
    if |message| < 2 then []
    else if message[1] == MSG_ENCRYPTED then FireIf(h.encrypted, OnEncrypted)
    else if message[1] == MSG_REQUEST then DeliverRequest(h, message[2..])
    else if message[1] == MSG_RESPONSE || message[1] == MSG_RESPONSE_ALT then DeliverResponse(h, message[2..])
    else if message[1] == MSG_EVENT then DeliverEvent(h, message[2..])
    else []
  }

  // ---- Fragments ----

  /** The part of a fragment command that the parser uses. */
  datatype Fragment = Fragment(startSeq: nat, total: nat, offset: nat, data: seq<byte>)

  /** A partly received message. */
  datatype Segment = Segment(total: nat, written: nat, payload: seq<byte>)

  type Table = map<nat, Segment>

  function ParseFragment(body: seq<byte>): Fragment
    requires |body| >= FRAGMENT_HEADER_LENGTH
  {
    Fragment(BigEndian(body[0..4]), BigEndian(body[12..16]), BigEndian(body[16..20]), body[20..])
  }

  predicate IsFragment(cmd: Command) {
    cmd.kind == CMD_SEND_FRAGMENT && |cmd.body| >= FRAGMENT_HEADER_LENGTH
  }

  /** Copying the data into place; data that does not fit is not copied. */
  function Blit(payload: seq<byte>, offset: nat, data: seq<byte>): (r: seq<byte>)
    ensures |r| == |payload|
  {
    if offset + |data| <= |payload| then payload[..offset] + data + payload[offset + |data|..] else payload
  }

  function NewSegment(total: nat): Segment {
    Segment(total, 0, Zeros(total))
  }

  /** One fragment written; its length counts whether it fits or not. */
  function Write(seg: Segment, f: Fragment): Segment {
    Segment(seg.total, seg.written + |f.data|, Blit(seg.payload, f.offset, f.data))
  }

  function Lookup(t: Table, f: Fragment): Segment {
    if f.startSeq in t then t[f.startSeq] else NewSegment(f.total)
  }

  /** The table after a fragment, and the messages that it completes. */
  function FragmentStep(h: Handlers, t: Table, f: Fragment): (Table, seq<Callback>) {
    var seg := Write(Lookup(t, f), f);
    if seg.written >= seg.total then (t - {f.startSeq}, Deliver(h, seg.payload))
    else (t[f.startSeq := seg], [])
  }

  // ---- Commands and packets ----

  /** What a complete command does. */
  function Step(h: Handlers, t: Table, cmd: Command): (Table, seq<Callback>) {
    if cmd.kind == CMD_SEND_RELIABLE then (t, Deliver(h, cmd.body))
    else if cmd.kind == CMD_SEND_UNRELIABLE then (t, if |cmd.body| < 4 then [] else Deliver(h, cmd.body[4..]))
    else if IsFragment(cmd) then FragmentStep(h, t, ParseFragment(cmd.body))
    else (t, [])
  }

  function Run(h: Handlers, t: Table, cmds: seq<Command>): (Table, seq<Callback>)
    decreases cmds
  {
    if cmds == [] then (t, [])
    else
      var one := Step(h, t, cmds[0]);
      var others := Run(h, one.0, cmds[1..]);
      (others.0, one.1 + others.1)
  }

  lemma {:induction false} RunConcat(h: Handlers, t: Table, a: seq<Command>, b: seq<Command>)
    ensures var first := Run(h, t, a); var second := Run(h, first.0, b);
      Run(h, t, a + b) == (second.0, first.1 + second.1)
    decreases a
  {
    hide Step;
    if a == [] {
      assert a + b == b;
      assert [] + Run(h, t, b).1 == Run(h, t, b).1;
    } else {
      var one := Step(h, t, a[0]);
      RunConcat(h, one.0, a[1..], b);
      assert (a + b)[1..] == a[1..] + b;
      var first := Run(h, one.0, a[1..]);
      assert one.1 + (first.1 + Run(h, first.0, b).1) == (one.1 + first.1) + Run(h, first.0, b).1;
    }
  }

  /** The first command of `src` and the number of bytes it takes, if there is a complete one. */
  function FirstCommand(src: seq<byte>): (r: Option<Command>)
    ensures r.Some? ==> CommandSize(r.value) <= |src|
  {
    if |src| < COMMAND_HEADER_LENGTH then None
    else
      var size := BigEndian(src[4..8]);
      if size < COMMAND_HEADER_LENGTH || size > |src| then None
      else Some(Command(src[0], src[COMMAND_HEADER_LENGTH..size]))
  }

  function CommandSize(cmd: Command): nat {
    COMMAND_HEADER_LENGTH + |cmd.body|
  }

  /** The only command that is rejected although it is complete. */
  predicate IsTooShort(cmd: Command) {
    cmd.kind == CMD_SEND_UNRELIABLE && |cmd.body| < 4
  }

  /** The commands of a packet body, up to the first that is malformed or too short, and whether
      all `count` of them were found. */
  function Split(count: nat, src: seq<byte>): (seq<Command>, bool) {
    if count == 0 then ([], true)
    else
      var first := FirstCommand(src);
      if first.None? || IsTooShort(first.value) then ([], false)
      else
        var others := Split(count - 1, src[CommandSize(first.value)..]);
        ([first.value] + others.0, others.1)
  }

  /** A packet with a header that is long enough and not marked as encrypted. */
  predicate IsReadable(packet: seq<byte>) {
    |packet| >= PHOTON_HEADER_LENGTH && packet[2] != 1
  }

  /** The commands that the parser handles in a packet. */
  function Handled(packet: seq<byte>): seq<Command> {
    if IsReadable(packet) then Split(packet[3], packet[PHOTON_HEADER_LENGTH..]).0 else []
  }

  /** Whether the packet is valid to its end. */
  predicate IsAccepted(packet: seq<byte>) {
    IsReadable(packet) && Split(packet[3], packet[PHOTON_HEADER_LENGTH..]).1
  }

  /** What a packet does: its header may announce encryption, otherwise its commands run. */
  function PacketStep(h: Handlers, t: Table, packet: seq<byte>): (Table, seq<Callback>) {
    if |packet| >= PHOTON_HEADER_LENGTH && packet[2] == 1 then (t, FireIf(h.encrypted, OnEncrypted))
    else Run(h, t, Handled(packet))
  }

  // ---- One pass over a packet ----

  /** The next command is complete and accepted. */
  predicate Proceeds(src: seq<byte>) {
    FirstCommand(src).Some? && !IsTooShort(FirstCommand(src).value)
  }

  /** What handling the next command does, if there is one. */
  function NextStep(h: Handlers, t: Table, src: seq<byte>): (Table, seq<Callback>) {
    if FirstCommand(src).Some? then Step(h, t, FirstCommand(src).value) else (t, [])
  }

  function NextSource(src: seq<byte>): seq<byte>
    requires FirstCommand(src).Some?
  {
    src[CommandSize(FirstCommand(src).value)..]
  }

  lemma StoppingDoesNothing(h: Handlers, t: Table, src: seq<byte>)
    requires !Proceeds(src)
    ensures NextStep(h, t, src) == (t, [])
  {
  }

  /** Halfway through a packet: `whole` is its split, started on table `start`; the commands still
      in `src` will complete the effects from table `t` and callbacks `fired`. */
  ghost predicate Remains(
      h: Handlers, whole: (seq<Command>, bool), start: Table, src: seq<byte>, count: nat, t: Table,
      fired: seq<Callback>)
  {
    var others := Split(count, src);
    var r := Run(h, t, others.0);
    others.1 == whole.1 && Run(h, start, whole.0) == (r.0, fired + r.1)
  }

  lemma RemainsAtStart(h: Handlers, start: Table, src: seq<byte>, count: nat)
    ensures Remains(h, Split(count, src), start, src, count, start, [])
  {
    hide Step, Split;
    var r := Run(h, start, Split(count, src).0);
    assert [] + r.1 == r.1;
  }

  lemma RemainsOn(
      h: Handlers, whole: (seq<Command>, bool), start: Table, src: seq<byte>, count: nat, t: Table,
      fired: seq<Callback>)
    requires count > 0 && Proceeds(src) && Remains(h, whole, start, src, count, t, fired)
    ensures var r := NextStep(h, t, src);
      Remains(h, whole, start, NextSource(src), count - 1, r.0, fired + r.1)
  {
    hide Step, FirstCommand, IsTooShort;
    var cmd := FirstCommand(src).value;
    var others := Split(count - 1, NextSource(src));
    var one := Step(h, t, cmd);
    var r := Run(h, one.0, others.0);
    assert ([cmd] + others.0)[1..] == others.0;
    assert fired + (one.1 + r.1) == (fired + one.1) + r.1;
  }

  lemma RemainsAtEnd(
      h: Handlers, whole: (seq<Command>, bool), start: Table, src: seq<byte>, count: nat, t: Table,
      fired: seq<Callback>)
    requires Remains(h, whole, start, src, count, t, fired)
    requires count == 0 || !Proceeds(src)
    ensures whole.1 == (count == 0) && Run(h, start, whole.0) == (t, fired)
    ensures count > 0 ==> Run(h, start, whole.0) == (NextStep(h, t, src).0, fired + NextStep(h, t, src).1)
  {
    hide Step, FirstCommand, IsTooShort;
    assert fired + [] == fired;
    if count > 0 {
      StoppingDoesNothing(h, t, src);
    }
  }
}
