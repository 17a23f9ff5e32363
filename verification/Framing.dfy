/** Exactly which packets are accepted, which part of a packet is handled, and which messages cause
    which callback. */
module Framing {
  import opened Bytes
  import opened Values
  import opened Protocol18
  import opened Commands
  import opened PacketRoundTrip

  // ---- Commands ----

  /** What the splitter takes for a command is one that a sender could have printed. */
  lemma CommandIsPrinted(src: seq<byte>) returns (p: Printed)
    requires FirstCommand(src).Some?
    ensures IsPrintable(p) && p.cmd == FirstCommand(src).value
    ensures src == CommandBytes(p) + src[CommandSize(p.cmd)..]
  {
    hide BigEndian, ToBigEndian;
    var size := BigEndian(src[4..8]);
    var cmd := FirstCommand(src).value;
    SizeField(src[4..8]);
    p := Printed(cmd, src[1..4], src[8..12]);
    assert CommandSize(cmd) == size;
    assert src[..size] == [src[0]] + src[1..4] + src[4..8] + src[8..12] + src[12..size];
    assert src == src[..size] + src[size..];
  }

  lemma SizeField(s: seq<byte>)
    requires |s| == 4
    ensures ToBigEndian(BigEndian(s), 4) == s && BigEndian(s) < 0x1_0000_0000
  {
    BigEndianBack(s);
    BigEndianBound(s);
    Pow256Constants();
  }

  /** Some printable command comes first in `src`. */
  ghost predicate StartsWith(src: seq<byte>, cmd: Command) {
    exists p, rest :: IsPrintable(p) && p.cmd == cmd && src == CommandBytes(p) + rest
  }

  /** EXACTLY THE COMMANDS: the splitter finds a command if and only if the bytes start with it as
      a sender prints it. */
  lemma FirstCommandExactly(src: seq<byte>, cmd: Command)
    ensures FirstCommand(src) == Some(cmd) <==> StartsWith(src, cmd)
  {
    hide FirstCommand, CommandBytes, IsPrintable;
    if FirstCommand(src) == Some(cmd) {
      var p := CommandIsPrinted(src);
    }
    if StartsWith(src, cmd) {
      var p, rest :| IsPrintable(p) && p.cmd == cmd && src == CommandBytes(p) + rest;
      FirstCommandOfPrinted(p, rest);
    }
  }

  /** The next command is missing, malformed, or an unreliable one with fewer than 4 bytes. */
  ghost predicate Stops(src: seq<byte>) {
    forall cmd :: StartsWith(src, cmd) ==> cmd.kind == 7 && |cmd.body| < 4
  }

  /** What the splitter handles of a body are its printed commands up to the announced number or up
      to the first that cannot be handled, whichever comes first. */
  lemma {:induction false} SplitExactly(count: nat, src: seq<byte>) returns (ps: seq<Printed>, rest: seq<byte>)
    ensures AllPrintable(ps) && |ps| <= count && src == CommandsBytes(ps) + rest
    ensures Split(count, src).0 == CommandsOf(ps) && (Split(count, src).1 <==> |ps| == count)
    ensures |ps| < count ==> Stops(rest)
    decreases count
  {
    hide FirstCommand, CommandBytes, IsPrintable, StartsWith;
    ps, rest := [], src;
    if count == 0 {
    } else if FirstCommand(src).None? || IsTooShort(FirstCommand(src).value) {
      forall cmd | StartsWith(src, cmd)
        ensures cmd.kind == 7 && |cmd.body| < 4
      {
        FirstCommandExactly(src, cmd);
      }
    } else {
      var p := CommandIsPrinted(src);
      var others, end := SplitExactly(count - 1, src[CommandSize(p.cmd)..]);
      ps, rest := [p] + others, end;
      assert ps[1..] == others;
      assert src == CommandBytes(p) + (CommandsBytes(others) + end);
    }
  }

  // ---- Packets ----

  /** The packet starts as a sender prints it: an unencrypted header and the commands it announces. */
  ghost predicate IsPrinted(packet: seq<byte>) {
    exists p, rest :: IsPacket(p) && packet == PacketBytes(p.peer, p.flags, p.stamp, p.commands) + rest
  }

  lemma HeaderIsPrinted(packet: seq<byte>, ps: seq<Printed>, rest: seq<byte>)
    requires |packet| >= 12 && packet[3] as int == |ps| && packet[12..] == CommandsBytes(ps) + rest
    ensures packet == PacketBytes(packet[..2], packet[2], packet[4..12], ps) + rest
  {
    assert packet == packet[..2] + [packet[2], packet[3]] + packet[4..12] + packet[12..];
  }

  /** EXACTLY THE ACCEPTED PACKETS: ReceivePacket returns true if and only if the packet starts as
      a sender prints it, whatever bytes follow. */
  lemma AcceptedExactly(packet: seq<byte>)
    ensures IsAccepted(packet) <==> IsPrinted(packet)
  {
    hide Split, CommandsBytes, CommandsOf, AllPrintable, Stops;
    if IsAccepted(packet) {
      var ps, rest := SplitExactly(packet[3], packet[12..]);
      HeaderIsPrinted(packet, ps, rest);
      var p := Packet(packet[..2], packet[2], packet[4..12], ps);
      assert IsPacket(p) && packet == PacketBytes(p.peer, p.flags, p.stamp, p.commands) + rest;
    }
    if IsPrinted(packet) {
      var p, rest :| IsPacket(p) && packet == PacketBytes(p.peer, p.flags, p.stamp, p.commands) + rest;
      SplitOfPrinted(p.commands, rest);
      PacketLayout(p.peer, p.flags, p.stamp, p.commands);
      assert packet[12..] == CommandsBytes(p.commands) + rest;
    }
  }

  /** Packets that are not split: below 12 bytes nothing happens; with encryption flag 1 only the
      encryption callback is called. Both are rejected. */
  lemma UnsplitPackets(h: Handlers, t: Table, packet: seq<byte>)
    ensures |packet| < 12 ==> PacketStep(h, t, packet) == (t, []) && !IsAccepted(packet)
    ensures |packet| >= 12 && packet[2] == 1 ==>
      PacketStep(h, t, packet) == (t, if h.encrypted then [OnEncrypted] else []) && !IsAccepted(packet)
  {
    hide Split;
  }

  /** What every command does: types 6 and 7 deliver their message, 7 behind 4 more bytes, type 8 is
      a fragment behind its 20-byte header, and all else is skipped. */
  lemma CommandEffects(h: Handlers, t: Table, cmd: Command)
    ensures cmd.kind == 6 ==> Step(h, t, cmd) == (t, Deliver(h, cmd.body))
    ensures cmd.kind == 7 && |cmd.body| >= 4 ==> Step(h, t, cmd) == (t, Deliver(h, cmd.body[4..]))
    ensures cmd.kind == 8 && |cmd.body| >= 20 ==> Step(h, t, cmd) == FragmentStep(h, t, ParseFragment(cmd.body))
    ensures cmd.kind == 7 && |cmd.body| < 4 ==> Step(h, t, cmd) == (t, [])
    ensures cmd.kind == 8 && |cmd.body| < 20 ==> Step(h, t, cmd) == (t, [])
    ensures cmd.kind !in {6, 7, 8} ==> Step(h, t, cmd) == (t, [])
  {
    hide Deliver, ParseFragment, FragmentStep;
  }

  // ---- Messages ----

  /** The message is complete enough for its type, and somebody listens to that. */
  predicate IsHeard(h: Handlers, m: seq<byte>) {
    |m| >= 2 &&
    match m[1]
    case 2 => |m| >= 3 && h.request
    case 3 => |m| >= 5 && h.response
    case 4 => |m| >= 3 && h.event
    case 7 => |m| >= 5 && h.response
    case 131 => h.encrypted
    case _ => false
  }

  /** EXACTLY THE CALLBACKS of every message: one if it is heard and none otherwise, of the kind of
      its type, with its code, and with the table after the code. */
  lemma DeliverExactly(h: Handlers, m: seq<byte>)
    ensures !IsHeard(h, m) ==> Deliver(h, m) == []
    ensures IsHeard(h, m) && m[1] == 131 ==> Deliver(h, m) == [OnEncrypted]
    ensures IsHeard(h, m) && m[1] == 2 ==> Deliver(h, m) == [OnRequest(m[2], ParamTable(m[3..]).val)]
    ensures IsHeard(h, m) && m[1] == 4 ==> Deliver(h, m) == [OnEvent(m[2], ParamTable(m[3..]).val)]
    ensures IsHeard(h, m) && (m[1] == 3 || m[1] == 7) ==>
      var calls := Deliver(h, m);
      |calls| == 1 && calls[0].OnResponse? && calls[0].opCode == m[2]
      && calls[0].returnCode == ToInt16(m[3] as int + 0x100 * (m[4] as int))
  {
    hide ParamTable, Decode, DebugText;
    if |m| >= 3 {
      assert m[2..][1..] == m[3..];
    }
  }
}
