/** The packet parser: an object with a table of segment buffers that fragments are copied into,
    and offsets that every branch advances on its own. */
module PhotonParser {
  import opened Bytes
  import opened Values
  import opened Protocol18
  import opened Commands
  import opened Deserializer

  /** segmentedPackage: the buffer in which a fragmented message is put together. */
  class SegmentedPackage {
    const totalLength: nat
    var bytesWritten: nat
    const payload: array<byte>

    constructor (total: nat)
      ensures fresh(payload)
      ensures totalLength == total
      ensures Abs() == NewSegment(total)
    {
      totalLength := total;
      bytesWritten := 0;
      payload := new byte[total](_ => 0);
    }

    function Abs(): Segment
      reads this, payload
    {
      Segment(totalLength, bytesWritten, payload[..])
    }

    /** copy(seg.payload[fragOffset:end], data), if it fits, and the byte count. */
    method Write(f: Fragment)
      modifies this, payload
      ensures Abs() == Commands.Write(old(Abs()), f)
    {
      var end := f.offset + |f.data|;
      if end <= payload.Length {
        forall i | 0 <= i < |f.data| {
          payload[f.offset + i] := f.data[i];
        }
      }
      bytesWritten := bytesWritten + |f.data|;
      assert payload[..] == Blit(old(payload[..]), f.offset, f.data);
    }
  }

  class PhotonParser {
    var pendingSegments: map<nat, SegmentedPackage>
    var handlers: Handlers
    /** Every callback made so far. */
    var calls: seq<Callback>

    /** The segments and buffers that fragments may change. */
    ghost var Repr: set<object>

    /** No two pending messages share an object or a buffer. */
    ghost predicate Valid()
      reads this`pendingSegments, this`Repr
    {
      && (forall k :: k in pendingSegments ==> pendingSegments[k] in Repr && pendingSegments[k].payload in Repr)
      && (forall a, b :: a in pendingSegments && b in pendingSegments && a != b ==>
            pendingSegments[a] != pendingSegments[b] && pendingSegments[a].payload != pendingSegments[b].payload)
    }

    ghost function Pending(): Table
      requires Valid()
      reads this`pendingSegments, this`Repr, Repr
    {
      map k | k in pendingSegments :: pendingSegments[k].Abs()
    }

    constructor (h: Handlers)
      ensures Valid() && Pending() == map[] && calls == [] && handlers == h && Repr == {}
    {
      pendingSegments := map[];
      handlers := h;
      calls := [];
      Repr := {};
    }

    method Fire(c: Callback)
      modifies this`calls
      ensures calls == old(calls) + [c]
    {
      calls := calls + [c];
    }

    method DispatchRequest(data: seq<byte>)
      modifies this`calls
      ensures calls == old(calls) + DeliverRequest(handlers, data)
    {
      if |data| < 1 {
        return;
      }
      var params := DeserializeParameterTable(data[1..]);
      if handlers.request {
        Fire(OnRequest(data[0], params));
      }
    }

    method DispatchEvent(data: seq<byte>)
      modifies this`calls
      ensures calls == old(calls) + DeliverEvent(handlers, data)
    {
      if |data| < 1 {
        return;
      }
      var params := DeserializeParameterTable(data[1..]);
      if handlers.event {
        Fire(OnEvent(data[0], params));
      }
    }

    method DispatchResponse(data: seq<byte>)
      modifies this`calls
      ensures calls == old(calls) + DeliverResponse(handlers, data)
    {
      hide Decode, ParamTable;
      if |data| < 3 {
        return;
      }
      var opCode := data[0];
      var returnCode := ToInt16(data[1] as int + 0x100 * (data[2] as int));
      var buf := new ByteBuffer(data[3..]);
      var debugMsg := [];
      if buf.Len() > 0 {
        var tc, _ := buf.ReadByte();
        var val := Deserialize(buf, tc);
        if val.Str? {
          debugMsg := val.text;
        } else if val.StrArray? {
          if handlers.response {
            Fire(OnResponse(opCode, returnCode, [], map[0 := val]));
          }
          return;
        }
      }
      var params := ReadParameterTable(buf);
      if handlers.response {
        Fire(OnResponse(opCode, returnCode, debugMsg, params));
      }
    }

    /** available(src, offset, count) */
    static predicate Available(src: seq<byte>, offset: int, count: int) {
      count >= 0 && offset >= 0 && |src| - offset >= count
    }

    method HandleSendReliable(src: seq<byte>, start: int, length: int) returns (newOffset: int, ok: bool)
      modifies this`calls
      ensures newOffset == start + length
      ensures ok == (length >= 2 && Available(src, start, length))
      ensures calls == old(calls) +
        if Available(src, start, length) then Deliver(handlers, src[start..start + length]) else []
    {
      var offset, cmdLen := start, length;
      if cmdLen < 2 || !Available(src, offset, cmdLen) {
        return offset + cmdLen, false;
      }
      ghost var message := src[start..start + length];
      offset := offset + 1;
      var msgType := src[offset];
      offset := offset + 1;
      cmdLen := cmdLen - 2;
      if !Available(src, offset, cmdLen) {
        return offset + cmdLen, false;
      }
      if msgType == MSG_ENCRYPTED {
        if handlers.encrypted {
          Fire(OnEncrypted);
        }
        return offset + cmdLen, true;
      }
      var data := src[offset..offset + cmdLen];
      assert data == message[2..];
      offset := offset + cmdLen;
      if msgType == MSG_REQUEST {
        DispatchRequest(data);
      } else if msgType == MSG_RESPONSE || msgType == MSG_RESPONSE_ALT {
        DispatchResponse(data);
      } else if msgType == MSG_EVENT {
        DispatchEvent(data);
      }
      return offset, true;
    }

    /** The fragment command: finds or creates the segment, writes, and delivers when complete. */
    method HandleSendFragment(src: seq<byte>, start: nat, length: nat) returns (newOffset: int)
      requires Valid() && start + length <= |src|
      modifies this, Repr
      ensures Valid() && handlers == old(handlers) && fresh(Repr - old(Repr))
      ensures newOffset == start + length
      ensures length < FRAGMENT_HEADER_LENGTH ==> Pending() == old(Pending()) && calls == old(calls)
      ensures length >= FRAGMENT_HEADER_LENGTH ==>
        var r := FragmentStep(handlers, old(Pending()), ParseFragment(src[start..start + length]));
        Pending() == r.0 && calls == old(calls) + r.1
    {
      var offset, cmdLen: int := start, length;
      if cmdLen < FRAGMENT_HEADER_LENGTH || !Available(src, offset, FRAGMENT_HEADER_LENGTH) {
        return offset + cmdLen;
      }
      ghost var body := src[start..start + length];
      var startSeq := BigEndian(src[offset..offset + 4]);
      offset, cmdLen := offset + 4, cmdLen - 4;
      offset, cmdLen := offset + 4, cmdLen - 4; // fragmentCount
      offset, cmdLen := offset + 4, cmdLen - 4; // fragmentNumber
      var totalLen := BigEndian(src[offset..offset + 4]);
      offset, cmdLen := offset + 4, cmdLen - 4;
      var fragOffset := BigEndian(src[offset..offset + 4]);
      offset, cmdLen := offset + 4, cmdLen - 4;
      var fragLen := cmdLen;
      if fragLen < 0 || !Available(src, offset, fragLen) {
        return offset + fragLen;
      }
      var f := Fragment(startSeq, totalLen, fragOffset, src[offset..offset + fragLen]);
      SliceOfSlice(src, start, start + length, 0, 4);
      SliceOfSlice(src, start, start + length, 12, 16);
      SliceOfSlice(src, start, start + length, 16, 20);
      SliceOfSlice(src, start, start + length, 20, length);
      assert body[20..] == body[20..length];
      assert f == ParseFragment(body);
      StoreFragment(f);
      return offset + fragLen;
    }

    /** p.pendingSegments[startSeq] = seg, for a segment that is not in use. */
    method Install(startSeq: nat, seg: SegmentedPackage)
      requires Valid() && startSeq !in pendingSegments && seg !in Repr && seg.payload !in Repr
      modifies this`pendingSegments, this`Repr
      ensures Valid() && Repr == old(Repr) + {seg, seg.payload}
      ensures pendingSegments == old(pendingSegments)[startSeq := seg]
      ensures Pending() == old(Pending())[startSeq := seg.Abs()]
    {
      hide SegmentedPackage.Abs;
      pendingSegments := pendingSegments[startSeq := seg];
      Repr := Repr + {seg, seg.payload};
    }

    /** seg, ok := p.pendingSegments[startSeq]; if !ok, a new segment is stored there. */
    method FindSegment(f: Fragment) returns (seg: SegmentedPackage)
      requires Valid()
      modifies this`pendingSegments, this`Repr
      ensures Valid() && fresh(Repr - old(Repr)) && seg in Repr && seg.payload in Repr
      ensures f.startSeq in pendingSegments && pendingSegments[f.startSeq] == seg
      ensures seg.Abs() == Lookup(old(Pending()), f)
      ensures Pending() == old(Pending())[f.startSeq := seg.Abs()]
    {
      if f.startSeq in pendingSegments {
        seg := pendingSegments[f.startSeq];
        assert Pending() == Pending()[f.startSeq := seg.Abs()];
      } else {
        hide Valid, Pending;
        seg := new SegmentedPackage(f.total);
        Install(f.startSeq, seg);
      }
    }

    /** Writing into one segment leaves the others alone. */
    method WriteSegment(f: Fragment, seg: SegmentedPackage)
      requires Valid() && f.startSeq in pendingSegments && pendingSegments[f.startSeq] == seg
      modifies seg, seg.payload
      ensures Valid() && seg.Abs() == Commands.Write(old(seg.Abs()), f)
      ensures Pending() == old(Pending())[f.startSeq := seg.Abs()]
    {
      seg.Write(f);
      assert forall k :: k in pendingSegments && k != f.startSeq ==>
        pendingSegments[k].Abs() == old(pendingSegments[k].Abs());
    }

    /** The part of handleSendFragment that changes the table. */
    method StoreFragment(f: Fragment)
      requires Valid()
      modifies this, Repr
      ensures Valid() && handlers == old(handlers) && fresh(Repr - old(Repr))
      ensures var r := FragmentStep(handlers, old(Pending()), f);
        Pending() == r.0 && calls == old(calls) + r.1
    {
      hide Deliver, Commands.Write, Lookup, Valid, Pending;
      ghost var before := Pending();
      var seg := FindSegment(f);
      WriteSegment(f, seg);
      if seg.bytesWritten >= seg.totalLength {
        DeliverSegment(f.startSeq, seg);
        assert Pending() == before - {f.startSeq};
      }
    }

    /** delete(p.pendingSegments, startSeq), then the message is handled as a reliable one. */
    method DeliverSegment(startSeq: nat, seg: SegmentedPackage)
      requires Valid() && startSeq in pendingSegments
      modifies this`pendingSegments, this`calls
      ensures Valid()
      ensures Pending() == old(Pending()) - {startSeq}
      ensures calls == old(calls) + Deliver(handlers, seg.Abs().payload)
    {
      hide Deliver;
      pendingSegments := pendingSegments - {startSeq};
      var message := seg.payload[..];
      var _, _ := HandleSendReliable(message, 0, |message|);
      assert message[0..0 + |message|] == message;
    }

    /** The first half of handleCommand: the header, checked against the bytes there are. */
    static method CommandHeader(src: seq<byte>, start: nat) returns (ok: bool, cmdType: byte, offset: int, cmdLen: int)
      requires start <= |src|
      ensures ok == FirstCommand(src[start..]).Some?
      ensures ok ==> offset == start + COMMAND_HEADER_LENGTH && cmdLen >= 0 && offset + cmdLen <= |src|
      ensures ok ==> FirstCommand(src[start..]) == Some(Command(cmdType, src[offset..offset + cmdLen]))
    {
      hide BigEndian;
      offset, cmdType, cmdLen := start, 0, 0;
      if !Available(src, offset, COMMAND_HEADER_LENGTH) {
        ok := false;
        return;
      }
      SliceOfTail(src, start, 4, 8);
      cmdType := src[offset];
      offset := offset + 4; // type, channelId, commandFlags, reserved byte
      cmdLen := BigEndian(src[offset..offset + 4]);
      offset := offset + 4;
      offset := offset + 4; // reliableSequenceNumber
      cmdLen := cmdLen - COMMAND_HEADER_LENGTH;
      ok := !(cmdLen < 0 || !Available(src, offset, cmdLen));
      if ok {
        SliceOfTail(src, start, COMMAND_HEADER_LENGTH, COMMAND_HEADER_LENGTH + cmdLen);
      }
    }

    /** The second half of handleCommand: one branch for each type of command. Whichever runs, the
        offset moves to the end of the command. */
    method DispatchCommand(src: seq<byte>, cmdType: byte, start: nat, length: nat) returns (newOffset: int, ok: bool)
      requires Valid() && start + length <= |src|
      modifies this, Repr
      ensures Valid() && handlers == old(handlers) && fresh(Repr - old(Repr))
      ensures newOffset == start + length
      ensures var cmd := Command(cmdType, src[start..start + length]); var r := Step(handlers, old(Pending()), cmd);
        ok == !IsTooShort(cmd) && Pending() == r.0 && calls == old(calls) + r.1
    {
      hide Deliver, FragmentStep, ParseFragment;
      var offset, cmdLen: int := start, length;
      if cmdType == CMD_DISCONNECT {
        return offset + cmdLen, true;
      } else if cmdType == CMD_SEND_UNRELIABLE {
        if cmdLen < 4 {
          return offset + cmdLen, false;
        }
        offset, cmdLen := offset + 4, cmdLen - 4;
        assert src[start..start + length][4..] == src[offset..offset + cmdLen];
        newOffset, ok := HandleSendReliable(src, offset, cmdLen);
        return newOffset, true;
      } else if cmdType == CMD_SEND_RELIABLE {
        newOffset, ok := HandleSendReliable(src, offset, cmdLen);
        return newOffset, true;
      } else if cmdType == CMD_SEND_FRAGMENT {
        newOffset := HandleSendFragment(src, offset, cmdLen);
        return newOffset, true;
      } else {
        return offset + cmdLen, true;
      }
    }

    /** One command. Whichever branch runs, the offset moves by exactly the declared length. */
    method HandleCommand(src: seq<byte>, start: nat) returns (newOffset: int, ok: bool)
      requires Valid() && start <= |src|
      modifies this, Repr
      ensures Valid() && handlers == old(handlers) && fresh(Repr - old(Repr))
      ensures ok == Proceeds(src[start..])
      ensures ok ==> start <= newOffset <= |src| && src[newOffset..] == NextSource(src[start..])
      ensures ok ==> newOffset == start + CommandSize(FirstCommand(src[start..]).value)
      ensures var r := NextStep(handlers, old(Pending()), src[start..]);
        Pending() == r.0 && calls == old(calls) + r.1
    {
      hide Step, FirstCommand, IsTooShort, Valid, Pending;
      var found, cmdType, offset, cmdLen := CommandHeader(src, start);
      if !found {
        return offset, false;
      }
      newOffset, ok := DispatchCommand(src, cmdType, offset, cmdLen);
    }

    /** The loop of ReceivePacket. */
    method HandleCommands(payload: seq<byte>, start: nat, commandCount: nat) returns (ok: bool)
      requires Valid() && start <= |payload|
      modifies this, Repr
      ensures Valid() && handlers == old(handlers) && fresh(Repr - old(Repr))
      ensures ok == Split(commandCount, payload[start..]).1
      ensures var r := Run(handlers, old(Pending()), Split(commandCount, payload[start..]).0);
        Pending() == r.0 && calls == old(calls) + r.1
    {
      hide *;
      var offset := start;
      ghost var whole := Split(commandCount, payload[start..]);
      ghost var fired: seq<Callback> := [];
      RemainsAtStart(handlers, Pending(), payload[start..], commandCount);
      for i := 0 to commandCount
        invariant Valid() && handlers == old(handlers) && fresh(Repr - old(Repr))
        invariant 0 <= offset <= |payload| && calls == old(calls) + fired
        invariant Remains(handlers, whole, old(Pending()), payload[offset..], commandCount - i, Pending(), fired)
      {
        ghost var src, t := payload[offset..], Pending();
        var next, handled := HandleCommand(payload, offset);
        if !handled {
          RemainsAtEnd(handlers, whole, old(Pending()), src, commandCount - i, t, fired);
          return false;
        }
        RemainsOn(handlers, whole, old(Pending()), src, commandCount - i, t, fired);
        fired := fired + NextStep(handlers, t, src).1;
        offset := next;
      }
      RemainsAtEnd(handlers, whole, old(Pending()), payload[offset..], 0, Pending(), fired);
      return true;
    }

    /** A whole packet. The result and the effects are those of the pure splitter and the fold
        of the commands that it finds. */
    method ReceivePacket(payload: seq<byte>) returns (ok: bool)
      requires Valid()
      modifies this, Repr
      ensures Valid() && handlers == old(handlers) && fresh(Repr - old(Repr))
      ensures ok == IsAccepted(payload)
      ensures var r := PacketStep(handlers, old(Pending()), payload);
        Pending() == r.0 && calls == old(calls) + r.1
    {
      hide Split;
      if |payload| < PHOTON_HEADER_LENGTH {
        return false;
      }
      var offset := 2; // peerId
      var flags := payload[offset];
      offset := offset + 1;
      var commandCount := payload[offset];
      offset := offset + 1;
      offset := offset + 8; // timestamp, challenge
      if flags == 1 {
        if handlers.encrypted {
          Fire(OnEncrypted);
        }
        return false;
      }
      ok := HandleCommands(payload, offset, commandCount);
    }
  }
}