/** IPv4, UDP and TCP headers: the client's parsers and builders, and the second UDP parser that
    the packet collector uses. */
module IpPackets {
  import opened Bytes
  import opened Checksum

  const PROTO_TCP: byte := 6
  const PROTO_UDP: byte := 17
  const TCP_FLAG_RST: byte := 0x04
  const TCP_FLAG_ACK: byte := 0x10
  const ALBION_UDP_PORT: nat := 5056

  datatype Ipv4Header = Ipv4Header(
      version: nat, headerLen: nat, protocol: byte, srcIP: seq<byte>, dstIP: seq<byte>, totalLength: nat)

  datatype UdpHeader = UdpHeader(srcPort: nat, dstPort: nat, payload: seq<byte>)

  datatype TcpHeader = TcpHeader(
      srcPort: nat, dstPort: nat, seqNum: nat, flags: byte, headerLen: nat, payload: seq<byte>)

  // ---- Parsers ----

  function Word(buf: seq<byte>, i: nat): (r: nat)
    requires i + 2 <= |buf|
    ensures r == 0x100 * (buf[i] as int) + buf[i + 1]
  {
    TwoBytes(buf[i..i + 2]);
    BigEndian(buf[i..i + 2])
  }

  lemma TwoBytes(bs: seq<byte>)
    requires |bs| == 2
    ensures BigEndian(bs) == 0x100 * (bs[0] as int) + bs[1]
  {
    assert bs[..1][..0] == [];
    assert BigEndian(bs[..1]) == bs[0] as int;
  }

  function ParseIpv4Header(buf: seq<byte>): Option<Ipv4Header> {
    if |buf| < 20 then None
    else if buf[0] / 0x10 != 4 then None
    else
      var ihl := buf[0] % 0x10 * 4;
      if |buf| < ihl then None
      else Some(Ipv4Header(buf[0] / 0x10, ihl, buf[9], buf[12..16], buf[16..20], Word(buf, 2)))
  }

  function ParseUdpHeader(buf: seq<byte>, ipHeaderLen: nat): Option<UdpHeader> {
    var offset := ipHeaderLen;
    if |buf| < offset + 8 then None
    else
      var payloadLen: int := Word(buf, offset + 4) - 8;
      if payloadLen < 0 || |buf| < offset + 8 + payloadLen then None
      else Some(UdpHeader(Word(buf, offset), Word(buf, offset + 2), buf[offset + 8..offset + 8 + payloadLen]))
  }

  function ParseTcpHeader(buf: seq<byte>, ipHeaderLen: nat): Option<TcpHeader> {
    var offset := ipHeaderLen;
    if |buf| < offset + 20 then None
    else
      var dataOffset := buf[offset + 12] / 0x10 * 4;
      var start := offset + dataOffset;
      Some(TcpHeader(Word(buf, offset), Word(buf, offset + 2), 0x1_0000 * Word(buf, offset + 4) + Word(buf, offset + 6),
                     buf[offset + 13], dataOffset, if start < |buf| then buf[start..] else []))
  }

  /** The collector's filter: the UDP payload and source address, if the packet is a UDP datagram
      from or to the game's port. */
  function ExtractUdpPayload(packet: seq<byte>): Option<(seq<byte>, seq<byte>)> {
    if |packet| < 20 then None
    else if packet[0] / 0x10 != 4 then None
    else if packet[9] != 17 then None
    else
      var ihl := packet[0] % 0x10 * 4;
      if ihl < 20 || |packet| < ihl + 8 then None
      else
        var udp := packet[ihl..];
        if |udp| < 8 then None
        else if Word(udp, 0) != ALBION_UDP_PORT && Word(udp, 2) != ALBION_UDP_PORT then None
        else if Word(udp, 4) < 8 || Word(udp, 4) > |udp| then None
        else Some((udp[8..Word(udp, 4)], packet[12..16]))
  }

  /** What the two parsers of the client say together about a packet to or from the game. */
  function ClientView(packet: seq<byte>): Option<(seq<byte>, seq<byte>)> {
    match ParseIpv4Header(packet)
    case None => None
    case Some(ip) =>
      if ip.protocol != PROTO_UDP || ip.headerLen < 20 then None
      else
        match ParseUdpHeader(packet, ip.headerLen)
        case None => None
        case Some(udp) =>
          if udp.srcPort == ALBION_UDP_PORT || udp.dstPort == ALBION_UDP_PORT then Some((udp.payload, ip.srcIP))
          else None
  }

  lemma WordInTail(bs: seq<byte>, k: nat, i: nat)
    requires k + i + 2 <= |bs|
    ensures Word(bs[k..], i) == Word(bs, k + i)
  {
  }

  /** CROSS-PARSER AGREEMENT: on every byte string, the collector's filter accepts exactly what
      the client's parsers accept as UDP with a full header and the game's port, with the same
      payload and source. */
  lemma ParsersAgree(packet: seq<byte>)
    ensures ExtractUdpPayload(packet) == ClientView(packet)
  {
    if |packet| >= 20 {
      var ihl := packet[0] % 0x10 * 4;
      if ihl >= 20 && |packet| >= ihl + 8 {
        hide Word;
        var udp := packet[ihl..];
        var len := Word(udp, 4);
        WordInTail(packet, ihl, 0);
        WordInTail(packet, ihl, 2);
        WordInTail(packet, ihl, 4);
        if 8 <= len <= |udp| {
          SliceOfTail(packet, ihl, 8, len);
        }
      }
    }
  }

  // ---- What the builders print ----

  function Bytes16(v: int): (r: seq<byte>)
    ensures |r| == 2
    ensures r == [v / 0x100 % 0x100, v % 0x100]
  {
    LowBytes(v);
    TwoBytesOf(v % 0x1_0000);
    ToBigEndian(v % 0x1_0000, 2)
  }

  lemma LowBytes(v: int)
    ensures v % 0x1_0000 / 0x100 == v / 0x100 % 0x100
    ensures v % 0x1_0000 % 0x100 == v % 0x100
  {
    var high, low := v / 0x1_0000, v % 0x1_0000;
    DivideBy256(0x100 * high + low / 0x100, low % 0x100);
    DivideBy256(high, low / 0x100);
  }

  lemma DivideBy256(q: int, r: nat)
    requires r < 0x100
    ensures (0x100 * q + r) / 0x100 == q && (0x100 * q + r) % 0x100 == r
  {
  }

  lemma TwoBytesOf(v: uint16)
    ensures ToBigEndian(v, 2) == [v / 0x100, v % 0x100]
  {
    assert ToBigEndian(v / 0x100, 1) == [] + [v / 0x100];
  }

  function Bytes32(v: int): (r: seq<byte>)
    ensures |r| == 4
  {
    Bytes16(v / 0x1_0000) + Bytes16(v)
  }

  /** An IPv4 header without options, with a given checksum. */
  function IpHeader(totalLen: int, protocol: byte, srcIP: seq<byte>, dstIP: seq<byte>, checksum: int): seq<byte> {
    [0x45, 0x00] + Bytes16(totalLen) + [0, 0, 0x40, 0, 64, protocol] + Bytes16(checksum) + srcIP + dstIP
  }

  function IpHeaderChecked(totalLen: int, protocol: byte, srcIP: seq<byte>, dstIP: seq<byte>): seq<byte> {
    IpHeader(totalLen, protocol, srcIP, dstIP, InternetChecksum(IpHeader(totalLen, protocol, srcIP, dstIP, 0)))
  }

  function UdpPacket(srcIP: seq<byte>, srcPort: int, dstIP: seq<byte>, dstPort: int, payload: seq<byte>): seq<byte> {
    IpHeaderChecked(28 + |payload|, PROTO_UDP, srcIP, dstIP)
    + Bytes16(srcPort) + Bytes16(dstPort) + Bytes16(8 + |payload|) + [0, 0] + payload
  }

  function RstSegment(srcPort: int, dstPort: int, ackNum: int, checksum: int): seq<byte> {
    Bytes16(srcPort) + Bytes16(dstPort) + [0, 0, 0, 0] + Bytes32(ackNum)
    + [0x50, 0x14, 0, 0] + Bytes16(checksum) + [0, 0]
  }

  /** The pseudo-header that the TCP checksum covers (section 3.1 of RFC 9293). */
  function PseudoHeader(srcIP: seq<byte>, dstIP: seq<byte>, tcpLen: int): seq<byte> {
    srcIP + dstIP + [0, PROTO_TCP] + Bytes16(tcpLen)
  }

  function RstPacket(srcIP: seq<byte>, srcPort: int, dstIP: seq<byte>, dstPort: int, ackNum: int): seq<byte> {
    IpHeaderChecked(40, PROTO_TCP, srcIP, dstIP)
    + RstSegment(srcPort, dstPort, ackNum,
                 InternetChecksum(PseudoHeader(srcIP, dstIP, 20) + RstSegment(srcPort, dstPort, ackNum, 0)))
  }

  // ---- The builders ----

  /** java.nio.ByteBuffer in big-endian order: a fixed array with a position. */
  class NioBuffer {
    const data: array<byte>
    var position: nat

    ghost predicate Valid()
      reads this
    {
      position <= data.Length
    }

    /** The bytes put so far. */
    function Written(): seq<byte>
      requires Valid()
      reads this, data
    {
      data[..position]
    }

    lemma NothingWritten()
      requires Valid() && position == 0
      ensures Written() == []
    {
    }

    constructor (capacity: nat)
      ensures Valid() && position == 0 && fresh(data) && data.Length == capacity && Written() == []
    {
      data := new byte[capacity](_ => 0);
      position := 0;
    }

    method Put(bs: seq<byte>)
      requires Valid() && position + |bs| <= data.Length
      modifies this`position, data
      ensures Valid() && position == old(position) + |bs|
      ensures Written() == old(Written()) + bs
    {
      forall i | 0 <= i < |bs| {
        data[position + i] := bs[i];
      }
      position := position + |bs|;
    }

    method PutShort(v: int)
      requires Valid() && position + 2 <= data.Length
      modifies this`position, data
      ensures Valid() && position == old(position) + 2
      ensures Written() == old(Written()) + Bytes16(v)
    {
      Put(Bytes16(v));
    }

    /** The absolute put, which overwrites and does not move the position. */
    method PutShortAt(index: nat, v: int)
      requires Valid() && index + 2 <= position
      modifies data
      ensures Valid() && Written() == old(Written())[..index] + Bytes16(v) + old(Written())[index + 2..]
    {
      data[index] := v / 0x100 % 0x100;
      data[index + 1] := v % 0x100;
    }
  }

  /** The pieces of a header as they are put, one after the other. */
  lemma HeaderPieces(
      total: seq<byte>, id: seq<byte>, flags: seq<byte>, protocol: byte, sum: seq<byte>, srcIP: seq<byte>,
      dstIP: seq<byte>)
    requires id == [0, 0] && flags == [0x40, 0]
    ensures [] + [0x45] + [0x00] + total + id + flags + [64] + [protocol] + sum + srcIP + dstIP
         == [0x45, 0x00] + total + [0, 0, 0x40, 0, 64, protocol] + sum + srcIP + dstIP
  {
  }

  lemma FlagBytes()
    ensures Bytes16(0) == [0, 0] && Bytes16(0x4000) == [0x40, 0]
  {
  }

  /** The fields of the IP header, with a zero checksum. */
  method PutIpFields(buf: NioBuffer, totalLen: int, protocol: byte, srcIP: seq<byte>, dstIP: seq<byte>)
    requires buf.Valid() && buf.position == 0 && buf.data.Length >= 20 && |srcIP| == 4 && |dstIP| == 4
    modifies buf`position, buf.data
    ensures buf.Valid() && buf.position == 20
    ensures buf.Written() == IpHeader(totalLen, protocol, srcIP, dstIP, 0)
  {
    hide Bytes16, buf.Written;
    assert buf.Written() == [] by { buf.NothingWritten(); }
    buf.Put([0x45]);
    buf.Put([0x00]);
    buf.PutShort(totalLen);
    buf.PutShort(0);
    buf.PutShort(0x4000);
    buf.Put([64]);
    buf.Put([protocol]);
    buf.PutShort(0);
    buf.Put(srcIP);
    buf.Put(dstIP);
    FlagBytes();
    HeaderPieces(Bytes16(totalLen), Bytes16(0), Bytes16(0x4000), protocol, Bytes16(0), srcIP, dstIP);
  }

  /** The IP header that both builders write first: fields, checksum, patch. */
  method PutIpHeader(buf: NioBuffer, totalLen: int, protocol: byte, srcIP: seq<byte>, dstIP: seq<byte>)
    requires buf.Valid() && buf.position == 0 && buf.data.Length >= 20 && |srcIP| == 4 && |dstIP| == 4
    modifies buf`position, buf.data
    ensures buf.Valid() && buf.position == 20
    ensures buf.Written() == IpHeaderChecked(totalLen, protocol, srcIP, dstIP)
  {
    hide InternetChecksum, IpHeader, Bytes16;
    PutIpFields(buf, totalLen, protocol, srcIP, dstIP);
    assert buf.data[..][0..0 + 20] == buf.Written();
    var ipChecksum := Compute(buf.data[..], 0, 20);
    buf.PutShortAt(10, ipChecksum);
    PatchedHeader(totalLen, protocol, srcIP, dstIP, ipChecksum);
  }

  lemma PatchedHeader(totalLen: int, protocol: byte, srcIP: seq<byte>, dstIP: seq<byte>, c: int)
    requires |srcIP| == 4 && |dstIP| == 4
    ensures var zeroed := IpHeader(totalLen, protocol, srcIP, dstIP, 0);
      |zeroed| == 20 && zeroed[..10] + Bytes16(c) + zeroed[12..] == IpHeader(totalLen, protocol, srcIP, dstIP, c)
      && zeroed[10] == 0 && zeroed[11] == 0
  {
  }

  method BuildIpv4UdpPacket(
      srcIP: seq<byte>, srcPort: int, dstIP: seq<byte>, dstPort: int, payload: seq<byte>)
      returns (packet: array<byte>)
    requires |srcIP| == 4 && |dstIP| == 4
    ensures fresh(packet) && packet[..] == UdpPacket(srcIP, srcPort, dstIP, dstPort, payload)
  {
    hide IpHeaderChecked, Bytes16;
    var udpLen := 8 + |payload|;
    var totalLen := 20 + udpLen;
    var buf := new NioBuffer(totalLen);
    PutIpHeader(buf, totalLen, PROTO_UDP, srcIP, dstIP);
    buf.PutShort(srcPort);
    buf.PutShort(dstPort);
    buf.PutShort(udpLen);
    buf.PutShort(0);
    buf.Put(payload);
    assert Bytes16(0) == [0, 0] by { FlagBytes(); }
    packet := buf.data;
    assert packet[..] == buf.Written();
  }

  lemma PseudoPieces(bs: seq<byte>, srcIP: seq<byte>, dstIP: seq<byte>, tcpLen: nat, segment: seq<byte>)
    requires |srcIP| == 4 && |dstIP| == 4 && |bs| == 12 + |segment|
    requires bs[..4] == srcIP && bs[4..8] == dstIP && bs[12..] == segment
    requires bs[8] == 0 && bs[9] == PROTO_TCP && bs[10] == tcpLen / 0x100 % 0x100 && bs[11] == tcpLen % 0x100
    ensures bs == PseudoHeader(srcIP, dstIP, tcpLen) + segment
  {
    assert bs[8..12] == [0, PROTO_TCP] + Bytes16(tcpLen);
    assert bs == bs[..4] + bs[4..8] + bs[8..12] + bs[12..];
  }

  /** The TCP checksum: pseudo-header and segment in one buffer. */
  method TcpChecksum(buf: seq<byte>, srcIP: seq<byte>, dstIP: seq<byte>, tcpLen: nat) returns (c: nat)
    requires |srcIP| == 4 && |dstIP| == 4 && |buf| >= 20 + tcpLen
    ensures 12 + tcpLen <= 0x1_0000 ==>
      c == InternetChecksum(PseudoHeader(srcIP, dstIP, tcpLen) + buf[20..20 + tcpLen])
  {
    hide InternetChecksum, PseudoHeader;
    var pseudo := new byte[12 + tcpLen](_ => 0);
    forall i | 0 <= i < 4 {
      pseudo[i] := srcIP[i];
    }
    forall i | 0 <= i < 4 {
      pseudo[4 + i] := dstIP[i];
    }
    pseudo[8] := 0;
    pseudo[9] := PROTO_TCP;
    pseudo[10] := tcpLen / 0x100 % 0x100;
    pseudo[11] := tcpLen % 0x100;
    forall i | 0 <= i < tcpLen {
      pseudo[12 + i] := buf[20 + i];
    }
    PseudoPieces(pseudo[..], srcIP, dstIP, tcpLen, buf[20..20 + tcpLen]);
    assert pseudo[..][0..0 + pseudo.Length] == pseudo[..];
    c := Compute(pseudo[..], 0, pseudo.Length);
  }

  lemma SegmentPieces(header: seq<byte>, src: seq<byte>, dst: seq<byte>, ack: seq<byte>, zero: seq<byte>)
    requires zero == [0, 0]
    ensures header + src + dst + [0, 0, 0, 0] + ack + [0x50] + [0x14] + zero + zero + zero
         == header + (src + dst + [0, 0, 0, 0] + ack + [0x50, 0x14, 0, 0] + zero + [0, 0])
  {
  }

  /** The fields of the reset after the IP header, with a zero checksum. */
  method PutRstFields(buf: NioBuffer, srcPort: int, dstPort: int, ackNum: int)
    requires buf.Valid() && buf.position == 20 && buf.data.Length == 40
    modifies buf`position, buf.data
    ensures buf.Valid() && buf.position == 40
    ensures buf.Written() == old(buf.Written()) + RstSegment(srcPort, dstPort, ackNum, 0)
  {
    hide Bytes16, Bytes32, buf.Written;
    buf.PutShort(srcPort);
    buf.PutShort(dstPort);
    buf.Put([0, 0, 0, 0]);
    buf.Put(Bytes32(ackNum));
    buf.Put([0x50]);
    buf.Put([TCP_FLAG_RST + TCP_FLAG_ACK]);
    buf.PutShort(0);
    buf.PutShort(0);
    buf.PutShort(0);
    FlagBytes();
    SegmentPieces(old(buf.Written()), Bytes16(srcPort), Bytes16(dstPort), Bytes32(ackNum), Bytes16(0));
  }

  method BuildTcpRst(
      srcIP: seq<byte>, srcPort: int, dstIP: seq<byte>, dstPort: int, ackNum: int)
      returns (packet: array<byte>)
    requires |srcIP| == 4 && |dstIP| == 4
    ensures fresh(packet) && packet[..] == RstPacket(srcIP, srcPort, dstIP, dstPort, ackNum)
  {
    hide IpHeaderChecked, Bytes16, InternetChecksum, RstSegment, PseudoHeader;
    var tcpLen := 20;
    var totalLen := 20 + tcpLen;
    var buf := new NioBuffer(totalLen);
    PutIpHeader(buf, totalLen, PROTO_TCP, srcIP, dstIP);
    ghost var header := buf.Written();
    PutRstFields(buf, srcPort, dstPort, ackNum);
    ghost var segment := RstSegment(srcPort, dstPort, ackNum, 0);
    assert buf.data[..] == buf.Written() && |header| == 20;
    assert (header + segment)[20..20 + tcpLen] == segment;
    var checksum := TcpChecksum(buf.data[..], srcIP, dstIP, tcpLen);
    buf.PutShortAt(36, checksum);
    PatchedSegment(header, srcPort, dstPort, ackNum, checksum);
    packet := buf.data;
    assert packet[..] == buf.Written();
  }

  lemma PatchedSegment(header: seq<byte>, srcPort: int, dstPort: int, ackNum: int, c: int)
    requires |header| == 20
    ensures var whole := header + RstSegment(srcPort, dstPort, ackNum, 0);
      |whole| == 40 && whole[..36] + Bytes16(c) + whole[38..] == header + RstSegment(srcPort, dstPort, ackNum, c)
  {
  }

  // ---- Checksums of built packets ----

  lemma StorePatches(bs: seq<byte>, k: nat, c: nat)
    requires k + 2 <= |bs| && c <= 0xFFFF
    ensures Store16(bs, k, c) == bs[..k] + Bytes16(c) + bs[k + 2..]
  {
  }

  /** Every built IPv4 header verifies. */
  lemma BuiltHeaderVerifies(totalLen: int, protocol: byte, srcIP: seq<byte>, dstIP: seq<byte>)
    requires |srcIP| == 4 && |dstIP| == 4
    ensures |IpHeaderChecked(totalLen, protocol, srcIP, dstIP)| == 20
    ensures Verifies(IpHeaderChecked(totalLen, protocol, srcIP, dstIP))
  {
    hide InternetChecksum, IpHeader, Bytes16, Verifies;
    var zeroed := IpHeader(totalLen, protocol, srcIP, dstIP, 0);
    var c := InternetChecksum(zeroed);
    PatchedHeader(totalLen, protocol, srcIP, dstIP, c);
    StoredChecksumVerifies(zeroed, 10);
    StorePatches(zeroed, 10, c);
  }

  /** Every built RST segment verifies together with its pseudo-header, and so does its header. */
  lemma BuiltRstVerifies(srcIP: seq<byte>, srcPort: int, dstIP: seq<byte>, dstPort: int, ackNum: int)
    requires |srcIP| == 4 && |dstIP| == 4
    ensures var packet := RstPacket(srcIP, srcPort, dstIP, dstPort, ackNum);
      |packet| == 40 && Verifies(packet[..20])
      && Verifies(PseudoHeader(srcIP, dstIP, |packet| - 20) + packet[20..])
  {
    hide InternetChecksum, IpHeaderChecked, Bytes16, Bytes32, Verifies;
    var header := IpHeaderChecked(40, PROTO_TCP, srcIP, dstIP);
    BuiltHeaderVerifies(40, PROTO_TCP, srcIP, dstIP);
    var pseudo := PseudoHeader(srcIP, dstIP, 20);
    var segment := RstSegment(srcPort, dstPort, ackNum, 0);
    var zeroed := pseudo + segment;
    var c := InternetChecksum(zeroed);
    FlagBytes();
    assert |pseudo| == 12 && |segment| == 20;
    assert zeroed[28] == 0 && zeroed[29] == 0;
    StoredChecksumVerifies(zeroed, 28);
    StorePatches(zeroed, 28, c);
    assert zeroed[..28] + Bytes16(c) + zeroed[30..] == pseudo + RstSegment(srcPort, dstPort, ackNum, c);
    var packet := RstPacket(srcIP, srcPort, dstIP, dstPort, ackNum);
    assert packet[..20] == header && packet[20..] == RstSegment(srcPort, dstPort, ackNum, c);
  }

  // ---- Round trips ----

  /** A printed 16-bit field reads back modulo 65536. */
  lemma WordIsRead(bs: seq<byte>, i: nat, v: int)
    requires i + 2 <= |bs| && bs[i..i + 2] == Bytes16(v)
    ensures Word(bs, i) == v % 0x1_0000
  {
    hide Word, Bytes16;
    LowBytes(v);
    assert bs[i] == bs[i..i + 2][0] && bs[i + 1] == bs[i..i + 2][1];
  }

  /** Where the fields of a built header are, whatever follows it. */
  lemma HeaderLayout(totalLen: int, protocol: byte, srcIP: seq<byte>, dstIP: seq<byte>, rest: seq<byte>)
    requires |srcIP| == 4 && |dstIP| == 4
    ensures var p := IpHeaderChecked(totalLen, protocol, srcIP, dstIP) + rest;
      ParseIpv4Header(p) == Some(Ipv4Header(4, 20, protocol, srcIP, dstIP, totalLen % 0x1_0000)) && p[20..] == rest
  {
    hide InternetChecksum, Bytes16;
    var header := IpHeaderChecked(totalLen, protocol, srcIP, dstIP);
    var p := header + rest;
    assert header[12..16] == srcIP && header[16..20] == dstIP;
    assert p[12..16] == header[12..16] && p[16..20] == header[16..20];
    assert p[2..4] == Bytes16(totalLen);
    WordIsRead(p, 2, totalLen);
  }

  /** Where the fields of a UDP header are. */
  lemma UdpLayout(header: seq<byte>, srcPort: int, dstPort: int, udpLen: int, payload: seq<byte>)
    requires |header| == 20
    ensures var p := header + Bytes16(srcPort) + Bytes16(dstPort) + Bytes16(udpLen) + [0, 0] + payload;
      && |p| == 28 + |payload| && p[28..] == payload
      && Word(p, 20) == srcPort % 0x1_0000 && Word(p, 22) == dstPort % 0x1_0000 && Word(p, 24) == udpLen % 0x1_0000
  {
    hide Bytes16, Word;
    var p := header + Bytes16(srcPort) + Bytes16(dstPort) + Bytes16(udpLen) + [0, 0] + payload;
    assert p[20..22] == Bytes16(srcPort) && p[22..24] == Bytes16(dstPort) && p[24..26] == Bytes16(udpLen);
    WordIsRead(p, 20, srcPort);
    WordIsRead(p, 22, dstPort);
    WordIsRead(p, 24, udpLen);
  }

  lemma UdpPacketParts(srcIP: seq<byte>, srcPort: int, dstIP: seq<byte>, dstPort: int, payload: seq<byte>)
    requires |srcIP| == 4 && |dstIP| == 4
    ensures var p := UdpPacket(srcIP, srcPort, dstIP, dstPort, payload);
      && ParseIpv4Header(p) == Some(Ipv4Header(4, 20, PROTO_UDP, srcIP, dstIP, |p| % 0x1_0000))
      && |p| == 28 + |payload| && p[28..] == payload
      && Word(p, 20) == srcPort % 0x1_0000 && Word(p, 22) == dstPort % 0x1_0000
      && Word(p, 24) == (8 + |payload|) % 0x1_0000
  {
    hide IpHeaderChecked, ParseIpv4Header, Bytes16, Word;
    var total, udpLen := 28 + |payload|, 8 + |payload|;
    var header := IpHeaderChecked(total, PROTO_UDP, srcIP, dstIP);
    BuiltHeaderVerifies(total, PROTO_UDP, srcIP, dstIP);
    UdpLayout(header, srcPort, dstPort, udpLen, payload);
    var rest := Bytes16(srcPort) + Bytes16(dstPort) + Bytes16(udpLen) + [0, 0] + payload;
    HeaderLayout(total, PROTO_UDP, srcIP, dstIP, rest);
    assert UdpPacket(srcIP, srcPort, dstIP, dstPort, payload) == header + rest;
  }

  /** UDP ROUND TRIP: the client's parsers recover the addresses and the ports (modulo 65536) of
      every built packet; the payload exactly if it fits the UDP length field, and the total
      length exactly if the packet fits the IPv4 length field. */
  lemma UdpRoundTrip(srcIP: seq<byte>, srcPort: int, dstIP: seq<byte>, dstPort: int, payload: seq<byte>)
    requires |srcIP| == 4 && |dstIP| == 4
    ensures var p := UdpPacket(srcIP, srcPort, dstIP, dstPort, payload); var ip := ParseIpv4Header(p);
      && ip == Some(Ipv4Header(4, 20, PROTO_UDP, srcIP, dstIP, |p| % 0x1_0000))
      && (ip.value.totalLength == |p| <==> |payload| <= 65507)
      && ((ParseUdpHeader(p, 20) == Some(UdpHeader(srcPort % 0x1_0000, dstPort % 0x1_0000, payload)))
          <==> |payload| <= 65527)
  {
    hide UdpPacket, ParseIpv4Header, Word;
    UdpPacketParts(srcIP, srcPort, dstIP, dstPort, payload);
    var p := UdpPacket(srcIP, srcPort, dstIP, dstPort, payload);
    if |payload| <= 65527 {
      assert p[28..28 + |payload|] == p[28..];
    }
  }

  lemma SegmentLayout(header: seq<byte>, srcPort: int, dstPort: int, ackNum: int, c: int)
    requires |header| == 20
    ensures var p := header + RstSegment(srcPort, dstPort, ackNum, c);
      ParseTcpHeader(p, 20)
        == Some(TcpHeader(srcPort % 0x1_0000, dstPort % 0x1_0000, 0, TCP_FLAG_RST + TCP_FLAG_ACK, 20, []))
  {
    hide Bytes16, Bytes32;
    var p := header + RstSegment(srcPort, dstPort, ackNum, c);
    assert p[20..22] == Bytes16(srcPort) && p[22..24] == Bytes16(dstPort);
    assert p[24..28] == [0, 0, 0, 0] && p[32] == 0x50 && p[33] == 0x14;
    assert p[24] == p[24..28][0] && p[25] == p[24..28][1] && p[26] == p[24..28][2] && p[27] == p[24..28][3];
    WordIsRead(p, 20, srcPort);
    WordIsRead(p, 22, dstPort);
  }

  /** RST ROUND TRIP: the reset parses back with its ports and flags and without payload. */
  lemma RstRoundTrip(srcIP: seq<byte>, srcPort: int, dstIP: seq<byte>, dstPort: int, ackNum: int)
    requires |srcIP| == 4 && |dstIP| == 4
    ensures var p := RstPacket(srcIP, srcPort, dstIP, dstPort, ackNum);
      && ParseIpv4Header(p) == Some(Ipv4Header(4, 20, PROTO_TCP, srcIP, dstIP, 40))
      && ParseTcpHeader(p, 20)
        == Some(TcpHeader(srcPort % 0x1_0000, dstPort % 0x1_0000, 0, TCP_FLAG_RST + TCP_FLAG_ACK, 20, []))
  {
    hide InternetChecksum, IpHeaderChecked, RstSegment, ParseIpv4Header, ParseTcpHeader;
    var c := InternetChecksum(PseudoHeader(srcIP, dstIP, 20) + RstSegment(srcPort, dstPort, ackNum, 0));
    BuiltHeaderVerifies(40, PROTO_TCP, srcIP, dstIP);
    HeaderLayout(40, PROTO_TCP, srcIP, dstIP, RstSegment(srcPort, dstPort, ackNum, c));
    SegmentLayout(IpHeaderChecked(40, PROTO_TCP, srcIP, dstIP), srcPort, dstPort, ackNum, c);
  }

  // ---- Every field of what is built ----

  lemma HeaderFields(totalLen: int, protocol: byte, srcIP: seq<byte>, dstIP: seq<byte>, rest: seq<byte>)
    requires |srcIP| == 4 && |dstIP| == 4
    ensures var p := IpHeaderChecked(totalLen, protocol, srcIP, dstIP) + rest;
      && |p| == 20 + |rest| && p[20..] == rest
      && p[0] == 0x45 && p[1] == 0 && Word(p, 2) == totalLen % 0x1_0000
      && Word(p, 4) == 0 && Word(p, 6) == 0x4000 && p[8] == 64 && p[9] == protocol
      && p[12..16] == srcIP && p[16..20] == dstIP
  {
    hide InternetChecksum, Bytes16, Word;
    var p := IpHeaderChecked(totalLen, protocol, srcIP, dstIP) + rest;
    HeaderLayout(totalLen, protocol, srcIP, dstIP, rest);
    FlagBytes();
    assert p[2..4] == Bytes16(totalLen) && p[4..6] == Bytes16(0) && p[6..8] == Bytes16(0x4000);
    WordIsRead(p, 2, totalLen);
    WordIsRead(p, 4, 0);
    WordIsRead(p, 6, 0x4000);
    assert p[12..16] == srcIP && p[16..20] == dstIP;
  }

  /** A built UDP packet, byte by byte, but for the header checksum. */
  lemma UdpFields(srcIP: seq<byte>, srcPort: int, dstIP: seq<byte>, dstPort: int, payload: seq<byte>)
    requires |srcIP| == 4 && |dstIP| == 4
    ensures var p := UdpPacket(srcIP, srcPort, dstIP, dstPort, payload);
      && |p| == 28 + |payload|
      && p[0] == 0x45 && p[1] == 0 && Word(p, 2) == |p| % 0x1_0000
      && Word(p, 4) == 0 && Word(p, 6) == 0x4000 && p[8] == 64 && p[9] == 17
      && p[12..16] == srcIP && p[16..20] == dstIP
      && Word(p, 20) == srcPort % 0x1_0000 && Word(p, 22) == dstPort % 0x1_0000
      && Word(p, 24) == (8 + |payload|) % 0x1_0000 && Word(p, 26) == 0 && p[28..] == payload
  {
    hide IpHeaderChecked, ParseIpv4Header, Bytes16, Word;
    var p := UdpPacket(srcIP, srcPort, dstIP, dstPort, payload);
    var rest := Bytes16(srcPort) + Bytes16(dstPort) + Bytes16(8 + |payload|) + [0, 0] + payload;
    UdpPacketParts(srcIP, srcPort, dstIP, dstPort, payload);
    HeaderFields(28 + |payload|, PROTO_UDP, srcIP, dstIP, rest);
    assert p == IpHeaderChecked(28 + |payload|, PROTO_UDP, srcIP, dstIP) + rest;
    FlagBytes();
    assert rest[6..8] == Bytes16(0) && p[26..28] == rest[6..8];
    WordIsRead(p, 26, 0);
  }

  lemma SegmentFields(header: seq<byte>, srcPort: int, dstPort: int, ackNum: int, c: int)
    requires |header| == 20
    ensures var p := header + RstSegment(srcPort, dstPort, ackNum, c);
      && |p| == 40 && Word(p, 20) == srcPort % 0x1_0000 && Word(p, 22) == dstPort % 0x1_0000
      && Word(p, 24) == 0 && Word(p, 26) == 0
      && Word(p, 28) == ackNum / 0x1_0000 % 0x1_0000 && Word(p, 30) == ackNum % 0x1_0000
      && p[32] == 0x50 && p[33] == 0x14 && Word(p, 34) == 0 && Word(p, 36) == c % 0x1_0000 && Word(p, 38) == 0
  {
    hide Bytes16, Word;
    var p := header + RstSegment(srcPort, dstPort, ackNum, c);
    FlagBytes();
    assert p[20..22] == Bytes16(srcPort) && p[22..24] == Bytes16(dstPort);
    assert p[24..26] == Bytes16(0) && p[26..28] == Bytes16(0);
    assert p[28..30] == Bytes16(ackNum / 0x1_0000) && p[30..32] == Bytes16(ackNum);
    assert p[34..36] == Bytes16(0) && p[36..38] == Bytes16(c) && p[38..40] == Bytes16(0);
    WordIsRead(p, 20, srcPort);
    WordIsRead(p, 22, dstPort);
    WordIsRead(p, 24, 0);
    WordIsRead(p, 26, 0);
    WordIsRead(p, 28, ackNum / 0x1_0000);
    WordIsRead(p, 30, ackNum);
    WordIsRead(p, 34, 0);
    WordIsRead(p, 36, c);
    WordIsRead(p, 38, 0);
  }

  lemma TwoWords(v: int)
    ensures 0x1_0000 * (v / 0x1_0000 % 0x1_0000) + v % 0x1_0000 == v % 0x1_0000_0000
  {
    var q := v / 0x1_0000;
    var high, low := q / 0x1_0000, q % 0x1_0000;
    assert v == 0x1_0000_0000 * high + (0x1_0000 * low + v % 0x1_0000);
  }

  /** A built reset, byte by byte, but for the checksums: in particular sequence number 0, the
      acknowledgment number, a header of 20 bytes, flags RST and ACK, no window. */
  lemma RstFields(srcIP: seq<byte>, srcPort: int, dstIP: seq<byte>, dstPort: int, ackNum: int)
    requires |srcIP| == 4 && |dstIP| == 4
    ensures var p := RstPacket(srcIP, srcPort, dstIP, dstPort, ackNum);
      && |p| == 40
      && p[0] == 0x45 && p[1] == 0 && Word(p, 2) == 40
      && Word(p, 4) == 0 && Word(p, 6) == 0x4000 && p[8] == 64 && p[9] == 6
      && p[12..16] == srcIP && p[16..20] == dstIP
      && Word(p, 20) == srcPort % 0x1_0000 && Word(p, 22) == dstPort % 0x1_0000
      && Word(p, 24) == 0 && Word(p, 26) == 0
      && 0x1_0000 * Word(p, 28) + Word(p, 30) == ackNum % 0x1_0000_0000
      && p[32] == 0x50 && p[33] == 0x14 && Word(p, 34) == 0 && Word(p, 38) == 0
  {
    hide InternetChecksum, IpHeaderChecked, RstSegment, PseudoHeader, Word;
    var c := InternetChecksum(PseudoHeader(srcIP, dstIP, 20) + RstSegment(srcPort, dstPort, ackNum, 0));
    BuiltHeaderVerifies(40, PROTO_TCP, srcIP, dstIP);
    HeaderFields(40, PROTO_TCP, srcIP, dstIP, RstSegment(srcPort, dstPort, ackNum, c));
    SegmentFields(IpHeaderChecked(40, PROTO_TCP, srcIP, dstIP), srcPort, dstPort, ackNum, c);
    TwoWords(ackNum);
  }

  /** The pseudo-header of section 3.1 of RFC 9293: addresses, zero, protocol 6, TCP length. */
  lemma PseudoFields(srcIP: seq<byte>, dstIP: seq<byte>, tcpLen: int)
    requires |srcIP| == 4 && |dstIP| == 4
    ensures var p := PseudoHeader(srcIP, dstIP, tcpLen);
      |p| == 12 && p[..4] == srcIP && p[4..8] == dstIP && p[8] == 0 && p[9] == 6 && Word(p, 10) == tcpLen % 0x1_0000
  {
    hide Bytes16, Word;
    var p := PseudoHeader(srcIP, dstIP, tcpLen);
    assert p[10..12] == Bytes16(tcpLen);
    WordIsRead(p, 10, tcpLen);
  }

  // ---- Segments and datagrams of others ----

  lemma WordOfPort(bs: seq<byte>, i: nat, v: uint16)
    requires i + 2 <= |bs| && bs[i..i + 2] == ToBigEndian(v, 2)
    ensures Word(bs, i) == v
  {
    hide Word;
    TwoBytesOf(v);
    assert bs[i] == bs[i..i + 2][0] && bs[i + 1] == bs[i..i + 2][1];
  }

  /** A segment as a sender prints it: ports, sequence and acknowledgment number, header length in
      words, flags, six more header bytes, then options and payload. */
  function SegmentBytes(ports: seq<byte>, number: seq<byte>, ack: seq<byte>, words: nat, flags: byte,
                        tail: seq<byte>, rest: seq<byte>): seq<byte>
    requires words < 16
  {
    ports + number + ack + [0x10 * words, flags] + tail + rest
  }

  lemma SegmentLayoutOf(ports: seq<byte>, number: seq<byte>, ack: seq<byte>, words: nat, flags: byte,
                        tail: seq<byte>, rest: seq<byte>)
    requires |ports| == 4 && |number| == 4 && |ack| == 4 && words < 16 && |tail| == 6
    ensures var p := SegmentBytes(ports, number, ack, words, flags, tail, rest);
      && |p| == 20 + |rest| && p[0..2] == ports[0..2] && p[2..4] == ports[2..4]
      && p[4..6] == number[0..2] && p[6..8] == number[2..4]
      && p[12] == 0x10 * words && p[13] == flags && p[20..] == rest
  {
  }

  lemma SameWord(a: seq<byte>, i: nat, b: seq<byte>, j: nat)
    requires i + 2 <= |a| && j + 2 <= |b| && a[i..i + 2] == b[j..j + 2]
    ensures Word(a, i) == Word(b, j)
  {
    hide Word;
    assert a[i] == a[i..i + 2][0] && a[i + 1] == a[i..i + 2][1];
    assert b[j] == b[j..j + 2][0] && b[j + 1] == b[j..j + 2][1];
  }

  /** What the parser makes of a packet with these parts at these places. */
  lemma TcpParts(p: seq<byte>, k: nat, ports: seq<byte>, number: seq<byte>, words: nat, flags: byte,
                 options: seq<byte>, payload: seq<byte>)
    requires |ports| == 4 && |number| == 4 && 5 <= words < 16 && |options| == 4 * words - 20
    requires |p| == k + 20 + |options + payload| && p[k + 20..] == options + payload
    requires p[k..k + 2] == ports[0..2] && p[k + 2..k + 4] == ports[2..4]
    requires p[k + 4..k + 6] == number[0..2] && p[k + 6..k + 8] == number[2..4]
    requires p[k + 12] == 0x10 * words && p[k + 13] == flags
    ensures ParseTcpHeader(p, k)
      == Some(TcpHeader(Word(ports, 0), Word(ports, 2), 0x1_0000 * Word(number, 0) + Word(number, 2),
                        flags, 4 * words, payload))
  {
    hide Word;
    SameWord(p, k, ports, 0);
    SameWord(p, k + 2, ports, 2);
    SameWord(p, k + 4, number, 0);
    SameWord(p, k + 6, number, 2);
    TailAfter(p, k + 20, options, payload);
    assert p[k + 12] / 0x10 == words;
  }

  lemma TailAfter(p: seq<byte>, i: nat, options: seq<byte>, payload: seq<byte>)
    requires i <= |p| && p[i..] == options + payload
    ensures |p| == i + |options| + |payload| && p[i + |options|..] == payload
  {
    assert p[i..][|options|..] == p[i + |options|..];
  }

  /** Two 16-bit numbers, one after the other. */
  function Two(a: uint16, b: uint16): (r: seq<byte>)
    ensures |r| == 4
  {
    ToBigEndian(a, 2) + ToBigEndian(b, 2)
  }

  lemma TwoAreRead(a: uint16, b: uint16)
    ensures Word(Two(a, b), 0) == a && Word(Two(a, b), 2) == b
  {
    hide Word, ToBigEndian;
    assert Two(a, b)[0..2] == ToBigEndian(a, 2) && Two(a, b)[2..4] == ToBigEndian(b, 2);
    WordOfPort(Two(a, b), 0, a);
    WordOfPort(Two(a, b), 2, b);
  }

  /** TCP: ports, sequence number, flags, header length and payload of every segment, with any
      options, are parsed back, behind an IP header of any length. */
  lemma TcpRoundTrip(ip: seq<byte>, srcPort: uint16, dstPort: uint16, high: uint16, low: uint16, ack: seq<byte>,
                     words: nat, flags: byte, tail: seq<byte>, options: seq<byte>, payload: seq<byte>)
    requires |ack| == 4 && 5 <= words < 16 && |tail| == 6 && |options| == 4 * words - 20
    ensures
      ParseTcpHeader(
        ip + SegmentBytes(Two(srcPort, dstPort), Two(high, low), ack, words, flags, tail, options + payload), |ip|)
      == Some(TcpHeader(srcPort, dstPort, 0x1_0000 * (high as int) + low, flags, 4 * words, payload))
  {
    hide Word, Two, ParseTcpHeader, SegmentBytes;
    var ports, number, rest := Two(srcPort, dstPort), Two(high, low), options + payload;
    var segment := SegmentBytes(ports, number, ack, words, flags, tail, rest);
    TwoAreRead(srcPort, dstPort);
    TwoAreRead(high, low);
    SegmentLayoutOf(ports, number, ack, words, flags, tail, rest);
    TcpParts(segment, 0, ports, number, words, flags, options, payload);
    TcpBehind(ip, segment);
  }

  /** An IPv4 header as anybody prints it. */
  function Ipv4Bytes(words: nat, tos: byte, totalLen: uint16, middle: seq<byte>, protocol: byte, sum: seq<byte>,
                     srcIP: seq<byte>, dstIP: seq<byte>): seq<byte>
    requires words < 16
  {
    [0x40 + words, tos] + ToBigEndian(totalLen, 2) + middle + [protocol] + sum + srcIP + dstIP
  }

  /** IPv4: header length, protocol, addresses and total length of every header are parsed back,
      with options or whatever else after the first 20 bytes. */
  lemma Ipv4RoundTrip(words: nat, tos: byte, totalLen: uint16, middle: seq<byte>, protocol: byte, sum: seq<byte>,
                      srcIP: seq<byte>, dstIP: seq<byte>, rest: seq<byte>)
    requires words < 16 && |middle| == 5 && |sum| == 2 && |srcIP| == 4 && |dstIP| == 4 && 4 * words <= 20 + |rest|
    ensures ParseIpv4Header(Ipv4Bytes(words, tos, totalLen, middle, protocol, sum, srcIP, dstIP) + rest)
      == Some(Ipv4Header(4, 4 * words, protocol, srcIP, dstIP, totalLen))
  {
    hide Word, ToBigEndian;
    var p := Ipv4Bytes(words, tos, totalLen, middle, protocol, sum, srcIP, dstIP) + rest;
    assert p[0] == 0x40 + words && p[9] == protocol && p[12..16] == srcIP && p[16..20] == dstIP;
    assert p[2..4] == ToBigEndian(totalLen, 2);
    WordOfPort(p, 2, totalLen);
  }

  /** Exactly the headers that are refused. */
  lemma Ipv4Refusals(buf: seq<byte>)
    ensures ParseIpv4Header(buf).None? <==>
      |buf| < 20 || !(0x40 <= buf[0] < 0x50) || |buf| < 4 * (buf[0] % 0x10)
  {
  }

  /** UDP: ports and payload of every datagram are parsed back, behind an IP header of any length
      and with anything after it; a length below 8 or beyond the packet is refused. */
  lemma DatagramRoundTrip(ip: seq<byte>, srcPort: uint16, dstPort: uint16, len: uint16, sum: seq<byte>, rest: seq<byte>)
    requires |sum| == 2
    ensures
      ParseUdpHeader(ip + (Two(srcPort, dstPort) + ToBigEndian(len, 2) + sum + rest), |ip|)
      == if 8 <= len <= 8 + |rest| then Some(UdpHeader(srcPort, dstPort, rest[..len - 8])) else None
  {
    hide Word, ToBigEndian, Two;
    var udp := Two(srcPort, dstPort) + ToBigEndian(len, 2) + sum + rest;
    var p, k := ip + udp, |ip|;
    TwoAreRead(srcPort, dstPort);
    assert p[k..k + 2] == Two(srcPort, dstPort)[0..2] && p[k + 2..k + 4] == Two(srcPort, dstPort)[2..4];
    assert p[k + 4..k + 6] == ToBigEndian(len, 2) && p[k + 8..] == rest;
    SameWord(p, k, Two(srcPort, dstPort), 0);
    SameWord(p, k + 2, Two(srcPort, dstPort), 2);
    WordOfPort(p, k + 4, len);
    if 8 <= len <= 8 + |rest| {
      SliceOfTail(p, k + 8, 0, len - 8);
      assert p[k + 8 + 0..k + 8 + (len - 8)] == rest[..len - 8];
    }
  }

  lemma WordBehind(ip: seq<byte>, segment: seq<byte>, i: nat)
    requires i + 2 <= |segment|
    ensures Word(ip + segment, |ip| + i) == Word(segment, i)
  {
  }

  lemma RestBehind(ip: seq<byte>, segment: seq<byte>, i: nat)
    requires i <= |segment|
    ensures (ip + segment)[|ip| + i..] == segment[i..]
  {
  }

  lemma TcpFields(buf: seq<byte>, k: nat)
    ensures ParseTcpHeader(buf, k) ==
      if |buf| < k + 20 then None
      else
        Some(TcpHeader(Word(buf, k), Word(buf, k + 2), 0x1_0000 * Word(buf, k + 4) + Word(buf, k + 6),
                       buf[k + 13], TcpLength(buf[k + 12]), DropOrNone(buf, k + TcpLength(buf[k + 12]))))
  {
    hide Word;
  }

  function TcpLength(b: byte): nat {
    b / 0x10 * 4
  }

  function DropOrNone(buf: seq<byte>, start: nat): seq<byte> {
    if start < |buf| then buf[start..] else []
  }

  /** The IP header in front does not matter. */
  lemma TcpBehind(ip: seq<byte>, segment: seq<byte>)
    ensures ParseTcpHeader(ip + segment, |ip|) == ParseTcpHeader(segment, 0)
  {
    hide Word, ParseTcpHeader;
    TcpFields(ip + segment, |ip|);
    TcpFields(segment, 0);
    if |segment| >= 20 {
      assert (ip + segment)[|ip| + 12] == segment[12] && (ip + segment)[|ip| + 13] == segment[13];
      WordBehind(ip, segment, 0);
      WordBehind(ip, segment, 2);
      WordBehind(ip, segment, 4);
      WordBehind(ip, segment, 6);
      var start := TcpLength(segment[12]);
      hide TcpLength;
      if start < |segment| {
        RestBehind(ip, segment, start);
      }
    }
  }

  /** Only a missing header is refused; a header length beyond the packet leaves no payload. */
  lemma TcpRefusals(buf: seq<byte>, k: nat)
    ensures ParseTcpHeader(buf, k).None? <==> |buf| < k + 20
    ensures |buf| >= k + 20 && k + buf[k + 12] / 0x10 * 4 >= |buf| ==> ParseTcpHeader(buf, k).value.payload == []
  {
  }

  /** THE FILTER ON BUILT PACKETS: the collector takes a packet that the client built if and only if
      one port is 5056 (modulo 65536), and then the client's address and the payload, as long as
      the length field can hold it. */
  lemma FilterTakesBuilt(srcIP: seq<byte>, srcPort: int, dstIP: seq<byte>, dstPort: int, payload: seq<byte>)
    requires |srcIP| == 4 && |dstIP| == 4 && |payload| <= 65527
    ensures ExtractUdpPayload(UdpPacket(srcIP, srcPort, dstIP, dstPort, payload)) ==
      if srcPort % 0x1_0000 == 5056 || dstPort % 0x1_0000 == 5056 then Some((payload, srcIP)) else None
  {
    hide UdpPacket, Word;
    UdpFields(srcIP, srcPort, dstIP, dstPort, payload);
    var p := UdpPacket(srcIP, srcPort, dstIP, dstPort, payload);
    UdpRoundTrip(srcIP, srcPort, dstIP, dstPort, payload);
    ParsersAgree(p);
  }
}
