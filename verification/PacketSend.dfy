/** The packet builders of kernel/drivers/netstack.c, filling their buffers in place. */
module PacketSend {
  import opened Machine
  import Checksum
  import opened TcpServer
  import opened PacketFormat

  /** memset to zero. */
  method Clear(a: array<u8>)
    modifies a
    ensures forall i :: 0 <= i < a.Length ==> a[i] == 0
  {
    forall i | 0 <= i < a.Length {
      a[i] := 0;
    }
  }

  /** memcpy of `s` to offset `at`. */
  method CopyIn(a: array<u8>, at: nat, s: Bytes)
    requires at + |s| <= a.Length
    modifies a
    ensures a[at..at + |s|] == s
    ensures a[..at + |s|] == old(a[..at]) + s
    ensures forall i :: 0 <= i < a.Length && !(at <= i < at + |s|) ==> a[i] == old(a[i])
  {
    forall i | 0 <= i < |s| {
      a[at + i] := s[i];
    }
  }

  method PutBe16(a: array<u8>, at: nat, v: u16)
    requires at + 2 <= a.Length
    modifies a
    ensures a[at..at + 2] == Be16(v)
    ensures a[..at + 2] == old(a[..at]) + Be16(v)
    ensures forall i :: 0 <= i < a.Length && !(at <= i < at + 2) ==> a[i] == old(a[i])
  {
    a[at] := (v / 256) as u8;
    a[at + 1] := (v % 256) as u8;
  }

  method PutBe32(a: array<u8>, at: nat, v: u32)
    requires at + 4 <= a.Length
    modifies a
    ensures a[..at + 4] == old(a[..at]) + Be32(v)
    ensures forall i :: 0 <= i < a.Length && !(at <= i < at + 4) ==> a[i] == old(a[i])
  {
    a[at] := (v / 0x100_0000) as u8;
    a[at + 1] := (v / 0x1_0000 % 256) as u8;
    a[at + 2] := (v / 256 % 256) as u8;
    a[at + 3] := (v % 256) as u8;
    assert a[at..at + 4] == Be32(v);
    assert a[..at + 4] == a[..at] + a[at..at + 4];
  }

  /** The zero bytes of a cleared buffer extend what has been written. */
  lemma ZeroHole(a: Bytes, at: nat)
    requires at + 2 <= |a| && a[at] == 0 && a[at + 1] == 0
    ensures a[..at + 2] == a[..at] + Be16(0)
  {
  }

  /** The fields of the header up to its checksum, in a cleared buffer. */
  method PutIpv4Head(a: array<u8>, len: nat, ident: u16, proto: u8)
    requires a.Length == MTU && len + 20 <= MTU && forall i :: 0 <= i < a.Length ==> a[i] == 0
    modifies a
    ensures a[..10] == [0x45, 0] + Be16((20 + len) as u16) + Be16(ident) + Be16(0x4000) + [64, proto]
    ensures forall i :: 10 <= i < a.Length ==> a[i] == 0
  {
    hide Be16;
    a[0] := 0x45;
    a[1] := 0;
    assert a[..2] == [0x45, 0];
    PutBe16(a, 2, (20 + len) as u16);
    PutBe16(a, 4, ident);
    PutBe16(a, 6, 0x4000);
    a[8] := 64;
    a[9] := proto;
    assert a[..10] == a[..8] + [64, proto];
  }

  /** The whole header with a zero checksum. */
  method PutIpv4Header(a: array<u8>, len: nat, ident: u16, proto: u8, src: u32, dst: u32)
    requires a.Length == MTU && len + 20 <= MTU && forall i :: 0 <= i < a.Length ==> a[i] == 0
    modifies a
    ensures a[..20] == Ipv4Header(ident, proto, src, dst, len, 0)
    ensures forall i :: 20 <= i < a.Length ==> a[i] == 0
  {
    PutIpv4Head(a, len, ident, proto);
    ZeroHole(a[..], 10);
    assert a[..][..10] == a[..10] && a[..][..12] == a[..12];
    hide Be16, Be32;
    PutBe32(a, 12, src);
    PutBe32(a, 16, dst);
  }

  /** Filling the checksum field of a header. */
  lemma SealHeader(before: Bytes, after: Bytes, ident: u16, proto: u8, src: u32, dst: u32, len: nat, c: u16)
    requires len + 20 <= MTU && |before| >= 20 && |after| >= 20
    requires before[..20] == Ipv4Header(ident, proto, src, dst, len, 0)
    requires after[10..12] == Be16(c) && forall i :: 0 <= i < 20 && !(10 <= i < 12) ==> after[i] == before[i]
    ensures after[..20] == Ipv4Header(ident, proto, src, dst, len, c)
  {
    var z, h := Ipv4Header(ident, proto, src, dst, len, 0), Ipv4Header(ident, proto, src, dst, len, c);
    assert h[10..12] == Be16(c);
    assert forall i :: 0 <= i < 20 && !(10 <= i < 12) ==> h[i] == z[i];
    hide Ipv4Header, Be16;
    assert forall i :: 0 <= i < 20 && !(10 <= i < 12) ==> after[i] == before[..20][i];
    assert after[10] == after[10..12][0] && after[11] == after[10..12][1];
    assert h[10] == h[10..12][0] && h[11] == h[10..12][1];
  }

  /** The TCP header up to its checksum, in a cleared buffer. */
  method PutTcpHead(a: array<u8>, g: Segment)
    requires a.Length == MTU && forall i :: 0 <= i < a.Length ==> a[i] == 0
    modifies a
    ensures a[..16] == Be16(g.srcPort) + Be16(g.dstPort) + Be32(g.seqNo) + Be32(g.ackNo)
                       + [(TcpHeaderLen(g.flags) / 4 * 16) as u8, g.flags] + Be16(8192)
    ensures forall i :: 16 <= i < a.Length ==> a[i] == 0
  {
    hide Be16, Be32, Has;
    PutBe16(a, 0, g.srcPort);
    assert a[..2] == Be16(g.srcPort);
    PutBe16(a, 2, g.dstPort);
    PutBe32(a, 4, g.seqNo);
    PutBe32(a, 8, g.ackNo);
    a[12] := (TcpHeaderLen(g.flags) / 4 * 16) as u8;
    a[13] := g.flags;
    assert a[..14] == a[..12] + [(TcpHeaderLen(g.flags) / 4 * 16) as u8, g.flags];
    PutBe16(a, 14, 8192);
  }

  method PutTcpFixed(a: array<u8>, g: Segment)
    requires a.Length == MTU && forall i :: 0 <= i < a.Length ==> a[i] == 0
    modifies a
    ensures a[..20] == TcpFixed(g.srcPort, g.dstPort, g.seqNo, g.ackNo, g.flags, 0)
    ensures forall i :: 20 <= i < a.Length ==> a[i] == 0
  {
    hide Be16, Be32, TcpHeaderLen;
    PutTcpHead(a, g);
    ZeroHole(a[..], 16);
    assert a[..][..16] == a[..16] && a[..][..18] == a[..18];
    assert a[..20] == a[..18] + [0, 0];
  }

  /** The segment with a zero checksum: header, option and data. */
  method PutTcp(a: array<u8>, g: Segment)
    requires a.Length == MTU && Fits(g) && forall i :: 0 <= i < a.Length ==> a[i] == 0
    modifies a
    ensures a[..TcpHeaderLen(g.flags) + |g.payload|] == TcpRaw(g, 0)
  {
    hide Be16, Be32, TcpFixed, Has;
    PutTcpFixed(a, g);
    if Has(g.flags, SYN) {
      a[20] := 2;
      a[21] := 4;
      assert a[..22] == a[..20] + [2, 4];
      PutBe16(a, 22, 1460);
    }
    ghost var n := TcpHeaderLen(g.flags);
    assert a[..n] == TcpFixed(g.srcPort, g.dstPort, g.seqNo, g.ackNo, g.flags, 0) + TcpOptions(g.flags);
    if |g.payload| > 0 {
      CopyIn(a, TcpHeaderLen(g.flags), g.payload);
    }
    assert a[..n + |g.payload|] == a[..n] + g.payload;
  }

  lemma SealFixed(before: Bytes, after: Bytes, g: Segment, c: u16)
    requires |after| == 20 && before == TcpFixed(g.srcPort, g.dstPort, g.seqNo, g.ackNo, g.flags, 0)
    requires after[16..18] == Be16(c) && forall i :: 0 <= i < 20 && !(16 <= i < 18) ==> after[i] == before[i]
    ensures after == TcpFixed(g.srcPort, g.dstPort, g.seqNo, g.ackNo, g.flags, c)
  {
    var h := TcpFixed(g.srcPort, g.dstPort, g.seqNo, g.ackNo, g.flags, c);
    hide TcpHeaderLen;
    assert h[16..18] == Be16(c);
    assert forall i :: 0 <= i < 20 && !(16 <= i < 18) ==> h[i] == before[i];
    hide TcpFixed, Be16;
    assert after[16] == after[16..18][0] && after[17] == after[16..18][1];
    assert h[16] == h[16..18][0] && h[17] == h[16..18][1];
  }

  /** Filling the checksum field of a segment. */
  lemma SealSegment(before: Bytes, after: Bytes, g: Segment, c: u16)
    requires before == TcpRaw(g, 0) && |after| == |before|
    requires after[16..18] == Be16(c) && forall i :: 0 <= i < |after| && !(16 <= i < 18) ==> after[i] == before[i]
    ensures after == TcpRaw(g, c)
  {
    hide TcpFixed, Be16, TcpOptions, TcpHeaderLen;
    var fixed := TcpFixed(g.srcPort, g.dstPort, g.seqNo, g.ackNo, g.flags, 0);
    assert before[..20] == fixed && before[20..] == TcpOptions(g.flags) + g.payload;
    assert after[..20][16..18] == after[16..18];
    assert forall i :: 0 <= i < 20 && !(16 <= i < 18) ==> after[..20][i] == before[..20][i];
    SealFixed(fixed, after[..20], g, c);
    assert after[20..] == before[20..];
    assert after == after[..20] + after[20..];
  }

  function NextIdent(n: u16): u16 {
    if n == 0xFFFF then 0 else n + 1
  }

  /** The identification counts modulo 65536. */
  lemma NextIdentIs(n: u16)
    ensures NextIdent(n) as int == (n as int + 1) % 0x1_0000
  {
  }

  /** The buffers and the identification counter of the stack. */
  class Sender {
    const packetBuf: array<u8>
    const transportBuf: array<u8>
    const checksumBuf: array<u8>
    var ipIdent: u16

    ghost predicate Valid() {
      && packetBuf.Length == MTU && transportBuf.Length == MTU && checksumBuf.Length == MTU + 16
      && packetBuf != transportBuf && packetBuf != checksumBuf && transportBuf != checksumBuf
    }

    constructor ()
      ensures Valid() && ipIdent == 1
      ensures fresh(packetBuf) && fresh(transportBuf) && fresh(checksumBuf)
    {
      packetBuf := new u8[MTU];
      transportBuf := new u8[MTU];
      checksumBuf := new u8[MTU + 16];
      ipIdent := 1;
    }

    /** The frame handed to the link layer, or None where the datagram exceeds the MTU. */
    method SendIpv4Raw(src: u32, dst: u32, proto: u8, payload: Bytes) returns (frame: Option<Bytes>)
      requires Valid()
      modifies packetBuf, this`ipIdent
      ensures frame.Some? <==> |payload| + 20 <= MTU
      ensures frame.Some? ==> frame.value == Ipv4Datagram(old(ipIdent), proto, src, dst, payload)
      ensures ipIdent == if frame.Some? then NextIdent(old(ipIdent)) else old(ipIdent)
    {
      if |payload| + 20 > MTU {
        return None;
      }
      hide Ipv4Header, Be16, Be32;
      Clear(packetBuf);
      PutIpv4Header(packetBuf, |payload|, ipIdent, proto, src, dst);
      ipIdent := NextIdent(ipIdent);
      ghost var header := packetBuf[..20];
      if |payload| > 0 {
        CopyIn(packetBuf, 20, payload);
      }
      assert packetBuf[20..20 + |payload|] == payload;
      assert packetBuf[..20] == header;
      ghost var filled := packetBuf[..];
      assert filled[..20] == header && filled[20..20 + |payload|] == payload;
      var c := Checksum.Compute(packetBuf[..20]);
      PutBe16(packetBuf, 10, c);
      ghost var sent := packetBuf[..];
      SealHeader(filled, sent, old(ipIdent), proto, src, dst, |payload|, c);
      assert sent[20..20 + |payload|] == filled[20..20 + |payload|];
      assert sent[..20 + |payload|] == sent[..20] + sent[20..20 + |payload|];
      frame := Some(packetBuf[..20 + |payload|]);
    }

    method SendUdpRaw(src: u32, dst: u32, srcPort: u16, dstPort: u16, payload: Bytes) returns (frame: Option<Bytes>)
      requires Valid()
      modifies packetBuf, transportBuf, this`ipIdent
      ensures frame.Some? <==> |payload| + 28 <= MTU
      ensures ipIdent == if frame.Some? then NextIdent(old(ipIdent)) else old(ipIdent)
      ensures frame.Some? ==>
        frame.value == Ipv4Datagram(old(ipIdent), PROTO_UDP, src, dst, UdpMessage(srcPort, dstPort, payload))
      ensures frame.Some? ==>
        forall pad: Bytes :: ParseIpv4Udp(frame.value + pad) == Some(Udp(src, dst, srcPort, dstPort, payload))
    {
      if |payload| + 8 > MTU - 20 {
        return None;
      }
      hide Be16, Ipv4Datagram, ParseIpv4Udp;
      Clear(transportBuf);
      PutBe16(transportBuf, 0, srcPort);
      assert transportBuf[..2] == Be16(srcPort);
      PutBe16(transportBuf, 2, dstPort);
      PutBe16(transportBuf, 4, (|payload| + 8) as u16);
      PutBe16(transportBuf, 6, 0);
      if |payload| > 0 {
        CopyIn(transportBuf, 8, payload);
      }
      assert transportBuf[..8 + |payload|] == UdpMessage(srcPort, dstPort, payload);
      hide UdpMessage;
      frame := SendIpv4Raw(src, dst, PROTO_UDP, transportBuf[..8 + |payload|]);
      forall pad: Bytes
        ensures ParseIpv4Udp(frame.value + pad) == Some(Udp(src, dst, srcPort, dstPort, payload))
      {
        UdpRoundTrip(old(ipIdent), src, dst, srcPort, dstPort, payload, pad);
      }
    }

    method TcpChecksum(src: u32, dst: u32, tcp: Bytes) returns (c: u16)
      requires Valid() && |tcp| + 20 <= MTU
      modifies checksumBuf
      ensures c as int == Checksum.Checksum16(PseudoHeader(src, dst, |tcp|) + tcp)
    {
      hide Be16, Be32, Checksum.Checksum16;
      Clear(checksumBuf);
      PutBe32(checksumBuf, 0, src);
      assert checksumBuf[..4] == Be32(src);
      PutBe32(checksumBuf, 4, dst);
      checksumBuf[8] := 0;
      checksumBuf[9] := PROTO_TCP;
      assert checksumBuf[..10] == checksumBuf[..8] + [0, PROTO_TCP];
      PutBe16(checksumBuf, 10, |tcp| as u16);
      CopyIn(checksumBuf, 12, tcp);
      c := Checksum.Compute(checksumBuf[..|tcp| + 12]);
    }

    /** Whatever the link appends, the frame is parsed back to the segment sent. */
    method SendTcp(g: Segment) returns (frame: Option<Bytes>)
      requires Valid()
      modifies packetBuf, transportBuf, checksumBuf, this`ipIdent
      ensures frame.Some? <==> Fits(g)
      ensures ipIdent == if frame.Some? then NextIdent(old(ipIdent)) else old(ipIdent)
      ensures frame.Some? ==> frame.value == Ipv4Datagram(old(ipIdent), PROTO_TCP, g.srcIp, g.dstIp, TcpMessage(g))
      ensures frame.Some? ==> forall pad: Bytes :: ParseIpv4Tcp(frame.value + pad) == Some(g)
    {
      var headerLen := TcpHeaderLen(g.flags);
      var tcpLen := headerLen + |g.payload|;
      if tcpLen > MTU - 20 {
        return None;
      }
      frame := BuildTcp(g);
      hide Ipv4Datagram, ParseIpv4Tcp, TcpMessage;
      forall pad: Bytes
        ensures ParseIpv4Tcp(frame.value + pad) == Some(g)
      {
        TcpRoundTrip(old(ipIdent), g, pad);
      }
    }

    method BuildTcp(g: Segment) returns (frame: Option<Bytes>)
      requires Valid() && Fits(g)
      modifies packetBuf, transportBuf, checksumBuf, this`ipIdent
      ensures ipIdent == NextIdent(old(ipIdent))
      ensures frame == Some(Ipv4Datagram(old(ipIdent), PROTO_TCP, g.srcIp, g.dstIp, TcpMessage(g)))
    {
      hide TcpRaw, Be16, Ipv4Datagram, Checksum.Checksum16, PseudoHeader;
      var tcpLen := TcpHeaderLen(g.flags) + |g.payload|;
      Clear(transportBuf);
      PutTcp(transportBuf, g);
      ghost var before := transportBuf[..tcpLen];
      var c := TcpChecksum(g.srcIp, g.dstIp, transportBuf[..tcpLen]);
      assert transportBuf[..tcpLen] == before;
      PutBe16(transportBuf, 16, c);
      ghost var after := transportBuf[..tcpLen];
      assert after[16..18] == Be16(c);
      SealSegment(before, after, g, c);
      frame := SendIpv4Raw(g.srcIp, g.dstIp, PROTO_TCP, transportBuf[..tcpLen]);
    }
  }
}
