/**
 IPv4, UDP and TCP packets: what kernel/drivers/netstack.c puts on the wire, and its parsers.
 */
module PacketFormat {
  import opened Machine
  import opened Checksum
  import opened TcpServer

  const MTU: nat := 1500
  const PROTO_TCP: u8 := 6
  const PROTO_UDP: u8 := 17

  function Be16(v: u16): (s: Bytes)
    ensures |s| == 2
  {
    [(v / 256) as u8, (v % 256) as u8]
  }

  function Be32(v: u32): (s: Bytes)
    ensures |s| == 4
  {
    [(v / 0x100_0000) as u8, (v / 0x1_0000 % 256) as u8, (v / 256 % 256) as u8, (v % 256) as u8]
  }

  function GetBe16(s: Bytes, at: nat): u16
    requires at + 2 <= |s|
  {
    s[at] as u16 * 256 + s[at + 1] as u16
  }

  function GetBe32(s: Bytes, at: nat): u32
    requires at + 4 <= |s|
  {
    s[at] as u32 * 0x100_0000 + s[at + 1] as u32 * 0x1_0000 + s[at + 2] as u32 * 256 + s[at + 3] as u32
  }

  lemma GetPut16(s: Bytes, at: nat, v: u16)
    requires at + 2 <= |s| && s[at..at + 2] == Be16(v)
    ensures GetBe16(s, at) == v
  {
    assert s[at] == s[at..at + 2][0] && s[at + 1] == s[at..at + 2][1];
  }

  lemma GetPut32(s: Bytes, at: nat, v: u32)
    requires at + 4 <= |s| && s[at..at + 4] == Be32(v)
    ensures GetBe32(s, at) == v
  {
    var t := s[at..at + 4];
    assert s[at] == t[0] && s[at + 1] == t[1] && s[at + 2] == t[2] && s[at + 3] == t[3];
    assert v / 256 == v / 0x1_0000 * 256 + v / 256 % 256;
    assert v / 0x1_0000 == v / 0x100_0000 * 256 + v / 0x1_0000 % 256;
  }

  // ----- what is sent -----

  /** The option-less IPv4 header with the don't-fragment bit, a time to live of 64 and checksum field `c`. */
  function Ipv4Header(ident: u16, proto: u8, src: u32, dst: u32, payloadLen: nat, c: u16): (s: Bytes)
    requires payloadLen + 20 <= MTU
    ensures |s| == 20
  {
    [0x45, 0] + Be16((20 + payloadLen) as u16) + Be16(ident) + Be16(0x4000) + [64, proto] + Be16(c)
    + Be32(src) + Be32(dst)
  }

  function Ipv4Datagram(ident: u16, proto: u8, src: u32, dst: u32, payload: Bytes): Bytes
    requires |payload| + 20 <= MTU
  {
    var c := Checksum16(Ipv4Header(ident, proto, src, dst, |payload|, 0));
    Ipv4Header(ident, proto, src, dst, |payload|, c as u16) + payload
  }

  function UdpMessage(srcPort: u16, dstPort: u16, payload: Bytes): Bytes
    requires |payload| + 28 <= MTU
  {
    Be16(srcPort) + Be16(dstPort) + Be16((|payload| + 8) as u16) + Be16(0) + payload
  }

  function TcpHeaderLen(flags: u8): (n: nat) {
    if Has(flags, SYN) then 24 else 20
  }

  /** A SYN carries the maximum-segment-size option. */
  function TcpOptions(flags: u8): (s: Bytes)
    ensures |s| == TcpHeaderLen(flags) - 20
  {
    if Has(flags, SYN) then [2, 4] + Be16(1460) else []
  }

  function TcpFixed(srcPort: u16, dstPort: u16, seqNo: u32, ackNo: u32, flags: u8, c: u16): (s: Bytes)
    ensures |s| == 20
  {
    Be16(srcPort) + Be16(dstPort) + Be32(seqNo) + Be32(ackNo) + [(TcpHeaderLen(flags) / 4 * 16) as u8, flags]
    + Be16(8192) + Be16(c) + [0, 0]
  }

  function TcpRaw(g: Segment, c: u16): Bytes {
    TcpFixed(g.srcPort, g.dstPort, g.seqNo, g.ackNo, g.flags, c) + TcpOptions(g.flags) + g.payload
  }

  function PseudoHeader(src: u32, dst: u32, len: nat): (s: Bytes)
    requires len <= MTU
    ensures |s| == 12
  {
    Be32(src) + Be32(dst) + [0, PROTO_TCP] + Be16(len as u16)
  }

  predicate Fits(g: Segment) {
    TcpHeaderLen(g.flags) + |g.payload| <= MTU - 20
  }

  function TcpMessage(g: Segment): (s: Bytes)
    requires Fits(g)
    ensures |s| == TcpHeaderLen(g.flags) + |g.payload|
  {
    var zeroed := TcpRaw(g, 0);
    TcpRaw(g, Checksum16(PseudoHeader(g.srcIp, g.dstIp, |zeroed|) + zeroed) as u16)
  }

  // ----- the parsers -----

  datatype Ipv4 = Ipv4(srcIp: u32, dstIp: u32, proto: u8, payload: Bytes)
  datatype Udp = Udp(srcIp: u32, dstIp: u32, srcPort: u16, dstPort: u16, payload: Bytes)

  function HeaderLen(p: Bytes): nat
    requires p != []
  {
    p[0] as int % 16 * 4
  }

  function ParseIpv4Basic(p: Bytes): (r: Option<Ipv4>) {
    if |p| < 20 || p[0] / 16 != 4 then None
    else
      var ihl, total := HeaderLen(p), GetBe16(p, 2) as int;
      if ihl < 20 || total > |p| || total < ihl then None
      else if Checksum16(p[..ihl]) != 0 then None
      else Some(Ipv4(GetBe32(p, 12), GetBe32(p, 16), p[9], p[ihl..total]))
  }

  function ParseIpv4Udp(p: Bytes): (r: Option<Udp>) {
    if |p| < 28 || p[0] / 16 != 4 then None
    else
      var ihl := HeaderLen(p);
      if ihl < 20 || |p| < ihl + 8 || p[9] != PROTO_UDP then None
      else
        var total := GetBe16(p, 2) as int;
        if total > |p| || total < ihl + 8 then None
        else
          var udpLen := GetBe16(p, ihl + 4) as int;
          if udpLen < 8 || ihl + udpLen > total then None
          else Some(Udp(GetBe32(p, 12), GetBe32(p, 16), GetBe16(p, ihl), GetBe16(p, ihl + 2), p[ihl + 8..ihl + udpLen]))
  }

  function ParseIpv4Tcp(p: Bytes): (r: Option<Segment>) {
    if |p| < 40 || p[0] / 16 != 4 then None
    else
      var ihl, total := HeaderLen(p), GetBe16(p, 2) as int;
      if ihl < 20 || total > |p| || total < ihl + 20 || p[9] != PROTO_TCP then None
      else
        var thl := p[ihl + 12] as int / 16 * 4;
        if thl < 20 || ihl + thl > total then None
        else Some(Segment(GetBe32(p, 12), GetBe16(p, ihl), GetBe32(p, 16), GetBe16(p, ihl + 2),
                          GetBe32(p, ihl + 4), GetBe32(p, ihl + 8), p[ihl + 13], p[ihl + thl..total]))
  }

  // ----- round trips -----

  /** The fields of a datagram that starts with one of our headers, whatever follows. */
  lemma HeaderFields(p: Bytes, ident: u16, proto: u8, src: u32, dst: u32, n: nat, c: u16)
    requires n + 20 <= MTU && |p| >= 20 && p[..20] == Ipv4Header(ident, proto, src, dst, n, c)
    ensures p[0] == 0x45 && p[9] == proto && GetBe16(p, 2) as int == 20 + n
    ensures GetBe32(p, 12) == src && GetBe32(p, 16) == dst
  {
    var h := p[..20];
    assert forall i :: 0 <= i < 20 ==> p[i] == h[i];
    assert p[2..4] == h[2..4] == Be16((20 + n) as u16);
    assert p[12..16] == h[12..16] == Be32(src);
    assert p[16..20] == h[16..20] == Be32(dst);
    hide Be16, Be32, GetBe16, GetBe32;
    GetPut16(p, 2, (20 + n) as u16);
    GetPut32(p, 12, src);
    GetPut32(p, 16, dst);
  }

  /** The header checksum field, filled last, makes the whole header verify. */
  lemma HeaderVerifies(ident: u16, proto: u8, src: u32, dst: u32, n: nat)
    requires n + 20 <= MTU
    ensures var c := Checksum16(Ipv4Header(ident, proto, src, dst, n, 0));
      Checksum16(Ipv4Header(ident, proto, src, dst, n, c as u16)) == 0
  {
    var h := Ipv4Header(ident, proto, src, dst, n, 0);
    var c := Checksum16(h) as u16;
    assert h[10] == 0 && h[11] == 0;
    assert Ipv4Header(ident, proto, src, dst, n, c) == Insert(h, 5, c as int);
    hide Ipv4Header, Insert, Checksum16;
    InsertVerifies(h, 5);
  }

  lemma DatagramLayout(ident: u16, proto: u8, src: u32, dst: u32, payload: Bytes, pad: Bytes)
    requires |payload| + 20 <= MTU
    ensures var p := Ipv4Datagram(ident, proto, src, dst, payload) + pad;
      && |p| == 20 + |payload| + |pad|
      && p[0] == 0x45 && p[9] == proto && GetBe16(p, 2) as int == 20 + |payload|
      && GetBe32(p, 12) == src && GetBe32(p, 16) == dst
      && p[20..20 + |payload|] == payload && Checksum16(p[..20]) == 0
  {
    var c := Checksum16(Ipv4Header(ident, proto, src, dst, |payload|, 0));
    var h := Ipv4Header(ident, proto, src, dst, |payload|, c as u16);
    var p := Ipv4Datagram(ident, proto, src, dst, payload) + pad;
    assert p[..20] == h && p[20..20 + |payload|] == payload;
    hide Ipv4Header, Ipv4Datagram, Checksum16, GetBe16, GetBe32;
    HeaderFields(p, ident, proto, src, dst, |payload|, c as u16);
    HeaderVerifies(ident, proto, src, dst, |payload|);
  }

  /** Every datagram sent is parsed back, with link padding after it. */
  lemma Ipv4RoundTrip(ident: u16, proto: u8, src: u32, dst: u32, payload: Bytes, pad: Bytes)
    requires |payload| + 20 <= MTU
    ensures ParseIpv4Basic(Ipv4Datagram(ident, proto, src, dst, payload) + pad)
         == Some(Ipv4(src, dst, proto, payload))
  {
    DatagramLayout(ident, proto, src, dst, payload, pad);
    hide Ipv4Datagram, Checksum16, GetBe16, GetBe32;
  }

  lemma UdpRoundTrip(ident: u16, src: u32, dst: u32, srcPort: u16, dstPort: u16, payload: Bytes, pad: Bytes)
    requires |payload| + 28 <= MTU
    ensures ParseIpv4Udp(Ipv4Datagram(ident, PROTO_UDP, src, dst, UdpMessage(srcPort, dstPort, payload)) + pad)
         == Some(Udp(src, dst, srcPort, dstPort, payload))
  {
    var m := UdpMessage(srcPort, dstPort, payload);
    var p := Ipv4Datagram(ident, PROTO_UDP, src, dst, m) + pad;
    DatagramLayout(ident, PROTO_UDP, src, dst, m, pad);
    UdpFields(p, m, srcPort, dstPort, payload);
    hide Ipv4Datagram, UdpMessage, Checksum16, GetBe16, GetBe32;
  }

  lemma UdpFields(p: Bytes, m: Bytes, srcPort: u16, dstPort: u16, payload: Bytes)
    requires |payload| + 28 <= MTU && m == UdpMessage(srcPort, dstPort, payload)
    requires 20 + |m| <= |p| && p[20..20 + |m|] == m
    ensures |m| == 8 + |payload| && GetBe16(p, 20) == srcPort && GetBe16(p, 22) == dstPort
    ensures GetBe16(p, 24) as int == 8 + |payload| && p[28..28 + |payload|] == payload
  {
    assert forall i :: 0 <= i < |m| ==> p[20 + i] == m[i];
    assert m[8..] == payload && p[28..28 + |payload|] == m[8..];
    assert p[20..22] == m[0..2] == Be16(srcPort);
    assert p[22..24] == m[2..4] == Be16(dstPort);
    assert p[24..26] == m[4..6] == Be16((|payload| + 8) as u16);
    hide Be16, GetBe16, UdpMessage;
    GetPut16(p, 20, srcPort);
    GetPut16(p, 22, dstPort);
    GetPut16(p, 24, (|payload| + 8) as u16);
  }

  lemma TcpFields(p: Bytes, at: nat, g: Segment, c: u16)
    requires at + 20 <= |p| && p[at..at + 20] == TcpFixed(g.srcPort, g.dstPort, g.seqNo, g.ackNo, g.flags, c)
    ensures GetBe16(p, at) == g.srcPort && GetBe16(p, at + 2) == g.dstPort
    ensures GetBe32(p, at + 4) == g.seqNo && GetBe32(p, at + 8) == g.ackNo
    ensures p[at + 12] as int == TcpHeaderLen(g.flags) / 4 * 16 && p[at + 13] == g.flags
  {
    hide TcpHeaderLen;
    var h := p[at..at + 20];
    assert forall i :: 0 <= i < 20 ==> p[at + i] == h[i];
    assert p[at..at + 2] == h[0..2] == Be16(g.srcPort);
    assert p[at + 2..at + 4] == h[2..4] == Be16(g.dstPort);
    assert p[at + 4..at + 8] == h[4..8] == Be32(g.seqNo);
    assert p[at + 8..at + 12] == h[8..12] == Be32(g.ackNo);
    hide Be16, Be32, GetBe16, GetBe32;
    GetPut16(p, at, g.srcPort);
    GetPut16(p, at + 2, g.dstPort);
    GetPut32(p, at + 4, g.seqNo);
    GetPut32(p, at + 8, g.ackNo);
  }

  lemma RawParts(g: Segment, c: u16, p: Bytes, at: nat)
    requires var m := TcpRaw(g, c); at + |m| <= |p| && p[at..at + |m|] == m
    ensures var n := TcpHeaderLen(g.flags);
      && at + n + |g.payload| <= |p|
      && p[at..at + 20] == TcpFixed(g.srcPort, g.dstPort, g.seqNo, g.ackNo, g.flags, c)
      && p[at + n..at + n + |g.payload|] == g.payload
  {
    hide TcpFixed;
    var m, n := TcpRaw(g, c), TcpHeaderLen(g.flags);
    assert m[..20] == TcpFixed(g.srcPort, g.dstPort, g.seqNo, g.ackNo, g.flags, c) && m[n..] == g.payload;
    assert p[at..at + 20] == m[..20] && p[at + n..at + n + |g.payload|] == m[n..];
  }

  lemma TcpParses(p: Bytes, g: Segment)
    requires |p| >= 40 && p[0] == 0x45 && p[9] == PROTO_TCP && 20 + TcpHeaderLen(g.flags) + |g.payload| <= |p|
    requires GetBe16(p, 2) as int == 20 + TcpHeaderLen(g.flags) + |g.payload|
    requires GetBe32(p, 12) == g.srcIp && GetBe32(p, 16) == g.dstIp
    requires GetBe16(p, 20) == g.srcPort && GetBe16(p, 22) == g.dstPort
    requires GetBe32(p, 24) == g.seqNo && GetBe32(p, 28) == g.ackNo
    requires p[32] as int == TcpHeaderLen(g.flags) / 4 * 16 && p[33] == g.flags
    requires var n := 20 + TcpHeaderLen(g.flags); p[n..n + |g.payload|] == g.payload
    ensures ParseIpv4Tcp(p) == Some(g)
  {
    hide GetBe16, GetBe32, Has;
  }

  /** Every segment sent, with or without the option, is parsed back with all its fields. */
  lemma TcpRoundTrip(ident: u16, g: Segment, pad: Bytes)
    requires Fits(g)
    ensures ParseIpv4Tcp(Ipv4Datagram(ident, PROTO_TCP, g.srcIp, g.dstIp, TcpMessage(g)) + pad) == Some(g)
  {
    var m := TcpMessage(g);
    var p := Ipv4Datagram(ident, PROTO_TCP, g.srcIp, g.dstIp, m) + pad;
    var zeroed := TcpRaw(g, 0);
    var c := Checksum16(PseudoHeader(g.srcIp, g.dstIp, |zeroed|) + zeroed) as u16;
    hide Ipv4Datagram, Checksum16, TcpRaw, TcpFixed, GetBe16, GetBe32, ParseIpv4Tcp;
    DatagramLayout(ident, PROTO_TCP, g.srcIp, g.dstIp, m, pad);
    RawParts(g, c, p, 20);
    TcpFields(p, 20, g, c);
    TcpParses(p, g);
  }

  /** The transport checksum verifies over the pseudo-header and the whole segment. */
  lemma TcpVerifies(g: Segment)
    requires Fits(g)
    ensures var m := TcpMessage(g); Checksum16(PseudoHeader(g.srcIp, g.dstIp, |m|) + m) == 0
  {
    var zeroed, ph := TcpRaw(g, 0), PseudoHeader(g.srcIp, g.dstIp, TcpHeaderLen(g.flags) + |g.payload|);
    var c := Checksum16(ph + zeroed) as u16;
    InsertIntoSegment(g, ph, c);
    hide TcpRaw, PseudoHeader, Checksum16, Insert;
    InsertVerifies(ph + zeroed, 14);
  }

  lemma InsertIntoSegment(g: Segment, ph: Bytes, c: u16)
    requires |ph| == 12
    ensures var z := ph + TcpRaw(g, 0);
      && |z| >= 32 && z[28] == 0 && z[29] == 0
      && ph + TcpRaw(g, c) == Insert(z, 14, c as int)
  {
    var z, y := TcpFixed(g.srcPort, g.dstPort, g.seqNo, g.ackNo, g.flags, 0), TcpFixed(g.srcPort, g.dstPort, g.seqNo, g.ackNo, g.flags, c);
    assert z[16] == 0 && z[17] == 0 && y == Insert(z, 8, c as int);
    hide TcpFixed, TcpOptions;
    var tail := TcpOptions(g.flags) + g.payload;
    assert TcpRaw(g, 0) == z + tail && TcpRaw(g, c) == y + tail;
    assert ph + (y + tail) == Insert(ph + (z + tail), 14, c as int);
  }

  // ----- what the header check catches -----

  lemma {:induction false} InsertDifference(s: Bytes, i: nat, v: u16)
    requires 2 * i + 2 <= |s|
    ensures WordSum(Insert(s, i, v as int)) == WordSum(s) - GetBe16(s, 2 * i) as int + v as int
  {
    var s' := Insert(s, i, v as int);
    if i == 0 {
      assert s'[2..] == s[2..];
    } else {
      InsertDifference(s[2..], i - 1, v);
      assert s'[2..] == Insert(s[2..], i - 1, v as int);
    }
  }

  /** A damaged 16-bit word in a header that verified is noticed, unless all its bits are flipped
      between zero and ones (the two zeros of one's complement). */
  lemma WordDamage(s: Bytes, i: nat, v: u16)
    requires 2 * i + 2 <= |s| && Checksum16(s) == 0
    ensures var w, s' := GetBe16(s, 2 * i), Insert(s, i, v as int);
      Checksum16(s') == 0 <==> WordSum(s') > 0 && (v == w || (v == 0 && w == 0xFFFF) || (v == 0xFFFF && w == 0))
  {
    var s', w := Insert(s, i, v as int), GetBe16(s, 2 * i);
    InsertDifference(s, i, v);
    VerifiesIff(s);
    VerifiesIff(s');
    hide Insert, GetBe16, Checksum16, WordSum;
    DamageResidue(WordSum(s), v as int - w as int);
  }

  lemma DamageResidue(n: int, d: int)
    requires n % 0xFFFF == 0 && -0xFFFF <= d <= 0xFFFF
    ensures (n + d) % 0xFFFF == 0 <==> d == 0 || d == 0xFFFF || d == -0xFFFF
  {
  }
}
