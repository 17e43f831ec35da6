/** Where the fields of a packet lie on the wire, as RFC 791, RFC 768 and RFC 9293 say, and one packet
    byte by byte. */
module PacketLayout {
  import opened Machine
  import opened Endian
  import opened Checksum
  import opened TcpServer
  import opened PacketFormat

  /** The flag bits of section 3.1 of RFC 9293. */
  lemma FlagBits(flags: u8)
    ensures Has(flags, FIN) <==> flags % 2 == 1
    ensures Has(flags, SYN) <==> (flags / 2) % 2 == 1
    ensures Has(flags, RST) <==> (flags / 4) % 2 == 1
    ensures Has(flags, ACK) <==> (flags / 16) % 2 == 1
  {
  }

  lemma TwoBytes(s: Bytes)
    requires |s| == 2
    ensures BigEndian(s) == s[0] as int * 256 + s[1] as int
  {
    assert s[..1] == [s[0]] && [s[0]][..0] == [];
    assert BigEndian([s[0]]) == s[0] as int;
  }

  lemma FourBytes(s: Bytes)
    requires |s| == 4
    ensures BigEndian(s) == s[0] as int * 0x100_0000 + s[1] as int * 0x1_0000 + s[2] as int * 256 + s[3] as int
  {
    assert s[..3][..2] == s[..2];
    TwoBytes(s[..2]);
  }

  /** Numbers are read most significant byte first. */
  lemma ReadsBigEndian(s: Bytes, at: nat)
    ensures at + 2 <= |s| ==> GetBe16(s, at) as int == BigEndian(s[at..at + 2])
    ensures at + 4 <= |s| ==> GetBe32(s, at) as int == BigEndian(s[at..at + 4])
  {
    if at + 2 <= |s| {
      TwoBytes(s[at..at + 2]);
    }
    if at + 4 <= |s| {
      FourBytes(s[at..at + 4]);
    }
  }

  /** Section 3.1 of RFC 791. */
  lemma Ipv4Layout(ident: u16, proto: u8, src: u32, dst: u32, payload: Bytes)
    requires |payload| + 20 <= MTU
    ensures var p := Ipv4Datagram(ident, proto, src, dst, payload);
      && |p| == 20 + |payload| && p[0] == 0x45 && p[1] == 0 && p[6] == 0x40 && p[7] == 0 && p[8] == 64 && p[9] == proto
      && BigEndian(p[2..4]) == |p| && BigEndian(p[4..6]) == ident as int
      && BigEndian(p[12..16]) == src as int && BigEndian(p[16..20]) == dst as int
      && Checksum16(p[..20]) == 0 && p[20..] == payload
  {
    var p := Ipv4Datagram(ident, proto, src, dst, payload);
    DatagramLayout(ident, proto, src, dst, payload, []);
    assert p + [] == p;
    assert p[4..6] == Be16(ident) && p[6..8] == Be16(0x4000);
    hide Be16, Ipv4Datagram, Checksum16, GetBe16, GetBe32, BigEndian;
    GetPut16(p, 4, ident);
    ReadsBigEndian(p, 2);
    ReadsBigEndian(p, 4);
    ReadsBigEndian(p, 12);
    ReadsBigEndian(p, 16);
    FixedBytes(ident, proto, src, dst, payload);
  }

  lemma FixedBytes(ident: u16, proto: u8, src: u32, dst: u32, payload: Bytes)
    requires |payload| + 20 <= MTU
    ensures var p := Ipv4Datagram(ident, proto, src, dst, payload);
      |p| >= 20 && p[1] == 0 && p[6] == 0x40 && p[7] == 0 && p[8] == 64
  {
    hide Checksum16, Be32;
  }

  /** Section 3.1 of RFC 9293, with a window of 8192 and no urgent data. */
  lemma TcpLayout(g: Segment)
    requires Fits(g)
    ensures var m, n := TcpMessage(g), if Has(g.flags, SYN) then 24 else 20;
      && |m| == n + |g.payload|
      && BigEndian(m[0..2]) == g.srcPort as int && BigEndian(m[2..4]) == g.dstPort as int
      && BigEndian(m[4..8]) == g.seqNo as int && BigEndian(m[8..12]) == g.ackNo as int
      && m[12] as int == n * 4 && m[13] == g.flags && BigEndian(m[14..16]) == 8192 && BigEndian(m[18..20]) == 0
      && (n == 24 ==> m[20] == 2 && m[21] == 4 && BigEndian(m[22..24]) == 1460)
      && m[n..] == g.payload
  {
    var zeroed := TcpRaw(g, 0);
    var c := Checksum16(PseudoHeader(g.srcIp, g.dstIp, |zeroed|) + zeroed) as u16;
    assert TcpMessage(g) == TcpRaw(g, c);
    hide TcpMessage, Checksum16, TcpRaw, BigEndian, Has;
    RawTail(g, c);
    RawHead(g, c);
  }

  lemma RawHead(g: Segment, c: u16)
    ensures var m := TcpRaw(g, c);
      && |m| >= 20
      && BigEndian(m[0..2]) == g.srcPort as int && BigEndian(m[2..4]) == g.dstPort as int
      && BigEndian(m[4..8]) == g.seqNo as int && BigEndian(m[8..12]) == g.ackNo as int
      && m[12] as int == TcpHeaderLen(g.flags) / 4 * 16 && m[13] == g.flags
  {
    var m := TcpRaw(g, c);
    hide TcpFixed, GetBe16, GetBe32, BigEndian, Has;
    RawParts(g, c, m, 0);
    hide TcpRaw;
    TcpFields(m, 0, g, c);
    FieldWords(m);
  }

  lemma RawTail(g: Segment, c: u16)
    ensures var m, n := TcpRaw(g, c), if Has(g.flags, SYN) then 24 else 20;
      && |m| == n + |g.payload| && m[n..] == g.payload
      && BigEndian(m[14..16]) == 8192 && BigEndian(m[18..20]) == 0
      && (n == 24 ==> m[20] == 2 && m[21] == 4 && BigEndian(m[22..24]) == 1460)
  {
    var m, n := TcpRaw(g, c), if Has(g.flags, SYN) then 24 else 20;
    assert m[..20] == TcpFixed(g.srcPort, g.dstPort, g.seqNo, g.ackNo, g.flags, c);
    assert m[14] == 0x20 && m[15] == 0 && m[18] == 0 && m[19] == 0;
    assert n == 24 ==> m[20..24] == [2, 4, 5, 0xb4];
    hide TcpRaw, TcpFixed, BigEndian;
    TwoBytes(m[14..16]);
    TwoBytes(m[18..20]);
    if n == 24 {
      assert m[20..24][2] == m[22];
      TwoBytes(m[22..24]);
    }
  }

  /** RFC 768, without a checksum. */
  lemma UdpLayout(srcPort: u16, dstPort: u16, payload: Bytes)
    requires |payload| + 28 <= MTU
    ensures var m := UdpMessage(srcPort, dstPort, payload);
      && BigEndian(m[0..2]) == srcPort as int && BigEndian(m[2..4]) == dstPort as int
      && BigEndian(m[4..6]) == |m| == 8 + |payload| && m[6] == 0 && m[7] == 0 && m[8..] == payload
  {
    var m := UdpMessage(srcPort, dstPort, payload);
    assert m[0..2] == Be16(srcPort) && m[2..4] == Be16(dstPort) && m[4..6] == Be16((|payload| + 8) as u16);
    hide BigEndian, UdpMessage;
    TwoBytes(m[0..2]);
    TwoBytes(m[2..4]);
    TwoBytes(m[4..6]);
  }

  // ----- the transport checksum, field by field -----

  lemma SkipWord(s: Bytes, at: nat)
    requires at + 2 <= |s|
    ensures WordSum(s[at..]) == GetBe16(s, at) as int + WordSum(s[at + 2..])
  {
    assert s[at..][2..] == s[at + 2..];
  }

  lemma SkipTwoWords(s: Bytes, at: nat)
    requires at + 4 <= |s|
    ensures WordSum(s[at..]) == Halves(GetBe32(s, at)) + WordSum(s[at + 4..])
  {
    SkipWord(s, at);
    SkipWord(s, at + 2);
    hide WordSum;
    assert GetBe32(s, at) as int == GetBe16(s, at) as int * 0x1_0000 + GetBe16(s, at + 2) as int;
  }

  /** The two 16-bit halves of a 32-bit number, added. */
  function Halves(v: u32): nat {
    v as int / 0x1_0000 + v as int % 0x1_0000
  }

  lemma PseudoSum(src: u32, dst: u32, len: nat)
    requires len <= MTU
    ensures WordSum(PseudoHeader(src, dst, len)) == Halves(src) + Halves(dst) + 6 + len
  {
    var s := PseudoHeader(src, dst, len);
    assert s[0..4] == Be32(src) && s[4..8] == Be32(dst) && s[10..12] == Be16(len as u16);
    assert s[8] == 0 && s[9] == 6 && GetBe16(s, 8) == 6;
    hide PseudoHeader, Be16, Be32, WordSum;
    GetPut32(s, 0, src);
    GetPut32(s, 4, dst);
    GetPut16(s, 10, len as u16);
    hide GetBe16, GetBe32, Halves;
    SkipTwoWords(s, 0);
    SkipTwoWords(s, 4);
    SkipWord(s, 8);
    SkipWord(s, 10);
    assert s[0..] == s && s[12..] == [];
    NoWords();
  }

  lemma NoWords()
    ensures WordSum([]) == 0
  {
  }

  lemma RawWords(g: Segment, m: Bytes, n: nat)
    requires m == TcpRaw(g, 0) && n == if Has(g.flags, SYN) then 24 else 20
    ensures |m| >= n && m[n..] == g.payload && GetBe16(m, 0) == g.srcPort && GetBe16(m, 2) == g.dstPort
    ensures GetBe32(m, 4) == g.seqNo && GetBe32(m, 8) == g.ackNo
    ensures GetBe16(m, 12) as int == n * 1024 + g.flags as int && GetBe16(m, 14) == 8192
    ensures GetBe16(m, 16) == 0 && GetBe16(m, 18) == 0
    ensures n == 24 ==> GetBe16(m, 20) == 0x204 && GetBe16(m, 22) == 1460
  {
    RawHead(g, 0);
    RawTail(g, 0);
    ZeroField(g);
    hide TcpRaw, Has, BigEndian, GetBe16, GetBe32;
    FieldWords(m);
  }

  lemma RawSum(g: Segment)
    ensures var n := if Has(g.flags, SYN) then 24 else 20;
      WordSum(TcpRaw(g, 0)) == g.srcPort as int + g.dstPort as int + Halves(g.seqNo) + Halves(g.ackNo)
        + n * 1024 + g.flags as int + 8192 + (if n == 24 then 0x204 + 1460 else 0) + WordSum(g.payload)
  {
    var m, n := TcpRaw(g, 0), if Has(g.flags, SYN) then 24 else 20;
    hide TcpRaw, Has, WordSum, Halves, GetBe16, GetBe32;
    RawWords(g, m, n);
    FixedSum(m);
    if n == 24 {
      SkipWord(m, 20);
      SkipWord(m, 22);
    }
  }

  lemma FixedSum(m: Bytes)
    requires |m| >= 20
    ensures WordSum(m) == GetBe16(m, 0) as int + GetBe16(m, 2) as int + Halves(GetBe32(m, 4)) + Halves(GetBe32(m, 8))
      + GetBe16(m, 12) as int + GetBe16(m, 14) as int + GetBe16(m, 16) as int + GetBe16(m, 18) as int + WordSum(m[20..])
  {
    hide WordSum, Halves, GetBe16, GetBe32;
    SkipWord(m, 0);
    SkipWord(m, 2);
    SkipTwoWords(m, 4);
    SkipTwoWords(m, 8);
    SkipWord(m, 12);
    SkipWord(m, 14);
    SkipWord(m, 16);
    SkipWord(m, 18);
    assert m[0..] == m;
  }

  lemma ZeroField(g: Segment)
    ensures |TcpRaw(g, 0)| >= 20 && TcpRaw(g, 0)[16] == 0 && TcpRaw(g, 0)[17] == 0
  {
    assert TcpRaw(g, 0)[..20] == TcpFixed(g.srcPort, g.dstPort, g.seqNo, g.ackNo, g.flags, 0);
    hide TcpRaw;
  }

  /** The words of a header that is at least 20 bytes long. */
  lemma FieldWords(m: Bytes)
    requires |m| >= 20
    ensures GetBe16(m, 0) as int == BigEndian(m[0..2]) && GetBe16(m, 2) as int == BigEndian(m[2..4])
    ensures GetBe32(m, 4) as int == BigEndian(m[4..8]) && GetBe32(m, 8) as int == BigEndian(m[8..12])
    ensures GetBe16(m, 12) as int == m[12] as int * 256 + m[13] as int
    ensures GetBe16(m, 14) as int == BigEndian(m[14..16]) && GetBe16(m, 18) as int == BigEndian(m[18..20])
    ensures GetBe16(m, 16) as int == m[16] as int * 256 + m[17] as int
    ensures |m| >= 24 ==> GetBe16(m, 20) as int == m[20] as int * 256 + m[21] as int
                          && GetBe16(m, 22) as int == BigEndian(m[22..24])
  {
    hide BigEndian;
    ReadsBigEndian(m, 0);
    ReadsBigEndian(m, 2);
    ReadsBigEndian(m, 4);
    ReadsBigEndian(m, 8);
    ReadsBigEndian(m, 14);
    ReadsBigEndian(m, 18);
    ReadsBigEndian(m, 22);
  }

  /** The sum behind the checksum of every segment sent, from its fields alone. */
  lemma TransportSum(g: Segment)
    requires Fits(g)
    ensures var n := if Has(g.flags, SYN) then 24 else 20;
      var len := n + |g.payload|;
      var sum := Halves(g.srcIp) + Halves(g.dstIp) + 6 + len + g.srcPort as int + g.dstPort as int
        + Halves(g.seqNo) + Halves(g.ackNo) + n * 1024 + g.flags as int + 8192
        + (if n == 24 then 0x204 + 1460 else 0) + WordSum(g.payload);
      BigEndian(TcpMessage(g)[16..18]) == 0xFFFF - Fold(sum)
  {
    var zeroed := TcpRaw(g, 0);
    var ph := PseudoHeader(g.srcIp, g.dstIp, |zeroed|);
    var c := Checksum16(ph + zeroed);
    PseudoSum(g.srcIp, g.dstIp, |zeroed|);
    RawSum(g);
    RawTail(g, 0);
    assert TcpMessage(g) == TcpRaw(g, c as u16);
    hide TcpMessage, PseudoHeader, WordSum, Has, Halves, BigEndian;
    ChecksumField(g, c as u16);
    hide TcpRaw;
    WordSumSplit(ph + zeroed, 6);
    assert (ph + zeroed)[..12] == ph && (ph + zeroed)[12..] == zeroed;
  }

  lemma ChecksumField(g: Segment, c: u16)
    ensures |TcpRaw(g, c)| >= 20 && BigEndian(TcpRaw(g, c)[16..18]) == c as int
  {
    var m := TcpRaw(g, c);
    assert m[..20] == TcpFixed(g.srcPort, g.dstPort, g.seqNo, g.ackNo, g.flags, c);
    assert m[16] == Be16(c)[0] && m[17] == Be16(c)[1];
    hide TcpRaw, TcpFixed, BigEndian;
    TwoBytes(m[16..18]);
  }

  /** "A" from port 40000 of 10.0.0.2 to port 80 of 10.0.0.1, a segment of odd length. */
  lemma OneByteSegment()
    ensures var g := Segment(0x0a00_0002, 40000, 0x0a00_0001, 80, 1, 1, 0x18, [0x41]);
      Fits(g) && BigEndian(TcpMessage(g)[16..18]) == 0x9e36
  {
    var g := Segment(0x0a00_0002, 40000, 0x0a00_0001, 80, 1, 1, 0x18, [0x41]);
    TransportSum(g);
    assert WordSum(g.payload) == 0x4100;
    hide TcpMessage, BigEndian;
  }

  // ----- what the parsers read in any packet -----

  /** The numbers of an IPv4 header and of a header `h` bytes further on. */
  lemma HeaderWords(p: Bytes, h: nat)
    requires |p| >= 20
    ensures GetBe16(p, 2) as int == BigEndian(p[2..4])
    ensures GetBe32(p, 12) as int == BigEndian(p[12..16]) && GetBe32(p, 16) as int == BigEndian(p[16..20])
    ensures h + 8 <= |p| ==>
      && GetBe16(p, h) as int == BigEndian(p[h..h + 2]) && GetBe16(p, h + 2) as int == BigEndian(p[h + 2..h + 4])
      && GetBe16(p, h + 4) as int == BigEndian(p[h + 4..h + 6]) && GetBe32(p, h + 4) as int == BigEndian(p[h + 4..h + 8])
    ensures h + 12 <= |p| ==> GetBe32(p, h + 8) as int == BigEndian(p[h + 8..h + 12])
  {
    hide BigEndian;
    ReadsBigEndian(p, 2);
    ReadsBigEndian(p, 12);
    ReadsBigEndian(p, 16);
    ReadsBigEndian(p, h);
    ReadsBigEndian(p, h + 2);
    ReadsBigEndian(p, h + 4);
    ReadsBigEndian(p, h + 8);
  }

  /** A packet with a header of `h` bytes, options included, and a TCP header of `n` bytes behind it. */
  lemma TcpParsed(p: Bytes, h: nat, n: nat, total: nat)
    requires |p| >= 40 && p[0] as int == 64 + h / 4 && h % 4 == 0 && 20 <= h <= 60
    requires BigEndian(p[2..4]) == total && h + 20 <= total <= |p|
    requires p[h + 12] as int / 16 * 4 == n
    ensures ParseIpv4Tcp(p).Some? <==> p[9] == 6 && n >= 20 && h + n <= total
    ensures ParseIpv4Tcp(p).Some? ==>
      var g := ParseIpv4Tcp(p).value;
      && g.srcIp as int == BigEndian(p[12..16]) && g.dstIp as int == BigEndian(p[16..20])
      && g.srcPort as int == BigEndian(p[h..h + 2]) && g.dstPort as int == BigEndian(p[h + 2..h + 4])
      && g.seqNo as int == BigEndian(p[h + 4..h + 8]) && g.ackNo as int == BigEndian(p[h + 8..h + 12])
      && g.flags == p[h + 13] && g.payload == p[h + n..total]
  {
    assert HeaderLen(p) == h;
    hide BigEndian, HeaderLen, GetBe16, GetBe32;
    HeaderWords(p, h);
  }

  /** A packet with a header of `h` bytes and a UDP header behind it. */
  lemma UdpParsed(p: Bytes, h: nat, total: nat)
    requires |p| >= 28 && p[0] as int == 64 + h / 4 && h % 4 == 0 && 20 <= h <= 60
    requires BigEndian(p[2..4]) == total && h + 8 <= total <= |p|
    ensures var len := BigEndian(p[h + 4..h + 6]);
      && (ParseIpv4Udp(p).Some? <==> p[9] == 17 && 8 <= len <= total - h)
      && (ParseIpv4Udp(p).Some? ==>
            var u := ParseIpv4Udp(p).value;
            && u.srcIp as int == BigEndian(p[12..16]) && u.dstIp as int == BigEndian(p[16..20])
            && u.srcPort as int == BigEndian(p[h..h + 2]) && u.dstPort as int == BigEndian(p[h + 2..h + 4])
            && u.payload == p[h + 8..h + len])
  {
    assert HeaderLen(p) == h;
    hide BigEndian, HeaderLen, GetBe16, GetBe32;
    HeaderWords(p, h);
  }

  /** Any packet whose header verifies, and no other. */
  lemma Ipv4Parsed(p: Bytes, h: nat, total: nat)
    requires |p| >= 20 && p[0] as int == 64 + h / 4 && h % 4 == 0 && 20 <= h <= 60
    requires BigEndian(p[2..4]) == total && h <= total <= |p|
    ensures ParseIpv4Basic(p).Some? <==> Checksum16(p[..h]) == 0
    ensures ParseIpv4Basic(p).Some? ==>
      var d := ParseIpv4Basic(p).value;
      && d.srcIp as int == BigEndian(p[12..16]) && d.dstIp as int == BigEndian(p[16..20])
      && d.proto == p[9] && d.payload == p[h..total]
  {
    assert HeaderLen(p) == h;
    hide BigEndian, HeaderLen, Checksum16, GetBe16, GetBe32;
    HeaderWords(p, h);
  }

  /** Nothing else is accepted: another version, a header length below 20, a total length beyond the frame
      or too short for the headers. */
  lemma NotParsed(p: Bytes)
    requires |p| >= 20 && (p[0] as int / 16 != 4 || p[0] as int % 16 < 5 || BigEndian(p[2..4]) > |p|)
    ensures ParseIpv4Basic(p) == None && ParseIpv4Udp(p) == None && ParseIpv4Tcp(p) == None
  {
    hide BigEndian, Checksum16;
    ReadsBigEndian(p, 2);
    hide GetBe16, GetBe32;
  }
}
