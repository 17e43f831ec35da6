/** The TCP server on the bytes of the wire: what a poll makes of a frame, and a peer's stream over it. */
module TcpWire {
  import opened Machine
  import opened TcpServer
  import opened TcpRuns
  import opened PacketFormat

  const ETH_IPV4: u16 := 0x0800
  const ETH_ARP: u16 := 0x0806

  /** What the link layer delivers for one poll. */
  datatype Link = Silence | Ethernet(etherType: u16, payload: Bytes)

  /** What the poll takes it for. */
  function Classify(l: Link): Frame {
    if l.Silence? || l.payload == [] then NoFrame
    else if l.etherType == ETH_ARP then Arp
    else if l.etherType != ETH_IPV4 then NotTcp
    else match ParseIpv4Tcp(l.payload)
      case None => NotTcp
      case Some(g) => Tcp(g)
  }

  /** The frame that carries segment `g`, as the sender builds it, with what the link appends. */
  function Carried(ident: u16, g: Segment, pad: Bytes): Link
    requires Fits(g)
  {
    Ethernet(ETH_IPV4, Ipv4Datagram(ident, PROTO_TCP, g.srcIp, g.dstIp, TcpMessage(g)) + pad)
  }

  /** A frame built for a segment is heard as exactly that segment. */
  lemma CarriedIsHeard(ident: u16, g: Segment, pad: Bytes)
    requires Fits(g)
    ensures Classify(Carried(ident, g, pad)) == Tcp(g)
  {
    TcpRoundTrip(ident, g, pad);
    assert ParseIpv4Tcp([]) == None;
    hide ParseIpv4Tcp, Ipv4Datagram, TcpMessage;
  }

  /** The frame carries a segment of the peer's stream that the caller has room for. */
  ghost predicate CarriesPiece(l: Link, irs: nat, s: Bytes, cap: nat) {
    exists ident, g, pad ::
      Fits(g) && l == Carried(ident, g, pad) && (g.payload != [] ==> CutFrom(g, irs, s) && |g.payload| <= cap)
  }

  /** The poll gets the frame `l`, and if that comes from the peer of the connection, the peer built
      it for a segment of its stream. */
  ghost predicate HonestLink(t: Track, ev: Event, l: Link, streams: nat -> Bytes) {
    ev.Poll? ==>
      && ev.inputs.frame == Classify(l)
      && (Classify(l).Tcp? && FromPeer(t.srv, Classify(l).segment) ==>
            CarriesPiece(l, t.irs, streams(t.number), ev.inputs.rxCap))
  }

  lemma HonestOnWire(t: Track, ev: Event, l: Link, streams: nat -> Bytes)
    requires HonestLink(t, ev, l, streams)
    ensures Honest(t, ev, streams)
  {
    hide Classify, CutFrom, Fits, Carried;
    if ev.Poll? && Heard(t.srv, ev.inputs).Some? && FromPeer(t.srv, Heard(t.srv, ev.inputs).value) {
      var ident, g, pad :| Fits(g) && l == Carried(ident, g, pad)
        && (g.payload != [] ==> CutFrom(g, t.irs, streams(t.number)) && |g.payload| <= ev.inputs.rxCap);
      CarriedIsHeard(ident, g, pad);
    }
  }

  /** For every run over frames of which those of the peer may be lost, repeated and reordered: the
      bytes delivered are a prefix of the peer's stream, and exactly those are acknowledged. */
  lemma DeliveredOnWire(port: u16, evs: seq<Event>, links: seq<Link>, streams: nat -> Bytes)
    requires |links| == |evs|
    requires forall i :: 0 <= i < |evs| ==> HonestLink(Run(Start(port), evs[..i]), evs[i], links[i], streams)
    requires forall k: nat :: |streams(k)| < WRAP
    ensures StreamInv(Run(Start(port), evs), streams)
  {
    hide Run, HonestLink, Honest, StreamInv;
    forall i | 0 <= i < |evs|
      ensures Honest(Run(Start(port), evs[..i]), evs[i], streams)
    {
      HonestOnWire(Run(Start(port), evs[..i]), evs[i], links[i], streams);
    }
    DeliveredIsPrefix(port, evs, streams);
  }
}
