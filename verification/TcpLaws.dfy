/**
 When the one-connection TCP server opens, establishes and gives up a connection, what it puts on the
 wire, and what its result codes tell, in every state it can reach.
 */
module TcpLaws {
  import opened Machine
  import opened ModArith
  import opened TcpServer
  import opened TcpRuns

  /** A segment the poll hears, and who sent it. */
  ghost predicate Hears(t: Track, e: Inputs, g: Segment) {
    Heard(t.srv, e) == Some(g)
  }

  ghost predicate HearsPeer(t: Track, e: Inputs, g: Segment) {
    Hears(t, e, g) && g.srcIp == t.peerIp && g.srcPort == t.peerPort
  }

  /** LISTEN, without peer and numbers, on the same port. */
  predicate Idle(s: Server, port: u16) {
    s == Server(true, Listen, port, 0, 0, 0, 0, 0)
  }

  // ----- transitions -----

  /** From LISTEN a connection is opened exactly by a SYN that can be answered, whoever sent it, and with
      the numbers of that SYN. */
  lemma OpensIff(t: Track, e: Inputs)
    requires Inv(t) && t.srv.phase.Listen?
    ensures var t' := Step(t, Poll(e));
      && (t'.srv.phase.SynRcvd? <==> exists g :: Hears(t, e, g) && Has(g.flags, SYN) && e.sendOk)
      && (forall g :: Hears(t, e, g) && Has(g.flags, SYN) && e.sendOk ==>
            t'.peerIp == g.srcIp && t'.peerPort == g.srcPort && t'.irs == g.seqNo as int && t'.iss == e.iss as int
            && t'.sent == 0 && t'.acked == 0 && t'.delivered == [] && t'.number == t.number + 1)
      && (t'.srv.phase.SynRcvd? || t'.srv.phase.Listen?)
  {
    hide Has;
    if Heard(t.srv, e).Some? {
      assert Hears(t, e, Heard(t.srv, e).value);
    }
  }

  /** SYN_RCVD becomes ESTABLISHED exactly when the sender of the SYN acknowledges ISS + 1, without RST and
      not with a SYN alone; it is given up exactly on its RST; otherwise it stays. */
  lemma EstablishesIff(t: Track, e: Inputs)
    requires Inv(t) && t.srv.phase.SynRcvd?
    ensures var t' := Step(t, Poll(e));
      && (t'.srv.phase.Established? <==>
            exists g :: HearsPeer(t, e, g) && Has(g.flags, ACK) && g.ackNo as int == (t.iss + 1) % WRAP
                        && !Has(g.flags, RST))
      && (t'.srv.phase.Listen? <==> exists g :: HearsPeer(t, e, g) && Has(g.flags, RST))
      && (t'.srv.phase.Listen? ==> Idle(t'.srv, t.srv.listenPort))
      && (t'.srv.phase.SynRcvd? || t'.srv.phase.Established? || t'.srv.phase.Listen?)
  {
    hide Has;
    if Heard(t.srv, e).Some? && FromPeer(t.srv, Heard(t.srv, e).value) {
      assert HearsPeer(t, e, Heard(t.srv, e).value);
    }
  }

  /** ESTABLISHED is left by a poll exactly when it hears RST or FIN from the peer, and is then LISTEN without
      peer and numbers. */
  lemma LeavesIff(t: Track, e: Inputs)
    requires Inv(t) && t.srv.phase.Established?
    ensures var t' := Step(t, Poll(e));
      && (!t'.srv.phase.Established? <==>
            exists g :: HearsPeer(t, e, g) && (Has(g.flags, RST) || Has(g.flags, FIN)))
      && (!t'.srv.phase.Established? ==> Idle(t'.srv, t.srv.listenPort))
  {
    hide Has;
    if Heard(t.srv, e).Some? && FromPeer(t.srv, Heard(t.srv, e).value) {
      assert HearsPeer(t, e, Heard(t.srv, e).value);
    }
  }

  /** The same in every state of every run. */
  lemma LeavesIffInRuns(port: u16, evs: seq<Event>, e: Inputs)
    requires Run(Start(port), evs).srv.phase.Established?
    ensures var t := Run(Start(port), evs);
      var t' := Step(t, Poll(e));
      && (!t'.srv.phase.Established? <==>
            exists g :: HearsPeer(t, e, g) && (Has(g.flags, RST) || Has(g.flags, FIN)))
      && (!t'.srv.phase.Established? ==> Idle(t'.srv, t.srv.listenPort))
  {
    RunKeeps(port, evs);
    hide Run, Step, Inv, HearsPeer, Idle;
    LeavesIff(Run(Start(port), evs), e);
  }

  /** After the peer's FIN any host, the old peer or another, can open the next connection. */
  lemma NextClient(t: Track, e: Inputs, g: Segment, e': Inputs, g': Segment)
    requires Inv(t) && t.srv.phase.Established? && HearsPeer(t, e, g) && Has(g.flags, FIN)
    requires var t1 := Step(t, Poll(e)); Hears(t1, e', g') && Has(g'.flags, SYN) && e'.sendOk
    ensures var t2 := Step(Step(t, Poll(e)), Poll(e'));
      t2.srv.phase.SynRcvd? && t2.peerIp == g'.srcIp && t2.peerPort == g'.srcPort && t2.number == t.number + 1
  {
    LeavesIff(t, e);
    StepKeeps(t, Poll(e));
    SameNumber(t, e);
    hide Step, Inv, HearsPeer, Hears, Has;
    OpensIff(Step(t, Poll(e)), e');
  }

  lemma SameNumber(t: Track, e: Inputs)
    requires !t.srv.phase.Listen?
    ensures Step(t, Poll(e)).number == t.number
  {
    hide Has;
  }

  /** Closing disables the server and forgets the peer; init listens anew. */
  lemma ClosesAndOpens(t: Track, port: u16)
    ensures Step(t, Close).srv == Server(false, Closed, t.srv.listenPort, 0, 0, 0, 0, 0)
    ensures Idle(Step(t, Init(port)).srv, port)
  {
  }

  /** A frame that is not a TCP segment for this address and port changes nothing and is not answered. */
  lemma ForOthers(t: Track, e: Inputs)
    requires !(t.srv.phase.Established? && e.tx != [])
    requires !(e.frame.Tcp? && e.frame.segment.dstIp == e.localIp && e.frame.segment.dstPort == t.srv.listenPort)
    ensures Step(t, Poll(e)) == t && Tried(t, e) == None && OnPoll(t.srv, e).1.rx == []
  {
  }

  /** A closed or disabled server stays as it is, and nothing but init wakes it. */
  lemma ClosedStays(t: Track, ev: Event)
    requires Inv(t) && t.srv.phase.Closed? && !ev.Init?
    ensures Step(t, ev).srv.phase.Closed? && Step(t, ev).number == t.number
  {
  }

  // ----- what is sent -----

  ghost function Tried(t: Track, e: Inputs): Option<Segment> {
    OnPoll(t.srv, e).1.tried
  }

  /** The segment of the current connection with the given flags, acknowledgement and payload. */
  function OfConnection(t: Track, e: Inputs, seqNo: nat, ackNo: nat, flags: u8, payload: Bytes): Segment {
    Segment(e.localIp, t.srv.listenPort, t.peerIp, t.peerPort, (seqNo % WRAP) as u32, (ackNo % WRAP) as u32, flags, payload)
  }

  /** What the caller hands over goes out, numbered from where the bytes sent so far end, acknowledging
      all that was taken; if the link takes it, it counts as sent. */
  lemma DataSent(t: Track, e: Inputs)
    requires Inv(t) && t.srv.phase.Established? && e.ready && e.tx != []
    ensures Tried(t, e) == Some(OfConnection(t, e, t.iss + 1 + t.sent, t.irs + 1 + t.acked, 0x18, e.tx))
    ensures Step(t, Poll(e)).sent == t.sent + if e.sendOk then |e.tx| else 0
  {
    ModTwice(t.iss + 1 + t.sent);
    ModTwice(t.irs + 1 + t.acked);
  }

  lemma ModTwice(n: nat)
    ensures (n % WRAP) % WRAP == n % WRAP
  {
  }

  /** A SYN in LISTEN is answered to its sender, with the new initial number and acknowledging the SYN. */
  lemma SynAnswered(t: Track, e: Inputs, g: Segment)
    requires Inv(t) && t.srv.phase.Listen? && Hears(t, e, g) && Has(g.flags, SYN)
    ensures Tried(t, e) == Some(Segment(e.localIp, t.srv.listenPort, g.srcIp, g.srcPort, e.iss,
                                        ((g.seqNo as int + 1) % WRAP) as u32, 0x12, []))
  {
    hide Has;
    ModTwice(g.seqNo as int + 1);
  }

  /** A repeated SYN of the same peer gets the same answer again. */
  lemma SynRepeated(t: Track, e: Inputs, g: Segment)
    requires Inv(t) && t.srv.phase.SynRcvd? && HearsPeer(t, e, g)
    requires Has(g.flags, SYN) && !Has(g.flags, ACK) && !Has(g.flags, RST)
    ensures Tried(t, e) == Some(OfConnection(t, e, t.iss, t.irs + 1, 0x12, [])) && Step(t, Poll(e)).srv.phase.SynRcvd?
  {
    hide Has;
    ModTwice(t.irs + 1);
  }

  /** Every data segment of the peer is answered with an acknowledgement of all bytes taken by then,
      this segment's included when it is in order. */
  lemma DataAcknowledged(t: Track, e: Inputs, g: Segment)
    requires Inv(t) && t.srv.phase.Established? && HearsPeer(t, e, g)
    requires g.payload != [] && !Has(g.flags, RST) && !Has(g.flags, FIN)
    ensures var t' := Step(t, Poll(e));
      && Tried(t, e) == Some(OfConnection(t, e, t.iss + 1 + t.sent, t.irs + 1 + t'.acked, 0x10, []))
      && (if g.seqNo as int == (t.irs + 1 + t.acked) % WRAP
          then t'.acked == t.acked + |g.payload| && t'.delivered == t.delivered + g.payload[..Min(|g.payload|, e.rxCap)]
          else t'.acked == t.acked && t'.delivered == t.delivered)
  {
    hide Has;
    ModTwice(t.iss + 1 + t.sent);
    ModTwice(t.irs + 1 + t.acked);
    AddMod32(t.srv.ackNo, t.irs + 1 + t.acked, |g.payload|);
    ModTwice(t.irs + 1 + t.acked + |g.payload|);
  }

  /** A FIN is acknowledged with the number after it, before the connection is forgotten. */
  lemma FinAcknowledged(t: Track, e: Inputs, g: Segment)
    requires Inv(t) && t.srv.phase.Established? && HearsPeer(t, e, g) && Has(g.flags, FIN) && !Has(g.flags, RST)
    ensures Tried(t, e) == Some(OfConnection(t, e, t.iss + 1 + t.sent, g.seqNo as int + 1, 0x10, []))
  {
    hide Has;
    ModTwice(t.iss + 1 + t.sent);
    ModTwice(g.seqNo as int + 1);
  }

  /** Nothing else is ever sent by a poll. */
  lemma SendsOnlyThen(t: Track, e: Inputs)
    requires Inv(t) && Tried(t, e).Some?
    ensures || (t.srv.phase.Established? && e.ready && e.tx != [])
            || (exists g :: Hears(t, e, g) && t.srv.phase.Listen? && Has(g.flags, SYN))
            || (exists g :: HearsPeer(t, e, g) && !Has(g.flags, RST)
                            && (|| (t.srv.phase.SynRcvd? && Has(g.flags, SYN) && !Has(g.flags, ACK))
                                || (t.srv.phase.Established? && (Has(g.flags, FIN) || g.payload != []))))
  {
    hide Has;
    if Heard(t.srv, e).Some? {
      assert Hears(t, e, Heard(t.srv, e).value);
      assert t.srv.phase.Listen? || HearsPeer(t, e, Heard(t.srv, e).value);
    }
  }

  /** Closing an established connection sends FIN with the numbers reached. */
  lemma FarewellSent(t: Track, e: Inputs)
    requires Inv(t)
    ensures Farewell(t.srv, e.localIp)
         == if t.srv.phase.Established?
            then Some(OfConnection(t, e, t.iss + 1 + t.sent, t.irs + 1 + t.acked, 0x11, [])) else None
  {
    ModTwice(t.iss + 1 + t.sent);
    ModTwice(t.irs + 1 + t.acked);
  }

  // ----- what the result codes tell -----

  lemma CodesTell(t: Track, e: Inputs)
    requires Inv(t)
    ensures var t', out := Step(t, Poll(e)), OnPoll(t.srv, e).1;
      && (out.code == 3 <==> t.srv.phase.SynRcvd? && t'.srv.phase.Established?)
      && (out.code == 4 <==> t'.sent > t.sent)
      && (out.code == 6 <==> t'.acked > t.acked)
      && ((out.code == 5 || out.code == -4) <==>
            (t.srv.phase.SynRcvd? || t.srv.phase.Established?) && t'.srv.phase.Listen?)
      && (out.code == 2 ==> t'.srv.phase.SynRcvd?) && (t.srv.phase.Listen? && t'.srv.phase.SynRcvd? ==> out.code == 2)
      && (out.code == -1 <==> t.srv.enabled && !e.ready)
      && (out.code == 1 ==> e.frame.Arp?)
      && (out.code == -2 || out.code == -3 ==> !e.sendOk && out.tried.Some?)
      && (out.rx != [] ==> out.code == 6)
  {
    hide Has;
  }
}
