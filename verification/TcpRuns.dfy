/** What every run of the TCP server keeps, and what its peer's byte stream becomes. */
module TcpRuns {
  import opened Machine
  import opened ModArith
  import opened TcpServer

  datatype Event = Init(port: u16) | Poll(inputs: Inputs) | Close

  /** The server together with what its connection has done so far:
      - `peerIp`, `peerPort`, `iss`, `irs`: who sent the SYN, and the two initial sequence numbers;
      - `sent`: payload bytes successfully transmitted;
      - `acked`: payload bytes taken from the peer, `delivered`: those handed to the caller;
      - `number`: connections opened. */
  datatype Track = Track(srv: Server, peerIp: u32, peerPort: u16, iss: nat, irs: nat,
                         sent: nat, acked: nat, delivered: Bytes, number: nat)

  /** The segment a poll hands to the protocol, if it gets that far. */
  function Heard(s: Server, e: Inputs): Option<Segment> {
    if s.enabled && !s.phase.Closed? && e.ready && !(s.phase.Established? && e.tx != []) && e.frame.Tcp?
       && e.frame.segment.dstIp == e.localIp && e.frame.segment.dstPort == s.listenPort
    then Some(e.frame.segment) else None
  }

  function Step(t: Track, ev: Event): Track {
    match ev
    case Init(port) => Track(OnInit(port), 0, 0, 0, 0, 0, 0, [], t.number)
    case Close => t.(srv := OnClose(t.srv))
    case Poll(e) =>
      var (srv, out) := OnPoll(t.srv, e);
      var t' := t.(srv := srv);
      var g := Heard(t.srv, e);
      if t.srv.phase.Listen? && srv.phase.SynRcvd? && g.Some? then
        Track(srv, g.value.srcIp, g.value.srcPort, e.iss as int, g.value.seqNo as int, 0, 0, [], t.number + 1)
      else if out.code == 4 then t'.(sent := t.sent + |e.tx|)
      else if out.code == 6 && g.Some? then
        t'.(acked := t.acked + |g.value.payload|, delivered := t.delivered + out.rx)
      else t'
  }

  function Run(t: Track, evs: seq<Event>): Track {
    if evs == [] then t else Step(Run(t, evs[..|evs| - 1]), evs[|evs| - 1])
  }

  // ----- the state invariant -----

  ghost predicate Inv(t: Track) {
    && (t.srv.phase.Closed? <==> !t.srv.enabled)
    && (t.srv.phase.Closed? || t.srv.phase.Listen? ==>
          t.srv.remoteIp == 0 && t.srv.remotePort == 0 && t.srv.seqNo == 0 && t.srv.ackNo == 0)
    && (t.srv.phase.SynRcvd? || t.srv.phase.Established? ==>
          && t.srv.remoteIp == t.peerIp && t.srv.remotePort == t.peerPort
          && t.srv.ackNo == (t.irs + 1 + t.acked) % WRAP)
    && (t.srv.phase.SynRcvd? ==> t.srv.seqNo == t.iss < WRAP && t.sent == 0 && t.acked == 0 && t.delivered == [])
    && (t.srv.phase.Established? ==> t.srv.seqNo == (t.iss + 1 + t.sent) % WRAP)
  }

  lemma AddMod32(a: nat, b: nat, c: nat)
    ensures a == b % WRAP ==> (a + c) % WRAP == (b + c) % WRAP
  {
    AddLeft(b, c, WRAP);
  }

  lemma StepKeeps(t: Track, ev: Event)
    requires Inv(t)
    ensures Inv(Step(t, ev))
  {
    hide Has;
    match ev
    case Init(_) =>
    case Close =>
    case Poll(e) =>
      AddMod32(t.srv.seqNo, t.iss + 1 + t.sent, |e.tx|);
      match Heard(t.srv, e)
      case None =>
      case Some(g) =>
        AddMod32(t.srv.ackNo, t.irs + 1 + t.acked, |g.payload|);
  }

  lemma {:induction false} RunKeepsFrom(t: Track, evs: seq<Event>)
    requires Inv(t)
    ensures Inv(Run(t, evs))
  {
    hide Inv, Step;
    if evs != [] {
      RunKeepsFrom(t, evs[..|evs| - 1]);
      StepKeeps(Run(t, evs[..|evs| - 1]), evs[|evs| - 1]);
    }
  }

  /** A server just initialised. */
  function Start(port: u16): Track {
    Track(OnInit(port), 0, 0, 0, 0, 0, 0, [], 0)
  }

  lemma FreshServer(port: u16, streams: nat -> Bytes)
    ensures Inv(Start(port)) && StreamInv(Start(port), streams)
  {
  }

  /** From netstack_tcp_server_init on, any sequence of polls, closes and re-initialisations. */
  lemma RunKeeps(port: u16, evs: seq<Event>)
    ensures Inv(Run(Start(port), evs))
  {
    FreshServer(port, _ => []);
    RunKeepsFrom(Start(port), evs);
  }

  /** A connection is established only by the host that sent the SYN acknowledging ISS + 1. */
  lemma EstablishedByPeerAck(t: Track, ev: Event)
    requires Inv(t) && !t.srv.phase.Established? && Step(t, ev).srv.phase.Established?
    ensures t.srv.phase.SynRcvd? && ev.Poll? && Heard(t.srv, ev.inputs).Some?
    ensures var g := Heard(t.srv, ev.inputs).value;
            Has(g.flags, ACK) && g.ackNo as int == (t.iss + 1) % WRAP && g.srcIp == t.peerIp && g.srcPort == t.peerPort
  {
    hide Has;
  }

  /** Once a connection is being opened, segments from anyone else change nothing but the record of
      the last flags seen. */
  lemma StrangersIgnored(t: Track, e: Inputs)
    requires t.srv.phase.SynRcvd? || t.srv.phase.Established?
    requires Heard(t.srv, e).Some? && !FromPeer(t.srv, Heard(t.srv, e).value)
    ensures Step(t, Poll(e)) == t.(srv := t.srv.(lastFlags := Heard(t.srv, e).value.flags))
  {
    hide Has;
  }

  // ----- the byte stream -----

  /** The segment's payload is a piece of stream `s`, numbered from the initial sequence number. */
  ghost predicate CutFrom(g: Segment, irs: nat, s: Bytes) {
    exists off: nat :: PieceAt(g, irs, s, off)
  }

  predicate PieceAt(g: Segment, irs: nat, s: Bytes, off: nat) {
    && off + |g.payload| <= |s|
    && g.seqNo as int == (irs + 1 + off) % WRAP
    && g.payload == s[off..off + |g.payload|]
  }

  /** What the peer of the current connection sends is cut from one stream, in any order, with any
      losses and repetitions, and the caller has room for it. */
  ghost predicate Honest(t: Track, ev: Event, streams: nat -> Bytes) {
    ev.Poll? && Heard(t.srv, ev.inputs).Some? ==>
      var g := Heard(t.srv, ev.inputs).value;
      FromPeer(t.srv, g) && g.payload != [] ==>
        CutFrom(g, t.irs, streams(t.number)) && |g.payload| <= ev.inputs.rxCap
  }

  /** What has been delivered on the current connection is a prefix of the peer's stream, and the
      acknowledgement number counts exactly those bytes. */
  ghost predicate StreamInv(t: Track, streams: nat -> Bytes) {
    && Inv(t)
    && (t.srv.phase.SynRcvd? || t.srv.phase.Established? ==>
          |t.delivered| == t.acked && t.delivered <= streams(t.number))
  }

  /** Below 2^32, equal sequence numbers mean equal offsets. */
  lemma SameOffset(irs: nat, a: nat, b: nat)
    requires a < WRAP && b < WRAP && (irs + 1 + a) % WRAP == (irs + 1 + b) % WRAP
    ensures a == b
  {
    var x, y := irs + 1 + a, irs + 1 + b;
    assert x == WRAP * (x / WRAP) + x % WRAP && y == WRAP * (y / WRAP) + y % WRAP;
  }

  lemma PrefixGrows(d: Bytes, s: Bytes, p: Bytes)
    requires d <= s && |d| + |p| <= |s| && p == s[|d|..|d| + |p|]
    ensures d + p <= s
  {
    assert s[..|d| + |p|] == d + p;
  }

  lemma DataStep(t: Track, e: Inputs, streams: nat -> Bytes)
    requires StreamInv(t, streams) && Honest(t, Poll(e), streams) && |streams(t.number)| < WRAP
    requires Heard(t.srv, e).Some? && t.srv.phase.Established? && OnPoll(t.srv, e).1.code == 6
    ensures StreamInv(Step(t, Poll(e)), streams)
  {
    StepKeeps(t, Poll(e));
    hide Has, Inv;
    var g := Heard(t.srv, e).value;
    assert FromPeer(t.srv, g) && g.payload != [] && g.seqNo as int == t.srv.ackNo;
    assert t.srv.ackNo == (t.irs + 1 + t.acked) % WRAP by { AckNumber(t); }
    var off :| PieceAt(g, t.irs, streams(t.number), off);
    SameOffset(t.irs, off, t.acked);
    PrefixGrows(t.delivered, streams(t.number), g.payload);
    assert OnPoll(t.srv, e).1.rx == g.payload;
  }

  lemma AckNumber(t: Track)
    requires Inv(t) && t.srv.phase.Established?
    ensures t.srv.ackNo == (t.irs + 1 + t.acked) % WRAP
  {
  }

  /** An in-order segment is always acknowledged whole; it is delivered whole exactly when the
      caller's buffer can take it. */
  lemma DeliveredWholeIff(t: Track, e: Inputs, streams: nat -> Bytes)
    requires StreamInv(t, streams) && Heard(t.srv, e).Some? && t.srv.phase.Established?
    requires OnPoll(t.srv, e).1.code == 6
    ensures var t' := Step(t, Poll(e));
            |t'.delivered| == t'.acked <==> |Heard(t.srv, e).value.payload| <= e.rxCap
  {
    hide Has, Inv;
    assert !t.srv.phase.Listen? && FromPeer(t.srv, Heard(t.srv, e).value);
  }

  lemma StreamStep(t: Track, ev: Event, streams: nat -> Bytes)
    requires StreamInv(t, streams) && Honest(t, ev, streams) && |streams(t.number)| < WRAP
    ensures StreamInv(Step(t, ev), streams)
  {
    StepKeeps(t, ev);
    hide Has, Honest;
    match ev
    case Init(_) =>
    case Close =>
    case Poll(e) =>
      if Heard(t.srv, e).Some? && t.srv.phase.Established? && OnPoll(t.srv, e).1.code == 6 {
        DataStep(t, e, streams);
      } else {
        QuietStep(t, e);
      }
  }

  /** A poll that delivers nothing keeps the connection's stream, or starts a new one empty. */
  lemma QuietStep(t: Track, e: Inputs)
    requires Inv(t) && !(Heard(t.srv, e).Some? && t.srv.phase.Established? && OnPoll(t.srv, e).1.code == 6)
    ensures var t' := Step(t, Poll(e));
            || (t'.acked == t.acked && t'.delivered == t.delivered && t'.number == t.number
                && (t'.srv.phase.SynRcvd? || t'.srv.phase.Established? ==>
                      t.srv.phase.SynRcvd? || t.srv.phase.Established?))
            || (t'.acked == 0 && t'.delivered == [])
  {
    hide Has;
  }

  ghost predicate HonestRun(t: Track, evs: seq<Event>, streams: nat -> Bytes) {
    forall i :: 0 <= i < |evs| ==> Honest(Run(t, evs[..i]), evs[i], streams)
  }

  lemma {:induction false} DeliveredFrom(t: Track, evs: seq<Event>, streams: nat -> Bytes)
    requires StreamInv(t, streams) && HonestRun(t, evs, streams)
    requires forall k: nat :: |streams(k)| < WRAP
    ensures StreamInv(Run(t, evs), streams)
  {
    if evs != [] {
      var n := |evs| - 1;
      assert HonestRun(t, evs[..n], streams) by {
        forall i | 0 <= i < n
          ensures Honest(Run(t, evs[..n][..i]), evs[..n][i], streams)
        {
          assert evs[..n][..i] == evs[..i];
        }
      }
      DeliveredFrom(t, evs[..n], streams);
      assert Honest(Run(t, evs[..n]), evs[n], streams);
      StreamStep(Run(t, evs[..n]), evs[n], streams);
    }
  }

  /** From initialisation on and for every pattern of loss, repetition and reordering: the bytes
      delivered on a connection form a prefix of what the peer sent, and the server acknowledges
      exactly those. */
  lemma DeliveredIsPrefix(port: u16, evs: seq<Event>, streams: nat -> Bytes)
    requires HonestRun(Start(port), evs, streams)
    requires forall k: nat :: |streams(k)| < WRAP
    ensures StreamInv(Run(Start(port), evs), streams)
  {
    FreshServer(port, streams);
    DeliveredFrom(Start(port), evs, streams);
  }

  /** A poll that hears the segment `g` on port 80 of host 2 with room for `cap` bytes. */
  function Hear(g: Segment, cap: nat): Event {
    Poll(Inputs(true, 2, [], cap, Tcp(g), 7, true))
  }

  lemma FirstSyn()
    ensures Step(Start(80), Hear(Segment(1, 9, 2, 80, 0, 0, 2, []), 1))
         == Track(Server(true, SynRcvd, 80, 1, 9, 7, 1, 2), 1, 9, 7, 0, 0, 0, [], 1)
  {
  }

  lemma ThenAck()
    ensures Step(Track(Server(true, SynRcvd, 80, 1, 9, 7, 1, 2), 1, 9, 7, 0, 0, 0, [], 1),
                 Hear(Segment(1, 9, 2, 80, 1, 8, 16, []), 1))
         == Track(Server(true, Established, 80, 1, 9, 8, 1, 16), 1, 9, 7, 0, 0, 0, [], 1)
  {
  }

  lemma ThenTwoBytes()
    ensures Step(Track(Server(true, Established, 80, 1, 9, 8, 1, 16), 1, 9, 7, 0, 0, 0, [], 1),
                 Hear(Segment(1, 9, 2, 80, 1, 8, 16, [5, 6]), 1))
         == Track(Server(true, Established, 80, 1, 9, 8, 3, 16), 1, 9, 7, 0, 0, 2, [5], 1)
  {
    assert [5, 6][..1] == [5] && [] + [5] == [5];
  }

  /** A handshake and a segment of two bytes for a caller with room for one: both bytes are
      acknowledged, one is delivered, and the other is lost. */
  lemma TruncatedDelivery()
    ensures var t := Run(Start(80), [Hear(Segment(1, 9, 2, 80, 0, 0, 2, []), 1),
                                     Hear(Segment(1, 9, 2, 80, 1, 8, 16, []), 1),
                                     Hear(Segment(1, 9, 2, 80, 1, 8, 16, [5, 6]), 1)]);
      t.srv.phase.Established? && t.acked == 2 && t.srv.ackNo == 3 && t.delivered == [5]
  {
    FirstSyn();
    ThenAck();
    ThenTwoBytes();
    hide Step, Run, Start, Hear;
    RunThree(Start(80), Hear(Segment(1, 9, 2, 80, 0, 0, 2, []), 1), Hear(Segment(1, 9, 2, 80, 1, 8, 16, []), 1),
             Hear(Segment(1, 9, 2, 80, 1, 8, 16, [5, 6]), 1));
  }

  lemma RunThree(t: Track, e1: Event, e2: Event, e3: Event)
    ensures Run(t, [e1, e2, e3]) == Step(Step(Step(t, e1), e2), e3)
  {
    hide Step;
    assert [e1, e2, e3][..2] == [e1, e2] && [e1, e2][..1] == [e1] && [e1][..0] == [];
    assert Run(t, [e1]) == Step(t, e1);
  }
}
