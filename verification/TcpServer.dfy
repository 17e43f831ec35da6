/**
 The one-connection TCP server of kernel/drivers/netstack.c.  Sequence numbers live in 32 bits and
 wrap; the wire, the clock and the success of each transmission are inputs.
 */
module TcpServer {
  import opened Machine

  const WRAP: nat := 0x1_0000_0000

  const FIN: nat := 0x01
  const SYN: nat := 0x02
  const RST: nat := 0x04
  const PSH: nat := 0x08
  const ACK: nat := 0x10

  predicate Has(flags: u8, bit: nat)
    requires bit > 0
  {
    (flags as int / bit) % 2 == 1
  }

  datatype Phase = Closed | Listen | SynRcvd | Established

  /** A parsed TCP segment with its addresses. */
  datatype Segment = Segment(srcIp: u32, srcPort: u16, dstIp: u32, dstPort: u16,
                             seqNo: u32, ackNo: u32, flags: u8, payload: Bytes)

  /** What the link layer has for this poll. */
  datatype Frame = NoFrame | Arp | NotTcp | Tcp(segment: Segment)

  /** The server record without its packet counters. */
  datatype Server = Server(enabled: bool, phase: Phase, listenPort: u16, remoteIp: u32, remotePort: u16,
                           seqNo: nat, ackNo: nat, lastFlags: u8)

  /** The world's part of one poll: the interface state, what the caller wants to send and has room
      for, the frame received, the clock-derived initial sequence number, and whether a transmission
      succeeds. */
  datatype Inputs = Inputs(ready: bool, localIp: u32, tx: Bytes, rxCap: nat, frame: Frame, iss: u32, sendOk: bool)

  /** The result code, the bytes for the caller, and the segment handed to the link layer, if any. */
  datatype Output = Output(code: int, rx: Bytes, tried: Option<Segment>)

  // ----- the specification -----

  function ResetPeer(s: Server): Server {
    s.(phase := if s.enabled then Listen else Closed,
       remoteIp := 0, remotePort := 0, seqNo := 0, ackNo := 0, lastFlags := 0)
  }

  /** A segment with the addresses and numbers of the connection. */
  function Outgoing(s: Server, localIp: u32, flags: nat, payload: Bytes): Segment
    requires flags < 256
  {
    Segment(localIp, s.listenPort, s.remoteIp, s.remotePort, (s.seqNo % WRAP) as u32, (s.ackNo % WRAP) as u32,
            flags as u8, payload)
  }

  function Next(n: nat): nat {
    (n + 1) % WRAP
  }

  predicate FromPeer(s: Server, g: Segment) {
    s.remoteIp == g.srcIp && s.remotePort == g.srcPort
  }

  function Quiet(code: int): Output {
    Output(code, [], None)
  }

  /** The answer to a segment addressed to the server. */
  function OnSegment(s: Server, g: Segment, e: Inputs): (Server, Output) {
    if s.phase.Closed? then (s, Quiet(0))
    else if s.phase.Listen? then
      if !Has(g.flags, SYN) then (s, Quiet(0))
      else
        var s' := s.(remoteIp := g.srcIp, remotePort := g.srcPort, seqNo := e.iss as int,
                     ackNo := Next(g.seqNo as int), phase := SynRcvd);
        var answer := Some(Outgoing(s', e.localIp, SYN + ACK, []));
        if e.sendOk then (s', Output(2, [], answer)) else (ResetPeer(s'), Output(-3, [], answer))
    else if !FromPeer(s, g) then (s, Quiet(0))
    else if Has(g.flags, RST) then (ResetPeer(s), Quiet(-4))
    else if s.phase.SynRcvd? then
      if Has(g.flags, SYN) && !Has(g.flags, ACK) then (s, Output(2, [], Some(Outgoing(s, e.localIp, SYN + ACK, []))))
      else if Has(g.flags, ACK) && g.ackNo as int == Next(s.seqNo) then
        (s.(seqNo := Next(s.seqNo), phase := Established), Quiet(3))
      else (s, Quiet(0))
    else if Has(g.flags, FIN) then
      (ResetPeer(s), Output(5, [], Some(Outgoing(s.(ackNo := Next(g.seqNo as int)), e.localIp, ACK, []))))
    else if g.payload != [] then
      if g.seqNo as int == s.ackNo then
        var s' := s.(ackNo := (s.ackNo + |g.payload|) % WRAP);
        (s', Output(6, g.payload[..Min(|g.payload|, e.rxCap)], Some(Outgoing(s', e.localIp, ACK, []))))
      else (s, Output(7, [], Some(Outgoing(s, e.localIp, ACK, []))))
    else (s, Quiet(if Has(g.flags, ACK) then 8 else 0))
  }

  function OnPoll(s: Server, e: Inputs): (Server, Output) {
    if !s.enabled || s.phase.Closed? then (s, Quiet(0))
    else if !e.ready then (s, Quiet(-1))
    else if s.phase.Established? && e.tx != [] then
      var data := Some(Outgoing(s, e.localIp, PSH + ACK, e.tx));
      if e.sendOk then (s.(seqNo := (s.seqNo + |e.tx|) % WRAP), Output(4, [], data)) else (s, Output(-2, [], data))
    else match e.frame
      case NoFrame => (s, Quiet(0))
      case Arp => (s, Quiet(1))
      case NotTcp => (s, Quiet(0))
      case Tcp(g) =>
        if g.dstIp != e.localIp || g.dstPort != s.listenPort then (s, Quiet(0))
        else OnSegment(s.(lastFlags := g.flags), g, e)
  }

  /** The segment with which an established connection is closed. */
  function Farewell(s: Server, localIp: u32): Option<Segment> {
    if s.enabled && s.phase.Established? then Some(Outgoing(s, localIp, FIN + ACK, [])) else None
  }

  function OnClose(s: Server): Server {
    ResetPeer(s.(enabled := false))
  }

  function OnInit(port: u16): Server {
    Server(true, Listen, port, 0, 0, 0, 0, 0)
  }

  // ----- the record updated in place -----

  class TcpServerRecord {
    var enabled: bool
    var phase: Phase
    var listenPort: u16
    var remoteIp: u32
    var remotePort: u16
    var seqNo: nat
    var ackNo: nat
    var lastFlags: u8

    var connections: nat
    var rxPackets: nat
    var txPackets: nat
    var rxBytes: nat
    var txBytes: nat
    var resets: nat

    function View(): Server
      reads this
    {
      Server(enabled, phase, listenPort, remoteIp, remotePort, seqNo, ackNo, lastFlags)
    }

    constructor (port: u16)
      ensures View() == OnInit(port)
    {
      enabled, phase, listenPort := true, Listen, port;
      remoteIp, remotePort, seqNo, ackNo, lastFlags := 0, 0, 0, 0, 0;
      connections, rxPackets, txPackets, rxBytes, txBytes, resets := 0, 0, 0, 0, 0, 0;
    }

    /** Transmission with the current numbers; only the counters change. */
    method Send(localIp: u32, flags: nat, payload: Bytes, sendOk: bool) returns (ok: bool, tried: Option<Segment>)
      requires flags < 256
      modifies this`txPackets, this`txBytes
      ensures tried == Some(Outgoing(View(), localIp, flags, payload))
      ensures ok == sendOk && txPackets == if sendOk then (old(txPackets) + 1) % WRAP else old(txPackets)
      ensures txBytes == if sendOk then (old(txBytes) + |payload|) % WRAP else old(txBytes)
    {
      tried := Some(Segment(localIp, listenPort, remoteIp, remotePort, (seqNo % WRAP) as u32, (ackNo % WRAP) as u32,
                            flags as u8, payload));
      ok := sendOk;
      if ok {
        txPackets := (txPackets + 1) % WRAP;
        txBytes := (txBytes + |payload|) % WRAP;
      }
    }

    method Reset()
      modifies this`phase, this`remoteIp, this`remotePort, this`seqNo, this`ackNo, this`lastFlags
      ensures View() == ResetPeer(old(View()))
    {
      phase := if enabled then Listen else Closed;
      remoteIp, remotePort, seqNo, ackNo, lastFlags := 0, 0, 0, 0, 0;
    }

    method Close(localIp: u32, sendOk: bool) returns (code: int, tried: Option<Segment>)
      modifies this
      ensures View() == OnClose(old(View())) && code == 0 && tried == Farewell(old(View()), localIp)
    {
      tried := None;
      if enabled && phase.Established? {
        var sent;
        sent, tried := Send(localIp, FIN + ACK, [], sendOk);
        if sent {
          seqNo := Next(seqNo);
        }
      }
      enabled := false;
      Reset();
      code := 0;
    }

    method Poll(e: Inputs) returns (out: Output)
      modifies this
      ensures (View(), out) == OnPoll(old(View()), e)
    {
      if !enabled || phase.Closed? {
        return Quiet(0);
      }
      if !e.ready {
        return Quiet(-1);
      }
      if phase.Established? && e.tx != [] {
        var sent, tried := Send(e.localIp, PSH + ACK, e.tx, e.sendOk);
        if !sent {
          return Output(-2, [], tried);
        }
        seqNo := (seqNo + |e.tx|) % WRAP;
        return Output(4, [], tried);
      }
      if e.frame.NoFrame? {
        return Quiet(0);
      }
      if e.frame.Arp? {
        return Quiet(1);
      }
      if e.frame.NotTcp? {
        return Quiet(0);
      }
      var g := e.frame.segment;
      if g.dstIp != e.localIp || g.dstPort != listenPort {
        return Quiet(0);
      }
      lastFlags := g.flags;
      if phase.Listen? {
        out := Accept(g, e);
        return;
      }
      if !(remoteIp == g.srcIp && remotePort == g.srcPort) {
        return Quiet(0);
      }
      if Has(g.flags, RST) {
        resets := (resets + 1) % WRAP;
        Reset();
        return Quiet(-4);
      }
      out := FromConnectedPeer(g, e);
    }

    /** A segment in the LISTEN state. */
    method Accept(g: Segment, e: Inputs) returns (out: Output)
      requires phase.Listen?
      modifies this
      ensures (View(), out) == OnSegment(old(View()), g, e)
    {
      if !Has(g.flags, SYN) {
        return Quiet(0);
      }
      remoteIp, remotePort := g.srcIp, g.srcPort;
      seqNo := e.iss as int;
      ackNo := Next(g.seqNo as int);
      connections := (connections + 1) % WRAP;
      phase := SynRcvd;
      var sent, tried := Send(e.localIp, SYN + ACK, [], e.sendOk);
      if !sent {
        resets := (resets + 1) % WRAP;
        Reset();
        return Output(-3, [], tried);
      }
      return Output(2, [], tried);
    }

    /** A segment without RST from the connected peer. */
    method FromConnectedPeer(g: Segment, e: Inputs) returns (out: Output)
      requires phase.SynRcvd? || phase.Established?
      requires FromPeer(View(), g) && !Has(g.flags, RST)
      modifies this
      ensures (View(), out) == OnSegment(old(View()), g, e)
    {
      if phase.SynRcvd? {
        if Has(g.flags, SYN) && !Has(g.flags, ACK) {
          var _, tried := Send(e.localIp, SYN + ACK, [], e.sendOk);
          return Output(2, [], tried);
        }
        if Has(g.flags, ACK) && g.ackNo as int == Next(seqNo) {
          seqNo := Next(seqNo);
          phase := Established;
          return Quiet(3);
        }
        return Quiet(0);
      }
      if Has(g.flags, FIN) {
        ackNo := Next(g.seqNo as int);
        var _, tried := Send(e.localIp, ACK, [], e.sendOk);
        Reset();
        return Output(5, [], tried);
      }
      if g.payload != [] {
        rxPackets := (rxPackets + 1) % WRAP;
        rxBytes := (rxBytes + |g.payload|) % WRAP;
        if g.seqNo as int == ackNo {
          var copy := |g.payload|;
          if copy > e.rxCap {
            copy := e.rxCap;
          }
          ackNo := (ackNo + |g.payload|) % WRAP;
          var _, tried := Send(e.localIp, ACK, [], e.sendOk);
          return Output(6, g.payload[..copy], tried);
        }
        var _, tried := Send(e.localIp, ACK, [], e.sendOk);
        return Output(7, [], tried);
      }
      if Has(g.flags, ACK) {
        return Quiet(8);
      }
      return Quiet(0);
    }
  }
}
