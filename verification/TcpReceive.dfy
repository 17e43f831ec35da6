/**
 The blocking receive loop of the TLS client (tcp_recv_bytes in kernel/drivers/netstack.c) with its
 deadline, which also expires when the timer stops.  The timer and the wire are arbitrary functions
 of how often they have been asked.
 */
module TcpReceive {
  import opened Machine
  import opened TcpServer
  import opened TcpRuns

  const TIMER_HZ: nat := 100
  const FALLBACK_WAITS_PER_MS: nat := 16

  ghost predicate NonDecreasing(clock: nat -> nat) {
    forall i: nat, j: nat :: i <= j ==> clock(i) <= clock(j)
  }

  /** The deadline globals: the last tick seen, and how many polls have seen no new tick. */
  class Deadlines {
    const clock: nat -> nat
    var readings: nat
    var lastTick: nat
    var fallbackUsed: nat
    var fallbackBudget: nat

    ghost predicate Valid()
      reads this
    {
      NonDecreasing(clock) && lastTick <= clock(readings)
    }

    /** The latest reading is past the deadline, or the timer stood still for the whole budget. */
    ghost predicate TimedOut(deadline: nat)
      reads this
    {
      readings > 0 && (clock(readings - 1) > deadline || fallbackUsed > fallbackBudget)
    }

    constructor (clock: nat -> nat)
      requires NonDecreasing(clock)
      ensures Valid() && this.clock == clock
    {
      this.clock := clock;
      readings, lastTick, fallbackUsed, fallbackBudget := 0, 0, 0, 0;
    }

    /** The deadline is the least whole number of ticks, at least one, that lasts `ms` milliseconds. */
    method FromMs(ms: nat) returns (deadline: nat)
      requires Valid()
      modifies this
      ensures Valid() && old(lastTick) <= lastTick == clock(old(readings)) && readings == old(readings) + 1
      ensures deadline - lastTick >= 1 && 10 * (deadline - lastTick) >= ms
      ensures deadline - lastTick > 1 ==> 10 * (deadline - lastTick - 1) < ms
      ensures fallbackUsed == 0 && fallbackBudget == 16 * ms + 512
    {
      var ticks := (ms * TIMER_HZ + 999) / 1000;
      var now := clock(readings);
      readings := readings + 1;
      if ticks == 0 {
        ticks := 1;
      }
      lastTick := now;
      fallbackUsed := 0;
      fallbackBudget := ms * FALLBACK_WAITS_PER_MS + 512;
      deadline := now + ticks;
    }

    /** True until the deadline has passed or the timer has stood still for the whole budget.
        Each true answer uses up a tick or, while the timer stands still, part of the budget. */
    method Before(deadline: nat) returns (before: bool)
      requires Valid()
      modifies this
      ensures Valid() && fallbackBudget == old(fallbackBudget)
      ensures before ==> old(lastTick) <= lastTick <= deadline
      ensures before && lastTick == old(lastTick) ==> old(fallbackUsed) < fallbackUsed <= fallbackBudget
      ensures var now := clock(old(readings));
        before <==> now <= deadline && (now != old(lastTick) || old(fallbackUsed) < fallbackBudget)
      ensures !before ==> TimedOut(deadline)
    {
      var now := clock(readings);
      readings := readings + 1;
      if now > deadline {
        return false;
      }
      if now != lastTick {
        lastTick := now;
        fallbackUsed := 0;
        return true;
      }
      if fallbackUsed >= fallbackBudget {
        fallbackUsed := fallbackUsed + 1;
        return false;
      }
      fallbackUsed := fallbackUsed + 1;
      return true;
    }
  }

  datatype Connection = Connection(remoteIp: u32, remotePort: u16, localPort: u16)

  predicate Ours(c: Connection, f: Frame) {
    f.Tcp? && f.segment.srcIp == c.remoteIp && f.segment.srcPort == c.remotePort && f.segment.dstPort == c.localPort
  }

  /** All the connection's data segments are cut from one stream. */
  ghost predicate HonestWire(wire: nat -> Frame, c: Connection, irs: nat, s: Bytes) {
    && |s| < WRAP
    && forall i: nat :: Ours(c, wire(i)) && wire(i).segment.payload != [] ==> CutFrom(wire(i).segment, irs, s)
  }

  /** An in-order segment continues the stream where the bytes received so far end. */
  lemma InOrder(g: Segment, irs: nat, s: Bytes, at: nat)
    requires CutFrom(g, irs, s) && |s| < WRAP && at <= |s|
    requires g.seqNo as int == (irs + 1 + at) % WRAP
    ensures at + |g.payload| <= |s| && g.payload == s[at..at + |g.payload|]
  {
    var off :| PieceAt(g, irs, s, off);
    SameOffset(irs, off, at);
  }

  lemma Continues(s: Bytes, from: nat, used: Bytes, g: Bytes, copy: nat)
    requires from + |used| + |g| <= |s| && used == s[from..from + |used|]
    requires g == s[from + |used|..from + |used| + |g|] && copy <= |g|
    ensures used + g[..copy] == s[from..from + |used| + copy]
  {
    var joined := used + g[..copy];
    assert forall i :: 0 <= i < |joined| ==> joined[i] == s[from + i];
  }

  /** `out` is the piece of stream `s` from offset `from` on, `acked` bytes of it have been
      acknowledged, and `ack` is the acknowledgement number that says so. */
  ghost predicate Position(out: Bytes, ack: nat, acked: nat, irs: nat, s: Bytes, from: nat) {
    && |out| <= acked && from + acked <= |s|
    && out == s[from..from + |out|]
    && ack == (irs + 1 + from + acked) % WRAP
  }

  lemma TakeSegment(g: Segment, out: Bytes, ack: nat, acked: nat, irs: nat, s: Bytes, from: nat, copy: nat)
    requires Position(out, ack, acked, irs, s, from) && acked == |out| && |s| < WRAP
    requires CutFrom(g, irs, s) && g.seqNo as int == ack && copy <= |g.payload|
    ensures Position(out + g.payload[..copy], (ack + |g.payload|) % WRAP, acked + |g.payload|, irs, s, from)
  {
    InOrder(g, irs, s, from + acked);
    Continues(s, from, out, g.payload, copy);
    AddMod32(ack, irs + 1 + from + acked, |g.payload|);
  }

  // ----- the specification: a fold over the frames received -----

  datatype Stop = Expired | Reset | Enough | Finished

  predicate InOrderData(c: Connection, f: Frame, ack: nat) {
    Ours(c, f) && !Has(f.segment.flags, RST) && f.segment.payload != [] && f.segment.seqNo as int == ack
  }

  function Taken(c: Connection, cap: nat, f: Frame, out: Bytes): Bytes
    requires f.Tcp? && |out| <= cap
  {
    out + f.segment.payload[..Min(|f.segment.payload|, cap - |out|)]
  }

  /** Output and acknowledgement number after the first `n` frames. */
  ghost function Fold(wire: nat -> Frame, c: Connection, cap: nat, ack: nat, n: nat): (r: (Bytes, nat))
    ensures |r.0| <= cap
  {
    if n == 0 then ([], ack)
    else
      var (out, a) := Fold(wire, c, cap, ack, n - 1);
      var f := wire(n - 1);
      if InOrderData(c, f, a) then (Taken(c, cap, f, out), (a + |f.segment.payload|) % WRAP) else (out, a)
  }

  /** A data frame of the connection, in order or not, is answered. */
  predicate Answered(c: Connection, f: Frame) {
    Ours(c, f) && !Has(f.segment.flags, RST) && f.segment.payload != []
  }

  /** The acknowledgement numbers sent for the data in the first `n` frames. */
  ghost function Acks(wire: nat -> Frame, c: Connection, cap: nat, ack: nat, n: nat): seq<nat> {
    if n == 0 then []
    else Acks(wire, c, cap, ack, n - 1) + if Answered(c, wire(n - 1)) then [Fold(wire, c, cap, ack, n).1] else []
  }

  /** Whether a frame ends the reception, and why. */
  function Judge(c: Connection, cap: nat, complete: Bytes -> bool, f: Frame, out: Bytes, ack: nat): Option<Stop>
    requires |out| <= cap
  {
    if !Ours(c, f) then None
    else if Has(f.segment.flags, RST) then Some(Reset)
    else if InOrderData(c, f, ack) && (|Taken(c, cap, f, out)| == cap || complete(Taken(c, cap, f, out))) then Some(Enough)
    else if Has(f.segment.flags, FIN) then Some(Finished)
    else None
  }

  ghost function Verdict(wire: nat -> Frame, c: Connection, cap: nat, ack: nat, complete: Bytes -> bool, n: nat): Option<Stop> {
    if n == 0 then None
    else
      var (out, a) := Fold(wire, c, cap, ack, n - 1);
      Judge(c, cap, complete, wire(n - 1), out, a)
  }

  /** One frame. */
  method TakeFrame(c: Connection, cap: nat, complete: Bytes -> bool, f: Frame, out: Bytes, ack: nat)
    returns (stop: Option<Stop>, out': Bytes, ack': nat, progress: bool, sent: seq<nat>)
    requires |out| <= cap
    ensures sent == (if Answered(c, f) then [ack'] else []) + (if stop == Some(Finished) then [Next(ack')] else [])
    ensures stop == Judge(c, cap, complete, f, out, ack)
    ensures progress == InOrderData(c, f, ack)
    ensures (out', ack') == if progress then (Taken(c, cap, f, out), (ack + |f.segment.payload|) % WRAP) else (out, ack)
    ensures stop.None? && progress ==> |out| < |out'| <= cap
  {
    hide Has;
    stop, out', ack', progress, sent := None, out, ack, false, [];
    if !f.Tcp? || !Ours(c, f) {
      return;
    }
    var g := f.segment;
    if Has(g.flags, RST) {
      stop := Some(Reset);
      return;
    }
    if g.payload != [] {
      if g.seqNo as int == ack {
        progress := true;
        var copy := Min(|g.payload|, cap - |out|);
        out' := out + g.payload[..copy];
        ack' := (ack + |g.payload|) % WRAP;
        sent := [ack'];
        if |out'| == cap || complete(out') {
          stop := Some(Enough);
          return;
        }
      } else {
        sent := [ack'];
      }
    }
    if Has(g.flags, FIN) {
      stop := Some(Finished);
      sent := sent + [Next(ack')];
    }
  }

  lemma FoldFrame(wire: nat -> Frame, c: Connection, cap: nat, ack: nat, complete: Bytes -> bool, n: nat)
    requires n > 0
    ensures var (out, a) := Fold(wire, c, cap, ack, n - 1);
      var f := wire(n - 1);
      && Verdict(wire, c, cap, ack, complete, n) == Judge(c, cap, complete, f, out, a)
      && Fold(wire, c, cap, ack, n)
         == if InOrderData(c, f, a) then (Taken(c, cap, f, out), (a + |f.segment.payload|) % WRAP) else (out, a)
  {
    hide Judge, Has, Taken;
  }

  /** The first `n` frames are in and none of them ends the reception. */
  ghost predicate Reached(wire: nat -> Frame, c: Connection, cap: nat, ack: nat, complete: Bytes -> bool,
                          n: nat, out: Bytes, a: nat) {
    && (out, a) == Fold(wire, c, cap, ack, n)
    && forall m :: 0 < m <= n ==> Verdict(wire, c, cap, ack, complete, m) == None
  }

  /** Frame `n` is the first that ends it; a FIN takes one more acknowledgement number. */
  ghost predicate Ended(wire: nat -> Frame, c: Connection, cap: nat, ack: nat, complete: Bytes -> bool,
                        n: nat, stop: Stop, out: Bytes, a: nat) {
    && Verdict(wire, c, cap, ack, complete, n) == Some(stop)
    && (forall m :: 0 < m < n ==> Verdict(wire, c, cap, ack, complete, m) == None)
    && var (o, last) := Fold(wire, c, cap, ack, n);
    && out == o && a == if stop == Finished then Next(last) else last
  }

  /** Frame number `n` of the run. */
  method NextFrame(wire: nat -> Frame, c: Connection, cap: nat, ghost ack: nat, complete: Bytes -> bool,
                   n: nat, out: Bytes, a: nat)
    returns (end: Option<Stop>, out': Bytes, a': nat, progress: bool, sent: seq<nat>)
    requires |out| <= cap && Reached(wire, c, cap, ack, complete, n, out, a)
    ensures end.None? ==> Reached(wire, c, cap, ack, complete, n + 1, out', a')
    ensures end.None? ==> |out'| <= cap && if progress then |out'| > |out| else out' == out
    ensures end.Some? ==> Ended(wire, c, cap, ack, complete, n + 1, end.value, out', a')
    ensures end != Some(Expired)
    ensures Acks(wire, c, cap, ack, n) + sent
         == Acks(wire, c, cap, ack, n + 1) + if end == Some(Finished) then [a'] else []
  {
    hide *;
    NotExpired(c, cap, complete, wire(n), out, a);
    end, out', a', progress, sent := TakeFrame(c, cap, complete, wire(n), out, a);
    AckStep(wire, c, cap, ack, complete, n, out, a, out', a');
    FrameStep(wire, c, cap, ack, complete, n, out, a, end, out', a');
    if end == Some(Finished) {
      a' := Next(a');
    }
  }

  lemma AckStep(wire: nat -> Frame, c: Connection, cap: nat, ack: nat, complete: Bytes -> bool,
                n: nat, out: Bytes, a: nat, out': Bytes, a': nat)
    requires |out| <= cap && Reached(wire, c, cap, ack, complete, n, out, a)
    requires (out', a') == if InOrderData(c, wire(n), a)
                           then (Taken(c, cap, wire(n), out), (a + |wire(n).segment.payload|) % WRAP) else (out, a)
    ensures Acks(wire, c, cap, ack, n + 1)
         == Acks(wire, c, cap, ack, n) + if Answered(c, wire(n)) then [a'] else []
  {
    hide Taken, Verdict, Has;
  }

  lemma FrameStep(wire: nat -> Frame, c: Connection, cap: nat, ack: nat, complete: Bytes -> bool,
                  n: nat, out: Bytes, a: nat, end: Option<Stop>, out': Bytes, a': nat)
    requires |out| <= cap && Reached(wire, c, cap, ack, complete, n, out, a)
    requires end == Judge(c, cap, complete, wire(n), out, a)
    requires (out', a') == if InOrderData(c, wire(n), a)
                           then (Taken(c, cap, wire(n), out), (a + |wire(n).segment.payload|) % WRAP) else (out, a)
    ensures end.None? ==> Reached(wire, c, cap, ack, complete, n + 1, out', a')
    ensures end.Some? ==> Ended(wire, c, cap, ack, complete, n + 1, end.value, out',
                                if end == Some(Finished) then Next(a') else a')
  {
    hide Judge, Taken, Fold, Verdict, Has;
    FoldFrame(wire, c, cap, ack, complete, n + 1);
  }

  lemma NotExpired(c: Connection, cap: nat, complete: Bytes -> bool, f: Frame, out: Bytes, ack: nat)
    requires |out| <= cap
    ensures Judge(c, cap, complete, f, out, ack) != Some(Expired)
  {
  }

  lemma Beginning(wire: nat -> Frame, c: Connection, cap: nat, ack: nat, complete: Bytes -> bool)
    ensures Reached(wire, c, cap, ack, complete, 0, [], ack)
  {
  }

  lemma NoAcks(wire: nat -> Frame, c: Connection, cap: nat, ack: nat)
    ensures Acks(wire, c, cap, ack, 0) == []
  {
  }

  /** Receives up to `cap` bytes.  Terminates whatever arrives and however the clock moves, because
      the deadline is re-armed only when the buffer has grown.  The first frame that calls for an
      end ends it, and otherwise the time: the deadline, which lies at least the waiting time (or
      the second granted after progress) after entry, has passed or the timer has stood still. */
  method RecvBytes(d: Deadlines, wire: nat -> Frame, c: Connection, ack: nat, cap: nat, waitMs: nat, complete: Bytes -> bool)
    returns (code: int, out: Bytes, ack': nat, acks: seq<nat>, ghost frames: nat, ghost stop: Stop, ghost deadline: nat)
    requires d.Valid()
    modifies d
    ensures stop != Expired ==> Ended(wire, c, cap, ack, complete, frames, stop, out, ack')
    ensures stop == Expired ==> Reached(wire, c, cap, ack, complete, frames, out, ack') && d.TimedOut(deadline)
    ensures code == if out != [] && stop != Reset then 0 else -1
    ensures acks == Acks(wire, c, cap, ack, frames) + if stop == Finished then [ack'] else []
    ensures 10 * (deadline - d.clock(old(d.readings))) >= Min(waitMs, 1000)
  {
    hide Reached, Ended, Deadlines.Valid, Deadlines.TimedOut, Acks;
    NoAcks(wire, c, cap, ack);
    out, ack', acks := [], ack, [];
    var count: nat := 0;
    ghost var entry := d.clock(d.readings);
    var until := d.FromMs(waitMs);
    Beginning(wire, c, cap, ack, complete);
    while true
      invariant d.Valid() && entry <= d.lastTick <= until && |out| <= cap
      invariant 10 * (until - entry) >= Min(waitMs, 1000)
      invariant Reached(wire, c, cap, ack, complete, count, out, ack') && acks == Acks(wire, c, cap, ack, count)
      decreases cap - |out|, until - d.lastTick, d.fallbackBudget - d.fallbackUsed
    {
      deadline := until;
      var before := d.Before(until);
      if !before {
        frames, stop := count, Expired;
        break;
      }
      var end, progress, sent;
      end, out, ack', progress, sent := NextFrame(wire, c, cap, ack, complete, count, out, ack');
      acks := acks + sent;
      count := count + 1;
      if end.Some? {
        frames, stop := count, end.value;
        if end == Some(Reset) {
          return -1, out, ack', acks, frames, stop, deadline;
        }
        break;
      }
      if progress {
        until := d.FromMs(1000);
      }
    }
    code := if out != [] then 0 else -1;
  }

  /** With an honest wire the output is the contiguous piece of the peer's stream that starts at the
      acknowledgement number on entry.  `acked` counts the payload bytes acknowledged: more than
      were stored only when the buffer is full. */
  lemma {:induction false} FoldIsStream(wire: nat -> Frame, c: Connection, cap: nat, ack: nat, complete: Bytes -> bool,
                                        irs: nat, s: Bytes, from: nat, n: nat) returns (acked: nat)
    requires HonestWire(wire, c, irs, s) && from <= |s| && ack == (irs + 1 + from) % WRAP
    requires forall m :: 0 < m < n ==> Verdict(wire, c, cap, ack, complete, m) == None
    ensures var (out, a) := Fold(wire, c, cap, ack, n);
      && Position(out, a, acked, irs, s, from) && |out| <= cap
      && (acked > |out| ==> |out| == cap)
      && (Verdict(wire, c, cap, ack, complete, n) == None ==> acked == |out|)
    decreases n
  {
    if n == 0 {
      acked := 0;
    } else {
      NoFrames(wire, c, cap, ack, complete);
      hide *;
      acked := FoldIsStream(wire, c, cap, ack, complete, irs, s, from, n - 1);
      acked := StreamFrame(wire, c, cap, ack, complete, irs, s, from, n, acked);
    }
  }

  /** One more frame. */
  lemma StreamFrame(wire: nat -> Frame, c: Connection, cap: nat, ack: nat, complete: Bytes -> bool,
                    irs: nat, s: Bytes, from: nat, n: nat, before: nat) returns (acked: nat)
    requires n > 0 && HonestWire(wire, c, irs, s)
    requires var (out, a) := Fold(wire, c, cap, ack, n - 1);
      Position(out, a, before, irs, s, from) && before == |out| <= cap
    ensures var (out, a) := Fold(wire, c, cap, ack, n);
      && Position(out, a, acked, irs, s, from) && |out| <= cap
      && (acked > |out| ==> |out| == cap)
      && (Verdict(wire, c, cap, ack, complete, n) == None ==> acked == |out|)
  {
    FoldFrame(wire, c, cap, ack, complete, n);
    hide Position, CutFrom, Has, Next, Fold, Verdict;
    var (out, a) := Fold(wire, c, cap, ack, n - 1);
    var f := wire(n - 1);
    acked := before;
    if InOrderData(c, f, a) {
      TakeSegment(f.segment, out, a, before, irs, s, from, Min(|f.segment.payload|, cap - |out|));
      acked := before + |f.segment.payload|;
    }
  }

  lemma NoFrames(wire: nat -> Frame, c: Connection, cap: nat, ack: nat, complete: Bytes -> bool)
    ensures Verdict(wire, c, cap, ack, complete, 0) == None
  {
  }

  /** What RecvBytes returns on an honest wire, however it ended: the piece of the peer's stream that
      starts where the connection stood on entry. */
  lemma ReceivedIsStream(wire: nat -> Frame, c: Connection, cap: nat, ack: nat, complete: Bytes -> bool,
                         irs: nat, s: Bytes, from: nat, frames: nat, stop: Stop, out: Bytes, ack': nat)
    requires HonestWire(wire, c, irs, s) && from <= |s| && ack == (irs + 1 + from) % WRAP
    requires if stop == Expired then Reached(wire, c, cap, ack, complete, frames, out, ack')
             else Ended(wire, c, cap, ack, complete, frames, stop, out, ack')
    ensures from + |out| <= |s| && out == s[from..from + |out|] && |out| <= cap
    ensures stop == Expired ==> ack' == (irs + 1 + from + |out|) % WRAP
  {
    NoFrames(wire, c, cap, ack, complete);
    hide HonestWire, Fold, Verdict;
    var acked := FoldIsStream(wire, c, cap, ack, complete, irs, s, from, frames);
  }

  /** The receive loop against one peer stream. */
  method RecvStream(d: Deadlines, wire: nat -> Frame, c: Connection, ack: nat, cap: nat, waitMs: nat,
                    complete: Bytes -> bool, ghost irs: nat, ghost s: Bytes, ghost from: nat)
    returns (code: int, out: Bytes, ack': nat)
    requires d.Valid() && HonestWire(wire, c, irs, s) && from <= |s| && ack == (irs + 1 + from) % WRAP
    modifies d
    ensures from + |out| <= |s| && out == s[from..from + |out|] && |out| <= cap
    ensures code == 0 ==> out != []
  {
    hide HonestWire, Reached, Ended, Deadlines.Valid, Deadlines.TimedOut;
    ghost var frames, stop, deadline;
    var acks;
    code, out, ack', acks, frames, stop, deadline := RecvBytes(d, wire, c, ack, cap, waitMs, complete);
    ReceivedIsStream(wire, c, cap, ack, complete, irs, s, from, frames, stop, out, ack');
  }

  // ----- what is acknowledged -----

  /** A frame of the connection: from the remote host and port to the local port. */
  ghost predicate FromRemote(c: Connection, f: Frame) {
    f.Tcp? && f.segment.srcIp == c.remoteIp && f.segment.srcPort == c.remotePort && f.segment.dstPort == c.localPort
  }

  /** Frame by frame: data of the connection without RST is answered with the number reached, whether it
      was in order or not; nothing else is. */
  lemma AckOfFrame(wire: nat -> Frame, c: Connection, cap: nat, ack: nat, n: nat)
    requires n > 0
    ensures Acks(wire, c, cap, ack, n)
         == Acks(wire, c, cap, ack, n - 1)
            + if FromRemote(c, wire(n - 1)) && !Has(wire(n - 1).segment.flags, RST) && wire(n - 1).segment.payload != []
              then [Fold(wire, c, cap, ack, n).1] else []
  {
    hide Has, Fold;
  }

  // ----- when it ends -----

  /** One frame: data of the connection that continues it is appended as far as there is room, and
      acknowledged whole; any other frame changes nothing. */
  lemma FrameTaken(wire: nat -> Frame, c: Connection, cap: nat, ack: nat, n: nat)
    requires n > 0
    ensures var (out, a) := Fold(wire, c, cap, ack, n - 1);
      var f := wire(n - 1);
      Fold(wire, c, cap, ack, n)
      == if FromRemote(c, f) && !Has(f.segment.flags, RST) && f.segment.seqNo as int == a
         then (out + f.segment.payload[..Min(|f.segment.payload|, cap - |out|)],
               if f.segment.payload == [] then a else (a + |f.segment.payload|) % WRAP)
         else (out, a)
  {
    hide Has;
    var (out, a) := Fold(wire, c, cap, ack, n - 1);
    assert out + [] == out;
  }

  /** Frames that pass without an end come from elsewhere or carry neither RST nor FIN. */
  lemma PassesIf(wire: nat -> Frame, c: Connection, cap: nat, ack: nat, complete: Bytes -> bool, n: nat)
    requires n > 0 && Verdict(wire, c, cap, ack, complete, n) == None
    ensures FromRemote(c, wire(n - 1)) ==>
      !Has(wire(n - 1).segment.flags, RST) && !Has(wire(n - 1).segment.flags, FIN)
  {
    hide Has, Taken;
  }

  /** The frame that ends the reception is the first of the connection with RST or FIN, or the one that
      completes the data: RST ends it as reset whatever else, completion before FIN, and a FIN is
      acknowledged as one more number. */
  lemma EndedBy(wire: nat -> Frame, c: Connection, cap: nat, ack: nat, complete: Bytes -> bool,
                n: nat, stop: Stop, out: Bytes, a: nat)
    requires Ended(wire, c, cap, ack, complete, n, stop, out, a)
    ensures n > 0 && FromRemote(c, wire(n - 1)) && stop != Expired
    ensures var flags := wire(n - 1).segment.flags;
      && (stop == Reset <==> Has(flags, RST))
      && (stop == Enough ==> |out| == cap || complete(out))
      && (stop == Finished ==> Has(flags, FIN) && a == (Fold(wire, c, cap, ack, n).1 + 1) % WRAP)
      && (stop != Finished ==> a == Fold(wire, c, cap, ack, n).1)
    ensures forall m :: 0 <= m < n - 1 && FromRemote(c, wire(m)) ==>
              !Has(wire(m).segment.flags, RST) && !Has(wire(m).segment.flags, FIN)
  {
    hide Has, Verdict, Fold;
    LastJudged(wire, c, cap, ack, complete, n, stop);
    EarlierPass(wire, c, cap, ack, complete, n - 1);
  }

  lemma LastJudged(wire: nat -> Frame, c: Connection, cap: nat, ack: nat, complete: Bytes -> bool, n: nat, stop: Stop)
    requires Verdict(wire, c, cap, ack, complete, n) == Some(stop)
    ensures n > 0 && FromRemote(c, wire(n - 1)) && stop != Expired
    ensures stop == Reset <==> Has(wire(n - 1).segment.flags, RST)
    ensures stop == Finished ==> Has(wire(n - 1).segment.flags, FIN)
    ensures var out := Fold(wire, c, cap, ack, n).0; stop == Enough ==> |out| == cap || complete(out)
  {
    hide Has;
  }

  lemma EarlierPass(wire: nat -> Frame, c: Connection, cap: nat, ack: nat, complete: Bytes -> bool, n: nat)
    requires forall m :: 0 < m <= n ==> Verdict(wire, c, cap, ack, complete, m) == None
    ensures forall m :: 0 <= m < n && FromRemote(c, wire(m)) ==>
              !Has(wire(m).segment.flags, RST) && !Has(wire(m).segment.flags, FIN)
  {
    hide Has, Verdict;
    forall m | 0 <= m < n && FromRemote(c, wire(m))
      ensures !Has(wire(m).segment.flags, RST) && !Has(wire(m).segment.flags, FIN)
    {
      PassesIf(wire, c, cap, ack, complete, m + 1);
    }
  }

  /** While it goes on, the data is neither complete nor the buffer full. */
  lemma GoesOn(wire: nat -> Frame, c: Connection, cap: nat, ack: nat, complete: Bytes -> bool, n: nat, out: Bytes, a: nat)
    requires Reached(wire, c, cap, ack, complete, n, out, a) && out != []
    ensures |out| < cap && !complete(out)
    decreases n
  {
    if n > 0 {
      var (o, b) := Fold(wire, c, cap, ack, n - 1);
      assert Verdict(wire, c, cap, ack, complete, n) == None;
      hide Has;
      if !InOrderData(c, wire(n - 1), b) {
        GoesOn(wire, c, cap, ack, complete, n - 1, o, b);
      }
    }
  }
}
