/**
 The synchronous NVMe queue pair of kernel/drivers/storage.c: submission and completion rings of
 one depth, and the phase bit by which the driver recognises a new completion (section 4.6 of NVM
 Express 1.4).  The controller runs concurrently and completes commands in order, with any status.
 */
module NvmeQueue {
  import opened Machine
  import opened ModArith

  datatype Command = Command(opcode: u8, cid: u16, nsid: u32, prp1: u64, prp2: u64, lba: u64)

  /** A completion entry; bit 0 of `status` is the phase. */
  datatype Completion = Completion(cid: u16, status: nat)

  datatype Outcome = Done(status: nat) | CidMismatch | TimedOut

  const POLL_LIMIT: nat := 10_000_000

  /** The phase of the `n`-th completion: 1 in the first lap, flipped once per lap. */
  function Phase(n: nat, depth: nat): nat
    requires depth > 0
  {
    1 - (n / depth) % 2
  }

  /** One in the first lap, zero in the second. */
  lemma FirstLaps(n: nat, depth: nat)
    requires depth > 0
    ensures n < depth ==> Phase(n, depth) == 1
    ensures depth <= n < 2 * depth ==> Phase(n, depth) == 0
  {
    if n < depth {
      ModUnique(n, depth, 0, n);
    } else if n < 2 * depth {
      ModUnique(n, depth, 1, n - depth);
    }
  }

  /** The phase bits in the completion ring after `n` completions: new in the part of the current
      lap already written, old elsewhere. */
  ghost predicate PhaseBits(cq: seq<Completion>, n: nat) {
    && |cq| > 0
    && forall j :: 0 <= j < |cq| ==>
         cq[j].status % 2 == if j < n % |cq| then Phase(n, |cq|) else 1 - Phase(n, |cq|)
  }

  lemma NextLap(n: nat, d: nat)
    requires d > 0
    ensures n % d + 1 < d ==> (n + 1) % d == n % d + 1 && (n + 1) / d == n / d
    ensures n % d + 1 == d ==> (n + 1) % d == 0 && (n + 1) / d == n / d + 1
    ensures (n % d + 1) % d == (n + 1) % d
  {
    var q, r := n / d, n % d;
    if r + 1 < d {
      ModUnique(n + 1, d, q, r + 1);
      Small(r + 1, d);
    } else {
      Distribute(q, 1, d);
      ModUnique(n + 1, d, q + 1, 0);
      ModUnique(d, d, 1, 0);
    }
  }

  /** The driver's rule: flip the expected phase when the head index returns to zero. */
  lemma PhaseStep(n: nat, d: nat)
    requires d > 0
    ensures Phase(n + 1, d) == if (n + 1) % d == 0 then 1 - Phase(n, d) else Phase(n, d)
  {
    NextLap(n, d);
  }

  /** Polling looks at an entry of the previous lap until the controller has written this one. */
  lemma StaleEntry(cq: seq<Completion>, n: nat)
    requires PhaseBits(cq, n)
    ensures cq[n % |cq|].status % 2 != Phase(n, |cq|)
  {
  }

  lemma PhaseBitsWrite(cq: seq<Completion>, n: nat, e: Completion)
    requires PhaseBits(cq, n) && e.status % 2 == Phase(n, |cq|)
    ensures PhaseBits(cq[n % |cq| := e], n + 1)
  {
    NextLap(n, |cq|);
    PhaseStep(n, |cq|);
    hide Phase;
  }

  /** Rings of at least two entries: with one the tail, and so the doorbell, would never change. */
  class QueuePair {
    const depth: nat
    var sq: seq<Command>
    var cq: seq<Completion>
    var sqTail: nat
    var cqHead: nat
    var cqPhase: nat

    /** The doorbell as the controller counts it, the commands it has completed, and with what
        status. */
    var rung: nat
    var log: seq<(Command, nat)>

    /** How often the completion ring has been polled. */
    ghost var polls: nat

    /** After `n` completions every index and the phase are functions of `n`. */
    ghost predicate Lockstep()
      reads this
    {
      && 2 <= depth <= 0xFFFF && |sq| == |cq| == depth
      && rung == |log|
      && sqTail == |log| % depth && cqHead == |log| % depth && cqPhase == Phase(|log|, depth)
      && PhaseBits(cq, |log|)
    }

    constructor (depth: nat)
      requires 2 <= depth <= 0xFFFF
      ensures Lockstep() && log == [] && this.depth == depth
    {
      this.depth := depth;
      sq := seq(depth, _ => Command(0, 0, 0, 0, 0, 0));
      cq := seq(depth, _ => Completion(0, 0));
      sqTail, cqHead, cqPhase, rung, log := 0, 0, 1, 0, [];
      polls := 0;
      Small(0, depth);
    }

    /** One command is outstanding: `n` were completed before it. */
    ghost predicate Waiting(n: nat, cmd: Command)
      reads this
    {
      && 2 <= depth <= 0xFFFF && |sq| == |cq| == depth && rung == n + 1
      && sq[n % depth] == cmd
      && cqHead == n % depth && cqPhase == Phase(n, depth)
      && PhaseBits(cq, |log|)
      && (|log| == n || (|log| == n + 1 && log[n].0 == cmd
                         && cq[n % depth] == Completion(cmd.cid, 2 * log[n].1 + Phase(n, depth))))
    }

    /** The controller may complete the outstanding command, with any status. */
    method ControllerMoves(ghost n: nat, ghost cmd: Command)
      requires Waiting(n, cmd)
      modifies this`cq, this`log, this`polls
      ensures Waiting(n, cmd) && old(log) <= log && polls == old(polls) + 1
    {
      polls := polls + 1;
      var acts: bool := *;
      var status: int := *;
      if acts && |log| < rung && status >= 0 {
        var k := |log|;
        var e := Completion(sq[k % depth].cid, 2 * status + Phase(k, depth));
        PhaseBitsWrite(cq, k, e);
        hide PhaseBits;
        cq := cq[k % depth := e];
        log := log + [(sq[k % depth], status)];
      }
    }

    /** The entry at the head shows the expected phase exactly when the command is completed, and
        then it is the command's own. */
    lemma EntryIsNew(n: nat, cmd: Command)
      requires Waiting(n, cmd)
      ensures cq[cqHead].status % 2 == cqPhase <==> |log| == n + 1
      ensures |log| == n + 1 ==> cq[cqHead].cid == cmd.cid && cq[cqHead].status / 2 == log[n].1
    {
      hide PhaseBits, Phase;
      PhaseIsBit(n, depth);
      if |log| == n {
        StaleEntry(cq, n);
      } else {
        LowBit(log[n].1, Phase(n, depth));
      }
    }

    /** Submits one command and polls for its completion.  Whatever the controller's pace, the
        entry accepted is the one for this command, so the identifiers never disagree; only a
        command still not completed at the last poll ends the lockstep. */
    method SubmitSync(cmdIn: Command, nextCid: u16) returns (r: Outcome, nextCid': u16)
      requires Lockstep() && nextCid != 0
      modifies this
      ensures nextCid' == if nextCid == 0xFFFF then 1 else nextCid + 1
      ensures !r.CidMismatch?
      ensures polls >= old(polls)
      ensures r.Done? ==> Lockstep() && log == old(log) + [(cmdIn.(cid := nextCid), r.status)]
      ensures r.TimedOut? ==> sqTail == (old(|log|) + 1) % depth && polls == old(polls) + POLL_LIMIT && log == old(log)
    {
      hide PhaseBits, Phase;
      ghost var n := |log|;
      nextCid' := if nextCid == 0xFFFF then 1 else nextCid + 1;
      var cmd := cmdIn.(cid := nextCid);
      sq := sq[sqTail := cmd];
      NextLap(n, depth);
      sqTail := (sqTail + 1) % depth;
      rung := rung + 1;
      for i := 0 to POLL_LIMIT
        invariant Waiting(n, cmd) && log == old(log)
        invariant sqTail == (n + 1) % depth && polls == old(polls) + i
      {
        ControllerMoves(n, cmd);
        EntryIsNew(n, cmd);
        var entry := cq[cqHead];
        if entry.status % 2 == cqPhase {
          var status := entry.status / 2;
          if entry.cid != nextCid {
            return CidMismatch, nextCid';
          }
          PhaseStep(n, depth);
          cqHead := (cqHead + 1) % depth;
          if cqHead == 0 {
            cqPhase := 1 - cqPhase;
          }
          return Done(status), nextCid';
        }
      }
      return TimedOut, nextCid';
    }
  }

  lemma LowBit(status: nat, bit: nat)
    requires bit == 0 || bit == 1
    ensures (2 * status + bit) % 2 == bit && (2 * status + bit) / 2 == status
  {
  }

  lemma PhaseIsBit(n: nat, d: nat)
    requires d > 0
    ensures Phase(n, d) == 0 || Phase(n, d) == 1
  {
  }

  /** The first `|results|` commands were executed in order, each with the status reported. */
  ghost predicate Reported(log: seq<(Command, nat)>, cmds: seq<Command>, results: seq<nat>) {
    && |results| <= |log| && |results| <= |cmds|
    && forall i :: 0 <= i < |results| ==>
         log[i].1 == results[i] && log[i].0 == cmds[i].(cid := log[i].0.cid)
  }

  lemma ReportedMore(log: seq<(Command, nat)>, log': seq<(Command, nat)>, cmds: seq<Command>, results: seq<nat>,
                     cid: u16, status: nat)
    requires Reported(log, cmds, results) && |log| == |results| < |cmds|
    requires log' == log + [(cmds[|results|].(cid := cid), status)]
    ensures Reported(log', cmds, results + [status])
  {
  }

  /** A whole run of submissions, cut short by the first timeout. */
  method SubmitAll(q: QueuePair, cmds: seq<Command>, nextCid: u16) returns (results: seq<nat>)
    requires q.Lockstep() && nextCid != 0 && q.log == []
    modifies q
    ensures Reported(q.log, cmds, results)
    ensures |results| == |cmds| ==> q.Lockstep() && |q.log| == |cmds|
    ensures |results| < |cmds| ==> q.polls >= old(q.polls) + POLL_LIMIT
  {
    results := [];
    assert Reported(q.log, cmds, results);
    hide QueuePair.Lockstep, Reported;
    var cid := nextCid;
    for i := 0 to |cmds|
      invariant q.Lockstep() && cid != 0 && |results| == |q.log| == i
      invariant Reported(q.log, cmds, results) && q.polls >= old(q.polls)
    {
      ghost var log := q.log;
      ghost var used := cid;
      var r;
      r, cid := q.SubmitSync(cmds[i], cid);
      if !r.Done? {
        return;
      }
      ReportedMore(log, q.log, cmds, results, used, r.status);
      results := results + [r.status];
    }
  }
}
