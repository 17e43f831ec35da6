/**
 Whole runs of the Limine installer over the cached device: any sequence of reads, writes and
 flushes, ended by success or by an abort, against a flat byte array.
 */
module InstallRun {
  import opened Machine
  import opened Journal
  import opened BlockCache

  datatype Op = ReadOp(loc: nat, count: nat) | WriteOp(loc: nat, data: Bytes) | FlushOp

  predicate Addressable(op: Op) {
    match op
    case ReadOp(loc, count) => loc <= NO_BLOCK && count <= NO_BLOCK
    case WriteOp(loc, data) => loc <= NO_BLOCK && |data| <= NO_BLOCK
    case FlushOp => true
  }

  /** A flat byte array after one operation. */
  function FlatStep(s: Bytes, op: Op): Bytes {
    match op
    case WriteOp(loc, data) => Patched(s, Record(loc, data))
    case _ => s
  }

  function FlatDisk(s: Bytes, ops: seq<Op>): Bytes {
    if ops == [] then s else FlatStep(FlatDisk(s, ops[..|ops| - 1]), ops[|ops| - 1])
  }

  /** `data` is what a flat array gives for a read. */
  predicate FlatRead(s: Bytes, op: Op, data: Bytes) {
    op.ReadOp? ==>
      |data| == op.count && (op.count > 0 ==> op.loc + op.count <= |s| && data == s[op.loc..op.loc + op.count])
  }

  /** `results[i]` is what operation `i` reads from a flat array that has taken the operations
      before it. */
  ghost predicate FlatReads(s: Bytes, ops: seq<Op>, results: seq<Bytes>) {
    && |results| <= |ops|
    && forall i :: 0 <= i < |results| ==> FlatRead(FlatDisk(s, ops[..i]), ops[i], results[i])
  }

  lemma FlatOneMore(s: Bytes, ops: seq<Op>, i: nat)
    requires i < |ops|
    ensures FlatDisk(s, ops[..i + 1]) == FlatStep(FlatDisk(s, ops[..i]), ops[i])
  {
    assert ops[..i + 1][..i] == ops[..i];
  }

  lemma FlatReadsAppend(s: Bytes, ops: seq<Op>, results: seq<Bytes>, data: Bytes)
    requires FlatReads(s, ops, results) && |results| < |ops|
    requires FlatRead(FlatDisk(s, ops[..|results|]), ops[|results|], data)
    ensures FlatReads(s, ops, results + [data])
  {
    hide FlatDisk, FlatRead;
  }

  /** Journal records a run leaves. */
  function Writes(ops: seq<Op>): nat {
    if ops == [] then 0 else Writes(ops[..|ops| - 1]) + if ops[|ops| - 1].WriteOp? then 1 else 0
  }

  lemma {:induction false} WritesGrow(ops: seq<Op>, i: nat)
    requires i < |ops|
    ensures Writes(ops[..i + 1]) == Writes(ops[..i]) + if ops[i].WriteOp? then 1 else 0
    ensures Writes(ops[..i + 1]) <= Writes(ops)
    decreases |ops| - i
  {
    assert ops[..i + 1][..i] == ops[..i];
    if i + 1 < |ops| {
      WritesGrow(ops, i + 1);
    } else {
      assert ops[..i + 1] == ops;
    }
  }

  datatype Outcome = Installed | RolledBack(restored: bool)

  /** One operation on the device. */
  method Perform(dev: Device, op: Op) returns (ok: bool, data: Bytes)
    requires Addressable(op) && !dev.uninstalling
    requires dev.Valid() && dev.JournalFits() && dev.Coherent() && dev.Undoable() && dev.lo == dev.hi == 0
    modifies dev`disk, dev`cacheState, dev`cachedBlock, dev`journal, dev`lo, dev`hi, dev`faults, dev.cache
    ensures dev.Valid() && dev.JournalFits() && dev.Undoable() && |dev.disk| == old(|dev.disk|)
    ensures ok ==> dev.Coherent() && dev.lo == dev.hi == 0
    ensures ok ==> dev.Logical() == FlatStep(old(dev.Logical()), op) && FlatRead(old(dev.Logical()), op, data)
    ensures ok && op.FlushOp? ==> dev.disk == dev.Logical()
    ensures ok ==> |dev.journal| == old(|dev.journal|) + if op.WriteOp? then 1 else 0
    ensures old(dev.journal) <= dev.journal
    ensures ok && op.WriteOp? ==> |dev.journal[old(|dev.journal|)].data| == |op.data|
    ensures dev.faults >= old(dev.faults) && (!ok ==> dev.journal == old(dev.journal))
    ensures !ok ==> dev.faults > old(dev.faults) || (op.WriteOp? && old(|dev.journal|) == UNINSTALL_DATA_MAX)
    ensures !ok && !(dev.lo == dev.hi == 0) ==>
              dev.faults > old(dev.faults)
              && op.WriteOp? && dev.lo == op.loc && dev.hi == op.loc + |op.data|
              && op.loc % dev.blockSize + |op.data| > dev.blockSize
  {
    ghost var d0, l0 := dev.disk, dev.Logical();
    ghost var rs, orig := dev.journal, dev.original;
    hide Device.Logical, Device.Coherent, Recoverable, Patched;
    data := [];
    match op
    case ReadOp(loc, count) =>
      ok, data := dev.Read(loc, count);
      RecoverableMove(rs, orig, d0, l0, dev.disk, 0, 0);
    case WriteOp(loc, bytes) =>
      ok := dev.Write(loc, bytes);
    case FlushOp =>
      ok := dev.FlushCache();
      RecoverableMove(rs, orig, d0, l0, dev.disk, 0, 0);
  }

  lemma StartOfRun(dev: Device, ops: seq<Op>)
    requires dev.Fresh()
    ensures dev.Valid() && dev.JournalFits() && dev.Coherent() && dev.Undoable() && dev.lo == dev.hi == 0
    ensures !dev.uninstalling && dev.Logical() == FlatDisk(dev.original, ops[..0])
    ensures |dev.journal| == Writes(ops[..0]) && FlatReads(dev.original, ops, [])
  {
  }

  /** The part of the run before the final flush.  Stops at the first failure. */
  method PerformAll(dev: Device, ops: seq<Op>) returns (ok: bool, results: seq<Bytes>)
    requires forall i :: 0 <= i < |ops| ==> Addressable(ops[i])
    requires dev.Fresh()
    modifies dev`disk, dev`cacheState, dev`cachedBlock, dev`journal, dev`lo, dev`hi, dev`faults, dev.cache
    ensures dev.Valid() && dev.JournalFits() && dev.Undoable()
    ensures FlatReads(dev.original, ops, results)
    ensures ok ==> dev.Coherent() && dev.lo == dev.hi == 0 && dev.Logical() == FlatDisk(dev.original, ops)
    ensures ok ==> |dev.journal| == Writes(ops)
    ensures dev.faults >= old(dev.faults)
    ensures !ok ==> dev.faults > old(dev.faults) || Writes(ops) > UNINSTALL_DATA_MAX
    ensures !ok && !(dev.lo == dev.hi == 0) ==>
              dev.faults > old(dev.faults)
              && |results| < |ops| && ops[|results|].WriteOp?
              && dev.lo == ops[|results|].loc && dev.hi == dev.lo + |ops[|results|].data|
              && dev.lo % dev.blockSize + |ops[|results|].data| > dev.blockSize
  {
    hide Device.Logical, Device.Coherent, Device.Undoable, FlatStep, FlatRead, FlatReads, FlatDisk, Writes,
      Device.Fresh, Device.JournalFits, Device.Valid, Addressable;
    ghost var s := dev.original;
    results := [];
    StartOfRun(dev, ops);
    for i := 0 to |ops|
      invariant dev.Valid() && dev.JournalFits() && dev.Undoable() && dev.Coherent() && dev.lo == dev.hi == 0
      invariant dev.original == s && |results| == i && FlatReads(s, ops, results)
      invariant dev.Logical() == FlatDisk(s, ops[..i]) && !dev.uninstalling
      invariant |dev.journal| == Writes(ops[..i]) && dev.faults >= old(dev.faults)
    {
      WritesGrow(ops, i);
      var good, data := Perform(dev, ops[i]);
      if !good {
        return false, results;
      }
      FlatOneMore(s, ops, i);
      FlatReadsAppend(s, ops, results, data);
      results := results + [data];
    }
    assert ops[..|ops|] == ops;
    return true, results;
  }

  /** A whole installation: the operations, a final flush, and on any failure the rollback.
      - every read sees the flat disk;
      - on success the medium is the flat disk after all writes, and the journal it leaves,
        replayed in its stored order, gives the original back;
      - it fails only if an access failed or the journal is too small for the writes;
      - after a completed rollback every byte outside a half-done write is the original one, and a
        half-done write can only be one that spans a block boundary and met a failed access.
      So without a failed access it succeeds if and only if it writes at most 256 times, and
      otherwise restores everything. */
  method Install(dev: Device, ops: seq<Op>) returns (outcome: Outcome, results: seq<Bytes>)
    requires forall i :: 0 <= i < |ops| ==> Addressable(ops[i])
    requires dev.Fresh()
    modifies dev`disk, dev`cacheState, dev`cachedBlock, dev`journal, dev`lo, dev`hi, dev`uninstalling, dev`faults, dev.cache
    ensures FlatReads(dev.original, ops, results) && |dev.disk| == |dev.original|
    ensures dev.original == old(dev.original)
    ensures outcome.Installed? ==> dev.JournalFits() && dev.disk == FlatDisk(dev.original, ops)
                                   && Replay(dev.disk, dev.journal) == dev.original && |dev.journal| == Writes(ops)
    ensures !outcome.Installed? ==> dev.faults > old(dev.faults) || Writes(ops) > UNINSTALL_DATA_MAX
    ensures outcome == RolledBack(false) ==> dev.faults > old(dev.faults)
    ensures outcome == RolledBack(true) ==>
              forall x :: 0 <= x < |dev.original| && !(dev.lo <= x < dev.hi) ==> dev.disk[x] == dev.original[x]
    ensures dev.lo == dev.hi == 0
            || (dev.faults > old(dev.faults) && |results| < |ops| && ops[|results|].WriteOp?
                && dev.lo == ops[|results|].loc && dev.hi == dev.lo + |ops[|results|].data|
                && dev.lo % dev.blockSize + |ops[|results|].data| > dev.blockSize)
  {
    var ok;
    ok, results := PerformAll(dev, ops);
    ghost var d0, l0 := dev.disk, dev.Logical();
    hide Device.Logical, Device.Coherent, Recoverable, FlatReads, FlatDisk, Replay, Reverse;
    if ok {
      ok := dev.FlushCache();
      RecoverableMove(dev.journal, dev.original, d0, l0, dev.disk, 0, 0);
    }
    if ok {
      WholeRollback(dev.journal, dev.original, dev.disk, l0);
      dev.ReverseJournal();
      return Installed, results;
    }
    var restored := dev.Abort();
    return RolledBack(restored), results;
  }

  lemma WholeRollback(rs: seq<Record>, original: Bytes, disk: Bytes, logical: Bytes)
    requires Recoverable(rs, original, disk, logical, 0, 0)
    ensures |disk| == |original| && Replay(disk, Reverse(rs)) == original
  {
    forall x | 0 <= x < |original|
      ensures Replay(disk, Reverse(rs))[x] == original[x]
    {
      RollbackRestores(rs, original, disk, logical, 0, 0, x);
    }
  }
}
