/** The GPT branch of bios_install in limine/limine.c, on the cached and journalled device. */
module GptInstall {
  import opened Machine
  import opened ModArith
  import opened Endian
  import opened Journal
  import opened BlockCache
  import opened InstallRun
  import UninstallFile
  import opened GptLayout
  import opened GptContents
  import Crc32

  /** Between two operations of a run without failures. */
  ghost predicate Ready(dev: Device)
    reads dev, dev.cache
  {
    && dev.Valid() && dev.JournalFits() && !dev.uninstalling
    && dev.Coherent() && dev.Undoable() && dev.lo == dev.hi == 0
  }

  /** After a failure: ready for the rollback. */
  ghost predicate Abortable(dev: Device)
    reads dev, dev.cache
  {
    dev.Valid() && dev.JournalFits() && dev.Undoable()
  }

  /** Why writing stopped: an access failed, or the undo journal cannot hold `needed` records, and
      then no write was left half done. */
  ghost predicate Blamed(dev: Device, faults: nat, needed: int)
    reads dev`faults, dev`lo, dev`hi
  {
    dev.faults > faults || (needed > UNINSTALL_DATA_MAX && dev.lo == dev.hi == 0)
  }

  /** The bytes `[lo, hi)` do not lie in one block. */
  predicate Spans(lo: nat, hi: nat, blockSize: nat) {
    blockSize > 0 && lo % blockSize + hi - lo > blockSize
  }

  /** No byte changed without a record, except perhaps those of one write, `[lo, hi)`, which then
      spans blocks. */
  ghost predicate Damaged(dev: Device, lo: nat, hi: nat)
    reads dev`lo, dev`hi, dev`blockSize
  {
    dev.lo == dev.hi == 0 || (dev.lo == lo && dev.hi == hi && Spans(lo, hi, dev.blockSize))
  }

  /** The device as the run sees it. */
  ghost function View(dev: Device): (s: Bytes)
    requires Ready(dev)
    reads dev, dev.cache
    ensures |s| == |dev.disk|
  {
    dev.Logical()
  }

  lemma ReadyToAbort(dev: Device)
    requires Ready(dev)
    ensures Abortable(dev) && dev.lo == dev.hi == 0
  {
  }

  /** Some record holds no byte. */
  ghost predicate HasEmpty(rs: seq<Record>) {
    exists i :: 0 <= i < |rs| && rs[i].data == []
  }

  lemma EmptyPushed(rs: seq<Record>, rs': seq<Record>)
    requires rs <= rs' && |rs'| == |rs| + 1
    ensures HasEmpty(rs') <==> HasEmpty(rs) || rs'[|rs|].data == []
  {
    assert forall i :: 0 <= i < |rs| ==> rs'[i] == rs[i];
  }

  /** device_read. */
  method Get(dev: Device, loc: nat, count: nat) returns (ok: bool, data: Bytes)
    requires Ready(dev) && loc <= NO_BLOCK && count <= NO_BLOCK
    modifies dev`disk, dev`cacheState, dev`cachedBlock, dev`journal, dev`lo, dev`hi, dev`faults, dev.cache
    ensures Abortable(dev) && |dev.disk| == old(|dev.disk|) && dev.lo == dev.hi == 0
    ensures dev.faults >= old(dev.faults) && (!ok ==> dev.faults > old(dev.faults))
    ensures dev.journal == old(dev.journal)
    ensures ok ==> Ready(dev) && View(dev) == old(View(dev))
    ensures ok ==> |data| == count && (count > 0 ==> loc + count <= |dev.disk| && data == View(dev)[loc..loc + count])
  {
    hide Device.Logical, Device.Coherent, Device.Undoable;
    ok, data := Perform(dev, ReadOp(loc, count));
  }

  /** device_write. */
  method Put(dev: Device, loc: nat, data: Bytes) returns (ok: bool)
    requires Ready(dev) && loc <= NO_BLOCK && |data| <= NO_BLOCK
    modifies dev`disk, dev`cacheState, dev`cachedBlock, dev`journal, dev`lo, dev`hi, dev`faults, dev.cache
    ensures Abortable(dev) && |dev.disk| == old(|dev.disk|)
    ensures dev.faults >= old(dev.faults) && (!ok ==> Blamed(dev, old(dev.faults), old(|dev.journal|) + 1))
    ensures !ok ==> Damaged(dev, loc, loc + |data|)
    ensures ok ==> Ready(dev) && View(dev) == Patched(old(View(dev)), Record(loc, data))
    ensures ok ==> |dev.journal| == old(|dev.journal|) + 1
    ensures ok ==> (HasEmpty(dev.journal) <==> old(HasEmpty(dev.journal)) || data == [])
  {
    hide Device.Logical, Device.Coherent, Device.Undoable, Patched, HasEmpty;
    ghost var rs := dev.journal;
    var unused;
    ok, unused := Perform(dev, WriteOp(loc, data));
    if ok {
      EmptyPushed(rs, dev.journal);
    }
  }

  /** malloc of a buffer about to be read into. */
  method Allocate(dev: Device) returns (ok: bool)
    requires Ready(dev)
    modifies dev`faults
    ensures Abortable(dev) && dev.faults == old(dev.faults) + if ok then 0 else 1
    ensures dev.lo == dev.hi == 0
    ensures ok ==> Ready(dev) && View(dev) == old(View(dev))
  {
    var outOfMemory: bool := *;
    if outOfMemory {
      dev.faults := dev.faults + 1;
    }
    ok := !outOfMemory;
  }

  // ----- scanning -----

  function Entry(base: nat, size: nat, i: nat): nat {
    base + i * size
  }

  /** A used entry has a unique GUID (its bytes 16 to 31) other than zero. */
  ghost predicate Used(s: Bytes, base: nat, size: nat, i: nat) {
    var at := Entry(base, size, i);
    at + 32 <= |s| && s[at + 16..at + 32] != Zeros(16)
  }

  /** Entries below `kept` end with a used one, the others up to `n` are unused. */
  ghost predicate KeptUpTo(s: Bytes, base: nat, size: nat, n: nat, kept: nat) {
    && kept <= n
    && (kept > 0 ==> Used(s, base, size, kept - 1))
    && forall i :: kept <= i < n ==> !Used(s, base, size, i)
  }

  lemma EntryBound(base: nat, size: nat, i: nat, n: nat)
    requires i < n
    ensures base <= Entry(base, size, i) && Entry(base, size, i) + size <= base + n * size
  {
    Distribute(n, i, size);
    MulSign(i, size);
    MulBound(1, size, n - i, size);
  }

  method Scan(dev: Device, base: nat, size: nat, n: nat) returns (ok: bool, kept: nat)
    requires Ready(dev) && base + n * size + 128 <= NO_BLOCK
    modifies dev`disk, dev`cacheState, dev`cachedBlock, dev`journal, dev`lo, dev`hi, dev`faults, dev.cache
    ensures Abortable(dev) && |dev.disk| == old(|dev.disk|) && dev.lo == dev.hi == 0
    ensures dev.faults >= old(dev.faults) && (!ok ==> dev.faults > old(dev.faults))
    ensures dev.journal == old(dev.journal)
    ensures ok ==> Ready(dev) && View(dev) == old(View(dev))
    ensures ok ==> KeptUpTo(View(dev), base, size, n, kept)
  {
    hide Ready, Abortable, View, Used;
    kept := 0;
    ReadyToAbort(dev);
    ghost var l0 := View(dev);
    for i := 0 to n
      invariant dev.faults >= old(dev.faults)
      invariant Ready(dev) && Abortable(dev) && View(dev) == l0 && dev.journal == old(dev.journal)
      invariant |dev.disk| == old(|dev.disk|) && dev.lo == dev.hi == 0
      invariant KeptUpTo(l0, base, size, i, kept)
    {
      EntryBound(base, size, i, n);
      var entry;
      ok, entry := Get(dev, Entry(base, size, i), 128);
      if !ok {
        return;
      }
      UsedTest(l0, base, size, i, entry);
      if entry[16..32] != Zeros(16) {
        kept := i + 1;
      }
    }
    ok := true;
  }

  lemma UsedTest(s: Bytes, base: nat, size: nat, i: nat, entry: Bytes)
    requires var at := Entry(base, size, i); at + 128 <= |s| && entry == s[at..at + 128]
    ensures Used(s, base, size, i) <==> entry[16..32] != Zeros(16)
  {
    var at := Entry(base, size, i);
    SubSlice(s, at, 128, 16, 16);
  }

  // ----- writing -----

  /** How far a part of the installation came.
      - OverRead: device_write was handed a buffer shorter than the length it was given;
      - Trap: the entry size zero was divided by. */
  datatype Progress = Done | Stopped | OverRead | Trap

  /** `[lo, hi)` is one of the entries `from` to `to` of an array. */
  ghost predicate IsEntry(base: nat, size: nat, from: nat, to: nat, lo: nat, hi: nat) {
    exists i :: from <= i < to && lo == Entry(base, size, i) && hi == lo + size
  }

  /** device_write from a buffer that is too short, as far as to the copy: the undo journal, then
      the bytes to be saved. */
  method PutShort(dev: Device, loc: nat, count: nat) returns (copies: bool)
    requires Ready(dev) && loc <= NO_BLOCK && count <= NO_BLOCK
    modifies dev`disk, dev`cacheState, dev`cachedBlock, dev`journal, dev`lo, dev`hi, dev`faults, dev.cache
    ensures Abortable(dev) && |dev.disk| == old(|dev.disk|) && dev.lo == dev.hi == 0
    ensures dev.faults >= old(dev.faults)
    ensures copies ==> old(|dev.journal|) < UNINSTALL_DATA_MAX
    ensures !copies ==> Blamed(dev, old(dev.faults), old(|dev.journal|) + 1)
  {
    hide Ready, Abortable, View;
    ReadyToAbort(dev);
    if |dev.journal| >= UNINSTALL_DATA_MAX {
      return false;
    }
    copies := Allocate(dev);
    if !copies {
      return;
    }
    var unused;
    copies, unused := Get(dev, loc, count);
  }

  /** Zeroes the entries from `from` to `to` of one array, out of a buffer of `buffer` bytes. */
  method ZeroArray(dev: Device, base: nat, size: nat, buffer: nat, from: nat, to: nat) returns (r: Progress)
    requires Ready(dev) && from <= to && base + (from + 1) * size <= NO_BLOCK
    requires size <= buffer ==> base + to * size <= NO_BLOCK
    modifies dev`disk, dev`cacheState, dev`cachedBlock, dev`journal, dev`lo, dev`hi, dev`faults, dev.cache
    ensures Abortable(dev) && |dev.disk| == old(|dev.disk|) && dev.faults >= old(dev.faults) && !r.Trap?
    ensures r.Done? ==> Ready(dev) && View(dev) == ZeroEntries(old(View(dev)), base, size, from, to)
    ensures r.Done? ==> |dev.journal| == old(|dev.journal|) + to - from && (size <= buffer || from == to)
    ensures r.Done? ==> (HasEmpty(dev.journal) <==> old(HasEmpty(dev.journal)) || (size == 0 && from < to))
    ensures r.Stopped? ==>
      && Blamed(dev, old(dev.faults), old(|dev.journal|) + if size <= buffer then to - from else 1) && from < to
      && (|| dev.lo == dev.hi == 0
          || (Spans(dev.lo, dev.hi, dev.blockSize) && IsEntry(base, size, from, to, dev.lo, dev.hi)))
    ensures r.OverRead? ==> size > buffer && from < to && old(|dev.journal|) < UNINSTALL_DATA_MAX
    ensures r.OverRead? ==> dev.lo == dev.hi == 0
  {
    ReadyToAbort(dev);
    ghost var s := View(dev);
    NoneZeroed(s, base, size, from);
    EntryBound(base, size, from, from + 1);
    hide Ready, Abortable, View, ZeroEntries, Patched, HasEmpty;
    if size > buffer && from < to {
      var copies := PutShort(dev, Entry(base, size, from), size);
      return if copies then OverRead else Stopped;
    }
    for i := from to to
      invariant dev.faults >= old(dev.faults)
      invariant Ready(dev) && Abortable(dev) && View(dev) == ZeroEntries(s, base, size, from, i)
      invariant |dev.journal| == old(|dev.journal|) + i - from && |dev.disk| == old(|dev.disk|)
      invariant HasEmpty(dev.journal) <==> old(HasEmpty(dev.journal)) || (size == 0 && from < i)
    {
      EntryBound(base, size, i, to);
      OneMoreZeroed(s, base, size, from, i);
      var ok := Put(dev, Entry(base, size, i), Zeros(size));
      if !ok {
        return Stopped;
      }
    }
    return Done;
  }

  lemma NoneZeroed(s: Bytes, base: nat, size: nat, lo: nat)
    ensures ZeroEntries(s, base, size, lo, lo) == s
  {
  }

  lemma OneMoreZeroed(s: Bytes, base: nat, size: nat, lo: nat, i: nat)
    requires lo <= i
    ensures ZeroEntries(s, base, size, lo, i + 1)
         == Patched(ZeroEntries(s, base, size, lo, i), Record(Entry(base, size, i), Zeros(size)))
  {
  }

  /** New contents of a header, field by field. */
  method UpdateHeader(h: Bytes, crc: bv32, count: nat) returns (h': Bytes)
    requires |h| == HEADER
    ensures |h'| == HEADER && h' == NewHeader(h, crc as nat, count)
  {
    hide Patched, LeBytes, Crc32.Crc;
    h' := SetField(h, 88, crc as nat, 4);
    h' := SetField(h', 80, count, 4);
    h' := SetField(h', 16, 0, 4);
    var own := Crc32.Compute(h'[..92]);
    h' := SetField(h', 16, own as nat, 4);
  }

  /** What becomes of a plan when no access fails: the entries of the secondary array are written out
      of a buffer that has the primary entry size, and the undo journal takes 256 records. */
  ghost function PlanFate(p: Plan): Progress {
    var n := p.count - p.kept;
    if n < 0 then Stopped
    else if p.secondarySize > p.entrySize && 0 < n < UNINSTALL_DATA_MAX then OverRead
    else if 2 * n + 11 > UNINSTALL_DATA_MAX then Stopped
    else Done
  }

  /** `[lo, hi)` is a place the installer writes at. */
  ghost predicate Planned(p: Plan, image: nat, lo: nat, hi: nat) {
    || hi <= 512
    || IsEntry(p.primary, p.entrySize, p.kept, p.count, lo, hi)
    || IsEntry(p.secondary, p.secondarySize, p.kept, p.count, lo, hi)
    || (hi == lo + HEADER && (lo == p.lb || lo == p.alternate))
    || (lo == p.locA && hi == lo + p.sizeA)
    || (lo == p.locB && hi == lo + image - 512 - p.sizeA)
  }

  /** At most one write was left half done, one of those planned. */
  ghost predicate OneDamaged(dev: Device, p: Plan, image: nat)
    reads dev`lo, dev`hi, dev`blockSize
  {
    dev.lo == dev.hi == 0 || (Spans(dev.lo, dev.hi, dev.blockSize) && Planned(p, image, dev.lo, dev.hi))
  }

  /** Every address of the plan stays in 64 bits. */
  ghost predicate PlanFits(p: Plan, image: nat) {
    && 512 + p.sizeA <= image && p.primary + p.count * p.entrySize <= NO_BLOCK
    && p.primary + (p.kept + 1) * p.entrySize <= NO_BLOCK && p.secondary + (p.kept + 1) * p.secondarySize <= NO_BLOCK
    && (p.secondarySize <= p.entrySize ==> p.secondary + p.count * p.secondarySize <= NO_BLOCK)
    && p.lb + HEADER <= NO_BLOCK && p.alternate + HEADER <= NO_BLOCK
    && p.locA + p.sizeA <= NO_BLOCK && p.locB + image <= NO_BLOCK
  }

  /** Shrinks both arrays. */
  method ZeroTables(dev: Device, p: Plan, ghost image: nat) returns (r: Progress)
    requires Ready(dev) && p.kept <= p.count && PlanFits(p, image) && dev.journal == []
    modifies dev`disk, dev`cacheState, dev`cachedBlock, dev`journal, dev`lo, dev`hi, dev`faults, dev.cache
    ensures Abortable(dev) && |dev.disk| == old(|dev.disk|) && dev.faults >= old(dev.faults) && !r.Trap?
    ensures r.Done? ==> Ready(dev) && View(dev) == Zeroed(old(View(dev)), p)
    ensures r.Done? ==> |dev.journal| == 2 * (p.count - p.kept) && !PlanFate(p).OverRead?
    ensures r.Done? ==>
      (HasEmpty(dev.journal) <==> p.kept < p.count && (p.entrySize == 0 || p.secondarySize == 0))
    ensures r.Stopped? ==> OneDamaged(dev, p, image)
    ensures r.Stopped? ==> dev.faults > old(dev.faults) || (PlanFate(p).Stopped? && dev.lo == dev.hi == 0)
    ensures r.OverRead? ==> PlanFate(p).OverRead?
  {
    hide Ready, Abortable, View, ZeroEntries, IsEntry;
    r := ZeroArray(dev, p.primary, p.entrySize, p.entrySize, p.kept, p.count);
    if !r.Done? {
      return;
    }
    r := ZeroArray(dev, p.secondary, p.secondarySize, p.entrySize, p.kept, p.count);
  }

  lemma ArrayRead(z: Bytes, p: Plan, entries: Bytes)
    requires |entries| == p.count * p.entrySize
    requires entries != [] ==> p.primary + |entries| <= |z| && entries == z[p.primary..p.primary + |entries|]
    ensures ArrayCrc(z, p) == CrcOf(entries)
  {
    hide CrcOf;
    if entries == [] && p.primary <= |z| {
      assert z[p.primary..p.primary] == [];
    }
  }

  /** Rewrites both headers. */
  method WriteHeaders(dev: Device, p: Plan, h: Bytes, h2: Bytes, ghost image: nat) returns (ok: bool)
    requires Ready(dev) && |h| == |h2| == HEADER && PlanFits(p, image)
    modifies dev`disk, dev`cacheState, dev`cachedBlock, dev`journal, dev`lo, dev`hi, dev`faults, dev.cache
    ensures Abortable(dev) && |dev.disk| == old(|dev.disk|) && dev.faults >= old(dev.faults)
    ensures !ok ==> Blamed(dev, old(dev.faults), old(|dev.journal|) + 2) && OneDamaged(dev, p, image)
    ensures ok ==> Ready(dev) && |dev.journal| == old(|dev.journal|) + 2
    ensures ok ==> (HasEmpty(dev.journal) <==> old(HasEmpty(dev.journal)))
    ensures ok ==>
      var z := old(View(dev));
      View(dev) == WithHeaders(z, p, NewHeader(h, ArrayCrc(z, p), p.count), NewHeader(h2, ArrayCrc(z, p), p.count))
  {
    hide Ready, Abortable, View, Patched, NewHeader, Crc32.Crc, ArrayCrc, HasEmpty, IsEntry;
    ghost var z := View(dev);
    ok := Allocate(dev);
    if !ok {
      return;
    }
    var entries;
    MulSign(p.count, p.entrySize);
    ok, entries := Get(dev, p.primary, p.count * p.entrySize);
    if !ok {
      return;
    }
    ArrayRead(z, p, entries);
    var crc := Crc32.Compute(entries);
    var n := UpdateHeader(h, crc, p.count);
    ok := Put(dev, p.lb, n);
    if !ok {
      return;
    }
    var n2 := UpdateHeader(h2, crc, p.count);
    ok := Put(dev, p.alternate, n2);
  }

  /** Shrinks both arrays and rewrites both headers. */
  method WriteTables(dev: Device, p: Plan, h: Bytes, h2: Bytes, ghost image: nat) returns (r: Progress)
    requires Ready(dev) && |h| == |h2| == HEADER && p.kept <= p.count && PlanFits(p, image) && dev.journal == []
    modifies dev`disk, dev`cacheState, dev`cachedBlock, dev`journal, dev`lo, dev`hi, dev`faults, dev.cache
    ensures Abortable(dev) && |dev.disk| == old(|dev.disk|) && dev.faults >= old(dev.faults) && !r.Trap?
    ensures r.Done? ==> Ready(dev) && View(dev) == Tables(old(View(dev)), p, h, h2)
    ensures r.Done? ==> |dev.journal| == 2 * (p.count - p.kept) + 2 && !PlanFate(p).OverRead?
    ensures r.Done? ==>
      (HasEmpty(dev.journal) <==> p.kept < p.count && (p.entrySize == 0 || p.secondarySize == 0))
    ensures r.Stopped? ==> OneDamaged(dev, p, image)
    ensures r.Stopped? ==> dev.faults > old(dev.faults) || (PlanFate(p).Stopped? && dev.lo == dev.hi == 0)
    ensures r.OverRead? ==> PlanFate(p).OverRead?
  {
    hide Ready, Abortable, View, Zeroed, NewHeader, WithHeaders, ArrayCrc, PlanFits, HasEmpty, OneDamaged;
    r := ZeroTables(dev, p, image);
    if r.Done? {
      var ok := WriteHeaders(dev, p, h, h2, image);
      r := if ok then Done else Stopped;
    }
  }

  /** Boot sector and halves. */
  method WriteHalves(dev: Device, p: Plan, image: Bytes) returns (ok: bool)
    requires Ready(dev) && |image| >= 512 + p.sizeA
    requires p.locA + p.sizeA <= NO_BLOCK && p.locB + |image| <= NO_BLOCK
    modifies dev`disk, dev`cacheState, dev`cachedBlock, dev`journal, dev`lo, dev`hi, dev`faults, dev.cache
    ensures Abortable(dev) && |dev.disk| == old(|dev.disk|)
    ensures dev.faults >= old(dev.faults) && (!ok ==> Blamed(dev, old(dev.faults), old(|dev.journal|) + 3))
    ensures ok ==> Ready(dev) && |dev.journal| == old(|dev.journal|) + 3
    ensures !ok ==> OneDamaged(dev, p, |image|)
    ensures ok ==> (HasEmpty(dev.journal) <==> old(HasEmpty(dev.journal)) || p.sizeA == 0 || |image| == 512 + p.sizeA)
    ensures ok ==> View(dev) == Patched(Patched(Patched(old(View(dev)), Record(0, image[..512])),
                                                Record(p.locA, image[512..512 + p.sizeA])),
                                        Record(p.locB, image[512 + p.sizeA..]))
  {
    hide Ready, Abortable, View, Patched, HasEmpty, IsEntry;
    ok := Put(dev, 0, image[..512]);
    if !ok {
      return;
    }
    ok := Put(dev, p.locA, image[512..512 + p.sizeA]);
    if !ok {
      return;
    }
    ok := Put(dev, p.locB, image[512 + p.sizeA..]);
  }

  /** The sizes and places of the halves, in the boot sector. */
  method WritePointers(dev: Device, p: Plan) returns (ok: bool)
    requires Ready(dev)
    modifies dev`disk, dev`cacheState, dev`cachedBlock, dev`journal, dev`lo, dev`hi, dev`faults, dev.cache
    ensures Abortable(dev) && |dev.disk| == old(|dev.disk|)
    ensures dev.faults >= old(dev.faults) && (!ok ==> Blamed(dev, old(dev.faults), old(|dev.journal|) + 4))
    ensures !ok ==> dev.lo == dev.hi == 0 || (Spans(dev.lo, dev.hi, dev.blockSize) && dev.hi <= 512)
    ensures ok ==> (HasEmpty(dev.journal) <==> old(HasEmpty(dev.journal)))
    ensures ok ==> Ready(dev) && |dev.journal| == old(|dev.journal|) + 4
    ensures ok ==> View(dev) == Patched(Patched(Patched(Patched(old(View(dev)), Record(0x1a4, LeBytes(p.sizeA, 2))),
                                                        Record(0x1a6, LeBytes(p.sizeB, 2))),
                                                Record(0x1a8, LeBytes(p.locA, 8))),
                                        Record(0x1b0, LeBytes(p.locB, 8)))
  {
    hide Ready, Abortable, View, Patched, LeBytes, HasEmpty;
    ok := Put(dev, 0x1a4, LeBytes(p.sizeA, 2));
    if !ok {
      return;
    }
    ok := Put(dev, 0x1a6, LeBytes(p.sizeB, 2));
    if !ok {
      return;
    }
    ok := Put(dev, 0x1a8, LeBytes(p.locA, 8));
    if !ok {
      return;
    }
    ok := Put(dev, 0x1b0, LeBytes(p.locB, 8));
  }

  /** Timestamp and partition table of the old boot sector. */
  method PutBack(dev: Device, timestamp: Bytes, table: Bytes) returns (ok: bool)
    requires Ready(dev) && |timestamp| == 6 && |table| == 70
    modifies dev`disk, dev`cacheState, dev`cachedBlock, dev`journal, dev`lo, dev`hi, dev`faults, dev.cache
    ensures Abortable(dev) && |dev.disk| == old(|dev.disk|)
    ensures dev.faults >= old(dev.faults) && (!ok ==> Blamed(dev, old(dev.faults), old(|dev.journal|) + 2))
    ensures !ok ==> dev.lo == dev.hi == 0 || (Spans(dev.lo, dev.hi, dev.blockSize) && dev.hi <= 512)
    ensures ok ==> (HasEmpty(dev.journal) <==> old(HasEmpty(dev.journal)))
    ensures ok ==> Ready(dev) && |dev.journal| == old(|dev.journal|) + 2
    ensures ok ==> View(dev) == Patched(Patched(old(View(dev)), Record(218, timestamp)), Record(440, table))
  {
    hide Ready, Abortable, View, Patched, HasEmpty;
    ok := Put(dev, 218, timestamp);
    if !ok {
      return;
    }
    ok := Put(dev, 440, table);
  }

  /** The part common to every kind of installation. */
  method WriteStages(dev: Device, p: Plan, image: Bytes) returns (ok: bool)
    requires Ready(dev) && |dev.disk| >= 512 && |image| >= 512 + p.sizeA
    requires p.locA + p.sizeA <= NO_BLOCK && p.locB + |image| <= NO_BLOCK
    modifies dev`disk, dev`cacheState, dev`cachedBlock, dev`journal, dev`lo, dev`hi, dev`faults, dev.cache
    ensures Abortable(dev) && |dev.disk| == old(|dev.disk|)
    ensures dev.faults >= old(dev.faults) && (!ok ==> Blamed(dev, old(dev.faults), old(|dev.journal|) + 9))
    ensures ok ==> Ready(dev) && |dev.journal| == old(|dev.journal|) + 9
    ensures !ok ==> OneDamaged(dev, p, |image|)
    ensures ok ==> (HasEmpty(dev.journal) <==> old(HasEmpty(dev.journal)) || p.sizeA == 0 || |image| == 512 + p.sizeA)
    ensures ok ==> View(dev) == Stages(old(View(dev)), p, image)
  {
    hide Ready, Abortable, View, Patched, LeBytes, HasEmpty, IsEntry;
    var timestamp, table;
    ok, timestamp := Get(dev, 218, 6);
    if !ok {
      return;
    }
    ok, table := Get(dev, 440, 70);
    if !ok {
      return;
    }
    ok := WriteHalves(dev, p, image);
    if !ok {
      return;
    }
    ok := WritePointers(dev, p);
    if !ok {
      return;
    }
    ok := PutBack(dev, timestamp, table);
  }

  // ----- the installation -----

  lemma PlaceSpare(lba: nat, size: nat, lb: nat)
    requires lb > 0 && size <= 32 * lb
    ensures 0 <= Place(lba, size, lb) == (lba + Spare(size, lb)) * lb
    ensures Place(lba, size, lb) / lb - lba == Spare(size, lb)
  {
    hide Place, Blocks;
    PlaceIs(lba, size, lb);
    MulSign(lba + Spare(size, lb), lb);
  }

  lemma Products(g: Gpt, spare: nat, perBlock: nat)
    ensures 0 <= spare * perBlock && 0 <= g.primaryLba * g.lb
    ensures 0 <= g.secondaryLba * g.lb && 0 <= g.alternateLba * g.lb
  {
  }

  /** Places and sizes as the installer computes them, from the end of the 32 blocks down. */
  method Plans(g: Gpt, stage2: nat, kept: nat) returns (p: Plan)
    requires g.lb > 0 && g.entrySize > 0 && Fitting(g.lb, stage2)
    ensures p == MakePlan(g, stage2, kept)
  {
    hide HalfA, HalfB, Sectors, Place, Spare;
    HalvesAre(g.lb, stage2);
    var a, b := HalfA(Sectors(stage2)), HalfB(Sectors(stage2));
    PlaceSpare(g.primaryLba, a, g.lb);
    PlaceSpare(g.secondaryLba, b, g.lb);
    var locA := Place(g.primaryLba, a, g.lb);
    var locB := Place(g.secondaryLba, b, g.lb);
    var spare := locA / g.lb - g.primaryLba;
    var perBlock := g.lb / g.entrySize;
    Products(g, spare, perBlock);
    var count := spare * perBlock;
    p := Plan(g.lb, g.primaryLba * g.lb, g.secondaryLba * g.lb, g.alternateLba * g.lb, g.entrySize, g.secondarySize,
              kept, count, locA, a, locB, b);
  }

  /** The device `t` that embedding makes of `s`: every used entry is among the `kept` ones, those
      fit the shrunken arrays, and `t` is what the writes that GptContents lists make of `s`, one
      after the other.  The journal has grown by `records`, one for each write. */
  ghost predicate EmbeddedAs(s: Bytes, t: Bytes, g: Gpt, h: Bytes, h2: Bytes, image: Bytes, kept: nat,
                             records: int) {
    && |image| >= 512 && g.lb > 0 && g.entrySize > 0 && Fitting(g.lb, |image| - 512)
    && var p := MakePlan(g, |image| - 512, kept);
    && KeptUpTo(s, g.primaryLba * g.lb, g.entrySize, g.entries, kept)
    && kept <= p.count && |s| >= 512 && |h| == |h2| == HEADER && |image| >= 512 + p.sizeA
    && t == Embedded(s, p, h, h2, image)
    && records == 2 * (p.count - kept) + 11
  }

  /** The used entries of the table `g` end with the first `kept`. */
  ghost predicate Keeps(s: Bytes, g: Gpt, kept: nat) {
    KeptUpTo(s, g.primaryLba * g.lb, g.entrySize, g.entries, kept)
  }

  lemma KeepsOne(s: Bytes, g: Gpt, kept: nat, kept': nat)
    requires Keeps(s, g, kept) && Keeps(s, g, kept')
    ensures kept == kept'
  {
    hide Used;
  }

  /** What becomes of a table when no access fails. */
  ghost function FateOf(g: Gpt, stage2: nat, kept: nat): Progress
    requires Fitting(g.lb, stage2)
  {
    if g.entrySize == 0 then Trap else PlanFate(MakePlan(g, stage2, kept))
  }

  ghost predicate HasFate(g: Gpt, image: nat, kept: nat, r: Progress) {
    image >= 512 && Fitting(g.lb, image - 512) && r == FateOf(g, image - 512, kept)
  }

  /** The embedding leaves a journal record without bytes. */
  ghost predicate LeavesEmpty(g: Gpt, image: nat, kept: nat) {
    && image >= 512 && g.entrySize > 0 && Fitting(g.lb, image - 512)
    && var p := MakePlan(g, image - 512, kept);
    (p.kept < p.count && p.secondarySize == 0) || image == 512 + p.sizeA
  }

  /** `[lo, hi)` is one of the writes planned for the table, and spans blocks. */
  ghost predicate DamagedIn(lo: nat, hi: nat, blockSize: nat, s: Bytes, g: Gpt, image: nat, kept: nat) {
    && image >= 512 && g.entrySize > 0 && Fitting(g.lb, image - 512) && Keeps(s, g, kept)
    && Spans(lo, hi, blockSize) && Planned(MakePlan(g, image - 512, kept), image, lo, hi)
  }

  /** For every table in range: without a failed access it goes as `FateOf` says, and it never ends
      otherwise except by stopping.  Success leaves the device that GptContents describes. */
  method Embed(dev: Device, g: Gpt, h: Bytes, h2: Bytes, image: Bytes) returns (r: Progress, kept: nat)
    requires Ready(dev) && |h| == |h2| == HEADER && |image| >= 512 && |dev.disk| >= 512 && dev.journal == []
    requires g.lb in {512, 4096} && InRange64(g, |image|) && Fitting(g.lb, |image| - 512)
    requires g.alternateLba * g.lb + HEADER <= NO_BLOCK
    modifies dev`disk, dev`cacheState, dev`cachedBlock, dev`journal, dev`lo, dev`hi, dev`faults, dev.cache
    ensures Abortable(dev) && |dev.disk| == old(|dev.disk|) && dev.faults >= old(dev.faults)
    ensures dev.faults == old(dev.faults) || !r.Stopped? ==>
      Keeps(old(View(dev)), g, kept) && HasFate(g, |image|, kept, r)
    ensures r.Stopped? ==>
      || dev.lo == dev.hi == 0
      || (dev.faults > old(dev.faults) && DamagedIn(dev.lo, dev.hi, dev.blockSize, old(View(dev)), g, |image|, kept))
    ensures r.Trap? ==> Ready(dev) && View(dev) == old(View(dev)) && dev.journal == []
    ensures r.Done? ==> Ready(dev)
    ensures r.Done? ==> EmbeddedAs(old(View(dev)), View(dev), g, h, h2, image, kept, |dev.journal|)
    ensures r.Done? ==> (HasEmpty(dev.journal) <==> LeavesEmpty(g, |image|, kept))
  {
    hide Ready, Abortable, View, KeptUpTo, HasEmpty, Fitting, EmbeddedAs, DamagedIn, LeavesEmpty, InRange64, FateOf;
    ghost var s := View(dev);
    MulSign(g.primaryLba, g.lb);
    ScanInRange(g, |image|);
    var ok;
    ok, kept := Scan(dev, g.primaryLba * g.lb, g.entrySize, g.entries);
    if !ok {
      return Stopped, kept;
    }
    hide Keeps;
    if g.entrySize == 0 {
      ReadyToAbort(dev);
      ZeroTraps(g, |image|, kept);
      return Trap, kept;
    }
    r := EmbedKept(dev, g, h, h2, image, kept);
  }

  lemma ZeroTraps(g: Gpt, image: nat, kept: nat)
    requires image >= 512 && Fitting(g.lb, image - 512) && g.entrySize == 0
    ensures HasFate(g, image, kept, Trap)
  {
  }

  /** After the scan. */
  method EmbedKept(dev: Device, g: Gpt, h: Bytes, h2: Bytes, image: Bytes, kept: nat) returns (r: Progress)
    requires Ready(dev) && |h| == |h2| == HEADER && |image| >= 512 && |dev.disk| >= 512 && dev.journal == []
    requires g.lb in {512, 4096} && InRange64(g, |image|) && Fitting(g.lb, |image| - 512)
    requires g.alternateLba * g.lb + HEADER <= NO_BLOCK && Keeps(View(dev), g, kept) && g.entrySize > 0
    modifies dev`disk, dev`cacheState, dev`cachedBlock, dev`journal, dev`lo, dev`hi, dev`faults, dev.cache
    ensures Abortable(dev) && |dev.disk| == old(|dev.disk|) && dev.faults >= old(dev.faults) && !r.Trap?
    ensures dev.faults == old(dev.faults) || !r.Stopped? ==> HasFate(g, |image|, kept, r)
    ensures r.Stopped? ==>
      || dev.lo == dev.hi == 0
      || (dev.faults > old(dev.faults) && DamagedIn(dev.lo, dev.hi, dev.blockSize, old(View(dev)), g, |image|, kept))
    ensures r.Done? ==> Ready(dev)
    ensures r.Done? ==> EmbeddedAs(old(View(dev)), View(dev), g, h, h2, image, kept, |dev.journal|)
    ensures r.Done? ==> (HasEmpty(dev.journal) <==> LeavesEmpty(g, |image|, kept))
  {
    KeptBelow(View(dev), g, kept);
    hide Ready, Abortable, View, Keeps, Embedded, MakePlan, HasEmpty, Fitting, OneDamaged, PlanFate, InRange64,
      DamagedIn, EmbeddedAs, LeavesEmpty;
    ghost var s := View(dev);
    var p := Plans(g, |image| - 512, kept);
    PlanFields(g, |image|, kept);
    PlanFitsIs(g, |image|, kept, p);
    hide PlanFits;
    if p.count < kept {
      ReadyToAbort(dev);
      Refuses(p);
      return Stopped;
    }
    r := WriteAll(dev, p, h, h2, image);
    if r.Stopped? && !(dev.lo == dev.hi == 0) {
      DamageIs(dev, s, g, |image|, kept);
    }
    if r.Done? {
      EmbeddedIs(s, View(dev), g, h, h2, image, kept, p);
    }
  }

  lemma EmbeddedIs(s: Bytes, t: Bytes, g: Gpt, h: Bytes, h2: Bytes, image: Bytes, kept: nat, p: Plan)
    requires |image| >= 512 && g.lb > 0 && g.entrySize > 0 && Fitting(g.lb, |image| - 512) && Keeps(s, g, kept)
    requires |s| >= 512 && |h| == |h2| == HEADER && |image| >= 512 + p.sizeA
    requires p == MakePlan(g, |image| - 512, kept) && kept <= p.count && t == Embedded(s, p, h, h2, image)
    ensures EmbeddedAs(s, t, g, h, h2, image, kept, 2 * (p.count - kept) + 11)
    ensures LeavesEmpty(g, |image|, kept) <==> (p.kept < p.count && p.secondarySize == 0) || |image| == 512 + p.sizeA
  {
    hide Fitting, MakePlan, Embedded, KeptUpTo;
  }

  lemma PlanFitsIs(g: Gpt, image: nat, kept: nat, p: Plan)
    requires image >= 512 && g.lb in {512, 4096} && g.entrySize > 0 && Fitting(g.lb, image - 512)
    requires InRange64(g, image) && g.alternateLba * g.lb + HEADER <= NO_BLOCK && kept <= g.entries
    requires p == MakePlan(g, image - 512, kept)
    ensures 512 + p.sizeA <= image && PlanFits(p, image)
  {
    hide Fitting, MakePlan, InRange64;
    PlanFields(g, image, kept);
    PlanInRange(g, image, kept);
  }

  lemma DamageIs(dev: Device, s: Bytes, g: Gpt, image: nat, kept: nat)
    requires image >= 512 && g.entrySize > 0 && Fitting(g.lb, image - 512) && Keeps(s, g, kept)
    requires OneDamaged(dev, MakePlan(g, image - 512, kept), image) && !(dev.lo == dev.hi == 0)
    ensures DamagedIn(dev.lo, dev.hi, dev.blockSize, s, g, image, kept)
  {
    hide Planned, Keeps, Fitting, MakePlan;
  }

  lemma KeptBelow(s: Bytes, g: Gpt, kept: nat)
    requires Keeps(s, g, kept)
    ensures kept <= g.entries
  {
  }

  lemma Refuses(p: Plan)
    requires p.count < p.kept
    ensures PlanFate(p) == Stopped
  {
  }

  lemma ScanInRange(g: Gpt, image: nat)
    requires InRange64(g, image)
    ensures g.primaryLba * g.lb + g.entries * g.entrySize + 128 <= NO_BLOCK
  {
    Distribute(g.entries, 1, g.entrySize);
  }

  /** Tables, then stages. */
  method WriteAll(dev: Device, p: Plan, h: Bytes, h2: Bytes, image: Bytes) returns (r: Progress)
    requires Ready(dev) && |h| == |h2| == HEADER && p.kept <= p.count && |dev.disk| >= 512 && dev.journal == []
    requires 512 + p.sizeA <= |image| && PlanFits(p, |image|)
    modifies dev`disk, dev`cacheState, dev`cachedBlock, dev`journal, dev`lo, dev`hi, dev`faults, dev.cache
    ensures Abortable(dev) && |dev.disk| == old(|dev.disk|) && dev.faults >= old(dev.faults)
    ensures dev.faults == old(dev.faults) || !r.Stopped? ==> r == PlanFate(p)
    ensures r.Stopped? ==> dev.lo == dev.hi == 0 || (dev.faults > old(dev.faults) && OneDamaged(dev, p, |image|))
    ensures r.Done? ==> Ready(dev) && |dev.journal| == 2 * (p.count - p.kept) + 11
    ensures r.Done? ==>
      (HasEmpty(dev.journal) <==>
        || (p.kept < p.count && (p.entrySize == 0 || p.secondarySize == 0))
        || p.sizeA == 0 || |image| == 512 + p.sizeA)
    ensures r.Done? ==> View(dev) == Embedded(old(View(dev)), p, h, h2, image)
  {
    hide Ready, Abortable, View, Tables, Stages, HasEmpty, OneDamaged;
    r := WriteTables(dev, p, h, h2, |image|);
    if r.Done? {
      var ok := WriteStages(dev, p, image);
      if ok {
        JournalBound(dev);
      }
      r := if ok then Done else Stopped;
    }
  }

  lemma PlanFields(g: Gpt, image: nat, kept: nat)
    requires image >= 512 && g.lb > 0 && g.entrySize > 0 && Fitting(g.lb, image - 512)
    ensures var p := MakePlan(g, image - 512, kept);
      && p.kept == kept && p.lb == g.lb && p.entrySize == g.entrySize
      && p.primary == g.primaryLba * g.lb && p.secondary == g.secondaryLba * g.lb && p.alternate == g.alternateLba * g.lb
      && p.secondarySize == g.secondarySize && p.sizeA > 0
  {
    HalvesAre(g.lb, image - 512);
    hide Spare, HalfA, HalfB, Sectors;
  }

  lemma PlanIsSound(s: Bytes, g: Gpt, h: Bytes, h2: Bytes, image: Bytes, kept: nat)
    requires |h| == |h2| == HEADER && |image| >= 512 && WellFormed(g, |image| - 512, |s|)
    requires kept <= MakePlan(g, |image| - 512, kept).count
    ensures MakePlan(g, |image| - 512, kept).kept == kept
    ensures Sound(s, MakePlan(g, |image| - 512, kept), h, h2, image)
  {
    hide Apart, Sound, MakePlan, Fitting;
    PlanApart(g, |image| - 512, kept, |s|);
    PlanFields(g, |image|, kept);
    ApartIsSound(s, MakePlan(g, |image| - 512, kept), h, h2, image);
  }

  /** 4096-byte blocks with 128-byte entries leave so many entries to zero that the undo journal
      cannot hold the writes. */
  lemma LargeBlocksOverflow(g: Gpt, image: nat, kept: nat)
    requires image >= 512 && g.lb == 4096 && g.entrySize == 128 && Fitting(g.lb, image - 512) && kept <= 128
    ensures HasFate(g, image, kept, Stopped)
  {
    HalvesAre(g.lb, image - 512);
    var a := HalfA(Sectors(image - 512));
    assert a < 0x1_0000;
    hide HalfA, HalfB, Sectors, Place;
    BlocksOf(a, 4096);
    assert Spare(a, 4096) >= 16;
  }

  /** The final flush; the journal is turned round for a later undo. */
  method Commit(dev: Device) returns (ok: bool)
    requires Ready(dev)
    modifies dev`disk, dev`cacheState, dev`journal, dev`faults
    ensures ok ==> dev.disk == old(View(dev)) && Replay(dev.disk, dev.journal) == dev.original
    ensures ok ==> dev.journal == Reverse(old(dev.journal)) && dev.JournalFits()
    ensures |dev.journal| == old(|dev.journal|)
    ensures dev.faults >= old(dev.faults) && (!ok ==> dev.faults > old(dev.faults))
    ensures !ok ==> Abortable(dev) && dev.lo == dev.hi == 0
  {
    hide Recoverable, Device.Logical, Device.Coherent, Replay, Reverse;
    ghost var d0, l0 := dev.disk, dev.Logical();
    ok := dev.FlushCache();
    RecoverableMove(dev.journal, dev.original, d0, l0, dev.disk, 0, 0);
    if ok {
      WholeRollback(dev.journal, dev.original, dev.disk, l0);
      dev.ReverseJournal();
    }
  }

  method RollBack(dev: Device) returns (ok: bool)
    requires Abortable(dev)
    modifies dev`disk, dev`cacheState, dev`cachedBlock, dev`uninstalling, dev`journal, dev`faults, dev.cache
    ensures |dev.disk| == |dev.original|
    ensures dev.faults >= old(dev.faults) && (!ok ==> dev.faults > old(dev.faults))
    ensures |dev.journal| == old(|dev.journal|)
    ensures ok ==> forall x :: 0 <= x < |dev.disk| && !(dev.lo <= x < dev.hi) ==> dev.disk[x] == dev.original[x]
  {
    hide Recoverable, Device.Logical;
    ok := dev.Abort();
  }

  lemma JournalBound(dev: Device)
    requires Ready(dev)
    ensures |dev.journal| <= UNINSTALL_DATA_MAX
  {
  }

  lemma StartReady(dev: Device)
    requires dev.Fresh()
    ensures Ready(dev) && View(dev) == dev.disk == dev.original && dev.journal == []
  {
  }

  // ----- from the bytes on the device -----

  /** "EFI PART" */
  const SIGNATURE: Bytes := [69, 70, 73, 32, 80, 65, 82, 84]

  function HeaderAt(s: Bytes, at: nat): (h: Bytes)
    requires at + HEADER <= |s|
    ensures |h| == HEADER
  {
    s[at..at + HEADER]
  }

  /** The fields of the two headers that matter here. */
  function Fields(lb: nat, h: Bytes, h2: Bytes): Gpt
    requires |h| == |h2| == HEADER
  {
    Gpt(lb, LittleEndian(h[72..80]), LittleEndian(h2[72..80]), LittleEndian(h[32..40]),
        LittleEndian(h[80..84]), LittleEndian(h[84..88]), LittleEndian(h2[84..88]))
  }

  /** A primary header behind the first block, tried with 512-byte blocks first. */
  ghost predicate PrimaryAt(s: Bytes, lb: nat) {
    && lb in {512, 4096} && lb + HEADER <= |s|
    && (lb == 4096 ==> HeaderAt(s, 512)[..8] != SIGNATURE)
    && HeaderAt(s, lb)[..8] == SIGNATURE
  }

  /** `g` is the table a device with bytes `s` carries: there is a primary header, and a secondary
      one where the primary puts it. */
  ghost predicate Describes(s: Bytes, g: Gpt) {
    && PrimaryAt(s, g.lb)
    && 0 <= g.alternateLba * g.lb && g.alternateLba * g.lb + HEADER <= |s|
    && HeaderAt(s, g.alternateLba * g.lb)[..8] == SIGNATURE
    && g == Fields(g.lb, HeaderAt(s, g.lb), HeaderAt(s, g.alternateLba * g.lb))
  }

  lemma DescribesOne(s: Bytes, g: Gpt, g': Gpt)
    requires Describes(s, g) && Describes(s, g')
    ensures g == g'
  {
    hide LittleEndian;
  }

  datatype Probed = Failed | NoGpt | Found(lb: nat, header: Bytes)

  /** Looks for the primary header with either block size. */
  method Probe(dev: Device) returns (r: Probed)
    requires Ready(dev)
    modifies dev`disk, dev`cacheState, dev`cachedBlock, dev`journal, dev`lo, dev`hi, dev`faults, dev.cache
    ensures Abortable(dev) && |dev.disk| == old(|dev.disk|) && dev.lo == dev.hi == 0
    ensures dev.faults >= old(dev.faults) && (r.Failed? ==> dev.faults > old(dev.faults))
    ensures dev.journal == old(dev.journal)
    ensures !r.Failed? ==> Ready(dev) && View(dev) == old(View(dev))
    ensures r.Found? ==> PrimaryAt(View(dev), r.lb) && r.header == HeaderAt(View(dev), r.lb)
    ensures r.NoGpt? ==> forall lb :: !PrimaryAt(View(dev), lb)
  {
    hide Ready, Abortable, View;
    ReadyToAbort(dev);
    ghost var s := View(dev);
    var guesses := [512, 4096];
    for i := 0 to 2
      invariant dev.faults >= old(dev.faults)
      invariant Ready(dev) && Abortable(dev) && View(dev) == s && dev.journal == old(dev.journal)
      invariant |dev.disk| == old(|dev.disk|) && dev.lo == dev.hi == 0
      invariant i >= 1 ==> 512 + HEADER <= |s| && HeaderAt(s, 512)[..8] != SIGNATURE
      invariant i == 2 ==> 4096 + HEADER <= |s| && HeaderAt(s, 4096)[..8] != SIGNATURE
    {
      var ok, h := Get(dev, guesses[i], HEADER);
      if !ok {
        return Failed;
      }
      if h[..8] == SIGNATURE {
        return Found(guesses[i], h);
      }
    }
    return NoGpt;
  }

  /** The header in the block that the primary header names, if it has the signature. */
  method ReadSecondary(dev: Device, at: nat) returns (ok: bool, h2: Bytes)
    requires Ready(dev) && at + HEADER <= NO_BLOCK
    modifies dev`disk, dev`cacheState, dev`cachedBlock, dev`journal, dev`lo, dev`hi, dev`faults, dev.cache
    ensures Abortable(dev) && |dev.disk| == old(|dev.disk|) && dev.lo == dev.hi == 0
    ensures dev.faults >= old(dev.faults) && dev.journal == old(dev.journal)
    ensures !ok ==>
      || dev.faults > old(dev.faults)
      || (at + HEADER <= |dev.disk| && HeaderAt(old(View(dev)), at)[..8] != SIGNATURE)
    ensures ok ==> Ready(dev) && View(dev) == old(View(dev))
    ensures ok ==> at + HEADER <= |dev.disk| && h2 == HeaderAt(View(dev), at) && h2[..8] == SIGNATURE
  {
    hide Ready, Abortable, View;
    ok, h2 := Get(dev, at, HEADER);
    if ok && h2[..8] != SIGNATURE {
      ReadyToAbort(dev);
      ok := false;
    }
  }

  datatype GptOutcome = NotGpt | Undone(restored: bool)
                      | Embedding(g: Gpt, kept: nat) | PastBuffer(g: Gpt, kept: nat) | Trapped(g: Gpt, kept: nat)

  /** The outcome is the fate of the table `g`. */
  ghost predicate Matches(outcome: GptOutcome, g: Gpt, image: nat, kept: nat) {
    match outcome
    case NotGpt => false
    case Undone(_) => HasFate(g, image, kept, Stopped)
    case Embedding(g', kept') => g' == g && kept' == kept && HasFate(g, image, kept, Done)
    case PastBuffer(g', kept') => g' == g && kept' == kept && HasFate(g, image, kept, OverRead)
    case Trapped(g', kept') => g' == g && kept' == kept && HasFate(g, image, kept, Trap)
  }

  /** The outcome has a reason on the device. */
  ghost predicate Explained(s: Bytes, image: nat, outcome: GptOutcome) {
    || (outcome.NotGpt? && forall lb :: !PrimaryAt(s, lb))
    || (outcome.Undone? && exists lb :: NoSecondary(s, lb))
    || exists g, kept :: Describes(s, g) && Keeps(s, g, kept) && Matches(outcome, g, image, kept)
  }

  /** `[lo, hi)` is a write planned for the table on the device, and spans blocks. */
  ghost predicate DamagedSome(lo: nat, hi: nat, blockSize: nat, s: Bytes, image: nat) {
    exists g, kept :: Describes(s, g) && DamagedIn(lo, hi, blockSize, s, g, image, kept)
  }

  /** The device `disk` is `s` with the second stage embedded, and `rs` undoes that. */
  ghost predicate Installed(s: Bytes, disk: Bytes, rs: seq<Record>, image: Bytes, g: Gpt, kept: nat) {
    && Describes(s, g) && Replay(disk, rs) == s
    && EmbeddedAs(s, disk, g, HeaderAt(s, g.lb), HeaderAt(s, g.alternateLba * g.lb), image, kept, |rs|)
    && (HasEmpty(rs) <==> LeavesEmpty(g, |image|, kept))
  }

  /** The products of block numbers and block size stay in 64 bits. */
  ghost predicate BackupInRange(s: Bytes) {
    && (512 + HEADER <= |s| ==> LittleEndian(HeaderAt(s, 512)[32..40]) < 0x8_0000_0000_0000)
    && (4096 + HEADER <= |s| ==> LittleEndian(HeaderAt(s, 4096)[32..40]) < 0x8_0000_0000_0000)
  }

  /** There is a primary header, and the block it names has no signature. */
  ghost predicate NoSecondary(s: Bytes, lb: nat) {
    && PrimaryAt(s, lb)
    && var at := LittleEndian(HeaderAt(s, lb)[32..40]) * lb;
    && 0 <= at && at + HEADER <= |s| && HeaderAt(s, at)[..8] != SIGNATURE
  }

  /** Every address computed for the table on the device stays in 64 bits. */
  ghost predicate TableInRange(s: Bytes, image: nat) {
    BackupInRange(s) && forall g :: Describes(s, g) ==> InRange64(g, image)
  }

  /** Everything up to the final flush, for a primary header already found. */
  method EmbedFound(dev: Device, lb: nat, h: Bytes, image: Bytes, ghost s: Bytes)
    returns (r: Progress, g: Gpt, kept: nat)
    requires Ready(dev) && View(dev) == s && dev.journal == []
    requires |image| >= 512 && Fitting(512, |image| - 512) && TableInRange(s, |image|)
    requires PrimaryAt(s, lb) && h == HeaderAt(s, lb)
    modifies dev`disk, dev`cacheState, dev`cachedBlock, dev`journal, dev`lo, dev`hi, dev`faults, dev.cache
    ensures Abortable(dev) && |dev.disk| == old(|dev.disk|) && dev.faults >= old(dev.faults)
    ensures dev.faults == old(dev.faults) || !r.Stopped? ==>
      || (r.Stopped? && NoSecondary(s, lb))
      || (Describes(s, g) && Keeps(s, g, kept) && HasFate(g, |image|, kept, r))
    ensures r.Stopped? ==>
      || dev.lo == dev.hi == 0
      || (dev.faults > old(dev.faults) && Describes(s, g)
          && DamagedIn(dev.lo, dev.hi, dev.blockSize, s, g, |image|, kept))
    ensures r.Trap? ==> Ready(dev) && View(dev) == s && dev.journal == []
    ensures r.Done? ==> Ready(dev)
    ensures r.Done? ==> EmbeddedAs(s, View(dev), g, HeaderAt(s, g.lb), HeaderAt(s, g.alternateLba * g.lb), image, kept,
                                   |dev.journal|)
    ensures r.Done? ==> (HasEmpty(dev.journal) <==> LeavesEmpty(g, |image|, kept))
  {
    hide Ready, Abortable, View, EmbeddedAs, LittleEndian, HasEmpty, InRange64, HasFate, Keeps, DamagedIn, LeavesEmpty;
    g, kept := Gpt(lb, 0, 0, 0, 0, 0, 0), 0;
    var alternate := LittleEndian(h[32..40]);
    assert 0 <= alternate * lb && alternate * lb + HEADER <= NO_BLOCK;
    var ok, h2 := ReadSecondary(dev, alternate * lb);
    if !ok {
      return Stopped, g, kept;
    }
    g := Fields(lb, h, h2);
    assert Describes(s, g);
    hide Describes, Fields;
    r, kept := Embed(dev, g, h, h2, image);
  }

  /** The run up to the point where it succeeds, ends in undefined behaviour, or is to be undone. */
  method Attempt(dev: Device, image: Bytes, ghost s: Bytes) returns (undo: bool, outcome: GptOutcome)
    requires Ready(dev) && View(dev) == s && dev.journal == [] && dev.original == s
    requires |image| >= 512 && Fitting(512, |image| - 512) && TableInRange(s, |image|)
    modifies dev`disk, dev`cacheState, dev`cachedBlock, dev`journal, dev`lo, dev`hi, dev`faults, dev.cache
    ensures dev.faults >= old(dev.faults) && undo == outcome.Undone?
    ensures outcome.NotGpt? || outcome.Trapped? ==> Ready(dev) && View(dev) == s && dev.journal == []
    ensures outcome.Embedding? ==>
      Installed(s, dev.disk, dev.journal, image, outcome.g, outcome.kept) && dev.JournalFits()
    ensures dev.faults == old(dev.faults) || !undo ==> Explained(s, |image|, outcome)
    ensures undo ==> Abortable(dev)
    ensures undo ==>
      || dev.lo == dev.hi == 0
      || (dev.faults > old(dev.faults) && DamagedSome(dev.lo, dev.hi, dev.blockSize, s, |image|))
  {
    hide Ready, Abortable, View, EmbeddedAs, Replay, TableInRange, HasEmpty, Reverse, Device.JournalFits, Fitting,
      LeavesEmpty, DamagedIn, HasFate, Keeps, PrimaryAt, Describes, NoSecondary;
    var probed := Probe(dev);
    if probed.NoGpt? {
      return false, NotGpt;
    }
    if probed.Failed? {
      return true, Undone(false);
    }
    var r, g, kept := EmbedFound(dev, probed.lb, probed.header, image, s);
    if r.Trap? {
      return false, Trapped(g, kept);
    }
    if r.OverRead? {
      return false, PastBuffer(g, kept);
    }
    if r.Stopped? {
      return true, Undone(false);
    }
    ghost var rs := dev.journal;
    var ok := Commit(dev);
    if !ok {
      return true, Undone(false);
    }
    EmptyReversed(rs);
    return false, Embedding(g, kept);
  }

  /** The whole run, for every table in range: probing, embedding, final flush, and the rollback
      after any failure.
      - A device without a primary header is left to the MBR branch as it was.
      - Success leaves the described device and a journal that undoes it.
      - Without a failed access the outcome is the one `FateOf` gives for the table on the device;
        with one it is that or the rollback.
      - The rollback restores every byte, except those of one planned write that spans blocks and
        met a failed access half way. */
  method BiosInstall(dev: Device, image: Bytes) returns (outcome: GptOutcome)
    requires dev.Fresh() && |image| >= 512 && Fitting(512, |image| - 512) && TableInRange(dev.disk, |image|)
    modifies dev`disk, dev`cacheState, dev`cachedBlock, dev`journal, dev`lo, dev`hi, dev`uninstalling, dev`faults, dev.cache
    ensures dev.faults >= old(dev.faults)
    ensures outcome.NotGpt? || outcome.Trapped? ==> Ready(dev) && View(dev) == old(dev.disk) && dev.journal == []
    ensures outcome.Embedding? ==>
      Installed(old(dev.disk), dev.disk, dev.journal, image, outcome.g, outcome.kept) && dev.JournalFits()
    ensures dev.faults == old(dev.faults) || !outcome.Undone? ==>
      && Explained(old(dev.disk), |image|, outcome)
      && forall g, kept :: Describes(old(dev.disk), g) && Keeps(old(dev.disk), g, kept) ==>
           Matches(outcome, g, |image|, kept)
    ensures forall g :: Describes(old(dev.disk), g) && g.lb == 4096 && g.entrySize == 128 && g.entries <= 128 ==>
              outcome.Undone?
    ensures outcome.Undone? && dev.faults == old(dev.faults) ==> dev.disk == old(dev.disk)
    ensures outcome == Undone(true) ==>
      |dev.disk| == old(|dev.disk|)
      && forall x :: 0 <= x < |dev.disk| && !(dev.lo <= x < dev.hi) ==> dev.disk[x] == old(dev.disk)[x]
    ensures outcome.Undone? ==>
      || dev.lo == dev.hi == 0
      || (dev.faults > old(dev.faults) && DamagedSome(dev.lo, dev.hi, dev.blockSize, old(dev.disk), |image|))
  {
    StartReady(dev);
    ghost var s := dev.disk;
    hide *;
    var undo;
    undo, outcome := Attempt(dev, image, s);
    if undo {
      var restored := RollBack(dev);
      ExplainedUndone(s, |image|, restored);
      outcome := Undone(restored);
    }
    OutcomeIsFate(s, |image|, outcome);
  }

  lemma ExplainedUndone(s: Bytes, image: nat, restored: bool)
    ensures Explained(s, image, Undone(false)) ==> Explained(s, image, Undone(restored))
  {
    hide Describes, Keeps, PrimaryAt, NoSecondary, HasFate;
    if Explained(s, image, Undone(false)) && !exists lb :: NoSecondary(s, lb) {
      var g, kept :| Describes(s, g) && Keeps(s, g, kept) && Matches(Undone(false), g, image, kept);
      assert Matches(Undone(restored), g, image, kept);
    }
  }

  /** The outcome is the fate of the table on the device, whatever `g` and `kept` describe it. */
  lemma OutcomeIsFate(s: Bytes, image: nat, outcome: GptOutcome)
    requires image >= 512 && Fitting(512, image - 512)
    ensures Explained(s, image, outcome) ==>
      forall g, kept :: Describes(s, g) && Keeps(s, g, kept) ==> Matches(outcome, g, image, kept)
    ensures Explained(s, image, outcome) || outcome.Undone? ==>
      forall g :: Describes(s, g) && g.lb == 4096 && g.entrySize == 128 && g.entries <= 128 ==> outcome.Undone?
  {
    OneFate(s);
    LargeBlocks(s, image);
    hide Describes, Keeps, PrimaryAt, NoSecondary, HasFate, Fitting;
    OneResult();
  }

  lemma OneResult()
    ensures forall g, image, kept, r, r' :: HasFate(g, image, kept, r) && HasFate(g, image, kept, r') ==> r == r'
  {
    hide FateOf, Fitting;
  }

  lemma EmptyReversed(rs: seq<Record>)
    ensures HasEmpty(Reverse(rs)) <==> HasEmpty(rs)
  {
    if HasEmpty(rs) {
      var i :| 0 <= i < |rs| && rs[i].data == [];
      assert Reverse(rs)[|rs| - 1 - i] == rs[i];
    }
  }

  /** A device carries one table at most, and then the block its primary header names is signed. */
  lemma OneFate(s: Bytes)
    ensures forall g, kept, g', kept' ::
      Describes(s, g) && Keeps(s, g, kept) && Describes(s, g') && Keeps(s, g', kept') ==> g' == g && kept' == kept
    ensures forall g :: Describes(s, g) ==> PrimaryAt(s, g.lb)
    ensures forall g, lb :: Describes(s, g) ==> !NoSecondary(s, lb)
  {
    hide Keeps, PrimaryAt;
    forall g, kept, g', kept' | Describes(s, g) && Keeps(s, g, kept) && Describes(s, g') && Keeps(s, g', kept')
      ensures g' == g && kept' == kept
    {
      DescribesOne(s, g, g');
      KeepsOne(s, g, kept, kept');
    }
    forall g, lb | Describes(s, g)
      ensures !NoSecondary(s, lb)
    {
      SignedSecondary(s, lb, g);
    }
  }

  lemma SignedSecondary(s: Bytes, lb: nat, g: Gpt)
    requires Describes(s, g)
    ensures !NoSecondary(s, lb)
  {
    hide LittleEndian;
  }

  /** The size of the image compiled in (limine/limine-bios-hdd.h). */
  const IMAGE: nat := 21547

  /** With that image and entries of 128 bytes: 512-byte blocks keep 44 entries and are always
      embedded into if the used ones are among them; 4096-byte blocks keep 928, and the journal
      suffices only if the first 806 or more must stay. */
  lemma ShippedFate(g: Gpt, kept: nat)
    requires g.lb in {512, 4096} && g.entrySize == 128 && g.secondarySize <= 128
    ensures Fitting(g.lb, IMAGE - 512)
    ensures HasFate(g, IMAGE, kept, if (if g.lb == 512 then kept <= 44 else 806 <= kept <= 928) then Done else Stopped)
  {
    assert Sectors(IMAGE - 512) == 42 && HalfA(42) == 10752;
    assert Blocks(10752, 512) == 21 && Blocks(10752, 4096) == 3;
  }

  /** And which tables on 512-byte blocks make it read past the buffer of zeros. */
  lemma ShippedOverRead(g: Gpt, kept: nat)
    requires g.lb == 512 && g.entrySize == 128
    ensures HasFate(g, IMAGE, kept, OverRead) <==> g.secondarySize > 128 && kept < 44
  {
    assert Sectors(IMAGE - 512) == 42 && HalfA(42) == 10752;
    assert Blocks(10752, 512) == 21;
  }

  /** With that image a journal record is left without bytes exactly when the secondary header gives
      the entry size zero and there is an entry to clear. */
  lemma ShippedEmpty(g: Gpt, kept: nat)
    requires g.lb in {512, 4096} && g.entrySize > 0
    ensures Fitting(g.lb, IMAGE - 512)
    ensures LeavesEmpty(g, IMAGE, kept) <==> kept < MakePlan(g, IMAGE - 512, kept).count && g.secondarySize == 0
  {
    assert Sectors(IMAGE - 512) == 42 && HalfA(42) == 10752;
    hide Spare;
  }

  lemma {:induction false} SomeKept(s: Bytes, base: nat, size: nat, n: nat) returns (kept: nat)
    ensures KeptUpTo(s, base, size, n, kept)
  {
    hide Used;
    if n == 0 {
      kept := 0;
    } else if Used(s, base, size, n - 1) {
      kept := n;
    } else {
      kept := SomeKept(s, base, size, n - 1);
    }
  }

  /** A table of at most 128 entries of 128 bytes on 4096-byte blocks has the fate to be undone. */
  lemma LargeBlocksUndone(s: Bytes, g: Gpt, image: nat) returns (kept: nat)
    requires image >= 512 && Fitting(512, image - 512) && Describes(s, g)
    requires g.lb == 4096 && g.entrySize == 128 && g.entries <= 128
    ensures Keeps(s, g, kept) && HasFate(g, image, kept, Stopped)
  {
    MulSign(g.primaryLba, g.lb);
    kept := SomeKept(s, g.primaryLba * g.lb, g.entrySize, g.entries);
    hide HasFate, Describes;
    LargeBlocksOverflow(g, image, kept);
  }

  lemma LargeBlocks(s: Bytes, image: nat)
    requires image >= 512 && Fitting(512, image - 512)
    ensures forall g :: Describes(s, g) && g.lb == 4096 && g.entrySize == 128 && g.entries <= 128 ==>
      exists kept :: Keeps(s, g, kept) && HasFate(g, image, kept, Stopped)
  {
    forall g | Describes(s, g) && g.lb == 4096 && g.entrySize == 128 && g.entries <= 128
      ensures exists kept :: Keeps(s, g, kept) && HasFate(g, image, kept, Stopped)
    {
      var kept := LargeBlocksUndone(s, g, image);
    }
  }

  /** Embedding, storing the journal and uninstalling with it in a later process: where all report
      success the device is as it was before.  They cannot when a record holds no byte. */
  method InstallThenUninstall(dev: Device, image: Bytes, capacity: nat, canAllocate: nat -> bool)
    returns (ok: bool, after: Bytes)
    requires dev.Fresh() && |image| >= 512 && Fitting(512, |image| - 512) && TableInRange(dev.disk, |image|)
    modifies dev`disk, dev`cacheState, dev`cachedBlock, dev`journal, dev`lo, dev`hi, dev`uninstalling, dev`faults, dev.cache
    ensures ok ==> after == old(dev.disk)
    ensures ok ==> forall g, kept :: Describes(old(dev.disk), g) && Keeps(old(dev.disk), g, kept) ==>
      HasFate(g, |image|, kept, Done) && !LeavesEmpty(g, |image|, kept)
  {
    hide Fitting, TableInRange, EmbeddedAs, Describes, Replay, Ready, View, HasFate, Keeps, LeavesEmpty;
    after := [];
    var outcome := BiosInstall(dev, image);
    if !outcome.Embedding? {
      return false, after;
    }
    ok, after := UninstallFile.SaveThenUninstall(dev.disk, dev.journal, capacity, canAllocate);
  }

  // ----- what survives -----

  /** Entry `i` of the kept ones, in the array at `base`, before and after. */
  lemma KeptEntrySurvives(s: Bytes, t: Bytes, p: Plan, h: Bytes, h2: Bytes, image: Bytes, i: nat, base: nat, kb: nat, all: nat)
    requires Sound(s, p, h, h2, image) && t == Embedded(s, p, h, h2, image) && i < p.kept
    requires base == p.primary || base == p.secondary
    requires kb == p.kept * p.entrySize && all == p.count * p.entrySize
    ensures var at, n := Entry(base, p.entrySize, i), p.entrySize;
      at + n <= |s| == |t| && t[at..at + n] == s[at..at + n]
  {
    hide *;
    ArraysAfter(s, p, h, h2, image, base, kb, all);
    EntryBound(base, p.entrySize, i, p.kept);
    var at := Entry(base, p.entrySize, i);
    var off, n := at - base, p.entrySize;
    SubSlice(t, base, all, off, n);
    SubSlice(s, base, kb, off, n);
    assert (s[base..base + kb] + Zeros(all - kb))[off..off + n] == s[base..base + kb][off..off + n];
  }

  /** One used entry of a well-formed table, in the array at `base`, before and after. */
  lemma UsedEntrySurvives(s: Bytes, t: Bytes, g: Gpt, h: Bytes, h2: Bytes, image: Bytes, kept: nat, records: int,
                          i: nat, base: nat)
    requires |image| >= 512 && WellFormed(g, |image| - 512, |s|)
    requires EmbeddedAs(s, t, g, h, h2, image, kept, records)
    requires i < g.entries && Used(s, g.primaryLba * g.lb, g.entrySize, i)
    requires base == g.primaryLba * g.lb || base == g.secondaryLba * g.lb
    ensures var at, n := Entry(base, g.entrySize, i), g.entrySize;
      at + n <= |s| == |t| && t[at..at + n] == s[at..at + n]
  {
    hide Embedded, Used, Sound, Fitting, MakePlan, Entry;
    PlanIsSound(s, g, h, h2, image, kept);
    PlanFields(g, |image|, kept);
    var p := MakePlan(g, |image| - 512, kept);
    MulSign(p.kept, p.entrySize);
    MulSign(p.count, p.entrySize);
    KeptEntrySurvives(s, t, p, h, h2, image, i, base, p.kept * p.entrySize, p.count * p.entrySize);
  }

  /** Both headers of the finished device record the number of entries left and the checksum of the
      array behind them, and carry their own checksum. */
  lemma HeadersRecordArrays(s: Bytes, t: Bytes, g: Gpt, h: Bytes, h2: Bytes, image: Bytes, kept: nat, records: int, p: Plan)
    requires |image| >= 512 && WellFormed(g, |image| - 512, |s|)
    requires p == MakePlan(g, |image| - 512, kept) && Mirrored(s, p)
    requires EmbeddedAs(s, t, g, h, h2, image, kept, records)
    ensures Recorded(t, p, p.lb, p.primary) && Recorded(t, p, p.alternate, p.secondary)
  {
    hide Embedded, Recorded, MakePlan, Mirrored, Sound, KeptUpTo, Fitting;
    PlanIsSound(s, g, h, h2, image, kept);
    CountBound(g, |image| - 512, kept);
    BothRecorded(s, t, p, h, h2, image);
  }

  /** Where the second half overlaps the secondary header (GptLayout.SecondHalfOverlaps), a device
      successfully installed on has bytes of the half there: the first header byte at least. */
  lemma SecondaryHeaderLost(s: Bytes, t: Bytes, g: Gpt, h: Bytes, h2: Bytes, image: Bytes, kept: nat, records: int,
                            p: Plan, x: nat)
    requires |image| >= 512 && Regular(g, |image| - 512, |s|) && p == MakePlan(g, |image| - 512, kept)
    requires EmbeddedAs(s, t, g, h, h2, image, kept, records)
    requires var b := HalfB(Sectors(|image| - 512));
      b > 0 && g.secondaryLba + 32 - Blocks(b, g.lb) <= g.alternateLba < g.secondaryLba + 32
    requires p.alternate <= x < p.alternate + HEADER && x < p.locB + |image| - 512 - p.sizeA && x < |s|
    ensures p.locB <= p.alternate < p.locB + |image| - 512 - p.sizeA && p.alternate < |s| == |t|
    ensures t[x] == image[512 + p.sizeA + x - p.locB]
  {
    hide MakePlan, Fitting, KeptUpTo, Embedded;
    OverlapReaches(g, |image| - 512, kept, |s|);
    HeaderOverwritten(s, p, h, h2, image, x);
  }

  lemma PerBlock(lb: nat, entrySize: nat)
    requires 0 < lb <= 4096 && entrySize >= 128
    ensures lb / entrySize <= 32
  {
    var per := lb / entrySize;
    assert per * entrySize <= lb;
    if per >= 33 {
      MulBound(33, 128, per, entrySize);
    }
  }

  lemma CountBound(g: Gpt, stage2: nat, kept: nat)
    requires 0 < g.lb <= 4096 && g.entrySize >= 128 && Fitting(g.lb, stage2)
    ensures MakePlan(g, stage2, kept).count <= 32 * 32
  {
    hide HalfA, HalfB, Sectors, Spare;
    HalvesAre(g.lb, stage2);
    PerBlock(g.lb, g.entrySize);
    MulBound(Spare(HalfA(Sectors(stage2)), g.lb), g.lb / g.entrySize, 32, 32);
  }
}
