/**
 The one-block write-back cache and undo journal of the Limine installer (limine/limine.c).
 Raw device I/O fails whenever it likes: a failed read leaves arbitrary bytes in the cache, a
 failed write leaves a prefix of the block written.
 */
module BlockCache {
  import opened Machine
  import opened ModArith
  import opened Journal

  datatype CacheState = Clean | Dirty

  /** The number `(uint64_t)-1` that marks the cache as holding no block. */
  const NO_BLOCK: nat := 0xFFFF_FFFF_FFFF_FFFF
  const UNINSTALL_DATA_MAX: nat := 256

  /** A 64-bit address plus a 64-bit length.  No medium reaches that far, so an access ending beyond
      the 64-bit range fails at its first byte that is not on the medium, before the sum can wrap. */
  const FAR: nat := 2 * NO_BLOCK

  /** The first byte of a block. */
  function Start(block: nat, blockSize: nat): nat {
    block * blockSize
  }

  /** A journal as the device keeps it. */
  ghost predicate Fits(rs: seq<Record>) {
    && |rs| <= UNINSTALL_DATA_MAX
    && forall i :: 0 <= i < |rs| ==> rs[i].loc <= NO_BLOCK && |rs[i].data| <= NO_BLOCK
  }

  lemma BlockOf(x: nat, blockSize: nat)
    requires blockSize >= 2
    ensures x == Start(x / blockSize, blockSize) + x % blockSize
    ensures x % blockSize < blockSize
    ensures 0 <= x / blockSize && (x < FAR ==> x / blockSize < NO_BLOCK)
  {
    MulBound(x / blockSize, 2, x / blockSize, blockSize);
  }

  lemma PatchPatch(disk: Bytes, start: nat, c: Bytes, off: nat, b: Bytes)
    requires off + |b| <= |c|
    ensures Patched(disk, Record(start, Patched(c, Record(off, b))))
            == Patched(Patched(disk, Record(start, c)), Record(start + off, b))
  {
  }

  lemma SubSlice(s: Bytes, start: nat, len: nat, off: nat, n: nat)
    requires start + len <= |s| && off + n <= len
    ensures s[start..start + len][off..off + n] == s[start + off..start + off + n]
  {
    var a, b := s[start..start + len][off..off + n], s[start + off..start + off + n];
    assert forall i :: 0 <= i < n ==> a[i] == b[i];
  }

  lemma PatchSame(disk: Bytes, start: nat, c: Bytes)
    requires start + |c| <= |disk| && c == disk[start..start + |c|]
    ensures Patched(disk, Record(start, c)) == disk
  {
  }

  lemma PatchMore(s: Bytes, loc: nat, data: Bytes, p: nat, n: nat)
    requires p + n <= |data|
    ensures Patched(Patched(s, Record(loc, data[..p])), Record(loc + p, data[p..][..n]))
            == Patched(s, Record(loc, data[..p + n]))
  {
    var joined := data[..p] + data[p..][..n];
    assert forall i :: 0 <= i < p + n ==> joined[i] == data[i];
    assert joined == data[..p + n];
    PatchTwice(s, loc, data[..p], data[p..][..n]);
  }

  lemma PatchTwice(s: Bytes, loc: nat, a: Bytes, b: Bytes)
    ensures Patched(Patched(s, Record(loc, a)), Record(loc + |a|, b)) == Patched(s, Record(loc, a + b))
  {
  }

  class Device {
    var disk: Bytes
    var blockSize: nat
    var cache: array<u8>
    var cachedBlock: nat
    var cacheState: CacheState
    var uninstalling: bool
    var journal: seq<Record>

    /** The medium when the run began, and the bytes `[lo, hi)` that a write which failed half
        way may have changed without a record. */
    ghost var original: Bytes
    ghost var lo: nat
    ghost var hi: nat

    /** How often a raw access or an allocation has failed so far. */
    ghost var faults: nat

    ghost predicate InRange(block: nat)
      reads this`disk, this`blockSize
    {
      Start(block, blockSize) + blockSize <= |disk|
    }

    ghost predicate Valid()
      reads this`disk, this`blockSize, this`cache, this`cacheState, this`cachedBlock, cache
    {
      && blockSize >= 2
      && cache.Length == blockSize
      && (cachedBlock == NO_BLOCK || InRange(cachedBlock))
      && (cacheState.Dirty? ==> cachedBlock != NO_BLOCK)
    }

    ghost predicate JournalFits()
      reads this`journal
    {
      Fits(journal)
    }

    /** Undoing the journal on the medium alone restores the original. */
    ghost predicate Undoable()
      requires Valid()
      reads this, cache
    {
      Recoverable(journal, original, disk, Logical(), lo, hi)
    }

    /** The disk as the program sees it. */
    ghost function Logical(): (s: Bytes)
      requires Valid()
      reads this`disk, this`blockSize, this`cache, this`cacheState, this`cachedBlock, cache
      ensures |s| == |disk|
    {
      if cacheState.Dirty? then Patched(disk, Record(Start(cachedBlock, blockSize), cache[..])) else disk
    }

    /** A clean cache holds what the medium holds. */
    ghost predicate Coherent()
      requires Valid()
      reads this`disk, this`blockSize, this`cache, this`cacheState, this`cachedBlock, cache
    {
      cacheState.Clean? && cachedBlock != NO_BLOCK ==>
        cache[..] == disk[Start(cachedBlock, blockSize)..Start(cachedBlock, blockSize) + blockSize]
    }

    /** A run starts with nothing written and nothing recorded. */
    ghost predicate Fresh()
      reads this, cache
    {
      && Valid() && Coherent() && cacheState.Clean?
      && journal == [] && !uninstalling && original == disk && lo == hi == 0
    }

    constructor Open(image: Bytes)
      ensures disk == original == image && journal == [] && !uninstalling && lo == hi == 0
      ensures Fresh() && fresh(cache)
    {
      disk, original := image, image;
      blockSize := 512;
      cache := new u8[512];
      cachedBlock := NO_BLOCK;
      cacheState := Clean;
      uninstalling := false;
      journal := [];
      lo, hi := 0, 0;
      faults := 0;
    }

    /** Takes the first of the block sizes 512, 2048 and 4096 with which the first block can be
        read; `failed` counts the sizes passed over.  Gives up when all three fail or the cache
        cannot be allocated. */
    method Init() returns (ok: bool, ghost failed: nat, ghost noMemory: bool)
      requires Fresh()
      modifies this`blockSize, this`cache, this`cachedBlock, this`faults
      ensures failed <= 3 && faults == old(faults) + failed + if noMemory then 1 else 0
      ensures ok <==> failed < 3 && !noMemory
      ensures ok ==> Fresh() && blockSize == [512, 2048, 4096][failed] && cachedBlock == 0 && fresh(cache)
    {
      var guesses := [512, 2048, 4096];
      failed, noMemory := 0, false;
      for i := 0 to 3
        invariant Fresh() && (i == 0 || fresh(cache)) && failed == i && faults == old(faults) + i
      {
        var outOfMemory: bool := *;
        if outOfMemory {
          faults, noMemory := faults + 1, true;
          return false, failed, noMemory;
        }
        blockSize := guesses[i];
        cache := new u8[guesses[i]];
        cachedBlock := NO_BLOCK;
        var good := RawRead(0);
        if good {
          cachedBlock := 0;
          return true, failed, noMemory;
        }
        failed := failed + 1;
      }
      return false, failed, noMemory;
    }

    lemma CachedBytes()
      requires Valid() && Coherent() && cachedBlock != NO_BLOCK
      ensures cache[..] == Logical()[Start(cachedBlock, blockSize)..Start(cachedBlock, blockSize) + blockSize]
      ensures Logical() == Patched(disk, Record(Start(cachedBlock, blockSize), cache[..]))
    {
      if cacheState.Clean? {
        PatchSame(disk, Start(cachedBlock, blockSize), cache[..]);
      }
    }

    /** Writes the cached block back if it is dirty. */
    method FlushCache() returns (ok: bool)
      requires Valid()
      modifies this`disk, this`cacheState, this`faults
      ensures Valid() && |disk| == old(|disk|)
      ensures faults == old(faults) + if ok then 0 else 1
      ensures Logical() == old(Logical())
      ensures old(Coherent()) ==> Coherent()
      ensures ok ==> cacheState.Clean? && disk == Logical()
      ensures !ok ==> cacheState == old(cacheState)
      ensures forall x :: 0 <= x < |disk| ==> disk[x] == old(disk[x]) || disk[x] == old(Logical()[x])
    {
      if cacheState.Clean? {
        return true;
      }
      ghost var logical := Logical();
      var start := cachedBlock * blockSize;
      var n: int := *;
      if 0 <= n < blockSize {
        disk := Patched(disk, Record(start, cache[..n]));
        assert Logical() == logical;
        faults := faults + 1;
        return false;
      }
      disk := Patched(disk, Record(start, cache[..]));
      cacheState := Clean;
      return true;
    }

    /** Reads a block of the medium into the cache.  Past the end of the medium, or when the
        device fails, the cache is left with arbitrary bytes. */
    method RawRead(block: nat) returns (ok: bool)
      requires Valid() && cacheState.Clean?
      modifies cache, this`faults
      ensures Valid() && faults == old(faults) + if ok then 0 else 1
      ensures ok ==> InRange(block)
                     && cache[..] == disk[Start(block, blockSize)..Start(block, blockSize) + blockSize]
    {
      var start := block * blockSize;
      var fails: bool := *;
      if start + blockSize > |disk| || fails {
        for i := 0 to blockSize
          modifies cache
        {
          cache[i] := *;
        }
        faults := faults + 1;
        return false;
      }
      for i := 0 to blockSize
        modifies cache
        invariant cache[..i] == disk[start..start + i]
      {
        cache[i] := disk[start + i];
      }
      assert cache[..] == cache[..blockSize];
      return true;
    }

    /** Makes `block` the cached block. */
    method CacheBlock(block: nat) returns (ok: bool)
      requires Valid() && block < NO_BLOCK
      modifies this`disk, this`cacheState, this`cachedBlock, this`faults, cache
      ensures faults == old(faults) + if ok then 0 else 1
      ensures Valid() && |disk| == old(|disk|)
      ensures Logical() == old(Logical())
      ensures ok ==> cachedBlock == block
      ensures ok && old(Coherent()) ==> Coherent()
      ensures old(cachedBlock) == block ==> ok && disk == old(disk)
      ensures forall x :: 0 <= x < |disk| ==> disk[x] == old(disk[x]) || disk[x] == old(Logical()[x])
    {
      if cachedBlock == block {
        return true;
      }
      if cacheState.Dirty? {
        var flushed := FlushCache();
        if !flushed {
          return false;
        }
      }
      ok := RawRead(block);
      if !ok {
        return false;
      }
      cachedBlock := block;
      return true;
    }

    lemma BeforePoke(off: nat, b: Bytes)
      requires Valid() && cachedBlock != NO_BLOCK && off + |b| <= blockSize
      ensures Coherent() ==>
                Patched(disk, Record(Start(cachedBlock, blockSize), Patched(cache[..], Record(off, b))))
                == Patched(Logical(), Record(Start(cachedBlock, blockSize) + off, b))
    {
      hide Coherent, Start, Patched, Logical;
      if Coherent() {
        CachedBytes();
        PatchPatch(disk, Start(cachedBlock, blockSize), cache[..], off, b);
      }
    }

    /** memcpy into the cached block. */
    method Poke(off: nat, b: Bytes)
      requires Valid() && cachedBlock != NO_BLOCK
      requires off + |b| <= blockSize
      modifies this`cacheState, cache
      ensures Valid() && cacheState.Dirty?
      ensures old(Coherent()) ==>
                Logical() == Patched(old(Logical()), Record(Start(cachedBlock, blockSize) + off, b))
    {
      hide Coherent, Start, Patched;
      ghost var c := cache[..];
      BeforePoke(off, b);
      PatchArray(cache, off, b);
      cacheState := Dirty;
    }

    /** One chunk of a read: as much of `[at, at + left)` as lies in one block. */
    method ReadChunk(at: nat, left: nat) returns (ok: bool, b: Bytes)
      requires Valid() && at < FAR && left > 0
      modifies this`disk, this`cacheState, this`cachedBlock, this`faults, cache
      ensures faults == old(faults) + if ok then 0 else 1
      ensures Valid() && |disk| == old(|disk|) && Logical() == old(Logical())
      ensures forall x :: 0 <= x < |disk| ==> disk[x] == old(disk[x]) || disk[x] == old(Logical()[x])
      ensures ok && old(Coherent()) ==> Coherent()
      ensures ok ==> 0 < |b| <= left && cachedBlock == at / blockSize
      ensures ok && at % blockSize + left <= blockSize ==> |b| == left
      ensures ok && old(Coherent()) ==> at + |b| <= |disk| && b == Logical()[at..at + |b|]
    {
      hide Logical, Coherent, Start, Patched;
      BlockOf(at, blockSize);
      var block := at / blockSize;
      var offset := at % blockSize;
      ok := CacheBlock(block);
      if !ok {
        return false, [];
      }
      var chunk := Min(left, blockSize - offset);
      b := cache[offset..offset + chunk];
      if Coherent() {
        CachedBytes();
        assert b == cache[..][offset..offset + chunk];
        SubSlice(Logical(), Start(block, blockSize), blockSize, offset, chunk);
      }
    }

    method Read(loc: nat, count: nat) returns (ok: bool, data: Bytes)
      requires Valid() && loc <= NO_BLOCK && count <= NO_BLOCK
      modifies this`disk, this`cacheState, this`cachedBlock, this`faults, cache
      ensures faults == old(faults) + if ok then 0 else 1
      ensures Valid() && |disk| == old(|disk|) && Logical() == old(Logical())
      ensures forall x :: 0 <= x < |disk| ==> disk[x] == old(disk[x]) || disk[x] == old(Logical()[x])
      ensures ok && old(Coherent()) ==> Coherent()
      ensures ok ==> |data| == count
      ensures ok && count > 0 && loc % blockSize + count <= blockSize ==> cachedBlock == loc / blockSize
      ensures ok && old(Coherent()) && count > 0 ==> loc + count <= |disk| && data == Logical()[loc..loc + count]
    {
      hide Logical, Coherent;
      data := [];
      while |data| < count
        invariant Valid() && |disk| == old(|disk|) && Logical() == old(Logical())
        invariant forall x :: 0 <= x < |disk| ==> disk[x] == old(disk[x]) || disk[x] == old(Logical()[x])
        invariant |data| <= count && faults == old(faults)
        invariant old(Coherent()) ==> Coherent()
        invariant old(Coherent()) && data != [] ==> loc + |data| <= |disk| && data == Logical()[loc..loc + |data|]
        invariant loc % blockSize + count <= blockSize && data != [] ==>
                    |data| == count && cachedBlock == loc / blockSize
      {
        var good, b := ReadChunk(loc + |data|, count - |data|);
        if !good {
          return false, data;
        }
        data := data + b;
      }
      return true, data;
    }

    /** One chunk of a write: as much of `data` as lies in the block of byte `at`. */
    method WriteChunk(at: nat, data: Bytes) returns (ok: bool, n: nat)
      requires Valid() && at < FAR && data != []
      modifies this`disk, this`cacheState, this`cachedBlock, this`faults, cache
      ensures faults == old(faults) + if ok then 0 else 1
      ensures Valid() && |disk| == old(|disk|)
      ensures forall x :: 0 <= x < |disk| ==> disk[x] == old(disk[x]) || disk[x] == old(Logical()[x])
      ensures !ok ==> Logical() == old(Logical())
      ensures ok && old(Coherent()) ==> Coherent()
      ensures ok ==> 0 < n == Min(|data|, blockSize - at % blockSize) && InRange(at / blockSize)
      ensures at % blockSize + |data| <= blockSize && old(cachedBlock) == at / blockSize ==> ok && n == |data|
      ensures ok && old(Coherent()) ==>
                at + n <= |disk| && Logical() == Patched(old(Logical()), Record(at, data[..n]))
    {
      hide Logical, Start, Patched;
      BlockOf(at, blockSize);
      var block := at / blockSize;
      var offset := at % blockSize;
      ok := CacheBlock(block);
      if !ok {
        return false, 0;
      }
      n := Min(|data|, blockSize - offset);
      Poke(offset, data[..n]);
    }

    /** The write loop, without journalling. */
    method Store(loc: nat, data: Bytes) returns (ok: bool)
      requires Valid() && loc <= NO_BLOCK && |data| <= NO_BLOCK
      modifies this`disk, this`cacheState, this`cachedBlock, this`faults, cache
      ensures faults == old(faults) + if ok then 0 else 1
      ensures Valid() && |disk| == old(|disk|)
      ensures ok && old(Coherent()) ==> Coherent()
      ensures ok && old(Coherent()) ==> Logical() == Patched(old(Logical()), Record(loc, data))
      ensures old(Coherent()) ==> forall x :: 0 <= x < |disk| && !Covers(Record(loc, data), x) ==>
                Logical()[x] == old(Logical()[x]) && (disk[x] == old(disk[x]) || disk[x] == old(Logical()[x]))
      ensures data == [] || (loc % blockSize + |data| <= blockSize && old(cachedBlock) == loc / blockSize) ==> ok
    {
      hide Logical, Coherent, InRange;
      ghost var l0, whole := Logical(), Record(loc, data);
      var progress := 0;
      assert Patched(l0, Record(loc, data[..0])) == l0;
      while progress < |data|
        invariant Valid() && |disk| == old(|disk|) && progress <= |data| && faults == old(faults)
        invariant old(Coherent()) ==> Coherent() && Logical() == Patched(l0, Record(loc, data[..progress]))
        invariant old(Coherent()) ==> forall x :: 0 <= x < |disk| && !Covers(whole, x) ==>
                    disk[x] == old(disk[x]) || disk[x] == l0[x]
        invariant loc % blockSize + |data| <= blockSize && old(cachedBlock) == loc / blockSize && progress > 0 ==>
                    progress == |data|
        invariant progress == 0 ==> cachedBlock == old(cachedBlock)
      {
        ghost var l1 := Logical();
        var good, n := WriteChunk(loc + progress, data[progress..]);
        if !good {
          return false;
        }
        PatchMore(l0, loc, data, progress, n);
        progress := progress + n;
      }
      assert data[..progress] == data;
      return true;
    }

    /** The first turn of the write loop and the write-back with which the second begins.  Where both
        succeed the medium is as HalfDone says (see HalfDoneIs), whatever becomes of the second block. */
    method FirstBlock(loc: nat, data: Bytes) returns (written: bool)
      requires Valid() && Coherent() && cacheState.Clean? && loc < FAR
      requires loc % blockSize + |data| > blockSize
      modifies this`disk, this`cacheState, this`cachedBlock, this`faults, cache
      ensures faults == old(faults) + if written then 0 else 1
      ensures written ==> disk == Patched(old(disk), Record(loc, data[..blockSize - loc % blockSize]))
    {
      CleanView();
      hide Coherent, Patched, Logical, InRange;
      var n;
      written, n := WriteChunk(loc, data);
      if !written {
        return;
      }
      written := FlushCache();
    }

    lemma CleanView()
      requires Valid() && cacheState.Clean?
      ensures Logical() == disk
    {
    }

    /** Nothing has gone wrong yet. */
    ghost predicate Intact()
      requires Valid()
      reads this, cache
    {
      Coherent() && Undoable() && lo == hi == 0
    }

    /** The write loop with the record `before` of the bytes it replaces. */
    method StoreRecorded(loc: nat, data: Bytes, before: Bytes, ghost sound: bool) returns (ok: bool)
      requires Valid() && JournalFits() && |journal| < UNINSTALL_DATA_MAX
      requires loc <= NO_BLOCK && |data| <= NO_BLOCK && |before| == |data|
      requires sound ==> Intact() && Holds(Logical(), Record(loc, before))
      modifies this`disk, this`cacheState, this`cachedBlock, this`journal, this`lo, this`hi, this`faults, cache
      ensures Valid() && JournalFits() && |disk| == old(|disk|)
      ensures faults == old(faults) + if ok then 0 else 1
      ensures ok && old(Coherent()) ==> Coherent() && Logical() == Patched(old(Logical()), Record(loc, data))
      ensures journal == if ok then old(journal) + [Record(loc, before)] else old(journal)
      ensures sound ==> Undoable()
      ensures if ok then lo == old(lo) && hi == old(hi) else lo == loc && hi == loc + |data|
      ensures data == [] || (loc % blockSize + |data| <= blockSize && old(cachedBlock) == loc / blockSize) ==> ok
    {
      hide Logical, Coherent, Recoverable, Holds;
      ghost var d1, l0, rs := disk, Logical(), journal;
      ok := Store(loc, data);
      if ok {
        journal := journal + [Record(loc, before)];
        if sound {
          RecoverableWrite(rs, original, d1, l0, disk, Logical(), Record(loc, before), 0, 0);
        }
      } else {
        lo, hi := loc, loc + |data|;
        if sound {
          RecoverableDamage(rs, original, d1, l0, disk, Logical(), Record(loc, data));
        }
      }
    }

    /** Saves the bytes about to be overwritten and writes.  Outside an uninstall a completed
        write leaves exactly one record; a failed one leaves none. */
    method Write(loc: nat, data: Bytes) returns (ok: bool)
      requires Valid() && JournalFits() && loc <= NO_BLOCK && |data| <= NO_BLOCK && !uninstalling
      modifies this`disk, this`cacheState, this`cachedBlock, this`journal, this`lo, this`hi, this`faults, cache
      ensures Valid() && JournalFits() && |disk| == old(|disk|)
      ensures faults == old(faults) + if ok || old(|journal|) == UNINSTALL_DATA_MAX then 0 else 1
      ensures ok ==> old(|journal|) < UNINSTALL_DATA_MAX
      ensures ok && old(Coherent()) ==> Coherent()
      ensures ok && old(Coherent()) ==> Logical() == Patched(old(Logical()), Record(loc, data))
      ensures ok ==> exists before :: |before| == |data| && journal == old(journal) + [Record(loc, before)]
                                      && (old(Coherent()) ==> Holds(old(Logical()), Record(loc, before)))
      ensures !ok ==> journal == old(journal)
      ensures old(Intact()) ==> Undoable()
      ensures ok || loc % blockSize + |data| <= blockSize ==> lo == old(lo) && hi == old(hi)
      ensures old(|journal|) == UNINSTALL_DATA_MAX ==> lo == old(lo) && hi == old(hi)
      ensures !ok ==> (lo == old(lo) && hi == old(hi)) || (lo == loc && hi == loc + |data|)
    {
      hide Logical, Coherent, Recoverable, Holds, Patched;
      if |journal| >= UNINSTALL_DATA_MAX {
        return false;
      }
      var outOfMemory: bool := *;
      if outOfMemory {
        faults := faults + 1;
        return false;
      }
      ghost var d0, l0 := disk, Logical();
      var saved, before := Read(loc, |data|);
      if old(Intact()) {
        RecoverableMove(journal, original, d0, l0, disk, 0, 0);
      }
      if !saved {
        return false;
      }
      if old(Coherent()) {
        SavedBytes(l0, loc, before);
        assert Holds(l0, Record(loc, before));
      }
      ok := StoreRecorded(loc, data, before, old(Intact()));
    }

    /** Forgets the cached block, dirty or not. */
    method Invalidate()
      requires Valid()
      modifies this`cacheState, this`cachedBlock
      ensures Valid() && Coherent() && Logical() == disk
    {
      cacheState := Clean;
      cachedBlock := NO_BLOCK;
    }

    /** Writes one record back, retrying once after a failure. */
    method Restore(r: Record) returns (ok: bool)
      requires Valid() && r.loc <= NO_BLOCK && |r.data| <= NO_BLOCK
      modifies this`disk, this`cacheState, this`cachedBlock, this`faults, cache
      ensures faults >= old(faults) && (!ok ==> faults > old(faults))
      ensures Valid() && |disk| == old(|disk|)
      ensures ok && old(Coherent()) ==> Coherent() && Logical() == Patched(old(Logical()), r)
    {
      hide Logical, Coherent, Patched;
      ghost var l0 := Logical();
      ok := Store(r.loc, r.data);
      if ok {
        return true;
      }
      var flushed := FlushCache();
      ghost var l1 := Logical();
      Invalidate();
      ok := Store(r.loc, r.data);
      PatchAgree(l0, l1, r);
      ok := ok && flushed;
    }

    /** Rolls the journal out onto the medium in its current order.  A true result means that
        every record and every flush succeeded, on the first or the second attempt. */
    method Uninstall() returns (ok: bool)
      requires Valid() && JournalFits()
      modifies this`disk, this`cacheState, this`cachedBlock, this`uninstalling, this`faults, cache
      ensures Valid() && |disk| == old(|disk|)
      ensures faults >= old(faults) && (!ok ==> faults > old(faults))
      ensures ok ==> disk == Replay(old(disk), journal)
    {
      hide Logical, Coherent, Replay, Patched;
      uninstalling := true;
      ghost var d0 := disk;
      Invalidate();
      ok := true;
      ReplayNothing(d0, journal);
      for i := 0 to |journal|
        invariant Valid() && |disk| == |d0| && faults >= old(faults) && (!ok ==> faults > old(faults))
        invariant ok ==> Coherent() && Logical() == Replay(d0, journal[..i])
      {
        var restored := Restore(journal[i]);
        ReplayOneMore(d0, journal, i);
        ok := ok && restored;
      }
      assert journal[..|journal|] == journal;
      var flushed := FlushCache();
      ok := ok && flushed;
    }

    /** Turns the journal round, so that replaying it undoes the newest write first. */
    method ReverseJournal()
      modifies this`journal
      ensures journal == Reverse(old(journal))
      ensures old(JournalFits()) ==> JournalFits()
    {
      var rev: seq<Record> := [];
      for i := 0 to |journal|
        invariant |rev| == i
        invariant forall k :: 0 <= k < i ==> rev[k] == journal[i - 1 - k]
      {
        rev := [journal[i]] + rev;
      }
      journal := rev;
    }

    /** An aborted installation: whatever is still dirty in the cache is dropped, and the journal
        is replayed from its newest record to its oldest.  If that succeeds every byte is back at
        its original value, except where a write spanning blocks failed half way. */
    method Abort() returns (ok: bool)
      requires Valid() && JournalFits() && Undoable()
      modifies this`disk, this`cacheState, this`cachedBlock, this`uninstalling, this`journal, this`faults, cache
      ensures |disk| == |original| && |journal| == old(|journal|)
      ensures faults >= old(faults) && (!ok ==> faults > old(faults))
      ensures ok ==> disk == Replay(old(disk), Reverse(old(journal)))
      ensures ok ==> forall x :: 0 <= x < |original| && !(lo <= x < hi) ==> disk[x] == original[x]
    {
      hide Logical, Recoverable, Replay, Reverse;
      ghost var rs, d0, l0 := journal, disk, Logical();
      SameLengths();
      ReverseJournal();
      ok := Uninstall();
      if ok {
        forall x | 0 <= x < |original| && !(lo <= x < hi)
          ensures disk[x] == original[x]
        {
          RollbackRestores(rs, original, d0, l0, lo, hi, x);
        }
      }
    }

    lemma SameLengths()
      requires Valid() && Undoable()
      ensures |disk| == |original|
    {
    }
  }

  /** The medium when a write of `data` at `off` in the block at `start` has filled the cached block
      `c`, that block has been written back, and the next block cannot be read. */
  function HalfDone(disk: Bytes, start: nat, c: Bytes, off: nat, data: Bytes): (d: Bytes)
    requires off < |c| < off + |data|
    ensures |d| == |disk|
  {
    Patched(disk, Record(start, Patched(c, Record(off, data[..|c| - off]))))
  }

  lemma HalfDoneIs(disk: Bytes, start: nat, size: nat, off: nat, data: Bytes)
    requires start + size <= |disk| && off < size < off + |data|
    ensures HalfDone(disk, start, disk[start..start + size], off, data)
         == Patched(disk, Record(start + off, data[..size - off]))
  {
    var c := disk[start..start + size];
    hide Patched;
    PatchPatch(disk, start, c, off, data[..size - off]);
    PatchSame(disk, start, c);
  }

  /** Such a write has no record.  Rolling back then restores a byte of it if and only if an earlier
      record covers the byte or the write did not change it. */
  lemma HalfDoneRestoredIff(rs: seq<Record>, original: Bytes, disk: Bytes, start: nat, size: nat, off: nat,
                            data: Bytes, x: nat)
    requires Recoverable(rs, original, disk, disk, 0, 0) && x < |disk|
    requires start + size <= |disk| && off < size < off + |data|
    ensures var d := HalfDone(disk, start, disk[start..start + size], off, data);
      Replay(d, Reverse(rs))[x] == original[x]
      <==> !(start + off <= x < start + size) || Earliest(rs, x).Some? || data[x - start - off] == original[x]
  {
    var d := HalfDone(disk, start, disk[start..start + size], off, data);
    HalfDoneIs(disk, start, size, off, data);
    RestoredIff(rs, original, disk, d, x);
    assert RecoverableAt(rs, original, disk, disk, x);
  }

  /** One byte on each side of a block boundary of a blank medium, and an empty journal. */
  lemma HalfDoneLosesAByte(original: Bytes)
    requires |original| == 1024 && forall i :: 0 <= i < 1024 ==> original[i] == 0
    ensures Replay(HalfDone(original, 0, original[0..512], 511, [1, 1]), Reverse([])) != original
  {
    HalfDoneRestoredIff([], original, original, 0, 512, 511, [1, 1], 511);
  }

  lemma PatchAgree(s: Bytes, t: Bytes, r: Record)
    ensures |s| == |t| && (forall x :: 0 <= x < |s| && !Covers(r, x) ==> s[x] == t[x])
            ==> Patched(s, r) == Patched(t, r)
  {
  }

  lemma ReplayNothing(s: Bytes, rs: seq<Record>)
    ensures Replay(s, rs[..0]) == s
  {
  }

  lemma ReplayOneMore(s: Bytes, rs: seq<Record>, i: nat)
    requires i < |rs|
    ensures Replay(s, rs[..i + 1]) == Patched(Replay(s, rs[..i]), rs[i])
  {
    assert rs[..i + 1][..i] == rs[..i];
  }

  lemma SavedBytes(s: Bytes, loc: nat, b: Bytes)
    requires b != [] ==> loc + |b| <= |s| && b == s[loc..loc + |b|]
    ensures Holds(s, Record(loc, b))
  {
  }

  method PatchArray(a: array<u8>, off: nat, b: Bytes)
    requires off + |b| <= a.Length
    modifies a
    ensures a[..] == Patched(old(a[..]), Record(off, b))
  {
    for i := 0 to |b|
      invariant forall k :: 0 <= k < a.Length ==>
                  a[k] == if off <= k < off + i then b[k - off] else old(a[k])
    {
      a[off + i] := b[i];
    }
  }
}
