/**
 512-byte sectors on an NVMe namespace of larger blocks (nvme_io in kernel/drivers/storage.c):
 each sector is read, or read, patched and written back, through one native block.  A native
 command fails whenever it likes and then leaves the medium alone.
 */
module NvmeShim {
  import opened Machine
  import opened ModArith
  import opened Journal

  const SECTOR: nat := 512
  const SCRATCH: nat := 4096

  /** Sector `k` of a medium whose blocks hold `scale` sectors each. */
  function Sector(blocks: seq<Bytes>, scale: nat, k: nat): Bytes
    requires Formatted(blocks, scale) && OnMedium(blocks, scale, k)
  {
    Piece(blocks[k / scale], k % scale)
  }

  predicate OnMedium(blocks: seq<Bytes>, scale: nat, k: nat) {
    scale > 0 && k / scale < |blocks|
  }

  function Piece(block: Bytes, j: nat): (p: Bytes)
    requires j * SECTOR + SECTOR <= |block|
    ensures |p| == SECTOR
  {
    block[j * SECTOR..j * SECTOR + SECTOR]
  }

  predicate Formatted(blocks: seq<Bytes>, scale: nat) {
    scale > 0 && forall b :: 0 <= b < |blocks| ==> |blocks[b]| == scale * SECTOR
  }

  /** The medium as one string of bytes. */
  function Flat(blocks: seq<Bytes>): Bytes {
    if blocks == [] then [] else Flat(blocks[..|blocks| - 1]) + blocks[|blocks| - 1]
  }

  lemma {:induction false} BlockAt(blocks: seq<Bytes>, scale: nat, b: nat)
    requires Formatted(blocks, scale) && b < |blocks|
    ensures |Flat(blocks)| == |blocks| * (scale * SECTOR) && 0 <= b * (scale * SECTOR)
    ensures (b + 1) * (scale * SECTOR) <= |Flat(blocks)|
    ensures Flat(blocks)[b * (scale * SECTOR)..(b + 1) * (scale * SECTOR)] == blocks[b]
  {
    var n, size := |blocks| - 1, scale * SECTOR;
    Distribute(n, 1, size);
    Distribute(b, 1, size);
    MulSign(b, size);
    if n > 0 {
      BlockAt(blocks[..n], scale, if b < n then b else n - 1);
      if b < n {
        MulBound(b + 1, size, n, size);
        assert Flat(blocks)[b * size..(b + 1) * size] == Flat(blocks[..n])[b * size..(b + 1) * size];
      }
    } else {
      assert Flat(blocks[..0]) == [];
    }
  }

  lemma SectorPlace(k: nat, scale: nat)
    requires scale > 0
    ensures var b, j := k / scale, k % scale;
      && 0 <= b * (scale * 512) && b * (scale * 512) + j * 512 == k * 512
      && (b + 1) * (scale * 512) == b * (scale * 512) + scale * 512 && j * 512 + 512 <= scale * 512
  {
    var b, j := k / scale, k % scale;
    MulSign(b, scale * 512);
    Distribute(b, 1, scale * 512);
    assert k == scale * b + j;
    Distribute(scale * b, j, 512);
    Regroup512(scale, b);
  }

  lemma Regroup512(scale: nat, b: nat)
    ensures (scale * b) * 512 == b * (scale * 512)
  {
  }

  /** Sector `k` is bytes 512 k to 512 k + 512 of the medium, whatever the size of its blocks. */
  lemma SectorIsFlat(blocks: seq<Bytes>, scale: nat, k: nat)
    requires Formatted(blocks, scale) && OnMedium(blocks, scale, k)
    ensures k * 512 + 512 <= |Flat(blocks)|
    ensures Sector(blocks, scale, k) == Flat(blocks)[k * 512..k * 512 + 512]
  {
    SectorPlace(k, scale);
    BlockAt(blocks, scale, k / scale);
    hide Flat, Formatted;
    SliceOfSlice(Flat(blocks), k / scale * (scale * 512), scale * 512, k % scale * 512);
  }

  lemma SliceOfSlice(s: Bytes, at: nat, n: nat, off: nat)
    requires at + n <= |s| && off + 512 <= n
    ensures s[at..at + n][off..off + 512] == s[at + off..at + off + 512]
  {
    var a, b := s[at..at + n][off..off + 512], s[at + off..at + off + 512];
    assert forall i :: 0 <= i < 512 ==> a[i] == b[i];
  }

  lemma SameSector(k: nat, s: nat, scale: nat)
    requires scale > 0
    ensures k / scale == s / scale && k % scale == s % scale ==> k == s
  {
    if k / scale == s / scale && k % scale == s % scale {
      assert k == scale * (k / scale) + k % scale;
      assert s == scale * (s / scale) + s % scale;
    }
  }

  lemma PieceAfterPatch(block: Bytes, j: nat, i: nat, sector: Bytes)
    requires j * SECTOR + SECTOR <= |block| && i * SECTOR + SECTOR <= |block| && |sector| == SECTOR
    ensures Piece(Patched(block, Record(j * SECTOR, sector)), i) == if i == j then sector else Piece(block, i)
  {
  }

  /** Writing one sector through its block changes that sector and no other. */
  lemma SectorAfterWrite(blocks: seq<Bytes>, scale: nat, s: nat, sector: Bytes, k: nat)
    requires Formatted(blocks, scale) && |sector| == SECTOR
    requires OnMedium(blocks, scale, s) && OnMedium(blocks, scale, k)
    ensures var b := s / scale;
            var blocks' := blocks[b := Patched(blocks[b], Record(s % scale * SECTOR, sector))];
            Formatted(blocks', scale)
            && Sector(blocks', scale, k) == if k == s then sector else Sector(blocks, scale, k)
  {
    hide Patched, Piece;
    SameSector(k, s, scale);
    PieceWrite(blocks, scale, s / scale, s % scale, k / scale, k % scale, sector);
  }

  lemma PieceWrite(blocks: seq<Bytes>, scale: nat, b: nat, j: nat, b': nat, j': nat, sector: Bytes)
    requires Formatted(blocks, scale) && b < |blocks| && b' < |blocks| && j < scale && j' < scale && |sector| == SECTOR
    ensures var blocks' := blocks[b := Patched(blocks[b], Record(j * SECTOR, sector))];
            Formatted(blocks', scale)
            && Piece(blocks'[b'], j') == if b' == b && j' == j then sector else Piece(blocks[b'], j')
  {
    hide Patched, Piece;
    PieceAfterPatch(blocks[b], j, j', sector);
  }

  /** `after` is `before` with the `n` sectors from `lba` on taken from `data`. */
  ghost predicate Written(after: seq<Bytes>, before: seq<Bytes>, scale: nat, lba: nat, n: nat, data: Bytes) {
    && Formatted(after, scale) && Formatted(before, scale) && |after| == |before| && n * SECTOR <= |data|
    && forall k: nat :: OnMedium(after, scale, k) ==>
         Sector(after, scale, k) == if lba <= k < lba + n then Piece(data, k - lba) else Sector(before, scale, k)
  }

  /** `after` is `before` with its first `n` sectors taken from the medium, from `lba` on. */
  ghost predicate Loaded(after: Bytes, before: Bytes, blocks: seq<Bytes>, scale: nat, lba: nat, n: nat) {
    && Formatted(blocks, scale) && |after| == |before|
    && (forall k: nat :: lba <= k < lba + n ==> OnMedium(blocks, scale, k))
    && forall j :: 0 <= j && j * SECTOR + SECTOR <= |after| ==>
         Piece(after, j) == if j < n then Sector(blocks, scale, lba + j) else Piece(before, j)
  }

  lemma WrittenMore(after: seq<Bytes>, mid: seq<Bytes>, before: seq<Bytes>, scale: nat, lba: nat, n: nat, data: Bytes)
    requires Written(mid, before, scale, lba, n, data) && (n + 1) * SECTOR <= |data|
    requires Formatted(after, scale) && |after| == |mid|
    requires forall k: nat :: OnMedium(after, scale, k) ==>
               Sector(after, scale, k) == if k == lba + n then Piece(data, n) else Sector(mid, scale, k)
    ensures Written(after, before, scale, lba, n + 1, data)
  {
    hide Sector, Piece;
  }

  lemma LoadedMore(after: Bytes, mid: Bytes, before: Bytes, blocks: seq<Bytes>, scale: nat, lba: nat, n: nat)
    requires Loaded(mid, before, blocks, scale, lba, n) && OnMedium(blocks, scale, lba + n) && |after| == |mid|
    requires forall j :: 0 <= j && j * SECTOR + SECTOR <= |after| ==>
               Piece(after, j) == if j == n then Sector(blocks, scale, lba + n) else Piece(mid, j)
    ensures Loaded(after, before, blocks, scale, lba, n + 1)
  {
    hide Sector, Piece, OnMedium;
  }

  lemma NothingMoved(blocks: seq<Bytes>, scale: nat, lba: nat, data: Bytes)
    requires Formatted(blocks, scale)
    ensures Written(blocks, blocks, scale, lba, 0, data) && Loaded(data, data, blocks, scale, lba, 0)
  {
  }

  /** Reading sectors back gives what was written to them. */
  lemma ReadBack(blocks: seq<Bytes>, before: seq<Bytes>, scale: nat, lba: nat, n: nat, data: Bytes, buf: Bytes, stale: Bytes)
    requires Written(blocks, before, scale, lba, n, data)
    requires Loaded(buf, stale, blocks, scale, lba, n) && |buf| == n * SECTOR
    ensures forall j :: 0 <= j < n ==> Piece(buf, j) == Piece(data, j)
  {
    hide Sector, Piece;
    forall j | 0 <= j < n
      ensures Piece(buf, j) == Piece(data, j)
    {
      assert OnMedium(blocks, scale, lba + j);
    }
  }

  class Namespace {
    const scale: nat
    var blocks: seq<Bytes>

    /** How many native commands have failed. */
    ghost var faults: nat

    ghost predicate Valid()
      reads this
    {
      Formatted(blocks, scale)
    }

    constructor (scale: nat, blocks: seq<Bytes>)
      requires Formatted(blocks, scale)
      ensures Valid() && this.scale == scale && this.blocks == blocks
    {
      this.scale, this.blocks := scale, blocks;
      faults := 0;
    }

    method NativeRead(lba: nat) returns (r: Option<Bytes>)
      modifies this`faults
      ensures faults == old(faults) + if r.Some? then 0 else 1
      ensures r.Some? ==> lba < |blocks| && r.value == blocks[lba]
    {
      var fails: bool := *;
      if fails || lba >= |blocks| {
        faults := faults + 1;
        return None;
      }
      return Some(blocks[lba]);
    }

    method NativeWrite(lba: nat, data: Bytes) returns (ok: bool)
      modifies this`blocks, this`faults
      ensures faults == old(faults) + if ok then 0 else 1
      ensures ok ==> lba < |old(blocks)| && blocks == old(blocks)[lba := data]
      ensures !ok ==> blocks == old(blocks)
    {
      var fails: bool := *;
      if fails || lba >= |blocks| {
        faults := faults + 1;
        return false;
      }
      blocks := blocks[lba := data];
      return true;
    }

    /** Native blocks that fit the scratch buffer, or need none. */
    predicate Usable() {
      scale == 1 || scale * SECTOR <= SCRATCH
    }

    /** One sector of a read. */
    method ReadSector(s: nat) returns (r: Option<Bytes>)
      requires Valid()
      modifies this`faults
      ensures faults == old(faults) + if r.Some? || !Usable() then 0 else 1
      ensures r.Some? ==> Usable()
      ensures r.Some? ==> OnMedium(blocks, scale, s) && r.value == Sector(blocks, scale, s) && |r.value| == SECTOR
    {
      if scale == 1 {
        r := NativeRead(s);
        WholeBlock(s);
      } else if scale * SECTOR > SCRATCH {
        r := None;
      } else {
        var scratch := NativeRead(s / scale);
        if scratch.None? {
          return None;
        }
        assert s % scale < scale;
        r := Some(Piece(scratch.value, s % scale));
      }
    }

    lemma WholeBlock(s: nat)
      requires Valid() && scale == 1
      ensures s / scale == s && s % scale == 0
      ensures s < |blocks| ==> Sector(blocks, scale, s) == blocks[s]
    {
    }

    /** One sector of a write: read, patch, write back. */
    method WriteSector(s: nat, sector: Bytes) returns (ok: bool)
      requires Valid() && |sector| == SECTOR
      modifies this`blocks, this`faults
      ensures faults == old(faults) + if ok || !Usable() then 0 else 1
      ensures ok ==> Usable()
      ensures Valid() && |blocks| == old(|blocks|)
      ensures ok ==> OnMedium(blocks, scale, s)
      ensures ok ==> forall k: nat :: OnMedium(blocks, scale, k) ==>
                Sector(blocks, scale, k) == if k == s then sector else old(Sector(blocks, scale, k))
      ensures !ok ==> blocks == old(blocks)
    {
      if scale == 1 {
        ok := NativeWrite(s, sector);
        WholeBlock(s);
        assert forall k: nat :: k / scale == k && k % scale == 0;
        assert forall k: nat :: k < |blocks| ==> Sector(blocks, scale, k) == blocks[k];
      } else if scale * SECTOR > SCRATCH {
        ok := false;
      } else {
        var block, offset := s / scale, s % scale * SECTOR;
        var scratch := NativeRead(block);
        if scratch.None? {
          return false;
        }
        ghost var before := blocks;
        ok := NativeWrite(block, Patched(scratch.value, Record(offset, sector)));
        if ok {
          hide Sector;
          forall k: nat | OnMedium(blocks, scale, k)
            ensures Sector(blocks, scale, k) == if k == s then sector else Sector(before, scale, k)
          {
            SectorAfterWrite(before, scale, s, sector, k);
          }
          SectorAfterWrite(before, scale, s, sector, s);
        }
      }
    }

    /** `sectors` sectors from `lba` on, between the medium and `buf`.  `done` counts the sectors
        moved; all of them on success.
        - A write changes exactly the `done` sectors it names, and keeps the neighbours that share
          a native block with them.
        - A read fills exactly the first `done` sectors of the buffer. */
    method Io(lba: nat, buf: array<u8>, sectors: nat, write: bool) returns (ok: bool, done: nat)
      requires Valid() && buf.Length == sectors * SECTOR
      modifies this`blocks, this`faults, buf
      ensures Valid() && done <= sectors && (ok <==> done == sectors)
      ensures ok <==> sectors == 0 || (Usable() && faults == old(faults))
      ensures write ==> buf[..] == old(buf[..])
                        && Written(blocks, old(blocks), scale, lba, done, old(buf[..]))
      ensures !write ==> blocks == old(blocks)
                         && Loaded(buf[..], old(buf[..]), blocks, scale, lba, done)
    {
      ghost var b0, s0 := buf[..], blocks;
      NothingMoved(blocks, scale, lba, b0);
      hide Sector, Piece, OnMedium, Written, Loaded, Formatted;
      for i := 0 to sectors
        invariant Valid() && faults == old(faults) && (i > 0 ==> Usable())
        invariant write ==> buf[..] == b0 && Written(blocks, s0, scale, lba, i, b0)
        invariant !write ==> blocks == s0 && Loaded(buf[..], b0, blocks, scale, lba, i)
      {
        if write {
          ghost var mid := blocks;
          ok := WriteSector(lba + i, Piece(buf[..], i));
          if !ok {
            return false, i;
          }
          WrittenMore(blocks, mid, s0, scale, lba, i, b0);
        } else {
          var r := ReadSector(lba + i);
          if r.None? {
            return false, i;
          }
          ghost var mid := buf[..];
          CopySector(buf, i, r.value);
          LoadedMore(buf[..], mid, b0, blocks, scale, lba, i);
        }
      }
      return true, sectors;
    }
  }

  method CopySector(buf: array<u8>, i: nat, sector: Bytes)
    requires i * SECTOR + SECTOR <= buf.Length && |sector| == SECTOR
    modifies buf
    ensures forall j :: 0 <= j && j * SECTOR + SECTOR <= buf.Length ==>
              Piece(buf[..], j) == if j == i then sector else old(Piece(buf[..], j))
  {
    ghost var b0 := buf[..];
    for k := 0 to SECTOR
      invariant forall x :: 0 <= x < buf.Length ==>
                  buf[x] == if i * SECTOR <= x < i * SECTOR + k then sector[x - i * SECTOR] else b0[x]
    {
      buf[i * SECTOR + k] := sector[k];
    }
    assert buf[..] == Patched(b0, Record(i * SECTOR, sector));
    forall j | 0 <= j && j * SECTOR + SECTOR <= buf.Length
      ensures Piece(buf[..], j) == if j == i then sector else Piece(b0, j)
    {
      PieceAfterPatch(b0, i, j, sector);
    }
  }
}
