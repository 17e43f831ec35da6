/**
 The file in which the Limine installer keeps its undo journal between an installation and a later
 --uninstall (store_uninstall_data and load_uninstall_data in limine/limine.c).  The 64-bit numbers
 are in the byte order of the host, here little-endian.
 */
module UninstallFile {
  import opened Machine
  import opened Bits
  import opened Endian
  import opened Journal
  import opened BlockCache
  import opened InstallRun

  function Encoded(r: Record): (s: Bytes)
    ensures |s| == 16 + |r.data|
  {
    LeBytes(r.loc, 8) + LeBytes(|r.data|, 8) + r.data
  }

  function EncodedAll(rs: seq<Record>): Bytes {
    if rs == [] then [] else Encoded(rs[0]) + EncodedAll(rs[1..])
  }

  function Encode(rs: seq<Record>): Bytes {
    LeBytes(|rs|, 8) + EncodedAll(rs)
  }

  /** Where record `i` begins in the file. */
  function Offset(rs: seq<Record>, i: nat): nat
    requires i <= |rs|
  {
    if i == 0 then 8 else Offset(rs, i - 1) + 16 + |rs[i - 1].data|
  }

  /** The bytes of the file: the number of records, then for each its place, its length and its data;
      the numbers little-endian in eight bytes. */
  lemma FileLayout(rs: seq<Record>, i: nat)
    requires i < |rs| && Storable(rs)
    ensures var f, at, r := Encode(rs), Offset(rs, i), rs[i];
      && at + 16 + |r.data| <= |f| && LittleEndian(f[..8]) == |rs|
      && LittleEndian(f[at..at + 8]) == r.loc && LittleEndian(f[at + 8..at + 16]) == |r.data|
      && f[at + 16..at + 16 + |r.data|] == r.data
  {
    var f, at, r := Encode(rs), Offset(rs, i), rs[i];
    assert r.loc < 0x1_0000_0000_0000_0000 && |r.data| < 0x1_0000_0000_0000_0000;
    hide *;
    FileStarts(rs);
    RecordBytes(rs, i);
    Word64(r.loc);
    Word64(|r.data|);
  }

  lemma RecordBytes(rs: seq<Record>, i: nat)
    requires i < |rs|
    ensures var f, at, r := Encode(rs), Offset(rs, i), rs[i];
      && at + 16 + |r.data| <= |f|
      && f[at..at + 8] == LeBytes(r.loc, 8) && f[at + 8..at + 16] == LeBytes(|r.data|, 8)
      && f[at + 16..at + 16 + |r.data|] == r.data
  {
    hide *;
    RestFrom(rs, i);
    RecordAt(Encode(rs), Offset(rs, i), rs[i]);
  }

  lemma FileStarts(rs: seq<Record>)
    requires Storable(rs)
    ensures |Encode(rs)| >= 8 && LittleEndian(Encode(rs)[..8]) == |rs|
  {
    assert Encode(rs)[..8] == LeBytes(|rs|, 8);
    hide LittleEndian, LeBytes;
    Word64(|rs|);
  }

  lemma RecordAt(f: Bytes, at: nat, r: Record)
    requires at + 16 + |r.data| <= |f|
    ensures f[at..][..8] == f[at..at + 8] && f[at..][8..16] == f[at + 8..at + 16]
    ensures f[at..][16..16 + |r.data|] == f[at + 16..at + 16 + |r.data|]
  {
  }

  /** From there on the file holds record `i` and those after it. */
  lemma {:induction false} RestFrom(rs: seq<Record>, i: nat)
    requires i < |rs|
    ensures var f, at, r := Encode(rs), Offset(rs, i), rs[i];
      && at + 16 + |r.data| <= |f| && f[at..] == EncodedAll(rs[i..])
      && f[at..][..8] == LeBytes(r.loc, 8) && f[at..][8..16] == LeBytes(|r.data|, 8)
      && f[at..][16..16 + |r.data|] == r.data
  {
    var f, at := Encode(rs), Offset(rs, i);
    if i == 0 {
      assert f[8..] == EncodedAll(rs) && rs[0..] == rs;
    } else {
      RestFrom(rs, i - 1);
      var before := Offset(rs, i - 1);
      var e := Encoded(rs[i - 1]);
      assert rs[i - 1..][1..] == rs[i..];
      assert f[before..] == e + EncodedAll(rs[i..]);
      assert f[at..] == f[before..][|e|..];
    }
    hide LeBytes;
    assert rs[i..][1..] == rs[i + 1..];
    EncodedParts(rs[i], EncodedAll(rs[i + 1..]));
  }

  /** Records of at least one byte, with their numbers in 64 bits. */
  ghost predicate Storable(rs: seq<Record>) {
    && |rs| < 0x1_0000_0000_0000_0000
    && forall i :: 0 <= i < |rs| ==>
         rs[i].data != [] && rs[i].loc < 0x1_0000_0000_0000_0000 && |rs[i].data| < 0x1_0000_0000_0000_0000
  }

  /** fread of zero bytes counts as a failure, so an empty record does not decode. */
  function DecodeAll(f: Bytes, n: nat): Option<seq<Record>> {
    if n == 0 then Some([])
    else if |f| < 16 then None
    else
      var count := LittleEndian(f[8..16]);
      if count == 0 || |f| < 16 + count then None
      else
        match DecodeAll(f[16 + count..], n - 1)
        case None => None
        case Some(rest) => Some([Record(LittleEndian(f[..8]), f[16..16 + count])] + rest)
  }

  function Decode(f: Bytes): Option<seq<Record>> {
    if |f| < 8 then None else DecodeAll(f[8..], LittleEndian(f[..8]))
  }

  // ----- round trip -----

  lemma Word64(n: nat)
    requires n < 0x1_0000_0000_0000_0000
    ensures LittleEndian(LeBytes(n, 8)) == n
  {
    hide LittleEndian, LeBytes;
    Pow2Values();
    LeBytesValue(n, 8);
  }

  lemma EncodedParts(r: Record, rest: Bytes)
    ensures var f := Encoded(r) + rest;
      && f[..8] == LeBytes(r.loc, 8) && f[8..16] == LeBytes(|r.data|, 8)
      && f[16..16 + |r.data|] == r.data && f[16 + |r.data|..] == rest
  {
    hide LeBytes;
  }

  lemma {:induction false} DecodeEncodedAll(rs: seq<Record>, junk: Bytes)
    requires Storable(rs)
    ensures DecodeAll(EncodedAll(rs) + junk, |rs|) == Some(rs)
  {
    if rs != [] {
      DecodeEncodedAll(rs[1..], junk);
      var r, rest := rs[0], EncodedAll(rs[1..]) + junk;
      assert EncodedAll(rs) + junk == Encoded(r) + rest;
      hide LittleEndian, LeBytes, Encoded, EncodedAll;
      EncodedParts(r, rest);
      Word64(r.loc);
      Word64(|r.data|);
      assert rs == [r] + rs[1..];
    }
  }

  /** A stored journal is read back, whatever follows it in the file. */
  lemma DecodeEncode(rs: seq<Record>, junk: Bytes)
    requires Storable(rs)
    ensures Decode(Encode(rs) + junk) == Some(rs)
  {
    var f := Encode(rs) + junk;
    assert f[..8] == LeBytes(|rs|, 8) && f[8..] == EncodedAll(rs) + junk;
    hide LittleEndian, LeBytes, Encode, EncodedAll;
    Word64(|rs|);
    DecodeEncodedAll(rs, junk);
  }

  lemma Word64Back(s: Bytes)
    requires |s| == 8
    ensures LittleEndian(s) < 0x1_0000_0000_0000_0000 && LeBytes(LittleEndian(s), 8) == s
  {
    WordBound(s);
    ValueLeBytes(s);
  }

  lemma EncodedPrefix(f: Bytes, count: nat, r: Record)
    requires 16 + count <= |f| && f[..8] == LeBytes(r.loc, 8) && f[8..16] == LeBytes(|r.data|, 8)
    requires r.data == f[16..16 + count]
    ensures Encoded(r) == f[..16 + count]
  {
    hide LeBytes;
  }

  lemma PrependRecord(f: Bytes, count: nat, r: Record, rest: seq<Record>)
    requires 16 + count <= |f| && f[..8] == LeBytes(r.loc, 8) && f[8..16] == LeBytes(|r.data|, 8)
    requires r.data == f[16..16 + count] && EncodedAll(rest) <= f[16 + count..]
    ensures EncodedAll([r] + rest) <= f
  {
    EncodedPrefix(f, count, r);
    assert ([r] + rest)[1..] == rest;
    hide LeBytes, Encoded;
    assert f == f[..16 + count] + f[16 + count..];
  }

  lemma StorableCons(r: Record, rest: seq<Record>)
    requires Storable(rest) && |rest| + 1 < 0x1_0000_0000_0000_0000
    requires r.data != [] && r.loc < 0x1_0000_0000_0000_0000 && |r.data| < 0x1_0000_0000_0000_0000
    ensures Storable([r] + rest)
  {
  }

  lemma {:induction false} EncodeDecodedAll(f: Bytes, n: nat)
    requires n < 0x1_0000_0000_0000_0000 && DecodeAll(f, n).Some?
    ensures var rs := DecodeAll(f, n).value; |rs| == n && Storable(rs) && EncodedAll(rs) <= f
  {
    if n > 0 {
      hide LittleEndian, LeBytes, EncodedAll, Storable;
      var count := LittleEndian(f[8..16]);
      var rest := DecodeAll(f[16 + count..], n - 1).value;
      EncodeDecodedAll(f[16 + count..], n - 1);
      Word64Back(f[..8]);
      Word64Back(f[8..16]);
      var r := Record(LittleEndian(f[..8]), f[16..16 + count]);
      PrependRecord(f, count, r, rest);
      StorableCons(r, rest);
    } else {
      assert Storable([]);
    }
  }

  /** The loader accepts exactly the files that start with a stored journal. */
  lemma DecodeExact(f: Bytes, rs: seq<Record>)
    ensures Decode(f) == Some(rs) <==> Storable(rs) && Encode(rs) <= f
  {
    hide LittleEndian, LeBytes, EncodedAll, DecodeAll, Storable;
    if Storable(rs) && Encode(rs) <= f {
      assert f == Encode(rs) + f[|Encode(rs)|..];
      DecodeEncode(rs, f[|Encode(rs)|..]);
    }
    if Decode(f) == Some(rs) {
      Word64Back(f[..8]);
      EncodeDecodedAll(f[8..], LittleEndian(f[..8]));
      assert f == f[..8] + f[8..];
    }
  }

  // ----- the two operations -----

  lemma {:induction false} EncodedSplit(rs: seq<Record>, i: nat)
    requires i < |rs|
    ensures EncodedAll(rs[i..]) == Encoded(rs[i]) + EncodedAll(rs[i + 1..])
  {
    assert rs[i..][1..] == rs[i + 1..];
  }

  /** fwrite of one item: nothing to write counts as a failure, and so does a full disk. */
  method Append(file: Bytes, item: Bytes, capacity: nat) returns (ok: bool, file': Bytes)
    ensures ok <==> item != [] && |file| + |item| <= capacity
    ensures file' == if ok then file + item else file
  {
    if item == [] || |file| + |item| > capacity {
      return false, file;
    }
    return true, file + item;
  }

  method AppendRecord(file: Bytes, r: Record, capacity: nat) returns (ok: bool, file': Bytes)
    ensures ok <==> r.data != [] && |file| + |Encoded(r)| <= capacity
    ensures ok ==> file' == file + Encoded(r)
  {
    hide LeBytes;
    ok, file' := Append(file, LeBytes(r.loc, 8), capacity);
    if !ok {
      return;
    }
    ok, file' := Append(file', LeBytes(|r.data|, 8), capacity);
    if !ok {
      return;
    }
    ok, file' := Append(file', r.data, capacity);
    assert ok ==> file' == file + Encoded(r);
  }

  lemma MovePiece(file: Bytes, r: Record, rest: Bytes, all: Bytes)
    requires file + (Encoded(r) + rest) == all
    ensures (file + Encoded(r)) + rest == all
    ensures |file| + |Encoded(r)| <= |all|
  {
    hide Encoded;
    assert (file + Encoded(r)) + rest == file + (Encoded(r) + rest);
  }

  /** Stores the journal in a file with room for `capacity` bytes.  Succeeds exactly when every
      record has data and the file fits. */
  method Save(rs: seq<Record>, capacity: nat) returns (ok: bool, file: Bytes)
    ensures ok <==> (forall i :: 0 <= i < |rs| ==> rs[i].data != []) && |Encode(rs)| <= capacity
    ensures ok ==> file == Encode(rs)
  {
    hide LeBytes, EncodedAll, Encoded;
    ok, file := Append([], LeBytes(|rs|, 8), capacity);
    if !ok {
      return;
    }
    assert rs[0..] == rs;
    assert file + EncodedAll(rs[0..]) == Encode(rs);
    hide Encode;
    for i := 0 to |rs|
      invariant forall j :: 0 <= j < i ==> rs[j].data != []
      invariant |file| <= capacity && file + EncodedAll(rs[i..]) == Encode(rs)
    {
      EncodedSplit(rs, i);
      MovePiece(file, rs[i], EncodedAll(rs[i + 1..]), Encode(rs));
      ok, file := AppendRecord(file, rs[i], capacity);
      if !ok {
        return;
      }
    }
    assert rs[|rs|..] == [];
    EncodedNone();
    assert file + [] == file;
    ok := true;
  }

  lemma EncodedNone()
    ensures EncodedAll([]) == []
  {
  }

  /** What decoding the rest of a file still contributes. */
  ghost function After(done: seq<Record>, rest: Option<seq<Record>>): Option<seq<Record>> {
    match rest case None => None case Some(rs) => Some(done + rs)
  }

  lemma DecodeStep(f: Bytes, n: nat, done: seq<Record>, r: Record, count: nat)
    requires n > 0 && |f| >= 16 && count == LittleEndian(f[8..16]) > 0 && 16 + count <= |f|
    requires r == Record(LittleEndian(f[..8]), f[16..16 + count])
    ensures After(done, DecodeAll(f, n)) == After(done + [r], DecodeAll(f[16 + count..], n - 1))
  {
    hide LittleEndian;
    match DecodeAll(f[16 + count..], n - 1)
    case None =>
    case Some(rest) =>
      assert done + ([r] + rest) == (done + [r]) + rest;
  }

  lemma AfterNothing(rest: Option<seq<Record>>)
    ensures After([], rest) == rest
  {
    match rest
    case None =>
    case Some(rs) =>
      assert [] + rs == rs;
  }

  lemma DecodeNothing(f: Bytes, done: seq<Record>)
    ensures After(done, DecodeAll(f, 0)) == Some(done)
  {
    assert done + [] == done;
  }

  lemma DecodeFails(f: Bytes, n: nat, done: seq<Record>)
    requires n > 0
    requires |f| < 16 || LittleEndian(f[8..16]) == 0 || 16 + LittleEndian(f[8..16]) > |f|
    ensures After(done, DecodeAll(f, n)) == None
  {
    hide LittleEndian;
  }

  /** One record: its two numbers, the allocation, its bytes. */
  method LoadRecord(f: Bytes, canAllocate: nat -> bool) returns (r: Option<Record>)
    ensures r.Some? <==> |f| >= 16 && LittleEndian(f[8..16]) > 0 && 16 + LittleEndian(f[8..16]) <= |f|
                         && canAllocate(LittleEndian(f[8..16]))
    ensures r.Some? ==> r.value == Record(LittleEndian(f[..8]), f[16..16 + LittleEndian(f[8..16])])
  {
    hide LittleEndian;
    if |f| < 8 {
      return None;
    }
    var loc := LittleEndian(f[..8]);
    if |f| < 16 {
      return None;
    }
    var count := LittleEndian(f[8..16]);
    if !canAllocate(count) {
      return None;
    }
    if count == 0 || |f| < 16 + count {
      return None;
    }
    return Some(Record(loc, f[16..16 + count]));
  }

  /** Overrun: the count sends the loop past the last of the 256 places of the table. */
  datatype LoadResult = Loaded(rs: seq<Record>) | Refused | Overrun

  /** The file claims more records than the table has places, and enough of them are there. */
  ghost predicate Overruns(f: Bytes) {
    |f| >= 8 && LittleEndian(f[..8]) > UNINSTALL_DATA_MAX && DecodeAll(f[8..], UNINSTALL_DATA_MAX).Some?
  }

  lemma RefusedFile(f: Bytes)
    requires |f| >= 8 && DecodeAll(f[8..], Min(LittleEndian(f[..8]), UNINSTALL_DATA_MAX)) == None
    ensures Decode(f) == None && !Overruns(f)
  {
    hide LittleEndian, DecodeAll;
    ShortDecodes(f[8..], Min(LittleEndian(f[..8]), UNINSTALL_DATA_MAX), LittleEndian(f[..8]));
  }

  lemma OverrunFile(f: Bytes)
    requires |f| >= 8 && LittleEndian(f[..8]) > UNINSTALL_DATA_MAX
    requires DecodeAll(f[8..], UNINSTALL_DATA_MAX).Some?
    ensures Overruns(f)
  {
  }

  lemma LoadedFile(f: Bytes, rs: seq<Record>)
    requires |f| >= 8 && LittleEndian(f[..8]) <= UNINSTALL_DATA_MAX
    requires DecodeAll(f[8..], LittleEndian(f[..8])) == Some(rs)
    ensures Decode(f) == Some(rs) && Storable(rs) && !Overruns(f)
  {
    hide LittleEndian, DecodeAll, Storable;
    EncodeDecodedAll(f[8..], LittleEndian(f[..8]));
  }

  /** Reads the journal back, for every file.  Nothing checks the count: the source goes on to place
      256 for exactly the files that `Overruns` describes, given memory. */
  method Load(f: Bytes, canAllocate: nat -> bool) returns (r: LoadResult)
    ensures r.Loaded? ==> Decode(f) == Some(r.rs) && |r.rs| <= UNINSTALL_DATA_MAX && Storable(r.rs)
    ensures r.Overrun? ==> Overruns(f)
    ensures (forall n :: canAllocate(n)) ==> (r.Overrun? <==> Overruns(f))
    ensures (forall n :: canAllocate(n)) ==> (r.Refused? <==> Decode(f) == None && !Overruns(f))
  {
    if |f| < 8 {
      return Refused;
    }
    hide LittleEndian, Decode, DecodeAll, After, Storable, Overruns;
    var n := LittleEndian(f[..8]);
    var rest := f[8..];
    var rs: seq<Record> := [];
    ghost var m := Min(n, UNINSTALL_DATA_MAX);
    ghost var goal := DecodeAll(rest, m);
    AfterNothing(goal);
    for i := 0 to n
      invariant i <= m && |rs| == i
      invariant After(rs, DecodeAll(rest, m - i)) == goal
    {
      if i == UNINSTALL_DATA_MAX {
        DecodeNothing(rest, rs);
        OverrunFile(f);
        return Overrun;
      }
      var r := LoadRecord(rest, canAllocate);
      if r.None? {
        if forall k :: canAllocate(k) {
          DecodeFails(rest, m - i, rs);
          RefusedFile(f);
        }
        return Refused;
      }
      DecodeStep(rest, m - i, rs, r.value, |r.value.data|);
      rs := rs + [r.value];
      rest := rest[16 + |r.value.data|..];
    }
    DecodeNothing(rest, rs);
    LoadedFile(f, rs);
    return Loaded(rs);
  }

  /** A file whose first records do not decode does not decode. */
  lemma {:induction false} ShortDecodes(f: Bytes, m: nat, n: nat)
    requires m <= n && DecodeAll(f, m) == None
    ensures DecodeAll(f, n) == None
  {
    hide LittleEndian;
    if m > 0 && |f| >= 16 {
      var count := LittleEndian(f[8..16]);
      if 0 < count && 16 + count <= |f| {
        ShortDecodes(f[16 + count..], m - 1, n - 1);
      }
    }
  }

  /** One that does: any 256 records under a count of 257. */
  lemma OverrunReached(rs: seq<Record>)
    requires |rs| == UNINSTALL_DATA_MAX && Storable(rs)
    ensures Overruns(LeBytes(257, 8) + EncodedAll(rs))
  {
    var f := LeBytes(257, 8) + EncodedAll(rs);
    assert f[..8] == LeBytes(257, 8) && f[8..] == EncodedAll(rs) + [];
    hide LittleEndian, LeBytes, EncodedAll;
    Word64(257);
    DecodeEncodedAll(rs, []);
  }

  datatype UninstallResult = Restored | Incomplete | PastTable

  /** --uninstall: loads the file and replays it on a device just opened. */
  method UninstallFrom(dev: Device, f: Bytes, canAllocate: nat -> bool) returns (r: UninstallResult)
    requires dev.Fresh()
    modifies dev`disk, dev`cacheState, dev`cachedBlock, dev`uninstalling, dev`journal, dev`faults, dev.cache
    ensures r.Restored? ==> Decode(f).Some? && dev.disk == Replay(old(dev.disk), Decode(f).value)
    ensures r.PastTable? ==> Overruns(f)
    ensures r.Incomplete? && (forall n :: canAllocate(n)) ==> Decode(f) == None || dev.faults > old(dev.faults)
  {
    hide LittleEndian, Decode, Replay, Overruns;
    var loaded := Load(f, canAllocate);
    if loaded.Overrun? {
      return PastTable;
    }
    if loaded.Refused? {
      return Incomplete;
    }
    dev.journal := loaded.rs;
    var ok := dev.Uninstall();
    r := if ok then Restored else Incomplete;
  }

  /** The file of a journal that fits decodes to it and stays in the table. */
  lemma StoredJournal(rs: seq<Record>)
    requires Fits(rs) && forall i :: 0 <= i < |rs| ==> rs[i].data != []
    ensures Decode(Encode(rs)) == Some(rs) && !Overruns(Encode(rs))
  {
    var f := Encode(rs);
    assert f + [] == f;
    assert f[..8] == LeBytes(|rs|, 8);
    hide LittleEndian, LeBytes, EncodedAll, Decode, Encode;
    Word64(|rs|);
    DecodeEncode(rs, []);
  }

  /** Stores a journal and, in a later process, uninstalls with that file from a medium. */
  method SaveThenUninstall(disk: Bytes, rs: seq<Record>, capacity: nat, canAllocate: nat -> bool)
    returns (ok: bool, after: Bytes)
    requires Fits(rs)
    ensures ok ==> after == Replay(disk, rs) && forall i :: 0 <= i < |rs| ==> rs[i].data != []
  {
    hide Replay, Encode, Decode, LittleEndian, Overruns, Fits;
    after := [];
    var saved, file := Save(rs, capacity);
    if !saved {
      return false, after;
    }
    StoredJournal(rs);
    var later := new Device.Open(disk);
    var usable, _, _ := later.Init();
    if !usable {
      return false, after;
    }
    var r := UninstallFrom(later, file, canAllocate);
    return r.Restored?, later.disk;
  }

  /** An installation, the file it leaves, and a later --uninstall with that file: where all three
      report success the device is as it was before the installation. */
  method InstallThenUninstall(dev: Device, ops: seq<Op>, capacity: nat, canAllocate: nat -> bool)
    returns (ok: bool, after: Bytes)
    requires forall i :: 0 <= i < |ops| ==> Addressable(ops[i])
    requires dev.Fresh()
    modifies dev`disk, dev`cacheState, dev`cachedBlock, dev`journal, dev`lo, dev`hi, dev`uninstalling, dev`faults, dev.cache
    ensures ok ==> dev.disk == FlatDisk(old(dev.disk), ops) && after == old(dev.disk)
  {
    hide FlatDisk, FlatReads, Replay;
    after := [];
    var outcome, results := Install(dev, ops);
    if !outcome.Installed? {
      return false, after;
    }
    ok, after := SaveThenUninstall(dev.disk, dev.journal, capacity, canAllocate);
  }
}
