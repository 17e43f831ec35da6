/** What a flat device holds after the embedding that GptLayout plans. */
module GptContents {
  import opened Machine
  import opened ModArith
  import opened Bits
  import opened Endian
  import opened Journal
  import opened GptLayout
  import Crc32

  function CrcOf(s: Bytes): (n: nat) {
    Crc32.Crc(s) as nat
  }

  /** Entries `lo` to `hi` of the array at `base` zeroed one by one. */
  function ZeroEntries(s: Bytes, base: nat, size: nat, lo: nat, hi: nat): (z: Bytes)
    ensures |z| == |s|
  {
    if hi <= lo then s else Patched(ZeroEntries(s, base, size, lo, hi - 1), Record(base + (hi - 1) * size, Zeros(size)))
  }

  function SetField(h: Bytes, at: nat, value: nat, width: nat): (h': Bytes)
    ensures |h'| == |h|
  {
    Patched(h, Record(at, LeBytes(value, width)))
  }

  /** The header with the new array checksum and entry count and its own checksum, which is taken
      with the field at 16 zeroed. */
  function NewHeader(h: Bytes, arrayCrc: nat, count: nat): (h': Bytes)
    requires |h| == HEADER
    ensures |h'| == HEADER
  {
    var zeroed := SetField(SetField(SetField(h, 88, arrayCrc, 4), 80, count, 4), 16, 0, 4);
    SetField(zeroed, 16, CrcOf(zeroed[..92]), 4)
  }

  /** Both arrays with the entries from `kept` to `count` zeroed. */
  function Zeroed(s: Bytes, p: Plan): (z: Bytes)
    ensures |z| == |s|
  {
    ZeroEntries(ZeroEntries(s, p.primary, p.entrySize, p.kept, p.count), p.secondary, p.secondarySize, p.kept, p.count)
  }

  /** The checksum of the retained primary array, which may be empty. */
  function ArrayCrc(s: Bytes, p: Plan): nat {
    var n := p.count * p.entrySize;
    if 0 <= n && p.primary + n <= |s| then CrcOf(s[p.primary..p.primary + n]) else CrcOf([])
  }

  function WithHeaders(s: Bytes, p: Plan, n: Bytes, n2: Bytes): (t: Bytes)
    ensures |t| == |s|
  {
    Patched(Patched(s, Record(p.lb, n)), Record(p.alternate, n2))
  }

  function Tables(s: Bytes, p: Plan, h: Bytes, h2: Bytes): (t: Bytes)
    requires |h| == |h2| == HEADER
    ensures |t| == |s|
  {
    var z := Zeroed(s, p);
    WithHeaders(z, p, NewHeader(h, ArrayCrc(z, p), p.count), NewHeader(h2, ArrayCrc(z, p), p.count))
  }

  /** The boot sector and the halves, the pointers to them patched into the boot sector, and the
      timestamp and partition table of the old boot sector put back. */
  function Stages(s: Bytes, p: Plan, image: Bytes): (t: Bytes)
    requires |s| >= 512 && |image| >= 512 + p.sizeA
    ensures |t| == |s|
  {
    var s1 := Patched(s, Record(0, image[..512]));
    var s2 := Patched(s1, Record(p.locA, image[512..512 + p.sizeA]));
    var s3 := Patched(s2, Record(p.locB, image[512 + p.sizeA..]));
    var s4 := Patched(s3, Record(0x1a4, LeBytes(p.sizeA, 2)));
    var s5 := Patched(s4, Record(0x1a6, LeBytes(p.sizeB, 2)));
    var s6 := Patched(s5, Record(0x1a8, LeBytes(p.locA, 8)));
    var s7 := Patched(s6, Record(0x1b0, LeBytes(p.locB, 8)));
    Patched(Patched(s7, Record(218, s[218..224])), Record(440, s[440..510]))
  }

  function Embedded(s: Bytes, p: Plan, h: Bytes, h2: Bytes, image: Bytes): (t: Bytes)
    requires |s| >= 512 && |h| == |h2| == HEADER && |image| >= 512 + p.sizeA
    ensures |t| == |s|
  {
    Stages(Tables(s, p, h, h2), p, image)
  }

  // ----- byte by byte -----

  lemma {:induction false} ZeroEntriesAt(s: Bytes, base: nat, size: nat, lo: nat, hi: nat, x: nat)
    requires x < |s| && lo <= hi
    ensures lo * size <= hi * size
    ensures ZeroEntries(s, base, size, lo, hi)[x]
         == if base + lo * size <= x < base + hi * size then 0 else s[x]
  {
    if lo < hi {
      ZeroEntriesAt(s, base, size, lo, hi - 1, x);
      Distribute(hi, 1, size);
    }
  }

  lemma StagesAt(s: Bytes, p: Plan, image: Bytes, x: nat)
    requires |s| >= 512 && |image| >= 512 + p.sizeA && x < |s|
    requires 512 <= x && !(p.locA <= x < p.locA + p.sizeA) && !(p.locB <= x < p.locB + |image| - 512 - p.sizeA)
    ensures Stages(s, p, image)[x] == s[x]
  {
    hide LeBytes;
  }

  /** The boot sector keeps its timestamp and partition table and points to the halves. */
  lemma BootSector(s: Bytes, p: Plan, image: Bytes, x: nat)
    requires |s| >= 512 && |image| >= 512 + p.sizeA && x < 512
    requires p.locA >= 512 && p.locB >= 512
    ensures Stages(s, p, image)[x] ==
            if 218 <= x < 224 || 440 <= x < 510 then s[x]
            else if 420 <= x < 440 then
              (LeBytes(p.sizeA, 2) + LeBytes(p.sizeB, 2) + LeBytes(p.locA, 8) + LeBytes(p.locB, 8))[x - 420]
            else image[x]
  {
    hide LeBytes;
  }

  lemma HalfAt(s: Bytes, p: Plan, image: Bytes, x: nat)
    requires |s| >= 512 && |image| >= 512 + p.sizeA && x < |s|
    requires 512 <= p.locA && p.locA + p.sizeA <= p.locB
    ensures p.locA <= x < p.locA + p.sizeA ==> Stages(s, p, image)[x] == image[512 + x - p.locA]
    ensures p.locB <= x < p.locB + |image| - 512 - p.sizeA ==>
              Stages(s, p, image)[x] == image[512 + p.sizeA + x - p.locB]
  {
    hide LeBytes;
  }

  lemma HalfOfHeader(h: Bytes, c: nat, n: nat)
    requires |h| == HEADER
    ensures var z := SetField(SetField(SetField(h, 88, c, 4), 80, n, 4), 16, 0, 4);
      && z[88..92] == LeBytes(c, 4) && z[80..84] == LeBytes(n, 4) && z[16..20] == LeBytes(0, 4)
      && forall i :: 0 <= i < HEADER && !(16 <= i < 20) && !(80 <= i < 84) && !(88 <= i < 92) ==> z[i] == h[i]
  {
    hide LeBytes;
  }

  /** A new header records the count and the array checksum it was given, carries the checksum of
      its own first 92 bytes taken with that field zeroed, and is otherwise the old one. */
  lemma HeaderRecords(h: Bytes, c: nat, n: nat)
    requires |h| == HEADER && c < 0x1_0000_0000 && n < 0x1_0000_0000
    ensures var t := NewHeader(h, c, n);
      && LittleEndian(t[88..92]) == c && LittleEndian(t[80..84]) == n
      && LittleEndian(t[16..20]) == CrcOf(SetField(t, 16, 0, 4)[..92])
      && forall i :: 0 <= i < HEADER && !(16 <= i < 20) && !(80 <= i < 84) && !(88 <= i < 92) ==> t[i] == h[i]
  {
    var z := SetField(SetField(SetField(h, 88, c, 4), 80, n, 4), 16, 0, 4);
    HalfOfHeader(h, c, n);
    hide LeBytes, LittleEndian, CrcOf;
    var t := NewHeader(h, c, n);
    SetTwice(z, CrcOf(z[..92]));
    Word32(c);
    Word32(n);
    CrcWord(z[..92]);
    Word32(CrcOf(z[..92]));
    assert t[88..92] == z[88..92] && t[80..84] == z[80..84];
  }

  lemma SetTwice(z: Bytes, c: nat)
    requires |z| == HEADER && z[16..20] == LeBytes(0, 4)
    ensures var t := SetField(z, 16, c, 4);
      && t[16..20] == LeBytes(c, 4) && SetField(t, 16, 0, 4) == z
      && forall i :: 0 <= i < HEADER && !(16 <= i < 20) ==> t[i] == z[i]
  {
    hide LeBytes;
    var t := SetField(z, 16, c, 4);
    assert forall i :: 16 <= i < 20 ==> z[i] == LeBytes(0, 4)[i - 16] by {
      assert forall i :: 16 <= i < 20 ==> z[i] == z[16..20][i - 16];
    }
  }

  lemma Word32(n: nat)
    requires n < 0x1_0000_0000
    ensures LittleEndian(LeBytes(n, 4)) == n
  {
    hide LeBytes, LittleEndian;
    Pow2Values();
    LeBytesValue(n, 4);
  }

  lemma CrcWord(s: Bytes)
    ensures CrcOf(s) < 0x1_0000_0000
  {
    hide Crc32.Crc;
  }

  // ----- the embedding -----

  ghost predicate InArray(x: int, base: int, from: int, to: int) {
    base + from <= x < base + to
  }

  lemma ZeroedAt(s: Bytes, p: Plan, stage2: nat, x: nat)
    requires Apart(p, stage2, |s|) && p.kept <= p.count && x < |s|
    ensures var from, to := p.kept * p.entrySize, p.count * p.entrySize;
      Zeroed(s, p)[x] == if InArray(x, p.primary, from, to) || InArray(x, p.secondary, from, to) then 0 else s[x]
  {
    ZeroEntriesAt(s, p.primary, p.entrySize, p.kept, p.count, x);
    ZeroEntriesAt(ZeroEntries(s, p.primary, p.entrySize, p.kept, p.count), p.secondary, p.entrySize, p.kept, p.count, x);
    hide ZeroEntries;
  }

  /** Where the second half reaches the secondary header, the finished device has the half there. */
  lemma HeaderOverwritten(s: Bytes, p: Plan, h: Bytes, h2: Bytes, image: Bytes, x: nat)
    requires |s| >= 512 && |h| == |h2| == HEADER && |image| >= 512 + p.sizeA && x < |s|
    requires 512 <= p.locA && p.locA + p.sizeA <= p.locB
    requires p.locB <= x < p.locB + |image| - 512 - p.sizeA
    ensures Embedded(s, p, h, h2, image)[x] == image[512 + p.sizeA + x - p.locB]
  {
    hide Tables, Stages;
    HalfAt(Tables(s, p, h, h2), p, image, x);
  }

  /** An embedding that can be carried out, with the bounds that follow spelled out. */
  ghost predicate Sound(s: Bytes, p: Plan, h: Bytes, h2: Bytes, image: Bytes) {
    && |h| == |h2| == HEADER && |image| >= 512 && Apart(p, |image| - 512, |s|) && p.kept <= p.count
    && 0 <= p.kept * p.entrySize <= p.count * p.entrySize
    && p.primary + p.count * p.entrySize <= |s| && p.secondary + p.count * p.entrySize <= |s|
    && |s| >= 512 && |image| >= 512 + p.sizeA && p.lb + HEADER <= |s| && p.alternate + HEADER <= |s|
  }

  lemma ApartIsSound(s: Bytes, p: Plan, h: Bytes, h2: Bytes, image: Bytes)
    requires |h| == |h2| == HEADER && |image| >= 512 && Apart(p, |image| - 512, |s|) && p.kept <= p.count
    ensures Sound(s, p, h, h2, image)
  {
    MulBound(p.kept, p.entrySize, p.count, p.entrySize);
  }

  /** The whole device outside the boot sector, the two halves and the two headers. */
  lemma EmbeddedAt(s: Bytes, p: Plan, h: Bytes, h2: Bytes, image: Bytes, x: nat)
    requires Sound(s, p, h, h2, image)
    requires 512 <= x < |s|
    requires !(p.lb <= x < p.lb + HEADER) && !(p.alternate <= x < p.alternate + HEADER)
    requires !(p.locA <= x < p.locA + p.sizeA) && !(p.locB <= x < p.locB + p.sizeB)
    ensures Embedded(s, p, h, h2, image)[x] == Zeroed(s, p)[x]
  {
    StagesAt(Tables(s, p, h, h2), p, image, x);
    hide Stages, Zeroed, NewHeader, ArrayCrc;
  }

  lemma WithHeadersAt(z: Bytes, p: Plan, n: Bytes, n2: Bytes, i: nat)
    requires |n| == |n2| == HEADER && i < HEADER && p.lb + HEADER <= p.alternate && p.alternate + HEADER <= |z|
    ensures WithHeaders(z, p, n, n2)[p.lb + i] == n[i] && WithHeaders(z, p, n, n2)[p.alternate + i] == n2[i]
  {
  }

  lemma ApartHeaders(p: Plan, stage2: nat, len: nat)
    requires Apart(p, stage2, len) && p.kept <= p.count
    ensures 512 <= p.lb && p.lb + HEADER <= p.locA <= p.locB && p.alternate >= p.locA + p.sizeA
    ensures p.alternate >= p.locB + p.sizeB && p.locB >= p.locA + p.sizeA
    ensures 0 <= p.kept * p.entrySize <= p.count * p.entrySize
    ensures p.lb + HEADER <= p.alternate && p.alternate + HEADER <= len && p.primary + p.count * p.entrySize <= len
  {
    MulBound(p.kept, p.entrySize, p.count, p.entrySize);
  }

  /** The headers on the device are those computed from the zeroed arrays. */
  lemma HeadersAt(s: Bytes, p: Plan, h: Bytes, h2: Bytes, image: Bytes)
    requires Sound(s, p, h, h2, image)
    ensures var t, crc := Embedded(s, p, h, h2, image), ArrayCrc(Zeroed(s, p), p);
      && t[p.lb..p.lb + HEADER] == NewHeader(h, crc, p.count)
      && t[p.alternate..p.alternate + HEADER] == NewHeader(h2, crc, p.count)
  {
    hide Zeroed, NewHeader, ArrayCrc, Stages, WithHeaders;
    ApartHeaders(p, |image| - 512, |s|);
    hide Apart;
    var t, crc := Embedded(s, p, h, h2, image), ArrayCrc(Zeroed(s, p), p);
    var n, n2 := NewHeader(h, crc, p.count), NewHeader(h2, crc, p.count);
    forall i | 0 <= i < HEADER
      ensures t[p.lb + i] == n[i] && t[p.alternate + i] == n2[i]
    {
      StagesAt(Tables(s, p, h, h2), p, image, p.lb + i);
      StagesAt(Tables(s, p, h, h2), p, image, p.alternate + i);
      WithHeadersAt(Zeroed(s, p), p, n, n2, i);
    }
  }

  /** An array of which `kept` bytes stay and the rest up to `all` is zeroed. */
  lemma ArraySlice(s: Bytes, t: Bytes, base: nat, kept: nat, all: nat)
    requires kept <= all && base + all <= |s| == |t|
    requires forall x :: base <= x < base + all ==> t[x] == if x < base + kept then s[x] else 0
    ensures t[base..base + all] == s[base..base + kept] + Zeros(all - kept)
  {
    var u, v := t[base..base + all], s[base..base + kept] + Zeros(all - kept);
    assert forall i :: 0 <= i < all ==> u[i] == v[i] by {
      forall i | 0 <= i < all
        ensures u[i] == v[i]
      {
        assert u[i] == t[base + i];
      }
    }
  }

  lemma ArrayByte(s: Bytes, p: Plan, h: Bytes, h2: Bytes, image: Bytes, base: nat, x: nat)
    requires Sound(s, p, h, h2, image) && (base == p.primary || base == p.secondary)
    requires base <= x < base + p.count * p.entrySize
    ensures x < |s| && Embedded(s, p, h, h2, image)[x] == Zeroed(s, p)[x]
    ensures Zeroed(s, p)[x] == if x < base + p.kept * p.entrySize then s[x] else 0
  {
    hide Zeroed, Embedded;
    EmbeddedAt(s, p, h, h2, image, x);
    ZeroedAt(s, p, |image| - 512, x);
  }

  /** Used entries stay in either array, the other retained ones become zero. */
  lemma ArraysAfter(s: Bytes, p: Plan, h: Bytes, h2: Bytes, image: Bytes, base: nat, kept: nat, all: nat)
    requires Sound(s, p, h, h2, image) && (base == p.primary || base == p.secondary)
    requires kept == p.kept * p.entrySize && all == p.count * p.entrySize
    ensures base + all <= |s| && kept <= all
    ensures Embedded(s, p, h, h2, image)[base..base + all] == s[base..base + kept] + Zeros(all - kept)
    ensures Zeroed(s, p)[base..base + all] == s[base..base + kept] + Zeros(all - kept)
  {
    var t, z := Embedded(s, p, h, h2, image), Zeroed(s, p);
    assert |s| == |t| == |z| && base + all <= |s| && kept <= all;
    forall x | base <= x < base + all
      ensures t[x] == if x < base + kept then s[x] else 0
      ensures z[x] == if x < base + kept then s[x] else 0
    {
      hide *;
      ArrayByte(s, p, h, h2, image, base, x);
    }
    hide *;
    ArraySlice(s, z, base, kept, all);
    ArraySlice(s, t, base, kept, all);
  }

  /** The kept entries of the two arrays agree. */
  ghost predicate Mirrored(s: Bytes, p: Plan) {
    var kept := p.kept * p.entrySize;
    && 0 <= kept && p.primary + kept <= |s| && p.secondary + kept <= |s|
    && s[p.secondary..p.secondary + kept] == s[p.primary..p.primary + kept]
  }

  /** The arrays of the finished device, and their checksum as both headers record it. */
  lemma EmbeddingResult(s: Bytes, p: Plan, h: Bytes, h2: Bytes, image: Bytes)
    requires Sound(s, p, h, h2, image)
    requires Mirrored(s, p)
    ensures var t, kept, all := Embedded(s, p, h, h2, image), p.kept * p.entrySize, p.count * p.entrySize;
      && t[p.primary..p.primary + all] == s[p.primary..p.primary + kept] + Zeros(all - kept)
      && t[p.secondary..p.secondary + all] == s[p.secondary..p.secondary + kept] + Zeros(all - kept)
      && t[p.lb..p.lb + HEADER] == NewHeader(h, CrcOf(t[p.primary..p.primary + all]), p.count)
      && t[p.alternate..p.alternate + HEADER] == NewHeader(h2, CrcOf(t[p.secondary..p.secondary + all]), p.count)
  {
    hide Zeroed, Embedded, NewHeader, CrcOf;
    ApartHeaders(p, |image| - 512, |s|);
    HeadersAt(s, p, h, h2, image);
    ArraysAfter(s, p, h, h2, image, p.primary, p.kept * p.entrySize, p.count * p.entrySize);
    ArraysAfter(s, p, h, h2, image, p.secondary, p.kept * p.entrySize, p.count * p.entrySize);
  }

  /** The header at `at` has the entry count, the checksum of the array at `base`, and its own. */
  ghost predicate Recorded(t: Bytes, p: Plan, at: nat, base: nat) {
    var all := p.count * p.entrySize;
    && at + HEADER <= |t| && 0 <= all && base + all <= |t|
    && var h := t[at..at + HEADER];
    && LittleEndian(h[80..84]) == p.count
    && LittleEndian(h[88..92]) == CrcOf(t[base..base + all])
    && LittleEndian(h[16..20]) == CrcOf(SetField(h, 16, 0, 4)[..92])
  }

  lemma NewHeaderRecorded(t: Bytes, p: Plan, at: nat, base: nat, h: Bytes, all: nat)
    requires |h| == HEADER && at + HEADER <= |t| && all == p.count * p.entrySize && base + all <= |t|
    requires t[at..at + HEADER] == NewHeader(h, CrcOf(t[base..base + all]), p.count) && p.count < 0x1_0000_0000
    ensures Recorded(t, p, at, base)
  {
    hide NewHeader, CrcOf, LittleEndian, SetField;
    CrcWord(t[base..base + all]);
    HeaderRecords(h, CrcOf(t[base..base + all]), p.count);
  }

  /** Both headers of the finished device are right about both arrays. */
  lemma BothRecorded(s: Bytes, t: Bytes, p: Plan, h: Bytes, h2: Bytes, image: Bytes)
    requires Sound(s, p, h, h2, image) && Mirrored(s, p) && p.count < 0x1_0000_0000
    requires t == Embedded(s, p, h, h2, image)
    ensures Recorded(t, p, p.lb, p.primary) && Recorded(t, p, p.alternate, p.secondary)
  {
    hide *;
    var all := p.count * p.entrySize;
    HeadersOf(s, p, h, h2, image, all);
    NewHeaderRecorded(t, p, p.lb, p.primary, h, all);
    NewHeaderRecorded(t, p, p.alternate, p.secondary, h2, all);
  }

  lemma HeadersOf(s: Bytes, p: Plan, h: Bytes, h2: Bytes, image: Bytes, all: int)
    requires Sound(s, p, h, h2, image) && Mirrored(s, p) && all == p.count * p.entrySize
    ensures |h| == |h2| == HEADER && p.lb + HEADER <= |s| && p.alternate + HEADER <= |s| && 0 <= all
    ensures p.primary + all <= |s| && p.secondary + all <= |s|
    ensures var t := Embedded(s, p, h, h2, image);
      && t[p.lb..p.lb + HEADER] == NewHeader(h, CrcOf(t[p.primary..p.primary + all]), p.count)
      && t[p.alternate..p.alternate + HEADER] == NewHeader(h2, CrcOf(t[p.secondary..p.secondary + all]), p.count)
  {
    hide Embedded, NewHeader, CrcOf, Mirrored, Apart;
    EmbeddingResult(s, p, h, h2, image);
  }

  /** Nothing else on the device changes. */
  lemma Untouched(s: Bytes, p: Plan, h: Bytes, h2: Bytes, image: Bytes, x: nat)
    requires Sound(s, p, h, h2, image) && 512 <= x < |s|
    requires !(p.lb <= x < p.lb + HEADER) && !(p.alternate <= x < p.alternate + HEADER)
    requires !(p.primary + p.kept * p.entrySize <= x < p.primary + p.count * p.entrySize)
    requires !(p.secondary + p.kept * p.entrySize <= x < p.secondary + p.count * p.entrySize)
    requires !(p.locA <= x < p.locA + p.sizeA) && !(p.locB <= x < p.locB + p.sizeB)
    ensures Embedded(s, p, h, h2, image)[x] == s[x]
  {
    hide Zeroed, Embedded;
    EmbeddedAt(s, p, h, h2, image, x);
    ZeroedAt(s, p, |image| - 512, x);
  }
}
