/**
 A GPT installation told by the bytes of the device alone, before and after: where section 5.3 of the
 UEFI specification puts the numbers of a table, and what the installer leaves of it.
 */
module GptOnDisk {
  import opened Machine
  import opened ModArith
  import opened Bits
  import opened Endian
  import opened Journal
  import opened BlockCache
  import opened GptLayout
  import opened GptContents
  import opened GptInstall
  import Crc32

  /** The little-endian number in `n` bytes. */
  function Num(s: Bytes, at: nat, n: nat): nat
    requires at + n <= |s|
  {
    LittleEndian(s[at..at + n])
  }

  /** The table of a device with blocks of `lb` bytes: its secondary header is at `alt`, the two arrays
      are at `first` and `second`, and hold `entries` entries of `size` bytes. */
  ghost predicate TableAt(s: Bytes, lb: nat, alt: nat, first: nat, second: nat, size: nat, entries: nat) {
    && (lb == 512 || lb == 4096) && lb + 96 <= |s| && s[lb..lb + 8] == Ascii("EFI PART")
    && (lb == 4096 ==> s[512..520] != Ascii("EFI PART"))
    && alt == Num(s, lb + 32, 8) * lb && alt + 96 <= |s| && s[alt..alt + 8] == Ascii("EFI PART")
    && first == Num(s, lb + 72, 8) * lb && second == Num(s, alt + 72, 8) * lb
    && entries == Num(s, lb + 80, 4) && size == Num(s, lb + 84, 4) && size == Num(s, alt + 84, 4)
  }

  /** Entries of at least 128 bytes in 32 blocks for each array, the second below its header. */
  predicate RoomFor(len: nat, lb: nat, alt: nat, first: nat, second: nat, size: nat, entries: nat) {
    && size >= 128 && entries * size <= 32 * lb
    && 2 * lb <= first && first + 32 * lb <= second && second + 32 * lb <= alt && alt + lb <= len
  }

  /** An entry whose unique identifier is not zero. */
  ghost predicate UsedAt(s: Bytes, at: nat) {
    at + 32 <= |s| && exists i :: at + 16 <= i < at + 32 && s[i] != 0
  }

  /** All used entries, the last one the `kept`-th. */
  ghost predicate LastUsed(s: Bytes, first: nat, size: nat, entries: nat, kept: nat) {
    && kept <= entries && (kept > 0 ==> UsedAt(s, Entry(first, size, kept - 1)))
    && forall i :: kept <= i < entries ==> !UsedAt(s, Entry(first, size, i))
  }

  /** The header at `at` gives the number of entries and the checksum of the array at `base`, its own
      checksum is that of its first 92 bytes with this field zero, and it is otherwise as it was. */
  ghost predicate HeaderRight(s: Bytes, t: Bytes, at: nat, base: nat, all: nat, count: nat) {
    && at + 96 <= |t| == |s| && base + all <= |t|
    && Num(t, at + 80, 4) == count && Num(t, at + 88, 4) == Crc32.Crc(t[base..base + all]) as nat
    && Num(t, at + 16, 4) == Crc32.Crc(t[at..at + 16] + [0, 0, 0, 0] + t[at + 20..at + 92]) as nat
    && forall x ::
         at <= x < at + 96 && !(at + 16 <= x < at + 20) && !(at + 80 <= x < at + 84) && !(at + 88 <= x < at + 92) ==>
           t[x] == s[x]
  }

  /** The boot sector: image, places and sizes of the halves, old timestamp and partition table. */
  ghost predicate BootRight(s: Bytes, t: Bytes, image: Bytes, locA: nat, sizeA: nat, locB: nat, sizeB: nat) {
    && |t| == |s| >= 512 && |image| >= 512
    && Num(t, 0x1a4, 2) == sizeA && Num(t, 0x1a6, 2) == sizeB && Num(t, 0x1a8, 8) == locA && Num(t, 0x1b0, 8) == locB
    && t[218..224] == s[218..224] && t[440..510] == s[440..510]
    && forall x :: 0 <= x < 512 && !(218 <= x < 224) && !(420 <= x < 510) ==> t[x] == image[x]
  }

  /** A half lies in the 32 blocks from its array on, behind the `all` bytes that are left of that. */
  ghost predicate HalfRight(t: Bytes, half: Bytes, loc: nat, size: nat, base: nat, all: nat, lb: nat) {
    && |half| <= size && base + all <= loc && loc + size <= base + 32 * lb
    && loc + |half| <= |t| && t[loc..loc + |half|] == half
  }

  /** What is left of the table. */
  ghost predicate Finished(s: Bytes, t: Bytes, image: Bytes, lb: nat, alt: nat, first: nat, second: nat, size: nat,
                           entries: nat, count: nat, locA: nat, sizeA: nat, locB: nat, sizeB: nat) {
    && 512 + sizeA <= |image| && 0 <= count * size
    && BootRight(s, t, image, locA, sizeA, locB, sizeB)
    && HalfRight(t, image[512..512 + sizeA], locA, sizeA, first, count * size, lb)
    && HalfRight(t, image[512 + sizeA..], locB, sizeB, second, count * size, lb)
    && HeaderRight(s, t, lb, first, count * size, count)
    && second + count * size <= |s|
    && (s[first..first + count * size] == s[second..second + count * size] ==>
          HeaderRight(s, t, alt, second, count * size, count))
    && forall i :: 0 <= i < entries && UsedAt(s, Entry(first, size, i)) ==>
         && EntryKept(s, t, Entry(first, size, i), size) && EntryKept(s, t, Entry(second, size, i), size)
  }

  ghost predicate EntryKept(s: Bytes, t: Bytes, at: nat, size: nat) {
    at + size <= |s| == |t| && t[at..at + size] == s[at..at + size]
  }

  // ----- from the bytes to the table and back -----

  lemma Signature()
    ensures SIGNATURE == Ascii("EFI PART")
  {
  }

  lemma UsedIs(s: Bytes, base: nat, size: nat, i: nat)
    ensures Used(s, base, size, i) <==> UsedAt(s, Entry(base, size, i))
  {
    var at := Entry(base, size, i);
    hide Entry;
    if at + 32 <= |s| {
      var u := s[at + 16..at + 32];
      NonZero(u);
      assert forall k :: at + 16 <= k < at + 32 ==> s[k] == u[k - at - 16];
      if u != Zeros(16) {
        var k :| 0 <= k < 16 && u[k] != 0;
        assert s[at + 16 + k] != 0;
      }
    }
  }

  lemma NonZero(u: Bytes)
    ensures u != Zeros(|u|) <==> exists k :: 0 <= k < |u| && u[k] != 0
  {
  }

  lemma LastUsedIs(s: Bytes, g: Gpt, kept: nat, first: nat)
    requires first == g.primaryLba * g.lb
    ensures Keeps(s, g, kept) <==> LastUsed(s, first, g.entrySize, g.entries, kept)
  {
    hide Used, UsedAt, Entry;
    forall i: nat
      ensures Used(s, first, g.entrySize, i) <==> UsedAt(s, Entry(first, g.entrySize, i))
    {
      UsedIs(s, first, g.entrySize, i);
    }
  }

  /** The numbers of a table are those of the `Gpt` that describes the device. */
  ghost predicate SameNumbers(g: Gpt, lb: nat, alt: nat, first: nat, second: nat, size: nat, entries: nat) {
    && g.lb == lb && g.alternateLba * lb == alt && g.primaryLba * lb == first && g.secondaryLba * lb == second
    && g.entries == entries && g.entrySize == g.secondarySize == size
  }

  lemma TableIs(s: Bytes, g: Gpt, lb: nat, alt: nat, first: nat, second: nat, size: nat, entries: nat)
    requires TableAt(s, lb, alt, first, second, size, entries) && Describes(s, g)
    ensures SameNumbers(g, lb, alt, first, second, size, entries)
  {
    Signature();
    hide LittleEndian, Ascii;
    assert g.lb == lb by {
      assert s[512..520] == HeaderAt(s, 512)[..8];
      assert s[lb..lb + 8] == HeaderAt(s, lb)[..8];
    }
    HeaderNumbers(s, lb);
    HeaderNumbers(s, alt);
  }

  lemma HeaderNumbers(s: Bytes, at: nat)
    requires at + 96 <= |s|
    ensures var h := HeaderAt(s, at);
      && LittleEndian(h[32..40]) == Num(s, at + 32, 8) && LittleEndian(h[72..80]) == Num(s, at + 72, 8)
      && LittleEndian(h[80..84]) == Num(s, at + 80, 4) && LittleEndian(h[84..88]) == Num(s, at + 84, 4)
      && h[..8] == s[at..at + 8]
  {
    var h := HeaderAt(s, at);
    hide LittleEndian;
    SubSlice(s, at, 96, 0, 8);
    SubSlice(s, at, 96, 32, 8);
    SubSlice(s, at, 96, 72, 8);
    SubSlice(s, at, 96, 80, 4);
    SubSlice(s, at, 96, 84, 4);
  }

  /** A table on the device is described by some `Gpt`. */
  lemma TableDescribed(s: Bytes, lb: nat, alt: nat, first: nat, second: nat, size: nat, entries: nat) returns (g: Gpt)
    requires TableAt(s, lb, alt, first, second, size, entries)
    ensures Describes(s, g) && SameNumbers(g, lb, alt, first, second, size, entries)
  {
    Signature();
    hide LittleEndian, Ascii;
    HeaderNumbers(s, lb);
    HeaderNumbers(s, alt);
    if lb == 4096 {
      HeaderNumbers(s, 512);
    }
    g := Fields(lb, HeaderAt(s, lb), HeaderAt(s, alt));
  }

  lemma SameProduct(a: int, b: int, lb: int)
    requires lb > 0
    ensures a * lb <= b * lb <==> a <= b
  {
    MulGap(a - b, lb);
    Distribute(a, b, lb);
  }

  lemma RoomIsWellFormed(g: Gpt, stage2: nat, len: nat, lb: nat, alt: nat, first: nat, second: nat, size: nat, entries: nat)
    requires SameNumbers(g, lb, alt, first, second, size, entries) && (lb == 512 || lb == 4096)
    requires RoomFor(len, lb, alt, first, second, size, entries) && Fitting(lb, stage2)
    ensures WellFormed(g, stage2, len)
  {
    hide Fitting;
    SameProduct(2, g.primaryLba, lb);
    SameProduct(g.primaryLba + 32, g.secondaryLba, lb);
    SameProduct(g.secondaryLba + 32, g.alternateLba, lb);
    Distribute(g.primaryLba, 32, lb);
    Distribute(g.secondaryLba, 32, lb);
    Distribute(g.alternateLba, 1, lb);
  }

  // ----- the finished device -----

  lemma Blanked(h: Bytes)
    requires |h| == 96
    ensures SetField(h, 16, 0, 4)[..92] == h[..16] + [0, 0, 0, 0] + h[20..92]
  {
    assert LeBytes(0, 4) == [0, 0, 0, 0] by { ZeroWord(); }
    hide LeBytes;
  }

  lemma ZeroWord()
    ensures LeBytes(0, 4) == [0, 0, 0, 0]
  {
  }

  /** A rewritten header on the device. */
  lemma NewHeaderRight(s: Bytes, t: Bytes, at: nat, base: nat, all: nat, count: nat, h: Bytes, crc: nat)
    requires at + HEADER <= |s| == |t| && base + all <= |t| && count < 0x1_0000_0000
    requires h == s[at..at + HEADER] && crc == CrcOf(t[base..base + all])
    requires t[at..at + HEADER] == NewHeader(h, crc, count)
    ensures HeaderRight(s, t, at, base, all, count)
  {
    var h' := t[at..at + 96];
    hide LittleEndian, CrcOf, NewHeader, SetField;
    CrcWord(t[base..base + all]);
    HeaderRecords(h, crc, count);
    Blanked(h');
    Inside(t, at);
    KeptBytes(s, t, at, h, h');
    CrcIs(t[base..base + all]);
    CrcIs(h'[..16] + [0, 0, 0, 0] + h'[20..92]);
  }

  lemma Inside(t: Bytes, at: nat)
    requires at + 96 <= |t|
    ensures var h := t[at..at + 96];
      && h[80..84] == t[at + 80..at + 84] && h[88..92] == t[at + 88..at + 92] && h[16..20] == t[at + 16..at + 20]
      && h[..16] == t[at..at + 16] && h[20..92] == t[at + 20..at + 92]
  {
    SubSlice(t, at, 96, 80, 4);
    SubSlice(t, at, 96, 88, 4);
    SubSlice(t, at, 96, 16, 4);
    SubSlice(t, at, 96, 0, 16);
    SubSlice(t, at, 96, 20, 72);
  }

  lemma KeptBytes(s: Bytes, t: Bytes, at: nat, h: Bytes, h': Bytes)
    requires at + 96 <= |s| == |t| && h == s[at..at + 96] && h' == t[at..at + 96]
    requires forall i :: 0 <= i < 96 && !(16 <= i < 20) && !(80 <= i < 84) && !(88 <= i < 92) ==> h'[i] == h[i]
    ensures forall x ::
      at <= x < at + 96 && !(at + 16 <= x < at + 20) && !(at + 80 <= x < at + 84) && !(at + 88 <= x < at + 92) ==>
        t[x] == s[x]
  {
    forall x | at <= x < at + 96 && !(at + 16 <= x < at + 20) && !(at + 80 <= x < at + 84) && !(at + 88 <= x < at + 92)
      ensures t[x] == s[x]
    {
      assert t[x] == h'[x - at] && s[x] == h[x - at];
    }
  }

  lemma CrcIs(s: Bytes)
    ensures CrcOf(s) == Crc32.Crc(s) as nat
  {
  }

  lemma CrcOfArray(z: Bytes, t: Bytes, p: Plan, all: nat)
    requires all == p.count * p.entrySize && p.primary + all <= |z| == |t|
    requires z[p.primary..p.primary + all] == t[p.primary..p.primary + all]
    ensures ArrayCrc(z, p) == CrcOf(t[p.primary..p.primary + all])
  {
    hide CrcOf;
  }

  lemma SameCrc(s: Bytes, t: Bytes, p: Plan, h: Bytes, h2: Bytes, image: Bytes, kept: nat, all: nat, crc: nat)
    requires kept == p.kept * p.entrySize && all == p.count * p.entrySize && p.primary + all <= |s|
    requires Sound(s, p, h, h2, image) && t == Embedded(s, p, h, h2, image) && crc == ArrayCrc(Zeroed(s, p), p)
    ensures |t| == |s| && crc == CrcOf(t[p.primary..p.primary + all])
  {
    hide *;
    ArraysAfter(s, p, h, h2, image, p.primary, kept, all);
    CrcOfArray(Zeroed(s, p), t, p, all);
  }

  lemma HeadersGot(s: Bytes, t: Bytes, p: Plan, h: Bytes, h2: Bytes, image: Bytes, crc: nat)
    requires Sound(s, p, h, h2, image) && t == Embedded(s, p, h, h2, image) && crc == ArrayCrc(Zeroed(s, p), p)
    ensures |h| == |h2| == HEADER && |t| == |s| && p.lb + HEADER <= |s| && p.alternate + HEADER <= |s|
    ensures t[p.lb..p.lb + HEADER] == NewHeader(h, crc, p.count)
    ensures t[p.alternate..p.alternate + HEADER] == NewHeader(h2, crc, p.count)
  {
    HeadersAt(s, p, h, h2, image);
    hide Embedded, NewHeader, Apart, ArrayCrc;
  }

  /** The primary header is right about the primary array, and the secondary about its own if the two
      arrays agreed. */
  lemma HeadersRight(s: Bytes, t: Bytes, p: Plan, h: Bytes, h2: Bytes, image: Bytes, kept: nat, all: nat)
    requires p.lb + HEADER <= |s| && p.alternate + HEADER <= |s| && p.count < 0x1_0000_0000
    requires h == s[p.lb..p.lb + HEADER] && h2 == s[p.alternate..p.alternate + HEADER]
    requires kept == p.kept * p.entrySize && all == p.count * p.entrySize && kept <= all
    requires p.primary + all <= |s| && p.secondary + all <= |s|
    requires Sound(s, p, h, h2, image) && t == Embedded(s, p, h, h2, image)
    ensures HeaderRight(s, t, p.lb, p.primary, all, p.count)
    ensures s[p.primary..p.primary + all] == s[p.secondary..p.secondary + all] ==>
              HeaderRight(s, t, p.alternate, p.secondary, all, p.count)
  {
    hide *;
    var crc := ArrayCrc(Zeroed(s, p), p);
    SameCrc(s, t, p, h, h2, image, kept, all, crc);
    HeadersGot(s, t, p, h, h2, image, crc);
    NewHeaderRight(s, t, p.lb, p.primary, all, p.count, h, crc);
    if s[p.primary..p.primary + all] == s[p.secondary..p.secondary + all] {
      ArraysAgree(s, t, p, h, h2, image, kept, all);
      NewHeaderRight(s, t, p.alternate, p.secondary, all, p.count, h2, crc);
    }
  }

  lemma ArraysAgree(s: Bytes, t: Bytes, p: Plan, h: Bytes, h2: Bytes, image: Bytes, kept: nat, all: nat)
    requires kept == p.kept * p.entrySize && all == p.count * p.entrySize && kept <= all
    requires p.primary + all <= |s| && p.secondary + all <= |s|
    requires Sound(s, p, h, h2, image) && t == Embedded(s, p, h, h2, image)
    requires s[p.primary..p.primary + all] == s[p.secondary..p.secondary + all]
    ensures |t| == |s| && t[p.primary..p.primary + all] == t[p.secondary..p.secondary + all]
  {
    hide *;
    ArrayGot(s, t, p, h, h2, image, kept, all, p.primary);
    ArrayGot(s, t, p, h, h2, image, kept, all, p.secondary);
    SameHeads(s, p.primary, p.secondary, kept, all);
  }

  lemma ArrayGot(s: Bytes, t: Bytes, p: Plan, h: Bytes, h2: Bytes, image: Bytes, kept: nat, all: nat, base: nat)
    requires kept == p.kept * p.entrySize && all == p.count * p.entrySize && kept <= all && base + all <= |s|
    requires Sound(s, p, h, h2, image) && t == Embedded(s, p, h, h2, image)
    requires base == p.primary || base == p.secondary
    ensures |t| == |s| && t[base..base + all] == s[base..base + kept] + Zeros(all - kept)
  {
    hide *;
    ArraysAfter(s, p, h, h2, image, base, kept, all);
  }

  lemma SameHeads(s: Bytes, a: nat, b: nat, kept: nat, all: nat)
    requires kept <= all && a + all <= |s| && b + all <= |s| && s[a..a + all] == s[b..b + all]
    ensures s[a..a + kept] == s[b..b + kept]
  {
    SubSlice(s, a, all, 0, kept);
    SubSlice(s, b, all, 0, kept);
  }

  lemma SoundBounds(s: Bytes, p: Plan, h: Bytes, h2: Bytes, image: Bytes, kept: int, all: int)
    requires Sound(s, p, h, h2, image) && kept == p.kept * p.entrySize && all == p.count * p.entrySize
    ensures 0 <= kept <= all && p.primary + all <= |s| && p.secondary + all <= |s|
    ensures 512 <= p.locA && 512 <= p.locB && p.locA + p.sizeA <= p.locB && p.locB + p.sizeB <= |s|
    ensures 512 + p.sizeA <= |image| <= 512 + p.sizeA + p.sizeB && p.primary + all <= p.locA && p.secondary + all <= p.locB
  {
  }

  lemma BootIsRight(s: Bytes, u: Bytes, p: Plan, image: Bytes)
    requires |s| == |u| >= 512 && |image| >= 512 + p.sizeA && p.locA >= 512 && p.locB >= 512
    requires forall x :: 0 <= x < 512 ==> u[x] == s[x]
    requires p.sizeA < 0x1_0000 && p.sizeB < 0x1_0000 && p.locA <= NO_BLOCK && p.locB <= NO_BLOCK
    ensures BootRight(s, Stages(u, p, image), image, p.locA, p.sizeA, p.locB, p.sizeB)
  {
    var t := Stages(u, p, image);
    var w := LeBytes(p.sizeA, 2) + LeBytes(p.sizeB, 2) + LeBytes(p.locA, 8) + LeBytes(p.locB, 8);
    hide LeBytes, LittleEndian, Stages;
    forall x | 0 <= x < 512
      ensures t[x] == if 218 <= x < 224 || 440 <= x < 510 then s[x] else if 420 <= x < 440 then w[x - 420] else image[x]
    {
      BootSector(u, p, image, x);
    }
    assert t[218..224] == s[218..224] && t[440..510] == s[440..510];
    Pointers(t, w, p);
  }

  lemma Pointers(t: Bytes, w: Bytes, p: Plan)
    requires w == LeBytes(p.sizeA, 2) + LeBytes(p.sizeB, 2) + LeBytes(p.locA, 8) + LeBytes(p.locB, 8)
    requires |t| >= 512 && forall x :: 420 <= x < 440 ==> t[x] == w[x - 420]
    requires p.sizeA < 0x1_0000 && p.sizeB < 0x1_0000 && p.locA <= NO_BLOCK && p.locB <= NO_BLOCK
    ensures Num(t, 0x1a4, 2) == p.sizeA && Num(t, 0x1a6, 2) == p.sizeB
    ensures Num(t, 0x1a8, 8) == p.locA && Num(t, 0x1b0, 8) == p.locB
  {
    hide LeBytes, LittleEndian;
    assert w[0..2] == LeBytes(p.sizeA, 2) && w[2..4] == LeBytes(p.sizeB, 2);
    assert w[4..12] == LeBytes(p.locA, 8) && w[12..20] == LeBytes(p.locB, 8);
    assert t[420..422] == w[0..2] && t[422..424] == w[2..4] && t[424..432] == w[4..12] && t[432..440] == w[12..20];
    NumberBack(p.sizeA, 2);
    NumberBack(p.sizeB, 2);
    NumberBack(p.locA, 8);
    NumberBack(p.locB, 8);
  }

  lemma NumberBack(n: nat, k: nat)
    requires (k == 2 && n < 0x1_0000) || (k == 8 && n <= NO_BLOCK)
    ensures LittleEndian(LeBytes(n, k)) == n
  {
    hide LittleEndian, LeBytes;
    Pow2Values();
    hide Pow2;
    LeBytesValue(n, k);
  }

  lemma HalvesRight(u: Bytes, p: Plan, image: Bytes)
    requires |u| >= 512 && |image| >= 512 + p.sizeA && 512 <= p.locA && p.locA + p.sizeA <= p.locB
    requires p.locB + |image| - 512 - p.sizeA <= |u|
    ensures var t := Stages(u, p, image);
      && t[p.locA..p.locA + p.sizeA] == image[512..512 + p.sizeA]
      && t[p.locB..p.locB + |image| - 512 - p.sizeA] == image[512 + p.sizeA..]
  {
    var t := Stages(u, p, image);
    hide Stages;
    forall x | 0 <= x < |u|
      ensures p.locA <= x < p.locA + p.sizeA ==> t[x] == image[512 + x - p.locA]
      ensures p.locB <= x < p.locB + |image| - 512 - p.sizeA ==> t[x] == image[512 + p.sizeA + x - p.locB]
    {
      HalfAt(u, p, image, x);
    }
    assert t[p.locA..p.locA + p.sizeA] == image[512..512 + p.sizeA];
    assert t[p.locB..p.locB + |image| - 512 - p.sizeA] == image[512 + p.sizeA..];
  }

  lemma TablesKeepBoot(s: Bytes, p: Plan, h: Bytes, h2: Bytes, image: Bytes, x: nat)
    requires Sound(s, p, h, h2, image) && x < 512
    ensures Tables(s, p, h, h2)[x] == s[x]
  {
    BootBelow(s, p, h, h2, image);
    ZeroedAt(s, p, |image| - 512, x);
    hide Zeroed, NewHeader, ArrayCrc;
  }

  lemma BootBelow(s: Bytes, p: Plan, h: Bytes, h2: Bytes, image: Bytes)
    requires Sound(s, p, h, h2, image)
    ensures 512 <= p.lb && 512 <= p.alternate && 512 <= p.primary && 512 <= p.secondary && |h| == |h2| == HEADER
    ensures 0 <= p.kept * p.entrySize
  {
  }

  lemma BootOnDisk(s: Bytes, t: Bytes, p: Plan, h: Bytes, h2: Bytes, image: Bytes)
    requires Sound(s, p, h, h2, image) && t == Embedded(s, p, h, h2, image)
    requires 512 <= p.locA && 512 <= p.locB && p.locA + p.sizeA <= p.locB && p.locB + |image| - 512 - p.sizeA <= |s|
    requires |image| >= 512 + p.sizeA
    requires p.sizeA < 0x1_0000 && p.sizeB < 0x1_0000 && p.locA <= NO_BLOCK && p.locB <= NO_BLOCK
    ensures BootRight(s, t, image, p.locA, p.sizeA, p.locB, p.sizeB)
    ensures t[p.locA..p.locA + p.sizeA] == image[512..512 + p.sizeA]
    ensures t[p.locB..p.locB + |image| - 512 - p.sizeA] == image[512 + p.sizeA..]
  {
    var u := Tables(s, p, h, h2);
    hide Tables, Stages, BootRight;
    forall x | 0 <= x < 512
      ensures u[x] == s[x]
    {
      TablesKeepBoot(s, p, h, h2, image, x);
    }
    BootIsRight(s, u, p, image);
    HalvesRight(u, p, image);
  }

  /** The halves end within the 32 blocks from their arrays. */
  lemma HalvesInPlace(g: Gpt, stage2: nat, kept: nat, p: Plan)
    requires g.lb > 0 && g.entrySize > 0 && Fitting(g.lb, stage2) && p == MakePlan(g, stage2, kept)
    ensures p.locA + p.sizeA <= p.primary + 32 * p.lb && p.locB + p.sizeB <= p.secondary + 32 * p.lb
    ensures p.sizeA < 0x1_0000 && p.sizeB < 0x1_0000 && p.sizeA > 0
    ensures p.primary == g.primaryLba * g.lb && p.secondary == g.secondaryLba * g.lb && p.alternate == g.alternateLba * g.lb
    ensures p.lb == g.lb && p.entrySize == g.entrySize && p.secondarySize == g.secondarySize && p.kept == kept
  {
    HalvesAre(g.lb, stage2);
    var a, b := HalfA(Sectors(stage2)), HalfB(Sectors(stage2));
    assert a < 0x1_0000 && b < 0x1_0000;
    hide HalfA, HalfB, Sectors, Spare;
    HalfEnds(g.primaryLba, a, g.lb, g.primaryLba + 32);
    HalfEnds(g.secondaryLba, b, g.lb, g.secondaryLba + 32);
    Distribute(g.primaryLba, 32, g.lb);
    Distribute(g.secondaryLba, 32, g.lb);
  }

  lemma UsedKept(s: Bytes, t: Bytes, g: Gpt, h: Bytes, h2: Bytes, image: Bytes, kept: nat, records: int,
                 first: nat, second: nat)
    requires |image| >= 512 && WellFormed(g, |image| - 512, |s|)
    requires EmbeddedAs(s, t, g, h, h2, image, kept, records)
    requires first == g.primaryLba * g.lb && second == g.secondaryLba * g.lb
    ensures forall i :: 0 <= i < g.entries && UsedAt(s, Entry(first, g.entrySize, i)) ==>
      && EntryKept(s, t, Entry(first, g.entrySize, i), g.entrySize)
      && EntryKept(s, t, Entry(second, g.entrySize, i), g.entrySize)
  {
    forall i | 0 <= i < g.entries && UsedAt(s, Entry(first, g.entrySize, i))
      ensures EntryKept(s, t, Entry(first, g.entrySize, i), g.entrySize)
      ensures EntryKept(s, t, Entry(second, g.entrySize, i), g.entrySize)
    {
      hide *;
      UsedIs(s, first, g.entrySize, i);
      OneKept(s, t, g, h, h2, image, kept, records, i, first);
      OneKept(s, t, g, h, h2, image, kept, records, i, second);
    }
  }

  lemma OneKept(s: Bytes, t: Bytes, g: Gpt, h: Bytes, h2: Bytes, image: Bytes, kept: nat, records: int, i: nat, base: nat)
    requires |image| >= 512 && WellFormed(g, |image| - 512, |s|)
    requires EmbeddedAs(s, t, g, h, h2, image, kept, records)
    requires i < g.entries && Used(s, g.primaryLba * g.lb, g.entrySize, i)
    requires base == g.primaryLba * g.lb || base == g.secondaryLba * g.lb
    ensures EntryKept(s, t, Entry(base, g.entrySize, i), g.entrySize)
  {
    hide EmbeddedAs, WellFormed, Entry, Used;
    UsedEntrySurvives(s, t, g, h, h2, image, kept, records, i, base);
  }

  /** Everything together. */
  lemma Assemble(s: Bytes, t: Bytes, g: Gpt, h: Bytes, h2: Bytes, image: Bytes, kept: nat, records: int, p: Plan, all: nat)
    requires p.lb + HEADER <= |s| && h == s[p.lb..p.lb + HEADER]
    requires p.alternate + HEADER <= |s| && h2 == s[p.alternate..p.alternate + HEADER]
    requires all == p.count * p.entrySize
    requires |image| >= 512 && g.lb > 0 && g.entrySize > 0 && Fitting(g.lb, |image| - 512)
    requires p == MakePlan(g, |image| - 512, kept)
    requires WellFormed(g, |image| - 512, |s|) && InRange64(g, |image|)
    requires EmbeddedAs(s, t, g, h, h2, image, kept, records)
    ensures Finished(s, t, image, p.lb, p.alternate, p.primary, p.secondary, p.entrySize, g.entries,
                     p.count, p.locA, p.sizeA, p.locB, p.sizeB)
  {
    hide MakePlan, EmbeddedAs, Embedded, Fitting, Sound, HeaderRight, BootRight, InRange64;
    TookPlan(s, t, g, h, h2, image, kept, records, p);
    PlanIsSound(s, g, h, h2, image, kept);
    CountBound(g, |image| - 512, kept);
    HalvesInPlace(g, |image| - 512, kept, p);
    PlaceBelow(g, |image|, kept, p);
    var keptBytes := p.kept * p.entrySize;
    SoundBounds(s, p, h, h2, image, keptBytes, all);
    hide WellFormed;
    UsedKept(s, t, g, h, h2, image, kept, records, p.primary, p.secondary);
    BootOnDisk(s, t, p, h, h2, image);
    HeadersRight(s, t, p, h, h2, image, keptBytes, all);
  }

  lemma TookPlan(s: Bytes, t: Bytes, g: Gpt, h: Bytes, h2: Bytes, image: Bytes, kept: nat, records: int, p: Plan)
    requires EmbeddedAs(s, t, g, h, h2, image, kept, records) && p == MakePlan(g, |image| - 512, kept)
    ensures |s| >= 512 && |h| == |h2| == HEADER && |image| >= 512 + p.sizeA && t == Embedded(s, p, h, h2, image)
    ensures kept <= p.count
  {
    hide MakePlan, KeptUpTo, Embedded, Fitting;
  }

  lemma PlaceBelow(g: Gpt, image: nat, kept: nat, p: Plan)
    requires image >= 512 && InRange64(g, image) && Fitting(g.lb, image - 512) && g.entrySize > 0
    requires p == MakePlan(g, image - 512, kept)
    ensures p.locA <= NO_BLOCK && p.locB <= NO_BLOCK
  {
    HalvesInPlace(g, image - 512, kept, p);
    Distribute(g.primaryLba, 32, g.lb);
    Distribute(g.secondaryLba, 32, g.lb);
    hide MakePlan, Fitting;
  }

  // ----- the whole run -----

  /** What is left of the table, with the numbers read from the finished device. */
  ghost predicate FinishedTable(s: Bytes, t: Bytes, image: Bytes, lb: nat, alt: nat, first: nat, second: nat,
                                size: nat, entries: nat) {
    && |t| >= 512 && lb + 96 <= |t|
    && Finished(s, t, image, lb, alt, first, second, size, entries,
                Num(t, lb + 80, 4), Num(t, 0x1a8, 8), Num(t, 0x1a4, 2), Num(t, 0x1b0, 8), Num(t, 0x1a6, 2))
  }

  /** Entries that the first of two halves leaves of an array: its sectors go into whole blocks at the end
      of the 32. */
  function Retained(image: nat, lb: nat, size: nat): int
    requires lb > 0 && size > 0
  {
    var half := ((image - 512 + 511) / 512 + 1) / 2 * 512;
    (32 - (half + lb - 1) / lb) * (lb / size)
  }

  lemma RetainedIs(g: Gpt, image: nat, kept: nat)
    requires image >= 512 && g.lb > 0 && g.entrySize > 0 && Fitting(g.lb, image - 512)
    ensures MakePlan(g, image - 512, kept).count == Retained(image, g.lb, g.entrySize)
  {
    HalvesAre(g.lb, image - 512);
    var n := Sectors(image - 512);
    assert HalfA(n) == (n + 1) / 2 * 512 by { WholeHalf(n); }
    hide Sectors, HalfA, HalfB, Fitting;
    SpareBlocks(g, image, kept);
  }

  lemma SpareBlocks(g: Gpt, image: nat, kept: nat)
    requires image >= 512 && g.lb > 0 && g.entrySize > 0 && Fitting(g.lb, image - 512)
    ensures var a := HalfA(Sectors(image - 512));
      MakePlan(g, image - 512, kept).count == (32 - (a + g.lb - 1) / g.lb) * (g.lb / g.entrySize)
  {
    HalvesAre(g.lb, image - 512);
    hide Sectors, HalfA, HalfB;
  }

  lemma WholeHalf(n: nat)
    requires n <= 254
    ensures HalfA(n) == (n + 1) / 2 * 512
  {
    Small((n + 1) / 2 * 512, 0x1_0000);
  }

  lemma FateIs(g: Gpt, image: nat, kept: nat)
    requires image >= 512 && g.lb > 0 && g.entrySize > 0 && g.secondarySize == g.entrySize && Fitting(g.lb, image - 512)
    ensures var n := Retained(image, g.lb, g.entrySize) - kept;
      HasFate(g, image, kept, Done) <==> n >= 0 && 2 * n + 11 <= 256
  {
    RetainedIs(g, image, kept);
    PlanFields(g, image, kept);
    hide MakePlan, Fitting, Retained;
  }

  /** The used entries are among those retained, and 256 records suffice for clearing the others in both
      arrays and eleven more writes. */
  ghost predicate Suffices(image: nat, lb: nat, size: nat, kept: nat) {
    lb > 0 && size > 0 && kept <= Retained(image, lb, size) && 2 * (Retained(image, lb, size) - kept) + 11 <= 256
  }

  ghost predicate Table(s: Bytes, lb: nat, alt: nat, first: nat, second: nat, size: nat, entries: nat) {
    TableAt(s, lb, alt, first, second, size, entries) && RoomFor(|s|, lb, alt, first, second, size, entries)
  }

  ghost predicate HasTable(s: Bytes) {
    exists lb, alt, first, second, size, entries :: Table(s, lb, alt, first, second, size, entries)
  }

  ghost predicate TableFinished(s: Bytes, t: Bytes, image: Bytes) {
    forall lb, alt, first, second, size, entries :: Table(s, lb, alt, first, second, size, entries) ==>
      FinishedTable(s, t, image, lb, alt, first, second, size, entries)
  }

  ghost predicate SucceedsIffSuffices(s: Bytes, image: nat, ok: bool) {
    forall lb, alt, first, second, size, entries, kept ::
      Table(s, lb, alt, first, second, size, entries) && LastUsed(s, first, size, entries, kept) ==>
        (ok <==> Suffices(image, lb, size, kept))
  }

  /** Installation on a device with a table that has room, told without any plan.
      - Success leaves of the table what `FinishedTable` says.
      - Without a failed access it succeeds if and only if `Suffices` says so, and where it does not the
        device is as it was. */
  method Install(dev: Device, image: Bytes) returns (ok: bool)
    requires dev.Fresh() && |image| >= 512 && Fitting(512, |image| - 512) && TableInRange(dev.disk, |image|)
    modifies dev`disk, dev`cacheState, dev`cachedBlock, dev`journal, dev`lo, dev`hi, dev`uninstalling, dev`faults, dev.cache
    ensures ok ==> TableFinished(old(dev.disk), dev.disk, image)
    ensures dev.faults == old(dev.faults) ==> SucceedsIffSuffices(old(dev.disk), |image|, ok)
    ensures dev.faults == old(dev.faults) && HasTable(old(dev.disk)) && !ok ==> dev.disk == old(dev.disk)
  {
    ghost var s := dev.disk;
    hide *;
    var outcome := BiosInstall(dev, image);
    ok := outcome.Embedding?;
    if ok {
      InstalledTables(s, dev.disk, dev.journal, image, outcome.g, outcome.kept);
    }
    if dev.faults == old(dev.faults) {
      OutcomeForAll(s, image, outcome);
    }
  }

  lemma InstalledTables(s: Bytes, t: Bytes, rs: seq<Record>, image: Bytes, g: Gpt, kept: nat)
    requires |image| >= 512 && Fitting(512, |image| - 512) && TableInRange(s, |image|)
    requires Installed(s, t, rs, image, g, kept)
    ensures TableFinished(s, t, image)
  {
    hide Fitting, TableInRange, Installed, Table, FinishedTable;
    forall lb, alt, first, second, size, entries | Table(s, lb, alt, first, second, size, entries)
      ensures FinishedTable(s, t, image, lb, alt, first, second, size, entries)
    {
      InstalledTable(s, t, rs, image, g, kept, lb, alt, first, second, size, entries);
    }
  }

  lemma InstalledTable(s: Bytes, t: Bytes, rs: seq<Record>, image: Bytes, g: Gpt, kept: nat,
                       lb: nat, alt: nat, first: nat, second: nat, size: nat, entries: nat)
    requires |image| >= 512 && Fitting(512, |image| - 512) && TableInRange(s, |image|)
    requires Installed(s, t, rs, image, g, kept) && Table(s, lb, alt, first, second, size, entries)
    ensures FinishedTable(s, t, image, lb, alt, first, second, size, entries)
  {
    hide *;
    InstalledParts(s, t, rs, image, g, kept);
    TableRoom(s, g, |image| - 512, lb, alt, first, second, size, entries);
    AssembleFor(s, t, g, image, kept, |rs|);
    Renamed(s, t, image, g, lb, alt, first, second, size, entries);
  }

  lemma TableRoom(s: Bytes, g: Gpt, stage2: nat, lb: nat, alt: nat, first: nat, second: nat, size: nat, entries: nat)
    requires Fitting(512, stage2) && Describes(s, g) && Table(s, lb, alt, first, second, size, entries)
    ensures SameNumbers(g, lb, alt, first, second, size, entries) && WellFormed(g, stage2, |s|)
  {
    TableIs(s, g, lb, alt, first, second, size, entries);
    assert Fitting(lb, stage2);
    hide Describes, Fitting, RoomFor, WellFormed, LittleEndian;
    RoomIsWellFormed(g, stage2, |s|, lb, alt, first, second, size, entries);
  }

  lemma Renamed(s: Bytes, t: Bytes, image: Bytes, g: Gpt,
                lb: nat, alt: nat, first: nat, second: nat, size: nat, entries: nat)
    requires 0 <= g.primaryLba * g.lb && 0 <= g.secondaryLba * g.lb && 0 <= g.alternateLba * g.lb
    requires FinishedTable(s, t, image, g.lb, g.alternateLba * g.lb, g.primaryLba * g.lb, g.secondaryLba * g.lb,
                           g.entrySize, g.entries)
    requires SameNumbers(g, lb, alt, first, second, size, entries)
    ensures FinishedTable(s, t, image, lb, alt, first, second, size, entries)
  {
    hide FinishedTable;
  }

  lemma InstalledParts(s: Bytes, t: Bytes, rs: seq<Record>, image: Bytes, g: Gpt, kept: nat)
    requires TableInRange(s, |image|) && Installed(s, t, rs, image, g, kept)
    ensures Describes(s, g) && InRange64(g, |image|)
    ensures g.lb + HEADER <= |s| && 0 <= g.alternateLba * g.lb && g.alternateLba * g.lb + HEADER <= |s|
    ensures EmbeddedAs(s, t, g, HeaderAt(s, g.lb), HeaderAt(s, g.alternateLba * g.lb), image, kept, |rs|)
  {
    hide EmbeddedAs, InRange64, HasEmpty, LeavesEmpty, Replay;
  }

  lemma AssembleFor(s: Bytes, t: Bytes, g: Gpt, image: Bytes, kept: nat, records: int)
    requires |image| >= 512 && WellFormed(g, |image| - 512, |s|) && InRange64(g, |image|)
    requires g.lb + HEADER <= |s| && 0 <= g.alternateLba * g.lb && g.alternateLba * g.lb + HEADER <= |s|
    requires EmbeddedAs(s, t, g, HeaderAt(s, g.lb), HeaderAt(s, g.alternateLba * g.lb), image, kept, records)
    ensures 0 <= g.primaryLba * g.lb && 0 <= g.secondaryLba * g.lb
    ensures FinishedTable(s, t, image, g.lb, g.alternateLba * g.lb, g.primaryLba * g.lb, g.secondaryLba * g.lb,
                          g.entrySize, g.entries)
  {
    var h, h2 := HeaderAt(s, g.lb), HeaderAt(s, g.alternateLba * g.lb);
    MulSign(g.primaryLba, g.lb);
    MulSign(g.secondaryLba, g.lb);
    var p := MakePlan(g, |image| - 512, kept);
    HalvesInPlace(g, |image| - 512, kept, p);
    hide MakePlan, EmbeddedAs, WellFormed, Fitting, FinishedTable, Finished, InRange64;
    MulSign(p.count, p.entrySize);
    Assemble(s, t, g, h, h2, image, kept, records, p, p.count * p.entrySize);
    ReadBack(s, t, image, p.lb, p.alternate, p.primary, p.secondary, p.entrySize, g.entries,
             p.count, p.locA, p.sizeA, p.locB, p.sizeB);
  }

  /** The numbers are those that the finished device itself gives. */
  lemma ReadBack(s: Bytes, t: Bytes, image: Bytes, lb: nat, alt: nat, first: nat, second: nat, size: nat, entries: nat,
                 count: nat, locA: nat, sizeA: nat, locB: nat, sizeB: nat)
    requires Finished(s, t, image, lb, alt, first, second, size, entries, count, locA, sizeA, locB, sizeB)
    ensures FinishedTable(s, t, image, lb, alt, first, second, size, entries)
  {
    hide LittleEndian, HalfRight;
  }

  lemma OutcomeForAll(s: Bytes, image: Bytes, outcome: GptOutcome)
    requires |image| >= 512 && Fitting(512, |image| - 512)
    requires forall g, kept :: Describes(s, g) && Keeps(s, g, kept) ==> Matches(outcome, g, |image|, kept)
    ensures SucceedsIffSuffices(s, |image|, outcome.Embedding?)
    ensures HasTable(s) && !outcome.Embedding? ==> outcome.Undone?
  {
    hide Fitting, Describes, Keeps, Matches, Table, LastUsed, Suffices;
    forall lb, alt, first, second, size, entries, kept
      | Table(s, lb, alt, first, second, size, entries) && LastUsed(s, first, size, entries, kept)
      ensures outcome.Embedding? <==> Suffices(|image|, lb, size, kept)
    {
      OutcomeFor(s, image, kept, outcome, lb, alt, first, second, size, entries);
    }
    if HasTable(s) {
      var lb, alt, first, second, size, entries :| Table(s, lb, alt, first, second, size, entries);
      var kept := SomeLast(s, first, size, entries);
      OutcomeFor(s, image, kept, outcome, lb, alt, first, second, size, entries);
    }
  }

  lemma SomeLast(s: Bytes, first: nat, size: nat, entries: nat) returns (kept: nat)
    ensures LastUsed(s, first, size, entries, kept)
  {
    var g := Gpt(1, first, 0, 0, entries, size, size);
    kept := SomeKept(s, first, size, entries);
    assert first * 1 == first;
    hide KeptUpTo, LastUsed;
    assert Keeps(s, g, kept);
    LastUsedIs(s, g, kept, first);
  }

  lemma OutcomeFor(s: Bytes, image: Bytes, kept: nat, outcome: GptOutcome,
                   lb: nat, alt: nat, first: nat, second: nat, size: nat, entries: nat)
    requires |image| >= 512 && Fitting(512, |image| - 512)
    requires forall g, kept :: Describes(s, g) && Keeps(s, g, kept) ==> Matches(outcome, g, |image|, kept)
    requires Table(s, lb, alt, first, second, size, entries) && LastUsed(s, first, size, entries, kept)
    ensures outcome.Embedding? <==> Suffices(|image|, lb, size, kept)
    ensures !outcome.Embedding? ==> outcome.Undone?
  {
    var g := TableDescribed(s, lb, alt, first, second, size, entries);
    assert Fitting(lb, |image| - 512);
    assert size > 0;
    hide Describes, LastUsed, Fitting, Retained, Keeps, TableAt, RoomFor, HasFate;
    LastUsedIs(s, g, kept, first);
    FateIs(g, |image|, kept);
    NoTrouble(g, |image|, kept);
  }

  lemma NoTrouble(g: Gpt, image: nat, kept: nat)
    requires g.entrySize > 0 && g.secondarySize == g.entrySize
    ensures !HasFate(g, image, kept, OverRead) && !HasFate(g, image, kept, Trap)
    ensures HasFate(g, image, kept, Stopped) ==> !HasFate(g, image, kept, Done)
  {
    if image >= 512 && Fitting(g.lb, image - 512) {
      PlanFields(g, image, kept);
    }
    hide MakePlan, Fitting;
  }
}
