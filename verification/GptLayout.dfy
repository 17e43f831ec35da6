/**
 Embedding the two halves of Limine's second stage at the ends of the GPT partition entry arrays
 (limine/limine.c): where the halves go, what they leave of the arrays, and what they overlap.
 */
module GptLayout {
  import opened ModArith

  /** sizeof(struct gpt_table_header), with its trailing padding; the CRC covers the first 92 bytes. */
  const HEADER: nat := 96

  /** What the headers say: logical block size, first blocks of the two arrays, block of the
      secondary header, number and size of entries, and the size the secondary header gives. */
  datatype Gpt = Gpt(lb: nat, primaryLba: nat, secondaryLba: nat, alternateLba: nat, entries: nat,
                     entrySize: nat, secondarySize: nat)

  /** Sizes and places chosen for an embedding: `kept` entries stay, the arrays shrink to `count`. */
  datatype Plan = Plan(lb: nat, primary: nat, secondary: nat, alternate: nat, entrySize: nat, secondarySize: nat,
                       kept: nat, count: nat, locA: nat, sizeA: nat, locB: nat, sizeB: nat)

  // ----- arithmetic -----

  /** The first half has the odd sector; both sizes are kept in 16 bits. */
  function HalfA(sectors: nat): nat {
    (sectors / 2 * 512 + (if sectors % 2 == 1 then 512 else 0)) % 0x1_0000
  }

  function HalfB(sectors: nat): nat {
    (sectors / 2 * 512) % 0x1_0000
  }

  /** The last block-aligned place of `size` bytes in the 32 blocks from `lba` on. */
  function Place(lba: nat, size: nat, lb: nat): int
    requires lb > 0
  {
    var end := (lba + 32) * lb - size;
    end - end % lb
  }

  /** Blocks that `size` bytes take. */
  function Blocks(size: nat, lb: nat): nat
    requires lb > 0
  {
    (size + lb - 1) / lb
  }

  lemma BlocksOf(size: nat, lb: nat)
    requires lb > 0
    ensures size <= Blocks(size, lb) * lb < size + lb
  {
    var q, r := (size + lb - 1) / lb, (size + lb - 1) % lb;
    assert q * lb + r == size + lb - 1;
  }

  lemma PlaceIs(lba: nat, size: nat, lb: nat)
    requires lb > 0 && size <= 32 * lb
    ensures Blocks(size, lb) <= 32
    ensures Place(lba, size, lb) == (lba + 32 - Blocks(size, lb)) * lb
    ensures Place(lba, size, lb) + size <= (lba + 32) * lb
    ensures Place(lba, size, lb) / lb - lba == 32 - Blocks(size, lb)
  {
    var b := Blocks(size, lb);
    var slack := b * lb - size;
    BlocksOf(size, lb);
    if b >= 33 {
      MulBound(33, lb, b, lb);
      assert false;
    }
    Distribute(lba + 32, b, lb);
    var end := (lba + 32) * lb - size;
    assert end == (lba + 32 - b) * lb + slack;
    ModUnique(end, lb, lba + 32 - b, slack);
    ModUnique((lba + 32 - b) * lb, lb, lba + 32 - b, 0);
  }

  /** The retained entries end at or before the half that follows them. */
  lemma EntriesFit(lba: nat, blocks: nat, lb: nat, entrySize: nat)
    requires lb > 0 && entrySize > 0
    ensures lba * lb + (blocks * (lb / entrySize)) * entrySize <= (lba + blocks) * lb
  {
    var per := lb / entrySize;
    assert per * entrySize <= lb;
    assert (blocks * per) * entrySize == blocks * (per * entrySize);
    MulBound(blocks, per * entrySize, blocks, lb);
    Distribute(lba, blocks, lb);
  }

  /** The second half ends below the secondary header exactly when the secondary array has its 32
      blocks in front of that header, however small the half is. */
  lemma SecondHalfClears(lba: nat, alternate: nat, size: nat, lb: nat)
    requires lb > 0 && 0 < size <= 32 * lb
    ensures Place(lba, size, lb) + size <= alternate * lb <==> lba + 32 <= alternate
  {
    PlaceIs(lba, size, lb);
    var b := Blocks(size, lb);
    BlocksOf(size, lb);
    Distribute(lba + 32, b, lb);
    Distribute(lba + 32, alternate, lb);
    MulGap(lba + 32 - alternate, lb);
    if lba + 32 <= alternate {
      MulSign(alternate - lba - 32, lb);
      Distribute(alternate, lba + 32, lb);
    }
  }

  /** The bytes `[loc, loc + size)` and the header at `at` have a byte in common. */
  predicate Overlaps(loc: int, size: nat, at: int) {
    loc < at + HEADER && at < loc + size
  }

  /** The second half overwrites part of the secondary header exactly when that header's block is
      one of those the half takes from the end of the 32. */
  lemma SecondHalfOverlaps(lba: nat, alternate: nat, size: nat, lb: nat)
    requires lb >= HEADER && 0 < size <= 32 * lb
    ensures Overlaps(Place(lba, size, lb), size, alternate * lb)
       <==> lba + 32 - Blocks(size, lb) <= alternate < lba + 32
  {
    PlaceIs(lba, size, lb);
    SecondHalfClears(lba, alternate, size, lb);
    var first: int := lba + 32 - Blocks(size, lb);
    hide Blocks, Place;
    Distribute(alternate, first, lb);
    MulGap(alternate - first, lb);
  }

  /** An array of 16 blocks of 512 bytes before the header and a half of 10752 bytes: it overlaps. */
  lemma SixteenBlockArray(lba: nat)
    ensures Overlaps(Place(lba, 10752, 512), 10752, (lba + 16) * 512)
  {
    SecondHalfOverlaps(lba, lba + 16, 10752, 512);
  }

  /** With 4096-byte blocks and the usual four-block array of 128 entries any 16-bit half lies
      wholly beyond the header, twelve blocks behind it at least. */
  lemma FourBlockArray(alternate: nat, size: nat)
    requires alternate >= 4 && 0 < size < 0x1_0000
    ensures (alternate + 12) * 4096 <= Place(alternate - 4, size, 4096)
    ensures !Overlaps(Place(alternate - 4, size, 4096), size, alternate * 4096)
  {
    PlaceIs(alternate - 4, size, 4096);
    BlocksOf(size, 4096);
  }

  function Sectors(stage2: nat): nat {
    (stage2 + 511) / 512
  }

  /** A second stage whose halves fit 16-bit sizes and the 32 blocks. */
  ghost predicate Fitting(lb: nat, stage2: nat) {
    && lb > 0 && 512 <= stage2 <= 254 * 512
    && HalfA(Sectors(stage2)) <= 32 * lb
  }

  lemma HalvesAre(lb: nat, stage2: nat)
    requires Fitting(lb, stage2)
    ensures var a, b := HalfA(Sectors(stage2)), HalfB(Sectors(stage2));
      512 <= a <= stage2 && b <= a <= 32 * lb && stage2 <= a + b
  {
    var n := Sectors(stage2);
    assert 1 <= n <= 254;
    Small(n / 2 * 512, 0x1_0000);
    if n % 2 == 1 {
      Small(n / 2 * 512 + 512, 0x1_0000);
    }
  }

  /** Blocks of the 32 that `size` bytes at their end leave. */
  function Spare(size: nat, lb: nat): (spare: nat)
    requires lb > 0 && size <= 32 * lb
    ensures spare <= 32
  {
    PlaceIs(0, size, lb);
    32 - Blocks(size, lb)
  }

  /** A valid table, but for the room before the secondary header. */
  ghost predicate Regular(g: Gpt, stage2: nat, len: nat) {
    && g.lb in {512, 4096} && g.entrySize >= 128 && g.secondarySize == g.entrySize
    && 2 <= g.primaryLba && g.primaryLba + 32 <= g.secondaryLba
    && (g.alternateLba + 1) * g.lb <= len
    && g.entries * g.entrySize <= 32 * g.lb
    && Fitting(g.lb, stage2)
  }

  /** A valid table with 32 blocks for each array. */
  ghost predicate WellFormed(g: Gpt, stage2: nat, len: nat) {
    Regular(g, stage2, len) && g.secondaryLba + 32 <= g.alternateLba
  }

  ghost function MakePlan(g: Gpt, stage2: nat, kept: nat): Plan
    requires g.lb > 0 && g.entrySize > 0 && Fitting(g.lb, stage2)
  {
    hide Blocks, Spare, HalfA, HalfB, Sectors;
    HalvesAre(g.lb, stage2);
    var a, b := HalfA(Sectors(stage2)), HalfB(Sectors(stage2));
    Plan(g.lb, g.primaryLba * g.lb, g.secondaryLba * g.lb, g.alternateLba * g.lb, g.entrySize, g.secondarySize, kept,
         Spare(a, g.lb) * (g.lb / g.entrySize),
         (g.primaryLba + Spare(a, g.lb)) * g.lb, a, (g.secondaryLba + Spare(b, g.lb)) * g.lb, b)
  }

  /** Everything the installer writes has its own place: boot sector, primary header, primary
      array, first half, secondary array, second half, secondary header. */
  ghost predicate Apart(p: Plan, stage2: nat, len: nat) {
    && p.lb >= 512 && p.entrySize > 0 && p.secondarySize == p.entrySize && p.sizeA <= stage2 <= p.sizeA + p.sizeB
    && p.lb + HEADER <= p.primary && p.primary + p.count * p.entrySize <= p.locA
    && p.locA + p.sizeA <= p.secondary && p.secondary + p.count * p.entrySize <= p.locB
    && p.locB + p.sizeB <= p.alternate && p.alternate + HEADER <= len
  }

  lemma SpareOrder(a: nat, b: nat, lb: nat)
    requires lb > 0 && b <= a <= 32 * lb
    ensures Spare(a, lb) <= Spare(b, lb)
  {
    hide Blocks;
    BlocksOf(a, lb);
    BlocksOf(b, lb);
    var x: int, y: int := Blocks(a, lb), Blocks(b, lb);
    Distribute(y, x, lb);
    MulGap(y - x, lb);
  }

  /** The half that starts after the spare blocks ends within the 32. */
  lemma HalfEnds(lba: nat, size: nat, lb: nat, next: nat)
    requires lb > 0 && size <= 32 * lb && lba + 32 <= next
    ensures (lba + Spare(size, lb)) * lb + size <= next * lb
  {
    PlaceIs(lba, size, lb);
    MulBound(lba + 32, lb, next, lb);
  }

  /** The retained entries end before any place that leaves them enough blocks. */
  lemma ArrayEnds(lba: nat, spare: nat, more: nat, lb: nat, entrySize: nat)
    requires lb > 0 && entrySize > 0 && spare <= more
    ensures lba * lb + (spare * (lb / entrySize)) * entrySize <= (lba + more) * lb
  {
    EntriesFit(lba, spare, lb, entrySize);
    MulBound(lba + spare, lb, lba + more, lb);
  }

  /** For a regular table everything has its own place exactly when the secondary array has 32
      blocks before its header. */
  lemma PlanApart(g: Gpt, stage2: nat, kept: nat, len: nat)
    requires Regular(g, stage2, len)
    ensures Apart(MakePlan(g, stage2, kept), stage2, len) <==> WellFormed(g, stage2, len)
  {
    HalvesAre(g.lb, stage2);
    var a, b := HalfA(Sectors(stage2)), HalfB(Sectors(stage2));
    hide HalfA, HalfB, Sectors, Spare;
    SpareOrder(a, b, g.lb);
    HalfEnds(g.primaryLba, a, g.lb, g.secondaryLba);
    HalfBelow(g.secondaryLba, b, g.lb, g.alternateLba);
    ArrayEnds(g.primaryLba, Spare(a, g.lb), Spare(a, g.lb), g.lb, g.entrySize);
    ArrayEnds(g.secondaryLba, Spare(a, g.lb), Spare(b, g.lb), g.lb, g.entrySize);
    Distribute(g.alternateLba, 1, g.lb);
    MulBound(2, g.lb, g.primaryLba, g.lb);
  }

  lemma HalfBelow(lba: nat, size: nat, lb: nat, next: nat)
    requires lb > 0 && size <= 32 * lb
    ensures (lba + Spare(size, lb)) * lb + size <= next * lb <==> lba + 32 <= next
  {
    hide Blocks, Place;
    PlaceIs(lba, size, lb);
    if size > 0 {
      SecondHalfClears(lba, next, size, lb);
    } else {
      BlocksOf(0, lb);
      MulGap(Blocks(0, lb), lb);
      Distribute(next, lba + 32, lb);
      MulGap(next - lba - 32, lb);
    }
  }

  /** Every address the installer computes stays in 64 bits. */
  ghost predicate InRange64(g: Gpt, image: nat) {
    && g.primaryLba * g.lb + (g.entries + 1) * g.entrySize + 128 < 0x1_0000_0000_0000_0000
    && g.secondaryLba * g.lb + (g.entries + 1) * g.secondarySize < 0x1_0000_0000_0000_0000
    && (g.primaryLba + 32) * g.lb + image < 0x1_0000_0000_0000_0000
    && (g.secondaryLba + 32) * g.lb + image < 0x1_0000_0000_0000_0000
  }

  lemma PlanInRange(g: Gpt, image: nat, kept: nat)
    requires image >= 512 && g.lb > 0 && g.entrySize > 0 && InRange64(g, image) && Fitting(g.lb, image - 512)
    requires kept <= g.entries
    ensures var p := MakePlan(g, image - 512, kept);
      && p.primary + p.count * p.entrySize < 0x1_0000_0000_0000_0000
      && (p.secondarySize <= p.entrySize ==> p.secondary + p.count * p.secondarySize < 0x1_0000_0000_0000_0000)
      && p.primary + (kept + 1) * p.entrySize < 0x1_0000_0000_0000_0000
      && p.secondary + (kept + 1) * p.secondarySize < 0x1_0000_0000_0000_0000
      && p.locA + p.sizeA < 0x1_0000_0000_0000_0000 && p.locB + image < 0x1_0000_0000_0000_0000
      && 512 + p.sizeA <= image
  {
    hide HalfA, HalfB, Sectors, Spare, Fitting;
    HalvesAre(g.lb, image - 512);
    var a, b := HalfA(Sectors(image - 512)), HalfB(Sectors(image - 512));
    InThirtyTwo(g.primaryLba, a, g.lb, g.entrySize, g.entrySize, a);
    HalfEnds(g.secondaryLba, b, g.lb, g.secondaryLba + 32);
    if g.secondarySize <= g.entrySize {
      InThirtyTwo(g.secondaryLba, b, g.lb, g.entrySize, g.secondarySize, a);
    }
    MulBound(kept + 1, g.entrySize, g.entries + 1, g.entrySize);
    MulBound(kept + 1, g.secondarySize, g.entries + 1, g.secondarySize);
  }

  /** What the plan puts into the 32 blocks from `lba` on begins and ends there. */
  lemma InThirtyTwo(lba: nat, size: nat, lb: nat, entrySize: nat, written: nat, other: nat)
    requires lb > 0 && entrySize > 0 && written <= entrySize && size <= 32 * lb && other <= 32 * lb
    ensures (lba + Spare(size, lb)) * lb + size <= (lba + 32) * lb
    ensures lba * lb + (Spare(other, lb) * (lb / entrySize)) * written <= (lba + 32) * lb
  {
    hide Spare;
    HalfEnds(lba, size, lb, lba + 32);
    ArrayEnds(lba, Spare(other, lb), 32, lb, entrySize);
    SmallerEntries(Spare(other, lb), lb / entrySize, written, entrySize);
  }

  lemma SmallerEntries(spare: nat, per: nat, small: nat, large: nat)
    requires small <= large
    ensures (spare * per) * small <= (spare * per) * large
  {
    MulSign(spare, per);
    MulBound(spare * per, small, spare * per, large);
  }

  /** The bytes actually written for the second half reach into its last block. */
  lemma LastBlock(stage2: nat, lb: nat)
    requires lb in {512, 4096} && Fitting(lb, stage2)
    ensures var a, b := HalfA(Sectors(stage2)), HalfB(Sectors(stage2));
      b > 0 ==> Blocks(b, lb) > 0 && (Blocks(b, lb) - 1) * lb < stage2 - a
  {
    HalvesAre(lb, stage2);
    var n := Sectors(stage2);
    assert HalfB(n) == n / 2 * 512 && HalfA(n) + HalfB(n) == n * 512 by {
      Small(n / 2 * 512, 0x1_0000);
      if n % 2 == 1 {
        Small(n / 2 * 512 + 512, 0x1_0000);
      }
    }
    assert stage2 > (n - 1) * 512;
    var b := HalfB(n);
    hide HalfA, HalfB, Sectors;
    if lb == 512 {
      assert Blocks(b, 512) == b / 512;
    } else {
      LastOfEight(n / 2);
    }
  }

  lemma LastOfEight(m: nat)
    ensures m > 0 ==> 0 < Blocks(m * 512, 4096) && (Blocks(m * 512, 4096) - 1) * 4096 <= (m - 1) * 512
  {
  }

  /** For a regular table whose second half overlaps the secondary header, that header's first byte
      is among those written for the half. */
  lemma OverlapReaches(g: Gpt, stage2: nat, kept: nat, len: nat)
    requires Regular(g, stage2, len)
    requires var b := HalfB(Sectors(stage2));
      b > 0 && g.secondaryLba + 32 - Blocks(b, g.lb) <= g.alternateLba < g.secondaryLba + 32
    ensures var p := MakePlan(g, stage2, kept);
      && 512 <= p.locA && p.locA + p.sizeA <= p.locB && p.sizeA <= stage2
      && p.locB <= p.alternate < p.locB + stage2 - p.sizeA && p.alternate < len
  {
    hide HalfA, HalfB, Sectors, Spare, Blocks, Fitting;
    HalvesAre(g.lb, stage2);
    LastBlock(stage2, g.lb);
    var a, b := HalfA(Sectors(stage2)), HalfB(Sectors(stage2));
    SpareIs(b, g.lb);
    HalfEnds(g.primaryLba, a, g.lb, g.secondaryLba);
    MulBound(2, g.lb, g.primaryLba + Spare(a, g.lb), g.lb);
    MulBound(g.secondaryLba, g.lb, g.secondaryLba + Spare(b, g.lb), g.lb);
    var first: nat := g.secondaryLba + Spare(b, g.lb);
    var last: nat := first + Blocks(b, g.lb) - 1;
    MulBound(first, g.lb, g.alternateLba, g.lb);
    MulBound(g.alternateLba, g.lb, last, g.lb);
    Distribute(first, Blocks(b, g.lb) - 1, g.lb);
    Distribute(g.alternateLba, 1, g.lb);
  }

  lemma SpareIs(size: nat, lb: nat)
    requires lb > 0 && size <= 32 * lb
    ensures Spare(size, lb) + Blocks(size, lb) == 32
  {
  }
}
