/**
 Index arithmetic and ownership bookkeeping of a split virtqueue (section 2.7 of OASIS VIRTIO
 1.2), apart from any memory.
 */
module Rings {
  import opened ModArith

  // ----- 16-bit indices -----

  /** The ring slot of the free-running 16-bit index of the `n`-th entry. */
  function Slot16(n: nat, size: nat): (slot: nat)
    requires size > 0
    ensures slot < size
  {
    (n % 0x1_0000) % size
  }

  /** When the queue size divides 2^16 the wrap of the index is invisible. */
  lemma WrapInvisible(n: nat, size: nat)
    requires size > 0 && 0x1_0000 % size == 0
    ensures Slot16(n, size) == n % size
  {
    var k := 0x1_0000 / size;
    assert 0x1_0000 == size * k;
    var q, r := n / 0x1_0000, n % 0x1_0000;
    assert n == r + (q * k) * size by {
      assert (q * k) * size == q * (size * k);
    }
    AddMultiple(r, q * k, size);
  }

  /** And only then: for any other size the entry after the wrap lands in the wrong slot. */
  lemma WrapVisible(size: nat)
    requires size > 0
    ensures (forall n: nat :: Slot16(n, size) == n % size) <==> 0x1_0000 % size == 0
  {
    if 0x1_0000 % size == 0 {
      forall n: nat
        ensures Slot16(n, size) == n % size
      {
        WrapInvisible(n, size);
      }
    } else {
      Small(0, size);
      assert Slot16(0x1_0000, size) == 0 != 0x1_0000 % size;
    }
  }

  /** Of the last `count` entries no two share a slot, across the wrap of the index too. */
  predicate Roomy(size: nat, count: nat) {
    0 < count <= size <= 0x8000 && (0x1_0000 % size == 0 || count <= 0x1_0000 % size)
  }

  lemma SlotsDiffer(i: nat, j: nat, n: nat)
    requires i < j < i + n
    ensures i % n != j % n
  {
    if i % n == j % n {
      Distribute(j / n, i / n, n);
      MulGap(j / n - i / n, n);
    }
  }

  /** The entry before the wrap and the one after it: the first is `r - d` slots and `b` more behind
      a multiple of the size, the second is `b` behind zero. */
  lemma AcrossWrap(i: nat, j: nat, size: nat, count: nat)
    requires Roomy(size, count) && i < j < i + count && i / 0x1_0000 != j / 0x1_0000
    ensures Slot16(i, size) != Slot16(j, size)
  {
    var a, b, d, r := i % 0x1_0000, j % 0x1_0000, j - i, 0x1_0000 % size;
    assert a == 0x1_0000 + b - d && b < d;
    if r == 0 {
      WrapInvisible(i, size);
      WrapInvisible(j, size);
      SlotsDiffer(i, j, size);
    } else {
      Small(b, size);
      ModUnique(a, size, 0x1_0000 / size, r - d + b);
    }
  }

  lemma SlotsApart(i: nat, j: nat, size: nat, count: nat)
    requires Roomy(size, count) && i < j < i + count
    ensures Slot16(i, size) != Slot16(j, size)
  {
    if i / 0x1_0000 == j / 0x1_0000 {
      SlotsDiffer(i % 0x1_0000, j % 0x1_0000, size);
    } else {
      AcrossWrap(i, j, size, count);
    }
  }

  /** A driver with `count` buffers has at most `count` entries in use at once.  Two of them can share
      a slot, so that the later overwrites the earlier, exactly when the wrap comes in the middle of
      a round through the ring and fewer than `count` slots into it. */
  lemma WrapCollides(size: nat, count: nat)
    requires 0 < count <= size <= 0x8000
    ensures (exists i: nat, j: nat :: i < j < i + count && Slot16(i, size) == Slot16(j, size))
       <==> 0 < 0x1_0000 % size < count
  {
    var r := 0x1_0000 % size;
    if 0 < r < count {
      var i, j := 0x1_0000 - r, 0x1_0000;
      ModUnique(i, size, 0x1_0000 / size, 0);
      Small(0, size);
      assert i < j < i + count && Slot16(i, size) == Slot16(j, size);
    } else {
      forall i: nat, j: nat | i < j < i + count
        ensures Slot16(i, size) != Slot16(j, size)
      {
        SlotsApart(i, j, size, count);
      }
    }
  }

  /** A queue of 24 with its 24 receive buffers collides; one of 96 with its 32 does not. */
  lemma TwentyFour()
    ensures Slot16(65520, 24) == Slot16(65536, 24) && 65536 < 65520 + 24
    ensures !Roomy(24, 24) && Roomy(96, 32)
  {
  }

  // ----- a window of a ring -----

  /** The entries of `q` sit in the ring from the `base`-th entry on. */
  ghost predicate Window<T>(ring: seq<T>, base: nat, q: seq<T>) {
    && |ring| > 0 && |q| <= |ring|
    && forall k :: 0 <= k < |q| ==> ring[Slot16(base + k, |ring|)] == q[k]
  }

  lemma WindowPush<T>(ring: seq<T>, base: nat, q: seq<T>, x: T, slot: nat, count: nat)
    requires Window(ring, base, q) && Roomy(|ring|, count) && |q| < count
    requires slot == Slot16(base + |q|, |ring|)
    ensures Window(ring[slot := x], base, q + [x])
  {
    hide Slot16;
    forall k | 0 <= k < |q|
      ensures ring[slot := x][Slot16(base + k, |ring|)] == q[k]
    {
      SlotsApart(base + k, base + |q|, |ring|, count);
    }
  }

  lemma WindowPop<T>(ring: seq<T>, base: nat, q: seq<T>)
    requires Window(ring, base, q) && q != []
    ensures Window(ring, base + 1, q[1..]) && ring[Slot16(base, |ring|)] == q[0]
  {
    hide Slot16;
    assert ring[Slot16(base + 0, |ring|)] == q[0];
    forall k | 0 <= k < |q| - 1
      ensures ring[Slot16(base + 1 + k, |ring|)] == q[1..][k]
    {
      assert ring[Slot16(base + (k + 1), |ring|)] == q[k + 1];
    }
  }

  // ----- who owns a buffer -----

  ghost predicate NoDup(q: seq<nat>) {
    forall i, j :: 0 <= i < j < |q| ==> q[i] != q[j]
  }

  /** Every buffer is in exactly one place: free, available, held by the device, or used. */
  ghost predicate Partition(count: nat, free: set<nat>, avail: seq<nat>, held: set<nat>, used: seq<nat>) {
    && NoDup(avail) && NoDup(used)
    && free !! held
    && (forall i :: 0 <= i < |avail| ==> avail[i] !in free && avail[i] !in held && avail[i] !in used)
    && (forall i :: 0 <= i < |used| ==> used[i] !in free && used[i] !in held)
    && (forall id: nat :: id < count <==> id in free || id in held || id in avail || id in used)
    && |free| + |avail| + |held| + |used| == count
  }

  lemma PartitionPost(count: nat, free: set<nat>, avail: seq<nat>, held: set<nat>, used: seq<nat>, id: nat)
    requires Partition(count, free, avail, held, used) && id in free
    ensures Partition(count, free - {id}, avail + [id], held, used)
    ensures |avail| < count && |avail| + |held| + |used| < count
  {
    var a := avail + [id];
    forall x: nat
      ensures x < count <==> x in free - {id} || x in held || x in a || x in used
    {
      assert x in a <==> x in avail || x == id;
    }
  }

  lemma PartitionFetch(count: nat, free: set<nat>, avail: seq<nat>, held: set<nat>, used: seq<nat>)
    requires Partition(count, free, avail, held, used) && avail != []
    ensures Partition(count, free, avail[1..], held + {avail[0]}, used)
  {
    var id, a := avail[0], avail[1..];
    assert avail == [id] + a;
    forall x: nat
      ensures x < count <==> x in free || x in held + {id} || x in a || x in used
    {
      assert x in avail <==> x in a || x == id;
    }
  }

  lemma PartitionReturn(count: nat, free: set<nat>, avail: seq<nat>, held: set<nat>, used: seq<nat>, id: nat)
    requires Partition(count, free, avail, held, used) && id in held
    ensures Partition(count, free, avail, held - {id}, used + [id])
    ensures |used| < count
  {
    var u := used + [id];
    forall x: nat
      ensures x < count <==> x in free || x in held - {id} || x in avail || x in u
    {
      assert x in u <==> x in used || x == id;
    }
  }

  lemma PartitionReap(count: nat, free: set<nat>, avail: seq<nat>, held: set<nat>, used: seq<nat>)
    requires Partition(count, free, avail, held, used) && used != []
    ensures Partition(count, free + {used[0]}, avail, held, used[1..])
  {
    var id, u := used[0], used[1..];
    assert used == [id] + u;
    forall x: nat
      ensures x < count <==> x in free + {id} || x in held || x in avail || x in u
    {
      assert x in used <==> x in u || x == id;
    }
  }
}
