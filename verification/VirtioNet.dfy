/**
 The transmit and receive paths of the VirtIO network driver (kernel/drivers/net.c).  The device
 runs concurrently: `DeviceMoves` stands at every point where the driver touches shared memory
 and makes any number of device steps, so each contract holds in every interleaving.
 */
module VirtioNet {
  import opened Machine
  import opened ModArith
  import Rings
  import opened VirtioQueue

  const MAX_FRAME: nat := 1518
  const ETH_HEADER: nat := 14
  const MIN_FRAME: nat := 60

  /** The bytes handed to the device for one frame: a zeroed VirtIO header, the Ethernet header,
      the payload, and zeros up to the minimum frame length. */
  function TxPacket(hdr: nat, dst: Bytes, src: Bytes, etherType: u16, payload: Bytes): Bytes {
    var frame := dst + src + [(etherType / 256) as u8, (etherType % 256) as u8] + payload;
    Zeros(hdr) + frame + Zeros(if |frame| < MIN_FRAME then MIN_FRAME - |frame| else 0)
  }

  /** Where everything lies in the bytes handed over (clause 3.1.1 of IEEE 802.3, without preamble and
      check sequence): destination first, the type most significant byte first. */
  lemma FrameLayout(hdr: nat, dst: Bytes, src: Bytes, etherType: u16, payload: Bytes)
    requires |dst| == |src| == 6
    ensures var q, n := TxPacket(hdr, dst, src, etherType, payload), |payload|;
      && |q| == hdr + (if n < 46 then 60 else 14 + n)
      && (forall i :: 0 <= i < hdr ==> q[i] == 0)
      && q[hdr..hdr + 6] == dst && q[hdr + 6..hdr + 12] == src
      && q[hdr + 12] as int * 256 + q[hdr + 13] as int == etherType as int
      && q[hdr + 14..hdr + 14 + n] == payload
      && forall i :: hdr + 14 + n <= i < |q| ==> q[i] == 0
  {
  }

  /** `virtio_tx_next` and the in-flight flags walk every slot. */
  lemma SlotSearch(next: nat, count: nat, id: nat) returns (i: nat)
    requires next < count && id < count
    ensures i < count && (next + i) % count == id
  {
    if id >= next {
      i := id - next;
      Small(id, count);
    } else {
      i := id + count - next;
      ModUnique(next + i, count, 1, id);
    }
  }

  class TxDriver {
    const size: nat
    const count: nat
    const hdrSize: nat
    var mem: Memory
    var lastUsed: nat
    var inflight: seq<bool>
    var next: nat
    var h: History

    ghost predicate QueueValid()
      reads this
    {
      Inv(mem, h, lastUsed, size, count) && TxContents(mem, h)
    }

    /** A slot is marked in flight exactly while it is available, held by the device, or used and
        not yet reclaimed. */
    ghost predicate Valid()
      reads this
    {
      && QueueValid()
      && |inflight| == count && next < count
      && forall id :: 0 <= id < count ==> (inflight[id] <==> id !in h.free)
    }

    /** What the device cannot change. */
    twostate predicate DriverSideKept()
      reads this
    {
      && h.free == old(h.free) && h.posted == old(h.posted) && h.reaped == old(h.reaped)
      && h.submitted == old(h.submitted)
      && mem.avail == old(mem.avail) && mem.availIdx == old(mem.availIdx)
      && mem.buf == old(mem.buf) && mem.descLen == old(mem.descLen)
      && old(h.used) <= h.used && old(h.returned) <= h.returned
      && old(h.serials) <= h.serials && old(h.contents) <= h.contents
    }

    method DeviceFetch()
      requires QueueValid() && h.avail != []
      modifies this`h
      ensures QueueValid() && DriverSideKept()
    {
      hide Inv, TxContents;
      FetchKeeps(mem, h, lastUsed, size, count);
      InvSizes(mem, h, lastUsed, size, count);
      FetchKeepsTx(mem, h);
      h := FetchHistory(h);
    }

    method DeviceReturn(id: nat, len: nat)
      requires QueueValid() && id in h.held
      modifies this`h, this`mem
      ensures QueueValid() && DriverSideKept()
    {
      hide Inv, TxContents;
      InvSizes(mem, h, lastUsed, size, count);
      ReturnKeeps(mem, h, lastUsed, size, count, id, len, mem.buf[id], Described(mem, id));
      ReturnKeepsTx(mem, h, id, len);
      var moved := Described(mem, id);
      assert mem.buf[id := mem.buf[id]] == mem.buf;
      mem := ReturnMem(mem, id, len, mem.buf[id]);
      h := ReturnHistory(h, id, len, moved);
    }

    /** Any number of device steps. */
    method DeviceMoves()
      requires QueueValid()
      modifies this`h, this`mem
      ensures QueueValid() && DriverSideKept()
    {
      hide Inv, TxContents;
      var steps: int := *;
      while steps > 0
        invariant QueueValid() && DriverSideKept()
      {
        steps := steps - 1;
        var fetch: bool := *;
        if fetch && h.avail != [] {
          DeviceFetch();
        } else if h.held != map[] {
          var id :| id in h.held;
          var len: int := *;
          if len >= 0 {
            DeviceReturn(id, len);
          }
        }
      }
    }

    /** virtio_queue_prepare and the flags: rings empty, indices zero, every slot free. */
    constructor (size: nat, count: nat, hdrSize: nat, bufs: seq<Bytes>)
      requires Rings.Roomy(size, count) && |bufs| == count
      ensures Valid() && h.posted == 0 && h.submitted == [] && this.size == size && this.count == count
      ensures this.hdrSize == hdrSize && mem.buf == bufs
    {
      this.size, this.count, this.hdrSize := size, count, hdrSize;
      mem := EmptyMemory(size, bufs);
      h := EmptyHistory(count);
      lastUsed, next := 0, 0;
      inflight := seq(count, _ => false);
      EmptyInv(size, count, bufs);
    }

    /** Consumes one used entry. */
    method ReapOne()
      requires Valid() && h.used != []
      modifies this`h, this`lastUsed, this`inflight
      ensures Valid() && h == ReapHistory(old(h)) && lastUsed == h.reaped % 0x1_0000
    {
      hide Inv, TxContents;
      InvSizes(mem, h, lastUsed, size, count);
      ReapKeeps(mem, h, lastUsed, size, count);
      ReapKeepsTx(mem, h);
      var id := mem.used[lastUsed % size].id;
      if id < count {
        inflight := inflight[id := false];
      }
      lastUsed := (lastUsed + 1) % 0x1_0000;
      h := ReapHistory(h);
      InvSizes(mem, h, lastUsed, size, count);
    }

    /** Clears the flag of every slot the device had answered when the used index was read. */
    method Reclaim()
      requires Valid()
      modifies this`h, this`mem, this`lastUsed, this`inflight
      ensures Valid() && h.submitted == old(h.submitted) && h.posted == old(h.posted)
      ensures h.reaped >= old(h.returned)
      ensures mem.buf == old(mem.buf)
    {
      hide Inv, TxContents;
      DeviceMoves();
      var usedIdx := mem.usedIdx;
      ghost var snap := h.returned;
      InvSizes(mem, h, lastUsed, size, count);
      UsedIdxTest(mem, h, lastUsed, size, count);
      while lastUsed != usedIdx
        invariant Valid() && h.submitted == old(h.submitted) && h.posted == old(h.posted) && mem.buf == old(mem.buf)
        invariant h.reaped <= snap <= h.returned && snap - h.reaped <= 0x8000
        invariant usedIdx == snap % 0x1_0000 && lastUsed == h.reaped % 0x1_0000
        decreases snap - h.reaped
      {
        Behind16(h.reaped, snap);
        DeviceMoves();
        InvSizes(mem, h, lastUsed, size, count);
        ReapOne();
      }
      Behind16(h.reaped, snap);
    }

    /** Fills the buffer and the descriptor of a slot the driver owns.  No buffer the device may
        read changes. */
    method Fill(slot: nat, packet: Bytes)
      requires QueueValid() && slot in h.free && slot < |mem.buf|
      modifies this`mem
      ensures QueueValid() && Described(mem, slot) == packet
      ensures |mem.buf| == old(|mem.buf|) && mem.avail == old(mem.avail)
      ensures forall id :: 0 <= id < |mem.buf| && id != slot ==> mem.buf[id] == old(mem.buf[id])
    {
      hide Inv, TxContents;
      InvSizes(mem, h, lastUsed, size, count);
      InvOwners(mem, h, lastUsed, size, count);
      var stale := mem.buf[slot];
      var bytes := packet + (if |packet| < |stale| then stale[|packet|..] else []);
      FillKeepsTx(mem, h, count, slot, bytes, |packet|);
      InvOtherMemory(mem, h, lastUsed, size, count, mem.buf[slot := bytes], mem.descLen[slot := |packet|]);
      mem := mem.(buf := mem.buf[slot := bytes], descLen := mem.descLen[slot := |packet|]);
    }

    /** The ring entry of a filled slot; the device does not look at it yet. */
    method WriteEntry(slot: nat)
      requires QueueValid() && slot in h.free && slot < |mem.buf|
      modifies this`mem
      ensures QueueValid() && mem.availIdx == old(mem.availIdx)
      ensures mem.availIdx % size < |mem.avail| && mem.avail[mem.availIdx % size] == slot
      ensures mem.buf == old(mem.buf) && mem.descLen == old(mem.descLen)
    {
      hide Inv, TxContents;
      InvSizes(mem, h, lastUsed, size, count);
      EntryKeeps(mem, h, lastUsed, size, count, slot);
      mem := mem.(avail := mem.avail[mem.availIdx % size := slot]);
      EntryKeepsTx(old(mem), mem, h);
    }

    /** The index, which hands the entry over. */
    method BumpIndex(slot: nat)
      requires QueueValid() && slot in h.free && slot < |mem.buf|
      requires mem.availIdx % size < |mem.avail| && mem.avail[mem.availIdx % size] == slot
      modifies this`mem, this`h
      ensures QueueValid() && h == PostHistory(old(h), slot, old(Described(mem, slot)))
      ensures mem == old(mem).(availIdx := (old(mem.availIdx) + 1) % 0x1_0000)
    {
      hide Inv, TxContents;
      InvSizes(mem, h, lastUsed, size, count);
      PostKeeps(mem, h, lastUsed, size, count, slot, Described(mem, slot));
      PostKeepsTx(mem, h, slot);
      h := PostHistory(h, slot, Described(mem, slot));
      assert PostMem(mem, slot).avail == mem.avail;
      mem := mem.(availIdx := (mem.availIdx + 1) % 0x1_0000);
    }

    /** Publishes a filled slot: the ring entry, a barrier, the index. */
    method Publish(slot: nat)
      requires QueueValid() && slot in h.free && slot < |mem.buf|
      modifies this`mem, this`h
      ensures QueueValid()
      ensures h.free == old(h.free) - {slot} && h.posted == old(h.posted) + 1 && h.reaped == old(h.reaped)
      ensures h.submitted == old(h.submitted) + [old(Described(mem, slot))]
      ensures mem.buf == old(mem.buf)
    {
      hide Inv, TxContents, QueueValid;
      WriteEntry(slot);
      DeviceMoves();
      BumpIndex(slot);
    }

    /** Hands a packet in a free slot to the device. */
    method Submit(slot: nat, packet: Bytes)
      requires Valid() && slot < count && !inflight[slot]
      modifies this`h, this`mem, this`inflight, this`next
      ensures Valid() && h.submitted == old(h.submitted) + [packet]
    {
      hide Inv, TxContents;
      InvSizes(mem, h, lastUsed, size, count);
      Fill(slot, packet);
      inflight := inflight[slot := true];
      DeviceMoves();
      Publish(slot);
      DeviceMoves();
      next := (slot + 1) % count;
    }

    /** Sends one frame.  It is refused only when every slot is still with the device. */
    method SendEthernet(dst: Bytes, src: Bytes, etherType: u16, payload: Bytes) returns (r: int)
      requires Valid() && |dst| == |src| == 6 && |payload| + ETH_HEADER <= MAX_FRAME
      modifies this`h, this`mem, this`lastUsed, this`inflight, this`next
      ensures Valid()
      ensures r < 0 ==> h.submitted == old(h.submitted) && mem.buf == old(mem.buf)
      ensures r >= 0 ==> h.submitted == old(h.submitted) + [TxPacket(hdrSize, dst, src, etherType, payload)]
      ensures r >= 0 ==> r == if |payload| + ETH_HEADER < MIN_FRAME then MIN_FRAME else |payload| + ETH_HEADER
      ensures r < 0 ==> r == -1 && forall id :: 0 <= id < count ==> inflight[id]
    {
      hide Inv, TxContents, TxPacket;
      Reclaim();
      var slot := FindFree(inflight, next);
      if slot < 0 {
        return -1;
      }
      Submit(slot, TxPacket(hdrSize, dst, src, etherType, payload));
      r := if |payload| + ETH_HEADER < MIN_FRAME then MIN_FRAME else |payload| + ETH_HEADER;
    }
  }

  /** What a received Ethernet frame in `content`, behind a VirtIO header, gives a caller with
      room for `cap` bytes: source address, type and payload. */
  function Deliver(hdr: nat, content: Bytes, cap: nat): Option<(Bytes, u16, Bytes)> {
    if |content| <= hdr + ETH_HEADER then None
    else
      var frame := if |content| - hdr > MAX_FRAME then content[hdr..hdr + MAX_FRAME] else content[hdr..];
      if |frame| - ETH_HEADER > cap then None
      else Some((frame[6..12], frame[12] as u16 * 256 + frame[13] as u16, frame[ETH_HEADER..]))
  }

  /** The receive path takes apart what the transmit path put together: a frame sent is delivered with
      its sender, its type and its payload, filled up with zeros to 46 bytes, if the caller has room. */
  lemma SentIsDelivered(hdr: nat, dst: Bytes, src: Bytes, etherType: u16, payload: Bytes, cap: nat)
    requires |dst| == |src| == 6 && |payload| + ETH_HEADER <= MAX_FRAME
    ensures var filled := payload + Zeros(if |payload| < 46 then 46 - |payload| else 0);
      Deliver(hdr, TxPacket(hdr, dst, src, etherType, payload), cap)
      == if |filled| <= cap then Some((src, etherType, filled)) else None
  {
    var q, filled := TxPacket(hdr, dst, src, etherType, payload),
                     payload + Zeros(if |payload| < 46 then 46 - |payload| else 0);
    FrameLayout(hdr, dst, src, etherType, payload);
    hide TxPacket;
    var frame := q[hdr..];
    assert frame[6..12] == q[hdr + 6..hdr + 12];
    assert frame[ETH_HEADER..] == q[hdr + 14..] == filled;
  }

  /** Of any other frame too: who sent it, what it is, and its bytes behind the two addresses and the
      type, those beyond 1518 cut off; refused only if it holds no payload or the caller has no room. */
  lemma DeliveredParts(hdr: nat, content: Bytes, cap: nat)
    ensures var n := Min(|content| - hdr, 1518) - 14;
      && (Deliver(hdr, content, cap) == None <==> n <= 0 || n > cap)
      && (0 < n <= cap ==>
            Deliver(hdr, content, cap) == Some((content[hdr + 6..hdr + 12],
              (content[hdr + 12] as int * 256 + content[hdr + 13] as int) as u16, content[hdr + 14..hdr + 14 + n])))
  {
    if |content| > hdr + 14 {
      var frame := if |content| - hdr > MAX_FRAME then content[hdr..hdr + MAX_FRAME] else content[hdr..];
      assert frame[6..12] == content[hdr + 6..hdr + 12];
      assert frame[ETH_HEADER..] == content[hdr + 14..hdr + |frame|];
    }
  }

  ghost predicate AllOfSize(buf: seq<Bytes>, n: nat) {
    forall id :: 0 <= id < |buf| ==> |buf[id]| == n
  }

  datatype Received = Nothing | Dropped | Frame(src: Bytes, etherType: u16, payload: Bytes)

  class RxDriver {
    const size: nat
    const count: nat
    const hdrSize: nat
    const bufSize: nat
    var mem: Memory
    var lastUsed: nat
    var h: History

    ghost predicate QueueValid()
      reads this
    {
      Inv(mem, h, lastUsed, size, count) && RxContents(mem, h) && AllOfSize(mem.buf, bufSize)
    }

    /** Between calls the driver owns no buffer: each is available, with the device, or used. */
    ghost predicate Valid()
      reads this
    {
      QueueValid() && h.free == {}
    }

    /** What the device cannot change. */
    twostate predicate DriverSideKept()
      reads this
    {
      && h.free == old(h.free) && h.posted == old(h.posted) && h.reaped == old(h.reaped)
      && mem.avail == old(mem.avail) && mem.availIdx == old(mem.availIdx)
      && |mem.buf| == old(|mem.buf|)
      && (forall id :: id in h.free && id < |mem.buf| ==> mem.buf[id] == old(mem.buf[id]))
      && old(h.used) <= h.used && old(h.returned) <= h.returned
      && old(h.serials) <= h.serials && old(h.contents) <= h.contents
    }

    method DeviceFetch()
      requires QueueValid() && h.avail != []
      modifies this`h
      ensures QueueValid() && DriverSideKept()
    {
      hide Inv, RxContents;
      FetchKeeps(mem, h, lastUsed, size, count);
      SameBuffersKeepRx(mem, mem, h, FetchHistory(h));
      h := FetchHistory(h);
    }

    /** The device has written `bytes` into buffer `id` and reports `len` of them. */
    method DeviceReturn(id: nat, len: nat, bytes: Bytes)
      requires QueueValid() && id in h.held && |bytes| == bufSize
      modifies this`h, this`mem
      ensures QueueValid() && DriverSideKept()
    {
      hide Inv, RxContents;
      InvSizes(mem, h, lastUsed, size, count);
      InvOwners(mem, h, lastUsed, size, count);
      ReturnKeeps(mem, h, lastUsed, size, count, id, len, bytes, Prefix(bytes, len));
      ReturnKeepsRx(mem, h, count, id, len, bytes);
      mem := ReturnMem(mem, id, len, bytes);
      h := ReturnHistory(h, id, len, Prefix(bytes, len));
    }

    /** Any number of device steps. */
    method DeviceMoves()
      requires QueueValid()
      modifies this`h, this`mem
      ensures QueueValid() && DriverSideKept()
    {
      hide Inv, RxContents;
      var steps: int := *;
      while steps > 0
        invariant QueueValid() && DriverSideKept()
      {
        steps := steps - 1;
        var fetch: bool := *;
        if fetch && h.avail != [] {
          DeviceFetch();
        } else if h.held != map[] {
          var id :| id in h.held;
          var len: int := *;
          var bytes: Bytes := *;
          if len >= 0 && |bytes| == bufSize {
            DeviceReturn(id, len, bytes);
          }
        }
      }
    }

    /** Resets the descriptor of a buffer the driver owns. */
    method Arm(id: nat)
      requires QueueValid() && id in h.free && id < count
      modifies this`mem
      ensures QueueValid()
    {
      hide Inv, RxContents;
      InvSizes(mem, h, lastUsed, size, count);
      InvOtherMemory(mem, h, lastUsed, size, count, mem.buf, mem.descLen[id := bufSize]);
      SameBuffersKeepRx(mem, mem.(descLen := mem.descLen[id := bufSize]), h, h);
      mem := mem.(descLen := mem.descLen[id := bufSize]);
    }

    /** Publishes it: the ring entry, a barrier, the index. */
    method Publish(id: nat)
      requires QueueValid() && id in h.free && id < count
      modifies this`h, this`mem
      ensures QueueValid() && h.free == old(h.free) - {id} && h.reaped == old(h.reaped)
      ensures old(h.contents) <= h.contents
    {
      hide Inv, RxContents;
      InvSizes(mem, h, lastUsed, size, count);
      EntryKeeps(mem, h, lastUsed, size, count, id);
      SameBuffersKeepRx(mem, mem.(avail := mem.avail[mem.availIdx % size := id]), h, h);
      mem := mem.(avail := mem.avail[mem.availIdx % size := id]);
      DeviceMoves();
      InvSizes(mem, h, lastUsed, size, count);
      PostKeeps(mem, h, lastUsed, size, count, id, []);
      assert PostMem(mem, id).avail == mem.avail;
      SameBuffersKeepRx(mem, PostMem(mem, id), h, PostHistory(h, id, []));
      h := PostHistory(h, id, []);
      mem := mem.(availIdx := (mem.availIdx + 1) % 0x1_0000);
    }

    /** Makes a buffer the driver owns available for writing. */
    method Post(id: nat)
      requires QueueValid() && id in h.free && id < count
      modifies this`h, this`mem
      ensures QueueValid() && h.free == old(h.free) - {id} && h.reaped == old(h.reaped)
      ensures old(h.contents) <= h.contents
    {
      hide Inv, RxContents;
      Arm(id);
      DeviceMoves();
      Publish(id);
    }

    /** virtio_queue_prepare followed by virtio_net_seed_rx: every buffer is handed over. */
    constructor (size: nat, count: nat, hdrSize: nat, bufSize: nat)
      requires Rings.Roomy(size, count)
      ensures Valid() && h.reaped == 0
      ensures this.size == size && this.count == count && this.hdrSize == hdrSize && this.bufSize == bufSize
    {
      this.size, this.count, this.hdrSize, this.bufSize := size, count, hdrSize, bufSize;
      var bufs := seq(count, _ => Zeros(bufSize));
      mem := EmptyMemory(size, bufs);
      h := EmptyHistory(count);
      lastUsed := 0;
      EmptyInv(size, count, bufs);
      new;
      hide Inv, RxContents, EmptyMemory, EmptyHistory;
      for i := 0 to count
        invariant QueueValid() && h.reaped == 0
        invariant forall id: nat :: id in h.free <==> i <= id < count
      {
        Post(i);
      }
    }

    /** Takes the oldest used entry off the ring. */
    method TakeUsed() returns (e: UsedElem)
      requires QueueValid() && h.used != []
      modifies this`h, this`lastUsed
      ensures QueueValid() && h == ReapHistory(old(h)) && e == old(h.used[0]) && e.id < count
      ensures Prefix(mem.buf[e.id], e.len) == h.contents[old(h.reaped)]
    {
      hide Inv, RxContents;
      InvSizes(mem, h, lastUsed, size, count);
      ReapKeeps(mem, h, lastUsed, size, count);
      ReapKeepsRx(mem, h);
      e := mem.used[lastUsed % size];
      RxSizes(mem, h);
      lastUsed := (lastUsed + 1) % 0x1_0000;
      h := ReapHistory(h);
    }

    /** Receives one frame and hands its buffer straight back.  Frames come out once each and in
        the order the device answered them. */
    method RecvEthernet(cap: nat) returns (r: Received)
      requires Valid() && bufSize >= hdrSize + MAX_FRAME
      modifies this`h, this`mem, this`lastUsed
      ensures Valid()
      ensures r.Nothing? ==> h.reaped == old(h.reaped)
      ensures !r.Nothing? ==>
                && h.reaped == old(h.reaped) + 1 && old(h.reaped) < |h.contents|
                && r == match Deliver(hdrSize, h.contents[old(h.reaped)], cap)
                        case Some((s, t, p)) => Frame(s, t, p)
                        case None => Dropped
      ensures old(h.used) != [] ==> !r.Nothing?
      ensures old(h.contents) <= h.contents
    {
      hide Inv, RxContents, Deliver;
      DeviceMoves();
      var usedIdx := mem.usedIdx;
      UsedIdxTest(mem, h, lastUsed, size, count);
      InvSizes(mem, h, lastUsed, size, count);
      if lastUsed == usedIdx {
        return Nothing;
      }
      var e := TakeUsed();
      ghost var content := Prefix(mem.buf[e.id], e.len);
      DeviceMoves();
      r := CopyOut(hdrSize, mem.buf[e.id], e.len, cap);
      Post(e.id);
    }
  }

  /** Copies a frame out of a receive buffer, given the length the device reported. */
  method CopyOut(hdr: nat, buf: Bytes, len: nat, cap: nat) returns (r: Received)
    requires |buf| >= hdr + MAX_FRAME
    ensures r == match Deliver(hdr, Prefix(buf, len), cap)
                 case Some((s, t, p)) => Frame(s, t, p)
                 case None => Dropped
  {
    ghost var content := Prefix(buf, len);
    r := Dropped;
    if len > hdr + ETH_HEADER {
      var frameLen := len - hdr;
      if frameLen > MAX_FRAME {
        frameLen := MAX_FRAME;
      }
      var frame := buf[hdr..hdr + frameLen];
      assert forall i :: 0 <= i < frameLen ==> frame[i] == content[hdr + i];
      assert frame == if |content| - hdr > MAX_FRAME then content[hdr..hdr + MAX_FRAME] else content[hdr..];
      var payloadLen := frameLen - ETH_HEADER;
      if payloadLen <= cap {
        r := Frame(frame[6..12], frame[12] as u16 * 256 + frame[13] as u16, frame[ETH_HEADER..]);
      }
    }
  }

  lemma SameBuffersKeepRx(m: Memory, m': Memory, h: History, h': History)
    requires RxContents(m, h) && m'.buf == m.buf
    requires h'.used == h.used && h'.returned == h.returned && h'.reaped == h.reaped && h'.contents == h.contents
    ensures RxContents(m', h')
  {
  }

  lemma RxSizes(m: Memory, h: History)
    requires RxContents(m, h)
    ensures |h.contents| == h.returned && |h.used| == h.returned - h.reaped
  {
  }

  /** The slot looked at in round `i` of the search. */
  function Candidate(next: nat, i: nat, count: nat): nat
    requires count > 0
  {
    (next + i) % count
  }

  /** Every slot looked at before this one is in flight. */
  ghost predicate FirstFree(inflight: seq<bool>, next: nat, slot: int) {
    exists i: nat :: i < |inflight| && slot == Candidate(next, i, |inflight|)
                     && forall k: nat :: k < i ==> inflight[Candidate(next, k, |inflight|)]
  }

  /** The first slot from `next` on that is not in flight, or -1 when all are. */
  method FindFree(inflight: seq<bool>, next: nat) returns (slot: int)
    requires next < |inflight|
    ensures slot < 0 ==> slot == -1 && forall id :: 0 <= id < |inflight| ==> inflight[id]
    ensures slot >= 0 ==> slot < |inflight| && !inflight[slot] && FirstFree(inflight, next, slot)
  {
    var count := |inflight|;
    for i := 0 to count
      invariant forall k :: 0 <= k < i ==> inflight[Candidate(next, k, count)]
    {
      var candidate := Candidate(next, i, count);
      if !inflight[candidate] {
        return candidate;
      }
    }
    forall id | 0 <= id < count
      ensures inflight[id]
    {
      var i := SlotSearch(next, count, id);
      assert inflight[Candidate(next, i, count)];
    }
    return -1;
  }

  lemma InvOwners(m: Memory, h: History, lastUsed: nat, size: nat, count: nat)
    requires Inv(m, h, lastUsed, size, count)
    ensures Owners(h, count)
  {
  }

  lemma EntryKeepsTx(m: Memory, m': Memory, h: History)
    requires |m.descLen| == |m.buf| && TxContents(m, h) && m'.buf == m.buf && m'.descLen == m.descLen
    ensures TxContents(m', h)
  {
  }

  lemma InvSizes(m: Memory, h: History, lastUsed: nat, size: nat, count: nat)
    requires Inv(m, h, lastUsed, size, count)
    ensures Sizes(m, size, count) && Counters(m, h, lastUsed)
    ensures forall id :: id in h.held || id in h.free ==> id < count
    ensures forall id :: id in h.held ==> id !in h.free
    ensures forall k :: 0 <= k < |h.used| ==> h.used[k].id < count && h.used[k].id !in h.free
  {
    forall k | 0 <= k < |h.used|
      ensures h.used[k].id < count && h.used[k].id !in h.free
    {
      assert Ids(h.used)[k] == h.used[k].id;
      assert h.used[k].id in Ids(h.used);
    }
    forall id | id in h.held || id in h.free
      ensures id < count
    {
      assert id in h.held.Keys || id in h.free;
    }
  }

  lemma Behind16(a: nat, b: nat)
    requires a <= b <= a + 0x8000
    ensures a % 0x1_0000 == b % 0x1_0000 <==> a == b
  {
  }
}
