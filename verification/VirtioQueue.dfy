/**
 A split virtqueue shared by the driver in kernel/drivers/net.c and a well-behaved device, as a
 state machine: the memory both sides see, and the history that says where each buffer is.
 */
module VirtioQueue {
  import opened Machine
  import opened Rings

  datatype UsedElem = UsedElem(id: nat, len: nat)

  /** The memory shared with the device: the two rings with their free-running 16-bit indices,
      the length field of each descriptor, and the packet buffers.  Descriptor `i` always
      points at buffer `i`. */
  datatype Memory = Memory(
    availIdx: nat, avail: seq<nat>,
    usedIdx: nat, used: seq<UsedElem>,
    descLen: seq<nat>, buf: seq<Bytes>)

  /** What has happened so far.
      - `posted`, `taken`, `returned`, `reaped`: entries made available by the driver, fetched by
        the device, put on the used ring, and consumed by the driver;
      - `free`, `avail`, `held`, `used`: where each buffer is; `held` maps a buffer the device
        holds to the number of the posting it came from;
      - `submitted[s]`: the bytes described by posting `s` when it was made;
      - `serials[k]`, `contents[k]`: the posting that the `k`-th used entry answers, and the bytes
        the device moved for it. */
  datatype History = History(
    posted: nat, taken: nat, returned: nat, reaped: nat,
    free: set<nat>, avail: seq<nat>, held: map<nat, nat>, used: seq<UsedElem>,
    submitted: seq<Bytes>, serials: seq<nat>, contents: seq<Bytes>)

  function Ids(q: seq<UsedElem>): (ids: seq<nat>)
    ensures |ids| == |q|
    ensures forall i :: 0 <= i < |q| ==> ids[i] == q[i].id
  {
    seq(|q|, i requires 0 <= i < |q| => q[i].id)
  }

  function Prefix(b: Bytes, n: nat): Bytes {
    if n <= |b| then b[..n] else b
  }

  /** The bytes descriptor `id` describes. */
  function Described(m: Memory, id: nat): Bytes
    requires id < |m.buf| == |m.descLen|
  {
    Prefix(m.buf[id], m.descLen[id])
  }

  // ----- the invariant -----

  ghost predicate Sizes(m: Memory, size: nat, count: nat) {
    && Roomy(size, count)
    && |m.avail| == |m.used| == size && |m.descLen| == |m.buf| == count
  }

  ghost predicate Counters(m: Memory, h: History, lastUsed: nat) {
    && h.reaped <= h.returned <= h.taken <= h.posted
    && m.availIdx == h.posted % 0x1_0000 && m.usedIdx == h.returned % 0x1_0000
    && lastUsed == h.reaped % 0x1_0000
    && |h.avail| == h.posted - h.taken && |h.held| == h.taken - h.returned && |h.used| == h.returned - h.reaped
    && |h.submitted| == h.posted && |h.serials| == |h.contents| == h.returned
  }

  ghost predicate RingsHold(m: Memory, h: History) {
    Window(m.avail, h.taken, h.avail) && Window(m.used, h.reaped, h.used)
  }

  ghost predicate Owners(h: History, count: nat) {
    Partition(count, h.free, h.avail, h.held.Keys, Ids(h.used))
  }

  /** Every fetched posting is answered at most once, and is answered or still held. */
  ghost predicate ExactlyOnce(h: History) {
    && NoDup(h.serials)
    && (forall k :: 0 <= k < |h.serials| ==> h.serials[k] < h.taken)
    && (forall id :: id in h.held ==> h.held[id] < h.taken && h.held[id] !in h.serials)
    && (forall i, j :: i in h.held && j in h.held && i != j ==> h.held[i] != h.held[j])
    && (forall s: nat :: s < h.taken ==> s in h.serials || s in h.held.Values)
  }

  /** A buffer the device may read still holds what was submitted, and what the device sent was
      what was submitted. */
  ghost predicate TxContents(m: Memory, h: History)
    requires |m.descLen| == |m.buf|
  {
    && |h.submitted| == h.posted && |h.avail| == h.posted - h.taken && |h.serials| == |h.contents|
    && (forall k :: 0 <= k < |h.avail| ==> h.avail[k] < |m.buf| && Described(m, h.avail[k]) == h.submitted[h.taken + k])
    && (forall id :: id in h.held ==> id < |m.buf| && h.held[id] < |h.submitted|
                                      && Described(m, id) == h.submitted[h.held[id]])
    && (forall k :: 0 <= k < |h.contents| ==> h.serials[k] < |h.submitted| && h.contents[k] == h.submitted[h.serials[k]])
  }

  /** A buffer on the used ring holds what the device put there. */
  ghost predicate RxContents(m: Memory, h: History) {
    && |h.used| == h.returned - h.reaped && |h.contents| == h.returned
    && forall k :: 0 <= k < |h.used| ==>
         h.used[k].id < |m.buf| && Prefix(m.buf[h.used[k].id], h.used[k].len) == h.contents[h.reaped + k]
  }

  ghost predicate Inv(m: Memory, h: History, lastUsed: nat, size: nat, count: nat) {
    && Sizes(m, size, count)
    && Counters(m, h, lastUsed)
    && RingsHold(m, h)
    && Owners(h, count)
    && ExactlyOnce(h)
  }

  // ----- the steps -----

  /** The driver publishes buffer `id`: the ring entry, then the index. */
  function PostMem(m: Memory, id: nat): Memory
    requires |m.avail| > 0
  {
    m.(avail := m.avail[m.availIdx % |m.avail| := id], availIdx := (m.availIdx + 1) % 0x1_0000)
  }

  function PostHistory(h: History, id: nat, bytes: Bytes): History {
    h.(posted := h.posted + 1, free := h.free - {id}, avail := h.avail + [id], submitted := h.submitted + [bytes])
  }

  /** The device fetches the next available entry. */
  function FetchHistory(h: History): History
    requires h.avail != []
  {
    h.(taken := h.taken + 1, avail := h.avail[1..], held := h.held[h.avail[0] := h.taken])
  }

  /** The device answers buffer `id`, having left `bytes` in it. */
  function ReturnMem(m: Memory, id: nat, len: nat, bytes: Bytes): Memory
    requires |m.used| > 0 && id < |m.buf|
  {
    m.(used := m.used[m.usedIdx % |m.used| := UsedElem(id, len)], usedIdx := (m.usedIdx + 1) % 0x1_0000,
       buf := m.buf[id := bytes])
  }

  function ReturnHistory(h: History, id: nat, len: nat, moved: Bytes): History
    requires id in h.held
  {
    h.(returned := h.returned + 1, held := h.held - {id}, used := h.used + [UsedElem(id, len)],
       serials := h.serials + [h.held[id]], contents := h.contents + [moved])
  }

  /** The driver consumes the oldest used entry. */
  function ReapHistory(h: History): History
    requires h.used != []
  {
    h.(reaped := h.reaped + 1, free := h.free + {h.used[0].id}, used := h.used[1..])
  }

  // ----- every step keeps the invariant -----

  lemma Bump16(n: nat)
    ensures (n % 0x1_0000 + 1) % 0x1_0000 == (n + 1) % 0x1_0000
  {
  }

  lemma PostKeepsOwners(h: History, count: nat, id: nat, bytes: Bytes)
    requires Owners(h, count) && id in h.free
    ensures Owners(PostHistory(h, id, bytes), count) && |h.avail| < count
  {
    hide Partition;
    PartitionPost(count, h.free, h.avail, h.held.Keys, Ids(h.used), id);
  }

  lemma PostKeepsOnce(h: History, id: nat, bytes: Bytes)
    requires ExactlyOnce(h)
    ensures ExactlyOnce(PostHistory(h, id, bytes))
  {
  }

  lemma PostKeeps(m: Memory, h: History, lastUsed: nat, size: nat, count: nat, id: nat, bytes: Bytes)
    requires Inv(m, h, lastUsed, size, count) && id in h.free
    ensures Inv(PostMem(m, id), PostHistory(h, id, bytes), lastUsed, size, count)
  {
    hide Window, ExactlyOnce, Owners;
    PostKeepsOwners(h, count, id, bytes);
    PostKeepsOnce(h, id, bytes);
    WindowPush(m.avail, h.taken, h.avail, id, m.availIdx % size, count);
    Bump16(h.posted);
  }

  lemma FetchKeepsOnce(h: History)
    requires h.avail != [] && ExactlyOnce(h) && h.avail[0] !in h.held
    ensures ExactlyOnce(FetchHistory(h))
  {
    var h' := FetchHistory(h);
    forall s: nat | s < h'.taken
      ensures s in h'.serials || s in h'.held.Values
    {
      if s == h.taken {
        assert h'.held[h.avail[0]] == s;
      } else if s !in h.serials {
        var id :| id in h.held && h.held[id] == s;
        assert h'.held[id] == s;
      }
    }
  }

  lemma FetchKeepsOwners(h: History, count: nat)
    requires Owners(h, count) && h.avail != []
    ensures h.avail[0] !in h.held && Owners(FetchHistory(h), count)
    ensures |FetchHistory(h).held| == |h.held| + 1
  {
    PartitionFetch(count, h.free, h.avail, h.held.Keys, Ids(h.used));
    assert h.avail[0] !in h.held.Keys;
    hide Partition;
    var h' := FetchHistory(h);
    assert h'.held.Keys == h.held.Keys + {h.avail[0]};
    assert |h'.held| == |h'.held.Keys| && |h.held| == |h.held.Keys|;
  }

  lemma FetchKeeps(m: Memory, h: History, lastUsed: nat, size: nat, count: nat)
    requires Inv(m, h, lastUsed, size, count) && h.avail != []
    ensures Inv(m, FetchHistory(h), lastUsed, size, count)
  {
    hide Window, ExactlyOnce, Owners;
    FetchKeepsOwners(h, count);
    FetchKeepsOnce(h);
    WindowPop(m.avail, h.taken, h.avail);
  }

  lemma ReturnKeepsOnce(h: History, id: nat, len: nat, moved: Bytes)
    requires id in h.held && ExactlyOnce(h)
    ensures ExactlyOnce(ReturnHistory(h, id, len, moved))
  {
    var h' := ReturnHistory(h, id, len, moved);
    forall s: nat | s < h'.taken
      ensures s in h'.serials || s in h'.held.Values
    {
      if s in h.serials {
        var k :| 0 <= k < |h.serials| && h.serials[k] == s;
        assert h'.serials[k] == s;
      } else {
        var j :| j in h.held && h.held[j] == s;
        if j == id {
          assert h'.serials[|h.serials|] == s;
        } else {
          assert h'.held[j] == s;
        }
      }
    }
  }

  lemma ReturnKeepsOwners(h: History, count: nat, id: nat, len: nat, moved: Bytes)
    requires Owners(h, count) && id in h.held
    ensures Owners(ReturnHistory(h, id, len, moved), count)
    ensures |ReturnHistory(h, id, len, moved).held| == |h.held| - 1 && |h.used| < count
  {
    hide Partition;
    var h' := ReturnHistory(h, id, len, moved);
    PartitionReturn(count, h.free, h.avail, h.held.Keys, Ids(h.used), id);
    assert Ids(h'.used) == Ids(h.used) + [id];
    assert h'.held.Keys == h.held.Keys - {id};
    assert |h'.held| == |h'.held.Keys| && |h.held| == |h.held.Keys|;
  }

  lemma ReturnKeeps(m: Memory, h: History, lastUsed: nat, size: nat, count: nat,
                    id: nat, len: nat, bytes: Bytes, moved: Bytes)
    requires Inv(m, h, lastUsed, size, count) && id in h.held && id < |m.buf|
    ensures Inv(ReturnMem(m, id, len, bytes), ReturnHistory(h, id, len, moved), lastUsed, size, count)
  {
    hide Window, ExactlyOnce, Owners;
    ReturnKeepsOnce(h, id, len, moved);
    ReturnKeepsOwners(h, count, id, len, moved);
    WindowPush(m.used, h.reaped, h.used, UsedElem(id, len), m.usedIdx % size, count);
    Bump16(h.returned);
  }

  /** The driver finds the oldest used entry where its 16-bit index points. */
  lemma ReapKeeps(m: Memory, h: History, lastUsed: nat, size: nat, count: nat)
    requires Inv(m, h, lastUsed, size, count) && h.used != []
    ensures Inv(m, ReapHistory(h), (lastUsed + 1) % 0x1_0000, size, count)
    ensures m.used[lastUsed % size] == h.used[0]
  {
    hide Window, ExactlyOnce, Partition;
    var h' := ReapHistory(h);
    PartitionReap(count, h.free, h.avail, h.held.Keys, Ids(h.used));
    assert Ids(h'.used) == Ids(h.used)[1..];
    WindowPop(m.used, h.reaped, h.used);
    Bump16(h.reaped);
    OnceAfterReap(h);
  }

  lemma OnceAfterReap(h: History)
    requires h.used != [] && ExactlyOnce(h)
    ensures ExactlyOnce(ReapHistory(h))
  {
  }

  /** The driver's 16-bit test for a used entry is exact: never more than the queue size is
      outstanding. */
  lemma UsedIdxTest(m: Memory, h: History, lastUsed: nat, size: nat, count: nat)
    requires Inv(m, h, lastUsed, size, count)
    ensures lastUsed == m.usedIdx <==> h.used == []
    ensures |h.used| <= count
  {
    hide Window, ExactlyOnce;
    var n := h.returned - h.reaped;
    assert 0 <= n <= 0x8000;
    assert h.returned == h.reaped + n;
  }

  // ----- buffer contents -----

  /** Writing a ring entry that is not yet published changes nothing for the device. */
  lemma EntryKeeps(m: Memory, h: History, lastUsed: nat, size: nat, count: nat, id: nat)
    requires Inv(m, h, lastUsed, size, count) && h.free != {}
    ensures Inv(m.(avail := m.avail[m.availIdx % size := id]), h, lastUsed, size, count)
  {
    var f :| f in h.free;
    PostKeepsOwners(h, count, f, []);
    var slot := m.availIdx % size;
    WindowPush(m.avail, h.taken, h.avail, id, slot, count);
    WindowShorter(m.avail[slot := id], h.taken, h.avail, id);
  }

  lemma WindowShorter(ring: seq<nat>, base: nat, q: seq<nat>, x: nat)
    requires Window(ring, base, q + [x])
    ensures Window(ring, base, q)
  {
    forall k | 0 <= k < |q|
      ensures ring[Slot16(base + k, |ring|)] == q[k]
    {
      assert (q + [x])[k] == q[k];
    }
  }

  /** Filling a buffer the driver owns leaves what the device may read alone. */
  lemma FillKeepsTx(m: Memory, h: History, count: nat, id: nat, bytes: Bytes, len: nat)
    requires |m.descLen| == |m.buf| == count && Owners(h, count) && TxContents(m, h) && id in h.free && id < count
    ensures TxContents(m.(buf := m.buf[id := bytes], descLen := m.descLen[id := len]), h)
  {
  }

  lemma PostKeepsTx(m: Memory, h: History, id: nat)
    requires |m.descLen| == |m.buf| && TxContents(m, h) && id < |m.buf| && |m.avail| > 0
    requires h.taken <= h.posted
    ensures TxContents(PostMem(m, id), PostHistory(h, id, Described(m, id)))
  {
    var h', m' := PostHistory(h, id, Described(m, id)), PostMem(m, id);
    forall k | 0 <= k < |h'.avail|
      ensures h'.avail[k] < |m'.buf| && Described(m', h'.avail[k]) == h'.submitted[h'.taken + k]
    {
    }
  }

  lemma FetchKeepsTx(m: Memory, h: History)
    requires |m.descLen| == |m.buf| && TxContents(m, h) && h.avail != []
    ensures TxContents(m, FetchHistory(h))
  {
    assert h.avail[0] < |m.buf| && Described(m, h.avail[0]) == h.submitted[h.taken + 0];
    forall k | 0 <= k < |h.avail| - 1
      ensures h.avail[1..][k] < |m.buf| && Described(m, h.avail[1..][k]) == h.submitted[h.taken + 1 + k]
    {
      assert Described(m, h.avail[k + 1]) == h.submitted[h.taken + (k + 1)];
    }
  }

  /** A device that only reads: the bytes it sends for `id` are those submitted. */
  lemma ReturnKeepsTx(m: Memory, h: History, id: nat, len: nat)
    requires |m.descLen| == |m.buf| && TxContents(m, h) && id in h.held && id < |m.buf| && |m.used| > 0
    ensures TxContents(ReturnMem(m, id, len, m.buf[id]), ReturnHistory(h, id, len, Described(m, id)))
  {
    assert m.buf[id := m.buf[id]] == m.buf;
  }

  lemma ReapKeepsTx(m: Memory, h: History)
    requires |m.descLen| == |m.buf| && TxContents(m, h) && h.used != []
    ensures TxContents(m, ReapHistory(h))
  {
  }

  lemma ReturnKeepsRx(m: Memory, h: History, count: nat, id: nat, len: nat, bytes: Bytes)
    requires |m.buf| == count && Owners(h, count) && RxContents(m, h)
    requires id in h.held && id < count && |m.used| > 0 && h.reaped <= h.returned
    ensures RxContents(ReturnMem(m, id, len, bytes), ReturnHistory(h, id, len, Prefix(bytes, len)))
  {
    var h', m' := ReturnHistory(h, id, len, Prefix(bytes, len)), ReturnMem(m, id, len, bytes);
    forall k | 0 <= k < |h'.used|
      ensures h'.used[k].id < |m'.buf|
              && Prefix(m'.buf[h'.used[k].id], h'.used[k].len) == h'.contents[h'.reaped + k]
    {
      if k < |h.used| {
        assert Ids(h.used)[k] == h.used[k].id;
        assert h.used[k].id !in h.held.Keys;
      }
    }
  }

  lemma ReapKeepsRx(m: Memory, h: History)
    requires RxContents(m, h) && h.used != []
    ensures RxContents(m, ReapHistory(h))
    ensures h.used[0].id < |m.buf| && Prefix(m.buf[h.used[0].id], h.used[0].len) == h.contents[h.reaped]
  {
    forall k | 0 <= k < |h.used| - 1
      ensures h.used[1..][k].id < |m.buf|
              && Prefix(m.buf[h.used[1..][k].id], h.used[1..][k].len) == h.contents[h.reaped + 1 + k]
    {
      assert Prefix(m.buf[h.used[k + 1].id], h.used[k + 1].len) == h.contents[h.reaped + (k + 1)];
    }
    assert Prefix(m.buf[h.used[0].id], h.used[0].len) == h.contents[h.reaped + 0];
  }

  // ----- the queue at the start -----

  function EmptyMemory(size: nat, bufs: seq<Bytes>): Memory {
    Memory(0, seq(size, _ => 0), 0, seq(size, _ => UsedElem(0, 0)), seq(|bufs|, _ => 0), bufs)
  }

  function Upto(n: nat): set<nat> {
    if n == 0 then {} else Upto(n - 1) + {n - 1}
  }

  lemma {:induction false} UptoIsBelow(n: nat)
    ensures |Upto(n)| == n && forall i: nat :: i in Upto(n) <==> i < n
  {
    if n > 0 {
      UptoIsBelow(n - 1);
    }
  }

  function EmptyHistory(count: nat): History {
    History(0, 0, 0, 0, Upto(count), [], map[], [], [], [], [])
  }

  lemma EmptyInv(size: nat, count: nat, bufs: seq<Bytes>)
    requires Roomy(size, count) && |bufs| == count
    ensures Inv(EmptyMemory(size, bufs), EmptyHistory(count), 0, size, count)
    ensures TxContents(EmptyMemory(size, bufs), EmptyHistory(count))
    ensures RxContents(EmptyMemory(size, bufs), EmptyHistory(count))
    ensures forall i: nat :: i in EmptyHistory(count).free <==> i < count
  {
    UptoIsBelow(count);
    hide Upto;
    assert Ids([]) == [];
    var none: map<nat, nat> := map[];
    assert none.Keys == {};
  }

  lemma InvOtherMemory(m: Memory, h: History, lastUsed: nat, size: nat, count: nat, buf: seq<Bytes>, descLen: seq<nat>)
    requires Inv(m, h, lastUsed, size, count) && |buf| == |descLen| == count
    ensures Inv(m.(buf := buf, descLen := descLen), h, lastUsed, size, count)
  {
  }

  // ----- whole runs -----

  datatype Step =
    | Fill(id: nat, bytes: Bytes, len: nat)
    | Post(id: nat, bytes: Bytes)
    | Fetch
    | Return(id: nat, len: nat, bytes: Bytes, moved: Bytes)
    | Reap

  datatype State = State(m: Memory, h: History, lastUsed: nat)

  /** A driver fills and posts only buffers it owns; a well-behaved device fetches only what is
      available and answers only what it holds. */
  predicate Enabled(s: State, step: Step) {
    match step
    case Fill(id, _, _) => id in s.h.free && id < |s.m.buf| == |s.m.descLen|
    case Post(id, _) => id in s.h.free
    case Fetch => s.h.avail != []
    case Return(id, _, _, _) => id in s.h.held && id < |s.m.buf|
    case Reap => s.h.used != []
  }

  function Next(s: State, step: Step): State
    requires Enabled(s, step) && |s.m.avail| > 0 && |s.m.used| > 0
  {
    match step
    case Fill(id, bytes, len) => s.(m := s.m.(buf := s.m.buf[id := bytes], descLen := s.m.descLen[id := len]))
    case Post(id, bytes) => s.(m := PostMem(s.m, id), h := PostHistory(s.h, id, bytes))
    case Fetch => s.(h := FetchHistory(s.h))
    case Return(id, len, bytes, moved) =>
      s.(m := ReturnMem(s.m, id, len, bytes), h := ReturnHistory(s.h, id, len, moved))
    case Reap => s.(h := ReapHistory(s.h), lastUsed := (s.lastUsed + 1) % 0x1_0000)
  }

  ghost predicate Run(states: seq<State>, steps: seq<Step>) {
    && |states| == |steps| + 1
    && forall i :: 0 <= i < |steps| ==>
         && |states[i].m.avail| > 0 && |states[i].m.used| > 0
         && Enabled(states[i], steps[i]) && states[i + 1] == Next(states[i], steps[i])
  }

  /** A step of a transmit queue: what is posted is what the descriptor describes, and the device
      only reads, sending exactly that. */
  predicate Transmits(s: State, step: Step) {
    && (step.Post? ==> step.id < |s.m.buf| == |s.m.descLen| && step.bytes == Described(s.m, step.id))
    && (step.Return? ==> step.id < |s.m.buf| == |s.m.descLen| && step.bytes == s.m.buf[step.id]
                         && step.moved == Described(s.m, step.id))
  }

  ghost predicate InvOf(s: State, size: nat, count: nat) {
    Inv(s.m, s.h, s.lastUsed, size, count)
  }

  lemma BufferCount(s: State, size: nat, count: nat)
    requires InvOf(s, size, count)
    ensures |s.m.buf| == |s.m.descLen| == count
  {
  }

  lemma StepKeeps(s: State, step: Step, size: nat, count: nat)
    requires InvOf(s, size, count) && |s.m.avail| > 0 && |s.m.used| > 0 && Enabled(s, step)
    ensures InvOf(Next(s, step), size, count)
  {
    hide Inv;
    BufferCount(s, size, count);
    match step
    case Fill(id, bytes, len) =>
      InvOtherMemory(s.m, s.h, s.lastUsed, size, count, s.m.buf[id := bytes], s.m.descLen[id := len]);
    case Post(id, bytes) => PostKeeps(s.m, s.h, s.lastUsed, size, count, id, bytes);
    case Fetch => FetchKeeps(s.m, s.h, s.lastUsed, size, count);
    case Return(id, len, bytes, moved) => ReturnKeeps(s.m, s.h, s.lastUsed, size, count, id, len, bytes, moved);
    case Reap => ReapKeeps(s.m, s.h, s.lastUsed, size, count);
  }

  lemma StepKeepsTx(s: State, step: Step, size: nat, count: nat)
    requires InvOf(s, size, count) && |s.m.avail| > 0 && |s.m.used| > 0 && Enabled(s, step)
    requires |s.m.descLen| == |s.m.buf| && TxContents(s.m, s.h) && Transmits(s, step)
    ensures var t := Next(s, step); |t.m.descLen| == |t.m.buf| && TxContents(t.m, t.h)
  {
    hide TxContents, RingsHold, ExactlyOnce;
    match step
    case Fill(id, bytes, len) => FillKeepsTx(s.m, s.h, count, id, bytes, len);
    case Post(id, bytes) => PostKeepsTx(s.m, s.h, id);
    case Fetch => FetchKeepsTx(s.m, s.h);
    case Return(id, len, bytes, moved) => ReturnKeepsTx(s.m, s.h, id, len);
    case Reap => ReapKeepsTx(s.m, s.h);
  }

  /** A run from the prepared, empty queue of `size` places and one buffer per slot. */
  ghost predicate RunFromEmpty(states: seq<State>, steps: seq<Step>, size: nat, bufs: seq<Bytes>) {
    && Run(states, steps)
    && Roomy(size, |bufs|)
    && states[0] == State(EmptyMemory(size, bufs), EmptyHistory(|bufs|), 0)
  }

  /** In every interleaving of driver and device steps, over any number of index wraps, each buffer
      is in exactly one place and each posting is answered at most once. */
  lemma {:induction false} RunKeeps(states: seq<State>, steps: seq<Step>, size: nat, bufs: seq<Bytes>, i: nat)
    requires RunFromEmpty(states, steps, size, bufs) && i < |states|
    ensures InvOf(states[i], size, |bufs|)
  {
    hide Inv, Next, Enabled, EmptyMemory, EmptyHistory, TxContents, RxContents;
    if i == 0 {
      EmptyInv(size, |bufs|, bufs);
    } else {
      RunKeeps(states, steps, size, bufs, i - 1);
      assert states[i - 1 + 1] == Next(states[i - 1], steps[i - 1]);
      StepKeeps(states[i - 1], steps[i - 1], size, |bufs|);
    }
  }

  ghost predicate Transmitting(states: seq<State>, steps: seq<Step>) {
    |states| == |steps| + 1 && forall i :: 0 <= i < |steps| ==> Transmits(states[i], steps[i])
  }

  lemma {:induction false} RunKeepsTx(states: seq<State>, steps: seq<Step>, size: nat, bufs: seq<Bytes>, i: nat)
    requires RunFromEmpty(states, steps, size, bufs) && Transmitting(states, steps) && i < |states|
    ensures var s := states[i]; |s.m.descLen| == |s.m.buf| && TxContents(s.m, s.h)
  {
    hide Inv, Next, Enabled, EmptyHistory, TxContents, RxContents, Transmits;
    if i == 0 {
      EmptyInv(size, |bufs|, bufs);
    } else {
      RunKeepsTx(states, steps, size, bufs, i - 1);
      RunKeeps(states, steps, size, bufs, i - 1);
      assert states[i - 1 + 1] == Next(states[i - 1], steps[i - 1]);
      StepKeepsTx(states[i - 1], steps[i - 1], size, |bufs|);
    }
  }

  /** Posting `s` is in one place: answered once, held by the device for one buffer, or waiting. */
  ghost predicate InOnePlace(h: History, s: nat) {
    && NoDup(h.serials) && (forall id, j :: id in h.held && j in h.held && h.held[id] == h.held[j] ==> id == j)
    && (s in h.serials || s in h.held.Values || h.taken <= s)
    && (s in h.serials ==> s !in h.held.Values && s < h.taken)
    && (s in h.held.Values ==> s < h.taken)
  }

  /** Wherever posting `s` is, the bytes submitted with it are there. */
  ghost predicate BytesKept(m: Memory, h: History, s: nat) {
    && s < |h.submitted| == h.posted && |h.serials| == |h.contents| && |m.buf| == |m.descLen|
    && |h.avail| == h.posted - h.taken
    && (forall k :: 0 <= k < |h.serials| && h.serials[k] == s ==> h.contents[k] == h.submitted[s])
    && (forall id :: id in h.held && h.held[id] == s ==> id < |m.buf| && Described(m, id) == h.submitted[s])
    && (h.taken <= s ==> h.avail[s - h.taken] < |m.buf| && Described(m, h.avail[s - h.taken]) == h.submitted[s])
  }

  lemma OnceIsInOnePlace(h: History, s: nat)
    requires ExactlyOnce(h)
    ensures InOnePlace(h, s)
  {
  }

  lemma TxKeepsBytes(m: Memory, h: History, s: nat)
    requires |m.descLen| == |m.buf| && TxContents(m, h) && s < h.posted
    ensures BytesKept(m, h, s)
  {
    hide Described;
    if h.taken <= s {
      assert h.submitted[h.taken + (s - h.taken)] == h.submitted[s];
    }
  }

  /** In every state of every run of a transmit queue, each posting ever made is, exactly once, sent
      with the bytes submitted, or held by the device with them, or still available with them. */
  lemma EveryPostingAccounted(states: seq<State>, steps: seq<Step>, size: nat, bufs: seq<Bytes>, i: nat, s: nat)
    requires RunFromEmpty(states, steps, size, bufs) && Transmitting(states, steps)
    requires i < |states| && s < states[i].h.posted
    ensures InOnePlace(states[i].h, s) && BytesKept(states[i].m, states[i].h, s)
  {
    RunKeeps(states, steps, size, bufs, i);
    RunKeepsTx(states, steps, size, bufs, i);
    hide RunFromEmpty, Transmitting, RingsHold, Owners, Described, ExactlyOnce, InOnePlace, BytesKept, TxContents;
    OnceIsInOnePlace(states[i].h, s);
    TxKeepsBytes(states[i].m, states[i].h, s);
  }
}
