/**
 Patches to a flat byte array and the undo journal that the Limine installer keeps of them:
 one record per write, holding the bytes that were there before.
 */
module Journal {
  import opened Machine

  datatype Record = Record(loc: nat, data: Bytes)

  predicate Covers(r: Record, x: nat) {
    r.loc <= x < r.loc + |r.data|
  }

  /** `s` with the bytes of `r` written over it; bytes past the end are lost. */
  function Patched(s: Bytes, r: Record): (p: Bytes)
    ensures |p| == |s|
    ensures forall x :: 0 <= x < |s| ==> p[x] == if Covers(r, x) then r.data[x - r.loc] else s[x]
  {
    seq(|s|, x requires 0 <= x < |s| => if Covers(r, x) then r.data[x - r.loc] else s[x])
  }

  /** Inside `s` that is a splice. */
  lemma PatchedIs(s: Bytes, r: Record)
    requires r.loc + |r.data| <= |s|
    ensures Patched(s, r) == s[..r.loc] + r.data + s[r.loc + |r.data|..]
  {
  }

  function Replay(s: Bytes, rs: seq<Record>): (p: Bytes)
    ensures |p| == |s|
  {
    if rs == [] then s else Patched(Replay(s, rs[..|rs| - 1]), rs[|rs| - 1])
  }

  function Reverse<T>(s: seq<T>): (r: seq<T>)
    ensures |r| == |s|
    ensures forall i :: 0 <= i < |s| ==> r[i] == s[|s| - 1 - i]
  {
    seq(|s|, i requires 0 <= i < |s| => s[|s| - 1 - i])
  }

  /** The byte the earliest record touching `x` holds for it. */
  function Earliest(rs: seq<Record>, x: nat): Option<u8> {
    if rs == [] then None
    else if Covers(rs[0], x) then Some(rs[0].data[x - rs[0].loc])
    else Earliest(rs[1..], x)
  }

  lemma {:induction false} EarliestAppend(rs: seq<Record>, r: Record, x: nat)
    ensures Earliest(rs + [r], x)
            == if Earliest(rs, x).Some? then Earliest(rs, x)
               else if Covers(r, x) then Some(r.data[x - r.loc]) else None
  {
    if rs != [] {
      assert (rs + [r])[1..] == rs[1..] + [r];
      EarliestAppend(rs[1..], r, x);
    }
  }

  /** Replaying a journal backwards leaves each byte at what its earliest record holds, and
      bytes without a record alone. */
  lemma {:induction false} ReplayReversed(s: Bytes, rs: seq<Record>, x: nat)
    requires x < |s|
    ensures Replay(s, Reverse(rs))[x]
            == match Earliest(rs, x) case Some(b) => b case None => s[x]
  {
    if rs != [] {
      ReplayReversed(s, rs[1..], x);
      assert Reverse(rs)[..|rs| - 1] == Reverse(rs[1..]);
    }
  }

  /** A record of bytes of `s`. */
  ghost predicate Holds(s: Bytes, r: Record) {
    forall x: nat :: Covers(r, x) ==> x < |s| && r.data[x - r.loc] == s[x]
  }

  /** What every write keeps: bytes without a record still have their original value, on the
      medium and as seen through the cache; the others have it in their earliest record.
      Bytes in `[lo, hi)` are excepted. */
  ghost predicate Recoverable(rs: seq<Record>, original: Bytes, disk: Bytes, logical: Bytes, lo: nat, hi: nat) {
    && |disk| == |original| == |logical|
    && forall x :: 0 <= x < |original| && !(lo <= x < hi) ==> RecoverableAt(rs, original, disk, logical, x)
  }

  ghost predicate RecoverableAt(rs: seq<Record>, original: Bytes, disk: Bytes, logical: Bytes, x: nat)
    requires x < |disk| == |original| == |logical|
  {
    match Earliest(rs, x)
    case Some(b) => b == original[x]
    case None => disk[x] == logical[x] == original[x]
  }

  /** Journalling a write of `data` at `loc` over the logical bytes `before`. */
  lemma RecoverableWrite(rs: seq<Record>, original: Bytes, disk: Bytes, logical: Bytes,
                         disk': Bytes, logical': Bytes, r: Record, lo: nat, hi: nat)
    requires Recoverable(rs, original, disk, logical, lo, hi)
    requires Holds(logical, r)
    requires |disk'| == |disk| && |logical'| == |logical|
    requires forall x :: 0 <= x < |disk| && !Covers(r, x) ==>
               logical'[x] == logical[x] && (disk'[x] == disk[x] || disk'[x] == logical[x])
    ensures Recoverable(rs + [r], original, disk', logical', lo, hi)
  {
    forall x | 0 <= x < |original| && !(lo <= x < hi)
      ensures RecoverableAt(rs + [r], original, disk', logical', x)
    {
      assert RecoverableAt(rs, original, disk, logical, x);
      EarliestAppend(rs, r, x);
    }
  }

  /** A write that failed half way spoils at most the bytes it covers. */
  lemma RecoverableDamage(rs: seq<Record>, original: Bytes, disk: Bytes, logical: Bytes,
                          disk': Bytes, logical': Bytes, r: Record)
    requires Recoverable(rs, original, disk, logical, 0, 0)
    requires |disk'| == |disk| && |logical'| == |logical|
    requires forall x :: 0 <= x < |disk| && !Covers(r, x) ==>
               logical'[x] == logical[x] && (disk'[x] == disk[x] || disk'[x] == logical[x])
    ensures Recoverable(rs, original, disk', logical', r.loc, r.loc + |r.data|)
  {
    forall x | 0 <= x < |original| && !(r.loc <= x < r.loc + |r.data|)
      ensures RecoverableAt(rs, original, disk', logical', x)
    {
      assert RecoverableAt(rs, original, disk, logical, x);
    }
  }

  /** Moving bytes from the cache to the medium. */
  lemma RecoverableMove(rs: seq<Record>, original: Bytes, disk: Bytes, logical: Bytes, disk': Bytes,
                        lo: nat, hi: nat)
    requires Recoverable(rs, original, disk, logical, lo, hi)
    requires |disk'| == |disk|
    requires forall x :: 0 <= x < |disk| ==> disk'[x] == disk[x] || disk'[x] == logical[x]
    ensures Recoverable(rs, original, disk', logical, lo, hi)
  {
    forall x | 0 <= x < |original| && !(lo <= x < hi)
      ensures RecoverableAt(rs, original, disk', logical, x)
    {
      assert RecoverableAt(rs, original, disk, logical, x);
    }
  }

  /** From a recoverable state the medium alone, whatever was still in the cache, replays back
      to the original. */
  lemma RollbackRestores(rs: seq<Record>, original: Bytes, disk: Bytes, logical: Bytes, lo: nat, hi: nat, x: nat)
    requires Recoverable(rs, original, disk, logical, lo, hi)
    requires x < |original| && !(lo <= x < hi)
    ensures Replay(disk, Reverse(rs))[x] == original[x]
  {
    assert RecoverableAt(rs, original, disk, logical, x);
    ReplayReversed(disk, rs, x);
  }

  /** After damage that left no record a byte replays back to the original exactly when it has an
      earlier record or was not damaged. */
  lemma RestoredIff(rs: seq<Record>, original: Bytes, disk: Bytes, damaged: Bytes, x: nat)
    requires Recoverable(rs, original, disk, disk, 0, 0) && |damaged| == |disk| && x < |disk|
    ensures Replay(damaged, Reverse(rs))[x] == original[x] <==> Earliest(rs, x).Some? || damaged[x] == original[x]
  {
    assert RecoverableAt(rs, original, disk, disk, x);
    ReplayReversed(damaged, rs, x);
  }
}
