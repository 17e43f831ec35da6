/**
 The TLS 1.2 pseudo-random function with SHA-256 (section 5 of RFC 5246) over HMAC (RFC 2104), as
 kernel/drivers/netstack.c computes it.  The hash itself is any function with 32-byte results; an
 unfinished hash is the bytes it has absorbed.
 */
module Prf {
  import opened Machine
  import Bits

  ghost predicate IsDigest(sha: Bytes -> Bytes) {
    forall m: Bytes :: |sha(m)| == 32
  }

  function XorByte(a: u8, b: u8): u8 {
    Bits.Pow2Values();
    Bits.XorBound(a as int, b as int, 8);
    Bits.Xor(a as int, b as int) as u8
  }

  // ----- HMAC -----

  ghost function PaddedKey(sha: Bytes -> Bytes, key: Bytes): (k: Bytes)
    requires IsDigest(sha)
    ensures |k| == 64
  {
    var k := if |key| > 64 then sha(key) else key;
    k + seq(64 - |k|, i => 0)
  }

  function XorAll(s: Bytes, b: u8): Bytes {
    seq(|s|, i requires 0 <= i < |s| => XorByte(s[i], b))
  }

  ghost function Hmac(sha: Bytes -> Bytes, key: Bytes, msg: Bytes): (d: Bytes)
    requires IsDigest(sha)
    ensures |d| == 32
  {
    var k := PaddedKey(sha, key);
    sha(XorAll(k, 0x5c) + sha(XorAll(k, 0x36) + msg))
  }

  /** Keys longer than a block count as their hash, and a shorter key as the key with zeros after it
      (section 2 of RFC 2104). */
  lemma KeyLaws(sha: Bytes -> Bytes, key: Bytes, msg: Bytes)
    requires IsDigest(sha)
    ensures |key| > 64 ==> Hmac(sha, key, msg) == Hmac(sha, sha(key), msg)
    ensures |key| < 64 ==> Hmac(sha, key, msg) == Hmac(sha, key + [0], msg)
  {
    if |key| < 64 {
      assert PaddedKey(sha, key) == PaddedKey(sha, key + [0]);
    }
  }

  /** For a key of one whole block: the hash of the key with 0x5c and of the inner hash, which is that of
      the key with 0x36 and of the message.  Byte for byte the pads are exclusive-ors. */
  lemma HmacOfBlock(sha: Bytes -> Bytes, key: Bytes, msg: Bytes, inner: Bytes, outer: Bytes)
    requires IsDigest(sha) && |key| == |inner| == |outer| == 64
    requires forall i :: 0 <= i < 64 ==> inner[i] as int == Bits.Xor(key[i] as int, 0x36)
    requires forall i :: 0 <= i < 64 ==> outer[i] as int == Bits.Xor(key[i] as int, 0x5c)
    ensures Hmac(sha, key, msg) == sha(outer + sha(inner + msg))
  {
    assert PaddedKey(sha, key) == key;
    assert XorAll(key, 0x36) == inner && XorAll(key, 0x5c) == outer;
  }

  ghost function Join(parts: seq<Bytes>): Bytes {
    if parts == [] then [] else Join(parts[..|parts| - 1]) + parts[|parts| - 1]
  }

  method KeyBlock(sha: Bytes -> Bytes, key: Bytes) returns (block: array<u8>)
    requires IsDigest(sha)
    ensures fresh(block) && block[..] == PaddedKey(sha, key)
  {
    block := new u8[64](i => 0);
    var k := key;
    if |key| > 64 {
      k := sha(key);
    }
    forall i | 0 <= i < |k| {
      block[i] := k[i];
    }
  }

  /** HMAC of the concatenation of the parts. */
  method HmacVector(sha: Bytes -> Bytes, key: Bytes, parts: seq<Bytes>, out: array<u8>)
    requires IsDigest(sha) && out.Length == 32
    modifies out
    ensures out[..] == Hmac(sha, key, Join(parts))
  {
    hide PaddedKey;
    var block := KeyBlock(sha, key);
    var inner, outer := new u8[64](i => 0), new u8[64](i => 0);
    for i := 0 to 64
      invariant block[..] == PaddedKey(sha, key)
      invariant forall j :: 0 <= j < i ==> inner[j] == XorByte(block[j], 0x36) && outer[j] == XorByte(block[j], 0x5c)
    {
      inner[i] := XorByte(block[i], 0x36);
      outer[i] := XorByte(block[i], 0x5c);
    }
    assert inner[..] == XorAll(block[..], 0x36) && outer[..] == XorAll(block[..], 0x5c);
    hide XorAll;
    var ctx := inner[..];
    for i := 0 to |parts|
      invariant ctx == XorAll(PaddedKey(sha, key), 0x36) + Join(parts[..i])
    {
      assert parts[..i + 1][..i] == parts[..i];
      if |parts[i]| > 0 {
        ctx := ctx + parts[i];
      }
    }
    assert parts[..|parts|] == parts;
    var digest := sha(outer[..] + sha(ctx));
    forall i | 0 <= i < 32 {
      out[i] := digest[i];
    }
  }

  // ----- P_SHA256 -----

  /** A(0) is the seed, A(i) the HMAC of A(i - 1). */
  ghost function A(sha: Bytes -> Bytes, secret: Bytes, seed: Bytes, i: nat): Bytes
    requires IsDigest(sha)
  {
    if i == 0 then seed else Hmac(sha, secret, A(sha, secret, seed, i - 1))
  }

  ghost function Blocks(sha: Bytes -> Bytes, secret: Bytes, seed: Bytes, k: nat): (s: Bytes)
    requires IsDigest(sha)
    ensures |s| == 32 * k
  {
    if k == 0 then []
    else Blocks(sha, secret, seed, k - 1) + Hmac(sha, secret, A(sha, secret, seed, k) + seed)
  }

  /** The first `n` bytes of P_SHA256(secret, seed). */
  ghost function PSha256(sha: Bytes -> Bytes, secret: Bytes, seed: Bytes, n: nat): (s: Bytes)
    requires IsDigest(sha)
    ensures |s| == n
  {
    Blocks(sha, secret, seed, (n + 31) / 32)[..n]
  }

  lemma {:induction false} BlocksExtend(sha: Bytes -> Bytes, secret: Bytes, seed: Bytes, j: nat, k: nat)
    requires IsDigest(sha) && j <= k
    ensures Blocks(sha, secret, seed, j) <= Blocks(sha, secret, seed, k)
  {
    if j < k {
      BlocksExtend(sha, secret, seed, j, k - 1);
    }
  }

  /** Asking for fewer bytes gives a prefix of what asking for more gives. */
  lemma PrefixStable(sha: Bytes -> Bytes, secret: Bytes, seed: Bytes, m: nat, n: nat)
    requires IsDigest(sha) && m <= n
    ensures PSha256(sha, secret, seed, m) <= PSha256(sha, secret, seed, n)
  {
    BlocksExtend(sha, secret, seed, (m + 31) / 32, (n + 31) / 32);
    hide Blocks, Hmac;
    var b, c := Blocks(sha, secret, seed, (m + 31) / 32), Blocks(sha, secret, seed, (n + 31) / 32);
    assert c[..|b|] == b;
    assert c[..n][..m] == c[..m] == b[..m];
  }

  /** Byte `j` of the output is byte `j % 32` of the HMAC under A(j / 32 + 1). */
  lemma {:induction false} ByteOf(sha: Bytes -> Bytes, secret: Bytes, seed: Bytes, n: nat, j: nat)
    requires IsDigest(sha) && j < n
    ensures PSha256(sha, secret, seed, n)[j]
         == Hmac(sha, secret, A(sha, secret, seed, j / 32 + 1) + seed)[j % 32]
  {
    BlocksExtend(sha, secret, seed, j / 32 + 1, (n + 31) / 32);
    hide Hmac;
    var b := Blocks(sha, secret, seed, j / 32 + 1);
    assert Blocks(sha, secret, seed, (n + 31) / 32)[j] == b[j];
  }

  /** The first two blocks, spelled out (section 5 of RFC 5246). */
  lemma TwoBlocks(sha: Bytes -> Bytes, secret: Bytes, seed: Bytes)
    requires IsDigest(sha)
    ensures var a1 := Hmac(sha, secret, seed);
      var a2 := Hmac(sha, secret, a1);
      && PSha256(sha, secret, seed, 32) == Hmac(sha, secret, a1 + seed)
      && PSha256(sha, secret, seed, 64) == Hmac(sha, secret, a1 + seed) + Hmac(sha, secret, a2 + seed)
  {
    hide Hmac;
    assert A(sha, secret, seed, 1) == Hmac(sha, secret, A(sha, secret, seed, 0));
    assert A(sha, secret, seed, 2) == Hmac(sha, secret, A(sha, secret, seed, 1));
    assert Blocks(sha, secret, seed, 0) == [];
    assert Blocks(sha, secret, seed, 1) == Hmac(sha, secret, A(sha, secret, seed, 1) + seed);
  }

  lemma NextPiece(sha: Bytes -> Bytes, secret: Bytes, seed: Bytes, k: nat, n: nat, chunk: Bytes, copy: nat)
    requires IsDigest(sha) && 32 * k < n && copy == Min(32, n - 32 * k)
    requires chunk == Hmac(sha, secret, A(sha, secret, seed, k + 1) + seed)
    ensures PSha256(sha, secret, seed, 32 * k) + chunk[..copy] == PSha256(sha, secret, seed, 32 * k + copy)
  {
    assert (32 * k + 31) / 32 == k && (32 * k + copy + 31) / 32 == k + 1;
    hide Hmac, A;
    var b := Blocks(sha, secret, seed, k);
    assert Blocks(sha, secret, seed, k + 1) == b + chunk;
    assert (b + chunk)[..32 * k + copy] == b + chunk[..copy];
  }

  /** A(1), from the seed. */
  method FirstA(sha: Bytes -> Bytes, secret: Bytes, seed: Bytes) returns (a: array<u8>)
    requires IsDigest(sha)
    ensures fresh(a) && HoldsA(a, 1, sha, secret, seed)
  {
    hide Hmac;
    a := new u8[32](i => 0);
    HmacVector(sha, secret, [seed], a);
    JoinOne(seed);
    assert A(sha, secret, seed, 0) == seed;
  }

  /** A(i + 1) over A(i), in the same buffer. */
  method NextA(sha: Bytes -> Bytes, secret: Bytes, ghost seed: Bytes, a: array<u8>, ghost i: nat)
    requires IsDigest(sha) && HoldsA(a, i, sha, secret, seed)
    modifies a
    ensures HoldsA(a, i + 1, sha, secret, seed)
  {
    hide Hmac;
    JoinOne(a[..]);
    HmacVector(sha, secret, [a[..]], a);
  }

  /** Appends the next block, cut to the room left in `out`. */
  method Emit(sha: Bytes -> Bytes, secret: Bytes, seed: Bytes, a: array<u8>, chunk: array<u8>,
              out: array<u8>, produced: nat, ghost k: nat) returns (produced': nat)
    requires IsDigest(sha) && chunk.Length == 32 && chunk != out && chunk != a
    requires HoldsA(a, k + 1, sha, secret, seed)
    requires produced == 32 * k < out.Length && Filled(out, produced, sha, secret, seed)
    modifies chunk, out
    ensures produced' == Min(32 * (k + 1), out.Length)
    ensures Filled(out, produced', sha, secret, seed)
  {
    hide Hmac, PSha256, A;
    JoinTwo(a[..], seed);
    HmacVector(sha, secret, [a[..], seed], chunk);
    var copy := Min(out.Length - produced, 32);
    NextPiece(sha, secret, seed, k, out.Length, chunk[..], copy);
    CopyChunk(out, produced, chunk[..], copy);
    produced' := produced + copy;
  }

  ghost predicate Filled(out: array<u8>, n: nat, sha: Bytes -> Bytes, secret: Bytes, seed: Bytes)
    requires IsDigest(sha)
    reads out
  {
    n <= out.Length && out[..n] == PSha256(sha, secret, seed, n)
  }

  ghost predicate HoldsA(a: array<u8>, i: nat, sha: Bytes -> Bytes, secret: Bytes, seed: Bytes)
    requires IsDigest(sha)
    reads a
  {
    a.Length == 32 && a[..] == A(sha, secret, seed, i)
  }

  /** The loop: A(i) is updated in place after each block. */
  method Expand(sha: Bytes -> Bytes, secret: Bytes, seed: Bytes, out: array<u8>)
    requires IsDigest(sha)
    modifies out
    ensures Filled(out, out.Length, sha, secret, seed)
  {
    hide IsDigest, Filled, HoldsA;
    FilledNone(out, sha, secret, seed);
    var a := FirstA(sha, secret, seed);
    var chunk := new u8[32];
    var produced := 0;
    ghost var k := 0;
    while produced < out.Length
      invariant produced == Min(32 * k, out.Length)
      invariant HoldsA(a, k + 1, sha, secret, seed)
      invariant Filled(out, produced, sha, secret, seed)
      decreases out.Length - produced
    {
      produced := Emit(sha, secret, seed, a, chunk, out, produced, k);
      NextA(sha, secret, seed, a, k + 1);
      k := k + 1;
    }
  }

  /** Fills `out`.  A seed longer than the 128-byte buffer is refused. */
  method TlsPrf(sha: Bytes -> Bytes, secret: Bytes, tag: Bytes, seedA: Bytes, seedB: Bytes, out: array<u8>)
    returns (ok: bool)
    requires IsDigest(sha)
    modifies out
    ensures ok <==> |tag| + |seedA| + |seedB| <= 128
    ensures out[..] == if ok then PSha256(sha, secret, tag + seedA + seedB, out.Length) else old(out[..])
  {
    if |tag| + |seedA| + |seedB| > 128 {
      return false;
    }
    hide PSha256, IsDigest;
    Expand(sha, secret, tag + seedA + seedB, out);
    assert out[..out.Length] == out[..];
    return true;
  }

  lemma JoinOne(s: Bytes)
    ensures Join([s]) == s
  {
    assert [s][..0] == [];
  }

  lemma JoinTwo(s: Bytes, t: Bytes)
    ensures Join([s, t]) == s + t
  {
    assert [s, t][..1] == [s];
    JoinOne(s);
  }

  lemma FilledNone(out: array<u8>, sha: Bytes -> Bytes, secret: Bytes, seed: Bytes)
    requires IsDigest(sha)
    ensures Filled(out, 0, sha, secret, seed)
  {
    hide Blocks;
  }

  method CopyChunk(out: array<u8>, at: nat, chunk: Bytes, copy: nat)
    requires copy <= |chunk| && at + copy <= out.Length
    modifies out
    ensures out[..at + copy] == old(out[..at]) + chunk[..copy]
  {
    forall i | 0 <= i < copy {
      out[at + i] := chunk[i];
    }
  }

  // ----- the key schedule -----

  const MASTER_SECRET: Bytes := [109, 97, 115, 116, 101, 114, 32, 115, 101, 99, 114, 101, 116]
  const EXTENDED_MASTER_SECRET: Bytes :=
    [101, 120, 116, 101, 110, 100, 101, 100, 32, 109, 97, 115, 116, 101, 114, 32, 115, 101, 99, 114, 101, 116]
  const KEY_EXPANSION: Bytes := [107, 101, 121, 32, 101, 120, 112, 97, 110, 115, 105, 111, 110]

  /** What section 6.3 of RFC 5246 cuts from the key block for an AES-128-GCM suite, in order. */
  datatype Keys = Keys(clientKey: Bytes, serverKey: Bytes, clientIv: Bytes, serverIv: Bytes)

  ghost function Master(sha: Bytes -> Bytes, shared: Bytes, extended: bool, sessionHash: Bytes,
                        clientRandom: Bytes, serverRandom: Bytes): Bytes
    requires IsDigest(sha)
  {
    if extended then PSha256(sha, shared, EXTENDED_MASTER_SECRET + sessionHash, 48)
    else PSha256(sha, shared, MASTER_SECRET + clientRandom + serverRandom, 48)
  }

  /** The labels of sections 8.1 and 6.3 of RFC 5246 and section 4 of RFC 7627. */
  lemma Labels()
    ensures MASTER_SECRET == Ascii("master secret")
    ensures EXTENDED_MASTER_SECRET == Ascii("extended master secret")
    ensures KEY_EXPANSION == Ascii("key expansion")
  {
    MasterLabel();
    ExtendedLabel();
    ExpansionLabel();
    hide *;
  }

  lemma MasterLabel()
    ensures MASTER_SECRET == Ascii("master secret")
  {
  }

  lemma ExtendedLabel()
    ensures EXTENDED_MASTER_SECRET == Ascii("extended master secret")
  {
  }

  lemma ExpansionLabel()
    ensures KEY_EXPANSION == Ascii("key expansion")
  {
  }

  /** The master secret: 48 bytes, from the two randoms with the client's first, or from the hash of the
      session. */
  lemma MasterIs(sha: Bytes -> Bytes, shared: Bytes, sessionHash: Bytes, clientRandom: Bytes, serverRandom: Bytes)
    requires IsDigest(sha)
    ensures Master(sha, shared, false, sessionHash, clientRandom, serverRandom)
         == PSha256(sha, shared, Ascii("master secret") + clientRandom + serverRandom, 48)
    ensures Master(sha, shared, true, sessionHash, clientRandom, serverRandom)
         == PSha256(sha, shared, Ascii("extended master secret") + sessionHash, 48)
  {
    Labels();
    hide PSha256;
  }

  /** None for a cipher suite without a schedule.  The key block comes from the server's random first. */
  method KeySchedule(sha: Bytes -> Bytes, shared: Bytes, extended: bool, sessionHash: Bytes,
                     clientRandom: Bytes, serverRandom: Bytes, cipher: u16) returns (keys: Option<Keys>)
    requires IsDigest(sha) && |sessionHash| == 32 && |clientRandom| == 32 && |serverRandom| == 32
    ensures keys.Some? <==> cipher == 0xc02f || cipher == 0xc02b
    ensures keys.Some? ==>
      var k := keys.value;
      && |k.clientKey| == |k.serverKey| == 16 && |k.clientIv| == |k.serverIv| == 4
      && k.clientKey + k.serverKey + k.clientIv + k.serverIv
         == PSha256(sha, Master(sha, shared, extended, sessionHash, clientRandom, serverRandom),
                    Ascii("key expansion") + serverRandom + clientRandom, 40)
  {
    Labels();
    hide PSha256, Ascii;
    var master := new u8[48](i => 0);
    var ok;
    if extended {
      ok := TlsPrf(sha, shared, EXTENDED_MASTER_SECRET, sessionHash, [], master);
      assert EXTENDED_MASTER_SECRET + sessionHash + [] == EXTENDED_MASTER_SECRET + sessionHash;
    } else {
      ok := TlsPrf(sha, shared, MASTER_SECRET, clientRandom + serverRandom, [], master);
      assert MASTER_SECRET + (clientRandom + serverRandom) + [] == MASTER_SECRET + clientRandom + serverRandom;
    }
    if cipher != 0xc02f && cipher != 0xc02b {
      return None;
    }
    var block := new u8[40](i => 0);
    ok := TlsPrf(sha, master[..], KEY_EXPANSION, serverRandom + clientRandom, [], block);
    assert KEY_EXPANSION + (serverRandom + clientRandom) + [] == KEY_EXPANSION + serverRandom + clientRandom;
    var k := Keys(block[..16], block[16..32], block[32..36], block[36..40]);
    assert k.clientKey + k.serverKey + k.clientIv + k.serverIv == block[..];
    keys := Some(k);
  }
}
