/**
 RSASSA-PKCS1-v1_5 verification with SHA-256 and exponent 65537 (sections 5.2.2, 8.2.2 and 9.2
 of RFC 8017) over the byte-array arithmetic of `BigNum`.
 */
module Rsa {
  import opened Machine
  import opened ModArith
  import opened Bits
  import opened Endian
  import opened BigNum

  const MAX_BYTES: nat := 512
  const DIGEST_SIZE: nat := 32

  const DIGEST_INFO: Bytes := [
    0x30, 0x31, 0x30, 0x0d, 0x06, 0x09, 0x60, 0x86, 0x48, 0x01,
    0x65, 0x03, 0x04, 0x02, 0x01, 0x05, 0x00, 0x04, 0x20]

  // ----- the reference -----

  /** EMSA-PKCS1-v1_5 of a SHA-256 digest in `k` bytes, defined when at least eight padding
      bytes fit. */
  function Emsa(digest: Bytes, k: nat): (em: Bytes)
    requires |digest| == DIGEST_SIZE && k >= 62
    ensures |em| == k
  {
    [0, 1] + seq(k - 54, _ => 0xff) + [0] + DIGEST_INFO + digest
  }

  /** A signature representative is accepted for a modulus of `k` bytes with value `n`. */
  predicate Accepts(signature: Bytes, digest: Bytes, n: nat, k: nat)
    requires |digest| == DIGEST_SIZE
  {
    && 62 <= k
    && BigEndian(signature) < n
    && PowMod(BigEndian(signature), 65537, n) == BigEndian(Emsa(digest, k))
  }

  // ----- what the encoding says -----

  /** Tag and contents of a DER value with a one-byte length, and what follows it (clause 8.1 of ITU-T
      X.690). */
  function ReadDer(s: Bytes): Option<(u8, Bytes, Bytes)> {
    if |s| < 2 || s[1] >= 128 || |s| < 2 + s[1] as int then None
    else Some((s[0], s[2..2 + s[1] as int], s[2 + s[1] as int..]))
  }

  /** The arcs of an object identifier after the first two, seven bits to a byte, the last byte of each
      below 128 (clause 8.19 of X.690); `high` is the value of the bytes of the current arc so far. */
  function Arcs(s: Bytes, high: nat): seq<nat> {
    if s == [] then []
    else if s[0] >= 128 then Arcs(s[1..], 128 * high + s[0] as int - 128)
    else [128 * high + s[0] as int] + Arcs(s[1..], 0)
  }

  /** The first byte holds two arcs. */
  function Identifier(s: Bytes): seq<nat>
    requires s != [] && s[0] as int >= 80
  {
    [2, s[0] as int - 80] + Arcs(s[1..], 0)
  }

  /** id-sha256 of appendix B.1 of RFC 8017. */
  const SHA256: seq<nat> := [2, 16, 840, 1, 101, 3, 4, 2, 1]

  lemma ArcsFrom(s: Bytes, i: nat, high: nat)
    requires i < |s|
    ensures Arcs(s[i..], high) == if s[i] >= 128 then Arcs(s[i + 1..], 128 * high + s[i] as int - 128)
                                  else [128 * high + s[i] as int] + Arcs(s[i + 1..], 0)
  {
    assert s[i..][1..] == s[i + 1..];
  }

  lemma OidTail(s: Bytes)
    requires |s| == 9 && s[5] == 3 && s[6] == 4 && s[7] == 2 && s[8] == 1
    ensures Arcs(s[5..], 0) == [3, 4, 2, 1]
  {
    assert s[9..] == [] && Arcs([], 0) == [];
    hide Arcs;
    ArcsFrom(s, 8, 0);
    ArcsFrom(s, 7, 0);
    ArcsFrom(s, 6, 0);
    ArcsFrom(s, 5, 0);
  }

  lemma OidHead(s: Bytes)
    requires |s| == 9 && s[1] == 0x86 && s[2] == 0x48 && s[3] == 1 && s[4] == 0x65
    ensures Arcs(s[1..], 0) == [840, 1, 101] + Arcs(s[5..], 0)
  {
    hide Arcs;
    ArcsFrom(s, 4, 0);
    ArcsFrom(s, 3, 0);
    ArcsFrom(s, 2, 6);
    ArcsFrom(s, 1, 0);
  }

  lemma OidIs(s: Bytes)
    requires |s| == 9 && s[0] == 0x60 && s[1] == 0x86 && s[2] == 0x48 && s[3] == 1 && s[4] == 0x65
    requires s[5] == 3 && s[6] == 4 && s[7] == 2 && s[8] == 1
    ensures Identifier(s) == SHA256
  {
    OidHead(s);
    OidTail(s);
    hide Arcs;
    assert SHA256 == [2, 16] + ([840, 1, 101] + [3, 4, 2, 1]);
  }

  /** Prefix and digest are a DER sequence of the algorithm identifier of SHA-256 with null parameters and
      the digest as an octet string. */
  lemma DigestInfoIs(digest: Bytes)
    requires |digest| == DIGEST_SIZE
    ensures var info := ReadDer(DIGEST_INFO + digest);
      && info.Some? && info.value.0 == 0x30 && info.value.2 == []
      && var algorithm := ReadDer(info.value.1);
      && algorithm.Some? && algorithm.value.0 == 0x30 && ReadDer(algorithm.value.2) == Some((0x04, digest, []))
      && var oid := ReadDer(algorithm.value.1);
      && oid.Some? && oid.value.0 == 0x06 && |oid.value.1| == 9 && oid.value.1[0] == 0x60
      && Identifier(oid.value.1) == SHA256 && oid.value.2 == [0x05, 0x00]
  {
    var t := DIGEST_INFO + digest;
    var u := t[2..];
    PrefixBytes(t);
    var a, o := u[2..15], u[15..];
    assert ReadDer(t) == Some((0x30, u, [])) by { assert t[2..51] == u && t[51..] == []; }
    assert ReadDer(u) == Some((0x30, a, o));
    assert ReadDer(o) == Some((0x04, digest, [])) by { assert o[2..34] == digest && o[34..] == []; }
    hide Identifier;
    OidIs(a[2..11]);
  }

  lemma PrefixBytes(t: Bytes)
    requires |t| == 51 && t[..19] == DIGEST_INFO
    ensures t[0] == 0x30 && t[1] == 49 && t[2] == 0x30 && t[3] == 13 && t[4] == 6 && t[5] == 9
    ensures t[6] == 0x60 && t[7] == 0x86 && t[8] == 0x48 && t[9] == 1 && t[10] == 0x65
    ensures t[11] == 3 && t[12] == 4 && t[13] == 2 && t[14] == 1 && t[15] == 5 && t[16] == 0 && t[17] == 4 && t[18] == 32
  {
    FirstTen(t[..10]);
    LastNine(t[10..19]);
  }

  lemma FirstTen(u: Bytes)
    requires u == DIGEST_INFO[..10]
    ensures u == [0x30, 49, 0x30, 13, 6, 9, 0x60, 0x86, 0x48, 1]
  {
  }

  lemma LastNine(u: Bytes)
    requires u == DIGEST_INFO[10..]
    ensures u == [0x65, 3, 4, 2, 1, 5, 0, 4, 32]
  {
  }

  // ----- exponentiation -----

  lemma {:induction false} LeadingZeros(z: Bytes, s: Bytes)
    requires forall i :: 0 <= i < |z| ==> z[i] == 0
    ensures BigEndian(z + s) == BigEndian(s)
  {
    hide BigEndian, Weight;
    BeConcat(z, s);
    ZeroValue(z);
  }

  method LeftPad(outLen: nat, input: Bytes) returns (r: Option<array<u8>>)
    ensures r.Some? <==> |input| <= outLen <= MAX_BYTES
    ensures r.Some? ==> fresh(r.value) && r.value.Length == outLen && Num(r.value) == BigEndian(input)
  {
    if |input| > outLen || outLen > MAX_BYTES {
      return None;
    }
    var out := new u8[outLen](_ => 0);
    var pad := outLen - |input|;
    for i := 0 to |input|
      invariant forall k :: 0 <= k < pad ==> out[k] == 0
      invariant forall k :: 0 <= k < i ==> out[pad + k] == input[k]
    {
      out[pad + i] := input[i];
    }
    assert out[..] == out[..pad] + input;
    LeadingZeros(out[..pad], input);
    return Some(out);
  }

  lemma PowOne(x: nat, n: nat)
    requires x < n
    ensures PowMod(x, 1, n) == x
  {
    assert PowMod(x, 1, n) == (PowMod(x, 0, n) * x) % n;
    ModMul(1, x, n);
    Small(x, n);
  }

  lemma PowLast(x: nat, n: nat)
    requires n > 0
    ensures PowMod(x, 65537, n) == (PowMod(x, 65536, n) * x) % n
  {
  }

  /** Sixteen squarings. */
  method SquareSixteen(result: array<u8>, mod: array<u8>, ghost x: nat)
    requires result.Length == mod.Length && result != mod
    requires Num(result) == x < Num(mod)
    modifies result
    ensures Num(result) == PowMod(x, 65536, Num(mod)) && Num(result) < Num(mod)
  {
    var scratch := new u8[mod.Length];
    ghost var n := Num(mod);
    PowOne(x, n);
    assert Pow2(0) == 1;
    hide Num, PowMod;
    for i := 0 to 16
      invariant Num(mod) == n && Num(result) < n
      invariant Num(result) == PowMod(x, Pow2(i), n)
    {
      PowModDouble(x, Pow2(i), n);
      MulMod(scratch, result, result, mod);
      CopyNum(result, scratch);
    }
    Pow2Values();
  }

  /** The e-th power of a padded signature below the modulus, for e = 65537. */
  method ModExp65537(signature: Bytes, mod: array<u8>) returns (r: Option<array<u8>>)
    ensures r.Some? <==> 0 < mod.Length <= MAX_BYTES && |signature| <= mod.Length
                         && BigEndian(signature) < Num(mod)
    ensures r.Some? ==> fresh(r.value) && r.value.Length == mod.Length
                        && Num(r.value) == PowMod(BigEndian(signature), 65537, Num(mod))
  {
    hide BigEndian, PowMod;
    if mod.Length == 0 || mod.Length > MAX_BYTES {
      return None;
    }
    var padded := LeftPad(mod.Length, signature);
    if padded.None? {
      return None;
    }
    var base := padded.value;
    assert base[0..0 + mod.Length] == base[..];
    var ge := AtLeast(base, 0, mod);
    if ge {
      return None;
    }
    var result := new u8[mod.Length];
    var out := new u8[mod.Length];
    ghost var x := BigEndian(signature);
    hide Num;
    CopyNum(result, base);
    SquareSixteen(result, mod, x);
    PowLast(x, Num(mod));
    MulMod(out, result, base, mod);
    return Some(out);
  }

  // ----- the encoded message -----

  lemma EmsaLayout(digest: Bytes, k: nat)
    requires |digest| == DIGEST_SIZE && k >= 62
    ensures var em := Emsa(digest, k);
            && em[0] == 0 && em[1] == 1
            && (forall i :: 2 <= i < k - 52 ==> em[i] == 0xff)
            && em[k - 52] == 0
            && em[k - 51..k - 32] == DIGEST_INFO
            && em[k - 32..] == digest
  {
  }

  method CheckPkcs1(em: array<u8>, digest: Bytes) returns (r: bool)
    requires |digest| == DIGEST_SIZE
    ensures r <==> em.Length >= 62 && em[..] == Emsa(digest, em.Length)
  {
    var emLen := em.Length;
    if emLen < 3 + 8 + 51 {
      return false;
    }
    EmsaLayout(digest, emLen);
    hide Emsa;
    if em[0] != 0 || em[1] != 1 {
      return false;
    }
    var psLen := emLen - 3 - 51;
    for i := 0 to psLen
      invariant forall k :: 2 <= k < 2 + i ==> em[k] == 0xff
    {
      if em[2 + i] != 0xff {
        return false;
      }
    }
    if em[2 + psLen] != 0 {
      return false;
    }
    if em[3 + psLen..3 + psLen + 19] != DIGEST_INFO {
      assert em[..][emLen - 51..emLen - 32] == em[3 + psLen..3 + psLen + 19];
      return false;
    }
    r := em[3 + psLen + 19..] == digest;
    SameParts(em[..], Emsa(digest, emLen), digest);
  }

  lemma SameParts(s: Bytes, e: Bytes, digest: Bytes)
    requires |s| == |e| >= 62
    requires s[0] == e[0] && s[1] == e[1] && s[|s| - 52] == e[|s| - 52]
    requires forall i :: 2 <= i < |s| - 52 ==> s[i] == e[i]
    requires s[|s| - 51..|s| - 32] == e[|s| - 51..|s| - 32]
    ensures s[|s| - 32..] == e[|s| - 32..] <==> s == e
  {
    var n := |s|;
    assert s == s[..n - 51] + s[n - 51..n - 32] + s[n - 32..];
    assert e == e[..n - 51] + e[n - 51..n - 32] + e[n - 32..];
  }

  // ----- certificates -----

  /** What the verifier uses of a parsed certificate. */
  datatype Certificate = Certificate(
    signatureSha256Rsa: bool,
    signatureAlgConsistent: bool,
    signatureReady: bool,
    signature: Bytes,
    tbsDigest: Bytes)

  /** Accepts exactly the signatures whose 65537th power is the encoded digest. */
  method VerifyCertSignature(cert: Certificate, modulus: array<u8>, exponent: u32) returns (ok: bool)
    requires |cert.tbsDigest| == DIGEST_SIZE
    ensures ok <==> && 0 < modulus.Length <= MAX_BYTES && exponent == 65537
                    && cert.signatureSha256Rsa && cert.signatureAlgConsistent && cert.signatureReady
                    && |cert.signature| <= modulus.Length
                    && Accepts(cert.signature, cert.tbsDigest, Num(modulus), modulus.Length)
  {
    hide BigEndian, PowMod, Emsa;
    if || modulus.Length == 0 || modulus.Length > MAX_BYTES || exponent != 65537
       || !cert.signatureSha256Rsa || !cert.signatureAlgConsistent || !cert.signatureReady
       || |cert.signature| > modulus.Length {
      return false;
    }
    var encoded := ModExp65537(cert.signature, modulus);
    if encoded.None? {
      return false;
    }
    ok := CheckPkcs1(encoded.value, cert.tbsDigest);
    if modulus.Length >= 62 && Num(encoded.value) == BigEndian(Emsa(cert.tbsDigest, modulus.Length)) {
      BeInjective(encoded.value[..], Emsa(cert.tbsDigest, modulus.Length));
    }
  }
}
