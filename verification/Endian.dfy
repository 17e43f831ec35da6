/** Byte strings as numbers, in both byte orders. */
module Endian {
  import opened Machine
  import opened ModArith
  import opened Bits

  /** Value of a byte string, least significant byte first. */
  function LittleEndian(s: Bytes): nat {
    if s == [] then 0 else s[0] as int + 256 * LittleEndian(s[1..])
  }

  /** Value of a byte string, most significant byte first. */
  function BigEndian(s: Bytes): nat {
    if s == [] then 0 else 256 * BigEndian(s[..|s| - 1]) + s[|s| - 1] as int
  }

  lemma BytePower(n: nat)
    ensures Pow2(8 * (n + 1)) == 256 * Pow2(8 * n)
  {
    Pow2Values();
    Pow2Add(8, 8 * n);
  }

  lemma {:induction false} ConcatValue(a: Bytes, b: Bytes)
    ensures LittleEndian(a + b) == LittleEndian(a) + Pow2(8 * |a|) * LittleEndian(b)
  {
    hide Pow2;
    if a == [] {
      assert a + b == b;
      Pow2Zero();
    } else {
      ConcatValue(a[1..], b);
      assert (a + b)[1..] == a[1..] + b;
      BytePower(|a| - 1);
      Scale(256, Pow2(8 * (|a| - 1)), LittleEndian(b));
    }
  }

  lemma Pow2Zero()
    ensures Pow2(0) == 1
  {
  }

  lemma Scale(c: int, p: int, x: int)
    ensures (c * p) * x == c * (p * x)
  {
  }

  lemma {:induction false} ValueBound(s: Bytes)
    ensures 0 <= LittleEndian(s) < Pow2(8 * |s|)
  {
    hide Pow2;
    if s == [] {
      Pow2Zero();
    } else {
      ValueBound(s[1..]);
      BytePower(|s| - 1);
    }
  }

  lemma {:induction false} WordBound(s: Bytes)
    requires |s| <= 8
    ensures 0 <= LittleEndian(s) < 0x1_0000_0000_0000_0000
  {
    hide Pow2;
    ValueBound(s);
    Pow2Values();
    Pow2Grows(8 * |s|, 64);
  }

  lemma Pow2Grows(a: nat, b: nat)
    requires a <= b
    ensures Pow2(a) <= Pow2(b)
  {
    Pow2Add(a, b - a);
    MulBound(1, Pow2(a), Pow2(b - a), Pow2(a));
  }

  /** Byte strings of one length are determined by their value. */
  lemma {:induction false} ValueInjective(a: Bytes, b: Bytes)
    requires |a| == |b| && LittleEndian(a) == LittleEndian(b)
    ensures a == b
  {
    if a != [] {
      ValueInjective(a[1..], b[1..]);
      assert a == [a[0]] + a[1..] && b == [b[0]] + b[1..];
    }
  }

  lemma LowBits(x: nat, d: nat, t: nat)
    requires t < d
    ensures (x / Pow2(t)) % 2 == ((x % Pow2(d)) / Pow2(t)) % 2
  {
    hide Pow2;
    Pow2Add(t, d - t);
    Pow2Add(1, d - t - 1);
    Pow2One();
    FieldOfWord(x, Pow2(t), 2, Pow2(d - t - 1));
  }

  lemma Pow2One()
    ensures Pow2(1) == 2
  {
  }

  lemma ByteField(x: int, a: int, d: int, b: int, c: int)
    requires 0 <= a < d && 0 <= b < 256 && x == a + d * (b + 256 * c)
    ensures (x / d) % 256 == b
  {
    ModUnique(x, d, b + 256 * c, a);
    ModUnique(b + 256 * c, 256, c, b);
  }

  /** The `k` low bytes of `n`, least significant first. */
  function LeBytes(n: nat, k: nat): (s: Bytes)
    ensures |s| == k
  {
    if k == 0 then [] else [(n % 256) as u8] + LeBytes(n / 256, k - 1)
  }

  lemma {:induction false} LeBytesValue(n: nat, k: nat)
    requires n < Pow2(8 * k)
    ensures LittleEndian(LeBytes(n, k)) == n
  {
    hide Pow2;
    if k == 0 {
      Pow2Zero();
    } else {
      BytePower(k - 1);
      LeBytesValue(n / 256, k - 1);
      assert LeBytes(n, k)[1..] == LeBytes(n / 256, k - 1);
    }
  }

  lemma ValueLeBytes(s: Bytes)
    ensures LeBytes(LittleEndian(s), |s|) == s
  {
    hide Pow2;
    ValueBound(s);
    LeBytesValue(LittleEndian(s), |s|);
    ValueInjective(LeBytes(LittleEndian(s), |s|), s);
  }
}
