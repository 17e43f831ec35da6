/** The Internet checksum (section 1 of RFC 1071) as kernel/drivers/netstack.c computes it. */
module Checksum {
  import opened Machine
  import opened ModArith
  import opened Endian

  /** The sum of the big-endian 16-bit words, an odd last byte counting as the high half. */
  function WordSum(s: Bytes): nat {
    if s == [] then 0
    else if |s| == 1 then s[0] as int * 256
    else s[0] as int * 256 + s[1] as int + WordSum(s[2..])
  }

  /** The one's complement representative of a sum in 16 bits: zero only for zero. */
  function Fold(sum: nat): (f: nat)
    ensures f <= 0xFFFF
  {
    if sum == 0 then 0 else (sum - 1) % 0xFFFF + 1
  }

  function Checksum16(s: Bytes): (c: nat)
    ensures c <= 0xFFFF
  {
    0xFFFF - Fold(WordSum(s))
  }

  lemma {:induction false} WordSumBound(s: Bytes)
    ensures 2 * WordSum(s) <= 0xFFFF * (|s| + |s| % 2)
  {
    if |s| >= 2 {
      WordSumBound(s[2..]);
    }
  }

  lemma {:induction false} WordSumSplit(s: Bytes, i: nat)
    requires 2 * i <= |s|
    ensures WordSum(s) == WordSum(s[..2 * i]) + WordSum(s[2 * i..])
  {
    if i == 0 {
      assert s[..0] == [] && s[0..] == s;
    } else {
      WordSumSplit(s[2..], i - 1);
      assert s[..2 * i][2..] == s[2..][..2 * (i - 1)];
      assert s[2..][2 * (i - 1)..] == s[2 * i..];
    }
  }

  // ----- the sum as section 1 of RFC 1071 defines it -----

  /** An odd number of bytes is summed as if a zero byte followed. */
  lemma {:induction false} PaddingRule(s: Bytes)
    requires |s| % 2 == 1
    ensures WordSum(s) == WordSum(s + [0])
  {
    if |s| == 1 {
      assert (s + [0])[2..] == [];
    } else {
      assert (s + [0])[2..] == s[2..] + [0];
      PaddingRule(s[2..]);
    }
  }

  lemma LastWord(s: Bytes)
    requires |s| >= 2 && |s| % 2 == 0
    ensures var n, word := |s| - 2, s[|s| - 2] as int * 256 + s[|s| - 1] as int;
      && WordSum(s) == WordSum(s[..n]) + word && BigEndian(s) == 0x1_0000 * BigEndian(s[..n]) + word
  {
    var n := |s| - 2;
    WordSumSplit(s, n / 2);
    assert s[2 * (n / 2)..] == [s[n], s[n + 1]] && [s[n], s[n + 1]][2..] == [];
    assert s[..n + 1][..n] == s[..n];
  }

  /** The sum is the whole string as one big-endian number, up to multiples of 2^16 - 1: what a sum of
      16-bit words with end-around carry keeps. */
  lemma {:induction false} WordSumIsNumber(s: Bytes)
    requires |s| % 2 == 0
    ensures WordSum(s) % 0xFFFF == BigEndian(s) % 0xFFFF
  {
    if s != [] {
      var n, word := |s| - 2, s[|s| - 2] as int * 256 + s[|s| - 1] as int;
      WordSumIsNumber(s[..n]);
      LastWord(s);
      hide WordSum, BigEndian;
      AddMultiple(BigEndian(s[..n]) + word, BigEndian(s[..n]), 0xFFFF);
      ModAdd(WordSum(s[..n]), word, 0xFFFF);
      ModAdd(BigEndian(s[..n]), word, 0xFFFF);
    }
  }

  /** The example of section 3 of RFC 1071, and a single byte. */
  lemma Examples()
    ensures Checksum16([0x00, 0x01, 0xf2, 0x03, 0xf4, 0xf5, 0xf6, 0xf7]) == 0x220d
    ensures Checksum16([0x41]) == 0xBEFF
  {
    var s: Bytes := [0x00, 0x01, 0xf2, 0x03, 0xf4, 0xf5, 0xf6, 0xf7];
    assert s[2..] == [0xf2, 0x03, 0xf4, 0xf5, 0xf6, 0xf7] && s[2..][2..] == [0xf4, 0xf5, 0xf6, 0xf7];
    assert s[2..][2..][2..] == [0xf6, 0xf7] && s[2..][2..][2..][2..] == [];
    assert WordSum(s) == 0x1 + 0xf203 + 0xf4f5 + 0xf6f7;
  }

  /** Folding a carry back in does not change the representative. */
  lemma FoldCarry(sum: nat)
    ensures Fold(sum % 0x1_0000 + sum / 0x1_0000) == Fold(sum)
  {
    if sum > 0 {
      var t := sum % 0x1_0000 + sum / 0x1_0000;
      assert sum == t + 0xFFFF * (sum / 0x1_0000);
      AddMultiple(t - 1, sum / 0x1_0000, 0xFFFF);
    }
  }

  lemma FoldSmall(sum: nat)
    requires sum <= 0xFFFF
    ensures Fold(sum) == sum
  {
  }

  /** One more word in the 32-bit accumulator. */
  lemma Accumulate(sum: nat, done: nat, word: nat)
    requires sum == done % 0x1_0000_0000
    ensures (sum + word) % 0x1_0000_0000 == (done + word) % 0x1_0000_0000
  {
    AddLeft(done, word, 0x1_0000_0000);
  }

  /** The loop over pairs of bytes and the odd byte, in an accumulator that wraps at 32 bits. */
  method Accumulated(data: Bytes) returns (sum: u32)
    ensures sum as int == WordSum(data) % 0x1_0000_0000
  {
    sum := 0;
    var i := 0;
    ghost var done := 0;
    assert data[0..] == data;
    while |data| - i > 1
      invariant 0 <= i <= |data| && sum as int == done % 0x1_0000_0000
      invariant done >= 0 && done + WordSum(data[i..]) == WordSum(data)
      decreases |data| - i
    {
      assert data[i..][2..] == data[i + 2..];
      var word := data[i] as int * 256 + data[i + 1] as int;
      Accumulate(sum as int, done, word);
      sum := ((sum as int + word) % 0x1_0000_0000) as u32;
      done := done + word;
      i := i + 2;
    }
    if i < |data| {
      assert data[i..] == [data[i]];
      Accumulate(sum as int, done, data[i] as int * 256);
      sum := ((sum as int + data[i] as int * 256) % 0x1_0000_0000) as u32;
    }
  }

  /** The whole function, for every length: the checksum of the word sum as 32 bits hold it. */
  method Compute(data: Bytes) returns (c: u16)
    ensures c as int == 0xFFFF - Fold(WordSum(data) % 0x1_0000_0000)
    ensures WordSum(data) < 0x1_0000_0000 ==> c as int == Checksum16(data)
    ensures |data| <= 131074 ==> c as int == Checksum16(data)
  {
    WordSumBound(data);
    var sum := Accumulated(data);
    ghost var total := sum as int;
    hide WordSum, Fold;
    while sum / 0x1_0000 != 0
      invariant Fold(sum as int) == Fold(total)
      decreases sum
    {
      FoldCarry(sum as int);
      sum := sum % 0x1_0000 + sum / 0x1_0000;
    }
    FoldSmall(sum as int);
    c := 0xFFFF - sum as u16;
    if WordSum(data) < 0x1_0000_0000 {
      Small(WordSum(data), 0x1_0000_0000);
    }
  }

  /** Each carry out of the 32 bits loses one.  The result is the checksum if and only if the number
      of such carries is a multiple of 65535 and the wrapped sum is zero only for a zero sum. */
  lemma RightIff(sum: nat)
    ensures Fold(sum % 0x1_0000_0000) == Fold(sum)
       <==> (sum / 0x1_0000_0000) % 0xFFFF == 0 && (sum % 0x1_0000_0000 == 0 ==> sum == 0)
  {
    var k, r := sum / 0x1_0000_0000, sum % 0x1_0000_0000;
    if r > 0 {
      var q := k / 0xFFFF;
      assert sum - 1 == (r - 1 + k % 0xFFFF) + (65537 * k + q) * 0xFFFF;
      AddMultiple(r - 1 + k % 0xFFFF, 65537 * k + q, 0xFFFF);
      Shifted(r - 1, k % 0xFFFF);
    }
  }

  lemma Shifted(x: nat, d: nat)
    requires d < 0xFFFF
    ensures (x + d) % 0xFFFF == x % 0xFFFF <==> d == 0
  {
  }

  lemma {:induction false} OnesSum(s: Bytes)
    requires |s| % 2 == 0 && forall i :: 0 <= i < |s| ==> s[i] == 0xFF
    ensures WordSum(s) == 0xFFFF * (|s| / 2)
  {
    if s != [] {
      OnesSum(s[2..]);
    }
  }

  /** 131076 bytes of ones, the shortest string with a carry: its checksum comes out wrong. */
  lemma FirstWrap(s: Bytes)
    requires |s| == 131076 && forall i :: 0 <= i < |s| ==> s[i] == 0xFF
    ensures 0xFFFF - Fold(WordSum(s) % 0x1_0000_0000) != Checksum16(s)
  {
    hide WordSum, Fold;
    OnesSum(s);
    ModUnique(0xFFFF * 65538, 0x1_0000_0000, 1, 65534);
    RightIff(WordSum(s));
  }

  // ----- verification at the receiver -----

  function Insert(s: Bytes, i: nat, c: nat): Bytes
    requires 2 * i + 2 <= |s| && c <= 0xFFFF
  {
    s[2 * i := (c / 256) as u8][2 * i + 1 := (c % 256) as u8]
  }

  lemma {:induction false} InsertSum(s: Bytes, i: nat, c: nat)
    requires 2 * i + 2 <= |s| && c <= 0xFFFF && s[2 * i] == 0 && s[2 * i + 1] == 0
    ensures WordSum(Insert(s, i, c)) == WordSum(s) + c
  {
    var s' := Insert(s, i, c);
    if i == 0 {
      assert s'[2..] == s[2..];
    } else {
      InsertSum(s[2..], i - 1, c);
      assert s'[2..] == Insert(s[2..], i - 1, c);
    }
  }

  /** A sum that is a positive multiple of 2^16 - 1 verifies, and nothing else does. */
  lemma VerifiesIff(s: Bytes)
    ensures Checksum16(s) == 0 <==> WordSum(s) > 0 && WordSum(s) % 0xFFFF == 0
  {
    var n := WordSum(s);
    if n > 0 {
      assert (n - 1) % 0xFFFF == 0xFFFE <==> n % 0xFFFF == 0;
    }
  }

  lemma ComplementSum(n: nat)
    ensures n + (0xFFFF - Fold(n)) > 0 && (n + (0xFFFF - Fold(n))) % 0xFFFF == 0
  {
    if n > 0 {
      var q, r := (n - 1) / 0xFFFF, (n - 1) % 0xFFFF;
      assert n + (0xFFFF - (r + 1)) == (q + 1) * 0xFFFF;
      ModUnique(n + (0xFFFF - Fold(n)), 0xFFFF, q + 1, 0);
    }
  }

  /** Putting the checksum of a string into its zeroed field makes the string verify to zero. */
  lemma InsertVerifies(s: Bytes, i: nat)
    requires 2 * i + 2 <= |s| && s[2 * i] == 0 && s[2 * i + 1] == 0
    ensures Checksum16(Insert(s, i, Checksum16(s))) == 0
  {
    InsertSum(s, i, Checksum16(s));
    VerifiesIff(Insert(s, i, Checksum16(s)));
    hide WordSum, Insert;
    ComplementSum(WordSum(s));
  }
}
