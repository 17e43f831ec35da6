/**
 Big-endian byte-array arithmetic of the RSA verifier in kernel/drivers/netstack.c: compare,
 subtract, modular addition and modular multiplication, each allowed to write its result over
 an operand.
 */
module BigNum {
  import opened Machine
  import opened ModArith
  import opened Bits
  import opened Endian

  /** The number a byte array holds. */
  ghost function Num(a: array<u8>): nat
    reads a
  {
    BigEndian(a[..])
  }

  /** The weight of the byte `k` places from the end. */
  function Weight(k: nat): (w: nat)
    ensures w >= 1
  {
    Pow2(8 * k)
  }

  lemma WeightStep(k: nat)
    ensures Weight(0) == 1 && Weight(k + 1) == 256 * Weight(k)
  {
    BytePower(k);
  }

  lemma {:induction false} BeConcat(a: Bytes, b: Bytes)
    ensures BigEndian(a + b) == BigEndian(a) * Weight(|b|) + BigEndian(b)
    decreases |b|
  {
    hide Weight;
    WeightStep(0);
    if b == [] {
      assert a + b == a;
    } else {
      var b' := b[..|b| - 1];
      assert (a + b)[..|a + b| - 1] == a + b';
      BeConcat(a, b');
      WeightStep(|b'|);
      Regroup256(BigEndian(a), Weight(|b'|));
    }
  }

  lemma Regroup256(x: int, w: int)
    ensures 256 * (x * w) == x * (256 * w)
  {
  }

  lemma {:induction false} BeBound(s: Bytes)
    ensures BigEndian(s) < Weight(|s|)
  {
    hide Weight;
    if s == [] {
      WeightStep(0);
    } else {
      BeBound(s[..|s| - 1]);
      WeightStep(|s| - 1);
    }
  }

  lemma {:induction false} BeInjective(a: Bytes, b: Bytes)
    requires |a| == |b| && BigEndian(a) == BigEndian(b)
    ensures a == b
  {
    if a != [] {
      var n := |a| - 1;
      BeInjective(a[..n], b[..n]);
      assert a == a[..n] + [a[n]] && b == b[..n] + [b[n]];
    }
  }

  lemma BeByte(b: u8)
    ensures BigEndian([b]) == b as int
  {
    assert [b][..0] == [];
  }

  /** Extending a suffix one byte to the left. */
  lemma BePush(s: Bytes, i: nat)
    requires i < |s|
    ensures BigEndian(s[i..]) == s[i] as int * Weight(|s| - 1 - i) + BigEndian(s[i + 1..])
  {
    hide Weight, BigEndian;
    assert s[i..] == [s[i]] + s[i + 1..];
    BeConcat([s[i]], s[i + 1..]);
    BeByte(s[i]);
  }

  // ----- comparison -----

  lemma LexLess(x: Bytes, y: Bytes, i: nat)
    requires i < |x| == |y| && x[..i] == y[..i] && x[i] < y[i]
    ensures BigEndian(x) < BigEndian(y)
  {
    hide Weight, BigEndian;
    assert x == x[..i] + x[i..] && y == y[..i] + y[i..];
    BeConcat(x[..i], x[i..]);
    BeConcat(y[..i], y[i..]);
    BePush(x, i);
    BePush(y, i);
    BeBound(x[i + 1..]);
    MulBound(1, Weight(|x| - 1 - i), y[i] as int - x[i] as int, Weight(|x| - 1 - i));
    Distribute(y[i] as int, x[i] as int, Weight(|x| - 1 - i));
  }

  /** Compares `len` bytes of `a` starting at `off` with `b`. */
  method AtLeast(a: array<u8>, off: nat, b: array<u8>) returns (r: bool)
    requires off + b.Length <= a.Length
    ensures r == (BigEndian(a[off..off + b.Length]) >= BigEndian(b[..]))
  {
    hide BigEndian;
    ghost var x, y := a[off..off + b.Length], b[..];
    for i := 0 to b.Length
      invariant x[..i] == y[..i]
    {
      if a[off + i] > b[i] {
        LexLess(y, x, i);
        return true;
      }
      if a[off + i] < b[i] {
        LexLess(x, y, i);
        return false;
      }
    }
    assert x == x[..b.Length] && y == y[..b.Length];
    return true;
  }

  // ----- subtraction -----

  lemma SubStep(w: int, x: int, y: int, borrow: int, d: int, borrow': int, xs: int, ys: int, ds: int)
    requires ds == xs - ys + borrow * w
    requires d == x - y - borrow + 256 * borrow'
    ensures d * w + ds == (x * w + xs) - (y * w + ys) + borrow' * (256 * w)
  {
    Distribute(x, y, w);
    Distribute(x - y, borrow, w);
    Distribute(x - y - borrow, 256 * borrow', w);
    Regroup256(borrow', w);
    assert (256 * borrow') * w == borrow' * (256 * w);
  }

  /** From byte `i` on, `s` is `x - y`, short of a borrow out of byte `i`. */
  ghost predicate Difference(s: Bytes, x: Bytes, y: Bytes, i: nat, borrow: nat) {
    && |s| == |x| == |y| && i <= |s|
    && BigEndian(s[i..]) == BigEndian(x[i..]) - BigEndian(y[i..]) + borrow * Weight(|s| - i)
  }

  lemma DifferenceStart(s: Bytes, x: Bytes, y: Bytes)
    requires |s| == |x| == |y|
    ensures Difference(s, x, y, |s|, 0)
  {
  }

  lemma DifferenceStep(s: Bytes, s': Bytes, x: Bytes, y: Bytes, i: nat, borrow: nat, borrow': nat)
    requires i < |s| == |s'| && Difference(s, x, y, i + 1, borrow)
    requires s'[i + 1..] == s[i + 1..]
    requires s'[i] as int == x[i] as int - y[i] as int - borrow + 256 * borrow'
    ensures Difference(s', x, y, i, borrow')
  {
    hide BigEndian, Weight;
    BePush(s', i);
    BePush(x, i);
    BePush(y, i);
    WeightStep(|s| - 1 - i);
    SubStep(Weight(|s| - 1 - i), x[i] as int, y[i] as int, borrow, s'[i] as int, borrow',
            BigEndian(x[i + 1..]), BigEndian(y[i + 1..]), BigEndian(s[i + 1..]));
  }

  lemma DifferenceEnd(s: Bytes, x: Bytes, y: Bytes, borrow: nat)
    requires Difference(s, x, y, 0, borrow)
    ensures BigEndian(s) == BigEndian(x) - BigEndian(y) + borrow * Weight(|s|)
  {
    assert s[0..] == s && x[0..] == x && y[0..] == y;
  }

  /** Schoolbook subtraction of `b` from the bytes of `a` starting at `off`; `borrow` is the
      borrow out of the top byte. */
  method SubtractAt(a: array<u8>, off: nat, b: array<u8>) returns (borrow: u16)
    requires off + b.Length == a.Length && a != b
    modifies a
    ensures borrow <= 1
    ensures BigEndian(a[off..]) == old(BigEndian(a[off..])) - BigEndian(b[..])
                                   + borrow as int * Weight(b.Length)
    ensures a[..off] == old(a[..off])
  {
    hide BigEndian, Weight, Difference;
    ghost var x, y := a[off..], b[..];
    borrow := 0;
    DifferenceStart(x, x, y);
    for i := b.Length downto 0
      invariant borrow <= 1
      invariant forall k :: 0 <= k < i ==> a[off + k] == x[k]
      invariant forall k :: 0 <= k < off ==> a[k] == old(a[k])
      invariant Difference(a[off..], x, y, i, borrow as int)
    {
      ghost var prev, borrow0 := a[off..], borrow;
      var av := a[off + i] as u16;
      var bv := b[i] as u16 + borrow;
      if av < bv {
        a[off + i] := (av + 256 - bv) as u8;
        borrow := 1;
      } else {
        a[off + i] := (av - bv) as u8;
        borrow := 0;
      }
      DifferenceStep(prev, a[off..], x, y, i, borrow0 as int, borrow as int);
    }
    DifferenceEnd(a[off..], x, y, borrow as int);
  }

  // ----- modular addition -----

  lemma AddStep(w: int, x: int, y: int, carry: int, t: int, carry': int, xs: int, ys: int, ts: int)
    requires ts + carry * w == xs + ys
    requires t + 256 * carry' == x + y + carry
    ensures (t * w + ts) + carry' * (256 * w) == (x * w + xs) + (y * w + ys)
  {
    Distribute(t, 256 * carry', w);
    Distribute(x, y, w);
    Distribute(x + y, carry, w);
    assert (256 * carry') * w == carry' * (256 * w);
  }

  /** From byte `i` on, `s` and the carry out of byte `i` are `x + y`. */
  ghost predicate Sum(s: Bytes, x: Bytes, y: Bytes, i: nat, carry: nat) {
    && |s| == |x| == |y| && i <= |s|
    && BigEndian(s[i..]) + carry * Weight(|s| - i) == BigEndian(x[i..]) + BigEndian(y[i..])
  }

  lemma SumStart(s: Bytes, x: Bytes, y: Bytes)
    requires |s| == |x| == |y|
    ensures Sum(s, x, y, |s|, 0)
  {
  }

  lemma SumStep(s: Bytes, s': Bytes, x: Bytes, y: Bytes, i: nat, carry: nat, carry': nat)
    requires i < |s| == |s'| && Sum(s, x, y, i + 1, carry)
    requires s'[i + 1..] == s[i + 1..]
    requires s'[i] as int + 256 * carry' == x[i] as int + y[i] as int + carry
    ensures Sum(s', x, y, i, carry')
  {
    hide BigEndian, Weight;
    BePush(s', i);
    BePush(x, i);
    BePush(y, i);
    WeightStep(|s| - 1 - i);
    AddStep(Weight(|s| - 1 - i), x[i] as int, y[i] as int, carry, s'[i] as int, carry',
            BigEndian(x[i + 1..]), BigEndian(y[i + 1..]), BigEndian(s[i + 1..]));
  }

  /** The sum of two numbers of `n` bytes, in `n + 1` bytes. */
  method AddWide(a: array<u8>, b: array<u8>) returns (tmp: array<u8>)
    requires a.Length == b.Length
    ensures fresh(tmp) && tmp.Length == a.Length + 1
    ensures BigEndian(tmp[..]) == BigEndian(a[..]) + BigEndian(b[..])
  {
    hide BigEndian, Weight, Sum;
    tmp := new u8[a.Length + 1](_ => 0);
    ghost var x, y := a[..], b[..];
    SumStart(tmp[1..], x, y);
    var carry: u16 := 0;
    for i := a.Length downto 0
      invariant carry <= 1
      invariant Sum(tmp[1..], x, y, i, carry as int)
    {
      ghost var prev, carry0 := tmp[1..], carry;
      var sum := a[i] as u16 + b[i] as u16 + carry;
      tmp[i + 1] := (sum % 256) as u8;
      carry := sum / 256;
      SumStep(prev, tmp[1..], x, y, i, carry0 as int, carry as int);
    }
    tmp[0] := carry as u8;
    SumEnd(tmp[..], x, y);
  }

  lemma SumEnd(t: Bytes, x: Bytes, y: Bytes)
    requires |t| >= 1 && Sum(t[1..], x, y, 0, t[0] as int)
    ensures BigEndian(t) == BigEndian(x) + BigEndian(y)
  {
    hide BigEndian, Weight, Sum;
    TopByte(t);
    SumWhole(t[1..], x, y, t[0] as int);
  }

  lemma SumWhole(s: Bytes, x: Bytes, y: Bytes, carry: nat)
    requires Sum(s, x, y, 0, carry)
    ensures BigEndian(s) + carry * Weight(|s|) == BigEndian(x) + BigEndian(y)
    ensures |s| == |x| == |y|
  {
    assert s[0..] == s && x[0..] == x && y[0..] == y;
  }

  lemma TopByte(t: Bytes)
    requires |t| >= 1
    ensures BigEndian(t) == t[0] as int * Weight(|t| - 1) + BigEndian(t[1..])
    ensures BigEndian(t[1..]) < Weight(|t| - 1)
  {
    hide BigEndian, Weight;
    assert t == [t[0]] + t[1..];
    BeConcat([t[0]], t[1..]);
    BeByte(t[0]);
    BeBound(t[1..]);
  }

  /** One conditional subtraction brings a sum of two residues back below the modulus. */
  lemma ReduceOnce(sum: int, n: int, w: int, top: int, tail: int, borrow: int, rest: int)
    requires 0 <= sum < 2 * n && 0 < n < w
    requires sum == top * w + tail && 0 <= tail < w && 0 <= top
    ensures top <= 1
    ensures (top != 0 || tail >= n) == (sum >= n)
    ensures sum >= n && 0 <= borrow <= 1 && 0 <= rest < w && rest == tail - n + borrow * w
            ==> borrow == top && rest == sum - n
  {
    if top >= 2 {
      MulBound(2, w, top, w);
    }
    assert top == 0 || top == 1;
    assert borrow == 0 || borrow == 1 || borrow < 0 || borrow > 1;
  }

  lemma ResidueOfSum(sum: int, n: int)
    requires 0 <= sum < 2 * n
    ensures sum % n == if sum >= n then sum - n else sum
  {
    if sum >= n {
      ModUnique(sum, n, 1, sum - n);
    } else {
      ModUnique(sum, n, 0, sum);
    }
  }

  method CopyInto(out: array<u8>, src: array<u8>, off: nat)
    requires off + out.Length == src.Length && out != src
    modifies out
    ensures out[..] == src[off..]
  {
    for i := 0 to out.Length
      invariant forall k :: 0 <= k < i ==> out[k] == src[off + k]
    {
      out[i] := src[off + i];
    }
  }

  /** Subtracts the modulus from an (n + 1)-byte sum of two residues if it fits. */
  method ReduceSum(tmp: array<u8>, mod: array<u8>)
    requires tmp.Length == mod.Length + 1
    requires BigEndian(tmp[..]) < 2 * BigEndian(mod[..])
    modifies tmp
    ensures BigEndian(tmp[1..]) == old(BigEndian(tmp[..])) % BigEndian(mod[..])
  {
    hide BigEndian, Weight;
    ghost var sum, n, w := BigEndian(tmp[..]), BigEndian(mod[..]), Weight(mod.Length);
    ghost var top, tail := tmp[0] as int, BigEndian(tmp[1..]);
    TopByte(tmp[..]);
    assert tmp[..][1..] == tmp[1..];
    BeBound(mod[..]);
    ResidueOfSum(sum, n);
    ReduceOnce(sum, n, w, top, tail, 0, 0);
    var ge := tmp[0] != 0;
    if !ge {
      ge := AtLeast(tmp, 1, mod);
      assert tmp[1..1 + mod.Length] == tmp[1..];
    }
    if ge {
      var borrow := SubtractAt(tmp, 1, mod);
      BeBound(tmp[1..]);
      ReduceOnce(sum, n, w, top, tail, borrow as int, BigEndian(tmp[1..]));
      if borrow != 0 {
        assert tmp[..1][0] == tmp[0];
        tmp[0] := tmp[0] - 1;
      }
    }
  }

  /** `out` may be `a`, `b` or both. */
  method AddMod(out: array<u8>, a: array<u8>, b: array<u8>, mod: array<u8>)
    requires out.Length == a.Length == b.Length == mod.Length && out != mod
    requires Num(a) < Num(mod) && Num(b) < Num(mod)
    modifies out
    ensures Num(out) == (old(Num(a)) + old(Num(b))) % Num(mod)
  {
    hide BigEndian;
    var tmp := AddWide(a, b);
    ReduceSum(tmp, mod);
    CopyInto(out, tmp, 1);
  }

  // ----- modular multiplication -----

  /** Byte `i` of a big-endian number is a field of its value. */
  lemma BeByteOf(s: Bytes, i: nat)
    requires i < |s|
    ensures (BigEndian(s) / Weight(|s| - 1 - i)) % 256 == s[i] as int
  {
    hide BigEndian, Weight;
    var a, b := s[..i], s[i..];
    assert s == a + b;
    BeConcat(a, b);
    BePush(s, i);
    BeBound(s[i + 1..]);
    WeightStep(|s| - 1 - i);
    var w := Weight(|s| - 1 - i);
    FactorWeight(BigEndian(a), s[i] as int, w, BigEndian(s[i + 1..]));
    ByteField(BigEndian(s), BigEndian(s[i + 1..]), w, s[i] as int, BigEndian(a));
  }

  lemma FactorWeight(x: int, b: int, w: int, rest: int)
    ensures x * (256 * w) + b * w + rest == rest + w * (b + 256 * x)
  {
    Distribute(b, 256 * x, w);
    assert (256 * x) * w == x * (256 * w);
  }

  /** Testing bit `bit` of byte `i` tests a bit of the whole number. */
  lemma BeBitOf(s: Bytes, i: nat, bit: nat)
    requires i < |s| && bit < 8
    ensures (s[i] as int / Pow2(bit)) % 2 == (BigEndian(s) / Pow2(8 * (|s| - 1 - i) + bit)) % 2
  {
    var k := 8 * (|s| - 1 - i);
    hide BigEndian, Pow2;
    BeByteOf(s, i);
    Pow2Add(k, bit);
    DivDiv(BigEndian(s), Pow2(k), Pow2(bit));
    Pow2Values();
    LowBits(BigEndian(s) / Pow2(k), 8, bit);
  }

  /** Taking one more low bit. */
  lemma LowBitStep(b: nat, d: nat)
    requires d > 0
    ensures b % (2 * d) == b % d + (b / d) % 2 * d
  {
    var q, r := b / d, b % d;
    var bit := q % 2;
    assert q == 2 * (q / 2) + bit;
    assert b == (q / 2) * (2 * d) + (bit * d + r) by {
      Distribute(2 * (q / 2), bit, d);
      assert (2 * (q / 2)) * d == (q / 2) * (2 * d);
    }
    ModUnique(b, 2 * d, q / 2, bit * d + r);
  }

  /** After `j` bits of shift-and-add: the product with the low `j` bits of `b`, and `a`
      shifted left by `j`, both reduced. */
  ghost predicate Partial(result: int, temp: int, a: nat, b: nat, j: nat, n: nat) {
    && n > 0
    && result == (a * (b % Pow2(j))) % n
    && temp == (a * Pow2(j)) % n
  }

  lemma PartialStart(a: nat, b: nat, n: nat)
    requires n > 0
    ensures Partial(0, a % n, a, b, 0, n)
  {
    assert Pow2(0) == 1;
    assert b % 1 == 0 && a * 0 == 0 && a * 1 == a;
  }

  lemma AddResidues(a: int, x: int, y: int, n: int)
    requires n > 0
    ensures ((a * x) % n + (a * y) % n) % n == (a * (x + y)) % n
  {
    ModAdd(a * x, a * y, n);
    Distribute(x, y, a);
    assert a * (x + y) == a * x + a * y;
  }

  lemma PartialStep(result: int, temp: int, a: nat, b: nat, j: nat, n: nat)
    requires Partial(result, temp, a, b, j, n)
    ensures Partial(if (b / Pow2(j)) % 2 == 1 then (result + temp) % n else result,
                    (temp + temp) % n, a, b, j + 1, n)
  {
    var d := Pow2(j);
    assert Pow2(j + 1) == d + d;
    hide Pow2;
    LowBitStep(b, d);
    AddResidues(a, b % d, d, n);
    AddResidues(a, d, d, n);
    var bit := (b / d) % 2;
    TimesBit(bit, d);
  }

  lemma TimesBit(bit: int, d: int)
    ensures bit == 0 ==> bit * d == 0
    ensures bit == 1 ==> bit * d == d
  {
  }

  lemma PartialEnd(result: int, temp: int, a: nat, b: nat, j: nat, n: nat)
    requires Partial(result, temp, a, b, j, n) && b < Pow2(j)
    ensures result == (a * b) % n
  {
    hide Pow2;
    Small(b, Pow2(j));
  }

  lemma PartialBounds(result: int, temp: int, a: nat, b: nat, j: nat, n: nat)
    requires Partial(result, temp, a, b, j, n)
    ensures 0 <= result < n && 0 <= temp < n
  {
  }

  /** Brings a number below twice the modulus under the modulus. */
  method ReduceInPlace(temp: array<u8>, mod: array<u8>)
    requires temp.Length == mod.Length && temp != mod
    requires Num(temp) < 2 * Num(mod)
    modifies temp
    ensures Num(temp) == old(Num(temp)) % Num(mod)
  {
    hide BigEndian, Weight;
    ghost var x, n := Num(temp), Num(mod);
    ResidueOfSum(x, n);
    assert temp[0..0 + mod.Length] == temp[..];
    var ge := AtLeast(temp, 0, mod);
    if ge {
      BeBound(temp[..]);
      assert temp[0..] == temp[..];
      var borrow := SubtractAt(temp, 0, mod);
      assert temp[0..] == temp[..];
      BeBound(temp[..]);
      NoBorrow(x, n, borrow as int, Weight(mod.Length), Num(temp));
    }
  }

  lemma NoBorrow(x: int, n: int, borrow: int, w: int, rest: int)
    requires n <= x < w && 0 <= borrow <= 1 && 0 <= rest < w && n > 0
    requires rest == x - n + borrow * w
    ensures rest == x - n
  {
    assert borrow == 0 || borrow == 1;
  }

  /** One bit of shift-and-add. */
  method MulBit(result: array<u8>, temp: array<u8>, mod: array<u8>, isSet: bool,
                ghost a: nat, ghost b: nat, ghost j: nat)
    requires result.Length == temp.Length == mod.Length
    requires result != temp && result != mod && temp != mod
    requires Partial(Num(result), Num(temp), a, b, j, Num(mod))
    requires isSet == ((b / Pow2(j)) % 2 == 1)
    modifies result, temp
    ensures Partial(Num(result), Num(temp), a, b, j + 1, Num(mod))
  {
    hide Num, Partial, Pow2;
    PartialStep(Num(result), Num(temp), a, b, j, Num(mod));
    PartialBounds(Num(result), Num(temp), a, b, j, Num(mod));
    if isSet {
      AddMod(result, result, temp, mod);
    }
    AddMod(temp, temp, temp, mod);
  }

  /** The eight bits of byte `i` of `b`. */
  method MulByte(result: array<u8>, temp: array<u8>, mod: array<u8>, b: array<u8>, i: nat, ghost a: nat)
    requires result.Length == temp.Length == mod.Length == b.Length && i < b.Length
    requires result != temp && result != mod && temp != mod && b != result && b != temp
    requires Partial(Num(result), Num(temp), a, Num(b), 8 * (b.Length - 1 - i), Num(mod))
    modifies result, temp
    ensures Partial(Num(result), Num(temp), a, Num(b), 8 * (b.Length - i), Num(mod))
  {
    ghost var j := 8 * (b.Length - 1 - i);
    ghost var y, n := Num(b), Num(mod);
    var byte := b[i];
    ghost var bs := b[..];
    assert BigEndian(bs) == y && bs[i] == byte;
    hide Num, Partial, Pow2, BigEndian;
    for bit := 0 to 8
      invariant Num(b) == y && Num(mod) == n
      invariant Partial(Num(result), Num(temp), a, y, j + bit, n)
    {
      BeBitOf(bs, i, bit);
      MulBit(result, temp, mod, (byte as int / Pow2(bit)) % 2 == 1, a, y, j + bit);
    }
  }

  /** Multiplication by shift and add over the bits of `b`, from the last byte up. */
  method MulMod(out: array<u8>, a: array<u8>, b: array<u8>, mod: array<u8>)
    requires out.Length == a.Length == b.Length == mod.Length && out != mod
    requires Num(a) < 2 * Num(mod)
    modifies out
    ensures Num(out) == (old(Num(a)) * old(Num(b))) % Num(mod)
  {
    ghost var x, y, n := Num(a), Num(b), Num(mod);
    var result, temp := MulStart(a, mod);
    assert y < Pow2(8 * b.Length) by { BeBound(b[..]); }
    PartialStart(x, y, n);
    hide Num, Partial, Pow2;
    for i := b.Length downto 0
      invariant Num(b) == y && Num(mod) == n
      invariant Partial(Num(result), Num(temp), x, y, 8 * (b.Length - i), n)
    {
      MulByte(result, temp, mod, b, i, x);
    }
    PartialEnd(Num(result), Num(temp), x, y, 8 * b.Length, n);
    CopyNum(out, result);
  }

  method MulStart(a: array<u8>, mod: array<u8>) returns (result: array<u8>, temp: array<u8>)
    requires a.Length == mod.Length && Num(a) < 2 * Num(mod)
    ensures fresh(result) && fresh(temp) && result != temp && result.Length == temp.Length == a.Length
    ensures Num(result) == 0 && Num(temp) == Num(a) % Num(mod)
  {
    result := new u8[a.Length](_ => 0);
    temp := new u8[a.Length];
    ZeroValue(result[..]);
    hide BigEndian;
    CopyNum(temp, a);
    ReduceInPlace(temp, mod);
  }

  method CopyNum(out: array<u8>, src: array<u8>)
    requires out.Length == src.Length && out != src
    modifies out
    ensures Num(out) == Num(src)
  {
    hide BigEndian;
    CopyInto(out, src, 0);
    assert src[0..] == src[..];
  }

  lemma {:induction false} ZeroValue(s: Bytes)
    requires forall i :: 0 <= i < |s| ==> s[i] == 0
    ensures BigEndian(s) == 0
  {
    if s != [] {
      ZeroValue(s[..|s| - 1]);
    }
  }
}
