/**
 X25519 on limb vectors and byte strings against the ladder of `MontgomeryCurve`.
 */
module X25519 {
  import opened Machine
  import opened ModArith
  import opened Bits
  import opened Endian
  import opened Field51
  import opened Field51Codec
  import opened MontgomeryCurve

  // ----- the scalar and the point: section 5 of RFC 7748 -----

  function Clamp(s: Bytes): (c: Bytes)
    requires |s| == 32
    ensures |c| == 32
  {
    s[0 := s[0] / 8 * 8][31 := 64 + s[31] % 64]
  }

  function DecodeScalar(s: Bytes): nat
    requires |s| == 32
  {
    LittleEndian(Clamp(s))
  }

  function DecodeU(s: Bytes): int {
    LittleEndian(s) % TWO255
  }

  /** The top bit of a coordinate is ignored. */
  lemma DecodeUIs(s: Bytes)
    ensures DecodeU(s) == LittleEndian(s) % Pow2(255)
  {
    assert Pow2(5) == 32;
    hide Pow2;
    Pow2At250();
    Pow2Add(250, 5);
  }

  // ----- one rung on limbs -----

  lemma MulCommutes(x: int, y: int)
    ensures FMul(x, y) == FMul(y, x)
  {
    assert x * y == y * x;
  }

  ghost predicate Holds(r: Rung, x2: array<u64>, z2: array<u64>, x3: array<u64>, z3: array<u64>)
    reads x2, z2, x3, z3
  {
    && Fe(x2) && Fe(z2) && Fe(x3) && Fe(z3)
    && El(x2) == r.x2 && El(z2) == r.z2 && El(x3) == r.x3 && El(z3) == r.z3
  }

  ghost predicate Separate(x2: array<u64>, z2: array<u64>, x3: array<u64>, z3: array<u64>) {
    && x2.Length == z2.Length == x3.Length == z3.Length == 5
    && x2 != z2 && x2 != x3 && x2 != z3 && z2 != x3 && z2 != z3 && x3 != z3
  }

  ghost predicate IsFe(h: array<u64>, v: int)
    reads h
  {
    Fe(h) && El(h) == v
  }

  method SumStage(x2: array<u64>, z2: array<u64>) returns (a: array<u64>, aa: array<u64>)
    requires x2.Length == z2.Length == 5 && Fe(x2) && Fe(z2)
    ensures fresh(a) && fresh(aa) && a.Length == aa.Length == 5
    ensures IsFe(a, FAdd(El(x2), El(z2))) && IsFe(aa, FMul(El(a), El(a)))
  {
    a := new u64[5];
    aa := new u64[5];
    hide Fe, El, FAdd, FMul;
    Add(a, x2, z2);
    Square(aa, a);
  }

  method DifferenceStage(x2: array<u64>, z2: array<u64>) returns (b: array<u64>, bb: array<u64>)
    requires x2.Length == z2.Length == 5 && Fe(x2) && Fe(z2)
    ensures fresh(b) && fresh(bb) && b.Length == bb.Length == 5
    ensures IsFe(b, FSub(El(x2), El(z2))) && IsFe(bb, FMul(El(b), El(b)))
  {
    b := new u64[5];
    bb := new u64[5];
    hide Fe, El, FSub, FMul;
    Sub(b, x2, z2);
    Square(bb, b);
  }

  /** The two cross products. */
  method CrossStage(x3: array<u64>, z3: array<u64>, a: array<u64>, b: array<u64>)
    returns (da: array<u64>, cb: array<u64>)
    requires x3.Length == z3.Length == a.Length == b.Length == 5 && Fe(x3) && Fe(z3) && Fe(a) && Fe(b)
    ensures fresh(da) && fresh(cb) && da.Length == cb.Length == 5
    ensures IsFe(da, FMul(FSub(El(x3), El(z3)), El(a))) && IsFe(cb, FMul(FAdd(El(x3), El(z3)), El(b)))
  {
    var c := new u64[5];
    var d := new u64[5];
    da := new u64[5];
    cb := new u64[5];
    hide Fe, El, FAdd, FSub, FMul;
    Add(c, x3, z3);
    Sub(d, x3, z3);
    Mul(da, d, a);
    Mul(cb, c, b);
  }

  /** The new x3 and z3. */
  method AddStage(x1: array<u64>, x3: array<u64>, z3: array<u64>, da: array<u64>, cb: array<u64>)
    requires x1.Length == x3.Length == z3.Length == da.Length == cb.Length == 5
    requires x3 != z3 && x1 !in {x3, z3} && da !in {x3, z3} && cb !in {x3, z3}
    requires Fe(x1) && Fe(da) && Fe(cb)
    modifies x3, z3
    ensures IsFe(x3, FMul(FAdd(El(da), El(cb)), FAdd(El(da), El(cb))))
    ensures IsFe(z3, FMul(El(x1), FMul(FSub(El(da), El(cb)), FSub(El(da), El(cb)))))
  {
    var tmp0 := new u64[5];
    var tmp1 := new u64[5];
    hide Fe, El, FAdd, FSub, FMul;
    Add(tmp0, da, cb);
    Square(x3, tmp0);
    Sub(tmp0, da, cb);
    Square(tmp1, tmp0);
    MulCommutes(El(tmp1), El(x1));
    Mul(z3, tmp1, x1);
  }

  /** The new x2 and z2. */
  method DoubleStage(x2: array<u64>, z2: array<u64>, aa: array<u64>, bb: array<u64>)
    requires x2.Length == z2.Length == aa.Length == bb.Length == 5
    requires x2 != z2 && aa !in {x2, z2} && bb !in {x2, z2}
    requires Fe(aa) && Fe(bb)
    modifies x2, z2
    ensures IsFe(x2, FMul(El(aa), El(bb)))
    ensures var e := FSub(El(aa), El(bb));
            IsFe(z2, FMul(e, FAdd(El(aa), FMul(A24, e))))
  {
    var e := new u64[5];
    var a24 := new u64[5];
    var tmp0 := new u64[5];
    SetA24(a24);
    hide Fe, El, FAdd, FSub, FMul;
    Sub(e, aa, bb);
    Mul(x2, aa, bb);
    MulCommutes(El(e), A24);
    Mul(tmp0, e, a24);
    Add(tmp0, aa, tmp0);
    Mul(z2, e, tmp0);
  }

  method SetA24(a: array<u64>)
    requires a.Length == 5
    modifies a
    ensures IsFe(a, A24)
  {
    hide Elem;
    SmallElem(121665);
    a[0] := 121665;
    a[1] := 0;
    a[2] := 0;
    a[3] := 0;
    a[4] := 0;
    assert a[..] == [121665, 0, 0, 0, 0];
  }

  method DoubleAndAddLimbs(x1: array<u64>, x2: array<u64>, z2: array<u64>, x3: array<u64>, z3: array<u64>,
                           ghost r: Rung)
    requires Separate(x2, z2, x3, z3)
    requires x1.Length == 5 && x1 !in {x2, z2, x3, z3}
    requires Holds(r, x2, z2, x3, z3) && Fe(x1)
    modifies x2, z2, x3, z3
    ensures Holds(DoubleAndAdd(El(x1), r), x2, z2, x3, z3)
  {
    hide Fe, El, FAdd, FSub, FMul;
    var a, aa := SumStage(x2, z2);
    var b, bb := DifferenceStage(x2, z2);
    var da, cb := CrossStage(x3, z3, a, b);
    AddStage(x1, x3, z3, da, cb);
    DoubleStage(x2, z2, aa, bb);
  }

  // ----- the scalar -----

  lemma Head(s: Bytes)
    requires s != []
    ensures LittleEndian(s) == s[0] as int + 256 * LittleEndian(s[1..])
  {
  }

  lemma Pieces(s: Bytes, i: nat)
    requires i < |s|
    ensures LittleEndian(s)
            == LittleEndian(s[..i]) + Pow2(8 * i) * (s[i] as int + 256 * LittleEndian(s[i + 1..]))
    ensures LittleEndian(s[..i]) < Pow2(8 * i)
  {
    hide LittleEndian, Pow2;
    assert s == s[..i] + s[i..];
    assert s[i..][1..] == s[i + 1..] && s[i..][0] == s[i];
    Head(s[i..]);
    ConcatValue(s[..i], s[i..]);
    ValueBound(s[..i]);
  }

  lemma ByteOf(s: Bytes, i: nat)
    requires i < |s|
    ensures (LittleEndian(s) / Pow2(8 * i)) % 256 == s[i] as int
  {
    hide LittleEndian, Pow2;
    Pieces(s, i);
    ByteField(LittleEndian(s), LittleEndian(s[..i]), Pow2(8 * i), s[i] as int, LittleEndian(s[i + 1..]));
  }

  lemma ShiftTwice(x: nat, a: nat, b: nat)
    ensures 0 <= x / Pow2(a) && x / Pow2(a + b) == (x / Pow2(a)) / Pow2(b)
  {
    hide Pow2;
    Pow2Add(a, b);
    DivDiv(x, Pow2(a), Pow2(b));
  }

  lemma BitOfShifted(y: nat, byte: nat, j: nat)
    requires j < 8 && y % 256 == byte
    ensures (y / Pow2(j)) % 2 == (byte / Pow2(j)) % 2
  {
    hide Pow2;
    Pow2Eight();
    LowBits(y, 8, j);
  }

  /** Bit `t` of a little-endian number is bit `t % 8` of byte `t / 8`. */
  lemma BitOfByte(s: Bytes, t: nat)
    requires t < 8 * |s|
    ensures ScalarBit(LittleEndian(s), t) == (s[t / 8] as int / Pow2(t % 8)) % 2
  {
    hide LittleEndian, Pow2;
    ByteOf(s, t / 8);
    ShiftTwice(LittleEndian(s), 8 * (t / 8), t % 8);
    BitOfShifted(LittleEndian(s) / Pow2(8 * (t / 8)), s[t / 8] as int, t % 8);
  }

  const TWO248: int := 0x100_0000_0000_0000_0000_0000_0000_0000_0000_0000_0000_0000_0000_0000_0000_0000
  const TWO251: int := 0x800_0000_0000_0000_0000_0000_0000_0000_0000_0000_0000_0000_0000_0000_0000_0000
  const TWO254: int := 0x4000_0000_0000_0000_0000_0000_0000_0000_0000_0000_0000_0000_0000_0000_0000_0000

  lemma Pow2At248()
    ensures Pow2(248) == TWO248
  {
    assert Pow2(2) == 4;
    hide Pow2;
    Pow2At250();
    Pow2Add(248, 2);
  }

  lemma ClampArithmetic(lo: int, m: int, hi: int)
    requires 0 <= lo < 256 && 0 <= hi < 256
    requires 0 <= 256 * m < TWO248
    ensures var x := lo + 256 * m + TWO248 * hi;
            8 * (x / 8 % TWO251)
            == lo / 8 * 8 + 256 * m + TWO248 * (hi % 64)
  {
    var x := lo + 256 * m + TWO248 * hi;
    var y := lo / 8 + 32 * m;
    var z := 0x20_0000_0000_0000_0000_0000_0000_0000_0000_0000_0000_0000_0000_0000_0000_0000 * (hi % 64);
    ModUnique(x, 8, y + 0x20_0000_0000_0000_0000_0000_0000_0000_0000_0000_0000_0000_0000_0000_0000_0000 * hi, lo % 8);
    ModUnique(x / 8, TWO251, hi / 64, y + z);
  }

  lemma ClampSum(s: Bytes)
    requires |s| == 32
    ensures DecodeScalar(s) == TWO254 + s[0] as int / 8 * 8 + 256 * LittleEndian(s[1..31])
                               + TWO248 * (s[31] as int % 64)
  {
    hide LittleEndian;
    assert Clamp(s)[1..31] == s[1..31];
    Split(Clamp(s), s[1..31]);
  }

  /** Clamping: bit 254 set, the low three bits and bit 255 cleared, the rest kept. */
  lemma ClampValue(s: Bytes)
    requires |s| == 32
    ensures DecodeScalar(s) == TWO254 + 8 * (LittleEndian(s) / 8 % TWO251)
  {
    hide DecodeScalar, LittleEndian;
    ClampSum(s);
    Split(s, s[1..31]);
    ClampArithmetic(s[0] as int, LittleEndian(s[1..31]), s[31] as int);
  }

  /** A clamped scalar has its highest bit at 254. */
  lemma ClampedRange(s: Bytes)
    requires |s| == 32
    ensures DecodeScalar(s) / Pow2(254) == 1 && DecodeScalar(s) / Pow2(255) == 0
  {
    ClampValue(s);
    hide DecodeScalar, LittleEndian;
    assert Pow2(2) == 4 && Pow2(4) == 16 && Pow2(5) == 32;
    hide Pow2;
    Pow2At250();
    Pow2Add(250, 4);
    Pow2Add(250, 5);
    var r := 8 * (LittleEndian(s) / 8 % TWO251);
    ModUnique(TWO254 + r, TWO254, 1, r);
    ModUnique(TWO254 + r, TWO255, 0, TWO254 + r);
  }

  lemma OneByte(b: u8)
    ensures LittleEndian([b]) == b as int
  {
    assert [b][1..] == [];
  }

  lemma Split(s: Bytes, m: Bytes)
    requires |s| == 32 && m == s[1..31]
    ensures LittleEndian(s) == s[0] as int + 256 * LittleEndian(m) + TWO248 * s[31] as int
    ensures 0 <= 256 * LittleEndian(m) < TWO248
  {
    hide LittleEndian, Pow2;
    OneByte(s[0]);
    OneByte(s[31]);
    assert s == ([s[0]] + m) + [s[31]];
    ConcatValue([s[0]] + m, [s[31]]);
    ConcatValue([s[0]], m);
    Pow2Values();
    ValueBound(m);
    BytePower(30);
    Pow2At248();
  }

  // ----- scalar multiplication -----

  /** Exclusive-or of two bits. */
  function XorBit(a: u8, b: u8): (r: u8)
    requires a <= 1 && b <= 1
    ensures r as int == (a as int + b as int) % 2
  {
    if a == b then 0 else 1
  }

  method SwapRungs(x2: array<u64>, z2: array<u64>, x3: array<u64>, z3: array<u64>, swap: u8, ghost r: Rung)
    requires Separate(x2, z2, x3, z3) && Holds(r, x2, z2, x3, z3)
    requires swap == 0 || swap == 1
    modifies x2, z2, x3, z3
    ensures Holds(Swapped(r, swap as int), x2, z2, x3, z3)
  {
    hide Fe, El;
    ConditionalSwap(x2, x3, swap);
    ConditionalSwap(z2, z3, swap);
  }

  /** One iteration of the ladder loop. */
  method Climb(scalar: array<u8>, t: nat, swapIn: u8, x1: array<u64>,
               x2: array<u64>, z2: array<u64>, x3: array<u64>, z3: array<u64>, ghost k: nat)
    returns (swap: u8)
    requires scalar.Length == 32 && k == LittleEndian(scalar[..]) && t < 255
    requires Separate(x2, z2, x3, z3) && x1.Length == 5 && x1 !in {x2, z2, x3, z3} && Fe(x1)
    requires swapIn as int == Ladder(k, El(x1), t + 1).1 && swapIn <= 1
    requires Holds(Ladder(k, El(x1), t + 1).0, x2, z2, x3, z3)
    modifies x2, z2, x3, z3
    ensures swap as int == Ladder(k, El(x1), t).1 && swap <= 1
    ensures Holds(Ladder(k, El(x1), t).0, x2, z2, x3, z3)
  {
    hide Holds, Fe, El, LittleEndian, Ladder, DoubleAndAdd, Swapped, ScalarBit, Pow2;
    ghost var u := El(x1);
    ghost var r := Ladder(k, u, t + 1).0;
    LadderStep(k, u, t);
    BitOfByte(scalar[..], t);
    var kt := ((scalar[t / 8] as int / Pow2(t % 8)) % 2) as u8;
    var flip := XorBit(swapIn, kt);
    SwapRungs(x2, z2, x3, z3, flip, r);
    swap := kt;
    DoubleAndAddLimbs(x1, x2, z2, x3, z3, Swapped(r, flip as int));
  }

  lemma MaskTop(s: Bytes)
    requires |s| == 32
    ensures LittleEndian(s[31 := s[31] % 128]) == LittleEndian(s) % TWO255
  {
    hide LittleEndian;
    var m := s[31 := s[31] % 128];
    assert m[1..31] == s[1..31];
    Split(s, s[1..31]);
    Split(m, s[1..31]);
    ModUnique(LittleEndian(s), TWO255, s[31] as int / 128, LittleEndian(m));
  }

  method CopyBytes(input: array<u8>) returns (r: array<u8>)
    ensures fresh(r) && r[..] == input[..]
  {
    r := new u8[input.Length];
    for i := 0 to input.Length
      invariant r[..i] == input[..i]
    {
      r[i] := input[i];
    }
    assert r[..] == r[..input.Length] && input[..] == input[..input.Length];
  }

  method ClampInPlace(scalar: array<u8>)
    requires scalar.Length == 32
    modifies scalar
    ensures scalar[..] == Clamp(old(scalar[..]))
  {
    scalar[0] := scalar[0] / 8 * 8;
    scalar[31] := scalar[31] % 128;
    scalar[31] := scalar[31] % 64 + 64;
  }

  /** The whole ladder: on entry the point is decoded, on exit the rungs hold the last state
      of the reference ladder. */
  method RunLadder(scalar: array<u8>, x1: array<u64>,
                   x2: array<u64>, z2: array<u64>, x3: array<u64>, z3: array<u64>)
    requires scalar.Length == 32
    requires Separate(x2, z2, x3, z3) && x1.Length == 5 && x1 !in {x2, z2, x3, z3} && Fe(x1)
    modifies x2, z2, x3, z3
    ensures var (r, swap) := Ladder(LittleEndian(scalar[..]), El(x1), 0);
            Holds(Swapped(r, swap), x2, z2, x3, z3)
  {
    hide Fe, El, LittleEndian, DoubleAndAdd, Swapped, ScalarBit;
    ghost var k, u := LittleEndian(scalar[..]), El(x1);
    assert Ladder(k, u, 255) == (Rung(1, 0, u, 1), 0);
    hide Ladder;
    SetOne(x2);
    SetZero(z2);
    Copy(x3, x1);
    SetOne(z3);
    assert Holds(Rung(1, 0, u, 1), x2, z2, x3, z3);
    hide Holds;
    var swap: u8 := 0;
    for t := 255 downto 0
      invariant Fe(x1) && El(x1) == u && LittleEndian(scalar[..]) == k
      invariant swap as int == Ladder(k, u, t).1 && swap <= 1
      invariant Holds(Ladder(k, u, t).0, x2, z2, x3, z3)
    {
      swap := Climb(scalar, t, swap, x1, x2, z2, x3, z3, k);
    }
    SwapRungs(x2, z2, x3, z3, swap, Ladder(k, u, 0).0);
  }

  /** The ladder, the inversion and the encoding, for a decoded point. */
  method LadderToBytes(out: array<u8>, scalar: array<u8>, x1: array<u64>)
    requires out.Length == scalar.Length == 32 && out != scalar && x1.Length == 5 && Fe(x1)
    modifies out
    ensures LittleEndian(out[..]) == Montgomery(old(LittleEndian(scalar[..])), old(El(x1)))
    ensures 0 <= LittleEndian(out[..]) < P()
  {
    hide Fe, El, LittleEndian, FMul, P, Ladder, Swapped;
    var x2 := new u64[5];
    var z2 := new u64[5];
    var x3 := new u64[5];
    var z3 := new u64[5];
    RunLadder(scalar, x1, x2, z2, x3, z3);
    Invert(z2, z2);
    Mul(x2, x2, z2);
    ToBytes(out, x2);
  }

  lemma ReferenceIsMultiple(scalar: Bytes, u: int)
    requires |scalar| == 32
    ensures var m := Multiples(u, DecodeScalar(scalar));
            Montgomery(DecodeScalar(scalar), u) == Affine(m.x2, m.z2)
  {
    hide Montgomery, Affine, Multiples, DecodeScalar, Pow2;
    ClampedRange(scalar);
    MontgomeryIs(DecodeScalar(scalar), u);
  }

  /** For every scalar and every u-coordinate the limb code computes the reference function, which is
      the affine coordinate of the scalar's multiple of the point, and its output is the canonical
      encoding. */
  method ScalarMult(out: array<u8>, scalarIn: array<u8>, pointIn: array<u8>)
    requires out.Length == scalarIn.Length == pointIn.Length == 32
    modifies out
    ensures LittleEndian(out[..])
            == Montgomery(DecodeScalar(old(scalarIn[..])), DecodeU(old(pointIn[..])) % P())
    ensures var m := Multiples(DecodeU(old(pointIn[..])) % P(), DecodeScalar(old(scalarIn[..])));
            LittleEndian(out[..]) == Affine(m.x2, m.z2)
    ensures 0 <= LittleEndian(out[..]) < P()
  {
    hide Fe, El, LittleEndian, P, Montgomery, Clamp, Affine, Multiples;
    ReferenceIsMultiple(scalarIn[..], DecodeU(pointIn[..]) % P());
    var scalar := CopyBytes(scalarIn);
    var point := CopyBytes(pointIn);
    ClampInPlace(scalar);
    MaskTop(point[..]);
    point[31] := point[31] % 128;
    assert point[..] == pointIn[..][31 := pointIn[31] % 128];
    var x1 := new u64[5];
    DecodePoint(x1, point, DecodeU(pointIn[..]));
    LadderToBytes(out, scalar, x1);
  }

  method DecodePoint(x1: array<u64>, point: array<u8>, ghost v: int)
    requires x1.Length == 5 && point.Length == 32
    requires v == LittleEndian(point[..]) && v == v % TWO255
    modifies x1
    ensures Fe(x1) && El(x1) == v % P()
  {
    hide LittleEndian, Val, P, Tight;
    FromBytes(x1, point);
  }
}
