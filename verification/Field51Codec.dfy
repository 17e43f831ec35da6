/** Little-endian byte strings to and from five-limb field elements. */
module Field51Codec {
  import opened Machine
  import opened ModArith
  import opened Bits
  import opened Endian
  import opened Field51

  lemma LoadStep(p: Bytes, v: int, i: nat)
    requires i < |p| <= 8 && v == LittleEndian(p[i + 1..])
    ensures 0 <= v * 256 + p[i] as int < 0x1_0000_0000_0000_0000
    ensures v * 256 + p[i] as int == LittleEndian(p[i..])
  {
    assert p[i..][1..] == p[i + 1..];
    WordBound(p[i..]);
  }

  /** The 64-bit word at byte `off`, assembled from its most significant byte down. */
  method LoadLe64(p: array<u8>, off: nat) returns (v: u64)
    requires off + 8 <= p.Length
    ensures v as int == LittleEndian(p[off..off + 8])
  {
    v := 0;
    ghost var s := p[off..off + 8];
    assert s[8..] == [];
    assert LittleEndian(s[8..]) == 0;
    hide LittleEndian;
    for i := 8 downto 0
      invariant v as int == LittleEndian(s[i..])
    {
      LoadStep(s, v as int, i);
      v := v * 256 + p[off + i] as u64;
    }
    assert s[0..] == s;
  }

  // ----- decoding -----

  /** Eight bytes of a string are a 64-bit field of its value. */
  lemma Window(s: Bytes, off: nat)
    requires off + 8 <= |s|
    ensures LittleEndian(s[off..off + 8]) == (LittleEndian(s) / Pow2(8 * off)) % 0x1_0000_0000_0000_0000
  {
    hide LittleEndian, Pow2;
    var a, b, c := s[..off], s[off..off + 8], s[off + 8..];
    assert s == a + (b + c);
    ConcatValue(a, b + c);
    ConcatValue(b, c);
    ValueBound(a);
    WordBound(b);
    Pow2Values();
    var y := LittleEndian(b + c);
    ModUnique(y, 0x1_0000_0000_0000_0000, LittleEndian(c), LittleEndian(b));
    ModUnique(LittleEndian(s), Pow2(8 * off), y, LittleEndian(a));
  }

  /** The limb cut out of the word at byte `off`, shifted right by `e`, is limb number
      `8 * off` plus the shift of the whole string. */
  lemma LimbOfWord(x: int, d: int, e: int, k: int, w: int)
    requires d > 0 && e > 0 && k > 0 && e * (0x8_0000_0000_0000 * k) == 0x1_0000_0000_0000_0000
    requires w == (x / d) % 0x1_0000_0000_0000_0000
    ensures d * e > 0 && (w / e) % 0x8_0000_0000_0000 == (x / (d * e)) % 0x8_0000_0000_0000
  {
    FieldOfWord(x / d, e, 0x8_0000_0000_0000, k);
    DivDiv(x, d, e);
  }

  const TWO102: int := 0x40_0000_0000_0000_0000_0000_0000
  const TWO153: int := 0x200_0000_0000_0000_0000_0000_0000_0000_0000_0000
  const TWO204: int := 0x1000_0000_0000_0000_0000_0000_0000_0000_0000_0000_0000_0000_0000
  const TWO255: int := 0x8000_0000_0000_0000_0000_0000_0000_0000_0000_0000_0000_0000_0000_0000_0000_0000

  lemma NestedQuotients(x: int)
    ensures x / TWO102 == x / 0x8_0000_0000_0000 / 0x8_0000_0000_0000
    ensures x / TWO153 == x / 0x8_0000_0000_0000 / 0x8_0000_0000_0000 / 0x8_0000_0000_0000
    ensures x / TWO204 == x / 0x8_0000_0000_0000 / 0x8_0000_0000_0000 / 0x8_0000_0000_0000 / 0x8_0000_0000_0000
  {
    DivDiv(x, 0x8_0000_0000_0000, 0x8_0000_0000_0000);
    DivDiv(x, TWO102, 0x8_0000_0000_0000);
    DivDiv(x, TWO153, 0x8_0000_0000_0000);
  }

  /** The base 2^51 digits of a number stand for its remainder modulo 2^255. */
  lemma DigitsValue(x: int)
    ensures Radix(x % 0x8_0000_0000_0000, x / 0x8_0000_0000_0000 % 0x8_0000_0000_0000,
                  x / TWO102 % 0x8_0000_0000_0000, x / TWO153 % 0x8_0000_0000_0000,
                  x / TWO204 % 0x8_0000_0000_0000) == x % TWO255
  {
    NestedQuotients(x);
    var q1 := x / 0x8_0000_0000_0000;
    var q2 := q1 / 0x8_0000_0000_0000;
    var q3 := q2 / 0x8_0000_0000_0000;
    var q4 := q3 / 0x8_0000_0000_0000;
    var q5 := q4 / 0x8_0000_0000_0000;
    var v := Radix(x % 0x8_0000_0000_0000, q1 % 0x8_0000_0000_0000, q2 % 0x8_0000_0000_0000,
                   q3 % 0x8_0000_0000_0000, q4 % 0x8_0000_0000_0000);
    assert x == q5 * TWO255 + v;
    assert 0 <= v < TWO255;
    ModUnique(x, TWO255, q5, v);
  }

  lemma BitPositions()
    ensures Pow2(48) == 0x1_0000_0000_0000 && Pow2(96) == 0x1_0000_0000_0000_0000_0000_0000
    ensures Pow2(152) == 0x100_0000_0000_0000_0000_0000_0000_0000_0000_0000
    ensures Pow2(192) == 0x1_0000_0000_0000_0000_0000_0000_0000_0000_0000_0000_0000_0000
  {
    hide Pow2;
    Pow2Values();
    Pow2Add(32, 16);
    Pow2Add(64, 32);
    Pow2Add(16, 8);
    Pow2Add(128, 24);
    Pow2Add(128, 64);
  }

  lemma LimbsOfBytes(s: Bytes, l: Limbs)
    requires |s| == 32
    requires l[0] as int == LittleEndian(s[0..8]) % 0x8_0000_0000_0000
    requires l[1] as int == (LittleEndian(s[6..14]) / 8) % 0x8_0000_0000_0000
    requires l[2] as int == (LittleEndian(s[12..20]) / 64) % 0x8_0000_0000_0000
    requires l[3] as int == (LittleEndian(s[19..27]) / 2) % 0x8_0000_0000_0000
    requires l[4] as int == (LittleEndian(s[24..32]) / 4096) % 0x8_0000_0000_0000
    ensures Val(l) == LittleEndian(s) % TWO255
  {
    hide LittleEndian, Pow2, Radix;
    var x := LittleEndian(s);
    BitPositions();
    Pow2Zero();
    Window(s, 0);
    Window(s, 6);
    Window(s, 12);
    Window(s, 19);
    Window(s, 24);
    LimbOfWord(x, 1, 1, 0x2000, LittleEndian(s[0..8]));
    LimbOfWord(x, 0x1_0000_0000_0000, 8, 0x400, LittleEndian(s[6..14]));
    LimbOfWord(x, 0x1_0000_0000_0000_0000_0000_0000, 64, 0x80, LittleEndian(s[12..20]));
    LimbOfWord(x, 0x100_0000_0000_0000_0000_0000_0000_0000_0000_0000, 2, 0x1000, LittleEndian(s[19..27]));
    LimbOfWord(x, 0x1_0000_0000_0000_0000_0000_0000_0000_0000_0000_0000_0000_0000, 4096, 2, LittleEndian(s[24..32]));
    DigitsValue(x);
  }

  /** Bit 255 of the string is dropped; the other 255 bits are kept exactly. */
  method FromBytes(out: array<u64>, input: array<u8>)
    requires out.Length == 5 && input.Length == 32
    modifies out
    ensures Fe(out)
    ensures Val(out[..]) == LittleEndian(input[..]) % TWO255
  {
    hide LittleEndian, Val, Pow2;
    var w0 := LoadLe64(input, 0);
    var w1 := LoadLe64(input, 6);
    var w2 := LoadLe64(input, 12);
    var w3 := LoadLe64(input, 19);
    var w4 := LoadLe64(input, 24);
    out[0] := w0 % TWO51;
    out[1] := (w1 / 8) % TWO51;
    out[2] := (w2 / 64) % TWO51;
    out[3] := (w3 / 2) % TWO51;
    out[4] := (w4 / 4096) % TWO51;
    ghost var s := input[..];
    assert input[0..8] == s[0..8] && input[6..14] == s[6..14] && input[12..20] == s[12..20]
        && input[19..27] == s[19..27] && input[24..32] == s[24..32];
    LimbsOfBytes(s, out[..]);
  }

  // ----- the canonical representative -----

  const PRIME: seq<u64> := [MASK - 18, MASK, MASK, MASK, MASK]

  lemma LexicographicOrder(h: Limbs, i: nat)
    requires Tight(h) && i < 5
    requires forall k :: i < k < 5 ==> h[k] == PRIME[k]
    ensures h[i] < PRIME[i] ==> Val(h) < P()
    ensures h[i] > PRIME[i] ==> Val(h) >= P()
    ensures i == 0 && h[i] == PRIME[i] ==> Val(h) == P()
  {
  }

  /** Limb by limb comparison with P from the top. */
  method AtLeastP(h: array<u64>) returns (r: bool)
    requires Fe(h)
    ensures r == (Val(h[..]) >= P())
  {
    for i := 5 downto 0
      invariant forall k :: i <= k < 5 ==> h[k] == PRIME[k]
    {
      LexicographicOrder(h[..], i);
      if h[i] > PRIME[i] {
        return true;
      }
      if h[i] < PRIME[i] {
        return false;
      }
    }
    LexicographicOrder(h[..], 0);
    return true;
  }

  lemma AboveP(h: Limbs)
    requires Tight(h) && Val(h) >= P()
    ensures forall k :: 0 <= k < 5 ==> h[k] >= PRIME[k]
  {
    LexicographicOrder(h, 4);
    LexicographicOrder(h, 3);
    LexicographicOrder(h, 2);
    LexicographicOrder(h, 1);
    LexicographicOrder(h, 0);
  }

  function Less(x: u64, y: u64): u64 {
    if x < y then 1 else 0
  }

  /** Subtraction with borrow, each limb wrapping modulo 2^64.  On a tight vector that is at
      least P no limb ever borrows. */
  method SubtractP(h: array<u64>)
    requires Fe(h) && Val(h[..]) >= P()
    modifies h
    ensures Fe(h) && Val(h[..]) == old(Val(h[..])) - P()
  {
    AboveP(h[..]);
    var borrow: u64 := 0;
    for i := 0 to 5
      invariant borrow == 0
      invariant forall k :: 0 <= k < i ==> h[k] == old(h[k]) - PRIME[k]
      invariant forall k :: i <= k < 5 ==> h[k] == old(h[k])
    {
      var sub := PRIME[i] + borrow;
      var before := h[i];
      h[i] := ((before as int - sub as int) % 0x1_0000_0000_0000_0000) as u64;
      borrow := Less(before, sub);
    }
  }

  // ----- encoding -----

  /** `lo | (hi << k)` in 64 bits. */
  function ShiftOr(lo: nat, hi: nat, k: nat): nat {
    Or(lo, (hi * Pow2(k)) % 0x1_0000_0000_0000_0000)
  }

  /** Bits shifted past bit 63 are lost; the rest land above `lo`. */
  lemma ShiftOrValue(lo: nat, hi: nat, k: nat)
    requires k <= 64 && lo < Pow2(k)
    ensures ShiftOr(lo, hi, k) == lo + hi % Pow2(64 - k) * Pow2(k)
    ensures ShiftOr(lo, hi, k) < 0x1_0000_0000_0000_0000
  {
    hide Or, Pow2;
    var d, e := Pow2(k), Pow2(64 - k);
    Pow2Values();
    Pow2Add(64 - k, k);
    var q, r := hi / e, hi % e;
    Distribute(e * q, r, d);
    assert (e * q) * d == q * (e * d);
    MulBound(r, d, e - 1, d);
    Distribute(e, 1, d);
    ModUnique(hi * d, e * d, q, r * d);
    OrDisjoint(lo, r, k);
  }

  lemma WordShifts()
    ensures Pow2(12) == 0x1000 && Pow2(13) == 0x2000 && Pow2(25) == 0x200_0000 && Pow2(26) == 0x400_0000
    ensures Pow2(38) == 0x40_0000_0000 && Pow2(39) == 0x80_0000_0000
    ensures Pow2(51) == 0x8_0000_0000_0000 && Pow2(52) == 0x10_0000_0000_0000
  {
    assert Pow2(12) == 0x1000;
    Pow2Add(12, 1);
    Pow2Add(12, 13);
    Pow2Add(25, 1);
    Pow2Add(26, 12);
    Pow2Add(38, 1);
    Pow2Add(39, 12);
    Pow2Add(51, 1);
  }

  /** Four 64-bit words repacked from five tight limbs stand for the same number. */
  lemma PackedWords(h: Limbs)
    requires Tight(h)
    ensures var w0 := ShiftOr(h[0] as int, h[1] as int, 51);
            var w1 := ShiftOr(h[1] as int / 0x2000, h[2] as int, 38);
            var w2 := ShiftOr(h[2] as int / 0x400_0000, h[3] as int, 25);
            var w3 := ShiftOr(h[3] as int / 0x80_0000_0000, h[4] as int, 12);
            && w0 < 0x1_0000_0000_0000_0000 && w1 < 0x1_0000_0000_0000_0000
            && w2 < 0x1_0000_0000_0000_0000 && w3 < 0x1_0000_0000_0000_0000
            && Val(h) == w0 + 0x1_0000_0000_0000_0000
                              * (w1 + 0x1_0000_0000_0000_0000
                                      * (w2 + 0x1_0000_0000_0000_0000 * w3))
  {
    hide ShiftOr, Pow2;
    WordShifts();
    ShiftOrValue(h[0] as int, h[1] as int, 51);
    ShiftOrValue(h[1] as int / 0x2000, h[2] as int, 38);
    ShiftOrValue(h[2] as int / 0x400_0000, h[3] as int, 25);
    ShiftOrValue(h[3] as int / 0x80_0000_0000, h[4] as int, 12);
  }

  /** The bytes `done` and the part of `v` not yet written make up `v`. */
  ghost predicate Stored(done: Bytes, v: nat) {
    LittleEndian(done) + Pow2(8 * |done|) * (v / Pow2(8 * |done|)) == v
  }

  lemma StoredStart(v: nat)
    ensures Stored([], v)
  {
    assert LittleEndian([]) == 0 && Pow2(0) == 1;
    assert v / Pow2(0) == v;
  }

  lemma StoredEnd(s: Bytes, v: nat)
    requires |s| == 8 && v < 0x1_0000_0000_0000_0000 && Stored(s, v)
    ensures LittleEndian(s) == v
  {
    hide LittleEndian, Pow2;
    Pow2Values();
    ModUnique(v, Pow2(64), 0, v);
  }

  lemma CarryByte(x: int, d: int, q: int, q': int, b: int, v: int)
    requires x + d * q == v && q == 256 * q' + b
    ensures x + d * b + (256 * d) * q' == v
  {
    Distribute(256 * q', b, d);
    assert (256 * d) * q' == (256 * q') * d;
  }

  lemma StoreStep(done: Bytes, v: nat, b: u8)
    requires Stored(done, v)
    requires b as int == (v / Pow2(8 * |done|)) % 256
    ensures Stored(done + [b], v)
  {
    assert LittleEndian([b]) == b as int;
    hide Pow2, LittleEndian;
    var d := Pow2(8 * |done|);
    var q := v / d;
    ConcatValue(done, [b]);
    BytePower(|done|);
    DivDiv(v, d, 256);
    CarryByte(LittleEndian(done), d, q, q / 256, b as int, v);
  }

  /** Writes a 64-bit word at byte `off`, least significant byte first. */
  method StoreLe64(p: array<u8>, off: nat, v: u64)
    requires off + 8 <= p.Length
    modifies p
    ensures LittleEndian(p[off..off + 8]) == v as int
    ensures forall k :: 0 <= k < p.Length && !(off <= k < off + 8) ==> p[k] == old(p[k])
  {
    hide LittleEndian, Pow2, Stored;
    StoredStart(v as int);
    assert p[off..off] == [];
    for i := 0 to 8
      invariant Stored(p[off..off + i], v as int)
      invariant forall k :: 0 <= k < p.Length && !(off <= k < off + i) ==> p[k] == old(p[k])
    {
      ghost var s := p[off..off + i];
      var b := ((v as int / Pow2(8 * i)) % 256) as u8;
      p[off + i] := b;
      StoreStep(s, v as int, b);
      assert p[off..off + (i + 1)] == s + [b];
    }
    StoredEnd(p[off..off + 8], v as int);
  }

  lemma WordsConcat(s: Bytes, w0: nat, w1: nat, w2: nat, w3: nat)
    requires |s| == 32
    requires LittleEndian(s[0..8]) == w0 && LittleEndian(s[8..16]) == w1
    requires LittleEndian(s[16..24]) == w2 && LittleEndian(s[24..32]) == w3
    ensures LittleEndian(s) == w0 + 0x1_0000_0000_0000_0000
                                    * (w1 + 0x1_0000_0000_0000_0000
                                            * (w2 + 0x1_0000_0000_0000_0000 * w3))
  {
    hide LittleEndian, Pow2;
    Pow2Values();
    ConcatValue(s[0..8], s[8..]);
    ConcatValue(s[8..16], s[16..]);
    ConcatValue(s[16..24], s[24..]);
    assert s == s[0..8] + s[8..] && s[8..] == s[8..16] + s[16..] && s[16..] == s[16..24] + s[24..32];
    assert s[24..] == s[24..32];
  }

  lemma TopByte(s: Bytes)
    requires |s| == 32 && LittleEndian(s) < TWO255
    ensures s[31] < 128
  {
    assert LittleEndian(s[31..]) == s[31] as int by { assert s[31..] == [s[31]]; }
    hide LittleEndian, Pow2;
    assert s == s[..31] + s[31..];
    ConcatValue(s[..31], s[31..]);
    Pow2At250();
    Pow2Add(248, 2);
    Pow2AtTwo();
  }

  lemma Pow2AtTwo()
    ensures Pow2(2) == 4
  {
  }

  /** Writes the four words packed from tight limbs. */
  method StoreLimbs(out: array<u8>, h: array<u64>)
    requires out.Length == 32 && Fe(h) && Val(h[..]) < TWO255
    modifies out
    ensures LittleEndian(out[..]) == Val(h[..])
  {
    hide LittleEndian, Pow2, ShiftOr, Val, Tight;
    PackedWords(h[..]);
    WordShifts();
    var q0 := ShiftOr(h[0] as int, h[1] as int, 51) as u64;
    var q1 := ShiftOr(h[1] as int / 0x2000, h[2] as int, 38) as u64;
    var q2 := ShiftOr(h[2] as int / 0x400_0000, h[3] as int, 25) as u64;
    var q3 := ShiftOr(h[3] as int / 0x80_0000_0000, h[4] as int, 12) as u64;
    StoreWords(out, q0, q1, q2, q3);
    ghost var s := out[..];
    TopByte(s);
    out[31] := out[31] % 128;
    assert out[..] == s;
  }

  method StoreWords(out: array<u8>, q0: u64, q1: u64, q2: u64, q3: u64)
    requires out.Length == 32
    modifies out
    ensures LittleEndian(out[..]) == q0 as int + 0x1_0000_0000_0000_0000
                                    * (q1 as int + 0x1_0000_0000_0000_0000
                                            * (q2 as int + 0x1_0000_0000_0000_0000 * q3 as int))
  {
    hide LittleEndian;
    StoreLe64(out, 0, q0);
    ghost var a := out[0..8];
    StoreLe64(out, 8, q1);
    ghost var b := out[8..16];
    assert out[0..8] == a;
    StoreLe64(out, 16, q2);
    ghost var c := out[16..24];
    assert out[0..8] == a && out[8..16] == b;
    StoreLe64(out, 24, q3);
    ghost var s := out[..];
    assert s[0..8] == a && s[8..16] == b && s[16..24] == c && s[24..32] == out[24..32];
    WordsConcat(s, q0 as int, q1 as int, q2 as int, q3 as int);
  }

  lemma CanonicalBound(h: Limbs)
    requires Tight(h)
    ensures 0 <= Val(h) < TWO255 && TWO255 == P() + 19
    ensures Val(h) < P() ==> Elem(h) == Val(h)
    ensures P() <= Val(h) ==> Elem(h) == Val(h) - P()
  {
    assert 0 <= Val(h) < TWO255 && TWO255 == P() + 19;
    assert P() + P() > TWO255;
    hide Val, P;
    if Val(h) < P() {
      ModUnique(Val(h), P(), 0, Val(h));
    } else {
      ModUnique(Val(h), P(), 1, Val(h) - P());
    }
  }

  /** The encoding of a field element is its unique representative below P, whatever tight or
      loose limbs it came in. */
  method ToBytes(out: array<u8>, input: array<u64>)
    requires out.Length == 32 && input.Length == 5 && Fe(input)
    modifies out
    ensures LittleEndian(out[..]) == old(El(input))
    ensures 0 <= LittleEndian(out[..]) < P()
  {
    var h := new u64[5];
    hide LittleEndian, Val, Elem, Tight, P;
    Copy(h, input);
    assert Loose(h[..]) by { TightIsLoose(h[..]); }
    Reduce(h);
    CanonicalBound(h[..]);
    var ge := AtLeastP(h);
    if ge {
      SubtractP(h);
    }
    StoreLimbs(out, h);
  }

  lemma TightIsLoose(s: Limbs)
    requires Tight(s)
    ensures Loose(s)
  {
  }
}
