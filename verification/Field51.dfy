/**
 The field of integers modulo 2^255 - 19 in five limbs of radix 2^51, as
 kernel/drivers/netstack.c keeps it.  Limb vectors are arrays updated in place and the
 operands of an operation may alias its result.  `x >> 51` and `x & MASK` on unsigned
 limbs are written `x / TWO51` and `x % TWO51`.
 */
module Field51 {
  import opened Machine
  import opened ModArith
  import opened Bits

  const TWO51: u64 := 0x8_0000_0000_0000
  const MASK: u64 := 0x7_FFFF_FFFF_FFFF

  /** The prime 2^255 - 19.  A function rather than a constant, so that a proof can hide its digits. */
  function P(): (p: int)
    ensures p > 1
  {
    0x7FFF_FFFF_FFFF_FFFF_FFFF_FFFF_FFFF_FFFF_FFFF_FFFF_FFFF_FFFF_FFFF_FFFF_FFFF_FFED
  }

  type Limbs = s: seq<u64> | |s| == 5 witness [0, 0, 0, 0, 0]

  /** The integer a polynomial in 2^51 with these coefficients stands for. */
  function Radix(h0: int, h1: int, h2: int, h3: int, h4: int): int {
    h0 + 0x8_0000_0000_0000 * h1
    + 0x40_0000_0000_0000_0000_0000_0000 * h2
    + 0x200_0000_0000_0000_0000_0000_0000_0000_0000_0000 * h3
    + 0x1000_0000_0000_0000_0000_0000_0000_0000_0000_0000_0000_0000_0000 * h4
  }

  function Val(s: Limbs): int {
    Radix(s[0] as int, s[1] as int, s[2] as int, s[3] as int, s[4] as int)
  }

  /** The field element a limb vector represents. */
  function Elem(s: Limbs): int {
    Val(s) % P()
  }

  predicate Tight(s: Limbs) {
    s[0] < TWO51 && s[1] < TWO51 && s[2] < TWO51 && s[3] < TWO51 && s[4] < TWO51
  }

  /** A tight limb vector, and the field element it holds. */
  ghost predicate Fe(h: array<u64>)
    reads h
  {
    h.Length == 5 && Tight(h[..])
  }

  ghost function El(h: array<u64>): int
    requires h.Length == 5
    reads h
  {
    Elem(h[..])
  }

  function FAdd(a: int, b: int): int { (a + b) % P() }
  function FSub(a: int, b: int): int { (a - b) % P() }
  function FMul(a: int, b: int): int { (a * b) % P() }

  // ----- carries -----

  predicate NearlyTight(s: Limbs) {
    s[0] < 0x8_0000_0004_0000 && s[1] < TWO51 && s[2] < TWO51 && s[3] < TWO51 && s[4] < TWO51
  }

  /** A limb and the carry it receives from the sum below it. */
  function Carry(limb: u64, below: int): int {
    limb as int + below / 0x8_0000_0000_0000
  }

  /** No carry of a round leaves its 64-bit limb. */
  predicate Loose(s: Limbs) {
    var t1 := Carry(s[1], s[0] as int);
    var t2 := Carry(s[2], t1);
    var t3 := Carry(s[3], t2);
    var t4 := Carry(s[4], t3);
    t1 < 0x1_0000_0000_0000_0000 && t2 < 0x1_0000_0000_0000_0000
    && t3 < 0x1_0000_0000_0000_0000 && t4 < 0x1_0000_0000_0000_0000
  }

  lemma HalfIsLoose(s: Limbs)
    requires forall i :: 0 <= i < 5 ==> s[i] < 0x8000_0000_0000_0000
    ensures Loose(s)
  {
  }

  /** The equations one round of carries establishes between the old limbs `g`, the new
      limbs `r` and the carries. */
  ghost predicate Carried(g: Limbs, r: Limbs, c0: int, c1: int, c2: int, c3: int, c4: int) {
    && g[0] as int + 19 * c4 == r[0] as int + 0x8_0000_0000_0000 * c0
    && g[1] as int + c0 == r[1] as int + 0x8_0000_0000_0000 * c1
    && g[2] as int + c1 == r[2] as int + 0x8_0000_0000_0000 * c2
    && g[3] as int + c2 == r[3] as int + 0x8_0000_0000_0000 * c3
    && g[4] as int + c3 == r[4] as int + 0x8_0000_0000_0000 * c4
    && 0 <= r[0] as int - 19 * c4 < 0x8_0000_0000_0000
    && r[1] < TWO51 && r[2] < TWO51 && r[3] < TWO51 && r[4] < TWO51
  }

  /** Two rounds of carries suffice: the first makes a vector nearly tight, the second tight. */
  lemma CarriedBounds(g: Limbs, r: Limbs, c0: int, c1: int, c2: int, c3: int, c4: int)
    requires Carried(g, r, c0, c1, c2, c3, c4) && c4 <= 0x1FFF
    ensures NearlyTight(r)
    ensures NearlyTight(g) ==> Tight(r)
  {
  }

  lemma CarriedElem(g: Limbs, r: Limbs, c0: int, c1: int, c2: int, c3: int, c4: int)
    requires Carried(g, r, c0, c1, c2, c3, c4)
    ensures Elem(r) == Elem(g)
  {
    assert Val(r) == Val(g) + (-c4) * P();
    hide Val, P;
    AddMultiple(Val(g), -c4, P());
  }

  /** Moves the part of limb `i` above bit 51 into the next limb. */
  method CarryOut(h: array<u64>, i: nat) returns (c: u64)
    requires h.Length == 5 && i < 4
    requires Carry(h[i + 1], h[i] as int) < 0x1_0000_0000_0000_0000
    modifies h
    ensures h[i] < TWO51 && c <= 0x1FFF && h[i + 1] as int == Carry(old(h[i + 1]), old(h[i]) as int)
    ensures old(h[i]) as int == h[i] as int + 0x8_0000_0000_0000 * c as int
    ensures h[i + 1] == old(h[i + 1]) + c
    ensures forall k :: 0 <= k < 5 && k != i && k != i + 1 ==> h[k] == old(h[k])
  {
    c := h[i] / TWO51;
    h[i] := h[i] % TWO51;
    h[i + 1] := h[i + 1] + c;
  }

  /** One round of carry propagation around the five limbs, 2^255 being worth 19. */
  method CarryRound(h: array<u64>)
    requires h.Length == 5 && Loose(h[..])
    modifies h
    ensures Elem(h[..]) == old(Elem(h[..]))
    ensures NearlyTight(h[..])
    ensures old(NearlyTight(h[..])) ==> Tight(h[..])
  {
    hide Elem, NearlyTight, Tight;
    ghost var g := h[..];
    var c0 := CarryOut(h, 0);
    var c1 := CarryOut(h, 1);
    var c2 := CarryOut(h, 2);
    var c3 := CarryOut(h, 3);
    var c4 := h[4] / TWO51;
    h[4] := h[4] % TWO51;
    h[0] := h[0] + c4 * 19;
    assert Carried(g, h[..], c0 as int, c1 as int, c2 as int, c3 as int, c4 as int);
    hide Carried;
    CarriedBounds(g, h[..], c0 as int, c1 as int, c2 as int, c3 as int, c4 as int);
    CarriedElem(g, h[..], c0 as int, c1 as int, c2 as int, c3 as int, c4 as int);
  }

  method Reduce(h: array<u64>)
    requires h.Length == 5 && Loose(h[..])
    modifies h
    ensures Tight(h[..])
    ensures Elem(h[..]) == old(Elem(h[..]))
  {
    hide Elem;
    for round := 0 to 2
      invariant Loose(h[..])
      invariant Elem(h[..]) == old(Elem(h[..]))
      invariant round >= 1 ==> NearlyTight(h[..])
      invariant round == 2 ==> Tight(h[..])
    {
      CarryRound(h);
    }
  }

  // ----- addition and subtraction -----

  lemma SumMod(x: int, y: int)
    ensures (x + y) % P() == FAdd(x % P(), y % P())
  {
    hide P;
    ModAdd(x, y, P());
  }

  lemma SumVal(a: Limbs, b: Limbs, s: Limbs)
    requires forall i :: 0 <= i < 5 ==> s[i] as int == a[i] as int + b[i] as int
    ensures Val(s) == Val(a) + Val(b)
  {
  }

  lemma SumElem(a: Limbs, b: Limbs, s: Limbs)
    requires forall i :: 0 <= i < 5 ==> s[i] as int == a[i] as int + b[i] as int
    ensures Elem(s) == FAdd(Elem(a), Elem(b))
  {
    hide Val, P, FAdd;
    SumVal(a, b, s);
    SumMod(Val(a), Val(b));
  }

  method Add(out: array<u64>, a: array<u64>, b: array<u64>)
    requires out.Length == a.Length == b.Length == 5
    requires Fe(a) && Fe(b)
    modifies out
    ensures Fe(out) && El(out) == FAdd(old(El(a)), old(El(b)))
  {
    hide Elem, FAdd, Loose;
    for i := 0 to 5
      invariant forall k :: 0 <= k < i ==> out[k] == old(a[k]) + old(b[k])
      invariant forall k :: i <= k < 5 ==> a[k] == old(a[k]) && b[k] == old(b[k])
    {
      out[i] := a[i] + b[i];
    }
    SumElem(old(a[..]), old(b[..]), out[..]);
    HalfIsLoose(out[..]);
    Reduce(out);
  }

  /** Four times P, limb by limb: subtracting a tight limb from it never underflows. */
  const FOUR_P: seq<u64> := [(MASK - 18) * 4, MASK * 4, MASK * 4, MASK * 4, MASK * 4]

  lemma DifferenceElem(a: Limbs, b: Limbs, s: Limbs)
    requires forall i :: 0 <= i < 5 ==> s[i] as int == a[i] as int + FOUR_P[i] as int - b[i] as int
    ensures Elem(s) == FSub(Elem(a), Elem(b))
  {
    assert Val(s) == (Val(a) - Val(b)) + 4 * P();
    hide Val, P;
    AddMultiple(Val(a) - Val(b), 4, P());
    ModSub(Val(a), Val(b), P());
  }

  method Sub(out: array<u64>, a: array<u64>, b: array<u64>)
    requires out.Length == a.Length == b.Length == 5
    requires Fe(a) && Fe(b)
    modifies out
    ensures Fe(out) && El(out) == FSub(old(El(a)), old(El(b)))
  {
    hide Elem, FSub, Loose;
    for i := 0 to 5
      invariant forall k :: 0 <= k < i ==> out[k] == old(a[k]) + FOUR_P[k] - old(b[k])
      invariant forall k :: i <= k < 5 ==> a[k] == old(a[k]) && b[k] == old(b[k])
    {
      out[i] := a[i] + FOUR_P[i] - b[i];
    }
    DifferenceElem(old(a[..]), old(b[..]), out[..]);
    HalfIsLoose(out[..]);
    Reduce(out);
  }

  // ----- multiplication -----

  /** A 64 by 64 bit product taken in 128 bits. */
  function Wide(x: u64, y: u64): (p: u128)
    requires x < TWO51 && y < TWO51
    ensures p as int == x as int * y as int
    ensures p <= 0x3F_FFFF_FFFF_FFFF_FFFF_FFFF_FFFF
  {
    WideBound(x as int, y as int);
    (x as int * y as int) as u128
  }

  lemma WideBound(x: int, y: int)
    requires 0 <= x < 0x8_0000_0000_0000 && 0 <= y < 0x8_0000_0000_0000
    ensures 0 <= x * y <= 0x3F_FFFF_FFFF_FFFF_FFFF_FFFF_FFFF
  {
    MulBound(x, y, 0x7_FFFF_FFFF_FFFF, 0x7_FFFF_FFFF_FFFF);
  }

  lemma RadixScale(x: int, h0: int, h1: int, h2: int, h3: int, h4: int)
    ensures Radix(h0, h1, h2, h3, h4) * x == Radix(h0 * x, h1 * x, h2 * x, h3 * x, h4 * x)
  {
  }

  /** The part of the product of two limb vectors that wraps around 2^255. */
  function Overflow(f0: int, f1: int, f2: int, f3: int, f4: int,
                    g0: int, g1: int, g2: int, g3: int, g4: int): int {
    Radix(f1 * g4 + f2 * g3 + f3 * g2 + f4 * g1,
          f2 * g4 + f3 * g3 + f4 * g2,
          f3 * g4 + f4 * g3,
          f4 * g4,
          0)
  }

  /** Schoolbook multiplication: the five folded column sums stand for the product, up to
      a multiple of P. */
  lemma Convolution(f0: int, f1: int, f2: int, f3: int, f4: int,
                    g0: int, g1: int, g2: int, g3: int, g4: int)
    ensures Radix(f0, f1, f2, f3, f4) * Radix(g0, g1, g2, g3, g4)
            == Radix(f0 * g0 + 19 * (f1 * g4 + f2 * g3 + f3 * g2 + f4 * g1),
                     f0 * g1 + f1 * g0 + 19 * (f2 * g4 + f3 * g3 + f4 * g2),
                     f0 * g2 + f1 * g1 + f2 * g0 + 19 * (f3 * g4 + f4 * g3),
                     f0 * g3 + f1 * g2 + f2 * g1 + f3 * g0 + 19 * (f4 * g4),
                     f0 * g4 + f1 * g3 + f2 * g2 + f3 * g1 + f4 * g0)
               + Overflow(f0, f1, f2, f3, f4, g0, g1, g2, g3, g4) * P()
  {
    var G := Radix(g0, g1, g2, g3, g4);
    RadixScale(G, f0, f1, f2, f3, f4);
    Row(f0, g0, g1, g2, g3, g4);
    Row(f1, g0, g1, g2, g3, g4);
    Row(f2, g0, g1, g2, g3, g4);
    Row(f3, g0, g1, g2, g3, g4);
    Row(f4, g0, g1, g2, g3, g4);
  }

  lemma Row(x: int, h0: int, h1: int, h2: int, h3: int, h4: int)
    ensures x * Radix(h0, h1, h2, h3, h4) == Radix(h0 * x, h1 * x, h2 * x, h3 * x, h4 * x)
  {
    hide Radix;
    RadixScale(x, h0, h1, h2, h3, h4);
  }

  /** The equations the column sums `h`, the carries `k` and the result limbs `r` satisfy. */
  ghost predicate Folded(h0: int, h1: int, h2: int, h3: int, h4: int, r: Limbs,
                         k0: int, k1: int, k2: int, k3: int, k4: int) {
    && h0 + 19 * k4 == r[0] as int + 0x8_0000_0000_0000 * k0
    && h1 + k0 == r[1] as int + 0x8_0000_0000_0000 * k1
    && h2 + k1 == r[2] as int + 0x8_0000_0000_0000 * k2
    && h3 + k2 == r[3] as int + 0x8_0000_0000_0000 * k3
    && h4 + k3 == r[4] as int + 0x8_0000_0000_0000 * k4
  }

  lemma FoldedVal(h0: int, h1: int, h2: int, h3: int, h4: int, r: Limbs,
                  k0: int, k1: int, k2: int, k3: int, k4: int)
    requires Folded(h0, h1, h2, h3, h4, r, k0, k1, k2, k3, k4)
    ensures Val(r) == Radix(h0, h1, h2, h3, h4) - k4 * P()
  {
  }

  lemma ProductMod(x: int, y: int, h: int, r: int, over: int, k: int, n: int)
    requires n > 0
    requires x * y == h + over * n
    requires r == h - k * n
    ensures r % n == ((x % n) * (y % n)) % n
  {
    Distribute(over, -k, n);
    Distribute(over, k, n);
    assert r == x * y + (-(over + k)) * n;
    AddMultiple(x * y, -(over + k), n);
    ModMul(x, y, n);
  }

  /** The column sum of the products whose limb indices add up to `k` modulo 5, those that
      wrap around weighted by 19. */
  function Column(f: Limbs, g: Limbs, k: nat): int
    requires k < 5
  {
    var f0, f1, f2, f3, f4 := f[0] as int, f[1] as int, f[2] as int, f[3] as int, f[4] as int;
    var g0, g1, g2, g3, g4 := g[0] as int, g[1] as int, g[2] as int, g[3] as int, g[4] as int;
    match k
    case 0 => f0 * g0 + 19 * (f1 * g4 + f2 * g3 + f3 * g2 + f4 * g1)
    case 1 => f0 * g1 + f1 * g0 + 19 * (f2 * g4 + f3 * g3 + f4 * g2)
    case 2 => f0 * g2 + f1 * g1 + f2 * g0 + 19 * (f3 * g4 + f4 * g3)
    case 3 => f0 * g3 + f1 * g2 + f2 * g1 + f3 * g0 + 19 * (f4 * g4)
    case 4 => f0 * g4 + f1 * g3 + f2 * g2 + f3 * g1 + f4 * g0
  }

  lemma ProductElem(f: Limbs, g: Limbs, r: Limbs, k0: int, k1: int, k2: int, k3: int, k4: int)
    requires Folded(Column(f, g, 0), Column(f, g, 1), Column(f, g, 2), Column(f, g, 3), Column(f, g, 4),
                    r, k0, k1, k2, k3, k4)
    ensures Elem(r) == FMul(Elem(f), Elem(g))
  {
    var over := ColumnsVal(f, g);
    hide Column, Radix, Val, P, Folded;
    FoldedVal(Column(f, g, 0), Column(f, g, 1), Column(f, g, 2), Column(f, g, 3), Column(f, g, 4),
              r, k0, k1, k2, k3, k4);
    ProductMod(Val(f), Val(g),
               Radix(Column(f, g, 0), Column(f, g, 1), Column(f, g, 2), Column(f, g, 3), Column(f, g, 4)),
               Val(r), over, k4, P());
  }

  lemma ColumnsVal(f: Limbs, g: Limbs) returns (over: int)
    ensures Val(f) * Val(g)
            == Radix(Column(f, g, 0), Column(f, g, 1), Column(f, g, 2), Column(f, g, 3), Column(f, g, 4))
               + over * P()
  {
    hide Radix, P;
    Convolution(f[0] as int, f[1] as int, f[2] as int, f[3] as int, f[4] as int,
                g[0] as int, g[1] as int, g[2] as int, g[3] as int, g[4] as int);
    over := Overflow(f[0] as int, f[1] as int, f[2] as int, f[3] as int, f[4] as int,
                     g[0] as int, g[1] as int, g[2] as int, g[3] as int, g[4] as int);
  }

  /** The five 128-bit column sums; none overflows. */
  method Columns(f: array<u64>, g: array<u64>) returns (h0: u128, h1: u128, h2: u128, h3: u128, h4: u128)
    requires f.Length == g.Length == 5
    requires Tight(f[..]) && Tight(g[..])
    ensures h0 as int == Column(f[..], g[..], 0) && h1 as int == Column(f[..], g[..], 1)
    ensures h2 as int == Column(f[..], g[..], 2) && h3 as int == Column(f[..], g[..], 3)
    ensures h4 as int == Column(f[..], g[..], 4)
    ensures h0 < 0x2000_0000_0000_0000_0000_0000_0000 && h1 < 0x2000_0000_0000_0000_0000_0000_0000
    ensures h2 < 0x2000_0000_0000_0000_0000_0000_0000 && h3 < 0x2000_0000_0000_0000_0000_0000_0000
    ensures h4 < 0x140_0000_0000_0000_0000_0000_0000
  {
    hide Wide;
    h0 := Wide(f[0], g[0]) + 19 * (Wide(f[1], g[4]) + Wide(f[2], g[3]) + Wide(f[3], g[2]) + Wide(f[4], g[1]));
    h1 := Wide(f[0], g[1]) + Wide(f[1], g[0]) + 19 * (Wide(f[2], g[4]) + Wide(f[3], g[3]) + Wide(f[4], g[2]));
    h2 := Wide(f[0], g[2]) + Wide(f[1], g[1]) + Wide(f[2], g[0]) + 19 * (Wide(f[3], g[4]) + Wide(f[4], g[3]));
    h3 := Wide(f[0], g[3]) + Wide(f[1], g[2]) + Wide(f[2], g[1]) + Wide(f[3], g[0]) + 19 * Wide(f[4], g[4]);
    h4 := Wide(f[0], g[4]) + Wide(f[1], g[3]) + Wide(f[2], g[2]) + Wide(f[3], g[1]) + Wide(f[4], g[0]);
  }

  const WIDE51: u128 := 0x8_0000_0000_0000

  /** Carries the column sums down to limbs of 51 bits, the carry out of the top folded into
      the lowest limb. */
  method FoldColumns(out: array<u64>, c0: u128, c1: u128, c2: u128, c3: u128, c4: u128)
    returns (ghost k0: int, ghost k1: int, ghost k2: int, ghost k3: int, ghost k4: int)
    requires out.Length == 5
    requires c0 < 0x2000_0000_0000_0000_0000_0000_0000 && c1 < 0x2000_0000_0000_0000_0000_0000_0000
    requires c2 < 0x2000_0000_0000_0000_0000_0000_0000 && c3 < 0x2000_0000_0000_0000_0000_0000_0000
    requires c4 < 0x140_0000_0000_0000_0000_0000_0000
    modifies out
    ensures Loose(out[..])
    ensures Folded(c0 as int, c1 as int, c2 as int, c3 as int, c4 as int, out[..], k0, k1, k2, k3, k4)
  {
    hide Loose;
    out[0] := (c0 % WIDE51) as u64;
    var h1 := c1 + c0 / WIDE51;
    out[1] := (h1 % WIDE51) as u64;
    var h2 := c2 + h1 / WIDE51;
    out[2] := (h2 % WIDE51) as u64;
    var h3 := c3 + h2 / WIDE51;
    out[3] := (h3 % WIDE51) as u64;
    var h4 := c4 + h3 / WIDE51;
    out[4] := (h4 % WIDE51) as u64;
    out[0] := out[0] + (h4 / WIDE51) as u64 * 19;
    k0, k1, k2 := (c0 / WIDE51) as int, (h1 / WIDE51) as int, (h2 / WIDE51) as int;
    k3, k4 := (h3 / WIDE51) as int, (h4 / WIDE51) as int;
    HalfIsLoose(out[..]);
  }

  method Mul(out: array<u64>, f: array<u64>, g: array<u64>)
    requires out.Length == f.Length == g.Length == 5
    requires Fe(f) && Fe(g)
    modifies out
    ensures Fe(out) && El(out) == FMul(old(El(f)), old(El(g)))
  {
    hide Elem, Column, FMul, Tight, Folded, Loose;
    var h0, h1, h2, h3, h4 := Columns(f, g);
    ghost var k0, k1, k2, k3, k4 := FoldColumns(out, h0, h1, h2, h3, h4);
    ProductElem(old(f[..]), old(g[..]), out[..], k0, k1, k2, k3, k4);
    Reduce(out);
  }

  method Square(out: array<u64>, a: array<u64>)
    requires out.Length == a.Length == 5
    requires Fe(a)
    modifies out
    ensures Fe(out) && El(out) == FMul(old(El(a)), old(El(a)))
  {
    hide *;
    Mul(out, a, a);
  }

  // ----- copies, constants, conditional swap -----

  method Copy(out: array<u64>, a: array<u64>)
    requires out.Length == a.Length == 5
    modifies out
    ensures El(out) == old(El(a)) && (old(Fe(a)) ==> Fe(out))
  {
    for i := 0 to 5
      invariant forall k :: 0 <= k < i ==> out[k] == old(a[k])
      invariant forall k :: i <= k < 5 ==> a[k] == old(a[k])
    {
      out[i] := a[i];
    }
    assert out[..] == old(a[..]);
  }

  lemma SmallElem(x: u64)
    requires x < TWO51
    ensures Elem([x, 0, 0, 0, 0]) == x as int && Tight([x, 0, 0, 0, 0])
  {
    var s: Limbs := [x, 0, 0, 0, 0];
    assert Val(s) == x as int < P();
    hide P, Val;
    Small(x as int, P());
  }

  method SetOne(out: array<u64>)
    requires out.Length == 5
    modifies out
    ensures Fe(out) && El(out) == 1
  {
    hide Elem;
    SmallElem(1);
    out[0] := 1;
    out[1] := 0;
    out[2] := 0;
    out[3] := 0;
    out[4] := 0;
    assert out[..] == [1, 0, 0, 0, 0];
  }

  method SetZero(out: array<u64>)
    requires out.Length == 5
    modifies out
    ensures Fe(out) && El(out) == 0
  {
    hide Elem;
    SmallElem(0);
    for i := 0 to 5
      invariant forall k :: 0 <= k < i ==> out[k] == 0
    {
      out[i] := 0;
    }
    assert out[..] == [0, 0, 0, 0, 0];
  }

  /** The two limbs `a` and `b` after a swap masked by `mask`. */
  lemma MaskedSwap(a: u64, b: u64, mask: u64)
    requires mask == 0 || mask == 0xFFFF_FFFF_FFFF_FFFF
    ensures var t := And(mask as int, Xor(a as int, b as int));
            if mask == 0 then Xor(a as int, t) == a as int && Xor(b as int, t) == b as int
            else Xor(a as int, t) == b as int && Xor(b as int, t) == a as int
  {
    hide Xor, And;
    var x := Xor(a as int, b as int);
    if mask == 0 {
      ZeroOperand(x);
      ZeroOperand(a as int);
      ZeroOperand(b as int);
    } else {
      Pow2Values();
      XorBound(a as int, b as int, 64);
      AndOnes(x, 64);
      XorCancel(a as int, b as int);
      XorCommutes(a as int, b as int);
      XorCancel(b as int, a as int);
    }
  }

  /** Constant-time swap by masked exclusive-or; `swap` is 0 or 1. */
  method ConditionalSwap(a: array<u64>, b: array<u64>, swap: u8)
    requires a.Length == b.Length == 5 && a != b
    requires swap == 0 || swap == 1
    modifies a, b
    ensures swap == 0 ==> a[..] == old(a[..]) && b[..] == old(b[..])
    ensures swap == 1 ==> a[..] == old(b[..]) && b[..] == old(a[..])
    ensures old(Fe(a) && Fe(b)) ==> Fe(a) && Fe(b)
    ensures El(a) == if swap == 1 then old(El(b)) else old(El(a))
    ensures El(b) == if swap == 1 then old(El(a)) else old(El(b))
  {
    hide Xor, And, Elem, Tight;
    var mask: u64 := ((0 - swap as int) % 0x1_0000_0000_0000_0000) as u64;
    for i := 0 to 5
      invariant forall k :: i <= k < 5 ==> a[k] == old(a[k]) && b[k] == old(b[k])
      invariant swap == 0 ==> forall k :: 0 <= k < i ==> a[k] == old(a[k]) && b[k] == old(b[k])
      invariant swap == 1 ==> forall k :: 0 <= k < i ==> a[k] == old(b[k]) && b[k] == old(a[k])
    {
      var t := And(mask as int, Xor(a[i] as int, b[i] as int));
      MaskedSwap(a[i], b[i], mask);
      a[i] := Xor(a[i] as int, t) as u64;
      b[i] := Xor(b[i] as int, t) as u64;
    }
  }

  // ----- inversion -----

  function ExponentBit(bit: nat): nat {
    if bit == 2 || bit == 4 || bit >= 255 then 0 else 1
  }

  /** The exponent whose binary digits, from bit 254 down to `bit`, are the `ExponentBit`s. */
  function ExponentPrefix(bit: nat): nat
    decreases 255 - bit
  {
    if bit >= 255 then 0 else 2 * ExponentPrefix(bit + 1) + ExponentBit(bit)
  }

  lemma {:induction false} ExponentHigh(bit: nat)
    requires 5 <= bit <= 255
    ensures ExponentPrefix(bit) == Pow2(255 - bit) - 1
    decreases 255 - bit
  {
    if bit < 255 {
      ExponentHigh(bit + 1);
    }
  }

  lemma Pow2At250()
    ensures Pow2(250) == 0x400_0000_0000_0000_0000_0000_0000_0000_0000_0000_0000_0000_0000_0000_0000_0000
  {
    Pow2Values();
    Pow2Add(128, 64);
    Pow2Add(192, 32);
    Pow2Add(224, 16);
    Pow2Add(240, 8);
    Pow2Add(248, 2);
  }

  /** The bit test walks exactly the exponent P - 2. */
  lemma ExponentIsPMinus2()
    ensures ExponentPrefix(0) == P() - 2
  {
    ExponentHigh(5);
    Pow2At250();
    assert ExponentPrefix(4) == 2 * ExponentPrefix(5);
    assert ExponentPrefix(3) == 2 * ExponentPrefix(4) + 1;
    assert ExponentPrefix(2) == 2 * ExponentPrefix(3);
    assert ExponentPrefix(1) == 2 * ExponentPrefix(2) + 1;
  }

  lemma ExponentStep(e: int, bit: nat)
    requires bit < 255
    ensures var x := PowMod(e, ExponentPrefix(bit + 1), P());
            PowMod(e, ExponentPrefix(bit), P())
            == if ExponentBit(bit) == 1 then FMul(FMul(x, x), e) else FMul(x, x)
  {
    var k := ExponentPrefix(bit + 1);
    assert ExponentPrefix(bit) == 2 * k + ExponentBit(bit);
    hide PowMod, FMul, P, ExponentPrefix;
    PowSteps(e, k);
  }

  lemma PowSteps(e: int, k: nat)
    ensures PowMod(e, 2 * k, P()) == FMul(PowMod(e, k, P()), PowMod(e, k, P()))
    ensures PowMod(e, 2 * k + 1, P()) == FMul(FMul(PowMod(e, k, P()), PowMod(e, k, P())), e)
  {
    hide P;
    PowModDouble(e, k, P());
    assert PowMod(e, 2 * k + 1, P()) == (PowMod(e, 2 * k, P()) * e) % P();
  }

  lemma ExponentEnds(e: int)
    ensures PowMod(e, ExponentPrefix(255), P()) == 1
    ensures PowMod(e, ExponentPrefix(0), P()) == PowMod(e, P() - 2, P())
  {
    ExponentIsPMinus2();
    hide P;
    Small(1, P());
  }

  /** One square-and-multiply step. */
  method InvertStep(result: array<u64>, base: array<u64>, bit: nat, ghost e: int)
    requires bit < 255 && result.Length == base.Length == 5 && result != base
    requires Fe(result) && Fe(base) && El(base) == e
    requires El(result) == PowMod(e, ExponentPrefix(bit + 1), P())
    modifies result
    ensures Fe(result) && El(result) == PowMod(e, ExponentPrefix(bit), P())
  {
    var scratch := new u64[5];
    hide *;
    ExponentStep(e, bit);
    Square(scratch, result);
    if ExponentBit(bit) == 1 {
      Copy(result, scratch);
      Mul(scratch, result, base);
    }
    Copy(result, scratch);
  }

  /** Inversion by Fermat: the result represents z^(P-2). */
  method Invert(out: array<u64>, z: array<u64>)
    requires out.Length == z.Length == 5 && Fe(z)
    modifies out
    ensures Fe(out) && El(out) == PowMod(old(El(z)), P() - 2, P())
  {
    ghost var e := El(z);
    var result := new u64[5];
    var base := new u64[5];
    hide *;
    SetOne(result);
    Copy(base, z);
    ExponentEnds(e);
    for bit := 255 downto 0
      invariant Fe(result) && Fe(base) && El(base) == e
      invariant El(result) == PowMod(e, ExponentPrefix(bit), P())
    {
      InvertStep(result, base, bit, e);
    }
    Copy(out, result);
  }
}
