/**
 The Montgomery ladder of section 5 of RFC 7748 over the integers modulo 2^255 - 19, and what it
 computes: multiples of a point of the curve y^2 = x^3 + 486662 x^2 + x by doubling and adding.
 */
module MontgomeryCurve {
  import opened Machine
  import opened ModArith
  import opened Bits
  import opened Endian
  import opened Field51

  // ----- the reference: section 5 of RFC 7748 -----

  /** The two projective points of the ladder. */
  datatype Rung = Rung(x2: int, z2: int, x3: int, z3: int)

  const A24: int := 121665

  function Swapped(r: Rung, swap: nat): Rung {
    if swap == 1 then Rung(r.x3, r.z3, r.x2, r.z2) else r
  }

  /** The body of the reference loop after the conditional swap. */
  function DoubleAndAdd(x1: int, r: Rung): Rung {
    var a := FAdd(r.x2, r.z2);
    var aa := FMul(a, a);
    var b := FSub(r.x2, r.z2);
    var bb := FMul(b, b);
    var e := FSub(aa, bb);
    var c := FAdd(r.x3, r.z3);
    var d := FSub(r.x3, r.z3);
    var da := FMul(d, a);
    var cb := FMul(c, b);
    var s := FAdd(da, cb);
    var t := FSub(da, cb);
    Rung(FMul(aa, bb), FMul(e, FAdd(aa, FMul(A24, e))), FMul(s, s), FMul(x1, FMul(t, t)))
  }

  function ScalarBit(k: nat, t: nat): nat {
    (k / Pow2(t)) % 2
  }

  /** The rungs after handling the scalar bits 254 down to `t`, and the pending swap bit. */
  function Ladder(k: nat, u: int, t: nat): (Rung, nat)
    requires t <= 255
    decreases 255 - t
  {
    if t == 255 then (Rung(1, 0, u, 1), 0)
    else
      var (r, swap) := Ladder(k, u, t + 1);
      var kt := ScalarBit(k, t);
      (DoubleAndAdd(u, Swapped(r, (swap + kt) % 2)), kt)
  }

  /** The u-coordinate X25519(k, u) as an integer below P. */
  function Montgomery(k: nat, u: int): int {
    var (r, swap) := Ladder(k, u, 0);
    var s := Swapped(r, swap);
    FMul(s.x2, PowMod(s.z2, P() - 2, P()))
  }

  // ----- what a rung computes -----

  function Sq(x: int): int {
    x * x
  }

  /** Twice the point with the projective coordinate x : z on y^2 = x^3 + 486662 x^2 + x. */
  function DoubleX(x: int, z: int): int {
    TwiceX(x, z) % P()
  }

  function DoubleZ(x: int, z: int): int {
    TwiceZ(x, z) % P()
  }

  function TwiceX(x: int, z: int): int {
    Sq(x * x - z * z)
  }

  function TwiceZ(x: int, z: int): int {
    4 * (x * z) * (x * x + 486662 * (x * z) + z * z)
  }

  /** The sum of the points x : z and y : w whose difference has the coordinate `u`. */
  function AddX(x: int, z: int, y: int, w: int): int {
    (4 * Sq(x * y - z * w)) % P()
  }

  function AddZ(u: int, x: int, z: int, y: int, w: int): int {
    (4 * (u * Sq(y * z - w * x))) % P()
  }

  lemma ProductOf(f: int, x: int, g: int, y: int)
    requires f == x % P() && g == y % P()
    ensures FMul(f, g) == (x * y) % P()
  {
    hide P;
    ModMul(x, y, P());
  }

  lemma SumOf(f: int, x: int, g: int, y: int)
    requires f == x % P() && g == y % P()
    ensures FAdd(f, g) == (x + y) % P() && FSub(f, g) == (x - y) % P()
  {
    hide P;
    ModAdd(x, y, P());
    ModSub(x, y, P());
  }

  lemma MultipleOf(k: int, g: int, y: int)
    requires g == y % P()
    ensures FMul(k, g) == (k * y) % P()
  {
    hide P;
    MulLeft(y, k, P());
    Commute(g, k);
    Commute(y, k);
  }

  lemma SquaresDiffer(x: int, z: int)
    ensures (x + z) * (x + z) - (x - z) * (x - z) == 4 * (x * z)
    ensures (x + z) * (x + z) + 121665 * (4 * (x * z)) == x * x + 486662 * (x * z) + z * z
    ensures ((x + z) * (x + z)) * ((x - z) * (x - z)) == Sq(x * x - z * z)
  {
    var a, b := x + z, x - z;
    assert a * b == x * x - z * z;
    assert (a * a) * (b * b) == (a * b) * (a * b) by { Square4(a, b); }
  }

  lemma Square4(a: int, b: int)
    ensures (a * a) * (b * b) == (a * b) * (a * b)
  {
  }

  lemma RungDoubles(u: int, r: Rung)
    ensures DoubleAndAdd(u, r).x2 == DoubleX(r.x2, r.z2)
    ensures DoubleAndAdd(u, r).z2 == DoubleZ(r.x2, r.z2)
  {
    var x, z := r.x2, r.z2;
    var a, b := FAdd(x, z), FSub(x, z);
    var aa, bb := FMul(a, a), FMul(b, b);
    var e := FSub(aa, bb);
    var s, d := (x + z) * (x + z), (x - z) * (x - z);
    hide P;
    assert a == (x + z) % P() && b == (x - z) % P();
    hide FAdd, FSub, FMul;
    ProductOf(a, x + z, a, x + z);
    ProductOf(b, x - z, b, x - z);
    ProductOf(aa, s, bb, d);
    SumOf(aa, s, bb, d);
    MultipleOf(A24, e, s - d);
    SumOf(aa, s, FMul(A24, e), A24 * (s - d));
    ProductOf(e, s - d, FAdd(aa, FMul(A24, e)), s + A24 * (s - d));
    SquaresDiffer(x, z);
    hide Sq;
  }

  lemma CrossSums(x: int, z: int, y: int, w: int)
    ensures (y - w) * (x + z) + (y + w) * (x - z) == 2 * (x * y - z * w)
    ensures (y - w) * (x + z) - (y + w) * (x - z) == 2 * (y * z - w * x)
  {
  }

  lemma SquareOfTwice(c: int)
    ensures (2 * c) * (2 * c) == 4 * Sq(c)
  {
  }

  lemma CrossTerms(r: Rung, da: int, cb: int)
    requires da == FMul(FSub(r.x3, r.z3), FAdd(r.x2, r.z2)) && cb == FMul(FAdd(r.x3, r.z3), FSub(r.x2, r.z2))
    ensures FAdd(da, cb) == (2 * (r.x2 * r.x3 - r.z2 * r.z3)) % P()
    ensures FSub(da, cb) == (2 * (r.x3 * r.z2 - r.z3 * r.x2)) % P()
  {
    var x, z, y, w := r.x2, r.z2, r.x3, r.z3;
    var a, b, c, d := FAdd(x, z), FSub(x, z), FAdd(y, w), FSub(y, w);
    hide P;
    assert a == (x + z) % P() && b == (x - z) % P() && c == (y + w) % P() && d == (y - w) % P();
    hide FAdd, FSub, FMul;
    ProductOf(d, y - w, a, x + z);
    ProductOf(c, y + w, b, x - z);
    SumOf(da, (y - w) * (x + z), cb, (y + w) * (x - z));
    CrossSums(x, z, y, w);
  }

  lemma SquareMod(s: int, c: int)
    requires s == (2 * c) % P()
    ensures FMul(s, s) == (4 * Sq(c)) % P()
  {
    hide P;
    ProductOf(s, 2 * c, s, 2 * c);
    SquareOfTwice(c);
    hide Sq, FMul;
  }

  lemma Quadruple(u: int, c: int)
    ensures u * (4 * c) == 4 * (u * c)
  {
  }

  /** What one iteration computes: the first point doubled, and the sum of the two, given their difference. */
  lemma RungIs(u: int, r: Rung)
    ensures DoubleAndAdd(u, r) == Rung(DoubleX(r.x2, r.z2), DoubleZ(r.x2, r.z2),
                                       AddX(r.x2, r.z2, r.x3, r.z3), AddZ(u, r.x2, r.z2, r.x3, r.z3))
  {
    var da, cb := FMul(FSub(r.x3, r.z3), FAdd(r.x2, r.z2)), FMul(FAdd(r.x3, r.z3), FSub(r.x2, r.z2));
    var s, t := FAdd(da, cb), FSub(da, cb);
    hide P, FAdd, FSub, FMul, Sq, DoubleX, DoubleZ;
    RungDoubles(u, r);
    CrossTerms(r, da, cb);
    SquareMod(s, r.x2 * r.x3 - r.z2 * r.z3);
    SquareMod(t, r.x3 * r.z2 - r.z3 * r.x2);
    MultipleOf(u, FMul(t, t), 4 * Sq(r.x3 * r.z2 - r.z3 * r.x2));
    Quadruple(u, Sq(r.x3 * r.z2 - r.z3 * r.x2));
  }

  // ----- what the ladder computes -----

  /** The `n`-fold and the (n + 1)-fold of the point with coordinate `u`, by doubling and adding
      along the binary digits of `n`. */
  function Multiples(u: int, n: nat): Rung {
    if n == 0 then Rung(1, 0, u, 1)
    else
      var r := Multiples(u, n / 2);
      var x, z := AddX(r.x2, r.z2, r.x3, r.z3), AddZ(u, r.x2, r.z2, r.x3, r.z3);
      if n % 2 == 0 then Rung(DoubleX(r.x2, r.z2), DoubleZ(r.x2, r.z2), x, z)
      else Rung(x, z, DoubleX(r.x3, r.z3), DoubleZ(r.x3, r.z3))
  }

  lemma AddSymmetric(u: int, x: int, z: int, y: int, w: int)
    ensures AddX(x, z, y, w) == AddX(y, w, x, z) && AddZ(u, x, z, y, w) == AddZ(u, y, w, x, z)
  {
    hide P, Sq;
    assert x * y == y * x && z * w == w * z;
    SameSquare(y * z, w * x);
    assert y * z == z * y && w * x == x * w;
  }

  lemma SameSquare(a: int, b: int)
    ensures Sq(a - b) == Sq(b - a)
  {
  }

  lemma HalfScalar(k: nat, t: nat)
    ensures var n := k / Pow2(t); 0 <= n && n / 2 == k / Pow2(t + 1) && n % 2 == ScalarBit(k, t)
  {
    hide Pow2;
    Pow2Add(t, 1);
    Pow2One();
    DivDiv(k, Pow2(t), 2);
  }

  lemma LadderStep(k: nat, u: int, t: nat)
    requires t < 255
    ensures var (r, swap) := Ladder(k, u, t + 1);
            Ladder(k, u, t)
            == (DoubleAndAdd(u, Swapped(r, (swap + ScalarBit(k, t)) % 2)), ScalarBit(k, t))
  {
  }

  lemma OddStep(u: int, m: Rung)
    ensures DoubleAndAdd(u, Swapped(m, 1))
         == Rung(DoubleX(m.x3, m.z3), DoubleZ(m.x3, m.z3),
                 AddX(m.x2, m.z2, m.x3, m.z3), AddZ(u, m.x2, m.z2, m.x3, m.z3))
  {
    RungIs(u, Swapped(m, 1));
    AddSymmetric(u, m.x2, m.z2, m.x3, m.z3);
    hide DoubleAndAdd, DoubleX, DoubleZ, AddX, AddZ;
  }

  lemma SwapTwice(r: Rung, swap: nat, bit: nat)
    requires swap <= 1 && bit <= 1
    ensures Swapped(r, (swap + bit) % 2) == Swapped(Swapped(r, swap), bit)
  {
  }

  /** In every state of the ladder the rungs, their pending swap done, are the multiples that the
      scalar bits handled so far spell: one step with its swap undone is one step of the recursion. */
  lemma {:induction false} LadderIsMultiples(k: nat, u: int, t: nat)
    requires t <= 255 && k / Pow2(254) == 1 && k / Pow2(255) == 0
    ensures 0 <= k / Pow2(t) && (t < 255 ==> k / Pow2(t) > 0)
    ensures Ladder(k, u, t).1 <= 1
    ensures Swapped(Ladder(k, u, t).0, Ladder(k, u, t).1) == Multiples(u, k / Pow2(t))
    decreases 255 - t
  {
    hide Pow2, DoubleAndAdd, ScalarBit, DoubleX, DoubleZ, AddX, AddZ;
    if t == 255 {
      MultiplesNone(u);
    } else {
      LadderIsMultiples(k, u, t + 1);
      HalfScalar(k, t);
      LadderStep(k, u, t);
      var (r, swap) := Ladder(k, u, t + 1);
      hide Ladder;
      assert k / Pow2(t) > 0;
      SwapTwice(r, swap, ScalarBit(k, t));
      RungIs(u, Swapped(r, swap));
      OddStep(u, Swapped(r, swap));
    }
  }

  lemma MultiplesNone(u: int)
    ensures Multiples(u, 0) == Rung(1, 0, u, 1)
  {
  }

  /** The affine coordinate of x : z, by way of the power that inverts `z`. */
  function Affine(x: int, z: int): int {
    FMul(x, PowMod(z, P() - 2, P()))
  }

  /** The reference is the affine coordinate of the `k`-fold of the point. */
  lemma MontgomeryIs(k: nat, u: int)
    requires k / Pow2(254) == 1 && k / Pow2(255) == 0
    ensures Montgomery(k, u) == Affine(Multiples(u, k).x2, Multiples(u, k).z2)
  {
    Pow2Zero();
    hide P, FMul, Pow2, Ladder, Multiples, DoubleAndAdd, PowMod;
    LadderIsMultiples(k, u, 0);
    ByOne(k);
  }

  lemma ByOne(k: nat)
    ensures k / 1 == k
  {
  }

  /** Whenever `z` to the power P - 1 is one, which is Fermat's theorem for `z` not divisible by the
      prime P, the affine coordinate times `z` is `x`. */
  lemma AffineDivides(x: int, z: int)
    requires PowMod(z, P() - 1, P()) == 1
    ensures (Affine(x, z) * z) % P() == x % P()
  {
    var n := P();
    hide P;
    var w := PowMod(z, n - 2, n);
    PowModNext(z, n - 2, n);
    assert (w * z) % n == 1;
    MulLeft(x * w, z, n);
    assert (x * w) * z == (w * z) * x by { Rotate(x, w, z); }
    MulLeft(w * z, x, n);
  }

  lemma Rotate(x: int, w: int, z: int)
    ensures (x * w) * z == (w * z) * x
  {
  }

  // ----- why these are the doubling and the addition of the curve -----

  /** x^3 + 486662 x^2 + x */
  function Curve(x: int): int {
    x * (x * x + 486662 * x + 1)
  }

  /** The tangent at (x, y) has the slope m / 2y and meets the curve again above m^2 / 4y^2 - 486662 - 2x;
      with y^2 from the equation of the curve that is the doubling formula. */
  lemma DoubleIsTangent(x: int)
    ensures var m := 3 * (x * x) + 2 * 486662 * x + 1;
      TwiceX(x, 1) == m * m - (486662 + 2 * x) * (4 * Curve(x)) && TwiceZ(x, 1) == 4 * Curve(x)
  {
    DoubleArguments(x, 1);
    TangentIdentity(x, 486662);
    hide Sq;
  }

  lemma DoubleArguments(x: int, z: int)
    requires z == 1
    ensures Sq(x * x - z * z) == (x * x - 1) * (x * x - 1)
    ensures 4 * (x * z) * (x * x + 486662 * (x * z) + z * z) == 4 * Curve(x)
  {
    assert x * z == x && z * z == 1;
    Factor4(x, x * x + 486662 * x + 1);
  }

  lemma Factor4(x: int, f: int)
    ensures 4 * x * f == 4 * (x * f)
  {
  }

  lemma TangentIdentity(x: int, a: int)
    ensures var m := 3 * (x * x) + 2 * a * x + 1;
      m * m - (a + 2 * x) * (4 * (x * (x * x + a * x + 1))) == (x * x - 1) * (x * x - 1)
  {
  }

  /** Numerator over (x - v)^2 of the coordinate in which the chord through (x, y) and (v, w) meets the
      curve again: the coordinate of the sum of the two points. */
  function ChordX(x: int, y: int, v: int, w: int): int {
    Sq(y - w) - (486662 + x + v) * Sq(x - v)
  }

  /** If `u` is the coordinate of the difference of two points, the sum of (x, y) and (v, -w), then the
      addition formula gives the coordinate of their sum: the fractions are equal. */
  lemma AddIsSum(u: int, x: int, y: int, v: int, w: int)
    requires (y * y) % P() == Curve(x) % P() && (w * w) % P() == Curve(v) % P()
    requires (u * Sq(x - v)) % P() == ChordX(x, y, v, -w) % P()
    ensures (ChordX(x, y, v, w) * AddZ(u, x, 1, v, 1)) % P() == (Sq(x - v) * AddX(x, 1, v, 1)) % P()
  {
    AddIsChord(x, y, v, w);
    AddAffine(u, x, v);
    var n3, n4, d, e := ChordX(x, y, v, w), ChordX(x, y, v, -w), Sq(x - v), Sq(x * v - 1);
    hide ChordX, Sq, Curve, AddX, AddZ;
    CrossMultiply(u, n3, n4, d, e, P());
  }

  lemma CrossMultiply(u: int, n3: int, n4: int, d: int, e: int, n: int)
    requires n > 0 && (u * d) % n == n4 % n && (n3 * n4) % n == (e * d) % n
    ensures (n3 * ((4 * (u * d)) % n)) % n == (d * ((4 * e) % n)) % n
  {
    ModMul(n3, u * d, n);
    ModMul(n3, n4, n);
    assert (n3 * (u * d)) % n == (e * d) % n;
    MulRight(n3, 4 * (u * d), n);
    MulRight(d, 4 * e, n);
    assert n3 * (4 * (u * d)) == 4 * (n3 * (u * d)) by { Pull4(n3, u * d); }
    assert d * (4 * e) == 4 * (e * d) by { Pull4(d, e); Commute(d, e); }
    MulRight(4, n3 * (u * d), n);
    MulRight(4, e * d, n);
  }

  lemma MulRight(a: int, b: int, n: int)
    requires n > 0
    ensures (a * (b % n)) % n == (a * b) % n
  {
    MulLeft(b, a, n);
    Commute(b % n, a);
    Commute(a, b);
  }

  lemma Pull4(a: int, b: int)
    ensures a * (4 * b) == 4 * (a * b)
  {
  }

  lemma AddAffine(u: int, x: int, v: int)
    ensures AddX(x, 1, v, 1) == (4 * Sq(x * v - 1)) % P() && AddZ(u, x, 1, v, 1) == (4 * (u * Sq(x - v))) % P()
  {
    SameSquare(x, v);
    hide P, Sq;
    assert 1 * 1 == 1 && v * 1 == v && 1 * x == x;
  }

  /** The product of the coordinates of the sum and the difference, each over (x - v)^2. */
  lemma AddIsChord(x: int, y: int, v: int, w: int)
    requires (y * y) % P() == Curve(x) % P() && (w * w) % P() == Curve(v) % P()
    ensures (ChordX(x, y, v, w) * ChordX(x, y, v, -w)) % P() == (Sq(x * v - 1) * Sq(x - v)) % P()
  {
    var c := (486662 + x + v) * Sq(x - v);
    hide P;
    ChordProduct(y, w, c);
    assert y - -w == y + w;
    SameQuadratic(y * y, Curve(x), w * w, Curve(v), c, P());
    ChordIdentity(x, v, 486662);
  }

  lemma ChordProduct(y: int, w: int, c: int)
    ensures (Sq(y - w) - c) * (Sq(y + w) - c) == Quadratic(y * y, w * w, c)
  {
    assert Sq(y - w) == y * y + w * w - 2 * (y * w);
    assert Sq(y + w) == y * y + w * w + 2 * (y * w);
    Conjugates(y * y + w * w - c, 2 * (y * w));
    assert (2 * (y * w)) * (2 * (y * w)) == 4 * ((y * y) * (w * w));
  }

  lemma Conjugates(s: int, t: int)
    ensures (s - t) * (s + t) == s * s - t * t
  {
  }

  function Quadratic(a: int, b: int, c: int): int {
    Sq(a + b - c) - 4 * (a * b)
  }

  /** Its value modulo `n` depends on `a` and `b` modulo `n` only. */
  lemma SameQuadratic(a: int, a': int, b: int, b': int, c: int, n: int)
    requires n > 0 && a % n == a' % n && b % n == b' % n
    ensures Quadratic(a, b, c) % n == Quadratic(a', b', c) % n
  {
    var s, s' := a + b - c, a' + b' - c;
    ModAdd(a, b, n);
    ModAdd(a', b', n);
    AddLeft(a + b, -c, n);
    AddLeft(a' + b', -c, n);
    ModMul(s, s, n);
    ModMul(s', s', n);
    ModMul(a, b, n);
    ModMul(a', b', n);
    ModMul(4, a * b, n);
    ModMul(4, a' * b', n);
    ModSub(s * s, 4 * (a * b), n);
    ModSub(s' * s', 4 * (a' * b'), n);
  }

  /** In terms of the sum and the product of the two coordinates. */
  lemma ChordIdentity(x: int, v: int, a: int)
    ensures Quadratic(x * (x * x + a * x + 1), v * (v * v + a * v + 1), (a + x + v) * Sq(x - v))
         == Sq(x * v - 1) * Sq(x - v)
  {
    var s, p := x + v, x * v;
    var f, g := x * (x * x + a * x + 1), v * (v * v + a * v + 1);
    ChordSum(x, v, a);
    ChordCurves(x, v, a);
    assert Sq(x - v) == s * s - 4 * p;
    var q := p * p + a * (p * s) + s * s - 2 * p + a * (a * p) + a * s + 1;
    Discriminant(p, s, a);
    assert f + g - (a + x + v) * Sq(x - v) == (p + 1) * s + 2 * (a * p);
    assert f * g == p * q;
    hide Sq;
  }

  lemma ChordSum(x: int, v: int, a: int)
    ensures x * (x * x + a * x + 1) + v * (v * v + a * v + 1) - (a + x + v) * Sq(x - v)
         == (x * v + 1) * (x + v) + 2 * (a * (x * v))
  {
  }

  lemma ChordCurves(x: int, v: int, a: int)
    ensures var s, p := x + v, x * v;
      (x * (x * x + a * x + 1)) * (v * (v * v + a * v + 1))
      == p * (p * p + a * (p * s) + s * s - 2 * p + a * (a * p) + a * s + 1)
  {
    var f, g := x * x + a * x + 1, v * v + a * v + 1;
    assert (x * f) * (v * g) == (x * v) * (f * g) by { Swap4(x, f, v, g); }
    CurveFactors(x, v, a);
  }

  lemma Swap4(x: int, f: int, v: int, g: int)
    ensures (x * f) * (v * g) == (x * v) * (f * g)
  {
  }

  lemma CurveFactors(x: int, v: int, a: int)
    ensures var s, p := x + v, x * v;
      (x * x + a * x + 1) * (v * v + a * v + 1) == p * p + a * (p * s) + s * s - 2 * p + a * (a * p) + a * s + 1
  {
  }

  lemma Discriminant(p: int, s: int, a: int)
    ensures var q := p * p + a * (p * s) + s * s - 2 * p + a * (a * p) + a * s + 1;
      Sq((p + 1) * s + 2 * (a * p)) - 4 * (p * q) == Sq(p - 1) * (s * s - 4 * p)
  {
    CurveTerms(p, s, a, a * p);
    DiscriminantOf(p, s, a * p);
  }

  lemma CurveTerms(p: int, s: int, a: int, t: int)
    requires t == a * p
    ensures p * (p * p + a * (p * s) + s * s - 2 * p + a * (a * p) + a * s + 1)
         == p * (p * p) + p * (t * s) + p * (s * s) - 2 * (p * p) + t * t + t * s + p
  {
    TermProducts(p, s, a, t);
    SevenTerms(p, p * p, a * (p * s), s * s, a * t, a * s);
  }

  lemma TermProducts(p: int, s: int, a: int, t: int)
    requires t == a * p
    ensures a * (p * s) == t * s && p * (a * t) == t * t && p * (a * s) == t * s
  {
  }

  lemma SevenTerms(p: int, x: int, u: int, y: int, v: int, w: int)
    ensures p * (x + u + y - 2 * p + v + w + 1) == p * x + p * u + p * y - 2 * (p * p) + p * v + p * w + p
  {
  }

  lemma DiscriminantOf(p: int, s: int, t: int)
    ensures Sq((p + 1) * s + 2 * t)
            - 4 * (p * (p * p) + p * (t * s) + p * (s * s) - 2 * (p * p) + t * t + t * s + p)
         == Sq(p - 1) * (s * s - 4 * p)
  {
    LeftSquare(p, s, t);
    RightProduct(p, s * s);
    assert (p * s) * (p * s) == (p * p) * (s * s) by { Square4(p, s); }
    hide Sq;
  }

  lemma LeftSquare(p: int, s: int, t: int)
    ensures Sq((p + 1) * s + 2 * t)
         == (p * s) * (p * s) + 2 * (p * (s * s)) + s * s + 4 * (p * (t * s)) + 4 * (t * s) + 4 * (t * t)
  {
    var m := p * s;
    assert (p + 1) * s == m + s;
    assert m * s == p * (s * s) && m * t == p * (t * s);
    ThreeSquare(m, s, t);
  }

  lemma ThreeSquare(m: int, s: int, t: int)
    ensures Sq(m + s + 2 * t) == m * m + 2 * (m * s) + s * s + 4 * (m * t) + 4 * (t * s) + 4 * (t * t)
  {
  }

  lemma RightProduct(p: int, q: int)
    ensures Sq(p - 1) * (q - 4 * p) == (p * p) * q - 2 * (p * q) + q - 4 * (p * (p * p)) + 8 * (p * p) - 4 * p
  {
    assert Sq(p - 1) == p * p - 2 * p + 1;
  }
}
