/** Facts about Euclidean remainders with a symbolic modulus. */
module ModArith {

  lemma Distribute(a: int, b: int, c: int)
    ensures (a + b) * c == a * c + b * c
    ensures (a - b) * c == a * c - b * c
  {
  }

  lemma MulGap(d: int, n: int)
    requires n > 0
    ensures d >= 1 ==> d * n >= n
    ensures d <= -1 ==> d * n <= -n
  {
  }

  lemma MulSign(x: int, y: int)
    requires x >= 0 && y >= 0
    ensures x * y >= 0
  {
  }

  lemma MulBound(x: int, y: int, a: int, b: int)
    requires 0 <= x <= a && 0 <= y <= b
    ensures 0 <= x * y <= a * b
  {
    MulSign(x, y);
    MulSign(a - x, y);
    Distribute(a, x, y);
    MulSign(b - y, a);
    Distribute(b, y, a);
  }

  lemma ModUnique(x: int, n: int, q: int, r: int)
    requires n > 0 && 0 <= r < n
    requires x == q * n + r
    ensures x % n == r && x / n == q
  {
    var d := x / n - q;
    Distribute(x / n, q, n);
    MulGap(d, n);
  }

  lemma AddMultiple(x: int, k: int, n: int)
    requires n > 0
    ensures (x + k * n) % n == x % n
  {
    Distribute(x / n, k, n);
    ModUnique(x + k * n, n, x / n + k, x % n);
  }

  /** Dividing twice is dividing by the product. */
  lemma DivDiv(x: int, d: int, e: int)
    requires d > 0 && e > 0
    ensures d * e > 0 && x / (d * e) == (x / d) / e
  {
    var q, r := x / d, x % d;
    var q', r' := q / e, q % e;
    MulSign(d - 1, e - 1);
    Distribute(d - 1, 1, e - 1);
    assert d * e > 0;
    MulBound(d, r', d, e - 1);
    Distribute(d * e, 0, 1);
    assert x == q' * (d * e) + (d * r' + r) by { Regroup(q', d, e, r', r, x, q); }
    assert d * (e - 1) == d * e - d;
    ModUnique(x, d * e, q', d * r' + r);
  }

  lemma Regroup(q': int, d: int, e: int, r': int, r: int, x: int, q: int)
    requires x == d * q + r && q == e * q' + r'
    ensures x == q' * (d * e) + (d * r' + r)
  {
    Distribute(e * q', r', d);
    assert (e * q') * d == q' * (d * e);
  }

  /** A field of `t` values taken out of a word of `e * t * k` values is the same field of the
      whole number. */
  lemma FieldOfWord(y: int, e: int, t: int, k: int)
    requires e > 0 && t > 0 && k > 0 && e * (t * k) > 0
    ensures ((y % (e * (t * k))) / e) % t == (y / e) % t
  {
    var m := e * (t * k);
    var q, w := y / m, y % m;
    var v, r := w / e, w % e;
    assert y == (q * (t * k) + v) * e + r by { RegroupField(y, q, w, e, t * k, v, r); }
    ModUnique(y, e, q * (t * k) + v, r);
    assert q * (t * k) == (q * k) * t;
    AddMultiple(v, q * k, t);
  }

  lemma RegroupField(y: int, q: int, w: int, e: int, n: int, v: int, r: int)
    requires y == q * (e * n) + w && w == v * e + r
    ensures y == (q * n + v) * e + r
  {
    Distribute(q * n, v, e);
    assert (q * n) * e == q * (e * n);
  }

  lemma AddLeft(a: int, b: int, n: int)
    requires n > 0
    ensures (a % n + b) % n == (a + b) % n
  {
    var q, r := a / n, a % n;
    AddMultiple(r + b, q, n);
    assert r + b + q * n == a + b;
  }

  lemma ModAdd(a: int, b: int, n: int)
    requires n > 0
    ensures (a % n + b % n) % n == (a + b) % n
  {
    AddLeft(a, b % n, n);
    AddLeft(b, a, n);
  }

  lemma ModSub(a: int, b: int, n: int)
    requires n > 0
    ensures (a % n - b % n) % n == (a - b) % n
  {
    AddLeft(a, -(b % n), n);
    var q, r := b / n, b % n;
    AddMultiple(a - b, q, n);
    assert a - b + q * n == a - r;
  }

  lemma ModMul(a: int, b: int, n: int)
    requires n > 0
    ensures ((a % n) * (b % n)) % n == (a * b) % n
    ensures ((a % n) * b) % n == (a * b) % n
  {
    MulLeft(a, b, n);
    MulLeft(b, a % n, n);
    assert (a % n) * (b % n) == (b % n) * (a % n);
    assert (a % n) * b == b * (a % n);
  }

  lemma MulLeft(a: int, b: int, n: int)
    requires n > 0
    ensures ((a % n) * b) % n == (a * b) % n
  {
    var q := a / n;
    assert a == n * q + a % n;
    calc {
      a * b;
      (n * q + a % n) * b;
      (a % n) * b + (n * q) * b;
      { assert (n * q) * b == (q * b) * n; }
      (a % n) * b + (q * b) * n;
    }
    AddMultiple((a % n) * b, q * b, n);
  }

  lemma Small(x: int, n: int)
    requires 0 <= x < n
    ensures x % n == x
  {
    ModUnique(x, n, 0, x);
  }

  /** `x` to the power `e` modulo `n`, the reference for both exponentiation loops. */
  function PowMod(x: int, e: nat, n: int): (r: int)
    requires n > 0
    ensures 0 <= r < n
  {
    if e == 0 then 1 % n else (PowMod(x, e - 1, n) * x) % n
  }

  lemma PowModNext(x: int, e: nat, n: int)
    requires n > 0
    ensures PowMod(x, e + 1, n) == (PowMod(x, e, n) * x) % n && PowMod(x, 0, n) == 1 % n
  {
  }

  lemma TimesOne(p: int, n: int)
    requires 0 <= p < n
    ensures (p * (1 % n)) % n == p
  {
    MulLeft(1, p, n);
    Commute(1 % n, p);
    Small(p, n);
  }

  lemma Commute(x: int, y: int)
    ensures x * y == y * x
  {
  }

  /** One more factor on the right of a product of residues. */
  lemma PushFactor(p: int, q: int, x: int, n: int)
    requires n > 0
    ensures (((p * q) % n) * x) % n == (p * ((q * x) % n)) % n
  {
    MulLeft(p * q, x, n);
    MulLeft(q * x, p, n);
    Commute((q * x) % n, p);
    assert (p * q) * x == (q * x) * p;
  }

  lemma {:induction false} PowModAdd(x: int, a: nat, b: nat, n: int)
    requires n > 0
    ensures PowMod(x, a + b, n) == (PowMod(x, a, n) * PowMod(x, b, n)) % n
    decreases b
  {
    hide PowMod;
    if b == 0 {
      PowModNext(x, 0, n);
      TimesOne(PowMod(x, a, n), n);
    } else {
      PowModAdd(x, a, b - 1, n);
      PowModNext(x, a + b - 1, n);
      PowModNext(x, b - 1, n);
      PushFactor(PowMod(x, a, n), PowMod(x, b - 1, n), x, n);
    }
  }

  lemma PowModDouble(x: int, e: nat, n: int)
    requires n > 0
    ensures PowMod(x, 2 * e, n) == (PowMod(x, e, n) * PowMod(x, e, n)) % n
  {
    PowModAdd(x, e, e, n);
  }
}
