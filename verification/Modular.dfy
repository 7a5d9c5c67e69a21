/** Powers and residues: the laws that both key exchanges rest on. */
module Modular {

  function Pow(b: int, e: nat): int {
    if e == 0 then 1 else b * Pow(b, e - 1)
  }

  /** The value of the three-argument power of the source: the remainder is never negative. */
  function ModPow(b: int, e: nat, m: nat): (r: nat)
    requires m > 0
    ensures r < m
  {
    Pow(b, e) % m
  }

  lemma {:induction false} PowAdd(b: int, x: nat, y: nat)
    ensures Pow(b, x + y) == Pow(b, x) * Pow(b, y)
  {
    if x > 0 {
      PowAdd(b, x - 1, y);
      assert b * (Pow(b, x - 1) * Pow(b, y)) == (b * Pow(b, x - 1)) * Pow(b, y);
    }
  }

  lemma {:induction false} PowOne(e: nat)
    ensures Pow(1, e) == 1
  {
    if e > 0 { PowOne(e - 1); }
  }

  lemma MulSwap(a: int, b: int, c: int, d: int)
    ensures (a * b) * (c * d) == (a * c) * (b * d)
  {
    MulAssoc(a, b, c * d);
    MulAssoc(b, c, d);
    MulAssoc(c, b, d);
    MulAssoc(a, c, b * d);
  }

  lemma MulAssoc(a: int, b: int, c: int)
    ensures (a * b) * c == a * (b * c)
  {
  }

  lemma {:induction false} PowTimes(a: int, b: int, e: nat)
    ensures Pow(a * b, e) == Pow(a, e) * Pow(b, e)
  {
    if e > 0 {
      PowTimes(a, b, e - 1);
      var p, q := Pow(a, e - 1), Pow(b, e - 1);
      MulSwap(a, b, p, q);
    }
  }

  lemma {:induction false} PowPow(b: int, x: nat, y: nat)
    ensures Pow(Pow(b, x), y) == Pow(b, x * y)
    decreases y
  {
    if y > 0 {
      PowPow(b, x, y - 1);
      assert x * y == x + x * (y - 1);
      PowAdd(b, x, x * (y - 1));
    } else {
      assert x * y == 0;
    }
  }

  /** a and b leave the same remainder. */
  ghost predicate Cong(a: int, b: int, m: nat)
    requires m > 0
  {
    a % m == b % m
  }

  lemma CongFromMultiple(a: int, b: int, k: int, m: nat)
    requires m > 0 && a == b + k * m
    ensures Cong(a, b, m)
  {
    var q, r := b / m, b % m;
    assert a == (q + k) * m + r;
    ModUnique(a, q + k, r, m);
  }

  lemma ModUnique(a: int, q: int, r: nat, m: nat)
    requires m > 0 && r < m && a == q * m + r
    ensures a / m == q && a % m == r
  {
    var d := a / m - q;
    assert a == (a / m) * m + a % m;
    assert d * m == r - a % m;
    MultipleInRange(d, m);
  }

  /** Only the zero multiple of m lies strictly between -m and m. */
  lemma MultipleInRange(d: int, m: nat)
    requires 0 - m < d * m < m
    ensures d == 0
  {
  }

  lemma CongMul(a: int, b: int, c: int, d: int, m: nat)
    requires m > 0 && Cong(a, b, m) && Cong(c, d, m)
    ensures Cong(a * c, b * d, m)
  {
    CongScale(a, b, c, m);
    CongScale(c, d, b, m);
  }

  lemma CongScale(a: int, b: int, c: int, m: nat)
    requires m > 0 && Cong(a, b, m)
    ensures Cong(a * c, b * c, m) && Cong(c * a, c * b, m)
  {
    var k := a / m - b / m;
    assert a == b + k * m;
    assert (k * m) * c == (k * c) * m by { MulAssoc(k, m, c); MulAssoc(k, c, m); }
    assert a * c == b * c + (k * c) * m;
    CongFromMultiple(a * c, b * c, k * c, m);
  }

  lemma {:induction false} CongPow(a: int, b: int, e: nat, m: nat)
    requires m > 0 && Cong(a, b, m)
    ensures Cong(Pow(a, e), Pow(b, e), m)
  {
    if e > 0 {
      CongPow(a, b, e - 1, m);
      CongMul(a, b, Pow(a, e - 1), Pow(b, e - 1), m);
    }
  }

  /** Reducing the base first does not change a modular power. */
  lemma ModPowOfResidue(a: int, e: nat, m: nat)
    requires m > 0
    ensures ModPow(a % m, e, m) == ModPow(a, e, m)
  {
    CongFromMultiple(a, a % m, a / m, m);
    CongPow(a, a % m, e, m);
  }

  /** A power of a residue of a power: exponents multiply. */
  lemma ModPowPow(b: int, x: nat, y: nat, m: nat)
    requires m > 0
    ensures ModPow(ModPow(b, x, m), y, m) == ModPow(b, x * y, m)
  {
    ModPowOfResidue(Pow(b, x), y, m);
    PowPow(b, x, y);
  }

  /** A product of residues of powers: exponents add. */
  lemma ModPowMul(b: int, x: nat, y: nat, m: nat)
    requires m > 0
    ensures (ModPow(b, x, m) * ModPow(b, y, m)) % m == ModPow(b, x + y, m)
  {
    var p, q := Pow(b, x), Pow(b, y);
    CongFromMultiple(p, p % m, p / m, m);
    CongFromMultiple(q, q % m, q / m, m);
    CongMul(p, p % m, q, q % m, m);
    PowAdd(b, x, y);
  }

  /** Diffie-Hellman: both sides reach one secret. */
  lemma DiffieHellman(g: int, a: nat, b: nat, m: nat)
    requires m > 0
    ensures ModPow(ModPow(g, a, m), b, m) == ModPow(ModPow(g, b, m), a, m)
  {
    ModPowPow(g, a, b, m);
    ModPowPow(g, b, a, m);
    assert a * b == b * a;
  }

  /** h undoes a multiplication by g. */
  ghost predicate Unit(g: int, h: int, n: nat) {
    n > 1 && (g * h) % n == 1
  }

  lemma {:induction false} UnitPow(g: int, h: int, e: nat, n: nat)
    requires Unit(g, h, n)
    ensures Unit(Pow(g, e), Pow(h, e), n)
  {
    PowTimes(g, h, e);
    CongPow(g * h, 1, e, n);
    PowOne(e);
  }

  /** A unit can be cancelled. */
  lemma CancelCommon(p: int, h: int, q: int, r: int, n: nat)
    requires Unit(p, h, n)
    ensures Cong(p * q, p * r, n) <==> Cong(q, r, n)
  {
    Undone(p, h, q, n);
    Undone(p, h, r, n);
    if Cong(p * q, p * r, n) {
      CongScale(p * q, p * r, h, n);
    }
    if Cong(q, r, n) {
      CongScale(q, r, p, n);
    }
  }

  lemma Undone(p: int, h: int, q: int, n: nat)
    requires Unit(p, h, n)
    ensures Cong(h * (p * q), q, n)
  {
    CongScale(h * p, 1, q, n);
    assert h * (p * q) == (h * p) * q by { MulAssoc(h, p, q); }
  }
}
