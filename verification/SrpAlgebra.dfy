/** Why both ends of the exchange reach one secret, and exactly when they do not. */
module SrpAlgebra {
  import opened Modular

  /** Dave's public value for the verifier v and his exponent b. */
  function Offer(g: int, n: nat, v: nat, b: nat): nat
    requires n > 0
  {
    (3 * v + ModPow(g, b, n)) % n
  }

  /** The secret Alice computes from Dave's public value B. */
  function AliceShare(g: int, n: nat, B: nat, x: nat, a: nat, u: nat): nat
    requires n > 0
  {
    ModPow(B - 3 * ModPow(g, x, n), (a + u * x) % n, n)
  }

  /** The secret Dave computes from Alice's public value A and her verifier v. */
  function DaveShare(n: nat, A: nat, v: nat, u: nat, b: nat): nat
    requires n > 0
  {
    ModPow(A * ModPow(v, u, n), b, n)
  }

  /** The two secrets are one when both sides send what the protocol tells them to. */
  predicate Agree(g: int, n: nat, a: nat, b: nat, x: nat, u: nat)
    requires n > 0
  {
    var v := ModPow(g, x, n);
    AliceShare(g, n, Offer(g, n, v, b), x, a, u) == DaveShare(n, ModPow(g, a, n), v, u, b)
  }

  /** Dave's power: (A * v^u)^b with A = g^a and v = g^x is g^((a + ux) b). */
  lemma DavePower(g: int, n: nat, a: nat, b: nat, x: nat, u: nat)
    requires n > 0
    ensures ModPow(ModPow(g, a, n) * ModPow(ModPow(g, x, n), u, n), b, n) == ModPow(g, (a + u * x) * b, n)
  {
    ModPowPow(g, x, u, n);
    assert x * u == u * x;
    var product := ModPow(g, a, n) * ModPow(g, u * x, n);
    ModPowMul(g, a, u * x, n);
    ModPowOfResidue(product, b, n);
    ModPowPow(g, a + u * x, b, n);
  }

  /** Alice's power: (B - 3 g^x)^e with B = 3v + g^b is g^(b e). */
  lemma AlicePower(g: int, n: nat, b: nat, x: nat, e: nat)
    requires n > 0
    ensures var v := ModPow(g, x, n);
            ModPow(Offer(g, n, v, b) - 3 * v, e, n) == ModPow(g, b * e, n)
  {
    var v := ModPow(g, x, n);
    var w := ModPow(g, b, n);
    var B := (3 * v + w) % n;
    var q := (3 * v + w) / n;
    assert 3 * v + w == q * n + B;
    assert B - 3 * v == w + (-q) * n by {
      assert (-q) * n == -(q * n);
    }
    CongFromMultiple(B - 3 * v, w, -q, n);
    CongPow(B - 3 * v, w, e, n);
    ModPowPow(g, b, e, n);
  }

  /** A unit is never zero modulo n. */
  lemma UnitNotZero(p: int, q: int, n: nat)
    requires Unit(p, q, n)
    ensures p % n != 0
  {
    if p % n == 0 {
      CongScale(p, 0, q, n);
    }
  }

  lemma CancelUnit(p: int, h: int, q: int, n: nat)
    requires Unit(p, h, n)
    ensures Cong(p * q, p, n) <==> q % n == 1
  {
    CongScale(h * p, 1, q, n);
    assert h * (p * q) == (h * p) * q by { MulAssoc(h, p, q); }
    if Cong(p * q, p, n) {
      CongScale(p * q, p, h, n);
      assert Cong(q, h * p, n);
    }
    if q % n == 1 {
      CongScale(q, 1, p, n);
    }
  }

  lemma SplitExponent(e: nat, b: nat, r: nat, k: nat)
    requires e == r + k
    ensures e * b == b * r + b * k
  {
  }

  /** Dropping t from an exponent is harmless exactly when g^t is one. */
  lemma DroppedExponent(g: int, h: int, n: nat, s: nat, t: nat)
    requires Unit(g, h, n)
    ensures ModPow(g, s, n) == ModPow(g, s + t, n) <==> ModPow(g, t, n) == 1
  {
    PowAdd(g, s, t);
    UnitPow(g, h, s, n);
    CancelUnit(Pow(g, s), Pow(h, s), Pow(g, t), n);
  }

  /** How often the modulus is taken off the exponent a + ux; zero exactly when the exponent is below it. */
  function Wraps(a: nat, u: nat, x: nat, n: nat): (k: nat)
    requires n > 0
  {
    (a + u * x) / n
  }

  lemma WrapsZeroIff(e: nat, n: nat)
    requires n > 0
    ensures e / n == 0 <==> e < n
  {
    if e < n {
      ModUnique(e, 0, e, n);
    }
  }

  /** With the largest exponent that is drawn, a product u x from 1 to n takes the modulus off once. */
  lemma OneWrap(u: nat, x: nat, n: nat)
    requires 1 <= u * x <= n
    ensures Wraps(n - 1, u, x, n) == 1
  {
    ModUnique(n - 1 + u * x, 1, u * x - 1, n);
  }

  lemma SharePowers(g: int, n: nat, a: nat, b: nat, x: nat, u: nat, kept: nat, dropped: nat)
    requires n > 0 && kept == (a + u * x) % n && kept + dropped == a + u * x
    ensures var v := ModPow(g, x, n);
            && AliceShare(g, n, Offer(g, n, v, b), x, a, u) == ModPow(g, b * kept, n)
            && DaveShare(n, ModPow(g, a, n), v, u, b) == ModPow(g, b * kept + b * dropped, n)
  {
    AlicePower(g, n, b, x, kept);
    DavePower(g, n, a, b, x, u);
    SplitExponent(a + u * x, b, kept, dropped);
  }

  lemma QuotientTimes(e: nat, n: nat) returns (kept: nat, dropped: nat)
    requires n > 0
    ensures kept == e % n && dropped == n * (e / n) && kept + dropped == e
  {
    kept, dropped := e % n, n * (e / n);
  }

  /**
   The exponent a + ux is reduced modulo n before Alice raises to it. Writing it as r + n k, the two
   shares agree if and only if the dropped part is trivial: g^(b n k) is one.
   */
  lemma SharesAgreeIff(g: int, h: int, n: nat, a: nat, b: nat, x: nat, u: nat)
    requires Unit(g, h, n)
    ensures Agree(g, n, a, b, x, u)
       <==> ModPow(g, b * (n * Wraps(a, u, x, n)), n) == 1
  {
    var kept, dropped := QuotientTimes(a + u * x, n);
    SharePowers(g, n, a, b, x, u, kept, dropped);
    DroppedExponent(g, h, n, b * kept, b * dropped);
  }

  /** Below the modulus nothing is dropped, and the shares always agree. */
  lemma SharesAgree(g: int, n: nat, a: nat, b: nat, x: nat, u: nat)
    requires n > 0 && a + u * x < n
    ensures Agree(g, n, a, b, x, u)
  {
    var e := a + u * x;
    assert e % n == e;
    AlicePower(g, n, b, x, e);
    DavePower(g, n, a, b, x, u);
    assert b * e == e * b;
  }

  /** When g^(n-1) is one, raising to n c is raising to c. */
  lemma FermatPower(g: int, n: nat, c: nat)
    requires n > 1 && ModPow(g, n - 1, n) == 1
    ensures ModPow(g, n * c, n) == ModPow(g, c, n)
  {
    var p := Pow(g, n - 1);
    PowPow(g, n, c);
    PowPow(g, n - 1, c);
    PowTimes(p, g, c);
    CongPow(p, 1, c, n);
    PowOne(c);
    CongScale(Pow(p, c), 1, Pow(g, c), n);
    assert Pow(g, n) == p * g;
  }

  /** For a modulus with g^(n-1) = 1, as Fermat's theorem gives for a prime, the dropped part is g^(b k). */
  lemma SharesAgreeIffPrime(g: int, h: int, n: nat, a: nat, b: nat, x: nat, u: nat)
    requires Unit(g, h, n) && ModPow(g, n - 1, n) == 1
    ensures Agree(g, n, a, b, x, u)
       <==> ModPow(g, b * Wraps(a, u, x, n), n) == 1
  {
    SharesAgreeIff(g, h, n, a, b, x, u);
    FermatProduct(g, n, b, Wraps(a, u, x, n));
  }

  lemma FermatProduct(g: int, n: nat, b: nat, k: nat)
    requires n > 1 && ModPow(g, n - 1, n) == 1
    ensures ModPow(g, b * (n * k), n) == ModPow(g, b * k, n)
  {
    MulAssoc(b, n, k);
    MulAssoc(n, b, k);
    FermatPower(g, n, b * k);
  }
}
