/** Why 2 to the power n never leaves one when it is divided by an odd n above one. */
module PowersOfTwo {
  import opened Counting
  import opened Modular
  import Algebra = SrpAlgebra

  /** p is the least divisor of n above one. */
  ghost predicate LeastDivisor(p: nat, n: nat) {
    p > 1 && n % p == 0 && forall d: nat :: 1 < d < p ==> n % d != 0
  }

  lemma {:induction false} LeastDivisorFrom(n: nat, k: nat) returns (p: nat)
    requires 1 < k <= n && forall d: nat :: 1 < d < k ==> n % d != 0
    ensures LeastDivisor(p, n) && p <= n
    decreases n - k
  {
    ModUnique(n, 1, 0, n);
    if n % k == 0 {
      p := k;
    } else {
      p := LeastDivisorFrom(n, k + 1);
    }
  }

  /** A divisor of an odd number is odd. */
  lemma DivisorOdd(p: nat, n: nat)
    requires p > 1 && n % p == 0 && n % 2 == 1
    ensures p % 2 == 1
  {
    var j, r, m := p / 2, p % 2, n / p;
    assert n == m * p && p == 2 * j + r;
    assert m * (2 * j + r) == 2 * (m * j) + m * r;
  }

  /** What is one modulo n is one modulo every divisor of n. */
  lemma OneModuloDivisor(a: int, p: nat, n: nat)
    requires p > 1 && n > 1 && n % p == 0 && a % n == 1
    ensures a % p == 1
  {
    var q, m := a / n, n / p;
    assert a == 1 + q * (m * p);
    assert q * (m * p) == (q * m) * p by { MulAssoc(q, m, p); }
    CongFromMultiple(a, 1, q * m, p);
    ModUnique(1, 0, 1, p);
  }

  lemma TwoIsUnit(p: nat)
    requires p > 1 && p % 2 == 1
    ensures Unit(2, (p + 1) / 2, p)
  {
    ModUnique(2 * ((p + 1) / 2), 1, 1, p);
  }

  /** The first p powers of two cannot all differ modulo p, and where two meet their quotient is one. */
  lemma SomePowerIsOne(p: nat) returns (d: nat)
    requires p > 1 && p % 2 == 1
    ensures 0 < d < p && ModPow(2, d, p) == 1
  {
    var powers := seq(p, i requires 0 <= i => ModPow(2, i, p));
    forall i | 0 <= i < p ensures 1 <= powers[i] < p {
      TwoIsUnit(p);
      UnitPow(2, (p + 1) / 2, i, p);
      Algebra.UnitNotZero(Pow(2, i), Pow((p + 1) / 2, i), p);
    }
    if forall i, j :: 0 <= i < j < p ==> powers[i] != powers[j] {
      DistinctInRange(powers, 1, p);
      assert false;
    }
    var i, j :| 0 <= i < j < p && powers[i] == powers[j];
    d := j - i;
    QuotientIsOne(i, d, p);
  }

  lemma QuotientIsOne(i: nat, d: nat, p: nat)
    requires p > 1 && p % 2 == 1 && ModPow(2, i, p) == ModPow(2, i + d, p)
    ensures ModPow(2, d, p) == 1
  {
    TwoIsUnit(p);
    UnitPow(2, (p + 1) / 2, i, p);
    PowAdd(2, i, d);
    CancelCommon(Pow(2, i), Pow((p + 1) / 2, i), Pow(2, d), 1, p);
    ModUnique(1, 0, 1, p);
  }

  /** What two powers of two that are one leave of each other is one as well. */
  lemma RemainderIsOne(n: nat, d: nat, p: nat)
    requires d > 0 && p > 1 && ModPow(2, n, p) == 1 && ModPow(2, d, p) == 1
    ensures ModPow(2, n % d, p) == 1
  {
    var q, r := n / d, n % d;
    assert d * q + r == n;
    PowAdd(2, d * q, r);
    PowPow(2, d, q);
    ModUnique(1, 0, 1, p);
    CongPow(Pow(2, d), 1, q, p);
    PowOne(q);
    CongScale(Pow(2, d * q), 1, Pow(2, r), p);
  }

  /** Euclid's descent: no exponent below the least divisor p of n can go with n, for only 1 divides n below it. */
  lemma {:induction false} Descent(n: nat, p: nat, d: nat)
    requires LeastDivisor(p, n) && 0 < d < p && ModPow(2, d, p) == 1
    ensures ModPow(2, n, p) != 1
    decreases d
  {
    if ModPow(2, n, p) == 1 {
      RemainderIsOne(n, d, p);
      if n % d == 0 {
        assert d == 1;
        assert Pow(2, 1) == 2 * Pow(2, 0) == 2;
        OnlyTwo(p);
      } else {
        Descent(n, p, n % d);
      }
    }
  }

  lemma OnlyTwo(p: nat)
    requires p > 1
    ensures 2 % p != 1
  {
    if p > 2 {
      ModUnique(2, 0, 2, p);
    }
  }

  /** 2^n is never one modulo an odd n above one. */
  lemma PowerIsNotOne(n: nat)
    requires n > 1 && n % 2 == 1
    ensures ModPow(2, n, n) != 1
  {
    var p := LeastDivisorFrom(n, 2);
    DivisorOdd(p, n);
    var d := SomePowerIsOne(p);
    Descent(n, p, d);
    if ModPow(2, n, n) == 1 {
      OneModuloDivisor(Pow(2, n), p, n);
    }
  }

  /** So 2^(2n) and 2^(3n) are not both one: their quotient is 2^n. */
  lemma TwiceOrThrice(n: nat)
    requires n > 1 && n % 2 == 1
    ensures ModPow(2, 2 * n, n) != 1 || ModPow(2, 3 * n, n) != 1
  {
    if ModPow(2, 2 * n, n) == 1 && ModPow(2, 3 * n, n) == 1 {
      PowerIsNotOne(n);
      PowAdd(2, 2 * n, n);
      ModUnique(1, 0, 1, n);
      CongScale(Pow(2, 2 * n), 1, Pow(2, n), n);
    }
  }
}
