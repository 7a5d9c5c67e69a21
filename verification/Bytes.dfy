/** Byte strings: big-endian integers, exclusive or, and runs of zero bytes. */
module Bytes {
  type byte = bv8
  type bytes = seq<byte>

  /** The value of a four-bit byte, bit by bit. */
  function NibbleValue(b: byte): (n: nat)
    ensures n < 16
  {
    (if b & 8 != 0 then 8 else 0) + (if b & 4 != 0 then 4 else 0)
    + (if b & 2 != 0 then 2 else 0) + (if b & 1 != 0 then 1 else 0)
  }

  function Nibble(n: nat): (b: byte)
    requires n < 16
    ensures b < 16 && NibbleValue(b) == n
  {
    var n2 := if n >= 8 then n - 8 else n;
    var n1 := if n2 >= 4 then n2 - 4 else n2;
    var n0 := if n1 >= 2 then n1 - 2 else n1;
    (if n >= 8 then 8 else 0) | (if n2 >= 4 then 4 else 0) | (if n1 >= 2 then 2 else 0) | (if n0 >= 1 then 1 else 0)
  }

  /** The value of a byte, between 0 and 255. */
  function Ord(b: byte): (n: nat)
    ensures n < 256
  {
    16 * NibbleValue(b >> 4) + NibbleValue(b & 15)
  }

  /** The byte with a given value. */
  function Chr(n: nat): (b: byte)
    requires n < 256
    ensures Ord(b) == n
  {
    NibblesMeet(Nibble(n / 16), Nibble(n % 16));
    (Nibble(n / 16) << 4) | Nibble(n % 16)
  }

  lemma NibblesMeet(hi: byte, lo: byte)
    requires hi < 16 && lo < 16
    ensures ((hi << 4) | lo) >> 4 == hi && ((hi << 4) | lo) & 15 == lo
  {
  }

  lemma NibbleInjective(a: byte, b: byte)
    requires a < 16 && b < 16 && NibbleValue(a) == NibbleValue(b)
    ensures a == b
  {
  }

  lemma OrdInjective(a: byte, b: byte)
    requires Ord(a) == Ord(b)
    ensures a == b
  {
    NibbleInjective(a >> 4, b >> 4);
    NibbleInjective(a & 15, b & 15);
    NibblesJoin(a);
    NibblesJoin(b);
  }

  lemma NibblesJoin(a: byte)
    ensures a >> 4 < 16 && a & 15 < 16 && ((a >> 4) << 4) | (a & 15) == a
  {
  }

  /** Put together from its bits, the value of a byte is the number it stands for. */
  lemma OrdIsValue(b: byte)
    ensures Ord(b) == b as nat
  {
    NibblesJoin(b);
    NibbleIsValue(b >> 4);
    NibbleIsValue(b & 15);
  }

  lemma NibbleIsValue(b: byte)
    requires b < 16
    ensures NibbleValue(b) == b as nat
  {
  }

  /** 256 to the power n. */
  function Pow256(n: nat): (p: nat)
    ensures p > 0
  {
    if n == 0 then 1 else 256 * Pow256(n - 1)
  }

  /** Big-endian value of a byte string of any length. */
  function FromBytes(b: bytes): nat {
    if b == [] then 0 else 256 * FromBytes(b[..|b| - 1]) + Ord(b[|b| - 1])
  }

  /** Minimal big-endian digits: no digit at all for zero, no leading zero byte. */
  function Digits(n: nat): bytes {
    if n == 0 then [] else Digits(n / 256) + [Chr(n % 256)]
  }

  lemma {:induction false} FromDigits(n: nat)
    ensures FromBytes(Digits(n)) == n
    ensures n > 0 ==> |Digits(n)| > 0 && Digits(n)[0] != 0
  {
    if n > 0 {
      FromDigits(n / 256);
      assert Digits(n)[..|Digits(n)| - 1] == Digits(n / 256);
      OrdOfZero();
      hide Ord, Chr;
      assert FromBytes(Digits(n)) == 256 * FromBytes(Digits(n / 256)) + Ord(Chr(n % 256));
      if n / 256 == 0 {
        assert Ord(Chr(n % 256)) == n;
      }
    }
  }

  lemma OrdOfZero()
    ensures Ord(0) == 0
  {
  }

  /** A byte string of length n stands for a number below 256^n. */
  lemma {:induction false} FromBytesBound(b: bytes)
    ensures FromBytes(b) < Pow256(|b|)
  {
    if b != [] {
      FromBytesBound(b[..|b| - 1]);
    }
  }

  lemma FromBytesSnoc(a: bytes, d: byte)
    ensures FromBytes(a + [d]) == 256 * FromBytes(a) + Ord(d)
  {
    assert (a + [d])[..|a|] == a;
  }

  lemma TimesPow256(v: nat, n: nat)
    ensures v * Pow256(n + 1) == 256 * (v * Pow256(n))
  {
    var p := Pow256(n);
    assert v * (256 * p) == 256 * (v * p);
  }

  /** Two byte strings of one length with one value are the same string. */
  lemma {:induction false} FromBytesInjective(a: bytes, b: bytes)
    requires |a| == |b| && FromBytes(a) == FromBytes(b)
    ensures a == b
  {
    if a != [] {
      var n := |a| - 1;
      SplitByte(FromBytes(a[..n]), Ord(a[n]), FromBytes(b[..n]), Ord(b[n]));
      OrdInjective(a[n], b[n]);
      FromBytesInjective(a[..n], b[..n]);
      assert a == a[..n] + [a[n]] && b == b[..n] + [b[n]];
    }
  }

  lemma SplitByte(p: nat, d: nat, q: nat, e: nat)
    requires d < 256 && e < 256 && 256 * p + d == 256 * q + e
    ensures p == q && d == e
  {
  }

  /** The digits of a number from its bytes: leading zero bytes are what gets lost. */
  lemma {:induction false} DigitsOfBytes(b: bytes)
    requires b == [] || b[0] != 0
    ensures Digits(FromBytes(b)) == b
  {
    if b != [] {
      var c := b[..|b| - 1];
      DigitsOfBytes(c);
      var v := FromBytes(b);
      assert v / 256 == FromBytes(c) && v % 256 == Ord(b[|b| - 1]);
      OrdInjective(Chr(v % 256), b[|b| - 1]);
      if c == [] {
        OrdInjectiveAtZero(b[0]);
      } else {
        assert Digits(FromBytes(c)) != [];
      }
      assert b == c + [b[|b| - 1]];
    }
  }

  lemma OrdInjectiveAtZero(b: byte)
    requires b != 0
    ensures Ord(b) > 0
  {
    if Ord(b) == 0 {
      OrdInjective(b, 0);
    }
  }

  function Xor(a: bytes, b: bytes): (c: bytes)
    requires |a| == |b|
    ensures |c| == |a|
  {
    if a == [] then [] else Xor(a[..|a| - 1], b[..|b| - 1]) + [a[|a| - 1] ^ b[|b| - 1]]
  }

  lemma {:induction false} XorAt(a: bytes, b: bytes, i: nat)
    requires i < |a| == |b|
    ensures Xor(a, b)[i] == a[i] ^ b[i]
  {
    if i < |a| - 1 {
      XorAt(a[..|a| - 1], b[..|b| - 1], i);
    }
  }

  lemma XorTwice(a: bytes, b: bytes)
    requires |a| == |b|
    ensures Xor(Xor(a, b), b) == a
  {
    forall i | 0 <= i < |a| ensures Xor(Xor(a, b), b)[i] == a[i] {
      XorAt(a, b, i);
      XorAt(Xor(a, b), b, i);
      XorByte(a[i], b[i]);
    }
  }

  lemma XorByte(a: byte, b: byte)
    ensures (a ^ b) ^ b == a
  {
  }

  function Zeros(n: nat): (z: bytes)
    ensures |z| == n && forall i :: 0 <= i < n ==> z[i] == 0
  {
    seq(n, i => 0)
  }

  /** The string without the zero bytes at its end. */
  function TrimZeros(b: bytes): (t: bytes)
    ensures t <= b
    ensures t != [] ==> t[|t| - 1] != 0
    ensures forall i :: |t| <= i < |b| ==> b[i] == 0
  {
    if b == [] then []
    else if b[|b| - 1] == 0 then TrimZeros(b[..|b| - 1])
    else b
  }

  /** A trimmed string is the only prefix that ends in a non-zero byte and is followed by zeros. */
  lemma {:induction false} TrimUnique(b: bytes, t: bytes)
    requires t <= b
    requires t != [] ==> t[|t| - 1] != 0
    requires forall i :: |t| <= i < |b| ==> b[i] == 0
    ensures TrimZeros(b) == t
  {
    if b != [] && b[|b| - 1] == 0 {
      TrimUnique(b[..|b| - 1], t);
    }
  }

  lemma TrimPadded(b: bytes, n: nat)
    ensures TrimZeros(b + Zeros(n)) == TrimZeros(b)
  {
    TrimUnique(b + Zeros(n), TrimZeros(b));
  }
}
