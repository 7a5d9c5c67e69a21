/** The six-bit groups of a byte string and the letters of section 4 of RFC 4648. */
module Sextets {
  import opened Bytes

  /** A byte of the string, zero past its end. */
  function At(h: bytes, i: nat): byte {
    if i < |h| then h[i] else 0
  }

  /** The four groups of three bytes. */
  function Group(x: byte, y: byte, z: byte, q: nat): (v: byte)
    requires q < 4
    ensures v < 64
  {
    match q
    case 0 => x >> 2
    case 1 => ((x << 4) | (y >> 4)) & 63
    case 2 => ((y << 2) | (z >> 6)) & 63
    case _ => z & 63
  }

  /** Group k of the string. */
  function Sextet(h: bytes, k: nat): (v: byte)
    ensures v < 64
  {
    var i := k / 4 * 3;
    Group(At(h, i), At(h, i + 1), At(h, i + 2), k % 4)
  }

  function Mask(i: nat): byte
    requires i < 8
  {
    match i
    case 0 => 0x80
    case 1 => 0x40
    case 2 => 0x20
    case 3 => 0x10
    case 4 => 0x08
    case 5 => 0x04
    case 6 => 0x02
    case _ => 0x01
  }

  predicate Meets(x: byte, mask: byte) {
    x & mask != 0
  }

  /** Bit i of a byte, most significant first. */
  predicate BitOf(x: byte, i: nat)
    requires i < 8
  {
    Meets(x, Mask(i))
  }

  predicate Bit(h: bytes, i: nat) {
    BitOf(At(h, i / 8), i % 8)
  }

  /** Group k is made of the six bits of the string that start at bit 6k. */
  lemma SextetBits(h: bytes, k: nat, b: nat)
    requires b < 6
    ensures Bit(h, 6 * k + b) <==> BitOf(Sextet(h, k), b + 2)
  {
    var i := k / 4 * 3;
    BitPlace(k, b);
    GroupBits(At(h, i), At(h, i + 1), At(h, i + 2), k % 4, b);
    hide BitOf, Group;
  }

  lemma BitPlace(k: nat, b: nat)
    requires b < 6
    ensures var (i, at) := (k / 4 * 3, 6 * (k % 4) + b);
            && (at < 8 ==> (6 * k + b) / 8 == i)
            && (8 <= at < 16 ==> (6 * k + b) / 8 == i + 1)
            && (16 <= at ==> (6 * k + b) / 8 == i + 2)
            && (6 * k + b) % 8 == at % 8
  {
  }

  lemma GroupBits(x: byte, y: byte, z: byte, q: nat, b: nat)
    requires q < 4 && b < 6
    ensures var at := 6 * q + b;
            BitOf(if at < 8 then x else if at < 16 then y else z, at % 8) <==> BitOf(Group(x, y, z, q), b + 2)
  {
    match q {
      case 0 => match b { case 0 => case 1 => case 2 => case 3 => case 4 => case _ => }
      case 1 => match b { case 0 => case 1 => case 2 => case 3 => case 4 => case _ => }
      case 2 => match b { case 0 => case 1 => case 2 => case 3 => case 4 => case _ => }
      case _ => match b { case 0 => case 1 => case 2 => case 3 => case 4 => case _ => }
    }
  }

  /** A byte made of the low bits of one group and the high bits of the next. */
  function Joined(x: byte, y: byte, up: nat): byte
    requires up == 2 || up == 4 || up == 6
  {
    if up == 2 then (x << 2) | (y >> 4) else if up == 4 then (x << 4) | (y >> 2) else (x << 6) | y
  }

  lemma JoinedParts(x: byte, y: byte, up: nat)
    requires up == 2 || up == 4 || up == 6
    ensures Joined(x, 0, up) | Joined(0, y, up) == Joined(x, y, up)
  {
    if up == 2 {
      assert ((x << 2) | ((0 as byte) >> 4)) | (((0 as byte) << 2) | (y >> 4)) == (x << 2) | (y >> 4);
    } else if up == 4 {
      assert ((x << 4) | ((0 as byte) >> 2)) | (((0 as byte) << 4) | (y >> 2)) == (x << 4) | (y >> 2);
    } else {
      assert ((x << 6) | 0) | (((0 as byte) << 6) | y) == (x << 6) | y;
    }
  }

  /** Byte j of the string from the groups it lies in. */
  function ByteOf(v: seq<byte>, j: nat): byte
    requires j / 3 * 4 + j % 3 + 1 < |v|
  {
    var k := j / 3 * 4 + j % 3;
    Joined(v[k], v[k + 1], 2 + 2 * (j % 3))
  }

  /** Groups determine the bytes they cover completely. */
  lemma ByteOfSextets(h: bytes, v: seq<byte>, j: nat)
    requires j / 3 * 4 + j % 3 + 1 < |v|
    requires forall k :: 0 <= k < |v| ==> v[k] == Sextet(h, k)
    ensures ByteOf(v, j) == At(h, j)
  {
    var i, q := j / 3 * 3, j % 3;
    GroupPlace(j);
    GroupsMakeBytes(At(h, i), At(h, i + 1), At(h, i + 2), q);
    hide Group, Joined, At;
  }

  lemma GroupPlace(j: nat)
    ensures var (i, q, k) := (j / 3 * 3, j % 3, j / 3 * 4 + j % 3);
            k / 4 * 3 == i && k % 4 == q && (k + 1) / 4 * 3 == i && (k + 1) % 4 == q + 1 && j == i + q
  {
  }

  lemma GroupsMakeBytes(x: byte, y: byte, z: byte, q: nat)
    requires q < 3
    ensures Joined(Group(x, y, z, q), Group(x, y, z, q + 1), 2 + 2 * q) == if q == 0 then x else if q == 1 then y else z
  {
    match q { case 0 => case 1 => case _ => }
  }

  const LETTER_A: byte := 65
  const EQUALS: byte := 61
  const NUL: byte := 0

  /** The letter of a group: A to Z, a to z, 0 to 9, plus and slash. */
  function Letter(v: byte): (c: byte)
    requires v < 64
    ensures c != NUL && c != EQUALS
  {
    if v < 26 then v + 65 else if v < 52 then v + 71 else if v < 62 then v - 4 else if v == 62 then 43 else 47
  }

  predicate IsLetter(c: byte) {
    65 <= c <= 90 || 97 <= c <= 122 || 48 <= c <= 57 || c == 43 || c == 47
  }

  function Value(c: byte): (v: byte)
    requires IsLetter(c)
    ensures v < 64
  {
    if 65 <= c <= 90 then c - 65 else if 97 <= c then c - 71 else if 48 <= c <= 57 then c + 4 else if c == 43 then 62
      else 63
  }

  lemma LetterValue(v: byte)
    requires v < 64
    ensures IsLetter(Letter(v)) && Value(Letter(v)) == v
  {
  }

  /** The alphabet: capitals, small letters, digits, plus and slash. */
  lemma Alphabet()
    ensures Letter(0) == 0x41 && Letter(25) == 0x5a && Letter(26) == 0x61 && Letter(51) == 0x7a
    ensures Letter(52) == 0x30 && Letter(61) == 0x39 && Letter(62) == 0x2b && Letter(63) == 0x2f
    ensures forall v: byte :: v < 61 && v != 25 && v != 51 ==> Letter(v + 1) == Letter(v) + 1
    ensures EQUALS == 0x3d && NUL == 0 && LETTER_A == 0x41
  {
  }

  /** And nothing else is a letter. */
  lemma LetterOfValue(c: byte)
    requires IsLetter(c)
    ensures Letter(Value(c)) == c
  {
  }
}
