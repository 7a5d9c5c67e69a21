/** The bit-serial base64 of the ZNC module. */
module FishB64 {
  import opened Bytes
  import opened CStrings
  import opened Sextets

  const UINT: nat := 0x1_0000_0000

  /** One letter a group, and one group more than the bits fill. */
  function Encoded(h: bytes): (t: bytes)
    ensures |t| == 8 * |h| / 6 + 1
    ensures forall k :: 0 <= k < |t| ==> t[k] == Letter(Sextet(h, k))
  {
    seq(8 * |h| / 6 + 1, k requires 0 <= k => Letter(Sextet(h, k)))
  }

  // ---- encoding, bit by bit ----

  function Shifted(t: byte, n: nat): byte
    requires n <= 8
  {
    t << n
  }

  function WithBit(t: byte, bit: bool): byte {
    if bit then t | 1 else t
  }

  /** The mask moves down one bit and starts again at the top. */
  function NextMask(m: byte): byte {
    if m >> 1 == 0 then 0x80 else m >> 1
  }

  /** The first r bits of a group, moved up by one. */
  function Partial(v: byte, r: nat): byte
    requires r < 6
  {
    match r
    case 0 => 0
    case 1 => (v >> 5) << 1
    case 2 => (v >> 4) << 1
    case 3 => (v >> 3) << 1
    case 4 => (v >> 2) << 1
    case _ => (v >> 1) << 1
  }

  lemma PartialStep(v: byte, r: nat)
    requires r < 6 && v < 64
    ensures var t := WithBit(Partial(v, r), BitOf(v, r + 2));
            if r == 5 then t == v else Shifted(t, 1) == Partial(v, r + 1)
  {
    match r { case 0 => case 1 => case 2 => case 3 => case 4 => case _ => }
  }

  lemma MaskStep(i: nat)
    ensures Mask((i + 1) % 8) == NextMask(Mask(i % 8))
  {
  }

  /** What one turn of the loop does with bit i. */
  lemma BitArrives(h: bytes, i: nat)
    requires i < 8 * |h|
    ensures var (v, r) := (Sextet(h, i / 6), i % 6);
            var t := WithBit(Partial(v, r), Meets(h[i / 8], Mask(i % 8)));
            if r == 5 then t == v else Shifted(t, 1) == Partial(v, r + 1)
  {
    SextetBits(h, i / 6, i % 6);
    PartialStep(Sextet(h, i / 6), i % 6);
    assert At(h, i / 8) == h[i / 8];
    hide Sextet, Partial, Meets, WithBit, Shifted;
  }

  lemma SixthStep(i: nat)
    ensures i % 6 == 5 ==> (i + 1) / 6 == i / 6 + 1 && (i + 1) % 6 == 0
    ensures i % 6 < 5 ==> (i + 1) / 6 == i / 6 && (i + 1) % 6 == i % 6 + 1
  {
  }

  lemma NothingYet(v: byte)
    ensures Mask(0) == 0x80 && Partial(v, 0) == 0 && Shifted(0, 1) == 0
  {
  }

  /** What is left when the bits run out is the last group, filled up with zero bits. */
  lemma LastGroup(h: bytes)
    ensures var (v, r) := (Sextet(h, 8 * |h| / 6), 8 * |h| % 6);
            r < 5 && Shifted(Partial(v, r), 5 - r) == v
  {
    var n, k := |h|, 8 * |h| / 6;
    var g := n / 3;
    if n % 3 == 0 {
      assert k == 4 * g && k / 4 * 3 == n && k % 4 == 0;
    } else if n % 3 == 1 {
      assert k == 4 * g + 1 && k / 4 * 3 == n - 1 && k % 4 == 1;
      FillOne(h[n - 1]);
    } else {
      assert k == 4 * g + 2 && k / 4 * 3 == n - 2 && k % 4 == 2;
      FillTwo(h[n - 1]);
    }
  }

  lemma FillOne(x: byte)
    ensures var v := ((x << 4) | ((0 as byte) >> 4)) & 63; Shifted(Partial(v, 2), 3) == v
  {
  }

  lemma FillTwo(x: byte)
    ensures var v := ((x << 2) | ((0 as byte) >> 6)) & 63; Shifted(Partial(v, 4), 1) == v
  {
  }

  /** The length in bits is a 32-bit number: the bits of longer inputs wrap. */
  function Bits(l: nat): (bits: nat)
    ensures bits % 8 == 0 && bits <= 8 * l
    ensures 8 * l < UINT ==> bits == 8 * l
  {
    8 * l % UINT
  }

  lemma LastLetter(h: bytes, bits: nat)
    requires 8 * |h| == bits
    ensures var (k, r, t) := (bits / 6, bits % 6, Encoded(h));
            && r < 5 && k + 1 == |t| && 0 !in t
            && Shifted(Partial(Sextet(h, k), r), 5 - r) == Sextet(h, k) && t[k] == Letter(Sextet(h, k))
  {
    LastGroup(h);
    hide Sextet, Partial, Shifted, Letter;
  }

  lemma RoomForText(l: nat, bits: nat, size: nat)
    requires bits <= 8 * l && 8 * l / 6 + 2 <= size
    ensures bits / 8 <= l && bits / 6 + 2 <= size
  {
  }

  method Htob64(h: array<byte>, d: array<byte>, l: nat) returns (n: nat)
    requires l <= h.Length && 8 * l / 6 + 2 <= d.Length && h != d
    modifies d
    ensures l == 0 ==> n == 0 && d[..] == old(d[..])
    ensures l > 0 ==>
      var t := Encoded(h[..Bits(l) / 8]);
      n == |t| && d[..n] == t && d[n] == 0 && d[n + 1..] == old(d[n + 1..])
  {
    if l == 0 {
      return 0;
    }
    var bits := Bits(l);
    ghost var s := h[..bits / 8];
    ghost var d0 := d[..];
    LastLetter(s, bits);
    RoomForText(l, bits, d.Length);
    hide *;
    var j, k, t := EncodeBits(h, d, bits);
    var shift := 5 - j % 6;
    t := Shifted(t, shift);
    assert t == Sextet(s, k);
    if shift != 0 {
      k := Emit(d, k, Letter(t), d0, Encoded(s));
    }
    ghost var written := d[..];
    d[k] := 0;
    WrittenText(written, d[..], d0, Encoded(s));
    n := StrLen(d);
  }

  /** The loop: one bit a turn, one letter every six bits. */
  method EncodeBits(h: array<byte>, d: array<byte>, l: nat) returns (j: nat, k: nat, t: byte)
    requires l % 8 == 0 && l / 8 <= h.Length && l / 6 <= d.Length && h != d
    modifies d
    ensures j == l && k == l / 6
    ensures t == Partial(Sextet(h[..l / 8], k), j % 6)
    ensures Written(d[..], old(d[..]), Encoded(h[..l / 8]), k)
  {
    ghost var s := h[..l / 8];
    var m: byte := 0x80;
    var i := 0;
    j, k, t := 0, 0, 0;
    NothingYet(Sextet(s, 0));
    assert Written(d[..], d[..], Encoded(s), 0) && |Encoded(s)| == l / 6 + 1;
    ghost var e, d0 := Encoded(s), d[..];
    hide *;
    while i < l
      invariant i == j <= l && k == i / 6
      invariant m == Mask(i % 8)
      invariant t == Partial(Sextet(s, k), i % 6)
      invariant Written(d[..], d0, e, k)
    {
      BitArrives(s, i);
      SixthStep(i);
      MaskStep(i);
      NothingYet(Sextet(s, k + 1));
      t := WithBit(t, Meets(h[i / 8], m));
      j := j + 1;
      m := NextMask(m);
      if j % 6 == 0 {
        k := Emit(d, k, Letter(t), d0, e);
        t := 0;
      }
      t := Shifted(t, 1);
      i := i + 1;
    }
  }

  // ---- decoding ----

  /** The decoding table: every byte that is no letter counts as zero, like A. */
  function Sixbit(c: byte): (v: byte)
    ensures v < 64
  {
    if IsLetter(c) then Value(c) else 0
  }

  function Values(t: bytes): (v: seq<byte>)
    ensures |v| == |t| && forall k :: 0 <= k < |v| ==> v[k] == Sixbit(t[k])
  {
    seq(|t|, k requires 0 <= k < |t| => Sixbit(t[k]))
  }

  /** All the bytes that the groups fill. */
  function Packed(v: seq<byte>): (h: bytes)
    ensures |h| == 6 * |v| / 8
    ensures forall j :: 0 <= j < |h| ==> j / 3 * 4 + j % 3 + 1 < |v| && h[j] == ByteOf(v, j)
  {
    seq(6 * |v| / 8, j requires 0 <= j < 6 * |v| / 8 => ByteOf(v, j))
  }

  /** Trailing zero groups are dropped before the rest is packed. */
  function Decoded(t: bytes): bytes {
    Packed(TrimZeros(Values(t)))
  }

  method B64toh(b: array<byte>, d: array<byte>) returns (n: nat)
    requires 0 in b[..] && 6 * |Text(b[..])| / 8 <= d.Length && b != d
    modifies d
    ensures var h := Decoded(Text(b[..])); n == |h| && d[..n] == h && d[n..] == old(d[n..])
  {
    ghost var t, d0 := Text(b[..]), d[..];
    var l := StrLen(b);
    hide Packed, Values;
    if l < 2 {
      TooShort(t);
      return 0;
    }
    assert b[..l] == t;
    l := Trimmed(b, l);
    if l < 2 {
      TooShort(t);
      return 0;
    }
    n := PackLoop(b, d, l, t);
    WrittenAll(d[..], d0, Packed(Values(t)[..l]));
  }

  lemma TooShort(t: bytes)
    requires |TrimZeros(Values(t))| < 2
    ensures Decoded(t) == []
  {
  }

  /** The first loop: the length without the trailing zero groups. */
  method Trimmed(b: array<byte>, len: nat) returns (l: nat)
    requires len <= b.Length
    ensures l <= len && TrimZeros(Values(b[..len])) == Values(b[..len])[..l]
  {
    ghost var v := Values(b[..len]);
    l := len;
    var i: int := l - 1;
    while i > -1
      invariant -1 <= i == l - 1 < len
      invariant forall k :: l <= k < len ==> v[k] == 0
    {
      if Sixbit(b[i]) == 0 {
        l := l - 1;
      } else {
        break;
      }
      i := i - 1;
    }
    TrimUnique(v, v[..l]);
  }

  /** Where byte j finds its groups, and that it is one of the bytes they fill. */
  lemma GroupsOfByte(j: nat, l: nat)
    ensures var k := j / 3 * 4 + j % 3; k + 1 < l <==> j < 6 * l / 8
  {
    var g, q := j / 3, j % 3;
    assert j == 3 * g + q;
  }

  /** One byte from two neighbouring groups, unless the second is missing. */
  method PutByte(b: array<byte>, d: array<byte>, l: nat, j: nat, at: nat, up: nat, ghost v: seq<byte>, ghost d0: bytes)
    returns (k: nat, full: bool)
    requires at == j / 3 * 4 + j % 3 && up == 2 + 2 * (j % 3)
    requires l == |v| <= b.Length && 6 * l / 8 <= d.Length && b != d
    requires forall q :: 0 <= q < l ==> v[q] == Sixbit(b[q])
    requires Written(d[..], d0, Packed(v), j)
    modifies d
    ensures full == (at + 1 < l)
    ensures k == if full then at + 1 else at
    ensures Written(d[..], d0, Packed(v), if full then j + 1 else j)
  {
    ghost var before := d[..];
    GroupsOfByte(j, l);
    k := at;
    hide Joined, Sixbit, Written;
    if k + 1 < l {
      d[j] := Joined(Sixbit(b[k]), 0, up);
    } else {
      return k, false;
    }
    k := k + 1;
    if k < l {
      JoinedParts(v[at], v[at + 1], up);
      d[j] := d[j] | Joined(0, Sixbit(b[k]), up);
    } else {
      return k, false;
    }
    WrittenMore(before, d[..], d0, Packed(v), j);
    return k, true;
  }

  method PackLoop(b: array<byte>, d: array<byte>, l: nat, ghost t: bytes) returns (n: nat)
    requires 2 <= l <= |t| && t <= b[..] && 6 * l / 8 <= d.Length && b != d
    modifies d
    ensures n == 6 * l / 8 && Written(d[..], old(d[..]), Packed(Values(t)[..l]), n)
  {
    ghost var v := Values(t)[..l];
    var i, k := 0, 0;
    var full: bool;
    ghost var g := 0;
    assert Written(d[..], d[..], Packed(v), 0);
    hide Written, Sixbit;
    while true
      invariant k == 4 * g <= l && i == 3 * g
      invariant Written(d[..], old(d[..]), Packed(v), i)
      decreases l - k
    {
      i := i + 1;
      k, full := PutByte(b, d, l, i - 1, k, 2, v, old(d[..]));
      if !full {
        break;
      }
      i := i + 1;
      k, full := PutByte(b, d, l, i - 1, k, 4, v, old(d[..]));
      if !full {
        break;
      }
      i := i + 1;
      k, full := PutByte(b, d, l, i - 1, k, 6, v, old(d[..]));
      if !full {
        break;
      }
      k := k + 1;
      g := g + 1;
    }
    n := i - 1;
  }

  /** A foreign character reads as an A, which counts for nothing at the end. */
  lemma ForeignIsA(t: bytes, u: bytes, n: nat)
    requires |u| == |t| + n && (forall k :: |t| <= k < |u| ==> u[k] == 0x41 || !IsLetter(u[k]))
    requires forall k :: 0 <= k < |t| ==> u[k] == if IsLetter(t[k]) then t[k] else 0x41
    ensures Decoded(u) == Decoded(t)
  {
    assert Sixbit(0x41) == 0;
    var v, w := Values(t), Values(u);
    assert w[..|t|] == v;
    assert w == v + Zeros(n);
    TrimPadded(v, n);
    hide Packed;
  }

  // ---- what survives a round trip ----

  /** The groups of the text, the one past the end included. */
  function Groups(h: bytes): (v: seq<byte>)
    ensures |v| == 8 * |h| / 6 + 1 && forall k :: 0 <= k < |v| ==> v[k] == Sextet(h, k)
  {
    seq(8 * |h| / 6 + 1, k requires 0 <= k => Sextet(h, k))
  }

  lemma EncodedValues(h: bytes)
    ensures Values(Encoded(h)) == Groups(h)
  {
    forall k | 0 <= k < |Groups(h)| ensures Values(Encoded(h))[k] == Groups(h)[k] {
      LetterValue(Sextet(h, k));
    }
    hide Sextet, Sixbit, Letter;
  }

  /** Groups that start past the last bit are zero. */
  lemma PastTheEnd(h: bytes, k: nat)
    requires 6 * k >= 8 * |h|
    ensures Sextet(h, k) == 0
  {
    var i := k / 4 * 3;
    if k % 4 == 0 {
      assert i >= |h|;
    } else if k % 4 == 1 {
      assert i >= |h|;
    } else if k % 4 == 2 {
      assert i + 1 >= |h|;
    } else {
      assert i + 2 >= |h|;
    }
    ZeroGroups();
  }

  lemma ZeroGroups()
    ensures Group(0, 0, 0, 0) == 0 && Group(0, 0, 0, 1) == 0
    ensures forall x: byte :: Group(x, 0, 0, 2) == 0
    ensures forall x: byte, y: byte :: Group(x, y, 0, 3) == 0
  {
  }

  lemma PackedFits(n: nat, l: nat)
    requires n == 0 || 6 * (n - 1) < 8 * l
    ensures 6 * n / 8 <= l
  {
  }

  lemma Carries(h: bytes, k: nat)
    ensures Sextet(h, k) != 0 ==> 6 * k < 8 * |h|
  {
    if 6 * k >= 8 * |h| {
      PastTheEnd(h, k);
    }
  }

  /**
   Decoding an encoded string gives a prefix of it: as many bytes as the groups fill that are left
   after dropping the zero groups at the end.
   */
  lemma RoundTripPrefix(h: bytes)
    ensures var n := |TrimZeros(Groups(h))|;
            6 * n / 8 <= |h| && Decoded(Encoded(h)) == h[..6 * n / 8]
  {
    var v := TrimZeros(Groups(h));
    EncodedValues(h);
    if v != [] {
      Carries(h, |v| - 1);
    }
    hide Sextet, Groups, TrimZeros;
    PackedFits(|v|, |h|);
    forall j | 0 <= j < 6 * |v| / 8 ensures Packed(v)[j] == h[j] {
      ByteOfSextets(h, v, j);
    }
    hide ByteOf;
  }

  lemma GroupsLeft(h: bytes)
    requires h != []
    ensures var (n, last) := (|TrimZeros(Groups(h))|, (8 * |h| - 1) / 6);
            n <= last + 1 && (n == last + 1 <==> Sextet(h, last) != 0)
  {
    var v, last := Groups(h), (8 * |h| - 1) / 6;
    forall k | last < k < |v| ensures v[k] == 0 {
      PastTheEnd(h, k);
    }
    assert last < |v| && v[last] == Sextet(h, last);
    hide Sextet, Groups;
    TrimmedLength(v, last);
  }

  /** What trimming leaves of a string whose tail behind one place is zero. */
  lemma TrimmedLength(v: bytes, last: nat)
    requires last < |v| && forall k :: last < k < |v| ==> v[k] == 0
    ensures |TrimZeros(v)| <= last + 1 && (|TrimZeros(v)| == last + 1 <==> v[last] != 0)
  {
    var t := TrimZeros(v);
    assert t != [] ==> t[|t| - 1] == v[|t| - 1];
    hide TrimZeros;
  }

  lemma LastFills(n: nat, last: nat, m: nat)
    requires n > 0 && last == (8 * n - 1) / 6 && m <= last + 1
    ensures 6 * m / 8 == n <==> m == last + 1
  {
    var g, r := n / 3, n % 3;
    assert n == 3 * g + r;
  }

  /** Nothing is lost exactly when the last group that carries bits of the string is not zero. */
  lemma RoundTripIff(h: bytes)
    ensures Decoded(Encoded(h)) == h <==> h == [] || Sextet(h, (8 * |h| - 1) / 6) != 0
  {
    RoundTripPrefix(h);
    if h != [] {
      GroupsLeft(h);
      LastFills(|h|, (8 * |h| - 1) / 6, |TrimZeros(Groups(h))|);
    }
    hide Sextet, Groups, TrimZeros, Decoded, Encoded;
  }
}
