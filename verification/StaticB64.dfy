/** The base64 codec of the Diffie-Hellman exchange, with unwrapped lines. */
module StaticB64 {
  import opened Bytes
  import opened CStrings
  import opened Sextets
  import FishB64

  // ---- encoding ----

  /** With one byte left over the encoder reads on into the byte that follows the input. */
  function Extended(s: bytes, past: byte): bytes {
    if |s| % 3 == 1 then s + [past] else s
  }

  function Quads(n: nat): nat {
    (n + 2) / 3
  }

  function Encoded(s: bytes, past: byte): (t: bytes)
    ensures |t| == 4 * Quads(|s|)
  {
    seq(4 * Quads(|s|), k requires 0 <= k =>
      if 6 * k < 8 * |s| then Letter(Sextet(Extended(s, past), k)) else EQUALS)
  }

  /** The text of section 4 of RFC 4648: missing bits count as zero. */
  function Standard(s: bytes): (t: bytes)
    ensures |t| == 4 * Quads(|s|)
  {
    seq(4 * Quads(|s|), k requires 0 <= k => if 6 * k < 8 * |s| then Letter(Sextet(s, k)) else EQUALS)
  }

  /** Letter q of the four that stand for three bytes, of which n are there. */
  function QuadLetter(x: byte, y: byte, z: byte, n: nat, q: nat): byte
    requires q < 4
  {
    if q < 2 || q <= n then Letter(Group(x, y, z, q)) else EQUALS
  }

  lemma LetterAt(s: bytes, past: byte, g: nat, q: nat)
    requires q < 4 && 3 * g < |s|
    ensures var e := Extended(s, past);
            && 4 * g + 4 <= |Encoded(s, past)|
            && Encoded(s, past)[4 * g + q]
               == QuadLetter(At(e, 3 * g), At(e, 3 * g + 1), At(e, 3 * g + 2), |s| - 3 * g, q)
  {
    var k := 4 * g + q;
    assert k / 4 * 3 == 3 * g && k % 4 == q;
    assert 6 * k < 8 * |s| <==> q < 2 || q <= |s| - 3 * g;
    hide Group, Letter, Extended, At;
  }

  predicate QuadAt(t: bytes, p: nat, x: byte, y: byte, z: byte, n: nat) {
    && p + 4 <= |t|
    && t[p] == QuadLetter(x, y, z, n, 0)
    && t[p + 1] == QuadLetter(x, y, z, n, 1)
    && t[p + 2] == QuadLetter(x, y, z, n, 2)
    && t[p + 3] == QuadLetter(x, y, z, n, 3)
  }

  lemma QuadText(s: bytes, past: byte, g: nat)
    requires 3 * g < |s|
    ensures var e := Extended(s, past);
            QuadAt(Encoded(s, past), 4 * g, At(e, 3 * g), At(e, 3 * g + 1), At(e, 3 * g + 2), |s| - 3 * g)
  {
    hide QuadLetter, Encoded, Extended, At, Quads;
    var t, e, n := Encoded(s, past), Extended(s, past), |s| - 3 * g;
    var x, y, z := At(e, 3 * g), At(e, 3 * g + 1), At(e, 3 * g + 2);
    assert 4 * g + 4 <= |t| && t[4 * g] == QuadLetter(x, y, z, n, 0) by { LetterAt(s, past, g, 0); }
    assert t[4 * g + 1] == QuadLetter(x, y, z, n, 1) by { LetterAt(s, past, g, 1); }
    assert t[4 * g + 2] == QuadLetter(x, y, z, n, 2) by { LetterAt(s, past, g, 2); }
    assert t[4 * g + 3] == QuadLetter(x, y, z, n, 3) by { LetterAt(s, past, g, 3); }
  }

  /** The same for a buffer that may go on after the input: whole groups, and the bytes left over. */
  predicate WholeAt(t: bytes, p: nat, b: bytes, i: nat, n: nat) {
    i + 3 <= |b| && 3 <= n && QuadAt(t, p, b[i], b[i + 1], b[i + 2], n)
  }

  predicate TailAt(t: bytes, p: nat, b: bytes, i: nat, n: nat) {
    i + 2 <= |b| && QuadAt(t, p, b[i], b[i + 1], 0, n)
  }

  lemma WholeQuad(b: bytes, len: nat, i: nat, g: nat)
    requires len <= |b| && (len % 3 == 1 ==> len < |b|) && i == 3 * g && i + 3 <= len
    ensures WholeAt(Encoded(b[..len], Past(b, len)), 4 * g, b, i, len - i)
  {
    var e := Extended(b[..len], Past(b, len));
    QuadText(b[..len], Past(b, len), g);
    assert e[i] == b[i] && e[i + 1] == b[i + 1] && e[i + 2] == b[i + 2];
    hide QuadAt, Encoded, Extended, Past;
  }

  lemma LastQuad(b: bytes, len: nat, i: nat, g: nat, mod: nat)
    requires len <= |b| && (len % 3 == 1 ==> len < |b|) && i == 3 * g && i + mod == len && mod == len % 3 && mod != 0
    ensures TailAt(Encoded(b[..len], Past(b, len)), 4 * g, b, i, mod)
  {
    var e := Extended(b[..len], Past(b, len));
    QuadText(b[..len], Past(b, len), g);
    assert |e| == i + 2 && e[i] == b[i] && e[i + 1] == b[i + 1];
    hide QuadAt, Encoded, Extended, Past;
  }

  /** The byte after the input, if the encoder reads it. */
  function Past(b: bytes, len: nat): byte
    requires len <= |b| && (len % 3 == 1 ==> len < |b|)
  {
    if len % 3 == 1 then b[len] else 0
  }

  lemma NoNul(s: bytes, past: byte)
    ensures 0 !in Encoded(s, past)
  {
    hide Sextet, Extended;
  }

  method Encode(src: array<byte>, dst: array<byte>, len: nat)
    requires len <= src.Length && (len % 3 == 1 ==> len < src.Length)
    requires 4 * Quads(len) < dst.Length && src != dst
    modifies dst
    ensures var t := Encoded(src[..len], Past(src[..], len));
            && dst[..|t|] == t && 0 in dst[..] && Text(dst[..]) == t
            && dst[|t| + 1..] == old(dst[|t| + 1..])
  {
    ghost var b, d0 := src[..], dst[..];
    ghost var t := Encoded(b[..len], Past(b, len));
    assert b[..len] == src[..len];
    NoNul(b[..len], Past(b, len));
    assert Written(dst[..], d0, t, 0);
    hide Encoded, Written, Text, Past;
    var p := EncodeGroups(src, dst, len, b, d0, t);
    ghost var written := dst[..];
    dst[p] := 0;
    WrittenText(written, dst[..], d0, t);
  }

  /** The loop over whole groups and what is left over. */
  method EncodeGroups(src: array<byte>, dst: array<byte>, len: nat, ghost b: bytes, ghost d0: bytes, ghost t: bytes)
    returns (p: nat)
    requires src[..] == b && len <= |b| && (len % 3 == 1 ==> len < |b|)
    requires t == Encoded(b[..len], Past(b, len)) && |t| < dst.Length && src != dst
    requires Written(dst[..], d0, t, 0)
    modifies dst
    ensures p == |t| && Written(dst[..], d0, t, p)
  {
    var i, mod := 0, len % 3;
    ghost var g, whole := 0, len / 3;
    p := 0;
    assert |t| == 4 * (if mod == 0 then whole else whole + 1) && 3 * whole + mod == len;
    hide Encoded, Written, WholeAt, TailAt, Past, Quads;
    while i < len - mod
      invariant i == 3 * g && g <= whole && p == 4 * g
      invariant Written(dst[..], d0, t, p)
    {
      WholeQuad(b, len, i, g);
      i, p := EncodeQuad(src, dst, i, p, b, len - i, d0, t);
      g := g + 1;
    }
    if mod != 0 {
      LastQuad(b, len, i, g, mod);
      p := EncodeTail(src, dst, i, mod, p, b, d0, t);
    }
  }

  /** Three bytes into four letters. */
  method EncodeQuad(src: array<byte>, dst: array<byte>, at: nat, from: nat,
                    ghost b: bytes, ghost n: nat, ghost d0: bytes, ghost t: bytes)
    returns (i: nat, p: nat)
    requires src[..] == b && src != dst && |t| < dst.Length && WholeAt(t, from, b, at, n)
    requires Written(dst[..], d0, t, from)
    modifies dst
    ensures i == at + 3 && p == from + 4 && Written(dst[..], d0, t, p)
  {
    hide Letter, Written;
    i := at;
    p := Emit(dst, from, Letter(src[i] >> 2), d0, t);
    i := i + 1;
    p := Emit(dst, p, Letter(((src[i - 1] << 4) | (src[i] >> 4)) & 63), d0, t);
    p := Emit(dst, p, Letter(((src[i] << 2) | (src[i + 1] >> 6)) & 63), d0, t);
    p := Emit(dst, p, Letter(src[i + 1] & 63), d0, t);
    i := i + 2;
  }

  /** The one or two bytes left over, filled up with equals signs. */
  method EncodeTail(src: array<byte>, dst: array<byte>, at: nat, mod: nat, from: nat,
                    ghost b: bytes, ghost d0: bytes, ghost t: bytes)
    returns (p: nat)
    requires src[..] == b && src != dst && |t| < dst.Length
    requires (mod == 1 || mod == 2) && TailAt(t, from, b, at, mod)
    requires Written(dst[..], d0, t, from)
    modifies dst
    ensures p == from + 4 && Written(dst[..], d0, t, p)
  {
    hide Letter, Written;
    var i := at;
    p := Emit(dst, from, Letter(src[i] >> 2), d0, t);
    i := i + 1;
    p := Emit(dst, p, Letter(((src[i - 1] << 4) | (src[i] >> 4)) & 63), d0, t);
    if mod == 1 {
      p := Emit(dst, p, EQUALS, d0, t);
      p := Emit(dst, p, EQUALS, d0, t);
    } else {
      ZeroBelow(src[i]);
      p := Emit(dst, p, Letter((src[i] << 2) & 63), d0, t);
      p := Emit(dst, p, EQUALS, d0, t);
    }
  }

  lemma ZeroBelow(y: byte)
    ensures ((y << 2) | ((0 as byte) >> 6)) & 63 == (y << 2) & 63
  {
  }

  // ---- decoding ----

  /** The decoder's three-byte buffer and what it has written. */
  datatype State = State(b0: byte, b1: byte, b2: byte, out: bytes)

  /** err is 1 for bad padding and 2 for a foreign character; out is also written before an error. */
  datatype Outcome = Outcome(out: bytes, err: nat)

  function Merged(a: byte, b: byte): byte {
    a | b
  }

  function Front(b0: byte, b1: byte, b2: byte, n: nat): (f: bytes)
    requires n <= 3
    ensures |f| == n
  {
    if n == 0 then [] else if n == 1 then [b0] else if n == 2 then [b0, b1] else [b0, b1, b2]
  }

  /** One letter, at a place that is q modulo 4. */
  function Feed(d: State, q: nat, v: byte): State
    requires q < 4
  {
    match q
    case 0 => d.(b0 := Joined(v, 0, 2))
    case 1 => d.(b0 := Merged(d.b0, Joined(0, v, 2)), b1 := Joined(v, 0, 4))
    case 2 => d.(b1 := Merged(d.b1, Joined(0, v, 4)), b2 := Joined(v, 0, 6))
    case _ => d.(b2 := Merged(d.b2, v), out := d.out + Front(d.b0, d.b1, Merged(d.b2, v), 3))
  }

  /** How many bytes an equals sign at a place takes off the last three, zero where it is invalid. */
  function Padding(q: nat, following: byte): (pad: nat)
    ensures pad <= 2
  {
    if q < 2 then 0 else if q == 2 then if following == EQUALS then 2 else 0 else 1
  }

  /** What the decoder makes of the text from place i on: its place, not the letters seen, says what a character is. */
  function Scan(t: bytes, i: nat, d: State, strict: bool): Outcome
    requires i <= |t|
    decreases |t| - i
  {
    if i == |t| then Outcome(d.out, if i % 4 != 0 then 1 else 0)
    else if t[i] == EQUALS then
      var pad := Padding(i % 4, if i + 1 < |t| then t[i + 1] else NUL);
      if pad == 0 then Outcome(d.out, 1) else Outcome(d.out + Front(d.b0, d.b1, d.b2, 3 - pad), 0)
    else if !IsLetter(t[i]) then
      if strict then Outcome(d.out, 2) else Scan(t, i + 1, d, strict)
    else Scan(t, i + 1, Feed(d, i % 4, Value(t[i])), strict)
  }

  /** One character of a scan. */
  lemma ScanStep(t: bytes, i: nat, d: State, strict: bool)
    requires i < |t|
    ensures t[i] != EQUALS && IsLetter(t[i]) ==>
              Scan(t, i, d, strict) == Scan(t, i + 1, Feed(d, i % 4, Value(t[i])), strict)
    ensures t[i] != EQUALS && !IsLetter(t[i]) ==>
              Scan(t, i, d, strict) == if strict then Outcome(d.out, 2) else Scan(t, i + 1, d, strict)
    ensures t[i] == EQUALS ==>
              var pad := Padding(i % 4, if i + 1 < |t| then t[i + 1] else NUL);
              Scan(t, i, d, strict) ==
                if pad == 0 then Outcome(d.out, 1) else Outcome(d.out + Front(d.b0, d.b1, d.b2, 3 - pad), 0)
  {
  }

  /** Room for every whole group of four characters. */
  function Room(p: nat): nat {
    3 * (p / 4)
  }

  lemma RoomStep(p: nat, n: nat)
    requires p < n
    ensures Room(p) + (if p % 4 == 3 then 3 else 0) <= Room(p + 1)
    ensures Room(p) + 3 <= Room(n + 3)
  {
  }

  /** What a scan can write at most. */
  lemma {:induction false} ScanRoom(t: bytes, i: nat, d: State, strict: bool)
    requires i <= |t| && |d.out| <= Room(i)
    ensures |Scan(t, i, d, strict).out| <= Room(|t| + 3)
    decreases |t| - i
  {
    if i < |t| {
      RoomStep(i, |t|);
      ScanStep(t, i, d, strict);
      if t[i] != EQUALS && IsLetter(t[i]) {
        FeedRoom(d, i, Value(t[i]));
        ScanRoom(t, i + 1, Feed(d, i % 4, Value(t[i])), strict);
      } else if t[i] != EQUALS && !strict {
        ScanRoom(t, i + 1, d, strict);
      }
    }
    hide Feed, Value, IsLetter, Front, Padding;
  }

  lemma FeedRoom(d: State, i: nat, v: byte)
    requires |d.out| <= Room(i)
    ensures |Feed(d, i % 4, v).out| <= Room(i + 1)
  {
    RoomStep(i, i + 1);
    hide Merged, Joined, Room;
  }

  /**
   The stale parameters are what the stack held where the buffer is. The result is the number of
   bytes written, and zero after an error.
   */
  method Decode(src: array<byte>, dst: array<byte>, strict: bool, stale0: byte, stale1: byte, stale2: byte)
    returns (len: nat, err: nat)
    requires 0 in src[..] && Room(|Text(src[..])| + 3) <= dst.Length && src != dst
    modifies dst
    ensures var o := Scan(Text(old(src[..])), 0, State(stale0, stale1, stale2, []), strict);
            && err == o.err && len == (if err == 0 then |o.out| else 0)
            && |o.out| <= dst.Length && dst[..|o.out|] == o.out && dst[|o.out|..] == old(dst[|o.out|..])
  {
    len, err := RawDecode(src, dst, strict, stale0, stale1, stale2);
    if err != 0 {
      len := 0;
    }
  }

  /** The first bytes hold what is decoded, and nothing else has changed. */
  ghost predicate Holds(a: bytes, a0: bytes, out: bytes) {
    |out| <= |a| == |a0| && a[..|out|] == out && a[|out|..] == a0[|out|..]
  }

  lemma HoldsMore(a: bytes, b: bytes, a0: bytes, out: bytes, x: byte)
    requires Holds(a, a0, out) && |out| < |a| && b == a[|out| := x]
    ensures Holds(b, a0, out + [x])
  {
    assert b[|out| + 1..] == a[|out|..][1..];
    assert a0[|out| + 1..] == a0[|out|..][1..];
  }

  lemma FrontMore(out: bytes, b0: byte, b1: byte, b2: byte, n: nat)
    requires n < 3
    ensures out + Front(b0, b1, b2, n) + [if n == 0 then b0 else if n == 1 then b1 else b2]
            == out + Front(b0, b1, b2, n + 1)
  {
  }

  /** Writes the first n bytes of the buffer. */
  method Flush(dst: array<byte>, at: nat, n: nat, b0: byte, b1: byte, b2: byte, ghost d0: bytes, ghost out: bytes)
    returns (q: nat)
    requires 1 <= n <= 3 && Holds(dst[..], d0, out) && at == |out| && at + n <= dst.Length
    modifies dst
    ensures q == at + n && Holds(dst[..], d0, out + Front(b0, b1, b2, n))
  {
    assert out + Front(b0, b1, b2, 0) == out;
    hide Holds, Front;
    q := at;
    for x := 0 to n
      invariant q == at + x && Holds(dst[..], d0, out + Front(b0, b1, b2, x))
    {
      ghost var before := dst[..];
      var b := if x == 0 then b0 else if x == 1 then b1 else b2;
      FrontMore(out, b0, b1, b2, x);
      dst[q] := b;
      HoldsMore(before, dst[..], d0, out + Front(b0, b1, b2, x), b);
      q := q + 1;
    }
  }

  method RawDecode(src: array<byte>, dst: array<byte>, strict: bool, stale0: byte, stale1: byte, stale2: byte)
    returns (result: nat, err: nat)
    requires 0 in src[..] && Room(|Text(src[..])| + 3) <= dst.Length && src != dst
    modifies dst
    ensures var o := Scan(Text(old(src[..])), 0, State(stale0, stale1, stale2, []), strict);
            err == o.err && result == |o.out| && Holds(dst[..], old(dst[..]), o.out)
  {
    result, err := DecodeText(src, dst, strict, stale0, stale1, stale2, Text(src[..]));
  }

  method DecodeText(src: array<byte>, dst: array<byte>, strict: bool, stale0: byte, stale1: byte, stale2: byte,
                    ghost t: bytes)
    returns (result: nat, err: nat)
    requires |t| < src.Length && src[|t|] == 0 && forall i :: 0 <= i < |t| ==> src[i] == t[i] && t[i] != 0
    requires Room(|t| + 3) <= dst.Length && src != dst
    modifies dst
    ensures var o := Scan(t, 0, State(stale0, stale1, stale2, []), strict);
            err == o.err && result == |o.out| && Holds(dst[..], old(dst[..]), o.out)
  {
    ghost var d0 := dst[..];
    var b0, b1, b2 := stale0, stale1, stale2;
    ghost var d := State(b0, b1, b2, []);
    ghost var whole := Scan(t, 0, d, strict);
    var p, q, pad := 0, 0, 0;
    result, err := 0, 0;
    hide Joined, Value, Holds, Feed, Front, Merged, Room, Scan, IsLetter, Padding;
    HoldsNothing(d0);
    while pad == 0
      invariant pad == 0 ==> p <= |t|
      invariant pad == 0 ==> err == 0 && result == q && Scan(t, p, d, strict) == whole
      invariant d == State(b0, b1, b2, d.out) && q == |d.out| && Holds(dst[..], d0, d.out)
      invariant q <= Room(p) && p <= |t| + 1
      invariant pad <= 2
      invariant pad != 0 ==> q + 3 <= dst.Length && err == 0
      invariant pad != 0 ==> result == q + 3 - pad && whole == Outcome(d.out + Front(b0, b1, b2, 3 - pad), 0)
      decreases if pad == 0 then 1 else 0, |t| - p
    {
      var c := src[p];
      if p < |t| {
        ScanStep(t, p, d, strict);
        RoomStep(p, |t|);
      } else {
        ScanEnd(t, d, strict);
      }
      p := p + 1;
      if c == 0 {
        if (p - 1) % 4 != 0 {
          err := 1;
        }
        return;
      } else if c == EQUALS {
        pad := Padding((p - 1) % 4, src[p]);
        if pad == 0 {
          err := 1;
          return;
        }
        result := result + (3 - pad);
      } else if !IsLetter(c) {
        if strict {
          err := 2;
          return;
        }
      } else {
        b0, b1, b2, q := TakeLetter(dst, q, (p - 1) % 4, Value(c), b0, b1, b2, d0, d.out);
        if (p - 1) % 4 == 3 {
          result := result + 3;
        }
        d := Feed(d, (p - 1) % 4, Value(c));
      }
    }
    q := Flush(dst, q, 3 - pad, b0, b1, b2, d0, d.out);
  }

  lemma ScanEnd(t: bytes, d: State, strict: bool)
    ensures Scan(t, |t|, d, strict) == Outcome(d.out, if |t| % 4 != 0 then 1 else 0)
  {
  }

  lemma HoldsNothing(a: bytes)
    ensures Holds(a, a, [])
  {
  }

  /** A letter goes into the buffer, and the fourth one empties it. */
  method TakeLetter(dst: array<byte>, at: nat, place: nat, x: byte, old0: byte, old1: byte, old2: byte,
                    ghost d0: bytes, ghost out: bytes)
    returns (b0: byte, b1: byte, b2: byte, q: nat)
    requires place < 4 && Holds(dst[..], d0, out) && at == |out| && (place == 3 ==> at + 3 <= dst.Length)
    modifies dst
    ensures q == if place == 3 then at + 3 else at
    ensures var d := Feed(State(old0, old1, old2, out), place, x);
            d == State(b0, b1, b2, d.out) && q == |d.out| && Holds(dst[..], d0, d.out)
  {
    hide Joined, Holds, Merged, Front;
    b0, b1, b2, q := old0, old1, old2, at;
    match place {
      case 0 =>
        b0 := Joined(x, 0, 2);
      case 1 =>
        b0 := Merged(b0, Joined(0, x, 2));
        b1 := Joined(x, 0, 4);
      case 2 =>
        b1 := Merged(b1, Joined(0, x, 4));
        b2 := Joined(x, 0, 6);
      case _ =>
        b2 := Merged(b2, x);
        q := Flush(dst, q, 3, b0, b1, b2, d0, out);
    }
  }

  // ---- round trips ----

  /** Four letters give back their three bytes, whatever the buffer held before. */
  lemma ScanWhole(t: bytes, i: nat, d: State, strict: bool, x: byte, y: byte, z: byte, n: nat) returns (e: State)
    requires i % 4 == 0 && 3 <= n && QuadAt(t, i, x, y, z, n)
    ensures e.out == d.out + [x, y, z] && Scan(t, i, d, strict) == Scan(t, i + 4, e, strict)
  {
    hide Group, Letter, Scan, Feed;
    var d1 := Fed(t, i, d, strict, Group(x, y, z, 0));
    var d2 := Fed(t, i + 1, d1, strict, Group(x, y, z, 1));
    var d3 := Fed(t, i + 2, d2, strict, Group(x, y, z, 2));
    e := Fed(t, i + 3, d3, strict, Group(x, y, z, 3));
    FedFour(d, x, y, z);
  }

  lemma FedFour(d: State, x: byte, y: byte, z: byte)
    ensures var d3 := Feed(Feed(Feed(d, 0, Group(x, y, z, 0)), 1, Group(x, y, z, 1)), 2, Group(x, y, z, 2));
            Feed(d3, 3, Group(x, y, z, 3)).out == d.out + [x, y, z]
  {
    FirstByte(d.b0, x, y, z);
    SecondByte(x, y, z);
    ThirdByte(x, y, z);
    hide Group, Joined, Merged;
  }

  lemma Fed(t: bytes, i: nat, d: State, strict: bool, v: byte) returns (e: State)
    requires i < |t| && v < 64 && t[i] == Letter(v)
    ensures e == Feed(d, i % 4, v) && Scan(t, i, d, strict) == Scan(t, i + 1, e, strict)
  {
    LetterValue(v);
    ScanStep(t, i, d, strict);
    hide Feed, Scan, Letter, Value, IsLetter;
    e := Feed(d, i % 4, v);
  }

  lemma FirstByte(b: byte, x: byte, y: byte, z: byte)
    ensures Merged(Joined(Group(x, y, z, 0), 0, 2), Joined(0, Group(x, y, z, 1), 2)) == x
  {
    JoinedParts(Group(x, y, z, 0), Group(x, y, z, 1), 2);
    GroupsMakeBytes(x, y, z, 0);
    hide Group, Joined;
  }

  lemma SecondByte(x: byte, y: byte, z: byte)
    ensures Merged(Joined(Group(x, y, z, 1), 0, 4), Joined(0, Group(x, y, z, 2), 4)) == y
  {
    JoinedParts(Group(x, y, z, 1), Group(x, y, z, 2), 4);
    GroupsMakeBytes(x, y, z, 1);
    hide Group, Joined;
  }

  lemma ThirdByte(x: byte, y: byte, z: byte)
    ensures Merged(Joined(Group(x, y, z, 2), 0, 6), Group(x, y, z, 3)) == z
  {
    JoinedParts(Group(x, y, z, 2), Group(x, y, z, 3), 6);
    GroupsMakeBytes(x, y, z, 2);
    assert Joined(0, Group(x, y, z, 3), 6) == Group(x, y, z, 3);
    hide Group, Joined;
  }

  /** A padded group gives back the bytes that are there; the second byte of a group of one is never seen. */
  lemma ScanOne(t: bytes, i: nat, d: State, strict: bool, x: byte, y: byte)
    requires i % 4 == 0 && QuadAt(t, i, x, y, 0, 1)
    ensures Scan(t, i, d, strict) == Outcome(d.out + [x], 0)
  {
    assert t[i] == Letter(Group(x, y, 0, 0)) && t[i + 1] == Letter(Group(x, y, 0, 1));
    assert t[i + 2] == EQUALS && t[i + 3] == EQUALS;
    hide QuadAt, QuadLetter;
    var d1 := Fed(t, i, d, strict, Group(x, y, 0, 0));
    var d2 := Fed(t, i + 1, d1, strict, Group(x, y, 0, 1));
    FirstByte(d.b0, x, y, 0);
    hide Group, Joined, Letter, Merged, Scan;
    assert d2.b0 == x && d2.out == d.out;
    ScanStep(t, i + 2, d2, strict);
    assert Padding(2, EQUALS) == 2 && Front(d2.b0, d2.b1, d2.b2, 1) == [x];
  }

  lemma ScanTwo(t: bytes, i: nat, d: State, strict: bool, x: byte, y: byte)
    requires i % 4 == 0 && QuadAt(t, i, x, y, 0, 2)
    ensures Scan(t, i, d, strict) == Outcome(d.out + [x, y], 0)
  {
    assert t[i] == Letter(Group(x, y, 0, 0)) && t[i + 1] == Letter(Group(x, y, 0, 1));
    assert t[i + 2] == Letter(Group(x, y, 0, 2)) && t[i + 3] == EQUALS;
    hide QuadAt, QuadLetter;
    var d1 := Fed(t, i, d, strict, Group(x, y, 0, 0));
    var d2 := Fed(t, i + 1, d1, strict, Group(x, y, 0, 1));
    var d3 := Fed(t, i + 2, d2, strict, Group(x, y, 0, 2));
    FirstByte(d.b0, x, y, 0);
    SecondByte(x, y, 0);
    hide Group, Joined, Letter, Merged, Scan;
    assert d3.b0 == x && d3.b1 == y && d3.out == d.out;
    ScanStep(t, i + 3, d3, strict);
    assert Front(d3.b0, d3.b1, d3.b2, 2) == [x, y];
  }

  /** From a group boundary on, a text that begins with the encoding of s decodes to the rest of s. */
  lemma {:induction false} DecodesFrom(s: bytes, past: byte, t: bytes, g: nat, d: State, strict: bool)
    returns (e: State)
    requires Encoded(s, past) <= t && 3 * g <= |s| && d.out == s[..3 * g]
    ensures e.out == s
    ensures if |s| % 3 != 0 then Scan(t, 4 * g, d, strict) == Outcome(s, 0)
            else 4 * g <= |Encoded(s, past)| && Scan(t, 4 * g, d, strict) == Scan(t, |Encoded(s, past)|, e, strict)
    decreases |s| - 3 * g
  {
    var i := 3 * g;
    hide Encoded, QuadAt, Scan, Quads;
    if |s| == i {
      WholeLength(s, past, g);
      e := d;
      assert s[..i] == s;
    } else {
      QuadOfText(s, past, t, i, g);
      if |s| == i + 1 {
        ScanOne(t, 4 * g, d, strict, s[i], past);
        e := d.(out := s[..i] + [s[i]]);
      } else if |s| == i + 2 {
        ScanTwo(t, 4 * g, d, strict, s[i], s[i + 1]);
        e := d.(out := s[..i] + [s[i], s[i + 1]]);
      } else {
        var d2 := ScanWhole(t, 4 * g, d, strict, s[i], s[i + 1], s[i + 2], |s| - i);
        assert s[..i] + [s[i], s[i + 1], s[i + 2]] == s[..3 * (g + 1)];
        e := DecodesFrom(s, past, t, g + 1, d2, strict);
      }
    }
  }

  lemma WholeLength(s: bytes, past: byte, g: nat)
    requires |s| == 3 * g
    ensures |Encoded(s, past)| == 4 * g && |s| % 3 == 0
  {
  }

  lemma QuadOfText(s: bytes, past: byte, t: bytes, i: nat, g: nat)
    requires Encoded(s, past) <= t && i == 3 * g < |s|
    ensures |s| == i + 1 ==> |s| % 3 == 1 && QuadAt(t, 4 * g, s[i], past, 0, 1)
    ensures |s| == i + 2 ==> |s| % 3 == 2 && QuadAt(t, 4 * g, s[i], s[i + 1], 0, 2)
    ensures |s| >= i + 3 ==> QuadAt(t, 4 * g, s[i], s[i + 1], s[i + 2], |s| - i)
  {
    QuadText(s, past, g);
    hide Encoded, QuadLetter;
    if |s| == i + 1 {
      assert |s| % 3 == 1;
    } else if |s| == i + 2 {
      assert |s| % 3 == 2;
    }
  }

  /** Decoding an encoded string gives it back, whatever byte follows it in memory and whatever the stack held. */
  lemma RoundTrip(s: bytes, past: byte, strict: bool, stale0: byte, stale1: byte, stale2: byte)
    ensures Scan(Encoded(s, past), 0, State(stale0, stale1, stale2, []), strict) == Outcome(s, 0)
  {
    var t := Encoded(s, past);
    var e := DecodesFrom(s, past, t, 0, State(stale0, stale1, stale2, []), strict);
    ScanEnd(t, e, strict);
    assert |t| % 4 == 0;
    hide Encoded, Scan;
  }

  /**
   A foreign character after the text, a line end for instance, is skipped only when the text was
   padded: otherwise the end of the string then comes at a wrong place and the decoding fails.
   */
  lemma TrailingCharacter(s: bytes, past: byte, c: byte, stale0: byte, stale1: byte, stale2: byte)
    requires c != NUL && c != EQUALS && !IsLetter(c)
    ensures Scan(Encoded(s, past) + [c], 0, State(stale0, stale1, stale2, []), false)
         == Outcome(s, if |s| % 3 == 0 then 1 else 0)
  {
    var t := Encoded(s, past) + [c];
    var e := DecodesFrom(s, past, t, 0, State(stale0, stale1, stale2, []), false);
    assert |Encoded(s, past)| % 4 == 0;
    if |s| % 3 == 0 {
      ScanStep(t, |t| - 1, e, false);
      ScanEnd(t, e, false);
    }
    hide Encoded, Scan;
  }

  /** Letters are collected, whatever comes behind them. */
  lemma {:induction false} LettersPass(t: bytes, i: nat, p: nat, d: State, strict: bool) returns (e: State)
    requires i <= p <= |t| && forall k :: i <= k < p ==> t[k] != EQUALS && IsLetter(t[k])
    ensures Scan(t, i, d, strict) == Scan(t, p, e, strict)
    decreases p - i
  {
    e := d;
    if i < p {
      ScanStep(t, i, d, strict);
      e := LettersPass(t, i + 1, p, Feed(d, i % 4, Value(t[i])), strict);
    }
    hide Scan, Feed, Value, IsLetter;
  }

  /**
   Which error the first character that is no letter comes to: the end fits behind whole groups only, one
   equals sign as the last of four characters, two as the last two, and a foreign character only when
   strictness is not asked for.
   */
  lemma ErrorsIff(t: bytes, p: nat, d: State, strict: bool)
    requires p <= |t| && (forall k :: 0 <= k < p ==> t[k] != EQUALS && IsLetter(t[k]))
    requires p == |t| || t[p] == EQUALS || (strict && !IsLetter(t[p]))
    ensures Scan(t, 0, d, strict).err ==
              if p == |t| then if p % 4 == 0 then 0 else 1
              else if t[p] == EQUALS then
                if p % 4 == 3 || (p % 4 == 2 && p + 1 < |t| && t[p + 1] == EQUALS) then 0 else 1
              else 2
  {
    var e := LettersPass(t, 0, p, d, strict);
    if p == |t| {
      ScanEnd(t, e, strict);
    } else {
      ScanStep(t, p, e, strict);
    }
    hide Scan, IsLetter;
  }

  // ---- foreign characters ----

  predicate Foreign(c: byte) {
    c != NUL && c != EQUALS && !IsLetter(c)
  }

  /** Where the equals signs of an encoding begin, and its end if there are none. */
  function FirstEquals(s: bytes): nat {
    (8 * |s| + 5) / 6
  }

  lemma FirstEqualsIs(s: bytes, past: byte)
    ensures var (t, e) := (Encoded(s, past), FirstEquals(s));
            && |t| % 4 == 0 && e == |t| - (if |s| % 3 == 0 then 0 else 3 - |s| % 3)
            && (forall i :: 0 <= i < e ==> t[i] != EQUALS)
            && (forall i :: e <= i < |t| ==> t[i] == EQUALS)
  {
    var t, e := Encoded(s, past), FirstEquals(s);
    LetterCount(|s|, |s| / 3);
    forall i: nat | i < |t| ensures t[i] == EQUALS <==> i >= e {
      assert 6 * i < 8 * |s| <==> i < e;
      if i < e { LetterValue(Sextet(Extended(s, past), i)); }
    }
    hide Sextet, Letter, Extended;
  }

  lemma LetterCount(n: nat, g: nat)
    requires g == n / 3
    ensures (8 * n + 5) / 6 == 4 * Quads(n) - (if n % 3 == 0 then 0 else 3 - n % 3)
    ensures 4 * Quads(n) % 4 == 0
  {
    if n == 3 * g {
      assert (8 * n + 5) / 6 == 4 * g && Quads(n) == g;
    } else if n == 3 * g + 1 {
      assert (8 * n + 5) / 6 == 4 * g + 2 && Quads(n) == g + 1;
    } else {
      assert n == 3 * g + 2 && (8 * n + 5) / 6 == 4 * g + 3 && Quads(n) == g + 1;
    }
  }

  predicate Same(t: bytes, u: bytes, i: nat, j: nat) {
    j <= |t| && j <= |u| && forall x :: i <= x < j ==> t[x] == u[x]
  }

  predicate NoEquals(t: bytes, i: nat, j: nat) {
    j <= |t| && forall x :: i <= x < j ==> t[x] != EQUALS
  }

  /** Up to the first equals sign a scan only collects, and it writes three bytes at a time. */
  function Collected(t: bytes, i: nat, j: nat, d: State): (e: State)
    requires i <= j <= |t|
    ensures |e.out| % 3 == |d.out| % 3
    decreases j - i
  {
    if i == j then d else Collected(t, i + 1, j, Taken(d, i % 4, t[i]))
  }

  function Taken(d: State, q: nat, c: byte): (e: State)
    requires q < 4
    ensures |e.out| % 3 == |d.out| % 3
  {
    if IsLetter(c) then Feed(d, q, Value(c)) else d
  }

  lemma TakenStep(t: bytes, i: nat, d: State)
    requires i < |t| && t[i] != EQUALS
    ensures Scan(t, i, d, false) == Scan(t, i + 1, Taken(d, i % 4, t[i]), false)
  {
    ScanStep(t, i, d, false);
  }

  lemma {:induction false} ScanCollects(t: bytes, i: nat, j: nat, d: State)
    requires i <= j && NoEquals(t, i, j)
    ensures Scan(t, i, d, false) == Scan(t, j, Collected(t, i, j, d), false)
    decreases j - i
  {
    if i < j {
      TakenStep(t, i, d);
      ScanCollects(t, i + 1, j, Taken(d, i % 4, t[i]));
    }
    hide Scan, Taken;
  }

  lemma {:induction false} CollectedSame(t: bytes, u: bytes, i: nat, j: nat, d: State)
    requires i <= j && Same(t, u, i, j)
    ensures Collected(t, i, j, d) == Collected(u, i, j, d)
    decreases j - i
  {
    if i < j {
      CollectedSame(t, u, i + 1, j, Taken(d, i % 4, t[i]));
    }
    hide Taken;
  }

  lemma {:induction false} CollectedForeign(t: bytes, i: nat, j: nat, d: State)
    requires i <= j <= |t| && forall x :: i <= x < j ==> Foreign(t[x])
    ensures Collected(t, i, j, d) == d && NoEquals(t, i, j)
    decreases j - i
  {
    if i < j {
      CollectedForeign(t, i + 1, j, d);
    }
  }

  /** A scan looks at its place modulo four only: n places further on it reads the same text the same way. */
  lemma {:induction false} PlaceModuloFour(t: bytes, u: bytes, n: nat, i: nat, d: State)
    requires i <= |t| && |u| == |t| + n && n % 4 == 0 && forall x :: i <= x < |t| ==> u[x + n] == t[x]
    ensures Scan(t, i, d, false) == Scan(u, i + n, d, false)
    decreases |t| - i
  {
    assert (i + n) % 4 == i % 4;
    if i == |t| {
      ScanEnd(t, d, false);
      ScanEnd(u, d, false);
    } else {
      assert u[i + n] == t[i] && (i + 1 < |t| ==> u[i + 1 + n] == t[i + 1]);
      ScanStep(t, i, d, false);
      ScanStep(u, i + n, d, false);
      if t[i] != EQUALS {
        TakenStep(t, i, d);
        TakenStep(u, i + n, d);
        PlaceModuloFour(t, u, n, i + 1, Taken(d, i % 4, t[i]));
      }
    }
    hide Scan, Taken, Feed, Value;
  }

  /** u is t with foreign characters, n of them, at place p. */
  predicate Strewn(t: bytes, u: bytes, p: nat, n: nat) {
    && p <= |t| && |u| == |t| + n
    && Same(t, u, 0, p)
    && (forall x :: p <= x < p + n ==> Foreign(u[x]))
    && (forall x :: p <= x < |t| ==> u[x + n] == t[x])
  }

  /** In front of the equals signs, whole groups of four are skipped. */
  lemma FoursAreIgnored(t: bytes, u: bytes, p: nat, n: nat, d: State)
    requires Strewn(t, u, p, n) && NoEquals(t, 0, p) && n % 4 == 0
    ensures Scan(u, 0, d, false) == Scan(t, 0, d, false)
  {
    var e := Collected(t, 0, p, d);
    assert NoEquals(u, 0, p);
    ScanCollects(t, 0, p, d);
    ScanCollects(u, 0, p, d);
    CollectedSame(t, u, 0, p, d);
    CollectedForeign(u, p, p + n, e);
    ScanCollects(u, p, p + n, e);
    PlaceModuloFour(t, u, n, p, e);
    hide Scan, Collected;
  }

  /** Any other number puts the equals signs or the end where they do not fit. */
  lemma OthersAreNot(t: bytes, u: bytes, p: nat, n: nat, first: nat, size: nat, d: State)
    requires Strewn(t, u, p, n) && p <= first && NoEquals(t, 0, first) && n % 4 != 0 && d.out == [] && |t| % 4 == 0
    requires size % 3 == 0 ==> first == |t|
    requires size % 3 == 1 ==> first + 2 == |t| && t[first] == EQUALS
    requires size % 3 == 2 ==> first + 1 == |t| && t[first] == EQUALS
    ensures var o := Scan(u, 0, d, false); o.err != 0 || |o.out| != size
  {
    var end := first + n;
    assert NoEquals(u, 0, end) by {
      forall x | 0 <= x < end ensures u[x] != EQUALS {
        if p + n <= x { assert u[x] == t[x - n]; }
      }
    }
    var e := Collected(u, 0, end, d);
    ScanCollects(u, 0, end, d);
    hide Scan, Collected, NoEquals, Feed, Value, IsLetter;
    if size % 3 == 0 {
      ScanEnd(u, e, false);
    } else {
      assert u[end] == t[first];
      ScanStep(u, end, e, false);
    }
  }

  lemma InsertedStrewn(t: bytes, p: nat, f: bytes)
    requires p <= |t| && forall c <- f :: Foreign(c)
    ensures Strewn(t, Inserted(t, p, f), p, |f|)
  {
    hide Foreign;
  }

  /** The text with foreign characters at one place. */
  function Inserted(t: bytes, p: nat, f: bytes): bytes
    requires p <= |t|
  {
    t[..p] + f + t[p..]
  }

  /** Behind the first equals sign the scan has ended, unless a second one was to follow at once. */
  lemma BehindEquals(s: bytes, past: byte, f: bytes, p: nat, d: State)
    requires FirstEquals(s) < p <= |Encoded(s, past)| && f != [] && (forall c <- f :: Foreign(c)) && d.out == []
    ensures Scan(Inserted(Encoded(s, past), p, f), 0, d, false) == Outcome(s, 0)
            <==> |s| % 3 == 2 || p > FirstEquals(s) + 1
  {
    var t, first := Encoded(s, past), FirstEquals(s);
    var u := Inserted(t, p, f);
    FirstEqualsIs(s, past);
    hide Scan, Encoded, FirstEquals;
    if |s| % 3 == 2 || p > first + 1 {
      assert p == |t| && t <= u;
      var e := DecodesFrom(s, past, u, 0, d, false);
    } else {
      InsertedStrewn(t, p, f);
      assert Foreign(u[p]) && NoEquals(u, 0, first) && u[first] == EQUALS && first % 4 == 2;
      ScanCollects(u, 0, first, d);
      ScanStep(u, first, Collected(u, 0, first, d), false);
      hide Strewn, NoEquals, Collected, Inserted;
    }
  }

  /**
   Exactly when foreign characters are ignored, wherever they stand: in front of the equals signs when
   they come in fours, which leaves every later letter its place, and behind the first equals sign
   unless they part it from a second one.
   */
  lemma ForeignCharactersIff(s: bytes, past: byte, f: bytes, p: nat, stale0: byte, stale1: byte, stale2: byte)
    requires p <= |Encoded(s, past)| && forall c <- f :: Foreign(c)
    ensures Scan(Inserted(Encoded(s, past), p, f), 0, State(stale0, stale1, stale2, []), false) == Outcome(s, 0)
       <==> if p <= FirstEquals(s) then |f| % 4 == 0 else f == [] || |s| % 3 == 2 || p > FirstEquals(s) + 1
  {
    var t, d := Encoded(s, past), State(stale0, stale1, stale2, []);
    FirstEqualsIs(s, past);
    InsertedStrewn(t, p, f);
    RoundTrip(s, past, false, stale0, stale1, stale2);
    hide Scan, Encoded, FirstEquals, Strewn, Foreign;
    if p > FirstEquals(s) && f != [] {
      BehindEquals(s, past, f, p, d);
    } else if f == [] {
      assert Inserted(t, p, f) == t;
    } else if |f| % 4 == 0 {
      FoursAreIgnored(t, Inserted(t, p, f), p, |f|, d);
    } else {
      OthersAreNot(t, Inserted(t, p, f), p, |f|, FirstEquals(s), |s|, d);
    }
  }

  // ---- the texts compared ----

  lemma SextetOfExtended(s: bytes, past: byte, k: nat)
    requires 6 * k < 8 * |s|
    ensures Sextet(Extended(s, past), k) == Sextet(s, k) || (|s| % 3 == 1 && k == |s| / 3 * 4 + 1)
  {
    if |s| % 3 == 1 && k != |s| / 3 * 4 + 1 {
      var i, g := k / 4 * 3, |s| / 3;
      assert |s| == 3 * g + 1 && k <= 4 * g;
      if k == 4 * g {
        assert i == 3 * g && k % 4 == 0;
        HighBitsOnly(s[i], past);
      } else {
        assert k / 4 < g;
      }
    }
    hide Group;
  }

  lemma HighBitsOnly(x: byte, y: byte)
    ensures Group(x, y, 0, 0) == Group(x, 0, 0, 0)
  {
  }

  /** Only the high half of the byte past the input can show, in the low bits of the last letter. */
  lemma PastShows(x: byte, past: byte)
    ensures Group(x, past, 0, 1) == Group(x, 0, 0, 1) <==> past < 16
  {
  }

  /** The text is the standard one exactly when no stray bits are read past the input. */
  lemma StandardIff(s: bytes, past: byte)
    ensures Encoded(s, past) == Standard(s) <==> |s| % 3 != 1 || past < 16
  {
    var t, u := Encoded(s, past), Standard(s);
    if |s| % 3 == 1 {
      var g := |s| / 3;
      var k := 4 * g + 1;
      assert |s| == 3 * g + 1 && k / 4 * 3 == 3 * g && k % 4 == 1;
      assert t[k] == Letter(Group(s[3 * g], past, 0, 1)) && u[k] == Letter(Group(s[3 * g], 0, 0, 1));
      PastShows(s[3 * g], past);
      LetterValue(Group(s[3 * g], past, 0, 1));
      LetterValue(Group(s[3 * g], 0, 0, 1));
    }
    hide Group, Letter, Value;
    if |s| % 3 != 1 || past < 16 {
      forall k | 0 <= k < |t| ensures t[k] == u[k] {
        if 6 * k < 8 * |s| {
          SextetOfExtended(s, past, k);
        }
      }
      assert t == u;
    }
  }

  /** The bit-serial codec writes the standard text without its padding, with an A behind whole groups. */
  lemma FishText(h: bytes)
    ensures var letters := (8 * |h| + 5) / 6;
            && letters <= |Standard(h)|
            && (forall k :: letters <= k < |Standard(h)| ==> Standard(h)[k] == EQUALS)
            && FishB64.Encoded(h) == Standard(h)[..letters] + (if |h| % 3 == 0 then [LETTER_A] else [])
  {
    var letters := (8 * |h| + 5) / 6;
    var t := Standard(h)[..letters] + (if |h| % 3 == 0 then [LETTER_A] else []);
    FishLength(|h|, |h| / 3);
    hide Sextet, Standard, FishB64.Encoded;
    forall k: nat | k < |Standard(h)| ensures k >= letters ==> Standard(h)[k] == EQUALS {
      FishLetter(h, k);
    }
    forall k: nat | k < |t| ensures FishB64.Encoded(h)[k] == t[k] {
      FishLetter(h, k);
    }
    assert FishB64.Encoded(h) == t;
  }

  lemma FishLength(n: nat, g: nat)
    requires g == n / 3
    ensures 8 * n / 6 + 1 == (8 * n + 5) / 6 + (if n % 3 == 0 then 1 else 0)
    ensures (8 * n + 5) / 6 <= 4 * Quads(n)
  {
    LetterCount(n, g);
    if n == 3 * g {
      assert 8 * n / 6 == 4 * g;
    } else if n == 3 * g + 1 {
      assert 8 * n / 6 == 4 * g + 1;
    } else {
      assert n == 3 * g + 2 && 8 * n / 6 == 4 * g + 2;
    }
    hide Quads;
  }

  lemma FishLetter(h: bytes, k: nat)
    ensures var letters := (8 * |h| + 5) / 6;
            && (k < letters && k < |Standard(h)| && k < |FishB64.Encoded(h)|
               ==> FishB64.Encoded(h)[k] == Standard(h)[k])
            && (letters <= k < |FishB64.Encoded(h)| ==> FishB64.Encoded(h)[k] == LETTER_A)
            && (letters <= k < |Standard(h)| ==> Standard(h)[k] == EQUALS)
  {
    if 6 * k >= 8 * |h| {
      FishB64.PastTheEnd(h, k);
    }
    hide Sextet;
  }
}
