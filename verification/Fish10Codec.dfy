/** The base64 of FiSH 10: twelve characters for eight bytes, the right word first, low bits first. */
module Fish10Codec {
  import opened Bytes
  import Cbc

  type word = bv32

  /** The letter of a value: dot, slash, digits, small letters, capitals. */
  function Letter(v: byte): (c: byte)
    requires v < 64
    ensures c != 0
  {
    if v < 12 then v + 46 else if v < 38 then v + 85 else v + 27
  }

  predicate IsLetter(c: byte) {
    46 <= c <= 57 || 97 <= c <= 122 || 65 <= c <= 90
  }

  /** The place of a letter in the alphabet; the C side takes every other character for zero. */
  function Code(c: byte): (v: byte)
    ensures v < 64
  {
    if 46 <= c <= 57 then c - 46 else if 97 <= c <= 122 then c - 85 else if 65 <= c <= 90 then c - 27 else 0
  }

  lemma CodeOfLetter(v: byte)
    requires v < 64
    ensures IsLetter(Letter(v)) && Code(Letter(v)) == v
  {
  }

  lemma LetterOfCode(c: byte)
    requires IsLetter(c)
    ensures Letter(Code(c)) == c
  {
  }

  /** The alphabet: dot and slash, the digits, the small letters, the capitals. */
  lemma Alphabet()
    ensures Letter(0) == 0x2e && Letter(1) == 0x2f && Letter(2) == 0x30 && Letter(11) == 0x39
    ensures Letter(12) == 0x61 && Letter(37) == 0x7a && Letter(38) == 0x41 && Letter(63) == 0x5a
    ensures forall v: byte :: v < 63 && v != 11 && v != 37 ==> Letter(v + 1) == Letter(v) + 1
    ensures forall c: byte :: !IsLetter(c) ==> Code(c) == 0
  {
  }

  /** A big-endian word. */
  function Word(b0: byte, b1: byte, b2: byte, b3: byte): word {
    ((b0 as word) << 24) | ((b1 as word) << 16) | ((b2 as word) << 8) | (b3 as word)
  }

  function WordBytes(w: word): (b: bytes)
    ensures |b| == 4
  {
    [((w >> 24) & 255) as byte, ((w >> 16) & 255) as byte, ((w >> 8) & 255) as byte, (w & 255) as byte]
  }

  lemma WordRoundTrip(b0: byte, b1: byte, b2: byte, b3: byte)
    ensures WordBytes(Word(b0, b1, b2, b3)) == [b0, b1, b2, b3]
  {
  }

  lemma BytesRoundTrip(w: word)
    ensures var b := WordBytes(w); Word(b[0], b[1], b[2], b[3]) == w
  {
  }

  /** Six bits of a word, counted from the low end. */
  function Low(w: word): (v: byte)
    ensures v < 64
  {
    (w & 63) as byte
  }

  function Down(w: word): word {
    w >> 6
  }

  /** A value put at place j of a word; what does not fit is lost. */
  function Placed(v: byte, j: nat): word
    requires j < 6
  {
    match j
    case 0 => v as word
    case 1 => (v as word) << 6
    case 2 => (v as word) << 12
    case 3 => (v as word) << 18
    case 4 => (v as word) << 24
    case _ => (v as word) << 30
  }

  function Assembled(v0: byte, v1: byte, v2: byte, v3: byte, v4: byte, v5: byte): word {
    Placed(v0, 0) | Placed(v1, 1) | Placed(v2, 2) | Placed(v3, 3) | Placed(v4, 4) | Placed(v5, 5)
  }

  /** Six values taken from the low end make the word again. */
  lemma SixAssemble(w: word)
    ensures var w1 := Down(w);
            var w2 := Down(w1);
            var w3 := Down(w2);
            var w4 := Down(w3);
            var w5 := Down(w4);
            Assembled(Low(w), Low(w1), Low(w2), Low(w3), Low(w4), Low(w5)) == w
  {
  }

  /** Six values survive being put together, except that only two bits of the last one fit. */
  lemma AssembledSix(v0: byte, v1: byte, v2: byte, v3: byte, v4: byte, v5: byte)
    requires v0 < 64 && v1 < 64 && v2 < 64 && v3 < 64 && v4 < 64 && v5 < 64
    ensures var w := Assembled(v0, v1, v2, v3, v4, v5);
            var w1 := Down(w);
            var w2 := Down(w1);
            var w3 := Down(w2);
            var w4 := Down(w3);
            var w5 := Down(w4);
            Low(w) == v0 && Low(w1) == v1 && Low(w2) == v2 && Low(w3) == v3 && Low(w4) == v4 && Low(w5) == v5 & 3
  {
  }

  // ---- twelve characters for eight bytes ----

  function Sixes(w: word, n: nat): (t: bytes)
    ensures |t| == n
  {
    if n == 0 then [] else [Letter(Low(w))] + Sixes(Down(w), n - 1)
  }

  function GroupText(b: bytes): (t: bytes)
    requires |b| == 8
    ensures |t| == 12
  {
    Sixes(Word(b[4], b[5], b[6], b[7]), 6) + Sixes(Word(b[0], b[1], b[2], b[3]), 6)
  }

  function TextWord(t: bytes): word
    requires |t| == 6
  {
    Assembled(Code(t[0]), Code(t[1]), Code(t[2]), Code(t[3]), Code(t[4]), Code(t[5]))
  }

  /** The word as far as n characters have been read. */
  function Gathered(t: bytes, n: nat): word
    requires n <= 6 <= |t|
  {
    if n == 0 then 0 else Joined(Gathered(t, n - 1), Placed(Code(t[n - 1]), n - 1))
  }

  function Joined(a: word, b: word): word {
    a | b
  }

  lemma GatheredAll(t: bytes)
    requires |t| == 6
    ensures Gathered(t, 6) == TextWord(t)
  {
    assert Gathered(t, 1) == Placed(Code(t[0]), 0);
    assert Gathered(t, 3) == Joined(Joined(Gathered(t, 1), Placed(Code(t[1]), 1)), Placed(Code(t[2]), 2));
    assert Gathered(t, 5) == Joined(Joined(Gathered(t, 3), Placed(Code(t[3]), 3)), Placed(Code(t[4]), 4));
    assert Gathered(t, 6) == Joined(Gathered(t, 5), Placed(Code(t[5]), 5));
    hide Placed, Code, Gathered;
  }

  function GroupBytes(t: bytes): (b: bytes)
    requires |t| == 12
    ensures |b| == 8
  {
    WordBytes(TextWord(t[6..])) + WordBytes(TextWord(t[..6]))
  }

  lemma SixesAt(w: word)
    ensures var t := Sixes(w, 6);
            var w1 := Down(w);
            var w2 := Down(w1);
            var w3 := Down(w2);
            var w4 := Down(w3);
            var w5 := Down(w4);
            t == [Letter(Low(w)), Letter(Low(w1)), Letter(Low(w2)), Letter(Low(w3)), Letter(Low(w4)), Letter(Low(w5))]
  {
    hide Letter, Low, Down;
    var w3 := Down(Down(Down(w)));
    SixesStep(w, 5);
    SixesStep(Down(w), 4);
    SixesStep(Down(Down(w)), 3);
    SixesStep(w3, 2);
    SixesStep(Down(w3), 1);
    SixesStep(Down(Down(w3)), 0);
  }

  /** Character j of a group: six bits of the right word from the low end, then of the left one. */
  lemma GroupCharacters(b: bytes)
    requires |b| == 8
    ensures var t := GroupText(b);
            var right := ((b[4] as word) << 24) | ((b[5] as word) << 16) | ((b[6] as word) << 8) | (b[7] as word);
            var left := ((b[0] as word) << 24) | ((b[1] as word) << 16) | ((b[2] as word) << 8) | (b[3] as word);
            && t[0] == Letter((right & 63) as byte) && t[1] == Letter(((right >> 6) & 63) as byte)
            && t[2] == Letter(((right >> 12) & 63) as byte) && t[3] == Letter(((right >> 18) & 63) as byte)
            && t[4] == Letter(((right >> 24) & 63) as byte) && t[5] == Letter(((right >> 30) & 63) as byte)
            && t[6] == Letter((left & 63) as byte) && t[7] == Letter(((left >> 6) & 63) as byte)
            && t[8] == Letter(((left >> 12) & 63) as byte) && t[9] == Letter(((left >> 18) & 63) as byte)
            && t[10] == Letter(((left >> 24) & 63) as byte) && t[11] == Letter(((left >> 30) & 63) as byte)
  {
    SixesAt(Word(b[4], b[5], b[6], b[7]));
    SixesAt(Word(b[0], b[1], b[2], b[3]));
    ShiftsAdd(Word(b[4], b[5], b[6], b[7]));
    ShiftsAdd(Word(b[0], b[1], b[2], b[3]));
    hide Letter, Sixes;
  }

  lemma ShiftsAdd(w: word)
    ensures (w >> 6) >> 6 == w >> 12 && (w >> 12) >> 6 == w >> 18
    ensures (w >> 18) >> 6 == w >> 24 && (w >> 24) >> 6 == w >> 30
  {
  }

  lemma SixesStep(w: word, n: nat)
    ensures Sixes(w, n + 1) == [Letter(Low(w))] + Sixes(Down(w), n)
  {
  }

  lemma TextWordOfSixes(w: word)
    ensures TextWord(Sixes(w, 6)) == w
  {
    var w1 := Down(w);
    var w2 := Down(w1);
    var w3 := Down(w2);
    var w4 := Down(w3);
    var w5 := Down(w4);
    SixesAt(w);
    SixAssemble(w);
    CodeOfLetter(Low(w));
    CodeOfLetter(Low(w1));
    CodeOfLetter(Low(w2));
    CodeOfLetter(Low(w3));
    CodeOfLetter(Low(w4));
    CodeOfLetter(Low(w5));
    hide Letter, Low, Down, Code, Assembled, Sixes;
  }

  lemma GroupRoundTrip(b: bytes)
    requires |b| == 8
    ensures GroupBytes(GroupText(b)) == b
  {
    var right, left := Word(b[4], b[5], b[6], b[7]), Word(b[0], b[1], b[2], b[3]);
    TextWordOfSixes(right);
    TextWordOfSixes(left);
    WordRoundTrip(b[0], b[1], b[2], b[3]);
    WordRoundTrip(b[4], b[5], b[6], b[7]);
    hide TextWord, Sixes, WordBytes, Word;
    assert GroupText(b)[6..] == Sixes(left, 6) && GroupText(b)[..6] == Sixes(right, 6);
  }

  /** Re-encoding six letters gives them back exactly when the sixth is one of the first four of the alphabet. */
  lemma SixesOfTextWord(t: bytes)
    requires |t| == 6 && forall k :: 0 <= k < 6 ==> IsLetter(t[k])
    ensures Sixes(TextWord(t), 6) == t <==> Code(t[5]) < 4
  {
    var w := TextWord(t);
    AssembledSix(Code(t[0]), Code(t[1]), Code(t[2]), Code(t[3]), Code(t[4]), Code(t[5]));
    SixesAt(w);
    LetterOfCode(t[0]);
    LetterOfCode(t[1]);
    LetterOfCode(t[2]);
    LetterOfCode(t[3]);
    LetterOfCode(t[4]);
    LetterOfCode(t[5]);
    CodeOfLetter(Code(t[5]) & 3);
    TwoBits(Code(t[5]));
    hide Letter, Low, Down, Code, Assembled, Sixes, IsLetter;
  }

  lemma TwoBits(v: byte)
    ensures v & 3 < 64 && (v & 3 == v <==> v < 4)
  {
  }

  // ---- whole strings ----

  function Encoded(data: bytes): (t: bytes)
    requires Cbc.Whole(|data|, 8)
    ensures Cbc.Whole(|t|, 12) && 0 !in t
    decreases |data|
  {
    if data == [] then [] else
      GroupLetters(data[..8]);
      GroupText(data[..8]) + Encoded(data[8..])
  }

  lemma GroupLetters(b: bytes)
    requires |b| == 8
    ensures forall k :: 0 <= k < 12 ==> IsLetter(GroupText(b)[k]) && GroupText(b)[k] != 0
  {
    SixesLetters(Word(b[4], b[5], b[6], b[7]), 6);
    SixesLetters(Word(b[0], b[1], b[2], b[3]), 6);
    hide Sixes, Word, IsLetter;
  }

  lemma {:induction false} SixesLetters(w: word, n: nat)
    ensures forall k :: 0 <= k < n ==> IsLetter(Sixes(w, n)[k]) && Sixes(w, n)[k] != 0
  {
    if n > 0 {
      SixesLetters(Down(w), n - 1);
      CodeOfLetter(Low(w));
    }
    hide Low, Down, Letter, IsLetter;
  }

  function Decoded(t: bytes): (data: bytes)
    requires Cbc.Whole(|t|, 12)
    ensures Cbc.Whole(|data|, 8)
    decreases |t|
  {
    if t == [] then [] else GroupBytes(t[..12]) + Decoded(t[12..])
  }

  predicate AllLetters(t: bytes) {
    forall k :: 0 <= k < |t| ==> IsLetter(t[k])
  }

  /** Decoding inverts encoding on every byte string of whole blocks. */
  lemma {:induction false} DecodedEncoded(data: bytes)
    requires Cbc.Whole(|data|, 8)
    ensures AllLetters(Encoded(data)) && Decoded(Encoded(data)) == data
    decreases |data|
  {
    if data != [] {
      var head, tail := data[..8], data[8..];
      DecodedEncoded(tail);
      GroupRoundTrip(head);
      GroupLetters(head);
      var t := Encoded(data);
      assert t == GroupText(head) + Encoded(tail);
      hide Encoded, GroupText, GroupBytes, IsLetter;
      assert t[..12] == GroupText(head) && t[12..] == Encoded(tail);
      assert data == head + tail;
    }
  }

  /** The letters whose high bits do not fit into a word are in place. */
  predicate Canonical(t: bytes) {
    forall k :: 0 <= k < |t| && k % 6 == 5 ==> Code(t[k]) < 4
  }

  /**
   Encoding what an accepted string decodes to gives the string back exactly when every character at
   a place that is 5 modulo 6 is one of the first four letters of the alphabet.
   */
  lemma {:induction false} ReencodedIff(t: bytes)
    requires Cbc.Whole(|t|, 12) && AllLetters(t)
    ensures Encoded(Decoded(t)) == t <==> Canonical(t)
    decreases |t|
  {
    if t != [] {
      var head, tail := t[..12], t[12..];
      ReencodedIff(tail);
      CanonicalSplit(t);
      GroupReencodedIff(head);
      var data := Decoded(t);
      assert data == GroupBytes(head) + Decoded(tail);
      assert data[..8] == GroupBytes(head) && data[8..] == Decoded(tail);
      assert Encoded(data) == GroupText(data[..8]) + Encoded(data[8..]);
      hide Encoded, Decoded, GroupText, GroupBytes, IsLetter, Canonical;
      assert t == head + tail;
      assert Encoded(data)[..12] == GroupText(GroupBytes(head)) && Encoded(data)[12..] == Encoded(Decoded(tail));
    }
  }

  lemma CanonicalSplit(t: bytes)
    requires |t| >= 12
    ensures Canonical(t) <==> Code(t[5]) < 4 && Code(t[11]) < 4 && Canonical(t[12..])
  {
    hide Code;
    if Code(t[5]) < 4 && Code(t[11]) < 4 && Canonical(t[12..]) {
      forall k | 0 <= k < |t| && k % 6 == 5 ensures Code(t[k]) < 4 {
        if k >= 12 {
          assert t[k] == t[12..][k - 12];
        }
      }
    }
    if Canonical(t) {
      forall k | 0 <= k < |t| - 12 && k % 6 == 5 ensures Code(t[12..][k]) < 4 {
        assert t[12..][k] == t[k + 12];
      }
    }
  }

  lemma GroupReencodedIff(t: bytes)
    requires |t| == 12 && AllLetters(t)
    ensures GroupText(GroupBytes(t)) == t <==> Code(t[5]) < 4 && Code(t[11]) < 4
  {
    var right, left := TextWord(t[..6]), TextWord(t[6..]);
    BytesRoundTrip(right);
    BytesRoundTrip(left);
    SixesOfTextWord(t[..6]);
    SixesOfTextWord(t[6..]);
    hide TextWord, Sixes, WordBytes, Word, Code, IsLetter;
    var b := GroupBytes(t);
    assert b[..4] == WordBytes(left) && b[4..] == WordBytes(right);
    assert GroupText(b) == Sixes(right, 6) + Sixes(left, 6);
    assert t == t[..6] + t[6..];
    assert GroupText(b)[..6] == Sixes(right, 6) && GroupText(b)[6..] == Sixes(left, 6);
  }
}
