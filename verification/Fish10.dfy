/**
 FiSH 10 messages: the Rust side in ECB and CBC mode and the C side in ECB mode. The key schedule and
 the block cipher are opaque; each key permutes the eight-byte blocks.
 */
module Fish10 {
  import opened Wrappers
  import opened Bytes
  import opened CStrings
  import opened ZeroPadding
  import Cbc
  import Codec = Fish10Codec

  datatype RawBlowfish = RawBlowfish(enc: Cbc.BlockFn, dec: Cbc.BlockFn, accepts: bytes -> bool)

  ghost predicate Lawful(s: RawBlowfish) {
    forall key :: Cbc.Inverse(s.enc, s.dec, key, 8)
  }

  type Blowfish = s: RawBlowfish | Lawful(s) ghost witness PlainBlowfish()

  ghost function PlainBlowfish(): (s: RawBlowfish)
    ensures Lawful(s)
  {
    RawBlowfish((_, b) => b, (_, b) => b, _ => true)
  }

  datatype Error = InvalidKey | BadLength | BadCharacter

  // ---- what the operations compute ----

  /** Block by block. */
  function Ecb(f: Cbc.BlockFn, key: bytes, data: bytes): (r: bytes)
    requires Cbc.Sized(f, key, 8) && Cbc.Whole(|data|, 8)
    ensures |r| == |data|
    decreases |data|
  {
    if data == [] then [] else f(key, data[..8]) + Ecb(f, key, data[8..])
  }

  /** The first chaining block is the front of the key. */
  function Iv(key: bytes): (iv: bytes)
    ensures |iv| == 8
  {
    if |key| >= 8 then key[..8] else key + Zeros(8 - |key|)
  }

  lemma Sizes(s: Blowfish, key: bytes)
    ensures Cbc.Inverse(s.enc, s.dec, key, 8) && Cbc.Sized(s.enc, key, 8) && Cbc.Sized(s.dec, key, 8)
  {
    assert Cbc.Inverse(s.enc, s.dec, key, 8);
  }

  /** The text of a message in ECB mode. */
  function Message(s: Blowfish, key: bytes, plain: bytes): (t: bytes)
    ensures Cbc.Whole(|t|, 12)
  {
    Sizes(s, key);
    Codec.Encoded(Ecb(s.enc, key, Padded(plain, 8)))
  }

  /** The decrypted blocks of a text of whole groups in ECB mode. */
  function Blocks(s: Blowfish, key: bytes, t: bytes): bytes
    requires Cbc.Whole(|t|, 12)
  {
    Sizes(s, key);
    Ecb(s.dec, key, Codec.Decoded(t))
  }

  function MessageCbc(s: Blowfish, key: bytes, plain: bytes): (t: bytes)
    ensures Cbc.Whole(|t|, 12)
  {
    Sizes(s, key);
    Codec.Encoded(Cbc.Chain(s.enc, key, Iv(key), Padded(plain, 8)))
  }

  function BlocksCbc(s: Blowfish, key: bytes, t: bytes): bytes
    requires Cbc.Whole(|t|, 12)
  {
    Sizes(s, key);
    Cbc.Unchain(s.dec, key, Iv(key), Codec.Decoded(t))
  }

  // ---- the Rust side ----

  method PushSix(text: bytes, w: Codec.word) returns (result: bytes)
    ensures result == text + Codec.Sixes(w, 6)
  {
    result := text;
    var rest := w;
    hide Codec.Letter, Codec.Low, Codec.Down;
    for j := 0 to 6
      invariant result + Codec.Sixes(rest, 6 - j) == text + Codec.Sixes(w, 6)
    {
      result := result + [Codec.Letter(Codec.Low(rest))];
      rest := Codec.Down(rest);
    }
    assert result + [] == result;
  }

  method Fish10B64Encode(data: bytes) returns (r: Result<bytes, Error>)
    ensures r == if Cbc.Whole(|data|, 8) then Ok(Codec.Encoded(data)) else Err(BadLength)
  {
    Cbc.WholeIsDivisible(|data|, 8);
    if |data| % 8 != 0 {
      return Err(BadLength);
    }
    if data == [] {
      return Ok([]);
    }
    var result: bytes := [];
    var i := 0;
    assert data[0..] == data;
    while i < |data|
      invariant i <= |data| && Cbc.Whole(|data| - i, 8)
      invariant result + Codec.Encoded(data[i..]) == Codec.Encoded(data)
    {
      var left := Codec.Word(data[i], data[i + 1], data[i + 2], data[i + 3]);
      var right := Codec.Word(data[i + 4], data[i + 5], data[i + 6], data[i + 7]);
      EncodedTurn(data, i);
      hide Codec.Encoded, Codec.Sixes, Codec.Word;
      Regroup(result, Codec.Sixes(right, 6) + Codec.Sixes(left, 6), Codec.Encoded(data[i + 8..]));
      Regroup(result, Codec.Sixes(right, 6), Codec.Sixes(left, 6));
      result := PushSix(result, right);
      result := PushSix(result, left);
      i := i + 8;
    }
    assert result + [] == result;
    return Ok(result);
  }

  lemma EncodedTurn(data: bytes, i: nat)
    requires i + 8 <= |data| && Cbc.Whole(|data| - i, 8)
    ensures Cbc.Whole(|data| - i - 8, 8)
    ensures Codec.Encoded(data[i..]) == (Codec.Sixes(Codec.Word(data[i + 4], data[i + 5], data[i + 6], data[i + 7]), 6)
              + Codec.Sixes(Codec.Word(data[i], data[i + 1], data[i + 2], data[i + 3]), 6))
              + Codec.Encoded(data[i + 8..])
  {
    assert data[i..][8..] == data[i + 8..];
    hide Codec.Sixes, Codec.Word;
  }

  /** Six characters into a word, or nothing when one of them is no letter. */
  method TakeSix(t: bytes, i: nat) returns (r: Option<Codec.word>)
    requires i + 6 <= |t|
    ensures r == if Codec.AllLetters(t[i..i + 6]) then Some(Codec.TextWord(t[i..i + 6])) else None
  {
    var w: Codec.word := 0;
    ghost var six := t[i..i + 6];
    hide Codec.Code, Codec.IsLetter, Codec.Placed, Codec.Joined;
    for j := 0 to 6
      invariant w == Codec.Gathered(six, j)
      invariant forall k :: 0 <= k < j ==> Codec.IsLetter(six[k])
    {
      assert six[j] == t[i + j];
      if !Codec.IsLetter(t[i + j]) {
        return None;
      }
      w := Codec.Joined(w, Codec.Placed(Codec.Code(t[i + j]), j));
    }
    Codec.GatheredAll(six);
    return Some(w);
  }

  /** Twelve characters into eight bytes, the left word first. */
  method TakeGroup(t: bytes, i: nat) returns (r: Option<bytes>)
    requires i + 12 <= |t|
    ensures r == if Codec.AllLetters(t[i..i + 12]) then Some(Codec.GroupBytes(t[i..i + 12])) else None
  {
    ghost var group := t[i..i + 12];
    assert group[..6] == t[i..i + 6] && group[6..] == t[i + 6..i + 12];
    LettersSplit(group);
    hide Codec.WordBytes, Codec.TextWord, Codec.AllLetters;
    var right := TakeSix(t, i);
    if right == None {
      return None;
    }
    var left := TakeSix(t, i + 6);
    if left == None {
      return None;
    }
    return Some(Codec.WordBytes(left.value) + Codec.WordBytes(right.value));
  }

  lemma LettersSplit(t: bytes)
    requires |t| == 12
    ensures Codec.AllLetters(t) <==> Codec.AllLetters(t[..6]) && Codec.AllLetters(t[6..])
  {
    hide Codec.IsLetter;
    if Codec.AllLetters(t[..6]) && Codec.AllLetters(t[6..]) {
      forall k | 0 <= k < 12 ensures Codec.IsLetter(t[k]) {
        assert t[k] == if k < 6 then t[..6][k] else t[6..][k - 6];
      }
    }
  }

  method Fish10B64Decode(t: bytes) returns (r: Result<bytes, Error>)
    ensures r == if !Cbc.Whole(|t|, 12) then Err(BadLength)
                 else if !Codec.AllLetters(t) then Err(BadCharacter)
                 else Ok(Codec.Decoded(t))
  {
    Cbc.WholeIsDivisible(|t|, 12);
    if |t| % 12 != 0 {
      return Err(BadLength);
    }
    var result: bytes := [];
    var i := 0;
    assert t[0..] == t;
    hide Codec.IsLetter, Codec.GroupBytes;
    while i < |t|
      invariant i <= |t| && Cbc.Whole(|t| - i, 12)
      invariant Codec.AllLetters(t[..i])
      invariant result + Codec.Decoded(t[i..]) == Codec.Decoded(t)
    {
      DecodedTurn(t, i);
      LettersTurn(t, i);
      var group := TakeGroup(t, i);
      if group == None {
        return Err(BadCharacter);
      }
      Regroup(result, group.value, Codec.Decoded(t[i + 12..]));
      result := result + group.value;
      i := i + 12;
    }
    assert t[..i] == t;
    assert result + [] == result;
    return Ok(result);
  }

  lemma Regroup(a: bytes, b: bytes, c: bytes)
    ensures a + (b + c) == (a + b) + c
  {
  }

  lemma LettersTurn(t: bytes, i: nat)
    requires i + 12 <= |t| && Codec.AllLetters(t[..i])
    ensures Codec.AllLetters(t[i..i + 12]) ==> Codec.AllLetters(t[..i + 12])
    ensures !Codec.AllLetters(t[i..i + 12]) ==> !Codec.AllLetters(t)
  {
    hide Codec.IsLetter;
    if Codec.AllLetters(t[i..i + 12]) {
      var u := t[..i + 12];
      forall k | 0 <= k < |u| ensures Codec.IsLetter(u[k]) {
        assert u[k] == if k < i then t[..i][k] else t[i..i + 12][k - i];
      }
    } else {
      var k :| 0 <= k < 12 && !Codec.IsLetter(t[i..i + 12][k]);
      assert t[i + k] == t[i..i + 12][k];
    }
  }

  lemma DecodedTurn(t: bytes, i: nat)
    requires i + 12 <= |t| && Cbc.Whole(|t| - i, 12)
    ensures Cbc.Whole(|t| - i - 12, 12)
    ensures Codec.Decoded(t[i..]) == Codec.GroupBytes(t[i..i + 12]) + Codec.Decoded(t[i + 12..])
  {
    hide Codec.GroupBytes;
    assert t[i..][12..] == t[i + 12..];
    assert t[i..][..12] == t[i..i + 12];
  }

  /** The padding of both encryptors. */
  method Pad(plain: bytes) returns (r: bytes)
    ensures r == Padded(plain, 8)
  {
    PadLenIsRemainder(|plain|, 8);
    var padLen := (8 - |plain| % 8) % 8;
    r := plain + Zeros(padLen);
  }

  /** Cuts the trailing zero bytes off. */
  method TrimEnd(p: bytes) returns (r: bytes)
    ensures r == TrimZeros(p)
  {
    var end: nat := |p|;
    while end > 0 && p[end - 1] == 0
      invariant end <= |p| && forall k :: end <= k < |p| ==> p[k] == 0
    {
      end := end - 1;
    }
    TrimUnique(p, p[..end]);
    r := p[..end];
  }

  lemma EcbTurn(f: Cbc.BlockFn, key: bytes, data: bytes, i: nat)
    requires Cbc.Sized(f, key, 8) && i + 8 <= |data| && Cbc.Whole(|data| - i, 8)
    ensures Cbc.Whole(|data| - i - 8, 8)
    ensures Ecb(f, key, data[i..]) == f(key, data[i..i + 8]) + Ecb(f, key, data[i + 8..])
  {
    assert data[i..][8..] == data[i + 8..];
    assert data[i..][..8] == data[i..i + 8];
  }

  method RunEcb(f: Cbc.BlockFn, key: bytes, data: bytes) returns (r: bytes)
    requires Cbc.Sized(f, key, 8) && Cbc.Whole(|data|, 8)
    ensures r == Ecb(f, key, data)
  {
    r := [];
    var i := 0;
    assert data[0..] == data;
    while i < |data|
      invariant i <= |data| && Cbc.Whole(|data| - i, 8)
      invariant r + Ecb(f, key, data[i..]) == Ecb(f, key, data)
    {
      ghost var before := r;
      EcbTurn(f, key, data, i);
      var block := data[i..i + 8];
      r := r + f(key, block);
      i := i + 8;
      hide Ecb;
      assert before + (f(key, block) + Ecb(f, key, data[i..])) == r + Ecb(f, key, data[i..]);
    }
    assert r + [] == r;
  }

  method EncryptMessage(s: Blowfish, key: bytes, plain: bytes) returns (r: Result<bytes, Error>)
    ensures r == if s.accepts(key) then Ok(Message(s, key, plain)) else Err(InvalidKey)
  {
    if !s.accepts(key) {
      return Err(InvalidKey);
    }
    var data := Pad(plain);
    Sizes(s, key);
    var ciphertext := RunEcb(s.enc, key, data);
    r := Fish10B64Encode(ciphertext);
  }

  method DecryptMessage(s: Blowfish, key: bytes, t: bytes) returns (r: Result<bytes, Error>)
    ensures r == if !s.accepts(key) then Err(InvalidKey)
                 else if !Cbc.Whole(|t|, 12) then Err(BadLength)
                 else if !Codec.AllLetters(t) then Err(BadCharacter)
                 else Ok(TrimZeros(Blocks(s, key, t)))
  {
    if !s.accepts(key) {
      return Err(InvalidKey);
    }
    var ciphertext := Fish10B64Decode(t);
    if ciphertext.Err? {
      return ciphertext;
    }
    Sizes(s, key);
    var plaintext := RunEcb(s.dec, key, ciphertext.value);
    plaintext := TrimEnd(plaintext);
    return Ok(plaintext);
  }

  /** The chaining block both CBC operations start from. */
  method FirstBlock(key: bytes) returns (iv: bytes)
    ensures iv == Iv(key)
  {
    var block := new byte[8];
    MemZero(block);
    CopyIn(block, if |key| >= 8 then key[..8] else key);
    iv := block[..];
  }

  method XorInto(block: array<byte>, prev: bytes)
    requires block.Length == |prev| == 8
    modifies block
    ensures block[..] == Xor(old(block[..]), prev)
  {
    ghost var b := block[..];
    for i := 0 to 8
      invariant forall k :: 0 <= k < i ==> block[k] == b[k] ^ prev[k]
      invariant forall k :: i <= k < 8 ==> block[k] == b[k]
    {
      block[i] := block[i] ^ prev[i];
    }
    forall k | 0 <= k < 8 ensures block[k] == Xor(b, prev)[k] {
      XorAt(b, prev, k);
    }
  }

  /** One block, chained. */
  method ChainBlock(s: Blowfish, key: bytes, block: bytes, prev: bytes) returns (output: bytes)
    requires |block| == 8 == |prev|
    ensures output == s.enc(key, Xor(block, prev))
  {
    var work := new byte[8];
    CopyIn(work, block);
    assert work[..] == block;
    XorInto(work, prev);
    output := s.enc(key, work[..]);
  }

  method UnchainBlock(s: Blowfish, key: bytes, block: bytes, prev: bytes) returns (output: bytes)
    requires |block| == 8 == |prev| && |s.dec(key, block)| == 8
    ensures output == Xor(s.dec(key, block), prev)
  {
    var work := new byte[8];
    CopyIn(work, s.dec(key, block));
    assert work[..] == s.dec(key, block);
    XorInto(work, prev);
    output := work[..];
  }

  method EncryptMessageCbc(s: Blowfish, key: bytes, plain: bytes) returns (r: Result<bytes, Error>)
    ensures r == if s.accepts(key) then Ok(MessageCbc(s, key, plain)) else Err(InvalidKey)
  {
    var data := Pad(plain);
    var prev := FirstBlock(key);
    if !s.accepts(key) {
      return Err(InvalidKey);
    }
    Sizes(s, key);
    var rest := data;
    var ciphertext: bytes := [];
    ghost var whole := Cbc.Chain(s.enc, key, prev, data);
    assert ciphertext + whole == whole;
    while rest != []
      invariant |prev| == 8 && Cbc.Whole(|rest|, 8)
      invariant ciphertext + Cbc.Chain(s.enc, key, prev, rest) == whole
      decreases |rest|
    {
      Cbc.ChainLead(s.enc, key, prev, rest);
      hide Cbc.Chain, Xor, Lawful;
      var output := ChainBlock(s, key, rest[..8], prev);
      Regroup(ciphertext, output, Cbc.Chain(s.enc, key, output, rest[8..]));
      ciphertext := ciphertext + output;
      prev := output;
      rest := rest[8..];
    }
    assert ciphertext + [] == ciphertext;
    r := Fish10B64Encode(ciphertext);
  }

  method DecryptMessageCbc(s: Blowfish, key: bytes, t: bytes) returns (r: Result<bytes, Error>)
    ensures r == if !Cbc.Whole(|t|, 12) then Err(BadLength)
                 else if !Codec.AllLetters(t) then Err(BadCharacter)
                 else if !s.accepts(key) then Err(InvalidKey)
                 else Ok(TrimZeros(BlocksCbc(s, key, t)))
  {
    var ciphertext := Fish10B64Decode(t);
    if ciphertext.Err? {
      return ciphertext;
    }
    var prev := FirstBlock(key);
    if !s.accepts(key) {
      return Err(InvalidKey);
    }
    Sizes(s, key);
    var rest := ciphertext.value;
    var plaintext: bytes := [];
    ghost var whole := Cbc.Unchain(s.dec, key, prev, rest);
    assert plaintext + whole == whole;
    while rest != []
      invariant |prev| == 8 && Cbc.Whole(|rest|, 8)
      invariant plaintext + Cbc.Unchain(s.dec, key, prev, rest) == whole
      decreases |rest|
    {
      assert rest[..8] + rest[8..] == rest;
      Cbc.UnchainLead(s.dec, key, prev, rest[..8], rest[8..]);
      hide Cbc.Unchain, Xor, Lawful;
      var output := UnchainBlock(s, key, rest[..8], prev);
      Regroup(plaintext, output, Cbc.Unchain(s.dec, key, rest[..8], rest[8..]));
      plaintext := plaintext + output;
      prev := rest[..8];
      rest := rest[8..];
    }
    assert plaintext + [] == plaintext;
    plaintext := TrimEnd(plaintext);
    return Ok(plaintext);
  }

  // ---- the C side ----

  /** Six characters of a word into a result whose text is known beforehand. */
  method EmitSix(result: array<byte>, d: nat, w: Codec.word, ghost r0: bytes, ghost t: bytes) returns (next: nat)
    requires Written(result[..], r0, t, d) && d + 6 <= |t| && |t| < result.Length
    requires t[d..d + 6] == Codec.Sixes(w, 6)
    modifies result
    ensures next == d + 6 && Written(result[..], r0, t, next)
  {
    var rest := w;
    next := d;
    hide Codec.Letter, Codec.Low, Codec.Down, Written;
    for i := 0 to 6
      invariant next == d + i && Written(result[..], r0, t, next)
      invariant t[next..d + 6] == Codec.Sixes(rest, 6 - i)
    {
      assert t[next] == t[next..d + 6][0] && t[next + 1..d + 6] == t[next..d + 6][1..];
      next := Emit(result, next, Codec.Letter(Codec.Low(rest)), r0, t);
      rest := Codec.Down(rest);
    }
  }

  /** One turn of the C loop, seen on the whole text: a block gives the next twelve characters. */
  lemma EncryptTurn(s: Blowfish, key: bytes, data: bytes, p: nat, t: bytes, d: nat)
    requires p + 8 <= |data| && Cbc.Whole(|data| - p, 8) && Cbc.Sized(s.enc, key, 8) && d <= |t|
    requires t[d..] == Codec.Encoded(Ecb(s.enc, key, data[p..]))
    ensures var b := s.enc(key, data[p..p + 8]);
            && |b| == 8 && d + 12 <= |t| && Cbc.Whole(|data| - p - 8, 8)
            && t[d..d + 6] == Codec.Sixes(Codec.Word(b[4], b[5], b[6], b[7]), 6)
            && t[d + 6..d + 12] == Codec.Sixes(Codec.Word(b[0], b[1], b[2], b[3]), 6)
            && t[d + 12..] == Codec.Encoded(Ecb(s.enc, key, data[p + 8..]))
  {
    EcbTurn(s.enc, key, data, p);
    var b := s.enc(key, data[p..p + 8]);
    var rest := Ecb(s.enc, key, data[p + 8..]);
    assert (b + rest)[..8] == b && (b + rest)[8..] == rest;
    assert t[d..] == Codec.GroupText(b) + Codec.Encoded(rest);
    hide Codec.Sixes, Codec.Word, Codec.Encoded, Ecb;
    assert t[d..d + 6] == t[d..][..6] && t[d + 6..d + 12] == t[d..][6..12] && t[d + 12..] == t[d..][12..];
  }

  /** The length of the text, as the C side computes it for its allocation. */
  lemma {:induction false} EncodedLength(data: bytes)
    requires Cbc.Whole(|data|, 8)
    ensures |data| % 8 == 0 && |Codec.Encoded(data)| == |data| / 8 * 12
    decreases |data|
  {
    if data != [] {
      EncodedLength(data[8..]);
      hide Codec.GroupText;
    }
  }

  lemma PaddedLength(plain: bytes)
    ensures |Padded(plain, 8)| / 8 == (|plain| + 7) / 8
  {
    PadLenIsRemainder(|plain|, 8);
  }

  /** Twelve characters for every eight bytes begun, in both modes. */
  lemma TextLength(s: Blowfish, key: bytes, plain: bytes)
    ensures |Message(s, key, plain)| == (|plain| + 7) / 8 * 12
    ensures |MessageCbc(s, key, plain)| == (|plain| + 7) / 8 * 12
  {
    var data := Padded(plain, 8);
    hide Codec.Encoded, Ecb, Cbc.Chain, Iv, Lawful, Cbc.Whole;
    Sizes(s, key);
    PaddedLength(plain);
    EncodedLength(Ecb(s.enc, key, data));
    EncodedLength(Cbc.Chain(s.enc, key, Iv(key), data));
  }

  /** Eight bytes of a buffer, put through the cipher in place. */
  method BlockAt(f: Cbc.BlockFn, key: bytes, buf: array<byte>, p: nat)
    requires p + 8 <= buf.Length && |f(key, buf[p..p + 8])| == 8
    modifies buf
    ensures buf[..] == old(buf[..p]) + f(key, old(buf[p..p + 8])) + old(buf[p + 8..])
  {
    CopyAt(buf, p, f(key, buf[p..p + 8]));
  }

  /** The C loop is at a block of the padded text exactly when it sees no NUL. */
  lemma LoopGuard(t: bytes, buf: bytes, p: nat)
    requires 0 !in t && buf == t + Zeros(9) && p <= |Padded(t, 8)| && Cbc.Whole(|Padded(t, 8)| - p, 8)
    ensures p < |buf| && (buf[p] != 0 <==> p < |Padded(t, 8)|)
    ensures p < |Padded(t, 8)| ==> p + 8 <= |Padded(t, 8)| <= |buf| && buf[p..p + 8] == Padded(t, 8)[p..p + 8]
  {
    var data := Padded(t, 8);
    if p < |data| {
      assert p + 8 <= |data| < |t| + 8;
      assert buf[p] == t[p];
    } else {
      assert buf[p] == 0;
    }
  }

  method Encrypts(s: Blowfish, key: bytes, str: array<byte>) returns (result: array<byte>)
    requires 0 in str[..]
    ensures fresh(result) && 0 in result[..] && Text(result[..]) == Message(s, key, Text(str[..]))
    ensures str[..] == old(str[..])
  {
    ghost var text := Text(str[..]);
    ghost var data, t := Padded(text, 8), Message(s, key, text);
    var length := StrLen(str);
    var buf := new byte[length + 9];
    MemZero(buf);
    CopyIn(buf, str[..length]);
    assert buf[..] == text + Zeros(9);
    Sizes(s, key);
    EncodedLength(Ecb(s.enc, key, data));
    PadLenIsRemainder(length, 8);
    result := new byte[(if length % 8 == 0 then length / 8 * 12 else 12 + length / 8 * 12) + 1];
    assert result.Length == |t| + 1;
    var d := EncryptLoop(s, key, text, buf, result);
    ghost var written := result[..];
    MessageHasNoNul(s, key, text);
    hide Message;
    result[d] := 0;
    WrittenText(written, result[..], written, t);
  }

  lemma MessageHasNoNul(s: Blowfish, key: bytes, plain: bytes)
    ensures 0 !in Message(s, key, plain)
  {
  }

  /** The C loop has come to place p of the input and place d of the text. */
  ghost predicate Midway(s: Blowfish, key: bytes, text: bytes, t: bytes, p: nat, d: nat) {
    var data := Padded(text, 8);
    && Cbc.Sized(s.enc, key, 8)
    && p <= |data| && Cbc.Whole(|data| - p, 8) && d <= |t|
    && t[d..] == Codec.Encoded(Ecb(s.enc, key, data[p..]))
  }

  lemma MidwayStart(s: Blowfish, key: bytes, text: bytes)
    ensures Midway(s, key, text, Message(s, key, text), 0, 0)
  {
    Sizes(s, key);
    var data, t := Padded(text, 8), Message(s, key, text);
    assert data[0..] == data && t[0..] == t;
  }

  /** A NUL is seen exactly at the end of the text; otherwise the next block gives the next twelve characters. */
  lemma MidwayStep(s: Blowfish, key: bytes, text: bytes, buf: bytes, t: bytes, p: nat, d: nat)
    requires Midway(s, key, text, t, p, d) && 0 !in text && buf == text + Zeros(9)
    ensures p < |buf|
    ensures buf[p] == 0 ==> d == |t|
    ensures buf[p] != 0 ==> p + 8 <= |Padded(text, 8)| <= |buf| && StepText(t, d, s.enc(key, buf[p..p + 8]))
                            && Midway(s, key, text, t, p + 8, d + 12)
  {
    var data := Padded(text, 8);
    LoopGuard(text, buf, p);
    if buf[p] != 0 {
      EncryptTurn(s, key, data, p, t, d);
    } else {
      assert data[p..] == [] && Ecb(s.enc, key, []) == [] && Codec.Encoded([]) == [];
    }
    hide Codec.Sixes, Codec.Word, Ecb, Codec.Encoded, Padded, Cbc.Sized;
  }

  /** The words of an encrypted block are the next twelve characters. */
  predicate StepText(t: bytes, d: nat, b: bytes) {
    && |b| == 8 && d + 12 <= |t|
    && t[d..d + 6] == Codec.Sixes(Codec.Word(b[4], b[5], b[6], b[7]), 6)
    && t[d + 6..d + 12] == Codec.Sixes(Codec.Word(b[0], b[1], b[2], b[3]), 6)
  }

  /** The body of the C loop: a block is encrypted in place, then its words are written, the right one first. */
  method EncryptStep(s: Blowfish, key: bytes, buf: array<byte>, result: array<byte>, at: nat, from: nat,
                     ghost b0: bytes, ghost r0: bytes, ghost t: bytes)
    returns (p: nat, d: nat)
    requires at + 8 <= buf.Length == |b0| && buf[at..] == b0[at..] && buf != result
    requires Written(result[..], r0, t, from) && |t| < result.Length
    requires StepText(t, from, s.enc(key, b0[at..at + 8]))
    modifies buf, result
    ensures p == at + 8 && d == from + 12 && Written(result[..], r0, t, d)
    ensures buf[p..] == b0[p..]
  {
    ghost var b := s.enc(key, b0[at..at + 8]);
    assert buf[at..at + 8] == buf[at..][..8] == b0[at..at + 8];
    BlockAt(s.enc, key, buf, at);
    assert buf[at..at + 8] == b;
    assert buf[at + 8..] == old(buf[at..])[8..] == b0[at + 8..];
    hide Codec.Sixes, Codec.Word, Written, Lawful;
    p := at;
    var left := Codec.Word(buf[p], buf[p + 1], buf[p + 2], buf[p + 3]);
    p := p + 4;
    var right := Codec.Word(buf[p], buf[p + 1], buf[p + 2], buf[p + 3]);
    p := p + 4;
    assert left == Codec.Word(b[0], b[1], b[2], b[3]) && right == Codec.Word(b[4], b[5], b[6], b[7]);
    d := EmitSix(result, from, right, r0, t);
    d := EmitSix(result, d, left, r0, t);
  }

  method EncryptLoop(s: Blowfish, key: bytes, ghost text: bytes, buf: array<byte>, result: array<byte>) returns (d: nat)
    requires 0 !in text && buf[..] == text + Zeros(9) && buf != result && result.Length == |Message(s, key, text)| + 1
    modifies buf, result
    ensures d == |Message(s, key, text)| && result[..d] == Message(s, key, text)
  {
    ghost var t, r0, b0 := Message(s, key, text), result[..], buf[..];
    var p := 0;
    d := 0;
    assert Written(result[..], r0, t, 0);
    MidwayStart(s, key, text);
    MidwayStep(s, key, text, b0, t, 0, 0);
    hide Message, Written, StepText, Midway, Lawful, Padded;
    while buf[p] != 0
      invariant p < |b0| && buf[p] == b0[p] && buf[p..] == b0[p..]
      invariant Midway(s, key, text, t, p, d) && Written(result[..], r0, t, d)
      decreases |b0| - p
    {
      MidwayStep(s, key, text, b0, t, p, d);
      p, d := EncryptStep(s, key, buf, result, p, d, b0, r0, t);
      MidwayStep(s, key, text, b0, t, p, d);
      assert buf[p] == buf[p..][0] && b0[p] == b0[p..][0];
    }
    MidwayStep(s, key, text, b0, t, p, d);
    WrittenAll(result[..], r0, t);
  }

  /** Six characters into a word; a character that is no letter counts as zero. */
  method GatherSix(str: array<byte>, d: nat) returns (w: Codec.word)
    requires d + 6 <= str.Length
    ensures w == Codec.TextWord(str[d..d + 6])
  {
    ghost var six := str[d..d + 6];
    w := 0;
    hide Codec.Code, Codec.Placed, Codec.Joined;
    for i := 0 to 6
      invariant w == Codec.Gathered(six, i)
    {
      assert six[i] == str[d + i];
      w := Codec.Joined(w, Codec.Placed(Codec.Code(str[d + i]), i));
    }
    Codec.GatheredAll(six);
  }

  lemma {:induction false} DecodedLength(t: bytes)
    requires Cbc.Whole(|t|, 12)
    ensures |t| % 12 == 0 && |Codec.Decoded(t)| == |t| / 12 * 8
    decreases |t|
  {
    if t != [] {
      DecodedLength(t[12..]);
      hide Codec.GroupBytes;
    }
  }

  /** The C loop has come to place d of the text and place c of the result. */
  ghost predicate Halfway(s: Blowfish, key: bytes, t: bytes, plain: bytes, c: nat, d: nat) {
    && Cbc.Sized(s.dec, key, 8)
    && d <= |t| && Cbc.Whole(|t| - d, 12) && c <= |plain|
    && plain[c..] == Ecb(s.dec, key, Codec.Decoded(t[d..]))
  }

  lemma HalfwayStart(s: Blowfish, key: bytes, t: bytes)
    requires Cbc.Whole(|t|, 12)
    ensures Halfway(s, key, t, Blocks(s, key, t), 0, 0)
  {
    Sizes(s, key);
    assert t[0..] == t && Blocks(s, key, t)[0..] == Blocks(s, key, t);
  }

  lemma HalfwayStep(s: Blowfish, key: bytes, t: bytes, plain: bytes, c: nat, d: nat)
    requires Halfway(s, key, t, plain, c, d)
    ensures d == |t| ==> c == |plain|
    ensures d < |t| ==>
      && d + 12 <= |t| && c + 8 <= |plain| && |s.dec(key, Codec.GroupBytes(t[d..d + 12]))| == 8
      && plain[c..c + 8] == s.dec(key, Codec.GroupBytes(t[d..d + 12]))
      && Halfway(s, key, t, plain, c + 8, d + 12)
  {
    if d < |t| {
      DecodedTurn(t, d);
      var data := Codec.Decoded(t[d..]);
      var b := Codec.GroupBytes(t[d..d + 12]);
      var rest := Codec.Decoded(t[d + 12..]);
      assert data[..8] == b && data[8..] == rest;
      assert plain[c..] == s.dec(key, b) + Ecb(s.dec, key, rest);
      hide Codec.GroupBytes, Codec.Decoded, Ecb;
      assert plain[c..c + 8] == plain[c..][..8] && plain[c + 8..] == plain[c..][8..];
    } else {
      assert t[d..] == [] && Codec.Decoded([]) == [] && Ecb(s.dec, key, []) == [];
    }
  }

  /** A text of whole groups; the loop of the source would otherwise run past the end of the string. */
  method Decrypts(s: Blowfish, key: bytes, str: array<byte>) returns (result: array<byte>)
    requires 0 in str[..] && Cbc.Whole(|Text(str[..])|, 12)
    ensures fresh(result) && result[..] == Blocks(s, key, Text(old(str[..]))) + [0]
  {
    ghost var t := Text(str[..]);
    ghost var plain := Blocks(s, key, t);
    var length := StrLen(str);
    DecodedLength(t);
    Sizes(s, key);
    result := new byte[length / 12 * 8 + 1];
    var c := DecryptLoop(s, key, t, str, result);
    result[c] := 0;
    assert result[..] == plain + [0];
  }

  method DecryptLoop(s: Blowfish, key: bytes, ghost t: bytes, str: array<byte>, result: array<byte>) returns (c: nat)
    requires t < str[..] && str[|t|] == 0 && 0 !in t && Cbc.Whole(|t|, 12) && str != result
    requires result.Length == |Blocks(s, key, t)| + 1
    modifies result
    ensures c == |Blocks(s, key, t)| && result[..c] == Blocks(s, key, t)
  {
    ghost var plain, r0, s0 := Blocks(s, key, t), result[..], str[..];
    var d := 0;
    c := 0;
    HalfwayStart(s, key, t);
    assert Written(result[..], r0, plain, 0);
    hide Blocks, Halfway, Written, Lawful, Codec.GroupBytes;
    while str[d] != 0
      invariant d <= |t| && str[..] == s0
      invariant Halfway(s, key, t, plain, c, d) && Written(result[..], r0, plain, c)
      decreases |t| - d
    {
      HalfwayStep(s, key, t, plain, c, d);
      assert str[d..d + 12] == t[d..d + 12];
      c, d := DecryptStep(s, key, str, result, c, d, r0, plain);
    }
    HalfwayStep(s, key, t, plain, c, d);
    WrittenAll(result[..], r0, plain);
  }

  /** The body of the C loop: the left word of a group comes first in the block, which is decrypted in place. */
  method DecryptStep(s: Blowfish, key: bytes, str: array<byte>, result: array<byte>, at: nat, from: nat,
                     ghost r0: bytes, ghost plain: bytes)
    returns (c: nat, d: nat)
    requires from + 12 <= str.Length && at + 8 <= |plain| < result.Length && str != result
    requires Written(result[..], r0, plain, at)
    requires |s.dec(key, Codec.GroupBytes(str[from..from + 12]))| == 8
    requires plain[at..at + 8] == s.dec(key, Codec.GroupBytes(str[from..from + 12]))
    modifies result
    ensures c == at + 8 && d == from + 12 && Written(result[..], r0, plain, c)
  {
    ghost var group, before := str[from..from + 12], result[..];
    assert group[..6] == str[from..from + 6] && group[6..] == str[from + 6..from + 12];
    d := from;
    var right := GatherSix(str, d);
    d := d + 6;
    var left := GatherSix(str, d);
    d := d + 6;
    c := at;
    ghost var block := Codec.WordBytes(left) + Codec.WordBytes(right);
    assert block == Codec.GroupBytes(group);
    hide Codec.WordBytes, Codec.TextWord, Codec.GroupBytes, Lawful, Written;
    CopyAt(result, c, Codec.WordBytes(left) + Codec.WordBytes(right));
    assert result[c..c + 8] == block && result[..c] == before[..c] && result[c + 8..] == before[c + 8..];
    BlockAt(s.dec, key, result, c);
    WrittenBlock(before, result[..], r0, plain, at, 8);
    c := c + 8;
  }

  // ---- what one side reads of the other ----

  lemma {:induction false} EcbInverse(s: Blowfish, key: bytes, data: bytes)
    requires Cbc.Whole(|data|, 8) && Cbc.Inverse(s.enc, s.dec, key, 8)
    ensures Ecb(s.dec, key, Ecb(s.enc, key, data)) == data
    decreases |data|
  {
    if data != [] {
      var e, rest := s.enc(key, data[..8]), Ecb(s.enc, key, data[8..]);
      EcbInverse(s, key, data[8..]);
      assert (e + rest)[..8] == e && (e + rest)[8..] == rest;
    }
  }

  /** Decrypting an encrypted message gives the padded text back, block for block, in both modes. */
  lemma MessageOpens(s: Blowfish, key: bytes, plain: bytes)
    ensures Blocks(s, key, Message(s, key, plain)) == Padded(plain, 8)
    ensures BlocksCbc(s, key, MessageCbc(s, key, plain)) == Padded(plain, 8)
    ensures Codec.AllLetters(Message(s, key, plain)) && Codec.AllLetters(MessageCbc(s, key, plain))
  {
    Sizes(s, key);
    var data := Padded(plain, 8);
    Codec.DecodedEncoded(Ecb(s.enc, key, data));
    EcbInverse(s, key, data);
    Codec.DecodedEncoded(Cbc.Chain(s.enc, key, Iv(key), data));
    Cbc.UnchainChain(s.enc, s.dec, key, Iv(key), data);
    hide Padded, Codec.Encoded, Codec.Decoded, Ecb, Cbc.Chain, Cbc.Unchain;
  }

  /** The Rust side reads back every text without its trailing NULs, and so exactly the texts that have none. */
  lemma RustReadsRust(s: Blowfish, key: bytes, plain: bytes)
    ensures TrimZeros(Blocks(s, key, Message(s, key, plain))) == TrimZeros(plain)
    ensures TrimZeros(BlocksCbc(s, key, MessageCbc(s, key, plain))) == TrimZeros(plain)
    ensures TrimZeros(plain) == plain <==> plain == [] || plain[|plain| - 1] != 0
  {
    MessageOpens(s, key, plain);
    TrimPadded(plain, PadLen(|plain|, 8));
    if plain != [] && plain[|plain| - 1] != 0 {
      TrimUnique(plain, plain);
    }
    hide Message, MessageCbc, Blocks, BlocksCbc;
  }

  /** What the C decryptor leaves in its result is, as a string, what either encryptor was given. */
  lemma CReads(s: Blowfish, key: bytes, plain: bytes)
    requires 0 !in plain
    ensures 0 in Blocks(s, key, Message(s, key, plain)) + [0]
    ensures Text(Blocks(s, key, Message(s, key, plain)) + [0]) == plain
  {
    MessageOpens(s, key, plain);
    hide Message, Blocks;
    var r := Padded(plain, 8) + [0];
    assert plain < r && r[|plain|] == 0;
    TextIs(r, plain);
  }

  // ---- what a changed group changes ----

  lemma {:induction false} DecodedBlock(t: bytes, k: nat)
    requires Cbc.Whole(|t|, 12)
    ensures Cbc.HasBlock(|t|, 12, k) <==> Cbc.HasBlock(|Codec.Decoded(t)|, 8, k)
    ensures Cbc.HasBlock(|t|, 12, k) ==>
      Cbc.Block(Codec.Decoded(t), 8, k) == Codec.GroupBytes(Cbc.Block(t, 12, k))
    decreases k
  {
    if t != [] {
      var head, tail := Codec.GroupBytes(t[..12]), Codec.Decoded(t[12..]);
      assert Codec.Decoded(t) == head + tail;
      hide Codec.Decoded, Codec.GroupBytes;
      assert (head + tail)[..8] == head && (head + tail)[8..] == tail;
      if k > 0 {
        DecodedBlock(t[12..], k - 1);
      }
    }
  }

  /** What is encrypted first in CBC mode: the front of the key, filled up with zeros. */
  lemma IvIs(key: bytes, i: nat)
    requires i < 8
    ensures Iv(key)[i] == if i < |key| then key[i] else 0
  {
  }

  /** Block k of an ECB text is block k of the padded message, encrypted under the key. */
  lemma EcbBlock(s: Blowfish, key: bytes, plain: bytes, k: nat)
    requires Cbc.HasBlock(|Padded(plain, 8)|, 8, k)
    ensures var data := Codec.Decoded(Message(s, key, plain));
            && Cbc.HasBlock(|data|, 8, k)
            && Cbc.Block(data, 8, k) == s.enc(key, Cbc.Block(Padded(plain, 8), 8, k))
  {
    Sizes(s, key);
    var e := Ecb(s.enc, key, Padded(plain, 8));
    Codec.DecodedEncoded(e);
    BlockOfEcb(s.enc, key, Padded(plain, 8), k);
    hide Codec.Encoded, Codec.Decoded, Ecb, Padded, Cbc.Block, Cbc.HasBlock;
  }

  lemma {:induction false} BlockOfEcb(f: Cbc.BlockFn, key: bytes, data: bytes, k: nat)
    requires Cbc.Sized(f, key, 8) && Cbc.Whole(|data|, 8) && Cbc.HasBlock(|data|, 8, k)
    ensures Cbc.HasBlock(|Ecb(f, key, data)|, 8, k)
    ensures Cbc.Block(Ecb(f, key, data), 8, k) == f(key, Cbc.Block(data, 8, k))
  {
    var r := Ecb(f, key, data);
    assert r[..8] == f(key, data[..8]) && r[8..] == Ecb(f, key, data[8..]);
    if k > 0 {
      BlockOfEcb(f, key, data[8..], k - 1);
    }
  }

  /** The block that a CBC text decrypts to at place k. */
  lemma CbcBlock(s: Blowfish, key: bytes, t: bytes, k: nat)
    requires Cbc.Whole(|t|, 12) && Cbc.HasBlock(|t|, 12, k)
    ensures k > 0 ==> Cbc.HasBlock(|t|, 12, k - 1)
    ensures Cbc.HasBlock(|BlocksCbc(s, key, t)|, 8, k) && Cbc.Sized(s.dec, key, 8)
    ensures Cbc.Block(BlocksCbc(s, key, t), 8, k)
         == Xor(s.dec(key, Codec.GroupBytes(Cbc.Block(t, 12, k))),
                if k == 0 then Iv(key) else Codec.GroupBytes(Cbc.Block(t, 12, k - 1)))
  {
    Sizes(s, key);
    DecodedBlock(t, k);
    if k > 0 {
      Cbc.FewerBlocks(|t|, 12, k);
      DecodedBlock(t, k - 1);
    }
    Cbc.UnchainBlock(s.dec, key, Iv(key), Codec.Decoded(t), k);
    hide Cbc.Unchain, Codec.Decoded, Codec.GroupBytes, Xor, Cbc.Block, Cbc.HasBlock;
  }

  /**
   Two texts that differ in group k at most: before trimming, every block but k and the next one
   decrypts alike, and the next one changes in exactly the bits that changed in the decoded group.
   */
  lemma ChangedGroup(s: Blowfish, key: bytes, t: bytes, u: bytes, k: nat, j: nat)
    requires Cbc.Whole(|t|, 12) && |u| == |t| && Cbc.HasBlock(|t|, 12, k) && Cbc.HasBlock(|t|, 12, j)
    requires forall i :: i != k && Cbc.HasBlock(|t|, 12, i) ==> Cbc.Block(t, 12, i) == Cbc.Block(u, 12, i)
    ensures var (x, y) := (BlocksCbc(s, key, t), BlocksCbc(s, key, u));
            && Cbc.HasBlock(|x|, 8, j) && Cbc.HasBlock(|y|, 8, j)
            && (j != k && j != k + 1 ==> Cbc.Block(x, 8, j) == Cbc.Block(y, 8, j))
            && (j == k + 1 ==>
                  Xor(Cbc.Block(x, 8, j), Cbc.Block(y, 8, j))
                  == Xor(Codec.GroupBytes(Cbc.Block(t, 12, k)), Codec.GroupBytes(Cbc.Block(u, 12, k))))
  {
    if j == k + 1 {
      NextBlock(s, key, t, u, k);
    } else {
      OtherBlock(s, key, t, u, k, j);
    }
    hide BlocksCbc, Codec.GroupBytes, Xor, Cbc.Block, Cbc.HasBlock, Cbc.Whole, Lawful, Cbc.Sized;
  }

  lemma OtherBlock(s: Blowfish, key: bytes, t: bytes, u: bytes, k: nat, j: nat)
    requires Cbc.Whole(|t|, 12) && |u| == |t| && Cbc.HasBlock(|t|, 12, j) && j != k + 1
    requires forall i :: i != k && Cbc.HasBlock(|t|, 12, i) ==> Cbc.Block(t, 12, i) == Cbc.Block(u, 12, i)
    ensures Cbc.HasBlock(|BlocksCbc(s, key, t)|, 8, j) && Cbc.HasBlock(|BlocksCbc(s, key, u)|, 8, j)
    ensures j != k ==> Cbc.Block(BlocksCbc(s, key, t), 8, j) == Cbc.Block(BlocksCbc(s, key, u), 8, j)
  {
    hide BlocksCbc, Codec.GroupBytes, Xor, Cbc.Block, Cbc.HasBlock, Cbc.Whole, Lawful, Cbc.Sized;
    CbcBlock(s, key, t, j);
    CbcBlock(s, key, u, j);
    assert j != k ==> Cbc.Block(t, 12, j) == Cbc.Block(u, 12, j);
    if j > 0 {
      var i := j - 1;
      assert i != k && Cbc.HasBlock(|t|, 12, i);
      assert Cbc.Block(t, 12, i) == Cbc.Block(u, 12, i);
    }
  }

  lemma NextBlock(s: Blowfish, key: bytes, t: bytes, u: bytes, k: nat)
    requires Cbc.Whole(|t|, 12) && |u| == |t| && Cbc.HasBlock(|t|, 12, k) && Cbc.HasBlock(|t|, 12, k + 1)
    requires Cbc.Block(t, 12, k + 1) == Cbc.Block(u, 12, k + 1)
    ensures var (x, y) := (BlocksCbc(s, key, t), BlocksCbc(s, key, u));
            && Cbc.HasBlock(|x|, 8, k + 1) && Cbc.HasBlock(|y|, 8, k + 1)
            && Xor(Cbc.Block(x, 8, k + 1), Cbc.Block(y, 8, k + 1))
               == Xor(Codec.GroupBytes(Cbc.Block(t, 12, k)), Codec.GroupBytes(Cbc.Block(u, 12, k)))
  {
    CbcBlock(s, key, t, k + 1);
    CbcBlock(s, key, u, k + 1);
    var d := s.dec(key, Codec.GroupBytes(Cbc.Block(t, 12, k + 1)));
    hide BlocksCbc, Codec.GroupBytes, Xor, Cbc.Block, Cbc.HasBlock, Cbc.Whole, Lawful;
    XorCommon(d, Codec.GroupBytes(Cbc.Block(t, 12, k)), Codec.GroupBytes(Cbc.Block(u, 12, k)));
  }

  lemma XorCommon(d: bytes, a: bytes, b: bytes)
    requires |d| == |a| == |b|
    ensures Xor(Xor(d, a), Xor(d, b)) == Xor(a, b)
  {
    forall i | 0 <= i < |d| ensures Xor(Xor(d, a), Xor(d, b))[i] == Xor(a, b)[i] {
      XorAt(Xor(d, a), Xor(d, b), i);
      XorAt(d, a, i);
      XorAt(d, b, i);
      XorAt(a, b, i);
      XorBytes(d[i], a[i], b[i]);
    }
  }

  lemma XorBytes(d: byte, a: byte, b: byte)
    ensures (d ^ a) ^ (d ^ b) == a ^ b
  {
  }
}