/**
 The hashes, the block cipher and the base64 library that the group chat calls, kept opaque:
 only their lengths and the two inverse laws are used. The witness shows that the laws can be met.
 */
module SrpSuite {
  import opened Wrappers
  import opened Bytes
  import Cbc

  datatype RawSuite = RawSuite(
    hash: bytes -> bytes,
    hmac: (bytes, bytes) -> bytes,
    aesEnc: Cbc.BlockFn,
    aesDec: Cbc.BlockFn,
    b64enc: bytes -> bytes,
    b64dec: bytes -> Option<bytes>,
    N: nat)

  /** The 2048-bit modulus of RFC 3526, section 3. What is proved holds for every odd modulus above 4. */
  const MODP14: nat := 0xFFFFFFFFFFFFFFFFC90FDAA22168C234C4C6628B80DC1CD129024E088A67CC74020BBEA63B139B22514A08798E3404DDEF9519B3CD3A431B302B0A6DF25F14374FE1356D6D51C245E485B576625E7EC6F44C42E9A637ED6B0BFF5CB6F406B7EDEE386BFB5A899FA5AE9F24117C4B1FE649286651ECE45B3DC2007CB8A163BF0598DA48361C55D39A69163FA8FD24CF5F83655D23DCA3AD961C62F356208552BB9ED529077096966D670C354E4ABC9804F1746C08CA18217C32905E462E36CE3BE39E772C180E86039B2783A2EC07A28FB5C55DF06F4C52C9DE2BCBF6955817183995497CEA956AE515D2261898FA051015728E5A8AACAA68FFFFFFFFFFFFFFFF

  lemma Modp14IsOdd()
    ensures MODP14 > 4 && MODP14 % 2 == 1
  {
  }

  ghost predicate Lawful(s: RawSuite) {
    && (forall x {:trigger s.hash(x)} :: |s.hash(x)| == 32)
    && (forall k, x {:trigger s.hmac(k, x)} :: |s.hmac(k, x)| == 16)
    && (forall k, b {:trigger s.aesEnc(k, b)} ::
          |k| == 32 && |b| == 16 ==> |s.aesEnc(k, b)| == 16 && s.aesDec(k, s.aesEnc(k, b)) == b)
    && (forall k, b {:trigger s.aesDec(k, b)} :: |k| == 32 && |b| == 16 ==> |s.aesDec(k, b)| == 16)
    && (forall x {:trigger s.b64enc(x)} :: s.b64dec(s.b64enc(x)) == Some(x))
    && s.N > 4 && s.N % 2 == 1
  }

  type Suite = s: RawSuite | Lawful(s) ghost witness IdentitySuite()

  ghost function IdentitySuite(): (s: RawSuite)
    ensures Lawful(s)
  {
    Modp14IsOdd();
    var s := RawSuite(_ => Zeros(32), (_, _) => Zeros(16), (_, b) => b, (_, b) => b, x => x, x => Some(x), MODP14);
    assert forall x :: |s.hash(x)| == 32;
    assert forall k, x :: |s.hmac(k, x)| == 16;
    s
  }
}

/** The byte-string helpers of the group chat: spec functions and the loops that compute them. */
module SrpPrimitives {
  import opened Bytes
  import opened SrpSuite
  import opened ZeroPadding
  import Cbc

  /** A number in big-endian bytes; zero takes one byte. */
  function Int2Bytes(n: nat): bytes {
    if n == 0 then [0] else Digits(n)
  }

  lemma IntRoundTrip(n: nat)
    ensures FromBytes(Int2Bytes(n)) == n
  {
    if n == 0 {
      assert [0 as byte][..0] == [];
      assert Ord(0) == 0;
    } else {
      FromDigits(n);
    }
  }

  /** The other way round a string comes back exactly when no zero byte leads it, unless it is the only one. */
  lemma BytesRoundTripIff(b: bytes)
    ensures Int2Bytes(FromBytes(b)) == b <==> b == [0] || (b != [] && b[0] != 0)
  {
    var n := FromBytes(b);
    FromDigits(n);
    if b == [0] {
      IntRoundTrip(0);
    } else if b != [] && b[0] != 0 {
      DigitsOfBytes(b);
    }
    hide FromBytes;
  }

  method IntToBytes(n: nat) returns (b: bytes)
    ensures b == Int2Bytes(n)
  {
    if n == 0 {
      return [0];
    }
    b := [];
    var m := n;
    while m != 0
      invariant Digits(n) == Digits(m) + b
    {
      b := [Chr(m % 256)] + b;
      m := m / 256;
    }
  }

  method BytesToInt(b: bytes) returns (n: nat)
    ensures n == FromBytes(b)
  {
    n := 0;
    for i := 0 to |b|
      invariant n == FromBytes(b[..i])
    {
      n := n * 256;
      n := n + Ord(b[i]);
      assert b[..i + 1][..i] == b[..i];
    }
    assert b[..|b|] == b;
  }

  method PadTo(msg: bytes, length: nat) returns (r: bytes)
    requires length > 0
    ensures r == Padded(msg, length)
  {
    r := msg;
    var l := |msg|;
    PadLenIsRemainder(l, length);
    if l % length != 0 {
      r := r + Zeros(length - l % length);
    } else {
      assert msg + Zeros(0) == msg;
    }
  }

  /** The first blocksize bytes of the two strings, combined byte by byte. */
  method XorString(a: bytes, b: bytes, blocksize: nat) returns (x: bytes)
    requires blocksize <= |a| && blocksize <= |b|
    ensures x == Xor(a[..blocksize], b[..blocksize])
  {
    x := [];
    for i := 0 to blocksize
      invariant x == Xor(a[..i], b[..i])
    {
      x := x + [a[i] ^ b[i]];
      assert a[..i + 1][..i] == a[..i] && b[..i + 1][..i] == b[..i];
    }
  }

  /** The chained text with the first chaining block in front. */
  function CbcSeal(s: Suite, key: bytes, iv: bytes, data: bytes): (c: bytes)
    requires |key| == 32 && |iv| == 16 && Cbc.Whole(|data|, 16)
    ensures |c| == |data| + 16
  {
    iv + Cbc.Chain(s.aesEnc, key, iv, data)
  }

  function CbcOpen(s: Suite, key: bytes, data: bytes): bytes
    requires |key| == 32 && Cbc.Whole(|data|, 16)
  {
    if data == [] then []
    else
        Cbc.Unchain(s.aesDec, key, data[..16], data[16..])
  }

  /** Opening undoes sealing for every key, chaining block and padded text. */
  lemma CbcRoundTrip(s: Suite, key: bytes, iv: bytes, data: bytes)
    requires |key| == 32 && |iv| == 16 && Cbc.Whole(|data|, 16)
    ensures Cbc.Whole(|CbcSeal(s, key, iv, data)|, 16)
    ensures CbcOpen(s, key, CbcSeal(s, key, iv, data)) == data
  {
    Cbc.UnchainChain(s.aesEnc, s.aesDec, key, iv, data);
    var c := CbcSeal(s, key, iv, data);
    assert c[..16] == iv && c[16..] == Cbc.Chain(s.aesEnc, key, iv, data);
  }

  /** Block by block: the first chaining block in front, then each block with the sealed one before it mixed in. */
  lemma {:induction false} SealedBlock(s: Suite, key: bytes, iv: bytes, data: bytes, k: nat)
    requires |key| == 32 && |iv| == 16 && Cbc.Whole(|data|, 16) && Cbc.HasBlock(|data|, 16, k)
    ensures var c := CbcSeal(s, key, iv, data);
            && c[..16] == iv && Cbc.HasBlock(|c|, 16, k) && Cbc.HasBlock(|c|, 16, k + 1)
            && Cbc.Block(c, 16, k + 1) == s.aesEnc(key, Xor(Cbc.Block(data, 16, k), Cbc.Block(c, 16, k)))
    decreases k
  {
    var e := s.aesEnc(key, Xor(data[..16], iv));
    var c, rest := CbcSeal(s, key, iv, data), Cbc.Chain(s.aesEnc, key, e, data[16..]);
    Cbc.ChainLead(s.aesEnc, key, iv, data);
    assert c == iv + (e + rest) && c[16..] == e + rest == CbcSeal(s, key, e, data[16..]);
    hide Cbc.Chain, CbcSeal, Xor, Cbc.Whole;
    if k > 0 {
      SealedBlock(s, key, e, data[16..], k - 1);
    } else {
      assert (e + rest)[..16] == e;
    }
  }

  /** Opening looks at each block behind the first, and at the one before it. */
  lemma OpenedBlock(s: Suite, key: bytes, c: bytes, k: nat)
    requires |key| == 32 && Cbc.Whole(|c|, 16) && Cbc.HasBlock(|c|, 16, k + 1)
    ensures var p := CbcOpen(s, key, c);
            && Cbc.HasBlock(|c|, 16, k) && Cbc.HasBlock(|p|, 16, k)
            && Cbc.Block(p, 16, k) == Xor(s.aesDec(key, Cbc.Block(c, 16, k + 1)), Cbc.Block(c, 16, k))
  {
    Cbc.UnchainBlock(s.aesDec, key, c[..16], c[16..], k);
    Cbc.FewerBlocks(|c|, 16, k + 1);
    assert k > 0 ==> Cbc.Block(c, 16, k) == Cbc.Block(c[16..], 16, k - 1);
    hide Cbc.Unchain, Xor, Cbc.Whole;
  }

  lemma Regroup(a: bytes, b: bytes, c: bytes)
    ensures a + (b + c) == (a + b) + c
  {
  }

  /** One turn of the sealing loop: what is out so far plus what is still to be chained stays the same. */
  lemma ChainTurn(s: Suite, key: bytes, done: bytes, chaining: bytes, data: bytes)
    requires |key| == 32 && |chaining| == 16 && Cbc.Whole(|data|, 16) && |data| >= 16
    ensures var e := s.aesEnc(key, Xor(data[..16], chaining));
            && |e| == 16 && Cbc.Whole(|data| - 16, 16)
            && done + Cbc.Chain(s.aesEnc, key, chaining, data)
               == (done + e) + Cbc.Chain(s.aesEnc, key, e, data[16..])
  {
    var e := s.aesEnc(key, Xor(data[..16], chaining));
    Regroup(done, e, Cbc.Chain(s.aesEnc, key, e, data[16..]));
  }

  lemma UnchainTurn(s: Suite, key: bytes, done: bytes, chaining: bytes, data: bytes)
    requires |key| == 32 && |chaining| == 16 && Cbc.Whole(|data|, 16) && |data| >= 16
    ensures var c := data[..16];
            && |s.aesDec(key, c)| == 16 && Cbc.Whole(|data| - 16, 16)
            && done + Cbc.Unchain(s.aesDec, key, chaining, data)
               == (done + Xor(s.aesDec(key, c), chaining)) + Cbc.Unchain(s.aesDec, key, c, data[16..])
  {
    var c := data[..16];
    Regroup(done, Xor(s.aesDec(key, c), chaining), Cbc.Unchain(s.aesDec, key, c, data[16..]));
  }

  method CbcEncrypt(s: Suite, key: bytes, iv: bytes, plain: bytes) returns (ciphertext: bytes)
    requires |key| == 32 && |iv| == 16 && Cbc.Whole(|plain|, 16)
    ensures ciphertext == CbcSeal(s, key, iv, plain)
  {
    var chaining, data := iv, plain;
    ciphertext := iv;
    var blocks := |plain| / 16;
    Cbc.WholeIsDivisible(|plain|, 16);
    for blockIndex := 0 to blocks
      invariant |chaining| == 16 && |data| == (blocks - blockIndex) * 16 && Cbc.Whole(|data|, 16)
      invariant ciphertext + Cbc.Chain(s.aesEnc, key, chaining, data) == CbcSeal(s, key, iv, plain)
    {
      ChainTurn(s, key, ciphertext, chaining, data);
      var xored := XorString(data, chaining, 16);
      assert chaining[..16] == chaining;
      var enc := s.aesEnc(key, xored);
      ciphertext := ciphertext + enc;
      chaining := enc;
      data := data[16..];
    }
  }

  method CbcDecrypt(s: Suite, key: bytes, cipher: bytes) returns (plaintext: bytes)
    requires |key| == 32 && Cbc.Whole(|cipher|, 16)
    ensures plaintext == CbcOpen(s, key, cipher)
  {
    plaintext := [];
    if cipher == [] {
      return;
    }
    var chaining, data := cipher[..16], cipher[16..];
    var blocks := |data| / 16;
    Cbc.WholeIsDivisible(|data|, 16);
    ghost var whole := Cbc.Unchain(s.aesDec, key, chaining, data);
    assert plaintext + whole == whole;
    for blockIndex := 0 to blocks
      invariant |chaining| == 16 && |data| == (blocks - blockIndex) * 16 && Cbc.Whole(|data|, 16)
      invariant plaintext + Cbc.Unchain(s.aesDec, key, chaining, data) == whole
    {
      UnchainTurn(s, key, plaintext, chaining, data);
      var temp := s.aesDec(key, data[..16]);
      var temp2 := XorString(temp, chaining, 16);
      assert temp[..16] == temp && chaining[..16] == chaining;
      plaintext := plaintext + temp2;
      chaining := data[..16];
      data := data[16..];
    }
  }
}
