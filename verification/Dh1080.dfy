/** The Diffie-Hellman exchange of the ZNC module, with its fixed buffers. */
module Dh1080 {
  import opened Wrappers
  import opened Bytes
  import opened Modular
  import opened CStrings
  import opened Sextets
  import StaticB64

  const BN_LEN: nat := 135
  const PUB_B64_LEN: nat := 181
  const SHA_LEN: nat := 32
  const SHA_B64_LEN: nat := 45

  /** The 1080-bit prime. What is proved holds for every modulus that fits the buffers. */
  const PRIME1080: nat := 0xFBE1022E23D213E8ACFA9AE8B9DFADA3EA6B7AC7A7B7E95AB5EB2DF858921FEADE95E6AC7BE7DE6ADBAB8A783E7AF7A7FA6A2B7BEB1E72EAE2B72F9FA2BFB2A2EFBEFAC868BADB3E828FA8BADFADA3E4CC1BE7E8AFE85E9698A783EB68FA07A77AB6AD7BEB618ACF9CA2897EB28A6189EFA07AB99A8A7FA9AE299EFA7BA66DEAFEFBEFBF0B7D8B
  const GENERATOR: nat := 2

  /** The group, the hash, and which public values the library is willing to use. */
  datatype RawSetting = RawSetting(p: nat, g: nat, sha256: bytes -> bytes, accepts: nat -> bool)

  ghost predicate Lawful(s: RawSetting) {
    && 1 < s.p < Pow256(BN_LEN)
    && forall x {:trigger s.sha256(x)} :: |s.sha256(x)| == SHA_LEN
  }

  type Setting = s: RawSetting | Lawful(s) ghost witness PrimeSetting()

  ghost function PrimeSetting(): (s: RawSetting)
    ensures Lawful(s) && s.p == PRIME1080 && s.g == GENERATOR
  {
    PrimeFits();
    var s := RawSetting(PRIME1080, GENERATOR, _ => Zeros(SHA_LEN), _ => true);
    assert forall x :: |s.sha256(x)| == SHA_LEN;
    s
  }

  lemma {:induction false} Pow256Add(m: nat, n: nat)
    ensures Pow256(m + n) == Pow256(m) * Pow256(n)
  {
    if m > 0 {
      Pow256Add(m - 1, n);
      MulAssoc(256, Pow256(m - 1), Pow256(n));
    }
  }

  lemma PrimeFits()
    ensures 1 < PRIME1080 < Pow256(BN_LEN)
  {
    hide Pow256;
    Powers();
    Pow256Add(64, 64);
    Pow256Add(128, 7);
  }

  lemma Powers()
    ensures Pow256(7) == 0x1_00000000000000
    ensures Pow256(64) == 0x1_0000000000000000_0000000000000000_0000000000000000_0000000000000000_0000000000000000_0000000000000000_0000000000000000_0000000000000000
  {
    SmallPowers();
    hide Pow256;
    Pow256Add(16, 16);
    Pow256Add(32, 32);
  }

  lemma SmallPowers()
    ensures Pow256(7) == 0x1_00000000000000
    ensures Pow256(16) == 0x1_0000000000000000_0000000000000000
  {
    assert Pow256(2) == 0x10000 && Pow256(3) == 0x1000000;
    hide Pow256;
    Pow256Add(2, 2);
    Pow256Add(4, 3);
    Pow256Add(4, 4);
    Pow256Add(8, 8);
  }

  // ---- public values as text ----

  lemma {:induction false} DigitsFit(v: nat, n: nat)
    requires v < Pow256(n)
    ensures |Digits(v)| <= n
  {
    if v > 0 {
      assert n > 0;
      DigitsFit(v / 256, n - 1);
    }
  }

  /** The minimal bytes of a number at the front of a zeroed buffer. */
  function Padded(v: nat): (b: bytes)
    requires v < Pow256(BN_LEN)
    ensures |b| == BN_LEN
  {
    DigitsFit(v, BN_LEN);
    Digits(v) + Zeros(BN_LEN - |Digits(v)|)
  }

  /** The base64 text with an A behind it. */
  function PubText(v: nat): (t: bytes)
    requires v < Pow256(BN_LEN)
    ensures |t| == PUB_B64_LEN
  {
    StaticB64.Encoded(Padded(v), 0) + [LETTER_A]
  }

  /** What the receiver looks at: everything before the last A. */
  function Received(t: bytes): bytes {
    if |t| < PUB_B64_LEN then t else t[..PUB_B64_LEN - 1]
  }

  /** The zeroed buffer after decoding into it; an error of the decoder is not looked at. */
  function Decoded(t: bytes, d: StaticB64.State): (b: bytes)
    requires d.out == []
    ensures |b| == BN_LEN
  {
    var out := StaticB64.Scan(Received(t), 0, d, false).out;
    DecodedFits(Received(t), d);
    out + Zeros(BN_LEN - |out|)
  }

  lemma DecodedFits(t: bytes, d: StaticB64.State)
    requires |t| < PUB_B64_LEN && d.out == []
    ensures |StaticB64.Scan(t, 0, d, false).out| <= BN_LEN
  {
    StaticB64.ScanRoom(t, 0, d, false);
  }

  /** The secret's bytes overwrite the front of the buffer, the rest still holds the peer's public value. */
  function HashInput(s: Setting, priv: Option<nat>, buf: bytes): (b: bytes)
    requires |buf| == BN_LEN
    ensures |b| == BN_LEN
  {
    var y := FromBytes(buf);
    if priv == None || !s.accepts(y) then buf
    else
      var secret := Digits(ModPow(y, priv.value, s.p));
      DigitsFit(ModPow(y, priv.value, s.p), BN_LEN);
      secret + buf[|secret|..]
  }

  /** The key: the base64 text of the hash without its equals sign. */
  function KeyOf(hash: bytes): (t: bytes)
    requires |hash| == SHA_LEN
    ensures |t| == 43
  {
    StaticB64.Encoded(hash, 0)[..43]
  }

  function KeyText(s: Setting, priv: Option<nat>, t: bytes, d: StaticB64.State): bytes
    requires d.out == []
  {
    KeyOf(s.sha256(HashInput(s, priv, Decoded(t, d))))
  }

  /** The two texts in terms of section 4 of RFC 4648: an A behind the one, no equals sign behind the other. */
  lemma TextsAre(v: nat, hash: bytes)
    requires v < Pow256(BN_LEN) && |hash| == 32
    ensures |Padded(v)| == 135 && |PubText(v)| == 181 && PubText(v) == StaticB64.Standard(Padded(v)) + [0x41]
    ensures KeyOf(hash) + [0x3d] == StaticB64.Standard(hash)
  {
    var t := StaticB64.Standard(hash);
    assert t[43] == EQUALS;
    hide StaticB64.Encoded, StaticB64.Standard, Padded, Pow256, Sextet;
    StaticB64.StandardIff(Padded(v), 0);
    StaticB64.StandardIff(hash, 0);
    assert t == t[..43] + [t[43]];
  }

  // ---- the object with its buffers ----

  class Exchange {
    const setting: Setting
    const pubB64: array<byte>
    const shaB64: array<byte>
    var pubKey: Option<nat>
    var privKey: Option<nat>

    ghost predicate Sized() {
      pubB64.Length == PUB_B64_LEN + 1 && shaB64.Length == SHA_B64_LEN + 1 && pubB64 != shaB64
    }

    constructor (s: Setting)
      ensures setting == s && Sized() && fresh(pubB64) && fresh(shaB64)
      ensures pubKey == None && privKey == None && pubB64[..] == Zeros(PUB_B64_LEN + 1)
    {
      setting := s;
      pubB64 := new byte[PUB_B64_LEN + 1];
      shaB64 := new byte[SHA_B64_LEN + 1];
      pubKey, privKey := None, None;
      new;
      MemZero(pubB64);
      MemZero(shaB64);
    }

    /** A fresh key pair, and its public half as a string. */
    method GetNewPublicKey(random: nat)
      requires Sized()
      modifies this, pubB64, shaB64
      ensures privKey == Some(random) && pubKey == Some(ModPow(setting.g, random, setting.p))
      ensures 0 in pubB64[..] && Text(pubB64[..]) == PubText(pubKey.value)
      ensures shaB64[..] == Zeros(SHA_B64_LEN + 1)
    {
      var bufbin := new byte[BN_LEN + 1];
      MemZero(pubB64);
      MemZero(shaB64);
      MemZero(bufbin);
      pubKey, privKey := Some(ModPow(setting.g, random, setting.p)), Some(random);
      DigitsFit(pubKey.value, BN_LEN);
      CopyIn(bufbin, Digits(pubKey.value));
      assert bufbin[..BN_LEN] == Padded(pubKey.value);
      WritePub(bufbin, pubB64, Padded(pubKey.value));
    }

    /** The key from the peer's string; the key pair is spent afterwards. */
    method ComputeSymetricKey(other: array<byte>, stale0: byte, stale1: byte, stale2: byte)
      requires Sized() && 0 in other[..] && other != shaB64
      modifies this, shaB64
      ensures privKey == None && pubKey == None
      ensures 0 in shaB64[..]
      ensures Text(shaB64[..])
           == KeyText(setting, old(privKey), Text(old(other[..])), StaticB64.State(stale0, stale1, stale2, []))
    {
      var bufbin, bufsha := new byte[BN_LEN + 1], new byte[SHA_LEN + 1];
      MemZero(shaB64);
      MemZero(bufbin);
      MemZero(bufsha);
      ReadPub(other, bufbin, stale0, stale1, stale2);
      ComputeSecret(setting, privKey, bufbin);
      var hash := setting.sha256(bufbin[..BN_LEN]);
      CopyIn(bufsha, hash);
      assert bufsha[..SHA_LEN] == hash;
      WriteKey(bufsha, shaB64, hash);
      pubKey, privKey := None, None;
    }
  }

  /** Encodes the binary value and appends the A. */
  method WritePub(bufbin: array<byte>, dst: array<byte>, ghost b: bytes)
    requires bufbin.Length == BN_LEN + 1 && bufbin[..BN_LEN] == b && dst.Length == PUB_B64_LEN + 1 && dst != bufbin
    modifies dst
    ensures 0 in dst[..] && Text(dst[..]) == StaticB64.Encoded(b, 0) + [LETTER_A]
  {
    ghost var t := StaticB64.Encoded(b, 0);
    StaticB64.NoNul(b, 0);
    StaticB64.Encode(bufbin, dst, BN_LEN);
    hide StaticB64.Encoded, Text;
    ghost var u := t + [LETTER_A];
    dst[PUB_B64_LEN - 1] := LETTER_A;
    dst[PUB_B64_LEN] := 0;
    assert dst[..PUB_B64_LEN] == u;
    TextIs(dst[..], u);
  }

  /** Copies the peer's string, cuts off the A and decodes the rest. */
  method ReadPub(other: array<byte>, bufbin: array<byte>, stale0: byte, stale1: byte, stale2: byte)
    requires 0 in other[..] && bufbin.Length == BN_LEN + 1 && bufbin[..] == Zeros(BN_LEN + 1) && bufbin != other
    modifies bufbin
    ensures bufbin[..BN_LEN] == Decoded(Text(old(other[..])), StaticB64.State(stale0, stale1, stale2, []))
  {
    ghost var t := Text(other[..]);
    var bufpub := new byte[PUB_B64_LEN + 1];
    MemZero(bufpub);
    StrNCpy(bufpub, other, PUB_B64_LEN + 1);
    bufpub[PUB_B64_LEN - 1] := 0;
    TextIs(bufpub[..], Received(t));
    DecodedFits(Received(t), StaticB64.State(stale0, stale1, stale2, []));
    var len, err := StaticB64.Decode(bufpub, bufbin, false, stale0, stale1, stale2);
    hide StaticB64.Scan, Text;
    FrontOfBuffer(bufbin[..], StaticB64.Scan(Received(t), 0, StaticB64.State(stale0, stale1, stale2, []), false).out);
  }

  lemma FrontOfBuffer(a: bytes, out: bytes)
    requires |a| == BN_LEN + 1 && |out| <= BN_LEN && a[..|out|] == out && a[|out|..] == Zeros(BN_LEN + 1)[|out|..]
    ensures a[..BN_LEN] == out + Zeros(BN_LEN - |out|)
  {
    forall i | |out| <= i < BN_LEN ensures a[i] == 0 {
      assert a[i] == a[|out|..][i - |out|];
    }
  }

  /** Writes the secret over the peer's value, unless the library refuses it. */
  method ComputeSecret(s: Setting, priv: Option<nat>, bufbin: array<byte>)
    requires bufbin.Length == BN_LEN + 1
    modifies bufbin
    ensures bufbin[..BN_LEN] == HashInput(s, priv, old(bufbin[..BN_LEN]))
  {
    var y := FromBytes(bufbin[..BN_LEN]);
    if priv.Some? && s.accepts(y) {
      DigitsFit(ModPow(y, priv.value, s.p), BN_LEN);
      CopyIn(bufbin, Digits(ModPow(y, priv.value, s.p)));
    }
  }

  /** Encodes the hash and kills the equals sign. */
  method WriteKey(bufsha: array<byte>, dst: array<byte>, ghost hash: bytes)
    requires bufsha.Length == SHA_LEN + 1 && bufsha[..SHA_LEN] == hash && dst.Length == SHA_B64_LEN + 1 && dst != bufsha
    modifies dst
    ensures 0 in dst[..] && Text(dst[..]) == KeyOf(hash)
  {
    StaticB64.NoNul(hash, 0);
    StaticB64.Encode(bufsha, dst, SHA_LEN);
    dst[43] := 0;
    TextIs(dst[..], KeyOf(hash));
  }

  // ---- what the two sides agree on ----

  lemma {:induction false} ZerosValue(b: bytes, n: nat)
    ensures FromBytes(b + Zeros(n)) == FromBytes(b) * Pow256(n)
  {
    if n == 0 {
      assert b + Zeros(0) == b;
    } else {
      ZerosValue(b, n - 1);
      assert b + Zeros(n) == (b + Zeros(n - 1)) + [0];
      FromBytesSnoc(b + Zeros(n - 1), 0);
      TimesPow256(FromBytes(b), n - 1);
    }
  }

  /** The peer decodes exactly the bytes that were sent, whatever its stack held. */
  lemma PubDecodes(v: nat, d: StaticB64.State)
    requires v < Pow256(BN_LEN) && d.out == []
    ensures Decoded(PubText(v), d) == Padded(v)
  {
    StaticB64.RoundTrip(Padded(v), 0, false, d.b0, d.b1, d.b2);
    hide Pow256, Padded, StaticB64.Encoded, StaticB64.Scan;
    assert Received(PubText(v)) == StaticB64.Encoded(Padded(v), 0);
    assert Padded(v) + Zeros(0) == Padded(v);
  }

  /** When the library refuses a public value, or there is no key pair, that value alone is hashed. */
  lemma RefusedPubIsHashed(s: Setting, priv: Option<nat>, v: nat, d: StaticB64.State)
    requires v < Pow256(BN_LEN) && d.out == []
    requires priv == None || !s.accepts(FromBytes(Padded(v)))
    ensures KeyText(s, priv, PubText(v), d) == KeyOf(s.sha256(Padded(v)))
  {
    PubDecodes(v, d);
    hide Pow256, Padded, PubText, Decoded, KeyOf;
  }

  /** A number with n zero bytes behind it. */
  function ShiftedUp(v: nat, n: nat): nat {
    v * Pow256(n)
  }

  /** A value that needs fewer bytes comes out shifted up by as many bytes. */
  lemma Recovered(v: nat, d: StaticB64.State)
    requires v < Pow256(BN_LEN) && d.out == []
    ensures |Digits(v)| <= BN_LEN
    ensures FromBytes(Decoded(PubText(v), d)) == ShiftedUp(v, BN_LEN - |Digits(v)|)
  {
    PubDecodes(v, d);
    DigitsFit(v, BN_LEN);
    FromDigits(v);
    ZerosValue(Digits(v), BN_LEN - |Digits(v)|);
  }

  /** The value arrives exactly when it needs all bytes of the buffer. */
  lemma RecoveredIff(v: nat, d: StaticB64.State)
    requires 0 < v < Pow256(BN_LEN) && d.out == []
    ensures FromBytes(Decoded(PubText(v), d)) == v <==> |Digits(v)| == BN_LEN
  {
    hide Decoded, PubText, Digits, Pow256, ShiftedUp;
    var got := FromBytes(Decoded(PubText(v), d));
    assert |Digits(v)| <= BN_LEN && got == ShiftedUp(v, BN_LEN - |Digits(v)|) by { Recovered(v, d); }
    GrowsUnless(v, BN_LEN - |Digits(v)|);
  }

  lemma GrowsUnless(v: nat, n: nat)
    requires v > 0
    ensures ShiftedUp(v, n) == v <==> n == 0
  {
    if n > 0 {
      var q := Pow256(n - 1);
      assert v * (256 * q) > v;
    }
  }

  /** The value that one side derives from the public value of the other. */
  function Shared(s: Setting, mine: nat, theirs: nat): nat {
    ModPow(ModPow(s.g, theirs, s.p), mine, s.p)
  }

  /** What is asked of one public value: it fills the buffer and the library is willing to use it. */
  predicate FullPub(s: Setting, x: nat) {
    var v := ModPow(s.g, x, s.p);
    |Digits(v)| == BN_LEN && s.accepts(v)
  }

  lemma InputFromFullPub(s: Setting, mine: nat, theirs: nat, d: StaticB64.State)
    requires FullPub(s, theirs) && d.out == []
    ensures var v := ModPow(s.g, theirs, s.p);
            var secret := Digits(Shared(s, mine, theirs));
            && |secret| <= BN_LEN
            && HashInput(s, Some(mine), Decoded(PubText(v), d)) == secret + Digits(v)[|secret|..]
  {
    var v := ModPow(s.g, theirs, s.p);
    FullPubArrives(v, d);
    DigitsFit(Shared(s, mine, theirs), BN_LEN);
    hide ModPow, Decoded, PubText, Digits, Pow256;
  }

  /** A value that fills the buffer arrives as the bytes it was sent as. */
  lemma FullPubArrives(v: nat, d: StaticB64.State)
    requires v < Pow256(BN_LEN) && |Digits(v)| == BN_LEN && d.out == []
    ensures Decoded(PubText(v), d) == Digits(v) && FromBytes(Digits(v)) == v
  {
    PubDecodes(v, d);
    FromDigits(v);
    hide Decoded, PubText, Digits, Pow256, FromBytes;
    assert Zeros(0) + Digits(v) == Digits(v) == Digits(v) + Zeros(0);
  }

  /**
   When both public values fill the buffer, the two sides hash the same bytes exactly when the public
   values agree on every byte that the secret does not overwrite.
   */
  lemma HashInputsAgreeIff(s: Setting, a: nat, b: nat, d: StaticB64.State, e: StaticB64.State)
    requires FullPub(s, a) && FullPub(s, b) && d.out == [] && e.out == []
    ensures var (va, vb, n) := (ModPow(s.g, a, s.p), ModPow(s.g, b, s.p), |Digits(Shared(s, a, b))|);
            && n <= BN_LEN
            && (HashInput(s, Some(a), Decoded(PubText(vb), d)) == HashInput(s, Some(b), Decoded(PubText(va), e))
                <==> Digits(va)[n..] == Digits(vb)[n..])
  {
    InputFromFullPub(s, a, b, d);
    InputFromFullPub(s, b, a, e);
    DiffieHellman(s.g, a, b, s.p);
    hide HashInput, Decoded, PubText, Digits, ModPow;
    var va, vb := Digits(ModPow(s.g, a, s.p)), Digits(ModPow(s.g, b, s.p));
    var secret := Digits(Shared(s, a, b));
    assert (secret + va[|secret|..])[|secret|..] == va[|secret|..];
    assert (secret + vb[|secret|..])[|secret|..] == vb[|secret|..];
  }

  /** The key text loses nothing of the hash. */
  lemma KeyOfInjective(x: bytes, y: bytes)
    requires |x| == SHA_LEN == |y| && KeyOf(x) == KeyOf(y)
    ensures x == y
  {
    var tx, ty := StaticB64.Encoded(x, 0), StaticB64.Encoded(y, 0);
    StaticB64.LetterAt(x, 0, 10, 3);
    StaticB64.LetterAt(y, 0, 10, 3);
    StaticB64.RoundTrip(x, 0, false, 0, 0, 0);
    StaticB64.RoundTrip(y, 0, false, 0, 0, 0);
    hide StaticB64.Scan, StaticB64.Encoded;
    assert tx == tx[..43] + [tx[43]] && ty == ty[..43] + [ty[43]];
  }

  /** The two sides end with one key exactly when the hashes of what they hashed are equal. */
  lemma KeysAgreeIff(s: Setting, a: nat, b: nat, d: StaticB64.State, e: StaticB64.State)
    requires d.out == [] && e.out == []
    ensures var (va, vb) := (ModPow(s.g, a, s.p), ModPow(s.g, b, s.p));
            KeyText(s, Some(a), PubText(vb), d) == KeyText(s, Some(b), PubText(va), e)
            <==> s.sha256(HashInput(s, Some(a), Decoded(PubText(vb), d)))
                 == s.sha256(HashInput(s, Some(b), Decoded(PubText(va), e)))
  {
    var (va, vb) := (ModPow(s.g, a, s.p), ModPow(s.g, b, s.p));
    var x := s.sha256(HashInput(s, Some(a), Decoded(PubText(vb), d)));
    var y := s.sha256(HashInput(s, Some(b), Decoded(PubText(va), e)));
    if KeyOf(x) == KeyOf(y) {
      KeyOfInjective(x, y);
    }
    hide KeyOf, HashInput, Decoded, PubText, ModPow;
  }

  /** Agreement: when both public values and the shared secret need all bytes, both sides get one key text. */
  lemma Agreement(s: Setting, a: nat, b: nat, d: StaticB64.State, e: StaticB64.State)
    requires FullPub(s, a) && FullPub(s, b) && |Digits(Shared(s, a, b))| == BN_LEN
    requires d.out == [] && e.out == []
    ensures KeyText(s, Some(a), PubText(ModPow(s.g, b, s.p)), d)
         == KeyText(s, Some(b), PubText(ModPow(s.g, a, s.p)), e)
  {
    HashInputsAgreeIff(s, a, b, d, e);
    hide HashInput, Decoded, PubText, Digits, ModPow, KeyOf;
  }

  /**
   When a public value is shorter, the shift goes into the secrets: they agree exactly when the
   powers of 256 that the two exponents pick up agree.
   */
  lemma ShortSecretsAgreeIff(s: Setting, h: int, a: nat, b: nat, d: StaticB64.State, e: StaticB64.State)
    requires Unit(s.g, h, s.p) && d.out == [] && e.out == []
    ensures var (va, vb) := (ModPow(s.g, a, s.p), ModPow(s.g, b, s.p));
            && |Digits(va)| <= BN_LEN && |Digits(vb)| <= BN_LEN
            && (ModPow(FromBytes(Decoded(PubText(vb), d)), a, s.p) == ModPow(FromBytes(Decoded(PubText(va), e)), b, s.p)
                <==> Cong(Pow(Pow256(BN_LEN - |Digits(vb)|), a), Pow(Pow256(BN_LEN - |Digits(va)|), b), s.p))
  {
    var (va, vb) := (ModPow(s.g, a, s.p), ModPow(s.g, b, s.p));
    Recovered(va, e);
    Recovered(vb, d);
    hide Decoded, PubText, Digits, Pow256, Pow, Cong, ModPow, Unit;
    ShiftedAgreeIff(s.g, h, a, b, Pow256(BN_LEN - |Digits(va)|), Pow256(BN_LEN - |Digits(vb)|), s.p);
  }

  /**
   The joint condition for short values: when the library is willing to use both values that arrive and
   the two secrets take n bytes each, both sides hash the same exactly when the secrets agree and so do
   the public values in what is left of them behind n bytes.
   */
  lemma ShortInputsAgreeIff(s: Setting, h: int, a: nat, b: nat, d: StaticB64.State, e: StaticB64.State, n: nat)
    requires Unit(s.g, h, s.p) && d.out == [] && e.out == []
    requires var (va, vb) := (ModPow(s.g, a, s.p), ModPow(s.g, b, s.p));
             var (atA, atB) := (FromBytes(Decoded(PubText(vb), d)), FromBytes(Decoded(PubText(va), e)));
             && s.accepts(atA) && s.accepts(atB)
             && |Digits(ModPow(atA, a, s.p))| == n == |Digits(ModPow(atB, b, s.p))|
    ensures var (va, vb) := (ModPow(s.g, a, s.p), ModPow(s.g, b, s.p));
            && |Digits(va)| <= BN_LEN && |Digits(vb)| <= BN_LEN && n <= BN_LEN
            && (HashInput(s, Some(a), Decoded(PubText(vb), d)) == HashInput(s, Some(b), Decoded(PubText(va), e))
                <==> && Cong(Pow(Pow256(BN_LEN - |Digits(vb)|), a), Pow(Pow256(BN_LEN - |Digits(va)|), b), s.p)
                     && Padded(va)[n..] == Padded(vb)[n..])
  {
    var (va, vb) := (ModPow(s.g, a, s.p), ModPow(s.g, b, s.p));
    hide ModPow, Decoded, PubText, Digits, Pow256, Padded, Pow, Cong, Unit, HashInput;
    ShortSecretsAgreeIff(s, h, a, b, d, e);
    PubDecodes(va, e);
    PubDecodes(vb, d);
    BuffersAgreeIff(s, a, Padded(vb), b, Padded(va), n);
  }

  /** The same for any two buffers. */
  lemma BuffersAgreeIff(s: Setting, a: nat, p: bytes, b: nat, q: bytes, n: nat)
    requires |p| == BN_LEN == |q| && s.accepts(FromBytes(p)) && s.accepts(FromBytes(q))
    requires |Digits(ModPow(FromBytes(p), a, s.p))| == n == |Digits(ModPow(FromBytes(q), b, s.p))|
    ensures n <= BN_LEN
    ensures HashInput(s, Some(a), p) == HashInput(s, Some(b), q)
       <==> ModPow(FromBytes(p), a, s.p) == ModPow(FromBytes(q), b, s.p) && p[n..] == q[n..]
  {
    var (x, y) := (ModPow(FromBytes(p), a, s.p), ModPow(FromBytes(q), b, s.p));
    DigitsFit(x, BN_LEN);
    FromDigits(x);
    FromDigits(y);
    hide ModPow, Digits, Pow256, FromBytes;
    OverwrittenIff(Digits(x), p, Digits(y), q, n);
  }

  /** Two buffers with n bytes written over their fronts are equal exactly when both parts are. */
  lemma OverwrittenIff(x: bytes, p: bytes, y: bytes, q: bytes, n: nat)
    requires |x| == n == |y| && n <= |p| == |q|
    ensures x + p[n..] == y + q[n..] <==> x == y && q[n..] == p[n..]
  {
    var (u, v) := (x + p[n..], y + q[n..]);
    assert u[..n] == x && v[..n] == y && u[n..] == p[n..] && v[n..] == q[n..];
  }

  lemma ShiftedAgreeIff(g: int, h: int, a: nat, b: nat, qa: nat, qb: nat, p: nat)
    requires Unit(g, h, p)
    ensures ModPow(ModPow(g, b, p) * qb, a, p) == ModPow(ModPow(g, a, p) * qa, b, p)
       <==> Cong(Pow(qb, a), Pow(qa, b), p)
  {
    var k := a * b;
    assert k == b * a;
    ShiftedPower(g, b, a, k, qb, p);
    ShiftedPower(g, a, b, k, qa, p);
    UnitPow(g, h, k, p);
    CancelCommon(Pow(g, k), Pow(h, k), Pow(qb, a), Pow(qa, b), p);
  }

  lemma ShiftedPower(g: int, x: nat, y: nat, k: nat, q: nat, p: nat)
    requires p > 0 && k == x * y
    ensures ModPow(ModPow(g, x, p) * q, y, p) == (Pow(g, k) * Pow(q, y)) % p
  {
    PowTimes(ModPow(g, x, p), q, y);
    ModPowPow(g, x, y, p);
    CongScale(Pow(ModPow(g, x, p), y), Pow(g, k), Pow(q, y), p);
  }
}
