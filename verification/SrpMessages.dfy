/**
 What the notices and the channel texts of the group chat carry, byte for byte, and which of them are
 refused: a wrong proof, a wrong answer and a wrong MAC change nothing.
 */
module SrpMessages {
  import opened Wrappers
  import opened Bytes
  import opened Modular
  import opened SrpSuite
  import opened SrpPrimitives
  import opened SrpSpec
  import opened ZeroPadding
  import Cbc
  import Protocol = SrpProtocol
  import Channel = SrpChannel

  /** The bytes of a text in ASCII. */
  function Ascii(s: string): (b: bytes)
    requires forall i :: 0 <= i < |s| ==> s[i] < 128 as char
    ensures |b| == |s| && forall i :: 0 <= i < |s| ==> b[i] == Chr(s[i] as nat)
  {
    seq(|s|, i requires 0 <= i < |s| => Chr(s[i] as nat))
  }

  /** The fixed parts of all messages. */
  lemma FixedParts()
    ensures SRPA0 == Ascii("+srpa0 ") && SRPA1 == Ascii("+srpa1 ") && SRPA2 == Ascii("+srpa2 ")
    ensures SRPA3 == Ascii("+srpa3 ") && SRP == Ascii("+srp") && [SPACE] == Ascii(" ")
    ensures ENC == Ascii("enc") && AUTH == Ascii("auth")
    ensures [STAR] == Ascii("*") && [LETTER_M] == Ascii("M") && KEYMARK == [0xff] + Ascii("KEY")
    ensures g == 2
  {
    CharBytes();
    hide Chr;
  }

  /** The characters that occur in them. */
  lemma CharBytes()
    ensures Chr(' ' as nat) == 0x20 && Chr('*' as nat) == 0x2a && Chr('+' as nat) == 0x2b
    ensures Chr('0' as nat) == 0x30 && Chr('1' as nat) == 0x31 && Chr('2' as nat) == 0x32 && Chr('3' as nat) == 0x33
    ensures Chr('E' as nat) == 0x45 && Chr('K' as nat) == 0x4b && Chr('M' as nat) == 0x4d && Chr('Y' as nat) == 0x59
    ensures Chr('a' as nat) == 0x61 && Chr('c' as nat) == 0x63 && Chr('e' as nat) == 0x65 && Chr('h' as nat) == 0x68
    ensures Chr('n' as nat) == 0x6e && Chr('p' as nat) == 0x70 && Chr('r' as nat) == 0x72 && Chr('s' as nat) == 0x73
    ensures Chr('t' as nat) == 0x74 && Chr('u' as nat) == 0x75
  {
  }

  // ---- the exchange ----

  /** What Dave records of +srpa0 and answers: 3v + g^b, and the salt in front of it. */
  lemma HelloCarries(s: Suite, d: Ctx, username: bytes, nick: bytes, coins: Coins)
    requires Protocol.DaveReady(d) && username in d.users.value.db
    ensures var (salt, v) := d.users.value.db[username];
            var B := (3 * v + ModPow(2, coins.exponent, s.N)) % s.N;
            var (d2, out) := Handle(s, d, Some(Ascii("+srpa0 ") + username), Some(nick), coins);
            && out == Reply(Ascii("+srpa1 ") + s.b64enc(salt + Int2Bytes(B)))
            && d2.users.Some? && Some(nick) in d2.users.value.others
            && var o := d2.users.value.others[Some(nick)];
               o.I == username && o.s == salt && o.v == Some(v) && o.b == coins.exponent && o.B == B
  {
    FixedParts();
    Protocol.HelloReads(s, d, username, nick, coins);
    hide Handle, Ascii, Pow;
  }

  /** The strings that are hashed for the proof and for Dave's answer. */
  function ProofString(A: nat, B: nat, S: nat): bytes {
    Int2Bytes(A) + Int2Bytes(B) + Int2Bytes(S)
  }

  /** Everything that Alice computes from the salt and B, down to the hashed strings. */
  lemma ProofCarries(s: Suite, c: Ctx, salt: bytes, B: nat, sender: bytes, coins: Coins)
    requires c.ex.status == 1 && |salt| == 32
    ensures var (c2, out) := Handle(s, c, Some(Ascii("+srpa1 ") + s.b64enc(salt + Int2Bytes(B))), Some(sender), coins);
            var ex := c2.ex;
            if B % s.N == 0 then out == Raised(ValueError) && ex.status == 1 else
              && out == Reply(Ascii("+srpa2 ") + s.b64enc(ex.M1 + Int2Bytes(ex.A)))
              && ex.status == 2 && ex.B == B && ex.a == coins.exponent
              && Computed(s, c, salt, ex)
  {
    var arg := s.b64enc(salt + Int2Bytes(B));
    FixedParts();
    ParseHonest(SRPA1, arg, 0x31);
    hide Int2Bytes, Pow, Ascii, AliceProof, Computed;
    assert Handle(s, c, Some(SRPA1 + arg), Some(sender), coins) == AliceProof(s, c, arg, coins.exponent);
    ProofComputed(s, c, salt, B, coins.exponent);
  }

  /** The same for the argument of the notice. */
  lemma ProofComputed(s: Suite, c: Ctx, salt: bytes, B: nat, a: nat)
    requires |salt| == 32
    ensures var (c2, out) := AliceProof(s, c, s.b64enc(salt + Int2Bytes(B)), a);
            var ex := c2.ex;
            if B % s.N == 0 then out == Raised(ValueError) && ex.status == c.ex.status else
              && out == Reply(SRPA2 + s.b64enc(ex.M1 + Int2Bytes(ex.A)))
              && ex.status == 2 && ex.B == B && ex.a == a
              && Computed(s, c, salt, ex)
  {
    FixedParts();
    hide Int2Bytes, Pow, Ascii, FromBytes;
    Protocol.SplitPair(salt, Int2Bytes(B));
    IntRoundTrip(B);
  }

  /** The record of an exchange in which a has been drawn and B received. */
  ghost predicate Computed(s: Suite, c: Ctx, salt: bytes, ex: Exchange) {
    && ex.A == ModPow(2, ex.a, s.N)
    && ex.x == FromBytes(s.hash(salt + c.username + c.password))
    && ex.u == FromBytes(s.hash(Int2Bytes(ex.A) + Int2Bytes(ex.B)))
    && ex.S == ModPow(ex.B - 3 * ModPow(2, ex.x, s.N), (ex.a + ex.u * ex.x) % s.N, s.N)
    && ex.M1 == s.hash(ProofString(ex.A, ex.B, ex.S))
    && ex.K1 == s.hash(Int2Bytes(ex.S) + Ascii("enc"))
    && ex.K2 == s.hash(Int2Bytes(ex.S) + Ascii("auth"))
  }

  /** The notice with the keys: a MAC over what is sealed under one key derived from the secret, by another. */
  function KeysUnder(s: Suite, T: nat, iv: bytes, plain: bytes): Outcome
    requires |iv| == 16
  {
    if !Cbc.Whole(|plain|, 16) then Raised(AssertionError)
    else
      var sealed := CbcSeal(s, s.hash(Int2Bytes(T) + Ascii("enc")), iv, plain);
      Reply(Ascii("+srpa3 ") + s.b64enc(s.hmac(s.hash(Int2Bytes(T) + Ascii("auth")), sealed) + sealed))
  }

  /** The secret that Dave computes from A for this record. */
  function DavesSecret(s: Suite, A: nat, o: Exchange): nat
    requires o.v.Some?
  {
    ModPow(A * ModPow(o.v.value, FromBytes(s.hash(Int2Bytes(A) + Int2Bytes(o.B))), s.N), o.b, s.N)
  }

  /**
   Dave reads any A and any proof of 32 bytes. He refuses an A that is zero modulo N and a proof that is not
   the hash of A, B and his own secret, and keeps his record then; otherwise the record goes, and the keys
   he holds are sealed under the secret.
   */
  lemma VerifyReadsAny(s: Suite, d: Ctx, nick: bytes, coins: Coins, M1: bytes, A: nat, o: Exchange)
    requires Protocol.DaveReady(d) && Some(nick) in d.users.value.others && o == d.users.value.others[Some(nick)]
    requires o.v.Some? && |M1| == 32
    ensures var T := DavesSecret(s, A, o);
            var (d2, out) := Handle(s, d, Some(Ascii("+srpa2 ") + s.b64enc(M1 + Int2Bytes(A))), Some(nick), coins);
            if A % s.N == 0 then (d2, out) == (d, Raised(ValueError))
            else if M1 != s.hash(ProofString(A, o.B, T)) then
              out == Raised(ValueError) && d2 == d.(ex := d2.ex)
            else
              && d2.users == Some(d.users.value.(others := d.users.value.others - {Some(nick)}))
              && d2 == d.(ex := d2.ex, users := d2.users)
              && out == KeysUnder(s, T, coins.iv, d.sessionkey + d.mackey + s.hash(Int2Bytes(A) + M1 + Int2Bytes(T)))
  {
    var arg := s.b64enc(M1 + Int2Bytes(A));
    FixedParts();
    ParseHonest(SRPA2, arg, 0x32);
    hide Int2Bytes, CbcSeal, Pow, Ascii;
    Protocol.SplitPair(M1, Int2Bytes(A));
    IntRoundTrip(A);
    Protocol.Whole96();
    assert Handle(s, d, Some(SRPA2 + arg), Some(nick), coins) == DaveVerify(s, d, arg, Some(nick), coins.iv);
  }

  /**
   The proof of an Alice whose secret is S, a wrong password behind it or not, is refused exactly when the
   hash tells S from the secret that Dave computes.
   */
  lemma ProofRefusedIff(s: Suite, d: Ctx, nick: bytes, coins: Coins, A: nat, S: nat, o: Exchange)
    requires Protocol.DaveReady(d) && Some(nick) in d.users.value.others && o == d.users.value.others[Some(nick)]
    requires o.v.Some? && A % s.N != 0
    ensures var M1 := s.hash(ProofString(A, o.B, S));
            var T := DavesSecret(s, A, o);
            var (d2, out) := Handle(s, d, Some(Ascii("+srpa2 ") + s.b64enc(M1 + Int2Bytes(A))), Some(nick), coins);
            && (out == Raised(ValueError) <==> s.hash(ProofString(A, o.B, S)) != s.hash(ProofString(A, o.B, T)))
            && (out == Raised(ValueError) ==> d2.users == d.users)
  {
    VerifyReadsAny(s, d, nick, coins, s.hash(ProofString(A, o.B, S)), A, o);
    Protocol.Whole96();
    hide Handle, ProofString, DavesSecret, Ascii, CbcSeal, Int2Bytes;
  }

  /** Without a record, and from somebody unknown, nothing is proved or answered. */
  lemma StrangersRefused(s: Suite, d: Ctx, nick: bytes, coins: Coins, arg: bytes)
    requires Protocol.DaveReady(d)
    ensures Some(nick) !in d.users.value.others ==>
              Handle(s, d, Some(Ascii("+srpa2 ") + arg), Some(nick), coins) == (d, Raised(ValueError))
    ensures arg !in d.users.value.db ==>
              var (d2, out) := Handle(s, d, Some(Ascii("+srpa0 ") + arg), Some(nick), coins);
              out == Raised(KeyError) && d2.users.Some? && Some(nick) in d2.users.value.others
              && d2.users.value.others[Some(nick)].v == None
  {
    FixedParts();
    ParseHonest(SRPA2, arg, 0x32);
    ParseHonest(SRPA0, arg, 0x30);
    hide Ascii;
  }

  /** Alice starts once, with her name; in the middle of an exchange she does not start again. */
  lemma StartsOnce(s: Suite, c: Ctx, coins: Coins)
    ensures Handle(s, c, None, None, coins) ==
              if c.ex.status == 0 then (c.(ex := c.ex.(status := 1)), Reply(Ascii("+srpa0 ") + c.username))
              else (c, Raised(ValueError))
  {
    FixedParts();
    hide Ascii;
  }

  /**
   Notices that carry no digit from 0 to 3, and those with a 1 or a 3 to somebody who does not wait for them,
   change nothing.
   */
  lemma OutOfTurn(s: Suite, c: Ctx, cmd: bytes, arg: bytes, sender: Option<bytes>, coins: Coins)
    requires SPACE !in cmd
    ensures cmd != [] ==> Handle(s, c, Some(cmd), sender, coins) == (c, Raised(ValueError))
    ensures || !(Ascii("+srp") <= cmd) || |cmd| != 6 || cmd[5] < 0x30 || cmd[5] > 0x33
            || (cmd[5] == 0x31 && c.ex.status != 1) || (cmd[5] == 0x33 && c.ex.status != 2)
            ==> Handle(s, c, Some(cmd + [SPACE] + arg), sender, coins) == (c, Raised(ValueError))
  {
    FixedParts();
    CommandRead(cmd, arg);
    hide Ascii, ParseCommand, DaveHello, DaveVerify, AliceProof, AliceFinish;
  }

  lemma CommandRead(cmd: bytes, arg: bytes)
    requires SPACE !in cmd
    ensures cmd != [] ==> ParseCommand(Some(cmd)) == Err(ValueError)
    ensures ParseCommand(Some(cmd + [SPACE] + arg)) ==
              if SRP <= cmd then Ok((if |cmd| < 5 then [] else cmd[5..], arg)) else Err(ValueError)
  {
    var msg := cmd + [SPACE] + arg;
    FirstSpaceIs(msg, |cmd|);
    assert msg[..|cmd|] == cmd && msg[|cmd| + 1..] == arg;
    assert |cmd| >= 5 ==> msg[5..|cmd|] == cmd[5..];
    hide FirstSpace;
  }

  /** Only Dave announces new keys; keys of another length are an error for everyone. */
  lemma MembersSetSilently(s: Suite, c: Ctx, key: bytes, times: Channel.Stamp, iv: Channel.Iv)
    ensures |key| != 64 ==> SetKey(s, c, key, times, iv) == (c, Raised(AssertionError))
    ensures |key| == 64 && c.users == None ==>
              SetKey(s, c, key, times, iv)
              == (c.(sessionkey := key[..32], mackey := key[32..], cipher := Some(key[..32])), NoAnswer)
  {
  }

  /**
   Alice refuses a notice whose MAC is not that of what is sealed under her second key, and one in which
   something else than Dave's answer stands behind the keys. Refused notices leave her as she was.
   */
  lemma KeysRefused(s: Suite, c: Ctx, sender: bytes, coins: Coins, mac: bytes, sealed: bytes)
    requires c.ex.status == 2 && |c.ex.K1| == 32 && |mac| == 16
    ensures var notice := Ascii("+srpa3 ") + s.b64enc(mac + sealed);
            var (c2, out) := Handle(s, c, Some(notice), Some(sender), coins);
            && (mac != s.hmac(c.ex.K2, sealed) ==> (c2, out) == (c, Raised(ValueError)))
            && (mac == s.hmac(c.ex.K2, sealed) && Cbc.Whole(|sealed|, 16) ==>
                  var plain := CbcOpen(s, c.ex.K1, sealed);
                  var answer := s.hash(Int2Bytes(c.ex.A) + c.ex.M1 + Int2Bytes(c.ex.S));
                  if |plain| >= 96 && plain[64..96] == answer
                  then out == Accepted && (c2.sessionkey, c2.mackey) == (plain[..32], plain[32..64])
                  else (c2, out) == (c, Raised(ValueError)))
  {
    FixedParts();
    ParseHonest(SRPA3, s.b64enc(mac + sealed), 0x33);
    Channel.SplitMac(mac, sealed, s.b64enc(mac + sealed));
    assert Handle(s, c, Some(SRPA3 + s.b64enc(mac + sealed)), Some(sender), coins)
        == AliceFinish(s, c, s.b64enc(mac + sealed));
    hide Ascii, Int2Bytes, CbcOpen;
    if Cbc.Whole(|sealed|, 16) {
      ThirdPart(CbcOpen(s, c.ex.K1, sealed));
    }
  }

  lemma ThirdPart(plain: bytes)
    ensures |plain| >= 96 ==> Take(Drop(plain, 64), 32) == plain[64..96]
    ensures |plain| >= 96 ==> Take(plain, 32) == plain[..32] && Take(Drop(plain, 32), 32) == plain[32..64]
    ensures |plain| < 96 ==> |Take(Drop(plain, 64), 32)| < 32
  {
  }

  // ---- channel texts ----

  /** What stands in a packed text: M, the length of the name, the name, the time, and the text. */
  lemma TextCarries(s: Suite, d: Ctx, text: bytes, times: Channel.Stamp, iv: Channel.Iv)
    requires Channel.IsDave(d)
    ensures var body := Ascii("M") + [Chr(|d.username|)] + d.username + times + text;
            var sealed := CbcSeal(s, d.cipher.value, iv, Padded(body, 16));
            Pack(s, d, text, times, iv) == Reply(Ascii("*") + s.b64enc(s.hmac(d.mackey, sealed) + sealed))
  {
    FixedParts();
    assert Header(d.username, times) + text == [LETTER_M] + [Chr(|d.username|)] + d.username + times + text;
    hide Chr, Ascii, CbcSeal, Padded;
  }

  /** A text whose MAC is not that of what is sealed is refused and changes nothing. */
  lemma AlteredMacRefused(s: Suite, m: Ctx, mac: bytes, sealed: bytes)
    requires |mac| == 16 && mac != s.hmac(m.mackey, sealed)
    ensures Unpack(s, m, [STAR] + s.b64enc(mac + sealed)) == (m, Raised(ValueError))
  {
    Channel.SplitMac(mac, sealed, s.b64enc(mac + sealed));
  }

  /** What Dave puts behind the MAC. */
  function SealedText(s: Suite, d: Ctx, text: bytes, times: Channel.Stamp, iv: Channel.Iv): bytes
    requires d.cipher.Some? && |d.username| < 256
  {
    CbcSeal(s, d.cipher.value, iv, Padded(Ascii("M") + [Chr(|d.username|)] + d.username + times + text, 16))
  }

  /** A text packed under another MAC key is refused unless the two keys happen to give it the same MAC. */
  lemma OtherKeyRefused(s: Suite, d: Ctx, m: Ctx, text: bytes, times: Channel.Stamp, iv: Channel.Iv)
    requires Channel.IsDave(d)
    requires var sealed := SealedText(s, d, text, times, iv); s.hmac(d.mackey, sealed) != s.hmac(m.mackey, sealed)
    ensures var packed := Pack(s, d, text, times, iv);
            packed.Reply? && Unpack(s, m, packed.text) == (m, Raised(ValueError))
  {
    var sealed := SealedText(s, d, text, times, iv);
    TextCarries(s, d, text, times, iv);
    FixedParts();
    AlteredMacRefused(s, m, s.hmac(d.mackey, sealed), sealed);
    hide CbcSeal, Padded, Unpack, Pack, Ascii, Chr;
  }

  /** After a change of keys that got lost, whatever Dave says under the new ones is refused, not misread. */
  lemma LostRekeyIsNoticed(s: Suite, d: Ctx, m: Ctx, key: bytes, times: Channel.Stamp, iv: Channel.Iv,
                           text: bytes, later: Channel.Stamp, iv2: Channel.Iv)
    requires Channel.IsDave(d) && Channel.SameKeys(d, m) && |key| == 64 && key[63] == 0
    requires var sealed := SealedText(s, Adopt(d, key[..32], key[32..]), text, later, iv2);
             s.hmac(key[32..], sealed) != s.hmac(m.mackey, sealed)
    ensures var (d2, sent) := SetKey(s, d, key, times, iv);
            sent.Reply? && var m2 := Unpack(s, m, sent.text).0;
            var packed := Pack(s, d2, text, later, iv2);
            packed.Reply? && Unpack(s, m2, packed.text) == (m2, Raised(ValueError))
  {
    Channel.RekeyFollowedIff(s, d, m, key, times, iv);
    hide Unpack, Pack, SealedText;
    OtherKeyRefused(s, Adopt(d, key[..32], key[32..]), m, text, later, iv2);
  }

  /** Zero bytes go from both ends. */
  lemma {:induction false} StrippedBothEnds(lead: nat, t: bytes, trail: nat)
    requires t == [] || (t[0] != 0 && t[|t| - 1] != 0)
    ensures Strip(Zeros(lead) + t + Zeros(trail)) == t
    decreases lead
  {
    var b := Zeros(lead) + t + Zeros(trail);
    if lead > 0 {
      assert b[0] == 0 && b[1..] == Zeros(lead - 1) + t + Zeros(trail);
      StrippedBothEnds(lead - 1, t, trail);
    } else {
      assert b == t + Zeros(trail);
      if t == [] {
        assert b == Zeros(trail);
        StripZeros(trail);
      } else {
        TrimUnique(b, t);
      }
    }
  }

  lemma {:induction false} StripZeros(n: nat)
    ensures Strip(Zeros(n)) == []
  {
    if n > 0 {
      assert Zeros(n)[1..] == Zeros(n - 1);
      StripZeros(n - 1);
    }
  }

  /** What a text with the right MAC does, by what stands between its zero bytes. */
  lemma OpenedTexts(s: Suite, m: Ctx, sealed: bytes, lead: nat, t: bytes, trail: nat)
    requires m.cipher.Some? && Cbc.Whole(|sealed|, 16) && (t == [] || (t[0] != 0 && t[|t| - 1] != 0))
    requires CbcOpen(s, m.cipher.value, sealed) == Zeros(lead) + t + Zeros(trail)
    ensures Unpack(s, m, [STAR] + s.b64enc(s.hmac(m.mackey, sealed) + sealed)) ==
              if lead + |t| + trail == 0 then (m, Raised(MalformedError))
              else if t == [] then (m, Raised(IndexError))
              else if t[0] != 0x4d then (m, Raised(ValueError))
              else if |t| < 2 then (m, Raised(IndexError))
              else if |t| < 6 + Ord(t[1]) then (m, Raised(StructError))
              else TextOrKeys(m, t[6 + Ord(t[1])..])
  {
    ReachesDeliver(s, m, sealed);
    StrippedBothEnds(lead, t, trail);
    hide CbcOpen, Strip, Unpack, Deliver;
    DeliverCases(m, t);
    assert Zeros(lead) + t + Zeros(trail) == [] <==> lead + |t| + trail == 0;
  }

  lemma ReachesDeliver(s: Suite, m: Ctx, sealed: bytes)
    requires m.cipher.Some? && Cbc.Whole(|sealed|, 16)
    ensures Unpack(s, m, [STAR] + s.b64enc(s.hmac(m.mackey, sealed) + sealed)) ==
              var padded := CbcOpen(s, m.cipher.value, sealed);
              if padded == [] then (m, Raised(MalformedError)) else Deliver(m, Strip(padded))
  {
    hide CbcOpen, Strip, Deliver;
    Channel.SplitMac(s.hmac(m.mackey, sealed), sealed, s.b64enc(s.hmac(m.mackey, sealed) + sealed));
  }

  lemma DeliverCases(m: Ctx, t: bytes)
    ensures Deliver(m, t) ==
              if t == [] then (m, Raised(IndexError))
              else if t[0] != 0x4d then (m, Raised(ValueError))
              else if |t| < 2 then (m, Raised(IndexError))
              else if |t| < 6 + Ord(t[1]) then (m, Raised(StructError))
              else TextOrKeys(m, t[6 + Ord(t[1])..])
  {
    FixedParts();
    hide Ord, Ascii;
  }

  /** 64 bytes behind the mark are new keys, any other number is an error; without the mark it is a text. */
  function TextOrKeys(m: Ctx, text: bytes): (Ctx, Outcome) {
    if !([0xff] + Ascii("KEY") <= text) then (m, Plain(text))
    else if |text| != 68 then (m, Raised(MalformedError))
    else
      var key := text[4..];
      (m.(sessionkey := key[..32], mackey := key[32..], cipher := Some(key[..32])), NoAnswer)
  }

  /** Which error each other malformed text raises. */
  lemma MalformedTexts(s: Suite, m: Ctx, msg: bytes)
    ensures (msg == [] || msg[0] != 0x2a) ==> Unpack(s, m, msg) == (m, Raised(ValueError))
    ensures msg != [] && msg[0] == 0x2a && (s.b64dec(msg[1..]) == None || s.b64dec(msg[1..]) == Some([])) ==>
              Unpack(s, m, msg) == (m, Raised(MalformedError))
    ensures Unpack(s, m, msg).1.Raised? ==> Unpack(s, m, msg).0 == m
  {
    hide CbcOpen, Strip;
  }
}
