/**
 The group chat as functions on context values: what each call leaves in the context and
 what it answers. The class in SrpContext.dfy is proved to compute these.
 */
module SrpSpec {
  import opened Wrappers
  import opened Bytes
  import opened Modular
  import opened SrpSuite
  import opened SrpPrimitives
  import opened ZeroPadding
  import Algebra = SrpAlgebra
  import Cbc

  const g: nat := 2

  type AesKey = k: bytes | |k| == 32 witness Zeros(32)

  datatype Exchange = Exchange(
    status: nat, I: bytes, s: bytes, v: Option<nat>, x: nat, a: nat, A: nat, b: nat, B: nat,
    S: nat, u: nat, K1: bytes, K2: bytes, M1: bytes)

  const FRESH: Exchange := Exchange(0, [], [], None, 0, 0, 0, 0, 0, 0, 0, [], [], [])

  /** Only Dave has one of these: the registered users and the exchanges he is in the middle of. */
  datatype Users = Users(db: map<bytes, (bytes, nat)>, others: map<Option<bytes>, Exchange>)

  datatype Ctx = Ctx(
    cipher: Option<AesKey>, username: bytes, password: bytes, sessionkey: bytes, mackey: bytes,
    ex: Exchange, users: Option<Users>)

  datatype Error =
    ValueError | MalformedError | KeyError | AttributeError | AssertionError | TypeError | IndexError | StructError

  datatype Outcome = Reply(text: bytes) | Plain(msg: bytes) | Accepted | NoAnswer | Raised(error: Error)

  /** What the random number generator hands out during one call; any exponent is allowed. */
  datatype RawCoins = RawCoins(exponent: nat, iv: bytes)
  type Coins = c: RawCoins | |c.iv| == 16 witness RawCoins(2, Zeros(16))

  const SPACE: byte := 0x20
  const SRP: bytes := [0x2b, 0x73, 0x72, 0x70]
  const SRPA0: bytes := [0x2b, 0x73, 0x72, 0x70, 0x61, 0x30, 0x20]
  const SRPA1: bytes := [0x2b, 0x73, 0x72, 0x70, 0x61, 0x31, 0x20]
  const SRPA2: bytes := [0x2b, 0x73, 0x72, 0x70, 0x61, 0x32, 0x20]
  const SRPA3: bytes := [0x2b, 0x73, 0x72, 0x70, 0x61, 0x33, 0x20]
  const ENC: bytes := [0x65, 0x6e, 0x63]
  const AUTH: bytes := [0x61, 0x75, 0x74, 0x68]
  const STAR: byte := 0x2a
  const LETTER_M: byte := 0x4d
  const KEYMARK: bytes := [0xff, 0x4b, 0x45, 0x59]

  /** Index of the first space, or the length when there is none. */
  function FirstSpace(m: bytes): (i: nat)
    ensures i <= |m| && SPACE !in m[..i] && (i < |m| ==> m[i] == SPACE)
  {
    if m == [] || m[0] == SPACE then 0 else 1 + FirstSpace(m[1..])
  }

  /** Command digit and argument of a notice; no message at all gives two empty strings. */
  function ParseCommand(msg: Option<bytes>): Result<(bytes, bytes), Error> {
    if msg.None? || msg.value == [] then Ok(([], []))
    else
      var m := msg.value;
      var i := FirstSpace(m);
      if i == |m| then Err(ValueError)
      else if !(SRP <= m[..i]) then Err(ValueError)
      else Ok((if i < 5 then [] else m[5..i], m[i + 1..]))
  }

  lemma {:induction false} FirstSpaceIs(m: bytes, i: nat)
    requires i < |m| && m[i] == SPACE && SPACE !in m[..i]
    ensures FirstSpace(m) == i
  {
    if i > 0 {
      assert m[0] in m[..i];
      assert m[1..][..i - 1] == m[1..i] && forall x :: x in m[1..i] ==> x in m[..i];
      FirstSpaceIs(m[1..], i - 1);
    }
  }

  /** A notice as the exchange writes it is read back as its command digit and its argument. */
  lemma ParseHonest(head: bytes, arg: bytes, d: byte)
    requires |head| == 7 && SRP <= head && head[4] != SPACE && head[5] == d && d != SPACE && head[6] == SPACE
    ensures ParseCommand(Some(head + arg)) == Ok(([d], arg))
  {
    var m := head + arg;
    assert m[..6] == SRP + [head[4], d];
    FirstSpaceIs(m, 6);
    assert m[5..6] == [d] && m[7..] == arg;
  }

  // ---- the exchange, message by message ----

  function Proof(s: Suite, A: nat, B: nat, S: nat): (h: bytes)
    ensures |h| == 32
  {
    s.hash(Int2Bytes(A) + Int2Bytes(B) + Int2Bytes(S))
  }

  function Answer(s: Suite, A: nat, M1: bytes, S: nat): (h: bytes)
    ensures |h| == 32
  {
    s.hash(Int2Bytes(A) + M1 + Int2Bytes(S))
  }

  function Scramble(s: Suite, A: nat, B: nat): nat {
    FromBytes(s.hash(Int2Bytes(A) + Int2Bytes(B)))
  }

  function PasswordExponent(s: Suite, salt: bytes, username: bytes, password: bytes): nat {
    FromBytes(s.hash(salt + username + password))
  }

  function EncKey(s: Suite, S: nat): (k: AesKey) {
    s.hash(Int2Bytes(S) + ENC)
  }

  function AuthKey(s: Suite, S: nat): bytes {
    s.hash(Int2Bytes(S) + AUTH)
  }

  /** Dave's public value for the verifier v and his exponent b. */
  function Hello(s: Suite, v: nat, b: nat): nat {
    Algebra.Offer(g, s.N, v, b)
  }

  function AliceSecret(s: Suite, B: nat, x: nat, a: nat, u: nat): nat {
    Algebra.AliceShare(g, s.N, B, x, a, u)
  }

  function DaveSecret(s: Suite, A: nat, v: nat, u: nat, b: nat): nat {
    Algebra.DaveShare(s.N, A, v, u, b)
  }

  /** What a user hands to Dave before the first exchange. */
  function Generate(s: Suite, username: bytes, password: bytes, salt: bytes): (bytes, nat) {
    (salt, ModPow(g, PasswordExponent(s, salt, username, password), s.N))
  }

  function Start(c: Ctx): (Ctx, Outcome) {
    (c.(ex := c.ex.(status := 1)), Reply(SRPA0 + c.username))
  }

  function WithOther(c: Ctx, sender: Option<bytes>, ex: Exchange): Ctx
    requires c.users.Some?
  {
    c.(users := Some(c.users.value.(others := c.users.value.others[sender := ex])))
  }

  /** Dave answers +srpa0. The entry for the sender is replaced even when the user is unknown. */
  function DaveHello(s: Suite, c: Ctx, arg: bytes, sender: Option<bytes>, b: nat): (Ctx, Outcome) {
    if c.users.None? then (c, Raised(AttributeError))
    else if arg !in c.users.value.db then (WithOther(c, sender, FRESH.(I := arg)), Raised(KeyError))
    else
      var (salt, v) := c.users.value.db[arg];
      var B := Hello(s, v, b);
      var ex := FRESH.(I := arg, s := salt, v := Some(v), b := b, B := B);
      (WithOther(c, sender, ex), Reply(SRPA1 + s.b64enc(salt + Int2Bytes(B))))
  }

  function Take(b: bytes, n: nat): bytes { if |b| <= n then b else b[..n] }
  function Drop(b: bytes, n: nat): bytes { if |b| <= n then [] else b[n..] }

  /** Alice answers +srpa1 with her proof. */
  function AliceProof(s: Suite, c: Ctx, arg: bytes, a: nat): (Ctx, Outcome) {
    var raw := s.b64dec(arg);
    if raw.None? then (c, Raised(TypeError))
    else
      var salt, B := Take(raw.value, 32), FromBytes(Drop(raw.value, 32));
      if B % s.N == 0 then (c.(ex := c.ex.(s := salt, B := B)), Raised(ValueError))
      else
        var A := ModPow(g, a, s.N);
        var x := PasswordExponent(s, salt, c.username, c.password);
        var u := Scramble(s, A, B);
        var S := AliceSecret(s, B, x, a, u);
        var M1 := Proof(s, A, B, S);
        var ex := c.ex.(s := salt, B := B, a := a, A := A, x := x, u := u, S := S,
                        K1 := EncKey(s, S), K2 := AuthKey(s, S), M1 := M1, status := 2);
        (c.(ex := ex), Reply(SRPA2 + s.b64enc(M1 + Int2Bytes(A))))
  }

  /** Dave checks the proof in +srpa2 and, when it is right, sends the keys he holds at that moment. */
  function DaveVerify(s: Suite, c: Ctx, arg: bytes, sender: Option<bytes>, iv: bytes): (Ctx, Outcome)
    requires |iv| == 16
  {
    if c.users.None? then (c, Raised(AttributeError))
    else if sender !in c.users.value.others then (c, Raised(ValueError))
    else
      var ex := c.users.value.others[sender];
      var raw := s.b64dec(arg);
      if raw.None? then (c, Raised(TypeError))
      else
        var M1, A := Take(raw.value, 32), FromBytes(Drop(raw.value, 32));
        if A % s.N == 0 then (c, Raised(ValueError))
        else if ex.v.None? then (c, Raised(AttributeError))
        else
          var u := Scramble(s, A, ex.B);
          var S := DaveSecret(s, A, ex.v.value, u, ex.b);
          var c1 := c.(ex := c.ex.(K1 := EncKey(s, S), K2 := AuthKey(s, S)));
          if M1 != Proof(s, A, ex.B, S) then (c1, Raised(ValueError))
          else
            var users := c.users.value;
            var c2 := c1.(users := Some(users.(others := users.others - {sender})));
            var plain := c.sessionkey + c.mackey + Answer(s, A, M1, S);
            if !Cbc.Whole(|plain|, 16) then (c2, Raised(AssertionError))
            else
              var sealed := CbcSeal(s, EncKey(s, S), iv, plain);
              (c2, Reply(SRPA3 + s.b64enc(s.hmac(AuthKey(s, S), sealed) + sealed)))
  }

  /** The context with new channel keys, everything else as it was. */
  function Adopt(c: Ctx, sessionkey: AesKey, mackey: bytes): Ctx {
    c.(sessionkey := sessionkey, mackey := mackey, cipher := Some(sessionkey))
  }

  /** Alice takes the keys out of +srpa3. */
  function AliceFinish(s: Suite, c: Ctx, arg: bytes): (Ctx, Outcome) {
    var raw := s.b64dec(arg);
    if raw.None? then (c, Raised(TypeError))
    else if |c.ex.K1| != 32 then (c, Raised(ValueError))
    else
      var mac, sealed := Take(raw.value, 16), Drop(raw.value, 16);
      if s.hmac(c.ex.K2, sealed) != mac then (c, Raised(ValueError))
      else if !Cbc.Whole(|sealed|, 16) then (c, Raised(AssertionError))
      else
        TakeKeys(s, c, CbcOpen(s, c.ex.K1, sealed))
  }

  /** The two keys count only when Dave's answer behind them is the expected one. */
  function TakeKeys(s: Suite, c: Ctx, plain: bytes): (Ctx, Outcome) {
    var sessionkey, mackey, M2 := Take(plain, 32), Take(Drop(plain, 32), 32), Take(Drop(plain, 64), 32);
    if M2 != Answer(s, c.ex.A, c.ex.M1, c.ex.S) then (c, Raised(ValueError))
    else (Adopt(c, sessionkey, mackey).(ex := c.ex.(status := 0)), Accepted)
  }

  /** The notice handler. */
  function Handle(s: Suite, c: Ctx, msg: Option<bytes>, sender: Option<bytes>, coins: Coins): (Ctx, Outcome) {
    match ParseCommand(msg)
    case Err(e) => (c, Raised(e))
    case Ok((cmd, arg)) =>
      if msg.None? && sender.None? && c.ex.status == 0 then Start(c)
      else if cmd == [0x30] then DaveHello(s, c, arg, sender, coins.exponent)
      else if cmd == [0x31] && c.ex.status == 1 then AliceProof(s, c, arg, coins.exponent)
      else if cmd == [0x32] then DaveVerify(s, c, arg, sender, coins.iv)
      else if cmd == [0x33] && c.ex.status == 2 then AliceFinish(s, c, arg)
      else (c, Raised(ValueError))
  }

  // ---- channel messages ----

  /** Marker, name length, name and a four-byte time stamp. */
  function Header(username: bytes, times: bytes): bytes
    requires |username| < 256
  {
    [LETTER_M] + ([Chr(|username|)] + username + times)
  }

  function Pack(s: Suite, c: Ctx, msg: bytes, times: bytes, iv: bytes): Outcome
    requires |iv| == 16
  {
    if |c.username| >= 256 then Raised(ValueError)
    else if c.cipher.None? then Raised(AttributeError)
    else
      var sealed := CbcSeal(s, c.cipher.value, iv, Padded(Header(c.username, times) + msg, 16));
      Reply([STAR] + s.b64enc(s.hmac(c.mackey, sealed) + sealed))
  }

  /** Zero bytes off both ends. */
  function Strip(b: bytes): bytes {
    if b != [] && b[0] == 0 then Strip(b[1..]) else TrimZeros(b)
  }

  function Unpack(s: Suite, c: Ctx, msg: bytes): (Ctx, Outcome) {
    if msg == [] || msg[0] != STAR then (c, Raised(ValueError))
    else
      var raw := s.b64dec(msg[1..]);
      if raw.None? || raw.value == [] then (c, Raised(MalformedError))
      else
        var mac, sealed := Take(raw.value, 16), Drop(raw.value, 16);
        if mac != s.hmac(c.mackey, sealed) then (c, Raised(ValueError))
        else if c.cipher.None? then (c, Raised(AttributeError))
        else if !Cbc.Whole(|sealed|, 16) then (c, Raised(AssertionError))
        else
          var padded := CbcOpen(s, c.cipher.value, sealed);
          if padded == [] then (c, Raised(MalformedError))
          else Deliver(c, Strip(padded))
  }

  /** What an opened and stripped message does: a text for the channel, or new keys. */
  function Deliver(c: Ctx, plain: bytes): (Ctx, Outcome) {
    if plain == [] then (c, Raised(IndexError))
    else if plain[0] != LETTER_M then (c, Raised(ValueError))
    else if |plain| < 2 then (c, Raised(IndexError))
    else
      var namelen := Ord(plain[1]);
      if |Take(Drop(plain, 2 + namelen), 4)| != 4 then (c, Raised(StructError))
      else
        var text := Drop(plain, 6 + namelen);
        if KEYMARK <= text then
          var key := text[4..];
          if |key| != 64 then (c, Raised(MalformedError))
          else (Adopt(c, key[..32], key[32..]), NoAnswer)
        else (c, Plain(text))
  }

  /** New keys; Dave first announces them under the old ones. */
  function SetKey(s: Suite, c: Ctx, key: bytes, times: bytes, iv: bytes): (Ctx, Outcome)
    requires |iv| == 16
  {
    if |key| != 64 then (c, Raised(AssertionError))
    else
      var note := if c.users.Some? then Pack(s, c, KEYMARK + key, times, iv) else NoAnswer;
      if note.Raised? then (c, note)
      else (Adopt(c, key[..32], key[32..]), note)
  }
}
