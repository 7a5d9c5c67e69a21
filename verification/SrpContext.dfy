/** A chat participant, Dave or Alice: the fields are assigned step by step, as the calls proceed. */
module SrpContext {
  import opened Wrappers
  import opened Bytes
  import opened Modular
  import opened SrpSuite
  import opened SrpPrimitives
  import Spec = SrpSpec
  import opened SrpSpec
  import Cbc

  class IrcSrpCtx {
    const suite: Suite
    var cipher: Option<AesKey>
    var username: bytes
    var password: bytes
    var sessionkey: bytes
    var mackey: bytes
    var ex: Exchange
    var users: Option<Users>

    function State(): Ctx
      reads this
    {
      Ctx(cipher, username, password, sessionkey, mackey, ex, users)
    }

    constructor (suite: Suite, dave: bool)
      ensures this.suite == suite
      ensures State() == Ctx(None, [], [], [], [], FRESH, if dave then Some(Users(map[], map[])) else None)
    {
      this.suite := suite;
      cipher, username, password, sessionkey, mackey := None, [], [], [], [];
      ex := FRESH;
      users := if dave then Some(Users(map[], map[])) else None;
    }

    method Pack(msg: bytes, times: bytes, iv: bytes) returns (out: Outcome)
      requires |iv| == 16
      ensures out == Spec.Pack(suite, State(), msg, times, iv)
    {
      if |username| >= 256 {
        return Raised(ValueError);
      }
      var infos := [Chr(|username|)] + username + times;
      if cipher.None? {
        return Raised(AttributeError);
      }
      var padded := PadTo([LETTER_M] + infos + msg, 16);
      var ctext := CbcEncrypt(suite, cipher.value, iv, padded);
      var cmac := suite.hmac(mackey, ctext);
      out := Reply([STAR] + suite.b64enc(cmac + ctext));
    }

    method Adopt(session: AesKey, mac: bytes)
      modifies this`sessionkey, this`mackey, this`cipher
      ensures State() == Spec.Adopt(old(State()), session, mac)
    {
      sessionkey := session;
      mackey := mac;
      cipher := Some(sessionkey);
    }

    method SetKey(key: bytes, times: bytes, iv: bytes) returns (out: Outcome)
      requires |iv| == 16
      modifies this
      ensures (State(), out) == Spec.SetKey(suite, old(State()), key, times, iv)
    {
      if |key| != 64 {
        return Raised(AssertionError);
      }
      out := NoAnswer;
      if users.Some? {
        out := Pack(KEYMARK + key, times, iv);
        if out.Raised? {
          return;
        }
      }
      Adopt(key[..32], key[32..]);
    }

    method Unpack(msg: bytes) returns (out: Outcome)
      modifies this
      ensures (State(), out) == Spec.Unpack(suite, old(State()), msg)
    {
      if msg == [] || msg[0] != STAR {
        return Raised(ValueError);
      }
      var raw := suite.b64dec(msg[1..]);
      if raw.None? || raw.value == [] {
        return Raised(MalformedError);
      }
      var cmac, ctext := Take(raw.value, 16), Drop(raw.value, 16);
      if cmac != suite.hmac(mackey, ctext) {
        return Raised(ValueError);
      }
      if cipher.None? {
        return Raised(AttributeError);
      }
      if !Cbc.Whole(|ctext|, 16) {
        return Raised(AssertionError);
      }
      var padded := CbcDecrypt(suite, cipher.value, ctext);
      if padded == [] {
        return Raised(MalformedError);
      }
      out := Deliver(Strip(padded));
    }

    method Deliver(stripped: bytes) returns (out: Outcome)
      modifies this
      ensures (State(), out) == Spec.Deliver(old(State()), stripped)
    {
      var plain := stripped;
      if plain == [] {
        return Raised(IndexError);
      }
      if plain[0] != LETTER_M {
        return Raised(ValueError);
      }
      if |plain| < 2 {
        return Raised(IndexError);
      }
      var usernamelen := Ord(plain[1]);
      var timestampstr := Take(Drop(plain, 2 + usernamelen), 4);
      if |timestampstr| != 4 {
        return Raised(StructError);
      }
      plain := Drop(plain, 6 + usernamelen);
      if KEYMARK <= plain {
        var key := plain[4..];
        if |key| != 64 {
          return Raised(MalformedError);
        }
        Adopt(key[..32], key[32..]);
        return NoAnswer;
      }
      return Plain(plain);
    }

    method Exchange(msg: Option<bytes>, sender: Option<bytes>, coins: Coins) returns (out: Outcome)
      modifies this
      ensures (State(), out) == Spec.Handle(suite, old(State()), msg, sender, coins)
    {
      var parsed := ParseCommand(msg);
      if parsed.Err? {
        return Raised(parsed.error);
      }
      var (cmd, arg) := parsed.value;
      if msg.None? && sender.None? && ex.status == 0 {
        ex := ex.(status := 1);
        out := Reply(SRPA0 + username);
      } else if cmd == [0x30] {
        out := DaveHello(arg, sender, coins.exponent);
      } else if cmd == [0x31] && ex.status == 1 {
        out := AliceProof(arg, coins.exponent);
      } else if cmd == [0x32] {
        out := DaveVerify(arg, sender, coins.iv);
      } else if cmd == [0x33] && ex.status == 2 {
        out := AliceFinish(arg);
      } else {
        out := Raised(ValueError);
      }
    }

    method SetOther(sender: Option<bytes>, other: Exchange)
      requires users.Some?
      modifies this`users
      ensures State() == WithOther(old(State()), sender, other)
    {
      users := Some(users.value.(others := users.value.others[sender := other]));
    }

    method DaveHello(arg: bytes, sender: Option<bytes>, b: nat) returns (out: Outcome)
      modifies this
      ensures (State(), out) == Spec.DaveHello(suite, old(State()), arg, sender, b)
    {
      if users.None? {
        return Raised(AttributeError);
      }
      var other := FRESH.(I := arg);
      SetOther(sender, other);
      if arg !in users.value.db {
        return Raised(KeyError);
      }
      var (salt, v) := users.value.db[arg];
      other := other.(s := salt, v := Some(v));
      other := other.(b := b);
      other := other.(B := Hello(suite, v, b));
      SetOther(sender, other);
      var digits := IntToBytes(other.B);
      out := Reply(SRPA1 + suite.b64enc(salt + digits));
      ghost var was := old(users).value;
      assert was.others[sender := FRESH.(I := arg)][sender := other] == was.others[sender := other];
    }

    method AliceProof(arg: bytes, a: nat) returns (out: Outcome)
      modifies this
      ensures (State(), out) == Spec.AliceProof(suite, old(State()), arg, a)
    {
      var raw := suite.b64dec(arg);
      if raw.None? {
        return Raised(TypeError);
      }
      var args := raw.value;
      ex := ex.(s := Take(args, 32));
      var B := BytesToInt(Drop(args, 32));
      ex := ex.(B := B);
      if B % suite.N == 0 {
        return Raised(ValueError);
      }
      ex := ex.(a := a);
      ex := ex.(A := ModPow(g, a, suite.N));
      var x := BytesToInt(suite.hash(ex.s + username + password));
      ex := ex.(x := x);
      var bytesA := IntToBytes(ex.A);
      var bytesB := IntToBytes(B);
      var u := BytesToInt(suite.hash(bytesA + bytesB));
      ex := ex.(u := u);
      ex := ex.(S := AliceSecret(suite, B, x, a, u));
      var bytesS := IntToBytes(ex.S);
      ex := ex.(K1 := suite.hash(bytesS + ENC));
      ex := ex.(K2 := suite.hash(bytesS + AUTH));
      ex := ex.(M1 := suite.hash(bytesA + bytesB + bytesS));
      ex := ex.(status := 2);
      out := Reply(SRPA2 + suite.b64enc(ex.M1 + bytesA));
    }

    method DaveVerify(arg: bytes, sender: Option<bytes>, iv: bytes) returns (out: Outcome)
      requires |iv| == 16
      modifies this
      ensures (State(), out) == Spec.DaveVerify(suite, old(State()), arg, sender, iv)
    {
      if users.None? {
        return Raised(AttributeError);
      }
      if sender !in users.value.others {
        return Raised(ValueError);
      }
      var other := users.value.others[sender];
      var raw := suite.b64dec(arg);
      if raw.None? {
        return Raised(TypeError);
      }
      var M1 := Take(raw.value, 32);
      var A := BytesToInt(Drop(raw.value, 32));
      if A % suite.N == 0 {
        return Raised(ValueError);
      }
      var bytesA := IntToBytes(A);
      var bytesB := IntToBytes(other.B);
      var u := BytesToInt(suite.hash(bytesA + bytesB));
      if other.v.None? {
        return Raised(AttributeError);
      }
      var S := ModPow(A * ModPow(other.v.value, u, suite.N), other.b, suite.N);
      var bytesS := IntToBytes(S);
      ex := ex.(K1 := suite.hash(bytesS + ENC));
      ex := ex.(K2 := suite.hash(bytesS + AUTH));
      var M2 := suite.hash(bytesA + M1 + bytesS);
      var M1ver := suite.hash(bytesA + bytesB + bytesS);
      if M1 != M1ver {
        return Raised(ValueError);
      }
      users := Some(users.value.(others := users.value.others - {sender}));
      var plain := sessionkey + mackey + M2;
      if !Cbc.Whole(|plain|, 16) {
        return Raised(AssertionError);
      }
      var csession := CbcEncrypt(suite, ex.K1, iv, plain);
      var cmac := suite.hmac(ex.K2, csession);
      out := Reply(SRPA3 + suite.b64enc(cmac + csession));
    }

    method AliceFinish(arg: bytes) returns (out: Outcome)
      modifies this
      ensures (State(), out) == Spec.AliceFinish(suite, old(State()), arg)
    {
      var raw := suite.b64dec(arg);
      if raw.None? {
        return Raised(TypeError);
      }
      if |ex.K1| != 32 {
        return Raised(ValueError);
      }
      var cmac, csession := Take(raw.value, 16), Drop(raw.value, 16);
      if suite.hmac(ex.K2, csession) != cmac {
        return Raised(ValueError);
      }
      if !Cbc.Whole(|csession|, 16) {
        return Raised(AssertionError);
      }
      var plain := CbcDecrypt(suite, ex.K1, csession);
      out := TakeKeys(plain);
    }

    method TakeKeys(plain: bytes) returns (out: Outcome)
      modifies this
      ensures (State(), out) == Spec.TakeKeys(suite, old(State()), plain)
    {
      var newSession := Take(plain, 32);
      var newMac := Take(Drop(plain, 32), 32);
      var M2 := Take(Drop(plain, 64), 32);
      var bytesA := IntToBytes(ex.A);
      var bytesS := IntToBytes(ex.S);
      var M2ver := suite.hash(bytesA + ex.M1 + bytesS);
      if M2 != M2ver {
        return Raised(ValueError);
      }
      Adopt(newSession, newMac);
      ex := ex.(status := 0);
      out := Accepted;
    }
  }
}
