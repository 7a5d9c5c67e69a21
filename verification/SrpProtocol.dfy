/**
 Many Alices and one Dave on a network that delivers every notice unchanged but in any order.
 Each Alice has at most one notice on the wire. Dave may change the channel keys at any time.
 */
module SrpProtocol {
  import opened Wrappers
  import opened Bytes
  import opened Modular
  import opened SrpSuite
  import opened SrpPrimitives
  import opened SrpSpec
  import Algebra = SrpAlgebra
  import PowersOfTwo
  import Cbc

  datatype Wire = Quiet | ToDave(text: bytes) | ToAlice(text: bytes)

  /**
   granted and done are history: the keys Dave held when he sent +srpa3, and who has accepted since she last
   began.
   */
  datatype Net = Net(
    dave: Ctx, alices: map<bytes, Ctx>, wires: map<bytes, Wire>,
    granted: map<bytes, (bytes, bytes)>, done: set<bytes>)

  datatype Event =
    | Begin(nick: bytes, coins: Coins)
    | Arrive(nick: bytes, coins: Coins)
    | Rekey(key: bytes, times: bytes, coins: Coins)

  function Next(s: Suite, y: Net, e: Event): Net {
    match e
    case Begin(nick, coins) =>
      if nick in y.alices && nick in y.wires && y.wires[nick].Quiet? then AliceBegins(s, y, nick, coins) else y
    case Arrive(nick, coins) =>
      if nick !in y.alices || nick !in y.wires then y
      else (
        match y.wires[nick]
        case Quiet => y
        case ToDave(m) => DaveReads(s, y, nick, m, coins)
        case ToAlice(m) => AliceReads(s, y, nick, m, coins)
      )
    case Rekey(key, times, coins) =>
      y.(dave := SetKey(s, y.dave, key, times, coins.iv).0)
  }

  function AliceBegins(s: Suite, y: Net, nick: bytes, coins: Coins): Net
    requires nick in y.alices
  {
    var (c, out) := Handle(s, y.alices[nick], None, None, coins);
    AliceActed(y, nick, c, out, y.done - {nick})
  }

  function AliceReads(s: Suite, y: Net, nick: bytes, m: bytes, coins: Coins): Net
    requires nick in y.alices
  {
    var (c, out) := Handle(s, y.alices[nick], Some(m), Some(y.dave.username), coins);
    AliceActed(y, nick, c, out, if out.Accepted? then y.done + {nick} else y.done)
  }

  function DaveReads(s: Suite, y: Net, nick: bytes, m: bytes, coins: Coins): Net {
    var (d, out) := Handle(s, y.dave, Some(m), Some(nick), coins);
    DaveActed(y, nick, d, out)
  }

  /** An Alice in her new state; a text that she answers with goes on the wire. */
  function AliceActed(y: Net, nick: bytes, c: Ctx, out: Outcome, done: set<bytes>): Net {
    y.(alices := y.alices[nick := c],
       wires := y.wires[nick := if out.Reply? then ToDave(out.text) else Quiet],
       done := done)
  }

  /** Dave in his new state; when his answer is +srpa3 the keys he held become the granted ones. */
  function DaveActed(y: Net, nick: bytes, d: Ctx, out: Outcome): Net {
    y.(dave := d,
       wires := y.wires[nick := if out.Reply? then ToAlice(out.text) else Quiet],
       granted := if out.Reply? && SRPA3 <= out.text then y.granted[nick := (y.dave.sessionkey, y.dave.mackey)]
                  else y.granted)
  }

  function Run(s: Suite, y: Net, events: seq<Event>): Net
    decreases |events|
  {
    if events == [] then y else Next(s, Run(s, y, events[..|events| - 1]), events[|events| - 1])
  }

  /** Dave has channel keys; every Alice is registered with her own password and has not begun. */
  ghost predicate Initial(s: Suite, y: Net) {
    && DaveReady(y.dave)
    && y.alices.Keys == y.wires.Keys
    && y.done == {}
    && forall nick <- y.alices ::
       y.wires[nick].Quiet? && y.alices[nick].ex.status == 0 && Registered(s, y.dave, y.alices[nick])
  }

  ghost predicate DaveReady(d: Ctx) {
    d.users.Some? && |d.sessionkey| == 32 && |d.mackey| == 32
  }

  ghost predicate Registered(s: Suite, d: Ctx, c: Ctx) {
    && d.users.Some? && c.username in d.users.value.db
    && var salt := d.users.value.db[c.username].0;
       |salt| == 32 && d.users.value.db[c.username] == Generate(s, c.username, c.password, salt)
  }

  // ---- what the state says about one Alice ----

  /** Everything about one Alice: herself, her notice, Dave's record of her and her history. */
  datatype View = View(c: Ctx, wire: Wire, account: (bytes, nat), other: Option<Exchange>,
                       grant: Option<(bytes, bytes)>, done: bool)

  function Lookup<K, V>(m: map<K, V>, k: K): Option<V> {
    if k in m then Some(m[k]) else None
  }

  function ViewOf(y: Net, nick: bytes): View
    requires nick in y.alices && nick in y.wires && y.dave.users.Some?
             && y.alices[nick].username in y.dave.users.value.db
  {
    var c := y.alices[nick];
    View(c, y.wires[nick], y.dave.users.value.db[c.username],
         Lookup(y.dave.users.value.others, Some(nick)), Lookup(y.granted, nick), nick in y.done)
  }

  ghost predicate AccountOk(s: Suite, v: View) {
    |v.account.0| == 32 && v.account == Generate(s, v.c.username, v.c.password, v.account.0)
  }

  /** Dave's record of an exchange he has answered once. */
  ghost predicate DaveHalf(s: Suite, v: View) {
    && v.other.Some?
    && var o := v.other.value;
       o.I == v.c.username && o.s == v.account.0 && o.v == Some(v.account.1) && o.B == Hello(s, v.account.1, o.b)
  }

  /** Alice's record once she has computed her proof. */
  ghost predicate AliceHalf(s: Suite, v: View) {
    AliceComputed(s, v.c, v.account.0)
  }

  ghost predicate AliceComputed(s: Suite, c: Ctx, salt: bytes) {
    var ex := c.ex;
    && ex.A == ModPow(g, ex.a, s.N)
    && ex.x == PasswordExponent(s, salt, c.username, c.password)
    && ex.u == Scramble(s, ex.A, ex.B)
    && ex.S == AliceSecret(s, ex.B, ex.x, ex.a, ex.u)
    && ex.K1 == EncKey(s, ex.S) && ex.K2 == AuthKey(s, ex.S)
    && ex.M1 == Proof(s, ex.A, ex.B, ex.S)
  }

  /** The exponent of this exchange survives the reduction by the modulus. */
  predicate SmallExponent(s: Suite, ex: Exchange) {
    ex.a + ex.u * ex.x < s.N
  }

  /** What Dave seals for an Alice whose proof was right. */
  function KeyText(s: Suite, A: nat, M1: bytes, S: nat, grant: (bytes, bytes)): bytes {
    grant.0 + grant.1 + Answer(s, A, M1, S)
  }

  function KeyArgument(s: Suite, A: nat, M1: bytes, S: nat, iv: bytes, grant: (bytes, bytes)): bytes
    requires |iv| == 16 && |grant.0| == 32 && |grant.1| == 32
  {
    Whole96();
    var sealed := CbcSeal(s, EncKey(s, S), iv, KeyText(s, A, M1, S, grant));
    s.b64enc(s.hmac(AuthKey(s, S), sealed) + sealed)
  }

  function KeyNotice(s: Suite, A: nat, M1: bytes, S: nat, iv: bytes, grant: (bytes, bytes)): bytes
    requires |iv| == 16 && |grant.0| == 32 && |grant.1| == 32
  {
    SRPA3 + KeyArgument(s, A, M1, S, iv, grant)
  }

  lemma Whole96()
    ensures Cbc.Whole(96, 16)
  {
    assert Cbc.Whole(48, 16) by { assert Cbc.Whole(16, 16); }
    assert Cbc.Whole(64, 16) && Cbc.Whole(80, 16);
  }

  /** The keys are on their way, sealed under what Dave computed with some exponent b behind the B that Alice holds. */
  ghost predicate KeysSent(s: Suite, v: View, b: nat, iv: bytes) {
    && v.grant.Some? && |v.grant.value.0| == 32 && |v.grant.value.1| == 32
    && v.other.None?
    && AliceHalf(s, v)
    && v.c.ex.B == Hello(s, v.account.1, b)
    && |iv| == 16
    && v.wire == ToAlice(KeyNotice(s, v.c.ex.A, v.c.ex.M1,
                                   DaveSecret(s, v.c.ex.A, v.account.1, v.c.ex.u, b), iv, v.grant.value))
  }

  /** Alice accepted: with a small exponent she holds what was granted and Dave has dropped the exchange. */
  ghost predicate Finished(s: Suite, v: View) {
    && v.c.ex.status == 0
    && (SmallExponent(s, v.c.ex) ==>
          && v.grant == Some((v.c.sessionkey, v.c.mackey))
          && v.c.cipher == Some(v.c.sessionkey)
          && v.other.None?)
  }

  ghost predicate Stage(s: Suite, v: View) {
    AccountOk(s, v) &&
    match v.wire
    case Quiet => v.done ==> Finished(s, v)
    case ToDave(m) =>
      && !v.done
      && ((v.c.ex.status == 1 && m == SRPA0 + v.c.username)
          || (v.c.ex.status == 2 && DaveHalf(s, v) && AliceHalf(s, v) && v.c.ex.B == v.other.value.B
              && m == SRPA2 + s.b64enc(v.c.ex.M1 + Int2Bytes(v.c.ex.A))))
    case ToAlice(m) =>
      && !v.done
      && ((v.c.ex.status == 1 && DaveHalf(s, v)
            && m == SRPA1 + s.b64enc(v.account.0 + Int2Bytes(v.other.value.B)))
          || (v.c.ex.status == 2 && exists b: nat, iv :: KeysSent(s, v, b, iv)))
  }

  /** One Alice is registered and at a stage that fits the rest of the net. */
  ghost predicate Tracked(s: Suite, y: Net, nick: bytes)
    requires nick in y.alices
  {
    nick in y.wires && Registered(s, y.dave, y.alices[nick]) && Stage(s, ViewOf(y, nick))
  }

  ghost predicate Inv(s: Suite, y: Net) {
    && DaveReady(y.dave)
    && y.alices.Keys == y.wires.Keys
    && forall nick <- y.alices :: Tracked(s, y, nick)
  }

  // ---- one lemma a step ----

  lemma SplitPair(a: bytes, b: bytes)
    requires |a| == 32
    ensures Take(a + b, 32) == a && Drop(a + b, 32) == b
  {
  }

  lemma BeginStep(s: Suite, v: View, coins: Coins)
    requires Stage(s, v) && v.wire.Quiet?
    ensures var (c, out) := Handle(s, v.c, None, None, coins);
            && c.username == v.c.username && c.password == v.c.password
            && Stage(s, v.(c := c, wire := if out.Reply? then ToDave(out.text) else Quiet, done := false))
  {
  }

  /** The record Dave makes when he answers +srpa0 from this user. */
  function HelloRecord(s: Suite, username: bytes, account: (bytes, nat), b: nat): Exchange {
    FRESH.(I := username, s := account.0, v := Some(account.1), b := b, B := Hello(s, account.1, b))
  }

  /** What Dave does with +srpa0 from a registered user. */
  lemma HelloReads(s: Suite, d: Ctx, username: bytes, nick: bytes, coins: Coins)
    requires DaveReady(d) && username in d.users.value.db
    ensures var account := d.users.value.db[username];
            var ex := HelloRecord(s, username, account, coins.exponent);
            Handle(s, d, Some(SRPA0 + username), Some(nick), coins)
            == (WithOther(d, Some(nick), ex), Reply(SRPA1 + s.b64enc(account.0 + Int2Bytes(ex.B))))
  {
    ParseHonest(SRPA0, username, 0x30);
  }

  lemma HelloIsNotKeys(text: bytes)
    ensures !(SRPA3 <= SRPA1 + text)
  {
    assert (SRPA1 + text)[5] == 0x31 && SRPA3[5] == 0x33;
  }

  lemma HelloStep(s: Suite, y: Net, d: Ctx, v: View, nick: bytes, coins: Coins)
    requires d == y.dave && DaveReady(d) && Registered(s, d, v.c) && v.account == d.users.value.db[v.c.username]
    requires Stage(s, v) && v.wire.ToDave? && v.c.ex.status == 1
    ensures var (d2, out) := Handle(s, d, Some(v.wire.text), Some(nick), coins);
            out.Reply? && DaveActedFor(d, d2, nick) && Stage(s, ViewAfterDave(y, v, nick, d2, out))
  {
    assert v.wire == ToDave(SRPA0 + v.c.username);
    HelloReads(s, d, v.c.username, nick, coins);
    hide Handle, Generate, Hello;
    var ex := HelloRecord(s, v.c.username, v.account, coins.exponent);
    HelloIsNotKeys(s.b64enc(v.account.0 + Int2Bytes(ex.B)));
  }

  /** Alice reads back exactly the salt and the B that Dave sent; only B = 0 modulo N makes her stop. */
  lemma ProofReads(s: Suite, c: Ctx, salt: bytes, B: nat, sender: bytes, coins: Coins)
    requires c.ex.status == 1 && |salt| == 32
    ensures var (c2, out) := Handle(s, c, Some(SRPA1 + s.b64enc(salt + Int2Bytes(B))), Some(sender), coins);
            var ex := c2.ex;
            && c2.username == c.username && c2.password == c.password
            && (if B % s.N == 0 then out.Raised? else
                 && out == Reply(SRPA2 + s.b64enc(ex.M1 + Int2Bytes(ex.A)))
                 && ex.status == 2 && ex.B == B
                 && AliceComputed(s, c2, salt))
  {
    var arg := s.b64enc(salt + Int2Bytes(B));
    ParseHonest(SRPA1, arg, 0x31);
    SplitPair(salt, Int2Bytes(B));
    IntRoundTrip(B);
    hide Int2Bytes, AliceSecret;
    assert Handle(s, c, Some(SRPA1 + arg), Some(sender), coins) == AliceProof(s, c, arg, coins.exponent);
  }

  lemma ProofStep(s: Suite, v: View, sender: bytes, coins: Coins)
    requires Stage(s, v) && v.wire.ToAlice? && v.c.ex.status == 1
    ensures var (c, out) := Handle(s, v.c, Some(v.wire.text), Some(sender), coins);
            && c.username == v.c.username && c.password == v.c.password
            && (out.Raised? || out.Reply?)
            && (out.Raised? <==> v.other.value.B % s.N == 0)
            && Stage(s, v.(c := c, wire := if out.Reply? then ToDave(out.text) else Quiet))
  {
    ProofReads(s, v.c, v.account.0, v.other.value.B, sender, coins);
    hide Handle, Int2Bytes, AliceSecret;
  }

  lemma TwoIsUnit(s: Suite)
    ensures Unit(g, (s.N + 1) / 2, s.N)
  {
    PowersOfTwo.TwoIsUnit(s.N);
  }

  lemma PowerNotZero(p: int, h: int, a: nat, n: nat)
    requires Unit(p, h, n)
    ensures ModPow(p, a, n) % n != 0
  {
    UnitPow(p, h, a, n);
    Algebra.UnitNotZero(Pow(p, a), Pow(h, a), n);
    SmallMod(ModPow(p, a, n), n);
  }

  lemma PublicValueNotZero(s: Suite, a: nat)
    ensures ModPow(g, a, s.N) % s.N != 0
  {
    TwoIsUnit(s);
    PowerNotZero(g, (s.N + 1) / 2, a, s.N);
  }

  /** Dave recovers A and the proof, and rejects only when his secret gives another proof. */
  lemma VerifyReads(s: Suite, d: Ctx, nick: bytes, coins: Coins, M1: bytes, a: nat, o: Exchange)
    requires DaveReady(d) && Some(nick) in d.users.value.others && o == d.users.value.others[Some(nick)]
    requires |M1| == 32 && o.v.Some?
    ensures var A := ModPow(g, a, s.N);
            var S := DaveSecret(s, A, o.v.value, Scramble(s, A, o.B), o.b);
            var (d2, out) := Handle(s, d, Some(SRPA2 + s.b64enc(M1 + Int2Bytes(A))), Some(nick), coins);
            && d2.sessionkey == d.sessionkey && d2.mackey == d.mackey
            && (if M1 != Proof(s, A, o.B, S) then out.Raised? && d2.users == d.users
                else d2.users == Some(d.users.value.(others := d.users.value.others - {Some(nick)}))
                     && out == Reply(KeyNotice(s, A, M1, S, coins.iv, (d.sessionkey, d.mackey))))
  {
    var A := ModPow(g, a, s.N);
    var arg := s.b64enc(M1 + Int2Bytes(A));
    ParseHonest(SRPA2, arg, 0x32);
    SplitPair(M1, Int2Bytes(A));
    IntRoundTrip(A);
    PublicValueNotZero(s, a);
    Whole96();
    hide Int2Bytes, DaveSecret, CbcSeal, Scramble, Proof;
    assert Handle(s, d, Some(SRPA2 + arg), Some(nick), coins) == DaveVerify(s, d, arg, Some(nick), coins.iv);
  }

  /** Below N the proof is right: Dave's secret is Alice's. */
  lemma ProofHolds(s: Suite, v: View)
    requires AliceHalf(s, v) && AccountOk(s, v) && DaveHalf(s, v) && v.c.ex.B == v.other.value.B
             && SmallExponent(s, v.c.ex)
    ensures var ex := v.c.ex;
            ex.M1 == Proof(s, ex.A, ex.B, DaveSecret(s, ex.A, v.account.1, ex.u, v.other.value.b))
  {
    SecretsAgree(s, v.c.ex.a, v.other.value.b, v.c.ex.x, v.c.ex.u);
  }

  /** Dave either answers with the key notice or rejects and keeps his record. */
  lemma VerifyOutcome(s: Suite, d: Ctx, v: View, nick: bytes, coins: Coins)
    requires DaveReady(d) && v.other == Lookup(d.users.value.others, Some(nick))
    requires Stage(s, v) && v.wire.ToDave? && v.c.ex.status == 2
    ensures var (d2, out) := Handle(s, d, Some(v.wire.text), Some(nick), coins);
            var ex := v.c.ex;
            && v.other.Some?
            && var S := DaveSecret(s, ex.A, v.account.1, ex.u, v.other.value.b);
            && d2.sessionkey == d.sessionkey && d2.mackey == d.mackey
            && (SmallExponent(s, ex) ==> out.Reply?)
            && ((out.Raised? && d2.users == d.users)
                || (out == Reply(KeyNotice(s, ex.A, ex.M1, S, coins.iv, (d.sessionkey, d.mackey)))
                    && d2.users == Some(d.users.value.(others := d.users.value.others - {Some(nick)}))))
  {
    var ex, o := v.c.ex, v.other.value;
    VerifyReads(s, d, nick, coins, ex.M1, ex.a, o);
    if SmallExponent(s, ex) {
      ProofHolds(s, v);
    }
    hide Handle, AliceSecret, DaveSecret, KeyNotice, Generate, Hello;
  }

  lemma VerifyStep(s: Suite, y: Net, d: Ctx, v: View, nick: bytes, coins: Coins)
    requires d == y.dave && DaveReady(d) && v.other == Lookup(d.users.value.others, Some(nick))
    requires Stage(s, v) && v.wire.ToDave? && v.c.ex.status == 2
    ensures var (d2, out) := Handle(s, d, Some(v.wire.text), Some(nick), coins);
            && (out.Reply? || out.Raised?)
            && (SmallExponent(s, v.c.ex) ==> out.Reply?)
            && DaveActedFor(d, d2, nick) && Stage(s, ViewAfterDave(y, v, nick, d2, out))
  {
    VerifyOutcome(s, d, v, nick, coins);
    hide Handle, KeyNotice, DaveSecret, DaveHalf, Stage, SmallExponent;
    var ex := v.c.ex;
    var S := DaveSecret(s, ex.A, v.account.1, ex.u, v.other.value.b);
    var (d2, out) := Handle(s, d, Some(v.wire.text), Some(nick), coins);
    var w := ViewAfterDave(y, v, nick, d2, out);
    if out.Reply? {
      KeyNoticeHead(s, ex.A, ex.M1, S, coins.iv, (d.sessionkey, d.mackey));
      ForgetOnly(d, d2, nick);
      KeysSentStage(s, v, w, v.other.value.b, coins.iv);
    } else {
      RejectedStage(s, v);
      assert w == v.(wire := Quiet);
    }
  }

  lemma ForgetOnly(d: Ctx, d2: Ctx, nick: bytes)
    requires DaveReady(d) && d2.sessionkey == d.sessionkey && d2.mackey == d.mackey
    requires d2.users == Some(d.users.value.(others := d.users.value.others - {Some(nick)}))
    ensures DaveActedFor(d, d2, nick) && Lookup(d2.users.value.others, Some(nick)) == None
  {
  }

  lemma RejectedStage(s: Suite, v: View)
    requires Stage(s, v) && !v.wire.Quiet?
    ensures Stage(s, v.(wire := Quiet))
  {
  }

  lemma KeysSentStage(s: Suite, v: View, w: View, b: nat, iv: bytes)
    requires Stage(s, v) && v.c.ex.status == 2 && v.wire.ToDave?
    requires w.c == v.c && w.account == v.account && w.done == v.done && w.other.None?
    requires b == v.other.value.b && |iv| == 16
    requires w.grant.Some? && |w.grant.value.0| == 32 && |w.grant.value.1| == 32
    requires w.wire == ToAlice(KeyNotice(s, v.c.ex.A, v.c.ex.M1,
                                         DaveSecret(s, v.c.ex.A, v.account.1, v.c.ex.u, b), iv, w.grant.value))
    ensures Stage(s, w)
  {
    hide KeyNotice, DaveSecret, AliceSecret, Scramble, Proof, Generate, Hello;
    assert KeysSent(s, w, b, iv);
  }

  lemma KeyNoticeHead(s: Suite, A: nat, M1: bytes, S: nat, iv: bytes, grant: (bytes, bytes))
    requires |iv| == 16 && |grant.0| == 32 && |grant.1| == 32
    ensures SRPA3 <= KeyNotice(s, A, M1, S, iv, grant)
  {
  }

  /** Two participants who follow the protocol with these exponents compute one secret. */
  predicate ExchangeAgrees(s: Suite, a: nat, b: nat, x: nat, u: nat) {
    AliceSecret(s, Hello(s, ModPow(g, x, s.N), b), x, a, u)
      == DaveSecret(s, ModPow(g, a, s.N), ModPow(g, x, s.N), u, b)
  }

  /** Below N the reduction of the exponent drops nothing, and the secrets agree. */
  lemma SecretsAgree(s: Suite, a: nat, b: nat, x: nat, u: nat)
    requires a + u * x < s.N
    ensures ExchangeAgrees(s, a, b, x, u)
  {
    Algebra.SharesAgree(g, s.N, a, b, x, u);
  }

  lemma SplitThree(a: bytes, b: bytes, c: bytes)
    requires |a| == 32 && |b| == 32 && |c| == 32
    ensures var p := a + b + c;
            |p| == 96 && Take(p, 32) == a && Take(Drop(p, 32), 32) == b && Take(Drop(p, 64), 32) == c
  {
  }

  /** Alice reads what is behind +srpa3 and does not touch her name or password. */
  lemma FinishReads(s: Suite, v: View, sender: bytes, coins: Coins, arg: bytes)
    requires v.wire == ToAlice(SRPA3 + arg) && v.c.ex.status == 2
    ensures var (c, out) := Handle(s, v.c, Some(v.wire.text), Some(sender), coins);
            && (c, out) == AliceFinish(s, v.c, arg)
            && c.username == v.c.username && c.password == v.c.password
            && c.ex.a == v.c.ex.a && c.ex.u == v.c.ex.u && c.ex.x == v.c.ex.x
            && (out.Raised? || (out.Accepted? && c.ex.status == 0))
  {
    ParseHonest(SRPA3, arg, 0x33);
  }

  /** The same secret opens the key notice, and exactly what was granted comes out. */
  lemma KeyNoticeOpens(s: Suite, c: Ctx, iv: bytes, grant: (bytes, bytes))
    requires |iv| == 16 && |grant.0| == 32 && |grant.1| == 32
    requires c.ex.K1 == EncKey(s, c.ex.S) && c.ex.K2 == AuthKey(s, c.ex.S)
    ensures AliceFinish(s, c, KeyArgument(s, c.ex.A, c.ex.M1, c.ex.S, iv, grant))
         == (Adopt(c, grant.0, grant.1).(ex := c.ex.(status := 0)), Accepted)
  {
    Whole96();
    var S := c.ex.S;
    SplitThree(grant.0, grant.1, Answer(s, c.ex.A, c.ex.M1, S));
    var plain := KeyText(s, c.ex.A, c.ex.M1, S, grant);
    CbcRoundTrip(s, EncKey(s, S), iv, plain);
    hide CbcSeal, CbcOpen;
    var sealed := CbcSeal(s, EncKey(s, S), iv, plain);
    var mac := s.hmac(AuthKey(s, S), sealed);
    assert Take(mac + sealed, 16) == mac && Drop(mac + sealed, 16) == sealed;
    assert AliceFinish(s, c, s.b64enc(mac + sealed)) == TakeKeys(s, c, plain);
  }

  /** With a small exponent Alice opens the key notice and adopts exactly what was granted. */
  lemma FinishStep(s: Suite, v: View, sender: bytes, coins: Coins)
    requires Stage(s, v) && v.wire.ToAlice? && v.c.ex.status == 2
    ensures var (c, out) := Handle(s, v.c, Some(v.wire.text), Some(sender), coins);
            && c.username == v.c.username && c.password == v.c.password
            && (out.Accepted? || out.Raised?)
            && (SmallExponent(s, v.c.ex) ==> out.Accepted?)
            && Stage(s, v.(c := c, wire := Quiet, done := out.Accepted?))
  {
    var b: nat, iv :| KeysSent(s, v, b, iv);
    var ex := v.c.ex;
    var S := DaveSecret(s, ex.A, v.account.1, ex.u, b);
    var grant := v.grant.value;
    var arg := KeyArgument(s, ex.A, ex.M1, S, iv, grant);
    assert v.wire == ToAlice(SRPA3 + arg);
    assert SmallExponent(s, ex) ==> ex.S == S by {
      if SmallExponent(s, ex) {
        SecretsAgree(s, ex.a, b, ex.x, ex.u);
      }
    }
    hide Handle, KeyArgument, AliceFinish, DaveSecret, AliceSecret, Generate, Hello;
    FinishReads(s, v, sender, coins, arg);
    if SmallExponent(s, ex) {
      KeyNoticeOpens(s, v.c, iv, grant);
    }
  }

  // ---- whole runs ----

  /** A step that leaves one Alice's view alone keeps what is known about her. */
  ghost predicate SameView(y: Net, z: Net, nick: bytes) {
    && nick in y.alices && nick in z.alices && nick in y.wires && nick in z.wires
    && y.dave.users.Some? && z.dave.users.Some?
    && y.dave.users.value.db == z.dave.users.value.db
    && y.alices[nick] == z.alices[nick] && y.wires[nick] == z.wires[nick]
    && Lookup(y.dave.users.value.others, Some(nick)) == Lookup(z.dave.users.value.others, Some(nick))
    && Lookup(y.granted, nick) == Lookup(z.granted, nick) && (nick in y.done <==> nick in z.done)
  }

  lemma TrackedFrame(s: Suite, y: Net, z: Net, nick: bytes)
    requires SameView(y, z, nick) && Tracked(s, y, nick)
    ensures Tracked(s, z, nick)
  {
    assert ViewOf(y, nick) == ViewOf(z, nick);
  }

  lemma AliceActedKeeps(s: Suite, y: Net, nick: bytes, c: Ctx, out: Outcome, done: set<bytes>)
    requires Inv(s, y) && nick in y.alices
    requires c.username == y.alices[nick].username && c.password == y.alices[nick].password
    requires done - {nick} == y.done - {nick}
    requires Tracked(s, y, nick)
    requires Stage(s, ViewOf(y, nick).(c := c, wire := if out.Reply? then ToDave(out.text) else Quiet,
                                       done := nick in done))
    ensures Inv(s, AliceActed(y, nick, c, out, done))
  {
    hide Stage;
    var z := AliceActed(y, nick, c, out, done);
    assert ViewOf(z, nick) == ViewOf(y, nick).(c := c, wire := if out.Reply? then ToDave(out.text) else Quiet,
                                               done := nick in done);
    assert Tracked(s, z, nick);
    forall n <- z.alices | n != nick ensures Tracked(s, z, n) {
      assert n in done <==> n in done - {nick};
      assert n in y.done <==> n in y.done - {nick};
      hide Tracked;
      TrackedFrame(s, y, z, n);
    }
  }

  /** What Dave did touches his record of one sender only. */
  ghost predicate DaveActedFor(d: Ctx, d2: Ctx, nick: bytes) {
    && DaveReady(d) && DaveReady(d2) && d2.users.value.db == d.users.value.db
    && forall n | n != nick :: Lookup(d2.users.value.others, Some(n)) == Lookup(d.users.value.others, Some(n))
  }

  /** The view of the sender after Dave has acted on her notice. */
  function ViewAfterDave(y: Net, v: View, nick: bytes, d: Ctx, out: Outcome): View
    requires d.users.Some?
  {
    v.(other := Lookup(d.users.value.others, Some(nick)),
       wire := if out.Reply? then ToAlice(out.text) else Quiet,
       grant := if out.Reply? && SRPA3 <= out.text then Some((y.dave.sessionkey, y.dave.mackey)) else v.grant)
  }

  lemma DaveActedOther(s: Suite, y: Net, nick: bytes, d: Ctx, out: Outcome, n: bytes)
    requires n != nick && n in y.alices && n in y.wires && DaveActedFor(y.dave, d, nick) && Tracked(s, y, n)
    ensures Tracked(s, DaveActed(y, nick, d, out), n)
  {
    hide Tracked;
    TrackedFrame(s, y, DaveActed(y, nick, d, out), n);
  }

  lemma DaveActedSelf(s: Suite, y: Net, nick: bytes, d: Ctx, out: Outcome)
    requires nick in y.alices && DaveActedFor(y.dave, d, nick) && Tracked(s, y, nick)
    requires Stage(s, ViewAfterDave(y, ViewOf(y, nick), nick, d, out))
    ensures Tracked(s, DaveActed(y, nick, d, out), nick)
  {
    hide Stage;
    assert ViewOf(DaveActed(y, nick, d, out), nick) == ViewAfterDave(y, ViewOf(y, nick), nick, d, out);
  }

  lemma DaveActedKeeps(s: Suite, y: Net, nick: bytes, d: Ctx, out: Outcome)
    requires Inv(s, y) && nick in y.alices && DaveActedFor(y.dave, d, nick) && Tracked(s, y, nick)
    requires Stage(s, ViewAfterDave(y, ViewOf(y, nick), nick, d, out))
    ensures Inv(s, DaveActed(y, nick, d, out))
  {
    DaveActedSelf(s, y, nick, d, out);
    hide Tracked, Stage;
    forall n <- y.alices | n != nick ensures Tracked(s, DaveActed(y, nick, d, out), n) {
      DaveActedOther(s, y, nick, d, out, n);
    }
  }

  lemma BeginKeeps(s: Suite, y: Net, nick: bytes, coins: Coins)
    requires Inv(s, y) && nick in y.alices && y.wires[nick].Quiet?
    ensures Inv(s, AliceBegins(s, y, nick, coins))
  {
    var v := ViewOf(y, nick);
    BeginStep(s, v, coins);
    hide Handle, Stage;
    var (c, out) := Handle(s, v.c, None, None, coins);
    AliceActedKeeps(s, y, nick, c, out, y.done - {nick});
  }

  lemma DaveReadsKeeps(s: Suite, y: Net, nick: bytes, coins: Coins)
    requires Inv(s, y) && nick in y.alices && y.wires[nick].ToDave?
    ensures Inv(s, DaveReads(s, y, nick, y.wires[nick].text, coins))
  {
    var v := ViewOf(y, nick);
    assert Tracked(s, y, nick);
    if v.c.ex.status == 1 {
      HelloStep(s, y, y.dave, v, nick, coins);
    } else {
      VerifyStep(s, y, y.dave, v, nick, coins);
    }
    hide Handle, Stage, Registered, DaveActedFor;
    var (d, out) := Handle(s, y.dave, Some(v.wire.text), Some(nick), coins);
    DaveActedKeeps(s, y, nick, d, out);
  }

  lemma AliceReadsKeeps(s: Suite, y: Net, nick: bytes, coins: Coins)
    requires Inv(s, y) && nick in y.alices && y.wires[nick].ToAlice?
    ensures Inv(s, AliceReads(s, y, nick, y.wires[nick].text, coins))
  {
    var v := ViewOf(y, nick);
    assert Tracked(s, y, nick);
    if v.c.ex.status == 1 {
      ProofStep(s, v, y.dave.username, coins);
    } else {
      FinishStep(s, v, y.dave.username, coins);
    }
    hide Handle, Stage;
    var (c, out) := Handle(s, v.c, Some(v.wire.text), Some(y.dave.username), coins);
    AliceActedKeeps(s, y, nick, c, out, if out.Accepted? then y.done + {nick} else y.done);
  }

  lemma RekeyFrame(s: Suite, d: Ctx, key: bytes, times: bytes, iv: bytes)
    requires DaveReady(d) && |iv| == 16
    ensures var d2 := SetKey(s, d, key, times, iv).0;
            DaveReady(d2) && d2.users == d.users
  {
  }

  lemma RekeyKeeps(s: Suite, y: Net, key: bytes, times: bytes, coins: Coins)
    requires Inv(s, y)
    ensures Inv(s, y.(dave := SetKey(s, y.dave, key, times, coins.iv).0))
  {
    RekeyFrame(s, y.dave, key, times, coins.iv);
    hide SetKey, Tracked;
    var z := y.(dave := SetKey(s, y.dave, key, times, coins.iv).0);
    forall n <- z.alices ensures Tracked(s, z, n) {
      TrackedFrame(s, y, z, n);
    }
  }

  lemma NextKeeps(s: Suite, y: Net, e: Event)
    requires Inv(s, y)
    ensures Inv(s, Next(s, y, e))
  {
    hide Tracked, AliceBegins, AliceReads, DaveReads, SetKey;
    match e
    case Begin(nick, coins) =>
      if nick in y.alices && y.wires[nick].Quiet? { BeginKeeps(s, y, nick, coins); }
    case Arrive(nick, coins) =>
      if nick in y.alices && y.wires[nick].ToDave? { DaveReadsKeeps(s, y, nick, coins); }
      if nick in y.alices && y.wires[nick].ToAlice? { AliceReadsKeeps(s, y, nick, coins); }
    case Rekey(key, times, coins) => RekeyKeeps(s, y, key, times, coins);
  }

  lemma {:induction false} RunKeeps(s: Suite, y: Net, events: seq<Event>)
    requires Initial(s, y)
    ensures Inv(s, Run(s, y, events))
    decreases |events|
  {
    if events == [] {
      assert forall nick <- y.alices :: Tracked(s, y, nick);
    } else {
      RunKeeps(s, y, events[..|events| - 1]);
      NextKeeps(s, Run(s, y, events[..|events| - 1]), events[|events| - 1]);
    }
  }

  /**
   Agreement. In every run, an Alice who has accepted and whose exponent a + ux stayed below N holds
   exactly the keys Dave held when he handled her proof, and Dave has forgotten the exchange.
   */
  lemma Agreement(s: Suite, y: Net, events: seq<Event>, nick: bytes)
    requires Initial(s, y)
    ensures var z := Run(s, y, events);
            nick in z.alices && nick in z.wires && z.wires[nick].Quiet? && nick in z.done
              && SmallExponent(s, z.alices[nick].ex) ==>
              && nick in z.granted
              && z.granted[nick] == (z.alices[nick].sessionkey, z.alices[nick].mackey)
              && z.alices[nick].cipher == Some(z.alices[nick].sessionkey)
              && z.dave.users.Some? && Some(nick) !in z.dave.users.value.others
  {
    RunKeeps(s, y, events);
    var z := Run(s, y, events);
    if nick in z.alices {
      assert Tracked(s, z, nick);
    }
  }

  /**
   Nothing gets stuck. In every run, the next notice of an Alice is answered or accepted, unless it
   is +srpa1 with a B that is zero modulo N or her exponent a + ux has reached N.
   */
  lemma NeverRejected(s: Suite, y: Net, events: seq<Event>, nick: bytes, coins: Coins)
    requires Initial(s, y)
    ensures var z := Run(s, y, events);
            nick in z.alices && nick in z.wires && z.dave.users.Some? && !z.wires[nick].Quiet? ==>
              var w := Next(s, z, Arrive(nick, coins));
              var ex := z.alices[nick].ex;
              && nick in w.wires
              && (w.wires[nick].Quiet? && nick !in w.done ==>
                    || (ex.status == 1 && z.wires[nick].ToAlice?
                        && Some(nick) in z.dave.users.value.others
                        && z.dave.users.value.others[Some(nick)].B % s.N == 0)
                    || (ex.status == 2 && !SmallExponent(s, ex)))
  {
    RunKeeps(s, y, events);
    var z := Run(s, y, events);
    if nick in z.alices && nick in z.wires && !z.wires[nick].Quiet? {
      assert Tracked(s, z, nick);
      NextNotice(s, z, nick, coins);
    }
  }

  lemma NextNotice(s: Suite, z: Net, nick: bytes, coins: Coins)
    requires nick in z.alices && DaveReady(z.dave) && Tracked(s, z, nick) && !z.wires[nick].Quiet?
    ensures var w := Next(s, z, Arrive(nick, coins));
            var ex := z.alices[nick].ex;
            && nick in w.wires
            && (w.wires[nick].Quiet? && nick !in w.done ==>
                  || (ex.status == 1 && z.wires[nick].ToAlice?
                      && Some(nick) in z.dave.users.value.others && z.dave.users.value.others[Some(nick)].B % s.N == 0)
                  || (ex.status == 2 && !SmallExponent(s, ex)))
  {
    var v := ViewOf(z, nick);
    if v.wire.ToDave? && v.c.ex.status == 1 {
      HelloStep(s, z, z.dave, v, nick, coins);
      hide Handle, Stage;
    } else if v.wire.ToDave? {
      VerifyStep(s, z, z.dave, v, nick, coins);
      hide Handle, Stage;
    } else if v.c.ex.status == 1 {
      ProofStep(s, v, z.dave.username, coins);
      assert v.other.Some?;
      hide Handle, Stage;
    } else {
      FinishStep(s, v, z.dave.username, coins);
      hide Handle, Stage;
    }
  }

  /**
   Exactly when the two secrets agree: when g^(b N k) is one, k being the number of times the modulus is
   taken off the exponent. That number is zero, and the secrets agree, for every exponent below N. If
   Fermat's theorem holds for the modulus, g^(b k) says the same.
   */
  lemma SecretsAgreeIff(s: Suite, a: nat, b: nat, x: nat, u: nat)
    ensures var k := Algebra.Wraps(a, u, x, s.N);
            && (ExchangeAgrees(s, a, b, x, u) <==> ModPow(g, b * (s.N * k), s.N) == 1)
            && (ModPow(g, s.N - 1, s.N) == 1 ==> (ExchangeAgrees(s, a, b, x, u) <==> ModPow(g, b * k, s.N) == 1))
            && (k == 0 <==> a + u * x < s.N)
  {
    TwoIsUnit(s);
    Algebra.SharesAgreeIff(g, (s.N + 1) / 2, s.N, a, b, x, u);
    if ModPow(g, s.N - 1, s.N) == 1 {
      Algebra.SharesAgreeIffPrime(g, (s.N + 1) / 2, s.N, a, b, x, u);
    }
    Algebra.WrapsZeroIff(a + u * x, s.N);
  }

  /**
   The reduction breaks exchanges whatever the hashes x and u turn out to be, as long as their product lies
   between 1 and N: with a = N - 1 the secrets differ for b = 2 or for b = 3, which may all be drawn. It is
   b = 2 if Fermat's theorem holds for the modulus.
   */
  lemma ReducedExponentFails(s: Suite, x: nat, u: nat)
    requires 1 <= u * x <= s.N
    ensures !ExchangeAgrees(s, s.N - 1, 2, x, u) || !ExchangeAgrees(s, s.N - 1, 3, x, u)
    ensures ModPow(g, s.N - 1, s.N) == 1 ==> !ExchangeAgrees(s, s.N - 1, 2, x, u)
  {
    SecretsAgreeIff(s, s.N - 1, 2, x, u);
    SecretsAgreeIff(s, s.N - 1, 3, x, u);
    Algebra.OneWrap(u, x, s.N);
    PowersOfTwo.TwiceOrThrice(s.N);
    assert Pow(g, 2) == g * (g * Pow(g, 0));
    SmallMod(4, s.N);
    hide Pow, AliceSecret, DaveSecret, Hello;
  }

  lemma SmallMod(r: nat, n: nat)
    requires r < n
    ensures r % n == r
  {
    ModUnique(r, 0, r, n);
  }
}
