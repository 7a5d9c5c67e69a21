/** What one side encrypts the other gives back: the line rewriting as a round trip. */
module EngineRoundTrip {
  import opened Wrappers
  import opened IrcText
  import opened Engine

  /** A prefixed command to a channel or a nick. */
  datatype Command = Command(src: string, verb: string, target: string)

  predicate Shaped(k: Command) {
    && Word(k.src) && Word(k.target) && k.target[0] != ':'
    && (k.verb == "PRIVMSG" || k.verb == "NOTICE" || k.verb == "TOPIC")
  }

  predicate WellFormed(k: Command) {
    Shaped(k) && IsChannel(k.target)
  }

  lemma ChannelCommand(k: Command)
    requires WellFormed(k)
    ensures Shaped(k)
  {
    hide Shaped;
  }

  function Text(k: Command): string {
    ":" + k.src + " " + k.verb + " " + k.target
  }

  /** The two spaces of a command. */
  function FirstSpace(k: Command): nat {
    |k.src| + 1
  }

  function SecondSpace(k: Command): nat {
    FirstSpace(k) + |k.verb| + 1
  }

  lemma CommandChars(k: Command)
    requires Shaped(k)
    ensures |Text(k)| == SecondSpace(k) + 1 + |k.target| && Text(k)[0] == ':'
    ensures forall i :: 0 <= i < |Text(k)| ==> (Text(k)[i] == ' ' <==> i == FirstSpace(k) || i == SecondSpace(k))
    ensures Text(k)[FirstSpace(k) + 1..SecondSpace(k)] == k.verb
    ensures Text(k)[SecondSpace(k) + 1..] == k.target
    ensures k.verb != [] && k.verb[0] != ':'
  {
    var t, p1, p2 := Text(k), FirstSpace(k), SecondSpace(k);
    forall i | 0 <= i < |t| ensures t[i] == ' ' <==> i == p1 || i == p2 {
      if 0 < i < p1 {
        assert t[i] == k.src[i - 1];
      } else if p1 < i < p2 {
        assert t[i] == k.verb[i - p1 - 1];
      } else if p2 < i {
        assert t[i] == k.target[i - p2 - 1];
      }
    }
  }

  /** A word between spaces that occurs in a command is its verb. */
  lemma WordInCommand(k: Command, w: string, j: nat)
    requires Shaped(k) && Word(w) && At(Text(k), " " + w + " ", j)
    ensures j == FirstSpace(k) && w == k.verb
  {
    var t, p := Text(k), " " + w + " ";
    CommandChars(k);
    AtChar(t, p, j, 0);
    AtChar(t, p, j, |w| + 1);
    hide Text, IsSpace;
    assert p[0] == ' ' && p[|w| + 1] == ' ';
    assert j == FirstSpace(k) && j + |w| + 1 == SecondSpace(k);
    forall i | 0 <= i < |w| ensures w[i] == k.verb[i] {
      AtChar(t, p, j, i + 1);
      assert p[i + 1] == w[i];
      assert t[FirstSpace(k) + 1..SecondSpace(k)][i] == t[j + 1 + i];
    }
  }

  lemma VerbInCommand(k: Command)
    requires Shaped(k)
    ensures At(Text(k), " " + k.verb + " ", FirstSpace(k))
  {
    assert Text(k)[FirstSpace(k)..] == (" " + k.verb + " ") + k.target;
  }

  lemma FindVerb(k: Command, w: string)
    requires Shaped(k) && Word(w)
    ensures Find(Text(k), " " + w + " ") == if w == k.verb then Some(FirstSpace(k)) else None
  {
    var f := Find(Text(k), " " + w + " ");
    if f.Some? {
      WordInCommand(k, w, f.value);
    }
    VerbInCommand(k);
    hide Text, Find;
  }

  /** The three searches, for the verbs as they are written. */
  lemma FindVerbs(k: Command)
    requires Shaped(k)
    ensures Find(Text(k), " PRIVMSG ") == if k.verb == "PRIVMSG" then Some(FirstSpace(k)) else None
    ensures Find(Text(k), " NOTICE ") == if k.verb == "NOTICE" then Some(FirstSpace(k)) else None
    ensures Find(Text(k), " TOPIC ") == if k.verb == "TOPIC" then Some(FirstSpace(k)) else None
  {
    VerbWords();
    hide *;
    FindVerb(k, "PRIVMSG");
    FindVerb(k, "NOTICE");
    FindVerb(k, "TOPIC");
  }

  lemma VerbWords()
    ensures Word("PRIVMSG") && Word("NOTICE") && Word("TOPIC") && Word("332")
    ensures " " + "PRIVMSG" + " " == " PRIVMSG "
    ensures " " + "NOTICE" + " " == " NOTICE "
    ensures " " + "TOPIC" + " " == " TOPIC "
  {
  }

  /** The target of a command is its channel. */
  lemma TargetOfCommand(k: Command)
    requires Shaped(k)
    ensures TargetOf(Text(k)) == Some(Target(k.target, k.verb == "TOPIC"))
  {
    CommandChars(k);
    FindVerbs(k);
    NotAtStart(Text(k));
    assert k.verb == "PRIVMSG" || k.verb == "NOTICE" || k.verb == "TOPIC";
    hide Text, Find, Shaped;
    assert Rest(Text(k), SecondSpace(k) + 1) == k.target;
    VerbLengths(k);
  }

  lemma VerbLengths(k: Command)
    ensures k.verb == "PRIVMSG" ==> FirstSpace(k) + 9 == SecondSpace(k) + 1
    ensures k.verb == "NOTICE" ==> FirstSpace(k) + 8 == SecondSpace(k) + 1
    ensures k.verb == "TOPIC" ==> FirstSpace(k) + 7 == SecondSpace(k) + 1
  {
  }

  lemma NotAtStart(t: string)
    requires t != [] && t[0] == ':'
    ensures !("PRIVMSG " <= t) && !("NOTICE " <= t) && !("TOPIC " <= t)
  {
    assert "PRIVMSG "[0] != t[0] && "NOTICE "[0] != t[0] && "TOPIC "[0] != t[0];
  }

  /** A channel name is its own target, trimmed or not. */
  lemma ChannelIsTarget(ch: string)
    requires Word(ch) && IsChannel(ch)
    ensures Trim(ch) == ch && NormalizeTarget(ch) == ch
  {
    TrimWord([], ch, []);
    hide Trim, IsSpace;
    assert [] + ch + [] == ch;
    assert ChannelStart(ch) == Some(0);
    assert ch[0..] == ch;
  }

  /** Nothing that starts with a space and a colon occurs before the end of a command. */
  lemma SeparatorAfterCommand(k: Command, rest: string, p: string)
    requires Shaped(k) && |p| >= 2 && p[0] == ' ' && p[1] == ':' && p <= " :" + rest
    ensures Find(Text(k) + " :" + rest, p) == Some(|Text(k)|)
  {
    var t := Text(k);
    var line := t + " :" + rest;
    CommandChars(k);
    hide Text, Shaped;
    assert line[|t|..] == " :" + rest;
    forall j: nat | j < |t| ensures !At(line, p, j) {
      if At(line, p, j) {
        AtChar(line, p, j, 0);
        AtChar(line, p, j, 1);
        SpaceThenNoColon(k, rest, j);
      }
    }
    FindIs(line, p, |t|);
  }

  lemma SpaceThenNoColon(k: Command, rest: string, j: nat)
    requires Shaped(k) && j < |Text(k)|
    ensures var line := Text(k) + " :" + rest; line[j] != ' ' || line[j + 1] != ':'
  {
    var t := Text(k);
    var line := t + " :" + rest;
    CommandChars(k);
    hide Text;
    if line[j] == ' ' {
      assert t[j] == ' ';
      if j == FirstSpace(k) {
        assert line[j + 1] == t[FirstSpace(k) + 1..SecondSpace(k)][0];
      } else {
        assert line[j + 1] == t[SecondSpace(k) + 1..][0];
      }
    }
  }

  // ---- outgoing ----

  /** The command part carries none of the marks by which the decryptor finds its way. */
  predicate MarkerFree(k: Command) {
    && !KeyExchange(Text(k)) && !LegacyExchange(Text(k))
    && !Contains(Text(k), ":+FiSH")
  }

  predicate DefaultPrefix(env: Env) {
    env.encryptionPrefix == PLUS_FISH
  }

  /** What follows the command of an encrypted message; one space or two, as the sender's setting has it. */
  function MessageTail(pad: string, e: string): string {
    " :+FiSH " + pad + e + CRLF
  }

  predicate Pad(pad: string) {
    pad == "" || pad == " "
  }

  function TopicTail(e: string): string {
    " :+FCEP_TOPIC+ " + e + CRLF
  }

  function PadOf(env: Env): string {
    if env.fishPrefix then " " else ""
  }

  /** The rebuilt line is the command and one of the two tails. */
  lemma RebuiltTail(env: Env, t: string, isTopic: bool, e: string)
    requires DefaultPrefix(env)
    ensures Rebuilt(env, t, isTopic, Sealed(e, false))
            == t + (if isTopic then TopicTail(e) else MessageTail(PadOf(env), e))
  {
    if !isTopic {
      assert Prefix(env) + " " == "+FiSH " + PadOf(env);
      assert Rebuilt(env, t, false, Sealed(e, false)) == t + (" :" + (Prefix(env) + " ") + e + CRLF);
      assert " :" + ("+FiSH " + PadOf(env)) == " :+FiSH " + PadOf(env);
    }
  }

  /** The texts behind the markers are no FiSH 10 messages. */
  ghost predicate MarkersAreNotFish10(env: Env) {
    forall part: string {:trigger env.isFish10(part)} :: PLUS_FISH <= part || FCEP_TOPIC <= part ==> !env.isFish10(part)
  }

  /** A line that is encrypted under a channel key becomes its command part, the marker and the ciphertext. */
  lemma EncryptedLine(env: Env, c: Cipher, k: Command, body: string, key: Key, network: Option<string>)
    returns (e: string)
    requires WellFormed(k) && env.channelKey(k.target) == Some(key) && DefaultPrefix(env)
    requires AttemptEncryption(env, c, Text(k) + " :" + body, network).Some?
    ensures Base64Text(e) && c.decrypt(key, e, Some(k.target)) == Some(Chomp(body))
    ensures Some(e) == c.encrypt(key, Chomp(body), Some(k.target))
    ensures AttemptEncryption(env, c, Text(k) + " :" + body, network)
         == Some(Text(k) + (if k.verb == "TOPIC" then TopicTail(e) else MessageTail(PadOf(env), e)))
  {
    var t, m := Text(k), Chomp(body);
    assert Word(k.target) && IsChannel(k.target);
    ChompCommand(t, body);
    hide *;
    SeparatorAfterCommand(k, m, " :");
    TargetOfCommand(k);
    ChannelIsTarget(k.target);
    PrefixOfConcat(t, m);
    EncryptionOf(env, c, t + " :" + body, |t|, t, m, k.target, k.verb == "TOPIC", key, network);
    EncryptLawful(c, key, m, k.target);
    e := c.encrypt(key, m, Some(k.target)).value;
    RebuiltTail(env, t, k.verb == "TOPIC", e);
  }

  lemma ChompCommand(t: string, body: string)
    ensures Chomp(t + " :" + body) == t + " :" + Chomp(body)
    ensures " :" <= " :" + Chomp(body) && " :"[0] == ' ' && " :"[1] == ':'
  {
    ChompConcat(t + " :", body);
  }

  lemma PrefixOfConcat(t: string, m: string)
    ensures (t + " :" + m)[..|t|] == t && Rest(t + " :" + m, |t| + 2) == m
  {
  }

  /** A line with these parts is encrypted under this key. */
  lemma EncryptionOf(env: Env, c: Cipher, line: string, i: nat, cmd: string, m: string, target: string, isTopic: bool,
                     key: Key, network: Option<string>)
    requires AttemptEncryption(env, c, line, network).Some?
    requires Find(Chomp(line), " :") == Some(i) && Chomp(line)[..i] == cmd && Rest(Chomp(line), i + 2) == m
    requires TargetOf(cmd) == Some(Target(target, isTopic)) && NormalizeTarget(Trim(target)) == target
    requires IsChannel(target) && env.channelKey(target) == Some(key)
    ensures c.encrypt(key, m, Some(target)).Some?
    ensures AttemptEncryption(env, c, line, network)
         == Some(Rebuilt(env, cmd, isTopic, Sealed(c.encrypt(key, m, Some(target)).value, false)))
  {
    hide Find, Contains, Chomp, TargetOf, NormalizeTarget, Trim, Rebuilt, Prefix, Lawful;
  }

  lemma EncryptLawful(c: Cipher, key: Key, m: string, ad: string)
    requires c.encrypt(key, m, Some(ad)).Some?
    ensures var e := c.encrypt(key, m, Some(ad));
            Base64Text(e.value) && c.decrypt(key, e.value, Some(ad)) == Some(m)
  {
  }

  // ---- incoming ----

  /** A pattern without a space that occurs in a line from inside the command on lies in the command. */
  lemma LiesInCommand(t: string, tail: string, p: string, j: nat)
    requires j < |t| && tail != [] && tail[0] == ' ' && (forall i :: 0 <= i < |p| ==> p[i] != ' ') && At(t + tail, p, j)
    ensures Contains(t, p)
  {
    var line := t + tail;
    if j + |p| > |t| {
      AtChar(line, p, j, |t| - j);
    }
    assert p == line[j..][..|p|];
    assert line[j..j + |p|] == t[j..j + |p|];
    assert t[j..][..|p|] == p;
    assert At(t, p, j);
  }

  /** A marker with an underscore cannot come from what the encryptor appends. */
  lemma NoMarker(t: string, tail: string, p: string)
    requires |p| > 6 && p[6] == '_' && (forall i :: 0 <= i < |p| ==> p[i] != ' ')
    requires tail != [] && tail[0] == ' ' && (forall i :: 0 <= i < |tail| ==> tail[i] != '_')
    requires !Contains(t, p)
    ensures !Contains(t + tail, p)
  {
    var f := Find(t + tail, p);
    if f.Some? {
      var j := f.value;
      AtChar(t + tail, p, j, 6);
      assert j + 6 < |t|;
      LiesInCommand(t, tail, p, j);
    }
  }

  lemma TailChars(pad: string, e: string)
    requires Pad(pad) && Base64Text(e)
    ensures var tail := MessageTail(pad, e);
            && tail != [] && tail[0] == ' ' && forall i :: 0 <= i < |tail| ==> tail[i] != '_'
  {
    var tail := MessageTail(pad, e);
    forall i | 0 <= i < |tail| ensures tail[i] != '_' {
      if 8 + |pad| <= i < 8 + |pad| + |e| {
        assert tail[i] == e[i - 8 - |pad|];
        assert Base64Char(e[i - 8 - |pad|]);
      }
    }
  }

  /** No key exchange is seen in an encrypted message. */
  lemma NoExchange(k: Command, pad: string, e: string)
    requires MarkerFree(k) && Pad(pad) && Base64Text(e)
    ensures !KeyExchange(Text(k) + MessageTail(pad, e)) && !LegacyExchange(Text(k) + MessageTail(pad, e))
  {
    var t, tail := Text(k), MessageTail(pad, e);
    TailChars(pad, e);
    hide Text, MessageTail, Contains;
    NoMarker(t, tail, "X25519_INIT:");
    NoMarker(t, tail, "X25519_FINISH");
    NoMarker(t, tail, "DH1080_INIT");
    NoMarker(t, tail, "DH1080_FINISH");
  }

  /** The marker is found right behind the command. */
  lemma MarkerAfterCommand(k: Command, pad: string, e: string, marker: string)
    requires MarkerFree(k) && Pad(pad) && (marker == ":+FiSH" || marker == ":+FiSH ")
    ensures Find(Text(k) + MessageTail(pad, e), marker) == Some(|Text(k)| + 1)
  {
    var t, tail := Text(k), MessageTail(pad, e);
    var line := t + tail;
    assert line[|t| + 1..] == ":+FiSH " + pad + e + CRLF;
    assert At(line, marker, |t| + 1);
    assert tail[0] == ' ';
    hide Text, MessageTail, Find;
    forall j: nat | j < |t| + 1 ensures !At(line, marker, j) {
      if At(line, marker, j) {
        AtChar(line, marker, j, 0);
        AtPrefix(line, ":+FiSH", marker, j);
        if j < |t| {
          LiesInCommand(t, tail, ":+FiSH", j);
        }
      }
    }
    FindIs(line, marker, |t| + 1);
  }

  lemma AtPrefix(s: string, p: string, q: string, j: nat)
    requires p <= q && At(s, q, j)
    ensures At(s, p, j)
  {
  }

  lemma NextToken(w: string, rest: string)
    requires Word(w)
    ensures Tokens(w + (" " + rest)) == [w] + Tokens(rest)
  {
    SpaceIsSpace();
    TokensWord(w, " " + rest);
    hide Tokens, IsSpace;
    assert (" " + rest)[1..] == rest;
  }

  /** The tokens of an encrypted message: four at least, the first is who sent it, the third is the target. */
  lemma MessageTokens(k: Command, pad: string, e: string)
    requires Shaped(k)
    ensures var parts := Tokens(Text(k) + MessageTail(pad, e)); |parts| >= 4 && parts[2] == k.target
  {
    MessageSource(k, pad, e);
    hide *;
  }

  lemma MessageSource(k: Command, pad: string, e: string)
    requires Shaped(k)
    ensures var parts := Tokens(Text(k) + MessageTail(pad, e));
            |parts| >= 4 && parts[0] == ":" + k.src && parts[2] == k.target
  {
    var rest := ":+FiSH " + pad + e + CRLF;
    assert rest[0] == ':';
    assert MessageTail(pad, e) == " " + rest;
    hide MessageTail;
    TokensOfLine(k, rest);
  }

  lemma TokensOfLine(k: Command, rest: string)
    requires Shaped(k) && rest != [] && rest[0] == ':'
    ensures var parts := Tokens(Text(k) + (" " + rest));
            |parts| >= 4 && parts[0] == ":" + k.src && parts[2] == k.target
  {
    SpaceIsSpace();
    assert |Tokens(rest)| >= 1;
    WordsOfCommand(k);
    LineShape(k, rest);
    hide *;
    NextToken(":" + k.src, k.verb + (" " + (k.target + (" " + rest))));
    NextToken(k.verb, k.target + (" " + rest));
    NextToken(k.target, rest);
  }

  lemma LineShape(k: Command, rest: string)
    ensures Text(k) + (" " + rest) == ":" + k.src + (" " + (k.verb + (" " + (k.target + (" " + rest)))))
  {
    Regrouped(":" + k.src, k.verb, k.target, rest);
  }

  lemma Regrouped(a: string, b: string, c: string, d: string)
    ensures a + " " + b + " " + c + (" " + d) == a + (" " + (b + (" " + (c + (" " + d)))))
  {
    assert a + " " + b + " " + c + (" " + d) == a + " " + b + (" " + (c + (" " + d)));
    assert a + " " + b + (" " + (c + (" " + d))) == a + (" " + (b + (" " + (c + (" " + d)))));
  }

  lemma SpaceIsSpace()
    ensures IsSpace(' ') && !IsSpace(':')
  {
  }

  lemma WordsOfCommand(k: Command)
    requires Shaped(k)
    ensures Word(":" + k.src) && Word(k.verb) && Word(k.target)
  {
    VerbWords();
    SpaceIsSpace();
    hide IsSpace;
    var w := ":" + k.src;
    forall i | 0 <= i < |w| ensures !IsSpace(w[i]) {
      assert i > 0 ==> w[i] == k.src[i - 1];
    }
  }

  /** The ciphertext, trimmed, whatever spaces stand around it. */
  lemma Ciphertext(before: string, e: string)
    requires (before == "" || before == " " || before == "  ") && Base64Text(e)
    ensures Trim(before + e + CRLF) == e
  {
    Base64IsWord(e);
    TrimWord(before, e, CRLF);
  }

  lemma Base64IsWord(e: string)
    requires Base64Text(e)
    ensures Word(e)
  {
    forall i | 0 <= i < |e| ensures !IsSpace(e[i]) {
      assert Base64Char(e[i]);
    }
  }

  /** The topic branches leave a line alone whose message is no topic. */
  lemma NoTopic(env: Env, c: Cipher, line: string, i: nat, network: Option<string>)
    requires Find(line, " :") == Some(i) && !HasTopic(env, Rest(line, i + 2))
    ensures JoinTopic(env, c, line, network) == GoOn && TopicChange(env, c, line, network) == GoOn
  {
    hide Find, Tokens, HasTopic;
  }

  lemma MessagePart(env: Env, k: Command, pad: string, e: string)
    requires Shaped(k) && MarkersAreNotFish10(env) && DefaultPrefix(env)
    ensures var line := Text(k) + MessageTail(pad, e);
            && Find(line, " :") == Some(|Text(k)|)
            && Prefix(env) <= Rest(line, |Text(k)| + 2) && !HasTopic(env, Rest(line, |Text(k)| + 2))
            && !env.isFish10(Rest(line, |Text(k)| + 2))
  {
    var rest := "+FiSH " + pad + e + CRLF;
    TailSplit(Text(k), pad, e);
    RestStarts(env, pad, e);
    hide Text, Find, MessageTail, Prefix;
    SeparatorAfterCommand(k, rest, " :");
  }

  lemma RestStarts(env: Env, pad: string, e: string)
    requires MarkersAreNotFish10(env) && DefaultPrefix(env)
    ensures var rest := "+FiSH " + pad + e + CRLF;
            Prefix(env) <= rest && " :" <= " :" + rest && !HasTopic(env, rest) && !env.isFish10(rest)
  {
    var rest := "+FiSH " + pad + e + CRLF;
    assert rest[..6] == "+FiSH ";
    assert rest[..5] == PLUS_FISH;
    assert rest[2] == 'i' && FCEP_TOPIC[2] == 'C';
  }

  lemma TailSplit(t: string, pad: string, e: string)
    ensures var rest := "+FiSH " + pad + e + CRLF;
            t + MessageTail(pad, e) == t + " :" + rest && (t + MessageTail(pad, e))[|t| + 2..] == rest
  {
    var rest := "+FiSH " + pad + e + CRLF;
    assert MessageTail(pad, e) == " :" + rest;
    assert t + (" :" + rest) == t + " :" + rest;
  }

  /** The line that a decrypted text makes, if it is decrypted at all. */
  function Shown(line: string, i: nat, m: Option<string>): Option<string>
    requires i <= |line|
  {
    match m
    case Some(text) => Some(Decoded(line, i, text))
    case None => None
  }

  /** What a line with these parts is decrypted to. */
  lemma FishMessageOpens(env: Env, c: Cipher, line: string, i: nat, f: nat, e: string, id: string, key: Key,
                         network: Option<string>)
    requires Find(line, " :") == Some(i) == Find(line, " :" + Prefix(env)) && Prefix(env) <= Rest(line, i + 2)
    requires !env.isFish10(Rest(line, i + 2)) && !KeyExchange(line) && !LegacyExchange(line)
    requires |Tokens(line)| >= 4 && KeyId(env, Tokens(line)) == id && IsChannel(id)
    requires Find(line, ":" + Prefix(env)) == Some(f) && Trim(Rest(line, f + |":" + Prefix(env)|)) == e
    requires env.channelKey(id) == Some(key) && |key| == 32
    ensures AnyMessage(env, c, line, network) == Shown(line, i, c.decrypt(key, e, Some(id)))
  {
    hide Find, Tokens, Trim, KeyExchange, LegacyExchange, KeyId, Prefix, Lawful;
  }

  lemma MessageOpens(env: Env, c: Cipher, k: Command, pad: string, e: string, id: string, key: Key,
                     network: Option<string>)
    requires WellFormed(k) && MarkerFree(k) && MarkersAreNotFish10(env) && DefaultPrefix(env)
    requires Pad(pad) && Base64Text(e) && |key| == 32
    requires env.lower(k.target) == id && IsChannel(id) && env.channelKey(id) == Some(key)
    ensures AttemptDecryption(env, c, Text(k) + MessageTail(pad, e), network)
         == Shown(Text(k) + MessageTail(pad, e), |Text(k)|, c.decrypt(key, e, Some(id)))
  {
    var t := Text(k);
    var line := t + MessageTail(pad, e);
    hide *;
    ChannelCommand(k);
    MessagePart(env, k, pad, e);
    NoTopic(env, c, line, |t|, network);
    NoExchange(k, pad, e);
    MessageTokens(k, pad, e);
    KeyIdOfChannel(env, k, Tokens(line));
    var marker := ":" + Prefix(env);
    MarkerIs(env);
    MarkerAfterCommand(k, pad, e, marker);
    SeparatorAndPrefix(env, k, pad, e);
    Remainder(t, pad, e, marker);
    FishMessageOpens(env, c, line, |t|, |t| + 1, e, id, key, network);
    DecidedByMessage(env, c, line, network);
  }

  lemma KeyIdOfChannel(env: Env, k: Command, parts: seq<string>)
    requires WellFormed(k) && |parts| >= 4 && parts[2] == k.target
    ensures KeyId(env, parts) == env.lower(k.target)
  {
    ChannelIsTarget(k.target);
    hide NormalizeTarget, Sender;
  }

  lemma MarkerIs(env: Env)
    requires DefaultPrefix(env)
    ensures ":" + Prefix(env) == ":+FiSH" || ":" + Prefix(env) == ":+FiSH "
  {
  }

  lemma DecidedByMessage(env: Env, c: Cipher, line: string, network: Option<string>)
    requires JoinTopic(env, c, line, network) == GoOn && TopicChange(env, c, line, network) == GoOn
    ensures AttemptDecryption(env, c, line, network) == AnyMessage(env, c, line, network)
  {
    hide JoinTopic, TopicChange, AnyMessage;
  }

  lemma SeparatorAndPrefix(env: Env, k: Command, pad: string, e: string)
    requires Shaped(k) && DefaultPrefix(env)
    ensures Find(Text(k) + MessageTail(pad, e), " :" + Prefix(env)) == Some(|Text(k)|)
  {
    var rest := "+FiSH " + pad + e + CRLF;
    TailSplit(Text(k), pad, e);
    assert " :" + Prefix(env) <= " :" + rest;
    SeparatorAfterCommand(k, rest, " :" + Prefix(env));
  }

  lemma Remainder(t: string, pad: string, e: string, marker: string)
    requires Pad(pad) && Base64Text(e) && (marker == ":+FiSH" || marker == ":+FiSH ")
    ensures Trim(Rest(t + MessageTail(pad, e), |t| + 1 + |marker|)) == e
  {
    var line := t + MessageTail(pad, e);
    var before := if marker == ":+FiSH" then " " + pad else pad;
    assert line[|t|..] == MessageTail(pad, e);
    assert MessageTail(pad, e)[1 + |marker|..] == before + e + CRLF;
    assert line[|t| + 1 + |marker|..] == line[|t|..][1 + |marker|..];
    assert before == "" || before == " " || before == "  ";
    Ciphertext(before, e);
  }

  // ---- topics ----

  lemma NotAt(s: string, p: string, i: nat, k: nat)
    requires k < |p| && !(i + k < |s| && s[i + k] == p[k])
    ensures !At(s, p, i)
  {
    if At(s, p, i) {
      AtChar(s, p, i, k);
    }
  }

  /** A set topic is not taken for one that is sent on joining. */
  lemma NoJoin(k: Command, e: string)
    requires WellFormed(k) && Base64Text(e)
    ensures !Contains(Text(k) + TopicTail(e), " 332 ")
  {
    var t, tail := Text(k), TopicTail(e);
    var line := t + tail;
    CommandChars(k);
    TopicSpaces(e);
    assert k.target[0] != '3';
    hide Text, TopicTail, Find, WellFormed;
    forall j: nat ensures !At(line, " 332 ", j) {
      if j >= |line| || line[j] != ' ' {
        NotAt(line, " 332 ", j, 0);
      } else if j + 4 >= |line| || line[j + 4] != ' ' {
        NotAt(line, " 332 ", j, 4);
      } else {
        SpacesFourApart(k, e, j);
        NotAt(line, " 332 ", j, 1);
      }
    }
  }

  lemma SpacesFourApart(k: Command, e: string, j: nat)
    requires WellFormed(k) && Base64Text(e)
    requires var line := Text(k) + TopicTail(e); j + 4 < |line| && line[j] == ' ' && line[j + 4] == ' '
    ensures (Text(k) + TopicTail(e))[j + 1] == k.target[0]
  {
    var t, tail := Text(k), TopicTail(e);
    var line := t + tail;
    CommandChars(k);
    TopicSpaces(e);
    hide Text, TopicTail;
    assert j < |t|;
    assert line[j] == t[j];
    if j + 4 >= |t| {
      assert line[j + 4] == tail[j + 4 - |t|];
    }
    assert j == SecondSpace(k);
    assert t[SecondSpace(k) + 1..][0] == t[j + 1];
  }

  lemma TopicSpaces(e: string)
    requires Base64Text(e)
    ensures forall i :: 0 <= i < |TopicTail(e)| ==> (TopicTail(e)[i] == ' ' <==> i == 0 || i == 14)
  {
    var tail := TopicTail(e);
    forall i | 0 <= i < |tail| ensures tail[i] == ' ' <==> i == 0 || i == 14 {
      if 15 <= i < 15 + |e| {
        assert tail[i] == e[i - 15];
        assert Base64Char(e[i - 15]);
      }
    }
  }

  /** What a line with these parts is decrypted to. */
  lemma TopicChangeOpens(env: Env, c: Cipher, line: string, i: nat, p: nat, e: string, id: string, key: Key,
                         network: Option<string>)
    requires !Contains(line, " 332 ") && ":" <= line && Find(line, " TOPIC ") == Some(p) && Find(line, " :") == Some(i)
    requires var part := Rest(line, i + 2); FCEP_TOPIC <= part && Trim(part[|FCEP_TOPIC|..]) == e
    requires var parts := Tokens(Rest(line, p + 7)); |parts| > 0 && env.lower(NormalizeTarget(parts[0])) == id
    requires env.channelKey(id) == Some(key) && |key| == 32
    ensures AttemptDecryption(env, c, line, network) == Shown(line, i, c.decrypt(key, e, Some(id)))
  {
    hide Find, Tokens, Trim, NormalizeTarget, Lawful, AnyMessage;
    assert OpenTopic(env, c, line, i, id, network) == Done(Shown(line, i, c.decrypt(key, e, Some(id))));
    hide OpenTopic;
    assert JoinTopic(env, c, line, network) == GoOn;
    assert TopicChange(env, c, line, network) == OpenTopic(env, c, line, i, id, network);
  }

  lemma TopicOpens(env: Env, c: Cipher, k: Command, e: string, id: string, key: Key, network: Option<string>)
    requires WellFormed(k) && k.verb == "TOPIC" && Base64Text(e) && |key| == 32
    requires env.lower(k.target) == id && env.channelKey(id) == Some(key)
    ensures AttemptDecryption(env, c, Text(k) + TopicTail(e), network)
         == Shown(Text(k) + TopicTail(e), |Text(k)|, c.decrypt(key, e, Some(id)))
  {
    var t := Text(k);
    var line := t + TopicTail(e);
    assert Word(k.target) && IsChannel(k.target);
    hide *;
    NoJoin(k, e);
    TopicVerb(k, e);
    TopicPart(k, e);
    TopicToken(k, e);
    ChannelIsTarget(k.target);
    TopicChangeOpens(env, c, line, |t|, FirstSpace(k), e, id, key, network);
  }

  /** What the topic branch takes for the message. */
  lemma TopicPart(k: Command, e: string)
    requires WellFormed(k) && Base64Text(e)
    ensures var line := Text(k) + TopicTail(e);
            && ":" <= line && Find(line, " :") == Some(|Text(k)|)
            && (var part := Rest(line, |Text(k)| + 2); FCEP_TOPIC <= part && Trim(part[|FCEP_TOPIC|..]) == e)
  {
    var rest := "+FCEP_TOPIC+ " + e + CRLF;
    TopicSplit(Text(k), e);
    SeparatorAfterCommand(k, rest, " :");
    Ciphertext(" ", e);
    CommandChars(k);
    hide Text, Find, Trim, TopicTail;
    assert (Text(k) + TopicTail(e))[0] == Text(k)[0];
  }

  lemma TopicSplit(t: string, e: string)
    ensures var rest := "+FCEP_TOPIC+ " + e + CRLF;
            && t + TopicTail(e) == t + " :" + rest && (t + TopicTail(e))[|t| + 2..] == rest
            && FCEP_TOPIC <= rest && rest[|FCEP_TOPIC|..] == " " + e + CRLF
            && TopicTail(e) == " " + (":" + rest)
  {
    var rest := "+FCEP_TOPIC+ " + e + CRLF;
    TopicShape(e);
    hide TopicTail;
    assert t + (" :" + rest) == t + " :" + rest;
    assert (t + (" :" + rest))[|t| + 2..] == rest;
  }

  lemma TopicShape(e: string)
    ensures var rest := "+FCEP_TOPIC+ " + e + CRLF;
            && TopicTail(e) == " :" + rest == " " + (":" + rest)
            && FCEP_TOPIC <= rest && rest[|FCEP_TOPIC|..] == " " + e + CRLF
  {
  }

  /** What it takes for the channel. */
  lemma TopicToken(k: Command, e: string)
    requires WellFormed(k) && k.verb == "TOPIC"
    ensures var parts := Tokens(Rest(Text(k) + TopicTail(e), FirstSpace(k) + 7)); |parts| > 0 && parts[0] == k.target
  {
    var t, rest := Text(k), "+FCEP_TOPIC+ " + e + CRLF;
    TopicSplit(t, e);
    CommandChars(k);
    NextToken(k.target, ":" + rest);
    hide Text, Tokens, TopicTail;
    AfterPrefix(t, TopicTail(e), SecondSpace(k) + 1);
  }

  lemma AfterPrefix(t: string, tail: string, i: nat)
    requires i <= |t|
    ensures Rest(t + tail, i) == t[i..] + tail
  {
  }

  lemma TopicVerb(k: Command, e: string)
    requires WellFormed(k) && k.verb == "TOPIC"
    ensures Find(Text(k) + TopicTail(e), " TOPIC ") == Some(FirstSpace(k))
  {
    var t := Text(k);
    var line := t + TopicTail(e);
    VerbInCommand(k);
    VerbWords();
    CommandChars(k);
    hide Text, TopicTail, Find;
    AfterPrefix(t, TopicTail(e), FirstSpace(k));
    assert At(line, " TOPIC ", FirstSpace(k));
    forall j: nat | j < FirstSpace(k) ensures !At(line, " TOPIC ", j) {
      assert line[j] == t[j];
      NotAt(line, " TOPIC ", j, 0);
    }
    FindIs(line, " TOPIC ", FirstSpace(k));
  }

  // ---- main results ----

  /** Sender and receiver hold the same key for a channel, the receiver under its folded name. */
  predicate SameKey(sender: Env, receiver: Env, channel: string, key: Key) {
    && |key| == 32 && IsChannel(receiver.lower(channel))
    && sender.channelKey(channel) == Some(key) == receiver.channelKey(receiver.lower(channel))
  }

  /** An encrypted line decrypts to whatever its ciphertext decrypts to under the channel's folded name. */
  lemma LineOpens(sender: Env, receiver: Env, c: Cipher, k: Command, body: string, key: Key,
                  network: Option<string>, other: Option<string>) returns (line: string, e: string)
    requires WellFormed(k) && MarkerFree(k) && SameKey(sender, receiver, k.target, key)
    requires DefaultPrefix(sender) && DefaultPrefix(receiver) && MarkersAreNotFish10(receiver)
    requires AttemptEncryption(sender, c, Text(k) + " :" + body, network).Some?
    ensures AttemptEncryption(sender, c, Text(k) + " :" + body, network) == Some(line) && Text(k) <= line
    ensures c.decrypt(key, e, Some(k.target)) == Some(Chomp(body))
    ensures Some(e) == c.encrypt(key, Chomp(body), Some(k.target))
    ensures AttemptDecryption(receiver, c, line, other)
         == Shown(line, |Text(k)|, c.decrypt(key, e, Some(receiver.lower(k.target))))
  {
    var id := receiver.lower(k.target);
    assert |key| == 32 && IsChannel(id) && sender.channelKey(k.target) == Some(key) == receiver.channelKey(id);
    hide *;
    e := EncryptedLine(sender, c, k, body, key, network);
    if k.verb == "TOPIC" {
      line := Text(k) + TopicTail(e);
      TopicOpens(receiver, c, k, e, id, key, other);
    } else {
      PadOfIsPad(sender);
      line := Text(k) + MessageTail(PadOf(sender), e);
      MessageOpens(receiver, c, k, PadOf(sender), e, id, key, other);
    }
  }

  /**
   Whatever the two sides' settings of the fixed prefix: a prefixed message, notice or topic to a
   lower-case channel that the sender encrypts under the channel's fixed key comes back as the original
   line, without the line ends it had, ended by CRLF.
   */
  lemma LineRoundTrip(sender: Env, receiver: Env, c: Cipher, k: Command, body: string, key: Key,
                      network: Option<string>, other: Option<string>)
    requires WellFormed(k) && MarkerFree(k) && SameKey(sender, receiver, k.target, key)
    requires DefaultPrefix(sender) && DefaultPrefix(receiver) && MarkersAreNotFish10(receiver)
    requires receiver.lower(k.target) == k.target
    requires AttemptEncryption(sender, c, Text(k) + " :" + body, network).Some?
    ensures AttemptDecryption(receiver, c, AttemptEncryption(sender, c, Text(k) + " :" + body, network).value, other)
         == Some(Text(k) + " :" + Chomp(body) + CRLF)
  {
    var line, e := LineOpens(sender, receiver, c, k, body, key, network, other);
    hide *;
    ShownLine(Text(k), line, Chomp(body));
  }

  /**
   For other channels it depends on the cipher: the sender binds the text to the name as it was typed,
   the receiver to the folded name. If the cipher refuses a text under any other name, as an authenticated
   cipher should, the line comes back exactly when the name was typed in lower case.
   */
  lemma LineRoundTripIff(sender: Env, receiver: Env, c: Cipher, k: Command, body: string, key: Key,
                         network: Option<string>, other: Option<string>)
    requires WellFormed(k) && MarkerFree(k) && SameKey(sender, receiver, k.target, key)
    requires DefaultPrefix(sender) && DefaultPrefix(receiver) && MarkersAreNotFish10(receiver)
    requires AttemptEncryption(sender, c, Text(k) + " :" + body, network).Some?
    requires forall e, name {:trigger c.decrypt(key, e, Some(name))} ::
               Some(e) == c.encrypt(key, Chomp(body), Some(k.target)) && name != k.target ==>
                 c.decrypt(key, e, Some(name)) == None
    ensures AttemptDecryption(receiver, c, AttemptEncryption(sender, c, Text(k) + " :" + body, network).value, other)
            == Some(Text(k) + " :" + Chomp(body) + CRLF)
       <==> receiver.lower(k.target) == k.target
  {
    var line, e := LineOpens(sender, receiver, c, k, body, key, network, other);
    hide *;
    ShownLine(Text(k), line, Chomp(body));
    if receiver.lower(k.target) != k.target {
      assert c.decrypt(key, e, Some(receiver.lower(k.target))) == None;
      ShownNothing(line, |Text(k)|);
    }
  }

  // ---- private messages ----

  /** A name that is no channel, status marks or not, is its own target. */
  lemma NickIsTarget(t: string)
    requires Word(t) && ChannelStart(t) == None
    ensures Trim(t) == t && NormalizeTarget(t) == t && !IsChannel(t)
  {
    TrimWord([], t, []);
    hide Trim, IsSpace;
    assert [] + t + [] == t;
  }

  /** What is sealed under a nick's key is its ciphertext, in base64 and bound to no name. */
  lemma SealedPrivately(env: Env, c: Cipher, nick: string, key: Key, m: string, network: Option<string>)
    requires !IsChannel(nick) && env.nickKey(nick, network) == Some(key)
    ensures Seal(env, c, nick, false, m, network).Some? <==> |key| == 32 && c.encrypt(key, m, None).Some?
    ensures var e := Seal(env, c, nick, false, m, network);
            e.Some? ==> !e.value.legacy && Base64Text(e.value.text) && c.decrypt(key, e.value.text, None) == Some(m)
  {
  }

  /** A line with these parts is sealed for this target. */
  lemma SealedLine(env: Env, c: Cipher, line: string, i: nat, cmd: string, m: string, target: string, isTopic: bool,
                   network: Option<string>)
    requires AttemptEncryption(env, c, line, network).Some?
    requires Find(Chomp(line), " :") == Some(i) && Chomp(line)[..i] == cmd && Rest(Chomp(line), i + 2) == m
    requires TargetOf(cmd) == Some(Target(target, isTopic)) && NormalizeTarget(Trim(target)) == target
    ensures var e := Seal(env, c, target, isTopic, m, network);
            e.Some? && AttemptEncryption(env, c, line, network) == Some(Rebuilt(env, cmd, isTopic, e.value))
  {
    hide Find, Contains, Chomp, TargetOf, NormalizeTarget, Trim, Rebuilt, Prefix, Lawful, Seal;
  }

  /** A private message that is encrypted becomes its command part, the marker and the ciphertext. */
  lemma EncryptedPrivately(env: Env, c: Cipher, k: Command, body: string, key: Key, network: Option<string>)
    returns (e: string)
    requires Shaped(k) && k.verb != "TOPIC" && ChannelStart(k.target) == None && DefaultPrefix(env)
    requires env.nickKey(k.target, network) == Some(key)
    requires AttemptEncryption(env, c, Text(k) + " :" + body, network).Some?
    ensures |key| == 32 && Base64Text(e) && c.decrypt(key, e, None) == Some(Chomp(body))
    ensures AttemptEncryption(env, c, Text(k) + " :" + body, network) == Some(Text(k) + MessageTail(PadOf(env), e))
  {
    var t, m := Text(k), Chomp(body);
    assert Word(k.target) && k.verb != "TOPIC";
    ChompCommand(t, body);
    hide *;
    SeparatorAfterCommand(k, m, " :");
    TargetOfCommand(k);
    NickIsTarget(k.target);
    PrefixOfConcat(t, m);
    SealedLine(env, c, t + " :" + body, |t|, t, m, k.target, false, network);
    SealedPrivately(env, c, k.target, key, m, network);
    var sealed := Seal(env, c, k.target, false, m, network).value;
    e := sealed.text;
    RebuiltTail(env, t, false, e);
    assert sealed == Sealed(e, false);
  }

  /** The nick in front of a user and host, without the colon of the line. */
  lemma SenderIs(nick: string, host: string)
    requires nick != "" && nick[0] != ':' && '!' !in nick && (host == "" || host[0] == '!')
    ensures Sender(":" + (nick + host)) == nick
  {
    var raw := nick + host;
    assert (":" + raw)[1..] == raw;
    assert WithoutColons(":" + raw) == raw;
    if host == "" {
      assert raw == nick;
      if Find(raw, "!").Some? { AtChar(raw, "!", Find(raw, "!").value, 0); }
    } else {
      assert raw[|nick|..] == host && host[..1] == "!";
      assert At(raw, "!", |nick|);
      forall j: nat | j < |nick| ensures !At(raw, "!", j) {
        assert raw[j] == nick[j];
        NotAt(raw, "!", j, 0);
      }
      FindIs(raw, "!", |nick|);
    }
  }

  /** What a private line with these parts is decrypted to. */
  lemma PrivateMessageOpens(env: Env, c: Cipher, line: string, i: nat, f: nat, e: string, id: string, key: Key,
                            network: Option<string>)
    requires Find(line, " :") == Some(i) == Find(line, " :" + Prefix(env)) && Prefix(env) <= Rest(line, i + 2)
    requires !env.isFish10(Rest(line, i + 2)) && !KeyExchange(line) && !LegacyExchange(line)
    requires |Tokens(line)| >= 4 && KeyId(env, Tokens(line)) == id && !IsChannel(id)
    requires Find(line, ":" + Prefix(env)) == Some(f) && Trim(Rest(line, f + |":" + Prefix(env)|)) == e
    requires env.nickKey(id, network) == Some(key) && |key| == 32
    ensures AnyMessage(env, c, line, network) == Shown(line, i, c.decrypt(key, e, None))
  {
    hide Find, Tokens, Trim, KeyExchange, LegacyExchange, KeyId, Prefix, Lawful;
  }

  lemma KeyIdOfSender(env: Env, k: Command, nick: string, host: string, parts: seq<string>)
    requires Shaped(k) && ChannelStart(k.target) == None && k.src == nick + host
    requires nick != "" && nick[0] != ':' && '!' !in nick && (host == "" || host[0] == '!')
    requires |parts| >= 4 && parts[0] == ":" + k.src && parts[2] == k.target
    ensures KeyId(env, parts) == env.lower(nick)
  {
    NickIsTarget(k.target);
    SenderIs(nick, host);
    hide NormalizeTarget, Sender;
  }

  /** A private message is opened with the key of its sender. */
  lemma PrivateOpens(env: Env, c: Cipher, k: Command, nick: string, host: string, pad: string, e: string, key: Key,
                     network: Option<string>)
    requires Shaped(k) && MarkerFree(k) && MarkersAreNotFish10(env) && DefaultPrefix(env)
    requires ChannelStart(k.target) == None && k.src == nick + host
    requires nick != "" && nick[0] != ':' && '!' !in nick && (host == "" || host[0] == '!')
    requires Pad(pad) && Base64Text(e) && |key| == 32
    requires !IsChannel(env.lower(nick)) && env.nickKey(env.lower(nick), network) == Some(key)
    ensures AttemptDecryption(env, c, Text(k) + MessageTail(pad, e), network)
         == Shown(Text(k) + MessageTail(pad, e), |Text(k)|, c.decrypt(key, e, None))
  {
    var t := Text(k);
    var line := t + MessageTail(pad, e);
    hide *;
    MessagePart(env, k, pad, e);
    NoTopic(env, c, line, |t|, network);
    NoExchange(k, pad, e);
    MessageSource(k, pad, e);
    KeyIdOfSender(env, k, nick, host, Tokens(line));
    var marker := ":" + Prefix(env);
    MarkerIs(env);
    MarkerAfterCommand(k, pad, e, marker);
    SeparatorAndPrefix(env, k, pad, e);
    Remainder(t, pad, e, marker);
    PrivateMessageOpens(env, c, line, |t|, |t| + 1, e, env.lower(nick), key, network);
    DecidedByMessage(env, c, line, network);
  }

  /**
   A prefixed private message or notice that the sender encrypts comes back as the original line, ended by
   CRLF, when the receiver holds the key under the folded nick in front of the line.
   */
  lemma PrivateRoundTrip(sender: Env, receiver: Env, c: Cipher, k: Command, nick: string, host: string, body: string,
                         key: Key, network: Option<string>, other: Option<string>)
    requires Shaped(k) && MarkerFree(k) && k.verb != "TOPIC" && ChannelStart(k.target) == None
    requires k.src == nick + host && nick != "" && nick[0] != ':' && '!' !in nick && (host == "" || host[0] == '!')
    requires DefaultPrefix(sender) && DefaultPrefix(receiver) && MarkersAreNotFish10(receiver)
    requires sender.nickKey(k.target, network) == Some(key)
    requires !IsChannel(receiver.lower(nick)) && receiver.nickKey(receiver.lower(nick), other) == Some(key)
    requires AttemptEncryption(sender, c, Text(k) + " :" + body, network).Some?
    ensures AttemptDecryption(receiver, c, AttemptEncryption(sender, c, Text(k) + " :" + body, network).value, other)
         == Some(Text(k) + " :" + Chomp(body) + CRLF)
  {
    hide *;
    var e := EncryptedPrivately(sender, c, k, body, key, network);
    PadOfIsPad(sender);
    var line := Text(k) + MessageTail(PadOf(sender), e);
    PrivateOpens(receiver, c, k, nick, host, PadOf(sender), e, key, other);
    assert Text(k) <= line;
    ShownLine(Text(k), line, Chomp(body));
  }

  lemma ShownLine(t: string, line: string, m: string)
    requires t <= line
    ensures Shown(line, |t|, Some(m)) == Some(t + " :" + m + CRLF)
  {
    assert line[..|t|] == t;
  }

  lemma ShownNothing(line: string, i: nat)
    requires i <= |line|
    ensures Shown(line, i, None) == None
  {
  }

  lemma PadOfIsPad(env: Env)
    ensures Pad(PadOf(env))
  {
  }
}
