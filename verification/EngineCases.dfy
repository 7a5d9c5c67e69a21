/** Lines outside the round trips: status marks, missing and legacy keys, the ratchet, joining topics, exchanges. */
module EngineCases {
  import opened Wrappers
  import opened IrcText
  import opened Engine
  import opened EngineRoundTrip

  // ---- targets ----

  /** Status marks in front of a channel name are stripped, all of them. */
  lemma {:induction false} MarksStripped(marks: string, ch: string)
    requires Word(marks + ch) && (forall i :: 0 <= i < |marks| ==> marks[i] in "@+%~")
    requires ch != "" && (ch[0] == '#' || ch[0] == '&')
    ensures NormalizeTarget(marks + ch) == ch
  {
    TrimWord([], marks + ch, []);
    assert [] + (marks + ch) + [] == marks + ch;
    ChannelBehind(marks, ch);
    assert (marks + ch)[|marks|..] == ch;
    hide Trim, IsSpace;
  }

  lemma {:induction false} ChannelBehind(marks: string, ch: string)
    requires forall i :: 0 <= i < |marks| ==> marks[i] in "@+%~"
    requires ch != "" && (ch[0] == '#' || ch[0] == '&')
    ensures ChannelStart(marks + ch) == Some(|marks|)
  {
    if marks == "" {
      assert marks + ch == ch;
    } else {
      assert marks[0] in "@+%~";
      assert (marks + ch)[1..] == marks[1..] + ch;
      ChannelBehind(marks[1..], ch);
    }
  }

  /** Nothing is stripped when another character stands in front of the first # or &. */
  lemma {:induction false} OthersStay(marks: string, x: char, rest: string)
    requires Word(marks + [x] + rest) && (forall i :: 0 <= i < |marks| ==> marks[i] in "@+%~")
    requires x !in "@+%~#&"
    ensures NormalizeTarget(marks + [x] + rest) == marks + [x] + rest
  {
    var t := marks + [x] + rest;
    TrimWord([], t, []);
    assert [] + t + [] == t;
    NoChannelBehind(marks, x, rest);
    hide Trim, IsSpace;
  }

  lemma {:induction false} NoChannelBehind(marks: string, x: char, rest: string)
    requires forall i :: 0 <= i < |marks| ==> marks[i] in "@+%~"
    requires x !in "@+%~#&"
    ensures ChannelStart(marks + [x] + rest) == None
  {
    var t := marks + [x] + rest;
    if marks != "" {
      assert marks[0] in "@+%~";
      assert t[0] == marks[0] && t[1..] == marks[1..] + [x] + rest;
      NoChannelBehind(marks[1..], x, rest);
    } else {
      assert t[0] == x;
    }
  }

  // ---- line ends and white space ----

  /** Line ends are cut off the end, all of them and nothing else. */
  lemma {:induction false} LineEndsCut(s: string, ends: string)
    requires s == "" || (s[|s| - 1] != '\r' && s[|s| - 1] != '\n')
    requires forall i :: 0 <= i < |ends| ==> ends[i] == '\r' || ends[i] == '\n'
    ensures Chomp(s + ends) == s
    decreases |ends|
  {
    if ends == "" {
      assert s + ends == s;
    } else {
      assert (s + ends)[..|s + ends| - 1] == s + ends[..|ends| - 1];
      LineEndsCut(s, ends[..|ends| - 1]);
    }
  }

  /** Among the characters of ASCII, the space and the five controls from tab to carriage return. */
  lemma AsciiSpaces(c: char)
    requires c < 128 as char
    ensures IsSpace(c) <==> c == ' ' || (9 <= c as int <= 13)
  {
  }

  /** A command at the very start of a line, which has no other in it. */
  lemma BareCommands(t: string)
    ensures var cmd := "PRIVMSG " + t;
            !Contains(cmd, " PRIVMSG ") ==> TargetOf(cmd) == Some(Target(t, false))
    ensures var cmd := "NOTICE " + t;
            !Contains(cmd, " PRIVMSG ") && !Contains(cmd, " NOTICE ") ==> TargetOf(cmd) == Some(Target(t, false))
    ensures var cmd := "TOPIC " + t;
            !Contains(cmd, " PRIVMSG ") && !Contains(cmd, " NOTICE ") && !Contains(cmd, " TOPIC ") ==>
              TargetOf(cmd) == Some(Target(t, true))
  {
    var a, b, c := "PRIVMSG " + t, "NOTICE " + t, "TOPIC " + t;
    assert a[8..] == t && b[7..] == t && c[6..] == t;
    assert b[0] == 'N' && c[0] == 'T';
    hide Find;
  }

  // ---- outgoing lines ----

  /** A command whose target is written without status marks. */
  ghost predicate Plain(k: Command) {
    Shaped(k) && (IsChannel(k.target) || (ChannelStart(k.target) == None && k.verb != "TOPIC"))
  }

  lemma PlainTarget(k: Command)
    requires Plain(k)
    ensures Shaped(k) && NormalizeTarget(Trim(k.target)) == k.target
  {
    if IsChannel(k.target) {
      ChannelIsTarget(k.target);
    } else {
      NickIsTarget(k.target);
    }
    hide Trim, NormalizeTarget;
  }

  /** For a plain command: nothing is done to what is encrypted already, else the line is what the sealing says. */
  lemma Outgoing(env: Env, c: Cipher, k: Command, body: string, network: Option<string>)
    requires Plain(k)
    ensures var m := Chomp(body);
            AttemptEncryption(env, c, Text(k) + " :" + body, network) ==
              if env.isFish10(m) || Prefix(env) <= m then None
              else
                match Seal(env, c, k.target, k.verb == "TOPIC", m, network)
                case None => None
                case Some(e) => Some(Rebuilt(env, Text(k), k.verb == "TOPIC", e))
  {
    var t, m := Text(k), Chomp(body);
    PlainTarget(k);
    ChompCommand(t, body);
    VerbInLine(k, body);
    hide *;
    SeparatorAfterCommand(k, m, " :");
    TargetOfCommand(k);
    PrefixOfConcat(t, m);
    Rewritten(env, c, t + " :" + body, |t|, t, m, k.target, k.verb == "TOPIC", network);
  }

  lemma VerbInLine(k: Command, body: string)
    requires Shaped(k)
    ensures var line := Text(k) + " :" + body;
            Contains(line, " PRIVMSG ") || Contains(line, " NOTICE ") || Contains(line, " TOPIC ")
  {
    var t := Text(k);
    var line := t + " :" + body;
    VerbInCommand(k);
    VerbWords();
    assert line[FirstSpace(k)..] == t[FirstSpace(k)..] + " :" + body by { CommandChars(k); }
    hide Text, Find;
    assert At(line, " " + k.verb + " ", FirstSpace(k));
  }

  lemma Rewritten(env: Env, c: Cipher, line: string, i: nat, cmd: string, m: string, target: string, isTopic: bool,
                  network: Option<string>)
    requires Contains(line, " PRIVMSG ") || Contains(line, " NOTICE ") || Contains(line, " TOPIC ")
    requires Find(Chomp(line), " :") == Some(i) && Chomp(line)[..i] == cmd && Rest(Chomp(line), i + 2) == m
    requires TargetOf(cmd) == Some(Target(target, isTopic)) && NormalizeTarget(Trim(target)) == target
    ensures AttemptEncryption(env, c, line, network) ==
              if env.isFish10(m) || Prefix(env) <= m then None
              else
                match Seal(env, c, target, isTopic, m, network)
                case None => None
                case Some(e) => Some(Rebuilt(env, cmd, isTopic, e))
  {
    hide Find, Contains, Chomp, TargetOf, NormalizeTarget, Trim, Rebuilt, Prefix, Lawful, Seal;
  }

  /** Without any key a line goes out as it is, but for channels that have a ratchet; other lengths are no keys. */
  lemma NoKeyNoChange(env: Env, c: Cipher, k: Command, body: string, network: Option<string>)
    requires Plain(k)
    requires if IsChannel(k.target) then
               && env.channelKey(k.target) == None && env.legacyKey(env.lower(k.target)) == None
               && (k.verb != "TOPIC" ==> env.ratchet(k.target, Chomp(body)) == None)
             else
               match env.nickKey(k.target, network)
               case None => env.legacyKey(env.lower(k.target)) == None
               case Some(key) => |key| != 32
    ensures AttemptEncryption(env, c, Text(k) + " :" + body, network) == None
  {
    Outgoing(env, c, k, body, network);
    hide Text, Chomp, AttemptEncryption, Rebuilt, Lawful, ChannelStart;
  }

  /** With a legacy key only, the line carries what the legacy cipher makes of the message, behind +OK. */
  lemma LegacyLine(env: Env, c: Cipher, k: Command, body: string, key: Key, network: Option<string>)
    requires Plain(k) && !env.isFish10(Chomp(body)) && !(Prefix(env) <= Chomp(body))
    requires env.legacyKey(env.lower(k.target)) == Some(key)
    requires if IsChannel(k.target) then env.channelKey(k.target) == None else env.nickKey(k.target, network) == None
    ensures AttemptEncryption(env, c, Text(k) + " :" + body, network) ==
              match c.legacyEncrypt(key, Chomp(body))
              case None => None
              case Some(e) => Some(Text(k) + (if k.verb == "TOPIC" then " :+OK" else " :+OK ") + e + "\r\n")
  {
    Outgoing(env, c, k, body, network);
    hide Text, Chomp, AttemptEncryption, Lawful, ChannelStart, Prefix;
    var e := c.legacyEncrypt(key, Chomp(body));
    if e.Some? {
      LegacyRebuilt(env, Text(k), e.value);
    }
  }

  lemma LegacyRebuilt(env: Env, t: string, e: string)
    ensures Rebuilt(env, t, true, Sealed(e, true)) == t + " :+OK" + e + "\r\n"
    ensures Rebuilt(env, t, false, Sealed(e, true)) == t + " :+OK " + e + "\r\n"
  {
    assert " :" + "+OK" + " " == " :+OK ";
    assert t + " :" + "+OK" + " " + e + CRLF == t + (" :" + "+OK" + " ") + e + CRLF;
  }

  /** With neither, a channel message carries what the ratchet makes of it. */
  lemma RatchetLine(env: Env, c: Cipher, k: Command, body: string, e: string, network: Option<string>)
    requires WellFormed(k) && k.verb != "TOPIC" && DefaultPrefix(env)
    requires !env.isFish10(Chomp(body)) && !(Prefix(env) <= Chomp(body))
    requires env.channelKey(k.target) == None && env.legacyKey(env.lower(k.target)) == None
    requires env.ratchet(k.target, Chomp(body)) == Some(e)
    ensures AttemptEncryption(env, c, Text(k) + " :" + body, network) == Some(Text(k) + MessageTail(PadOf(env), e))
  {
    Outgoing(env, c, k, body, network);
    RebuiltTail(env, Text(k), false, e);
    hide Text, Chomp, AttemptEncryption, Lawful, ChannelStart, Prefix, Rebuilt;
  }

  // ---- incoming lines ----

  /** Lines of a key exchange are never decrypted; only a legacy message is looked at before the newer exchange. */
  lemma ExchangeUntouched(env: Env, c: Cipher, line: string, network: Option<string>)
    requires JoinTopic(env, c, line, network) == GoOn && TopicChange(env, c, line, network) == GoOn
    requires || Contains(line, "DH1080_INIT") || Contains(line, "DH1080_FINISH")
             || ((Contains(line, "X25519_INIT:") || Contains(line, "X25519_FINISH"))
                 && (Find(line, " :").Some? ==> !env.isFish10(Rest(line, Find(line, " :").value + 2))))
    ensures AttemptDecryption(env, c, line, network) == None
  {
    hide Find, JoinTopic, TopicChange;
  }

  /** A legacy message is opened with the legacy key of its channel, or of the nick in front of the line. */
  lemma LegacyOpens(env: Env, c: Cipher, line: string, i: nat, network: Option<string>)
    requires JoinTopic(env, c, line, network) == GoOn && TopicChange(env, c, line, network) == GoOn
    requires Find(line, " :") == Some(i) && env.isFish10(Rest(line, i + 2)) && |Tokens(line)| >= 4
    requires !Contains(line, "DH1080_INIT") && !Contains(line, "DH1080_FINISH")
    ensures var target := NormalizeTarget(Tokens(line)[2]);
            var key := env.legacyKey(env.lower(if IsChannel(target) then target else Sender(Tokens(line)[0])));
            var payload := env.fish10Payload(Rest(line, i + 2));
            AttemptDecryption(env, c, line, network) ==
              if key == None || payload == None then None
              else Shown(line, i, c.legacyDecrypt(key.value, payload.value))
  {
    hide Find, JoinTopic, TopicChange, Tokens, NormalizeTarget, Sender;
  }

  /**
   Nothing is opened in a line that is no topic when it has no message, no marker, too few words, or when the
   marker is there and the key of its channel or sender is missing or has not 32 bytes.
   */
  lemma NothingOpens(env: Env, c: Cipher, line: string, network: Option<string>)
    requires JoinTopic(env, c, line, network) == GoOn && TopicChange(env, c, line, network) == GoOn
    requires match Find(line, " :")
             case None => true
             case Some(i) =>
               var part := Rest(line, i + 2);
               || |Tokens(line)| < 4
               || (!env.isFish10(part) && (!(Prefix(env) <= part) || NoUsableKey(env, Tokens(line), network)))
    ensures AttemptDecryption(env, c, line, network) == None
  {
    hide Find, JoinTopic, TopicChange, Tokens, NormalizeTarget, Sender, Trim;
  }

  /** The channel, or the nick in front of the line when it is none, has no key of 32 bytes. */
  predicate NoUsableKey(env: Env, parts: seq<string>, network: Option<string>)
    requires |parts| >= 4
  {
    var target := NormalizeTarget(parts[2]);
    var id := env.lower(if IsChannel(target) then target else Sender(parts[0]));
    match if IsChannel(id) && env.channelKey(id).Some? then env.channelKey(id) else env.nickKey(id, network)
    case None => true
    case Some(key) => |key| != 32
  }

  // ---- the topic that is sent on joining ----

  /** The numeric reply: who sends it, to which nick, and of which channel. */
  function TopicReply(server: string, nick: string, ch: string): string {
    ":" + server + " 332 " + nick + " " + ch
  }

  /** Where the parts of a reply stand. */
  lemma ReplyParts(server: string, nick: string, ch: string)
    ensures var (t, p, q) := (TopicReply(server, nick, ch), |server| + 1, |server| + |nick| + 6);
            && |t| == |server| + |nick| + |ch| + 7 && t[0] == ':' && t[1..p] == server && At(t, " 332 ", p)
            && t[p..p + 5] == " 332 " && t[p + 5..q] == nick && t[q] == ' ' && t[q + 1..] == ch
  {
    var (t, p, q) := (TopicReply(server, nick, ch), |server| + 1, |server| + |nick| + 6);
    assert t == ":" + server + " 332 " + nick + " " + ch;
    assert t[p..] == " 332 " + (nick + " " + ch);
    hide TopicReply;
  }

  lemma ReplyChars(server: string, nick: string, ch: string)
    requires Word(server) && Word(nick) && nick[0] != ':' && Word(ch) && ch[0] != ':'
    ensures var t := TopicReply(server, nick, ch);
            && |t| == |server| + |nick| + |ch| + 7 && t[0] == ':' && At(t, " 332 ", |server| + 1)
            && (forall i :: 0 <= i < |t| && t[i] == ' ' ==> i + 1 < |t| && t[i + 1] != ':')
  {
    var (t, p, q) := (TopicReply(server, nick, ch), |server| + 1, |server| + |nick| + 6);
    ReplyParts(server, nick, ch);
    assert nick != "" && ch != "";
    hide TopicReply, Word, At;
    NoSpace(server, t, 1);
    NoSpace(nick, t, p + 5);
    NoSpace(ch, t, q + 1);
    assert t[p + 1] == t[p..p + 5][1] == '3' && t[p + 5] == t[p + 5..q][0] && t[q + 1] == t[q + 1..][0];
    assert t[p + 2] == t[p..p + 5][2] && t[p + 3] == t[p..p + 5][3];
  }

  /** A word inside a line holds none of its spaces. */
  lemma NoSpace(w: string, t: string, i: nat)
    requires Word(w) && i + |w| <= |t| && t[i..i + |w|] == w
    ensures forall j :: i <= j < i + |w| ==> t[j] != ' '
  {
    assert IsSpace(' ');
    forall j | i <= j < i + |w| ensures t[j] != ' ' {
      assert t[j] == w[j - i];
    }
  }

  /** The message of a reply is found behind its channel. */
  lemma ReplySeparator(t: string, rest: string)
    requires t != "" && (forall i :: 0 <= i < |t| && t[i] == ' ' ==> i + 1 < |t| && t[i + 1] != ':')
    ensures Find(t + " :" + rest, " :") == Some(|t|)
  {
    var line := t + " :" + rest;
    assert line[|t|..] == " :" + rest;
    forall j: nat | j < |t| ensures !At(line, " :", j) {
      if t[j] == ' ' {
        NotAt(line, " :", j, 1);
      } else {
        NotAt(line, " :", j, 0);
      }
    }
    FindIs(line, " :", |t|);
  }

  lemma ReplyTokens(server: string, nick: string, ch: string, rest: string)
    requires Word(server) && Word(nick) && Word(ch) && rest != "" && rest[0] == ':'
    ensures var parts := Tokens(TopicReply(server, nick, ch) + (" " + rest)); |parts| >= 5 && parts[3] == ch
  {
    SpaceIsSpace();
    ColonWord(server);
    VerbWords();
    assert |Tokens(rest)| >= 1;
    ReplyGrouped(server, nick, ch, rest);
    hide Tokens, IsSpace, TopicReply, Word;
    NextToken(":" + server, "332" + (" " + (nick + (" " + (ch + (" " + rest))))));
    NextToken("332", nick + (" " + (ch + (" " + rest))));
    NextToken(nick, ch + (" " + rest));
    NextToken(ch, rest);
  }

  lemma ColonWord(w: string)
    requires Word(w)
    ensures Word(":" + w)
  {
    SpaceIsSpace();
    hide IsSpace;
    var v := ":" + w;
    forall i | 0 <= i < |v| ensures !IsSpace(v[i]) {
      assert i > 0 ==> v[i] == w[i - 1];
    }
  }

  lemma ReplyGrouped(server: string, nick: string, ch: string, rest: string)
    ensures TopicReply(server, nick, ch) + (" " + rest)
         == ":" + server + (" " + ("332" + (" " + (nick + (" " + (ch + (" " + rest)))))))
  {
    assert " 332 " == " " + "332" + " ";
    assert TopicReply(server, nick, ch) == ":" + server + " " + "332" + " " + nick + " " + ch;
    Regrouped(":" + server, "332", nick + " " + ch, rest);
    assert nick + " " + ch + (" " + rest) == nick + (" " + (ch + (" " + rest)));
    assert ":" + server + " " + "332" + " " + nick + " " + ch == ":" + server + " " + "332" + " " + (nick + " " + ch);
  }

  /** What a reply with these parts is decrypted to: the channel's key first, a key of that name second. */
  lemma JoinTopicOpens(env: Env, c: Cipher, line: string, i: nat, e: string, id: string, key: Key,
                       network: Option<string>)
    requires Contains(line, " 332 ") && Find(line, " :") == Some(i)
    requires var part := Rest(line, i + 2); FCEP_TOPIC <= part && Trim(part[|FCEP_TOPIC|..]) == e
    requires |Tokens(line)| >= 5 && env.lower(NormalizeTarget(Tokens(line)[3])) == id
    requires (if env.channelKey(id).Some? then env.channelKey(id) else env.nickKey(id, network)) == Some(key)
    ensures AttemptDecryption(env, c, line, network)
         == if |key| == 32 then Shown(line, i, c.decrypt(key, e, Some(id))) else None
  {
    hide Find, Tokens, Trim, NormalizeTarget, Lawful, AnyMessage, TopicChange;
    assert OpenTopic(env, c, line, i, id, network)
        == Done(if |key| == 32 then Shown(line, i, c.decrypt(key, e, Some(id))) else None);
    hide OpenTopic;
    assert JoinTopic(env, c, line, network) == OpenTopic(env, c, line, i, id, network);
  }

  lemma StillAt(t: string, tail: string, p: string, i: nat)
    requires At(t, p, i)
    ensures At(t + tail, p, i)
  {
    assert (t + tail)[i..] == t[i..] + tail;
  }

  /** The topic that a server sends on joining is opened with the key of the channel it names. */
  lemma TopicReplyOpens(env: Env, c: Cipher, server: string, nick: string, ch: string, e: string, key: Key,
                        network: Option<string>)
    requires Word(server) && Word(nick) && nick[0] != ':' && Word(ch) && IsChannel(ch) && Base64Text(e) && |key| == 32
    requires var id := env.lower(ch);
             (if env.channelKey(id).Some? then env.channelKey(id) else env.nickKey(id, network)) == Some(key)
    ensures var t := TopicReply(server, nick, ch);
            AttemptDecryption(env, c, t + TopicTail(e), network)
            == Shown(t + TopicTail(e), |t|, c.decrypt(key, e, Some(env.lower(ch))))
  {
    var t, rest := TopicReply(server, nick, ch), "+FCEP_TOPIC+ " + e + CRLF;
    var line := t + TopicTail(e);
    ReplyChars(server, nick, ch);
    TopicSplit(t, e);
    assert (":" + rest)[0] == ':';
    hide Word, TopicReply, TopicTail, Tokens, Find, Trim, NormalizeTarget, AttemptDecryption, Lawful, Shown, Base64Text;
    ReplySeparator(t, rest);
    ReplyTokens(server, nick, ch, ":" + rest);
    ChannelIsTarget(ch);
    Ciphertext(" ", e);
    StillAt(t, TopicTail(e), " 332 ", |server| + 1);
    JoinTopicOpens(env, c, line, |t|, e, env.lower(ch), key, network);
  }

  /** A topic of the legacy code, set or sent on joining, is opened with the legacy key of its channel. */
  lemma LegacyTopics(env: Env, c: Cipher, line: string, i: nat, id: string, network: Option<string>)
    requires Find(line, " :") == Some(i) && env.isFish10(Rest(line, i + 2)) && !(FCEP_TOPIC <= Rest(line, i + 2))
    requires if Contains(line, " 332 ") then
               |Tokens(line)| >= 5 && env.lower(NormalizeTarget(Tokens(line)[3])) == id
             else
               && ":" <= line && Find(line, " TOPIC ").Some?
               && var parts := Tokens(Rest(line, Find(line, " TOPIC ").value + 7));
                  |parts| > 0 && env.lower(NormalizeTarget(parts[0])) == id
    requires env.legacyKey(id).Some?
    ensures var payload := env.fish10Payload(Rest(line, i + 2));
            AttemptDecryption(env, c, line, network) ==
              if payload == None then None else Shown(line, i, c.legacyDecrypt(env.legacyKey(id).value, payload.value))
  {
    hide Find, Tokens, NormalizeTarget, Lawful, AnyMessage;
  }

  /** A reply that breaks off before it names a channel is passed on as it came. */
  lemma BrokenTopics(env: Env, c: Cipher, line: string, i: nat, network: Option<string>)
    requires Find(line, " :") == Some(i) && (env.isFish10(Rest(line, i + 2)) || FCEP_TOPIC <= Rest(line, i + 2))
    requires Contains(line, " 332 ") && |Tokens(line)| < 5
    ensures AttemptDecryption(env, c, line, network) == None
  {
    hide Find, Tokens, NormalizeTarget, Lawful, AnyMessage, TopicChange;
  }
}
