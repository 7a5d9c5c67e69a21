/**
 Rewriting of IRC lines. The configuration, the legacy code and the cipher are opaque; the line parsing
 and rebuilding is modelled in full.
 */
module Engine {
  import opened Wrappers
  import opened IrcText

  type Key = seq<bv8>

  /** What the configuration and the legacy code answer. */
  datatype Env = Env(
    fishPrefix: bool,
    encryptionPrefix: string,
    channelKey: string -> Option<Key>,
    nickKey: (string, Option<string>) -> Option<Key>,
    legacyKey: string -> Option<Key>,
    ratchet: (string, string) -> Option<string>,
    lower: string -> string,
    isFish10: string -> bool,
    fish10Payload: string -> Option<string>)

  datatype RawCipher = RawCipher(
    encrypt: (Key, string, Option<string>) -> Option<string>,
    decrypt: (Key, string, Option<string>) -> Option<string>,
    legacyEncrypt: (Key, string) -> Option<string>,
    legacyDecrypt: (Key, string) -> Option<string>)

  /** The standard base64 alphabet, padding included. */
  predicate Base64Char(c: char) {
    'A' <= c <= 'Z' || 'a' <= c <= 'z' || '0' <= c <= '9' || c == '+' || c == '/' || c == '='
  }

  predicate Base64Text(s: string) {
    s != [] && forall i :: 0 <= i < |s| ==> Base64Char(s[i])
  }

  /** Decryption undoes encryption under the same key and associated data; what is sent is base64. */
  ghost predicate Lawful(c: RawCipher) {
    forall k, m, ad {:trigger c.encrypt(k, m, ad)} ::
      c.encrypt(k, m, ad).Some? ==>
        Base64Text(c.encrypt(k, m, ad).value) && c.decrypt(k, c.encrypt(k, m, ad).value, ad) == Some(m)
  }

  type Cipher = c: RawCipher | Lawful(c) ghost witness
    RawCipher((_, _, _) => None, (_, _, _) => None, (_, _) => None, (_, _) => None)

  const PLUS_FISH: string := "+FiSH"
  const FCEP_TOPIC: string := "+FCEP_TOPIC+"
  const CRLF: string := "\r\n"

  /** With the fixed prefix a space belongs to it. */
  function Prefix(env: Env): string {
    if env.fishPrefix then "+FiSH " else env.encryptionPrefix
  }

  predicate IsChannel(target: string) {
    target != [] && (target[0] == '#' || target[0] == '&')
  }

  // ---- targets ----

  predicate IsStatus(c: char) {
    c == '@' || c == '+' || c == '%' || c == '~'
  }

  /** Where the channel name starts, if only status marks stand before it. */
  function ChannelStart(t: string): (r: Option<nat>)
    ensures r.Some? ==> r.value < |t|
  {
    if t == [] then None
    else if t[0] == '#' || t[0] == '&' then Some(0)
    else if IsStatus(t[0]) then
      match ChannelStart(t[1..])
      case Some(i) => Some(i + 1)
      case None => None
    else None
  }

  function NormalizeTarget(target: string): string {
    var t := Trim(target);
    match ChannelStart(t)
    case Some(i) => t[i..]
    case None => t
  }

  method Normalize(target: string) returns (r: string)
    ensures r == NormalizeTarget(target)
  {
    var trimmed := Trim(target);
    if trimmed == [] {
      return trimmed;
    }
    var seenStatus := false;
    var channelStart: Option<nat> := None;
    var idx := 0;
    assert trimmed[0..] == trimmed;
    while idx < |trimmed|
      invariant idx <= |trimmed| && channelStart == None && (seenStatus <==> idx > 0)
      invariant match ChannelStart(trimmed[idx..])
                case Some(i) => ChannelStart(trimmed) == Some(idx + i)
                case None => ChannelStart(trimmed) == None
    {
      var ch := trimmed[idx];
      assert trimmed[idx..][1..] == trimmed[idx + 1..];
      if ch == '#' || ch == '&' {
        channelStart := Some(idx);
        break;
      }
      if IsStatus(ch) {
        seenStatus := true;
        idx := idx + 1;
        continue;
      }
      break;
    }
    if channelStart.Some? && seenStatus && channelStart.value > 0 {
      return trimmed[channelStart.value..];
    }
    return trimmed;
  }

  // ---- outgoing lines ----

  datatype Target = Target(part: string, isTopic: bool)

  /** The text behind the command, looked for inside the line first and at its start second. */
  function TargetOf(cmd: string): Option<Target> {
    match Find(cmd, " PRIVMSG ")
    case Some(p) => Some(Target(Rest(cmd, p + 9), false))
    case None =>
      if "PRIVMSG " <= cmd then Some(Target(cmd[8..], false))
      else
        match Find(cmd, " NOTICE ")
        case Some(p) => Some(Target(Rest(cmd, p + 8), false))
        case None =>
          if "NOTICE " <= cmd then Some(Target(cmd[7..], false))
          else
            match Find(cmd, " TOPIC ")
            case Some(p) => Some(Target(Rest(cmd, p + 7), true))
            case None => if "TOPIC " <= cmd then Some(Target(cmd[6..], true)) else None
  }

  function Rest(s: string, i: nat): string {
    if i <= |s| then s[i..] else []
  }

  /** The encrypted text and whether a legacy key was used. */
  datatype Sealed = Sealed(text: string, legacy: bool)

  function WithLegacy(env: Env, c: Cipher, target: string, message: string): Option<Sealed> {
    match env.legacyKey(env.lower(target))
    case None => None
    case Some(key) =>
      match c.legacyEncrypt(key, message)
      case Some(e) => Some(Sealed(e, true))
      case None => None
  }

  function WithKey(c: Cipher, key: Key, message: string, ad: Option<string>): Option<Sealed> {
    match c.encrypt(key, message, ad)
    case Some(e) => Some(Sealed(e, false))
    case None => None
  }

  function Seal(env: Env, c: Cipher, target: string, isTopic: bool, message: string, network: Option<string>)
    : Option<Sealed> {
    if isTopic then
      match env.channelKey(target)
      case Some(key) => WithKey(c, key, message, Some(target))
      case None => WithLegacy(env, c, target, message)
    else if IsChannel(target) then
      match env.channelKey(target)
      case Some(key) => WithKey(c, key, message, Some(target))
      case None =>
        if env.legacyKey(env.lower(target)).Some? then WithLegacy(env, c, target, message)
        else
          match env.ratchet(target, message)
          case Some(e) => Some(Sealed(e, false))
          case None => None
    else
      match env.nickKey(target, network)
      case Some(key) => if |key| == 32 then WithKey(c, key, message, None) else None
      case None => WithLegacy(env, c, target, message)
  }

  function AttemptEncryption(env: Env, c: Cipher, line: string, network: Option<string>): Option<string> {
    if !Contains(line, " PRIVMSG ") && !Contains(line, " NOTICE ") && !Contains(line, " TOPIC ") then None
    else
      var content := Chomp(line);
      match Find(content, " :")
      case None => None
      case Some(i) =>
        var cmd, message := content[..i], Rest(content, i + 2);
        if env.isFish10(message) || Prefix(env) <= message then None
        else
          match TargetOf(cmd)
          case None => None
          case Some(t) =>
            var target := NormalizeTarget(Trim(t.part));
            match Seal(env, c, target, t.isTopic, message, network)
            case None => None
            case Some(e) => Some(Rebuilt(env, cmd, t.isTopic, e))
  }

  function Rebuilt(env: Env, cmd: string, isTopic: bool, e: Sealed): string {
    if isTopic then
      if e.legacy then cmd + " :+OK" + e.text + CRLF else cmd + " :+FCEP_TOPIC+ " + e.text + CRLF
    else
      cmd + " :" + (if e.legacy then "+OK" else Prefix(env)) + " " + e.text + CRLF
  }

  // ---- incoming lines ----

  /** A branch either decides the result or lets the next one try. */
  datatype Step = Done(result: Option<string>) | GoOn

  function Decoded(line: string, i: nat, message: string): string
    requires i <= |line|
  {
    line[..i] + " :" + message + CRLF
  }

  /** The key of a channel, or of a nick of that name. */
  function LookUp(env: Env, id: string, network: Option<string>): Option<Key> {
    match env.channelKey(id)
    case Some(k) => Some(k)
    case None => env.nickKey(id, network)
  }

  function OpenTopic(env: Env, c: Cipher, line: string, i: nat, id: string, network: Option<string>): Step
    requires i <= |line|
  {
    var part := Rest(line, i + 2);
    if FCEP_TOPIC <= part then
      var payload := Trim(part[|FCEP_TOPIC|..]);
      match LookUp(env, id, network)
      case None => Done(None)
      case Some(key) =>
        if |key| != 32 then Done(None)
        else
          match c.decrypt(key, payload, Some(id))
          case None => Done(None)
          case Some(m) => Done(Some(Decoded(line, i, m)))
    else
      match env.fish10Payload(part)
      case None => Done(None)
      case Some(payload) =>
        match env.legacyKey(id)
        case None => GoOn
        case Some(key) =>
          match c.legacyDecrypt(key, payload)
          case None => Done(None)
          case Some(m) => Done(Some(Decoded(line, i, m)))
  }

  predicate HasTopic(env: Env, part: string) {
    FCEP_TOPIC <= part || env.isFish10(part)
  }

  /** The topic that is sent when a channel is joined. */
  function JoinTopic(env: Env, c: Cipher, line: string, network: Option<string>): Step {
    if !Contains(line, " 332 ") then GoOn
    else
      match Find(line, " :")
      case None => Done(None)
      case Some(i) =>
        if !HasTopic(env, Rest(line, i + 2)) then GoOn
        else
          var parts := Tokens(line);
          if |parts| < 5 then Done(None)
          else OpenTopic(env, c, line, i, env.lower(NormalizeTarget(parts[3])), network)
  }

  /** A topic that somebody sets. */
  function TopicChange(env: Env, c: Cipher, line: string, network: Option<string>): Step {
    if !(":" <= line && Contains(line, " TOPIC ")) then GoOn
    else
      match Find(line, " :")
      case None => Done(None)
      case Some(i) =>
        if !HasTopic(env, Rest(line, i + 2)) then GoOn
        else
          var parts := Tokens(Rest(line, Find(line, " TOPIC ").value + 7));
          if |parts| == 0 then Done(None)
          else OpenTopic(env, c, line, i, env.lower(NormalizeTarget(parts[0])), network)
  }

  /** The nick in front of the exclamation mark. */
  function Sender(token: string): string {
    var raw := WithoutColons(token);
    match Find(raw, "!")
    case Some(i) => raw[..i]
    case None => raw
  }

  function WithoutColons(s: string): string {
    if s != [] && s[0] == ':' then WithoutColons(s[1..]) else s
  }

  function KeyId(env: Env, parts: seq<string>): string
    requires |parts| >= 4
  {
    var target := NormalizeTarget(parts[2]);
    env.lower(if IsChannel(target) then target else Sender(parts[0]))
  }

  function LegacyMessage(env: Env, c: Cipher, line: string, i: nat): Option<string>
    requires i <= |line|
  {
    var parts := Tokens(line);
    if |parts| < 4 then None
    else
      match env.legacyKey(KeyId(env, parts))
      case None => None
      case Some(key) =>
        match env.fish10Payload(Rest(line, i + 2))
        case None => None
        case Some(payload) =>
          match c.legacyDecrypt(key, payload)
          case None => None
          case Some(m) => Some(Decoded(line, i, m))
  }

  predicate KeyExchange(line: string) {
    Contains(line, "X25519_INIT:") || Contains(line, "X25519_FINISH")
  }

  predicate LegacyExchange(line: string) {
    Contains(line, "DH1080_INIT") || Contains(line, "DH1080_FINISH")
  }

  function FishMessage(env: Env, c: Cipher, line: string, network: Option<string>): Option<string> {
    if KeyExchange(line) then None
    else
      var parts := Tokens(line);
      if |parts| < 4 then None
      else
        var marker := ":" + Prefix(env);
        match Find(line, marker)
        case None => None
        case Some(f) =>
          var data := Trim(Rest(line, f + |marker|));
          var id := KeyId(env, parts);
          match if IsChannel(id) then LookUp(env, id, network) else env.nickKey(id, network)
          case None => None
          case Some(key) =>
            if |key| != 32 then None
            else
              match c.decrypt(key, data, if IsChannel(id) then Some(id) else None)
              case None => None
              case Some(m) =>
                match Find(line, " :" + Prefix(env))
                case None => None
                case Some(p) => Some(Decoded(line, p, m))
  }

  function AnyMessage(env: Env, c: Cipher, line: string, network: Option<string>): Option<string> {
    if LegacyExchange(line) then None
    else
      match Find(line, " :")
      case None => None
      case Some(i) =>
        var part := Rest(line, i + 2);
        if env.isFish10(part) then LegacyMessage(env, c, line, i)
        else if !(Prefix(env) <= part) then None
        else FishMessage(env, c, line, network)
  }

  function AttemptDecryption(env: Env, c: Cipher, line: string, network: Option<string>): Option<string> {
    match JoinTopic(env, c, line, network)
    case Done(r) => r
    case GoOn =>
      match TopicChange(env, c, line, network)
      case Done(r) => r
      case GoOn => AnyMessage(env, c, line, network)
  }
}
