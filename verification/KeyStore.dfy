/** The key store: entries named by nick and network, the networks of nicks, and expiry. */
module KeyStore {
  import opened Wrappers

  type Key = seq<bv8>
  type Coded = seq<bv8>

  /** Case folding with trimming, and base64, are opaque. */
  datatype RawLib = RawLib(normalize: string -> string, encode: Key -> Coded, decode: Coded -> Option<Key>)

  ghost predicate Lawful(l: RawLib) {
    forall k {:trigger l.encode(k)} :: l.decode(l.encode(k)) == Some(k)
  }

  type Lib = l: RawLib | Lawful(l) ghost witness RawLib(n => n, k => k, c => Some(c))

  /** When an entry was made is a number of seconds; None stands for a date that is missing or unreadable. */
  datatype Entry = Entry(key: Option<Coded>, date: Option<int>, isExchange: Option<bool>)

  datatype Config = Config(entries: map<string, Entry>, keys: map<string, Coded>, nickNetworks: map<string, string>,
                           keyTtl: Option<int>)

  datatype Error = KeyExpired | KeyNotFound | DuplicateEntry | InvalidNetworkName | InvalidInput | BadBase64

  const MIN_KEY_TTL: int := 3600
  const MAX_KEY_TTL: int := 604800
  const DEFAULT_TTL: int := 86400
  const GRACE_PERIOD: int := 300
  const DEFAULT: string := "default"

  // ---- names of entries ----

  function EntryKey(nick: string, network: string): string {
    nick + "@" + network
  }

  /** Entries of nicks without an at sign never share a name. */
  lemma EntryKeyInjective(nick: string, network: string, other: string, network2: string)
    requires '@' !in nick && '@' !in other && EntryKey(nick, network) == EntryKey(other, network2)
    ensures nick == other && network == network2
  {
    var e := EntryKey(nick, network);
    FirstAt(nick, network);
    FirstAt(other, network2);
    assert |nick| == |other|;
    assert nick == e[..|nick|] && other == e[..|other|];
    assert network == e[|nick| + 1..] && network2 == e[|other| + 1..];
  }

  lemma FirstAt(nick: string, network: string)
    requires '@' !in nick
    ensures var e := EntryKey(nick, network); e[|nick|] == '@' && forall i :: 0 <= i < |nick| ==> e[i] != '@'
  {
  }

  /** Nor does the search for a nick in any network find another nick. */
  lemma PrefixOfOther(nick: string, network: string, other: string)
    requires '@' !in nick && '@' !in other && other + "@" <= EntryKey(nick, network)
    ensures nick == other
  {
    var e := EntryKey(nick, network);
    EntryKeyInjective(nick, network, other, e[|other| + 1..]);
    assert e == other + "@" + e[|other| + 1..];
  }

  // ---- expiry ----

  function EffectiveTtl(c: Config): int {
    if c.keyTtl.Some? then c.keyTtl.value else DEFAULT_TTL
  }

  /** The configured lifetime, brought into its range. */
  function ConfiguredTtl(c: Config): int {
    var ttl := EffectiveTtl(c);
    if ttl < MIN_KEY_TTL then MIN_KEY_TTL else if ttl > MAX_KEY_TTL then MAX_KEY_TTL else ttl
  }

  /** A lookup takes the configured lifetime as it stands. */
  predicate LooksExpired(c: Config, e: Entry, now: int) {
    e.isExchange == Some(true) && e.date.Some? && EffectiveTtl(c) + GRACE_PERIOD - (now - e.date.value) <= 0
  }

  /** The check that deletes takes it brought into range. */
  predicate IsDeletable(c: Config, e: Entry, now: int) {
    e.isExchange == Some(true) && e.date.Some? && now - e.date.value > ConfiguredTtl(c) + GRACE_PERIOD
  }

  // ---- lookups ----

  function OfEntry(l: Lib, c: Config, e: Entry, now: int): Result<Key, Error>
    requires e.key.Some?
  {
    if LooksExpired(c, e, now) then Err(KeyExpired)
    else
      match l.decode(e.key.value)
      case Some(k) => Ok(k)
      case None => Err(BadBase64)
  }

  predicate HasKey(c: Config, name: string) {
    name in c.entries && c.entries[name].key.Some?
  }

  function NetworkOf(c: Config, nick: string, network: Option<string>): string {
    if network.Some? then network.value
    else if nick in c.nickNetworks then c.nickNetworks[nick]
    else DEFAULT
  }

  /**
   What a lookup may answer. Only the last resort leaves a choice: it takes the first entry of the nick
   that the hash map happens to yield.
   */
  ghost predicate MayReturn(l: Lib, c: Config, nickname: string, network: Option<string>, now: int,
                            r: Result<Key, Error>) {
    var nick := l.normalize(nickname);
    var net := NetworkOf(c, nick, network);
    if HasKey(c, EntryKey(nick, net)) then r == OfEntry(l, c, c.entries[EntryKey(nick, net)], now)
    else if net != DEFAULT then
      if HasKey(c, EntryKey(nick, DEFAULT)) then r == OfEntry(l, c, c.entries[EntryKey(nick, DEFAULT)], now)
      else r == Err(KeyNotFound)
    else if exists name :: Candidate(c, nick, name) then
      exists name :: Candidate(c, nick, name) && r == OfEntry(l, c, c.entries[name], now)
    else r == Err(KeyNotFound)
  }

  predicate Candidate(c: Config, nick: string, name: string) {
    nick + "@" <= name && HasKey(c, name)
  }

  /** The network a new key goes to: given, else current, else already known for the nick. */
  function ResolvedNetwork(c: Config, network: Option<string>, current: Option<string>, nick: string): string {
    if network.Some? then network.value
    else if current.Some? then current.value
    else if nick in c.nickNetworks then c.nickNetworks[nick]
    else DEFAULT
  }

  function SimpleNetwork(network: Option<string>, current: Option<string>): string {
    if network.Some? then network.value else if current.Some? then current.value else DEFAULT
  }

  class FishConfig {
    var entries: map<string, Entry>
    var keys: map<string, Coded>
    var nickNetworks: map<string, string>
    var keyTtl: Option<int>

    function Value(): Config
      reads this
    {
      Config(entries, keys, nickNetworks, keyTtl)
    }

    constructor ()
      ensures Value() == Config(map[], map[], map[], None)
    {
      entries, keys, nickNetworks, keyTtl := map[], map[], map[], None;
    }

    method SetKey(l: Lib, nickname: string, key: Key, network: Option<string>, overwrite: bool, isExchange: bool,
                  current: Option<string>, now: int)
      returns (r: Result<(), Error>)
      modifies this
      ensures (Value(), r) == KeySet(l, old(Value()), nickname, key, network, overwrite, isExchange, current, now)
    {
      var nick := l.normalize(nickname);
      if network.Some? && ':' in network.value {
        return Err(InvalidNetworkName);
      }
      if !overwrite {
        if nick in keys {
          return Err(DuplicateEntry);
        }
        var net := if network.Some? then network.value else if nick in nickNetworks then nickNetworks[nick] else ".";
        if net + ":" + nickname in entries {
          return Err(DuplicateEntry);
        }
      }
      var networkName := ResolvedNetwork(Value(), network, current, nick);
      var name := EntryKey(nick, networkName);
      if !overwrite && name in entries {
        return Err(DuplicateEntry);
      }
      entries := entries[name := Entry(Some(l.encode(key)), Some(now), Some(isExchange))];
      nickNetworks := nickNetworks[nick := SimpleNetwork(network, current)];
      return Ok(());
    }

    method GetKey(l: Lib, nickname: string, network: Option<string>, now: int) returns (r: Result<Key, Error>)
      ensures MayReturn(l, Value(), nickname, network, now, r)
    {
      var nick := l.normalize(nickname);
      var net := NetworkOf(Value(), nick, network);
      var name := EntryKey(nick, net);
      if name in entries && entries[name].key.Some? {
        return OfEntry(l, Value(), entries[name], now);
      }
      if net != DEFAULT {
        name := EntryKey(nick, DEFAULT);
        if name in entries && entries[name].key.Some? {
          return OfEntry(l, Value(), entries[name], now);
        }
      }
      if net == DEFAULT {
        var rest := entries.Keys;
        while rest != {}
          invariant rest <= entries.Keys
          invariant forall n :: Candidate(Value(), nick, n) ==> n in rest
          decreases rest
        {
          var n :| n in rest;
          if nick + "@" <= n && entries[n].key.Some? {
            assert Candidate(Value(), nick, n);
            return OfEntry(l, Value(), entries[n], now);
          }
          rest := rest - {n};
        }
      }
      return Err(KeyNotFound);
    }

    method DeleteKey(l: Lib, nickname: string, network: Option<string>) returns (r: Result<(), Error>)
      modifies this
      ensures (Value(), r) == KeyDeleted(l, old(Value()), nickname, network)
    {
      var nick := l.normalize(nickname);
      var name := EntryKey(nick, NetworkOf(Value(), nick, network));
      var removed := name in entries || nick in keys;
      entries := entries - {name};
      keys := keys - {nick};
      if network == None && nick in nickNetworks {
        nickNetworks := nickNetworks - {nick};
      }
      assert nick !in nickNetworks ==> nickNetworks == nickNetworks - {nick};
      return if removed then Ok(()) else Err(KeyNotFound);
    }

    method CheckKeyExpiry(l: Lib, nickname: string, network: Option<string>, current: Option<string>, now: int)
      returns (r: Result<(), Error>)
      modifies this
      ensures (Value(), r) == ExpiryChecked(l, old(Value()), nickname, network, current, now)
    {
      var lifetime := ConfiguredTtl(Value());
      var nick := l.normalize(nickname);
      var name := EntryKey(nick, SimpleNetwork(network, current));
      if name in entries {
        var e := entries[name];
        if e.isExchange != Some(true) {
          return Ok(());
        }
        if e.date.Some? {
          if now - e.date.value > lifetime + GRACE_PERIOD {
            entries := entries - {name};
            keys := keys - {nick};
            nickNetworks := nickNetworks - {nick};
            return Err(KeyExpired);
          }
        }
      }
      return Ok(());
    }

    /** Only lifetimes between an hour and seven days are taken. */
    method SetConfiguredKeyTtl(ttl: int) returns (r: Result<(), Error>)
      modifies this`keyTtl
      ensures r == if 3600 <= ttl <= 604800 then Ok(()) else Err(InvalidInput)
      ensures keyTtl == if r.Ok? then Some(ttl) else old(keyTtl)
    {
      if ttl < MIN_KEY_TTL || ttl > MAX_KEY_TTL {
        return Err(InvalidInput);
      }
      keyTtl := Some(ttl);
      return Ok(());
    }
  }

  // ---- what the operations do to the configuration ----

  function KeySet(l: Lib, c: Config, nickname: string, key: Key, network: Option<string>, overwrite: bool,
                  isExchange: bool, current: Option<string>, now: int): (Config, Result<(), Error>)
  {
    var nick := l.normalize(nickname);
    var old_ := if network.Some? then network.value else if nick in c.nickNetworks then c.nickNetworks[nick] else ".";
    var name := EntryKey(nick, ResolvedNetwork(c, network, current, nick));
    if network.Some? && ':' in network.value then (c, Err(InvalidNetworkName))
    else if !overwrite && (nick in c.keys || old_ + ":" + nickname in c.entries || name in c.entries) then
      (c, Err(DuplicateEntry))
    else
      (c.(entries := c.entries[name := Entry(Some(l.encode(key)), Some(now), Some(isExchange))],
          nickNetworks := c.nickNetworks[nick := SimpleNetwork(network, current)]), Ok(()))
  }

  function KeyDeleted(l: Lib, c: Config, nickname: string, network: Option<string>): (Config, Result<(), Error>) {
    var nick := l.normalize(nickname);
    var name := EntryKey(nick, NetworkOf(c, nick, network));
    (c.(entries := c.entries - {name}, keys := c.keys - {nick},
        nickNetworks := if network == None then c.nickNetworks - {nick} else c.nickNetworks),
     if name in c.entries || nick in c.keys then Ok(()) else Err(KeyNotFound))
  }

  function ExpiryChecked(l: Lib, c: Config, nickname: string, network: Option<string>, current: Option<string>,
                         now: int)
    : (Config, Result<(), Error>)
  {
    var nick := l.normalize(nickname);
    var name := EntryKey(nick, SimpleNetwork(network, current));
    if name in c.entries && IsDeletable(c, c.entries[name], now) then
      (c.(entries := c.entries - {name}, keys := c.keys - {nick}, nickNetworks := c.nickNetworks - {nick}),
        Err(KeyExpired))
    else (c, Ok(()))
  }

  // ---- main results ----

  /**
   After a key has been set for a valid network, every spelling of the nick finds it, with that network
   or with none, and finds nothing else, until it expires; keys that were not exchanged never do.
   */
  lemma SetThenGet(l: Lib, c: Config, nickname: string, key: Key, net: string, isExchange: bool,
                   current: Option<string>, set_: int, spelling: string, asked: Option<string>, now: int,
                   r: Result<Key, Error>)
    requires ':' !in net && l.normalize(spelling) == l.normalize(nickname) && (asked == Some(net) || asked == None)
    ensures var (d, o) := KeySet(l, c, nickname, key, Some(net), true, isExchange, current, set_);
            && o == Ok(())
            && (MayReturn(l, d, spelling, asked, now, r) <==>
                r == if isExchange && now - set_ >= (if c.keyTtl.Some? then c.keyTtl.value else 86400) + 300
                     then Err(KeyExpired) else Ok(key))
  {
    var (d, o) := KeySet(l, c, nickname, key, Some(net), true, isExchange, current, set_);
    var nick := l.normalize(nickname);
    assert NetworkOf(d, nick, asked) == net;
    assert HasKey(d, EntryKey(nick, net));
  }

  /**
   Which sets are refused, and then change nothing; every other one enters the key under the nick and the
   given, else the current, else the known network, and notes the network for the nick.
   */
  lemma SetRefusedIff(l: Lib, c: Config, nickname: string, key: Key, network: Option<string>, overwrite: bool,
                      isExchange: bool, current: Option<string>, now: int)
    ensures var (d, o) := KeySet(l, c, nickname, key, network, overwrite, isExchange, current, now);
            var nick := l.normalize(nickname);
            var known := if nick in c.nickNetworks then Some(c.nickNetworks[nick]) else None;
            var net := if network.Some? then network.value else if current.Some? then current.value
                       else if known.Some? then known.value else "default";
            var old_ := if network.Some? then network.value else if known.Some? then known.value else ".";
            && (o == Err(InvalidNetworkName) <==> network.Some? && ':' in network.value)
            && (o == Err(DuplicateEntry) <==>
                  && (network.Some? ==> ':' !in network.value) && !overwrite
                  && (nick in c.keys || old_ + ":" + nickname in c.entries || nick + "@" + net in c.entries))
            && (o.Err? ==> d == c && (o.error == InvalidNetworkName || o.error == DuplicateEntry))
            && (o.Ok? ==>
                  && d.entries == c.entries[nick + "@" + net := Entry(Some(l.encode(key)), Some(now), Some(isExchange))]
                  && d.nickNetworks == c.nickNetworks[nick := if network.Some? then network.value
                                                              else if current.Some? then current.value else "default"]
                  && d.keys == c.keys && d.keyTtl == c.keyTtl)
  {
  }

  /** Setting a key changes no lookup of another nick, in any network. */
  lemma SetLeavesOthers(l: Lib, c: Config, nickname: string, key: Key, net: string, overwrite: bool, isExchange: bool,
                        current: Option<string>, set_: int, other: string, asked: Option<string>, now: int,
                        r: Result<Key, Error>)
    requires '@' !in l.normalize(nickname) && '@' !in l.normalize(other) && l.normalize(other) != l.normalize(nickname)
    ensures var d := KeySet(l, c, nickname, key, Some(net), overwrite, isExchange, current, set_).0;
            MayReturn(l, d, other, asked, now, r) <==> MayReturn(l, c, other, asked, now, r)
  {
    var d := KeySet(l, c, nickname, key, Some(net), overwrite, isExchange, current, set_).0;
    var nick, nick2 := l.normalize(nickname), l.normalize(other);
    forall name | nick2 + "@" <= name
      ensures HasKey(d, name) == HasKey(c, name) && (HasKey(c, name) ==> d.entries[name] == c.entries[name])
    {
      if name == EntryKey(nick, net) {
        PrefixOfOther(nick, net, nick2);
      }
    }
    SameCandidates(l, c, d, other, asked, now, r);
  }

  /** Lookups depend only on the entries that bear the nick's name, its network and the lifetime. */
  lemma SameCandidates(l: Lib, c: Config, d: Config, nickname: string, asked: Option<string>, now: int,
                       r: Result<Key, Error>)
    requires var nick := l.normalize(nickname);
             && NetworkOf(c, nick, asked) == NetworkOf(d, nick, asked) && EffectiveTtl(c) == EffectiveTtl(d)
             && forall name :: nick + "@" <= name ==>
                  HasKey(d, name) == HasKey(c, name) && (HasKey(c, name) ==> d.entries[name] == c.entries[name])
    ensures MayReturn(l, d, nickname, asked, now, r) <==> MayReturn(l, c, nickname, asked, now, r)
  {
    var nick := l.normalize(nickname);
    assert forall name :: Candidate(d, nick, name) <==> Candidate(c, nick, name);
    assert nick + "@" <= EntryKey(nick, NetworkOf(c, nick, asked)) && nick + "@" <= EntryKey(nick, DEFAULT);
  }

  /**
   With a lifetime the setter takes, the check deletes nothing that a lookup in the same network would
   still return: what it deletes, a lookup reports as expired.
   */
  lemma DeletesOnlyExpired(l: Lib, c: Config, nickname: string, net: string, current: Option<string>, now: int,
                           r: Result<Key, Error>)
    requires c.keyTtl.Some? ==> 3600 <= c.keyTtl.value <= 604800
    requires ExpiryChecked(l, c, nickname, Some(net), current, now).0 != c
    requires HasKey(c, EntryKey(l.normalize(nickname), net)) && MayReturn(l, c, nickname, Some(net), now, r)
    ensures r == Err(KeyExpired)
  {
  }

  /**
   Exactly which lifetimes are safe in this sense: a configuration file may hold larger ones than the
   setter takes, and from two seconds above seven days on the check deletes keys that lookups still return.
   */
  lemma ExpirySafeIff(c: Config)
    ensures (forall e: Entry, now: int :: IsDeletable(c, e, now) ==> LooksExpired(c, e, now))
       <==> EffectiveTtl(c) <= 604801
  {
    if EffectiveTtl(c) > MAX_KEY_TTL + 1 {
      var e := Entry(None, Some(0), Some(true));
      var now := MAX_KEY_TTL + GRACE_PERIOD + 1;
      assert IsDeletable(c, e, now) && !LooksExpired(c, e, now);
    }
  }

  // An expired key that is deleted takes the nick's known network with it.

  /** The check never changes a lookup of another nick. */
  lemma ExpiryLeavesOthers(l: Lib, c: Config, nickname: string, network: Option<string>, current: Option<string>,
                           now: int, other: string, asked: Option<string>, later: int, r: Result<Key, Error>)
    requires '@' !in l.normalize(nickname) && '@' !in l.normalize(other) && l.normalize(other) != l.normalize(nickname)
    ensures var d := ExpiryChecked(l, c, nickname, network, current, now).0;
            MayReturn(l, d, other, asked, later, r) <==> MayReturn(l, c, other, asked, later, r)
  {
    var d := ExpiryChecked(l, c, nickname, network, current, now).0;
    var nick, nick2, net := l.normalize(nickname), l.normalize(other), SimpleNetwork(network, current);
    forall name | nick2 + "@" <= name
      ensures HasKey(d, name) == HasKey(c, name) && (HasKey(c, name) ==> d.entries[name] == c.entries[name])
    {
      if name == EntryKey(nick, net) {
        PrefixOfOther(nick, net, nick2);
      }
    }
    SameCandidates(l, c, d, other, asked, later, r);
  }

  /** A lookup in one network falls back on the entry of another, and nothing else answers the same. */
  ghost predicate Leans(l: Lib, c: Config, nick: string, asked: string, net: string, later: int) {
    var name := EntryKey(nick, net);
    && HasKey(c, name) && !HasKey(c, EntryKey(nick, asked))
    && (net == DEFAULT || (asked == DEFAULT &&
        forall n | Candidate(c, nick, n) && n != name ::
          OfEntry(l, c, c.entries[n], later) != OfEntry(l, c, c.entries[name], later)))
  }

  ghost predicate SameAnswers(l: Lib, c: Config, d: Config, nickname: string, asked: Option<string>, now: int) {
    forall r :: MayReturn(l, d, nickname, asked, now, r) <==> MayReturn(l, c, nickname, asked, now, r)
  }

  /** d is c without one entry, and without what is known of the nick. */
  ghost predicate Dropped(c: Config, d: Config, nick: string, name: string) {
    d == c.(entries := c.entries - {name}, keys := c.keys - {nick}, nickNetworks := c.nickNetworks - {nick})
  }

  lemma NothingTouched(l: Lib, c: Config, d: Config, nickname: string, asked: string, net: string, later: int)
    requires var nick := l.normalize(nickname);
             && Dropped(c, d, nick, EntryKey(nick, net))
             && (HasKey(c, EntryKey(nick, asked)) || !HasKey(c, EntryKey(nick, net)))
    requires asked != net
    ensures SameAnswers(l, c, d, nickname, Some(asked), later)
  {
    var nick := l.normalize(nickname);
    assert EntryKey(nick, asked)[|nick| + 1..] == asked && EntryKey(nick, net)[|nick| + 1..] == net;
    if !HasKey(c, EntryKey(nick, net)) {
      assert forall n :: Candidate(d, nick, n) <==> Candidate(c, nick, n);
    }
  }

  lemma DefaultTouchedIff(l: Lib, c: Config, d: Config, nickname: string, asked: string, net: string, later: int)
    requires var nick := l.normalize(nickname);
             Dropped(c, d, nick, EntryKey(nick, net)) && HasKey(c, EntryKey(nick, net))
             && !HasKey(c, EntryKey(nick, asked))
    requires asked != DEFAULT && asked != net
    ensures SameAnswers(l, c, d, nickname, Some(asked), later) <==> net != DEFAULT
  {
    var nick := l.normalize(nickname);
    var name, fallback := EntryKey(nick, net), EntryKey(nick, DEFAULT);
    if net == DEFAULT {
      var r := OfEntry(l, c, c.entries[name], later);
      assert MayReturn(l, c, nickname, Some(asked), later, r) && !MayReturn(l, d, nickname, Some(asked), later, r);
    } else {
      assert fallback[|nick| + 1..] == DEFAULT && name[|nick| + 1..] == net;
    }
  }

  lemma LastResortTouchedIff(l: Lib, c: Config, d: Config, nickname: string, net: string, later: int)
    requires var nick := l.normalize(nickname);
             Dropped(c, d, nick, EntryKey(nick, net)) && HasKey(c, EntryKey(nick, net))
             && !HasKey(c, EntryKey(nick, DEFAULT))
    requires net != DEFAULT
    ensures SameAnswers(l, c, d, nickname, Some(DEFAULT), later)
            <==> !Leans(l, c, l.normalize(nickname), DEFAULT, net, later)
  {
    var nick := l.normalize(nickname);
    var name := EntryKey(nick, net);
    var r0 := OfEntry(l, c, c.entries[name], later);
    assert forall n :: Candidate(d, nick, n) <==> Candidate(c, nick, n) && n != name;
    assert Candidate(c, nick, name);
    if Leans(l, c, nick, DEFAULT, net, later) {
      assert MayReturn(l, c, nickname, Some(DEFAULT), later, r0)
             && !MayReturn(l, d, nickname, Some(DEFAULT), later, r0);
    } else {
      var n :| Candidate(c, nick, n) && n != name && OfEntry(l, c, c.entries[n], later) == r0;
      assert Candidate(d, nick, n) && OfEntry(l, d, d.entries[n], later) == r0;
    }
  }

  /**
   When the check deletes a key, a lookup of the same nick in another network answers as before exactly
   if it did not lean on the deleted entry. Without a network it is then a lookup in the default one.
   */
  lemma ExpiryTouchesNetworkIff(l: Lib, c: Config, nickname: string, network: Option<string>, current: Option<string>,
                                now: int, asked: string, later: int)
    requires ExpiryChecked(l, c, nickname, network, current, now).1 == Err(KeyExpired)
    requires asked != SimpleNetwork(network, current)
    ensures var d := ExpiryChecked(l, c, nickname, network, current, now).0;
            && (SameAnswers(l, c, d, nickname, Some(asked), later)
                <==> !Leans(l, c, l.normalize(nickname), asked, SimpleNetwork(network, current), later))
            && forall r ::
                 MayReturn(l, d, nickname, None, later, r) <==> MayReturn(l, d, nickname, Some(DEFAULT), later, r)
  {
    var d := ExpiryChecked(l, c, nickname, network, current, now).0;
    var nick, net := l.normalize(nickname), SimpleNetwork(network, current);
    var name := EntryKey(nick, net);
    assert Dropped(c, d, nick, name);
    if HasKey(c, EntryKey(nick, asked)) || !HasKey(c, name) {
      NothingTouched(l, c, d, nickname, asked, net, later);
    } else if asked != DEFAULT {
      DefaultTouchedIff(l, c, d, nickname, asked, net, later);
    } else {
      LastResortTouchedIff(l, c, d, nickname, net, later);
    }
  }

  /**
   After an overwriting set, the check deletes the entry exactly when the key was exchanged and is older than
   the lifetime, brought between an hour and seven days, and the five minutes of grace; until then it changes
   nothing.
   */
  lemma ExpiryCheckIff(l: Lib, c: Config, nickname: string, key: Key, net: string, isExchange: bool,
                       current: Option<string>, set_: int, spelling: string, current2: Option<string>, now: int)
    requires ':' !in net && l.normalize(spelling) == l.normalize(nickname)
    ensures var d := KeySet(l, c, nickname, key, Some(net), true, isExchange, current, set_).0;
            var (e, o) := ExpiryChecked(l, d, spelling, Some(net), current2, now);
            var ttl := if c.keyTtl.Some? then c.keyTtl.value else 86400;
            var lifetime := if ttl < 3600 then 3600 else if ttl > 604800 then 604800 else ttl;
            if isExchange && now - set_ > lifetime + 300
            then
              var nick := l.normalize(nickname);
              && o == Err(KeyExpired)
              && e == d.(entries := d.entries - {nick + "@" + net}, keys := d.keys - {nick},
                         nickNetworks := d.nickNetworks - {nick})
            else o == Ok(()) && e == d
  {
    var d := KeySet(l, c, nickname, key, Some(net), true, isExchange, current, set_).0;
    assert d.entries[EntryKey(l.normalize(nickname), net)] == Entry(Some(l.encode(key)), Some(set_), Some(isExchange));
  }

  /** Deleting takes back what setting a fresh key added, and leaves every other entry alone. */
  lemma DeleteUndoesSet(l: Lib, c: Config, nickname: string, key: Key, net: string, isExchange: bool,
                        current: Option<string>, now: int)
    requires ':' !in net && EntryKey(l.normalize(nickname), net) !in c.entries && l.normalize(nickname) !in c.keys
    ensures var d := KeySet(l, c, nickname, key, Some(net), true, isExchange, current, now).0;
            && KeyDeleted(l, d, nickname, Some(net)).0 == d.(entries := c.entries)
            && KeyDeleted(l, d, nickname, Some(net)).1 == Ok(())
  {
    var nick := l.normalize(nickname);
    var d := KeySet(l, c, nickname, key, Some(net), true, isExchange, current, now).0;
    var name := EntryKey(nick, net);
    assert d.entries - {name} == c.entries;
    assert d.keys - {nick} == c.keys;
  }

  /**
   A deleted key is not found again in its network, unless in the default one; without a network the nick's
   own is forgotten.
   */
  lemma DeletedIsGone(l: Lib, c: Config, nickname: string, network: Option<string>)
    ensures var (d, o) := KeyDeleted(l, c, nickname, network);
            var nick := l.normalize(nickname);
            var net := if network.Some? then network.value
                       else if nick in c.nickNetworks then c.nickNetworks[nick] else "default";
            && (o == Ok(()) <==> nick + "@" + net in c.entries || nick in c.keys)
            && (o.Err? ==> o == Err(KeyNotFound))
            && nick + "@" + net !in d.entries && nick !in d.keys
            && (forall name :: name != nick + "@" + net ==>
                  && (name in d.entries <==> name in c.entries)
                  && (name in c.entries ==> d.entries[name] == c.entries[name]))
            && d.nickNetworks == (if network == None then c.nickNetworks - {nick} else c.nickNetworks)
  {
  }
}
