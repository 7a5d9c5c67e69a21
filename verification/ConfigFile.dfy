/** The configuration as sections of named values, and back. The text form of a file is not modelled. */
module ConfigFile {
  import opened Wrappers

  type Props = map<string, string>

  const I64: int := 0x8000_0000_0000_0000
  const U64: int := 0x1_0000_0000_0000_0000

  /** Case folding, and how whole numbers are written and read: what fits 64 bits with a sign is read back. */
  datatype RawLib = RawLib(lower: string -> string, show: int -> string, parse: string -> Option<int>)

  ghost predicate Lawful(l: RawLib) {
    && l.lower("KeyPair") == "keypair" && l.lower("NickNetworks") == "nicknetworks" && l.lower("FiSH11") == "fish11"
    && l.lower("Startup") == "startup" && l.lower("Keys") == "keys" && l.lower("Dates") == "dates"
    && (forall n {:trigger l.show(n)} :: l.parse(l.show(n)) == if -I64 <= n < I64 then Some(n) else None)
    && (forall s {:trigger l.parse(s)} :: l.parse(s).Some? ==> -I64 <= l.parse(s).value < I64)
  }

  type Lib = l: RawLib | Lawful(l) ghost witness UnaryLib()

  ghost function UnaryLib(): (l: RawLib)
    ensures Lawful(l)
  {
    RawLib(Folded, Unary, Counted)
  }

  ghost function Folded(s: string): string {
    if s == "KeyPair" then "keypair" else if s == "NickNetworks" then "nicknetworks" else if s == "FiSH11" then "fish11"
    else if s == "Startup" then "startup" else if s == "Keys" then "keys" else if s == "Dates" then "dates" else s
  }

  ghost function Unary(n: int): string {
    if n >= 0 then seq(n, i => '1') else seq(-n, i => '-')
  }

  ghost function Counted(s: string): Option<int> {
    if s != "" && s[0] == '-' then if |s| <= I64 then Some(-|s|) else None
    else if |s| < I64 then Some(|s|) else None
  }

  // ---- sections ----

  /** The sections in the order they were made. */
  class Ini {
    var names: seq<string>
    var sections: map<string, Props>

    function Section(name: string): Props
      reads this
    {
      SectionOf(sections, name)
    }

    ghost predicate Valid()
      reads this
    {
      forall n :: n in names <==> n in sections
    }

    constructor ()
      ensures Valid() && names == [] && sections == map[]
    {
      names, sections := [], map[];
    }

    /** Sets one value; a section that is not there yet is added at the end. */
    method Set(name: string, key: string, value: string)
      requires Valid()
      modifies this
      ensures Valid() && Section(name) == old(Section(name))[key := value]
      ensures forall n {:trigger Section(n)} :: n != name ==> Section(n) == old(Section(n))
      ensures sections.Keys == old(sections.Keys) + {name}
      ensures names == if name in old(names) then old(names) else old(names) + [name]
    {
      if name !in sections {
        names := names + [name];
        sections := sections[name := map[]];
      }
      sections := sections[name := sections[name][key := value]];
    }
  }

  // ---- the configuration ----

  datatype Entry = Entry(key: Option<string>, date: Option<string>, isExchange: Option<bool>)

  datatype Fish11 = Fish11(
    nickname: string,
    processIncoming: bool,
    processOutgoing: bool,
    plainPrefix: string,
    encryptNotice: bool,
    encryptAction: bool,
    markPosition: int,
    markEncrypted: string,
    noFish10Legacy: bool,
    keyTtl: Option<int>,
    encryptionPrefix: string,
    fishPrefix: bool)

  const FISH11_DEFAULT: Fish11 :=
    Fish11("", true, true, "+p ", false, false, 1, " 12$chr(183)", false, None, "+FiSH", false)

  /** The part of the configuration that is kept in the file. */
  datatype Config = Config(
    ourPrivateKey: Option<string>,
    ourPublicKey: Option<string>,
    nickNetworks: map<string, string>,
    fish11: Fish11,
    startupDate: Option<int>,
    entries: map<string, Entry>)

  /** The fields fit their machine types. */
  predicate Typed(c: Config) {
    && 0 <= c.fish11.markPosition < 256
    && (c.fish11.keyTtl.Some? ==> -I64 <= c.fish11.keyTtl.value < I64)
    && (c.startupDate.Some? ==> 0 <= c.startupDate.value < U64)
  }

  // ---- saving ----

  function ShowBool(b: bool): string {
    if b then "true" else "false"
  }

  function ParseBool(v: string): bool {
    v == "1" || (|v| == 4 && v[0] in "tT" && v[1] in "rR" && v[2] in "uU" && v[3] in "eE")
  }

  /** A letter without its case. */
  function LowerCase(c: char): char {
    if 'A' <= c <= 'Z' then (c as int - 'A' as int + 'a' as int) as char else c
  }

  function LowerCased(s: string): (r: string)
    ensures |r| == |s| && forall i :: 0 <= i < |s| ==> r[i] == LowerCase(s[i])
  {
    seq(|s|, i requires 0 <= i < |s| => LowerCase(s[i]))
  }

  /** True is "1" and every spelling of "true"; all else is false. Values are written in small letters. */
  lemma Booleans(v: string)
    ensures ParseBool(v) <==> v == "1" || LowerCased(v) == "true"
    ensures ShowBool(true) == "true" && ShowBool(false) == "false"
  {
    var t := "true";
    if LowerCased(v) == t {
      assert LowerCased(v)[0] == 't' && LowerCased(v)[1] == 'r' && LowerCased(v)[2] == 'u' && LowerCased(v)[3] == 'e';
    }
  }

  function KeyPairProps(c: Config): Props {
    (if c.ourPrivateKey.Some? then map["private" := c.ourPrivateKey.value] else map[])
    + (if c.ourPublicKey.Some? then map["public" := c.ourPublicKey.value] else map[])
  }

  function Fish11Props(l: Lib, f: Fish11): Props {
    var p: Props := map[
      "process_incoming" := ShowBool(f.processIncoming),
      "process_outgoing" := ShowBool(f.processOutgoing),
      "plain_prefix" := f.plainPrefix,
      "encrypt_notice" := ShowBool(f.encryptNotice),
      "encrypt_action" := ShowBool(f.encryptAction),
      "mark_position" := l.show(f.markPosition),
      "mark_encrypted" := f.markEncrypted,
      "no_fish10_legacy" := ShowBool(f.noFish10Legacy),
      "encryption_prefix" := f.encryptionPrefix,
      "fish_prefix" := ShowBool(f.fishPrefix)];
    if f.keyTtl.Some? then p["key_ttl" := l.show(f.keyTtl.value)] else p
  }

  function StartupProps(l: Lib, c: Config): Props {
    if c.startupDate.Some? then map["date" := l.show(c.startupDate.value)] else map[]
  }

  function KeysProps(entries: map<string, Entry>): Props {
    map k | k in entries && entries[k].key.Some? :: entries[k].key.value
  }

  function DatesProps(entries: map<string, Entry>): Props {
    map k | k in entries && entries[k].date.Some? :: entries[k].date.value
  }

  const SECTIONS: set<string> := {"KeyPair", "NickNetworks", "FiSH11", "Startup", "Keys", "Dates"}

  /** What a section of the saved file holds. */
  function Saved(l: Lib, c: Config, name: string): Props {
    if name == "KeyPair" then KeyPairProps(c)
    else if name == "NickNetworks" then c.nickNetworks
    else if name == "FiSH11" then Fish11Props(l, c.fish11)
    else if name == "Startup" then StartupProps(l, c)
    else if name == "Keys" then KeysProps(c.entries)
    else if name == "Dates" then DatesProps(c.entries)
    else map[]
  }

  function SectionOf(sections: map<string, Props>, name: string): Props {
    if name in sections then sections[name] else map[]
  }

  /** These sections, in some order, are what the configuration is saved as. */
  ghost predicate IsSaved(l: Lib, c: Config, names: seq<string>, sections: map<string, Props>) {
    && (forall n :: n in names <==> n in sections)
    && (forall n <- sections :: n in SECTIONS)
    && (forall n {:trigger SectionOf(sections, n)} :: SectionOf(sections, n) == Saved(l, c, n))
  }

  // ---- loading ----

  /** From the folded name of a section to its name; of two with the same folded name the later one counts. */
  function Cache(l: Lib, names: seq<string>): map<string, string> {
    if names == [] then map[]
    else Cache(l, names[..|names| - 1])[l.lower(names[|names| - 1]) := names[|names| - 1]]
  }

  function Lookup(l: Lib, names: seq<string>, sections: map<string, Props>, folded: string): Props {
    Cached(Cache(l, names), sections, folded)
  }

  function Cached(cache: map<string, string>, sections: map<string, Props>, folded: string): Props {
    if folded in cache then SectionOf(sections, cache[folded]) else map[]
  }

  function Get(p: Props, key: string): Option<string> {
    if key in p then Some(p[key]) else None
  }

  function GetBool(p: Props, key: string, default: bool): bool {
    match Get(p, key)
    case Some(v) => ParseBool(v)
    case None => default
  }

  function GetText(p: Props, key: string, default: string): string {
    match Get(p, key)
    case Some(v) => v
    case None => default
  }

  function GetNumber(l: Lib, p: Props, key: string): Option<int> {
    match Get(p, key)
    case Some(v) => l.parse(v)
    case None => None
  }

  /** Cut down to a byte. */
  function LoadedMark(l: Lib, p: Props, default: int): int {
    match GetNumber(l, p, "mark_position")
    case Some(n) => n % 256
    case None => default
  }

  function LoadedTtl(l: Lib, p: Props, default: Option<int>): Option<int> {
    match GetNumber(l, p, "key_ttl")
    case Some(n) => Some(n)
    case None => default
  }

  function LoadedFish11(l: Lib, p: Props): Fish11 {
    var d := FISH11_DEFAULT;
    Fish11(d.nickname, GetBool(p, "process_incoming", d.processIncoming),
           GetBool(p, "process_outgoing", d.processOutgoing),
           GetText(p, "plain_prefix", d.plainPrefix), GetBool(p, "encrypt_notice", d.encryptNotice),
           GetBool(p, "encrypt_action", d.encryptAction),
           LoadedMark(l, p, d.markPosition),
           GetText(p, "mark_encrypted", d.markEncrypted), GetBool(p, "no_fish10_legacy", d.noFish10Legacy),
           LoadedTtl(l, p, d.keyTtl),
           GetText(p, "encryption_prefix", d.encryptionPrefix), GetBool(p, "fish_prefix", d.fishPrefix))
  }

  function LoadedEntries(keys: Props, dates: Props): map<string, Entry> {
    map k | k in keys :: Entry(Some(keys[k]), Get(dates, k), Some(false))
  }

  /** A signed number read for the date is stored as an unsigned one. */
  function LoadedDate(l: Lib, p: Props): Option<int> {
    match GetNumber(l, p, "date")
    case Some(d) => Some(if d < 0 then d + U64 else d)
    case None => None
  }

  function Loaded(l: Lib, names: seq<string>, sections: map<string, Props>): Config {
    var keypair := Lookup(l, names, sections, "keypair");
    Config(Get(keypair, "private"), Get(keypair, "public"), Lookup(l, names, sections, "nicknetworks"),
           LoadedFish11(l, Lookup(l, names, sections, "fish11")), LoadedDate(l, Lookup(l, names, sections, "startup")),
           LoadedEntries(Lookup(l, names, sections, "keys"), Lookup(l, names, sections, "dates")))
  }

  /** Of the sections with one folded name the last one is looked at, and none is made up. */
  lemma {:induction false} LastSectionCounts(l: Lib, names: seq<string>, sections: map<string, Props>, i: nat)
    requires i < |names| && forall j :: i < j < |names| ==> l.lower(names[j]) != l.lower(names[i])
    ensures Lookup(l, names, sections, l.lower(names[i])) == SectionOf(sections, names[i])
    decreases |names|
  {
    if i < |names| - 1 {
      LastSectionCounts(l, names[..|names| - 1], sections, i);
    }
  }

  lemma {:induction false} NoSection(l: Lib, names: seq<string>, sections: map<string, Props>, folded: string)
    requires forall n <- names :: l.lower(n) != folded
    ensures Lookup(l, names, sections, folded) == map[]
  {
    if names != [] {
      NoSection(l, names[..|names| - 1], sections, folded);
    }
  }

  /** What is loaded from an empty file. */
  lemma Defaults(l: Lib)
    ensures Loaded(l, [], map[]) ==
              Config(None, None, map[],
                     Fish11("", true, true, "+p ", false, false, 1, " 12$chr(183)", false, None, "+FiSH", false),
                     None, map[])
  {
  }

  /** A mark is cut down to a byte, and a negative date wraps around at 64 bits. */
  lemma NumbersCutDown(l: Lib, p: Props, v: string, n: int)
    requires l.parse(v) == Some(n)
    ensures "mark_position" in p && p["mark_position"] == v ==> LoadedFish11(l, p).markPosition == n % 256
    ensures "key_ttl" in p && p["key_ttl"] == v ==> LoadedFish11(l, p).keyTtl == Some(n)
    ensures "date" in p && p["date"] == v ==> LoadedDate(l, p) == Some(if n < 0 then n + 0x1_0000_0000_0000_0000 else n)
  {
    hide GetBool, GetText;
  }

  // ---- round trips ----

  /** In a saved file the folded name of each of the six sections leads to it. */
  lemma {:induction false} CacheOfSaved(l: Lib, names: seq<string>, name: string)
    requires (forall n <- names :: n in SECTIONS) && name in SECTIONS
    ensures var cache := Cache(l, names);
            if name in names then l.lower(name) in cache && cache[l.lower(name)] == name else l.lower(name) !in cache
  {
    if names != [] {
      var before, last := names[..|names| - 1], names[|names| - 1];
      CacheOfSaved(l, before, name);
      assert last in names;
      assert l.lower(last) == l.lower(name) <==> last == name;
    }
  }

  lemma SavedLookup(l: Lib, c: Config, names: seq<string>, sections: map<string, Props>, name: string)
    requires IsSaved(l, c, names, sections) && name in SECTIONS
    ensures Lookup(l, names, sections, l.lower(name)) == Saved(l, c, name)
  {
    CacheOfSaved(l, names, name);
    assert SectionOf(sections, name) == Saved(l, c, name);
    hide Saved, Cache, Lawful;
  }

  /** Where the saved section holds what. */
  lemma ProcessValues(l: Lib, f: Fish11)
    ensures var p := Fish11Props(l, f);
            && Get(p, "process_incoming") == Some(ShowBool(f.processIncoming))
            && Get(p, "process_outgoing") == Some(ShowBool(f.processOutgoing))
  {
    hide Lawful, ShowBool;
  }

  lemma PrefixValues(l: Lib, f: Fish11)
    ensures var p := Fish11Props(l, f);
            && Get(p, "plain_prefix") == Some(f.plainPrefix)
            && Get(p, "encryption_prefix") == Some(f.encryptionPrefix)
            && Get(p, "fish_prefix") == Some(ShowBool(f.fishPrefix))
  {
    hide Lawful, ShowBool;
  }

  lemma EncryptValues(l: Lib, f: Fish11)
    ensures var p := Fish11Props(l, f);
            && Get(p, "encrypt_notice") == Some(ShowBool(f.encryptNotice))
            && Get(p, "encrypt_action") == Some(ShowBool(f.encryptAction))
            && Get(p, "no_fish10_legacy") == Some(ShowBool(f.noFish10Legacy))
  {
    hide Lawful, ShowBool;
  }

  lemma MarkValues(l: Lib, f: Fish11)
    ensures var p := Fish11Props(l, f);
            && Get(p, "mark_position") == Some(l.show(f.markPosition))
            && Get(p, "mark_encrypted") == Some(f.markEncrypted)
            && Get(p, "key_ttl") == if f.keyTtl.Some? then Some(l.show(f.keyTtl.value)) else None
  {
    hide Lawful, ShowBool;
  }

  lemma BoolRoundTrip(b: bool)
    ensures ParseBool(ShowBool(b)) == b
  {
  }

  lemma NumberRoundTrip(l: Lib, n: int)
    ensures l.parse(l.show(n)) == if -I64 <= n < I64 then Some(n) else None
  {
  }

  lemma Fish11RoundTrip(l: Lib, f: Fish11)
    requires 0 <= f.markPosition < 256 && (f.keyTtl.Some? ==> -I64 <= f.keyTtl.value < I64)
    ensures LoadedFish11(l, Fish11Props(l, f)) == f.(nickname := "")
  {
    LoadedProcess(l, f);
    LoadedPrefixes(l, f);
    LoadedEncrypt(l, f);
    LoadedMarks(l, f);
    hide Fish11Props, GetBool, GetText, GetNumber, Lawful;
  }

  lemma LoadedProcess(l: Lib, f: Fish11)
    ensures var g := LoadedFish11(l, Fish11Props(l, f));
            g.nickname == "" && g.processIncoming == f.processIncoming && g.processOutgoing == f.processOutgoing
  {
    ProcessValues(l, f);
    BoolRoundTrip(f.processIncoming);
    BoolRoundTrip(f.processOutgoing);
    hide ParseBool, ShowBool, Fish11Props, Lawful, Get, GetNumber, GetText;
  }

  lemma LoadedPrefixes(l: Lib, f: Fish11)
    ensures var g := LoadedFish11(l, Fish11Props(l, f));
            g.plainPrefix == f.plainPrefix && g.encryptionPrefix == f.encryptionPrefix && g.fishPrefix == f.fishPrefix
  {
    PrefixValues(l, f);
    BoolRoundTrip(f.fishPrefix);
    hide ParseBool, ShowBool, Fish11Props, Lawful, Get, GetNumber;
  }

  lemma LoadedEncrypt(l: Lib, f: Fish11)
    ensures var g := LoadedFish11(l, Fish11Props(l, f));
            && g.encryptNotice == f.encryptNotice && g.encryptAction == f.encryptAction
            && g.noFish10Legacy == f.noFish10Legacy
  {
    EncryptValues(l, f);
    BoolRoundTrip(f.encryptNotice);
    BoolRoundTrip(f.encryptAction);
    BoolRoundTrip(f.noFish10Legacy);
    hide ParseBool, ShowBool, Fish11Props, Lawful, Get, GetNumber, GetText;
  }

  lemma LoadedMarks(l: Lib, f: Fish11)
    requires 0 <= f.markPosition < 256 && (f.keyTtl.Some? ==> -I64 <= f.keyTtl.value < I64)
    ensures var g := LoadedFish11(l, Fish11Props(l, f));
            g.markPosition == f.markPosition && g.markEncrypted == f.markEncrypted && g.keyTtl == f.keyTtl
  {
    var p := Fish11Props(l, f);
    MarkValues(l, f);
    assert LoadedMark(l, p, 1) == f.markPosition by { NumberRoundTrip(l, f.markPosition); }
    assert LoadedTtl(l, p, None) == f.keyTtl by {
      if f.keyTtl.Some? { NumberRoundTrip(l, f.keyTtl.value); }
    }
    hide Fish11Props, Lawful, Get, GetBool, LoadedMark, LoadedTtl;
  }

  /** What a file cannot give back: a nickname, a date beyond 63 bits, an entry without a key, and an exchange mark. */
  predicate Keepable(c: Config) {
    && c.fish11.nickname == ""
    && (c.startupDate.Some? ==> c.startupDate.value < I64)
    && forall k <- c.entries :: c.entries[k].key.Some? && c.entries[k].isExchange == Some(false)
  }

  /** Saving and loading restores a configuration exactly when it holds nothing that a file cannot give back. */
  lemma SaveLoadIff(l: Lib, c: Config, names: seq<string>, sections: map<string, Props>)
    requires Typed(c) && IsSaved(l, c, names, sections)
    ensures Loaded(l, names, sections) == c <==> Keepable(c)
  {
    SavedLookups(l, c, names, sections);
    Fish11RoundTrip(l, c.fish11);
    EntriesIff(c.entries);
    DateIff(l, c);
    KeyPairBack(c);
    hide Lookup, Fish11Props, LoadedFish11, LoadedEntries, KeysProps, DatesProps, LoadedDate, StartupProps, IsSaved,
      KeyPairProps, Lawful, Typed;
  }

  lemma KeyPairBack(c: Config)
    ensures Get(KeyPairProps(c), "private") == c.ourPrivateKey && Get(KeyPairProps(c), "public") == c.ourPublicKey
  {
  }

  lemma SavedLookups(l: Lib, c: Config, names: seq<string>, sections: map<string, Props>)
    requires IsSaved(l, c, names, sections)
    ensures Lookup(l, names, sections, "keypair") == KeyPairProps(c)
    ensures Lookup(l, names, sections, "nicknetworks") == c.nickNetworks
    ensures Lookup(l, names, sections, "fish11") == Fish11Props(l, c.fish11)
    ensures Lookup(l, names, sections, "startup") == StartupProps(l, c)
    ensures Lookup(l, names, sections, "keys") == KeysProps(c.entries)
    ensures Lookup(l, names, sections, "dates") == DatesProps(c.entries)
  {
    SavedLookup(l, c, names, sections, "KeyPair");
    SavedLookup(l, c, names, sections, "NickNetworks");
    SavedLookup(l, c, names, sections, "FiSH11");
    SavedLookup(l, c, names, sections, "Startup");
    SavedLookup(l, c, names, sections, "Keys");
    SavedLookup(l, c, names, sections, "Dates");
    hide Lookup, IsSaved, KeyPairProps, Fish11Props, StartupProps, KeysProps, DatesProps;
  }

  lemma DateIff(l: Lib, c: Config)
    requires Typed(c)
    ensures LoadedDate(l, StartupProps(l, c)) == c.startupDate <==> (c.startupDate.Some? ==> c.startupDate.value < I64)
  {
    if c.startupDate.Some? {
      assert l.parse(l.show(c.startupDate.value)) == if c.startupDate.value < I64 then c.startupDate else None;
    }
  }

  lemma EntriesIff(entries: map<string, Entry>)
    ensures LoadedEntries(KeysProps(entries), DatesProps(entries)) == entries
       <==> forall k <- entries :: entries[k].key.Some? && entries[k].isExchange == Some(false)
  {
    var loaded := LoadedEntries(KeysProps(entries), DatesProps(entries));
    if loaded == entries {
      forall k <- entries ensures entries[k].key.Some? && entries[k].isExchange == Some(false) {
        assert k in loaded;
      }
    }
    if forall k <- entries :: entries[k].key.Some? && entries[k].isExchange == Some(false) {
      assert loaded.Keys == entries.Keys;
      forall k <- entries ensures loaded[k] == entries[k] {
      }
    }
  }

  /**
   For every file: what is loaded from it survives being saved and loaded again, exactly when its startup
   date is not a negative number.
   */
  lemma LoadSaveLoadIff(l: Lib, names: seq<string>, sections: map<string, Props>,
                        names2: seq<string>, sections2: map<string, Props>)
    requires IsSaved(l, Loaded(l, names, sections), names2, sections2)
    ensures var date := GetNumber(l, Lookup(l, names, sections, "startup"), "date");
            Loaded(l, names2, sections2) == Loaded(l, names, sections) <==> (date.Some? ==> date.value >= 0)
  {
    var c := Loaded(l, names, sections);
    LoadedIsTyped(l, names, sections);
    SaveLoadIff(l, c, names2, sections2);
    hide IsSaved, Lookup;
  }

  lemma LoadedIsTyped(l: Lib, names: seq<string>, sections: map<string, Props>)
    ensures var c := Loaded(l, names, sections);
            && Typed(c) && c.fish11.nickname == ""
            && forall k <- c.entries :: c.entries[k].key.Some? && c.entries[k].isExchange == Some(false)
  {
    hide Lookup;
  }

  // ---- the loops that save and load ----

  /** Every entry of a map into one section; the order of the lines is not kept track of. */
  method SaveAll(ini: Ini, name: string, values: map<string, string>)
    requires ini.Valid() && ini.Section(name) == map[]
    modifies ini
    ensures ini.Valid() && ini.Section(name) == values
    ensures forall n {:trigger ini.Section(n)} :: n != name ==> ini.Section(n) == old(ini.Section(n))
    ensures ini.sections.Keys <= old(ini.sections.Keys) + {name}
  {
    var rest := values.Keys;
    while rest != {}
      invariant rest <= values.Keys && ini.Valid()
      invariant ini.Section(name) == map k | k in values && k !in rest :: values[k]
      invariant forall n {:trigger ini.Section(n)} :: n != name ==> ini.Section(n) == old(ini.Section(n))
      invariant ini.sections.Keys <= old(ini.sections.Keys) + {name}
      decreases rest
    {
      var k :| k in rest;
      ini.Set(name, k, values[k]);
      rest := rest - {k};
    }
    assert ini.Section(name) == values;
  }

  method SaveEntries(ini: Ini, entries: map<string, Entry>)
    requires ini.Valid() && ini.Section("Keys") == map[] && ini.Section("Dates") == map[]
    modifies ini
    ensures ini.Valid() && ini.Section("Keys") == KeysProps(entries) && ini.Section("Dates") == DatesProps(entries)
    ensures forall n {:trigger ini.Section(n)} :: n != "Keys" && n != "Dates" ==> ini.Section(n) == old(ini.Section(n))
    ensures ini.sections.Keys <= old(ini.sections.Keys) + {"Keys", "Dates"}
  {
    var rest := entries.Keys;
    SavedNone(entries);
    hide KeysBut, DatesBut;
    while rest != {}
      invariant rest <= entries.Keys && ini.Valid()
      invariant ini.Section("Keys") == KeysBut(entries, rest) && ini.Section("Dates") == DatesBut(entries, rest)
      invariant forall n {:trigger ini.Section(n)} ::
                  n != "Keys" && n != "Dates" ==> ini.Section(n) == old(ini.Section(n))
      invariant ini.sections.Keys <= old(ini.sections.Keys) + {"Keys", "Dates"}
      decreases rest
    {
      var k :| k in rest;
      SaveEntry(ini, k, entries[k]);
      SavedMore(entries, rest, k);
      rest := rest - {k};
    }
    SavedNoneLeft(entries);
  }

  function KeysBut(entries: map<string, Entry>, rest: set<string>): Props {
    map k | k in entries && k !in rest && entries[k].key.Some? :: entries[k].key.value
  }

  function DatesBut(entries: map<string, Entry>, rest: set<string>): Props {
    map k | k in entries && k !in rest && entries[k].date.Some? :: entries[k].date.value
  }

  lemma SavedNone(entries: map<string, Entry>)
    ensures KeysBut(entries, entries.Keys) == map[] && DatesBut(entries, entries.Keys) == map[]
  {
  }

  lemma SavedNoneLeft(entries: map<string, Entry>)
    ensures KeysBut(entries, {}) == KeysProps(entries) && DatesBut(entries, {}) == DatesProps(entries)
  {
  }

  lemma SavedMore(entries: map<string, Entry>, rest: set<string>, k: string)
    requires k in rest && k in entries
    ensures KeysBut(entries, rest - {k}) ==
            if entries[k].key.Some? then KeysBut(entries, rest)[k := entries[k].key.value] else KeysBut(entries, rest)
    ensures DatesBut(entries, rest - {k}) ==
            if entries[k].date.Some? then DatesBut(entries, rest)[k := entries[k].date.value]
            else DatesBut(entries, rest)
  {
  }

  method SaveEntry(ini: Ini, k: string, e: Entry)
    requires ini.Valid()
    modifies ini
    ensures ini.Valid()
    ensures ini.Section("Keys") == if e.key.Some? then old(ini.Section("Keys"))[k := e.key.value]
            else old(ini.Section("Keys"))
    ensures ini.Section("Dates") == if e.date.Some? then old(ini.Section("Dates"))[k := e.date.value]
            else old(ini.Section("Dates"))
    ensures forall n {:trigger ini.Section(n)} :: n != "Keys" && n != "Dates" ==> ini.Section(n) == old(ini.Section(n))
    ensures ini.sections.Keys <= old(ini.sections.Keys) + {"Keys", "Dates"}
  {
    if e.key.Some? {
      ini.Set("Keys", k, e.key.value);
    }
    if e.date.Some? {
      ini.Set("Dates", k, e.date.value);
    }
  }

  method BuildSectionCache(l: Lib, names: seq<string>) returns (cache: map<string, string>)
    ensures cache == Cache(l, names)
  {
    cache := map[];
    for i := 0 to |names|
      invariant cache == Cache(l, names[..i])
    {
      cache := cache[l.lower(names[i]) := names[i]];
      assert names[..i + 1][..i] == names[..i];
    }
    assert names[..|names|] == names;
  }

  method LoadEntries(keys: Props, dates: Props) returns (entries: map<string, Entry>)
    ensures entries == LoadedEntries(keys, dates)
  {
    entries := map[];
    var rest := keys.Keys;
    while rest != {}
      invariant rest <= keys.Keys
      invariant entries == map k | k in keys && k !in rest :: Entry(Some(keys[k]), Get(dates, k), Some(false))
      decreases rest
    {
      var k :| k in rest;
      var date := if k in dates then Some(dates[k]) else None;
      entries := entries[k := Entry(Some(keys[k]), date, Some(false))];
      rest := rest - {k};
    }
    assert entries == LoadedEntries(keys, dates);
  }

  method IniToConfig(l: Lib, ini: Ini) returns (c: Config)
    requires ini.Valid()
    ensures c == Loaded(l, ini.names, ini.sections)
  {
    var cache := BuildSectionCache(l, ini.names);
    hide Cache, Cached, Lawful, LoadedFish11, LoadedDate, LoadedEntries;
    var keypair := Cached(cache, ini.sections, "keypair");
    var networks := Cached(cache, ini.sections, "nicknetworks");
    var fish11 := LoadedFish11(l, Cached(cache, ini.sections, "fish11"));
    var date := LoadedDate(l, Cached(cache, ini.sections, "startup"));
    var entries := LoadEntries(Cached(cache, ini.sections, "keys"), Cached(cache, ini.sections, "dates"));
    c := Config(Get(keypair, "private"), Get(keypair, "public"), networks, fish11, date, entries);
  }

  method SaveIdentity(ini: Ini, c: Config)
    requires ini.Valid() && ini.sections == map[]
    modifies ini
    ensures ini.Valid() && ini.sections.Keys <= {"KeyPair", "NickNetworks"}
    ensures ini.Section("KeyPair") == KeyPairProps(c) && ini.Section("NickNetworks") == c.nickNetworks
  {
    hide KeyPairProps;
    SaveAll(ini, "KeyPair", KeyPairProps(c));
    SaveAll(ini, "NickNetworks", c.nickNetworks);
  }

  method SaveSettings(ini: Ini, l: Lib, c: Config)
    requires ini.Valid() && ini.Section("FiSH11") == map[] && ini.Section("Startup") == map[]
    modifies ini
    ensures ini.Valid() && ini.sections.Keys <= old(ini.sections.Keys) + {"FiSH11", "Startup"}
    ensures ini.Section("FiSH11") == Fish11Props(l, c.fish11) && ini.Section("Startup") == StartupProps(l, c)
    ensures forall n {:trigger ini.Section(n)} ::
              n != "FiSH11" && n != "Startup" ==> ini.Section(n) == old(ini.Section(n))
  {
    hide Fish11Props, StartupProps, Lawful;
    SaveAll(ini, "FiSH11", Fish11Props(l, c.fish11));
    SaveAll(ini, "Startup", StartupProps(l, c));
  }

  /** A new file that holds the configuration. */
  method ConfigToIni(l: Lib, c: Config) returns (ini: Ini)
    ensures fresh(ini) && ini.Valid() && IsSaved(l, c, ini.names, ini.sections)
  {
    ini := new Ini();
    hide KeyPairProps, Fish11Props, StartupProps, KeysProps, DatesProps, Lawful, IsSaved;
    SaveIdentity(ini, c);
    SaveSettings(ini, l, c);
    assert ini.Section("Keys") == map[] && ini.Section("Dates") == map[];
    SaveEntries(ini, c.entries);
    assert ini.Section("KeyPair") == KeyPairProps(c) && ini.Section("NickNetworks") == c.nickNetworks;
    assert ini.Section("FiSH11") == Fish11Props(l, c.fish11) && ini.Section("Startup") == StartupProps(l, c);
    assert ini.sections.Keys <= SECTIONS;
    SavedByCases(l, c, ini.names, ini.sections);
  }

  lemma SavedNames(l: Lib, c: Config)
    ensures Saved(l, c, "KeyPair") == KeyPairProps(c) && Saved(l, c, "NickNetworks") == c.nickNetworks
    ensures Saved(l, c, "FiSH11") == Fish11Props(l, c.fish11) && Saved(l, c, "Startup") == StartupProps(l, c)
    ensures Saved(l, c, "Keys") == KeysProps(c.entries) && Saved(l, c, "Dates") == DatesProps(c.entries)
  {
    hide KeyPairProps, Fish11Props, StartupProps, KeysProps, DatesProps, Lawful;
  }

  lemma NothingElseSaved(l: Lib, c: Config, n: string)
    requires n !in SECTIONS
    ensures Saved(l, c, n) == map[]
  {
    hide KeyPairProps, Fish11Props, StartupProps, KeysProps, DatesProps, Lawful;
  }

  lemma SavedByCases(l: Lib, c: Config, names: seq<string>, sections: map<string, Props>)
    requires SectionOf(sections, "KeyPair") == KeyPairProps(c) && SectionOf(sections, "NickNetworks") == c.nickNetworks
    requires SectionOf(sections, "FiSH11") == Fish11Props(l, c.fish11)
    requires SectionOf(sections, "Startup") == StartupProps(l, c)
    requires SectionOf(sections, "Keys") == KeysProps(c.entries)
             && SectionOf(sections, "Dates") == DatesProps(c.entries)
    requires sections.Keys <= SECTIONS && forall n :: n in names <==> n in sections
    ensures IsSaved(l, c, names, sections)
  {
    SavedNames(l, c);
    hide KeyPairProps, Fish11Props, StartupProps, KeysProps, DatesProps, Lawful, Saved;
    forall n {:trigger SectionOf(sections, n)} ensures SectionOf(sections, n) == Saved(l, c, n) {
      if n !in SECTIONS { NothingElseSaved(l, c, n); }
    }
  }
}
