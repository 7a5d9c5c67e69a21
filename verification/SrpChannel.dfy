/** Channel traffic after the exchange: Dave packs texts and new keys, a member unpacks them in order. */
module SrpChannel {
  import opened Wrappers
  import opened Bytes
  import opened SrpSuite
  import opened SrpPrimitives
  import opened SrpSpec
  import opened ZeroPadding

  type Stamp = t: bytes | |t| == 4 witness Zeros(4)
  type Iv = t: bytes | |t| == 16 witness Zeros(16)

  datatype Post = Say(text: bytes, times: Stamp, iv: Iv) | Rekey(key: bytes, times: Stamp, iv: Iv)

  function DavePosts(s: Suite, d: Ctx, p: Post): (Ctx, Outcome) {
    match p
    case Say(text, times, iv) => (d, Pack(s, d, text, times, iv))
    case Rekey(key, times, iv) => SetKey(s, d, key, times, iv)
  }

  /** Dave after a run of posts. */
  function DaveAfter(s: Suite, d: Ctx, posts: seq<Post>): Ctx {
    if posts == [] then d
    else DavePosts(s, DaveAfter(s, d, posts[..|posts| - 1]), posts[|posts| - 1]).0
  }

  /** The member after she has unpacked everything that Dave sent during a run of posts. */
  function MemberAfter(s: Suite, d: Ctx, m: Ctx, posts: seq<Post>): Ctx
    decreases |posts|, 1
  {
    if posts == [] then m else MemberReads(s, d, m, posts).0
  }

  /** What the member makes of the last post of a run. */
  function MemberReads(s: Suite, d: Ctx, m: Ctx, posts: seq<Post>): (Ctx, Outcome)
    requires posts != []
    decreases |posts|, 0
  {
    var before := posts[..|posts| - 1];
    var sent := DavePosts(s, DaveAfter(s, d, before), posts[|posts| - 1]).1;
    var member := MemberAfter(s, d, m, before);
    if sent.Reply? then Unpack(s, member, sent.text) else (member, sent)
  }

  ghost predicate SameKeys(d: Ctx, m: Ctx) {
    m.sessionkey == d.sessionkey && m.mackey == d.mackey && m.cipher == d.cipher
  }

  ghost predicate IsDave(d: Ctx) {
    d.users.Some? && d.cipher.Some? && |d.username| < 256
  }

  /** Texts that are not mistaken for keys, and keys that the zero padding does not shorten. */
  predicate Deliverable(p: Post) {
    match p
    case Say(text, _, _) => !(KEYMARK <= text)
    case Rekey(key, _, _) => |key| == 64 && key[63] != 0
  }

  // ---- what unpacking sees of a packed text ----

  lemma StripKeepsStart(b: bytes, n: nat)
    requires b != [] && b[0] != 0
    ensures Strip(b + Zeros(n)) == TrimZeros(b)
  {
    TrimPadded(b, n);
  }

  /** Unpacking under the keys of the packer gets to the padded text without its padding. */
  lemma UnpackReaches(s: Suite, d: Ctx, m: Ctx, text: bytes, times: Stamp, iv: Iv)
    requires IsDave(d) && SameKeys(d, m)
    ensures var packed := Pack(s, d, text, times, iv);
            packed.Reply? && Unpack(s, m, packed.text) == Deliver(m, TrimZeros(Header(d.username, times) + text))
  {
    var body := Header(d.username, times) + text;
    var padded := Padded(body, 16);
    assert body[0] == LETTER_M;
    StripKeepsStart(body, PadLen(|body|, 16));
    CbcRoundTrip(s, d.cipher.value, iv, padded);
    hide CbcSeal, CbcOpen, Strip, TrimZeros, Deliver, Header, Padded;
    var sealed := CbcSeal(s, d.cipher.value, iv, padded);
    var mac := s.hmac(d.mackey, sealed);
    SplitMac(mac, sealed, s.b64enc(mac + sealed));
  }

  lemma SplitMac(mac: bytes, sealed: bytes, coded: bytes)
    requires |mac| == 16
    ensures Take(mac + sealed, 16) == mac && Drop(mac + sealed, 16) == sealed && mac + sealed != []
    ensures ([STAR] + coded)[1..] == coded
  {
  }

  /** The header is skipped by its own length field. */
  lemma DeliverAfterHeader(m: Ctx, username: bytes, times: Stamp, t: bytes)
    requires |username| < 256
    ensures Deliver(m, Header(username, times) + t)
         == if KEYMARK <= t then
              if |t| != 68 then (m, Raised(MalformedError)) else (Adopt(m, t[4..36], t[36..]), NoAnswer)
            else (m, Plain(t))
  {
    var plain := Header(username, times) + t;
    assert plain[1] == Chr(|username|);
    assert Drop(plain, 6 + |username|) == t;
    assert |Take(Drop(plain, 2 + |username|), 4)| == 4;
    if |t| == 68 {
      assert t[4..][..32] == t[4..36] && t[4..][32..] == t[36..];
    }
  }

  /** The zero bytes at the end of a text are lost in the padding; the header survives in front of the rest. */
  lemma TrimBehindHeader(h: bytes, text: bytes)
    requires TrimZeros(text) != [] || h == [] || h[|h| - 1] != 0
    ensures TrimZeros(h + text) == h + TrimZeros(text)
  {
    TrimUnique(h + text, h + TrimZeros(text));
  }

  lemma TrimKeepsMark(text: bytes)
    ensures KEYMARK <= TrimZeros(text) <==> KEYMARK <= text
  {
    if KEYMARK <= text {
      assert text[3] == KEYMARK[3];
    }
  }

  /** What comes out for a text: the text without its trailing zero bytes, as long as the time stamp is left whole. */
  function Heard(text: bytes, times: Stamp): Option<bytes> {
    if TrimZeros(text) != [] || times[3] != 0 then Some(TrimZeros(text)) else None
  }

  lemma SayHeard(s: Suite, d: Ctx, m: Ctx, text: bytes, times: Stamp, iv: Iv)
    requires IsDave(d) && SameKeys(d, m) && !(KEYMARK <= text)
    ensures var packed := Pack(s, d, text, times, iv);
            packed.Reply? && var (m2, out) := Unpack(s, m, packed.text);
            && m2 == m
            && (Heard(text, times).Some? ==> out == Plain(Heard(text, times).value))
            && (Heard(text, times).None? ==> out.Raised?)
  {
    UnpackReaches(s, d, m, text, times, iv);
    hide Pack, Unpack;
    var h := Header(d.username, times);
    assert h[|h| - 1] == times[3];
    if Heard(text, times).Some? {
      TrimBehindHeader(h, text);
      TrimKeepsMark(text);
      DeliverAfterHeader(m, d.username, times, TrimZeros(text));
    } else {
      TruncatedHeader(m, d.username, times, text);
    }
  }

  /** Without a text and with a time stamp ending in zero, the padding is taken for part of the stamp. */
  lemma TruncatedHeader(m: Ctx, username: bytes, times: Stamp, text: bytes)
    requires |username| < 256 && TrimZeros(text) == [] && times[3] == 0
    ensures var (m2, out) := Deliver(m, TrimZeros(Header(username, times) + text));
            m2 == m && out.Raised?
  {
    var h := Header(username, times);
    TrimUnique(h + text, TrimZeros(h));
    var plain := TrimZeros(h);
    assert plain[0..] == h[..|plain|];
    assert |plain| < |h| by {
      if plain == h { assert h[|h| - 1] == 0; }
    }
    if |plain| >= 2 {
      assert plain[1] == h[1] == Chr(|username|);
    }
  }

  /**
   A text comes back exactly if and only if its last byte survives: it is not zero, or for an empty text the
   stamp's last byte is not.
   */
  lemma SayExactlyIff(s: Suite, d: Ctx, m: Ctx, text: bytes, times: Stamp, iv: Iv)
    requires IsDave(d) && SameKeys(d, m) && !(KEYMARK <= text)
    ensures var packed := Pack(s, d, text, times, iv);
            packed.Reply? &&
            (Unpack(s, m, packed.text).1 == Plain(text)
             <==> (if text != [] then text[|text| - 1] != 0 else times[3] != 0))
  {
    SayHeard(s, d, m, text, times, iv);
    hide Pack, Unpack;
    if text != [] && text[|text| - 1] != 0 {
      TrimUnique(text, text);
    }
  }

  /** New keys arrive if and only if the last byte of the pair is not zero; otherwise the member keeps her old keys. */
  lemma RekeyFollowedIff(s: Suite, d: Ctx, m: Ctx, key: bytes, times: Stamp, iv: Iv)
    requires IsDave(d) && SameKeys(d, m) && |key| == 64
    ensures var (d2, sent) := SetKey(s, d, key, times, iv);
            sent.Reply? && var (m2, out) := Unpack(s, m, sent.text);
            && d2 == Adopt(d, key[..32], key[32..])
            && (key[63] != 0 ==> out == NoAnswer && m2 == Adopt(m, key[..32], key[32..]))
            && (key[63] == 0 ==> out == Raised(MalformedError) && m2 == m)
  {
    var text := KEYMARK + key;
    UnpackReaches(s, d, m, text, times, iv);
    hide Pack, Unpack;
    var t := TrimZeros(text);
    assert text[3] == 0x59 && text[67] == key[63];
    assert KEYMARK <= t;
    TrimBehindHeader(Header(d.username, times), text);
    DeliverAfterHeader(m, d.username, times, t);
    if key[63] != 0 {
      TrimUnique(text, text);
      assert text[4..36] == key[..32] && text[36..] == key[32..];
    }
  }

  /**
   In-order delivery. After any run of deliverable posts the member holds the keys that Dave holds,
   every text came out without its trailing zero bytes, and every key change was silent.
   */
  lemma {:induction false} MembersFollow(s: Suite, d: Ctx, m: Ctx, posts: seq<Post>)
    requires IsDave(d) && SameKeys(d, m) && forall p <- posts :: Deliverable(p)
    ensures IsDave(DaveAfter(s, d, posts)) && SameKeys(DaveAfter(s, d, posts), MemberAfter(s, d, m, posts))
    ensures posts != [] ==>
              var out := MemberReads(s, d, m, posts).1;
              match posts[|posts| - 1]
              case Say(text, times, _) =>
                if Heard(text, times).Some? then out == Plain(Heard(text, times).value) else out.Raised?
              case Rekey(_, _, _) => out == NoAnswer
  {
    if posts != [] {
      var before, p := posts[..|posts| - 1], posts[|posts| - 1];
      MembersFollow(s, d, m, before);
      var d1, m1 := DaveAfter(s, d, before), MemberAfter(s, d, m, before);
      assert Deliverable(p);
      match p
      case Say(text, times, iv) => SayHeard(s, d1, m1, text, times, iv); hide Pack, Unpack, SetKey;
      case Rekey(key, times, iv) => RekeyFollowedIff(s, d1, m1, key, times, iv); hide Pack, Unpack, SetKey;
    }
  }
}
