/** The authenticated cipher, the key derivation and the base64 library, opaque; only these laws are used. */
module RatchetSuite {
  import opened Wrappers
  import opened Bytes

  const KEY_LEN: nat := 32
  const NONCE_LEN: nat := 24
  const TAG_LEN: nat := 16
  const MAX_MESSAGE_SIZE: nat := 4096

  datatype RawSuite = RawSuite(
    seal: (bytes, bytes, bytes, bytes) -> bytes,
    open: (bytes, bytes, bytes, bytes) -> Option<bytes>,
    derive: (bytes, bytes, bytes) -> bytes,
    b64enc: bytes -> bytes,
    b64dec: bytes -> Option<bytes>)

  ghost predicate Lawful(s: RawSuite) {
    && (forall k, n, m, a {:trigger s.seal(k, n, m, a)} :: |s.seal(k, n, m, a)| == |m| + TAG_LEN)
    && (forall k, n, m, a {:trigger s.seal(k, n, m, a)} :: s.open(k, n, s.seal(k, n, m, a), a) == Some(m))
    && (forall k, n, c {:trigger s.derive(k, n, c)} :: |s.derive(k, n, c)| == KEY_LEN)
    && (forall x {:trigger s.b64enc(x)} :: s.b64dec(s.b64enc(x)) == Some(x))
  }

  type Suite = s: RawSuite | Lawful(s) ghost witness PlainSuite()

  ghost function PlainSuite(): (s: RawSuite)
    ensures Lawful(s)
  {
    var s := RawSuite((_, _, m, _) => m + Zeros(TAG_LEN),
                      (_, _, c, _) => if |c| >= TAG_LEN then Some(c[..|c| - TAG_LEN]) else None,
                      (_, _, _) => Zeros(KEY_LEN), x => x, x => Some(x));
    forall k, n, m, a ensures s.open(k, n, s.seal(k, n, m, a), a) == Some(m) {
      assert (m + Zeros(TAG_LEN))[..|m|] == m;
    }
    s
  }

  /** The text of a message: nonce and ciphertext in base64. Empty and oversized messages are refused. */
  function Encrypted(s: Suite, key: bytes, m: bytes, nonce: bytes, ad: bytes): Option<bytes> {
    if m == [] || |m| > MAX_MESSAGE_SIZE then None else Some(s.b64enc(nonce + s.seal(key, nonce, m, ad)))
  }

  function Decrypted(s: Suite, key: bytes, text: bytes, ad: bytes): Option<bytes> {
    match s.b64dec(text)
    case None => None
    case Some(data) =>
      if |data| > MAX_MESSAGE_SIZE + TAG_LEN + NONCE_LEN || |data| <= NONCE_LEN then None
      else s.open(key, data[..NONCE_LEN], data[NONCE_LEN..], ad)
  }

  /** What a key makes of a text sealed under any key: the size limits never get in the way. */
  lemma DecryptedSealed(s: Suite, key: bytes, other: bytes, m: bytes, nonce: bytes, ad: bytes)
    requires |nonce| == NONCE_LEN && Encrypted(s, key, m, nonce, ad).Some?
    ensures var text := Encrypted(s, key, m, nonce, ad).value;
            Decrypted(s, other, text, ad) == s.open(other, nonce, s.seal(key, nonce, m, ad), ad)
  {
    var data := nonce + s.seal(key, nonce, m, ad);
    assert data[..NONCE_LEN] == nonce && data[NONCE_LEN..] == s.seal(key, nonce, m, ad);
  }
}

/** The symmetric ratchet of a channel, its window of old keys, and the cache of nonces. */
module Ratchet {
  import opened Wrappers
  import opened Bytes
  import opened Blobs
  import opened Counting
  import opened RatchetSuite

  const MAX_PREVIOUS_KEYS: nat := 5
  const MAX_NONCE_CACHE_SIZE: nat := 100

  datatype State = State(key: bytes, epoch: nat, previous: seq<bytes>)

  function Initial(key: bytes): State {
    State(key, 0, [])
  }

  function Advanced(s: State, next: bytes): State {
    State(next, s.epoch + 1, (if |s.previous| == MAX_PREVIOUS_KEYS then s.previous[1..] else s.previous) + [s.key])
  }

  class RatchetState {
    var currentKey: bytes
    var epoch: nat
    var previousKeys: seq<bytes>

    function Value(): State
      reads this
    {
      State(currentKey, epoch, previousKeys)
    }

    constructor (initialKey: bytes)
      ensures Value() == Initial(initialKey)
    {
      currentKey, epoch, previousKeys := initialKey, 0, [];
    }

    method Advance(nextKey: bytes)
      modifies this
      ensures Value() == Advanced(old(Value()), nextKey)
    {
      if |previousKeys| == MAX_PREVIOUS_KEYS {
        previousKeys := previousKeys[1..];
      }
      previousKeys := previousKeys + [currentKey];
      currentKey := nextKey;
      epoch := epoch + 1;
    }
  }

  /** The cache after a nonce has been offered to it. */
  function Cached(cache: seq<bytes>, nonce: bytes): seq<bytes> {
    if nonce in cache then cache
    else (if |cache| == MAX_NONCE_CACHE_SIZE then cache[1..] else cache) + [nonce]
  }

  class NonceCache {
    var recentNonces: seq<bytes>

    constructor ()
      ensures recentNonces == []
    {
      recentNonces := [];
    }

    method CheckAndAdd(nonce: bytes) returns (duplicate: bool)
      modifies this
      ensures duplicate == (nonce in old(recentNonces))
      ensures recentNonces == Cached(old(recentNonces), nonce)
    {
      if nonce in recentNonces {
        return true;
      }
      if |recentNonces| == MAX_NONCE_CACHE_SIZE {
        recentNonces := recentNonces[1..];
      }
      recentNonces := recentNonces + [nonce];
      return false;
    }
  }

  // ---- sending ----

  /** An outgoing message under the current key; the nonce read back from the text moves the ratchet on. */
  function Sent(s: Suite, st: State, channel: bytes, m: bytes, nonce: bytes): (State, Option<bytes>) {
    match Encrypted(s, st.key, m, nonce, channel)
    case None => (st, None)
    case Some(text) =>
      match s.b64dec(text)
      case None => (st, None)
      case Some(data) =>
        if |data| < NONCE_LEN then (st, None)
        else (Advanced(st, s.derive(st.key, data[..NONCE_LEN], channel)), Some(text))
  }

  /** Empty messages and those of more than 4096 bytes are refused; every other one is sealed under the current key. */
  lemma SentIff(s: Suite, st: State, channel: bytes, m: bytes, nonce: bytes)
    requires |nonce| == 24
    ensures Sent(s, st, channel, m, nonce) ==
              if m == [] || |m| > 4096 then (st, None)
              else (Advanced(st, s.derive(st.key, nonce, channel)),
                    Some(s.b64enc(nonce + s.seal(st.key, nonce, m, channel))))
  {
    if m != [] && |m| <= 4096 {
      assert (nonce + s.seal(st.key, nonce, m, channel))[..24] == nonce;
    }
  }

  /** The five youngest of the old keys and the current one are kept, in order; the epoch counts up. */
  lemma AdvancedKeeps(st: State, next: bytes)
    requires |st.previous| <= 5
    ensures var keys := st.previous + [st.key];
            Advanced(st, next) == State(next, st.epoch + 1, if |keys| <= 5 then keys else keys[1..])
  {
  }

  /** The cache keeps the last hundred nonces in the order in which they came. */
  lemma CachedKeeps(cache: seq<bytes>, nonce: bytes)
    requires |cache| <= 100
    ensures Cached(cache, nonce) ==
              if nonce in cache then cache
              else if |cache| < 100 then cache + [nonce] else cache[1..] + [nonce]
  {
  }

  /** What is no base64, or too short or too long to hold a nonce and a sealed message, is never opened. */
  lemma NeverOpened(s: Suite, key: bytes, text: bytes, ad: bytes)
    requires s.b64dec(text).Some? ==> |s.b64dec(text).value| <= 24 || |s.b64dec(text).value| > 4136
    ensures Decrypted(s, key, text, ad) == None
  {
  }

  method Send(s: Suite, state: RatchetState, channel: bytes, m: bytes, nonce: bytes) returns (r: Option<bytes>)
    modifies state
    ensures (state.Value(), r) == Sent(s, old(state.Value()), channel, m, nonce)
  {
    var current := state.currentKey;
    var encrypted := Encrypted(s, current, m, nonce, channel);
    if encrypted == None {
      return None;
    }
    var data := s.b64dec(encrypted.value);
    if data == None || |data.value| < NONCE_LEN {
      return None;
    }
    var next := s.derive(current, data.value[..NONCE_LEN], channel);
    state.Advance(next);
    return encrypted;
  }

  // ---- receiving ----

  datatype Receiver = Receiver(state: State, cache: seq<bytes>)
  datatype Outcome = Opened(m: bytes) | Replayed | Failed | Malformed

  /** The newest of the old keys that opens a text. */
  function OpenedByOld(s: Suite, previous: seq<bytes>, text: bytes, channel: bytes): Option<bytes> {
    if previous == [] then None
    else
      var m := Decrypted(s, previous[|previous| - 1], text, channel);
      if m.Some? then m else OpenedByOld(s, previous[..|previous| - 1], text, channel)
  }

  /** The current key first, which moves the ratchet on; then the old ones, which do not. */
  function Received(s: Suite, r: Receiver, channel: bytes, text: bytes): (Receiver, Outcome) {
    match s.b64dec(text)
    case None => (r, Malformed)
    case Some(data) =>
      if |data| < NONCE_LEN then (r, Malformed)
      else
        var nonce := data[..NONCE_LEN];
        if nonce in r.cache then (r, Replayed)
        else
          match Decrypted(s, r.state.key, text, channel)
          case Some(m) =>
            (Receiver(Advanced(r.state, s.derive(r.state.key, nonce, channel)), Cached(r.cache, nonce)), Opened(m))
          case None =>
            match OpenedByOld(s, r.state.previous, text, channel)
            case Some(m) => (r.(cache := Cached(r.cache, nonce)), Opened(m))
            case None => (r, Failed)
  }

  /** Among old keys that open a text the newest is taken, and without one that does there is nothing. */
  lemma {:induction false} NewestFirst(s: Suite, previous: seq<bytes>, text: bytes, channel: bytes, n: nat)
    requires n <= |previous| && forall j :: n <= j < |previous| ==> Decrypted(s, previous[j], text, channel) == None
    ensures n == 0 ==> OpenedByOld(s, previous, text, channel) == None
    ensures n > 0 && Decrypted(s, previous[n - 1], text, channel).Some? ==>
              OpenedByOld(s, previous, text, channel) == Decrypted(s, previous[n - 1], text, channel)
    decreases |previous|
  {
    if n < |previous| {
      NewestFirst(s, previous[..|previous| - 1], text, channel, n);
    }
    hide Decrypted;
  }

  /** Which texts are malformed or replays; only an opened one changes the receiver, and enters its nonce. */
  lemma RefusedIff(s: Suite, r: Receiver, channel: bytes, text: bytes)
    ensures var (next, o) := Received(s, r, channel, text);
            var data := s.b64dec(text);
            && (o == Malformed <==> data == None || |data.value| < 24)
            && (o == Replayed <==> data.Some? && |data.value| >= 24 && data.value[..24] in r.cache)
            && (o.Opened? ==> next.cache == Cached(r.cache, data.value[..24]))
            && (!o.Opened? ==> next == r)
  {
    hide Decrypted, OpenedByOld, Advanced, Lawful;
  }

  method Receive(s: Suite, state: RatchetState, cache: NonceCache, channel: bytes, text: bytes) returns (o: Outcome)
    modifies state, cache
    ensures (Receiver(state.Value(), cache.recentNonces), o)
         == Received(s, Receiver(old(state.Value()), old(cache.recentNonces)), channel, text)
  {
    var data := s.b64dec(text);
    if data == None || |data.value| < NONCE_LEN {
      return Malformed;
    }
    var nonce := data.value[..NONCE_LEN];
    if nonce in cache.recentNonces {
      return Replayed;
    }
    var m := Decrypted(s, state.currentKey, text, channel);
    if m.Some? {
      state.Advance(s.derive(state.currentKey, nonce, channel));
    } else {
      m := TryOld(s, state, channel, text);
      if m == None {
        return Failed;
      }
    }
    var duplicate := cache.CheckAndAdd(nonce);
    return Opened(m.value);
  }

  /** The old keys, newest first. */
  method TryOld(s: Suite, state: RatchetState, channel: bytes, text: bytes) returns (m: Option<bytes>)
    ensures m == OpenedByOld(s, state.previousKeys, text, channel)
  {
    var keys := state.previousKeys;
    while keys != []
      invariant OpenedByOld(s, keys, text, channel) == OpenedByOld(s, state.previousKeys, text, channel)
      decreases |keys|
    {
      m := Decrypted(s, keys[|keys| - 1], text, channel);
      if m.Some? {
        return;
      }
      keys := keys[..|keys| - 1];
    }
    return None;
  }

  // ---- the keys of a channel ----

  /** The key of an epoch: the initial one, derived once for every nonce before. */
  function KeyAt(s: Suite, channel: bytes, k0: bytes, nonces: seq<bytes>, e: nat): bytes
    requires e <= |nonces|
  {
    if e == 0 then k0 else s.derive(KeyAt(s, channel, k0, nonces, e - 1), nonces[e - 1], channel)
  }

  function Oldest(n: nat): nat {
    if n < MAX_PREVIOUS_KEYS then 0 else n - MAX_PREVIOUS_KEYS
  }

  /** The state of whoever has replayed the first n nonces: the keys before the current one, five at most, in order. */
  function StateAt(s: Suite, channel: bytes, k0: bytes, nonces: seq<bytes>, n: nat): (st: State)
    requires n <= |nonces|
    ensures st.key == KeyAt(s, channel, k0, nonces, n) && st.epoch == n && |st.previous| == n - Oldest(n)
    ensures forall i :: 0 <= i < |st.previous| ==> st.previous[i] == KeyAt(s, channel, k0, nonces, Oldest(n) + i)
  {
    State(KeyAt(s, channel, k0, nonces, n), n,
          seq(n - Oldest(n), i requires 0 <= i < n - Oldest(n) => KeyAt(s, channel, k0, nonces, Oldest(n) + i)))
  }

  /** Advancing by the key that the next nonce derives leads to the next state. */
  lemma AdvancedAlong(s: Suite, channel: bytes, k0: bytes, nonces: seq<bytes>, n: nat)
    requires n < |nonces|
    ensures Advanced(StateAt(s, channel, k0, nonces, n), s.derive(KeyAt(s, channel, k0, nonces, n), nonces[n], channel))
         == StateAt(s, channel, k0, nonces, n + 1)
  {
    var a := Advanced(StateAt(s, channel, k0, nonces, n),
                      s.derive(KeyAt(s, channel, k0, nonces, n), nonces[n], channel));
    var b := StateAt(s, channel, k0, nonces, n + 1);
    assert |a.previous| == |b.previous|;
    forall i | 0 <= i < |a.previous| ensures a.previous[i] == b.previous[i] {
      hide KeyAt;
    }
  }

  lemma {:induction false} KeyAtPrefix(s: Suite, channel: bytes, k0: bytes, nonces: seq<bytes>, more: seq<bytes>,
                                       e: nat)
    requires e <= |nonces| && nonces <= more
    ensures KeyAt(s, channel, k0, more, e) == KeyAt(s, channel, k0, nonces, e)
  {
    if e > 0 {
      KeyAtPrefix(s, channel, k0, nonces, more, e - 1);
    }
  }

  lemma StateAtPrefix(s: Suite, channel: bytes, k0: bytes, nonces: seq<bytes>, more: seq<bytes>, n: nat)
    requires n <= |nonces| && nonces <= more
    ensures StateAt(s, channel, k0, more, n) == StateAt(s, channel, k0, nonces, n)
  {
    var a, b := StateAt(s, channel, k0, more, n), StateAt(s, channel, k0, nonces, n);
    KeyAtPrefix(s, channel, k0, nonces, more, n);
    forall i | 0 <= i < |a.previous| ensures a.previous[i] == b.previous[i] {
      KeyAtPrefix(s, channel, k0, nonces, more, Oldest(n) + i);
    }
    hide KeyAt;
  }

  // ---- a run of outgoing messages ----

  datatype Outgoing = Outgoing(m: bytes, nonce: bytes)
  datatype Emitted = Emitted(text: bytes, m: bytes, nonce: bytes)

  function Nonces(sent: seq<Emitted>): (r: seq<bytes>)
    ensures |r| == |sent| && forall i :: 0 <= i < |sent| ==> r[i] == sent[i].nonce
  {
    seq(|sent|, i requires 0 <= i < |sent| => sent[i].nonce)
  }

  function SendAll(s: Suite, channel: bytes, k0: bytes, out: seq<Outgoing>): (State, seq<Emitted>) {
    if out == [] then (Initial(k0), [])
    else
      var (st, sent) := SendAll(s, channel, k0, out[..|out| - 1]);
      var last := out[|out| - 1];
      var (next, text) := Sent(s, st, channel, last.m, last.nonce);
      (next, if text.Some? then sent + [Emitted(text.value, last.m, last.nonce)] else sent)
  }

  /** A text that was sealed under the key of epoch e. */
  predicate Link(s: Suite, channel: bytes, k0: bytes, nonces: seq<bytes>, x: Emitted, e: nat) {
    && |x.nonce| == NONCE_LEN && e <= |nonces|
    && Encrypted(s, KeyAt(s, channel, k0, nonces, e), x.m, x.nonce, channel) == Some(x.text)
  }

  /** Every text was sealed under the key of its epoch and carries its nonce in front. */
  ghost predicate Chained(s: Suite, channel: bytes, k0: bytes, sent: seq<Emitted>) {
    forall e: nat :: e < |sent| ==> Link(s, channel, k0, Nonces(sent), sent[e], e)
  }

  lemma EncryptedFront(s: Suite, key: bytes, m: bytes, nonce: bytes, ad: bytes)
    requires |nonce| == NONCE_LEN && Encrypted(s, key, m, nonce, ad).Some?
    ensures var data := s.b64dec(Encrypted(s, key, m, nonce, ad).value);
            data.Some? && |data.value| > NONCE_LEN && data.value[..NONCE_LEN] == nonce
  {
    assert (nonce + s.seal(key, nonce, m, ad))[..NONCE_LEN] == nonce;
  }

  /**
   After any run of outgoing messages, refused ones included, replaying the nonces in front of the
   emitted texts from the initial key gives the sender's state, old keys and all.
   */
  lemma {:induction false} SenderFollowsNonces(s: Suite, channel: bytes, k0: bytes, out: seq<Outgoing>)
    requires forall i :: 0 <= i < |out| ==> |out[i].nonce| == NONCE_LEN
    ensures var (st, sent) := SendAll(s, channel, k0, out);
            && st == StateAt(s, channel, k0, Nonces(sent), |sent|)
            && Chained(s, channel, k0, sent)
  {
    if out != [] {
      var (st, sent) := SendAll(s, channel, k0, out[..|out| - 1]);
      var last := out[|out| - 1];
      SenderFollowsNonces(s, channel, k0, out[..|out| - 1]);
      var text := Encrypted(s, st.key, last.m, last.nonce, channel);
      if text.Some? {
        EncryptedFront(s, st.key, last.m, last.nonce, channel);
        var x := Emitted(text.value, last.m, last.nonce);
        hide Encrypted, StateAt, KeyAt;
        assert Link(s, channel, k0, Nonces(sent), x, |sent|);
        ChainGrows(s, channel, k0, sent, x);
        StateGrows(s, channel, k0, sent, x);
      }
    } else {
      assert StateAt(s, channel, k0, [], 0) == Initial(k0);
      assert Nonces([]) == [];
    }
  }

  lemma ChainGrows(s: Suite, channel: bytes, k0: bytes, sent: seq<Emitted>, x: Emitted)
    requires Chained(s, channel, k0, sent) && Link(s, channel, k0, Nonces(sent), x, |sent|)
    ensures Chained(s, channel, k0, sent + [x])
  {
    hide Link, Lawful;
    forall e: nat | e < |sent + [x]| ensures Link(s, channel, k0, Nonces(sent + [x]), (sent + [x])[e], e) {
      ChainGrowsAt(s, channel, k0, sent, x, e);
    }
  }

  lemma ChainGrowsAt(s: Suite, channel: bytes, k0: bytes, sent: seq<Emitted>, x: Emitted, e: nat)
    requires Chained(s, channel, k0, sent) && Link(s, channel, k0, Nonces(sent), x, |sent|) && e <= |sent|
    ensures Link(s, channel, k0, Nonces(sent + [x]), (sent + [x])[e], e)
  {
    assert Nonces(sent) <= Nonces(sent + [x]);
    assert e < |sent| ==> Link(s, channel, k0, Nonces(sent), sent[e], e);
    LinkStays(s, channel, k0, Nonces(sent), Nonces(sent + [x]), (sent + [x])[e], e);
    hide *;
  }

  lemma StateGrows(s: Suite, channel: bytes, k0: bytes, sent: seq<Emitted>, x: Emitted)
    ensures Advanced(StateAt(s, channel, k0, Nonces(sent), |sent|),
                     s.derive(KeyAt(s, channel, k0, Nonces(sent), |sent|), x.nonce, channel))
         == StateAt(s, channel, k0, Nonces(sent + [x]), |sent| + 1)
  {
    var before, after := Nonces(sent), Nonces(sent + [x]);
    assert before <= after && after[|sent|] == x.nonce;
    hide StateAt, KeyAt, Advanced, Nonces, Lawful;
    StateAtPrefix(s, channel, k0, before, after, |sent|);
    AdvancedAlong(s, channel, k0, after, |sent|);
  }

  lemma LinkStays(s: Suite, channel: bytes, k0: bytes, nonces: seq<bytes>, more: seq<bytes>, x: Emitted, e: nat)
    requires nonces <= more && Link(s, channel, k0, nonces, x, e)
    ensures Link(s, channel, k0, more, x, e)
  {
    KeyAtPrefix(s, channel, k0, nonces, more, e);
  }

  // ---- deliveries in any order ----

  /** The key of epoch i does not open this text. */
  predicate Refuses(s: Suite, channel: bytes, k0: bytes, nonces: seq<bytes>, text: bytes, i: nat)
    requires i <= |nonces|
  {
    Decrypted(s, KeyAt(s, channel, k0, nonces, i), text, channel) == None
  }

  /** No key of the run opens a message of the run that was sealed in another epoch. */
  ghost predicate NoForgery(s: Suite, channel: bytes, k0: bytes, sent: seq<Emitted>) {
    forall i: nat, e: nat ::
      i <= |sent| && e < |sent| && i != e ==> Refuses(s, channel, k0, Nonces(sent), sent[e].text, i)
  }

  ghost predicate FreshNonces(sent: seq<Emitted>) {
    forall i, j :: 0 <= i < j < |sent| ==> sent[i].nonce != sent[j].nonce
  }

  // What is asked of a run can be met, for runs of any length: with a toy cipher that puts the front of
  // the key behind the message, and keys derived by taking the nonce.

  function Front(key: bytes): (f: bytes)
    ensures |f| == TAG_LEN
  {
    if |key| >= TAG_LEN then key[..TAG_LEN] else key + Zeros(TAG_LEN - |key|)
  }

  ghost function FrontSuite(): (s: RawSuite)
    ensures Lawful(s)
  {
    var s := RawSuite((k, _, m, _) => m + Front(k),
                      (k, _, c, _) => if |c| >= TAG_LEN && c[|c| - TAG_LEN..] == Front(k) then Some(c[..|c| - TAG_LEN])
                                      else None,
                      (_, n, _) => if |n| == NONCE_LEN then n + Zeros(KEY_LEN - NONCE_LEN) else Zeros(KEY_LEN),
                      x => x, x => Some(x));
    forall k, n, m, a ensures s.open(k, n, s.seal(k, n, m, a), a) == Some(m) {
      assert (m + Front(k))[..|m|] == m && (m + Front(k))[|m|..] == Front(k);
    }
    s
  }

  function NonceAt(e: nat): (n: bytes)
    ensures |n| == NONCE_LEN
  {
    BigEndian(e + 1, TAG_LEN) + Zeros(NONCE_LEN - TAG_LEN)
  }

  lemma FrontsDiffer(i: nat, j: nat)
    requires i < Pow256(TAG_LEN) && j < Pow256(TAG_LEN) && BigEndian(i, TAG_LEN) == BigEndian(j, TAG_LEN)
    ensures i == j
  {
    BigEndianValue(i, TAG_LEN);
    BigEndianValue(j, TAG_LEN);
  }

  predicate Counted(sent: seq<Emitted>) {
    forall e :: 0 <= e < |sent| ==> sent[e].nonce == NonceAt(e)
  }

  lemma CountedMore(sent: seq<Emitted>, x: Emitted)
    requires Counted(sent) && x.nonce == NonceAt(|sent|)
    ensures Counted(sent + [x])
  {
    hide NonceAt;
  }

  lemma ToyMessage(s: Suite, channel: bytes, k0: bytes, sent: seq<Emitted>) returns (x: Emitted)
    ensures Link(s, channel, k0, Nonces(sent), x, |sent|) && x.nonce == NonceAt(|sent|)
  {
    hide KeyAt, NonceAt, Lawful;
    var text := Encrypted(s, KeyAt(s, channel, k0, Nonces(sent), |sent|), [0], NonceAt(|sent|), channel);
    x := Emitted(text.value, [0], NonceAt(|sent|));
  }

  /** A run of n messages under any suite. */
  lemma {:induction false} ToyRun(s: Suite, channel: bytes, k0: bytes, n: nat) returns (sent: seq<Emitted>)
    ensures |sent| == n && Chained(s, channel, k0, sent)
    ensures Counted(sent)
  {
    assert Chained(s, channel, k0, []);
    assert Counted([]);
    hide NonceAt, Lawful, Chained, Link, Counted;
    if n == 0 {
      sent := [];
    } else {
      var before := ToyRun(s, channel, k0, n - 1);
      var x := ToyMessage(s, channel, k0, before);
      ChainGrows(s, channel, k0, before, x);
      CountedMore(before, x);
      sent := before + [x];
    }
  }

  lemma FrontOfKey(channel: bytes, sent: seq<Emitted>, i: nat)
    requires i <= |sent| && Counted(sent)
    ensures Front(KeyAt(FrontSuite(), channel, Zeros(KEY_LEN), Nonces(sent), i)) == BigEndian(i, TAG_LEN)
  {
    if i == 0 {
      BigEndianZero(TAG_LEN);
      assert Zeros(KEY_LEN)[..TAG_LEN] == Zeros(TAG_LEN);
    } else {
      assert (NonceAt(i - 1) + Zeros(KEY_LEN - NONCE_LEN))[..TAG_LEN] == BigEndian(i, TAG_LEN);
    }
  }

  lemma {:induction false} BigEndianZero(w: nat)
    ensures BigEndian(0, w) == Zeros(w)
  {
    if w > 0 {
      BigEndianZero(w - 1);
    }
  }

  /** There are runs of every length, up to the number of fronts, with fresh nonces and without forgeries. */
  lemma RunsExist(channel: bytes, n: nat) returns (sent: seq<Emitted>)
    requires n + 1 < Pow256(TAG_LEN)
    ensures var s, k0 := FrontSuite(), Zeros(KEY_LEN);
            && |sent| == n && Chained(s, channel, k0, sent) && NoForgery(s, channel, k0, sent) && FreshNonces(sent)
  {
    var s, k0 := FrontSuite(), Zeros(KEY_LEN);
    sent := ToyRun(s, channel, k0, n);
    hide FrontSuite, Chained, Counted, Refuses, FreshNonces, Zeros, Pow256;
    ToyNoncesFresh(sent);
    forall i: nat, e: nat | i <= n && e < n && i != e ensures Refuses(s, channel, k0, Nonces(sent), sent[e].text, i) {
      ToyRefuses(channel, sent, i, e);
    }
  }

  lemma ToyNoncesFresh(sent: seq<Emitted>)
    requires |sent| < Pow256(TAG_LEN) - 1 && Counted(sent)
    ensures FreshNonces(sent)
  {
    hide Pow256, BigEndian;
    forall i, j | 0 <= i < j < |sent| ensures sent[i].nonce != sent[j].nonce {
      assert NonceAt(i)[..TAG_LEN] == BigEndian(i + 1, TAG_LEN) && NonceAt(j)[..TAG_LEN] == BigEndian(j + 1, TAG_LEN);
      if sent[i].nonce == sent[j].nonce { FrontsDiffer(i + 1, j + 1); }
    }
  }

  lemma ToyRefuses(channel: bytes, sent: seq<Emitted>, i: nat, e: nat)
    requires i <= |sent| < Pow256(TAG_LEN) && e < |sent| && i != e
             && Chained(FrontSuite(), channel, Zeros(KEY_LEN), sent)
    requires Counted(sent)
    ensures Refuses(FrontSuite(), channel, Zeros(KEY_LEN), Nonces(sent), sent[e].text, i)
  {
    var s, k0 := FrontSuite(), Zeros(KEY_LEN);
    var key, other := KeyAt(s, channel, k0, Nonces(sent), e), KeyAt(s, channel, k0, Nonces(sent), i);
    assert Link(s, channel, k0, Nonces(sent), sent[e], e);
    FrontOfKey(channel, sent, i);
    FrontOfKey(channel, sent, e);
    if Front(key) == Front(other) { FrontsDiffer(i, e); }
    DecryptedSealed(s, key, other, sent[e].m, sent[e].nonce, channel);
    hide KeyAt, Front, Encrypted, Decrypted, NonceAt, BigEndian;
    OtherFront(key, other, sent[e].m, sent[e].nonce, channel);
  }

  lemma OtherFront(key: bytes, other: bytes, m: bytes, nonce: bytes, ad: bytes)
    requires Front(key) != Front(other)
    ensures var s := FrontSuite(); s.open(other, nonce, s.seal(key, nonce, m, ad), ad) == None
  {
    assert (m + Front(key))[|m|..] == Front(key);
  }

  /** A receiver, and the epochs of the messages it has opened. */
  datatype Session = Session(r: Receiver, taken: seq<nat>)

  function Delivered(s: Suite, channel: bytes, x: Session, text: bytes, e: nat): (Session, Outcome) {
    var (r, o) := Received(s, x.r, channel, text);
    (Session(r, if o.Opened? then x.taken + [e] else x.taken), o)
  }

  /** Any order of deliveries, repeats and gaps included. */
  function Deliver(s: Suite, channel: bytes, k0: bytes, sent: seq<Emitted>, order: seq<nat>): Session
    requires forall i :: 0 <= i < |order| ==> order[i] < |sent|
  {
    if order == [] then Session(Receiver(Initial(k0), []), [])
    else
      var e := order[|order| - 1];
      Delivered(s, channel, Deliver(s, channel, k0, sent, order[..|order| - 1]), sent[e].text, e).0
  }

  /** The messages whose nonces are still cached. */
  function Recent(taken: seq<nat>): (r: seq<nat>)
    ensures |r| == if |taken| < MAX_NONCE_CACHE_SIZE then |taken| else MAX_NONCE_CACHE_SIZE
    ensures r == taken[|taken| - |r|..]
  {
    if |taken| < MAX_NONCE_CACHE_SIZE then taken else taken[|taken| - MAX_NONCE_CACHE_SIZE..]
  }

  /**
   The receiver is where the nonces it has followed put it; nothing was opened twice, or more than five
   epochs late.
   */
  ghost predicate InStep(s: Suite, channel: bytes, k0: bytes, sent: seq<Emitted>, x: Session) {
    var n := x.r.state.epoch;
    && n <= |sent| && x.r.state == StateAt(s, channel, k0, Nonces(sent), n)
    && Orderly(x.taken, n) && Caches(sent, x.r.cache, Recent(x.taken))
  }

  /** The cache holds the nonces of these messages, in order. */
  ghost predicate Caches(sent: seq<Emitted>, cache: seq<bytes>, recent: seq<nat>) {
    && |cache| == |recent|
    && forall i :: 0 <= i < |recent| ==> recent[i] < |sent| && cache[i] == sent[recent[i]].nonce
  }

  ghost predicate Orderly(taken: seq<nat>, n: nat) {
    && (forall i :: 0 <= i < |taken| ==> taken[i] < n)
    && (forall i, j :: 0 <= i < j < |taken| ==> taken[i] != taken[j] && taken[i] <= taken[j] + MAX_PREVIOUS_KEYS)
  }

  /** A message that could still be opened and was opened before is one of the last to have been opened. */
  lemma OpenedIsRecent(taken: seq<nat>, n: nat, e: nat)
    requires Orderly(taken, n) && e in taken && n <= e + MAX_PREVIOUS_KEYS
    ensures e in Recent(taken)
  {
    var p :| 0 <= p < |taken| && taken[p] == e;
    var later := taken[p + 1..];
    forall i | 0 <= i < |later| ensures e - MAX_PREVIOUS_KEYS <= later[i] < n {
      assert later[i] == taken[p + 1 + i];
    }
    DistinctInRange(later, e - MAX_PREVIOUS_KEYS, n);
    var r := Recent(taken);
    assert r[p - (|taken| - |r|)] == e;
  }

  lemma CachedIff(s: Suite, channel: bytes, k0: bytes, sent: seq<Emitted>, x: Session, e: nat)
    requires InStep(s, channel, k0, sent, x) && FreshNonces(sent) && e < |sent|
    ensures sent[e].nonce in x.r.cache <==> e in Recent(x.taken)
  {
    var r := Recent(x.taken);
    hide StateAt, Recent, Orderly;
    if sent[e].nonce in x.r.cache {
      var i :| 0 <= i < |x.r.cache| && x.r.cache[i] == sent[e].nonce;
      assert r[i] == e;
    }
    if e in r {
      var i :| 0 <= i < |r| && r[i] == e;
      assert x.r.cache[i] == sent[e].nonce;
    }
  }

  lemma {:induction false} OldOpens(s: Suite, previous: seq<bytes>, text: bytes, channel: bytes, j: nat, m: bytes)
    requires j < |previous| && Decrypted(s, previous[j], text, channel) == Some(m)
    requires forall i :: 0 <= i < |previous| && i != j ==> Decrypted(s, previous[i], text, channel) == None
    ensures OpenedByOld(s, previous, text, channel) == Some(m)
  {
    if j < |previous| - 1 {
      OldOpens(s, previous[..|previous| - 1], text, channel, j, m);
    }
  }

  lemma {:induction false} OldRefuse(s: Suite, previous: seq<bytes>, text: bytes, channel: bytes)
    requires forall i :: 0 <= i < |previous| ==> Decrypted(s, previous[i], text, channel) == None
    ensures OpenedByOld(s, previous, text, channel) == None
  {
    if previous != [] {
      OldRefuse(s, previous[..|previous| - 1], text, channel);
    }
  }

  /** The key of epoch i opens message e exactly when that is its epoch. */
  lemma KeyOpens(s: Suite, channel: bytes, k0: bytes, sent: seq<Emitted>, i: nat, e: nat)
    requires Chained(s, channel, k0, sent) && NoForgery(s, channel, k0, sent) && i <= |sent| && e < |sent|
    ensures Decrypted(s, KeyAt(s, channel, k0, Nonces(sent), i), sent[e].text, channel)
         == if e == i then Some(sent[e].m) else None
  {
    var nonces := Nonces(sent);
    if e == i {
      assert Link(s, channel, k0, nonces, sent[e], e);
      var key := KeyAt(s, channel, k0, nonces, e);
      DecryptedSealed(s, key, key, sent[e].m, sent[e].nonce, channel);
    } else {
      assert Refuses(s, channel, k0, nonces, sent[e].text, i);
    }
    hide Encrypted, Decrypted, KeyAt;
  }

  /** Which keys of a state open message e: the one of its epoch, if it is among them. */
  lemma KeysOpen(s: Suite, channel: bytes, k0: bytes, sent: seq<Emitted>, n: nat, e: nat)
    requires Chained(s, channel, k0, sent) && NoForgery(s, channel, k0, sent) && n <= |sent| && e < |sent|
    ensures var st := StateAt(s, channel, k0, Nonces(sent), n);
            && Decrypted(s, st.key, sent[e].text, channel) == (if e == n then Some(sent[e].m) else None)
            && OpenedByOld(s, st.previous, sent[e].text, channel)
               == (if n - 5 <= e < n then Some(sent[e].m) else None)
  {
    OldestIs(n);
    hide *;
    var st := StateAt(s, channel, k0, Nonces(sent), n);
    KeyOpens(s, channel, k0, sent, n, e);
    OldKeysOpen(s, channel, k0, sent, n, e);
    if Oldest(n) <= e < n {
      OldOpens(s, st.previous, sent[e].text, channel, e - Oldest(n), sent[e].m);
    } else {
      OldRefuse(s, st.previous, sent[e].text, channel);
    }
  }

  lemma OldestIs(n: nat)
    ensures Oldest(n) == (if n < 5 then 0 else n - 5)
  {
  }

  lemma OldKeysOpen(s: Suite, channel: bytes, k0: bytes, sent: seq<Emitted>, n: nat, e: nat)
    requires Chained(s, channel, k0, sent) && NoForgery(s, channel, k0, sent) && n <= |sent| && e < |sent|
    ensures var previous := StateAt(s, channel, k0, Nonces(sent), n).previous;
            forall i :: 0 <= i < |previous| ==>
              Decrypted(s, previous[i], sent[e].text, channel) == if Oldest(n) + i == e then Some(sent[e].m) else None
  {
    hide Lawful, Chained, NoForgery, Decrypted, KeyAt, StateAt;
    var previous := StateAt(s, channel, k0, Nonces(sent), n).previous;
    forall i | 0 <= i < |previous|
      ensures Decrypted(s, previous[i], sent[e].text, channel) == if Oldest(n) + i == e then Some(sent[e].m) else None
    {
      KeyOpens(s, channel, k0, sent, Oldest(n) + i, e);
    }
  }

  lemma OrderlyMore(taken: seq<nat>, n: nat, e: nat)
    requires Orderly(taken, n) && e !in taken && Oldest(n) <= e <= n
    ensures Orderly(taken + [e], if e == n then n + 1 else n)
  {
  }

  lemma CachesMore(sent: seq<Emitted>, cache: seq<bytes>, taken: seq<nat>, e: nat)
    requires Caches(sent, cache, Recent(taken)) && e < |sent| && sent[e].nonce !in cache
    ensures Caches(sent, Cached(cache, sent[e].nonce), Recent(taken + [e]))
  {
    var old_, more := Recent(taken), Recent(taken + [e]);
    if |taken| < MAX_NONCE_CACHE_SIZE {
      assert more == old_ + [e];
    } else {
      assert more == old_[1..] + [e];
    }
  }

  /**
   One delivery: message e is opened, and to what it was, exactly when it has not been opened before and
   its epoch is the receiver's or one of the five before; only a message of the receiver's own epoch moves
   the ratchet on. A repeat that could still be opened is rejected as a replay.
   */
  lemma DeliveredIff(s: Suite, channel: bytes, k0: bytes, sent: seq<Emitted>, x: Session, e: nat)
    requires Chained(s, channel, k0, sent) && NoForgery(s, channel, k0, sent) && FreshNonces(sent)
    requires InStep(s, channel, k0, sent, x) && e < |sent|
    ensures var (y, o) := Delivered(s, channel, x, sent[e].text, e);
            var n := x.r.state.epoch;
            && InStep(s, channel, k0, sent, y)
            && (o.Opened? <==> e !in x.taken && n - 5 <= e <= n)
            && (o.Opened? ==> o.m == sent[e].m && y.taken == x.taken + [e])
            && (!o.Opened? ==> y == x)
            && y.r.state.epoch == (if o.Opened? && e == n then n + 1 else n)
            && (e in x.taken && n - 5 <= e ==> o == Replayed)
  {
    var n, text, nonce := x.r.state.epoch, sent[e].text, sent[e].nonce;
    CarriesNonce(s, channel, k0, sent, e);
    CachedIff(s, channel, k0, sent, x, e);
    KeysOpen(s, channel, k0, sent, n, e);
    if e in x.taken && n <= e + MAX_PREVIOUS_KEYS {
      OpenedIsRecent(x.taken, n, e);
    }
    ReceivedBy(s, x.r, channel, text, nonce);
    OldestIs(n);
    hide Decrypted, OpenedByOld, Chained, NoForgery, FreshNonces, Received, KeyAt, Advanced, Cached;
    if nonce in x.r.cache {
      assert e in x.taken;
    } else if Oldest(n) <= e <= n {
      assert e !in x.taken;
      OrderlyMore(x.taken, n, e);
      CachesMore(sent, x.r.cache, x.taken, e);
      if e == n {
        AdvancedAlong(s, channel, k0, Nonces(sent), n);
        assert Nonces(sent)[n] == nonce
               && StateAt(s, channel, k0, Nonces(sent), n).key == KeyAt(s, channel, k0, Nonces(sent), n);
      }
    }
    hide StateAt, Orderly, Caches, Recent;
  }

  lemma CarriesNonce(s: Suite, channel: bytes, k0: bytes, sent: seq<Emitted>, e: nat)
    requires Chained(s, channel, k0, sent) && e < |sent|
    ensures var data := s.b64dec(sent[e].text);
            data.Some? && |data.value| >= NONCE_LEN && data.value[..NONCE_LEN] == sent[e].nonce
  {
    assert Link(s, channel, k0, Nonces(sent), sent[e], e);
    EncryptedFront(s, KeyAt(s, channel, k0, Nonces(sent), e), sent[e].m, sent[e].nonce, channel);
  }

  lemma ReceivedBy(s: Suite, r: Receiver, channel: bytes, text: bytes, nonce: bytes)
    requires var data := s.b64dec(text); data.Some? && |data.value| >= NONCE_LEN && data.value[..NONCE_LEN] == nonce
    ensures var m := Decrypted(s, r.state.key, text, channel);
            var old_ := OpenedByOld(s, r.state.previous, text, channel);
            Received(s, r, channel, text) ==
              if nonce in r.cache then (r, Replayed)
              else if m.Some? then
                (Receiver(Advanced(r.state, s.derive(r.state.key, nonce, channel)), Cached(r.cache, nonce)),
                  Opened(m.value))
              else if old_.Some? then (Receiver(r.state, Cached(r.cache, nonce)), Opened(old_.value))
              else (r, Failed)
  {
  }

  /** In any order of deliveries, with any gaps and repeats, the receiver stays in step and opens no message twice. */
  lemma {:induction false} AnyOrder(s: Suite, channel: bytes, k0: bytes, sent: seq<Emitted>, order: seq<nat>)
    requires Chained(s, channel, k0, sent) && NoForgery(s, channel, k0, sent) && FreshNonces(sent)
    requires forall i :: 0 <= i < |order| ==> order[i] < |sent|
    ensures var x := Deliver(s, channel, k0, sent, order);
            && InStep(s, channel, k0, sent, x)
            && forall i, j :: 0 <= i < j < |x.taken| ==> x.taken[i] != x.taken[j]
  {
    if order == [] {
      assert StateAt(s, channel, k0, Nonces(sent), 0) == Initial(k0);
    } else {
      var before, e := order[..|order| - 1], order[|order| - 1];
      AnyOrder(s, channel, k0, sent, before);
      DeliveredIff(s, channel, k0, sent, Deliver(s, channel, k0, sent, before), e);
      hide Chained, NoForgery, FreshNonces, Delivered, StateAt;
    }
  }

  function Upto(n: nat): (r: seq<nat>)
    ensures |r| == n && forall i :: 0 <= i < n ==> r[i] == i
  {
    if n == 0 then [] else Upto(n - 1) + [n - 1]
  }

  /** The last of the first n deliveries. */
  lemma DeliverUpto(s: Suite, channel: bytes, k0: bytes, sent: seq<Emitted>, n: nat)
    requires 0 < n <= |sent|
    ensures Deliver(s, channel, k0, sent, Upto(n))
         == Delivered(s, channel, Deliver(s, channel, k0, sent, Upto(n - 1)), sent[n - 1].text, n - 1).0
  {
    assert Upto(n)[..n - 1] == Upto(n - 1);
    hide Delivered, Lawful;
  }

  /** A receiver that has opened the first n messages and nothing else opens the next one. */
  lemma NextInOrder(s: Suite, channel: bytes, k0: bytes, sent: seq<Emitted>, n: nat, x: Session)
    requires Chained(s, channel, k0, sent) && NoForgery(s, channel, k0, sent) && FreshNonces(sent) && n < |sent|
    requires InStep(s, channel, k0, sent, x) && x.r.state == StateAt(s, channel, k0, Nonces(sent), n)
             && x.taken == Upto(n)
    ensures var y := Delivered(s, channel, x, sent[n].text, n).0;
            y.r.state == StateAt(s, channel, k0, Nonces(sent), n + 1) && y.taken == Upto(n) + [n]
  {
    DeliveredIff(s, channel, k0, sent, x, n);
    hide Chained, NoForgery, FreshNonces, Delivered, KeyAt;
  }

  lemma OneMoreInOrder(s: Suite, channel: bytes, k0: bytes, sent: seq<Emitted>, n: nat)
    requires Chained(s, channel, k0, sent) && NoForgery(s, channel, k0, sent) && FreshNonces(sent) && n < |sent|
    requires var x := Deliver(s, channel, k0, sent, Upto(n));
             x.r.state == StateAt(s, channel, k0, Nonces(sent), n) && x.taken == Upto(n)
    ensures var y := Deliver(s, channel, k0, sent, Upto(n + 1));
            y.r.state == StateAt(s, channel, k0, Nonces(sent), n + 1) && y.taken == Upto(n + 1)
  {
    hide Chained, NoForgery, FreshNonces, Delivered, Deliver, StateAt, InStep, Nonces;
    AnyOrder(s, channel, k0, sent, Upto(n));
    DeliverUpto(s, channel, k0, sent, n + 1);
    NextInOrder(s, channel, k0, sent, n, Deliver(s, channel, k0, sent, Upto(n)));
  }

  /** Delivered in order, every message is opened, and the receiver ends in the sender's state. */
  lemma {:induction false} InOrder(s: Suite, channel: bytes, k0: bytes, sent: seq<Emitted>, n: nat)
    requires Chained(s, channel, k0, sent) && NoForgery(s, channel, k0, sent) && FreshNonces(sent) && n <= |sent|
    ensures var x := Deliver(s, channel, k0, sent, Upto(n));
            x.r.state == StateAt(s, channel, k0, Nonces(sent), n) && x.taken == Upto(n)
  {
    if n == 0 {
      NothingDelivered(s, channel, k0, sent);
    } else {
      InOrder(s, channel, k0, sent, n - 1);
      OneMoreInOrder(s, channel, k0, sent, n - 1);
    }
    hide *;
  }

  lemma NothingDelivered(s: Suite, channel: bytes, k0: bytes, sent: seq<Emitted>)
    ensures var x := Deliver(s, channel, k0, sent, Upto(0));
            x.r.state == StateAt(s, channel, k0, Nonces(sent), 0) && x.taken == Upto(0)
  {
    assert StateAt(s, channel, k0, Nonces(sent), 0) == Initial(k0);
  }
}
