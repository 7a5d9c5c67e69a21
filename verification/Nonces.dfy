/** Fixed-width numbers, the nonce made from a counter, and the encrypted blob as bytes. */
module Blobs {
  import opened Wrappers
  import opened Bytes

  /** The w lowest big-endian bytes of a number. */
  function BigEndian(n: nat, w: nat): (b: bytes)
    ensures |b| == w
  {
    if w == 0 then [] else BigEndian(n / 256, w - 1) + [Chr(n % 256)]
  }

  lemma {:induction false} BigEndianValue(n: nat, w: nat)
    requires n < Pow256(w)
    ensures FromBytes(BigEndian(n, w)) == n
  {
    if w > 0 {
      BigEndianValue(n / 256, w - 1);
      hide Ord, Chr;
      FromBytesSnoc(BigEndian(n / 256, w - 1), Chr(n % 256));
    }
  }

  /** Twelve bytes, the counter in the last eight. */
  function NonceOf(counter: nat): (b: bytes)
    ensures |b| == 12
  {
    Zeros(4) + BigEndian(counter, 8)
  }

  /** Different counters give different nonces. */
  lemma NonceInjective(c: nat, d: nat)
    requires c < Pow256(8) && d < Pow256(8) && NonceOf(c) == NonceOf(d)
    ensures c == d
  {
    assert NonceOf(c)[4..] == BigEndian(c, 8) && NonceOf(d)[4..] == BigEndian(d, 8);
    BigEndianValue(c, 8);
    BigEndianValue(d, 8);
  }

  datatype EncryptedBlob = EncryptedBlob(version: byte, generation: nat, nonceCounter: nat, ciphertext: bytes)

  /** The fields fit their 32 and 64 bits. */
  predicate InRange(b: EncryptedBlob) {
    b.generation < Pow256(4) && b.nonceCounter < Pow256(8)
  }

  method ToBytes(b: EncryptedBlob) returns (r: bytes)
    ensures r == Serialized(b)
  {
    r := [];
    r := r + [b.version];
    r := r + BigEndian(b.generation, 4);
    r := r + BigEndian(b.nonceCounter, 8);
    r := r + b.ciphertext;
  }

  function Serialized(b: EncryptedBlob): bytes {
    [b.version] + BigEndian(b.generation, 4) + BigEndian(b.nonceCounter, 8) + b.ciphertext
  }

  function Parsed(data: bytes): Option<EncryptedBlob> {
    if |data| < 13 then None
    else Some(EncryptedBlob(data[0], FromBytes(data[1..5]), FromBytes(data[5..13]), data[13..]))
  }

  /** A blob survives its bytes. */
  lemma BlobRoundTrip(b: EncryptedBlob)
    requires InRange(b)
    ensures Parsed(Serialized(b)) == Some(b)
  {
    var data := Serialized(b);
    BigEndianValue(b.generation, 4);
    BigEndianValue(b.nonceCounter, 8);
    hide BigEndian, FromBytes, Pow256;
    assert data[1..5] == BigEndian(b.generation, 4);
    assert data[5..13] == BigEndian(b.nonceCounter, 8);
    assert data[13..] == b.ciphertext;
  }

  /** Bytes that can be read are exactly those of the blob they are read as. */
  lemma BytesRoundTrip(data: bytes)
    ensures Parsed(data).Some? <==> |data| >= 13
    ensures Parsed(data).Some? ==> InRange(Parsed(data).value) && Serialized(Parsed(data).value) == data
  {
    if |data| >= 13 {
      FromBytesBound(data[1..5]);
      FromBytesBound(data[5..13]);
      var b := Parsed(data).value;
      BigEndianValue(b.generation, 4);
      BigEndianValue(b.nonceCounter, 8);
      FromBytesInjective(data[1..5], BigEndian(b.generation, 4));
      FromBytesInjective(data[5..13], BigEndian(b.nonceCounter, 8));
      assert data == [data[0]] + data[1..5] + data[5..13] + data[13..];
    }
  }
}

/** Counter nonces with their sliding window, one slot a key, and the blob they travel in. */
module Nonces {
  import opened Wrappers
  import opened Bytes
  import opened Blobs

  const LIMIT: nat := 0x1_0000_0000_0000_0000
  const WINDOW: nat := 10000

  type Key = string

  /** The counter of a key and the counters that are remembered as used. */
  datatype Slot = Slot(counter: nat, used: set<nat>)

  /** Arithmetic is checked: an overflow or underflow stops the call where it happens. */
  datatype Outcome = Issued(counter: nat) | Collision | Panicked

  function Retained(used: set<nat>, least: nat): set<nat> {
    set n | n in used && n > least
  }

  function Next(s: Slot): (Slot, Outcome) {
    var c := s.counter + 1;
    if c >= LIMIT then (s, Panicked)
    else if c in s.used then (Slot(c, s.used), Collision)
    else
      var used := s.used + {c};
      if |used| <= WINDOW then (Slot(c, used), Issued(c))
      else if c < WINDOW then (Slot(c, used), Panicked)
      else (Slot(c, Retained(used, c - WINDOW)), Issued(c))
  }

  // ---- the manager ----

  class NonceManager {
    var counters: map<Key, nat>
    var usedNonces: map<Key, set<nat>>

    function SlotOf(k: Key): Slot
      reads this
    {
      Slot(if k in counters then counters[k] else 0, if k in usedNonces then usedNonces[k] else {})
    }

    constructor ()
      ensures counters == map[] && usedNonces == map[]
      ensures forall k :: SlotOf(k) == Slot(0, {})
    {
      counters, usedNonces := map[], map[];
    }

    /** Nothing but the entries of k may have changed. */
    twostate predicate OnlyFor(k: Key)
      reads this
    {
      forall j {:trigger SlotOf(j)} :: j != k ==> SlotOf(j) == old(SlotOf(j))
    }

    /** Takes the next counter, unless it would overflow, and sees to it that the key has a window. */
    method Advance(k: Key) returns (counter: Option<nat>)
      modifies this
      ensures var s := old(SlotOf(k));
              && counter == (if s.counter + 1 >= LIMIT then None else Some(s.counter + 1))
              && SlotOf(k) == if counter.Some? then Slot(counter.value, s.used) else s
      ensures counter.Some? ==> k in usedNonces
      ensures OnlyFor(k)
    {
      if k !in counters {
        counters := counters[k := 0];
      }
      assert SlotOf(k) == old(SlotOf(k)) && OnlyFor(k);
      if counters[k] + 1 >= LIMIT {
        return None;
      }
      counters := counters[k := counters[k] + 1];
      if k !in usedNonces {
        usedNonces := usedNonces[k := {}];
      }
      return Some(counters[k]);
    }

    /** The counter goes up even when the call fails with a collision. */
    method GetNextNonce(k: Key) returns (r: Outcome, nonce: bytes)
      modifies this
      ensures (SlotOf(k), r) == Next(old(SlotOf(k)))
      ensures r.Issued? ==> r.counter < LIMIT && nonce == NonceOf(r.counter)
      ensures OnlyFor(k)
    {
      hide NonceOf, Retained;
      nonce := [];
      var counter := Advance(k);
      if counter == None {
        return Panicked, nonce;
      }
      if counter.value in usedNonces[k] {
        return Collision, nonce;
      }
      r := Remember(k, counter.value);
      nonce := NonceOf(counter.value);
    }

    /** Adds a counter to the window and cuts the window down when it has grown too large. */
    method Remember(k: Key, counter: nat) returns (r: Outcome)
      requires k in usedNonces && counter !in usedNonces[k] && 0 < counter < LIMIT && SlotOf(k).counter == counter
      modifies this`usedNonces
      ensures (SlotOf(k), r) == Next(Slot(counter - 1, old(SlotOf(k)).used))
      ensures r.Issued? ==> r.counter == counter
      ensures OnlyFor(k)
    {
      usedNonces := usedNonces[k := usedNonces[k] + {counter}];
      if |usedNonces[k]| > WINDOW {
        if counter < WINDOW {
          return Panicked;
        }
        var minToKeep := counter - WINDOW;
        usedNonces := usedNonces[k := Retained(usedNonces[k], minToKeep)];
      }
      return Issued(counter);
    }

    method SetCounter(k: Key, counter: nat)
      modifies this`counters
      ensures SlotOf(k) == Slot(counter, old(SlotOf(k)).used)
      ensures OnlyFor(k)
    {
      counters := counters[k := counter];
    }

    method GetCounter(k: Key) returns (counter: nat)
      ensures counter == SlotOf(k).counter
    {
      counter := if k in counters then counters[k] else 0;
    }
  }

  // ---- runs ----

  datatype Op = Get(key: Key) | Restore(key: Key, counter: nat)
  datatype Event = Got(key: Key, outcome: Outcome) | Restored(key: Key)

  /** The slots of all keys, and what has happened so far. */
  datatype Run = Run(slots: map<Key, Slot>, events: seq<Event>)

  function At(r: Run, k: Key): Slot {
    if k in r.slots then r.slots[k] else Slot(0, {})
  }

  function Do(r: Run, op: Op): Run {
    match op
    case Get(k) =>
      var (s, o) := Next(At(r, k));
      Run(r.slots[k := s], r.events + [Got(k, o)])
    case Restore(k, c) => Run(r.slots[k := At(r, k).(counter := c)], r.events + [Restored(k)])
  }

  function Start(): Run {
    Run(map[], [])
  }

  function Play(ops: seq<Op>): (r: Run)
    ensures |r.events| == |ops|
  {
    if ops == [] then Start() else Do(Play(ops[..|ops| - 1]), ops[|ops| - 1])
  }

  predicate IssuedAt(r: Run, i: nat, k: Key, c: nat) {
    i < |r.events| && r.events[i] == Got(k, Issued(c))
  }

  // ---- restores that never go back ----

  /** Every restore is at or above the counter it replaces, and no counter reaches the 64-bit limit. */
  predicate GoesUp(ops: seq<Op>) {
    ops == [] ||
    (var before, op := ops[..|ops| - 1], ops[|ops| - 1];
     GoesUp(before) &&
     match op
     case Get(k) => At(Play(before), k).counter + 1 < LIMIT
     case Restore(k, c) => At(Play(before), k).counter <= c < LIMIT)
  }

  /** The remembered counters are positive, not above the counter, and not too many. */
  ghost predicate Tidy(s: Slot) {
    (forall n <- s.used :: 1 <= n <= s.counter) && |s.used| <= WINDOW
  }

  function Interval(lo: nat, hi: nat): (r: set<nat>)
    requires lo <= hi
    ensures forall n :: n in r <==> lo < n <= hi
    ensures |r| == hi - lo
    decreases hi
  {
    if lo == hi then {} else Interval(lo, hi - 1) + {hi}
  }

  lemma SubsetSize(a: set<nat>, b: set<nat>)
    requires a <= b
    ensures |a| <= |b|
  {
    assert b == a + (b - a);
    assert |b| == |a| + |b - a|;
  }

  /** From a tidy slot the next call always issues, never underflows, and leaves a tidy slot. */
  lemma TidyNext(s: Slot)
    requires Tidy(s) && s.counter + 1 < LIMIT
    ensures var (t, o) := Next(s);
            o == Issued(s.counter + 1) && t.counter == s.counter + 1 && Tidy(t)
  {
    var c := s.counter + 1;
    var used := s.used + {c};
    assert |used| <= WINDOW + 1;
    if |used| > WINDOW {
      SubsetSize(used, Interval(0, c));
      var kept := Retained(used, c - WINDOW);
      SubsetSize(kept, Interval(c - WINDOW, c));
    }
  }

  /**
   When restores never go back, every call issues a nonce: no collision, no underflow, no overflow. The
   nonces of a key increase strictly, and no window holds more than 10000 counters.
   */
  lemma {:induction false} GoingUpIssues(ops: seq<Op>)
    requires GoesUp(ops)
    ensures forall k {:trigger At(Play(ops), k)} :: Tidy(At(Play(ops), k))
    ensures forall i, k, o :: 0 <= i < |ops| && Play(ops).events[i] == Got(k, o) ==>
              o.Issued? && o.counter <= At(Play(ops), k).counter
    ensures forall i: nat, j: nat, k, c: nat, d: nat ::
            IssuedAt(Play(ops), i, k, c) && IssuedAt(Play(ops), j, k, d) && i < j ==> c < d
  {
    if ops != [] {
      var before, op := ops[..|ops| - 1], ops[|ops| - 1];
      GoingUpIssues(before);
      var r := Play(before);
      if op.Get? {
        TidyNext(At(r, op.key));
        hide Next;
      }
      GoingUpStep(r, op, Play(ops));
    }
  }

  lemma GoingUpStep(r: Run, op: Op, s: Run)
    requires s == Do(r, op)
    requires forall k {:trigger At(r, k)} :: Tidy(At(r, k))
    requires op.Get? ==> var (t, o) := Next(At(r, op.key));
                         o == Issued(At(r, op.key).counter + 1) && t.counter == At(r, op.key).counter + 1 && Tidy(t)
    requires op.Restore? ==> At(r, op.key).counter <= op.counter
    requires forall i, k, o :: 0 <= i < |r.events| && r.events[i] == Got(k, o) ==>
               o.Issued? && o.counter <= At(r, k).counter
    requires forall i: nat, j: nat, k, c: nat, d: nat :: IssuedAt(r, i, k, c) && IssuedAt(r, j, k, d) && i < j ==> c < d
    ensures forall k {:trigger At(s, k)} :: Tidy(At(s, k))
    ensures forall i, k, o :: 0 <= i < |s.events| && s.events[i] == Got(k, o) ==>
              o.Issued? && o.counter <= At(s, k).counter
    ensures forall i: nat, j: nat, k, c: nat, d: nat :: IssuedAt(s, i, k, c) && IssuedAt(s, j, k, d) && i < j ==> c < d
  {
    hide Next;
    forall k ensures Tidy(At(s, k)) {
      assert Tidy(At(r, k));
    }
    forall i, k, o | 0 <= i < |s.events| && s.events[i] == Got(k, o)
      ensures o.Issued? && o.counter <= At(s, k).counter
    {
      if i < |r.events| {
        assert r.events[i] == Got(k, o);
      }
    }
    forall i: nat, j: nat, k, c: nat, d: nat | IssuedAt(s, i, k, c) && IssuedAt(s, j, k, d) && i < j ensures c < d {
      assert IssuedAt(r, i, k, c);
      if j < |r.events| {
        assert IssuedAt(r, j, k, d);
      }
    }
  }

  // ---- restores that may go back ----

  /** A counter at least 10000 above c was issued for the key after event i. */
  ghost predicate Outrun(r: Run, i: nat, k: Key, c: nat) {
    exists m: nat, d: nat :: i < m && IssuedAt(r, m, k, d) && d >= c + WINDOW
  }

  /** An issued counter stays remembered until one at least 10000 higher has been issued. */
  lemma {:induction false} RememberedUnlessOutrun(ops: seq<Op>, i: nat, k: Key, c: nat)
    requires IssuedAt(Play(ops), i, k, c)
    ensures c in At(Play(ops), k).used || Outrun(Play(ops), i, k, c)
  {
    var before, op := ops[..|ops| - 1], ops[|ops| - 1];
    var r, s := Play(before), Play(ops);
    if i < |before| {
      assert IssuedAt(r, i, k, c);
      RememberedUnlessOutrun(before, i, k, c);
      hide Play;
      if Outrun(r, i, k, c) {
        OutrunStays(r, op, s, i, k, c);
      } else if c !in At(s, k).used {
        assert op == Get(k);
        Forgets(At(r, k), c);
        assert IssuedAt(s, |before|, k, At(s, k).counter);
      }
    } else {
      OwnCounterStays(At(r, k));
    }
  }

  lemma OutrunStays(r: Run, op: Op, s: Run, i: nat, k: Key, c: nat)
    requires s == Do(r, op) && Outrun(r, i, k, c)
    ensures Outrun(s, i, k, c)
  {
    var m: nat, d: nat :| i < m && IssuedAt(r, m, k, d) && d >= c + WINDOW;
    assert IssuedAt(s, m, k, d);
  }

  /** A call forgets a counter only when it issues one at least 10000 higher. */
  lemma Forgets(s: Slot, c: nat)
    requires c in s.used && c !in Next(s).0.used
    ensures Next(s).1 == Issued(Next(s).0.counter) && Next(s).0.counter >= c + WINDOW
  {
  }

  lemma OwnCounterStays(s: Slot)
    requires Next(s).1.Issued?
    ensures Next(s).1.counter in Next(s).0.used
  {
  }

  /**
   Whatever the restores: a counter is issued twice for a key only if one at least 10000 higher was issued
   in between.
   */
  lemma {:induction false} ReissueIsOutrun(ops: seq<Op>, i: nat, j: nat, k: Key, c: nat)
    requires IssuedAt(Play(ops), i, k, c) && IssuedAt(Play(ops), j, k, c) && i < j
    ensures exists m: nat, d: nat :: i < m < j && IssuedAt(Play(ops), m, k, d) && d >= c + WINDOW
  {
    var before, op := ops[..|ops| - 1], ops[|ops| - 1];
    var r, s := Play(before), Play(ops);
    assert IssuedAt(r, i, k, c);
    if j < |before| {
      assert IssuedAt(r, j, k, c);
      ReissueIsOutrun(before, i, j, k, c);
      var m: nat, d: nat :| i < m < j && IssuedAt(r, m, k, d) && d >= c + WINDOW;
      assert IssuedAt(s, m, k, d);
    } else {
      RememberedUnlessOutrun(before, i, k, c);
      assert op == Get(k) && c !in At(r, k).used;
      var m: nat, d: nat :| i < m && IssuedAt(r, m, k, d) && d >= c + WINDOW;
      assert IssuedAt(s, m, k, d);
    }
  }

  // ---- after a collision ----

  /** The slot after n calls. */
  function After(s: Slot, n: nat): Slot {
    if n == 0 then s else Next(After(s, n - 1)).0
  }

  /** How many counters in a row after this one are remembered as used. */
  function Streak(s: Slot, c: nat): (n: nat)
    ensures forall m :: c < m <= c + n ==> m in s.used
    ensures c + n + 1 !in s.used
    decreases Higher(s.used, c)
  {
    if c + 1 in s.used then
      HigherShrinks(s.used, c);
      1 + Streak(s, c + 1)
    else 0
  }

  function Higher(used: set<nat>, c: nat): nat {
    |set n | n in used && n > c|
  }

  lemma HigherShrinks(used: set<nat>, c: nat)
    requires c + 1 in used
    ensures Higher(used, c + 1) < Higher(used, c)
  {
    var a, b := set n | n in used && n > c, set n | n in used && n > c + 1;
    assert a == b + {c + 1};
  }

  lemma StreakSize(s: Slot, c: nat)
    ensures Streak(s, c) <= |s.used|
  {
    var n := Streak(s, c);
    SubsetSize(Interval(c, c + n), s.used);
  }

  /**
   A slot collides as often as counters in a row after it are remembered, at most as often as the window
   is large. The call after that issues a fresh nonce exactly when the window is not full or the counter
   has reached 10000; otherwise the subtraction underflows.
   */
  lemma {:induction false} CollisionsEnd(s: Slot)
    requires s.counter + Streak(s, s.counter) + 1 < LIMIT
    ensures var n := Streak(s, s.counter);
            && n <= |s.used|
            && (forall i {:trigger After(s, i)} :: 0 <= i < n ==> Next(After(s, i)).1 == Collision)
            && (var c := s.counter + n + 1;
                c !in s.used &&
                if |s.used| < WINDOW || c >= WINDOW then Next(After(s, n)).1 == Issued(c)
                else Next(After(s, n)).1 == Panicked)
  {
    var n := Streak(s, s.counter);
    StreakSize(s, s.counter);
    forall i | 0 <= i <= n ensures After(s, i) == Slot(s.counter + i, s.used) {
      Colliding(s, i);
    }
  }

  lemma {:induction false} Colliding(s: Slot, i: nat)
    requires i <= Streak(s, s.counter) && s.counter + Streak(s, s.counter) + 1 < LIMIT
    ensures After(s, i) == Slot(s.counter + i, s.used)
  {
    if i > 0 {
      Colliding(s, i - 1);
      assert s.counter + i in s.used;
    }
  }

  // ---- how large a window can get ----

  /** When a call stops instead of answering: at the 64-bit limit, and where a full window meets a small counter. */
  lemma StopsIff(s: Slot)
    ensures var c := s.counter + 1;
            Next(s).1 == Panicked <==>
              || c >= 0x1_0000_0000_0000_0000
              || (c !in s.used && |s.used| >= 10000 && c < 10000)
    ensures Next(s).1 == Collision <==> s.counter + 1 < 0x1_0000_0000_0000_0000 && s.counter + 1 in s.used
    ensures Next(s).1.Issued? ==> forall n <- Next(s).0.used :: |s.used| >= 10000 ==> n + 10000 > s.counter + 1
  {
    var c := s.counter + 1;
    assert c !in s.used ==> |s.used + {c}| == |s.used| + 1;
  }

  /** Calls from a restored counter on fill the window with counters above it. */
  lemma {:induction false} Filling(c: nat, n: nat)
    requires n <= WINDOW && c + n < LIMIT
    ensures var t := After(Slot(c, {}), n);
            t.counter == c + n && |t.used| == n && forall m <- t.used :: c < m <= c + n
  {
    if n > 0 {
      var s := After(Slot(c, {}), n - 1);
      Filling(c, n - 1);
      hide After;
      FillingStep(s, c, n);
    }
  }

  lemma FillingStep(s: Slot, c: nat, n: nat)
    requires 0 < n <= WINDOW && c + n < LIMIT
    requires s.counter == c + n - 1 && |s.used| == n - 1 && forall m <- s.used :: c < m < c + n
    ensures Next(s).0 == Slot(c + n, s.used + {c + n}) && |s.used + {c + n}| == n
  {
  }

  /**
   A full window keeps its bound exactly when something in it is old enough to go; below 10000 nothing is,
   and the call stops at the subtraction with one counter too many.
   */
  lemma FullWindowIff(s: Slot)
    requires |s.used| == WINDOW && s.counter + 1 < LIMIT && s.counter + 1 !in s.used
    ensures |Next(s).0.used| <= WINDOW <==> exists n <- s.used :: n <= s.counter + 1 - WINDOW
  {
    var c := s.counter + 1;
    var used := s.used + {c};
    assert |used| == WINDOW + 1;
    if c >= WINDOW {
      var kept := Retained(used, c - WINDOW);
      if n :| n in s.used && n <= c - WINDOW {
        SubsetSize(kept, used - {n});
      } else {
        assert kept == used;
      }
    }
  }

  /** A restore that goes back breaks the bound: calls fill a window, and the next call makes it grow past 10000. */
  lemma WindowOverflows()
    ensures var full := After(Slot(20000, {}), WINDOW).(counter := 15000);
            |full.used| == WINDOW && |Next(full).0.used| > WINDOW
  {
    Filling(20000, WINDOW);
    hide After, Next;
    FullWindowIff(After(Slot(20000, {}), WINDOW).(counter := 15000));
  }
}
