/** Exactly which two calls, made at the same time, always leave the two-way map in order. */
module SslTwoCalls {
  import opened Wrappers
  import opened SslMapping
  import opened SslThreads

  /** Two calls that have begun and not yet taken a step. */
  function Two(a: SslMap, b: SslMap, p: Tid, c: Call, q: Tid, d: Call): World {
    World(a, b, map[p := Thread(c, Looking(0)), q := Thread(d, Looking(0))])
  }

  predicate StepsOnly(events: seq<Event>) {
    forall e <- events :: e.Step?
  }

  /** In whatever order the calls take their steps, the maps are inverse once all have returned. */
  ghost predicate Settles(w: World) {
    forall events :: StepsOnly(events) && AllReturned(Run(w, events)) ==> Inverse(Run(w, events).a, Run(w, events).b)
  }

  predicate Compatible(a: SslMap, b: SslMap, c: Call, d: Call) {
    if Associates(c) && Associates(d) then PairsCompatible(a, b, c.ssl, c.socket, d.ssl, d.socket)
    else if Associates(c) then CallCompatible(a, b, c.ssl, c.socket, d)
    else if Associates(d) then CallCompatible(a, b, d.ssl, d.socket, c)
    else true
  }

  /** The same pair, tied to nothing else, or two that share nothing and leave inverse maps together. */
  predicate PairsCompatible(a: SslMap, b: SslMap, k: nat, s: nat, k2: nat, s2: nat) {
    if k == k2 && s == s2 then Free(a, b, k, s)
    else k != k2 && s != s2 && IsInverse(a[k := s][k2 := s2], b[s := k][s2 := k2])
  }

  /**
   Beside another call, an association needs a free pair whose SSL is not removed, nor its socket if that is
   mapped.
   */
  predicate CallCompatible(a: SslMap, b: SslMap, k: nat, s: nat, c: Call) {
    && Free(a, b, k, s)
    && match c
       case RemoveSsl(j) => j != k
       case RemoveSocket(i) => i != s || s !in b
       case Associate(_, _) => true
  }

  predicate IsInverse(a: SslMap, b: SslMap)
    ensures IsInverse(a, b) <==> Inverse(a, b)
  {
    && (forall k <- a :: a[k] in b && b[a[k]] == k)
    && (forall s <- b :: b[s] in a && a[b[s]] == s)
  }

  // ---- reaching a bad end ----

  ghost predicate Reach(w: World, v: World) {
    exists events :: StepsOnly(events) && Run(w, events) == v
  }

  lemma ReachStart(w: World)
    ensures Reach(w, w)
  {
    assert StepsOnly([]) && Run(w, []) == w;
  }

  lemma ReachNext(w: World, v: World, t: Tid)
    requires Reach(w, v) && t in v.threads
    ensures Reach(w, Next(v, t))
  {
    var events :| StepsOnly(events) && Run(w, events) == v;
    var more := events + [Step(t)];
    assert more[..|more| - 1] == events;
    assert StepsOnly(more) && Run(w, more) == Next(v, t);
  }

  lemma BadEnd(w: World, v: World)
    requires Reach(w, v) && AllReturned(v) && !Inverse(v.a, v.b)
    ensures !Settles(w)
  {
    hide Inverse, AllReturned, Run, StepsOnly;
  }

  /** What a call returns that nothing interrupts: the partner it removed, or the socket it associated. */
  function Answer(a: SslMap, b: SslMap, c: Call): Option<nat> {
    match c
    case RemoveSsl(ssl) => if ssl != 0 && ssl in a then Some(a[ssl]) else None
    case RemoveSocket(socket) => if socket in b then Some(b[socket]) else None
    case Associate(ssl, socket) => if ssl != 0 then Some(socket) else None
  }

  /** A call that runs without interruption makes of the maps, and returns, what it does alone. */
  lemma CallAlone(w0: World, w: World, t: Tid) returns (v: World)
    requires Reach(w0, w) && t in w.threads && w.threads[t].pc == Looking(0)
    ensures Reach(w0, v) && (v.a, v.b) == Alone(w.a, w.b, w.threads[t].call)
    ensures t in v.threads && v.threads[t].pc == Returned(Answer(w.a, w.b, w.threads[t].call))
    ensures v.threads == w.threads[t := v.threads[t]]
  {
    v := Next(w, t);
    ReachNext(w0, w, t);
    hide Reach;
    if !v.threads[t].pc.Returned? {
      ReachNext(w0, v, t);
      v := Next(v, t);
      if !v.threads[t].pc.Returned? {
        ReachNext(w0, v, t);
        v := Next(v, t);
      }
    }
  }

  /** A removal that finds another socket than it has seen removes both and returns the one it found. */
  lemma ChangedValueSweeps(w: World, t: Tid, ssl: nat, seen: nat, n: nat)
    requires t in w.threads && w.threads[t] == Thread(RemoveSsl(ssl), Removing(n, seen))
    requires ssl in w.a && w.a[ssl] != seen
    ensures var v := Next(Next(w, t), t);
            t in v.threads && var u := Next(v, t);
            && u.a == w.a - {ssl} && u.b == w.b - {seen} - {w.a[ssl]}
            && u.threads == w.threads[t := Thread(RemoveSsl(ssl), Returned(Some(w.a[ssl])))]
  {
    var v := Next(w, t);
    assert v.threads[t] == Thread(RemoveSsl(ssl), Sweeping(seen, w.a[ssl]));
    assert Next(v, t).threads[t] == Thread(RemoveSsl(ssl), Cleaning(w.a[ssl]));
  }

  /** A removal whose entry vanishes under it looks again twice and then gives up, without touching the maps. */
  lemma VanishedIsRetried(w: World, t: Tid, c: Call, n: nat, seen: nat)
    requires t in w.threads && w.threads[t] == Thread(c, Removing(n, seen)) && n < 3
    requires (c.RemoveSsl? && c.ssl !in w.a) || (c.RemoveSocket? && c.socket !in w.b)
    ensures Next(w, t) == w.(threads := w.threads[t := Thread(c, if n < 2 then Looking(n + 1) else Returned(None))])
  {
  }

  /** One call after the other. */
  lemma InTurn(a: SslMap, b: SslMap, p: Tid, c: Call, q: Tid, d: Call) returns (v: World)
    requires p != q
    ensures Reach(Two(a, b, p, c, q, d), v) && AllReturned(v)
    ensures var (a1, b1) := Alone(a, b, c); (v.a, v.b) == Alone(a1, b1, d)
  {
    var w := Two(a, b, p, c, q, d);
    ReachStart(w);
    var u := CallAlone(w, w, p);
    v := CallAlone(w, u, q);
    hide Reach, Alone;
  }

  /** Tying a pair that is not free leaves contradicting entries, which no removal mends afterwards. */
  lemma NotMended(a: SslMap, b: SslMap, k: nat, s: nat, c: Call)
    requires Inverse(a, b) && k != 0 && !Free(a, b, k, s) && !Associates(c)
    ensures var (a2, b2) := Alone(a[k := s], b[s := k], c); !Inverse(a2, b2)
  {
    if k in a && a[k] != s {
      TwoSocketsNotMended(a, b, k, s, a[k], c);
    } else {
      TwoSslsNotMended(a, b, k, s, b[s], c);
    }
  }

  lemma TwoSocketsNotMended(a: SslMap, b: SslMap, k: nat, s: nat, i: nat, c: Call)
    requires Inverse(a, b) && k != 0 && k in a && a[k] == i && i != s && !Associates(c)
    ensures var (a2, b2) := Alone(a[k := s], b[s := k], c); !Inverse(a2, b2)
  {
    var (a1, b1) := (a[k := s], b[s := k]);
    var (a2, b2) := Alone(a1, b1, c);
    assert i in b1 && b1[i] == k && a1[k] == s;
    assert forall j <- a1 :: a1[j] == i ==> j == k;
    assert s in b2 || i in b2;
    assert i in b2 ==> b2[i] == k;
    assert k in a2 ==> a2[k] == s;
    assert k in a2 ==> i in b2;
  }

  lemma TwoSslsNotMended(a: SslMap, b: SslMap, k: nat, s: nat, j: nat, c: Call)
    requires Inverse(a, b) && s in b && b[s] == j && j != k && !Associates(c)
    ensures var (a2, b2) := Alone(a[k := s], b[s := k], c); !Inverse(a2, b2)
  {
    var (a1, b1) := (a[k := s], b[s := k]);
    var (a2, b2) := Alone(a1, b1, c);
    assert j in a1 && a1[j] == s && b1[s] == k;
    assert forall i <- b1 :: b1[i] == j ==> i == s;
    assert k in a2 || j in a2;
    assert j in a2 ==> a2[j] == s;
    assert s in b2 ==> b2[s] == k;
    assert s in b2 ==> j in a2;
  }

  /** A removal of the SSL that is being associated can slip in between the two halves. */
  lemma RemoveSslSlipsIn(a: SslMap, b: SslMap, p: Tid, k: nat, s: nat, q: Tid)
    requires p != q && k != 0
    ensures !Settles(Two(a, b, p, Associate(k, s), q, RemoveSsl(k)))
  {
    var w0 := Two(a, b, p, Associate(k, s), q, RemoveSsl(k));
    ReachStart(w0);
    ReachNext(w0, w0, p);
    var w1 := Next(w0, p);
    assert w1.threads[q] == Thread(RemoveSsl(k), Looking(0));
    hide Reach;
    var w2 := CallAlone(w0, w1, q);
    ReachNext(w0, w2, p);
    var v := Next(w2, p);
    assert s in v.b && v.b[s] == k && k !in v.a;
    BadEnd(w0, v);
  }

  /** A removal of its socket can be halfway through when both halves are written. */
  lemma RemoveSocketSlipsIn(a: SslMap, b: SslMap, p: Tid, k: nat, s: nat, q: Tid)
    requires p != q && k != 0 && s in b && b[s] == k
    ensures !Settles(Two(a, b, p, Associate(k, s), q, RemoveSocket(s)))
  {
    var w0 := Two(a, b, p, Associate(k, s), q, RemoveSocket(s));
    ReachStart(w0);
    ReachNext(w0, w0, q);
    var w1 := Next(w0, q);
    hide Reach;
    ReachNext(w0, w1, q);
    var w2 := Next(w1, q);
    assert w2.threads == map[p := Thread(Associate(k, s), Looking(0)), q := Thread(RemoveSocket(s), Cleaning(k))];
    var w3 := CallAlone(w0, w2, p);
    assert s in w3.b && w3.b[s] == k && w3.threads[q] == Thread(RemoveSocket(s), Cleaning(k));
    ReachNext(w0, w3, q);
    BadEnd(w0, Next(w3, q));
  }

  /** Incompatible calls can leave maps that contradict each other. */
  lemma IncompatibleFails(a: SslMap, b: SslMap, p: Tid, k: nat, s: nat, q: Tid, d: Call)
    requires Inverse(a, b) && p != q && k != 0
    requires if Associates(d) then !PairsCompatible(a, b, k, s, d.ssl, d.socket) else !CallCompatible(a, b, k, s, d)
    ensures !Settles(Two(a, b, p, Associate(k, s), q, d))
  {
    if Associates(d) {
      var v := InTurn(a, b, p, Associate(k, s), q, d);
      PairsContradict(a, b, k, s, d.ssl, d.socket);
      BadEnd(Two(a, b, p, Associate(k, s), q, d), v);
    } else if !Free(a, b, k, s) {
      var v := InTurn(a, b, p, Associate(k, s), q, d);
      NotMended(a, b, k, s, d);
      hide Inverse, Free, Settles;
      BadEnd(Two(a, b, p, Associate(k, s), q, d), v);
    } else if d.RemoveSsl? {
      RemoveSslSlipsIn(a, b, p, k, s, q);
    } else {
      RemoveSocketSlipsIn(a, b, p, k, s, q);
    }
  }

  lemma PairsContradict(a: SslMap, b: SslMap, k: nat, s: nat, k2: nat, s2: nat)
    requires Inverse(a, b) && !PairsCompatible(a, b, k, s, k2, s2)
    ensures !Inverse(a[k := s][k2 := s2], b[s := k][s2 := k2])
  {
    if k == k2 && s == s2 {
      AssociateKeepsInverseIff(a, b, k, s);
      assert a[k := s][k := s] == a[k := s] && b[s := k][s := k] == b[s := k];
    } else if k == k2 {
      assert b[s := k][s2 := k2][s] == k && a[k := s][k2 := s2][k] == s2;
    } else if s == s2 {
      assert a[k := s][k2 := s2][k] == s && b[s := k][s2 := k2][s] == k2;
    }
  }

  // ---- compatible calls always settle ----

  /** Whatever the invariant holds of settles. */
  lemma InvSettles(x: SslMap, y: SslMap, w: World)
    requires Inv(x, y, w)
    ensures Settles(w)
  {
    forall events | StepsOnly(events) && AllReturned(Run(w, events))
      ensures Inverse(Run(w, events).a, Run(w, events).b)
    {
      StepsAreOrderly(w, x, y, events);
      RunKeeps(x, y, w, events);
      RestIsSequential(x, y, Run(w, events));
    }
  }

  lemma {:induction false} StepsAreOrderly(w: World, x: SslMap, y: SslMap, events: seq<Event>)
    requires StepsOnly(events)
    ensures Orderly(w, events) && Sequential(x, y, events) == (x, y)
    decreases |events|
  {
    if events != [] {
      assert events[|events| - 1] in events;
      StepsAreOrderly(w, x, y, events[..|events| - 1]);
    }
  }

  /** Two calls of which the second may begin beside the first. */
  lemma ProperSettles(a: SslMap, b: SslMap, p: Tid, c: Call, q: Tid, d: Call)
    requires Inverse(a, b) && 0 !in a && p != q
    requires Associates(c) ==> Free(a, b, c.ssl, c.socket)
    requires Associates(d) ==> Free(a, b, d.ssl, d.socket)
    requires Apart(Thread(c, Looking(0)), Thread(d, Looking(0))) && Apart(Thread(d, Looking(0)), Thread(c, Looking(0)))
    ensures Settles(Two(a, b, p, c, q, d))
  {
    var w0 := Idle(a, b);
    IdleInv(a, b);
    DoKeeps(a, b, w0, Begin(p, c));
    var (x, y) := Alone(a, b, c);
    var w1 := Do(w0, Begin(p, c));
    hide Inv;
    DoKeeps(x, y, w1, Begin(q, d));
    var (x2, y2) := Alone(x, y, d);
    assert Do(w1, Begin(q, d)) == Two(a, b, p, c, q, d);
    InvSettles(x2, y2, Two(a, b, p, c, q, d));
  }

  // Two associations that share neither side.

  function Put(m: SslMap, done: bool, key: nat, value: nat): SslMap {
    if done then m[key := value] else m
  }

  predicate Associating(pc: Pc) {
    pc == Looking(0) || pc == Linking || pc.Returned?
  }

  /** Each has written what its place in the code says, wherever the other stands. */
  ghost predicate BothWrite(a: SslMap, b: SslMap, w: World, p: Tid, k: nat, s: nat, q: Tid, k2: nat, s2: nat) {
    && w.threads.Keys == {p, q}
    && w.threads[p].call == Associate(k, s) && Associating(w.threads[p].pc)
    && w.threads[q].call == Associate(k2, s2) && Associating(w.threads[q].pc)
    && w.a == Put(Put(a, w.threads[p].pc != Looking(0), k, s), w.threads[q].pc != Looking(0), k2, s2)
    && w.b == Put(Put(b, w.threads[p].pc.Returned?, s, k), w.threads[q].pc.Returned?, s2, k2)
  }

  lemma BothWriteNext(a: SslMap, b: SslMap, w: World, p: Tid, k: nat, s: nat, q: Tid, k2: nat, s2: nat, t: Tid)
    requires p != q && k != 0 && k2 != 0 && k != k2 && s != s2
    requires BothWrite(a, b, w, p, k, s, q, k2, s2) && t in w.threads
    ensures BothWrite(a, b, Next(w, t), p, k, s, q, k2, s2)
  {
    if t == p {
      PutLater(a, k, s, w.threads[q].pc != Looking(0), k2, s2);
      PutLater(b, s, k, w.threads[q].pc.Returned?, s2, k2);
    }
  }

  lemma PutLater(m: SslMap, key: nat, value: nat, done: bool, key2: nat, value2: nat)
    requires key != key2
    ensures Put(m, done, key2, value2)[key := value] == Put(m[key := value], done, key2, value2)
  {
  }

  lemma {:induction false} BothWriteRun(a: SslMap, b: SslMap, w: World, p: Tid, k: nat, s: nat, q: Tid, k2: nat,
                                        s2: nat,
                                        events: seq<Event>)
    requires p != q && k != 0 && k2 != 0 && k != k2 && s != s2
    requires BothWrite(a, b, w, p, k, s, q, k2, s2) && StepsOnly(events)
    ensures BothWrite(a, b, Run(w, events), p, k, s, q, k2, s2)
    decreases |events|
  {
    if events != [] {
      var e := events[|events| - 1];
      assert e in events;
      BothWriteRun(a, b, w, p, k, s, q, k2, s2, events[..|events| - 1]);
      var v := Run(w, events[..|events| - 1]);
      hide BothWrite;
      if e.t in v.threads { BothWriteNext(a, b, v, p, k, s, q, k2, s2, e.t); }
    }
  }

  // An association beside the removal of its socket, which is not mapped yet.

  /** The removal finds nothing before the association is finished, and the whole pair afterwards. */
  ghost predicate LateRemoval(a: SslMap, b: SslMap, w: World, p: Tid, k: nat, s: nat, q: Tid) {
    && w.threads.Keys == {p, q}
    && w.threads[p].call == Associate(k, s) && w.threads[q].call == RemoveSocket(s)
    && var g, h := w.threads[p].pc, w.threads[q].pc;
       || (g == Looking(0) && (h == Looking(0) || h.Returned?) && w.a == a && w.b == b)
       || (g == Linking && (h == Looking(0) || h.Returned?) && w.a == a[k := s] && w.b == b)
       || (g.Returned? && (h == Looking(0) || (h.Removing? && h.attempt == 0) || h.Returned?) && w.a == a[k := s]
          && w.b == b[s := k])
       || (g.Returned? && h == Cleaning(k) && w.a == a[k := s] && w.b == b)
       || (g.Returned? && h.Returned? && w.a == a && w.b == b)
  }

  lemma LateRemovalNext(a: SslMap, b: SslMap, w: World, p: Tid, k: nat, s: nat, q: Tid, t: Tid)
    requires p != q && k != 0 && k !in a && s !in b && LateRemoval(a, b, w, p, k, s, q) && t in w.threads
    ensures LateRemoval(a, b, Next(w, t), p, k, s, q)
  {
    assert b[s := k] - {s} == b && a[k := s] - {k} == a;
  }

  lemma {:induction false} LateRemovalRun(a: SslMap, b: SslMap, w: World, p: Tid, k: nat, s: nat, q: Tid,
                                          events: seq<Event>)
    requires p != q && k != 0 && k !in a && s !in b && LateRemoval(a, b, w, p, k, s, q) && StepsOnly(events)
    ensures LateRemoval(a, b, Run(w, events), p, k, s, q)
    decreases |events|
  {
    if events != [] {
      var e := events[|events| - 1];
      assert e in events;
      LateRemovalRun(a, b, w, p, k, s, q, events[..|events| - 1]);
      var v := Run(w, events[..|events| - 1]);
      hide LateRemoval;
      if e.t in v.threads { LateRemovalNext(a, b, v, p, k, s, q, e.t); }
    }
  }

  lemma PairsSettle(a: SslMap, b: SslMap, p: Tid, k: nat, s: nat, q: Tid, k2: nat, s2: nat)
    requires Inverse(a, b) && 0 !in a && p != q && k != 0 && k2 != 0 && PairsCompatible(a, b, k, s, k2, s2)
    ensures Settles(Two(a, b, p, Associate(k, s), q, Associate(k2, s2)))
  {
    if k == k2 && s == s2 {
      ProperSettles(a, b, p, Associate(k, s), q, Associate(k, s));
    } else {
      var w := Two(a, b, p, Associate(k, s), q, Associate(k2, s2));
      forall events | StepsOnly(events) && AllReturned(Run(w, events))
        ensures Inverse(Run(w, events).a, Run(w, events).b)
      {
        BothWriteRun(a, b, w, p, k, s, q, k2, s2, events);
        hide Inverse, Run, StepsOnly;
        assert AllReturned(Run(w, events))
               ==> Run(w, events).threads[p].pc.Returned? && Run(w, events).threads[q].pc.Returned?;
      }
    }
  }

  lemma LateRemovalSettles(a: SslMap, b: SslMap, p: Tid, k: nat, s: nat, q: Tid)
    requires Inverse(a, b) && p != q && k != 0 && k !in a && s !in b
    ensures Settles(Two(a, b, p, Associate(k, s), q, RemoveSocket(s)))
  {
    var w := Two(a, b, p, Associate(k, s), q, RemoveSocket(s));
    AssociateKeepsInverseIff(a, b, k, s);
    forall events | StepsOnly(events) && AllReturned(Run(w, events))
      ensures Inverse(Run(w, events).a, Run(w, events).b)
    {
      LateRemovalRun(a, b, w, p, k, s, q, events);
      hide Inverse, Run, StepsOnly;
      assert Run(w, events).threads[q].pc.Returned?;
    }
  }

  lemma CallSettles(a: SslMap, b: SslMap, p: Tid, k: nat, s: nat, q: Tid, d: Call)
    requires Inverse(a, b) && 0 !in a && p != q && k != 0 && !Associates(d) && CallCompatible(a, b, k, s, d)
    ensures Settles(Two(a, b, p, Associate(k, s), q, d))
  {
    if d == RemoveSocket(s) {
      LateRemovalSettles(a, b, p, k, s, q);
    } else {
      ProperSettles(a, b, p, Associate(k, s), q, d);
    }
  }

  // ---- main results ----

  /** From inverse maps, two calls made at the same time settle in every schedule exactly when they are compatible. */
  lemma TwoCallsSettleIff(a: SslMap, b: SslMap, p: Tid, c: Call, q: Tid, d: Call)
    requires Inverse(a, b) && 0 !in a && p != q
    ensures Settles(Two(a, b, p, c, q, d)) <==> Compatible(a, b, c, d)
  {
    hide Settles, Inverse;
    if Associates(c) {
      AssociationSettlesIff(a, b, p, c.ssl, c.socket, q, d);
    } else if Associates(d) {
      AssociationSettlesIff(a, b, q, d.ssl, d.socket, p, c);
      assert Two(a, b, p, c, q, d) == Two(a, b, q, d, p, c);
    } else {
      ProperSettles(a, b, p, c, q, d);
    }
  }

  lemma AssociationSettlesIff(a: SslMap, b: SslMap, p: Tid, k: nat, s: nat, q: Tid, d: Call)
    requires Inverse(a, b) && 0 !in a && p != q && k != 0
    ensures Settles(Two(a, b, p, Associate(k, s), q, d)) <==> Compatible(a, b, Associate(k, s), d)
  {
    hide Settles, Inverse;
    if !Compatible(a, b, Associate(k, s), d) {
      IncompatibleFails(a, b, p, k, s, q, d);
    } else if Associates(d) {
      PairsSettle(a, b, p, k, s, q, d.ssl, d.socket);
    } else {
      CallSettles(a, b, p, k, s, q, d);
    }
  }

  /** An SSL that is associated again while it is removed, for instance, can leave a socket that points to nothing. */
  lemma ReassociationRaces()
    ensures !Settles(Two(map[1 := 10], map[10 := 1], 0, RemoveSsl(1), 1, Associate(1, 20)))
  {
    var a: SslMap, b: SslMap := map[1 := 10], map[10 := 1];
    TwoCallsSettleIff(a, b, 0, RemoveSsl(1), 1, Associate(1, 20));
    hide Settles;
  }
}
