/** What removals return while other threads are at work. */
module SslResults {
  import opened Wrappers
  import opened SslMapping
  import opened SslThreads

  // ---- what is returned was mapped ----

  /** At some point of the run, the calls begun by then, made one after the other, held this pair. */
  ghost predicate Held(a: SslMap, b: SslMap, events: seq<Event>, ssl: nat, socket: nat) {
    exists n: nat :: n <= |events| && HeldAt(a, b, events[..n], ssl, socket)
  }

  predicate HeldAt(a: SslMap, b: SslMap, events: seq<Event>, ssl: nat, socket: nat) {
    var (x, y) := Sequential(a, b, events);
    ssl in x && x[ssl] == socket
  }

  /** The pair a removal has in hand or has returned. */
  ghost predicate InHand(th: Thread, ssl: nat, socket: nat) {
    match th.call
    case RemoveSsl(k) => k == ssl && (th.pc == Cleaning(socket) || th.pc == Returned(Some(socket)))
    case RemoveSocket(s) => s == socket && (th.pc == Cleaning(ssl) || th.pc == Returned(Some(ssl)))
    case Associate(_, _) => false
  }

  /** Whatever is mapped, in hand or returned has been held. */
  ghost predicate AllHeld(a: SslMap, b: SslMap, events: seq<Event>, w: World) {
    && (forall k <- w.a :: Held(a, b, events, k, w.a[k]))
    && (forall s <- w.b :: Held(a, b, events, w.b[s], s))
    && (forall t, k, s | t in w.threads && InHand(w.threads[t], k, s) :: Held(a, b, events, k, s))
  }

  lemma HeldStays(a: SslMap, b: SslMap, events: seq<Event>, e: Event, ssl: nat, socket: nat)
    requires Held(a, b, events, ssl, socket)
    ensures Held(a, b, events + [e], ssl, socket)
  {
    var n: nat :| n <= |events| && HeldAt(a, b, events[..n], ssl, socket);
    assert (events + [e])[..n] == events[..n];
  }

  lemma HeldNow(a: SslMap, b: SslMap, events: seq<Event>, ssl: nat, socket: nat)
    requires HeldAt(a, b, events, ssl, socket)
    ensures Held(a, b, events, ssl, socket)
  {
    assert events[..|events|] == events;
  }

  /** A step moves its own thread only; a call stays what it is and a returned one stays returned. */
  lemma StepFrame(w: World, t: Tid)
    requires t in w.threads
    ensures var v := Next(w, t);
            && v.threads.Keys == w.threads.Keys && v.threads[t].call == w.threads[t].call
            && (w.threads[t].pc.Returned? ==> v == w)
            && forall u <- w.threads :: u != t ==> v.threads[u] == w.threads[u]
  {
  }

  /** A step maps nothing that was not mapped or, for an association, is held now. */
  lemma StepMaps(x: SslMap, y: SslMap, w: World, t: Tid, k: nat, s: nat)
    requires Inv(x, y, w) && t in w.threads
    ensures var v := Next(w, t);
            && (k in v.a && v.a[k] == s ==> (k in w.a && w.a[k] == s) || (k in x && x[k] == s))
            && (s in v.b && v.b[s] == k ==> (s in w.b && w.b[s] == k) || (k in x && x[k] == s))
  {
    assert ThreadOk(x, y, w, w.threads[t]);
    hide MapsOk, AllApart, Inverse, ThreadsOk;
  }

  /** And takes nothing in hand that was not mapped. */
  lemma StepTakes(x: SslMap, y: SslMap, w: World, t: Tid, k: nat, s: nat)
    requires Inv(x, y, w) && t in w.threads && InHand(Next(w, t).threads[t], k, s)
    ensures InHand(w.threads[t], k, s) || (k in w.a && w.a[k] == s) || (s in w.b && w.b[s] == k)
  {
    assert ThreadOk(x, y, w, w.threads[t]);
    hide MapsOk, AllApart, Inverse, ThreadsOk;
  }

  lemma StepHolds(x: SslMap, y: SslMap, w: World, t: Tid, k: nat, s: nat)
    requires Inv(x, y, w) && t in w.threads
    ensures var v := Next(w, t);
            && (k in v.a && v.a[k] == s ==> (k in w.a && w.a[k] == s) || (k in x && x[k] == s))
            && (s in v.b && v.b[s] == k ==> (s in w.b && w.b[s] == k) || (k in x && x[k] == s))
            && (forall u <- v.threads :: InHand(v.threads[u], k, s) ==>
                  || (u in w.threads && InHand(w.threads[u], k, s))
                  || (k in w.a && w.a[k] == s) || (s in w.b && w.b[s] == k))
  {
    StepFrame(w, t);
    StepMaps(x, y, w, t, k, s);
    if InHand(Next(w, t).threads[t], k, s) { StepTakes(x, y, w, t, k, s); }
    hide Next, Inv, InHand;
  }

  lemma {:induction false} HeldThroughout(a: SslMap, b: SslMap, events: seq<Event>)
    requires Inverse(a, b) && 0 !in a && Orderly(Idle(a, b), events)
    ensures AllHeld(a, b, events, Run(Idle(a, b), events))
    decreases |events|
  {
    var w := Run(Idle(a, b), events);
    if events == [] {
      forall k <- a ensures Held(a, b, [], k, a[k]) { HeldNow(a, b, [], k, a[k]); }
      forall s <- b ensures Held(a, b, [], b[s], s) { HeldNow(a, b, [], b[s], s); }
    } else {
      var before, e := events[..|events| - 1], events[|events| - 1];
      assert events == before + [e];
      HeldThroughout(a, b, before);
      HeldOneMore(a, b, before, e);
    }
  }

  lemma HeldOneMore(a: SslMap, b: SslMap, before: seq<Event>, e: Event)
    requires Inverse(a, b) && 0 !in a && Orderly(Idle(a, b), before)
    requires AllHeld(a, b, before, Run(Idle(a, b), before))
    ensures AllHeld(a, b, before + [e], Do(Run(Idle(a, b), before), e))
  {
    var w := Run(Idle(a, b), before);
    var v := Do(w, e);
    IdleInv(a, b);
    RunKeeps(a, b, Idle(a, b), before);
    var (x, y) := Sequential(a, b, before);
    hide Run, Orderly, Sequential, Held, HeldAt, Inv, Inverse;
    forall k, s ensures
        && (k in v.a && v.a[k] == s ==> Held(a, b, before + [e], k, s))
        && (s in v.b && v.b[s] == k ==> Held(a, b, before + [e], k, s))
        && (forall u <- v.threads :: InHand(v.threads[u], k, s) ==> Held(a, b, before + [e], k, s))
    {
      HeldOfPair(a, b, before, e, x, y, w, k, s);
    }
  }

  lemma HeldOfPair(a: SslMap, b: SslMap, before: seq<Event>, e: Event, x: SslMap, y: SslMap, w: World, k: nat, s: nat)
    requires AllHeld(a, b, before, w) && Inv(x, y, w) && Sequential(a, b, before) == (x, y)
    ensures var v := Do(w, e);
            && (k in v.a && v.a[k] == s ==> Held(a, b, before + [e], k, s))
            && (s in v.b && v.b[s] == k ==> Held(a, b, before + [e], k, s))
            && (forall u <- v.threads :: InHand(v.threads[u], k, s) ==> Held(a, b, before + [e], k, s))
  {
    if k in x && x[k] == s { HeldNow(a, b, before, k, s); }
    if Held(a, b, before, k, s) { HeldStays(a, b, before, e, k, s); }
    if e.Step? && e.t in w.threads { StepHolds(x, y, w, e.t, k, s); }
    hide Held, Inv, Sequential, Next;
  }

  // ---- a removal that nobody disputes returns the partner ----

  /** Another thread's unfinished removal of the pair, or one that begins. */
  predicate Removes(c: Call, ssl: nat, socket: nat) {
    c == RemoveSsl(ssl) || c == RemoveSocket(socket)
  }

  /** The removal t of a pair that is whole until it takes it. */
  ghost predicate Undisputed(w: World, t: Tid, ssl: nat, socket: nat) {
    && t in w.threads && Removes(w.threads[t].call, ssl, socket)
    && (forall u <- w.threads :: u != t && Removes(w.threads[u].call, ssl, socket) ==> w.threads[u].pc.Returned?)
    && var partner := if w.threads[t].call.RemoveSsl? then socket else ssl;
       match w.threads[t].pc
       case Looking(n) => n == 0 && Whole(w, ssl, socket)
       case Removing(_, seen) => seen == partner && Whole(w, ssl, socket)
       case Cleaning(p) => p == partner
       case Returned(r) => r == Some(partner)
       case Sweeping(_, _) => false
       case Linking => false
  }

  ghost predicate Whole(w: World, ssl: nat, socket: nat) {
    ssl in w.a && w.a[ssl] == socket && socket in w.b && w.b[socket] == ssl
  }

  /** Until the removal has returned, no other removal of the pair begins, and its thread begins no other call. */
  predicate LeavesAlone(e: Event, t: Tid, ssl: nat, socket: nat) {
    e.Begin? ==> e.t != t && !Removes(e.call, ssl, socket)
  }

  lemma OwnStep(x: SslMap, y: SslMap, w: World, t: Tid, ssl: nat, socket: nat)
    requires Inv(x, y, w) && Undisputed(w, t, ssl, socket)
    ensures Undisputed(Next(w, t), t, ssl, socket)
  {
    assert ThreadOk(x, y, w, w.threads[t]) && SslOk(x, w, ssl);
    hide MapsOk, AllApart, Inverse, ThreadsOk, At, Ongoing;
  }

  /** Another thread cannot touch the pair: it serves another one, and associations keep away. */
  lemma OtherStep(x: SslMap, y: SslMap, w: World, t: Tid, u: Tid, ssl: nat, socket: nat)
    requires Inv(x, y, w) && Undisputed(w, t, ssl, socket) && u in w.threads && u != t
    ensures Undisputed(Next(w, u), t, ssl, socket)
  {
    StepFrame(w, u);
    assert w.threads[t].pc.Looking? || w.threads[t].pc.Removing? ==> Whole(w, ssl, socket);
    hide Inv, Whole, Next;
    if w.threads[t].pc.Looking? || w.threads[t].pc.Removing? {
      PairUntouched(x, y, w, t, u, ssl, socket);
    }
  }

  lemma PairUntouched(x: SslMap, y: SslMap, w: World, t: Tid, u: Tid, ssl: nat, socket: nat)
    requires Inv(x, y, w) && t in w.threads && u in w.threads && u != t && !w.threads[t].pc.Returned?
    requires Removes(w.threads[t].call, ssl, socket) && Whole(w, ssl, socket)
    requires Removes(w.threads[u].call, ssl, socket) ==> w.threads[u].pc.Returned?
    ensures Whole(Next(w, u), ssl, socket)
  {
    assert ThreadOk(x, y, w, w.threads[u]);
    assert Apart(w.threads[u], w.threads[t]);
    hide MapsOk, AllApart, Inverse, ThreadsOk;
  }

  lemma {:induction false} UndisputedRun(x: SslMap, y: SslMap, w: World, t: Tid, ssl: nat, socket: nat,
                                         events: seq<Event>)
    requires Inv(x, y, w) && Undisputed(w, t, ssl, socket) && Orderly(w, events)
    requires forall e <- events :: LeavesAlone(e, t, ssl, socket)
    ensures Undisputed(Run(w, events), t, ssl, socket)
    decreases |events|
  {
    if events != [] {
      var before, e := events[..|events| - 1], events[|events| - 1];
      assert e in events;
      UndisputedRun(x, y, w, t, ssl, socket, before);
      RunKeeps(x, y, w, before);
      var (x1, y1) := Sequential(x, y, before);
      UndisputedOne(x1, y1, Run(w, before), t, ssl, socket, e);
    }
  }

  lemma UndisputedOne(x: SslMap, y: SslMap, w: World, t: Tid, ssl: nat, socket: nat, e: Event)
    requires Inv(x, y, w) && Undisputed(w, t, ssl, socket) && LeavesAlone(e, t, ssl, socket)
    ensures Undisputed(Do(w, e), t, ssl, socket)
  {
    hide Inv;
    match e {
      case Begin(u, c) =>
      case Step(u) =>
        if u == t {
          OwnStep(x, y, w, t, ssl, socket);
        } else if u in w.threads {
          OtherStep(x, y, w, t, u, ssl, socket);
        }
    }
  }

  /** Where it begins, a pair that the sequential maps hold and nobody is removing is whole. */
  lemma WholeAtFirst(x: SslMap, y: SslMap, w: World, t: Tid, c: Call, ssl: nat, socket: nat)
    requires Inv(x, y, w) && Proper(w, Begin(t, c)) && Removes(c, ssl, socket) && ssl in x && x[ssl] == socket
    requires forall u <- w.threads :: Removes(w.threads[u].call, ssl, socket) ==> w.threads[u].pc.Returned?
    ensures Whole(w, ssl, socket)
  {
    assert SslOk(x, w, ssl) && SocketOk(y, w, socket);
    forall u <- w.threads ensures w.threads[u].call == Associate(ssl, socket) ==> w.threads[u].pc.Returned? {
      assert Apart(w.threads[u], Thread(c, Looking(0)));
      assert ThreadOk(x, y, w, w.threads[u]);
    }
    hide MapsOk, AllApart, ThreadsOk;
  }

  // ---- main results ----

  /** In every orderly run, a removal that has returned a partner names a pair that was held at some point of it. */
  lemma ReturnedWasHeld(a: SslMap, b: SslMap, events: seq<Event>, t: Tid)
    requires Inverse(a, b) && 0 !in a && Orderly(Idle(a, b), events) && t in Run(Idle(a, b), events).threads
    ensures var th := Run(Idle(a, b), events).threads[t];
            th.pc.Returned? && th.pc.result.Some? ==>
              && (th.call.RemoveSsl? ==> Held(a, b, events, th.call.ssl, th.pc.result.value))
              && (th.call.RemoveSocket? ==> Held(a, b, events, th.pc.result.value, th.call.socket))
  {
    HeldThroughout(a, b, events);
    var th := Run(Idle(a, b), events).threads[t];
    hide Run, Held, Orderly;
    if th.pc.Returned? && th.pc.result.Some? {
      assert th.call.RemoveSsl? ==> InHand(th, th.call.ssl, th.pc.result.value);
      assert th.call.RemoveSocket? ==> InHand(th, th.pc.result.value, th.call.socket);
    }
  }

  /**
   A removal that begins on a pair the sequential maps hold while no other removal of the pair is unfinished
   or begins before it has returned, returns the partner, whatever all other calls do in between.
   */
  lemma UndisputedReturnsPartner(a: SslMap, b: SslMap, before: seq<Event>, t: Tid, c: Call, ssl: nat, socket: nat,
                                 after: seq<Event>)
    requires Inverse(a, b) && 0 !in a && Orderly(Idle(a, b), before)
    requires HeldAt(a, b, before, ssl, socket) && Removes(c, ssl, socket)
    requires var w := Run(Idle(a, b), before);
             && Proper(w, Begin(t, c))
             && (forall u <- w.threads :: Removes(w.threads[u].call, ssl, socket) ==> w.threads[u].pc.Returned?)
             && Orderly(Do(w, Begin(t, c)), after)
    requires forall e <- after :: LeavesAlone(e, t, ssl, socket)
    ensures var v := Run(Do(Run(Idle(a, b), before), Begin(t, c)), after);
            && t in v.threads && v.threads[t].call == c
            && (v.threads[t].pc.Returned? ==>
                  v.threads[t].pc.result == Some(if c.RemoveSsl? then socket else ssl))
  {
    IdleInv(a, b);
    RunKeeps(a, b, Idle(a, b), before);
    var w := Run(Idle(a, b), before);
    var (x, y) := Sequential(a, b, before);
    WholeAtFirst(x, y, w, t, c, ssl, socket);
    DoKeeps(x, y, w, Begin(t, c));
    var (x1, y1) := Alone(x, y, c);
    var w1 := Do(w, Begin(t, c));
    assert Undisputed(w1, t, ssl, socket);
    hide Inv, Run, Orderly, Sequential, Proper;
    UndisputedRun(x1, y1, w1, t, ssl, socket, after);
    CallStays(w1, t, c, after);
  }

  lemma {:induction false} CallStays(w: World, t: Tid, c: Call, events: seq<Event>)
    requires t in w.threads && w.threads[t].call == c && forall e <- events :: e.Begin? ==> e.t != t
    ensures var v := Run(w, events); t in v.threads && v.threads[t].call == c
    decreases |events|
  {
    if events != [] {
      var before, e := events[..|events| - 1], events[|events| - 1];
      assert e in events;
      CallStays(w, t, c, before);
      var v := Run(w, before);
      if e.Step? && e.t in v.threads { StepFrame(v, e.t); }
      hide Next;
    }
  }
}
