/**
 Any number of threads on the two-way map, each making one call after another. One step is one operation
 on one of the two maps, so the calls interleave between their reads and writes.
 */
module SslThreads {
  import opened Wrappers
  import opened SslMapping

  datatype Call = RemoveSsl(ssl: nat) | RemoveSocket(socket: nat) | Associate(ssl: nat, socket: nat)

  /**
   Where a call stands. Attempts count from zero; Sweeping is the repair path for a value that changed under
   the call.
   */
  datatype Pc =
    | Looking(attempt: nat)
    | Removing(attempt: nat, seen: nat)
    | Cleaning(partner: nat)
    | Sweeping(first: nat, second: nat)
    | Linking
    | Returned(result: Option<nat>)

  datatype Thread = Thread(call: Call, pc: Pc)
  type Tid = nat

  datatype World = World(a: SslMap, b: SslMap, threads: map<Tid, Thread>)

  const MAX_RETRIES: nat := 3

  function SetPc(w: World, t: Tid, pc: Pc): World
    requires t in w.threads
  {
    w.(threads := w.threads[t := w.threads[t].(pc := pc)])
  }

  function Retry(attempt: nat): Pc {
    if attempt + 1 < MAX_RETRIES then Looking(attempt + 1) else Returned(None)
  }

  function Next(w: World, t: Tid): World
    requires t in w.threads
  {
    match w.threads[t].call
    case RemoveSsl(ssl) => StepRemoveSsl(w, t, ssl)
    case RemoveSocket(socket) => StepRemoveSocket(w, t, socket)
    case Associate(ssl, socket) => StepAssociate(w, t, ssl, socket)
  }

  function StepRemoveSsl(w: World, t: Tid, ssl: nat): World
    requires t in w.threads
  {
    match w.threads[t].pc
    case Looking(n) =>
      if ssl == 0 || ssl !in w.a then SetPc(w, t, Returned(None)) else SetPc(w, t, Removing(n, w.a[ssl]))
    case Removing(n, seen) =>
      if ssl !in w.a then SetPc(w, t, Retry(n))
      else if w.a[ssl] != seen then SetPc(w, t, Sweeping(seen, w.a[ssl])).(a := w.a - {ssl})
      else SetPc(w, t, Cleaning(seen)).(a := w.a - {ssl})
    case Cleaning(socket) => SetPc(w, t, Returned(Some(socket))).(b := w.b - {socket})
    case Sweeping(first, second) => SetPc(w, t, Cleaning(second)).(b := w.b - {first})
    case Linking => w
    case Returned(_) => w
  }

  function StepRemoveSocket(w: World, t: Tid, socket: nat): World
    requires t in w.threads
  {
    match w.threads[t].pc
    case Looking(n) =>
      if socket !in w.b then SetPc(w, t, Returned(None)) else SetPc(w, t, Removing(n, w.b[socket]))
    case Removing(n, _) =>
      if socket !in w.b then SetPc(w, t, Retry(n)) else SetPc(w, t, Cleaning(w.b[socket])).(b := w.b - {socket})
    case Cleaning(ssl) => SetPc(w, t, Returned(Some(ssl))).(a := w.a - {ssl})
    case Sweeping(_, _) => w
    case Linking => w
    case Returned(_) => w
  }

  function StepAssociate(w: World, t: Tid, ssl: nat, socket: nat): World
    requires t in w.threads
  {
    match w.threads[t].pc
    case Looking(_) =>
      if ssl == 0 then SetPc(w, t, Returned(None)) else SetPc(w, t, Linking).(a := w.a[ssl := socket])
    case Linking => SetPc(w, t, Returned(Some(socket))).(b := w.b[socket := ssl])
    case Removing(_, _) => w
    case Cleaning(_) => w
    case Sweeping(_, _) => w
    case Returned(_) => w
  }

  /** A thread begins a call, or takes the next step of the one it has begun. */
  datatype Event = Begin(t: Tid, call: Call) | Step(t: Tid)

  function Do(w: World, e: Event): World {
    match e
    case Begin(t, c) => w.(threads := w.threads[t := Thread(c, Looking(0))])
    case Step(t) => if t in w.threads then Next(w, t) else w
  }

  function Run(w: World, events: seq<Event>): World
    decreases |events|
  {
    if events == [] then w else Do(Run(w, events[..|events| - 1]), events[|events| - 1])
  }

  predicate AllReturned(w: World) {
    forall t <- w.threads :: w.threads[t].pc.Returned?
  }

  // ---- the calls made one after the other ----

  function Alone(a: SslMap, b: SslMap, c: Call): (SslMap, SslMap) {
    match c
    case RemoveSsl(ssl) => WithoutSsl(a, b, ssl)
    case RemoveSocket(socket) => WithoutSocket(a, b, socket)
    case Associate(ssl, socket) => Associated(a, b, ssl, socket)
  }

  /** The maps after the same calls, each made as a whole where it begins. */
  function Sequential(a: SslMap, b: SslMap, events: seq<Event>): (SslMap, SslMap)
    decreases |events|
  {
    if events == [] then (a, b)
    else
      var (x, y) := Sequential(a, b, events[..|events| - 1]);
      match events[|events| - 1]
      case Begin(_, c) => Alone(x, y, c)
      case Step(_) => (x, y)
  }

  // ---- what is asked of the calls ----

  predicate Associates(c: Call) {
    c.Associate? && c.ssl != 0
  }

  /** Neither side is tied to another partner. */
  predicate Free(a: SslMap, b: SslMap, ssl: nat, socket: nat) {
    (ssl in a ==> a[ssl] == socket) && (socket in b ==> b[socket] == ssl)
  }

  /** An unfinished call that has nothing to do with a pair, or associates the very same one. */
  predicate Harmless(th: Thread, ssl: nat, socket: nat) {
    th.pc.Returned? ||
    match th.call
    case RemoveSsl(k) => k != ssl && th.pc != Cleaning(socket)
    case RemoveSocket(s) => s != socket && th.pc != Cleaning(ssl)
    case Associate(k, s) => k == 0 || (k == ssl <==> s == socket)
  }

  predicate Apart(g: Thread, h: Thread) {
    Associates(g.call) && !g.pc.Returned? ==> Harmless(h, g.call.ssl, g.call.socket)
  }

  /**
   A thread begins its next call after the one before has returned. An association ties a pair of which
   neither side has another partner, and no unfinished removal deals with either side, neither when the
   association begins nor until it has returned.
   */
  predicate Proper(w: World, e: Event) {
    e.Begin? ==>
      && (e.t in w.threads ==> w.threads[e.t].pc.Returned?)
      && (Associates(e.call) ==> Free(w.a, w.b, e.call.ssl, e.call.socket))
      && (forall u <- w.threads :: Apart(Thread(e.call, Looking(0)), w.threads[u]))
      && (forall u <- w.threads :: Apart(w.threads[u], Thread(e.call, Looking(0))))
  }

  predicate Orderly(w: World, events: seq<Event>)
    decreases |events|
  {
    events == [] ||
    var before := events[..|events| - 1];
    Orderly(w, before) && Proper(Run(w, before), events[|events| - 1])
  }

  // ---- the invariant, clause by clause ----

  ghost predicate At(w: World, c: Call, pc: Pc) {
    exists t <- w.threads :: w.threads[t] == Thread(c, pc)
  }

  ghost predicate Ongoing(w: World, c: Call) {
    exists t <- w.threads :: w.threads[t].call == c && !w.threads[t].pc.Returned?
  }

  /**
   An SSL is half mapped only while the call that removed or will insert the other half is not finished,
   it is mapped otherwise than after the sequential calls (x) only while a removal is not finished, and
   is missing only while its association has not begun to write.
   */
  ghost predicate SslOk(x: SslMap, w: World, k: nat) {
    && (k in w.a ==>
        && k != 0
        && (if w.a[k] in w.b then w.b[w.a[k]] == k
            else At(w, RemoveSocket(w.a[k]), Cleaning(k)) || At(w, Associate(k, w.a[k]), Linking))
        && ((k in x && x[k] == w.a[k]) || Ongoing(w, RemoveSsl(k)) || Ongoing(w, RemoveSocket(w.a[k]))))
    && (k in x ==> (k in w.a && w.a[k] == x[k]) || At(w, Associate(k, x[k]), Looking(0)))
  }

  ghost predicate SocketOk(y: SslMap, w: World, s: nat) {
    && (s in w.b ==>
        && (if w.b[s] in w.a then w.a[w.b[s]] == s else At(w, RemoveSsl(w.b[s]), Cleaning(s)))
        && ((s in y && y[s] == w.b[s]) || Ongoing(w, RemoveSsl(w.b[s])) || Ongoing(w, RemoveSocket(s))))
    && (s in y ==>
        (s in w.b && w.b[s] == y[s]) || At(w, Associate(y[s], s), Looking(0)) || At(w, Associate(y[s], s), Linking))
  }

  /** What an unfinished call knows about its own pair. */
  ghost predicate ThreadOk(x: SslMap, y: SslMap, w: World, th: Thread) {
    match th.call
    case RemoveSsl(k) => (
      match th.pc
      case Looking(n) => k !in x && (n == 0 || (n == 1 && k !in w.a))
      case Removing(n, s) => k !in x && n == 0 && (k in w.a ==> w.a[k] == s)
      case Cleaning(s) => k !in x && k !in w.a && (s in w.b ==> w.b[s] == k)
      case Returned(_) => true
      case Sweeping(_, _) => false
      case Linking => false
    )
    case RemoveSocket(s) => (
      match th.pc
      case Looking(n) => s !in y && (n == 0 || (n == 1 && s !in w.b))
      case Removing(n, _) => s !in y && n == 0
      case Cleaning(k) => s !in y && s !in w.b && (k in w.a ==> w.a[k] == s)
      case Returned(_) => true
      case Sweeping(_, _) => false
      case Linking => false
    )
    case Associate(k, s) => (
      match th.pc
      case Looking(n) => n == 0 && (k != 0 ==> k in x && x[k] == s && Free(w.a, w.b, k, s))
      case Linking => k != 0 && k in x && x[k] == s && Free(w.a, w.b, k, s) && k in w.a
      case Returned(_) => true
      case Removing(_, _) => false
      case Cleaning(_) => false
      case Sweeping(_, _) => false
    )
  }

  ghost predicate MapsOk(x: SslMap, y: SslMap, w: World) {
    (forall k :: SslOk(x, w, k)) && (forall s :: SocketOk(y, w, s))
  }

  ghost predicate ThreadsOk(x: SslMap, y: SslMap, w: World) {
    forall t <- w.threads :: ThreadOk(x, y, w, w.threads[t])
  }

  ghost predicate AllApart(w: World) {
    forall t, u | t in w.threads && u in w.threads :: Apart(w.threads[t], w.threads[u])
  }

  /** The state w while x and y are the maps after the sequential calls. */
  ghost predicate Inv(x: SslMap, y: SslMap, w: World) {
    Inverse(x, y) && 0 !in x && MapsOk(x, y, w) && ThreadsOk(x, y, w) && AllApart(w)
  }

  // ---- one lemma a kind of step ----

  /** Only thread t has moved, or begun a call. */
  ghost predicate Moved(w: World, v: World, t: Tid) {
    && v.threads.Keys == w.threads.Keys + {t}
    && forall u <- w.threads | u != t :: v.threads[u] == w.threads[u]
  }

  lemma AtStays(w: World, v: World, t: Tid, c: Call, pc: Pc)
    requires Moved(w, v, t) && At(w, c, pc) && (t in w.threads ==> w.threads[t] != Thread(c, pc))
    ensures At(v, c, pc)
  {
    var u :| u in w.threads && w.threads[u] == Thread(c, pc);
    assert v.threads[u] == w.threads[u];
  }

  lemma OngoingStays(w: World, v: World, t: Tid, c: Call)
    requires Moved(w, v, t) && Ongoing(w, c)
    requires t in w.threads && !w.threads[t].pc.Returned? && w.threads[t].call == c ==>
               v.threads[t].call == c && !v.threads[t].pc.Returned?
    ensures Ongoing(v, c)
  {
    var u :| u in w.threads && w.threads[u].call == c && !w.threads[u].pc.Returned?;
    assert u != t ==> v.threads[u] == w.threads[u];
  }

  /** A call that is not finished ties its pair after the sequential calls, and no other thread stands in its way. */
  lemma AssociationKnows(x: SslMap, y: SslMap, w: World, k: nat, s: nat, pc: Pc, t: Tid)
    requires Inv(x, y, w) && At(w, Associate(k, s), pc) && (pc == Looking(0) || pc == Linking) && k != 0
             && t in w.threads
    ensures Harmless(w.threads[t], k, s)
    ensures k in x && x[k] == s && Free(w.a, w.b, k, s)
  {
    var u :| u in w.threads && w.threads[u] == Thread(Associate(k, s), pc);
    assert ThreadOk(x, y, w, w.threads[u]) && Apart(w.threads[u], w.threads[t]);
  }

  /** Thread t has taken a step of its call, which leaves no other association in the lurch. */
  ghost predicate Stepped(w: World, v: World, t: Tid) {
    && t in w.threads && Moved(w, v, t)
    && v.threads[t].call == w.threads[t].call && !w.threads[t].pc.Returned?
    && forall u <- w.threads :: Apart(w.threads[u], v.threads[t])
  }

  lemma StaysApart(w: World, v: World, t: Tid)
    requires AllApart(w) && Stepped(w, v, t)
    ensures AllApart(v)
  {
    forall g, h | g in v.threads && h in v.threads ensures Apart(v.threads[g], v.threads[h]) {
      assert Apart(w.threads[g], w.threads[h]) && Apart(w.threads[g], v.threads[t]);
    }
  }

  /** What can be said of an SSL stays when its entries do and the thread that moves was no witness of it. */
  lemma SslStays(x: SslMap, w: World, v: World, t: Tid, k: nat)
    requires SslOk(x, w, k) && Moved(w, v, t)
    requires k in w.a <==> k in v.a
    requires k in w.a ==>
               var s := w.a[k];
               && v.a[k] == s && (s in w.b <==> s in v.b) && (s in w.b ==> v.b[s] == w.b[s])
               && (t in w.threads && !w.threads[t].pc.Returned? ==>
                     && w.threads[t] != Thread(Associate(k, s), Linking)
                     && w.threads[t] != Thread(RemoveSocket(s), Cleaning(k))
                     && (w.threads[t].call == RemoveSsl(k) || w.threads[t].call == RemoveSocket(s) ==>
                           v.threads[t].call == w.threads[t].call && !v.threads[t].pc.Returned?))
    requires k in x ==> t in w.threads ==> w.threads[t] != Thread(Associate(k, x[k]), Looking(0))
    ensures SslOk(x, v, k)
  {
    if k in w.a {
      var s := w.a[k];
      if At(w, RemoveSocket(s), Cleaning(k)) { AtStays(w, v, t, RemoveSocket(s), Cleaning(k)); }
      if At(w, Associate(k, s), Linking) { AtStays(w, v, t, Associate(k, s), Linking); }
      if Ongoing(w, RemoveSsl(k)) { OngoingStays(w, v, t, RemoveSsl(k)); }
      if Ongoing(w, RemoveSocket(s)) { OngoingStays(w, v, t, RemoveSocket(s)); }
    }
    if k in x && At(w, Associate(k, x[k]), Looking(0)) { AtStays(w, v, t, Associate(k, x[k]), Looking(0)); }
    hide At, Ongoing, Moved;
  }

  lemma SocketStays(y: SslMap, w: World, v: World, t: Tid, s: nat)
    requires SocketOk(y, w, s) && Moved(w, v, t)
    requires s in w.b <==> s in v.b
    requires s in w.b ==>
               var k := w.b[s];
               && v.b[s] == k && (k in w.a <==> k in v.a) && (k in w.a ==> v.a[k] == w.a[k])
               && (t in w.threads && !w.threads[t].pc.Returned? ==>
                     && w.threads[t] != Thread(RemoveSsl(k), Cleaning(s))
                     && (w.threads[t].call == RemoveSsl(k) || w.threads[t].call == RemoveSocket(s) ==>
                           v.threads[t].call == w.threads[t].call && !v.threads[t].pc.Returned?))
    requires s in y ==> t in w.threads ==>
               w.threads[t] != Thread(Associate(y[s], s), Looking(0))
               && w.threads[t] != Thread(Associate(y[s], s), Linking)
    ensures SocketOk(y, v, s)
  {
    if s in w.b {
      var k := w.b[s];
      if At(w, RemoveSsl(k), Cleaning(s)) { AtStays(w, v, t, RemoveSsl(k), Cleaning(s)); }
      if Ongoing(w, RemoveSsl(k)) { OngoingStays(w, v, t, RemoveSsl(k)); }
      if Ongoing(w, RemoveSocket(s)) { OngoingStays(w, v, t, RemoveSocket(s)); }
    }
    if s in y {
      if At(w, Associate(y[s], s), Looking(0)) { AtStays(w, v, t, Associate(y[s], s), Looking(0)); }
      if At(w, Associate(y[s], s), Linking) { AtStays(w, v, t, Associate(y[s], s), Linking); }
    }
    hide At, Ongoing, Moved;
  }

  /** Losing entries keeps what another thread knows, unless it is about to link them. */
  lemma LossKeepsThread(x: SslMap, y: SslMap, w: World, v: World, th: Thread)
    requires ThreadOk(x, y, w, th)
    requires Sub(v.a, w.a) && Sub(v.b, w.b)
    requires th.call.Associate? && th.pc == Linking ==> (th.call.ssl in w.a ==> th.call.ssl in v.a)
    ensures ThreadOk(x, y, v, th)
  {
  }

  /** So does the arrival of a pair that it has nothing to do with. */
  lemma ArrivalKeepsThread(x: SslMap, y: SslMap, w: World, v: World, k: nat, s: nat, th: Thread)
    requires ThreadOk(x, y, w, th) && Harmless(th, k, s)
    requires (v.a, v.b) == (w.a[k := s], w.b) || (v.a, v.b) == (w.a, w.b[s := k])
    ensures ThreadOk(x, y, v, th)
  {
  }

  /** A removal that only looks, and returns only when there is nothing to remove. */
  lemma LookKeeps(x: SslMap, y: SslMap, w: World, v: World, t: Tid)
    requires Inv(x, y, w) && Stepped(w, v, t) && v.a == w.a && v.b == w.b
    requires !w.threads[t].pc.Cleaning? && !w.threads[t].call.Associate?
    requires v.threads[t].pc.Returned? ==>
               match w.threads[t].call
               case RemoveSsl(k) => k !in w.a
               case RemoveSocket(s) => s !in w.b
               case Associate(_, _) => true
    requires ThreadOk(x, y, v, v.threads[t])
    ensures Inv(x, y, v)
  {
    StaysApart(w, v, t);
    hide AllApart, Inverse, At, Ongoing, Apart;
    forall k ensures SslOk(x, v, k) {
      assert SslOk(x, w, k);
      if k in w.a && w.threads[t].call == RemoveSocket(w.a[k]) && v.threads[t].pc.Returned? {
        LookedInVain(x, y, w, v, t, k, w.a[k]);
      } else {
        SslStays(x, w, v, t, k);
      }
    }
    forall s ensures SocketOk(y, v, s) {
      assert SocketOk(y, w, s);
      if s in w.b && w.threads[t].call == RemoveSsl(w.b[s]) && v.threads[t].pc.Returned? {
        LookedForSslInVain(y, w, v, t, w.b[s], s);
      } else {
        SocketStays(y, w, v, t, s);
      }
    }
    forall u <- v.threads ensures ThreadOk(x, y, v, v.threads[u]) {
      if u != t { assert ThreadOk(x, y, w, w.threads[u]); }
    }
  }

  lemma LookedInVain(x: SslMap, y: SslMap, w: World, v: World, t: Tid, k: nat, s: nat)
    requires Inv(x, y, w) && Stepped(w, v, t) && v.a == w.a && v.b == w.b
    requires w.threads[t].call == RemoveSocket(s) && !w.threads[t].pc.Cleaning? && s !in w.b && k in w.a && w.a[k] == s
    ensures SslOk(x, v, k)
  {
    assert SslOk(x, w, k);
    if At(w, Associate(k, s), Linking) { AssociationKnows(x, y, w, k, s, Linking, t); }
    AtStays(w, v, t, RemoveSocket(s), Cleaning(k));
    if k in x && At(w, Associate(k, x[k]), Looking(0)) { AssociationKnows(x, y, w, k, x[k], Looking(0), t); }
    hide At;
  }

  lemma LookedForSslInVain(y: SslMap, w: World, v: World, t: Tid, k: nat, s: nat)
    requires SocketOk(y, w, s) && Stepped(w, v, t) && v.a == w.a && v.b == w.b
    requires w.threads[t].call == RemoveSsl(k) && !w.threads[t].pc.Cleaning? && k !in w.a && s in w.b && w.b[s] == k
    ensures SocketOk(y, v, s)
  {
    AtStays(w, v, t, RemoveSsl(k), Cleaning(s));
    if s in y {
      if At(w, Associate(y[s], s), Looking(0)) { AtStays(w, v, t, Associate(y[s], s), Looking(0)); }
      if At(w, Associate(y[s], s), Linking) { AtStays(w, v, t, Associate(y[s], s), Linking); }
    }
  }

  /** The first half of a removal by SSL; its socket is half mapped from here on. */
  lemma RemoveSslWrites(x: SslMap, y: SslMap, w: World, v: World, t: Tid, k: nat, s: nat)
    requires Inv(x, y, w) && Stepped(w, v, t) && w.threads[t].call == RemoveSsl(k) && w.threads[t].pc.Removing?
    requires v.threads[t].pc == Cleaning(s) && v.a == w.a - {k} && v.b == w.b && k in w.a && w.a[k] == s
    ensures Inv(x, y, v)
  {
    StaysApart(w, v, t);
    assert ThreadOk(x, y, w, w.threads[t]);
    assert At(v, RemoveSsl(k), Cleaning(s)) && Ongoing(v, RemoveSsl(k)) by {
      assert v.threads[t] == Thread(RemoveSsl(k), Cleaning(s));
    }
    assert SslOk(x, w, k);
    hide AllApart, Inverse, At, Ongoing;
    forall k2 ensures SslOk(x, v, k2) {
      assert SslOk(x, w, k2);
      if k2 != k { SslStays(x, w, v, t, k2); }
    }
    forall s2 ensures SocketOk(y, v, s2) {
      assert SocketOk(y, w, s2);
      if s2 in w.b && w.b[s2] == k {
        HalfOfSsl(y, w, v, t, k, s2);
      } else {
        SocketStays(y, w, v, t, s2);
      }
    }
    forall u <- v.threads ensures ThreadOk(x, y, v, v.threads[u]) {
      assert ThreadOk(x, y, w, w.threads[u]) && Apart(w.threads[u], v.threads[t]);
      if u != t { LossKeepsThread(x, y, w, v, w.threads[u]); }
    }
  }

  lemma HalfOfSsl(y: SslMap, w: World, v: World, t: Tid, k: nat, s: nat)
    requires SocketOk(y, w, s) && Stepped(w, v, t) && v.a == w.a - {k} && v.b == w.b
    requires s in w.b && w.b[s] == k && At(v, RemoveSsl(k), Cleaning(s)) && Ongoing(v, RemoveSsl(k))
    requires w.threads[t].call.RemoveSsl?
    ensures SocketOk(y, v, s)
  {
    if s in y {
      if At(w, Associate(y[s], s), Looking(0)) { AtStays(w, v, t, Associate(y[s], s), Looking(0)); }
      if At(w, Associate(y[s], s), Linking) { AtStays(w, v, t, Associate(y[s], s), Linking); }
    }
    hide At, Ongoing;
  }

  /** The second half. */
  lemma RemoveSslCleans(x: SslMap, y: SslMap, w: World, v: World, t: Tid, k: nat, s: nat)
    requires Inv(x, y, w) && Stepped(w, v, t) && w.threads[t] == Thread(RemoveSsl(k), Cleaning(s))
    requires v.threads[t].pc.Returned? && v.a == w.a && v.b == w.b - {s}
    ensures Inv(x, y, v)
  {
    StaysApart(w, v, t);
    assert ThreadOk(x, y, w, w.threads[t]);
    hide AllApart, At, Ongoing;
    forall k2 ensures SslOk(x, v, k2) {
      assert SslOk(x, w, k2);
      SslStays(x, w, v, t, k2);
    }
    forall s2 ensures SocketOk(y, v, s2) {
      assert SocketOk(y, w, s2);
      if s2 == s {
        if s in y { SocketOfLedger(x, y, w, v, t, k, s); }
      } else if s2 in w.b && w.b[s2] == k {
        AtStays(w, v, t, RemoveSsl(k), Cleaning(s2));
        CleaningIsOngoing(v, RemoveSsl(k), s2);
        if s2 in y && At(w, Associate(y[s2], s2), Looking(0)) { AtStays(w, v, t, Associate(y[s2], s2), Looking(0)); }
        if s2 in y && At(w, Associate(y[s2], s2), Linking) { AtStays(w, v, t, Associate(y[s2], s2), Linking); }
      } else {
        SocketStays(y, w, v, t, s2);
      }
    }
    forall u <- v.threads ensures ThreadOk(x, y, v, v.threads[u]) {
      assert ThreadOk(x, y, w, w.threads[u]);
      if u != t { LossKeepsThread(x, y, w, v, w.threads[u]); }
    }
  }

  lemma CleaningIsOngoing(w: World, c: Call, partner: nat)
    requires At(w, c, Cleaning(partner))
    ensures Ongoing(w, c)
  {
  }

  lemma SocketOfLedger(x: SslMap, y: SslMap, w: World, v: World, t: Tid, k: nat, s: nat)
    requires Inverse(x, y) && k !in x && s in y && SocketOk(y, w, s) && (s in w.b ==> w.b[s] == k)
    requires Stepped(w, v, t) && w.threads[t].call == RemoveSsl(k) && s !in v.b
    ensures SocketOk(y, v, s)
  {
    if At(w, Associate(y[s], s), Looking(0)) { AtStays(w, v, t, Associate(y[s], s), Looking(0)); }
    if At(w, Associate(y[s], s), Linking) { AtStays(w, v, t, Associate(y[s], s), Linking); }
  }

  /** The first half of a removal by socket. */
  lemma RemoveSocketWrites(x: SslMap, y: SslMap, w: World, v: World, t: Tid, k: nat, s: nat)
    requires Inv(x, y, w) && Stepped(w, v, t) && w.threads[t].call == RemoveSocket(s) && w.threads[t].pc.Removing?
    requires v.threads[t].pc == Cleaning(k) && v.a == w.a && v.b == w.b - {s} && s in w.b && w.b[s] == k
    ensures Inv(x, y, v)
  {
    StaysApart(w, v, t);
    assert ThreadOk(x, y, w, w.threads[t]);
    assert At(v, RemoveSocket(s), Cleaning(k)) && Ongoing(v, RemoveSocket(s)) by {
      assert v.threads[t] == Thread(RemoveSocket(s), Cleaning(k));
    }
    assert SocketOk(y, w, s);
    hide AllApart, Inverse, At, Ongoing;
    forall k2 ensures SslOk(x, v, k2) {
      assert SslOk(x, w, k2);
      if k2 in w.a && w.a[k2] == s {
        if k2 in x && At(w, Associate(k2, x[k2]), Looking(0)) { AtStays(w, v, t, Associate(k2, x[k2]), Looking(0)); }
      } else {
        SslStays(x, w, v, t, k2);
      }
    }
    forall s2 ensures SocketOk(y, v, s2) {
      assert SocketOk(y, w, s2);
      if s2 != s { SocketStays(y, w, v, t, s2); }
    }
    forall u <- v.threads ensures ThreadOk(x, y, v, v.threads[u]) {
      assert ThreadOk(x, y, w, w.threads[u]) && Apart(w.threads[u], v.threads[t]);
      if u != t { LossKeepsThread(x, y, w, v, w.threads[u]); }
    }
  }

  lemma RemoveSocketCleans(x: SslMap, y: SslMap, w: World, v: World, t: Tid, k: nat, s: nat)
    requires Inv(x, y, w) && Stepped(w, v, t) && w.threads[t] == Thread(RemoveSocket(s), Cleaning(k))
    requires v.threads[t].pc.Returned? && v.a == w.a - {k} && v.b == w.b
    ensures Inv(x, y, v)
  {
    StaysApart(w, v, t);
    assert ThreadOk(x, y, w, w.threads[t]);
    hide AllApart, At, Ongoing;
    forall k2 ensures SslOk(x, v, k2) {
      assert SslOk(x, w, k2);
      if k2 == k {
        if k in x && At(w, Associate(k, x[k]), Looking(0)) { AtStays(w, v, t, Associate(k, x[k]), Looking(0)); }
      } else if k2 in w.a && w.a[k2] == s {
        if At(w, Associate(k2, s), Linking) { AssociationKnows(x, y, w, k2, s, Linking, t); }
        AtStays(w, v, t, RemoveSocket(s), Cleaning(k2));
        CleaningIsOngoing(v, RemoveSocket(s), k2);
        if k2 in x && At(w, Associate(k2, x[k2]), Looking(0)) { AssociationKnows(x, y, w, k2, x[k2], Looking(0), t); }
      } else {
        SslStays(x, w, v, t, k2);
      }
    }
    forall s2 ensures SocketOk(y, v, s2) {
      assert SocketOk(y, w, s2);
      SocketStays(y, w, v, t, s2);
    }
    forall u <- v.threads ensures ThreadOk(x, y, v, v.threads[u]) {
      assert ThreadOk(x, y, w, w.threads[u]) && Apart(w.threads[u], w.threads[t]);
      if u != t { LossKeepsThread(x, y, w, v, w.threads[u]); }
    }
  }

  /** The first half of an association. */
  lemma AssociateWrites(x: SslMap, y: SslMap, w: World, v: World, t: Tid, k: nat, s: nat)
    requires Inv(x, y, w) && Stepped(w, v, t) && w.threads[t] == Thread(Associate(k, s), Looking(0)) && k != 0
    requires v.threads[t].pc == Linking && v.a == w.a[k := s] && v.b == w.b
    ensures Inv(x, y, v)
  {
    StaysApart(w, v, t);
    assert ThreadOk(x, y, w, w.threads[t]);
    assert At(w, Associate(k, s), Looking(0)) by { assert w.threads[t] == Thread(Associate(k, s), Looking(0)); }
    assert At(v, Associate(k, s), Linking) by { assert v.threads[t] == Thread(Associate(k, s), Linking); }
    hide AllApart, At, Ongoing;
    forall k2 ensures SslOk(x, v, k2) {
      assert SslOk(x, w, k2);
      if k2 != k { SslStays(x, w, v, t, k2); }
    }
    forall s2 ensures SocketOk(y, v, s2) {
      assert SocketOk(y, w, s2);
      if s2 in w.b && w.b[s2] == k && k !in w.a {
        NotCleaningSsl(x, y, w, k, s, Looking(0), s2);
      } else if s2 != s {
        SocketStays(y, w, v, t, s2);
      } else if s in w.b {
        if Ongoing(w, RemoveSsl(k)) { OngoingStays(w, v, t, RemoveSsl(k)); }
        if Ongoing(w, RemoveSocket(s)) { OngoingStays(w, v, t, RemoveSocket(s)); }
      }
    }
    forall u <- v.threads ensures ThreadOk(x, y, v, v.threads[u]) {
      assert ThreadOk(x, y, w, w.threads[u]) && Apart(w.threads[t], w.threads[u]);
      if u != t { ArrivalKeepsThread(x, y, w, v, k, s, w.threads[u]); }
    }
  }

  /** While a pair is being associated, no removal of its SSL is halfway through. */
  lemma NotCleaningSsl(x: SslMap, y: SslMap, w: World, k: nat, s: nat, pc: Pc, s2: nat)
    requires Inv(x, y, w) && At(w, Associate(k, s), pc) && (pc == Looking(0) || pc == Linking) && k != 0
    ensures !At(w, RemoveSsl(k), Cleaning(s2))
  {
    forall u <- w.threads ensures w.threads[u] != Thread(RemoveSsl(k), Cleaning(s2)) {
      AssociationKnows(x, y, w, k, s, pc, u);
    }
  }

  /** And no other SSL is half mapped to its socket. */
  lemma HalfIsElsewhere(x: SslMap, y: SslMap, w: World, k: nat, s: nat, pc: Pc, j: nat)
    requires Inv(x, y, w) && At(w, Associate(k, s), pc) && (pc == Looking(0) || pc == Linking) && k != 0
    requires j != k && j in w.a && s !in w.b
    ensures w.a[j] != s
  {
    assert SslOk(x, w, j);
    forall u <- w.threads
      ensures w.threads[u] != Thread(RemoveSocket(s), Cleaning(j)) && w.threads[u] != Thread(Associate(j, s), Linking)
    {
      AssociationKnows(x, y, w, k, s, pc, u);
    }
  }

  /** The second half. */
  lemma AssociateLinks(x: SslMap, y: SslMap, w: World, v: World, t: Tid, k: nat, s: nat)
    requires Inv(x, y, w) && Stepped(w, v, t) && w.threads[t] == Thread(Associate(k, s), Linking)
    requires v.threads[t].pc.Returned? && v.a == w.a && v.b == w.b[s := k]
    ensures Inv(x, y, v)
  {
    StaysApart(w, v, t);
    assert ThreadOk(x, y, w, w.threads[t]);
    assert At(w, Associate(k, s), Linking) by { assert w.threads[t] == Thread(Associate(k, s), Linking); }
    hide AllApart, At, Ongoing;
    forall k2 ensures SslOk(x, v, k2) {
      assert SslOk(x, w, k2);
      if k2 in w.a && w.a[k2] == s {
        if k2 != k && s !in w.b { HalfIsElsewhere(x, y, w, k, s, Linking, k2); }
      } else {
        SslStays(x, w, v, t, k2);
      }
    }
    forall s2 ensures SocketOk(y, v, s2) {
      assert SocketOk(y, w, s2);
      if s2 != s { SocketStays(y, w, v, t, s2); }
    }
    forall u <- v.threads ensures ThreadOk(x, y, v, v.threads[u]) {
      assert ThreadOk(x, y, w, w.threads[u]) && Apart(w.threads[t], w.threads[u]);
      if u != t { ArrivalKeepsThread(x, y, w, v, k, s, w.threads[u]); }
    }
  }

  /** A null association does nothing. */
  lemma NullKeeps(x: SslMap, y: SslMap, w: World, v: World, t: Tid, s: nat)
    requires Inv(x, y, w) && Stepped(w, v, t) && w.threads[t] == Thread(Associate(0, s), Looking(0))
    requires v.threads[t].pc.Returned? && v.a == w.a && v.b == w.b
    ensures Inv(x, y, v)
  {
    StaysApart(w, v, t);
    hide AllApart, At, Ongoing;
    forall k ensures SslOk(x, v, k) {
      assert SslOk(x, w, k);
      SslStays(x, w, v, t, k);
    }
    forall s2 ensures SocketOk(y, v, s2) {
      assert SocketOk(y, w, s2);
      SocketStays(y, w, v, t, s2);
    }
    forall u <- v.threads ensures ThreadOk(x, y, v, v.threads[u]) {
      if u != t { assert ThreadOk(x, y, w, w.threads[u]); }
    }
  }

  // ---- every step and every run ----

  /** The next step of a thread is one of those above; a returned call stays where it is. */
  lemma NextKeeps(x: SslMap, y: SslMap, w: World, t: Tid)
    requires Inv(x, y, w) && t in w.threads
    ensures Inv(x, y, Next(w, t))
  {
    var v, th := Next(w, t), w.threads[t];
    assert ThreadOk(x, y, w, th);
    if th.pc.Returned? {
      assert v == w;
    } else {
      NextStepped(x, y, w, t);
      hide Stepped, Inv;
      match th.call {
        case RemoveSsl(k) => RemoveSslKeeps(x, y, w, t, k);
        case RemoveSocket(s) => RemoveSocketKeeps(x, y, w, t, s);
        case Associate(k, s) => AssociateKeeps(x, y, w, t, k, s);
      }
    }
  }

  lemma NextStepped(x: SslMap, y: SslMap, w: World, t: Tid)
    requires Inv(x, y, w) && t in w.threads && !w.threads[t].pc.Returned?
    ensures Stepped(w, Next(w, t), t)
  {
    var v, th := Next(w, t), w.threads[t];
    assert ThreadOk(x, y, w, th);
    hide MapsOk, ThreadsOk, Inverse;
    forall u <- w.threads ensures Apart(w.threads[u], v.threads[t]) {
      assert Apart(w.threads[u], th);
      if Associates(w.threads[u].call) && !w.threads[u].pc.Returned? && v.threads[t].pc.Cleaning? {
        assert ThreadOk(x, y, w, w.threads[u]) by { assert ThreadsOk(x, y, w); }
        TakenIsNotTied(x, y, w, t, u);
      }
    }
  }

  /** What a removal takes out is not the pair of an unfinished association. */
  lemma TakenIsNotTied(x: SslMap, y: SslMap, w: World, t: Tid, u: Tid)
    requires Inv(x, y, w) && t in w.threads && u in w.threads && !w.threads[t].pc.Returned?
             && !w.threads[u].pc.Returned?
    requires Associates(w.threads[u].call) && Next(w, t).threads[t].pc.Cleaning?
    ensures Harmless(Next(w, t).threads[t], w.threads[u].call.ssl, w.threads[u].call.socket)
  {
    var k, s := w.threads[u].call.ssl, w.threads[u].call.socket;
    assert Apart(w.threads[u], w.threads[t]) && ThreadOk(x, y, w, w.threads[u]) && ThreadOk(x, y, w, w.threads[t]);
    assert w.threads[u].pc == Looking(0) || w.threads[u].pc == Linking;
    assert At(w, Associate(k, s), w.threads[u].pc) by {
      assert w.threads[u] == Thread(Associate(k, s), w.threads[u].pc);
    }
    match w.threads[t].call {
      case RemoveSsl(j) =>
        assert SslOk(x, w, j);
        if w.a[j] == s && s !in w.b { HalfIsElsewhere(x, y, w, k, s, w.threads[u].pc, j); }
      case RemoveSocket(i) =>
        assert SocketOk(y, w, i);
        NotCleaningSsl(x, y, w, k, s, w.threads[u].pc, i);
      case Associate(_, _) =>
    }
  }

  lemma RemoveSslKeeps(x: SslMap, y: SslMap, w: World, t: Tid, k: nat)
    requires Inv(x, y, w) && t in w.threads && Stepped(w, Next(w, t), t) && w.threads[t].call == RemoveSsl(k)
    ensures Inv(x, y, Next(w, t))
  {
    var v := Next(w, t);
    assert ThreadOk(x, y, w, w.threads[t]) && SslOk(x, w, 0);
    hide Stepped, Inv;
    match w.threads[t].pc {
      case Looking(_) => LookKeeps(x, y, w, v, t);
      case Removing(_, s) =>
        if k in w.a { RemoveSslWrites(x, y, w, v, t, k, s); } else { LookKeeps(x, y, w, v, t); }
      case Cleaning(s) => RemoveSslCleans(x, y, w, v, t, k, s);
      case Returned(_) =>
    }
  }

  lemma RemoveSocketKeeps(x: SslMap, y: SslMap, w: World, t: Tid, s: nat)
    requires Inv(x, y, w) && t in w.threads && Stepped(w, Next(w, t), t) && w.threads[t].call == RemoveSocket(s)
    ensures Inv(x, y, Next(w, t))
  {
    var v := Next(w, t);
    assert ThreadOk(x, y, w, w.threads[t]);
    hide Stepped, Inv;
    match w.threads[t].pc {
      case Looking(_) => LookKeeps(x, y, w, v, t);
      case Removing(_, _) =>
        if s in w.b { RemoveSocketWrites(x, y, w, v, t, w.b[s], s); } else { LookKeeps(x, y, w, v, t); }
      case Cleaning(k) => RemoveSocketCleans(x, y, w, v, t, k, s);
      case Returned(_) =>
    }
  }

  lemma AssociateKeeps(x: SslMap, y: SslMap, w: World, t: Tid, k: nat, s: nat)
    requires Inv(x, y, w) && t in w.threads && Stepped(w, Next(w, t), t) && w.threads[t].call == Associate(k, s)
    ensures Inv(x, y, Next(w, t))
  {
    var v := Next(w, t);
    assert ThreadOk(x, y, w, w.threads[t]);
    hide Stepped, Inv;
    match w.threads[t].pc {
      case Looking(_) =>
        if k == 0 { NullKeeps(x, y, w, v, t, s); } else { AssociateWrites(x, y, w, v, t, k, s); }
      case Linking => AssociateLinks(x, y, w, v, t, k, s);
      case Returned(_) =>
    }
  }

  /** A call that begins changes no map yet. */
  lemma BeginStays(x: SslMap, y: SslMap, w: World, t: Tid, c: Call)
    requires Inv(x, y, w) && Proper(w, Begin(t, c))
    ensures var v := Do(w, Begin(t, c));
            && Moved(w, v, t) && AllApart(v) && MapsOk(x, y, v)
            && forall u <- w.threads :: ThreadOk(x, y, v, w.threads[u])
  {
    var v := Do(w, Begin(t, c));
    forall g, h | g in v.threads && h in v.threads ensures Apart(v.threads[g], v.threads[h]) {
      if g != t && h != t { assert Apart(w.threads[g], w.threads[h]); }
    }
    hide AllApart, At, Ongoing, Apart, Inverse;
    forall k ensures SslOk(x, v, k) {
      assert SslOk(x, w, k);
      SslStays(x, w, v, t, k);
    }
    forall s ensures SocketOk(y, v, s) {
      assert SocketOk(y, w, s);
      SocketStays(y, w, v, t, s);
    }
    forall u <- w.threads ensures ThreadOk(x, y, v, w.threads[u]) {
      assert ThreadOk(x, y, w, w.threads[u]);
    }
  }

  /** An association that may begin is free after the sequential calls as well. */
  lemma FreeInSequence(x: SslMap, y: SslMap, w: World, t: Tid, k: nat, s: nat)
    requires Inv(x, y, w) && Proper(w, Begin(t, Associate(k, s))) && k != 0
    ensures Free(x, y, k, s)
  {
    assert SslOk(x, w, k) && SocketOk(y, w, s);
    forall u <- w.threads ensures Harmless(w.threads[u], k, s) {
      assert Apart(Thread(Associate(k, s), Looking(0)), w.threads[u]);
    }
  }

  lemma BeginAssociateKeeps(x: SslMap, y: SslMap, w: World, t: Tid, k: nat, s: nat)
    requires Inv(x, y, w) && Proper(w, Begin(t, Associate(k, s)))
    ensures var (x2, y2) := Alone(x, y, Associate(k, s)); Inv(x2, y2, Do(w, Begin(t, Associate(k, s))))
  {
    var v := Do(w, Begin(t, Associate(k, s)));
    BeginStays(x, y, w, t, Associate(k, s));
    if k != 0 {
      var x2, y2 := x[k := s], y[s := k];
      FreeInSequence(x, y, w, t, k, s);
      AssociateKeepsInverseIff(x, y, k, s);
      assert At(v, Associate(k, s), Looking(0)) by { assert v.threads[t] == Thread(Associate(k, s), Looking(0)); }
      forall u <- v.threads ensures ThreadOk(x2, y2, v, v.threads[u]) {
        if u != t {
          assert Apart(Thread(Associate(k, s), Looking(0)), w.threads[u]) && ThreadOk(x, y, v, w.threads[u]);
        }
      }
      hide AllApart, At, Ongoing, Apart, Inverse, ThreadsOk;
      forall k2 ensures SslOk(x2, v, k2) { assert SslOk(x, v, k2); }
      forall s2 ensures SocketOk(y2, v, s2) { assert SocketOk(y, v, s2); }
    }
  }

  lemma BeginRemoveSslKeeps(x: SslMap, y: SslMap, w: World, t: Tid, k: nat)
    requires Inv(x, y, w) && Proper(w, Begin(t, RemoveSsl(k)))
    ensures var (x2, y2) := Alone(x, y, RemoveSsl(k)); Inv(x2, y2, Do(w, Begin(t, RemoveSsl(k))))
  {
    var v := Do(w, Begin(t, RemoveSsl(k)));
    var (x2, y2) := Alone(x, y, RemoveSsl(k));
    BeginStays(x, y, w, t, RemoveSsl(k));
    if k in x { RemoveKeepsInverse(x, y, k); }
    assert Ongoing(v, RemoveSsl(k)) by { assert v.threads[t].call == RemoveSsl(k); }
    forall u <- v.threads ensures ThreadOk(x2, y2, v, v.threads[u]) {
      if u != t {
        assert Apart(w.threads[u], Thread(RemoveSsl(k), Looking(0))) && ThreadOk(x, y, v, w.threads[u]);
      }
    }
    assert k in x ==> y[x[k]] == k;
    hide AllApart, At, Ongoing, Apart, Inverse, ThreadsOk;
    forall k2 ensures SslOk(x2, v, k2) { assert SslOk(x, v, k2); }
    forall s2 ensures SocketOk(y2, v, s2) { assert SocketOk(y, v, s2); }
  }

  lemma BeginRemoveSocketKeeps(x: SslMap, y: SslMap, w: World, t: Tid, s: nat)
    requires Inv(x, y, w) && Proper(w, Begin(t, RemoveSocket(s)))
    ensures var (x2, y2) := Alone(x, y, RemoveSocket(s)); Inv(x2, y2, Do(w, Begin(t, RemoveSocket(s))))
  {
    var v := Do(w, Begin(t, RemoveSocket(s)));
    var (x2, y2) := Alone(x, y, RemoveSocket(s));
    BeginStays(x, y, w, t, RemoveSocket(s));
    if s in y { RemoveKeepsInverse(x, y, y[s]); }
    assert Ongoing(v, RemoveSocket(s)) by { assert v.threads[t].call == RemoveSocket(s); }
    forall u <- v.threads ensures ThreadOk(x2, y2, v, v.threads[u]) {
      if u != t {
        assert Apart(w.threads[u], Thread(RemoveSocket(s), Looking(0))) && ThreadOk(x, y, v, w.threads[u]);
      }
    }
    assert s in y ==> x[y[s]] == s;
    hide AllApart, At, Ongoing, Apart, Inverse, ThreadsOk;
    forall k2 ensures SslOk(x2, v, k2) { assert SslOk(x, v, k2); }
    forall s2 ensures SocketOk(y2, v, s2) { assert SocketOk(y, v, s2); }
  }

  lemma DoKeeps(x: SslMap, y: SslMap, w: World, e: Event)
    requires Inv(x, y, w) && Proper(w, e)
    ensures var (x2, y2) := if e.Begin? then Alone(x, y, e.call) else (x, y); Inv(x2, y2, Do(w, e))
  {
    match e {
      case Begin(t, RemoveSsl(k)) => BeginRemoveSslKeeps(x, y, w, t, k);
      case Begin(t, RemoveSocket(s)) => BeginRemoveSocketKeeps(x, y, w, t, s);
      case Begin(t, Associate(k, s)) => BeginAssociateKeeps(x, y, w, t, k, s);
      case Step(t) => if t in w.threads { NextKeeps(x, y, w, t); }
    }
  }

  lemma {:induction false} RunKeeps(x: SslMap, y: SslMap, w: World, events: seq<Event>)
    requires Inv(x, y, w) && Orderly(w, events)
    ensures var (x2, y2) := Sequential(x, y, events); Inv(x2, y2, Run(w, events))
    decreases |events|
  {
    if events != [] {
      var before := events[..|events| - 1];
      RunKeeps(x, y, w, before);
      var (x1, y1) := Sequential(x, y, before);
      DoKeeps(x1, y1, Run(w, before), events[|events| - 1]);
      hide Inv, Do, Proper;
    }
  }

  // ---- main results ----

  function Idle(a: SslMap, b: SslMap): World {
    World(a, b, map[])
  }

  /**
   In every run of any number of threads whose calls begin in an orderly way, whenever all of them have
   returned, the maps are inverse, and the ones that the same calls leave when each is made as a whole
   in the order in which they began.
   */
  lemma CallsSettle(a: SslMap, b: SslMap, events: seq<Event>)
    requires Inverse(a, b) && 0 !in a && Orderly(Idle(a, b), events) && AllReturned(Run(Idle(a, b), events))
    ensures var w := Run(Idle(a, b), events);
            Inverse(w.a, w.b) && (w.a, w.b) == Sequential(a, b, events)
  {
    IdleInv(a, b);
    RunKeeps(a, b, Idle(a, b), events);
    var (x, y) := Sequential(a, b, events);
    RestIsSequential(x, y, Run(Idle(a, b), events));
  }

  lemma IdleInv(a: SslMap, b: SslMap)
    requires Inverse(a, b) && 0 !in a
    ensures Inv(a, b, Idle(a, b))
  {
  }

  lemma RestIsSequential(x: SslMap, y: SslMap, w: World)
    requires Inv(x, y, w) && AllReturned(w)
    ensures w.a == x && w.b == y
  {
    forall c, pc: Pc ensures !Ongoing(w, c) && (!pc.Returned? ==> !At(w, c, pc)) {}
    hide At, Ongoing, Inverse, ThreadsOk, AllApart;
    forall k ensures (k in w.a <==> k in x) && (k in x ==> w.a[k] == x[k]) { assert SslOk(x, w, k); }
    forall s ensures (s in w.b <==> s in y) && (s in y ==> w.b[s] == y[s]) { assert SocketOk(y, w, s); }
  }

  /** In every such run, no call needs its third attempt, and none meets a value that changed under it. */
  lemma TwoAttemptsSuffice(a: SslMap, b: SslMap, events: seq<Event>, t: Tid)
    requires Inverse(a, b) && 0 !in a && Orderly(Idle(a, b), events) && t in Run(Idle(a, b), events).threads
    ensures var pc := Run(Idle(a, b), events).threads[t].pc;
            && (pc.Looking? ==> pc.attempt <= 1)
            && (pc.Removing? ==> pc.attempt == 0)
            && !pc.Sweeping?
  {
    IdleInv(a, b);
    RunKeeps(a, b, Idle(a, b), events);
    var (x, y) := Sequential(a, b, events);
    var w := Run(Idle(a, b), events);
    assert ThreadOk(x, y, w, w.threads[t]);
  }
}
