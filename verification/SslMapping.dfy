/** The two-way map between SSL contexts and sockets, called by one thread at a time. */
module SslMapping {
  import opened Wrappers

  type SslMap = map<nat, nat>

  /** Every entry of either map is mirrored by the other. */
  ghost predicate Inverse(a: SslMap, b: SslMap) {
    && (forall k <- a :: a[k] in b && b[a[k]] == k)
    && (forall s <- b :: b[s] in a && a[b[s]] == s)
  }

  /** No entry of either map dangles: its value is a key of the other. */
  ghost predicate Closed(a: SslMap, b: SslMap) {
    && (forall k <- a :: a[k] in b)
    && (forall s <- b :: b[s] in a)
  }

  ghost predicate Sub(p: SslMap, a: SslMap) {
    forall k <- p :: k in a && a[k] == p[k]
  }

  /** The entries of m whose value is a key of the other map. */
  function Kept(m: SslMap, other: set<nat>): (r: SslMap)
    ensures Sub(r, m)
    ensures |r| <= |m| && (|r| == |m| <==> r == m)
    ensures r == m <==> forall k <- m :: m[k] in other
  {
    var r := map k | k in m && m[k] in other :: m[k];
    assert r.Keys <= m.Keys;
    CardSubset(r.Keys, m.Keys);
    r
  }

  lemma CardSubset(x: set<nat>, y: set<nat>)
    requires x <= y
    ensures |x| <= |y| && (|x| == |y| <==> x == y)
  {
    assert y == x + (y - x);
    assert |y| == |x| + |y - x|;
    if |x| == |y| {
      assert y - x == {};
    }
  }

  /** Both maps after one repair: first the SSL side is thinned, then the socket side against what is left of it. */
  function Repaired(a: SslMap, b: SslMap): (SslMap, SslMap) {
    var a1 := Kept(a, b.Keys);
    (a1, Kept(b, a1.Keys))
  }

  /** What each call makes of the two maps when nothing comes between its steps. */
  function Associated(a: SslMap, b: SslMap, ssl: nat, socket: nat): (SslMap, SslMap) {
    if ssl == 0 then (a, b) else (a[ssl := socket], b[socket := ssl])
  }

  function WithoutSsl(a: SslMap, b: SslMap, ssl: nat): (SslMap, SslMap) {
    if ssl != 0 && ssl in a then (a - {ssl}, b - {a[ssl]}) else (a, b)
  }

  function WithoutSocket(a: SslMap, b: SslMap, socket: nat): (SslMap, SslMap) {
    if socket in b then (a - {b[socket]}, b - {socket}) else (a, b)
  }

  class SslSocketMapping {
    var sslToSocket: SslMap
    var socketToSsl: SslMap

    constructor ()
      ensures sslToSocket == map[] && socketToSsl == map[]
    {
      sslToSocket, socketToSsl := map[], map[];
    }

    /** A null pointer is ignored; anything else overwrites one entry in each map. */
    method Associate(ssl: nat, socket: nat)
      modifies this
      ensures sslToSocket == if ssl == 0 then old(sslToSocket) else old(sslToSocket)[ssl := socket]
      ensures socketToSsl == if ssl == 0 then old(socketToSsl) else old(socketToSsl)[socket := ssl]
      ensures (sslToSocket, socketToSsl) == Associated(old(sslToSocket), old(socketToSsl), ssl, socket)
    {
      if ssl == 0 {
        return;
      }
      sslToSocket := sslToSocket[ssl := socket];
      socketToSsl := socketToSsl[socket := ssl];
    }

    method GetSocket(ssl: nat) returns (r: Option<nat>)
      ensures r == if ssl != 0 && ssl in sslToSocket then Some(sslToSocket[ssl]) else None
    {
      if ssl == 0 || ssl !in sslToSocket {
        return None;
      }
      return Some(sslToSocket[ssl]);
    }

    method GetSsl(socket: nat) returns (r: Option<nat>)
      ensures r == if socket in socketToSsl then Some(socketToSsl[socket]) else None
    {
      if socket !in socketToSsl {
        return None;
      }
      return Some(socketToSsl[socket]);
    }

    /** Alone, the first attempt always decides. */
    method RemoveSsl(ssl: nat) returns (r: Option<nat>)
      modifies this
      ensures r == if ssl != 0 && ssl in old(sslToSocket) then Some(old(sslToSocket)[ssl]) else None
      ensures sslToSocket == if r.Some? then old(sslToSocket) - {ssl} else old(sslToSocket)
      ensures socketToSsl == if r.Some? then old(socketToSsl) - {r.value} else old(socketToSsl)
      ensures (sslToSocket, socketToSsl) == WithoutSsl(old(sslToSocket), old(socketToSsl), ssl)
    {
      if ssl == 0 {
        return None;
      }
      for attempt := 0 to 3
        invariant attempt == 0
        invariant sslToSocket == old(sslToSocket) && socketToSsl == old(socketToSsl)
      {
        if ssl !in sslToSocket {
          return None;
        }
        var socket := sslToSocket[ssl];
        var removed := sslToSocket[ssl];
        sslToSocket := sslToSocket - {ssl};
        if removed != socket {
          assert false;  // only another thread can change the entry between the two reads
        }
        socketToSsl := socketToSsl - {socket};
        return Some(socket);
      }
      return None;
    }

    method RemoveSocket(socket: nat) returns (r: Option<nat>)
      modifies this
      ensures r == if socket in old(socketToSsl) then Some(old(socketToSsl)[socket]) else None
      ensures socketToSsl == if r.Some? then old(socketToSsl) - {socket} else old(socketToSsl)
      ensures sslToSocket == if r.Some? then old(sslToSocket) - {r.value} else old(sslToSocket)
      ensures (sslToSocket, socketToSsl) == WithoutSocket(old(sslToSocket), old(socketToSsl), socket)
    {
      for attempt := 0 to 3
        invariant attempt == 0
        invariant sslToSocket == old(sslToSocket) && socketToSsl == old(socketToSsl)
      {
        if socket !in socketToSsl {
          return None;
        }
        var ssl := socketToSsl[socket];
        socketToSsl := socketToSsl - {socket};
        sslToSocket := sslToSocket - {ssl};
        return Some(ssl);
      }
      return None;
    }

    /**
     One repair, whatever order the maps are walked in. The result counts the entries that were
     removed, and is zero exactly when nothing dangled.
     */
    method CheckAndRepairConsistency() returns (repaired: nat)
      modifies this
      ensures (sslToSocket, socketToSsl) == Repaired(old(sslToSocket), old(socketToSsl))
      ensures repaired == |old(sslToSocket)| - |sslToSocket| + |old(socketToSsl)| - |socketToSsl|
      ensures repaired == 0 <==> Closed(old(sslToSocket), old(socketToSsl))
    {
      if |sslToSocket| == 0 && |socketToSsl| == 0 {
        assert sslToSocket == map[] && socketToSsl == map[];
        return 0;
      }
      repaired := RemoveOrphanSsl();
      var more := RemoveOrphanSockets();
      repaired := repaired + more;
    }

    /** The first pass: SSL entries whose socket is not mapped. */
    method RemoveOrphanSsl() returns (repaired: nat)
      modifies this`sslToSocket
      ensures sslToSocket == Kept(old(sslToSocket), socketToSsl.Keys)
      ensures repaired + |sslToSocket| == |old(sslToSocket)|
    {
      ghost var a := sslToSocket;
      repaired := 0;
      var sslKeys := sslToSocket.Keys;
      while sslKeys != {}
        invariant Sub(sslToSocket, a) && sslKeys <= a.Keys
        invariant forall k <- a :: k in sslToSocket <==> k in sslKeys || a[k] in socketToSsl
        invariant repaired + |sslToSocket| == |a|
        decreases sslKeys
      {
        var sslKey :| sslKey in sslKeys;
        sslKeys := sslKeys - {sslKey};
        if sslKey in sslToSocket {
          var socket := sslToSocket[sslKey];
          if socket !in socketToSsl {
            RemoveOne(sslToSocket, sslKey);
            sslToSocket := sslToSocket - {sslKey};
            repaired := repaired + 1;
          }
        }
      }
      assert sslToSocket == Kept(a, socketToSsl.Keys);
    }

    /** The second pass: socket entries whose SSL is not mapped any more. */
    method RemoveOrphanSockets() returns (repaired: nat)
      modifies this`socketToSsl
      ensures socketToSsl == Kept(old(socketToSsl), sslToSocket.Keys)
      ensures repaired + |socketToSsl| == |old(socketToSsl)|
    {
      ghost var b := socketToSsl;
      repaired := 0;
      var socketKeys := socketToSsl.Keys;
      while socketKeys != {}
        invariant Sub(socketToSsl, b) && socketKeys <= b.Keys
        invariant forall s <- b :: s in socketToSsl <==> s in socketKeys || b[s] in sslToSocket
        invariant repaired + |socketToSsl| == |b|
        decreases socketKeys
      {
        var socket :| socket in socketKeys;
        socketKeys := socketKeys - {socket};
        if socket in socketToSsl {
          var ssl := socketToSsl[socket];
          if ssl !in sslToSocket {
            RemoveOne(socketToSsl, socket);
            socketToSsl := socketToSsl - {socket};
            repaired := repaired + 1;
          }
        }
      }
      assert socketToSsl == Kept(b, sslToSocket.Keys);
    }
  }

  lemma RemoveOne(m: SslMap, k: nat)
    requires k in m
    ensures |m - {k}| == |m| - 1
  {
    assert (m - {k}).Keys == m.Keys - {k};
  }

  // ---- what association and removal keep ----

  /** From inverse maps, association keeps them inverse exactly when neither side was tied to another partner. */
  lemma AssociateKeepsInverseIff(a: SslMap, b: SslMap, ssl: nat, socket: nat)
    requires Inverse(a, b)
    ensures Inverse(a[ssl := socket], b[socket := ssl])
       <==> (ssl in a ==> a[ssl] == socket) && (socket in b ==> b[socket] == ssl)
  {
    var a1, b1 := a[ssl := socket], b[socket := ssl];
    var partner, tied := if ssl in a then a[ssl] else socket, if socket in b then b[socket] else ssl;
    assert partner in b1 && tied in a1;
  }

  /** Removing a pair from both sides of inverse maps leaves inverse maps without that pair. */
  lemma RemoveKeepsInverse(a: SslMap, b: SslMap, ssl: nat)
    requires Inverse(a, b) && ssl in a
    ensures Inverse(a - {ssl}, b - {a[ssl]})
  {
    var a1, b1 := a - {ssl}, b - {a[ssl]};
    forall k <- a1 ensures a1[k] in b1 && b1[a1[k]] == k {
      assert a[k] in b && b[a[k]] == k && b[a[ssl]] == ssl;
    }
    forall s <- b1 ensures b1[s] in a1 && a1[b1[s]] == s {
      assert b[s] in a && a[b[s]] == s;
    }
  }

  // ---- repairing again and again ----

  /** Repair called until it finds nothing more. */
  function Stable(a: SslMap, b: SslMap): (SslMap, SslMap)
    decreases |a| + |b|
  {
    var (a1, b1) := Repaired(a, b);
    if a1 == a && b1 == b then (a, b) else Stable(a1, b1)
  }

  /** A repair changes nothing exactly when nothing dangles. */
  lemma RepairedIff(a: SslMap, b: SslMap)
    ensures Repaired(a, b) == (a, b) <==> Closed(a, b)
  {
  }

  /** Repair never touches an entry of a closed pair of sub-maps. */
  lemma RepairSpares(a: SslMap, b: SslMap, p: SslMap, q: SslMap)
    requires Closed(p, q) && Sub(p, a) && Sub(q, b)
    ensures Sub(p, Repaired(a, b).0) && Sub(q, Repaired(a, b).1)
  {
    var a1 := Kept(a, b.Keys);
    forall k <- p ensures k in a1 && a1[k] == p[k] {
      assert p[k] in q && k in a && a[k] == p[k] && p[k] in b;
    }
    forall s <- q ensures s in Repaired(a, b).1 && Repaired(a, b).1[s] == q[s] {
      assert q[s] in p && s in b && b[s] == q[s] && q[s] in a1;
    }
  }

  /**
   Repairing until nothing is found always stops, and what is left is the greatest pair of sub-maps
   in which every SSL's socket and every socket's SSL is still mapped.
   */
  lemma {:induction false} StableIsGreatestClosed(a: SslMap, b: SslMap)
    ensures var (x, y) := Stable(a, b);
            && Closed(x, y) && Sub(x, a) && Sub(y, b)
            && forall p, q :: Closed(p, q) && Sub(p, a) && Sub(q, b) ==> Sub(p, x) && Sub(q, y)
    decreases |a| + |b|
  {
    var (a1, b1) := Repaired(a, b);
    RepairedIff(a, b);
    if a1 != a || b1 != b {
      StableIsGreatestClosed(a1, b1);
      forall p, q | Closed(p, q) && Sub(p, a) && Sub(q, b)
        ensures Sub(p, Stable(a1, b1).0) && Sub(q, Stable(a1, b1).1)
      {
        RepairSpares(a, b, p, q);
      }
    }
  }

  /** Inverse maps are already stable. */
  lemma InverseIsStable(a: SslMap, b: SslMap)
    requires Inverse(a, b)
    ensures Stable(a, b) == (a, b)
  {
    RepairedIff(a, b);
  }

  /**
   One repair is enough, and a second one finds nothing, exactly when the chain of every SSL entry
   either breaks at its socket or goes on for two more steps.
   */
  lemma OneRepairSufficesIff(a: SslMap, b: SslMap)
    ensures var (a1, b1) := Repaired(a, b);
            && (Closed(a1, b1) <==> forall k <- a :: a[k] in b ==> b[a[k]] in a && a[b[a[k]]] in b)
            && (Closed(a1, b1) <==> Stable(a, b) == (a1, b1))
  {
    var (a1, b1) := Repaired(a, b);
    OnceIsStableIff(a, b);
    if Closed(a1, b1) {
      forall k <- a | a[k] in b ensures b[a[k]] in a && a[b[a[k]]] in b {
        assert k in a1 && a1[k] in b1;
      }
    }
    hide Stable;
  }

  lemma OnceIsStableIff(a: SslMap, b: SslMap)
    ensures var (a1, b1) := Repaired(a, b);
            Closed(a1, b1) <==> Stable(a, b) == (a1, b1)
  {
    var (a1, b1) := Repaired(a, b);
    StableIsGreatestClosed(a, b);
    RepairedIff(a, b);
    RepairedIff(a1, b1);
    hide Repaired, Closed, Sub;
    assert Closed(a1, b1) ==> Stable(a1, b1) == (a1, b1);
  }

  /**
   A repair leaves inverse maps, which further repairs leave alone, exactly when no two entries that both
   lead somewhere contradict each other.
   */
  lemma RepairedInverseIff(a: SslMap, b: SslMap)
    ensures var (a1, b1) := Repaired(a, b);
            && (Inverse(a1, b1) <==>
                && (forall k <- a :: a[k] in b ==> b[a[k]] == k)
                && (forall s <- b :: b[s] in a && a[b[s]] in b ==> a[b[s]] == s))
            && (Inverse(a1, b1) ==> Stable(a, b) == (a1, b1))
  {
    var (a1, b1) := Repaired(a, b);
    if Inverse(a1, b1) {
      forall k <- a | a[k] in b ensures b[a[k]] == k {
        assert k in a1 && a1[k] in b1;
      }
      forall s <- b | b[s] in a && a[b[s]] in b ensures a[b[s]] == s {
        assert b[s] in a1 && s in b1;
      }
      InverseIsStable(a1, b1);
      OnceIsStableIff(a, b);
    }
    hide Stable;
  }

  /** One repair can leave a new orphan behind: here the second call removes an entry again. */
  lemma OneRepairIsNotEnough()
    ensures var (a, b) := (map[1 := 10], map[10 := 2]);
            && Repaired(a, b) == (map[1 := 10], map[])
            && !Closed(Repaired(a, b).0, Repaired(a, b).1)
  {
    var a: SslMap, b: SslMap := map[1 := 10], map[10 := 2];
    assert Kept(a, b.Keys) == a;
    assert Kept(b, a.Keys) == map[];
  }

  /** Nothing dangling is less than being inverse: crossed pairs pass the check. */
  lemma CrossedPairsPass()
    ensures exists a, b :: Closed(a, b) && !Inverse(a, b) && Stable(a, b) == (a, b)
  {
    var a: SslMap, b: SslMap := map[1 := 10, 2 := 20], map[10 := 2, 20 := 1];
    assert a[1] == 10 && b[10] == 2;
    RepairedIff(a, b);
    assert Closed(a, b) && !Inverse(a, b) && Stable(a, b) == (a, b);
  }
}
