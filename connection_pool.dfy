/** The pool of the calculator server's client connections: a set of connections, each started
    when it is inserted and stopped when it is removed or when the whole pool is cleared. */
module Pool {
  /** A connection, identified as its shared pointer is: by identity. */
  type ConnectionId = nat

  /** The calls the pool makes on its connections, in order: `startHandling` and `stopHandling`. */
  datatype Event = Start(conn: ConnectionId) | Stop(conn: ConnectionId)

  class ConnectionPool {
    /** `m_connections`. */
    var connections: set<ConnectionId>
    /** Every start and stop the pool has asked for so far. */
    var log: seq<Event>

    constructor()
      ensures connections == {} && log == []
    {
      connections := {};
      log := [];
    }

    /** `insert`: add the connection (a set holds it once however often it is inserted), then
        start its handling. */
    method Insert(c: ConnectionId)
      modifies this
      ensures connections == old(connections) + {c}
      ensures log == old(log) + [Start(c)]
    {
      connections := connections + {c};
      log := log + [Start(c)];
    }

    /** `remove`: erase the connection, leaving the others, then stop its handling, whether or
        not it was in the pool. */
    method Remove(c: ConnectionId)
      modifies this
      ensures connections == old(connections) - {c}
      ensures log == old(log) + [Stop(c)]
    {
      connections := connections - {c};
      log := log + [Stop(c)];
    }

    /** `removeAll`: stop every connection of the pool once, in the set's order, then empty the
        pool. */
    method RemoveAll()
      modifies this
      ensures connections == {}
      ensures |log| >= |old(log)| && log[..|old(log)|] == old(log)
      ensures StopsEachOnce(log[|old(log)|..], old(connections))
    {
      var stops := StopAll(connections);
      log := log + stops;
      connections := {};
      assert log[|old(log)|..] == stops;
    }
  }

  /** The stops a clearing makes for the set s: one per member of s and nothing else. */
  predicate StopsEachOnce(stops: seq<Event>, s: set<ConnectionId>)
  {
    && |stops| == |s|
    && (forall i :: 0 <= i < |stops| ==> stops[i].Stop? && stops[i].conn in s)
    && (forall c :: c in s ==> Stop(c) in stops)
    && (forall i, j :: 0 <= i < j < |stops| ==> stops[i] != stops[j])
  }

  /** The loop of `removeAll`: `stopHandling` on each member of the set, in the set's order. */
  method StopAll(s: set<ConnectionId>) returns (stops: seq<Event>)
    ensures StopsEachOnce(stops, s)
  {
    stops := [];
    var remaining := s;
    while remaining != {}
      invariant remaining <= s
      invariant |stops| + |remaining| == |s|
      invariant forall i :: 0 <= i < |stops| ==> stops[i].Stop? && stops[i].conn in s - remaining
      invariant forall c :: c in s - remaining ==> Stop(c) in stops
      invariant forall i, j :: 0 <= i < j < |stops| ==> stops[i] != stops[j]
      decreases |remaining|
    {
      var c :| c in remaining;
      stops := stops + [Stop(c)];
      remaining := remaining - {c};
    }
  }

  /** A session of the pool: inserting the same connection twice keeps one copy but starts it
      twice; removing it twice stops it twice; clearing stops what is left once. */
  method PoolSession(c: ConnectionId, d: ConnectionId) returns (sizes: seq<nat>, events: seq<Event>)
    requires c != d
    ensures sizes == [1, 1, 2, 1, 1, 0]
    ensures events == [Start(c), Start(c), Start(d), Stop(c), Stop(c), Stop(d)]
  {
    var pool := new ConnectionPool();
    pool.Insert(c);
    sizes := [|pool.connections|];
    pool.Insert(c);
    sizes := sizes + [|pool.connections|];
    pool.Insert(d);
    sizes := sizes + [|pool.connections|];
    pool.Remove(c);
    sizes := sizes + [|pool.connections|];
    pool.Remove(c);
    sizes := sizes + [|pool.connections|];
    assert pool.connections == {d};
    pool.RemoveAll();
    sizes := sizes + [|pool.connections|];
    assert pool.log[5] == Stop(d) by {
      assert Stop(d) in pool.log[5..];
    }
    events := pool.log;
  }
}
