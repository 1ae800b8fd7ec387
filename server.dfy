/**
 * The relay server's connection handling: a registry object holding the two tables,
 * the two broadcast helpers, and one method per WebSocket event. Outbound frames are
 * recorded in the ghost `outbox` as (connection, envelope) pairs; which connections
 * are open is given by the caller as a set.
 */
module Server {
  import opened Wrappers
  import opened Protocol
  import opened Window
  import opened Identity
  import opened Rooms

  /** What the connection handler's closure captures: the socket, its room and its user name. */
  datatype Session = Session(conn: ConnId, room: string, user: string)

  /** How an inbound frame ended: dropped, relayed as a message, or stopped by a TypeError on a deleted room. */
  datatype Outcome = Dropped | Relayed(message: Message) | Crashed

  /** The user names in `members` whose connection is open. */
  function OpenMembers(members: map<string, ConnId>, open: set<ConnId>): set<string> {
    set u | u in members && members[u] in open
  }

  /** The open connections registered in `members`. */
  function OpenConns(members: map<string, ConnId>, open: set<ConnId>): set<ConnId> {
    set u | u in members && members[u] in open :: members[u]
  }

  /** One send of `env` per name of `names`, in that order. */
  ghost function SendsTo(names: seq<string>, members: map<string, ConnId>, env: Envelope): seq<(ConnId, Envelope)>
    decreases |names|
  {
    if names == [] then []
    else
      var last := names[|names| - 1];
      SendsTo(names[..|names| - 1], members, env) + (if last in members then [(members[last], env)] else [])
  }

  /** `sends` delivers `env` once to every open member of `members`, in some order, and to nobody else. */
  ghost predicate FanOut(sends: seq<(ConnId, Envelope)>, members: map<string, ConnId>, open: set<ConnId>, env: Envelope) {
    exists names: seq<string> ::
      multiset(names) == multiset(OpenMembers(members, open)) && sends == SendsTo(names, members, env)
  }

  lemma {:induction false} SendsToShape(names: seq<string>, members: map<string, ConnId>, env: Envelope)
    requires forall i :: 0 <= i < |names| ==> names[i] in members
    ensures |SendsTo(names, members, env)| == |names|
    ensures forall i :: 0 <= i < |names| ==> SendsTo(names, members, env)[i] == (members[names[i]], env)
    decreases |names|
  {
    if names != [] {
      SendsToShape(names[..|names| - 1], members, env);
    }
  }

  /**
   * A fan-out sends only `env`, one frame per open member, and the connections it
   * reaches are exactly the open connections registered in the room.
   */
  lemma FanOutReachesExactlyOpenMembers(sends: seq<(ConnId, Envelope)>, members: map<string, ConnId>, open: set<ConnId>, env: Envelope)
    requires FanOut(sends, members, open, env)
    ensures |sends| == |OpenMembers(members, open)|
    ensures forall i :: 0 <= i < |sends| ==> sends[i].1 == env
    ensures (set i | 0 <= i < |sends| :: sends[i].0) == OpenConns(members, open)
  {
    var names :| multiset(names) == multiset(OpenMembers(members, open)) && sends == SendsTo(names, members, env);
    forall i | 0 <= i < |names| ensures names[i] in OpenMembers(members, open) {
      assert names[i] in multiset(names);
    }
    SendsToShape(names, members, env);
    assert |multiset(names)| == |names|;
    assert |multiset(OpenMembers(members, open))| == |OpenMembers(members, open)|;
    var got := set i | 0 <= i < |sends| :: sends[i].0;
    forall c | c in OpenConns(members, open) ensures c in got {
      var u :| u in members && members[u] in open && members[u] == c;
      assert u in multiset(OpenMembers(members, open));
      assert u in multiset(names);
      var i :| 0 <= i < |names| && names[i] == u;
      assert sends[i].0 == c;
    }
  }

  /** Serving one more name appends one send after those already made (on top of the earlier frames `sent`). */
  lemma SendsToSnoc(sent: seq<(ConnId, Envelope)>, names: seq<string>, u: string, members: map<string, ConnId>, env: Envelope)
    requires u in members
    ensures sent + SendsTo(names + [u], members, env) == sent + SendsTo(names, members, env) + [(members[u], env)]
  {
    assert (names + [u])[..|names|] == names;
  }

  /** Taking `u` off the pending set adds it to the names already served exactly when its connection is open. */
  lemma ServeOne(names: seq<string>, members: map<string, ConnId>, open: set<ConnId>, pending: set<string>, u: string)
    requires u in pending && u in members
    requires multiset(names) == multiset(OpenMembers(members, open) - pending)
    ensures members[u] in open ==> multiset(names + [u]) == multiset(OpenMembers(members, open) - (pending - {u}))
    ensures members[u] !in open ==> multiset(names) == multiset(OpenMembers(members, open) - (pending - {u}))
  {
    var served := OpenMembers(members, open);
    if members[u] in open {
      assert served - (pending - {u}) == (served - pending) + {u};
      assert multiset(names + [u]) == multiset(names) + multiset{u};
    } else {
      assert served - (pending - {u}) == served - pending;
    }
  }

  lemma UpdateThenRemove<K, V>(m: map<K, V>, k: K, v: V)
    ensures m[k := v] - {k} == m - {k}
  {
  }

  class Registry {
    /** `rooms`: room name to (user name to connection). */
    var rooms: map<string, map<string, ConnId>>
    /** `roomsHistory`: room name to its log, oldest first. */
    var history: map<string, seq<Message>>
    /** Every frame sent so far, in order. */
    ghost var outbox: seq<(ConnId, Envelope)>

    function State(): Tables
      reads this`rooms, this`history
    {
      Tables(rooms, history)
    }

    ghost predicate Valid()
      reads this`rooms, this`history
    {
      Consistent(State())
    }

    /** The members of `room`, or none for an unknown room (`rooms[room] || new Map()`). */
    function Clients(room: string): map<string, ConnId>
      reads this`rooms
    {
      if room in rooms then rooms[room] else map[]
    }

    constructor ()
      ensures Valid()
      ensures rooms == map[] && history == map[] && outbox == []
    {
      rooms, history := map[], map[];
      outbox := [];
    }

    /** Sends `env` to every open connection of `room`; the tables are left alone. */
    method SendToOpenClients(room: string, env: Envelope, open: set<ConnId>)
      modifies this`outbox
      ensures |outbox| >= |old(outbox)| && outbox[..|old(outbox)|] == old(outbox)
      ensures FanOut(outbox[|old(outbox)|..], Clients(room), open, env)
    {
      var clients := Clients(room);
      var pending := clients.Keys;
      ghost var names: seq<string> := [];
      while pending != {}
        invariant pending <= clients.Keys
        invariant multiset(names) == multiset(OpenMembers(clients, open) - pending)
        invariant outbox == old(outbox) + SendsTo(names, clients, env)
        decreases pending
      {
        var u :| u in pending;
        ServeOne(names, clients, open, pending, u);
        if clients[u] in open {
          SendsToSnoc(old(outbox), names, u, clients, env);
          outbox := outbox + [(clients[u], env)];
          names := names + [u];
        }
        pending := pending - {u};
      }
      assert OpenMembers(clients, open) - pending == OpenMembers(clients, open);
      assert outbox[|old(outbox)|..] == SendsTo(names, clients, env);
    }

    /** `broadcastActiveUsers`: the roster of `room` to each of its open connections. */
    method BroadcastActiveUsers(room: string, open: set<ConnId>)
      modifies this`outbox
      ensures |outbox| >= |old(outbox)| && outbox[..|old(outbox)|] == old(outbox)
      ensures FanOut(outbox[|old(outbox)|..], Clients(room), open, ActiveUsersEnv(Clients(room).Keys))
    {
      SendToOpenClients(room, ActiveUsersEnv(Clients(room).Keys), open);
    }

    /** `broadcastMessageToRoom`: one message to each open connection of `room`. */
    method BroadcastMessageToRoom(room: string, m: Message, open: set<ConnId>)
      modifies this`outbox
      ensures |outbox| >= |old(outbox)| && outbox[..|old(outbox)|] == old(outbox)
      ensures FanOut(outbox[|old(outbox)|..], Clients(room), open, MessageEnv(m))
    {
      SendToOpenClients(room, MessageEnv(m), open);
    }

    /**
     * The `connection` event: resolve room and user from the request url, then
     * register the connection there (see `Register`).
     */
    method OnConnect(url: Option<string>, freshId: string, conn: ConnId, open: set<ConnId>) returns (s: Session)
      requires Valid()
      modifies this
      ensures Valid()
      ensures s.conn == conn && Handle(s.room, s.user) == Resolve(url, freshId)
      ensures State() == Join(old(State()), s.room, s.user, conn)
      ensures |outbox| > |old(outbox)|
      ensures outbox[..|old(outbox)| + 1] == old(outbox) + [(conn, HistoryEnv(history[s.room]))]
      ensures FanOut(outbox[|old(outbox)| + 1..], rooms[s.room], open, ActiveUsersEnv(rooms[s.room].Keys))
    {
      var who := Resolve(url, freshId);
      s := Session(conn, who.room, who.user);
      Register(s, open);
    }

    /** The table updates of a join: create the room's member map and log when absent, then map the user to the connection. */
    method JoinTables(s: Session)
      requires Valid()
      modifies this`rooms, this`history
      ensures Valid()
      ensures State() == Join(old(State()), s.room, s.user, s.conn)
    {
      ghost var t0 := State();
      if s.room !in rooms {
        rooms := rooms[s.room := map[]];
      }
      if s.room !in history {
        history := history[s.room := []];
      }
      var members: map<string, ConnId> := rooms[s.room];
      rooms := rooms[s.room := members[s.user := s.conn]];
      assert State() == Join(t0, s.room, s.user, s.conn);
      JoinKeepsConsistent(t0, s.room, s.user, s.conn);
    }

    /**
     * The join steps of the `connection` event for session `s`: create the room's
     * member map and log when absent, map the user to the connection, send the
     * history snapshot to this connection only, then broadcast the roster.
     */
    method Register(s: Session, open: set<ConnId>)
      requires Valid()
      modifies this
      ensures Valid()
      ensures State() == Join(old(State()), s.room, s.user, s.conn)
      ensures |outbox| > |old(outbox)|
      ensures outbox[..|old(outbox)| + 1] == old(outbox) + [(s.conn, HistoryEnv(history[s.room]))]
      ensures FanOut(outbox[|old(outbox)| + 1..], rooms[s.room], open, ActiveUsersEnv(rooms[s.room].Keys))
    {
      JoinTables(s);
      outbox := outbox + [(s.conn, HistoryEnv(history[s.room]))];
      ghost var before := outbox;
      BroadcastActiveUsers(s.room, open);
      assert Clients(s.room) == rooms[s.room];
      assert outbox[..|before|] == before;
    }

    /**
     * The `message` event of session `s`: a malformed frame or one without content is
     * dropped; otherwise the canonical message is appended to the room's log within
     * the cap and sent to every open connection of the room. When a stale close has
     * deleted the room, the append fails and nothing changes.
     */
    method OnMessage(s: Session, frame: Inbound, freshId: string, now: int, open: set<ConnId>) returns (outcome: Outcome)
      requires Valid()
      modifies this
      ensures Valid()
      ensures outcome == Dropped <==> Canonicalize(frame, s.room, s.user, freshId, now).None?
      ensures outcome == Crashed <==> Canonicalize(frame, s.room, s.user, freshId, now).Some? && s.room !in old(history)
      ensures outcome.Relayed? ==> Some(outcome.message) == Canonicalize(frame, s.room, s.user, freshId, now)
      ensures outcome.Relayed? ==> Some(State()) == Record(old(State()), s.room, outcome.message)
      ensures outcome.Relayed? ==> |outbox| >= |old(outbox)| && outbox[..|old(outbox)|] == old(outbox)
      ensures outcome.Relayed? ==> FanOut(outbox[|old(outbox)|..], rooms[s.room], open, MessageEnv(outcome.message))
      ensures !outcome.Relayed? ==> State() == old(State()) && outbox == old(outbox)
    {
      var made := Canonicalize(frame, s.room, s.user, freshId, now);
      if made.None? {
        return Dropped;
      }
      var m := made.value;
      if s.room !in history {
        return Crashed;
      }
      ghost var t0 := State();
      RecordKeepsConsistent(t0, s.room, m);
      var log := history[s.room] + [m];
      if |log| > MaxHistory {
        log := log[1..];
      }
      history := history[s.room := log];
      assert Some(State()) == Record(t0, s.room, m);
      BroadcastMessageToRoom(s.room, m, open);
      outcome := Relayed(m);
    }

    /**
     * The `close` event of session `s`: the user name is removed from the room; an
     * emptied room is deleted together with its log and nothing is sent, otherwise
     * the roster is broadcast to the remaining members.
     */
    method OnClose(s: Session, open: set<ConnId>)
      requires Valid()
      modifies this
      ensures Valid()
      ensures State() == Leave(old(State()), s.room, s.user)
      ensures s.room !in rooms ==> outbox == old(outbox)
      ensures s.room in rooms ==> |outbox| >= |old(outbox)| && outbox[..|old(outbox)|] == old(outbox)
      ensures s.room in rooms ==> FanOut(outbox[|old(outbox)|..], rooms[s.room], open, ActiveUsersEnv(rooms[s.room].Keys))
    {
      LeaveTables(s);
      if s.room in rooms {
        BroadcastActiveUsers(s.room, open);
        assert Clients(s.room) == rooms[s.room];
      }
    }

    /** The table updates of a close: remove the user name, and delete the room and its log once no member is left. */
    method LeaveTables(s: Session)
      requires Valid()
      modifies this`rooms, this`history
      ensures Valid()
      ensures State() == Leave(old(State()), s.room, s.user)
    {
      ghost var t0 := State();
      LeaveKeepsConsistent(t0, s.room, s.user);
      if s.room in rooms {
        rooms := rooms[s.room := rooms[s.room] - {s.user}];
        if |rooms[s.room]| == 0 {
          UpdateThenRemove(t0.rooms, s.room, rooms[s.room]);
          rooms := rooms - {s.room};
          history := history - {s.room};
        }
        assert State() == Leave(t0, s.room, s.user);
      }
    }

    /**
     * The `error` event of session `s`: the user name is removed and the roster
     * broadcast, but the room and its log are kept even when no member is left.
     */
    method OnError(s: Session, open: set<ConnId>)
      requires Valid()
      modifies this
      ensures Valid()
      ensures State() == DropOnError(old(State()), s.room, s.user)
      ensures s.room !in rooms ==> outbox == old(outbox)
      ensures s.room in rooms ==> |outbox| >= |old(outbox)| && outbox[..|old(outbox)|] == old(outbox)
      ensures s.room in rooms ==> FanOut(outbox[|old(outbox)|..], rooms[s.room], open, ActiveUsersEnv(rooms[s.room].Keys))
    {
      DropOnErrorKeepsConsistent(State(), s.room, s.user);
      if s.room in rooms {
        rooms := rooms[s.room := rooms[s.room] - {s.user}];
        BroadcastActiveUsers(s.room, open);
      }
    }
  }
}
