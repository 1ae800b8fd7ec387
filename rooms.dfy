/**
 * The relay's two process-wide tables as values: `rooms` maps a room name to its
 * members (user name to connection), `history` maps a room name to its bounded log.
 * Each function below is the effect one event handler has on the tables.
 */
module Rooms {
  import opened Wrappers
  import opened Protocol
  import opened Window

  datatype Tables = Tables(rooms: map<string, map<string, ConnId>>, history: map<string, seq<Message>>)

  /**
   * What the handlers keep true: a room has an entry in `rooms`, possibly emptied by
   * an error, exactly when it has a log; every log is within the cap; and every logged
   * message belongs to its room and has content.
   */
  predicate Consistent(t: Tables) {
    && t.rooms.Keys == t.history.Keys
    && (forall r :: r in t.history ==> |t.history[r]| <= MaxHistory)
    && (forall r, i :: r in t.history && 0 <= i < |t.history[r]| ==>
          t.history[r][i].room == r && t.history[r][i].content != "")
  }

  /** The roster of `room`: the user names registered there (none for an unknown room). */
  function Members(t: Tables, room: string): set<string> {
    if room in t.rooms then t.rooms[room].Keys else {}
  }

  /** Every room other than `room` has the same members and the same log in both tables. */
  ghost predicate SameElsewhere(t: Tables, t': Tables, room: string) {
    && (forall r :: r != room ==> (r in t'.rooms <==> r in t.rooms))
    && (forall r :: r != room && r in t.rooms ==> t'.rooms[r] == t.rooms[r])
    && (forall r :: r != room ==> (r in t'.history <==> r in t.history))
    && (forall r :: r != room && r in t.history ==> t'.history[r] == t.history[r])
  }

  /**
   * A connection of `user` joins `room`: the room and its log are created when absent,
   * and `user` is mapped to `conn`, replacing any earlier connection under that name.
   */
  function Join(t: Tables, room: string, user: string, conn: ConnId): (t': Tables)
    ensures room in t'.rooms && room in t'.history
    ensures user in t'.rooms[room] && t'.rooms[room][user] == conn
    ensures Members(t', room) == Members(t, room) + {user}
    ensures room in t.rooms ==> forall u :: u in t.rooms[room] && u != user ==> t'.rooms[room][u] == t.rooms[room][u]
    ensures room in t.history ==> t'.history[room] == t.history[room]
    ensures room !in t.history ==> t'.history[room] == []
  {
    var members := if room in t.rooms then t.rooms[room] else map[];
    var log := if room in t.history then t.history[room] else [];
    Tables(t.rooms[room := members[user := conn]], t.history[room := log])
  }

  /**
   * The close handler: `user` is removed from `room` whichever connection it maps to;
   * a room left without members loses its entry in both tables.
   */
  function Leave(t: Tables, room: string, user: string): (t': Tables)
    ensures room !in t.rooms ==> t' == t
    ensures Members(t', room) == Members(t, room) - {user}
    ensures room in t.rooms ==> (room in t'.rooms <==> Members(t', room) != {})
    ensures room in t.rooms && room !in t'.rooms ==> room !in t'.history
    ensures room in t'.history ==> room in t.history && t'.history[room] == t.history[room]
    ensures room in t'.rooms ==> room in t.rooms && forall u :: u in t'.rooms[room] ==> t'.rooms[room][u] == t.rooms[room][u]
  {
    if room !in t.rooms then t
    else
      var members := t.rooms[room] - {user};
      if |members| == 0 then Tables(t.rooms - {room}, t.history - {room})
      else Tables(t.rooms[room := members], t.history)
  }

  /** The error handler: `user` is removed from `room`, but the room and its log stay even when empty. */
  function DropOnError(t: Tables, room: string, user: string): (t': Tables)
    ensures Members(t', room) == Members(t, room) - {user}
    ensures room in t'.rooms <==> room in t.rooms
    ensures t'.history == t.history
    ensures room in t'.rooms ==> forall u :: u in t'.rooms[room] ==> t'.rooms[room][u] == t.rooms[room][u]
  {
    if room !in t.rooms then t
    else Tables(t.rooms[room := t.rooms[room] - {user}], t.history)
  }

  /**
   * The log update of the message handler: `m` is appended to the log of `room` within
   * the cap. None when `room` has no log: there the source's `push` meets `undefined`.
   */
  function Record(t: Tables, room: string, m: Message): (r: Option<Tables>)
    ensures r.None? <==> room !in t.history
    ensures r.Some? ==> r.value.rooms == t.rooms
    ensures r.Some? ==> room in r.value.history && r.value.history[room] == AppendCapped(t.history[room], m)
  {
    if room !in t.history then None
    else Some(Tables(t.rooms, t.history[room := AppendCapped(t.history[room], m)]))
  }

  /** No handler touches a room other than the session's. */
  lemma JoinLeavesOtherRooms(t: Tables, room: string, user: string, conn: ConnId)
    ensures SameElsewhere(t, Join(t, room, user, conn), room)
  {
  }

  lemma LeaveLeavesOtherRooms(t: Tables, room: string, user: string)
    ensures SameElsewhere(t, Leave(t, room, user), room)
  {
    if room in t.rooms {
      var members := t.rooms[room] - {user};
      if |members| == 0 {
        assert Leave(t, room, user) == Tables(t.rooms - {room}, t.history - {room});
        DeletingRoomLeavesOthers(t, room);
      } else {
        assert Leave(t, room, user) == Tables(t.rooms[room := members], t.history);
        ReplacingMembersLeavesOthers(t, room, members);
      }
    }
  }

  lemma DeletingRoomLeavesOthers(t: Tables, room: string)
    ensures SameElsewhere(t, Tables(t.rooms - {room}, t.history - {room}), room)
  {
  }

  lemma ReplacingMembersLeavesOthers(t: Tables, room: string, members: map<string, ConnId>)
    ensures SameElsewhere(t, Tables(t.rooms[room := members], t.history), room)
  {
  }

  lemma DropOnErrorLeavesOtherRooms(t: Tables, room: string, user: string)
    ensures SameElsewhere(t, DropOnError(t, room, user), room)
  {
  }

  lemma RecordLeavesOtherRooms(t: Tables, room: string, m: Message)
    requires room in t.history
    ensures SameElsewhere(t, Record(t, room, m).value, room)
  {
  }

  /** Every handler keeps the tables consistent. */
  lemma JoinKeepsConsistent(t: Tables, room: string, user: string, conn: ConnId)
    requires Consistent(t)
    ensures Consistent(Join(t, room, user, conn))
  {
  }

  lemma LeaveKeepsConsistent(t: Tables, room: string, user: string)
    requires Consistent(t)
    ensures Consistent(Leave(t, room, user))
  {
  }

  lemma DropOnErrorKeepsConsistent(t: Tables, room: string, user: string)
    requires Consistent(t)
    ensures Consistent(DropOnError(t, room, user))
  {
  }

  /** Appending a message of the room that has content keeps the tables consistent. */
  lemma RecordKeepsConsistent(t: Tables, room: string, m: Message)
    requires Consistent(t) && room in t.history
    requires m.room == room && m.content != ""
    ensures Consistent(Record(t, room, m).value)
  {
    var t' := Record(t, room, m).value;
    forall r, i | r in t'.history && 0 <= i < |t'.history[r]|
      ensures t'.history[r][i].room == r && t'.history[r][i].content != ""
    {
      if r == room {
        AppendCappedEntry(t.history[room], m, i);
      }
    }
  }

  /** The last member leaving discards the room: the next join starts it afresh with an empty log. */
  lemma RejoinAfterLastLeaveStartsFresh(t: Tables, room: string, user: string, next: string, conn: ConnId)
    requires Consistent(t)
    requires Members(t, room) == {user}
    ensures var t' := Join(Leave(t, room, user), room, next, conn);
      t'.history[room] == [] && Members(t', room) == {next}
  {
    var left := Leave(t, room, user);
    assert room !in left.rooms;
    assert room !in left.history;
  }

  /**
   * Two members of "lobby": both appear in the roster, a message is logged last,
   * one leaves and the roster shrinks, the other leaves and the room is gone.
   */
  lemma LobbyScenario(t: Tables, a: ConnId, b: ConnId, m: Message)
    requires Consistent(t) && "lobby" !in t.rooms
    requires m.room == "lobby" && m.content != ""
    ensures var t1 := Join(Join(t, "lobby", "alice", a), "lobby", "bob", b);
      && Members(t1, "lobby") == {"alice", "bob"}
      && Record(t1, "lobby", m).Some?
      && Record(t1, "lobby", m).value.history["lobby"] == [m]
      && var t2 := Leave(Record(t1, "lobby", m).value, "lobby", "bob");
      && Members(t2, "lobby") == {"alice"}
      && var t3 := Leave(t2, "lobby", "alice");
      && "lobby" !in t3.rooms && "lobby" !in t3.history
  {
    var t1 := Join(Join(t, "lobby", "alice", a), "lobby", "bob", b);
    assert t1.history["lobby"] == [];
    var t2 := Leave(Record(t1, "lobby", m).value, "lobby", "bob");
    assert Members(t2, "lobby") == {"alice"};
  }

  /**
   * As written, close removes the entry by user name only. A connection evicted by a
   * later join under the same name (c1 replaced by c2) then closes: the newer
   * connection's entry goes, the room and its log are deleted, and the next frame
   * the newer connection sends finds no log to append to.
   */
  lemma StaleCloseThenMessageCrashes(t: Tables, room: string, user: string, c1: ConnId, c2: ConnId, m: Message)
    requires Consistent(t) && room !in t.rooms && c1 != c2
    ensures var t2 := Join(Join(t, room, user, c1), room, user, c2);
      && t2.rooms[room] == map[user := c2]
      && var t3 := Leave(t2, room, user);
      && room !in t3.rooms && room !in t3.history
      && Record(t3, room, m).None?
  {
    var t2 := Join(Join(t, room, user, c1), room, user, c2);
    assert t2.rooms[room] == map[user := c2];
    assert Members(t2, room) == {user};
  }

  /**
   * The owner-checked close: the entry goes only while it still maps to the closing
   * connection, and a room that an error has already emptied is deleted with its log,
   * as the plain close does.
   */
  function LeaveOwned(t: Tables, room: string, user: string, conn: ConnId): (t': Tables)
    ensures room in t.rooms && user in t.rooms[room] && t.rooms[room][user] != conn ==> t' == t
    ensures room in t.rooms && user in t.rooms[room] && t.rooms[room][user] == conn ==> t' == Leave(t, room, user)
    ensures room in t.rooms && |t.rooms[room]| == 0 ==> room !in t'.rooms && room !in t'.history
    ensures Members(t', room) <= Members(t, room)
  {
    if room in t.rooms && user in t.rooms[room] && t.rooms[room][user] == conn then Leave(t, room, user)
    else if room in t.rooms && |t.rooms[room]| == 0 then Tables(t.rooms - {room}, t.history - {room})
    else t
  }

  /** The owner-checked close keeps the tables consistent. */
  lemma LeaveOwnedKeepsConsistent(t: Tables, room: string, user: string, conn: ConnId)
    requires Consistent(t)
    ensures Consistent(LeaveOwned(t, room, user, conn))
  {
    LeaveKeepsConsistent(t, room, user);
  }

  /**
   * The `ws` library emits `close` after `error`: the error empties the room of its
   * last member, and the owner-checked close that follows deletes the room and its log.
   */
  lemma ErrorThenOwnedCloseDeletesRoom(t: Tables, room: string, user: string, conn: ConnId)
    requires Consistent(t) && room !in t.rooms
    ensures var t1 := DropOnError(Join(t, room, user, conn), room, user);
      && room in t1.rooms && t1.rooms[room] == map[]
      && var t2 := LeaveOwned(t1, room, user, conn);
      && room !in t2.rooms && room !in t2.history
  {
    var t0 := Join(t, room, user, conn);
    assert t0.rooms[room] == map[user := conn];
    var t1 := DropOnError(t0, room, user);
    assert t1.rooms[room] == map[];
  }

  /**
   * The owner check does not remove the crash: c2 evicts c1 under the same name, c2's
   * own close deletes the room, and the still-open c1's next message finds no log.
   */
  lemma OwnedCloseStrandsEvictedConnection(t: Tables, room: string, user: string, c1: ConnId, c2: ConnId, m: Message)
    requires Consistent(t) && room !in t.rooms
    ensures var t2 := Join(Join(t, room, user, c1), room, user, c2);
      && var t3 := LeaveOwned(t2, room, user, c2);
      && room !in t3.rooms && room !in t3.history
      && Record(t3, room, m).None?
  {
    var t2 := Join(Join(t, room, user, c1), room, user, c2);
    assert t2.rooms[room] == map[user := c2];
    assert Members(t2, room) == {user};
  }

  /**
   * With the owner check, the stale close of the evicted connection c1 changes nothing:
   * the room keeps `user` on c2 and c2's next message is logged.
   */
  lemma OwnedLeaveKeepsNewerSession(t: Tables, room: string, user: string, c1: ConnId, c2: ConnId, m: Message)
    requires Consistent(t) && c1 != c2
    ensures var t2 := Join(Join(t, room, user, c1), room, user, c2);
      && LeaveOwned(t2, room, user, c1) == t2
      && t2.rooms[room][user] == c2
      && Record(LeaveOwned(t2, room, user, c1), room, m).Some?
  {
  }
}
