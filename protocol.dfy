/**
 * The relay's wire protocol: the canonical chat message the server builds, the
 * three envelopes it sends, and the inbound payload a client sends.
 */
module Protocol {
  import opened Wrappers

  /** A connection handle (the `ws` object the server keeps per member). */
  type ConnId = nat

  /** A canonical chat message, `{ type: "message", id, username, content, time, room }`; `time` is an abstract instant. */
  datatype Message = Message(id: string, username: string, content: string, time: int, room: string)

  /** What the server sends: the history snapshot, the roster, or one chat message. */
  datatype Envelope =
    | HistoryEnv(messages: seq<Message>)
    | ActiveUsersEnv(users: set<string>)
    | MessageEnv(message: Message)

  /** An inbound frame once parsed as JSON: unparseable, or an object with optional fields. */
  datatype Inbound =
    | Malformed
    | Payload(id: Option<string>, username: Option<string>, content: Option<string>, time: Option<int>)

  /**
   * The message the server builds from an inbound frame of a session in `room` as `user`,
   * or None when the frame is dropped. The client's id and username are honoured when
   * truthy; the time is always the server's `now`; the room is always the session's.
   */
  function Canonicalize(frame: Inbound, room: string, user: string, freshId: string, now: int): (r: Option<Message>)
    ensures r.None? <==> frame.Malformed? || !Truthy(frame.content)
    ensures r.Some? ==> r.value.content == frame.content.value && r.value.content != ""
    ensures r.Some? ==> r.value.room == room && r.value.time == now
    ensures r.Some? ==> r.value.id == (if Truthy(frame.id) then frame.id.value else freshId)
    ensures r.Some? ==> r.value.username == (if Truthy(frame.username) then frame.username.value else user)
  {
    match frame
    case Malformed => None
    case Payload(id, username, content, _) =>
      if !Truthy(content) then None
      else
        Some(Message(
          if Truthy(id) then id.value else freshId,
          if Truthy(username) then username.value else user,
          content.value,
          now,
          room))
  }

  /** The server's clock decides: two frames differing only in the client-supplied time give the same message. */
  lemma ClientTimeIgnored(frame: Inbound, t: Option<int>, room: string, user: string, freshId: string, now: int)
    requires frame.Payload?
    ensures Canonicalize(frame.(time := t), room, user, freshId, now) == Canonicalize(frame, room, user, freshId, now)
  {
  }
}
