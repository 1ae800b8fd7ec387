/**
 * The chat client's connection state: `joinRoom`, `sendMessage` and the socket's
 * open, close and message callbacks, over the component's state variables. The
 * socket in use is `ws.current`; what it sends is recorded in the ghost `sent`.
 */
module Client {
  import opened Wrappers
  import opened Uri
  import opened Feed
  import Protocol
  import Identity
  import UrlPath

  /** A socket the client opened, with the path it was opened on. */
  datatype Socket = Socket(id: nat, path: string)

  /** The frame `sendMessage` sends: `{ username, content, time }`. */
  datatype Outbound = Outbound(username: string, content: string, time: int)

  /** The path `joinRoom` connects to: `/ws/` and the encoded user name; the room name is not part of it. */
  function ConnectPath(user: string): (p: string)
    ensures Identity.Prefix <= p && '/' !in p[|Identity.Prefix|..]
    ensures |p| > |Identity.Prefix| <==> user != ""
  {
    Identity.Prefix + EncodeUriComponent(user)
  }

  /**
   * As written, the server reads the client's single segment as the room: whatever
   * room the user picked, the connection lands in a room named after the encoded user
   * name, under an anonymous user name. The path reaches the server as the client
   * built it, since an encoded name other than "." or ".." is no dot segment.
   */
  lemma ClientLandsInOwnNameRoom(user: string, freshId: string)
    requires user != "" && user != "." && user != ".."
    ensures UrlPath.Sent(ConnectPath(user)) == ConnectPath(user)
    ensures Identity.Resolve(Some(UrlPath.Sent(ConnectPath(user))), freshId)
         == Identity.Handle(EncodeUriComponent(user), Identity.AnonName(freshId))
  {
    var name := EncodeUriComponent(user);
    UrlPath.EncodedDotSegment(user);
    UrlPath.PlainNameArrives(name);
    Identity.RoomOnly(name, "", freshId);
    assert ConnectPath(user) == Identity.Prefix + name + "";
  }

  /**
   * The names "." and ".." are sent as dot segments, which the browser's URL parser
   * removes: `/ws/.` arrives as `/ws/` and `/ws/..` as `/`, and both land in room
   * "general" under an anonymous user name.
   */
  lemma DotNamesLandInGeneral(user: string, freshId: string)
    requires user == "." || user == ".."
    ensures UrlPath.Sent(ConnectPath(user)) == (if user == "." then Identity.Prefix else "/")
    ensures Identity.Resolve(Some(UrlPath.Sent(ConnectPath(user))), freshId)
         == Identity.Handle(Identity.DefaultRoom, Identity.AnonName(freshId))
  {
    UnreservedUnchanged(user);
    UrlPath.TrailingDotSegment(user);
  }

  /** The path the server's resolver expects: `/ws/<room>/<user>`, both encoded. */
  function IntendedConnectPath(room: string, user: string): (p: string)
    ensures Identity.Prefix <= p
  {
    Identity.Prefix + EncodeUriComponent(room) + "/" + EncodeUriComponent(user)
  }

  /**
   * With the room in the path, the server registers the connection in that room
   * under that name; names other than "." and ".." reach it unchanged.
   */
  lemma IntendedPathResolves(room: string, user: string, freshId: string)
    requires room != "" && room != "." && room != ".."
    requires user != "" && user != "." && user != ".."
    ensures UrlPath.Sent(IntendedConnectPath(room, user)) == IntendedConnectPath(room, user)
    ensures Identity.Resolve(Some(UrlPath.Sent(IntendedConnectPath(room, user))), freshId)
         == Identity.Handle(EncodeUriComponent(room), EncodeUriComponent(user))
  {
    var r, u := EncodeUriComponent(room), EncodeUriComponent(user);
    UrlPath.EncodedDotSegment(room);
    UrlPath.EncodedDotSegment(user);
    UrlPath.PlainRoomAndNameArrive(r, u);
    Identity.RoomAndUser(r, u, "", freshId);
    assert IntendedConnectPath(room, user) == Identity.Prefix + r + "/" + u + "";
  }

  /** The frame as the server parses it: id absent, username and content present, a client time. */
  function ToInbound(o: Outbound): (f: Protocol.Inbound)
    ensures f.Payload? && f.id.None?
    ensures f.content == Some(o.content) && f.username == Some(o.username)
  {
    Protocol.Payload(None, Some(o.username), Some(o.content), Some(o.time))
  }

  /**
   * Whatever the client sends with a non-empty input is relayed: the server keeps its
   * content and the claimed name, and replaces its time by the server's own.
   */
  lemma ClientSendIsRelayed(o: Outbound, room: string, user: string, freshId: string, now: int)
    requires o.content != ""
    ensures var m := Protocol.Canonicalize(ToInbound(o), room, user, freshId, now);
      m.Some? && m.value.content == o.content && m.value.time == now && m.value.id == freshId &&
      m.value.username == (if o.username != "" then o.username else user)
  {
  }

  class ChatClient {
    var username: string
    var room: string
    var connected: bool
    var messages: seq<Entry>
    var input: string
    var activeUsers: seq<string>
    var showActiveUsers: bool
    /** The `fetchHistory` flag captured by the current socket's message callback. */
    var fetchHistory: bool
    /** `ws.current`. */
    var socket: Option<Socket>
    /** Sockets opened and closed by `joinRoom`, and frames sent, in order. */
    ghost var openedSockets: seq<Socket>
    ghost var closedSockets: seq<Socket>
    ghost var sent: seq<(Socket, Outbound)>

    /** The initial state: the name and room from the page's query, not yet connected. */
    constructor (queryUser: string, queryRoom: string)
      ensures username == queryUser
      ensures room == (if queryRoom != "" then queryRoom else Identity.DefaultRoom)
      ensures !connected && messages == [] && input == "" && activeUsers == [] && !showActiveUsers
      ensures socket.None? && openedSockets == [] && closedSockets == [] && sent == []
    {
      username := queryUser;
      room := if queryRoom != "" then queryRoom else Identity.DefaultRoom;
      connected := false;
      messages, input, activeUsers := [], "", [];
      showActiveUsers := false;
      fetchHistory := true;
      socket := None;
      openedSockets, closedSockets, sent := [], [], [];
    }

    /** `ws.current.close()` when there is a current socket. */
    method CloseSocket()
      modifies this`socket, this`closedSockets
      ensures socket.None?
      ensures closedSockets == old(closedSockets) + (if old(socket).Some? then [old(socket).value] else [])
    {
      if socket.Some? {
        closedSockets := closedSockets + [socket.value];
        socket := None;
      }
    }

    /**
     * `joinRoom(roomName, user, fetch)`: with an empty user name nothing happens (an
     * alert is shown). Otherwise the current socket is closed, the room is set, the
     * list, roster and roster panel are reset, and a new socket is opened on
     * `ConnectPath(user)`.
     */
    method JoinRoom(roomName: string, user: string, fetch: bool, socketId: nat)
      modifies this
      ensures user == "" ==> unchanged(this)
      ensures user != "" ==> room == roomName && messages == [] && activeUsers == [] && !showActiveUsers
      ensures user != "" ==> socket == Some(Socket(socketId, ConnectPath(user))) && fetchHistory == fetch
      ensures user != "" ==> openedSockets == old(openedSockets) + [socket.value]
      ensures user != "" ==> closedSockets == old(closedSockets) + (if old(socket).Some? then [old(socket).value] else [])
      ensures username == old(username) && connected == old(connected) && input == old(input) && sent == old(sent)
    {
      if user == "" {
        return;
      }
      var path := ConnectPath(user);
      CloseSocket();
      room := roomName;
      messages := [];
      activeUsers := [];
      showActiveUsers := false;
      socket := Some(Socket(socketId, path));
      openedSockets := openedSockets + [socket.value];
      fetchHistory := fetch;
    }

    /**
     * `sendMessage()`: nothing without a socket, with a socket that is not open, or
     * with an empty input; otherwise `{ username, content: input, time: now }` is sent
     * on the socket and the input is cleared.
     */
    method SendMessage(socketOpen: bool, now: int)
      modifies this`sent, this`input
      ensures socket.None? || !socketOpen || old(input) == "" ==> unchanged(this)
      ensures socket.Some? && socketOpen && old(input) != "" ==>
        sent == old(sent) + [(socket.value, Outbound(username, old(input), now))] && input == ""
      ensures socket == old(socket) && username == old(username) && messages == old(messages)
      ensures room == old(room) && activeUsers == old(activeUsers) && connected == old(connected)
    {
      if socket.None? || !socketOpen {
        return;
      }
      if input == "" {
        return;
      }
      sent := sent + [(socket.value, Outbound(username, input, now))];
      input := "";
    }

    /** The socket's `onopen`. */
    method OnOpen()
      modifies this`connected
      ensures connected
    {
      connected := true;
    }

    /** The socket's `onclose`. */
    method OnClose()
      modifies this`connected
      ensures !connected
    {
      connected := false;
    }

    /** The socket's `onmessage`: the reducer applied to the list and roster. */
    method OnMessage(frame: Frame, now: int)
      modifies this`messages, this`activeUsers
      ensures View(messages, activeUsers) == OnFrame(old(View(messages, activeUsers)), frame, fetchHistory, now)
    {
      var v := OnFrame(View(messages, activeUsers), frame, fetchHistory, now);
      messages, activeUsers := v.messages, v.activeUsers;
    }
  }
}
