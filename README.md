# Chat room relay — a Dafny model

This project models the core of a small real-time chat application.

**The relay server (`backend/server.js`).** A single Node process keeps two tables:
- `rooms` maps a room name to its members (user name → socket);
- `roomsHistory` maps a room name to the room's last 200 messages.

Each WebSocket event is one sequential step over these tables:
- connect: resolve room and user from the path, join, send the history to the new socket, broadcast the roster;
- message: validate, canonicalise, append within the cap, fan out;
- close and error: remove the user, delete or keep the room, rebroadcast the roster.

**The chat client (`frontend/src/App.js`).** The model covers:
- the 32-bit string hash behind each user's bubble colour, and its memo table;
- the `onmessage` reducer over the message list and roster;
- the guards of `joinRoom` and `sendMessage`.

Files and modules:
- `identity.dfy` (`Identity`): the connect-path regex `^/ws/([^/]+)/?([^/]*)` and the total resolver.
- `protocol.dfy` (`Protocol`): the message, the three envelopes, the inbound payload, and `Canonicalize`.
- `window.dfy` (`Window`): the capped log (`push`, then one `shift` past 200) and the sliding-window theorem.
- `rooms.dfy` (`Rooms`): the two tables as a value, one function per handler's effect, and the invariant `Consistent`.
- `server.dfy` (`Server`): the `Registry` class.
  - It has one method per event, each proved against the `Rooms` function.
  - The broadcast loop is proved to reach exactly the open sockets of the room.
  - Sends are recorded in a ghost `outbox`.
- `uri.dfy` (`Uri`): `encodeURIComponent` (UTF-8 percent-encoding) and a reference decoder that undoes it.
- `urlpath.dfy` (`UrlPath`): dot-segment removal, which the browser's URL parser (the path state of the WHATWG URL Standard) applies to the socket URL before the server sees it.
- `colorhash.dfy` (`ColorHash`): `hashCode` as a loop, proved equal to a left fold and to a polynomial reduced modulo 2^32; also the hue and the `ColorCache` class.
- `feed.dfy` (`Feed`): the reducer as functions over an immutable `View`.
- `client.dfy` (`Client`): the `ChatClient` class and the connect path the client builds.

Abstractions:
- Times are integers: the server's `now` and the client's `now` are parameters.
- `makeId()` is a `freshId` string parameter.
- Which sockets are open (`readyState === OPEN`) is a set of connection ids, or a boolean for the client's one socket.
- `JSON.parse` results are datatypes with a `Malformed`/`Unparseable` variant and optional fields.

The model follows the code as written, including three places where the code does not do what the rest of the system expects:
- Close removes the user name without checking that the entry is still the closing socket's.
- The error handler keeps an emptied room.
- The client connects to `/ws/<user>`, which the server reads as room `<user>` with an anonymous user. It is not room "general". The user names "." and ".." are the exception: the URL parser removes the dot segment, so the path arrives as `/ws/` or `/` and the connection lands in "general".

## Model

| member | source | states |
|---|---|---|
| `Identity.Segment` | backend/server.js:31 | the longest '/'-free prefix: a prefix of the input, containing no '/', and stopping only at the end or at a '/' |
| `Identity.MatchPath` | backend/server.js:31 | the regex matches exactly when the path starts with `/ws/` followed by a non-'/' character; the room group is then non-empty and '/'-free, the user group '/'-free |
| `Identity.AnonName` | backend/server.js:33 | anonymous names are `anon_` followed by the first four characters of the fresh id (all of it when shorter) |
| `Identity.SharedIdPrefixSameAnonName` | backend/server.js:33 | two fresh ids with the same first four characters give the same anonymous name, so such connections collide under one user name |
| `Identity.Resolve` | backend/server.js:30-33 | total: every url, including a missing one, gives a non-empty room and user; an unmatched path gives room "general" and an `anon_` user; a matched one gives the captured room |
| `Identity.RoomAndUser` | backend/server.js:31-33 | `/ws/R/U` followed by nothing or by `/...` resolves to room R and user U |
| `Identity.RoomOnly` | backend/server.js:31-33 | `/ws/R`, `/ws/R/` and any `/ws/R/` followed by an empty user group and a further '/' (such as `/ws/R//x`) resolve to room R and the anonymous name |
| `Identity.Unmatched` | backend/server.js:31-33 | a path not of the form `/ws/<non-slash>...` (such as `/ws//U` or `/`) resolves to "general" and the anonymous name |
| `Protocol.Canonicalize` | backend/server.js:51-63 | a malformed frame or a falsy `content` gives nothing; otherwise the message has the content, the client's id if truthy or else a fresh one, the client's username if truthy or else the session's, the server's time and the session's room |
| `Protocol.ClientTimeIgnored` | backend/server.js:61 | the client-supplied time has no influence on the canonical message |
| `Window.AppendCapped` | backend/server.js:64-65 | the new message is last, the result is a suffix of old log plus message, and a log within the cap stays within it |
| `Window.AppendCappedEvictsOldest` | backend/server.js:64-65 | below the cap nothing is evicted; at the cap exactly the oldest entry goes and the order is kept |
| `Window.AppendCappedEntry` | backend/server.js:64-65 | each entry of the capped log is the appended message (the last one) or the old log's entry at the matching position |
| `Window.AppendAllKeepsNewest` | backend/server.js:64-65 | after any sequence of appends the log equals the newest 200 of everything appended, oldest first |
| `Rooms.Join` | backend/server.js:35-38 | the room is created only when absent; an existing log is untouched and a new one is empty; the user now maps to this socket, replacing an earlier one; other members keep their sockets |
| `Rooms.Leave` | backend/server.js:70-79 | the user name leaves the roster; the room survives exactly when members remain, and otherwise loses both its members and its log; remaining members keep their sockets and a surviving log is untouched |
| `Rooms.DropOnError` | backend/server.js:83-89 | the user name leaves the roster, the room stays even when emptied, logs untouched, remaining members keep their sockets |
| `Rooms.Record` | backend/server.js:64-65 | the log of the room becomes the capped append and members are unchanged; there is no result exactly when the room has no log |
| `Rooms.JoinLeavesOtherRooms` | backend/server.js:35-38 | a join leaves the members and the log of every other room as they were |
| `Rooms.LeaveLeavesOtherRooms` | backend/server.js:71-75 | a close leaves the members and the log of every other room as they were |
| `Rooms.DropOnErrorLeavesOtherRooms` | backend/server.js:85-86 | an error leaves the members and the log of every other room as they were |
| `Rooms.RecordLeavesOtherRooms` | backend/server.js:64-65 | appending a message leaves the members and the log of every other room as they were |
| `Rooms.JoinKeepsConsistent` | backend/server.js:35-38 | a join keeps the invariant: a room has an entry in `rooms`, possibly emptied by an error, exactly when it has a log; every log is within 200, every logged message belongs to its room and has content |
| `Rooms.LeaveKeepsConsistent` | backend/server.js:71-75 | a close keeps the invariant, since the room and its log are deleted together |
| `Rooms.DropOnErrorKeepsConsistent` | backend/server.js:85-86 | an error keeps the invariant, since the room's entry stays even when emptied |
| `Rooms.RecordKeepsConsistent` | backend/server.js:55-65 | appending a message of the room that has content keeps the invariant, including the 200 cap |
| `Rooms.RejoinAfterLastLeaveStartsFresh` | backend/server.js:73-75 | after the last member leaves, the next join finds an empty log and a roster of one |
| `Rooms.LobbyScenario` | backend/server.js:35-79 | alice and bob in "lobby" give roster {alice, bob}; a message is logged; bob leaves and the roster is {alice}; alice leaves and the room is gone from both tables |
| `Rooms.StaleCloseThenMessageCrashes` | backend/server.js:64-75 | a close from a connection evicted under the same name deletes the newer connection's entry and the room, so the newer connection's next message finds no log |
| `Rooms.LeaveOwned` | backend/server.js:70-79 | the owner-checked close: the owner's close is the plain close, a close from a connection that no longer owns the entry leaves the tables as they were, a room the error handler emptied is deleted with its log, and the roster never grows |
| `Rooms.LeaveOwnedKeepsConsistent` | backend/server.js:70-79 | the owner-checked close keeps the invariant |
| `Rooms.ErrorThenOwnedCloseDeletesRoom` | backend/server.js:70-89 | an error followed by the owner-checked close (the `ws` library emits `close` after `error`) deletes the emptied room and its log |
| `Rooms.OwnedCloseStrandsEvictedConnection` | backend/server.js:35-75 | the owner check does not prevent the crash: once the newer connection closes, the room is gone and the evicted, still-open connection's next message finds no log |
| `Rooms.OwnedLeaveKeepsNewerSession` | backend/server.js:70-75 | with the owner check, the evicted connection's close leaves the tables as they were and the newer connection's message is logged |
| `Server.FanOutReachesExactlyOpenMembers` | backend/server.js:11-26 | a fan-out sends only its payload, one frame per open member, and reaches exactly the open sockets of the room; a missing room sends nothing |
| `Server.Registry.constructor` | backend/server.js:5-6 | both tables start empty, nothing sent |
| `Server.Registry.SendToOpenClients` | backend/server.js:11-26 | the outbox grows by a fan-out of the payload over the room's current members; the tables are not modified |
| `Server.Registry.BroadcastActiveUsers` | backend/server.js:11-18 | the roster envelope carries exactly the room's user names and goes to each open member |
| `Server.Registry.BroadcastMessageToRoom` | backend/server.js:20-26 | the message envelope goes to each open member of the room |
| `Server.Registry.OnConnect` | backend/server.js:28-48 | the session is the resolved room and user; the tables become `Join`; the first frame sent is the history snapshot to the new socket only, followed by a roster fan-out |
| `Server.Registry.Register` | backend/server.js:35-48 | the join steps: the tables become `Join`, the history snapshot goes to the joining socket, the roster to every open member |
| `Server.Registry.JoinTables` | backend/server.js:35-38 | the table updates of a connect: the tables become `Join` and the invariant is kept |
| `Server.Registry.OnMessage` | backend/server.js:50-68 | a dropped frame changes nothing and sends nothing; an accepted one is the canonical message, the log becomes `Record` and it is fanned out; on a room deleted by a stale close it reports the crash and changes nothing |
| `Server.Registry.OnClose` | backend/server.js:70-81 | the tables become `Leave`; a deleted room gets no broadcast; a surviving room gets the roster fan-out |
| `Server.Registry.LeaveTables` | backend/server.js:71-75 | the table updates of a close: the tables become `Leave` and the invariant is kept |
| `Server.Registry.OnError` | backend/server.js:83-89 | the tables become `DropOnError`; the roster is rebroadcast to a room still present, even an emptied one |
| `Uri.Utf8` | frontend/src/App.js:71 | one to four bytes per code point, a single byte exactly for ASCII; the lead byte announces the length and the continuation bytes lie in [0x80, 0xC0) |
| `Uri.Utf8RoundTrip` | frontend/src/App.js:71 | the UTF-8 bytes of a character read back as its code point |
| `Uri.HexValueOfDigit` | frontend/src/App.js:71 | each hexadecimal digit written reads back as its value |
| `Uri.PercentEncode` | frontend/src/App.js:71 | byte i becomes '%' and the upper-case hex digits of its high and low four bits at positions 3i to 3i+2, and never a '/' |
| `Uri.PercentRoundTrip` | frontend/src/App.js:71 | decoding the `%XY` triples gives the bytes back |
| `Uri.EncodeChar` | frontend/src/App.js:71 | an unreserved character is kept as it is and only such a character; the encoding has no '/' and is never empty |
| `Uri.EncodeUriComponent` | frontend/src/App.js:71 | the encoded name never contains '/', is at least as long as the name, and is empty exactly when the name is |
| `Uri.DecodeEncodedChar` | frontend/src/App.js:71 | the decoder reads one encoded character back and carries on right after it |
| `Uri.DecodeEncode` | frontend/src/App.js:71 | decoding undoes `encodeURIComponent` for every string |
| `Uri.EncodeInjective` | frontend/src/App.js:71 | distinct names have distinct encodings, so distinct users land in distinct rooms |
| `Uri.UnreservedUnchanged` | frontend/src/App.js:71 | a name of unreserved characters only is left unchanged |
| `ColorHash.ToInt32` | frontend/src/App.js:40 | the bitwise-or with zero: a signed 32-bit value congruent to x modulo 2^32, identity on that range |
| `ColorHash.Imul` | frontend/src/App.js:40 | `Math.imul` stays in the signed 32-bit range |
| `ColorHash.Utf16` | frontend/src/App.js:39-40 | the code units `charCodeAt` walks: at least one per character, none for the empty string |
| `ColorHash.Utf16DecodeChar` | frontend/src/App.js:39-40 | the one or two code units of the first character read back as that character |
| `ColorHash.Utf16RoundTrip` | frontend/src/App.js:39-40 | the code units read back as the string, a surrogate pair as one supplementary character, so the hash runs over exactly the string's UTF-16 encoding |
| `ColorHash.Hash` | frontend/src/App.js:37-42 | the hash of no code units is 0 and every hash lies in the signed 32-bit range |
| `ColorHash.HashCode` | frontend/src/App.js:37-42 | the loop computes the left fold `Hash` of the string's code units, in the signed 32-bit range |
| `ColorHash.HashIsPolynomialModulo` | frontend/src/App.js:37-42 | the hash equals the polynomial sum of `unit * 31^k` wrapped to signed 32 bits |
| `ColorHash.Hue` | frontend/src/App.js:34-35 | the hue lies in [0, 360) for every 32-bit hash, including the most negative one |
| `ColorHash.ColorOf` | frontend/src/App.js:34-35 | a colour with hue in [0, 360), saturation 70 and lightness 85 |
| `ColorHash.GetRandomColor` | frontend/src/App.js:34-35 | the colour computed through the hash loop is `ColorOf(user)` |
| `ColorHash.ColorCache.constructor` | frontend/src/App.js:32 | the memo table starts empty |
| `ColorHash.ColorCache.GetUserColor` | frontend/src/App.js:44-47 | always returns `ColorOf(user)`, so repeated calls agree; the table only gains keys and is unchanged on a hit |
| `Feed.Normalize` | frontend/src/App.js:81-84 | fields are kept; a missing time becomes `now`, a present one is kept |
| `Feed.NormalizeAll` | frontend/src/App.js:81-84 | normalises entry by entry, keeping length and order |
| `Feed.Insert` | frontend/src/App.js:91 | inserting into a time-ordered list keeps it ordered, adds exactly that entry (as a multiset) and puts it first or keeps the old first entry |
| `Feed.SortByTime` | frontend/src/App.js:85 | the result is ordered by time and is a permutation of the input |
| `Feed.AddMessage` | frontend/src/App.js:87-92 | a message whose truthy id is already listed leaves the list unchanged; otherwise the list gains exactly that message and is ordered by time |
| `Feed.AddMessageIdempotent` | frontend/src/App.js:90 | delivering the same message with an id twice has the effect of delivering it once |
| `Feed.OnFrame` | frontend/src/App.js:76-96 | unparseable and unknown frames change nothing; history is applied only with `fetchHistory`, giving a time-ordered permutation of the normalised messages; a message frame goes through `AddMessage`; a roster frame sets the roster to `users`, or to empty when it is not an array |
| `Feed.HistoryWithoutArrayClears` | frontend/src/App.js:81 | a history frame whose `messages` is not an array empties the list |
| `Client.ConnectPath` | frontend/src/App.js:71 | the path is `/ws/` plus one '/'-free segment, non-empty exactly when the user name is |
| `UrlPath.Split` | frontend/src/App.js:72 | the '/'-separated pieces of a path: at least one, none containing '/' |
| `UrlPath.SplitAtSlash` | frontend/src/App.js:72 | a '/'-free piece followed by '/' is split off whole |
| `UrlPath.SplitJoin` | frontend/src/App.js:72 | splitting '/'-free pieces joined by '/' gives them back |
| `UrlPath.RemoveDots` | frontend/src/App.js:72 | the URL parser's path list is never empty once a segment has been read |
| `UrlPath.NoDotsKept` | frontend/src/App.js:72 | segments none of which is a dot segment are kept, in order |
| `UrlPath.PlainPathArrives` | frontend/src/App.js:72 | a path without dot segments reaches the server unchanged |
| `UrlPath.Sent` | frontend/src/App.js:72 | the path the server receives for a request path always starts with '/' |
| `UrlPath.SplitUnderPrefix` | frontend/src/App.js:71-72 | `/ws/<seg>` splits into "ws" and the segment |
| `UrlPath.RemoveTrailingDot` | frontend/src/App.js:71-72 | a final "." leaves an empty entry after "ws"; a final ".." removes "ws" and leaves one empty entry |
| `UrlPath.PlainNameArrives` | frontend/src/App.js:71-72 | `/ws/<name>` with a name that is no dot segment reaches the server unchanged |
| `UrlPath.PlainRoomAndNameArrive` | frontend/src/App.js:71-72 | `/ws/<room>/<user>` with neither a dot segment reaches the server unchanged |
| `UrlPath.TrailingDotSegment` | frontend/src/App.js:71-72 | `/ws/.` reaches the server as `/ws/` and `/ws/..` as `/` |
| `UrlPath.DecodeDotUnit` | frontend/src/App.js:71 | "." and `%2e` in either case decode to '.' |
| `UrlPath.DotUnitsDecode` | frontend/src/App.js:71 | two dot units in a row decode to ".." |
| `UrlPath.DotSegmentsDecode` | frontend/src/App.js:71 | every spelling of a single-dot segment decodes to "." and of a double-dot segment to ".." |
| `UrlPath.EncodedDotSegment` | frontend/src/App.js:71 | an encoded name is a single-dot segment exactly when the name is "." and a double-dot segment exactly when it is ".." |
| `Client.ClientLandsInOwnNameRoom` | frontend/src/App.js:71-72 | for every non-empty name other than "." and "..", the path arrives unchanged and the server resolves it to a room named after the encoded user name and an anonymous user, whatever room was chosen |
| `Client.DotNamesLandInGeneral` | frontend/src/App.js:71-72 | the names "." and ".." arrive as `/ws/` and `/` and land in room "general" under an anonymous user name |
| `Client.IntendedConnectPath` | frontend/src/App.js:71 | the `/ws/<room>/<user>` path starts with `/ws/` |
| `Client.IntendedPathResolves` | frontend/src/App.js:71-72 | with the room in the path, for a room and user other than "", "." and "..", the path arrives unchanged and the server registers the chosen room and user name |
| `Client.ToInbound` | frontend/src/App.js:115 | the frame sent carries username and content and no id |
| `Client.ClientSendIsRelayed` | frontend/src/App.js:115 | a non-empty input is accepted by the server with its content and claimed name, a fresh id and the server's time |
| `Client.ChatClient.constructor` | frontend/src/App.js:18-23 | the initial state: name from the query, room from the query or "general", not connected, empty lists, no socket |
| `Client.ChatClient.CloseSocket` | frontend/src/App.js:61-64 | a current socket is recorded as closed and `ws.current` becomes empty; without one nothing is closed |
| `Client.ChatClient.JoinRoom` | frontend/src/App.js:58-72 | an empty user name changes nothing; otherwise the old socket is closed, room set, list, roster and roster panel reset, and one socket opened on `ConnectPath(user)` |
| `Client.ChatClient.SendMessage` | frontend/src/App.js:110-118 | no socket, a socket not open, or an empty input changes nothing; otherwise exactly one frame with the input is sent and the input is cleared; only the sent frames and the input may change, so socket, flags and socket logs stay as they were |
| `Client.ChatClient.OnOpen` | frontend/src/App.js:74 | the client becomes connected |
| `Client.ChatClient.OnClose` | frontend/src/App.js:99 | the client becomes disconnected |
| `Client.ChatClient.OnMessage` | frontend/src/App.js:76-97 | the list and roster become the reducer `OnFrame` applied to them |

## Left out

- Server.Registry.OnMessage: on a room deleted by a stale close, the source's `push` on `undefined` throws a TypeError from an event listener, which would take down the process. The model reports `Crashed` and leaves the tables as they were; it does not model the loss of all state.
- Server.Registry.SendToOpenClients: the order of the sends within one fan-out is left open. `Map.forEach` visits members in insertion order.
- Server.Registry.BroadcastActiveUsers: the roster is a set of names. The source sends an array in `Map` insertion order.
- Server.Registry.Register: the history snapshot is recorded as sent unconditionally. An exception from `ws.send` is caught and logged in the source.
- The WebSocket transport and the `ws` library: sends are appends to a ghost outbox, and socket readiness is a parameter.
- `makeId` (`Date.now`, `Math.random`) and `new Date().toISOString()`: fresh ids and integer times are parameters.
- `JSON.parse`: payload fields are modelled as strings only. A non-string truthy `content`, such as a number, is relayed by the source but not representable here. A payload that parses to `null` makes `data.content` throw; that is not modelled.
- The plain-object tables: for a room named after any member of `Object.prototype`, such as `constructor`, `toString`, `__proto__`, `hasOwnProperty` or `valueOf`, `rooms[room]` is an inherited truthy value of `{}`, so `rooms[room].set` (backend/server.js:38) throws a TypeError in the connection listener and stops the process. With the shipped client a user of that name is enough. The model's `Rooms.Join` registers such a room normally, because it uses maps without inherited keys. User names in the colour memo table hit inherited properties in the same way.
- Logging (`console.log`, `console.error`) is not modelled.
- Concurrency: each handler runs atomically on the event loop, so the handlers are sequential methods.
- Client.ChatClient.OnOpen: callbacks of a socket that `joinRoom` replaced are not told apart from those of the current one.
- Client.ChatClient.JoinRoom: the `alert` shown for an empty name is not modelled. The initial `useEffect` join at frontend/src/App.js:120-123 is a caller and is not modelled.
- Feed.NormalizeAll: one `now` stands for every entry without a time. The source calls `new Date().toISOString()` again for each such entry inside the `map` callback (frontend/src/App.js:83), so their times may differ by the time the loop takes.
- Feed.SortByTime: stability is not stated as a property, although the insertion order used is stable. Times that fail to parse as dates are not representable.
- Uri.EncodeUriComponent: a lone surrogate, which throws `URIError` in JavaScript, cannot occur in Dafny strings.
- Uri.DecodeUriComponent: on malformed input, where JavaScript throws `URIError`, the reference decoder keeps the characters; it is only used on encoder output.
- UrlPath.Sent: only dot-segment removal is modelled. The other path rewrites of the URL parser (a `\` read as '/', percent-encoding of spaces, quotes and brackets) never apply to `encodeURIComponent` output, which escapes those characters.
- Client.ClientLandsInOwnNameRoom: the names "." and ".." are excluded here and covered by Client.DotNamesLandInGeneral instead.
- Client.IntendedPathResolves: a room or user named "." or ".." changes the path on the way (for example `/ws/./alice` arrives as `/ws/alice`); the property is stated for the other names only.
- Rendering: JSX, wallpapers, `formatTime`, `createNewRoom`, the scroll effect and the in-place sort during rendering.
- backend/routes/message_routes.py, backend/controllers/messagecontroller.py, backend/models/message.py and backend/index.js form a separate FastAPI/MongoDB backend and database setup. They are not part of this model.
- frontend/src/Bubbles.js (random decoration) is not part of this model.

## Findings

| source | as written | input that shows it | evidently intended | confidence | as-written member | corrected member |
|---|---|---|---|---|---|---|
| backend/server.js:70-75 | close deletes `rooms[room][username]` whoever owns it; an emptied room loses its log; a later message then runs `roomsHistory[room].push` on `undefined` | socket 1 and socket 2 both connect to `/ws/r/u`; socket 1 closes; socket 2 sends `{"content":"hi"}` | remove the entry only while it still maps to the closing socket, so socket 2 stays registered and its message is logged | high, not executed | `Rooms.StaleCloseThenMessageCrashes` | `Rooms.OwnedLeaveKeepsNewerSession` |
| frontend/src/App.js:71 | the client connects to `/ws/<user>`, which the server's regex reads as room `<user>` with an anonymous user name (the names "." and ".." instead land in "general", see `Client.DotNamesLandInGeneral`) | `joinRoom("general", "alice")` opens `/ws/alice`; the server registers room "alice" and user `anon_xxxx` | connect to `/ws/<room>/<user>` so that the chosen room and name are registered | high, not executed | `Client.ClientLandsInOwnNameRoom` | `Client.IntendedPathResolves` |

The owner check of row 1 does not remove every way to reach the crash. Two connections c1 and c2 join under one name, so c2 evicts c1. When c2 closes, the owner-checked close deletes the room and its log, and the still-open c1's next message finds no log (`Rooms.OwnedCloseStrandsEvictedConnection`). With the shipped client this collision is common rather than rare. Every client connects without a user segment, so every user is named `anon_` plus `makeId().slice(0,4)` (backend/server.js:7-8, 33), and ids that share those four characters give the same name (`Identity.SharedIdPrefixSameAnonName`). Those four characters are the leading base-36 digits of `Date.now()`, which stay the same for 36^4 ms, about 28 minutes. Full protection would also need the close to keep a room that another connection still uses, or the message handler to check for a missing log.

The server handlers (`Server.Registry.OnClose`) and the client (`Client.ChatClient.JoinRoom`) keep the code as written. The corrected definitions `Rooms.LeaveOwned` and `Client.IntendedConnectPath` are given beside them with their properties proved.
