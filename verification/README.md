# Chat relay router — a Dafny model

This project models the part of the chat application that routes socket
events in `server.js`:

- the fixed room list `ROOMS`;
- the presence map `onlineUsers`, which maps a username to a socket id;
- each connection's session fields, `socket.data.username` and `socket.data.room`;
- the helpers `getUsernameFromPayload` and `ensureRegistered`;
- the eleven connection handlers: `registerUser`, `joinRoom`, `leaveRoom`,
  `roomMessage`, `privateMessage`, `roomTyping`, `roomTypingStop`,
  `privateTyping`, `privateTypingStop`, `disconnect`, and the connection
  itself.

It also models two parts of the page script `public/app.js`:

- `escapeHtml`, the HTML encoder applied to every message before display;
- the send guards `sendRoomMessage` and `sendPrivateMessage`.

The server is a sequential state machine. A `Router.State` holds:

- the live sessions, keyed by socket id;
- the presence map;
- every socket id handed out so far. socket.io never issues an id twice, so
  `connection` is enabled only for an id that was never used
  (`Router.Enabled`).

socket.io room membership is not stored. It is derived: the members of a
room are the live sockets whose session names that room (`Router.Members`).
This matches `join` and `leave` in the source, which always move together
with `socket.data.room`.

Each handler is a pure function. It returns a `Router.Transition`: the new
state, the emits in the order the source makes them, and the records it
stores. An emit is a target set plus an outbound event. `Outbound.Received`
gives what one socket receives, in order, and the contracts are stated in
those terms. Four emit forms are modelled:

- `socket.emit` reaches the sender;
- `io.to(room)` reaches the room's members, and `socket.to(room)` reaches
  them without the sender;
- `io.to(id)` reaches that socket only while it is connected.

The handlers' collaborators are passed in as parameters (`Router.Env`):

- the account lookup `User.findOne`, as a predicate on usernames;
- the timestamp the store gives a new record;
- the room history the store returns for `joinRoom`, newest first.

A store call is recorded in `Transition.saved`. `Router.Step` dispatches one
inbound event to its handler.

`String(x || "").trim()` is `Protocol.Text`, built on `JsString.Trim`.
`JsString.Trim` follows ECMAScript `String.prototype.trim`, using the
WhiteSpace and LineTerminator code points of ECMA-262.

Quirks of the code that the model keeps:

- `disconnect` deletes the presence entry for its username, even when that
  entry now points at a newer socket (`RouterFacts.StaleDisconnectHidesLiveUser`).
- `disconnect` emits nothing.
- There is no server-side typing debouncer. Every typing signal is relayed.
- `registerUser` always overwrites the session name and the presence entry,
  and sends the room list again (`RouterFacts.RegisterTwice`). Registering
  under a new name leaves the old name's entry pointing at the socket
  (`RouterFacts.ReRegisterKeepsOldName`, `RouterFacts.MessageToOwnOldName`).
- `joinRoom` reports an empty room name with its own error, before the
  unknown-room check.
- Switching rooms sends no notice to the old room
  (`RouterFacts.JoinSwitchIsSilent`).

## Model

| member | source | states |
|---|---|---|
| JsString.Trim | server.js:38 | The result is a slice of the input with only white space cut from either end and none left at either end. It is empty exactly when the input is all white space. |
| JsString.TrimNotBlank | public/app.js:110-112 | A message that is not all white space is still non-empty, and still not all white space, after trimming. So whatever the page sends, the server does not drop as empty. |
| JsString.TrimIdempotent | public/app.js:110 | Trimming an already-trimmed message changes nothing, so the page and the server read the same text. |
| Protocol.Text | server.js:70 | A field read with `String(x \|\| "").trim()` is the field's content with the white space at both ends cut off, and none left there. It is "" exactly when the field is missing or all white space. |
| Protocol.RoomNameReadsBack | server.js:70-72 | Every name in `ROOMS` survives the server's trimmed reading unchanged, so a client that sends back a name from `roomsList` joins that room. |
| Protocol.GetUsernameFromPayload | server.js:37-40 | The name is the `username` field's content with the white space at both ends cut off, and none left there. It is "" exactly when the field is missing, empty or all white space. |
| Router.EnsureRegistered | server.js:42-51 | A named socket is accepted with no change. Otherwise the payload's trimmed name is attached to the session and `onlineUsers[name]` points at the socket, or the call fails with no change when that name is empty. No other session and no room changes. |
| Router.Members | server.js:74-80 | A room's members are live sockets. |
| Router.OneRoomAtATime | server.js:74-80 | A socket is a member of at most one room. This holds by construction, because membership is derived from the session's single `room` field. That `joinRoom` moves the socket out of its old room is stated by `Router.JoinRoom`. |
| Router.Connect | server.js:53 | A new socket gets an empty session, and its id joins the ids issued so far. Every other session and the presence map are unchanged, and nothing is emitted or stored. |
| Router.RegisterUser | server.js:55-63 | An empty name changes nothing and emits nothing. Otherwise the session name is set and `onlineUsers[name]` points at this socket. Every other entry is unchanged. The sender alone receives `roomsList` carrying exactly `ROOMS`. |
| Router.JoinAs | server.js:70-90 | After registration, an empty room and then an unknown room are each reported to the sender alone, with no change. Otherwise the socket is in the requested room and in no other, and the sender alone receives `joinedRoom` and then the history oldest first. |
| Router.JoinRoom | server.js:65-91 | Errors come in the source's order, each to the sender alone: not registered, then room required, then invalid room. Only registration changes state on those paths. On success the session is (name, room), the socket is a member of that room only, and nothing goes to any other socket. |
| Router.Reverse | server.js:90 | `history.reverse()`: same length, and element i is element n-1-i of the input. |
| Router.MembersAfterUpdate | server.js:75-80 | Replacing one session moves that socket out of every room except the one its new session names. All other memberships are unchanged. |
| Router.LeaveRoom | server.js:93-102 | With no room it is a silent no-op. Otherwise the room is cleared and the socket is in no room. The sender receives `leftRoom`, each remaining member receives `roomTypingStop` with the sender's name, and nobody else receives anything. Presence is unchanged. |
| Router.RoomMessage | server.js:104-132 | Failures come in order: not registered, then no room (each an error to the sender alone). An empty message is dropped silently. An unknown account gets an error. Nothing is stored on any of these paths. On success exactly one record is stored, and every member of the room, the sender included, receives that identical record and nothing else. |
| Router.RoomSend | server.js:109-131 | For a named socket: no room is an error to the sender alone, an empty message is dropped, and an unknown account is an error. Nothing is stored on any of these paths, and the state never changes. Otherwise the record holding the sender's name, room and message is stored once. The sender is a member of that room, and exactly the room's members receive the record. |
| Router.RelayTo | server.js:168-169 | An emit to `onlineUsers[to]` reaches exactly the live socket that name points at, and nobody when the name has no entry. |
| Router.PrivateDelivery | server.js:164-169 | The sender receives the record. The recipient's socket receives a copy only if the recipient has a presence entry that points at a live socket. |
| Router.PrivateMessage | server.js:134-170 | Failures come in order: not registered, empty recipient, empty message (dropped silently), message to self, unknown recipient. Nothing is stored on any failure path. On success one record is stored, the sender always receives it, the recipient's socket receives it only when `onlineUsers` holds the recipient, and no other socket receives anything. |
| Router.PrivateSend | server.js:139-169 | For a named socket, the failures come in order: empty recipient, empty message (dropped silently), message to self, unknown recipient. Nothing is stored on any of them, and the state never changes. Otherwise one record is stored. The sender receives it, and so does the socket `onlineUsers` holds for the recipient, when that socket is live. |
| Router.RoomRelay | server.js:173-185 | Room typing signals never store anything and change state only through registration. They reach the other members of the sender's room and never the sender. Nothing is relayed when the sender has no name or no room. |
| Router.PrivateRelay | server.js:188-202 | Private typing signals never store anything and change state only through registration. They reach only the recipient's live socket, and only when the recipient has a presence entry. Nothing is relayed for an empty recipient. |
| Router.Disconnect | server.js:204-207 | The socket's session is gone, so it is a member of no room. The presence entry for its name is deleted whichever socket it points at. Every other session is unchanged, and nothing is emitted or stored. |
| Router.SessionStep | server.js:53-102 | Connecting, naming, joining, leaving and disconnecting never store anything. They change no other socket's session, and they reach only live sockets. |
| Router.MessageStep | server.js:104-170 | The two message events keep the set of live sockets, every other socket's session and the issued ids. They reach only live sockets and store at most one record. |
| Router.TypingStep | server.js:173-202 | The four typing events keep the set of live sockets, every other socket's session and the issued ids. They reach only live sockets and store nothing. |
| Router.Step | server.js:53-208 | No event changes or removes another socket's session. Only live sockets receive anything. Only `connection` adds an issued id. At most one record is stored, and only by the two message events. |
| RouterFacts.EnsureRegisteredValid | server.js:42-51 | Registration keeps the session invariant. |
| RouterFacts.StepPreservesValid | server.js:42-207 | Every event keeps the session invariant: every name is non-empty and trimmed, a socket in a room has a name and a room from `ROOMS`, and every live socket's id is an issued id. |
| RouterFacts.GoneIdNeverReturns | server.js:204-207 | Once a socket has disconnected, no later event makes its id live again or lets it connect again. So a presence entry left pointing at it never reaches a later connection. |
| RouterFacts.LeaveNoticeNamesUser | server.js:101 | In a valid state, the `roomTypingStop` notice that `leaveRoom` sends always carries a username. |
| RouterFacts.RegisterTwice | server.js:55-63 | Registering the same name twice leaves the state as after the first time, but sends the room list again. |
| RouterFacts.ReRegisterKeepsOldName | server.js:59-60 | Registering under a new name leaves the former name's presence entry pointing at the same socket. |
| RouterFacts.MessageToOwnOldName | server.js:164-169 | Because of that stale entry, a private message to one's former name reaches the sender twice: once as the receipt and once as the recipient's copy. |
| RouterFacts.StaleDisconnectHidesLiveUser | server.js:204-207 | When an older socket with the same name disconnects, the newer socket stays connected and named. Its name loses its presence entry, so a private message to it is stored but never reaches it. |
| RouterFacts.JoinSwitchIsSilent | server.js:74-82 | A switch of rooms takes the socket out of the old room, and the members left behind receive nothing. |
| RouterFacts.RoomSendDelivered | server.js:104-131 | A named socket in a room, whose account exists, that sends a non-empty message stores it once and delivers it to the whole room. |
| RouterFacts.ClientRoomSendIsStored | public/app.js:109-117 | For a named socket in a room whose account exists, a room message sent from the page reaches the server as the trimmed text. That text is stored once and delivered to every member of the room. |
| RouterFacts.ClientPrivateSendIsStored | public/app.js:148-157 | A private message sent from the page by a named socket reaches the server as the trimmed recipient and text. A message to oneself and one to a recipient without an account are refused with their errors. Otherwise the message is stored once, the sender receives it, and the recipient's live socket receives a copy. |
| Scenario.ScenarioConnect | server.js:53 | Two sockets connecting to an idle server give two empty sessions. |
| Scenario.ScenarioRegister | server.js:55-63 | Two users register on two sockets, which gives two named sessions and two presence entries. |
| Scenario.ScenarioJoinFirst | server.js:65-91 | The first user joins a room. Only that session changes. |
| Scenario.ScenarioJoinSecond | server.js:65-91 | The second user joins the same room. |
| Scenario.ScenarioRoomBroadcast | server.js:104-131 | A message in that room is stored once, and both users receive the identical stored record. |
| Escape.ReplaceAll | public/app.js:38-42 | For a replacement with no `$` pattern, as in all five passes: `replaceAll` leaves a string without the pattern unchanged. It removes every occurrence of a pattern that the replacement does not contain. |
| Escape.ReplaceAllProvenance | public/app.js:38-42 | Every character of a pass's output comes from the replacement or is a character of the input other than the pattern. |
| Escape.EscapeHtml | public/app.js:36-43 | The five `replaceAll` passes, in source order with the ampersand first. The output contains none of `<`, `>`, `"` or `'`. |
| Escape.EscapeSpec | public/app.js:36-43 | Reference per-character entity map. Its output contains none of `<`, `>`, `"` or `'`. |
| Escape.EscapeHtmlChar | public/app.js:38-42 | On one character the five passes produce exactly that character's entity, because no entity holds a character that a later pass rewrites. |
| Escape.EscapeHtmlIsEntityMap | public/app.js:36-43 | The five sequential `replaceAll` passes equal the per-character entity map. |
| Escape.EscapeHtmlPlain | public/app.js:36-43 | A string with none of the five special characters is returned unchanged. |
| Escape.EscapeHtmlLength | public/app.js:38-42 | Output length is input length plus 4 per `&`, 3 per `<` or `>`, and 5 per `"` or `'`. The output is never shorter than the input. |
| Escape.EscapeHtmlNoBareAmpersand | public/app.js:38-42 | Every `&` in the output begins one of the five entity strings. |
| Client.SendRoomMessage | public/app.js:109-117 | With no current room the user sees "Join a room first." and nothing is sent. A blank message sends nothing. Otherwise the page sends `roomMessage` whose payload holds only the trimmed text, and then `roomTypingStop` with an empty payload. |
| Client.SendPrivateMessage | public/app.js:148-157 | A blank recipient shows "Enter recipient username." and sends nothing. A blank message sends nothing. Otherwise the page sends `privateMessage` whose payload holds only the trimmed recipient and text, and then `privateTypingStop` whose payload holds only that recipient. |

## Left out

- Express setup, static and page routes, `mongoose.connect` and `listen` (server.js:1-29, 210-230). These are I/O plumbing.
- The room-history query of `joinRoom` (server.js:85-88). The history is an input, newest first as the query returns it; only its reversal is modelled.
- Real timestamps. `date_sent` is an abstract value supplied by the store.
- Failures of the store or the account lookup (rejected promises). Handlers are modelled on the path where the awaited calls answer.
- Payload values that are not strings or absent, which JavaScript coerces with `String(...)`.
- A `null` payload. The model has no null payload. In the source, `registerUser` handles one through the `payload &&` guard (server.js:38), `roomTyping` and `roomTypingStop` read no field after `ensureRegistered` (server.js:173-185), and on a socket without a name `ensureRegistered` fails first. On a named socket the field reads at server.js:70, 111, 140, 190 and 198 throw.
- Interleaving of the async handlers at their `await` points. Each handler is atomic. `roomMessage` still reads the sender's room before its awaits, as the source does.
- socket.io's own room bookkeeping, which is replaced by membership derived from `socket.data.room`.
- routes/auth.js, routes/messages.js and models/User.js. These are password hashing and database queries behind HTTP, with no routing logic.
- Everything DOM, jQuery and `localStorage` in public/app.js, how `showTopMsg` renders a notice (only its text is modelled), and the 800 ms typing timers (public/app.js:126-131, 167-174). These are UI and wall-clock timers.
- `escapeHtml` applies `String(str)` to its argument first. The model takes a string.
- Escape.ReplaceAll: models a replacement string with no `$` pattern only. JavaScript would expand `$&` and similar patterns, but none of the five passes uses one.
- Strings are sequences of Unicode scalar values, not UTF-16 code units, so a lone surrogate cannot be represented. No modelled behaviour depends on this: every white-space character that `trim` removes and all five characters `escapeHtml` rewrites are single code units of the Basic Multilingual Plane.
- RouterFacts.ReRegisterKeepsOldName: stated for a `username` field that is already trimmed, not for every payload that trims to the name. `Router.RegisterUser` covers the general payload.
- RouterFacts.MessageToOwnOldName: stated for a `to_user` field that is already trimmed, not for every payload that trims to the former name. `Router.PrivateMessage` covers the general payload.
- RouterFacts.StaleDisconnectHidesLiveUser: stated for a `to_user` field that is already trimmed, not for every payload that trims to the name. `Router.PrivateMessage` and `Router.Disconnect` cover the general payload.
- RouterFacts.JoinSwitchIsSilent: stated for a `room` field that is exactly a listed name, not one padded with white space. `Router.JoinRoom` covers the general payload.
