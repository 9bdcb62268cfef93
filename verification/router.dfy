/**
 * The socket event router of server.js: the presence map (`onlineUsers`),
 * the per-socket session fields (`socket.data.username`, `socket.data.room`)
 * and the eleven event handlers, each modelled as one atomic transition from
 * a state to a new state plus the emits it makes and the records it stores.
 */
module Router {
  import opened Wrappers
  import opened Protocol
  import Inbound
  import Outbound

  /** `socket.data` of one connection. */
  datatype Session = Session(username: Option<string>, room: Option<string>)

  /** A connection's session when socket.io first hands it to the server. */
  const FRESH: Session := Session(None, None)

  /** Live sessions by socket, `onlineUsers` (username to socket), and every
      socket id socket.io has handed out so far, live or gone. */
  datatype State = State(sessions: map<SocketId, Session>, online: map<string, SocketId>, used: set<SocketId>)

  const INIT: State := State(map[], map[], {})

  /** A call of `GroupMessage.create` or `PrivateMessage.create`. */
  datatype Saved = SavedRoom(roomRecord: RoomRecord) | SavedPrivate(privateRecord: PrivateRecord)

  /** What one handler does: the state after it, its emits in order, its stores in order. */
  datatype Transition = Transition(st: State, out: seq<Outbound.Emit>, saved: seq<Saved>)

  /** Answers of the collaborators the handlers await: the account lookup
      (`User.findOne`), the timestamp the store assigns, and the recent history
      of the room being joined, newest first, as the store's query returns it. */
  datatype Env = Env(accountExists: string -> bool, stamp: Timestamp, history: seq<RoomRecord>)

  predicate Registered(st: State, sid: SocketId)
    requires sid in st.sessions
  {
    Truthy(st.sessions[sid].username)
  }

  /** The socket.io room `room`: the live sockets whose session names it. */
  function Members(st: State, room: string): (m: set<SocketId>)
    ensures m <= st.sessions.Keys
  {
    set x | x in st.sessions && st.sessions[x].room == Some(room)
  }

  /** The name a handler acts under once `ensureRegistered` has run: the
      session's name, else the payload's; "" when there is neither. */
  function SenderName(st: State, sid: SocketId, p: Payload): string
    requires sid in st.sessions
  {
    if Registered(st, sid) then st.sessions[sid].username.value else GetUsernameFromPayload(p)
  }

  /** `socket.emit`: to the sender only. */
  function ToSelf(sid: SocketId, ev: Outbound.Event): Outbound.Emit {
    Outbound.Emit({sid}, ev)
  }

  /** `io.to(room).emit`: to every member of the room. */
  function ToRoom(st: State, room: string, ev: Outbound.Event): Outbound.Emit {
    Outbound.Emit(Members(st, room), ev)
  }

  /** `socket.to(room).emit`: to the members of the room except the sender. */
  function ToOthers(st: State, sid: SocketId, room: string, ev: Outbound.Event): Outbound.Emit {
    Outbound.Emit(Members(st, room) - {sid}, ev)
  }

  /** `io.to(id).emit`: to the socket `id`, which reaches nobody once that socket is gone. */
  function ToSocket(st: State, id: SocketId, ev: Outbound.Event): Outbound.Emit {
    Outbound.Emit(if id in st.sessions then {id} else {}, ev)
  }

  function Quiet(st: State): Transition {
    Transition(st, [], [])
  }

  function Reply(st: State, sid: SocketId, ev: Outbound.Event): Transition {
    Transition(st, [ToSelf(sid, ev)], [])
  }

  /** The sender, and nobody else, receives exactly `evs`. */
  ghost predicate OnlyTo(out: seq<Outbound.Emit>, sid: SocketId, evs: seq<Outbound.Event>) {
    forall x :: Outbound.Received(out, x) == (if x == sid then evs else [])
  }

  /** No session but the sender's changes, and no socket appears or vanishes. */
  ghost predicate OthersUnchanged(st: State, st': State, sid: SocketId) {
    && st'.sessions.Keys == st.sessions.Keys
    && st'.used == st.used
    && forall x :: x in st.sessions && x != sid ==> st'.sessions[x] == st.sessions[x]
  }

  lemma ReplyOnlyTo(sid: SocketId, ev: Outbound.Event)
    ensures OnlyTo([ToSelf(sid, ev)], sid, [ev])
  {
    forall x ensures Outbound.Received([ToSelf(sid, ev)], x) == (if x == sid then [ev] else []) {
      Outbound.ReceivedOne(ToSelf(sid, ev), x);
    }
  }

  lemma ReplyTwiceOnlyTo(sid: SocketId, ev: Outbound.Event, ev': Outbound.Event)
    ensures OnlyTo([ToSelf(sid, ev), ToSelf(sid, ev')], sid, [ev, ev'])
  {
    forall x ensures Outbound.Received([ToSelf(sid, ev), ToSelf(sid, ev')], x) == (if x == sid then [ev, ev'] else []) {
      Outbound.ReceivedTwo(ToSelf(sid, ev), ToSelf(sid, ev'), x);
      Outbound.ReceivedOne(ToSelf(sid, ev), x);
      Outbound.ReceivedOne(ToSelf(sid, ev'), x);
    }
  }

  /** `history.reverse()`. */
  function Reverse<T>(s: seq<T>): (r: seq<T>)
    ensures |r| == |s|
    ensures forall i :: 0 <= i < |s| ==> r[i] == s[|s| - 1 - i]
  {
    if s == [] then [] else Reverse(s[1..]) + [s[0]]
  }

  /** `ensureRegistered`: true at once when the socket already has a name;
      otherwise registers the payload's trimmed name, or fails without any
      change when that name is empty. */
  function EnsureRegistered(st: State, sid: SocketId, p: Payload): (r: (bool, State))
    requires sid in st.sessions
    ensures OthersUnchanged(st, r.1, sid)
    ensures r.1.sessions[sid].room == st.sessions[sid].room
    ensures r.0 <==> SenderName(st, sid, p) != ""
    ensures r.0 <==> Registered(r.1, sid)
    ensures r.0 ==> r.1.sessions[sid].username == Some(SenderName(st, sid, p))
    ensures Registered(st, sid) || !r.0 ==> r.1 == st
    ensures !Registered(st, sid) && r.0 ==> r.1.online == st.online[SenderName(st, sid, p) := sid]
  {
    if Registered(st, sid) then (true, st)
    else
      var u := GetUsernameFromPayload(p);
      if u == "" then (false, st)
      else
        var s := st.sessions[sid];
        (true, st.(sessions := st.sessions[sid := s.(username := Some(u))], online := st.online[u := sid]))
  }

  /** `connection`: a new socket with an empty session. */
  function Connect(st: State, sid: SocketId): (t: Transition)
    requires sid !in st.sessions
    ensures t.st.sessions.Keys == st.sessions.Keys + {sid}
    ensures t.st.sessions[sid] == FRESH
    ensures forall x :: x in st.sessions ==> t.st.sessions[x] == st.sessions[x]
    ensures t.st.online == st.online && t.out == [] && t.saved == []
    ensures t.st.used == st.used + {sid}
  {
    Quiet(State(st.sessions[sid := FRESH], st.online, st.used + {sid}))
  }

  /** `registerUser`: ignores an empty name; otherwise (re)names the session,
      points the name at this socket and sends the room list to the sender. */
  function RegisterUser(st: State, sid: SocketId, p: Payload): (t: Transition)
    requires sid in st.sessions
    ensures t.saved == []
    ensures OthersUnchanged(st, t.st, sid)
    ensures GetUsernameFromPayload(p) == "" ==> t == Quiet(st)
    ensures var u := GetUsernameFromPayload(p);
            u != "" ==>
              && t.st.sessions[sid] == st.sessions[sid].(username := Some(u))
              && t.st.online == st.online[u := sid]
              && OnlyTo(t.out, sid, [Outbound.RoomsList(ROOMS)])
  {
    var u := GetUsernameFromPayload(p);
    if u == "" then Quiet(st)
    else
      var s := st.sessions[sid];
      ReplyOnlyTo(sid, Outbound.RoomsList(ROOMS));
      Reply(st.(sessions := st.sessions[sid := s.(username := Some(u))], online := st.online[u := sid]),
            sid, Outbound.RoomsList(ROOMS))
  }

  /** The part of `joinRoom` after `ensureRegistered` succeeded: errors, in
      order, for an empty room and an unknown room; otherwise moves the socket
      to the room and sends the sender the confirmation and the room's
      history, oldest first. */
  function JoinAs(reg: State, sid: SocketId, room: string, history: seq<RoomRecord>): (t: Transition)
    requires sid in reg.sessions
    ensures t.saved == []
    ensures OthersUnchanged(reg, t.st, sid)
    ensures t.st.online == reg.online
    ensures room == "" ==> t.st == reg && OnlyTo(t.out, sid, [Outbound.ErrorMsg(ROOM_REQUIRED)])
    ensures room != "" && room !in ROOMS ==> t.st == reg && OnlyTo(t.out, sid, [Outbound.ErrorMsg(INVALID_ROOM)])
    ensures room in ROOMS ==>
              && t.st.sessions[sid] == reg.sessions[sid].(room := Some(room))
              && (forall r :: sid in Members(t.st, r) <==> r == room)
              && OnlyTo(t.out, sid, [Outbound.JoinedRoom(room), Outbound.RoomHistory(Reverse(history))])
  {
    if room == "" then ReplyOnlyTo(sid, Outbound.ErrorMsg(ROOM_REQUIRED)); Reply(reg, sid, Outbound.ErrorMsg(ROOM_REQUIRED))
    else if room !in ROOMS then ReplyOnlyTo(sid, Outbound.ErrorMsg(INVALID_ROOM)); Reply(reg, sid, Outbound.ErrorMsg(INVALID_ROOM))
    else
      var s := reg.sessions[sid];
      var joined := reg.(sessions := reg.sessions[sid := s.(room := Some(room))]);
      ReplyTwiceOnlyTo(sid, Outbound.JoinedRoom(room), Outbound.RoomHistory(Reverse(history)));
      Transition(joined,
                 [ToSelf(sid, Outbound.JoinedRoom(room)),
                  ToSelf(sid, Outbound.RoomHistory(Reverse(history)))], [])
  }

  /** `joinRoom`: an error for a missing name, then the checks of `JoinAs`
      under the registered state. */
  function JoinRoom(st: State, sid: SocketId, p: Payload, history: seq<RoomRecord>): (t: Transition)
    requires sid in st.sessions
    ensures t.saved == []
    ensures OthersUnchanged(st, t.st, sid)
    ensures SenderName(st, sid, p) == "" ==>
              t.st == st && OnlyTo(t.out, sid, [Outbound.ErrorMsg(NOT_REGISTERED)])
    ensures SenderName(st, sid, p) != "" && Text(p.room) == "" ==>
              t.st == EnsureRegistered(st, sid, p).1 && OnlyTo(t.out, sid, [Outbound.ErrorMsg(ROOM_REQUIRED)])
    ensures SenderName(st, sid, p) != "" && Text(p.room) != "" && Text(p.room) !in ROOMS ==>
              t.st == EnsureRegistered(st, sid, p).1 && OnlyTo(t.out, sid, [Outbound.ErrorMsg(INVALID_ROOM)])
    ensures var u, room := SenderName(st, sid, p), Text(p.room);
            u != "" && room in ROOMS ==>
              && t.st.sessions[sid] == Session(Some(u), Some(room))
              && (forall r :: sid in Members(t.st, r) <==> r == room)
              && t.st.online == EnsureRegistered(st, sid, p).1.online
              && OnlyTo(t.out, sid, [Outbound.JoinedRoom(room), Outbound.RoomHistory(Reverse(history))])
  {
    var (ok, reg) := EnsureRegistered(st, sid, p);
    if !ok then ReplyOnlyTo(sid, Outbound.ErrorMsg(NOT_REGISTERED)); Reply(reg, sid, Outbound.ErrorMsg(NOT_REGISTERED))
    else JoinAs(reg, sid, Text(p.room), history)
  }

  /** Membership after one session is replaced: the socket leaves every room
      but the one its new session names. */
  lemma MembersAfterUpdate(st: State, sid: SocketId, s: Session, o: map<string, SocketId>, r: string)
    ensures Members(st.(sessions := st.sessions[sid := s], online := o), r)
            == (Members(st, r) - {sid}) + (if s.room == Some(r) then {sid} else {})
  {
  }

  /** A socket is in at most one room. This holds in every state, because
      membership is derived from the session's single `room` field. */
  lemma OneRoomAtATime(st: State, x: SocketId, r1: string, r2: string)
    requires x in Members(st, r1) && x in Members(st, r2)
    ensures r1 == r2
  {
  }

  /** Membership depends only on which sockets are live and which room each names. */
  lemma MembersSameRooms(st: State, st': State)
    requires st'.sessions.Keys == st.sessions.Keys
    requires forall x :: x in st.sessions ==> st'.sessions[x].room == st.sessions[x].room
    ensures forall r :: Members(st', r) == Members(st, r)
  {
  }

  /** `leaveRoom`: nothing when the socket is in no room; otherwise clears
      the room, confirms to the sender and clears the sender's typing
      indicator for the members who remain. */
  function LeaveRoom(st: State, sid: SocketId): (t: Transition)
    requires sid in st.sessions
    ensures t.saved == []
    ensures OthersUnchanged(st, t.st, sid)
    ensures t.st.online == st.online
    ensures !Truthy(st.sessions[sid].room) ==> t == Quiet(st)
    ensures var s := st.sessions[sid];
            Truthy(s.room) ==>
              && t.st.sessions[sid] == s.(room := None)
              && (forall r :: sid !in Members(t.st, r))
              && Members(t.st, s.room.value) == Members(st, s.room.value) - {sid}
              && (forall x :: Outbound.Received(t.out, x) ==
                    if x == sid then [Outbound.LeftRoom(s.room.value)]
                    else if x in Members(st, s.room.value) then [Outbound.RoomTypingStop(s.username)]
                    else [])
  {
    var s := st.sessions[sid];
    if !Truthy(s.room) then Quiet(st)
    else
      var room := s.room.value;
      var left := st.(sessions := st.sessions[sid := s.(room := None)]);
      MembersAfterUpdate(st, sid, s.(room := None), st.online, room);
      var out := [ToSelf(sid, Outbound.LeftRoom(room)),
                  ToOthers(left, sid, room, Outbound.RoomTypingStop(s.username))];
      Outbound.ReceivedTwoAll(out[0], out[1]);
      Transition(left, out, [])
  }

  /** `roomMessage`: errors, in order, for a missing name and for no room;
      drops an empty message; errors when the sender has no account; otherwise
      stores the message once and sends the stored record to every member of
      the sender's room, the sender included. */
  function RoomMessage(st: State, sid: SocketId, p: Payload, accountExists: string -> bool, stamp: Timestamp)
    : (t: Transition)
    requires sid in st.sessions
    ensures t.st == EnsureRegistered(st, sid, p).1
    ensures var u, room, msg := SenderName(st, sid, p), st.sessions[sid].room, Text(p.message);
            && (u == "" ==> t.saved == [] && OnlyTo(t.out, sid, [Outbound.ErrorMsg(NOT_REGISTERED)]))
            && (u != "" && !Truthy(room) ==> t.saved == [] && OnlyTo(t.out, sid, [Outbound.ErrorMsg(JOIN_FIRST)]))
            && (u != "" && Truthy(room) && msg == "" ==> t.saved == [] && t.out == [])
            && (u != "" && Truthy(room) && msg != "" && !accountExists(u) ==>
                  t.saved == [] && OnlyTo(t.out, sid, [Outbound.ErrorMsg(USER_NOT_FOUND)]))
            && (u != "" && Truthy(room) && msg != "" && accountExists(u) ==>
                  var rec := RoomRecord(u, room.value, msg, stamp);
                  && t.saved == [SavedRoom(rec)]
                  && sid in Members(st, room.value)
                  && (forall x :: Outbound.Received(t.out, x) ==
                        if x in Members(st, room.value) then [Outbound.RoomMessage(rec)] else []))
  {
    var (ok, reg) := EnsureRegistered(st, sid, p);
    if !ok then ReplyOnlyTo(sid, Outbound.ErrorMsg(NOT_REGISTERED)); Reply(reg, sid, Outbound.ErrorMsg(NOT_REGISTERED))
    else
      MembersSameRooms(st, reg);
      RoomSend(reg, sid, Text(p.message), accountExists, stamp)
  }

  /** The part of `roomMessage` after `ensureRegistered` succeeded, for the
      trimmed message `msg`. */
  function RoomSend(reg: State, sid: SocketId, msg: string, accountExists: string -> bool, stamp: Timestamp)
    : (t: Transition)
    requires sid in reg.sessions && Registered(reg, sid)
    ensures t.st == reg
    ensures var u, room := reg.sessions[sid].username.value, reg.sessions[sid].room;
            && (!Truthy(room) ==> t.saved == [] && OnlyTo(t.out, sid, [Outbound.ErrorMsg(JOIN_FIRST)]))
            && (Truthy(room) && msg == "" ==> t.saved == [] && t.out == [])
            && (Truthy(room) && msg != "" && !accountExists(u) ==>
                  t.saved == [] && OnlyTo(t.out, sid, [Outbound.ErrorMsg(USER_NOT_FOUND)]))
            && (Truthy(room) && msg != "" && accountExists(u) ==>
                  var rec := RoomRecord(u, room.value, msg, stamp);
                  && t.saved == [SavedRoom(rec)]
                  && sid in Members(reg, room.value)
                  && (forall x :: Outbound.Received(t.out, x) ==
                        if x in Members(reg, room.value) then [Outbound.RoomMessage(rec)] else []))
  {
    var u := reg.sessions[sid].username.value;
    var room := reg.sessions[sid].room;
    if !Truthy(room) then ReplyOnlyTo(sid, Outbound.ErrorMsg(JOIN_FIRST)); Reply(reg, sid, Outbound.ErrorMsg(JOIN_FIRST))
    else if msg == "" then Quiet(reg)
    else if !accountExists(u) then
      ReplyOnlyTo(sid, Outbound.ErrorMsg(USER_NOT_FOUND)); Reply(reg, sid, Outbound.ErrorMsg(USER_NOT_FOUND))
    else
      var rec := RoomRecord(u, room.value, msg, stamp);
      var out := [ToRoom(reg, room.value, Outbound.RoomMessage(rec))];
      Outbound.ReceivedOneAll(out[0]);
      Transition(reg, out, [SavedRoom(rec)])
  }

  /** `io.to(onlineUsers[to]).emit`, guarded by `if (onlineUsers[to])`: the
      event reaches the live socket the name points at, and nobody else. */
  function RelayTo(st: State, to: string, ev: Outbound.Event): (out: seq<Outbound.Emit>)
    ensures forall x :: Outbound.Received(out, x) ==
              if to in st.online && st.online[to] == x && x in st.sessions then [ev] else []
  {
    if to in st.online then
      var out := [ToSocket(st, st.online[to], ev)];
      Outbound.ReceivedOneAll(out[0]);
      out
    else []
  }

  /** The fan-out of a stored private message: the record to the sender, and
      to the recipient's socket when `onlineUsers` has an entry for them. */
  function PrivateDelivery(st: State, sid: SocketId, rec: PrivateRecord): (out: seq<Outbound.Emit>)
    ensures var pm := Outbound.PrivateMessage(rec); var to := rec.toUser;
            forall x :: Outbound.Received(out, x) ==
              (if x == sid then [pm] else [])
              + (if to in st.online && st.online[to] == x && x in st.sessions then [pm] else [])
  {
    var receipt := ToSelf(sid, Outbound.PrivateMessage(rec));
    var copy := RelayTo(st, rec.toUser, Outbound.PrivateMessage(rec));
    Outbound.ReceivedOneAll(receipt);
    ConcatAll([receipt], copy);
    [receipt] + copy
  }

  lemma ConcatAll(a: seq<Outbound.Emit>, b: seq<Outbound.Emit>)
    ensures forall x :: Outbound.Received(a + b, x) == Outbound.Received(a, x) + Outbound.Received(b, x)
  {
    forall x ensures Outbound.Received(a + b, x) == Outbound.Received(a, x) + Outbound.Received(b, x) {
      Outbound.ReceivedConcat(a, b, x);
    }
  }

  /** `privateMessage`: errors, in order, for a missing name and an empty
      recipient; drops an empty message; errors for a message to oneself and
      for an unknown recipient; otherwise stores the message once, sends the
      record to the sender, and to the recipient's socket when the recipient
      has an `onlineUsers` entry. */
  function PrivateMessage(st: State, sid: SocketId, p: Payload, accountExists: string -> bool, stamp: Timestamp)
    : (t: Transition)
    requires sid in st.sessions
    ensures t.st == EnsureRegistered(st, sid, p).1
    ensures var u, to, msg := SenderName(st, sid, p), Text(p.toUser), Text(p.message);
            && (u == "" ==> t.saved == [] && OnlyTo(t.out, sid, [Outbound.ErrorMsg(NOT_REGISTERED)]))
            && (u != "" && to == "" ==> t.saved == [] && OnlyTo(t.out, sid, [Outbound.ErrorMsg(RECIPIENT_REQUIRED)]))
            && (u != "" && to != "" && msg == "" ==> t.saved == [] && t.out == [])
            && (u != "" && to != "" && msg != "" && to == u ==>
                  t.saved == [] && OnlyTo(t.out, sid, [Outbound.ErrorMsg(SELF_MESSAGE)]))
            && (u != "" && to != "" && msg != "" && to != u && !accountExists(to) ==>
                  t.saved == [] && OnlyTo(t.out, sid, [Outbound.ErrorMsg(RECIPIENT_NOT_FOUND)]))
            && (u != "" && to != "" && msg != "" && to != u && accountExists(to) ==>
                  var pm := Outbound.PrivateMessage(PrivateRecord(u, to, msg, stamp));
                  && t.saved == [SavedPrivate(PrivateRecord(u, to, msg, stamp))]
                  && (forall x :: Outbound.Received(t.out, x) ==
                        (if x == sid then [pm] else [])
                        + (if to in st.online && st.online[to] == x && x in st.sessions then [pm] else [])))
  {
    var (ok, reg) := EnsureRegistered(st, sid, p);
    if !ok then ReplyOnlyTo(sid, Outbound.ErrorMsg(NOT_REGISTERED)); Reply(reg, sid, Outbound.ErrorMsg(NOT_REGISTERED))
    else PrivateSend(reg, sid, Text(p.toUser), Text(p.message), accountExists, stamp)
  }

  /** The part of `privateMessage` after `ensureRegistered` succeeded, for the
      trimmed recipient `to` and message `msg`. */
  function PrivateSend(reg: State, sid: SocketId, to: string, msg: string, accountExists: string -> bool,
                       stamp: Timestamp): (t: Transition)
    requires sid in reg.sessions && Registered(reg, sid)
    ensures t.st == reg
    ensures var u := reg.sessions[sid].username.value;
            && (to == "" ==> t.saved == [] && OnlyTo(t.out, sid, [Outbound.ErrorMsg(RECIPIENT_REQUIRED)]))
            && (to != "" && msg == "" ==> t.saved == [] && t.out == [])
            && (to != "" && msg != "" && to == u ==>
                  t.saved == [] && OnlyTo(t.out, sid, [Outbound.ErrorMsg(SELF_MESSAGE)]))
            && (to != "" && msg != "" && to != u && !accountExists(to) ==>
                  t.saved == [] && OnlyTo(t.out, sid, [Outbound.ErrorMsg(RECIPIENT_NOT_FOUND)]))
            && (to != "" && msg != "" && to != u && accountExists(to) ==>
                  var pm := Outbound.PrivateMessage(PrivateRecord(u, to, msg, stamp));
                  && t.saved == [SavedPrivate(PrivateRecord(u, to, msg, stamp))]
                  && (forall x :: Outbound.Received(t.out, x) ==
                        (if x == sid then [pm] else [])
                        + (if to in reg.online && reg.online[to] == x && x in reg.sessions then [pm] else [])))
  {
    var from := reg.sessions[sid].username.value;
    if to == "" then
      ReplyOnlyTo(sid, Outbound.ErrorMsg(RECIPIENT_REQUIRED)); Reply(reg, sid, Outbound.ErrorMsg(RECIPIENT_REQUIRED))
    else if msg == "" then Quiet(reg)
    else if to == from then
      ReplyOnlyTo(sid, Outbound.ErrorMsg(SELF_MESSAGE)); Reply(reg, sid, Outbound.ErrorMsg(SELF_MESSAGE))
    else if !accountExists(to) then
      ReplyOnlyTo(sid, Outbound.ErrorMsg(RECIPIENT_NOT_FOUND)); Reply(reg, sid, Outbound.ErrorMsg(RECIPIENT_NOT_FOUND))
    else
      var rec := PrivateRecord(from, to, msg, stamp);
      Transition(reg, PrivateDelivery(reg, sid, rec), [SavedPrivate(rec)])
  }

  /** The indicator a room typing relay forwards. */
  function RoomTypingEvent(stop: bool, user: string): Outbound.Event {
    if stop then Outbound.RoomTypingStop(Some(user)) else Outbound.RoomTyping(user)
  }

  /** `roomTyping` (stop = false) and `roomTypingStop` (stop = true): relays
      the indicator to the other members of the sender's room; silent when the
      sender has no name or no room. */
  function RoomRelay(st: State, sid: SocketId, p: Payload, stop: bool): (t: Transition)
    requires sid in st.sessions
    ensures t.saved == []
    ensures t.st == EnsureRegistered(st, sid, p).1
    ensures var u, room := SenderName(st, sid, p), st.sessions[sid].room;
            && (u == "" || !Truthy(room) ==> t.out == [])
            && (u != "" && Truthy(room) ==>
                  forall x :: Outbound.Received(t.out, x) ==
                    if x in Members(st, room.value) && x != sid then [RoomTypingEvent(stop, u)] else [])
  {
    var (ok, reg) := EnsureRegistered(st, sid, p);
    if !ok then Quiet(reg)
    else
      var room := reg.sessions[sid].room;
      if !Truthy(room) then Quiet(reg)
      else
        var out := [ToOthers(reg, sid, room.value, RoomTypingEvent(stop, reg.sessions[sid].username.value))];
        MembersSameRooms(st, reg);
        Outbound.ReceivedOneAll(out[0]);
        Transition(reg, out, [])
  }

  /** The indicator a private typing relay forwards. */
  function PrivateTypingEvent(stop: bool, user: string): Outbound.Event {
    if stop then Outbound.PrivateTypingStop(user) else Outbound.PrivateTyping(user)
  }

  /** `privateTyping` (stop = false) and `privateTypingStop` (stop = true):
      relays the indicator to the socket `onlineUsers` holds for the
      recipient; silent when the sender has no name, the recipient is empty
      or the recipient has no entry. */
  function PrivateRelay(st: State, sid: SocketId, p: Payload, stop: bool): (t: Transition)
    requires sid in st.sessions
    ensures t.saved == []
    ensures t.st == EnsureRegistered(st, sid, p).1
    ensures var u, to, online := SenderName(st, sid, p), Text(p.toUser), t.st.online;
            && (u == "" || to == "" ==> t.out == [])
            && (u != "" && to != "" ==>
                  forall x :: Outbound.Received(t.out, x) ==
                    if to in online && online[to] == x && x in st.sessions then [PrivateTypingEvent(stop, u)] else [])
  {
    var (ok, reg) := EnsureRegistered(st, sid, p);
    if !ok then Quiet(reg)
    else
      var to := Text(p.toUser);
      if to == "" then Quiet(reg)
      else Transition(reg, RelayTo(reg, to, PrivateTypingEvent(stop, reg.sessions[sid].username.value)), [])
  }

  /** `disconnect`: the socket is gone (socket.io drops it from its room) and
      the `onlineUsers` entry for its name is deleted, whichever socket that
      entry points at. Nothing is emitted. */
  function Disconnect(st: State, sid: SocketId): (t: Transition)
    requires sid in st.sessions
    ensures t.out == [] && t.saved == []
    ensures t.st.sessions.Keys == st.sessions.Keys - {sid}
    ensures t.st.used == st.used
    ensures forall x :: x in t.st.sessions ==> t.st.sessions[x] == st.sessions[x]
    ensures forall r :: Members(t.st, r) == Members(st, r) - {sid}
    ensures var name := st.sessions[sid].username;
            && (Truthy(name) ==> t.st.online == st.online - {name.value})
            && (!Truthy(name) ==> t.st.online == st.online)
  {
    var name := st.sessions[sid].username;
    var online := if Truthy(name) then st.online - {name.value} else st.online;
    Quiet(st.(sessions := st.sessions - {sid}, online := online))
  }

  /** Events other than `connection` arrive only on a live socket, and
      socket.io never hands out an id twice, not even after a disconnect. */
  predicate Enabled(st: State, sid: SocketId, ev: Inbound.Event) {
    if ev.Connect? then sid !in st.sessions && sid !in st.used else sid in st.sessions
  }

  /** Dispatches one inbound event on socket `sid` to its handler. An event
      never touches another socket's session, reaches only live sockets, and
      only the two message events store anything, at most once. */
  function Step(st: State, sid: SocketId, ev: Inbound.Event, env: Env): (t: Transition)
    requires Enabled(st, sid, ev)
    ensures forall x :: x != sid ==> (x in t.st.sessions <==> x in st.sessions)
    ensures forall x :: x in st.sessions && x != sid ==> t.st.sessions[x] == st.sessions[x]
    ensures forall x :: Outbound.Received(t.out, x) != [] ==> x in st.sessions
    ensures t.st.used == if ev.Connect? then st.used + {sid} else st.used
    ensures |t.saved| <= 1
    ensures t.saved != [] ==> ev.RoomMessage? || ev.PrivateMessage?
  {
    if ev.Connect? || ev.RegisterUser? || ev.JoinRoom? || ev.LeaveRoom? || ev.Disconnect? then
      SessionStep(st, sid, ev, env)
    else if ev.RoomMessage? || ev.PrivateMessage? then MessageStep(st, sid, ev, env)
    else TypingStep(st, sid, ev)
  }

  /** The events that open, name, place and close a session. None stores anything. */
  function SessionStep(st: State, sid: SocketId, ev: Inbound.Event, env: Env): (t: Transition)
    requires Enabled(st, sid, ev)
    requires ev.Connect? || ev.RegisterUser? || ev.JoinRoom? || ev.LeaveRoom? || ev.Disconnect?
    ensures forall x :: x != sid ==> (x in t.st.sessions <==> x in st.sessions)
    ensures forall x :: x in st.sessions && x != sid ==> t.st.sessions[x] == st.sessions[x]
    ensures forall x :: Outbound.Received(t.out, x) != [] ==> x in st.sessions
    ensures t.st.used == if ev.Connect? then st.used + {sid} else st.used
    ensures t.saved == []
  {
    match ev
    case Connect => Connect(st, sid)
    case RegisterUser(p) => RegisterUser(st, sid, p)
    case JoinRoom(p) => JoinRoom(st, sid, p, env.history)
    case LeaveRoom => LeaveRoom(st, sid)
    case Disconnect => Disconnect(st, sid)
  }

  /** The two message events of a live socket. Each stores at most one record. */
  function MessageStep(st: State, sid: SocketId, ev: Inbound.Event, env: Env): (t: Transition)
    requires sid in st.sessions
    requires ev.RoomMessage? || ev.PrivateMessage?
    ensures t.st.sessions.Keys == st.sessions.Keys
    ensures forall x :: x in st.sessions && x != sid ==> t.st.sessions[x] == st.sessions[x]
    ensures t.st.used == st.used
    ensures forall x :: Outbound.Received(t.out, x) != [] ==> x in st.sessions
    ensures |t.saved| <= 1
  {
    match ev
    case RoomMessage(p) => RoomMessage(st, sid, p, env.accountExists, env.stamp)
    case PrivateMessage(p) => PrivateMessage(st, sid, p, env.accountExists, env.stamp)
  }

  /** The four typing events of a live socket. None stores anything. */
  function TypingStep(st: State, sid: SocketId, ev: Inbound.Event): (t: Transition)
    requires sid in st.sessions
    requires ev.RoomTyping? || ev.RoomTypingStop? || ev.PrivateTyping? || ev.PrivateTypingStop?
    ensures t.st.sessions.Keys == st.sessions.Keys
    ensures forall x :: x in st.sessions && x != sid ==> t.st.sessions[x] == st.sessions[x]
    ensures t.st.used == st.used
    ensures forall x :: Outbound.Received(t.out, x) != [] ==> x in st.sessions
    ensures t.saved == []
  {
    match ev
    case RoomTyping(p) => RoomRelay(st, sid, p, false)
    case RoomTypingStop(p) => RoomRelay(st, sid, p, true)
    case PrivateTyping(p) => PrivateRelay(st, sid, p, false)
    case PrivateTypingStop(p) => PrivateRelay(st, sid, p, true)
  }
}
