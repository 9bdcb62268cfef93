/**
 * Properties of the router that relate several handlers or several events:
 * the session invariant every event keeps, and the consequences of the
 * presence map's overwrite-and-delete discipline.
 */
module RouterFacts {
  import opened Wrappers
  import opened Protocol
  import JsString
  import Inbound
  import Outbound
  import opened Router
  import Client

  /** A session's name, once set, is non-empty and trimmed; a socket in a
      room has a name and the room is one of the predefined ones. */
  ghost predicate SessionValid(s: Session) {
    && (s.username.Some? ==> s.username.value != "" && JsString.Trimmed(s.username.value))
    && (s.room.Some? ==> s.room.value in ROOMS && s.username.Some?)
  }

  ghost predicate Valid(st: State) {
    && (forall x :: x in st.sessions ==> SessionValid(st.sessions[x]))
    && (forall u :: u in st.online ==> u != "" && JsString.Trimmed(u))
    && st.sessions.Keys <= st.used
  }

  lemma InitValid()
    ensures Valid(INIT)
  {
  }

  /** Naming a socket with a non-empty trimmed name keeps the invariant. */
  lemma NameValid(st: State, sid: SocketId, u: string)
    requires Valid(st) && sid in st.sessions && u != "" && JsString.Trimmed(u)
    ensures Valid(st.(sessions := st.sessions[sid := st.sessions[sid].(username := Some(u))], online := st.online[u := sid]))
  {
    var sessions := st.sessions[sid := st.sessions[sid].(username := Some(u))];
    forall x | x in sessions ensures SessionValid(sessions[x]) {
      if x != sid {
        assert sessions[x] == st.sessions[x];
      }
    }
  }

  lemma EnsureRegisteredValid(st: State, sid: SocketId, p: Payload)
    requires Valid(st) && sid in st.sessions
    ensures Valid(EnsureRegistered(st, sid, p).1)
  {
    if !Registered(st, sid) && GetUsernameFromPayload(p) != "" {
      NameValid(st, sid, GetUsernameFromPayload(p));
    }
  }

  lemma RegisterUserValid(st: State, sid: SocketId, p: Payload)
    requires Valid(st) && sid in st.sessions
    ensures Valid(RegisterUser(st, sid, p).st)
  {
    if GetUsernameFromPayload(p) != "" {
      NameValid(st, sid, GetUsernameFromPayload(p));
    }
  }

  lemma JoinRoomValid(st: State, sid: SocketId, p: Payload, history: seq<RoomRecord>)
    requires Valid(st) && sid in st.sessions
    ensures Valid(JoinRoom(st, sid, p, history).st)
  {
    EnsureRegisteredValid(st, sid, p);
  }

  lemma LeaveRoomValid(st: State, sid: SocketId)
    requires Valid(st) && sid in st.sessions
    ensures Valid(LeaveRoom(st, sid).st)
  {
  }

  lemma ConnectValid(st: State, sid: SocketId)
    requires Valid(st) && sid !in st.sessions
    ensures Valid(Connect(st, sid).st)
  {
  }

  lemma DisconnectValid(st: State, sid: SocketId)
    requires Valid(st) && sid in st.sessions
    ensures Valid(Disconnect(st, sid).st)
  {
  }

  lemma ConnectionEventValid(st: State, sid: SocketId, ev: Inbound.Event, env: Env)
    requires Valid(st) && Enabled(st, sid, ev) && (ev.Connect? || ev.Disconnect? || ev.LeaveRoom?)
    ensures Valid(Step(st, sid, ev, env).st)
  {
    match ev
    case Connect =>
      assert Step(st, sid, ev, env) == Connect(st, sid);
      ConnectValid(st, sid);
    case Disconnect =>
      assert Step(st, sid, ev, env) == Disconnect(st, sid);
      DisconnectValid(st, sid);
    case LeaveRoom =>
      assert Step(st, sid, ev, env) == LeaveRoom(st, sid);
      LeaveRoomValid(st, sid);
  }

  lemma NamingEventValid(st: State, sid: SocketId, ev: Inbound.Event, env: Env)
    requires Valid(st) && Enabled(st, sid, ev) && (ev.RegisterUser? || ev.JoinRoom?)
    ensures Valid(Step(st, sid, ev, env).st)
  {
    match ev
    case RegisterUser(p) =>
      assert Step(st, sid, ev, env) == RegisterUser(st, sid, p);
      RegisterUserValid(st, sid, p);
    case JoinRoom(p) =>
      assert Step(st, sid, ev, env) == JoinRoom(st, sid, p, env.history);
      JoinRoomValid(st, sid, p, env.history);
  }

  lemma MessageEventValid(st: State, sid: SocketId, ev: Inbound.Event, env: Env)
    requires Valid(st) && Enabled(st, sid, ev) && (ev.RoomMessage? || ev.PrivateMessage?)
    ensures Valid(Step(st, sid, ev, env).st)
  {
    assert Step(st, sid, ev, env).st == EnsureRegistered(st, sid, ev.p).1;
    EnsureRegisteredValid(st, sid, ev.p);
  }

  lemma TypingEventValid(st: State, sid: SocketId, ev: Inbound.Event, env: Env)
    requires Valid(st) && Enabled(st, sid, ev)
    requires ev.RoomTyping? || ev.RoomTypingStop? || ev.PrivateTyping? || ev.PrivateTypingStop?
    ensures Valid(Step(st, sid, ev, env).st)
  {
    assert Step(st, sid, ev, env).st == EnsureRegistered(st, sid, ev.p).1;
    EnsureRegisteredValid(st, sid, ev.p);
  }

  /** Every event keeps the session invariant. */
  lemma StepPreservesValid(st: State, sid: SocketId, ev: Inbound.Event, env: Env)
    requires Valid(st) && Enabled(st, sid, ev)
    ensures Valid(Step(st, sid, ev, env).st)
  {
    if ev.Connect? || ev.Disconnect? || ev.LeaveRoom? {
      ConnectionEventValid(st, sid, ev, env);
    } else if ev.RegisterUser? || ev.JoinRoom? {
      NamingEventValid(st, sid, ev, env);
    } else if ev.RoomMessage? || ev.PrivateMessage? {
      MessageEventValid(st, sid, ev, env);
    } else {
      TypingEventValid(st, sid, ev, env);
    }
  }

  /** An id whose socket has gone stays gone: no later event brings it back,
      so a presence entry left pointing at it never reaches a later connection. */
  lemma GoneIdNeverReturns(st: State, sid: SocketId, ev: Inbound.Event, env: Env, x: SocketId)
    requires Enabled(st, sid, ev) && x in st.used && x !in st.sessions
    ensures var t := Step(st, sid, ev, env);
            && x in t.st.used && x !in t.st.sessions
            && !Enabled(t.st, x, Inbound.Connect)
  {
  }

  /** In a valid state the typing-stop notice of `leaveRoom` always names the
      user: a socket reaches a room only through a registered session. */
  lemma LeaveNoticeNamesUser(st: State, sid: SocketId, x: SocketId)
    requires Valid(st) && sid in st.sessions && Truthy(st.sessions[sid].room)
    requires x != sid && x in Members(st, st.sessions[sid].room.value)
    ensures var u := st.sessions[sid].username;
            u.Some? && Outbound.Received(LeaveRoom(st, sid).out, x) == [Outbound.RoomTypingStop(u)]
  {
  }

  /** Registering the same name twice leaves the state as after the first
      time, but the room list is sent again. */
  lemma RegisterTwice(st: State, sid: SocketId, p: Payload)
    requires sid in st.sessions && p.username.Some? && !JsString.AllWhitespace(p.username.value)
    ensures var t1 := RegisterUser(st, sid, p);
            var t2 := RegisterUser(t1.st, sid, p);
            t2.st == t1.st && Outbound.Received(t2.out, sid) == [Outbound.RoomsList(ROOMS)]
  {
    var u := GetUsernameFromPayload(p);
    var t1 := RegisterUser(st, sid, p);
    var t2 := RegisterUser(t1.st, sid, p);
    assert t1.st.online[u := sid] == t1.st.online;
    SameState(t2.st, t1.st);
  }

  /** Two states with the same sessions, presence map and issued ids are equal. */
  lemma SameState(a: State, b: State)
    requires a.sessions.Keys == b.sessions.Keys
    requires forall x :: x in a.sessions ==> a.sessions[x] == b.sessions[x]
    requires a.online == b.online && a.used == b.used
    ensures a == b
  {
  }

  /** Re-registering under a new name does not retire the former one: both now
      point at this socket. */
  lemma ReRegisterKeepsOldName(st: State, sid: SocketId, p: Payload, former: string, u: string)
    requires sid in st.sessions && st.sessions[sid].username == Some(former)
    requires former in st.online && st.online[former] == sid
    requires p.username == Some(u) && u != "" && JsString.Trimmed(u) && u != former
    ensures var t := RegisterUser(st, sid, p);
            && t.st.sessions[sid].username == Some(u)
            && t.st.online[former] == sid && t.st.online[u] == sid
  {
    JsString.TrimOfTrimmed(u);
  }

  /** A socket that re-registered keeps its former name's entry, so a private
      message it sends to its former name reaches it twice: once as the receipt
      and once as the recipient's copy. */
  lemma MessageToOwnOldName(st: State, sid: SocketId, p: Payload, accountExists: string -> bool, stamp: Timestamp,
                            former: string)
    requires sid in st.sessions && Registered(st, sid)
    requires former in st.online && st.online[former] == sid
    requires former != "" && JsString.Trimmed(former) && p.toUser == Some(former)
    requires former != st.sessions[sid].username.value
    requires p.message.Some? && !JsString.AllWhitespace(p.message.value) && accountExists(former)
    ensures var t := PrivateMessage(st, sid, p, accountExists, stamp);
            var rec := PrivateRecord(st.sessions[sid].username.value, former, Text(p.message), stamp);
            Outbound.Received(t.out, sid) == [Outbound.PrivateMessage(rec), Outbound.PrivateMessage(rec)]
  {
    JsString.TrimOfTrimmed(former);
    PrivateMessageRegistered(st, sid, p, accountExists, stamp);
    SendToOwnOldName(st, sid, former, Text(p.message), accountExists, stamp);
  }

  /** For a socket that already has a name, `privateMessage` is its
      post-registration part applied to the trimmed fields. */
  lemma PrivateMessageRegistered(st: State, sid: SocketId, p: Payload, accountExists: string -> bool,
                                 stamp: Timestamp)
    requires sid in st.sessions && Registered(st, sid)
    ensures PrivateMessage(st, sid, p, accountExists, stamp)
            == PrivateSend(st, sid, Text(p.toUser), Text(p.message), accountExists, stamp)
  {
  }

  lemma SendToOwnOldName(st: State, sid: SocketId, former: string, msg: string, accountExists: string -> bool,
                         stamp: Timestamp)
    requires sid in st.sessions && Registered(st, sid)
    requires former in st.online && st.online[former] == sid
    requires former != "" && former != st.sessions[sid].username.value
    requires msg != "" && accountExists(former)
    ensures var t := PrivateSend(st, sid, former, msg, accountExists, stamp);
            var rec := PrivateRecord(st.sessions[sid].username.value, former, msg, stamp);
            Outbound.Received(t.out, sid) == [Outbound.PrivateMessage(rec), Outbound.PrivateMessage(rec)]
  {
  }

  /** `disconnect` deletes the presence entry for its name even when that
      entry belongs to a newer socket with the same name. That socket stays
      connected and named, yet a private message addressed to the name is
      stored and never reaches it. */
  lemma StaleDisconnectHidesLiveUser(st: State, a: SocketId, b: SocketId, c: SocketId, u: string,
                                     p: Payload, accountExists: string -> bool, stamp: Timestamp)
    requires a in st.sessions && b in st.sessions && c in st.sessions
    requires a != b && a != c && b != c
    requires u != "" && st.sessions[a].username == Some(u) && st.sessions[b].username == Some(u)
    requires u in st.online && st.online[u] == b
    requires Registered(st, c) && st.sessions[c].username.value != u
    requires JsString.Trimmed(u) && p.toUser == Some(u) && accountExists(u)
    requires p.message.Some? && !JsString.AllWhitespace(p.message.value)
    ensures var st' := Disconnect(st, a).st;
            var t := PrivateMessage(st', c, p, accountExists, stamp);
            && b in st'.sessions && st'.sessions[b].username == Some(u)
            && u !in st'.online
            && |t.saved| == 1
            && Outbound.Received(t.out, b) == []
  {
    var st' := Disconnect(st, a).st;
    assert st'.sessions[c] == st.sessions[c];
    assert Registered(st', c);
  }

  /** Switching rooms moves the socket out of its old room without any
      notice to the members left behind. */
  lemma JoinSwitchIsSilent(st: State, sid: SocketId, p: Payload, history: seq<RoomRecord>, x: SocketId)
    requires sid in st.sessions && Registered(st, sid)
    requires st.sessions[sid].room.Some? && p.room.Some? && p.room.value in ROOMS
    requires p.room.value != st.sessions[sid].room.value
    requires x != sid && x in Members(st, st.sessions[sid].room.value)
    ensures var t := JoinRoom(st, sid, p, history); var former := st.sessions[sid].room.value;
            && sid !in Members(t.st, former)
            && x in Members(t.st, former)
            && Outbound.Received(t.out, x) == []
  {
    RoomNameReadsBack(p.room.value);
    JoinSwitchAs(st, sid, p.room.value, history, x);
  }

  lemma JoinSwitchAs(st: State, sid: SocketId, room: string, history: seq<RoomRecord>, x: SocketId)
    requires sid in st.sessions && st.sessions[sid].room.Some? && room in ROOMS
    requires room != st.sessions[sid].room.value
    requires x != sid && x in Members(st, st.sessions[sid].room.value)
    ensures var t := JoinAs(st, sid, room, history); var former := st.sessions[sid].room.value;
            && sid !in Members(t.st, former)
            && x in Members(t.st, former)
            && Outbound.Received(t.out, x) == []
  {
    var t := JoinAs(st, sid, room, history);
    assert t.st.sessions[x] == st.sessions[x];
  }

  /** A named socket in a room that sends a non-empty message under an
      existing account stores it once and delivers it to the whole room. */
  lemma RoomSendDelivered(st: State, sid: SocketId, p: Payload, accountExists: string -> bool, stamp: Timestamp)
    requires sid in st.sessions && Registered(st, sid) && Truthy(st.sessions[sid].room)
    requires p.message.Some? && !JsString.AllWhitespace(p.message.value)
    requires accountExists(st.sessions[sid].username.value)
    ensures var t := RoomMessage(st, sid, p, accountExists, stamp);
            var s := st.sessions[sid];
            var rec := RoomRecord(s.username.value, s.room.value, Text(p.message), stamp);
            && t.saved == [SavedRoom(rec)]
            && forall x :: x in Members(st, s.room.value) ==> Outbound.Received(t.out, x) == [Outbound.RoomMessage(rec)]
  {
    assert SenderName(st, sid, p) == st.sessions[sid].username.value;
  }

  /** A room message sent from the page by a named socket in a room reaches
      the server as the trimmed text, which is stored once and delivered to
      every member of the room. */
  lemma ClientRoomSendIsStored(st: State, sid: SocketId, text: string, accountExists: string -> bool,
                               stamp: Timestamp)
    requires sid in st.sessions && Registered(st, sid) && Truthy(st.sessions[sid].room)
    requires !JsString.AllWhitespace(text) && accountExists(st.sessions[sid].username.value)
    ensures var sent := Client.SendRoomMessage(st.sessions[sid].room, text);
            |sent.events| == 2 && sent.events[0].RoomMessage?
    ensures var sent := Client.SendRoomMessage(st.sessions[sid].room, text);
            var t := RoomMessage(st, sid, sent.events[0].p, accountExists, stamp);
            var s := st.sessions[sid];
            var rec := RoomRecord(s.username.value, s.room.value, JsString.Trim(text), stamp);
            && t.saved == [SavedRoom(rec)]
            && forall x :: x in Members(st, s.room.value) ==> Outbound.Received(t.out, x) == [Outbound.RoomMessage(rec)]
  {
    var p := SentRoomPayload(st.sessions[sid].room, text);
    RoomSendDelivered(st, sid, p, accountExists, stamp);
  }

  /** The payload of the `roomMessage` the page sends carries a message the
      server reads as the trimmed text. */
  lemma SentRoomPayload(room: Option<string>, text: string) returns (p: Payload)
    requires Truthy(room) && !JsString.AllWhitespace(text)
    ensures var sent := Client.SendRoomMessage(room, text);
            |sent.events| == 2 && sent.events[0].RoomMessage? && sent.events[0].p == p
    ensures p.message.Some? && !JsString.AllWhitespace(p.message.value)
    ensures Text(p.message) == JsString.Trim(text)
  {
    p := Client.SendRoomMessage(room, text).events[0].p;
    JsString.TrimNotBlank(text);
    assert p.message == Some(JsString.Trim(text));
  }

  /** A private message sent from the page by a named socket reaches the
      server as the trimmed recipient and text: the server refuses it when the
      recipient is the sender or has no account; otherwise it stores it once,
      returns it to the sender and delivers it to the socket the recipient's
      name points at, when that socket is live. */
  lemma ClientPrivateSendIsStored(st: State, sid: SocketId, toField: string, text: string,
                                  accountExists: string -> bool, stamp: Timestamp)
    requires sid in st.sessions && Registered(st, sid)
    requires !JsString.AllWhitespace(toField) && !JsString.AllWhitespace(text)
    ensures var sent := Client.SendPrivateMessage(toField, text);
            |sent.events| == 2 && sent.events[0].PrivateMessage?
    ensures var sent := Client.SendPrivateMessage(toField, text);
            var t := PrivateMessage(st, sid, sent.events[0].p, accountExists, stamp);
            var u, to := st.sessions[sid].username.value, JsString.Trim(toField);
            var pm := Outbound.PrivateMessage(PrivateRecord(u, to, JsString.Trim(text), stamp));
            && t.st == st
            && (to == u ==> t.saved == [] && OnlyTo(t.out, sid, [Outbound.ErrorMsg(SELF_MESSAGE)]))
            && (to != u && !accountExists(to) ==>
                  t.saved == [] && OnlyTo(t.out, sid, [Outbound.ErrorMsg(RECIPIENT_NOT_FOUND)]))
            && (to != u && accountExists(to) ==>
                  && t.saved == [SavedPrivate(PrivateRecord(u, to, JsString.Trim(text), stamp))]
                  && forall x :: Outbound.Received(t.out, x) ==
                       (if x == sid then [pm] else [])
                       + (if to in st.online && st.online[to] == x && x in st.sessions then [pm] else []))
  {
    var p := SentPrivatePayload(toField, text);
    PrivateMessageRegistered(st, sid, p, accountExists, stamp);
  }

  /** The payload of the `privateMessage` the page sends carries a recipient
      and a message the server reads as the trimmed fields, neither empty. */
  lemma SentPrivatePayload(toField: string, text: string) returns (p: Payload)
    requires !JsString.AllWhitespace(toField) && !JsString.AllWhitespace(text)
    ensures var sent := Client.SendPrivateMessage(toField, text);
            |sent.events| == 2 && sent.events[0].PrivateMessage? && sent.events[0].p == p
    ensures Text(p.toUser) == JsString.Trim(toField) != ""
    ensures Text(p.message) == JsString.Trim(text) != ""
  {
    p := Client.SendPrivateMessage(toField, text).events[0].p;
    JsString.TrimNotBlank(toField);
    JsString.TrimNotBlank(text);
  }
}
