/**
 * An end-to-end scenario for the router over two sockets: two users connect,
 * register, join the same room, and one of them speaks. The names, the room
 * and the text are symbolic; only their shape as the server reads them is
 * assumed.
 */
module Scenario {
  import opened Wrappers
  import opened Protocol
  import JsString
  import Outbound
  import opened Router

  /** A field value the server keeps as it is: non-empty and already trimmed. */
  predicate Clean(s: string) {
    s != "" && JsString.Trimmed(s)
  }

  function NamePayload(name: string): Payload {
    Payload(Some(name), None, None, None)
  }

  function RoomPayload(room: string): Payload {
    Payload(None, Some(room), None, None)
  }

  function TextPayload(text: string): Payload {
    Payload(None, None, Some(text), None)
  }

  /** User `a` on socket 1 and user `b` on socket 2, both registered, in
      rooms `ra` and `rb`. */
  function Pair(a: string, b: string, ra: Option<string>, rb: Option<string>): State {
    State(map[1 := Session(Some(a), ra), 2 := Session(Some(b), rb)], map[a := 1, b := 2], {1, 2})
  }

  lemma CleanReadsBack(s: string)
    requires Clean(s)
    ensures Text(Some(s)) == s
  {
    JsString.TrimOfTrimmed(s);
  }

  /** A session map over sockets 1 and 2 is determined by its two entries. */
  lemma TwoSessions(m: map<SocketId, Session>, x: Session, y: Session)
    requires m.Keys == {1, 2} && m[1] == x && m[2] == y
    ensures m == map[1 := x, 2 := y]
  {
  }

  /** Two sockets connect to a server with no connections. */
  lemma ScenarioConnect()
    ensures var s1 := Connect(INIT, 1).st;
            Connect(s1, 2).st == State(map[1 := FRESH, 2 := FRESH], map[], {1, 2})
  {
    var s1 := Connect(INIT, 1).st;
    assert s1.sessions == map[1 := FRESH];
    var s2 := Connect(s1, 2).st;
    assert s2.sessions.Keys == {1, 2};
    TwoSessions(s2.sessions, FRESH, FRESH);
  }

  /** `a` registers on socket 1, then `b` on socket 2. */
  lemma ScenarioRegister(a: string, b: string)
    requires Clean(a) && Clean(b) && a != b
    ensures var s3 := RegisterUser(State(map[1 := FRESH, 2 := FRESH], map[], {1, 2}), 1, NamePayload(a)).st;
            && s3 == State(map[1 := Session(Some(a), None), 2 := FRESH], map[a := 1], {1, 2})
            && RegisterUser(s3, 2, NamePayload(b)).st == Pair(a, b, None, None)
  {
    var s2 := State(map[1 := FRESH, 2 := FRESH], map[], {1, 2});
    RegisterClean(s2, 1, a);
    assert s2.sessions[1 := Session(Some(a), None)] == map[1 := Session(Some(a), None), 2 := FRESH];
    var s3 := State(map[1 := Session(Some(a), None), 2 := FRESH], map[a := 1], {1, 2});
    RegisterClean(s3, 2, b);
    assert s3.sessions[2 := Session(Some(b), None)] == Pair(a, b, None, None).sessions;
  }

  /** Registering a clean name on a live socket names it and points the name at it. */
  lemma RegisterClean(st: State, sid: SocketId, u: string)
    requires sid in st.sessions && Clean(u)
    ensures RegisterUser(st, sid, NamePayload(u)).st
            == st.(sessions := st.sessions[sid := st.sessions[sid].(username := Some(u))], online := st.online[u := sid])
  {
    CleanReadsBack(u);
  }

  /** `a` joins `room`. */
  lemma ScenarioJoinFirst(a: string, b: string, room: string, history: seq<RoomRecord>)
    requires Clean(a) && Clean(b) && a != b && Clean(room) && room in ROOMS
    ensures JoinRoom(Pair(a, b, None, None), 1, RoomPayload(room), history).st
            == Pair(a, b, Some(room), None)
  {
    var st := Pair(a, b, None, None);
    CleanReadsBack(room);
    var t := JoinRoom(st, 1, RoomPayload(room), history);
    assert EnsureRegistered(st, 1, RoomPayload(room)).1 == st;
    assert t.st.sessions.Keys == {1, 2};
    TwoSessions(t.st.sessions, Session(Some(a), Some(room)), Session(Some(b), None));
  }

  /** `b` joins the same room. */
  lemma ScenarioJoinSecond(a: string, b: string, room: string, history: seq<RoomRecord>)
    requires Clean(a) && Clean(b) && a != b && Clean(room) && room in ROOMS
    ensures JoinRoom(Pair(a, b, Some(room), None), 2, RoomPayload(room), history).st
            == Pair(a, b, Some(room), Some(room))
  {
    var st := Pair(a, b, Some(room), None);
    CleanReadsBack(room);
    var t := JoinRoom(st, 2, RoomPayload(room), history);
    assert EnsureRegistered(st, 2, RoomPayload(room)).1 == st;
    assert t.st.sessions.Keys == {1, 2};
    TwoSessions(t.st.sessions, Session(Some(a), Some(room)), Session(Some(b), Some(room)));
  }

  /** When `a` says `text` in the room, `a` and `b` both receive the
      identical stored record, and it is stored once. */
  lemma ScenarioRoomBroadcast(a: string, b: string, room: string, text: string,
                              accountExists: string -> bool, stamp: Timestamp)
    requires Clean(a) && Clean(b) && a != b && Clean(room) && Clean(text)
    requires accountExists(a)
    ensures var st := Pair(a, b, Some(room), Some(room));
            var t := RoomMessage(st, 1, TextPayload(text), accountExists, stamp);
            var rec := RoomRecord(a, room, text, stamp);
            && Outbound.Received(t.out, 1) == [Outbound.RoomMessage(rec)]
            && Outbound.Received(t.out, 2) == [Outbound.RoomMessage(rec)]
            && t.saved == [SavedRoom(rec)]
  {
    CleanReadsBack(text);
    var st := Pair(a, b, Some(room), Some(room));
    assert EnsureRegistered(st, 1, TextPayload(text)).1 == st;
    assert 1 in Members(st, room) && 2 in Members(st, room);
  }
}
