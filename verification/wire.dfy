/** The events a client sends to the server, each with the payload it carries. */
module Inbound {
  import opened Protocol

  datatype Event =
    | Connect
    | RegisterUser(p: Payload)
    | JoinRoom(p: Payload)
    | LeaveRoom
    | RoomMessage(p: Payload)
    | PrivateMessage(p: Payload)
    | RoomTyping(p: Payload)
    | RoomTypingStop(p: Payload)
    | PrivateTyping(p: Payload)
    | PrivateTypingStop(p: Payload)
    | Disconnect
}

/** The events the server sends, and where each emit goes. */
module Outbound {
  import opened Wrappers
  import opened Protocol

  datatype Event =
    | RoomsList(rooms: seq<string>)
    | JoinedRoom(room: string)
    | RoomHistory(records: seq<RoomRecord>)
    | LeftRoom(room: string)
    | RoomMessage(record: RoomRecord)
    | PrivateMessage(pm: PrivateRecord)
    | RoomTyping(user: string)
    | RoomTypingStop(stopUser: Option<string>)  // `socket.data.username`, which JavaScript may leave undefined
    | PrivateTyping(fromUser: string)
    | PrivateTypingStop(fromUser: string)
    | ErrorMsg(text: string)

  /** One `emit` call of the server: the live sockets it reaches and the event. */
  datatype Emit = Emit(targets: set<SocketId>, event: Event)

  /** What socket `x` receives from a list of emits, in order. */
  function Received(out: seq<Emit>, x: SocketId): seq<Event> {
    if out == [] then []
    else (if x in out[0].targets then [out[0].event] else []) + Received(out[1..], x)
  }

  lemma ReceivedOne(e: Emit, x: SocketId)
    ensures Received([e], x) == if x in e.targets then [e.event] else []
  {
    assert [e][1..] == [];
  }

  lemma ReceivedTwo(e: Emit, f: Emit, x: SocketId)
    ensures Received([e, f], x) == Received([e], x) + Received([f], x)
  {
    assert [e, f][1..] == [f];
    assert [e][1..] == [];
  }

  /** Who receives what from a single emit. */
  lemma ReceivedOneAll(e: Emit)
    ensures forall x :: Received([e], x) == if x in e.targets then [e.event] else []
  {
    forall x ensures Received([e], x) == if x in e.targets then [e.event] else [] {
      ReceivedOne(e, x);
    }
  }

  /** Who receives what from two emits in turn. */
  lemma ReceivedTwoAll(e: Emit, f: Emit)
    ensures forall x :: Received([e, f], x) ==
                        (if x in e.targets then [e.event] else []) + (if x in f.targets then [f.event] else [])
  {
    forall x ensures Received([e, f], x) ==
                     (if x in e.targets then [e.event] else []) + (if x in f.targets then [f.event] else []) {
      ReceivedTwo(e, f, x);
      ReceivedOne(e, x);
      ReceivedOne(f, x);
    }
  }

  /** Receiving from two emit lists in turn. */
  lemma {:induction false} ReceivedConcat(a: seq<Emit>, b: seq<Emit>, x: SocketId)
    ensures Received(a + b, x) == Received(a, x) + Received(b, x)
  {
    if a == [] {
      assert a + b == b;
    } else {
      var head := if x in a[0].targets then [a[0].event] else [];
      assert (a + b)[0] == a[0];
      assert (a + b)[1..] == a[1..] + b;
      calc {
        Received(a + b, x);
        head + Received(a[1..] + b, x);
        { ReceivedConcat(a[1..], b, x); }
        head + (Received(a[1..], x) + Received(b, x));
        (head + Received(a[1..], x)) + Received(b, x);
      }
    }
  }
}
