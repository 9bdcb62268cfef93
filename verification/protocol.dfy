/**
 * Vocabulary shared by the chat server and its page script: the fixed room
 * list, socket handles, inbound payloads and how their fields are read,
 * the records the message store hands back, and the server's error texts.
 */
module Protocol {
  import opened Wrappers
  import JsString

  /** A socket.io connection handle (`socket.id`); opaque to the server. */
  type SocketId = nat

  /** The store's `date_sent`: an abstract, store-assigned timestamp. */
  type Timestamp = nat

  /** The predefined rooms, in the order they are sent to clients. */
  const ROOMS: seq<string> := ["devops", "cloud computing", "covid19", "sports", "nodeJS", "general"]

  /** An inbound payload object. Each field the server reads may be absent. */
  datatype Payload = Payload(username: Option<string>, room: Option<string>,
                             message: Option<string>, toUser: Option<string>)

  /** The default `{}` a handler uses when the client sends no payload. */
  const EMPTY: Payload := Payload(None, None, None, None)

  /** A stored room message as the store returns it. */
  datatype RoomRecord = RoomRecord(fromUser: string, room: string, message: string, dateSent: Timestamp)

  /** A stored private message as the store returns it. */
  datatype PrivateRecord = PrivateRecord(fromUser: string, toUser: string, message: string, dateSent: Timestamp)

  const NOT_REGISTERED := "Not registered (missing username)."
  const ROOM_REQUIRED := "Room is required."
  const INVALID_ROOM := "Invalid room."
  const JOIN_FIRST := "Join a room first."
  const USER_NOT_FOUND := "User not found in DB. Signup again."
  const RECIPIENT_REQUIRED := "Recipient username required."
  const SELF_MESSAGE := "You can't message yourself."
  const RECIPIENT_NOT_FOUND := "Recipient user not found."

  /** JavaScript truthiness of a value that is a string or absent. */
  predicate Truthy(o: Option<string>) {
    o.Some? && o.value != ""
  }

  /** `String(field || "").trim()`: a missing or empty field reads as "". */
  function Text(field: Option<string>): (r: string)
    ensures JsString.Trimmed(r)
    ensures r == "" <==> (field.None? || JsString.AllWhitespace(field.value))
    ensures field.Some? ==> JsString.IsTrimOf(field.value, r)
  {
    match field
    case None => ""
    case Some(s) => JsString.TrimIsTrimmed(s); JsString.Trim(s)
  }

  /** `getUsernameFromPayload`: the trimmed `username` field, or "" when the
      field is missing, empty or only white space. */
  function GetUsernameFromPayload(p: Payload): (u: string)
    ensures JsString.Trimmed(u)
    ensures u == "" <==> (p.username.None? || JsString.AllWhitespace(p.username.value))
    ensures p.username.Some? ==> JsString.IsTrimOf(p.username.value, u)
  {
    Text(p.username)
  }

  /** Every listed room name is its own trimmed reading, so a client that
      sends a name from `roomsList` back in `joinRoom` names that room. */
  lemma RoomNameReadsBack(r: string)
    requires r in ROOMS
    ensures Text(Some(r)) == r
  {
    assert JsString.Trimmed(r);
    JsString.TrimOfTrimmed(r);
  }
}
