/**
 * The send guards of the chat page (public/app.js): what the page emits to
 * the server when the user sends a room or a private message.
 */
module Client {
  import opened Wrappers
  import opened Protocol
  import JsString
  import Inbound

  /** A send attempt: the events emitted to the server, in order, and the
      notice shown to the user, if any. */
  datatype Send = Send(events: seq<Inbound.Event>, notice: Option<string>)

  const ENTER_RECIPIENT := "Enter recipient username."

  /** `sendRoomMessage`: with no current room the user is told to join one;
      an empty message is ignored; otherwise the trimmed message is sent,
      followed by a stop of the room typing indicator. */
  function SendRoomMessage(currentRoom: Option<string>, text: string): (r: Send)
    ensures !Truthy(currentRoom) ==> r == Send([], Some(JOIN_FIRST))
    ensures Truthy(currentRoom) && JsString.AllWhitespace(text) ==> r == Send([], None)
    ensures Truthy(currentRoom) && !JsString.AllWhitespace(text) ==>
              && r.notice == None && |r.events| == 2
              && r.events[0].RoomMessage? && Text(r.events[0].p.message) == JsString.Trim(text)
              && r.events[1] == Inbound.RoomTypingStop(EMPTY)
    ensures Truthy(currentRoom) && !JsString.AllWhitespace(text) ==>
              r.events[0] == Inbound.RoomMessage(Payload(None, None, Some(JsString.Trim(text)), None))
  {
    var msg := JsString.Trim(text);
    if !Truthy(currentRoom) then Send([], Some(JOIN_FIRST))
    else if msg == "" then Send([], None)
    else
      JsString.TrimIdempotent(text);
      Send([Inbound.RoomMessage(Payload(None, None, Some(msg), None)), Inbound.RoomTypingStop(EMPTY)], None)
  }

  /** `sendPrivateMessage`: with no recipient the user is told to enter one;
      an empty message is ignored; otherwise the trimmed recipient and message
      are sent, followed by a stop of the private typing indicator. */
  function SendPrivateMessage(toField: string, text: string): (r: Send)
    ensures JsString.AllWhitespace(toField) ==> r == Send([], Some(ENTER_RECIPIENT))
    ensures !JsString.AllWhitespace(toField) && JsString.AllWhitespace(text) ==> r == Send([], None)
    ensures !JsString.AllWhitespace(toField) && !JsString.AllWhitespace(text) ==>
              && r.notice == None && |r.events| == 2
              && r.events[0].PrivateMessage?
              && Text(r.events[0].p.toUser) == JsString.Trim(toField)
              && Text(r.events[0].p.message) == JsString.Trim(text)
              && r.events[1].PrivateTypingStop?
              && Text(r.events[1].p.toUser) == JsString.Trim(toField)
    ensures !JsString.AllWhitespace(toField) && !JsString.AllWhitespace(text) ==>
              && r.events[0] == Inbound.PrivateMessage(
                   Payload(None, None, Some(JsString.Trim(text)), Some(JsString.Trim(toField))))
              && r.events[1] == Inbound.PrivateTypingStop(
                   Payload(None, None, None, Some(JsString.Trim(toField))))
  {
    var to := JsString.Trim(toField);
    var msg := JsString.Trim(text);
    if to == "" then Send([], Some(ENTER_RECIPIENT))
    else if msg == "" then Send([], None)
    else
      JsString.TrimIdempotent(toField);
      JsString.TrimIdempotent(text);
      Send([Inbound.PrivateMessage(Payload(None, None, Some(msg), Some(to))),
            Inbound.PrivateTypingStop(Payload(None, None, None, Some(to)))], None)
  }
}
