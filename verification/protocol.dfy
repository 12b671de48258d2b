/**
 * The events that cross the socket between the chat client and the server, as closed
 * tagged variants instead of loosely typed payload objects.
 */
module Protocol {
  import opened Wrappers
  import opened Reactions

  /** A socket id. */
  type ConnId = string

  /** A clock reading (`new Date()`), passed in rather than read. */
  type Time = nat

  /** The payload of an inbound `chat message`: an optional client-chosen id and the text. */
  datatype ChatPayload = ChatPayload(id: Option<string>, text: string)

  /** A stored chat message; only `reactions` ever changes after it is stored. */
  datatype Message = Message(
    id: string,
    text: string,
    sender: string,
    senderId: ConnId,
    timestamp: Time,
    reactions: ReactionMap)

  /** Events a client sends; `Connect` and `Disconnect` stand for the transport's own events. */
  datatype Inbound =
    | Connect
    | RegisterUser(username: string)
    | ChatMessage(payload: ChatPayload)
    | AddReaction(messageId: string, reaction: string)
    | Typing
    | StopTyping
    | Disconnect

  /** Events the server sends. */
  datatype Outbound =
    | InitMessages(history: seq<Message>)
    | UserJoined(username: string, id: ConnId, timestamp: Time)
    | UserLeft(username: string, id: ConnId, timestamp: Time)
    | BroadcastMessage(message: Message)
    | UpdateReactions(messageId: string, reactions: ReactionMap)
    | UserTyping(username: string, id: ConnId)
    | UserStopTyping(id: ConnId)

  /** Who receives an emission: `io.emit`, `socket.broadcast.emit` or `socket.emit`. */
  datatype Recipients = All | AllExcept(excluded: ConnId) | Only(target: ConnId)

  datatype Emission = Emission(to: Recipients, event: Outbound)

  /** Whether connection `d` receives an emission addressed to `to`. */
  predicate Receives(to: Recipients, d: ConnId) {
    match to
    case All => true
    case AllExcept(c) => d != c
    case Only(c) => d == c
  }
}
