/**
 * The chat room's client state and the pure `prev -> next` updates its socket listeners
 * pass to `setState`, plus the guard on sending a message.
 */
module ChatRoom {
  import opened Wrappers
  import opened JsText
  import opened Reactions
  import opened PresenceLists
  import Protocol

  /** A message as the client holds it; `reactions` may be missing on a received message. */
  datatype ClientMessage = ClientMessage(
    id: string,
    text: string,
    sender: string,
    senderId: string,
    timestamp: Protocol.Time,
    reactions: Option<ReactionMap>)

  /** A `user_typing` payload. */
  datatype TypingEntry = TypingEntry(username: string, id: string)

  /** The local user; `id` stays null (None) until the server's join for this name arrives. */
  datatype CurrentUser = CurrentUser(username: string, id: Option<string>)

  /** A `message_reaction` payload. */
  datatype ReactionData = ReactionData(messageId: string, reaction: string, userId: string, username: string)

  /** The component's state hooks, with the `username` prop it was mounted with. */
  datatype ClientState = ClientState(
    localName: string,
    messages: seq<ClientMessage>,
    usersJoined: seq<Presence>,
    usersLeft: seq<Presence>,
    typingUsers: map<string, TypingEntry>,
    currentUser: CurrentUser)

  /** The socket events the component listens to. */
  datatype ClientEvent =
    | InitMessagesIn(history: seq<ClientMessage>)
    | ChatMessageIn(message: ClientMessage)
    | UpdateReactionsIn(messageId: string, reactions: ReactionMap)
    | MessageReactionIn(data: ReactionData)
    | UserJoinedIn(user: Presence)
    | UserLeftIn(user: Presence)
    | UserTypingIn(entry: TypingEntry)
    | UserStopTypingIn(id: string)

  /** The state right after mounting, before any event: the `useState` initial values of client/src/components/ChatRoom.jsx:8-12. */
  function Initial(localName: string): ClientState {
    ClientState(localName, [], [], [], map[], CurrentUser(localName, None))
  }

  /** `chat message`: exactly one message goes at the end, with missing reactions defaulted to none. */
  function AppendMessage(prev: seq<ClientMessage>, m: ClientMessage): (r: seq<ClientMessage>)
    ensures |r| == |prev| + 1 && r[..|prev|] == prev
    ensures r[|prev|].(reactions := m.reactions) == m
    ensures m.reactions.Some? ==> r[|prev|].reactions == m.reactions
    ensures m.reactions.None? ==> r[|prev|].reactions == Some(map[])
  {
    prev + [m.(reactions := Some(m.reactions.GetOr(map[])))]
  }

  /** `update_reactions`: every message with the id takes the new map; order, length and all other messages are kept. */
  function ReplaceReactions(prev: seq<ClientMessage>, messageId: string, rs: ReactionMap): (r: seq<ClientMessage>)
    ensures |r| == |prev|
    ensures forall k :: 0 <= k < |prev| && prev[k].id == messageId ==> r[k] == prev[k].(reactions := Some(rs))
    ensures forall k :: 0 <= k < |prev| && prev[k].id != messageId ==> r[k] == prev[k]
  {
    if prev == [] then []
    else
      var m := prev[0];
      [if m.id == messageId then m.(reactions := Some(rs)) else m] + ReplaceReactions(prev[1..], messageId, rs)
  }

  /** The reactor a `message_reaction` payload names. */
  function ReactorOf(data: ReactionData): Reactor {
    Reactor(data.userId, data.username)
  }

  /** `message_reaction`: the same toggle as the server's, applied to every message with the id, starting from none when reactions are missing. */
  function ToggleMatching(prev: seq<ClientMessage>, data: ReactionData): (r: seq<ClientMessage>)
    ensures |r| == |prev|
    ensures forall k :: 0 <= k < |prev| && prev[k].id == data.messageId ==>
              r[k] == prev[k].(reactions := Some(Toggle(prev[k].reactions.GetOr(map[]), data.reaction, ReactorOf(data))))
    ensures forall k :: 0 <= k < |prev| && prev[k].id != data.messageId ==> r[k] == prev[k]
  {
    if prev == [] then []
    else
      var m := prev[0];
      var m' := if m.id == data.messageId
                then m.(reactions := Some(Toggle(m.reactions.GetOr(map[]), data.reaction, ReactorOf(data))))
                else m;
      [m'] + ToggleMatching(prev[1..], data)
  }

  /** `filter(user => user.id !== id)`. */
  function WithoutId(list: seq<Presence>, id: string): (r: seq<Presence>)
    ensures Ids(r) == Ids(list) - {id}
    ensures DistinctIds(list) ==> DistinctIds(r)
  {
    WithoutIdsIds(list, {id});
    WithoutIdsDistinct(list, {id});
    WithoutIds(list, {id})
  }

  /** `user_typing`: the entry is stored under its id and every other key is untouched. */
  function SetTyping(prev: map<string, TypingEntry>, e: TypingEntry): (r: map<string, TypingEntry>)
    ensures e.id in r && r[e.id] == e
    ensures r - {e.id} == prev - {e.id}
  {
    prev[e.id := e]
  }

  /** `user_stop_typing`: the key is gone and every other key is untouched. */
  function ClearTyping(prev: map<string, TypingEntry>, id: string): (r: map<string, TypingEntry>)
    ensures id !in r
    ensures r.Keys == prev.Keys - {id}
    ensures forall k :: k in r ==> r[k] == prev[k]
  {
    prev - {id}
  }

  /** A stop right after a start forgets that user as if the start had not happened; a stop for an absent key changes nothing. */
  lemma ClearAfterSet(prev: map<string, TypingEntry>, e: TypingEntry)
    ensures ClearTyping(SetTyping(prev, e), e.id) == ClearTyping(prev, e.id)
    ensures e.id !in prev ==> ClearTyping(SetTyping(prev, e), e.id) == prev
  {
    assert SetTyping(prev, e) - {e.id} == prev - {e.id};
    if e.id !in prev {
      assert prev - {e.id} == prev;
    }
  }

  /** The `user_joined` update of the local user: a join whose name equals the local name claims its id. */
  function ClaimId(cu: CurrentUser, localName: string, u: Presence): (r: CurrentUser)
    ensures r.username == cu.username
    ensures u.username == localName ==> r.id == Some(u.id)
    ensures u.username != localName ==> r == cu
  {
    if u.username == localName then cu.(id := Some(u.id)) else cu
  }

  /** The presence lists hold no repeated ids. */
  predicate ClientInv(st: ClientState) {
    DistinctIds(st.usersJoined) && DistinctIds(st.usersLeft)
  }

  /** Apply one socket event to the component's state. */
  function Reduce(st: ClientState, ev: ClientEvent): (r: ClientState)
    ensures r.localName == st.localName
    ensures ClientInv(st) ==> ClientInv(r)
    ensures ev.UserJoinedIn? ==> ev.user.id in Ids(r.usersJoined) && r.usersLeft == st.usersLeft
    ensures ev.UserLeftIn? ==> ev.user.id !in Ids(r.usersJoined) && ev.user.id in Ids(r.usersLeft)
    ensures !ev.InitMessagesIn? && !ev.ChatMessageIn? ==> |r.messages| == |st.messages|
    ensures ev.UserJoinedIn? || ev.UserLeftIn? || ev.UserTypingIn? || ev.UserStopTypingIn? ==> r.messages == st.messages
    ensures !ev.UserTypingIn? && !ev.UserStopTypingIn? ==> r.typingUsers == st.typingUsers
    ensures !ev.UserJoinedIn? && !ev.UserLeftIn? ==> r.usersJoined == st.usersJoined && r.usersLeft == st.usersLeft
    ensures !ev.UserJoinedIn? ==> r.currentUser == st.currentUser
  {
    match ev
    case InitMessagesIn(history) => st.(messages := history)
    case ChatMessageIn(m) => st.(messages := AppendMessage(st.messages, m))
    case UpdateReactionsIn(mid, rs) => st.(messages := ReplaceReactions(st.messages, mid, rs))
    case MessageReactionIn(data) => st.(messages := ToggleMatching(st.messages, data))
    case UserJoinedIn(u) =>
      st.(usersJoined := AddOnce(st.usersJoined, u), currentUser := ClaimId(st.currentUser, st.localName, u))
    case UserLeftIn(u) =>
      st.(usersLeft := AddOnce(st.usersLeft, u), usersJoined := WithoutId(st.usersJoined, u.id))
    case UserTypingIn(e) => st.(typingUsers := SetTyping(st.typingUsers, e))
    case UserStopTypingIn(id) => st.(typingUsers := ClearTyping(st.typingUsers, id))
  }

  /** The id `sendMessage` generates: the clock digits, a dash, and a random suffix. */
  function GeneratedId(clock: string, suffix: string): (id: string)
    ensures id != ""
  {
    clock + "-" + suffix
  }

  /** `sendMessage`: a `chat message` carrying the generated id and the untrimmed text, sent only when the text is not blank. */
  function SendMessage(text: string, clock: string, suffix: string): (r: Option<Protocol.ChatPayload>)
    ensures r.Some? <==> !AllWhitespace(text)
    ensures r.Some? ==> r.value.text == text && r.value.id == Some(GeneratedId(clock, suffix))
  {
    TrimEmptyIff(text);
    if Trim(text) != [] then Some(Protocol.ChatPayload(Some(GeneratedId(clock, suffix)), text)) else None
  }

  /** On every message that is well formed, two identical `message_reaction` events restore its active (emoji, user) pairs. */
  lemma MessageReactionTwice(prev: seq<ClientMessage>, data: ReactionData)
    ensures var r := ToggleMatching(ToggleMatching(prev, data), data);
            && |r| == |prev|
            && (forall k :: 0 <= k < |prev| ==> r[k].(reactions := None) == prev[k].(reactions := None))
            && (forall k :: 0 <= k < |prev| && WellFormed(prev[k].reactions.GetOr(map[])) ==>
                  Pairs(r[k].reactions.GetOr(map[])) == Pairs(prev[k].reactions.GetOr(map[])))
  {
    var once := ToggleMatching(prev, data);
    var r := ToggleMatching(once, data);
    forall k | 0 <= k < |prev| && WellFormed(prev[k].reactions.GetOr(map[]))
      ensures Pairs(r[k].reactions.GetOr(map[])) == Pairs(prev[k].reactions.GetOr(map[]))
    {
      if prev[k].id == data.messageId {
        ToggleTwicePairs(prev[k].reactions.GetOr(map[]), data.reaction, ReactorOf(data));
      }
    }
  }
}
