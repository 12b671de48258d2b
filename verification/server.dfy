/**
 * The server's session and message engine: the registry of connected users, the append-only
 * message log, and one pure handler per inbound event returning the new state and the
 * emissions, each tagged with its recipients.
 */
module Server {
  import opened Wrappers
  import opened Reactions
  import opened Protocol

  /** A registry entry. */
  datatype UserRecord = UserRecord(username: string, id: ConnId, joinedAt: Time)

  /** The process-wide `users` object and `messages` array. */
  datatype ServerState = ServerState(users: map<ConnId, UserRecord>, messages: seq<Message>)

  /** The state after one event and what it sent. */
  datatype Outcome = Outcome(state: ServerState, out: seq<Emission>)

  const Empty := ServerState(map[], [])

  const Anonymous := "Anonymous"

  /** `users[c]?.username || 'Anonymous'`: an unregistered connection or an empty name falls back to Anonymous. */
  function SenderName(users: map<ConnId, UserRecord>, c: ConnId): (name: string)
    ensures c in users && users[c].username != "" ==> name == users[c].username
    ensures c !in users || users[c].username == "" ==> name == Anonymous
  {
    if c in users && users[c].username != "" then users[c].username else Anonymous
  }

  /** JavaScript truthiness of an optional string id: present and non-empty. */
  predicate Truthy(id: Option<string>) {
    id.Some? && id.value != ""
  }

  /** `messages.findIndex(msg => msg.id === id)`: the first message with that id, or None for -1. */
  function FindMessage(messages: seq<Message>, id: string): (r: Option<nat>)
    ensures r.None? <==> forall k :: 0 <= k < |messages| ==> messages[k].id != id
    ensures r.Some? ==> r.value < |messages| && messages[r.value].id == id
    ensures r.Some? ==> forall k :: 0 <= k < r.value ==> messages[k].id != id
  {
    if |messages| == 0 then None
    else if messages[0].id == id then Some(0)
    else match FindMessage(messages[1..], id)
      case None => None
      case Some(i) => Some(i + 1)
  }

  /** On connect the newcomer alone receives the whole history; nothing changes. */
  function OnConnect(s: ServerState, c: ConnId): (o: Outcome)
    ensures o.state == s
    ensures |o.out| == 1 && o.out[0].to == Only(c)
    ensures o.out[0].event == InitMessages(s.messages)
  {
    Outcome(s, [Emission(Only(c), InitMessages(s.messages))])
  }

  /** `register_user`: the entry for `c` is (over)written, every other entry kept, and a join goes to everyone. */
  function OnRegister(s: ServerState, c: ConnId, username: string, now: Time): (o: Outcome)
    ensures o.state.users.Keys == s.users.Keys + {c}
    ensures o.state.users[c].username == username && o.state.users[c].id == c
    ensures forall d :: d in s.users && d != c ==> o.state.users[d] == s.users[d]
    ensures o.state.messages == s.messages
    ensures o.out == [Emission(All, UserJoined(username, c, now))]
  {
    Outcome(s.(users := s.users[c := UserRecord(username, c, now)]),
            [Emission(All, UserJoined(username, c, now))])
  }

  /**
   * `chat message`: exactly one message is appended, carrying the client's id when it is
   * truthy and `freshId` otherwise, the registered name (or Anonymous), the sender's
   * connection and no reactions; it goes to everyone. No check is made on the text.
   */
  function OnChatMessage(s: ServerState, c: ConnId, payload: ChatPayload, now: Time, freshId: string): (o: Outcome)
    ensures o.state.users == s.users
    ensures |o.state.messages| == |s.messages| + 1
    ensures o.state.messages[..|s.messages|] == s.messages
    ensures var m := o.state.messages[|s.messages|];
            && m.id == (if Truthy(payload.id) then payload.id.value else freshId)
            && m.text == payload.text
            && m.sender == SenderName(s.users, c)
            && m.senderId == c
            && m.timestamp == now
            && m.reactions == map[]
            && o.out == [Emission(All, BroadcastMessage(m))]
  {
    var m := Message(
      if Truthy(payload.id) then payload.id.value else freshId,
      payload.text,
      SenderName(s.users, c),
      c,
      now,
      map[]);
    Outcome(s.(messages := s.messages + [m]), [Emission(All, BroadcastMessage(m))])
  }

  /**
   * `add_reaction`: an unknown message id changes nothing and sends nothing; otherwise only
   * the first message with that id has its reactions toggled for `c`, and the full
   * resulting map goes to everyone.
   */
  function OnAddReaction(s: ServerState, c: ConnId, messageId: string, emoji: string): (o: Outcome)
    ensures o.state.users == s.users
    ensures |o.state.messages| == |s.messages|
    ensures FindMessage(s.messages, messageId).None? ==> o == Outcome(s, [])
    ensures FindMessage(s.messages, messageId).Some? ==>
              var i := FindMessage(s.messages, messageId).value;
              && (forall k :: 0 <= k < |s.messages| && k != i ==> o.state.messages[k] == s.messages[k])
              && o.state.messages[i] == s.messages[i].(reactions := Toggle(s.messages[i].reactions, emoji, Reactor(c, SenderName(s.users, c))))
              && o.out == [Emission(All, UpdateReactions(messageId, o.state.messages[i].reactions))]
  {
    match FindMessage(s.messages, messageId)
    case None => Outcome(s, [])
    case Some(i) =>
      var m := s.messages[i];
      var m' := m.(reactions := Toggle(m.reactions, emoji, Reactor(c, SenderName(s.users, c))));
      Outcome(s.(messages := s.messages[i := m']), [Emission(All, UpdateReactions(messageId, m'.reactions))])
  }

  /** `typing`: relayed to everyone but the typist, and only when the typist is registered. */
  function OnTyping(s: ServerState, c: ConnId): (o: Outcome)
    ensures o.state == s
    ensures c !in s.users ==> o.out == []
    ensures c in s.users ==> o.out == [Emission(AllExcept(c), UserTyping(s.users[c].username, c))]
  {
    if c in s.users then Outcome(s, [Emission(AllExcept(c), UserTyping(s.users[c].username, c))])
    else Outcome(s, [])
  }

  /** `stop typing`: relayed to everyone but the sender, registered or not. */
  function OnStopTyping(s: ServerState, c: ConnId): (o: Outcome)
    ensures o.state == s
    ensures o.out == [Emission(AllExcept(c), UserStopTyping(c))]
  {
    Outcome(s, [Emission(AllExcept(c), UserStopTyping(c))])
  }

  /** `disconnect`: a registered connection is removed and announced; an unregistered one changes and sends nothing. */
  function OnDisconnect(s: ServerState, c: ConnId, now: Time): (o: Outcome)
    ensures o.state.messages == s.messages
    ensures c !in o.state.users
    ensures o.state.users == s.users - {c}
    ensures c !in s.users ==> o == Outcome(s, [])
    ensures c in s.users ==> o.out == [Emission(All, UserLeft(s.users[c].username, c, now))]
  {
    if c in s.users then
      Outcome(s.(users := s.users - {c}), [Emission(All, UserLeft(s.users[c].username, c, now))])
    else
      assert s.users - {c} == s.users;
      Outcome(s, [])
  }

  /** The message with its one mutable field blanked: what must never change once stored. */
  function Body(m: Message): Message {
    m.(reactions := map[])
  }

  /** `b` is `a` with possibly more messages appended and possibly different reactions. */
  predicate LogExtends(a: seq<Message>, b: seq<Message>) {
    |a| <= |b| && forall k :: 0 <= k < |a| ==> Body(a[k]) == Body(b[k])
  }

  /** Dispatch one inbound event on connection `c`; the clock reading and generated id are parameters. */
  function Step(s: ServerState, c: ConnId, ev: Inbound, now: Time, freshId: string): (o: Outcome)
    ensures |o.out| <= 1
    ensures !ev.RegisterUser? && !ev.Disconnect? ==> o.state.users == s.users
    ensures !ev.ChatMessage? ==> |o.state.messages| == |s.messages|
    ensures LogExtends(s.messages, o.state.messages)
  {
    match ev
    case Connect => OnConnect(s, c)
    case RegisterUser(name) => OnRegister(s, c, name, now)
    case ChatMessage(payload) => OnChatMessage(s, c, payload, now, freshId)
    case AddReaction(mid, emoji) => OnAddReaction(s, c, mid, emoji)
    case Typing => OnTyping(s, c)
    case StopTyping => OnStopTyping(s, c)
    case Disconnect => OnDisconnect(s, c, now)
  }

  /** The server's invariant: registry entries are keyed by their own id, stored reactions are well formed, ids are non-empty. */
  predicate Inv(s: ServerState) {
    && (forall d :: d in s.users ==> s.users[d].id == d)
    && (forall k :: 0 <= k < |s.messages| ==> WellFormed(s.messages[k].reactions) && s.messages[k].id != "")
  }

  /** Every handler keeps the invariant, given that the generated id is non-empty, as `Date.now().toString()` always is. */
  lemma StepKeepsInv(s: ServerState, c: ConnId, ev: Inbound, now: Time, freshId: string)
    requires Inv(s)
    requires freshId != ""
    ensures Inv(Step(s, c, ev, now, freshId).state)
  {
    var s' := Step(s, c, ev, now, freshId).state;
    match ev
    case AddReaction(mid, emoji) =>
      if FindMessage(s.messages, mid).Some? {
        var i := FindMessage(s.messages, mid).value;
        assert WellFormed(s.messages[i].reactions);
        assert forall k :: 0 <= k < |s'.messages| ==> Body(s'.messages[k]) == Body(s.messages[k]);
      }
    case ChatMessage(payload) =>
      assert forall k :: 0 <= k < |s.messages| ==> s'.messages[k] == s.messages[k];
    case _ =>
  }
}
