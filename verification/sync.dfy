/**
 * How the server's emissions land in a client: the event protocol keeps a client's message
 * list equal to the server's log, and the client's requests have the effect the UI expects.
 */
module Sync {
  import opened Wrappers
  import opened JsText
  import opened Reactions
  import opened Protocol
  import opened Server
  import opened PresenceLists
  import opened ChatRoom
  import MessageReactions
  import MessageList

  /** A stored message as the client receives it. */
  function ToView(m: Message): ClientMessage {
    ClientMessage(m.id, m.text, m.sender, m.senderId, m.timestamp, Some(m.reactions))
  }

  function ToViews(log: seq<Message>): (views: seq<ClientMessage>)
    ensures |views| == |log|
    ensures forall k :: 0 <= k < |log| ==> views[k] == ToView(log[k])
  {
    seq(|log|, k requires 0 <= k < |log| => ToView(log[k]))
  }

  /** The client listener an outbound event triggers. */
  function Deliver(ev: Outbound): ClientEvent {
    match ev
    case InitMessages(history) => InitMessagesIn(ToViews(history))
    case UserJoined(name, id, t) => UserJoinedIn(Presence(name, id, t))
    case UserLeft(name, id, t) => UserLeftIn(Presence(name, id, t))
    case BroadcastMessage(m) => ChatMessageIn(ToView(m))
    case UpdateReactions(mid, rs) => UpdateReactionsIn(mid, rs)
    case UserTyping(name, id) => UserTypingIn(TypingEntry(name, id))
    case UserStopTyping(id) => UserStopTypingIn(id)
  }

  /** The client of connection `d` after the emissions addressed to it. */
  function ReceiveAll(st: ClientState, d: ConnId, out: seq<Emission>): ClientState
    decreases |out|
  {
    if out == [] then st
    else ReceiveAll(if Receives(out[0].to, d) then Reduce(st, Deliver(out[0].event)) else st, d, out[1..])
  }

  /** A single emission reaches connection `d` exactly when its recipients include `d`. */
  lemma ReceiveOne(st: ClientState, d: ConnId, e: Emission)
    ensures ReceiveAll(st, d, [e]) == if Receives(e.to, d) then Reduce(st, Deliver(e.event)) else st
  {
    assert [e][1..] == [];
  }

  /** No two stored messages share an id. */
  predicate DistinctMessageIds(log: seq<Message>) {
    forall j, k :: 0 <= j < k < |log| ==> log[j].id != log[k].id
  }

  /** The client's message list shows exactly the server's log. */
  predicate Mirrors(view: seq<ClientMessage>, log: seq<Message>) {
    view == ToViews(log)
  }

  /** The history sent on connect makes the newcomer's list mirror the log, whatever it showed before. */
  lemma ConnectMirrors(s: ServerState, c: ConnId, st: ClientState, now: Time, freshId: string)
    ensures Mirrors(ReceiveAll(st, c, Step(s, c, Connect, now, freshId).out).messages, s.messages)
  {
    var out := Step(s, c, Connect, now, freshId).out;
    assert out[1..] == [];
  }

  /**
   * While the stored ids are distinct, every server step keeps a mirroring client mirroring;
   * a client addressed by none of the emissions, or by ones that do not touch messages,
   * still mirrors because the log did not change for it.
   */
  lemma StepKeepsMirror(s: ServerState, c: ConnId, ev: Inbound, now: Time, freshId: string, st: ClientState, d: ConnId)
    requires Mirrors(st.messages, s.messages)
    requires DistinctMessageIds(s.messages)
    ensures var o := Step(s, c, ev, now, freshId);
            Mirrors(ReceiveAll(st, d, o.out).messages, o.state.messages)
  {
    match ev
    case ChatMessage(p) =>
      var o := Step(s, c, ev, now, freshId);
      ChatReaches(s, c, p, now, freshId, st, d);
      var m := o.state.messages[|s.messages|];
      assert ToViews(o.state.messages) == ToViews(s.messages) + [ToView(m)];
    case AddReaction(mid, emoji) =>
      AddReactionKeepsMirror(s, c, mid, emoji, now, freshId, st, d);
    case _ =>
      LogUntouchedKeepsMirror(s, c, ev, now, freshId, st, d);
  }

  /** An `add_reaction` step, when ids are distinct, keeps every mirroring client mirroring. */
  lemma AddReactionKeepsMirror(s: ServerState, c: ConnId, mid: string, emoji: string, now: Time, freshId: string,
                               st: ClientState, d: ConnId)
    requires Mirrors(st.messages, s.messages)
    requires DistinctMessageIds(s.messages)
    ensures var o := Step(s, c, AddReaction(mid, emoji), now, freshId);
            Mirrors(ReceiveAll(st, d, o.out).messages, o.state.messages)
  {
    var o := OnAddReaction(s, c, mid, emoji);
    assert Step(s, c, AddReaction(mid, emoji), now, freshId) == o;
    if FindMessage(s.messages, mid).Some? {
      var i := FindMessage(s.messages, mid).value;
      ReceiveOne(st, d, o.out[0]);
      ReplaceKeepsMirror(st.messages, s.messages, o.state.messages, i, mid);
    }
  }

  /** The steps that leave the log alone send nothing that changes a client's messages, except the history on connect. */
  lemma LogUntouchedKeepsMirror(s: ServerState, c: ConnId, ev: Inbound, now: Time, freshId: string, st: ClientState, d: ConnId)
    requires Mirrors(st.messages, s.messages)
    requires !ev.ChatMessage? && !ev.AddReaction?
    ensures var o := Step(s, c, ev, now, freshId);
            Mirrors(ReceiveAll(st, d, o.out).messages, o.state.messages)
  {
    var o := Step(s, c, ev, now, freshId);
    assert o.state.messages == s.messages;
    if o.out != [] {
      assert o.out == [o.out[0]];
      ReceiveOne(st, d, o.out[0]);
    }
  }

  /** Replacing the reactions of the one message with the id keeps a mirror when the server changed only that message's reactions. */
  lemma ReplaceKeepsMirror(view: seq<ClientMessage>, log: seq<Message>, log': seq<Message>, i: nat, mid: string)
    requires Mirrors(view, log)
    requires DistinctMessageIds(log)
    requires i < |log| == |log'| && log[i].id == mid
    requires log'[i] == log[i].(reactions := log'[i].reactions)
    requires forall k :: 0 <= k < |log| && k != i ==> log'[k] == log[k]
    ensures Mirrors(ReplaceReactions(view, mid, log'[i].reactions), log')
  {
    var view' := ReplaceReactions(view, mid, log'[i].reactions);
    forall k | 0 <= k < |log| ensures view'[k] == ToView(log'[k]) {
      if k != i {
        assert log[k].id != mid;
      }
    }
  }

  /** With duplicate ids the client's update reaches both copies while the server toggled only the first, so the views part. */
  lemma DuplicateIdsDiverge()
    ensures var m := Message("x", "hi", "alice", "c1", 0, map[]);
            var s := ServerState(map[], [m, m]);
            var st := Initial("alice").(messages := ToViews(s.messages));
            var o := Step(s, "c1", AddReaction("x", "+1"), 0, "1");
            Mirrors(st.messages, s.messages)
            && !Mirrors(ReceiveAll(st, "c1", o.out).messages, o.state.messages)
  {
    var m := Message("x", "hi", "alice", "c1", 0, map[]);
    var s := ServerState(map[], [m, m]);
    var st := Initial("alice").(messages := ToViews(s.messages));
    var o := Step(s, "c1", AddReaction("x", "+1"), 0, "1");
    assert FindMessage(s.messages, "x") == Some(0);
    var rs := o.state.messages[0].reactions;
    assert "+1" in rs;
    assert o.state.messages[1] == m;
    assert o.out == [Emission(All, UpdateReactions("x", rs))];
    assert o.out[1..] == [];
    var st' := Reduce(st, UpdateReactionsIn("x", rs));
    assert ReceiveAll(st, "c1", o.out) == ReceiveAll(st', "c1", []) == st';
    var view := st'.messages;
    assert view[1].reactions == Some(rs);
    assert ToViews(o.state.messages)[1].reactions == Some(map[]);
  }

  /** The `user_joined` for the local name gives the client its connection id, after which its own messages are recognised by id. */
  lemma RegisterClaimsId(s: ServerState, c: ConnId, st: ClientState, now: Time, freshId: string)
    ensures var o := Step(s, c, RegisterUser(st.localName), now, freshId);
            var st' := ReceiveAll(st, c, o.out);
            && st'.currentUser.id == Some(c)
            && c in Ids(st'.usersJoined)
  {
    var o := OnRegister(s, c, st.localName, now);
    assert Step(s, c, RegisterUser(st.localName), now, freshId) == o;
    var e := Emission(All, UserJoined(st.localName, c, now));
    assert o.out == [e];
    ReceiveOne(st, c, e);
    var u := Presence(st.localName, c, now);
    assert Deliver(e.event) == UserJoinedIn(u);
  }

  /** A name clash: another connection registering the local name takes over the local id, so that user's messages count as own. */
  lemma SameNameTakesId(s: ServerState, st: ClientState, other: ConnId, now: Time, freshId: string)
    requires st.currentUser.id.Some? && st.currentUser.id.value != other
    ensures var o := Step(s, other, RegisterUser(st.localName), now, freshId);
            ReceiveAll(st, st.currentUser.id.value, o.out).currentUser.id == Some(other)
  {
    var o := Step(s, other, RegisterUser(st.localName), now, freshId);
    assert o.out[1..] == [];
  }

  /**
   * A message sent through the input: a blank text sends nothing; otherwise the server stores
   * it under the client's generated id with the text untouched, and the sender's client,
   * once it knows its id, shows it as its own.
   */
  lemma SendStoresWithClientId(s: ServerState, c: ConnId, text: string, clock: string, suffix: string,
                               now: Time, freshId: string, st: ClientState)
    requires Mirrors(st.messages, s.messages)
    requires st.currentUser.id == Some(c)
    ensures AllWhitespace(text) ==> SendMessage(text, clock, suffix).None?
    ensures !AllWhitespace(text) ==>
              var o := Step(s, c, ChatMessage(SendMessage(text, clock, suffix).value), now, freshId);
              var m := o.state.messages[|s.messages|];
              var view := ReceiveAll(st, c, o.out).messages;
              && m.id == GeneratedId(clock, suffix)
              && m.text == text
              && m.senderId == c
              && |view| == |s.messages| + 1
              && MessageList.IsOwnMessage(Some(st.currentUser), Some(view[|s.messages|]))
  {
    if !AllWhitespace(text) {
      var p := SendMessage(text, clock, suffix).value;
      ChatReaches(s, c, p, now, freshId, st, c);
    }
  }

  /** A `chat message` event, seen from any client: the broadcast appends the stored message to its list. */
  lemma ChatReaches(s: ServerState, c: ConnId, p: ChatPayload, now: Time, freshId: string, st: ClientState, d: ConnId)
    ensures var o := Step(s, c, ChatMessage(p), now, freshId);
            && |o.state.messages| == |s.messages| + 1
            && ReceiveAll(st, d, o.out).messages == AppendMessage(st.messages, ToView(o.state.messages[|s.messages|]))
  {
    var o := OnChatMessage(s, c, p, now, freshId);
    assert Step(s, c, ChatMessage(p), now, freshId) == o;
    var e := Emission(All, BroadcastMessage(o.state.messages[|s.messages|]));
    assert o.out == [e];
    ReceiveOne(st, d, e);
  }

  /**
   * A click on a reaction button, on a client that mirrors the log and knows its id, flips
   * that button's highlight once the server's update comes back.
   */
  lemma ClickFlipsHighlight(s: ServerState, c: ConnId, st: ClientState, i: nat, emoji: string, now: Time, freshId: string)
    requires Inv(s)
    requires Mirrors(st.messages, s.messages)
    requires DistinctMessageIds(s.messages)
    requires st.currentUser.id == Some(c)
    requires i < |st.messages|
    ensures var o := Step(s, c, MessageReactions.Click(st.messages[i], emoji), now, freshId);
            var st' := ReceiveAll(st, c, o.out);
            |st'.messages| == |st.messages|
            && MessageReactions.HasUserReacted(st'.messages[i].reactions, emoji, Some(c))
               == !MessageReactions.HasUserReacted(st.messages[i].reactions, emoji, Some(c))
  {
    var mid := st.messages[i].id;
    var o := Step(s, c, MessageReactions.Click(st.messages[i], emoji), now, freshId);
    assert FindMessage(s.messages, mid) == Some(i) by {
      assert s.messages[i].id == mid;
    }
    StepKeepsMirror(s, c, MessageReactions.Click(st.messages[i], emoji), now, freshId, st, c);
    var who := Reactor(c, SenderName(s.users, c));
    MessageReactions.ToggleFlipsHighlight(s.messages[i].reactions, emoji, who);
  }

  /** A registered typist shows up in every other client's typing map and never in its own; `stop typing` clears it again. */
  lemma TypingReachesOthers(s: ServerState, c: ConnId, st: ClientState, d: ConnId, now: Time, freshId: string)
    requires c in s.users
    ensures var st' := ReceiveAll(st, d, Step(s, c, Typing, now, freshId).out);
            && (d != c ==> c in st'.typingUsers && st'.typingUsers[c] == TypingEntry(s.users[c].username, c))
            && (d == c ==> st' == st)
            && (d != c ==> c !in ReceiveAll(st', d, Step(s, c, StopTyping, now, freshId).out).typingUsers)
  {
    var o := Step(s, c, Typing, now, freshId);
    assert o.out[1..] == [];
    var o2 := Step(s, c, StopTyping, now, freshId);
    assert o2.out[1..] == [];
  }

  /** An unregistered typist reaches nobody. */
  lemma UnregisteredTypingSilent(s: ServerState, c: ConnId, st: ClientState, d: ConnId, now: Time, freshId: string)
    requires c !in s.users
    ensures ReceiveAll(st, d, Step(s, c, Typing, now, freshId).out) == st
  {
  }

  /**
   * A registered user's disconnect leaves every client with that id among the left users and
   * out of the joined list; an unregistered one's disconnect reaches nobody.
   */
  lemma DisconnectReachesClients(s: ServerState, c: ConnId, st: ClientState, d: ConnId, now: Time, freshId: string)
    ensures var st' := ReceiveAll(st, d, Step(s, c, Disconnect, now, freshId).out);
            && (c in s.users ==> c !in Ids(st'.usersJoined) && c in Ids(st'.usersLeft))
            && (c !in s.users ==> st' == st)
  {
    var o := Step(s, c, Disconnect, now, freshId);
    if c in s.users {
      assert o.out[1..] == [];
    }
  }
}
