/** Properties of the server over sequences of events, one event handled to completion at a time. */
module ServerRuns {
  import opened Wrappers
  import opened Reactions
  import opened Protocol
  import opened Server

  /** One inbound event together with the clock reading and generated id its handler sees. */
  datatype Input = Input(conn: ConnId, event: Inbound, now: Time, freshId: string)

  /** The state after handling `trace` in order. */
  function Run(s: ServerState, trace: seq<Input>): ServerState
    decreases |trace|
  {
    if trace == [] then s
    else
      var i := trace[0];
      Run(Step(s, i.conn, i.event, i.now, i.freshId).state, trace[1..])
  }

  lemma LogExtendsTrans(a: seq<Message>, b: seq<Message>, c: seq<Message>)
    requires LogExtends(a, b) && LogExtends(b, c)
    ensures LogExtends(a, c)
  {
  }

  /** The log is append-only under any trace: earlier messages keep their place and everything but their reactions. */
  lemma {:induction false} RunAppendOnly(s: ServerState, trace: seq<Input>)
    ensures LogExtends(s.messages, Run(s, trace).messages)
    decreases |trace|
  {
    if trace != [] {
      var i := trace[0];
      var s1 := Step(s, i.conn, i.event, i.now, i.freshId).state;
      RunAppendOnly(s1, trace[1..]);
      LogExtendsTrans(s.messages, s1.messages, Run(s, trace).messages);
    }
  }

  /** Any trace whose generated ids are non-empty keeps the server invariant. */
  lemma {:induction false} RunKeepsInv(s: ServerState, trace: seq<Input>)
    requires Inv(s)
    requires forall k :: 0 <= k < |trace| ==> trace[k].freshId != ""
    ensures Inv(Run(s, trace))
    decreases |trace|
  {
    if trace != [] {
      var i := trace[0];
      StepKeepsInv(s, i.conn, i.event, i.now, i.freshId);
      RunKeepsInv(Step(s, i.conn, i.event, i.now, i.freshId).state, trace[1..]);
    }
  }

  /** Every input of `trace` is a `register_user` on connection `c`. */
  predicate AllRegistrationsOf(trace: seq<Input>, c: ConnId) {
    forall k :: 0 <= k < |trace| ==> trace[k].conn == c && trace[k].event.RegisterUser?
  }

  /** After any run of registrations on one connection, the registry holds the most recent name for it and nothing else changed. */
  lemma {:induction false} RunRegisterLastWins(s: ServerState, c: ConnId, trace: seq<Input>)
    requires trace != []
    requires AllRegistrationsOf(trace, c)
    ensures c in Run(s, trace).users
    ensures Run(s, trace).users[c].username == trace[|trace| - 1].event.username
    ensures Run(s, trace).users - {c} == s.users - {c}
    ensures Run(s, trace).messages == s.messages
    decreases |trace|
  {
    var i := trace[0];
    var s1 := Step(s, i.conn, i.event, i.now, i.freshId).state;
    assert s1.users - {c} == s.users - {c};
    if |trace| > 1 {
      assert AllRegistrationsOf(trace[1..], c) by {
        forall k | 0 <= k < |trace[1..]| ensures trace[1..][k].conn == c && trace[1..][k].event.RegisterUser? {
          assert trace[1..][k] == trace[k + 1];
        }
      }
      RunRegisterLastWins(s1, c, trace[1..]);
      assert trace[1..][|trace[1..]| - 1] == trace[|trace| - 1];
    } else {
      assert trace[1..] == [];
    }
  }

  /** Every input of `trace` is an `add_reaction`. */
  predicate AllReactions(trace: seq<Input>) {
    forall k :: 0 <= k < |trace| ==> trace[k].event.AddReaction?
  }

  /** Reaction toggles, from any connections, never add, drop or reorder messages, nor change anything but reactions. */
  lemma {:induction false} RunReactionsKeepOrder(s: ServerState, trace: seq<Input>)
    requires AllReactions(trace)
    ensures |Run(s, trace).messages| == |s.messages|
    ensures forall k :: 0 <= k < |s.messages| ==> Body(Run(s, trace).messages[k]) == Body(s.messages[k])
    ensures Run(s, trace).users == s.users
    decreases |trace|
  {
    if trace != [] {
      var i := trace[0];
      var s1 := Step(s, i.conn, i.event, i.now, i.freshId).state;
      assert AllReactions(trace[1..]) by {
        forall k | 0 <= k < |trace[1..]| ensures trace[1..][k].event.AddReaction? {
          assert trace[1..][k] == trace[k + 1];
        }
      }
      RunReactionsKeepOrder(s1, trace[1..]);
    }
  }

  /**
   * Two identical `add_reaction` events from one connection in a row: every message keeps
   * its set of active (emoji, user) pairs, and when the first event added the reaction the
   * whole state is restored exactly.
   */
  lemma AddReactionTwice(s: ServerState, c: ConnId, messageId: string, emoji: string, now: Time, freshId: string)
    requires Inv(s)
    ensures var s2 := Step(Step(s, c, AddReaction(messageId, emoji), now, freshId).state, c, AddReaction(messageId, emoji), now, freshId).state;
            && s2.users == s.users
            && |s2.messages| == |s.messages|
            && (forall k :: 0 <= k < |s.messages| ==>
                  Body(s2.messages[k]) == Body(s.messages[k]) && Pairs(s2.messages[k].reactions) == Pairs(s.messages[k].reactions))
            && (FindMessage(s.messages, messageId).Some? ==>
                  var m := s.messages[FindMessage(s.messages, messageId).value];
                  !HasUser(ListOf(m.reactions, emoji), c) ==> s2 == s)
  {
    var ev := AddReaction(messageId, emoji);
    var s1 := OnAddReaction(s, c, messageId, emoji).state;
    assert Step(s, c, ev, now, freshId).state == s1;
    assert Step(s1, c, ev, now, freshId).state == OnAddReaction(s1, c, messageId, emoji).state;
    if FindMessage(s.messages, messageId).Some? {
      HandlerTwice(s, c, messageId, emoji, FindMessage(s.messages, messageId).value);
    }
  }

  /** Toggling a reaction changes no message id, so the same message is found again. */
  lemma FindAfterToggle(s: ServerState, c: ConnId, messageId: string, emoji: string, i: nat)
    requires FindMessage(s.messages, messageId) == Some(i)
    ensures FindMessage(OnAddReaction(s, c, messageId, emoji).state.messages, messageId) == Some(i)
  {
    var log := OnAddReaction(s, c, messageId, emoji).state.messages;
    assert forall k :: 0 <= k < |s.messages| ==> log[k].id == s.messages[k].id;
    var r := FindMessage(log, messageId);
    assert r.Some? by { assert log[i].id == messageId; }
    assert r.value == i;
  }

  /** The handler run twice on a message that exists: only that message's reactions change, and they get their pairs back. */
  lemma HandlerTwice(s: ServerState, c: ConnId, messageId: string, emoji: string, i: nat)
    requires Inv(s)
    requires FindMessage(s.messages, messageId) == Some(i)
    ensures var s2 := OnAddReaction(OnAddReaction(s, c, messageId, emoji).state, c, messageId, emoji).state;
            && s2.users == s.users
            && |s2.messages| == |s.messages|
            && (forall k :: 0 <= k < |s.messages| ==>
                  Body(s2.messages[k]) == Body(s.messages[k]) && Pairs(s2.messages[k].reactions) == Pairs(s.messages[k].reactions))
            && (!HasUser(ListOf(s.messages[i].reactions, emoji), c) ==> s2 == s)
  {
    var s1 := OnAddReaction(s, c, messageId, emoji).state;
    var s2 := OnAddReaction(s1, c, messageId, emoji).state;
    var who := Reactor(c, SenderName(s.users, c));
    var m := s.messages[i];
    FindAfterToggle(s, c, messageId, emoji, i);
    var twice := Toggle(Toggle(m.reactions, emoji, who), emoji, who);
    assert s2.messages[i] == m.(reactions := twice);
    ToggleTwicePairs(m.reactions, emoji, who);
    forall k | 0 <= k < |s.messages|
      ensures Body(s2.messages[k]) == Body(s.messages[k]) && Pairs(s2.messages[k].reactions) == Pairs(s.messages[k].reactions)
    {
      if k != i {
        assert s2.messages[k] == s1.messages[k] == s.messages[k];
      }
    }
    if !HasUser(ListOf(m.reactions, emoji), c) {
      ToggleTwiceAfterAdd(m.reactions, emoji, who);
      assert s2.messages == s.messages;
    }
  }
}
