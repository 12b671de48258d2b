/**
 * The reaction toggle shared by the server's `add_reaction` handler and the client's
 * `message_reaction` reducer: add the user if absent, remove them if present, and drop
 * the emoji key once its list is empty.
 */
module Reactions {
  import opened Wrappers

  /** One entry of an emoji's list: the connection that reacted and its display name. */
  datatype Reactor = Reactor(userId: string, username: string)

  /** A message's reactions: emoji key to the users who reacted with it, in reaction order. */
  type ReactionMap = map<string, seq<Reactor>>

  /** The list stored under `emoji`, treating a missing key as the empty list. */
  function ListOf(rm: ReactionMap, emoji: string): seq<Reactor> {
    if emoji in rm then rm[emoji] else []
  }

  /** Some entry of `list` belongs to `userId` (`list.some(r => r.userId === userId)`). */
  predicate HasUser(list: seq<Reactor>, userId: string) {
    exists k :: 0 <= k < |list| && list[k].userId == userId
  }

  /** No user occurs twice in `list`. */
  predicate UniqueUsers(list: seq<Reactor>) {
    forall j, k :: 0 <= j < k < |list| ==> list[j].userId != list[k].userId
  }

  /** The invariant the toggle keeps: no emoji maps to an empty list, and each (emoji, user) pair is listed at most once. */
  predicate WellFormed(rm: ReactionMap) {
    forall e :: e in rm ==> rm[e] != [] && UniqueUsers(rm[e])
  }

  /** The (emoji, userId) pairs that are currently active. */
  function Pairs(rm: ReactionMap): set<(string, string)> {
    set e, k | e in rm && 0 <= k < |rm[e]| :: (e, rm[e][k].userId)
  }

  /** `findIndex(r => r.userId === userId)`: the first position of the user, or None for -1. */
  function FindUser(list: seq<Reactor>, userId: string): (r: Option<nat>)
    ensures r.None? <==> !HasUser(list, userId)
    ensures r.Some? ==> r.value < |list| && list[r.value].userId == userId
    ensures r.Some? ==> forall k :: 0 <= k < r.value ==> list[k].userId != userId
  {
    if |list| == 0 then None
    else if list[0].userId == userId then Some(0)
    else match FindUser(list[1..], userId)
      case None => None
      case Some(i) => Some(i + 1)
  }

  /** `splice(i, 1)`: the list without its entry at `i`. */
  function RemoveAt(list: seq<Reactor>, i: nat): (r: seq<Reactor>)
    requires i < |list|
    ensures |r| == |list| - 1
    ensures forall k :: 0 <= k < i ==> r[k] == list[k]
    ensures forall k :: i <= k < |r| ==> r[k] == list[k + 1]
  {
    list[..i] + list[i + 1..]
  }

  /** Toggle `who`'s reaction `emoji`: the add branch appends, the remove branch splices out the user's first entry. */
  function Toggle(rm: ReactionMap, emoji: string, who: Reactor): (r: ReactionMap)
    ensures r - {emoji} == rm - {emoji}
    ensures !HasUser(ListOf(rm, emoji), who.userId) ==> emoji in r && r[emoji] == ListOf(rm, emoji) + [who]
    ensures HasUser(ListOf(rm, emoji), who.userId) ==>
              var list := ListOf(rm, emoji);
              var i := FindUser(list, who.userId).value;
              ListOf(r, emoji) == RemoveAt(list, i) && (emoji in r <==> |list| > 1)
    ensures WellFormed(rm) ==> WellFormed(r)
  {
    var list := ListOf(rm, emoji);
    match FindUser(list, who.userId)
    case None =>
      assert UniqueUsers(list) ==> UniqueUsers(list + [who]);
      rm[emoji := list + [who]]
    case Some(i) =>
      var rest := RemoveAt(list, i);
      assert UniqueUsers(list) ==> UniqueUsers(rest) by {
        if UniqueUsers(list) {
          forall j, k | 0 <= j < k < |rest| ensures rest[j].userId != rest[k].userId {
            var j' := if j < i then j else j + 1;
            var k' := if k < i then k else k + 1;
            assert rest[j] == list[j'] && rest[k] == list[k'];
          }
        }
      }
      if |rest| == 0 then rm - {emoji} else rm[emoji := rest]
  }

  /** A pair is active exactly when the user appears in that emoji's list. */
  lemma PairsMember(rm: ReactionMap, emoji: string, userId: string)
    ensures (emoji, userId) in Pairs(rm) <==> HasUser(ListOf(rm, emoji), userId)
  {
    if HasUser(ListOf(rm, emoji), userId) {
      var k :| 0 <= k < |rm[emoji]| && rm[emoji][k].userId == userId;
      assert (emoji, rm[emoji][k].userId) in Pairs(rm);
    }
  }

  /** On a well-formed map a toggle flips exactly one pair: it is the symmetric difference with {(emoji, userId)}. */
  lemma TogglePairs(rm: ReactionMap, emoji: string, who: Reactor)
    requires WellFormed(rm)
    ensures var p := (emoji, who.userId);
            Pairs(Toggle(rm, emoji, who)) == if p in Pairs(rm) then Pairs(rm) - {p} else Pairs(rm) + {p}
  {
    var r := Toggle(rm, emoji, who);
    var p := (emoji, who.userId);
    var list := ListOf(rm, emoji);
    PairsMember(rm, emoji, who.userId);
    var target := if p in Pairs(rm) then Pairs(rm) - {p} else Pairs(rm) + {p};
    forall q | q in Pairs(r) || q in target
      ensures q in Pairs(r) <==> q in target
    {
      PairsMember(rm, q.0, q.1);
      PairsMember(r, q.0, q.1);
      if q.0 != emoji {
        assert ListOf(r, q.0) == ListOf(rm, q.0) by {
          assert (q.0 in r) == (q.0 in r - {emoji}) && (q.0 in rm) == (q.0 in rm - {emoji});
          if q.0 in r { assert r[q.0] == (r - {emoji})[q.0]; }
        }
      } else if HasUser(list, who.userId) {
        var i := FindUser(list, who.userId).value;
        var rest := ListOf(r, emoji);
        if HasUser(rest, q.1) {
          var k :| 0 <= k < |rest| && rest[k].userId == q.1;
          var k' := if k < i then k else k + 1;
          assert list[k'] == rest[k];
          assert k' != i;
        }
        if q.1 != who.userId && HasUser(list, q.1) {
          var k :| 0 <= k < |list| && list[k].userId == q.1;
          assert k != i;
          var k' := if k < i then k else k - 1;
          assert rest[k'] == list[k];
        }
      } else {
        var grown := ListOf(r, emoji);
        assert grown == list + [who];
        if HasUser(grown, q.1) && q.1 != who.userId {
          var k :| 0 <= k < |grown| && grown[k].userId == q.1;
          assert list[k] == grown[k];
        }
        if HasUser(list, q.1) {
          var k :| 0 <= k < |list| && list[k].userId == q.1;
          assert grown[k] == list[k];
        }
        assert grown[|list|] == who;
      }
    }
    assert Pairs(r) == target;
  }

  /** Adding and then toggling again restores the map exactly, provided the key did not hold an empty list. */
  lemma {:induction false} ToggleTwiceAfterAdd(rm: ReactionMap, emoji: string, who: Reactor)
    requires emoji in rm ==> rm[emoji] != []
    requires !HasUser(ListOf(rm, emoji), who.userId)
    ensures Toggle(Toggle(rm, emoji, who), emoji, who) == rm
  {
    var list := ListOf(rm, emoji);
    var once := Toggle(rm, emoji, who);
    assert ListOf(once, emoji) == list + [who];
    assert HasUser(list + [who], who.userId) by { assert (list + [who])[|list|] == who; }
    var i := FindUser(list + [who], who.userId).value;
    assert i == |list|;
    assert RemoveAt(list + [who], i) == list;
    var twice := Toggle(once, emoji, who);
    assert twice - {emoji} == rm - {emoji};
    if emoji in rm {
      assert twice == (twice - {emoji})[emoji := list];
      assert rm == (rm - {emoji})[emoji := list];
    } else {
      assert twice == twice - {emoji};
      assert rm == rm - {emoji};
    }
  }

  /** With unique users, the list without the user's entry no longer holds that user. */
  lemma RemoveAtDropsUser(list: seq<Reactor>, i: nat, userId: string)
    requires UniqueUsers(list) && i < |list| && list[i].userId == userId
    ensures !HasUser(RemoveAt(list, i), userId)
  {
    var rest := RemoveAt(list, i);
    forall k | 0 <= k < |rest| ensures rest[k].userId != userId {
      var k' := if k < i then k else k + 1;
      assert rest[k] == list[k'] && k' != i;
    }
  }

  /** Moving the user's entry to the end gives back the list exactly when it was already there, unchanged. */
  lemma ReappendIff(list: seq<Reactor>, i: nat, who: Reactor)
    requires UniqueUsers(list) && i < |list| && list[i].userId == who.userId
    ensures RemoveAt(list, i) + [who] == list <==> list[|list| - 1] == who
  {
    var moved := RemoveAt(list, i) + [who];
    assert |moved| == |list| && moved[|list| - 1] == who;
    if list[|list| - 1] == who {
      assert i == |list| - 1;
      assert moved == list;
    }
  }

  /**
   * Removing and then toggling again restores the map exactly if and only if the user's
   * entry was the last of its list and carried the same display name: the re-added entry
   * always goes to the end.
   */
  lemma {:induction false} ToggleTwiceAfterRemove(rm: ReactionMap, emoji: string, who: Reactor)
    requires WellFormed(rm)
    requires HasUser(ListOf(rm, emoji), who.userId)
    ensures Toggle(Toggle(rm, emoji, who), emoji, who) == rm <==> rm[emoji][|rm[emoji]| - 1] == who
  {
    var list := rm[emoji];
    var i := FindUser(list, who.userId).value;
    var once := Toggle(rm, emoji, who);
    var rest := RemoveAt(list, i);
    assert ListOf(once, emoji) == rest;
    RemoveAtDropsUser(list, i, who.userId);
    var twice := Toggle(once, emoji, who);
    assert twice == rm[emoji := rest + [who]] by {
      assert twice[emoji] == rest + [who];
      assert twice - {emoji} == rm - {emoji};
    }
    ReappendIff(list, i, who);
    if twice == rm {
      assert twice[emoji] == list;
    }
  }

  /** On a well-formed map two identical toggles restore every key and every list length. */
  lemma ToggleTwiceKeepsLengths(rm: ReactionMap, emoji: string, who: Reactor)
    requires WellFormed(rm)
    ensures var twice := Toggle(Toggle(rm, emoji, who), emoji, who);
            twice.Keys == rm.Keys && forall e :: e in rm ==> |twice[e]| == |rm[e]|
  {
    var twice := Toggle(Toggle(rm, emoji, who), emoji, who);
    if HasUser(ListOf(rm, emoji), who.userId) {
      var list := rm[emoji];
      var i := FindUser(list, who.userId).value;
      var once := Toggle(rm, emoji, who);
      var rest := RemoveAt(list, i);
      RemoveAtDropsUser(list, i, who.userId);
      assert ListOf(once, emoji) == rest;
      assert twice[emoji] == rest + [who];
      assert twice - {emoji} == rm - {emoji};
      forall e | e in rm ensures e in twice && |twice[e]| == |rm[e]| {
        if e != emoji { assert e in rm - {emoji}; assert twice[e] == (twice - {emoji})[e]; }
      }
      assert forall e :: e in twice && e != emoji ==> e in twice - {emoji};
    } else {
      ToggleTwiceAfterAdd(rm, emoji, who);
    }
  }

  /** On a well-formed map two identical toggles always restore the set of active (emoji, user) pairs. */
  lemma ToggleTwicePairs(rm: ReactionMap, emoji: string, who: Reactor)
    requires WellFormed(rm)
    ensures Pairs(Toggle(Toggle(rm, emoji, who), emoji, who)) == Pairs(rm)
  {
    TogglePairs(rm, emoji, who);
    TogglePairs(Toggle(rm, emoji, who), emoji, who);
  }

  /** A concrete map on which two identical toggles do not restore it: the user's entry moves to the end. */
  lemma ToggleTwiceReorders()
    ensures var a := Reactor("c1", "alice");
            var b := Reactor("c2", "bob");
            var rm := map["+1" := [a, b]];
            WellFormed(rm) && Toggle(Toggle(rm, "+1", a), "+1", a) == map["+1" := [b, a]]
  {
    var a := Reactor("c1", "alice");
    var b := Reactor("c2", "bob");
    var rm := map["+1" := [a, b]];
    assert FindUser([a, b], "c1") == Some(0);
    assert RemoveAt([a, b], 0) == [b];
    var once := Toggle(rm, "+1", a);
    assert once == map["+1" := [b]];
    assert !HasUser([b], "c1");
    var twice := Toggle(once, "+1", a);
    assert twice["+1"] == [b, a];
    assert twice - {"+1"} == map[];
    assert twice.Keys == {"+1"};
    assert UniqueUsers([a, b]);
  }
}
