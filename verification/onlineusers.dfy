/** The online-users panel: a list merged from joins and then cleared of leaves. */
module OnlineUsers {
  import opened PresenceLists

  /** The `forEach` over joined users: each one whose id is not yet listed is appended, in order. */
  function Merge(acc: seq<Presence>, joined: seq<Presence>): (r: seq<Presence>)
    ensures acc <= r
    ensures forall k :: |acc| <= k < |r| ==> r[k] in joined && r[k].id !in Ids(acc)
    ensures Ids(r) == Ids(acc) + Ids(joined)
    ensures DistinctIds(acc) ==> DistinctIds(r)
    decreases |joined|
  {
    if joined == [] then acc
    else
      var acc' := AddOnce(acc, joined[0]);
      var r := Merge(acc', joined[1..]);
      MergeStep(acc, joined, acc', r);
      r
  }

  /** Merging a single joined user is exactly the list update that appends it unless its id is listed. */
  lemma MergeSingle(acc: seq<Presence>, u: Presence)
    ensures Merge(acc, [u]) == AddOnce(acc, u)
  {
    assert [u][1..] == [];
  }

  /**
   * The `forEach` visits the joined users in order: merging a concatenation is merging the
   * first part and then the second. With `MergeSingle` this fixes the result entirely, so
   * new ids are appended in joined order and, among entries sharing a new id, the first wins.
   */
  lemma {:induction false} MergeConcat(acc: seq<Presence>, a: seq<Presence>, b: seq<Presence>)
    ensures Merge(acc, a + b) == Merge(Merge(acc, a), b)
    decreases |a|
  {
    if a == [] {
      assert a + b == b;
    } else {
      assert (a + b)[0] == a[0];
      assert (a + b)[1..] == a[1..] + b;
      MergeConcat(AddOnce(acc, a[0]), a[1..], b);
    }
  }

  /** One iteration of the merge: what holds of the rest carries over to the whole. */
  lemma MergeStep(acc: seq<Presence>, joined: seq<Presence>, acc': seq<Presence>, r: seq<Presence>)
    requires joined != [] && acc' == AddOnce(acc, joined[0])
    requires acc' <= r
    requires forall k :: |acc'| <= k < |r| ==> r[k] in joined[1..] && r[k].id !in Ids(acc')
    requires Ids(r) == Ids(acc') + Ids(joined[1..])
    requires DistinctIds(acc') ==> DistinctIds(r)
    ensures acc <= r
    ensures forall k :: |acc| <= k < |r| ==> r[k] in joined && r[k].id !in Ids(acc)
    ensures Ids(r) == Ids(acc) + Ids(joined)
    ensures DistinctIds(acc) ==> DistinctIds(r)
  {
    IdsCons(joined[0], joined[1..]);
    assert joined == [joined[0]] + joined[1..];
    forall k | |acc| <= k < |r| ensures r[k] in joined && r[k].id !in Ids(acc) {
      if k < |acc'| {
        assert r[k] == acc'[k] == joined[0];
      } else {
        assert r[k] in joined[1..];
      }
    }
  }

  /** The effect's update of the online list from the previous list and the join/leave lists. */
  function Update(prev: seq<Presence>, joined: seq<Presence>, left: seq<Presence>): (r: seq<Presence>)
    ensures Ids(r) !! Ids(left)
    ensures Ids(r) == (Ids(prev) + Ids(joined)) - Ids(left)
    ensures forall k :: 0 <= k < |r| ==> r[k] in prev || r[k] in joined
    ensures WithoutIds(prev, Ids(left)) <= r
    ensures DistinctIds(prev) ==> DistinctIds(r)
  {
    UpdateFacts(prev, joined, left);
    WithoutIds(Merge(prev, joined), Ids(left))
  }

  lemma UpdateFacts(prev: seq<Presence>, joined: seq<Presence>, left: seq<Presence>)
    ensures var r := WithoutIds(Merge(prev, joined), Ids(left));
            && Ids(r) == (Ids(prev) + Ids(joined)) - Ids(left)
            && (forall k :: 0 <= k < |r| ==> r[k] in prev || r[k] in joined)
            && WithoutIds(prev, Ids(left)) <= r
            && (DistinctIds(prev) ==> DistinctIds(r))
  {
    var merged := Merge(prev, joined);
    assert merged == prev + merged[|prev|..];
    WithoutIdsAppend(prev, merged[|prev|..], Ids(left));
    WithoutIdsIds(merged, Ids(left));
    WithoutIdsDistinct(merged, Ids(left));
    var r := WithoutIds(merged, Ids(left));
    forall k | 0 <= k < |r| ensures r[k] in prev || r[k] in joined {
      var j :| 0 <= j < |merged| && merged[j] == r[k];
      if j >= |prev| { assert merged[j] in joined; } else { assert merged[j] in prev; }
    }
  }

  /** Merging again into a list that holds every joined id outside `left` appends only entries whose id is in `left`. */
  lemma MergeAgainAddsOnlyLeft(r: seq<Presence>, joined: seq<Presence>, left: seq<Presence>)
    requires Ids(joined) <= Ids(r) + Ids(left)
    ensures forall k :: |r| <= k < |Merge(r, joined)| ==> Merge(r, joined)[k].id in Ids(left)
  {
    var merged := Merge(r, joined);
    forall k | |r| <= k < |merged| ensures merged[k].id in Ids(left) {
      InIds(joined, merged[k]);
    }
  }

  /** A list that already holds every joined id not in `left`, and no id in `left`, is a fixed point of the update. */
  lemma UpdateFixedPoint(r: seq<Presence>, joined: seq<Presence>, left: seq<Presence>)
    requires Ids(joined) <= Ids(r) + Ids(left)
    requires Ids(r) !! Ids(left)
    ensures WithoutIds(Merge(r, joined), Ids(left)) == r
  {
    var merged := Merge(r, joined);
    MergeAgainAddsOnlyLeft(r, joined, left);
    var extra := merged[|r|..];
    assert merged == r + extra;
    assert forall k :: 0 <= k < |extra| ==> extra[k].id in Ids(left) by {
      forall k | 0 <= k < |extra| ensures extra[k].id in Ids(left) {
        assert extra[k] == merged[|r| + k];
      }
    }
    WithoutIdsAppend(r, extra, Ids(left));
    WithoutIdsKeepsAll(r, Ids(left));
    WithoutIdsDropsAll(extra, Ids(left));
    assert r + [] == r;
  }

  /** Running the effect again with the same join and leave lists leaves the online list as it is. */
  lemma UpdateIdempotent(prev: seq<Presence>, joined: seq<Presence>, left: seq<Presence>)
    ensures Update(Update(prev, joined, left), joined, left) == Update(prev, joined, left)
  {
    var r := Update(prev, joined, left);
    UpdateFixedPoint(r, joined, left);
  }

  /** The `currentUser` prop, which the panel accepts either as a name or as a user object. */
  datatype UserProp = NameProp(name: string) | UserObject(username: string)

  /** `typeof currentUser === 'object' ? currentUser.username : currentUser`. */
  function CurrentUsername(p: UserProp): (name: string)
    ensures p.UserObject? ==> name == p.username
    ensures p.NameProp? ==> name == p.name
  {
    match p
    case NameProp(n) => n
    case UserObject(n) => n
  }

  /** Whether the panel marks `user` with "(You)": the name comparison of client/src/components/OnlineUsers.jsx:37. */
  predicate MarkedAsYou(user: Presence, p: UserProp) {
    user.username == CurrentUsername(p)
  }

  /**
   * Marking goes by display name, not by id: when two connections joined under the local
   * name, the online list keeps both and marks both "(You)", whichever prop shape is passed.
   */
  lemma NameClashMarksBoth(p: UserProp, a: Presence, b: Presence)
    requires a.username == CurrentUsername(p) && b.username == CurrentUsername(p)
    requires a.id != b.id
    ensures var r := Update([], [a, b], []);
            && r == [a, b]
            && MarkedAsYou(r[0], p) && MarkedAsYou(r[1], p)
  {
    MergeConcat([], [a], [b]);
    MergeSingle([], a);
    MergeSingle([a], b);
    assert Ids([a]) == {a.id} by { assert [a][0] == a; }
    WithoutIdsKeepsAll([a, b], Ids([]));
  }
}
