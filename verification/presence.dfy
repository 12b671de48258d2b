/** Presence lists as the client keeps them: join/leave payloads in arrival order, compared by id. */
module PresenceLists {
  import Protocol

  /** A `user_joined` / `user_left` payload. */
  datatype Presence = Presence(username: string, id: string, timestamp: Protocol.Time)

  /** The ids occurring in a presence list. */
  function Ids(list: seq<Presence>): set<string> {
    set k | 0 <= k < |list| :: list[k].id
  }

  /** No id occurs twice in a presence list. */
  predicate DistinctIds(list: seq<Presence>) {
    forall j, k :: 0 <= j < k < |list| ==> list[j].id != list[k].id
  }

  /** A listed entry's id is among the list's ids. */
  lemma InIds(list: seq<Presence>, x: Presence)
    requires x in list
    ensures x.id in Ids(list)
  {
    var k :| 0 <= k < |list| && list[k] == x;
  }

  /** A presence list with no ids is empty. */
  lemma NoIdsEmpty(list: seq<Presence>)
    ensures Ids(list) == {} ==> list == []
  {
    if list != [] {
      assert list[0].id in Ids(list);
    }
  }

  lemma IdsCons(x: Presence, list: seq<Presence>)
    ensures Ids([x] + list) == {x.id} + Ids(list)
    ensures DistinctIds([x] + list) <==> x.id !in Ids(list) && DistinctIds(list)
  {
    var l := [x] + list;
    assert forall k :: 0 <= k < |list| ==> l[k + 1] == list[k];
    forall id | id in Ids(l) ensures id in {x.id} + Ids(list) {
      var k :| 0 <= k < |l| && l[k].id == id;
      if k > 0 { assert list[k - 1] == l[k]; }
    }
    forall id | id in Ids(list) ensures id in Ids(l) {
      var k :| 0 <= k < |list| && list[k].id == id;
      assert l[k + 1] == list[k];
    }
    assert l[0] == x;
    if x.id !in Ids(list) && DistinctIds(list) {
      forall j, k | 0 <= j < k < |l| ensures l[j].id != l[k].id {
        assert l[k] == list[k - 1];
        if j == 0 { assert list[k - 1].id in Ids(list); } else { assert l[j] == list[j - 1]; }
      }
    }
  }

  lemma IdsAppend(list: seq<Presence>, x: Presence)
    ensures Ids(list + [x]) == Ids(list) + {x.id}
    ensures x.id !in Ids(list) && DistinctIds(list) ==> DistinctIds(list + [x])
  {
    var l := list + [x];
    assert forall k :: 0 <= k < |list| ==> l[k] == list[k];
    assert l[|list|] == x;
    forall id | id in Ids(l) ensures id in Ids(list) + {x.id} {
      var k :| 0 <= k < |l| && l[k].id == id;
    }
    if x.id !in Ids(list) && DistinctIds(list) {
      forall j, k | 0 <= j < k < |l| ensures l[j].id != l[k].id {
        if k == |list| { assert list[j].id in Ids(list); }
      }
    }
  }

  /** The `user_joined` / `user_left` list update: append the entry unless its id is already listed. */
  function AddOnce(list: seq<Presence>, u: Presence): (r: seq<Presence>)
    ensures list <= r && |r| <= |list| + 1
    ensures Ids(r) == Ids(list) + {u.id}
    ensures u.id in Ids(list) ==> r == list
    ensures u.id !in Ids(list) ==> r[|list|] == u
    ensures DistinctIds(list) ==> DistinctIds(r)
  {
    if u.id in Ids(list) then list
    else
      IdsAppend(list, u);
      list + [u]
  }

  /** `filter(user => !ids.has(user.id))`: exactly the entries whose id is outside `ids`, in their original order. */
  function WithoutIds(list: seq<Presence>, ids: set<string>): (r: seq<Presence>)
    ensures |r| <= |list|
    ensures forall k :: 0 <= k < |r| ==> r[k] in list && r[k].id !in ids
    ensures forall k :: 0 <= k < |list| && list[k].id !in ids ==> list[k] in r
    decreases |list|
  {
    if list == [] then []
    else
      var rest := WithoutIds(list[1..], ids);
      assert forall k :: 0 <= k < |list| - 1 ==> list[1..][k] == list[k + 1];
      if list[0].id in ids then rest else [list[0]] + rest
  }

  /** The ids left after filtering are the old ids minus the excluded ones. */
  lemma WithoutIdsIds(list: seq<Presence>, ids: set<string>)
    ensures Ids(WithoutIds(list, ids)) == Ids(list) - ids
  {
    var r := WithoutIds(list, ids);
    forall id | id in Ids(r) ensures id in Ids(list) - ids {
      var k :| 0 <= k < |r| && r[k].id == id;
      var j :| 0 <= j < |list| && list[j] == r[k];
    }
    forall id | id in Ids(list) - ids ensures id in Ids(r) {
      var k :| 0 <= k < |list| && list[k].id == id;
      var j :| 0 <= j < |r| && r[j] == list[k];
    }
  }

  /** Filtering never makes two entries share an id. */
  lemma {:induction false} WithoutIdsDistinct(list: seq<Presence>, ids: set<string>)
    ensures DistinctIds(list) ==> DistinctIds(WithoutIds(list, ids))
    decreases |list|
  {
    if list != [] && DistinctIds(list) {
      var x := list[0];
      var tail := list[1..];
      assert list == [x] + tail;
      IdsCons(x, tail);
      WithoutIdsDistinct(tail, ids);
      var rest := WithoutIds(tail, ids);
      if x.id !in ids {
        WithoutIdsIds(tail, ids);
        IdsCons(x, rest);
      }
    }
  }

  /** Filtering distributes over concatenation: the kept entries stay in their original order. */
  lemma {:induction false} WithoutIdsAppend(a: seq<Presence>, b: seq<Presence>, ids: set<string>)
    ensures WithoutIds(a + b, ids) == WithoutIds(a, ids) + WithoutIds(b, ids)
    decreases |a|
  {
    if a == [] {
      assert a + b == b;
    } else {
      assert (a + b)[0] == a[0];
      assert (a + b)[1..] == a[1..] + b;
      WithoutIdsAppend(a[1..], b, ids);
    }
  }

  /** A list all of whose ids are excluded filters to nothing. */
  lemma {:induction false} WithoutIdsDropsAll(list: seq<Presence>, ids: set<string>)
    requires forall k :: 0 <= k < |list| ==> list[k].id in ids
    ensures WithoutIds(list, ids) == []
    decreases |list|
  {
    if list != [] {
      assert forall k :: 0 <= k < |list| - 1 ==> list[1..][k] == list[k + 1];
      WithoutIdsDropsAll(list[1..], ids);
    }
  }

  /** A list none of whose ids is excluded filters to itself. */
  lemma {:induction false} WithoutIdsKeepsAll(list: seq<Presence>, ids: set<string>)
    requires Ids(list) !! ids
    ensures WithoutIds(list, ids) == list
    decreases |list|
  {
    if list != [] {
      IdsCons(list[0], list[1..]);
      assert list == [list[0]] + list[1..];
      WithoutIdsKeepsAll(list[1..], ids);
    }
  }
}
