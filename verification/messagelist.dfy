/** The message list's join/leave notices, shown once per id, and its "own message" test. */
module MessageList {
  import opened Wrappers
  import opened PresenceLists
  import opened ChatRoom

  /** The ids whose join (or leave) notice has already been shown. */
  datatype ListState = ListState(displayedJoins: set<string>, displayedLeaves: set<string>)

  /** `processedJoins` / `processedLeaves`: the entries with a truthy id not yet displayed, in order. */
  function Processed(entries: seq<Presence>, displayed: set<string>): (r: seq<Presence>)
    ensures |r| <= |entries|
    ensures forall k :: 0 <= k < |r| ==> r[k] in entries && r[k].id != "" && r[k].id !in displayed
    ensures forall k :: 0 <= k < |entries| && entries[k].id != "" && entries[k].id !in displayed ==> entries[k] in r
  {
    WithoutIds(entries, displayed + {""})
  }

  /** The effect's set update: the old set plus the truthy ids just processed, and unchanged when nothing was processed. */
  function MarkDisplayed(displayed: set<string>, processed: seq<Presence>): (r: set<string>)
    ensures displayed <= r
    ensures r == displayed + (Ids(processed) - {""})
  {
    if |processed| > 0 then displayed + set k | 0 <= k < |processed| && processed[k].id != "" :: processed[k].id
    else displayed
  }

  /** One run of the effect over both lists. */
  function Effect(ls: ListState, usersJoined: seq<Presence>, usersLeft: seq<Presence>): (r: ListState)
    ensures ls.displayedJoins <= r.displayedJoins && ls.displayedLeaves <= r.displayedLeaves
  {
    ListState(
      MarkDisplayed(ls.displayedJoins, Processed(usersJoined, ls.displayedJoins)),
      MarkDisplayed(ls.displayedLeaves, Processed(usersLeft, ls.displayedLeaves)))
  }

  /** Once the effect has run, recomputing the notices for the same list yields none: each id is shown once. */
  lemma ShownOnce(entries: seq<Presence>, displayed: set<string>)
    ensures Processed(entries, MarkDisplayed(displayed, Processed(entries, displayed))) == []
  {
    var p := Processed(entries, displayed);
    var d := MarkDisplayed(displayed, p);
    var again := Processed(entries, d);
    forall k | 0 <= k < |entries| && entries[k].id != "" ensures entries[k].id in d {
      if entries[k].id !in displayed {
        var j :| 0 <= j < |p| && p[j] == entries[k];
        assert p[j].id in Ids(p);
      }
    }
    assert Ids(entries) <= d + {""} by {
      forall id | id in Ids(entries) ensures id in d + {""} {
        var k :| 0 <= k < |entries| && entries[k].id == id;
      }
    }
    WithoutIdsIds(entries, d + {""});
    NoIdsEmpty(again);
  }

  /** Growing the displayed set only removes notices: an id displayed once never reappears. */
  lemma ProcessedShrinks(entries: seq<Presence>, d1: set<string>, d2: set<string>)
    requires d1 <= d2
    ensures forall k :: 0 <= k < |Processed(entries, d2)| ==> Processed(entries, d2)[k] in Processed(entries, d1)
    ensures forall k :: 0 <= k < |Processed(entries, d2)| ==> Processed(entries, d2)[k].id !in d2
  {
    var p2 := Processed(entries, d2);
    forall k | 0 <= k < |p2| ensures p2[k] in Processed(entries, d1) {
      var j :| 0 <= j < |entries| && entries[j] == p2[k];
    }
  }

  /** `isOwnMessage`: false without a user or a message; otherwise the sender id matches the local id or the sender name matches the local name. */
  function IsOwnMessage(currentUser: Option<CurrentUser>, msg: Option<ClientMessage>): (own: bool)
    ensures currentUser.None? || msg.None? ==> !own
    ensures currentUser.Some? && msg.Some? ==>
              (own <==> currentUser.value.id == Some(msg.value.senderId) || msg.value.sender == currentUser.value.username)
  {
    match (currentUser, msg)
    case (Some(u), Some(m)) => u.id == Some(m.senderId) || m.sender == u.username
    case _ => false
  }
}
