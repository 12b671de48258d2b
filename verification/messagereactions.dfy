/** The reaction bar under a message: counts, the "already reacted" highlight, badges and clicks. */
module MessageReactions {
  import opened Wrappers
  import opened Reactions
  import Protocol
  import ChatRoom

  /** `getReactionCounts`: one count per emoji key, the length of its list; missing reactions count nothing. */
  function ReactionCounts(reactions: Option<ReactionMap>): (counts: map<string, nat>)
    ensures reactions.None? ==> counts == map[]
    ensures reactions.Some? ==> counts.Keys == reactions.value.Keys
    ensures reactions.Some? ==> forall e :: e in counts ==> counts[e] == |reactions.value[e]|
  {
    match reactions
    case None => map[]
    case Some(rm) => map e | e in rm :: |rm[e]|
  }

  /** `hasUserReacted`: false without reactions, without the key, or without a local id; otherwise whether the local id is listed. */
  function HasUserReacted(reactions: Option<ReactionMap>, emoji: string, currentId: Option<string>): (b: bool)
    ensures reactions.None? || emoji !in reactions.value || currentId.None? ==> !b
    ensures reactions.Some? && emoji in reactions.value && currentId.Some? ==>
              (b <==> exists k :: 0 <= k < |reactions.value[emoji]| && reactions.value[emoji][k].userId == currentId.value)
  {
    if reactions.None? || emoji !in reactions.value then false
    else match currentId
      case None => false
      case Some(id) => FindUser(reactions.value[emoji], id).Some?
  }

  /** The emojis that get a badge: those whose count is positive. */
  function Badges(counts: map<string, nat>): (shown: set<string>)
    ensures forall e :: e in shown <==> e in counts && counts[e] > 0
  {
    set e | e in counts && counts[e] > 0
  }

  /** `handleReactionClick`: the `add_reaction` request for this message's id and the clicked emoji. */
  function Click(message: ChatRoom.ClientMessage, emoji: string): (req: Protocol.Inbound)
    ensures req.AddReaction? && req.messageId == message.id && req.reaction == emoji
  {
    Protocol.AddReaction(message.id, emoji)
  }

  /** On a well-formed map every key gets a badge: the badges are exactly the emojis present. */
  lemma BadgesOfWellFormed(rm: ReactionMap)
    requires WellFormed(rm)
    ensures Badges(ReactionCounts(Some(rm))) == rm.Keys
  {
  }

  /** A toggle moves one emoji's count by one, removing its key at zero, and leaves every other count alone. */
  lemma ToggleCounts(rm: ReactionMap, emoji: string, who: Reactor)
    requires WellFormed(rm)
    ensures var before := ReactionCounts(Some(rm));
            var after := ReactionCounts(Some(Toggle(rm, emoji, who)));
            && after - {emoji} == before - {emoji}
            && (!HasUser(ListOf(rm, emoji), who.userId) ==>
                  emoji in after && after[emoji] == (if emoji in before then before[emoji] else 0) + 1)
            && (HasUser(ListOf(rm, emoji), who.userId) ==>
                  emoji in before && (emoji in after <==> before[emoji] > 1)
                  && (emoji in after ==> after[emoji] == before[emoji] - 1))
  {
    var r := Toggle(rm, emoji, who);
    var before := ReactionCounts(Some(rm));
    var after := ReactionCounts(Some(r));
    assert after - {emoji} == before - {emoji} by {
      forall e | e in after - {emoji} ensures e in before - {emoji} && (after - {emoji})[e] == (before - {emoji})[e] {
        assert e in r - {emoji};
        assert r[e] == (r - {emoji})[e] == (rm - {emoji})[e] == rm[e];
      }
      forall e | e in before - {emoji} ensures e in after - {emoji} {
        assert e in rm - {emoji};
      }
    }
  }

  /** Maps with the same keys and the same list lengths have the same counts. */
  lemma SameLengthsSameCounts(a: ReactionMap, b: ReactionMap)
    requires a.Keys == b.Keys
    requires forall e :: e in a ==> |a[e]| == |b[e]|
    ensures ReactionCounts(Some(a)) == ReactionCounts(Some(b))
  {
  }

  /** On a well-formed map two identical toggles always restore every count, even when the entry moves within its list. */
  lemma ToggleTwiceCounts(rm: ReactionMap, emoji: string, who: Reactor)
    requires WellFormed(rm)
    ensures ReactionCounts(Some(Toggle(Toggle(rm, emoji, who), emoji, who))) == ReactionCounts(Some(rm))
  {
    ToggleTwiceKeepsLengths(rm, emoji, who);
    SameLengthsSameCounts(Toggle(Toggle(rm, emoji, who), emoji, who), rm);
  }

  /** On a well-formed map each click on a button flips its highlight for the clicking user. */
  lemma ToggleFlipsHighlight(rm: ReactionMap, emoji: string, who: Reactor)
    requires WellFormed(rm)
    ensures HasUserReacted(Some(Toggle(rm, emoji, who)), emoji, Some(who.userId))
            == !HasUserReacted(Some(rm), emoji, Some(who.userId))
  {
    var r := Toggle(rm, emoji, who);
    TogglePairs(rm, emoji, who);
    PairsMember(rm, emoji, who.userId);
    PairsMember(r, emoji, who.userId);
  }
}
