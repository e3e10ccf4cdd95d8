/** Awarding a badge to a learner (enliven-backend/controllers/badgeController.js):
    a badge whose id the learner already holds is not added again; any other
    badge is appended with the time it was awarded. A request without a
    badge fails on the first comparison with a held badge, and so only a
    learner holding no badge yet gets an entry carrying nothing but its
    award time. */
module Badges {

  import opened Wrappers

  /** The badge object of the request. */
  datatype Badge = Badge(id: string, name: string, description: string, icon: string)

  /** `{ ...badge, awardedOn }`: spreading a missing badge adds no field, so
      `badge` is `None` for such an entry. The timestamp is a parameter, as
      the clock is outside the model. */
  datatype EarnedBadge = EarnedBadge(badge: Option<Badge>, awardedOn: int)

  /** The entry carries a badge with this id. */
  predicate HasId(e: EarnedBadge, id: string) {
    e.badge.Some? && e.badge.value.id == id
  }

  /** The two success messages. */
  datatype Award = Awarded | AlreadyEarned

  /** `user.badges.some(b => b.id === badge.id)`. */
  predicate HasBadge(badges: seq<EarnedBadge>, id: string) {
    exists k :: 0 <= k < |badges| && HasId(badges[k], id)
  }

  predicate DistinctBadgeIds(badges: seq<EarnedBadge>) {
    forall j, k :: 0 <= j < k < |badges| && badges[j].badge.Some? ==> !HasId(badges[k], badges[j].badge.value.id)
  }

  /** The badge list after the request, and the message reported. */
  function AwardTo(badges: seq<EarnedBadge>, badge: Badge, now: int): (r: (seq<EarnedBadge>, Award))
    ensures r.1 == AlreadyEarned <==> HasBadge(badges, badge.id)
  {
    if HasBadge(badges, badge.id) then (badges, AlreadyEarned)
    else (badges + [EarnedBadge(Some(badge), now)], Awarded)
  }

  /** A badge already held leaves the list exactly as it was; a new one is
      appended at the end, so the list grows by one and the earlier badges
      are neither changed nor reordered. Either way the learner holds the
      badge afterwards. */
  lemma AwardEffect(badges: seq<EarnedBadge>, badge: Badge, now: int)
    ensures var (after, msg) := AwardTo(badges, badge, now);
      (msg == AlreadyEarned ==> after == badges) &&
      (msg == Awarded ==>
         |after| == |badges| + 1 && after[..|badges|] == badges && after[|badges|] == EarnedBadge(Some(badge), now)) &&
      HasBadge(after, badge.id)
  {
    var (after, msg) := AwardTo(badges, badge, now);
    if msg == Awarded {
      assert HasId(after[|badges|], badge.id);
    }
  }

  /** Badge ids stay pairwise distinct. */
  lemma AwardKeepsIdsDistinct(badges: seq<EarnedBadge>, badge: Badge, now: int)
    requires DistinctBadgeIds(badges)
    ensures DistinctBadgeIds(AwardTo(badges, badge, now).0)
  {
    var after := AwardTo(badges, badge, now).0;
    if !HasBadge(badges, badge.id) {
      forall j, k | 0 <= j < k < |after| && after[j].badge.Some?
        ensures !HasId(after[k], after[j].badge.value.id)
      {
        if k == |badges| {
          assert after[j] == badges[j];
        }
      }
    }
  }

  /** Awarding the same badge twice is the same as awarding it once, and the
      second request reports it as already earned. */
  lemma AwardIdempotent(badges: seq<EarnedBadge>, badge: Badge, now: int, later: int)
    ensures var once := AwardTo(badges, badge, now).0;
      AwardTo(once, badge, later) == (once, AlreadyEarned)
  {
    AwardEffect(badges, badge, now);
  }

  /** Every badge held before is still held afterwards. */
  lemma AwardKeepsHeld(badges: seq<EarnedBadge>, badge: Badge, now: int, id: string)
    requires HasBadge(badges, id)
    ensures HasBadge(AwardTo(badges, badge, now).0, id)
  {
    var k :| 0 <= k < |badges| && HasId(badges[k], id);
    assert AwardTo(badges, badge, now).0[k] == badges[k];
  }

  /** The learners' badge lists, by user id. */
  class Learners {
    var badges: map<string, seq<EarnedBadge>>

    constructor(initial: map<string, seq<EarnedBadge>>)
      ensures badges == initial
    {
      badges := initial;
    }

    /** `awardBadge`. An unknown user fails with a server error and changes
        nothing. A request without a badge fails the same way when the
        user holds any entry, since the first comparison reads `id` of the
        missing badge; when the user holds none, the comparison never runs
        and an entry with only its award time is appended. With a badge,
        the user's list becomes `AwardTo` of it. No other user's list
        changes. */
    method AwardBadge(userId: string, badge: Option<Badge>, now: int) returns (r: Result<Award, Failure>)
      modifies this
      ensures userId !in old(badges) ==>
        r == Err(ServerError("Failed to award badge")) && badges == old(badges)
      ensures userId in old(badges) && badge.None? && old(badges)[userId] != [] ==>
        r == Err(ServerError("Failed to award badge")) && badges == old(badges)
      ensures userId in old(badges) && badge.None? && old(badges)[userId] == [] ==>
        r == Ok(Awarded) && badges == old(badges)[userId := [EarnedBadge(None, now)]]
      ensures userId in old(badges) && badge.Some? ==>
        var (after, msg) := AwardTo(old(badges)[userId], badge.value, now);
        r == Ok(msg) && badges == old(badges)[userId := after]
    {
      if userId !in badges {
        return Err(ServerError("Failed to award badge"));
      }
      var list := badges[userId];
      if badge.None? {
        if list != [] {
          return Err(ServerError("Failed to award badge"));
        }
        badges := badges[userId := [EarnedBadge(None, now)]];
        return Ok(Awarded);
      }
      var b := badge.value;
      var k := 0;
      while k < |list|
        invariant 0 <= k <= |list|
        invariant forall j :: 0 <= j < k ==> !HasId(list[j], b.id)
      {
        if HasId(list[k], b.id) {
          return Ok(AlreadyEarned);
        }
        k := k + 1;
      }
      badges := badges[userId := list + [EarnedBadge(Some(b), now)]];
      r := Ok(Awarded);
    }
  }
}
