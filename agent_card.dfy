/**
 * What the directory card of an agent shows, derived from its profile and
 * optional rating: the title, the public capabilities, the "Paid" tag, the
 * first four category badges with a "+n" overflow label, and the rating
 * when the agent has reviews.
 */
module AgentCard {
  import opened Wrappers
  import opened Types
  import opened Strings
  import opened CapabilityLists
  import RedisData

  /** The card title: the display name, or the username when it is empty. */
  function Title(p: AgentProfile): (t: string)
    ensures p.displayName != "" ==> t == p.displayName
    ensures p.displayName == "" ==> t == p.username
  {
    OrElse(p.displayName, p.username)
  }

  /** A capability with a non-empty price is paid; no price or `''` is free. */
  predicate IsPaid(c: Capability)
  {
    c.price.Some? && c.price.value != ""
  }

  /** `publicCaps.some(c => c.price)`, walking the full list and skipping the private ones. */
  predicate HasPaidCapability(caps: seq<Capability>)
  {
    caps != [] && ((caps[0].isPublic && IsPaid(caps[0])) || HasPaidCapability(caps[1..]))
  }

  /** The card shows "Paid" exactly when some public capability has a non-empty price. */
  lemma {:induction false} HasPaidCapabilityMeans(caps: seq<Capability>)
    ensures HasPaidCapability(caps) <==> exists c :: c in PublicCaps(caps) && IsPaid(c)
    decreases |caps|
  {
    if caps != [] {
      HasPaidCapabilityMeans(caps[1..]);
      assert PublicCaps(caps) == (if caps[0].isPublic then [caps[0]] else []) + PublicCaps(caps[1..]);
      if HasPaidCapability(caps[1..]) {
        var c :| c in PublicCaps(caps[1..]) && IsPaid(c);
        assert c in PublicCaps(caps);
      }
    }
  }

  const MaxBadges := 4

  /** The badges shown: the first four distinct public categories. */
  function Badges(caps: seq<Capability>): (r: seq<CategoryId>)
    ensures |r| <= MaxBadges
    ensures r <= UniqueCategories(caps)
    ensures |r| == if |UniqueCategories(caps)| <= MaxBadges then |UniqueCategories(caps)| else MaxBadges
  {
    var cats := UniqueCategories(caps);
    if |cats| <= MaxBadges then cats else cats[..MaxBadges]
  }

  /** The "+n" label: the number of distinct public categories beyond the fourth, when there are any. */
  function Overflow(caps: seq<Capability>): (n: Option<nat>)
    ensures n.Some? ==> n.value > 0
    ensures n.Some? <==> |UniqueCategories(caps)| > MaxBadges
    ensures n.Some? ==> n.value == |UniqueCategories(caps)| - MaxBadges
  {
    var count := |UniqueCategories(caps)|;
    if count > MaxBadges then Some(count - MaxBadges) else None
  }

  /** The badges and the "+n" label together account for every distinct public category. */
  lemma BadgesAccountForAll(caps: seq<Capability>)
    ensures |Badges(caps)| + Overflow(caps).GetOr(0) == |UniqueCategories(caps)|
    ensures Overflow(caps).None? ==> Badges(caps) == UniqueCategories(caps)
    ensures Overflow(caps).Some? ==> Badges(caps) == UniqueCategories(caps)[..MaxBadges]
  {
  }

  /** The card's distinct categories are the public categories, each once, in order of first appearance. */
  lemma CardCategories(caps: seq<Capability>, i: nat, j: nat)
    requires i < j < |UniqueCategories(caps)|
    ensures UniqueCategories(caps)[i] != UniqueCategories(caps)[j]
    ensures FirstIndex(Categories(PublicCaps(caps)), UniqueCategories(caps)[i]) <
            FirstIndex(Categories(PublicCaps(caps)), UniqueCategories(caps)[j])
  {
    DedupeFirstOccurrenceOrder(Categories(PublicCaps(caps)), i, j);
  }

  /** The rating is shown only for an agent with at least one review. */
  predicate ShowsRating(rating: Option<AgentRatingSummary>)
  {
    rating.Some? && rating.value.totalReviews > 0
  }

  /** A card given the store's rating of an agent shows stars exactly when the agent's review count is positive. */
  lemma StoredRatingShown(d: RedisData.Db, u: string)
    ensures ShowsRating(Some(RedisData.GetAgentRating(d, u))) <==> RedisData.Counter(d.ratingCounts, u) > 0
  {
  }

  /** The count line under the badges: the number of public capabilities and the noun it takes. */
  function CapabilityCount(caps: seq<Capability>): (r: (nat, string))
    ensures r.0 == |PublicCaps(caps)|
    ensures r.1 == "capability" <==> r.0 == 1
  {
    var n := |PublicCaps(caps)|;
    (n, if n == 1 then "capability" else "capabilities")
  }
}
