/**
 * The public listing endpoint `GET /api/agents`: it picks the profiles to
 * list from the query string (a search, a category, or every published
 * profile), cuts the list at the requested limit, and answers with a public
 * view of each agent (no email, GitHub id, creation time or private
 * capability) together with its rating.
 */
module AgentsRoute {
  import opened Wrappers
  import opened Types
  import opened Strings
  import opened Lists
  import opened CapabilityLists
  import opened RedisData
  import opened RedisStore

  /** A capability as the listing shows it: no id, no visibility flag, and `''` for no price. */
  datatype CapabilityView = CapabilityView(
    name: string,
    description: string,
    category: CategoryId,
    contactMethod: ContactMethod,
    contactEndpoint: string,
    approvalMode: ApprovalMode,
    scope: string,
    availability: string,
    price: string)

  /** An agent as the listing shows it. */
  datatype AgentView = AgentView(
    username: string,
    displayName: string,
    bio: string,
    avatarUrl: string,
    website: string,
    walletAddress: string,
    rating: AgentRatingSummary,
    capabilities: seq<CapabilityView>)

  const DefaultRating := AgentRatingSummary(0.0, 0)

  // ---------------------------------------------------------------------
  // Choosing the source

  /** Where the listed profiles come from. */
  datatype Source = Search(query: string) | ByCategory(category: CategoryId) | UnknownCategory | AllPublished

  /**
   * A non-empty `q` searches; otherwise a non-empty `category` lists that
   * category (a name that is no category lists an empty set); otherwise
   * every published profile is listed.
   */
  function ChooseSource(q: Option<string>, category: Option<string>): (r: Source)
    ensures r.Search? <==> q.Some? && q.value != ""
    ensures r.Search? ==> r.query == q.value
    ensures (r.ByCategory? || r.UnknownCategory?) <==> (q.None? || q.value == "") && category.Some? && category.value != ""
    ensures r.ByCategory? ==> CategoryName(r.category) == category.value
    ensures r.UnknownCategory? ==> forall c :: CategoryName(c) != category.value
  {
    if q.Some? && q.value != "" then Search(q.value)
    else if category.Some? && category.value != "" then
      match ParseCategoryId(category.value)
      case Some(c) => ByCategory(c)
      case None =>
        assert forall c :: CategoryName(c) != category.value by {
          forall c ensures CategoryName(c) != category.value {
            ParseCategoryName(c);
          }
        }
        UnknownCategory
    else AllPublished
  }

  // ---------------------------------------------------------------------
  // The limit

  /**
   * `Math.min(parseInt(limit || '50', 10), 100)`, as written: no `limit`
   * means 50, and a text with no digits is NaN, which `slice` reads as 0.
   * Nothing stops a negative limit.
   */
  function RequestedLimit(param: Option<string>): (r: int)
    ensures r <= 100
    ensures param.None? || param.value == "" ==> r == 50
  {
    var text := OptOrElse(param, "50");
    assert param.None? || param.value == "" ==> ParseInt(text) == Some(50) by {
      if param.None? || param.value == "" {
        ParseIntToString(50);
        assert IntToString(50) == "50";
      }
    }
    match ParseInt(text)
    case None => 0
    case Some(n) => if n < 100 then n else 100
  }

  /** The limit written as a number is read back and capped at 100. */
  lemma RequestedLimitOfNumber(n: int)
    ensures RequestedLimit(Some(IntToString(n))) == if n < 100 then n else 100
  {
    ParseIntToString(n);
    if n >= 0 {
      assert IntToString(n) != "" by {
        assert IntToString(n) == NatToDecimal(n);
      }
    }
  }

  /**
   * As written, a negative limit slices from the end of the list: 101
   * published profiles asked for with `limit=-1` give 100 agents, and 102
   * give 101, past the cap of 100.
   */
  lemma NegativeLimitPassesCap(profiles: seq<AgentProfile>)
    requires |profiles| == 102
    ensures |SliceTo(profiles, RequestedLimit(Some("-1")))| == 101
  {
    ParseIntToString(-1);
    assert IntToString(-1) == "-1";
  }

  /** The limit with the cap evidently intended: between 0 and 100. */
  function CappedLimit(param: Option<string>): (r: int)
    ensures 0 <= r <= 100
    ensures param.None? || param.value == "" ==> r == 50
    ensures 0 <= RequestedLimit(param) ==> r == RequestedLimit(param)
  {
    var n := RequestedLimit(param);
    if n < 0 then 0 else n
  }

  /** With the capped limit no listing exceeds 100 agents, or 50 when no limit is given. */
  lemma CappedListingBound(profiles: seq<AgentProfile>, param: Option<string>)
    ensures |SliceTo(profiles, CappedLimit(param))| <= 100
    ensures param.None? ==> |SliceTo(profiles, CappedLimit(param))| <= 50
  {
  }

  // ---------------------------------------------------------------------
  // Shaping the response

  function ViewCapability(c: Capability): (v: CapabilityView)
    ensures v.name == c.name && v.category == c.category && v.contactEndpoint == c.contactEndpoint
    ensures v.price == OptOrElse(c.price, "")
  {
    CapabilityView(c.name, c.description, c.category, c.contactMethod, c.contactEndpoint,
                   c.approvalMode, c.scope, c.availability, OptOrElse(c.price, ""))
  }

  /**
   * The capabilities the listing shows, filtered and mapped in one pass: the
   * views of the public capabilities, in their order.
   */
  function ViewCapabilities(caps: seq<Capability>): (r: seq<CapabilityView>)
    ensures |r| == |PublicCaps(caps)|
    ensures forall i :: 0 <= i < |r| ==> r[i] == ViewCapability(PublicCaps(caps)[i])
  {
    if caps == [] then []
    else
      var rest := ViewCapabilities(caps[1..]);
      if caps[0].isPublic then
        assert PublicCaps(caps) == [caps[0]] + PublicCaps(caps[1..]);
        [ViewCapability(caps[0])] + rest
      else
        assert PublicCaps(caps) == PublicCaps(caps[1..]);
        rest
  }

  /** Every capability shown comes from a public capability of the profile, and every public one is shown. */
  lemma ViewsArePublic(caps: seq<Capability>)
    ensures forall v :: v in ViewCapabilities(caps) ==> exists c :: c in caps && c.isPublic && v == ViewCapability(c)
    ensures forall c :: c in caps && c.isPublic ==> ViewCapability(c) in ViewCapabilities(caps)
  {
    var r := ViewCapabilities(caps);
    var pub := PublicCaps(caps);
    forall v | v in r ensures exists c :: c in caps && c.isPublic && v == ViewCapability(c) {
      var i :| 0 <= i < |r| && r[i] == v;
      assert pub[i] in pub;
    }
    forall c | c in caps && c.isPublic ensures ViewCapability(c) in r {
      assert c in pub;
      var i :| 0 <= i < |pub| && pub[i] == c;
      assert r[i] == ViewCapability(c);
    }
  }

  /** The public view of a profile with its rating; an absent wallet address is shown as `''`. */
  function ViewAgent(p: AgentProfile, rating: AgentRatingSummary): (a: AgentView)
    ensures a.username == p.username && a.displayName == p.displayName
    ensures a.walletAddress == OptOrElse(p.walletAddress, "")
    ensures a.rating == rating
  {
    AgentView(p.username, p.displayName, p.bio, p.avatarUrl, p.website,
              OptOrElse(p.walletAddress, ""), rating, ViewCapabilities(p.capabilities))
  }

  /** `ratings[username] || { averageRating: 0, totalReviews: 0 }`. */
  function RatingOr(ratings: map<string, AgentRatingSummary>, username: string): (r: AgentRatingSummary)
    ensures username in ratings ==> r == ratings[username]
    ensures username !in ratings ==> r == DefaultRating
  {
    if username in ratings then ratings[username] else DefaultRating
  }

  /** The listing of `profiles`: one view each, in order, rated from the counters of `d`. */
  function Listing(d: Db, profiles: seq<AgentProfile>): (r: seq<AgentView>)
    ensures |r| == |profiles|
    ensures forall i :: 0 <= i < |r| ==> r[i] == ViewAgent(profiles[i], GetAgentRating(d, profiles[i].username))
  {
    seq(|profiles|, i requires 0 <= i < |profiles| => ViewAgent(profiles[i], GetAgentRating(d, profiles[i].username)))
  }

  /** An agent without reviews is listed with the rating `{0, 0}`. */
  lemma UnreviewedRating(d: Db, profiles: seq<AgentProfile>, i: nat)
    requires i < |profiles|
    requires Counter(d.ratingCounts, profiles[i].username) == 0
    ensures Listing(d, profiles)[i].rating == DefaultRating
  {
  }

  // ---------------------------------------------------------------------
  // The handler

  /**
   * `GET /api/agents?q=&category=&limit=` with the corrected limit:
   * `listed` is the list the source gives, and the answer is the listing of
   * its first `CappedLimit(limit)` profiles. That is the listing the handler
   * as written gives whenever its own limit is not negative; a negative one
   * is where the two differ (`NegativeLimitPassesCap`). Under the store's
   * invariants the source list is the search result, the category's
   * published profiles, or all published profiles.
   */
  method ListAgents(store: Store, q: Option<string>, category: Option<string>, limit: Option<string>)
    returns (listed: seq<AgentProfile>, agents: seq<AgentView>)
    ensures agents == Listing(store.Contents(), SliceTo(listed, CappedLimit(limit)))
    ensures 0 <= RequestedLimit(limit) ==> agents == Listing(store.Contents(), SliceTo(listed, RequestedLimit(limit)))
    ensures |agents| <= 100
    ensures ChooseSource(q, category) == UnknownCategory ==> listed == []
    ensures ChooseSource(q, category).Search? ==>
      && |listed| <= 20
      && (ProfilesConsistent(store.Contents()) ==> SearchSound(store.Contents(), q.value, listed))
      && (ProfilesConsistent(store.Contents()) ==> SearchWindowComplete(store.Contents(), q.value, 20, listed))
    ensures ProfilesConsistent(store.Contents()) ==>
      match ChooseSource(q, category)
      case ByCategory(c) => forall p :: p in listed <==> PublishedProfile(store.Contents(), p) && c in PublicCategories(p.capabilities)
      case AllPublished => forall p :: p in listed <==> PublishedProfile(store.Contents(), p)
      case _ => true
  {
    var source := ChooseSource(q, category);
    match source {
      case Search(query) =>
        listed := store.SearchProfiles(query);
      case ByCategory(c) =>
        listed := store.GetProfilesByCategory(c);
      case UnknownCategory =>
        listed := [];
      case AllPublished =>
        listed := store.GetPublishedProfiles();
    }
    var sliced := SliceTo(listed, CappedLimit(limit));
    agents := ViewListing(store, sliced);
    CappedListingBound(listed, limit);
  }

  /**
   * The ratings of `profiles` fetched in one batch, then one view per
   * profile with its rating, or `{0, 0}` when the batch has none for it.
   */
  method ViewListing(store: Store, profiles: seq<AgentProfile>) returns (agents: seq<AgentView>)
    ensures agents == Listing(store.Contents(), profiles)
  {
    var usernames := seq(|profiles|, i requires 0 <= i < |profiles| => profiles[i].username);
    var ratings := store.GetAgentRatings(usernames);
    agents := seq(|profiles|, i requires 0 <= i < |profiles| => ViewAgent(profiles[i], RatingOr(ratings, profiles[i].username)));
    forall i | 0 <= i < |profiles| ensures agents[i] == ViewAgent(profiles[i], GetAgentRating(store.Contents(), profiles[i].username)) {
      assert usernames[i] == profiles[i].username;
    }
  }
}
