/**
 * The data layer of the agent directory over a Redis-like key-value store.
 *
 * Every key the layer uses is built by one of the key helpers below; they
 * are pairwise distinct for distinct arguments (see the key lemmas), so the
 * store is modelled as one field per kind of key: profile hashes by
 * username, the set of usernames, the GitHub-id pointers, the published set,
 * one set per category, the search sorted set, one review timeline per
 * agent, review hashes by (agent, reviewer) and the two rating counters
 * per agent. A missing key reads as the empty hash, the empty set or 0.
 *
 * `Db` is the store's contents as a value. Each write operation of the
 * `Store` class is specified by a function from the old `Db` to the new
 * one (`AfterCreate`, `AfterUpdate`, `AfterReview`), and the invariants the
 * indexes are meant to keep (`ProfilesConsistent`, `RatingsConsistent`)
 * are proved preserved by those functions.
 */
module RedisData {
  import opened Wrappers
  import opened Types
  import opened Strings
  import opened Lists
  import opened SortedSets
  import opened CapabilityLists
  import CapabilityJson

  // ---------------------------------------------------------------------
  // Key helpers

  const ProfilePrefix := "agentpages:profile:"
  const UsernamesKey := "agentpages:usernames"
  const ByGithubPrefix := "agentpages:username:by-github:"
  const PublishedKey := "agentpages:published"
  const CategoryPrefix := "agentpages:category:"
  const SearchNamesKey := "agentpages:search:names"
  const ReviewPrefix := "agentpages:review:"
  const ReviewsPrefix := "agentpages:reviews:"
  const RatingSumPrefix := "agentpages:rating:sum:"
  const RatingCountPrefix := "agentpages:rating:count:"

  function ProfileKey(username: string): string { ProfilePrefix + username }
  function UsernameByGithubKey(githubId: string): string { ByGithubPrefix + githubId }
  function CategoryKey(c: CategoryId): string { CategoryPrefix + CategoryName(c) }
  function ReviewKey(username: string, githubId: string): string { ReviewPrefix + username + ":" + githubId }
  function ReviewsKey(username: string): string { ReviewsPrefix + username }
  function RatingSumKey(username: string): string { RatingSumPrefix + username }
  function RatingCountKey(username: string): string { RatingCountPrefix + username }

  lemma PrefixedInjective(p: string, a: string, b: string)
    requires p + a == p + b
    ensures a == b
  {
    assert a == (p + a)[|p|..];
    assert b == (p + b)[|p|..];
  }

  /** Distinct usernames, GitHub ids and categories name distinct keys. */
  lemma KeysInjective(a: string, b: string, c: CategoryId, e: CategoryId)
    ensures ProfileKey(a) == ProfileKey(b) ==> a == b
    ensures UsernameByGithubKey(a) == UsernameByGithubKey(b) ==> a == b
    ensures ReviewsKey(a) == ReviewsKey(b) ==> a == b
    ensures RatingSumKey(a) == RatingSumKey(b) ==> a == b
    ensures RatingCountKey(a) == RatingCountKey(b) ==> a == b
    ensures CategoryKey(c) == CategoryKey(e) ==> c == e
  {
    if ProfileKey(a) == ProfileKey(b) { PrefixedInjective(ProfilePrefix, a, b); }
    if UsernameByGithubKey(a) == UsernameByGithubKey(b) { PrefixedInjective(ByGithubPrefix, a, b); }
    if ReviewsKey(a) == ReviewsKey(b) { PrefixedInjective(ReviewsPrefix, a, b); }
    if RatingSumKey(a) == RatingSumKey(b) { PrefixedInjective(RatingSumPrefix, a, b); }
    if RatingCountKey(a) == RatingCountKey(b) { PrefixedInjective(RatingCountPrefix, a, b); }
    if CategoryKey(c) == CategoryKey(e) {
      PrefixedInjective(CategoryPrefix, CategoryName(c), CategoryName(e));
      ParseCategoryName(c);
      ParseCategoryName(e);
    }
  }

  /** The sum and count counters of two agents never share a key. */
  lemma RatingKeysDisjoint(a: string, b: string)
    ensures RatingSumKey(a) != RatingCountKey(b)
  {
    assert RatingSumKey(a)[18] == 's';
    assert RatingCountKey(b)[18] == 'c';
  }

  /**
   * The review key joins agent and reviewer with ':'; it identifies the
   * pair as long as the agent's username has no ':' (usernames that pass
   * validation never do).
   */
  lemma ReviewKeyInjective(u1: string, g1: string, u2: string, g2: string)
    requires ':' !in u1 && ':' !in u2
    requires ReviewKey(u1, g1) == ReviewKey(u2, g2)
    ensures u1 == u2 && g1 == g2
  {
    assert ReviewKey(u1, g1) == ReviewPrefix + (u1 + ":" + g1);
    assert ReviewKey(u2, g2) == ReviewPrefix + (u2 + ":" + g2);
    PrefixedInjective(ReviewPrefix, u1 + ":" + g1, u2 + ":" + g2);
    var s1 := u1 + ":" + g1;
    var s2 := u2 + ":" + g2;
    ColonIndexOf(u1, g1);
    ColonIndexOf(u2, g2);
    assert u1 == s1[..|u1|] && u2 == s2[..|u2|];
    assert g1 == s1[|u1| + 1..] && g2 == s2[|u2| + 1..];
  }

  /** The position of the first ':' in `s`, or `|s|` when there is none. */
  function ColonIndex(s: string): (k: nat)
    ensures k <= |s|
    ensures forall i :: 0 <= i < k ==> s[i] != ':'
    ensures k < |s| ==> s[k] == ':'
    ensures ':' !in s ==> k == |s|
  {
    if |s| == 0 || s[0] == ':' then 0 else 1 + ColonIndex(s[1..])
  }

  lemma ColonIndexOf(u: string, rest: string)
    requires ':' !in u
    ensures ColonIndex(u + ":" + rest) == |u|
  {
    var s := u + ":" + rest;
    assert s[|u|] == ':';
    assert forall i :: 0 <= i < |u| ==> s[i] == u[i];
  }

  // ---------------------------------------------------------------------
  // Reserved usernames

  const ReservedUsernames: set<string> := {
    "api", "admin", "settings", "login", "directory",
    "about", "help", "support", "docs", "blog",
    "static", "public", "assets", "favicon", "hire"
  }

  /** A username is reserved when its lower-cased form is one of the route names. */
  predicate IsUsernameReserved(username: string)
  {
    Lower(username) in ReservedUsernames
  }

  /** Reservation ignores case: a name and its lower-cased form are reserved together. */
  lemma ReservedIgnoresCase(username: string)
    ensures IsUsernameReserved(username) <==> IsUsernameReserved(Lower(username))
  {
    LowerIdempotent(username);
  }

  // ---------------------------------------------------------------------
  // Hashes and their serialisation

  /** A Redis hash: field -> value. */
  type Hash = map<string, string>

  /** HGETALL: a missing key reads as the empty hash. */
  function HashAt<K>(hashes: map<K, Hash>, k: K): Hash
  {
    if k in hashes then hashes[k] else map[]
  }

  /** `data.field || ''`: a missing field reads as the empty string. */
  function Field(h: Hash, name: string): string
  {
    if name in h then h[name] else ""
  }

  const ProfileFields: set<string> := {
    "username", "displayName", "bio", "avatarUrl", "website", "githubId",
    "email", "walletAddress", "capabilities", "isPublished", "createdAt", "updatedAt"
  }

  function SerializeProfile(p: AgentProfile): Hash
  {
    map[
      "username" := p.username,
      "displayName" := p.displayName,
      "bio" := p.bio,
      "avatarUrl" := p.avatarUrl,
      "website" := p.website,
      "githubId" := p.githubId,
      "email" := p.email,
      "walletAddress" := OptOrElse(p.walletAddress, ""),
      "capabilities" := CapabilityJson.Stringify(p.capabilities),
      "isPublished" := if p.isPublished then "1" else "0",
      "createdAt" := p.createdAt,
      "updatedAt" := p.updatedAt
    ]
  }

  /** A serialised profile has exactly the twelve profile fields. */
  lemma SerializedProfileKeys(p: AgentProfile)
    ensures SerializeProfile(p).Keys == ProfileFields
  {
  }

  /** Reads a profile hash; the wallet address always reads as a string. */
  function DeserializeProfile(h: Hash): (p: AgentProfile)
    ensures p.walletAddress.Some?
  {
    var caps := match CapabilityJson.Parse(OrElse(Field(h, "capabilities"), "[]"))
                case Some(cs) => cs
                case None => [];
    AgentProfile(
      Field(h, "username"),
      Field(h, "displayName"),
      Field(h, "bio"),
      Field(h, "avatarUrl"),
      Field(h, "website"),
      Field(h, "githubId"),
      Field(h, "email"),
      Some(Field(h, "walletAddress")),
      caps,
      Field(h, "isPublished") == "1",
      Field(h, "createdAt"),
      Field(h, "updatedAt"))
  }

  /** A missing capabilities field, or one that does not parse, gives no capabilities. */
  lemma DeserializeWithoutCapabilities(h: Hash)
    ensures "capabilities" !in h ==> DeserializeProfile(h).capabilities == []
    ensures CapabilityJson.Parse(OrElse(Field(h, "capabilities"), "[]")).None? ==>
      DeserializeProfile(h).capabilities == []
  {
    CapabilityJson.ParseEmptyArray();
  }

  /** What a profile reads back as once stored: an absent wallet becomes `''`. */
  function Stored(p: AgentProfile): AgentProfile
  {
    p.(walletAddress := Some(OptOrElse(p.walletAddress, "")))
  }

  /** Fields written over a hash (HSET merges) read back as written. */
  lemma OverlayFields(old_: Hash, h: Hash)
    ensures forall k :: k in h.Keys ==> Field(old_ + h, k) == Field(h, k)
  {
  }

  /** A profile hash is read through its twelve fields only. */
  lemma DeserializeProfileFields(h1: Hash, h2: Hash)
    requires forall k :: k in ProfileFields ==> Field(h1, k) == Field(h2, k)
    ensures DeserializeProfile(h1) == DeserializeProfile(h2)
  {
    assert Field(h1, "capabilities") == Field(h2, "capabilities");
  }

  /**
   * Writing a profile over any earlier hash (HSET merges fields) and reading
   * it back gives the profile, with an absent wallet read as `''`.
   */
  lemma ProfileRoundTrip(old_: Hash, p: AgentProfile)
    ensures old_ + SerializeProfile(p) != map[]
    ensures DeserializeProfile(old_ + SerializeProfile(p)) == Stored(p)
  {
    var s := SerializeProfile(p);
    var h := old_ + s;
    assert "username" in h;
    SerializedProfileKeys(p);
    OverlayFields(old_, s);
    DeserializeProfileFields(h, s);
    DeserializeSerialized(p);
  }

  lemma DeserializeSerialized(p: AgentProfile)
    ensures DeserializeProfile(SerializeProfile(p)) == Stored(p)
  {
    SerializedFields(p);
    DeserializeStoredFields(SerializeProfile(p), p);
  }

  /** The fields of a serialised profile. */
  lemma SerializedFields(p: AgentProfile)
    ensures StoresFields(SerializeProfile(p), p)
  {
  }

  /** `h` holds the fields `SerializeProfile(p)` writes. */
  predicate StoresFields(h: Hash, p: AgentProfile)
  {
    && Field(h, "username") == p.username
    && Field(h, "displayName") == p.displayName
    && Field(h, "bio") == p.bio
    && Field(h, "avatarUrl") == p.avatarUrl
    && Field(h, "website") == p.website
    && Field(h, "githubId") == p.githubId
    && Field(h, "email") == p.email
    && Field(h, "walletAddress") == OptOrElse(p.walletAddress, "")
    && Field(h, "capabilities") == CapabilityJson.Stringify(p.capabilities)
    && Field(h, "isPublished") == (if p.isPublished then "1" else "0")
    && Field(h, "createdAt") == p.createdAt
    && Field(h, "updatedAt") == p.updatedAt
  }

  /** A hash holding the fields written for `p` reads back as `p`, with an absent wallet read as `''`. */
  lemma DeserializeStoredFields(h: Hash, p: AgentProfile)
    requires StoresFields(h, p)
    ensures DeserializeProfile(h) == Stored(p)
  {
    CapabilityJson.ParseStringify(p.capabilities);
  }

  /** Every field of a profile survives the round trip when the wallet is present. */
  lemma ProfileRoundTripExact(p: AgentProfile)
    requires p.walletAddress.Some?
    ensures DeserializeProfile(SerializeProfile(p)) == p
  {
    ProfileRoundTrip(map[], p);
    assert map[] + SerializeProfile(p) == SerializeProfile(p);
  }

  const ReviewFields: set<string> := {
    "id", "agentUsername", "reviewerGithubId", "reviewerDisplayName",
    "reviewerAvatarUrl", "rating", "comment", "createdAt", "updatedAt"
  }

  function SerializeReview(r: Review): Hash
  {
    map[
      "id" := r.id,
      "agentUsername" := r.agentUsername,
      "reviewerGithubId" := r.reviewerGithubId,
      "reviewerDisplayName" := r.reviewerDisplayName,
      "reviewerAvatarUrl" := r.reviewerAvatarUrl,
      "rating" := IntToString(r.rating),
      "comment" := r.comment,
      "createdAt" := r.createdAt,
      "updatedAt" := r.updatedAt
    ]
  }

  /** A serialised review has exactly the nine review fields. */
  lemma SerializedReviewKeys(r: Review)
    ensures SerializeReview(r).Keys == ReviewFields
  {
  }

  /** Reads a review hash; a rating that is not a number reads as 0. */
  function DeserializeReview(h: Hash): Review
  {
    Review(
      Field(h, "id"),
      Field(h, "agentUsername"),
      Field(h, "reviewerGithubId"),
      Field(h, "reviewerDisplayName"),
      Field(h, "reviewerAvatarUrl"),
      ParseInt(OrElse(Field(h, "rating"), "0")).GetOr(0),
      Field(h, "comment"),
      Field(h, "createdAt"),
      Field(h, "updatedAt"))
  }

  /** A review hash without a rating reads as a rating of 0. */
  lemma DeserializeWithoutRating(h: Hash)
    requires "rating" !in h
    ensures DeserializeReview(h).rating == 0
  {
    ParseIntToString(0);
  }

  /** Writing a review over any earlier hash and reading it back gives the review. */
  lemma ReviewRoundTrip(old_: Hash, r: Review)
    ensures old_ + SerializeReview(r) != map[]
    ensures DeserializeReview(old_ + SerializeReview(r)) == r
  {
    var h := old_ + SerializeReview(r);
    assert "id" in h;
    ParseIntToString(r.rating);
    assert |IntToString(r.rating)| > 0;
    assert Field(h, "rating") == IntToString(r.rating);
  }

  // ---------------------------------------------------------------------
  // Search index members

  /** The search member of a username: its lower-cased form, ':', then the username. */
  function SearchMember(username: string): string
  {
    Lower(username) + ":" + username
  }

  /** `m.split(':')[1]`: the text after the first ':' up to the next one; `None` without a ':'. */
  function IndexedName(m: string): (r: Option<string>)
    ensures r.Some? ==> ':' !in r.value
    ensures r.None? <==> ':' !in m
  {
    var k := ColonIndex(m);
    if k == |m| then None
    else
      var rest := m[k + 1..];
      Some(rest[..ColonIndex(rest)])
  }

  /** The username is recovered from its search member. */
  lemma IndexedNameOfMember(u: string)
    requires ':' !in u
    ensures IndexedName(SearchMember(u)) == Some(u)
  {
    LowerKeepsChar(u, ':');
    ColonIndexOf(Lower(u), u);
    var m := SearchMember(u);
    assert m[|Lower(u)| + 1..] == u;
    assert u[..|u|] == u;
  }

  /** `.map(m => m.split(':')[1]).filter(Boolean)` over the matched members. */
  function IndexedNames(ms: seq<string>): (r: seq<string>)
    ensures |r| <= |ms|
    ensures forall u :: u in r ==> u != "" && exists m :: m in ms && IndexedName(m) == Some(u)
  {
    if ms == [] then []
    else
      var first := IndexedName(ms[0]);
      (if first.Some? && first.value != "" then [first.value] else []) + IndexedNames(ms[1..])
  }

  /**
   * The members a ZRANGE BYLEX from `[prefix` to `[prefix\xff` selects: those
   * that start with `prefix`.
   */
  function PrefixMatches(z: ZSet, prefix: string): (r: ZSet)
    ensures forall m :: m in r <==> m in z && prefix <= m
    ensures forall m :: m in r ==> r[m] == z[m]
  {
    map m | m in z && prefix <= m :: z[m]
  }

  // ---------------------------------------------------------------------
  // The stored data

  datatype Db = Db(
    profiles: map<string, Hash>,
    usernames: set<string>,
    usernameByGithub: map<string, string>,
    published: set<string>,
    categories: map<CategoryId, set<string>>,
    searchNames: ZSet,
    reviewTimelines: map<string, ZSet>,
    reviews: map<(string, string), Hash>,
    ratingSums: map<string, int>,
    ratingCounts: map<string, int>)

  /** SMEMBERS: a missing set reads as empty. */
  function SetAt<K>(sets: map<K, set<string>>, k: K): set<string>
  {
    if k in sets then sets[k] else {}
  }

  /** GET of a counter: a missing counter reads as 0. */
  function Counter(counters: map<string, int>, k: string): int
  {
    if k in counters then counters[k] else 0
  }

  /** The review timeline of an agent: reviewer GitHub id -> time of the review's last update. */
  function Timeline(d: Db, username: string): ZSet
  {
    if username in d.reviewTimelines then d.reviewTimelines[username] else map[]
  }

  // ---------------------------------------------------------------------
  // Single-key reads

  /** `None` when the profile hash is missing or empty. */
  function GetProfileByUsername(d: Db, username: string): (r: Option<AgentProfile>)
    ensures r.Some? <==> HashAt(d.profiles, username) != map[]
    ensures r.Some? ==> r.value.walletAddress.Some?
  {
    var h := HashAt(d.profiles, username);
    if h == map[] then None else Some(DeserializeProfile(h))
  }

  /** Follows the GitHub-id pointer; a missing or empty pointer gives `None`. */
  function GetProfileByGithubId(d: Db, githubId: string): (r: Option<AgentProfile>)
    ensures r.Some? ==> githubId in d.usernameByGithub && d.usernameByGithub[githubId] != ""
    ensures r.Some? ==> r == GetProfileByUsername(d, d.usernameByGithub[githubId])
  {
    if githubId !in d.usernameByGithub || d.usernameByGithub[githubId] == "" then None
    else GetProfileByUsername(d, d.usernameByGithub[githubId])
  }

  predicate IsUsernameTaken(d: Db, username: string)
  {
    username in d.usernames
  }

  /** `None` when the review hash is missing or empty. */
  function GetReview(d: Db, username: string, githubId: string): (r: Option<Review>)
    ensures r.Some? <==> HashAt(d.reviews, (username, githubId)) != map[]
  {
    var h := HashAt(d.reviews, (username, githubId));
    if h == map[] then None else Some(DeserializeReview(h))
  }

  /** The summary of a running sum and count: the mean, or 0 when there is no review. */
  function RatingSummary(sum: int, count: int): (r: AgentRatingSummary)
    ensures r.totalReviews == count
    ensures count > 0 ==> r.averageRating * count as real == sum as real
    ensures count <= 0 ==> r.averageRating == 0.0
  {
    AgentRatingSummary(if count > 0 then sum as real / count as real else 0.0, count)
  }

  function GetAgentRating(d: Db, username: string): AgentRatingSummary
  {
    RatingSummary(Counter(d.ratingSums, username), Counter(d.ratingCounts, username))
  }

  // ---------------------------------------------------------------------
  // Writes, as functions of the stored data

  /** The category list `updateProfile` walks, in its order. */
  const AllCategories: seq<CategoryId> := [
    Scheduling, Freelance, Purchasing, Social, Research,
    Communication, Data, Development, Finance, Creative, Other
  ]

  lemma AllCategoriesComplete(c: CategoryId)
    ensures c in AllCategories
  {
  }

  /** SADD `u` to each set named in `keys`. */
  function AddTo(sets: map<CategoryId, set<string>>, keys: set<CategoryId>, u: string): (r: map<CategoryId, set<string>>)
    ensures forall k :: SetAt(r, k) == SetAt(sets, k) + (if k in keys then {u} else {})
  {
    map k | k in sets.Keys + keys :: SetAt(sets, k) + (if k in keys then {u} else {})
  }

  /** SREM `u` from each set named in `keys`. */
  function RemoveFrom(sets: map<CategoryId, set<string>>, keys: set<CategoryId>, u: string): (r: map<CategoryId, set<string>>)
    ensures forall k :: SetAt(r, k) == SetAt(sets, k) - (if k in keys then {u} else {})
  {
    map k | k in sets.Keys + keys :: SetAt(sets, k) - (if k in keys then {u} else {})
  }

  /**
   * The store after `createProfile(p)`, the profile's hash being `h`. The
   * hash is a parameter so that the index proofs hold whatever the encoding;
   * `AfterCreate` supplies `SerializeProfile(p)`.
   */
  function CreateWith(d: Db, p: AgentProfile, h: Hash): Db
  {
    var u := p.username;
    d.(profiles := d.profiles[u := HashAt(d.profiles, u) + h],
       usernames := d.usernames + {u},
       usernameByGithub := d.usernameByGithub[p.githubId := u],
       searchNames := d.searchNames[SearchMember(u) := 0],
       published := if p.isPublished then d.published + {u} else d.published,
       categories := if p.isPublished then AddTo(d.categories, PublicCategories(p.capabilities), u) else d.categories)
  }

  /** The store after `createProfile(p)`. */
  function AfterCreate(d: Db, p: AgentProfile): Db
  {
    CreateWith(d, p, SerializeProfile(p))
  }

  /** `Partial<AgentProfile>`: the fields an update supplies. */
  datatype ProfileUpdates = ProfileUpdates(
    username: Option<string>,
    displayName: Option<string>,
    bio: Option<string>,
    avatarUrl: Option<string>,
    website: Option<string>,
    githubId: Option<string>,
    email: Option<string>,
    walletAddress: Option<string>,
    capabilities: Option<seq<Capability>>,
    isPublished: Option<bool>,
    createdAt: Option<string>,
    updatedAt: Option<string>)

  const NoUpdates := ProfileUpdates(None, None, None, None, None, None, None, None, None, None, None, None)

  /**
   * `{...existing, ...updates, username, githubId, updatedAt: now}`: supplied
   * fields replace the existing ones, except that the username and the
   * GitHub id never change and the update time is always `now`.
   */
  function ApplyUpdates(existing: AgentProfile, updates: ProfileUpdates, now: string): (r: AgentProfile)
    ensures r.username == existing.username && r.githubId == existing.githubId
    ensures r.updatedAt == now
    ensures updates == NoUpdates ==> r == existing.(updatedAt := now)
  {
    AgentProfile(
      existing.username,
      updates.displayName.GetOr(existing.displayName),
      updates.bio.GetOr(existing.bio),
      updates.avatarUrl.GetOr(existing.avatarUrl),
      updates.website.GetOr(existing.website),
      existing.githubId,
      updates.email.GetOr(existing.email),
      if updates.walletAddress.Some? then updates.walletAddress else existing.walletAddress,
      updates.capabilities.GetOr(existing.capabilities),
      updates.isPublished.GetOr(existing.isPublished),
      updates.createdAt.GetOr(existing.createdAt),
      now)
  }

  /** The store after `updateProfile(username, updates)`, having found `existing`, wrote the hash `h` of `updated`. */
  function UpdateWith(d: Db, username: string, existing: AgentProfile, updated: AgentProfile, h: Hash): Db
  {
    d.(profiles := d.profiles[username := HashAt(d.profiles, username) + h],
       searchNames := (d.searchNames - {SearchMember(existing.username)})[SearchMember(updated.username) := 0],
       published := if updated.isPublished then d.published + {username} else d.published - {username},
       categories := AddTo(RemoveFrom(d.categories, (set c | c in AllCategories), username),
                           if updated.isPublished then PublicCategories(updated.capabilities) else {},
                           username))
  }

  /** The store after `updateProfile(username, updates)` found the profile `existing`. */
  function AfterUpdate(d: Db, username: string, existing: AgentProfile, updated: AgentProfile): Db
  {
    UpdateWith(d, username, existing, updated, SerializeProfile(updated))
  }

  /** The running-sum change of a review: the new rating, or its difference from the old one. */
  function SumDelta(rating: int, oldRating: Option<int>): int
  {
    match oldRating
    case Some(o) => rating - o
    case None => rating
  }

  /**
   * The store after `createOrUpdateReview(review, oldRating)` wrote the hash
   * `h` for the review, whose time has score `score` in the timeline.
   */
  function ReviewWith(d: Db, review: Review, oldRating: Option<int>, score: int, h: Hash): Db
  {
    var u := review.agentUsername;
    var g := review.reviewerGithubId;
    d.(reviews := d.reviews[(u, g) := HashAt(d.reviews, (u, g)) + h],
       reviewTimelines := d.reviewTimelines[u := Timeline(d, u)[g := score]],
       ratingSums := d.ratingSums[u := Counter(d.ratingSums, u) + SumDelta(review.rating, oldRating)],
       ratingCounts := if oldRating.Some? then d.ratingCounts else d.ratingCounts[u := Counter(d.ratingCounts, u) + 1])
  }

  /** The store after `createOrUpdateReview(review, oldRating)`, the review's time having score `score`. */
  function AfterReview(d: Db, review: Review, oldRating: Option<int>, score: int): Db
  {
    ReviewWith(d, review, oldRating, score, SerializeReview(review))
  }

  // ---------------------------------------------------------------------
  // The profile indexes
  //
  // The invariants are stated for any reader of profile hashes; the store's
  // reader is `DeserializeProfile`. The preservation proofs need of the
  // reader only that a written profile reads back (`ProfileRoundTrip`), so
  // they never look inside the capability parser.

  type Reader = Hash -> AgentProfile

  /** The profile stored under a username, as read back. */
  function Record(d: Db, u: string): AgentProfile
  {
    DeserializeProfile(HashAt(d.profiles, u))
  }

  /** The profile `read` makes of the hash stored under `u`. */
  function ReadBy(read: Reader, d: Db, u: string): AgentProfile
  {
    read(HashAt(d.profiles, u))
  }

  /** A username belongs in category `c`'s set: published, with a public capability in `c`. */
  predicate Listed(read: Reader, d: Db, u: string, c: CategoryId)
  {
    ReadBy(read, d, u).isPublished && c in PublicCategories(ReadBy(read, d, u).capabilities)
  }

  predicate RecordConsistent(read: Reader, d: Db, u: string)
  {
    ':' !in u && HashAt(d.profiles, u) != map[] && ReadBy(read, d, u).username == u
  }

  predicate PointerConsistent(read: Reader, d: Db, g: string)
  {
    g in d.usernameByGithub ==>
      d.usernameByGithub[g] in d.usernames && ReadBy(read, d, d.usernameByGithub[g]).githubId == g
  }

  /** Every profile hash belongs to a registered username and names it. */
  ghost predicate RecordsConsistent(read: Reader, d: Db)
  {
    && (forall u :: u in d.profiles ==> u in d.usernames)
    && (forall u :: u in d.usernames ==> RecordConsistent(read, d, u))
  }

  /** The published set holds exactly the usernames whose profiles are published. */
  ghost predicate PublishedConsistent(read: Reader, d: Db)
  {
    forall v :: v in d.published <==> v in d.usernames && ReadBy(read, d, v).isPublished
  }

  /** Category `c`'s set holds exactly the usernames listed in `c`. */
  ghost predicate CategoryConsistent(read: Reader, d: Db, c: CategoryId)
  {
    forall v :: v in SetAt(d.categories, c) <==> v in d.usernames && Listed(read, d, v, c)
  }

  /**
   * The search set holds, with score 0, the search member of every username
   * and nothing else.
   */
  ghost predicate SearchConsistent(d: Db)
  {
    && (forall v :: v in d.usernames ==> SearchMember(v) in d.searchNames)
    && (forall m :: m in d.searchNames ==> MemberConsistent(d, m))
  }

  predicate MemberConsistent(d: Db, m: string)
    requires m in d.searchNames
  {
    && d.searchNames[m] == 0
    && IndexedName(m).Some?
    && IndexedName(m).value in d.usernames
    && m == SearchMember(IndexedName(m).value)
  }

  /** Each GitHub pointer leads to a profile with that GitHub id. */
  ghost predicate PointersConsistent(read: Reader, d: Db)
  {
    forall g :: PointerConsistent(read, d, g)
  }

  /** What the indexes are meant to hold, all together, for profiles read by `read`. */
  ghost predicate IndexesConsistent(read: Reader, d: Db)
  {
    && RecordsConsistent(read, d)
    && PublishedConsistent(read, d)
    && (forall c :: CategoryConsistent(read, d, c))
    && SearchConsistent(d)
    && PointersConsistent(read, d)
  }

  /** The indexes agree with the stored profiles. */
  ghost predicate ProfilesConsistent(d: Db)
  {
    IndexesConsistent(DeserializeProfile, d)
  }

  /** Only the profile hash of `u` differs between `d` and `d'`. */
  ghost predicate OtherHashesKept(d: Db, d': Db, u: string)
  {
    forall v :: v != u ==> HashAt(d'.profiles, v) == HashAt(d.profiles, v)
  }

  /** A write to one profile hash reads back as written and leaves every other hash as it was. */
  lemma RecordsAfterWrite(read: Reader, d: Db, d': Db, u: string, h: Hash, p: AgentProfile)
    requires d'.profiles == d.profiles[u := HashAt(d.profiles, u) + h] && h != map[]
    requires read(HashAt(d.profiles, u) + h) == Stored(p)
    ensures ReadBy(read, d', u) == Stored(p) && HashAt(d'.profiles, u) != map[]
    ensures d'.profiles.Keys == d.profiles.Keys + {u}
    ensures OtherHashesKept(d, d', u)
  {
    var k :| k in h;
    assert k in HashAt(d'.profiles, u);
  }

  // Each invariant is carried from `d` to `d'` by a step lemma that only
  // assumes what a write of `u`'s profile changes; creating and updating a
  // profile both discharge those assumptions.

  lemma RecordsStep(read: Reader, d: Db, d': Db, u: string)
    requires RecordsConsistent(read, d) && OtherHashesKept(d, d', u)
    requires d'.profiles.Keys == d.profiles.Keys + {u} && d'.usernames == d.usernames + {u}
    requires RecordConsistent(read, d', u)
    ensures RecordsConsistent(read, d')
  {
    forall v | v in d'.usernames ensures RecordConsistent(read, d', v) {
      if v != u {
        assert RecordConsistent(read, d, v);
      }
    }
  }

  lemma PublishedStep(read: Reader, d: Db, d': Db, u: string)
    requires PublishedConsistent(read, d) && OtherHashesKept(d, d', u)
    requires d'.usernames == d.usernames + {u}
    requires forall v :: v != u ==> (v in d'.published <==> v in d.published)
    requires u in d'.published <==> ReadBy(read, d', u).isPublished
    ensures PublishedConsistent(read, d')
  {
    forall v ensures v in d'.published <==> v in d'.usernames && ReadBy(read, d', v).isPublished {
      if v != u {
        assert ReadBy(read, d', v) == ReadBy(read, d, v);
      }
    }
  }

  lemma CategoryStep(read: Reader, d: Db, d': Db, u: string, c: CategoryId)
    requires CategoryConsistent(read, d, c) && OtherHashesKept(d, d', u)
    requires d'.usernames == d.usernames + {u}
    requires forall v :: v != u ==> (v in SetAt(d'.categories, c) <==> v in SetAt(d.categories, c))
    requires u in SetAt(d'.categories, c) <==> Listed(read, d', u, c)
    ensures CategoryConsistent(read, d', c)
  {
    forall v ensures v in SetAt(d'.categories, c) <==> v in d'.usernames && Listed(read, d', v, c) {
      if v != u {
        assert ReadBy(read, d', v) == ReadBy(read, d, v);
      }
    }
  }

  lemma SearchStep(d: Db, d': Db, u: string)
    requires SearchConsistent(d) && ':' !in u
    requires d'.usernames == d.usernames + {u}
    requires forall m :: m != SearchMember(u) ==> (m in d'.searchNames <==> m in d.searchNames)
    requires forall m :: m in d'.searchNames && m != SearchMember(u) ==> d'.searchNames[m] == d.searchNames[m]
    requires SearchMember(u) in d'.searchNames && d'.searchNames[SearchMember(u)] == 0
    ensures SearchConsistent(d')
  {
    IndexedNameOfMember(u);
    forall m | m in d'.searchNames ensures MemberConsistent(d', m) {
      if m != SearchMember(u) {
        assert MemberConsistent(d, m);
      }
    }
  }

  lemma PointersStep(read: Reader, d: Db, d': Db, u: string)
    requires PointersConsistent(read, d) && OtherHashesKept(d, d', u)
    requires d'.usernames == d.usernames + {u}
    requires forall g :: g in d'.usernameByGithub ==>
      if d'.usernameByGithub[g] == u then ReadBy(read, d', u).githubId == g
      else g in d.usernameByGithub && d'.usernameByGithub[g] == d.usernameByGithub[g]
    ensures PointersConsistent(read, d')
  {
    forall g ensures PointerConsistent(read, d', g) {
      if g in d'.usernameByGithub && d'.usernameByGithub[g] != u {
        assert PointerConsistent(read, d, g);
        assert ReadBy(read, d', d.usernameByGithub[g]) == ReadBy(read, d, d.usernameByGithub[g]);
      }
    }
  }

  /**
   * Creating a profile under a fresh username without ':' keeps the indexes
   * consistent, for any reader that reads the written hash back as the profile.
   */
  lemma CreateKeepsIndexes(read: Reader, d: Db, p: AgentProfile, h: Hash)
    requires IndexesConsistent(read, d)
    requires !IsUsernameTaken(d, p.username) && ':' !in p.username
    requires h != map[] && read(HashAt(d.profiles, p.username) + h) == Stored(p)
    ensures IndexesConsistent(read, CreateWith(d, p, h))
  {
    CreateKeepsRecords(read, d, p, h);
    CreateKeepsPublished(read, d, p, h);
    forall c: CategoryId ensures CategoryConsistent(read, CreateWith(d, p, h), c) {
      CreateKeepsCategory(read, d, p, h, c);
    }
    CreateKeepsSearch(d, p, h);
    CreateKeepsPointers(read, d, p, h);
  }

  lemma CreateKeepsSearch(d: Db, p: AgentProfile, h: Hash)
    requires SearchConsistent(d) && ':' !in p.username
    ensures SearchConsistent(CreateWith(d, p, h))
  {
    SearchStep(d, CreateWith(d, p, h), p.username);
  }

  lemma CreateKeepsRecords(read: Reader, d: Db, p: AgentProfile, h: Hash)
    requires RecordsConsistent(read, d) && ':' !in p.username
    requires h != map[] && read(HashAt(d.profiles, p.username) + h) == Stored(p)
    ensures RecordsConsistent(read, CreateWith(d, p, h))
  {
    RecordsAfterWrite(read, d, CreateWith(d, p, h), p.username, h, p);
    RecordsStep(read, d, CreateWith(d, p, h), p.username);
  }

  lemma CreateKeepsPublished(read: Reader, d: Db, p: AgentProfile, h: Hash)
    requires PublishedConsistent(read, d) && !IsUsernameTaken(d, p.username)
    requires h != map[] && read(HashAt(d.profiles, p.username) + h) == Stored(p)
    ensures PublishedConsistent(read, CreateWith(d, p, h))
  {
    RecordsAfterWrite(read, d, CreateWith(d, p, h), p.username, h, p);
    PublishedStep(read, d, CreateWith(d, p, h), p.username);
  }

  lemma CreateKeepsCategory(read: Reader, d: Db, p: AgentProfile, h: Hash, c: CategoryId)
    requires CategoryConsistent(read, d, c) && !IsUsernameTaken(d, p.username)
    requires h != map[] && read(HashAt(d.profiles, p.username) + h) == Stored(p)
    ensures CategoryConsistent(read, CreateWith(d, p, h), c)
  {
    RecordsAfterWrite(read, d, CreateWith(d, p, h), p.username, h, p);
    CategoryStep(read, d, CreateWith(d, p, h), p.username, c);
  }

  lemma CreateKeepsPointers(read: Reader, d: Db, p: AgentProfile, h: Hash)
    requires PointersConsistent(read, d) && !IsUsernameTaken(d, p.username)
    requires h != map[] && read(HashAt(d.profiles, p.username) + h) == Stored(p)
    ensures PointersConsistent(read, CreateWith(d, p, h))
  {
    var u := p.username;
    RecordsAfterWrite(read, d, CreateWith(d, p, h), u, h, p);
    forall g | g in d.usernameByGithub ensures d.usernameByGithub[g] != u {
      assert PointerConsistent(read, d, g);
    }
    PointersStep(read, d, CreateWith(d, p, h), u);
  }

  /** Creating a profile under a fresh username without ':' keeps the indexes consistent. */
  lemma CreatePreservesConsistency(d: Db, p: AgentProfile)
    requires ProfilesConsistent(d)
    requires !IsUsernameTaken(d, p.username) && ':' !in p.username
    ensures ProfilesConsistent(AfterCreate(d, p))
  {
    ProfileRoundTrip(HashAt(d.profiles, p.username), p);
    CreateKeepsIndexes(DeserializeProfile, d, p, SerializeProfile(p));
  }

  /** A created profile reads back, by username and by GitHub id. */
  lemma CreateThenRead(d: Db, p: AgentProfile)
    requires p.username != ""
    ensures GetProfileByUsername(AfterCreate(d, p), p.username) == Some(Stored(p))
    ensures GetProfileByGithubId(AfterCreate(d, p), p.githubId) == Some(Stored(p))
    ensures IsUsernameTaken(AfterCreate(d, p), p.username)
  {
    ProfileRoundTrip(HashAt(d.profiles, p.username), p);
  }

  /**
   * Updating the profile of a registered username keeps the indexes
   * consistent, for any reader that reads the written hash back as the profile.
   */
  lemma UpdateKeepsIndexes(read: Reader, d: Db, u: string, existing: AgentProfile, updated: AgentProfile, h: Hash)
    requires IndexesConsistent(read, d) && u in d.usernames
    requires existing.username == u && updated.username == u
    requires updated.githubId == ReadBy(read, d, u).githubId
    requires h != map[] && read(HashAt(d.profiles, u) + h) == Stored(updated)
    ensures IndexesConsistent(read, UpdateWith(d, u, existing, updated, h))
  {
    assert RecordConsistent(read, d, u);
    UpdateKeepsRecords(read, d, u, existing, updated, h);
    UpdateKeepsPublished(read, d, u, existing, updated, h);
    forall c: CategoryId ensures CategoryConsistent(read, UpdateWith(d, u, existing, updated, h), c) {
      UpdateKeepsCategory(read, d, u, existing, updated, h, c);
    }
    UpdateKeepsSearch(d, u, existing, updated, h);
    UpdateKeepsPointers(read, d, u, existing, updated, h);
  }

  lemma UpdateKeepsSearch(d: Db, u: string, existing: AgentProfile, updated: AgentProfile, h: Hash)
    requires SearchConsistent(d) && u in d.usernames && ':' !in u
    requires existing.username == u && updated.username == u
    ensures SearchConsistent(UpdateWith(d, u, existing, updated, h))
  {
    var d' := UpdateWith(d, u, existing, updated, h);
    assert d'.usernames == d.usernames + {u};
    SearchStep(d, d', u);
  }

  lemma UpdateKeepsRecords(read: Reader, d: Db, u: string, existing: AgentProfile, updated: AgentProfile, h: Hash)
    requires RecordsConsistent(read, d) && u in d.usernames && updated.username == u
    requires h != map[] && read(HashAt(d.profiles, u) + h) == Stored(updated)
    ensures RecordsConsistent(read, UpdateWith(d, u, existing, updated, h))
  {
    assert RecordConsistent(read, d, u);
    RecordsAfterWrite(read, d, UpdateWith(d, u, existing, updated, h), u, h, updated);
    RecordsStep(read, d, UpdateWith(d, u, existing, updated, h), u);
  }

  lemma UpdateKeepsPublished(read: Reader, d: Db, u: string, existing: AgentProfile, updated: AgentProfile, h: Hash)
    requires PublishedConsistent(read, d) && u in d.usernames
    requires h != map[] && read(HashAt(d.profiles, u) + h) == Stored(updated)
    ensures PublishedConsistent(read, UpdateWith(d, u, existing, updated, h))
  {
    RecordsAfterWrite(read, d, UpdateWith(d, u, existing, updated, h), u, h, updated);
    PublishedStep(read, d, UpdateWith(d, u, existing, updated, h), u);
  }

  lemma UpdateKeepsCategory(read: Reader, d: Db, u: string, existing: AgentProfile, updated: AgentProfile, h: Hash, c: CategoryId)
    requires CategoryConsistent(read, d, c) && u in d.usernames
    requires h != map[] && read(HashAt(d.profiles, u) + h) == Stored(updated)
    ensures CategoryConsistent(read, UpdateWith(d, u, existing, updated, h), c)
  {
    RecordsAfterWrite(read, d, UpdateWith(d, u, existing, updated, h), u, h, updated);
    AllCategoriesComplete(c);
    CategoryStep(read, d, UpdateWith(d, u, existing, updated, h), u, c);
  }

  lemma UpdateKeepsPointers(read: Reader, d: Db, u: string, existing: AgentProfile, updated: AgentProfile, h: Hash)
    requires PointersConsistent(read, d) && u in d.usernames
    requires updated.githubId == ReadBy(read, d, u).githubId
    requires h != map[] && read(HashAt(d.profiles, u) + h) == Stored(updated)
    ensures PointersConsistent(read, UpdateWith(d, u, existing, updated, h))
  {
    RecordsAfterWrite(read, d, UpdateWith(d, u, existing, updated, h), u, h, updated);
    forall g | g in d.usernameByGithub && d.usernameByGithub[g] == u ensures updated.githubId == g {
      assert PointerConsistent(read, d, g);
    }
    PointersStep(read, d, UpdateWith(d, u, existing, updated, h), u);
  }

  /** Updating a stored profile keeps the indexes consistent. */
  lemma UpdatePreservesConsistency(d: Db, u: string, updates: ProfileUpdates, now: string)
    requires ProfilesConsistent(d)
    requires GetProfileByUsername(d, u).Some?
    ensures
      var existing := GetProfileByUsername(d, u).value;
      ProfilesConsistent(AfterUpdate(d, u, existing, ApplyUpdates(existing, updates, now)))
  {
    var existing := GetProfileByUsername(d, u).value;
    var updated := ApplyUpdates(existing, updates, now);
    assert u in d.profiles;
    assert RecordConsistent(DeserializeProfile, d, u);
    ProfileRoundTrip(HashAt(d.profiles, u), updated);
    UpdateKeepsIndexes(DeserializeProfile, d, u, existing, updated, SerializeProfile(updated));
  }

  /** An update reads back as the merged profile; no other profile changes. */
  lemma UpdateThenRead(d: Db, u: string, updates: ProfileUpdates, now: string, v: string)
    requires GetProfileByUsername(d, u).Some?
    ensures
      var existing := GetProfileByUsername(d, u).value;
      var d' := AfterUpdate(d, u, existing, ApplyUpdates(existing, updates, now));
      && GetProfileByUsername(d', u) == Some(Stored(ApplyUpdates(existing, updates, now)))
      && (v != u ==> GetProfileByUsername(d', v) == GetProfileByUsername(d, v))
  {
    var existing := GetProfileByUsername(d, u).value;
    ProfileRoundTrip(HashAt(d.profiles, u), ApplyUpdates(existing, updates, now));
  }

  /**
   * Where `createProfile` puts a fresh username: in the username set, behind
   * its GitHub pointer, in the search set as `lower(u):u`, in the published
   * set exactly when the profile is published, and in category `c` exactly
   * when it is published with a public capability in `c`; no other
   * username's memberships change.
   */
  lemma CreateIndexesProfile(d: Db, p: AgentProfile, v: string, c: CategoryId)
    requires ProfilesConsistent(d) && !IsUsernameTaken(d, p.username)
    ensures
      var d' := AfterCreate(d, p);
      var u := p.username;
      && u in d'.usernames
      && p.githubId in d'.usernameByGithub && d'.usernameByGithub[p.githubId] == u
      && SearchMember(u) in d'.searchNames && d'.searchNames[SearchMember(u)] == 0
      && (u in d'.published <==> p.isPublished)
      && (u in SetAt(d'.categories, c) <==> p.isPublished && c in PublicCategories(p.capabilities))
      && (v != u ==> (v in d'.published <==> v in d.published))
      && (v != u ==> (v in SetAt(d'.categories, c) <==> v in SetAt(d.categories, c)))
  {
    var u := p.username;
    assert u !in d.published;
    assert CategoryConsistent(DeserializeProfile, d, c);
    assert u !in SetAt(d.categories, c);
  }

  /**
   * Where `updateProfile` leaves the username: in the published set and in
   * category `c` exactly as the updated profile says, whatever they held
   * before; no other username's memberships change.
   */
  lemma UpdateIndexesProfile(d: Db, u: string, existing: AgentProfile, updated: AgentProfile, v: string, c: CategoryId)
    ensures
      var d' := AfterUpdate(d, u, existing, updated);
      && (u in d'.published <==> updated.isPublished)
      && (u in SetAt(d'.categories, c) <==> updated.isPublished && c in PublicCategories(updated.capabilities))
      && (v != u ==> (v in d'.published <==> v in d.published))
      && (v != u ==> (v in SetAt(d'.categories, c) <==> v in SetAt(d.categories, c)))
  {
    UpdateCategoryMembers(d.categories, u, updated, v, c);
  }

  /** The category sets after removing `u` from all eleven and adding it back to the published public categories. */
  lemma UpdateCategoryMembers(sets: map<CategoryId, set<string>>, u: string, updated: AgentProfile, v: string, c: CategoryId)
    ensures
      var r := AddTo(RemoveFrom(sets, (set c | c in AllCategories), u),
                     if updated.isPublished then PublicCategories(updated.capabilities) else {}, u);
      && (u in SetAt(r, c) <==> updated.isPublished && c in PublicCategories(updated.capabilities))
      && (v != u ==> (v in SetAt(r, c) <==> v in SetAt(sets, c)))
  {
    AllCategoriesComplete(c);
  }

  /** Under consistency a GitHub pointer leads to the profile of that GitHub user. */
  lemma GithubPointerLeadsToOwner(d: Db, g: string)
    requires ProfilesConsistent(d)
    ensures GetProfileByGithubId(d, g).Some? ==> GetProfileByGithubId(d, g).value.githubId == g
  {
    if GetProfileByGithubId(d, g).Some? {
      assert PointerConsistent(DeserializeProfile, d, g);
    }
  }

  // ---------------------------------------------------------------------
  // The rating counters

  /** The sum of a map's values. */
  ghost function SumValues(m: map<string, int>): int
    decreases m.Keys
  {
    if m == map[] then 0
    else
      var k :| k in m;
      m[k] + SumValues(m - {k})
  }

  lemma {:induction false} SumValuesRemove(m: map<string, int>, k: string)
    requires k in m
    ensures SumValues(m) == m[k] + SumValues(m - {k})
    decreases m.Keys
  {
    var j :| j in m && SumValues(m) == m[j] + SumValues(m - {j});
    if j != k {
      SumValuesRemove(m - {j}, k);
      SumValuesRemove(m - {k}, j);
      assert m - {j} - {k} == m - {k} - {j};
    }
  }

  /** Setting one entry changes the sum by the difference. */
  lemma SumValuesUpdate(m: map<string, int>, k: string, v: int)
    ensures SumValues(m[k := v]) == SumValues(m) - (if k in m then m[k] else 0) + v
  {
    SumValuesRemove(m[k := v], k);
    assert m[k := v] - {k} == m - {k};
    if k in m {
      SumValuesRemove(m, k);
    } else {
      assert m - {k} == m;
    }
  }

  /** Values of 1 to 5 sum to between one and five times their number. */
  lemma {:induction false} SumValuesStars(m: map<string, int>)
    requires forall k :: k in m ==> 1 <= m[k] <= 5
    ensures |m| <= SumValues(m) <= 5 * |m|
    decreases m.Keys
  {
    if m != map[] {
      var k :| k in m;
      var rest := m - {k};
      SumValuesRemove(m, k);
      SumValuesStars(rest);
      assert rest.Keys == m.Keys - {k};
      assert |m| == |m.Keys| && |rest| == |rest.Keys|;
    }
  }

  // The counter invariant is stated for any reader of the rating in a
  // review hash; the store's is `RatingOf`. As for the profile indexes, the
  // proofs only need that a written review reads back (`ReviewRoundTrip`).

  type RatingReader = Hash -> int

  /** The rating a review hash reads back with. */
  function RatingOf(h: Hash): int
  {
    DeserializeReview(h).rating
  }

  /** The ratings `rate` reads for agent `u`, by reviewer on its timeline. */
  function RatingsBy(rate: RatingReader, d: Db, u: string): (m: map<string, int>)
    ensures m.Keys == Timeline(d, u).Keys
  {
    map g | g in Timeline(d, u) :: rate(HashAt(d.reviews, (u, g)))
  }

  /** The ratings stored for agent `u`, by reviewer. */
  function StoredRatings(d: Db, u: string): map<string, int>
  {
    RatingsBy(RatingOf, d, u)
  }

  /**
   * Agent `u`'s timeline lists exactly the reviewers with a stored review,
   * its count counter is their number and its sum counter the sum of their
   * ratings.
   */
  ghost predicate AgentRatingsConsistent(rate: RatingReader, d: Db, u: string)
  {
    && (forall g :: g in Timeline(d, u) <==> HashAt(d.reviews, (u, g)) != map[])
    && Counter(d.ratingCounts, u) == |Timeline(d, u)|
    && Counter(d.ratingSums, u) == SumValues(RatingsBy(rate, d, u))
  }

  /** Every agent's counters agree with its stored reviews. */
  ghost predicate RatingsConsistent(d: Db)
  {
    forall u :: AgentRatingsConsistent(RatingOf, d, u)
  }

  /** The rating that `createOrUpdateReview` must be told about: that of the stored review, if any. */
  function PreviousRating(d: Db, username: string, githubId: string): (r: Option<int>)
    ensures r == if HashAt(d.reviews, (username, githubId)) == map[] then None
                 else Some(RatingOf(HashAt(d.reviews, (username, githubId))))
  {
    match GetReview(d, username, githubId)
    case None => None
    case Some(r) => Some(r.rating)
  }

  /** Only the review hash of (`u`, `g`) differs between `d` and `d'`. */
  ghost predicate OtherReviewsKept(d: Db, d': Db, u: string, g: string)
  {
    forall w, x :: (w, x) != (u, g) ==> HashAt(d'.reviews, (w, x)) == HashAt(d.reviews, (w, x))
  }

  /** Writing one review hash reads back as written and leaves every other review hash as it was. */
  lemma ReviewsAfterWrite(rate: RatingReader, d: Db, d': Db, u: string, g: string, h: Hash, rating: int)
    requires d'.reviews == d.reviews[(u, g) := HashAt(d.reviews, (u, g)) + h] && h != map[]
    requires rate(HashAt(d.reviews, (u, g)) + h) == rating
    ensures rate(HashAt(d'.reviews, (u, g))) == rating && HashAt(d'.reviews, (u, g)) != map[]
    ensures OtherReviewsKept(d, d', u, g)
  {
    var k :| k in h;
    assert k in HashAt(d'.reviews, (u, g));
  }

  /** An agent whose timeline, review hashes and counters are untouched keeps its invariant. */
  lemma AgentRatingsFrame(rate: RatingReader, d: Db, d': Db, w: string)
    requires AgentRatingsConsistent(rate, d, w)
    requires Timeline(d', w) == Timeline(d, w)
    requires forall x :: HashAt(d'.reviews, (w, x)) == HashAt(d.reviews, (w, x))
    requires Counter(d'.ratingCounts, w) == Counter(d.ratingCounts, w)
    requires Counter(d'.ratingSums, w) == Counter(d.ratingSums, w)
    ensures AgentRatingsConsistent(rate, d', w)
  {
    assert RatingsBy(rate, d', w) == RatingsBy(rate, d, w);
  }

  /** The reviewed agent's ratings gain or replace the reviewer's entry. */
  lemma RatingsAfterReview(rate: RatingReader, d: Db, d': Db, u: string, g: string, score: int, rating: int)
    requires Timeline(d', u) == Timeline(d, u)[g := score]
    requires OtherReviewsKept(d, d', u, g) && rate(HashAt(d'.reviews, (u, g))) == rating
    ensures RatingsBy(rate, d', u) == RatingsBy(rate, d, u)[g := rating]
  {
    var m := RatingsBy(rate, d', u);
    var m' := RatingsBy(rate, d, u)[g := rating];
    assert m.Keys == m'.Keys;
    forall x | x in m ensures m[x] == m'[x] {
      if x != g {
        assert HashAt(d'.reviews, (u, x)) == HashAt(d.reviews, (u, x));
      }
    }
  }

  /** Setting a timeline entry adds one member exactly when the reviewer was not on it. */
  lemma TimelineSize(t: ZSet, g: string, score: int)
    ensures |t[g := score]| == if g in t then |t| else |t| + 1
  {
    if g in t {
      assert t[g := score].Keys == t.Keys;
    } else {
      assert t[g := score].Keys == t.Keys + {g};
    }
    assert |t[g := score]| == |t[g := score].Keys| && |t| == |t.Keys|;
  }

  /** The count counter follows the timeline when it grows by one only for a first review. */
  lemma ReviewedCount(d: Db, d': Db, u: string, g: string, oldRating: Option<int>, score: int)
    requires Counter(d.ratingCounts, u) == |Timeline(d, u)|
    requires Timeline(d', u) == Timeline(d, u)[g := score]
    requires oldRating.Some? <==> g in Timeline(d, u)
    requires Counter(d'.ratingCounts, u) == Counter(d.ratingCounts, u) + (if oldRating.Some? then 0 else 1)
    ensures Counter(d'.ratingCounts, u) == |Timeline(d', u)|
  {
    TimelineSize(Timeline(d, u), g, score);
  }

  /** The sum counter follows the ratings when it moves by the difference between the new and the old rating. */
  lemma ReviewedSum(rate: RatingReader, d: Db, d': Db, u: string, g: string, oldRating: Option<int>, score: int, rating: int)
    requires Counter(d.ratingSums, u) == SumValues(RatingsBy(rate, d, u))
    requires Timeline(d', u) == Timeline(d, u)[g := score]
    requires OtherReviewsKept(d, d', u, g) && rate(HashAt(d'.reviews, (u, g))) == rating
    requires oldRating == if g in Timeline(d, u) then Some(rate(HashAt(d.reviews, (u, g)))) else None
    requires Counter(d'.ratingSums, u) == Counter(d.ratingSums, u) + SumDelta(rating, oldRating)
    ensures Counter(d'.ratingSums, u) == SumValues(RatingsBy(rate, d', u))
  {
    var before := RatingsBy(rate, d, u);
    RatingsAfterReview(rate, d, d', u, g, score, rating);
    SumValuesUpdate(before, g, rating);
  }

  /**
   * Storing a review, told the rating of the review it replaces (none for a
   * first review), keeps the reviewed agent's counters equal to the number
   * and the sum of its ratings, for any reader that reads the written hash
   * back with the review's rating.
   */
  lemma ReviewedAgentRatings(rate: RatingReader, d: Db, review: Review, oldRating: Option<int>, score: int, h: Hash)
    requires AgentRatingsConsistent(rate, d, review.agentUsername)
    requires oldRating == if HashAt(d.reviews, (review.agentUsername, review.reviewerGithubId)) == map[] then None
                          else Some(rate(HashAt(d.reviews, (review.agentUsername, review.reviewerGithubId))))
    requires h != map[] && rate(HashAt(d.reviews, (review.agentUsername, review.reviewerGithubId)) + h) == review.rating
    ensures AgentRatingsConsistent(rate, ReviewWith(d, review, oldRating, score, h), review.agentUsername)
  {
    var u := review.agentUsername;
    var g := review.reviewerGithubId;
    var d' := ReviewWith(d, review, oldRating, score, h);
    ReviewsAfterWrite(rate, d, d', u, g, h, review.rating);
    assert g in Timeline(d, u) <==> HashAt(d.reviews, (u, g)) != map[];
    ReviewedCount(d, d', u, g, oldRating, score);
    ReviewedSum(rate, d, d', u, g, oldRating, score, review.rating);
    forall x ensures x in Timeline(d', u) <==> HashAt(d'.reviews, (u, x)) != map[] {
    }
  }

  /** Every other agent keeps its invariant when one review is stored. */
  lemma OtherAgentsRatings(rate: RatingReader, d: Db, review: Review, oldRating: Option<int>, score: int, h: Hash, w: string)
    requires AgentRatingsConsistent(rate, d, w) && w != review.agentUsername
    ensures AgentRatingsConsistent(rate, ReviewWith(d, review, oldRating, score, h), w)
  {
    var d' := ReviewWith(d, review, oldRating, score, h);
    assert forall x :: HashAt(d'.reviews, (w, x)) == HashAt(d.reviews, (w, x));
    AgentRatingsFrame(rate, d, d', w);
  }

  /**
   * Storing a review, told the rating of the review it replaces (none for a
   * first review), keeps every agent's counters equal to the count and the
   * sum of its stored ratings.
   */
  lemma ReviewPreservesRatings(d: Db, review: Review, oldRating: Option<int>, score: int)
    requires RatingsConsistent(d)
    requires oldRating == PreviousRating(d, review.agentUsername, review.reviewerGithubId)
    ensures RatingsConsistent(AfterReview(d, review, oldRating, score))
  {
    var u := review.agentUsername;
    var h := SerializeReview(review);
    ReviewRoundTrip(HashAt(d.reviews, (u, review.reviewerGithubId)), review);
    forall w ensures AgentRatingsConsistent(RatingOf, AfterReview(d, review, oldRating, score), w) {
      if w == u {
        ReviewedAgentRatings(RatingOf, d, review, oldRating, score, h);
      } else {
        OtherAgentsRatings(RatingOf, d, review, oldRating, score, h, w);
      }
    }
  }

  /** A stored review reads back; every other review reads as before. */
  lemma ReviewThenRead(d: Db, review: Review, oldRating: Option<int>, score: int, w: string, x: string)
    ensures GetReview(AfterReview(d, review, oldRating, score), review.agentUsername, review.reviewerGithubId) == Some(review)
    ensures (w, x) != (review.agentUsername, review.reviewerGithubId) ==>
      GetReview(AfterReview(d, review, oldRating, score), w, x) == GetReview(d, w, x)
  {
    ReviewRoundTrip(HashAt(d.reviews, (review.agentUsername, review.reviewerGithubId)), review);
  }

  /** Under the invariant the counters are the number and the sum of the stored ratings. */
  lemma CountersOfStored(d: Db, u: string)
    requires AgentRatingsConsistent(RatingOf, d, u)
    ensures Counter(d.ratingCounts, u) == |StoredRatings(d, u)|
    ensures Counter(d.ratingSums, u) == SumValues(StoredRatings(d, u))
  {
    assert |StoredRatings(d, u)| == |StoredRatings(d, u).Keys| && |Timeline(d, u)| == |Timeline(d, u).Keys|;
  }

  /** Under the invariant the summary is the mean of the stored ratings and their number. */
  lemma RatingIsMeanOfStored(d: Db, u: string)
    requires AgentRatingsConsistent(RatingOf, d, u)
    ensures GetAgentRating(d, u).totalReviews == |StoredRatings(d, u)|
    ensures |StoredRatings(d, u)| > 0 ==>
      GetAgentRating(d, u).averageRating == SumValues(StoredRatings(d, u)) as real / |StoredRatings(d, u)| as real
    ensures |StoredRatings(d, u)| == 0 ==> GetAgentRating(d, u).averageRating == 0.0
  {
    CountersOfStored(d, u);
  }

  /** A summary whose sum lies between one and five times its count averages one to five stars. */
  lemma SummaryWithinStars(sum: int, count: int)
    requires 0 < count <= sum <= 5 * count
    ensures 1.0 <= RatingSummary(sum, count).averageRating <= 5.0
  {
    var avg := RatingSummary(sum, count).averageRating;
    var n := count as real;
    assert (avg - 1.0) * n == sum as real - n;
    assert (5.0 - avg) * n == 5.0 * n - sum as real;
    NonNegativeFactor(avg - 1.0, n);
    NonNegativeFactor(5.0 - avg, n);
  }

  lemma NonNegativeFactor(x: real, n: real)
    requires n > 0.0 && x * n >= 0.0
    ensures x >= 0.0
  {
  }

  /** When every stored rating is 1 to 5 stars, so is the average. */
  lemma AverageWithinStars(d: Db, u: string)
    requires AgentRatingsConsistent(RatingOf, d, u)
    requires forall g :: g in StoredRatings(d, u) ==> 1 <= StoredRatings(d, u)[g] <= 5
    requires |StoredRatings(d, u)| > 0
    ensures 1.0 <= GetAgentRating(d, u).averageRating <= 5.0
  {
    var m := StoredRatings(d, u);
    CountersOfStored(d, u);
    SumValuesStars(m);
    SummaryWithinStars(Counter(d.ratingSums, u), Counter(d.ratingCounts, u));
  }
}
