/**
 * The store as one object: the ten kinds of keys of `RedisData` as fields,
 * each write pipeline as a method applying its commands in order, and the
 * directory, review and rating reads as methods that change nothing.
 *
 * The first part holds the pure steps the reads are made of (reading many
 * hashes at once, keeping the published profiles, sorting by creation
 * time) and what they give under the index invariants.
 */
module RedisStore {
  import opened Wrappers
  import opened Types
  import opened Strings
  import opened Lists
  import opened SortedSets
  import opened CapabilityLists
  import opened RedisData
  import Categories

  /** The number of profiles `getRecentProfiles` returns when no limit is passed. */
  const RecentDefault := 6

  // ---------------------------------------------------------------------
  // Reading many profile hashes

  /** `.filter(non-empty hash).map(deserializeProfile)` over the profile hashes of `names`, in their order. */
  function Hydrate(d: Db, names: seq<string>): (r: seq<AgentProfile>)
    ensures |r| <= |names|
  {
    if names == [] then []
    else
      var first := GetProfileByUsername(d, names[0]);
      (if first.Some? then [first.value] else []) + Hydrate(d, names[1..])
  }

  /** A profile is read exactly when it is stored under one of the names: a missing record is dropped. */
  lemma {:induction false} HydrateMembers(d: Db, names: seq<string>, p: AgentProfile)
    ensures p in Hydrate(d, names) <==> exists u :: u in names && GetProfileByUsername(d, u) == Some(p)
    decreases |names|
  {
    if names != [] {
      HydrateMembers(d, names[1..], p);
      assert forall u :: u in names <==> u == names[0] || u in names[1..];
    }
  }

  /** When every name has a stored profile nothing is dropped and the order of the names is kept. */
  lemma HydrateAll(d: Db, names: seq<string>)
    requires forall u :: u in names ==> HashAt(d.profiles, u) != map[]
    ensures |Hydrate(d, names)| == |names|
    ensures forall i :: 0 <= i < |names| ==> Hydrate(d, names)[i] == Record(d, names[i])
  {
    HydrateEach(d, names);
  }

  /** The `i`-th profile read is the one stored under the `i`-th name. */
  lemma {:induction false} HydrateEach(d: Db, names: seq<string>)
    requires forall u :: u in names ==> HashAt(d.profiles, u) != map[]
    ensures |Hydrate(d, names)| == |names|
    ensures forall i :: 0 <= i < |names| ==> GetProfileByUsername(d, names[i]) == Some(Hydrate(d, names)[i])
    decreases |names|
  {
    if names != [] {
      var rest := names[1..];
      assert forall u :: u in rest ==> u in names;
      HydrateEach(d, rest);
      var h := Hydrate(d, names);
      assert h == [GetProfileByUsername(d, names[0]).value] + Hydrate(d, rest);
      forall i | 0 <= i < |names| ensures GetProfileByUsername(d, names[i]) == Some(h[i]) {
        if i > 0 {
          assert h[i] == Hydrate(d, rest)[i - 1];
          assert names[i] == rest[i - 1];
        }
      }
    }
  }

  /** A profile the listings may show: stored under its own registered username, and published. */
  ghost predicate PublishedProfile(d: Db, p: AgentProfile)
  {
    p.username in d.usernames && Record(d, p.username) == p && p.isPublished
  }

  /** Under the invariants, the names of a set of usernames each have a record naming them. */
  lemma RegisteredRecords(d: Db, names: seq<string>)
    requires ProfilesConsistent(d)
    requires forall u :: u in names ==> u in d.usernames
    ensures forall u :: u in names ==> HashAt(d.profiles, u) != map[] && Record(d, u).username == u
  {
    forall u | u in names ensures HashAt(d.profiles, u) != map[] && Record(d, u).username == u {
      assert RecordConsistent(DeserializeProfile, d, u);
    }
  }

  /** Under the invariants, reading the published set gives exactly the published profiles, none twice. */
  lemma PublishedListing(d: Db, names: seq<string>)
    requires ProfilesConsistent(d)
    requires forall u :: u in names <==> u in d.published
    ensures |Hydrate(d, names)| == |names|
    ensures forall p :: p in Hydrate(d, names) <==> PublishedProfile(d, p)
  {
    RegisteredRecords(d, names);
    HydrateAll(d, names);
    forall p ensures p in Hydrate(d, names) <==> PublishedProfile(d, p) {
      HydrateMembers(d, names, p);
      if PublishedProfile(d, p) {
        assert p.username in names;
        assert GetProfileByUsername(d, p.username) == Some(p);
      }
    }
  }

  /**
   * Under the invariants, reading category `c`'s set gives exactly the
   * published profiles with a public capability in `c`, none twice.
   */
  lemma CategoryListing(d: Db, c: CategoryId, names: seq<string>)
    requires ProfilesConsistent(d)
    requires forall u :: u in names <==> u in SetAt(d.categories, c)
    ensures |Hydrate(d, names)| == |names|
    ensures forall p :: p in Hydrate(d, names) <==> PublishedProfile(d, p) && c in PublicCategories(p.capabilities)
  {
    assert CategoryConsistent(DeserializeProfile, d, c);
    RegisteredRecords(d, names);
    HydrateAll(d, names);
    forall p ensures p in Hydrate(d, names) <==> PublishedProfile(d, p) && c in PublicCategories(p.capabilities) {
      HydrateMembers(d, names, p);
      if PublishedProfile(d, p) && c in PublicCategories(p.capabilities) {
        assert p.username in names;
        assert GetProfileByUsername(d, p.username) == Some(p);
      }
    }
  }

  // ---------------------------------------------------------------------
  // The search pipeline

  /** `.filter(p => p.isPublished)`, keeping the order. */
  function PublishedOnly(ps: seq<AgentProfile>): (r: seq<AgentProfile>)
    ensures |r| <= |ps|
    ensures forall p :: p in r <==> p in ps && p.isPublished
  {
    if ps == [] then []
    else (if ps[0].isPublished then [ps[0]] else []) + PublishedOnly(ps[1..])
  }

  /** Profiles listed in the order of their search members. */
  predicate MemberOrdered(ps: seq<AgentProfile>)
  {
    forall i, j :: 0 <= i < j < |ps| ==> LexLess(SearchMember(ps[i].username), SearchMember(ps[j].username))
  }

  /** Usernames listed in the order of their search members. */
  predicate NamesOrdered(names: seq<string>)
  {
    forall i, j :: 0 <= i < j < |names| ==> LexLess(SearchMember(names[i]), SearchMember(names[j]))
  }

  /** Strings in strictly increasing lexicographic order. */
  predicate LexOrdered(ms: seq<string>)
  {
    forall i, j :: 0 <= i < j < |ms| ==> LexLess(ms[i], ms[j])
  }

  /** Every member is the search member of the username it names. */
  predicate WellFormedMembers(ms: seq<string>)
  {
    forall m :: m in ms ==> IndexedName(m).Some? && m == SearchMember(IndexedName(m).value)
  }

  lemma {:induction false} PublishedOnlyOrdered(ps: seq<AgentProfile>)
    requires MemberOrdered(ps)
    ensures MemberOrdered(PublishedOnly(ps))
    decreases |ps|
  {
    if ps != [] {
      PublishedOnlyOrdered(ps[1..]);
      var rest := PublishedOnly(ps[1..]);
      forall j | 0 <= j < |rest| ensures LexLess(SearchMember(ps[0].username), SearchMember(rest[j].username)) {
        assert rest[j] in ps[1..];
        var k :| 0 <= k < |ps[1..]| && ps[1..][k] == rest[j];
        assert ps[k + 1] == rest[j];
      }
    }
  }

  /** In a strictly increasing sequence the head sorts before every later element. */
  lemma HeadLess(ms: seq<string>, x: string)
    requires LexOrdered(ms) && |ms| > 0 && x in ms[1..]
    ensures LexLess(ms[0], x)
  {
    var k :| 0 <= k < |ms[1..]| && ms[1..][k] == x;
    assert ms[k + 1] == x;
  }

  /** Each username read off well-formed members comes from its own search member. */
  lemma IndexedNamesFrom(ms: seq<string>)
    requires WellFormedMembers(ms)
    ensures forall u :: u in IndexedNames(ms) ==> SearchMember(u) in ms
  {
  }

  /** The usernames read off well-formed members in increasing order come in the order of their members. */
  lemma {:induction false} IndexedNamesOrdered(ms: seq<string>)
    requires LexOrdered(ms) && WellFormedMembers(ms)
    ensures NamesOrdered(IndexedNames(ms))
    decreases |ms|
  {
    if ms != [] {
      var tail := ms[1..];
      assert LexOrdered(tail) by {
        forall i, j | 0 <= i < j < |tail| ensures LexLess(tail[i], tail[j]) {
          assert tail[i] == ms[i + 1] && tail[j] == ms[j + 1];
        }
      }
      assert WellFormedMembers(tail);
      IndexedNamesOrdered(tail);
      IndexedNamesFrom(tail);
      var rest := IndexedNames(tail);
      var first := IndexedName(ms[0]);
      if first.Some? && first.value != "" {
        assert ms[0] == SearchMember(first.value);
        forall j | 0 <= j < |rest| ensures LexLess(SearchMember(first.value), SearchMember(rest[j])) {
          HeadLess(ms, SearchMember(rest[j]));
        }
        OrderedCons(first.value, rest);
      }
    }
  }

  lemma OrderedCons(u: string, rest: seq<string>)
    requires NamesOrdered(rest)
    requires forall j :: 0 <= j < |rest| ==> LexLess(SearchMember(u), SearchMember(rest[j]))
    ensures NamesOrdered([u] + rest)
  {
    var names := [u] + rest;
    forall i, j | 0 <= i < j < |names| ensures LexLess(SearchMember(names[i]), SearchMember(names[j])) {
      assert names[j] == rest[j - 1];
      if i > 0 {
        assert names[i] == rest[i - 1];
      }
    }
  }

  /** A member naming a non-empty username contributes that username. */
  lemma {:induction false} IndexedNamesHas(ms: seq<string>, m: string, u: string)
    requires m in ms && IndexedName(m) == Some(u) && u != ""
    ensures u in IndexedNames(ms)
    decreases |ms|
  {
    if ms[0] != m {
      IndexedNamesHas(ms[1..], m, u);
    }
  }

  /** Members read by rank from a set whose scores are all 0 come in lexicographic order. */
  lemma RankedMembersOrdered(z: ZSet, ms: seq<string>)
    requires forall m :: m in z ==> z[m] == 0
    requires forall i :: 0 <= i < |ms| ==> ms[i] in z && Rank(z, ms[i], false) == i
    ensures LexOrdered(ms)
  {
    forall i, j | 0 <= i < j < |ms| ensures LexLess(ms[i], ms[j]) {
      SameScoreIsLexOrder(z, ms[i], ms[j]);
    }
  }

  /** Under the invariants every indexed member names a registered username and has score 0. */
  lemma SearchMembersOfIndex(d: Db, z: ZSet, ms: seq<string>)
    requires ProfilesConsistent(d)
    requires forall m :: m in z ==> m in d.searchNames && z[m] == d.searchNames[m]
    requires forall m :: m in ms ==> m in z
    ensures forall m :: m in z ==> z[m] == 0
    ensures WellFormedMembers(ms)
    ensures forall m :: m in ms ==> IndexedName(m).value in d.usernames
  {
    forall m | m in z ensures z[m] == 0 {
      assert MemberConsistent(d, m);
    }
    forall m | m in ms ensures IndexedName(m).Some? && m == SearchMember(IndexedName(m).value) && IndexedName(m).value in d.usernames {
      assert MemberConsistent(d, m);
    }
  }

  /** The profiles a search returns, from the members it read. */
  function SearchResults(d: Db, ms: seq<string>): seq<AgentProfile>
  {
    PublishedOnly(Hydrate(d, IndexedNames(ms)))
  }

  /**
   * What the search returns: published profiles whose search members start
   * with the lower-cased query, in the order of those members.
   */
  ghost predicate SearchSound(d: Db, query: string, r: seq<AgentProfile>)
  {
    && (forall p :: p in r ==> PublishedProfile(d, p) && Lower(query) <= SearchMember(p.username))
    && MemberOrdered(r)
  }

  /** Every published profile, under a non-empty username, whose search member starts with the lower-cased query is returned. */
  ghost predicate SearchComplete(d: Db, query: string, r: seq<AgentProfile>)
  {
    forall u :: u in d.usernames && u != "" && Record(d, u).isPublished && Lower(query) <= SearchMember(u) ==> Record(d, u) in r
  }

  /** Under the invariants, a search reading its matches in lexicographic order returns what `SearchSound` describes. */
  lemma SearchIsSound(d: Db, query: string, ms: seq<string>)
    requires ProfilesConsistent(d)
    requires forall i :: 0 <= i < |ms| ==>
      ms[i] in PrefixMatches(d.searchNames, Lower(query)) && Rank(PrefixMatches(d.searchNames, Lower(query)), ms[i], false) == i
    ensures SearchSound(d, query, SearchResults(d, ms))
  {
    var names := IndexedNames(ms);
    SearchNames(d, query, ms);
    RegisteredRecords(d, names);
    HydratedOrdered(d, names);
    var found := Hydrate(d, names);
    PublishedOnlyOrdered(found);
    forall p | p in SearchResults(d, ms) ensures PublishedProfile(d, p) && Lower(query) <= SearchMember(p.username) {
      assert p in found;
    }
  }

  /** The usernames a search reads off its matches: registered, matching the query, in member order. */
  lemma SearchNames(d: Db, query: string, ms: seq<string>)
    requires ProfilesConsistent(d)
    requires forall i :: 0 <= i < |ms| ==>
      ms[i] in PrefixMatches(d.searchNames, Lower(query)) && Rank(PrefixMatches(d.searchNames, Lower(query)), ms[i], false) == i
    ensures NamesOrdered(IndexedNames(ms))
    ensures forall u :: u in IndexedNames(ms) ==> u in d.usernames && Lower(query) <= SearchMember(u)
  {
    var z := PrefixMatches(d.searchNames, Lower(query));
    assert forall m :: m in ms ==> m in z;
    SearchMembersOfIndex(d, z, ms);
    RankedMembersOrdered(z, ms);
    IndexedNamesOrdered(ms);
    IndexedNamesFrom(ms);
    forall u | u in IndexedNames(ms) ensures u in d.usernames {
      var m :| m in ms && IndexedName(m) == Some(u);
    }
  }

  /** Reading the records of registered usernames in member order gives profiles in member order, each stored under its own name. */
  lemma HydratedOrdered(d: Db, names: seq<string>)
    requires NamesOrdered(names)
    requires forall u :: u in names ==> HashAt(d.profiles, u) != map[] && Record(d, u).username == u
    ensures MemberOrdered(Hydrate(d, names))
    ensures forall p :: p in Hydrate(d, names) ==> p.username in names && Record(d, p.username) == p
  {
    HydrateAll(d, names);
    var found := Hydrate(d, names);
    forall i, j | 0 <= i < j < |found|
      ensures LexLess(SearchMember(found[i].username), SearchMember(found[j].username))
    {
      assert found[i].username == names[i] && found[j].username == names[j];
    }
    forall p | p in found ensures p.username in names && Record(d, p.username) == p {
      var i :| 0 <= i < |found| && found[i] == p;
      assert p == Record(d, names[i]) && p.username == names[i];
    }
  }

  /**
   * Under the invariants, a search that read every match returns every
   * published profile whose search member starts with the lower-cased query.
   */
  lemma SearchIsComplete(d: Db, query: string, ms: seq<string>)
    requires ProfilesConsistent(d)
    requires forall m :: m in PrefixMatches(d.searchNames, Lower(query)) ==> m in ms
    ensures SearchComplete(d, query, SearchResults(d, ms))
  {
    var names := IndexedNames(ms);
    forall u | u in d.usernames && u != "" && Record(d, u).isPublished && Lower(query) <= SearchMember(u)
      ensures Record(d, u) in SearchResults(d, ms)
    {
      assert RecordConsistent(DeserializeProfile, d, u);
      assert SearchMember(u) in d.searchNames;
      IndexedNameOfMember(u);
      IndexedNamesHas(ms, SearchMember(u), u);
      HydrateMembers(d, names, Record(d, u));
      assert GetProfileByUsername(d, u) == Some(Record(d, u));
    }
  }

  /**
   * Every published profile, under a non-empty username, whose search member
   * starts with the lower-cased query and is among the first `k` matches in
   * lexicographic order is returned.
   */
  ghost predicate SearchWindowComplete(d: Db, query: string, k: nat, r: seq<AgentProfile>)
  {
    forall u ::
      (&& u in d.usernames && u != "" && Record(d, u).isPublished
       && SearchMember(u) in PrefixMatches(d.searchNames, Lower(query))
       && Rank(PrefixMatches(d.searchNames, Lower(query)), SearchMember(u), false) < k)
      ==> Record(d, u) in r
  }

  /**
   * Under the invariants, a search that read the first `k` matches returns
   * every published profile whose search member is among them.
   */
  lemma SearchWindowIsComplete(d: Db, query: string, ms: seq<string>, k: nat)
    requires ProfilesConsistent(d)
    requires forall m ::
      (m in PrefixMatches(d.searchNames, Lower(query)) && Rank(PrefixMatches(d.searchNames, Lower(query)), m, false) < k)
      ==> m in ms
    ensures SearchWindowComplete(d, query, k, SearchResults(d, ms))
  {
    var names := IndexedNames(ms);
    forall u | u in d.usernames && u != "" && Record(d, u).isPublished
      && SearchMember(u) in PrefixMatches(d.searchNames, Lower(query))
      && Rank(PrefixMatches(d.searchNames, Lower(query)), SearchMember(u), false) < k
      ensures Record(d, u) in SearchResults(d, ms)
    {
      assert RecordConsistent(DeserializeProfile, d, u);
      IndexedNameOfMember(u);
      IndexedNamesHas(ms, SearchMember(u), u);
      HydrateMembers(d, names, Record(d, u));
      assert GetProfileByUsername(d, u) == Some(Record(d, u));
    }
  }

  /** A query without ':' is a prefix of the lower-cased username itself, not only of its search member. */
  lemma QueryPrefixOfUsername(query: string, u: string)
    requires ':' !in query && Lower(query) <= SearchMember(u)
    ensures Lower(query) <= Lower(u)
  {
    LowerKeepsChar(query, ':');
    var lq, lu := Lower(query), Lower(u);
    assert SearchMember(u)[|lu|] == ':';
    assert forall i :: 0 <= i < |lq| && i < |lu| ==> lq[i] == SearchMember(u)[i] == lu[i];
  }

  // ---------------------------------------------------------------------
  // Newest first

  /** Profiles in order of creation time, newest first, by the time `time` reads from `createdAt`. */
  predicate NewestFirst(ps: seq<AgentProfile>, time: string -> int)
  {
    forall i, j :: 0 <= i < j < |ps| ==> time(ps[i].createdAt) >= time(ps[j].createdAt)
  }

  /**
   * A prefix of the newest-first reordering of `all` is newest first, holds
   * profiles of `all`, and nothing of `all` left out of it is newer than
   * anything in it.
   */
  lemma NewestPrefix(all: seq<AgentProfile>, sorted: seq<AgentProfile>, k: nat, time: string -> int)
    requires NewestFirst(sorted, time) && multiset(sorted) == multiset(all)
    requires k <= |sorted|
    ensures NewestFirst(sorted[..k], time)
    ensures |sorted| == |all|
    ensures forall p :: p in sorted[..k] ==> p in all
    ensures forall p, q :: p in sorted[..k] && q in all && q !in sorted[..k] ==> time(q.createdAt) <= time(p.createdAt)
  {
    var r := sorted[..k];
    assert |sorted| == |multiset(sorted)| == |multiset(all)| == |all|;
    forall p | p in r ensures p in all {
      assert p in multiset(sorted);
    }
    forall j | 0 <= j < k ensures sorted[j] in r {
      assert r[j] == sorted[j];
    }
    forall p, q | p in r && q in all && q !in r ensures time(q.createdAt) <= time(p.createdAt) {
      assert q in multiset(sorted);
      var j :| 0 <= j < |sorted| && sorted[j] == q;
      var i :| 0 <= i < k && r[i] == p;
      assert sorted[i] == p;
    }
  }

  /** Inserts `p` before the first profile that is not newer than it. */
  function InsertNewest(p: AgentProfile, ps: seq<AgentProfile>, time: string -> int): (r: seq<AgentProfile>)
    ensures multiset(r) == multiset(ps) + multiset{p}
  {
    if ps == [] || time(p.createdAt) >= time(ps[0].createdAt) then [p] + ps
    else
      assert ps == [ps[0]] + ps[1..];
      [ps[0]] + InsertNewest(p, ps[1..], time)
  }

  lemma {:induction false} InsertNewestOrdered(p: AgentProfile, ps: seq<AgentProfile>, time: string -> int)
    requires NewestFirst(ps, time)
    ensures NewestFirst(InsertNewest(p, ps, time), time)
    decreases |ps|
  {
    if ps != [] && time(p.createdAt) < time(ps[0].createdAt) {
      InsertNewestOrdered(p, ps[1..], time);
      var rest := InsertNewest(p, ps[1..], time);
      forall x | x in rest ensures time(ps[0].createdAt) >= time(x.createdAt) {
        assert x in multiset(rest);
        assert x == p || x in multiset(ps[1..]);
      }
    }
  }

  /**
   * `.sort((a, b) => time(b.createdAt) - time(a.createdAt))`: an insertion
   * sort that, like JavaScript's stable sort, keeps profiles created at the
   * same time in their order.
   */
  function SortNewestFirst(ps: seq<AgentProfile>, time: string -> int): (r: seq<AgentProfile>)
    ensures multiset(r) == multiset(ps)
  {
    if ps == [] then []
    else
      assert ps == [ps[0]] + ps[1..];
      InsertNewest(ps[0], SortNewestFirst(ps[1..], time), time)
  }

  /** The sort is a permutation in newest-first order. */
  lemma {:induction false} SortNewestFirstOrdered(ps: seq<AgentProfile>, time: string -> int)
    ensures NewestFirst(SortNewestFirst(ps, time), time)
    ensures multiset(SortNewestFirst(ps, time)) == multiset(ps)
    decreases |ps|
  {
    if ps != [] {
      SortNewestFirstOrdered(ps[1..], time);
      InsertNewestOrdered(ps[0], SortNewestFirst(ps[1..], time), time);
    }
  }

  // ---------------------------------------------------------------------
  // Reading many review hashes

  /** `.filter(non-empty hash).map(deserializeReview)` over the review hashes of agent `u` by the reviewers `ids`. */
  function HydrateReviews(d: Db, u: string, ids: seq<string>): (r: seq<Review>)
    ensures |r| <= |ids|
  {
    if ids == [] then []
    else
      var first := GetReview(d, u, ids[0]);
      (if first.Some? then [first.value] else []) + HydrateReviews(d, u, ids[1..])
  }

  /** When every reviewer has a stored review nothing is dropped and the order is kept. */
  lemma {:induction false} HydrateReviewsAll(d: Db, u: string, ids: seq<string>)
    requires forall g :: g in ids ==> HashAt(d.reviews, (u, g)) != map[]
    ensures |HydrateReviews(d, u, ids)| == |ids|
    ensures forall i :: 0 <= i < |ids| ==> GetReview(d, u, ids[i]) == Some(HydrateReviews(d, u, ids)[i])
    decreases |ids|
  {
    if ids != [] {
      var rest := ids[1..];
      assert forall g :: g in rest ==> g in ids;
      HydrateReviewsAll(d, u, rest);
      var h := HydrateReviews(d, u, ids);
      assert h == [GetReview(d, u, ids[0]).value] + HydrateReviews(d, u, rest);
      forall i | 0 <= i < |ids| ensures GetReview(d, u, ids[i]) == Some(h[i]) {
        if i > 0 {
          assert h[i] == HydrateReviews(d, u, rest)[i - 1];
          assert ids[i] == rest[i - 1];
        }
      }
    }
  }

  /**
   * The first 20 matches in lexicographic order give at most 20 published
   * profiles, sound under the invariants and complete when no more than 20
   * members match.
   */
  lemma SearchPage(d: Db, query: string, z: ZSet, ms: seq<string>)
    requires z == PrefixMatches(d.searchNames, Lower(query))
    requires |ms| == if 20 <= |z| then 20 else |z|
    requires forall i :: 0 <= i < |ms| ==> ms[i] in z && Rank(z, ms[i], false) == i
    requires forall m :: m in z && Rank(z, m, false) < |ms| ==> m in ms
    ensures |SearchResults(d, ms)| <= 20
    ensures forall p :: p in SearchResults(d, ms) ==> p.isPublished
    ensures ProfilesConsistent(d) ==> SearchSound(d, query, SearchResults(d, ms))
    ensures ProfilesConsistent(d) && |z| <= 20 ==> SearchComplete(d, query, SearchResults(d, ms))
    ensures ProfilesConsistent(d) ==> SearchWindowComplete(d, query, 20, SearchResults(d, ms))
  {
    if ProfilesConsistent(d) {
      SearchIsSound(d, query, ms);
      forall m | m in z && Rank(z, m, false) < 20 ensures m in ms {
        RankBound(z, m, false);
      }
      SearchWindowIsComplete(d, query, ms, 20);
      if |z| <= 20 {
        forall m | m in z ensures m in ms {
          RankBound(z, m, false);
        }
        SearchIsComplete(d, query, ms);
      }
    }
  }

  /**
   * A page of the reviews of agent `u` read from position `offset` of its
   * timeline, newest first: when the agent's timeline agrees with its stored
   * reviews, the page is as long as the part of the timeline the range
   * covers, and its `i`-th review is the one stored for the reviewer with
   * exactly `offset + i` newer entries.
   */
  ghost predicate ReviewsPage(d: Db, u: string, offset: nat, limit: nat, r: seq<Review>)
  {
    AgentRatingsConsistent(RatingOf, d, u) ==> PageOf(d, u, Timeline(d, u), offset, limit, r)
  }

  /** `r` is the page of timeline `t` of agent `u` from position `offset`, at most `limit` long. */
  ghost predicate PageOf(d: Db, u: string, t: ZSet, offset: nat, limit: nat, r: seq<Review>)
  {
    && |r| == (if offset + limit <= |t| then limit else if offset <= |t| then |t| - offset else 0)
    && forall i :: 0 <= i < |r| ==>
         exists g :: g in t && Rank(t, g, true) == offset + i && GetReview(d, u, g) == Some(r[i])
  }

  /** Reading the reviewers a timeline range returns gives such a page. */
  lemma ReviewPage(d: Db, u: string, t: ZSet, offset: nat, limit: nat, ids: seq<string>)
    requires t == Timeline(d, u)
    requires |ids| == if offset + limit <= |t| then limit else if offset <= |t| then |t| - offset else 0
    requires forall i :: 0 <= i < |ids| ==> ids[i] in t && Rank(t, ids[i], true) == offset + i
    ensures |HydrateReviews(d, u, ids)| <= limit
    ensures ReviewsPage(d, u, offset, limit, HydrateReviews(d, u, ids))
  {
    if AgentRatingsConsistent(RatingOf, d, u) {
      ReviewersStored(d, u, t, ids);
      StoredPage(d, u, t, offset, limit, ids);
    }
  }

  /** When every reviewer in range has a stored review, reading them gives the page. */
  lemma StoredPage(d: Db, u: string, t: ZSet, offset: nat, limit: nat, ids: seq<string>)
    requires |ids| == if offset + limit <= |t| then limit else if offset <= |t| then |t| - offset else 0
    requires forall i :: 0 <= i < |ids| ==> ids[i] in t && Rank(t, ids[i], true) == offset + i
    requires forall g :: g in ids ==> HashAt(d.reviews, (u, g)) != map[]
    ensures PageOf(d, u, t, offset, limit, HydrateReviews(d, u, ids))
  {
    HydrateReviewsAll(d, u, ids);
    var r := HydrateReviews(d, u, ids);
    forall i | 0 <= i < |ids|
      ensures exists g :: g in t && Rank(t, g, true) == offset + i && GetReview(d, u, g) == Some(r[i])
    {
      var g := ids[i];
      assert g in t && Rank(t, g, true) == offset + i;
    }
  }

  /** Under the invariants every reviewer on an agent's timeline has a stored review. */
  lemma ReviewersStored(d: Db, u: string, t: ZSet, ids: seq<string>)
    requires AgentRatingsConsistent(RatingOf, d, u) && t == Timeline(d, u)
    requires forall i :: 0 <= i < |ids| ==> ids[i] in t
    ensures forall g :: g in ids ==> HashAt(d.reviews, (u, g)) != map[]
  {
    forall g | g in ids ensures HashAt(d.reviews, (u, g)) != map[] {
      var i :| 0 <= i < |ids| && ids[i] == g;
      assert g in t;
    }
  }

  // ---------------------------------------------------------------------
  // One SADD or SREM per category

  /** SADD of `u` to one more category set extends the sets it was added to. */
  lemma AddOne(sets: map<CategoryId, set<string>>, keys: set<CategoryId>, c: CategoryId, u: string)
    ensures
      var a := AddTo(sets, keys, u);
      a[c := SetAt(a, c) + {u}] == AddTo(sets, keys + {c}, u)
  {
    var a := AddTo(sets, keys, u);
    var l := a[c := SetAt(a, c) + {u}];
    var r := AddTo(sets, keys + {c}, u);
    assert l.Keys == r.Keys;
    forall k | k in l ensures l[k] == r[k] {
      assert SetAt(l, k) == l[k] && SetAt(r, k) == r[k];
    }
  }

  /** SREM of `u` from one more category set extends the sets it was removed from. */
  lemma RemoveOne(sets: map<CategoryId, set<string>>, keys: set<CategoryId>, c: CategoryId, u: string)
    ensures
      var a := RemoveFrom(sets, keys, u);
      a[c := SetAt(a, c) - {u}] == RemoveFrom(sets, keys + {c}, u)
  {
    var a := RemoveFrom(sets, keys, u);
    var l := a[c := SetAt(a, c) - {u}];
    var r := RemoveFrom(sets, keys + {c}, u);
    assert l.Keys == r.Keys;
    forall k | k in l ensures l[k] == r[k] {
      assert SetAt(l, k) == l[k] && SetAt(r, k) == r[k];
    }
  }

  /** Adding to no set, or removing from none, changes nothing. */
  lemma ChangeNone(sets: map<CategoryId, set<string>>, u: string)
    ensures AddTo(sets, {}, u) == sets && RemoveFrom(sets, {}, u) == sets
  {
    assert AddTo(sets, {}, u).Keys == sets.Keys && RemoveFrom(sets, {}, u).Keys == sets.Keys;
    forall k | k in sets ensures AddTo(sets, {}, u)[k] == sets[k] && RemoveFrom(sets, {}, u)[k] == sets[k] {
      assert SetAt(sets, k) == sets[k];
      assert SetAt(AddTo(sets, {}, u), k) == AddTo(sets, {}, u)[k];
      assert SetAt(RemoveFrom(sets, {}, u), k) == RemoveFrom(sets, {}, u)[k];
    }
  }

  /** The categories listed in `xs`. */
  function CategorySet(xs: seq<CategoryId>): (r: set<CategoryId>)
    ensures forall c :: c in r <==> c in xs
  {
    set c | c in xs
  }

  lemma CategorySetEmpty()
    ensures CategorySet([]) == {}
  {
  }

  lemma CategorySetAppend(xs: seq<CategoryId>, x: CategoryId)
    ensures CategorySet(xs + [x]) == CategorySet(xs) + {x}
  {
  }

  lemma AddPublicStep(sets: map<CategoryId, set<string>>, caps: seq<Capability>, i: nat, u: string)
    requires i < |caps|
    ensures
      var r := AddTo(sets, PublicCategories(caps[..i]), u);
      (if caps[i].isPublic then r[caps[i].category := SetAt(r, caps[i].category) + {u}] else r)
        == AddTo(sets, PublicCategories(caps[..i + 1]), u)
  {
    assert caps[..i + 1] == caps[..i] + [caps[i]];
    PublicCategoriesAppend(caps[..i], caps[i]);
    AddOne(sets, PublicCategories(caps[..i]), caps[i].category, u);
  }

  lemma AddEachStep(sets: map<CategoryId, set<string>>, cats: seq<CategoryId>, j: nat, u: string)
    requires j < |cats|
    ensures
      var r := AddTo(sets, CategorySet(cats[..j]), u);
      r[cats[j] := SetAt(r, cats[j]) + {u}] == AddTo(sets, CategorySet(cats[..j + 1]), u)
  {
    assert cats[..j + 1] == cats[..j] + [cats[j]];
    CategorySetAppend(cats[..j], cats[j]);
    AddOne(sets, CategorySet(cats[..j]), cats[j], u);
  }

  /** The SADD of `u` to the category set of each public capability, in the order of the capabilities. */
  method AddPublicCategories(sets: map<CategoryId, set<string>>, caps: seq<Capability>, u: string) returns (r: map<CategoryId, set<string>>)
    ensures r == AddTo(sets, PublicCategories(caps), u)
  {
    r := sets;
    var i := 0;
    ChangeNone(sets, u);
    assert caps[..0] == [];
    while i < |caps|
      invariant 0 <= i <= |caps|
      invariant r == AddTo(sets, PublicCategories(caps[..i]), u)
    {
      AddPublicStep(sets, caps, i, u);
      if caps[i].isPublic {
        r := r[caps[i].category := SetAt(r, caps[i].category) + {u}];
      }
      i := i + 1;
    }
    assert caps[..i] == caps;
  }

  /** The SADD of `u` to the set of each category of `cats`, in their order. */
  method AddToEach(sets: map<CategoryId, set<string>>, cats: seq<CategoryId>, u: string) returns (r: map<CategoryId, set<string>>)
    ensures r == AddTo(sets, CategorySet(cats), u)
  {
    r := sets;
    var j := 0;
    ChangeNone(sets, u);
    assert cats[..0] == [];
    CategorySetEmpty();
    while j < |cats|
      invariant 0 <= j <= |cats|
      invariant r == AddTo(sets, CategorySet(cats[..j]), u)
    {
      AddEachStep(sets, cats, j, u);
      r := r[cats[j] := SetAt(r, cats[j]) + {u}];
      j := j + 1;
    }
    assert cats[..j] == cats;
  }

  /** The rebuild walks the categories in the order of the category table, which lists each id once. */
  lemma RebuildFollowsTable()
    ensures Categories.Ids(Categories.CATEGORIES) == AllCategories
    ensures forall i, j :: 0 <= i < j < |AllCategories| ==> AllCategories[i] != AllCategories[j]
  {
    Categories.CategoryTableShape();
  }

  lemma RemoveEachStep(sets: map<CategoryId, set<string>>, cats: seq<CategoryId>, j: nat, u: string)
    requires j < |cats|
    ensures
      var r := RemoveFrom(sets, CategorySet(cats[..j]), u);
      r[cats[j] := SetAt(r, cats[j]) - {u}] == RemoveFrom(sets, CategorySet(cats[..j + 1]), u)
  {
    assert cats[..j + 1] == cats[..j] + [cats[j]];
    CategorySetAppend(cats[..j], cats[j]);
    RemoveOne(sets, CategorySet(cats[..j]), cats[j], u);
  }

  /** The SREM of `u` from the set of each category of `cats`, in their order. */
  method RemoveFromEach(sets: map<CategoryId, set<string>>, cats: seq<CategoryId>, u: string) returns (r: map<CategoryId, set<string>>)
    ensures r == RemoveFrom(sets, CategorySet(cats), u)
  {
    r := sets;
    var j := 0;
    ChangeNone(sets, u);
    assert cats[..0] == [];
    CategorySetEmpty();
    while j < |cats|
      invariant 0 <= j <= |cats|
      invariant r == RemoveFrom(sets, CategorySet(cats[..j]), u)
    {
      RemoveEachStep(sets, cats, j, u);
      r := r[cats[j] := SetAt(r, cats[j]) - {u}];
      j := j + 1;
    }
    assert cats[..j] == cats;
  }

  /** The SREM of `u` from every category set, in the order of the category list: `u` is then in none. */
  method RemoveFromAll(sets: map<CategoryId, set<string>>, u: string) returns (r: map<CategoryId, set<string>>)
    ensures r == RemoveFrom(sets, CategorySet(AllCategories), u)
    ensures forall c :: u !in SetAt(r, c)
  {
    r := RemoveFromEach(sets, AllCategories, u);
    forall c ensures u !in SetAt(r, c) {
      AllCategoriesComplete(c);
    }
  }

  /**
   * The category half of `updateProfile`: SREM of `u` from every category
   * set, then, for a published profile, SADD to the set of each of its
   * distinct public categories.
   */
  method RebuildCategories(sets: map<CategoryId, set<string>>, u: string, updated: AgentProfile) returns (r: map<CategoryId, set<string>>)
    ensures r == AddTo(RemoveFrom(sets, (set c | c in AllCategories), u),
                       if updated.isPublished then PublicCategories(updated.capabilities) else {}, u)
  {
    r := RemoveFromAll(sets, u);
    if updated.isPublished {
      var active := UniqueCategories(updated.capabilities);
      r := AddToEach(r, active, u);
      assert CategorySet(active) == PublicCategories(updated.capabilities);
    } else {
      ChangeNone(r, u);
    }
  }

  // ---------------------------------------------------------------------
  // The store object

  const EmptyDb := Db(map[], {}, map[], {}, map[], map[], map[], map[], map[], map[])

  /** The empty store satisfies every invariant. */
  lemma EmptyConsistent()
    ensures ProfilesConsistent(EmptyDb) && RatingsConsistent(EmptyDb)
  {
    forall u ensures AgentRatingsConsistent(RatingOf, EmptyDb, u) {
      assert Timeline(EmptyDb, u) == map[];
      assert RatingsBy(RatingOf, EmptyDb, u) == map[];
    }
  }

  /**
   * The keys the data layer writes, by kind; each method runs one pipeline
   * of commands over them, in the source's order.
   */
  class Store {
    var profiles: map<string, Hash>
    var usernames: set<string>
    var usernameByGithub: map<string, string>
    var published: set<string>
    var categories: map<CategoryId, set<string>>
    var searchNames: ZSet
    var reviewTimelines: map<string, ZSet>
    var reviews: map<(string, string), Hash>
    var ratingSums: map<string, int>
    var ratingCounts: map<string, int>

    /** Everything the store holds, as one value. */
    function Contents(): Db
      reads this
    {
      Db(profiles, usernames, usernameByGithub, published, categories, searchNames,
         reviewTimelines, reviews, ratingSums, ratingCounts)
    }

    constructor ()
      ensures Contents() == EmptyDb
    {
      profiles, usernames, usernameByGithub, published := map[], {}, map[], {};
      categories, searchNames, reviewTimelines := map[], map[], map[];
      reviews, ratingSums, ratingCounts := map[], map[], map[];
    }

    /**
     * `createProfile(p)`: HSET of the profile hash, SADD to the usernames,
     * SET of the GitHub pointer, ZADD of `lower(u):u` with score 0, and, for
     * a published profile, SADD to the published set and to the set of the
     * category of each public capability.
     */
    method CreateProfile(p: AgentProfile)
      modifies this
      ensures Contents() == AfterCreate(old(Contents()), p)
    {
      var u := p.username;
      HSetProfile(u, SerializeProfile(p));
      SAddUsername(u);
      SetGithubPointer(p.githubId, u);
      ZAddSearch(SearchMember(u));
      if p.isPublished {
        SAddPublished(u);
        var cats := AddPublicCategories(categories, p.capabilities, u);
        categories := cats;
      }
    }

    /**
     * `updateProfile(username, updates)` at time `now`: `found` is false, and
     * nothing changes, when there is no profile (the source throws). Otherwise
     * HSET of the merged profile, ZREM of the old search member and ZADD of
     * the new one, SADD to or SREM from the published set, SREM from every
     * category set, then SADD to the set of each public category of a
     * published profile.
     */
    method UpdateProfile(username: string, updates: ProfileUpdates, now: string) returns (found: bool)
      modifies this
      ensures found <==> GetProfileByUsername(old(Contents()), username).Some?
      ensures !found ==> Contents() == old(Contents())
      ensures found ==>
        var existing := GetProfileByUsername(old(Contents()), username).value;
        Contents() == AfterUpdate(old(Contents()), username, existing, ApplyUpdates(existing, updates, now))
    {
      var existing := GetProfileByUsername(Contents(), username);
      if existing.None? {
        return false;
      }
      found := true;
      var prior := existing.value;
      WriteUpdate(username, prior, ApplyUpdates(prior, updates, now));
    }

    /** The update pipeline, once the stored profile `prior` has been read and merged into `updated`. */
    method WriteUpdate(username: string, prior: AgentProfile, updated: AgentProfile)
      modifies this
      ensures Contents() == AfterUpdate(old(Contents()), username, prior, updated)
    {
      HSetProfile(username, SerializeProfile(updated));
      ZRemSearch(SearchMember(prior.username));
      ZAddSearch(SearchMember(updated.username));
      if updated.isPublished {
        SAddPublished(username);
      } else {
        SRemPublished(username);
      }
      var cats := RebuildCategories(categories, username, updated);
      categories := cats;
    }

    /**
     * `createOrUpdateReview(review, oldRating)`: HSET of the review hash,
     * ZADD of the reviewer to the agent's timeline with the review's update
     * time, in milliseconds as `time` reads it, as score, then INCRBY of the
     * sum by the rating (or by its difference from `oldRating`) and, for a
     * first review, INCR of the count.
     */
    method CreateOrUpdateReview(review: Review, oldRating: Option<int>, time: string -> int)
      modifies this
      ensures Contents() == AfterReview(old(Contents()), review, oldRating, time(review.updatedAt))
    {
      WriteReview(review, oldRating, time(review.updatedAt), SerializeReview(review));
    }

    /** The review pipeline with the review's hash `h` and its timeline score given. */
    method WriteReview(review: Review, oldRating: Option<int>, score: int, h: Hash)
      modifies this
      ensures Contents() == ReviewWith(old(Contents()), review, oldRating, score, h)
    {
      var u, g := review.agentUsername, review.reviewerGithubId;
      HSetReview(u, g, h);
      ZAddTimeline(u, g, score);
      if oldRating.Some? {
        IncrBySum(u, review.rating - oldRating.value);
      } else {
        IncrBySum(u, review.rating);
        IncrCount(u);
      }
    }

    // The single commands the pipelines are made of.

    /** HSET: the fields of `h` are written over the profile hash of `u`. */
    method HSetProfile(u: string, h: Hash)
      modifies this
      ensures Contents() == old(Contents()).(profiles := old(profiles)[u := HashAt(old(profiles), u) + h])
    {
      profiles := profiles[u := HashAt(profiles, u) + h];
    }

    method SAddUsername(u: string)
      modifies this
      ensures Contents() == old(Contents()).(usernames := old(usernames) + {u})
    {
      usernames := usernames + {u};
    }

    method SetGithubPointer(g: string, u: string)
      modifies this
      ensures Contents() == old(Contents()).(usernameByGithub := old(usernameByGithub)[g := u])
    {
      usernameByGithub := usernameByGithub[g := u];
    }

    /** ZADD with score 0 to the search set. */
    method ZAddSearch(m: string)
      modifies this
      ensures Contents() == old(Contents()).(searchNames := old(searchNames)[m := 0])
    {
      searchNames := searchNames[m := 0];
    }

    method ZRemSearch(m: string)
      modifies this
      ensures Contents() == old(Contents()).(searchNames := old(searchNames) - {m})
    {
      searchNames := searchNames - {m};
    }

    method SAddPublished(u: string)
      modifies this
      ensures Contents() == old(Contents()).(published := old(published) + {u})
    {
      published := published + {u};
    }

    method SRemPublished(u: string)
      modifies this
      ensures Contents() == old(Contents()).(published := old(published) - {u})
    {
      published := published - {u};
    }

    /** HSET: the fields of `h` are written over the review hash of (`u`, `g`). */
    method HSetReview(u: string, g: string, h: Hash)
      modifies this
      ensures Contents() == old(Contents()).(reviews := old(reviews)[(u, g) := HashAt(old(reviews), (u, g)) + h])
    {
      reviews := reviews[(u, g) := HashAt(reviews, (u, g)) + h];
    }

    /** ZADD of reviewer `g` with `score` to agent `u`'s timeline. */
    method ZAddTimeline(u: string, g: string, score: int)
      modifies this
      ensures Contents() == old(Contents()).(reviewTimelines := old(reviewTimelines)[u := Timeline(old(Contents()), u)[g := score]])
    {
      var timeline := if u in reviewTimelines then reviewTimelines[u] else map[];
      reviewTimelines := reviewTimelines[u := timeline[g := score]];
    }

    /** INCRBY of agent `u`'s rating sum; a missing counter counts from 0. */
    method IncrBySum(u: string, delta: int)
      modifies this
      ensures Contents() == old(Contents()).(ratingSums := old(ratingSums)[u := Counter(old(ratingSums), u) + delta])
    {
      ratingSums := ratingSums[u := Counter(ratingSums, u) + delta];
    }

    /** INCR of agent `u`'s review count. */
    method IncrCount(u: string)
      modifies this
      ensures Contents() == old(Contents()).(ratingCounts := old(ratingCounts)[u := Counter(old(ratingCounts), u) + 1])
    {
      ratingCounts := ratingCounts[u := Counter(ratingCounts, u) + 1];
    }

    /**
     * `getPublishedProfiles()`: the stored profiles of the published set's
     * members. Under the invariants these are exactly the published
     * profiles, one per published username.
     */
    method GetPublishedProfiles() returns (r: seq<AgentProfile>)
      ensures |r| <= |published|
      ensures forall p :: p in r <==> exists u :: u in published && GetProfileByUsername(Contents(), u) == Some(p)
      ensures ProfilesConsistent(Contents()) ==>
        |r| == |published| && forall p :: p in r <==> PublishedProfile(Contents(), p)
    {
      var names := Members(published);
      if ProfilesConsistent(Contents()) {
        PublishedListing(Contents(), names);
      }
      forall p ensures p in Hydrate(Contents(), names) <==>
        exists u :: u in published && GetProfileByUsername(Contents(), u) == Some(p)
      {
        HydrateMembers(Contents(), names, p);
      }
      if |names| == 0 {
        return [];
      }
      r := Hydrate(Contents(), names);
    }

    /**
     * `getProfilesByCategory(c)`: the stored profiles of the members of
     * category `c`'s set. Under the invariants these are exactly the
     * published profiles with a public capability in `c`.
     */
    method GetProfilesByCategory(c: CategoryId) returns (r: seq<AgentProfile>)
      ensures |r| <= |SetAt(categories, c)|
      ensures forall p :: p in r <==> exists u :: u in SetAt(categories, c) && GetProfileByUsername(Contents(), u) == Some(p)
      ensures ProfilesConsistent(Contents()) ==>
        |r| == |SetAt(categories, c)| &&
        forall p :: p in r <==> PublishedProfile(Contents(), p) && c in PublicCategories(p.capabilities)
    {
      var names := Members(SetAt(categories, c));
      if ProfilesConsistent(Contents()) {
        CategoryListing(Contents(), c, names);
      }
      forall p ensures p in Hydrate(Contents(), names) <==>
        exists u :: u in SetAt(categories, c) && GetProfileByUsername(Contents(), u) == Some(p)
      {
        HydrateMembers(Contents(), names, p);
      }
      if |names| == 0 {
        return [];
      }
      r := Hydrate(Contents(), names);
    }
  
    /**
     * `searchProfiles(query)`: the members of the search set starting with
     * the lower-cased query, the first 20 in lexicographic order, read back as
     * usernames and profiles, keeping the published ones. Under the
     * invariants the result is sound and in member order, holds every
     * published profile among the first 20 matches, and so is complete when
     * no more than 20 members match.
     */
    method SearchProfiles(query: string) returns (r: seq<AgentProfile>)
      ensures |r| <= 20
      ensures forall p :: p in r ==> p.isPublished
      ensures ProfilesConsistent(Contents()) ==> SearchSound(Contents(), query, r)
      ensures ProfilesConsistent(Contents()) && |PrefixMatches(searchNames, Lower(query))| <= 20 ==>
        SearchComplete(Contents(), query, r)
      ensures ProfilesConsistent(Contents()) ==> SearchWindowComplete(Contents(), query, 20, r)
    {
      var matching := PrefixMatches(searchNames, Lower(query));
      var ms := Range(matching, 0, 20, false);
      SearchPage(Contents(), query, matching, ms);
      if |ms| == 0 {
        return [];
      }
      var names := IndexedNames(ms);
      if |names| == 0 {
        return [];
      }
      r := PublishedOnly(Hydrate(Contents(), names));
    }

    /**
     * `getRecentProfiles(limit)`: the published profiles, newest first by
     * the time `time` reads from `createdAt`, cut at `limit`, six when no
     * limit is passed (a negative limit drops that many from the end). Under
     * the invariants every published profile left out is no newer than every
     * one returned.
     */
    method GetRecentProfiles(limit: Option<int>, time: string -> int) returns (r: seq<AgentProfile>)
      ensures NewestFirst(r, time)
      ensures limit.None? ==> |r| <= RecentDefault
      ensures limit.Some? && 0 <= limit.value ==> |r| <= limit.value
      ensures ProfilesConsistent(Contents()) ==>
        var n := limit.GetOr(RecentDefault);
        && (forall p :: p in r ==> PublishedProfile(Contents(), p))
        && (0 <= n ==> |r| == if n <= |published| then n else |published|)
        && (forall p, q :: p in r && PublishedProfile(Contents(), q) && q !in r ==> time(q.createdAt) <= time(p.createdAt))
    {
      var n := limit.GetOr(RecentDefault);
      var all := GetPublishedProfiles();
      var sorted := SortNewestFirst(all, time);
      SortNewestFirstOrdered(all, time);
      r := SliceTo(sorted, n);
      NewestPrefix(all, sorted, |r|, time);
      assert r == sorted[..|r|];
    }

    /**
     * `getReviews(username, offset, limit)`: the reviews of `username`'s
     * timeline from position `offset`, newest first, at most `limit` of them.
     * When the agent's timeline agrees with its stored reviews, none is
     * dropped and the review at position `i` is the one whose reviewer has
     * exactly `offset + i` newer entries.
     */
    method GetReviews(username: string, offset: nat, limit: nat) returns (r: seq<Review>)
      requires limit >= 1
      ensures |r| <= limit
      ensures ReviewsPage(Contents(), username, offset, limit, r)
    {
      var t := Timeline(Contents(), username);
      var ids := Range(t, offset, limit, true);
      ReviewPage(Contents(), username, t, offset, limit, ids);
      if |ids| == 0 {
        assert HydrateReviews(Contents(), username, ids) == [];
        return [];
      }
      r := HydrateReviews(Contents(), username, ids);
    }

    /**
     * `getAgentRatings(usernames)`: the rating summary of each username,
     * read from its sum and count counters.
     */
    method GetAgentRatings(names: seq<string>) returns (ratings: map<string, AgentRatingSummary>)
      ensures ratings.Keys == set u | u in names
      ensures forall u :: u in ratings ==> ratings[u] == GetAgentRating(Contents(), u)
    {
      ratings := map[];
      if |names| == 0 {
        return;
      }
      var i := 0;
      while i < |names|
        invariant 0 <= i <= |names|
        invariant ratings.Keys == set u | u in names[..i]
        invariant forall u :: u in ratings ==> ratings[u] == GetAgentRating(Contents(), u)
      {
        var sum := Counter(ratingSums, names[i]);
        var count := Counter(ratingCounts, names[i]);
        ratings := ratings[names[i] := RatingSummary(sum, count)];
        assert names[..i + 1] == names[..i] + [names[i]];
        i := i + 1;
      }
      assert names[..i] == names;
    }
  }
}
