# agentpages directory core, modelled in Dafny

agentpages is a directory of AI agents. Each agent owner signs in with GitHub
and publishes a profile: a username, a display name, a wallet address and a
list of capabilities. Each capability has a category, a contact method, an
approval mode, a visibility flag and an optional price. Visitors browse the
published agents by category or by a username prefix search, and signed-in
visitors rate and review agents they do not own.

This project models the core of that system:

- **The Redis data layer** (`RedisData`, `RedisStore`). The store is a value
  `Db` holding the profile hashes, the username set, the GitHub pointers, the
  search sorted set, the published set, the eleven category sets, the review
  hashes, the per-agent review timelines and the rating counters.
  - Each write operation is a function from one `Db` to the next, and the
    `RedisStore.Store` class performs the same writes command by command.
  - The listing reads (published, by category, search, recent, reviews and
    batched ratings) are methods on the store, proved against a specification
    stated over `Db`. The single-record reads (`GetProfileByUsername`,
    `GetProfileByGithubId`, `GetReview`, `GetAgentRating`) are functions over
    `Db`.
  - Profiles and reviews round-trip through their flat string hashes, with
    capabilities as JSON (`CapabilityJson`).
  - Sorted-set ranges follow Redis' score-then-lexicographic order
    (`SortedSets`).
- **The profile endpoint** (`ProfileRoute`). GET checks availability or
  returns the caller's profile. POST creates a profile after validation.
  PUT updates the supplied fields and reads the profile back.
- **The agents listing endpoint** (`AgentsRoute`). It chooses the source,
  caps the limit and shapes each public view with its rating.
- **The category table** (`Categories`) and the **route guard**
  (`Middleware`).
- **The client components' logic**:
  - the capability editor (`CapabilityEditor`);
  - the directory card (`AgentCard`);
  - the profile form (`ProfileForm.Form`) with its username sanitiser and
    classification;
  - the reviews panel (`ReviewSection.Panel`) with its paging and its recall
    of the visitor's own review.

The main properties proved are:

- Creating or updating a profile keeps every index consistent with the
  stored profiles.
- A write reads back as written. A profile saved without a wallet address
  reads back with the empty address `''`.
- Storing a review keeps each agent's counters equal to the count and the
  sum of its stored ratings. An agent with no reviews has average 0; when
  every stored rating lies in 1..5, the average of a reviewed agent lies
  between 1 and 5.
- Searches are sound for the prefix of the search member and keep its
  order. They return every published profile among the first 20 matches,
  so they are complete when no more than 20 members match.
- The recent listing is the newest profiles, newest first.
- A review page is the right window of the timeline.
- The form accepts exactly the usernames the server accepts.
- The guard lets a request through exactly when it should.

## Model

| member | source | states |
|---|---|---|
| Types.ParseCategoryName | src/types/index.ts:4-15 | a category id written by its name reads back as itself |
| Types.ParseContactMethodName | src/types/index.ts:1 | a contact method written by its name reads back as itself |
| Types.ParseApprovalModeName | src/types/index.ts:2 | an approval mode written by its name reads back as itself |
| Strings.ParseIntToString | src/lib/redis-data.ts:245-259 | a rating stored with `String(n)` is read back by `parseInt` as `n` |
| Strings.UnsignedDigits | src/lib/redis-data.ts:259 | `parseInt` reads a run of decimal digits as its value |
| Strings.NegatedDigits | src/lib/redis-data.ts:259 | `parseInt` reads `-` followed by digits as the negated value |
| Strings.LowerIdempotent | src/lib/redis-data.ts:101 | lower-casing twice is lower-casing once |
| Lists.SliceTo | src/app/api/agents/route.ts:27 | `slice(0, n)` is a prefix: `n` elements for `0 <= n <= length`, all for larger `n`, all but the last `-n` for negative `n` |
| Lists.Members | src/lib/redis-data.ts:176 | the listed members are exactly the set's elements, each once, as many as the set holds |
| Categories.CategoryTableShape | src/lib/categories.ts:10-22 | the table has eleven entries with distinct ids |
| Categories.CategoryTableCovers | src/lib/categories.ts:10-22 | every category id has an entry in the table |
| Categories.FromEntriesLookup | src/lib/categories.ts:24-26 | the map built from the entries finds each entry under its id |
| Categories.CategoryMapLookup | src/lib/categories.ts:24-26 | the category map gives each id its own table entry |
| Categories.CategoryMapTotal | src/lib/categories.ts:24-26 | every category id has an entry in the map, and that entry carries the id |
| CapabilityLists.PublicCaps | src/components/AgentCard.tsx:13 | the public capabilities are the public ones of the list, in order |
| CapabilityLists.PublicCapsAppend | src/components/AgentCard.tsx:13 | filtering distributes over concatenation |
| CapabilityLists.PublicCategories | src/lib/redis-data.ts:106-110 | the categories indexed for a profile are exactly those of its public capabilities |
| CapabilityLists.PublicCategoriesMembers | src/lib/redis-data.ts:106-110 | a category is indexed exactly when some public capability has it |
| CapabilityLists.CategoriesOfPublicCaps | src/lib/redis-data.ts:161-167 | the category set built while re-adding equals the categories of the public capabilities |
| CapabilityLists.Dedupe | src/components/AgentCard.tsx:14 | deduplication keeps each element once and loses none |
| CapabilityLists.DedupeFirstOccurrenceOrder | src/components/AgentCard.tsx:14 | deduplicated elements are distinct and ordered by their first occurrence |
| CapabilityLists.UniqueCategories | src/components/AgentCard.tsx:14 | the card's categories are the public categories, each once |
| CapabilityJson.ParseQuotedRoundTrip | src/lib/redis-data.ts:43 | a string written as a JSON string literal parses back, followed by the rest of the input |
| CapabilityJson.ParseCapabilityRoundTrip | src/lib/redis-data.ts:43 | a capability written as a JSON object parses back as itself |
| CapabilityJson.ParseStringify | src/lib/redis-data.ts:43-56 | `JSON.parse(JSON.stringify(caps))` gives back `caps` |
| CapabilityJson.ParseEmptyArray | src/lib/redis-data.ts:53-55 | the `'[]'` default parses as no capabilities |
| SortedSets.RankOrder | src/lib/redis-data.ts:206-211 | a member ranked before another is a different member, ahead of it in the set's order |
| SortedSets.RankInjective | src/lib/redis-data.ts:206-211 | distinct members have distinct ranks |
| SortedSets.Range | src/lib/redis-data.ts:206-211 | a ZRANGE window returns, in rank order, exactly the members whose ranks lie in the window, as many as the set has there |
| SortedSets.SameScoreIsLexOrder | src/lib/redis-data.ts:206-211 | among equal scores the forward order is the lexicographic order of the members |
| SortedSets.ReversedIsDescendingScore | src/lib/redis-data.ts:277-279 | a reversed range puts higher scores first |
| RedisData.KeysInjective | src/lib/redis-data.ts:6-17 | each key family maps distinct names to distinct keys |
| RedisData.RatingKeysDisjoint | src/lib/redis-data.ts:15-16 | the rating-sum and rating-count keys never collide |
| RedisData.ReviewKeyInjective | src/lib/redis-data.ts:13 | the review key identifies the agent and reviewer pair when the agent's username has no `:` |
| RedisData.ColonIndexOf | src/lib/redis-data.ts:215 | in `u:rest` with a colon-free `u`, the first colon comes right after `u` |
| RedisData.ReservedIgnoresCase | src/lib/redis-data.ts:27-29 | the reserved check ignores letter case |
| RedisData.SerializedProfileKeys | src/lib/redis-data.ts:33-48 | a serialized profile has exactly the twelve hash fields |
| RedisData.DeserializeWithoutCapabilities | src/lib/redis-data.ts:51-56 | a hash whose capabilities field is missing or does not parse reads as no capabilities |
| RedisData.ProfileRoundTrip | src/lib/redis-data.ts:33-72 | writing a profile over any hash reads back as the stored form of the profile |
| RedisData.DeserializeSerialized | src/lib/redis-data.ts:33-72 | a serialized profile reads back as its stored form |
| RedisData.ProfileRoundTripExact | src/lib/redis-data.ts:33-72 | a profile with a wallet address reads back unchanged |
| RedisData.SerializedReviewKeys | src/lib/redis-data.ts:238-250 | a serialized review has exactly its nine hash fields |
| RedisData.DeserializeWithoutRating | src/lib/redis-data.ts:252-264 | a review hash without a rating reads with rating 0 |
| RedisData.ReviewRoundTrip | src/lib/redis-data.ts:238-264 | a review written over any hash reads back as itself |
| RedisData.IndexedName | src/lib/redis-data.ts:215 | `split(':')[1]` is absent exactly for a member without `:`, and never holds a `:` |
| RedisData.IndexedNameOfMember | src/lib/redis-data.ts:99-102 | the search member of a colon-free username gives back that username |
| RedisData.IndexedNames | src/lib/redis-data.ts:215 | every username taken from the members is non-empty and comes from one of them, and there are no more usernames than members |
| RedisData.PrefixMatches | src/lib/redis-data.ts:206-211 | the members a BYLEX range returns are those starting with the lower-cased query |
| RedisData.GetProfileByUsername | src/lib/redis-data.ts:76-80 | a profile exactly when its hash is non-empty, always with a wallet address (`''` by default) |
| RedisData.GetProfileByGithubId | src/lib/redis-data.ts:82-86 | a missing pointer gives no profile; otherwise it is the profile of the pointed-to username |
| RedisData.GetReview | src/lib/redis-data.ts:266-270 | a review exactly when its hash is non-empty |
| RedisData.RatingSummary | src/lib/redis-data.ts:327-340 | no reviews give the average 0; otherwise the average is the sum over the count |
| RedisData.ApplyUpdates | src/lib/redis-data.ts:123-129 | the merge keeps the username and GitHub id, stamps `updatedAt`, and with no updates changes nothing else |
| RedisData.CreatePreservesConsistency | src/lib/redis-data.ts:92-114 | creating a profile under a free username keeps every index consistent with the stored profiles |
| RedisData.CreateThenRead | src/lib/redis-data.ts:92-114 | the created profile reads back by username and by GitHub id, and its username is taken |
| RedisData.CreateIndexesProfile | src/lib/redis-data.ts:92-114 | the new username is in the username, search and published sets, and in exactly its public categories, and no other username moves |
| RedisData.UpdatePreservesConsistency | src/lib/redis-data.ts:116-171 | updating a stored profile keeps every index consistent |
| RedisData.UpdateThenRead | src/lib/redis-data.ts:116-171 | the merged profile reads back; no other profile changes |
| RedisData.UpdateIndexesProfile | src/lib/redis-data.ts:142-168 | after an update, the published set and every category set hold the username exactly as the updated profile says; other usernames keep their memberships |
| RedisData.UpdateCategoryMembers | src/lib/redis-data.ts:149-168 | removing from all eleven categories and re-adding to the public ones leaves exactly the public ones |
| RedisData.GithubPointerLeadsToOwner | src/lib/redis-data.ts:82-86 | under consistency the profile found by GitHub id belongs to that GitHub user |
| RedisData.PreviousRating | src/lib/redis-data.ts:297-300 | the rating of the review being replaced, when there is one |
| RedisData.RatingsAfterReview | src/lib/redis-data.ts:301-311 | after storing a review, the agent's stored ratings are the old ones with this reviewer's rating set |
| RedisData.TimelineSize | src/lib/redis-data.ts:308-311 | the timeline grows by one exactly for a first review |
| RedisData.ReviewedCount | src/lib/redis-data.ts:313-322 | a count counter that matched the timeline and goes up exactly for a first review matches the new timeline |
| RedisData.ReviewedSum | src/lib/redis-data.ts:313-322 | a sum counter that matched the stored ratings and moves by the change in rating matches the new stored ratings |
| RedisData.ReviewPreservesRatings | src/lib/redis-data.ts:295-325 | storing a review keeps every agent's counters equal to the count and sum of its stored ratings |
| RedisData.ReviewThenRead | src/lib/redis-data.ts:301-306 | a stored review reads back; every other review reads as before |
| RedisData.CountersOfStored | src/lib/redis-data.ts:327-340 | under consistency the counters are the count and sum of the stored ratings |
| RedisData.RatingIsMeanOfStored | src/lib/redis-data.ts:327-340 | the average served is the mean of the stored ratings |
| RedisData.SummaryWithinStars | src/lib/redis-data.ts:336-339 | an average whose sum lies between the count and five times the count lies between 1 and 5 |
| RedisData.AverageWithinStars | src/lib/redis-data.ts:327-340 | when every stored rating lies between 1 and 5, the served average lies between 1 and 5 |
| RedisStore.HydrateAll | src/lib/redis-data.ts:184-186 | when every username has a profile, hydrating gives one profile per username, in order |
| RedisStore.HydrateEach | src/lib/redis-data.ts:184-186 | when every username has a profile, the i-th result is the i-th username's profile |
| RedisStore.PublishedListing | src/lib/redis-data.ts:175-187 | under consistency the published listing has one entry per published username and holds exactly the published profiles |
| RedisStore.CategoryListing | src/lib/redis-data.ts:189-201 | under consistency the category listing holds exactly the published profiles with a public capability in the category |
| RedisStore.PublishedOnlyOrdered | src/lib/redis-data.ts:226 | the published filter keeps the order it is given |
| RedisStore.IndexedNamesOrdered | src/lib/redis-data.ts:215 | usernames taken from search members in rank order come out in the members' order |
| RedisStore.SearchIsSound | src/lib/redis-data.ts:203-227 | every search result is published, its search member starts with the lower-cased query, and results follow member order |
| RedisStore.SearchWindowIsComplete | src/lib/redis-data.ts:206-227 | under consistency a search that read the first `k` matches returns every published profile whose search member is among them |
| RedisStore.SearchIsComplete | src/lib/redis-data.ts:203-227 | when every matching member is read, every matching published profile is returned |
| RedisStore.SearchNames | src/lib/redis-data.ts:206-215 | the usernames searched are those of the matching members, in order |
| RedisStore.HydratedOrdered | src/lib/redis-data.ts:216-226 | hydrating and filtering keep the member order |
| RedisStore.QueryPrefixOfUsername | src/lib/redis-data.ts:101-102 | for a colon-free query, a matching member means the lower-cased username starts with the lower-cased query |
| RedisStore.SortNewestFirstOrdered | src/lib/redis-data.ts:231-233 | sorting by creation time gives a newest-first permutation |
| RedisStore.NewestPrefix | src/lib/redis-data.ts:231-233 | a prefix of the sorted list is newest first, and no profile left out is newer than one kept |
| RedisStore.HydrateReviewsAll | src/lib/redis-data.ts:282-292 | when every reviewer has a stored review, the i-th result is the i-th reviewer's review |
| RedisStore.SearchPage | src/lib/redis-data.ts:206-227 | for the first 20 matching members: at most 20 published results; under consistency sound, holding every published profile among those 20 members, and complete when no more than 20 members match |
| RedisStore.ReviewPage | src/lib/redis-data.ts:272-293 | the i-th review of a page is the stored review of the reviewer at rank `offset + i` of the newest-first timeline |
| RedisStore.StoredPage | src/lib/redis-data.ts:282-292 | when every reviewer in the window has a stored review, the i-th review of the page is that of the reviewer at rank `offset + i` |
| RedisStore.RebuildFollowsTable | src/lib/redis-data.ts:150-153 | the category list used on update is the table's ids, each once |
| RedisStore.AddPublicCategories | src/lib/redis-data.ts:104-111 | the loop adds the username to exactly the categories of its public capabilities |
| RedisStore.AddToEach | src/lib/redis-data.ts:165-167 | the loop adds the username to each listed category |
| RedisStore.RemoveFromEach | src/lib/redis-data.ts:156-158 | the loop removes the username from each listed category |
| RedisStore.RemoveFromAll | src/lib/redis-data.ts:155-158 | the loop removes the username from all eleven categories and from nothing else |
| RedisStore.RebuildCategories | src/lib/redis-data.ts:149-168 | removing then re-adding gives exactly the category sets of the updated profile |
| RedisStore.Store.CreateProfile | src/lib/redis-data.ts:92-114 | the store's new contents are the creation of the profile, command by command |
| RedisStore.Store.UpdateProfile | src/lib/redis-data.ts:116-171 | `found` is false exactly for an absent profile, where the source throws, and then nothing changes; otherwise the store holds the merged profile with its indexes rebuilt (nothing is returned besides `found`, as the source returns nothing) |
| RedisStore.Store.WriteUpdate | src/lib/redis-data.ts:131-170 | the update's writes, command by command, reach the specified new contents |
| RedisStore.Store.CreateOrUpdateReview | src/lib/redis-data.ts:295-325 | the store holds the review, the reviewer on the agent's timeline at the review's time, the sum moved by the rating or its change, and the count moved only for a first review |
| RedisStore.Store.WriteReview | src/lib/redis-data.ts:299-324 | the review's writes, command by command, reach the specified new contents |
| RedisStore.Store.GetPublishedProfiles | src/lib/redis-data.ts:175-187 | returns exactly the profiles of the published usernames, at most one per username |
| RedisStore.Store.GetProfilesByCategory | src/lib/redis-data.ts:189-201 | returns exactly the profiles of the usernames listed in the category, at most one per username |
| RedisStore.Store.SearchProfiles | src/lib/redis-data.ts:203-227 | at most 20 published profiles; under consistency a sound search result that holds every published profile among the first 20 matches, and is complete when no more than 20 members match |
| RedisStore.Store.GetRecentProfiles | src/lib/redis-data.ts:229-234 | returns at most `limit` published profiles, six when no limit is passed, newest first, with none left out newer than one returned |
| RedisStore.Store.GetReviews | src/lib/redis-data.ts:272-293 | returns the page of stored reviews at `offset`, newest first |
| RedisStore.Store.GetAgentRatings | src/lib/redis-data.ts:342-364 | a map over exactly the requested usernames, each to its rating summary |
| ProfileRoute.UsernamePatternAccepts | src/app/api/profile/route.ts:59-64 | the username pattern accepts exactly 3 to 40 lower-case letters, digits and hyphens, beginning and ending with a letter or digit |
| ProfileRoute.UsernamePatternHasNoColon | src/app/api/profile/route.ts:59-64 | an accepted username has no `:` |
| ProfileRoute.CheckAvailability | src/app/api/profile/route.ts:32-37 | a name is reported reserved exactly when it is reserved, and available exactly when it is neither reserved nor taken |
| ProfileRoute.Get | src/app/api/profile/route.ts:25-41 | 401 without a user; the availability answer for a non-empty `check`; otherwise the caller's profile or null |
| ProfileRoute.CheckAfterCreate | src/app/api/profile/route.ts:32-37 | once a profile exists under a name, checking the name reports it unavailable |
| ProfileRoute.NewProfile | src/app/api/profile/route.ts:74-87 | a new profile belongs to the user, is unpublished, is stamped now, and falls back to the user's name or the username for its display name |
| ProfileRoute.DecidePost | src/app/api/profile/route.ts:49-87 | 409 when the user already has a profile; 400 for a missing, malformed or reserved username; 409 for a taken one; otherwise the new profile is created |
| ProfileRoute.PostKeepsConsistency | src/app/api/profile/route.ts:89-90 | a profile POST creates keeps the store consistent |
| ProfileRoute.SecondPostConflicts | src/app/api/profile/route.ts:50-53 | after a successful POST, any later POST by the same user is refused with 409 |
| ProfileRoute.Post | src/app/api/profile/route.ts:43-91 | 401 without a user; otherwise the decision's reply, with the profile written exactly when it is created |
| ProfileRoute.Requested | src/app/api/profile/route.ts:107-112 | the updates never touch the username, the GitHub id, the email, the avatar or the timestamps |
| ProfileRoute.BuildUpdates | src/app/api/profile/route.ts:107-121 | a supplied wallet address that is neither empty nor an EVM address rejects the request; otherwise the updates are the supplied fields |
| ProfileRoute.PutChangesOnlySupplied | src/app/api/profile/route.ts:107-125 | a PUT changes exactly the supplied editable fields and stamps `updatedAt` |
| ProfileRoute.Put | src/app/api/profile/route.ts:93-126 | 401 without a user; 404 and no change without a profile; 400 and no change for a bad wallet; 500 and no change when the profile the GitHub pointer names is missing, since `updateProfile` throws; otherwise the merged profile is stored and returned |
| ProfileRoute.PutReadsBackOwnProfile | src/app/api/profile/route.ts:123-125 | after a PUT, the user's profile reads back by GitHub id as the merged profile |
| AgentsRoute.ChooseSource | src/app/api/agents/route.ts:19-25 | a non-empty query searches; otherwise a non-empty category lists that category; otherwise all published profiles |
| AgentsRoute.RequestedLimit | src/app/api/agents/route.ts:14 | the limit is at most 100 and is 50 when absent or empty |
| AgentsRoute.RequestedLimitOfNumber | src/app/api/agents/route.ts:14 | a number written as the limit is read back and capped at 100 |
| AgentsRoute.NegativeLimitPassesCap | src/app/api/agents/route.ts:14-27 | with `limit=-1` and 102 profiles, the listing has 101 entries |
| AgentsRoute.CappedLimit | src/app/api/agents/route.ts:14 | the intended limit lies between 0 and 100, is 50 by default, and agrees with the parsed limit when that is non-negative |
| AgentsRoute.CappedListingBound | src/app/api/agents/route.ts:14-27 | with the intended limit no listing exceeds 100 agents, or 50 without a limit |
| AgentsRoute.ViewCapability | src/app/api/agents/route.ts:40-52 | the view keeps the shown fields and shows `''` for no price |
| AgentsRoute.ViewCapabilities | src/app/api/agents/route.ts:40-52 | one view per public capability, in order |
| AgentsRoute.ViewsArePublic | src/app/api/agents/route.ts:40-52 | every view comes from a public capability, and every public capability is shown |
| AgentsRoute.ViewAgent | src/app/api/agents/route.ts:32-53 | the agent's view keeps its names, shows `''` for no wallet, and carries its rating |
| AgentsRoute.RatingOr | src/app/api/agents/route.ts:39 | the stored rating, or `{0, 0}` for an agent missing from the map |
| AgentsRoute.Listing | src/app/api/agents/route.ts:32-53 | one view per profile, in order, rated from the counters |
| AgentsRoute.UnreviewedRating | src/app/api/agents/route.ts:39 | an agent without reviews is listed with the rating `{0, 0}` |
| AgentsRoute.ListAgents | src/app/api/agents/route.ts:10-60 | the handler with the corrected limit of the first finding below: the listing of the capped slice of the chosen source, at most 100 agents, with an unknown category listing nobody; it equals the listing as written whenever the written limit is not negative |
| AgentsRoute.ViewListing | src/app/api/agents/route.ts:28-53 | the views of the given profiles rated from the store's counters |
| Middleware.ReviewsPathShape | src/middleware.ts:4 | the pattern matches exactly `/api/agents/<segment>/reviews` with a non-empty segment without `/` |
| Middleware.Token | src/middleware.ts:20-22 | there is a token exactly when either session cookie has a non-empty value |
| Middleware.Guard | src/middleware.ts:10-31 | unprotected paths pass; a protected request without a token gets 401 under `/api/` and the login redirect elsewhere; otherwise it passes |
| Middleware.UnprotectedIgnoresCookies | src/middleware.ts:15-17 | cookies never matter for an unprotected path |
| Middleware.EitherCookiePasses | src/middleware.ts:20-31 | either session cookie with a value lets any request through |
| Middleware.ReviewsNeedSessionToPost | src/middleware.ts:10-13 | reading an agent's reviews never needs a session; posting one without a token is refused with 401 |
| CapabilityEditor.EmptyCapability | src/components/CapabilityEditor.tsx:30-43 | a blank capability is public, free, in category `other`, over an API, with human approval, available 24/7 |
| CapabilityEditor.AddCapability | src/components/CapabilityEditor.tsx:223-225 | adding appends one blank capability and keeps the others |
| CapabilityEditor.AddCapabilityListsOther | src/components/CapabilityEditor.tsx:223-225 | adding a capability adds `other` to the profile's public categories |
| CapabilityEditor.UpdateCapability | src/components/CapabilityEditor.tsx:227-231 | updating replaces exactly the capability at the index |
| CapabilityEditor.DeleteFrom | src/components/CapabilityEditor.tsx:233-235 | filtering by position removes exactly the element at the index, if any |
| CapabilityEditor.DeleteCapability | src/components/CapabilityEditor.tsx:233-235 | deleting an index in range removes exactly that capability; any other index changes nothing |
| CapabilityEditor.DeleteAddedCapability | src/components/CapabilityEditor.tsx:223-235 | deleting the capability just added gives back the original list |
| AgentCard.Title | src/components/AgentCard.tsx:37 | the display name, or the username when it is empty |
| AgentCard.HasPaidCapabilityMeans | src/components/AgentCard.tsx:15 | "Paid" is shown exactly when some public capability has a non-empty price |
| AgentCard.Badges | src/components/AgentCard.tsx:65-67 | exactly the first `min(4, count)` distinct public categories |
| AgentCard.Overflow | src/components/AgentCard.tsx:68-72 | the "+n" label is present exactly when there are more than four distinct public categories, with n the count beyond four |
| AgentCard.BadgesAccountForAll | src/components/AgentCard.tsx:63-72 | the badges and the "+n" count together account for every distinct public category: all of them without a label, the first four with one |
| AgentCard.CardCategories | src/components/AgentCard.tsx:14 | the card's categories are distinct and ordered by their first public appearance |
| AgentCard.StoredRatingShown | src/components/AgentCard.tsx:49 | the stored rating shows stars exactly when the agent has at least one review |
| AgentCard.CapabilityCount | src/components/AgentCard.tsx:77 | the count of public capabilities, with the singular noun exactly for one |
| ProfileForm.KeepUsernameChars | src/components/ProfileForm.tsx:96 | only letters, digits and hyphens remain; a single character is kept exactly when it is allowed |
| ProfileForm.Sanitize | src/components/ProfileForm.tsx:96 | the sanitised input holds only allowed characters; a single character is lower-cased and then kept exactly when allowed |
| ProfileForm.KeepUsernameCharsAppend | src/components/ProfileForm.tsx:96 | the global replace works character by character: filtering a concatenation concatenates the filtered parts |
| ProfileForm.SanitizeAppend | src/components/ProfileForm.tsx:96 | sanitising a concatenation sanitises each part, so each character is lower-cased and kept or dropped on its own |
| ProfileForm.SanitizeIdempotent | src/components/ProfileForm.tsx:96 | sanitising twice is sanitising once |
| ProfileForm.SanitizeKeepsValid | src/components/ProfileForm.tsx:96 | a valid username survives sanitising unchanged |
| ProfileForm.Classify | src/components/ProfileForm.tsx:27-35 | fewer than three characters is idle; otherwise the value is invalid or goes to the server |
| ProfileForm.ClientAgreesWithServer | src/components/ProfileForm.tsx:28-35 | from three characters on, the form sends to the server exactly the usernames the server's pattern accepts |
| ProfileForm.SanitizedInvalidMeansHyphenEdge | src/components/ProfileForm.tsx:28-35 | a sanitised value of 3 to 40 characters is invalid exactly when it starts or ends with a hyphen |
| ProfileForm.Form.constructor | src/components/ProfileForm.tsx:14-24 | the form opens on the profile's username, or empty for a new one |
| ProfileForm.Form.Input | src/components/ProfileForm.tsx:96 | typing stores the sanitised text and nothing else |
| ProfileForm.Form.CheckUsername | src/components/ProfileForm.tsx:27-45 | idle or invalid without asking; otherwise available, taken or, on a failed request, idle |
| ProfileForm.Form.SubmitMethod | src/components/ProfileForm.tsx:60 | POST exactly for a new profile, PUT exactly for an existing one |
| ProfileForm.Form.NewProfileNeedsAvailableName | src/components/ProfileForm.tsx:182 | a new profile can be submitted only when its username is known to be free |
| ProfileForm.Form.Submit | src/components/ProfileForm.tsx:53-78 | saving ends; a failure leaves a non-empty error, the server's or "Failed to save" |
| ReviewSection.OnlyOthersReview | src/components/ReviewSection.tsx:43 | signed-out visitors and the agent's owner never review; any other signed-in visitor may |
| ReviewSection.FindByReviewer | src/components/ReviewSection.tsx:76-78 | finds a review by that reviewer exactly when one is loaded |
| ReviewSection.FindByReviewerFirst | src/components/ReviewSection.tsx:76-78 | the earliest matching review is the one found |
| ReviewSection.TruncateComment | src/components/ReviewSection.tsx:179 | a prefix of the input: the whole input when it fits in 1000 characters, otherwise exactly its first 1000 |
| ReviewSection.Panel.constructor | src/components/ReviewSection.tsx:25-40 | the panel opens empty and loading, with the rating `{0, 0}` and a blank form |
| ReviewSection.Panel.FetchReviews | src/components/ReviewSection.tsx:45-92 | a fresh load replaces the list and "load more" appends; the offset keeps counting the loaded reviews; the visitor's own review fills the form; a failed request changes nothing but the loading flags |
| ReviewSection.Panel.TakePage | src/components/ReviewSection.tsx:62-69 | the list, total, rating and offset after a page arrives |
| ReviewSection.Panel.RecallOwnReview | src/components/ReviewSection.tsx:72-84 | the visitor's own loaded review fills the form; otherwise the form is unchanged |
| ReviewSection.Panel.EditComment | src/components/ReviewSection.tsx:179 | typing keeps the first 1000 characters of the comment and changes nothing else |
| ReviewSection.Panel.Submit | src/components/ReviewSection.tsx:99-127 | nothing happens without a rating; a refusal records the error and changes nothing else; acceptance marks the visitor as reviewer and reloads the first page, taking its reviews, total and rating and recalling the visitor's own review |
| ReviewSection.PageAnswer | src/components/ReviewSection.tsx:60-68 | the answer the panel reads carries the reviews and the rating, as the reviews endpoint sends them |
| ReviewSection.LoadMoreNeverOffered | src/components/ReviewSection.tsx:129 | with the answer as written, an agent with 25 reviews shows 10 and never offers "load more" |
| ReviewSection.PageAnswerWithTotal | src/components/ReviewSection.tsx:60-68 | the corrected answer also carries the agent's number of reviews as the total the panel reads |
| ReviewSection.LoadMoreWithTotal | src/components/ReviewSection.tsx:129 | with the total sent, "load more" is offered exactly while fewer reviews are loaded than the agent has |

## Left out

- Redis itself:
  - Commands are modelled as sequential, atomic updates of one value.
  - Pipelines and `Promise.all` batches are modelled in their command order.
  - The network, connection errors, partial failure of a pipeline and concurrent writers are not modelled.
- Empty sets and sorted sets are modelled as keys holding an empty collection, where Redis deletes the key. No reader can tell the difference.
- Rating counters are unbounded integers, and the average is a real number. JavaScript floating point and Redis' 64-bit counters are not modelled.
- The search's `\xff` upper bound is modelled as a prefix test on the search member. `toLowerCase` is modelled on ASCII letters only.
- RedisStore.Store.SearchProfiles: states the prefix relation on the search member `lower(username):username`. This implies that the lower-cased username starts with the lower-cased query only for a query without `:`. That case is RedisStore.QueryPrefixOfUsername.
- A search for the empty string returns the first 20 members. The route never asks for one.
- Clocks are parameters: `now` for timestamps, and a `time` function from the stored `createdAt` text to its instant, used for the recent listing and for the score of a review on its agent's timeline.
- `generateId()` is replaced by an id passed in.
- JSON is modelled by a concrete encoder and a strict parser for the capability list, with a proven round trip. Arbitrary JSON written into the hash by other programs is not.
- Request bodies are modelled as `Option` values of the expected field types. A body that fails to parse, or fields of the wrong JSON type, are not modelled.
- `parseInt` is modelled for what the code feeds it: white space, sign and digits. Radix prefixes and the `NaN` arithmetic of `Math.min(NaN, 100)` are modelled only as "no number", which the listing reads as an empty slice.
- RedisStore.Store.GetReviews: requires `limit >= 1`. Redis reads a stop index of `offset - 1` differently at offset 0, and the reviews route already clamps the limit to 1..50. The reviews route itself is not part of this model; only its answer shape is, for the finding below.
- Authentication sessions, the x402 payment layer, the reviews POST handler's validation, and the NextAuth configuration are not part of this model.
- Middleware.Guard: the `config.matcher` list that decides which paths reach the guard is left out. The guard is modelled for every path.
- The React plumbing is left out: rendering, effects, timers, debouncing of the username check, fetch calls and the StarRating widget. Each component's logic is modelled with the server's answer passed in.
- CapabilityEditor.UpdateCapability: requires an index within the list. JavaScript would extend the array for an index past its end, and the editor never produces one.
- An unknown category name in the listing's query string is modelled as an empty listing. The code would ask Redis for a key no profile is ever added to.

## Findings

| source | as written | input that shows it | evidently intended | confidence | as-written member | corrected member |
|---|---|---|---|---|---|---|
| src/app/api/agents/route.ts:14 | the limit is `Math.min(parseInt(limit), 100)` with no lower bound, and `slice(0, limit)` reads a negative limit from the end | `?limit=-1` with 102 published profiles lists 101 agents, above the cap of 100 | a limit between 0 and 100; the listing handler `AgentsRoute.ListAgents` slices with it | not executed | AgentsRoute.NegativeLimitPassesCap | AgentsRoute.CappedLimit |
| src/app/api/agents/[username]/reviews/route.ts:27 | the reviews page is answered as `{ reviews, rating }` without a `total`, while the panel shows "load more" only while `reviews.length < total` (src/components/ReviewSection.tsx:129) | an agent with 25 reviews: the panel shows the first 10 and never offers the other 15 | the answer carries the agent's number of reviews as `total` | not executed | ReviewSection.LoadMoreNeverOffered | ReviewSection.PageAnswerWithTotal |
