/**
 * The `/api/profile` endpoint: the username availability check and the
 * caller's own profile (GET), profile creation (POST) and partial update
 * (PUT). Every handler first needs a signed-in user; the session itself is
 * a parameter.
 */
module ProfileRoute {
  import opened Wrappers
  import opened Types
  import opened Strings
  import opened RedisData
  import opened RedisStore

  /** The signed-in user as the session reports it. */
  datatype User = User(email: string, name: string, image: string, githubId: string, githubUsername: string)

  /** The JSON bodies the endpoint answers with. */
  datatype Body =
    | ErrorBody(error: string)
    | CheckBody(username: string, available: bool, reserved: bool)
    | ProfileBody(profile: Option<AgentProfile>)

  datatype Reply = Reply(status: int, body: Body)

  const Unauthorized := Reply(401, ErrorBody("Unauthorized"))

  /** What the framework answers when a handler throws instead of returning a response. */
  const InternalError := Reply(500, ErrorBody("Internal Server Error"))

  // ---------------------------------------------------------------------
  // Formats

  predicate IsLowerAlnum(c: char) { 'a' <= c <= 'z' || '0' <= c <= '9' }

  predicate IsUsernameChar(c: char) { IsLowerAlnum(c) || c == '-' }

  predicate IsHexDigit(c: char) { '0' <= c <= '9' || 'a' <= c <= 'f' || 'A' <= c <= 'F' }

  /** `[a-z0-9-]*` over the whole of `s`. */
  predicate UsernameChars(s: string)
  {
    forall i :: 0 <= i < |s| ==> IsUsernameChar(s[i])
  }

  /**
   * `^[a-z0-9][a-z0-9-]{1,38}[a-z0-9]$`: one letter or digit, between 1 and
   * 38 of letters, digits and hyphens, and a final letter or digit.
   */
  predicate UsernamePattern(s: string)
  {
    && 2 <= |s|
    && IsLowerAlnum(s[0])
    && 1 <= |s| - 2 <= 38
    && UsernameChars(s[1..|s| - 1])
    && IsLowerAlnum(s[|s| - 1])
  }

  /**
   * The pattern accepts exactly the names of 3 to 40 lower-case letters,
   * digits and hyphens that neither start nor end with a hyphen.
   */
  lemma UsernamePatternAccepts(s: string)
    ensures UsernamePattern(s) <==>
      3 <= |s| <= 40 && UsernameChars(s) && s[0] != '-' && s[|s| - 1] != '-'
  {
    if 3 <= |s| <= 40 && UsernameChars(s) && s[0] != '-' && s[|s| - 1] != '-' {
      assert IsUsernameChar(s[0]) && IsUsernameChar(s[|s| - 1]);
      var middle := s[1..|s| - 1];
      forall i | 0 <= i < |middle| ensures IsUsernameChar(middle[i]) {
        assert middle[i] == s[i + 1];
      }
    }
    if UsernamePattern(s) {
      forall i | 0 <= i < |s| ensures IsUsernameChar(s[i]) {
        if 0 < i < |s| - 1 {
          assert s[i] == s[1..|s| - 1][i - 1];
        }
      }
    }
  }

  /** A username the pattern accepts has no ':' (so its search member splits back). */
  lemma UsernamePatternHasNoColon(s: string)
    requires UsernamePattern(s)
    ensures ':' !in s
  {
    UsernamePatternAccepts(s);
  }

  /** `^0x[a-fA-F0-9]{40}$`. */
  predicate WalletPattern(s: string)
  {
    |s| == 42 && s[0] == '0' && s[1] == 'x' && forall i :: 2 <= i < 42 ==> IsHexDigit(s[i])
  }

  /** A supplied wallet address is kept when it is empty or an EVM address. */
  predicate WalletAccepted(w: string)
  {
    w == "" || WalletPattern(w)
  }

  // ---------------------------------------------------------------------
  // GET

  /** `?check=<name>`: a reserved name is never available; otherwise a name is available when no profile holds it. */
  function CheckAvailability(d: Db, name: string): (r: Body)
    ensures r.CheckBody? && r.username == name
    ensures r.reserved <==> IsUsernameReserved(name)
    ensures r.available <==> !IsUsernameReserved(name) && !IsUsernameTaken(d, name)
  {
    var reserved := IsUsernameReserved(name);
    var taken := if reserved then true else IsUsernameTaken(d, name);
    CheckBody(name, !taken, reserved)
  }

  /** GET: 401 without a user; the availability of `check` when it is non-empty; otherwise the caller's profile. */
  function Get(d: Db, user: Option<User>, check: Option<string>): (r: Reply)
    ensures user.None? ==> r == Unauthorized
    ensures user.Some? ==> r.status == 200
    ensures user.Some? && check.Some? && check.value != "" ==> r.body.CheckBody? && r.body.username == check.value
    ensures user.Some? && (check.None? || check.value == "") ==>
      r.body == ProfileBody(GetProfileByGithubId(d, user.value.githubId))
  {
    if user.None? then Unauthorized
    else if check.Some? && check.value != "" then Reply(200, CheckAvailability(d, check.value))
    else Reply(200, ProfileBody(GetProfileByGithubId(d, user.value.githubId)))
  }

  /** Once a profile is created under a name, checking that name reports it unavailable. */
  lemma CheckAfterCreate(d: Db, p: AgentProfile)
    requires p.username != ""
    ensures !CheckAvailability(AfterCreate(d, p), p.username).available
  {
    CreateThenRead(d, p);
  }

  // ---------------------------------------------------------------------
  // POST

  /** The fields POST reads from its JSON body; an absent field is `None`. */
  datatype PostBody = PostBody(
    username: Option<string>,
    displayName: Option<string>,
    bio: Option<string>,
    website: Option<string>,
    capabilities: Option<seq<Capability>>)

  /** What POST does once it knows the store: refuse with a reply, or create a profile. */
  datatype PostOutcome = Reject(reply: Reply) | Create(profile: AgentProfile)

  /**
   * The profile POST creates for `username`: unpublished, created and updated
   * at `now`, named by the body, else the GitHub name, else the username,
   * with the GitHub id, email and avatar of the session.
   */
  function NewProfile(user: User, username: string, body: PostBody, now: string): (p: AgentProfile)
    ensures p.username == username && p.githubId == user.githubId
    ensures !p.isPublished
    ensures p.createdAt == now && p.updatedAt == now
    ensures p.displayName == OptOrElse(body.displayName, OrElse(user.name, username))
    ensures username != "" ==> p.displayName != ""
    ensures p.capabilities == (if body.capabilities.Some? then body.capabilities.value else [])
  {
    AgentProfile(
      username,
      OptOrElse(body.displayName, OrElse(user.name, username)),
      OptOrElse(body.bio, ""),
      user.image,
      OptOrElse(body.website, ""),
      user.githubId,
      user.email,
      None,
      body.capabilities.GetOr([]),
      false,
      now,
      now)
  }

  /**
   * The POST checks in order: a caller who already has a profile gets 409;
   * a missing or malformed username 400; a reserved one 400; a taken one 409;
   * anything else creates the profile.
   */
  function DecidePost(d: Db, user: User, body: PostBody, now: string): (r: PostOutcome)
    ensures GetProfileByGithubId(d, user.githubId).Some? ==> r == Reject(Reply(409, ErrorBody("Profile already exists")))
    ensures r.Create? <==>
      && GetProfileByGithubId(d, user.githubId).None?
      && body.username.Some? && UsernamePattern(body.username.value)
      && !IsUsernameReserved(body.username.value)
      && !IsUsernameTaken(d, body.username.value)
    ensures r.Create? ==> r.profile == NewProfile(user, body.username.value, body, now)
    ensures r.Reject? ==> r.reply.status == 400 || r.reply.status == 409
    ensures r.Reject? && r.reply.status == 400 <==>
      && GetProfileByGithubId(d, user.githubId).None?
      && (body.username.None? || !UsernamePattern(body.username.value) || IsUsernameReserved(body.username.value))
  {
    if GetProfileByGithubId(d, user.githubId).Some? then Reject(Reply(409, ErrorBody("Profile already exists")))
    else if body.username.None? || body.username.value == "" || !UsernamePattern(body.username.value) then
      Reject(Reply(400, ErrorBody("Username must be 3-40 chars, lowercase alphanumeric and hyphens")))
    else if IsUsernameReserved(body.username.value) then Reject(Reply(400, ErrorBody("Username is reserved")))
    else if IsUsernameTaken(d, body.username.value) then Reject(Reply(409, ErrorBody("Username is taken")))
    else Create(NewProfile(user, body.username.value, body, now))
  }

  /** A profile POST creates keeps the store's indexes consistent. */
  lemma PostKeepsConsistency(d: Db, user: User, body: PostBody, now: string)
    requires ProfilesConsistent(d)
    requires DecidePost(d, user, body, now).Create?
    ensures ProfilesConsistent(AfterCreate(d, DecidePost(d, user, body, now).profile))
  {
    var p := DecidePost(d, user, body, now).profile;
    UsernamePatternHasNoColon(p.username);
    CreatePreservesConsistency(d, p);
  }

  /** After a successful POST, any further POST by the same user is refused with 409. */
  lemma SecondPostConflicts(d: Db, user: User, body: PostBody, now: string, body2: PostBody, now2: string)
    requires DecidePost(d, user, body, now).Create?
    ensures DecidePost(AfterCreate(d, DecidePost(d, user, body, now).profile), user, body2, now2)
      == Reject(Reply(409, ErrorBody("Profile already exists")))
  {
    var p := DecidePost(d, user, body, now).profile;
    CreateThenRead(d, p);
  }

  /** POST: 401 without a user; otherwise the decision above, writing the profile when it is created. */
  method Post(store: Store, user: Option<User>, body: PostBody, now: string) returns (reply: Reply)
    modifies store
    ensures user.None? ==> reply == Unauthorized && store.Contents() == old(store.Contents())
    ensures user.Some? ==>
      match DecidePost(old(store.Contents()), user.value, body, now)
      case Reject(refusal) => reply == refusal && store.Contents() == old(store.Contents())
      case Create(p) => reply == Reply(201, ProfileBody(Some(p))) && store.Contents() == AfterCreate(old(store.Contents()), p)
  {
    if user.None? {
      return Unauthorized;
    }
    var outcome := DecidePost(store.Contents(), user.value, body, now);
    match outcome
    case Reject(refusal) =>
      reply := refusal;
    case Create(p) =>
      store.CreateProfile(p);
      reply := Reply(201, ProfileBody(Some(p)));
  }

  // ---------------------------------------------------------------------
  // PUT

  /** The fields PUT reads from its JSON body; an absent field is `None`. */
  datatype PutBody = PutBody(
    displayName: Option<string>,
    bio: Option<string>,
    website: Option<string>,
    capabilities: Option<seq<Capability>>,
    isPublished: Option<bool>,
    walletAddress: Option<string>)

  /**
   * The partial update PUT asks for: the fields the body supplies, and never
   * the username, GitHub id, email, avatar or creation time.
   */
  function Requested(body: PutBody): (u: ProfileUpdates)
    ensures u.username.None? && u.githubId.None? && u.email.None? && u.avatarUrl.None?
    ensures u.createdAt.None? && u.updatedAt.None?
  {
    NoUpdates.(displayName := body.displayName, bio := body.bio, website := body.website,
               capabilities := body.capabilities, isPublished := body.isPublished,
               walletAddress := body.walletAddress)
  }

  /**
   * Builds the update one present field at a time; a wallet address that is
   * neither empty nor an EVM address refuses the whole update.
   */
  method BuildUpdates(body: PutBody) returns (r: Option<ProfileUpdates>)
    ensures r.None? <==> body.walletAddress.Some? && !WalletAccepted(body.walletAddress.value)
    ensures r.Some? ==> r.value == Requested(body)
  {
    var updates := NoUpdates;
    if body.displayName.Some? {
      updates := updates.(displayName := body.displayName);
    }
    if body.bio.Some? {
      updates := updates.(bio := body.bio);
    }
    if body.website.Some? {
      updates := updates.(website := body.website);
    }
    if body.capabilities.Some? {
      updates := updates.(capabilities := body.capabilities);
    }
    if body.isPublished.Some? {
      updates := updates.(isPublished := body.isPublished);
    }
    if body.walletAddress.Some? {
      if body.walletAddress.value != "" && !WalletPattern(body.walletAddress.value) {
        return None;
      }
      updates := updates.(walletAddress := body.walletAddress);
    }
    return Some(updates);
  }

  /**
   * Applying what PUT requests changes exactly the supplied fields and the
   * update time: the identity fields, email, avatar and creation time stay.
   */
  lemma PutChangesOnlySupplied(existing: AgentProfile, body: PutBody, now: string)
    ensures
      var p := ApplyUpdates(existing, Requested(body), now);
      && p.username == existing.username && p.githubId == existing.githubId
      && p.email == existing.email && p.avatarUrl == existing.avatarUrl && p.createdAt == existing.createdAt
      && p.updatedAt == now
      && p.displayName == (if body.displayName.Some? then body.displayName.value else existing.displayName)
      && p.bio == (if body.bio.Some? then body.bio.value else existing.bio)
      && p.website == (if body.website.Some? then body.website.value else existing.website)
      && p.capabilities == (if body.capabilities.Some? then body.capabilities.value else existing.capabilities)
      && p.isPublished == (if body.isPublished.Some? then body.isPublished.value else existing.isPublished)
      && p.walletAddress == (if body.walletAddress.Some? then body.walletAddress else existing.walletAddress)
  {
  }

  /**
   * PUT: 401 without a user, 404 without a profile, 400 for a bad wallet
   * address (nothing written); 500 when `updateProfile` throws because the
   * profile the GitHub pointer names is missing (nothing written);
   * otherwise the caller's profile is updated and read back.
   */
  method Put(store: Store, user: Option<User>, body: PutBody, now: string) returns (reply: Reply)
    modifies store
    ensures user.None? ==> reply == Unauthorized && store.Contents() == old(store.Contents())
    ensures user.Some? && GetProfileByGithubId(old(store.Contents()), user.value.githubId).None? ==>
      reply == Reply(404, ErrorBody("Profile not found")) && store.Contents() == old(store.Contents())
    ensures user.Some? && GetProfileByGithubId(old(store.Contents()), user.value.githubId).Some? ==>
      var existing := GetProfileByGithubId(old(store.Contents()), user.value.githubId).value;
      if body.walletAddress.Some? && !WalletAccepted(body.walletAddress.value) then
        reply.status == 400 && store.Contents() == old(store.Contents())
      else if GetProfileByUsername(old(store.Contents()), existing.username).None? then
        reply == InternalError && store.Contents() == old(store.Contents())
      else
        var current := GetProfileByUsername(old(store.Contents()), existing.username).value;
        && store.Contents() == AfterUpdate(old(store.Contents()), existing.username, current, ApplyUpdates(current, Requested(body), now))
        && reply == Reply(200, ProfileBody(GetProfileByGithubId(store.Contents(), user.value.githubId)))
  {
    if user.None? {
      return Unauthorized;
    }
    var existing := GetProfileByGithubId(store.Contents(), user.value.githubId);
    if existing.None? {
      return Reply(404, ErrorBody("Profile not found"));
    }
    var updates := BuildUpdates(body);
    if updates.None? {
      return Reply(400, ErrorBody("Invalid wallet address. Must be a valid EVM address (0x...)"));
    }
    var found := store.UpdateProfile(existing.value.username, updates.value, now);
    if !found {
      return InternalError;
    }
    reply := Reply(200, ProfileBody(GetProfileByGithubId(store.Contents(), user.value.githubId)));
  }

  /**
   * Under the invariants the profile PUT reads back is the caller's own,
   * carrying the requested changes.
   */
  lemma PutReadsBackOwnProfile(d: Db, g: string, body: PutBody, now: string)
    requires ProfilesConsistent(d)
    requires GetProfileByGithubId(d, g).Some?
    ensures
      var existing := GetProfileByGithubId(d, g).value;
      var updated := ApplyUpdates(existing, Requested(body), now);
      && GetProfileByUsername(d, existing.username) == Some(existing)
      && GetProfileByGithubId(AfterUpdate(d, existing.username, existing, updated), g) == Some(Stored(updated))
  {
    var existing := GetProfileByGithubId(d, g).value;
    var u := d.usernameByGithub[g];
    assert PointerConsistent(DeserializeProfile, d, g);
    assert RecordConsistent(DeserializeProfile, d, u);
    assert existing.username == u;
    UpdateThenRead(d, u, Requested(body), now, u);
  }
}
