/**
 * The directory's records: capabilities, agent profiles, reviews and the
 * rating summary, with the three closed string unions as datatypes and
 * their wire names.
 */
module Types {
  import opened Wrappers

  /** The eleven capability categories. */
  datatype CategoryId =
    | Scheduling | Freelance | Purchasing | Social | Research | Communication
    | Data | Development | Finance | Creative | Other

  datatype ContactMethod = Api | Webhook | Email | Mcp

  datatype ApprovalMode = Autonomous | HumanApproval | Conditional

  /** One advertised service; `price` absent means free. */
  datatype Capability = Capability(
    id: string,
    name: string,
    description: string,
    category: CategoryId,
    contactMethod: ContactMethod,
    contactEndpoint: string,
    approvalMode: ApprovalMode,
    scope: string,
    availability: string,
    isPublic: bool,
    price: Option<string>)

  datatype AgentProfile = AgentProfile(
    username: string,
    displayName: string,
    bio: string,
    avatarUrl: string,
    website: string,
    githubId: string,
    email: string,
    walletAddress: Option<string>,
    capabilities: seq<Capability>,
    isPublished: bool,
    createdAt: string,
    updatedAt: string)

  datatype Review = Review(
    id: string,
    agentUsername: string,
    reviewerGithubId: string,
    reviewerDisplayName: string,
    reviewerAvatarUrl: string,
    rating: int,
    comment: string,
    createdAt: string,
    updatedAt: string)

  datatype AgentRatingSummary = AgentRatingSummary(averageRating: real, totalReviews: int)

  // ---------------------------------------------------------------------
  // Wire names of the unions

  function CategoryName(c: CategoryId): string
  {
    match c
    case Scheduling => "scheduling"
    case Freelance => "freelance"
    case Purchasing => "purchasing"
    case Social => "social"
    case Research => "research"
    case Communication => "communication"
    case Data => "data"
    case Development => "development"
    case Finance => "finance"
    case Creative => "creative"
    case Other => "other"
  }

  function ParseCategoryId(s: string): (r: Option<CategoryId>)
    ensures r.Some? ==> CategoryName(r.value) == s
  {
    if s == "scheduling" then Some(Scheduling)
    else if s == "freelance" then Some(Freelance)
    else if s == "purchasing" then Some(Purchasing)
    else if s == "social" then Some(Social)
    else if s == "research" then Some(Research)
    else if s == "communication" then Some(Communication)
    else if s == "data" then Some(Data)
    else if s == "development" then Some(Development)
    else if s == "finance" then Some(Finance)
    else if s == "creative" then Some(Creative)
    else if s == "other" then Some(Other)
    else None
  }

  lemma ParseCategoryName(c: CategoryId)
    ensures ParseCategoryId(CategoryName(c)) == Some(c)
  {
  }

  function ContactMethodName(m: ContactMethod): string
  {
    match m
    case Api => "api"
    case Webhook => "webhook"
    case Email => "email"
    case Mcp => "mcp"
  }

  function ParseContactMethod(s: string): (r: Option<ContactMethod>)
    ensures r.Some? ==> ContactMethodName(r.value) == s
  {
    if s == "api" then Some(Api)
    else if s == "webhook" then Some(Webhook)
    else if s == "email" then Some(Email)
    else if s == "mcp" then Some(Mcp)
    else None
  }

  lemma ParseContactMethodName(m: ContactMethod)
    ensures ParseContactMethod(ContactMethodName(m)) == Some(m)
  {
  }

  function ApprovalModeName(a: ApprovalMode): string
  {
    match a
    case Autonomous => "autonomous"
    case HumanApproval => "human_approval"
    case Conditional => "conditional"
  }

  function ParseApprovalMode(s: string): (r: Option<ApprovalMode>)
    ensures r.Some? ==> ApprovalModeName(r.value) == s
  {
    if s == "autonomous" then Some(Autonomous)
    else if s == "human_approval" then Some(HumanApproval)
    else if s == "conditional" then Some(Conditional)
    else None
  }

  lemma ParseApprovalModeName(a: ApprovalMode)
    ensures ParseApprovalMode(ApprovalModeName(a)) == Some(a)
  {
  }
}
