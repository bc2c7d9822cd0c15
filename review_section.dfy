/**
 * The reviews panel of an agent page: it loads reviews a page at a time
 * (a fresh load replaces the list, "load more" appends), remembers whether
 * the visitor has already reviewed the agent, and submits the visitor's
 * rating and comment.
 */
module ReviewSection {
  import opened Wrappers
  import opened Types
  import opened Strings

  /** The JSON the panel reads after fetching a page; `total` is absent when the answer has none. */
  datatype ReviewsResponse = ReviewsResponse(reviews: seq<Review>, total: Option<int>, rating: AgentRatingSummary)

  /** The outcome of posting a review: accepted, or refused with the server's error text (possibly empty). */
  datatype PostOutcome = Accepted | Refused(error: string)

  const PageSize := 10
  const MaxComment := 1000

  /** A signed-in visitor may review any agent but their own. */
  predicate CanReview(currentUser: Option<string>, agentGithubId: string)
  {
    currentUser.Some? && currentUser.value != "" && currentUser.value != agentGithubId
  }

  /** Signed-out visitors and the agent's own owner never get the review form. */
  lemma OnlyOthersReview(agentGithubId: string, visitor: string)
    ensures !CanReview(None, agentGithubId)
    ensures !CanReview(Some(agentGithubId), agentGithubId)
    ensures visitor != "" && visitor != agentGithubId ==> CanReview(Some(visitor), agentGithubId)
  {
  }

  /** `reviews.length < total`: false when `total` is absent, as a comparison with `undefined` is. */
  predicate HasMoreOf(loaded: nat, total: Option<int>)
  {
    total.Some? && loaded < total.value
  }

  /** `reviews.find(r => r.reviewerGithubId === g)`. */
  function FindByReviewer(rs: seq<Review>, g: string): (r: Option<Review>)
    ensures r.Some? ==> r.value in rs && r.value.reviewerGithubId == g
    ensures r.None? <==> forall x :: x in rs ==> x.reviewerGithubId != g
  {
    if rs == [] then None
    else if rs[0].reviewerGithubId == g then Some(rs[0])
    else FindByReviewer(rs[1..], g)
  }

  /** The earliest match wins: reviews after a match never change what is found. */
  lemma {:induction false} FindByReviewerFirst(rs: seq<Review>, g: string, k: nat)
    requires k < |rs| && rs[k].reviewerGithubId == g
    ensures FindByReviewer(rs, g).Some?
    ensures FindByReviewer(rs, g) == FindByReviewer(rs[..k + 1], g)
    decreases k
  {
    if k > 0 && rs[0].reviewerGithubId != g {
      FindByReviewerFirst(rs[1..], g, k - 1);
      assert rs[..k + 1][1..] == rs[1..][..k];
    }
  }

  /** A comment typed into the box: cut at 1000 characters. */
  function TruncateComment(value: string): (r: string)
    ensures |r| <= MaxComment
    ensures r <= value
    ensures |value| <= MaxComment ==> r == value
    ensures |value| > MaxComment ==> |r| == MaxComment
  {
    if |value| <= MaxComment then value else value[..MaxComment]
  }

  class Panel {
    const agentGithubId: string
    const currentUser: Option<string>
    var reviews: seq<Review>
    var total: Option<int>
    var ratingSummary: AgentRatingSummary
    var loading: bool
    var loadingMore: bool
    var offset: int
    var formRating: int
    var formComment: string
    var submitting: bool
    var submitError: string
    var hasExistingReview: bool

    /** The panel opens empty and loading, with a blank form. */
    constructor (agent: string, visitor: Option<string>)
      ensures agentGithubId == agent && currentUser == visitor
      ensures reviews == [] && total == Some(0) && offset == 0 && loading && !loadingMore
      ensures ratingSummary == AgentRatingSummary(0.0, 0)
      ensures formRating == 0 && formComment == "" && !submitting && submitError == "" && !hasExistingReview
    {
      agentGithubId, currentUser := agent, visitor;
      reviews, total, offset := [], Some(0), 0;
      ratingSummary := AgentRatingSummary(0.0, 0);
      loading, loadingMore := true, false;
      formRating, formComment := 0, "";
      submitting, submitError, hasExistingReview := false, "", false;
    }

    /** The "load more" button is shown while fewer reviews are loaded than the answer's total. */
    predicate HasMore()
      reads this
    {
      HasMoreOf(|reviews|, total)
    }

    /** The offset of the next page is the number of reviews loaded. */
    predicate OffsetTracksLoaded()
      reads this
    {
      offset == |reviews|
    }

    /**
     * `fetchReviews(loadMore)` with the answer `response` (`None` when the
     * request fails, which changes nothing but the loading flags). A fresh
     * load replaces the list and a "load more" appends to it; the next
     * offset is where this page started plus its length; a visitor's own
     * review found among the loaded ones fills the form.
     */
    method FetchReviews(loadMore: bool, response: Option<ReviewsResponse>)
      modifies this
      ensures !loading && !loadingMore
      ensures response.None? ==>
        && reviews == old(reviews) && total == old(total) && offset == old(offset) && ratingSummary == old(ratingSummary)
        && hasExistingReview == old(hasExistingReview) && formRating == old(formRating) && formComment == old(formComment)
      ensures response.Some? ==>
        && reviews == (if loadMore then old(reviews) else []) + response.value.reviews
        && total == response.value.total
        && ratingSummary == response.value.rating
        && offset == (if loadMore then old(offset) else 0) + |response.value.reviews|
      ensures response.Some? && (!loadMore || old(OffsetTracksLoaded())) ==> OffsetTracksLoaded()
      ensures response.Some? ==> RecalledFrom(reviews, old(hasExistingReview), old(formRating), old(formComment))
      ensures submitting == old(submitting) && submitError == old(submitError)
    {
      if loadMore {
        loadingMore := true;
      } else {
        loading := true;
      }
      if response.Some? {
        TakePage(loadMore, response.value);
        RecallOwnReview(reviews);
      }
      loading := false;
      loadingMore := false;
    }

    /** The list, total, rating and offset after a page `data` arrives. */
    method TakePage(loadMore: bool, data: ReviewsResponse)
      modifies this
      ensures reviews == (if loadMore then old(reviews) else []) + data.reviews
      ensures total == data.total && ratingSummary == data.rating
      ensures offset == (if loadMore then old(offset) else 0) + |data.reviews|
      ensures hasExistingReview == old(hasExistingReview) && formRating == old(formRating) && formComment == old(formComment)
      ensures submitting == old(submitting) && submitError == old(submitError)
      ensures loading == old(loading) && loadingMore == old(loadingMore)
    {
      var currentOffset := if loadMore then offset else 0;
      reviews := (if loadMore then reviews else []) + data.reviews;
      total := data.total;
      ratingSummary := data.rating;
      offset := currentOffset + |data.reviews|;
    }

    /**
     * The form after the loaded reviews are searched for the visitor's own:
     * when a signed-in visitor's review is among `all`, the form holds its
     * rating and comment and the visitor is marked as a reviewer; otherwise
     * the form is as it was.
     */
    predicate RecalledFrom(all: seq<Review>, hadReview: bool, rating: int, comment: string)
      reads this
    {
      var own := if currentUser.Some? && currentUser.value != "" then FindByReviewer(all, currentUser.value) else None;
      if own.Some? then hasExistingReview && formRating == own.value.rating && formComment == own.value.comment
      else hasExistingReview == hadReview && formRating == rating && formComment == comment
    }

    method RecallOwnReview(all: seq<Review>)
      modifies this
      ensures RecalledFrom(all, old(hasExistingReview), old(formRating), old(formComment))
      ensures reviews == old(reviews) && total == old(total) && offset == old(offset) && ratingSummary == old(ratingSummary)
      ensures submitting == old(submitting) && submitError == old(submitError)
      ensures loading == old(loading) && loadingMore == old(loadingMore)
    {
      if currentUser.Some? && currentUser.value != "" {
        var existing := FindByReviewer(all, currentUser.value);
        if existing.Some? {
          hasExistingReview := true;
          formRating := existing.value.rating;
          formComment := existing.value.comment;
        }
      }
    }

    /** Typing a comment keeps its first 1000 characters. */
    method EditComment(value: string)
      modifies this
      ensures formComment == TruncateComment(value)
      ensures formRating == old(formRating) && hasExistingReview == old(hasExistingReview)
      ensures reviews == old(reviews) && total == old(total) && offset == old(offset) && ratingSummary == old(ratingSummary)
      ensures submitting == old(submitting) && submitError == old(submitError)
      ensures loading == old(loading) && loadingMore == old(loadingMore)
    {
      formComment := TruncateComment(value);
    }

    /**
     * Submitting the form: nothing at all happens without a rating. Otherwise
     * the post's outcome is recorded; an accepted post marks the visitor as
     * a reviewer and reloads the first page (`refresh` is that page's answer).
     */
    method Submit(outcome: PostOutcome, refresh: Option<ReviewsResponse>)
      modifies this
      ensures old(formRating) == 0 ==>
        && reviews == old(reviews) && total == old(total) && offset == old(offset) && ratingSummary == old(ratingSummary)
        && submitError == old(submitError) && submitting == old(submitting)
        && loading == old(loading) && loadingMore == old(loadingMore)
        && hasExistingReview == old(hasExistingReview) && formComment == old(formComment) && formRating == 0
      ensures old(formRating) != 0 ==> !submitting
      ensures old(formRating) != 0 && outcome.Refused? ==>
        && submitError == OrElse(outcome.error, "Failed to submit review")
        && reviews == old(reviews) && total == old(total) && offset == old(offset) && ratingSummary == old(ratingSummary)
        && hasExistingReview == old(hasExistingReview) && formRating == old(formRating) && formComment == old(formComment)
        && loading == old(loading) && loadingMore == old(loadingMore)
      ensures old(formRating) != 0 && outcome.Accepted? ==>
        && submitError == "" && hasExistingReview && !loading && !loadingMore
        && (refresh.Some? ==>
              && reviews == refresh.value.reviews && total == refresh.value.total
              && ratingSummary == refresh.value.rating && OffsetTracksLoaded()
              && RecalledFrom(reviews, true, old(formRating), old(formComment)))
        && (refresh.None? ==>
              && reviews == old(reviews) && total == old(total) && ratingSummary == old(ratingSummary) && offset == 0
              && formRating == old(formRating) && formComment == old(formComment))
    {
      if formRating == 0 {
        return;
      }
      submitting := true;
      submitError := "";
      match outcome {
        case Refused(message) =>
          submitError := OrElse(message, "Failed to submit review");
        case Accepted =>
          hasExistingReview := true;
          offset := 0;
          FetchReviews(false, refresh);
      }
      submitting := false;
    }
  }

  // ---------------------------------------------------------------------
  // The page answer the panel reads

  /**
   * The reviews endpoint as written answers `{ reviews, rating }`, with no
   * `total`.
   */
  function PageAnswer(reviews: seq<Review>, rating: AgentRatingSummary): (r: ReviewsResponse)
    ensures r.reviews == reviews && r.rating == rating
  {
    ReviewsResponse(reviews, None, rating)
  }

  /**
   * So after any page the panel never offers "load more": an agent with 25
   * reviews shows its first 10 and no way to reach the others.
   */
  lemma LoadMoreNeverOffered(page: seq<Review>, rating: AgentRatingSummary)
    requires |page| == PageSize && rating.totalReviews == 25
    ensures !HasMoreOf(|page|, PageAnswer(page, rating).total)
    ensures |page| < rating.totalReviews
  {
  }

  /** The answer with the total the panel expects: the agent's number of reviews. */
  function PageAnswerWithTotal(reviews: seq<Review>, rating: AgentRatingSummary): (r: ReviewsResponse)
    ensures r.reviews == reviews && r.rating == rating
    ensures r.total == Some(rating.totalReviews)
  {
    ReviewsResponse(reviews, Some(rating.totalReviews), rating)
  }

  /** With the total sent, "load more" is offered exactly while fewer reviews are loaded than the agent has. */
  lemma LoadMoreWithTotal(loaded: nat, page: seq<Review>, rating: AgentRatingSummary)
    ensures HasMoreOf(loaded, PageAnswerWithTotal(page, rating).total) <==> loaded < rating.totalReviews
  {
  }
}
