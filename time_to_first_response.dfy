/**
 * time_to_first_response.py: which comment, review or discussion reply is the
 * first response to an item, the business time until it, and the statistics
 * over many items.
 */
module TimeToFirstResponse {
  import opened Optional
  import opened Numbers
  import opened BusinessHours
  import opened Records
  import opened Statistics

  /** `comments(number=20, ...)` fetches at most 20 comments. */
  const CommentLimit: nat := 20

  /** `reviews(number=50)` fetches at most 50 reviews. */
  const ReviewLimit: nat := 50

  /** The first `n` entries of `s`: what a fetch capped at `n` yields. */
  function Window<T>(s: seq<T>, n: nat): (w: seq<T>)
    ensures |w| == Min(|s|, n) && w == s[..|w|]
  {
    if |s| <= n then s else s[..n]
  }

  function LowerChar(c: char): char
  {
    if 'A' <= c <= 'Z' then (c as int + 32) as char else c
  }

  /**
   * Lower-casing of the ASCII letters. Python's `str.lower` also maps other
   * letters; the model assumes, without proving it, that none of them maps to
   * `b`, `o` or `t`, so that comparing with "bot" gives the same answer.
   */
  function AsciiLower(s: string): string
  {
    seq(|s|, i requires 0 <= i < |s| => LowerChar(s[i]))
  }

  /** `user.type.lower() == "bot"`. */
  predicate IsBot(u: User)
  {
    AsciiLower(u.kind) == "bot"
  }

  /** An account is a bot exactly when its type spells "bot" in any mix of upper and lower case. */
  lemma IsBotSpelling(u: User)
    ensures IsBot(u) <==> |u.kind| == 3 && u.kind[0] in "bB" && u.kind[1] in "oO" && u.kind[2] in "tT"
  {
    var k := u.kind;
    if |k| == 3 {
      var l := AsciiLower(k);
      assert l == "bot" <==> l[0] == 'b' && l[1] == 'o' && l[2] == 't';
    } else {
      assert |AsciiLower(k)| != |"bot"|;
    }
  }

  /**
   * `ignore_comment`: a comment or review is not a response when its author
   * is on the ignore list, is a bot or is the item's creator, when it is still
   * pending, or when it was made before the pull request was marked ready for
   * review. A pending timestamp is never compared with the ready time.
   */
  function IgnoreComment(issueUser: User, commentUser: User, ignoreUsers: seq<string>,
                         createdAt: Stamp, readyForReviewAt: Option<Instant>): (ignored: bool)
    ensures commentUser.login in ignoreUsers ==> ignored
    ensures IsBot(commentUser) ==> ignored
    ensures commentUser.login == issueUser.login ==> ignored
    ensures createdAt.Pending? ==> ignored
    ensures readyForReviewAt.Some? && createdAt.At? && createdAt.instant < readyForReviewAt.value ==> ignored
    ensures !ignored ==> createdAt.At? && (readyForReviewAt.Some? ==> readyForReviewAt.value <= createdAt.instant)
    ensures ignored ==> commentUser.login in ignoreUsers || IsBot(commentUser)
                        || commentUser.login == issueUser.login || createdAt.Pending?
                        || (readyForReviewAt.Some? && createdAt.instant < readyForReviewAt.value)
  {
    var userIsIgnored := commentUser.login in ignoreUsers;
    var userIsABot := IsBot(commentUser);
    var userIsIssueCreator := commentUser.login == issueUser.login;
    var isPendingComment := createdAt.Pending?;
    var createdBeforeReadyForReview :=
      readyForReviewAt.Some? && !isPendingComment && createdAt.instant < readyForReviewAt.value;
    userIsIgnored || userIsABot || userIsIssueCreator || isPendingComment || createdBeforeReadyForReview
  }

  /** What `ignore_comment` is given besides the comment: the item's creator, the ignore list, the ready time. */
  datatype IgnoreRules = IgnoreRules(creator: User, ignoreUsers: seq<string>, readyForReviewAt: Option<Instant>)

  predicate CommentIgnored(rules: IgnoreRules, c: Comment)
  {
    IgnoreComment(rules.creator, c.user, rules.ignoreUsers, c.createdAt, rules.readyForReviewAt)
  }

  /** A review the scan passes over: a well-formed review that is ignored. */
  predicate ReviewIgnored(rules: IgnoreRules, r: Review)
  {
    r.Review? && IgnoreComment(rules.creator, r.user, rules.ignoreUsers, r.submittedAt, rules.readyForReviewAt)
  }

  /** The position of the first comment that is not ignored, or `|comments|` when there is none. */
  function FirstCounted(rules: IgnoreRules, comments: seq<Comment>): (i: nat)
    ensures i <= |comments|
    ensures forall j :: 0 <= j < i ==> CommentIgnored(rules, comments[j])
    ensures i < |comments| ==> !CommentIgnored(rules, comments[i])
    decreases |comments|
  {
    if comments == [] then 0
    else if CommentIgnored(rules, comments[0]) then 1 + FirstCounted(rules, comments[1..])
    else 0
  }

  /** The time of the first comment that is not ignored, in list order. */
  function FirstCommentTime(rules: IgnoreRules, comments: seq<Comment>): Option<Instant>
  {
    var i := FirstCounted(rules, comments);
    if i < |comments| then Some(comments[i].createdAt.instant) else None
  }

  /** How the review scan ends: at a counted review, at the end, or at a malformed entry. */
  datatype ReviewOutcome = Found(instant: Instant) | NotFound | Aborted

  /** The position where the review scan stops: the first malformed or counted entry, or `|reviews|`. */
  function ReviewStop(rules: IgnoreRules, reviews: seq<Review>): (i: nat)
    ensures i <= |reviews|
    ensures forall j :: 0 <= j < i ==> ReviewIgnored(rules, reviews[j])
    ensures i < |reviews| ==> !ReviewIgnored(rules, reviews[i])
    decreases |reviews|
  {
    if reviews == [] then 0
    else if ReviewIgnored(rules, reviews[0]) then 1 + ReviewStop(rules, reviews[1..])
    else 0
  }

  function ScanReviews(rules: IgnoreRules, reviews: seq<Review>): ReviewOutcome
  {
    var i := ReviewStop(rules, reviews);
    if i == |reviews| then NotFound
    else if reviews[i].MalformedReview? then Aborted
    else Found(reviews[i].submittedAt.instant)
  }

  /** A failed review scan is caught and leaves the review time unset. */
  function ReviewTime(outcome: ReviewOutcome): Option<Instant>
  {
    if outcome.Found? then Some(outcome.instant) else None
  }

  /** The earlier of two optional instants; absent only when both are. */
  function EarliestOf(a: Option<Instant>, b: Option<Instant>): (r: Option<Instant>)
    ensures r.Some? <==> a.Some? || b.Some?
    ensures r.Some? ==> (a.Some? && r.value == a.value) || (b.Some? && r.value == b.value)
    ensures r.Some? && a.Some? ==> r.value <= a.value
    ensures r.Some? && b.Some? ==> r.value <= b.value
  {
    if a.Some? && b.Some? then Some(Min(a.value, b.value))
    else if a.Some? then a
    else b
  }

  function Rules(issue: Issue, readyForReviewAt: Option<Instant>, ignoreUsers: seq<string>): IgnoreRules
  {
    IgnoreRules(issue.user, ignoreUsers, readyForReviewAt)
  }

  /** The issue's first response: the earlier of its first counted comment and first counted review. */
  function IssueResponse(issue: Issue, reviews: Option<seq<Review>>, readyForReviewAt: Option<Instant>,
                         ignoreUsers: seq<string>): Option<Instant>
  {
    var rules := Rules(issue, readyForReviewAt, ignoreUsers);
    var commentTime := FirstCommentTime(rules, Window(issue.comments, CommentLimit));
    var reviewTime := if reviews.Some? then ReviewTime(ScanReviews(rules, Window(reviews.value, ReviewLimit))) else None;
    EarliestOf(commentTime, reviewTime)
  }

  /** The instant a pull request's or issue's response time is measured from. */
  function ReferenceTime(issue: Issue, readyForReviewAt: Option<Instant>): Instant
  {
    if readyForReviewAt.Some? then readyForReviewAt.value else issue.createdAt
  }

  predicate HasReplies(discussion: Option<Discussion>)
  {
    discussion.Some? && |discussion.value.replies| > 0
  }

  /** A discussion whose first reply is measured must carry a creation time (`fromisoformat` needs it). */
  predicate DiscussionMeasurable(discussion: Option<Discussion>)
  {
    HasReplies(discussion) ==> discussion.value.createdAt.Some?
  }

  /** The time to first response `measure_time_to_first_response` computes. */
  function FirstResponseTime(issue: Option<Issue>, discussion: Option<Discussion>, reviews: Option<seq<Review>>,
                             readyForReviewAt: Option<Instant>, ignoreUsers: seq<string>): Option<int>
    requires DiscussionMeasurable(discussion)
  {
    if issue.Some? && IssueResponse(issue.value, reviews, readyForReviewAt, ignoreUsers).None? then None
    else if HasReplies(discussion) then
      Some(BusinessTime(discussion.value.createdAt.value, discussion.value.replies[0]))
    else if issue.Some? then
      Some(BusinessTime(ReferenceTime(issue.value, readyForReviewAt),
                        IssueResponse(issue.value, reviews, readyForReviewAt, ignoreUsers).value))
    else None
  }

  /**
   * `measure_time_to_first_response`: scans the comments, then the reviews of a
   * pull request (a malformed review ends that scan without a time), takes the
   * earlier time, and measures it from the ready time or the creation time; a
   * discussion's first reply, unfiltered, replaces both.
   */
  method MeasureTimeToFirstResponse(issue: Option<Issue>, discussion: Option<Discussion>,
                                    pullRequest: Option<seq<Review>>, readyForReviewAt: Option<Instant>,
                                    ignoreUsers: seq<string>) returns (r: Option<int>)
    requires DiscussionMeasurable(discussion)
    ensures r == FirstResponseTime(issue, discussion, pullRequest, readyForReviewAt, ignoreUsers)
  {
    var firstReviewCommentTime: Option<Instant> := None;
    var firstCommentTime: Option<Instant> := None;
    var earliestResponse: Option<Instant> := None;
    var issueTime: Option<Instant> := None;

    if issue.Some? {
      var rules := Rules(issue.value, readyForReviewAt, ignoreUsers);
      var comments := Window(issue.value.comments, CommentLimit);
      for i := 0 to |comments|
        invariant firstCommentTime.None?
        invariant forall j :: 0 <= j < i ==> CommentIgnored(rules, comments[j])
      {
        var comment := comments[i];
        if IgnoreComment(issue.value.user, comment.user, ignoreUsers, comment.createdAt, readyForReviewAt) {
          continue;
        }
        firstCommentTime := Some(comment.createdAt.instant);
        assert FirstCounted(rules, comments) == i;
        break;
      }
      assert firstCommentTime == FirstCommentTime(rules, comments);

      if pullRequest.Some? {
        var reviewComments := Window(pullRequest.value, ReviewLimit);
        for i := 0 to |reviewComments|
          invariant firstReviewCommentTime.None?
          invariant forall j :: 0 <= j < i ==> ReviewIgnored(rules, reviewComments[j])
        {
          var reviewComment := reviewComments[i];
          if reviewComment.MalformedReview? {
            // the TypeError is caught: the review time stays unset
            assert ScanReviews(rules, reviewComments) == Aborted;
            break;
          }
          if IgnoreComment(issue.value.user, reviewComment.user, ignoreUsers,
                           reviewComment.submittedAt, readyForReviewAt) {
            continue;
          }
          firstReviewCommentTime := Some(reviewComment.submittedAt.instant);
          assert ReviewStop(rules, reviewComments) == i;
          break;
        }
        assert firstReviewCommentTime == ReviewTime(ScanReviews(rules, reviewComments));
      }

      if firstCommentTime.Some? && firstReviewCommentTime.Some? {
        earliestResponse := Some(Min(firstCommentTime.value, firstReviewCommentTime.value));
      } else if firstCommentTime.Some? {
        earliestResponse := firstCommentTime;
      } else if firstReviewCommentTime.Some? {
        earliestResponse := firstReviewCommentTime;
      } else {
        return None;
      }

      if readyForReviewAt.Some? {
        issueTime := readyForReviewAt;
      } else {
        issueTime := Some(issue.value.createdAt);
      }
    }

    if discussion.Some? && |discussion.value.replies| > 0 {
      earliestResponse := Some(discussion.value.replies[0]);
      issueTime := discussion.value.createdAt;
    }

    if earliestResponse.Some? && issueTime.Some? {
      var duration := BusinessDuration(issueTime.value, earliestResponse.value);
      return Some(duration);
    }
    return None;
  }

  /**
   * `get_stats_time_to_first_response`: appends every truthy (nonzero) duration,
   * counts the rest as missing, and summarises the appended ones.
   */
  method GetStatsTimeToFirstResponse(samples: seq<Option<int>>) returns (r: Option<Stats>)
    ensures r == NonZeroStats(samples)
  {
    var responseTimes: seq<int> := [];
    var noneCount := 0;
    for i := 0 to |samples|
      invariant responseTimes == NonZero(Measured(samples[..i]))
      invariant noneCount == i - |responseTimes|
    {
      MeasuredSnoc(samples[..i], samples[i]);
      assert samples[..i + 1] == samples[..i] + [samples[i]];
      if samples[i].Some? {
        NonZeroSnoc(Measured(samples[..i]), samples[i].value);
      } else {
        assert Measured(samples[..i + 1]) == Measured(samples[..i]);
      }
      if samples[i].Some? && samples[i].value != 0 {
        responseTimes := responseTimes + [samples[i].value];
      } else {
        noneCount := noneCount + 1;
      }
    }
    assert samples[..|samples|] == samples;
    if |samples| - noneCount <= 0 {
      return None;
    }
    return Some(Summarize(responseTimes));
  }

  // ---------------------------------------------------------------------
  // Lemmas

  /** The characterisation of the first counted position determines it. */
  lemma FirstCountedUnique(rules: IgnoreRules, comments: seq<Comment>, i: nat)
    requires i <= |comments|
    requires forall j :: 0 <= j < i ==> CommentIgnored(rules, comments[j])
    requires i < |comments| ==> !CommentIgnored(rules, comments[i])
    ensures FirstCounted(rules, comments) == i
  {
  }

  /** Comments after the first counted one are never examined. */
  lemma LaterCommentsNotExamined(rules: IgnoreRules, comments: seq<Comment>, more: seq<Comment>)
    requires FirstCommentTime(rules, comments).Some?
    ensures FirstCommentTime(rules, comments + more) == FirstCommentTime(rules, comments)
  {
    var i := FirstCounted(rules, comments);
    var all := comments + more;
    assert forall j :: 0 <= j <= i ==> all[j] == comments[j];
    FirstCountedUnique(rules, all, i);
  }

  /** A comment beyond the twentieth is never seen. */
  lemma OnlyFirstTwentyComments(issue: Issue, more: seq<Comment>, reviews: Option<seq<Review>>,
                                readyForReviewAt: Option<Instant>, ignoreUsers: seq<string>)
    requires |issue.comments| >= CommentLimit
    ensures IssueResponse(issue.(comments := issue.comments + more), reviews, readyForReviewAt, ignoreUsers)
         == IssueResponse(issue, reviews, readyForReviewAt, ignoreUsers)
  {
    assert Window(issue.comments + more, CommentLimit) == Window(issue.comments, CommentLimit);
  }

  /** An issue's first response is never before the ready-for-review time. */
  lemma ResponseNotBeforeReady(issue: Issue, reviews: Option<seq<Review>>, readyForReviewAt: Option<Instant>,
                               ignoreUsers: seq<string>)
    requires readyForReviewAt.Some?
    requires IssueResponse(issue, reviews, readyForReviewAt, ignoreUsers).Some?
    ensures readyForReviewAt.value <= IssueResponse(issue, reviews, readyForReviewAt, ignoreUsers).value
  {
    var rules := Rules(issue, readyForReviewAt, ignoreUsers);
    var comments := Window(issue.comments, CommentLimit);
    var i := FirstCounted(rules, comments);
    if i < |comments| {
      assert !CommentIgnored(rules, comments[i]);
    }
    if reviews.Some? {
      var rs := Window(reviews.value, ReviewLimit);
      var k := ReviewStop(rules, rs);
      if k < |rs| && rs[k].Review? {
        assert !ReviewIgnored(rules, rs[k]);
      }
    }
  }

  /** When the review scan fails, the comment time alone is the response, unaffected. */
  lemma ReviewFailureKeepsComments(issue: Issue, reviews: seq<Review>, readyForReviewAt: Option<Instant>,
                                   ignoreUsers: seq<string>)
    requires ScanReviews(Rules(issue, readyForReviewAt, ignoreUsers), Window(reviews, ReviewLimit)) == Aborted
    ensures IssueResponse(issue, Some(reviews), readyForReviewAt, ignoreUsers)
         == FirstCommentTime(Rules(issue, readyForReviewAt, ignoreUsers), Window(issue.comments, CommentLimit))
  {
  }

  /** A comment by the item's own creator is never the response, whatever else holds. */
  lemma CreatorNeverResponds(rules: IgnoreRules, comments: seq<Comment>)
    requires forall j :: 0 <= j < |comments| ==> comments[j].user.login == rules.creator.login
    ensures FirstCommentTime(rules, comments).None?
  {
  }

  /** With neither an issue nor a discussion reply there is nothing to measure. */
  lemma NothingToMeasure(discussion: Option<Discussion>, reviews: Option<seq<Review>>,
                         readyForReviewAt: Option<Instant>, ignoreUsers: seq<string>)
    requires !HasReplies(discussion)
    ensures FirstResponseTime(None, discussion, reviews, readyForReviewAt, ignoreUsers).None?
  {
  }

  /** An issue without a counted response measures nothing, even when a discussion is also given. */
  lemma NoResponseNoMeasurement(issue: Issue, discussion: Option<Discussion>, reviews: Option<seq<Review>>,
                                readyForReviewAt: Option<Instant>, ignoreUsers: seq<string>)
    requires DiscussionMeasurable(discussion)
    requires IssueResponse(issue, reviews, readyForReviewAt, ignoreUsers).None?
    ensures FirstResponseTime(Some(issue), discussion, reviews, readyForReviewAt, ignoreUsers).None?
  {
  }

  /**
   * An issue's measurement is the business time from the ready time (or the
   * creation time) to the earliest response: never negative and never more
   * than the wall-clock time between them.
   */
  lemma IssueMeasurement(issue: Issue, reviews: Option<seq<Review>>, readyForReviewAt: Option<Instant>,
                         ignoreUsers: seq<string>)
    requires IssueResponse(issue, reviews, readyForReviewAt, ignoreUsers).Some?
    ensures var t := IssueResponse(issue, reviews, readyForReviewAt, ignoreUsers).value;
            var start := ReferenceTime(issue, readyForReviewAt);
            var r := FirstResponseTime(Some(issue), None, reviews, readyForReviewAt, ignoreUsers);
            r == Some(BusinessTime(start, t)) && 0 <= r.value <= Max(0, t - start)
  {
    var t := IssueResponse(issue, reviews, readyForReviewAt, ignoreUsers).value;
    var start := ReferenceTime(issue, readyForReviewAt);
    AtMostWallClock(start, t);
    if start <= t {
      BusinessTimeBounds(start, t);
    } else {
      ZeroWhenNotBefore(start, t);
    }
  }

  /**
   * A discussion's first reply is taken as it is, with no author filtering, and
   * replaces the issue's response when the issue has one.
   */
  lemma DiscussionFirstReplyUnfiltered(issue: Option<Issue>, discussion: Discussion, reviews: Option<seq<Review>>,
                                       readyForReviewAt: Option<Instant>, ignoreUsers: seq<string>)
    requires |discussion.replies| > 0 && discussion.createdAt.Some?
    requires issue.Some? ==> IssueResponse(issue.value, reviews, readyForReviewAt, ignoreUsers).Some?
    ensures FirstResponseTime(issue, Some(discussion), reviews, readyForReviewAt, ignoreUsers)
         == Some(BusinessTime(discussion.createdAt.value, discussion.replies[0]))
  {
  }

  /** A discussion created 2023-01-01 00:00 with a first reply a day later: 9 hours; two days later: 18 hours. */
  lemma DiscussionReplyExamples(later: seq<Instant>)
    ensures FirstResponseTime(None, Some(Discussion(Some(1672531200), None, None, [1672617600] + later)), None, None, [])
         == Some(32400)
    ensures FirstResponseTime(None, Some(Discussion(Some(1672531200), None, None, [1672704000] + later)), None, None, [])
         == Some(64800)
  {
    SundayToMonday();
    SundayToTuesday();
  }
}
