/** time_to_close.py: the business time from creation to closing, and its statistics. */
module TimeToClose {
  import opened Optional
  import opened BusinessHours
  import opened Records
  import opened Statistics

  /**
   * What parsing the timestamps needs: a closed issue has a closing time, and
   * a closed discussion a creation time (`fromisoformat` raises otherwise).
   */
  predicate Parsable(issue: Option<Issue>, discussion: Option<Discussion>)
  {
    && (issue.Some? && issue.value.state == "closed" ==> issue.value.closedAt.Some?)
    && (discussion.Some? && discussion.value.closedAt.Some? ==> discussion.value.createdAt.Some?)
  }

  /**
   * `measure_time_to_close`: nothing for an issue that is not closed or a
   * discussion that is not closed; otherwise the business time from creation
   * to closing, the discussion's timestamps taking precedence over the issue's.
   */
  function MeasureTimeToClose(issue: Option<Issue>, discussion: Option<Discussion>): (r: Option<int>)
    requires Parsable(issue, discussion)
    ensures issue.Some? && issue.value.state != "closed" ==> r.None?
    ensures discussion.Some? && discussion.value.closedAt.None? ==> r.None?
    ensures issue.None? && discussion.None? ==> r.None?
    ensures r.Some? ==> 0 <= r.value
    ensures (issue.None? || issue.value.state == "closed") && discussion.Some? && discussion.value.closedAt.Some?
            ==> r == Some(BusinessTime(discussion.value.createdAt.value, discussion.value.closedAt.value))
    ensures issue.Some? && issue.value.state == "closed" && discussion.None?
            ==> r == Some(BusinessTime(issue.value.createdAt, issue.value.closedAt.value))
  {
    if issue.Some? && issue.value.state != "closed" then None
    else if discussion.Some? then
      if discussion.value.closedAt.None? then None
      else Measure(discussion.value.createdAt.value, discussion.value.closedAt.value)
    else if issue.Some? then Measure(issue.value.createdAt, issue.value.closedAt.value)
    else None
  }

  /** The measured business time between creation and closing, which is never negative. */
  function Measure(createdAt: Instant, closedAt: Instant): (r: Option<int>)
    ensures r == Some(BusinessTime(createdAt, closedAt)) && r.value >= 0
  {
    if createdAt <= closedAt then
      BusinessTimeBounds(createdAt, closedAt);
      Some(BusinessTime(createdAt, closedAt))
    else
      ZeroWhenNotBefore(createdAt, closedAt);
      Some(BusinessTime(createdAt, closedAt))
  }

  /**
   * `get_stats_time_to_close`: keeps the items that have a time to close,
   * appends the nonzero ones, and summarises them; no item with a time gives
   * nothing, and items whose times are all zero make numpy produce NaN, on
   * which building the result raises.
   */
  method GetStatsTimeToClose(samples: seq<Option<int>>) returns (r: StatsReport)
    ensures r == MeasuredStats(samples)
  {
    var issuesWithTimeToClose := Measured(samples);
    var closeTimes: seq<int> := [];
    var totalTimeToClose: Option<int> := None;
    if |issuesWithTimeToClose| > 0 {
      totalTimeToClose := Some(0);
      for i := 0 to |issuesWithTimeToClose|
        invariant closeTimes == NonZero(issuesWithTimeToClose[..i])
      {
        assert NonZero(issuesWithTimeToClose[..i + 1])
            == closeTimes + (if issuesWithTimeToClose[i] != 0 then [issuesWithTimeToClose[i]] else []) by {
          NonZeroSnoc(issuesWithTimeToClose[..i], issuesWithTimeToClose[i]);
          assert issuesWithTimeToClose[..i + 1] == issuesWithTimeToClose[..i] + [issuesWithTimeToClose[i]];
        }
        if issuesWithTimeToClose[i] != 0 {
          closeTimes := closeTimes + [issuesWithTimeToClose[i]];
        }
      }
      assert issuesWithTimeToClose[..|issuesWithTimeToClose|] == issuesWithTimeToClose;
    }
    assert closeTimes == NonZero(issuesWithTimeToClose);
    MeasuredStatsDefinition(samples);
    if |issuesWithTimeToClose| > 0 && totalTimeToClose.Some? {
      if closeTimes == [] {
        return EmptySampleError;
      }
      return Computed(Summarize(closeTimes));
    }
    return NoData;
  }

  /** An issue closed the same working day within 09:00-18:00 measures exactly its wall-clock time. */
  lemma SameDayClose(issue: Issue)
    requires issue.state == "closed" && issue.closedAt.Some?
    requires Day(issue.createdAt) == Day(issue.closedAt.value) && IsWorkday(Day(issue.createdAt))
    requires WindowStart(Day(issue.createdAt)) <= issue.createdAt <= issue.closedAt.value <= WindowEnd(Day(issue.createdAt))
    ensures MeasureTimeToClose(Some(issue), None) == Some(issue.closedAt.value - issue.createdAt)
  {
    SameDayWithinWindow(issue.createdAt, issue.closedAt.value);
  }
}
