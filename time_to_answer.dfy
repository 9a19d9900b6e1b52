/** time_to_answer.py: the business time until a discussion's answer was chosen, and its statistics. */
module TimeToAnswer {
  import opened Optional
  import opened BusinessHours
  import opened Records
  import opened Statistics

  /**
   * `measure_time_to_answer`: nothing when the discussion has no chosen answer
   * or no creation time; otherwise the business time from creation to the
   * choice of the answer, which is zero when the answer is not later.
   */
  function MeasureTimeToAnswer(discussion: Discussion): (r: Option<int>)
    ensures r.Some? <==> discussion.answerChosenAt.Some? && discussion.createdAt.Some?
    ensures r.Some? ==> r.value == BusinessTime(discussion.createdAt.value, discussion.answerChosenAt.value)
    ensures r.Some? ==> 0 <= r.value
    ensures r.Some? && discussion.answerChosenAt.value <= discussion.createdAt.value ==> r.value == 0
  {
    if discussion.answerChosenAt.None? then None
    else if discussion.createdAt.None? then None
    else
      var answerTime := discussion.answerChosenAt.value;
      var createdTime := discussion.createdAt.value;
      if createdTime < answerTime then
        BusinessTimeBounds(createdTime, answerTime);
        Some(BusinessTime(createdTime, answerTime))
      else
        ZeroWhenNotBefore(createdTime, answerTime);
        Some(BusinessTime(createdTime, answerTime))
  }

  /**
   * `get_stats_time_to_answer`: keeps the items that have a time to answer,
   * appends the nonzero ones and summarises them, with the same outcomes as
   * the time-to-close statistics.
   */
  method GetStatsTimeToAnswer(samples: seq<Option<int>>) returns (r: StatsReport)
    ensures r == MeasuredStats(samples)
  {
    var issuesWithTimeToAnswer := Measured(samples);
    var answerTimes: seq<int> := [];
    if |issuesWithTimeToAnswer| > 0 {
      for i := 0 to |issuesWithTimeToAnswer|
        invariant answerTimes == NonZero(issuesWithTimeToAnswer[..i])
      {
        assert NonZero(issuesWithTimeToAnswer[..i + 1])
            == answerTimes + (if issuesWithTimeToAnswer[i] != 0 then [issuesWithTimeToAnswer[i]] else []) by {
          NonZeroSnoc(issuesWithTimeToAnswer[..i], issuesWithTimeToAnswer[i]);
          assert issuesWithTimeToAnswer[..i + 1] == issuesWithTimeToAnswer[..i] + [issuesWithTimeToAnswer[i]];
        }
        if issuesWithTimeToAnswer[i] != 0 {
          answerTimes := answerTimes + [issuesWithTimeToAnswer[i]];
        }
      }
      assert issuesWithTimeToAnswer[..|issuesWithTimeToAnswer|] == issuesWithTimeToAnswer;
    }
    assert answerTimes == NonZero(issuesWithTimeToAnswer);
    MeasuredStatsDefinition(samples);
    if |issuesWithTimeToAnswer| > 0 {
      if answerTimes == [] {
        return EmptySampleError;
      }
      return Computed(Summarize(answerTimes));
    }
    return NoData;
  }

  /** For a single nonzero time to answer, the average, median and 90th percentile all equal it. */
  lemma SingleAnswerTime(x: int)
    requires x != 0
    ensures MeasuredStats([Some(x)]) == Computed(Stats(x, x, x))
  {
    MeasuredSnoc([], Some(x));
    NonZeroSnoc([], x);
    SingleSample(x);
  }
}
