# Issue metrics: business-hours durations and their statistics

This project models the measurement core of a GitHub issue-metrics tool.
For each issue, pull request or discussion the tool measures three durations:

- the time to first response;
- the time to close;
- the time to answer (for a discussion).

It counts each duration in business time. Only 09:00-18:00 on a working day
counts, and Fridays and Saturdays are skipped. It then reduces the durations of
many items to an average, a median and a 90th percentile.

The model has eight modules, one file each:

| file | module | models |
|---|---|---|
| `optional.dfy` | `Optional` | an `Option` type for Python's `X | None` values |
| `numbers.dfy` | `Numbers` | Python's `min` and `max` on two integers |
| `business_duration.dfy` | `BusinessHours` | `business_duration` (and the identical `businessDuration`) |
| `statistics.dfy` | `Statistics` | numpy's average, median, percentile and round, and the reducer rules shared by the three `get_stats_*` functions |
| `records.dfy` | `Records` | the fetched records: user, comment, review, issue, discussion |
| `time_to_first_response.dfy` | `TimeToFirstResponse` | `ignore_comment`, `measure_time_to_first_response`, `get_stats_time_to_first_response` |
| `time_to_close.dfy` | `TimeToClose` | `measure_time_to_close`, `get_stats_time_to_close` |
| `time_to_answer.dfy` | `TimeToAnswer` | `measure_time_to_answer`, `get_stats_time_to_answer` |

## How time is represented

- An instant is a whole number of seconds since 1970-01-01 00:00 in one fixed
  UTC offset.
- The date of an instant is `t / 86400`. Its weekday is `(date + 3) % 7`, with
  Monday = 0, matching Python's `weekday()`.
- Day `d`'s working window runs from `d*86400 + 32400` to `d*86400 + 64800`.

## How the loops are proved

`business_duration` is a loop that changes its variables step by step, so
`BusinessHours.BusinessDuration` is a `method` with that same loop. It is
proved equal to a declarative specification, `BusinessTime`: the sum over the
dates from `start`'s to `end`'s of the working window clipped to
`[start, end]`.

The measuring and reducing functions that loop over their inputs are methods
too. Each is proved equal to a specification function. Their properties are
then proved as lemmas about those functions.

## How the statistics are represented

The arithmetic is exact (`real`) where numpy uses floating point.
`numpy.round` rounds half to even. `numpy.percentile` interpolates linearly at
rank `p/100 * (n-1)`.

## Working hours

The code hard-codes 09:00, 18:00 and the skipped weekdays 4 and 5 (Friday and
Saturday), and so does the model. There is no calendar object, so nothing is
validated.

## Model

| member | source | states |
|---|---|---|
| BusinessHours.BusinessTime | business_duration.py:24-53 | definition with no contract: the per-date sum of each working window clipped to `[start, end]`, which the loop is proved to compute; its properties are the lemmas below |
| BusinessHours.BusinessDuration | business_duration.py:16-53 | the loop's total equals the clipped-window sum `BusinessTime(start, end)` for every pair of instants |
| BusinessHours.ClippedWindowIsOverlap | time_to_first_response.py:212-225 | in the duplicate `businessDuration` (and in `business_duration`), one loop step adds exactly the day's window clipped to the span: the start is clipped on the first day, the end on the last |
| BusinessHours.Overlap | business_duration.py:27-47 | a day contributes 0 to 9 hours; nothing on a Friday or Saturday; a positive part lies inside both the span and the window; a window inside the span contributes all 9 hours |
| BusinessHours.ZeroWhenNotBefore | business_duration.py:25-26 | when `start >= end` the loop does not run and the duration is zero |
| BusinessHours.BusinessTimeBounds | business_duration.py:33-47 | the duration is never negative and at most 9 hours for each date from start's to end's |
| BusinessHours.DaySumBounds | business_duration.py:45-47 | a run of dates adds between 0 and 9 hours per date |
| BusinessHours.AtMostWallClock | business_duration.py:37-47 | business time never exceeds wall-clock time |
| BusinessHours.DaySumAtMostWallClock | business_duration.py:37-51 | the dates up to any day add no more than the wall-clock time from start to that day's end |
| BusinessHours.SameDayWithinWindow | business_duration.py:37-43 | a span within one working day's window measures exactly its wall-clock length |
| BusinessHours.WeekendDayCountsNothing | business_duration.py:27-31 | a span within a single Friday or Saturday measures zero |
| BusinessHours.Additive | business_duration.py:24-51 | splitting a span at any instant splits its business time into the two parts |
| BusinessHours.MonotoneInEnd | business_duration.py:24-51 | a later end never gives a smaller duration |
| BusinessHours.SplitDays | business_duration.py:24-51 | the sum over a run of dates splits at any date in between |
| BusinessHours.ZeroDays | business_duration.py:27-31 | dates that each add nothing add nothing together |
| BusinessHours.LateDaysAddNothing | business_duration.py:26 | dates after end's date add nothing, so the loop may stop once `current >= end` |
| BusinessHours.EarlyDaysAddNothing | business_duration.py:25 | dates before start's date add nothing |
| BusinessHours.NothingBeforeStart | business_duration.py:25-26 | an empty or reversed span adds nothing on any run of dates |
| BusinessHours.WiderRange | business_duration.py:24-51 | extending the run of dates past the span's own dates changes nothing |
| BusinessHours.AdjacentDaySums | business_duration.py:37-47 | over the same dates, the sums for `[a, b]` and `[b, c]` add up to the sum for `[a, c]` |
| BusinessHours.SundayToMonday | test_issue_metrics.py:358 | 2023-01-01 is a Sunday; midnight to midnight the next day is 9 hours |
| BusinessHours.SundayToTuesday | test_issue_metrics.py:367 | 2023-01-01 00:00 to 2023-01-03 00:00 is 18 hours |
| BusinessHours.FridayEveningToMondayMorning | business_duration.py:27-31 | Friday 17:00 to Monday 10:00 counts only Sunday's 9 hours and Monday's first hour |
| Statistics.Minimum | time_to_first_response.py:173-177 | the smallest sample is a sample and bounds all the others from below |
| Statistics.Maximum | time_to_first_response.py:173-177 | the largest sample is a sample and bounds all the others from above |
| Statistics.Insert | time_to_first_response.py:174-176 | inserting into a sorted list gives a sorted list holding the same values plus the new one |
| Statistics.Sort | time_to_first_response.py:174-176 | numpy's sort before median and percentile: the result is sorted and a permutation of the input |
| Statistics.Mean | time_to_first_response.py:173 | definition with no contract: `numpy.average`, the sum divided by the count; bounded by MeanBetweenExtremes |
| Statistics.Median | time_to_first_response.py:174 | definition with no contract: `numpy.median` of the sorted samples, the middle value or the mean of the two middle values; bounded by MedianBetweenExtremes |
| Statistics.Interpolate | time_to_first_response.py:175-177 | definition with no contract: linear interpolation between neighbouring sorted samples at the rank `k / 100`; bounded by InterpolateBetweenNeighbours |
| Statistics.Percentile | time_to_first_response.py:175-177 | definition with no contract: `numpy.percentile` with linear interpolation at the rank `p/100 * (n-1)`; see PercentileBetweenExtremes and PercentileMonotone |
| Statistics.InterpolateBetweenNeighbours | time_to_first_response.py:175-177 | an interpolated value lies between the two sorted samples it interpolates |
| Statistics.RoundInteger | time_to_first_response.py:173 | rounding a whole number gives that number |
| Statistics.RoundHalfEven | time_to_first_response.py:173 | `numpy.round` lands within half a unit of its argument, and a tie goes to the even neighbour |
| Statistics.Summarize | time_to_first_response.py:173-177 | rounded average, median and 90th percentile all lie between the smallest and largest sample, with median <= 90th percentile |
| Statistics.MeanBetweenExtremes | time_to_first_response.py:173 | the average lies between the smallest and the largest sample |
| Statistics.MedianBetweenExtremes | time_to_first_response.py:174 | the median lies between the smallest and the largest sample |
| Statistics.PercentileBetweenExtremes | time_to_first_response.py:175-177 | the 90th percentile lies between the smallest and the largest sample |
| Statistics.MedianIsFiftiethPercentile | time_to_first_response.py:174-177 | numpy's median equals numpy's 50th percentile |
| Statistics.PercentileMonotone | time_to_first_response.py:175-177 | a higher percentile is never smaller |
| Statistics.MedianAtMostPercentile | time_to_first_response.py:174-177 | the median is at most any percentile from the 50th up, the 90th in particular |
| Statistics.RoundMonotone | time_to_first_response.py:173-177 | rounding preserves order |
| Statistics.RoundBetween | time_to_first_response.py:173-177 | rounding a value between two integers stays between them |
| Statistics.SortedUnique | time_to_first_response.py:174-176 | two sorted lists with the same values are equal |
| Statistics.SumSort | time_to_first_response.py:173 | sorting keeps the total |
| Statistics.SummarizeOrderIndependent | time_to_first_response.py:173-177 | the summary depends only on which values occur and how often, not on their order |
| Statistics.ReducersOrderIndependent | time_to_close.py:72-95 | both reducer rules give the same result for any reordering of the items |
| Statistics.MeasuredCounts | time_to_close.py:73-75 | the `is not None` filter keeps each value exactly as often as it occurs |
| Statistics.NonZeroCounts | time_to_close.py:82-84 | the truthiness filter keeps each nonzero value exactly as often as it occurs and never keeps zero |
| Statistics.Measured | time_to_close.py:73-75 | the kept values are exactly the present durations, and there are no more of them than items |
| Statistics.NonZero | time_to_close.py:82-84 | the appended values are exactly the nonzero ones |
| Statistics.MeasuredAppend | time_to_close.py:73-75 | filtering out missing durations distributes over concatenation |
| Statistics.NonZeroAppend | time_to_close.py:82-84 | filtering out zero durations distributes over concatenation |
| Statistics.MissingEntryFiltered | time_to_close.py:73-75 | an item without a time to close is dropped wherever it stands |
| Statistics.ZeroEntryNotSummarised | time_to_close.py:83-84 | a zero duration is never summarised, wherever it stands |
| Statistics.MissingEntriesIgnored | time_to_first_response.py:164-171 | adding a missing item changes neither reducer's result; adding a zero duration does not change the first-response reducer's result |
| Statistics.MeasuredEmpty | time_to_close.py:80 | nothing is kept exactly when every item lacks a duration |
| Statistics.NonZeroEmpty | time_to_first_response.py:164-171 | nothing is appended exactly when every item lacks a duration or has zero |
| Statistics.NonZeroStats | time_to_first_response.py:162-177 | the first-response reducer returns None exactly when no item has a nonzero duration, and otherwise summarises the nonzero durations |
| Statistics.MeasuredStats | time_to_close.py:73-95 | the close and answer reducers return None exactly when no item has a duration, fail exactly when some do but all are zero, and otherwise summarise the nonzero ones |
| Statistics.ZeroSampleAsymmetry | time_to_answer.py:33-53 | the two reducer rules agree except when every present duration is zero: then first response gives None and close/answer fail |
| Statistics.SingleSample | time_to_first_response.py:173-177 | a single duration is its own average, median and 90th percentile |
| Statistics.NineAndEighteenHours | time_to_first_response.py:173-177 | 9 h and 18 h give 13.5 h average and median and 17.1 h at the 90th percentile |
| TimeToFirstResponse.Window | time_to_first_response.py:57-59 | a capped fetch yields the first `min(len, cap)` entries in order |
| TimeToFirstResponse.IsBot | time_to_first_response.py:132 | definition with no contract: the account type lower-cased equals "bot"; characterised by IsBotSpelling |
| TimeToFirstResponse.IsBotSpelling | time_to_first_response.py:132 | an account counts as a bot exactly when its type is three letters spelling "bot" in any mix of upper and lower case |
| TimeToFirstResponse.IgnoreComment | time_to_first_response.py:122-147 | the comment is ignored if and only if its author is ignored, a bot or the creator, or it is pending, or it predates ready-for-review; a not-pending timestamp alone is compared |
| TimeToFirstResponse.FirstCounted | time_to_first_response.py:60-70 | the scan stops at the first comment that is not ignored: every earlier comment is ignored and that one is not |
| TimeToFirstResponse.FirstCommentTime | time_to_first_response.py:60-70 | definition with no contract: the `first_comment_time` the comment loop leaves, the time of the first comment FirstCounted finds, or nothing when every comment is ignored |
| TimeToFirstResponse.ReviewStop | time_to_first_response.py:76-91 | the review scan stops at the first entry that is malformed or not ignored |
| TimeToFirstResponse.ScanReviews | time_to_first_response.py:76-91 | definition with no contract: the review scan ends with the counted review's time, with nothing at the end of the list, or aborted at a malformed entry, at the position ReviewStop characterises |
| TimeToFirstResponse.ReviewTime | time_to_first_response.py:86-91 | definition with no contract: the `first_review_comment_time` the review scan leaves, the found review's time, or unset when the scan ends without one or the `TypeError` is caught |
| TimeToFirstResponse.IssueResponse | time_to_first_response.py:56-101 | definition with no contract: the earlier of the first counted comment among the first 20 and the first counted review among the first 50 |
| TimeToFirstResponse.ReferenceTime | time_to_first_response.py:104-107 | definition with no contract: the ready-for-review time if there is one, else the creation time |
| TimeToFirstResponse.HasReplies | time_to_first_response.py:109 | definition with no contract: the guard that a discussion is given and has at least one reply |
| TimeToFirstResponse.FirstResponseTime | time_to_first_response.py:29-119 | definition with no contract: the value the method is proved to return; its properties are the lemmas below |
| TimeToFirstResponse.EarliestOf | time_to_first_response.py:93-101 | the response is present if and only if either time is, is one of them, and is no later than either |
| TimeToFirstResponse.MeasureTimeToFirstResponse | time_to_first_response.py:29-119 | the method returns `FirstResponseTime`: None without a counted response, the discussion's first reply overriding, else business time from ready-for-review or creation |
| TimeToFirstResponse.GetStatsTimeToFirstResponse | time_to_first_response.py:150-190 | the method returns `NonZeroStats`: None exactly when no item has a nonzero time, else the summary of the nonzero times |
| TimeToFirstResponse.FirstCountedUnique | time_to_first_response.py:60-70 | the stopping position is determined by which comments are ignored |
| TimeToFirstResponse.LaterCommentsNotExamined | time_to_first_response.py:69-70 | once a response is found, later comments never change it |
| TimeToFirstResponse.OnlyFirstTwentyComments | time_to_first_response.py:57-59 | comments beyond the twentieth never affect the response |
| TimeToFirstResponse.ResponseNotBeforeReady | time_to_first_response.py:136-139 | with a ready-for-review time, the response found is never earlier than it |
| TimeToFirstResponse.ReviewFailureKeepsComments | time_to_first_response.py:88-91 | when the review scan raises TypeError, the response is the first counted comment alone |
| TimeToFirstResponse.CreatorNeverResponds | time_to_first_response.py:133 | comments by the item's creator never count as a response |
| TimeToFirstResponse.NothingToMeasure | time_to_first_response.py:109-119 | with no issue and no discussion reply the result is None |
| TimeToFirstResponse.NoResponseNoMeasurement | time_to_first_response.py:100-101 | an issue without a counted response gives None, even with a discussion given |
| TimeToFirstResponse.IssueMeasurement | time_to_first_response.py:103-117 | an issue's result is the business time from ready or creation to the response, and lies between 0 and the wall-clock gap |
| TimeToFirstResponse.DiscussionFirstReplyUnfiltered | time_to_first_response.py:109-113 | a discussion's first reply is taken unfiltered and replaces the issue's response |
| TimeToFirstResponse.DiscussionReplyExamples | test_issue_metrics.py:547-550 | the discussion examples: a reply one day after creation (Sunday) measures 9 h, two days after 18 h |
| TimeToClose.MeasureTimeToClose | time_to_close.py:28-56 | None for an issue not closed, a discussion not closed or no input; else the business time from creation to closing, discussion first; never negative |
| TimeToClose.Measure | time_to_close.py:54-55 | the `business_duration(created_at, closed_at)` call: the business time between the two instants, which is never negative |
| TimeToClose.GetStatsTimeToClose | time_to_close.py:59-105 | the method returns `MeasuredStats`: None without any time to close, failure when all are zero, else the summary of the nonzero ones |
| TimeToClose.SameDayClose | time_to_close.py:42-55 | an issue closed within the same working window measures exactly its wall-clock time |
| TimeToAnswer.MeasureTimeToAnswer | time_to_answer.py:66-86 | present if and only if the discussion has an answer time and a creation time; then the business time between them, never negative, zero when the answer is not later |
| TimeToAnswer.GetStatsTimeToAnswer | time_to_answer.py:26-63 | the method returns `MeasuredStats`, with the same outcomes as the close statistics |
| TimeToAnswer.SingleAnswerTime | time_to_answer.py:45-51 | one nonzero time to answer is its own average, median and 90th percentile |

## Left out

- GitHub access is not modelled. The comments, reviews and discussion replies
  an item carries are given as sequences. Only the `number=20` and `number=50`
  caps of the fetches are modelled, and no paging order beyond them.
- Timestamp parsing (`datetime.fromisoformat`) is not modelled. Instants are
  already-converted whole seconds in one fixed UTC offset. Microseconds,
  daylight-saving changes and mixed offsets are not represented.
- The Python `datetime` year range and its overflow errors are not modelled,
  because instants are unbounded integers.
- Parse failures are not modelled as outcomes. `Parsable` and
  `DiscussionMeasurable` require the timestamps the code parses unconditionally:
  a closed issue's `closed_at`, and a measured discussion's `createdAt`. A missing
  one makes `fromisoformat` raise, which is outside the model.
- Exceptions other than the review scan's `TypeError` are not modelled:
  construction errors while iterating comments, and comparing naive with aware
  datetimes. The review scan's `TypeError` (a review by a deleted account) is
  modelled as `MalformedReview`.
- Statistics.Summarize: the model computes with exact rationals, not numpy's
  64-bit floats. It can differ from numpy, even on small inputs, whenever the
  exact average, median or interpolated value is a tie between two integers
  (or within float error of one). For ten samples `[1, 1, 1, 1, 1, 1, 1, 1, 1, 6]`
  numpy computes the 90th-percentile rank `9 * 0.9` as 8.0999999999999996, so it
  interpolates to 1.4999999999999982 and rounds that to 1. The exact value is
  1.5, which the model rounds half to even to 2.
- Statistics.MeasuredStats: numpy gives NaN on an empty list, and `timedelta`
  then raises. The model returns the explicit `EmptySampleError` in its place.
  Which exception arises, and numpy's warnings, are not modelled.
- The `print` calls in the reducers and after a failed review scan are output
  only, and are left out.
- TimeToFirstResponse.IsBot: only ASCII letters are lower-cased. Python's full
  Unicode `str.lower` is not modelled. The model counts an account as a bot
  exactly for the eight spellings of "bot" in upper and lower case
  (IsBotSpelling). Python agrees if no other character lower-cases to `b`, `o`
  or `t`; the model does not prove that about Unicode.
- `IssueWithMetrics` records are reduced to the one optional duration each
  reducer reads, as whole seconds (`total_seconds()` of a whole-second
  duration).
- An empty-string discussion `closedAt` is not modelled. It is represented as
  `None`, which the model treats as "not closed". time_to_close.py:49 tests only
  `is None`, so such a value would instead reach `fromisoformat` and raise.
  `createdAt` and `answerChosenAt` are tested for falsiness
  (time_to_answer.py:76-80), so treating an empty one as `None` is exact there.
- `ignore_users=None` is represented by the empty list, which the code
  substitutes for it.
