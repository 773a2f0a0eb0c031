# BTTS daily predictor — a verified model of its core

`btts_predictor.py` is a once-a-day job. It fetches the day's football
fixtures and keeps the ones that are in a set of target leagues, have not
started, and kick off between 12:00 and 23:59 West Africa Time (UTC+1). It
keeps at most 50 of them, drawn at random when there are more. For each
fixture it reads both teams' season statistics and scores a "both teams to
score" confidence from 0 to 100: four factors of 0, 10, 15, 20 or 25 points
each, read from the home team's home averages and the away team's away
averages. Fixtures scoring 50 or more qualify. The qualified list is sorted
best first, and at most two picks are chosen from it with a league rule and
a two-hour kickoff rule. The outcome is sent as one of four messages.

The model is in seven modules:

- `Wrappers` (wrappers.dfy): the `Option` type.
- `Seqs` (seqs.dfy): list filters, maps, subsequences and positional picks, with their lemmas.
- `ScoreEngine` (score_engine.dfy): `calculate_btts_score`. A pure function `Score` / `ScoreDetails`, and the method `CalculateBttsScore`, which keeps the source's if-ladders and is proved equal to them.
- `Fixtures` (fixtures.dfy): the filters and the cap of `get_today_fixtures`. The daytime loop is a method with a loop invariant.
- `Analysis` (analysis.dfy): the loop of `analyze_matches` and its threshold of 50.
- `PickSelector` (pick_selector.dfy): `select_best_picks`. It sorts an array in place (an insertion sort proved to be the stable descending sort), then walks the list greedily and falls back to the top of the list when the walk finds fewer than two.
- `Pipeline` (pipeline.dfy): the control flow of `main`, without the message text.

`SelectionExamples` (selection_examples.dfy) works through concrete selections.

Each season average is a `Field`:

- `Missing`: the value is absent or falsy. The source reads it as 0.
- `Numeric(v)`: a number.
- `Malformed`: `float()` rejects the value, or the nesting of the record is broken, so the factor's `try` block fails.

A missing statistics record (`None` or falsy) is `None`. A kickoff is a
number of minutes since the Unix epoch, UTC, or `None` when the date string
does not parse.

The league rule has an exception: a candidate from the first pick's league
is allowed when it scores at least 10 more than the first pick. The code
applies the rule after sorting best first, so a later candidate never scores
more than the first pick and the exception can never fire.
`PickSelector.MarginExceptionUnreachable` proves that the walk equals the same
walk with the exception deleted, so in effect the second pick always comes
from another league.

## Model

| member | source | states |
|---|---|---|
| ScoreEngine.Points | btts_predictor.py:239-246 | one factor's points are one of 0, 10, 15, 20 or 25 |
| ScoreEngine.PointsFollowCuts | btts_predictor.py:235-296 | each factor awards 10, 15, 20 or 25 points for reaching one, two, three or four of its four cut-points (1.0/1.2/1.5/1.8 for home goals scored, 0.8/1.0/1.2/1.5 for the other three), and 0 below the first |
| ScoreEngine.PointsMonotone | btts_predictor.py:239-294 | a higher average never earns fewer points on a factor |
| ScoreEngine.Score | btts_predictor.py:213-298 | the score is a multiple of 5 between 0 and 100, and is 0 when either team's statistics are missing |
| ScoreEngine.CalculateBttsScore | btts_predictor.py:213-298 | the four if-ladders with their try blocks compute exactly the specified score and breakdown; with either team's statistics missing, the score is 0 and every breakdown entry is "N/A" |
| ScoreEngine.ScoreMonotone | btts_predictor.py:235-296 | if every factor's average is at least as high (and readable where it was readable before), the score is at least as high |
| ScoreEngine.MalformedFieldIsolated | btts_predictor.py:234-296 | an average that fails to parse zeroes only its own factor and leaves its breakdown entry "N/A"; the other three factors and entries are unchanged |
| ScoreEngine.MissingFieldScoresNothing | btts_predictor.py:236 | an absent or falsy average counts as 0: no points, and a breakdown entry of 0 |
| ScoreEngine.OnlyVenueAveragesCount | btts_predictor.py:236-284 | only the home team's home averages and the away team's away averages affect the score and the breakdown |
| Fixtures.WatHour | btts_predictor.py:177-180 | the WAT hour is in 0..23 and is the hour of the kickoff shifted by one hour, on a 24-hour clock |
| Fixtures.KeepDaytime | btts_predictor.py:174-187 | the daytime loop keeps exactly the fixtures kicking off 12:00-23:59 WAT, plus those whose date does not parse, in order |
| Fixtures.Downselect | btts_predictor.py:191-194 | the cap leaves a list of at most 50 unchanged; a longer list becomes exactly 50 of its elements, none more often than it occurs |
| Fixtures.GetTodayFixtures | btts_predictor.py:155-196 | returns `TodayFixtures`: nothing when the data source gives no response, otherwise the fixtures passing the three filters of lines 164-187, capped by the sample of lines 191-194 |
| Fixtures.CandidatesAreEligible | btts_predictor.py:164-187 | the three successive filters keep exactly the fixtures that are in a target league, have status "NS" and pass the daytime window, in input order |
| Fixtures.CandidatesPreserveOrder | btts_predictor.py:165-187 | the filtering of a concatenated list is the concatenation of the filterings |
| Fixtures.TodayFixturesSpec | btts_predictor.py:155-196 | at most 50 fixtures are returned, each eligible; with at most 50 eligible fixtures, all of them in order; otherwise 50 of them |
| Analysis.AnalyzeMatches | btts_predictor.py:300-345 | returns `Qualified`: each fixture scored by `Score`, and those scoring at least 50 kept in order (line 328) |
| Analysis.QualifiedExactly | btts_predictor.py:324-337 | a scored fixture is kept if and only if it scores at least 50; every kept entry scores at least 50 and comes from one of the fixtures |
| Analysis.QualifiedPreservesOrder | btts_predictor.py:308-337 | the qualification of a concatenated list is the concatenation of the qualifications |
| Analysis.MissingStatsNeverQualify | btts_predictor.py:231-232 | a fixture with either team's statistics missing scores 0, has an all-"N/A" breakdown and is never kept |
| PickSelector.SortByScore | btts_predictor.py:353 | sorting the array in place leaves it equal to the stable descending sort of its old contents |
| PickSelector.SortDescSpec | btts_predictor.py:353 | the descending sort orders by score, is a permutation of its input, and keeps entries with equal scores in their input order |
| PickSelector.SelectBestPicks | btts_predictor.py:347-392 | leaves the array equal to `SortDesc` of its old contents, and returns `Select` of it: the walk `Walk` of lines 357-384 over the sorted list, then the fallback of lines 386-390 |
| PickSelector.WalkBelowThreshold | btts_predictor.py:358-360 | when no entry of the list reaches 50, the walk picks nothing |
| PickSelector.WalkSkipsBelowThreshold | btts_predictor.py:358-360 | in any list, an entry scoring below 50 is never added by the walk |
| PickSelector.WalkTakesInOrder | btts_predictor.py:357-384 | the walk's picks appear in the list in its order, and each scores at least 50 |
| PickSelector.WalkPicksDiverse | btts_predictor.py:362-379 | on a sorted list, two picks made by the walk come from different leagues, and kick off at least two hours apart when both kickoffs parse |
| PickSelector.MarginExceptionUnreachable | btts_predictor.py:362-367 | on a sorted list the walk equals the walk without the ten-point exception of the league rule |
| PickSelector.SelectShape | btts_predictor.py:347-392 | the selection has min(2, n) entries, is empty exactly when the list is, and is a subsequence of the list |
| PickSelector.SelectOrdered | btts_predictor.py:353-392 | picks from a sorted list are in non-increasing score order and come from the list |
| PickSelector.SelectTopFirst | btts_predictor.py:353-390 | the best entry of a non-empty sorted list is always the first pick |
| PickSelector.SelectDiversePath | btts_predictor.py:357-384 | when the walk finds two picks, they are the selection, from different leagues and at least two hours apart |
| PickSelector.SelectFallback | btts_predictor.py:386-388 | when the walk finds fewer than two picks in a list of two or more, the selection is the first two entries of the list |
| PickSelector.SelectQualified | btts_predictor.py:358-390 | if every entry scores at least 50, so does every pick (the fallback included) |
| Pipeline.RunDaily | btts_predictor.py:411-444 | returns `DailyOutcome`: `NoFixtures` when `TodayFixtures` is empty, `NoQualifiers` when `Qualified` is empty, otherwise `Select` of the sorted qualifiers as `Sent` (or `NoPicks` if it were empty) |
| Pipeline.DailyOutcomeSpec | btts_predictor.py:411-446 | the "could not find suitable picks" outcome never happens; the sent picks are one or two, best first, each a fixture of the day in a target league with status "NS", with statistics for both teams and a score of at least 50 |
| Pipeline.QualifiedHaveStats | btts_predictor.py:317-337 | a qualified entry comes from one of the fixtures, and statistics were found for both of its teams |
| SelectionExamples.SameLeagueLowerScoreSkipped | btts_predictor.py:362-367 | from 72 (A, 14:00), 55 (A, 15:30), 60 (B, 20:00) the picks are 72 and 60 |
| SelectionExamples.SameLeagueSkippedFarApart | btts_predictor.py:362-367 | the league rule on its own: 55 (A) six hours after 72 (A) is skipped because it does not beat 72 by ten, and 54 (B) is taken |
| SelectionExamples.CloseKickoffSkipped | btts_predictor.py:369-379 | a candidate 90 minutes after the first pick is skipped although its league differs |
| SelectionExamples.FallbackTakesTopTwo | btts_predictor.py:386-388 | three entries of league A, three hours apart: the walk makes one pick, and the fallback returns the first two entries |
| SelectionExamples.SingleEntryPicked | btts_predictor.py:386-391 | a list of one qualified entry gives that entry as the only pick |

## Left out

- HTTP requests (`make_api_request`), `get_team_stats` and the Telegram delivery: the day's fixture response and a statistics lookup are parameters (`Pipeline.StatsSource`). An HTTP error, a missing "response" key or a falsy body is `None`.
- `time.sleep` throttling, the clock (`datetime.utcnow`) and all `print` output: they do not affect the result.
- `random.sample`: the draw of 50 distinct positions is a parameter, constrained to be a valid sample.
- ISO 8601 parsing: a kickoff is whole minutes since the epoch, UTC, or `None` when it does not parse. Seconds, and offsets other than `Z`/`+00:00`, are not modelled.
- An empty statistics dictionary is falsy in the source, so it is treated as missing statistics. The model has no separate empty-record value: a statistics record is either `None` or a record of four fields.
- Floating point: averages are exact reals. NaN, infinities and binary rounding at the cut-points are not modelled.
- `round(x, 2)` in the breakdown: the breakdown holds the unrounded average. The source rounds it for display only; the score uses the unrounded value.
- `format_time`, `format_date` and the HTML text of the messages: `Pipeline.Outcome` names which message is sent, not its text.
- The contents of `TARGET_LEAGUES`: the set of league ids is a parameter.
- `list.sort`: modelled as an insertion sort. Python's sort is stable, and a stable descending sort by score is unique, so both give the same order.
- `ScoreEngine.CalculateBttsScore`: its `ensures` ties it to `Score`, and the 0-100 bound is proved about `Score`, not repeated on the method.
- The broad `except: pass` around the time rule (lines 370-379): a kickoff that does not parse turns the rule off, which is `None` in the model. Other failures inside that block are not modelled.
