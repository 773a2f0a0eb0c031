/** The control flow of `main` in btts_predictor.py (lines 411-501) without
    the messages: fetch, analyse, select, and report one of four outcomes. */
module Pipeline {
  import opened Wrappers
  import opened Seqs
  import opened ScoreEngine
  import opened Fixtures
  import opened Analysis
  import opened PickSelector

  /** Which message the run sends. */
  datatype Outcome =
    | NoFixtures           // no daytime fixture in the target leagues
    | NoQualifiers         // no fixture reached the threshold
    | NoPicks              // the selector returned nothing
    | Sent(picks: seq<Analyzed>)

  /** The statistics source, `get_team_stats(team, league)`, as a parameter. */
  type StatsSource = (int, int) -> Option<TeamStats>

  function LookupOf(stats: StatsSource): Fixture -> Lookup
  {
    (f: Fixture) => Lookup(f, stats(f.home.id, f.leagueId), stats(f.away.id, f.leagueId))
  }

  function DailyOutcome(response: Option<seq<Fixture>>, targets: set<int>, draw: seq<nat>, stats: StatsSource): Outcome
    requires DrawFits(response, targets, draw)
  {
    var fixtures := TodayFixtures(response, targets, draw);
    if fixtures == [] then NoFixtures
    else
      var analyzed := Qualified(Map(fixtures, LookupOf(stats)));
      if analyzed == [] then NoQualifiers
      else
        var picks := Select(SortDesc(analyzed));
        if picks == [] then NoPicks else Sent(picks)
  }

  /** One run of the job. */
  method RunDaily(response: Option<seq<Fixture>>, targets: set<int>, draw: seq<nat>, stats: StatsSource)
    returns (outcome: Outcome)
    requires DrawFits(response, targets, draw)
    ensures outcome == DailyOutcome(response, targets, draw, stats)
  {
    var fixtures := GetTodayFixtures(response, targets, draw);
    if |fixtures| == 0 {
      return NoFixtures;
    }
    var lookups := Map(fixtures, LookupOf(stats));
    var analyzed := AnalyzeMatches(lookups);
    if |analyzed| == 0 {
      return NoQualifiers;
    }
    var entries := new Analyzed[|analyzed|](i requires 0 <= i < |analyzed| => analyzed[i]);
    assert entries[..] == analyzed;
    var picks := SelectBestPicks(entries);
    if |picks| == 0 {
      return NoPicks;
    }
    outcome := Sent(picks);
  }

  /** An entry that qualifies comes from one of the fixtures, and both its teams had statistics. */
  lemma QualifiedHaveStats(fixtures: seq<Fixture>, stats: StatsSource, e: Analyzed)
    requires e in Qualified(Map(fixtures, LookupOf(stats)))
    ensures e.score >= Threshold && e.fixture in fixtures
    ensures stats(e.fixture.home.id, e.fixture.leagueId).Some?
    ensures stats(e.fixture.away.id, e.fixture.leagueId).Some?
  {
    var lookups := Map(fixtures, LookupOf(stats));
    QualifiedExactly(lookups);
    var i :| 0 <= i < |lookups| && e == Evaluate(lookups[i]);
    assert lookups[i] == LookupOf(stats)(fixtures[i]);
    assert e.score == Score(lookups[i].homeStats, lookups[i].awayStats);
  }

  /** The "could not find suitable picks" message is never sent, and what is
      sent is one or two fixtures of the day, each eligible, each with
      statistics for both teams and a score of at least 50, best first. */
  lemma DailyOutcomeSpec(response: Option<seq<Fixture>>, targets: set<int>, draw: seq<nat>, stats: StatsSource)
    requires DrawFits(response, targets, draw)
    ensures var outcome := DailyOutcome(response, targets, draw, stats);
      outcome != NoPicks
      && (outcome.Sent? ==>
            1 <= |outcome.picks| <= MaxPicks
            && SortedByScore(outcome.picks)
            && forall e :: e in outcome.picks ==>
                 e.score >= Threshold
                 && e.fixture in TodayFixtures(response, targets, draw)
                 && e.fixture.leagueId in targets && e.fixture.status == NotStarted
                 && stats(e.fixture.home.id, e.fixture.leagueId).Some?
                 && stats(e.fixture.away.id, e.fixture.leagueId).Some?)
  {
    var fixtures := TodayFixtures(response, targets, draw);
    TodayFixturesSpec(response, targets, draw);
    if fixtures != [] {
      var lookups := Map(fixtures, LookupOf(stats));
      var analyzed := Qualified(lookups);
      QualifiedExactly(lookups);
      if analyzed != [] {
        var sorted := SortDesc(analyzed);
        SortDescSpec(analyzed);
        SelectShape(sorted);
        SelectOrdered(sorted);
        var picks := Select(sorted);
        forall e | e in picks
          ensures e.score >= Threshold && e.fixture in fixtures
            && stats(e.fixture.home.id, e.fixture.leagueId).Some?
            && stats(e.fixture.away.id, e.fixture.leagueId).Some?
        {
          assert e in multiset(sorted);
          QualifiedHaveStats(fixtures, stats, e);
        }
      }
    }
  }
}
