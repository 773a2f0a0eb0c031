/** The fixture selector of btts_predictor.py (`get_today_fixtures`, lines
    149-196) without the HTTP request: the day's fixtures are a parameter,
    and so is the random draw that caps the list at 50. */
module Fixtures {
  import opened Wrappers
  import opened Seqs

  datatype Team = Team(id: int, name: string)

  /** A fixture record. `kickoff` is in minutes since the Unix epoch, UTC;
      `None` when the date string does not parse. */
  datatype Fixture = Fixture(
    id: int,
    leagueId: int,
    leagueName: string,
    status: string,
    kickoff: Option<int>,
    home: Team,
    away: Team)

  /** The short status code of a match that has not started. */
  const NotStarted: string := "NS"
  /** West Africa Time is UTC+1. */
  const WatOffsetMinutes: int := 60
  const MinutesPerDay: int := 1440
  /** Kickoffs from 12:00 to 23:59 WAT are kept. */
  const FirstDaytimeHour: int := 12
  const LastDaytimeHour: int := 23
  /** At most this many fixtures are analysed. */
  const SampleCap: nat := 50

  /** The hour of the kickoff on a West Africa Time clock. */
  function WatHour(kickoff: int): (h: int)
    ensures 0 <= h < 24
    ensures 60 * h <= (kickoff + WatOffsetMinutes) % MinutesPerDay < 60 * h + 60
  {
    ClockHour(kickoff + WatOffsetMinutes);
    ((kickoff + WatOffsetMinutes) / 60) % 24
  }

  /** The minute of the day falls within the hour `(t / 60) % 24`. */
  lemma ClockHour(t: int)
    ensures 60 * ((t / 60) % 24) <= t % MinutesPerDay < 60 * ((t / 60) % 24) + 60
  {
    var q, m := t / 60, t % 60;
    var d, h := q / 24, q % 24;
    assert t == 60 * q + m;
    assert q == 24 * d + h;
    assert t == MinutesPerDay * d + (60 * h + m);
    assert 0 <= 60 * h + m < MinutesPerDay;
    assert t % MinutesPerDay == 60 * h + m by {
      ModOfOffset(t, d, 60 * h + m);
    }
  }

  lemma ModOfOffset(t: int, d: int, r: int)
    requires t == MinutesPerDay * d + r && 0 <= r < MinutesPerDay
    ensures t % MinutesPerDay == r
  {
  }

  /** Filter 1: the league is one of the targets. */
  function InTargetLeague(targets: set<int>): Fixture -> bool
  {
    (f: Fixture) => f.leagueId in targets
  }

  /** Filter 2: the match has not started. */
  predicate IsNotStarted(f: Fixture)
  {
    f.status == NotStarted
  }

  /** Filter 3: the kickoff is in the WAT afternoon or evening, or cannot be parsed. */
  predicate InDaytimeWindow(f: Fixture)
  {
    f.kickoff.None? || FirstDaytimeHour <= WatHour(f.kickoff.value) <= LastDaytimeHour
  }

  /** All three filters at once. */
  function Eligible(targets: set<int>): Fixture -> bool
  {
    (f: Fixture) => f.leagueId in targets && IsNotStarted(f) && InDaytimeWindow(f)
  }

  /** The fixtures that survive the three filters, in the order they came. */
  function Candidates(all: seq<Fixture>, targets: set<int>): seq<Fixture>
  {
    Filter(Filter(Filter(all, InTargetLeague(targets)), IsNotStarted), InDaytimeWindow)
  }

  /** The daytime loop: keeps each fixture whose kickoff falls in the window
      or does not parse. */
  method KeepDaytime(fs: seq<Fixture>) returns (daytime: seq<Fixture>)
    ensures daytime == Filter(fs, InDaytimeWindow)
  {
    daytime := [];
    for i := 0 to |fs|
      invariant daytime == Filter(fs[..i], InDaytimeWindow)
    {
      var f := fs[i];
      assert fs[..i + 1] == fs[..i] + [f];
      FilterSnoc(fs[..i], f, InDaytimeWindow);
      if f.kickoff.None? {
        // the date cannot be parsed: keep the fixture anyway
        daytime := daytime + [f];
      } else {
        var hour := WatHour(f.kickoff.value);
        if FirstDaytimeHour <= hour <= LastDaytimeHour {
          daytime := daytime + [f];
        }
      }
    }
    assert fs[..|fs|] == fs;
  }

  /** What `random.sample(population, 50)` returns: 50 distinct positions of the population. */
  predicate IsSample(draw: seq<nat>, n: nat)
  {
    |draw| == SampleCap && Distinct(draw) && forall k :: 0 <= k < |draw| ==> draw[k] < n
  }

  /** The cap: a list longer than 50 is replaced by the sampled elements. */
  function Downselect(ms: seq<Fixture>, draw: seq<nat>): (r: seq<Fixture>)
    requires |ms| > SampleCap ==> IsSample(draw, |ms|)
    ensures |r| <= SampleCap
    ensures |ms| <= SampleCap ==> r == ms
    ensures |ms| > SampleCap ==> |r| == SampleCap && multiset(r) <= multiset(ms)
  {
    if |ms| <= SampleCap then ms
    else
      PickDistinctIsSubMultiset(ms, draw);
      Pick(ms, draw)
  }

  /** The draw is a valid sample of the candidates whenever the cap applies. */
  predicate DrawFits(response: Option<seq<Fixture>>, targets: set<int>, draw: seq<nat>)
  {
    response.Some? && |Candidates(response.value, targets)| > SampleCap ==>
      IsSample(draw, |Candidates(response.value, targets)|)
  }

  /** The fixtures to analyse; no response from the data source gives none. */
  function TodayFixtures(response: Option<seq<Fixture>>, targets: set<int>, draw: seq<nat>): seq<Fixture>
    requires DrawFits(response, targets, draw)
  {
    if response.None? then [] else Downselect(Candidates(response.value, targets), draw)
  }

  /** `get_today_fixtures` after the request: two list comprehensions, the
      daytime loop, and the cap. */
  method GetTodayFixtures(response: Option<seq<Fixture>>, targets: set<int>, draw: seq<nat>)
    returns (fixtures: seq<Fixture>)
    requires DrawFits(response, targets, draw)
    ensures fixtures == TodayFixtures(response, targets, draw)
  {
    if response.None? {
      return [];
    }
    var filtered := Filter(response.value, InTargetLeague(targets));
    filtered := Filter(filtered, IsNotStarted);
    var daytime := KeepDaytime(filtered);
    if |daytime| > SampleCap {
      daytime := Downselect(daytime, draw);
    }
    fixtures := daytime;
  }

  /** The three filters keep exactly the eligible fixtures, in input order. */
  lemma CandidatesAreEligible(all: seq<Fixture>, targets: set<int>)
    ensures Candidates(all, targets) == Filter(all, Eligible(targets))
    ensures forall f :: f in Candidates(all, targets) <==>
      f in all && f.leagueId in targets && f.status == NotStarted && InDaytimeWindow(f)
  {
    var both := (f: Fixture) => f.leagueId in targets && IsNotStarted(f);
    FilterFilter(all, InTargetLeague(targets), IsNotStarted, both);
    FilterFilter(all, both, InDaytimeWindow, Eligible(targets));
    FilterMembers(all, Eligible(targets));
  }

  /** Applied to two halves of a day's list, the selector's filters give the two halves of the result. */
  lemma CandidatesPreserveOrder(a: seq<Fixture>, b: seq<Fixture>, targets: set<int>)
    ensures Candidates(a + b, targets) == Candidates(a, targets) + Candidates(b, targets)
  {
    CandidatesAreEligible(a + b, targets);
    CandidatesAreEligible(a, targets);
    CandidatesAreEligible(b, targets);
    FilterConcat(a, b, Eligible(targets));
  }

  /** What the selector returns: at most 50 fixtures, each eligible; all the
      eligible ones, in input order, when there are at most 50; otherwise 50
      of them, none more often than it occurs. */
  lemma TodayFixturesSpec(response: Option<seq<Fixture>>, targets: set<int>, draw: seq<nat>)
    requires DrawFits(response, targets, draw)
    ensures var r := TodayFixtures(response, targets, draw);
      |r| <= SampleCap
      && (response.None? ==> r == [])
      && (forall f :: f in r ==> f.leagueId in targets && f.status == NotStarted && InDaytimeWindow(f))
      && (response.Some? ==>
            var eligible := Filter(response.value, Eligible(targets));
            (|eligible| <= SampleCap ==> r == eligible)
            && (|eligible| > SampleCap ==> |r| == SampleCap && multiset(r) <= multiset(eligible)))
  {
    var r := TodayFixtures(response, targets, draw);
    if response.Some? {
      var cands := Candidates(response.value, targets);
      CandidatesAreEligible(response.value, targets);
      forall f | f in r ensures f in cands {
        if |cands| > SampleCap {
          assert multiset(r)[f] > 0;
        }
      }
    }
  }
}
