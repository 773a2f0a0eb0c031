/** The score engine of btts_predictor.py (`calculate_btts_score`): four
    independent step functions over team season averages, each worth 0, 10,
    15, 20 or 25 points, summed into a confidence score from 0 to 100. */
module ScoreEngine {
  import opened Wrappers

  /** One season average as the statistics record holds it: absent or falsy
      (read as 0), a number (or a numeric string), or a value `float` rejects
      or a broken nesting of the record (the factor's `try` block fails). */
  datatype Field = Missing | Numeric(value: real) | Malformed

  /** The four averages the engine reads from a team's season statistics. */
  datatype TeamStats = TeamStats(
    goalsForHome: Field,
    goalsForAway: Field,
    goalsAgainstHome: Field,
    goalsAgainstAway: Field)

  /** A breakdown entry: "N/A" until the factor has read its average. */
  datatype Detail = NotAvailable | Average(value: real)

  datatype Details = Details(
    homeGoalsAvg: Detail,
    awayGoalsAvg: Detail,
    homeConcededAvg: Detail,
    awayConcededAvg: Detail)

  const NoDetails: Details := Details(NotAvailable, NotAvailable, NotAvailable, NotAvailable)

  /** The two tier tables: home goals scored cuts higher than the other three factors. */
  datatype Scale = HomeScoringScale | StandardScale

  /** The four factors, each read from one team's average at its own venue. */
  datatype Factor = HomeScoring | AwayScoring | HomeConceding | AwayConceding

  function ScaleOf(factor: Factor): Scale
  {
    if factor == HomeScoring then HomeScoringScale else StandardScale
  }

  /** The cut-points of a scale, lowest first. */
  function Cuts(scale: Scale): seq<real>
  {
    match scale
    case HomeScoringScale => [1.0, 1.2, 1.5, 1.8]
    case StandardScale => [0.8, 1.0, 1.2, 1.5]
  }

  /** Points one average earns, as the `if`/`elif` ladders of the source award them. */
  function Points(scale: Scale, x: real): (p: nat)
    ensures p in {0, 10, 15, 20, 25}
  {
    match scale
    case HomeScoringScale =>
      if x >= 1.8 then 25 else if x >= 1.5 then 20 else if x >= 1.2 then 15 else if x >= 1.0 then 10 else 0
    case StandardScale =>
      if x >= 1.5 then 25 else if x >= 1.2 then 20 else if x >= 1.0 then 15 else if x >= 0.8 then 10 else 0
  }

  /** `float(value or 0)`: an absent or falsy value reads as 0, a malformed one fails. */
  function ReadAverage(f: Field): Option<real>
  {
    match f
    case Missing => Some(0.0)
    case Numeric(v) => Some(v)
    case Malformed => None
  }

  /** A factor whose average fails to read contributes nothing. */
  function FieldPoints(scale: Scale, f: Field): (p: nat)
    ensures p <= 25 && p % 5 == 0
  {
    match ReadAverage(f)
    case None => 0
    case Some(x) => Points(scale, x)
  }

  /** A factor's breakdown entry is written only once its average has been read. */
  function FieldDetail(f: Field): Detail
  {
    match ReadAverage(f)
    case None => NotAvailable
    case Some(x) => Average(x)
  }

  /** The average a factor reads: the home team's figures at home, the away team's away. */
  function FieldOf(factor: Factor, home: TeamStats, away: TeamStats): Field
  {
    match factor
    case HomeScoring => home.goalsForHome
    case AwayScoring => away.goalsForAway
    case HomeConceding => home.goalsAgainstHome
    case AwayConceding => away.goalsAgainstAway
  }

  function DetailOf(factor: Factor, d: Details): Detail
  {
    match factor
    case HomeScoring => d.homeGoalsAvg
    case AwayScoring => d.awayGoalsAvg
    case HomeConceding => d.homeConcededAvg
    case AwayConceding => d.awayConcededAvg
  }

  /** The statistics with the average that `factor` reads replaced by `f`. */
  function WithField(factor: Factor, home: TeamStats, away: TeamStats, f: Field): (TeamStats, TeamStats)
  {
    match factor
    case HomeScoring => (home.(goalsForHome := f), away)
    case AwayScoring => (home, away.(goalsForAway := f))
    case HomeConceding => (home.(goalsAgainstHome := f), away)
    case AwayConceding => (home, away.(goalsAgainstAway := f))
  }

  function FactorScore(factor: Factor, home: TeamStats, away: TeamStats): nat
  {
    FieldPoints(ScaleOf(factor), FieldOf(factor, home, away))
  }

  /** The confidence score; statistics that are absent or falsy for either team score 0. */
  function Score(home: Option<TeamStats>, away: Option<TeamStats>): (r: nat)
    ensures r <= 100 && r % 5 == 0
    ensures home.None? || away.None? ==> r == 0
  {
    if home.None? || away.None? then 0
    else
      var (h, a) := (home.value, away.value);
      var (p, q, r, t) := (FactorScore(HomeScoring, h, a), FactorScore(AwayScoring, h, a),
                           FactorScore(HomeConceding, h, a), FactorScore(AwayConceding, h, a));
      AddMultiplesOfFive(p, q);
      AddMultiplesOfFive(p + q, r);
      AddMultiplesOfFive(p + q + r, t);
      p + q + r + t
  }

  lemma AddMultiplesOfFive(x: nat, y: nat)
    requires x % 5 == 0 && y % 5 == 0
    ensures (x + y) % 5 == 0
  {
    assert x == 5 * (x / 5) && y == 5 * (y / 5);
    assert x + y == 5 * (x / 5 + y / 5);
  }

  /** The breakdown returned beside the score. */
  function ScoreDetails(home: Option<TeamStats>, away: Option<TeamStats>): Details
  {
    if home.None? || away.None? then NoDetails
    else
      Details(
        FieldDetail(FieldOf(HomeScoring, home.value, away.value)),
        FieldDetail(FieldOf(AwayScoring, home.value, away.value)),
        FieldDetail(FieldOf(HomeConceding, home.value, away.value)),
        FieldDetail(FieldOf(AwayConceding, home.value, away.value)))
  }

  /** `calculate_btts_score`: accumulates the four factors into `score` and
      fills in the breakdown one entry at a time. */
  method CalculateBttsScore(home: Option<TeamStats>, away: Option<TeamStats>) returns (score: int, details: Details)
    ensures score == Score(home, away) && details == ScoreDetails(home, away)
    ensures home.None? || away.None? ==> score == 0 && details == NoDetails
  {
    score := 0;
    details := NoDetails;
    if home.None? || away.None? {
      return;
    }
    var h, a := home.value, away.value;
    ghost var before: nat;

    // home team scoring
    before := score;
    var homeGoals := ReadAverage(h.goalsForHome);
    if homeGoals.Some? {
      var x := homeGoals.value;
      details := details.(homeGoalsAvg := Average(x));
      if x >= 1.8 {
        score := score + 25;
      } else if x >= 1.5 {
        score := score + 20;
      } else if x >= 1.2 {
        score := score + 15;
      } else if x >= 1.0 {
        score := score + 10;
      }
      assert score == before + Points(HomeScoringScale, x);
    }
    assert score == before + FactorScore(HomeScoring, h, a);
    assert details.homeGoalsAvg == FieldDetail(h.goalsForHome);

    // away team scoring
    before := score;
    var awayGoals := ReadAverage(a.goalsForAway);
    if awayGoals.Some? {
      var x := awayGoals.value;
      details := details.(awayGoalsAvg := Average(x));
      if x >= 1.5 {
        score := score + 25;
      } else if x >= 1.2 {
        score := score + 20;
      } else if x >= 1.0 {
        score := score + 15;
      } else if x >= 0.8 {
        score := score + 10;
      }
      assert score == before + Points(StandardScale, x);
    }
    assert score == before + FactorScore(AwayScoring, h, a);
    assert details.awayGoalsAvg == FieldDetail(a.goalsForAway);

    // home team conceding
    before := score;
    var homeConceded := ReadAverage(h.goalsAgainstHome);
    if homeConceded.Some? {
      var x := homeConceded.value;
      details := details.(homeConcededAvg := Average(x));
      if x >= 1.5 {
        score := score + 25;
      } else if x >= 1.2 {
        score := score + 20;
      } else if x >= 1.0 {
        score := score + 15;
      } else if x >= 0.8 {
        score := score + 10;
      }
      assert score == before + Points(StandardScale, x);
    }
    assert score == before + FactorScore(HomeConceding, h, a);
    assert details.homeConcededAvg == FieldDetail(h.goalsAgainstHome);

    // away team conceding
    before := score;
    var awayConceded := ReadAverage(a.goalsAgainstAway);
    if awayConceded.Some? {
      var x := awayConceded.value;
      details := details.(awayConcededAvg := Average(x));
      if x >= 1.5 {
        score := score + 25;
      } else if x >= 1.2 {
        score := score + 20;
      } else if x >= 1.0 {
        score := score + 15;
      } else if x >= 0.8 {
        score := score + 10;
      }
      assert score == before + Points(StandardScale, x);
    }
    assert score == before + FactorScore(AwayConceding, h, a);
    assert details.awayConcededAvg == FieldDetail(a.goalsAgainstAway);
    assert details == ScoreDetails(home, away);
    assert score == Score(home, away);
  }

  /** How many of the cut-points `x` reaches. */
  function CutsReached(x: real, cuts: seq<real>): nat
  {
    if cuts == [] then 0 else (if cuts[0] <= x then 1 else 0) + CutsReached(x, cuts[1..])
  }

  /** The weight of a tier: nothing below the lowest cut, then 10, 15, 20, 25. */
  function TierWeight(reached: nat): nat
  {
    if reached == 0 then 0 else 5 + 5 * reached
  }

  /** Each ladder is the tier table of its scale: the points depend only on how
      many cut-points the average reaches. */
  lemma PointsFollowCuts(scale: Scale, x: real)
    ensures Points(scale, x) == TierWeight(CutsReached(x, Cuts(scale)))
  {
    var cs := Cuts(scale);
    CutsReachedOfFour(x, cs);
  }

  lemma CutsReachedOfFour(x: real, cs: seq<real>)
    requires |cs| == 4
    ensures CutsReached(x, cs)
      == (if cs[0] <= x then 1 else 0) + (if cs[1] <= x then 1 else 0)
       + (if cs[2] <= x then 1 else 0) + (if cs[3] <= x then 1 else 0)
  {
    var t1 := cs[1..];
    var t2 := t1[1..];
    var t3 := t2[1..];
    assert t3[1..] == [];
    assert CutsReached(x, t3) == (if cs[3] <= x then 1 else 0);
    assert CutsReached(x, t2) == (if cs[2] <= x then 1 else 0) + CutsReached(x, t3);
    assert CutsReached(x, t1) == (if cs[1] <= x then 1 else 0) + CutsReached(x, t2);
  }

  /** Each factor is a non-decreasing step function of its average. */
  lemma PointsMonotone(scale: Scale, x: real, y: real)
    requires x <= y
    ensures Points(scale, x) <= Points(scale, y)
  {
  }

  /** `g` is at least as good an input to a factor as `f`: `f` fails to read, or
      both read and `g`'s average is at least `f`'s. */
  predicate Dominates(g: Field, f: Field)
  {
    f.Malformed? || (!g.Malformed? && ReadAverage(f).value <= ReadAverage(g).value)
  }

  /** Raising any average (or repairing a malformed one) never lowers the score. */
  lemma ScoreMonotone(home: TeamStats, away: TeamStats, home': TeamStats, away': TeamStats)
    requires forall factor :: Dominates(FieldOf(factor, home', away'), FieldOf(factor, home, away))
    ensures Score(Some(home), Some(away)) <= Score(Some(home'), Some(away'))
  {
    forall factor
      ensures FactorScore(factor, home, away) <= FactorScore(factor, home', away')
    {
      var f, g := FieldOf(factor, home, away), FieldOf(factor, home', away');
      assert Dominates(g, f);
      if !f.Malformed? {
        PointsMonotone(ScaleOf(factor), ReadAverage(f).value, ReadAverage(g).value);
      }
    }
  }

  /** A malformed average zeroes only its own factor and leaves its breakdown
      entry "N/A"; the other factors and entries are untouched. */
  lemma MalformedFieldIsolated(factor: Factor, home: TeamStats, away: TeamStats)
    ensures var (home', away') := WithField(factor, home, away, Malformed);
      Score(Some(home'), Some(away')) + FactorScore(factor, home, away) == Score(Some(home), Some(away))
      && DetailOf(factor, ScoreDetails(Some(home'), Some(away'))) == NotAvailable
      && forall other :: other != factor ==>
           DetailOf(other, ScoreDetails(Some(home'), Some(away'))) == DetailOf(other, ScoreDetails(Some(home), Some(away)))
  {
  }

  /** An absent average counts as 0: it adds no points and its entry shows 0. */
  lemma MissingFieldScoresNothing(factor: Factor, home: TeamStats, away: TeamStats)
    requires FieldOf(factor, home, away) == Missing
    ensures FactorScore(factor, home, away) == 0
    ensures DetailOf(factor, ScoreDetails(Some(home), Some(away))) == Average(0.0)
  {
  }

  /** Only the home team's home averages and the away team's away averages are read. */
  lemma OnlyVenueAveragesCount(home: TeamStats, away: TeamStats, home': TeamStats, away': TeamStats)
    requires home'.goalsForHome == home.goalsForHome && home'.goalsAgainstHome == home.goalsAgainstHome
    requires away'.goalsForAway == away.goalsForAway && away'.goalsAgainstAway == away.goalsAgainstAway
    ensures Score(Some(home'), Some(away')) == Score(Some(home), Some(away))
    ensures ScoreDetails(Some(home'), Some(away')) == ScoreDetails(Some(home), Some(away))
  {
  }
}
