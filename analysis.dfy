/** `analyze_matches` of btts_predictor.py: scores every fixture from the
    statistics of its two teams and keeps those that reach the threshold. */
module Analysis {
  import opened Wrappers
  import opened Seqs
  import opened ScoreEngine
  import opened Fixtures

  /** The minimum score for a fixture to qualify. */
  const Threshold: int := 50

  /** A fixture with the statistics the data source returned for its two teams. */
  datatype Lookup = Lookup(fixture: Fixture, homeStats: Option<TeamStats>, awayStats: Option<TeamStats>)

  /** A scored fixture, as the dictionary built for each qualifier. */
  datatype Analyzed = Analyzed(
    fixture: Fixture,
    score: int,
    homeTeam: string,
    awayTeam: string,
    league: string,
    kickoff: Option<int>,
    details: Details)

  /** The entry built for a fixture from its score and breakdown. */
  function Evaluate(l: Lookup): Analyzed
  {
    Analyzed(l.fixture, Score(l.homeStats, l.awayStats), l.fixture.home.name, l.fixture.away.name,
             l.fixture.leagueName, l.fixture.kickoff, ScoreDetails(l.homeStats, l.awayStats))
  }

  predicate Qualifies(e: Analyzed)
  {
    e.score >= Threshold
  }

  /** The qualifying entries, in fixture order. */
  function Qualified(ls: seq<Lookup>): seq<Analyzed>
  {
    Filter(Map(ls, Evaluate), Qualifies)
  }

  /** The loop of `analyze_matches`, with the statistics supplied instead of fetched. */
  method AnalyzeMatches(ls: seq<Lookup>) returns (analyzed: seq<Analyzed>)
    ensures analyzed == Qualified(ls)
  {
    analyzed := [];
    for i := 0 to |ls|
      invariant analyzed == Qualified(ls[..i])
    {
      var l := ls[i];
      var score, details := CalculateBttsScore(l.homeStats, l.awayStats);
      assert ls[..i + 1] == ls[..i] + [l];
      MapSnoc(ls[..i], l, Evaluate);
      FilterSnoc(Map(ls[..i], Evaluate), Evaluate(l), Qualifies);
      if score >= Threshold {
        analyzed := analyzed + [Analyzed(l.fixture, score, l.fixture.home.name, l.fixture.away.name,
                                         l.fixture.leagueName, l.fixture.kickoff, details)];
      }
    }
    assert ls[..|ls|] == ls;
  }

  /** The analysis keeps exactly the fixtures scoring at least 50, each with its own score and breakdown. */
  lemma QualifiedExactly(ls: seq<Lookup>)
    ensures |Qualified(ls)| <= |ls|
    ensures forall e :: e in Qualified(ls) ==> e.score >= Threshold
    ensures forall i :: 0 <= i < |ls| ==> (Evaluate(ls[i]) in Qualified(ls) <==> Evaluate(ls[i]).score >= Threshold)
    ensures forall e :: e in Qualified(ls) ==> exists i :: 0 <= i < |ls| && e == Evaluate(ls[i])
  {
    var m := Map(ls, Evaluate);
    FilterMembers(m, Qualifies);
    forall e | e in Qualified(ls) ensures exists i :: 0 <= i < |ls| && e == Evaluate(ls[i]) {
      var i :| 0 <= i < |m| && m[i] == e;
    }
  }

  /** The analysis never reorders: it maps the halves of its input to the halves of its output. */
  lemma QualifiedPreservesOrder(a: seq<Lookup>, b: seq<Lookup>)
    ensures Qualified(a + b) == Qualified(a) + Qualified(b)
  {
    assert Map(a + b, Evaluate) == Map(a, Evaluate) + Map(b, Evaluate);
    FilterConcat(Map(a, Evaluate), Map(b, Evaluate), Qualifies);
  }

  /** A fixture with absent statistics for either team scores 0, shows "N/A"
      everywhere, and is never kept. */
  lemma MissingStatsNeverQualify(ls: seq<Lookup>, i: nat)
    requires i < |ls| && (ls[i].homeStats.None? || ls[i].awayStats.None?)
    ensures Evaluate(ls[i]).score == 0 && Evaluate(ls[i]).details == NoDetails
    ensures Evaluate(ls[i]) !in Qualified(ls)
  {
    QualifiedExactly(ls);
  }
}
