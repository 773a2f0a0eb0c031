/** Worked selections on small, already sorted lists of qualified fixtures. */
module SelectionExamples {
  import opened Wrappers
  import opened ScoreEngine
  import opened Fixtures
  import opened Analysis
  import opened PickSelector

  /** A qualified fixture with only the fields the selector reads filled in. */
  function Entry(id: int, score: int, league: string, kickoff: int): Analyzed
  {
    var f := Fixture(id, 0, league, NotStarted, Some(kickoff), Team(2 * id, "home"), Team(2 * id + 1, "away"));
    Analyzed(f, score, "home", "away", league, Some(kickoff), NoDetails)
  }

  /** 72 (A, 14:00), 55 (A, 15:30), 60 (B, 20:00): the 55 is skipped (it is
      both in league A and within two hours of the 72), and the 60 is taken. */
  lemma SameLeagueLowerScoreSkipped()
    ensures Select([Entry(1, 72, "A", 840), Entry(2, 55, "A", 930), Entry(3, 60, "B", 1200)])
         == [Entry(1, 72, "A", 840), Entry(3, 60, "B", 1200)]
  {
    var s := [Entry(1, 72, "A", 840), Entry(2, 55, "A", 930), Entry(3, 60, "B", 1200)];
    assert Walk(s, []) == Walk(s[1..], [s[0]]) by { assert [] + [s[0]] == [s[0]]; }
    assert Walk(s[1..], [s[0]]) == Walk(s[2..], [s[0]]);
  }

  /** The league rule alone: 55 (A, 20:00) is six hours after 72 (A, 14:00)
      but shares its league and does not beat it by ten, so 54 (B) is taken. */
  lemma SameLeagueSkippedFarApart()
    ensures Select([Entry(1, 72, "A", 840), Entry(2, 55, "A", 1200), Entry(3, 54, "B", 1300)])
         == [Entry(1, 72, "A", 840), Entry(3, 54, "B", 1300)]
  {
    var s := [Entry(1, 72, "A", 840), Entry(2, 55, "A", 1200), Entry(3, 54, "B", 1300)];
    assert Walk(s, []) == Walk(s[1..], [s[0]]) by { assert [] + [s[0]] == [s[0]]; }
    assert Walk(s[1..], [s[0]]) == Walk(s[2..], [s[0]]);
  }

  /** A different league but kickoff ninety minutes later: skipped by the time rule. */
  lemma CloseKickoffSkipped()
    ensures Select([Entry(1, 80, "A", 840), Entry(2, 70, "B", 930), Entry(3, 65, "C", 1000)])
         == [Entry(1, 80, "A", 840), Entry(3, 65, "C", 1000)]
  {
    var s := [Entry(1, 80, "A", 840), Entry(2, 70, "B", 930), Entry(3, 65, "C", 1000)];
    assert Walk(s, []) == Walk(s[1..], [s[0]]) by { assert [] + [s[0]] == [s[0]]; }
    assert Walk(s[1..], [s[0]]) == Walk(s[2..], [s[0]]);
  }

  /** Nothing diverse enough: all three share league A, hours apart, so the
      walk makes one pick and the two best are returned. */
  lemma FallbackTakesTopTwo()
    ensures Select([Entry(1, 80, "A", 780), Entry(2, 75, "A", 960), Entry(3, 60, "A", 1140)])
         == [Entry(1, 80, "A", 780), Entry(2, 75, "A", 960)]
  {
    var s := [Entry(1, 80, "A", 780), Entry(2, 75, "A", 960), Entry(3, 60, "A", 1140)];
    assert Walk(s, []) == Walk(s[1..], [s[0]]) by { assert [] + [s[0]] == [s[0]]; }
    assert Walk(s[1..], [s[0]]) == Walk(s[2..], [s[0]]);
    assert Walk(s[2..], [s[0]]) == Walk(s[3..], [s[0]]);
    assert s[..2] == [s[0], s[1]];
  }

  /** A single entry is returned as the only pick. */
  lemma SingleEntryPicked()
    ensures Select([Entry(1, 55, "A", 840)]) == [Entry(1, 55, "A", 840)]
  {
    var s := [Entry(1, 55, "A", 840)];
    assert Walk(s, []) == Walk(s[1..], [s[0]]) by { assert [] + [s[0]] == [s[0]]; }
  }
}
