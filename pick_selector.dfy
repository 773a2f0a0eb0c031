/** `select_best_picks` of btts_predictor.py: sorts the scored fixtures by
    score, best first (stably, in place), walks them greedily under two
    diversity rules checked against the first pick, and falls back to the
    top of the list when fewer than two picks survive. */
module PickSelector {
  import opened Wrappers
  import opened Seqs
  import opened Analysis

  /** At most this many picks are sent. */
  const MaxPicks: nat := 2
  /** A second pick from the first pick's league must beat it by this much. */
  const LeagueMargin: int := 10
  /** Two picks must kick off at least this many minutes apart. */
  const MinGapMinutes: int := 120

  // ---------------------------------------------------------------------
  // The stable descending sort

  predicate SortedByScore(s: seq<Analyzed>)
  {
    forall i, j :: 0 <= i < j < |s| ==> s[i].score >= s[j].score
  }

  /** Where insertion sort puts `x` among the first `j` entries of `t`:
      scanning leftwards from `j`, past every entry that scores less. */
  function ScanFrom(t: seq<Analyzed>, x: Analyzed, j: nat): (k: nat)
    requires j <= |t|
    ensures k <= j
    decreases j
  {
    if j == 0 then 0
    else if t[j - 1].score >= x.score then j
    else ScanFrom(t, x, j - 1)
  }

  /** The scan stops just after the nearest entry scoring at least as much as `x`. */
  lemma {:induction false} ScanFromStops(t: seq<Analyzed>, x: Analyzed, j: nat)
    requires j <= |t|
    ensures var k := ScanFrom(t, x, j);
      (forall m :: k <= m < j ==> t[m].score < x.score)
      && (k > 0 ==> t[k - 1].score >= x.score)
    decreases j
  {
    if j > 0 && t[j - 1].score < x.score {
      ScanFromStops(t, x, j - 1);
    }
  }

  /** `x` inserted into `t` where the scan from the right end stops. */
  function Insert(t: seq<Analyzed>, x: Analyzed): (r: seq<Analyzed>)
    ensures |r| == |t| + 1
  {
    var k := ScanFrom(t, x, |t|);
    t[..k] + [x] + t[k..]
  }

  /** Sorting by score, best first, keeping equal scores in input order:
      insertion sort, one element at a time. */
  function SortDesc(s: seq<Analyzed>): (r: seq<Analyzed>)
    ensures |r| == |s|
    decreases |s|
  {
    if s == [] then []
    else
      Insert(SortDesc(s[..|s| - 1]), s[|s| - 1])
  }

  /** `list.sort(key=score, reverse=True)` on the array, done by insertion. */
  method SortByScore(a: array<Analyzed>)
    modifies a
    ensures a[..] == SortDesc(old(a[..]))
  {
    ghost var s := a[..];
    for i := 0 to a.Length
      invariant a[..i] == SortDesc(s[..i])
      invariant a[i..] == s[i..]
    {
      assert s[..i + 1][..i] == s[..i];
      assert a[i] == s[i];
      assert a[i + 1..] == s[i + 1..];
      InsertLast(a, i);
    }
    assert s[..a.Length] == s;
  }

  /** One step of insertion sort: moves `a[i]` left past every entry of its
      sorted prefix that scores less. */
  method InsertLast(a: array<Analyzed>, i: nat)
    requires i < a.Length
    modifies a
    ensures a[..i + 1] == Insert(old(a[..i]), old(a[i]))
    ensures a[i + 1..] == old(a[i + 1..])
  {
    ghost var before := a[..];
    var x := a[i];
    var j := i;
    while j > 0 && a[j - 1].score < x.score
      invariant 0 <= j <= i
      // entries j+1..i have moved one place right; the rest are as they were
      invariant forall m {:trigger a[m]} :: 0 <= m < a.Length ==>
        a[m] == if j < m <= i then before[m - 1] else before[m]
      invariant ScanFrom(before[..i], x, i) == ScanFrom(before[..i], x, j)
    {
      a[j] := a[j - 1];
      j := j - 1;
    }
    a[j] := x;
    ShiftedIsInsert(before, i, x, j, a[..]);
  }

  /** The array after the shift loop: the first `i` entries with `x` placed
      where the scan stopped, the rest untouched. */
  lemma ShiftedIsInsert(before: seq<Analyzed>, i: nat, x: Analyzed, j: nat, r: seq<Analyzed>)
    requires i < |before| && x == before[i] && j == ScanFrom(before[..i], x, i)
    requires |r| == |before|
    requires forall m {:trigger r[m]} :: 0 <= m < |r| ==>
      r[m] == if m == j then x else if j < m <= i then before[m - 1] else before[m]
    ensures r[..i + 1] == Insert(before[..i], x)
    ensures r[i + 1..] == before[i + 1..]
  {
    var t := before[..i];
    InsertShape(t, x);
    SamePointwise(r[..i + 1], Insert(t, x));
    SamePointwise(r[i + 1..], before[i + 1..]);
  }

  /** Two sequences that agree at every position are equal. */
  lemma SamePointwise(p: seq<Analyzed>, q: seq<Analyzed>)
    requires |p| == |q| && forall m :: 0 <= m < |p| ==> p[m] == q[m]
    ensures p == q
  {
  }

  lemma InsertShape(t: seq<Analyzed>, x: Analyzed)
    ensures var k, r := ScanFrom(t, x, |t|), Insert(t, x);
      |r| == |t| + 1 && r[k] == x
      && (forall m :: 0 <= m < k ==> r[m] == t[m])
      && (forall m :: k < m <= |t| ==> r[m] == t[m - 1])
  {
  }

  lemma InsertPermutes(t: seq<Analyzed>, x: Analyzed)
    ensures multiset(Insert(t, x)) == multiset(t) + multiset{x}
  {
    var k := ScanFrom(t, x, |t|);
    assert t == t[..k] + t[k..];
  }

  lemma {:induction false} SortDescPermutes(s: seq<Analyzed>)
    ensures multiset(SortDesc(s)) == multiset(s)
    decreases |s|
  {
    if s != [] {
      assert s == s[..|s| - 1] + [s[|s| - 1]];
      SortDescPermutes(s[..|s| - 1]);
      InsertPermutes(SortDesc(s[..|s| - 1]), s[|s| - 1]);
    }
  }

  /** Insertion keeps a sorted list sorted. */
  lemma InsertSorted(t: seq<Analyzed>, x: Analyzed)
    requires SortedByScore(t)
    ensures SortedByScore(Insert(t, x))
  {
    var k := ScanFrom(t, x, |t|);
    var r := Insert(t, x);
    ScanFromStops(t, x, |t|);
    forall i, j | 0 <= i < j < |r| ensures r[i].score >= r[j].score {
      if i < k && j == k {
        assert t[i].score >= t[k - 1].score;
      }
    }
  }

  lemma {:induction false} SortDescSorted(s: seq<Analyzed>)
    ensures SortedByScore(SortDesc(s))
    decreases |s|
  {
    if s != [] {
      SortDescSorted(s[..|s| - 1]);
      InsertSorted(SortDesc(s[..|s| - 1]), s[|s| - 1]);
    }
  }

  /** The entries with score `v`. */
  function WithScore(v: int): Analyzed -> bool
  {
    (e: Analyzed) => e.score == v
  }

  /** Insertion puts `x` after every entry of equal score. */
  lemma InsertStable(t: seq<Analyzed>, x: Analyzed, v: int)
    ensures Filter(Insert(t, x), WithScore(v)) == Filter(t, WithScore(v)) + Filter([x], WithScore(v))
  {
    var p := WithScore(v);
    var k := ScanFrom(t, x, |t|);
    var front, back := t[..k], t[k..];
    assert t == front + back;
    assert Insert(t, x) == (front + [x]) + back;
    FilterConcat(front + [x], back, p);
    FilterConcat(front, [x], p);
    FilterConcat(front, back, p);
    var f1, f2, f3 := Filter(front, p), Filter([x], p), Filter(back, p);
    assert Filter(Insert(t, x), p) == f1 + f2 + f3;
    assert Filter(t, p) == f1 + f3;
    if x.score == v {
      NoTieAfterInsertPoint(t, x, |t|);
      assert t[k..|t|] == back;
      assert f1 + f2 + f3 == f1 + f3 + f2 by {
        assert f3 == [];
        assert f1 + f2 + f3 == f1 + f2;
        assert f1 + f3 == f1;
      }
    } else {
      FilterSingleton(x, p);
      assert f1 + f2 + f3 == f1 + f3 + f2 by {
        assert f2 == [];
        assert f1 + f2 == f1;
        assert f1 + f3 + f2 == f1 + f3;
      }
    }
  }

  /** Nothing between the insertion point and `j` ties with `x`. */
  lemma {:induction false} NoTieAfterInsertPoint(t: seq<Analyzed>, x: Analyzed, j: nat)
    requires j <= |t|
    ensures Filter(t[ScanFrom(t, x, j)..j], WithScore(x.score)) == []
    decreases j
  {
    if j > 0 && t[j - 1].score < x.score {
      var k := ScanFrom(t, x, j - 1);
      NoTieAfterInsertPoint(t, x, j - 1);
      assert t[k..j] == t[k..j - 1] + [t[j - 1]];
      FilterConcat(t[k..j - 1], [t[j - 1]], WithScore(x.score));
      FilterSingleton(t[j - 1], WithScore(x.score));
    }
  }

  /** The sort is stable: the entries of any one score keep their input order. */
  lemma {:induction false} SortDescStable(s: seq<Analyzed>, v: int)
    ensures Filter(SortDesc(s), WithScore(v)) == Filter(s, WithScore(v))
    decreases |s|
  {
    if s != [] {
      var init, last := s[..|s| - 1], s[|s| - 1];
      SortDescStable(init, v);
      InsertStable(SortDesc(init), last, v);
      assert s == init + [last];
      FilterConcat(init, [last], WithScore(v));
    }
  }

  /** The sort orders by score, best first, is a permutation of its input, and
      keeps ties in input order. */
  lemma SortDescSpec(s: seq<Analyzed>)
    ensures SortedByScore(SortDesc(s))
    ensures multiset(SortDesc(s)) == multiset(s)
    ensures forall v :: Filter(SortDesc(s), WithScore(v)) == Filter(s, WithScore(v))
  {
    SortDescSorted(s);
    SortDescPermutes(s);
    forall v ensures Filter(SortDesc(s), WithScore(v)) == Filter(s, WithScore(v)) {
      SortDescStable(s, v);
    }
  }

  // ---------------------------------------------------------------------
  // The greedy walk and the fallback

  function Abs(n: int): nat
  {
    if n < 0 then -n else n
  }

  /** Less than two hours apart; a kickoff that does not parse disables the rule. */
  predicate TooClose(first: Option<int>, k: Option<int>)
  {
    first.Some? && k.Some? && Abs(k.value - first.value) < MinGapMinutes
  }

  /** The three rules of the walk, each checked against the first pick only. */
  predicate Accepts(picks: seq<Analyzed>, m: Analyzed)
  {
    m.score >= Threshold
    && !(|picks| > 0 && m.league == picks[0].league && m.score - picks[0].score < LeagueMargin)
    && !(|picks| > 0 && TooClose(picks[0].kickoff, m.kickoff))
  }

  /** The walk over the sorted list, from the picks made so far; it stops at the second pick. */
  function Walk(s: seq<Analyzed>, picks: seq<Analyzed>): seq<Analyzed>
    requires |picks| < MaxPicks
    decreases |s|
  {
    if s == [] then picks
    else if !Accepts(picks, s[0]) then Walk(s[1..], picks)
    else if |picks| + 1 == MaxPicks then picks + [s[0]]
    else Walk(s[1..], picks + [s[0]])
  }

  /** The picks from a sorted list: the walk's, unless it found fewer than two. */
  function Select(sorted: seq<Analyzed>): seq<Analyzed>
  {
    var picks := Walk(sorted, []);
    if |picks| < MaxPicks && |sorted| >= 2 then sorted[..2]
    else if |picks| < 1 && |sorted| >= 1 then [sorted[0]]
    else picks
  }

  /** `select_best_picks`: leaves the list sorted and returns the picks. */
  method SelectBestPicks(a: array<Analyzed>) returns (picks: seq<Analyzed>)
    modifies a
    ensures a[..] == SortDesc(old(a[..]))
    ensures picks == Select(a[..])
  {
    if a.Length == 0 {
      return [];
    }
    SortByScore(a);
    ghost var sorted := a[..];
    picks := [];
    for i := 0 to a.Length
      invariant |picks| < MaxPicks
      invariant Walk(sorted[i..], picks) == Walk(sorted, [])
    {
      var m := a[i];
      assert sorted[i..] == [m] + sorted[i + 1..];
      assert Walk(sorted[i..], picks) ==
        if !Accepts(picks, m) then Walk(sorted[i + 1..], picks)
        else if |picks| + 1 == MaxPicks then picks + [m]
        else Walk(sorted[i + 1..], picks + [m]);
      // Rule 1: a good score
      if m.score < Threshold {
        continue;
      }
      // Rule 2: league diversity
      if |picks| > 0 && m.league == picks[0].league && m.score - picks[0].score < LeagueMargin {
        continue;
      }
      // Rule 3: kickoff diversity
      if |picks| > 0 && TooClose(picks[0].kickoff, m.kickoff) {
        continue;
      }
      picks := picks + [m];
      if |picks| == MaxPicks {
        break;
      }
    }
    if |picks| < MaxPicks && a.Length >= 2 {
      picks := a[..2];
    } else if |picks| < 1 && a.Length >= 1 {
      picks := [a[0]];
    }
  }

  // ---------------------------------------------------------------------
  // Facts about the walk

  /** The walk only adds to the picks it starts from, and never beyond two. */
  lemma {:induction false} WalkExtends(s: seq<Analyzed>, picks: seq<Analyzed>)
    requires |picks| < MaxPicks
    ensures var w := Walk(s, picks);
      |picks| <= |w| <= MaxPicks && w[..|picks|] == picks
    decreases |s|
  {
    if s != [] {
      if !Accepts(picks, s[0]) {
        WalkExtends(s[1..], picks);
      } else if |picks| + 1 < MaxPicks {
        WalkExtends(s[1..], picks + [s[0]]);
        var w := Walk(s[1..], picks + [s[0]]);
        assert w[..|picks|] == w[..|picks| + 1][..|picks|];
      }
    }
  }

  /** What the walk adds is taken from the list in its order, and each addition scores at least 50. */
  lemma {:induction false} WalkTakesInOrder(s: seq<Analyzed>, picks: seq<Analyzed>)
    requires |picks| < MaxPicks
    ensures var w := Walk(s, picks);
      |picks| <= |w| && IsSubseq(w[|picks|..], s)
      && forall e :: e in w[|picks|..] ==> e.score >= Threshold
    decreases |s|
  {
    WalkExtends(s, picks);
    var w := Walk(s, picks);
    if s == [] {
      assert w[|picks|..] == [];
    } else if !Accepts(picks, s[0]) {
      WalkTakesInOrder(s[1..], picks);
    } else if |picks| + 1 == MaxPicks {
      assert w[|picks|..] == [s[0]];
      assert [s[0]][1..] == [];
    } else {
      var picks' := picks + [s[0]];
      WalkTakesInOrder(s[1..], picks');
      WalkExtends(s[1..], picks');
      assert w[|picks|..] == [s[0]] + w[|picks'|..];
      assert w[|picks|..][1..] == w[|picks'|..];
    }
  }

  /** When nothing in the list reaches 50 the walk adds nothing. */
  lemma {:induction false} WalkBelowThreshold(s: seq<Analyzed>, picks: seq<Analyzed>)
    requires |picks| < MaxPicks
    requires forall e :: e in s ==> e.score < Threshold
    ensures Walk(s, picks) == picks
    decreases |s|
  {
    if s != [] {
      WalkBelowThreshold(s[1..], picks);
    }
  }

  /** Rule 1 on its own: an entry scoring below 50 is never added by the walk,
      whatever else the list holds. */
  lemma WalkSkipsBelowThreshold(s: seq<Analyzed>, picks: seq<Analyzed>, e: Analyzed)
    requires |picks| < MaxPicks && e.score < Threshold
    ensures var w := Walk(s, picks); |picks| <= |w| && e !in w[|picks|..]
  {
    WalkTakesInOrder(s, picks);
  }

  /** Once a first pick is made from a list that scores no higher than it, a
      second pick is from another league and, when both kickoffs parse, at
      least two hours away. */
  lemma {:induction false} WalkSecondPickDiverse(s: seq<Analyzed>, first: Analyzed)
    requires forall e :: e in s ==> e.score <= first.score
    ensures var w := Walk(s, [first]);
      |w| == MaxPicks ==>
        w[0] == first && w[1].league != first.league
        && (first.kickoff.Some? && w[1].kickoff.Some? ==> Abs(w[1].kickoff.value - first.kickoff.value) >= MinGapMinutes)
    decreases |s|
  {
    if s != [] && !Accepts([first], s[0]) {
      WalkSecondPickDiverse(s[1..], first);
    }
  }

  predicate AllAtMost(s: seq<Analyzed>, bound: int)
  {
    forall e :: e in s ==> e.score <= bound
  }

  lemma SortedTailAtMostHead(s: seq<Analyzed>)
    requires SortedByScore(s) && s != []
    ensures SortedByScore(s[1..]) && AllAtMost(s[1..], s[0].score)
  {
    forall e | e in s[1..] ensures e.score <= s[0].score {
      var i :| 0 <= i < |s[1..]| && s[1..][i] == e;
      assert s[i + 1] == e;
    }
  }

  /** Two picks made by the walk over a sorted list are from different leagues
      and, when both kickoffs parse, kick off at least two hours apart. */
  lemma {:induction false} WalkPicksDiverse(s: seq<Analyzed>)
    requires SortedByScore(s)
    ensures var w := Walk(s, []);
      |w| == MaxPicks ==>
        w[1].league != w[0].league
        && (w[0].kickoff.Some? && w[1].kickoff.Some? ==> Abs(w[1].kickoff.value - w[0].kickoff.value) >= MinGapMinutes)
    decreases |s|
  {
    if s != [] {
      SortedTailAtMostHead(s);
      if !Accepts([], s[0]) {
        WalkPicksDiverse(s[1..]);
      } else {
        assert Walk(s, []) == Walk(s[1..], [s[0]]) by {
          assert [] + [s[0]] == [s[0]];
        }
        WalkSecondPickDiverse(s[1..], s[0]);
      }
    }
  }

  /** The league rule without its exception: a second pick never shares the first pick's league. */
  predicate AcceptsWithoutMargin(picks: seq<Analyzed>, m: Analyzed)
  {
    m.score >= Threshold
    && !(|picks| > 0 && m.league == picks[0].league)
    && !(|picks| > 0 && TooClose(picks[0].kickoff, m.kickoff))
  }

  /** The walk as it would be with the "10 points better" exception deleted. */
  function WalkWithoutMargin(s: seq<Analyzed>, picks: seq<Analyzed>): seq<Analyzed>
    requires |picks| < MaxPicks
    decreases |s|
  {
    if s == [] then picks
    else if !AcceptsWithoutMargin(picks, s[0]) then WalkWithoutMargin(s[1..], picks)
    else if |picks| + 1 == MaxPicks then picks + [s[0]]
    else WalkWithoutMargin(s[1..], picks + [s[0]])
  }

  lemma {:induction false} MarginUnusedAfterFirst(s: seq<Analyzed>, first: Analyzed)
    requires AllAtMost(s, first.score)
    ensures Walk(s, [first]) == WalkWithoutMargin(s, [first])
    decreases |s|
  {
    if s != [] {
      assert s[0] in s;
      MarginUnusedAfterFirst(s[1..], first);
    }
  }

  /** After the descending sort the exception of the league rule never fires:
      the walk picks exactly what it would pick without it. */
  lemma {:induction false} MarginExceptionUnreachable(s: seq<Analyzed>)
    requires SortedByScore(s)
    ensures Walk(s, []) == WalkWithoutMargin(s, [])
    decreases |s|
  {
    if s != [] {
      SortedTailAtMostHead(s);
      if !Accepts([], s[0]) {
        MarginExceptionUnreachable(s[1..]);
      } else {
        assert [] + [s[0]] == [s[0]];
        MarginUnusedAfterFirst(s[1..], s[0]);
      }
    }
  }

  lemma {:induction false} SubseqOfSortedIsSorted(a: seq<Analyzed>, s: seq<Analyzed>)
    requires IsSubseq(a, s) && SortedByScore(s)
    ensures SortedByScore(a)
    decreases |s|
  {
    if a != [] {
      SortedTailAtMostHead(s);
      if a[0] == s[0] && IsSubseq(a[1..], s[1..]) {
        SubseqOfSortedIsSorted(a[1..], s[1..]);
        SubseqMembers(a[1..], s[1..]);
        forall i, j | 0 <= i < j < |a| ensures a[i].score >= a[j].score {
          if i > 0 {
            assert a[1..][i - 1].score >= a[1..][j - 1].score;
          } else {
            assert a[j] == a[1..][j - 1];
            assert a[j] in s[1..];
          }
        }
      } else {
        SubseqOfSortedIsSorted(a, s[1..]);
      }
    }
  }

  // ---------------------------------------------------------------------
  // Facts about the selection

  /** The selection is empty exactly when the list is; otherwise it has
      min(2, length) entries, taken from the list in its order. */
  lemma SelectShape(s: seq<Analyzed>)
    ensures |Select(s)| == (if |s| < MaxPicks then |s| else MaxPicks)
    ensures Select(s) == [] <==> s == []
    ensures IsSubseq(Select(s), s)
  {
    var w := Walk(s, []);
    WalkExtends(s, []);
    WalkTakesInOrder(s, []);
    assert w[0..] == w;
    if |w| < MaxPicks && |s| >= 2 {
      PrefixIsSubseq(s, 2);
    } else if |w| < 1 && |s| >= 1 {
      PrefixIsSubseq(s, 1);
      assert s[..1] == [s[0]];
    } else if |s| == 1 {
      assert |w| == 1;
    }
  }

  /** Picks from a sorted list come in non-increasing score order and are entries of the list. */
  lemma SelectOrdered(s: seq<Analyzed>)
    requires SortedByScore(s)
    ensures SortedByScore(Select(s))
    ensures forall e :: e in Select(s) ==> e in s
  {
    SelectShape(s);
    SubseqOfSortedIsSorted(Select(s), s);
    SubseqMembers(Select(s), s);
  }

  /** The best entry of a sorted list is always the first pick: the walk takes
      it when it reaches 50, and otherwise the fallback does. */
  lemma SelectTopFirst(s: seq<Analyzed>)
    requires SortedByScore(s) && s != []
    ensures Select(s)[0] == s[0]
  {
    SelectShape(s);
    if s[0].score >= Threshold {
      assert Walk(s, []) == Walk(s[1..], [s[0]]) by {
        assert [] + [s[0]] == [s[0]];
      }
      WalkExtends(s[1..], [s[0]]);
    } else {
      forall e | e in s ensures e.score < Threshold {
        var i :| 0 <= i < |s| && s[i] == e;
        assert s[0].score >= s[i].score;
      }
      WalkBelowThreshold(s, []);
    }
  }

  /** When the walk makes two picks they are the selection, from different
      leagues, and at least two hours apart when both kickoffs parse. */
  lemma SelectDiversePath(s: seq<Analyzed>)
    requires SortedByScore(s) && |Walk(s, [])| == MaxPicks
    ensures Select(s) == Walk(s, [])
    ensures Select(s)[0].league != Select(s)[1].league
    ensures Select(s)[0].kickoff.Some? && Select(s)[1].kickoff.Some? ==>
      Abs(Select(s)[1].kickoff.value - Select(s)[0].kickoff.value) >= MinGapMinutes
  {
    WalkPicksDiverse(s);
  }

  /** When the walk makes fewer than two picks from a list of two or more, the
      selection is the first two entries, whatever their scores or leagues. */
  lemma SelectFallback(s: seq<Analyzed>)
    requires |s| >= MaxPicks && |Walk(s, [])| < MaxPicks
    ensures Select(s) == s[..MaxPicks]
  {
  }

  /** If every entry reaches 50, so does every pick. */
  lemma SelectQualified(s: seq<Analyzed>)
    requires forall e :: e in s ==> e.score >= Threshold
    ensures forall e :: e in Select(s) ==> e.score >= Threshold
  {
    SelectShape(s);
    SubseqMembers(Select(s), s);
  }
}
