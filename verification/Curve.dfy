/** The capability curve of `src/eval/curve.py`: nightly points, battery means, regression verdict. */
module Curve {
  import opened Lists
  import opened Options
  import opened Order
  import opened Sums
  import opened TerminalState

  /** Parses an ISO timestamp to a day number. */
  type DateOf = string -> Option<int>

  function RowDate(r: Row, dateOf: DateOf): Option<int>
  {
    if r.createdAt == "" then None else dateOf(r.createdAt)
  }

  /** `sorted` of a set of days. */
  function SortedDates(s: set<int>): seq<int>
  {
    if s == {} then [] else
    LeastExists(s);
    var m :| m in s && forall x :: x in s ==> m <= x;
    [m] + SortedDates(s - {m})
  }

  /** The least element first, and the others after it. */
  lemma SortedDatesStep(s: set<int>) returns (m: int)
    requires s != {}
    ensures m in s && (forall x :: x in s ==> m <= x) && SortedDates(s) == [m] + SortedDates(s - {m})
  {
    LeastExists(s);
    m :| m in s && forall x :: x in s ==> m <= x;
  }

  lemma {:induction false} SortedDatesFacts(s: set<int>)
    ensures forall d :: d in SortedDates(s) <==> d in s
    ensures forall i, j :: 0 <= i < j < |SortedDates(s)| ==> SortedDates(s)[i] < SortedDates(s)[j]
  {
    if s != {} {
      var m := SortedDatesStep(s);
      hide SortedDates;
      var rest := SortedDates(s - {m});
      SortedDatesFacts(s - {m});
      var all := [m] + rest;
      forall i, j | 0 <= i < j < |all| ensures all[i] < all[j] {
        assert all[j] == rest[j - 1] && rest[j - 1] in rest;
        assert i > 0 ==> all[i] == rest[i - 1];
      }
      forall d ensures d in all <==> d in s {
        assert d in all <==> d == m || d in rest;
      }
    }
  }

  lemma NoMembers(s: set<int>)
    ensures (forall x :: x !in s) ==> s == {}
  {
    if forall x :: x !in s {
      assert s == {};
    }
  }

  lemma {:induction false} LeastExists(s: set<int>)
    requires s != {}
    ensures exists m :: m in s && forall x :: x in s ==> m <= x
  {
    NoMembers(s);
    var y :| y in s;
    if s != {y} {
      assert s == (s - {y}) + {y};
      LeastExists(s - {y});
      var m :| m in s - {y} && forall x :: x in s - {y} ==> m <= x;
      var least := if m < y then m else y;
      assert least in s && forall x :: x in s ==> least <= x;
    } else {
      assert y in s && forall x :: x in s ==> y <= x;
    }
  }

  // ---------- One goal's trend ----------

  datatype CurvePoint = CurvePoint(date: int, attemptId: Option<string>, meanScore: real, nChecks: nat)

  function DatesOf(rows: seq<Row>, dateOf: DateOf): set<int>
  {
    set r | r in rows && RowDate(r, dateOf).Some? :: RowDate(r, dateOf).value
  }

  function OnDay(d: int, dateOf: DateOf): Row -> bool
  {
    (r: Row) => RowDate(r, dateOf) == Some(d)
  }

  function DayRows(rows: seq<Row>, d: int, dateOf: DateOf): seq<Row>
  {
    Filter(rows, OnDay(d, dateOf))
  }

  function ScoreOfRow(): Row -> real
  {
    (r: Row) => r.score
  }

  function ScoresOf(rows: seq<Row>): seq<real>
  {
    Map(rows, ScoreOfRow())
  }

  function PointOf(rows: seq<Row>, d: int, dateOf: DateOf): CurvePoint
  {
    var day := DayRows(rows, d, dateOf);
    CurvePoint(d, LatestAttempt(day), Mean(ScoresOf(Terminal(day))), |Terminal(day)|)
  }

  /** The points of a goal, one per day with rows, in ascending order. */
  function Trend(rows: seq<Row>, dateOf: DateOf): (points: seq<CurvePoint>)
    ensures |points| == |SortedDates(DatesOf(rows, dateOf))|
    ensures forall i :: 0 <= i < |points| ==> points[i] == PointOf(rows, SortedDates(DatesOf(rows, dateOf))[i], dateOf)
  {
    var dates := SortedDates(DatesOf(rows, dateOf));
    seq(|dates|, i requires 0 <= i < |dates| => PointOf(rows, dates[i], dateOf))
  }

  ghost predicate HasRowOn(rows: seq<Row>, d: int, dateOf: DateOf)
  {
    exists r :: r in rows && r.createdAt != "" && dateOf(r.createdAt) == Some(d)
  }

  /** One point for each day with a row, ascending, with the mean and the number of the day's terminal rows. */
  ghost predicate IsTrend(points: seq<CurvePoint>, rows: seq<Row>, dateOf: DateOf)
  {
    && (forall i, j :: 0 <= i < j < |points| ==> points[i].date < points[j].date)
    && (forall d :: HasRowOn(rows, d, dateOf) ==> exists i :: 0 <= i < |points| && points[i].date == d)
    && (forall i :: 0 <= i < |points| ==> HasRowOn(rows, points[i].date, dateOf))
    && (forall i :: 0 <= i < |points| ==> IsPoint(points[i], DayRows(rows, points[i].date, dateOf)))
  }

  ghost predicate IsPoint(point: CurvePoint, day: seq<Row>)
  {
    && point.attemptId == LatestAttempt(day) && point.nChecks == |Terminal(day)|
    && IsMean(point.meanScore, Terminal(day), ScoreOfRow())
  }

  lemma PointIsPoint(rows: seq<Row>, d: int, dateOf: DateOf)
    ensures IsPoint(PointOf(rows, d, dateOf), DayRows(rows, d, dateOf))
  {
    var latest := Terminal(DayRows(rows, d, dateOf));
    MeanOfRows(latest);
    QuotientIsMean(latest, ScoreOfRow());
  }

  lemma DateIsDay(rows: seq<Row>, d: int, dateOf: DateOf)
    ensures d in DatesOf(rows, dateOf) <==> HasRowOn(rows, d, dateOf)
  {
    if d in DatesOf(rows, dateOf) {
      var r :| r in rows && RowDate(r, dateOf) == Some(d);
      assert r.createdAt != "" && dateOf(r.createdAt) == Some(d);
    }
    if HasRowOn(rows, d, dateOf) {
      var r :| r in rows && r.createdAt != "" && dateOf(r.createdAt) == Some(d);
      assert RowDate(r, dateOf) == Some(d);
    }
  }

  lemma TrendIsTrend(rows: seq<Row>, dateOf: DateOf)
    ensures IsTrend(Trend(rows, dateOf), rows, dateOf)
  {
    hide PointOf, DatesOf, SortedDates, IsPoint, HasRowOn;
    var dates := SortedDates(DatesOf(rows, dateOf));
    var points := Trend(rows, dateOf);
    SortedDatesFacts(DatesOf(rows, dateOf));
    forall i | 0 <= i < |points|
      ensures points[i].date == dates[i] && HasRowOn(rows, dates[i], dateOf)
      ensures IsPoint(points[i], DayRows(rows, dates[i], dateOf))
    {
      PointDate(rows, dates[i], dateOf);
      PointIsPoint(rows, dates[i], dateOf);
      assert dates[i] in dates;
      DateIsDay(rows, dates[i], dateOf);
    }
    forall d | HasRowOn(rows, d, dateOf) ensures exists i :: 0 <= i < |points| && points[i].date == d {
      DateIsDay(rows, d, dateOf);
      assert d in dates;
      var i :| 0 <= i < |dates| && dates[i] == d;
      assert points[i].date == d;
    }
  }

  lemma PointDate(rows: seq<Row>, d: int, dateOf: DateOf)
    ensures PointOf(rows, d, dateOf).date == d
  {
  }

  /** The rows grouped by day, each group in row order. */
  method GroupByDate(rows: seq<Row>, dateOf: DateOf) returns (byDate: map<int, seq<Row>>)
    ensures byDate.Keys == DatesOf(rows, dateOf)
    ensures forall d :: d in byDate ==> byDate[d] == DayRows(rows, d, dateOf)
  {
    hide Filter;
    byDate := map[];
    for i := 0 to |rows|
      invariant byDate.Keys == DatesOf(rows[..i], dateOf)
      invariant forall d :: d in byDate ==> byDate[d] == DayRows(rows[..i], d, dateOf)
    {
      DaySnoc(rows, i, dateOf);
      var d := RowDate(rows[i], dateOf);
      if d.None? {
        continue;
      }
      NoDayRows(rows[..i], d.value, dateOf);
      if d.value !in byDate {
        byDate := byDate[d.value := []];
      }
      byDate := byDate[d.value := byDate[d.value] + [rows[i]]];
    }
    assert rows[..|rows|] == rows;
  }

  method PerGoalTrend(rows: seq<Row>, dateOf: DateOf) returns (points: seq<CurvePoint>)
    ensures IsTrend(points, rows, dateOf)
    ensures points == Trend(rows, dateOf)
  {
    hide IsTrend;
    TrendIsTrend(rows, dateOf);
    var byDate := GroupByDate(rows, dateOf);
    hide SortedDates, AttemptRows, LatestPerCheck, Filter, Mean;
    points := [];
    var dates := SortedDates(byDate.Keys);
    SortedDatesFacts(byDate.Keys);
    for i := 0 to |dates|
      invariant |points| == i && forall k :: 0 <= k < i ==> points[k] == PointOf(rows, dates[k], dateOf)
    {
      assert dates[i] in dates;
      var dayRows := byDate[dates[i]];
      var attempt := LatestAttempt(dayRows);
      var latest := LatestRows(AttemptRows(dayRows));
      points := points + [CurvePoint(dates[i], attempt, Mean(ScoresOf(latest)), |latest|)];
    }
    assert points == Trend(rows, dateOf);
  }

  lemma DaySnoc(rows: seq<Row>, i: nat, dateOf: DateOf)
    requires i < |rows|
    ensures DatesOf(rows[..i + 1], dateOf)
         == DatesOf(rows[..i], dateOf)
            + if RowDate(rows[i], dateOf).Some? then {RowDate(rows[i], dateOf).value} else {}
    ensures forall d :: (DayRows(rows[..i + 1], d, dateOf)
                         == if RowDate(rows[i], dateOf) == Some(d) then DayRows(rows[..i], d, dateOf) + [rows[i]]
                            else DayRows(rows[..i], d, dateOf))
  {
    assert rows[..i + 1] == rows[..i] + [rows[i]];
    assert rows[..i + 1][..i] == rows[..i];
  }

  lemma NoDayRows(rows: seq<Row>, d: int, dateOf: DateOf)
    ensures d in DatesOf(rows, dateOf) <==> DayRows(rows, d, dateOf) != []
  {
    FilterMembers(rows, OnDay(d, dateOf));
    var day := DayRows(rows, d, dateOf);
    if day != [] {
      assert day[0] in day;
    }
  }

  // ---------- Terminal-state semantics ----------

  /** A row that its day's point is computed from. */
  ghost predicate Counts(rows: seq<Row>, r: Row, dateOf: DateOf)
  {
    exists d :: r in Terminal(DayRows(rows, d, dateOf))
  }

  /** Every day, the newest rows of a check in the latest attempt tie only with equal scores. */
  ghost predicate DailyTiesAgree(rows: seq<Row>, dateOf: DateOf)
  {
    forall d :: TiesAgree(AttemptRows(DayRows(rows, d, dateOf)))
  }

  lemma DistinctStampsDaily(rows: seq<Row>, dateOf: DateOf)
    requires DistinctStamps(rows)
    ensures DailyTiesAgree(rows, dateOf)
  {
    forall d ensures TiesAgree(AttemptRows(DayRows(rows, d, dateOf))) {
      FilterMembers(rows, OnDay(d, dateOf));
      AttemptRowsAre(DayRows(rows, d, dateOf));
      DistinctStampsAgree(AttemptRows(DayRows(rows, d, dateOf)));
    }
  }

  lemma PointOfPart(rows: seq<Row>, part: seq<Row>, d: int, dateOf: DateOf)
    requires DailyTiesAgree(rows, dateOf)
    requires forall r :: r in part ==> r in rows
    requires forall r :: Counts(rows, r, dateOf) ==> r in part
    ensures PointOf(part, d, dateOf) == PointOf(rows, d, dateOf)
    ensures d in DatesOf(part, dateOf) <==> d in DatesOf(rows, dateOf)
  {
    hide TiesAgree;
    var day, less := DayRows(rows, d, dateOf), DayRows(part, d, dateOf);
    FilterMembers(rows, OnDay(d, dateOf));
    FilterMembers(part, OnDay(d, dateOf));
    forall r | r in Terminal(day) ensures r in less {
      TerminalNotEmpty(day);
      assert Counts(rows, r, dateOf);
    }
    TerminalScoresOfPart(day, less);
    LatestDistinct(AttemptRows(day));
    LatestDistinct(AttemptRows(less));
    SameScoresMean(Terminal(less), Terminal(day));
    NoDayRows(rows, d, dateOf);
    NoDayRows(part, d, dateOf);
    TerminalNotEmpty(day);
    if day != [] {
      assert Terminal(day)[0] in Terminal(day);
    }
    EmptyPart(day, less);
  }

  lemma WithoutRest(s: seq<Row>, k: nat, t: seq<Row>)
    requires k < |s| && DistinctChecks(s) && SameScores(t, s)
    requires t != [] && s[k].checkName == t[0].checkName && DistinctChecks(t)
    ensures SameScores(Without(t, 0), Without(s, k))
  {
    WithoutOne(s, k);
    WithoutOne(t, 0);
    forall r | r in Without(t, 0) ensures HasScore(Without(s, k), r) {
      var q :| q in s && q.checkName == r.checkName && q.score == r.score;
      SameCheck(t, t[0], r);
    }
    forall r | r in Without(s, k) ensures HasScore(Without(t, 0), r) {
      var q :| q in t && q.checkName == r.checkName && q.score == r.score;
      SameCheck(s, s[k], r);
    }
  }

  lemma SameCheck(s: seq<Row>, a: Row, b: Row)
    requires DistinctChecks(s) && a in s && b in s
    ensures a.checkName == b.checkName ==> a == b
  {
    var i :| 0 <= i < |s| && s[i] == a;
    var j :| 0 <= j < |s| && s[j] == b;
  }

  lemma WithoutSum(s: seq<Row>, k: nat)
    requires k < |s|
    ensures SumBy(s, ScoreOfRow()) == SumBy(Without(s, k), ScoreOfRow()) + s[k].score
  {
    hide SumBy;
    var f := ScoreOfRow();
    SumConcat(s[..k], s[k + 1..], f);
    SumConcat(s[..k] + [s[k]], s[k + 1..], f);
    SumSnoc(s[..k], s[k], f);
    assert s == s[..k] + [s[k]] + s[k + 1..];
  }

  lemma {:induction false} SameScoresSum(s: seq<Row>, t: seq<Row>)
    requires DistinctChecks(s) && DistinctChecks(t) && SameScores(s, t)
    ensures |s| == |t| && SumBy(s, ScoreOfRow()) == SumBy(t, ScoreOfRow())
    decreases |s|
  {
    if s == [] {
      NothingIn(t);
    } else {
      assert s[0] in s;
      var q :| q in t && q.checkName == s[0].checkName && q.score == s[0].score;
      var k :| 0 <= k < |t| && t[k] == q;
      WithoutRest(t, k, s);
      WithoutOne(s, 0);
      WithoutOne(t, k);
      SameScoresSum(Without(s, 0), Without(t, k));
      WithoutSum(s, 0);
      WithoutSum(t, k);
    }
  }

  lemma MeanOfRows(rows: seq<Row>)
    ensures Mean(ScoresOf(rows)) == if rows == [] then 0.0 else SumBy(rows, ScoreOfRow()) / |rows| as real
  {
    SumEq(ScoresOf(rows), Identity, rows, ScoreOfRow());
  }

  lemma SameScoresMean(s: seq<Row>, t: seq<Row>)
    requires DistinctChecks(s) && DistinctChecks(t) && SameScores(s, t)
    ensures Mean(ScoresOf(s)) == Mean(ScoresOf(t)) && |s| == |t|
  {
    SameScoresSum(s, t);
    MeanOfRows(s);
    MeanOfRows(t);
  }

  /** Where ties agree the trend depends on the terminal rows only: other rows may be deleted, and all rows reordered or
      repeated. */
  lemma TrendOfPart(rows: seq<Row>, part: seq<Row>, dateOf: DateOf)
    requires DailyTiesAgree(rows, dateOf)
    requires forall r :: r in part ==> r in rows
    requires forall r :: Counts(rows, r, dateOf) ==> r in part
    ensures Trend(part, dateOf) == Trend(rows, dateOf)
  {
    hide PointOf, DatesOf, DailyTiesAgree;
    forall d: int ensures PointOf(part, d, dateOf) == PointOf(rows, d, dateOf) {
      PointOfPart(rows, part, d, dateOf);
    }
    forall d: int ensures d in DatesOf(part, dateOf) <==> d in DatesOf(rows, dateOf) {
      PointOfPart(rows, part, d, dateOf);
    }
    assert DatesOf(part, dateOf) == DatesOf(rows, dateOf);
  }

  lemma CountsAreRows(rows: seq<Row>, r: Row, dateOf: DateOf)
    requires Counts(rows, r, dateOf)
    ensures r in rows
  {
    var d :| r in Terminal(DayRows(rows, d, dateOf));
    TerminalNotEmpty(DayRows(rows, d, dateOf));
    FilterMembers(rows, OnDay(d, dateOf));
  }

  lemma SameMultiset(s: seq<Row>, t: seq<Row>)
    requires multiset(s) == multiset(t)
    ensures forall r :: r in s <==> r in t
  {
    forall r ensures r in s <==> r in t {
      assert r in s <==> r in multiset(s);
      assert r in t <==> r in multiset(t);
    }
  }

  /** Where ties agree any permutation of the rows gives the same points. */
  lemma TrendPermutation(rows: seq<Row>, shuffled: seq<Row>, dateOf: DateOf)
    requires DailyTiesAgree(rows, dateOf) && multiset(rows) == multiset(shuffled)
    ensures Trend(shuffled, dateOf) == Trend(rows, dateOf)
  {
    SameMultiset(rows, shuffled);
    forall r | Counts(rows, r, dateOf) ensures r in shuffled {
      CountsAreRows(rows, r, dateOf);
    }
    TrendOfPart(rows, shuffled, dateOf);
  }

  function CountsTest(rows: seq<Row>, dateOf: DateOf): Row -> bool
  {
    (r: Row) => RowDate(r, dateOf).Some? && r in Terminal(DayRows(rows, RowDate(r, dateOf).value, dateOf))
  }

  /** Deleting every non-terminal row gives the same points: a pass that was later fixed never counts. */
  lemma TrendOfTerminalRows(rows: seq<Row>, dateOf: DateOf)
    requires DailyTiesAgree(rows, dateOf)
    ensures Trend(Filter(rows, CountsTest(rows, dateOf)), dateOf) == Trend(rows, dateOf)
  {
    FilterMembers(rows, CountsTest(rows, dateOf));
    forall r | Counts(rows, r, dateOf) ensures r in Filter(rows, CountsTest(rows, dateOf)) {
      CountsAreRows(rows, r, dateOf);
      var d :| r in Terminal(DayRows(rows, d, dateOf));
      TerminalNotEmpty(DayRows(rows, d, dateOf));
      FilterMembers(rows, OnDay(d, dateOf));
    }
    TrendOfPart(rows, Filter(rows, CountsTest(rows, dateOf)), dateOf);
  }

  // ---------- When the order of the rows matters ----------

  lemma RemoveTwo(rows: seq<Row>, r: Row, s: Row) returns (rest: seq<Row>)
    requires r in rows && s in rows && r != s
    ensures multiset([r, s] + rest) == multiset(rows) && multiset([s, r] + rest) == multiset(rows)
  {
    var less := RemoveOne(rows, r);
    assert s in multiset(rows) && s in multiset(less);
    rest := RemoveOne(less, s);
    assert multiset([r, s] + rest) == multiset{r, s} + multiset(rest) == multiset([s, r] + rest);
  }

  lemma RemoveOne(rows: seq<Row>, r: Row) returns (rest: seq<Row>)
    requires r in rows
    ensures multiset(rows) == multiset(rest) + multiset{r}
  {
    var k :| 0 <= k < |rows| && rows[k] == r;
    rest := Without(rows, k);
    assert rows == rows[..k] + [r] + rows[k + 1..];
  }

  lemma DayFront(r: Row, s: Row, rest: seq<Row>, d: int, dateOf: DateOf)
    requires RowDate(r, dateOf) == Some(d) && RowDate(s, dateOf) == Some(d)
    ensures DayRows([r, s] + rest, d, dateOf) == [r, s] + DayRows(rest, d, dateOf)
  {
    FilterConcat([r, s], rest, OnDay(d, dateOf));
    FilterAll([r, s], OnDay(d, dateOf));
  }

  lemma MeanOfFront(r: Row, s: Row, others: seq<Row>)
    requires r.score != s.score
    ensures Mean(ScoresOf([r] + others)) != Mean(ScoresOf([s] + others))
  {
    hide SumBy, Mean;
    MeanOfRows([r] + others);
    MeanOfRows([s] + others);
    FrontSum(r, others);
    FrontSum(s, others);
    assert |[r] + others| == |[s] + others|;
    UnequalQuotients(SumBy([r] + others, ScoreOfRow()), SumBy([s] + others, ScoreOfRow()), |[r] + others| as real);
  }

  lemma UnequalQuotients(x: real, y: real, n: real)
    requires x != y && n > 0.0
    ensures x / n != y / n
  {
    Quotient(x, n);
    Quotient(y, n);
  }

  lemma FrontSum(r: Row, others: seq<Row>)
    ensures SumBy([r] + others, ScoreOfRow()) == r.score + SumBy(others, ScoreOfRow())
  {
    SumConcat([r], others, ScoreOfRow());
    SumSnoc([], r, ScoreOfRow());
    assert [] + [r] == [r];
  }

  /** Two newest rows of one check with different scores: which one counts depends on which comes first. */
  lemma TieOrderMatters(rows: seq<Row>, d: int, r: Row, s: Row, dateOf: DateOf) returns (p: seq<Row>, q: seq<Row>)
    requires var attempt := AttemptRows(DayRows(rows, d, dateOf)); Newest(attempt, r) && Newest(attempt, s)
    requires r.checkName == s.checkName && r.score != s.score
    ensures multiset(p) == multiset(rows) && multiset(q) == multiset(rows)
    ensures d in DatesOf(rows, dateOf) && PointOf(p, d, dateOf) != PointOf(q, d, dateOf)
  {
    hide LatestAttempt, LatestPerCheck, Mean, SumBy, Newest, Chosen, AttemptRows;
    var day := DayRows(rows, d, dateOf);
    TiedRows(day, r, s);
    FilterMembers(rows, OnDay(d, dateOf));
    var rest := RemoveTwo(rows, r, s);
    p, q := [r, s] + rest, [s, r] + rest;
    DayFront(r, s, rest, d, dateOf);
    DayFront(s, r, rest, d, dateOf);
    FilterPermutation(p, rows, OnDay(d, dateOf));
    SameMultiset([r, s] + DayRows(rest, d, dateOf), day);
    var others := TiedTerminal(day, r, s, DayRows(rest, d, dateOf));
    MeanOfFront(r, s, others);
  }

  lemma TiedRows(day: seq<Row>, r: Row, s: Row)
    requires Newest(AttemptRows(day), r) && Newest(AttemptRows(day), s) && r.checkName == s.checkName
    ensures Chosen(day, r) && Chosen(day, s) && r in day && s in day && r.createdAt == s.createdAt
  {
    AttemptRowsAre(day);
    NewestTie(AttemptRows(day), r, s);
  }

  lemma TiedTerminal(day: seq<Row>, r: Row, s: Row, rest: seq<Row>) returns (others: seq<Row>)
    requires Newest(AttemptRows(day), r) && Newest(AttemptRows(day), s) && r.checkName == s.checkName
    requires forall x :: x in [r, s] + rest <==> x in day
    ensures Terminal([r, s] + rest) == [r] + others && Terminal([s, r] + rest) == [s] + others
  {
    hide LatestAttempt, LatestPerCheck, AttemptRows;
    var front := [r, s] + rest;
    TiedRows(day, r, s);
    SameAttempt(day, front);
    AttemptRowsAre(day);
    AttemptRowsAre(front);
    var u := AttemptFront(r, s, rest);
    forall x | x in u && x.checkName == r.checkName ensures StringLe(x.createdAt, r.createdAt) {
      assert x in AttemptRows(front);
      assert x in AttemptRows(day);
    }
    others := TieKeepsFirst(r, s, u);
  }

  /** The order of the rows is irrelevant exactly when ties agree. */
  lemma OrderExactly(rows: seq<Row>, dateOf: DateOf)
    ensures (forall shuffled :: multiset(shuffled) == multiset(rows) ==> Trend(shuffled, dateOf) == Trend(rows, dateOf))
      <==> DailyTiesAgree(rows, dateOf)
  {
    hide PointOf, Trend, Newest, AttemptRows;
    if DailyTiesAgree(rows, dateOf) {
      forall shuffled | multiset(shuffled) == multiset(rows) ensures Trend(shuffled, dateOf) == Trend(rows, dateOf) {
        TrendPermutation(rows, shuffled, dateOf);
      }
    } else {
      var d :| !TiesAgree(AttemptRows(DayRows(rows, d, dateOf)));
      var r, s :| Newest(AttemptRows(DayRows(rows, d, dateOf)), r) && Newest(AttemptRows(DayRows(rows, d, dateOf)), s)
        && r.checkName == s.checkName && r.score != s.score;
      var p, q := TieOrderMatters(rows, d, r, s, dateOf);
      SameDates(p, rows, dateOf);
      SameDates(q, rows, dateOf);
      DifferentTrends(p, q, d, dateOf);
    }
  }

  lemma SameDates(s: seq<Row>, t: seq<Row>, dateOf: DateOf)
    requires multiset(s) == multiset(t)
    ensures DatesOf(s, dateOf) == DatesOf(t, dateOf)
  {
    SameMultiset(s, t);
  }

  lemma DifferentTrends(p: seq<Row>, q: seq<Row>, d: int, dateOf: DateOf)
    requires DatesOf(p, dateOf) == DatesOf(q, dateOf) && d in DatesOf(p, dateOf)
    requires PointOf(p, d, dateOf) != PointOf(q, d, dateOf)
    ensures Trend(p, dateOf) != Trend(q, dateOf)
  {
    hide PointOf, DatesOf, SortedDates;
    var dates := SortedDates(DatesOf(p, dateOf));
    SortedDatesFacts(DatesOf(p, dateOf));
    var k :| 0 <= k < |dates| && dates[k] == d;
    assert Trend(p, dateOf)[k] != Trend(q, dateOf)[k];
  }
}
