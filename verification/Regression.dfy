/** Battery means and the regression verdict of `src/eval/curve.py`, and how they react to scores. */
module Regression {
  import opened Lists
  import opened Options
  import opened Sums
  import opened TerminalState
  import opened Curve

  datatype BatteryPoint = BatteryPoint(date: int, meanScore: real, nGoals: nat)

  /** The rows fetched for each goal of the battery, goal by goal. */
  type Battery = seq<seq<Row>>

  function BatteryDates(goals: Battery, dateOf: DateOf): set<int>
  {
    if goals == [] then {} else
    BatteryDates(goals[..|goals| - 1], dateOf) + DatesOf(goals[|goals| - 1], dateOf)
  }

  /** The means of the goals that ran on day `d`, in goal order. */
  function NightMeans(goals: Battery, d: int, dateOf: DateOf): seq<real>
  {
    if goals == [] then [] else
    var goal := goals[|goals| - 1];
    NightMeans(goals[..|goals| - 1], d, dateOf)
    + if d in DatesOf(goal, dateOf) then [PointOf(goal, d, dateOf).meanScore] else []
  }

  function NightPoint(goals: Battery, d: int, dateOf: DateOf): BatteryPoint
  {
    BatteryPoint(d, Mean(NightMeans(goals, d, dateOf)), |NightMeans(goals, d, dateOf)|)
  }

  function BatteryTrend(goals: Battery, dateOf: DateOf): (points: seq<BatteryPoint>)
    ensures |points| == |SortedDates(BatteryDates(goals, dateOf))|
    ensures forall i :: 0 <= i < |points| ==>
      points[i] == NightPoint(goals, SortedDates(BatteryDates(goals, dateOf))[i], dateOf)
  {
    var dates := SortedDates(BatteryDates(goals, dateOf));
    seq(|dates|, i requires 0 <= i < |dates| => NightPoint(goals, dates[i], dateOf))
  }

  /** The goal has a row on day `d`. */
  ghost function RanOn(d: int, dateOf: DateOf): seq<Row> -> bool
  {
    (goal: seq<Row>) => HasRowOn(goal, d, dateOf)
  }

  /** The goal's own point mean on day `d`. */
  ghost function GoalMean(d: int, dateOf: DateOf): seq<Row> -> real
  {
    (goal: seq<Row>) => PointOf(goal, d, dateOf).meanScore
  }

  /** One point for each night on which some goal ran, ascending, with the number of these goals and the mean of their
      own point means. */
  ghost predicate IsBattery(points: seq<BatteryPoint>, goals: Battery, dateOf: DateOf)
  {
    && (forall i, j :: 0 <= i < j < |points| ==> points[i].date < points[j].date)
    && (forall g, d :: 0 <= g < |goals| && HasRowOn(goals[g], d, dateOf) ==>
          exists i :: 0 <= i < |points| && points[i].date == d)
    && (forall i :: 0 <= i < |points| ==> IsNight(points[i], goals, dateOf))
  }

  ghost predicate IsNight(point: BatteryPoint, goals: Battery, dateOf: DateOf)
  {
    var ran := Filter(goals, RanOn(point.date, dateOf));
    ran != [] && point.nGoals == |ran| && IsMean(point.meanScore, ran, GoalMean(point.date, dateOf))
  }

  lemma {:induction false} NightMeansAre(goals: Battery, d: int, dateOf: DateOf)
    ensures NightMeans(goals, d, dateOf) == Map(Filter(goals, RanOn(d, dateOf)), GoalMean(d, dateOf))
  {
    hide PointOf, DatesOf, HasRowOn;
    if goals != [] {
      var n := |goals| - 1;
      NightMeansAre(goals[..n], d, dateOf);
      DateIsDay(goals[n], d, dateOf);
      FilterLast(goals, RanOn(d, dateOf));
      MapConcat(Filter(goals[..n], RanOn(d, dateOf)), [goals[n]], GoalMean(d, dateOf));
    }
  }

  lemma NightIsNight(goals: Battery, d: int, dateOf: DateOf)
    requires d in BatteryDates(goals, dateOf)
    ensures IsNight(NightPoint(goals, d, dateOf), goals, dateOf)
  {
    hide PointOf, DatesOf, HasRowOn, Filter, SumBy;
    var ran := Filter(goals, RanOn(d, dateOf));
    NightMeansAre(goals, d, dateOf);
    NoNight(goals, d, dateOf);
    QuotientIsMean(ran, GoalMean(d, dateOf));
    SumEq(NightMeans(goals, d, dateOf), Identity, ran, GoalMean(d, dateOf));
  }

  lemma {:induction false} DateOfSome(goals: Battery, g: nat, d: int, dateOf: DateOf)
    requires g < |goals| && HasRowOn(goals[g], d, dateOf)
    ensures d in BatteryDates(goals, dateOf)
  {
    hide HasRowOn;
    var n := |goals| - 1;
    if g < n {
      DateOfSome(goals[..n], g, d, dateOf);
    } else {
      DateIsDay(goals[n], d, dateOf);
    }
  }

  lemma TrendIsBattery(goals: Battery, dateOf: DateOf)
    ensures IsBattery(BatteryTrend(goals, dateOf), goals, dateOf)
  {
    hide IsNight, BatteryDates, SortedDates, HasRowOn, Mean, NightMeans;
    var dates := SortedDates(BatteryDates(goals, dateOf));
    var points := BatteryTrend(goals, dateOf);
    SortedDatesFacts(BatteryDates(goals, dateOf));
    forall i | 0 <= i < |points| ensures points[i].date == dates[i] && IsNight(points[i], goals, dateOf) {
      assert dates[i] in dates;
      NightIsNight(goals, dates[i], dateOf);
    }
    forall g, d | 0 <= g < |goals| && HasRowOn(goals[g], d, dateOf)
      ensures exists i :: 0 <= i < |points| && points[i].date == d
    {
      DateOfSome(goals, g, d, dateOf);
      assert d in dates;
      var i :| 0 <= i < |dates| && dates[i] == d;
      assert points[i].date == d;
    }
  }

  /** The per-night lists after the points of the first goals have been appended. */
  ghost predicate Collected(perGoal: map<int, seq<real>>, goals: Battery, dateOf: DateOf)
  {
    && perGoal.Keys == BatteryDates(goals, dateOf)
    && forall d :: d in perGoal ==> perGoal[d] == NightMeans(goals, d, dateOf)
  }

  lemma {:induction false} NoNight(goals: Battery, d: int, dateOf: DateOf)
    ensures d !in BatteryDates(goals, dateOf) <==> NightMeans(goals, d, dateOf) == []
  {
    if goals != [] {
      NoNight(goals[..|goals| - 1], d, dateOf);
    }
  }

  /** Appends one goal's points to the per-night lists. */
  method AppendTrend(perGoal: map<int, seq<real>>, points: seq<CurvePoint>) returns (r: map<int, seq<real>>)
    requires forall i, j :: 0 <= i < j < |points| ==> points[i].date < points[j].date
    ensures r.Keys == perGoal.Keys + set i | 0 <= i < |points| :: points[i].date
    ensures forall d :: d in perGoal && (forall i :: 0 <= i < |points| ==> points[i].date != d) ==> r[d] == perGoal[d]
    ensures forall i :: 0 <= i < |points| ==>
      r[points[i].date] == (if points[i].date in perGoal then perGoal[points[i].date] else []) + [points[i].meanScore]
  {
    r := perGoal;
    for k := 0 to |points|
      invariant r.Keys == perGoal.Keys + set i | 0 <= i < k :: points[i].date
      invariant forall d :: d in perGoal && (forall i :: 0 <= i < k ==> points[i].date != d) ==> r[d] == perGoal[d]
      invariant forall i :: 0 <= i < k ==>
        r[points[i].date] == (if points[i].date in perGoal then perGoal[points[i].date] else []) + [points[i].meanScore]
    {
      var p := points[k];
      r := r[p.date := (if p.date in r then r[p.date] else []) + [p.meanScore]];
    }
  }

  method ComputeBatteryTrend(goals: Battery, dateOf: DateOf) returns (points: seq<BatteryPoint>)
    ensures IsBattery(points, goals, dateOf)
    ensures points == BatteryTrend(goals, dateOf)
  {
    TrendIsBattery(goals, dateOf);
    hide IsBattery, Trend, SortedDates, DatesOf, Mean;
    var perGoal: map<int, seq<real>> := map[];
    for g := 0 to |goals|
      invariant Collected(perGoal, goals[..g], dateOf)
    {
      var trend := PerGoalTrend(goals[g], dateOf);
      SortedDatesFacts(DatesOf(goals[g], dateOf));
      ghost var before := perGoal;
      perGoal := AppendTrend(perGoal, trend);
      CollectedNext(before, perGoal, goals, g, trend, dateOf);
    }
    assert goals[..|goals|] == goals;
    var dates := SortedDates(perGoal.Keys);
    SortedDatesFacts(perGoal.Keys);
    assert forall i :: 0 <= i < |dates| ==> dates[i] in dates;
    points := seq(|dates|, i requires 0 <= i < |dates| && dates[i] in perGoal =>
      BatteryPoint(dates[i], Mean(perGoal[dates[i]]), |perGoal[dates[i]]|));
    assert points == BatteryTrend(goals, dateOf);
  }

  lemma CollectedNext(before: map<int, seq<real>>, after: map<int, seq<real>>, goals: Battery, g: nat,
                      trend: seq<CurvePoint>, dateOf: DateOf)
    requires g < |goals| && Collected(before, goals[..g], dateOf) && trend == Trend(goals[g], dateOf)
    requires after.Keys == before.Keys + set i | 0 <= i < |trend| :: trend[i].date
    requires forall d :: d in before && (forall i :: 0 <= i < |trend| ==> trend[i].date != d) ==> after[d] == before[d]
    requires forall i :: 0 <= i < |trend| ==>
      after[trend[i].date] == (if trend[i].date in before then before[trend[i].date] else []) + [trend[i].meanScore]
    ensures Collected(after, goals[..g + 1], dateOf)
  {
    hide Trend, PointOf, SortedDates, DatesOf, Filter;
    TrendDates(goals[g], trend, dateOf);
    assert goals[..g + 1][..g] == goals[..g];
    forall d | d in after ensures after[d] == NightMeans(goals[..g + 1], d, dateOf) {
      NoNight(goals[..g], d, dateOf);
      if d in DatesOf(goals[g], dateOf) {
        var i :| 0 <= i < |trend| && trend[i].date == d;
      }
    }
  }

  lemma TrendDates(rows: seq<Row>, trend: seq<CurvePoint>, dateOf: DateOf)
    requires trend == Trend(rows, dateOf)
    ensures (set i | 0 <= i < |trend| :: trend[i].date) == DatesOf(rows, dateOf)
    ensures forall i :: 0 <= i < |trend| ==> trend[i] == PointOf(rows, trend[i].date, dateOf)
  {
    var dates := SortedDates(DatesOf(rows, dateOf));
    SortedDatesFacts(DatesOf(rows, dateOf));
    forall d ensures d in DatesOf(rows, dateOf) <==> d in set i | 0 <= i < |trend| :: trend[i].date {
      if d in DatesOf(rows, dateOf) {
        var i :| 0 <= i < |dates| && dates[i] == d;
        assert trend[i].date == d;
      }
      if i :| 0 <= i < |trend| && trend[i].date == d {
        assert dates[i] in dates;
      }
    }
  }

  // ---------- The verdict ----------

  datatype Thresholds = Thresholds(floor: real, delta: real, minPoints: int)

  datatype Verdict = Verdict(regressed: bool, inconclusive: bool, current: Option<real>, bestPrior: Option<real>,
                             delta: Option<real>)

  /** The first point of largest mean. */
  function BestOf(points: seq<BatteryPoint>): BatteryPoint
    requires points != []
  {
    if |points| == 1 then points[0] else
    var rest := BestOf(points[..|points| - 1]);
    if rest.meanScore < points[|points| - 1].meanScore then points[|points| - 1] else rest
  }

  /** The high-water mark before the latest night. */
  function BestSoFar(points: seq<BatteryPoint>): Option<BatteryPoint>
  {
    if |points| < 2 then None else Some(BestOf(points[..|points| - 1]))
  }

  function DetectRegression(points: seq<BatteryPoint>, t: Thresholds): Verdict
  {
    var n := |points|;
    if n < t.minPoints || n < 2 then
      Verdict(false, true, if points == [] then None else Some(points[n - 1].meanScore), None, None)
    else
      var current := points[n - 1].meanScore;
      var best := BestSoFar(points);
      var prior := if best.Some? then best.value.meanScore else current;
      var delta := Round4(prior - current);
      Verdict(current < t.floor && delta >= t.delta, false, Some(Round4(current)), Some(Round4(prior)), Some(delta))
  }

  lemma {:induction false} BestOfIsMax(points: seq<BatteryPoint>)
    requires points != []
    ensures BestOf(points) in points
    ensures forall i :: 0 <= i < |points| ==> points[i].meanScore <= BestOf(points).meanScore
  {
    if |points| > 1 {
      var n := |points| - 1;
      BestOfIsMax(points[..n]);
      assert points == points[..n] + [points[n]];
    }
  }

  /** A regression is called exactly when enough nights exist, the latest is under the floor, and some earlier
      night was better by at least the rounded delta. */
  lemma RegressedExactly(points: seq<BatteryPoint>, t: Thresholds)
    ensures var n := |points|;
      DetectRegression(points, t).regressed <==>
        (n >= t.minPoints && n >= 2 && points[n - 1].meanScore < t.floor
         && exists i :: 0 <= i < n - 1 && Round4(points[i].meanScore - points[n - 1].meanScore) >= t.delta)
  {
    hide Round4, BestOf;
    var n := |points|;
    if n >= 2 {
      var prior, current := points[..n - 1], points[n - 1].meanScore;
      BestOfIsMax(prior);
      var best := BestOf(prior);
      var k :| 0 <= k < |prior| && prior[k] == best;
      assert points[k] == best;
      forall i | 0 <= i < n - 1 ensures Round4(points[i].meanScore - current) <= Round4(best.meanScore - current) {
        assert prior[i] == points[i];
        Round4Monotone(points[i].meanScore - current, best.meanScore - current);
      }
    }
  }

  /** No night before the latest is above night `i`. */
  ghost predicate BestNight(points: seq<BatteryPoint>, i: nat)
  {
    i < |points| - 1 && forall j :: 0 <= j < |points| - 1 ==> points[j].meanScore <= points[i].meanScore
  }

  /** What a verdict reports: nothing to compare when nights are too few, otherwise the latest mean, the highest
      earlier mean and their difference, each rounded. */
  lemma VerdictReports(points: seq<BatteryPoint>, t: Thresholds) returns (best: nat)
    ensures var n, v := |points|, DetectRegression(points, t);
      && (v.inconclusive <==> n < t.minPoints || n < 2)
      && (v.inconclusive ==> !v.regressed && v.bestPrior.None? && v.delta.None?)
      && (v.inconclusive ==> v.current == if points == [] then None else Some(points[n - 1].meanScore))
      && (!v.inconclusive ==> BestNight(points, best) && v.current == Some(Round4(points[n - 1].meanScore)))
      && (!v.inconclusive ==> v.bestPrior == Some(Round4(points[best].meanScore)))
      && (!v.inconclusive ==> v.delta == Some(Round4(points[best].meanScore - points[n - 1].meanScore)))
  {
    hide Round4, BestOf;
    var n := |points|;
    best := 0;
    if n >= 2 {
      var prior := points[..n - 1];
      BestOfIsMax(prior);
      best :| 0 <= best < |prior| && prior[best] == BestOf(prior);
      assert points[best] == BestOf(prior);
      assert forall j :: 0 <= j < n - 1 ==> prior[j] == points[j];
    }
  }

  /** Raising the latest night and lowering earlier ones can only clear a regression. */
  lemma VerdictMonotone(p: seq<BatteryPoint>, q: seq<BatteryPoint>, t: Thresholds)
    requires |p| == |q|
    requires p != [] ==> p[|p| - 1].meanScore <= q[|q| - 1].meanScore
    requires forall i :: 0 <= i < |p| - 1 ==> q[i].meanScore <= p[i].meanScore
    ensures DetectRegression(q, t).regressed ==> DetectRegression(p, t).regressed
  {
    hide Round4, DetectRegression;
    RegressedExactly(p, t);
    RegressedExactly(q, t);
    if DetectRegression(q, t).regressed {
      var n := |q|;
      var i :| 0 <= i < n - 1 && Round4(q[i].meanScore - q[n - 1].meanScore) >= t.delta;
      Round4Monotone(q[i].meanScore - q[n - 1].meanScore, p[i].meanScore - p[n - 1].meanScore);
    }
  }

  /** No earlier night is above the latest. */
  ghost predicate EndsAtPeak(points: seq<BatteryPoint>)
  {
    forall i :: 0 <= i < |points| - 1 ==> points[i].meanScore <= points[|points| - 1].meanScore
  }

  /** With a positive threshold, a latest night at or above every earlier one is never a regression. */
  lemma PeakNeverRegresses(points: seq<BatteryPoint>, t: Thresholds)
    requires t.delta > 0.0 && EndsAtPeak(points)
    ensures !DetectRegression(points, t).regressed
  {
    hide DetectRegression;
    RegressedExactly(points, t);
    RoundZero();
    forall i | 0 <= i < |points| - 1 ensures Round4(points[i].meanScore - points[|points| - 1].meanScore) <= 0.0 {
      Round4Monotone(points[i].meanScore - points[|points| - 1].meanScore, 0.0);
    }
  }

  /** A curve that scores between 0 and 1 can give: ascending nights on which some goal ran. */
  ghost predicate Possible(points: seq<BatteryPoint>)
  {
    && (forall i :: 0 <= i < |points| ==> 0.0 <= points[i].meanScore <= 1.0 && points[i].nGoals >= 1)
    && (forall i, j :: 0 <= i < j < |points| ==> points[i].date < points[j].date)
  }

  /** A curve that ends at its peak is safe from the verdict exactly when the threshold is positive, or the floor is
      at or below 0 and so never undercut. */
  lemma PeakExactly(t: Thresholds)
    ensures (forall points :: Possible(points) && EndsAtPeak(points) ==> !DetectRegression(points, t).regressed)
      <==> t.delta > 0.0 || t.floor <= 0.0
  {
    hide DetectRegression, Round4;
    if t.delta > 0.0 || t.floor <= 0.0 {
      forall points | Possible(points) && EndsAtPeak(points) ensures !DetectRegression(points, t).regressed {
        if t.delta > 0.0 {
          PeakNeverRegresses(points, t);
        } else {
          RegressedExactly(points, t);
        }
      }
    } else {
      var n: nat := if t.minPoints > 2 then t.minPoints else 2;
      var points := seq(n, i => BatteryPoint(i, 0.0, 1));
      RegressedExactly(points, t);
      RoundZero();
      assert Round4(points[0].meanScore - points[n - 1].meanScore) >= t.delta;
      assert Possible(points) && EndsAtPeak(points);
    }
  }

  lemma RoundZero()
    ensures Round4(0.0) == 0.0
  {
    assert RoundHalfEven(0.0) == 0;
  }

  // ---------- Raising row scores ----------

  ghost predicate RaisedRow(r: Row, s: Row)
  {
    s == r.(score := s.score) && r.score <= s.score
  }

  /** The same rows, some with higher scores. */
  ghost predicate Raised(rows: seq<Row>, raised: seq<Row>)
  {
    |rows| == |raised| && forall i :: 0 <= i < |rows| ==> RaisedRow(rows[i], raised[i])
  }

  ghost predicate ScoreBlind(keep: Row -> bool)
  {
    forall r, s :: RaisedRow(r, s) ==> keep(r) == keep(s)
  }

  lemma {:induction false} RaisedFilter(rows: seq<Row>, raised: seq<Row>, keep: Row -> bool)
    requires Raised(rows, raised) && ScoreBlind(keep)
    ensures Raised(Filter(rows, keep), Filter(raised, keep))
  {
    if rows != [] {
      var n := |rows| - 1;
      RaisedFilter(rows[..n], raised[..n], keep);
      assert RaisedRow(rows[n], raised[n]);
    }
  }

  lemma {:induction false} RaisedAttempt(rows: seq<Row>, raised: seq<Row>)
    requires Raised(rows, raised)
    ensures LatestAttempt(rows) == LatestAttempt(raised)
  {
    if rows != [] {
      RaisedAttempt(rows[..|rows| - 1], raised[..|rows| - 1]);
    }
  }

  lemma {:induction false} RaisedKeep(best: seq<Row>, higher: seq<Row>, r: Row, s: Row)
    requires Raised(best, higher) && RaisedRow(r, s)
    ensures Raised(Keep(best, r), Keep(higher, s))
  {
    if best != [] {
      RaisedKeep(best[1..], higher[1..], r, s);
    }
  }

  lemma {:induction false} RaisedLatest(rows: seq<Row>, raised: seq<Row>)
    requires Raised(rows, raised)
    ensures Raised(LatestPerCheck(rows), LatestPerCheck(raised))
  {
    if rows != [] {
      var n := |rows| - 1;
      RaisedLatest(rows[..n], raised[..n]);
      RaisedKeep(LatestPerCheck(rows[..n]), LatestPerCheck(raised[..n]), rows[n], raised[n]);
    }
  }

  lemma RaisedTerminal(rows: seq<Row>, raised: seq<Row>)
    requires Raised(rows, raised)
    ensures Raised(Terminal(rows), Terminal(raised))
  {
    RaisedAttempt(rows, raised);
    RaisedFilter(rows, raised, OfAttempt(LatestAttempt(rows)));
    RaisedLatest(AttemptRows(rows), AttemptRows(raised));
  }

  /** Raising scores keeps a goal's days and raises, or keeps, each day's mean. */
  lemma RaisedPoint(rows: seq<Row>, raised: seq<Row>, d: int, dateOf: DateOf)
    requires Raised(rows, raised)
    ensures DatesOf(rows, dateOf) == DatesOf(raised, dateOf)
    ensures PointOf(rows, d, dateOf).meanScore <= PointOf(raised, d, dateOf).meanScore
  {
    RaisedFilter(rows, raised, OnDay(d, dateOf));
    RaisedTerminal(DayRows(rows, d, dateOf), DayRows(raised, d, dateOf));
    MeanLe(ScoresOf(Terminal(DayRows(rows, d, dateOf))), ScoresOf(Terminal(DayRows(raised, d, dateOf))));
    RaisedDates(rows, raised, dateOf);
  }

  lemma RaisedDates(rows: seq<Row>, raised: seq<Row>, dateOf: DateOf)
    requires Raised(rows, raised)
    ensures DatesOf(rows, dateOf) == DatesOf(raised, dateOf)
  {
    forall d ensures d in DatesOf(rows, dateOf) <==> d in DatesOf(raised, dateOf) {
      RaisedFilter(rows, raised, OnDay(d, dateOf));
      NoDayRows(rows, d, dateOf);
      NoDayRows(raised, d, dateOf);
    }
  }

  /** The two lists agree on day `d`. */
  ghost predicate SameDay(rows: seq<Row>, others: seq<Row>, d: int, dateOf: DateOf)
  {
    DayRows(rows, d, dateOf) == DayRows(others, d, dateOf)
  }

  ghost predicate RaisedBattery(goals: Battery, raised: Battery)
  {
    |goals| == |raised| && forall g :: 0 <= g < |goals| ==> Raised(goals[g], raised[g])
  }

  ghost predicate SameNight(goals: Battery, others: Battery, d: int, dateOf: DateOf)
  {
    |goals| == |others| && forall g :: 0 <= g < |goals| ==> SameDay(goals[g], others[g], d, dateOf)
  }

  lemma {:induction false} RaisedNight(goals: Battery, raised: Battery, d: int, dateOf: DateOf)
    requires RaisedBattery(goals, raised)
    ensures BatteryDates(goals, dateOf) == BatteryDates(raised, dateOf)
    ensures |NightMeans(goals, d, dateOf)| == |NightMeans(raised, d, dateOf)|
    ensures forall i :: 0 <= i < |NightMeans(goals, d, dateOf)| ==>
      NightMeans(goals, d, dateOf)[i] <= NightMeans(raised, d, dateOf)[i]
    ensures SameNight(goals, raised, d, dateOf) ==> NightMeans(goals, d, dateOf) == NightMeans(raised, d, dateOf)
  {
    if goals != [] {
      var n := |goals| - 1;
      RaisedNight(goals[..n], raised[..n], d, dateOf);
      RaisedPoint(goals[n], raised[n], d, dateOf);
    }
  }

  /** Night means of a raised battery: at least as high everywhere, equal on untouched nights. */
  lemma RaisedTrend(goals: Battery, raised: Battery, dateOf: DateOf)
    requires RaisedBattery(goals, raised)
    ensures var p, q := BatteryTrend(goals, dateOf), BatteryTrend(raised, dateOf);
      && |p| == |q|
      && forall i :: 0 <= i < |p| ==>
           && p[i].date == q[i].date && p[i].meanScore <= q[i].meanScore
           && (SameNight(goals, raised, p[i].date, dateOf) ==> p[i].meanScore == q[i].meanScore)
  {
    RaisedNight(goals, raised, 0, dateOf);
    var dates := SortedDates(BatteryDates(goals, dateOf));
    forall i | 0 <= i < |dates|
      ensures NightPoint(goals, dates[i], dateOf).meanScore <= NightPoint(raised, dates[i], dateOf).meanScore
      ensures SameNight(goals, raised, dates[i], dateOf)
        ==> NightPoint(goals, dates[i], dateOf).meanScore == NightPoint(raised, dates[i], dateOf).meanScore
    {
      RaisedNight(goals, raised, dates[i], dateOf);
      MeanLe(NightMeans(goals, dates[i], dateOf), NightMeans(raised, dates[i], dateOf));
    }
  }

  ghost predicate IsLatest(goals: Battery, d: int, dateOf: DateOf)
  {
    d in BatteryDates(goals, dateOf) && forall e :: e in BatteryDates(goals, dateOf) ==> e <= d
  }

  lemma LatestIsLast(goals: Battery, d: int, dateOf: DateOf)
    requires IsLatest(goals, d, dateOf)
    ensures var p := BatteryTrend(goals, dateOf);
      && p != [] && p[|p| - 1].date == d
      && forall i :: 0 <= i < |p| - 1 ==> p[i].date in BatteryDates(goals, dateOf) && p[i].date != d
  {
    hide SortedDates, BatteryDates, NightMeans, Mean;
    LastDate(BatteryDates(goals, dateOf), d);
  }

  lemma LastDate(s: set<int>, d: int)
    requires d in s && forall e :: e in s ==> e <= d
    ensures var dates := SortedDates(s);
      dates != [] && dates[|dates| - 1] == d && forall i :: 0 <= i < |dates| - 1 ==> dates[i] in s && dates[i] != d
  {
    hide SortedDates;
    SortedDatesFacts(s);
    var dates := SortedDates(s);
    assert d in dates;
    var last := |dates| - 1;
    forall i | 0 <= i < last ensures dates[i] in s && dates[i] < dates[last] {
      assert dates[i] in dates;
    }
    assert dates[last] in dates;
  }

  /** Raising scores on the latest night only never turns `regressed` on. */
  lemma RaisingLatestNight(goals: Battery, raised: Battery, d: int, t: Thresholds, dateOf: DateOf)
    requires RaisedBattery(goals, raised) && IsLatest(goals, d, dateOf)
    requires forall e :: e in BatteryDates(goals, dateOf) && e != d ==> SameNight(goals, raised, e, dateOf)
    ensures DetectRegression(BatteryTrend(raised, dateOf), t).regressed
      ==> DetectRegression(BatteryTrend(goals, dateOf), t).regressed
  {
    RaisedTrend(goals, raised, dateOf);
    LatestIsLast(goals, d, dateOf);
    VerdictMonotone(BatteryTrend(goals, dateOf), BatteryTrend(raised, dateOf), t);
  }

  /** Raising scores on earlier nights only never turns it off. */
  lemma RaisingEarlierNights(goals: Battery, raised: Battery, d: int, t: Thresholds, dateOf: DateOf)
    requires RaisedBattery(goals, raised) && IsLatest(goals, d, dateOf) && SameNight(goals, raised, d, dateOf)
    ensures DetectRegression(BatteryTrend(goals, dateOf), t).regressed
      ==> DetectRegression(BatteryTrend(raised, dateOf), t).regressed
  {
    RaisedTrend(goals, raised, dateOf);
    LatestIsLast(goals, d, dateOf);
    VerdictMonotone(BatteryTrend(raised, dateOf), BatteryTrend(goals, dateOf), t);
  }
}
