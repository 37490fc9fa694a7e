/** Goal scores of `scripts/run_metrics.py` and `scripts/curve_score.py`, which repeat the curve's scoring rule. */
module Scoring {
  import opened Lists
  import opened Options
  import opened Order
  import opened Sums
  import opened TerminalState
  import opened Curve
  import opened RunIds
  import opened VerifyPasses

  // ---------- The scoring rule, second and third copy ----------

  /** `_goal_score`: mean, number of checks, attempt. */
  function GoalScore(rows: seq<Row>): (real, nat, Option<string>)
  {
    if rows == [] then (0.0, 0, None) else
    var latest := Terminal(rows);
    if latest == [] then (0.0, 0, LatestAttempt(rows))
    else (SumBy(ScoresOf(latest), Identity) / |latest| as real, |latest|, LatestAttempt(rows))
  }

  /** The mean of the terminal rows, their number, and the latest attempt. */
  lemma GoalScoreExactly(rows: seq<Row>)
    ensures IsMean(GoalScore(rows).0, Terminal(rows), ScoreOfRow())
    ensures GoalScore(rows).1 == |Terminal(rows)| && GoalScore(rows).2 == LatestAttempt(rows)
  {
    var latest := Terminal(rows);
    TerminalNotEmpty(rows);
    if rows == [] {
      NothingIn(latest);
    }
    QuotientIsMean(latest, ScoreOfRow());
    SumEq(ScoresOf(latest), Identity, latest, ScoreOfRow());
  }

  /** On rows of one day the curve's point and the goal score are the same mean, check count and attempt. */
  lemma CopiesAgree(rows: seq<Row>, d: int, dateOf: DateOf)
    requires rows != [] && forall r :: r in rows ==> RowDate(r, dateOf) == Some(d)
    ensures Trend(rows, dateOf) == [CurvePoint(d, GoalScore(rows).2, GoalScore(rows).0, GoalScore(rows).1)]
  {
    WholeDay(rows, d, dateOf);
    TerminalNotEmpty(rows);
    assert rows[0] in rows;
    assert DatesOf(rows, dateOf) == {d};
    OneDate(d);
  }

  lemma WholeDay(rows: seq<Row>, d: int, dateOf: DateOf)
    requires forall r :: r in rows ==> RowDate(r, dateOf) == Some(d)
    ensures DayRows(rows, d, dateOf) == rows
  {
    FilterAll(rows, OnDay(d, dateOf));
  }

  lemma OneDate(d: int)
    ensures SortedDates({d}) == [d]
  {
    assert {d} - {d} == {};
  }

  // ---------- Convergence ----------

  const NON_CONVERGENT := {"budget_exhausted", "timeout", "failed", "cancelled"}

  function CoverageRatio(observed: set<string>, expected: set<string>): real
  {
    if expected == {} then 0.0 else |observed * expected| as real / |expected| as real
  }

  /** What the text of a reason is made of: coverage with checks seen and declared, and the status that cut the
      run off. */
  datatype Reason = Reason(shortfall: Option<(real, nat, nat)>, status: Option<string>)

  /** The coverage when the goal has declared checks, and the reasons against convergence. */
  function Convergence(goalId: string, observed: set<string>, expected: map<string, set<string>>,
                       runId: string, status: map<string, string>): (Option<real>, Reason)
  {
    var declared := if goalId in expected then expected[goalId] else {};
    var coverage := if declared != {} then Some(CoverageRatio(observed, declared)) else None;
    var shortfall := if coverage.Some? && coverage.value < 1.0
                     then Some((coverage.value, |observed * declared|, |declared|)) else None;
    var cut := if runId in status && status[runId] in NON_CONVERGENT then Some(status[runId]) else None;
    (coverage, Reason(shortfall, cut))
  }

  predicate NoReason(r: Reason)
  {
    r.shortfall.None? && r.status.None?
  }

  /** The coverage times the number of declared checks is the number of those observed. */
  ghost predicate IsCoverage(coverage: real, observed: set<string>, declared: set<string>)
  {
    coverage * |declared| as real == |set x | x in declared && x in observed| as real
  }

  lemma CoverageIs(goalId: string, observed: set<string>, expected: map<string, set<string>>)
    ensures goalId in expected && expected[goalId] != {} ==>
      IsCoverage(CoverageRatio(observed, expected[goalId]), observed, expected[goalId])
  {
    if goalId in expected && expected[goalId] != {} {
      var declared := expected[goalId];
      assert (set x | x in declared && x in observed) == observed * declared;
      Quotient(|observed * declared| as real, |declared| as real);
    }
  }

  method GoalConverged(goalId: string, observed: set<string>, expected: map<string, set<string>>,
                       runId: string, status: map<string, string>)
    returns (converged: bool, coverage: Option<real>, reason: Reason)
    ensures (coverage, reason) == Convergence(goalId, observed, expected, runId, status)
    ensures converged <==> NoReason(reason)
    ensures coverage.Some? <==> goalId in expected && expected[goalId] != {}
    ensures coverage.Some? ==> IsCoverage(coverage.value, observed, expected[goalId])
  {
    CoverageIs(goalId, observed, expected);
    hide IsCoverage;
    reason := Reason(None, None);
    coverage := None;
    if goalId in expected && expected[goalId] != {} {
      var declared := expected[goalId];
      coverage := Some(CoverageRatio(observed, declared));
      if coverage.value < 1.0 {
        reason := reason.(shortfall := Some((coverage.value, |observed * declared|, |declared|)));
      }
    }
    if runId in status && status[runId] in NON_CONVERGENT {
      reason := reason.(status := Some(status[runId]));
    }
    converged := NoReason(reason);
  }

  lemma CoverageIsFull(observed: set<string>, expected: set<string>)
    requires expected != {}
    ensures CoverageRatio(observed, expected) >= 1.0 <==> expected <= observed
  {
    var both := observed * expected;
    var n, m := |expected|, |both|;
    assert expected == both + (expected - both);
    assert n == m + |expected - both|;
    assert expected <= observed <==> expected - both == {};
    FullFraction(m, n);
  }

  lemma FullFraction(m: nat, n: nat)
    requires n >= 1
    ensures m as real / n as real >= 1.0 <==> m >= n
  {
    Quotient(m as real, n as real);
    TimesLess(m as real / n as real, 1.0, n as real);
  }

  /** Converged exactly when every declared check was observed and the run was not cut off. */
  lemma ConvergedExactly(goalId: string, observed: set<string>, expected: map<string, set<string>>,
                         runId: string, status: map<string, string>)
    ensures NoReason(Convergence(goalId, observed, expected, runId, status).1) <==>
      && (goalId in expected ==> expected[goalId] <= observed)
      && (runId in status ==> status[runId] != "budget_exhausted" && status[runId] != "timeout")
      && (runId in status ==> status[runId] != "failed" && status[runId] != "cancelled")
  {
    if goalId in expected && expected[goalId] != {} {
      CoverageIsFull(observed, expected[goalId]);
    }
  }

  // ---------- score_goals ----------

  datatype GoalEntry = GoalEntry(goalId: string, runId: string, score: real, nChecks: nat, nRows: nat, passes: int,
                                 attemptId: Option<string>, converged: bool, coverage: Option<real>,
                                 reason: Reason)

  datatype ScoreSummary = ScoreSummary(batteryMean: real, nGoalsRan: nat, perGoal: seq<GoalEntry>,
                                       batteryMeanConverged: Option<real>, nGoalsConverged: nat, excluded: seq<string>)

  function HasKey(key: string): Row -> bool
  {
    (r: Row) => SpecKey(r.runId) == key
  }

  /** The goal keys in order of first appearance. */
  function KeysOf(rows: seq<Row>): seq<string>
  {
    if rows == [] then [] else
    var keys := KeysOf(rows[..|rows| - 1]);
    var k := SpecKey(rows[|rows| - 1].runId);
    if k in keys then keys else keys + [k]
  }

  function GroupOf(rows: seq<Row>, key: string): seq<Row>
  {
    Filter(rows, HasKey(key))
  }

  function FirstRunId(rows: seq<Row>): string
  {
    if rows != [] && rows[0].runId.Some? then rows[0].runId.value else ""
  }

  /** The unrounded score of a goal's rows. */
  function RawScore(rows: seq<Row>): real
  {
    GoalScore(rows).0
  }

  function EntryOf(key: string, rows: seq<Row>, expected: map<string, set<string>>, status: map<string,
                   string>): GoalEntry
  {
    var (coverage, reason) := Convergence(key, CheckNames(Terminal(rows)), expected, FirstRunId(rows), status);
    GoalEntry(key, FirstRunId(rows), Round4(RawScore(rows)), |Terminal(rows)|, |rows|, EstimateVerifyPasses(rows),
              LatestAttempt(rows), NoReason(reason),
              if coverage.Some? then Some(Round4(coverage.value)) else None, reason)
  }

  function Scored(rows: seq<Row>): string -> real
  {
    (key: string) => RawScore(GroupOf(rows, key))
  }

  predicate KeyConverged(rows: seq<Row>, key: string, expected: map<string, set<string>>, status: map<string, string>)
  {
    EntryOf(key, GroupOf(rows, key), expected, status).converged
  }

  function Converged(rows: seq<Row>, expected: map<string, set<string>>, status: map<string, string>): string -> bool
  {
    (key: string) => KeyConverged(rows, key, expected, status)
  }

  function Excluded(rows: seq<Row>, expected: map<string, set<string>>, status: map<string, string>): string -> bool
  {
    (key: string) => !KeyConverged(rows, key, expected, status)
  }

  function Entry(rows: seq<Row>, expected: map<string, set<string>>, status: map<string, string>): string -> GoalEntry
  {
    (key: string) => EntryOf(key, GroupOf(rows, key), expected, status)
  }

  function GoalIds(entries: seq<GoalEntry>): seq<string>
  {
    Map(entries, (e: GoalEntry) => e.goalId)
  }

  function Measurable(entries: seq<GoalEntry>, status: map<string, string>): bool
  {
    exists i :: 0 <= i < |entries|
      && (entries[i].coverage.Some? || (entries[i].runId in status && status[entries[i].runId] != ""))
  }

  /** The rows grouped by goal key, keys in order of first appearance. */
  function KeyOfRow(): Row -> string
  {
    (r: Row) => SpecKey(r.runId)
  }

  /** The recovered keys, each where it first occurs. */
  lemma {:induction false} KeysAreDedup(rows: seq<Row>)
    ensures KeysOf(rows) == Dedup(Map(rows, KeyOfRow()))
  {
    if rows != [] {
      var n := |rows| - 1;
      KeysAreDedup(rows[..n]);
      assert Map(rows, KeyOfRow())[..n] == Map(rows[..n], KeyOfRow());
    }
  }

  method GroupByGoal(rows: seq<Row>) returns (keys: seq<string>, groups: map<string, seq<Row>>)
    ensures keys == Dedup(Map(rows, KeyOfRow()))
    ensures keys == KeysOf(rows) && (forall k :: k in groups <==> k in keys)
    ensures forall k :: k in groups ==> groups[k] == GroupOf(rows, k)
  {
    KeysAreDedup(rows);
    keys, groups := [], map[];
    for i := 0 to |rows|
      invariant keys == KeysOf(rows[..i]) && (forall k :: k in groups <==> k in keys)
      invariant forall k :: k in groups ==> groups[k] == GroupOf(rows[..i], k)
    {
      var key := SpecKeyFromRunId(rows[i].runId);
      assert rows[..i + 1][..i] == rows[..i];
      if key !in groups {
        NewKey(rows[..i], key);
        keys := keys + [key];
        groups := groups[key := []];
      }
      groups := groups[key := groups[key] + [rows[i]]];
    }
    assert rows[..|rows|] == rows;
  }

  lemma {:induction false} NewKey(rows: seq<Row>, key: string)
    ensures key !in KeysOf(rows) <==> GroupOf(rows, key) == []
  {
    if rows != [] {
      NewKey(rows[..|rows| - 1], key);
    }
  }

  /** Convergence is measurable when some entry has a coverage or a known run status. */
  lemma MeasurableExactly(entries: seq<GoalEntry>, status: map<string, string>)
    ensures !Measurable(entries, status)
      <==> forall e :: e in entries ==> e.coverage == None && (e.runId in status ==> status[e.runId] == "")
  {
    if !Measurable(entries, status) {
      forall e | e in entries ensures e.coverage == None && (e.runId in status ==> status[e.runId] == "") {
        var i :| 0 <= i < |entries| && entries[i] == e;
      }
    } else {
      var i :| 0 <= i < |entries|
        && (entries[i].coverage.Some? || (entries[i].runId in status && status[entries[i].runId] != ""));
      assert entries[i] in entries;
    }
  }

  /** One pass of the loop of `score_goals`: the entry and the unrounded score of one goal's rows. */
  method ScoreOneGoal(key: string, rows: seq<Row>, expected: map<string, set<string>>, status: map<string, string>)
    returns (entry: GoalEntry, score: real)
    ensures entry == EntryOf(key, rows, expected, status) && score == RawScore(rows)
    ensures rows != [] ==> entry.nChecks > 0
    ensures IsMean(score, Terminal(rows), ScoreOfRow()) && entry.score == Round4(score)
    ensures entry.goalId == key && entry.nChecks == |Terminal(rows)| && entry.nRows == |rows|
    ensures entry.attemptId == LatestAttempt(rows)
    ensures rows != [] && rows[0].runId.Some? ==> entry.runId == rows[0].runId.value
    ensures entry.converged <==> NoReason(entry.reason)
    ensures entry.coverage.Some? <==> key in expected && expected[key] != {}
  {
    GoalScoreExactly(rows);
    hide IsMean;
    hide SumBy, CoverageRatio;
    TerminalNotEmpty(rows);
    var attempt := LatestAttempt(rows);
    var latest := LatestRows(AttemptRows(rows));
    score := if latest != [] then SumBy(ScoresOf(latest), Identity) / |latest| as real else 0.0;
    var runId := FirstRunId(rows);
    var converged, coverage, reason := GoalConverged(key, CheckNames(latest), expected, runId, status);
    entry := GoalEntry(key, runId, Round4(score), |latest|, |rows|, EstimateVerifyPasses(rows), attempt, converged,
      if coverage.Some? then Some(Round4(coverage.value)) else None, reason);
  }

  method ScoreGoals(rows: seq<Row>, expected: map<string, set<string>>, status: map<string, string>)
    returns (summary: ScoreSummary, ran: seq<real>, convergedScores: seq<real>)
    ensures ran == Map(KeysOf(rows), Scored(rows))
    ensures convergedScores == Map(Filter(KeysOf(rows), Converged(rows, expected, status)), Scored(rows))
    ensures summary.nGoalsRan == |ran| && summary.batteryMean == Round4(Mean(ran))
    ensures summary.nGoalsConverged == |convergedScores|
    ensures summary.excluded == Sorted(Filter(KeysOf(rows), Excluded(rows, expected, status)), StringLe)
    ensures summary.perGoal == SortedEntries(Map(KeysOf(rows), Entry(rows, expected, status)))
    ensures summary.batteryMeanConverged ==
      if Measurable(summary.perGoal, status) && convergedScores != [] then Some(Round4(Mean(convergedScores))) else None
    ensures summary.nGoalsRan == summary.nGoalsConverged + |summary.excluded|
    ensures SumBy(ran, Identity) == SumBy(convergedScores, Identity) + SumBy(summary.excluded, Scored(rows))
  {
    hide EntryOf, RawScore, KeysOf, GroupOf, Filter, Terminal, AttemptRows, LatestPerCheck, SumBy, IsMean;
    var keys, byGoal := GroupByGoal(rows);
    NothingScored(keys, Converged(rows, expected, status), Excluded(rows, expected, status));
    var entries: seq<GoalEntry> := [];
    var excluded: seq<string> := [];
    ran, convergedScores := [], [];
    for i := 0 to |keys|
      invariant entries == Map(keys[..i], Entry(rows, expected, status))
      invariant ran == Map(keys[..i], Scored(rows))
      invariant convergedScores == Map(Filter(keys[..i], Converged(rows, expected, status)), Scored(rows))
      invariant excluded == Filter(keys[..i], Excluded(rows, expected, status))
    {
      var key := keys[i];
      var goalRows := byGoal[key];
      assert key in keys;
      NewKey(rows, key);
      FilterNext(keys, i, Converged(rows, expected, status));
      FilterNext(keys, i, Excluded(rows, expected, status));
      MapNext(keys, i, Entry(rows, expected, status));
      MapNext(keys, i, Scored(rows));
      var entry, score := ScoreOneGoal(key, goalRows, expected, status);
      if entry.nChecks > 0 {
        ran := ran + [score];
        if entry.converged {
          convergedScores := convergedScores + [score];
        } else {
          excluded := excluded + [key];
        }
      }
      entries := entries + [entry];
    }
    assert keys[..|keys|] == keys;
    Conservation(rows, expected, status);
    var perGoal := SortedEntries(entries);
    summary := ScoreSummary(Round4(Mean(ran)), |ran|, perGoal,
      if Measurable(perGoal, status) && convergedScores != [] then Some(Round4(Mean(convergedScores))) else None,
      |convergedScores|, Sorted(excluded, StringLe));
  }

  lemma NothingScored(keys: seq<string>, f: string -> bool, g: string -> bool)
    ensures Filter(keys[..0], f) == [] && Filter(keys[..0], g) == []
  {
  }

  /** The entries by ascending goal id. */
  function SortedEntries(entries: seq<GoalEntry>): seq<GoalEntry>
  {
    Gather(entries, ArgSort(GoalIds(entries), StringLe))
  }

  lemma {:induction false} ScoredSum(rows: seq<Row>, keys: seq<string>)
    ensures SumBy(Map(keys, Scored(rows)), Identity) == SumBy(keys, Scored(rows))
  {
    SumEq(Map(keys, Scored(rows)), Identity, keys, Scored(rows));
  }

  /** The converged and the excluded goals share out the goals that ran, and their scores. */
  lemma Conservation(rows: seq<Row>, expected: map<string, set<string>>, status: map<string, string>)
    ensures var keys := KeysOf(rows);
      var kept := Filter(keys, Converged(rows, expected, status));
      var dropped := Sorted(Filter(keys, Excluded(rows, expected, status)), StringLe);
      && |keys| == |kept| + |dropped|
      && SumBy(Map(keys, Scored(rows)), Identity)
         == SumBy(Map(kept, Scored(rows)), Identity) + SumBy(dropped, Scored(rows))
  {
    hide EntryOf, RawScore, KeysOf, GroupOf, Filter, SumBy;
    var keys := KeysOf(rows);
    var kept := Filter(keys, Converged(rows, expected, status));
    var excluded := Filter(keys, Excluded(rows, expected, status));
    SumSplit(keys, Converged(rows, expected, status), Excluded(rows, expected, status), Scored(rows));
    StringOrder();
    SortedAscending(excluded, StringLe);
    SumPermutation(excluded, Sorted(excluded, StringLe), Scored(rows));
    ScoredSum(rows, keys);
    ScoredSum(rows, kept);
  }
}
