/** The pass and score rules of the checks, and `run_checks`, in `src/eval/checks.py`. */
module CheckRunner {
  import opened Lists
  import opened Options
  import opened Sums

  datatype CheckResult = CheckResult(name: string, checkType: string, passed: bool, score: real, skipped: bool)

  /** What evaluating a check comes down to, once files have been read and probes run. */
  datatype Observation =
    | Crashed                                             // the check raised
    | Unusable                                            // no target on disk, unparseable, or no probe code given
    | Rows(count: int, missingFields: Option<bool>, minRows: Option<int>, maxRows: Option<int>, exactRows: Option<int>)
    | Assertions(holds: seq<bool>)
    | Probe(success: bool, exitCode: int)
    | TwoRuns(ok1: bool, ok2: bool, out1: string, out2: string)
    | NoJudge                                             // judge disabled, unavailable, or nothing to judge
    | Judged(score: real)

  datatype CheckConfig = CheckConfig(name: string, checkType: string)

  function Truths(): bool -> real
  {
    b => if b then 1.0 else 0.0
  }

  /** Passed when all conditions hold; scored by the fraction that holds. */
  function ByConditions(holds: seq<bool>): (bool, real)
    requires holds != []
  {
    (forall i :: 0 <= i < |holds| ==> holds[i], SumBy(holds, Truths()) / |holds| as real)
  }

  /** The declared structural conditions, or non-emptiness when none is declared. */
  function RowConditions(o: Observation): (conditions: seq<bool>)
    requires o.Rows?
    ensures conditions != []
  {
    var declared :=
      (if o.missingFields.Some? then [!o.missingFields.value] else [])
      + (if o.minRows.Some? then [o.count >= o.minRows.value] else [])
      + (if o.maxRows.Some? then [o.count <= o.maxRows.value] else [])
      + (if o.exactRows.Some? then [o.count == o.exactRows.value] else []);
    if declared == [] then [o.count >= 1] else declared
  }

  /** (passed, score, skipped) by check type; `minScore` is the configured minimum of the judge. */
  function Rule(checkType: string, o: Observation, minScore: real): (bool, real, bool)
  {
    match o
    case Rows(_, _, _, _, _) =>
      if checkType == "structural" then
        var (passed, score) := ByConditions(RowConditions(o));
        (passed, score, false)
      else (false, 0.0, false)
    case Assertions(holds) =>
      if checkType == "golden" || checkType == "state" then
        if holds == [] then (true, 1.0, false)
        else
          var (passed, score) := ByConditions(holds);
          (passed, score, false)
      else (false, 0.0, false)
    case Probe(success, exitCode) =>
      if checkType == "execution" then
        var passed := success && exitCode == 0;
        (passed, if passed then 1.0 else 0.0, false)
      else (false, 0.0, false)
    case TwoRuns(ok1, ok2, out1, out2) =>
      if checkType == "idempotency" then
        var bothOk := ok1 && ok2;
        var (passed, score) := ByConditions([bothOk, bothOk && out1 != "" && out1 == out2]);
        (passed, score, false)
      else (false, 0.0, false)
    case Judged(score) =>
      if checkType == "oracle" then (score >= minScore, score, false) else (false, 0.0, false)
    case NoJudge =>
      if checkType == "oracle" then (true, 1.0, true) else (false, 0.0, false)
    case _ => (false, 0.0, false)
  }

  /** One check's result, given what it observes on the merged deliverables. */
  function ResultOf(cfg: CheckConfig, o: Observation, minScore: real): (r: CheckResult)
    ensures r.name == cfg.name && r.checkType == cfg.checkType
  {
    var (passed, score, skipped) := Rule(cfg.checkType, o, minScore);
    CheckResult(cfg.name, cfg.checkType, passed, score, skipped)
  }

  function Unskipped(): CheckResult -> bool
  {
    (r: CheckResult) => !r.skipped
  }

  function ResultScore(): CheckResult -> real
  {
    (r: CheckResult) => r.score
  }

  /** (overall score, passed) of a list of results; skipped ones do not count. */
  function Aggregate(results: seq<CheckResult>): (real, bool)
  {
    var scored := Filter(results, Unskipped());
    if scored == [] then (1.0, true)
    else (SumBy(scored, ResultScore()) / |scored| as real, forall i :: 0 <= i < |scored| ==> scored[i].passed)
  }

  type Observe = (CheckConfig, seq<string>) -> Observation

  function ResultFor(merged: seq<string>, observe: Observe, minScore: real): CheckConfig -> CheckResult
  {
    (c: CheckConfig) => ResultOf(c, observe(c, merged), minScore)
  }

  function Results(checks: seq<CheckConfig>, merged: seq<string>, observe: Observe, minScore: real): seq<CheckResult>
  {
    Map(checks, ResultFor(merged, observe, minScore))
  }

  /** Spec-named deliverables first, then the declared ones, each once. */
  method MergeDeliverables(expected: seq<string>, declared: seq<string>) returns (merged: seq<string>)
    ensures merged == Dedup(expected + declared)
  {
    merged := [];
    var seen := {};
    var all := expected + declared;
    for i := 0 to |all|
      invariant merged == Dedup(all[..i]) && forall x :: x in seen <==> x in merged
    {
      assert all[..i + 1][..i] == all[..i];
      if all[i] !in seen {
        seen := seen + {all[i]};
        merged := merged + [all[i]];
      }
    }
    assert all[..|all|] == all;
  }

  /** The overall score times the number of unskipped results is the sum of their scores, or 1 when there are none; and
      the run passes when they all do. */
  ghost predicate IsAggregate(results: seq<CheckResult>, overall: real, passed: bool)
  {
    var scored := Filter(results, Unskipped());
    && (if scored == [] then overall == 1.0 else IsMean(overall, scored, ResultScore()))
    && (passed <==> forall r :: r in results && !r.skipped ==> r.passed)
  }

  lemma AggregateIs(results: seq<CheckResult>)
    ensures IsAggregate(results, Aggregate(results).0, Aggregate(results).1)
  {
    hide SumBy, Filter, IsMean;
    var scored := Filter(results, Unskipped());
    FilterMembers(results, Unskipped());
    assert forall i :: 0 <= i < |scored| ==> scored[i] in scored;
    QuotientIsMean(scored, ResultScore());
    assert forall r :: r in results && !r.skipped ==> r in scored;
  }

  method RunChecks(checks: seq<CheckConfig>, expected: seq<string>, declared: seq<string>, observe: Observe,
                   minScore: real)
    returns (results: seq<CheckResult>, overall: real, passed: bool)
    ensures results == Results(checks, Dedup(expected + declared), observe, minScore)
    ensures |results| == |checks|
    ensures forall i :: 0 <= i < |checks| ==>
      results[i].name == checks[i].name && results[i].checkType == checks[i].checkType
    ensures IsAggregate(results, overall, passed)
    ensures (overall, passed) == Aggregate(results)
  {
    hide IsAggregate, Aggregate;
    results := [];
    if checks == [] {
      AggregateIs([]);
      NoResults();
      return [], 1.0, true;
    }
    var merged := MergeDeliverables(expected, declared);
    for i := 0 to |checks|
      invariant results == Results(checks[..i], merged, observe, minScore)
    {
      MapNext(checks, i, ResultFor(merged, observe, minScore));
      results := results + [ResultOf(checks[i], observe(checks[i], merged), minScore)];
    }
    assert checks[..|checks|] == checks;
    forall i | 0 <= i < |checks|
      ensures results[i].name == checks[i].name && results[i].checkType == checks[i].checkType
    {
      assert results[i] == ResultOf(checks[i], observe(checks[i], merged), minScore);
    }
    AggregateIs(results);
    var (score, ok) := Aggregate(results);
    overall, passed := score, ok;
  }

  lemma NoResults()
    ensures Aggregate([]) == (1.0, true)
  {
  }

  /** The merged list: the union, without duplicates, the spec's deliverables in front. */
  lemma MergedDeliverables(expected: seq<string>, declared: seq<string>)
    ensures var merged := Dedup(expected + declared);
      && NoDuplicates(merged)
      && (forall x :: x in merged <==> x in expected || x in declared)
      && Dedup(expected) <= merged
  {
    DedupMembers(expected + declared);
    DedupPrefix(expected, declared);
  }

  // ---------- Passing and scoring full marks ----------

  lemma FractionRange(s: real, n: nat)
    requires n >= 1 && 0.0 <= s <= n as real
    ensures 0.0 <= s / n as real <= 1.0
    ensures s / n as real == 1.0 <==> s == n as real
  {
    Quotient(s, n as real);
    DivideBounds(s, n as real);
    DivideLe(0.0, s, n as real);
    QuotientIs(0.0, n as real, 0.0);
    if s == n as real {
      QuotientIs(s, n as real, 1.0);
    }
  }

  /** A sum of values at most 1 reaches its length exactly when each value is 1. */
  lemma {:induction false} FullSum<T>(s: seq<T>, f: T -> real)
    requires forall i :: 0 <= i < |s| ==> 0.0 <= f(s[i]) <= 1.0
    ensures 0.0 <= SumBy(s, f) <= |s| as real
    ensures SumBy(s, f) == |s| as real <==> forall i :: 0 <= i < |s| ==> f(s[i]) == 1.0
  {
    if s != [] {
      var n := |s| - 1;
      FullSum(s[..n], f);
      assert forall i :: 0 <= i < n ==> s[..n][i] == s[i];
      if SumBy(s[..n], f) == n as real && f(s[n]) == 1.0 {
        assert forall i :: 0 <= i < |s| ==> f(if i < n then s[..n][i] else s[n]) == 1.0;
      }
    }
  }

  lemma ByConditionsFull(holds: seq<bool>)
    requires holds != []
    ensures var (passed, score) := ByConditions(holds); 0.0 <= score <= 1.0 && (passed <==> score == 1.0)
  {
    FullSum(holds, Truths());
    FractionRange(SumBy(holds, Truths()), |holds|);
  }

  /** A check other than the oracle passes exactly when it scores 1. */
  lemma RuleFull(checkType: string, o: Observation, minScore: real)
    requires checkType != "oracle"
    ensures var (passed, score, skipped) := Rule(checkType, o, minScore);
      !skipped && 0.0 <= score <= 1.0 && (passed <==> score == 1.0)
  {
    match o
    case Rows(_, _, _, _, _) => ByConditionsFull(RowConditions(o));
    case Assertions(holds) => if holds != [] { ByConditionsFull(holds); }
    case TwoRuns(ok1, ok2, out1, out2) =>
      ByConditionsFull([ok1 && ok2, ok1 && ok2 && out1 != "" && out1 == out2]);
    case _ =>
  }

  // ---------- What each type of check reports ----------

  function Holds(): bool -> bool
  {
    b => b
  }

  ghost predicate IsFraction(score: real, part: nat, whole: nat)
  {
    score * whole as real == part as real
  }

  lemma ByConditionsCounts(holds: seq<bool>)
    requires holds != []
    ensures var (passed, score) := ByConditions(holds);
      IsFraction(score, |Filter(holds, Holds())|, |holds|) && (passed <==> false !in holds)
  {
    hide Filter, SumBy;
    SumCounts(holds, Truths(), Holds());
    QuotientIsMean(holds, Truths());
  }

  /** A golden or state check passes when all assertions hold, and scores the fraction that holds; 1 without any. */
  lemma AssertionsExactly(checkType: string, holds: seq<bool>, minScore: real)
    requires checkType == "golden" || checkType == "state"
    ensures var (passed, score, skipped) := Rule(checkType, Assertions(holds), minScore);
      && !skipped && (passed <==> false !in holds)
      && (if holds == [] then score == 1.0 else IsFraction(score, |Filter(holds, Holds())|, |holds|))
  {
    hide ByConditions, IsFraction, Filter;
    if holds != [] {
      ByConditionsCounts(holds);
    }
  }

  /** An execution check passes, with 1, exactly when its probe succeeds with exit code 0, and scores 0 otherwise. */
  lemma ExecutionExactly(success: bool, exitCode: int, minScore: real)
    ensures var (passed, score, skipped) := Rule("execution", Probe(success, exitCode), minScore);
      && !skipped && (passed <==> success && exitCode == 0)
      && (score == 1.0 <==> passed) && (score == 0.0 <==> !passed)
  {
    assert success && exitCode == 0 ==> Rule("execution", Probe(success, exitCode), minScore) == (true, 1.0, false);
  }

  /** A judged check reports the judge's score and passes from the minimum on; without a judge it is skipped. A check
      that raised or found nothing usable fails with 0. */
  lemma JudgeExactly(checkType: string, score: real, minScore: real)
    ensures Rule("oracle", Judged(score), minScore) == (minScore <= score, score, false)
    ensures Rule("oracle", NoJudge, minScore) == (true, 1.0, true)
    ensures Rule(checkType, Crashed, minScore) == Rule(checkType, Unusable, minScore) == (false, 0.0, false)
  {
    assert minScore <= score <==> score >= minScore;
  }

  /** One for each declared bound, and one for each that holds. */
  function Declared(o: Observation): nat
    requires o.Rows?
  {
    (if o.missingFields.Some? then 1 else 0) + (if o.minRows.Some? then 1 else 0)
    + (if o.maxRows.Some? then 1 else 0) + (if o.exactRows.Some? then 1 else 0)
  }

  function Satisfied(o: Observation): nat
    requires o.Rows?
  {
    (if o.missingFields == Some(false) then 1 else 0)
    + (if o.minRows.Some? && o.minRows.value <= o.count then 1 else 0)
    + (if o.maxRows.Some? && o.count <= o.maxRows.value then 1 else 0)
    + (if o.exactRows == Some(o.count) then 1 else 0)
  }

  /** A structural check scores the fraction of its declared bounds that hold, or whether a row exists without any. */
  lemma StructuralScore(o: Observation, minScore: real)
    requires o.Rows?
    ensures var score := Rule("structural", o, minScore).1;
      if Declared(o) == 0 then score == (if o.count >= 1 then 1.0 else 0.0)
      else IsFraction(score, Satisfied(o), Declared(o))
  {
    hide ByConditions, IsFraction, Filter, RowConditions, Declared, Satisfied;
    ByConditionsCounts(RowConditions(o));
    ConditionCounts(o);
    OneCondition(Rule("structural", o, minScore).1, |Filter(RowConditions(o), Holds())|);
  }

  lemma OneCondition(score: real, part: nat)
    ensures IsFraction(score, part, 1) ==> score == part as real
  {
  }

  function Given(given: bool, holds: bool): seq<bool>
  {
    if given then [holds] else []
  }

  lemma GivenCount(given: bool, holds: bool)
    ensures |Filter(Given(given, holds), Holds())| == if given && holds then 1 else 0
  {
    FilterSnoc([], holds, Holds());
    assert [] + [holds] == [holds];
  }

  lemma ConditionCounts(o: Observation)
    requires o.Rows?
    ensures Declared(o) > 0 ==> |RowConditions(o)| == Declared(o)
    ensures Declared(o) > 0 ==> |Filter(RowConditions(o), Holds())| == Satisfied(o)
    ensures Declared(o) == 0 ==> RowConditions(o) == [o.count >= 1]
    ensures |Filter([o.count >= 1], Holds())| == if o.count >= 1 then 1 else 0
  {
    hide Filter;
    var a := Given(o.missingFields.Some?, o.missingFields == Some(false));
    var b := Given(o.minRows.Some?, o.minRows.Some? && o.count >= o.minRows.value);
    var c := Given(o.maxRows.Some?, o.maxRows.Some? && o.count <= o.maxRows.value);
    var d := Given(o.exactRows.Some?, o.exactRows.Some? && o.count == o.exactRows.value);
    FilterConcat(a, b, Holds());
    FilterConcat(a + b, c, Holds());
    FilterConcat(a + b + c, d, Holds());
    GivenCount(o.missingFields.Some?, o.missingFields == Some(false));
    GivenCount(o.minRows.Some?, o.minRows.Some? && o.count >= o.minRows.value);
    GivenCount(o.maxRows.Some?, o.maxRows.Some? && o.count <= o.maxRows.value);
    GivenCount(o.exactRows.Some?, o.exactRows.Some? && o.count == o.exactRows.value);
    GivenCount(true, o.count >= 1);
    assert RowConditions(o) == if a + b + c + d == [] then [o.count >= 1] else a + b + c + d;
  }

  /** A structural check passes exactly when every declared bound holds, or, none being declared, a row exists. */
  lemma StructuralExactly(o: Observation, minScore: real)
    requires o.Rows?
    ensures Rule("structural", o, minScore).0 <==>
      && (o.missingFields.Some? ==> !o.missingFields.value)
      && (o.minRows.Some? ==> o.count >= o.minRows.value)
      && (o.maxRows.Some? ==> o.count <= o.maxRows.value)
      && (o.exactRows.Some? ==> o.count == o.exactRows.value)
      && (o.missingFields.None? && o.minRows.None? && o.maxRows.None? && o.exactRows.None? ==> o.count >= 1)
  {
    var c := RowConditions(o);
    assert (exists i :: 0 <= i < |c| && !c[i]) <==> false in c;
  }

  /** An idempotency check passes exactly when both runs exit cleanly with the same, non-empty output; two clean runs
      that differ score one half, and anything else nothing. */
  lemma IdempotencyExactly(ok1: bool, ok2: bool, out1: string, out2: string, minScore: real)
    ensures var (passed, score, skipped) := Rule("idempotency", TwoRuns(ok1, ok2, out1, out2), minScore);
      && (passed <==> ok1 && ok2 && out1 != "" && out1 == out2)
      && score == if passed then 1.0 else if ok1 && ok2 then 0.5 else 0.0
  {
    var first, second := ok1 && ok2, ok1 && ok2 && out1 != "" && out1 == out2;
    assert [first, second][..1] == [first] && [first][..0] == [];
    assert SumBy([first], Truths()) == Truths()(first);
    assert ByConditions([first, second]).0 <==> [first, second][0] && [first, second][1];
  }

  /** Each result scores in [0, 1] and, unless skipped, passes exactly when it scores 1. */
  ghost predicate FullMarks(results: seq<CheckResult>)
  {
    forall r :: r in results && !r.skipped ==> 0.0 <= r.score <= 1.0 && (r.passed <==> r.score == 1.0)
  }

  ghost predicate Agrees(results: seq<CheckResult>)
  {
    var (overall, passed) := Aggregate(results);
    0.0 <= overall <= 1.0 && (passed <==> overall == 1.0)
  }

  /** The overall score is 1 exactly when every unskipped result scores 1. */
  lemma OverallIsOne(results: seq<CheckResult>)
    requires forall r :: r in results && !r.skipped ==> 0.0 <= r.score <= 1.0
    ensures 0.0 <= Aggregate(results).0 <= 1.0
    ensures Aggregate(results).0 == 1.0 <==> forall r :: r in results && !r.skipped ==> r.score == 1.0
    ensures Aggregate(results).1 <==> forall r :: r in results && !r.skipped ==> r.passed
  {
    var scored := Filter(results, Unskipped());
    FilterMembers(results, Unskipped());
    assert forall i :: 0 <= i < |scored| ==> scored[i] in scored;
    FullSum(scored, ResultScore());
    if scored != [] {
      FractionRange(SumBy(scored, ResultScore()), |scored|);
    }
    assert forall r :: r in results && !r.skipped ==> r in scored;
  }

  lemma FullMarksAgree(results: seq<CheckResult>)
    requires FullMarks(results)
    ensures Agrees(results)
  {
    OverallIsOne(results);
  }

  lemma ResultAt(checks: seq<CheckConfig>, merged: seq<string>, observe: Observe, minScore: real, r: CheckResult)
    returns (k: nat)
    requires r in Results(checks, merged, observe, minScore)
    ensures k < |checks| && r == ResultOf(checks[k], observe(checks[k], merged), minScore) && checks[k] in checks
  {
    var results := Results(checks, merged, observe, minScore);
    k :| 0 <= k < |results| && results[k] == r;
  }

  /** When no unskipped result comes from the oracle, the run passes exactly when the overall score is 1. */
  lemma PassedIffPerfect(checks: seq<CheckConfig>, merged: seq<string>, observe: Observe, minScore: real)
    requires forall r :: r in Results(checks, merged, observe, minScore) && !r.skipped ==> r.checkType != "oracle"
    ensures Agrees(Results(checks, merged, observe, minScore))
  {
    var results := Results(checks, merged, observe, minScore);
    forall r | r in results && !r.skipped ensures 0.0 <= r.score <= 1.0 && (r.passed <==> r.score == 1.0) {
      var k := ResultAt(checks, merged, observe, minScore, r);
      RuleFull(checks[k].checkType, observe(checks[k], merged), minScore);
    }
    FullMarksAgree(results);
  }

  // ---------- With judged checks ----------

  /** The judge scores in [0, 1]. */
  ghost predicate JudgeInRange(observe: Observe)
  {
    forall c, m :: observe(c, m).Judged? ==> 0.0 <= observe(c, m).score <= 1.0
  }

  const CHECK_TYPES := {"structural", "golden", "execution", "idempotency", "oracle", "state"}

  ghost predicate HasOracle(checks: seq<CheckConfig>)
  {
    exists c :: c in checks && c.checkType == "oracle"
  }

  ghost predicate HasUnknown(checks: seq<CheckConfig>)
  {
    exists c :: c in checks && c.checkType !in CHECK_TYPES
  }

  lemma RuleRange(checkType: string, o: Observation, minScore: real)
    requires o.Judged? ==> 0.0 <= o.score <= 1.0
    ensures var (passed, score, skipped) := Rule(checkType, o, minScore);
      && 0.0 <= score <= 1.0
      && (minScore == 1.0 ==> (passed <==> score == 1.0))
      && (checkType !in CHECK_TYPES ==> !passed && !skipped && score == 0.0)
  {
    if checkType != "oracle" {
      hide ByConditions, RowConditions;
      RuleFull(checkType, o, minScore);
    }
  }

  /** Every check gets full marks, except that the judge gives its score. */
  function BestExcept(judged: real): Observe
  {
    (c: CheckConfig, m: seq<string>) =>
      if c.checkType == "oracle" then Judged(judged)
      else if c.checkType == "structural" then Rows(1, None, None, None, None)
      else if c.checkType == "execution" then Probe(true, 0)
      else if c.checkType == "idempotency" then TwoRuns(true, true, "x", "x")
      else Assertions([])
  }

  lemma BestResult(c: CheckConfig, m: seq<string>, judged: real, minScore: real)
    requires c.checkType in CHECK_TYPES
    ensures var r := ResultOf(c, BestExcept(judged)(c, m), minScore);
      && !r.skipped
      && r.score == (if c.checkType == "oracle" then judged else 1.0)
      && r.passed == (c.checkType == "oracle" ==> judged >= minScore)
  {
    if c.checkType == "structural" {
      StructuralExactly(Rows(1, None, None, None, None), minScore);
      RuleFull(c.checkType, Rows(1, None, None, None, None), minScore);
    } else if c.checkType == "idempotency" {
      IdempotencyExactly(true, true, "x", "x", minScore);
    }
  }

  /** A judge score that separates passing from scoring 1. */
  function Separating(minScore: real): (judged: real)
    ensures 0.0 <= judged <= 1.0
    ensures minScore != 1.0 ==> (judged >= minScore <==> judged != 1.0)
  {
    if minScore < 0.0 then 0.0 else if minScore < 1.0 then minScore else 1.0
  }

  lemma JudgeSeparates(checks: seq<CheckConfig>, merged: seq<string>, minScore: real)
    requires minScore != 1.0 && HasOracle(checks) && !HasUnknown(checks)
    ensures JudgeInRange(BestExcept(Separating(minScore)))
    ensures !Agrees(Results(checks, merged, BestExcept(Separating(minScore)), minScore))
  {
    hide ResultOf, Aggregate;
    var judged := Separating(minScore);
    var observe := BestExcept(judged);
    var results := Results(checks, merged, observe, minScore);
    forall r | r in results
      ensures !r.skipped && (r.score == 1.0 || r.score == judged)
      ensures judged >= minScore ==> r.passed
    {
      var k := ResultAt(checks, merged, observe, minScore, r);
      BestResult(checks[k], merged, judged, minScore);
    }
    var c :| c in checks && c.checkType == "oracle";
    var k :| 0 <= k < |checks| && checks[k] == c;
    BestResult(c, merged, judged, minScore);
    assert results[k] in results;
    assert results[k].score == judged && results[k].passed == (judged >= minScore);
    OverallIsOne(results);
  }

  lemma JudgeAgrees(checks: seq<CheckConfig>, merged: seq<string>, observe: Observe, minScore: real)
    requires JudgeInRange(observe)
    requires minScore == 1.0 || !HasOracle(checks) || HasUnknown(checks)
    ensures Agrees(Results(checks, merged, observe, minScore))
  {
    hide Rule, Aggregate;
    var results := Results(checks, merged, observe, minScore);
    forall r | r in results
      ensures 0.0 <= r.score <= 1.0
      ensures minScore == 1.0 || r.checkType != "oracle" ==> (r.passed <==> r.score == 1.0)
    {
      var k := ResultAt(checks, merged, observe, minScore, r);
      RuleRange(checks[k].checkType, observe(checks[k], merged), minScore);
      if checks[k].checkType != "oracle" {
        RuleFull(checks[k].checkType, observe(checks[k], merged), minScore);
      }
    }
    OverallIsOne(results);
    if HasUnknown(checks) {
      var c :| c in checks && c.checkType !in CHECK_TYPES;
      var k :| 0 <= k < |checks| && checks[k] == c;
      RuleRange(c.checkType, observe(c, merged), minScore);
      assert results[k] in results;
    } else if minScore != 1.0 {
      forall r | r in results ensures r.checkType != "oracle" {
        var k := ResultAt(checks, merged, observe, minScore, r);
      }
    }
  }

  /** For given check types, passing and scoring 1 agree whatever the checks' parameters and observations exactly when
      the judge's minimum is 1, or no check is judged, or some check is of an unknown type and so always fails. */
  lemma AgreementExactly(checks: seq<CheckConfig>, merged: seq<string>, minScore: real)
    ensures (forall observe: Observe :: JudgeInRange(observe) ==> Agrees(Results(checks, merged, observe, minScore)))
      <==> minScore == 1.0 || !HasOracle(checks) || HasUnknown(checks)
  {
    hide JudgeInRange, Agrees, Results, HasOracle, HasUnknown;
    if minScore == 1.0 || !HasOracle(checks) || HasUnknown(checks) {
      forall observe: Observe | JudgeInRange(observe) ensures Agrees(Results(checks, merged, observe, minScore)) {
        JudgeAgrees(checks, merged, observe, minScore);
      }
    } else {
      JudgeSeparates(checks, merged, minScore);
    }
  }

  /** A run of one judged check that scores just its minimum passes with that score, which may be below 1. */
  lemma OraclePassesBelowOne(minScore: real)
    ensures Aggregate([ResultOf(CheckConfig("judge", "oracle"), Judged(minScore), minScore)]) == (minScore, true)
  {
    var r := ResultOf(CheckConfig("judge", "oracle"), Judged(minScore), minScore);
    FilterSnoc([], r, Unskipped());
    SumSnoc([], r, ResultScore());
    assert [] + [r] == [r];
    QuotientIs(minScore, 1.0, minScore);
    assert Filter([r], Unskipped()) == [r] && |[r]| as real == 1.0;
  }

  /** A skipped check may be put anywhere, or taken out, without effect on score or verdict. */
  lemma SkippedChangesNothing(before: seq<CheckResult>, skipped: CheckResult, after: seq<CheckResult>)
    requires skipped.skipped
    ensures Aggregate(before + [skipped] + after) == Aggregate(before + after)
  {
    FilterConcat(before + [skipped], after, Unskipped());
    FilterConcat(before, after, Unskipped());
    FilterSnoc(before, skipped, Unskipped());
    assert Filter(before, Unskipped()) + [] == Filter(before, Unskipped());
  }
}
