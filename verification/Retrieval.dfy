/** The retrieval metrics of `src/eval/retrieval.py`. */
module Retrieval {
  import opened Lists
  import opened Options
  import opened Sums

  const EVAL_ID_PREFIX := "eval-id:"

  /** The id behind the first marker tag. */
  function EvalIdFromTags(tags: seq<string>): Option<string>
  {
    if tags == [] then None
    else if EVAL_ID_PREFIX <= tags[0] then Some(tags[0][|EVAL_ID_PREFIX|..])
    else EvalIdFromTags(tags[1..])
  }

  /** The tags stamped onto a seeded item. */
  function ItemTags(evalId: string): seq<string>
  {
    ["retrieval-eval", EVAL_ID_PREFIX + evalId]
  }

  /** The id a seeded item was stamped with is read back from its tags, whatever the id and whatever tags follow. */
  lemma SeededIdReadBack(evalId: string, more: seq<string>)
    ensures EvalIdFromTags(ItemTags(evalId) + more) == Some(evalId)
  {
    var tags := ItemTags(evalId) + more;
    var marker := EVAL_ID_PREFIX + evalId;
    assert "retrieval-eval"[0] == 'r' && EVAL_ID_PREFIX[0] == 'e';
    assert !(EVAL_ID_PREFIX <= tags[0]);
    assert tags[1..][0] == marker && marker[|EVAL_ID_PREFIX|..] == evalId;
  }

  ghost predicate FirstMarked(tags: seq<string>, i: nat, id: string)
  {
    i < |tags| && tags[i] == "eval-id:" + id && forall j :: 0 <= j < i ==> !("eval-id:" <= tags[j])
  }

  /** The id follows the first tag that starts with "eval-id:"; there is none when no tag does. */
  lemma {:induction false} EvalIdExactly(tags: seq<string>)
    ensures EvalIdFromTags(tags).None? <==> forall tag :: tag in tags ==> !("eval-id:" <= tag)
    ensures forall id :: EvalIdFromTags(tags) == Some(id) ==> exists i: nat :: FirstMarked(tags, i, id)
  {
    if tags != [] {
      var rest := tags[1..];
      EvalIdExactly(rest);
      assert tags == [tags[0]] + rest;
      if "eval-id:" <= tags[0] {
        assert tags[0] == "eval-id:" + tags[0][8..];
        assert |EVAL_ID_PREFIX| == 8 && tags[0] in tags;
        assert FirstMarked(tags, 0, tags[0][8..]);
      } else if EvalIdFromTags(rest).Some? {
        var id := EvalIdFromTags(rest).value;
        var i: nat :| FirstMarked(rest, i, id);
        assert FirstMarked(tags, i + 1, id);
        assert tags[i + 1] in tags && "eval-id:" <= tags[i + 1];
      }
    }
  }

  /** The ids of the recalled items that carry one. */
  function MarkedIds(items: seq<seq<string>>): seq<string>
  {
    if items == [] then [] else
    var id := EvalIdFromTags(items[|items| - 1]);
    MarkedIds(items[..|items| - 1]) + if id.Some? then [id.value] else []
  }

  /** The dedup loop of `memory_retriever`. */
  method RetrieveIds(items: seq<seq<string>>) returns (out: seq<string>)
    ensures out == Dedup(MarkedIds(items))
    ensures NoDuplicates(out)
  {
    out := [];
    var seen := {};
    for i := 0 to |items|
      invariant out == Dedup(MarkedIds(items[..i])) && forall x :: x in seen <==> x in out
    {
      var eid := EvalIdFromTags(items[i]);
      assert items[..i + 1][..i] == items[..i];
      var marked := MarkedIds(items[..i]);
      if eid.Some? {
        assert (marked + [eid.value])[..|marked|] == marked;
      } else {
        assert marked + [] == marked;
      }
      if eid.None? || eid.value in seen {
        continue;
      }
      seen := seen + {eid.value};
      out := out + [eid.value];
    }
    assert items[..|items|] == items;
    DedupMembers(MarkedIds(items));
  }

  function InGold(gold: set<string>): string -> bool
  {
    id => id in gold
  }

  function TopK(ranked: seq<string>, k: nat): seq<string>
  {
    if k < |ranked| then ranked[..k] else ranked
  }

  /** 1-based rank of the first relevant id, 0 when there is none. */
  function FirstRank(ranked: seq<string>, gold: set<string>): (r: nat)
    ensures r <= |ranked|
    ensures r == 0 <==> forall i :: 0 <= i < |ranked| ==> ranked[i] !in gold
    ensures r > 0 ==> ranked[r - 1] in gold && forall i :: 0 <= i < r - 1 ==> ranked[i] !in gold
  {
    if ranked == [] then 0
    else if ranked[0] in gold then 1
    else
      var rest := FirstRank(ranked[1..], gold);
      assert forall i :: 1 <= i < |ranked| ==> ranked[i] == ranked[1..][i - 1];
      if rest == 0 then 0 else rest + 1
  }

  datatype Metrics = Metrics(precision: real, reciprocalRank: real, hit: bool)

  function MetricsOf(ranked: seq<string>, gold: set<string>, k: int): Metrics
  {
    if k <= 0 then Metrics(0.0, 0.0, false) else
    var relevant := Filter(TopK(ranked, k), InGold(gold));
    var rank := FirstRank(ranked, gold);
    Metrics(|relevant| as real / k as real, if rank == 0 then 0.0 else 1.0 / rank as real, relevant != [])
  }

  /** The first relevant id is at place `i`. */
  ghost predicate FirstRelevant(ranked: seq<string>, gold: set<string>, i: nat)
  {
    i < |ranked| && ranked[i] in gold && forall j :: 0 <= j < i ==> ranked[j] !in gold
  }

  ghost predicate IsRatio(x: real, part: int, whole: int)
  {
    x * whole as real == part as real
  }

  lemma QuotientIsRatio(part: int, whole: int)
    requires whole != 0
    ensures IsRatio(part as real / whole as real, part, whole)
  {
    Quotient(part as real, whole as real);
  }

  /** Precision times k is the number of relevant ids in the first k places, the reciprocal rank times the place of the
      first relevant one is 1, and a hit is a relevant id in the first k places; all nothing when k is not positive. */
  ghost predicate AreMetrics(m: Metrics, ranked: seq<string>, gold: set<string>, k: int)
  {
    if k <= 0 then m == Metrics(0.0, 0.0, false) else
    && IsRatio(m.precision, |Filter(ranked[..if k < |ranked| then k else |ranked|], InGold(gold))|, k)
    && (forall i: nat :: FirstRelevant(ranked, gold, i) ==> IsRatio(m.reciprocalRank, 1, i + 1))
    && ((forall id :: id in ranked ==> id !in gold) ==> m.reciprocalRank == 0.0)
    && (m.hit <==> exists i :: 0 <= i < |ranked| && i < k && ranked[i] in gold)
  }

  lemma MetricsAre(ranked: seq<string>, gold: set<string>, k: int)
    ensures AreMetrics(MetricsOf(ranked, gold, k), ranked, gold, k)
  {
    if k > 0 {
      hide Filter, IsRatio;
      var relevant := Filter(TopK(ranked, k), InGold(gold));
      var rank := FirstRank(ranked, gold);
      var m := MetricsOf(ranked, gold, k);
      HitIsRank(ranked, gold, k);
      assert ranked[..|ranked|] == ranked;
      QuotientIsRatio(|relevant|, k);
      if rank > 0 {
        QuotientIsRatio(1, rank);
        assert ranked[rank - 1] in ranked;
        assert forall i: nat :: FirstRelevant(ranked, gold, i) ==> i + 1 == rank;
      }
    }
  }

  method ComputeMetrics(ranked: seq<string>, gold: set<string>, k: int) returns (m: Metrics)
    ensures AreMetrics(m, ranked, gold, k)
    ensures m == MetricsOf(ranked, gold, k)
  {
    MetricsAre(ranked, gold, k);
    hide AreMetrics;
    if k <= 0 {
      return Metrics(0.0, 0.0, false);
    }
    var relevant := Filter(TopK(ranked, k), InGold(gold));
    var reciprocalRank := 0.0;
    var found := false;
    for i := 0 to |ranked|
      invariant !found && reciprocalRank == 0.0
      invariant forall j :: 0 <= j < i ==> ranked[j] !in gold
    {
      if ranked[i] in gold {
        assert FirstRank(ranked, gold) == i + 1;
        reciprocalRank := 1.0 / (i + 1) as real;
        found := true;
        break;
      }
    }
    return Metrics(|relevant| as real / k as real, reciprocalRank, |relevant| > 0);
  }

  lemma InverseOrder(a: real, b: real)
    requires a > 0.0 && b > 0.0
    ensures 1.0 / a >= 1.0 / b <==> a <= b
    ensures 1.0 / a > 0.0
  {
    Quotient(1.0, a);
    Quotient(1.0, b);
    TimesLess(1.0 / a, 1.0 / b, a * b);
    assert (1.0 / a) * (a * b) == ((1.0 / a) * a) * b;
    assert (1.0 / b) * (a * b) == ((1.0 / b) * b) * a;
    TimesLess(1.0 / a, 0.0, a);
  }

  lemma HitIsRank(ranked: seq<string>, gold: set<string>, k: nat)
    ensures Filter(TopK(ranked, k), InGold(gold)) != [] <==> 1 <= FirstRank(ranked, gold) <= k
  {
    var top := TopK(ranked, k);
    var r := FirstRank(ranked, gold);
    FilterMembers(top, InGold(gold));
    var relevant := Filter(top, InGold(gold));
    if relevant != [] {
      assert relevant[0] in relevant;
      var i :| 0 <= i < |top| && top[i] == relevant[0];
      assert ranked[i] in gold;
    }
    if 1 <= r <= k {
      assert top[r - 1] == ranked[r - 1] && top[r - 1] in top;
    }
  }

  /** A hit is a reciprocal rank of at least 1/k; without one it is at most 1/(k+1). */
  lemma HitExactly(ranked: seq<string>, gold: set<string>, k: int)
    requires k >= 1
    ensures var m := MetricsOf(ranked, gold, k);
      && (m.hit <==> m.reciprocalRank >= 1.0 / k as real)
      && 0.0 <= m.reciprocalRank <= 1.0
      && (!m.hit ==> m.reciprocalRank <= 1.0 / (k + 1) as real)
  {
    var rank := FirstRank(ranked, gold);
    HitIsRank(ranked, gold, k);
    InverseOrder(k as real, k as real);
    InverseOrder((k + 1) as real, (k + 1) as real);
    if rank > 0 {
      InverseOrder(rank as real, k as real);
      InverseOrder(1.0, rank as real);
      InverseOrder((k + 1) as real, rank as real);
      QuotientIs(1.0, 1.0, 1.0);
    }
  }

  lemma {:induction false} DistinctRelevant(ids: seq<string>, gold: set<string>)
    requires NoDuplicates(ids)
    ensures |Filter(ids, InGold(gold))| <= |gold|
    decreases |ids|
  {
    if ids != [] {
      var n := |ids| - 1;
      FilterLast(ids, InGold(gold));
      if ids[n] in gold {
        var less := gold - {ids[n]};
        DistinctRelevant(ids[..n], less);
        FilterAligned(ids[..n], InGold(gold), ids[..n], InGold(less));
        assert |gold| == |less| + 1;
      } else {
        DistinctRelevant(ids[..n], gold);
      }
    }
  }

  /** Precision is at most min(k, |gold|)/k on a duplicate-free list, and at most 1, or 0 without a hit, on any. */
  lemma PrecisionBounds(ranked: seq<string>, gold: set<string>, k: int)
    requires k >= 1
    ensures var m := MetricsOf(ranked, gold, k);
      && 0.0 <= m.precision <= (if m.hit then 1.0 else 0.0)
      && (NoDuplicates(ranked) ==> m.precision <= (if k < |gold| then k else |gold|) as real / k as real)
  {
    var top := TopK(ranked, k);
    var relevant := Filter(top, InGold(gold));
    FilterMembers(top, InGold(gold));
    DivideLe(0.0, |relevant| as real, k as real);
    DivideLe(|relevant| as real, k as real, k as real);
    QuotientIs(0.0, k as real, 0.0);
    QuotientIs(k as real, k as real, 1.0);
    if NoDuplicates(ranked) {
      DistinctRelevant(top, gold);
      DivideLe(|relevant| as real, (if k < |gold| then k else |gold|) as real, k as real);
    }
  }

  // ---------- A query set ----------

  datatype Query = Query(text: string, gold: set<string>)

  datatype Report = Report(precision: real, mrr: real, hitRate: real)

  /** A recall surface: the ranked ids, or nothing when it raises. */
  type Retriever = (string, int) -> Option<seq<string>>

  function ScoreOf(q: Query, retriever: Retriever, k: int): Metrics
  {
    var ranked := retriever(q.text, k);
    MetricsOf(if ranked.Some? then ranked.value else [], q.gold, k)
  }

  function Precision(): Metrics -> real { (m: Metrics) => m.precision }
  function Rank(): Metrics -> real { (m: Metrics) => m.reciprocalRank }
  function Hit(): Metrics -> real { (m: Metrics) => if m.hit then 1.0 else 0.0 }

  function ReportOf(scores: seq<Metrics>): Report
  {
    var n := (if scores == [] then 1 else |scores|) as real;
    Report(SumBy(scores, Precision()) / n, SumBy(scores, Rank()) / n, SumBy(scores, Hit()) / n)
  }

  function Scores(queries: seq<Query>, retriever: Retriever, k: int): seq<Metrics>
  {
    Map(queries, (q: Query) => ScoreOf(q, retriever, k))
  }

  /** Each figure is the mean of its scores, 0 for no queries. */
  ghost predicate AreMeans(report: Report, scores: seq<Metrics>)
  {
    IsMean(report.precision, scores, Precision()) && IsMean(report.mrr, scores, Rank())
    && IsMean(report.hitRate, scores, Hit())
  }

  lemma ReportIsMeans(scores: seq<Metrics>)
    ensures AreMeans(ReportOf(scores), scores)
  {
    QuotientIsMean(scores, Precision());
    QuotientIsMean(scores, Rank());
    QuotientIsMean(scores, Hit());
    if scores == [] {
      QuotientIs(0.0, 1.0, 0.0);
    }
  }

  method RunRetrievalEval(queries: seq<Query>, retriever: Retriever, k: int) returns (report: Report)
    ensures AreMeans(report, Scores(queries, retriever, k))
    ensures report == ReportOf(Scores(queries, retriever, k))
  {
    hide AreMeans;
    ReportIsMeans(Scores(queries, retriever, k));
    var scores: seq<Metrics> := [];
    for i := 0 to |queries|
      invariant scores == Scores(queries[..i], retriever, k)
    {
      MapNext(queries, i, (q: Query) => ScoreOf(q, retriever, k));
      var found := retriever(queries[i].text, k);
      var ranked := if found.Some? then found.value else [];
      var m := ComputeMetrics(ranked, queries[i].gold, k);
      scores := scores + [m];
    }
    assert queries[..|queries|] == queries;
    return ReportOf(scores);
  }

  /** The bounds on the summed reciprocal ranks of `n` queries with this many hits. */
  ghost predicate Between(a: real, b: real, n: real, hits: real, ranks: real)
  {
    a * hits <= ranks <= b * n + (1.0 - b) * hits
  }

  /** What holds of each query: precision at most the hit, and the reciprocal rank between the two hit bounds. */
  ghost predicate Bounded(m: Metrics, a: real, b: real)
  {
    m.precision <= Hit()(m) && Between(a, b, 1.0, Hit()(m), m.reciprocalRank)
  }

  lemma QueryBounded(q: Query, retriever: Retriever, k: int)
    requires k >= 1
    ensures Bounded(ScoreOf(q, retriever, k), 1.0 / k as real, 1.0 / (k + 1) as real)
  {
    hide MetricsOf;
    var found := retriever(q.text, k);
    var ranked := if found.Some? then found.value else [];
    PrecisionBounds(ranked, q.gold, k);
    HitExactly(ranked, q.gold, k);
  }

  /** The bounds of the queries add up. */
  lemma {:induction false} SumsBounded(scores: seq<Metrics>, a: real, b: real)
    requires forall i :: 0 <= i < |scores| ==> Bounded(scores[i], a, b)
    ensures SumBy(scores, Precision()) <= SumBy(scores, Hit())
    ensures Between(a, b, |scores| as real, SumBy(scores, Hit()), SumBy(scores, Rank()))
  {
    if scores == [] {
      assert Between(a, b, 0.0, 0.0, 0.0);
    } else {
      hide Between;
      var n := |scores| - 1;
      SumsBounded(scores[..n], a, b);
      assert Bounded(scores[n], a, b);
      AddBounds(a, b, n as real, SumBy(scores[..n], Hit()), SumBy(scores[..n], Rank()),
        Hit()(scores[n]), Rank()(scores[n]));
    }
  }

  lemma AddBounds(a: real, b: real, n: real, hits: real, ranks: real, h: real, r: real)
    requires Between(a, b, n, hits, ranks) && Between(a, b, 1.0, h, r)
    ensures Between(a, b, n + 1.0, hits + h, ranks + r)
  {
    Distribute(a, hits, h);
    Distribute(1.0 - b, hits, h);
    Distribute(b, n, 1.0);
  }

  lemma Distribute(c: real, x: real, y: real)
    ensures c * (x + y) == c * x + c * y
  {
  }

  /** mean precision <= hit rate, and hit rate / k <= MRR <= hit rate + (1 - hit rate)/(k + 1). */
  lemma ReportBounds(queries: seq<Query>, retriever: Retriever, k: int)
    requires k >= 1
    ensures var r := ReportOf(Scores(queries, retriever, k));
      && r.precision <= r.hitRate
      && r.hitRate / k as real <= r.mrr <= r.hitRate + (1.0 - r.hitRate) / (k + 1) as real
  {
    hide ScoreOf, Bounded, SumBy;
    var scores := Scores(queries, retriever, k);
    forall i | 0 <= i < |scores| ensures Bounded(scores[i], 1.0 / k as real, 1.0 / (k + 1) as real) {
      QueryBounded(queries[i], retriever, k);
    }
    SumsBounded(scores, 1.0 / k as real, 1.0 / (k + 1) as real);
    var n := (if scores == [] then 1 else |scores|) as real;
    DivideLe(SumBy(scores, Precision()), SumBy(scores, Hit()), n);
    MeanBounds(SumBy(scores, Hit()), SumBy(scores, Rank()), |scores| as real, n, k as real);
  }

  /** Dividing the summed bounds by the number of queries. */
  lemma MeanBounds(hits: real, ranks: real, count: real, n: real, k: real)
    requires n > 0.0 && k >= 1.0 && 0.0 <= count <= n
    requires Between(1.0 / k, 1.0 / (k + 1.0), count, hits, ranks)
    ensures (hits / n) / k <= ranks / n <= hits / n + (1.0 - hits / n) / (k + 1.0)
  {
    hide Between;
    var h, m := hits / n, ranks / n;
    InverseOrder(k + 1.0, k + 1.0);
    Quotient(hits, n);
    Quotient(ranks, n);
    ScaledBounds(1.0 / k, 1.0 / (k + 1.0), h, hits, m, ranks, count, n);
    TimesInverse(h, k);
    TimesInverse(1.0 - h, k + 1.0);
  }

  lemma TimesInverse(x: real, t: real)
    requires t != 0.0
    ensures x / t == (1.0 / t) * x
  {
    Quotient(1.0, t);
    assert ((1.0 / t) * x) * t == ((1.0 / t) * t) * x;
    QuotientIs(x, t, (1.0 / t) * x);
  }

  lemma TimesNonNegativeLe(b: real, x: real, y: real)
    requires b >= 0.0 && x <= y
    ensures b * x <= b * y
  {
    assert b * (y - x) == b * y - b * x;
  }

  /** Bounds on the sums, n times the means, bound the means. */
  lemma ScaledBounds(a: real, b: real, h: real, hits: real, m: real, ranks: real, count: real, n: real)
    requires n > 0.0 && count <= n && b >= 0.0 && h * n == hits && m * n == ranks && Between(a, b, count, hits, ranks)
    ensures a * h <= m <= h + b * (1.0 - h)
  {
    TimesNonNegativeLe(b, count, n);
    assert (a * h) * n == a * (h * n);
    TimesLess(m, a * h, n);
    Distribute(b, 1.0, -h);
    assert (h + b * (1.0 - h)) * n == b * n + (1.0 - b) * (h * n);
    TimesLess(h + b * (1.0 - h), m, n);
  }
}
