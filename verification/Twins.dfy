/** When a retired agent is sure to leave a similar, better agent behind, and when it is not. */
module Twins {
  import opened Options
  import opened Sums
  import opened Cosine
  import opened AgentRegistry
  import opened Redundancy

  /** Some row that survives is similar to row `i` and ranks above it. */
  ghost predicate HasTwin(rows: seq<Capability>, retired: set<string>, i: nat, threshold: real, sqrt: real -> real)
    requires IsSqrt(sqrt)
  {
    exists k: nat :: k < |rows| && rows[k].name !in retired && Beats(rows, k, i, threshold, sqrt)
  }

  /** Whoever is retired has such a twin. */
  ghost predicate TwinsSurvive(rows: seq<Capability>, threshold: real, sqrt: real -> real)
    requires IsSqrt(sqrt)
  {
    forall i: nat :: i < |rows| && rows[i].name in RedundantIn(rows, threshold, sqrt)
      ==> HasTwin(rows, RedundantIn(rows, threshold, sqrt), i, threshold, sqrt)
  }

  /** No row scores less than a later one, the last two rows excepted. */
  ghost predicate OnlyLastAscends(rows: seq<Capability>)
  {
    forall i, j :: 0 <= i < j < |rows| && Less(rows[i].score, rows[j].score) ==> i + 2 >= |rows|
  }

  // ---------- Descending scores suffice ----------

  /** The twins of the retired rows are found among the first `bound` rows. */
  ghost predicate TwinsBefore(rows: seq<Capability>, retired: set<string>, bound: nat, threshold: real,
                              sqrt: real -> real)
    requires IsSqrt(sqrt)
  {
    forall i: nat :: i < |rows| && rows[i].name in retired ==>
      exists k: nat :: k < bound && k < |rows| && rows[k].name !in retired && Beats(rows, k, i, threshold, sqrt)
  }

  lemma ScanPairTwins(rows: seq<Capability>, i: nat, j: nat, retired: set<string>, threshold: real, sqrt: real -> real)
    requires IsSqrt(sqrt) && UniqueNames(rows) && i < j < |rows| && rows[i].name !in retired
    requires !Less(rows[i].score, rows[j].score) && TwinsBefore(rows, retired, i + 1, threshold, sqrt)
    ensures var r := ScanPair(rows, i, j, retired, threshold, sqrt);
      rows[i].name !in r && TwinsBefore(rows, r, i + 1, threshold, sqrt)
  {
    hide Similar;
    ScoreOrder();
    var r := ScanPair(rows, i, j, retired, threshold, sqrt);
    forall a: nat | a < |rows| && rows[a].name in r
      ensures exists k: nat :: k < i + 1 && k < |rows| && rows[k].name !in r && Beats(rows, k, a, threshold, sqrt)
    {
      if rows[a].name in retired {
        var k: nat :| k < i + 1 && k < |rows| && rows[k].name !in retired && Beats(rows, k, a, threshold, sqrt);
        assert rows[k].name !in r;
      } else {
        assert a == j && Beats(rows, i, a, threshold, sqrt);
      }
    }
  }

  lemma {:induction false} ScanRestTwins(rows: seq<Capability>, i: nat, j: nat, retired: set<string>, threshold: real,
                                         sqrt: real -> real)
    requires IsSqrt(sqrt) && UniqueNames(rows) && i < j <= |rows| && rows[i].name !in retired
    requires forall k :: i < k < |rows| ==> !Less(rows[i].score, rows[k].score)
    requires TwinsBefore(rows, retired, i + 1, threshold, sqrt)
    ensures TwinsBefore(rows, ScanRest(rows, i, j, retired, threshold, sqrt), i + 1, threshold, sqrt)
    decreases |rows| - j
  {
    hide TwinsBefore, ScanPair, Less, UniqueNames;
    if j < |rows| {
      ScanPairTwins(rows, i, j, retired, threshold, sqrt);
      ScanRestTwins(rows, i, j + 1, ScanPair(rows, i, j, retired, threshold, sqrt), threshold, sqrt);
    }
  }

  lemma LaterBound(rows: seq<Capability>, retired: set<string>, bound: nat, later: nat, threshold: real,
                   sqrt: real -> real)
    requires IsSqrt(sqrt) && bound <= later && TwinsBefore(rows, retired, bound, threshold, sqrt)
    ensures TwinsBefore(rows, retired, later, threshold, sqrt)
  {
    forall a: nat | a < |rows| && rows[a].name in retired
      ensures exists k: nat :: k < later && k < |rows| && rows[k].name !in retired && Beats(rows, k, a, threshold, sqrt)
    {
      var k: nat :| k < bound && k < |rows| && rows[k].name !in retired && Beats(rows, k, a, threshold, sqrt);
      assert k < later;
    }
  }

  /** The last pair may be in any order: its loser's twin is the other row. */
  lemma LastPairTwins(rows: seq<Capability>, i: nat, retired: set<string>, threshold: real, sqrt: real -> real)
    requires IsSqrt(sqrt) && UniqueNames(rows) && i + 2 == |rows| && rows[i].name !in retired
    requires TwinsBefore(rows, retired, i, threshold, sqrt)
    ensures TwinsBefore(rows, ScanPair(rows, i, i + 1, retired, threshold, sqrt), |rows|, threshold, sqrt)
  {
    hide Similar;
    ScoreOrder();
    SimilarSymmetric(rows[i], rows[i + 1], threshold, sqrt);
    var r := ScanPair(rows, i, i + 1, retired, threshold, sqrt);
    forall a: nat | a < |rows| && rows[a].name in r
      ensures exists k: nat :: k < |rows| && k < |rows| && rows[k].name !in r && Beats(rows, k, a, threshold, sqrt)
    {
      if rows[a].name in retired {
        var k: nat :| k < i && k < |rows| && rows[k].name !in retired && Beats(rows, k, a, threshold, sqrt);
        assert rows[k].name !in r;
      } else {
        var other: nat := if a == i then i + 1 else i;
        assert Beats(rows, other, a, threshold, sqrt);
      }
    }
  }

  lemma {:induction false} ScanFromTwins(rows: seq<Capability>, i: nat, retired: set<string>, threshold: real,
                                         sqrt: real -> real)
    requires IsSqrt(sqrt) && UniqueNames(rows) && i <= |rows| && OnlyLastAscends(rows)
    requires TwinsBefore(rows, retired, i, threshold, sqrt)
    ensures TwinsBefore(rows, ScanFrom(rows, i, retired, threshold, sqrt), |rows|, threshold, sqrt)
    decreases |rows| - i
  {
    hide TwinsBefore, ScanPair, Less, UniqueNames;
    LaterBound(rows, retired, i, |rows|, threshold, sqrt);
    if i + 2 < |rows| {
      LaterBound(rows, retired, i, i + 1, threshold, sqrt);
      if rows[i].name !in retired {
        ScanRestTwins(rows, i, i + 1, retired, threshold, sqrt);
      }
      var next := if rows[i].name in retired then retired else ScanRest(rows, i, i + 1, retired, threshold, sqrt);
      ScanFromTwins(rows, i + 1, next, threshold, sqrt);
    } else if i + 2 == |rows| {
      if rows[i].name !in retired {
        LastPairTwins(rows, i, retired, threshold, sqrt);
      }
      LastRows(rows, i, retired, threshold, sqrt);
    } else if i < |rows| {
      assert ScanRest(rows, i, i + 1, retired, threshold, sqrt) == retired;
      assert ScanFrom(rows, i + 1, retired, threshold, sqrt) == retired;
    }
  }

  lemma LastRows(rows: seq<Capability>, i: nat, retired: set<string>, threshold: real, sqrt: real -> real)
    requires IsSqrt(sqrt) && i + 2 == |rows|
    ensures ScanFrom(rows, i, retired, threshold, sqrt)
         == if rows[i].name in retired then retired else ScanPair(rows, i, i + 1, retired, threshold, sqrt)
  {
    hide ScanPair;
    var next := if rows[i].name in retired then retired else ScanPair(rows, i, i + 1, retired, threshold, sqrt);
    assert ScanRest(rows, i, i + 1, retired, threshold, sqrt) == ScanPair(rows, i, i + 1, retired, threshold, sqrt);
    assert ScanRest(rows, i + 1, i + 2, next, threshold, sqrt) == next;
    assert ScanFrom(rows, i + 2, next, threshold, sqrt) == next;
    assert ScanFrom(rows, i + 1, next, threshold, sqrt) == next;
  }

  /** With descending scores every retired row leaves a similar, better survivor. */
  lemma DescendingKeepsTwins(rows: seq<Capability>, threshold: real, sqrt: real -> real)
    requires IsSqrt(sqrt) && UniqueNames(rows) && OnlyLastAscends(rows)
    ensures TwinsSurvive(rows, threshold, sqrt)
  {
    hide Beats, ScanFrom, UniqueNames, OnlyLastAscends;
    ScanFromTwins(rows, 0, {}, threshold, sqrt);
  }

  // ---------- At the ends of the range similarity is transitive, and any order will do ----------

  ghost predicate SimilarIsTransitive(rows: seq<Capability>, threshold: real, sqrt: real -> real)
    requires IsSqrt(sqrt)
  {
    forall a, b, c :: 0 <= a < |rows| && 0 <= b < |rows| && 0 <= c < |rows|
      && Similar(rows[a], rows[b], threshold, sqrt) && Similar(rows[b], rows[c], threshold, sqrt)
      ==> Similar(rows[a], rows[c], threshold, sqrt)
  }

  lemma {:induction false} TransitiveTwin(rows: seq<Capability>, i: nat, threshold: real, sqrt: real -> real)
    requires IsSqrt(sqrt) && UniqueNames(rows) && SimilarIsTransitive(rows, threshold, sqrt)
    requires i < |rows| && rows[i].name in RedundantIn(rows, threshold, sqrt)
    ensures HasTwin(rows, RedundantIn(rows, threshold, sqrt), i, threshold, sqrt)
    decreases |BetterRows(rows, i)|
  {
    hide RedundantIn, BetterRows, SimilarIsTransitive;
    var k := Beater(rows, i, threshold, sqrt);
    if rows[k].name in RedundantIn(rows, threshold, sqrt) {
      FewerBetter(rows, k, i);
      TransitiveTwin(rows, k, threshold, sqrt);
      var retired := RedundantIn(rows, threshold, sqrt);
      var t: nat :| t < |rows| && rows[t].name !in retired && Beats(rows, t, k, threshold, sqrt);
      BeatsTransitive(rows, t, k, i, threshold, sqrt);
    }
  }

  lemma Beater(rows: seq<Capability>, i: nat, threshold: real, sqrt: real -> real) returns (k: nat)
    requires IsSqrt(sqrt) && UniqueNames(rows) && i < |rows| && rows[i].name in RedundantIn(rows, threshold, sqrt)
    ensures k < |rows| && Beats(rows, k, i, threshold, sqrt)
  {
    hide Similar, RedundantIn;
    RedundancyGuarantees(rows, threshold, sqrt);
    var i': nat;
    k, i' :| Beats(rows, k, i', threshold, sqrt) && rows[i'].name == rows[i].name;
    assert i' == i;
  }

  lemma BeatsTransitive(rows: seq<Capability>, t: nat, k: nat, i: nat, threshold: real, sqrt: real -> real)
    requires IsSqrt(sqrt) && SimilarIsTransitive(rows, threshold, sqrt)
    requires Beats(rows, t, k, threshold, sqrt) && Beats(rows, k, i, threshold, sqrt)
    ensures Beats(rows, t, i, threshold, sqrt)
  {
    hide Similar;
    ScoreOrder();
  }

  function Mixed(q: real, a: real, p: real, b: real): real
  {
    q * a - p * b
  }

  /** q u - p v */
  function Combined(q: real, u: seq<real>, p: real, v: seq<real>): (z: seq<real>)
    requires |u| == |v|
    ensures |z| == |u| && forall i :: 0 <= i < |u| ==> z[i] == Mixed(q, u[i], p, v[i])
  {
    seq(|u|, i requires 0 <= i < |u| => Mixed(q, u[i], p, v[i]))
  }

  lemma CombinedTerm(q: real, a: real, p: real, b: real, c: real, s: real, t: real)
    ensures (q * s - p * t) + (q * a - p * b) * c == q * (s + a * c) - p * (t + b * c)
  {
    assert (q * a - p * b) * c == q * (a * c) - p * (b * c);
    assert q * (s + a * c) == q * s + q * (a * c);
    assert p * (t + b * c) == p * t + p * (b * c);
  }

  lemma CombinedFront(q: real, u: seq<real>, p: real, v: seq<real>)
    requires |u| == |v| && u != []
    ensures var n := |u| - 1; Combined(q, u, p, v)[..n] == Combined(q, u[..n], p, v[..n])
  {
    hide Mixed;
  }

  lemma {:induction false} CombinedDot(q: real, u: seq<real>, p: real, v: seq<real>, w: seq<real>)
    requires |u| == |v| == |w|
    ensures Dot(Combined(q, u, p, v), w) == q * Dot(u, w) - p * Dot(v, w)
  {
    if u != [] {
      var n := |u| - 1;
      var z := Combined(q, u, p, v);
      CombinedFront(q, u, p, v);
      CombinedDot(q, u[..n], p, v[..n], w[..n]);
      CombinedTerm(q, u[n], p, v[n], w[n], Dot(u[..n], w[..n]), Dot(v[..n], w[..n]));
      assert Dot(z, w) == Dot(z[..n], w[..n]) + z[n] * w[n];
    }
  }

  lemma {:induction false} ZeroDot(z: seq<real>, w: seq<real>)
    requires |z| == |w| && IsZero(z)
    ensures Dot(z, w) == 0.0
  {
    if z != [] {
      ZeroDot(z[..|z| - 1], w[..|z| - 1]);
    }
  }

  /** Vectors of similarity 1 point the same way: q u = p v for their norms p, q. */
  lemma SameDirection(u: seq<real>, v: seq<real>, w: seq<real>, p: real, q: real)
    requires |u| == |v| == |w| && p * p == Dot(u, u) && q * q == Dot(v, v) && Dot(u, v) == p * q
    ensures q * Dot(u, w) == p * Dot(v, w)
  {
    hide Dot;
    var z := Combined(q, u, p, v);
    DotSymmetric(u, z);
    DotSymmetric(v, z);
    CombinedDot(q, u, p, v, z);
    CombinedDot(q, u, p, v, u);
    CombinedDot(q, u, p, v, v);
    DotSymmetric(u, v);
    assert Dot(z, u) == q * (p * p) - p * (p * q);
    assert Dot(z, v) == q * (p * q) - p * (q * q);
    assert q * (p * p) == p * (p * q) && q * (p * q) == p * (q * q);
    DotSelf(z);
    ZeroDot(z, w);
    CombinedDot(q, u, p, v, w);
  }

  lemma OneMeansProduct(d: real, n: real)
    requires n > 0.0
    ensures d / n == 1.0 <==> d == n
  {
    Quotient(d, n);
    if d == n {
      QuotientIs(d, n, 1.0);
    }
  }

  lemma SimilarityIsOne(u: seq<real>, v: seq<real>, sqrt: real -> real)
    requires IsSqrt(sqrt) && |u| == |v|
    ensures Similarity(u, v, sqrt) >= 1.0
      <==> Dot(u, u) != 0.0 && Dot(v, v) != 0.0 && Dot(u, v) == sqrt(Dot(u, u)) * sqrt(Dot(v, v))
  {
    hide Dot;
    SimilarityBounds(u, v, sqrt);
    NormPositive(u, sqrt);
    NormPositive(v, sqrt);
    if Dot(u, u) != 0.0 && Dot(v, v) != 0.0 {
      var p, q := sqrt(Dot(u, u)), sqrt(Dot(v, v));
      TimesPositive(p, q);
      OneMeansProduct(Dot(u, v), p * q);
    }
  }

  lemma OneIsTransitive(u: seq<real>, v: seq<real>, w: seq<real>, sqrt: real -> real)
    requires IsSqrt(sqrt) && |u| == |v| == |w|
    requires Similarity(u, v, sqrt) >= 1.0 && Similarity(v, w, sqrt) >= 1.0
    ensures Similarity(u, w, sqrt) >= 1.0
  {
    hide Dot, Similarity;
    SimilarityIsOne(u, v, sqrt);
    SimilarityIsOne(v, w, sqrt);
    SimilarityIsOne(u, w, sqrt);
    NormPositive(u, sqrt);
    NormPositive(v, sqrt);
    var p, q, r := sqrt(Dot(u, u)), sqrt(Dot(v, v)), sqrt(Dot(w, w));
    SameDirection(u, v, w, p, q);
    CancelNorm(q, Dot(u, w), p, r);
  }

  lemma CancelNorm(q: real, d: real, p: real, r: real)
    requires q != 0.0 && q * d == p * (q * r)
    ensures d == p * r
  {
    assert q * (d - p * r) == q * d - p * (q * r);
    ZeroProduct(q, d - p * r);
  }

  /** At thresholds of 1 and above, or -1 and below, twins survive in any order of scores. */
  lemma EndsKeepTwins(rows: seq<Capability>, threshold: real, sqrt: real -> real)
    requires IsSqrt(sqrt) && UniqueNames(rows) && (threshold <= -1.0 || threshold >= 1.0)
    ensures TwinsSurvive(rows, threshold, sqrt)
  {
    if threshold > 1.0 {
      ThresholdAboveOne(rows, threshold, sqrt);
    } else {
      EndsTransitive(rows, threshold, sqrt);
      forall i: nat | i < |rows| && rows[i].name in RedundantIn(rows, threshold, sqrt)
        ensures HasTwin(rows, RedundantIn(rows, threshold, sqrt), i, threshold, sqrt)
      {
        TransitiveTwin(rows, i, threshold, sqrt);
      }
    }
  }

  lemma EndsTransitive(rows: seq<Capability>, threshold: real, sqrt: real -> real)
    requires IsSqrt(sqrt) && (threshold <= -1.0 || threshold == 1.0)
    ensures SimilarIsTransitive(rows, threshold, sqrt)
  {
    hide Similarity;
    forall a, b, c | 0 <= a < |rows| && 0 <= b < |rows| && 0 <= c < |rows|
      && Similar(rows[a], rows[b], threshold, sqrt) && Similar(rows[b], rows[c], threshold, sqrt)
      ensures Similar(rows[a], rows[c], threshold, sqrt)
    {
      var u, v, w := rows[a].embedding.value, rows[b].embedding.value, rows[c].embedding.value;
      SimilarityBounds(u, w, sqrt);
      if threshold == 1.0 {
        OneIsTransitive(u, v, w, sqrt);
      }
    }
  }

  // ---------- In between, any earlier ascent can cost a twin ----------

  ghost predicate Linked(x: nat, y: nat, r: nat, a: nat, b: nat)
  {
    (a == x && (b == y || b == r)) || (b == x && (a == y || a == r))
  }

  /** The only similar pairs are (x, y) and (x, r), y ranks above x, x above r, and y is not the first of the three. */
  ghost predicate BrokenChain(rows: seq<Capability>, x: nat, y: nat, r: nat, threshold: real, sqrt: real -> real)
    requires IsSqrt(sqrt)
  {
    && x < |rows| && y < |rows| && r < |rows| && x != y && y != r && x != r
    && Better(rows, y, x) && Better(rows, x, r) && (x < y || r < y)
    && forall a: nat, b: nat :: a < |rows| && b < |rows| && a != b ==>
         (Similar(rows[a], rows[b], threshold, sqrt) <==> Linked(x, y, r, a, b))
  }

  lemma {:induction false} ScanLoner(rows: seq<Capability>, i: nat, j: nat, retired: set<string>, threshold: real,
                                     sqrt: real -> real)
    requires IsSqrt(sqrt) && i < j <= |rows|
    requires forall k :: i < k < |rows| ==> !Similar(rows[i], rows[k], threshold, sqrt)
    ensures ScanRest(rows, i, j, retired, threshold, sqrt) == retired
    decreases |rows| - j
  {
    hide Similar;
    if j < |rows| {
      ScanLoner(rows, i, j + 1, retired, threshold, sqrt);
    }
  }

  lemma {:induction false} SkipLoners(rows: seq<Capability>, i: nat, stop: nat, threshold: real, sqrt: real -> real)
    requires IsSqrt(sqrt) && i <= stop <= |rows|
    requires forall a, b :: i <= a < stop && a < b < |rows| ==> !Similar(rows[a], rows[b], threshold, sqrt)
    ensures ScanFrom(rows, i, {}, threshold, sqrt) == ScanFrom(rows, stop, {}, threshold, sqrt)
    decreases stop - i
  {
    hide Similar;
    if i < stop {
      ScanLoner(rows, i, i + 1, {}, threshold, sqrt);
      SkipLoners(rows, i + 1, stop, threshold, sqrt);
    }
  }

  /** What one pass adds: rows that lose to row `i`, or row `i` itself. */
  lemma {:induction false} ScanRestAdds(rows: seq<Capability>, i: nat, j: nat, retired: set<string>, k: nat,
                                        threshold: real, sqrt: real -> real)
    requires IsSqrt(sqrt) && UniqueNames(rows) && i < j <= |rows| && k < |rows| && k != i && rows[k].name !in retired
    ensures var r := ScanRest(rows, i, j, retired, threshold, sqrt);
      rows[k].name in r <==> j <= k && Similar(rows[i], rows[k], threshold, sqrt) && !Less(rows[i].score, rows[k].score)
    decreases |rows| - j
  {
    hide Similar, Less;
    if j < |rows| {
      var next := ScanPair(rows, i, j, retired, threshold, sqrt);
      if rows[k].name in next {
        ScanRestKeeps(rows, i, j + 1, next, threshold, sqrt);
      } else {
        ScanRestAdds(rows, i, j + 1, next, k, threshold, sqrt);
      }
    }
  }

  lemma {:induction false} ScanRestKeeps(rows: seq<Capability>, i: nat, j: nat, retired: set<string>, threshold: real,
                                         sqrt: real -> real)
    requires IsSqrt(sqrt) && i < j <= |rows|
    ensures retired <= ScanRest(rows, i, j, retired, threshold, sqrt)
    decreases |rows| - j
  {
    hide Similar, Less;
    if j < |rows| {
      ScanRestKeeps(rows, i, j + 1, ScanPair(rows, i, j, retired, threshold, sqrt), threshold, sqrt);
    }
  }

  lemma {:induction false} ScanFromKeeps(rows: seq<Capability>, i: nat, retired: set<string>, threshold: real,
                                         sqrt: real -> real)
    requires IsSqrt(sqrt) && i <= |rows|
    ensures retired <= ScanFrom(rows, i, retired, threshold, sqrt)
    decreases |rows| - i
  {
    hide ScanRest;
    if i < |rows| {
      ScanRestKeeps(rows, i, i + 1, retired, threshold, sqrt);
      var next := if rows[i].name in retired then retired else ScanRest(rows, i, i + 1, retired, threshold, sqrt);
      ScanFromKeeps(rows, i + 1, next, threshold, sqrt);
    }
  }

  /** Row `r` is retired and so is every row similar to it. */
  ghost predicate Abandoned(rows: seq<Capability>, r: nat, threshold: real, sqrt: real -> real)
    requires IsSqrt(sqrt) && r < |rows|
  {
    && rows[r].name in RedundantIn(rows, threshold, sqrt)
    && forall k: nat :: k < |rows| && k != r && Similar(rows[k], rows[r], threshold, sqrt) ==>
         rows[k].name in RedundantIn(rows, threshold, sqrt)
  }

  /** In a broken chain both lower rows are retired, and the lowest has no similar survivor at all. */
  lemma ChainLosesTwin(rows: seq<Capability>, x: nat, y: nat, r: nat, threshold: real, sqrt: real -> real)
    requires IsSqrt(sqrt) && UniqueNames(rows) && BrokenChain(rows, x, y, r, threshold, sqrt)
    ensures rows[x].name in RedundantIn(rows, threshold, sqrt) && Abandoned(rows, r, threshold, sqrt)
  {
    hide Similar, Less;
    LowestIsRetired(rows, x, y, r, threshold, sqrt);
    HighestStays(rows, x, y, r, threshold, sqrt);
    RedundancyGuarantees(rows, threshold, sqrt);
    var retired := RedundantIn(rows, threshold, sqrt);
    assert x < y ==> Settled(rows, retired, x, y, threshold, sqrt);
    assert y < x ==> Settled(rows, retired, y, x, threshold, sqrt);
    assert Linked(x, y, r, x, y) && Linked(x, y, r, y, x);
  }

  lemma HighestStays(rows: seq<Capability>, x: nat, y: nat, r: nat, threshold: real, sqrt: real -> real)
    requires IsSqrt(sqrt) && UniqueNames(rows) && BrokenChain(rows, x, y, r, threshold, sqrt)
    ensures rows[y].name !in RedundantIn(rows, threshold, sqrt)
  {
    hide Similar;
    ScoreOrder();
    forall k: nat ensures !Beats(rows, k, y, threshold, sqrt) {
    }
    UnbeatenSurvives(rows, y, threshold, sqrt);
  }

  /** The pass of the first of the three rows already retires the lowest one. */
  lemma LowestIsRetired(rows: seq<Capability>, x: nat, y: nat, r: nat, threshold: real, sqrt: real -> real)
    requires IsSqrt(sqrt) && UniqueNames(rows) && BrokenChain(rows, x, y, r, threshold, sqrt)
    ensures rows[r].name in RedundantIn(rows, threshold, sqrt)
  {
    hide Similar, ScanRest, UniqueNames, IsSqrt;
    var first := if x < r then x else r;
    SkipLoners(rows, 0, first, threshold, sqrt);
    var next := ScanRest(rows, first, first + 1, {}, threshold, sqrt);
    FirstPass(rows, x, y, r, threshold, sqrt);
    ScanFromKeeps(rows, first + 1, next, threshold, sqrt);
    assert ScanFrom(rows, first, {}, threshold, sqrt) == ScanFrom(rows, first + 1, next, threshold, sqrt);
  }

  lemma FirstPass(rows: seq<Capability>, x: nat, y: nat, r: nat, threshold: real, sqrt: real -> real)
    requires IsSqrt(sqrt) && UniqueNames(rows) && BrokenChain(rows, x, y, r, threshold, sqrt)
    ensures var first := if x < r then x else r;
      rows[r].name in ScanRest(rows, first, first + 1, {}, threshold, sqrt)
  {
    hide Similar;
    ScoreOrder();
    if x < r {
      ScanRestAdds(rows, x, x + 1, {}, r, threshold, sqrt);
      assert Linked(x, y, r, x, r);
    } else {
      ScanRestAdds(rows, r, r + 1, {}, x, threshold, sqrt);
      assert Linked(x, y, r, r, x);
      ScanRestGuarantees(rows, r, r + 1, {}, threshold, sqrt);
      assert Settled(rows, ScanRest(rows, r, r + 1, {}, threshold, sqrt), r, x, threshold, sqrt);
    }
  }

  // ---------- Vectors that make a broken chain ----------

  /** The vector (a, b, 0, ..., 0). */
  function Padded(n: nat, a: real, b: real): (v: seq<real>)
    requires n >= 2
    ensures |v| == n
  {
    if n == 2 then [a, b] else Padded(n - 1, a, b) + [0.0]
  }

  lemma {:induction false} PaddedDot(n: nat, a: real, b: real, c: real, d: real)
    requires n >= 2
    ensures Dot(Padded(n, a, b), Padded(n, c, d)) == a * c + b * d
  {
    var u, v := Padded(n, a, b), Padded(n, c, d);
    if n == 2 {
      assert u[..1] == [a] && v[..1] == [c] && [a][..0] == [] && [c][..0] == [];
      assert Dot([a], [c]) == a * c;
    } else {
      assert u[..n - 1] == Padded(n - 1, a, b) && v[..n - 1] == Padded(n - 1, c, d);
      PaddedDot(n - 1, a, b, c, d);
      DotSnoc(u, v);
    }
  }

  lemma UnitSimilarity(u: seq<real>, v: seq<real>, sqrt: real -> real)
    requires IsSqrt(sqrt) && |u| == |v| && Dot(u, u) == 1.0 && Dot(v, v) == 1.0
    ensures Similarity(u, v, sqrt) == Dot(u, v)
  {
    var r := sqrt(1.0);
    assert r * r == 1.0 && (r - 1.0) * (r + 1.0) == r * r - 1.0;
    ZeroProduct(r - 1.0, r + 1.0);
  }

  function Embedded(row: Capability, v: Option<seq<real>>): Capability
  {
    row.(embedding := v)
  }

  /** The three rows get the middle vector and the two wings, all others none. */
  function WithVectors(rows: seq<Capability>, x: nat, y: nat, r: nat, c: real, s: real): (other: seq<Capability>)
    ensures |other| == |rows|
    ensures forall k :: 0 <= k < |rows| ==> other[k] == Embedded(rows[k],
      if k == x then Some(Padded(DIMENSION, 1.0, 0.0))
      else if k == y then Some(Padded(DIMENSION, c, s))
      else if k == r then Some(Padded(DIMENSION, c, -s)) else None)
  {
    seq(|rows|, k requires 0 <= k < |rows| => Embedded(rows[k],
      if k == x then Some(Padded(DIMENSION, 1.0, 0.0))
      else if k == y then Some(Padded(DIMENSION, c, s))
      else if k == r then Some(Padded(DIMENSION, c, -s)) else None))
  }

  /** The same agents, up to their vectors. */
  ghost predicate SameAgents(rows: seq<Capability>, other: seq<Capability>)
  {
    && |rows| == |other|
    && forall i :: 0 <= i < |rows| ==> other[i].name == rows[i].name && other[i].score == rows[i].score
  }

  /** The vectors fit the capability column. */
  ghost predicate FitColumn(rows: seq<Capability>)
  {
    forall i :: 0 <= i < |rows| && rows[i].embedding.Some? ==> |rows[i].embedding.value| == DIMENSION
  }

  lemma SquareBelow(c: real)
    requires 0.0 <= c < 1.0
    ensures 0.0 <= Squared(c) < 1.0 && Squared(c) <= c
  {
    assert c * (1.0 - c) == c - c * c;
    TimesNonNegative(c, 1.0 - c);
    TimesNonNegative(c, c);
  }

  /** Cosine and sine of an angle that is similar once and not twice. */
  lemma WingAngle(threshold: real, sqrt: real -> real) returns (c: real, s: real)
    requires IsSqrt(sqrt) && -1.0 < threshold < 1.0
    ensures c * c + s * s == 1.0 && c >= threshold && c * c - s * s < threshold
  {
    c := if threshold <= 0.0 then 0.0 else threshold;
    s := sqrt(1.0 - Squared(c));
    SquareBelow(c);
    Apart(Squared(c), Squared(s), c, threshold);
  }

  function Squared(x: real): real
  {
    x * x
  }

  lemma Apart(q: real, p: real, c: real, t: real)
    requires q + p == 1.0 && 0.0 <= q < 1.0 && q <= c && -1.0 < t && c == if t <= 0.0 then 0.0 else t
    ensures q - p < t
  {
  }

  lemma WingSimilarities(c: real, s: real, sqrt: real -> real)
    requires IsSqrt(sqrt) && c * c + s * s == 1.0
    ensures var u, v, w := Padded(DIMENSION, 1.0, 0.0), Padded(DIMENSION, c, s), Padded(DIMENSION, c, -s);
      && Similarity(u, v, sqrt) == c && Similarity(v, u, sqrt) == c
      && Similarity(u, w, sqrt) == c && Similarity(w, u, sqrt) == c
      && Similarity(v, w, sqrt) == c * c - s * s && Similarity(w, v, sqrt) == c * c - s * s
  {
    hide Similarity, Dot, Padded;
    var n := DIMENSION;
    var u, v, w := Padded(n, 1.0, 0.0), Padded(n, c, s), Padded(n, c, -s);
    assert s * -s == -(s * s) && -s * s == -(s * s) && -s * -s == s * s;
    PaddedDot(n, 1.0, 0.0, 1.0, 0.0);
    PaddedDot(n, c, s, c, s);
    PaddedDot(n, c, -s, c, -s);
    PaddedDot(n, 1.0, 0.0, c, s);
    PaddedDot(n, 1.0, 0.0, c, -s);
    PaddedDot(n, c, s, c, -s);
    UnitSimilarity(u, v, sqrt);
    UnitSimilarity(u, w, sqrt);
    UnitSimilarity(v, w, sqrt);
    DotSymmetric(u, v);
    DotSymmetric(u, w);
    DotSymmetric(v, w);
    UnitSimilarity(v, u, sqrt);
    UnitSimilarity(w, u, sqrt);
    UnitSimilarity(w, v, sqrt);
  }

  lemma MakeBrokenChain(rows: seq<Capability>, x: nat, y: nat, r: nat, threshold: real, sqrt: real -> real)
    returns (other: seq<Capability>)
    requires IsSqrt(sqrt) && -1.0 < threshold < 1.0
    requires x < |rows| && y < |rows| && r < |rows| && x != y && y != r && x != r && (x < y || r < y)
    requires Better(rows, y, x) && Better(rows, x, r)
    ensures SameAgents(rows, other) && FitColumn(other) && BrokenChain(other, x, y, r, threshold, sqrt)
  {
    hide Padded, Similarity, Less;
    var c, s := WingAngle(threshold, sqrt);
    WingSimilarities(c, s, sqrt);
    other := WithVectors(rows, x, y, r, c, s);
  }

  /** An ascent before the last two rows: some vectors leave a retired row without any similar survivor. */
  lemma AscentLosesTwin(rows: seq<Capability>, i: nat, j: nat, threshold: real, sqrt: real -> real)
    returns (other: seq<Capability>, r: nat)
    requires IsSqrt(sqrt) && UniqueNames(rows) && -1.0 < threshold < 1.0
    requires i < j < |rows| && Less(rows[i].score, rows[j].score) && i + 2 < |rows|
    ensures SameAgents(rows, other) && FitColumn(other) && UniqueNames(other)
    ensures r < |other| && Abandoned(other, r, threshold, sqrt)
  {
    hide Similar, RedundantIn;
    ScoreOrder();
    var m := if j == i + 1 then i + 2 else i + 1;
    var y := if Better(rows, j, m) then j else m;
    var z := if y == j then m else j;
    var x := if Better(rows, i, z) then i else z;
    r := if x == i then z else i;
    assert Better(rows, y, z) && Better(rows, y, i) && Better(rows, x, r);
    other := MakeBrokenChain(rows, x, y, r, threshold, sqrt);
    ChainLosesTwin(other, x, y, r, threshold, sqrt);
  }

  /** For given names and scores, retired agents leave twins whatever their vectors exactly when the threshold is at an
      end of the range, or no agent scores less than a later one, the last two excepted. */
  lemma TwinsExactly(rows: seq<Capability>, threshold: real, sqrt: real -> real)
    requires IsSqrt(sqrt) && UniqueNames(rows)
    ensures (forall other :: SameAgents(rows, other) && FitColumn(other) ==> TwinsSurvive(other, threshold, sqrt))
      <==> threshold <= -1.0 || threshold >= 1.0 || OnlyLastAscends(rows)
  {
    hide RedundantIn, Similar;
    if threshold <= -1.0 || threshold >= 1.0 || OnlyLastAscends(rows) {
      forall other | SameAgents(rows, other) && FitColumn(other) ensures TwinsSurvive(other, threshold, sqrt) {
        if OnlyLastAscends(rows) {
          DescendingKeepsTwins(other, threshold, sqrt);
        } else {
          EndsKeepTwins(other, threshold, sqrt);
        }
      }
    } else {
      var i, j :| 0 <= i < j < |rows| && Less(rows[i].score, rows[j].score) && i + 2 < |rows|;
      var other, r := AscentLosesTwin(rows, i, j, threshold, sqrt);
      NoTwin(other, r, threshold, sqrt);
    }
  }

  lemma NoTwin(rows: seq<Capability>, r: nat, threshold: real, sqrt: real -> real)
    requires IsSqrt(sqrt) && r < |rows| && Abandoned(rows, r, threshold, sqrt)
    ensures !TwinsSurvive(rows, threshold, sqrt)
  {
    hide RedundantIn, Similar;
    assert !HasTwin(rows, RedundantIn(rows, threshold, sqrt), r, threshold, sqrt);
  }

  /** Here b retires a, and a, already losing, retires c, which no survivor resembles. */
  lemma RetiredWithoutSurvivingTwin(sqrt: real -> real)
    requires IsSqrt(sqrt)
    ensures var a := Capability("a", Some(Padded(DIMENSION, 1.0, 0.0)), Score(0.5, 1, 0.5));
      var b := Capability("b", Some(Padded(DIMENSION, 0.8, 0.6)), Score(0.9, 1, 0.5));
      var c := Capability("c", Some(Padded(DIMENSION, 0.8, -0.6)), Score(0.1, 1, 0.5));
      FitColumn([a, b, c]) && RedundantIn([a, b, c], 0.8, sqrt) == {"a", "c"} && !Similar(b, c, 0.8, sqrt)
  {
    hide Padded, Similarity, Dot, RedundantIn;
    var a := Capability("a", Some(Padded(DIMENSION, 1.0, 0.0)), Score(0.5, 1, 0.5));
    var b := Capability("b", Some(Padded(DIMENSION, 0.8, 0.6)), Score(0.9, 1, 0.5));
    var c := Capability("c", Some(Padded(DIMENSION, 0.8, -0.6)), Score(0.1, 1, 0.5));
    WingSimilarities(0.8, 0.6, sqrt);
    assert BrokenChain([a, b, c], 0, 1, 2, 0.8, sqrt);
    ThreeRows([a, b, c], 0.8, sqrt);
  }

  lemma ThreeRows(rows: seq<Capability>, threshold: real, sqrt: real -> real)
    requires IsSqrt(sqrt) && |rows| == 3 && UniqueNames(rows) && BrokenChain(rows, 0, 1, 2, threshold, sqrt)
    ensures RedundantIn(rows, threshold, sqrt) == {rows[0].name, rows[2].name}
  {
    hide Similar, RedundantIn, BrokenChain;
    var retired := RedundantIn(rows, threshold, sqrt);
    RedundancyGuarantees(rows, threshold, sqrt);
    HighestStays(rows, 0, 1, 2, threshold, sqrt);
    ChainLosesTwin(rows, 0, 1, 2, threshold, sqrt);
    forall n ensures n in retired <==> n == rows[0].name || n == rows[2].name {
      if n in retired {
        var k: nat, i: nat :| Beats(rows, k, i, threshold, sqrt) && rows[i].name == n;
      }
    }
  }
}
