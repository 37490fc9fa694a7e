/** The pairwise retirement pass of `retire_redundant` in `src/agents/persister.py`. */
module Redundancy {
  import opened Options
  import opened Cosine
  import opened AgentRegistry

  /** Length of the vectors in the capability column. */
  const DIMENSION: nat := 768

  /** One fetched row: name, capability vector, score tuple. */
  datatype Capability = Capability(name: string, embedding: Option<seq<real>>, score: Score)

  ghost predicate UniqueNames(rows: seq<Capability>)
  {
    forall i, j :: 0 <= i < j < |rows| ==> rows[i].name != rows[j].name
  }

  /** Vectors come from one fixed-dimension column. */
  ghost predicate SameDimension(rows: seq<Capability>)
  {
    forall i, j :: 0 <= i < |rows| && 0 <= j < |rows| && rows[i].embedding.Some? && rows[j].embedding.Some?
      ==> |rows[i].embedding.value| == |rows[j].embedding.value|
  }

  /** Both vectors are present and their cosine reaches the threshold. */
  predicate Similar(a: Capability, b: Capability, threshold: real, sqrt: real -> real)
    requires IsSqrt(sqrt)
  {
    && a.embedding.Some? && b.embedding.Some?
    && |a.embedding.value| == |b.embedding.value|
    && Similarity(a.embedding.value, b.embedding.value, sqrt) >= threshold
  }

  lemma SimilarSymmetric(a: Capability, b: Capability, threshold: real, sqrt: real -> real)
    requires IsSqrt(sqrt)
    ensures Similar(a, b, threshold, sqrt) == Similar(b, a, threshold, sqrt)
  {
    if a.embedding.Some? && b.embedding.Some? && |a.embedding.value| == |b.embedding.value| {
      SimilarityBounds(a.embedding.value, b.embedding.value, sqrt);
    }
  }

  predicate Less(a: Score, b: Score)
  {
    !ScoreLe(b, a)
  }

  function Loser(a: Capability, b: Capability): string
  {
    if Less(a.score, b.score) then a.name else b.name
  }

  // ---------- What retires whom ----------

  /** Row `k` ranks above row `i`: a higher score, or an equal score and an earlier row. */
  ghost predicate Better(rows: seq<Capability>, k: nat, i: nat)
    requires k < |rows| && i < |rows|
  {
    Less(rows[i].score, rows[k].score) || (rows[i].score == rows[k].score && k < i)
  }

  ghost predicate Beats(rows: seq<Capability>, k: nat, i: nat, threshold: real, sqrt: real -> real)
    requires IsSqrt(sqrt)
  {
    k < |rows| && i < |rows| && Similar(rows[k], rows[i], threshold, sqrt) && Better(rows, k, i)
  }

  ghost predicate Justified(rows: seq<Capability>, retired: set<string>, threshold: real, sqrt: real -> real)
    requires IsSqrt(sqrt)
  {
    forall n :: n in retired ==>
      exists k: nat, i: nat :: Beats(rows, k, i, threshold, sqrt) && rows[i].name == n
  }

  /** Of the pair (i, j), one is retired or the two are not similar. */
  ghost predicate Settled(rows: seq<Capability>, retired: set<string>, i: nat, j: nat, threshold: real,
                          sqrt: real -> real)
    requires IsSqrt(sqrt) && i < |rows| && j < |rows|
  {
    rows[i].name in retired || rows[j].name in retired || !Similar(rows[i], rows[j], threshold, sqrt)
  }

  // ---------- The scan ----------

  function ScanPair(rows: seq<Capability>, i: nat, j: nat, retired: set<string>, threshold: real,
                    sqrt: real -> real): set<string>
    requires IsSqrt(sqrt) && i < |rows| && j < |rows|
  {
    if rows[j].name !in retired && Similar(rows[i], rows[j], threshold, sqrt)
    then retired + {Loser(rows[i], rows[j])} else retired
  }

  function ScanRest(rows: seq<Capability>, i: nat, j: nat, retired: set<string>, threshold: real,
                    sqrt: real -> real): set<string>
    requires IsSqrt(sqrt) && i < |rows| && j <= |rows|
    decreases |rows| - j
  {
    if j == |rows| then retired else
    ScanRest(rows, i, j + 1, ScanPair(rows, i, j, retired, threshold, sqrt), threshold, sqrt)
  }

  function ScanFrom(rows: seq<Capability>, i: nat, retired: set<string>, threshold: real,
                    sqrt: real -> real): set<string>
    requires IsSqrt(sqrt) && i <= |rows|
    decreases |rows| - i
  {
    if i == |rows| then retired else
    ScanFrom(rows, i + 1,
      if rows[i].name in retired then retired else ScanRest(rows, i, i + 1, retired, threshold, sqrt),
      threshold, sqrt)
  }

  /** The names retired as redundant. */
  function RedundantIn(rows: seq<Capability>, threshold: real, sqrt: real -> real): set<string>
    requires IsSqrt(sqrt)
  {
    ScanFrom(rows, 0, {}, threshold, sqrt)
  }

  method RetireRedundantScan(rows: seq<Capability>, threshold: real, sqrt: real -> real) returns (retired: set<string>)
    requires IsSqrt(sqrt) && SameDimension(rows)
    ensures retired == RedundantIn(rows, threshold, sqrt)
  {
    retired := {};
    for i := 0 to |rows|
      invariant ScanFrom(rows, i, retired, threshold, sqrt) == RedundantIn(rows, threshold, sqrt)
    {
      var a := rows[i];
      if a.name in retired {
        continue;
      }
      if a.embedding.None? {
        ScanNoVector(rows, i, i + 1, retired, threshold, sqrt);
        continue;
      }
      ghost var before := retired;
      for j := i + 1 to |rows|
        invariant ScanRest(rows, i, j, retired, threshold, sqrt) == ScanRest(rows, i, i + 1, before, threshold, sqrt)
      {
        var b := rows[j];
        if b.name in retired || b.embedding.None? {
          continue;
        }
        var sim := CosineOf(a.embedding.value, b.embedding.value, sqrt);
        if sim >= threshold {
          retired := retired + {Loser(a, b)};
        }
      }
    }
  }

  lemma {:induction false} ScanNoVector(rows: seq<Capability>, i: nat, j: nat, retired: set<string>, threshold: real,
                                        sqrt: real -> real)
    requires IsSqrt(sqrt) && i < |rows| && j <= |rows| && rows[i].embedding.None?
    ensures ScanRest(rows, i, j, retired, threshold, sqrt) == retired
    decreases |rows| - j
  {
    if j < |rows| {
      ScanNoVector(rows, i, j + 1, retired, threshold, sqrt);
    }
  }

  // ---------- What the scan guarantees ----------

  lemma LoserIsBeaten(rows: seq<Capability>, i: nat, j: nat, retired: set<string>, threshold: real, sqrt: real -> real)
    requires IsSqrt(sqrt) && i < j < |rows| && Similar(rows[i], rows[j], threshold, sqrt)
    requires Justified(rows, retired, threshold, sqrt)
    ensures Justified(rows, retired + {Loser(rows[i], rows[j])}, threshold, sqrt)
  {
    ScoreOrder();
    SimilarSymmetric(rows[i], rows[j], threshold, sqrt);
    if Less(rows[i].score, rows[j].score) {
      assert Beats(rows, j, i, threshold, sqrt);
    } else {
      assert Beats(rows, i, j, threshold, sqrt);
    }
  }

  lemma SettledStays(rows: seq<Capability>, retired: set<string>, later: set<string>, i: nat, j: nat, threshold: real,
                     sqrt: real -> real)
    requires IsSqrt(sqrt) && i < |rows| && j < |rows| && retired <= later
    requires Settled(rows, retired, i, j, threshold, sqrt)
    ensures Settled(rows, later, i, j, threshold, sqrt)
  {
  }

  lemma ScanPairSettles(rows: seq<Capability>, i: nat, j: nat, retired: set<string>, threshold: real,
                        sqrt: real -> real)
    requires IsSqrt(sqrt) && i < j < |rows| && Justified(rows, retired, threshold, sqrt)
    ensures var r := ScanPair(rows, i, j, retired, threshold, sqrt);
      retired <= r && Justified(rows, r, threshold, sqrt) && Settled(rows, r, i, j, threshold, sqrt)
  {
    if rows[j].name !in retired && Similar(rows[i], rows[j], threshold, sqrt) {
      LoserIsBeaten(rows, i, j, retired, threshold, sqrt);
    }
  }

  lemma {:induction false} ScanRestGuarantees(rows: seq<Capability>, i: nat, j: nat, retired: set<string>,
                                              threshold: real, sqrt: real -> real)
    requires IsSqrt(sqrt) && i < j <= |rows| && Justified(rows, retired, threshold, sqrt)
    ensures var r := ScanRest(rows, i, j, retired, threshold, sqrt);
      && retired <= r && Justified(rows, r, threshold, sqrt)
      && forall k :: j <= k < |rows| ==> Settled(rows, r, i, k, threshold, sqrt)
    decreases |rows| - j
  {
    hide Justified, Similar, Loser;
    if j < |rows| {
      var next := ScanPair(rows, i, j, retired, threshold, sqrt);
      ScanPairSettles(rows, i, j, retired, threshold, sqrt);
      ScanRestGuarantees(rows, i, j + 1, next, threshold, sqrt);
      SettledStays(rows, next, ScanRest(rows, i, j, retired, threshold, sqrt), i, j, threshold, sqrt);
    }
  }

  lemma {:induction false} ScanFromGuarantees(rows: seq<Capability>, i: nat, retired: set<string>, threshold: real,
                                              sqrt: real -> real)
    requires IsSqrt(sqrt) && i <= |rows| && Justified(rows, retired, threshold, sqrt)
    ensures var r := ScanFrom(rows, i, retired, threshold, sqrt);
      && retired <= r && Justified(rows, r, threshold, sqrt)
      && forall a, k :: i <= a < k < |rows| ==> Settled(rows, r, a, k, threshold, sqrt)
    decreases |rows| - i
  {
    hide Justified, Similar, ScanRest;
    if i < |rows| {
      var next := if rows[i].name in retired then retired else ScanRest(rows, i, i + 1, retired, threshold, sqrt);
      ScanRestGuarantees(rows, i, i + 1, retired, threshold, sqrt);
      ScanFromGuarantees(rows, i + 1, next, threshold, sqrt);
      var r := ScanFrom(rows, i, retired, threshold, sqrt);
      forall k | i < k < |rows| ensures Settled(rows, r, i, k, threshold, sqrt) {
        if rows[i].name !in retired {
          SettledStays(rows, next, r, i, k, threshold, sqrt);
        }
      }
    }
  }

  /** Whoever is retired is beaten by a similar, better row; two survivors are never similar. */
  lemma RedundancyGuarantees(rows: seq<Capability>, threshold: real, sqrt: real -> real)
    requires IsSqrt(sqrt)
    ensures Justified(rows, RedundantIn(rows, threshold, sqrt), threshold, sqrt)
    ensures forall a, k :: 0 <= a < k < |rows| ==>
      Settled(rows, RedundantIn(rows, threshold, sqrt), a, k, threshold, sqrt)
  {
    ScanFromGuarantees(rows, 0, {}, threshold, sqrt);
  }

  /** Each row of the path is beaten by the next one, and the last one is not retired. */
  ghost predicate ChainToSurvivor(rows: seq<Capability>, path: seq<nat>, retired: set<string>, threshold: real,
                                  sqrt: real -> real)
    requires IsSqrt(sqrt)
  {
    && path != []
    && (forall t :: 0 <= t < |path| ==> path[t] < |rows|)
    && (forall t :: 0 <= t < |path| - 1 ==> Beats(rows, path[t + 1], path[t], threshold, sqrt))
    && rows[path[|path| - 1]].name !in retired
  }

  ghost function BetterRows(rows: seq<Capability>, i: nat): set<nat>
    requires i < |rows|
  {
    set k: nat | k < |rows| && Better(rows, k, i)
  }

  lemma FewerBetter(rows: seq<Capability>, k: nat, i: nat)
    requires k < |rows| && i < |rows| && Better(rows, k, i)
    ensures |BetterRows(rows, k)| < |BetterRows(rows, i)|
  {
    ScoreOrder();
    var s, t := BetterRows(rows, k), BetterRows(rows, i);
    assert s <= t && k in t && k !in s;
    assert s <= t - {k};
    Subset(s, t - {k});
  }

  lemma {:induction false} Subset<T>(s: set<T>, t: set<T>)
    requires s <= t
    ensures |s| <= |t|
  {
    assert t == s + (t - s);
  }

  /** Every row reaches a survivor by a chain of similar, ever better rows. */
  lemma {:induction false} ReachesSurvivor(rows: seq<Capability>, i: nat, threshold: real, sqrt: real -> real)
    returns (path: seq<nat>)
    requires IsSqrt(sqrt) && UniqueNames(rows) && i < |rows|
    ensures ChainToSurvivor(rows, path, RedundantIn(rows, threshold, sqrt), threshold, sqrt) && path[0] == i
    decreases |BetterRows(rows, i)|
  {
    RedundancyGuarantees(rows, threshold, sqrt);
    if rows[i].name !in RedundantIn(rows, threshold, sqrt) {
      path := [i];
    } else {
      var k: nat, i': nat :| Beats(rows, k, i', threshold, sqrt) && rows[i'].name == rows[i].name;
      assert i' == i;
      FewerBetter(rows, k, i);
      var rest := ReachesSurvivor(rows, k, threshold, sqrt);
      path := [i] + rest;
    }
  }

  /** `path` walks from row `i` to row `j` over similar rows. */
  ghost predicate Connected(rows: seq<Capability>, path: seq<nat>, i: nat, j: nat, threshold: real, sqrt: real -> real)
    requires IsSqrt(sqrt)
  {
    && path != [] && path[0] == i && path[|path| - 1] == j
    && (forall t :: 0 <= t < |path| ==> path[t] < |rows|)
    && (forall t :: 0 <= t < |path| - 1 ==> Similar(rows[path[t + 1]], rows[path[t]], threshold, sqrt))
  }

  /** A row that no similar row outranks survives. */
  lemma UnbeatenSurvives(rows: seq<Capability>, i: nat, threshold: real, sqrt: real -> real)
    requires IsSqrt(sqrt) && UniqueNames(rows) && i < |rows|
    requires forall k: nat :: !Beats(rows, k, i, threshold, sqrt)
    ensures rows[i].name !in RedundantIn(rows, threshold, sqrt)
  {
    RedundancyGuarantees(rows, threshold, sqrt);
  }

  /** In particular the best row of its connected component survives. */
  lemma ComponentBestSurvives(rows: seq<Capability>, i: nat, threshold: real, sqrt: real -> real)
    requires IsSqrt(sqrt) && UniqueNames(rows) && i < |rows|
    requires forall path, j: nat :: j < |rows| && Connected(rows, path, i, j, threshold, sqrt) ==> !Better(rows, j, i)
    ensures rows[i].name !in RedundantIn(rows, threshold, sqrt)
  {
    forall k: nat ensures !Beats(rows, k, i, threshold, sqrt) {
      if k < |rows| && Similar(rows[k], rows[i], threshold, sqrt) {
        assert Connected(rows, [i, k], i, k, threshold, sqrt);
      }
    }
    UnbeatenSurvives(rows, i, threshold, sqrt);
  }

  /** Every connected component keeps somebody. */
  lemma ComponentKeepsSomebody(rows: seq<Capability>, i: nat, threshold: real, sqrt: real -> real)
    returns (path: seq<nat>, j: nat)
    requires IsSqrt(sqrt) && UniqueNames(rows) && i < |rows|
    ensures j < |rows| && Connected(rows, path, i, j, threshold, sqrt)
    ensures rows[j].name !in RedundantIn(rows, threshold, sqrt)
  {
    path := ReachesSurvivor(rows, i, threshold, sqrt);
    j := path[|path| - 1];
  }

  /** A set of pairwise dissimilar rows loses nobody. */
  lemma DissimilarRowsStay(rows: seq<Capability>, threshold: real, sqrt: real -> real)
    requires IsSqrt(sqrt)
    requires forall i, j :: 0 <= i < j < |rows| ==> !Similar(rows[i], rows[j], threshold, sqrt)
    ensures RedundantIn(rows, threshold, sqrt) == {}
  {
    RedundancyGuarantees(rows, threshold, sqrt);
    forall k: nat, i: nat ensures !Beats(rows, k, i, threshold, sqrt) {
      if k < |rows| && i < |rows| {
        SimilarSymmetric(rows[k], rows[i], threshold, sqrt);
      }
    }
  }

  /** The two rows carry the same nonzero vector. */
  ghost predicate ExactCopies(a: Capability, b: Capability)
  {
    a.embedding.Some? && a.embedding == b.embedding && !IsZero(a.embedding.value)
  }

  /** Above 1 no threshold is ever reached. */
  lemma ThresholdAboveOne(rows: seq<Capability>, threshold: real, sqrt: real -> real)
    requires IsSqrt(sqrt) && threshold > 1.0
    ensures RedundantIn(rows, threshold, sqrt) == {}
  {
    forall i, j | 0 <= i < j < |rows| ensures !Similar(rows[i], rows[j], threshold, sqrt) {
      var a, b := rows[i].embedding, rows[j].embedding;
      if a.Some? && b.Some? && |a.value| == |b.value| {
        SimilarityBounds(a.value, b.value, sqrt);
      }
    }
    DissimilarRowsStay(rows, threshold, sqrt);
  }

  /** At or below 1, an exact copy of a nonzero vector is always caught. */
  lemma CopiesAreCaught(rows: seq<Capability>, i: nat, j: nat, threshold: real, sqrt: real -> real)
    requires IsSqrt(sqrt) && threshold <= 1.0 && i < j < |rows| && ExactCopies(rows[i], rows[j])
    ensures rows[i].name in RedundantIn(rows, threshold, sqrt) || rows[j].name in RedundantIn(rows, threshold, sqrt)
  {
    RedundancyGuarantees(rows, threshold, sqrt);
    SelfSimilarity(rows[i].embedding.value, sqrt);
    assert Settled(rows, RedundantIn(rows, threshold, sqrt), i, j, threshold, sqrt);
  }
}
