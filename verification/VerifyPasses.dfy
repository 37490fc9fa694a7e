/** The verify-pass estimate of `scripts/run_metrics.py`. */
module VerifyPasses {
  import opened Lists
  import opened Sums
  import opened TerminalState

  function CheckNames(rows: seq<Row>): set<string>
  {
    set r | r in rows :: r.checkName
  }

  /** Rows over distinct check names, rounded up by negating a floor division. */
  function EstimateVerifyPasses(rows: seq<Row>): int
  {
    if rows == [] then 0 else
    var n := if CheckNames(rows) == {} then 1 else |CheckNames(rows)|;
    -((-|rows|) / n)
  }

  function Named(name: string): Row -> bool
  {
    (r: Row) => r.checkName == name
  }

  function NotNamed(name: string): Row -> bool
  {
    (r: Row) => r.checkName != name
  }

  function Occurrences(rows: seq<Row>, name: string): nat
  {
    |Filter(rows, Named(name))|
  }

  lemma {:induction false} SplitByName(rows: seq<Row>, name: string)
    ensures |rows| == Occurrences(rows, name) + |Filter(rows, NotNamed(name))|
  {
    SumSplit(rows, Named(name), NotNamed(name), (r: Row) => 0.0);
  }

  lemma OthersKept(rows: seq<Row>, name: string, other: string)
    requires other != name
    ensures Occurrences(Filter(rows, NotNamed(name)), other) == Occurrences(rows, other)
  {
    FilterTwice(rows, NotNamed(name), Named(other), Named(other));
  }

  /** Rows whose names lie in a set, each name at most `m` times, number at most m per name. */
  lemma {:induction false} AtMostPerName(rows: seq<Row>, names: set<string>, m: nat)
    requires CheckNames(rows) <= names
    requires forall x :: x in names ==> Occurrences(rows, x) <= m
    ensures |rows| <= m * |names|
    decreases |names|
  {
    if names == {} {
      NoNames(rows);
    } else {
      var x :| x in names;
      var rest := Filter(rows, NotNamed(x));
      SplitByName(rows, x);
      FilterMembers(rows, NotNamed(x));
      forall y | y in names - {x} ensures Occurrences(rest, y) <= m {
        OthersKept(rows, x, y);
      }
      AtMostPerName(rest, names - {x}, m);
      OneFewer(names, x, m);
    }
  }

  lemma NoNames(rows: seq<Row>)
    ensures CheckNames(rows) == {} ==> rows == []
  {
    if rows != [] {
      assert rows[0].checkName in CheckNames(rows);
    }
  }

  lemma OneFewer(names: set<string>, x: string, m: nat)
    requires x in names
    ensures m * |names| == m * |names - {x}| + m
  {
    assert |names| == |names - {x}| + 1;
  }

  lemma {:induction false} AtLeastPerName(rows: seq<Row>, names: set<string>, m: nat)
    requires forall x :: x in names ==> Occurrences(rows, x) >= m
    ensures |rows| >= m * |names|
    decreases |names|
  {
    if names != {} {
      var x :| x in names;
      var rest := Filter(rows, NotNamed(x));
      SplitByName(rows, x);
      forall y | y in names - {x} ensures Occurrences(rest, y) >= m {
        OthersKept(rows, x, y);
      }
      AtLeastPerName(rest, names - {x}, m);
      OneFewer(names, x, m);
    }
  }

  lemma TimesOrder(a: int, b: int, n: int)
    requires n >= 1
    ensures a * n < b * n <==> a < b
  {
    assert (b - a) * n == b * n - a * n;
    assert (b - a) * n > 0 <==> b - a > 0;
  }

  lemma NamesOccur(rows: seq<Row>)
    requires rows != []
    ensures |CheckNames(rows)| >= 1
  {
    assert rows[0].checkName in CheckNames(rows);
  }

  lemma NegatedDivision(r: int, n: int)
    requires n >= 1
    ensures var p := -((-r) / n); (p - 1) * n < r <= p * n
  {
    var q := (-r) / n;
    assert q * n <= -r < (q + 1) * n by {
      assert -r == q * n + (-r) % n;
    }
    assert (-q) * n == -(q * n) && (-q - 1) * n == -((q + 1) * n);
  }

  /** The estimate is the exact ceiling of rows over distinct checks. */
  lemma EstimateIsCeiling(rows: seq<Row>)
    requires rows != []
    ensures var p, n := EstimateVerifyPasses(rows), |CheckNames(rows)|;
      p >= 1 && (p - 1) * n < |rows| <= p * n
  {
    NamesOccur(rows);
    var n := |CheckNames(rows)|;
    NegatedDivision(|rows|, n);
    TimesOrder(0, EstimateVerifyPasses(rows), n);
  }

  /** Some check occurs at least that many times. */
  lemma SomeCheckRepeats(rows: seq<Row>) returns (name: string)
    requires rows != []
    ensures name in CheckNames(rows) && Occurrences(rows, name) >= EstimateVerifyPasses(rows)
  {
    EstimateIsCeiling(rows);
    var p := EstimateVerifyPasses(rows);
    if forall x :: x in CheckNames(rows) ==> Occurrences(rows, x) <= p - 1 {
      AtMostPerName(rows, CheckNames(rows), p - 1);
    }
    name :| name in CheckNames(rows) && Occurrences(rows, name) > p - 1;
  }

  /** When every check occurs exactly k times, as after k complete passes, the estimate is k. */
  lemma CompletePasses(rows: seq<Row>, k: nat)
    requires rows != [] && forall x :: x in CheckNames(rows) ==> Occurrences(rows, x) == k
    ensures EstimateVerifyPasses(rows) == k
  {
    EstimateIsCeiling(rows);
    AtMostPerName(rows, CheckNames(rows), k);
    AtLeastPerName(rows, CheckNames(rows), k);
    NamesOccur(rows);
    UniqueCeiling(EstimateVerifyPasses(rows), k, |CheckNames(rows)|);
  }

  lemma UniqueCeiling(p: int, k: int, n: int)
    requires n >= 1 && (p - 1) * n < k * n <= p * n
    ensures p == k
  {
    TimesOrder(p - 1, k, n);
    TimesOrder(p, k, n);
  }
}
