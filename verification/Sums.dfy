/** Sums over sequences and Python's `round(x, 4)`, over the reals. */
module Sums {
  import opened Lists

  /** The sum of the values of f, accumulated left to right. */
  function SumBy<T>(s: seq<T>, f: T -> real): real
  {
    if s == [] then 0.0 else SumBy(s[..|s| - 1], f) + f(s[|s| - 1])
  }

  lemma {:induction false} SumSnoc<T>(s: seq<T>, x: T, f: T -> real)
    ensures SumBy(s + [x], f) == SumBy(s, f) + f(x)
  {
    assert (s + [x])[..|s|] == s;
  }

  lemma {:induction false} SumConcat<T>(s: seq<T>, t: seq<T>, f: T -> real)
    ensures SumBy(s + t, f) == SumBy(s, f) + SumBy(t, f)
  {
    if t == [] {
      assert s + t == s;
    } else {
      var n := |t| - 1;
      SumConcat(s, t[..n], f);
      assert (s + t)[..|s + t| - 1] == s + t[..n];
    }
  }

  /** A sum does not depend on the order of its terms. */
  lemma {:induction false} SumPermutation<T>(s: seq<T>, t: seq<T>, f: T -> real)
    requires multiset(s) == multiset(t)
    ensures SumBy(s, f) == SumBy(t, f)
    decreases |s|
  {
    if s == [] {
      NoElements(t);
    } else {
      var n := |s| - 1;
      var before, after := Extract(s, t);
      SumPermutation(s[..n], before + after, f);
      SumConcat(before, after, f);
      SumConcat(before + [s[n]], after, f);
      SumSnoc(before, s[n], f);
    }
  }

  lemma {:induction false} SumLe<T, U>(s: seq<T>, f: T -> real, t: seq<U>, g: U -> real)
    requires |s| == |t|
    requires forall i :: 0 <= i < |s| ==> f(s[i]) <= g(t[i])
    ensures SumBy(s, f) <= SumBy(t, g)
  {
    if s != [] {
      SumLe(s[..|s| - 1], f, t[..|t| - 1], g);
    }
  }

  lemma {:induction false} SumEq<T, U>(s: seq<T>, f: T -> real, t: seq<U>, g: U -> real)
    requires |s| == |t|
    requires forall i :: 0 <= i < |s| ==> f(s[i]) == g(t[i])
    ensures SumBy(s, f) == SumBy(t, g)
  {
    SumLe(s, f, t, g);
    SumLe(t, g, s, f);
  }

  /** Sums add up pointwise, with a factor on the second summand. */
  lemma {:induction false} SumLinear<T>(s: seq<T>, f: T -> real, g: T -> real, c: real, h: T -> real)
    requires forall i :: 0 <= i < |s| ==> h(s[i]) == f(s[i]) + c * g(s[i])
    ensures SumBy(s, h) == SumBy(s, f) + c * SumBy(s, g)
  {
    if s != [] {
      SumLinear(s[..|s| - 1], f, g, c, h);
    }
  }

  /** Splitting a list by a test splits its length and its sum. */
  lemma {:induction false} SumSplit<T>(s: seq<T>, keep: T -> bool, drop: T -> bool, f: T -> real)
    requires forall x :: drop(x) == !keep(x)
    ensures |s| == |Filter(s, keep)| + |Filter(s, drop)|
    ensures SumBy(s, f) == SumBy(Filter(s, keep), f) + SumBy(Filter(s, drop), f)
  {
    if s != [] {
      var n := |s| - 1;
      SumSplit(s[..n], keep, drop, f);
      FilterLast(s, keep);
      FilterLast(s, drop);
      SumSnoc(Filter(s[..n], keep), s[n], f);
      SumSnoc(Filter(s[..n], drop), s[n], f);
    }
  }

  lemma {:induction false} SumConstant<T>(s: seq<T>, f: T -> real, c: real)
    requires forall i :: 0 <= i < |s| ==> f(s[i]) == c
    ensures SumBy(s, f) == c * |s| as real
  {
    if s != [] {
      SumConstant(s[..|s| - 1], f, c);
    }
  }

  /** A sum of nonnegative terms is positive exactly when one of them is. */
  lemma {:induction false} SumPositive<T>(s: seq<T>, f: T -> real)
    requires forall i :: 0 <= i < |s| ==> f(s[i]) >= 0.0
    ensures SumBy(s, f) >= 0.0
    ensures SumBy(s, f) > 0.0 <==> exists i :: 0 <= i < |s| && f(s[i]) > 0.0
  {
    if s != [] {
      var n := |s| - 1;
      SumPositive(s[..n], f);
      assert forall i :: 0 <= i < n ==> s[..n][i] == s[i];
      if SumBy(s[..n], f) > 0.0 {
        var i :| 0 <= i < n && f(s[..n][i]) > 0.0;
        assert f(s[i]) > 0.0;
      }
    }
  }

  function Identity(x: real): real { x }

  /** The arithmetic mean, 0.0 for no values. */
  function Mean(values: seq<real>): real
  {
    if values == [] then 0.0 else SumBy(values, Identity) / |values| as real
  }

  lemma TimesPositive(x: real, y: real)
    requires x > 0.0 && y > 0.0
    ensures x * y > 0.0
  {
  }

  lemma ZeroProduct(x: real, y: real)
    ensures x * y == 0.0 ==> x == 0.0 || y == 0.0
  {
  }

  lemma TimesLess(x: real, y: real, z: real)
    requires z > 0.0
    ensures x * z < y * z <==> x < y
  {
    assert (y - x) * z == y * z - x * z;
    assert (y - x) * z > 0.0 <==> y - x > 0.0;
  }

  lemma Quotient(a: real, t: real)
    requires t != 0.0
    ensures (a / t) * t == a
  {
  }

  lemma QuotientIs(a: real, t: real, q: real)
    requires t != 0.0 && q * t == a
    ensures a / t == q
  {
    Quotient(a, t);
    assert (a / t - q) * t == (a / t) * t - q * t;
  }

  lemma DivideLe(a: real, b: real, t: real)
    requires a <= b && t > 0.0
    ensures a / t <= b / t
  {
    Quotient(a, t);
    Quotient(b, t);
    TimesLess(b / t, a / t, t);
  }

  lemma DivideBounds(a: real, t: real)
    requires t > 0.0 && -t <= a <= t
    ensures -1.0 <= a / t <= 1.0
  {
    Quotient(a, t);
    TimesLess(1.0, a / t, t);
    TimesLess(a / t, -1.0, t);
    assert (-1.0) * t == -t && 1.0 * t == t;
  }

  lemma MeanLe(s: seq<real>, t: seq<real>)
    requires |s| == |t|
    requires forall i :: 0 <= i < |s| ==> s[i] <= t[i]
    ensures Mean(s) <= Mean(t)
  {
    SumLe(s, Identity, t, Identity);
    if s != [] {
      DivideLe(SumBy(s, Identity), SumBy(t, Identity), |s| as real);
    }
  }

  lemma MeanPermutation(s: seq<real>, t: seq<real>)
    requires multiset(s) == multiset(t)
    ensures Mean(s) == Mean(t)
  {
    SumPermutation(s, t, Identity);
    assert |s| == |multiset(s)| == |multiset(t)| == |t|;
  }

  /** Round half to even, as Python's `round` does. */
  function RoundHalfEven(x: real): int
  {
    var low := x.Floor;
    var rest := x - low as real;
    if rest < 0.5 || (rest == 0.5 && low % 2 == 0) then low else low + 1
  }

  function Round4(x: real): real
  {
    RoundHalfEven(x * 10000.0) as real / 10000.0
  }

  lemma Round4Monotone(x: real, y: real)
    requires x <= y
    ensures Round4(x) <= Round4(y)
  {
    var a, b := x * 10000.0, y * 10000.0;
    assert a.Floor <= b.Floor;
    assert RoundHalfEven(a) <= RoundHalfEven(b);
  }

  lemma RoundHalfEvenOdd(x: real)
    ensures RoundHalfEven(-x) == -RoundHalfEven(x)
  {
    var low := x.Floor;
    if x == low as real {
      assert (-x).Floor == -low;
    } else {
      assert (-x).Floor == -low - 1;
    }
  }

  lemma Round4Odd(x: real)
    ensures Round4(-x) == -Round4(x)
  {
    RoundHalfEvenOdd(x * 10000.0);
    assert -x * 10000.0 == -(x * 10000.0);
  }

  /** Rounding gives the nearest multiple of 1/10000, the even one of two equally near. */
  lemma Round4Nearest(x: real) returns (k: int)
    ensures Round4(x) * 10000.0 == k as real
    ensures -0.5 <= x * 10000.0 - k as real <= 0.5
    ensures x * 10000.0 - k as real == 0.5 || x * 10000.0 - k as real == -0.5 ==> k % 2 == 0
  {
    k := RoundHalfEven(x * 10000.0);
  }

  // ---------- What a mean is ----------

  /** `m` times the number of values is their sum, and `m` is 0 when there are none. */
  ghost predicate IsMean<T>(m: real, s: seq<T>, f: T -> real)
  {
    m * |s| as real == SumBy(s, f) && (s == [] ==> m == 0.0)
  }

  lemma QuotientIsMean<T>(s: seq<T>, f: T -> real)
    ensures s != [] ==> IsMean(SumBy(s, f) / |s| as real, s, f)
    ensures s == [] ==> IsMean(0.0, s, f)
  {
    if s != [] {
      Quotient(SumBy(s, f), |s| as real);
    }
  }

  lemma MeanIsMean(values: seq<real>)
    ensures IsMean(Mean(values), values, Identity)
  {
    QuotientIsMean(values, Identity);
  }

  lemma MeanUnique<T>(m: real, k: real, s: seq<T>, f: T -> real)
    requires IsMean(m, s, f) && IsMean(k, s, f)
    ensures m == k
  {
    if s != [] {
      QuotientIs(SumBy(s, f), |s| as real, m);
      QuotientIs(SumBy(s, f), |s| as real, k);
    }
  }

  /** A sum of 1 for each kept element and 0 for the others counts the kept ones. */
  lemma {:induction false} SumCounts<T>(s: seq<T>, f: T -> real, keep: T -> bool)
    requires forall i :: 0 <= i < |s| ==> f(s[i]) == if keep(s[i]) then 1.0 else 0.0
    ensures SumBy(s, f) == |Filter(s, keep)| as real
  {
    if s != [] {
      SumCounts(s[..|s| - 1], f, keep);
    }
  }
}
