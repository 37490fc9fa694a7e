/** The signed-rank statistic of `scripts/generation_compare.py`, `paired_significance`. */
module SignedRank {
  import opened Lists
  import opened Sums
  import opened Order

  function Abs(x: real): real
  {
    if x < 0.0 then -x else x
  }

  function AbsAll(d: seq<real>): seq<real>
  {
    seq(|d|, i requires 0 <= i < |d| => Abs(d[i]))
  }

  // ---------- The counting definition of a tie-averaged rank ----------

  ghost function Smaller(d: seq<real>, v: real): set<nat>
  {
    set j: nat | j < |d| && Abs(d[j]) < v
  }

  ghost function Tied(d: seq<real>, v: real): set<nat>
  {
    set j: nat | j < |d| && Abs(d[j]) == v
  }

  /** Strictly smaller magnitudes, plus the middle of the tie group. */
  ghost function CountingRank(d: seq<real>, i: nat): real
    requires i < |d|
  {
    |Smaller(d, Abs(d[i]))| as real + (|Tied(d, Abs(d[i]))| + 1) as real / 2.0
  }

  // ---------- The rank loop ----------

  /** A stretch of distinct indices is a set of that many elements. */
  lemma {:induction false} StretchSize(p: seq<nat>, lo: nat, hi: nat)
    requires lo <= hi <= |p|
    requires forall a, b :: 0 <= a < b < |p| ==> p[a] != p[b]
    ensures |set k | lo <= k < hi :: p[k]| == hi - lo
  {
    var s := set k | lo <= k < hi :: p[k];
    if lo < hi {
      StretchSize(p, lo, hi - 1);
      var t := set k | lo <= k < hi - 1 :: p[k];
      assert p[hi - 1] !in t;
      assert s == t + {p[hi - 1]};
    }
  }

  /** Places `i..j` of the sorted order hold the whole tie group of place `i`. */
  ghost predicate TieGroup(d: seq<real>, p: seq<nat>, i: nat, j: nat)
    requires InRange(p, |d|)
  {
    && i <= j < |p|
    && (forall k :: i <= k <= j ==> Abs(d[p[k]]) == Abs(d[p[i]]))
    && (i > 0 ==> Abs(d[p[i - 1]]) < Abs(d[p[i]]))
    && (j + 1 < |p| ==> Abs(d[p[i]]) < Abs(d[p[j + 1]]))
  }

  /** `p` lists every place of `d` once, by ascending magnitude. */
  ghost predicate ByMagnitude(d: seq<real>, p: seq<nat>)
  {
    && InRange(p, |d|) && |p| == |d|
    && (forall i: nat :: i < |d| ==> i in p)
    && (forall a, b :: 0 <= a < b < |p| ==> p[a] != p[b])
    && (forall a, b :: 0 <= a < b < |p| ==> Abs(d[p[a]]) <= Abs(d[p[b]]))
  }

  lemma ArgSortMagnitudes(d: seq<real>)
    ensures ByMagnitude(d, ArgSort(AbsAll(d), RealLe))
  {
    ArgSortStable(AbsAll(d), RealLe);
    var p := ArgSort(AbsAll(d), RealLe);
    forall a, b | 0 <= a < b < |p| ensures Abs(d[p[a]]) <= Abs(d[p[b]]) {
      assert Before(AbsAll(d), RealLe, p[a], p[b]);
    }
  }

  lemma TiePlace(d: seq<real>, p: seq<nat>, i: nat, j: nat, a: nat)
    requires ByMagnitude(d, p) && TieGroup(d, p, i, j) && a < |p|
    ensures Abs(d[p[a]]) < Abs(d[p[i]]) <==> a < i
    ensures Abs(d[p[a]]) == Abs(d[p[i]]) <==> i <= a <= j
  {
    if a < i {
      assert a == i - 1 || Abs(d[p[a]]) <= Abs(d[p[i - 1]]);
    } else if a > j {
      assert a == j + 1 || Abs(d[p[j + 1]]) <= Abs(d[p[a]]);
    }
  }

  lemma TieGroupSets(d: seq<real>, p: seq<nat>, i: nat, j: nat)
    requires ByMagnitude(d, p) && TieGroup(d, p, i, j)
    ensures Smaller(d, Abs(d[p[i]])) == set a | 0 <= a < i :: p[a]
    ensures Tied(d, Abs(d[p[i]])) == set a | i <= a < j + 1 :: p[a]
  {
    var v := Abs(d[p[i]]);
    forall x: nat | x < |d|
      ensures x in Smaller(d, v) <==> x in set a | 0 <= a < i :: p[a]
      ensures x in Tied(d, v) <==> x in set a | i <= a < j + 1 :: p[a]
    {
      assert x in p;
      var a :| 0 <= a < |p| && p[a] == x;
      TiePlace(d, p, i, j, a);
      assert forall b :: 0 <= b < |p| && p[b] == x ==> b == a;
    }
  }

  lemma TieGroupRank(d: seq<real>, p: seq<nat>, i: nat, j: nat, k: nat)
    requires ByMagnitude(d, p) && TieGroup(d, p, i, j) && i <= k <= j
    ensures CountingRank(d, p[k]) == (i + 1 + j + 1) as real / 2.0
  {
    TieGroupSets(d, p, i, j);
    StretchSize(p, 0, i);
    StretchSize(p, i, j + 1);
    assert Abs(d[p[k]]) == Abs(d[p[i]]);
  }

  /** Every place before `i` of the sorted order has its counting rank written. */
  ghost predicate Ranked(d: seq<real>, p: seq<nat>, ranks: seq<real>, i: nat)
    requires InRange(p, |d|) && |ranks| == |d|
  {
    forall k :: 0 <= k < i && k < |p| ==> ranks[p[k]] == CountingRank(d, p[k])
  }

  lemma NoneRanked(d: seq<real>, p: seq<nat>, ranks: seq<real>)
    requires InRange(p, |d|) && |ranks| == |d|
    ensures Ranked(d, p, ranks, 0)
  {
  }

  lemma WriteRank(d: seq<real>, p: seq<nat>, ranks: seq<real>, i: nat)
    requires ByMagnitude(d, p) && |ranks| == |d| && i < |p| && Ranked(d, p, ranks, i)
    ensures Ranked(d, p, ranks[p[i] := CountingRank(d, p[i])], i + 1)
  {
  }

  lemma AllRanked(d: seq<real>, p: seq<nat>, ranks: seq<real>)
    requires ByMagnitude(d, p) && |ranks| == |d| && Ranked(d, p, ranks, |p|)
    ensures forall i :: 0 <= i < |d| ==> ranks[i] == CountingRank(d, i)
  {
    forall x | 0 <= x < |d| ensures ranks[x] == CountingRank(d, x) {
      assert x in p;
    }
  }

  /** The tie-averaging loop gives every difference its counting rank. */
  method AverageRanks(nz: seq<real>) returns (r: seq<real>)
    ensures |r| == |nz|
    ensures forall i :: 0 <= i < |nz| ==> r[i] == CountingRank(nz, i)
  {
    hide CountingRank, ArgSort, AbsAll, Ranked, Abs;
    var absSorted := ArgSort(AbsAll(nz), RealLe);
    ArgSortMagnitudes(nz);
    var ranks := new real[|nz|](_ => 0.0);
    NoneRanked(nz, absSorted, ranks[..]);
    var i := 0;
    while i < |absSorted|
      invariant 0 <= i <= |absSorted|
      invariant 0 < i < |absSorted| ==> Abs(nz[absSorted[i - 1]]) < Abs(nz[absSorted[i]])
      invariant Ranked(nz, absSorted, ranks[..], i)
    {
      var j := i;
      while j + 1 < |absSorted| && Abs(nz[absSorted[j + 1]]) == Abs(nz[absSorted[i]])
        invariant i <= j < |absSorted|
        invariant forall k :: i <= k <= j ==> Abs(nz[absSorted[k]]) == Abs(nz[absSorted[i]])
      {
        j := j + 1;
      }
      assert TieGroup(nz, absSorted, i, j);
      var avgRank := (i + 1 + j + 1) as real / 2.0;
      for k := i to j + 1
        invariant Ranked(nz, absSorted, ranks[..], k)
      {
        TieGroupRank(nz, absSorted, i, j, k);
        WriteRank(nz, absSorted, ranks[..], k);
        ghost var written := ranks[..][absSorted[k] := avgRank];
        ranks[absSorted[k]] := avgRank;
        assert ranks[..] == written;
      }
      i := j + 1;
    }
    r := ranks[..];
    AllRanked(nz, absSorted, r);
  }

  // ---------- Ranks as sums of pairwise credits ----------

  /** What the presence of `b` adds to the rank of `a`. */
  function Credit(a: real, b: real): real
  {
    if Abs(b) < Abs(a) then 1.0 else if Abs(b) == Abs(a) then 0.5 else 0.0
  }

  function CreditTo(a: real): real -> real
  {
    b => Credit(a, b)
  }

  function RankIn(d: seq<real>, a: real): real
  {
    0.5 + SumBy(d, CreditTo(a))
  }

  lemma CountsSnoc(e: seq<real>, x: real, v: real)
    ensures |Smaller(e + [x], v)| == |Smaller(e, v)| + if Abs(x) < v then 1 else 0
    ensures |Tied(e + [x], v)| == |Tied(e, v)| + if Abs(x) == v then 1 else 0
  {
    var n: nat := |e|;
    assert Smaller(e + [x], v) == Smaller(e, v) + if Abs(x) < v then {n} else {};
    assert Tied(e + [x], v) == Tied(e, v) + if Abs(x) == v then {n} else {};
  }

  lemma {:induction false} CountsAreCredits(d: seq<real>, a: real)
    ensures SumBy(d, CreditTo(a)) == |Smaller(d, Abs(a))| as real + |Tied(d, Abs(a))| as real / 2.0
  {
    if d == [] {
      assert Smaller(d, Abs(a)) == {} && Tied(d, Abs(a)) == {};
    } else {
      var n := |d| - 1;
      CountsAreCredits(d[..n], a);
      CountsSnoc(d[..n], d[n], Abs(a));
      assert d == d[..n] + [d[n]];
    }
  }

  lemma CountingRankIsCredit(d: seq<real>, i: nat)
    requires i < |d|
    ensures CountingRank(d, i) == RankIn(d, d[i])
  {
    CountsAreCredits(d, d[i]);
  }

  // ---------- Rank sums over the differences of one sign ----------

  /** Which differences a rank sum takes. */
  datatype Side = Gains | Losses | Any

  predicate On(side: Side, x: real)
  {
    match side
    case Gains => x > 0.0
    case Losses => x < 0.0
    case Any => true
  }

  function KeptRank(d: seq<real>, keep: Side): real -> real
  {
    a => if On(keep, a) then RankIn(d, a) else 0.0
  }

  function KeptCredit(keep: Side, x: real): real -> real
  {
    a => if On(keep, a) then Credit(a, x) else 0.0
  }

  function RankSum(d: seq<real>, keep: Side): real
  {
    SumBy(d, KeptRank(d, keep))
  }

  lemma KeptRankSnoc(e: seq<real>, x: real, keep: Side, a: real)
    ensures KeptRank(e + [x], keep)(a) == KeptRank(e, keep)(a) + KeptCredit(keep, x)(a)
  {
    SumSnoc(e, x, CreditTo(a));
  }

  lemma KeptRanksRaised(e: seq<real>, x: real, keep: Side)
    ensures SumBy(e, KeptRank(e + [x], keep)) == RankSum(e, keep) + SumBy(e, KeptCredit(keep, x))
  {
    hide KeptRank, KeptCredit, SumBy;
    forall i | 0 <= i < |e|
      ensures KeptRank(e + [x], keep)(e[i]) == KeptRank(e, keep)(e[i]) + 1.0 * KeptCredit(keep, x)(e[i])
    {
      KeptRankSnoc(e, x, keep, e[i]);
    }
    SumLinear(e, KeptRank(e, keep), KeptCredit(keep, x), 1.0, KeptRank(e + [x], keep));
  }

  /** One more difference raises the rank of each kept one by its credit, and brings its own rank. */
  lemma RankSumSnoc(e: seq<real>, x: real, keep: Side)
    ensures RankSum(e + [x], keep)
         == RankSum(e, keep) + SumBy(e, KeptCredit(keep, x))
            + if On(keep, x) then SumBy(e, CreditTo(x)) + 1.0 else 0.0
  {
    SumSnoc(e, x, KeptRank(e + [x], keep));
    KeptRankSnoc(e, x, keep, x);
    KeptRanksRaised(e, x, keep);
  }

  function Triangle(m: nat): real
  {
    m as real * (m as real + 1.0) / 2.0
  }

  /** All ranks together sum to m(m+1)/2, whatever the ties. */
  lemma {:induction false} AllRanksSum(d: seq<real>)
    ensures RankSum(d, Any) == Triangle(|d|)
  {
    if d != [] {
      var n := |d| - 1;
      var e, x := d[..n], d[n];
      AllRanksSum(e);
      assert d == e + [x];
      RankSumSnoc(e, x, Any);
      var one := (a: real) => 1.0;
      SumConstant(e, one, 1.0);
      SumLinear(e, KeptCredit(Any, x), CreditTo(x), 1.0, one);
    }
  }

  ghost predicate NoZeros(d: seq<real>)
  {
    forall i :: 0 <= i < |d| ==> d[i] != 0.0
  }

  lemma SignsSplit(d: seq<real>)
    requires NoZeros(d)
    ensures RankSum(d, Gains) + RankSum(d, Losses) == Triangle(|d|)
  {
    AllRanksSum(d);
    SumLinear(d, KeptRank(d, Gains), KeptRank(d, Losses), 1.0, KeptRank(d, Any));
  }

  // ---------- The Walsh count ----------

  function WalshPair(a: real, b: real): real
  {
    if a + b > 0.0 then 1.0 else if a + b == 0.0 then 0.5 else 0.0
  }

  function WalshWith(x: real): real -> real
  {
    a => WalshPair(a, x)
  }

  /** Pairs i <= j with a positive sum, pairs with sum zero counted half. */
  function WalshCount(d: seq<real>): real
  {
    if d == [] then 0.0 else WalshCount(d[..|d| - 1]) + SumBy(d, WalshWith(d[|d| - 1]))
  }

  lemma WalshIsCredit(a: real, x: real)
    requires a != 0.0 && x != 0.0
    ensures WalshPair(a, x)
         == (if a > 0.0 then Credit(a, x) else 0.0) + if x > 0.0 then Credit(x, a) else 0.0
  {
  }

  lemma WalshStep(e: seq<real>, x: real)
    requires NoZeros(e) && x != 0.0
    ensures SumBy(e, WalshWith(x))
         == SumBy(e, KeptCredit(Gains, x)) + if x > 0.0 then SumBy(e, CreditTo(x)) else 0.0
  {
    forall i | 0 <= i < |e|
      ensures WalshWith(x)(e[i])
           == KeptCredit(Gains, x)(e[i]) + if x > 0.0 then CreditTo(x)(e[i]) else 0.0
    {
      WalshIsCredit(e[i], x);
    }
    if x > 0.0 {
      SumLinear(e, KeptCredit(Gains, x), CreditTo(x), 1.0, WalshWith(x));
    } else {
      SumEq(e, KeptCredit(Gains, x), e, WalshWith(x));
    }
  }

  /** The positive rank sum is the Walsh count. */
  lemma {:induction false} WalshIdentity(d: seq<real>)
    requires NoZeros(d)
    ensures RankSum(d, Gains) == WalshCount(d)
  {
    if d != [] {
      var n := |d| - 1;
      var e, x := d[..n], d[n];
      assert d == e + [x];
      WalshIdentity(e);
      RankSumSnoc(e, x, Gains);
      SumSnoc(e, x, WalshWith(x));
      WalshStep(e, x);
    }
  }

  lemma {:induction false} WalshMonotone(d: seq<real>, e: seq<real>)
    requires |d| == |e| && forall i :: 0 <= i < |d| ==> d[i] <= e[i]
    ensures WalshCount(d) <= WalshCount(e)
  {
    if d != [] {
      var n := |d| - 1;
      WalshMonotone(d[..n], e[..n]);
      SumLe(d, WalshWith(d[n]), e, WalshWith(e[n]));
    }
  }

  // ---------- Effect size ----------

  function IsNonZero(): real -> bool
  {
    x => x != 0.0
  }

  function NonZero(d: seq<real>): seq<real>
  {
    Filter(d, IsNonZero())
  }

  lemma NonZeroHasNoZeros(d: seq<real>)
    ensures NoZeros(NonZero(d))
  {
    FilterMembers(d, IsNonZero());
    assert forall i :: 0 <= i < |NonZero(d)| ==> NonZero(d)[i] in NonZero(d);
  }

  /** The unrounded rank-biserial correlation of the nonzero differences. */
  function Effect(diffs: seq<real>): real
  {
    var nz := NonZero(diffs);
    Biserial(RankSum(nz, Gains), RankSum(nz, Losses))
  }

  function Biserial(wPos: real, wNeg: real): real
  {
    if wPos + wNeg != 0.0 then (wPos - wNeg) / (wPos + wNeg) else 0.0
  }

  lemma TrianglePositive(m: nat)
    ensures m > 0 ==> Triangle(m) >= 1.0
    ensures m == 0 ==> Triangle(m) == 0.0
  {
    if m > 0 {
      assert (m as real - 1.0) * (m as real + 2.0) >= 0.0;
      assert m as real * (m as real + 1.0) == (m as real - 1.0) * (m as real + 2.0) + 2.0;
    }
  }

  lemma Balance(w: real, t: real)
    requires t > 0.0
    ensures Biserial(w, t - w) == 2.0 * w / t - 1.0
  {
    var q := 2.0 * w / t;
    Quotient(2.0 * w, t);
    assert (q - 1.0) * t == q * t - t;
    QuotientIs(w - (t - w), t, q - 1.0);
  }

  /** With m nonzero differences the effect is 2W/(m(m+1)/2) - 1 for the Walsh count W, and 0 when m = 0. */
  lemma EffectFormula(diffs: seq<real>)
    ensures var nz := NonZero(diffs);
      Effect(diffs) == if nz == [] then 0.0 else 2.0 * WalshCount(nz) / Triangle(|nz|) - 1.0
  {
    var nz := NonZero(diffs);
    NonZeroHasNoZeros(diffs);
    SignsSplit(nz);
    WalshIdentity(nz);
    TrianglePositive(|nz|);
    if nz != [] {
      Balance(WalshCount(nz), Triangle(|nz|));
    }
  }

  lemma {:induction false} NonZeroAligned(d: seq<real>, e: seq<real>)
    requires |d| == |e|
    requires forall i :: 0 <= i < |d| ==> d[i] <= e[i] && (d[i] == 0.0 <==> e[i] == 0.0)
    ensures |NonZero(d)| == |NonZero(e)|
    ensures forall i :: 0 <= i < |NonZero(d)| ==> NonZero(d)[i] <= NonZero(e)[i]
  {
    if d != [] {
      NonZeroAligned(d[..|d| - 1], e[..|e| - 1]);
    }
  }

  /** Raising differences while the set of nonzero ones stays the same never lowers the effect size. */
  lemma EffectMonotone(d: seq<real>, e: seq<real>)
    requires |d| == |e|
    requires forall i :: 0 <= i < |d| ==> d[i] <= e[i] && (d[i] == 0.0 <==> e[i] == 0.0)
    ensures Effect(d) <= Effect(e)
  {
    NonZeroAligned(d, e);
    EffectFormula(d);
    EffectFormula(e);
    var m := |NonZero(d)|;
    if m > 0 {
      WalshMonotone(NonZero(d), NonZero(e));
      TrianglePositive(m);
      DivideLe(2.0 * WalshCount(NonZero(d)), 2.0 * WalshCount(NonZero(e)), Triangle(m));
    }
  }

  lemma RankSumBounds(d: seq<real>, keep: Side)
    ensures RankSum(d, keep) >= 0.0
    ensures RankSum(d, keep) > 0.0 <==> exists i :: 0 <= i < |d| && On(keep, d[i])
  {
    forall a ensures RankIn(d, a) >= 0.5 {
      SumPositive(d, CreditTo(a));
    }
    SumPositive(d, KeptRank(d, keep));
    assert forall i :: 0 <= i < |d| ==> (KeptRank(d, keep)(d[i]) > 0.0 <==> On(keep, d[i]));
  }

  lemma BiserialRange(p: real, n: real)
    requires p >= 0.0 && n >= 0.0 && p + n > 0.0
    ensures -1.0 <= Biserial(p, n) <= 1.0
    ensures Biserial(p, n) == 1.0 <==> n == 0.0
  {
    var t := p + n;
    var q := (p - n) / t;
    Quotient(p - n, t);
    TimesLess(1.0, q, t);
    TimesLess(q, 1.0, t);
    TimesLess(q, -1.0, t);
    assert (-1.0) * t == -t && 1.0 * t == t;
  }

  ghost predicate SomeNonZero(d: seq<real>)
  {
    exists i :: 0 <= i < |d| && d[i] != 0.0
  }

  ghost predicate NoneNegative(d: seq<real>)
  {
    forall i :: 0 <= i < |d| ==> d[i] >= 0.0
  }

  lemma NonZeroSigns(d: seq<real>)
    ensures SomeNonZero(d) <==> NonZero(d) != []
    ensures NoneNegative(d) <==> !exists i :: 0 <= i < |NonZero(d)| && NonZero(d)[i] < 0.0
  {
    var nz := NonZero(d);
    FilterMembers(d, IsNonZero());
    assert nz != [] ==> nz[0] in d;
    assert forall i :: 0 <= i < |d| && d[i] != 0.0 ==> d[i] in nz;
    assert forall i :: 0 <= i < |nz| ==> nz[i] in d;
  }

  /** The effect lies in [-1, 1], and is 1 exactly when some difference is nonzero and none is negative. */
  lemma EffectRange(diffs: seq<real>)
    ensures -1.0 <= Effect(diffs) <= 1.0
    ensures Effect(diffs) == 1.0 <==> SomeNonZero(diffs) && NoneNegative(diffs)
  {
    var nz := NonZero(diffs);
    var wPos, wNeg := RankSum(nz, Gains), RankSum(nz, Losses);
    RankSumBounds(nz, Gains);
    RankSumBounds(nz, Losses);
    NonZeroHasNoZeros(diffs);
    SignsSplit(nz);
    TrianglePositive(|nz|);
    NonZeroSigns(diffs);
    if nz != [] {
      BiserialRange(wPos, wNeg);
    }
  }

  lemma RankSumPermutation(d: seq<real>, e: seq<real>, keep: Side)
    requires multiset(d) == multiset(e)
    ensures RankSum(d, keep) == RankSum(e, keep)
  {
    SumPermutation(d, e, KeptRank(d, keep));
    forall i | 0 <= i < |e| ensures KeptRank(d, keep)(e[i]) == KeptRank(e, keep)(e[i]) {
      SumPermutation(d, e, CreditTo(e[i]));
    }
    SumEq(e, KeptRank(d, keep), e, KeptRank(e, keep));
  }

  /** The effect does not depend on the order of the differences. */
  lemma EffectPermutation(d: seq<real>, e: seq<real>)
    requires multiset(d) == multiset(e)
    ensures Effect(d) == Effect(e)
  {
    FilterPermutation(d, e, IsNonZero());
    RankSumPermutation(NonZero(d), NonZero(e), Gains);
    RankSumPermutation(NonZero(d), NonZero(e), Losses);
  }

  function Times(x: real, c: real): real { x * c }

  function TimesBy(c: real): real -> real
  {
    x => Times(x, c)
  }

  function Scaled(d: seq<real>, c: real): seq<real>
  {
    Map(d, TimesBy(c))
  }

  lemma {:induction false} NonZeroScaled(d: seq<real>, c: real)
    requires c != 0.0
    ensures NonZero(Scaled(d, c)) == Scaled(NonZero(d), c)
  {
    if d != [] {
      var n := |d| - 1;
      NonZeroScaled(d[..n], c);
      assert Scaled(d, c)[..n] == Scaled(d[..n], c);
      assert Times(d[n], c) == 0.0 <==> d[n] == 0.0;
      assert NonZero(d) == NonZero(d[..n]) + if d[n] != 0.0 then [d[n]] else [];
    }
  }

  lemma AbsScaled(a: real, c: real)
    requires c != 0.0
    ensures Abs(Times(a, c)) == Abs(a) * Abs(c)
  {
    TimesSign(a, c);
    assert (-a) * c == -(a * c) && a * (-c) == -(a * c) && (-a) * (-c) == a * c;
  }

  lemma AbsOrderScaled(a: real, b: real, c: real)
    requires c != 0.0
    ensures Abs(Times(a, c)) < Abs(Times(b, c)) <==> Abs(a) < Abs(b)
  {
    AbsScaled(a, c);
    AbsScaled(b, c);
    assert Abs(c) > 0.0;
    hide Abs, Times;
    ScaledOrder(Abs(Times(a, c)), Abs(Times(b, c)), Abs(a), Abs(b), Abs(c));
  }

  lemma ScaledOrder(x: real, y: real, p: real, q: real, r: real)
    requires r > 0.0 && x == p * r && y == q * r
    ensures x < y <==> p < q
  {
    TimesLess(p, q, r);
  }

  lemma CreditScaled(a: real, b: real, c: real)
    requires c != 0.0
    ensures Credit(Times(a, c), Times(b, c)) == Credit(a, b)
  {
    AbsOrderScaled(a, b, c);
    AbsOrderScaled(b, a, c);
    var x, y := Times(a, c), Times(b, c);
    assert Abs(y) < Abs(x) <==> Abs(b) < Abs(a);
    assert Abs(y) == Abs(x) <==> Abs(b) == Abs(a);
  }

  lemma RankInScaled(d: seq<real>, a: real, c: real)
    requires c != 0.0
    ensures RankIn(Scaled(d, c), Times(a, c)) == RankIn(d, a)
  {
    var e := Scaled(d, c);
    forall j | 0 <= j < |d| ensures CreditTo(Times(a, c))(e[j]) == CreditTo(a)(d[j]) {
      CreditScaled(a, d[j], c);
    }
    SumEq(e, CreditTo(Times(a, c)), d, CreditTo(a));
  }

  function Turned(side: Side, c: real): Side
  {
    if c > 0.0 || side == Any then side else if side == Gains then Losses else Gains
  }

  lemma RankSumScaled(d: seq<real>, c: real, side: Side)
    requires c != 0.0
    ensures RankSum(Scaled(d, c), side) == RankSum(d, Turned(side, c))
  {
    var e := Scaled(d, c);
    forall i | 0 <= i < |d| ensures KeptRank(e, side)(e[i]) == KeptRank(d, Turned(side, c))(d[i]) {
      RankInScaled(d, d[i], c);
      TimesSign(d[i], c);
    }
    SumEq(e, KeptRank(e, side), d, KeptRank(d, Turned(side, c)));
  }

  lemma TimesSign(x: real, c: real)
    requires c != 0.0
    ensures Times(x, c) > 0.0 <==> if c > 0.0 then x > 0.0 else x < 0.0
    ensures Times(x, c) < 0.0 <==> if c > 0.0 then x < 0.0 else x > 0.0
  {
  }

  /** Scaling by a positive factor keeps the effect; by a negative factor it negates it. */
  lemma EffectScaled(d: seq<real>, c: real)
    requires c != 0.0
    ensures Effect(Scaled(d, c)) == if c > 0.0 then Effect(d) else -Effect(d)
  {
    NonZeroScaled(d, c);
    var nz := NonZero(d);
    RankSumScaled(nz, c, Gains);
    RankSumScaled(nz, c, Losses);
    var p, n := RankSum(nz, Gains), RankSum(nz, Losses);
    BiserialSwap(p, n);
  }

  lemma BiserialSwap(p: real, n: real)
    ensures Biserial(n, p) == -Biserial(p, n)
  {
    var t := p + n;
    if t != 0.0 {
      var q := (p - n) / t;
      Quotient(p - n, t);
      assert (-q) * t == -(q * t);
      QuotientIs(n - p, t, -q);
    }
  }

  // ---------- The paired test ----------

  datatype Paired =
    | NoMatchedGoals
    | Paired(n: nat, meanBaseline: real, meanCandidate: real, meanDelta: real, medianDelta: real, effectSize: real)

  function Zip(a: seq<real>, b: seq<real>): (r: seq<(real, real)>)
    requires |a| == |b|
    ensures |r| == |a| && forall i :: 0 <= i < |a| ==> r[i] == (a[i], b[i])
  {
    seq(|a|, i requires 0 <= i < |a| => (a[i], b[i]))
  }

  function PairDelta(p: (real, real)): real { p.1 - p.0 }

  /** candidate - baseline, goal by goal */
  function Differences(a: seq<real>, b: seq<real>): seq<real>
    requires |a| == |b|
  {
    Map(Zip(a, b), PairDelta)
  }

  function Middle(s: seq<real>): real
    requires s != []
  {
    var mid := |s| / 2;
    if |s| % 2 == 1 then s[mid] else (s[mid - 1] + s[mid]) / 2.0
  }

  function Median(d: seq<real>): real
    requires d != []
  {
    Middle(Sorted(d, RealLe))
  }

  /** The reported delta statistics of a list of differences. */
  function Deltas(d: seq<real>): (real, real, real)
    requires d != []
  {
    (Mean(d), Median(d), Effect(d))
  }

  /** The reported statistics of two aligned score lists of the same length. */
  function Stats(a: seq<real>, b: seq<real>): Paired
    requires |a| == |b|
  {
    if a == [] then NoMatchedGoals else
    var (mean, median, effect) := Deltas(Differences(a, b));
    Paired(|a|, Round4(Mean(a)), Round4(Mean(b)), Round4(mean), Round4(median), Round4(effect))
  }

  function Min(x: nat, y: nat): nat
  {
    if x < y then x else y
  }

  /** Adds up the ranks of the differences on one side. */
  method SumRanks(ranks: seq<real>, nz: seq<real>, side: Side) returns (w: real)
    requires |ranks| == |nz| && forall i :: 0 <= i < |nz| ==> ranks[i] == CountingRank(nz, i)
    ensures w == RankSum(nz, side)
  {
    w := 0.0;
    for i := 0 to |nz|
      invariant w == SumBy(nz[..i], KeptRank(nz, side))
    {
      CountingRankIsCredit(nz, i);
      assert nz[..i + 1][..i] == nz[..i];
      if On(side, nz[i]) {
        w := w + ranks[i];
      }
    }
    assert nz[..|nz|] == nz;
  }

  // ---------- What the reported figures are ----------

  function UpTo(v: real): real -> bool
  {
    x => x <= v
  }

  function Below(v: real): real -> bool
  {
    x => x < v
  }

  function Above(v: real): real -> bool
  {
    x => !(x <= v)
  }

  /** In sorted order `a` stands at place `k`: at most k values are below it, and more than k up to it. */
  ghost predicate AtPlace(s: seq<real>, k: nat, a: real)
  {
    |Filter(s, Below(a))| <= k < |Filter(s, UpTo(a))|
  }

  /** The two middle values in sorted order; they are the same place when their number is odd. */
  ghost predicate Middles(s: seq<real>, a: real, b: real)
    requires s != []
  {
    AtPlace(s, (|s| - 1) / 2, a) && AtPlace(s, |s| / 2, b)
  }

  /** The middle value, or midway between the two middle values. */
  ghost predicate IsMedian(m: real, s: seq<real>)
    requires s != []
  {
    exists a, b :: Middles(s, a, b) && m == (a + b) / 2.0
  }

  /** At most half of the values lie below, and at most half above. */
  ghost predicate Halves(m: real, s: seq<real>)
  {
    2 * |Filter(s, Below(m))| <= |s| && 2 * |Filter(s, Above(m))| <= |s|
  }

  /** e M = 2W - M for the Walsh count W of the m nonzero values and M = m(m+1)/2; and 0 when m = 0. */
  ghost predicate IsEffect(e: real, s: seq<real>)
  {
    var nz := Filter(s, IsNonZero());
    if nz == [] then e == 0.0 else e * Triangle(|nz|) == 2.0 * WalshCount(nz) - Triangle(|nz|)
  }

  ghost predicate RoundedMean(r: real, s: seq<real>)
  {
    exists m :: IsMean(m, s, Identity) && r == Round4(m)
  }

  ghost predicate RoundedMedian(r: real, s: seq<real>)
    requires s != []
  {
    exists m :: IsMedian(m, s) && Halves(m, s) && r == Round4(m)
  }

  ghost predicate RoundedEffect(r: real, s: seq<real>)
  {
    exists e :: IsEffect(e, s) && r == Round4(e)
  }

  /** In an ascending list more than k values pass a test closed downwards exactly when the one at place k does. */
  lemma {:induction false} DownPlace(s: seq<real>, k: nat, keep: real -> bool)
    requires Ascending(s, RealLe) && k < |s|
    requires forall x, y :: x <= y && keep(y) ==> keep(x)
    ensures |Filter(s, keep)| > k <==> keep(s[k])
    ensures |Filter(s, keep)| <= |s|
  {
    var n := |s| - 1;
    FilterMembers(s[..n], keep);
    if k < n {
      DownPlace(s[..n], k, keep);
      assert RealLe(s[k], s[n]);
    } else if keep(s[n]) {
      forall x | x in s[..n] ensures keep(x) {
        var i :| 0 <= i < n && s[..n][i] == x;
        assert RealLe(s[i], s[n]);
      }
      FilterAll(s[..n], keep);
    }
  }

  lemma SortedPlace(d: seq<real>, k: nat)
    requires k < |d|
    ensures |Sorted(d, RealLe)| == |d| && AtPlace(d, k, Sorted(d, RealLe)[k])
  {
    hide Filter, Sorted;
    var s := Sorted(d, RealLe);
    SortedAscending(d, RealLe);
    SameLength(s, d);
    var v := s[k];
    FilterPermutation(s, d, UpTo(v));
    FilterPermutation(s, d, Below(v));
    SameLength(Filter(s, UpTo(v)), Filter(d, UpTo(v)));
    SameLength(Filter(s, Below(v)), Filter(d, Below(v)));
    DownPlace(s, k, UpTo(v));
    DownPlace(s, k, Below(v));
  }

  lemma MedianIsMedian(d: seq<real>)
    requires d != []
    ensures IsMedian(Median(d), d) && Halves(Median(d), d)
  {
    hide Sorted, Filter;
    var s := Sorted(d, RealLe);
    var low, high := (|d| - 1) / 2, |d| / 2;
    SortedPlace(d, low);
    SortedPlace(d, high);
    SortedAscending(d, RealLe);
    assert low < high ==> RealLe(s[low], s[high]);
    assert Median(d) == (s[low] + s[high]) / 2.0 && Middles(d, s[low], s[high]);
    PlacesHalve(d, s[low], s[high]);
  }

  lemma PlacesHalve(d: seq<real>, a: real, b: real)
    requires d != [] && a <= b && AtPlace(d, (|d| - 1) / 2, a) && AtPlace(d, |d| / 2, b)
    ensures Halves((a + b) / 2.0, d)
  {
    var m := (a + b) / 2.0;
    FewerKept(d, Below(m), Below(b));
    FewerKept(d, Above(m), Above(a));
    SumSplit(d, UpTo(a), Above(a), Identity);
  }

  lemma {:induction false} FewerKept(s: seq<real>, f: real -> bool, g: real -> bool)
    requires forall x :: f(x) ==> g(x)
    ensures |Filter(s, f)| <= |Filter(s, g)|
  {
    if s != [] {
      FewerKept(s[..|s| - 1], f, g);
    }
  }

  lemma PlaceUnique(s: seq<real>, k: nat, a: real, b: real)
    requires AtPlace(s, k, a) && AtPlace(s, k, b)
    ensures a == b
  {
    if a < b {
      FewerKept(s, UpTo(a), Below(b));
    } else if b < a {
      FewerKept(s, UpTo(b), Below(a));
    }
  }

  /** There is one median, and it is the one computed. */
  lemma MedianExactly(m: real, d: seq<real>)
    requires d != []
    ensures IsMedian(m, d) <==> m == Median(d)
  {
    hide AtPlace, Median;
    MedianIsMedian(d);
    forall a, b, x, y | Middles(d, a, b) && Middles(d, x, y) ensures a == x && b == y {
      PlaceUnique(d, (|d| - 1) / 2, a, x);
      PlaceUnique(d, |d| / 2, b, y);
    }
  }

  lemma EffectIsEffect(d: seq<real>)
    ensures IsEffect(Effect(d), d)
  {
    hide Effect, WalshCount, Triangle;
    EffectFormula(d);
    var nz := NonZero(d);
    TrianglePositive(|nz|);
    if nz != [] {
      Quotient(2.0 * WalshCount(nz), Triangle(|nz|));
      var t := Triangle(|nz|);
      assert (2.0 * WalshCount(nz) / t - 1.0) * t == (2.0 * WalshCount(nz) / t) * t - t;
    }
  }

  /** candidate - baseline, place by place */
  function Gaps(a: seq<real>, b: seq<real>): (r: seq<real>)
    requires |a| == |b|
    ensures |r| == |a| && forall i :: 0 <= i < |a| ==> r[i] == b[i] - a[i]
  {
    seq(|a|, i requires 0 <= i < |a| => b[i] - a[i])
  }

  /** Each figure is the rounded statistic it is named after. */
  ghost predicate Reports(out: Paired, a: seq<real>, b: seq<real>)
    requires |a| == |b|
  {
    match out
    case NoMatchedGoals => a == []
    case Paired(n, meanBaseline, meanCandidate, meanDelta, medianDelta, effectSize) =>
      && a != [] && n == |a|
      && RoundedMean(meanBaseline, a) && RoundedMean(meanCandidate, b)
      && RoundedMean(meanDelta, Gaps(a, b))
      && RoundedMedian(medianDelta, Gaps(a, b))
      && RoundedEffect(effectSize, Gaps(a, b))
  }

  lemma StatsReport(a: seq<real>, b: seq<real>)
    requires |a| == |b|
    ensures Reports(Stats(a, b), a, b)
  {
    hide Mean, Median, Effect, Round4, IsMean, IsMedian, Halves, IsEffect;
    if a != [] {
      var d := Gaps(a, b);
      assert Differences(a, b) == d;
      MeanIsMean(a);
      MeanIsMean(b);
      MeanIsMean(d);
      MedianIsMedian(d);
      EffectIsEffect(d);
      assert IsMean(Mean(a), a, Identity) && IsMean(Mean(b), b, Identity) && IsMean(Mean(d), d, Identity);
    }
  }

  method PairedSignificance(baseline: seq<real>, candidate: seq<real>) returns (out: Paired)
    ensures var n := Min(|baseline|, |candidate|); Reports(out, baseline[..n], candidate[..n])
    ensures var n := Min(|baseline|, |candidate|); out == Stats(baseline[..n], candidate[..n])
  {
    hide Reports;
    var n := Min(|baseline|, |candidate|);
    StatsReport(baseline[..n], candidate[..n]);
    if n == 0 {
      return NoMatchedGoals;
    }
    var a, b := baseline[..n], candidate[..n];
    var diffs := Differences(a, b);
    var nz := NonZero(diffs);
    var ranks := AverageRanks(nz);
    var wPos := SumRanks(ranks, nz, Gains);
    var wNeg := SumRanks(ranks, nz, Losses);
    var effect := Biserial(wPos, wNeg);
    out := Paired(n, Round4(Mean(a)), Round4(Mean(b)), Round4(Mean(diffs)), Round4(Median(diffs)), Round4(effect));
  }

  // ---------- What the paired test promises ----------

  lemma {:induction false} SumScaled(d: seq<real>, c: real)
    ensures SumBy(Scaled(d, c), Identity) == c * SumBy(d, Identity)
  {
    var zero := (x: real) => 0.0;
    SumConstant(d, zero, 0.0);
    SumLinear(d, zero, Identity, c, TimesBy(c));
    SumEq(Scaled(d, c), Identity, d, TimesBy(c));
  }

  lemma MeanNegated(d: seq<real>)
    ensures Mean(Scaled(d, -1.0)) == -Mean(d)
  {
    SumScaled(d, -1.0);
    if d != [] {
      Quotient(SumBy(d, Identity), |d| as real);
      QuotientIs(-SumBy(d, Identity), |d| as real, -Mean(d));
    }
  }

  function Reversed(s: seq<real>): (r: seq<real>)
    ensures |r| == |s| && forall i :: 0 <= i < |s| ==> r[i] == s[|s| - 1 - i]
  {
    seq(|s|, i requires 0 <= i < |s| => s[|s| - 1 - i])
  }

  lemma {:induction false} ReversedMultiset(s: seq<real>)
    ensures multiset(Reversed(s)) == multiset(s)
  {
    if s != [] {
      var n := |s| - 1;
      ReversedMultiset(s[..n]);
      assert s == s[..n] + [s[n]];
      assert Reversed(s) == [s[n]] + Reversed(s[..n]);
    }
  }

  lemma ReversedNegationAscending(s: seq<real>)
    requires Ascending(s, RealLe)
    ensures Ascending(Reversed(Scaled(s, -1.0)), RealLe)
  {
    var u := Reversed(Scaled(s, -1.0));
    forall i, j | 0 <= i < j < |u| ensures RealLe(u[i], u[j]) {
      assert RealLe(s[|s| - 1 - j], s[|s| - 1 - i]);
    }
  }

  lemma SortedNegated(d: seq<real>)
    ensures Sorted(Scaled(d, -1.0), RealLe) == Reversed(Scaled(Sorted(d, RealLe), -1.0))
  {
    var s := Sorted(d, RealLe);
    SortedAscending(d, RealLe);
    SortedAscending(Scaled(d, -1.0), RealLe);
    MapPermutation(s, d, TimesBy(-1.0));
    ReversedMultiset(Scaled(s, -1.0));
    ReversedNegationAscending(s);
    AscendingUnique(Sorted(Scaled(d, -1.0), RealLe), Reversed(Scaled(s, -1.0)));
  }

  lemma MiddleNegated(s: seq<real>)
    requires s != []
    ensures Middle(Reversed(Scaled(s, -1.0))) == -Middle(s)
  {
  }

  lemma DifferencesSwapped(a: seq<real>, b: seq<real>)
    requires |a| == |b|
    ensures Differences(b, a) == Scaled(Differences(a, b), -1.0)
  {
  }

  lemma MedianNegated(d: seq<real>)
    requires d != []
    ensures Median(Scaled(d, -1.0)) == -Median(d)
  {
    var s := Sorted(d, RealLe);
    assert Median(Scaled(d, -1.0)) == Middle(Reversed(Scaled(s, -1.0))) by {
      SortedNegated(d);
    }
    MiddleNegated(s);
  }

  lemma DeltasNegated(d: seq<real>)
    requires d != []
    ensures Deltas(Scaled(d, -1.0)) == (-Deltas(d).0, -Deltas(d).1, -Deltas(d).2)
  {
    hide Mean, Median, Effect;
    MeanNegated(d);
    MedianNegated(d);
    EffectScaled(d, -1.0);
  }

  /** Swapping the two generations swaps the means and negates both deltas and the effect size. */
  lemma StatsAntisymmetric(a: seq<real>, b: seq<real>)
    requires |a| == |b|
    ensures Stats(b, a) == match Stats(a, b)
      case NoMatchedGoals => NoMatchedGoals
      case Paired(n, ma, mb, delta, median, effect) => Paired(n, mb, ma, -delta, -median, -effect)
  {
    hide Round4, Mean, Median, Effect;
    if a != [] {
      DifferencesSwapped(a, b);
      var d := Differences(a, b);
      DeltasNegated(d);
      Round4Odd(Deltas(d).0);
      Round4Odd(Deltas(d).1);
      Round4Odd(Deltas(d).2);
    }
  }

  lemma MedianPermutation(d: seq<real>, e: seq<real>)
    requires d != [] && multiset(d) == multiset(e) && |d| == |e|
    ensures Median(d) == Median(e)
  {
    SortedAscending(d, RealLe);
    SortedAscending(e, RealLe);
    AscendingUnique(Sorted(d, RealLe), Sorted(e, RealLe));
  }

  function First(p: (real, real)): real { p.0 }
  function Second(p: (real, real)): real { p.1 }

  /** The statistics do not depend on the order in which the goals are paired. */
  lemma StatsPermutation(a: seq<real>, b: seq<real>, a': seq<real>, b': seq<real>)
    requires |a| == |b| && |a'| == |b'|
    requires multiset(Zip(a, b)) == multiset(Zip(a', b'))
    ensures Stats(a, b) == Stats(a', b')
  {
    var p, q := Zip(a, b), Zip(a', b');
    assert |p| == |multiset(p)| == |multiset(q)| == |q|;
    MapPermutation(p, q, First);
    MapPermutation(p, q, Second);
    MapPermutation(p, q, PairDelta);
    assert Map(p, First) == a && Map(q, First) == a' && Map(p, Second) == b && Map(q, Second) == b';
    if a != [] {
      MeanPermutation(a, a');
      MeanPermutation(b, b');
      MeanPermutation(Differences(a, b), Differences(a', b'));
      MedianPermutation(Differences(a, b), Differences(a', b'));
      EffectPermutation(Differences(a, b), Differences(a', b'));
    }
  }

  // ---------- Monotone statistics ----------

  lemma {:induction false} MoreUpTo(d: seq<real>, e: seq<real>, v: real)
    requires |d| == |e| && forall i :: 0 <= i < |d| ==> d[i] <= e[i]
    ensures |Filter(e, UpTo(v))| <= |Filter(d, UpTo(v))|
  {
    if d != [] {
      MoreUpTo(d[..|d| - 1], e[..|e| - 1], v);
    }
  }

  /** Raising values raises, or keeps, every place of the sorted list. */
  lemma SortedMonotone(d: seq<real>, e: seq<real>, k: nat)
    requires |d| == |e| && (forall i :: 0 <= i < |d| ==> d[i] <= e[i]) && k < |d|
    ensures |Sorted(d, RealLe)| == |Sorted(e, RealLe)| == |d|
    ensures Sorted(d, RealLe)[k] <= Sorted(e, RealLe)[k]
  {
    hide Filter, Sorted;
    var s, t := Sorted(d, RealLe), Sorted(e, RealLe);
    SortedAscending(d, RealLe);
    SortedAscending(e, RealLe);
    assert |s| == |multiset(s)| == |d| && |t| == |multiset(t)| == |e|;
    var v := t[k];
    FilterPermutation(s, d, UpTo(v));
    FilterPermutation(t, e, UpTo(v));
    SameLength(Filter(s, UpTo(v)), Filter(d, UpTo(v)));
    SameLength(Filter(t, UpTo(v)), Filter(e, UpTo(v)));
    MoreUpTo(d, e, v);
    DownPlace(t, k, UpTo(v));
    DownPlace(s, k, UpTo(v));
  }

  lemma SameLength(s: seq<real>, t: seq<real>)
    requires multiset(s) == multiset(t)
    ensures |s| == |t|
  {
    assert |s| == |multiset(s)| && |t| == |multiset(t)|;
  }

  lemma MedianMonotone(d: seq<real>, e: seq<real>)
    requires |d| == |e| > 0 && forall i :: 0 <= i < |d| ==> d[i] <= e[i]
    ensures Median(d) <= Median(e)
  {
    hide Sorted;
    var mid := |d| / 2;
    SortedMonotone(d, e, mid);
    if |d| % 2 == 0 {
      SortedMonotone(d, e, mid - 1);
    }
  }

  /** Raising candidate scores lowers neither the mean delta nor the median delta, whatever becomes zero. */
  lemma DeltasMonotone(a: seq<real>, b: seq<real>, b': seq<real>)
    requires |a| == |b| == |b'| > 0 && forall i :: 0 <= i < |a| ==> b[i] <= b'[i]
    ensures Stats(a, b).meanDelta <= Stats(a, b').meanDelta
    ensures Stats(a, b).medianDelta <= Stats(a, b').medianDelta
  {
    hide Round4, Mean, Median, Effect;
    var d, e := Differences(a, b), Differences(a, b');
    MeanLe(d, e);
    MedianMonotone(d, e);
    Round4Monotone(Mean(d), Mean(e));
    Round4Monotone(Median(d), Median(e));
  }

  /** Raising candidate scores without creating or removing a zero difference lowers neither delta nor effect. */
  lemma StatsMonotone(a: seq<real>, b: seq<real>, b': seq<real>)
    requires |a| == |b| == |b'| > 0
    requires forall i :: 0 <= i < |a| ==> b[i] <= b'[i] && (b[i] == a[i] <==> b'[i] == a[i])
    ensures Stats(a, b).meanDelta <= Stats(a, b').meanDelta
    ensures Stats(a, b).effectSize <= Stats(a, b').effectSize
  {
    var d, e := Differences(a, b), Differences(a, b');
    MeanLe(d, e);
    EffectMonotone(d, e);
    Round4Monotone(Mean(d), Mean(e));
    Round4Monotone(Effect(d), Effect(e));
  }

  // ---------- The zero set matters ----------

  lemma CompareRatios(a: real, s: real, b: real, t: real)
    requires s > 0.0 && t > 0.0
    ensures a / s < b / t <==> a * t < b * s
  {
    Quotient(a, s);
    Quotient(b, t);
    TimesLess(a / s, b / t, s * t);
    assert (a / s) * (s * t) == ((a / s) * s) * t;
    assert (b / t) * (s * t) == ((b / t) * t) * s;
  }

  /** One more difference takes the Walsh count from W to W + q: the Walsh ratios compare as m q and 2W. */
  lemma AddedRatio(m: nat, w: real, q: real)
    requires m > 0
    ensures (w + q) / Triangle(m + 1) < w / Triangle(m) <==> m as real * q < 2.0 * w
    ensures w / Triangle(m) < (w + q) / Triangle(m + 1) <==> 2.0 * w < m as real * q
  {
    hide Triangle;
    var r := m as real;
    TrianglePositive(m);
    TrianglePositive(m + 1);
    CompareRatios(w + q, Triangle(m + 1), w, Triangle(m));
    CompareRatios(w, Triangle(m), w + q, Triangle(m + 1));
    AddedTerms(m, w, q);
    TimesLess(q * r / 2.0, w, r + 1.0);
    TimesLess(w, q * r / 2.0, r + 1.0);
  }

  lemma AddedTerms(m: nat, w: real, q: real)
    ensures (w + q) * Triangle(m) - w * Triangle(m + 1)
         == (q * m as real / 2.0) * (m as real + 1.0) - w * (m as real + 1.0)
  {
    var r := m as real;
    assert Triangle(m + 1) == Triangle(m) + (r + 1.0);
    assert (w + q) * Triangle(m) == w * Triangle(m) + q * Triangle(m);
    assert w * Triangle(m + 1) == w * Triangle(m) + w * (r + 1.0);
    assert q * Triangle(m) == (q * r / 2.0) * (r + 1.0);
  }

  lemma NonZeroSnoc(d: seq<real>, x: real)
    ensures NonZero(d + [x]) == if x != 0.0 then NonZero(d) + [x] else NonZero(d)
  {
    FilterSnoc(d, x, IsNonZero());
  }

  lemma WalshSnoc(d: seq<real>, x: real)
    ensures WalshCount(d + [x]) == WalshCount(d) + SumBy(d, WalshWith(x)) + WalshPair(x, x)
  {
    assert (d + [x])[..|d|] == d;
    SumSnoc(d, x, WalshWith(x));
  }

  lemma DoubleRatio(w: real, t: real)
    requires t > 0.0
    ensures 2.0 * w / t == 2.0 * (w / t)
  {
    Quotient(w, t);
    QuotientIs(2.0 * w, t, 2.0 * (w / t));
  }

  /** The number of nonzero differences times the Walsh credit that `x` earns with them and with itself. */
  function CrossingWeight(nz: seq<real>, x: real): real
  {
    |nz| as real * (SumBy(nz, WalshWith(x)) + WalshPair(x, x))
  }

  /** A zero among the differences and a nonzero value in its place compare as 2W and the crossing weight. */
  lemma Crossing(d: seq<real>, x: real)
    requires x != 0.0 && NonZero(d) != []
    ensures Effect(d + [x]) < Effect(d + [0.0]) <==> CrossingWeight(NonZero(d), x) < 2.0 * WalshCount(NonZero(d))
    ensures Effect(d + [0.0]) < Effect(d + [x]) <==> 2.0 * WalshCount(NonZero(d)) < CrossingWeight(NonZero(d), x)
  {
    hide Effect, NonZero, WalshCount, Triangle, SumBy, WalshPair;
    var nz := NonZero(d);
    var m, w, q := |nz|, WalshCount(nz), SumBy(nz, WalshWith(x)) + WalshPair(x, x);
    NonZeroSnoc(d, 0.0);
    NonZeroSnoc(d, x);
    EffectFormula(d + [x]);
    EffectFormula(d + [0.0]);
    WalshSnoc(nz, x);
    AddedRatio(m, w, q);
    TrianglePositive(m);
    TrianglePositive(m + 1);
    DoubleRatio(w, Triangle(m));
    DoubleRatio(w + q, Triangle(m + 1));
  }

  /** Without other nonzero differences the effect is 0 for a zero, and the sign of `x` otherwise. */
  lemma LoneDifference(d: seq<real>, x: real)
    requires NonZero(d) == []
    ensures Effect(d + [x]) == if x > 0.0 then 1.0 else if x < 0.0 then -1.0 else 0.0
  {
    hide Effect, NonZero, WalshCount;
    NonZeroSnoc(d, x);
    EffectFormula(d + [x]);
    if x != 0.0 {
      LoneWalsh(x);
      assert Triangle(1) == 1.0;
      assert [] + [x] == [x];
    }
  }

  lemma LoneWalsh(x: real)
    ensures WalshCount([x]) == if x > 0.0 then 1.0 else if x == 0.0 then 0.5 else 0.0
  {
    WalshSnoc([], x);
    assert [] + [x] == [x];
  }

  /** Raising one zero difference to `x` lowers the effect exactly when the crossing weight is below 2W. */
  lemma ZeroRaised(d: seq<real>, x: real)
    requires x > 0.0
    ensures Effect(d + [x]) < Effect(d + [0.0]) <==> CrossingWeight(NonZero(d), x) < 2.0 * WalshCount(NonZero(d))
  {
    hide Effect, NonZero;
    if NonZero(d) == [] {
      LoneDifference(d, x);
      LoneDifference(d, 0.0);
    } else {
      Crossing(d, x);
    }
  }

  /** Raising one negative difference `x` to zero lowers the effect exactly when the crossing weight is above 2W. */
  lemma RaisedToZero(d: seq<real>, x: real)
    requires x < 0.0
    ensures Effect(d + [0.0]) < Effect(d + [x]) <==> 2.0 * WalshCount(NonZero(d)) < CrossingWeight(NonZero(d), x)
  {
    hide Effect, NonZero;
    if NonZero(d) == [] {
      LoneDifference(d, x);
      LoneDifference(d, 0.0);
    } else {
      Crossing(d, x);
    }
  }

  lemma MovedLast(before: seq<real>, x: real, after: seq<real>)
    ensures Effect(before + [x] + after) == Effect(before + after + [x])
  {
    EffectPermutation(before + [x] + after, before + after + [x]);
  }

  /** Raising any one difference lowers the effect in these two cases and no other: it leaves zero with a crossing
      weight below 2W, or arrives at zero with one above, for the Walsh count W of the other nonzero differences. */
  lemma RaisingOneLowers(before: seq<real>, v: real, w: real, after: seq<real>)
    requires v < w
    ensures var nz := NonZero(before + after);
      Effect(before + [w] + after) < Effect(before + [v] + after) <==>
        ((v == 0.0 && CrossingWeight(nz, w) < 2.0 * WalshCount(nz))
         || (w == 0.0 && 2.0 * WalshCount(nz) < CrossingWeight(nz, v)))
  {
    hide Effect, NonZero, WalshCount, CrossingWeight;
    MovedLast(before, v, after);
    MovedLast(before, w, after);
    if v == 0.0 {
      ZeroRaised(before + after, w);
    } else if w == 0.0 {
      RaisedToZero(before + after, v);
    } else {
      EffectMonotone(before + [v] + after, before + [w] + after);
    }
  }

  lemma SampleList(a: real, b: real, c: real)
    requires a != 0.0 && b != 0.0 && c != 0.0
    ensures NonZero([a, b, c]) == [a, b, c]
    ensures WalshCount([a, b, c])
         == WalshPair(a, a) + (WalshPair(a, b) + WalshPair(b, b))
            + (WalshPair(a, c) + WalshPair(b, c) + WalshPair(c, c))
    ensures forall x :: SumBy([a, b, c], WalshWith(x)) == WalshPair(a, x) + WalshPair(b, x) + WalshPair(c, x)
  {
    hide WalshPair, NonZero;
    assert [] + [a] == [a] && [a] + [b] == [a, b] && [a, b] + [c] == [a, b, c];
    NonZeroSnoc([], a);
    NonZeroSnoc([a], b);
    NonZeroSnoc([a, b], c);
    NonZeroNone();
    WalshSnoc([], a);
    WalshSnoc([a], b);
    WalshSnoc([a, b], c);
    forall x ensures SumBy([a, b, c], WalshWith(x)) == WalshPair(a, x) + WalshPair(b, x) + WalshPair(c, x)
      ensures SumBy([a, b], WalshWith(x)) == WalshPair(a, x) + WalshPair(b, x)
      ensures SumBy([a], WalshWith(x)) == WalshPair(a, x)
    {
      SumSnoc([], a, WalshWith(x));
      SumSnoc([a], b, WalshWith(x));
      SumSnoc([a, b], c, WalshWith(x));
    }
  }

  lemma NonZeroNone()
    ensures NonZero([]) == []
  {
  }

  /** So a raised candidate score can lower the effect size, once a zero difference leaves zero. */
  lemma ZeroCrossingLowersEffect()
    ensures Effect([-1.0, 10.0, 11.0] + [0.5]) < Effect([-1.0, 10.0, 11.0] + [0.0])
  {
    hide Effect, NonZero, WalshCount, SumBy;
    SampleList(-1.0, 10.0, 11.0);
    ZeroRaised([-1.0, 10.0, 11.0], 0.5);
  }

  /** Or once a negative difference arrives at zero. */
  lemma ReachingZeroLowersEffect()
    ensures Effect([-10.0, -9.0, 5.0] + [0.0]) < Effect([-10.0, -9.0, 5.0] + [-0.5])
  {
    hide Effect, NonZero, WalshCount, SumBy;
    SampleList(-10.0, -9.0, 5.0);
    RaisedToZero([-10.0, -9.0, 5.0], -0.5);
  }
}
