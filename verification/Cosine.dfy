/** `_cosine` of `src/agents/persister.py`, over the reals with an exact square root. */
module Cosine {
  import opened Sums

  /** Stands for `math.sqrt`. */
  ghost predicate IsSqrt(sqrt: real -> real)
  {
    forall x :: x >= 0.0 ==> sqrt(x) >= 0.0 && sqrt(x) * sqrt(x) == x
  }

  function Dot(u: seq<real>, v: seq<real>): real
    requires |u| == |v|
  {
    if u == [] then 0.0 else
    var n := |u| - 1;
    Dot(u[..n], v[..n]) + u[n] * v[n]
  }

  function Similarity(u: seq<real>, v: seq<real>, sqrt: real -> real): real
    requires |u| == |v| && IsSqrt(sqrt)
  {
    DotSelf(u);
    DotSelf(v);
    CosineFrom(Dot(u, v), Dot(u, u), Dot(v, v), sqrt)
  }

  /** The cosine of two vectors with this product and these squared norms. */
  function CosineFrom(dot: real, nu: real, nv: real, sqrt: real -> real): real
    requires IsSqrt(sqrt) && nu >= 0.0 && nv >= 0.0
  {
    if nu == 0.0 || nv == 0.0 then 0.0 else
    RootsPositive(nu, nv, sqrt);
    dot / (sqrt(nu) * sqrt(nv))
  }

  lemma RootsPositive(nu: real, nv: real, sqrt: real -> real)
    requires IsSqrt(sqrt) && nu > 0.0 && nv > 0.0
    ensures sqrt(nu) > 0.0 && sqrt(nv) > 0.0 && sqrt(nu) * sqrt(nv) > 0.0
  {
    TimesPositive(sqrt(nu), sqrt(nv));
  }

  method CosineOf(u: seq<real>, v: seq<real>, sqrt: real -> real) returns (r: real)
    requires |u| == |v| && IsSqrt(sqrt)
    ensures IsCosine(r, u, v, sqrt)
    ensures r == Similarity(u, v, sqrt)
  {
    hide IsCosine, IsZero;
    var dot, nu, nv := 0.0, 0.0, 0.0;
    for i := 0 to |u|
      invariant dot == Dot(u[..i], v[..i]) && nu == Dot(u[..i], u[..i]) && nv == Dot(v[..i], v[..i])
    {
      assert u[..i + 1][..i] == u[..i] && v[..i + 1][..i] == v[..i];
      dot := dot + u[i] * v[i];
      nu := nu + u[i] * u[i];
      nv := nv + v[i] * v[i];
    }
    assert u[..|u|] == u && v[..|v|] == v;
    DotSelf(u);
    DotSelf(v);
    SimilarityIsCosine(u, v, sqrt);
    hide Dot;
    if nu == 0.0 || nv == 0.0 {
      return 0.0;
    }
    RootsPositive(nu, nv, sqrt);
    return dot / (sqrt(nu) * sqrt(nv));
  }

  lemma DotSnoc(u: seq<real>, v: seq<real>)
    requires |u| == |v| && u != []
    ensures var n := |u| - 1; Dot(u, v) == Dot(u[..n], v[..n]) + u[n] * v[n]
  {
  }

  lemma {:induction false} DotSymmetric(u: seq<real>, v: seq<real>)
    requires |u| == |v|
    ensures Dot(u, v) == Dot(v, u)
  {
    if u != [] {
      DotSymmetric(u[..|u| - 1], v[..|v| - 1]);
    }
  }

  lemma SquareNonNegative(x: real)
    ensures x * x >= 0.0
  {
  }

  lemma ZeroSum(a: real, b: real)
    requires a >= 0.0 && b >= 0.0
    ensures a + b >= 0.0
    ensures a + b == 0.0 ==> a == 0.0 && b == 0.0
  {
  }

  ghost predicate IsZero(u: seq<real>)
  {
    forall i :: 0 <= i < |u| ==> u[i] == 0.0
  }

  lemma {:induction false} DotSelf(u: seq<real>)
    ensures Dot(u, u) >= 0.0
    ensures IsZero(u) ==> Dot(u, u) == 0.0
    ensures Dot(u, u) == 0.0 ==> IsZero(u)
  {
    if u != [] {
      var n := |u| - 1;
      DotSelf(u[..n]);
      SquareNonNegative(u[n]);
      ZeroSum(Dot(u[..n], u[..n]), u[n] * u[n]);
      ZeroProduct(u[n], u[n]);
      assert IsZero(u) <==> IsZero(u[..n]) && u[n] == 0.0;
    }
  }

  lemma NormPositive(u: seq<real>, sqrt: real -> real)
    requires IsSqrt(sqrt)
    ensures Dot(u, u) != 0.0 ==> sqrt(Dot(u, u)) > 0.0
    ensures sqrt(Dot(u, u)) >= 0.0 && sqrt(Dot(u, u)) * sqrt(Dot(u, u)) == Dot(u, u)
  {
    DotSelf(u);
  }

  lemma SquareLess(y: real, x: real)
    requires 0.0 <= y < x
    ensures y * y < x * x
  {
    TimesPositive(x - y, x + y);
    assert (x - y) * (x + y) == x * x - y * y;
  }

  lemma SquareLe(x: real, y: real)
    requires y >= 0.0
    ensures x * x <= y * y ==> -y <= x <= y
  {
    if x > y {
      SquareLess(y, x);
    } else if x < -y {
      SquareLess(y, -x);
      assert (-x) * (-x) == x * x;
    }
  }

  ghost predicate Bounded(d: real, u: real, v: real)
  {
    u >= 0.0 && v >= 0.0 && d * d <= u * v
  }

  /** With p = u b^2 and q = v a^2: (2 d a b)^2 <= 4 p q <= (p + q)^2. */
  lemma CrossTerm(d: real, u: real, v: real, s: real, t: real, m: real)
    requires s >= 0.0 && t >= 0.0 && m * m == s * t && d * d <= u * v
    ensures (2.0 * d * m) * (2.0 * d * m) <= (u * t + v * s) * (u * t + v * s)
  {
    var p, q := u * t, v * s;
    assert (2.0 * d * m) * (2.0 * d * m) == 4.0 * (d * d) * (m * m);
    assert s * t >= 0.0;
    assert (u * v - d * d) * (s * t) >= 0.0;
    assert (u * v - d * d) * (s * t) == p * q - (d * d) * (s * t);
    SquareNonNegative(p - q);
    assert (p + q) * (p + q) == 4.0 * (p * q) + (p - q) * (p - q);
  }

  lemma TimesNonNegative(x: real, y: real)
    requires x >= 0.0 && y >= 0.0
    ensures x * y >= 0.0
  {
  }

  lemma CauchySchwarzStep(d: real, u: real, v: real, a: real, b: real)
    requires Bounded(d, u, v)
    ensures Bounded(d + a * b, u + a * a, v + b * b)
  {
    SquareNonNegative(a);
    SquareNonNegative(b);
    var s, t, m := a * a, b * b, a * b;
    assert m * m == s * t;
    CrossTerm(d, u, v, s, t, m);
    TimesNonNegative(u, t);
    TimesNonNegative(v, s);
    SquareLe(2.0 * d * m, u * t + v * s);
    assert (d + m) * (d + m) == d * d + 2.0 * d * m + m * m;
    assert (u + s) * (v + t) == u * v + u * t + v * s + s * t;
  }

  /** Cauchy-Schwarz over the accumulator loop. */
  lemma {:induction false} CauchySchwarz(u: seq<real>, v: seq<real>)
    requires |u| == |v|
    ensures Bounded(Dot(u, v), Dot(u, u), Dot(v, v))
  {
    if u != [] {
      hide Dot, Bounded;
      var n := |u| - 1;
      CauchySchwarz(u[..n], v[..n]);
      DotSnoc(u, v);
      DotSnoc(u, u);
      DotSnoc(v, v);
      CauchySchwarzStep(Dot(u[..n], v[..n]), Dot(u[..n], u[..n]), Dot(v[..n], v[..n]), u[n], v[n]);
    }
  }

  lemma ProductOfRoots(d: real, p: real, q: real, x: real, y: real)
    requires x > 0.0 && y > 0.0 && x * x == p && y * y == q && d * d <= p * q
    ensures x * y > 0.0 && -1.0 <= d / (x * y) <= 1.0
  {
    TimesPositive(x, y);
    assert (x * y) * (x * y) == (x * x) * (y * y);
    SquareLe(d, x * y);
    DivideBounds(d, x * y);
  }

  /** Similarity is symmetric and lies in [-1, 1]. */
  lemma SimilarityBounds(u: seq<real>, v: seq<real>, sqrt: real -> real)
    requires |u| == |v| && IsSqrt(sqrt)
    ensures Similarity(u, v, sqrt) == Similarity(v, u, sqrt)
    ensures -1.0 <= Similarity(u, v, sqrt) <= 1.0
  {
    hide Dot, CosineFrom;
    DotSymmetric(u, v);
    CauchySchwarz(u, v);
    CosineFromBounds(Dot(u, v), Dot(u, u), Dot(v, v), sqrt);
  }

  lemma CosineFromBounds(d: real, p: real, q: real, sqrt: real -> real)
    requires IsSqrt(sqrt) && Bounded(d, p, q)
    ensures CosineFrom(d, p, q, sqrt) == CosineFrom(d, q, p, sqrt)
    ensures -1.0 <= CosineFrom(d, p, q, sqrt) <= 1.0
  {
    if p != 0.0 && q != 0.0 {
      var x, y := sqrt(p), sqrt(q);
      RootsPositive(p, q, sqrt);
      ProductOfRoots(d, p, q, x, y);
      Commuted(x, y);
      assert CosineFrom(d, p, q, sqrt) == d / (x * y);
      assert CosineFrom(d, q, p, sqrt) == d / (y * x);
    }
  }

  lemma Commuted(x: real, y: real)
    ensures x * y == y * x
  {
  }

  /** A vector's similarity with itself is 1, or 0 when it is the zero vector. */
  lemma SelfSimilarity(u: seq<real>, sqrt: real -> real)
    requires IsSqrt(sqrt)
    ensures Similarity(u, u, sqrt) == if IsZero(u) then 0.0 else 1.0
  {
    DotSelf(u);
    NormPositive(u, sqrt);
    if Dot(u, u) != 0.0 {
      QuotientIs(Dot(u, u), sqrt(Dot(u, u)) * sqrt(Dot(u, u)), 1.0);
    }
  }

  // ---------- What the cosine is ----------

  function Product(a: real, b: real): real
  {
    a * b
  }

  function Products(u: seq<real>, v: seq<real>): (r: seq<real>)
    requires |u| == |v|
    ensures |r| == |u| && forall i :: 0 <= i < |u| ==> r[i] == Product(u[i], v[i])
  {
    seq(|u|, i requires 0 <= i < |u| => Product(u[i], v[i]))
  }

  lemma ProductsFront(u: seq<real>, v: seq<real>)
    requires |u| == |v| && u != []
    ensures Products(u, v)[..|u| - 1] == Products(u[..|u| - 1], v[..|u| - 1])
  {
    hide Product;
  }

  /** The sum of the products, place by place. */
  lemma {:induction false} DotIsSum(u: seq<real>, v: seq<real>)
    requires |u| == |v|
    ensures Dot(u, v) == SumBy(Products(u, v), Identity)
  {
    if u != [] {
      var n := |u| - 1;
      DotIsSum(u[..n], v[..n]);
      ProductsFront(u, v);
    }
  }

  /** The cosine times both norms is the sum of products; it is 0 when either vector is zero. */
  ghost predicate IsCosine(r: real, u: seq<real>, v: seq<real>, sqrt: real -> real)
    requires |u| == |v|
  {
    var uu, vv := SumBy(Products(u, u), Identity), SumBy(Products(v, v), Identity);
    if IsZero(u) || IsZero(v) then r == 0.0
    else r * (sqrt(uu) * sqrt(vv)) == SumBy(Products(u, v), Identity)
  }

  lemma SimilarityIsCosine(u: seq<real>, v: seq<real>, sqrt: real -> real)
    requires |u| == |v| && IsSqrt(sqrt)
    ensures IsCosine(Similarity(u, v, sqrt), u, v, sqrt)
  {
    hide Dot, CosineFrom, IsZero, SumBy;
    DotSelf(u);
    DotSelf(v);
    DotIsSum(u, u);
    DotIsSum(v, v);
    DotIsSum(u, v);
    CosineFromIs(Dot(u, v), Dot(u, u), Dot(v, v), sqrt);
  }

  lemma CosineFromIs(d: real, p: real, q: real, sqrt: real -> real)
    requires IsSqrt(sqrt) && p >= 0.0 && q >= 0.0
    ensures p != 0.0 && q != 0.0 ==> CosineFrom(d, p, q, sqrt) * (sqrt(p) * sqrt(q)) == d
    ensures p == 0.0 || q == 0.0 ==> CosineFrom(d, p, q, sqrt) == 0.0
  {
    if p != 0.0 && q != 0.0 {
      RootsPositive(p, q, sqrt);
      Quotient(d, sqrt(p) * sqrt(q));
    }
  }
}
