/** Python's stable `sorted`, as an index permutation, and the orders it is used with. */
module Order {

  ghost predicate TotalPreorder<K(!new)>(le: (K, K) -> bool)
  {
    && (forall x, y :: le(x, y) || le(y, x))
    && (forall x, y, z :: le(x, y) && le(y, z) ==> le(x, z))
  }

  ghost predicate InRange(p: seq<nat>, n: nat)
  {
    forall k :: 0 <= k < |p| ==> p[k] < n
  }

  /** Index `i` comes out before index `j`: a smaller key, or an equal key and an earlier place. */
  ghost predicate Before<K>(keys: seq<K>, le: (K, K) -> bool, i: nat, j: nat)
    requires i < |keys| && j < |keys|
  {
    le(keys[i], keys[j]) && (le(keys[j], keys[i]) ==> i < j)
  }

  ghost predicate AllBefore<K>(keys: seq<K>, le: (K, K) -> bool, p: seq<nat>)
    requires InRange(p, |keys|)
  {
    forall a, b :: 0 <= a < b < |p| ==> Before(keys, le, p[a], p[b])
  }

  /** `p` lists the places of `keys` once each, in stable ascending key order. */
  ghost predicate StableOrder<K>(keys: seq<K>, le: (K, K) -> bool, p: seq<nat>)
  {
    && InRange(p, |keys|)
    && |p| == |keys|
    && (forall i: nat :: i in p <==> i < |keys|)
    && (forall a, b :: 0 <= a < b < |p| ==> p[a] != p[b])
    && AllBefore(keys, le, p)
  }

  function Insert<K>(keys: seq<K>, le: (K, K) -> bool, i: nat, p: seq<nat>): (r: seq<nat>)
    requires i < |keys| && InRange(p, |keys|)
    ensures InRange(r, |keys|) && |r| == |p| + 1
  {
    if p == [] || le(keys[i], keys[p[0]]) then [i] + p
    else [p[0]] + Insert(keys, le, i, p[1..])
  }

  function SortFrom<K>(keys: seq<K>, le: (K, K) -> bool, lo: nat): (p: seq<nat>)
    requires lo <= |keys|
    ensures InRange(p, |keys|) && |p| == |keys| - lo
    decreases |keys| - lo
  {
    if lo == |keys| then [] else Insert(keys, le, lo, SortFrom(keys, le, lo + 1))
  }

  /** The indices in stable ascending order of their keys. */
  function ArgSort<K>(keys: seq<K>, le: (K, K) -> bool): (p: seq<nat>)
    ensures InRange(p, |keys|) && |p| == |keys|
  {
    SortFrom(keys, le, 0)
  }

  function Gather<K>(keys: seq<K>, p: seq<nat>): (r: seq<K>)
    requires InRange(p, |keys|)
    ensures |r| == |p| && forall k :: 0 <= k < |p| ==> r[k] == keys[p[k]]
  {
    seq(|p|, k requires 0 <= k < |p| => keys[p[k]])
  }

  /** The keys in ascending order. */
  function Sorted<K>(keys: seq<K>, le: (K, K) -> bool): (r: seq<K>)
    ensures |r| == |keys|
  {
    Gather(keys, ArgSort(keys, le))
  }

  lemma {:induction false} InsertContents<K>(keys: seq<K>, le: (K, K) -> bool, i: nat, p: seq<nat>)
    requires i < |keys| && InRange(p, |keys|)
    ensures multiset(Insert(keys, le, i, p)) == multiset(p) + multiset{i}
  {
    if p != [] && !le(keys[i], keys[p[0]]) {
      InsertContents(keys, le, i, p[1..]);
      assert p == [p[0]] + p[1..];
    }
  }

  lemma BeforeTransitive<K(!new)>(keys: seq<K>, le: (K, K) -> bool, i: nat, j: nat, k: nat)
    requires TotalPreorder(le) && i < |keys| && j < |keys| && k < |keys|
    requires le(keys[i], keys[j]) && i < j && Before(keys, le, j, k)
    requires i < k
    ensures Before(keys, le, i, k)
  {
  }

  lemma ConsAllBefore<K>(keys: seq<K>, le: (K, K) -> bool, i: nat, p: seq<nat>)
    requires i < |keys| && InRange(p, |keys|) && AllBefore(keys, le, p)
    requires forall j :: j in p ==> Before(keys, le, i, j)
    ensures AllBefore(keys, le, [i] + p)
  {
    var r := [i] + p;
    forall a, b | 0 <= a < b < |r| ensures Before(keys, le, r[a], r[b]) {
      assert r[b] == p[b - 1] && r[b] in p;
      if a > 0 {
        assert r[a] == p[a - 1];
      }
    }
  }

  lemma {:induction false} InsertStable<K(!new)>(keys: seq<K>, le: (K, K) -> bool, i: nat, p: seq<nat>)
    requires TotalPreorder(le)
    requires i < |keys| && InRange(p, |keys|) && AllBefore(keys, le, p)
    requires forall j :: j in p ==> i < j
    ensures AllBefore(keys, le, Insert(keys, le, i, p))
  {
    if p == [] {
    } else if le(keys[i], keys[p[0]]) {
      forall j | j in p ensures Before(keys, le, i, j) {
        var k :| 0 <= k < |p| && p[k] == j;
        assert p[0] in p && i < p[0];
        if k > 0 {
          BeforeTransitive(keys, le, i, p[0], j);
        }
      }
      ConsAllBefore(keys, le, i, p);
    } else {
      assert forall j :: j in p[1..] ==> j in p;
      InsertStable(keys, le, i, p[1..]);
      InsertContents(keys, le, i, p[1..]);
      var rest := Insert(keys, le, i, p[1..]);
      forall j | j in rest ensures Before(keys, le, p[0], j) {
        assert j in multiset(rest);
        if j != i {
          assert j in p[1..];
        }
      }
      ConsAllBefore(keys, le, p[0], rest);
    }
  }

  lemma BeforeIrreflexive<K(!new)>(keys: seq<K>, le: (K, K) -> bool, p: seq<nat>)
    requires TotalPreorder(le) && InRange(p, |keys|) && AllBefore(keys, le, p)
    ensures forall a, b :: 0 <= a < b < |p| ==> p[a] != p[b]
  {
    forall a, b | 0 <= a < b < |p| ensures p[a] != p[b] {
      assert Before(keys, le, p[a], p[b]);
      var x := keys[p[a]];
      assert le(x, x);
    }
  }

  lemma {:induction false} SortFromContents<K>(keys: seq<K>, le: (K, K) -> bool, lo: nat)
    requires lo <= |keys|
    ensures forall i: nat :: i in SortFrom(keys, le, lo) <==> lo <= i < |keys|
    decreases |keys| - lo
  {
    if lo < |keys| {
      SortFromContents(keys, le, lo + 1);
      var p := SortFrom(keys, le, lo + 1);
      var r := Insert(keys, le, lo, p);
      InsertContents(keys, le, lo, p);
      forall i: nat ensures i in r <==> i in p || i == lo {
        assert i in r <==> i in multiset(r);
        assert i in p <==> i in multiset(p);
      }
    }
  }

  lemma {:induction false} SortFromAllBefore<K(!new)>(keys: seq<K>, le: (K, K) -> bool, lo: nat)
    requires TotalPreorder(le) && lo <= |keys|
    ensures AllBefore(keys, le, SortFrom(keys, le, lo))
    decreases |keys| - lo
  {
    if lo < |keys| {
      SortFromAllBefore(keys, le, lo + 1);
      SortFromContents(keys, le, lo + 1);
      InsertStable(keys, le, lo, SortFrom(keys, le, lo + 1));
    }
  }

  /** The index list is a stable, ascending permutation of all places. */
  lemma ArgSortStable<K(!new)>(keys: seq<K>, le: (K, K) -> bool)
    requires TotalPreorder(le)
    ensures StableOrder(keys, le, ArgSort(keys, le))
  {
    SortFromContents(keys, le, 0);
    SortFromAllBefore(keys, le, 0);
    BeforeIrreflexive(keys, le, ArgSort(keys, le));
  }

  lemma {:induction false} InsertMultiset<K>(keys: seq<K>, le: (K, K) -> bool, i: nat, p: seq<nat>)
    requires i < |keys| && InRange(p, |keys|)
    ensures multiset(Gather(keys, Insert(keys, le, i, p))) == multiset(Gather(keys, p)) + multiset{keys[i]}
  {
    if p == [] || le(keys[i], keys[p[0]]) {
      assert Gather(keys, [i] + p) == [keys[i]] + Gather(keys, p);
    } else {
      var rest := Insert(keys, le, i, p[1..]);
      InsertMultiset(keys, le, i, p[1..]);
      assert Gather(keys, [p[0]] + rest) == [keys[p[0]]] + Gather(keys, rest);
      assert Gather(keys, p) == [keys[p[0]]] + Gather(keys, p[1..]);
    }
  }

  lemma {:induction false} SortFromMultiset<K>(keys: seq<K>, le: (K, K) -> bool, lo: nat)
    requires lo <= |keys|
    ensures multiset(Gather(keys, SortFrom(keys, le, lo))) == multiset(keys[lo..])
    decreases |keys| - lo
  {
    if lo < |keys| {
      SortFromMultiset(keys, le, lo + 1);
      InsertMultiset(keys, le, lo, SortFrom(keys, le, lo + 1));
      assert keys[lo..] == [keys[lo]] + keys[lo + 1..];
    }
  }

  ghost predicate Ascending<K>(s: seq<K>, le: (K, K) -> bool)
  {
    forall a, b :: 0 <= a < b < |s| ==> le(s[a], s[b])
  }

  /** `sorted` returns the same values, in ascending order. */
  lemma SortedAscending<K(!new)>(keys: seq<K>, le: (K, K) -> bool)
    requires TotalPreorder(le)
    ensures Ascending(Sorted(keys, le), le)
    ensures multiset(Sorted(keys, le)) == multiset(keys)
  {
    ArgSortStable(keys, le);
    SortFromMultiset(keys, le, 0);
    var p := ArgSort(keys, le);
    forall a, b | 0 <= a < b < |p| ensures le(keys[p[a]], keys[p[b]]) {
      assert Before(keys, le, p[a], p[b]);
    }
    assert keys[0..] == keys;
  }

  function RealLe(x: real, y: real): bool { x <= y }

  lemma AscendingHead(s: seq<real>, t: seq<real>)
    requires Ascending(s, RealLe) && s != [] && t != [] && multiset(s) == multiset(t)
    ensures s[0] <= t[0]
  {
    assert t[0] in multiset(s);
    var j :| 0 <= j < |s| && s[j] == t[0];
    assert j > 0 ==> RealLe(s[0], s[j]);
  }

  lemma SameTail(s: seq<real>, t: seq<real>)
    requires s != [] && t != [] && s[0] == t[0] && multiset(s) == multiset(t)
    ensures multiset(s[1..]) == multiset(t[1..])
  {
    assert s == [s[0]] + s[1..] && t == [t[0]] + t[1..];
    assert multiset(s[1..]) == multiset(s) - multiset{s[0]};
  }

  /** Two ascending lists of the same numbers are the same list. */
  lemma {:induction false} AscendingUnique(s: seq<real>, t: seq<real>)
    requires Ascending(s, RealLe) && Ascending(t, RealLe) && multiset(s) == multiset(t)
    ensures s == t
    decreases |s|
  {
    assert |s| == |multiset(s)| == |multiset(t)| == |t|;
    if s != [] {
      AscendingHead(s, t);
      AscendingHead(t, s);
      SameTail(s, t);
      AscendingUnique(s[1..], t[1..]);
      assert s == [s[0]] + s[1..] && t == [t[0]] + t[1..];
    }
  }

  /** Code-point order on strings, as Python compares `str` values. */
  predicate StringLe(s: string, t: string)
  {
    s == [] || (t != [] && (s[0] < t[0] || (s[0] == t[0] && StringLe(s[1..], t[1..]))))
  }

  lemma {:induction false} StringTotal(s: string, t: string)
    ensures StringLe(s, t) || StringLe(t, s)
    ensures StringLe(s, t) && StringLe(t, s) ==> s == t
  {
    if s != [] && t != [] && s[0] == t[0] {
      StringTotal(s[1..], t[1..]);
      assert s == [s[0]] + s[1..] && t == [t[0]] + t[1..];
    }
  }

  lemma {:induction false} StringTransitive(s: string, t: string, u: string)
    requires StringLe(s, t) && StringLe(t, u)
    ensures StringLe(s, u)
  {
    if s != [] && t != [] && u != [] && s[0] == t[0] == u[0] {
      StringTransitive(s[1..], t[1..], u[1..]);
    }
  }

  lemma StringOrder()
    ensures TotalPreorder(StringLe)
    ensures forall s, t :: StringLe(s, t) && StringLe(t, s) ==> s == t
  {
    forall s: string, t: string
      ensures StringLe(s, t) || StringLe(t, s)
      ensures StringLe(s, t) && StringLe(t, s) ==> s == t
    {
      StringTotal(s, t);
    }
    forall s: string, t: string, u: string | StringLe(s, t) && StringLe(t, u) ensures StringLe(s, u) {
      StringTransitive(s, t, u);
    }
  }

  /** `s` comes no later than `t`: it is a prefix of it, or smaller at the first place where they differ. */
  lemma {:induction false} StringLeExactly(s: string, t: string)
    ensures StringLe(s, t) <==> s <= t || exists k: nat :: SmallerAt(s, t, k)
  {
    if s != [] && t != [] && s[0] == t[0] {
      var u, v := s[1..], t[1..];
      StringLeExactly(u, v);
      assert s == [s[0]] + u && t == [t[0]] + v;
      if k: nat :| SmallerAt(u, v, k) {
        assert s[..k + 1] == [s[0]] + u[..k] && t[..k + 1] == [t[0]] + v[..k];
        assert SmallerAt(s, t, k + 1);
      }
      if k: nat :| SmallerAt(s, t, k) {
        assert k > 0 && u[..k - 1] == s[..k][1..] && v[..k - 1] == t[..k][1..];
        assert SmallerAt(u, v, k - 1);
      }
    } else if s != [] && t != [] {
      assert s[..0] == t[..0];
      assert SmallerAt(s, t, 0) <==> s[0] < t[0];
      forall k: nat | SmallerAt(s, t, k) ensures k == 0 {
        SmallerShares(s, t, k);
      }
    }
  }

  lemma SmallerShares(s: string, t: string, k: nat)
    requires SmallerAt(s, t, k)
    ensures k > 0 ==> s[0] == t[0]
  {
    if k > 0 {
      assert s[..k][0] == s[0] && t[..k][0] == t[0];
    }
  }

  ghost predicate SmallerAt(s: string, t: string, k: nat)
  {
    k < |s| && k < |t| && s[..k] == t[..k] && s[k] < t[k]
  }
}
