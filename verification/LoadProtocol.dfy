/** What a load leaves behind, and what a second load finds. */
module LoadProtocol {
  import opened Lists
  import opened Options
  import opened Cosine
  import opened AgentRegistry
  import opened RetirementRules
  import opened Redundancy
  import opened AgentPersister

  lemma {:induction false} FilterNames(names: seq<string>, keep: string -> bool)
    requires NoDuplicates(names)
    ensures NoDuplicates(Filter(names, keep))
  {
    if names != [] {
      var n := |names| - 1;
      FilterNames(names[..n], keep);
      FilterMembers(names[..n], keep);
      var t := Filter(names[..n], keep);
      assert forall i :: 0 <= i < |t| ==> t[i] in t;
    }
  }

  lemma LoadableDistinct(rows: map<string, Row>, order: RowOrder)
    requires Enumerates(order)
    ensures NoDuplicates(LoadableNames(rows, order))
  {
    FilterNames(order(ActiveNames(rows)), ConvertibleIn(rows));
  }

  /** Registering agents of distinct names into an empty registry lists them in order. */
  lemma {:induction false} PutAllEmpty(agents: seq<Agent>)
    requires DistinctNames(agents)
    ensures PutAll([], agents) == agents
  {
    if agents != [] {
      var n := |agents| - 1;
      PutAllEmpty(agents[..n]);
      PutNew(agents[..n], agents[n]);
      assert agents == agents[..n] + [agents[n]];
    }
  }

  lemma LoadedView(rows: map<string, Row>, order: RowOrder)
    requires Enumerates(order)
    ensures var names := LoadableNames(rows, order);
      DistinctNames(AgentsOf(rows, names)) && PutAll([], AgentsOf(rows, names)) == AgentsOf(rows, names)
  {
    LoadableDistinct(rows, order);
    PutAllEmpty(AgentsOf(rows, LoadableNames(rows, order)));
  }

  lemma {:induction false} ActiveNamesAfter(rows: map<string, Row>, names: seq<string>, retired: seq<string>)
    requires forall n :: n in names ==> n in rows && rows[n].active
    ensures Names(Active(Deactivate(AgentsOf(rows, names), retired))) == Filter(names, NotIn(retired))
  {
    var v := AgentsOf(rows, names);
    if names != [] {
      var m := |names| - 1;
      var front := names[..m];
      assert forall n :: n in front ==> n in names;
      ActiveNamesAfter(rows, front, retired);
      assert Deactivate(v, retired)[..m] == Deactivate(AgentsOf(rows, front), retired);
      assert names[m] in names;
    }
  }

  /** The table after the redundancy pass of a load. */
  function Deduplicated(rows: map<string, Row>, s: Settings, first: RowOrder, now: int,
                        sqrt: real -> real): map<string, Row>
    requires Enumerates(first) && IsSqrt(sqrt)
  {
    RetireRows(rows, RedundantRows(rows, s.threshold, first, sqrt), now)
  }

  /** A load into an empty registry, without the registration loop. */
  lemma LoadFromEmpty(rows: map<string, Row>, s: Settings, first: RowOrder, second: RowOrder, now: int,
                      sqrt: real -> real)
    requires Enumerates(first) && Enumerates(second) && IsSqrt(sqrt)
    ensures var rows1 := Deduplicated(rows, s, first, now, sqrt);
      var names := LoadableNames(rows1, second);
      var view1 := AgentsOf(rows1, names);
      var retired := RetiredBy(view1, PolicyAt(s, now));
      && DistinctNames(view1) && NoDuplicates(names)
      && Load(rows, [], Some(s), first, second, now, sqrt)
         == LoadResult(RetireRows(rows1, AsSet(retired), now), Deactivate(view1, retired),
                       Filter(names, NotIn(retired)))
  {
    LoadedView(Deduplicated(rows, s, first, now, sqrt), second);
    LoadableDistinct(Deduplicated(rows, s, first, now, sqrt), second);
  }

  /** The rows that are active in the table after a load but could not be converted. */
  ghost predicate Unloadable(rows: map<string, Row>, n: string)
  {
    n in rows && rows[n].active && !Convertible(rows[n])
  }

  /** After a load into an empty registry, the names returned are the registry's active names, in order. */
  lemma ReturnedAreRegistered(rows: map<string, Row>, s: Settings, first: RowOrder, second: RowOrder, now: int,
                              sqrt: real -> real)
    requires Enumerates(first) && Enumerates(second) && IsSqrt(sqrt)
    ensures var r := Load(rows, [], Some(s), first, second, now, sqrt);
      Names(Active(r.view)) == r.loaded && NoDuplicates(r.loaded)
  {
    hide Load, RedundantRows, RetiredBy, Enumerates;
    var rows1 := Deduplicated(rows, s, first, now, sqrt);
    LoadFromEmpty(rows, s, first, second, now, sqrt);
    var names := LoadableNames(rows1, second);
    var retired := RetiredBy(AgentsOf(rows1, names), PolicyAt(s, now));
    ActiveNamesAfter(rows1, names, retired);
    FilterNames(names, NotIn(retired));
  }

  /** They are also the rows left active in the table, except for rows that did not convert. */
  lemma ReturnedAreStored(rows: map<string, Row>, s: Settings, first: RowOrder, second: RowOrder, now: int,
                          sqrt: real -> real)
    requires Enumerates(first) && Enumerates(second) && IsSqrt(sqrt)
    ensures var r := Load(rows, [], Some(s), first, second, now, sqrt);
      && (forall n :: n in ActiveNames(r.rows) <==> n in r.loaded || Unloadable(r.rows, n))
      && (forall n :: n in r.loaded ==> !Unloadable(r.rows, n))
  {
    hide Load, RedundantRows, RetiredBy, Enumerates;
    var rows1 := Deduplicated(rows, s, first, now, sqrt);
    LoadFromEmpty(rows, s, first, second, now, sqrt);
    var names := LoadableNames(rows1, second);
    var view1 := AgentsOf(rows1, names);
    var retired := RetiredBy(view1, PolicyAt(s, now));
    FilterMembers(names, NotIn(retired));
    RetiredExactly(view1, PolicyAt(s, now));
    forall n | n in retired ensures n in names {
      var k :| 0 <= k < |view1| && view1[k].name == n;
      assert names[k] in names;
    }
  }

  /** Row `n` is active, does not convert, and will not be retired as redundant. */
  ghost predicate Stuck(rows: map<string, Row>, s: Settings, first: RowOrder, sqrt: real -> real, n: string)
    requires Enumerates(first) && IsSqrt(sqrt)
  {
    Unloadable(rows, n) && n !in RedundantRows(rows, s.threshold, first, sqrt)
  }

  lemma StuckRows(rows: map<string, Row>, s: Settings, first: RowOrder, second: RowOrder, now: int,
                  sqrt: real -> real, n: string)
    requires Enumerates(first) && Enumerates(second) && IsSqrt(sqrt)
    ensures Unloadable(Load(rows, [], Some(s), first, second, now, sqrt).rows, n) <==> Stuck(rows, s, first, sqrt, n)
  {
    hide Load, RedundantRows, RetiredBy, Enumerates;
    var rows1 := Deduplicated(rows, s, first, now, sqrt);
    LoadFromEmpty(rows, s, first, second, now, sqrt);
    var names := LoadableNames(rows1, second);
    var view1 := AgentsOf(rows1, names);
    var retired := RetiredBy(view1, PolicyAt(s, now));
    RetiredExactly(view1, PolicyAt(s, now));
    if n in retired {
      var k :| 0 <= k < |view1| && view1[k].name == n;
      assert names[k] in names;
    }
  }

  /** So table and registry agree exactly when no active row that is not redundant fails to convert. */
  lemma LoadAgrees(rows: map<string, Row>, s: Settings, first: RowOrder, second: RowOrder, now: int, sqrt: real -> real)
    requires Enumerates(first) && Enumerates(second) && IsSqrt(sqrt)
    ensures var r := Load(rows, [], Some(s), first, second, now, sqrt);
      ActiveNames(r.rows) == AsSet(Names(Active(r.view))) <==> (forall n :: !Stuck(rows, s, first, sqrt, n))
  {
    hide Load, RetireRows, Convertible, Stuck;
    var r := Load(rows, [], Some(s), first, second, now, sqrt);
    ReturnedAreRegistered(rows, s, first, second, now, sqrt);
    ReturnedAreStored(rows, s, first, second, now, sqrt);
    forall n ensures Unloadable(r.rows, n) <==> Stuck(rows, s, first, sqrt, n) {
      StuckRows(rows, s, first, second, now, sqrt, n);
    }
    if forall n :: !Unloadable(r.rows, n) {
      assert ActiveNames(r.rows) == AsSet(r.loaded);
    } else {
      var n :| Unloadable(r.rows, n);
      assert n in ActiveNames(r.rows) && n !in AsSet(r.loaded);
    }
  }

  /** In particular when every active row converts. */
  lemma ConvertibleRowsAgree(rows: map<string, Row>, s: Settings, first: RowOrder, second: RowOrder, now: int,
                             sqrt: real -> real)
    requires Enumerates(first) && Enumerates(second) && IsSqrt(sqrt)
    requires forall n :: n in rows && rows[n].active ==> Convertible(rows[n])
    ensures var r := Load(rows, [], Some(s), first, second, now, sqrt);
      ActiveNames(r.rows) == AsSet(Names(Active(r.view)))
  {
    hide Load;
    LoadAgrees(rows, s, first, second, now, sqrt);
  }

  lemma NoVectorsNoRedundancy(rows: map<string, Row>, threshold: real, order: RowOrder, sqrt: real -> real)
    requires Enumerates(order) && IsSqrt(sqrt) && forall n :: n in rows ==> rows[n].embedding.None?
    ensures RedundantRows(rows, threshold, order, sqrt) == {}
  {
    var names := order(ActiveNames(rows));
    assert forall i :: 0 <= i < |names| ==> names[i] in names;
    DissimilarRowsStay(CapabilityRows(rows, names), threshold, sqrt);
  }

  lemma NothingLoadable(rows: map<string, Row>, order: RowOrder)
    requires Enumerates(order) && forall n :: n in rows ==> !Convertible(rows[n])
    ensures LoadableNames(rows, order) == []
  {
    NothingIn(LoadableNames(rows, order));
  }

  /** Rows of which none converts stay active in the table, and none of them is loaded. */
  lemma NoneConverts(rows: map<string, Row>, s: Settings, first: RowOrder, second: RowOrder, now: int,
                     sqrt: real -> real)
    requires Enumerates(first) && Enumerates(second) && IsSqrt(sqrt)
    requires forall n :: n in rows ==> rows[n].embedding.None? && !Convertible(rows[n])
    ensures Load(rows, [], Some(s), first, second, now, sqrt) == LoadResult(rows, [], [])
  {
    hide Load, RedundantRows, Enumerates, LoadableNames, Convertible, RetiredBy, Filter;
    NoVectorsNoRedundancy(rows, s.threshold, first, sqrt);
    RetireNobody(rows, now);
    assert AsSet([]) == {};
    NothingLoadable(rows, second);
    LoadFromEmpty(rows, s, first, second, now, sqrt);
    NobodyToRetire(PolicyAt(s, now));
    FilterAll([], NotIn([]));
    assert AgentsOf(rows, []) == [] && Deactivate([], []) == [];
  }

  lemma NobodyToRetire(p: Policy)
    ensures RetiredBy([], p) == []
  {
    WithinCap([], p);
  }

  /** A stored agent of unknown tier: active in the table after every load, and never in the registry. */
  lemma UnknownTierDisagrees(s: Settings, first: RowOrder, second: RowOrder, now: int, sqrt: real -> real)
    requires Enumerates(first) && Enumerates(second) && IsSqrt(sqrt)
    ensures var rows := map["a" := Row("unknown", None, 1.0, 1, 0.5, now, true)];
      var r := Load(rows, [], Some(s), first, second, now, sqrt);
      ActiveNames(r.rows) == {"a"} && Names(Active(r.view)) == [] && r.loaded == []
  {
    hide Load, Enumerates;
    NoneConverts(map["a" := Row("unknown", None, 1.0, 1, 0.5, now, true)], s, first, second, now, sqrt);
  }

  /** At most the configured number of agents is loaded. */
  lemma LoadWithinCap(rows: map<string, Row>, s: Settings, first: RowOrder, second: RowOrder, now: int,
                      sqrt: real -> real)
    requires Enumerates(first) && Enumerates(second) && IsSqrt(sqrt)
    ensures var r := Load(rows, [], Some(s), first, second, now, sqrt);
      && (|r.loaded| <= s.maxActive || r.loaded == [])
      && (forall a :: a in Active(r.view) ==> !Unhealthy(a, PolicyAt(s, now)))
  {
    hide Load, RedundantRows, RetiredBy, Enumerates;
    var rows1 := Deduplicated(rows, s, first, now, sqrt);
    LoadFromEmpty(rows, s, first, second, now, sqrt);
    ReturnedAreRegistered(rows, s, first, second, now, sqrt);
    SurvivorCount(AgentsOf(rows1, LoadableNames(rows1, second)), PolicyAt(s, now));
    SurvivorsHealthy(AgentsOf(rows1, LoadableNames(rows1, second)), PolicyAt(s, now));
  }

  /** No two rows left active are similar, in whatever order they are fetched. */
  lemma LeftDissimilar(rows: map<string, Row>, s: Settings, first: RowOrder, second: RowOrder, again: RowOrder,
                       now: int, sqrt: real -> real)
    requires Enumerates(first) && Enumerates(second) && Enumerates(again) && IsSqrt(sqrt)
    ensures var r := Load(rows, [], Some(s), first, second, now, sqrt);
      RedundantRows(r.rows, s.threshold, again, sqrt) == {}
  {
    var r := Load(rows, [], Some(s), first, second, now, sqrt);
    var old1 := CapabilityRows(rows, first(ActiveNames(rows)));
    var new1 := CapabilityRows(r.rows, again(ActiveNames(r.rows)));
    RedundancyGuarantees(old1, s.threshold, sqrt);
    forall i, j | 0 <= i < j < |new1| ensures !Similar(new1[i], new1[j], s.threshold, sqrt) {
      var a := PlaceBefore(rows, s, first, second, now, sqrt, again(ActiveNames(r.rows))[i]);
      var b := PlaceBefore(rows, s, first, second, now, sqrt, again(ActiveNames(r.rows))[j]);
      assert old1[a] == new1[i] && old1[b] == new1[j] && a != b;
      SimilarSymmetric(new1[i], new1[j], s.threshold, sqrt);
      var low, high := if a < b then a else b, if a < b then b else a;
      assert Settled(old1, RedundantIn(old1, s.threshold, sqrt), low, high, s.threshold, sqrt);
    }
    DissimilarRowsStay(new1, s.threshold, sqrt);
  }

  /** A row active after the load was fetched before it, with the same data, and was not redundant. */
  lemma PlaceBefore(rows: map<string, Row>, s: Settings, first: RowOrder, second: RowOrder, now: int,
                    sqrt: real -> real, n: string)
    returns (a: nat)
    requires Enumerates(first) && Enumerates(second) && IsSqrt(sqrt)
    requires n in ActiveNames(Load(rows, [], Some(s), first, second, now, sqrt).rows)
    ensures n in rows && rows[n] == Load(rows, [], Some(s), first, second, now, sqrt).rows[n]
    ensures a < |first(ActiveNames(rows))| && first(ActiveNames(rows))[a] == n
    ensures n !in RedundantRows(rows, s.threshold, first, sqrt)
  {
    assert n in ActiveNames(rows);
    assert n in first(ActiveNames(rows));
    a :| 0 <= a < |first(ActiveNames(rows))| && first(ActiveNames(rows))[a] == n;
  }

  /** A second load into a fresh registry, in any fetch order, changes no row and returns the same names. */
  lemma SecondLoadChangesNothing(rows: map<string, Row>, s: Settings, first: RowOrder, second: RowOrder,
                                 third: RowOrder, fourth: RowOrder, now: int, sqrt: real -> real)
    requires Enumerates(first) && Enumerates(second) && Enumerates(third) && Enumerates(fourth) && IsSqrt(sqrt)
    ensures var r := Load(rows, [], Some(s), first, second, now, sqrt);
      var r2 := Load(r.rows, [], Some(s), third, fourth, now, sqrt);
      r2.rows == r.rows && AsSet(r2.loaded) == AsSet(r.loaded)
  {
    hide Load, Enumerates, RedundantRows, RetiredBy, AgentsOf, Deactivate, Filter;
    var r := Load(rows, [], Some(s), first, second, now, sqrt);
    var names := LoadableNames(r.rows, fourth);
    LeftDissimilar(rows, s, first, second, third, now, sqrt);
    RetireNobody(r.rows, now);
    assert AsSet([]) == {};
    assert Deduplicated(r.rows, s, third, now, sqrt) == r.rows;
    SecondViewHealthy(rows, s, first, second, fourth, now, sqrt);
    LoadFromEmpty(r.rows, s, third, fourth, now, sqrt);
    FilterAll(names, NotIn([]));
  }

  /** The agents a second load registers are those the first one kept, so its caps retire nobody. */
  lemma SecondViewHealthy(rows: map<string, Row>, s: Settings, first: RowOrder, second: RowOrder, fourth: RowOrder,
                          now: int, sqrt: real -> real)
    requires Enumerates(first) && Enumerates(second) && Enumerates(fourth) && IsSqrt(sqrt)
    ensures var r := Load(rows, [], Some(s), first, second, now, sqrt);
      var names := LoadableNames(r.rows, fourth);
      AsSet(names) == AsSet(r.loaded) && RetiredBy(AgentsOf(r.rows, names), PolicyAt(s, now)) == []
  {
    hide Load, Enumerates, RetiredBy, Unhealthy, Filter;
    var r := Load(rows, [], Some(s), first, second, now, sqrt);
    var names := LoadableNames(r.rows, fourth);
    var v := AgentsOf(r.rows, names);
    ReturnedAreStored(rows, s, first, second, now, sqrt);
    ReturnedAreRegistered(rows, s, first, second, now, sqrt);
    LoadWithinCap(rows, s, first, second, now, sqrt);
    LoadableDistinct(r.rows, fourth);
    SameSize(names, r.loaded);
    forall a | a in Active(v) ensures !Unhealthy(a, PolicyAt(s, now)) {
      var k := ActiveName(r.rows, names, a);
      KeptAgent(rows, s, first, second, now, sqrt, names[k]);
    }
    ActiveSize(v);
    WithinCap(v, PolicyAt(s, now));
  }

  lemma ActiveName(rows: map<string, Row>, names: seq<string>, a: Agent) returns (k: nat)
    requires (forall n :: n in names ==> n in rows) && a in Active(AgentsOf(rows, names))
    ensures k < |names| && names[k] in names && names[k] in rows && a == ToAgent(names[k], rows[names[k]])
  {
    var v := AgentsOf(rows, names);
    FilterMembers(v, (b: Agent) => b.active);
    k :| 0 <= k < |v| && v[k] == a;
  }

  lemma ActiveSize(v: seq<Agent>)
    ensures |Active(v)| <= |v|
  {
    FilterMembers(v, (a: Agent) => a.active);
  }

  /** A returned name stands for an active registry entry that carries its stored row's data. */
  lemma KeptAgent(rows: map<string, Row>, s: Settings, first: RowOrder, second: RowOrder, now: int,
                  sqrt: real -> real, n: string)
    requires Enumerates(first) && Enumerates(second) && IsSqrt(sqrt)
    requires n in Load(rows, [], Some(s), first, second, now, sqrt).loaded
    ensures var r := Load(rows, [], Some(s), first, second, now, sqrt);
      n in r.rows && ToAgent(n, r.rows[n]) in Active(r.view)
  {
    var r := Load(rows, [], Some(s), first, second, now, sqrt);
    hide Load, RedundantRows, RetiredBy, Enumerates;
    var rows1 := Deduplicated(rows, s, first, now, sqrt);
    LoadFromEmpty(rows, s, first, second, now, sqrt);
    var names := LoadableNames(rows1, second);
    var view1 := AgentsOf(rows1, names);
    var retired := RetiredBy(view1, PolicyAt(s, now));
    FilterMembers(names, NotIn(retired));
    StillActive(rows1, names, retired, now, n);
  }

  lemma StillActive(rows: map<string, Row>, names: seq<string>, retired: seq<string>, now: int, n: string)
    requires forall m :: m in names ==> m in rows && rows[m].active
    requires n in names && n !in retired
    ensures var later := RetireRows(rows, AsSet(retired), now);
      n in later && ToAgent(n, later[n]) in Active(Deactivate(AgentsOf(rows, names), retired))
  {
    var view := Deactivate(AgentsOf(rows, names), retired);
    FilterMembers(view, (a: Agent) => a.active);
    var k :| 0 <= k < |names| && names[k] == n;
    assert view[k] == ToAgent(n, rows[n]);
  }

  lemma SameSize(s: seq<string>, t: seq<string>)
    requires NoDuplicates(s) && NoDuplicates(t) && forall n :: n in s <==> n in t
    ensures |s| == |t|
  {
    DistinctSize(s);
    DistinctSize(t);
    assert AsSet(s) == AsSet(t);
  }

  lemma {:induction false} DistinctSize(s: seq<string>)
    requires NoDuplicates(s)
    ensures |AsSet(s)| == |s|
  {
    if s != [] {
      var n := |s| - 1;
      DistinctSize(s[..n]);
      assert s == s[..n] + [s[n]];
      assert AsSet(s) == AsSet(s[..n]) + {s[n]};
    }
  }

  // ---------- Any number of loads ----------

  /** One load: what the registry held, the settings, the two fetch orders, the time. */
  datatype LoadCall = LoadCall(view: seq<Agent>, settings: Option<Settings>, first: RowOrder, second: RowOrder,
                               now: int)

  ghost predicate ValidCalls(calls: seq<LoadCall>)
  {
    forall i :: 0 <= i < |calls| ==> Enumerates(calls[i].first) && Enumerates(calls[i].second)
  }

  ghost function AfterLoads(rows: map<string, Row>, calls: seq<LoadCall>, sqrt: real -> real): map<string, Row>
    requires ValidCalls(calls) && IsSqrt(sqrt)
  {
    if calls == [] then rows else
    var before := AfterLoads(rows, calls[..|calls| - 1], sqrt);
    var c := calls[|calls| - 1];
    Load(before, c.view, c.settings, c.first, c.second, c.now, sqrt).rows
  }

  /** No row is added or deleted, no agent comes back, and a row still active is as it was. */
  ghost predicate OnlyRetires(rows: map<string, Row>, later: map<string, Row>)
  {
    && later.Keys == rows.Keys
    && forall n :: n in rows && later[n].active ==> later[n] == rows[n]
  }

  lemma RetireOnlyRetires(rows: map<string, Row>, names: set<string>, now: int)
    ensures OnlyRetires(rows, RetireRows(rows, names, now))
  {
  }

  /** Over any run of loads, whatever the registries, settings, fetch orders and times. */
  lemma {:induction false} LoadsOnlyRetire(rows: map<string, Row>, calls: seq<LoadCall>, sqrt: real -> real)
    requires ValidCalls(calls) && IsSqrt(sqrt)
    ensures OnlyRetires(rows, AfterLoads(rows, calls, sqrt))
  {
    hide RetireRows, RedundantRows, RetiredBy, PutAll, LoadableNames;
    if calls != [] {
      var n := |calls| - 1;
      var c := calls[n];
      LoadsOnlyRetire(rows, calls[..n], sqrt);
      var before := AfterLoads(rows, calls[..n], sqrt);
      if c.settings.Some? {
        var s := c.settings.value;
        var deduplicated := Deduplicated(before, s, c.first, c.now, sqrt);
        var view := PutAll(c.view, AgentsOf(deduplicated, LoadableNames(deduplicated, c.second)));
        RetireOnlyRetires(before, RedundantRows(before, s.threshold, c.first, sqrt), c.now);
        RetireOnlyRetires(deduplicated, AsSet(RetiredBy(view, PolicyAt(s, c.now))), c.now);
      }
    }
  }

  // ---------- What the settings mean for a load ----------

  /** The stored metrics meet a retirement trigger of the settings. */
  ghost predicate RowTriggered(totalRuns: int, successRate: real, updatedAt: int, s: Settings, now: int)
  {
    || (s.minRuns <= totalRuns && successRate < s.successFloor)
    || (0 < s.recencyDays && updatedAt < now - s.recencyDays * (24 * 60 * 60 * 1_000_000))
  }

  lemma RowTriggers(name: string, row: Row, s: Settings, now: int)
    ensures AgentTriggered(ToAgent(name, row), PolicyAt(s, now))
      <==> RowTriggered(row.totalRuns, row.successRate, row.updatedAt, s, now)
  {
  }

  /** The row would be loaded but for the cap: active, convertible, not redundant, and meeting no trigger. */
  ghost predicate Eligible(rows: map<string, Row>, s: Settings, first: RowOrder, now: int, sqrt: real -> real,
                           n: string)
    requires Enumerates(first) && IsSqrt(sqrt)
  {
    && n in rows && rows[n].active && Convertible(rows[n]) && n !in RedundantRows(rows, s.threshold, first, sqrt)
    && !RowTriggered(rows[n].totalRuns, rows[n].successRate, rows[n].updatedAt, s, now)
  }

  ghost function EligibleRows(rows: map<string, Row>, s: Settings, first: RowOrder, now: int,
                              sqrt: real -> real): set<string>
    requires Enumerates(first) && IsSqrt(sqrt)
  {
    set n | n in rows && Eligible(rows, s, first, now, sqrt, n)
  }

  lemma LoadableAre(rows: map<string, Row>, s: Settings, first: RowOrder, second: RowOrder, now: int,
                    sqrt: real -> real, n: string)
    requires Enumerates(first) && Enumerates(second) && IsSqrt(sqrt)
    ensures var rows1 := Deduplicated(rows, s, first, now, sqrt);
      n in LoadableNames(rows1, second)
      <==> n in rows && rows[n].active && Convertible(rows[n]) && n !in RedundantRows(rows, s.threshold, first, sqrt)
    ensures n in LoadableNames(Deduplicated(rows, s, first, now, sqrt), second) ==>
      Deduplicated(rows, s, first, now, sqrt)[n] == rows[n]
  {
    hide RedundantRows, Enumerates, Convertible;
    var redundant := RedundantRows(rows, s.threshold, first, sqrt);
    var rows1 := RetireRows(rows, redundant, now);
    if n in rows && n in redundant {
      assert !rows1[n].active;
    }
  }

  /** Only eligible rows are loaded; all of them are, when the cap has room for them. */
  lemma LoadsEligible(rows: map<string, Row>, s: Settings, first: RowOrder, second: RowOrder, now: int,
                      sqrt: real -> real)
    requires Enumerates(first) && Enumerates(second) && IsSqrt(sqrt)
    ensures var r := Load(rows, [], Some(s), first, second, now, sqrt);
      && (forall n :: n in r.loaded ==> Eligible(rows, s, first, now, sqrt, n))
      && (|EligibleRows(rows, s, first, now, sqrt)| <= s.maxActive ==>
            forall n :: Eligible(rows, s, first, now, sqrt, n) ==> n in r.loaded)
  {
    hide Load, RedundantRows, RetiredBy, Enumerates, Eligible, EligibleRows, Convertible, RetireRows, LoadableNames;
    hide Deactivate, RowTriggered, AgentTriggered, AgentsOf;
    var rows1 := Deduplicated(rows, s, first, now, sqrt);
    LoadFromEmpty(rows, s, first, second, now, sqrt);
    var names := LoadableNames(rows1, second);
    var view1 := AgentsOf(rows1, names);
    var retired := RetiredBy(view1, PolicyAt(s, now));
    FilterMembers(names, NotIn(retired));
    forall n | n in names
      ensures Eligible(rows, s, first, now, sqrt, n) || n in retired
      ensures Eligible(rows, s, first, now, sqrt, n) && |EligibleRows(rows, s, first, now, sqrt)| <= s.maxActive
        ==> n !in retired
    {
      LoadableFate(rows, s, first, second, now, sqrt, n);
    }
    forall n | Eligible(rows, s, first, now, sqrt, n) ensures n in names {
      EligibleIsLoadable(rows, s, first, second, now, sqrt, n);
    }
  }

  lemma EligibleIsLoadable(rows: map<string, Row>, s: Settings, first: RowOrder, second: RowOrder, now: int,
                           sqrt: real -> real, n: string)
    requires Enumerates(first) && Enumerates(second) && IsSqrt(sqrt) && Eligible(rows, s, first, now, sqrt, n)
    ensures n in LoadableNames(Deduplicated(rows, s, first, now, sqrt), second)
  {
    hide RedundantRows, Enumerates, Convertible, LoadableNames, RetireRows, RowTriggered;
    LoadableAre(rows, s, first, second, now, sqrt, n);
  }

  lemma LoadableFate(rows: map<string, Row>, s: Settings, first: RowOrder, second: RowOrder, now: int,
                     sqrt: real -> real, n: string)
    requires Enumerates(first) && Enumerates(second) && IsSqrt(sqrt)
    requires n in LoadableNames(Deduplicated(rows, s, first, now, sqrt), second)
    ensures var rows1 := Deduplicated(rows, s, first, now, sqrt);
      var retired := RetiredBy(AgentsOf(rows1, LoadableNames(rows1, second)), PolicyAt(s, now));
      && (Eligible(rows, s, first, now, sqrt, n) || n in retired)
      && (|EligibleRows(rows, s, first, now, sqrt)| <= s.maxActive && Eligible(rows, s, first, now, sqrt, n) ==>
            n !in retired)
  {
    hide RedundantRows, RetiredBy, Enumerates, Convertible, RetireRows, LoadableNames, RowTriggered, AgentTriggered;
    hide Deduplicated, PolicyAt;
    var rows1 := Deduplicated(rows, s, first, now, sqrt);
    var names := LoadableNames(rows1, second);
    var v := AgentsOf(rows1, names);
    var p := PolicyAt(s, now);
    LoadedView(rows1, second);
    LoadableAre(rows, s, first, second, now, sqrt, n);
    RowTriggers(n, rows[n], s, now);
    var k :| 0 <= k < |names| && names[k] == n;
    assert v[k] == ToAgent(n, rows[n]) && v[k].active;
    TakesAll(v, p, k);
    if Eligible(rows, s, first, now, sqrt, n) && |EligibleRows(rows, s, first, now, sqrt)| <= s.maxActive {
      SoundFit(rows, s, first, second, now, sqrt);
      CapOf(s, now);
      SparedWithinCap(v, p, k);
    }
  }

  lemma CapOf(s: Settings, now: int)
    ensures PolicyAt(s, now).maxActive == s.maxActive
  {
  }

  lemma TakesAll(v: seq<Agent>, p: Policy, k: nat)
    requires DistinctNames(v) && k < |v| && v[k].active
    ensures AgentTriggered(v[k], p) ==> v[k].name in RetiredBy(v, p)
  {
    hide AgentTriggered;
    FirstPassExactly(v, p);
  }

  /** The loaded agents that meet no trigger are eligible rows. */
  lemma SoundFit(rows: map<string, Row>, s: Settings, first: RowOrder, second: RowOrder, now: int, sqrt: real -> real)
    requires Enumerates(first) && Enumerates(second) && IsSqrt(sqrt)
    ensures var rows1 := Deduplicated(rows, s, first, now, sqrt);
      var v := AgentsOf(rows1, LoadableNames(rows1, second));
      |Filter(v, SoundIn(PolicyAt(s, now)))| <= |EligibleRows(rows, s, first, now, sqrt)|
  {
    hide RedundantRows, Enumerates, Convertible, RetireRows, LoadableNames, RowTriggered, AgentTriggered;
    hide Deduplicated, PolicyAt;
    var rows1 := Deduplicated(rows, s, first, now, sqrt);
    var names := LoadableNames(rows1, second);
    var v := AgentsOf(rows1, names);
    var sound := Filter(v, SoundIn(PolicyAt(s, now)));
    LoadedView(rows1, second);
    FilterDistinct(v, SoundIn(PolicyAt(s, now)));
    FilterMembers(v, SoundIn(PolicyAt(s, now)));
    NameSetSize(sound);
    forall n | n in NameSet(sound) ensures n in EligibleRows(rows, s, first, now, sqrt) {
      var a :| a in sound && a.name == n;
      var k :| 0 <= k < |v| && v[k] == a;
      assert names[k] in names;
      LoadableAre(rows, s, first, second, now, sqrt, n);
      RowTriggers(n, rows[n], s, now);
    }
    Subset(NameSet(sound), EligibleRows(rows, s, first, now, sqrt));
  }

  /** Without settings nobody is retired: the table stays, and the active rows that convert are loaded. */
  lemma LoadWithoutSettings(rows: map<string, Row>, view: seq<Agent>, first: RowOrder, second: RowOrder, now: int,
                            sqrt: real -> real)
    requires Enumerates(first) && Enumerates(second) && IsSqrt(sqrt)
    ensures var r := Load(rows, view, None, first, second, now, sqrt);
      && r.rows == rows && NoDuplicates(r.loaded)
      && (forall n :: n in r.loaded <==> n in rows && rows[n].active && Convertible(rows[n]))
  {
    LoadableDistinct(rows, second);
  }
}
