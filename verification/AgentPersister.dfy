/** The database side of sub-agent retirement and loading, `src/agents/persister.py`. */
module AgentPersister {
  import opened Lists
  import opened Options
  import opened Order
  import opened Cosine
  import opened AgentRegistry
  import opened Redundancy

  const TIERS := {"trivial", "simple", "complex", "critical"}

  /** One row of the sub-agent table; its name is the unique key. */
  datatype Row = Row(tier: string, embedding: Option<seq<real>>, successRate: real, totalRuns: int, quality: real,
                     updatedAt: int, active: bool)

  /** The score tuple of a row; a zero quality counts as one half. */
  function ScoreOf(row: Row): Score
  {
    Score(row.successRate, row.totalRuns, if row.quality == 0.0 then 0.5 else row.quality)
  }

  /** The row converts to a spec: a known tier, and a quality the spec's validator accepts. */
  predicate Convertible(row: Row)
  {
    row.tier in TIERS && 0.0 <= row.quality <= 1.0
  }

  function ToAgent(name: string, row: Row): Agent
  {
    Agent(name, ScoreOf(row), Some(row.updatedAt), row.active)
  }

  ghost predicate VectorsFit(rows: map<string, Row>)
  {
    forall n :: n in rows && rows[n].embedding.Some? ==> |rows[n].embedding.value| == DIMENSION
  }

  function ActiveNames(rows: map<string, Row>): set<string>
  {
    set n | n in rows && rows[n].active
  }

  function RetireRows(rows: map<string, Row>, names: set<string>, now: int): (r: map<string, Row>)
    ensures r.Keys == rows.Keys
    ensures forall n :: n in rows && n in names ==> r[n] == rows[n].(active := false, updatedAt := now)
    ensures forall n :: n in rows && n !in names ==> r[n] == rows[n]
  {
    map n | n in rows :: if n in names then rows[n].(active := false, updatedAt := now) else rows[n]
  }

  /** The order in which one query happens to return the selected rows. */
  type RowOrder = set<string> -> seq<string>

  ghost predicate Enumerates(order: RowOrder)
  {
    forall s :: (forall n :: n in order(s) <==> n in s)
             && (forall i, j :: 0 <= i < j < |order(s)| ==> order(s)[i] != order(s)[j])
  }

  function CapabilityRows(rows: map<string, Row>, names: seq<string>): (r: seq<Capability>)
    requires forall n :: n in names ==> n in rows
    ensures |r| == |names|
    ensures forall i :: 0 <= i < |names| ==>
      names[i] in rows && r[i] == Capability(names[i], rows[names[i]].embedding, ScoreOf(rows[names[i]]))
  {
    seq(|names|, i requires 0 <= i < |names| && names[i] in rows =>
      Capability(names[i], rows[names[i]].embedding, ScoreOf(rows[names[i]])))
  }

  function AgentsOf(rows: map<string, Row>, names: seq<string>): (r: seq<Agent>)
    requires forall n :: n in names ==> n in rows
    ensures |r| == |names|
    ensures forall i :: 0 <= i < |names| ==> names[i] in rows && r[i] == ToAgent(names[i], rows[names[i]])
  {
    seq(|names|, i requires 0 <= i < |names| && names[i] in rows => ToAgent(names[i], rows[names[i]]))
  }

  datatype Settings = Settings(threshold: real, maxActive: int, minRuns: int, successFloor: real, recencyDays: int)

  function PolicyAt(s: Settings, now: int): Policy
  {
    Policy(s.maxActive, s.minRuns, s.successFloor, s.recencyDays, now)
  }

  // ---------- Specification of the load ----------

  function PutAll(v: seq<Agent>, agents: seq<Agent>): seq<Agent>
  {
    if agents == [] then v else Put(PutAll(v, agents[..|agents| - 1]), agents[|agents| - 1])
  }

  function RedundantRows(rows: map<string, Row>, threshold: real, order: RowOrder, sqrt: real -> real): set<string>
    requires Enumerates(order) && IsSqrt(sqrt)
  {
    RedundantIn(CapabilityRows(rows, order(ActiveNames(rows))), threshold, sqrt)
  }

  function ConvertibleIn(rows: map<string, Row>): string -> bool
  {
    n => n in rows && Convertible(rows[n])
  }

  /** The active rows that convert, in query order. */
  function LoadableNames(rows: map<string, Row>, order: RowOrder): (r: seq<string>)
    requires Enumerates(order)
    ensures forall n :: n in r <==> n in rows && rows[n].active && Convertible(rows[n])
  {
    FilterMembers(order(ActiveNames(rows)), ConvertibleIn(rows));
    Filter(order(ActiveNames(rows)), ConvertibleIn(rows))
  }

  function NotIn(names: seq<string>): string -> bool
  {
    n => n !in names
  }

  function AsSet(names: seq<string>): set<string>
  {
    set n | n in names
  }

  /** Ascending and without duplicates. */
  ghost predicate StrictlyAscending(names: seq<string>)
  {
    forall i, j :: 0 <= i < j < |names| ==> StringLe(names[i], names[j]) && names[i] != names[j]
  }

  predicate Least(s: set<string>, m: string)
  {
    m in s && forall x :: x in s ==> StringLe(m, x)
  }

  lemma {:induction false} LeastName(s: set<string>) returns (m: string)
    requires s != {}
    ensures Least(s, m)
  {
    hide StringLe;
    var y :| y in s;
    var rest := s - {y};
    StringTotal(y, y);
    if rest == {} {
      assert s == {y};
      m := y;
    } else {
      var k := LeastName(rest);
      StringTotal(k, y);
      m := if StringLe(k, y) then k else y;
      forall x | x in s ensures StringLe(m, x) {
        if x != y && m == y {
          StringTransitive(y, k, x);
        }
      }
    }
  }

  lemma LeastNameExists(s: set<string>)
    requires s != {}
    ensures exists m :: Least(s, m)
    ensures forall m, k :: Least(s, m) && Least(s, k) ==> m == k
  {
    var least := LeastName(s);
    forall m, k | Least(s, m) && Least(s, k) ensures m == k {
      StringTotal(m, k);
    }
  }

  /** The names of a set in ascending order. */
  function SortedNames(s: set<string>): seq<string>
  {
    if s == {} then [] else
    LeastNameExists(s);
    var m :| Least(s, m);
    [m] + SortedNames(s - {m})
  }

  /** The least name first, and the others after it. */
  lemma SortedNamesStep(s: set<string>) returns (m: string)
    requires s != {}
    ensures Least(s, m) && SortedNames(s) == [m] + SortedNames(s - {m})
  {
    LeastNameExists(s);
    m :| Least(s, m);
  }

  lemma {:induction false} SortedNamesFacts(s: set<string>)
    ensures AsSet(SortedNames(s)) == s && StrictlyAscending(SortedNames(s))
  {
    hide StringLe;
    if s != {} {
      var m := SortedNamesStep(s);
      var rest := SortedNames(s - {m});
      SortedNamesFacts(s - {m});
      var all := [m] + rest;
      forall i, j | 0 <= i < j < |all| ensures StringLe(all[i], all[j]) && all[i] != all[j] {
        assert all[j] == rest[j - 1] && rest[j - 1] in AsSet(rest);
        assert i > 0 ==> all[i] == rest[i - 1];
      }
      forall n ensures n in all <==> n in s {
        assert n in all <==> n == m || n in rest;
        assert n in rest <==> n in AsSet(rest);
      }
    }
  }

  /** Table, registry contents and returned names after a load. */
  datatype LoadResult = LoadResult(rows: map<string, Row>, view: seq<Agent>, loaded: seq<string>)

  function Load(rows: map<string, Row>, view: seq<Agent>, settings: Option<Settings>,
                first: RowOrder, second: RowOrder, now: int, sqrt: real -> real): LoadResult
    requires Enumerates(first) && Enumerates(second) && IsSqrt(sqrt)
  {
    var rows1 := if settings.None? then rows
                 else RetireRows(rows, RedundantRows(rows, settings.value.threshold, first, sqrt), now);
    var names := LoadableNames(rows1, second);
    var view1 := PutAll(view, AgentsOf(rows1, names));
    if settings.None? then LoadResult(rows1, view1, names) else
    var retired := RetiredBy(view1, PolicyAt(settings.value, now));
    LoadResult(RetireRows(rows1, AsSet(retired), now), Deactivate(view1, retired), Filter(names, NotIn(retired)))
  }

  // ---------- The table object and the load protocol ----------

  class AgentTable {
    var rows: map<string, Row>

    ghost predicate Valid()
      reads this
    {
      VectorsFit(rows)
    }

    /** Marks the named rows inactive, stamped with the time of the update. */
    method Retire(names: seq<string>, now: int) returns (count: nat)
      requires Valid()
      modifies this
      ensures Valid() && count == |names| && rows.Keys == old(rows).Keys
      ensures forall n :: n in rows && n in names ==> rows[n] == old(rows)[n].(active := false, updatedAt := now)
      ensures forall n :: n in rows && n !in names ==> rows[n] == old(rows)[n]
      ensures rows == RetireRows(old(rows), AsSet(names), now)
    {
      if names == [] {
        RetireNobody(rows, now);
        return 0;
      }
      rows := RetireRows(rows, AsSet(names), now);
      return |names|;
    }

    method RetireRedundant(threshold: real, order: RowOrder, now: int, sqrt: real -> real) returns (names: seq<string>)
      requires Valid() && Enumerates(order) && IsSqrt(sqrt)
      modifies this
      ensures Valid()
      ensures AsSet(names) == RedundantRows(old(rows), threshold, order, sqrt) && StrictlyAscending(names)
      ensures rows == RetireRows(old(rows), RedundantRows(old(rows), threshold, order, sqrt), now)
    {
      var retired := RetireRedundantScan(CapabilityRows(rows, order(ActiveNames(rows))), threshold, sqrt);
      names := SortedNames(retired);
      SortedNamesFacts(retired);
      if retired != {} {
        var _ := Retire(names, now);
      } else {
        assert RetireRows(rows, {}, now) == rows;
      }
    }
  }

  method LoadActiveAgents(table: AgentTable, registry: SubAgentRegistry, settings: Option<Settings>,
                          first: RowOrder, second: RowOrder, now: int, sqrt: real -> real)
    returns (loaded: seq<string>)
    requires table.Valid() && registry.Valid()
    requires Enumerates(first) && Enumerates(second) && IsSqrt(sqrt)
    modifies table, registry, registry.Specs()
    ensures table.Valid() && registry.Valid()
    ensures LoadResult(table.rows, registry.View(), loaded)
         == Load(old(table.rows), old(registry.View()), settings, first, second, now, sqrt)
  {
    hide PutAll, Filter, RetiredBy, RedundantRows, LoadableNames, AgentsOf, RetireRows, Deactivate, VectorsFit;
    if settings.Some? {
      var _ := table.RetireRedundant(settings.value.threshold, first, now, sqrt);
    }
    ghost var rows1 := table.rows;
    loaded := RegisterActive(table, registry, second);
    if settings.Some? {
      var retired := registry.EnforceCaps(PolicyAt(settings.value, now));
      if retired != [] {
        var _ := table.Retire(retired, now);
        loaded := Filter(loaded, NotIn(retired));
      } else {
        RetireNobody(rows1, now);
        FilterAll(loaded, NotIn(retired));
      }
    }
  }

  /** A row converts when its tier is one of the four and its quality lies between 0 and 1. */
  lemma ConvertibleExactly(row: Row)
    ensures Convertible(row) <==>
      && (row.tier == "trivial" || row.tier == "simple" || row.tier == "complex" || row.tier == "critical")
      && !(row.quality < 0.0) && !(1.0 < row.quality)
  {
  }

  /** The registered agent has the row's metrics, with a quality of 0 read as one half, and its last update. */
  lemma AgentOfRow(name: string, row: Row)
    ensures var a := ToAgent(name, row);
      && a.name == name && a.active == row.active && a.lastUsed == Some(row.updatedAt)
      && a.score.successRate == row.successRate && a.score.totalRuns == row.totalRuns
      && (row.quality == 0.0 ==> a.score.quality == 0.5) && (row.quality != 0.0 ==> a.score.quality == row.quality)
  {
  }

  /** Converts one row to a new spec and registers it. */
  method RegisterRow(registry: SubAgentRegistry, name: string, row: Row)
    requires registry.Valid()
    modifies registry
    ensures registry.Valid() && fresh(registry.Specs() - old(registry.Specs()))
    ensures registry.View() == Put(old(registry.View()), ToAgent(name, row))
  {
    hide Put, Consistent;
    var spec := new Spec(ToAgent(name, row));
    registry.Register(spec);
  }

  lemma QueryRows(rows: map<string, Row>, order: RowOrder)
    requires Enumerates(order)
    ensures forall n :: n in order(ActiveNames(rows)) ==> n in rows
    ensures LoadableNames(rows, order) == Filter(order(ActiveNames(rows)), ConvertibleIn(rows))
  {
  }

  /** Registers every active row that converts. */
  method RegisterActive(table: AgentTable, registry: SubAgentRegistry, order: RowOrder) returns (loaded: seq<string>)
    requires registry.Valid() && Enumerates(order)
    modifies registry
    ensures registry.Valid() && fresh(registry.Specs() - old(registry.Specs()))
    ensures loaded == LoadableNames(table.rows, order)
    ensures registry.View() == PutAll(old(registry.View()), AgentsOf(table.rows, loaded))
  {
    hide PutAll, Put, Filter, Convertible, Enumerates, LoadableNames, AgentsOf, Consistent, ConvertibleIn, ToAgent;
    hide SubAgentRegistry.View, ActiveNames;
    var rows := table.rows;
    QueryRows(rows, order);
    var models := order(ActiveNames(rows));
    ghost var view := registry.View();
    loaded := [];
    NothingYet(rows, models, view);
    for i := 0 to |models|
      invariant registry.Valid() && fresh(registry.Specs() - old(registry.Specs()))
      invariant loaded == Filter(models[..i], ConvertibleIn(rows))
      invariant forall n :: n in loaded ==> n in rows
      invariant registry.View() == PutAll(view, AgentsOf(rows, loaded))
    {
      var name := models[i];
      assert name in models;
      FilterNext(models, i, ConvertibleIn(rows));
      ConvertibleTest(rows, name);
      if Convertible(rows[name]) {
        RegisterRow(registry, name, rows[name]);
        PutAllSnoc(view, rows, loaded, name);
        loaded := loaded + [name];
      }
    }
    assert models[..|models|] == models;
  }

  lemma ConvertibleTest(rows: map<string, Row>, name: string)
    requires name in rows
    ensures ConvertibleIn(rows)(name) <==> Convertible(rows[name])
  {
  }

  lemma NothingYet(rows: map<string, Row>, models: seq<string>, view: seq<Agent>)
    ensures Filter(models[..0], ConvertibleIn(rows)) == []
    ensures PutAll(view, AgentsOf(rows, [])) == view
  {
  }

  lemma PutAllSnoc(v: seq<Agent>, rows: map<string, Row>, names: seq<string>, name: string)
    requires name in rows && forall n :: n in names ==> n in rows
    ensures PutAll(v, AgentsOf(rows, names + [name]))
         == Put(PutAll(v, AgentsOf(rows, names)), ToAgent(name, rows[name]))
  {
    assert AgentsOf(rows, names + [name]) == AgentsOf(rows, names) + [ToAgent(name, rows[name])];
    assert AgentsOf(rows, names + [name])[..|names|] == AgentsOf(rows, names);
  }

  lemma RetireNobody(rows: map<string, Row>, now: int)
    ensures RetireRows(rows, AsSet([]), now) == rows
  {
  }
}
