/** The in-memory sub-agent registry of `src/agents/registry.py`, and its retirement rules. */
module AgentRegistry {
  import opened Lists
  import opened Options
  import opened Order

  /** (success_rate, total_runs, quality_score), compared as a tuple; higher is better. */
  datatype Score = Score(successRate: real, totalRuns: int, quality: real)

  predicate ScoreLe(a: Score, b: Score)
  {
    a.successRate < b.successRate
    || (a.successRate == b.successRate
        && (a.totalRuns < b.totalRuns || (a.totalRuns == b.totalRuns && a.quality <= b.quality)))
  }

  lemma ScoreOrder()
    ensures TotalPreorder(ScoreLe)
    ensures forall a, b :: ScoreLe(a, b) && ScoreLe(b, a) ==> a == b
  {
  }

  /** What the registry holds under one name. Times are UTC microseconds. */
  datatype Agent = Agent(name: string, score: Score, lastUsed: Option<int>, active: bool)

  datatype Policy = Policy(maxActive: int, minRuns: int, successFloor: real, recencyDays: int, now: int)

  const MICROSECONDS_PER_DAY := 86_400_000_000

  predicate IsStale(lastUsed: Option<int>, recencyDays: int, now: int)
  {
    lastUsed.Some? && recencyDays > 0 && now - lastUsed.value > recencyDays * MICROSECONDS_PER_DAY
  }

  /** A chronic low performer, or unused for too long. */
  predicate Unhealthy(a: Agent, p: Policy)
  {
    (a.score.totalRuns >= p.minRuns && a.score.successRate < p.successFloor)
    || IsStale(a.lastUsed, p.recencyDays, p.now)
  }

  /** Enough runs and a success rate under the floor, or a known last use longer ago than the window. */
  ghost predicate Triggered(totalRuns: int, successRate: real, lastUsed: Option<int>, p: Policy)
  {
    || (p.minRuns <= totalRuns && successRate < p.successFloor)
    || (lastUsed.Some? && 0 < p.recencyDays && lastUsed.value < p.now - p.recencyDays * (24 * 60 * 60 * 1_000_000))
  }

  ghost predicate AgentTriggered(a: Agent, p: Policy)
  {
    Triggered(a.score.totalRuns, a.score.successRate, a.lastUsed, p)
  }

  /** An agent of this name is registered and meets a trigger. */
  ghost predicate NamedTriggered(v: seq<Agent>, name: string, p: Policy)
  {
    exists k :: 0 <= k < |v| && v[k].name == name && AgentTriggered(v[k], p)
  }

  lemma UnhealthyExactly(a: Agent, p: Policy)
    ensures Unhealthy(a, p) <==> AgentTriggered(a, p)
  {
  }

  /** The success rate decides, then the number of runs, then the quality. */
  lemma ScoreFields(a: Score, b: Score)
    ensures a.successRate < b.successRate ==> ScoreLe(a, b) && !ScoreLe(b, a)
    ensures a.successRate == b.successRate && a.totalRuns < b.totalRuns ==> ScoreLe(a, b) && !ScoreLe(b, a)
    ensures a.successRate == b.successRate && a.totalRuns == b.totalRuns ==> (ScoreLe(a, b) <==> a.quality <= b.quality)
  {
  }

  // ---------- Specification on the registry's contents, in insertion order ----------

  function Active(v: seq<Agent>): seq<Agent>
  {
    Filter(v, (a: Agent) => a.active)
  }

  function ActiveUnhealthy(v: seq<Agent>, p: Policy): seq<Agent>
  {
    Filter(v, (a: Agent) => a.active && Unhealthy(a, p))
  }

  function ActiveHealthy(v: seq<Agent>, p: Policy): seq<Agent>
  {
    Filter(v, (a: Agent) => a.active && !Unhealthy(a, p))
  }

  function Names(v: seq<Agent>): (r: seq<string>)
    ensures |r| == |v| && forall i :: 0 <= i < |v| ==> r[i] == v[i].name
  {
    seq(|v|, i requires 0 <= i < |v| => v[i].name)
  }

  function Scores(v: seq<Agent>): (r: seq<Score>)
    ensures |r| == |v| && forall i :: 0 <= i < |v| ==> r[i] == v[i].score
  {
    seq(|v|, i requires 0 <= i < |v| => v[i].score)
  }

  /** Length of Python's slice `xs[:stop]` for a list of length `n` and `stop >= 0`. */
  function SliceStop(stop: int, n: nat): (r: nat)
    ensures r <= n
  {
    if stop <= 0 then 0 else if stop < n then stop else n
  }

  /** The agents cut to meet the cap: lowest scores first, ties in insertion order. */
  function OverCap(healthy: seq<Agent>, maxActive: int): seq<Agent>
  {
    Gather(healthy, ArgSort(Scores(healthy), ScoreLe)[..SliceStop(|healthy| - maxActive, |healthy|)])
  }

  /** The names `enforce_caps` retires, in retirement order. */
  function RetiredBy(v: seq<Agent>, p: Policy): seq<string>
  {
    Names(ActiveUnhealthy(v, p)) + Names(OverCap(ActiveHealthy(v, p), p.maxActive))
  }

  function Deactivate(v: seq<Agent>, names: seq<string>): (r: seq<Agent>)
    ensures |r| == |v|
    ensures forall i :: 0 <= i < |v| ==> r[i] == v[i].(active := v[i].active && v[i].name !in names)
  {
    seq(|v|, i requires 0 <= i < |v| => v[i].(active := v[i].active && v[i].name !in names))
  }

  /** A dictionary assignment: an existing key keeps its place, a new one goes last. */
  function Put(v: seq<Agent>, a: Agent): seq<Agent>
  {
    if v == [] then [a]
    else if v[0].name == a.name then [a] + v[1..]
    else [v[0]] + Put(v[1..], a)
  }

  lemma {:induction false} PutNew(v: seq<Agent>, a: Agent)
    requires forall i :: 0 <= i < |v| ==> v[i].name != a.name
    ensures Put(v, a) == v + [a]
  {
    if v != [] {
      PutNew(v[1..], a);
      assert v == [v[0]] + v[1..];
    }
  }

  lemma {:induction false} PutExisting(v: seq<Agent>, a: Agent, k: nat)
    requires DistinctNames(v) && k < |v| && v[k].name == a.name
    ensures Put(v, a) == v[k := a]
  {
    if k == 0 {
      assert v[k := a] == [a] + v[1..];
    } else {
      PutExisting(v[1..], a, k - 1);
      assert v[k := a] == [v[0]] + v[1..][k - 1 := a];
    }
  }

  ghost predicate DistinctNames(v: seq<Agent>)
  {
    forall i, j :: 0 <= i < j < |v| ==> v[i].name != v[j].name
  }

  /** An agent of this name is registered and unhealthy. */
  ghost predicate Doomed(v: seq<Agent>, name: string, p: Policy)
  {
    exists i :: 0 <= i < |v| && v[i].name == name && Unhealthy(v[i], p)
  }

  lemma DoomedAt(v: seq<Agent>, k: nat, p: Policy)
    requires DistinctNames(v) && k < |v|
    ensures Doomed(v, v[k].name, p) <==> Unhealthy(v[k], p)
  {
  }

  /** The names are those of the active agents that meet a trigger. */
  ghost predicate FirstPass(v: seq<Agent>, names: seq<string>, p: Policy)
  {
    forall k :: 0 <= k < |v| ==> (v[k].name in names <==> v[k].active && AgentTriggered(v[k], p))
  }

  /** Every active agent that meets a trigger is named. */
  ghost predicate TakesTriggered(v: seq<Agent>, names: seq<string>, p: Policy)
  {
    forall k :: 0 <= k < |v| && v[k].active && AgentTriggered(v[k], p) ==> v[k].name in names
  }

  lemma FirstPassExactly(v: seq<Agent>, p: Policy)
    requires DistinctNames(v)
    ensures FirstPass(v, Names(Filter(Active(v), (a: Agent) => Unhealthy(a, p))), p)
    ensures FirstPass(v, Names(ActiveUnhealthy(v, p)), p)
  {
    hide Unhealthy;
    UnhealthyPass(v, p);
    var bad := ActiveUnhealthy(v, p);
    FilterMembers(v, (a: Agent) => a.active && Unhealthy(a, p));
    forall k | 0 <= k < |v|
      ensures v[k].name in Names(bad) <==> v[k].active && AgentTriggered(v[k], p)
    {
      UnhealthyExactly(v[k], p);
      if v[k].name in Names(bad) {
        var j :| 0 <= j < |bad| && Names(bad)[j] == v[k].name;
        assert bad[j] in bad && bad[j] in v;
      }
      if v[k] in bad {
        NameIn(bad, v[k]);
      }
    }
  }

  // ---------- The registry object ----------

  /** The dictionary's keys in insertion order, and what they map to. */
  ghost predicate Consistent(names: seq<string>, agents: map<string, Spec>)
  {
    && (forall i, j :: 0 <= i < j < |names| ==> names[i] != names[j])
    && (forall n :: n in names <==> n in agents)
    && (forall n :: n in agents ==> agents[n].name == n)
  }

  ghost function Look(names: seq<string>, agents: map<string, Spec>): (v: seq<Agent>)
    requires Consistent(names, agents)
    reads set n | n in agents :: agents[n]
    ensures |v| == |names|
    ensures forall i :: 0 <= i < |names| ==> names[i] in agents && v[i] == agents[names[i]].Snapshot()
    ensures forall i :: 0 <= i < |names| ==> v[i].name == names[i]
    ensures DistinctNames(v)
  {
    assert forall i :: 0 <= i < |names| ==> names[i] in names;
    seq(|names|, i requires 0 <= i < |names| && names[i] in agents reads set n | n in agents :: agents[n] =>
      agents[names[i]].Snapshot())
  }

  lemma ConsistentOverwrite(names: seq<string>, agents: map<string, Spec>, spec: Spec) returns (k: nat)
    requires Consistent(names, agents) && spec.name in agents
    ensures k < |names| && names[k] == spec.name
    ensures Consistent(names, agents[spec.name := spec])
  {
    k :| 0 <= k < |names| && names[k] == spec.name;
  }

  lemma LookOverwrite(names: seq<string>, agents: map<string, Spec>, spec: Spec)
    requires Consistent(names, agents) && spec.name in agents
    ensures Consistent(names, agents[spec.name := spec])
    ensures Look(names, agents[spec.name := spec]) == Put(Look(names, agents), spec.Snapshot())
  {
    hide Put, Consistent;
    var k := ConsistentOverwrite(names, agents, spec);
    var before := Look(names, agents);
    PutExisting(before, spec.Snapshot(), k);
    assert Look(names, agents[spec.name := spec]) == before[k := spec.Snapshot()];
  }

  lemma LookAppend(names: seq<string>, agents: map<string, Spec>, spec: Spec)
    requires Consistent(names, agents) && spec.name !in agents
    ensures Consistent(names + [spec.name], agents[spec.name := spec])
    ensures Look(names + [spec.name], agents[spec.name := spec]) == Put(Look(names, agents), spec.Snapshot())
  {
    var before := Look(names, agents);
    assert forall i :: 0 <= i < |names| ==> names[i] in names;
    PutNew(before, spec.Snapshot());
    assert Look(names + [spec.name], agents[spec.name := spec]) == before + [spec.Snapshot()];
  }

  class Spec {
    const name: string
    const score: Score
    const lastUsed: Option<int>
    var isActive: bool

    constructor (a: Agent)
      ensures Snapshot() == a
    {
      name, score, lastUsed, isActive := a.name, a.score, a.lastUsed, a.active;
    }

    /** Holds the unchanging part of `a`. */
    predicate Is(a: Agent)
    {
      name == a.name && score == a.score && lastUsed == a.lastUsed
    }

    function Snapshot(): Agent
      reads this
    {
      Agent(name, score, lastUsed, isActive)
    }
  }

  class SubAgentRegistry {
    var names: seq<string>
    var agents: map<string, Spec>

    ghost function Specs(): set<Spec>
      reads this
    {
      set n | n in agents :: agents[n]
    }

    ghost predicate Valid()
      reads this
    {
      Consistent(names, agents)
    }

    /** The contents of the dictionary, in insertion order. */
    ghost function View(): (v: seq<Agent>)
      requires Valid()
      reads this, Specs()
      ensures |v| == |names|
      ensures forall i :: 0 <= i < |names| ==> names[i] in agents && v[i] == agents[names[i]].Snapshot()
      ensures forall i :: 0 <= i < |names| ==> v[i].name == names[i]
      ensures DistinctNames(v)
    {
      Look(names, agents)
    }

    constructor ()
      ensures Valid() && View() == []
      ensures Specs() == {}
    {
      names, agents := [], map[];
    }

    method Register(spec: Spec)
      requires Valid()
      modifies this
      ensures Valid() && Specs() <= old(Specs()) + {spec}
      ensures View() == Put(old(View()), spec.Snapshot())
    {
      var name := spec.name;
      if name in agents {
        LookOverwrite(names, agents, spec);
      } else {
        LookAppend(names, agents, spec);
        names := names + [name];
      }
      agents := agents[name := spec];
    }

    method ListActive() returns (r: seq<Spec>)
      requires Valid()
      ensures |r| == |Active(View())|
      ensures forall i :: 0 <= i < |r| ==> r[i] in Specs() && r[i].Is(Active(View())[i])
    {
      r := [];
      ghost var v := View();
      ghost var act: seq<Agent> := [];
      for k := 0 to |names|
        invariant act == Active(v[..k]) && |r| == |act|
        invariant forall i :: 0 <= i < |r| ==> r[i] in Specs() && r[i].Is(act[i])
      {
        assert v[..k + 1][..k] == v[..k];
        act := Active(v[..k + 1]);
        assert names[k] in names && v[k] == agents[names[k]].Snapshot();
        if agents[names[k]].isActive {
          r := r + [agents[names[k]]];
        }
      }
      assert v[..|names|] == v;
    }

    /** Switches one agent off. */
    method SetInactive(spec: Spec)
      requires Valid() && spec in Specs()
      modifies spec
      ensures View() == Deactivate(old(View()), [spec.name])
    {
      spec.isActive := false;
    }

    /** Retires the named agent when it is registered and unhealthy. */
    method CheckDeprecation(name: string, p: Policy) returns (b: bool)
      requires Valid()
      modifies Specs()
      ensures b <==> NamedTriggered(old(View()), name, p)
      ensures b <==> Doomed(old(View()), name, p)
      ensures View() == if b then Deactivate(old(View()), [name]) else old(View())
    {
      ghost var v := View();
      if name !in agents {
        assert forall i :: 0 <= i < |names| ==> names[i] in names;
        return false;
      }
      ghost var k :| 0 <= k < |names| && names[k] == name;
      assert v[k].name == name;
      DoomedAt(v, k, p);
      UnhealthyExactly(v[k], p);
      var spec := agents[name];
      b := Unhealthy(spec.Snapshot(), p);
      if b {
        SetInactive(spec);
      }
    }

    /** First pass of `enforce_caps`: every active agent is checked, in insertion order. */
    method RetireUnhealthy(p: Policy) returns (retired: seq<string>)
      requires Valid()
      modifies Specs()
      ensures retired == Names(Filter(Active(old(View())), (a: Agent) => Unhealthy(a, p)))
      ensures FirstPass(old(View()), retired, p)
      ensures View() == Deactivate(old(View()), retired)
    {
      hide Filter, Doomed, Active, Unhealthy, FirstPass;
      ghost var v := View();
      ghost var act := Active(v);
      ghost var unhealthy := (a: Agent) => Unhealthy(a, p);
      retired := [];
      var snapshot := ListActive();
      FilterNone(act[..0], unhealthy);
      for i := 0 to |snapshot|
        invariant retired == Names(Filter(act[..i], unhealthy))
        invariant View() == Deactivate(v, retired)
      {
        DoomedActive(v, retired, i, p);
        var gone := CheckDeprecation(snapshot[i].name, p);
        NamesFilterSnoc(act, i, unhealthy);
        if gone {
          DeactivateTwice(v, retired, [snapshot[i].name]);
          retired := retired + [snapshot[i].name];
        }
      }
      assert act[..|snapshot|] == act;
      FirstPassExactly(v, p);
    }

    /** Switches the given agents off, in order. */
    method SwitchOff(overflow: seq<Spec>) returns (retired: seq<string>)
      requires Valid() && forall i :: 0 <= i < |overflow| ==> overflow[i] in Specs()
      modifies Specs()
      ensures |retired| == |overflow| && forall i :: 0 <= i < |overflow| ==> retired[i] == overflow[i].name
      ensures View() == Deactivate(old(View()), retired)
    {
      ghost var v := View();
      retired := [];
      for k := 0 to |overflow|
        invariant |retired| == k && forall i :: 0 <= i < k ==> retired[i] == overflow[i].name
        invariant View() == Deactivate(v, retired)
      {
        SetInactive(overflow[k]);
        DeactivateTwice(v, retired, [overflow[k].name]);
        retired := retired + [overflow[k].name];
      }
    }

    /** Second pass of `enforce_caps`: the lowest scores go until the cap is met. */
    method CutToCap(p: Policy) returns (retired: seq<string>)
      requires Valid()
      modifies Specs()
      ensures retired == Names(OverCap(Active(old(View())), p.maxActive))
      ensures View() == Deactivate(old(View()), retired)
    {
      hide Active, Consistent, Deactivate, ScoreLe;
      ghost var h := Active(View());
      var active := ListActive();
      if |active| <= p.maxActive {
        return [];
      }
      var keys := seq(|active|, i requires 0 <= i < |active| => active[i].score);
      assert keys == Scores(h);
      var order := ArgSort(keys, ScoreLe);
      retired := SwitchOff(Gather(active, order[..SliceStop(|active| - p.maxActive, |active|)]));
      assert retired == Names(Gather(h, order[..SliceStop(|active| - p.maxActive, |active|)]));
    }

    method EnforceCaps(p: Policy) returns (retired: seq<string>)
      requires Valid()
      modifies Specs()
      ensures retired == RetiredBy(old(View()), p)
      ensures TakesTriggered(old(View()), retired, p)
      ensures View() == Deactivate(old(View()), retired)
    {
      ghost var v := View();
      UnhealthyPass(v, p);
      retired := RetireUnhealthy(p);
      var cut := CutToCap(p);
      DeactivateTwice(v, retired, cut);
      retired := retired + cut;
    }
  }

  lemma DeactivateTwice(v: seq<Agent>, a: seq<string>, b: seq<string>)
    ensures Deactivate(Deactivate(v, a), b) == Deactivate(v, a + b)
  {
  }

  lemma {:induction false} ActiveAt(v: seq<Agent>, i: nat) returns (k: nat)
    requires i < |Active(v)|
    ensures k < |v| && v[k] == Active(v)[i]
  {
    FilterMembers(v, (a: Agent) => a.active);
    assert Active(v)[i] in Active(v);
    k :| 0 <= k < |v| && v[k] == Active(v)[i];
  }

  lemma NameIn(s: seq<Agent>, a: Agent)
    requires a in s
    ensures a.name in Names(s)
  {
    var j :| 0 <= j < |s| && s[j] == a;
    assert Names(s)[j] == a.name;
  }

  lemma FilterNone(s: seq<Agent>, f: Agent -> bool)
    requires s == []
    ensures Filter(s, f) == []
  {
  }

  lemma NamesFilterSnoc(s: seq<Agent>, i: nat, f: Agent -> bool)
    requires i < |s|
    ensures Names(Filter(s[..i + 1], f)) == Names(Filter(s[..i], f)) + if f(s[i]) then [s[i].name] else []
  {
    assert s[..i + 1][..i] == s[..i];
  }

  lemma DoomedActive(v: seq<Agent>, retired: seq<string>, i: nat, p: Policy)
    requires DistinctNames(v) && i < |Active(v)|
    ensures Doomed(Deactivate(v, retired), Active(v)[i].name, p) <==> Unhealthy(Active(v)[i], p)
  {
    var k := ActiveAt(v, i);
    DoomedAt(Deactivate(v, retired), k, p);
  }

  /** The active agents after the unhealthy ones are retired are the healthy ones. */
  lemma UnhealthyPass(v: seq<Agent>, p: Policy)
    requires DistinctNames(v)
    ensures Filter(Active(v), (a: Agent) => Unhealthy(a, p)) == ActiveUnhealthy(v, p)
    ensures Active(Deactivate(v, Names(ActiveUnhealthy(v, p)))) == ActiveHealthy(v, p)
  {
    var isActive := (a: Agent) => a.active;
    var unhealthy := (a: Agent) => a.active && Unhealthy(a, p);
    var healthy := (a: Agent) => a.active && !Unhealthy(a, p);
    FilterTwice(v, isActive, (a: Agent) => Unhealthy(a, p), unhealthy);
    var bad := ActiveUnhealthy(v, p);
    var w := Deactivate(v, Names(bad));
    FilterMembers(v, unhealthy);
    forall i | 0 <= i < |v| ensures isActive(w[i]) == healthy(v[i]) {
      if v[i].name in Names(bad) {
        var j :| 0 <= j < |bad| && bad[j].name == v[i].name;
        assert bad[j] in bad;
        assert v[i] == bad[j];
      } else if unhealthy(v[i]) {
        assert v[i] in bad;
        NameIn(bad, v[i]);
      }
    }
    FilterAligned(w, isActive, v, healthy);
  }
}
