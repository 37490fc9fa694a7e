/** What `enforce_caps` promises, for every registry content and every policy. */
module RetirementRules {
  import opened Lists
  import opened Order
  import opened AgentRegistry

  function NameSet(s: seq<Agent>): set<string>
  {
    set a | a in s :: a.name
  }

  lemma {:induction false} NameSetSize(s: seq<Agent>)
    requires DistinctNames(s)
    ensures |NameSet(s)| == |s|
  {
    if s != [] {
      var n := |s| - 1;
      NameSetSize(s[..n]);
      assert s == s[..n] + [s[n]];
      assert s[n].name !in NameSet(s[..n]);
      assert NameSet(s) == NameSet(s[..n]) + {s[n].name};
    }
  }

  lemma NamesAreNameSet(s: seq<Agent>)
    ensures forall n :: n in Names(s) <==> n in NameSet(s)
  {
    forall n ensures n in Names(s) <==> n in NameSet(s) {
      if n in Names(s) {
        var i :| 0 <= i < |s| && Names(s)[i] == n;
        assert s[i] in s;
      }
      if n in NameSet(s) {
        var a :| a in s && a.name == n;
        NameIn(s, a);
      }
    }
  }

  lemma {:induction false} FilterDistinct(s: seq<Agent>, keep: Agent -> bool)
    requires DistinctNames(s)
    ensures DistinctNames(Filter(s, keep))
  {
    if s != [] {
      var n := |s| - 1;
      FilterDistinct(s[..n], keep);
      FilterMembers(s[..n], keep);
      var t := Filter(s[..n], keep);
      assert forall i :: 0 <= i < |t| ==> t[i] in t && t[i] in s[..n];
    }
  }

  function Survivors(v: seq<Agent>, p: Policy): seq<Agent>
  {
    Active(Deactivate(v, RetiredBy(v, p)))
  }

  function NotNamed(names: seq<string>): Agent -> bool
  {
    (a: Agent) => a.name !in names
  }

  lemma ActiveDeactivate(w: seq<Agent>, names: seq<string>)
    ensures Active(Deactivate(w, names)) == Filter(Active(w), NotNamed(names))
  {
    var isActive := (a: Agent) => a.active;
    var both := (a: Agent) => a.active && a.name !in names;
    FilterAligned(Deactivate(w, names), isActive, w, both);
    FilterTwice(w, isActive, NotNamed(names), both);
  }

  /** The survivors are the healthy active agents that are not cut. */
  lemma SurvivorsAre(v: seq<Agent>, p: Policy)
    requires DistinctNames(v)
    ensures Survivors(v, p) == Filter(ActiveHealthy(v, p), NotNamed(Names(OverCap(ActiveHealthy(v, p), p.maxActive))))
  {
    UnhealthyPass(v, p);
    var bad, cut := Names(ActiveUnhealthy(v, p)), Names(OverCap(ActiveHealthy(v, p), p.maxActive));
    DeactivateTwice(v, bad, cut);
    ActiveDeactivate(Deactivate(v, bad), cut);
  }

  lemma HealthyFacts(v: seq<Agent>, p: Policy)
    requires DistinctNames(v)
    ensures DistinctNames(ActiveHealthy(v, p)) && DistinctNames(ActiveUnhealthy(v, p))
    ensures forall a :: a in ActiveHealthy(v, p) <==> a in v && a.active && !Unhealthy(a, p)
    ensures forall a :: a in ActiveUnhealthy(v, p) <==> a in v && a.active && Unhealthy(a, p)
  {
    FilterDistinct(v, (a: Agent) => a.active && !Unhealthy(a, p));
    FilterDistinct(v, (a: Agent) => a.active && Unhealthy(a, p));
    FilterMembers(v, (a: Agent) => a.active && !Unhealthy(a, p));
    FilterMembers(v, (a: Agent) => a.active && Unhealthy(a, p));
  }

  /** Place `i` of the healthy agents is among those cut. */
  ghost predicate IsCut(h: seq<Agent>, cap: int, i: nat)
  {
    i in ArgSort(Scores(h), ScoreLe)[..SliceStop(|h| - cap, |h|)]
  }

  lemma GatherNames(h: seq<Agent>, q: seq<nat>)
    requires DistinctNames(h) && InRange(q, |h|)
    requires forall a, b :: 0 <= a < b < |q| ==> q[a] != q[b]
    ensures DistinctNames(Gather(h, q))
    ensures NameSet(Gather(h, q)) <= NameSet(h)
    ensures forall i: nat :: i < |h| ==> (h[i].name in NameSet(Gather(h, q)) <==> i in q)
  {
    var cut := Gather(h, q);
    forall i: nat | i < |h| ensures h[i].name in NameSet(cut) <==> i in q {
      if i in q {
        var k :| 0 <= k < |q| && q[k] == i;
        assert cut[k] in cut;
      }
      if h[i].name in NameSet(cut) {
        var a :| a in cut && a.name == h[i].name;
        var k :| 0 <= k < |cut| && cut[k] == a;
        assert h[q[k]].name == h[i].name;
      }
    }
  }

  lemma OverCapFacts(h: seq<Agent>, cap: int)
    requires DistinctNames(h)
    ensures DistinctNames(OverCap(h, cap))
    ensures NameSet(OverCap(h, cap)) <= NameSet(h)
    ensures forall i: nat :: i < |h| ==> (h[i].name in NameSet(OverCap(h, cap)) <==> IsCut(h, cap, i))
  {
    ScoreOrder();
    ArgSortStable(Scores(h), ScoreLe);
    GatherNames(h, ArgSort(Scores(h), ScoreLe)[..SliceStop(|h| - cap, |h|)]);
  }

  /** Exactly min(cap, healthy) agents stay active, none when the cap is negative. */
  lemma SurvivorCount(v: seq<Agent>, p: Policy)
    requires DistinctNames(v)
    ensures var healthy := |ActiveHealthy(v, p)|;
      |Survivors(v, p)| == if healthy <= p.maxActive then healthy else if p.maxActive >= 0 then p.maxActive else 0
  {
    var h := ActiveHealthy(v, p);
    var cut := OverCap(h, p.maxActive);
    var kept := Survivors(v, p);
    SurvivorsAre(v, p);
    HealthyFacts(v, p);
    OverCapFacts(h, p.maxActive);
    FilterDistinct(h, NotNamed(Names(cut)));
    FilterMembers(h, NotNamed(Names(cut)));
    NamesAreNameSet(cut);
    assert NameSet(kept) == NameSet(h) - NameSet(cut);
    NameSetSize(kept);
    NameSetSize(h);
    NameSetSize(cut);
  }

  /** Nobody is cut who outranks a survivor; among equal scores the earlier registered go first. */
  lemma CutLowest(v: seq<Agent>, p: Policy, i: nat, j: nat)
    requires DistinctNames(v)
    requires i < |ActiveHealthy(v, p)| && ActiveHealthy(v, p)[i] !in Survivors(v, p)
    requires j < |ActiveHealthy(v, p)| && ActiveHealthy(v, p)[j] in Survivors(v, p)
    ensures ScoreLe(ActiveHealthy(v, p)[i].score, ActiveHealthy(v, p)[j].score)
    ensures ActiveHealthy(v, p)[i].score == ActiveHealthy(v, p)[j].score ==> i < j
  {
    var h := ActiveHealthy(v, p);
    SurvivorsAre(v, p);
    HealthyFacts(v, p);
    OverCapFacts(h, p.maxActive);
    NamesAreNameSet(OverCap(h, p.maxActive));
    FilterMembers(h, NotNamed(Names(OverCap(h, p.maxActive))));
    assert h[i] in h && h[j] in h;
    assert IsCut(h, p.maxActive, i) && !IsCut(h, p.maxActive, j);
    CutBefore(h, p.maxActive, i, j);
  }

  lemma CutBefore(h: seq<Agent>, cap: int, i: nat, j: nat)
    requires i < |h| && j < |h| && IsCut(h, cap, i) && !IsCut(h, cap, j)
    ensures Before(Scores(h), ScoreLe, i, j)
  {
    ScoreOrder();
    ArgSortStable(Scores(h), ScoreLe);
    var q := ArgSort(Scores(h), ScoreLe);
    var stop := SliceStop(|h| - cap, |h|);
    assert j in q;
    var a :| 0 <= a < stop && q[..stop][a] == i;
    var b :| 0 <= b < |q| && q[b] == j;
    assert forall c :: 0 <= c < stop ==> q[c] in q[..stop];
    assert Before(Scores(h), ScoreLe, q[a], q[b]);
  }

  /** The returned names are those of the agents that went inactive, once each. */
  lemma RetiredExactly(v: seq<Agent>, p: Policy)
    requires DistinctNames(v)
    ensures var r := RetiredBy(v, p);
      && (forall i, j :: 0 <= i < j < |r| ==> r[i] != r[j])
      && (forall k :: 0 <= k < |v| ==>
            (v[k].name in r <==> v[k].active && !Deactivate(v, r)[k].active))
      && (forall n :: n in r ==> exists k :: 0 <= k < |v| && v[k].name == n)
  {
    var h, bad := ActiveHealthy(v, p), ActiveUnhealthy(v, p);
    var cut := OverCap(h, p.maxActive);
    HealthyFacts(v, p);
    OverCapFacts(h, p.maxActive);
    NamesAreNameSet(bad);
    NamesAreNameSet(cut);
    forall n | n in RetiredBy(v, p)
      ensures exists k :: 0 <= k < |v| && v[k].name == n && v[k].active
    {
      if n in Names(bad) {
        var a :| a in bad && a.name == n;
        var k :| 0 <= k < |v| && v[k] == a;
      } else {
        assert n in NameSet(h);
        var a :| a in h && a.name == n;
        var k :| 0 <= k < |v| && v[k] == a;
      }
    }
    forall i, j | 0 <= i < |bad| && 0 <= j < |cut| ensures bad[i].name != cut[j].name {
      assert cut[j] in cut && cut[j].name in NameSet(h) && bad[i] in bad;
    }
  }

  /** Every survivor was active and is healthy; nobody is reactivated. */
  lemma SurvivorsHealthy(v: seq<Agent>, p: Policy)
    requires DistinctNames(v)
    ensures forall a :: a in Survivors(v, p) ==> a in v && a.active && !Unhealthy(a, p)
  {
    SurvivorsAre(v, p);
    HealthyFacts(v, p);
    var h := ActiveHealthy(v, p);
    FilterMembers(h, NotNamed(Names(OverCap(h, p.maxActive))));
  }

  /** Enforcing the same policy again, at the same time, retires nobody. */
  lemma SecondPassRetiresNobody(v: seq<Agent>, p: Policy)
    requires DistinctNames(v)
    ensures RetiredBy(Deactivate(v, RetiredBy(v, p)), p) == []
  {
    SurvivorCount(v, p);
    SurvivorsHealthy(v, p);
    WithinCap(Deactivate(v, RetiredBy(v, p)), p);
  }

  /** A registry whose active agents are healthy and within the cap is left alone. */
  lemma WithinCap(w: seq<Agent>, p: Policy)
    requires forall a :: a in Active(w) ==> !Unhealthy(a, p)
    requires |Active(w)| <= p.maxActive || Active(w) == []
    ensures RetiredBy(w, p) == []
  {
    var act := Active(w);
    var healthy := (a: Agent) => !Unhealthy(a, p);
    FilterTwice(w, (a: Agent) => a.active, healthy, (a: Agent) => a.active && !Unhealthy(a, p));
    FilterAll(act, healthy);
    FilterTwice(w, (a: Agent) => a.active, (a: Agent) => Unhealthy(a, p), (a: Agent) => a.active && Unhealthy(a, p));
    FilterNothing(act, (a: Agent) => Unhealthy(a, p));
    assert ActiveHealthy(w, p) == act && ActiveUnhealthy(w, p) == [];
    assert SliceStop(|act| - p.maxActive, |act|) == 0;
  }

  /** An agent that meets no trigger is retired only by the cap: not while the active agents without one fit it. */
  lemma SparedWithinCap(v: seq<Agent>, p: Policy, k: nat)
    requires DistinctNames(v) && k < |v| && !AgentTriggered(v[k], p)
    requires |Filter(v, SoundIn(p))| <= p.maxActive
    ensures v[k].name !in RetiredBy(v, p)
  {
    FirstPassExactly(v, p);
    HealthyAreSound(v, p);
    var h := ActiveHealthy(v, p);
    assert SliceStop(|h| - p.maxActive, |h|) == 0;
    assert OverCap(h, p.maxActive) == [];
  }

  /** Active, and meeting no trigger. */
  ghost function SoundIn(p: Policy): Agent -> bool
  {
    (a: Agent) => a.active && !AgentTriggered(a, p)
  }

  lemma HealthyAreSound(v: seq<Agent>, p: Policy)
    ensures ActiveHealthy(v, p) == Filter(v, SoundIn(p))
  {
    forall a ensures SoundIn(p)(a) <==> a.active && !Unhealthy(a, p) {
      UnhealthyExactly(a, p);
    }
    FilterAligned(v, (a: Agent) => a.active && !Unhealthy(a, p), v, SoundIn(p));
  }
}
