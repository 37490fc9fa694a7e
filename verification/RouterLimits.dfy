/** What a passing router check does not promise, input by input. */
module RouterLimits {
  import opened Options
  import opened PythonAst
  import opened Execution
  import opened GraphInvariants
  import opened RouterFiles

  ghost predicate HasNode(taskGraph: Node)
  {
    exists x :: Registers(taskGraph, x)
  }

  /** The check runs on the two files, and passes. */
  ghost predicate PassesUnskipped(routers: Node, taskGraph: Node)
  {
    !RoutersSkipped(Some(routers), Some(taskGraph)) && RoutersTargetNodes(routers, taskGraph)
  }

  /** Some router of the file may hand over `t`. */
  ghost predicate MayYield(routers: Node, t: Option<string>)
  {
    exists f :: f in Descendants(routers) && IsAnyRouter(f) && Yields(0, f.body, t)
  }

  lemma RouterMayYield(ks: seq<Kind>, targets: seq<string>, i: nat)
    requires i < |ks| == |targets| && RouterNamed(ks)
    ensures MayYield(FileOf(ks, targets), Some(targets[i]))
    ensures !ks[i].constant ==> MayYield(FileOf(ks, targets), None)
  {
    hide Descendants, Yields, IsAnyRouter, RouterName;
    RouterInFile(ks, targets, i);
    RouterYields(ks[i], targets[i]);
  }

  lemma NotSkipped(ks: seq<Kind>, targets: seq<string>, i: nat, taskGraph: Node)
    requires i < |ks| == |targets| && RouterNamed(ks) && !ks[i].isAsync && HasNode(taskGraph)
    ensures !RoutersSkipped(Some(FileOf(ks, targets)), Some(taskGraph))
  {
    hide Descendants, Registers;
    RouterInFile(ks, targets, i);
  }

  /** A router that returns what a helper computes passes the check, and may hand over any name, or none. */
  lemma ComputedReturnUnchecked(taskGraph: Node, x: string)
    requires HasNode(taskGraph)
    ensures var routers := FileOf([Kind("route_a", false, false)], [x]);
      && routers == Module([FunctionDef("route_a", [], [Return(Some(Call(Name("helper"), [], [], 1)))], [])])
      && PassesUnskipped(routers, taskGraph) && MayYield(routers, Some(x)) && MayYield(routers, None)
  {
    hide RoutersSkipped, RoutersTargetNodes, MayYield, HasNode;
    var ks := [Kind("route_a", false, false)];
    assert ROUTER_PREFIX == "route_" && "route_a"[..6] == "route_";
    UnseenTargetPasses(ks, [x], 0, taskGraph);
    NotSkipped(ks, [x], 0, taskGraph);
    RouterMayYield(ks, [x], 0);
    assert Routers(ks, [x]) == [RouterOf(ks[0], x)];
  }

  /** An `async` router is passed over: it may hand over any name. */
  lemma AsyncRouterUnchecked(taskGraph: Node, x: string)
    requires HasNode(taskGraph)
    ensures var routers := FileOf([Kind("route_a", true, true), Kind("route_b", false, true)], [x, "complete"]);
      PassesUnskipped(routers, taskGraph) && MayYield(routers, Some(x))
  {
    hide RoutersSkipped, RoutersTargetNodes, MayYield, HasNode;
    var ks := [Kind("route_a", true, true), Kind("route_b", false, true)];
    assert ROUTER_PREFIX == "route_" && "route_a"[..6] == "route_" && "route_b"[..6] == "route_";
    UnseenTargetPasses(ks, [x, "complete"], 0, taskGraph);
    NotSkipped(ks, [x, "complete"], 1, taskGraph);
    RouterMayYield(ks, [x, "complete"], 0);
  }

  /** Of two definitions of one name only the later one is checked: the earlier may hand over any name. */
  lemma ShadowedRouterUnchecked(taskGraph: Node, x: string)
    requires HasNode(taskGraph)
    ensures var routers := FileOf([Kind("route_a", false, true), Kind("route_a", false, true)], [x, "complete"]);
      PassesUnskipped(routers, taskGraph) && MayYield(routers, Some(x))
  {
    hide RoutersSkipped, RoutersTargetNodes, MayYield, HasNode;
    var ks := [Kind("route_a", false, true), Kind("route_a", false, true)];
    assert ROUTER_PREFIX == "route_" && "route_a"[..6] == "route_";
    assert Unseen(ks, 0) by {
      assert ks[1].name == ks[0].name && !ks[1].isAsync;
    }
    UnseenTargetPasses(ks, [x, "complete"], 0, taskGraph);
    NotSkipped(ks, [x, "complete"], 0, taskGraph);
    RouterMayYield(ks, [x, "complete"], 0);
  }

  /** With no node registered in the graph file the check is skipped, and so passes, on a router that returns any name
      but the sentinel, and none of these names is a valid target. */
  lemma NoNodesPasses(taskGraph: Node, x: string)
    requires !HasNode(taskGraph) && x != "complete"
    ensures var routers := FileOf([Kind("route_a", false, true)], [x]);
      RoutersSkipped(Some(routers), Some(taskGraph)) && MayYield(routers, Some(x)) && !ValidTarget(taskGraph, x)
  {
    hide MayYield, Registers;
    assert ROUTER_PREFIX == "route_" && "route_a"[..6] == "route_";
    RouterMayYield([Kind("route_a", false, true)], [x], 0);
  }

  /** A router that runs off its end passes the check and hands over nothing. */
  lemma EndOfBodyUnchecked(taskGraph: Node)
    requires HasNode(taskGraph)
    ensures var routers := Module([FunctionDef("route_a", [], [Pass], [])]);
      PassesUnskipped(routers, taskGraph) && MayYield(routers, None)
  {
    hide Descendants, Registers, Literal, Yields, RoutersTargetNodes;
    var f := FunctionDef("route_a", [], [Pass], []);
    EmptyRouterTree();
    assert ROUTER_PREFIX == "route_" && "route_a"[..6] == "route_";
    PassYieldsNothing();
    assert f in Descendants(Module([f])) && IsAnyRouter(f) && IsRouter(f);
    EmptyRouterTargets(taskGraph);
  }

  lemma EmptyRouterTargets(taskGraph: Node)
    ensures RoutersTargetNodes(Module([FunctionDef("route_a", [], [Pass], [])]), taskGraph)
  {
    hide Descendants, VisitOrder, Literal, ValidTarget;
    var f := FunctionDef("route_a", [], [Pass], []);
    var visited := VisitOrder([Module([f])]);
    EmptyRouterTree();
    PassYieldsNothing();
    WalkMembers(Module([f]));
    forall name | LastRouter(visited, name).Some? ensures LastRouter(visited, name).value == f {
      assert LastRouter(visited, name).value in visited;
    }
  }

  lemma EmptyRouterTree()
    ensures var f := FunctionDef("route_a", [], [Pass], []);
      Descendants(Module([f])) == multiset{Module([f]), f, Pass}
  {
    hide Descendants;
    var f := FunctionDef("route_a", [], [Pass], []);
    LeafDescendants(Pass);
    assert Children(f) == [Pass] && Children(Module([f])) == [f];
    OnlyChildDescendants(f, Pass);
    OnlyChildDescendants(Module([f]), f);
  }

  lemma PassYieldsNothing()
    ensures Yields(0, [Pass], None)
    ensures forall x :: !Literal([Pass], x)
  {
    LeafDescendants(Pass);
    assert [Pass][1..] == [];
    assert Block(0, [Pass], Normal) && HandsOver(Normal, None);
  }
}
