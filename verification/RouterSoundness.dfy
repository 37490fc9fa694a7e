/** When a passing router check can be trusted at run time. */
module RouterSoundness {
  import opened Options
  import opened PythonAst
  import opened Execution
  import opened GraphInvariants
  import opened RouterFiles
  import opened RouterLimits

  /** Every run of a router that is not cut short by an exception hands over a valid target. */
  ghost predicate Trusted(routers: Node, taskGraph: Node)
  {
    forall f, k, t :: f in Descendants(routers) && IsAnyRouter(f) && Yields(k, f.body, t)
      ==> t.Some? && ValidTarget(taskGraph, t.value)
  }

  ghost predicate Passes(routers: Node, taskGraph: Node)
  {
    RoutersSkipped(Some(routers), Some(taskGraph)) || RoutersTargetNodes(routers, taskGraph)
  }

  ghost predicate DistinctKinds(ks: seq<Kind>)
  {
    forall i, j :: 0 <= i < j < |ks| ==> ks[i].name != ks[j].name
  }

  /** Plain functions whose runs end in constants only. */
  ghost predicate AllSeen(ks: seq<Kind>)
  {
    forall i :: 0 <= i < |ks| ==> !ks[i].isAsync && ks[i].constant
  }

  // ---------- The kinds of a file's routers ----------

  lemma {:induction false} KindListed(visited: seq<Node>, k: nat)
    requires k < |visited| && IsAnyRouter(visited[k])
    ensures KindOf(visited[k]) in RouterKinds(visited)
  {
    hide IsAnyRouter, KindOf;
    var n := |visited| - 1;
    if k < n {
      KindListed(visited[..n], k);
    }
  }

  lemma {:induction false} KindsOnce(visited: seq<Node>)
    requires DistinctKinds(RouterKinds(visited))
    ensures DistinctRouters(visited)
  {
    hide IsAnyRouter, EndsInConstants;
    if visited != [] {
      var n := |visited| - 1;
      var front := visited[..n];
      assert RouterKinds(front) <= RouterKinds(visited);
      KindsOnce(front);
      forall i | 0 <= i < n && IsRouter(visited[i]) && IsRouter(visited[n])
        ensures visited[i].name != visited[n].name
      {
        EarlierName(visited, i);
      }
      forall i, j | 0 <= i < j < |visited| && IsRouter(visited[i]) && IsRouter(visited[j])
        ensures visited[i].name != visited[j].name
      {
        if j < n {
          assert front[i] == visited[i] && front[j] == visited[j];
        }
      }
    }
  }

  lemma NameOfKind(n: Node)
    ensures IsRouter(n) ==> IsAnyRouter(n)
    ensures IsAnyRouter(n) ==> KindOf(n).name == n.name
  {
  }

  lemma EarlierName(visited: seq<Node>, i: nat)
    requires DistinctKinds(RouterKinds(visited)) && i + 1 < |visited|
    requires IsRouter(visited[i]) && IsRouter(visited[|visited| - 1])
    ensures visited[i].name != visited[|visited| - 1].name
  {
    hide IsRouter, IsAnyRouter, KindOf, RouterKinds, DistinctKinds;
    var n := |visited| - 1;
    var a, b := visited[i], visited[n];
    NameOfKind(a);
    NameOfKind(b);
    KindListed(visited[..n], i);
    LastKind(visited);
    LastIsNew(RouterKinds(visited[..n]), KindOf(b), KindOf(a));
  }

  lemma LastKind(visited: seq<Node>)
    requires visited != [] && IsAnyRouter(visited[|visited| - 1])
    ensures var n := |visited| - 1; RouterKinds(visited) == RouterKinds(visited[..n]) + [KindOf(visited[n])]
  {
    hide IsAnyRouter, KindOf;
  }

  lemma LastIsNew(kinds: seq<Kind>, last: Kind, k: Kind)
    requires DistinctKinds(kinds + [last]) && k in kinds
    ensures k.name != last.name
  {
    var p :| 0 <= p < |kinds| && kinds[p] == k;
    assert (kinds + [last])[p] == k && (kinds + [last])[|kinds|] == last;
  }

  lemma RouterListed(routers: Node, f: Node)
    requires f in Descendants(routers) && IsAnyRouter(f)
    ensures KindOf(f) in RouterKinds(VisitOrder([routers]))
  {
    hide Descendants, VisitOrder, IsAnyRouter, RouterKinds;
    WalkMembers(routers);
    var visited := VisitOrder([routers]);
    var k :| 0 <= k < |visited| && visited[k] == f;
    KindListed(visited, k);
  }

  // ---------- A single file ----------

  /** A constant ending hands over its string, and nothing but a constant ending always hands over a string. */
  lemma EndingsHandOver(body: seq<Node>)
    ensures EndsInConstants(body) <==> forall k :: !Yields(k, body, None)
  {
    hide Block;
    forall k, o | Block(k, body, o) && (o.Normal? || o.Returned?)
      ensures ConstantReturn(o) <==> !HandsOver(o, None)
    {
    }
    if !EndsInConstants(body) {
      var k, o :| Block(k, body, o) && (o.Normal? || o.Returned?) && !ConstantReturn(o);
      assert Yields(k, body, None);
    }
  }

  /** For one file that passes un-skipped, with distinct names and no `async` router, the check can be trusted exactly
      when every router's runs end in constants only. */
  lemma EndingsDecide(routers: Node, taskGraph: Node)
    requires RoutersTargetNodes(routers, taskGraph) && DistinctRouters(VisitOrder([routers]))
    requires forall f :: f in Descendants(routers) && IsAnyRouter(f) ==> IsRouter(f)
    ensures Trusted(routers, taskGraph)
      <==> forall f :: f in Descendants(routers) && IsRouter(f) ==> EndsInConstants(f.body)
  {
    hide Descendants, VisitOrder, EndsInConstants, ValidTarget, RoutersTargetNodes, DistinctRouters;
    if forall f :: f in Descendants(routers) && IsRouter(f) ==> EndsInConstants(f.body) {
      forall f, k, t | f in Descendants(routers) && IsAnyRouter(f) && Yields(k, f.body, t)
        ensures t.Some? && ValidTarget(taskGraph, t.value)
      {
        ConstantYields(f.body, k, t);
        RoutersReturnValidTargets(routers, taskGraph, f, k, t.value);
      }
    }
    forall f | f in Descendants(routers) && IsRouter(f) && Trusted(routers, taskGraph)
      ensures EndsInConstants(f.body)
    {
      EndingsHandOver(f.body);
    }
  }

  lemma ConstantYields(body: seq<Node>, k: nat, t: Option<string>)
    requires EndsInConstants(body) && Yields(k, body, t)
    ensures t.Some? && Block(k, body, Returned(Some(Text(t.value))))
  {
    hide Block;
    var o :| Block(k, body, o) && HandsOver(o, t);
    assert ConstantReturn(o);
  }

  /** Whatever else its routers do, a passing file with distinct names returns constants that are valid targets. */
  lemma DistinctNamesSound(routers: Node, taskGraph: Node, f: Node, k: nat, x: string)
    requires HasNode(taskGraph) && Passes(routers, taskGraph) && DistinctRouters(VisitOrder([routers]))
    requires f in Descendants(routers) && IsRouter(f) && Block(k, f.body, Returned(Some(Text(x))))
    ensures ValidTarget(taskGraph, x)
  {
    hide Descendants, VisitOrder, IsRouter, ValidTarget, Block, RoutersTargetNodes, Registers, DistinctRouters;
    RoutersReturnValidTargets(routers, taskGraph, f, k, x);
  }

  // ---------- All files with given routers ----------

  lemma SeenRoutersTrusted(routers: Node, taskGraph: Node)
    requires HasNode(taskGraph) && Passes(routers, taskGraph)
    requires var ks := RouterKinds(VisitOrder([routers])); DistinctKinds(ks) && AllSeen(ks)
    ensures Trusted(routers, taskGraph)
  {
    hide Descendants, VisitOrder, RouterKinds, EndsInConstants, RoutersTargetNodes, Registers, Yields, ValidTarget;
    forall f | f in Descendants(routers) && IsAnyRouter(f) ensures IsRouter(f) && EndsInConstants(f.body) {
      RouterListed(routers, f);
    }
    if RoutersTargetNodes(routers, taskGraph) {
      KindsOnce(VisitOrder([routers]));
      EndingsDecide(routers, taskGraph);
    }
  }

  lemma NoRoutersTrusted(routers: Node, taskGraph: Node)
    requires RouterKinds(VisitOrder([routers])) == []
    ensures Trusted(routers, taskGraph)
  {
    hide Descendants, VisitOrder, IsAnyRouter, RouterKinds, Yields;
    forall f | f in Descendants(routers) ensures !IsAnyRouter(f) {
      if IsAnyRouter(f) {
        RouterListed(routers, f);
      }
    }
  }

  /** The length of the longest registered name. */
  function Longest(visited: seq<Node>): (r: nat)
    ensures forall n :: n in visited && RegisteredName(n).Some? ==> |RegisteredName(n).value| <= r
  {
    if visited == [] then 0 else
    assert visited == [visited[0]] + visited[1..];
    var rest := Longest(visited[1..]);
    if RegisteredName(visited[0]).Some? && |RegisteredName(visited[0]).value| > rest
    then |RegisteredName(visited[0]).value| else rest
  }

  lemma InvalidTargetExists(taskGraph: Node) returns (x: string)
    ensures !ValidTarget(taskGraph, x)
  {
    hide Descendants, VisitOrder, RegisteredName, Registers;
    WalkMembers(taskGraph);
    x := seq(Longest(VisitOrder([taskGraph])) + |"complete"| + 1, _ => 'x');
    forall n | n in Descendants(taskGraph) ensures RegisteredName(n) != Some(x) {
      assert n in VisitOrder([taskGraph]);
    }
    RegistersExactly(taskGraph, x);
  }

  lemma UnseenOrRepeated(ks: seq<Kind>) returns (i: nat)
    requires !DistinctKinds(ks) || !AllSeen(ks)
    ensures i < |ks| && Unseen(ks, i)
  {
    if !AllSeen(ks) {
      i :| 0 <= i < |ks| && !(!ks[i].isAsync && ks[i].constant);
    } else {
      var j;
      i, j :| 0 <= i < j < |ks| && ks[i].name == ks[j].name;
    }
  }

  /** A file of these routers that passes and cannot be trusted. */
  lemma UntrustedFile(ks: seq<Kind>, taskGraph: Node) returns (routers: Node)
    requires RouterNamed(ks) && ks != []
    requires !HasNode(taskGraph) || !DistinctKinds(ks) || !AllSeen(ks)
    ensures RouterKinds(VisitOrder([routers])) == ks && Passes(routers, taskGraph) && !Trusted(routers, taskGraph)
  {
    hide VisitOrder, RouterKinds, RouterNamed, ValidTarget, RoutersTargetNodes, DistinctKinds, AllSeen, Unseen;
    hide Descendants, Yields, IsAnyRouter;
    var x := InvalidTargetExists(taskGraph);
    var i: nat := 0;
    if !DistinctKinds(ks) || !AllSeen(ks) {
      i := UnseenOrRepeated(ks);
    }
    var targets := seq(|ks|, k => if k == i then x else "complete");
    routers := FileOf(ks, targets);
    KindsOfFile(ks, targets);
    RouterMayYield(ks, targets, i);
    if !DistinctKinds(ks) || !AllSeen(ks) {
      UnseenTargetPasses(ks, targets, i, taskGraph);
    }
  }

  /** For given router definitions (their names, whether they are `async`, and whether their runs end in constants
      only), a pass can be trusted on every file with these routers exactly when a node is registered, no name is
      repeated, no router is `async` and all end in constants only; or when there is no router. */
  lemma TrustExactly(ks: seq<Kind>, taskGraph: Node)
    requires RouterNamed(ks)
    ensures (forall routers :: RouterKinds(VisitOrder([routers])) == ks && Passes(routers, taskGraph)
              ==> Trusted(routers, taskGraph))
      <==> ks == [] || (HasNode(taskGraph) && DistinctKinds(ks) && AllSeen(ks))
  {
    hide VisitOrder, RouterKinds, Passes, Trusted, HasNode, RouterNamed, DistinctKinds, AllSeen;
    if ks == [] || (HasNode(taskGraph) && DistinctKinds(ks) && AllSeen(ks)) {
      forall routers | RouterKinds(VisitOrder([routers])) == ks && Passes(routers, taskGraph)
        ensures Trusted(routers, taskGraph)
      {
        if ks == [] {
          NoRoutersTrusted(routers, taskGraph);
        } else {
          SeenRoutersTrusted(routers, taskGraph);
        }
      }
    } else {
      var routers := UntrustedFile(ks, taskGraph);
    }
  }
}
