/** Files of routers of given names and kinds, and the walk over them. */
module RouterFiles {
  import opened Options
  import opened PythonAst
  import opened Execution
  import opened GraphInvariants

  /** How a router is defined, and whether its runs end in constants only. */
  datatype Kind = Kind(name: string, isAsync: bool, constant: bool)

  predicate RouterName(name: string)
  {
    |name| >= |ROUTER_PREFIX| && name[..|ROUTER_PREFIX|] == ROUTER_PREFIX
  }

  /** A router definition, whether the check looks at it or, being `async`, passes it over. */
  predicate IsAnyRouter(n: Node)
  {
    (n.FunctionDef? || n.AsyncFunctionDef?) && RouterName(n.name)
  }

  ghost function KindOf(n: Node): Kind
    requires IsAnyRouter(n)
  {
    Kind(n.name, n.AsyncFunctionDef?, EndsInConstants(n.body))
  }

  /** The router definitions among the nodes visited, in order. */
  ghost function RouterKinds(visited: seq<Node>): seq<Kind>
  {
    if visited == [] then [] else
    var n := |visited| - 1;
    RouterKinds(visited[..n]) + if IsAnyRouter(visited[n]) then [KindOf(visited[n])] else []
  }

  // ---------- One router ----------

  function Text(x: string): Node
  {
    Constant(Str(x))
  }

  function ReturnsText(x: string): Node
  {
    Return(Some(Text(x)))
  }

  /** Returns what a helper makes of it. */
  function ReturnsHelper(): Node
  {
    Return(Some(Call(Name("helper"), [], [], 1)))
  }

  /** One return: of a constant, or of a call. */
  function BodyOf(constant: bool, x: string): (body: seq<Node>)
    ensures |body| == 1
  {
    if constant then [ReturnsText(x)] else [ReturnsHelper()]
  }

  function RouterOf(k: Kind, x: string): Node
  {
    if k.isAsync then AsyncFunctionDef(k.name, [], BodyOf(k.constant, x), [])
    else FunctionDef(k.name, [], BodyOf(k.constant, x), [])
  }

  lemma ReturnRuns(value: Option<Node>)
    ensures forall k, o :: Block(k, [Return(value)], o) <==> o == Returned(value) || o == Raised
  {
    forall k, o ensures Block(k, [Return(value)], o) <==> o == Returned(value) || o == Raised {
      assert !Exec(k, Return(value), Normal);
    }
  }

  lemma KindOfRouter(k: Kind, x: string)
    requires RouterName(k.name)
    ensures IsAnyRouter(RouterOf(k, x)) && KindOf(RouterOf(k, x)) == k
  {
    hide Block;
    ReturnRuns(Some(Text(x)));
    ReturnRuns(ReturnsHelper().value);
    assert Block(0, [ReturnsHelper()], Returned(ReturnsHelper().value));
  }

  /** What such a router may hand over: its constant, or anything. */
  lemma RouterYields(k: Kind, x: string)
    ensures Yields(0, RouterOf(k, x).body, Some(x))
    ensures !k.constant ==> Yields(0, RouterOf(k, x).body, None)
  {
    hide Block;
    ReturnRuns(Some(Text(x)));
    ReturnRuns(ReturnsHelper().value);
    var o := Returned(if k.constant then Some(Text(x)) else ReturnsHelper().value);
    assert Block(0, RouterOf(k, x).body, o) && HandsOver(o, Some(x));
  }

  lemma ReturnsTextDescendants(x: string)
    ensures Descendants(ReturnsText(x)) == multiset{ReturnsText(x), Text(x)}
  {
    LeafDescendants(Text(x));
    OnlyChildDescendants(ReturnsText(x), Text(x));
  }

  lemma ReturnsHelperDescendants()
    ensures var call := Call(Name("helper"), [], [], 1);
      Descendants(ReturnsHelper()) == multiset{ReturnsHelper(), call, Name("helper")}
  {
    var call := Call(Name("helper"), [], [], 1);
    LeafDescendants(Name("helper"));
    OnlyChildDescendants(call, Name("helper"));
    OnlyChildDescendants(ReturnsHelper(), call);
  }

  lemma BodyLiterals(constant: bool, x: string)
    ensures forall y :: Literal(BodyOf(constant, x), y) <==> constant && y == x
  {
    hide Descendants;
    ReturnsTextDescendants(x);
    ReturnsHelperDescendants();
    var body := BodyOf(constant, x);
    forall y ensures Literal(body, y) <==> constant && y == x {
      assert Literal(body, y) <==> ReturnsText(y) in Descendants(body[0]);
    }
  }

  // ---------- A file of routers ----------

  function Routers(ks: seq<Kind>, targets: seq<string>): (r: seq<Node>)
    requires |ks| == |targets|
    ensures |r| == |ks| && forall i :: 0 <= i < |ks| ==> r[i] == RouterOf(ks[i], targets[i])
  {
    seq(|ks|, i requires 0 <= i < |ks| => RouterOf(ks[i], targets[i]))
  }

  function FileOf(ks: seq<Kind>, targets: seq<string>): Node
    requires |ks| == |targets|
  {
    Module(Routers(ks, targets))
  }

  ghost predicate RouterNamed(ks: seq<Kind>)
  {
    forall i :: 0 <= i < |ks| ==> RouterName(ks[i].name)
  }

  ghost function ChildrenAll(s: seq<Node>): seq<Node>
  {
    if s == [] then [] else Children(s[0]) + ChildrenAll(s[1..])
  }

  /** The walk visits a whole level before the next one. */
  lemma {:induction false} VisitLevel(s: seq<Node>, t: seq<Node>)
    ensures VisitOrder(s + t) == s + VisitOrder(t + ChildrenAll(s))
  {
    hide VisitOrder, Children;
    if s == [] {
      assert s + t == t && t + [] == t;
    } else {
      var n, rest := s[0], s[1..];
      var next := t + Children(n);
      NextVisited(s + t, n, rest + next);
      VisitLevel(rest, next);
      assert (s + t)[1..] + Children(n) == rest + next;
      assert next + ChildrenAll(rest) == t + ChildrenAll(s);
      assert s == [n] + rest;
    }
  }

  /** Only returns of constants and of helper calls. */
  ghost predicate PlainReturns(s: seq<Node>)
  {
    forall i :: 0 <= i < |s| ==> s[i] == ReturnsHelper() || exists x :: s[i] == ReturnsText(x)
  }

  lemma {:induction false} ReturnsHoldNone(s: seq<Node>)
    requires PlainReturns(s)
    ensures forall n :: n in DescendantsAll(s) ==> !IsAnyRouter(n)
  {
    hide Descendants;
    if s != [] {
      if s[0] == ReturnsHelper() {
        ReturnsHelperDescendants();
      } else {
        var x :| s[0] == ReturnsText(x);
        ReturnsTextDescendants(x);
      }
      assert forall i :: 0 <= i < |s[1..]| ==> s[1..][i] == s[i + 1];
      ReturnsHoldNone(s[1..]);
    }
  }

  lemma {:induction false} BodiesReturn(ks: seq<Kind>, targets: seq<string>)
    requires |ks| == |targets|
    ensures PlainReturns(ChildrenAll(Routers(ks, targets)))
  {
    var fs := Routers(ks, targets);
    if ks != [] {
      assert fs[1..] == Routers(ks[1..], targets[1..]);
      BodiesReturn(ks[1..], targets[1..]);
      assert Children(fs[0]) == BodyOf(ks[0].constant, targets[0]);
    }
  }

  lemma VisitModule(fs: seq<Node>)
    ensures VisitOrder([Module(fs)]) == ([Module(fs)] + fs) + VisitOrder(ChildrenAll(fs))
  {
    hide VisitOrder, ChildrenAll;
    NextVisited([Module(fs)], Module(fs), fs);
    VisitLevel(fs, []);
    assert fs + [] == fs && [] + ChildrenAll(fs) == ChildrenAll(fs);
  }

  /** The walk of such a file: the module, its routers in order, and then no router. */
  lemma WalkOfFile(ks: seq<Kind>, targets: seq<string>) returns (rest: seq<Node>)
    requires |ks| == |targets|
    ensures VisitOrder([FileOf(ks, targets)]) == ([FileOf(ks, targets)] + Routers(ks, targets)) + rest
    ensures forall n :: n in rest ==> !IsAnyRouter(n)
  {
    hide VisitOrder, Descendants, DescendantsAll, IsAnyRouter, ChildrenAll, RouterOf, PlainReturns;
    var fs := Routers(ks, targets);
    rest := VisitOrder(ChildrenAll(fs));
    VisitModule(fs);
    BodiesReturn(ks, targets);
    ReturnsHoldNone(ChildrenAll(fs));
    WalkVisitsDescendants(ChildrenAll(fs));
    forall n | n in rest ensures !IsAnyRouter(n) {
      assert n in multiset(rest);
    }
  }

  lemma {:induction false} KindsConcat(s: seq<Node>, t: seq<Node>)
    ensures RouterKinds(s + t) == RouterKinds(s) + RouterKinds(t)
  {
    hide IsAnyRouter, KindOf;
    if t == [] {
      assert s + t == s && RouterKinds(s) + [] == RouterKinds(s);
    } else {
      var m := |t| - 1;
      assert (s + t)[..|s + t| - 1] == s + t[..m];
      KindsConcat(s, t[..m]);
    }
  }

  lemma {:induction false} NoKinds(rest: seq<Node>)
    requires forall n :: n in rest ==> !IsAnyRouter(n)
    ensures RouterKinds(rest) == []
  {
    hide IsAnyRouter, KindOf;
    if rest != [] {
      var m := |rest| - 1;
      assert rest[m] in rest;
      NoKinds(rest[..m]);
    }
  }

  lemma OneKind(f: Node)
    requires IsAnyRouter(f)
    ensures RouterKinds([f]) == [KindOf(f)]
  {
    assert [f][..0] == [];
  }

  lemma {:induction false} KindsOfRouters(ks: seq<Kind>, targets: seq<string>)
    requires |ks| == |targets| && RouterNamed(ks)
    ensures RouterKinds(Routers(ks, targets)) == ks
  {
    hide IsAnyRouter, KindOf, RouterName, RouterOf;
    if ks != [] {
      var n := |ks| - 1;
      var front, f := Routers(ks[..n], targets[..n]), RouterOf(ks[n], targets[n]);
      KindsOfRouters(ks[..n], targets[..n]);
      KindOfRouter(ks[n], targets[n]);
      OneKind(f);
      KindsConcat(front, [f]);
      assert Routers(ks, targets) == front + [f];
      assert ks == ks[..n] + [ks[n]];
    }
  }

  lemma KindsOfFile(ks: seq<Kind>, targets: seq<string>)
    requires |ks| == |targets| && RouterNamed(ks)
    ensures RouterKinds(VisitOrder([FileOf(ks, targets)])) == ks
  {
    hide VisitOrder, RouterKinds, RouterNamed;
    var rest := WalkOfFile(ks, targets);
    var m, fs := FileOf(ks, targets), Routers(ks, targets);
    KindsConcat([m] + fs, rest);
    KindsConcat([m], fs);
    NoKinds(rest);
    NoKinds([m]);
    KindsOfRouters(ks, targets);
  }

  lemma SelfDescendant(n: Node)
    ensures n in Descendants(n)
  {
  }

  lemma RouterInFile(ks: seq<Kind>, targets: seq<string>, i: nat)
    requires i < |ks| == |targets| && RouterName(ks[i].name)
    ensures RouterOf(ks[i], targets[i]) in Descendants(FileOf(ks, targets)) && IsAnyRouter(RouterOf(ks[i], targets[i]))
  {
    hide Descendants;
    var fs := Routers(ks, targets);
    SelfDescendant(fs[i]);
    DescendantOfChild(Module(fs), i, fs[i]);
  }

  // ---------- What the check makes of such a file ----------

  /** The last definition of a name is followed by no other. */
  lemma {:induction false} LastRouterPlace(visited: seq<Node>, name: string) returns (q: nat)
    requires LastRouter(visited, name).Some?
    ensures q < |visited| && visited[q] == LastRouter(visited, name).value
    ensures forall p :: q < p < |visited| && IsRouter(visited[p]) ==> visited[p].name != name
  {
    hide IsRouter;
    var n := |visited| - 1;
    if IsRouter(visited[n]) && visited[n].name == name {
      q := n;
    } else {
      q := LastRouterPlace(visited[..n], name);
    }
  }

  lemma {:induction false} RoutersBefore(before: seq<Node>, after: seq<Node>, name: string)
    requires forall n :: n in after ==> !IsRouter(n)
    ensures LastRouter(before + after, name) == LastRouter(before, name)
    decreases |after|
  {
    if after == [] {
      assert before + after == before;
    } else {
      var m := |after| - 1;
      assert (before + after)[..|before + after| - 1] == before + after[..m];
      assert after[m] in after;
      RoutersBefore(before, after[..m], name);
    }
  }

  /** The check does not see the target of router `i`: it returns a call, is `async`, or is defined again later. */
  ghost predicate Unseen(ks: seq<Kind>, i: nat)
    requires i < |ks|
  {
    (!ks[i].constant || ks[i].isAsync || exists j :: i < j < |ks| && ks[j].name == ks[i].name && !ks[j].isAsync)
  }

  lemma SentinelIsValid(taskGraph: Node)
    ensures ValidTarget(taskGraph, "complete")
  {
  }

  /** The last definition of a name in the walk of the file, if its literals are seen, is not an unseen one. */
  lemma SeenPlace(ks: seq<Kind>, targets: seq<string>, i: nat, name: string) returns (q: nat)
    requires i < |ks| == |targets| && RouterNamed(ks) && Unseen(ks, i)
    requires LastRouter(VisitOrder([FileOf(ks, targets)]), name).Some?
    ensures q < |ks| && LastRouter(VisitOrder([FileOf(ks, targets)]), name).value == RouterOf(ks[q], targets[q])
    ensures q != i || !ks[q].constant
  {
    hide VisitOrder, LastRouter;
    var m, fs := FileOf(ks, targets), Routers(ks, targets);
    var rest := WalkOfFile(ks, targets);
    RoutersBefore([m] + fs, rest, name);
    var p := LastRouterPlace([m] + fs, name);
    assert p > 0 && ([m] + fs)[p] == fs[p - 1];
    q := p - 1;
    forall j | q < j < |ks| && !ks[j].isAsync ensures ks[j].name != ks[q].name {
      assert ([m] + fs)[j + 1] == fs[j] && IsRouter(fs[j]);
    }
  }

  /** So the file passes whatever that target is, if all others are the sentinel. */
  lemma UnseenTargetPasses(ks: seq<Kind>, targets: seq<string>, i: nat, taskGraph: Node)
    requires i < |ks| == |targets| && RouterNamed(ks) && Unseen(ks, i)
    requires forall k :: 0 <= k < |ks| && k != i ==> targets[k] == "complete"
    ensures RoutersTargetNodes(FileOf(ks, targets), taskGraph)
  {
    hide VisitOrder, LastRouter, Literal, ValidTarget, RouterNamed, Unseen;
    var visited := VisitOrder([FileOf(ks, targets)]);
    forall name, x | LastRouter(visited, name).Some? && Literal(LastRouter(visited, name).value.body, x)
      ensures ValidTarget(taskGraph, x)
    {
      var q := SeenPlace(ks, targets, i, name);
      BodyLiterals(ks[q].constant, targets[q]);
      SentinelIsValid(taskGraph);
    }
  }
}
