/** The static checks of `src/evolution/invariants.py` on parsed graph files. */
module GraphInvariants {
  import opened Options
  import opened PythonAst
  import opened Execution

  const ROUTER_SENTINELS := {"complete"}
  const ROUTER_PREFIX := "route_"
  const STATE_CLASS := "AgentState"

  /** A check passes when the invariant holds or when it is skipped. */
  datatype InvariantCheck = InvariantCheck(name: string, passed: bool, skipped: bool)

  // ---------- What the extractors look for ----------

  /** The name registered by an `add_node("<name>", ...)` call. */
  function RegisteredName(n: Node): Option<string>
  {
    if n.Call? && n.func.Attribute? && n.func.attr == "add_node" && n.args != []
       && n.args[0].Constant? && n.args[0].val.Str?
    then Some(n.args[0].val.s) else None
  }

  /** The name of an `add_edge("X", "X")` call. */
  function SelfLoopName(n: Node): (r: Option<string>)
    ensures r.Some? ==> n.Call?
  {
    if n.Call? && n.func.Attribute? && n.func.attr == "add_edge" && |n.args| >= 2
       && n.args[0].Constant? && n.args[1].Constant? && n.args[0].val.Str? && n.args[0].val == n.args[1].val
    then Some(n.args[0].val.s) else None
  }

  function ReturnedLiteral(n: Node): Option<string>
  {
    if n.Return? && n.value.Some? && n.value.value.Constant? && n.value.value.val.Str?
    then Some(n.value.value.val.s) else None
  }

  predicate IsRouter(n: Node): (r: bool)
    ensures r ==> n.FunctionDef?
  {
    n.FunctionDef? && |n.name| >= |ROUTER_PREFIX| && n.name[..|ROUTER_PREFIX|] == ROUTER_PREFIX
  }

  /** A call of the attribute `add_node` with the constant `x` in front. */
  function AddNode(base: Node, x: string, more: seq<Node>, keywords: seq<Node>, line: nat): Node
  {
    Call(Attribute(base, "add_node"), [Constant(Str(x))] + more, keywords, line)
  }

  /** A call of the attribute `add_edge` with the constant `x` twice in front. */
  function AddLoop(base: Node, x: string, more: seq<Node>, keywords: seq<Node>, line: nat): Node
  {
    Call(Attribute(base, "add_edge"), [Constant(Str(x)), Constant(Str(x))] + more, keywords, line)
  }

  /** The tree holds a call of the attribute `add_node` whose first argument is the constant string `x`. */
  ghost predicate Registers(tree: Node, x: string)
  {
    exists base, more, keywords, line: nat ::
      AddNode(base, x, more, keywords, line) in Descendants(tree)
  }

  /** The tree holds, at this line, a call of `add_edge` whose first two arguments are both the constant `x`. */
  ghost predicate SelfLoopAt(tree: Node, x: string, line: nat)
  {
    exists base, more, keywords ::
      AddLoop(base, x, more, keywords, line) in Descendants(tree)
  }

  lemma RegisteredForm(n: Node, x: string)
    ensures RegisteredName(n) == Some(x) ==> n.Call? && n.func.Attribute? && n.args != []
    ensures RegisteredName(n) == Some(x) ==> n == AddNode(n.func.base, x, n.args[1..], n.keywords, n.line)
    ensures forall base, more, keywords, line: nat ::
      n == AddNode(base, x, more, keywords, line) ==> RegisteredName(n) == Some(x)
  {
    if RegisteredName(n) == Some(x) {
      assert n.args == [n.args[0]] + n.args[1..];
    }
  }

  /** The extractor's test finds just these calls. */
  lemma RegistersExactly(tree: Node, x: string)
    ensures Registers(tree, x) <==> exists n :: n in Descendants(tree) && RegisteredName(n) == Some(x)
  {
    hide Descendants, RegisteredName;
    forall n | n in Descendants(tree) && RegisteredName(n) == Some(x) ensures Registers(tree, x) {
      RegisteredForm(n, x);
      assert AddNode(n.func.base, x, n.args[1..], n.keywords, n.line)
        in Descendants(tree);
    }
    if Registers(tree, x) {
      var base, more, keywords, line: nat :|
        AddNode(base, x, more, keywords, line) in Descendants(tree);
      RegisteredForm(AddNode(base, x, more, keywords, line), x);
    }
  }

  lemma SelfLoopForm(n: Node, x: string)
    ensures SelfLoopName(n) == Some(x) ==> n.Call? && n.func.Attribute? && |n.args| >= 2
    ensures SelfLoopName(n) == Some(x) ==> n == AddLoop(n.func.base, x, n.args[2..], n.keywords, n.line)
    ensures forall base, more, keywords, line: nat ::
      n == AddLoop(base, x, more, keywords, line) ==> SelfLoopName(n) == Some(x)
  {
    if SelfLoopName(n) == Some(x) {
      assert n.args == [n.args[0], n.args[1]] + n.args[2..];
    }
  }

  lemma SelfLoopExactly(tree: Node, x: string, line: nat)
    ensures SelfLoopAt(tree, x, line)
      <==> exists n :: n in Descendants(tree) && SelfLoopName(n) == Some(x) && n.line == line
  {
    hide Descendants, SelfLoopName;
    forall n | n in Descendants(tree) && SelfLoopName(n) == Some(x) && n.line == line
      ensures SelfLoopAt(tree, x, line)
    {
      SelfLoopForm(n, x);
      assert AddLoop(n.func.base, x, n.args[2..], n.keywords, line)
        in Descendants(tree);
    }
    if SelfLoopAt(tree, x, line) {
      var base, more, keywords :|
        AddLoop(base, x, more, keywords, line) in Descendants(tree);
      SelfLoopForm(AddLoop(base, x, more, keywords, line), x);
    }
  }

  /** A router is a plain function whose name starts with "route_". */
  lemma RouterForm(n: Node)
    ensures IsRouter(n)
      <==> exists rest, header, body, trailer :: n == FunctionDef("route_" + rest, header, body, trailer)
  {
    if IsRouter(n) {
      var rest := n.name[|ROUTER_PREFIX|..];
      assert n.name == "route_" + rest;
      assert n == FunctionDef("route_" + rest, n.header, n.body, n.trailer);
    }
    forall rest, header, body, trailer | n == FunctionDef("route_" + rest, header, body, trailer) ensures IsRouter(n) {
      assert n.name[..6] == "route_";
    }
  }

  /** `x` is a literal of a `return` somewhere in the body. */
  ghost predicate Literal(body: seq<Node>, x: string)
  {
    ReturnIn(body, Some(Constant(Str(x))))
  }

  // ---------- Extractors ----------

  method ExtractNodeNames(tree: Option<Node>) returns (r: Option<set<string>>)
    ensures r.None? <==> tree.None? || forall x :: !Registers(tree.value, x)
    ensures r.Some? ==> forall x :: x in r.value <==> Registers(tree.value, x)
  {
    hide Descendants, VisitOrder, RegisteredName, Registers;
    if tree.None? {
      return None;
    }
    var visited := Walk(tree.value);
    WalkMembers(tree.value);
    var names := {};
    for i := 0 to |visited|
      invariant forall x :: x in names <==> exists j :: 0 <= j < i && RegisteredName(visited[j]) == Some(x)
    {
      var found := RegisteredName(visited[i]);
      if found.Some? {
        names := names + {found.value};
      }
    }
    forall x ensures x in names <==> Registers(tree.value, x) {
      if Registers(tree.value, x) {
        RegistersExactly(tree.value, x);
        var n :| n in Descendants(tree.value) && RegisteredName(n) == Some(x);
        assert n in visited;
      }
      if x in names {
        var j :| 0 <= j < |visited| && RegisteredName(visited[j]) == Some(x);
        assert visited[j] in visited;
        RegistersExactly(tree.value, x);
      }
    }
    return if names == {} then None else Some(names);
  }

  lemma NoLiteral(body: seq<Node>)
    requires body == []
    ensures forall x :: !Literal(body, x)
  {
  }

  method ReturnLiterals(body: seq<Node>) returns (literals: set<string>)
    ensures forall x :: x in literals <==> Literal(body, x)
  {
    hide Descendants, VisitOrder, Literal, ReturnedLiteral;
    literals := {};
    NoLiteral(body[..0]);
    for i := 0 to |body|
      invariant forall x :: x in literals <==> Literal(body[..i], x)
    {
      var visited := Walk(body[i]);
      WalkMembers(body[i]);
      ghost var before := literals;
      for j := 0 to |visited|
        invariant forall x :: x in literals <==>
          x in before || exists l :: 0 <= l < j && ReturnedLiteral(visited[l]) == Some(x)
      {
        var found := ReturnedLiteral(visited[j]);
        if found.Some? {
          literals := literals + {found.value};
        }
      }
      forall x ensures x in literals <==> Literal(body[..i + 1], x) {
        LiteralSnoc(body, i, visited, x);
      }
    }
    assert body[..|body|] == body;
  }

  lemma LiteralSnoc(body: seq<Node>, i: nat, visited: seq<Node>, x: string)
    requires i < |body| && forall n :: n in visited <==> n in Descendants(body[i])
    ensures Literal(body[..i + 1], x)
      <==> Literal(body[..i], x) || exists l :: 0 <= l < |visited| && ReturnedLiteral(visited[l]) == Some(x)
  {
    hide Descendants;
    var r := Return(Some(Constant(Str(x))));
    OnlyReturn(x);
    assert r in visited <==> exists l :: 0 <= l < |visited| && ReturnedLiteral(visited[l]) == Some(x);
    var front, b := body[..i], body[..i + 1];
    assert b[i] == body[i] && forall k :: 0 <= k < i ==> b[k] == front[k];
  }

  lemma OnlyReturn(x: string)
    ensures forall n :: ReturnedLiteral(n) == Some(x) <==> n == Return(Some(Constant(Str(x))))
  {
  }

  /** The last router definition of this name in walk order, if any. */
  ghost function LastRouter(visited: seq<Node>, name: string): (f: Option<Node>)
    ensures f.Some? ==> IsRouter(f.value) && f.value.name == name && f.value in visited
  {
    if visited == [] then None else
    var n := |visited| - 1;
    if IsRouter(visited[n]) && visited[n].name == name then Some(visited[n]) else LastRouter(visited[..n], name)
  }

  /** The map keeps, for each router name, the literals of its last definition visited. */
  ghost predicate MapOf(visited: seq<Node>, m: map<string, set<string>>)
  {
    forall name ::
      match LastRouter(visited, name)
      case None => name !in m
      case Some(f) => name in m && forall x :: x in m[name] <==> Literal(f.body, x)
  }

  lemma MapSnoc(visited: seq<Node>, i: nat, m: map<string, set<string>>, literals: set<string>)
    requires i < |visited| && MapOf(visited[..i], m)
    requires IsRouter(visited[i]) ==> forall x :: x in literals <==> Literal(visited[i].body, x)
    ensures MapOf(visited[..i + 1], if IsRouter(visited[i]) then m[visited[i].name := literals] else m)
  {
    hide IsRouter, Literal;
    assert visited[..i + 1][..i] == visited[..i];
    forall name
      ensures LastRouter(visited[..i + 1], name)
           == if IsRouter(visited[i]) && visited[i].name == name then Some(visited[i])
              else LastRouter(visited[..i], name)
    {
    }
  }

  lemma EmptyMap(visited: seq<Node>)
    requires visited == []
    ensures MapOf(visited, map[])
  {
  }

  method ExtractRouterLiterals(tree: Option<Node>) returns (r: Option<map<string, set<string>>>)
    ensures r.None? <==> tree.None? || forall n :: n in Descendants(tree.value) ==> !IsRouter(n)
    ensures r.Some? ==> MapOf(VisitOrder([tree.value]), r.value)
  {
    hide Descendants, VisitOrder, IsRouter, MapOf, Literal;
    if tree.None? {
      return None;
    }
    var visited := Walk(tree.value);
    WalkMembers(tree.value);
    EmptyMap(visited[..0]);
    var result: map<string, set<string>> := map[];
    for i := 0 to |visited|
      invariant MapOf(visited[..i], result)
      invariant result == map[] <==> forall j :: 0 <= j < i ==> !IsRouter(visited[j])
    {
      var node := visited[i];
      if IsRouter(node) {
        var literals := ReturnLiterals(node.body);
        MapSnoc(visited, i, result, literals);
        result := result[node.name := literals];
        assert node.name in result;
      } else {
        MapSnoc(visited, i, result, {});
      }
    }
    assert visited[..|visited|] == visited;
    assert forall j :: 0 <= j < |visited| ==> visited[j] in visited;
    return if result == map[] then None else Some(result);
  }

  // ---------- The checks ----------

  /** A literal a router may return. */
  ghost predicate ValidTarget(taskGraph: Node, x: string)
  {
    Registers(taskGraph, x) || x == "complete"
  }

  /** There is nothing to compare: a file is absent, or no router or no node is found in it. */
  ghost predicate RoutersSkipped(routers: Option<Node>, taskGraph: Option<Node>)
  {
    || routers.None? || taskGraph.None?
    || (forall n :: n in Descendants(routers.value) ==> !IsRouter(n))
    || (forall x :: !Registers(taskGraph.value, x))
  }

  /** The literals of the last definition of every router name are valid targets. */
  ghost predicate RoutersTargetNodes(routers: Node, taskGraph: Node)
  {
    forall name, x ::
      LastRouter(VisitOrder([routers]), name).Some? && Literal(LastRouter(VisitOrder([routers]), name).value.body, x)
      ==> ValidTarget(taskGraph, x)
  }

  method CheckRouters(routers: Option<Node>, taskGraph: Option<Node>) returns (c: InvariantCheck)
    ensures c.name == "routers_valid"
    ensures c.skipped <==> RoutersSkipped(routers, taskGraph)
    ensures c.passed <==> c.skipped || RoutersTargetNodes(routers.value, taskGraph.value)
  {
    hide Descendants, VisitOrder, Literal, Registers, IsRouter, LastRouter;
    var routerMap := ExtractRouterLiterals(routers);
    var knownNodes := ExtractNodeNames(taskGraph);
    if routerMap.None? || knownNodes.None? {
      return InvariantCheck("routers_valid", true, true);
    }
    var validTargets := knownNodes.value + ROUTER_SENTINELS;
    var bad := set f, x | f in routerMap.value && x in routerMap.value[f] && x !in validTargets :: (f, x);
    c := InvariantCheck("routers_valid", bad == {}, false);
    ghost var visited := VisitOrder([routers.value]);
    if bad == {} {
      forall name, x | LastRouter(visited, name).Some? && Literal(LastRouter(visited, name).value.body, x)
        ensures ValidTarget(taskGraph.value, x)
      {
        assert (name, x) !in bad;
      }
    } else {
      ghost var pair :| pair in bad;
      assert Literal(LastRouter(visited, pair.0).value.body, pair.1) && !ValidTarget(taskGraph.value, pair.1);
    }
  }

  ghost predicate HasSelfLoop(tree: Node)
  {
    exists x, line: nat :: SelfLoopAt(tree, x, line)
  }

  method DetectSelfLoops(tree: Option<Node>) returns (loops: seq<(string, nat)>)
    ensures loops == [] <==> tree.None? || !HasSelfLoop(tree.value)
    ensures tree.Some? ==> forall x, line: nat :: (x, line) in loops <==> SelfLoopAt(tree.value, x, line)
  {
    hide Descendants, VisitOrder, SelfLoopName, SelfLoopAt, HasSelfLoop;
    loops := [];
    if tree.None? {
      return;
    }
    var visited := Walk(tree.value);
    WalkMembers(tree.value);
    for i := 0 to |visited|
      invariant forall x, line :: (x, line) in loops <==>
        exists j :: 0 <= j < i && SelfLoopName(visited[j]) == Some(x) && visited[j].line == line
    {
      var found := SelfLoopName(visited[i]);
      if found.Some? {
        loops := loops + [(found.value, visited[i].line)];
      }
    }
    LoopsOfTree(tree.value, visited, loops);
  }

  lemma LoopsOfTree(tree: Node, visited: seq<Node>, loops: seq<(string, nat)>)
    requires forall n :: n in visited <==> n in Descendants(tree)
    requires forall x, line :: (x, line) in loops <==>
      exists j :: 0 <= j < |visited| && SelfLoopName(visited[j]) == Some(x) && visited[j].line == line
    ensures loops == [] <==> !HasSelfLoop(tree)
    ensures forall x, line: nat :: (x, line) in loops <==> SelfLoopAt(tree, x, line)
  {
    hide Descendants, SelfLoopName, SelfLoopAt;
    forall x, line: nat ensures (x, line) in loops <==> SelfLoopAt(tree, x, line) {
      SelfLoopExactly(tree, x, line);
      if n :| n in Descendants(tree) && SelfLoopName(n) == Some(x) && n.line == line {
        assert n in visited;
      }
      if (x, line) in loops {
        var j :| 0 <= j < |visited| && SelfLoopName(visited[j]) == Some(x) && visited[j].line == line;
        assert visited[j] in visited;
      }
    }
    if loops != [] {
      assert (loops[0].0, loops[0].1) in loops;
    }
  }

  /** The annotated plain names in the first state class in walk order. */
  method ExtractStateKeys(tree: Option<Node>) returns (keys: Option<set<string>>)
    ensures keys == if tree.None? then None else StateKeys(VisitOrder([tree.value]))
    ensures keys.None? <==> tree.None? || forall n :: n in Descendants(tree.value) ==> !IsStateClass(n)
    ensures keys.Some? ==> exists i: nat :: FirstStateClass(VisitOrder([tree.value]), i, keys.value)
  {
    if tree.None? {
      return None;
    }
    hide VisitOrder, FieldNames, FirstStateClass, Descendants, IsStateClass;
    var visited := Walk(tree.value);
    WalkMembers(tree.value);
    FirstFound(visited);
    keys := FirstStateKeys(visited);
  }

  /** The fields of the first state class among the nodes visited. */
  method FirstStateKeys(visited: seq<Node>) returns (keys: Option<set<string>>)
    ensures keys == StateKeys(visited)
  {
    hide FieldNames;
    for i := 0 to |visited|
      invariant StateKeys(visited) == StateKeys(visited[i..])
    {
      var node := visited[i];
      assert visited[i..] == [node] + visited[i + 1..];
      if node.ClassDef? && node.name == STATE_CLASS {
        var found := Fields(node.body);
        return Some(found);
      }
    }
    return None;
  }

  /** The annotated plain names among the statements of a class body. */
  method Fields(body: seq<Node>) returns (keys: set<string>)
    ensures keys == FieldNames(body)
  {
    keys := {};
    for j := 0 to |body|
      invariant keys == FieldNames(body[..j])
    {
      assert body[..j + 1] == body[..j] + [body[j]];
      var stmt := body[j];
      if stmt.AnnAssign? && stmt.target.Name? {
        keys := keys + {stmt.target.id};
      }
    }
    assert body[..|body|] == body;
  }

  ghost function FieldNames(body: seq<Node>): set<string>
  {
    set stmt | stmt in body && stmt.AnnAssign? && stmt.target.Name? :: stmt.target.id
  }

  predicate IsStateClass(n: Node)
  {
    n.ClassDef? && n.name == STATE_CLASS
  }

  /** The state class is the class "AgentState", and its fields are its annotated plain names. */
  lemma StateClassForm(n: Node, x: string)
    ensures IsStateClass(n)
      <==> exists header, body, trailer :: n == ClassDef("AgentState", header, body, trailer)
    ensures IsStateClass(n) ==>
      (x in FieldNames(n.body) <==> exists annotation, init :: AnnAssign(Name(x), annotation, init) in n.body)
  {
    if IsStateClass(n) {
      assert n == ClassDef("AgentState", n.header, n.body, n.trailer);
      FieldForm(n.body, x);
    }
  }

  lemma FieldForm(body: seq<Node>, x: string)
    ensures x in FieldNames(body) <==> exists annotation, init :: AnnAssign(Name(x), annotation, init) in body
  {
    if x in FieldNames(body) {
      var stmt :| stmt in body && stmt.AnnAssign? && stmt.target.Name? && stmt.target.id == x;
      assert AnnAssign(Name(x), stmt.annotation, stmt.init) in body;
    }
  }

  /** The state class visited first is at place `i`, and declares these fields. */
  ghost predicate FirstStateClass(visited: seq<Node>, i: nat, keys: set<string>)
  {
    && i < |visited| && IsStateClass(visited[i]) && FieldNames(visited[i].body) == keys
    && forall j :: 0 <= j < i ==> !IsStateClass(visited[j])
  }

  lemma {:induction false} FirstFound(visited: seq<Node>)
    ensures StateKeys(visited).None? <==> forall n :: n in visited ==> !IsStateClass(n)
    ensures StateKeys(visited).Some? ==> exists i: nat :: FirstStateClass(visited, i, StateKeys(visited).value)
  {
    hide FieldNames;
    if visited != [] {
      var rest := visited[1..];
      FirstFound(rest);
      assert visited == [visited[0]] + rest;
      if IsStateClass(visited[0]) {
        assert FirstStateClass(visited, 0, StateKeys(visited).value);
      } else if StateKeys(rest).Some? {
        var i: nat :| FirstStateClass(rest, i, StateKeys(rest).value);
        assert FirstStateClass(visited, i + 1, StateKeys(visited).value);
      }
    }
  }

  ghost function StateKeys(visited: seq<Node>): Option<set<string>>
  {
    if visited == [] then None
    else if IsStateClass(visited[0]) then Some(FieldNames(visited[0].body))
    else StateKeys(visited[1..])
  }

  /** The state class keeps every baseline key, or one side is missing. */
  ghost predicate SchemaKept(baseline: Option<set<string>>, state: Option<Node>)
  {
    var mutated := if state.None? then None else StateKeys(VisitOrder([state.value]));
    baseline.Some? && mutated.Some? ==> baseline.value <= mutated.value
  }

  method CheckStateSchema(state: Option<Node>, baseline: Option<set<string>>) returns (c: InvariantCheck)
    ensures c.name == "state_schema_compatible" && (c.passed <==> SchemaKept(baseline, state))
    ensures c.skipped <==> baseline.None? || state.None? || StateKeys(VisitOrder([state.value])).None?
  {
    var mutated := ExtractStateKeys(state);
    if baseline.None? || mutated.None? {
      return InvariantCheck("state_schema_compatible", true, true);
    }
    var removed := baseline.value - mutated.value;
    c := InvariantCheck("state_schema_compatible", removed == {}, false);
    assert forall key :: key in removed <==> key in baseline.value && key !in mutated.value;
    if removed != {} {
      ghost var key :| key in removed;
      assert key in baseline.value && key !in mutated.value;
    }
  }

  method CheckNoSelfLoops(taskGraph: Option<Node>) returns (c: InvariantCheck)
    ensures c.name == "no_self_loops" && !c.skipped && (c.passed <==> taskGraph.None? || !HasSelfLoop(taskGraph.value))
  {
    var loops := DetectSelfLoops(taskGraph);
    c := InvariantCheck("no_self_loops", loops == [], false);
  }

  /** The report passes when every one of its checks does. */
  method VerifyGraphInvariants(compiles: InvariantCheck, imports: InvariantCheck, state: Option<Node>,
                               routers: Option<Node>,
                               taskGraph: Option<Node>, baseline: Option<set<string>>)
    returns (checks: seq<InvariantCheck>, passed: bool)
    ensures |checks| == 5 && checks[0] == compiles && checks[1] == imports
    ensures checks[2].name == "state_schema_compatible"
    ensures checks[3].name == "routers_valid" && checks[4].name == "no_self_loops"
    ensures passed <==> forall i :: 0 <= i < |checks| ==> checks[i].passed
    ensures passed <==>
      && compiles.passed && imports.passed
      && SchemaKept(baseline, state)
      && (RoutersSkipped(routers, taskGraph) || RoutersTargetNodes(routers.value, taskGraph.value))
      && (taskGraph.None? || !HasSelfLoop(taskGraph.value))
  {
    var schema := CheckStateSchema(state, baseline);
    var targets := CheckRouters(routers, taskGraph);
    var loops := CheckNoSelfLoops(taskGraph);
    checks := [compiles, imports, schema, targets, loops];
    passed := forall i :: 0 <= i < |checks| ==> checks[i].passed;
    assert passed ==> checks[0].passed && checks[1].passed && checks[2].passed && checks[3].passed && checks[4].passed;
  }

  // ---------- What a passing router check means at run time ----------

  /** No two router definitions of the file share a name. */
  ghost predicate DistinctRouters(visited: seq<Node>)
  {
    forall i, j :: 0 <= i < j < |visited| && IsRouter(visited[i]) && IsRouter(visited[j])
      ==> visited[i].name != visited[j].name
  }

  lemma {:induction false} OnlyDefinition(visited: seq<Node>, k: nat)
    requires DistinctRouters(visited) && k < |visited| && IsRouter(visited[k])
    ensures LastRouter(visited, visited[k].name) == Some(visited[k])
    decreases |visited|
  {
    var n := |visited| - 1;
    if k < n {
      OnlyDefinition(visited[..n], k);
    }
  }

  /** When the check passes un-skipped, a router run that ends in a constant-string return names a registered
      node or a sentinel, however its branches, loops and handlers are nested. */
  lemma RoutersReturnValidTargets(routers: Node, taskGraph: Node, f: Node, k: nat, x: string)
    requires RoutersTargetNodes(routers, taskGraph)
    requires DistinctRouters(VisitOrder([routers])) && f in Descendants(routers) && IsRouter(f)
    requires Block(k, f.body, Returned(Some(Constant(Str(x)))))
    ensures ValidTarget(taskGraph, x)
  {
    var visited := VisitOrder([routers]);
    WalkMembers(routers);
    var i :| 0 <= i < |visited| && visited[i] == f;
    OnlyDefinition(visited, i);
    BlockReturns(k, f.body, Some(Constant(Str(x))));
    assert Literal(f.body, x);
  }

  /** The same holds for the last definition of a repeated name. */
  lemma LastRouterReturnsValidTargets(routers: Node, taskGraph: Node, name: string, k: nat, x: string)
    requires RoutersTargetNodes(routers, taskGraph) && LastRouter(VisitOrder([routers]), name).Some?
    requires Block(k, LastRouter(VisitOrder([routers]), name).value.body, Returned(Some(Constant(Str(x)))))
    ensures ValidTarget(taskGraph, x)
  {
    var f := LastRouter(VisitOrder([routers]), name).value;
    BlockReturns(k, f.body, Some(Constant(Str(x))));
    assert Literal(f.body, x);
  }
}
