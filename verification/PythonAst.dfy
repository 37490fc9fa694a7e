/** The part of Python's `ast` the graph verifier looks at, and `ast.walk`. */
module PythonAst {
  import opened Options

  datatype Const = Str(s: string) | NotStr

  /** `header` and `trailer` are the child nodes before and after a body: arguments, bases, decorators, patterns;
      `star` marks a `try` with `except*` handlers. */
  datatype Node =
    | Module(body: seq<Node>)
    | FunctionDef(name: string, header: seq<Node>, body: seq<Node>, trailer: seq<Node>)
    | AsyncFunctionDef(name: string, header: seq<Node>, body: seq<Node>, trailer: seq<Node>)
    | ClassDef(name: string, header: seq<Node>, body: seq<Node>, trailer: seq<Node>)
    | Return(value: Option<Node>)
    | Assign(targets: seq<Node>, rhs: Node)
    | AnnAssign(target: Node, annotation: Node, init: seq<Node>)
    | ExprStmt(expr: Node)
    | If(test: Node, body: seq<Node>, orelse: seq<Node>)
    | While(test: Node, body: seq<Node>, orelse: seq<Node>)
    | For(target: Node, iter: Node, body: seq<Node>, orelse: seq<Node>)
    | With(items: seq<Node>, body: seq<Node>)
    | Try(star: bool, body: seq<Node>, handlers: seq<Node>, orelse: seq<Node>, finalbody: seq<Node>)
    | ExceptHandler(header: seq<Node>, body: seq<Node>)
    | Match(subject: Node, cases: seq<Node>)
    | MatchCase(header: seq<Node>, body: seq<Node>)
    | Raise(parts: seq<Node>)
    | Pass | Break | Continue
    | Name(id: string)
    | Constant(val: Const)
    | Attribute(base: Node, attr: string)
    | Call(func: Node, args: seq<Node>, keywords: seq<Node>, line: nat)
    | Other(parts: seq<Node>)

  function OptionSeq(o: Option<Node>): seq<Node>
  {
    if o.Some? then [o.value] else []
  }

  /** `ast.iter_child_nodes` */
  function Children(n: Node): seq<Node>
  {
    match n
    case Module(body) => body
    case FunctionDef(_, header, body, trailer) => header + body + trailer
    case AsyncFunctionDef(_, header, body, trailer) => header + body + trailer
    case ClassDef(_, header, body, trailer) => header + body + trailer
    case Return(value) => OptionSeq(value)
    case Assign(targets, rhs) => targets + [rhs]
    case AnnAssign(target, annotation, init) => [target] + [annotation] + init
    case ExprStmt(expr) => [expr]
    case If(test, body, orelse) => [test] + body + orelse
    case While(test, body, orelse) => [test] + body + orelse
    case For(target, iter, body, orelse) => [target] + [iter] + body + orelse
    case With(items, body) => items + body
    case Try(_, body, handlers, orelse, finalbody) => body + handlers + orelse + finalbody
    case ExceptHandler(header, body) => header + body
    case Match(subject, cases) => [subject] + cases
    case MatchCase(header, body) => header + body
    case Raise(parts) => parts
    case Attribute(base, _) => [base]
    case Call(func, args, keywords, _) => [func] + args + keywords
    case Other(parts) => parts
    case _ => []
  }

  // ---------- Sizes, so that the walk terminates ----------

  function Size(n: Node): (r: nat)
    ensures r >= 1
    decreases n, 0
  {
    1 + match n
    case Module(body) => SizeAll(body)
    case FunctionDef(_, header, body, trailer) => SizeAll(header) + SizeAll(body) + SizeAll(trailer)
    case AsyncFunctionDef(_, header, body, trailer) => SizeAll(header) + SizeAll(body) + SizeAll(trailer)
    case ClassDef(_, header, body, trailer) => SizeAll(header) + SizeAll(body) + SizeAll(trailer)
    case Return(value) => if value.Some? then Size(value.value) else 0
    case Assign(targets, rhs) => SizeAll(targets) + Size(rhs)
    case AnnAssign(target, annotation, init) => Size(target) + Size(annotation) + SizeAll(init)
    case ExprStmt(expr) => Size(expr)
    case If(test, body, orelse) => Size(test) + SizeAll(body) + SizeAll(orelse)
    case While(test, body, orelse) => Size(test) + SizeAll(body) + SizeAll(orelse)
    case For(target, iter, body, orelse) => Size(target) + Size(iter) + SizeAll(body) + SizeAll(orelse)
    case With(items, body) => SizeAll(items) + SizeAll(body)
    case Try(_, body, handlers, orelse, finalbody) =>
      SizeAll(body) + SizeAll(handlers) + SizeAll(orelse) + SizeAll(finalbody)
    case ExceptHandler(header, body) => SizeAll(header) + SizeAll(body)
    case Match(subject, cases) => Size(subject) + SizeAll(cases)
    case MatchCase(header, body) => SizeAll(header) + SizeAll(body)
    case Raise(parts) => SizeAll(parts)
    case Attribute(base, _) => Size(base)
    case Call(func, args, keywords, _) => Size(func) + SizeAll(args) + SizeAll(keywords)
    case Other(parts) => SizeAll(parts)
    case _ => 0
  }

  function SizeAll(s: seq<Node>): nat
    decreases s, 0
  {
    if s == [] then 0 else Size(s[0]) + SizeAll(s[1..])
  }

  lemma {:induction false} SizeAllConcat(s: seq<Node>, t: seq<Node>)
    ensures SizeAll(s + t) == SizeAll(s) + SizeAll(t)
  {
    if s == [] {
      assert s + t == t;
    } else {
      SizeAllConcat(s[1..], t);
      assert (s + t)[1..] == s[1..] + t;
    }
  }

  lemma SizeAllOne(n: Node)
    ensures SizeAll([n]) == Size(n)
  {
  }

  lemma SizeAll3(s: seq<Node>, t: seq<Node>, u: seq<Node>)
    ensures SizeAll(s + t + u) == SizeAll(s) + SizeAll(t) + SizeAll(u)
  {
    SizeAllConcat(s + t, u);
    SizeAllConcat(s, t);
  }

  predicate IsDefinition(n: Node)
  {
    || n.Module? || n.FunctionDef? || n.AsyncFunctionDef? || n.ClassDef?
    || n.With? || n.ExceptHandler? || n.MatchCase?
  }

  predicate IsCompound(n: Node)
  {
    n.If? || n.While? || n.For? || n.Try? || n.Match?
  }

  lemma SizeIsChildren(n: Node)
    ensures Size(n) == 1 + SizeAll(Children(n))
  {
    if IsDefinition(n) {
      DefinitionSize(n);
    } else if IsCompound(n) {
      CompoundSize(n);
    } else {
      SimpleSize(n);
    }
  }

  lemma DefinitionSize(n: Node)
    requires IsDefinition(n)
    ensures Size(n) == 1 + SizeAll(Children(n))
  {
    hide SizeAll;
    match n
    case Module(body) =>
    case FunctionDef(_, header, body, trailer) => SizeAll3(header, body, trailer);
    case AsyncFunctionDef(_, header, body, trailer) => SizeAll3(header, body, trailer);
    case ClassDef(_, header, body, trailer) => SizeAll3(header, body, trailer);
    case With(items, body) => SizeAllConcat(items, body);
    case ExceptHandler(header, body) => SizeAllConcat(header, body);
    case MatchCase(header, body) => SizeAllConcat(header, body);
  }

  lemma CompoundSize(n: Node)
    requires IsCompound(n)
    ensures Size(n) == 1 + SizeAll(Children(n))
  {
    hide SizeAll;
    match n
    case If(test, body, orelse) => SizeAll3([test], body, orelse); SizeAllOne(test);
    case While(test, body, orelse) => SizeAll3([test], body, orelse); SizeAllOne(test);
    case For(target, iter, body, orelse) =>
      SizeAllConcat([target] + [iter] + body, orelse); SizeAll3([target], [iter], body);
      SizeAllOne(target); SizeAllOne(iter);
    case Try(_, body, handlers, orelse, finalbody) =>
      SizeAllConcat(body + handlers + orelse, finalbody); SizeAll3(body, handlers, orelse);
    case Match(subject, cases) => SizeAllConcat([subject], cases); SizeAllOne(subject);
  }

  lemma SimpleSize(n: Node)
    requires !IsDefinition(n)
    requires !IsCompound(n)
    ensures Size(n) == 1 + SizeAll(Children(n))
  {
    hide SizeAll;
    SizeAllNone();
    match n
    case Return(value) => if value.Some? { SizeAllOne(value.value); }
    case Assign(targets, rhs) => SizeAllConcat(targets, [rhs]); SizeAllOne(rhs);
    case AnnAssign(target, annotation, init) =>
      SizeAll3([target], [annotation], init); SizeAllOne(target); SizeAllOne(annotation);
    case ExprStmt(expr) => SizeAllOne(expr);
    case Attribute(base, _) => SizeAllOne(base);
    case Call(func, args, keywords, _) => SizeAll3([func], args, keywords); SizeAllOne(func);
    case _ =>
  }

  lemma SizeAllNone()
    ensures SizeAll([]) == 0
  {
  }

  // ---------- Descendants, and the worklist walk ----------

  /** The nodes of the tree, each with its number of occurrences. */
  ghost function Descendants(n: Node): multiset<Node>
    decreases Size(n), 0
  {
    SizeIsChildren(n);
    multiset{n} + DescendantsAll(Children(n))
  }

  ghost function DescendantsAll(s: seq<Node>): multiset<Node>
    decreases SizeAll(s), 1
  {
    if s == [] then multiset{} else Descendants(s[0]) + DescendantsAll(s[1..])
  }

  lemma LeafDescendants(n: Node)
    requires Children(n) == []
    ensures Descendants(n) == multiset{n}
  {
  }

  lemma OnlyChildDescendants(n: Node, c: Node)
    requires Children(n) == [c]
    ensures Descendants(n) == multiset{n} + Descendants(c)
  {
    assert DescendantsAll([c]) == Descendants(c);
  }

  lemma {:induction false} DescendantsConcat(s: seq<Node>, t: seq<Node>)
    ensures DescendantsAll(s + t) == DescendantsAll(s) + DescendantsAll(t)
  {
    hide Descendants, Size, SizeAll;
    if s == [] {
      assert s + t == t;
    } else {
      DescendantsConcat(s[1..], t);
      assert (s + t)[1..] == s[1..] + t;
    }
  }

  lemma {:induction false} DescendantOfMember(s: seq<Node>, i: nat, n: Node)
    requires i < |s| && n in Descendants(s[i])
    ensures n in DescendantsAll(s)
  {
    if i > 0 {
      DescendantOfMember(s[1..], i - 1, n);
    }
  }

  lemma DescendantOfChild(parent: Node, i: nat, n: Node)
    requires i < |Children(parent)| && n in Descendants(Children(parent)[i])
    ensures n in Descendants(parent)
  {
    DescendantOfMember(Children(parent), i, n);
  }

  lemma PoppedSize(todo: seq<Node>)
    requires todo != []
    ensures SizeAll(todo[1..] + Children(todo[0])) < SizeAll(todo)
  {
    SizeIsChildren(todo[0]);
    SizeAllConcat(todo[1..], Children(todo[0]));
  }

  /** The order in which the worklist visits nodes. */
  ghost function VisitOrder(todo: seq<Node>): seq<Node>
    decreases SizeAll(todo)
  {
    if todo == [] then [] else
    PoppedSize(todo);
    [todo[0]] + VisitOrder(todo[1..] + Children(todo[0]))
  }

  lemma NothingVisited()
    ensures VisitOrder([]) == []
  {
  }

  lemma NextVisited(todo: seq<Node>, n: Node, next: seq<Node>)
    requires todo != [] && todo[0] == n && next == todo[1..] + Children(n)
    ensures VisitOrder(todo) == [n] + VisitOrder(next)
  {
  }

  /** `ast.walk`: a queue of pending nodes; each popped node adds its children at the end. */
  method Walk(root: Node) returns (visited: seq<Node>)
    ensures visited == VisitOrder([root])
  {
    hide VisitOrder, SizeAll, Children;
    visited := [];
    var todo := [root];
    NothingVisited();
    while todo != []
      invariant visited + VisitOrder(todo) == VisitOrder([root])
      decreases SizeAll(todo)
    {
      PoppedSize(todo);
      var node := todo[0];
      NextVisited(todo, node, todo[1..] + Children(node));
      assert visited + ([node] + VisitOrder(todo[1..] + Children(node)))
          == visited + [node] + VisitOrder(todo[1..] + Children(node));
      visited := visited + [node];
      todo := todo[1..] + Children(node);
    }
  }

  /** The walk visits exactly the nodes below its worklist, each as often as it occurs. */
  lemma {:induction false} WalkVisitsDescendants(todo: seq<Node>)
    ensures multiset(VisitOrder(todo)) == DescendantsAll(todo)
    decreases SizeAll(todo)
  {
    if todo != [] {
      PoppedSize(todo);
      var rest := todo[1..] + Children(todo[0]);
      WalkVisitsDescendants(rest);
      DescendantsConcat(todo[1..], Children(todo[0]));
    }
  }

  lemma WalkMembers(root: Node)
    ensures forall n :: n in VisitOrder([root]) <==> n in Descendants(root)
  {
    WalkVisitsDescendants([root]);
    assert DescendantsAll([root]) == Descendants(root);
    forall n ensures n in VisitOrder([root]) <==> n in Descendants(root) {
      assert n in VisitOrder([root]) <==> n in multiset(VisitOrder([root]));
    }
  }
}
