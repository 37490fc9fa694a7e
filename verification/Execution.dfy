/** Which outcomes running a statement can have, whatever the values of its tests. */
module Execution {
  import opened Options
  import opened PythonAst

  datatype Outcome = Normal | Returned(value: Option<Node>) | Broke | Continued | Raised

  /** Statement `s` can finish with outcome `o`, every loop in it going round at most `k` times.
      Anything may raise; a function or class definition runs none of its body's returns. */
  ghost predicate Exec(k: nat, s: Node, o: Outcome)
    decreases k, s, 1
  {
    match s
    case Return(value) => o == Returned(value) || o == Raised
    case Break => o == Broke
    case Continue => o == Continued
    case Raise(_) => o == Raised
    case Pass => o == Normal
    case If(_, body, orelse) => o == Raised || Block(k, body, o) || Block(k, orelse, o)
    case While(_, _, _) => LoopRuns(k, s, o)
    case For(_, _, _, _) => LoopRuns(k, s, o)
    case With(_, body) => o == Raised || Block(k, body, o) || (o == Normal && Block(k, body, Raised))
    case Try(_, _, _, _, finalbody) =>
      exists o1, o2 :: Attempt(k, s, o1) && Block(k, finalbody, o2) && o == if o2 == Normal then o1 else o2
    case Match(_, cases) => o == Raised || o == Normal || exists i :: 0 <= i < |cases| && Clause(k, cases[i], o)
    case _ => o == Normal || o == Raised
  }

  /** A handler or a match case runs its body. */
  ghost predicate Clause(k: nat, c: Node, o: Outcome)
    decreases k, c, 1
  {
    match c
    case ExceptHandler(_, body) => Block(k, body, o)
    case MatchCase(_, body) => o == Raised || Block(k, body, o)
    case _ => false
  }

  /** The part of a `try` before its `finally`. Several handlers of a `try*` may run, but none of them can return,
      break or continue, so that their outcomes are those of one: finished or raised. */
  ghost predicate Attempt(k: nat, s: Node, o: Outcome)
    requires s.Try?
    decreases k, s, 0
  {
    || (o != Normal && Block(k, s.body, o))
    || (Block(k, s.body, Normal) && Block(k, s.orelse, o))
    || (Block(k, s.body, Raised) && exists i :: 0 <= i < |s.handlers| && Clause(k, s.handlers[i], o))
  }

  /** The test fails and the `else` runs, or the body runs once and the loop goes on, stops or is left. */
  ghost predicate LoopRuns(k: nat, s: Node, o: Outcome)
    requires s.While? || s.For?
    decreases k, s, 0
  {
    || o == Raised
    || Block(k, s.orelse, o)
    || (o == Normal && Block(k, s.body, Broke))
    || ((o.Returned? || o.Raised?) && Block(k, s.body, o))
    || (k > 0 && (Block(k, s.body, Normal) || Block(k, s.body, Continued)) && Exec(k - 1, s, o))
  }

  ghost predicate Block(k: nat, b: seq<Node>, o: Outcome)
    decreases k, b, 0
  {
    if b == [] then o == Normal
    else (o != Normal && Exec(k, b[0], o)) || (Exec(k, b[0], Normal) && Block(k, b[1..], o))
  }

  // ---------- What a run hands to its caller ----------

  /** A constant string is handed over as it is; the end of the body, an empty return and any other constant give no
      string; any other expression may give anything. A run that raises hands over nothing at all. */
  ghost predicate HandsOver(o: Outcome, t: Option<string>)
  {
    match o
    case Normal => t.None?
    case Returned(None) => t.None?
    case Returned(Some(Constant(Str(x)))) => t == Some(x)
    case Returned(Some(Constant(NotStr))) => t.None?
    case Returned(Some(_)) => true
    case _ => false
  }

  ghost predicate Yields(k: nat, body: seq<Node>, t: Option<string>)
  {
    exists o :: Block(k, body, o) && HandsOver(o, t)
  }

  ghost predicate ConstantReturn(o: Outcome)
  {
    o.Returned? && o.value.Some? && o.value.value.Constant? && o.value.value.val.Str?
  }

  /** Every run of the body that is not cut short by an exception ends in the return of a constant string. */
  ghost predicate EndsInConstants(body: seq<Node>)
  {
    forall k, o :: Block(k, body, o) && (o.Normal? || o.Returned?) ==> ConstantReturn(o)
  }

  // ---------- A returned value comes from a return statement of the tree ----------

  /** Some statement of the block holds the return. */
  ghost predicate ReturnIn(b: seq<Node>, v: Option<Node>)
  {
    exists i :: 0 <= i < |b| && Return(v) in Descendants(b[i])
  }

  lemma ChildrenReturn(parent: Node, b: seq<Node>, before: seq<Node>, after: seq<Node>, v: Option<Node>)
    requires Children(parent) == before + b + after && ReturnIn(b, v)
    ensures Return(v) in Descendants(parent)
  {
    var i :| 0 <= i < |b| && Return(v) in Descendants(b[i]);
    assert Children(parent)[|before| + i] == b[i];
    DescendantOfChild(parent, |before| + i, Return(v));
  }

  lemma {:induction false} ExecReturns(k: nat, s: Node, v: Option<Node>)
    requires Exec(k, s, Returned(v))
    ensures Return(v) in Descendants(s)
    decreases k, s, 2
  {
    match s
    case Return(_) =>
    case If(test, body, orelse) =>
      if Block(k, body, Returned(v)) {
        BlockReturns(k, body, v);
        ChildrenReturn(s, body, [test], orelse, v);
      } else {
        BlockReturns(k, orelse, v);
        assert Children(s) == [test] + body + orelse + [];
        ChildrenReturn(s, orelse, [test] + body, [], v);
      }
    case While(test, body, orelse) => LoopReturns(k, s, [test], v);
    case For(target, iter, body, orelse) => LoopReturns(k, s, [target] + [iter], v);
    case With(items, body) =>
      BlockReturns(k, body, v);
      assert Children(s) == items + body + [];
      ChildrenReturn(s, body, items, [], v);
    case Try(_, body, handlers, orelse, finalbody) => TryReturns(k, s, v);
    case Match(subject, cases) =>
      var i :| 0 <= i < |cases| && Clause(k, cases[i], Returned(v));
      ClauseReturns(k, cases[i], v);
      assert Children(s) == [subject] + cases + [];
      ChildrenReturn(s, cases, [subject], [], v);
    case _ =>
  }

  lemma {:induction false} LoopReturns(k: nat, s: Node, head: seq<Node>, v: Option<Node>)
    requires (s.While? || s.For?) && LoopRuns(k, s, Returned(v)) && Children(s) == head + s.body + s.orelse
    ensures Return(v) in Descendants(s)
    decreases k, s, 0
  {
    if Block(k, s.orelse, Returned(v)) {
      BlockReturns(k, s.orelse, v);
      assert Children(s) == (head + s.body) + s.orelse + [];
      ChildrenReturn(s, s.orelse, head + s.body, [], v);
    } else if Block(k, s.body, Returned(v)) {
      BlockReturns(k, s.body, v);
      ChildrenReturn(s, s.body, head, s.orelse, v);
    } else {
      ExecReturns(k - 1, s, v);
    }
  }

  lemma {:induction false} TryReturns(k: nat, s: Node, v: Option<Node>)
    requires s.Try? && Exec(k, s, Returned(v))
    ensures Return(v) in Descendants(s)
    decreases k, s, 1
  {
    hide Block, Attempt, Descendants;
    var body, handlers, orelse, finalbody := s.body, s.handlers, s.orelse, s.finalbody;
    var o1, o2 :| Attempt(k, s, o1) && Block(k, finalbody, o2) && Returned(v) == if o2 == Normal then o1 else o2;
    if o2 != Normal {
      BlockReturns(k, finalbody, v);
      assert Children(s) == (body + handlers + orelse) + finalbody + [];
      ChildrenReturn(s, finalbody, body + handlers + orelse, [], v);
    } else {
      AttemptReturns(k, s, v);
    }
  }

  lemma {:induction false} AttemptReturns(k: nat, s: Node, v: Option<Node>)
    requires s.Try? && Attempt(k, s, Returned(v))
    ensures Return(v) in Descendants(s)
    decreases k, s, 0
  {
    hide Block, Clause, Descendants;
    var body, handlers, orelse, finalbody := s.body, s.handlers, s.orelse, s.finalbody;
    if Block(k, body, Returned(v)) {
      BlockReturns(k, body, v);
      assert Children(s) == [] + body + (handlers + orelse + finalbody);
      ChildrenReturn(s, body, [], handlers + orelse + finalbody, v);
    } else if Block(k, orelse, Returned(v)) {
      BlockReturns(k, orelse, v);
      ChildrenReturn(s, orelse, body + handlers, finalbody, v);
    } else {
      var i :| 0 <= i < |handlers| && Clause(k, handlers[i], Returned(v));
      ClauseReturns(k, handlers[i], v);
      assert Children(s) == body + handlers + (orelse + finalbody);
      ChildrenReturn(s, handlers, body, orelse + finalbody, v);
    }
  }

  lemma {:induction false} ClauseReturns(k: nat, c: Node, v: Option<Node>)
    requires Clause(k, c, Returned(v))
    ensures Return(v) in Descendants(c)
    decreases k, c, 1
  {
    match c
    case ExceptHandler(header, body) =>
      BlockReturns(k, body, v);
      assert Children(c) == header + body + [];
      ChildrenReturn(c, body, header, [], v);
    case MatchCase(header, body) =>
      BlockReturns(k, body, v);
      assert Children(c) == header + body + [];
      ChildrenReturn(c, body, header, [], v);
  }

  /** Whatever a block returns is written in one of its `return` statements, at any depth. */
  lemma {:induction false} BlockReturns(k: nat, b: seq<Node>, v: Option<Node>)
    requires Block(k, b, Returned(v))
    ensures ReturnIn(b, v)
    decreases k, b, 0
  {
    if Exec(k, b[0], Returned(v)) {
      ExecReturns(k, b[0], v);
    } else {
      BlockReturns(k, b[1..], v);
      var i :| 0 <= i < |b[1..]| && Return(v) in Descendants(b[1..][i]);
      assert b[1..][i] == b[i + 1];
    }
  }
}
