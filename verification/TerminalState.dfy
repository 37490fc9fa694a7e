/** Which rows of an attempt count: `_latest_attempt` and `_latest_per_check` of `src/eval/curve.py`. */
module TerminalState {
  import opened Lists
  import opened Options
  import opened Order

  /** One eval row. An absent timestamp or check name is "", an absent score 0.0, as the code reads them. */
  datatype Row = Row(runId: Option<string>, attemptId: Option<string>, checkName: string, createdAt: string,
                     score: real)

  predicate StringLess(s: string, t: string)
  {
    !StringLe(t, s)
  }

  // ---------- The latest attempt ----------

  /** The row has an attempt id that is not empty. */
  predicate Tagged(r: Row)
  {
    r.attemptId.Some? && r.attemptId.value != ""
  }

  /** The largest non-empty attempt id. */
  function LatestAttempt(rows: seq<Row>): Option<string>
  {
    if rows == [] then None else
    var rest := LatestAttempt(rows[..|rows| - 1]);
    var r := rows[|rows| - 1];
    if Tagged(r) && (rest.None? || StringLess(rest.value, r.attemptId.value)) then r.attemptId else rest
  }

  lemma {:induction false} LatestAttemptIsMax(rows: seq<Row>)
    ensures LatestAttempt(rows).None? <==> forall r :: r in rows ==> r.attemptId == None || r.attemptId == Some("")
    ensures LatestAttempt(rows).Some? ==>
      && LatestAttempt(rows).value != "" && (exists r :: r in rows && r.attemptId == LatestAttempt(rows))
      && (forall r :: r in rows && Tagged(r) ==> StringLe(r.attemptId.value, LatestAttempt(rows).value))
    ensures forall r :: Tagged(r) <==> exists id :: id != "" && r.attemptId == Some(id)
  {
    if rows != [] {
      var n := |rows| - 1;
      LatestAttemptIsMax(rows[..n]);
      assert rows == rows[..n] + [rows[n]];
      StringOrder();
    }
  }

  function OfAttempt(a: Option<string>): Row -> bool
  {
    (r: Row) => r.attemptId == a
  }

  /** The rows that carry the latest attempt id, or all rows when none does. */
  function AttemptRows(rows: seq<Row>): seq<Row>
  {
    var chosen := Filter(rows, OfAttempt(LatestAttempt(rows)));
    if chosen == [] then rows else chosen
  }

  // ---------- The newest row per check ----------

  /** One step of the dictionary loop: keep the first of equally new rows, in first-seen order of checks. */
  function Keep(best: seq<Row>, r: Row): seq<Row>
  {
    if best == [] then [r]
    else if best[0].checkName == r.checkName then
      [if StringLess(best[0].createdAt, r.createdAt) then r else best[0]] + best[1..]
    else [best[0]] + Keep(best[1..], r)
  }

  function LatestPerCheck(rows: seq<Row>): seq<Row>
  {
    if rows == [] then [] else Keep(LatestPerCheck(rows[..|rows| - 1]), rows[|rows| - 1])
  }

  ghost predicate DistinctChecks(rows: seq<Row>)
  {
    forall i, j :: 0 <= i < j < |rows| ==> rows[i].checkName != rows[j].checkName
  }

  lemma {:induction false} KeepAt(best: seq<Row>, r: Row, k: nat)
    requires DistinctChecks(best) && k < |best| && best[k].checkName == r.checkName
    ensures Keep(best, r) == best[k := if StringLess(best[k].createdAt, r.createdAt) then r else best[k]]
  {
    if k > 0 {
      KeepAt(best[1..], r, k - 1);
    }
  }

  lemma {:induction false} KeepNew(best: seq<Row>, r: Row)
    requires forall i :: 0 <= i < |best| ==> best[i].checkName != r.checkName
    ensures Keep(best, r) == best + [r]
  {
    if best != [] {
      KeepNew(best[1..], r);
    }
  }

  /** The dictionary `best`, with its keys in insertion order, holds the list `kept`. */
  ghost predicate Holds(names: seq<string>, best: map<string, Row>, kept: seq<Row>)
  {
    && |names| == |kept| && DistinctChecks(kept)
    && (forall n :: n in best <==> n in names)
    && (forall k :: 0 <= k < |kept| ==> names[k] == kept[k].checkName && names[k] in best && best[names[k]] == kept[k])
  }

  lemma HoldsNew(names: seq<string>, best: map<string, Row>, kept: seq<Row>, r: Row)
    requires Holds(names, best, kept) && r.checkName !in best
    ensures Holds(names + [r.checkName], best[r.checkName := r], Keep(kept, r))
  {
    assert forall k :: 0 <= k < |names| ==> names[k] in names;
    KeepNew(kept, r);
  }

  lemma HoldsSeen(names: seq<string>, best: map<string, Row>, kept: seq<Row>, r: Row)
    requires Holds(names, best, kept) && r.checkName in best
    ensures Holds(names, if StringLess(best[r.checkName].createdAt, r.createdAt) then best[r.checkName := r] else best,
                  Keep(kept, r))
  {
    var k :| 0 <= k < |names| && names[k] == r.checkName;
    KeepAt(kept, r, k);
  }

  /** The dictionary loop of `_latest_per_check`. */
  method LatestRows(rows: seq<Row>) returns (latest: seq<Row>)
    ensures latest == LatestPerCheck(rows)
  {
    hide Keep, StringLess;
    var names: seq<string> := [];
    var best: map<string, Row> := map[];
    for i := 0 to |rows|
      invariant Holds(names, best, LatestPerCheck(rows[..i]))
    {
      var r := rows[i];
      assert rows[..i + 1][..i] == rows[..i];
      if r.checkName in best {
        HoldsSeen(names, best, LatestPerCheck(rows[..i]), r);
        if StringLess(best[r.checkName].createdAt, r.createdAt) {
          best := best[r.checkName := r];
        }
      } else {
        HoldsNew(names, best, LatestPerCheck(rows[..i]), r);
        names := names + [r.checkName];
        best := best[r.checkName := r];
      }
    }
    assert rows[..|rows|] == rows;
    latest := seq(|names|, k requires 0 <= k < |names| && names[k] in best => best[names[k]]);
  }

  lemma {:induction false} LatestDistinct(rows: seq<Row>)
    ensures DistinctChecks(LatestPerCheck(rows))
  {
    if rows != [] {
      var n := |rows| - 1;
      LatestDistinct(rows[..n]);
      var best := LatestPerCheck(rows[..n]);
      if k :| 0 <= k < |best| && best[k].checkName == rows[n].checkName {
        KeepAt(best, rows[n], k);
      } else {
        KeepNew(best, rows[n]);
      }
    }
  }

  /** `b` is at least as new as every row of its check. */
  ghost predicate Newest(rows: seq<Row>, b: Row)
  {
    b in rows && forall s :: s in rows && s.checkName == b.checkName ==> StringLe(s.createdAt, b.createdAt)
  }

  ghost predicate HasCheck(rows: seq<Row>, name: string)
  {
    exists r :: r in rows && r.checkName == name
  }

  lemma NewestAfter(rows: seq<Row>, r: Row, b: Row)
    requires Newest(rows, b)
    ensures b.checkName != r.checkName ==> Newest(rows + [r], b)
    ensures b.checkName == r.checkName && !StringLess(b.createdAt, r.createdAt) ==> Newest(rows + [r], b)
    ensures b.checkName == r.checkName && StringLess(b.createdAt, r.createdAt) ==> Newest(rows + [r], r)
  {
    StringTotal(r.createdAt, r.createdAt);
    StringTotal(b.createdAt, r.createdAt);
    forall s | s in rows && s.checkName == b.checkName && StringLe(b.createdAt, r.createdAt)
      ensures StringLe(s.createdAt, r.createdAt)
    {
      StringTransitive(s.createdAt, b.createdAt, r.createdAt);
    }
  }

  /** `best` holds a newest row for every check of `rows`, and nothing else. */
  ghost predicate KeepsNewest(rows: seq<Row>, best: seq<Row>)
  {
    && (forall b :: b in best ==> Newest(rows, b))
    && (forall r :: r in rows ==> HasCheck(best, r.checkName))
  }

  lemma KeepSeenCheck(front: seq<Row>, best: seq<Row>, r: Row, k: nat)
    requires DistinctChecks(best) && KeepsNewest(front, best) && k < |best| && best[k].checkName == r.checkName
    ensures KeepsNewest(front + [r], Keep(best, r))
  {
    hide Newest, Keep, StringLess;
    KeepAt(best, r, k);
    var all := Keep(best, r);
    forall i | 0 <= i < |all| ensures Newest(front + [r], all[i]) {
      assert best[i] in best;
      NewestAfter(front, r, best[i]);
    }
    forall s | s in front + [r] ensures HasCheck(all, s.checkName) {
      if s.checkName == r.checkName {
        assert all[k] in all && all[k].checkName == r.checkName;
      } else {
        var b :| b in best && b.checkName == s.checkName;
        var i :| 0 <= i < |best| && best[i] == b;
        assert all[i] in all;
      }
    }
  }

  lemma KeepNewCheck(front: seq<Row>, best: seq<Row>, r: Row)
    requires KeepsNewest(front, best) && forall i :: 0 <= i < |best| ==> best[i].checkName != r.checkName
    ensures KeepsNewest(front + [r], Keep(best, r))
  {
    KeepNew(best, r);
    forall s | s in front ensures s.checkName != r.checkName {
      var b :| b in best && b.checkName == s.checkName;
    }
    StringTotal(r.createdAt, r.createdAt);
    forall b | b in best ensures Newest(front + [r], b) {
      NewestAfter(front, r, b);
    }
    assert Newest(front + [r], r);
    forall s | s in front + [r] ensures HasCheck(best + [r], s.checkName) {
      if s in front {
        var b :| b in best && b.checkName == s.checkName;
        assert b in best + [r];
      }
    }
  }

  /** One newest row for every check that occurs, and nothing else. */
  lemma {:induction false} LatestAreNewest(rows: seq<Row>)
    ensures forall b :: b in LatestPerCheck(rows) ==> Newest(rows, b)
    ensures forall r :: r in rows ==> HasCheck(LatestPerCheck(rows), r.checkName)
    ensures rows != [] ==> LatestPerCheck(rows) != []
  {
    if rows != [] {
      hide Newest, Keep;
      var n := |rows| - 1;
      var front, r := rows[..n], rows[n];
      var best := LatestPerCheck(front);
      assert rows == front + [r];
      LatestAreNewest(front);
      LatestDistinct(front);
      if k :| 0 <= k < |best| && best[k].checkName == r.checkName {
        KeepSeenCheck(front, best, r, k);
      } else {
        KeepNewCheck(front, best, r);
      }
      assert HasCheck(LatestPerCheck(rows), r.checkName);
    }
  }

  /** Rows of one check and attempt with the same timestamp are the same row. */
  ghost predicate DistinctStamps(rows: seq<Row>)
  {
    forall r, s :: (r in rows && s in rows && r.checkName == s.checkName && r.attemptId == s.attemptId
                    && r.createdAt == s.createdAt) ==> r == s
  }

  ghost predicate OneAttempt(rows: seq<Row>)
  {
    forall r, s :: r in rows && s in rows ==> r.attemptId == s.attemptId
  }

  /** With distinct timestamps, the rows kept are exactly the newest ones. */
  lemma LatestIffNewest(rows: seq<Row>)
    requires DistinctStamps(rows) && OneAttempt(rows)
    ensures forall r :: r in LatestPerCheck(rows) <==> Newest(rows, r)
  {
    LatestAreNewest(rows);
    forall r | Newest(rows, r) ensures r in LatestPerCheck(rows) {
      var b :| b in LatestPerCheck(rows) && b.checkName == r.checkName;
      StringTotal(b.createdAt, r.createdAt);
      assert Newest(rows, b);
    }
  }

  function Without(s: seq<Row>, k: nat): seq<Row>
    requires k < |s|
  {
    s[..k] + s[k + 1..]
  }

  lemma WithoutOne(s: seq<Row>, k: nat)
    requires DistinctChecks(s) && k < |s|
    ensures DistinctChecks(Without(s, k))
    ensures multiset(s) == multiset(Without(s, k)) + multiset{s[k]}
    ensures forall r :: r in Without(s, k) <==> r in s && r != s[k]
  {
    var rest := Without(s, k);
    assert s == s[..k] + [s[k]] + s[k + 1..];
    forall r ensures r in rest <==> r in s && r != s[k] {
      if r in rest {
        var i :| 0 <= i < |rest| && rest[i] == r;
        assert r == s[if i < k then i else i + 1];
      }
    }
  }

  lemma {:induction false} SameMembers(s: seq<Row>, t: seq<Row>)
    requires DistinctChecks(s) && DistinctChecks(t) && forall r :: r in s <==> r in t
    ensures multiset(s) == multiset(t)
    decreases |s|
  {
    EmptyPart(s, t);
    if s != [] {
      assert s[0] in t;
      var k :| 0 <= k < |t| && t[k] == s[0];
      WithoutOne(s, 0);
      WithoutOne(t, k);
      SameMembers(Without(s, 0), Without(t, k));
    }
  }

  lemma EmptyPart(rows: seq<Row>, part: seq<Row>)
    requires forall r :: r in part ==> r in rows
    ensures rows == [] ==> part == []
  {
    if part != [] {
      assert part[0] in rows;
    }
  }

  /** Between the newest rows and all rows, any list, in any order, keeps the same rows. */
  lemma LatestOfPart(rows: seq<Row>, part: seq<Row>)
    requires DistinctStamps(rows) && OneAttempt(rows)
    requires forall r :: r in part ==> r in rows
    requires forall r :: r in LatestPerCheck(rows) ==> r in part
    ensures multiset(LatestPerCheck(part)) == multiset(LatestPerCheck(rows))
  {
    LatestIffNewest(rows);
    LatestIffNewest(part);
    LatestAreNewest(rows);
    forall r ensures Newest(part, r) <==> Newest(rows, r) {
      if Newest(part, r) {
        var b :| b in LatestPerCheck(rows) && b.checkName == r.checkName;
        forall s | s in rows && s.checkName == r.checkName ensures StringLe(s.createdAt, r.createdAt) {
          assert Newest(rows, b);
          StringTransitive(s.createdAt, b.createdAt, r.createdAt);
        }
      }
    }
    LatestDistinct(rows);
    LatestDistinct(part);
    SameMembers(LatestPerCheck(part), LatestPerCheck(rows));
  }

  // ---------- Equal timestamps ----------

  /** The newest rows of a check tie only with equal scores. */
  ghost predicate TiesAgree(rows: seq<Row>)
  {
    forall r, s :: Newest(rows, r) && Newest(rows, s) && r.checkName == s.checkName ==> r.score == s.score
  }

  lemma NewestTie(rows: seq<Row>, r: Row, s: Row)
    requires Newest(rows, r) && Newest(rows, s) && r.checkName == s.checkName
    ensures r.createdAt == s.createdAt
  {
    StringTotal(r.createdAt, s.createdAt);
  }

  lemma DistinctStampsAgree(rows: seq<Row>)
    requires DistinctStamps(rows) && OneAttempt(rows)
    ensures TiesAgree(rows)
  {
    forall r, s | Newest(rows, r) && Newest(rows, s) && r.checkName == s.checkName ensures r.score == s.score {
      NewestTie(rows, r, s);
    }
  }

  ghost predicate HasScore(rows: seq<Row>, r: Row)
  {
    exists s :: s in rows && s.checkName == r.checkName && s.score == r.score
  }

  /** The two lists give the same checks the same scores. */
  ghost predicate SameScores(s: seq<Row>, t: seq<Row>)
  {
    (forall r :: r in s ==> HasScore(t, r)) && (forall r :: r in t ==> HasScore(s, r))
  }

  lemma NewestInBoth(rows: seq<Row>, part: seq<Row>, b: Row, c: Row)
    requires Newest(part, b) && Newest(rows, c) && c in part && b in rows && b.checkName == c.checkName
    ensures Newest(rows, b)
  {
    forall s | s in rows && s.checkName == b.checkName ensures StringLe(s.createdAt, b.createdAt) {
      StringTransitive(s.createdAt, c.createdAt, b.createdAt);
    }
  }

  /** Between the newest rows and all rows, any list, in any order, keeps the same scores. */
  lemma ScoresOfPart(rows: seq<Row>, part: seq<Row>)
    requires TiesAgree(rows)
    requires forall r :: r in part ==> r in rows
    requires forall r :: r in LatestPerCheck(rows) ==> r in part
    ensures SameScores(LatestPerCheck(part), LatestPerCheck(rows))
  {
    hide Newest, LatestPerCheck;
    LatestAreNewest(rows);
    LatestAreNewest(part);
    var kept, all := LatestPerCheck(part), LatestPerCheck(rows);
    forall b, c | b in kept && c in all && b.checkName == c.checkName ensures b.score == c.score {
      NewestIsRow(part, b);
      NewestInBoth(rows, part, b, c);
    }
    forall b | b in kept ensures HasScore(all, b) {
      NewestIsRow(part, b);
      var c :| c in all && c.checkName == b.checkName;
    }
    forall c | c in all ensures HasScore(kept, c) {
      var b :| b in kept && b.checkName == c.checkName;
    }
  }

  lemma NewestIsRow(rows: seq<Row>, b: Row)
    requires Newest(rows, b)
    ensures b in rows
  {
  }

  /** Of two newest rows in front the first is kept, and all else is the same. */
  lemma {:induction false} TieKeepsFirst(r: Row, s: Row, t: seq<Row>) returns (others: seq<Row>)
    requires r.checkName == s.checkName && r.createdAt == s.createdAt
    requires forall x :: x in t && x.checkName == r.checkName ==> StringLe(x.createdAt, r.createdAt)
    ensures LatestPerCheck([r, s] + t) == [r] + others && LatestPerCheck([s, r] + t) == [s] + others
  {
    hide StringLess, StringLe, Keep, LatestPerCheck;
    if t == [] {
      others := [];
      assert [r] + [] == [r] && [s] + [] == [s];
      NeverLess(r.createdAt);
      PairKept(r, s);
      PairKept(s, r);
      assert [r, s] + t == [r, s] && [s, r] + t == [s, r];
    } else {
      var n := |t| - 1;
      var rest := TieKeepsFirst(r, s, t[..n]);
      assert t == t[..n] + [t[n]];
      assert t[n] in t && forall x :: x in t[..n] ==> x in t;
      NotNewer(t[n].createdAt, r.createdAt);
      LatestSnoc([r, s] + t[..n], t[n]);
      LatestSnoc([s, r] + t[..n], t[n]);
      assert [r, s] + t == [r, s] + t[..n] + [t[n]] && [s, r] + t == [s, r] + t[..n] + [t[n]];
      others := if t[n].checkName == r.checkName then rest else Keep(rest, t[n]);
      KeepBehind(r, rest, t[n]);
      KeepBehind(s, rest, t[n]);
    }
  }

  lemma NeverLess(x: string)
    ensures !StringLess(x, x)
  {
    StringTotal(x, x);
  }

  lemma NotNewer(x: string, y: string)
    ensures StringLe(x, y) ==> !StringLess(y, x)
  {
  }

  lemma PairKept(r: Row, s: Row)
    requires r.checkName == s.checkName && !StringLess(r.createdAt, s.createdAt)
    ensures LatestPerCheck([r, s]) == [r]
  {
    hide StringLess;
    LatestSnoc([], r);
    LatestSnoc([r], s);
    assert [] + [r] == [r] && [r] + [s] == [r, s];
    KeepBehind(r, [], s);
    assert [r] + [] == [r];
  }

  lemma LatestSnoc(rows: seq<Row>, x: Row)
    ensures LatestPerCheck(rows + [x]) == Keep(LatestPerCheck(rows), x)
  {
    assert (rows + [x])[..|rows|] == rows;
  }

  lemma KeepBehind(r: Row, rest: seq<Row>, x: Row)
    requires x.checkName == r.checkName ==> !StringLess(r.createdAt, x.createdAt)
    ensures Keep([r] + rest, x) == if x.checkName == r.checkName then [r] + rest else [r] + Keep(rest, x)
  {
    assert ([r] + rest)[1..] == rest;
  }

  // ---------- Terminal rows of a list that may span attempts ----------

  /** The terminal verify state: the newest row per check of the latest attempt. */
  function Terminal(rows: seq<Row>): seq<Row>
  {
    LatestPerCheck(AttemptRows(rows))
  }

  ghost predicate Chosen(rows: seq<Row>, r: Row)
  {
    && r in rows
    && (r.attemptId == LatestAttempt(rows)
        || (LatestAttempt(rows) == None && forall s :: s in rows ==> s.attemptId != None))
  }

  /** The chosen attempt's rows carry one attempt id: the largest one, or none, or the empty one. */
  lemma AttemptRowsAre(rows: seq<Row>)
    ensures OneAttempt(AttemptRows(rows))
    ensures forall r :: r in AttemptRows(rows) ==> r in rows
    ensures rows != [] ==> AttemptRows(rows) != []
    ensures forall r :: r in AttemptRows(rows) <==> Chosen(rows, r)
  {
    var a := LatestAttempt(rows);
    LatestAttemptIsMax(rows);
    FilterMembers(rows, OfAttempt(a));
    var chosen := Filter(rows, OfAttempt(a));
    if chosen != [] {
      assert chosen[0] in chosen;
    } else {
      assert forall r :: r in rows ==> r.attemptId != a;
    }
  }

  lemma TerminalNotEmpty(rows: seq<Row>)
    ensures rows != [] ==> Terminal(rows) != []
    ensures forall r :: r in Terminal(rows) ==> r in rows
  {
    AttemptRowsAre(rows);
    LatestAreNewest(AttemptRows(rows));
  }

  lemma SameLatestAttempt(rows: seq<Row>, part: seq<Row>)
    requires forall r :: r in part ==> r in rows
    requires forall r :: r in Terminal(rows) ==> r in part
    ensures LatestAttempt(part) == LatestAttempt(rows)
  {
    LatestAttemptIsMax(rows);
    LatestAttemptIsMax(part);
    if LatestAttempt(rows).Some? {
      TerminalNotEmpty(rows);
      AttemptRowsAre(rows);
      LatestAreNewest(AttemptRows(rows));
      var r := Terminal(rows)[0];
      assert r in Terminal(rows);
      assert r in part && Tagged(r);
      StringTotal(LatestAttempt(part).value, LatestAttempt(rows).value);
    }
  }

  lemma AttemptOfPart(rows: seq<Row>, part: seq<Row>)
    requires forall r :: r in part ==> r in rows
    requires forall r :: r in Terminal(rows) ==> r in part
    ensures LatestAttempt(part) == LatestAttempt(rows)
    ensures forall r :: r in AttemptRows(part) ==> r in AttemptRows(rows)
    ensures forall r :: r in Terminal(rows) ==> r in AttemptRows(part)
  {
    SameLatestAttempt(rows, part);
    AttemptRowsAre(rows);
    AttemptRowsAre(part);
    TerminalNotEmpty(rows);
    EmptyPart(rows, part);
    if rows != [] {
      var t := Terminal(rows)[0];
      assert t in Terminal(rows);
      LatestAreNewest(AttemptRows(rows));
      assert t in part && t in AttemptRows(rows);
    }
  }

  /** Deleting rows that are not terminal, and reordering the rest, leaves the terminal rows the same. */
  lemma TerminalOfPart(rows: seq<Row>, part: seq<Row>)
    requires DistinctStamps(rows)
    requires forall r :: r in part ==> r in rows
    requires forall r :: r in Terminal(rows) ==> r in part
    ensures multiset(Terminal(part)) == multiset(Terminal(rows))
    ensures LatestAttempt(part) == LatestAttempt(rows)
  {
    AttemptOfPart(rows, part);
    AttemptRowsAre(rows);
    LatestOfPart(AttemptRows(rows), AttemptRows(part));
  }

  /** Where ties agree it leaves their scores the same. */
  lemma TerminalScoresOfPart(rows: seq<Row>, part: seq<Row>)
    requires TiesAgree(AttemptRows(rows))
    requires forall r :: r in part ==> r in rows
    requires forall r :: r in Terminal(rows) ==> r in part
    ensures SameScores(Terminal(part), Terminal(rows))
    ensures LatestAttempt(part) == LatestAttempt(rows)
  {
    AttemptOfPart(rows, part);
    ScoresOfPart(AttemptRows(rows), AttemptRows(part));
  }

  /** Two rows of the chosen attempt in front stay in front, and the same rows follow. */
  lemma AttemptFront(r: Row, s: Row, t: seq<Row>) returns (u: seq<Row>)
    requires Chosen([r, s] + t, r) && Chosen([r, s] + t, s)
    ensures AttemptRows([r, s] + t) == [r, s] + u && AttemptRows([s, r] + t) == [s, r] + u
  {
    var p, q := [r, s] + t, [s, r] + t;
    SameAttempt(p, q);
    var a := LatestAttempt(p);
    FilterConcat([r, s], t, OfAttempt(a));
    FilterConcat([s, r], t, OfAttempt(a));
    if r.attemptId == a {
      AttemptRowsAre(p);
      FilterMembers(p, OfAttempt(a));
      assert s.attemptId == a;
      FilterAll([r, s], OfAttempt(a));
      FilterAll([s, r], OfAttempt(a));
      u := Filter(t, OfAttempt(a));
    } else {
      FilterNothing(p, OfAttempt(a));
      FilterNothing(q, OfAttempt(a));
      u := t;
    }
  }

  lemma SameAttempt(rows: seq<Row>, other: seq<Row>)
    requires forall r :: r in rows <==> r in other
    ensures LatestAttempt(rows) == LatestAttempt(other)
    ensures forall r :: Chosen(rows, r) <==> Chosen(other, r)
  {
    LatestAttemptIsMax(rows);
    LatestAttemptIsMax(other);
    if LatestAttempt(rows).Some? {
      StringTotal(LatestAttempt(rows).value, LatestAttempt(other).value);
    }
  }
}
