/** The dotted path lookup of `src/eval/checks.py`. */
module PathLookup {
  import opened Options

  /** Decoded JSON; `Null` is Python's `None`. */
  datatype Json =
    | Null
    | Bool(b: bool)
    | Number(r: real)
    | Text(s: string)
    | List(items: seq<Json>)
    | Dict(entries: map<string, Json>)

  /** Python's `int(part)`: `None` stands for its `ValueError`. */
  type ToInt = string -> Option<int>

  /** The segments between the dots of a path. */
  function Split(path: string): (parts: seq<string>)
    ensures parts != []
  {
    if path == "" then [""] else Extend(Split(path[..|path| - 1]), path[|path| - 1])
  }

  /** One more character starts a new segment or lengthens the last one. */
  function Extend(parts: seq<string>, c: char): (r: seq<string>)
    requires parts != []
    ensures r != []
  {
    if c == '.' then parts + [""] else parts[|parts| - 1 := parts[|parts| - 1] + [c]]
  }

  /** The segments with dots between them. */
  function Join(parts: seq<string>): string
    requires parts != []
  {
    if |parts| == 1 then parts[0] else Join(parts[..|parts| - 1]) + "." + parts[|parts| - 1]
  }

  /** Splitting cuts at every dot and nowhere else. */
  lemma {:induction false} SplitInverts(path: string)
    ensures Join(Split(path)) == path
    ensures forall i :: 0 <= i < |Split(path)| ==> '.' !in Split(path)[i]
  {
    if path != "" {
      var n := |path| - 1;
      SplitInverts(path[..n]);
      var front := Split(path[..n]);
      var m := |front| - 1;
      assert path == path[..n] + [path[n]];
      if path[n] == '.' {
        assert (front + [""])[..|front|] == front;
      } else {
        var longer := front[m := front[m] + [path[n]]];
        assert longer[..m] == front[..m];
        if m > 0 {
          assert Join(longer) == Join(front[..m]) + "." + (front[m] + [path[n]]);
        }
      }
    }
  }

  lemma {:induction false} SplitJoined(p: string, q: string)
    ensures Split(p + "." + q) == Split(p) + Split(q)
  {
    var j := p + "." + q;
    var n := |j| - 1;
    if q == "" {
      assert j[..n] == p;
    } else {
      var m := |q| - 1;
      SplitJoined(p, q[..m]);
      assert j[..n] == p + "." + q[..m];
      SplitNext(p + "." + q[..m], q[m]);
      SplitNext(q[..m], q[m]);
      assert j == (p + "." + q[..m]) + [q[m]] && q == q[..m] + [q[m]];
      ExtendConcat(Split(p), Split(q[..m]), q[m]);
    }
  }

  lemma SplitNext(path: string, c: char)
    ensures Split(path + [c]) == Extend(Split(path), c)
  {
    assert (path + [c])[..|path|] == path;
  }

  lemma ExtendConcat(s: seq<string>, t: seq<string>, c: char)
    requires t != []
    ensures Extend(s + t, c) == s + Extend(t, c)
  {
  }

  /** The element at an index, which may count from the end; nothing when it is out of range. */
  function At(items: seq<Json>, i: int): Option<Json>
  {
    if 0 <= i < |items| then Some(items[i])
    else if -|items| <= i < 0 then Some(items[|items| + i])
    else None
  }

  /** One segment: an index into a list, a key of a dict, nothing in anything else. */
  function Follow(cur: Json, part: string, toInt: ToInt): Option<Json>
  {
    match cur
    case List(items) => if toInt(part).Some? then At(items, toInt(part).value) else None
    case Dict(entries) => Some(if part in entries then entries[part] else Null)
    case _ => None
  }

  /** The value after following every segment; a dead end anywhere makes it `Null`. */
  function Lookup(cur: Json, parts: seq<string>, toInt: ToInt): Json
    decreases |parts|
  {
    if parts == [] then cur
    else if parts[0] == "" then Lookup(cur, parts[1..], toInt)
    else
      var next := Follow(cur, parts[0], toInt);
      if next.None? then Null else Lookup(next.value, parts[1..], toInt)
  }

  method DottedGet(data: Json, path: string, toInt: ToInt) returns (r: Json)
    ensures r == Lookup(data, Split(path), toInt)
  {
    var cur := data;
    var parts := Split(path);
    for i := 0 to |parts|
      invariant Lookup(cur, parts[i..], toInt) == Lookup(data, parts, toInt)
    {
      var part := parts[i];
      assert parts[i..][0] == part && parts[i..][1..] == parts[i + 1..];
      if part == "" {
        continue;
      }
      if cur.List? {
        var index := toInt(part);
        if index.None? || At(cur.items, index.value).None? {
          return Null;
        }
        cur := At(cur.items, index.value).value;
      } else if cur.Dict? {
        cur := if part in cur.entries then cur.entries[part] else Null;
      } else {
        return Null;
      }
    }
    return cur;
  }

  /** Nothing is found below a missing value. */
  lemma {:induction false} NullStays(parts: seq<string>, toInt: ToInt)
    ensures Lookup(Null, parts, toInt) == Null
  {
    if parts != [] && parts[0] == "" {
      NullStays(parts[1..], toInt);
    }
  }

  lemma {:induction false} LookupConcat(cur: Json, s: seq<string>, t: seq<string>, toInt: ToInt)
    ensures Lookup(cur, s + t, toInt) == Lookup(Lookup(cur, s, toInt), t, toInt)
    decreases |s|
  {
    if s == [] {
      assert s + t == t;
    } else {
      assert (s + t)[1..] == s[1..] + t;
      var next := Follow(cur, s[0], toInt);
      if s[0] == "" {
        LookupConcat(cur, s[1..], t, toInt);
      } else if next.None? {
        NullStays(t, toInt);
      } else {
        LookupConcat(next.value, s[1..], t, toInt);
      }
    }
  }

  /** Looking up `p.q` is looking up `q` in what `p` leads to. */
  lemma LookupComposes(data: Json, p: string, q: string, toInt: ToInt)
    ensures Lookup(data, Split(p + "." + q), toInt) == Lookup(Lookup(data, Split(p), toInt), Split(q), toInt)
  {
    SplitJoined(p, q);
    LookupConcat(data, Split(p), Split(q), toInt);
  }

  /** An empty segment, like no segment, leads nowhere else. */
  lemma EmptySegmentStays(cur: Json, toInt: ToInt)
    ensures Lookup(cur, [], toInt) == cur && Lookup(cur, [""], toInt) == cur
  {
    assert [""][1..] == [];
  }

  /** One segment: the value under a key, the element at an index that may count from the end, and nothing otherwise. */
  lemma SegmentExactly(cur: Json, part: string, toInt: ToInt)
    requires part != ""
    ensures var r := Lookup(cur, [part], toInt);
      match cur
      case Dict(entries) => (part in entries ==> r == entries[part]) && (part !in entries ==> r == Null)
      case List(items) =>
        && (forall i :: toInt(part) == Some(i) && 0 <= i < |items| ==> r == items[i])
        && (forall i :: toInt(part) == Some(i) && 1 <= -i <= |items| ==> r == items[|items| - (-i)])
        && (forall i :: toInt(part) == Some(i) && (i >= |items| || -i > |items|) ==> r == Null)
        && (toInt(part).None? ==> r == Null)
      case _ => r == Null
  {
    assert [part][1..] == [];
  }
}
