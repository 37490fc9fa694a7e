/** Run ids and what is read back from them: `src/runner.py` and `_spec_key_from_run_id` of `scripts/run_metrics.py`. */
module RunIds {
  import opened Options

  predicate IsDigits(s: string)
  {
    s != "" && forall i :: 0 <= i < |s| ==> '0' <= s[i] <= '9'
  }

  predicate StartsWith(s: string, prefix: string)
  {
    |prefix| <= |s| && s[..|prefix|] == prefix
  }

  /** `gen<N>` or `seed<M>` */
  predicate IsTag(s: string)
  {
    (StartsWith(s, "gen") && IsDigits(s[3..])) || (StartsWith(s, "seed") && IsDigits(s[4..]))
  }

  predicate IsDate(s: string)
  {
    |s| == 8 && IsDigits(s)
  }

  /** The parts around the last hyphen. */
  function RPartition(s: string): (p: (string, string))
    requires '-' in s
    ensures |p.0| < |s| && s == p.0 + "-" + p.1 && '-' !in p.1
  {
    var n := |s| - 1;
    if s[n] == '-' then (s[..n], "") else
    assert s == s[..n] + [s[n]];
    var p := RPartition(s[..n]);
    (p.0, p.1 + [s[n]])
  }

  lemma {:induction false} PartitionJoined(s: string, t: string)
    requires '-' !in t
    ensures RPartition(s + "-" + t) == (s, t)
  {
    var j := s + "-" + t;
    assert j[|s|] == '-';
    if t == "" {
      assert j[..|j| - 1] == s;
    } else {
      var n := |t| - 1;
      PartitionJoined(s, t[..n]);
      assert j[..|j| - 1] == s + "-" + t[..n];
      assert t == t[..n] + [t[n]];
      assert j[|j| - 1] == t[n] && t[n] in t;
    }
  }

  /** Tags after the last hyphens are dropped, one by one. */
  function StripTags(base: string): (r: string)
    ensures |r| <= |base|
    decreases |base|
  {
    if '-' in base && IsTag(RPartition(base).1) then StripTags(RPartition(base).0) else base
  }

  function Stripped(runId: string): Option<string>
  {
    if '-' !in runId || !IsDate(RPartition(runId).1) then None else
    var base := StripTags(RPartition(runId).0);
    if base == "" then None else Some(base)
  }

  method StripDateSuffix(runId: string) returns (r: Option<string>)
    ensures r == Stripped(runId)
  {
    if '-' !in runId {
      return None;
    }
    var (base, tail) := RPartition(runId);
    if |tail| != 8 || !IsDigits(tail) {
      return None;
    }
    while '-' in base
      invariant StripTags(base) == StripTags(RPartition(runId).0)
      decreases |base|
    {
      var (gbase, gtail) := RPartition(base);
      var isGen := StartsWith(gtail, "gen") && IsDigits(gtail[3..]);
      var isSeed := StartsWith(gtail, "seed") && IsDigits(gtail[4..]);
      if isGen || isSeed {
        base := gbase;
      } else {
        break;
      }
    }
    return if base == "" then None else Some(base);
  }

  // ---------- Composing a run id ----------

  function WithTags(spec: string, tags: seq<string>): string
  {
    if tags == [] then spec else WithTags(spec, tags[..|tags| - 1]) + "-" + tags[|tags| - 1]
  }

  /** `{spec}-{tag}-...-{date}` */
  function RunId(spec: string, tags: seq<string>, date: string): string
  {
    WithTags(spec, tags) + "-" + date
  }

  predicate EndsWithTag(spec: string)
  {
    '-' in spec && IsTag(RPartition(spec).1)
  }

  lemma TagHasNoHyphen(t: string)
    requires IsTag(t)
    ensures '-' !in t && |t| >= 4
  {
    var k := if StartsWith(t, "gen") && IsDigits(t[3..]) then 3 else 4;
    assert t == t[..k] + t[k..];
    assert forall i :: 0 <= i < |t[k..]| ==> t[k..][i] != '-';
    assert "gen"[0] == 'g' && "seed"[0] == 's';
  }

  lemma TagStrips(base: string, tag: string)
    requires IsTag(tag)
    ensures StripTags(base + "-" + tag) == StripTags(base)
  {
    hide IsTag, RPartition;
    TagHasNoHyphen(tag);
    PartitionJoined(base, tag);
    assert (base + "-" + tag)[|base|] == '-';
  }

  lemma {:induction false} TagsStrip(spec: string, tags: seq<string>)
    requires forall i :: 0 <= i < |tags| ==> IsTag(tags[i])
    ensures StripTags(WithTags(spec, tags)) == StripTags(spec)
    ensures |WithTags(spec, tags)| == |spec| || |WithTags(spec, tags)| >= |spec| + 5
  {
    hide IsTag, StripTags;
    if tags != [] {
      var n := |tags| - 1;
      TagsStrip(spec, tags[..n]);
      TagHasNoHyphen(tags[n]);
      TagStrips(WithTags(spec, tags[..n]), tags[n]);
    }
  }

  /** What is stripped from a composed id, for every spec id, tag list and date. */
  lemma StripComposed(spec: string, tags: seq<string>, date: string)
    requires (forall i :: 0 <= i < |tags| ==> IsTag(tags[i])) && IsDate(date)
    ensures Stripped(RunId(spec, tags, date)) == if StripTags(spec) == "" then None else Some(StripTags(spec))
  {
    assert '-' !in date;
    PartitionJoined(WithTags(spec, tags), date);
    TagsStrip(spec, tags);
  }

  lemma StripTagsFixed(spec: string)
    ensures StripTags(spec) == spec <==> !EndsWithTag(spec)
  {
  }

  /** Stripping returns the spec id exactly when it is not empty and does not itself end in a tag. */
  lemma StripRoundTrip(spec: string, tags: seq<string>, date: string)
    requires (forall i :: 0 <= i < |tags| ==> IsTag(tags[i])) && IsDate(date)
    ensures Stripped(RunId(spec, tags, date)) == Some(spec) <==> spec != "" && !EndsWithTag(spec)
  {
    StripComposed(spec, tags, date);
    StripTagsFixed(spec);
  }

  /** What is left of an id once its trailing tags are gone, and the tags that were dropped. */
  lemma {:induction false} DroppedTags(base: string) returns (tags: seq<string>)
    ensures forall i :: 0 <= i < |tags| ==> IsTag(tags[i])
    ensures base == WithTags(StripTags(base), tags) && !EndsWithTag(StripTags(base))
    decreases |base|
  {
    hide IsTag, RPartition;
    if '-' in base && IsTag(RPartition(base).1) {
      var front := DroppedTags(RPartition(base).0);
      tags := front + [RPartition(base).1];
      assert tags[..|front|] == front;
    } else {
      tags := [];
    }
  }

  /** Whatever strips to a spec id is that spec id, not empty and not ending in a tag, with some tags and a date. */
  lemma StrippedIsComposed(runId: string) returns (tags: seq<string>, date: string)
    requires Stripped(runId).Some?
    ensures var spec := Stripped(runId).value;
      && runId == RunId(spec, tags, date) && spec != "" && !EndsWithTag(spec)
      && (forall i :: 0 <= i < |tags| ==> IsTag(tags[i])) && IsDate(date)
  {
    date := RPartition(runId).1;
    tags := DroppedTags(RPartition(runId).0);
  }

  ghost predicate ComposedOf(runId: string, spec: string, tags: seq<string>, date: string)
  {
    runId == RunId(spec, tags, date) && (forall i :: 0 <= i < |tags| ==> IsTag(tags[i])) && IsDate(date)
  }

  /** An id strips to a spec id exactly when it is composed of it, and the spec id is not empty and does not end in a
      tag. */
  lemma StripExactly(runId: string, spec: string)
    ensures Stripped(runId) == Some(spec)
      <==> spec != "" && !EndsWithTag(spec) && exists tags, date :: ComposedOf(runId, spec, tags, date)
  {
    if Stripped(runId) == Some(spec) {
      var tags, date := StrippedIsComposed(runId);
      assert ComposedOf(runId, spec, tags, date);
    }
    if spec != "" && !EndsWithTag(spec) && exists tags, date :: ComposedOf(runId, spec, tags, date) {
      var tags, date :| ComposedOf(runId, spec, tags, date);
      StripRoundTrip(spec, tags, date);
    }
  }

  /** A spec id that ends in a tag is cut short. */
  lemma TagEndedSpecIsCut()
    ensures Stripped(RunId("q01-gen2", [], "20260713")) == Some("q01")
  {
    PartitionJoined("q01", "gen2");
    assert "q01" + "-" + "gen2" == "q01-gen2" && "gen2"[..3] == "gen" && "gen2"[3..] == "2";
    assert StripTags("q01") == "q01";
    StripComposed("q01-gen2", [], "20260713");
  }

  // ---------- The scorer's key ----------

  const PREFIXES: seq<string> := ["api-", "cli-", "bench-"]

  function ThreadId(origin: string, runId: string): string
  {
    origin + "-" + runId
  }

  /** Drops the first prefix of the list, from place `i` on, that the id starts with. */
  function DropPrefix(rid: string, i: nat): string
    requires i <= |PREFIXES|
    decreases |PREFIXES| - i
  {
    if i == |PREFIXES| then rid
    else if StartsWith(rid, PREFIXES[i]) then rid[|PREFIXES[i]|..]
    else DropPrefix(rid, i + 1)
  }

  function SpecKey(runId: Option<string>): string
  {
    if runId.None? || runId.value == "" then "" else
    var rid := DropPrefix(runId.value, 0);
    if Stripped(rid).Some? then Stripped(rid).value else rid
  }

  method SpecKeyFromRunId(runId: Option<string>) returns (key: string)
    ensures key == SpecKey(runId)
  {
    if runId.None? || runId.value == "" {
      return "";
    }
    var rid := runId.value;
    for i := 0 to |PREFIXES|
      invariant rid == runId.value && DropPrefix(rid, i) == DropPrefix(rid, 0)
    {
      if StartsWith(rid, PREFIXES[i]) {
        rid := rid[|PREFIXES[i]|..];
        break;
      }
    }
    var stripped := StripDateSuffix(rid);
    return if stripped.Some? then stripped.value else rid;
  }

  lemma ThreadPrefix(origin: string, runId: string)
    requires origin == "cli" || origin == "api"
    ensures DropPrefix(ThreadId(origin, runId), 0) == runId
  {
    var t := ThreadId(origin, runId);
    assert PREFIXES[0] == "api-" && PREFIXES[1] == "cli-";
    assert t[..4] == origin + "-" && t[4..] == runId;
    if origin == "cli" {
      assert t[0] == 'c' && t[..4][0] == 'c';
      assert !StartsWith(t, PREFIXES[0]);
      assert DropPrefix(t, 0) == DropPrefix(t, 1);
    }
  }

  /** The scorer buckets a run under its spec id exactly when the id strips back to it. */
  lemma ScorerKeyRoundTrip(origin: string, spec: string, tags: seq<string>, date: string)
    requires origin == "cli" || origin == "api"
    requires (forall i :: 0 <= i < |tags| ==> IsTag(tags[i])) && IsDate(date)
    ensures SpecKey(Some(ThreadId(origin, RunId(spec, tags, date)))) == spec <==> spec != "" && !EndsWithTag(spec)
  {
    ThreadPrefix(origin, RunId(spec, tags, date));
    StripComposed(spec, tags, date);
    StripTagsFixed(spec);
    TagsStrip(spec, tags);
    assert |RunId(spec, tags, date)| > |spec|;
  }

  // ---------- The golden-spec resolver ----------

  const BATTERY_PREFIX := "battery04_"

  predicate Registered(id: string, specs: set<string>)
  {
    id != "" && id in specs
  }

  /** The candidate itself, or its long form. */
  function MatchSpec(candidate: string, specs: set<string>): Option<string>
  {
    if Registered(candidate, specs) then Some(candidate)
    else if Registered(BATTERY_PREFIX + candidate, specs) then Some(BATTERY_PREFIX + candidate)
    else None
  }

  function ResolveSpec(runId: Option<string>, specs: set<string>): Option<string>
  {
    if runId.None? then None
    else if MatchSpec(runId.value, specs).Some? then MatchSpec(runId.value, specs)
    else if Stripped(runId.value).Some? then MatchSpec(Stripped(runId.value).value, specs)
    else None
  }

  /** A run id resolves as its spec id would, short form or long, unless the full id or its long form is
      itself registered. */
  lemma ResolveRoundTrip(spec: string, tags: seq<string>, date: string, specs: set<string>)
    requires (forall i :: 0 <= i < |tags| ==> IsTag(tags[i])) && IsDate(date)
    requires spec != "" && !EndsWithTag(spec) && MatchSpec(spec, specs).Some?
    ensures var run := RunId(spec, tags, date);
      ResolveSpec(Some(run), specs) == MatchSpec(spec, specs) <==>
        (!Registered(run, specs) && !Registered(BATTERY_PREFIX + run, specs))
  {
    StripRoundTrip(spec, tags, date);
    TagsStrip(spec, tags);
    assert |RunId(spec, tags, date)| == |WithTags(spec, tags)| + 9;
    assert |BATTERY_PREFIX| == 10;
  }

  // ---------- The ids in plain terms ----------

  /** A tag is "gen" or "seed" followed by digits. */
  lemma TagExactly(t: string)
    ensures IsTag(t) <==> exists digits :: IsDigits(digits) && (t == "gen" + digits || t == "seed" + digits)
  {
    if IsTag(t) {
      var k := if StartsWith(t, "gen") && IsDigits(t[3..]) then 3 else 4;
      assert t == t[..k] + t[k..];
      assert IsDigits(t[k..]);
    }
    forall digits | IsDigits(digits) && (t == "gen" + digits || t == "seed" + digits) ensures IsTag(t) {
      if t == "gen" + digits {
        assert t[..3] == "gen" && t[3..] == digits;
      } else {
        assert t[..4] == "seed" && t[4..] == digits;
      }
    }
  }

  /** The spec id behind a run id, or the run id itself. */
  function StrippedOr(rid: string): string
  {
    if Stripped(rid).Some? then Stripped(rid).value else rid
  }

  /** The key of a run id without its "api-", "cli-" or "bench-", if it has one of them in front. */
  lemma SpecKeyExactly(rid: string)
    ensures SpecKey(Some("api-" + rid)) == StrippedOr(rid)
    ensures SpecKey(Some("cli-" + rid)) == StrippedOr(rid)
    ensures SpecKey(Some("bench-" + rid)) == StrippedOr(rid)
    ensures !("api-" <= rid) && !("cli-" <= rid) && !("bench-" <= rid) ==> SpecKey(Some(rid)) == StrippedOr(rid)
    ensures SpecKey(None) == ""
  {
    hide StartsWith, DropPrefix, Stripped;
    DropApi(rid);
    DropCli(rid);
    DropBench(rid);
    DropNone(rid);
    NothingStripped();
  }

  lemma NothingStripped()
    ensures Stripped("") == None
  {
  }

  lemma DropApi(rid: string)
    ensures DropPrefix("api-" + rid, 0) == rid
  {
    var a := "api-" + rid;
    assert PREFIXES[0] == "api-" && a[..4] == "api-" && a[4..] == rid;
  }

  lemma DropCli(rid: string)
    ensures DropPrefix("cli-" + rid, 0) == rid
  {
    hide Stripped;
    var c := "cli-" + rid;
    assert PREFIXES[0] == "api-" && PREFIXES[1] == "cli-" && c[..4] == "cli-" && c[4..] == rid;
    assert c[0] == 'c' && "api-"[0] == 'a';
    NotStarting(c, "api-");
    assert DropPrefix(c, 0) == DropPrefix(c, 1);
  }

  lemma DropBench(rid: string)
    ensures DropPrefix("bench-" + rid, 0) == rid
  {
    var b := "bench-" + rid;
    assert PREFIXES[0] == "api-" && PREFIXES[1] == "cli-" && PREFIXES[2] == "bench-";
    assert b[..6] == "bench-" && b[6..] == rid && b[0] == 'b' && "api-"[0] == 'a' && "cli-"[0] == 'c';
    NotStarting(b, "api-");
    NotStarting(b, "cli-");
    assert DropPrefix(b, 0) == DropPrefix(b, 1);
    assert DropPrefix(b, 1) == DropPrefix(b, 2);
  }

  lemma DropNone(rid: string)
    ensures !("api-" <= rid) && !("cli-" <= rid) && !("bench-" <= rid) ==> DropPrefix(rid, 0) == rid
  {
    assert PREFIXES[0] == "api-" && PREFIXES[1] == "cli-" && PREFIXES[2] == "bench-";
    if !("api-" <= rid) && !("cli-" <= rid) && !("bench-" <= rid) {
      assert DropPrefix(rid, 3) == rid;
      assert DropPrefix(rid, 2) == DropPrefix(rid, 3);
      assert DropPrefix(rid, 1) == DropPrefix(rid, 2);
    }
  }

  lemma NotStarting(s: string, prefix: string)
    ensures s != "" && prefix != "" && s[0] != prefix[0] ==> !StartsWith(s, prefix)
  {
    if StartsWith(s, prefix) && prefix != "" {
      assert s[..|prefix|][0] == s[0];
    }
  }

  /** What a run id may stand for, in order of preference. */
  function Candidates(runId: string): seq<string>
  {
    [runId, "battery04_" + runId]
    + if Stripped(runId).Some? then [Stripped(runId).value, "battery04_" + Stripped(runId).value] else []
  }

  ghost predicate FirstRegistered(candidates: seq<string>, specs: set<string>, i: nat)
  {
    && i < |candidates| && candidates[i] != "" && candidates[i] in specs
    && forall j :: 0 <= j < i ==> candidates[j] == "" || candidates[j] !in specs
  }

  /** The resolver returns the first registered candidate, and nothing when none is. */
  lemma ResolveExactly(runId: string, specs: set<string>)
    ensures var c := Candidates(runId);
      && (forall i: nat :: FirstRegistered(c, specs, i) ==> ResolveSpec(Some(runId), specs) == Some(c[i]))
      && ((forall x :: x in c ==> x == "" || x !in specs) ==> ResolveSpec(Some(runId), specs) == None)
  {
    hide Stripped;
    var c := Candidates(runId);
    assert c[0] == runId && c[1] == "battery04_" + runId && c[0] in c && c[1] in c;
    if Stripped(runId).Some? {
      var s := Stripped(runId).value;
      assert c[2] == s && c[3] == "battery04_" + s && c[2] in c && c[3] in c;
    }
  }
}
