/** The compliance evaluator: an item is verified only by runs of the candidate that passed. */
module Compliance {
  import opened Results
  import opened Texts

  // ---- what is evaluated ----

  datatype TestRef = TestRef(file: string, name: string)

  datatype Exclusion = Exclusion(reason: Option<string>, impact: Option<string>, approvedBy: Option<string>)

  /** Whether an item is part of the release; it may not have been decided. */
  datatype Inclusion = Included | Excluded | Undecided

  /** `fields` are the other texts that must not be blank. */
  datatype Requirement = Requirement(
    id: string, packageId: string, fields: seq<string>, inclusion: Inclusion, tests: seq<TestRef>,
    commands: seq<string>,
    blockedBy: Option<string>, exclusion: Option<Exclusion>)

  datatype UseCase = UseCase(
    id: string, classification: string, note: Option<string>, inclusion: Inclusion, tests: seq<TestRef>,
    blockedBy: Option<string>, exclusion: Option<Exclusion>)

  // ---- evidence ----

  datatype Assertion = Assertion(fullName: string, title: string, status: string)

  datatype FileResult = FileResult(name: string, assertions: seq<Assertion>)

  datatype Stamp = Stamp(
    kind: string, sha: string, resultsSha: string, name: string, exitCode: Option<int>)

  datatype Source = Source(stamp: Option<Stamp>, actualSha: string, results: Option<seq<FileResult>>, location: string)

  datatype Outcome = Passed | Failed | Skipped | NotRun | Ambiguous

  datatype Entry = Entry(isTest: bool, ref: string, result: Outcome, stamp: Option<Stamp>)

  datatype Status = Declared | Implemented | Verified | Blocked | Deferred

  datatype Reason =
    | ExcludedBy(approver: string, why: string)
    | ExclusionNotApproved
    | ScopePending
    | MissingFile(file: string)
    | NotPassed(result: Outcome, ref: string)
    | BlockedBy(what: string)
    | NoTestsMapped
    | NotImplemented(note: string)

  /** An item to evaluate, whatever it comes from. */
  datatype Base = Base(
    id: string, packageId: Option<string>, inclusion: Inclusion, blockedBy: Option<string>,
    exclusion: Option<Exclusion>, tests: seq<TestRef>,
    commands: seq<string>)

  datatype Item = Item(
    id: string, packageId: Option<string>, inclusion: Inclusion, counted: bool, status: Status,
    reasons: seq<Reason>, evidence: seq<Entry>)

  const NOT_IMPLEMENTED := "NOT_IMPLEMENTED"
  const COVERAGE_CLAIMS := {"PRODUCTION_COVERED"}
  const SKIPPED := {"pending", "skipped", "todo", "disabled", "focused"}

  // ---- which sources count ----

  /** Why a source is rejected, if it is. */
  function Rejection(source: Source, candidate: string): Option<string> {
    if source.stamp.None? || source.stamp.value.sha == "" then Some("SIN_SELLO")
    else
      var stamp := source.stamp.value;
      if stamp.sha != candidate then Some("SHA_DISTINTO")
      else if stamp.kind == "jest" then
        if source.results.None? then Some("RESULTADOS_JEST_AUSENTES")
        else if stamp.resultsSha == "" || stamp.resultsSha != source.actualSha then Some("RESULTADOS_ALTERADOS")
        else None
      else if stamp.kind == "command" then
        if stamp.name == "" || stamp.exitCode.None? then Some("SELLO_DE_COMANDO_INCOMPLETO") else None
      else Some("TIPO_DESCONOCIDO")
  }

  function Accepted(sources: seq<Source>, candidate: string): (accepted: seq<Source>)
    ensures forall s :: s in accepted ==> s in sources && Rejection(s, candidate).None?
  {
    if sources == [] then []
    else
      var last := sources[|sources| - 1];
      Accepted(sources[..|sources| - 1], candidate) + if Rejection(last, candidate).None? then [last] else []
  }

  method AcceptSources(sources: seq<Source>, candidate: string)
      returns (accepted: seq<Source>, report: seq<Option<string>>)
    ensures accepted == Accepted(sources, candidate)
    ensures |report| == |sources|
    ensures forall i :: 0 <= i < |report| ==> report[i] == Rejection(sources[i], candidate)
  {
    accepted, report := [], [];
    for i := 0 to |sources|
      invariant accepted == Accepted(sources[..i], candidate)
      invariant |report| == i && forall j :: 0 <= j < i ==> report[j] == Rejection(sources[j], candidate)
    {
      assert sources[..i + 1][..i] == sources[..i];
      var reason := Rejection(sources[i], candidate);
      if reason.None? {
        accepted := accepted + [sources[i]];
      }
      report := report + [reason];
    }
    assert sources[..|sources|] == sources;
  }

  // ---- matching a test ----

  function Slashes(path: string): string {
    seq(|path|, i requires 0 <= i < |path| => if path[i] == '\\' then '/' else path[i])
  }

  function WithoutDot(path: string): string {
    if "./" <= path then path[2..] else path
  }

  predicate EndsWith(text: string, end: string) {
    |end| <= |text| && text[|text| - |end|..] == end
  }

  predicate FileMatches(result: FileResult, ref: TestRef) {
    var file := WithoutDot(Slashes(ref.file));
    Slashes(result.name) == file || EndsWith(Slashes(result.name), "/" + file)
  }

  predicate AssertionMatches(a: Assertion, ref: TestRef) {
    ref.name <= a.fullName || ref.name <= a.title
  }

  datatype Match = Match(assertion: Assertion, stamp: Stamp)

  function MatchesInFile(assertions: seq<Assertion>, stamp: Stamp, ref: TestRef): seq<Match> {
    if assertions == [] then []
    else
      var last := assertions[|assertions| - 1];
      MatchesInFile(assertions[..|assertions| - 1], stamp, ref) +
      if AssertionMatches(last, ref) then [Match(last, stamp)] else []
  }

  function MatchesInResults(results: seq<FileResult>, stamp: Stamp, ref: TestRef): seq<Match> {
    if results == [] then []
    else
      var last := results[|results| - 1];
      MatchesInResults(results[..|results| - 1], stamp, ref) +
      if FileMatches(last, ref) then MatchesInFile(last.assertions, stamp, ref) else []
  }

  function MatchesInSource(source: Source, ref: TestRef): seq<Match> {
    if source.stamp.None? || source.stamp.value.kind != "jest" || source.results.None? then []
    else MatchesInResults(source.results.value, source.stamp.value, ref)
  }

  function Matches(sources: seq<Source>, ref: TestRef): seq<Match> {
    if sources == [] then []
    else Matches(sources[..|sources| - 1], ref) + MatchesInSource(sources[|sources| - 1], ref)
  }

  /** The verdict on all the matches of a test: one test, and every run of it. */
  function Verdict(matches: seq<Match>): Outcome {
    if matches == [] then NotRun
    else if exists i :: 0 <= i < |matches| && matches[i].assertion.fullName != matches[0].assertion.fullName
      then Ambiguous
    else if exists i :: 0 <= i < |matches| && matches[i].assertion.status == "failed" then Failed
    else if exists i :: 0 <= i < |matches| && matches[i].assertion.status in SKIPPED then Skipped
    else if exists i :: 0 <= i < |matches| && matches[i].assertion.status != "passed" then Failed
    else Passed
  }

  function TestEntry(sources: seq<Source>, ref: TestRef): Entry {
    var matches := Matches(sources, ref);
    Entry(true, ref.file + " \U{203A} " + ref.name, Verdict(matches),
      if matches == [] then None else Some(matches[0].stamp))
  }

  /** The nested search of the evaluator: sources, then files, then assertions. */
  method FindTest(sources: seq<Source>, ref: TestRef) returns (entry: Entry)
    ensures entry == TestEntry(sources, ref)
  {
    var matches: seq<Match> := [];
    for i := 0 to |sources|
      invariant matches == Matches(sources[..i], ref)
    {
      assert sources[..i + 1][..i] == sources[..i];
      var more := FindInSource(sources[i], ref);
      matches := matches + more;
    }
    assert sources[..|sources|] == sources;
    var stamp := None;
    if |matches| > 0 {
      stamp := Some(matches[0].stamp);
    }
    return Entry(true, ref.file + " \U{203A} " + ref.name, Verdict(matches), stamp);
  }

  method FindInSource(source: Source, ref: TestRef) returns (matches: seq<Match>)
    ensures matches == MatchesInSource(source, ref)
  {
    matches := [];
    if source.stamp.None? || source.stamp.value.kind != "jest" || source.results.None? {
      return;
    }
    var results, stamp := source.results.value, source.stamp.value;
    for f := 0 to |results|
      invariant matches == MatchesInResults(results[..f], stamp, ref)
    {
      assert results[..f + 1][..f] == results[..f];
      if FileMatches(results[f], ref) {
        var found: seq<Match> := [];
        for a := 0 to |results[f].assertions|
          invariant found == MatchesInFile(results[f].assertions[..a], stamp, ref)
        {
          assert results[f].assertions[..a + 1][..a] == results[f].assertions[..a];
          if AssertionMatches(results[f].assertions[a], ref) {
            found := found + [Match(results[f].assertions[a], stamp)];
          }
        }
        assert results[f].assertions[..|results[f].assertions|] == results[f].assertions;
        matches := matches + found;
      }
    }
    assert results[..|results|] == results;
  }

  // ---- commands ----

  predicate RunsCommand(source: Source, name: string) {
    source.stamp.Some? && source.stamp.value.kind == "command" && source.stamp.value.name == name
  }

  function CommandRuns(sources: seq<Source>, name: string): (runs: seq<Stamp>)
    ensures forall r :: r in runs ==>
      exists i :: 0 <= i < |sources| && RunsCommand(sources[i], name) && sources[i].stamp.value == r
    ensures forall i :: 0 <= i < |sources| && RunsCommand(sources[i], name) ==> sources[i].stamp.value in runs
  {
    if sources == [] then []
    else
      var last := sources[|sources| - 1];
      CommandRuns(sources[..|sources| - 1], name) + if RunsCommand(last, name) then [last.stamp.value] else []
  }

  function CommandEntry(sources: seq<Source>, name: string): Entry {
    var runs := CommandRuns(sources, name);
    if runs == [] then Entry(false, name, NotRun, None)
    else
      Entry(false, name, if forall i :: 0 <= i < |runs| ==> runs[i].exitCode == Some(0) then Passed else Failed,
        Some(runs[0]))
  }

  // ---- one item ----

  predicate Truthy(text: Option<string>) {
    text.Some? && text.value != ""
  }

  predicate Filled(text: Option<string>) {
    text.Some? && Trim(text.value) != ""
  }

  predicate ExclusionApproved(exclusion: Option<Exclusion>) {
    && exclusion.Some?
    && Filled(exclusion.value.reason) && Filled(exclusion.value.impact) && Filled(exclusion.value.approvedBy)
  }

  function TestEntries(sources: seq<Source>, tests: seq<TestRef>): (entries: seq<Entry>)
    ensures |entries| == |tests|
  {
    seq(|tests|, i requires 0 <= i < |tests| => TestEntry(sources, tests[i]))
  }

  function CommandEntries(sources: seq<Source>, commands: seq<string>): (entries: seq<Entry>)
    ensures |entries| == |commands|
  {
    seq(|commands|, i requires 0 <= i < |commands| => CommandEntry(sources, commands[i]))
  }

  function MissingFiles(tests: seq<TestRef>, fileExists: string -> bool): (missing: seq<Reason>)
    ensures |missing| <= |tests|
    ensures missing == [] <==> forall i :: 0 <= i < |tests| ==> fileExists(tests[i].file)
  {
    if tests == [] then []
    else
      var last := tests[|tests| - 1];
      MissingFiles(tests[..|tests| - 1], fileExists) + if fileExists(last.file) then [] else [MissingFile(last.file)]
  }

  function Failures(evidence: seq<Entry>): seq<Reason> {
    if evidence == [] then []
    else
      var last := evidence[|evidence| - 1];
      Failures(evidence[..|evidence| - 1]) + if last.result.Passed? then [] else [NotPassed(last.result, last.ref)]
  }

  predicate AllPassed(evidence: seq<Entry>) {
    forall i :: 0 <= i < |evidence| ==> evidence[i].result.Passed?
  }

  function EvidenceOf(base: Base, sources: seq<Source>): seq<Entry> {
    TestEntries(sources, base.tests) + CommandEntries(sources, base.commands)
  }

  function StatusOf(base: Base, evidence: seq<Entry>, missing: nat): Status {
    if Truthy(base.blockedBy) then Blocked
    else if evidence == [] then Declared
    else if missing == 0 && AllPassed(evidence) then Verified
    else if |base.tests| > missing || |base.commands| > 0 then Implemented
    else Declared
  }

  /** An approved exclusion defers the item; one without approval leaves it in the release. */
  function Evaluated(base: Base, sources: seq<Source>, fileExists: string -> bool): Item {
    if base.inclusion.Excluded? && ExclusionApproved(base.exclusion) then
      Item(base.id, base.packageId, base.inclusion, false, Deferred,
        [ExcludedBy(base.exclusion.value.approvedBy.value, base.exclusion.value.reason.value)], [])
    else
      var evidence := EvidenceOf(base, sources);
      var missing := MissingFiles(base.tests, fileExists);
      var scope :=
        if base.inclusion.Excluded? then [ExclusionNotApproved]
        else if base.inclusion.Undecided? then [ScopePending] else [];
      var blocked := if Truthy(base.blockedBy) then [BlockedBy(base.blockedBy.value)] else [];
      var unmapped := if blocked == [] && evidence == [] then [NoTestsMapped] else [];
      Item(base.id, base.packageId, base.inclusion, !base.inclusion.Undecided?, StatusOf(base, evidence, |missing|),
        blocked + scope + missing + Failures(evidence) + unmapped, evidence)
  }

  function OfRequirement(r: Requirement): Base {
    Base(r.id, Some(r.packageId), r.inclusion, r.blockedBy, r.exclusion, r.tests, r.commands)
  }

  function OfUseCase(u: UseCase): Base {
    Base(u.id, None, u.inclusion, u.blockedBy, u.exclusion, u.tests, [])
  }

  /** What has no code is never verified, whatever tests are mapped to it. */
  function MarkNotImplemented(u: UseCase, item: Item): Item {
    if u.classification != NOT_IMPLEMENTED then item
    else
      item.(
        status := if item.status.Verified? || item.status.Implemented? then Declared else item.status,
        reasons := [NotImplemented(if u.note.Some? then u.note.value else "")] + item.reasons)
  }

  function RequirementItems(requirements: seq<Requirement>, accepted: seq<Source>,
                            fileExists: string -> bool): (items: seq<Item>)
    ensures |items| == |requirements|
  {
    seq(|requirements|, i requires 0 <= i < |requirements| =>
      Evaluated(OfRequirement(requirements[i]), accepted, fileExists))
  }

  function UseCaseItems(useCases: seq<UseCase>, accepted: seq<Source>, fileExists: string -> bool): (items: seq<Item>)
    ensures |items| == |useCases|
  {
    seq(|useCases|, i requires 0 <= i < |useCases| =>
      MarkNotImplemented(useCases[i], Evaluated(OfUseCase(useCases[i]), accepted, fileExists)))
  }

  // ---- what a verified item proves ----

  /** The a-th assertion of the f-th file of the i-th source is a run of the test. */
  predicate RunOf(sources: seq<Source>, i: int, f: int, a: int, ref: TestRef) {
    && 0 <= i < |sources|
    && sources[i].stamp.Some? && sources[i].stamp.value.kind == "jest" && sources[i].results.Some?
    && 0 <= f < |sources[i].results.value| && FileMatches(sources[i].results.value[f], ref)
    && 0 <= a < |sources[i].results.value[f].assertions|
    && AssertionMatches(sources[i].results.value[f].assertions[a], ref)
  }

  function AssertionAt(sources: seq<Source>, i: int, f: int, a: int, ref: TestRef): Assertion
    requires RunOf(sources, i, f, a, ref)
  {
    sources[i].results.value[f].assertions[a]
  }

  lemma {:induction false} InFile(assertions: seq<Assertion>, stamp: Stamp, ref: TestRef, m: Match)
    ensures m in MatchesInFile(assertions, stamp, ref) <==>
            m.stamp == stamp && AssertionMatches(m.assertion, ref) && m.assertion in assertions
    decreases |assertions|
  {
    if assertions != [] {
      InFile(assertions[..|assertions| - 1], stamp, ref, m);
      assert assertions == assertions[..|assertions| - 1] + [assertions[|assertions| - 1]];
    }
  }

  lemma {:induction false} InResults(results: seq<FileResult>, stamp: Stamp, ref: TestRef, m: Match)
    ensures m in MatchesInResults(results, stamp, ref) <==>
            m.stamp == stamp && AssertionMatches(m.assertion, ref) &&
            exists f :: 0 <= f < |results| && FileMatches(results[f], ref) && m.assertion in results[f].assertions
    decreases |results|
  {
    if results != [] {
      var init, last := results[..|results| - 1], results[|results| - 1];
      InResults(init, stamp, ref, m);
      InFile(last.assertions, stamp, ref, m);
      assert forall f :: 0 <= f < |init| ==> init[f] == results[f];
    }
  }

  predicate FoundIn(source: Source, ref: TestRef, m: Match) {
    && source.stamp == Some(m.stamp) && m.stamp.kind == "jest" && source.results.Some?
    && AssertionMatches(m.assertion, ref)
    && exists f :: 0 <= f < |source.results.value| && FileMatches(source.results.value[f], ref) &&
                   m.assertion in source.results.value[f].assertions
  }

  lemma {:induction false} InSources(sources: seq<Source>, ref: TestRef, m: Match)
    ensures m in Matches(sources, ref) <==> exists i :: 0 <= i < |sources| && FoundIn(sources[i], ref, m)
    decreases |sources|
  {
    if sources != [] {
      var init, last := sources[..|sources| - 1], sources[|sources| - 1];
      InSources(init, ref, m);
      if last.results.Some? && last.stamp.Some? {
        InResults(last.results.value, last.stamp.value, ref, m);
      }
      assert forall i :: 0 <= i < |init| ==> init[i] == sources[i];
    }
  }

  /** The test ran, only one test is meant, and every run of it passed. */
  ghost predicate Proven(sources: seq<Source>, ref: TestRef) {
    && (exists i, f, a :: RunOf(sources, i, f, a, ref))
    && (forall i, f, a :: RunOf(sources, i, f, a, ref) ==> AssertionAt(sources, i, f, a, ref).status == "passed")
    && (forall i, f, a, j, g, b :: RunOf(sources, i, f, a, ref) && RunOf(sources, j, g, b, ref) ==>
          AssertionAt(sources, i, f, a, ref).fullName == AssertionAt(sources, j, g, b, ref).fullName)
  }

  lemma RunIsMatch(sources: seq<Source>, i: int, f: int, a: int, ref: TestRef) returns (m: Match)
    requires RunOf(sources, i, f, a, ref)
    ensures m in Matches(sources, ref) && m.assertion == AssertionAt(sources, i, f, a, ref)
  {
    m := Match(AssertionAt(sources, i, f, a, ref), sources[i].stamp.value);
    InSources(sources, ref, m);
    assert FoundIn(sources[i], ref, m);
  }

  lemma MatchIsRun(sources: seq<Source>, ref: TestRef, m: Match) returns (i: int, f: int, a: int)
    requires m in Matches(sources, ref)
    ensures RunOf(sources, i, f, a, ref) && AssertionAt(sources, i, f, a, ref) == m.assertion
  {
    InSources(sources, ref, m);
    i :| 0 <= i < |sources| && FoundIn(sources[i], ref, m);
    f :| 0 <= f < |sources[i].results.value| && FileMatches(sources[i].results.value[f], ref) &&
         m.assertion in sources[i].results.value[f].assertions;
    a :| 0 <= a < |sources[i].results.value[f].assertions| && sources[i].results.value[f].assertions[a] == m.assertion;
  }

  predicate Unanimous(matches: seq<Match>) {
    && matches != []
    && (forall i :: 0 <= i < |matches| ==> matches[i].assertion.status == "passed")
    && (forall i :: 0 <= i < |matches| ==> matches[i].assertion.fullName == matches[0].assertion.fullName)
  }

  lemma VerdictPassed(matches: seq<Match>)
    ensures Verdict(matches) == Passed <==> Unanimous(matches)
  {
    assert "passed" != "failed";
    assert "passed" !in SKIPPED;
  }

  /** A test entry passes exactly when the runs prove the test. */
  lemma TestPassesIffProven(sources: seq<Source>, ref: TestRef)
    ensures TestEntry(sources, ref).result == Passed <==> Proven(sources, ref)
  {
    var matches := Matches(sources, ref);
    VerdictPassed(matches);
    if Unanimous(matches) {
      ProvenByMatches(sources, ref);
    }
    if Proven(sources, ref) {
      MatchesByRuns(sources, ref);
    }
  }

  lemma ProvenByMatches(sources: seq<Source>, ref: TestRef)
    requires Unanimous(Matches(sources, ref))
    ensures Proven(sources, ref)
  {
    var matches := Matches(sources, ref);
    var i0, f0, a0 := MatchIsRun(sources, ref, matches[0]);
    forall i, f, a | RunOf(sources, i, f, a, ref)
      ensures AssertionAt(sources, i, f, a, ref).status == "passed"
      ensures AssertionAt(sources, i, f, a, ref).fullName == matches[0].assertion.fullName
    {
      var m := RunIsMatch(sources, i, f, a, ref);
      var k :| 0 <= k < |matches| && matches[k] == m;
    }
  }

  lemma MatchesByRuns(sources: seq<Source>, ref: TestRef)
    requires Proven(sources, ref)
    ensures Unanimous(Matches(sources, ref))
  {
    var matches := Matches(sources, ref);
    var i0, f0, a0 :| RunOf(sources, i0, f0, a0, ref);
    var m0 := RunIsMatch(sources, i0, f0, a0, ref);
    var i1, f1, a1 := MatchIsRun(sources, ref, matches[0]);
    forall k | 0 <= k < |matches|
      ensures matches[k].assertion.status == "passed"
      ensures matches[k].assertion.fullName == matches[0].assertion.fullName
    {
      var i, f, a := MatchIsRun(sources, ref, matches[k]);
    }
  }

  /** The command ran and every run of it ended well. */
  ghost predicate CommandProven(sources: seq<Source>, name: string) {
    && (exists i :: 0 <= i < |sources| && RunsCommand(sources[i], name))
    && (forall i :: 0 <= i < |sources| && RunsCommand(sources[i], name) ==> sources[i].stamp.value.exitCode == Some(0))
  }

  lemma CommandPassesIffProven(sources: seq<Source>, name: string)
    ensures CommandEntry(sources, name).result == Passed <==> CommandProven(sources, name)
  {
    var runs := CommandRuns(sources, name);
    if CommandProven(sources, name) {
      var i :| 0 <= i < |sources| && RunsCommand(sources[i], name);
      assert sources[i].stamp.value in runs;
      forall k | 0 <= k < |runs|
        ensures runs[k].exitCode == Some(0)
      {
        assert runs[k] in runs;
      }
    }
    if CommandEntry(sources, name).result == Passed {
      assert runs[0] in runs;
      forall i | 0 <= i < |sources| && RunsCommand(sources[i], name)
        ensures sources[i].stamp.value.exitCode == Some(0)
      {
        var k :| 0 <= k < |runs| && runs[k] == sources[i].stamp.value;
      }
    }
  }

  /** Everything mapped to the item is proved by the accepted sources, and there is something. */
  ghost predicate Evidenced(base: Base, accepted: seq<Source>, fileExists: string -> bool) {
    && !Truthy(base.blockedBy)
    && (base.tests != [] || base.commands != [])
    && (forall i :: 0 <= i < |base.tests| ==> fileExists(base.tests[i].file) && Proven(accepted, base.tests[i]))
    && (forall i :: 0 <= i < |base.commands| ==> CommandProven(accepted, base.commands[i]))
  }

  lemma TestsPass(tests: seq<TestRef>, accepted: seq<Source>)
    ensures AllPassed(TestEntries(accepted, tests)) <==> forall i :: 0 <= i < |tests| ==> Proven(accepted, tests[i])
  {
    var entries := TestEntries(accepted, tests);
    forall i | 0 <= i < |tests|
      ensures entries[i].result.Passed? <==> Proven(accepted, tests[i])
    {
      TestPassesIffProven(accepted, tests[i]);
    }
    if AllPassed(entries) {
      assert forall i :: 0 <= i < |tests| ==> entries[i].result.Passed?;
    }
  }

  lemma CommandsPass(commands: seq<string>, accepted: seq<Source>)
    ensures AllPassed(CommandEntries(accepted, commands)) <==>
            forall i :: 0 <= i < |commands| ==> CommandProven(accepted, commands[i])
  {
    var entries := CommandEntries(accepted, commands);
    forall i | 0 <= i < |commands|
      ensures entries[i].result.Passed? <==> CommandProven(accepted, commands[i])
    {
      CommandPassesIffProven(accepted, commands[i]);
    }
    if AllPassed(entries) {
      assert forall i :: 0 <= i < |commands| ==> entries[i].result.Passed?;
    }
  }

  lemma PassedConcat(a: seq<Entry>, b: seq<Entry>)
    ensures AllPassed(a + b) <==> AllPassed(a) && AllPassed(b)
  {
    if AllPassed(a + b) {
      assert forall i :: 0 <= i < |a| ==> a[i] == (a + b)[i];
      assert forall i :: 0 <= i < |b| ==> b[i] == (a + b)[|a| + i];
    }
  }

  lemma EvidencePasses(base: Base, accepted: seq<Source>)
    ensures AllPassed(EvidenceOf(base, accepted)) <==>
            (forall i :: 0 <= i < |base.tests| ==> Proven(accepted, base.tests[i])) &&
            (forall i :: 0 <= i < |base.commands| ==> CommandProven(accepted, base.commands[i]))
  {
    TestsPass(base.tests, accepted);
    CommandsPass(base.commands, accepted);
    PassedConcat(TestEntries(accepted, base.tests), CommandEntries(accepted, base.commands));
  }

  /** An item is verified exactly when it is not excluded with approval and all its evidence is there. */
  lemma VerifiedIffEvidenced(base: Base, sources: seq<Source>, candidate: string, fileExists: string -> bool)
    ensures Evaluated(base, Accepted(sources, candidate), fileExists).status == Verified <==>
            !(base.inclusion.Excluded? && ExclusionApproved(base.exclusion)) &&
            Evidenced(base, Accepted(sources, candidate), fileExists)
  {
    var accepted := Accepted(sources, candidate);
    EvidencePasses(base, accepted);
    assert EvidenceOf(base, accepted) == [] <==> base.tests == [] && base.commands == [];
    assert MissingFiles(base.tests, fileExists) == [] <==> |MissingFiles(base.tests, fileExists)| == 0;
  }

  /** Every source that counts carries the candidate's own stamp, unaltered. */
  lemma AcceptedAreOfCandidate(sources: seq<Source>, candidate: string, i: nat)
    requires i < |Accepted(sources, candidate)|
    ensures var s := Accepted(sources, candidate)[i];
            && s in sources
            && s.stamp.Some? && s.stamp.value.sha == candidate != ""
            && (s.stamp.value.kind == "jest" ==> s.stamp.value.resultsSha == s.actualSha != "")
  {
    assert Accepted(sources, candidate)[i] in Accepted(sources, candidate);
  }

  lemma {:induction false} AcceptedConcat(a: seq<Source>, b: seq<Source>, candidate: string)
    ensures Accepted(a + b, candidate) == Accepted(a, candidate) + Accepted(b, candidate)
    decreases |b|
  {
    if b == [] {
      assert a + b == a;
    } else {
      assert (a + b)[..|a + b| - 1] == a + b[..|b| - 1];
      AcceptedConcat(a, b[..|b| - 1], candidate);
    }
  }

  /** Rejected sources, wherever they stand, change nothing of what counts. */
  lemma {:induction false} RejectedSourcesCountNothing(before: seq<Source>, rejected: seq<Source>, after: seq<Source>,
                                                       candidate: string)
    requires forall i :: 0 <= i < |rejected| ==> Rejection(rejected[i], candidate).Some?
    ensures Accepted(before + rejected + after, candidate) == Accepted(before + after, candidate)
    decreases |rejected|
  {
    NoneAccepted(rejected, candidate);
    AcceptedConcat(before + rejected, after, candidate);
    AcceptedConcat(before, rejected, candidate);
    AcceptedConcat(before, after, candidate);
  }

  lemma {:induction false} NoneAccepted(rejected: seq<Source>, candidate: string)
    requires forall i :: 0 <= i < |rejected| ==> Rejection(rejected[i], candidate).Some?
    ensures Accepted(rejected, candidate) == []
    decreases |rejected|
  {
    if rejected != [] {
      NoneAccepted(rejected[..|rejected| - 1], candidate);
    }
  }

  // ---- counts ----

  datatype Summary = Summary(
    total: nat, included: nat, verifiedIncluded: nat, pending: nat, unapproved: nat,
    declared: nat, implemented: nat, verified: nat, blocked: nat, deferred: nat)

  function One(b: bool): nat {
    if b then 1 else 0
  }

  function Counted(s: Summary, i: Item): Summary {
    Summary(
      s.total + 1,
      s.included + One(i.counted),
      s.verifiedIncluded + One(i.counted && i.status.Verified?),
      s.pending + One(i.inclusion.Undecided?),
      s.unapproved + One(i.inclusion.Excluded? && !i.status.Deferred?),
      s.declared + One(i.status.Declared?),
      s.implemented + One(i.status.Implemented?),
      s.verified + One(i.status.Verified?),
      s.blocked + One(i.status.Blocked?),
      s.deferred + One(i.status.Deferred?))
  }

  const NOTHING := Summary(0, 0, 0, 0, 0, 0, 0, 0, 0, 0)

  function Summed(items: seq<Item>): Summary {
    if items == [] then NOTHING else Counted(Summed(items[..|items| - 1]), items[|items| - 1])
  }

  method Summarize(items: seq<Item>) returns (summary: Summary)
    ensures summary == Summed(items)
  {
    summary := NOTHING;
    for k := 0 to |items|
      invariant summary == Summed(items[..k])
    {
      assert items[..k + 1][..k] == items[..k];
      summary := CountItem(summary, items[k]);
    }
    assert items[..|items|] == items;
  }

  method CountItem(before: Summary, i: Item) returns (s: Summary)
    ensures s == Counted(before, i)
  {
    s := before.(total := before.total + 1);
    match i.status {
      case Declared => s := s.(declared := s.declared + 1);
      case Implemented => s := s.(implemented := s.implemented + 1);
      case Verified => s := s.(verified := s.verified + 1);
      case Blocked => s := s.(blocked := s.blocked + 1);
      case Deferred => s := s.(deferred := s.deferred + 1);
    }
    if i.counted {
      s := s.(included := s.included + 1);
      if i.status.Verified? {
        s := s.(verifiedIncluded := s.verifiedIncluded + 1);
      }
    }
    if i.inclusion.Undecided? {
      s := s.(pending := s.pending + 1);
    }
    if i.inclusion.Excluded? && !i.status.Deferred? {
      s := s.(unapproved := s.unapproved + 1);
    }
  }

  /** How an item's place in the counts follows from its scope. */
  predicate Placed(i: Item) {
    && (i.inclusion.Undecided? ==> !i.counted && !i.status.Deferred?)
    && (i.status.Deferred? ==> i.inclusion.Excluded? && !i.counted)
    && (!i.counted ==> i.inclusion.Undecided? || i.status.Deferred?)
  }

  /** Every one of n items is counted in one place and under one status. */
  predicate AddsUp(s: Summary, n: nat) {
    && s.total == n == s.included + s.pending + s.deferred
    && s.total == s.declared + s.implemented + s.verified + s.blocked + s.deferred
  }

  lemma EvaluatedPlaced(base: Base, accepted: seq<Source>, fileExists: string -> bool)
    ensures Placed(Evaluated(base, accepted, fileExists))
  {
  }

  lemma MarkedPlaced(u: UseCase, item: Item)
    requires Placed(item)
    ensures Placed(MarkNotImplemented(u, item))
  {
  }

  lemma {:induction false} PlacedAddUp(items: seq<Item>)
    requires forall i :: 0 <= i < |items| ==> Placed(items[i])
    ensures AddsUp(Summed(items), |items|)
    decreases |items|
  {
    if items != [] {
      PlacedAddUp(items[..|items| - 1]);
    }
  }

  predicate StrictPass(invalid: nat, requirements: Summary, useCases: Summary) {
    && invalid == 0
    && requirements.included == requirements.verifiedIncluded && requirements.pending == 0
    && useCases.included == useCases.verifiedIncluded && useCases.pending == 0
  }

  lemma {:induction false} FullyVerified(items: seq<Item>)
    ensures var s := Summed(items);
            && s.verifiedIncluded <= s.included
            && (s.included == s.verifiedIncluded <==>
                  forall i :: 0 <= i < |items| && items[i].counted ==> items[i].status.Verified?)
            && (s.pending == 0 <==> forall i :: 0 <= i < |items| ==> !items[i].inclusion.Undecided?)
    decreases |items|
  {
    if items != [] {
      FullyVerified(items[..|items| - 1]);
    }
  }

  // ---- requirements with several packages ----

  predicate SomeStatus(items: seq<Item>, status: Status) {
    exists i :: 0 <= i < |items| && items[i].status == status
  }

  /** The worst status of the items that share an identifier. */
  function GroupStatus(items: seq<Item>): Status {
    if SomeStatus(items, Blocked) then Blocked
    else if SomeStatus(items, Declared) then Declared
    else if SomeStatus(items, Implemented) then Implemented
    else if SomeStatus(items, Deferred) then Deferred
    else if SomeStatus(items, Verified) then Verified
    else Declared
  }

  /** The items with an identifier, in order. */
  function GroupOf(items: seq<Item>, id: string): seq<Item> {
    if items == [] then []
    else
      var last := items[|items| - 1];
      GroupOf(items[..|items| - 1], id) + if last.id == id then [last] else []
  }

  function Ids(items: seq<Item>): set<string> {
    set i | 0 <= i < |items| :: items[i].id
  }

  lemma {:induction false} InGroup(items: seq<Item>, id: string, item: Item)
    ensures item in GroupOf(items, id) <==> item in items && item.id == id
    decreases |items|
  {
    if items != [] {
      InGroup(items[..|items| - 1], id, item);
      assert items == items[..|items| - 1] + [items[|items| - 1]];
    }
  }

  /** The items by identifier, as one pass over them collects them. */
  method GroupById(items: seq<Item>) returns (groups: map<string, seq<Item>>)
    ensures groups.Keys == Ids(items)
    ensures forall id :: id in groups ==> groups[id] == GroupOf(items, id)
  {
    groups := map[];
    for k := 0 to |items|
      invariant groups.Keys == Ids(items[..k])
      invariant forall id :: id in groups ==> groups[id] == GroupOf(items[..k], id)
    {
      GroupNext(items, k);
      var before := if items[k].id in groups then groups[items[k].id] else [];
      groups := groups[items[k].id := before + [items[k]]];
    }
    assert items[..|items|] == items;
  }

  lemma GroupNext(items: seq<Item>, k: nat)
    requires k < |items|
    ensures Ids(items[..k + 1]) == Ids(items[..k]) + {items[k].id}
    ensures forall id :: GroupOf(items[..k + 1], id) ==
                         GroupOf(items[..k], id) + if items[k].id == id then [items[k]] else []
    ensures forall id :: id !in Ids(items[..k]) ==> GroupOf(items[..k], id) == []
  {
    var longer, init := items[..k + 1], items[..k];
    assert longer[..k] == init && longer[k] == items[k];
    forall id | id in Ids(init) + {items[k].id}
      ensures id in Ids(longer)
    {
      if id != items[k].id {
        var i :| 0 <= i < k && init[i].id == id;
        assert longer[i].id == id;
      }
    }
    forall id | id in Ids(longer)
      ensures id in Ids(init) + {items[k].id}
    {
      var i :| 0 <= i < k + 1 && longer[i].id == id;
      assert i < k ==> init[i].id == id;
    }
    forall id | id !in Ids(init)
      ensures GroupOf(init, id) == []
    {
      EmptyGroup(init, id);
    }
  }

  lemma EmptyGroup(items: seq<Item>, id: string)
    requires id !in Ids(items)
    ensures GroupOf(items, id) == []
  {
    if GroupOf(items, id) != [] {
      InGroup(items, id, GroupOf(items, id)[0]);
    }
  }

  datatype Group = Group(packages: seq<string>, status: Status)

  function Packages(items: seq<Item>): (packages: seq<string>)
    ensures |packages| == |items|
  {
    seq(|items|, i requires 0 <= i < |items| => if items[i].packageId.Some? then items[i].packageId.value else "?")
  }

  /** The line of each identifier. */
  function GroupsOf(items: seq<Item>): map<string, Group> {
    map id | id in Ids(items) :: Group(Packages(GroupOf(items, id)), GroupStatus(GroupOf(items, id)))
  }

  method Grouped(items: seq<Item>) returns (lines: map<string, Group>)
    ensures lines == GroupsOf(items)
  {
    var groups := GroupById(items);
    lines := map id | id in groups :: Group(Packages(groups[id]), GroupStatus(groups[id]));
  }

  /** An identifier is verified exactly when every item that has it is. */
  lemma IdVerified(items: seq<Item>, id: string)
    requires id in Ids(items)
    ensures GroupsOf(items)[id].status == Verified <==>
            forall i :: 0 <= i < |items| && items[i].id == id ==> items[i].status == Verified
  {
    var group := GroupOf(items, id);
    GroupVerified(group);
    var k :| 0 <= k < |items| && items[k].id == id;
    InGroup(items, id, items[k]);
    if forall i :: 0 <= i < |group| ==> group[i].status == Verified {
      forall i | 0 <= i < |items| && items[i].id == id
        ensures items[i].status == Verified
      {
        InGroup(items, id, items[i]);
      }
    }
    if forall i :: 0 <= i < |items| && items[i].id == id ==> items[i].status == Verified {
      forall i | 0 <= i < |group|
        ensures group[i].status == Verified
      {
        InGroup(items, id, group[i]);
        var j :| 0 <= j < |items| && items[j] == group[i];
      }
    }
  }

  /** A group is verified exactly when it has items and all of them are. */
  lemma GroupVerified(items: seq<Item>)
    ensures GroupStatus(items) == Verified <==>
            items != [] && forall i :: 0 <= i < |items| ==> items[i].status == Verified
  {
    if items != [] && forall i :: 0 <= i < |items| ==> items[i].status == Verified {
      assert items[0].status == Verified;
    }
    if GroupStatus(items) == Verified {
      forall i | 0 <= i < |items|
        ensures items[i].status == Verified
      {
        assert !SomeStatus(items, Blocked) && !SomeStatus(items, Declared);
        assert !SomeStatus(items, Implemented) && !SomeStatus(items, Deferred);
      }
    }
  }

  // ---- the whole evaluation ----

  predicate Blank(text: string) {
    Trim(text) == ""
  }

  function BlankFields(fields: seq<string>): nat {
    if fields == [] then 0 else BlankFields(fields[..|fields| - 1]) + One(Blank(fields[|fields| - 1]))
  }

  function UnnamedTests(tests: seq<TestRef>): nat {
    if tests == [] then 0
    else UnnamedTests(tests[..|tests| - 1]) + One(tests[|tests| - 1].file == "" || tests[|tests| - 1].name == "")
  }

  function RequirementProblems(r: Requirement): nat {
    One(Blank(r.id)) + One(Blank(r.packageId)) + BlankFields(r.fields) + UnnamedTests(r.tests)
  }

  /** A claim of coverage without tests, or something not implemented without saying what is missing. */
  function UseCaseProblems(u: UseCase): nat {
    One(u.classification in COVERAGE_CLAIMS && u.tests == []) +
    One(u.classification == NOT_IMPLEMENTED && !Filled(u.note))
  }

  function ReqKey(r: Requirement): string {
    r.id + "@" + r.packageId
  }

  function KeysOf(requirements: seq<Requirement>): set<string> {
    if requirements == [] then {}
    else KeysOf(requirements[..|requirements| - 1]) + {ReqKey(requirements[|requirements| - 1])}
  }

  function Problems(requirements: seq<Requirement>): nat {
    if requirements == [] then 0
    else
      var init, last := requirements[..|requirements| - 1], requirements[|requirements| - 1];
      Problems(init) + RequirementProblems(last) + One(ReqKey(last) in KeysOf(init))
  }

  function AllUseCaseProblems(useCases: seq<UseCase>): nat {
    if useCases == [] then 0
    else AllUseCaseProblems(useCases[..|useCases| - 1]) + UseCaseProblems(useCases[|useCases| - 1])
  }

  datatype Result = Result(
    requirements: seq<Item>, useCases: seq<Item>, byRequirementId: map<string, Group>,
    ofRequirements: Summary, ofUseCases: Summary, invalid: nat, strictPass: bool)

  lemma ProblemsNext(requirements: seq<Requirement>, i: nat)
    requires i < |requirements|
    ensures KeysOf(requirements[..i + 1]) == KeysOf(requirements[..i]) + {ReqKey(requirements[i])}
    ensures Problems(requirements[..i + 1]) ==
            Problems(requirements[..i]) + RequirementProblems(requirements[i]) +
            One(ReqKey(requirements[i]) in KeysOf(requirements[..i]))
  {
    assert requirements[..i + 1][..i] == requirements[..i];
  }

  method CountProblems(requirements: seq<Requirement>) returns (invalid: nat)
    ensures invalid == Problems(requirements)
  {
    invalid := 0;
    var seen: set<string> := {};
    for i := 0 to |requirements|
      invariant invalid == Problems(requirements[..i])
      invariant seen == KeysOf(requirements[..i])
    {
      ProblemsNext(requirements, i);
      var key := ReqKey(requirements[i]);
      invalid := invalid + RequirementProblems(requirements[i]);
      if key in seen {
        invalid := invalid + 1;
      }
      seen := seen + {key};
    }
    assert requirements[..|requirements|] == requirements;
  }

  method CountUseCaseProblems(useCases: seq<UseCase>) returns (invalid: nat)
    ensures invalid == AllUseCaseProblems(useCases)
  {
    invalid := 0;
    for i := 0 to |useCases|
      invariant invalid == AllUseCaseProblems(useCases[..i])
    {
      assert useCases[..i + 1][..i] == useCases[..i];
      invalid := invalid + UseCaseProblems(useCases[i]);
    }
    assert useCases[..|useCases|] == useCases;
  }

  /** Nothing in the list is undecided, and what counts in it is verified. */
  predicate Complete(items: seq<Item>) {
    forall i :: 0 <= i < |items| ==> !items[i].inclusion.Undecided? && (items[i].counted ==> items[i].status.Verified?)
  }

  lemma CompleteIffCounts(items: seq<Item>)
    ensures Complete(items) <==> Summed(items).included == Summed(items).verifiedIncluded && Summed(items).pending == 0
  {
    FullyVerified(items);
  }

  method Evaluate(requirements: seq<Requirement>, useCases: seq<UseCase>, sources: seq<Source>, candidate: string,
                  fileExists: string -> bool)
      returns (result: Result)
    ensures result.requirements == RequirementItems(requirements, Accepted(sources, candidate), fileExists)
    ensures result.useCases == UseCaseItems(useCases, Accepted(sources, candidate), fileExists)
    ensures result.byRequirementId == GroupsOf(result.requirements)
    ensures result.ofRequirements == Summed(result.requirements) && result.ofUseCases == Summed(result.useCases)
    ensures result.invalid == Problems(requirements) + AllUseCaseProblems(useCases)
    ensures result.strictPass <==> result.invalid == 0 && Complete(result.requirements) && Complete(result.useCases)
  {
    var invalid := CountProblems(requirements);
    var more := CountUseCaseProblems(useCases);
    var accepted, report := AcceptSources(sources, candidate);
    var items := RequirementItems(requirements, accepted, fileExists);
    var cases := UseCaseItems(useCases, accepted, fileExists);
    var groups := Grouped(items);
    var first := Summarize(items);
    var second := Summarize(cases);
    CompleteIffCounts(items);
    CompleteIffCounts(cases);
    return Result(items, cases, groups, first, second, invalid + more, StrictPass(invalid + more, first, second));
  }

  lemma {:induction false} NoProblemsBlankFields(fields: seq<string>)
    ensures BlankFields(fields) == 0 <==> forall i :: 0 <= i < |fields| ==> !Blank(fields[i])
    decreases |fields|
  {
    if fields != [] {
      NoProblemsBlankFields(fields[..|fields| - 1]);
    }
  }

  lemma {:induction false} NoProblemsTests(tests: seq<TestRef>)
    ensures UnnamedTests(tests) == 0 <==> forall i :: 0 <= i < |tests| ==> tests[i].file != "" && tests[i].name != ""
    decreases |tests|
  {
    if tests != [] {
      NoProblemsTests(tests[..|tests| - 1]);
    }
  }

  lemma {:induction false} KeyAmong(requirements: seq<Requirement>, key: string)
    ensures key in KeysOf(requirements) <==> exists i :: 0 <= i < |requirements| && ReqKey(requirements[i]) == key
    decreases |requirements|
  {
    if requirements != [] {
      var init := requirements[..|requirements| - 1];
      KeyAmong(init, key);
      assert forall i :: 0 <= i < |init| ==> init[i] == requirements[i];
      assert requirements[|requirements| - 1] == requirements[|init|];
    }
  }

  predicate Sound(r: Requirement) {
    && !Blank(r.id) && !Blank(r.packageId)
    && (forall i :: 0 <= i < |r.fields| ==> !Blank(r.fields[i]))
    && (forall i :: 0 <= i < |r.tests| ==> r.tests[i].file != "" && r.tests[i].name != "")
  }

  predicate DistinctKeys(requirements: seq<Requirement>) {
    forall i, j :: 0 <= i < j < |requirements| ==> ReqKey(requirements[i]) != ReqKey(requirements[j])
  }

  lemma DistinctKeysNext(init: seq<Requirement>, last: Requirement)
    ensures DistinctKeys(init + [last]) <==> DistinctKeys(init) && ReqKey(last) !in KeysOf(init)
  {
    KeyAmong(init, ReqKey(last));
    var all := init + [last];
    if DistinctKeys(all) {
      assert forall i, j :: 0 <= i < j < |init| ==> all[i] == init[i] && all[j] == init[j];
      forall i | 0 <= i < |init|
        ensures ReqKey(init[i]) != ReqKey(last)
      {
        assert all[i] == init[i] && all[|init|] == last;
      }
    }
  }

  lemma RequirementSound(r: Requirement)
    ensures RequirementProblems(r) == 0 <==> Sound(r)
  {
    NoProblemsBlankFields(r.fields);
    NoProblemsTests(r.tests);
  }

  predicate AllSound(requirements: seq<Requirement>) {
    forall i :: 0 <= i < |requirements| ==> Sound(requirements[i])
  }

  lemma NoProblemsNext(init: seq<Requirement>, last: Requirement)
    ensures Problems(init + [last]) == 0 <==> Problems(init) == 0 && Sound(last) && ReqKey(last) !in KeysOf(init)
  {
    assert (init + [last])[..|init|] == init;
    RequirementSound(last);
  }

  lemma AllSoundNext(init: seq<Requirement>, last: Requirement)
    ensures AllSound(init + [last]) <==> AllSound(init) && Sound(last)
  {
    var all := init + [last];
    assert all[|init|] == last;
    assert forall i :: 0 <= i < |init| ==> all[i] == init[i];
  }

  /** Nothing is invalid exactly when every requirement is complete and no two have the same key. */
  lemma {:induction false} NoProblems(requirements: seq<Requirement>)
    ensures Problems(requirements) == 0 <==> AllSound(requirements) && DistinctKeys(requirements)
    decreases |requirements|
  {
    if requirements != [] {
      var init, last := requirements[..|requirements| - 1], requirements[|requirements| - 1];
      NoProblems(init);
      assert requirements == init + [last];
      NoProblemsNext(init, last);
      DistinctKeysNext(init, last);
      AllSoundNext(init, last);
    }
  }

  lemma RequirementsAddUp(requirements: seq<Requirement>, accepted: seq<Source>, fileExists: string -> bool,
                          items: seq<Item>)
    requires items == RequirementItems(requirements, accepted, fileExists)
    ensures AddsUp(Summed(items), |requirements|)
  {
    forall i | 0 <= i < |items|
      ensures Placed(items[i])
    {
      EvaluatedPlaced(OfRequirement(requirements[i]), accepted, fileExists);
    }
    PlacedAddUp(items);
  }

  lemma UseCasesAddUp(useCases: seq<UseCase>, accepted: seq<Source>, fileExists: string -> bool, items: seq<Item>)
    requires items == UseCaseItems(useCases, accepted, fileExists)
    ensures AddsUp(Summed(items), |useCases|)
  {
    forall i | 0 <= i < |items|
      ensures Placed(items[i])
    {
      EvaluatedPlaced(OfUseCase(useCases[i]), accepted, fileExists);
      MarkedPlaced(useCases[i], Evaluated(OfUseCase(useCases[i]), accepted, fileExists));
    }
    PlacedAddUp(items);
  }

  /** In both lists every item is included, pending or deferred, and only one of them, and has one status. */
  lemma TotalsAddUp(requirements: seq<Requirement>, useCases: seq<UseCase>, accepted: seq<Source>,
                    fileExists: string -> bool)
    ensures AddsUp(Summed(RequirementItems(requirements, accepted, fileExists)), |requirements|)
    ensures AddsUp(Summed(UseCaseItems(useCases, accepted, fileExists)), |useCases|)
  {
    RequirementsAddUp(requirements, accepted, fileExists, RequirementItems(requirements, accepted, fileExists));
    UseCasesAddUp(useCases, accepted, fileExists, UseCaseItems(useCases, accepted, fileExists));
  }

  /** A use case is verified exactly when its evidence is there and it is not marked as not implemented. */
  lemma UseCaseVerified(u: UseCase, sources: seq<Source>, candidate: string, fileExists: string -> bool)
    ensures var item := Evaluated(OfUseCase(u), Accepted(sources, candidate), fileExists);
            MarkNotImplemented(u, item).status == Verified <==>
            u.classification != NOT_IMPLEMENTED &&
            !(u.inclusion.Excluded? && ExclusionApproved(u.exclusion)) &&
            Evidenced(OfUseCase(u), Accepted(sources, candidate), fileExists)
  {
    VerifiedIffEvidenced(OfUseCase(u), sources, candidate, fileExists);
  }
}
