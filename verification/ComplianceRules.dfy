/** The rules of the compliance evaluator by the fields of what it reads. */
module ComplianceRules {
  import opened Compliance
  import opened Results
  import opened Texts

  // ---- sources ----

  /** A stamp of the candidate, with complete contents of its kind. */
  predicate Counts(source: Source, candidate: string) {
    && source.stamp.Some? && source.stamp.value.sha == candidate && candidate != ""
    && (source.stamp.value.kind == "jest" || source.stamp.value.kind == "command")
    && (source.stamp.value.kind == "jest" ==>
          source.results.Some? && source.actualSha != "" && source.stamp.value.resultsSha == source.actualSha)
    && (source.stamp.value.kind == "command" ==> source.stamp.value.name != "" && source.stamp.value.exitCode.Some?)
  }

  lemma RejectionByFields(source: Source, candidate: string)
    ensures Rejection(source, candidate).None? <==> Counts(source, candidate)
  {
    assert "jest" != "command";
  }

  /** Which reason a rejected source is given. */
  lemma RejectedFor(source: Source, stamp: Stamp, candidate: string)
    requires source.stamp == Some(stamp) && stamp.sha != ""
    ensures Rejection(source, candidate) == Some("SHA_DISTINTO") <==> stamp.sha != candidate
    ensures stamp.sha == candidate && stamp.kind == "jest" ==>
      && (Rejection(source, candidate) == Some("RESULTADOS_JEST_AUSENTES") <==> source.results.None?)
      && (Rejection(source, candidate) == Some("RESULTADOS_ALTERADOS") <==>
            source.results.Some? && (stamp.resultsSha == "" || stamp.resultsSha != source.actualSha))
    ensures stamp.sha == candidate && stamp.kind == "command" ==>
      (Rejection(source, candidate) == Some("SELLO_DE_COMANDO_INCOMPLETO") <==>
         stamp.name == "" || stamp.exitCode.None?)
    ensures stamp.sha == candidate ==>
      (Rejection(source, candidate) == Some("TIPO_DESCONOCIDO") <==> stamp.kind !in {"jest", "command"})
  {
    assert "jest" != "command";
    assert |"SHA_DISTINTO"| == 12 && |"TIPO_DESCONOCIDO"| == 16 && |"SELLO_DE_COMANDO_INCOMPLETO"| == 27;
    assert |"RESULTADOS_JEST_AUSENTES"| == 24 && |"RESULTADOS_ALTERADOS"| == 20;
  }

  /** One without a stamp, or whose stamp names no candidate, is given that reason. */
  lemma RejectedUnstamped(source: Source, candidate: string)
    ensures Rejection(source, candidate) == Some("SIN_SELLO") <==>
      source.stamp.None? || source.stamp.value.sha == ""
  {
    assert |"SIN_SELLO"| == 9 && |"SHA_DISTINTO"| == 12 && |"TIPO_DESCONOCIDO"| == 16;
    assert |"RESULTADOS_JEST_AUSENTES"| == 24 && |"RESULTADOS_ALTERADOS"| == 20;
    assert |"SELLO_DE_COMANDO_INCOMPLETO"| == 27;
  }

  /** Of the sources exactly those that count are accepted. */
  lemma {:induction false} AcceptedExactly(sources: seq<Source>, candidate: string, source: Source)
    ensures source in Accepted(sources, candidate) <==> source in sources && Counts(source, candidate)
    decreases |sources|
  {
    RejectionByFields(source, candidate);
    if sources != [] {
      var init, last := sources[..|sources| - 1], sources[|sources| - 1];
      AcceptedExactly(init, candidate, source);
      assert sources == init + [last];
    }
  }

  // ---- matching ----

  lemma PrefixRest(text: string, name: string)
    ensures name <= text <==> exists rest :: text == name + rest
  {
    if name <= text {
      assert text == name + text[|name|..];
    }
  }

  /** An assertion is a run of a test whose name its full name or its title begins with. */
  lemma AssertionByName(a: Assertion, ref: TestRef)
    ensures AssertionMatches(a, ref) <==>
            (exists rest :: a.fullName == ref.name + rest) || (exists rest :: a.title == ref.name + rest)
  {
    PrefixRest(a.fullName, ref.name);
    PrefixRest(a.title, ref.name);
  }

  /** Backslashes are slashes. */
  lemma SlashesAt(path: string, i: nat)
    requires i < |path|
    ensures |Slashes(path)| == |path| && Slashes(path)[i] == if path[i] == '\\' then '/' else path[i]
  {
  }

  lemma SlashesKeep(path: string)
    requires '\\' !in path
    ensures Slashes(path) == path
  {
  }

  /** A file of results is that of a path exactly if it ends in it, at a directory; a leading ./ does not matter. */
  lemma FileByPath(result: FileResult, ref: TestRef, path: string)
    requires '\\' !in result.name && '\\' !in path && !("./" <= path)
    requires ref.file == path || ref.file == "./" + path
    ensures FileMatches(result, ref) <==> result.name == path || exists head :: result.name == head + ("/" + path)
  {
    var end := "/" + path;
    SlashesKeep(result.name);
    SlashesKeep(ref.file);
    if ref.file == "./" + path {
      assert "./" <= ref.file && ref.file[2..] == path;
    }
    assert WithoutDot(Slashes(ref.file)) == path;
    if EndsWith(result.name, end) {
      assert result.name == result.name[..|result.name| - |end|] + end;
    }
    if exists head :: result.name == head + end {
      var head :| result.name == head + end;
      assert result.name[|result.name| - |end|..] == end;
    }
  }

  // ---- verdicts ----

  predicate SameTest(matches: seq<Match>) {
    forall i :: 0 <= i < |matches| ==> matches[i].assertion.fullName == matches[0].assertion.fullName
  }

  predicate SomeRun(matches: seq<Match>, statuses: set<string>) {
    exists i :: 0 <= i < |matches| && matches[i].assertion.status in statuses
  }

  predicate AllRuns(matches: seq<Match>, status: string) {
    forall i :: 0 <= i < |matches| ==> matches[i].assertion.status == status
  }

  const NOT_RUN_WORDS := {"pending", "skipped", "todo", "disabled", "focused"}

  /** The verdict on the runs of a test: none, several tests, a failed run, a skipped one, or all passed. */
  lemma VerdictByRuns(matches: seq<Match>)
    ensures Verdict(matches).NotRun? <==> matches == []
    ensures Verdict(matches).Ambiguous? <==> !SameTest(matches)
    ensures Verdict(matches).Skipped? <==>
            matches != [] && SameTest(matches) && !SomeRun(matches, {"failed"}) && SomeRun(matches, NOT_RUN_WORDS)
    ensures Verdict(matches).Passed? <==> matches != [] && SameTest(matches) && AllRuns(matches, "passed")
  {
    assert "failed" !in NOT_RUN_WORDS && "passed" !in NOT_RUN_WORDS && "passed" != "failed";
    if SomeRun(matches, {"failed"}) {
      var i :| 0 <= i < |matches| && matches[i].assertion.status in {"failed"};
      assert matches[i].assertion.status == "failed";
    }
  }

  // ---- commands ----

  /** The stamp is the source's, and of a run of the command. */
  predicate IsRun(source: Source, name: string, stamp: Stamp) {
    source.stamp == Some(stamp) && stamp.kind == "command" && stamp.name == name
  }

  predicate SomeSource(sources: seq<Source>, name: string, stamp: Stamp) {
    exists i :: 0 <= i < |sources| && IsRun(sources[i], name, stamp)
  }

  lemma {:induction false} RunsOfCommand(sources: seq<Source>, name: string, stamp: Stamp)
    ensures stamp in CommandRuns(sources, name) <==> SomeSource(sources, name, stamp)
    decreases |sources|
  {
    if sources != [] {
      var init, last := sources[..|sources| - 1], sources[|sources| - 1];
      RunsOfCommand(init, name, stamp);
      if SomeSource(init, name, stamp) {
        var i :| 0 <= i < |init| && IsRun(init[i], name, stamp);
        assert sources[i] == init[i];
      }
      if SomeSource(sources, name, stamp) {
        var i :| 0 <= i < |sources| && IsRun(sources[i], name, stamp);
        assert i < |init| ==> init[i] == sources[i];
      }
    }
  }

  /** The verdict on a command: not run, or passed if every run of it ended with 0; it shows the stamp of a run. */
  lemma CommandByRuns(sources: seq<Source>, name: string)
    ensures var entry := CommandEntry(sources, name);
            && !entry.isTest && entry.ref == name
            && (entry.result.NotRun? <==> forall stamp :: !SomeSource(sources, name, stamp))
            && (entry.result.NotRun? <==> entry.stamp.None?)
            && (entry.stamp.Some? ==> SomeSource(sources, name, entry.stamp.value))
            && (entry.result.Passed? <==>
                  && entry.stamp.Some?
                  && forall stamp :: SomeSource(sources, name, stamp) ==> stamp.exitCode == Some(0))
            && (entry.result.NotRun? || entry.result.Passed? || entry.result.Failed?)
  {
    var runs := CommandRuns(sources, name);
    forall stamp
      ensures stamp in runs <==> SomeSource(sources, name, stamp)
    {
      RunsOfCommand(sources, name, stamp);
    }
    if runs != [] {
      assert runs[0] in runs;
      assert (forall i :: 0 <= i < |runs| ==> runs[i].exitCode == Some(0)) <==>
             (forall stamp :: stamp in runs ==> stamp.exitCode == Some(0));
    }
  }

  // ---- scope and status ----

  lemma {:induction false} TrimEndBlank(s: string)
    ensures TrimEnd(s) == "" <==> forall i :: 0 <= i < |s| ==> IsBlank(s[i])
    decreases |s|
  {
    if s != "" && IsBlank(s[|s| - 1]) {
      TrimEndBlank(s[..|s| - 1]);
    }
  }

  lemma {:induction false} TrimStartBlank(s: string)
    ensures TrimStart(s) == "" <==> forall i :: 0 <= i < |s| ==> IsBlank(s[i])
    ensures TrimStart(s) != "" ==> !IsBlank(TrimStart(s)[0])
    decreases |s|
  {
    if s != "" && IsBlank(s[0]) {
      TrimStartBlank(s[1..]);
      assert forall i :: 1 <= i < |s| ==> s[i] == s[1..][i - 1];
    }
  }

  /** A text is blank if it is nothing but white space. */
  lemma BlankText(s: string)
    ensures Trim(s) == "" <==> forall i :: 0 <= i < |s| ==> IsBlank(s[i])
  {
    TrimStartBlank(s);
    TrimEndBlank(TrimStart(s));
  }

  predicate Says(text: Option<string>) {
    text.Some? && exists i :: 0 <= i < |text.value| && !IsBlank(text.value[i])
  }

  /** An exclusion is approved when it says why, with what impact and by whom. */
  lemma ApprovalByFields(exclusion: Option<Exclusion>)
    ensures ExclusionApproved(exclusion) <==>
            && exclusion.Some?
            && Says(exclusion.value.reason) && Says(exclusion.value.impact) && Says(exclusion.value.approvedBy)
  {
    if exclusion.Some? {
      FilledSays(exclusion.value.reason);
      FilledSays(exclusion.value.impact);
      FilledSays(exclusion.value.approvedBy);
    }
  }

  lemma FilledSays(text: Option<string>)
    ensures Filled(text) <==> Says(text)
  {
    if text.Some? {
      BlankText(text.value);
    }
  }

  predicate Excused(base: Base) {
    base.inclusion.Excluded? && ExclusionApproved(base.exclusion)
  }

  lemma {:induction false} MissingCount(tests: seq<TestRef>, fileExists: string -> bool)
    ensures |MissingFiles(tests, fileExists)| < |tests| <==>
            exists i :: 0 <= i < |tests| && fileExists(tests[i].file)
    decreases |tests|
  {
    if tests != [] {
      var init, last := tests[..|tests| - 1], tests[|tests| - 1];
      MissingCount(init, fileExists);
      assert tests == init + [last];
      if exists i :: 0 <= i < |init| && fileExists(init[i].file) {
        var i :| 0 <= i < |init| && fileExists(init[i].file);
        assert tests[i] == init[i];
      }
      if exists i :: 0 <= i < |tests| && fileExists(tests[i].file) {
        var i :| 0 <= i < |tests| && fileExists(tests[i].file);
        assert i < |init| ==> init[i] == tests[i];
      }
    }
  }

  /** The five statuses: each item has the one whose condition it meets. */
  lemma StatusByFields(base: Base, accepted: seq<Source>, fileExists: string -> bool)
    ensures var item := Evaluated(base, accepted, fileExists);
            var blocked := base.blockedBy.Some? && base.blockedBy.value != "";
            var begun := base.commands != [] || exists i :: 0 <= i < |base.tests| && fileExists(base.tests[i].file);
            && (item.status == Deferred <==> Excused(base))
            && (item.status == Blocked <==> !Excused(base) && blocked)
            && (item.status == Verified <==> !Excused(base) && Evidenced(base, accepted, fileExists))
            && (item.status == Implemented <==>
                  !Excused(base) && !blocked && begun && !Evidenced(base, accepted, fileExists))
            && (item.status == Declared <==> !Excused(base) && !blocked && !begun)
            && (item.counted <==> !Excused(base) && !base.inclusion.Undecided?)
            && item.id == base.id && item.packageId == base.packageId && item.inclusion == base.inclusion
  {
    EvidencePasses(base, accepted);
    MissingCount(base.tests, fileExists);
    assert EvidenceOf(base, accepted) == [] <==> base.tests == [] && base.commands == [];
    assert MissingFiles(base.tests, fileExists) == [] <==> |MissingFiles(base.tests, fileExists)| == 0;
  }

  /** What is marked as not implemented is at most declared. */
  lemma NotImplementedIsDeclared(u: UseCase, item: Item)
    ensures u.classification != "NOT_IMPLEMENTED" ==> MarkNotImplemented(u, item) == item
    ensures u.classification == "NOT_IMPLEMENTED" ==>
      MarkNotImplemented(u, item).status ==
      if item.status == Verified || item.status == Implemented then Declared else item.status
    ensures u.classification == "NOT_IMPLEMENTED" ==>
      exists note :: MarkNotImplemented(u, item).reasons == [NotImplemented(note)] + item.reasons &&
                     note == (match u.note case Some(text) => text case None => "")
    ensures MarkNotImplemented(u, item) ==
      item.(status := MarkNotImplemented(u, item).status, reasons := MarkNotImplemented(u, item).reasons)
  {
    var note := match u.note case Some(text) => text case None => "";
    assert u.classification == "NOT_IMPLEMENTED" ==>
      MarkNotImplemented(u, item).reasons == [NotImplemented(note)] + item.reasons;
  }

  // ---- reasons ----

  lemma {:induction false} MissingTells(tests: seq<TestRef>, fileExists: string -> bool, reason: Reason)
    ensures reason in MissingFiles(tests, fileExists) <==>
            exists i :: 0 <= i < |tests| && !fileExists(tests[i].file) && reason == MissingFile(tests[i].file)
    decreases |tests|
  {
    if tests != [] {
      var init, last := tests[..|tests| - 1], tests[|tests| - 1];
      MissingTells(init, fileExists, reason);
      assert tests == init + [last];
      assert forall i :: 0 <= i < |init| ==> init[i] == tests[i];
    }
  }

  lemma {:induction false} FailuresTell(evidence: seq<Entry>, reason: Reason)
    ensures reason in Failures(evidence) <==>
            exists i :: 0 <= i < |evidence| && !evidence[i].result.Passed? &&
                        reason == NotPassed(evidence[i].result, evidence[i].ref)
    decreases |evidence|
  {
    if evidence != [] {
      var init, last := evidence[..|evidence| - 1], evidence[|evidence| - 1];
      FailuresTell(init, reason);
      assert evidence == init + [last];
      assert forall i :: 0 <= i < |init| ==> init[i] == evidence[i];
    }
  }

  /** What a reason means for an item that is not excused. */
  ghost predicate Founded(base: Base, evidence: seq<Entry>, fileExists: string -> bool, reason: Reason) {
    var blocked := base.blockedBy.Some? && base.blockedBy.value != "";
    match reason
    case ExcludedBy(_, _) => false
    case ExclusionNotApproved => base.inclusion.Excluded?
    case ScopePending => base.inclusion.Undecided?
    case MissingFile(file) => exists i :: 0 <= i < |base.tests| && base.tests[i].file == file && !fileExists(file)
    case NotPassed(result, ref) =>
      !result.Passed? && exists i :: 0 <= i < |evidence| && evidence[i].result == result && evidence[i].ref == ref
    case BlockedBy(what) => blocked && base.blockedBy.value == what
    case NoTestsMapped => !blocked && base.tests == [] && base.commands == []
    case NotImplemented(_) => false
  }

  lemma InFive<T>(x: T, a: seq<T>, b: seq<T>, c: seq<T>, d: seq<T>, e: seq<T>)
    ensures x in a + b + c + d + e <==> x in a || x in b || x in c || x in d || x in e
  {
  }

  lemma MissingFounded(base: Base, evidence: seq<Entry>, fileExists: string -> bool, reason: Reason)
    ensures reason in MissingFiles(base.tests, fileExists) <==>
            reason.MissingFile? && Founded(base, evidence, fileExists, reason)
  {
    MissingTells(base.tests, fileExists, reason);
  }

  lemma FailureFounded(base: Base, evidence: seq<Entry>, fileExists: string -> bool, reason: Reason)
    ensures reason in Failures(evidence) <==> reason.NotPassed? && Founded(base, evidence, fileExists, reason)
  {
    FailuresTell(evidence, reason);
  }

  /** An item that is not excused has exactly the reasons that are founded. */
  lemma ReasonsTell(base: Base, accepted: seq<Source>, fileExists: string -> bool, reason: Reason)
    requires !Excused(base)
    ensures var item := Evaluated(base, accepted, fileExists);
            && item.evidence == TestEntries(accepted, base.tests) + CommandEntries(accepted, base.commands)
            && (reason in item.reasons <==> Founded(base, item.evidence, fileExists, reason))
  {
    var evidence := EvidenceOf(base, accepted);
    var scope :=
      if base.inclusion.Excluded? then [ExclusionNotApproved]
      else if base.inclusion.Undecided? then [ScopePending] else [];
    var blocked := if Truthy(base.blockedBy) then [BlockedBy(base.blockedBy.value)] else [];
    var unmapped := if blocked == [] && evidence == [] then [NoTestsMapped] else [];
    MissingFounded(base, evidence, fileExists, reason);
    FailureFounded(base, evidence, fileExists, reason);
    InFive(reason, blocked, scope, MissingFiles(base.tests, fileExists), Failures(evidence), unmapped);
    assert evidence == [] <==> base.tests == [] && base.commands == [];
  }

  /** An excused item names who approved and why, and shows nothing else. */
  lemma ExcusedSays(base: Base, accepted: seq<Source>, fileExists: string -> bool)
    requires Excused(base)
    ensures Evaluated(base, accepted, fileExists).evidence == []
    ensures exists who, why ::
      && base.exclusion.value.approvedBy == Some(who) && base.exclusion.value.reason == Some(why)
      && Evaluated(base, accepted, fileExists).reasons == [ExcludedBy(who, why)]
  {
    ApprovalByFields(base.exclusion);
    var exclusion := base.exclusion.value;
    assert Evaluated(base, accepted, fileExists).reasons ==
           [ExcludedBy(exclusion.approvedBy.value, exclusion.reason.value)];
    assert exclusion.approvedBy == Some(exclusion.approvedBy.value) && exclusion.reason == Some(exclusion.reason.value);
  }

  /** The i-th item is the i-th requirement, and the i-th use case, which has no package and no commands. */
  lemma ItemsByFields(requirements: seq<Requirement>, useCases: seq<UseCase>, accepted: seq<Source>,
                      fileExists: string -> bool, i: nat)
    ensures i < |requirements| ==>
      var item := RequirementItems(requirements, accepted, fileExists)[i];
      && item.id == requirements[i].id && item.packageId == Some(requirements[i].packageId)
      && item.inclusion == requirements[i].inclusion
      && (item.evidence == [] || |item.evidence| == |requirements[i].tests| + |requirements[i].commands|)
    ensures i < |useCases| ==>
      var item := UseCaseItems(useCases, accepted, fileExists)[i];
      && item.id == useCases[i].id && item.packageId.None? && item.inclusion == useCases[i].inclusion
      && (item.evidence == [] || |item.evidence| == |useCases[i].tests|)
  {
    if i < |requirements| {
      StatusByFields(OfRequirement(requirements[i]), accepted, fileExists);
    }
    if i < |useCases| {
      StatusByFields(OfUseCase(useCases[i]), accepted, fileExists);
    }
  }

  // ---- counts ----

  /** The places of the items that meet a condition. */
  function Places(items: seq<Item>, meets: Item -> bool): set<nat> {
    set i: nat | i < |items| && meets(items[i])
  }

  lemma PlacesNext(items: seq<Item>, meets: Item -> bool)
    requires items != []
    ensures var n := |items| - 1;
            |Places(items, meets)| == |Places(items[..n], meets)| + if meets(items[n]) then 1 else 0
  {
    var n := |items| - 1;
    assert Places(items, meets) == Places(items[..n], meets) + if meets(items[n]) then {n} else {};
  }

  /** Every counter is the number of items that meet its condition. */
  lemma {:induction false} CountersTell(items: seq<Item>)
    ensures var s := Summed(items);
            && s.total == |items|
            && s.included == |Places(items, (i: Item) => i.counted)|
            && s.verifiedIncluded == |Places(items, (i: Item) => i.counted && i.status == Verified)|
            && s.pending == |Places(items, (i: Item) => i.inclusion == Undecided)|
            && s.unapproved == |Places(items, (i: Item) => i.inclusion == Excluded && i.status != Deferred)|
    decreases |items|
  {
    if items != [] {
      CountersTell(items[..|items| - 1]);
      PlacesNext(items, (i: Item) => i.counted);
      PlacesNext(items, (i: Item) => i.counted && i.status == Verified);
      PlacesNext(items, (i: Item) => i.inclusion == Undecided);
      PlacesNext(items, (i: Item) => i.inclusion == Excluded && i.status != Deferred);
    }
  }

  lemma {:induction false} StatusCounters(items: seq<Item>)
    ensures var s := Summed(items);
            && s.declared == |Places(items, (i: Item) => i.status == Declared)|
            && s.implemented == |Places(items, (i: Item) => i.status == Implemented)|
            && s.verified == |Places(items, (i: Item) => i.status == Verified)|
            && s.blocked == |Places(items, (i: Item) => i.status == Blocked)|
            && s.deferred == |Places(items, (i: Item) => i.status == Deferred)|
    decreases |items|
  {
    if items != [] {
      StatusCounters(items[..|items| - 1]);
      PlacesNext(items, (i: Item) => i.status == Declared);
      PlacesNext(items, (i: Item) => i.status == Implemented);
      PlacesNext(items, (i: Item) => i.status == Verified);
      PlacesNext(items, (i: Item) => i.status == Blocked);
      PlacesNext(items, (i: Item) => i.status == Deferred);
    }
  }

  // ---- problems and groups ----

  /** A use case is in order unless it claims coverage without tests, or is not implemented without a note. */
  lemma UseCaseInOrder(u: UseCase)
    ensures UseCaseProblems(u) == 0 <==>
            && (u.classification == "PRODUCTION_COVERED" ==> u.tests != [])
            && (u.classification == "NOT_IMPLEMENTED" ==> Says(u.note))
  {
    FilledSays(u.note);
  }

  /** A requirement is in order if all its texts say something and its tests have a file and a name. */
  lemma RequirementInOrder(r: Requirement)
    ensures RequirementProblems(r) == 0 <==>
            && Says(Some(r.id)) && Says(Some(r.packageId))
            && (forall i :: 0 <= i < |r.fields| ==> Says(Some(r.fields[i])))
            && (forall i :: 0 <= i < |r.tests| ==> r.tests[i].file != "" && r.tests[i].name != "")
  {
    RequirementSound(r);
    FilledSays(Some(r.id));
    FilledSays(Some(r.packageId));
    forall i | 0 <= i < |r.fields|
      ensures Says(Some(r.fields[i])) <==> !Blank(r.fields[i])
    {
      FilledSays(Some(r.fields[i]));
    }
  }

  /** Requirements have the same key exactly if they have the same identifier and package. */
  lemma KeysByFields(r: Requirement, s: Requirement)
    requires '@' !in r.packageId && '@' !in s.packageId
    ensures ReqKey(r) == ReqKey(s) <==> r.id == s.id && r.packageId == s.packageId
  {
    if ReqKey(r) == ReqKey(s) {
      assert r.id + ['@'] + r.packageId == s.id + ['@'] + s.packageId;
      SplitAt(r.id, r.packageId, s.id, s.packageId, '@');
    }
  }

  /** From the worst status to the best. */
  function Rank(status: Status): nat {
    match status
    case Blocked => 0
    case Declared => 1
    case Implemented => 2
    case Deferred => 3
    case Verified => 4
  }

  /** A group has the worst status of its items. */
  lemma GroupHasWorst(items: seq<Item>)
    requires items != []
    ensures exists i :: 0 <= i < |items| && items[i].status == GroupStatus(items)
    ensures forall i :: 0 <= i < |items| ==> Rank(GroupStatus(items)) <= Rank(items[i].status)
  {
    assert SomeStatus(items, items[0].status);
    forall i | 0 <= i < |items|
      ensures Rank(GroupStatus(items)) <= Rank(items[i].status)
    {
      assert SomeStatus(items, items[i].status);
    }
  }
}
