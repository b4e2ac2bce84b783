/** The stateful part of ddf.services.schematron.SchematronValidationService: its
    configuration fields, the list of validator handles rebuilt from the rule files,
    and the three entry points `generateReport`, `validate` and `validateMetacard`.
    Compiling a rule file and running it on a document happen outside the model:
    a handle stands for one submitted compilation task, and what waiting on it and
    running its rules on some metadata yields is the parameter `evaluate`. */
module SchematronService {
  import opened Wrappers
  import opened Schematron

  /** One entry of the `validators` list: the `FutureTask` compiling one rule file. Each
      call to `updateValidators` creates new tasks. */
  class ValidatorHandle {
    const fileName: string

    constructor (fileName: string)
      ensures this.fileName == fileName
    {
      this.fileName := fileName;
    }
  }

  /** `hs` holds one handle per rule file, in the order of `files`. */
  predicate HandlesFor(hs: seq<ValidatorHandle>, files: seq<string>)
  {
    |hs| == |files| && forall i :: 0 <= i < |hs| ==> hs[i].fileName == files[i]
  }

  /** What the handles yield for `metadata`, in list order. */
  function OutcomesOf(hs: seq<ValidatorHandle>, metadata: string,
                      evaluate: (ValidatorHandle, string) -> Outcome): (r: seq<Outcome>)
    ensures |r| == |hs|
    ensures forall i :: 0 <= i < |hs| ==> r[i] == evaluate(hs[i], metadata)
  {
    seq(|hs|, i requires 0 <= i < |hs| => evaluate(hs[i], metadata))
  }

  /** The report `generateReport(Metacard)` produces for the given validators and
      namespace filter, or None when it throws: an empty report when the metacard
      does not pass the applicability gate, otherwise the validators' violations in
      list order, and no report at all as soon as one validator fails. */
  function Report(validators: seq<ValidatorHandle>, namespace: Option<string>, metacard: Metacard,
                  rootNamespace: string -> Option<string>,
                  evaluate: (ValidatorHandle, string) -> Outcome): (r: Option<seq<Violation>>)
    ensures !CanBeValidated(metacard.metadata, namespace, rootNamespace) ==> r == Some([])
    ensures r.None? <==>
              CanBeValidated(metacard.metadata, namespace, rootNamespace) &&
              exists i :: 0 <= i < |validators| && evaluate(validators[i], metacard.metadata.value).Fail?
  {
    if !CanBeValidated(metacard.metadata, namespace, rootNamespace) then Some([])
    else
      var outcomes := OutcomesOf(validators, metacard.metadata.value, evaluate);
      AggregateFailsIff(outcomes);
      assert forall i :: 0 <= i < |outcomes| ==> outcomes[i] == evaluate(validators[i], metacard.metadata.value);
      Aggregate(outcomes)
  }

  /** A metacard without metadata, or with metadata in another namespace than the
      configured one, is accepted by `validate` whatever the validators say. */
  lemma GateAccepts(validators: seq<ValidatorHandle>, namespace: Option<string>, metacard: Metacard,
                    rootNamespace: string -> Option<string>,
                    evaluate: (ValidatorHandle, string) -> Outcome, suppressWarnings: bool)
    requires !CanBeValidated(metacard.metadata, namespace, rootNamespace)
    ensures VerdictFor(Report(validators, namespace, metacard, rootNamespace, evaluate), suppressWarnings) == Accepted
  {
    assert Messages([], Error) == [] && Messages([], Warning) == [];
  }

  /** End to end over the service's validators: when the metacard passes the gate and
      every validator succeeds, `validate` rejects exactly when some validator reported
      an error, or a warning that is not suppressed, with all of them, sanitised and
      in order; when one validator fails, `validate` fails with the report exception. */
  lemma ValidateOverValidators(validators: seq<ValidatorHandle>, namespace: Option<string>,
                               metacard: Metacard, rootNamespace: string -> Option<string>,
                               evaluate: (ValidatorHandle, string) -> Outcome, suppressWarnings: bool)
    requires CanBeValidated(metacard.metadata, namespace, rootNamespace)
    ensures var outcomes := OutcomesOf(validators, metacard.metadata.value, evaluate);
            var verdict := VerdictFor(Report(validators, namespace, metacard, rootNamespace, evaluate),
                                      suppressWarnings);
            && ((exists i :: 0 <= i < |outcomes| && outcomes[i].Fail?) ==> verdict == ReportFailed)
            && ((forall i :: 0 <= i < |outcomes| ==> outcomes[i].Ok?) ==>
                  verdict == if AllErrors(outcomes) != [] || (!suppressWarnings && AllWarnings(outcomes) != [])
                             then Rejected(SanitizeAll(AllErrors(outcomes)), SanitizeAll(AllWarnings(outcomes)))
                             else Accepted)
  {
    VerdictOverOutcomes(OutcomesOf(validators, metacard.metadata.value, evaluate), suppressWarnings);
  }

  /** The loop of `generateReport` over one more successful validator. */
  lemma AggregateNext(outcomes: seq<Outcome>, i: nat, report: seq<Violation>)
    requires i < |outcomes| && outcomes[i].Ok?
    requires Aggregate(outcomes[..i]) == Some(report)
    ensures Aggregate(outcomes[..i + 1]) ==
              Some(report + Violations(outcomes[i].errors, Error) + Violations(outcomes[i].warnings, Warning))
  {
    var xs := outcomes[..i + 1];
    assert xs[..|xs| - 1] == outcomes[..i];
    assert xs[|xs| - 1] == outcomes[i];
    var errs, warns := Violations(outcomes[i].errors, Error), Violations(outcomes[i].warnings, Warning);
    assert Aggregate(xs) == Some(report + (errs + warns));
    assert report + (errs + warns) == report + errs + warns;
  }

  /** One `forEach` of `generateReport`: appends to the report a violation per
      message, with the message sanitised and the given severity, in order. */
  method AddViolations(report: seq<Violation>, messages: seq<string>, severity: Severity)
    returns (r: seq<Violation>)
    ensures r == report + Violations(messages, severity)
  {
    r := report;
    var j := 0;
    while j < |messages|
      invariant 0 <= j <= |messages|
      invariant r == report + Violations(messages[..j], severity)
    {
      assert messages[..j + 1][..j] == messages[..j];
      r := r + [Violation(MetadataAttributes, Sanitize(messages[j]), severity)];
      j := j + 1;
    }
    assert messages[..j] == messages;
  }

  /** The `forEach` of `validate`: the messages of the ERROR violations and of all
      the others, each list in report order. */
  method SplitBySeverity(violations: seq<Violation>) returns (errors: seq<string>, warnings: seq<string>)
    ensures errors == Messages(violations, Error)
    ensures warnings == Messages(violations, Warning)
  {
    errors, warnings := [], [];
    var k := 0;
    while k < |violations|
      invariant 0 <= k <= |violations|
      invariant errors == Messages(violations[..k], Error)
      invariant warnings == Messages(violations[..k], Warning)
    {
      assert violations[..k + 1][..k] == violations[..k];
      if violations[k].severity == Error {
        errors := errors + [violations[k].message];
      } else {
        warnings := warnings + [violations[k].message];
      }
      k := k + 1;
    }
    assert violations[..k] == violations;
  }

  /** The validation service. `initialized` records whether `init` has created the
      transformer factory; `validators` holds one handle per rule file once it has. */
  class SchematronValidationService {
    /** The "schematron" folder under ddf.home that relative rule-file names are
        resolved against. */
    const baseFolder: string
    var priority: int
    var schematronFileNames: Option<seq<string>>
    var suppressWarnings: bool
    var namespace: Option<string>
    var initialized: bool
    var validators: seq<ValidatorHandle>

    /** The priority lies in 1..100 and the base folder is an absolute or relative
        path in normal form; no handle exists before `init`. */
    ghost predicate Valid()
      reads this
    {
      && 1 <= priority <= 100
      && BaseFolderOk(baseFolder)
      && (!initialized ==> validators == [])
    }

    /** The handles match the current rule-file list, one fresh handle per file. */
    ghost predicate Synced()
      reads this
    {
      schematronFileNames.Some? && HandlesFor(validators, schematronFileNames.value)
    }

    constructor (ddfHome: string)
      requires '\0' !in ddfHome
      ensures Valid()
      ensures baseFolder == BaseFolder(ddfHome)
      ensures priority == 10 && schematronFileNames == None && !suppressWarnings
      ensures namespace == None && !initialized && validators == []
    {
      baseFolder := BaseFolder(ddfHome);
      priority := 10;
      schematronFileNames := None;
      suppressWarnings := false;
      namespace := None;
      initialized := false;
      validators := [];
    }

    /** Creates the transformer factory if needed and rebuilds the handles; fails
        (with a NullPointerException in Java) when no rule-file list was ever set,
        after the old handles have been dropped. */
    method Init() returns (ok: bool)
      requires Valid()
      modifies this
      ensures Valid() && initialized
      ensures ok <==> schematronFileNames.Some?
      ensures ok ==> Synced()
      ensures !ok ==> validators == []
      ensures forall h :: h in validators ==> fresh(h)
      ensures priority == old(priority) && schematronFileNames == old(schematronFileNames)
      ensures suppressWarnings == old(suppressWarnings) && namespace == old(namespace)
    {
      initialized := true;
      ok := UpdateValidators();
    }

    /** Drops every handle and submits one new compilation task per rule file, in
        list order; iterating a list that was never set fails after the clear. */
    method UpdateValidators() returns (ok: bool)
      requires Valid() && initialized
      modifies this`validators
      ensures Valid()
      ensures ok <==> schematronFileNames.Some?
      ensures ok ==> Synced()
      ensures !ok ==> validators == []
      ensures forall h :: h in validators ==> fresh(h)
      ensures forall i, j :: 0 <= i < j < |validators| ==> validators[i] != validators[j]
    {
      validators := [];
      if schematronFileNames.None? {
        return false;
      }
      var names := schematronFileNames.value;
      var i := 0;
      while i < |names|
        invariant 0 <= i <= |names|
        invariant HandlesFor(validators, names[..i])
        invariant forall h :: h in validators ==> fresh(h)
        invariant forall k, l :: 0 <= k < l < |validators| ==> validators[k] != validators[l]
      {
        var handle := new ValidatorHandle(names[i]);
        validators := validators + [handle];
        i := i + 1;
      }
      assert names[..i] == names;
      ok := true;
    }

    method SetSuppressWarnings(suppressWarnings: bool)
      requires Valid()
      modifies this`suppressWarnings
      ensures Valid() && this.suppressWarnings == suppressWarnings
    {
      this.suppressWarnings := suppressWarnings;
    }

    /** Replaces the rule-file list by the resolved names: an absolute name in
        normal form, a relative one under the base folder. A name with NUL makes
        the path library throw; the list then holds the names resolved before it and
        the handles are left as they were. Otherwise the handles are rebuilt when
        `init` has run. */
    method SetSchematronFileNames(names: seq<string>) returns (ok: bool)
      requires Valid()
      modifies this
      ensures Valid()
      ensures schematronFileNames == Some(ResolveFileNames(baseFolder, names))
      ensures ok <==> forall i :: 0 <= i < |names| ==> '\0' !in names[i]
      ensures ok <==> |schematronFileNames.value| == |names|
      ensures ok && initialized ==> Synced() && forall h :: h in validators ==> fresh(h)
      ensures !(ok && initialized) ==> validators == old(validators)
      ensures priority == old(priority) && suppressWarnings == old(suppressWarnings)
      ensures namespace == old(namespace) && initialized == old(initialized)
    {
      ResolveFileNamesComplete(baseFolder, names);
      ok := ResolveInto(names);
      if ok && initialized {
        var rebuilt := UpdateValidators();
      }
    }

    /** The loop of `setSchematronFileNames`: a new list, to which each name is
        added once resolved; it stops at the first name the path library rejects. */
    method ResolveInto(names: seq<string>) returns (ok: bool)
      requires Valid()
      modifies this`schematronFileNames
      ensures Valid()
      ensures schematronFileNames == Some(ResolveFileNames(baseFolder, names))
      ensures ok <==> |schematronFileNames.value| == |names|
    {
      var resolved: seq<string> := [];
      schematronFileNames := Some(resolved);
      var i := 0;
      while i < |names|
        invariant 0 <= i <= |names| && |resolved| == i
        invariant resolved == ResolveFileNames(baseFolder, names[..i])
        invariant schematronFileNames == Some(resolved)
      {
        var fullPath := ResolveFileName(baseFolder, names[i]);
        ResolveFileNamesNext(baseFolder, names, i);
        if fullPath.None? {
          return false;
        }
        resolved := resolved + [fullPath.value];
        schematronFileNames := Some(resolved);
        i := i + 1;
      }
      assert names[..i] == names;
      ok := true;
    }

    method SetNamespace(namespace: Option<string>)
      requires Valid()
      modifies this`namespace
      ensures Valid() && this.namespace == namespace
    {
      this.namespace := namespace;
    }

    /** Stores the requested priority, then clamps it into 1..100. */
    method SetPriority(priority: int)
      requires Valid()
      modifies this`priority
      ensures Valid() && this.priority == PriorityInRange(priority)
    {
      this.priority := priority;
      if this.priority > 100 {
        this.priority := 100;
      } else if this.priority < 1 {
        this.priority := 1;
      }
    }

    /** `generateReport(Metacard)`: None stands for the ValidationExceptionImpl
        thrown when a validator times out or fails. */
    method GenerateReport(metacard: Metacard, rootNamespace: string -> Option<string>,
                          evaluate: (ValidatorHandle, string) -> Outcome)
      returns (report: Option<seq<Violation>>)
      ensures report == Report(validators, namespace, metacard, rootNamespace, evaluate)
    {
      if !CanBeValidated(metacard.metadata, namespace, rootNamespace) {
        return Some([]);
      }
      var metadata := metacard.metadata.value;
      ghost var outcomes := OutcomesOf(validators, metadata, evaluate);
      var violations: seq<Violation> := [];
      var i := 0;
      while i < |validators|
        invariant 0 <= i <= |validators|
        invariant Aggregate(outcomes[..i]) == Some(violations)
      {
        var outcome := evaluate(validators[i], metadata);
        if outcome.Fail? {
          assert outcomes[i].Fail?;
          return None;
        }
        ghost var before := violations;
        violations := AddViolations(violations, outcome.errors, Error);
        violations := AddViolations(violations, outcome.warnings, Warning);
        AggregateNext(outcomes, i, before);
        i := i + 1;
      }
      assert outcomes[..i] == outcomes;
      report := Some(violations);
    }

    /** `validate(Metacard)`: splits the report's messages into errors and everything
        else, in report order, and throws when there are errors, or warnings that are
        not suppressed. */
    method Validate(metacard: Metacard, rootNamespace: string -> Option<string>,
                    evaluate: (ValidatorHandle, string) -> Outcome)
      returns (verdict: Verdict)
      ensures verdict == VerdictFor(Report(validators, namespace, metacard, rootNamespace, evaluate),
                                    suppressWarnings)
    {
      var report := GenerateReport(metacard, rootNamespace, evaluate);
      if report.None? {
        return ReportFailed;
      }
      var errors, warnings := SplitBySeverity(report.value);
      if errors != [] {
        return Rejected(errors, warnings);
      }
      if !suppressWarnings && warnings != [] {
        return Rejected(errors, warnings);
      }
      verdict := Accepted;
    }

    /** `validateMetacard(Metacard)`: the report, or no report when producing it
        throws. */
    method ValidateMetacard(metacard: Metacard, rootNamespace: string -> Option<string>,
                            evaluate: (ValidatorHandle, string) -> Outcome)
      returns (result: Option<seq<Violation>>)
      ensures result == Report(validators, namespace, metacard, rootNamespace, evaluate)
      ensures result.None? <==>
                CanBeValidated(metacard.metadata, namespace, rootNamespace) &&
                exists i :: 0 <= i < |validators| && evaluate(validators[i], metacard.metadata.value).Fail?
    {
      result := GenerateReport(metacard, rootNamespace, evaluate);
    }
  }
}
