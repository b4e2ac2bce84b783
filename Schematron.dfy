/** The logic of ddf.services.schematron.SchematronValidationService that does not
    depend on the object's state: message sanitising, rule-file path resolution,
    the applicability gate, the aggregation of validator results into a report, and
    the pass/fail decision. The stateful service itself is in SchematronService. */
module Schematron {
  import opened Wrappers
  import opened Strings
  import opened UnixPaths

  // ---------------------------------------------------------------------------
  // Message sanitiser
  // ---------------------------------------------------------------------------

  /** The character class `[\t \r\n]` of the sanitiser's pattern. */
  const Blanks: set<char> := {'\t', ' ', '\r', '\n'}

  /** The shape of a sanitised message: no tab, carriage return or line feed, never
      two spaces in a row, and nothing up to U+0020 at either end. */
  ghost predicate Sanitized(m: string)
  {
    && (forall i :: 0 <= i < |m| ==> m[i] != '\t' && m[i] != '\r' && m[i] != '\n')
    && (forall i :: 0 <= i < |m| - 1 ==> !(m[i] == ' ' && m[i + 1] == ' '))
    && (m == [] || (m[0] > ' ' && m[|m| - 1] > ' '))
  }

  /** `sanitize`: every run of tabs, spaces, carriage returns and line feeds becomes
      one space, then `trim()` strips the ends. */
  function Sanitize(input: string): (r: string)
    ensures |r| <= |input|
    ensures r == [] || (r[0] > ' ' && r[|r| - 1] > ' ')
  {
    Trim(CollapseRuns(input, Blanks, ' '))
  }

  /** A sanitised message has the sanitised shape, and is no longer than the input. */
  lemma SanitizeShape(input: string)
    ensures Sanitized(Sanitize(input))
    ensures |Sanitize(input)| <= |input|
  {
    var collapsed := CollapseRuns(input, Blanks, ' ');
    CollapseRunsCollapsed(input, Blanks, ' ');
    TrimCollapsed(collapsed, Blanks, ' ');
  }

  /** A message already in sanitised shape is left unchanged. */
  lemma SanitizedFixed(m: string)
    requires Sanitized(m)
    ensures Sanitize(m) == m
  {
    CollapseRunsIdentity(m, Blanks, ' ');
    TrimIdentity(m);
  }

  /** A message is a fixed point of `sanitize` exactly when it has the sanitised shape. */
  lemma SanitizedIffFixed(m: string)
    ensures Sanitized(m) <==> Sanitize(m) == m
  {
    SanitizeShape(m);
    if Sanitized(m) {
      SanitizedFixed(m);
    }
  }

  /** Sanitising twice gives the same message as sanitising once. */
  lemma SanitizeIdempotent(input: string)
    ensures Sanitize(Sanitize(input)) == Sanitize(input)
  {
    SanitizeShape(input);
    SanitizedFixed(Sanitize(input));
  }

  /** Sanitising removes and reorders no character above U+0020: only blanks and
      control characters are affected. */
  lemma SanitizeKeepsVisible(input: string)
    ensures Visible(Sanitize(input)) == Visible(input)
  {
    var collapsed := CollapseRuns(input, Blanks, ' ');
    CollapseKeepsVisible(input, Blanks, ' ');
    TrimKeepsVisible(collapsed);
  }

  /** Each run of tabs, spaces, carriage returns and line feeds between two words
      becomes exactly one space. */
  lemma SanitizeRun(a: string, r: string, b: string)
    requires a != [] && a[0] > ' ' && a[|a| - 1] > ' '
    requires r != [] && forall i :: 0 <= i < |r| ==> r[i] in Blanks
    requires b != [] && b[0] > ' ' && b[|b| - 1] > ' '
    ensures Sanitize(a + r + b) == Sanitize(a) + [' '] + Sanitize(b)
  {
    assert a[0] !in Blanks && a[|a| - 1] !in Blanks && b[0] !in Blanks && b[|b| - 1] !in Blanks;
    CollapseRunsRun(a, r, b, Blanks, ' ');
    var ca, cb := CollapseRuns(a, Blanks, ' '), CollapseRuns(b, Blanks, ' ');
    assert ca != [] && ca[0] == a[0] && ca[|ca| - 1] == a[|a| - 1];
    assert cb != [] && cb[0] == b[0] && cb[|cb| - 1] == b[|b| - 1];
    TrimIdentity(ca);
    TrimIdentity(cb);
    var joined := ca + [' '] + cb;
    assert joined[0] == ca[0] && joined[|joined| - 1] == cb[|cb| - 1];
    TrimIdentity(joined);
  }

  // ---------------------------------------------------------------------------
  // Priority
  // ---------------------------------------------------------------------------

  /** The priority `setPriority` stores for a requested `p`: 1 is the highest
      priority and 100 the lowest, so `p` is moved to the nearest value in [1, 100]. */
  function PriorityInRange(p: int): (r: int)
    ensures 1 <= r <= 100
    ensures 1 <= p <= 100 ==> r == p
    ensures forall q :: 1 <= q <= 100 ==> Distance(r, p) <= Distance(q, p)
  {
    if p > 100 then 100 else if p < 1 then 1 else p
  }

  function Distance(a: int, b: int): nat
  {
    if a <= b then b - a else a - b
  }

  // ---------------------------------------------------------------------------
  // Rule-file names
  // ---------------------------------------------------------------------------

  /** The folder relative rule-file names are resolved against:
      `Paths.get(ddfHome, "schematron").toString()`. */
  function BaseFolder(ddfHome: string): (r: string)
    requires '\0' !in ddfHome
    ensures BaseFolderOk(r)
    ensures ddfHome == [] ==> r == "schematron"
    ensures ddfHome != [] && Normalize(ddfHome) == [Separator] ==> r == [Separator] + "schematron"
    ensures ddfHome != [] && Normalize(ddfHome) != [Separator] ==>
              r == Normalize(ddfHome) + [Separator] + "schematron"
  {
    var j := Join(ddfHome, "schematron");
    var joined := if ddfHome == [] then "schematron" else ddfHome + [Separator] + "schematron";
    assert j == Some(Normalize(joined));
    assert joined[|joined| - 1] == 'n';
    NormalizeIsNormal(joined);
    if ddfHome == [] then
      NormalizeNoSeparator("schematron");
      j.value
    else
      NormalizeDirName(ddfHome, "schematron");
      j.value
  }

  /** What holds of every base folder `BaseFolder` yields. */
  ghost predicate BaseFolderOk(base: string)
  {
    base != [] && IsNormal(base) && base[|base| - 1] != Separator && '\0' !in base
  }

  /** One iteration of `setSchematronFileNames`: the normal form of `name` when it is
      absolute, otherwise the normal form joined onto `base`; None where `Paths.get`
      rejects the name (it contains NUL). */
  function ResolveFileName(base: string, name: string): (r: Option<string>)
    ensures r.None? <==> '\0' in name || ('\0' in base && !IsAbsolute(name))
  {
    match Get(name)
    case None => None
    case Some(full) =>
      NormalizeIsNormal(name);
      if IsAbsolute(full) then Some(full) else Join(base, full)
  }

  /** The four cases of resolving one rule-file name. */
  lemma ResolveFileNameCases(base: string, name: string)
    requires BaseFolderOk(base)
    ensures ResolveFileName(base, name).None? <==> '\0' in name
    ensures '\0' !in name && IsAbsolute(name) ==> ResolveFileName(base, name) == Some(Normalize(name))
    ensures '\0' !in name && IsAbsolute(name) && IsNormal(name) ==> ResolveFileName(base, name) == Some(name)
    ensures '\0' !in name && name == [] ==> ResolveFileName(base, name) == Some(base)
    ensures '\0' !in name && name != [] && !IsAbsolute(name) ==>
              ResolveFileName(base, name) == Some(base + [Separator] + Normalize(name))
  {
    if '\0' !in name {
      var full := Normalize(name);
      NormalizeIsNormal(name);
      if IsAbsolute(name) && IsNormal(name) {
        NormalizeNormal(name);
      }
      if name == [] {
        NormalizeNormal(base);
      }
      if name != [] && !IsAbsolute(name) {
        JoinNormal(base, full);
        NormalizeNormal(base + [Separator] + full);
      }
    }
  }

  /** Every name resolved on its own, in order. */
  function Resolutions(base: string, names: seq<string>): (r: seq<Option<string>>)
    ensures |r| == |names|
    ensures forall i :: 0 <= i < |names| ==> r[i] == ResolveFileName(base, names[i])
  {
    seq(|names|, i requires 0 <= i < |names| => ResolveFileName(base, names[i]))
  }

  /** The values of `opts` before its first None. */
  function TakeWhileSome<T>(opts: seq<Option<T>>): (r: seq<T>)
    ensures |r| <= |opts|
    ensures forall i :: 0 <= i < |r| ==> opts[i] == Some(r[i])
    ensures |r| < |opts| ==> opts[|r|].None?
  {
    if opts == [] then []
    else
      match opts[0]
      case None => []
      case Some(v) => [v] + TakeWhileSome(opts[1..])
  }

  /** One iteration of the loop of `setSchematronFileNames`, once every name before
      `names[i]` has been resolved: a resolved `names[i]` is appended to the list,
      and a rejected one ends it. */
  lemma ResolveFileNamesNext(base: string, names: seq<string>, i: nat)
    requires i < |names| && |ResolveFileNames(base, names[..i])| == i
    ensures ResolveFileName(base, names[i]).Some? ==>
              ResolveFileNames(base, names[..i + 1])
              == ResolveFileNames(base, names[..i]) + [ResolveFileName(base, names[i]).value]
    ensures ResolveFileName(base, names[i]).None? ==>
              ResolveFileNames(base, names) == ResolveFileNames(base, names[..i])
  {
    var opts := Resolutions(base, names);
    assert Resolutions(base, names[..i]) == opts[..i];
    assert Resolutions(base, names[..i + 1]) == opts[..i + 1];
    TakeWhileSomeNext(opts, i);
  }

  /** `TakeWhileSome` over a prefix made only of values: the next value extends it,
      and a None ends it. */
  lemma TakeWhileSomeNext<T>(opts: seq<Option<T>>, i: nat)
    requires i < |opts| && |TakeWhileSome(opts[..i])| == i
    ensures opts[i].Some? ==> TakeWhileSome(opts[..i + 1]) == TakeWhileSome(opts[..i]) + [opts[i].value]
    ensures opts[i].None? ==> TakeWhileSome(opts) == TakeWhileSome(opts[..i])
  {
    var before := TakeWhileSome(opts[..i]);
    assert forall k :: 0 <= k < i ==> opts[..i][k] == opts[k];
    if opts[i].None? {
      TakeWhileSomeUnique(opts, before);
    } else {
      var next := opts[..i + 1];
      assert forall k :: 0 <= k < i ==> next[k] == opts[k];
      TakeWhileSomeUnique(next, before + [opts[i].value]);
    }
  }

  /** The contract of `TakeWhileSome` determines its result. */
  lemma {:induction false} TakeWhileSomeUnique<T>(opts: seq<Option<T>>, r: seq<T>)
    requires |r| <= |opts|
    requires forall i :: 0 <= i < |r| ==> opts[i] == Some(r[i])
    requires |r| < |opts| ==> opts[|r|].None?
    ensures r == TakeWhileSome(opts)
  {
    if opts != [] && r != [] {
      var opts', r' := opts[1..], r[1..];
      forall i | 0 <= i < |r'|
        ensures opts'[i] == Some(r'[i])
      {
        assert opts'[i] == opts[i + 1] && r'[i] == r[i + 1];
      }
      assert |r'| < |opts'| ==> opts'[|r'|] == opts[|r|];
      TakeWhileSomeUnique(opts', r');
      assert opts[0] == Some(r[0]);
      assert r == [r[0]] + r';
    }
  }

  /** The list `setSchematronFileNames` builds: each name resolved in order, stopping
      before the first name `Paths.get` rejects (the exception ends the loop). */
  function ResolveFileNames(base: string, names: seq<string>): (r: seq<string>)
    ensures |r| <= |names|
    ensures forall i :: 0 <= i < |r| ==> ResolveFileName(base, names[i]) == Some(r[i])
    ensures |r| < |names| ==> ResolveFileName(base, names[|r|]).None?
  {
    TakeWhileSome(Resolutions(base, names))
  }

  /** Every name is kept, in order, exactly when none contains NUL. */
  lemma ResolveFileNamesComplete(base: string, names: seq<string>)
    requires BaseFolderOk(base)
    ensures |ResolveFileNames(base, names)| == |names| <==>
              forall i :: 0 <= i < |names| ==> '\0' !in names[i]
  {
    var r := ResolveFileNames(base, names);
    if |r| < |names| {
      ResolveFileNameCases(base, names[|r|]);
    } else {
      forall i | 0 <= i < |names| ensures '\0' !in names[i] {
        ResolveFileNameCases(base, names[i]);
      }
    }
  }

  /** Each kept name is resolved on its own: an absolute name in normal form is kept
      as it is, and a non-empty relative name is joined onto the base folder. */
  lemma ResolveFileNamesAt(base: string, names: seq<string>, i: nat)
    requires BaseFolderOk(base)
    requires i < |ResolveFileNames(base, names)|
    ensures IsAbsolute(names[i]) && IsNormal(names[i]) ==> ResolveFileNames(base, names)[i] == names[i]
    ensures names[i] != [] && !IsAbsolute(names[i]) ==>
              ResolveFileNames(base, names)[i] == base + [Separator] + Normalize(names[i])
    ensures names[i] == [] ==> ResolveFileNames(base, names)[i] == base
  {
    ResolveFileNameCases(base, names[i]);
  }

  // ---------------------------------------------------------------------------
  // Reports
  // ---------------------------------------------------------------------------

  datatype Severity = Error | Warning

  /** A ValidationViolationImpl: the attributes it concerns, its message, its severity. */
  datatype Violation = Violation(attributes: set<string>, message: string, severity: Severity)

  /** What one validator handle yields for a document: the SVRL report's error and
      warning messages, or Fail when waiting for the compiled rules times out or is
      interrupted, their compilation failed, or running them failed. */
  datatype Outcome = Ok(errors: seq<string>, warnings: seq<string>) | Fail

  /** The part of a Metacard the service reads: its metadata, which may be null. */
  datatype Metacard = Metacard(metadata: Option<string>)

  /** The result of `validate`: it returns normally, throws SchematronValidationException
      with the error and warning messages, or lets the ValidationExceptionImpl of
      `generateReport` escape. */
  datatype Verdict = Accepted | Rejected(errors: seq<string>, warnings: seq<string>) | ReportFailed

  /** Every violation is about the metacard's "metadata" attribute. */
  const MetadataAttributes: set<string> := {"metadata"}

  /** The applicability gate of `generateReport`: the metadata is neither null nor
      empty, and when a namespace filter is set it equals the document's root
      namespace (a document whose root namespace cannot be read never matches). */
  predicate CanBeValidated(metadata: Option<string>, namespace: Option<string>,
                           rootNamespace: string -> Option<string>): (ok: bool)
    ensures namespace.None? ==> (ok <==> metadata.Some? && metadata.value != [])
    ensures namespace.Some? ==>
              (ok <==> metadata.Some? && metadata.value != [] && rootNamespace(metadata.value) == namespace)
  {
    !(metadata.None? || metadata.value == [] ||
      (namespace.Some? && rootNamespace(metadata.value) != namespace))
  }

  /** The violations one `forEach` over a validator's messages appends, in order. */
  function Violations(messages: seq<string>, severity: Severity): (vs: seq<Violation>)
    ensures |vs| == |messages|
    ensures forall i :: 0 <= i < |vs| ==>
              vs[i] == Violation(MetadataAttributes, Sanitize(messages[i]), severity)
  {
    if messages == [] then []
    else Violations(messages[..|messages| - 1], severity)
         + [Violation(MetadataAttributes, Sanitize(messages[|messages| - 1]), severity)]
  }

  /** The violations of one successful validator: its errors, then its warnings. */
  function Entries(o: Outcome): seq<Violation>
    requires o.Ok?
  {
    Violations(o.errors, Error) + Violations(o.warnings, Warning)
  }

  /** The loop of `generateReport` over the validators' outcomes in order; None as
      soon as one of them fails, since the exception discards the report. */
  function Aggregate(outcomes: seq<Outcome>): (r: Option<seq<Violation>>)
    ensures r.Some? ==> forall i :: 0 <= i < |outcomes| ==> outcomes[i].Ok?
  {
    if outcomes == [] then Some([])
    else
      var last := outcomes[|outcomes| - 1];
      var prefix := outcomes[..|outcomes| - 1];
      match Aggregate(prefix)
      case None => None
      case Some(report) =>
        if last.Fail? then None
        else
          assert forall i :: 0 <= i < |prefix| ==> prefix[i] == outcomes[i];
          Some(report + Entries(last))
  }

  /** The raw error messages of the successful outcomes, in validator order. */
  function AllErrors(outcomes: seq<Outcome>): seq<string>
  {
    if outcomes == [] then []
    else AllErrors(outcomes[..|outcomes| - 1])
         + (if outcomes[|outcomes| - 1].Ok? then outcomes[|outcomes| - 1].errors else [])
  }

  /** The raw warning messages of the successful outcomes, in validator order. */
  function AllWarnings(outcomes: seq<Outcome>): seq<string>
  {
    if outcomes == [] then []
    else AllWarnings(outcomes[..|outcomes| - 1])
         + (if outcomes[|outcomes| - 1].Ok? then outcomes[|outcomes| - 1].warnings else [])
  }

  function SanitizeAll(messages: seq<string>): (r: seq<string>)
    ensures |r| == |messages|
    ensures forall i :: 0 <= i < |r| ==> r[i] == Sanitize(messages[i])
  {
    seq(|messages|, i requires 0 <= i < |messages| => Sanitize(messages[i]))
  }

  /** The messages of the violations of one severity, in report order: the lists
      `validate` fills (every violation that is not an ERROR goes to the warnings). */
  function Messages(vs: seq<Violation>, severity: Severity): (r: seq<string>)
    ensures |r| <= |vs|
  {
    if vs == [] then []
    else Messages(vs[..|vs| - 1], severity)
         + (if vs[|vs| - 1].severity == severity then [vs[|vs| - 1].message] else [])
  }

  lemma {:induction false} MessagesAppend(a: seq<Violation>, b: seq<Violation>, severity: Severity)
    ensures Messages(a + b, severity) == Messages(a, severity) + Messages(b, severity)
    decreases |b|
  {
    if b == [] {
      assert a + b == a;
    } else {
      assert (a + b)[..|a + b| - 1] == a + b[..|b| - 1];
      MessagesAppend(a, b[..|b| - 1], severity);
    }
  }

  /** The error and warning lists of `validate` split the report: together they hold
      one message per violation. */
  lemma {:induction false} MessagesPartition(vs: seq<Violation>)
    ensures |Messages(vs, Error)| + |Messages(vs, Warning)| == |vs|
    decreases |vs|
  {
    if vs != [] {
      MessagesPartition(vs[..|vs| - 1]);
    }
  }

  lemma {:induction false} MessagesOfViolations(messages: seq<string>, severity: Severity, wanted: Severity)
    ensures Messages(Violations(messages, severity), wanted) ==
              if severity == wanted then SanitizeAll(messages) else []
    decreases |messages|
  {
    if messages != [] {
      var n := |messages| - 1;
      MessagesOfViolations(messages[..n], severity, wanted);
      var vs := Violations(messages, severity);
      assert vs[..n] == Violations(messages[..n], severity);
      if severity == wanted {
        assert SanitizeAll(messages) == SanitizeAll(messages[..n]) + [Sanitize(messages[n])];
      }
    }
  }

  /** The report fails as a whole exactly when some validator fails: there is never
      a partial report. */
  lemma {:induction false} AggregateFailsIff(outcomes: seq<Outcome>)
    ensures Aggregate(outcomes).None? <==> exists i :: 0 <= i < |outcomes| && outcomes[i].Fail?
    decreases |outcomes|
  {
    if outcomes != [] {
      var n := |outcomes| - 1;
      AggregateFailsIff(outcomes[..n]);
      if exists i :: 0 <= i < n && outcomes[..n][i].Fail? {
        var i :| 0 <= i < n && outcomes[..n][i].Fail?;
        assert outcomes[i].Fail?;
      }
      if exists i :: 0 <= i < |outcomes| && outcomes[i].Fail? {
        var i :| 0 <= i < |outcomes| && outcomes[i].Fail?;
        if i < n {
          assert outcomes[..n][i].Fail?;
        }
      }
    }
  }

  /** One more successful validator appends its errors and then its warnings. */
  lemma AggregateStep(outcomes: seq<Outcome>, o: Outcome)
    requires o.Ok?
    ensures Aggregate(outcomes + [o]) ==
              if Aggregate(outcomes).None? then None else Some(Aggregate(outcomes).value + Entries(o))
  {
    assert (outcomes + [o])[..|outcomes|] == outcomes;
  }

  /** The messages of one severity among a successful validator's violations. */
  lemma EntriesMessages(o: Outcome)
    requires o.Ok?
    ensures Messages(Entries(o), Error) == SanitizeAll(o.errors)
    ensures Messages(Entries(o), Warning) == SanitizeAll(o.warnings)
  {
    var errs := Violations(o.errors, Error);
    var warns := Violations(o.warnings, Warning);
    MessagesAppend(errs, warns, Error);
    MessagesAppend(errs, warns, Warning);
    MessagesOfViolations(o.errors, Error, Error);
    MessagesOfViolations(o.errors, Error, Warning);
    MessagesOfViolations(o.warnings, Warning, Error);
    MessagesOfViolations(o.warnings, Warning, Warning);
  }

  /** When every validator succeeds the report's ERROR messages are all the
      validators' errors and its WARNING messages all their warnings, sanitised and
      in validator order, with one violation per message. */
  lemma {:induction false} AggregateContents(outcomes: seq<Outcome>)
    requires forall i :: 0 <= i < |outcomes| ==> outcomes[i].Ok?
    ensures Aggregate(outcomes).Some?
    ensures Messages(Aggregate(outcomes).value, Error) == SanitizeAll(AllErrors(outcomes))
    ensures Messages(Aggregate(outcomes).value, Warning) == SanitizeAll(AllWarnings(outcomes))
    ensures |Aggregate(outcomes).value| == |AllErrors(outcomes)| + |AllWarnings(outcomes)|
    decreases |outcomes|
  {
    if outcomes != [] {
      var n := |outcomes| - 1;
      var prefix, last := outcomes[..n], outcomes[n];
      assert outcomes == prefix + [last];
      AggregateContents(prefix);
      AggregateStep(prefix, last);
      var report := Aggregate(prefix).value;
      MessagesAppend(report, Entries(last), Error);
      MessagesAppend(report, Entries(last), Warning);
      EntriesMessages(last);
      SanitizeAllAppend(AllErrors(prefix), last.errors);
      SanitizeAllAppend(AllWarnings(prefix), last.warnings);
    }
  }

  /** Every violation of a report is about the "metadata" attribute and carries a
      sanitised message. */
  lemma {:induction false} AggregateTagged(outcomes: seq<Outcome>)
    requires Aggregate(outcomes).Some?
    ensures forall v :: v in Aggregate(outcomes).value ==>
              v.attributes == MetadataAttributes && Sanitized(v.message)
    decreases |outcomes|
  {
    if outcomes != [] {
      var n := |outcomes| - 1;
      var prefix, last := outcomes[..n], outcomes[n];
      assert outcomes == prefix + [last];
      AggregateTagged(prefix);
      AggregateStep(prefix, last);
      forall v | v in Entries(last)
        ensures v.attributes == MetadataAttributes && Sanitized(v.message)
      {
        var errs := Violations(last.errors, Error);
        if v in errs {
          var i :| 0 <= i < |errs| && errs[i] == v;
          SanitizeShape(last.errors[i]);
        } else {
          var warns := Violations(last.warnings, Warning);
          var i :| 0 <= i < |warns| && warns[i] == v;
          SanitizeShape(last.warnings[i]);
        }
      }
    }
  }

  lemma SanitizeAllAppend(a: seq<string>, b: seq<string>)
    ensures SanitizeAll(a + b) == SanitizeAll(a) + SanitizeAll(b)
  {
    assert forall i :: 0 <= i < |a + b| ==> SanitizeAll(a + b)[i] == (SanitizeAll(a) + SanitizeAll(b))[i];
  }

  /** The decision of `validate` on the report `generateReport` produced: throw when
      there are errors, or when there are warnings and they are not suppressed; the
      exception carries both lists. */
  function VerdictFor(report: Option<seq<Violation>>, suppressWarnings: bool): (v: Verdict)
    ensures v.ReportFailed? <==> report.None?
    ensures report.Some? ==>
              (v.Rejected? <==> Messages(report.value, Error) != [] ||
                                (!suppressWarnings && Messages(report.value, Warning) != []))
    ensures v.Rejected? ==> v.errors == Messages(report.value, Error) &&
                            v.warnings == Messages(report.value, Warning)
  {
    match report
    case None => ReportFailed
    case Some(vs) =>
      var errors := Messages(vs, Error);
      var warnings := Messages(vs, Warning);
      if errors != [] then Rejected(errors, warnings)
      else if !suppressWarnings && warnings != [] then Rejected(errors, warnings)
      else Accepted
  }

  /** End to end over the validators' outcomes: `validate` fails with the report
      exception when a validator fails; otherwise it rejects exactly when some
      validator reported an error, or a warning that is not suppressed, and the
      exception carries every error and every warning, sanitised and in order. */
  lemma VerdictOverOutcomes(outcomes: seq<Outcome>, suppressWarnings: bool)
    ensures (exists i :: 0 <= i < |outcomes| && outcomes[i].Fail?) ==>
              VerdictFor(Aggregate(outcomes), suppressWarnings) == ReportFailed
    ensures (forall i :: 0 <= i < |outcomes| ==> outcomes[i].Ok?) ==>
              var errors := SanitizeAll(AllErrors(outcomes));
              var warnings := SanitizeAll(AllWarnings(outcomes));
              VerdictFor(Aggregate(outcomes), suppressWarnings) ==
                if AllErrors(outcomes) != [] || (!suppressWarnings && AllWarnings(outcomes) != [])
                then Rejected(errors, warnings)
                else Accepted
  {
    AggregateFailsIff(outcomes);
    if forall i :: 0 <= i < |outcomes| ==> outcomes[i].Ok? {
      AggregateContents(outcomes);
    }
  }

  /** One validator reporting a single warning and no error: rejected with exactly
      that warning when warnings are not suppressed, accepted when they are. */
  lemma SingleWarning(w: string, suppressWarnings: bool)
    ensures VerdictFor(Aggregate([Ok([], [w])]), suppressWarnings) ==
              if suppressWarnings then Accepted else Rejected([], [Sanitize(w)])
  {
    var o := Ok([], [w]);
    assert [] + [o] == [o];
    AggregateStep([], o);
    EntriesMessages(o);
    assert SanitizeAll([w]) == [Sanitize(w)];
  }
}
