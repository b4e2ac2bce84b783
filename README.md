# Schematron validation service — a Dafny model

This project models the core of DDF's `SchematronValidationService`, the catalog
plugin that validates a metacard's XML metadata against a set of Schematron rule
files and turns the rules' failed assertions and reports into validation
violations.

The model covers:

- the message sanitiser (`sanitize`): each run of tabs, spaces, carriage returns
  and line feeds becomes one space, then `String.trim()` strips every leading and
  trailing character up to U+0020;
- the priority setter, which clamps the requested priority into 1..100;
- rule-file name resolution in `setSchematronFileNames`: an absolute name is kept
  in the normal form `java.nio.file.Path.toString()` gives it, a relative one is
  resolved under `<ddf.home>/schematron`, and a name the path library rejects ends
  the loop with an exception;
- `updateValidators` and `init`: one new validator handle per rule file, in list
  order, replacing all previous handles;
- `generateReport(Metacard)`: the applicability gate (metadata missing or empty, or
  a root namespace other than the configured one, gives an empty report), then, per
  validator in order, its errors (sanitised, severity ERROR) followed by its warnings
  (sanitised, severity WARNING), every violation about the attribute set
  `{"metadata"}`; a validator that fails or times out makes the whole call fail;
- `validate`: the split of the report into error and non-error messages, and the
  decision to throw when there are errors, or warnings that are not suppressed;
- `validateMetacard`: the report, or no report when producing it fails.

Modules:

- `Wrappers` — `Option`, standing for a Java reference that may be null and for a
  computation that may end in an exception.
- `Strings` — `replaceAll("[...]+", c)` as `CollapseRuns`, and `String.trim()` as
  `Trim`, with their properties.
- `UnixPaths` — `Paths.get(...)`, `Path.toString()` and `Path.isAbsolute()` on a
  Unix file system.
- `Schematron` — the state-free logic: `Sanitize`, `PriorityInRange`, the path
  resolution, the applicability gate, the aggregation of the validators' results
  into a report (`Aggregate`) and the decision of `validate` (`VerdictFor`).
- `SchematronService` — the class `SchematronValidationService` with its fields and
  methods, and `ValidatorHandle`, one submitted rule-compilation task.

What a validator yields for a document (the compiled rules run on the metadata,
or a failure) is the function parameter `evaluate`; the root namespace of a
document is the function parameter `rootNamespace`.

## Model

All source paths are under
`catalog/schematron/catalog-schematron-plugin/src/main/java/ddf/services/schematron/`,
written out in full below.

| member | source | states |
|---|---|---|
| Strings.CollapseRuns | catalog/schematron/catalog-schematron-plugin/src/main/java/ddf/services/schematron/SchematronValidationService.java:143 | `replaceAll` with a `[...]+` class: never longer than the input, empty exactly when the input is, the first character is the replacement when the input starts inside a run, and a last character outside the class is kept; how each run is rewritten is stated by `CollapseRunsRun` and `CollapseRunsLeadingRun` |
| Strings.SkipRun | catalog/schematron/catalog-schematron-plugin/src/main/java/ddf/services/schematron/SchematronValidationService.java:143 | the greedy `+` of the pattern: what remains after a run is a suffix of the input that does not start inside the class |
| Strings.SkipRunAppend | catalog/schematron/catalog-schematron-plugin/src/main/java/ddf/services/schematron/SchematronValidationService.java:143 | skipping a run inside a string that ends outside the class never reaches past that string |
| Strings.SkipRunAll | catalog/schematron/catalog-schematron-plugin/src/main/java/ddf/services/schematron/SchematronValidationService.java:143 | a whole run of class characters is skipped up to the first character outside the class |
| Strings.CollapseRunsAppend | catalog/schematron/catalog-schematron-plugin/src/main/java/ddf/services/schematron/SchematronValidationService.java:143 | a string cut after a character outside the class is rewritten part by part |
| Strings.CollapseRunsLeadingRun | catalog/schematron/catalog-schematron-plugin/src/main/java/ddf/services/schematron/SchematronValidationService.java:143 | a run at the start, however long, becomes exactly one replacement character, and the rest is rewritten on its own |
| Strings.CollapseRunsRun | catalog/schematron/catalog-schematron-plugin/src/main/java/ddf/services/schematron/SchematronValidationService.java:143 | each maximal run between two parts, however long, becomes exactly one replacement character, and each part is rewritten on its own: no character outside the class is dropped, added or moved |
| Strings.CollapseRunsCollapsed | catalog/schematron/catalog-schematron-plugin/src/main/java/ddf/services/schematron/SchematronValidationService.java:143 | after the replacement every class character is the replacement and no two neighbours both belong to the class |
| Strings.CollapseRunsKeepsOut | catalog/schematron/catalog-schematron-plugin/src/main/java/ddf/services/schematron/SchematronValidationService.java:143 | the replacement introduces no character other than the replacement character |
| Strings.CollapseRunsIdentity | catalog/schematron/catalog-schematron-plugin/src/main/java/ddf/services/schematron/SchematronValidationService.java:143 | a string with no run of two class characters and no class character other than the replacement is left as it is |
| Strings.CollapseRunsIdempotent | catalog/schematron/catalog-schematron-plugin/src/main/java/ddf/services/schematron/SchematronValidationService.java:143 | replacing twice gives the same string as replacing once |
| Strings.CollapseKeepsVisible | catalog/schematron/catalog-schematron-plugin/src/main/java/ddf/services/schematron/SchematronValidationService.java:143 | collapsing runs of characters up to U+0020 removes and reorders no character above U+0020 |
| Strings.Trim | catalog/schematron/catalog-schematron-plugin/src/main/java/ddf/services/schematron/SchematronValidationService.java:144 | `trim()`: the result is no longer than the input and neither starts nor ends with a character up to U+0020 |
| Strings.TrimStart | catalog/schematron/catalog-schematron-plugin/src/main/java/ddf/services/schematron/SchematronValidationService.java:144 | the leading half of `trim()`; `TrimStartSpec` states what it drops and keeps |
| Strings.TrimEnd | catalog/schematron/catalog-schematron-plugin/src/main/java/ddf/services/schematron/SchematronValidationService.java:144 | the trailing half of `trim()`; `TrimEndSpec` states what it drops and keeps |
| Strings.TrimStartSpec | catalog/schematron/catalog-schematron-plugin/src/main/java/ddf/services/schematron/SchematronValidationService.java:144 | the leading part `trim()` drops is a prefix of characters up to U+0020, and what remains starts above U+0020 |
| Strings.TrimEndSpec | catalog/schematron/catalog-schematron-plugin/src/main/java/ddf/services/schematron/SchematronValidationService.java:144 | the trailing part `trim()` drops is a suffix of characters up to U+0020, and what remains ends above U+0020 |
| Strings.TrimCollapsed | catalog/schematron/catalog-schematron-plugin/src/main/java/ddf/services/schematron/SchematronValidationService.java:143-144 | trimming keeps a collapsed string collapsed |
| Strings.TrimIdentity | catalog/schematron/catalog-schematron-plugin/src/main/java/ddf/services/schematron/SchematronValidationService.java:144 | a string that neither starts nor ends with a character up to U+0020 is left unchanged by `trim()` |
| Strings.TrimKeepsVisible | catalog/schematron/catalog-schematron-plugin/src/main/java/ddf/services/schematron/SchematronValidationService.java:144 | `trim()` removes and reorders no character above U+0020 |
| Schematron.Sanitize | catalog/schematron/catalog-schematron-plugin/src/main/java/ddf/services/schematron/SchematronValidationService.java:136-145 | a sanitised message is no longer than the input and neither starts nor ends with a character up to U+0020 |
| Schematron.SanitizeRun | catalog/schematron/catalog-schematron-plugin/src/main/java/ddf/services/schematron/SchematronValidationService.java:142-145 | between two parts that start and end above U+0020, a run of tabs, spaces, carriage returns and line feeds becomes exactly one space, and each part is sanitised on its own |
| Schematron.SanitizeShape | catalog/schematron/catalog-schematron-plugin/src/main/java/ddf/services/schematron/SchematronValidationService.java:136-145 | a sanitised message has no tab, carriage return or line feed, never two spaces in a row, nothing up to U+0020 at either end, and is no longer than the input |
| Schematron.SanitizedFixed | catalog/schematron/catalog-schematron-plugin/src/main/java/ddf/services/schematron/SchematronValidationService.java:142-145 | a message in that shape is left unchanged by `sanitize` |
| Schematron.SanitizedIffFixed | catalog/schematron/catalog-schematron-plugin/src/main/java/ddf/services/schematron/SchematronValidationService.java:142-145 | a message is left unchanged by `sanitize` exactly when it has the sanitised shape |
| Schematron.SanitizeIdempotent | catalog/schematron/catalog-schematron-plugin/src/main/java/ddf/services/schematron/SchematronValidationService.java:142-145 | sanitising twice equals sanitising once |
| Schematron.SanitizeKeepsVisible | catalog/schematron/catalog-schematron-plugin/src/main/java/ddf/services/schematron/SchematronValidationService.java:142-145 | sanitising keeps every character above U+0020, in order, and adds none |
| Schematron.PriorityInRange | catalog/schematron/catalog-schematron-plugin/src/main/java/ddf/services/schematron/SchematronValidationService.java:268-277 | the stored priority lies in 1..100, equals the request when it is in range, and is the value in range nearest to the request |
| UnixPaths.Normalize | catalog/schematron/catalog-schematron-plugin/src/main/java/ddf/services/schematron/SchematronValidationService.java:250-251 | `Path.toString()` of a parsed path: no longer than the input, empty exactly when it is, absolute exactly when it is, and a last character other than `/` is kept; its content is stated by the lemmas below |
| UnixPaths.IsAbsolute | catalog/schematron/catalog-schematron-plugin/src/main/java/ddf/services/schematron/SchematronValidationService.java:252-253 | `Path.isAbsolute()`: the path starts with `/`; `Normalize` keeps it, so testing the parsed name or its string form agrees |
| UnixPaths.NormalizeIsNormal | catalog/schematron/catalog-schematron-plugin/src/main/java/ddf/services/schematron/SchematronValidationService.java:250-251 | the normalised path has no repeated separator and no trailing separator except for the root, and gains no NUL |
| UnixPaths.NormalizeNormal | catalog/schematron/catalog-schematron-plugin/src/main/java/ddf/services/schematron/SchematronValidationService.java:250-251 | a path already in normal form is its own normal form |
| UnixPaths.NormalizeIdempotent | catalog/schematron/catalog-schematron-plugin/src/main/java/ddf/services/schematron/SchematronValidationService.java:250-251 | normalising twice equals normalising once |
| UnixPaths.NormalizeNoSeparator | catalog/schematron/catalog-schematron-plugin/src/main/java/ddf/services/schematron/SchematronValidationService.java:250-251 | a path with no separator is its own normal form |
| UnixPaths.NormalizeSplit | catalog/schematron/catalog-schematron-plugin/src/main/java/ddf/services/schematron/SchematronValidationService.java:250-251 | each run of separators between two parts becomes exactly one separator, and each part is normalised on its own: no other character is dropped, added or moved |
| UnixPaths.NormalizeTrailing | catalog/schematron/catalog-schematron-plugin/src/main/java/ddf/services/schematron/SchematronValidationService.java:250-251 | separators after the last part are dropped |
| UnixPaths.NormalizeRoot | catalog/schematron/catalog-schematron-plugin/src/main/java/ddf/services/schematron/SchematronValidationService.java:250-251 | a path made of separators only is the root `/` |
| UnixPaths.NormalizeLeading | catalog/schematron/catalog-schematron-plugin/src/main/java/ddf/services/schematron/SchematronValidationService.java:250-251 | separators at the front become the one root separator |
| UnixPaths.LastNonSeparator | catalog/schematron/catalog-schematron-plugin/src/main/java/ddf/services/schematron/SchematronValidationService.java:250-251 | the position of the last character that is not a separator, every character after it being one |
| UnixPaths.NormalizeDirName | catalog/schematron/catalog-schematron-plugin/src/main/java/ddf/services/schematron/SchematronValidationService.java:254-255 | a directory joined with a name without separators: the name under the normalised directory, or under the root when the directory is made of separators only |
| UnixPaths.Get | catalog/schematron/catalog-schematron-plugin/src/main/java/ddf/services/schematron/SchematronValidationService.java:250-253 | `Paths.get(p)` fails exactly when `p` contains NUL |
| UnixPaths.Join | catalog/schematron/catalog-schematron-plugin/src/main/java/ddf/services/schematron/SchematronValidationService.java:254-255 | `Paths.get(first, more)` fails exactly when either part contains NUL |
| UnixPaths.JoinNormal | catalog/schematron/catalog-schematron-plugin/src/main/java/ddf/services/schematron/SchematronValidationService.java:254-255 | joining a normal folder with a normal non-empty relative path adds exactly one separator and yields a normal path |
| Schematron.BaseFolder | catalog/schematron/catalog-schematron-plugin/src/main/java/ddf/services/schematron/SchematronValidationService.java:101-103 | `Paths.get(ddfHome, "schematron")`: `schematron` for an empty home, `/schematron` for a home made of separators, otherwise the normalised home, `/`, `schematron`; always a non-empty normal path, not ending in a separator, with no NUL |
| Schematron.ResolveFileName | catalog/schematron/catalog-schematron-plugin/src/main/java/ddf/services/schematron/SchematronValidationService.java:250-257 | one name fails exactly when it contains NUL, or when it is relative and the base folder contains NUL |
| Schematron.ResolveFileNameCases | catalog/schematron/catalog-schematron-plugin/src/main/java/ddf/services/schematron/SchematronValidationService.java:250-257 | a name fails exactly when it contains NUL; an absolute name becomes its normal form (itself when already normal); an empty name becomes the base folder; a non-empty relative name becomes base folder, `/`, normalised name |
| Schematron.TakeWhileSome | catalog/schematron/catalog-schematron-plugin/src/main/java/ddf/services/schematron/SchematronValidationService.java:249-258 | the loop keeps the values before the first failure, each one the value at its position, and stops only at a failure |
| Schematron.TakeWhileSomeUnique | catalog/schematron/catalog-schematron-plugin/src/main/java/ddf/services/schematron/SchematronValidationService.java:249-258 | those three properties determine the kept list |
| Schematron.TakeWhileSomeNext | catalog/schematron/catalog-schematron-plugin/src/main/java/ddf/services/schematron/SchematronValidationService.java:249-258 | once every value before position `i` was kept, a value at `i` is appended and a failure at `i` ends the list |
| Schematron.ResolveFileNames | catalog/schematron/catalog-schematron-plugin/src/main/java/ddf/services/schematron/SchematronValidationService.java:248-258 | the new list holds, in order, the resolution of each name before the first rejected one, and stops only at a rejected name |
| Schematron.ResolveFileNamesComplete | catalog/schematron/catalog-schematron-plugin/src/main/java/ddf/services/schematron/SchematronValidationService.java:248-258 | every name is kept exactly when no name contains NUL |
| Schematron.ResolveFileNamesAt | catalog/schematron/catalog-schematron-plugin/src/main/java/ddf/services/schematron/SchematronValidationService.java:250-257 | each kept entry is the name itself when absolute and normal, the base folder when empty, and base folder, `/`, normalised name when relative |
| Schematron.ResolveFileNamesNext | catalog/schematron/catalog-schematron-plugin/src/main/java/ddf/services/schematron/SchematronValidationService.java:249-258 | one iteration of the loop: once every earlier name was resolved, a resolved name is appended to the list and a rejected one ends it |
| Schematron.CanBeValidated | catalog/schematron/catalog-schematron-plugin/src/main/java/ddf/services/schematron/SchematronValidationService.java:313-317 | without a namespace filter the gate passes exactly when the metadata is present and non-empty; with one, exactly when the metadata is present, non-empty and its root namespace equals the filter (a document whose root namespace cannot be read never passes) |
| Schematron.Violations | catalog/schematron/catalog-schematron-plugin/src/main/java/ddf/services/schematron/SchematronValidationService.java:322-331 | one violation per message, in order, about `{"metadata"}`, with the sanitised message and the given severity |
| Schematron.Entries | catalog/schematron/catalog-schematron-plugin/src/main/java/ddf/services/schematron/SchematronValidationService.java:322-331 | one validator's violations: its errors, then its warnings; `EntriesMessages` states which messages each severity carries |
| Schematron.Aggregate | catalog/schematron/catalog-schematron-plugin/src/main/java/ddf/services/schematron/SchematronValidationService.java:318-335 | a report exists only when every validator succeeded |
| Schematron.Messages | catalog/schematron/catalog-schematron-plugin/src/main/java/ddf/services/schematron/SchematronValidationService.java:284-293 | at most one message per violation; which messages is stated by the lemmas below |
| Schematron.MessagesPartition | catalog/schematron/catalog-schematron-plugin/src/main/java/ddf/services/schematron/SchematronValidationService.java:284-293 | the error and warning lists of `validate` together hold exactly one message per violation |
| Schematron.MessagesAppend | catalog/schematron/catalog-schematron-plugin/src/main/java/ddf/services/schematron/SchematronValidationService.java:284-293 | splitting a concatenated report splits each part and concatenates the results |
| Schematron.MessagesOfViolations | catalog/schematron/catalog-schematron-plugin/src/main/java/ddf/services/schematron/SchematronValidationService.java:284-293 | the messages of one severity in a validator's violations are its sanitised messages of that severity, and none of the other |
| Schematron.AggregateFailsIff | catalog/schematron/catalog-schematron-plugin/src/main/java/ddf/services/schematron/SchematronValidationService.java:318-335 | the report fails exactly when some validator fails; there is never a partial report |
| Schematron.AggregateStep | catalog/schematron/catalog-schematron-plugin/src/main/java/ddf/services/schematron/SchematronValidationService.java:319-332 | one more successful validator appends its errors and then its warnings to the report |
| Schematron.EntriesMessages | catalog/schematron/catalog-schematron-plugin/src/main/java/ddf/services/schematron/SchematronValidationService.java:322-331 | a validator's ERROR violations carry its sanitised errors and its WARNING violations its sanitised warnings |
| Schematron.AggregateContents | catalog/schematron/catalog-schematron-plugin/src/main/java/ddf/services/schematron/SchematronValidationService.java:318-332 | when every validator succeeds the report exists, its ERROR messages are all errors and its WARNING messages all warnings, sanitised and in validator order, one violation per message |
| Schematron.AggregateTagged | catalog/schematron/catalog-schematron-plugin/src/main/java/ddf/services/schematron/SchematronValidationService.java:313-331 | every violation of a report is about `{"metadata"}` and carries a sanitised message |
| Schematron.SanitizeAllAppend | catalog/schematron/catalog-schematron-plugin/src/main/java/ddf/services/schematron/SchematronValidationService.java:322-331 | sanitising a concatenation of message lists is the concatenation of the sanitised lists |
| Schematron.VerdictFor | catalog/schematron/catalog-schematron-plugin/src/main/java/ddf/services/schematron/SchematronValidationService.java:280-307 | `validate` fails with the report's exception exactly when the report fails; otherwise it throws exactly when there are errors, or warnings that are not suppressed, with the error and warning messages in report order |
| Schematron.VerdictOverOutcomes | catalog/schematron/catalog-schematron-plugin/src/main/java/ddf/services/schematron/SchematronValidationService.java:280-338 | over the validators' results: a failing validator makes `validate` fail; otherwise it throws exactly when some validator reported an error, or a warning that is not suppressed, with every error and warning sanitised and in order |
| Schematron.SingleWarning | catalog/schematron/catalog-schematron-plugin/src/main/java/ddf/services/schematron/SchematronValidationService.java:300-306 | one validator with one warning and no error: rejected with that warning unless warnings are suppressed, then accepted |
| SchematronService.Report | catalog/schematron/catalog-schematron-plugin/src/main/java/ddf/services/schematron/SchematronValidationService.java:310-338 | a metacard outside the gate gets an empty report; the report fails exactly when the metacard passes the gate and some validator fails on its metadata |
| SchematronService.GateAccepts | catalog/schematron/catalog-schematron-plugin/src/main/java/ddf/services/schematron/SchematronValidationService.java:313-317 | a metacard with missing or empty metadata, or in another namespace, is accepted by `validate` whatever the validators say |
| SchematronService.ValidateOverValidators | catalog/schematron/catalog-schematron-plugin/src/main/java/ddf/services/schematron/SchematronValidationService.java:280-338 | for a metacard that passes the gate, the decision of `validate` in terms of what the service's validators yield for its metadata |
| SchematronService.AggregateNext | catalog/schematron/catalog-schematron-plugin/src/main/java/ddf/services/schematron/SchematronValidationService.java:319-332 | one iteration of the validator loop appends the validator's error violations, then its warning violations |
| SchematronService.AddViolations | catalog/schematron/catalog-schematron-plugin/src/main/java/ddf/services/schematron/SchematronValidationService.java:322-331 | each `forEach` appends one violation per message, in order, sanitised, with its severity, and keeps what the report held |
| SchematronService.SplitBySeverity | catalog/schematron/catalog-schematron-plugin/src/main/java/ddf/services/schematron/SchematronValidationService.java:284-293 | the loop of `validate` yields exactly the ERROR messages and the other messages, each in report order |
| SchematronService.ValidatorHandle.constructor | catalog/schematron/catalog-schematron-plugin/src/main/java/ddf/services/schematron/SchematronValidationService.java:165-168 | one handle per submitted rule file, remembering that file's name |
| SchematronService.SchematronValidationService.constructor | catalog/schematron/catalog-schematron-plugin/src/main/java/ddf/services/schematron/SchematronValidationService.java:101-127 | a new service has priority 10, no rule-file list, warnings not suppressed, no namespace, no factory and no validators, and its base folder is `<ddf.home>/schematron` |
| SchematronService.SchematronValidationService.Init | catalog/schematron/catalog-schematron-plugin/src/main/java/ddf/services/schematron/SchematronValidationService.java:147-160 | after `init` the factory exists; the validators match the rule-file list, or are empty and the call fails when no list was ever set; nothing else changes |
| SchematronService.SchematronValidationService.UpdateValidators | catalog/schematron/catalog-schematron-plugin/src/main/java/ddf/services/schematron/SchematronValidationService.java:162-171 | reached only once `init` has run, and keeps the service's invariant: the validators become one new, distinct handle per rule file, in order; none of the old handles remains; a missing list fails after the clear |
| SchematronService.SchematronValidationService.SetSuppressWarnings | catalog/schematron/catalog-schematron-plugin/src/main/java/ddf/services/schematron/SchematronValidationService.java:242-244 | stores the flag, nothing else changes |
| SchematronService.SchematronValidationService.SetSchematronFileNames | catalog/schematron/catalog-schematron-plugin/src/main/java/ddf/services/schematron/SchematronValidationService.java:246-262 | the list becomes the resolved names; the call succeeds exactly when no name contains NUL; on success after `init` the validators are rebuilt from the new list, otherwise they are unchanged; priority, flag and namespace are unchanged |
| SchematronService.SchematronValidationService.ResolveInto | catalog/schematron/catalog-schematron-plugin/src/main/java/ddf/services/schematron/SchematronValidationService.java:248-258 | the loop leaves in the field the resolved names before the first rejected one, and succeeds exactly when it kept them all |
| SchematronService.SchematronValidationService.SetNamespace | catalog/schematron/catalog-schematron-plugin/src/main/java/ddf/services/schematron/SchematronValidationService.java:264-266 | stores the namespace filter, nothing else changes |
| SchematronService.SchematronValidationService.SetPriority | catalog/schematron/catalog-schematron-plugin/src/main/java/ddf/services/schematron/SchematronValidationService.java:268-277 | the stored priority is the request clamped into 1..100, so the priority invariant is kept |
| SchematronService.SchematronValidationService.GenerateReport | catalog/schematron/catalog-schematron-plugin/src/main/java/ddf/services/schematron/SchematronValidationService.java:310-338 | the loop over the validators produces exactly the report `Report` describes, failing exactly when a validator fails |
| SchematronService.SchematronValidationService.Validate | catalog/schematron/catalog-schematron-plugin/src/main/java/ddf/services/schematron/SchematronValidationService.java:279-308 | the outcome is the `VerdictFor` of the service's report and its suppress-warnings flag |
| SchematronService.SchematronValidationService.ValidateMetacard | catalog/schematron/catalog-schematron-plugin/src/main/java/ddf/services/schematron/SchematronValidationService.java:395-403 | the report, or no report exactly when the metacard passes the gate and some validator fails on its metadata |

## Left out

- Compiling a rule file (the ISO Schematron XSLT stages, `compileSchematronRules`)
  and running compiled rules on a document (`generateReport(String, Templates)`,
  SVRL parsing): what a validator yields is the parameter `evaluate`.
- The thread pool, the futures and the ten-minute timeout: a timeout, an execution
  failure or an interruption is the `Fail` outcome; the pool size property is not
  modelled.
- `XMLUtils.getRootNamespace` parses XML; it is the parameter `rootNamespace`.
- The `ddf.home` system property is a constructor argument; a missing property (a
  null argument) and a value containing NUL, which both make class loading fail,
  are excluded by the constructor's precondition.
- Paths: only the Unix file-system rules are modelled (separator `/`, NUL is the
  one rejected character); Windows paths and file existence are not. Java also
  rejects a path with a character the platform's file-name encoding cannot map
  (any non-ASCII character under a C/POSIX locale); that rejection is not modelled.
- The Saxon error listener, the listener classes and their warnings vector, and
  logging.
- The `Describable` getters and setters (`getVersion`, `getId`, `setId`, ...),
  which only return or store values.
- Calls to one service are taken never to overlap. The service keeps shared state
  without locking, and overlapping calls break two things. First, `generateReport`
  writes each validator's result into the `schematronReport` field and reads it
  back, so when two reports are produced at once, one can pick up the other
  document's messages. Second, `updateValidators` clears and refills the
  `validators` list while a report may be looping over it; that loop can then fail
  with a `ConcurrentModificationException`, which `validateMetacard` does not catch,
  so the call throws instead of returning `Optional.empty()`. The contracts of
  `GenerateReport`, `Validate` and `ValidateMetacard` hold for calls that do not
  overlap; the field itself is a local value in the model.
- The `MetacardValidationReportImpl` class is not part of this model: a report is
  taken to be an insertion-ordered list of violations that keeps duplicates. If its
  violations are kept in a set, equal violations merge and the order is lost; the
  one-violation-per-message count of `AggregateContents` and the message order of
  `VerdictFor` then hold only under that list assumption.
- SchematronService.SchematronValidationService.SetSchematronFileNames: a null list
  and a null entry are not modelled, because the names are a sequence of strings. In
  Java a null list first empties the field and then throws a NullPointerException,
  leaving the validators as they were, so that a later `init` succeeds with no
  handles; a null entry makes `Paths.get(null)` throw mid-loop, as a name with NUL
  does here.
- The TransformerFactory is reduced to the flag `initialized`.
- Java's `int` width: the priority clamp never overflows, so priorities are
  unbounded integers.
