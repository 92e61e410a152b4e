# Deployment environment variables: the reconciliation core

This project models the part of the astro-cli deployment commands that decides
which environment variables a deployment ends up with. It is written in Dafny,
and the model is proved against specifications.

`VariableModify` (in `cloud/deployment/deployment_variable.go`) works in four steps:

1. It looks up the deployment.
2. It copies the deployment's stored variables into a new request list.
3. It merges in at most one inline `KEY`/`VALUE` pair.
4. It merges in the lines of an environment file.

Each candidate goes through the same three-way rule:

- an existing key is skipped (create-only);
- or the existing key is overwritten in place, with its secrecy only ever raised;
- or a new key is appended.

`VariableList` looks the deployment up and can append the variables to an
export file. It then selects the table rows to show.

The model follows the Go code's own structure:

- Loops become methods with loop invariants:
  - `contains`;
  - the seeding loop;
  - the `addVariablesFromFile` line loop;
  - the deployment lookup;
  - the row selection;
  - the `writeVarToFile` line loop.
- `addVariableFromFlag` has no loop of its own: it is a method that calls `Contains`, and its three cases are stated outright.
- Each method is proved equal to a specification function:
  - `FirstIndex` for `Contains`;
  - `Copies` and `Keys` for `Seed`;
  - `ApplyCandidate` for `AddVariableFromFlag`;
  - `MergeFile` for `AddVariablesFromFile`;
  - `Reconcile` for `VariableModify`;
  - `Resolve` for `FindDeployment`;
  - `Selected` for `ListRows`;
  - `ExportText` of `Matching` for `WriteVarToFile`.
- Lemmas state what the merge guarantees, and where it falls short of keeping keys unique.

Modules:

- `Wrappers`: the `Option` type.
- `Strings`: Go's `strings.Split`/`strings.Join` with a one-character separator, and `SplitKeyValue`, which reads a file line as pieces 0 and 1 of `strings.Split(line, "=")`.
- `Variables`: stored records, request records, the notices printed while merging, and the secrecy rule.
- `Search`: `contains`.
- `Merge`: the seeding, the inline step, the file loop, and the whole pass `Reconcile`.
- `MergeProperties`, `ReconcileProperties`: the loop invariant of the file pass, and its consequences for a whole pass.
- `Commands`: deployment lookup, `VariableModify` up to the update request, and `VariableList` with its export.
- `Scenarios`: concrete runs, including the cases where the code departs from a merge that keeps keys unique.

Behaviour of the code that the model keeps, although a reader might expect otherwise:

- A file line is checked for an existing key against the fetched keys only, not against the list accumulated so far. So a key the inline pair has just appended is appended again by a file line with the same key (`Scenarios.InlineThenFileDuplicatesKey`). A file line for a key the inline pair has just updated overwrites that update (`Scenarios.FileOverridesInlineUpdate`).
- The value of a file line is the text between the first and the second `=`. The rest of the line is dropped (`Scenarios.ValueEndsAtSecondEquals`).
- A line that is neither a comment nor blank and has no `=` makes Go panic on the index `[1]`. It is modelled as an outcome carrying the index of the first such line, and no update request is sent (`Merge.MergeFilePanics`).
- The export writes the full value of secret variables, although the message printed after it says secret variables were saved only with a key (`Scenarios.ExportWritesSecretValue`).
- The listing tests `Key == filter` before `filter == ""`. So with no filter, a record with an empty key ends the listing. With a filter, only the first match is shown, while the export writes every match (`Commands.EmptyKeyEndsListing`, `Scenarios.ListStopsAtFirstMatch`, `Scenarios.ExportWritesEveryMatch`).
- The deployment lookup keeps the last deployment with the requested ID. An empty requested ID is rejected even if a deployment has an empty ID.

## Model

| member | source | states |
|---|---|---|
| Strings.Split | cloud/deployment/deployment_variable.go:277-278 | Go's `strings.Split` with a one-character separator always yields at least one piece; `JoinSplit`, `SplitCount` and `SplitJoin` pin it down |
| Strings.SplitKeyValue | cloud/deployment/deployment_variable.go:277-278 | there is no key/value exactly when the line has no `=` (the Go index `[1]` panics); otherwise key and value are `=`-free, `key=value` is a prefix of the line, and that prefix is followed by the end of the line or another `=` |
| Strings.KeyValueOfLine | cloud/deployment/deployment_variable.go:277-278 | a line `k=v`, followed by nothing or by `=…`, reads back as key `k` and value `v` when neither contains `=` |
| Strings.KeyOfLine | cloud/deployment/deployment_variable.go:277-278 | a line `k=…` always yields a key and a value, and the key is `k` when `k` holds no `=`, whatever follows |
| Strings.JoinSplit | cloud/deployment/deployment_variable.go:277-278 | joining the pieces of `strings.Split` with the separator gives the string back |
| Strings.SplitPiecesFree | cloud/deployment/deployment_variable.go:277-278 | no piece of a split contains the separator |
| Strings.SplitCount | cloud/deployment/deployment_variable.go:277-278 | a split has at least two pieces exactly when the separator occurs, i.e. exactly when piece `[1]` exists |
| Strings.SplitJoin | cloud/deployment/deployment_variable.go:277-278 | splitting a join of separator-free pieces gives the pieces back |
| Search.FirstIndex | cloud/deployment/deployment_variable.go:178-185 | the first position holding `v`, with no earlier match; equal to the length exactly when `v` is absent |
| Search.Contains | cloud/deployment/deployment_variable.go:178-185 | `exist` holds exactly when `v` occurs; then `num` is its first position; otherwise `num` is 0 |
| Variables.Copies | cloud/deployment/deployment_variable.go:123-129 | a request record per stored record, same key, value and secrecy, same order |
| Variables.Keys | cloud/deployment/deployment_variable.go:130 | the stored keys, in order |
| Variables.Updated | cloud/deployment/deployment_variable.go:240-248 | the rewritten record keeps the old key, takes the new value, is secret when requested or when it was secret, and secret only then |
| Variables.SecretAfterUpdate | cloud/deployment/deployment_variable.go:240-243 | updated secrecy is `makeSecret` or the former flag, so a secret stays secret |
| Merge.ContextOf | cloud/deployment/deployment_variable.go:117-131 | the old key list has one entry per fetched record, each that record's key |
| Merge.Seed | cloud/deployment/deployment_variable.go:117-131 | the new list and `oldKeyList` are field-by-field copies of the fetched records and their keys, in order |
| Merge.ApplyCandidate | cloud/deployment/deployment_variable.go:232-259 | the three-way rule never shortens the list |
| Merge.AddVariableFromFlag | cloud/deployment/deployment_variable.go:232-259 | existing key and no update: list unchanged, skip notice; existing key with update: only the first position of the key changes, to old key, new value and raised secrecy; new key: appended with `makeSecret` |
| Merge.FlagStep | cloud/deployment/deployment_variable.go:133-142 | a missing key or missing value leaves the list unchanged; the list never shrinks |
| Merge.IsComment | cloud/deployment/deployment_variable.go:271 | a comment line is one that has `#` as a prefix, as `strings.HasPrefix` tests |
| Merge.ApplyLine | cloud/deployment/deployment_variable.go:270-323 | one file line never shortens the list; it panics exactly when it is neither a comment nor blank and has no `=`, and then at its own index |
| Merge.MergeFile | cloud/deployment/deployment_variable.go:270-323 | the file pass never shortens the list, and a panic is reported at a line of the file |
| Merge.MergeFilePanics | cloud/deployment/deployment_variable.go:270-278 | the file pass panics exactly when some line is neither a comment nor blank and has no `=`, and it panics at the first such line |
| Merge.CrashPersists | cloud/deployment/deployment_variable.go:277-278 | once a line has panicked, later lines do not matter |
| Merge.AddVariablesFromFile | cloud/deployment/deployment_variable.go:263-325 | the loop, with its `continue`s and the two `contains` calls, computes `MergeFile`: the same list, the same recorded keys, the same notices, or a panic at the first line that is neither a comment nor blank and has no `=` |
| Merge.Reconcile | cloud/deployment/deployment_variable.go:116-147 | the whole merge (seed, inline pair, file) panics exactly when a file is given and one of its lines is neither a comment nor blank and has no `=`, at the first such line; otherwise the list keeps at least the fetched records |
| MergeProperties.ApplyLineConforms | cloud/deployment/deployment_variable.go:279-322 | one line keeps the invariant: file keys distinct, earlier records untouched or overwritten for their own key, later records distinct appended ones |
| MergeProperties.MergeFileConforms | cloud/deployment/deployment_variable.go:270-323 | the whole file pass keeps that invariant |
| MergeProperties.ApplyLineGrows | cloud/deployment/deployment_variable.go:312-321 | a line never removes a recorded key or shortens the list |
| MergeProperties.MergeFilePrefix | cloud/deployment/deployment_variable.go:270-323 | if the file runs, every prefix runs, its recorded keys are a prefix and its list is no longer |
| MergeProperties.RecordedKeyIsFrozen | cloud/deployment/deployment_variable.go:287-292 | first line wins: once a line for a key has been applied, no later line changes a record carrying that key |
| MergeProperties.KeyOfOldPosition | cloud/deployment/deployment_variable.go:307-311 | an overwrite keeps the record's old key, so every fetched position keeps its key through the file pass |
| MergeProperties.AcceptedLine | cloud/deployment/deployment_variable.go:277-322 | a line `k=v` that passes every check goes through the three-way rule and records `k` |
| MergeProperties.AppendedLine | cloud/deployment/deployment_variable.go:315-322 | an accepted line for a key that was not fetched appends `key`, `value` and the requested secrecy, records the key and reports the addition |
| MergeProperties.DuplicateLine | cloud/deployment/deployment_variable.go:287-292 | a line whose key an earlier line recorded is reported as a duplicate and changes nothing else |
| MergeProperties.FileKeysFromLines | cloud/deployment/deployment_variable.go:312-321 | every key the file pass records is the key of one of the file's lines |
| MergeProperties.UntargetedUnchangedInFile | cloud/deployment/deployment_variable.go:294-313 | a fetched position whose key no file line names is left exactly as the file pass found it |
| MergeProperties.RejectedLineIsInert | cloud/deployment/deployment_variable.go:271-286 | a comment, a blank line, or a line with an empty key or value has no effect on the list or on the recorded keys, wherever it stands in the file |
| ReconcileProperties.FlagStepReconciled | cloud/deployment/deployment_variable.go:133-142 | after the inline step, fetched records keep position and key and are unchanged or updated with raised secrecy; any new record has a fresh non-empty key and value |
| ReconcileProperties.MergeFileReconciled | cloud/deployment/deployment_variable.go:144-147 | the file pass keeps that property |
| ReconcileProperties.ReconcileKeepsExisting | cloud/deployment/deployment_variable.go:116-147 | a whole pass never lowers secrecy and never moves, drops or re-keys a fetched record; every other record is new, with non-empty key and value and the requested secrecy |
| MergeProperties.UnnamedKeyNotRecorded | cloud/deployment/deployment_variable.go:312-321 | a key that no line of the file names is never recorded by the file pass |
| ReconcileProperties.UntargetedUnchanged | cloud/deployment/deployment_variable.go:116-147 | nothing else changes: a fetched record whose key is neither the inline key nor the key of any file line is resent exactly as it was |
| ReconcileProperties.ReconcileCreateOnly | cloud/deployment/deployment_variable.go:236-237 | without the update flag every fetched record is resent exactly as it was |
| ReconcileProperties.ReconcileDistinctKeys | cloud/deployment/deployment_variable.go:287-299 | with distinct fetched keys the request has no duplicate key, unless the inline key was appended and a file line names it |
| Commands.LastMatch | cloud/deployment/deployment_variable.go:106-111 | the last position with the requested ID, or none exactly when no deployment has it |
| Commands.Resolve | cloud/deployment/deployment_variable.go:106-114 | a deployment is chosen exactly when the requested ID is non-empty and some deployment has it; it has that ID and no later deployment does |
| Commands.FindDeployment | cloud/deployment/deployment_variable.go:106-114 | a deployment is returned exactly when the ID is non-empty and some deployment has it; it has that ID and it is the last match |
| Commands.VariableModify | cloud/deployment/deployment_variable.go:81-147 | an unknown deployment gives `errInvalidDeploymentKey`; otherwise the request carries the deployment's ID and the list of `Reconcile`, or the command panics at the first line that is neither a comment nor blank and has no `=` |
| Commands.SelectedShape | cloud/deployment/deployment_variable.go:58-68 | with no filter, the shown records are a prefix of the records in order; with a filter, at most one record, carrying that key |
| Commands.Numbered | cloud/deployment/deployment_variable.go:61-66 | one row per shown record, in order, numbered from 1, with its key, value and secrecy |
| Commands.ListRows | cloud/deployment/deployment_variable.go:58-73 | "No variables found" exactly when the selection is empty; otherwise the selected records numbered from 1 |
| Commands.VariableList | cloud/deployment/deployment_variable.go:16-73 | an unknown deployment gives `errInvalidDeploymentKey`; otherwise the export text when asked for, and the selected rows |
| Commands.EmptyKeyEndsListing | cloud/deployment/deployment_variable.go:60-66 | with no filter, the listing ends at the first record with an empty key |
| Commands.ListAllWithoutFilter | cloud/deployment/deployment_variable.go:64-66 | with no filter and no empty key, every record is listed in order |
| Commands.ListOneWithFilter | cloud/deployment/deployment_variable.go:60-63 | with a filter, at most one row is listed: the first record with that key, and none exactly when no record has it |
| Commands.Matching | cloud/deployment/deployment_variable.go:212-226 | the exported records: all of them with no filter, otherwise every record with that key and nothing else |
| Commands.MatchingMembers | cloud/deployment/deployment_variable.go:213-225 | a record is exported exactly when it is one of the records and has the filter key, or the filter is empty |
| Commands.MatchingOne | cloud/deployment/deployment_variable.go:213-225 | a single record is exported exactly when it has the filter key or the filter is empty |
| Commands.MatchingAppend | cloud/deployment/deployment_variable.go:212-226 | the export of a concatenation is the concatenation of the exports, so matches come out in order and as often as they occur |
| Commands.ExportLine | cloud/deployment/deployment_variable.go:214 | an exported line holds `=` and is as long as key, `=` and value together |
| Commands.ExportTextSnoc | cloud/deployment/deployment_variable.go:212-226 | exporting one more record appends a newline and that record's `key=value` line |
| Commands.WriteVarToFile | cloud/deployment/deployment_variable.go:212-226 | the loop appends exactly `ExportText` of the matching records: a newline and `key=value` for each, in order |
| Commands.ExportTextJoin | cloud/deployment/deployment_variable.go:214 | the export text is the exported lines joined by newlines, after an empty first line |
| Commands.ExportedLinesRoundTrip | cloud/deployment/deployment_variable.go:212-226 | when no key or value holds a newline, splitting the export text into lines gives an empty line and then one line per exported record |
| Commands.ExportLineKey | cloud/deployment/deployment_variable.go:214 | the importer never panics on an exported line and reads the key back whenever the key holds no `=`, even if the value does |
| Commands.ExportLineReadsBack | cloud/deployment/deployment_variable.go:214 | the importer reads an exported line back as the record's key and value when neither contains `=` |
| Scenarios.InlineExistingKeyCreateOnly | cloud/deployment/deployment_variable.go:236-237 | an existing inline key without the update flag: list unchanged, one skip reported |
| Scenarios.InlineExistingKeyUpdate | cloud/deployment/deployment_variable.go:238-249 | with the update flag the inline value replaces the old one |
| Scenarios.UpdateKeepsSecret | cloud/deployment/deployment_variable.go:240-243 | an update without the secret flag keeps a secret secret |
| Scenarios.FileFirstLineWins | cloud/deployment/deployment_variable.go:287-292 | for a file `A=1`, `B=2`, `A=3`, `A` and `B` are appended and the third line is reported as a duplicate |
| Scenarios.ThreeLines | cloud/deployment/deployment_variable.go:270-323 | the file pass over `A=1`, `B=2`, `A=3` appends `A` and `B` and reports the third line as a duplicate |
| Scenarios.FirstTwoLines | cloud/deployment/deployment_variable.go:315-322 | two new keys are appended in file order |
| Scenarios.FileEmptyKeyRejected | cloud/deployment/deployment_variable.go:279-282 | a line `=value` is reported and changes nothing |
| Scenarios.InlineThenOtherFileKeyDistinct | cloud/deployment/deployment_variable.go:293-322 | an inline-appended key followed by a file line with another key yields a request without duplicate keys |
| Scenarios.InlineThenFileDuplicatesKey | cloud/deployment/deployment_variable.go:293-322 | an inline-appended key followed by a file line with the same key yields two records with that key |
| Scenarios.FileOverridesInlineUpdate | cloud/deployment/deployment_variable.go:294-313 | a file line overwrites the inline update of the same existing key |
| Scenarios.ValueEndsAtSecondEquals | cloud/deployment/deployment_variable.go:277-278 | `A=b=c` reads as key `A` and value `b` |
| Scenarios.LineWithoutEqualsPanics | cloud/deployment/deployment_variable.go:270-278 | comment and blank lines are passed over, and the line `abc` panics at its own index |
| Scenarios.ExportWritesSecretValue | cloud/deployment/deployment_variable.go:212-227 | a secret variable is exported with its value |
| Scenarios.ListStopsAtFirstMatch | cloud/deployment/deployment_variable.go:58-68 | with a filter the listing shows only the first of two records with that key |
| Scenarios.ExportWritesEveryMatch | cloud/deployment/deployment_variable.go:212-226 | the export writes both records with the filter key, in order, although the listing stops at the first |

## Left out

- `getDeployments` and `selectDeployment`: the remote fetch and the interactive prompt. The model takes the fetched deployments and a deployment ID as parameters.
- `client.ModifyDeploymentVariable` and the table of its answer (lines 155-176): the model ends at the update request `VariableModify` would send.
- `readLines` and the opening, appending and closing of files: the importer takes the lines already read (`None` when no file was asked for). A file that cannot be read contributes the lines read before the error. The exporter returns the text it would append.
- Printed messages: the model records a notice per candidate instead of the message text. A write error inside the export loop is not modelled.
- The `updatedAt` timestamp of stored records is carried but never read, as in the code.
- Go's panic message and stack trace: a panic is modelled only by the line index where it happens.
- Go slice aliasing: `newEnvironmentVariables[num] = …` writes into the caller's backing array. Every caller replaces its list with the returned one, so the model treats the list as a value.
