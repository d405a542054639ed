# timoni: dry-run diff and instance deletion

This project models two operations of timoni, the Kubernetes package manager
built on CUE, and proves properties of those models in Dafny.

- **InstanceDryRunDiff** (`internal/dyff/dyff.go`). It previews what applying
  an instance would do. The desired objects are sorted in place into their
  canonical server-side-apply order. Then each object is reported with exactly
  one log line:
  - `created` when the target namespace does not exist yet;
  - otherwise, whatever the server-side dry-run diff says;
  - for an immutable-field error, `created` if the object carries the force
    marker `action.timoni.sh/force: enabled`, and an `immutable` error otherwise;
  - for any other diff error, an error line.

  A Configured object can also get a rendered detail diff. A failure while
  rendering it aborts the whole operation. Stale objects are finally reported
  as deleted.
- **runDeleteCmd** (`cmd/timoni/delete.go`). This is `timoni delete`. It fails
  first if no name was given. It then reads the instance record and lists the
  instance's objects, and puts them in the reverse of the canonical order.
  - A dry run only reports each object as deleted.
  - A real run attempts every delete. A failed delete is logged and
    remembered, and the process then exits with status 1 without touching the
    instance record.
  - Otherwise the record is deleted. When waiting is enabled and at least one
    object really was Deleted, the command waits for those objects to
    terminate.

Both operations are imperative methods over an `array` of objects. Each one
returns the trace of observable effects it produced: log lines, diff calls,
delete calls, record access, waits and written detail diffs. Each method is
proved equal to a specification function, and the lemmas state what the
source promises about that function.

The cluster, storage and rendering are parameters of the model rather than
calls:
- `Dyff.Context.diff` is the outcome of `rm.Diff` for each object.
- `Dyff.Context.render` is writing the two YAML snapshots and comparing them.
- `DeleteCmd.Cluster` holds every result the delete command receives from the
  resource manager, the instance storage, `sm.Delete` and
  `sm.WaitForTermination`.
- The canonical order (`ssa.SortableUnstructureds`) is given by the caller as
  a permutation `canonical` of the input.

Files:
- `ssa.dfy`: objects, actions, log lines, effects and the trace projections.
- `dyff.dfy`: the dry-run diff.
- `delete.dfy`: the delete command.

## Model

| member | source | states |
|---|---|---|
| Dyff.CanonicalSort | internal/dyff/dyff.go:100 | the array is rearranged in place into the canonical order, a permutation of its previous contents |
| Dyff.DiffObject | internal/dyff/dyff.go:102-142 | one loop iteration emits exactly the reference step: the optional diff call, the object's classification line, then the detail diff or the render error |
| Dyff.ReportStale | internal/dyff/dyff.go:145-147 | every stale object is logged as Deleted (server dry run), in order, and nothing else happens |
| Dyff.InstanceDryRunDiff | internal/dyff/dyff.go:90-150 | the objects end sorted canonically, and the returned error and trace are those of the reference run over that order: desired pass, stopping at the first error, then the stale report |
| Dyff.DesiredPassSnoc | internal/dyff/dyff.go:102-143 | processing one more object appends exactly that object's step to the pass |
| Dyff.AbortIsFinal | internal/dyff/dyff.go:129-141 | once a step returns an error, objects after it change neither the trace nor the error |
| Dyff.StepFacts | internal/dyff/dyff.go:108-141 | a step returns an error exactly when detail rendering was requested for a Configured object and failed, and that error is the render error; a step only diffs, logs and writes detail text, and a detail diff only follows a Configured line |
| Dyff.StepLines | internal/dyff/dyff.go:103-125 | each desired object gets exactly one log line, its reference classification (Created, immutable, error or the diff's action) |
| Dyff.StepDiffCalls | internal/dyff/dyff.go:103-108 | the server-side diff is called for the object exactly when the namespace exists |
| Dyff.DesiredPassWithoutNamespace | internal/dyff/dyff.go:103-106 | without the namespace every desired object is logged as Created, with no diff call and no error |
| Dyff.NamespaceMissingReportsCreated | internal/dyff/dyff.go:103-106 | without the namespace the run succeeds, logs Created for every desired object and then the stale report, and never calls the diff |
| Dyff.DesiredPassSucceeds | internal/dyff/dyff.go:126-142 | the desired pass succeeds if and only if no object's detail rendering fails |
| Dyff.DesiredPassReports | internal/dyff/dyff.go:102-143 | a successful pass logs the classifications of all objects in order and, when the namespace exists, diffs each object once, in order |
| Dyff.ReportsEveryObjectOnce | internal/dyff/dyff.go:102-149 | the run succeeds if and only if no rendering fails; it then logs one classification per desired object in canonical order, followed by one Deleted line per stale object, and diffs each object exactly once when the namespace exists |
| Dyff.DesiredPassAbortAt | internal/dyff/dyff.go:129-141 | at the first failing rendering the pass returns that error, having logged exactly the objects up to and including it |
| Dyff.RenderFailureAborts | internal/dyff/dyff.go:126-141 | a failed run returns the error of the first failing rendering, logs the objects up to that one and never reports the stale objects |
| Dyff.DesiredPassNeverMutates | internal/dyff/dyff.go:102-143 | the desired pass only diffs, logs and writes detail text, and each detail diff follows a Configured line |
| Dyff.DryRunDiffIsReadOnly | internal/dyff/dyff.go:90-150 | the dry-run diff only diffs, logs and writes detail text: it never deletes, touches the instance record or waits |
| Dyff.DryRunDiffDetails | internal/dyff/dyff.go:125-142 | a detail diff is written only when detail was requested, right after the line of a Configured object |
| Dyff.DesiredPassRendersConfigured | internal/dyff/dyff.go:126-141 | in a successful pass with detail requested, each Configured object's rendering succeeded and its text was written |
| Dyff.RendersEveryConfiguredObject | internal/dyff/dyff.go:126-141 | in a successful run with detail requested, each Configured object's detail diff is written |
| DeleteCmd.ReverseCanonicalSort | cmd/timoni/delete.go:97 | the array becomes the reverse of the canonical order of its previous contents |
| DeleteCmd.ReportDryRun | cmd/timoni/delete.go:100-102 | one Deleted (client dry run) line per object, in array order, and nothing else |
| DeleteCmd.DeleteAll | cmd/timoni/delete.go:107-119 | the delete loop's error flag, change set and trace are those of the reference batch over the array's order |
| DeleteCmd.Finish | cmd/timoni/delete.go:125-142 | the record deletion, then the optional wait and final line, with the error each step returns, are as in the reference finish |
| DeleteCmd.RunDeleteCmd | cmd/timoni/delete.go:69-143 | a missing name fails immediately with "name is required" and no effect; otherwise exit status and trace equal the reference command |
| DeleteCmd.DeleteBatchSnoc | cmd/timoni/delete.go:109-119 | one more iteration appends that object's delete to the loop's outcome |
| DeleteCmd.BatchAttemptsEveryObject | cmd/timoni/delete.go:109-116 | every object is deleted, in order, whatever earlier deletes returned |
| DeleteCmd.BatchOnlyDeletesAndLogs | cmd/timoni/delete.go:110-118 | the loop only deletes objects on behalf of this instance and namespace, and logs |
| DeleteCmd.BatchHasErrorsIffSomeFailed | cmd/timoni/delete.go:112-115 | hasErrors is set if and only if some delete failed |
| DeleteCmd.BatchChangeSet | cmd/timoni/delete.go:111-117 | the change set holds exactly the successful deletes, each with the action it returned |
| DeleteCmd.BatchChangesInOrder | cmd/timoni/delete.go:109-119 | the change set is exactly the successful deletes, each with its returned action, in processing order, whatever other deletes failed |
| DeleteCmd.SelectObjectsMembers | cmd/timoni/delete.go:129 | the selected objects are exactly those with a change of the given action |
| DeleteCmd.ReversedMembers | cmd/timoni/delete.go:97 | reversing keeps exactly the same objects |
| DeleteCmd.ReversedPermutes | cmd/timoni/delete.go:97 | reversing keeps each object as many times as before |
| DeleteCmd.DryRunMakesNoMutatingCall | cmd/timoni/delete.go:99-104 | a dry run neither deletes, nor deletes the record, nor waits, and never exits with status 1; once listed it succeeds with one Deleted line per object in reverse canonical order |
| DeleteCmd.NameIsRequiredFirst | cmd/timoni/delete.go:70-95 | a missing name fails with "name is required" and no effect; a resource manager failure returns its error with no effect; a failed record lookup, then a failed listing, returns that error; no failure before listing deletes or waits |
| DeleteCmd.FinalizeFacts | cmd/timoni/delete.go:125-140 | the finish starts with the record deletion, is followed only by a wait and a log line, and deletes no object |
| DeleteCmd.RealRunDeleteCalls | cmd/timoni/delete.go:106-140 | a real run deletes exactly the objects in the order given |
| DeleteCmd.DeletesInReverseCanonicalOrder | cmd/timoni/delete.go:97-119 | a real run deletes every object exactly once, in the reverse of canonical order |
| DeleteCmd.DeletesListedObjects | cmd/timoni/delete.go:92-119 | a real run deletes exactly the objects the instance lists, each as often as it is listed |
| DeleteCmd.FailedDeleteKeepsInstanceRecord | cmd/timoni/delete.go:112-127 | a real run exits with status 1 if and only if some delete failed, and then neither deletes the record nor waits |
| DeleteCmd.RecordDeletedOnceAfterAllDeletes | cmd/timoni/delete.go:107-140 | when all deletes succeed the record is deleted exactly once, after every object delete and before any wait; a record deletion error is returned and nothing is waited for |
| DeleteCmd.FinalizeWaits | cmd/timoni/delete.go:125-138 | the finish waits exactly when the record deletion succeeded, waiting is on and some object was Deleted, and then waits for those objects |
| DeleteCmd.DeletedSelection | cmd/timoni/delete.go:111-129 | the objects selected for the wait are exactly those whose delete returned Deleted |
| DeleteCmd.WaitsOnlyForDeletedObjects | cmd/timoni/delete.go:69-140 | the command waits if and only if it is a real run with waiting on, no failed delete, a deleted record and at least one Deleted object, and it waits for exactly those objects |

Proof helpers that carry no source behaviour of their own, used by the
lemmas above: `Ssa.ProjectAppend` and `Ssa.ProjectShort` (trace projections
over concatenation and short traces), `Ssa.LogsProjection` (the lines of a
sequence of log effects), `Dyff.FirstAbortExists` (a first failing object
exists when some object fails), `Dyff.DetailsAppend` (the detail-placement
predicate over concatenation) and `DeleteCmd.RecordDeletedAtBoundary` (the
record-deletion position in a trace of a given shape).

## Left out

- The logger (loggerInstance, ColorizeJoin, ColorizeUnstructured, colours): log lines are the structured `LogLine` values, not formatted text.
- DiffYAML, NewDyffPrinter and the dyff report: comparing the two snapshots is the `render` oracle, whose text is opaque.
- YAML marshalling and the temporary files at internal/dyff/dyff.go:127-137: the two writes and the comparison are one `render` outcome; a run that fails after writing only `live.yaml` is not distinguished.
- rm.Diff and the diff options: the diff result is the `diff` oracle; the error kinds it can return are reduced to immutable versus other.
- ssautil.AnyInMetadata: modelled as an exact match on the label or annotation value; any normalisation it applies to keys or values is not modelled.
- apiv1.ForceAction and apiv1.EnabledValue: api/v1alpha1 is not part of this model; the constants are written out as `action.timoni.sh/force` and `enabled`.
- ssa.SortableUnstructureds: the comparator and its tie order are not modelled; the caller supplies the resulting order as a permutation of the input, and the sort writes it into the array.
- runtime.NewResourceManager, kubeconfig and the timeout context: a manager failure is `managerErr`; deadlines and cancellation are not modelled.
- iStorage.Get, iManager.ListObjects and iStorage.Delete: their results are fields of `Cluster`; what the storage holds is not modelled.
- sm.Delete and runtime.DeleteOptions: a delete's outcome is the `outcome` oracle per object; the delete options appear only as the instance name and namespace carried by each delete call.
- runtime.SelectObjectsFromSet: modelled as the ordered filter of the change set by action.
- sm.WaitForTermination, the wait options and the spinner: the wait is one effect with one result; polling and timeouts are not modelled.
- os.Exit(1): modelled as the `Exit1` result; the process ending is not modelled further.
- The cobra command wiring and flags at cmd/timoni/delete.go:1-67: the flags appear as `DeleteFlags` and the namespace as a parameter.
