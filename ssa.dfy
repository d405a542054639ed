/**
 * Kubernetes objects, server-side-apply actions and the observable effects
 * of a timoni command run. Both the dry-run diff and the delete command are
 * modelled as producing a trace of `Effect`s; the projections below pick out
 * the parts of a trace that the properties speak about.
 */
module Ssa {

  datatype Option<+T> = None | Some(value: T)

  datatype Result<+T> = Ok(value: T) | Err(error: string)

  /** The actions an ssa change set entry can carry. */
  datatype Action = Created | Configured | Unchanged | Deleted | Skipped

  /** An unstructured object: its identity and the metadata the core reads. */
  datatype Object = Object(
    kind: string,
    namespace: string,
    name: string,
    labels: map<string, string>,
    annotations: map<string, string>)

  /** The suffix logger.ColorizeJoin appends to a line; none in a real run. */
  datatype DryRunMode = NoDryRun | DryRunClient | DryRunServer

  datatype LogLine =
    | ChangeLine(obj: Object, action: Action, mode: DryRunMode)  // "<object> <action> [(dry run)]"
    | ImmutableLine(obj: Object)                                // error-level "<object> immutable"
    | ObjectErrorLine(obj: Object, err: string)                 // error-level, the object and the diff error
    | DeletingLine(count: nat)                                  // "deleting <n> resource(s)..."
    | DeletionFailedLine(err: string)                           // error-level "deletion failed"
    | AllDeletedLine                                            // "all resources have been deleted"

  /** One observable step of a run, in the order it happens. */
  datatype Effect =
    | Log(line: LogLine)
    | WriteDetail(text: string)                                   // rendered diff written to the output
    | DiffCall(obj: Object)                                       // server-side dry-run merge of one object
    | InstanceRecordGet(instance: string, namespace: string)      // instance storage lookup
    | DeleteCall(obj: Object, instance: string, namespace: string) // delete of one object, owned by the instance
    | InstanceRecordDelete(instance: string, namespace: string)   // deletion of the instance record
    | Wait(objs: seq<Object>)                                     // wait for termination of these objects

  /** The effects that change the cluster. */
  predicate Mutating(e: Effect) {
    e.DeleteCall? || e.InstanceRecordDelete?
  }

  /** The `Some` values `pick` finds in `t`, in trace order. */
  function Project<U>(t: seq<Effect>, pick: Effect -> Option<U>): seq<U>
  {
    if t == [] then [] else Picked(t[0], pick) + Project(t[1..], pick)
  }

  function Picked<U>(e: Effect, pick: Effect -> Option<U>): seq<U> {
    match pick(e) case Some(u) => [u] case None => []
  }

  function PickLog(e: Effect): Option<LogLine> {
    if e.Log? then Some(e.line) else None
  }

  function PickDiffCall(e: Effect): Option<Object> {
    if e.DiffCall? then Some(e.obj) else None
  }

  function PickDeleteCall(e: Effect): Option<Object> {
    if e.DeleteCall? then Some(e.obj) else None
  }

  /** The log lines of a trace, in order. */
  function LogLines(t: seq<Effect>): seq<LogLine> {
    Project(t, PickLog)
  }

  /** The objects a trace diffs, in order. */
  function DiffCalls(t: seq<Effect>): seq<Object> {
    Project(t, PickDiffCall)
  }

  /** The objects a trace deletes, in order. */
  function DeleteCalls(t: seq<Effect>): seq<Object> {
    Project(t, PickDeleteCall)
  }

  /** One change line per object, with the same action and mode. */
  function ChangeLines(objs: seq<Object>, action: Action, mode: DryRunMode): seq<LogLine> {
    seq(|objs|, k requires 0 <= k < |objs| => ChangeLine(objs[k], action, mode))
  }

  /** The effects of logging `lines` one after the other. */
  function Logs(lines: seq<LogLine>): seq<Effect> {
    seq(|lines|, k requires 0 <= k < |lines| => Log(lines[k]))
  }

  lemma {:induction false} ProjectAppend<U>(a: seq<Effect>, b: seq<Effect>, pick: Effect -> Option<U>)
    ensures Project(a + b, pick) == Project(a, pick) + Project(b, pick)
  {
    if a == [] {
      assert a + b == b;
    } else {
      assert (a + b)[0] == a[0];
      assert (a + b)[1..] == a[1..] + b;
      ProjectAppend(a[1..], b, pick);
    }
  }

  /** The projection of a trace of at most three effects, spelled out. */
  lemma ProjectShort<U>(t: seq<Effect>, pick: Effect -> Option<U>)
    requires |t| <= 3
    ensures Project(t, pick) ==
      if |t| == 0 then []
      else if |t| == 1 then Picked(t[0], pick)
      else if |t| == 2 then Picked(t[0], pick) + Picked(t[1], pick)
      else Picked(t[0], pick) + Picked(t[1], pick) + Picked(t[2], pick)
  {
    if |t| > 0 {
      assert |t[1..]| > 0 ==> t[1..][0] == t[1] && t[1..][1..] == t[2..];
      assert |t| == 3 ==> t[2..][0] == t[2] && t[2..][1..] == [];
      assert |t| == 2 ==> t[2..] == [];
      assert |t| == 1 ==> t[1..] == [];
    }
  }

  /** Logging lines produces exactly those lines and calls nothing. */
  lemma {:induction false} LogsProjection(lines: seq<LogLine>)
    ensures LogLines(Logs(lines)) == lines
    ensures DiffCalls(Logs(lines)) == []
    ensures DeleteCalls(Logs(lines)) == []
  {
    if lines != [] {
      assert Logs(lines)[1..] == Logs(lines[1..]);
      LogsProjection(lines[1..]);
    }
  }
}
