/**
 * The `timoni delete` command (runDeleteCmd in cmd/timoni/delete.go).
 *
 * The instance's objects are put in the reverse of canonical order, so that
 * what was applied last is deleted first. A dry run only reports each object
 * as Deleted. A real run attempts every delete, remembering whether any
 * failed and collecting the successful changes; a failure exits with status 1
 * and keeps the instance record. Otherwise the record is deleted and, when
 * waiting is enabled and something was deleted, the command waits for the
 * deleted objects to terminate.
 */
module DeleteCmd {
  import opened Ssa

  /** What sm.Delete returns for one object. */
  datatype DeleteResult = DeleteOk(action: Action) | DeleteFailed(err: string)

  /** An entry of the change set. */
  datatype Change = Change(obj: Object, action: Action)

  /** The effect of the command on the process that runs it. */
  datatype Exit = Success | ReturnErr(err: string) | Exit1

  datatype Command = Command(exit: Exit, effects: seq<Effect>)

  datatype DeleteFlags = DeleteFlags(dryRun: bool, wait: bool)

  /** The instance record as storage returns it. */
  datatype Instance = Instance(name: string, namespace: string)

  /** The results of the external collaborators of one run. */
  datatype Cluster = Cluster(
    managerErr: Option<string>,          // runtime.NewResourceManager
    stored: Result<Instance>,             // iStorage.Get
    listed: Result<seq<Object>>,          // iManager.ListObjects
    canonical: seq<Object>,               // the listed objects in canonical order
    outcome: Object -> DeleteResult,      // sm.Delete
    recordDeleteErr: Option<string>,      // iStorage.Delete
    waitErr: Option<string>)              // sm.WaitForTermination

  const NameRequired: string := "name is required"

  /** The environment is coherent: the canonical order permutes the listed objects. */
  predicate ValidCluster(env: Cluster) {
    env.listed.Ok? ==> multiset(env.canonical) == multiset(env.listed.value)
  }

  /** The run gets as far as having the instance's objects. */
  predicate Listed(args: seq<string>, env: Cluster) {
    |args| >= 1 && env.managerErr.None? && env.stored.Ok? && env.listed.Ok?
  }

  function Reversed<T>(s: seq<T>): seq<T> {
    seq(|s|, k requires 0 <= k < |s| => s[|s| - 1 - k])
  }

  /** Every object of the instance deletes successfully. */
  predicate AllDeleted(env: Cluster) {
    forall o :: o in env.canonical ==> env.outcome(o).DeleteOk?
  }

  // ---------------------------------------------------------------------
  // The delete loop

  datatype Batch = Batch(hasErrors: bool, changes: seq<Change>, effects: seq<Effect>)

  /** One iteration of the delete loop. */
  function DeleteOne(o: Object, name: string, namespace: string, outcome: Object -> DeleteResult): Batch {
    match outcome(o)
    case DeleteFailed(e) =>
      Batch(true, [], [DeleteCall(o, name, namespace), Log(DeletionFailedLine(e))])
    case DeleteOk(a) =>
      Batch(false, [Change(o, a)], [DeleteCall(o, name, namespace), Log(ChangeLine(o, a, NoDryRun))])
  }

  /** `b` runs after `a`. */
  function Then(a: Batch, b: Batch): Batch {
    Batch(a.hasErrors || b.hasErrors, a.changes + b.changes, a.effects + b.effects)
  }

  /** The whole delete loop over `objs`, in order. */
  function DeleteBatch(objs: seq<Object>, name: string, namespace: string, outcome: Object -> DeleteResult): Batch {
    if objs == [] then Batch(false, [], [])
    else Then(DeleteOne(objs[0], name, namespace, outcome), DeleteBatch(objs[1..], name, namespace, outcome))
  }

  /** runtime.SelectObjectsFromSet: the objects of the changes with `action`, in order. */
  function SelectObjects(cs: seq<Change>, action: Action): seq<Object> {
    if cs == [] then []
    else (if cs[0].action == action then [cs[0].obj] else []) + SelectObjects(cs[1..], action)
  }

  // ---------------------------------------------------------------------
  // The command

  /**
   * What follows a delete loop in which nothing failed: the deletion of the
   * instance record, then the optional wait for the Deleted objects.
   */
  function Finalize(changes: seq<Change>, inst: Instance, flags: DeleteFlags, env: Cluster): Command {
    var recorded := [InstanceRecordDelete(inst.name, inst.namespace)];
    if env.recordDeleteErr.Some? then Command(ReturnErr(env.recordDeleteErr.value), recorded)
    else
      var deleted := SelectObjects(changes, Deleted);
      if flags.wait && |deleted| > 0 then
        if env.waitErr.Some? then Command(ReturnErr(env.waitErr.value), recorded + [Wait(deleted)])
        else Command(Success, recorded + [Wait(deleted), Log(AllDeletedLine)])
      else Command(Success, recorded)
  }

  /** The whole command. */
  function RunDelete(args: seq<string>, flags: DeleteFlags, namespace: string, env: Cluster): Command {
    if |args| < 1 then Command(ReturnErr(NameRequired), [])
    else
      var name := args[0];
      if env.managerErr.Some? then Command(ReturnErr(env.managerErr.value), [])
      else
        var fetched := [InstanceRecordGet(name, namespace)];
        if env.stored.Err? then Command(ReturnErr(env.stored.error), fetched)
        else if env.listed.Err? then Command(ReturnErr(env.listed.error), fetched)
        else
          var order := Reversed(env.canonical);
          if flags.dryRun then Command(Success, fetched + Logs(ChangeLines(order, Deleted, DryRunClient)))
          else RealRun(name, namespace, order, flags, env)
  }

  /** A real run once the objects are in deletion order. */
  function RealRun(name: string, namespace: string, order: seq<Object>, flags: DeleteFlags, env: Cluster): Command
    requires env.stored.Ok?
  {
    var batch := DeleteBatch(order, name, namespace, env.outcome);
    var attempted := [InstanceRecordGet(name, namespace), Log(DeletingLine(|order|))] + batch.effects;
    if batch.hasErrors then Command(Exit1, attempted)
    else
      var finish := Finalize(batch.changes, env.stored.value, flags, env);
      Command(finish.exit, attempted + finish.effects)
  }

  /** Sorts the objects in place into the reverse of their canonical order, given as `canonical`. */
  method ReverseCanonicalSort(objects: array<Object>, canonical: seq<Object>)
    requires multiset(canonical) == multiset(objects[..])
    modifies objects
    ensures objects[..] == Reversed(canonical)
  {
    assert |canonical| == |multiset(canonical)| == |multiset(objects[..])| == objects.Length;
    forall k | 0 <= k < objects.Length {
      objects[k] := canonical[objects.Length - 1 - k];
    }
  }

  /** The dry-run branch: one Deleted line per object, in array order. */
  method ReportDryRun(objects: array<Object>) returns (trace: seq<Effect>)
    ensures trace == Logs(ChangeLines(objects[..], Deleted, DryRunClient))
  {
    trace := [];
    for k := 0 to objects.Length
      invariant trace == Logs(ChangeLines(objects[..k], Deleted, DryRunClient))
    {
      assert Logs(ChangeLines(objects[..k + 1], Deleted, DryRunClient))
          == Logs(ChangeLines(objects[..k], Deleted, DryRunClient)) + [Log(ChangeLine(objects[k], Deleted, DryRunClient))];
      trace := trace + [Log(ChangeLine(objects[k], Deleted, DryRunClient))];
    }
    assert objects[..objects.Length] == objects[..];
  }

  /**
   * The delete loop: every object is attempted, a failure sets `hasErrors`
   * and is not added to the change set `cs`.
   */
  method DeleteAll(objects: array<Object>, name: string, namespace: string, outcome: Object -> DeleteResult)
    returns (hasErrors: bool, cs: seq<Change>, trace: seq<Effect>)
    ensures Batch(hasErrors, cs, trace) == DeleteBatch(objects[..], name, namespace, outcome)
  {
    hasErrors, cs, trace := false, [], [];
    for k := 0 to objects.Length
      invariant DeleteBatch(objects[..k], name, namespace, outcome) == Batch(hasErrors, cs, trace)
    {
      var obj := objects[k];
      assert objects[..k + 1] == objects[..k] + [obj];
      DeleteBatchSnoc(objects[..k], obj, name, namespace, outcome);
      trace := trace + [DeleteCall(obj, name, namespace)];
      var change := outcome(obj);
      if change.DeleteFailed? {
        trace := trace + [Log(DeletionFailedLine(change.err))];
        hasErrors := true;
        continue;
      }
      cs := cs + [Change(obj, change.action)];
      trace := trace + [Log(ChangeLine(obj, change.action, NoDryRun))];
    }
    assert objects[..objects.Length] == objects[..];
  }

  method RunDeleteCmd(args: seq<string>, flags: DeleteFlags, namespace: string, env: Cluster)
    returns (exit: Exit, trace: seq<Effect>)
    requires ValidCluster(env)
    ensures |args| < 1 ==> exit == ReturnErr(NameRequired) && trace == []
    ensures Command(exit, trace) == RunDelete(args, flags, namespace, env)
  {
    if |args| < 1 {
      return ReturnErr(NameRequired), [];
    }
    var name := args[0];
    if env.managerErr.Some? {
      return ReturnErr(env.managerErr.value), [];
    }
    trace := [InstanceRecordGet(name, namespace)];
    if env.stored.Err? {
      return ReturnErr(env.stored.error), trace;
    }
    var inst := env.stored.value;
    if env.listed.Err? {
      return ReturnErr(env.listed.error), trace;
    }
    var listed := env.listed.value;
    var objects := new Object[|listed|](k requires 0 <= k < |listed| => listed[k]);
    assert objects[..] == listed;
    ReverseCanonicalSort(objects, env.canonical);
    assert objects[..] == Reversed(env.canonical);

    if flags.dryRun {
      var report := ReportDryRun(objects);
      return Success, trace + report;
    }

    trace := trace + [Log(DeletingLine(objects.Length))];
    var hasErrors, cs, effects := DeleteAll(objects, name, namespace, env.outcome);
    trace := trace + effects;
    if hasErrors {
      return Exit1, trace;
    }
    var finish;
    exit, finish := Finish(cs, inst, flags, env);
    trace := trace + finish;
  }

  /** What follows a delete loop in which nothing failed. */
  method Finish(cs: seq<Change>, inst: Instance, flags: DeleteFlags, env: Cluster)
    returns (exit: Exit, trace: seq<Effect>)
    ensures Command(exit, trace) == Finalize(cs, inst, flags, env)
  {
    trace := [InstanceRecordDelete(inst.name, inst.namespace)];
    if env.recordDeleteErr.Some? {
      return ReturnErr(env.recordDeleteErr.value), trace;
    }
    var deletedObjects := SelectObjects(cs, Deleted);
    if flags.wait && |deletedObjects| > 0 {
      trace := trace + [Wait(deletedObjects)];
      if env.waitErr.Some? {
        return ReturnErr(env.waitErr.value), trace;
      }
      trace := trace + [Log(AllDeletedLine)];
    }
    return Success, trace;
  }

  // ---------------------------------------------------------------------
  // Properties of the delete loop

  /** One more iteration appends that object's delete to the loop's outcome. */
  lemma {:induction false} DeleteBatchSnoc(objs: seq<Object>, o: Object, name: string, namespace: string,
                                           outcome: Object -> DeleteResult)
    ensures DeleteBatch(objs + [o], name, namespace, outcome)
         == Then(DeleteBatch(objs, name, namespace, outcome), DeleteOne(o, name, namespace, outcome))
  {
    if objs == [] {
      assert objs + [o] == [o];
      assert [o][1..] == [];
    } else {
      assert (objs + [o])[0] == objs[0];
      assert (objs + [o])[1..] == objs[1..] + [o];
      DeleteBatchSnoc(objs[1..], o, name, namespace, outcome);
    }
  }

  /** Every object is attempted, in order, whatever earlier deletes returned. */
  lemma {:induction false} BatchAttemptsEveryObject(objs: seq<Object>, name: string, namespace: string,
                                                    outcome: Object -> DeleteResult)
    ensures DeleteCalls(DeleteBatch(objs, name, namespace, outcome).effects) == objs
  {
    if objs != [] {
      var first := DeleteOne(objs[0], name, namespace, outcome);
      var rest := DeleteBatch(objs[1..], name, namespace, outcome);
      BatchAttemptsEveryObject(objs[1..], name, namespace, outcome);
      assert DeleteCalls(first.effects) == [objs[0]] by {
        ProjectShort(first.effects, PickDeleteCall);
      }
      ProjectAppend(first.effects, rest.effects, PickDeleteCall);
      assert objs == [objs[0]] + objs[1..];
    }
  }

  /** The delete loop does nothing but delete objects on behalf of the instance and log. */
  lemma {:induction false} BatchOnlyDeletesAndLogs(objs: seq<Object>, name: string, namespace: string,
                                                   outcome: Object -> DeleteResult)
    ensures forall e :: e in DeleteBatch(objs, name, namespace, outcome).effects ==>
      (e.DeleteCall? && e.instance == name && e.namespace == namespace) || e.Log?
  {
    if objs != [] {
      BatchOnlyDeletesAndLogs(objs[1..], name, namespace, outcome);
    }
  }

  /** hasErrors is set exactly when some delete failed. */
  lemma {:induction false} BatchHasErrorsIffSomeFailed(objs: seq<Object>, name: string, namespace: string,
                                                       outcome: Object -> DeleteResult)
    ensures DeleteBatch(objs, name, namespace, outcome).hasErrors
        <==> exists o :: o in objs && outcome(o).DeleteFailed?
  {
    if objs != [] {
      BatchHasErrorsIffSomeFailed(objs[1..], name, namespace, outcome);
      assert forall o :: o in objs <==> o == objs[0] || o in objs[1..];
    }
  }

  /** The change set holds the successful deletes with the action each returned, and no failed one. */
  lemma {:induction false} BatchChangeSet(objs: seq<Object>, name: string, namespace: string,
                                          outcome: Object -> DeleteResult)
    ensures forall c :: c in DeleteBatch(objs, name, namespace, outcome).changes ==>
      c.obj in objs && outcome(c.obj) == DeleteOk(c.action)
    ensures forall o :: o in objs && outcome(o).DeleteOk? ==>
      Change(o, outcome(o).action) in DeleteBatch(objs, name, namespace, outcome).changes
  {
    if objs != [] {
      BatchChangeSet(objs[1..], name, namespace, outcome);
      assert forall o :: o in objs <==> o == objs[0] || o in objs[1..];
    }
  }

  /** The objects whose delete succeeded, with the action each returned, in order. */
  function Successes(objs: seq<Object>, outcome: Object -> DeleteResult): seq<Change> {
    if objs == [] then []
    else (if outcome(objs[0]).DeleteOk? then [Change(objs[0], outcome(objs[0]).action)] else [])
         + Successes(objs[1..], outcome)
  }

  /** The change set is exactly the successful deletes, in processing order, whatever else failed. */
  lemma {:induction false} BatchChangesInOrder(objs: seq<Object>, name: string, namespace: string,
                                               outcome: Object -> DeleteResult)
    ensures DeleteBatch(objs, name, namespace, outcome).changes == Successes(objs, outcome)
  {
    if objs != [] {
      BatchChangesInOrder(objs[1..], name, namespace, outcome);
    }
  }

  lemma {:induction false} SelectObjectsMembers(cs: seq<Change>, action: Action)
    ensures forall o :: o in SelectObjects(cs, action) <==> Change(o, action) in cs
  {
    if cs != [] {
      SelectObjectsMembers(cs[1..], action);
      assert forall c :: c in cs <==> c == cs[0] || c in cs[1..];
    }
  }

  lemma ReversedMembers<T>(s: seq<T>)
    ensures forall x :: x in Reversed(s) <==> x in s
  {
    forall x | x in s ensures x in Reversed(s) {
      var k :| 0 <= k < |s| && s[k] == x;
      assert Reversed(s)[|s| - 1 - k] == x;
    }
  }

  // ---------------------------------------------------------------------
  // Properties of the command

  /**
   * A dry run makes no delete call, deletes no instance record and does not
   * wait; once the objects are listed it succeeds after one Deleted line per
   * object, in the reverse of canonical order.
   */
  lemma DryRunMakesNoMutatingCall(args: seq<string>, flags: DeleteFlags, namespace: string, env: Cluster)
    requires flags.dryRun
    ensures forall e :: e in RunDelete(args, flags, namespace, env).effects ==> !Mutating(e) && !e.Wait?
    ensures RunDelete(args, flags, namespace, env).exit != Exit1
    ensures Listed(args, env) ==>
      RunDelete(args, flags, namespace, env).exit == Success
      && LogLines(RunDelete(args, flags, namespace, env).effects)
         == ChangeLines(Reversed(env.canonical), Deleted, DryRunClient)
  {
    if Listed(args, env) {
      var fetched := [InstanceRecordGet(args[0], namespace)];
      var lines := ChangeLines(Reversed(env.canonical), Deleted, DryRunClient);
      LogsProjection(lines);
      ProjectShort(fetched, PickLog);
      ProjectAppend(fetched, Logs(lines), PickLog);
    }
  }

  /**
   * A missing name fails before any storage access, delete or wait; each
   * later failure before the objects are listed returns its own error,
   * after at most the lookup of the instance record.
   */
  lemma NameIsRequiredFirst(args: seq<string>, flags: DeleteFlags, namespace: string, env: Cluster)
    ensures |args| == 0 ==> RunDelete(args, flags, namespace, env) == Command(ReturnErr(NameRequired), [])
    ensures |args| >= 1 && env.managerErr.Some? ==>
      RunDelete(args, flags, namespace, env) == Command(ReturnErr(env.managerErr.value), [])
    ensures |args| >= 1 && env.managerErr.None? && env.stored.Err? ==>
      RunDelete(args, flags, namespace, env).exit == ReturnErr(env.stored.error)
    ensures |args| >= 1 && env.managerErr.None? && env.stored.Ok? && env.listed.Err? ==>
      RunDelete(args, flags, namespace, env).exit == ReturnErr(env.listed.error)
    ensures !Listed(args, env) ==>
      RunDelete(args, flags, namespace, env).exit.ReturnErr?
      && forall e :: e in RunDelete(args, flags, namespace, env).effects ==> e.InstanceRecordGet?
  {
  }

  /** The record deletion comes first in the finish, only waits and logs follow, and no object is deleted. */
  lemma FinalizeFacts(changes: seq<Change>, inst: Instance, flags: DeleteFlags, env: Cluster)
    ensures Finalize(changes, inst, flags, env).effects != []
    ensures Finalize(changes, inst, flags, env).effects[0] == InstanceRecordDelete(inst.name, inst.namespace)
    ensures forall q :: 1 <= q < |Finalize(changes, inst, flags, env).effects| ==>
      Finalize(changes, inst, flags, env).effects[q].Wait? || Finalize(changes, inst, flags, env).effects[q].Log?
    ensures DeleteCalls(Finalize(changes, inst, flags, env).effects) == []
  {
    ProjectShort(Finalize(changes, inst, flags, env).effects, PickDeleteCall);
  }

  /** The deletes of a real run are those of the delete loop, in order. */
  lemma RealRunDeleteCalls(name: string, namespace: string, order: seq<Object>, flags: DeleteFlags, env: Cluster)
    requires env.stored.Ok?
    ensures DeleteCalls(RealRun(name, namespace, order, flags, env).effects) == order
  {
    var batch := DeleteBatch(order, name, namespace, env.outcome);
    var head := [InstanceRecordGet(name, namespace), Log(DeletingLine(|order|))];
    BatchAttemptsEveryObject(order, name, namespace, env.outcome);
    ProjectShort(head, PickDeleteCall);
    ProjectAppend(head, batch.effects, PickDeleteCall);
    if !batch.hasErrors {
      var finish := Finalize(batch.changes, env.stored.value, flags, env);
      FinalizeFacts(batch.changes, env.stored.value, flags, env);
      ProjectAppend(head + batch.effects, finish.effects, PickDeleteCall);
    }
  }

  /** A real run issues the deletes in exactly the reverse of canonical order, whatever they return. */
  lemma DeletesInReverseCanonicalOrder(args: seq<string>, flags: DeleteFlags, namespace: string, env: Cluster)
    requires Listed(args, env) && !flags.dryRun
    ensures DeleteCalls(RunDelete(args, flags, namespace, env).effects) == Reversed(env.canonical)
    ensures forall k :: 0 <= k < |env.canonical| ==>
      DeleteCalls(RunDelete(args, flags, namespace, env).effects)[k] == env.canonical[|env.canonical| - 1 - k]
  {
    RealRunDeleteCalls(args[0], namespace, Reversed(env.canonical), flags, env);
  }

  lemma {:induction false} ReversedPermutes<T>(s: seq<T>)
    ensures multiset(Reversed(s)) == multiset(s)
  {
    if s != [] {
      var init := s[..|s| - 1];
      ReversedPermutes(init);
      assert Reversed(s) == [s[|s| - 1]] + Reversed(init);
      assert s == init + [s[|s| - 1]];
    }
  }

  /** A real run deletes each listed object exactly as many times as it was listed. */
  lemma DeletesListedObjects(args: seq<string>, flags: DeleteFlags, namespace: string, env: Cluster)
    requires ValidCluster(env) && Listed(args, env) && !flags.dryRun
    ensures multiset(DeleteCalls(RunDelete(args, flags, namespace, env).effects)) == multiset(env.listed.value)
  {
    DeletesInReverseCanonicalOrder(args, flags, namespace, env);
    ReversedPermutes(env.canonical);
  }

  /**
   * A real run exits with status 1 exactly when some delete failed, and
   * then neither deletes the instance record nor waits.
   */
  lemma FailedDeleteKeepsInstanceRecord(args: seq<string>, flags: DeleteFlags, namespace: string, env: Cluster)
    requires Listed(args, env) && !flags.dryRun
    ensures RunDelete(args, flags, namespace, env).exit == Exit1
        <==> exists o :: o in env.canonical && env.outcome(o).DeleteFailed?
    ensures RunDelete(args, flags, namespace, env).exit == Exit1 ==>
      forall e :: e in RunDelete(args, flags, namespace, env).effects ==> !e.InstanceRecordDelete? && !e.Wait?
  {
    var order := Reversed(env.canonical);
    ReversedMembers(env.canonical);
    BatchHasErrorsIffSomeFailed(order, args[0], namespace, env.outcome);
    BatchOnlyDeletesAndLogs(order, args[0], namespace, env.outcome);
  }

  /** The only deletion of the instance record is at `p`; object deletes precede it and waits follow it. */
  predicate RecordDeletedOnlyAt(t: seq<Effect>, p: int) {
    && (forall q :: 0 <= q < |t| && t[q].InstanceRecordDelete? ==> q == p)
    && (forall q :: 0 <= q < |t| && t[q].DeleteCall? ==> q < p)
    && (forall q :: 0 <= q < |t| && t[q].Wait? ==> p < q)
  }

  lemma RecordDeletedAtBoundary(attempted: seq<Effect>, finish: seq<Effect>)
    requires forall e :: e in attempted ==> !e.InstanceRecordDelete? && !e.Wait?
    requires finish != [] && finish[0].InstanceRecordDelete?
    requires forall q :: 1 <= q < |finish| ==> finish[q].Wait? || finish[q].Log?
    ensures RecordDeletedOnlyAt(attempted + finish, |attempted|)
  {
    var t := attempted + finish;
    forall q | 0 <= q < |t|
      ensures q < |attempted| ==> !t[q].InstanceRecordDelete? && !t[q].Wait?
      ensures q > |attempted| ==> t[q].Wait? || t[q].Log?
    {
      if q < |attempted| {
        assert t[q] == attempted[q] && attempted[q] in attempted;
      } else {
        assert t[q] == finish[q - |attempted|];
      }
    }
  }

  /**
   * When every delete succeeds, the instance record is deleted exactly once,
   * after every object delete and before any wait; if that deletion fails
   * its error is returned and nothing is waited for.
   */
  lemma RecordDeletedOnceAfterAllDeletes(args: seq<string>, flags: DeleteFlags, namespace: string, env: Cluster)
    requires Listed(args, env) && !flags.dryRun && AllDeleted(env)
    ensures exists p :: (0 <= p < |RunDelete(args, flags, namespace, env).effects|
      && RunDelete(args, flags, namespace, env).effects[p]
         == InstanceRecordDelete(env.stored.value.name, env.stored.value.namespace)
      && RecordDeletedOnlyAt(RunDelete(args, flags, namespace, env).effects, p))
    ensures env.recordDeleteErr.Some? ==>
      RunDelete(args, flags, namespace, env).exit == ReturnErr(env.recordDeleteErr.value)
      && forall e :: e in RunDelete(args, flags, namespace, env).effects ==> !e.Wait?
  {
    var name := args[0];
    var order := Reversed(env.canonical);
    var batch := DeleteBatch(order, name, namespace, env.outcome);
    ReversedMembers(env.canonical);
    BatchHasErrorsIffSomeFailed(order, name, namespace, env.outcome);
    BatchOnlyDeletesAndLogs(order, name, namespace, env.outcome);
    var attempted := [InstanceRecordGet(name, namespace), Log(DeletingLine(|order|))] + batch.effects;
    var finish := Finalize(batch.changes, env.stored.value, flags, env);
    FinalizeFacts(batch.changes, env.stored.value, flags, env);
    assert RunDelete(args, flags, namespace, env) == Command(finish.exit, attempted + finish.effects);
    RecordDeletedAtBoundary(attempted, finish.effects);
    assert (attempted + finish.effects)[|attempted|] == finish.effects[0];
  }

  /** The finish waits exactly when the record deletion succeeded, waiting is on and something was Deleted. */
  lemma FinalizeWaits(changes: seq<Change>, inst: Instance, flags: DeleteFlags, env: Cluster)
    ensures (exists e :: e in Finalize(changes, inst, flags, env).effects && e.Wait?)
        <==> env.recordDeleteErr.None? && flags.wait && |SelectObjects(changes, Deleted)| > 0
    ensures forall e :: e in Finalize(changes, inst, flags, env).effects && e.Wait? ==>
      e.objs == SelectObjects(changes, Deleted)
  {
    var f := Finalize(changes, inst, flags, env);
    if env.recordDeleteErr.None? && flags.wait && |SelectObjects(changes, Deleted)| > 0 {
      assert f.effects[1] in f.effects && f.effects[1].Wait?;
    }
  }

  /** The objects selected for the wait are those whose delete returned Deleted. */
  lemma DeletedSelection(objs: seq<Object>, name: string, namespace: string, outcome: Object -> DeleteResult)
    ensures forall o :: (o in SelectObjects(DeleteBatch(objs, name, namespace, outcome).changes, Deleted)
        <==> o in objs && outcome(o) == DeleteOk(Deleted))
  {
    BatchChangeSet(objs, name, namespace, outcome);
    SelectObjectsMembers(DeleteBatch(objs, name, namespace, outcome).changes, Deleted);
  }

  /**
   * The command waits exactly when it is a real run with waiting enabled,
   * no delete failed, the instance record was deleted and at least one
   * object was actually Deleted; it waits for exactly those objects.
   */
  lemma WaitsOnlyForDeletedObjects(args: seq<string>, flags: DeleteFlags, namespace: string, env: Cluster)
    ensures (exists e :: e in RunDelete(args, flags, namespace, env).effects && e.Wait?)
        <==> (Listed(args, env) && !flags.dryRun && AllDeleted(env) && env.recordDeleteErr.None? && flags.wait
              && exists o :: o in env.canonical && env.outcome(o) == DeleteOk(Deleted))
    ensures forall objs :: Wait(objs) in RunDelete(args, flags, namespace, env).effects ==>
      forall o :: o in objs <==> o in env.canonical && env.outcome(o) == DeleteOk(Deleted)
  {
    if Listed(args, env) && !flags.dryRun {
      var name := args[0];
      var order := Reversed(env.canonical);
      var batch := DeleteBatch(order, name, namespace, env.outcome);
      var head := [InstanceRecordGet(name, namespace), Log(DeletingLine(|order|))];
      ReversedMembers(env.canonical);
      BatchHasErrorsIffSomeFailed(order, name, namespace, env.outcome);
      BatchOnlyDeletesAndLogs(order, name, namespace, env.outcome);
      assert !exists e :: e in head + batch.effects && e.Wait?;
      if !batch.hasErrors {
        var finish := Finalize(batch.changes, env.stored.value, flags, env);
        FinalizeWaits(batch.changes, env.stored.value, flags, env);
        DeletedSelection(order, name, namespace, env.outcome);
        var deleted := SelectObjects(batch.changes, Deleted);
        assert |deleted| > 0 <==> exists o :: o in env.canonical && env.outcome(o) == DeleteOk(Deleted) by {
          if exists o :: o in env.canonical && env.outcome(o) == DeleteOk(Deleted) {
            var o :| o in env.canonical && env.outcome(o) == DeleteOk(Deleted);
            assert o in deleted;
          }
          if |deleted| > 0 {
            assert deleted[0] in deleted;
          }
        }
      }
    }
  }
}
