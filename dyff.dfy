/**
 * The dry-run diff of an instance (InstanceDryRunDiff in internal/dyff/dyff.go).
 *
 * The desired objects are put in canonical order in place, then each one is
 * classified and reported with exactly one log line: Created when the
 * namespace is missing, otherwise by the outcome of a server-side dry-run
 * diff. Configured objects optionally get a rendered detail diff, whose
 * failure aborts the run. Stale objects are then reported as Deleted.
 * The cluster is reached only through the `diff` oracle; nothing is mutated.
 */
module Dyff {
  import opened Ssa

  /** What rm.Diff returns for one object. */
  datatype DiffResult =
    | DiffOk(action: Action, live: string, merged: string)  // the change and the two YAML snapshots
    | DiffImmutable                                        // an immutable-field error
    | DiffFailed(err: string)                              // any other error

  /** Writing the two snapshots and comparing them (DiffYAML). */
  datatype RenderResult = Rendered(text: string) | RenderFailed(err: string)

  /** The arguments and the external collaborators of one run. */
  datatype Context = Context(
    nsExists: bool,
    withDiff: bool,
    diff: Object -> DiffResult,
    render: (string, string) -> RenderResult)

  /** A trace of effects and the error the run returns, if any. */
  datatype Run = Run(effects: seq<Effect>, err: Option<string>)

  /** apiv1.ForceAction and apiv1.EnabledValue. */
  const ForceAction: string := "action.timoni.sh/force"
  const EnabledValue: string := "enabled"

  /** The object asks, by label or annotation, to be recreated on an immutable-field error. */
  predicate HasForceMarker(o: Object) {
    || (ForceAction in o.labels && o.labels[ForceAction] == EnabledValue)
    || (ForceAction in o.annotations && o.annotations[ForceAction] == EnabledValue)
  }

  /** The reference classification: the one line a desired object is reported with. */
  function Outcome(o: Object, ctx: Context): LogLine {
    if !ctx.nsExists then ChangeLine(o, Created, DryRunServer)
    else
      match ctx.diff(o)
      case DiffImmutable =>
        if HasForceMarker(o) then ChangeLine(o, Created, DryRunServer) else ImmutableLine(o)
      case DiffFailed(e) => ObjectErrorLine(o, e)
      case DiffOk(a, _, _) => ChangeLine(o, a, DryRunServer)
  }

  /** The outcome lines of a sequence of desired objects. */
  function OutcomeLines(objs: seq<Object>, ctx: Context): seq<LogLine> {
    if objs == [] then [] else [Outcome(objs[0], ctx)] + OutcomeLines(objs[1..], ctx)
  }

  /** A detail diff is rendered for `o`: detail was requested and the diff says Configured. */
  predicate Detailed(o: Object, ctx: Context) {
    && ctx.nsExists
    && ctx.withDiff
    && ctx.diff(o).DiffOk?
    && ctx.diff(o).action == Configured
  }

  /** Rendering the detail diff of `o` was requested and failed. */
  predicate Aborts(o: Object, ctx: Context) {
    Detailed(o, ctx) && ctx.render(ctx.diff(o).live, ctx.diff(o).merged).RenderFailed?
  }

  function RenderError(o: Object, ctx: Context): string
    requires Aborts(o, ctx)
  {
    ctx.render(ctx.diff(o).live, ctx.diff(o).merged).err
  }

  /** `k` is the first desired object whose detail rendering fails. */
  predicate FirstAbort(objs: seq<Object>, k: int, ctx: Context) {
    && 0 <= k < |objs|
    && Aborts(objs[k], ctx)
    && forall j :: 0 <= j < k ==> !Aborts(objs[j], ctx)
  }

  /**
   * One iteration of the loop over the desired objects: the diff call when
   * the namespace exists, the object's report line, and the detail diff or
   * the error its rendering returns.
   */
  function Step(o: Object, ctx: Context): Run {
    var line := Log(Outcome(o, ctx));
    if !ctx.nsExists then Run([line], None)
    else if Detailed(o, ctx) then
      match ctx.render(ctx.diff(o).live, ctx.diff(o).merged)
      case Rendered(text) => Run([DiffCall(o), line, WriteDetail(text)], None)
      case RenderFailed(e) => Run([DiffCall(o), line], Some(e))
    else Run([DiffCall(o), line], None)
  }

  /** The loop over the desired objects, stopping at the first returned error. */
  function DesiredPass(objs: seq<Object>, ctx: Context): Run
  {
    if objs == [] then Run([], None)
    else
      var first := Step(objs[0], ctx);
      if first.err.Some? then first
      else
        var rest := DesiredPass(objs[1..], ctx);
        Run(first.effects + rest.effects, rest.err)
  }

  /** The lines reporting the stale objects. */
  function StaleReport(stale: seq<Object>): seq<LogLine> {
    ChangeLines(stale, Deleted, DryRunServer)
  }

  /** The whole dry-run diff over objects already in canonical order. */
  function DryRunDiff(objs: seq<Object>, stale: seq<Object>, ctx: Context): Run {
    var desired := DesiredPass(objs, ctx);
    if desired.err.Some? then desired
    else Run(desired.effects + Logs(StaleReport(stale)), None)
  }

  /** Every WriteDetail comes right after a Configured line, and only with detail requested. */
  predicate DetailsFollowConfigured(t: seq<Effect>, withDiff: bool) {
    forall k :: 0 <= k < |t| && t[k].WriteDetail? ==>
      withDiff && 0 < k && t[k - 1].Log? && t[k - 1].line.ChangeLine? && t[k - 1].line.action == Configured
  }

  // ---------------------------------------------------------------------
  // The method

  /** Sorts the objects in place into their canonical order, given as `canonical`. */
  method CanonicalSort(objects: array<Object>, canonical: seq<Object>)
    requires multiset(canonical) == multiset(objects[..])
    modifies objects
    ensures objects[..] == canonical
  {
    assert |canonical| == |multiset(canonical)| == |multiset(objects[..])| == objects.Length;
    forall k | 0 <= k < objects.Length {
      objects[k] := canonical[k];
    }
  }

  /**
   * The body of the loop over the desired objects, for object `r`: what it
   * emits, and the error it returns when rendering the detail diff fails.
   */
  method DiffObject(r: Object, ctx: Context) returns (effects: seq<Effect>, err: Option<string>)
    ensures Run(effects, err) == Step(r, ctx)
  {
    if !ctx.nsExists {
      return [Log(ChangeLine(r, Created, DryRunServer))], None;
    }
    effects := [DiffCall(r)];
    var change := ctx.diff(r);
    if !change.DiffOk? {
      if change.DiffImmutable? {
        if HasForceMarker(r) {
          effects := effects + [Log(ChangeLine(r, Created, DryRunServer))];
        } else {
          effects := effects + [Log(ImmutableLine(r))];
        }
      } else {
        effects := effects + [Log(ObjectErrorLine(r, change.err))];
      }
      return effects, None;
    }
    effects := effects + [Log(ChangeLine(r, change.action, DryRunServer))];
    if ctx.withDiff && change.action == Configured {
      var rendered := ctx.render(change.live, change.merged);
      if rendered.RenderFailed? {
        return effects, Some(rendered.err);
      }
      effects := effects + [WriteDetail(rendered.text)];
    }
    return effects, None;
  }

  /** The loop over the stale objects. */
  method ReportStale(staleObjects: seq<Object>) returns (effects: seq<Effect>)
    ensures effects == Logs(StaleReport(staleObjects))
  {
    effects := [];
    for j := 0 to |staleObjects|
      invariant effects == Logs(StaleReport(staleObjects[..j]))
    {
      assert Logs(StaleReport(staleObjects[..j + 1]))
          == Logs(StaleReport(staleObjects[..j])) + [Log(ChangeLine(staleObjects[j], Deleted, DryRunServer))];
      effects := effects + [Log(ChangeLine(staleObjects[j], Deleted, DryRunServer))];
    }
    assert staleObjects[..|staleObjects|] == staleObjects;
  }

  method InstanceDryRunDiff(objects: array<Object>, canonical: seq<Object>,
                            staleObjects: seq<Object>, ctx: Context)
    returns (err: Option<string>, trace: seq<Effect>)
    requires multiset(canonical) == multiset(objects[..])
    modifies objects
    ensures objects[..] == canonical
    ensures Run(trace, err) == DryRunDiff(canonical, staleObjects, ctx)
  {
    CanonicalSort(objects, canonical);
    trace := [];
    for i := 0 to objects.Length
      invariant objects[..] == canonical
      invariant DesiredPass(canonical[..i], ctx) == Run(trace, None)
    {
      var r := objects[i];
      assert canonical[..i + 1] == canonical[..i] + [r];
      DesiredPassSnoc(canonical[..i], r, ctx);
      var effects, failed := DiffObject(r, ctx);
      trace := trace + effects;
      if failed.Some? {
        assert canonical == canonical[..i + 1] + canonical[i + 1..];
        AbortIsFinal(canonical[..i + 1], canonical[i + 1..], ctx);
        return failed, trace;
      }
    }
    assert canonical[..objects.Length] == canonical;
    var stale := ReportStale(staleObjects);
    trace := trace + stale;
    err := None;
  }

  // ---------------------------------------------------------------------
  // The loop, one object at a time

  /** Processing one more object extends the pass unless it has already returned. */
  lemma {:induction false} DesiredPassSnoc(objs: seq<Object>, o: Object, ctx: Context)
    ensures DesiredPass(objs + [o], ctx) ==
      var before := DesiredPass(objs, ctx);
      if before.err.Some? then before
      else Run(before.effects + Step(o, ctx).effects, Step(o, ctx).err)
  {
    if objs == [] {
      assert objs + [o] == [o];
      assert [o][1..] == [];
    } else {
      assert (objs + [o])[0] == objs[0];
      assert (objs + [o])[1..] == objs[1..] + [o];
      DesiredPassSnoc(objs[1..], o, ctx);
    }
  }

  /** Once the pass has returned an error, later objects are not processed. */
  lemma {:induction false} AbortIsFinal(objs: seq<Object>, rest: seq<Object>, ctx: Context)
    requires DesiredPass(objs, ctx).err.Some?
    ensures DesiredPass(objs + rest, ctx) == DesiredPass(objs, ctx)
  {
    assert objs != [];
    assert (objs + rest)[0] == objs[0];
    assert (objs + rest)[1..] == objs[1..] + rest;
    if Step(objs[0], ctx).err.None? {
      AbortIsFinal(objs[1..], rest, ctx);
    }
  }

  /** What a single iteration reports, calls and returns. */
  lemma StepFacts(o: Object, ctx: Context)
    ensures Step(o, ctx).err.Some? <==> Aborts(o, ctx)
    ensures Aborts(o, ctx) ==> Step(o, ctx).err == Some(RenderError(o, ctx))
    ensures forall e :: e in Step(o, ctx).effects ==> e.Log? || e.WriteDetail? || e.DiffCall?
    ensures Step(o, ctx).effects != [] && !Step(o, ctx).effects[0].WriteDetail?
    ensures DetailsFollowConfigured(Step(o, ctx).effects, ctx.withDiff)
  {
  }

  lemma StepLines(o: Object, ctx: Context)
    ensures LogLines(Step(o, ctx).effects) == [Outcome(o, ctx)]
  {
    ProjectShort(Step(o, ctx).effects, PickLog);
  }

  lemma StepDiffCalls(o: Object, ctx: Context)
    ensures DiffCalls(Step(o, ctx).effects) == if ctx.nsExists then [o] else []
  {
    ProjectShort(Step(o, ctx).effects, PickDiffCall);
  }

  // ---------------------------------------------------------------------
  // Properties of the dry-run diff

  lemma {:induction false} DesiredPassWithoutNamespace(objs: seq<Object>, ctx: Context)
    requires !ctx.nsExists
    ensures DesiredPass(objs, ctx) == Run(Logs(ChangeLines(objs, Created, DryRunServer)), None)
  {
    if objs != [] {
      DesiredPassWithoutNamespace(objs[1..], ctx);
      assert Logs(ChangeLines(objs, Created, DryRunServer))
          == [Log(ChangeLine(objs[0], Created, DryRunServer))] + Logs(ChangeLines(objs[1..], Created, DryRunServer));
    }
  }

  /**
   * Without the namespace every desired object is reported Created, in
   * canonical order, no object is diffed, and the stale objects follow.
   */
  lemma NamespaceMissingReportsCreated(objs: seq<Object>, stale: seq<Object>, ctx: Context)
    requires !ctx.nsExists
    ensures DryRunDiff(objs, stale, ctx).err == None
    ensures LogLines(DryRunDiff(objs, stale, ctx).effects)
         == ChangeLines(objs, Created, DryRunServer) + StaleReport(stale)
    ensures DiffCalls(DryRunDiff(objs, stale, ctx).effects) == []
  {
    DesiredPassWithoutNamespace(objs, ctx);
    var created := Logs(ChangeLines(objs, Created, DryRunServer));
    LogsProjection(ChangeLines(objs, Created, DryRunServer));
    LogsProjection(StaleReport(stale));
    ProjectAppend(created, Logs(StaleReport(stale)), PickLog);
    ProjectAppend(created, Logs(StaleReport(stale)), PickDiffCall);
  }

  lemma {:induction false} DesiredPassSucceeds(objs: seq<Object>, ctx: Context)
    ensures DesiredPass(objs, ctx).err.None? <==> forall k :: 0 <= k < |objs| ==> !Aborts(objs[k], ctx)
  {
    if objs != [] {
      StepFacts(objs[0], ctx);
      DesiredPassSucceeds(objs[1..], ctx);
      if Step(objs[0], ctx).err.None? {
        if forall k :: 0 <= k < |objs[1..]| ==> !Aborts(objs[1..][k], ctx) {
          forall k | 0 <= k < |objs| ensures !Aborts(objs[k], ctx) {
            if k > 0 { assert objs[k] == objs[1..][k - 1]; }
          }
        } else {
          var k :| 0 <= k < |objs[1..]| && Aborts(objs[1..][k], ctx);
          assert objs[k + 1] == objs[1..][k];
        }
      }
    }
  }

  lemma {:induction false} DesiredPassReports(objs: seq<Object>, ctx: Context)
    requires DesiredPass(objs, ctx).err.None?
    ensures LogLines(DesiredPass(objs, ctx).effects) == OutcomeLines(objs, ctx)
    ensures ctx.nsExists ==> DiffCalls(DesiredPass(objs, ctx).effects) == objs
  {
    if objs != [] {
      var first := Step(objs[0], ctx);
      var rest := DesiredPass(objs[1..], ctx);
      assert first.err.None?;
      assert DesiredPass(objs, ctx).effects == first.effects + rest.effects;
      StepLines(objs[0], ctx);
      StepDiffCalls(objs[0], ctx);
      DesiredPassReports(objs[1..], ctx);
      ProjectAppend(first.effects, rest.effects, PickLog);
      ProjectAppend(first.effects, rest.effects, PickDiffCall);
      assert objs == [objs[0]] + objs[1..];
    }
  }

  /**
   * When no detail rendering fails, every desired object has exactly one
   * report line, in canonical order, followed by one Deleted line per
   * stale object; with the namespace present every desired object is
   * diffed, in the same order.
   */
  lemma ReportsEveryObjectOnce(objs: seq<Object>, stale: seq<Object>, ctx: Context)
    ensures DryRunDiff(objs, stale, ctx).err.None? <==> forall k :: 0 <= k < |objs| ==> !Aborts(objs[k], ctx)
    ensures DryRunDiff(objs, stale, ctx).err.None? ==>
      LogLines(DryRunDiff(objs, stale, ctx).effects) == OutcomeLines(objs, ctx) + StaleReport(stale)
    ensures ctx.nsExists && DryRunDiff(objs, stale, ctx).err.None? ==>
      DiffCalls(DryRunDiff(objs, stale, ctx).effects) == objs
  {
    DesiredPassSucceeds(objs, ctx);
    var desired := DesiredPass(objs, ctx);
    if desired.err.None? {
      DesiredPassReports(objs, ctx);
      LogsProjection(StaleReport(stale));
      ProjectAppend(desired.effects, Logs(StaleReport(stale)), PickLog);
      ProjectAppend(desired.effects, Logs(StaleReport(stale)), PickDiffCall);
    }
  }

  lemma {:induction false} FirstAbortExists(objs: seq<Object>, ctx: Context)
    requires exists k :: 0 <= k < |objs| && Aborts(objs[k], ctx)
    ensures exists k :: FirstAbort(objs, k, ctx)
  {
    if Aborts(objs[0], ctx) {
      assert FirstAbort(objs, 0, ctx);
    } else {
      var k :| 0 <= k < |objs| && Aborts(objs[k], ctx);
      assert objs[1..][k - 1] == objs[k];
      FirstAbortExists(objs[1..], ctx);
      var j :| FirstAbort(objs[1..], j, ctx);
      forall i | 0 <= i < j + 1 ensures !Aborts(objs[i], ctx) {
        if i > 0 { assert objs[i] == objs[1..][i - 1]; }
      }
      assert FirstAbort(objs, j + 1, ctx);
    }
  }

  lemma {:induction false} DesiredPassAbortAt(objs: seq<Object>, k: int, ctx: Context)
    requires FirstAbort(objs, k, ctx)
    ensures DesiredPass(objs, ctx).err == Some(RenderError(objs[k], ctx))
    ensures LogLines(DesiredPass(objs, ctx).effects) == OutcomeLines(objs[..k + 1], ctx)
  {
    var first := Step(objs[0], ctx);
    StepFacts(objs[0], ctx);
    StepLines(objs[0], ctx);
    if k == 0 {
      assert objs[..1][1..] == [];
    } else {
      var rest := DesiredPass(objs[1..], ctx);
      forall j | 0 <= j < k - 1 ensures !Aborts(objs[1..][j], ctx) {
        assert objs[1..][j] == objs[j + 1];
      }
      assert objs[1..][k - 1] == objs[k];
      DesiredPassAbortAt(objs[1..], k - 1, ctx);
      ProjectAppend(first.effects, rest.effects, PickLog);
      assert objs[..k + 1][1..] == objs[1..][..k];
    }
  }

  /**
   * A failed detail rendering is returned as the run's error; it stops at
   * the first Configured object whose rendering fails: the objects after it
   * and the stale objects are not reported.
   */
  lemma RenderFailureAborts(objs: seq<Object>, stale: seq<Object>, ctx: Context)
    requires DryRunDiff(objs, stale, ctx).err.Some?
    ensures exists k :: (FirstAbort(objs, k, ctx)
      && DryRunDiff(objs, stale, ctx).err == Some(RenderError(objs[k], ctx))
      && LogLines(DryRunDiff(objs, stale, ctx).effects) == OutcomeLines(objs[..k + 1], ctx))
  {
    DesiredPassSucceeds(objs, ctx);
    FirstAbortExists(objs, ctx);
    var k :| FirstAbort(objs, k, ctx);
    DesiredPassAbortAt(objs, k, ctx);
  }

  lemma {:induction false} DesiredPassNeverMutates(objs: seq<Object>, ctx: Context)
    ensures forall e :: e in DesiredPass(objs, ctx).effects ==> e.Log? || e.WriteDetail? || e.DiffCall?
    ensures DetailsFollowConfigured(DesiredPass(objs, ctx).effects, ctx.withDiff)
    ensures DesiredPass(objs, ctx).effects == [] || !DesiredPass(objs, ctx).effects[0].WriteDetail?
  {
    if objs != [] {
      StepFacts(objs[0], ctx);
      DesiredPassNeverMutates(objs[1..], ctx);
      var first := Step(objs[0], ctx);
      if first.err.None? {
        DetailsAppend(first.effects, DesiredPass(objs[1..], ctx).effects, ctx.withDiff);
      }
    }
  }

  lemma DetailsAppend(a: seq<Effect>, b: seq<Effect>, withDiff: bool)
    requires DetailsFollowConfigured(a, withDiff) && DetailsFollowConfigured(b, withDiff)
    requires b == [] || !b[0].WriteDetail?
    ensures DetailsFollowConfigured(a + b, withDiff)
  {
    forall k | 0 <= k < |a + b| && (a + b)[k].WriteDetail?
      ensures withDiff && 0 < k && (a + b)[k - 1].Log? && (a + b)[k - 1].line.ChangeLine?
           && (a + b)[k - 1].line.action == Configured
    {
      if k < |a| {
        assert (a + b)[k] == a[k] && (a + b)[k - 1] == a[k - 1];
      } else {
        assert (a + b)[k] == b[k - |a|];
        assert (a + b)[k - 1] == b[k - 1 - |a|];
      }
    }
  }

  /**
   * The dry-run diff makes no mutating call: it only diffs, logs and writes
   * detail text.
   */
  lemma DryRunDiffIsReadOnly(objs: seq<Object>, stale: seq<Object>, ctx: Context)
    ensures forall e :: e in DryRunDiff(objs, stale, ctx).effects ==> e.Log? || e.WriteDetail? || e.DiffCall?
    ensures forall e :: e in DryRunDiff(objs, stale, ctx).effects ==> !Mutating(e)
  {
    DesiredPassNeverMutates(objs, ctx);
    var desired := DesiredPass(objs, ctx);
    if desired.err.None? {
      var staleLogs := Logs(StaleReport(stale));
      forall e | e in desired.effects + staleLogs ensures e.Log? || e.WriteDetail? || e.DiffCall? {
        if e !in desired.effects {
          var k :| 0 <= k < |staleLogs| && staleLogs[k] == e;
        }
      }
    }
  }

  /** Rendered detail is written only with detail requested, right after a Configured line. */
  lemma DryRunDiffDetails(objs: seq<Object>, stale: seq<Object>, ctx: Context)
    ensures DetailsFollowConfigured(DryRunDiff(objs, stale, ctx).effects, ctx.withDiff)
  {
    DesiredPassNeverMutates(objs, ctx);
    var desired := DesiredPass(objs, ctx);
    if desired.err.None? {
      var staleLogs := Logs(StaleReport(stale));
      assert DetailsFollowConfigured(staleLogs, ctx.withDiff);
      DetailsAppend(desired.effects, staleLogs, ctx.withDiff);
    }
  }

  lemma {:induction false} DesiredPassRendersConfigured(objs: seq<Object>, ctx: Context, k: nat)
    requires k < |objs| && DesiredPass(objs, ctx).err.None?
    requires ctx.nsExists && ctx.withDiff && ctx.diff(objs[k]).DiffOk? && ctx.diff(objs[k]).action == Configured
    ensures ctx.render(ctx.diff(objs[k]).live, ctx.diff(objs[k]).merged).Rendered?
    ensures WriteDetail(ctx.render(ctx.diff(objs[k]).live, ctx.diff(objs[k]).merged).text)
            in DesiredPass(objs, ctx).effects
  {
    var first := Step(objs[0], ctx);
    if k == 0 {
      assert first.effects[2] == WriteDetail(ctx.render(ctx.diff(objs[0]).live, ctx.diff(objs[0]).merged).text);
    } else {
      assert objs[k] == objs[1..][k - 1];
      DesiredPassRendersConfigured(objs[1..], ctx, k - 1);
    }
  }

  /** With detail requested and no failure, every Configured object gets its rendered diff. */
  lemma RendersEveryConfiguredObject(objs: seq<Object>, stale: seq<Object>, ctx: Context, k: nat)
    requires k < |objs| && DryRunDiff(objs, stale, ctx).err.None?
    requires ctx.nsExists && ctx.withDiff && ctx.diff(objs[k]).DiffOk? && ctx.diff(objs[k]).action == Configured
    ensures ctx.render(ctx.diff(objs[k]).live, ctx.diff(objs[k]).merged).Rendered?
    ensures WriteDetail(ctx.render(ctx.diff(objs[k]).live, ctx.diff(objs[k]).merged).text)
            in DryRunDiff(objs, stale, ctx).effects
  {
    DesiredPassRendersConfigured(objs, ctx, k);
  }
}
