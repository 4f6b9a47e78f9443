/** What the runs of python/ci_cd/ci_cd_pipeline.py record, read off what happened to them: how each
    stage callback ended, whether the run was cancelled, and whether saving failed. */
module PipelineOutcome {
  import opened Common
  import opened PipelineRun

  /** The history of one run: the outcomes of the callbacks called so far, by stage. */
  datatype Trace = Trace(outcomes: map<nat, Outcome>, cancelled: bool, saveFailed: bool)

  const NOTHING := Trace(map[], false, false)

  /** What a worker step at position `pc` adds. */
  function Observe(pc: Pc, tr: Trace, c: Choice): Trace {
    match pc
    case Execute(i) => tr.(outcomes := tr.outcomes[i := c.outcome])
    case Save => tr.(saveFailed := !c.saved)
    case _ => tr
  }

  function ObserveEvent(s: System, e: Event, id: RunId, tr: Trace): Trace {
    match e
    case Work(w, c) => if w == id && id in s.runs then Observe(s.runs[id].pc, tr, c) else tr
    case CancelRun(w) => if w == id && id in s.active then tr.(cancelled := true) else tr
    case Trigger(_) => tr
  }

  function TraceAlong(maxParallel: nat, s: System, es: seq<Event>, id: RunId, tr: Trace): Trace
    requires Valid(maxParallel, s, es)
    decreases |es|
  {
    if es == [] then tr
    else TraceAlong(maxParallel, Apply(maxParallel, s, es[0]), es[1..], id, ObserveEvent(s, es[0], id, tr))
  }

  /** The callback raised, or the gate's result has no `get`. */
  predicate Bad(i: nat, o: Outcome) { o == Raised || (i == GATE && o == NotADict) }

  /** The gate's `passed` is False. */
  predicate Closes(i: nat, o: Outcome) { i == GATE && o == Returned(true) }

  /** The stages before `j`, and only those, were called, and none of them ends the run. */
  ghost predicate Fine(out: map<nat, Outcome>, j: nat) {
    && (forall i :: i in out <==> 0 <= i < j)
    && (forall i :: i in out ==> !Bad(i, out[i]) && !Closes(i, out[i]))
  }

  /** Stage `j` was called last, after fine ones, and ended the run. */
  ghost predicate StopsAt(out: map<nat, Outcome>, j: nat) {
    j in out && Fine(out - {j}, j) && (Bad(j, out[j]) || Closes(j, out[j]))
  }

  ghost predicate Stops(out: map<nat, Outcome>) {
    exists i :: i in out && i < STAGES && (Bad(i, out[i]) || Closes(i, out[i]))
  }

  /** How far the loop got in skipping: no further than the stages called, if one of them ended it. */
  ghost function Passed(pc: Pc, out: map<nat, Outcome>): nat {
    match pc
    case Spawned => 0
    case Check(j) => j
    case Skip(j) => j
    case Start(j) => j
    case Execute(j) => j
    case Judge(j, _) => j
    case StageFail(j) => j
    case _ => if Stops(out) then 0 else STAGES
  }

  /** The worker has the outcome of stage `i` in hand and has not recorded it yet. */
  predicate InHandler(pc: Pc, i: nat) {
    pc == StageFail(i) || (pc.Judge? && pc.i == i)
  }

  /** The status stage `i` must have. */
  ghost function Expected(pc: Pc, out: map<nat, Outcome>, i: nat): StageStatus {
    if i in out then
      if Bad(i, out[i]) && !InHandler(pc, i) then StageFailed
      else if out[i] == Raised then StageRunning
      else StageCompleted
    else if pc == Execute(i) then StageRunning
    else if i < Passed(pc, out) then StageSkipped
    else StagePending
  }

  ghost predicate StagesRecorded(r: Run, out: map<nat, Outcome>) {
    |r.stages| == STAGES && forall i :: 0 <= i < STAGES ==> r.stages[i] == Expected(r.pc, out, i)
  }

  ghost predicate GateRecorded(r: Run, out: map<nat, Outcome>) {
    r.gate == if GATE in out && out[GATE] != Raised then Some(out[GATE]) else None
  }

  /** A cancelled status has been cancelled. */
  ghost predicate Live(r: Run, tr: Trace) {
    r.status == Running || (r.status == Cancelled && tr.cancelled)
  }

  /** Past the loop: completed only after eight fine stages; uncancelled, exactly then, and else failed. */
  ghost predicate Ended(r: Run, tr: Trace) {
    && (r.status == Completed ==> Fine(tr.outcomes, STAGES))
    && (!tr.cancelled ==> r.status == if Stops(tr.outcomes) then Failed else Completed)
  }

  /** What the position says about outcomes and status. */
  ghost predicate Positioned(r: Run, tr: Trace) {
    var out := tr.outcomes;
    match r.pc
    case Spawned => out == map[] && !tr.saveFailed
    case Check(j) =>
      && Live(r, tr) && !tr.saveFailed && j <= STAGES
      && exists a: nat :: a <= j && Fine(out, a) && (r.status == Running ==> a == j)
    case Skip(j) =>
      && Live(r, tr) && !tr.saveFailed && r.status == Cancelled && j < STAGES
      && exists a: nat :: a <= j && Fine(out, a)
    case Start(j) => Live(r, tr) && !tr.saveFailed && j < STAGES && Fine(out, j)
    case Execute(j) => Live(r, tr) && !tr.saveFailed && j < STAGES && Fine(out, j)
    case Judge(j, o) =>
      && Live(r, tr) && !tr.saveFailed && j < STAGES
      && j in out && out[j] == o && o != Raised && Fine(out - {j}, j)
    case StageFail(j) => Live(r, tr) && !tr.saveFailed && j < STAGES && StopsAt(out, j) && Bad(j, out[j])
    case RunFail => !tr.saveFailed && Stops(out)
    case GateFail => !tr.saveFailed && Stops(out)
    case FinalCheck =>
      && !tr.saveFailed && r.status != Completed
      && (r.status == Running ==> Fine(out, STAGES))
      && (!tr.cancelled ==> r.status == if Stops(out) then Failed else Running)
    case Complete => !tr.saveFailed && Fine(out, STAGES)
    case Move => !tr.saveFailed && Ended(r, tr)
    case Save => !tr.saveFailed && Ended(r, tr)
    case SaveFail => tr.saveFailed
    case Done => if tr.saveFailed then r.status == Failed else Ended(r, tr)
  }

  ghost predicate Recorded(r: Run, tr: Trace) {
    StagesRecorded(r, tr.outcomes) && GateRecorded(r, tr.outcomes) && Positioned(r, tr)
  }

  lemma FreshRecorded()
    ensures Recorded(FRESH, NOTHING)
  {
  }

  lemma FineDoesNotStop(out: map<nat, Outcome>, j: nat)
    requires Fine(out, j)
    ensures !Stops(out)
  {
  }

  lemma CancelRecords(r: Run, tr: Trace)
    requires Recorded(r, tr) && InFlight(r.pc)
    ensures Recorded(Cancel(r), tr.(cancelled := true))
  {
  }

  lemma FineNext(out: map<nat, Outcome>, j: nat)
    requires j in out && Fine(out - {j}, j) && !Bad(j, out[j]) && !Closes(j, out[j])
    ensures Fine(out, j + 1)
  {
    forall i | i in out ensures 0 <= i < j + 1 && !Bad(i, out[i]) && !Closes(i, out[i]) {
      if i != j {
        assert i in out - {j};
      }
    }
    forall i | 0 <= i < j + 1 ensures i in out {
      if i != j {
        assert i in out - {j};
      }
    }
  }

  lemma FineCalled(out: map<nat, Outcome>, j: nat, o: Outcome)
    requires Fine(out, j)
    ensures Fine(out[j := o] - {j}, j)
  {
    assert out[j := o] - {j} == out;
  }

  /** After a stage that ends the run nothing more is called. */
  lemma StoppedShort(out: map<nat, Outcome>, j: nat)
    requires j < STAGES && j in out && Fine(out - {j}, j) && (Bad(j, out[j]) || Closes(j, out[j]))
    ensures Stops(out) && forall i: nat :: (i in out <==> i <= j) && (i < j ==> !Bad(i, out[i]) && !Closes(i, out[i]))
  {
    forall i: nat ensures (i in out <==> i <= j) && (i < j ==> !Bad(i, out[i]) && !Closes(i, out[i])) {
      assert i != j ==> (i in out <==> i in out - {j});
    }
  }

  lemma StepPositions(r: Run, tr: Trace, c: Choice)
    requires Recorded(r, tr)
    ensures Positioned(Step(r, c), Observe(r.pc, tr, c))
  {
    var out := tr.outcomes;
    match r.pc
    case Spawned => assert Fine(out, 0);
    case Check(j) =>
      var a: nat :| a <= j && Fine(out, a) && (r.status == Running ==> a == j);
      FineDoesNotStop(out, a);
    case Skip(j) =>
      var a: nat :| a <= j && Fine(out, a);
      assert a <= j + 1;
    case Execute(j) => FineCalled(out, j, c.outcome);
    case Judge(j, o) =>
      if !Bad(j, o) && !Closes(j, o) {
        FineNext(out, j);
      }
    case FinalCheck =>
      if r.status == Running {
        FineDoesNotStop(out, STAGES);
      }
    case Complete => FineDoesNotStop(out, STAGES);
    case _ =>
  }

  lemma StepRecordsGate(r: Run, tr: Trace, c: Choice)
    requires Recorded(r, tr)
    ensures GateRecorded(Step(r, c), Observe(r.pc, tr, c).outcomes)
  {
  }

  /** A step that writes no stage status. */
  lemma NoStageWritten(r: Run, tr: Trace, c: Choice)
    requires Recorded(r, tr) && !r.pc.Skip? && !r.pc.Start? && !r.pc.Execute? && !r.pc.StageFail?
    ensures StagesRecorded(Step(r, c), Observe(r.pc, tr, c).outcomes)
  {
    var out := tr.outcomes;
    match r.pc
    case Check(j) =>
      var a: nat :| a <= j && Fine(out, a) && (r.status == Running ==> a == j);
      FineDoesNotStop(out, a);
    case Judge(j, o) =>
      if !Bad(j, o) && !Closes(j, o) {
        FineNext(out, j);
      } else {
        StoppedShort(out, j);
      }
    case _ =>
  }

  lemma StageWritten(r: Run, tr: Trace, c: Choice)
    requires Recorded(r, tr) && (r.pc.Skip? || r.pc.Start? || r.pc.Execute? || r.pc.StageFail?)
    ensures StagesRecorded(Step(r, c), Observe(r.pc, tr, c).outcomes)
  {
    var out, j := tr.outcomes, r.pc.i;
    match r.pc
    case Skip(_) =>
      var a: nat :| a <= j && Fine(out, a);
    case StageFail(_) => StoppedShort(out, j);
    case _ =>
  }

  lemma StepRecords(r: Run, tr: Trace, c: Choice)
    requires Recorded(r, tr)
    ensures Recorded(Step(r, c), Observe(r.pc, tr, c))
  {
    StepPositions(r, tr, c);
    StepRecordsGate(r, tr, c);
    if r.pc.Skip? || r.pc.Start? || r.pc.Execute? || r.pc.StageFail? {
      StageWritten(r, tr, c);
    } else {
      NoStageWritten(r, tr, c);
    }
  }

  // ---------------------------------------------------------------------------
  // All runs together
  // ---------------------------------------------------------------------------

  /** The run `id`, if triggered already, records its trace. */
  ghost predicate Tracked(s: System, id: RunId, tr: Trace) {
    if id in s.runs then Recorded(s.runs[id], tr) else tr == NOTHING
  }

  lemma EventTracked(maxParallel: nat, s: System, e: Event, id: RunId, tr: Trace)
    requires SystemInv(s) && Enabled(s, e) && Tracked(s, id, tr)
    ensures Tracked(Apply(maxParallel, s, e), id, ObserveEvent(s, e, id, tr))
  {
    match e
    case Work(w, c) =>
      if w == id {
        StepRecords(s.runs[id], tr, c);
      }
    case CancelRun(w) =>
      if w == id && id in s.active {
        CancelRecords(s.runs[id], tr);
      }
    case Trigger(w) =>
      if w == id {
        FreshRecorded();
      }
  }

  lemma {:induction false} ExecutionTracked(maxParallel: nat, s: System, es: seq<Event>, id: RunId, tr: Trace)
    requires SystemInv(s) && Valid(maxParallel, s, es) && Tracked(s, id, tr)
    ensures Tracked(Execution(maxParallel, s, es), id, TraceAlong(maxParallel, s, es, id, tr))
    decreases |es|
  {
    if es != [] {
      EventKeepsInv(maxParallel, s, es[0]);
      EventTracked(maxParallel, s, es[0], id, tr);
      ExecutionTracked(maxParallel, Apply(maxParallel, s, es[0]), es[1..], id, ObserveEvent(s, es[0], id, tr));
    }
  }

  /** In every interleaving, and as soon as the worker has recorded it, a stage is failed if and only if its
      callback raised, or it is the gate and returned something without `get`; it is completed if and
      only if its callback returned otherwise. */
  lemma StageOutcomes(maxParallel: nat, es: seq<Event>, id: RunId, i: nat)
    requires Valid(maxParallel, IDLE, es) && id in Execution(maxParallel, IDLE, es).runs && i < STAGES
    ensures var r := Execution(maxParallel, IDLE, es).runs[id];
            var out := TraceAlong(maxParallel, IDLE, es, id, NOTHING).outcomes;
            && |r.stages| == STAGES
            && (!InHandler(r.pc, i) ==> (r.stages[i] == StageFailed <==> i in out && Bad(i, out[i])))
            && (!InHandler(r.pc, i) ==> (r.stages[i] == StageCompleted <==> i in out && !Bad(i, out[i])))
            && (r.stages[i] == StageRunning ==> r.pc == Execute(i) || InHandler(r.pc, i))
  {
    ExecutionTracked(maxParallel, IDLE, es, id, NOTHING);
  }

  /** Every stage was called, its callback returned, and the gate did not close. */
  ghost predicate AllPassed(out: map<nat, Outcome>) {
    forall i: nat :: i < STAGES ==> i in out && !Bad(i, out[i]) && !Closes(i, out[i])
  }

  lemma PassedOrStopped(r: Run, tr: Trace)
    requires Ended(r, tr) && !tr.cancelled
    ensures if AllPassed(tr.outcomes) then r.status == Completed else r.status == Failed
  {
    var out := tr.outcomes;
    if Stops(out) {
      var i :| i in out && i < STAGES && (Bad(i, out[i]) || Closes(i, out[i]));
      assert !AllPassed(out);
    }
  }

  /** A finished run that was never cancelled and whose save worked is completed if and only if every callback
      returned and the gate's `passed` was not False, and failed otherwise; a run whose save failed is failed.
      Stages that were not called are pending after a stage that ended the run, and else skipped. */
  lemma RunOutcome(maxParallel: nat, es: seq<Event>, id: RunId)
    requires Valid(maxParallel, IDLE, es) && id in Execution(maxParallel, IDLE, es).runs
    requires Execution(maxParallel, IDLE, es).runs[id].pc == Done
    ensures var r := Execution(maxParallel, IDLE, es).runs[id];
            var tr := TraceAlong(maxParallel, IDLE, es, id, NOTHING);
            && (tr.saveFailed ==> r.status == Failed)
            && (!tr.saveFailed && !tr.cancelled ==>
                  r.status == if AllPassed(tr.outcomes) then Completed else Failed)
            && (r.status == Completed ==> AllPassed(tr.outcomes))
            && |r.stages| == STAGES
            && (forall i :: 0 <= i < STAGES && i !in tr.outcomes ==>
                  r.stages[i] == if Stops(tr.outcomes) then StagePending else StageSkipped)
  {
    ExecutionTracked(maxParallel, IDLE, es, id, NOTHING);
    var r := Execution(maxParallel, IDLE, es).runs[id];
    var tr := TraceAlong(maxParallel, IDLE, es, id, NOTHING);
    if !tr.saveFailed && !tr.cancelled {
      PassedOrStopped(r, tr);
    }
  }

  /** Completed runs are listed in the order in which they complete. */
  lemma {:induction false} CompletedInOrder(maxParallel: nat, s: System, es: seq<Event>)
    requires Valid(maxParallel, s, es)
    ensures s.completed <= Execution(maxParallel, s, es).completed
    decreases |es|
  {
    if es != [] {
      CompletedInOrder(maxParallel, Apply(maxParallel, s, es[0]), es[1..]);
    }
  }

  // ---------------------------------------------------------------------------
  // Capacity
  // ---------------------------------------------------------------------------

  /** A trigger is refused, without any effect, if and only if as many active runs are running as may; otherwise
      it adds a pending run of eight pending stages and counts it. */
  lemma TriggerExact(maxParallel: nat, s: System, id: RunId, running: set<RunId>)
    requires Enabled(s, Trigger(id))
    requires forall x :: x in running <==> x in s.active && x in s.runs && s.runs[x].status == Running
    ensures var s' := Apply(maxParallel, s, Trigger(id));
            && (id !in s'.runs <==> |running| >= maxParallel) && (id !in s'.runs ==> s' == s)
            && (id in s'.runs ==>
                  && s'.runs.Keys == s.runs.Keys + {id} && (forall x :: x in s.runs ==> s'.runs[x] == s.runs[x])
                  && s'.active == s.active + {id} && s'.completed == s.completed && s'.counter == s.counter + 1
                  && s'.runs[id].status == Pending && s'.runs[id].pc == Spawned && s'.runs[id].gate == None
                  && s'.runs[id].stages == seq(STAGES, _ => StagePending))
  {
    assert running == RunningRuns(s);
  }
}
