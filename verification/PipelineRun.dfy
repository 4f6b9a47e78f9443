/** The CI/CD runs of python/ci_cd/ci_cd_pipeline.py as interleaved atomic steps: a worker thread per
    run, and `trigger_pipeline` and `cancel_run` landing between any two of its steps. */
module PipelineRun {
  import opened Common

  const STAGES: nat := 8
  const GATE: nat := 5                  // "performance_gate"
  const PROMOTION: nat := 6             // "model_promotion"; "deployment" is the next and last

  datatype StageStatus = StagePending | StageRunning | StageCompleted | StageFailed | StageSkipped

  datatype RunStatus = Pending | Running | Completed | Failed | Cancelled

  /** How a stage callback ends: an exception, a dictionary (of which only whether `passed` is False
      matters), or something without a `get` method. */
  datatype Outcome = Raised | Returned(passedIsFalse: bool) | NotADict

  /** The worker's position in `_execute_pipeline`; the numbers are the source lines to execute next. */
  datatype Pc =
    | Spawned                           // 184
    | Check(i: nat)                     // 187-188
    | Skip(i: nat)                      // 190
    | Start(i: nat)                     // 194
    | Execute(i: nat)                   // 199-201
    | Judge(i: nat, outcome: Outcome)   // 208
    | GateFail                          // 210
    | StageFail(i: nat)                 // 214
    | RunFail                           // 218
    | FinalCheck                        // 222
    | Complete                          // 223
    | Move                              // 229-231
    | Save                              // 234
    | SaveFail                          // 238
    | Done

  datatype Run = Run(status: RunStatus, stages: seq<StageStatus>, gate: Option<Outcome>, pc: Pc)

  /** What the environment decides at a step: how the callback ends, whether saving works. */
  datatype Choice = Choice(outcome: Outcome, saved: bool)

  const FRESH := Run(Pending, [StagePending, StagePending, StagePending, StagePending,
                               StagePending, StagePending, StagePending, StagePending], None, Spawned)

  function SetStage(r: Run, i: nat, s: StageStatus, pc: Pc): Run {
    if i < |r.stages| then r.(stages := r.stages[i := s], pc := pc) else r.(pc := pc)
  }

  /** One worker step. */
  function Step(r: Run, c: Choice): Run {
    match r.pc
    case Spawned => r.(status := Running, pc := Check(0))
    case Check(i) =>
      if i >= STAGES then r.(pc := FinalCheck)
      else if r.status != Running then r.(pc := Skip(i))
      else r.(pc := Start(i))
    case Skip(i) => SetStage(r, i, StageSkipped, Check(i + 1))
    case Start(i) => SetStage(r, i, StageRunning, Execute(i))
    case Execute(i) =>
      if c.outcome == Raised then r.(pc := StageFail(i))
      else SetStage(r.(gate := if i == GATE then Some(c.outcome) else r.gate), i, StageCompleted, Judge(i, c.outcome))
    case Judge(i, outcome) =>
      if i == GATE && outcome == NotADict then r.(pc := StageFail(i))
      else if i == GATE && outcome == Returned(true) then r.(pc := GateFail)
      else r.(pc := Check(i + 1))
    case GateFail => r.(status := Failed, pc := FinalCheck)
    case StageFail(i) => SetStage(r, i, StageFailed, RunFail)
    case RunFail => r.(status := Failed, pc := FinalCheck)
    case FinalCheck => r.(pc := if r.status == Running then Complete else Move)
    case Complete => r.(status := Completed, pc := Move)
    case Move => r.(pc := Save)
    case Save => r.(pc := if c.saved then Done else SaveFail)
    case SaveFail => r.(status := Failed, pc := Done)
    case Done => r
  }

  predicate InFlight(pc: Pc) { !pc.Save? && !pc.SaveFail? && !pc.Done? }

  // ---------------------------------------------------------------------------
  // Invariant of one run
  // ---------------------------------------------------------------------------

  predicate All(stages: seq<StageStatus>, lo: nat, hi: nat, s: StageStatus)
    requires hi <= |stages|
  {
    forall k :: lo <= k < hi ==> stages[k] == s
  }

  /** completed up to `a`, then skipped up to `i`, then pending. */
  predicate Skipping(stages: seq<StageStatus>, a: nat, i: nat) {
    && a <= i <= |stages| == STAGES
    && All(stages, 0, a, StageCompleted) && All(stages, a, i, StageSkipped) && All(stages, i, STAGES, StagePending)
  }

  /** completed up to `a`, then one stage `s`, then pending. */
  predicate Stopped(stages: seq<StageStatus>, a: nat, s: StageStatus) {
    && a < |stages| == STAGES
    && All(stages, 0, a, StageCompleted) && stages[a] == s && All(stages, a + 1, STAGES, StagePending)
  }

  /** completed*, then at most one running or failed followed by pending*, or skipped* followed by
      pending*. */
  ghost predicate Shape(stages: seq<StageStatus>) {
    || (exists a, i :: Skipping(stages, a, i))
    || (exists a :: Stopped(stages, a, StageRunning) || Stopped(stages, a, StageFailed))
  }

  predicate GateOpen(r: Run) { r.gate == Some(Returned(false)) }

  /** Everything up to stage `i` is completed, and past the gate the gate was not closed. */
  predicate Cleared(r: Run, i: nat) {
    Skipping(r.stages, i, i) && (i > GATE ==> GateOpen(r))
  }

  ghost predicate RunInv(r: Run) {
    && Shape(r.stages)
    && (r.status == Completed ==> Cleared(r, STAGES))
    && (forall i :: PROMOTION <= i < |r.stages| && HasStarted(r.stages[i]) ==> GateOpen(r))
    && match r.pc
       case Spawned => Cleared(r, 0) && r.status != Completed
       case Check(i) =>
         r.status != Completed && if r.status == Running then Cleared(r, i) else exists a :: Skipping(r.stages, a, i)
       case Skip(i) =>
         i < STAGES && r.status != Running && r.status != Completed && exists a :: Skipping(r.stages, a, i)
       case Start(i) => i < STAGES && Cleared(r, i) && r.status != Completed
       case Execute(i) => Stopped(r.stages, i, StageRunning) && (i > GATE ==> GateOpen(r)) && r.status != Completed
       case Judge(i, outcome) =>
         && i < STAGES && Skipping(r.stages, i + 1, i + 1) && r.status != Completed && outcome != Raised
         && (if i == GATE then r.gate == Some(outcome) else i > GATE ==> GateOpen(r))
       case GateFail => r.status != Completed
       case StageFail(i) =>
         && i < STAGES && r.status != Completed
         && (Stopped(r.stages, i, StageRunning) || Skipping(r.stages, i + 1, i + 1))
         && (i > GATE ==> GateOpen(r))
       case RunFail => r.status != Completed
       case FinalCheck => r.status != Completed && (r.status == Running ==> Cleared(r, STAGES))
       case Complete => Cleared(r, STAGES)
       case _ => true
  }

  lemma FreshInv()
    ensures RunInv(FRESH)
  {
    assert Skipping(FRESH.stages, 0, 0);
  }

  lemma AtStage(r: Run, c: Choice)
    requires RunInv(r)
    requires r.pc.Skip? || r.pc.Start? || r.pc.Execute? || r.pc.StageFail?
    ensures RunInv(Step(r, c))
  {
    var i, r' := r.pc.i, Step(r, c);
    match r.pc
    case Skip(_) =>
      var a :| Skipping(r.stages, a, i);
      assert Skipping(r'.stages, a, i + 1);
    case Start(_) =>
      assert Stopped(r'.stages, i, StageRunning);
    case Execute(_) =>
      if c.outcome != Raised {
        assert Skipping(r'.stages, i + 1, i + 1);
      }
    case StageFail(_) =>
      assert Stopped(r'.stages, i, StageFailed);
  }

  /** Every worker step, whatever the callbacks and the disk do, keeps the invariant. */
  lemma StepKeepsInv(r: Run, c: Choice)
    requires RunInv(r)
    ensures RunInv(Step(r, c))
  {
    if r.pc.Skip? || r.pc.Start? || r.pc.Execute? || r.pc.StageFail? {
      AtStage(r, c);
    } else if r.pc == Spawned {
      assert Skipping(r.stages, 0, 0);
    } else if r.pc.Check? && r.pc.i < STAGES && r.status == Running {
      assert Skipping(r.stages, r.pc.i, r.pc.i);
    }
  }

  /** A cancel, too, wherever it lands. */
  lemma CancelKeepsInv(r: Run)
    requires RunInv(r)
    ensures RunInv(r.(status := Cancelled))
  {
    if r.pc.Check? {
      assert r.status == Running ==> Skipping(r.stages, r.pc.i, r.pc.i);
    }
  }

  predicate HasStarted(s: StageStatus) { s != StagePending && s != StageSkipped }

  /** Promotion or deployment has started only if every earlier stage is completed and the gate's
      `passed` was not False. */
  predicate Guarded(r: Run) {
    && |r.stages| == STAGES
    && forall i :: PROMOTION <= i < STAGES && HasStarted(r.stages[i]) ==>
         All(r.stages, 0, i, StageCompleted) && GateOpen(r)
  }

  lemma PromotionGuarded(r: Run)
    requires RunInv(r)
    ensures Guarded(r)
  {
    if a, j :| Skipping(r.stages, a, j) {
      assert forall i :: 0 <= i < STAGES && HasStarted(r.stages[i]) ==> i < a;
    } else {
      var a :| Stopped(r.stages, a, StageRunning) || Stopped(r.stages, a, StageFailed);
      assert forall i :: 0 <= i < STAGES && HasStarted(r.stages[i]) ==> i <= a;
    }
  }

  // ---------------------------------------------------------------------------
  // Cancelling one run
  // ---------------------------------------------------------------------------

  function Cancel(r: Run): Run { r.(status := Cancelled) }

  function Started(stages: seq<StageStatus>): nat {
    if stages == [] then 0
    else (if HasStarted(stages[0]) then 1 else 0) + Started(stages[1..])
  }

  lemma {:induction false} StartedUpdate(stages: seq<StageStatus>, i: nat, s: StageStatus)
    requires i < |stages|
    ensures Started(stages[i := s])
         == Started(stages) - (if HasStarted(stages[i]) then 1 else 0) + (if HasStarted(s) then 1 else 0)
  {
    if i > 0 {
      assert stages[i := s][1..] == stages[1..][i - 1 := s];
      StartedUpdate(stages[1..], i - 1, s);
    } else {
      assert stages[i := s][1..] == stages[1..];
    }
  }

  /** The positions at which the worker's next step overwrites the run's status unread. */
  predicate Overwrites(pc: Pc) { pc == Spawned || pc == Complete }

  /** The run can no longer complete. */
  predicate Doomed(r: Run) {
    (r.status == Cancelled || r.status == Failed) && !Overwrites(r.pc)
  }

  /** Stages started, counting the one the worker has already decided to start. */
  function Committed(r: Run): nat {
    Started(r.stages) + if r.pc.Start? then 1 else 0
  }

  /** Writing a stage's status changes the number of started stages as the one status does. */
  lemma CommittedKept(r: Run, c: Choice)
    requires RunInv(r) && Doomed(r)
    requires r.pc.Skip? || r.pc.Start? || r.pc.Execute? || r.pc.StageFail?
    ensures Committed(Step(r, c)) == Committed(r)
  {
    var i := r.pc.i;
    match r.pc
    case Skip(_) =>
      var a :| Skipping(r.stages, a, i);
      StartedUpdate(r.stages, i, StageSkipped);
    case Start(_) => StartedUpdate(r.stages, i, StageRunning);
    case Execute(_) => StartedUpdate(r.stages, i, StageCompleted);
    case StageFail(_) => StartedUpdate(r.stages, i, StageFailed);
  }

  lemma DoomedStep(r: Run, c: Choice)
    requires RunInv(r) && Doomed(r)
    ensures Doomed(Step(r, c)) && Committed(Step(r, c)) == Committed(r)
  {
    if r.pc.Skip? || r.pc.Start? || r.pc.Execute? || r.pc.StageFail? {
      CommittedKept(r, c);
    }
  }

  function Steps(r: Run, cs: seq<Choice>): Run
    decreases |cs|
  {
    if cs == [] then r else Steps(Step(r, cs[0]), cs[1..])
  }

  lemma {:induction false} DoomedSteps(r: Run, cs: seq<Choice>)
    requires RunInv(r) && Doomed(r)
    ensures Doomed(Steps(r, cs)) && Committed(Steps(r, cs)) == Committed(r)
    decreases |cs|
  {
    if cs != [] {
      StepKeepsInv(r, cs[0]);
      DoomedStep(r, cs[0]);
      DoomedSteps(Step(r, cs[0]), cs[1..]);
    }
  }

  ghost predicate CanComplete(r: Run) {
    exists cs :: Steps(r, cs).status == Completed
  }

  const GOOD := Choice(Returned(false), true)

  lemma {:induction false} StageByStage(r: Run, i: nat)
    requires i <= STAGES && r.pc == Check(i) && r.status == Running
    ensures CanComplete(r)
    decreases STAGES - i
  {
    if i == STAGES {
      var r1 := Step(r, GOOD);
      var r2 := Step(r1, GOOD);
      assert Step(r2, GOOD).status == Completed;
      assert Steps(Step(r2, GOOD), []).status == Completed;
      assert Steps(r2, [GOOD]).status == Completed;
      Prepend(r1, GOOD);
      Prepend(r, GOOD);
    } else {
      var r1 := Step(r, GOOD);
      var r2 := Step(r1, GOOD);
      var r3 := Step(r2, GOOD);
      var r4 := Step(r3, GOOD);
      StageByStage(r4, i + 1);
      Prepend(r3, GOOD);
      Prepend(r2, GOOD);
      Prepend(r1, GOOD);
      Prepend(r, GOOD);
    }
  }

  lemma Prepend(r: Run, c: Choice)
    requires CanComplete(Step(r, c))
    ensures CanComplete(r)
  {
    var cs :| Steps(Step(r, c), cs).status == Completed;
    assert ([c] + cs)[1..] == cs;
    assert Steps(r, [c] + cs).status == Completed;
  }

  /** A cancel of a run in flight rules completion out exactly when it does not land just before the
      worker's first or last write of the status; there, it is as if it had never happened. */
  lemma CancelEffective(r: Run)
    requires RunInv(r) && InFlight(r.pc)
    ensures CanComplete(Cancel(r)) <==> Overwrites(r.pc)
    ensures Overwrites(r.pc) ==> forall c :: Step(Cancel(r), c) == Step(r, c)
  {
    CancelKeepsInv(r);
    if r.pc == Spawned {
      StageByStage(Step(Cancel(r), GOOD), 0);
      Prepend(Cancel(r), GOOD);
    } else if r.pc == Complete {
      assert Steps(Step(Cancel(r), GOOD), []).status == Completed;
      Prepend(Cancel(r), GOOD);
    } else {
      forall cs ensures Steps(Cancel(r), cs).status != Completed {
        DoomedSteps(Cancel(r), cs);
      }
    }
  }

  // ---------------------------------------------------------------------------
  // All runs together
  // ---------------------------------------------------------------------------

  type RunId = string

  datatype System = System(
    runs: map<RunId, Run>,
    active: set<RunId>,
    completed: seq<RunId>,
    counter: nat)

  datatype Event = Trigger(id: RunId) | Work(id: RunId, choice: Choice) | CancelRun(id: RunId)

  const IDLE := System(map[], {}, [], 0)

  function RunningRuns(s: System): set<RunId> {
    set id | id in s.active && id in s.runs && s.runs[id].status == Running
  }

  /** Run ids are unique, and only runs that exist have a worker. */
  predicate Enabled(s: System, e: Event) {
    match e
    case Trigger(id) => id !in s.runs
    case Work(id, _) => id in s.runs
    case CancelRun(_) => true
  }

  /** One atomic step: `trigger_pipeline` (which raises at capacity), a worker step, `cancel_run`. */
  function Apply(maxParallel: nat, s: System, e: Event): System
    requires Enabled(s, e)
  {
    match e
    case Trigger(id) =>
      if |RunningRuns(s)| >= maxParallel then s
      else s.(runs := s.runs[id := FRESH], active := s.active + {id}, counter := s.counter + 1)
    case Work(id, choice) =>
      var r := s.runs[id];
      var s1 := s.(runs := s.runs[id := Step(r, choice)]);
      if r.pc == Move then s1.(active := s.active - {id}, completed := s.completed + [id]) else s1
    case CancelRun(id) =>
      if id in s.active && id in s.runs then s.(runs := s.runs[id := Cancel(s.runs[id])]) else s
  }

  ghost predicate Valid(maxParallel: nat, s: System, es: seq<Event>)
    decreases |es|
  {
    es != [] ==> Enabled(s, es[0]) && Valid(maxParallel, Apply(maxParallel, s, es[0]), es[1..])
  }

  function Execution(maxParallel: nat, s: System, es: seq<Event>): System
    requires Valid(maxParallel, s, es)
    decreases |es|
  {
    if es == [] then s else Execution(maxParallel, Apply(maxParallel, s, es[0]), es[1..])
  }

  ghost predicate Bookkeeping(s: System) {
    && (forall id :: id in s.active <==> id in s.runs && InFlight(s.runs[id].pc))
    && (forall id :: id in s.completed <==> id in s.runs && !InFlight(s.runs[id].pc))
    && NoDup(s.completed)
    && s.counter == |s.active| + |s.completed|
  }

  ghost predicate AllRuns(runs: map<RunId, Run>) {
    forall id :: id in runs ==> RunInv(runs[id])
  }

  ghost predicate SystemInv(s: System) {
    Bookkeeping(s) && AllRuns(s.runs)
  }

  lemma AllRunsUpdate(runs: map<RunId, Run>, id: RunId, r: Run)
    requires AllRuns(runs) && RunInv(r)
    ensures AllRuns(runs[id := r])
  {
  }

  lemma EventKeepsRuns(maxParallel: nat, s: System, e: Event)
    requires AllRuns(s.runs) && Enabled(s, e)
    ensures AllRuns(Apply(maxParallel, s, e).runs)
  {
    match e
    case Trigger(id) =>
      FreshInv();
      AllRunsUpdate(s.runs, id, FRESH);
    case CancelRun(id) =>
      if id in s.runs {
        CancelKeepsInv(s.runs[id]);
        AllRunsUpdate(s.runs, id, Cancel(s.runs[id]));
      }
    case Work(id, choice) =>
      StepKeepsInv(s.runs[id], choice);
      AllRunsUpdate(s.runs, id, Step(s.runs[id], choice));
  }

  lemma TriggerCounts(s: System, id: RunId)
    requires Bookkeeping(s) && id !in s.runs
    ensures Bookkeeping(s.(runs := s.runs[id := FRESH], active := s.active + {id}, counter := s.counter + 1))
  {
    assert id !in s.active && id !in s.completed;
    assert |s.active + {id}| == |s.active| + 1;
  }

  lemma MoveCounts(s: System, id: RunId, r: Run)
    requires Bookkeeping(s) && id in s.active && !InFlight(r.pc)
    ensures Bookkeeping(s.(runs := s.runs[id := r], active := s.active - {id}, completed := s.completed + [id]))
  {
    assert id !in s.completed;
    assert |s.active - {id}| == |s.active| - 1;
  }

  lemma UpdateCounts(s: System, id: RunId, r: Run)
    requires Bookkeeping(s) && id in s.runs && (InFlight(r.pc) <==> InFlight(s.runs[id].pc))
    ensures Bookkeeping(s.(runs := s.runs[id := r]))
  {
  }

  lemma StepInFlight(r: Run, c: Choice)
    ensures r.pc == Move ==> !InFlight(Step(r, c).pc)
    ensures r.pc != Move ==> (InFlight(Step(r, c).pc) <==> InFlight(r.pc))
  {
  }

  lemma EventCounts(maxParallel: nat, s: System, e: Event)
    requires Bookkeeping(s) && Enabled(s, e)
    ensures Bookkeeping(Apply(maxParallel, s, e))
  {
    match e
    case Trigger(id) =>
      TriggerCounts(s, id);
    case CancelRun(id) =>
      if id in s.active {
        UpdateCounts(s, id, Cancel(s.runs[id]));
      }
    case Work(id, choice) =>
      StepInFlight(s.runs[id], choice);
      if s.runs[id].pc == Move {
        MoveCounts(s, id, Step(s.runs[id], choice));
      } else {
        UpdateCounts(s, id, Step(s.runs[id], choice));
      }
  }

  lemma EventKeepsInv(maxParallel: nat, s: System, e: Event)
    requires SystemInv(s) && Enabled(s, e)
    ensures SystemInv(Apply(maxParallel, s, e))
  {
    EventKeepsRuns(maxParallel, s, e);
    EventCounts(maxParallel, s, e);
  }

  /** In every interleaving: the stage shape, the promotion guard, and a counter that equals active
      plus completed runs with the two disjoint. */
  lemma {:induction false} ExecutionSafe(maxParallel: nat, s: System, es: seq<Event>)
    requires SystemInv(s) && Valid(maxParallel, s, es)
    ensures SystemInv(Execution(maxParallel, s, es))
    decreases |es|
  {
    if es != [] {
      EventKeepsInv(maxParallel, s, es[0]);
      ExecutionSafe(maxParallel, Apply(maxParallel, s, es[0]), es[1..]);
    }
  }

  lemma AlwaysSafe(maxParallel: nat, es: seq<Event>)
    requires Valid(maxParallel, IDLE, es)
    ensures var s := Execution(maxParallel, IDLE, es);
            && s.counter == |s.active| + |s.completed|
            && s.active !! Elements(s.completed)
            && (forall id :: id in s.runs ==> Shape(s.runs[id].stages) && Guarded(s.runs[id]))
            && (forall id :: id in s.runs && s.runs[id].status == Completed ==> Cleared(s.runs[id], STAGES))
  {
    ExecutionSafe(maxParallel, IDLE, es);
    var s := Execution(maxParallel, IDLE, es);
    forall id | id in s.runs ensures Guarded(s.runs[id]) {
      PromotionGuarded(s.runs[id]);
    }
  }

  lemma DoomedEvent(maxParallel: nat, s: System, e: Event, id: RunId)
    requires SystemInv(s) && Enabled(s, e) && id in s.runs && Doomed(s.runs[id])
    ensures var s' := Apply(maxParallel, s, e);
            && id in s'.runs && Doomed(s'.runs[id])
            && Committed(s'.runs[id]) == Committed(s.runs[id])
  {
    if e.Work? && e.id == id {
      DoomedStep(s.runs[id], e.choice);
    }
  }

  lemma {:induction false} DoomedExecution(maxParallel: nat, s: System, es: seq<Event>, id: RunId)
    requires SystemInv(s) && Valid(maxParallel, s, es) && id in s.runs && Doomed(s.runs[id])
    ensures var s' := Execution(maxParallel, s, es);
            && id in s'.runs && Doomed(s'.runs[id])
            && Committed(s'.runs[id]) == Committed(s.runs[id])
    decreases |es|
  {
    if es != [] {
      EventKeepsInv(maxParallel, s, es[0]);
      DoomedEvent(maxParallel, s, es[0], id);
      DoomedExecution(maxParallel, Apply(maxParallel, s, es[0]), es[1..], id);
    }
  }

  /** Whatever happens after an effective cancel - other runs, further cancels, failing callbacks -
      the run is cancelled or failed ever after, and at most one more of its stages starts: the one
      the worker had already decided to start. */
  lemma CancelHolds(maxParallel: nat, s: System, id: RunId, es: seq<Event>)
    requires SystemInv(s) && id in s.active && !Overwrites(s.runs[id].pc)
    requires Valid(maxParallel, Apply(maxParallel, s, CancelRun(id)), es)
    ensures var r := s.runs[id];
            var s' := Execution(maxParallel, Apply(maxParallel, s, CancelRun(id)), es);
            && id in s'.runs
            && (s'.runs[id].status == Cancelled || s'.runs[id].status == Failed)
            && Started(s'.runs[id].stages) <= Started(r.stages) + (if r.pc.Start? then 1 else 0)
  {
    EventKeepsInv(maxParallel, s, CancelRun(id));
    DoomedExecution(maxParallel, Apply(maxParallel, s, CancelRun(id)), es, id);
  }

  // ---------------------------------------------------------------------------
  // Progress
  // ---------------------------------------------------------------------------

  function Rank(pc: Pc): nat {
    match pc
    case Spawned => 50
    case Check(i) => 10 + if i < STAGES then 4 * (STAGES - i) else 0
    case Skip(i) => 9 + if i < STAGES then 4 * (STAGES - i) else 0
    case Start(i) => 9 + if i < STAGES then 4 * (STAGES - i) else 0
    case Execute(i) => 8 + if i < STAGES then 4 * (STAGES - i) else 0
    case Judge(i, _) => 7 + if i < STAGES then 4 * (STAGES - i) else 0
    case StageFail(_) => 10
    case RunFail => 9
    case GateFail => 9
    case FinalCheck => 6
    case Complete => 5
    case Move => 4
    case Save => 3
    case SaveFail => 2
    case Done => 0
  }

  lemma StepLowersRank(r: Run, c: Choice)
    requires RunInv(r)
    ensures Rank(r.pc) <= 50 && (r.pc != Done ==> Rank(Step(r, c).pc) < Rank(r.pc))
  {
  }

  function OwnSteps(es: seq<Event>, id: RunId): nat {
    if es == [] then 0 else (if es[0].Work? && es[0].id == id then 1 else 0) + OwnSteps(es[1..], id)
  }

  /** No event raises a run's rank, and its worker's own steps lower it. */
  lemma EventLowersRank(maxParallel: nat, s: System, e: Event, id: RunId)
    requires SystemInv(s) && Enabled(s, e) && id in s.runs
    ensures var s' := Apply(maxParallel, s, e);
            && id in s'.runs && Rank(s'.runs[id].pc) <= Rank(s.runs[id].pc)
            && (e.Work? && e.id == id && s.runs[id].pc != Done ==> Rank(s'.runs[id].pc) < Rank(s.runs[id].pc))
  {
    if e.Work? && e.id == id {
      StepLowersRank(s.runs[id], e.choice);
    }
  }

  /** In every interleaving, a worker is done and its run is among the completed ones after at most
      fifty of its own steps, whatever cancels, other runs, callbacks and the disk do in between. */
  lemma {:induction false} WorkerFinishes(maxParallel: nat, s: System, es: seq<Event>, id: RunId)
    requires SystemInv(s) && Valid(maxParallel, s, es) && id in s.runs && OwnSteps(es, id) >= Rank(s.runs[id].pc)
    ensures Rank(s.runs[id].pc) <= 50
    ensures var s' := Execution(maxParallel, s, es); id in s'.runs && s'.runs[id].pc == Done && id in s'.completed
    decreases |es|
  {
    StepLowersRank(s.runs[id], GOOD);
    if es != [] {
      EventLowersRank(maxParallel, s, es[0], id);
      EventKeepsInv(maxParallel, s, es[0]);
      WorkerFinishes(maxParallel, Apply(maxParallel, s, es[0]), es[1..], id);
    }
  }
}
