/** The backtest job manager of python/backtest/bt_mod.py.  Each lock-protected section is one atomic
    event, so every interleaving of `submit_job`, `run_job` and `reset` calls is a sequence of events. */
module BacktestJobs {
  import opened Common

  type JobId = string

  datatype Status = PENDING | RUNNING | COMPLETED | FAILED

  /** A job object; the serial number is its identity. */
  datatype Job = Job(status: Status, estimate: real, serial: nat)

  /** Past its start section a `run_job` call is Open.  Completing a job whose memory record is gone
      raises KeyError, which takes the call on to the handler's section. */
  datatype Stage = Open | Raised | Closed

  /** A `run_job` call holds on to its job object. */
  datatype Call = Call(id: JobId, estimate: real, serial: nat, stage: Stage)

  datatype Cluster = Cluster(
    ids: seq<JobId>,                  // insertion order of the job dictionary
    jobs: map<JobId, Job>,
    queue: seq<JobId>,
    jobMemory: map<JobId, real>,
    usage: real,
    calls: seq<Call>,
    created: nat)                     // job objects so far

  datatype Limits = Limits(memory: real, concurrent: nat)

  const EMPTY := Cluster([], map[], [], map[], 0.0, [], 0)

  datatype Event =
    | Submit(id: JobId, estimate: real)
    | Start(id: JobId)
    | Complete(call: nat)
    | Fail(call: nat)
    | Reset

  // ---------------------------------------------------------------------------
  // Sums over the job dictionary
  // ---------------------------------------------------------------------------

  function Share(j: Job): real { if j.status == RUNNING then j.estimate else 0.0 }

  function Sum(ids: seq<JobId>, jobs: map<JobId, Job>): real {
    if ids == [] then 0.0
    else (if ids[0] in jobs then Share(jobs[ids[0]]) else 0.0) + Sum(ids[1..], jobs)
  }

  function RunningMemory(c: Cluster): real { Sum(c.ids, c.jobs) }

  function RunningJobs(c: Cluster): set<JobId> {
    set id | id in c.jobs && c.jobs[id].status == RUNNING
  }

  lemma {:induction false} SumElsewhere(ids: seq<JobId>, jobs: map<JobId, Job>, id: JobId, j: Job)
    requires id !in ids
    ensures Sum(ids, jobs[id := j]) == Sum(ids, jobs)
  {
    if ids != [] {
      SumElsewhere(ids[1..], jobs, id, j);
    }
  }

  lemma {:induction false} SumUpdate(ids: seq<JobId>, jobs: map<JobId, Job>, id: JobId, j: Job)
    requires NoDup(ids) && id in ids && id in jobs
    ensures Sum(ids, jobs[id := j]) == Sum(ids, jobs) - Share(jobs[id]) + Share(j)
  {
    var tail := ids[1..];
    assert forall i :: 0 <= i < |tail| ==> tail[i] == ids[i + 1];
    if ids[0] == id {
      SumElsewhere(tail, jobs, id, j);
    } else {
      SumUpdate(tail, jobs, id, j);
    }
  }

  lemma {:induction false} SumAppend(ids: seq<JobId>, jobs: map<JobId, Job>, id: JobId)
    requires id in jobs
    ensures Sum(ids + [id], jobs) == Sum(ids, jobs) + Share(jobs[id])
  {
    if ids == [] {
      assert ids + [id] == [id];
      assert [id][1..] == [];
    } else {
      assert (ids + [id])[1..] == ids[1..] + [id];
      SumAppend(ids[1..], jobs, id);
    }
  }

  // ---------------------------------------------------------------------------
  // Events
  // ---------------------------------------------------------------------------

  /** Estimates are sizes, and a call goes through each finish section at most once. */
  predicate Enabled(c: Cluster, e: Event) {
    match e
    case Submit(_, estimate) => estimate >= 0.0
    case Start(_) => true
    case Complete(k) => k < |c.calls| && c.calls[k].stage.Open?
    case Fail(k) => k < |c.calls| && !c.calls[k].stage.Closed?
    case Reset => true
  }

  /** A finish section updates the job object it holds, which the dictionary may have replaced since. */
  function FinishCall(c: Cluster, k: nat, failed: bool): Cluster
    requires k < |c.calls|
  {
    var call := c.calls[k];
    var stage := if !failed && call.id !in c.jobMemory then Raised else Closed;
    c.(jobs := if call.id in c.jobs && c.jobs[call.id].serial == call.serial
               then c.jobs[call.id := c.jobs[call.id].(status := if failed then FAILED else COMPLETED)] else c.jobs,
       usage := c.usage - call.estimate,
       jobMemory := c.jobMemory - {call.id},
       calls := c.calls[k := call.(stage := stage)])
  }

  function Apply(lim: Limits, c: Cluster, e: Event): Cluster
    requires Enabled(c, e)
  {
    match e
    case Submit(id, estimate) =>
      if c.usage + estimate > lim.memory then c        // MemoryError
      else c.(ids := if id in c.jobs then c.ids else c.ids + [id],
              jobs := c.jobs[id := Job(PENDING, estimate, c.created)],
              queue := c.queue + [id],
              jobMemory := c.jobMemory[id := estimate],
              created := c.created + 1)
    case Start(id) =>
      if id !in c.jobs || c.jobs[id].status != PENDING then c   // ValueError, or the stored results
      else
        var j := c.jobs[id];
        c.(jobs := c.jobs[id := j.(status := RUNNING)],
           usage := c.usage + j.estimate,
           calls := c.calls + [Call(id, j.estimate, j.serial, Open)])
    case Complete(k) => FinishCall(c, k, false)
    case Fail(k) => FinishCall(c, k, true)
    case Reset => c.(ids := [], jobs := map[], queue := [], jobMemory := map[], usage := 0.0)
  }

  predicate ShouldAccept(lim: Limits, c: Cluster, estimate: real) {
    |RunningJobs(c)| < lim.concurrent && c.usage + estimate <= lim.memory
  }

  ghost predicate Valid(lim: Limits, c: Cluster, es: seq<Event>)
    decreases |es|
  {
    es != [] ==> Enabled(c, es[0]) && Valid(lim, Apply(lim, c, es[0]), es[1..])
  }

  function Execution(lim: Limits, c: Cluster, es: seq<Event>): Cluster
    requires Valid(lim, c, es)
    decreases |es|
  {
    if es == [] then c else Execution(lim, Apply(lim, c, es[0]), es[1..])
  }

  // ---------------------------------------------------------------------------
  // Invariant
  // ---------------------------------------------------------------------------

  ghost predicate Keyed(c: Cluster) {
    && NoDup(c.ids) && (forall id :: id in c.ids <==> id in c.jobs)
    && (forall id :: id in c.jobs ==> id in c.queue && c.jobs[id].estimate >= 0.0)
  }

  /** `_job_memory` holds exactly the PENDING and RUNNING ids, with their estimates. */
  ghost predicate MemoryKeys(c: Cluster) {
    && (forall id :: id in c.jobMemory <==>
         id in c.jobs && (c.jobs[id].status == PENDING || c.jobs[id].status == RUNNING))
    && (forall id :: id in c.jobMemory && id in c.jobs ==> c.jobMemory[id] == c.jobs[id].estimate)
  }

  /** Open calls and RUNNING jobs are in one-to-one correspondence, and no release is repeated. */
  ghost predicate CallsMatch(c: Cluster) {
    && (forall k :: 0 <= k < |c.calls| ==> !c.calls[k].stage.Raised?)
    && (forall k :: 0 <= k < |c.calls| && c.calls[k].stage.Open? ==>
          c.calls[k].id in c.jobs && c.jobs[c.calls[k].id] == Job(RUNNING, c.calls[k].estimate, c.calls[k].serial))
    && (forall k, l :: 0 <= k < l < |c.calls| && c.calls[k].stage.Open? && c.calls[l].stage.Open? ==>
         c.calls[k].id != c.calls[l].id)
    && (forall id :: id in c.jobs && c.jobs[id].status == RUNNING ==>
         exists k :: 0 <= k < |c.calls| && c.calls[k].stage.Open? && c.calls[k].id == id)
  }

  ghost predicate Inv(c: Cluster) {
    Keyed(c) && MemoryKeys(c) && CallsMatch(c) && c.usage == RunningMemory(c)
  }

  /** No live id is resubmitted, and nothing runs when the manager is reset. */
  predicate Orderly(lim: Limits, c: Cluster, e: Event) {
    match e
    case Submit(id, estimate) => c.usage + estimate <= lim.memory ==> id !in RunningJobs(c)
    case Reset => RunningJobs(c) == {}
    case _ => true
  }

  lemma SubmitCalls(lim: Limits, c: Cluster, id: JobId, estimate: real)
    requires CallsMatch(c) && Enabled(c, Submit(id, estimate)) && Orderly(lim, c, Submit(id, estimate))
    ensures CallsMatch(Apply(lim, c, Submit(id, estimate)))
  {
    var c' := Apply(lim, c, Submit(id, estimate));
    assert forall x :: x in c'.jobs && c'.jobs[x].status == RUNNING ==> x in c.jobs && c.jobs[x].status == RUNNING;
  }

  lemma SubmitSum(lim: Limits, c: Cluster, id: JobId, estimate: real)
    requires Keyed(c) && Enabled(c, Submit(id, estimate)) && Orderly(lim, c, Submit(id, estimate))
    ensures RunningMemory(Apply(lim, c, Submit(id, estimate))) == RunningMemory(c)
  {
    var j := Job(PENDING, estimate, c.created);
    if id in c.jobs {
      SumUpdate(c.ids, c.jobs, id, j);
    } else {
      SumElsewhere(c.ids, c.jobs, id, j);
      SumAppend(c.ids, c.jobs[id := j], id);
    }
  }

  /** The dictionary, its order and the queue agree after every event, orderly or not. */
  lemma EventKeepsKeyed(lim: Limits, c: Cluster, e: Event)
    requires Keyed(c) && Enabled(c, e)
    ensures Keyed(Apply(lim, c, e))
  {
  }

  lemma SubmitKeys(lim: Limits, c: Cluster, id: JobId, estimate: real)
    requires Keyed(c) && MemoryKeys(c) && Enabled(c, Submit(id, estimate))
    ensures Keyed(Apply(lim, c, Submit(id, estimate))) && MemoryKeys(Apply(lim, c, Submit(id, estimate)))
  {
  }

  lemma SubmitKeeps(lim: Limits, c: Cluster, id: JobId, estimate: real)
    requires Inv(c) && Enabled(c, Submit(id, estimate)) && Orderly(lim, c, Submit(id, estimate))
    ensures Inv(Apply(lim, c, Submit(id, estimate)))
  {
    SubmitSum(lim, c, id, estimate);
    SubmitKeys(lim, c, id, estimate);
    SubmitCalls(lim, c, id, estimate);
  }

  lemma StartCalls(lim: Limits, c: Cluster, id: JobId)
    requires CallsMatch(c) && id in c.jobs && c.jobs[id].status == PENDING
    ensures CallsMatch(Apply(lim, c, Start(id)))
  {
    var c' := Apply(lim, c, Start(id));
    forall x | x in c'.jobs && c'.jobs[x].status == RUNNING
      ensures exists k :: 0 <= k < |c'.calls| && c'.calls[k].stage.Open? && c'.calls[k].id == x
    {
      if x == id {
        assert c'.calls[|c.calls|].stage.Open? && c'.calls[|c.calls|].id == id;
      } else {
        var k :| 0 <= k < |c.calls| && c.calls[k].stage.Open? && c.calls[k].id == x;
        assert c'.calls[k] == c.calls[k];
      }
    }
  }

  lemma StartKeys(lim: Limits, c: Cluster, id: JobId)
    requires Keyed(c) && MemoryKeys(c)
    ensures Keyed(Apply(lim, c, Start(id))) && MemoryKeys(Apply(lim, c, Start(id)))
  {
  }

  lemma StartKeeps(lim: Limits, c: Cluster, id: JobId)
    requires Inv(c)
    ensures Inv(Apply(lim, c, Start(id)))
  {
    if id in c.jobs && c.jobs[id].status == PENDING {
      SumUpdate(c.ids, c.jobs, id, c.jobs[id].(status := RUNNING));
      StartKeys(lim, c, id);
      StartCalls(lim, c, id);
    }
  }

  /** In a state that accounts, a finish finds its own job and its memory record. */
  lemma FinishFinds(c: Cluster, k: nat, failed: bool)
    requires MemoryKeys(c) && CallsMatch(c) && k < |c.calls| && c.calls[k].stage.Open?
    ensures var call := c.calls[k];
            && call.id in c.jobMemory
            && call.id in c.jobs && c.jobs[call.id] == Job(RUNNING, call.estimate, call.serial)
            && FinishCall(c, k, failed) ==
                 c.(jobs := c.jobs[call.id := c.jobs[call.id].(status := if failed then FAILED else COMPLETED)],
                    usage := c.usage - call.estimate,
                    jobMemory := c.jobMemory - {call.id},
                    calls := c.calls[k := call.(stage := Closed)])
  {
  }

  lemma FinishCalls(c: Cluster, k: nat, failed: bool)
    requires MemoryKeys(c) && CallsMatch(c) && k < |c.calls| && c.calls[k].stage.Open?
    ensures CallsMatch(FinishCall(c, k, failed))
  {
    FinishFinds(c, k, failed);
    var c' := FinishCall(c, k, failed);
    forall x | x in c'.jobs && c'.jobs[x].status == RUNNING
      ensures exists l :: 0 <= l < |c'.calls| && c'.calls[l].stage.Open? && c'.calls[l].id == x
    {
      var l :| 0 <= l < |c.calls| && c.calls[l].stage.Open? && c.calls[l].id == x;
      assert c'.calls[l] == c.calls[l];
    }
  }

  lemma FinishKeys(c: Cluster, k: nat, failed: bool)
    requires Keyed(c) && MemoryKeys(c) && CallsMatch(c) && k < |c.calls| && c.calls[k].stage.Open?
    ensures Keyed(FinishCall(c, k, failed)) && MemoryKeys(FinishCall(c, k, failed))
  {
    FinishFinds(c, k, failed);
  }

  lemma FinishKeeps(c: Cluster, k: nat, failed: bool)
    requires Inv(c) && k < |c.calls| && c.calls[k].stage.Open?
    ensures Inv(FinishCall(c, k, failed))
  {
    var id := c.calls[k].id;
    FinishFinds(c, k, failed);
    SumUpdate(c.ids, c.jobs, id, c.jobs[id].(status := if failed then FAILED else COMPLETED));
    FinishKeys(c, k, failed);
    FinishCalls(c, k, failed);
  }

  lemma ResetKeeps(lim: Limits, c: Cluster)
    requires Inv(c) && RunningJobs(c) == {}
    ensures Inv(Apply(lim, c, Reset))
  {
    assert forall k :: 0 <= k < |c.calls| && c.calls[k].stage.Open? ==> c.calls[k].id in RunningJobs(c);
  }

  /** An open call whose job is replaced or cleared is left without its RUNNING job. */
  lemma DisorderBreaks(lim: Limits, c: Cluster, e: Event)
    requires Inv(c) && Enabled(c, e) && !Orderly(lim, c, e)
    ensures !CallsMatch(Apply(lim, c, e))
  {
    var id :| id in RunningJobs(c) && (e.Submit? ==> id == e.id);
    var k :| 0 <= k < |c.calls| && c.calls[k].stage.Open? && c.calls[k].id == id;
    assert Apply(lim, c, e).calls[k] == c.calls[k];
  }

  /** An event keeps the accounting if and only if it is orderly. */
  lemma EventKeepsInv(lim: Limits, c: Cluster, e: Event)
    requires Inv(c) && Enabled(c, e)
    ensures Inv(Apply(lim, c, e)) <==> Orderly(lim, c, e)
  {
    if !Orderly(lim, c, e) {
      DisorderBreaks(lim, c, e);
    } else {
      match e
      case Submit(id, estimate) => SubmitKeeps(lim, c, id, estimate);
      case Start(id) => StartKeeps(lim, c, id);
      case Complete(k) => FinishKeeps(c, k, false);
      case Fail(k) => FinishKeeps(c, k, true);
      case Reset => ResetKeeps(lim, c);
    }
  }

  /** What each method promises of the manager before and after an event. */
  ghost predicate Kept(lim: Limits, c: Cluster, e: Event, c': Cluster) {
    (Keyed(c) ==> Keyed(c')) && (Inv(c) ==> (Inv(c') <==> Orderly(lim, c, e)))
  }

  lemma EventKeeps(lim: Limits, c: Cluster, e: Event)
    requires Enabled(c, e)
    ensures Kept(lim, c, e, Apply(lim, c, e))
  {
    if Keyed(c) {
      EventKeepsKeyed(lim, c, e);
    }
    if Inv(c) {
      EventKeepsInv(lim, c, e);
    }
  }

  ghost predicate AlwaysAccounts(lim: Limits, c: Cluster, es: seq<Event>)
    requires Valid(lim, c, es)
    decreases |es|
  {
    Inv(c) && (es != [] ==> AlwaysAccounts(lim, Apply(lim, c, es[0]), es[1..]))
  }

  ghost predicate AllOrderly(lim: Limits, c: Cluster, es: seq<Event>)
    requires Valid(lim, c, es)
    decreases |es|
  {
    es != [] ==> Orderly(lim, c, es[0]) && AllOrderly(lim, Apply(lim, c, es[0]), es[1..])
  }

  /** In every interleaving, tracked memory is the sum over RUNNING jobs, `_job_memory` tracks exactly
      the live ids, and every start is released by exactly one finish, all along the run, if and only
      if no live id is ever resubmitted and nothing runs at any reset. */
  lemma {:induction false} AccountsExactly(lim: Limits, c: Cluster, es: seq<Event>)
    requires Inv(c) && Valid(lim, c, es)
    ensures AlwaysAccounts(lim, c, es) <==> AllOrderly(lim, c, es)
    decreases |es|
  {
    if es != [] {
      EventKeepsInv(lim, c, es[0]);
      if Orderly(lim, c, es[0]) {
        AccountsExactly(lim, Apply(lim, c, es[0]), es[1..]);
      } else {
        BrokenAtOnce(lim, Apply(lim, c, es[0]), es[1..]);
      }
    }
  }

  lemma BrokenAtOnce(lim: Limits, c: Cluster, es: seq<Event>)
    requires !Inv(c) && Valid(lim, c, es)
    ensures !AlwaysAccounts(lim, c, es)
  {
  }

  lemma FirstEvent(lim: Limits, c: Cluster, e: Event, rest: seq<Event>)
    requires Enabled(c, e) && Valid(lim, Apply(lim, c, e), rest)
    ensures Valid(lim, c, [e] + rest) && Execution(lim, c, [e] + rest) == Execution(lim, Apply(lim, c, e), rest)
  {
    assert ([e] + rest)[1..] == rest;
  }

  /** The manager after job "a" was started, resubmitted and completed. */
  function Resubmitted(estimate: real): Cluster {
    Cluster(["a"], map["a" := Job(PENDING, estimate, 1)], ["a", "a"], map[], 0.0, [Call("a", estimate, 0, Closed)], 2)
  }

  lemma ResubmittedReached(lim: Limits, estimate: real, rest: seq<Event>)
    requires 0.0 < estimate && 2.0 * estimate <= lim.memory && Valid(lim, Resubmitted(estimate), rest)
    ensures var es := [Submit("a", estimate)] + ([Start("a")] + ([Submit("a", estimate)] + ([Complete(0)] + rest)));
            Valid(lim, EMPTY, es) && Execution(lim, EMPTY, es) == Execution(lim, Resubmitted(estimate), rest)
  {
    var submit, start := Submit("a", estimate), Start("a");
    var c1 := Apply(lim, EMPTY, submit);
    var c2 := Apply(lim, c1, start);
    var c3 := Apply(lim, c2, submit);
    assert Apply(lim, c3, Complete(0)) == Resubmitted(estimate);
    FirstEvent(lim, c3, Complete(0), rest);
    FirstEvent(lim, c2, submit, [Complete(0)] + rest);
    FirstEvent(lim, c1, start, [submit] + ([Complete(0)] + rest));
    FirstEvent(lim, EMPTY, submit, [start] + ([submit] + ([Complete(0)] + rest)));
  }

  lemma ReleasedTwice(lim: Limits, estimate: real)
    ensures var es := [Start("a"), Complete(1), Fail(1)];
            Valid(lim, Resubmitted(estimate), es) && Execution(lim, Resubmitted(estimate), es).usage == -estimate
  {
    var c5 := Apply(lim, Resubmitted(estimate), Start("a"));
    assert c5.usage == estimate && c5.calls[1] == Call("a", estimate, 1, Open);
    var c6 := Apply(lim, c5, Complete(1));
    assert c6.usage == 0.0 && c6.calls[1] == Call("a", estimate, 1, Raised);
    FirstEvent(lim, c6, Fail(1), []);
    FirstEvent(lim, c5, Complete(1), [Fail(1)]);
    FirstEvent(lim, Resubmitted(estimate), Start("a"), [Complete(1), Fail(1)]);
  }

  /** A resubmission while the job runs ends in a double release: usage goes negative. */
  lemma LiveResubmissionOverReleases(lim: Limits, estimate: real)
    requires 0.0 < estimate && 2.0 * estimate <= lim.memory
    ensures var es := [Submit("a", estimate), Start("a"), Submit("a", estimate), Complete(0),
                       Start("a"), Complete(1), Fail(1)];
            Valid(lim, EMPTY, es) && Execution(lim, EMPTY, es).usage == -estimate
  {
    ReleasedTwice(lim, estimate);
    var rest := [Start("a"), Complete(1), Fail(1)];
    ResubmittedReached(lim, estimate, rest);
    assert [Submit("a", estimate)] + ([Start("a")] + ([Submit("a", estimate)] + ([Complete(0)] + rest)))
        == [Submit("a", estimate), Start("a"), Submit("a", estimate), Complete(0), Start("a"), Complete(1), Fail(1)];
  }

  // ---------------------------------------------------------------------------
  // Limits
  // ---------------------------------------------------------------------------

  /** Starts a job that is accepted under the same lock hold, if it starts one at all. */
  predicate GatedEvent(lim: Limits, c: Cluster, e: Event) {
    e.Start? && e.id in c.jobs && c.jobs[e.id].status == PENDING ==> ShouldAccept(lim, c, c.jobs[e.id].estimate)
  }

  ghost predicate Gated(lim: Limits, c: Cluster, es: seq<Event>)
    requires Valid(lim, c, es)
    decreases |es|
  {
    es != [] ==> GatedEvent(lim, c, es[0]) && Gated(lim, Apply(lim, c, es[0]), es[1..])
  }

  ghost predicate WithinLimits(lim: Limits, c: Cluster) {
    c.usage <= lim.memory && |RunningJobs(c)| <= lim.concurrent
  }

  ghost predicate AlwaysWithin(lim: Limits, c: Cluster, es: seq<Event>)
    requires Valid(lim, c, es)
    decreases |es|
  {
    WithinLimits(lim, c) && (es != [] ==> AlwaysWithin(lim, Apply(lim, c, es[0]), es[1..]))
  }

  ghost predicate NonNegative(c: Cluster) {
    && (forall id :: id in c.jobs ==> c.jobs[id].estimate >= 0.0)
    && (forall k :: 0 <= k < |c.calls| ==> c.calls[k].estimate >= 0.0)
  }

  lemma EventNonNegative(lim: Limits, c: Cluster, e: Event)
    requires NonNegative(c) && Enabled(c, e)
    ensures NonNegative(Apply(lim, c, e))
  {
  }

  lemma StartRuns(lim: Limits, c: Cluster, id: JobId)
    requires id in c.jobs && c.jobs[id].status == PENDING
    ensures var c' := Apply(lim, c, Start(id));
            |RunningJobs(c')| == |RunningJobs(c)| + 1 && c'.usage == c.usage + c.jobs[id].estimate
  {
    assert RunningJobs(Apply(lim, c, Start(id))) == RunningJobs(c) + {id};
  }

  lemma OthersRunNoMore(lim: Limits, c: Cluster, e: Event)
    requires Enabled(c, e) && !e.Start?
    ensures |RunningJobs(Apply(lim, c, e))| <= |RunningJobs(c)|
  {
    var c' := Apply(lim, c, e);
    assert RunningJobs(c') <= RunningJobs(c);
    assert RunningJobs(c) == RunningJobs(c') + (RunningJobs(c) - RunningJobs(c'));
  }

  /** From a state within the limits, one event leaves them if and only if it is an ungated start. */
  lemma EventWithinIffGated(lim: Limits, c: Cluster, e: Event)
    requires NonNegative(c) && lim.memory >= 0.0 && WithinLimits(lim, c) && Enabled(c, e)
    ensures WithinLimits(lim, Apply(lim, c, e)) <==> GatedEvent(lim, c, e)
  {
    if e.Start? {
      if e.id in c.jobs && c.jobs[e.id].status == PENDING {
        StartRuns(lim, c, e.id);
      }
    } else {
      OthersRunNoMore(lim, c, e);
    }
  }

  lemma ExceedsAtOnce(lim: Limits, c: Cluster, es: seq<Event>)
    requires !WithinLimits(lim, c) && Valid(lim, c, es)
    ensures !AlwaysWithin(lim, c, es)
  {
  }

  /** Over whole runs - orderly or not - usage and concurrency stay within their limits at every step if
      and only if every start is gated by should_accept_job under its lock hold. */
  lemma {:induction false} WithinIffGated(lim: Limits, c: Cluster, es: seq<Event>)
    requires NonNegative(c) && lim.memory >= 0.0 && WithinLimits(lim, c) && Valid(lim, c, es)
    ensures AlwaysWithin(lim, c, es) <==> Gated(lim, c, es)
    decreases |es|
  {
    if es != [] {
      var c' := Apply(lim, c, es[0]);
      EventWithinIffGated(lim, c, es[0]);
      EventNonNegative(lim, c, es[0]);
      if GatedEvent(lim, c, es[0]) {
        WithinIffGated(lim, c', es[1..]);
      } else {
        ExceedsAtOnce(lim, c', es[1..]);
      }
    }
  }

  /** Ungated, the memory limit can be exceeded: `submit_job` checks an estimate against what runs now
      but reserves nothing, so two jobs that each fit alone are both accepted and both run. */
  lemma UngatedExceeds(lim: Limits, estimate: real)
    requires 0.0 < estimate <= lim.memory < 2.0 * estimate
    ensures var es := [Submit("a", estimate), Submit("b", estimate), Start("a"), Start("b")];
            Valid(lim, EMPTY, es) && Execution(lim, EMPTY, es).usage > lim.memory
  {
    var c1 := Apply(lim, EMPTY, Submit("a", estimate));
    var c2 := Apply(lim, c1, Submit("b", estimate));
    var c3 := Apply(lim, c2, Start("a"));
    assert Apply(lim, c3, Start("b")).usage == 2.0 * estimate;
    FirstEvent(lim, c3, Start("b"), []);
    FirstEvent(lim, c2, Start("a"), [Start("b")]);
    FirstEvent(lim, c1, Submit("b", estimate), [Start("a"), Start("b")]);
    FirstEvent(lim, EMPTY, Submit("a", estimate), [Submit("b", estimate), Start("a"), Start("b")]);
  }

  ghost function RunningAmong(ids: seq<JobId>, jobs: map<JobId, Job>): set<JobId> {
    set id | id in ids && id in jobs && jobs[id].status == RUNNING
  }

  lemma RunningStep(ids: seq<JobId>, jobs: map<JobId, Job>, i: nat)
    requires NoDup(ids) && i < |ids| && ids[i] in jobs
    ensures |RunningAmong(ids[..i + 1], jobs)|
         == |RunningAmong(ids[..i], jobs)| + if jobs[ids[i]].status == RUNNING then 1 else 0
  {
    var id := ids[i];
    assert ids[..i + 1] == ids[..i] + [id];
    assert id !in RunningAmong(ids[..i], jobs);
    assert RunningAmong(ids[..i + 1], jobs)
        == RunningAmong(ids[..i], jobs) + if jobs[id].status == RUNNING then {id} else {};
  }

  /** Both, from the empty manager on. */
  lemma RunsFromEmpty(lim: Limits, es: seq<Event>)
    requires lim.memory >= 0.0 && Valid(lim, EMPTY, es)
    ensures AlwaysAccounts(lim, EMPTY, es) <==> AllOrderly(lim, EMPTY, es)
    ensures AlwaysWithin(lim, EMPTY, es) <==> Gated(lim, EMPTY, es)
  {
    assert RunningJobs(EMPTY) == {};
    AccountsExactly(lim, EMPTY, es);
    WithinIffGated(lim, EMPTY, es);
  }

  // ---------------------------------------------------------------------------
  // What the manager holds, from the history of events
  // ---------------------------------------------------------------------------

  datatype Submission = Submission(id: JobId, estimate: real)

  /** The submissions accepted since the last reset, in order; `done` are those before. */
  function SubmittedAlong(lim: Limits, c: Cluster, es: seq<Event>, done: seq<Submission>): seq<Submission>
    requires Valid(lim, c, es)
    decreases |es|
  {
    if es == [] then done
    else
      var next :=
        match es[0]
        case Submit(id, estimate) =>
          if c.usage + estimate <= lim.memory then done + [Submission(id, estimate)] else done
        case Reset => []
        case _ => done;
      SubmittedAlong(lim, Apply(lim, c, es[0]), es[1..], next)
  }

  /** `k` is the last submission under this id. */
  ghost predicate LastSubmission(subs: seq<Submission>, id: JobId, k: nat) {
    k < |subs| && subs[k].id == id && forall j :: k < j < |subs| ==> subs[j].id != id
  }

  /** The queue is the submissions in order, and each job the last submission under its id. */
  ghost predicate HoldsSubmissions(c: Cluster, subs: seq<Submission>) {
    && |c.queue| == |subs| && (forall k :: 0 <= k < |subs| ==> c.queue[k] == subs[k].id)
    && (forall id :: id in c.jobs ==>
          exists k: nat :: LastSubmission(subs, id, k) && c.jobs[id].estimate == subs[k].estimate)
    && (forall k :: 0 <= k < |subs| ==> subs[k].id in c.jobs)
  }

  lemma LastSubmissionStep(subs: seq<Submission>, sub: Submission, id: JobId, k: nat)
    ensures LastSubmission(subs + [sub], id, k) <==> if sub.id == id then k == |subs| else LastSubmission(subs, id, k)
  {
    var longer := subs + [sub];
    assert forall j :: 0 <= j < |subs| ==> longer[j] == subs[j];
    assert longer[|subs|] == sub;
  }

  lemma SubmitHolds(lim: Limits, c: Cluster, id: JobId, estimate: real, subs: seq<Submission>)
    requires HoldsSubmissions(c, subs) && estimate >= 0.0 && c.usage + estimate <= lim.memory
    ensures HoldsSubmissions(Apply(lim, c, Submit(id, estimate)), subs + [Submission(id, estimate)])
  {
    var c', sub := Apply(lim, c, Submit(id, estimate)), Submission(id, estimate);
    var longer := subs + [sub];
    forall x | x in c'.jobs
      ensures exists k: nat :: LastSubmission(longer, x, k) && c'.jobs[x].estimate == longer[k].estimate
    {
      if x == id {
        LastSubmissionStep(subs, sub, x, |subs|);
      } else {
        var k: nat :| LastSubmission(subs, x, k) && c.jobs[x].estimate == subs[k].estimate;
        LastSubmissionStep(subs, sub, x, k);
        assert longer[k] == subs[k];
      }
    }
  }

  /** Starts and finishes change no job's identity and no call's. */
  ghost predicate SameObjects(c: Cluster, c': Cluster) {
    && c'.jobs.Keys == c.jobs.Keys && c'.queue == c.queue && c'.created == c.created
    && (forall id :: id in c.jobs ==>
          c'.jobs[id].serial == c.jobs[id].serial && c'.jobs[id].estimate == c.jobs[id].estimate)
    && |c'.calls| == |c.calls|
    && (forall k :: 0 <= k < |c.calls| ==> c'.calls[k].serial == c.calls[k].serial && c'.calls[k].id == c.calls[k].id)
  }

  lemma FinishSameObjects(c: Cluster, k: nat, failed: bool)
    requires k < |c.calls|
    ensures SameObjects(c, FinishCall(c, k, failed))
  {
  }

  lemma SameJobsHold(c: Cluster, c': Cluster, subs: seq<Submission>)
    requires HoldsSubmissions(c, subs) && c'.jobs.Keys == c.jobs.Keys && c'.queue == c.queue
    requires forall id :: id in c.jobs ==> c'.jobs[id].estimate == c.jobs[id].estimate
    ensures HoldsSubmissions(c', subs)
  {
    forall x | x in c'.jobs
      ensures exists k: nat :: LastSubmission(subs, x, k) && c'.jobs[x].estimate == subs[k].estimate
    {
      var k: nat :| LastSubmission(subs, x, k) && c.jobs[x].estimate == subs[k].estimate;
      assert LastSubmission(subs, x, k) && c'.jobs[x].estimate == subs[k].estimate;
    }
  }

  lemma OtherHolds(lim: Limits, c: Cluster, e: Event, subs: seq<Submission>)
    requires HoldsSubmissions(c, subs) && Enabled(c, e) && (e.Start? || e.Complete? || e.Fail?)
    ensures HoldsSubmissions(Apply(lim, c, e), subs)
  {
    if !e.Start? {
      FinishSameObjects(c, e.call, e.Fail?);
    }
    SameJobsHold(c, Apply(lim, c, e), subs);
  }

  /** In every run the queue is the accepted submissions since the last reset, in order, and a job is what was
      last submitted under its id. */
  lemma {:induction false} QueueIsSubmissions(lim: Limits, c: Cluster, es: seq<Event>, done: seq<Submission>)
    requires Valid(lim, c, es) && HoldsSubmissions(c, done)
    ensures HoldsSubmissions(Execution(lim, c, es), SubmittedAlong(lim, c, es, done))
    decreases |es|
  {
    if es != [] {
      var c' := Apply(lim, c, es[0]);
      match es[0]
      case Submit(id, estimate) =>
        if c.usage + estimate <= lim.memory {
          SubmitHolds(lim, c, id, estimate, done);
          QueueIsSubmissions(lim, c', es[1..], done + [Submission(id, estimate)]);
        } else {
          QueueIsSubmissions(lim, c', es[1..], done);
        }
      case Reset => QueueIsSubmissions(lim, c', es[1..], []);
      case _ =>
        OtherHolds(lim, c, es[0], done);
        QueueIsSubmissions(lim, c', es[1..], done);
    }
  }

  /** The status that an event gives the job object `serial`: its start makes it RUNNING, and each finish section
      of a call that holds it COMPLETED or FAILED. */
  function NextStatus(c: Cluster, e: Event, serial: nat, status: Status): Status
    requires Enabled(c, e)
  {
    match e
    case Start(id) => if id in c.jobs && c.jobs[id].serial == serial && status == PENDING then RUNNING else status
    case Complete(k) => if c.calls[k].serial == serial then COMPLETED else status
    case Fail(k) => if c.calls[k].serial == serial then FAILED else status
    case _ => status
  }

  function StatusAlong(lim: Limits, c: Cluster, es: seq<Event>, serial: nat, status: Status): Status
    requires Valid(lim, c, es)
    decreases |es|
  {
    if es == [] then status
    else StatusAlong(lim, Apply(lim, c, es[0]), es[1..], serial, NextStatus(c, es[0], serial, status))
  }

  /** Job objects are numbered as they are made, and a call holds an object made under its id. */
  ghost predicate Numbered(c: Cluster) {
    && (forall id :: id in c.jobs ==> c.jobs[id].serial < c.created)
    && (forall k :: 0 <= k < |c.calls| ==> c.calls[k].serial < c.created)
    && (forall id, x :: id in c.jobs && x in c.jobs && id != x ==> c.jobs[id].serial != c.jobs[x].serial)
    && (forall k, id :: 0 <= k < |c.calls| && id in c.jobs && c.calls[k].serial == c.jobs[id].serial ==>
          c.calls[k].id == id)
  }

  /** The object `serial`, if it is in the dictionary, has this status; one not made yet would be PENDING. */
  ghost predicate HasStatus(c: Cluster, serial: nat, status: Status) {
    && (forall id :: id in c.jobs && c.jobs[id].serial == serial ==> c.jobs[id].status == status)
    && (serial >= c.created ==> status == PENDING)
  }

  lemma SubmitNumbers(lim: Limits, c: Cluster, id: JobId, estimate: real)
    requires Numbered(c) && estimate >= 0.0
    ensures Numbered(Apply(lim, c, Submit(id, estimate)))
  {
  }

  lemma StartNumbers(lim: Limits, c: Cluster, id: JobId)
    requires Numbered(c)
    ensures Numbered(Apply(lim, c, Start(id)))
  {
  }

  lemma SameNumbers(c: Cluster, c': Cluster)
    requires Numbered(c) && SameObjects(c, c')
    ensures Numbered(c')
  {
  }

  lemma EventKeepsNumbered(lim: Limits, c: Cluster, e: Event)
    requires Numbered(c) && Enabled(c, e)
    ensures Numbered(Apply(lim, c, e))
  {
    match e
    case Submit(id, estimate) => SubmitNumbers(lim, c, id, estimate);
    case Start(id) => StartNumbers(lim, c, id);
    case Complete(k) =>
      FinishSameObjects(c, k, false);
      SameNumbers(c, FinishCall(c, k, false));
    case Fail(k) =>
      FinishSameObjects(c, k, true);
      SameNumbers(c, FinishCall(c, k, true));
    case Reset =>
  }

  lemma StatusStep(lim: Limits, c: Cluster, e: Event, serial: nat, status: Status)
    requires Enabled(c, e) && Numbered(c) && HasStatus(c, serial, status)
    ensures HasStatus(Apply(lim, c, e), serial, NextStatus(c, e, serial, status))
  {
  }

  /** Every job in the dictionary has the status that its own start and finishes gave it. */
  lemma {:induction false} StatusFromHistory(lim: Limits, c: Cluster, es: seq<Event>, serial: nat, status: Status)
    requires Valid(lim, c, es) && Numbered(c) && HasStatus(c, serial, status)
    ensures HasStatus(Execution(lim, c, es), serial, StatusAlong(lim, c, es, serial, status))
    decreases |es|
  {
    if es != [] {
      EventKeepsNumbered(lim, c, es[0]);
      StatusStep(lim, c, es[0], serial, status);
      StatusFromHistory(lim, Apply(lim, c, es[0]), es[1..], serial, NextStatus(c, es[0], serial, status));
    }
  }

  /** Both from the empty manager on. */
  lemma HistoryFromEmpty(lim: Limits, es: seq<Event>, id: JobId)
    requires Valid(lim, EMPTY, es)
    ensures var c := Execution(lim, EMPTY, es);
            && HoldsSubmissions(c, SubmittedAlong(lim, EMPTY, es, []))
            && (id in c.jobs ==> c.jobs[id].status == StatusAlong(lim, EMPTY, es, c.jobs[id].serial, PENDING))
  {
    QueueIsSubmissions(lim, EMPTY, es, []);
    var c := Execution(lim, EMPTY, es);
    if id in c.jobs {
      StatusFromHistory(lim, EMPTY, es, c.jobs[id].serial, PENDING);
    }
  }

  // ---------------------------------------------------------------------------
  // The class
  // ---------------------------------------------------------------------------

  class BacktestClusterManager {
    const limits: Limits
    var ids: seq<JobId>
    var jobs: map<JobId, Job>
    var jobQueue: seq<JobId>
    var jobMemory: map<JobId, real>
    var currentUsage: real
    var created: nat                  // job objects so far
    ghost var calls: seq<Call>        // the `run_job` activations, which live on the callers' stacks

    ghost function View(): Cluster
      reads this
    {
      Cluster(ids, jobs, jobQueue, jobMemory, currentUsage, calls, created)
    }

    constructor (limits: Limits)
      ensures View() == EMPTY && Keyed(View()) && Inv(View()) && this.limits == limits
    {
      this.limits := limits;
      ids, jobs, jobQueue, jobMemory, currentUsage, calls, created := [], map[], [], map[], 0.0, [], 0;
    }

    /** Returns false where the source raises MemoryError. */
    method SubmitJob(id: JobId, estimate: real) returns (accepted: bool)
      requires estimate >= 0.0
      modifies this
      ensures View() == Apply(limits, old(View()), Submit(id, estimate))
      ensures accepted <==> old(currentUsage) + estimate <= limits.memory
      ensures Kept(limits, old(View()), Submit(id, estimate), View())
    {
      ghost var before := View();
      accepted := currentUsage + estimate <= limits.memory;
      if accepted {
        if id !in jobs {
          ids := ids + [id];
        }
        jobs := jobs[id := Job(PENDING, estimate, created)];
        jobQueue := jobQueue + [id];
        jobMemory := jobMemory[id := estimate];
        created := created + 1;
      }
      EventKeeps(limits, before, Submit(id, estimate));
    }

    /** The start section of `run_job`; the job object stays with the caller. */
    method BeginJob(id: JobId) returns (started: bool, estimate: real, serial: nat, ghost call: nat)
      modifies this
      ensures View() == Apply(limits, old(View()), Start(id))
      ensures started <==> id in old(jobs) && old(jobs)[id].status == PENDING
      ensures started ==> call < |calls| && calls[call] == Call(id, estimate, serial, Open)
      ensures Kept(limits, old(View()), Start(id), View())
    {
      ghost var before := View();
      started, estimate, serial, call := false, 0.0, 0, 0;
      if id in jobs && jobs[id].status == PENDING {
        started, estimate, serial, call := true, jobs[id].estimate, jobs[id].serial, |calls|;
        jobs := jobs[id := jobs[id].(status := RUNNING)];
        currentUsage := currentUsage + estimate;
        calls := calls + [Call(id, estimate, serial, Open)];
      }
      EventKeeps(limits, before, Start(id));
    }

    method SetStatus(id: JobId, serial: nat, status: Status)
      modifies `jobs
      ensures jobs == if id in old(jobs) && old(jobs)[id].serial == serial
                      then old(jobs)[id := old(jobs)[id].(status := status)] else old(jobs)
    {
      if id in jobs && jobs[id].serial == serial {
        jobs := jobs[id := jobs[id].(status := status)];
      }
    }

    /** The section that ends a job's execution.  Returns false where deleting the memory record raises
        KeyError, which is caught by the handler below. */
    method CompleteJob(id: JobId, estimate: real, serial: nat, ghost call: nat) returns (recorded: bool)
      requires call < |calls| && calls[call] == Call(id, estimate, serial, Open)
      modifies this
      ensures View() == Apply(limits, old(View()), Complete(call))
      ensures recorded <==> calls[call].stage.Closed?
      ensures Kept(limits, old(View()), Complete(call), View())
      ensures old(Inv(View())) ==> recorded
    {
      ghost var before := View();
      SetStatus(id, serial, COMPLETED);
      currentUsage := currentUsage - estimate;
      recorded := id in jobMemory;
      jobMemory := jobMemory - {id};
      calls := calls[call := Call(id, estimate, serial, if recorded then Closed else Raised)];
      EventKeeps(limits, before, Complete(call));
    }

    /** The exception handler's section. */
    method FailJob(id: JobId, estimate: real, serial: nat, ghost call: nat)
      requires call < |calls| && !calls[call].stage.Closed?
      requires calls[call] == Call(id, estimate, serial, calls[call].stage)
      modifies this
      ensures View() == Apply(limits, old(View()), Fail(call))
      ensures Kept(limits, old(View()), Fail(call), View())
    {
      ghost var before := View();
      SetStatus(id, serial, FAILED);
      currentUsage := currentUsage - estimate;
      jobMemory := jobMemory - {id};
      calls := calls[call := Call(id, estimate, serial, Closed)];
      EventKeeps(limits, before, Fail(call));
    }

    /** `reset`, as far as jobs and memory go. */
    method Reset()
      modifies this
      ensures View() == Apply(limits, old(View()), Event.Reset)
      ensures Kept(limits, old(View()), Event.Reset, View())
    {
      ghost var before := View();
      ids, jobs, jobQueue, jobMemory, currentUsage := [], map[], [], map[], 0.0;
      EventKeeps(limits, before, Event.Reset);
    }

    method ShouldAcceptJob(estimate: real) returns (accept: bool)
      requires Keyed(View())
      ensures accept <==> ShouldAccept(limits, View(), estimate)
    {
      var running := 0;
      for i := 0 to |ids|
        invariant running == |RunningAmong(ids[..i], jobs)|
      {
        RunningStep(ids, jobs, i);
        if jobs[ids[i]].status == RUNNING {
          running := running + 1;
        }
      }
      assert ids[..|ids|] == ids;
      assert RunningAmong(ids, jobs) == RunningJobs(View());
      accept := running < limits.concurrent && currentUsage + estimate <= limits.memory;
    }

    /** The first pending id in queue order; none exactly when no job is pending. */
    method GetNextPendingJob() returns (r: Option<JobId>)
      requires Keyed(View())
      ensures r.None? <==> forall id :: id in jobs ==> jobs[id].status != PENDING
      ensures r.Some? ==> exists i ::
                && 0 <= i < |jobQueue| && jobQueue[i] == r.value && r.value in jobs && jobs[r.value].status == PENDING
                && forall k :: 0 <= k < i ==> jobQueue[k] !in jobs || jobs[jobQueue[k]].status != PENDING
    {
      var i := 0;
      while i < |jobQueue|
        invariant 0 <= i <= |jobQueue|
        invariant forall k :: 0 <= k < i ==> jobQueue[k] !in jobs || jobs[jobQueue[k]].status != PENDING
      {
        if jobQueue[i] in jobs && jobs[jobQueue[i]].status == PENDING {
          return Some(jobQueue[i]);
        }
        i := i + 1;
      }
      r := None;
    }
  }
}
