/** The trade journaler of python/audit/trade_journaler.py: producers, a batching writer task and
    `stop`, interleaved at their awaits. */
module TradeJournal {

  /** Where an accepted event ended up. */
  datatype Fate = OnDisk | WriteFailed | Abandoned

  datatype Settled<E> = Settled(event: E, fate: Fate)

  /** The writer task, at one of its awaits: the sleep, with a batch in hand; inside `_write_batch`,
      with the part of the batch not written yet; or cancelled. */
  datatype Writer<E> = Sleeping(batch: seq<E>) | Writing(rest: seq<E>) | Ended

  /** `stop`: before its cancel, before the drain of `_flush_queue`, writing what was drained, done. */
  datatype Stop<E> = Serving | Cancelled | Flushing(rest: seq<E>) | Stopped

  datatype Config = Config(queueMax: nat, batchSize: nat)

  /** `settled`, `accepted` and the cut (the abandoned stretch of `settled`) are history. */
  datatype Journal<E> = Journal(
    queue: seq<E>,
    disk: seq<E>,
    writer: Writer<E>,
    stop: Stop<E>,
    eventsWritten: nat,
    eventsDropped: nat,
    accepted: seq<E>,
    settled: seq<Settled<E>>,
    cutFrom: nat,
    cutTo: nat)

  datatype Event<E> =
    | Enqueue(event: E)       // `_queue_event`
    | Round(flush: bool)      // the loop body up to its next await; `flush`: the interval has passed
    | WriteOne                // one line of the batch
    | WriteDone               // `_write_batch` returns
    | WriteFails              // ... after logging an exception
    | Cancel(landed: bool)    // `stop` cancels the writer task; `landed`: the line in flight still reaches the file
    | Drain                   // the loop of `_flush_queue`
    | FlushOne
    | FlushDone
    | FlushFails

  function Start<E>(): Journal<E> {
    Journal([], [], Sleeping([]), Serving, 0, 0, [], [], 0, 0)
  }

  /** An asyncio queue with a maximum of 0 is unbounded. */
  predicate Full<E>(cfg: Config, j: Journal<E>) { cfg.queueMax > 0 && |j.queue| >= cfg.queueMax }

  predicate Enabled<E>(j: Journal<E>, e: Event<E>) {
    match e
    case Enqueue(_) => true
    case Round(_) => j.writer.Sleeping? && j.stop.Serving?
    case WriteOne => j.writer.Writing? && j.writer.rest != []
    case WriteDone => j.writer.Writing? && j.writer.rest == []
    case WriteFails => j.writer.Writing?
    case Cancel(_) => j.stop.Serving?
    case Drain => j.stop.Cancelled?
    case FlushOne => j.stop.Flushing? && j.stop.rest != []
    case FlushDone => j.stop.Flushing? && j.stop.rest == []
    case FlushFails => j.stop.Flushing?
  }

  /** How many queued events top the batch up. */
  function Takes(batch: nat, batchSize: nat, queued: nat): (n: nat)
    ensures n <= queued && (batch <= batchSize ==> batch + n <= batchSize)
  {
    if batch >= batchSize then 0 else if batchSize - batch < queued then batchSize - batch else queued
  }

  function Mark<E>(es: seq<E>, fate: Fate): (r: seq<Settled<E>>)
    ensures |r| == |es| && forall i :: 0 <= i < |r| ==> r[i] == Settled(es[i], fate)
  {
    seq(|es|, i requires 0 <= i < |es| => Settled(es[i], fate))
  }

  function InHand<E>(j: Journal<E>): seq<E> {
    match j.writer
    case Sleeping(batch) => batch
    case Writing(rest) => rest
    case Ended => []
  }

  function Flushed<E>(j: Journal<E>): seq<E> {
    if j.stop.Flushing? then j.stop.rest else []
  }

  /** Accepted and not settled yet, in order. */
  function Unsettled<E>(j: Journal<E>): seq<E> {
    InHand(j) + (Flushed(j) + j.queue)
  }

  function WriteLine<E>(j: Journal<E>): Journal<E>
    requires j.writer.Writing? && j.writer.rest != []
  {
    var x := j.writer.rest[0];
    j.(disk := j.disk + [x], settled := j.settled + [Settled(x, OnDisk)], writer := Writing(j.writer.rest[1..]))
  }

  /** The writer task ends with its batch in hand. */
  function Abandon<E>(j: Journal<E>): Journal<E> {
    j.(settled := j.settled + Mark(InHand(j), Abandoned), writer := Ended, stop := Cancelled,
       cutFrom := |j.settled|, cutTo := |j.settled| + |InHand(j)|)
  }

  /** The state at which a cancel catches the writer, once the line in flight is decided. */
  function Caught<E>(j: Journal<E>, landed: bool): Journal<E> {
    if landed && j.writer.Writing? && j.writer.rest != [] then WriteLine(j) else j
  }

  function Apply<E>(cfg: Config, j: Journal<E>, e: Event<E>): Journal<E>
    requires Enabled(j, e)
  {
    match e
    case Enqueue(event) =>
      if Full(cfg, j) then j.(eventsDropped := j.eventsDropped + 1)
      else j.(queue := j.queue + [event], eventsWritten := j.eventsWritten + 1, accepted := j.accepted + [event])
    case Round(flush) =>
      var n := Takes(|j.writer.batch|, cfg.batchSize, |j.queue|);
      var batch := j.writer.batch + j.queue[..n];
      j.(queue := j.queue[n..],
         writer := if batch != [] && (|batch| >= cfg.batchSize || flush) then Writing(batch) else Sleeping(batch))
    case WriteOne => WriteLine(j)
    case WriteDone => j.(writer := Sleeping([]))
    case WriteFails => j.(settled := j.settled + Mark(j.writer.rest, WriteFailed), writer := Sleeping([]))
    case Cancel(landed) => Abandon(Caught(j, landed))
    case Drain => j.(stop := Flushing(j.queue), queue := [])
    case FlushOne =>
      var x := j.stop.rest[0];
      j.(disk := j.disk + [x], settled := j.settled + [Settled(x, OnDisk)], stop := Flushing(j.stop.rest[1..]))
    case FlushDone => j.(stop := Stopped)
    case FlushFails => j.(settled := j.settled + Mark(j.stop.rest, WriteFailed), stop := Stopped)
  }

  ghost predicate Valid<E>(cfg: Config, j: Journal<E>, es: seq<Event<E>>)
    decreases |es|
  {
    es != [] ==> Enabled(j, es[0]) && Valid(cfg, Apply(cfg, j, es[0]), es[1..])
  }

  function Execution<E>(cfg: Config, j: Journal<E>, es: seq<Event<E>>): Journal<E>
    requires Valid(cfg, j, es)
    decreases |es|
  {
    if es == [] then j else Execution(cfg, Apply(cfg, j, es[0]), es[1..])
  }

  // ---------------------------------------------------------------------------
  // Invariant
  // ---------------------------------------------------------------------------

  function Events<E>(s: seq<Settled<E>>): (r: seq<E>)
    ensures |r| == |s| && forall i :: 0 <= i < |r| ==> r[i] == s[i].event
  {
    seq(|s|, i requires 0 <= i < |s| => s[i].event)
  }

  function Kept<E>(s: seq<Settled<E>>): seq<E> {
    if s == [] then []
    else Kept(s[..|s| - 1]) + (if s[|s| - 1].fate == OnDisk then [s[|s| - 1].event] else [])
  }

  lemma KeptAppend<E>(s: seq<Settled<E>>, x: Settled<E>)
    ensures Kept(s + [x]) == Kept(s) + (if x.fate == OnDisk then [x.event] else [])
  {
    assert (s + [x])[..|s|] == s;
  }

  lemma {:induction false} KeptLost<E>(s: seq<Settled<E>>, lost: seq<Settled<E>>)
    requires forall i :: 0 <= i < |lost| ==> lost[i].fate != OnDisk
    ensures Kept(s + lost) == Kept(s)
    decreases |lost|
  {
    if lost == [] {
      assert s + lost == s;
    } else {
      var init, x := lost[..|lost| - 1], lost[|lost| - 1];
      KeptLost(s, init);
      KeptAppend(s + init, x);
      assert s + lost == (s + init) + [x];
    }
  }

  lemma {:induction false} KeptAll<E>(s: seq<Settled<E>>)
    requires forall i :: 0 <= i < |s| ==> s[i].fate == OnDisk
    ensures Kept(s) == Events(s)
  {
    if s != [] {
      KeptAll(s[..|s| - 1]);
      assert Events(s) == Events(s[..|s| - 1]) + [s[|s| - 1].event];
    }
  }

  /** Every accepted event is in exactly one place, in the order of acceptance: settled, in the
      writer's hand, drained for the final flush, or queued; and the disk is what was settled there. */
  ghost predicate Conserved<E>(j: Journal<E>) {
    && j.accepted == Events(j.settled) + Unsettled(j)
    && j.disk == Kept(j.settled)
    && j.eventsWritten == |j.accepted|
  }

  ghost predicate Bounded<E>(cfg: Config, j: Journal<E>) {
    && (cfg.queueMax > 0 ==> |j.queue| <= cfg.queueMax)
    && (j.writer.Sleeping? ==> j.writer.batch == [] || |j.writer.batch| < cfg.batchSize)
    && (j.writer.Writing? ==> |j.writer.rest| <= cfg.batchSize)
    && (j.stop.Serving? <==> !j.writer.Ended?)
  }

  /** Exactly the stretch between the cut marks was abandoned. */
  ghost predicate CutMarked<E>(j: Journal<E>) {
    && j.cutFrom <= j.cutTo <= |j.settled|
    && (forall k :: 0 <= k < |j.settled| ==> (j.settled[k].fate == Abandoned <==> j.cutFrom <= k < j.cutTo))
    && (j.stop.Serving? ==> j.cutFrom == j.cutTo == 0)
  }

  ghost predicate Inv<E>(cfg: Config, j: Journal<E>) {
    Conserved(j) && Bounded(cfg, j) && CutMarked(j)
  }

  lemma ConservedLost<E>(j: Journal<E>, lost: seq<E>, fate: Fate, j': Journal<E>)
    requires Conserved(j) && fate != OnDisk
    requires j'.settled == j.settled + Mark(lost, fate) && j'.disk == j.disk
    requires lost + Unsettled(j') == Unsettled(j)
    requires j'.accepted == j.accepted && j'.eventsWritten == j.eventsWritten
    ensures Conserved(j')
  {
    KeptLost(j.settled, Mark(lost, fate));
    assert Events(j'.settled) == Events(j.settled) + lost;
    assert Events(j.settled) + (lost + Unsettled(j')) == Events(j.settled) + lost + Unsettled(j');
  }

  lemma ConservedKept<E>(j: Journal<E>, x: E, j': Journal<E>)
    requires Conserved(j)
    requires j'.settled == j.settled + [Settled(x, OnDisk)] && j'.disk == j.disk + [x]
    requires [x] + Unsettled(j') == Unsettled(j)
    requires j'.accepted == j.accepted && j'.eventsWritten == j.eventsWritten
    ensures Conserved(j')
  {
    KeptAppend(j.settled, Settled(x, OnDisk));
    assert Events(j'.settled) == Events(j.settled) + [x];
    assert Events(j.settled) + ([x] + Unsettled(j')) == Events(j.settled) + [x] + Unsettled(j');
  }

  lemma Regroup<E>(batch: seq<E>, queue: seq<E>, n: nat)
    requires n <= |queue|
    ensures (batch + queue[..n]) + ([] + queue[n..]) == batch + ([] + queue)
  {
  }

  lemma RoundKeepsOrder<E>(cfg: Config, j: Journal<E>, flush: bool)
    requires Enabled(j, Round(flush))
    ensures Unsettled(Apply(cfg, j, Round(flush))) == Unsettled(j)
  {
    var j' := Apply(cfg, j, Round(flush));
    var n := Takes(|j.writer.batch|, cfg.batchSize, |j.queue|);
    Regroup(j.writer.batch, j.queue, n);
    assert InHand(j') == j.writer.batch + j.queue[..n] && Flushed(j') == [] && j'.queue == j.queue[n..];
  }

  lemma EnqueueKeepsOrder<E>(cfg: Config, j: Journal<E>, event: E)
    requires Conserved(j)
    ensures Conserved(Apply(cfg, j, Enqueue(event)))
  {
    if !Full(cfg, j) {
      assert Unsettled(Apply(cfg, j, Enqueue(event))) == Unsettled(j) + [event];
      assert Events(j.settled) + (Unsettled(j) + [event]) == Events(j.settled) + Unsettled(j) + [event];
    }
  }

  lemma LineConserves<E>(j: Journal<E>)
    requires Conserved(j) && j.writer.Writing? && j.writer.rest != []
    ensures Conserved(WriteLine(j))
  {
    assert [j.writer.rest[0]] + Unsettled(WriteLine(j)) == Unsettled(j);
    ConservedKept(j, j.writer.rest[0], WriteLine(j));
  }

  lemma AbandonConserves<E>(c: Journal<E>)
    requires Conserved(c) && c.stop.Serving?
    ensures Conserved(Abandon(c))
  {
    var j' := Abandon(c);
    assert Unsettled(j') == Flushed(c) + c.queue;
    ConservedLost(c, InHand(c), Abandoned, j');
  }

  lemma CancelConserves<E>(cfg: Config, j: Journal<E>, landed: bool)
    requires Conserved(j) && Enabled(j, Cancel(landed))
    ensures Conserved(Apply(cfg, j, Cancel(landed)))
  {
    if Caught(j, landed) != j {
      LineConserves(j);
    }
    AbandonConserves(Caught(j, landed));
  }

  lemma FlushConserves<E>(cfg: Config, j: Journal<E>, e: Event<E>)
    requires Conserved(j) && Bounded(cfg, j) && Enabled(j, e)
    requires e.Drain? || e.FlushOne? || e.FlushDone? || e.FlushFails?
    ensures Conserved(Apply(cfg, j, e))
  {
    var j' := Apply(cfg, j, e);
    if e.FlushOne? {
      assert [j.stop.rest[0]] + Unsettled(j') == Unsettled(j);
      ConservedKept(j, j.stop.rest[0], j');
    } else if e.FlushFails? {
      assert j.stop.rest + Unsettled(j') == Unsettled(j);
      ConservedLost(j, j.stop.rest, WriteFailed, j');
    } else {
      assert Unsettled(j') == Unsettled(j);
    }
  }

  lemma WriteConserves<E>(cfg: Config, j: Journal<E>, e: Event<E>)
    requires Conserved(j) && Bounded(cfg, j) && Enabled(j, e) && (e.WriteOne? || e.WriteDone? || e.WriteFails?)
    ensures Conserved(Apply(cfg, j, e))
  {
    var j' := Apply(cfg, j, e);
    if e.WriteOne? {
      LineConserves(j);
    } else if e.WriteFails? {
      assert j.writer.rest + Unsettled(j') == Unsettled(j);
      ConservedLost(j, j.writer.rest, WriteFailed, j');
    } else {
      assert Unsettled(j') == Unsettled(j);
    }
  }

  lemma EventConserves<E>(cfg: Config, j: Journal<E>, e: Event<E>)
    requires Conserved(j) && Bounded(cfg, j) && Enabled(j, e)
    ensures Conserved(Apply(cfg, j, e))
  {
    match e
    case Enqueue(event) => EnqueueKeepsOrder(cfg, j, event);
    case Round(flush) => RoundKeepsOrder(cfg, j, flush);
    case Cancel(landed) => CancelConserves(cfg, j, landed);
    case WriteOne => WriteConserves(cfg, j, e);
    case WriteDone => WriteConserves(cfg, j, e);
    case WriteFails => WriteConserves(cfg, j, e);
    case Drain => FlushConserves(cfg, j, e);
    case FlushOne => FlushConserves(cfg, j, e);
    case FlushDone => FlushConserves(cfg, j, e);
    case FlushFails => FlushConserves(cfg, j, e);
  }

  lemma EventBounded<E>(cfg: Config, j: Journal<E>, e: Event<E>)
    requires Bounded(cfg, j) && Enabled(j, e)
    ensures Bounded(cfg, Apply(cfg, j, e))
  {
  }

  lemma EventKeepsCut<E>(cfg: Config, j: Journal<E>, e: Event<E>)
    requires Bounded(cfg, j) && CutMarked(j) && Enabled(j, e)
    ensures CutMarked(Apply(cfg, j, e))
  {
  }

  /** In every interleaving the accepted events are accounted for, in order. */
  lemma {:induction false} ExecutionConserves<E>(cfg: Config, j: Journal<E>, es: seq<Event<E>>)
    requires Inv(cfg, j) && Valid(cfg, j, es)
    ensures Inv(cfg, Execution(cfg, j, es))
    decreases |es|
  {
    if es != [] {
      EventConserves(cfg, j, es[0]);
      EventBounded(cfg, j, es[0]);
      EventKeepsCut(cfg, j, es[0]);
      ExecutionConserves(cfg, Apply(cfg, j, es[0]), es[1..]);
    }
  }

  // ---------------------------------------------------------------------------
  // Corollaries
  // ---------------------------------------------------------------------------

  ghost predicate WritesSucceeded<E>(j: Journal<E>) {
    forall k :: 0 <= k < |j.settled| ==> j.settled[k].fate != WriteFailed
  }

  lemma {:induction false} KeptShorter<E>(s: seq<Settled<E>>)
    ensures |Kept(s)| <= |s|
    ensures |Kept(s)| == |s| <==> forall i :: 0 <= i < |s| ==> s[i].fate == OnDisk
  {
    if s != [] {
      KeptShorter(s[..|s| - 1]);
    }
  }

  /** Anything settled elsewhere than on the disk is missing there. */
  lemma FailureMisses<E>(j: Journal<E>)
    requires Conserved(j) && !WritesSucceeded(j)
    ensures |j.accepted| > |j.disk| + |Unsettled(j)|
  {
    KeptShorter(j.settled);
  }

  /** While the journaler serves, disk, batch and queue are the accepted events, in order, if and only
      if no write has failed. */
  lemma NothingMissingWhileServing<E>(cfg: Config, es: seq<Event<E>>)
    requires Valid(cfg, Start<E>(), es)
    ensures var j := Execution(cfg, Start<E>(), es);
            j.stop.Serving? ==> (j.accepted == j.disk + (InHand(j) + j.queue) <==> WritesSucceeded(j))
  {
    ExecutionConserves(cfg, Start<E>(), es);
    var j := Execution(cfg, Start<E>(), es);
    if j.stop.Serving? {
      assert Unsettled(j) == InHand(j) + j.queue;
      if WritesSucceeded(j) {
        KeptAll(j.settled);
      } else {
        FailureMisses(j);
      }
    }
  }

  lemma {:induction false} KeptAroundCut<E>(s: seq<Settled<E>>, a: nat, b: nat)
    requires a <= b <= |s|
    requires forall k :: 0 <= k < |s| ==> s[k].fate == if a <= k < b then Abandoned else OnDisk
    ensures Kept(s) == Events(s[..a]) + Events(s[b..])
    decreases |s|
  {
    if |s| == b {
      assert s == s[..a] + s[a..];
      KeptLost(s[..a], s[a..]);
      KeptAll(s[..a]);
      assert Events(s[b..]) == [];
    } else {
      var init, x := s[..|s| - 1], s[|s| - 1];
      KeptAroundCut(init, a, b);
      assert init[..a] == s[..a];
      assert s[b..] == init[b..] + [x];
      assert Events(s[b..]) == Events(init[b..]) + [x.event];
    }
  }

  lemma EventsOfParts<E>(s: seq<Settled<E>>, a: nat, b: nat)
    requires a <= b <= |s|
    ensures Events(s) == Events(s[..a]) + Events(s[a..b]) + Events(s[b..])
  {
  }

  /** The disk is the accepted events without one stretch and without what is still queued. */
  ghost predicate MissingOnly<E>(j: Journal<E>, before: seq<E>, missing: seq<E>, after: seq<E>) {
    j.disk == before + after && j.accepted == before + missing + after + j.queue
  }

  lemma StoppedMissing<E>(cfg: Config, j: Journal<E>)
    requires Inv(cfg, j) && j.stop.Stopped? && WritesSucceeded(j)
    ensures MissingOnly(j, Events(j.settled[..j.cutFrom]), Events(j.settled[j.cutFrom..j.cutTo]),
                        Events(j.settled[j.cutTo..]))
  {
    KeptAroundCut(j.settled, j.cutFrom, j.cutTo);
    EventsOfParts(j.settled, j.cutFrom, j.cutTo);
    assert Unsettled(j) == j.queue;
  }

  /** The stretch between the cut marks is `hand`. */
  ghost predicate CutIs<E>(j: Journal<E>, hand: seq<E>) {
    j.cutFrom <= j.cutTo <= |j.settled| && Events(j.settled[j.cutFrom..j.cutTo]) == hand
  }

  lemma CutSurvives<E>(j: Journal<E>, j': Journal<E>, hand: seq<E>)
    requires CutIs(j, hand) && j.settled <= j'.settled && j'.cutFrom == j.cutFrom && j'.cutTo == j.cutTo
    ensures CutIs(j', hand)
  {
    assert j'.settled[j.cutFrom..j.cutTo] == j.settled[j.cutFrom..j.cutTo];
  }

  /** After the cancel the cut stays where it is. */
  lemma {:induction false} CutPersists<E>(cfg: Config, j: Journal<E>, es: seq<Event<E>>, hand: seq<E>)
    requires Bounded(cfg, j) && !j.stop.Serving? && Valid(cfg, j, es) && CutIs(j, hand)
    ensures CutIs(Execution(cfg, j, es), hand)
    decreases |es|
  {
    if es != [] {
      EventBounded(cfg, j, es[0]);
      CutSurvives(j, Apply(cfg, j, es[0]), hand);
      CutPersists(cfg, Apply(cfg, j, es[0]), es[1..], hand);
    }
  }

  lemma AbandonCuts<E>(c: Journal<E>)
    ensures CutIs(Abandon(c), InHand(c))
  {
    var j' := Abandon(c);
    assert j'.settled[j'.cutFrom..j'.cutTo] == Mark(InHand(c), Abandoned);
  }

  lemma CancelCutsHand<E>(cfg: Config, j: Journal<E>, landed: bool)
    requires Inv(cfg, j) && j.stop.Serving?
    ensures var c := Apply(cfg, j, Cancel(landed));
            Inv(cfg, c) && !c.stop.Serving? && CutIs(c, InHand(Caught(j, landed)))
  {
    EventConserves(cfg, j, Cancel(landed));
    EventBounded(cfg, j, Cancel(landed));
    EventKeepsCut(cfg, j, Cancel(landed));
    AbandonCuts(Caught(j, landed));
  }

  lemma NothingMissingIff<E>(j: Journal<E>, before: seq<E>, missing: seq<E>, after: seq<E>)
    requires MissingOnly(j, before, missing, after)
    ensures j.accepted == j.disk + j.queue <==> missing == []
  {
    if missing == [] {
      assert before + missing + after == before + after;
    } else {
      assert |j.accepted| == |j.disk| + |missing| + |j.queue|;
    }
  }

  /** What a stop with successful writes loses, given the stretch that was cut. */
  lemma StoppedLosesCut<E>(cfg: Config, r: Journal<E>, hand: seq<E>)
    requires Inv(cfg, r) && r.stop.Stopped? && WritesSucceeded(r) && CutIs(r, hand)
    ensures exists before, after :: MissingOnly(r, before, hand, after)
    ensures r.accepted == r.disk + r.queue <==> hand == []
  {
    StoppedMissing(cfg, r);
    var before, after := Events(r.settled[..r.cutFrom]), Events(r.settled[r.cutTo..]);
    assert MissingOnly(r, before, hand, after);
    NothingMissingIff(r, before, hand, after);
  }

  /** The event accepted by this step after the drain, if any. */
  function LateArrival<E>(cfg: Config, j: Journal<E>, e: Event<E>): seq<E> {
    var room := cfg.queueMax == 0 || |j.queue| < cfg.queueMax;
    if e.Enqueue? && room && !j.stop.Serving? && !j.stop.Cancelled? then [e.event] else []
  }

  /** The events accepted after the drain. */
  function LateArrivals<E>(cfg: Config, j: Journal<E>, es: seq<Event<E>>): seq<E>
    requires Valid(cfg, j, es)
    decreases |es|
  {
    if es == [] then [] else LateArrival(cfg, j, es[0]) + LateArrivals(cfg, Apply(cfg, j, es[0]), es[1..])
  }

  lemma QueueStep<E>(cfg: Config, j: Journal<E>, e: Event<E>)
    requires Bounded(cfg, j) && Enabled(j, e) && (j.stop.Flushing? || j.stop.Stopped?)
    ensures Apply(cfg, j, e).queue == j.queue + LateArrival(cfg, j, e)
    ensures Apply(cfg, j, e).stop.Flushing? || Apply(cfg, j, e).stop.Stopped?
  {
  }

  /** After the drain nothing leaves the queue. */
  lemma {:induction false} QueueAfterDrain<E>(cfg: Config, j: Journal<E>, es: seq<Event<E>>)
    requires Bounded(cfg, j) && Valid(cfg, j, es) && (j.stop.Flushing? || j.stop.Stopped?)
    ensures Execution(cfg, j, es).queue == j.queue + LateArrivals(cfg, j, es)
    decreases |es|
  {
    if es != [] {
      EventBounded(cfg, j, es[0]);
      QueueStep(cfg, j, es[0]);
      QueueAfterDrain(cfg, Apply(cfg, j, es[0]), es[1..]);
    }
  }

  /** What a stop leaves in the queue is exactly what was accepted after its drain. */
  lemma {:induction false} DrainEmpties<E>(cfg: Config, j: Journal<E>, es: seq<Event<E>>)
    requires Bounded(cfg, j) && Valid(cfg, j, es) && j.stop.Cancelled? && Execution(cfg, j, es).stop.Stopped?
    ensures Execution(cfg, j, es).queue == LateArrivals(cfg, j, es)
    decreases |es|
  {
    EventBounded(cfg, j, es[0]);
    if es[0].Drain? {
      QueueAfterDrain(cfg, Apply(cfg, j, es[0]), es[1..]);
    } else {
      DrainEmpties(cfg, Apply(cfg, j, es[0]), es[1..]);
    }
  }

  /** Wherever a cancel catches the writer, and whatever follows, a stop whose writes succeed leaves out
      of the disk exactly the batch then in hand - and, still in the queue, what arrived after the
      final drain.  So nothing but late arrivals is missing if and only if the hand was empty and no
      write failed. */
  lemma StopLosesInHand<E>(cfg: Config, j: Journal<E>, landed: bool, es: seq<Event<E>>)
    requires Inv(cfg, j) && j.stop.Serving?
    requires Valid(cfg, Apply(cfg, j, Cancel(landed)), es)
    ensures var r := Execution(cfg, Apply(cfg, j, Cancel(landed)), es);
            var hand := InHand(Caught(j, landed));
            r.stop.Stopped? ==>
              && r.queue == LateArrivals(cfg, Apply(cfg, j, Cancel(landed)), es)
              && (WritesSucceeded(r) ==> exists before, after :: MissingOnly(r, before, hand, after))
              && (r.accepted == r.disk + r.queue <==> hand == [] && WritesSucceeded(r))
  {
    var c, hand := Apply(cfg, j, Cancel(landed)), InHand(Caught(j, landed));
    CancelCutsHand(cfg, j, landed);
    ExecutionConserves(cfg, c, es);
    CutPersists(cfg, c, es, hand);
    var r := Execution(cfg, c, es);
    if r.stop.Stopped? {
      DrainEmpties(cfg, c, es);
      if WritesSucceeded(r) {
        StoppedLosesCut(cfg, r, hand);
      } else {
        FailureMisses(r);
      }
    }
  }

  /** A stop with successful writes and no late arrival leaves the queue empty and every accepted event on the
      disk except the hand. */
  lemma QuietStop<E>(cfg: Config, j: Journal<E>, landed: bool, es: seq<Event<E>>)
    requires Inv(cfg, j) && j.stop.Serving?
    requires Valid(cfg, Apply(cfg, j, Cancel(landed)), es)
    requires LateArrivals(cfg, Apply(cfg, j, Cancel(landed)), es) == []
    ensures var r := Execution(cfg, Apply(cfg, j, Cancel(landed)), es);
            r.stop.Stopped? && WritesSucceeded(r) ==>
              && r.queue == []
              && exists before, after ::
                   r.disk == before + after && r.accepted == before + InHand(Caught(j, landed)) + after
  {
    StopLosesInHand(cfg, j, landed, es);
    var r := Execution(cfg, Apply(cfg, j, Cancel(landed)), es);
    var hand := InHand(Caught(j, landed));
    if r.stop.Stopped? && WritesSucceeded(r) {
      var before, after :| MissingOnly(r, before, hand, after);
      assert before + hand + after + [] == before + hand + after;
    }
  }

  // ---------------------------------------------------------------------------
  // Steps, without reference to how they are computed
  // ---------------------------------------------------------------------------

  /** An event is dropped, and counted as dropped, if and only if the queue is bounded and full. */
  lemma EnqueueExact<E>(cfg: Config, j: Journal<E>, event: E)
    requires Bounded(cfg, j)
    ensures var j' := Apply(cfg, j, Enqueue(event));
            if cfg.queueMax > 0 && |j.queue| == cfg.queueMax
            then j' == j.(eventsDropped := j.eventsDropped + 1)
            else && j'.accepted == j.accepted + [event] && j'.queue == j.queue + [event]
                 && j'.eventsWritten == j.eventsWritten + 1 && j'.eventsDropped == j.eventsDropped
  {
  }

  function Offered<E>(es: seq<Event<E>>): nat {
    if es == [] then 0 else (if es[0].Enqueue? then 1 else 0) + Offered(es[1..])
  }

  /** Every event offered is counted once, as written or as dropped. */
  lemma {:induction false} CountersAddUp<E>(cfg: Config, j: Journal<E>, es: seq<Event<E>>)
    requires Valid(cfg, j, es)
    ensures var r := Execution(cfg, j, es);
            r.eventsWritten + r.eventsDropped == j.eventsWritten + j.eventsDropped + Offered(es)
    decreases |es|
  {
    if es != [] {
      CountersAddUp(cfg, Apply(cfg, j, es[0]), es[1..]);
    }
  }

  /** A round tops the batch up to `batchSize` with the oldest queued events, and starts writing it if and only if
      it is full or, once the interval has passed, not empty. */
  lemma RoundExact<E>(cfg: Config, j: Journal<E>, flush: bool)
    requires Bounded(cfg, j) && Enabled(j, Round(flush)) && cfg.batchSize >= 1
    ensures var j' := Apply(cfg, j, Round(flush));
            var pending := j.writer.batch + j.queue;
            && InHand(j') + j'.queue == pending
            && |InHand(j')| == (if |pending| < cfg.batchSize then |pending| else cfg.batchSize)
            && (j'.writer.Writing? <==> |pending| >= cfg.batchSize || (flush && pending != []))
            && (j'.writer.Sleeping? <==> !j'.writer.Writing?)
  {
    Regroup(j.writer.batch, j.queue, Takes(|j.writer.batch|, cfg.batchSize, |j.queue|));
  }

  /** The hand holds at most a batch, and less than one when the writer is asleep. */
  lemma HandIsShort<E>(cfg: Config, es: seq<Event<E>>, landed: bool)
    requires Valid(cfg, Start<E>(), es)
    ensures var j := Execution(cfg, Start<E>(), es);
            var hand := InHand(Caught(j, landed));
            |hand| <= cfg.batchSize && (j.writer.Sleeping? ==> hand == [] || |hand| < cfg.batchSize)
  {
    ExecutionConserves(cfg, Start<E>(), es);
  }

  /** One event, picked up and not yet due for writing, is lost by a stop. */
  lemma StopLosesAnEvent<E>(cfg: Config, x: E)
    requires cfg.batchSize >= 2
    ensures var es := [Enqueue(x), Round(false), Cancel(false), Drain, FlushDone];
            && Valid(cfg, Start<E>(), es)
            && var r := Execution(cfg, Start<E>(), es);
               r.stop.Stopped? && WritesSucceeded(r) && r.accepted == [x] && r.disk == [] && r.queue == []
  {
    var es := [Enqueue(x), Round(false), Cancel(false), Drain, FlushDone];
    var j1 := Apply(cfg, Start<E>(), es[0]);
    var j2 := Apply(cfg, j1, es[1]);
    var j3 := Apply(cfg, j2, es[2]);
    var j4 := Apply(cfg, j3, es[3]);
    var j5 := Apply(cfg, j4, es[4]);
    assert j2.writer == Sleeping([x]);
    var t4, t3, t2, t1 := [es[4]], [es[3], es[4]], [es[2], es[3], es[4]], [es[1], es[2], es[3], es[4]];
    assert es[1..] == t1 && t1[1..] == t2 && t2[1..] == t3 && t3[1..] == t4 && t4[1..] == [];
    assert Valid(cfg, j5, []) && Valid(cfg, j4, t4) && Valid(cfg, j3, t3) && Valid(cfg, j2, t2) && Valid(cfg, j1, t1);
    assert Execution(cfg, j4, t4) == j5 && Execution(cfg, j3, t3) == j5;
    assert Execution(cfg, j2, t2) == j5 && Execution(cfg, j1, t1) == j5;
  }
}
