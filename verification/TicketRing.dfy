/** The ticketed ring buffer of benches/tick_to_trade.rs as interleaved atomic steps of any number of
    `publish_tick` and `process_tick` calls: fetch-add a ticket, store four words, store the stamp;
    spin until the slot carries the awaited stamp. */
module TicketRing {

  const U64: nat := 0x1_0000_0000_0000_0000
  const WORDS: nat := 4

  datatype Slot = Slot(data: nat, sequence: nat)

  /** One `publish_tick` call after its fetch-add. */
  datatype Publisher = Publisher(tick: seq<nat>, ticket: nat, stored: nat, stamped: bool)

  /** One `process_tick(seq)` call; `passed` once it has left the spin loop. */
  datatype Consumer = Consumer(awaited: nat, passed: bool)

  datatype Ring = Ring(slots: seq<Slot>, writeSeq: nat, publishers: seq<Publisher>, consumers: seq<Consumer>)

  datatype Event =
    | Take(tick: seq<nat>)      // fetch_add on write_seq
    | Store(p: nat)             // next data word
    | Stamp(p: nat)             // slot sequence
    | Await(awaited: nat)       // a consumer arrives
    | Load(c: nat)              // one turn of the spin

  function New(size: nat): Ring {
    Ring(seq(size, _ => Slot(0, 0)), 0, [], [])
  }

  predicate Enabled(r: Ring, e: Event) {
    && |r.slots| > 0
    && match e
       case Take(tick) => |tick| == WORDS
       case Store(p) => p < |r.publishers| && r.publishers[p].stored < WORDS == |r.publishers[p].tick|
       case Stamp(p) => p < |r.publishers| && r.publishers[p].stored == WORDS && !r.publishers[p].stamped
       case Await(q) => q < U64
       case Load(c) => c < |r.consumers| && !r.consumers[c].passed
  }

  function Apply(r: Ring, e: Event): Ring
    requires Enabled(r, e)
  {
    match e
    case Take(tick) =>
      r.(writeSeq := (r.writeSeq + 1) % U64, publishers := r.publishers + [Publisher(tick, r.writeSeq, 0, false)])
    case Store(p) =>
      var pub := r.publishers[p];
      var k := pub.ticket % |r.slots|;
      r.(slots := r.slots[k := r.slots[k].(data := pub.tick[pub.stored])],
         publishers := r.publishers[p := pub.(stored := pub.stored + 1)])
    case Stamp(p) =>
      var pub := r.publishers[p];
      var k := pub.ticket % |r.slots|;
      r.(slots := r.slots[k := r.slots[k].(sequence := pub.ticket)],
         publishers := r.publishers[p := pub.(stamped := true)])
    case Await(q) => r.(consumers := r.consumers + [Consumer(q, false)])
    case Load(c) =>
      var q := r.consumers[c].awaited;
      if r.slots[q % |r.slots|].sequence == q then r.(consumers := r.consumers[c := Consumer(q, true)]) else r
  }

  ghost predicate Valid(r: Ring, es: seq<Event>)
    decreases |es|
  {
    es != [] ==> Enabled(r, es[0]) && Valid(Apply(r, es[0]), es[1..])
  }

  function Execution(r: Ring, es: seq<Event>): Ring
    requires Valid(r, es)
    decreases |es|
  {
    if es == [] then r else Execution(Apply(r, es[0]), es[1..])
  }

  // ---------------------------------------------------------------------------
  // Invariant
  // ---------------------------------------------------------------------------

  /** Some call drew ticket `q`, finished all its data stores and stamped. */
  ghost predicate Published(r: Ring, q: nat) {
    exists p :: 0 <= p < |r.publishers| && r.publishers[p].ticket == q && r.publishers[p].stamped
  }

  ghost predicate TicketsDrawn(r: Ring) {
    && r.writeSeq == |r.publishers| % U64
    && forall p :: 0 <= p < |r.publishers| ==> r.publishers[p].ticket == p % U64
  }

  ghost predicate StoresFirst(r: Ring) {
    forall p :: 0 <= p < |r.publishers| ==>
      r.publishers[p].stored <= WORDS && (r.publishers[p].stamped ==> r.publishers[p].stored == WORDS)
  }

  ghost predicate SlotsStamped(r: Ring) {
    && |r.slots| > 0
    && forall k :: 0 <= k < |r.slots| ==>
         var q := r.slots[k].sequence; q == 0 || (q % |r.slots| == k && Published(r, q))
  }

  ghost predicate PassedAfter(r: Ring) {
    forall c :: 0 <= c < |r.consumers| && r.consumers[c].passed ==>
      r.consumers[c].awaited == 0 || Published(r, r.consumers[c].awaited)
  }

  ghost predicate Inv(r: Ring) {
    TicketsDrawn(r) && StoresFirst(r) && SlotsStamped(r) && PassedAfter(r)
  }

  /** Publication is never undone. */
  lemma PublishedStays(r: Ring, e: Event, q: nat)
    requires Enabled(r, e) && Published(r, q)
    ensures Published(Apply(r, e), q)
  {
    var p :| 0 <= p < |r.publishers| && r.publishers[p].ticket == q && r.publishers[p].stamped;
    var r' := Apply(r, e);
    assert r'.publishers[p].ticket == q && r'.publishers[p].stamped;
  }

  lemma StampPublishes(r: Ring, p: nat)
    requires Enabled(r, Stamp(p))
    ensures Published(Apply(r, Stamp(p)), r.publishers[p].ticket)
  {
    var r' := Apply(r, Stamp(p));
    assert r'.publishers[p].stamped && r'.publishers[p].ticket == r.publishers[p].ticket;
  }

  lemma SlotsKept(r: Ring, e: Event)
    requires Enabled(r, e) && SlotsStamped(r)
    ensures SlotsStamped(Apply(r, e))
  {
    var r' := Apply(r, e);
    forall k | 0 <= k < |r'.slots|
      ensures var q := r'.slots[k].sequence; q == 0 || (q % |r'.slots| == k && Published(r', q))
    {
      var q := r'.slots[k].sequence;
      if q == r.slots[k].sequence {
        if q != 0 {
          PublishedStays(r, e, q);
        }
      } else {
        StampPublishes(r, e.p);
      }
    }
  }

  lemma PassedKept(r: Ring, e: Event)
    requires Enabled(r, e) && SlotsStamped(r) && PassedAfter(r)
    ensures PassedAfter(Apply(r, e))
  {
    var r' := Apply(r, e);
    forall c | 0 <= c < |r'.consumers| && r'.consumers[c].passed && r'.consumers[c].awaited != 0
      ensures Published(r', r'.consumers[c].awaited)
    {
      var q := r'.consumers[c].awaited;
      if c < |r.consumers| && r.consumers[c].passed {
        assert Published(r, q);
      } else {
        assert r.slots[q % |r.slots|].sequence == q;
      }
      PublishedStays(r, e, q);
    }
  }

  lemma TicketsKept(r: Ring, e: Event)
    requires Enabled(r, e) && TicketsDrawn(r) && StoresFirst(r)
    ensures TicketsDrawn(Apply(r, e)) && StoresFirst(Apply(r, e))
  {
  }

  lemma EventKeepsInv(r: Ring, e: Event)
    requires Inv(r) && Enabled(r, e)
    ensures Inv(Apply(r, e))
  {
    TicketsKept(r, e);
    SlotsKept(r, e);
    PassedKept(r, e);
  }

  lemma {:induction false} ExecutionSafe(r: Ring, es: seq<Event>)
    requires Inv(r) && Valid(r, es)
    ensures Inv(Execution(r, es))
    decreases |es|
  {
    if es != [] {
      EventKeepsInv(r, es[0]);
      ExecutionSafe(Apply(r, es[0]), es[1..]);
    }
  }

  // ---------------------------------------------------------------------------
  // What the protocol guarantees
  // ---------------------------------------------------------------------------

  ghost predicate TicketsUnique(r: Ring) {
    forall p, p' :: 0 <= p < p' < |r.publishers| ==> r.publishers[p].ticket != r.publishers[p'].ticket
  }

  /** Tickets are unique exactly until the 64-bit counter wraps. */
  lemma UniqueUntilWrap(r: Ring)
    requires TicketsDrawn(r)
    ensures TicketsUnique(r) <==> |r.publishers| <= U64
  {
    if |r.publishers| > U64 {
      assert r.publishers[0].ticket == r.publishers[U64].ticket;
    }
  }

  /** In every interleaving of any number of calls over any buffer: slots carry the initial stamp or
      one congruent to their index, and a consumer that waited for a sequence other than 0 left the
      spin only after a publisher holding that very ticket finished all its data stores; while the
      counter has not wrapped that publisher is the only one. */
  lemma SpinExitSafe(size: nat, es: seq<Event>, c: nat)
    requires size > 0 && Valid(New(size), es)
    ensures var r := Execution(New(size), es);
            && (forall k :: 0 <= k < |r.slots| ==> r.slots[k].sequence == 0 || r.slots[k].sequence % |r.slots| == k)
            && (c < |r.consumers| && r.consumers[c].passed && r.consumers[c].awaited >= 1 ==>
                  exists p ::
                    && 0 <= p < |r.publishers| && r.publishers[p].ticket == r.consumers[c].awaited
                    && r.publishers[p].stored == WORDS
                    && (|r.publishers| <= U64 ==>
                          forall o :: 0 <= o < |r.publishers| && r.publishers[o].ticket == r.publishers[p].ticket ==>
                            o == p))
  {
    ExecutionSafe(New(size), es);
    var r := Execution(New(size), es);
    UniqueUntilWrap(r);
    if c < |r.consumers| && r.consumers[c].passed && r.consumers[c].awaited >= 1 {
      assert Published(r, r.consumers[c].awaited);
      var p :| 0 <= p < |r.publishers| && r.publishers[p].ticket == r.consumers[c].awaited && r.publishers[p].stamped;
      assert r.publishers[p].stored == WORDS;
    }
  }

  /** Sequence 0 is the exception: on a fresh ring its consumer passes with nothing published. */
  lemma SequenceZeroPassesAtOnce(size: nat)
    requires size > 0
    ensures Valid(New(size), [Await(0), Load(0)])
    ensures var r := Execution(New(size), [Await(0), Load(0)]);
            r.publishers == [] && r.consumers == [Consumer(0, true)]
  {
    var r0 := New(size);
    var r1 := Apply(r0, Await(0));
    var r2 := Apply(r1, Load(0));
    assert [Await(0), Load(0)][1..] == [Load(0)];
    assert [Load(0)][1..] == [];
    assert Valid(r2, []) && Valid(r1, [Load(0)]);
    assert Execution(r1, [Load(0)]) == Execution(r2, []);
  }

  // ---------------------------------------------------------------------------
  // A lapped consumer never gets out
  // ---------------------------------------------------------------------------

  /** Ticket `q` was published and its slot has been stamped over since. */
  ghost predicate Lapped(r: Ring, q: nat) {
    |r.slots| > 0 && Published(r, q) && r.slots[q % |r.slots|].sequence != q
  }

  lemma LappedEvent(r: Ring, e: Event, q: nat)
    requires Inv(r) && Enabled(r, e) && Lapped(r, q)
    requires |Apply(r, e).publishers| <= U64
    ensures Lapped(Apply(r, e), q)
    ensures forall c :: 0 <= c < |r.consumers| && r.consumers[c] == Consumer(q, false) ==>
            Apply(r, e).consumers[c] == Consumer(q, false)
  {
    PublishedStays(r, e, q);
    UniqueUntilWrap(r);
    if e.Stamp? {
      var p :| 0 <= p < |r.publishers| && r.publishers[p].ticket == q && r.publishers[p].stamped;
      assert e.p != p;
    }
  }

  lemma {:induction false} PublishersGrow(r: Ring, es: seq<Event>)
    requires Valid(r, es)
    ensures |r.publishers| <= |Execution(r, es).publishers|
    decreases |es|
  {
    if es != [] {
      PublishersGrow(Apply(r, es[0]), es[1..]);
    }
  }

  /** Once a slot has been stamped over, whoever still waits for the old sequence waits in every
      continuation that does not wrap the counter. */
  lemma {:induction false} LappedForever(r: Ring, es: seq<Event>, q: nat, c: nat)
    requires Inv(r) && Valid(r, es) && Lapped(r, q)
    requires c < |r.consumers| && r.consumers[c] == Consumer(q, false)
    requires |Execution(r, es).publishers| <= U64
    ensures var r' := Execution(r, es); c < |r'.consumers| && r'.consumers[c] == Consumer(q, false)
    decreases |es|
  {
    if es != [] {
      PublishersGrow(Apply(r, es[0]), es[1..]);
      LappedEvent(r, es[0], q);
      EventKeepsInv(r, es[0]);
      LappedForever(Apply(r, es[0]), es[1..], q, c);
    }
  }

  // ---------------------------------------------------------------------------
  // Everybody else can get out
  // ---------------------------------------------------------------------------

  ghost predicate TicksSized(r: Ring) {
    && |r.slots| > 0
    && forall p :: 0 <= p < |r.publishers| ==> |r.publishers[p].tick| == WORDS && r.publishers[p].stored <= WORDS
  }

  lemma SizesKept(r: Ring, e: Event)
    requires TicksSized(r) && Enabled(r, e)
    ensures TicksSized(Apply(r, e))
  {
  }

  /** Some interleaving takes the ring from one state to the other. */
  ghost predicate Leads(r: Ring, r': Ring) {
    exists es :: Valid(r, es) && Execution(r, es) == r'
  }

  lemma LeadsToItself(r: Ring)
    ensures Leads(r, r)
  {
    assert Valid(r, []) && Execution(r, []) == r;
  }

  lemma LeadsStep(r: Ring, e: Event, r': Ring)
    requires Enabled(r, e) && Leads(Apply(r, e), r')
    ensures Leads(r, r')
  {
    var es :| Valid(Apply(r, e), es) && Execution(Apply(r, e), es) == r';
    var longer := [e] + es;
    assert longer[1..] == es;
    assert Valid(r, longer) && Execution(r, longer) == r';
  }

  lemma {:induction false} LeadsAlong(r: Ring, es: seq<Event>, r': Ring)
    requires Valid(r, es) && Leads(Execution(r, es), r')
    ensures Leads(r, r')
    decreases |es|
  {
    if es != [] {
      LeadsAlong(Apply(r, es[0]), es[1..], r');
      LeadsStep(r, es[0], r');
    }
  }

  lemma LeadsOn(r: Ring, s: Ring, t: Ring)
    requires Leads(r, s) && Leads(s, t)
    ensures Leads(r, t)
  {
    var es :| Valid(r, es) && Execution(r, es) == s;
    LeadsAlong(r, es, t);
  }

  function SlotOf(r: Ring, p: int): nat
    requires |r.slots| > 0 && 0 <= p < |r.publishers|
  {
    r.publishers[p].ticket % |r.slots|
  }

  /** Publisher `p` went through to its stamp, and nothing else happened but to its slot. */
  ghost predicate Finished(r: Ring, p: nat, r': Ring)
    requires p < |r.publishers| && |r.slots| > 0
  {
    && r'.publishers == r.publishers[p := r.publishers[p].(stored := WORDS, stamped := true)]
    && r'.consumers == r.consumers && |r'.slots| == |r.slots|
    && forall k :: 0 <= k < |r.slots| ==>
         r'.slots[k].sequence == if k == SlotOf(r, p) then r.publishers[p].ticket else r.slots[k].sequence
  }

  /** A publisher can always be scheduled to its end. */
  lemma {:induction false} CanFinish(r: Ring, p: nat) returns (r': Ring)
    requires TicksSized(r) && p < |r.publishers| && !r.publishers[p].stamped
    ensures Leads(r, r') && Finished(r, p, r')
    decreases WORDS - r.publishers[p].stored
  {
    if r.publishers[p].stored == WORDS {
      r' := Apply(r, Stamp(p));
      LeadsToItself(r');
      LeadsStep(r, Stamp(p), r');
    } else {
      var s := Apply(r, Store(p));
      SizesKept(r, Store(p));
      r' := CanFinish(s, p);
      LeadsStep(r, Store(p), r');
      assert forall k :: 0 <= k < |r.slots| ==> s.slots[k].sequence == r.slots[k].sequence;
      assert r'.publishers == r.publishers[p := r.publishers[p].(stored := WORDS, stamped := true)];
    }
  }

  /** Tickets up to `n` are drawn, and nothing else happened. */
  ghost predicate Drawn(r: Ring, n: nat, r': Ring) {
    && |r.publishers| <= |r'.publishers| && n <= |r'.publishers| && (|r'.publishers| == n || r' == r)
    && r'.publishers[..|r.publishers|] == r.publishers
    && (forall p :: |r.publishers| <= p < |r'.publishers| ==> !r'.publishers[p].stamped)
    && r'.consumers == r.consumers && r'.slots == r.slots
  }

  lemma {:induction false} CanDraw(r: Ring, n: nat) returns (r': Ring)
    requires Inv(r) && TicksSized(r)
    ensures Leads(r, r') && Inv(r') && TicksSized(r') && Drawn(r, n, r')
    decreases n - |r.publishers|
  {
    if |r.publishers| >= n {
      r' := r;
      LeadsToItself(r);
    } else {
      var e := Take([0, 0, 0, 0]);
      EventKeepsInv(r, e);
      SizesKept(r, e);
      r' := CanDraw(Apply(r, e), n);
      LeadsStep(r, e, r');
      assert r'.publishers[..|r.publishers|] == r'.publishers[..|r.publishers| + 1][..|r.publishers|];
      assert r'.publishers[|r.publishers|] == r'.publishers[..|r.publishers| + 1][|r.publishers|];
    }
  }

  /** Consumer `c` leaves its spin in some continuation that does not wrap the counter. */
  ghost predicate CanPass(r: Ring, c: nat) {
    exists r' :: Leads(r, r') && |r'.publishers| <= U64 && c < |r'.consumers| && r'.consumers[c].passed
  }

  lemma StampedPasses(r: Ring, q: nat, c: nat, s: Ring)
    requires Leads(r, s) && |s.publishers| <= U64 && |s.slots| > 0
    requires c < |s.consumers| && s.consumers[c] == Consumer(q, false)
    requires s.slots[q % |s.slots|].sequence == q
    ensures CanPass(r, c)
  {
    var t := Apply(s, Load(c));
    LeadsToItself(t);
    LeadsStep(s, Load(c), t);
    LeadsOn(r, s, t);
  }

  lemma TicketAt(r: Ring, p: nat)
    requires TicketsDrawn(r) && p < |r.publishers| && p < U64
    ensures r.publishers[p].ticket == p
  {
  }

  /** An unpublished sequence can be published, with all tickets before it drawn. */
  lemma CanPublish(r: Ring, q: nat) returns (r': Ring)
    requires Inv(r) && TicksSized(r) && |r.publishers| <= U64 && q < U64 && !Published(r, q)
    ensures Leads(r, r') && |r'.publishers| <= U64 && r'.consumers == r.consumers
    ensures |r'.slots| == |r.slots| > 0 && r'.slots[q % |r.slots|].sequence == q
  {
    var s := CanDraw(r, q + 1);
    TicketAt(s, q);
    if q < |r.publishers| {
      TicketAt(r, q);
      assert s.publishers[q] == s.publishers[..|r.publishers|][q];
    }
    r' := CanFinish(s, q);
    assert SlotOf(s, q) == q % |r.slots|;
    LeadsOn(r, s, r');
  }

  lemma UnlappedPasses(r: Ring, q: nat, c: nat)
    requires Inv(r) && TicksSized(r) && |r.publishers| <= U64
    requires c < |r.consumers| && r.consumers[c] == Consumer(q, false) && q < U64 && !Lapped(r, q)
    ensures CanPass(r, c)
  {
    if r.slots[q % |r.slots|].sequence == q {
      LeadsToItself(r);
      StampedPasses(r, q, c, r);
    } else {
      var s := CanPublish(r, q);
      StampedPasses(r, q, c, s);
    }
  }

  /** A waiting consumer can still get out without a wrap of the counter if and only if it has not been
      lapped. */
  lemma PassesUnlessLapped(r: Ring, q: nat, c: nat)
    requires Inv(r) && TicksSized(r) && |r.publishers| <= U64
    requires c < |r.consumers| && r.consumers[c] == Consumer(q, false) && q < U64
    ensures CanPass(r, c) <==> !Lapped(r, q)
  {
    if !Lapped(r, q) {
      UnlappedPasses(r, q, c);
    } else {
      forall es | Valid(r, es) && |Execution(r, es).publishers| <= U64
        ensures c < |Execution(r, es).consumers| && !Execution(r, es).consumers[c].passed
      {
        LappedForever(r, es, q, c);
      }
    }
  }

  /** It happens on every ring, to every sequence that shares its slot with another ticket: a reachable
      state in which a consumer waits for a sequence that has been stamped over. */
  lemma LappedReachable(size: nat, q: nat, o: nat) returns (r: Ring)
    requires size > 0 && q < U64 && o < U64 && q != o && q % size == o % size
    ensures Leads(New(size), r) && |r.publishers| <= U64
    ensures r.consumers == [Consumer(q, false)] && Lapped(r, q)
  {
    var waiting := Apply(New(size), Await(q));
    EventKeepsInv(New(size), Await(q));
    var drawn := CanDraw(waiting, if q < o then o + 1 else q + 1);
    TicketAt(drawn, q);
    TicketAt(drawn, o);
    var first := CanFinish(drawn, q);
    assert TicksSized(first) && SlotOf(first, o) == o % size;
    r := CanFinish(first, o);
    assert r.publishers[q].stamped && r.publishers[q].ticket == q;
    assert r.slots[q % size].sequence == o;
    LeadsOn(drawn, first, r);
    LeadsOn(waiting, drawn, r);
    LeadsStep(New(size), Await(q), r);
  }

  // ---------------------------------------------------------------------------
  // What a slot holds when publishers do not overlap in it
  // ---------------------------------------------------------------------------

  /** Between its first data store and its stamp. */
  predicate Busy(r: Ring, p: int) {
    0 <= p < |r.publishers| && r.publishers[p].stored > 0 && !r.publishers[p].stamped
  }

  /** No other publisher is busy in the slot that is about to be written. */
  ghost predicate Exclusive(r: Ring, e: Event)
    requires Enabled(r, e)
  {
    e.Store? ==> forall o :: Busy(r, o) && o != e.p ==> SlotOf(r, o) != SlotOf(r, e.p)
  }

  ghost predicate AllExclusive(r: Ring, es: seq<Event>)
    requires Valid(r, es)
    decreases |es|
  {
    es != [] ==> Exclusive(r, es[0]) && AllExclusive(Apply(r, es[0]), es[1..])
  }

  /** Publisher `p` owns its slot's stamp, and nobody is writing there. */
  ghost predicate Readable(r: Ring, p: int) {
    && |r.slots| > 0 && 0 <= p < |r.publishers| && r.publishers[p].stamped && r.publishers[p].ticket >= 1
    && r.slots[SlotOf(r, p)].sequence == r.publishers[p].ticket
    && forall o :: Busy(r, o) ==> SlotOf(r, o) != SlotOf(r, p)
  }

  ghost predicate OneBusyPerSlot(r: Ring)
    requires |r.slots| > 0
  {
    forall p, o :: Busy(r, p) && Busy(r, o) && SlotOf(r, p) == SlotOf(r, o) ==> p == o
  }

  ghost predicate BusyDataCurrent(r: Ring)
    requires TicksSized(r)
  {
    forall p :: Busy(r, p) ==> r.slots[SlotOf(r, p)].data == r.publishers[p].tick[r.publishers[p].stored - 1]
  }

  ghost predicate ReadableDataWhole(r: Ring)
    requires TicksSized(r)
  {
    forall p :: Readable(r, p) ==> r.slots[SlotOf(r, p)].data == r.publishers[p].tick[WORDS - 1]
  }

  ghost predicate Undisturbed(r: Ring) {
    TicksSized(r) && OneBusyPerSlot(r) && BusyDataCurrent(r) && ReadableDataWhole(r)
  }

  lemma BusyBefore(r: Ring, e: Event, p: int)
    requires Enabled(r, e) && Busy(Apply(r, e), p)
    ensures 0 <= p < |r.publishers| && (Busy(r, p) || e == Store(p)) && SlotOf(Apply(r, e), p) == SlotOf(r, p)
  {
  }

  lemma OneBusyKept(r: Ring, e: Event)
    requires |r.slots| > 0 && OneBusyPerSlot(r) && Enabled(r, e) && Exclusive(r, e)
    ensures |Apply(r, e).slots| > 0 && OneBusyPerSlot(Apply(r, e))
  {
    var r' := Apply(r, e);
    forall p, o | Busy(r', p) && Busy(r', o) && SlotOf(r', p) == SlotOf(r', o) ensures p == o {
      BusyBefore(r, e, p);
      BusyBefore(r, e, o);
    }
  }

  lemma BusyDataKept(r: Ring, e: Event)
    requires TicksSized(r) && BusyDataCurrent(r) && Enabled(r, e) && Exclusive(r, e)
    ensures TicksSized(Apply(r, e)) && BusyDataCurrent(Apply(r, e))
  {
    SizesKept(r, e);
    var r' := Apply(r, e);
    forall p | Busy(r', p)
      ensures r'.slots[SlotOf(r', p)].data == r'.publishers[p].tick[r'.publishers[p].stored - 1]
    {
      BusyBefore(r, e, p);
      if e != Store(p) {
        assert e.Store? ==> SlotOf(r, e.p) != SlotOf(r, p);
      }
    }
  }

  lemma TicketFixed(r: Ring, e: Event, p: int)
    requires Enabled(r, e) && 0 <= p < |r.publishers|
    ensures var r' := Apply(r, e);
            && |r'.slots| == |r.slots| && p < |r'.publishers| && SlotOf(r', p) == SlotOf(r, p)
            && r'.publishers[p].ticket == r.publishers[p].ticket && r'.publishers[p].tick == r.publishers[p].tick
  {
  }

  /** A store makes its slot unreadable; elsewhere nothing changes. */
  lemma ReadableStore(r: Ring, q: nat, p: int)
    requires StoresFirst(r) && Enabled(r, Store(q)) && Readable(Apply(r, Store(q)), p)
    ensures Readable(r, p) && SlotOf(r, q) != SlotOf(r, p)
  {
    var r' := Apply(r, Store(q));
    TicketFixed(r, Store(q), p);
    TicketFixed(r, Store(q), q);
    assert !r.publishers[q].stamped;
    assert Busy(r', q);
    forall o | Busy(r, o) ensures SlotOf(r, o) != SlotOf(r, p) {
      TicketFixed(r, Store(q), o);
      assert Busy(r', o);
    }
  }

  lemma ReadableStamp(r: Ring, q: nat, p: int)
    requires TicketsUnique(r) && Enabled(r, Stamp(q)) && Readable(Apply(r, Stamp(q)), p) && q != p
    ensures Readable(r, p) && SlotOf(r, q) != SlotOf(r, p)
  {
    var r' := Apply(r, Stamp(q));
    TicketFixed(r, Stamp(q), p);
    TicketFixed(r, Stamp(q), q);
    assert r.publishers[q].ticket != r.publishers[p].ticket;
    assert r'.slots[SlotOf(r, q)].sequence == r.publishers[q].ticket;
    forall o | Busy(r, o) ensures SlotOf(r, o) != SlotOf(r, p) {
      if o != q {
        TicketFixed(r, Stamp(q), o);
        assert Busy(r', o);
      }
    }
  }

  lemma ReadableOther(r: Ring, e: Event, p: int)
    requires Enabled(r, e) && !e.Store? && !e.Stamp? && Readable(Apply(r, e), p)
    ensures Readable(r, p)
  {
    assert p < |r.publishers|;
    forall o | Busy(r, o) ensures SlotOf(r, o) != SlotOf(r, p) {
      assert Busy(Apply(r, e), o);
    }
  }

  lemma ReadableKept(r: Ring, e: Event)
    requires Undisturbed(r) && StoresFirst(r) && Enabled(r, e)
    requires TicketsUnique(r)
    ensures TicksSized(Apply(r, e)) && ReadableDataWhole(Apply(r, e))
  {
    SizesKept(r, e);
    var r' := Apply(r, e);
    forall p | Readable(r', p) ensures r'.slots[SlotOf(r', p)].data == r'.publishers[p].tick[WORDS - 1] {
      assert p < |r.publishers|;
      TicketFixed(r, e, p);
      match e
      case Store(q) => ReadableStore(r, q, p);
      case Stamp(q) =>
        if q == p {
          assert Busy(r, p);
        } else {
          ReadableStamp(r, q, p);
        }
      case _ => ReadableOther(r, e, p);
    }
  }

  /** If no two publishers are ever busy in one slot at once, a slot that carries the stamp of a
      finished publisher and has no other at work holds that publisher's last word. */
  lemma {:induction false} ExclusiveDataWhole(r: Ring, es: seq<Event>)
    requires Inv(r) && Undisturbed(r) && Valid(r, es) && AllExclusive(r, es)
    requires |Execution(r, es).publishers| <= U64
    ensures Undisturbed(Execution(r, es))
    decreases |es|
  {
    if es != [] {
      PublishersGrow(r, es);
      OneBusyKept(r, es[0]);
      BusyDataKept(r, es[0]);
      UniqueUntilWrap(r);
      ReadableKept(r, es[0]);
      EventKeepsInv(r, es[0]);
      ExclusiveDataWhole(Apply(r, es[0]), es[1..]);
    }
  }

  lemma ReadsLastWord(size: nat, es: seq<Event>, p: int)
    requires size > 0 && Valid(New(size), es) && AllExclusive(New(size), es)
    requires |Execution(New(size), es).publishers| <= U64
    requires Readable(Execution(New(size), es), p)
    ensures var r := Execution(New(size), es);
            |r.publishers[p].tick| == WORDS && r.slots[SlotOf(r, p)].data == r.publishers[p].tick[WORDS - 1]
  {
    ExclusiveDataWhole(New(size), es);
  }

  // ---------------------------------------------------------------------------
  // What a slot holds in general
  // ---------------------------------------------------------------------------

  /** The publisher of the last data store into slot `k`, -1 if there is none. */
  ghost function LastStorer(r: Ring, es: seq<Event>, k: nat): int
    requires Valid(r, es)
    decreases |es|
  {
    if es == [] then -1
    else
      var later := LastStorer(Apply(r, es[0]), es[1..], k);
      if later >= 0 then later else if es[0].Store? && SlotOf(r, es[0].p) == k then es[0].p else -1
  }

  /** Without a store into slot `k`, its data and its publishers' progress stand still. */
  lemma {:induction false} NoStoreNoChange(r: Ring, es: seq<Event>, k: nat, p: nat)
    requires |r.slots| > k && Valid(r, es) && LastStorer(r, es, k) < 0 && p < |r.publishers| && SlotOf(r, p) == k
    ensures var r' := Execution(r, es);
            && |r'.slots| == |r.slots| && p < |r'.publishers| && SlotOf(r', p) == k
            && r'.publishers[p].stored == r.publishers[p].stored && r'.publishers[p].tick == r.publishers[p].tick
            && r'.slots[k].data == r.slots[k].data
    decreases |es|
  {
    if es != [] {
      TicketFixed(r, es[0], p);
      assert LastStorer(Apply(r, es[0]), es[1..], k) < 0;
      NoStoreNoChange(Apply(r, es[0]), es[1..], k, p);
    }
  }

  /** The last publisher to store into a slot left its latest word there. */
  ghost predicate HoldsWordOf(r: Ring, k: nat, p: int) {
    && k < |r.slots| && 0 <= p < |r.publishers| && SlotOf(r, p) == k
    && 1 <= r.publishers[p].stored <= |r.publishers[p].tick|
    && r.slots[k].data == r.publishers[p].tick[r.publishers[p].stored - 1]
  }

  /** In every interleaving a slot holds the latest word of the publisher that stored into it last. */
  lemma {:induction false} DataIsLastStored(r: Ring, es: seq<Event>, k: nat)
    requires TicksSized(r) && k < |r.slots| && Valid(r, es) && LastStorer(r, es, k) >= 0
    ensures HoldsWordOf(Execution(r, es), k, LastStorer(r, es, k))
    decreases |es|
  {
    var s := Apply(r, es[0]);
    SizesKept(r, es[0]);
    if LastStorer(s, es[1..], k) >= 0 {
      DataIsLastStored(s, es[1..], k);
    } else {
      TicketFixed(r, es[0], es[0].p);
      NoStoreNoChange(s, es[1..], k, es[0].p);
    }
  }

  lemma {:induction false} StoringIsSeen(r: Ring, es: seq<Event>, p: nat)
    requires |r.slots| > 0 && Valid(r, es) && (p < |r.publishers| ==> r.publishers[p].stored == 0)
    requires p < |Execution(r, es).publishers| && Execution(r, es).publishers[p].stored > 0
    ensures |Execution(r, es).slots| > 0 && LastStorer(r, es, SlotOf(Execution(r, es), p)) >= 0
    decreases |es|
  {
    if es != [] {
      var s := Apply(r, es[0]);
      if p < |s.publishers| && s.publishers[p].stored > 0 {
        SlotKept(s, es[1..], p);
      } else {
        StoringIsSeen(s, es[1..], p);
      }
    }
  }

  lemma {:induction false} SlotKept(r: Ring, es: seq<Event>, p: nat)
    requires |r.slots| > 0 && Valid(r, es) && p < |r.publishers|
    ensures var r' := Execution(r, es); |r'.slots| == |r.slots| && p < |r'.publishers| && SlotOf(r', p) == SlotOf(r, p)
    decreases |es|
  {
    if es != [] {
      TicketFixed(r, es[0], p);
      SlotKept(Apply(r, es[0]), es[1..], p);
    }
  }

  /** A finished publisher's slot holds the latest word of whoever stored there last; so, if its last word
      occurs in no other tick, it holds that word if and only if it was itself the last to store. */
  lemma FinishedDataExact(size: nat, es: seq<Event>, p: nat)
    requires size > 0 && Valid(New(size), es)
    requires p < |Execution(New(size), es).publishers| && Execution(New(size), es).publishers[p].stored == WORDS
    ensures var r := Execution(New(size), es);
            && |r.slots| > 0 && |r.publishers[p].tick| == WORDS
            && var k, word := SlotOf(r, p), r.publishers[p].tick[WORDS - 1];
               var last := LastStorer(New(size), es, k);
               && HoldsWordOf(r, k, last)
               && (last == p ==> r.slots[k].data == word)
               && ((forall o :: 0 <= o < |r.publishers| && o != p ==> word !in r.publishers[o].tick) ==>
                     r.slots[k].data == word ==> last == p)
  {
    var r := Execution(New(size), es);
    SizesAlong(New(size), es);
    StoringIsSeen(New(size), es, p);
    DataIsLastStored(New(size), es, SlotOf(r, p));
  }

  lemma {:induction false} SizesAlong(r: Ring, es: seq<Event>)
    requires TicksSized(r) && Valid(r, es)
    ensures TicksSized(Execution(r, es)) && |Execution(r, es).slots| == |r.slots|
    decreases |es|
  {
    if es != [] {
      SizesKept(r, es[0]);
      SizesAlong(Apply(r, es[0]), es[1..]);
    }
  }

  /** Publisher `p` stored its remaining words, and nothing else happened but to its slot's data. */
  lemma {:induction false} CanStoreAll(r: Ring, p: nat) returns (r': Ring)
    requires TicksSized(r) && p < |r.publishers| && r.publishers[p].stored < WORDS
    ensures Leads(r, r') && TicksSized(r') && r'.consumers == r.consumers && r'.writeSeq == r.writeSeq
    ensures r'.publishers == r.publishers[p := r.publishers[p].(stored := WORDS)]
    ensures r'.slots == r.slots[SlotOf(r, p) := r.slots[SlotOf(r, p)].(data := r.publishers[p].tick[WORDS - 1])]
    decreases WORDS - r.publishers[p].stored
  {
    var s := Apply(r, Store(p));
    SizesKept(r, Store(p));
    if r.publishers[p].stored + 1 == WORDS {
      r' := s;
      LeadsToItself(s);
    } else {
      r' := CanStoreAll(s, p);
    }
    LeadsStep(r, Store(p), r');
  }

  /** Overlapping publishers do mix: a slot stamped by one, with nobody at work in it, can hold the word
      of the other. */
  lemma OverlapMixes(a: seq<nat>, b: seq<nat>) returns (r: Ring)
    requires |a| == |b| == WORDS
    ensures Leads(New(1), r) && Readable(r, 1)
    ensures r.publishers[1].tick == b && r.slots[SlotOf(r, 1)].data == a[WORDS - 1]
  {
    var r1 := Apply(New(1), Take(a));
    var r2 := Apply(r1, Take(b));
    assert r2.publishers == [Publisher(a, 0, 0, false), Publisher(b, 1, 0, false)];
    var r3 := CanStoreAll(r2, 1);
    var r4 := CanStoreAll(r3, 0);
    assert r4.publishers == [Publisher(a, 0, WORDS, false), Publisher(b, 1, WORDS, false)];
    var r5 := Apply(r4, Stamp(0));
    r := Apply(r5, Stamp(1));
    assert r.publishers == [Publisher(a, 0, WORDS, true), Publisher(b, 1, WORDS, true)];
    LeadsToItself(r);
    LeadsStep(r5, Stamp(1), r);
    LeadsStep(r4, Stamp(0), r);
    LeadsOn(r3, r4, r);
    LeadsOn(r2, r3, r);
    LeadsStep(r1, Take(b), r);
    LeadsStep(New(1), Take(a), r);
  }
}
