/** One side of the L2 book in benches/orderbook_update.rs: the cached volume, kept with wrapping
    64-bit arithmetic, against the sum of the levels. */
module OrderBook {

  const U64: int := 0x1_0000_0000_0000_0000
  const U32: int := 0x1_0000_0000

  datatype PriceLevel = PriceLevel(price: nat, quantity: nat, orderCount: nat)

  datatype Delta = Delta(action: nat, price: nat, quantity: nat)   // 0 add, 1 update, 2 delete

  /** A delta and the time it is applied at. */
  datatype Update = Update(delta: Delta, now: int)

  datatype Side = Side(levels: map<nat, PriceLevel>, totalVolume: int, lastUpdate: int)

  const EMPTY := Side(map[], 0, 0)

  predicate IsU64(x: int) { 0 <= x < U64 }

  function WrappingAdd(a: int, b: int): (r: int)
    ensures IsU64(r)
  {
    (a + b) % U64
  }

  function WrappingSub(a: int, b: int): (r: int)
    ensures IsU64(r)
  {
    (a - b) % U64
  }

  /** `apply_delta` */
  function ApplyDelta(s: Side, d: Delta, now: int): Side {
    var s1 :=
      if d.action == 0 then
        s.(levels := s.levels[d.price := PriceLevel(d.price, d.quantity, 1)],
           totalVolume := WrappingAdd(s.totalVolume, d.quantity))
      else if d.action == 1 && d.price in s.levels then
        var o := s.levels[d.price];
        s.(levels := s.levels[d.price := PriceLevel(o.price, d.quantity, (o.orderCount + 1) % U32)],
           totalVolume :=
             if d.quantity > o.quantity then WrappingAdd(s.totalVolume, d.quantity - o.quantity)
             else WrappingSub(s.totalVolume, o.quantity - d.quantity))
      else if d.action == 2 && d.price in s.levels then
        s.(levels := s.levels - {d.price}, totalVolume := WrappingSub(s.totalVolume, s.levels[d.price].quantity))
      else s;
    s1.(lastUpdate := now)
  }

  /** What an Add overwrites. */
  function Overwritten(s: Side, d: Delta): nat {
    if d.action == 0 && d.price in s.levels then s.levels[d.price].quantity else 0
  }

  // ---------------------------------------------------------------------------
  // The sum of the levels
  // ---------------------------------------------------------------------------

  ghost function SumLevels(levels: map<nat, PriceLevel>): int {
    if levels == map[] then 0
    else
      var p :| p in levels;
      levels[p].quantity + SumLevels(levels - {p})
  }

  /** The sum does not depend on which level is taken out first. */
  lemma {:induction false} SumTakeOut(levels: map<nat, PriceLevel>, p: nat)
    requires p in levels
    ensures SumLevels(levels) == levels[p].quantity + SumLevels(levels - {p})
    decreases |levels|
  {
    var q :| q in levels && SumLevels(levels) == levels[q].quantity + SumLevels(levels - {q});
    if q != p {
      var rest := levels - {q};
      SumTakeOut(rest, p);
      SumTakeOut(levels - {p}, q);
      assert rest - {p} == (levels - {p}) - {q};
    }
  }

  lemma SumPut(levels: map<nat, PriceLevel>, p: nat, level: PriceLevel)
    ensures SumLevels(levels[p := level]) == SumLevels(levels - {p}) + level.quantity
  {
    SumTakeOut(levels[p := level], p);
    assert levels[p := level] - {p} == levels - {p};
  }

  lemma SumWithout(levels: map<nat, PriceLevel>, p: nat)
    ensures SumLevels(levels - {p}) == SumLevels(levels) - if p in levels then levels[p].quantity else 0
  {
    if p in levels {
      SumTakeOut(levels, p);
    } else {
      assert levels - {p} == levels;
    }
  }

  /** The cached volume is the sum of the levels plus `lost`, modulo 2^64. */
  ghost predicate VolumeOff(s: Side, lost: int) {
    s.totalVolume == (SumLevels(s.levels) + lost) % U64
  }

  lemma Shift(x: int, q: int)
    ensures (x % U64 + q) % U64 == (x + q) % U64
  {
  }

  /** One write at one price moves the cached volume as it moves the sum. */
  lemma VolumeStep(s: Side, d: Delta, now: int, lost: int)
    requires VolumeOff(s, lost)
    ensures VolumeOff(ApplyDelta(s, d, now), lost + Overwritten(s, d))
  {
    var before := SumLevels(s.levels) + lost;
    var s' := ApplyDelta(s, d, now);
    SumWithout(s.levels, d.price);
    if d.action == 0 {
      SumPut(s.levels, d.price, PriceLevel(d.price, d.quantity, 1));
      Shift(before, d.quantity);
      assert SumLevels(s'.levels) + lost + Overwritten(s, d) == before + d.quantity;
    } else if d.action == 1 && d.price in s.levels {
      var o := s.levels[d.price];
      SumPut(s.levels, d.price, PriceLevel(o.price, d.quantity, (o.orderCount + 1) % U32));
      Shift(before, d.quantity - o.quantity);
      assert SumLevels(s'.levels) + lost == before + (d.quantity - o.quantity);
    } else if d.action == 2 && d.price in s.levels {
      Shift(before, 0 - s.levels[d.price].quantity);
    }
  }

  function ApplyAll(s: Side, us: seq<Update>): Side
    decreases |us|
  {
    if us == [] then s else ApplyAll(ApplyDelta(s, us[0].delta, us[0].now), us[1..])
  }

  /** All the quantities overwritten by Adds at present prices along the way. */
  function LostAlong(s: Side, us: seq<Update>): nat
    decreases |us|
  {
    if us == [] then 0
    else Overwritten(s, us[0].delta) + LostAlong(ApplyDelta(s, us[0].delta, us[0].now), us[1..])
  }

  /** Whatever the deltas, the cached volume is off by exactly the overwritten quantities. */
  lemma {:induction false} VolumeAlong(s: Side, us: seq<Update>, lost: int)
    requires VolumeOff(s, lost)
    ensures VolumeOff(ApplyAll(s, us), lost + LostAlong(s, us))
    decreases |us|
  {
    if us != [] {
      var Update(d, now) := us[0];
      VolumeStep(s, d, now, lost);
      VolumeAlong(ApplyDelta(s, d, now), us[1..], lost + Overwritten(s, d));
    }
  }

  /** From an empty side, the cached volume equals the sum of the levels modulo 2^64 exactly when the
      overwritten quantities add up to a multiple of 2^64 - for instance to nothing, when Adds only
      hit absent prices. */
  lemma VolumeExact(us: seq<Update>)
    ensures var s := ApplyAll(EMPTY, us);
            s.totalVolume == SumLevels(s.levels) % U64 <==> LostAlong(EMPTY, us) % U64 == 0
  {
    VolumeAlong(EMPTY, us, 0);
    var s := ApplyAll(EMPTY, us);
    SameResidue(SumLevels(s.levels), LostAlong(EMPTY, us));
  }

  lemma SameResidue(a: int, b: int)
    ensures (a + b) % U64 == a % U64 <==> b % U64 == 0
  {
  }

  // ---------------------------------------------------------------------------
  // The levels, from the history of deltas alone
  // ---------------------------------------------------------------------------

  const ADD: nat := 0
  const UPDATE: nat := 1
  const DELETE: nat := 2

  /** The `k`-th delta has one of these actions at price `p`. */
  predicate Hits(us: seq<Update>, k: nat, p: nat, actions: set<nat>)
    requires k < |us|
  {
    us[k].delta.price == p && us[k].delta.action in actions
  }

  /** ... and is the last to. */
  ghost predicate LastHit(us: seq<Update>, k: nat, p: nat, actions: set<nat>) {
    k < |us| && Hits(us, k, p, actions) && forall j :: k < j < |us| ==> !Hits(us, j, p, actions)
  }

  /** An Add hit the price, and no Delete since the last one that did. */
  ghost predicate Standing(us: seq<Update>, p: nat) {
    exists k: nat :: LastHit(us, k, p, {ADD, DELETE}) && us[k].delta.action == ADD
  }

  /** The Updates at the price after the `k`-th delta. */
  function UpdatesSince(us: seq<Update>, k: nat, p: nat): nat
    decreases |us|
  {
    if us == [] || k >= |us| - 1 then 0
    else UpdatesSince(us[..|us| - 1], k, p) + if Hits(us, |us| - 1, p, {UPDATE}) then 1 else 0
  }

  lemma {:induction false} ApplyLast(s: Side, us: seq<Update>, u: Update)
    ensures ApplyAll(s, us + [u]) == ApplyDelta(ApplyAll(s, us), u.delta, u.now)
    decreases |us|
  {
    if us == [] {
      assert (us + [u])[1..] == [];
    } else {
      assert (us + [u])[1..] == us[1..] + [u];
      ApplyLast(ApplyDelta(s, us[0].delta, us[0].now), us[1..], u);
    }
  }

  lemma {:induction false} LostLast(s: Side, us: seq<Update>, u: Update)
    ensures LostAlong(s, us + [u]) == LostAlong(s, us) + Overwritten(ApplyAll(s, us), u.delta)
    decreases |us|
  {
    if us == [] {
      assert (us + [u])[1..] == [];
    } else {
      assert (us + [u])[1..] == us[1..] + [u];
      LostLast(ApplyDelta(s, us[0].delta, us[0].now), us[1..], u);
    }
  }

  /** A delta that hits leaves no other last hit but itself; one that does not leaves the last hit be. */
  lemma LastHitStep(us: seq<Update>, u: Update, p: nat, actions: set<nat>, k: nat)
    ensures LastHit(us + [u], k, p, actions) <==>
              if u.delta.price == p && u.delta.action in actions then k == |us| else LastHit(us, k, p, actions)
  {
    var longer := us + [u];
    assert forall j :: 0 <= j < |us| ==> (Hits(longer, j, p, actions) <==> Hits(us, j, p, actions));
    assert Hits(longer, |us|, p, actions) <==> u.delta.price == p && u.delta.action in actions;
  }

  lemma StandingStep(us: seq<Update>, u: Update, p: nat)
    ensures Standing(us + [u], p) <==>
              if u.delta.price == p && u.delta.action == ADD then true
              else if u.delta.price == p && u.delta.action == DELETE then false
              else Standing(us, p)
  {
    var longer, actions := us + [u], {ADD, DELETE};
    assert forall j :: 0 <= j < |us| ==> longer[j] == us[j];
    forall k: nat ensures LastHit(longer, k, p, actions) <==>
              if u.delta.price == p && u.delta.action in actions then k == |us| else LastHit(us, k, p, actions)
    {
      LastHitStep(us, u, p, actions, k);
    }
    if u.delta.price == p && u.delta.action == ADD {
      assert LastHit(longer, |us|, p, actions);
    } else if Standing(us, p) && !(u.delta.price == p && u.delta.action == DELETE) {
      var k: nat :| LastHit(us, k, p, actions) && us[k].delta.action == ADD;
      assert LastHit(longer, k, p, actions) && longer[k] == us[k];
    }
  }

  /** What the levels hold at price `p`, given the last Add `a` and the last Add or Update `q`. */
  ghost predicate LevelIs(us: seq<Update>, s: Side, p: nat, a: nat, q: nat) {
    p in s.levels && q < |us| && s.levels[p] == PriceLevel(p, us[q].delta.quantity, (1 + UpdatesSince(us, a, p)) % U32)
  }

  ghost predicate LevelRight(us: seq<Update>, s: Side, p: nat) {
    && (p in s.levels <==> Standing(us, p))
    && (p in s.levels ==>
          exists a: nat, q: nat ::
            LastHit(us, a, p, {ADD}) && LastHit(us, q, p, {ADD, UPDATE}) && LevelIs(us, s, p, a, q))
  }

  lemma UpdatesSinceStep(us: seq<Update>, u: Update, k: nat, p: nat)
    ensures UpdatesSince(us + [u], k, p) ==
              if k >= |us| then 0
              else UpdatesSince(us, k, p) + if u.delta.price == p && u.delta.action == UPDATE then 1 else 0
  {
    assert (us + [u])[..|us|] == us;
  }

  lemma NextCount(n: nat)
    ensures ((1 + n) % U32 + 1) % U32 == (1 + (n + 1)) % U32
  {
  }

  lemma LevelStep(us: seq<Update>, s: Side, u: Update, p: nat)
    requires LevelRight(us, s, p)
    ensures LevelRight(us + [u], ApplyDelta(s, u.delta, u.now), p)
  {
    var longer, s' := us + [u], ApplyDelta(s, u.delta, u.now);
    StandingStep(us, u, p);
    if p in s'.levels {
      if u.delta.price == p && u.delta.action == ADD {
        LastHitStep(us, u, p, {ADD}, |us|);
        LastHitStep(us, u, p, {ADD, UPDATE}, |us|);
        UpdatesSinceStep(us, u, |us|, p);
        assert LevelIs(longer, s', p, |us|, |us|);
      } else {
        var a: nat, q: nat :| LastHit(us, a, p, {ADD}) && LastHit(us, q, p, {ADD, UPDATE}) && LevelIs(us, s, p, a, q);
        var q' := if u.delta.price == p && u.delta.action == UPDATE then |us| else q;
        LastHitStep(us, u, p, {ADD}, a);
        LastHitStep(us, u, p, {ADD, UPDATE}, q');
        UpdatesSinceStep(us, u, a, p);
        NextCount(UpdatesSince(us, a, p));
        assert LevelIs(longer, s', p, a, q');
      }
    }
  }

  /** Read off the history alone: a price is present if and only if an Add hit it and no Delete since; its
      quantity is that of the last Add or Update at it, and its order count one for the last Add and one
      for every Update since, modulo 2^32.  The time is that of the last delta. */
  lemma {:induction false} LevelsFromHistory(us: seq<Update>, p: nat)
    ensures LevelRight(us, ApplyAll(EMPTY, us), p)
    ensures ApplyAll(EMPTY, us).lastUpdate == if us == [] then 0 else us[|us| - 1].now
  {
    if us == [] {
      assert !Standing(us, p);
    } else {
      var init, u := us[..|us| - 1], us[|us| - 1];
      assert us == init + [u];
      LevelsFromHistory(init, p);
      ApplyLast(EMPTY, init, u);
      LevelStep(init, ApplyAll(EMPTY, init), u, p);
    }
  }

  // ---------------------------------------------------------------------------
  // The struct
  // ---------------------------------------------------------------------------

  class OrderBookSide {
    var levels: map<nat, PriceLevel>
    var totalVolume: int
    var lastUpdate: int
    ghost var lost: int
    ghost var history: seq<Update>        // every delta so far

    ghost function View(): Side
      reads this
    {
      Side(levels, totalVolume, lastUpdate)
    }

    ghost predicate Valid()
      reads this
    {
      View() == ApplyAll(EMPTY, history) && VolumeOff(View(), lost) && lost == LostAlong(EMPTY, history)
    }

    constructor ()
      ensures View() == EMPTY && Valid() && history == []
    {
      levels, totalVolume, lastUpdate, lost, history := map[], 0, 0, 0, [];
    }

    method Apply(d: Delta, now: int)
      requires Valid()
      modifies this
      ensures Valid() && history == old(history) + [Update(d, now)]
      ensures View() == ApplyDelta(old(View()), d, now)
      ensures forall p :: LevelRight(history, View(), p)
    {
      VolumeStep(View(), d, now, lost);
      ApplyLast(EMPTY, history, Update(d, now));
      LostLast(EMPTY, history, Update(d, now));
      lost := lost + Overwritten(View(), d);
      history := history + [Update(d, now)];
      if d.action == 0 {
        totalVolume := WrappingAdd(totalVolume, d.quantity);
        levels := levels[d.price := PriceLevel(d.price, d.quantity, 1)];
      } else if d.action == 1 {
        if d.price in levels {
          var level := levels[d.price];
          levels := levels[d.price := PriceLevel(level.price, d.quantity, (level.orderCount + 1) % U32)];
          if d.quantity > level.quantity {
            totalVolume := WrappingAdd(totalVolume, d.quantity - level.quantity);
          } else {
            totalVolume := WrappingSub(totalVolume, level.quantity - d.quantity);
          }
        }
      } else if d.action == 2 {
        if d.price in levels {
          var level := levels[d.price];
          levels := levels - {d.price};
          totalVolume := WrappingSub(totalVolume, level.quantity);
        }
      }
      lastUpdate := now;
      forall p ensures LevelRight(history, View(), p) {
        LevelsFromHistory(history, p);
      }
    }
  }
}
