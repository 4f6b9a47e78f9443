/** The regime history of python/alt_data/regime_encoder.py: reconstruction of the chronological
    order, and the transition features read off the buffer in physical order. */
module RegimeEncoder {
  import opened RingHistory

  /** The valid history as `_compute_context_embedding` slices it. */
  function Reconstruct<T>(buf: seq<T>, head: nat, count: nat): seq<T>
    requires head <= |buf|
  {
    if head >= count then buf[head - count..head] else buf[head..] + buf[..head]
  }

  /** The reconstruction is the last `min(n, L)` updates, oldest first. */
  lemma ReconstructIsChronological<T>(buf: seq<T>, head: nat, count: nat, log: seq<T>)
    requires Mirrors(buf, head, count, log) && head < |buf|
    ensures count <= |log| && Reconstruct(buf, head, count) == Last(log, count)
  {
  }

  // ---------------------------------------------------------------------------
  // Transition counts
  // ---------------------------------------------------------------------------

  /** `np.sum(np.diff(s) != 0)` */
  function Transitions(s: seq<int>): nat {
    if |s| < 2 then 0 else (if s[0] != s[1] then 1 else 0) + Transitions(s[1..])
  }

  function Seam(a: int, b: int): nat { if a != b then 1 else 0 }

  lemma {:induction false} TransitionsConcat(a: seq<int>, b: seq<int>)
    requires a != [] && b != []
    ensures Transitions(a + b) == Transitions(a) + Seam(a[|a| - 1], b[0]) + Transitions(b)
    decreases |a|
  {
    assert (a + b)[1..] == a[1..] + b;
    if |a| == 1 {
      assert a[1..] + b == b;
    } else {
      TransitionsConcat(a[1..], b);
    }
  }

  lemma {:induction false} TransitionsBound(s: seq<int>)
    requires |s| >= 1
    ensures Transitions(s) <= |s| - 1
  {
    if |s| >= 2 {
      TransitionsBound(s[1..]);
    }
  }

  /** Counting in physical order replaces the seam at the ends of the array by the seam at the head,
      and so is off by at most one. */
  lemma PhysicalCount(buf: seq<int>, head: nat, count: nat, log: seq<int>)
    requires Mirrors(buf, head, count, log) && head < |buf|
    ensures count <= |log|
    ensures var physical, chronological := Transitions(buf[..count]), Transitions(Last(log, count));
            if count < |buf| || head == 0 then physical == chronological
            else physical - chronological == Seam(buf[head - 1], buf[head]) - Seam(buf[|buf| - 1], buf[0])
  {
    if count == |buf| && head != 0 {
      var a, b := buf[..head], buf[head..];
      assert buf[..count] == a + b;
      TransitionsConcat(a, b);
      TransitionsConcat(b, a);
    } else if count == |buf| {
      assert buf[..count] == buf[head..] + buf[..head];
    }
  }

  // ---------------------------------------------------------------------------
  // The reported pair
  // ---------------------------------------------------------------------------

  /** (previous, current) as `get_transition_features` picks them. */
  function Recent(buf: seq<int>, head: nat): (int, int)
    requires |buf| >= 2 && head <= |buf|
  {
    if head >= 2 then (buf[head - 2], buf[head - 1]) else (buf[|buf| - 2], buf[|buf| - 1])
  }

  /** The buffer has wrapped, and exactly one entry has been written since the last time the head was 0. */
  predicate JustWrapped(updates: nat, size: nat)
    requires size > 0
  {
    updates >= size && updates % size == 1
  }

  /** The pair is the last two updates unless the buffer has just wrapped; then the "current" regime is the
      one before the latest. */
  lemma RecentPair(buf: seq<int>, head: nat, count: nat, log: seq<int>)
    requires Mirrors(buf, head, count, log) && head < |buf| && count >= 2
    ensures |log| >= 2 && |buf| >= 2
    ensures !JustWrapped(|log|, |buf|) ==> Recent(buf, head) == (log[|log| - 2], log[|log| - 1])
    ensures JustWrapped(|log|, |buf|) ==>
              && Recent(buf, head).1 == log[|log| - 2]
              && Recent(buf, head).0 == if |buf| == 2 then log[|log| - 1] else log[|log| - 3]
  {
    assert head == 1 <==> JustWrapped(|log|, |buf|);
    ReadBack(buf, head, count, log, 0);
    ReadBack(buf, head, count, log, 1);
    if count >= 3 {
      ReadBack(buf, head, count, log, 2);
    }
  }

  /** The pair reported after the updates of `log`. */
  function Reported(size: nat, log: seq<int>): (int, int)
    requires size >= 2
  {
    var r := After(size, 0, log);
    Recent(r.buf, r.head)
  }

  lemma ReportedPair(size: nat, log: seq<int>)
    requires size >= 2 && |log| >= 2
    ensures !JustWrapped(|log|, size) ==> Reported(size, log) == (log[|log| - 2], log[|log| - 1])
    ensures JustWrapped(|log|, size) ==> Reported(size, log).1 == log[|log| - 2]
  {
    var r := After(size, 0, log);
    AfterMirrors(size, 0, log);
    RecentPair(r.buf, r.head, r.count, log);
  }

  /** After `n` updates the pair is the last two, whatever the regimes, if and only if the buffer has not
      just wrapped. */
  lemma ReportedExactly(size: nat, n: nat)
    requires size >= 2 && n >= 2
    ensures (forall log: seq<int> :: |log| == n ==> Reported(size, log) == (log[n - 2], log[n - 1]))
       <==> !JustWrapped(n, size)
  {
    if JustWrapped(n, size) {
      var log := seq(n, i => i);
      ReportedPair(size, log);
      assert |log| == n && Reported(size, log).1 == n - 2 != log[n - 1];
    } else {
      forall log: seq<int> | |log| == n ensures Reported(size, log) == (log[n - 2], log[n - 1]) {
        ReportedPair(size, log);
      }
    }
  }

  /** `Unknown` is the two-entry dictionary returned before the second update. */
  datatype Features =
    | Unknown(transitionProb: Ratio, stability: Ratio)
    | Known(isTransition: bool, transitionProb: Ratio, stability: Ratio, current: int, previous: int)

  /** A quotient of two counts, kept as the counts. */
  datatype Ratio = Ratio(num: int, den: nat)

  /** `get_transition_features` */
  function FeaturesOf(buf: seq<int>, head: nat, count: nat): Features
    requires head < |buf| && count <= |buf|
  {
    if count < 2 then Unknown(Ratio(0, 1), Ratio(1, 1))
    else
      var (previous, current) := Recent(buf, head);
      var transitions := Transitions(buf[..count]);
      Known(previous != current, Ratio(transitions, count - 1), Ratio(count - 1 - transitions, count - 1),
            current, previous)
  }

  /** The reported transition frequency is a frequency, complementary to the stability, and within
      one transition of the chronological one. */
  lemma FrequencyWithinOne(buf: seq<int>, head: nat, count: nat, log: seq<int>)
    requires Mirrors(buf, head, count, log) && head < |buf| && count >= 2
    ensures count <= |buf| && count <= |log|
    ensures var f := FeaturesOf(buf, head, count);
            var exact := Transitions(Last(log, count));
            && f.Known? && f.transitionProb.den == f.stability.den == count - 1
            && f.transitionProb.num + f.stability.num == count - 1 && f.stability.num >= 0
            && exact - 1 <= f.transitionProb.num <= exact + 1
  {
    PhysicalCount(buf, head, count, log);
    TransitionsBound(buf[..count]);
  }

  /** The frequency in terms of the updates: exact until the buffer wraps and whenever the head is back at 0;
      otherwise the seam between the latest and the oldest update in the buffer is counted instead of the one
      between the updates at the two ends of the array. */
  lemma FrequencyFromHistory(size: nat, log: seq<int>)
    requires size >= 2 && |log| >= size && |log| % size != 0
    ensures var r := After(size, 0, log);
            var h := |log| % size;
            FeaturesOf(r.buf, r.head, r.count).transitionProb.num - Transitions(Last(log, size))
              == Seam(log[|log| - 1], log[|log| - size]) - Seam(log[|log| - 1 - h], log[|log| - h])
  {
    var r := After(size, 0, log);
    AfterMirrors(size, 0, log);
    PhysicalCount(r.buf, r.head, r.count, log);
    ReadBack(r.buf, r.head, r.count, log, 0);
    ReadBack(r.buf, r.head, r.count, log, size - 1);
    ReadBack(r.buf, r.head, r.count, log, r.head - 1);
    ReadBack(r.buf, r.head, r.count, log, r.head);
  }

  lemma FrequencyExactEarly(size: nat, log: seq<int>)
    requires size >= 2 && |log| >= 2 && (|log| < size || |log| % size == 0)
    ensures var r := After(size, 0, log);
            var n := if |log| < size then |log| else size;
            var f := FeaturesOf(r.buf, r.head, r.count);
            f.Known? && f.transitionProb == Ratio(Transitions(Last(log, n)), n - 1)
  {
    var r := After(size, 0, log);
    AfterMirrors(size, 0, log);
    PhysicalCount(r.buf, r.head, r.count, log);
  }

  /** The transition flag compares the reported pair: the last two updates, or the two before the latest when a
      buffer of more than two has just wrapped.  Before the second update nothing is known. */
  lemma TransitionFlag(size: nat, log: seq<int>)
    requires size >= 1
    ensures var r := After(size, 0, log);
            var f := FeaturesOf(r.buf, r.head, r.count);
            && (size == 1 || |log| < 2 ==> f == Unknown(Ratio(0, 1), Ratio(1, 1)))
            && (size >= 2 && |log| >= 2 ==>
                  && f.Known?
                  && (f.isTransition <==>
                        if JustWrapped(|log|, size) && size > 2 then log[|log| - 3] != log[|log| - 2]
                        else log[|log| - 2] != log[|log| - 1]))
  {
    var r := After(size, 0, log);
    AfterMirrors(size, 0, log);
    if size >= 2 && |log| >= 2 {
      RecentPair(r.buf, r.head, r.count, log);
    }
  }

  /** A buffer of three after four updates: the latest regime, 4, is not reported as current. */
  lemma StaleCurrent()
    ensures var r := After(3, 0, [3, 1, 2, 4]);
            var f := FeaturesOf(r.buf, r.head, r.count);
            r.count == 3 && f.Known? && f.current == 2 && f.previous == 1
  {
    var log := [3, 1, 2, 4];
    var r := After(3, 0, log);
    AfterMirrors(3, 0, log);
    RecentPair(r.buf, r.head, r.count, log);
  }

  // ---------------------------------------------------------------------------
  // The class
  // ---------------------------------------------------------------------------

  class RegimeEncoder {
    const contextLength: nat
    const history: array<int>
    const historyConfidence: array<real>
    var head: nat
    var count: nat
    ghost var regimes: seq<int>           // every update so far
    ghost var confidences: seq<real>

    ghost predicate Valid()
      reads this, history, historyConfidence
    {
      && history.Length == historyConfidence.Length == contextLength > head
      && |regimes| == |confidences|
      && Mirrors(history[..], head, count, regimes)
      && Mirrors(historyConfidence[..], head, count, confidences)
    }

    constructor (contextLength: nat)
      requires contextLength > 0
      ensures Valid() && regimes == [] && confidences == []
      ensures fresh(history) && fresh(historyConfidence)
    {
      this.contextLength := contextLength;
      history := new int[contextLength](_ => 0);
      historyConfidence := new real[contextLength](_ => 0.0);
      head, count, regimes, confidences := 0, 0, [], [];
    }

    /** The buffer update of `update_regime`. */
    method UpdateRegime(regime: int, confidence: real)
      requires Valid()
      modifies this, history, historyConfidence
      ensures Valid()
      ensures regimes == old(regimes) + [regime] && confidences == old(confidences) + [confidence]
    {
      Put(history, head, regime, count, regimes);
      Put(historyConfidence, head, confidence, count, confidences);
      head := Next(head, contextLength);
      count := Saturate(count, contextLength);
      regimes := regimes + [regime];
      confidences := confidences + [confidence];
    }

    /** The history slices of `_compute_context_embedding`. */
    method ContextHistory() returns (h: seq<int>, c: seq<real>)
      requires Valid()
      ensures count <= |regimes| && h == Last(regimes, count) && c == Last(confidences, count)
      ensures |h| == if |regimes| < contextLength then |regimes| else contextLength
    {
      ReconstructIsChronological(history[..], head, count, regimes);
      ReconstructIsChronological(historyConfidence[..], head, count, confidences);
      if head >= count {
        h, c := history[head - count..head], historyConfidence[head - count..head];
      } else {
        h := history[head..] + history[..head];
        c := historyConfidence[head..] + historyConfidence[..head];
      }
    }

    method GetTransitionFeatures() returns (f: Features)
      requires Valid()
      ensures count <= contextLength && f == FeaturesOf(history[..], head, count)
      ensures f.Known? ==> |regimes| >= 2
      ensures f.Known? && !JustWrapped(|regimes|, contextLength) ==>
                f.previous == regimes[|regimes| - 2] && f.current == regimes[|regimes| - 1]
      ensures f.Known? && JustWrapped(|regimes|, contextLength) ==> f.current == regimes[|regimes| - 2]
    {
      if count < 2 {
        return Unknown(Ratio(0, 1), Ratio(1, 1));
      }
      RecentPair(history[..], head, count, regimes);
      var h := history[..];
      var (previous, current) := Recent(h, head);
      var transitions := CountTransitions(h[..count]);
      f := Known(previous != current, Ratio(transitions, count - 1), Ratio(count - 1 - transitions, count - 1),
                 current, previous);
    }
  }

  method CountTransitions(s: seq<int>) returns (n: nat)
    ensures n == Transitions(s)
  {
    n := 0;
    var i := 1;
    while i < |s|
      invariant 1 <= i
      invariant i <= |s| ==> n + Transitions(s[i - 1..]) == Transitions(s)
      invariant |s| == 0 ==> n == 0
      invariant |s| > 0 ==> i <= |s|
    {
      assert s[i - 1..][1..] == s[i..];
      if s[i] != s[i - 1] {
        n := n + 1;
      }
      i := i + 1;
    }
  }
}
