/** The event buffer of python/deep_learning/temporal_attention.py: a circular buffer of timestamps
    and feature rows, and a backward walk that collects the recent ones. */
module TemporalAttention {
  import opened RingHistory

  const MAX_EVENTS: nat := 1000

  /** How many events a walk can return at most: a full buffer gives up its oldest entry. */
  function WalkLimit(n: nat): nat {
    if n < MAX_EVENTS - 1 then n else MAX_EVENTS - 1
  }

  /** `k` is the length of the longest run of latest events at or after the cutoff, up to the limit. */
  ghost predicate LongestRun(log: seq<int>, cutoff: int, k: nat) {
    && k <= WalkLimit(|log|)
    && (forall i :: 0 <= i < k ==> Newest(log, i) >= cutoff)
    && (k < WalkLimit(|log|) ==> Newest(log, k) < cutoff)
  }

  /** The run is every event of the window within the limit. */
  ghost predicate WholeWindow(log: seq<int>, cutoff: int, k: nat) {
    forall i :: 0 <= i < WalkLimit(|log|) ==> (Newest(log, i) >= cutoff <==> i < k)
  }

  /** Within the limit, the in-window events are the latest ones. */
  ghost predicate WindowIsLatest(log: seq<int>, cutoff: int) {
    forall i, j :: 0 <= i < j < WalkLimit(|log|) && Newest(log, j) >= cutoff ==> Newest(log, i) >= cutoff
  }

  /** The run misses no event of the window if and only if no older event is in it while a later one
      is not. */
  lemma RunIsWholeWindow(log: seq<int>, cutoff: int, k: nat)
    requires LongestRun(log, cutoff, k)
    ensures WholeWindow(log, cutoff, k) <==> WindowIsLatest(log, cutoff)
  {
    if WindowIsLatest(log, cutoff) && k < WalkLimit(|log|) {
      assert Newest(log, k) < cutoff;
      assert forall i :: k < i < WalkLimit(|log|) ==> Newest(log, i) < cutoff;
    }
  }

  ghost predicate NonDecreasing(log: seq<int>) {
    forall i, j :: 0 <= i <= j < |log| ==> log[i] <= log[j]
  }

  /** What a walk can reach. */
  ghost function Latest(log: seq<int>): seq<int> {
    log[|log| - WalkLimit(|log|)..]
  }

  lemma OrderedIsLatest(log: seq<int>, cutoff: int)
    requires NonDecreasing(Latest(log))
    ensures WindowIsLatest(log, cutoff)
  {
    var latest := Latest(log);
    forall i, j | 0 <= i < j < |latest| && Newest(log, j) >= cutoff ensures Newest(log, i) >= cutoff {
      assert latest[|latest| - 1 - j] <= latest[|latest| - 1 - i];
    }
  }

  lemma LatestIsOrdered(log: seq<int>, i: nat, j: nat)
    requires i <= j < |Latest(log)| && WindowIsLatest(log, Latest(log)[i])
    ensures Latest(log)[i] <= Latest(log)[j]
  {
    var n := |Latest(log)|;
    assert Newest(log, n - 1 - i) == Latest(log)[i] && Newest(log, n - 1 - j) == Latest(log)[j];
  }

  /** Every cutoff is served in full if and only if the timestamps in reach never go back. */
  lemma OrderedLogsAreWhole(log: seq<int>)
    ensures (forall cutoff :: WindowIsLatest(log, cutoff)) <==> NonDecreasing(Latest(log))
    ensures NonDecreasing(log) ==> NonDecreasing(Latest(log))
  {
    if NonDecreasing(Latest(log)) {
      forall cutoff ensures WindowIsLatest(log, cutoff) {
        OrderedIsLatest(log, cutoff);
      }
    }
    if forall cutoff :: WindowIsLatest(log, cutoff) {
      forall i, j | 0 <= i <= j < |Latest(log)| ensures Latest(log)[i] <= Latest(log)[j] {
        LatestIsOrdered(log, i, j);
      }
    }
  }

  /** Exactly one length is the longest run. */
  lemma LongestRunUnique(log: seq<int>, cutoff: int, k: nat, l: nat)
    requires LongestRun(log, cutoff, k) && LongestRun(log, cutoff, l)
    ensures k == l
  {
    RunNoLonger(log, cutoff, k, l);
    RunNoLonger(log, cutoff, l, k);
  }

  lemma RunNoLonger(log: seq<int>, cutoff: int, k: nat, l: nat)
    requires LongestRun(log, cutoff, k) && LongestRun(log, cutoff, l)
    ensures k <= l
  {
    assert l < WalkLimit(|log|) ==> Newest(log, l) < cutoff;
  }

  /** An old event hides in-window ones behind it. */
  lemma OutOfOrderHides()
    ensures LongestRun([9, 1, 10], 5, 1) && [9, 1, 10][0] >= 5
  {
    assert Newest([9, 1, 10], 1) == 1;
  }

  class TemporalAttentionBuffer<Row(0)> {
    const features: array<Row>
    const timestamps: array<int>
    var head: nat
    var count: nat
    var lastTimestamp: int
    ghost var rows: seq<Row>              // every event so far
    ghost var times: seq<int>

    ghost predicate Valid()
      reads this, features, timestamps
    {
      && features.Length == timestamps.Length == MAX_EVENTS > head
      && features as object != timestamps as object
      && |rows| == |times|
      && Mirrors(features[..], head, count, rows)
      && Mirrors(timestamps[..], head, count, times)
      && (times != [] ==> lastTimestamp == times[|times| - 1])
    }

    constructor (blank: Row)
      ensures Valid() && rows == [] && times == []
      ensures fresh(features) && fresh(timestamps)
    {
      features := new Row[MAX_EVENTS](_ => blank);
      timestamps := new int[MAX_EVENTS](_ => 0);
      head, count, lastTimestamp, rows, times := 0, 0, 0, [], [];
    }

    method AddEvent(row: Row, timestamp: int)
      requires Valid()
      modifies this, features, timestamps
      ensures Valid()
      ensures rows == old(rows) + [row] && times == old(times) + [timestamp]
    {
      ghost var before := timestamps[..];
      Put(features, head, row, count, rows);
      assert timestamps[..] == before;
      ghost var written := features[..];
      Put(timestamps, head, timestamp, count, times);
      assert features[..] == written;
      head := Next(head, MAX_EVENTS);
      if count < MAX_EVENTS {
        count := count + 1;
      }
      lastTimestamp := timestamp;
      rows, times := rows + [row], times + [timestamp];
    }

    /** The latest events in `rs` and `ts`, newest first, none before the cutoff. */
    ghost predicate Collected(rs: seq<Row>, ts: seq<int>, cutoff: int)
      reads this
    {
      && |rs| == |ts| <= |times| == |rows|
      && forall i :: 0 <= i < |ts| ==> ts[i] == Newest(times, i) && ts[i] >= cutoff && rs[i] == Newest(rows, i)
    }

    lemma EntryBack(i: nat)
      requires Valid() && i < count
      ensures i < |times| == |rows| && 0 <= SlotBack(MAX_EVENTS, head, i) < MAX_EVENTS
      ensures timestamps[SlotBack(MAX_EVENTS, head, i)] == Newest(times, i)
      ensures features[SlotBack(MAX_EVENTS, head, i)] == Newest(rows, i)
    {
      ReadBack(timestamps[..], head, count, times, i);
      ReadBack(features[..], head, count, rows, i);
    }

    /** Newest first, the longest run of latest events inside the window. */
    method GetRecentEvents(windowNs: int) returns (rs: seq<Row>, ts: seq<int>)
      requires Valid()
      ensures Collected(rs, ts, lastTimestamp - windowNs) && LongestRun(times, lastTimestamp - windowNs, |ts|)
    {
      rs, ts := [], [];
      if count == 0 {
        return;
      }
      var cutoff := lastTimestamp - windowNs;
      var idx := head - 1;
      if idx < 0 {
        idx := MAX_EVENTS - 1;
      }
      while true
        invariant |ts| < count <= |times| && |ts| < MAX_EVENTS - 1 && Collected(rs, ts, cutoff)
        invariant idx == SlotBack(MAX_EVENTS, head, |ts|)
        decreases MAX_EVENTS - |ts|
      {
        EntryBack(|ts|);
        if timestamps[idx] >= cutoff {
          rs := rs + [features[idx]];
          ts := ts + [timestamps[idx]];
          idx := idx - 1;
          if idx < 0 {
            idx := MAX_EVENTS - 1;
          }
          if idx == head {
            break;
          }
        } else {
          break;
        }
        if |rs| >= count {
          break;
        }
      }
    }
  }
}
