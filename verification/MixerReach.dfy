/** What the breadth-first search of `calculate_risk_score` is to find, and why its queue discipline
    finds exactly that. */
module MixerReach {
  import opened Common
  import opened TxGraph

  /** A queue entry or a connection: an address and its distance. */
  datatype Entry = Entry(node: Address, hops: nat)

  function Neighbours(g: Graph, a: Address): set<Address> {
    Out(g, a) + In(g, a)
  }

  /** From position `i` of `p`, which is no mixer, to its neighbour at the next. */
  predicate Hop(g: Graph, p: seq<Address>, i: int)
    requires 0 <= i < |p| - 1
  {
    p[i] !in g.mixers && (p[i + 1] in Out(g, p[i]) || p[i + 1] in In(g, p[i]))
  }

  /** An undirected path from `s` to `v` that meets no mixer before its end. */
  ghost predicate Path(g: Graph, s: Address, p: seq<Address>, v: Address) {
    && |p| >= 1 && p[0] == s && p[|p| - 1] == v
    && (forall i :: 0 <= i < |p| - 1 ==> Hop(g, p, i))
  }

  ghost predicate Reaches(g: Graph, s: Address, v: Address, d: nat) {
    exists p :: Path(g, s, p, v) && |p| == d + 1
  }

  ghost predicate Shortest(g: Graph, s: Address, v: Address, d: nat) {
    Reaches(g, s, v, d) && forall e: nat :: e < d ==> !Reaches(g, s, v, e)
  }

  /** Each mixer within `depth` hops exactly once, with the length of a shortest path. */
  ghost predicate Exact(g: Graph, s: Address, depth: int, conns: seq<Entry>) {
    && NoDup(conns)
    && forall m, d: nat :: Entry(m, d) in conns <==> m in g.mixers && d <= depth && Shortest(g, s, m, d)
  }

  lemma ReachesSelf(g: Graph, s: Address)
    ensures Shortest(g, s, s, 0)
  {
    assert Path(g, s, [s], s);
  }

  lemma ReachesZero(g: Graph, s: Address, v: Address)
    requires Reaches(g, s, v, 0)
    ensures v == s
  {
  }

  lemma ReachesNext(g: Graph, s: Address, u: Address, d: nat, v: Address)
    requires Reaches(g, s, u, d) && u !in g.mixers && v in Neighbours(g, u)
    ensures Reaches(g, s, v, d + 1)
  {
    var p :| Path(g, s, p, u) && |p| == d + 1;
    var q := p + [v];
    forall i | 0 <= i < |q| - 1 ensures Hop(g, q, i) {
      if i < |p| - 1 {
        assert Hop(g, p, i);
      }
    }
    assert Path(g, s, q, v);
  }

  // ---------------------------------------------------------------------------
  // The search invariant
  // ---------------------------------------------------------------------------

  type Distances = map<Address, nat>

  /** `v` has been seen within `d` hops: it is visited, or waits in the queue. */
  ghost predicate Covered(dist: Distances, queue: seq<Entry>, v: Address, d: nat) {
    (v in dist && dist[v] <= d) || exists e: nat :: e <= d && Entry(v, e) in queue
  }

  ghost predicate QueueSorted(queue: seq<Entry>) {
    forall i, j :: 0 <= i <= j < |queue| ==> queue[i].hops <= queue[j].hops <= queue[0].hops + 1
  }

  ghost predicate QueueSound(g: Graph, s: Address, depth: int, queue: seq<Entry>) {
    forall v, d: nat :: Entry(v, d) in queue ==> Reaches(g, s, v, d) && (d <= depth || (d == 0 && v == s))
  }

  ghost predicate DistExact(g: Graph, s: Address, depth: int, dist: Distances, queue: seq<Entry>) {
    forall v :: v in dist ==>
      Shortest(g, s, v, dist[v]) && dist[v] <= depth && (queue != [] ==> dist[v] <= queue[0].hops)
  }

  /** Everything one hop beyond an expanded node is covered. */
  ghost predicate Closed(g: Graph, s: Address, depth: int, dist: Distances, queue: seq<Entry>) {
    && (depth >= 0 ==> Covered(dist, queue, s, 0))
    && (forall u, v :: u in dist && u !in g.mixers && dist[u] < depth && v in Neighbours(g, u) ==>
         Covered(dist, queue, v, dist[u] + 1))
  }

  ghost predicate Searching(g: Graph, s: Address, depth: int, dist: Distances, queue: seq<Entry>) {
    && QueueSorted(queue) && QueueSound(g, s, depth, queue)
    && DistExact(g, s, depth, dist, queue) && Closed(g, s, depth, dist, queue)
  }

  ghost predicate Found(g: Graph, dist: Distances, conns: seq<Entry>) {
    NoDup(conns) && forall m, d: nat :: Entry(m, d) in conns <==> m in g.mixers && m in dist && dist[m] == d
  }

  lemma SearchStarts(g: Graph, s: Address, depth: int)
    ensures Searching(g, s, depth, map[], [Entry(s, 0)])
  {
    ReachesSelf(g, s);
    assert Entry(s, 0) in [Entry(s, 0)];
  }

  /** Along any admissible path, the search has visited the node at step `k` in time, or still has
      something at least as near in its queue. */
  lemma {:induction false} Frontier(g: Graph, s: Address, depth: int, dist: Distances, queue: seq<Entry>,
                                    p: seq<Address>, v: Address, k: nat)
    requires Closed(g, s, depth, dist, queue)
    requires Path(g, s, p, v) && |p| - 1 <= depth && k < |p|
    ensures (p[k] in dist && dist[p[k]] <= k) || (exists i :: 0 <= i < |queue| && queue[i].hops <= k)
  {
    if k == 0 {
      assert Covered(dist, queue, s, 0);
    } else {
      Frontier(g, s, depth, dist, queue, p, v, k - 1);
      var u := p[k - 1];
      assert Hop(g, p, k - 1);
      if u in dist && dist[u] <= k - 1 {
        assert p[k] in Neighbours(g, u);
        assert Covered(dist, queue, p[k], dist[u] + 1);
      }
    }
  }

  lemma FrontIsNearest(g: Graph, s: Address, depth: int, dist: Distances, queue: seq<Entry>, e: nat)
    requires Searching(g, s, depth, dist, queue)
    requires queue != [] && queue[0].node !in dist && queue[0].hops <= depth
    requires Reaches(g, s, queue[0].node, e)
    ensures queue[0].hops <= e
  {
    if e <= depth {
      var p :| Path(g, s, p, queue[0].node) && |p| == e + 1;
      Frontier(g, s, depth, dist, queue, p, queue[0].node, e);
      var i :| 0 <= i < |queue| && queue[i].hops <= e;
      assert queue[0].hops <= queue[i].hops;
    }
  }

  /** The first unvisited entry of the queue carries a shortest distance. */
  lemma FrontIsShortest(g: Graph, s: Address, depth: int, dist: Distances, queue: seq<Entry>)
    requires Searching(g, s, depth, dist, queue)
    requires queue != [] && queue[0].node !in dist && queue[0].hops <= depth
    ensures Shortest(g, s, queue[0].node, queue[0].hops)
  {
    assert Entry(queue[0].node, queue[0].hops) in queue;
    forall e: nat | Reaches(g, s, queue[0].node, e) ensures queue[0].hops <= e {
      FrontIsNearest(g, s, depth, dist, queue, e);
    }
  }

  lemma ShortestUnique(g: Graph, s: Address, v: Address, d: nat, e: nat)
    requires Shortest(g, s, v, d) && Reaches(g, s, v, e)
    ensures d <= e
  {
  }

  /** With the queue drained, what was visited is what there is. */
  lemma SearchEnds(g: Graph, s: Address, depth: int, dist: Distances, conns: seq<Entry>)
    requires Searching(g, s, depth, dist, []) && Found(g, dist, conns)
    ensures Exact(g, s, depth, conns)
  {
    forall m, d: nat | m in g.mixers && d <= depth && Shortest(g, s, m, d) ensures m in dist && dist[m] == d {
      var p :| Path(g, s, p, m) && |p| == d + 1;
      Frontier(g, s, depth, dist, [], p, m, d);
      ShortestUnique(g, s, m, d, dist[m]);
      ShortestUnique(g, s, m, dist[m], d);
    }
  }

  // ---------------------------------------------------------------------------
  // The search steps
  // ---------------------------------------------------------------------------

  lemma CoveredAfterPop(dist: Distances, queue: seq<Entry>, dist': Distances, queue': seq<Entry>, v: Address, d: nat)
    requires Covered(dist, queue, v, d) && queue != []
    requires queue[1..] <= queue'
    requires forall u :: u in dist ==> u in dist' && dist'[u] == dist[u]
    requires queue[0].node in dist' && dist'[queue[0].node] <= queue[0].hops
    ensures Covered(dist', queue', v, d)
  {
    if !(v in dist && dist[v] <= d) {
      var e: nat :| e <= d && Entry(v, e) in queue;
      var i :| 0 <= i < |queue| && queue[i] == Entry(v, e);
      if i > 0 {
        assert queue[1..][i - 1] == Entry(v, e);
        assert queue'[i - 1] == Entry(v, e);
      }
    }
  }

  lemma SortedTail(queue: seq<Entry>)
    requires QueueSorted(queue) && queue != []
    ensures QueueSorted(queue[1..])
  {
    var t := queue[1..];
    forall i, j | 0 <= i <= j < |t| ensures t[i].hops <= t[j].hops <= t[0].hops + 1 {
      assert t[i] == queue[i + 1] && t[j] == queue[j + 1] && t[0] == queue[1];
      assert queue[0].hops <= queue[1].hops;
    }
  }

  /** Popping a node that was visited before, or that lies too far, loses nothing. */
  lemma Skip(g: Graph, s: Address, depth: int, dist: Distances, queue: seq<Entry>)
    requires Searching(g, s, depth, dist, queue) && queue != []
    requires queue[0].node in dist || queue[0].hops > depth
    ensures Searching(g, s, depth, dist, queue[1..])
  {
    var t := queue[1..];
    SortedTail(queue);
    assert queue[0] in queue;
    assert forall e :: e in t ==> e in queue;
    if t != [] {
      assert t[0] == queue[1] && queue[0].hops <= queue[1].hops;
    }
    if queue[0].node in dist {
      if depth >= 0 {
        CoveredAfterPop(dist, queue, dist, t, s, 0);
      }
      forall u, v | u in dist && u !in g.mixers && dist[u] < depth && v in Neighbours(g, u)
        ensures Covered(dist, t, v, dist[u] + 1)
      {
        CoveredAfterPop(dist, queue, dist, t, v, dist[u] + 1);
      }
    }
  }

  /** `queue'` is `queue` without its head, followed by the head's unvisited neighbours one hop
      further, in any order. */
  ghost predicate Expanded(g: Graph, depth: int, visited: set<Address>, queue: seq<Entry>, queue': seq<Entry>)
    requires queue != []
  {
    var Entry(x, d) := queue[0];
    && queue[1..] <= queue'
    && (forall i :: |queue| - 1 <= i < |queue'| ==>
          queue'[i].node in Neighbours(g, x) && queue'[i].hops == d + 1 && x !in g.mixers && d < depth)
    && (x !in g.mixers && d < depth ==>
          forall v :: v in Neighbours(g, x) && v !in visited ==> Entry(v, d + 1) in queue')
  }

  lemma ExpandedSorted(g: Graph, depth: int, visited: set<Address>, queue: seq<Entry>, queue': seq<Entry>)
    requires queue != [] && QueueSorted(queue) && Expanded(g, depth, visited, queue, queue')
    ensures QueueSorted(queue')
    ensures queue' != [] ==> queue[0].hops <= queue'[0].hops
  {
    var d := queue[0].hops;
    var t := queue[1..];
    forall i | 0 <= i < |queue'| ensures d <= queue'[i].hops <= d + 1 && (i < |t| ==> queue'[i] == queue[i + 1]) {
      if i < |t| {
        assert queue'[i] == t[i];
        assert queue[0].hops <= queue[i + 1].hops <= queue[0].hops + 1;
      }
    }
    forall i, j | 0 <= i <= j < |queue'| ensures queue'[i].hops <= queue'[j].hops <= queue'[0].hops + 1 {
      if j < |t| {
        assert queue[i + 1].hops <= queue[j + 1].hops;
      }
    }
  }

  lemma ExpandedSound(g: Graph, s: Address, depth: int, visited: set<Address>, queue: seq<Entry>, queue': seq<Entry>)
    requires queue != [] && QueueSound(g, s, depth, queue) && Expanded(g, depth, visited, queue, queue')
    ensures QueueSound(g, s, depth, queue')
  {
    var Entry(x, d) := queue[0];
    assert Entry(x, d) in queue;
    forall v, e: nat | Entry(v, e) in queue' ensures Reaches(g, s, v, e) && (e <= depth || (e == 0 && v == s)) {
      var i :| 0 <= i < |queue'| && queue'[i] == Entry(v, e);
      if i < |queue| - 1 {
        assert queue[1..][i] == Entry(v, e);
        assert queue[i + 1] == Entry(v, e) && Entry(v, e) in queue;
      } else {
        ReachesNext(g, s, x, d, v);
      }
    }
  }

  lemma ExpandedClosed(g: Graph, s: Address, depth: int, dist: Distances, queue: seq<Entry>, queue': seq<Entry>)
    requires Closed(g, s, depth, dist, queue) && queue != [] && queue[0].node !in dist
    requires forall v :: v in dist ==> dist[v] <= queue[0].hops
    requires Expanded(g, depth, dist.Keys + {queue[0].node}, queue, queue')
    ensures Closed(g, s, depth, dist[queue[0].node := queue[0].hops], queue')
  {
    var Entry(x, d) := queue[0];
    var dist' := dist[x := d];
    if depth >= 0 {
      CoveredAfterPop(dist, queue, dist', queue', s, 0);
    }
    forall u, v | u in dist' && u !in g.mixers && dist'[u] < depth && v in Neighbours(g, u)
      ensures Covered(dist', queue', v, dist'[u] + 1)
    {
      if u == x {
        if v !in dist' {
          assert Entry(v, d + 1) in queue';
        }
      } else {
        CoveredAfterPop(dist, queue, dist', queue', v, dist[u] + 1);
      }
    }
  }

  /** Visiting the head and queueing its neighbours keeps the search invariant. */
  lemma Expand(g: Graph, s: Address, depth: int, dist: Distances, queue: seq<Entry>, queue': seq<Entry>)
    requires Searching(g, s, depth, dist, queue) && queue != []
    requires queue[0].node !in dist && queue[0].hops <= depth
    requires Expanded(g, depth, dist.Keys + {queue[0].node}, queue, queue')
    ensures Searching(g, s, depth, dist[queue[0].node := queue[0].hops], queue')
  {
    FrontIsShortest(g, s, depth, dist, queue);
    ExpandedSorted(g, depth, dist.Keys + {queue[0].node}, queue, queue');
    ExpandedSound(g, s, depth, dist.Keys + {queue[0].node}, queue, queue');
    ExpandedClosed(g, s, depth, dist, queue, queue');
  }
}
