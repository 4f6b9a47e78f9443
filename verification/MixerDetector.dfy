/** The classes of python/compliance/mixer_detector.py, proved against the value-level graph, search
    and score. */
module MixerDetector {
  import opened Common
  import opened TxGraph
  import opened MixerReach
  import opened MixerScore

  class TransactionGraph {
    const maxNodes: nat
    var adjacency: Adjacency
    var reverseAdjacency: Adjacency
    var nodeOrder: seq<Address>
    var nodeFlags: map<Address, nat>
    var nodeScores: map<Address, real>
    var mixerAddresses: set<Address>
    var nodeCount: int

    ghost function View(): Graph
      reads this
    {
      Graph(adjacency, reverseAdjacency, nodeOrder, nodeFlags, nodeScores, mixerAddresses, nodeCount)
    }

    constructor (maxNodes: nat)
      ensures View() == EMPTY && this.maxNodes == maxNodes
    {
      this.maxNodes := maxNodes;
      adjacency, reverseAdjacency, nodeOrder, nodeFlags := map[], map[], [], map[];
      nodeScores, mixerAddresses, nodeCount := map[], {}, 0;
    }

    method TouchNode(a: Address)
      modifies this
      ensures View() == Touch(old(View()), a)
    {
      if a !in nodeFlags {
        nodeOrder := nodeOrder + [a];
        nodeFlags := nodeFlags[a := 0];
        nodeScores := nodeScores[a := 0.0];
        nodeCount := nodeCount + 1;
      }
    }

    method AddTransaction(src: Address, dst: Address) returns (ok: bool)
      modifies this
      ensures (View(), ok) == TxGraph.AddTransaction(old(View()), maxNodes, src, dst)
    {
      ok := true;
      if nodeCount >= maxNodes {
        ok := PruneOldNodes();
      }
      if !ok {
        return;
      }
      TouchNode(src);
      TouchNode(dst);
      adjacency := adjacency[src := Get(adjacency, src) + {dst}];
      reverseAdjacency := reverseAdjacency[dst := Get(reverseAdjacency, dst) + {src}];
    }

    method MarkAsMixer(address: Address) returns (ok: bool)
      modifies this
      ensures (View(), ok) == TxGraph.MarkAsMixer(old(View()), address)
    {
      var a := Lower(address);
      mixerAddresses := mixerAddresses + {a};
      ok := a in nodeFlags;
      if ok {
        if !HasMixerBit(nodeFlags[a]) {
          nodeFlags := nodeFlags[a := nodeFlags[a] + FLAG_MIXER];
        } else {
          assert nodeFlags == nodeFlags[a := nodeFlags[a]];
        }
        nodeScores := nodeScores[a := 1.0];
      }
    }

    method PruneOldNodes() returns (ok: bool)
      modifies this
      ensures (View(), ok) == Prune(old(View()), maxNodes)
    {
      var toRemove := SelectPrunable(if maxNodes / 10 <= |nodeOrder| then nodeOrder[..maxNodes / 10] else nodeOrder);
      ok := RemoveNodes(toRemove);
    }

    method SelectPrunable(keys: seq<Address>) returns (toRemove: seq<Address>)
      ensures toRemove == Select(View(), keys)
    {
      toRemove := [];
      var i := 0;
      while i < |keys|
        invariant 0 <= i <= |keys|
        invariant toRemove + Select(View(), keys[i..]) == Select(View(), keys)
      {
        var a := keys[i];
        assert keys[i..][0] == a && keys[i..][1..] == keys[i + 1..];
        if a in nodeFlags && nodeFlags[a] == 0 && |Get(adjacency, a)| < 2 && |Get(reverseAdjacency, a)| < 2 {
          toRemove := toRemove + [a];
        }
        i := i + 1;
      }
    }

    method RemoveNodes(toRemove: seq<Address>) returns (ok: bool)
      modifies this
      ensures (View(), ok) == RemoveAll(old(View()), toRemove)
    {
      var i := 0;
      while i < |toRemove|
        invariant 0 <= i <= |toRemove|
        invariant RemoveAll(View(), toRemove[i..]) == RemoveAll(old(View()), toRemove)
      {
        ghost var rest := toRemove[i..];
        assert rest[0] == toRemove[i] && rest[1..] == toRemove[i + 1..];
        ok := RemoveOne(toRemove[i]);
        if !ok {
          return;
        }
        i := i + 1;
      }
      ok := true;
    }

    /** One round of the removal loop of `_prune_old_nodes`. */
    method RemoveOne(a: Address) returns (ok: bool)
      modifies this
      ensures (View(), ok) == RemoveNode(old(View()), a)
    {
      reverseAdjacency := DiscardFrom(reverseAdjacency, Get(adjacency, a), a);
      adjacency := DiscardFrom(adjacency, Get(reverseAdjacency, a), a);
      if a !in adjacency {
        return false;
      }
      adjacency := adjacency - {a};
      if a !in reverseAdjacency {
        return false;
      }
      reverseAdjacency := reverseAdjacency - {a};
      nodeOrder := RemoveFirst(nodeOrder, a);
      nodeFlags := nodeFlags - {a};
      nodeScores := nodeScores - {a};
      nodeCount := nodeCount - 1;
      return true;
    }

    /** The search over the current graph. */
    method MixerConnections(start: Address, depth: int) returns (conns: seq<Entry>)
      ensures Exact(View(), start, depth, conns)
    {
      conns := Search(Graph(adjacency, reverseAdjacency, nodeOrder, nodeFlags, nodeScores, mixerAddresses, nodeCount),
                      start, depth);
    }

    method CalculateRiskScore(address: Address, depth: int) returns (risk: real)
      ensures IsRisk(View(), Lower(address), depth, risk) && RiskFromCounts(View(), Lower(address), depth, risk)
    {
      var start := Lower(address);
      if start in nodeFlags && HasMixerBit(nodeFlags[start]) {
        return 1.0;
      }
      var conns := MixerConnections(start, depth);
      risk := MeanWeight(conns);
      assert IsRisk(View(), start, depth, risk);
      RiskValue(View(), start, depth, risk);
    }
  }

  /** The last lines of `calculate_risk_score`. */
  method MeanWeight(conns: seq<Entry>) returns (risk: real)
    ensures risk == Score(conns)
  {
    if conns == [] {
      return 0.0;
    }
    risk := 0.0;
    var i := 0;
    while i < |conns|
      invariant 0 <= i <= |conns|
      invariant risk + Total(conns[i..]) == Total(conns)
    {
      risk := risk + Weight(conns[i].hops);
      i := i + 1;
    }
    risk := risk / |conns| as real;
    if risk > 1.0 {
      risk := 1.0;
    }
  }

  datatype Analysis = KeyError | Analyzed(riskScore: real, isDirectMixer: bool, isHighRisk: bool)

  class MixerDetector {
    const graph: TransactionGraph
    const riskThreshold: real
    var checksCount: nat
    var blocksCount: nat
    var highRiskCount: nat

    constructor (maxNodes: nat, riskThreshold: real)
      ensures graph.View() == EMPTY && graph.maxNodes == maxNodes && this.riskThreshold == riskThreshold
      ensures fresh(graph) && checksCount == 0 && blocksCount == 0 && highRiskCount == 0
    {
      graph := new TransactionGraph(maxNodes);
      this.riskThreshold := riskThreshold;
      checksCount, blocksCount, highRiskCount := 0, 0, 0;
    }

    /** `analyze`: replay the history, score, decide.  The history may raise half-way. */
    method Analyze(address: Address, history: seq<(Address, Address)>) returns (r: Analysis)
      modifies this, graph
      ensures (graph.View(), r.Analyzed?) == AddHistory(old(graph.View()), graph.maxNodes, history)
      ensures checksCount == old(checksCount) + 1
      ensures r.KeyError? ==> blocksCount == old(blocksCount) && highRiskCount == old(highRiskCount)
      ensures r.Analyzed? ==>
                && IsRisk(graph.View(), Lower(address), ANALYZE_DEPTH, r.riskScore)
                && (r.isDirectMixer <==> Lower(address) in graph.mixerAddresses)
                && (r.isHighRisk <==> r.riskScore >= riskThreshold || r.isDirectMixer)
                && blocksCount == old(blocksCount) + (if r.isHighRisk then 1 else 0)
                && highRiskCount == old(highRiskCount) + (if r.isHighRisk && r.riskScore >= 0.8 then 1 else 0)
      ensures r.Analyzed? && riskThreshold == DEFAULT_THRESHOLD ==>
                (r.isHighRisk <==> Blocked(graph.View(), Lower(address)))
    {
      checksCount := checksCount + 1;
      var ok := ReplayHistory(history);
      if !ok {
        return KeyError;
      }
      var score := graph.CalculateRiskScore(address, ANALYZE_DEPTH);
      var direct := Lower(address) in graph.mixerAddresses;
      var high := score >= riskThreshold || direct;
      if high {
        blocksCount := blocksCount + 1;
        if score >= 0.8 {
          highRiskCount := highRiskCount + 1;
        }
      }
      BlockedExactly(graph.View(), Lower(address), score);
      r := Analyzed(score, direct, high);
    }

    method ReplayHistory(history: seq<(Address, Address)>) returns (ok: bool)
      modifies graph
      ensures (graph.View(), ok) == AddHistory(old(graph.View()), graph.maxNodes, history)
    {
      ok := true;
      var i := 0;
      while i < |history|
        invariant 0 <= i <= |history|
        invariant AddHistory(graph.View(), graph.maxNodes, history[i..])
               == AddHistory(old(graph.View()), graph.maxNodes, history)
        invariant ok
      {
        ghost var rest := history[i..];
        assert rest[0] == history[i] && rest[1..] == history[i + 1..];
        ok := graph.AddTransaction(history[i].0, history[i].1);
        if !ok {
          return;
        }
        i := i + 1;
      }
    }
  }

  /** Every address that occurs as somebody's neighbour. */
  ghost function AllNeighbours(g: Graph): set<Address> {
    (set a, b | a in g.adj && b in g.adj[a] :: b) + (set a, b | a in g.rev && b in g.rev[a] :: b)
  }

  ghost predicate Inside(queue: seq<Entry>, universe: set<Address>) {
    forall e :: e in queue ==> e.node in universe
  }

  lemma NeighboursInUniverse(g: Graph, a: Address)
    ensures Neighbours(g, a) <= AllNeighbours(g)
  {
  }

  lemma FoundNext(g: Graph, dist: Distances, conns: seq<Entry>, x: Address, d: nat)
    requires Found(g, dist, conns) && x !in dist
    ensures Found(g, dist[x := d], if x in g.mixers then conns + [Entry(x, d)] else conns)
  {
  }

  lemma InsideTail(queue: seq<Entry>, universe: set<Address>)
    requires queue != [] && Inside(queue, universe)
    ensures Inside(queue[1..], universe)
  {
  }

  /** Everything in `next` was queued before or is somebody's neighbour. */
  ghost predicate FromGraph(g: Graph, queue: seq<Entry>, next: seq<Entry>) {
    forall e :: e in next ==> e in queue || e.node in AllNeighbours(g)
  }

  lemma InsideNext(g: Graph, queue: seq<Entry>, next: seq<Entry>, universe: set<Address>)
    requires Inside(queue, universe) && FromGraph(g, queue, next) && AllNeighbours(g) <= universe
    ensures Inside(next, universe)
  {
  }

  lemma Progress(universe: set<Address>, queue: seq<Entry>, visited: set<Address>)
    requires queue != [] && Inside(queue, universe) && queue[0].node !in visited
    ensures |universe - (visited + {queue[0].node})| < |universe - visited|
  {
    assert queue[0] in queue;
    assert universe - (visited + {queue[0].node}) == (universe - visited) - {queue[0].node};
  }

  /** The part of a search round after the head of the queue has been marked visited. */
  method ExpandHead(g: Graph, queue: seq<Entry>, visited: set<Address>, depth: int) returns (r: seq<Entry>)
    requires queue != []
    ensures Expanded(g, depth, visited, queue, r)
    ensures FromGraph(g, queue, r)
  {
    var Entry(current, d) := queue[0];
    r := queue[1..];
    if current !in g.mixers && d < depth {
      r := Enqueue(r, Get(g.adj, current), visited, d + 1);
      ghost var half := r;
      r := Enqueue(r, Get(g.rev, current), visited, d + 1);
      NeighboursInUniverse(g, current);
      assert forall e :: e in half ==> e in r;
    }
    assert forall e :: e in queue[1..] ==> e in queue;
  }

  /** The search loop's variables, with the distances of the visited nodes. */
  datatype SearchState = SearchState(dist: Distances, queue: seq<Entry>, conns: seq<Entry>)

  /** What holds before every round of the search. */
  ghost predicate Ongoing(g: Graph, start: Address, depth: int, st: SearchState) {
    match st
    case SearchState(dist, queue, conns) =>
      Searching(g, start, depth, dist, queue) && Found(g, dist, conns) && Inside(queue, {start} + AllNeighbours(g))
  }

  lemma RoundSkips(g: Graph, start: Address, depth: int, st: SearchState)
    requires Ongoing(g, start, depth, st) && st.queue != []
    requires st.queue[0].node in st.dist || st.queue[0].hops > depth
    ensures Ongoing(g, start, depth, st.(queue := st.queue[1..]))
  {
    Skip(g, start, depth, st.dist, st.queue);
    InsideTail(st.queue, {start} + AllNeighbours(g));
  }

  /** The state after the head has been visited and `next` is the queue. */
  function Visited(g: Graph, st: SearchState, next: seq<Entry>): SearchState
    requires st.queue != []
  {
    var Entry(x, d) := st.queue[0];
    SearchState(st.dist[x := d], next, if x in g.mixers then st.conns + [Entry(x, d)] else st.conns)
  }

  lemma RoundVisits(g: Graph, start: Address, depth: int, st: SearchState, next: seq<Entry>)
    requires Ongoing(g, start, depth, st) && st.queue != []
    requires st.queue[0].node !in st.dist && st.queue[0].hops <= depth
    requires Expanded(g, depth, st.dist.Keys + {st.queue[0].node}, st.queue, next) && FromGraph(g, st.queue, next)
    ensures Ongoing(g, start, depth, Visited(g, st, next))
    ensures Visited(g, st, next).dist.Keys == st.dist.Keys + {st.queue[0].node}
    ensures var universe := {start} + AllNeighbours(g);
            |universe - (st.dist.Keys + {st.queue[0].node})| < |universe - st.dist.Keys|
  {
    var universe := {start} + AllNeighbours(g);
    Expand(g, start, depth, st.dist, st.queue, next);
    FoundNext(g, st.dist, st.conns, st.queue[0].node, st.queue[0].hops);
    InsideNext(g, st.queue, next, universe);
    Progress(universe, st.queue, st.dist.Keys);
  }

  lemma RoundsStart(g: Graph, start: Address, depth: int)
    ensures Ongoing(g, start, depth, SearchState(map[], [Entry(start, 0)], []))
  {
    SearchStarts(g, start, depth);
  }

  lemma RoundsEnd(g: Graph, start: Address, depth: int, st: SearchState)
    requires Ongoing(g, start, depth, st) && st.queue == []
    ensures Exact(g, start, depth, st.conns)
  {
    SearchEnds(g, start, depth, st.dist, st.conns);
  }

  /** The search of `calculate_risk_score`, for a start that carries no mixer flag. */
  method Search(g: Graph, start: Address, depth: int) returns (conns: seq<Entry>)
    ensures Exact(g, start, depth, conns)
  {
    var visited: set<Address> := {};
    var queue: seq<Entry> := [Entry(start, 0)];
    conns := [];
    ghost var dist: Distances := map[];
    ghost var universe := {start} + AllNeighbours(g);
    RoundsStart(g, start, depth);
    while queue != []
      invariant Ongoing(g, start, depth, SearchState(dist, queue, conns)) && dist.Keys == visited
      decreases |universe - visited|, |queue|
    {
      ghost var st := SearchState(dist, queue, conns);
      var Entry(current, d) := queue[0];
      if current in visited || d > depth {
        RoundSkips(g, start, depth, st);
        queue := queue[1..];
      } else {
        visited := visited + {current};
        var next := ExpandHead(g, queue, visited, depth);
        RoundVisits(g, start, depth, st, next);
        queue := next;
        dist := dist[current := d];
        if current in g.mixers {
          conns := conns + [Entry(current, d)];
        }
      }
    }
    RoundsEnd(g, start, depth, SearchState(dist, queue, conns));
  }

  /** `for n in neighbours: m[n].discard(a)` */
  method DiscardFrom(m: Adjacency, ks: set<Address>, a: Address) returns (r: Adjacency)
    ensures r == DiscardAll(m, ks, a)
  {
    r := m;
    var todo := ks;
    assert m == DiscardAll(m, ks - todo, a);
    while todo != {}
      invariant todo <= ks
      invariant r == DiscardAll(m, ks - todo, a)
    {
      var k :| k in todo;
      assert Get(r, k) == Get(m, k);
      r := r[k := Get(r, k) - {a}];
      todo := todo - {k};
      assert r.Keys == m.Keys + (ks - todo);
    }
    assert ks - todo == ks;
  }

  /** `for n in neighbours: if n not in visited: queue.append((n, d))`, in any order. */
  method Enqueue(queue: seq<Entry>, neighbours: set<Address>, visited: set<Address>, d: nat) returns (r: seq<Entry>)
    ensures queue <= r
    ensures forall i :: |queue| <= i < |r| ==> r[i].node in neighbours && r[i].node !in visited && r[i].hops == d
    ensures forall v :: v in neighbours && v !in visited ==> Entry(v, d) in r
  {
    r := queue;
    var todo := neighbours;
    while todo != {}
      invariant todo <= neighbours && queue <= r
      invariant forall i :: |queue| <= i < |r| ==> r[i].node in neighbours && r[i].node !in visited && r[i].hops == d
      invariant forall v :: v in neighbours - todo && v !in visited ==> Entry(v, d) in r
    {
      var n :| n in todo;
      if n !in visited {
        r := r + [Entry(n, d)];
      }
      todo := todo - {n};
    }
  }
}
