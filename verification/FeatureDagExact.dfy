/** The exact conditions under which the executor of python/features/feat_mod.py keeps its promises:
    acyclicity for the recursive meaning, and no cycle through two distinct nodes for independence
    of the registration order. */
module FeatureDagExact {
  import opened Common
  import opened FeatureDag

  // ---------------------------------------------------------------------------
  // Evaluation of nodes that always store a value
  // ---------------------------------------------------------------------------

  ghost predicate Callables<V>(nodes: Nodes<V>) {
    forall n :: n in nodes ==> nodes[n].Callable?
  }

  lemma {:induction false} EvaluateConcat<V>(nodes: Nodes<V>, edges: Edges, a: seq<string>, b: seq<string>,
                                             r: map<string, V>)
    requires forall n :: n in a + b ==> n in nodes
    ensures forall n :: n in a || n in b ==> n in a + b
    ensures Evaluate(nodes, edges, a + b, r) == Evaluate(nodes, edges, b, Evaluate(nodes, edges, a, r))
    decreases |a|
  {
    if a == [] {
      assert a + b == b;
    } else {
      assert (a + b)[1..] == a[1..] + b;
      EvaluateConcat(nodes, edges, a[1..], b, EvaluateNode(nodes, edges, a[0], r));
    }
  }

  lemma {:induction false} EvaluateKeys<V>(nodes: Nodes<V>, edges: Edges, order: seq<string>, r: map<string, V>)
    requires Callables(nodes) && forall n :: n in order ==> n in nodes
    ensures Evaluate(nodes, edges, order, r).Keys == r.Keys + Elements(order)
    ensures forall k :: k in r && k !in order ==> Evaluate(nodes, edges, order, r)[k] == r[k]
    decreases |order|
  {
    if order == [] {
      assert Elements(order) == {};
    } else {
      EvaluateKeys(nodes, edges, order[1..], EvaluateNode(nodes, edges, order[0], r));
      assert Elements(order) == {order[0]} + Elements(order[1..]);
    }
  }

  /** A node's final value is its transformer's value on what had been executed before it. */
  lemma ValueAt<V>(nodes: Nodes<V>, edges: Edges, order: seq<string>, i: nat, r: map<string, V>)
    requires Callables(nodes) && NoDup(order) && i < |order|
    requires forall n :: n in order ==> n in nodes
    ensures var before := Evaluate(nodes, edges, order[..i], r);
            && before.Keys == r.Keys + Elements(order[..i])
            && order[i] in Evaluate(nodes, edges, order, r)
            && Evaluate(nodes, edges, order, r)[order[i]] == nodes[order[i]].call(Inputs(edges, order[i], before))
  {
    var n := order[i];
    var before := Evaluate(nodes, edges, order[..i], r);
    EvaluateKeys(nodes, edges, order[..i], r);
    assert order == order[..i] + order[i..];
    EvaluateConcat(nodes, edges, order[..i], order[i..], r);
    assert order[i..][1..] == order[i + 1..];
    EvaluateKeys(nodes, edges, order[i + 1..], EvaluateNode(nodes, edges, n, before));
    assert n !in order[i + 1..];
  }

  // ---------------------------------------------------------------------------
  // Counting nodes
  // ---------------------------------------------------------------------------

  /** Nodes without dependencies return 0, all others count their inputs. */
  function Counting(keys: set<string>, edges: Edges): Nodes<int> {
    map n | n in keys ::
      if Deps(edges, n) == [] then Callable((m: map<string, int>) => 0) else Callable((m: map<string, int>) => |m|)
  }

  lemma CountingDeclarative(keys: set<string>, edges: Edges)
    ensures Declarative(Counting(keys, edges), edges, map[]) && Callables(Counting(keys, edges))
  {
  }

  lemma RestrictSize(ds: seq<string>, m: map<string, int>)
    ensures |Restrict(ds, m)| == |Elements(ds) * m.Keys|
  {
    assert Restrict(ds, m).Keys == Elements(ds) * m.Keys;
  }

  /** A counting node ends up with the number of its dependencies that stand before it. */
  lemma CountedAt(keys: set<string>, edges: Edges, order: seq<string>, i: nat)
    requires NoDup(order) && i < |order|
    requires forall n :: n in order ==> n in keys
    ensures order[i] in Evaluate(Counting(keys, edges), edges, order, map[])
    ensures Evaluate(Counting(keys, edges), edges, order, map[])[order[i]]
         == |Elements(Deps(edges, order[i])) * Elements(order[..i])|
  {
    var nodes := Counting(keys, edges);
    CountingDeclarative(keys, edges);
    ValueAt(nodes, edges, order, i, map[]);
    var before := Evaluate(nodes, edges, order[..i], map[]);
    RestrictSize(Deps(edges, order[i]), before);
    if Deps(edges, order[i]) == [] {
      assert Elements(Deps(edges, order[i])) == {};
    }
  }

  lemma FewerWithout(a: set<string>, b: set<string>, x: string)
    requires a <= b && x in b && x !in a
    ensures |a| < |b|
  {
    assert b == a + (b - a);
    assert x in b - a;
  }

  // ---------------------------------------------------------------------------
  // The recursive meaning
  // ---------------------------------------------------------------------------

  /** Whatever declarative transformers the nodes carry, execution gives them their meaning. */
  ghost predicate AlwaysMeaning(names: seq<string>, keys: set<string>, edges: Edges) {
    forall nodes: Nodes<int>, data: map<string, int> ::
      nodes.Keys == keys && Declarative(nodes, edges, data) ==>
        && (forall n :: n in ExecutionOrder(names, keys, edges) ==> n in nodes)
        && Solution(nodes, edges, data, Evaluate(nodes, edges, ExecutionOrder(names, keys, edges), data))
  }

  /** What the declared inputs of a counting node come to in the end. */
  lemma FinalCount(keys: set<string>, edges: Edges, order: seq<string>, n: string)
    requires Elements(order) == keys && forall k :: k in order ==> k in keys
    ensures |Restrict(Deps(edges, n), Evaluate(Counting(keys, edges), edges, order, map[]))|
         == |Elements(Deps(edges, n)) * keys|
  {
    var r := Evaluate(Counting(keys, edges), edges, order, map[]);
    CountingDeclarative(keys, edges);
    EvaluateKeys(Counting(keys, edges), edges, order, map[]);
    RestrictSize(Deps(edges, n), r);
    assert r.Keys == keys;
  }

  lemma CountingSatisfied(keys: set<string>, edges: Edges, r: map<string, int>, n: string)
    requires n in keys && Deps(edges, n) != [] && n in r && Satisfied(Counting(keys, edges), edges, map[], r, n)
    ensures r[n] == |Restrict(Deps(edges, n), r)|
  {
    assert Counting(keys, edges)[n].Callable?;
  }

  /** A node that reads before one of its registered dependencies counts too few. */
  lemma CountingUnsolved(keys: set<string>, edges: Edges, order: seq<string>)
    requires NoDup(order) && Elements(order) == keys && !Topological(keys, edges, order)
    requires forall n :: n in order ==> n in keys
    ensures !Solution(Counting(keys, edges), edges, map[], Evaluate(Counting(keys, edges), edges, order, map[]))
  {
    var i, d :| 0 <= i < |order| && d in Deps(edges, order[i]) && d in keys && d !in order[..i];
    var n := order[i];
    CountedAt(keys, edges, order, i);
    FinalCount(keys, edges, order, n);
    FewerWithout(Elements(Deps(edges, n)) * Elements(order[..i]), Elements(Deps(edges, n)) * keys, d);
    var r := Evaluate(Counting(keys, edges), edges, order, map[]);
    if Satisfied(Counting(keys, edges), edges, map[], r, n) {
      CountingSatisfied(keys, edges, r, n);
    }
  }

  /** Acyclicity is exactly what execution needs: on every graph, and for every registration order,
      execution solves all declarative transformers if and only if there is no registered cycle. */
  lemma MeaningExact(names: seq<string>, keys: set<string>, edges: Edges)
    requires Elements(names) == keys
    ensures AlwaysMeaning(names, keys, edges) <==> Acyclic(keys, edges)
  {
    var order := ExecutionOrder(names, keys, edges);
    ExecutionOrderCorrect(names, keys, edges);
    OrderRegistered(names, keys, edges);
    if Acyclic(keys, edges) {
      forall nodes: Nodes<int>, data: map<string, int> | nodes.Keys == keys && Declarative(nodes, edges, data)
        ensures forall n :: n in order ==> n in nodes
        ensures Solution(nodes, edges, data, Evaluate(nodes, edges, order, data))
      {
        EvaluationIsMeaning(names, nodes, edges, data);
      }
    } else {
      CountingDeclarative(keys, edges);
      CountingUnsolved(keys, edges, order);
      assert Counting(keys, edges).Keys == keys;
    }
  }

  // ---------------------------------------------------------------------------
  // Self-dependencies do not matter
  // ---------------------------------------------------------------------------

  function Drop(ds: seq<string>, n: string): seq<string> {
    if ds == [] then [] else if ds[0] == n then Drop(ds[1..], n) else [ds[0]] + Drop(ds[1..], n)
  }

  /** The same dependencies, without those of a node on itself. */
  function Loopless(edges: Edges): Edges {
    map n | n in edges :: Drop(edges[n], n)
  }

  lemma {:induction false} DropMembers(ds: seq<string>, n: string)
    ensures forall d :: d in Drop(ds, n) <==> d in ds && d != n
  {
    if ds != [] {
      DropMembers(ds[1..], n);
      assert forall d :: d in ds <==> d == ds[0] || d in ds[1..];
    }
  }

  lemma LooplessDeps(edges: Edges, n: string)
    ensures forall d :: d in Deps(Loopless(edges), n) <==> d in Deps(edges, n) && d != n
  {
    DropMembers(Deps(edges, n), n);
  }

  /** Visiting a node again changes nothing. */
  lemma {:induction false} VisitAllDrops(keys: set<string>, edges: Edges, ds: seq<string>, n: string, st: Dfs)
    requires n in st.visited
    ensures VisitAll(keys, edges, ds, st) == VisitAll(keys, edges, Drop(ds, n), st)
    decreases |ds|
  {
    if ds != [] {
      var first := if ds[0] in keys then Visit(keys, edges, ds[0], st) else st;
      VisitAllDrops(keys, edges, ds[1..], n, first);
      if ds[0] != n {
        assert Drop(ds, n)[1..] == Drop(ds[1..], n);
      }
    }
  }

  lemma {:induction false} VisitLoopless(keys: set<string>, edges: Edges, n: string, st: Dfs)
    requires n in keys
    ensures Visit(keys, edges, n, st) == Visit(keys, Loopless(edges), n, st)
    decreases |keys - st.visited|, 0
  {
    if n !in st.visited {
      assert keys - (st.visited + {n}) == (keys - st.visited) - {n};
      var start := Dfs(st.visited + {n}, st.order);
      VisitAllLoopless(keys, edges, Deps(edges, n), start);
      VisitAllDrops(keys, Loopless(edges), Deps(edges, n), n, start);
    }
  }

  lemma {:induction false} VisitAllLoopless(keys: set<string>, edges: Edges, ds: seq<string>, st: Dfs)
    ensures VisitAll(keys, edges, ds, st) == VisitAll(keys, Loopless(edges), ds, st)
    decreases |keys - st.visited|, |ds|
  {
    if ds != [] {
      var first := if ds[0] in keys then Visit(keys, edges, ds[0], st) else st;
      if ds[0] in keys {
        VisitLoopless(keys, edges, ds[0], st);
      }
      Shrinks(keys - first.visited, keys - st.visited);
      VisitAllLoopless(keys, edges, ds[1..], first);
    }
  }

  /** A node that depends on itself alone is shown nothing, so it is as good as a constant. */
  ghost function Settle<V>(edges: Edges, n: string, t: Transformer<V>): Transformer<V>
  {
    if Deps(edges, n) != [] && Deps(Loopless(edges), n) == [] && !t.Inert? && Run(t, map[]).Plain?
    then Constant(Run(t, map[]).value) else t
  }

  function Constant<V>(v: V): Transformer<V> {
    Callable((m: map<string, V>) => v)
  }

  ghost function SettleAll<V>(edges: Edges, nodes: Nodes<V>): Nodes<V> {
    map n | n in nodes :: Settle(edges, n, nodes[n])
  }

  lemma SettledDeclarative<V(!new)>(nodes: Nodes<V>, edges: Edges, data: map<string, V>)
    requires Declarative(nodes, edges, data)
    ensures Declarative(SettleAll(edges, nodes), Loopless(edges), data)
  {
    var settled := SettleAll(edges, nodes);
    forall n, m: map<string, V> | n in settled && !settled[n].Inert? ensures Run(settled[n], m).Plain? {
      assert Run(nodes[n], m).Plain?;
    }
    forall n, m: map<string, V>
      | n in settled && !settled[n].Inert? && Deps(Loopless(edges), n) == [] && Extends(m, data)
      ensures Run(settled[n], m) == Run(settled[n], data)
    {
      assert Run(nodes[n], map[]).Plain?;
    }
  }

  lemma SettledNode<V(!new)>(nodes: Nodes<V>, edges: Edges, data: map<string, V>, n: string, r: map<string, V>)
    requires Declarative(nodes, edges, data) && n in nodes && n !in r
    ensures EvaluateNode(nodes, edges, n, r) == EvaluateNode(SettleAll(edges, nodes), Loopless(edges), n, r)
    ensures EvaluateNode(nodes, edges, n, r).Keys <= r.Keys + {n}
  {
    LooplessDeps(edges, n);
    if !nodes[n].Inert? {
      assert Run(nodes[n], map[]).Plain? && Run(nodes[n], Inputs(edges, n, r)).Plain?;
      assert Restrict(Deps(edges, n), r) == Restrict(Deps(Loopless(edges), n), r);
      if Deps(Loopless(edges), n) == [] {
        assert Restrict(Deps(Loopless(edges), n), r) == map[];
      }
    }
  }

  lemma {:induction false} SettledEvaluation<V(!new)>(nodes: Nodes<V>, edges: Edges, data: map<string, V>,
                                                      order: seq<string>, r: map<string, V>)
    requires Declarative(nodes, edges, data) && NoDup(order)
    requires forall n :: n in order ==> n in nodes && n !in r
    ensures Evaluate(nodes, edges, order, r) == Evaluate(SettleAll(edges, nodes), Loopless(edges), order, r)
    decreases |order|
  {
    if order != [] {
      var tail := order[1..];
      assert forall i :: 0 <= i < |tail| ==> tail[i] == order[i + 1];
      SettledNode(nodes, edges, data, order[0], r);
      SettledEvaluation(nodes, edges, data, tail, EvaluateNode(nodes, edges, order[0], r));
    }
  }

  // ---------------------------------------------------------------------------
  // Cycles through two distinct nodes
  // ---------------------------------------------------------------------------

  /** The only closed walks go round a single node. */
  ghost predicate OnlySelfLoops(keys: set<string>, edges: Edges) {
    forall p, i :: Chain(keys, edges, p) && |p| >= 2 && p[0] == p[|p| - 1] && 0 <= i < |p| ==> p[i] == p[0]
  }

  /** A walk without its pauses. */
  function Squeeze(p: seq<string>): (r: seq<string>)
    ensures r == [] <==> p == []
  {
    if |p| <= 1 then p else if p[0] == p[1] then Squeeze(p[1..]) else [p[0]] + Squeeze(p[1..])
  }

  lemma ChainPrepend(keys: set<string>, edges: Edges, n: string, q: seq<string>)
    requires Chain(keys, edges, q) && q != [] && n in keys && q[0] in Deps(edges, n)
    ensures Chain(keys, edges, [n] + q)
  {
    var longer := [n] + q;
    assert forall i :: 0 < i < |longer| ==> longer[i] == q[i - 1];
  }

  lemma ChainTail(keys: set<string>, edges: Edges, p: seq<string>)
    requires Chain(keys, edges, p) && |p| > 1
    ensures Chain(keys, edges, p[1..])
  {
    assert forall i :: 0 <= i < |p[1..]| ==> p[1..][i] == p[i + 1];
  }

  lemma {:induction false} SqueezeChain(keys: set<string>, edges: Edges, p: seq<string>)
    requires Chain(keys, edges, p) && p != []
    ensures var q := Squeeze(p);
            && Chain(keys, Loopless(edges), q) && q[0] == p[0] && q[|q| - 1] == p[|p| - 1]
            && (|q| == 1 ==> forall i :: 0 <= i < |p| ==> p[i] == p[0])
  {
    if |p| > 1 {
      var tail := p[1..];
      ChainTail(keys, edges, p);
      SqueezeChain(keys, edges, tail);
      assert p[1] in Deps(edges, p[0]);
      if p[0] == p[1] {
        assert forall i :: 0 < i < |p| ==> p[i] == tail[i - 1];
      } else {
        LooplessDeps(edges, p[0]);
        ChainPrepend(keys, Loopless(edges), p[0], Squeeze(tail));
      }
    }
  }

  lemma LooplessChain(keys: set<string>, edges: Edges, p: seq<string>)
    requires Chain(keys, Loopless(edges), p)
    ensures Chain(keys, edges, p)
    ensures |p| >= 2 ==> p[0] != p[1]
  {
    forall i | 0 < i < |p| ensures p[i] in Deps(edges, p[i - 1]) && p[i] != p[i - 1] {
      LooplessDeps(edges, p[i - 1]);
    }
  }

  lemma OnlySelfLoopsIff(keys: set<string>, edges: Edges)
    ensures OnlySelfLoops(keys, edges) <==> Acyclic(keys, Loopless(edges))
  {
    if Acyclic(keys, Loopless(edges)) {
      forall p, i | Chain(keys, edges, p) && |p| >= 2 && p[0] == p[|p| - 1] && 0 <= i < |p| ensures p[i] == p[0] {
        SqueezeChain(keys, edges, p);
      }
    }
    if OnlySelfLoops(keys, edges) {
      forall p | Chain(keys, Loopless(edges), p) && |p| >= 2 ensures p[0] != p[|p| - 1] {
        LooplessChain(keys, edges, p);
      }
    }
  }

  // ---------------------------------------------------------------------------
  // Searching from one end of a cycle
  // ---------------------------------------------------------------------------

  lemma {:induction false} VisitAppends(keys: set<string>, edges: Edges, n: string, st: Dfs)
    requires n in keys
    ensures st.order <= Visit(keys, edges, n, st).order
    decreases |keys - st.visited|, 0
  {
    if n !in st.visited {
      assert keys - (st.visited + {n}) == (keys - st.visited) - {n};
      VisitAllAppends(keys, edges, Deps(edges, n), Dfs(st.visited + {n}, st.order));
    }
  }

  lemma {:induction false} VisitAllAppends(keys: set<string>, edges: Edges, ds: seq<string>, st: Dfs)
    ensures st.order <= VisitAll(keys, edges, ds, st).order
    decreases |keys - st.visited|, |ds|
  {
    if ds != [] {
      var first := if ds[0] in keys then Visit(keys, edges, ds[0], st) else st;
      if ds[0] in keys {
        VisitAppends(keys, edges, ds[0], st);
      }
      Shrinks(keys - first.visited, keys - st.visited);
      VisitAllAppends(keys, edges, ds[1..], first);
    }
  }

  /** Finished nodes have had all their registered dependencies visited. */
  ghost predicate Explored(keys: set<string>, edges: Edges, st: Dfs) {
    forall x, d :: x in st.order && d in Deps(edges, x) && d in keys ==> d in st.visited
  }

  lemma {:induction false} VisitExplores(keys: set<string>, edges: Edges, n: string, st: Dfs)
    requires n in keys && Explored(keys, edges, st)
    ensures Explored(keys, edges, Visit(keys, edges, n, st)) && n in Visit(keys, edges, n, st).visited
    decreases |keys - st.visited|, 0
  {
    if n !in st.visited {
      assert keys - (st.visited + {n}) == (keys - st.visited) - {n};
      VisitAllExplores(keys, edges, Deps(edges, n), Dfs(st.visited + {n}, st.order));
    }
  }

  lemma {:induction false} VisitAllExplores(keys: set<string>, edges: Edges, ds: seq<string>, st: Dfs)
    requires Explored(keys, edges, st)
    ensures Explored(keys, edges, VisitAll(keys, edges, ds, st))
    ensures forall d :: d in ds && d in keys ==> d in VisitAll(keys, edges, ds, st).visited
    decreases |keys - st.visited|, |ds|
  {
    if ds != [] {
      var first := if ds[0] in keys then Visit(keys, edges, ds[0], st) else st;
      if ds[0] in keys {
        VisitExplores(keys, edges, ds[0], st);
      }
      Shrinks(keys - first.visited, keys - st.visited);
      VisitAllExplores(keys, edges, ds[1..], first);
      assert forall d :: d in ds ==> d == ds[0] || d in ds[1..];
    }
  }

  lemma {:induction false} ReachedAlong(keys: set<string>, edges: Edges, st: Dfs, p: seq<string>)
    requires Explored(keys, edges, st) && (forall x :: x in st.visited ==> x in st.order)
    requires Chain(keys, edges, p) && p != [] && p[0] in st.order
    ensures p[|p| - 1] in st.order
    decreases |p|
  {
    if |p| > 1 {
      var tail := p[1..];
      assert forall i :: 0 <= i < |tail| ==> tail[i] == p[i + 1];
      assert p[1] in st.visited;
      ReachedAlong(keys, edges, st, tail);
    }
  }

  /** A search that starts at `x` finishes everything `x` reaches, and `x` after all of it: the order
      begins with some `before`, then `x`. */
  lemma SearchFrom(names: seq<string>, keys: set<string>, edges: Edges) returns (before: seq<string>)
    requires names != [] && Elements(names) == keys
    ensures before + [names[0]] <= ExecutionOrder(names, keys, edges) && names[0] !in before
    ensures forall d :: d in Deps(edges, names[0]) && d in keys && d != names[0] ==> d in before
    ensures forall p :: Chain(keys, edges, p) && p != [] && p[0] == names[0] && p[|p| - 1] != names[0] ==>
            p[|p| - 1] in before
  {
    var x, empty := names[0], Dfs({}, []);
    HeadInElements(names);
    VisitKeepsInv(keys, edges, x, empty, []);
    VisitExplores(keys, edges, x, empty);
    var st := Visit(keys, edges, x, empty);
    VisitAllAppends(keys, edges, names[1..], st);
    before := VisitAll(keys, edges, Deps(edges, x), Dfs({} + {x}, [])).order;
    assert st.order == before + [x];
    assert x !in before by {
      assert st.order[|before|] == x;
      assert forall i :: 0 <= i < |before| ==> st.order[i] == before[i];
    }
    assert st.order[|before|] == x;
    forall d | d in Deps(edges, x) && d in keys && d != x ensures d in before {
      assert d in st.visited;
    }
    forall p | Chain(keys, edges, p) && p != [] && p[0] == x && p[|p| - 1] != x ensures p[|p| - 1] in before {
      ReachedAlong(keys, edges, st, p);
    }
  }

  // ---------------------------------------------------------------------------
  // Independence of the registration order
  // ---------------------------------------------------------------------------

  ghost predicate Enumerates(names: seq<string>, keys: set<string>) {
    NoDup(names) && Elements(names) == keys
  }

  ghost predicate SameOutcome<V>(names1: seq<string>, names2: seq<string>, nodes: Nodes<V>, edges: Edges,
                                 data: map<string, V>) {
    var order1, order2 := ExecutionOrder(names1, nodes.Keys, edges), ExecutionOrder(names2, nodes.Keys, edges);
    && (forall n :: n in order1 + order2 ==> n in nodes)
    && Evaluate(nodes, edges, order1, data) == Evaluate(nodes, edges, order2, data)
  }

  /** Whatever declarative transformers the nodes carry, the registration order makes no difference. */
  ghost predicate OrderIndependent(keys: set<string>, edges: Edges) {
    forall names1, names2, nodes: Nodes<int>, data: map<string, int> ::
      Enumerates(names1, keys) && Enumerates(names2, keys) && nodes.Keys == keys && Declarative(nodes, edges, data)
      ==> SameOutcome(names1, names2, nodes, edges, data)
  }

  lemma SettledOutcome<V(!new)>(names: seq<string>, nodes: Nodes<V>, edges: Edges, data: map<string, V>)
    requires Elements(names) == nodes.Keys && Declarative(nodes, edges, data)
    ensures var order := ExecutionOrder(names, nodes.Keys, edges);
            && order == ExecutionOrder(names, nodes.Keys, Loopless(edges))
            && (forall n :: n in order ==> n in nodes)
            && Evaluate(nodes, edges, order, data) == Evaluate(SettleAll(edges, nodes), Loopless(edges), order, data)
  {
    VisitAllLoopless(nodes.Keys, edges, names, Dfs({}, []));
    ExecutionOrderCorrect(names, nodes.Keys, edges);
    OrderRegistered(names, nodes.Keys, edges);
    SettledEvaluation(nodes, edges, data, ExecutionOrder(names, nodes.Keys, edges), data);
  }

  /** Without a cycle through two nodes the registration order is irrelevant, for values of any type. */
  lemma OrderIrrelevant<V(!new)>(names1: seq<string>, names2: seq<string>, nodes: Nodes<V>, edges: Edges,
                                 data: map<string, V>)
    requires Elements(names1) == nodes.Keys == Elements(names2)
    requires OnlySelfLoops(nodes.Keys, edges) && Declarative(nodes, edges, data)
    ensures SameOutcome(names1, names2, nodes, edges, data)
  {
    var settled := SettleAll(edges, nodes);
    assert settled.Keys == nodes.Keys;
    OnlySelfLoopsIff(nodes.Keys, edges);
    SettledDeclarative(nodes, edges, data);
    SettledOutcome(names1, nodes, edges, data);
    SettledOutcome(names2, nodes, edges, data);
    InsertionOrderIrrelevant(names1, names2, settled, Loopless(edges), data);
  }

  lemma {:induction false} Enumeration(keys: set<string>) returns (names: seq<string>)
    ensures Enumerates(names, keys)
    decreases |keys|
  {
    if keys == {} {
      names := [];
    } else {
      var x :| x in keys;
      names := EnumerationFrom(keys, x);
    }
  }

  lemma {:induction false} EnumerationFrom(keys: set<string>, x: string) returns (names: seq<string>)
    requires x in keys
    ensures Enumerates(names, keys) && names != [] && names[0] == x
    decreases |keys|, 0
  {
    var rest := Enumeration(keys - {x});
    assert x !in Elements(rest);
    names := [x] + rest;
    assert Elements(names) == {x} + Elements(rest);
  }

  /** `x` counts all its dependencies in the first order, and misses `z` in the second. */
  lemma CountsDiffer(keys: set<string>, edges: Edges, order1: seq<string>, i1: nat, order2: seq<string>, i2: nat,
                     z: string)
    requires NoDup(order1) && NoDup(order2) && i1 < |order1| && i2 < |order2| && order1[i1] == order2[i2]
    requires (forall n :: n in order1 ==> n in keys) && (forall n :: n in order2 ==> n in keys)
    requires forall d :: d in Deps(edges, order1[i1]) && d in keys && d != order1[i1] ==> d in order1[..i1]
    requires z in Deps(edges, order1[i1]) && z in order1[..i1] && z !in order2[..i2]
    ensures Evaluate(Counting(keys, edges), edges, order1, map[])
         != Evaluate(Counting(keys, edges), edges, order2, map[])
  {
    CountedAt(keys, edges, order1, i1);
    CountedAt(keys, edges, order2, i2);
    var deps := Elements(Deps(edges, order1[i1]));
    forall d | d in deps * Elements(order2[..i2]) ensures d in deps * Elements(order1[..i1]) {
      assert d in order2 && d != order2[i2];
    }
    FewerWithout(deps * Elements(order2[..i2]), deps * Elements(order1[..i1]), z);
  }

  /** A search from `x` finishes its dependencies before it. */
  lemma SearchedFirst(names: seq<string>, keys: set<string>, edges: Edges) returns (i: nat)
    requires Enumerates(names, keys) && names != []
    ensures var order := ExecutionOrder(names, keys, edges);
            && i < |order| && order[i] == names[0]
            && (forall d :: d in Deps(edges, names[0]) && d in keys && d != names[0] ==> d in order[..i])
  {
    var before := SearchFrom(names, keys, edges);
    i := |before|;
    var order := ExecutionOrder(names, keys, edges);
    assert order[..|before| + 1] == before + [names[0]];
    assert order[..i] == before;
  }

  /** A search from `z` finishes what `z` reaches before it. */
  lemma SearchedLast(names: seq<string>, keys: set<string>, edges: Edges, q: seq<string>) returns (i: nat)
    requires Enumerates(names, keys) && names != []
    requires Chain(keys, edges, q) && q != [] && q[0] == names[0] && q[|q| - 1] != names[0]
    ensures var order := ExecutionOrder(names, keys, edges);
            i < |order| && order[i] == q[|q| - 1] && names[0] !in order[..i]
  {
    var before := SearchFrom(names, keys, edges);
    var order := ExecutionOrder(names, keys, edges);
    assert q[|q| - 1] in before;
    i :| 0 <= i < |before| && before[i] == q[|q| - 1];
    assert order[..|before| + 1] == before + [names[0]];
    assert order[i] == before[i] && order[..i] == before[..i];
  }

  /** On a cycle through `x` and its dependency `z`, a search from `x` runs `z` first and a search from
      `z` runs `x` first, so a counting `x` tells the two apart. */
  lemma CycleTellsOrders(keys: set<string>, edges: Edges, p: seq<string>, names1: seq<string>, names2: seq<string>)
    requires Chain(keys, edges, p) && |p| >= 2 && p[0] == p[|p| - 1] && p[0] != p[1]
    requires Enumerates(names1, keys) && names1 != [] && names1[0] == p[0]
    requires Enumerates(names2, keys) && names2 != [] && names2[0] == p[1]
    ensures !SameOutcome(names1, names2, Counting(keys, edges), edges, map[])
  {
    var order1, order2 := ExecutionOrder(names1, keys, edges), ExecutionOrder(names2, keys, edges);
    OrderRegistered(names1, keys, edges);
    OrderRegistered(names2, keys, edges);
    ExecutionOrderCorrect(names1, keys, edges);
    ExecutionOrderCorrect(names2, keys, edges);
    var q := p[1..];
    assert forall i :: 0 <= i < |q| ==> q[i] == p[i + 1];
    var i1 := SearchedFirst(names1, keys, edges);
    var i2 := SearchedLast(names2, keys, edges, q);
    CountsDiffer(keys, edges, order1, i1, order2, i2, p[1]);
    assert Counting(keys, edges).Keys == keys;
  }

  /** The registration order is irrelevant to all declarative transformers if and only if no cycle
      passes through two distinct nodes. */
  lemma OrderIndependenceExact(keys: set<string>, edges: Edges)
    ensures OrderIndependent(keys, edges) <==> OnlySelfLoops(keys, edges)
  {
    if OnlySelfLoops(keys, edges) {
      forall names1, names2, nodes: Nodes<int>, data: map<string, int>
        | Enumerates(names1, keys) && Enumerates(names2, keys) && nodes.Keys == keys && Declarative(nodes, edges, data)
        ensures SameOutcome(names1, names2, nodes, edges, data)
      {
        OrderIrrelevant(names1, names2, nodes, edges, data);
      }
    } else {
      OnlySelfLoopsIff(keys, edges);
      var p :| Chain(keys, Loopless(edges), p) && |p| >= 2 && p[0] == p[|p| - 1];
      LooplessChain(keys, edges, p);
      var names1 := EnumerationFrom(keys, p[0]);
      var names2 := EnumerationFrom(keys, p[1]);
      CycleTellsOrders(keys, edges, p, names1, names2);
      CountingDeclarative(keys, edges);
      assert Counting(keys, edges).Keys == keys;
    }
  }

  // ---------------------------------------------------------------------------
  // The course of the search
  // ---------------------------------------------------------------------------

  /** A walk from one of `ds` to `x` that meets none of `seen`. */
  ghost predicate Fresh(keys: set<string>, edges: Edges, seen: set<string>, ds: seq<string>, p: seq<string>,
                        x: string) {
    && Chain(keys, edges, p) && p != [] && p[0] in ds && p[|p| - 1] == x
    && forall i :: 0 <= i < |p| ==> p[i] !in seen
  }

  ghost predicate FreshlyReached(keys: set<string>, edges: Edges, seen: set<string>, ds: seq<string>, x: string) {
    exists p :: Fresh(keys, edges, seen, ds, p, x)
  }

  lemma {:induction false} VisitReaches(keys: set<string>, edges: Edges, n: string, st: Dfs, x: string)
    requires n in keys && x in Visit(keys, edges, n, st).visited && x !in st.visited
    ensures FreshlyReached(keys, edges, st.visited, [n], x)
    decreases |keys - st.visited|, 0
  {
    assert keys - (st.visited + {n}) == (keys - st.visited) - {n};
    if x == n {
      assert Fresh(keys, edges, st.visited, [n], [n], n);
    } else {
      VisitAllReaches(keys, edges, Deps(edges, n), Dfs(st.visited + {n}, st.order), x);
      var p :| Fresh(keys, edges, st.visited + {n}, Deps(edges, n), p, x);
      var q := [n] + p;
      assert forall i :: 0 < i < |q| ==> q[i] == p[i - 1];
      assert Fresh(keys, edges, st.visited, [n], q, x);
    }
  }

  lemma {:induction false} VisitAllReaches(keys: set<string>, edges: Edges, ds: seq<string>, st: Dfs, x: string)
    requires x in VisitAll(keys, edges, ds, st).visited && x !in st.visited
    ensures FreshlyReached(keys, edges, st.visited, ds, x)
    decreases |keys - st.visited|, |ds|
  {
    var first := if ds[0] in keys then Visit(keys, edges, ds[0], st) else st;
    Shrinks(keys - first.visited, keys - st.visited);
    if x in first.visited {
      VisitReaches(keys, edges, ds[0], st, x);
      var p :| Fresh(keys, edges, st.visited, [ds[0]], p, x);
      assert Fresh(keys, edges, st.visited, ds, p, x);
    } else {
      VisitAllReaches(keys, edges, ds[1..], first, x);
      var p :| Fresh(keys, edges, first.visited, ds[1..], p, x);
      assert Fresh(keys, edges, st.visited, ds, p, x);
    }
  }

  /** Everything newly visited has had all its registered dependencies visited. */
  ghost predicate Saturated(keys: set<string>, edges: Edges, st: Dfs, r: Dfs) {
    forall x, d :: x in r.visited && x !in st.visited && d in Deps(edges, x) && d in keys ==> d in r.visited
  }

  lemma {:induction false} VisitSaturates(keys: set<string>, edges: Edges, n: string, st: Dfs)
    requires n in keys
    ensures Saturated(keys, edges, st, Visit(keys, edges, n, st)) && n in Visit(keys, edges, n, st).visited
    decreases |keys - st.visited|, 0
  {
    if n !in st.visited {
      assert keys - (st.visited + {n}) == (keys - st.visited) - {n};
      VisitAllSaturates(keys, edges, Deps(edges, n), Dfs(st.visited + {n}, st.order));
    }
  }

  lemma {:induction false} VisitAllSaturates(keys: set<string>, edges: Edges, ds: seq<string>, st: Dfs)
    ensures Saturated(keys, edges, st, VisitAll(keys, edges, ds, st))
    ensures forall d :: d in ds && d in keys ==> d in VisitAll(keys, edges, ds, st).visited
    decreases |keys - st.visited|, |ds|
  {
    if ds != [] {
      var first := if ds[0] in keys then Visit(keys, edges, ds[0], st) else st;
      if ds[0] in keys {
        VisitSaturates(keys, edges, ds[0], st);
      }
      Shrinks(keys - first.visited, keys - st.visited);
      VisitAllSaturates(keys, edges, ds[1..], first);
      assert forall d :: d in ds ==> d == ds[0] || d in ds[1..];
    }
  }

  lemma {:induction false} SaturatedAlong(keys: set<string>, edges: Edges, st: Dfs, r: Dfs, p: seq<string>)
    requires Saturated(keys, edges, st, r) && Chain(keys, edges, p) && p != [] && p[0] in r.visited
    requires forall i :: 0 <= i < |p| ==> p[i] !in st.visited
    ensures p[|p| - 1] in r.visited
    decreases |p|
  {
    if |p| > 1 {
      var tail := p[1..];
      assert forall i :: 0 <= i < |tail| ==> tail[i] == p[i + 1];
      assert p[1] in r.visited;
      SaturatedAlong(keys, edges, st, r, tail);
    }
  }

  /** On any graph, visiting a list visits exactly what can be reached from it past nothing visited before. */
  lemma VisitedExactly(keys: set<string>, edges: Edges, ds: seq<string>, st: Dfs, x: string)
    ensures x in VisitAll(keys, edges, ds, st).visited <==>
              x in st.visited || FreshlyReached(keys, edges, st.visited, ds, x)
  {
    var r := VisitAll(keys, edges, ds, st);
    if x in r.visited && x !in st.visited {
      VisitAllReaches(keys, edges, ds, st, x);
    }
    if FreshlyReached(keys, edges, st.visited, ds, x) {
      var p :| Fresh(keys, edges, st.visited, ds, p, x);
      VisitAllSaturates(keys, edges, ds, st);
      SaturatedAlong(keys, edges, st, r, p);
    }
  }

  lemma {:induction false} VisitAllConcat(keys: set<string>, edges: Edges, a: seq<string>, b: seq<string>, st: Dfs)
    ensures VisitAll(keys, edges, a + b, st) == VisitAll(keys, edges, b, VisitAll(keys, edges, a, st))
    decreases |a|
  {
    if a == [] {
      assert a + b == b;
    } else {
      assert (a + b)[1..] == a[1..] + b;
      VisitAllConcat(keys, edges, a[1..], b, if a[0] in keys then Visit(keys, edges, a[0], st) else st);
    }
  }

  /** Names and dependencies are visited in turn: whatever part of a list comes first is ordered first, with
      everything that it newly reaches, and nothing else; and a node follows what its dependencies reach. */
  lemma SearchInTurn(keys: set<string>, edges: Edges, a: seq<string>, b: seq<string>, st: Dfs, x: string)
    ensures VisitAll(keys, edges, a, st).order <= VisitAll(keys, edges, a + b, st).order
    ensures x in VisitAll(keys, edges, a, st).visited <==>
              x in st.visited || FreshlyReached(keys, edges, st.visited, a, x)
    ensures x in keys && x !in st.visited ==>
              Visit(keys, edges, x, st).order
              == VisitAll(keys, edges, Deps(edges, x), Dfs(st.visited + {x}, st.order)).order + [x]
  {
    VisitAllConcat(keys, edges, a, b, st);
    VisitAllAppends(keys, edges, b, VisitAll(keys, edges, a, st));
    VisitedExactly(keys, edges, a, st, x);
  }
}
