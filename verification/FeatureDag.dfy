/** The feature DAG of python/features/feat_mod.py: a recursive depth-first topological sort that
    is recomputed on every edit, and an executor that threads a results dictionary along it. */
module FeatureDag {
  import opened Common

  /** What a transformer hands back: a dictionary is merged into the results, any other value is
      stored under the node's own name. */
  datatype Output<+V> = Plain(value: V) | Dict(entries: map<string, V>)

  /** `Transform`: the object has a `transform` method.  `Callable`: it is only callable.
      `Inert`: it is neither, and executing the node leaves the results alone. */
  datatype Transformer<!V> =
    | Transform(apply: map<string, V> -> Output<V>)
    | Callable(call: map<string, V> -> V)
    | Inert

  type Edges = map<string, seq<string>>

  function Deps(edges: Edges, n: string): seq<string> {
    if n in edges then edges[n] else []
  }

  // ---------------------------------------------------------------------------
  // Depth-first search
  // ---------------------------------------------------------------------------

  datatype Dfs = Dfs(visited: set<string>, order: seq<string>)

  /** The nested function `visit`: mark, visit the registered dependencies, append. */
  function Visit(nodes: set<string>, edges: Edges, n: string, st: Dfs): (r: Dfs)
    requires n in nodes
    ensures st.visited <= r.visited
    decreases |nodes - st.visited|, 0
  {
    if n in st.visited then st
    else
      assert nodes - (st.visited + {n}) == (nodes - st.visited) - {n};
      var inner := VisitAll(nodes, edges, Deps(edges, n), Dfs(st.visited + {n}, st.order));
      Dfs(inner.visited, inner.order + [n])
  }

  function VisitAll(nodes: set<string>, edges: Edges, ds: seq<string>, st: Dfs): (r: Dfs)
    ensures st.visited <= r.visited
    decreases |nodes - st.visited|, |ds|
  {
    if ds == [] then st
    else
      var first := if ds[0] in nodes then Visit(nodes, edges, ds[0], st) else st;
      Shrinks(nodes - first.visited, nodes - st.visited);
      VisitAll(nodes, edges, ds[1..], first)
  }

  lemma {:induction false} Shrinks(a: set<string>, b: set<string>)
    requires a <= b
    ensures |a| <= |b|
  {
    assert b == a + (b - a);
    assert |b| == |a| + |b - a|;
  }

  /** The order the class stores: every registered node visited in insertion order. */
  function ExecutionOrder(names: seq<string>, nodes: set<string>, edges: Edges): seq<string> {
    VisitAll(nodes, edges, names, Dfs({}, [])).order
  }

  /** A walk along registered dependencies. */
  ghost predicate Chain(nodes: set<string>, edges: Edges, p: seq<string>) {
    && (forall i :: 0 <= i < |p| ==> p[i] in nodes)
    && (forall i :: 0 < i < |p| ==> p[i] in Deps(edges, p[i - 1]))
  }

  ghost predicate Acyclic(nodes: set<string>, edges: Edges) {
    forall p :: Chain(nodes, edges, p) && |p| >= 2 ==> p[0] != p[|p| - 1]
  }

  /** Every registered dependency stands strictly before its dependent. */
  ghost predicate Topological(nodes: set<string>, edges: Edges, order: seq<string>) {
    forall i, d :: 0 <= i < |order| && d in Deps(edges, order[i]) && d in nodes ==> d in order[..i]
  }

  /** `stack` holds the calls of `visit` in progress, outermost first. */
  ghost predicate Inv(nodes: set<string>, edges: Edges, st: Dfs, stack: seq<string>) {
    && Chain(nodes, edges, stack)
    && NoDup(st.order)
    && st.visited <= nodes
    && (forall x :: x in st.visited <==> x in st.order || x in stack)
    && (forall x :: x in st.order ==> x !in stack)
    && (Acyclic(nodes, edges) ==> Topological(nodes, edges, st.order))
  }

  lemma Extend(nodes: set<string>, edges: Edges, order: seq<string>, n: string)
    requires Topological(nodes, edges, order)
    requires forall d :: d in Deps(edges, n) && d in nodes ==> d in order
    ensures Topological(nodes, edges, order + [n])
  {
    var longer := order + [n];
    forall i, d | 0 <= i < |longer| && d in Deps(edges, longer[i]) && d in nodes
      ensures d in longer[..i]
    {
      if i < |order| {
        assert d in order[..i];
        assert longer[..i] == order[..i];
      } else {
        assert longer[..i] == order;
      }
    }
  }

  /** A dependency of the innermost call that is itself still in progress closes a cycle. */
  lemma BackEdgeIsCycle(nodes: set<string>, edges: Edges, stack: seq<string>, d: string)
    requires Chain(nodes, edges, stack)
    requires stack != [] && d in stack && d in Deps(edges, stack[|stack| - 1])
    ensures !Acyclic(nodes, edges)
  {
    var i :| 0 <= i < |stack| && stack[i] == d;
    var tail := stack[i..];
    var cycle := tail + [d];
    forall j | 0 < j < |cycle| ensures cycle[j] in Deps(edges, cycle[j - 1]) {
      if j < |tail| {
        assert cycle[j] == stack[i + j] && cycle[j - 1] == stack[i + j - 1];
      } else {
        assert cycle[j] == d && cycle[j - 1] == stack[|stack| - 1];
      }
    }
    assert cycle[0] == cycle[|cycle| - 1];
    assert Chain(nodes, edges, cycle);
  }

  lemma {:induction false} VisitKeepsInv(nodes: set<string>, edges: Edges, n: string, st: Dfs, stack: seq<string>)
    requires n in nodes
    requires Inv(nodes, edges, st, stack)
    requires n !in st.visited ==> Chain(nodes, edges, stack + [n])
    ensures Inv(nodes, edges, Visit(nodes, edges, n, st), stack)
    ensures n in Visit(nodes, edges, n, st).visited
    decreases |nodes - st.visited|, 0
  {
    if n !in st.visited {
      assert nodes - (st.visited + {n}) == (nodes - st.visited) - {n};
      var start := Dfs(st.visited + {n}, st.order);
      var deeper := stack + [n];
      VisitAllKeepsInv(nodes, edges, Deps(edges, n), start, deeper);
      var inner := VisitAll(nodes, edges, Deps(edges, n), start);
      assert n in deeper;
      if Acyclic(nodes, edges) {
        forall d | d in Deps(edges, n) && d in nodes ensures d in inner.order {
          if d in deeper {
            BackEdgeIsCycle(nodes, edges, deeper, d);
          }
        }
        Extend(nodes, edges, inner.order, n);
      }
      assert forall x :: x in stack ==> x in st.visited;
    }
  }

  lemma {:induction false} VisitAllKeepsInv(nodes: set<string>, edges: Edges, ds: seq<string>, st: Dfs,
                                            stack: seq<string>)
    requires Inv(nodes, edges, st, stack)
    requires forall d :: d in ds && d in nodes ==> Chain(nodes, edges, stack + [d])
    ensures Inv(nodes, edges, VisitAll(nodes, edges, ds, st), stack)
    ensures forall d :: d in ds && d in nodes ==> d in VisitAll(nodes, edges, ds, st).visited
    decreases |nodes - st.visited|, |ds|
  {
    if ds != [] {
      var first := if ds[0] in nodes then Visit(nodes, edges, ds[0], st) else st;
      if ds[0] in nodes {
        VisitKeepsInv(nodes, edges, ds[0], st, stack);
      }
      Shrinks(nodes - first.visited, nodes - st.visited);
      VisitAllKeepsInv(nodes, edges, ds[1..], first, stack);
      assert forall d :: d in ds ==> d == ds[0] || d in ds[1..];
    }
  }

  /** Along a chain the positions in a topological order go down. */
  lemma {:induction false} ChainDescends(nodes: set<string>, edges: Edges, order: seq<string>, p: seq<string>, k: nat)
    requires Topological(nodes, edges, order) && Chain(nodes, edges, p)
    requires |p| >= 1 && k < |order| && order[k] == p[0]
    ensures exists j :: 0 <= j <= k && order[j] == p[|p| - 1] && (|p| >= 2 ==> j < k)
    decreases |p|
  {
    if |p| >= 2 {
      assert p[1] in order[..k];
      var m :| 0 <= m < k && order[m] == p[1];
      assert forall i :: 0 < i < |p[1..]| ==> p[1..][i] == p[i + 1] && p[1..][i - 1] == p[i];
      ChainDescends(nodes, edges, order, p[1..], m);
    }
  }

  lemma TopologicalImpliesAcyclic(nodes: set<string>, edges: Edges, order: seq<string>)
    requires Topological(nodes, edges, order) && NoDup(order) && nodes <= Elements(order)
    ensures Acyclic(nodes, edges)
  {
    forall p | Chain(nodes, edges, p) && |p| >= 2 ensures p[0] != p[|p| - 1] {
      assert p[0] in Elements(order);
      var k :| 0 <= k < |order| && order[k] == p[0];
      ChainDescends(nodes, edges, order, p, k);
    }
  }

  /** The order is a duplicate-free permutation of the registered nodes on every graph, cyclic or
      not, and it is topological exactly when the registered dependency graph has no cycle. */
  lemma ExecutionOrderCorrect(names: seq<string>, nodes: set<string>, edges: Edges)
    requires Elements(names) == nodes
    ensures var order := ExecutionOrder(names, nodes, edges);
            && NoDup(order) && Elements(order) == nodes
            && (Topological(nodes, edges, order) <==> Acyclic(nodes, edges))
  {
    VisitAllKeepsInv(nodes, edges, names, Dfs({}, []), []);
    var r := VisitAll(nodes, edges, names, Dfs({}, []));
    assert forall d :: d in nodes ==> d in Elements(names);
    assert forall x :: x in r.order ==> x in r.visited;
    assert Elements(r.order) == nodes;
    if Topological(nodes, edges, r.order) {
      TopologicalImpliesAcyclic(nodes, edges, r.order);
    }
  }

  // ---------------------------------------------------------------------------
  // Execution
  // ---------------------------------------------------------------------------

  type Nodes<!V> = map<string, Transformer<V>>

  /** A node with dependencies is shown only those present in the results; a node without any is
      shown everything computed so far. */
  function Inputs<V>(edges: Edges, n: string, results: map<string, V>): map<string, V> {
    if Deps(edges, n) == [] then results else Restrict(Deps(edges, n), results)
  }

  function Restrict<V>(keys: seq<string>, results: map<string, V>): map<string, V> {
    map d | d in keys && d in results :: results[d]
  }

  function EvaluateNode<V>(nodes: Nodes<V>, edges: Edges, n: string, results: map<string, V>): map<string, V>
    requires n in nodes
  {
    match nodes[n]
    case Transform(f) =>
      (match f(Inputs(edges, n, results))
       case Plain(v) => results[n := v]
       case Dict(entries) => results + entries)
    case Callable(f) => results[n := f(Inputs(edges, n, results))]
    case Inert => results
  }

  function Evaluate<V>(nodes: Nodes<V>, edges: Edges, order: seq<string>, results: map<string, V>): map<string, V>
    requires forall n :: n in order ==> n in nodes
  {
    if order == [] then results
    else Evaluate(nodes, edges, order[1..], EvaluateNode(nodes, edges, order[0], results))
  }

  ghost predicate Extends<V>(m: map<string, V>, base: map<string, V>) {
    forall k :: k in base ==> k in m && m[k] == base[k]
  }

  ghost function Run<V>(t: Transformer<V>, m: map<string, V>): Output<V>
    requires !t.Inert?
  {
    match t
    case Transform(f) => f(m)
    case Callable(f) => Plain(f(m))
  }

  /** The conditions under which execution has a declarative meaning: `transform` never returns a
      dictionary, no node shadows an input key, and a node without dependencies does not look past
      the input keys. */
  ghost predicate Declarative<V(!new)>(nodes: Nodes<V>, edges: Edges, data: map<string, V>) {
    && nodes.Keys !! data.Keys
    && (forall n, m: map<string, V> :: n in nodes && !nodes[n].Inert? ==> Run(nodes[n], m).Plain?)
    && (forall n, m: map<string, V> ::
          n in nodes && !nodes[n].Inert? && Deps(edges, n) == [] && Extends(m, data)
          ==> Run(nodes[n], m) == Run(nodes[n], data))
  }

  /** What a node is declared to be computed from, read off a finished results dictionary. */
  ghost function Declared<V>(edges: Edges, n: string, data: map<string, V>, r: map<string, V>): map<string, V> {
    if Deps(edges, n) == [] then data else Restrict(Deps(edges, n), r)
  }

  ghost predicate Satisfied<V>(nodes: Nodes<V>, edges: Edges, data: map<string, V>, r: map<string, V>, n: string)
    requires n in nodes
  {
    !nodes[n].Inert? ==> n in r && Run(nodes[n], Declared(edges, n, data, r)) == Plain(r[n])
  }

  /** The recursive meaning: inputs are kept, nothing else appears, and every producing node
      carries its transformer's value on its declared dependencies. */
  ghost predicate Solution<V>(nodes: Nodes<V>, edges: Edges, data: map<string, V>, r: map<string, V>) {
    && Extends(r, data)
    && (forall k :: k in r ==> k in data || (k in nodes && !nodes[k].Inert?))
    && (forall n :: n in nodes ==> Satisfied(nodes, edges, data, r, n))
  }

  /** The meaning, established for the nodes executed so far. */
  ghost predicate PartialSolution<V>(nodes: Nodes<V>, edges: Edges, data: map<string, V>, r: map<string, V>,
                                     done: seq<string>) {
    && (forall n :: n in done ==> n in nodes)
    && Extends(r, data)
    && (forall k :: k in r ==> k in data || (k in done && !nodes[k].Inert?))
    && (forall n :: n in done ==> Satisfied(nodes, edges, data, r, n))
  }

  /** Storing a value under a name that is not among a node's dependencies leaves that node's
      declared inputs alone. */
  lemma StillSatisfied<V>(nodes: Nodes<V>, edges: Edges, data: map<string, V>, r: map<string, V>, x: string, n: string,
                          v: V)
    requires x in nodes && x != n && n !in Deps(edges, x)
    requires Satisfied(nodes, edges, data, r, x)
    ensures Satisfied(nodes, edges, data, r[n := v], x)
  {
    assert Restrict(Deps(edges, x), r[n := v]) == Restrict(Deps(edges, x), r);
  }

  lemma NewlySatisfied<V(!new)>(nodes: Nodes<V>, edges: Edges, data: map<string, V>, n: string, r: map<string, V>)
    requires Declarative(nodes, edges, data) && Extends(r, data)
    requires n in nodes && !nodes[n].Inert? && n !in Deps(edges, n)
    ensures var v := Run(nodes[n], Inputs(edges, n, r));
            && v.Plain? && EvaluateNode(nodes, edges, n, r) == r[n := v.value]
            && Satisfied(nodes, edges, data, r[n := v.value], n)
  {
    var v := Run(nodes[n], Inputs(edges, n, r));
    assert v.Plain?;
    assert Restrict(Deps(edges, n), r[n := v.value]) == Restrict(Deps(edges, n), r);
  }

  lemma NotADependency(nodes: set<string>, edges: Edges, done: seq<string>, n: string, x: string)
    requires Topological(nodes, edges, done + [n]) && n in nodes && n !in done
    requires x in done || x == n
    ensures n !in Deps(edges, x)
  {
    var longer := done + [n];
    var k :| 0 <= k < |longer| && longer[k] == x;
    assert longer[..k] == done[..k];
  }

  lemma EvaluateNodeExtends<V(!new)>(nodes: Nodes<V>, edges: Edges, data: map<string, V>, done: seq<string>, n: string,
                                     r: map<string, V>)
    requires Declarative(nodes, edges, data) && PartialSolution(nodes, edges, data, r, done)
    requires n in nodes && n !in done
    requires Topological(nodes.Keys, edges, done + [n])
    ensures PartialSolution(nodes, edges, data, EvaluateNode(nodes, edges, n, r), done + [n])
  {
    if !nodes[n].Inert? {
      NotADependency(nodes.Keys, edges, done, n, n);
      NewlySatisfied(nodes, edges, data, n, r);
      var v := Run(nodes[n], Inputs(edges, n, r)).value;
      forall x | x in done ensures Satisfied(nodes, edges, data, r[n := v], x) {
        NotADependency(nodes.Keys, edges, done, n, x);
        StillSatisfied(nodes, edges, data, r, x, n, v);
      }
    }
  }

  lemma {:induction false} EvaluatePartial<V(!new)>(nodes: Nodes<V>, edges: Edges, data: map<string, V>,
                                                    done: seq<string>, rest: seq<string>, r: map<string, V>)
    requires Declarative(nodes, edges, data) && PartialSolution(nodes, edges, data, r, done)
    requires NoDup(done + rest) && Topological(nodes.Keys, edges, done + rest)
    requires forall n :: n in rest ==> n in nodes
    ensures PartialSolution(nodes, edges, data, Evaluate(nodes, edges, rest, r), done + rest)
    decreases |rest|
  {
    if rest == [] {
      assert done + rest == done;
    } else {
      var n := rest[0];
      var all := done + rest;
      assert all == done + [n] + rest[1..];
      assert n !in done by {
        assert all[|done|] == n;
        assert forall i :: 0 <= i < |done| ==> all[i] == done[i];
      }
      TopologicalPrefix(nodes.Keys, edges, done + [n], rest[1..]);
      EvaluateNodeExtends(nodes, edges, data, done, n, r);
      EvaluatePartial(nodes, edges, data, done + [n], rest[1..], EvaluateNode(nodes, edges, n, r));
    }
  }

  lemma TopologicalPrefix(nodes: set<string>, edges: Edges, a: seq<string>, b: seq<string>)
    requires Topological(nodes, edges, a + b)
    ensures Topological(nodes, edges, a)
  {
    forall i, d | 0 <= i < |a| && d in Deps(edges, a[i]) && d in nodes ensures d in a[..i] {
      assert (a + b)[i] == a[i];
      assert (a + b)[..i] == a[..i];
    }
  }

  ghost predicate AgreeOn<V>(r1: map<string, V>, r2: map<string, V>, k: string) {
    (k in r1 <==> k in r2) && (k in r1 ==> r1[k] == r2[k])
  }

  lemma SameInputsSameValue<V>(nodes: Nodes<V>, edges: Edges, data: map<string, V>, r1: map<string, V>,
                               r2: map<string, V>, n: string)
    requires Solution(nodes, edges, data, r1) && Solution(nodes, edges, data, r2)
    requires n in nodes
    requires forall d :: d in Deps(edges, n) && d in nodes ==> AgreeOn(r1, r2, d)
    ensures AgreeOn(r1, r2, n)
  {
    assert Satisfied(nodes, edges, data, r1, n) && Satisfied(nodes, edges, data, r2, n);
    forall d | d in Deps(edges, n) ensures AgreeOn(r1, r2, d) {
      assert d in nodes ==> AgreeOn(r1, r2, d);
    }
    assert Restrict(Deps(edges, n), r1) == Restrict(Deps(edges, n), r2);
  }

  /** Two solutions agree on a topologically ordered prefix of the nodes. */
  lemma {:induction false} SolutionsAgree<V>(nodes: Nodes<V>, edges: Edges, data: map<string, V>, order: seq<string>,
                                             r1: map<string, V>, r2: map<string, V>, k: nat)
    requires Solution(nodes, edges, data, r1) && Solution(nodes, edges, data, r2)
    requires Topological(nodes.Keys, edges, order) && Elements(order) == nodes.Keys
    requires k <= |order|
    ensures forall x :: x in order[..k] ==> AgreeOn(r1, r2, x)
  {
    if k > 0 {
      SolutionsAgree(nodes, edges, data, order, r1, r2, k - 1);
      var n := order[k - 1];
      assert n in Elements(order);
      SameInputsSameValue(nodes, edges, data, r1, r2, n);
      assert order[..k] == order[..k - 1] + [n];
    }
  }

  lemma SolutionUnique<V>(nodes: Nodes<V>, edges: Edges, data: map<string, V>, order: seq<string>, r1: map<string, V>,
                          r2: map<string, V>)
    requires Solution(nodes, edges, data, r1) && Solution(nodes, edges, data, r2)
    requires Topological(nodes.Keys, edges, order) && Elements(order) == nodes.Keys
    ensures r1 == r2
  {
    SolutionsAgree(nodes, edges, data, order, r1, r2, |order|);
    assert order[..|order|] == order;
    forall k | k in r1 || k in r2 ensures AgreeOn(r1, r2, k) {
      assert k in nodes ==> k in Elements(order);
    }
  }

  /** On an acyclic graph, executing in the computed order gives the one and only solution of the
      recursive meaning. */
  lemma EvaluationIsMeaning<V(!new)>(names: seq<string>, nodes: Nodes<V>, edges: Edges, data: map<string, V>)
    requires Elements(names) == nodes.Keys
    requires Acyclic(nodes.Keys, edges) && Declarative(nodes, edges, data)
    ensures forall n :: n in ExecutionOrder(names, nodes.Keys, edges) ==> n in nodes
    ensures var r := Evaluate(nodes, edges, ExecutionOrder(names, nodes.Keys, edges), data);
            && Solution(nodes, edges, data, r)
            && (forall other :: Solution(nodes, edges, data, other) ==> other == r)
  {
    ExecutionOrderCorrect(names, nodes.Keys, edges);
    var order := ExecutionOrder(names, nodes.Keys, edges);
    assert forall n :: n in order ==> n in Elements(order);
    assert [] + order == order;
    EvaluatePartial(nodes, edges, data, [], order, data);
    var r := Evaluate(nodes, edges, order, data);
    assert forall n :: n in nodes ==> n in Elements(order);
    forall other | Solution(nodes, edges, data, other) ensures other == r {
      SolutionUnique(nodes, edges, data, order, other, r);
    }
  }

  /** Registering the same nodes in any other order does not change the outcome. */
  lemma InsertionOrderIrrelevant<V(!new)>(names1: seq<string>, names2: seq<string>, nodes: Nodes<V>, edges: Edges,
                                          data: map<string, V>)
    requires Elements(names1) == nodes.Keys == Elements(names2)
    requires Acyclic(nodes.Keys, edges) && Declarative(nodes, edges, data)
    ensures forall n :: n in ExecutionOrder(names1, nodes.Keys, edges) ==> n in nodes
    ensures forall n :: n in ExecutionOrder(names2, nodes.Keys, edges) ==> n in nodes
    ensures Evaluate(nodes, edges, ExecutionOrder(names1, nodes.Keys, edges), data)
         == Evaluate(nodes, edges, ExecutionOrder(names2, nodes.Keys, edges), data)
  {
    EvaluationIsMeaning(names1, nodes, edges, data);
    EvaluationIsMeaning(names2, nodes, edges, data);
  }

  /** Acyclicity is needed: on a two-node cycle of counting nodes, whichever node is registered
      last is shown the other's result, and the outcomes differ. */
  lemma CycleMakesOrderMatter()
    ensures var edges: Edges := map["a" := ["b"], "b" := ["a"]];
            var count := Callable((m: map<string, int>) => |m|);
            var nodes := map["a" := count, "b" := count];
            && ExecutionOrder(["a", "b"], nodes.Keys, edges) == ["b", "a"]
            && ExecutionOrder(["b", "a"], nodes.Keys, edges) == ["a", "b"]
            && Declarative(nodes, edges, map[])
            && Evaluate(nodes, edges, ["b", "a"], map[]) == map["b" := 0, "a" := 1]
            && Evaluate(nodes, edges, ["a", "b"], map[]) == map["a" := 0, "b" := 1]
  {
    var edges: Edges := map["a" := ["b"], "b" := ["a"]];
    var count := Callable((m: map<string, int>) => |m|);
    var nodes := map["a" := count, "b" := count];
    TwoCycle(nodes.Keys, edges, "a", "b");
    TwoCycle(nodes.Keys, edges, "b", "a");
    TwoCycleResults(nodes, edges, "b", "a");
    TwoCycleResults(nodes, edges, "a", "b");
  }

  lemma TwoCycle(nodes: set<string>, edges: Edges, x: string, y: string)
    requires x != y && nodes == {x, y} && Deps(edges, x) == [y] && Deps(edges, y) == [x]
    ensures ExecutionOrder([x, y], nodes, edges) == [y, x]
  {
    var inY := Dfs({x, y}, []);
    assert VisitAll(nodes, edges, [x][1..], inY) == inY;
    assert Visit(nodes, edges, x, inY) == inY;
    assert VisitAll(nodes, edges, [x], inY) == inY;
    assert {x} + {y} == {x, y};
    var afterY := Dfs({x, y}, [y]);
    assert Visit(nodes, edges, y, Dfs({x}, [])) == afterY;
    assert VisitAll(nodes, edges, [y][1..], afterY) == afterY;
    assert VisitAll(nodes, edges, [y], Dfs({x}, [])) == afterY;
    var afterX := Dfs({x, y}, [y, x]);
    assert {} + {x} == {x};
    assert Visit(nodes, edges, x, Dfs({}, [])) == afterX;
    assert [x, y][1..] == [y];
    assert VisitAll(nodes, edges, [y], afterX) == VisitAll(nodes, edges, [], afterX);
  }

  lemma TwoCycleResults(nodes: Nodes<int>, edges: Edges, x: string, y: string)
    requires x != y && x in nodes && y in nodes && Deps(edges, x) == [y] && Deps(edges, y) == [x]
    requires nodes[x].Callable? && nodes[y].Callable?
    requires nodes[x].call(map[]) == 0 && nodes[y].call(map[x := 0]) == 1
    ensures Evaluate(nodes, edges, [x, y], map[]) == map[x := 0, y := 1]
  {
    var r := map[x := 0];
    assert Restrict<int>([y], map[]) == map[];
    assert EvaluateNode(nodes, edges, x, map[]) == r;
    assert Restrict([x], r) == r;
    assert EvaluateNode(nodes, edges, y, r) == map[x := 0, y := 1];
    assert [x, y][1..] == [y];
    assert [y][1..] == [];
    assert Evaluate(nodes, edges, [y], r) == map[x := 0, y := 1];
  }

  // ---------------------------------------------------------------------------
  // Execution of any transformers
  // ---------------------------------------------------------------------------

  /** A node sees the results so far: all of them if it declares no dependencies, otherwise those it
      declares. */
  lemma InputsExact<V>(edges: Edges, n: string, results: map<string, V>, k: string)
    ensures k in Inputs(edges, n, results) <==> k in results && (Deps(edges, n) == [] || k in Deps(edges, n))
    ensures k in Inputs(edges, n, results) ==> Inputs(edges, n, results)[k] == results[k]
  {
  }

  /** What a node writes, shown `m`: each key of a dictionary output, or its own name with any other. */
  function Written<V>(t: Transformer<V>, n: string, m: map<string, V>): map<string, V> {
    match t
    case Inert => map[]
    case Callable(f) => map[n := f(m)]
    case Transform(f) => (match f(m) case Plain(v) => map[n := v] case Dict(entries) => entries)
  }

  /** What the nodes of the order write, one after the other, in an execution on `data`. */
  function Writes<V>(nodes: Nodes<V>, edges: Edges, order: seq<string>, data: map<string, V>): (ws: seq<map<string, V>>)
    requires forall n :: n in order ==> n in nodes
    ensures |ws| == |order|
  {
    seq(|order|, i requires 0 <= i < |order| =>
          Written(nodes[order[i]], order[i], Inputs(edges, order[i], Evaluate(nodes, edges, order[..i], data))))
  }

  /** `i` is the last to write key `k`. */
  ghost predicate LastWriter<V>(ws: seq<map<string, V>>, k: string, i: nat) {
    i < |ws| && k in ws[i] && forall j :: i < j < |ws| ==> k !in ws[j]
  }

  ghost predicate NoWriter<V>(ws: seq<map<string, V>>, k: string) {
    forall j :: 0 <= j < |ws| ==> k !in ws[j]
  }

  /** Under key `k` stands what its last writer wrote; without a writer, what the input had. */
  ghost predicate Explained<V>(ws: seq<map<string, V>>, data: map<string, V>, r: map<string, V>, k: string) {
    && (NoWriter(ws, k) ==> AgreeOn(r, data, k))
    && (forall i: nat :: LastWriter(ws, k, i) ==> k in r && r[k] == ws[i][k])
    && (NoWriter(ws, k) || exists i: nat :: LastWriter(ws, k, i))
  }

  lemma {:induction false} EvaluateLast<V>(nodes: Nodes<V>, edges: Edges, order: seq<string>, n: string,
                                           r: map<string, V>)
    requires n in nodes && forall x :: x in order ==> x in nodes
    ensures forall x :: x in order + [n] ==> x in nodes
    ensures Evaluate(nodes, edges, order + [n], r) == EvaluateNode(nodes, edges, n, Evaluate(nodes, edges, order, r))
    decreases |order|
  {
    if order == [] {
      assert (order + [n])[1..] == [];
    } else {
      assert (order + [n])[1..] == order[1..] + [n];
      EvaluateLast(nodes, edges, order[1..], n, EvaluateNode(nodes, edges, order[0], r));
    }
  }

  /** Executing a node overlays the results with what it writes. */
  lemma NodeWrites<V>(nodes: Nodes<V>, edges: Edges, n: string, r: map<string, V>)
    requires n in nodes
    ensures EvaluateNode(nodes, edges, n, r) == r + Written(nodes[n], n, Inputs(edges, n, r))
  {
  }

  lemma ExplainedStep<V>(ws: seq<map<string, V>>, w: map<string, V>, data: map<string, V>, r: map<string, V>, k: string)
    requires Explained(ws, data, r, k)
    ensures Explained(ws + [w], data, r + w, k)
  {
    var longer := ws + [w];
    assert forall j :: 0 <= j < |ws| ==> longer[j] == ws[j];
    if k in w {
      assert LastWriter(longer, k, |ws|);
    } else if !NoWriter(ws, k) {
      var i: nat :| LastWriter(ws, k, i);
      assert LastWriter(longer, k, i);
    }
    forall i: nat | LastWriter(longer, k, i) ensures k in r + w && (r + w)[k] == longer[i][k] {
      if k !in w {
        assert i < |ws| && LastWriter(ws, k, i);
      } else {
        assert i == |ws|;
      }
    }
  }

  lemma WritesLast<V>(nodes: Nodes<V>, edges: Edges, order: seq<string>, n: string, data: map<string, V>)
    requires (forall x :: x in order ==> x in nodes) && (forall x :: x in order + [n] ==> x in nodes) && n in nodes
    ensures Writes(nodes, edges, order + [n], data)
         == Writes(nodes, edges, order, data)
          + [Written(nodes[n], n, Inputs(edges, n, Evaluate(nodes, edges, order, data)))]
  {
    var longer := order + [n];
    assert longer[..|order|] == order;
    forall i | 0 <= i < |order| ensures longer[..i] == order[..i] && longer[i] == order[i] {
    }
  }

  /** For any graph, order and transformers, cyclic, shadowing or returning dictionaries: execution leaves
      under each key the value of the last node that writes it, keeps the input under keys that no node
      writes, and adds no other key. */
  lemma {:induction false} LastWriterWins<V>(nodes: Nodes<V>, edges: Edges, order: seq<string>, data: map<string, V>,
                                             k: string)
    requires forall n :: n in order ==> n in nodes
    ensures Explained(Writes(nodes, edges, order, data), data, Evaluate(nodes, edges, order, data), k)
    decreases |order|
  {
    if order != [] {
      var init, n := order[..|order| - 1], order[|order| - 1];
      assert order == init + [n];
      LastWriterWins(nodes, edges, init, data, k);
      EvaluateLast(nodes, edges, init, n, data);
      var r := Evaluate(nodes, edges, init, data);
      NodeWrites(nodes, edges, n, r);
      WritesLast(nodes, edges, init, n, data);
      ExplainedStep(Writes(nodes, edges, init, data), Written(nodes[n], n, Inputs(edges, n, r)), data, r, k);
    }
  }

  // ---------------------------------------------------------------------------
  // Edits
  // ---------------------------------------------------------------------------

  function Without(edges: Edges, name: string): Edges {
    map k | k in edges && k != name :: RemoveFirst(edges[k], name)
  }

  /** The removed node's own entry goes, and so does the first mention of it in every other list. */
  lemma WithoutExact(edges: Edges, name: string, k: string)
    ensures k in Without(edges, name) <==> k in edges && k != name
    ensures k in edges && k != name && name !in edges[k] ==> Without(edges, name)[k] == edges[k]
    ensures k in edges && k != name ==>
              forall before, after :: edges[k] == before + [name] + after && name !in before ==>
                Without(edges, name)[k] == before + after
  {
    if k in edges && k != name {
      RemoveFirstMembers(edges[k], name);
      forall before, after | edges[k] == before + [name] + after && name !in before
        ensures Without(edges, name)[k] == before + after
      {
        RemoveFirstExact(before, name, after);
      }
    }
  }

  /** Removing a node cannot introduce a cycle. */
  lemma RemovalKeepsAcyclic(nodes: set<string>, edges: Edges, name: string)
    requires Acyclic(nodes, edges)
    ensures Acyclic(nodes - {name}, Without(edges, name))
  {
    forall p | Chain(nodes - {name}, Without(edges, name), p) && |p| >= 2 ensures p[0] != p[|p| - 1] {
      forall i | 0 < i < |p| ensures p[i] in Deps(edges, p[i - 1]) {
        assert p[i] in Deps(Without(edges, name), p[i - 1]);
        RemoveFirstMembers(edges[p[i - 1]], name);
      }
      assert Chain(nodes, edges, p);
    }
  }

  lemma OrderRegistered(names: seq<string>, nodes: set<string>, edges: Edges)
    requires Elements(names) == nodes
    ensures forall n :: n in ExecutionOrder(names, nodes, edges) ==> n in nodes
  {
    ExecutionOrderCorrect(names, nodes, edges);
    var order := ExecutionOrder(names, nodes, edges);
    assert forall n :: n in order ==> n in Elements(order);
  }

  lemma AcyclicSolves<V(!new)>(names: seq<string>, nodes: Nodes<V>, edges: Edges, data: map<string, V>)
    requires Elements(names) == nodes.Keys
    requires forall n :: n in ExecutionOrder(names, nodes.Keys, edges) ==> n in nodes
    ensures Acyclic(nodes.Keys, edges) && Declarative(nodes, edges, data) ==>
              Solution(nodes, edges, data, Evaluate(nodes, edges, ExecutionOrder(names, nodes.Keys, edges), data))
  {
    if Acyclic(nodes.Keys, edges) && Declarative(nodes, edges, data) {
      EvaluationIsMeaning(names, nodes, edges, data);
    }
  }

  class FeatureDAG<V(!new)> {
    var names: seq<string>           // insertion order of the two dictionaries below
    var nodes: map<string, Transformer<V>>
    var edges: Edges
    var executionOrder: seq<string>

    ghost predicate Registered()
      reads this
    {
      NoDup(names) && Elements(names) == nodes.Keys == edges.Keys
    }

    ghost predicate Valid()
      reads this
    {
      Registered() && executionOrder == ExecutionOrder(names, nodes.Keys, edges)
    }

    constructor ()
      ensures Valid() && names == [] && nodes == map[]
    {
      names, nodes, edges, executionOrder := [], map[], map[], [];
    }

    method AddNode(name: string, transformer: Transformer<V>, dependencies: seq<string>)
      requires Valid()
      modifies this
      ensures Valid()
      ensures nodes == old(nodes)[name := transformer] && edges == old(edges)[name := dependencies]
      ensures names == if name in old(nodes) then old(names) else old(names) + [name]
    {
      assert name in names <==> name in Elements(names);
      if name !in nodes {
        names := names + [name];
      }
      nodes := nodes[name := transformer];
      edges := edges[name := dependencies];
      assert Elements(names) == nodes.Keys;
      ComputeExecutionOrder();
    }

    method RemoveNode(name: string)
      requires Valid()
      modifies this
      ensures Valid()
      ensures nodes == old(nodes) - {name} && names == RemoveFirst(old(names), name)
      ensures edges == if name in old(nodes) then Without(old(edges), name) else old(edges)
    {
      assert name in names <==> name in Elements(names);
      RemoveFirstMembers(names, name);
      if name in nodes {
        Unregister(name);
        ComputeExecutionOrder();
      }
    }

    method Unregister(name: string)
      requires Registered() && name in nodes
      modifies this
      ensures Registered()
      ensures nodes == old(nodes) - {name} && names == RemoveFirst(old(names), name)
      ensures edges == Without(old(edges), name)
    {
      RemoveFirstDistinct(names, name);
      names := RemoveFirst(names, name);
      nodes := nodes - {name};
      edges := edges - {name};
      DropDependency(name);
      assert edges == Without(old(edges), name);
    }

    /** Removes `name` from every remaining dependency list. */
    method DropDependency(name: string)
      modifies `edges
      ensures edges.Keys == old(edges).Keys
      ensures forall k :: k in edges ==> edges[k] == RemoveFirst(old(edges)[k], name)
    {
      var todo := edges.Keys;
      while todo != {}
        invariant todo <= edges.Keys == old(edges).Keys
        invariant forall k :: k in edges ==>
          edges[k] == if k in todo then old(edges)[k] else RemoveFirst(old(edges)[k], name)
      {
        var k :| k in todo;
        edges := edges[k := RemoveFirst(edges[k], name)];
        todo := todo - {k};
      }
    }

    /** `_compute_execution_order`. */
    method ComputeExecutionOrder()
      requires Registered()
      modifies `executionOrder
      ensures Valid()
    {
      var st := Dfs({}, []);
      var i := 0;
      while i < |names|
        invariant 0 <= i <= |names|
        invariant VisitAll(nodes.Keys, edges, names, Dfs({}, [])) == VisitAll(nodes.Keys, edges, names[i..], st)
      {
        assert names[i] in Elements(names);
        st := VisitNode(names[i], st);
        i := i + 1;
      }
      executionOrder := st.order;
    }

    method VisitNode(node: string, st: Dfs) returns (r: Dfs)
      requires node in nodes
      ensures r == Visit(nodes.Keys, edges, node, st)
      decreases |nodes.Keys - st.visited|
    {
      if node in st.visited {
        return st;
      }
      ghost var start := Dfs(st.visited + {node}, st.order);
      r := Dfs(st.visited + {node}, st.order);
      assert nodes.Keys - r.visited == (nodes.Keys - st.visited) - {node};
      var deps := if node in edges then edges[node] else [];
      var i := 0;
      while i < |deps|
        invariant 0 <= i <= |deps|
        invariant start.visited <= r.visited
        invariant VisitAll(nodes.Keys, edges, deps, start) == VisitAll(nodes.Keys, edges, deps[i..], r)
      {
        if deps[i] in nodes {
          Shrinks(nodes.Keys - r.visited, nodes.Keys - start.visited);
          r := VisitNode(deps[i], r);
        }
        i := i + 1;
      }
      r := Dfs(r.visited, r.order + [node]);
    }

    /** One round of the executor's loop. */
    method ExecuteNode(name: string, results: map<string, V>) returns (r: map<string, V>)
      requires name in nodes && name in edges
      ensures r == EvaluateNode(nodes, edges, name, results)
    {
      var input := if edges[name] != [] then Restrict(edges[name], results) else results;
      match nodes[name]
      case Transform(f) =>
        var output := f(input);
        if output.Dict? {
          r := results + output.entries;
        } else {
          r := results[name := output.value];
        }
      case Callable(f) =>
        r := results[name := f(input)];
      case Inert =>
        r := results;
    }

    method Execute(data: map<string, V>) returns (results: map<string, V>)
      requires Valid()
      ensures forall n :: n in executionOrder ==> n in nodes
      ensures results == Evaluate(nodes, edges, executionOrder, data)
      ensures forall k :: Explained(Writes(nodes, edges, executionOrder, data), data, results, k)
      ensures Acyclic(nodes.Keys, edges) && Declarative(nodes, edges, data) ==> Solution(nodes, edges, data, results)
    {
      OrderRegistered(names, nodes.Keys, edges);
      results := data;
      var i := 0;
      while i < |executionOrder|
        invariant 0 <= i <= |executionOrder|
        invariant Evaluate(nodes, edges, executionOrder, data) == Evaluate(nodes, edges, executionOrder[i..], results)
      {
        results := ExecuteNode(executionOrder[i], results);
        i := i + 1;
      }
      AcyclicSolves(names, nodes, edges, data);
      forall k ensures Explained(Writes(nodes, edges, executionOrder, data), data, results, k) {
        LastWriterWins(nodes, edges, executionOrder, data, k);
      }
    }
  }
}
