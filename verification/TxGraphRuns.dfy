/** Which node limits let the transaction graph of python/compliance/mixer_detector.py be corrupted,
    over all runs from the empty graph: pruning looks at a tenth of the limit, so the limits from 10
    on, and each of them. */
module TxGraphRuns {
  import opened Common
  import opened TxGraph

  lemma {:induction false} RunConcat(g: Graph, maxNodes: nat, a: seq<Op>, b: seq<Op>)
    ensures Run(g, maxNodes, a + b) == Run(Run(g, maxNodes, a), maxNodes, b)
    ensures AllSafe(g, maxNodes, a + b) <==> AllSafe(g, maxNodes, a) && AllSafe(Run(g, maxNodes, a), maxNodes, b)
    decreases |a|
  {
    if a == [] {
      assert a + b == b;
    } else {
      assert (a + b)[1..] == a[1..] + b;
      RunConcat(Apply(g, maxNodes, a[0]).0, maxNodes, a[1..], b);
    }
  }

  lemma RunOne(g: Graph, maxNodes: nat, op: Op)
    ensures Run(g, maxNodes, [op]) == Apply(g, maxNodes, op).0
    ensures AllSafe(g, maxNodes, [op]) <==> Safe(g, maxNodes, op)
  {
    assert [op][1..] == [];
    assert Run(Apply(g, maxNodes, op).0, maxNodes, []) == Apply(g, maxNodes, op).0;
  }

  // ---------------------------------------------------------------------------
  // Limits below ten
  // ---------------------------------------------------------------------------

  /** A tenth of such a limit is no node at all. */
  lemma NoCandidates(g: Graph, maxNodes: nat)
    requires maxNodes < 10
    ensures Candidates(g, maxNodes) == [] && Harmless(g, Candidates(g, maxNodes))
  {
    assert g.order[..0] == [];
  }

  lemma {:induction false} SmallStaysConsistent(g: Graph, maxNodes: nat, ops: seq<Op>)
    requires Consistent(g) && maxNodes < 10
    ensures Consistent(Run(g, maxNodes, ops))
    decreases |ops|
  {
    if ops != [] {
      match ops[0] {
        case Transact(src, dst) =>
          NoCandidates(g, maxNodes);
          AddTransactionOutcome(g, maxNodes, src, dst);
        case Mark(address) => MarkAsMixerOutcome(g, address);
      }
      SmallStaysConsistent(Apply(g, maxNodes, ops[0]).0, maxNodes, ops[1..]);
    }
  }

  // ---------------------------------------------------------------------------
  // Filling the graph up
  // ---------------------------------------------------------------------------

  /** A name that no shorter name equals. */
  function Leaf(m: nat): Address { seq(m, _ => 'n') }

  ghost predicate ShortNames(g: Graph, m: nat) {
    forall x :: x in g.flags ==> |x| < m
  }

  /** What `s` says of its node `x` still holds, except that the hub may send to more. */
  ghost predicate Preserved(s: Graph, hub: Address, g: Graph, x: Address)
    requires x in s.flags
  {
    && x in g.flags && g.flags[x] == s.flags[x] && In(g, x) == In(s, x)
    && (x in s.rev ==> x in g.rev)
    && (if x == hub then Out(s, x) <= Out(g, x) else Out(g, x) == Out(s, x))
  }

  /** `s` with leaves added to its hub. */
  ghost predicate Grown(s: Graph, hub: Address, g: Graph) {
    && hub in s.flags && hub in s.adj && s.order <= g.order
    && g.adj.Keys == s.adj.Keys && g.mixers == s.mixers
    && (forall x :: x in s.flags ==> Preserved(s, hub, g, x))
  }

  lemma NotPruned(g: Graph, maxNodes: nat, src: Address, dst: Address)
    requires g.count < maxNodes
    ensures AddTransaction(g, maxNodes, src, dst) == (AddEdge(Touch(Touch(g, src), dst), src, dst), true)
  {
  }

  lemma LeafPreserves(s: Graph, hub: Address, g: Graph, leaf: Address)
    requires Grown(s, hub, g) && leaf !in g.flags
    ensures Grown(s, hub, AddEdge(Touch(Touch(g, hub), leaf), hub, leaf))
  {
    var r := AddEdge(Touch(Touch(g, hub), leaf), hub, leaf);
    assert Preserved(s, hub, g, hub);
    forall x | x in s.flags ensures Preserved(s, hub, r, x) {
      assert Preserved(s, hub, g, x);
      assert x != leaf;
    }
  }

  /** A consistent graph that grew from `s` and has no name of length `m` or more. */
  ghost predicate Filled(s: Graph, hub: Address, g: Graph, m: nat) {
    Consistent(g) && Grown(s, hub, g) && ShortNames(g, m)
  }

  lemma LeafFills(s: Graph, hub: Address, g: Graph, maxNodes: nat, m: nat)
    requires Filled(s, hub, g, m) && g.count < maxNodes
    ensures var r := AddTransaction(g, maxNodes, hub, Leaf(m)).0;
            Filled(s, hub, r, m + 1) && r.count == g.count + 1
  {
    var leaf := Leaf(m);
    assert leaf !in g.flags;
    assert Preserved(s, hub, g, hub);
    NotPruned(g, maxNodes, hub, leaf);
    InsertKeeps(g, hub, leaf);
    LeafPreserves(s, hub, g, leaf);
  }

  /** `ops` is a safe run from `g` to `r`. */
  ghost predicate Leads(g: Graph, maxNodes: nat, ops: seq<Op>, r: Graph) {
    Run(g, maxNodes, ops) == r && AllSafe(g, maxNodes, ops)
  }

  lemma LeadsFirst(g: Graph, maxNodes: nat, op: Op, ops: seq<Op>, r: Graph)
    requires Safe(g, maxNodes, op) && Leads(Apply(g, maxNodes, op).0, maxNodes, ops, r)
    ensures Leads(g, maxNodes, [op] + ops, r)
  {
    RunOne(g, maxNodes, op);
    RunConcat(g, maxNodes, [op], ops);
  }

  lemma LeadsOn(g: Graph, maxNodes: nat, a: seq<Op>, h: Graph, b: seq<Op>, r: Graph)
    requires Leads(g, maxNodes, a, h) && Leads(h, maxNodes, b, r)
    ensures Leads(g, maxNodes, a + b, r)
  {
    RunConcat(g, maxNodes, a, b);
  }

  /** While there is room the hub can send to new leaves, and no prune is due. */
  lemma {:induction false} FanOut(s: Graph, hub: Address, g: Graph, maxNodes: nat, m: nat, n: nat)
    returns (ops: seq<Op>, r: Graph)
    requires Filled(s, hub, g, m) && g.count + n <= maxNodes
    ensures Leads(g, maxNodes, ops, r) && Filled(s, hub, r, m + n) && r.count == g.count + n
    decreases n
  {
    if n == 0 {
      ops, r := [], g;
    } else {
      var op := Transact(hub, Leaf(m));
      LeafFills(s, hub, g, maxNodes, m);
      ops, r := FanOut(s, hub, Apply(g, maxNodes, op).0, maxNodes, m + 1, n - 1);
      LeadsFirst(g, maxNodes, op, ops, r);
      ops := [op] + ops;
    }
  }

  // ---------------------------------------------------------------------------
  // Limits from twenty on: the second oldest node is a sink
  // ---------------------------------------------------------------------------

  const STAR_OPS := [Transact("a", "b"), Transact("a", "c")]

  const STAR := Graph(map["a" := {"b", "c"}], map["b" := {"a"}, "c" := {"a"}], ["a", "b", "c"],
                      map["a" := 0, "b" := 0, "c" := 0], map["a" := 0.0, "b" := 0.0, "c" := 0.0], {}, 3)

  /** The first transaction of all. */
  function Pair(a: Address, b: Address): Graph {
    Graph(map[a := {b}], map[b := {a}], [a, b], map[a := 0, b := 0], map[a := 0.0, b := 0.0], {}, 2)
  }

  lemma PairReached(maxNodes: nat, a: Address, b: Address)
    requires maxNodes > 0 && a != b
    ensures AddTransaction(EMPTY, maxNodes, a, b).0 == Pair(a, b)
  {
    NotPruned(EMPTY, maxNodes, a, b);
    assert [] + [a] + [b] == [a, b];
    assert {} + {a} == {a} && {} + {b} == {b};
    assert map[][a := 0][b := 0] == map[a := 0, b := 0];
  }

  lemma StarReached(maxNodes: nat)
    requires maxNodes >= 10
    ensures Leads(EMPTY, maxNodes, STAR_OPS, STAR)
  {
    PairReached(maxNodes, "a", "b");
    var g := Pair("a", "b");
    NotPruned(g, maxNodes, "a", "c");
    assert Out(g, "a") + {"c"} == {"b", "c"} && In(g, "c") + {"a"} == {"a"};
    assert g.order + ["c"] == ["a", "b", "c"];
    assert AddTransaction(g, maxNodes, "a", "c").0 == STAR;
    assert Leads(STAR, maxNodes, [], STAR);
    LeadsFirst(g, maxNodes, STAR_OPS[1], [], STAR);
    LeadsFirst(EMPTY, maxNodes, STAR_OPS[0], [STAR_OPS[1]], STAR);
    assert STAR_OPS == [STAR_OPS[0]] + [STAR_OPS[1]];
  }

  /** Safe runs from the empty graph lead to good graphs without mixers. */
  lemma SafeRunIsGood(maxNodes: nat, ops: seq<Op>)
    requires AllSafe(EMPTY, maxNodes, ops)
    ensures Good(Run(EMPTY, maxNodes, ops)) && AlwaysGood(EMPTY, maxNodes, ops)
  {
    PopulatingEmptyGraphRaises("");
    RunKeepsInvariant(EMPTY, maxNodes, ops);
  }

  lemma StarStart()
    ensures Filled(STAR, "a", STAR, 2)
  {
    StarReached(10);
    SafeRunIsGood(10, STAR_OPS);
    forall x | x in STAR.flags ensures Preserved(STAR, "a", STAR, x) && |x| == 1 {
    }
  }

  /** Whatever else the hub sends to, the oldest node has many neighbours and the second oldest is a
      candidate without an adjacency key. */
  lemma SinkIsFirst(g: Graph, maxNodes: nat)
    requires Grown(STAR, "a", g) && maxNodes >= 20 && |g.order| == maxNodes
    ensures var cs := Candidates(g, maxNodes);
            cs != [] && !Removable(g, cs[0]) && cs[0] !in g.adj && In(g, cs[0]) != {}
  {
    assert Preserved(STAR, "a", g, "a") && Preserved(STAR, "a", g, "b");
    var s := g.order[..maxNodes / 10];
    assert s[0] == "a" && s[1] == "b";
    TwoIsMany("b", "c", Out(g, "a"));
    assert !Prunable(g, "a") && Prunable(g, "b");
    assert Select(g, s) == Select(g, s[1..]);
    assert s[1..][0] == "b";
    assert Select(g, s[1..]) == ["b"] + Select(g, s[1..][1..]);
    assert "a" in In(g, "b");
  }

  lemma TwoIsMany(a: Address, b: Address, s: set<Address>)
    requires a != b && a in s && b in s
    ensures |s| >= 2
  {
    assert s == {a, b} + (s - {a, b});
    assert |{a, b}| == 2;
  }

  lemma BlockedCorrupts(g: Graph, maxNodes: nat, src: Address, dst: Address)
    requires Consistent(g) && g.count >= maxNodes
    requires var cs := Candidates(g, maxNodes);
             cs != [] && !Removable(g, cs[0]) && cs[0] !in g.adj && In(g, cs[0]) != {}
    ensures !Consistent(AddTransaction(g, maxNodes, src, dst).0)
  {
    HarmlessHead(g, Candidates(g, maxNodes));
    AddTransactionOutcome(g, maxNodes, src, dst);
  }

  lemma StarCorrupts(maxNodes: nat, src: Address, dst: Address) returns (ops: seq<Op>, g: Graph)
    requires maxNodes >= 20
    ensures Leads(EMPTY, maxNodes, ops, g) && !Consistent(AddTransaction(g, maxNodes, src, dst).0)
  {
    StarReached(maxNodes);
    StarStart();
    ops, g := FanOut(STAR, "a", STAR, maxNodes, 2, maxNodes - 3);
    LeadsOn(EMPTY, maxNodes, STAR_OPS, STAR, ops, g);
    ops := STAR_OPS + ops;
    SinkIsFirst(g, maxNodes);
    BlockedCorrupts(g, maxNodes, src, dst);
  }

  // ---------------------------------------------------------------------------
  // Limits from ten to nineteen: a sink becomes the oldest node
  // ---------------------------------------------------------------------------

  const RELAY_OPS := [Transact("a", "b"), Transact("c", "a"), Transact("c", "b")]

  const RELAY := Graph(map["a" := {"b"}, "c" := {"a", "b"}], map["b" := {"a", "c"}, "a" := {"c"}], ["a", "b", "c"],
                       map["a" := 0, "b" := 0, "c" := 0], map["a" := 0.0, "b" := 0.0, "c" := 0.0], {}, 3)

  const HALF_RELAY := Graph(map["a" := {"b"}, "c" := {"a"}], map["b" := {"a"}, "a" := {"c"}], ["a", "b", "c"],
                            map["a" := 0, "b" := 0, "c" := 0], map["a" := 0.0, "b" := 0.0, "c" := 0.0], {}, 3)

  lemma HalfRelayReached(maxNodes: nat)
    requires maxNodes >= 10
    ensures AddTransaction(Pair("a", "b"), maxNodes, "c", "a").0 == HALF_RELAY
  {
    var g := Pair("a", "b");
    NotPruned(g, maxNodes, "c", "a");
    assert Out(g, "c") + {"a"} == {"a"} && In(g, "a") + {"c"} == {"c"};
    assert g.order + ["c"] == ["a", "b", "c"];
  }

  lemma RelayCompleted(maxNodes: nat)
    requires maxNodes >= 10
    ensures AddTransaction(HALF_RELAY, maxNodes, "c", "b").0 == RELAY
  {
    NotPruned(HALF_RELAY, maxNodes, "c", "b");
    assert Out(HALF_RELAY, "c") + {"b"} == {"a", "b"} && In(HALF_RELAY, "b") + {"c"} == {"a", "c"};
  }

  lemma RelayReached(maxNodes: nat)
    requires maxNodes >= 10
    ensures Leads(EMPTY, maxNodes, RELAY_OPS, RELAY)
  {
    PairReached(maxNodes, "a", "b");
    HalfRelayReached(maxNodes);
    RelayCompleted(maxNodes);
    assert Leads(RELAY, maxNodes, [], RELAY);
    LeadsFirst(HALF_RELAY, maxNodes, RELAY_OPS[2], [], RELAY);
    LeadsFirst(Pair("a", "b"), maxNodes, RELAY_OPS[1], [RELAY_OPS[2]], RELAY);
    LeadsFirst(EMPTY, maxNodes, RELAY_OPS[0], [RELAY_OPS[1], RELAY_OPS[2]], RELAY);
    assert RELAY_OPS == [RELAY_OPS[0]] + [RELAY_OPS[1], RELAY_OPS[2]];
  }

  lemma RelayStart()
    ensures Filled(RELAY, "c", RELAY, 2)
  {
    RelayReached(10);
    SafeRunIsGood(10, RELAY_OPS);
    forall x | x in RELAY.flags ensures Preserved(RELAY, "c", RELAY, x) && |x| == 1 {
    }
  }

  /** The oldest node alone is a candidate, and goes without an exception. */
  lemma OldestGoes(g: Graph, maxNodes: nat)
    requires Consistent(g) && Grown(RELAY, "c", g) && 10 <= maxNodes < 20
    ensures Candidates(g, maxNodes) == ["a"] && Removable(g, "a") && "a" in g.flags
    ensures Prune(g, maxNodes) == RemoveNode(g, "a")
  {
    assert Preserved(RELAY, "c", g, "a");
    assert In(g, "a") == {"c"} && Out(g, "a") == {"b"} && |{"c"}| == |{"b"}| == 1;
    assert maxNodes / 10 == 1 && g.order[..1] == ["a"];
    assert Select(g, ["a"]) == ["a"] + Select(g, []);
    assert Candidates(g, maxNodes) == ["a"];
    RemoveNodeSucceeds(g, "a");
    assert RemoveAll(g, ["a"]) == RemoveNode(g, "a");
  }

  /** The oldest node is a sink that still has a sender. */
  ghost predicate OldSink(g: Graph) {
    && g.order != [] && g.order[0] == "b" && "b" in g.flags && g.flags["b"] == 0
    && "b" !in g.adj && In(g, "b") == {"c"}
  }

  lemma FilledItself(g: Graph, hub: Address, m: nat)
    requires Consistent(g) && hub in g.flags && hub in g.adj && ShortNames(g, m)
    ensures Filled(g, hub, g, m)
  {
  }

  lemma FirstRemoved(g: Graph)
    requires |g.order| >= 2 && g.order[0] == "a" && RemoveNode(g, "a").1
    ensures var r := RemoveNode(g, "a").0;
            r.order == g.order[1..] && r.count == g.count - 1 && r.flags == g.flags - {"a"}
  {
  }

  lemma RelayFacts(g: Graph)
    requires Grown(RELAY, "c", g)
    ensures |g.order| >= 2 && g.order[0] == "a" && g.order[1] == "b" && "c" in g.flags && "c" in g.adj
    ensures "b" in g.flags && g.flags["b"] == 0 && "b" !in g.adj && In(g, "b") == {"a", "c"}
  {
    assert Preserved(RELAY, "c", g, "b") && Preserved(RELAY, "c", g, "c");
  }

  /** That is what the prune of the relay leaves. */
  lemma SinkIsOldest(g: Graph)
    requires Consistent(g) && Removable(g, "a") && "a" in g.flags && "c" in g.flags && "c" in g.adj
    requires |g.order| >= 2 && g.order[0] == "a" && g.order[1] == "b"
    requires "b" in g.flags && g.flags["b"] == 0 && "b" !in g.adj && In(g, "b") == {"a", "c"}
    ensures var (r, ok) := RemoveNode(g, "a");
            && ok && OldSink(r) && Consistent(r) && r.count == g.count - 1
            && r.flags.Keys <= g.flags.Keys && "c" in r.flags && "c" in r.adj
  {
    RemoveNodeSucceeds(g, "a");
    FirstRemoved(g);
    var r := RemoveNode(g, "a").0;
    assert In(r, "b") == In(g, "b") - {"a"};
    assert {"a", "c"} - {"a"} == {"c"};
  }

  lemma SinkIsBlocked(s: Graph, g: Graph, maxNodes: nat)
    requires OldSink(s) && Grown(s, "c", g) && 10 <= maxNodes < 20
    ensures var cs := Candidates(g, maxNodes);
            cs != [] && !Removable(g, cs[0]) && cs[0] !in g.adj && In(g, cs[0]) != {}
  {
    assert Preserved(s, "c", g, "b");
    assert In(g, "b") == {"c"} && Out(g, "b") == {} && |{"c"}| == 1;
    assert maxNodes / 10 == 1 && g.order[..1] == ["b"];
    assert Select(g, ["b"]) == ["b"] + Select(g, []);
    assert "c" in In(g, "b");
  }

  lemma PrunedThen(g: Graph, s: Graph, maxNodes: nat, src: Address, dst: Address)
    requires g.count >= maxNodes > s.count && Prune(g, maxNodes) == (s, true)
    ensures AddTransaction(g, maxNodes, src, dst) == AddTransaction(s, maxNodes, src, dst)
  {
  }

  lemma OldestGoesSafely(g: Graph, maxNodes: nat, op: Op)
    requires Candidates(g, maxNodes) == ["a"] && Removable(g, "a") && op.Transact?
    ensures Safe(g, maxNodes, op)
  {
    UnblockedHarmless(g, ["a"]);
  }

  /** One more leaf prunes the relay, and the graph is full again. */
  lemma RelayPruned(g: Graph, maxNodes: nat, m: nat) returns (ops: seq<Op>, s: Graph, r: Graph)
    requires Filled(RELAY, "c", g, m) && 10 <= maxNodes < 20 && g.count == maxNodes
    ensures Leads(g, maxNodes, ops, r)
    ensures OldSink(s) && Filled(s, "c", r, m + 1) && r.count == maxNodes
  {
    var op := Transact("c", Leaf(m));
    OldestGoes(g, maxNodes);
    RelayFacts(g);
    SinkIsOldest(g);
    s := RemoveNode(g, "a").0;
    FilledItself(s, "c", m);
    LeafFills(s, "c", s, maxNodes, m);
    PrunedThen(g, s, maxNodes, "c", Leaf(m));
    r := Apply(g, maxNodes, op).0;
    OldestGoesSafely(g, maxNodes, op);
    RunOne(g, maxNodes, op);
    ops := [op];
  }

  lemma RelayFilled(maxNodes: nat) returns (ops: seq<Op>, g: Graph)
    requires 10 <= maxNodes < 20
    ensures Leads(EMPTY, maxNodes, ops, g) && Filled(RELAY, "c", g, maxNodes - 1) && g.count == maxNodes
  {
    RelayReached(maxNodes);
    RelayStart();
    ops, g := FanOut(RELAY, "c", RELAY, maxNodes, 2, maxNodes - 3);
    LeadsOn(EMPTY, maxNodes, RELAY_OPS, RELAY, ops, g);
    ops := RELAY_OPS + ops;
  }

  lemma RelayRun(maxNodes: nat) returns (ops: seq<Op>, s: Graph, g: Graph)
    requires 10 <= maxNodes < 20
    ensures Leads(EMPTY, maxNodes, ops, g) && OldSink(s) && Grown(s, "c", g) && Consistent(g) && g.count == maxNodes
  {
    var fill, full := RelayFilled(maxNodes);
    ops, s, g := RelayPruned(full, maxNodes, maxNodes - 1);
    LeadsOn(EMPTY, maxNodes, fill, full, ops, g);
    ops := fill + ops;
  }

  lemma RelayCorrupts(maxNodes: nat, src: Address, dst: Address) returns (ops: seq<Op>, g: Graph)
    requires 10 <= maxNodes < 20
    ensures Leads(EMPTY, maxNodes, ops, g) && !Consistent(AddTransaction(g, maxNodes, src, dst).0)
  {
    var s := EMPTY;
    ops, s, g := RelayRun(maxNodes);
    SinkIsBlocked(s, g, maxNodes);
    BlockedCorrupts(g, maxNodes, src, dst);
  }

  // ---------------------------------------------------------------------------
  // Exactly the limits from ten on
  // ---------------------------------------------------------------------------

  /** For every limit from ten on, a run leads from the empty graph, through good graphs only, to one that
      any given transaction corrupts. */
  lemma PruneCorrupts(maxNodes: nat, src: Address, dst: Address) returns (ops: seq<Op>)
    requires maxNodes >= 10
    ensures AlwaysGood(EMPTY, maxNodes, ops)
    ensures !Consistent(Run(EMPTY, maxNodes, ops + [Transact(src, dst)]))
  {
    var g := EMPTY;
    if maxNodes < 20 {
      ops, g := RelayCorrupts(maxNodes, src, dst);
    } else {
      ops, g := StarCorrupts(maxNodes, src, dst);
    }
    SafeRunIsGood(maxNodes, ops);
    RunConcat(EMPTY, maxNodes, ops, [Transact(src, dst)]);
    RunOne(g, maxNodes, Transact(src, dst));
  }

  /** Every run from the empty graph, caught exceptions included, keeps the graph consistent if and only if
      the limit is below ten. */
  lemma ConsistentExactly(maxNodes: nat)
    ensures (forall ops :: Consistent(Run(EMPTY, maxNodes, ops))) <==> maxNodes < 10
  {
    if maxNodes < 10 {
      PopulatingEmptyGraphRaises("");
      forall ops ensures Consistent(Run(EMPTY, maxNodes, ops)) {
        SmallStaysConsistent(EMPTY, maxNodes, ops);
      }
    } else {
      var ops := PruneCorrupts(maxNodes, "a", "b");
    }
  }
}
