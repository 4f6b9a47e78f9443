/** The transaction graph of python/compliance/mixer_detector.py: two adjacency dictionaries that
    should be each other's transpose, node metadata, and pruning.  A dictionary access that raises
    KeyError is modelled by a result of false together with the state the exception leaves. */
module TxGraph {
  import opened Common

  type Address = string
  type Adjacency = map<Address, set<Address>>

  const FLAG_MIXER: nat := 1

  datatype Graph = Graph(
    adj: Adjacency,
    rev: Adjacency,
    order: seq<Address>,            // insertion order of the node dictionary
    flags: map<Address, nat>,
    scores: map<Address, real>,
    mixers: set<Address>,
    count: int)

  const EMPTY := Graph(map[], map[], [], map[], map[], {}, 0)

  /** `dict.get(a, set())` */
  function Get(m: Adjacency, a: Address): set<Address> {
    if a in m then m[a] else {}
  }

  function Out(g: Graph, a: Address): set<Address> { Get(g.adj, a) }

  function In(g: Graph, a: Address): set<Address> { Get(g.rev, a) }

  // ---------------------------------------------------------------------------
  // Invariants
  // ---------------------------------------------------------------------------

  ghost predicate Transpose(g: Graph) {
    forall a, b :: b in Out(g, a) <==> a in In(g, b)
  }

  ghost predicate EndpointsKnown(g: Graph) {
    forall a, b {:trigger b in Out(g, a)} :: b in Out(g, a) ==> a in g.flags && b in g.flags
  }

  ghost predicate Counted(g: Graph) {
    NoDup(g.order) && Elements(g.order) == g.flags.Keys == g.scores.Keys && g.count == |g.order|
  }

  ghost predicate Consistent(g: Graph) {
    Transpose(g) && EndpointsKnown(g) && Counted(g)
  }

  predicate HasMixerBit(flag: nat) { flag % 2 == 1 }

  ghost predicate MixersFlagged(g: Graph) {
    forall m :: m in g.mixers ==> m in g.flags && HasMixerBit(g.flags[m])
  }

  // ---------------------------------------------------------------------------
  // Operations
  // ---------------------------------------------------------------------------

  function Touch(g: Graph, a: Address): Graph {
    if a in g.flags then g
    else g.(order := g.order + [a], flags := g.flags[a := 0], scores := g.scores[a := 0.0], count := g.count + 1)
  }

  function AddEdge(g: Graph, src: Address, dst: Address): Graph {
    g.(adj := g.adj[src := Out(g, src) + {dst}], rev := g.rev[dst := In(g, dst) + {src}])
  }

  /** `for k in ks: m[k].discard(a)` on a defaultdict. */
  function DiscardAll(m: Adjacency, ks: set<Address>, a: Address): Adjacency {
    map k | k in m.Keys + ks :: if k in ks then Get(m, k) - {a} else m[k]
  }

  /** One round of the removal loop; it raises when either `del` misses its key. */
  function RemoveNode(g: Graph, a: Address): (Graph, bool) {
    var rev := DiscardAll(g.rev, Out(g, a), a);
    var adj := DiscardAll(g.adj, Get(rev, a), a);
    if a !in adj then (g.(adj := adj, rev := rev), false)
    else if a !in rev then (g.(adj := adj - {a}, rev := rev), false)
    else (g.(adj := adj - {a}, rev := rev - {a}, order := RemoveFirst(g.order, a),
             flags := g.flags - {a}, scores := g.scores - {a}, count := g.count - 1), true)
  }

  function RemoveAll(g: Graph, cs: seq<Address>): (Graph, bool)
    decreases |cs|
  {
    if cs == [] then (g, true)
    else
      var (g1, ok) := RemoveNode(g, cs[0]);
      if ok then RemoveAll(g1, cs[1..]) else (g1, false)
  }

  predicate Prunable(g: Graph, a: Address) {
    a in g.flags && g.flags[a] == 0 && |Out(g, a)| < 2 && |In(g, a)| < 2
  }

  function Select(g: Graph, s: seq<Address>): seq<Address> {
    if s == [] then [] else (if Prunable(g, s[0]) then [s[0]] else []) + Select(g, s[1..])
  }

  /** The nodes a prune will try to remove: the prunable ones among the oldest tenth of `maxNodes`. */
  function Candidates(g: Graph, maxNodes: nat): (r: seq<Address>) {
    Select(g, if maxNodes / 10 <= |g.order| then g.order[..maxNodes / 10] else g.order)
  }

  function Prune(g: Graph, maxNodes: nat): (Graph, bool) {
    RemoveAll(g, Candidates(g, maxNodes))
  }

  function AddTransaction(g: Graph, maxNodes: nat, src: Address, dst: Address): (Graph, bool) {
    var (g1, ok) := if g.count >= maxNodes then Prune(g, maxNodes) else (g, true);
    if ok then (AddEdge(Touch(Touch(g1, src), dst), src, dst), true) else (g1, false)
  }

  /** The address joins the mixer set before the flag update can raise. */
  function MarkAsMixer(g: Graph, address: Address): (Graph, bool) {
    var a := Lower(address);
    var g1 := g.(mixers := g.mixers + {a});
    if a !in g.flags then (g1, false)
    else
      var flag := if HasMixerBit(g.flags[a]) then g.flags[a] else g.flags[a] + FLAG_MIXER;
      (g1.(flags := g.flags[a := flag], scores := g.scores[a := 1.0]), true)
  }

  // ---------------------------------------------------------------------------
  // Removing one node
  // ---------------------------------------------------------------------------

  ghost predicate Removable(g: Graph, a: Address) { a in g.adj && a in g.rev }

  /** What the two discard loops leave. */
  lemma Discarded(g: Graph, a: Address)
    requires Transpose(g)
    ensures var rev := DiscardAll(g.rev, Out(g, a), a);
            var adj := DiscardAll(g.adj, Get(rev, a), a);
            && rev.Keys == g.rev.Keys && adj.Keys == g.adj.Keys
            && (forall x :: Get(rev, x) == In(g, x) - {a})
            && (forall x :: x != a ==> Get(adj, x) == Out(g, x) - {a})
  {
    assert forall k :: k in Out(g, a) ==> a in In(g, k);
    assert forall k :: k in In(g, a) ==> a in Out(g, k);
  }

  /** `r` has the edges of `g` that do not touch `a`. */
  ghost predicate EdgesWithout(g: Graph, r: Graph, a: Address) {
    && (forall x :: Out(r, x) == if x == a then {} else Out(g, x) - {a})
    && (forall x :: In(r, x) == if x == a then {} else In(g, x) - {a})
  }

  lemma EdgesWithoutTranspose(g: Graph, r: Graph, a: Address)
    requires Transpose(g) && EndpointsKnown(g) && EdgesWithout(g, r, a)
    requires forall x :: x in g.flags && x != a ==> x in r.flags
    ensures Transpose(r) && EndpointsKnown(r)
  {
    forall x, y ensures y in Out(r, x) <==> x in In(r, y) {
      assert y in Out(g, x) <==> x in In(g, y);
    }
    forall x, y | y in Out(r, x) ensures x in r.flags && y in r.flags {
      assert x != a && y != a && y in Out(g, x);
      assert x in g.flags && y in g.flags;
    }
  }

  /** The removal of a node that has both keys takes exactly its edges. */
  lemma RemoveNodeSucceeds(g: Graph, a: Address)
    requires Consistent(g) && a in g.flags && Removable(g, a)
    ensures var (r, ok) := RemoveNode(g, a);
            && ok && Consistent(r) && r.flags == g.flags - {a} && r.mixers == g.mixers
            && r.scores == g.scores - {a} && r.order == RemoveFirst(g.order, a)
            && r.adj.Keys == g.adj.Keys - {a} && r.rev.Keys == g.rev.Keys - {a}
            && EdgesWithout(g, r, a)
  {
    Discarded(g, a);
    var r := RemoveNode(g, a).0;
    EdgesWithoutTranspose(g, r, a);
    assert a in Elements(g.order);
    RemoveFirstDistinct(g.order, a);
  }

  /** A missing key raises.  A node without the adjacency key loses its incoming edges on one
      side only, so the transpose survives exactly when it had none. */
  lemma RemoveNodeRaises(g: Graph, a: Address)
    requires Consistent(g) && !Removable(g, a)
    ensures var (r, ok) := RemoveNode(g, a);
            && !ok && r.flags == g.flags && r.mixers == g.mixers
            && r.order == g.order && r.scores == g.scores && r.count == g.count
            && r.adj.Keys == g.adj.Keys - {a} && r.rev.Keys == g.rev.Keys
            && (forall x :: Out(r, x) == if x == a then {} else Out(g, x) - {a})
            && (forall x :: In(r, x) == In(g, x) - {a})
            && (Consistent(r) <==> a in g.adj || In(g, a) == {})
  {
    Discarded(g, a);
    var r := RemoveNode(g, a).0;
    if a in g.adj || In(g, a) == {} {
      assert In(g, a) == {};
      assert a !in Out(g, a) by { assert a !in In(g, a); }
      assert EdgesWithout(g, r, a);
      EdgesWithoutTranspose(g, r, a);
    } else {
      var b :| b in In(g, a);
      assert a !in Out(g, a) && b != a;
      assert b in In(r, a) && a !in Out(r, b);
    }
  }

  // ---------------------------------------------------------------------------
  // Pruning
  // ---------------------------------------------------------------------------

  /** Position `k` holds the first candidate that misses a key. */
  ghost predicate FirstBlocked(g: Graph, cs: seq<Address>, k: int) {
    && 0 <= k < |cs| && !Removable(g, cs[k])
    && (forall j :: 0 <= j < k ==> Removable(g, cs[j]))
  }

  /** Read off the graph before the prune: the first blocked candidate, if any, has an adjacency
      key or receives only from candidates removed before it. */
  ghost predicate Harmless(g: Graph, cs: seq<Address>) {
    forall k :: FirstBlocked(g, cs, k) ==> cs[k] in g.adj || In(g, cs[k]) <= Elements(cs[..k])
  }

  ghost predicate Unblocked(g: Graph, cs: seq<Address>) {
    forall c :: c in cs ==> Removable(g, c)
  }

  lemma HarmlessTail(g: Graph, g1: Graph, cs: seq<Address>)
    requires cs != [] && NoDup(cs) && Removable(g, cs[0])
    requires g1.adj.Keys == g.adj.Keys - {cs[0]} && g1.rev.Keys == g.rev.Keys - {cs[0]}
    requires EdgesWithout(g, g1, cs[0])
    ensures Harmless(g, cs) <==> Harmless(g1, cs[1..])
  {
    var tail := cs[1..];
    assert forall j :: 0 <= j < |tail| ==> tail[j] == cs[j + 1] && tail[j] != cs[0];
    forall k: nat | k < |tail|
      ensures FirstBlocked(g1, tail, k) <==> FirstBlocked(g, cs, k + 1)
      ensures (tail[k] in g1.adj || In(g1, tail[k]) <= Elements(tail[..k]))
         <==> (cs[k + 1] in g.adj || In(g, cs[k + 1]) <= Elements(cs[..k + 1]))
    {
      assert cs[..k + 1] == [cs[0]] + tail[..k];
      assert Elements(cs[..k + 1]) == {cs[0]} + Elements(tail[..k]);
      assert cs[0] !in tail[..k];
      assert In(g1, tail[k]) == In(g, tail[k]) - {cs[0]};
      assert forall j :: 0 <= j < k ==> (Removable(g1, tail[j]) <==> Removable(g, cs[j + 1]));
    }
    if Harmless(g1, tail) {
      forall k | FirstBlocked(g, cs, k) ensures cs[k] in g.adj || In(g, cs[k]) <= Elements(cs[..k]) {
        assert k > 0;
        assert FirstBlocked(g1, tail, k - 1);
      }
    }
    if Harmless(g, cs) {
      forall k | FirstBlocked(g1, tail, k) ensures tail[k] in g1.adj || In(g1, tail[k]) <= Elements(tail[..k]) {
        assert FirstBlocked(g, cs, k + 1);
      }
    }
  }

  lemma HarmlessHead(g: Graph, cs: seq<Address>)
    requires cs != [] && !Removable(g, cs[0])
    ensures Harmless(g, cs) <==> cs[0] in g.adj || In(g, cs[0]) == {}
  {
    assert Elements(cs[..0]) == {};
    assert FirstBlocked(g, cs, 0);
    forall k | FirstBlocked(g, cs, k) ensures k == 0 {
      assert !Removable(g, cs[0]);
    }
  }

  /** A prune leaves a consistent graph exactly when its first blocked candidate is harmless. */
  lemma {:induction false} RemoveAllConsistent(g: Graph, cs: seq<Address>)
    requires Consistent(g) && NoDup(cs)
    requires forall c :: c in cs ==> c in g.flags
    ensures Consistent(RemoveAll(g, cs).0) <==> Harmless(g, cs)
    decreases |cs|
  {
    if cs != [] {
      var tail := cs[1..];
      assert forall j :: 0 <= j < |tail| ==> tail[j] == cs[j + 1];
      if Removable(g, cs[0]) {
        RemoveNodeSucceeds(g, cs[0]);
        HarmlessTail(g, RemoveNode(g, cs[0]).0, cs);
        assert cs[0] !in tail;
        RemoveAllConsistent(RemoveNode(g, cs[0]).0, tail);
      } else {
        RemoveNodeRaises(g, cs[0]);
        HarmlessHead(g, cs);
      }
    }
  }

  /** A prune raises exactly when some candidate misses a key. */
  lemma {:induction false} RemoveAllRaises(g: Graph, cs: seq<Address>)
    requires Consistent(g) && NoDup(cs)
    requires forall c :: c in cs ==> c in g.flags
    ensures RemoveAll(g, cs).1 <==> Unblocked(g, cs)
    decreases |cs|
  {
    if cs != [] {
      var c, tail := cs[0], cs[1..];
      assert forall j :: 0 <= j < |tail| ==> tail[j] == cs[j + 1];
      if Removable(g, c) {
        RemoveNodeSucceeds(g, c);
        var g1 := RemoveNode(g, c).0;
        assert c !in tail;
        assert forall x :: x in tail ==> (Removable(g1, x) <==> Removable(g, x));
        RemoveAllRaises(g1, tail);
        assert Unblocked(g, cs) <==> Unblocked(g1, tail);
      } else {
        RemoveNodeRaises(g, c);
      }
    }
  }

  /** `r` still has every node of `g` outside `cs`, with its flags. */
  ghost predicate KeepsOthers(g: Graph, r: Graph, cs: seq<Address>) {
    forall x :: x in g.flags && x !in cs ==> x in r.flags && r.flags[x] == g.flags[x]
  }

  lemma {:induction false} RemoveAllKeepsOthers(g: Graph, cs: seq<Address>)
    ensures var r := RemoveAll(g, cs).0;
            r.mixers == g.mixers && KeepsOthers(g, r, cs)
    decreases |cs|
  {
    if cs != [] {
      var g1 := RemoveNode(g, cs[0]).0;
      assert KeepsOthers(g, g1, [cs[0]]);
      RemoveAllKeepsOthers(g1, cs[1..]);
    }
  }

  lemma UnblockedTail(g: Graph, cs: seq<Address>)
    requires Consistent(g) && NoDup(cs) && Unblocked(g, cs) && cs != []
    requires forall c :: c in cs ==> c in g.flags
    ensures var g1 := RemoveNode(g, cs[0]).0;
            && Consistent(g1) && NoDup(cs[1..]) && Unblocked(g1, cs[1..])
            && (forall c :: c in cs[1..] ==> c in g1.flags)
            && g1.flags.Keys == g.flags.Keys - {cs[0]} && EdgesWithout(g, g1, cs[0])
            && RemoveAll(g, cs) == RemoveAll(g1, cs[1..])
  {
    var tail := cs[1..];
    assert forall j :: 0 <= j < |tail| ==> tail[j] == cs[j + 1];
    assert forall x :: x in tail ==> x in cs;
    assert cs[0] in cs && cs[0] !in tail;
    RemoveNodeSucceeds(g, cs[0]);
    var g1 := RemoveNode(g, cs[0]).0;
    assert forall x :: x in tail ==> Removable(g, x) && Removable(g1, x);
    assert forall x :: x in tail ==> x in g.flags && x in g1.flags;
  }

  lemma {:induction false} RemoveAllNodes(g: Graph, cs: seq<Address>)
    requires Consistent(g) && NoDup(cs) && Unblocked(g, cs)
    requires forall c :: c in cs ==> c in g.flags
    ensures RemoveAll(g, cs).0.flags.Keys == g.flags.Keys - Elements(cs)
    decreases |cs|
  {
    if cs == [] {
      assert Elements(cs) == {};
    } else {
      UnblockedTail(g, cs);
      RemoveAllNodes(RemoveNode(g, cs[0]).0, cs[1..]);
      assert Elements(cs) == {cs[0]} + Elements(cs[1..]);
    }
  }

  lemma {:induction false} RemoveAllEdge(g: Graph, cs: seq<Address>, x: Address, y: Address)
    requires Consistent(g) && NoDup(cs) && Unblocked(g, cs)
    requires forall c :: c in cs ==> c in g.flags
    ensures y in Out(RemoveAll(g, cs).0, x) <==> y in Out(g, x) && x !in cs && y !in cs
    decreases |cs|
  {
    if cs != [] {
      UnblockedTail(g, cs);
      RemoveAllEdge(RemoveNode(g, cs[0]).0, cs[1..], x, y);
    }
  }

  /** A prune that does not raise removes exactly its candidates and the edges touching them. */
  lemma RemoveAllExact(g: Graph, cs: seq<Address>)
    requires Consistent(g) && NoDup(cs) && Unblocked(g, cs)
    requires forall c :: c in cs ==> c in g.flags
    ensures var r := RemoveAll(g, cs).0;
            && r.flags.Keys == g.flags.Keys - Elements(cs)
            && forall x, y {:trigger y in Out(r, x)} :: y in Out(r, x) <==> y in Out(g, x) && x !in cs && y !in cs
  {
    RemoveAllNodes(g, cs);
    var r := RemoveAll(g, cs).0;
    forall x, y {:trigger y in Out(r, x)} ensures y in Out(r, x) <==> y in Out(g, x) && x !in cs && y !in cs {
      RemoveAllEdge(g, cs, x, y);
    }
  }

  lemma {:induction false} SelectMembers(g: Graph, s: seq<Address>)
    ensures forall x :: x in Select(g, s) <==> x in s && Prunable(g, x)
  {
    if s != [] {
      SelectMembers(g, s[1..]);
    }
  }

  /** `x` stands before `y`. */
  ghost predicate Before(s: seq<Address>, x: Address, y: Address) {
    exists i, j :: 0 <= i < j < |s| && s[i] == x && s[j] == y
  }

  lemma {:induction false} SelectInOrder(g: Graph, s: seq<Address>, i: nat, j: nat)
    requires i < j < |Select(g, s)|
    ensures Before(s, Select(g, s)[i], Select(g, s)[j])
    decreases |s|
  {
    var tail := s[1..];
    var x, y := Select(g, s)[i], Select(g, s)[j];
    assert forall k :: 0 <= k < |tail| ==> tail[k] == s[k + 1];
    if Prunable(g, s[0]) {
      assert y == Select(g, tail)[j - 1];
      if i == 0 {
        SelectMembers(g, tail);
        assert y in Select(g, tail) && y in tail;
        var k :| 0 <= k < |tail| && tail[k] == y;
        assert s[0] == x && s[k + 1] == y;
      } else {
        SelectInOrder(g, tail, i - 1, j - 1);
        var a, b :| 0 <= a < b < |tail| && tail[a] == x && tail[b] == y;
        assert s[a + 1] == x && s[b + 1] == y;
      }
    } else {
      SelectInOrder(g, tail, i, j);
      var a, b :| 0 <= a < b < |tail| && tail[a] == x && tail[b] == y;
      assert s[a + 1] == x && s[b + 1] == y;
    }
  }

  ghost predicate AtMostOne(s: set<Address>) {
    forall x, y :: x in s && y in s ==> x == y
  }

  lemma SmallSets(s: set<Address>)
    ensures |s| < 2 <==> AtMostOne(s)
  {
    if s != {} {
      var x :| x in s;
      assert s == {x} + (s - {x});
      if s - {x} != {} {
        var y :| y in s - {x};
      }
    }
  }

  /** A prune tries exactly the unflagged nodes with at most one receiver and at most one sender among the
      oldest `maxNodes / 10`, oldest first. */
  lemma CandidatesExact(g: Graph, maxNodes: nat)
    ensures var cs := Candidates(g, maxNodes);
            && (forall x :: x in cs <==>
                  && (exists i :: 0 <= i < |g.order| && i < maxNodes / 10 && g.order[i] == x)
                  && x in g.flags && g.flags[x] == 0 && AtMostOne(Out(g, x)) && AtMostOne(In(g, x)))
            && (forall i, j :: 0 <= i < j < |cs| ==> Before(g.order, cs[i], cs[j]))
  {
    var oldest := if maxNodes / 10 <= |g.order| then g.order[..maxNodes / 10] else g.order;
    var cs := Candidates(g, maxNodes);
    SelectMembers(g, oldest);
    forall x
      ensures Prunable(g, x) <==>
                x in g.flags && g.flags[x] == 0 && AtMostOne(Out(g, x)) && AtMostOne(In(g, x))
    {
      SmallSets(Out(g, x));
      SmallSets(In(g, x));
    }
    forall i, j | 0 <= i < j < |cs| ensures Before(g.order, cs[i], cs[j]) {
      SelectInOrder(g, oldest, i, j);
      var a, b :| 0 <= a < b < |oldest| && oldest[a] == cs[i] && oldest[b] == cs[j];
      assert g.order[a] == cs[i] && g.order[b] == cs[j];
    }
  }

  lemma {:induction false} SelectNoDup(g: Graph, s: seq<Address>)
    requires NoDup(s)
    ensures NoDup(Select(g, s))
  {
    if s != [] {
      var tail := s[1..];
      assert forall j :: 0 <= j < |tail| ==> tail[j] == s[j + 1];
      assert s[0] !in tail;
      SelectNoDup(g, tail);
      SelectMembers(g, tail);
      assert s[0] !in Select(g, tail);
    }
  }

  lemma CandidatesDistinct(g: Graph, maxNodes: nat)
    requires NoDup(g.order)
    ensures NoDup(Candidates(g, maxNodes))
    ensures forall c :: c in Candidates(g, maxNodes) ==> c in g.flags && g.flags[c] == 0
  {
    var s := if maxNodes / 10 <= |g.order| then g.order[..maxNodes / 10] else g.order;
    SelectNoDup(g, s);
    SelectMembers(g, s);
  }

  // ---------------------------------------------------------------------------
  // Whole operations and whole runs
  // ---------------------------------------------------------------------------

  lemma SameEdges(g: Graph, r: Graph)
    requires Transpose(g) && EndpointsKnown(g)
    requires r.adj == g.adj && r.rev == g.rev && g.flags.Keys <= r.flags.Keys
    ensures Transpose(r) && EndpointsKnown(r)
  {
    assert forall x :: Out(r, x) == Out(g, x) && In(r, x) == In(g, x);
  }

  lemma TouchKeeps(g: Graph, a: Address)
    requires Consistent(g)
    ensures Consistent(Touch(g, a)) && a in Touch(g, a).flags && Touch(g, a).mixers == g.mixers
    ensures forall x :: x in g.flags ==> x in Touch(g, a).flags && Touch(g, a).flags[x] == g.flags[x]
  {
    var r := Touch(g, a);
    if a !in g.flags {
      SameEdges(g, r);
      assert a !in Elements(g.order);
      assert Elements(r.order) == Elements(g.order) + {a};
    }
  }

  lemma AddEdgeKeeps(g: Graph, src: Address, dst: Address)
    requires Consistent(g) && src in g.flags && dst in g.flags
    ensures Consistent(AddEdge(g, src, dst))
    ensures dst in Out(AddEdge(g, src, dst), src)
    ensures AddEdge(g, src, dst).mixers == g.mixers && AddEdge(g, src, dst).flags == g.flags
  {
    var r := AddEdge(g, src, dst);
    forall x, y
      ensures y in Out(r, x) <==> y in Out(g, x) || (x == src && y == dst)
      ensures x in In(r, y) <==> x in In(g, y) || (x == src && y == dst)
      ensures y in Out(g, x) <==> x in In(g, y)
    {
    }
  }

  lemma InsertKeeps(g: Graph, src: Address, dst: Address)
    requires Consistent(g)
    ensures var r := AddEdge(Touch(Touch(g, src), dst), src, dst);
            && Consistent(r) && dst in Out(r, src) && r.mixers == g.mixers
            && (forall x :: x in g.flags ==> x in r.flags && r.flags[x] == g.flags[x])
  {
    TouchKeeps(g, src);
    var one := Touch(g, src);
    TouchKeeps(one, dst);
    var both := Touch(one, dst);
    AddEdgeKeeps(both, src, dst);
  }

  lemma InsertExact(g: Graph, src: Address, dst: Address)
    ensures var r := AddEdge(Touch(Touch(g, src), dst), src, dst);
            && r.flags.Keys == g.flags.Keys + {src, dst}
            && forall x, y {:trigger y in Out(r, x)} :: y in Out(r, x) <==> y in Out(g, x) || (x == src && y == dst)
  {
  }

  function Keep(s: seq<Address>, gone: set<Address>): seq<Address> {
    if s == [] then [] else (if s[0] in gone then [] else [s[0]]) + Keep(s[1..], gone)
  }

  lemma {:induction false} KeepAll(s: seq<Address>, gone: set<Address>)
    requires forall x :: x in s ==> x !in gone
    ensures Keep(s, gone) == s
  {
    if s != [] {
      assert s[0] in s && forall x :: x in s[1..] ==> x in s;
      KeepAll(s[1..], gone);
    }
  }

  lemma {:induction false} KeepWithout(s: seq<Address>, a: Address, gone: set<Address>)
    requires NoDup(s)
    ensures Keep(RemoveFirst(s, a), gone) == Keep(s, gone + {a})
  {
    if s != [] {
      var tail := s[1..];
      assert forall i :: 0 <= i < |tail| ==> tail[i] == s[i + 1];
      if s[0] == a {
        assert a !in tail;
        KeepSame(tail, gone, gone + {a});
      } else {
        KeepWithout(tail, a, gone);
        assert RemoveFirst(s, a)[1..] == RemoveFirst(tail, a);
      }
    }
  }

  lemma {:induction false} KeepSame(s: seq<Address>, gone: set<Address>, more: set<Address>)
    requires forall x :: x in s ==> (x in gone <==> x in more)
    ensures Keep(s, gone) == Keep(s, more)
  {
    if s != [] {
      assert s[0] in s && forall x :: x in s[1..] ==> x in s;
      KeepSame(s[1..], gone, more);
    }
  }

  /** The nodes outside `gone`, with their data and in their order. */
  ghost predicate DataWithout(g: Graph, r: Graph, gone: set<Address>) {
    r.order == Keep(g.order, gone) && r.flags == g.flags - gone && r.scores == g.scores - gone
  }

  lemma DataWithoutNone(g: Graph)
    ensures DataWithout(g, g, {})
  {
    KeepAll(g.order, {});
  }

  lemma DataWithoutOne(g: Graph, a: Address, r: Graph, gone: set<Address>)
    requires NoDup(g.order) && RemoveNode(g, a).1 && DataWithout(RemoveNode(g, a).0, r, gone)
    ensures DataWithout(g, r, gone + {a})
  {
    KeepWithout(g.order, a, gone);
    assert (g.flags - {a}) - gone == g.flags - (gone + {a});
    assert (g.scores - {a}) - gone == g.scores - (gone + {a});
  }

  /** A prune that does not raise leaves the other nodes' data and order alone. */
  lemma {:induction false} RemoveAllData(g: Graph, cs: seq<Address>)
    requires NoDup(g.order) && RemoveAll(g, cs).1
    ensures DataWithout(g, RemoveAll(g, cs).0, Elements(cs))
    decreases |cs|
  {
    if cs == [] {
      assert Elements(cs) == {};
      DataWithoutNone(g);
    } else {
      RemoveFirstDistinct(g.order, cs[0]);
      RemoveAllData(RemoveNode(g, cs[0]).0, cs[1..]);
      DataWithoutOne(g, cs[0], RemoveAll(g, cs).0, Elements(cs[1..]));
      assert Elements(cs) == Elements(cs[1..]) + {cs[0]};
    }
  }

  /** `m` with `value` for the keys it lacks. */
  ghost predicate Completed<V>(m: map<Address, V>, src: Address, dst: Address, value: V, r: map<Address, V>) {
    && r.Keys == m.Keys + {src, dst}
    && (forall x :: x in r ==> r[x] == if x in m then m[x] else value)
  }

  /** The nodes outside `gone` keep their place, flags and score, and new endpoints come last, unflagged and
      with score 0. */
  ghost predicate NodesAfter(g: Graph, gone: set<Address>, src: Address, dst: Address, r: Graph) {
    && Completed(g.flags - gone, src, dst, 0, r.flags) && Completed(g.scores - gone, src, dst, 0.0, r.scores)
    && r.order == Keep(g.order, gone) + (if src in g.flags - gone then [] else [src])
                                      + (if dst in g.flags - gone || dst == src then [] else [dst])
  }

  lemma TouchedFlags(g: Graph, src: Address, dst: Address)
    ensures Completed(g.flags, src, dst, 0, Touch(Touch(g, src), dst).flags)
  {
  }

  lemma TouchedScores(g: Graph, src: Address, dst: Address)
    requires g.flags.Keys == g.scores.Keys
    ensures Completed(g.scores, src, dst, 0.0, Touch(Touch(g, src), dst).scores)
  {
  }

  lemma TouchedOrder(g: Graph, src: Address, dst: Address)
    ensures Touch(Touch(g, src), dst).order == g.order + (if src in g.flags then [] else [src])
                                                       + (if dst in g.flags || dst == src then [] else [dst])
  {
  }

  lemma TouchData(g: Graph, g1: Graph, gone: set<Address>, src: Address, dst: Address)
    requires g.flags.Keys == g.scores.Keys && DataWithout(g, g1, gone)
    ensures NodesAfter(g, gone, src, dst, AddEdge(Touch(Touch(g1, src), dst), src, dst))
  {
    TouchedFlags(g1, src, dst);
    TouchedScores(g1, src, dst);
    TouchedOrder(g1, src, dst);
    var r := Touch(Touch(g1, src), dst);
    assert AddEdge(r, src, dst).flags == r.flags && AddEdge(r, src, dst).scores == r.scores;
  }

  /** What a successful transaction does to the node data, given what a prune that was due takes away. */
  lemma AddTransactionNodes(g: Graph, maxNodes: nat, src: Address, dst: Address)
    requires Counted(g) && AddTransaction(g, maxNodes, src, dst).1
    ensures var gone := if g.count >= maxNodes then Elements(Candidates(g, maxNodes)) else {};
            NodesAfter(g, gone, src, dst, AddTransaction(g, maxNodes, src, dst).0)
  {
    if g.count >= maxNodes {
      var cs := Candidates(g, maxNodes);
      RemoveAllData(g, cs);
      TouchData(g, RemoveAll(g, cs).0, Elements(cs), src, dst);
    } else {
      DataWithoutNone(g);
      TouchData(g, g, {}, src, dst);
    }
  }

  /** A transaction that succeeds adds its edge and endpoints and takes away nothing but the
      candidates of a prune that was due. */
  lemma AddTransactionExact(g: Graph, maxNodes: nat, src: Address, dst: Address)
    requires Consistent(g) && AddTransaction(g, maxNodes, src, dst).1
    ensures var r := AddTransaction(g, maxNodes, src, dst).0;
            var gone := if g.count >= maxNodes then Candidates(g, maxNodes) else [];
            && r.flags.Keys == g.flags.Keys - Elements(gone) + {src, dst}
            && forall x, y {:trigger y in Out(r, x)} ::
                 y in Out(r, x) <==> (y in Out(g, x) && x !in gone && y !in gone) || (x == src && y == dst)
  {
    AddTransactionOutcome(g, maxNodes, src, dst);
    if g.count >= maxNodes {
      CandidatesDistinct(g, maxNodes);
      RemoveAllExact(g, Candidates(g, maxNodes));
      InsertExact(Prune(g, maxNodes).0, src, dst);
    } else {
      assert Elements<Address>([]) == {};
      InsertExact(g, src, dst);
    }
  }

  lemma UnblockedHarmless(g: Graph, cs: seq<Address>)
    requires Unblocked(g, cs)
    ensures Harmless(g, cs)
  {
  }

  lemma PruneOutcome(g: Graph, maxNodes: nat)
    requires Consistent(g)
    ensures var (r, ok) := Prune(g, maxNodes);
            var cs := Candidates(g, maxNodes);
            && (ok <==> Unblocked(g, cs)) && (Consistent(r) <==> Harmless(g, cs)) && (ok ==> Consistent(r))
            && r.mixers == g.mixers
            && (forall x :: x in g.flags && g.flags[x] != 0 ==> x in r.flags && r.flags[x] == g.flags[x])
  {
    var cs := Candidates(g, maxNodes);
    CandidatesDistinct(g, maxNodes);
    RemoveAllRaises(g, cs);
    RemoveAllKeepsOthers(g, cs);
    RemoveAllConsistent(g, cs);
    if Unblocked(g, cs) {
      UnblockedHarmless(g, cs);
    }
  }

  /** When no prune is due a transaction always succeeds; when one is due, it succeeds exactly when
      every candidate has both keys.  Flagged nodes are never removed either way. */
  lemma AddTransactionOutcome(g: Graph, maxNodes: nat, src: Address, dst: Address)
    requires Consistent(g)
    ensures var (r, ok) := AddTransaction(g, maxNodes, src, dst);
            var cs := Candidates(g, maxNodes);
            && (ok <==> g.count < maxNodes || Unblocked(g, cs))
            && (Consistent(r) <==> g.count < maxNodes || Harmless(g, cs))
            && (ok ==> Consistent(r) && dst in Out(r, src))
            && r.mixers == g.mixers
            && (forall x :: x in g.flags && g.flags[x] != 0 ==> x in r.flags && r.flags[x] == g.flags[x])
  {
    PruneOutcome(g, maxNodes);
    var (g1, ok) := if g.count >= maxNodes then Prune(g, maxNodes) else (g, true);
    if ok {
      InsertKeeps(g1, src, dst);
    }
  }

  /** Only `a` changes, if it is a node: its mixer bit is set, its other bits stay, and its score is 1. */
  ghost predicate MarkedOnly(g: Graph, r: Graph, a: Address) {
    && r.adj == g.adj && r.rev == g.rev && r.order == g.order && r.count == g.count
    && r.flags.Keys == g.flags.Keys && r.scores.Keys == g.scores.Keys
    && (forall x :: x in g.flags && x != a ==> r.flags[x] == g.flags[x])
    && (forall x :: x in g.scores && x != a ==> r.scores[x] == g.scores[x])
    && (a in g.flags ==> HasMixerBit(r.flags[a]) && r.flags[a] / 2 == g.flags[a] / 2)
    && (a in g.scores ==> r.scores[a] == 1.0)
  }

  /** Marking keeps the graph consistent; it keeps every mixer flagged exactly when the address is
      a known node. */
  lemma MarkAsMixerOutcome(g: Graph, address: Address)
    requires Consistent(g)
    ensures var (r, ok) := MarkAsMixer(g, address);
            && Consistent(r) && r.mixers == g.mixers + {Lower(address)} && MarkedOnly(g, r, Lower(address))
            && (ok <==> Lower(address) in g.flags)
            && (MixersFlagged(g) ==> (MixersFlagged(r) <==> Lower(address) in g.flags))
  {
    var r := MarkAsMixer(g, address).0;
    assert r.flags.Keys == g.flags.Keys && r.scores.Keys == g.scores.Keys;
    SameEdges(g, r);
  }

  datatype Op = Transact(src: Address, dst: Address) | Mark(address: Address)

  function Apply(g: Graph, maxNodes: nat, op: Op): (Graph, bool) {
    match op
    case Transact(src, dst) => AddTransaction(g, maxNodes, src, dst)
    case Mark(address) => MarkAsMixer(g, address)
  }

  function Run(g: Graph, maxNodes: nat, ops: seq<Op>): Graph
    decreases |ops|
  {
    if ops == [] then g else Run(Apply(g, maxNodes, ops[0]).0, maxNodes, ops[1..])
  }

  ghost predicate Good(g: Graph) {
    Consistent(g) && MixersFlagged(g)
  }

  /** A prune that is due leaves no dangling edge, and only known nodes are marked. */
  ghost predicate Safe(g: Graph, maxNodes: nat, op: Op) {
    match op
    case Transact(_, _) => g.count < maxNodes || Harmless(g, Candidates(g, maxNodes))
    case Mark(address) => Lower(address) in g.flags
  }

  /** The graph is good at every point of a run that goes on after caught exceptions. */
  ghost predicate AlwaysGood(g: Graph, maxNodes: nat, ops: seq<Op>)
    decreases |ops|
  {
    Good(g) && (ops != [] ==> AlwaysGood(Apply(g, maxNodes, ops[0]).0, maxNodes, ops[1..]))
  }

  ghost predicate AllSafe(g: Graph, maxNodes: nat, ops: seq<Op>)
    decreases |ops|
  {
    ops != [] ==> Safe(g, maxNodes, ops[0]) && AllSafe(Apply(g, maxNodes, ops[0]).0, maxNodes, ops[1..])
  }

  /** Replays a transaction history until one of its transactions raises. */
  function AddHistory(g: Graph, maxNodes: nat, history: seq<(Address, Address)>): (Graph, bool)
    decreases |history|
  {
    if history == [] then (g, true)
    else
      var (g1, ok) := AddTransaction(g, maxNodes, history[0].0, history[0].1);
      if ok then AddHistory(g1, maxNodes, history[1..]) else (g1, false)
  }

  /** The transactions of a history, as operations. */
  function Transactions(history: seq<(Address, Address)>): (ops: seq<Op>)
    ensures |ops| == |history|
  {
    seq(|history|, i requires 0 <= i < |history| => Transact(history[i].0, history[i].1))
  }

  /** `ops` runs without an exception. */
  ghost predicate NoneRaises(g: Graph, maxNodes: nat, ops: seq<Op>)
    decreases |ops|
  {
    ops != [] ==> Apply(g, maxNodes, ops[0]).1 && NoneRaises(Apply(g, maxNodes, ops[0]).0, maxNodes, ops[1..])
  }

  lemma TransactionsTail(history: seq<(Address, Address)>)
    requires history != []
    ensures Transactions(history)[0] == Transact(history[0].0, history[0].1)
    ensures Transactions(history)[1..] == Transactions(history[1..])
  {
  }

  /** A history is replayed to its end if and only if none of its transactions raises. */
  lemma {:induction false} HistoryEnds(g: Graph, maxNodes: nat, history: seq<(Address, Address)>)
    ensures AddHistory(g, maxNodes, history).1 <==> NoneRaises(g, maxNodes, Transactions(history))
    decreases |history|
  {
    if history != [] {
      TransactionsTail(history);
      HistoryEnds(AddTransaction(g, maxNodes, history[0].0, history[0].1).0, maxNodes, history[1..]);
    }
  }

  lemma RunPrefix(g: Graph, maxNodes: nat, ops: seq<Op>, n: nat)
    requires n < |ops|
    ensures Run(g, maxNodes, ops[..n + 1]) == Run(Apply(g, maxNodes, ops[0]).0, maxNodes, ops[1..][..n])
    ensures NoneRaises(g, maxNodes, ops[..n + 1]) <==>
              Apply(g, maxNodes, ops[0]).1 && NoneRaises(Apply(g, maxNodes, ops[0]).0, maxNodes, ops[1..][..n])
  {
    assert ops[..n + 1][0] == ops[0] && ops[..n + 1][1..] == ops[1..][..n];
  }

  /** The `n` transactions that a replay runs: all, or those up to and including the first that raises. */
  ghost predicate Replayed(g: Graph, maxNodes: nat, ops: seq<Op>, n: nat) {
    && n <= |ops|
    && (NoneRaises(g, maxNodes, ops[..n]) ==> n == |ops|)
    && (!NoneRaises(g, maxNodes, ops[..n]) ==> n > 0 && NoneRaises(g, maxNodes, ops[..n - 1]))
  }

  lemma {:induction false} HistoryIsRun(g: Graph, maxNodes: nat, history: seq<(Address, Address)>) returns (n: nat)
    ensures Replayed(g, maxNodes, Transactions(history), n)
    ensures AddHistory(g, maxNodes, history).0 == Run(g, maxNodes, Transactions(history)[..n])
    decreases |history|
  {
    var ops := Transactions(history);
    if history == [] {
      n := 0;
    } else {
      TransactionsTail(history);
      n := 0;
      if Apply(g, maxNodes, ops[0]).1 {
        n := HistoryIsRun(Apply(g, maxNodes, ops[0]).0, maxNodes, history[1..]);
        if n > 0 {
          RunPrefix(g, maxNodes, ops, n - 1);
        }
      }
      RunPrefix(g, maxNodes, ops, n);
      n := n + 1;
    }
  }

  lemma FlagsKept(g: Graph, r: Graph)
    requires MixersFlagged(g) && r.mixers == g.mixers
    requires forall x :: x in g.flags && g.flags[x] != 0 ==> x in r.flags && r.flags[x] == g.flags[x]
    ensures MixersFlagged(r)
  {
  }

  lemma StepKeepsGood(g: Graph, maxNodes: nat, op: Op)
    requires Good(g)
    ensures Good(Apply(g, maxNodes, op).0) <==> Safe(g, maxNodes, op)
    ensures g.mixers <= Apply(g, maxNodes, op).0.mixers
  {
    match op
    case Transact(src, dst) =>
      AddTransactionOutcome(g, maxNodes, src, dst);
      FlagsKept(g, AddTransaction(g, maxNodes, src, dst).0);
    case Mark(address) => MarkAsMixerOutcome(g, address);
  }

  lemma BadAtOnce(g: Graph, maxNodes: nat, ops: seq<Op>)
    requires !Good(g)
    ensures !AlwaysGood(g, maxNodes, ops)
  {
  }

  /** Along a run from any good graph, caught exceptions included, the two adjacencies stay
      transposed, the endpoints known, the count right, and every mixer present and flagged, if and
      only if each prune that is due is harmless and each mark hits a known node. */
  lemma {:induction false} RunKeepsInvariant(g: Graph, maxNodes: nat, ops: seq<Op>)
    requires Good(g)
    ensures AlwaysGood(g, maxNodes, ops) <==> AllSafe(g, maxNodes, ops)
    ensures AllSafe(g, maxNodes, ops) ==> Good(Run(g, maxNodes, ops)) && g.mixers <= Run(g, maxNodes, ops).mixers
    decreases |ops|
  {
    if ops != [] {
      var r := Apply(g, maxNodes, ops[0]).0;
      StepKeepsGood(g, maxNodes, ops[0]);
      if Safe(g, maxNodes, ops[0]) {
        RunKeepsInvariant(r, maxNodes, ops[1..]);
      } else {
        BadAtOnce(r, maxNodes, ops[1..]);
      }
    }
  }

  /** A detector that populates its mixer list on construction marks addresses of an empty graph:
      the very first mark raises, and leaves a mixer that is no node. */
  lemma PopulatingEmptyGraphRaises(address: Address)
    ensures Consistent(EMPTY) && MixersFlagged(EMPTY)
    ensures !MarkAsMixer(EMPTY, address).1 && !MixersFlagged(MarkAsMixer(EMPTY, address).0)
  {
    assert Elements(EMPTY.order) == {};
    MarkAsMixerOutcome(EMPTY, address);
  }
}
