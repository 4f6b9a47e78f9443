/** The distance-weighted risk score over the mixers found, and the blocking decision it leads to. */
module MixerScore {
  import opened Common
  import opened TxGraph
  import opened MixerReach

  const ANALYZE_DEPTH: nat := 3
  const DEFAULT_THRESHOLD: real := 0.5

  /** `0.5 ** d` */
  function Weight(d: nat): (w: real)
    ensures 0.0 < w <= 1.0
  {
    if d == 0 then 1.0 else 0.5 * Weight(d - 1)
  }

  function Total(conns: seq<Entry>): real {
    if conns == [] then 0.0 else Weight(conns[0].hops) + Total(conns[1..])
  }

  function Score(conns: seq<Entry>): real {
    if conns == [] then 0.0
    else
      var mean := Total(conns) / |conns| as real;
      if mean < 1.0 then mean else 1.0
  }

  // ---------------------------------------------------------------------------
  // The score is a function of the graph
  // ---------------------------------------------------------------------------

  lemma {:induction false} TotalRemove(c: seq<Entry>, e: Entry)
    requires e in c
    ensures Total(c) == Weight(e.hops) + Total(RemoveFirst(c, e))
  {
    if c[0] != e {
      TotalRemove(c[1..], e);
      assert RemoveFirst(c, e)[1..] == RemoveFirst(c[1..], e);
    }
  }

  lemma {:induction false} TotalPermuted(c1: seq<Entry>, c2: seq<Entry>)
    requires NoDup(c1) && NoDup(c2) && Elements(c1) == Elements(c2)
    ensures Total(c1) == Total(c2) && |c1| == |c2|
    decreases |c1|
  {
    if c1 == [] {
      if c2 != [] {
        HeadInElements(c2);
      }
    } else {
      var e, tail := c1[0], c1[1..];
      assert forall i :: 0 <= i < |tail| ==> tail[i] == c1[i + 1];
      assert e in Elements(c1);
      assert Elements(tail) == Elements(c1) - {e};
      RemoveFirstDistinct(c2, e);
      TotalRemove(c2, e);
      TotalPermuted(tail, RemoveFirst(c2, e));
    }
  }

  lemma SameConnections(g: Graph, s: Address, depth: int, c1: seq<Entry>, c2: seq<Entry>)
    requires Exact(g, s, depth, c1) && Exact(g, s, depth, c2)
    ensures Elements(c1) <= Elements(c2)
  {
    forall e | e in c1 ensures e in c2 {
      assert Entry(e.node, e.hops) in c1;
      assert Entry(e.node, e.hops) in c2;
    }
  }

  /** Whatever order the neighbour sets are iterated in, the score comes out the same. */
  lemma ScoreWellDefined(g: Graph, s: Address, depth: int, c1: seq<Entry>, c2: seq<Entry>)
    requires Exact(g, s, depth, c1) && Exact(g, s, depth, c2)
    ensures Score(c1) == Score(c2)
  {
    SameConnections(g, s, depth, c1, c2);
    SameConnections(g, s, depth, c2, c1);
    TotalPermuted(c1, c2);
  }

  // ---------------------------------------------------------------------------
  // The band of possible scores
  // ---------------------------------------------------------------------------

  lemma {:induction false} WeightAntitone(d: nat, e: nat)
    requires d <= e
    ensures Weight(e) <= Weight(d) && (d < e ==> Weight(e) < Weight(d))
    decreases e - d
  {
    if d < e {
      WeightAntitone(d, e - 1);
    }
  }

  ghost predicate AllWithin(conns: seq<Entry>, depth: nat) {
    forall e :: e in conns ==> 1 <= e.hops <= depth
  }

  ghost predicate AllDirect(conns: seq<Entry>) {
    forall e :: e in conns ==> e.hops == 1
  }

  /** `n` copies of `w` added up. */
  function Copies(n: nat, w: real): real {
    if n == 0 then 0.0 else w + Copies(n - 1, w)
  }

  lemma {:induction false} CopiesIsProduct(n: nat, w: real)
    ensures Copies(n, w) == n as real * w
  {
    if n > 0 {
      CopiesIsProduct(n - 1, w);
      assert n as real * w == ((n - 1) as real + 1.0) * w;
    }
  }

  lemma {:induction false} TotalAtLeast(conns: seq<Entry>, depth: nat)
    requires AllWithin(conns, depth)
    ensures Copies(|conns|, Weight(depth)) <= Total(conns)
  {
    if conns != [] {
      assert conns[0] in conns;
      TotalAtLeast(conns[1..], depth);
      WeightAntitone(conns[0].hops, depth);
    }
  }

  lemma {:induction false} TotalAtMost(conns: seq<Entry>, depth: nat)
    requires AllWithin(conns, depth)
    ensures Total(conns) <= |conns| as real * 0.5
    ensures Total(conns) == |conns| as real * 0.5 <==> AllDirect(conns)
  {
    if conns != [] {
      var tail := conns[1..];
      assert conns[0] in conns;
      assert forall e :: e in conns <==> e == conns[0] || e in tail;
      TotalAtMost(tail, depth);
      assert Weight(1) == 0.5;
      WeightAntitone(1, conns[0].hops);
    }
  }

  lemma DivideBand(t: real, n: real, lo: real, hi: real)
    requires n > 0.0 && n * lo <= t <= n * hi
    ensures lo <= t / n <= hi && (t / n == hi <==> t == n * hi)
  {
    var q := t / n;
    assert q * n == t;
    ScaleOrder(lo, q, n);
    ScaleOrder(q, hi, n);
  }

  /** Zero exactly when no mixer is reached; otherwise between the weight of the search depth and one
      half, and one half exactly when every mixer reached is one hop away. */
  lemma ScoreBand(conns: seq<Entry>, depth: nat)
    requires AllWithin(conns, depth)
    ensures Score(conns) == 0.0 <==> conns == []
    ensures conns != [] ==> Weight(depth) <= Score(conns) <= 0.5
    ensures Score(conns) >= 0.5 <==> conns != [] && AllDirect(conns)
  {
    if conns != [] {
      TotalAtLeast(conns, depth);
      CopiesIsProduct(|conns|, Weight(depth));
      TotalAtMost(conns, depth);
      DivideBand(Total(conns), |conns| as real, Weight(depth), 0.5);
    }
  }

  ghost predicate Reached(g: Graph, s: Address, depth: int, m: Address) {
    m in g.mixers && exists d: nat :: d <= depth && Shortest(g, s, m, d)
  }

  lemma ExactWithin(g: Graph, s: Address, depth: nat, conns: seq<Entry>)
    requires Exact(g, s, depth, conns) && s !in g.mixers
    ensures AllWithin(conns, depth)
  {
    forall e | e in conns ensures 1 <= e.hops <= depth {
      var Entry(m, d) := e;
      assert Entry(m, d) in conns;
      if d == 0 {
        ReachesZero(g, s, m);
      }
    }
  }

  /** At analyze's depth and the default threshold, an address that is no mixer scores 0 exactly when
      it reaches none and otherwise within [1/8, 1/2]; it is high risk exactly when it reaches a
      mixer and every mixer it reaches is one hop away. */
  lemma DecisionExact(g: Graph, s: Address, conns: seq<Entry>)
    requires Exact(g, s, ANALYZE_DEPTH, conns) && s !in g.mixers
    ensures Score(conns) == 0.0 <==> !exists m :: Reached(g, s, ANALYZE_DEPTH, m)
    ensures Score(conns) != 0.0 ==> 0.125 <= Score(conns) <= 0.5
    ensures Score(conns) >= DEFAULT_THRESHOLD <==>
              && (exists m :: Reached(g, s, ANALYZE_DEPTH, m))
              && (forall m :: Reached(g, s, ANALYZE_DEPTH, m) ==> Shortest(g, s, m, 1))
  {
    ExactWithin(g, s, ANALYZE_DEPTH, conns);
    ScoreBand(conns, ANALYZE_DEPTH);
    assert Weight(1) == 0.5 && Weight(2) == 0.25 && Weight(3) == 0.125;
    if conns != [] {
      var Entry(m, d) := conns[0];
      assert Entry(m, d) in conns;
      assert Reached(g, s, ANALYZE_DEPTH, m);
    }
    forall m | Reached(g, s, ANALYZE_DEPTH, m) ensures exists d: nat :: Entry(m, d) in conns {
      var d: nat :| d <= ANALYZE_DEPTH && Shortest(g, s, m, d);
      assert Entry(m, d) in conns;
    }
    if AllDirect(conns) {
      forall m | Reached(g, s, ANALYZE_DEPTH, m) ensures Shortest(g, s, m, 1) {
        var d: nat :| Entry(m, d) in conns;
        assert d == 1;
      }
    }
    if forall m :: Reached(g, s, ANALYZE_DEPTH, m) ==> Shortest(g, s, m, 1) {
      forall e | e in conns ensures e.hops == 1 {
        var Entry(m, d) := e;
        assert Entry(m, d) in conns;
        assert Reached(g, s, ANALYZE_DEPTH, m);
        ShortestUnique(g, s, m, 1, d);
        ShortestUnique(g, s, m, d, 1);
      }
    }
  }

  // ---------------------------------------------------------------------------
  // The value of the score, from the numbers of mixers at each distance
  // ---------------------------------------------------------------------------

  function Pow2(k: nat): (r: nat)
    ensures r >= 1
  {
    if k == 0 then 1 else 2 * Pow2(k - 1)
  }

  lemma {:induction false} CopiesLinear(n: nat, a: real, b: real)
    ensures Copies(n, a + b) == Copies(n, a) + Copies(n, b)
    ensures Copies(n, 0.5 * a) == 0.5 * Copies(n, a)
    ensures Copies(n, 1.0) == n as real && Copies(n, 0.0) == 0.0
  {
    if n > 0 {
      CopiesLinear(n - 1, a, b);
    }
  }

  lemma {:induction false} WeightScaled(d: nat, depth: nat)
    requires d <= depth
    ensures Copies(Pow2(depth), Weight(d)) == Pow2(depth - d) as real
    decreases d
  {
    if d == 0 {
      CopiesLinear(Pow2(depth), 0.0, 0.0);
    } else {
      WeightScaled(d - 1, depth);
      assert Pow2(depth - (d - 1)) == 2 * Pow2(depth - d);
      CopiesLinear(Pow2(depth), Weight(d - 1), 0.0);
    }
  }

  /** The entries at `d` hops. */
  function CountAt(conns: seq<Entry>, d: nat): nat {
    if conns == [] then 0 else (if conns[0].hops == d then 1 else 0) + CountAt(conns[1..], d)
  }

  /** The entries at up to `d` hops, and the same weighted by powers of two. */
  function CountUpTo(conns: seq<Entry>, d: nat): nat {
    CountAt(conns, d) + if d == 0 then 0 else CountUpTo(conns, d - 1)
  }

  function WeighedUpTo(conns: seq<Entry>, depth: nat, d: nat): nat
    requires d <= depth
  {
    CountAt(conns, d) * Pow2(depth - d) + if d == 0 then 0 else WeighedUpTo(conns, depth, d - 1)
  }

  lemma {:induction false} OneMore(e: Entry, tail: seq<Entry>, depth: nat, d: nat)
    requires d <= depth
    ensures CountUpTo([e] + tail, d) == CountUpTo(tail, d) + if e.hops <= d then 1 else 0
    ensures WeighedUpTo([e] + tail, depth, d)
         == WeighedUpTo(tail, depth, d) + if e.hops <= d then Pow2(depth - e.hops) else 0
    decreases d
  {
    assert ([e] + tail)[1..] == tail;
    var n, p := CountAt(tail, d), Pow2(depth - d);
    assert (n + 1) * p == n * p + p;
    if d > 0 {
      OneMore(e, tail, depth, d - 1);
    }
  }

  lemma {:induction false} NothingCounted(depth: nat, d: nat)
    requires d <= depth
    ensures CountUpTo([], d) == 0 && WeighedUpTo([], depth, d) == 0
    decreases d
  {
    if d > 0 {
      NothingCounted(depth, d - 1);
    }
  }

  lemma {:induction false} AllCounted(conns: seq<Entry>, depth: nat)
    requires forall e :: e in conns ==> e.hops <= depth
    ensures CountUpTo(conns, depth) == |conns|
  {
    if conns == [] {
      NothingCounted(depth, depth);
    } else {
      var e, tail := conns[0], conns[1..];
      assert conns == [e] + tail && e in conns;
      assert forall x :: x in tail ==> x in conns;
      AllCounted(tail, depth);
      OneMore(e, tail, depth, depth);
    }
  }

  /** The weights, multiplied out entry by entry. */
  function WholeTotal(conns: seq<Entry>, depth: nat): nat
    requires forall e :: e in conns ==> e.hops <= depth
  {
    if conns == [] then 0
    else
      assert conns[0] in conns;
      Pow2(depth - conns[0].hops) + WholeTotal(conns[1..], depth)
  }

  lemma {:induction false} TotalScaled(conns: seq<Entry>, depth: nat)
    requires forall e :: e in conns ==> e.hops <= depth
    ensures Copies(Pow2(depth), Total(conns)) == WholeTotal(conns, depth) as real
  {
    var n := Pow2(depth);
    if conns == [] {
      CopiesLinear(n, 0.0, 0.0);
    } else {
      var e, tail := conns[0], conns[1..];
      assert e in conns;
      assert forall x :: x in tail ==> x in conns;
      TotalScaled(tail, depth);
      WeightScaled(e.hops, depth);
      CopiesLinear(n, Weight(e.hops), Total(tail));
    }
  }

  /** Adding up entry by entry or distance by distance comes to the same. */
  lemma {:induction false} WholeTotalByDistance(conns: seq<Entry>, depth: nat)
    requires forall e :: e in conns ==> e.hops <= depth
    ensures WholeTotal(conns, depth) == WeighedUpTo(conns, depth, depth)
  {
    if conns == [] {
      NothingCounted(depth, depth);
    } else {
      var e, tail := conns[0], conns[1..];
      assert conns == [e] + tail && e in conns;
      assert forall x :: x in tail ==> x in conns;
      WholeTotalByDistance(tail, depth);
      OneMore(e, tail, depth, depth);
    }
  }

  /** The mixers whose shortest distance is `d`. */
  ghost function MixersAt(g: Graph, s: Address, d: nat): set<Address> {
    set m | m in g.mixers && Shortest(g, s, m, d)
  }

  lemma {:induction false} CountIsSize(conns: seq<Entry>, d: nat, nodes: set<Address>)
    requires NoDup(conns) && forall m :: m in nodes <==> Entry(m, d) in conns
    ensures CountAt(conns, d) == |nodes|
    decreases |conns|
  {
    if conns == [] {
      assert nodes == {};
    } else {
      var e, tail := conns[0], conns[1..];
      assert forall i :: 0 <= i < |tail| ==> tail[i] == conns[i + 1];
      assert forall x :: x in conns <==> x == e || x in tail;
      assert e !in tail;
      if e.hops == d {
        CountIsSize(tail, d, nodes - {e.node});
        assert e == Entry(e.node, d) && e.node in nodes;
      } else {
        CountIsSize(tail, d, nodes);
      }
    }
  }

  /** The numbers of mixers at up to `d` hops, plain and weighted. */
  ghost function MixersUpTo(g: Graph, s: Address, d: nat): nat {
    |MixersAt(g, s, d)| + if d == 0 then 0 else MixersUpTo(g, s, d - 1)
  }

  ghost function WeighedMixers(g: Graph, s: Address, depth: nat, d: nat): nat
    requires d <= depth
  {
    |MixersAt(g, s, d)| * Pow2(depth - d) + if d == 0 then 0 else WeighedMixers(g, s, depth, d - 1)
  }

  lemma {:induction false} CountsAreMixers(g: Graph, s: Address, conns: seq<Entry>, depth: nat, d: nat)
    requires Exact(g, s, depth, conns) && d <= depth
    ensures CountUpTo(conns, d) == MixersUpTo(g, s, d)
    ensures WeighedUpTo(conns, depth, d) == WeighedMixers(g, s, depth, d)
    decreases d
  {
    CountIsSize(conns, d, MixersAt(g, s, d));
    if d > 0 {
      CountsAreMixers(g, s, conns, depth, d - 1);
    }
  }

  /** `score` is `whole` over `count` times `unit`. */
  ghost predicate IsMean(score: real, count: nat, unit: nat, whole: nat) {
    (count == 0 ==> score == 0.0) && score * count as real * unit as real == whole as real
  }

  lemma Chain(score: real, count: nat, unit: nat, total: real, whole: nat)
    requires count == 0 ==> score == 0.0
    requires score * count as real == total && unit as real * total == whole as real
    ensures IsMean(score, count, unit, whole)
  {
  }

  lemma HopsWithin(g: Graph, s: Address, depth: int, conns: seq<Entry>, e: Entry)
    requires Exact(g, s, depth, conns) && e in conns
    ensures e.hops <= depth
  {
    assert Entry(e.node, e.hops) in conns;
  }

  lemma Combine(conns: seq<Entry>, count: nat, unit: nat, whole: nat)
    requires count == |conns| && Copies(unit, Total(conns)) == whole as real
    ensures IsMean(Score(conns), count, unit, whole)
  {
    MeanIsScore(conns);
    CopiesIsProduct(unit, Total(conns));
    Chain(Score(conns), count, unit, Total(conns), whole);
  }

  /** For any depth: the score times the number of mixers in reach is the sum of 2^-d over the mixers at
      each distance d; here multiplied by 2^depth, so that all numbers are whole. */
  lemma ScoreValue(g: Graph, s: Address, depth: nat, conns: seq<Entry>)
    requires Exact(g, s, depth, conns)
    ensures IsMean(Score(conns), MixersUpTo(g, s, depth), Pow2(depth), WeighedMixers(g, s, depth, depth))
  {
    forall e | e in conns ensures e.hops <= depth {
      HopsWithin(g, s, depth, conns, e);
    }
    AllCounted(conns, depth);
    TotalScaled(conns, depth);
    WholeTotalByDistance(conns, depth);
    CountsAreMixers(g, s, conns, depth, depth);
    Combine(conns, MixersUpTo(g, s, depth), Pow2(depth), WeighedMixers(g, s, depth, depth));
  }

  /** The cap of 1 never bites: a mean of weights is at most 1. */
  lemma MeanIsScore(conns: seq<Entry>)
    ensures Score(conns) * |conns| as real == Total(conns)
  {
    if conns != [] {
      TotalCapped(conns);
      var n, mean := |conns| as real, Total(conns) / |conns| as real;
      assert mean * n == Total(conns);
      ScaleOrder(mean, 1.0, n);
    }
  }

  lemma {:induction false} TotalCapped(conns: seq<Entry>)
    ensures Total(conns) <= |conns| as real
  {
    if conns != [] {
      TotalCapped(conns[1..]);
    }
  }

  lemma NoneAtZero(g: Graph, s: Address)
    requires s !in g.mixers
    ensures MixersAt(g, s, 0) == {}
  {
    forall m | m in g.mixers ensures !Shortest(g, s, m, 0) {
      if Reaches(g, s, m, 0) {
        ReachesZero(g, s, m);
      }
    }
  }

  lemma UpToThree(g: Graph, s: Address)
    requires MixersAt(g, s, 0) == {}
    ensures var n1, n2, n3 := |MixersAt(g, s, 1)|, |MixersAt(g, s, 2)|, |MixersAt(g, s, 3)|;
            MixersUpTo(g, s, 3) == n1 + n2 + n3 && WeighedMixers(g, s, 3, 3) == 4 * n1 + 2 * n2 + n3
  {
    assert MixersUpTo(g, s, 0) == 0 && WeighedMixers(g, s, 3, 0) == 0;
    assert Pow2(0) == 1 && Pow2(1) == 2 && Pow2(2) == 4;
    assert MixersUpTo(g, s, 1) == |MixersAt(g, s, 1)|;
    assert MixersUpTo(g, s, 2) == |MixersAt(g, s, 2)| + MixersUpTo(g, s, 1);
    assert WeighedMixers(g, s, 3, 1) == |MixersAt(g, s, 1)| * 4;
    assert WeighedMixers(g, s, 3, 2) == |MixersAt(g, s, 2)| * 2 + WeighedMixers(g, s, 3, 1);
  }

  /** At analyze's depth, for an address that is no mixer itself. */
  lemma ScoreAtDepthThree(g: Graph, s: Address, conns: seq<Entry>)
    requires Exact(g, s, 3, conns) && s !in g.mixers
    ensures var n1, n2, n3 := |MixersAt(g, s, 1)|, |MixersAt(g, s, 2)|, |MixersAt(g, s, 3)|;
            IsMean(Score(conns), n1 + n2 + n3, 8, 4 * n1 + 2 * n2 + n3)
  {
    NoneAtZero(g, s);
    UpToThree(g, s);
    assert Pow2(3) == 8;
    ScoreValue(g, s, 3, conns);
  }

  predicate Flagged(g: Graph, s: Address) {
    s in g.flags && HasMixerBit(g.flags[s])
  }

  /** The number `calculate_risk_score` returns. */
  ghost predicate IsRisk(g: Graph, s: Address, depth: int, risk: real) {
    if Flagged(g, s) then risk == 1.0
    else exists conns :: Exact(g, s, depth, conns) && risk == Score(conns)
  }

  /** The addresses `analyze` is to block at the default threshold. */
  ghost predicate Blocked(g: Graph, s: Address) {
    || Flagged(g, s) || s in g.mixers
    || (&& (exists m :: Reached(g, s, ANALYZE_DEPTH, m))
        && (forall m :: Reached(g, s, ANALYZE_DEPTH, m) ==> Shortest(g, s, m, 1)))
  }

  /** The risk, from the numbers of mixers at each distance alone. */
  ghost predicate RiskFromCounts(g: Graph, s: Address, depth: int, risk: real) {
    if Flagged(g, s) then risk == 1.0
    else if depth < 0 then risk == 0.0
    else IsMean(risk, MixersUpTo(g, s, depth), Pow2(depth), WeighedMixers(g, s, depth, depth))
  }

  lemma RiskValue(g: Graph, s: Address, depth: int, risk: real)
    requires IsRisk(g, s, depth, risk)
    ensures RiskFromCounts(g, s, depth, risk)
  {
    if !Flagged(g, s) {
      var conns: seq<Entry> :| Exact(g, s, depth, conns) && risk == Score(conns);
      if depth >= 0 {
        ScoreValue(g, s, depth, conns);
      } else if conns != [] {
        HopsWithin(g, s, depth, conns, conns[0]);
      }
    }
  }

  lemma BlockedExactly(g: Graph, s: Address, risk: real)
    requires IsRisk(g, s, ANALYZE_DEPTH, risk)
    ensures risk >= DEFAULT_THRESHOLD || s in g.mixers <==> Blocked(g, s)
  {
    if !Flagged(g, s) && s !in g.mixers {
      var conns :| Exact(g, s, ANALYZE_DEPTH, conns) && risk == Score(conns);
      DecisionExact(g, s, conns);
    }
  }
}
