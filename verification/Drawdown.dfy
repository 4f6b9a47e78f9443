/** The backtest kernels of python/backtest/vectorbt_engine.py and python/backtest/walk_forward.py,
    over the reals: strategy returns, equity curves, and two independent maximum drawdowns. */
module Drawdown {
  import opened Common

  const WALK_FORWARD_COST: real := 0.0005

  function Max(a: real, b: real): real { if b > a then b else a }

  // ---------------------------------------------------------------------------
  // Curves
  // ---------------------------------------------------------------------------

  /** The return of period `i`: the position taken at the end of period `i - 1`, less the cost. */
  function StrategyReturn(asset: seq<real>, signals: seq<real>, cost: real, i: nat): real
    requires i < |asset| <= |signals| + 1
  {
    if i == 0 || signals[i - 1] == 0.0 then 0.0 else signals[i - 1] * asset[i] - cost
  }

  function StrategyReturns(asset: seq<real>, signals: seq<real>, cost: real): seq<real>
    requires |asset| <= |signals| + 1
  {
    seq(|asset|, i requires 0 <= i < |asset| => StrategyReturn(asset, signals, cost, i))
  }

  /** `compute_equity_curve`: element 0 is the capital whatever the first return is. */
  function Equity(r: seq<real>, capital: real, i: nat): real
    requires i < |r|
  {
    if i == 0 then capital else Equity(r, capital, i - 1) * (1.0 + r[i])
  }

  /** `cum_equity` of `compute_max_drawdown`: one element longer, starting from 1. */
  function Growth(r: seq<real>, i: nat): real
    requires i <= |r|
  {
    if i == 0 then 1.0 else Growth(r, i - 1) * (1.0 + r[i - 1])
  }

  function EquityCurve(r: seq<real>, capital: real): seq<real> {
    seq(|r|, i requires 0 <= i < |r| => Equity(r, capital, i))
  }

  function GrowthCurve(r: seq<real>): seq<real> {
    seq(|r| + 1, i requires 0 <= i <= |r| => Growth(r, i))
  }

  // ---------------------------------------------------------------------------
  // Drawdown
  // ---------------------------------------------------------------------------

  function Peak(e: seq<real>, k: nat): real
    requires k < |e|
  {
    if k == 0 then e[0] else Max(Peak(e, k - 1), e[k])
  }

  function Dip(e: seq<real>, k: nat): real
    requires k < |e|
  {
    if Peak(e, k) > 0.0 then (Peak(e, k) - e[k]) / Peak(e, k) else 0.0
  }

  function DeepestDip(e: seq<real>, k: nat): real
    requires k < |e|
  {
    Max(if k == 0 then 0.0 else DeepestDip(e, k - 1), Dip(e, k))
  }

  /** The relative loss from buying at `i` and selling at `j`. */
  function Loss(e: seq<real>, i: nat, j: nat): real
    requires i <= j < |e| && e[i] != 0.0
  {
    (e[i] - e[j]) / e[i]
  }

  ghost predicate Positive(e: seq<real>) {
    forall i :: 0 <= i < |e| ==> e[i] > 0.0
  }

  /** `d` is the largest relative loss over all pairs `i <= j <= k`. */
  ghost predicate WorstLoss(e: seq<real>, k: nat, d: real)
    requires k < |e| && Positive(e)
  {
    && (forall i, j :: 0 <= i <= j <= k ==> Loss(e, i, j) <= d)
    && (exists i, j :: 0 <= i <= j <= k && Loss(e, i, j) == d)
  }

  lemma {:induction false} PeakIsMaximum(e: seq<real>, k: nat)
    requires k < |e|
    ensures forall i :: 0 <= i <= k ==> e[i] <= Peak(e, k)
    ensures exists i :: 0 <= i <= k && e[i] == Peak(e, k)
  {
    if k == 0 {
      assert e[0] == Peak(e, 0);
    } else {
      PeakIsMaximum(e, k - 1);
      var i :| 0 <= i <= k - 1 && e[i] == Peak(e, k - 1);
      assert e[i] == Peak(e, k) || e[k] == Peak(e, k);
    }
  }

  lemma LossFromHigher(hi: real, lo: real, x: real)
    requires 0.0 < lo <= hi && x > 0.0
    ensures (lo - x) / lo <= (hi - x) / hi
  {
    var a, b := x / hi, x / lo;
    assert a * hi == x && b * lo == x;
    assert b > 0.0 by { ScaleOrder(b, 0.0, lo); }
    ScaleOrder(lo, hi, b);
    assert a * hi == lo * b <= hi * b == b * hi;
    ScaleOrder(a, b, hi);
    assert a <= b;
    Quotient(lo - x, lo, 1.0 - b);
    Quotient(hi - x, hi, 1.0 - a);
  }

  /** The highest value up to `j` stands at `p`. */
  ghost predicate HighestUpTo(e: seq<real>, p: int, j: int) {
    0 <= p <= j < |e| && forall i :: 0 <= i <= j ==> e[i] <= e[p]
  }

  function Drop(hi: real, x: real): real
    requires hi > 0.0
  {
    (hi - x) / hi
  }

  /** `d` bounds every relative drop below a positive running maximum ... */
  ghost predicate BoundsDrops(e: seq<real>, k: nat, d: real) {
    d >= 0.0 && forall p, j :: HighestUpTo(e, p, j) && j <= k && e[p] > 0.0 ==> Drop(e[p], e[j]) <= d
  }

  /** ... and is one of them, or 0. */
  ghost predicate IsDrop(e: seq<real>, k: nat, d: real) {
    d == 0.0 || exists p, j :: HighestUpTo(e, p, j) && j <= k && e[p] > 0.0 && Drop(e[p], e[j]) == d
  }

  lemma DipIsDrop(e: seq<real>, k: nat) returns (p: nat)
    requires k < |e|
    ensures HighestUpTo(e, p, k) && e[p] == Peak(e, k)
    ensures Dip(e, k) == if e[p] > 0.0 then Drop(e[p], e[k]) else 0.0
    ensures forall q :: HighestUpTo(e, q, k) ==> e[q] == e[p]
  {
    PeakIsMaximum(e, k);
    p :| 0 <= p <= k && e[p] == Peak(e, k);
  }

  lemma DropIsDip(e: seq<real>, q: int, k: nat)
    requires k < |e| && HighestUpTo(e, q, k) && e[q] > 0.0
    ensures Drop(e[q], e[k]) == Dip(e, k)
  {
    var p := DipIsDrop(e, k);
    assert e[q] == e[p];
  }

  lemma DeepestDipStep(e: seq<real>, k: nat)
    requires k < |e|
    ensures Dip(e, k) <= DeepestDip(e, k) && DeepestDip(e, k) >= 0.0
    ensures k > 0 ==> DeepestDip(e, k - 1) <= DeepestDip(e, k)
  {
    if k > 0 {
      DeepestDipStep(e, k - 1);
    }
  }

  lemma {:induction false} DropBelow(e: seq<real>, q: int, j: int, k: nat)
    requires j <= k < |e| && HighestUpTo(e, q, j) && e[q] > 0.0
    ensures Drop(e[q], e[j]) <= DeepestDip(e, k)
    decreases k
  {
    DeepestDipStep(e, k);
    if j == k {
      DropIsDip(e, q, k);
    } else {
      DropBelow(e, q, j, k - 1);
    }
  }

  lemma DeepestDipBounds(e: seq<real>, k: nat)
    requires k < |e|
    ensures BoundsDrops(e, k, DeepestDip(e, k))
  {
    DeepestDipStep(e, k);
    forall q, j | HighestUpTo(e, q, j) && j <= k && e[q] > 0.0 ensures Drop(e[q], e[j]) <= DeepestDip(e, k) {
      DropBelow(e, q, j, k);
    }
  }

  lemma IsDropLonger(e: seq<real>, k: nat, d: real)
    requires k > 0 && IsDrop(e, k - 1, d)
    ensures IsDrop(e, k, d)
  {
    if d != 0.0 {
      var q, j :| HighestUpTo(e, q, j) && j <= k - 1 && e[q] > 0.0 && Drop(e[q], e[j]) == d;
      assert HighestUpTo(e, q, j) && j <= k;
    }
  }

  lemma DipIsOne(e: seq<real>, k: nat)
    requires k < |e|
    ensures IsDrop(e, k, Dip(e, k))
  {
    var p := DipIsDrop(e, k);
    if e[p] > 0.0 {
      assert HighestUpTo(e, p, k) && Drop(e[p], e[k]) == Dip(e, k);
    }
  }

  lemma {:induction false} DeepestDipAttained(e: seq<real>, k: nat)
    requires k < |e|
    ensures IsDrop(e, k, DeepestDip(e, k))
  {
    DipIsOne(e, k);
    if k > 0 {
      DeepestDipAttained(e, k - 1);
      IsDropLonger(e, k, DeepestDip(e, k - 1));
      assert DeepestDip(e, k) == DeepestDip(e, k - 1) || DeepestDip(e, k) == Dip(e, k);
    } else {
      assert DeepestDip(e, k) == 0.0 || DeepestDip(e, k) == Dip(e, k);
    }
  }

  /** While equity stays positive, the single pass computes the worst loss over all pairs. */
  lemma {:induction false} DeepestDipIsWorstLoss(e: seq<real>, k: nat)
    requires k < |e| && Positive(e)
    ensures WorstLoss(e, k, DeepestDip(e, k))
  {
    PeakIsMaximum(e, k);
    var p :| 0 <= p <= k && e[p] == Peak(e, k);
    assert Dip(e, k) == Loss(e, p, k);
    forall i | 0 <= i <= k ensures Loss(e, i, k) <= Dip(e, k) {
      LossFromHigher(Peak(e, k), e[i], e[k]);
    }
    if k == 0 {
      assert Loss(e, 0, 0) == 0.0;
    } else {
      DeepestDipIsWorstLoss(e, k - 1);
      var d := DeepestDip(e, k - 1);
      var i, j :| 0 <= i <= j <= k - 1 && Loss(e, i, j) == d;
      assert d <= DeepestDip(e, k);
      if DeepestDip(e, k) != d {
        assert Loss(e, p, k) == DeepestDip(e, k);
      }
    }
  }

  // ---------------------------------------------------------------------------
  // The two implementations agree
  // ---------------------------------------------------------------------------

  lemma {:induction false} GrowthIsScaledEquity(r: seq<real>, capital: real, i: nat)
    requires i < |r| && capital > 0.0
    ensures Growth(r, i + 1) * capital == (1.0 + r[0]) * Equity(r, capital, i)
  {
    if i == 0 {
      assert Growth(r, 0) == 1.0;
      assert Growth(r, 1) == 1.0 + r[0];
    } else {
      GrowthIsScaledEquity(r, capital, i - 1);
      var g, q, f := Growth(r, i), Equity(r, capital, i - 1), 1.0 + r[i];
      assert Growth(r, i + 1) == g * f && Equity(r, capital, i) == q * f;
      calc {
        Growth(r, i + 1) * capital;
        g * capital * f;
        (1.0 + r[0]) * q * f;
        (1.0 + r[0]) * Equity(r, capital, i);
      }
    }
  }

  lemma DipScales(p: real, x: real, s: real)
    requires p > 0.0 && s > 0.0
    ensures s * p > 0.0 && (s * p - s * x) / (s * p) == (p - x) / p
  {
    var q := (p - x) / p;
    assert q * p == p - x;
    assert s * p > 0.0;
    assert q * (s * p) == s * (q * p) == s * p - s * x;
    Quotient(s * p - s * x, s * p, q);
  }

  predicate ScaledAt(g: seq<real>, e: seq<real>, s: real, i: int)
    requires |g| == |e| + 1 && 0 <= i < |e|
  {
    g[i + 1] == s * e[i]
  }

  /** `g` is `e` scaled by `s`, with one element in front that is no higher than the next. */
  ghost predicate ScaledTail(g: seq<real>, e: seq<real>, s: real) {
    && |g| == |e| + 1 && |e| >= 1 && s > 0.0 && e[0] > 0.0
    && (forall i :: 0 <= i < |e| ==> ScaledAt(g, e, s, i))
    && 0.0 < g[0] <= g[1]
  }

  ghost predicate SameOrder(g: seq<real>, e: seq<real>) {
    |g| == |e| + 1 && forall i, j :: 0 <= i < |e| && 0 <= j < |e| ==> (e[i] <= e[j] <==> g[i + 1] <= g[j + 1])
  }

  lemma ScaledSameOrder(g: seq<real>, e: seq<real>, s: real)
    requires ScaledTail(g, e, s)
    ensures SameOrder(g, e)
  {
    forall i, j | 0 <= i < |e| && 0 <= j < |e| ensures e[i] <= e[j] <==> g[i + 1] <= g[j + 1] {
      assert ScaledAt(g, e, s, i) && ScaledAt(g, e, s, j);
      ScaleOrder(e[i], e[j], s);
    }
  }

  /** Order-isomorphic curves peak at the same place. */
  lemma PeakIndex(g: seq<real>, e: seq<real>, k: nat) returns (i: nat)
    requires SameOrder(g, e) && k < |e| && g[0] <= g[1]
    ensures i <= k && e[i] == Peak(e, k) && g[i + 1] == Peak(g, k + 1)
  {
    PeakIsMaximum(e, k);
    PeakIsMaximum(g, k + 1);
    i :| 0 <= i <= k && e[i] == Peak(e, k);
    assert e[0] <= e[i];
    var j :| 0 <= j <= k + 1 && g[j] == Peak(g, k + 1);
    if j > 0 {
      assert e[j - 1] <= e[i];
    }
  }

  lemma DipsAgree(g: seq<real>, e: seq<real>, s: real, k: nat)
    requires ScaledTail(g, e, s) && k < |e|
    ensures Dip(g, k + 1) == Dip(e, k)
  {
    ScaledSameOrder(g, e, s);
    var i := PeakIndex(g, e, k);
    PeakIsMaximum(e, k);
    assert e[0] <= Peak(e, k);
    assert ScaledAt(g, e, s, i) && ScaledAt(g, e, s, k);
    DipScales(e[i], e[k], s);
  }

  lemma {:induction false} DeepestDipScales(g: seq<real>, e: seq<real>, s: real, k: nat)
    requires ScaledTail(g, e, s) && k < |e|
    ensures DeepestDip(g, k + 1) == DeepestDip(e, k)
  {
    DipsAgree(g, e, s, k);
    if k == 0 {
      assert Dip(g, 0) == 0.0 && Dip(e, 0) == 0.0;
      assert DeepestDip(g, 0) == 0.0;
    } else {
      DeepestDipScales(g, e, s, k - 1);
    }
  }

  function VectorDrawdown(r: seq<real>, capital: real): real
    requires |r| >= 1
  {
    DeepestDip(EquityCurve(r, capital), |r| - 1)
  }

  function WalkForwardDrawdown(r: seq<real>): real {
    if |r| == 0 then 0.0 else DeepestDip(GrowthCurve(r), |r|)
  }

  /** The two drawdowns agree on every series whose first return is not a loss. */
  lemma DrawdownsAgree(r: seq<real>, capital: real)
    requires |r| >= 1 && capital > 0.0 && r[0] >= 0.0
    ensures VectorDrawdown(r, capital) == WalkForwardDrawdown(r)
  {
    var e, g, s := EquityCurve(r, capital), GrowthCurve(r), (1.0 + r[0]) / capital;
    assert s * capital == 1.0 + r[0];
    forall i | 0 <= i < |e| ensures ScaledAt(g, e, s, i) {
      GrowthIsScaledEquity(r, capital, i);
      assert g[i + 1] * capital == (s * e[i]) * capital;
      ScaleOrder(g[i + 1], s * e[i], capital);
    }
    assert g[0] == Growth(r, 0) == 1.0 && g[1] == Growth(r, 1) == Growth(r, 0) * (1.0 + r[0]);
    assert s > 0.0 by {
      ScaleOrder(s, 0.0, capital);
    }
    DeepestDipScales(g, e, s, |r| - 1);
  }

  /** That condition on the first return is exact: any loss there separates them. */
  lemma AgreementExact(first: real, capital: real)
    requires capital > 0.0
    ensures (forall r: seq<real> :: |r| >= 1 && r[0] == first ==>
               VectorDrawdown(r, capital) == WalkForwardDrawdown(r)) <==> first >= 0.0
  {
    if first >= 0.0 {
      forall r: seq<real> | |r| >= 1 && r[0] == first ensures VectorDrawdown(r, capital) == WalkForwardDrawdown(r) {
        DrawdownsAgree(r, capital);
      }
    } else {
      var r := [first];
      var e, g := EquityCurve(r, capital), GrowthCurve(r);
      assert e[0] == capital && Dip(e, 0) == 0.0;
      assert g[0] == 1.0 && g[1] == Growth(r, 0) * (1.0 + r[0]) == 1.0 + first;
      assert Peak(g, 0) == 1.0 && Peak(g, 1) == 1.0;
      assert Dip(g, 1) == -first;
      assert VectorDrawdown(r, capital) == 0.0 && WalkForwardDrawdown(r) >= -first;
      assert r[0] == first && |r| >= 1;
    }
  }

  /** Both signal kernels start from 0, so on whatever they produce the two drawdowns agree. */
  lemma StrategyDrawdownsAgree(asset: seq<real>, signals: seq<real>, cost: real, capital: real)
    requires 1 <= |asset| <= |signals| + 1 && capital > 0.0
    ensures var r := StrategyReturns(asset, signals, cost);
            VectorDrawdown(r, capital) == WalkForwardDrawdown(r)
  {
    DrawdownsAgree(StrategyReturns(asset, signals, cost), capital);
  }

  // ---------------------------------------------------------------------------
  // Where the returns come from
  // ---------------------------------------------------------------------------

  function SumTo(r: seq<real>, k: nat): real
    requires k <= |r|
  {
    if k == 0 then 0.0 else SumTo(r, k - 1) + r[k - 1]
  }

  /** What the signals of the periods before the `k`-th earn on the returns that follow them. */
  function Exposure(asset: seq<real>, signals: seq<real>, k: nat): real
    requires k <= |asset| <= |signals| + 1
  {
    if k <= 1 then 0.0 else Exposure(asset, signals, k - 1) + signals[k - 2] * asset[k - 1]
  }

  /** The number of those periods with a position. */
  function Positions(signals: seq<real>, k: nat): nat
    requires k <= |signals| + 1
  {
    if k <= 1 then 0 else Positions(signals, k - 1) + if signals[k - 2] != 0.0 then 1 else 0
  }

  /** Up to any period the strategy has returned what the previous signals earned, less one cost for every
      period with a position. */
  lemma {:induction false} ReturnsLessCosts(asset: seq<real>, signals: seq<real>, cost: real, k: nat)
    requires k <= |asset| <= |signals| + 1
    ensures SumTo(StrategyReturns(asset, signals, cost), k)
         == Exposure(asset, signals, k) - Positions(signals, k) as real * cost
  {
    if k > 0 {
      ReturnsLessCosts(asset, signals, cost, k - 1);
      if k > 1 {
        OneMoreCost(Positions(signals, k - 1), cost);
        if signals[k - 2] == 0.0 {
          assert signals[k - 2] * asset[k - 1] == 0.0;
        }
      }
    }
  }

  lemma OneMoreCost(n: nat, cost: real)
    ensures (n + 1) as real * cost == n as real * cost + cost
  {
  }

  // ---------------------------------------------------------------------------
  // The kernels
  // ---------------------------------------------------------------------------

  /** `apply_signal_strategy` */
  method ApplySignalStrategy(asset: array<real>, signals: array<real>, cost: real) returns (out: array<real>)
    requires asset.Length <= signals.Length + 1
    ensures fresh(out) && out[..] == StrategyReturns(asset[..], signals[..], cost)
  {
    var n := asset.Length;
    out := new real[n](_ => 0.0);
    var i := 1;
    while i < n
      invariant i >= 1
      invariant forall k :: 0 <= k < n && k < i ==> out[k] == StrategyReturn(asset[..], signals[..], cost, k)
    {
      var position := signals[i - 1];
      if position != 0.0 {
        out[i] := position * asset[i] - cost;
      } else {
        out[i] := 0.0;
      }
      i := i + 1;
    }
  }

  /** `_apply_signals`: the actual signals are not looked at. */
  method ApplySignals(asset: array<real>, actual: array<real>, predicted: array<real>) returns (out: array<real>)
    requires asset.Length <= predicted.Length + 1
    ensures fresh(out) && out[..] == StrategyReturns(asset[..], predicted[..], WALK_FORWARD_COST)
  {
    var n := asset.Length;
    out := new real[n](_ => 0.0);
    var i := 1;
    while i < n
      invariant i >= 1
      invariant forall k :: 0 <= k < n && k < i ==>
                out[k] == StrategyReturn(asset[..], predicted[..], WALK_FORWARD_COST, k)
      invariant forall k :: i <= k < n ==> out[k] == 0.0
    {
      var signal := predicted[i - 1];
      if signal != 0.0 {
        out[i] := signal * asset[i] - WALK_FORWARD_COST;
      }
      i := i + 1;
    }
  }

  lemma EquityStep(r: seq<real>, capital: real, i: nat)
    requires 1 <= i < |r|
    ensures EquityCurve(r, capital)[i] == EquityCurve(r, capital)[i - 1] * (1.0 + r[i])
  {
  }

  lemma GrowthStep(r: seq<real>, i: nat)
    requires i < |r|
    ensures GrowthCurve(r)[i + 1] == GrowthCurve(r)[i] * (1.0 + r[i])
  {
  }

  method ComputeEquityCurve(r: array<real>, capital: real) returns (equity: array<real>)
    requires r.Length >= 1
    ensures fresh(equity) && equity[..] == EquityCurve(r[..], capital)
  {
    var n := r.Length;
    equity := new real[n](_ => 0.0);
    equity[0] := capital;
    ghost var curve := EquityCurve(r[..], capital);
    for i := 1 to n
      invariant forall k :: 0 <= k < i ==> equity[k] == curve[k]
    {
      EquityStep(r[..], capital, i);
      assert equity[i - 1] == curve[i - 1] && r[..][i] == r[i];
      equity[i] := equity[i - 1] * (1.0 + r[i]);
    }
  }

  method ComputeDrawdown(equity: array<real>) returns (drawdown: array<real>, maxDrawdown: real)
    requires equity.Length >= 1
    ensures fresh(drawdown) && drawdown.Length == equity.Length
    ensures forall k :: 0 <= k < equity.Length ==> drawdown[k] == Dip(equity[..], k)
    ensures maxDrawdown == DeepestDip(equity[..], equity.Length - 1)
    ensures BoundsDrops(equity[..], equity.Length - 1, maxDrawdown)
    ensures IsDrop(equity[..], equity.Length - 1, maxDrawdown)
    ensures Positive(equity[..]) ==> WorstLoss(equity[..], equity.Length - 1, maxDrawdown)
  {
    var n := equity.Length;
    ghost var e := equity[..];
    drawdown := new real[n](_ => 0.0);
    var runningMax := equity[0];
    maxDrawdown := 0.0;
    for i := 0 to n
      invariant equity[..] == e
      invariant runningMax == if i == 0 then e[0] else Peak(e, i - 1)
      invariant maxDrawdown == if i == 0 then 0.0 else DeepestDip(e, i - 1)
      invariant maxDrawdown >= 0.0
      invariant forall k :: 0 <= k < i ==> drawdown[k] == Dip(e, k)
      invariant forall k :: i <= k < n ==> drawdown[k] == 0.0
    {
      if equity[i] > runningMax {
        runningMax := equity[i];
      }
      if runningMax > 0.0 {
        var dd := (runningMax - equity[i]) / runningMax;
        drawdown[i] := dd;
        if dd > maxDrawdown {
          maxDrawdown := dd;
        }
      }
    }
    DeepestDipBounds(e, n - 1);
    DeepestDipAttained(e, n - 1);
    if Positive(e) {
      DeepestDipIsWorstLoss(e, n - 1);
    }
  }

  method ComputeMaxDrawdown(r: array<real>) returns (maxDrawdown: real)
    ensures maxDrawdown == WalkForwardDrawdown(r[..])
  {
    if r.Length == 0 {
      return 0.0;
    }
    var cum := CumulativeEquity(r);
    maxDrawdown := DeepestDrop(cum);
  }

  /** The first loop of `compute_max_drawdown`. */
  method CumulativeEquity(r: array<real>) returns (cum: array<real>)
    ensures fresh(cum) && cum[..] == GrowthCurve(r[..])
  {
    var n := r.Length;
    cum := new real[n + 1](_ => 0.0);
    cum[0] := 1.0;
    ghost var curve := GrowthCurve(r[..]);
    for i := 0 to n
      invariant forall k :: 0 <= k <= i ==> cum[k] == curve[k]
    {
      GrowthStep(r[..], i);
      assert cum[i] == curve[i] && r[..][i] == r[i];
      cum[i + 1] := cum[i] * (1.0 + r[i]);
    }
  }

  /** The second loop of `compute_max_drawdown`. */
  method DeepestDrop(cum: array<real>) returns (maxDrawdown: real)
    requires cum.Length >= 1
    ensures maxDrawdown == DeepestDip(cum[..], cum.Length - 1)
  {
    ghost var g := cum[..];
    var runningMax := cum[0];
    maxDrawdown := 0.0;
    for i := 0 to cum.Length
      invariant runningMax == if i == 0 then g[0] else Peak(g, i - 1)
      invariant maxDrawdown == if i == 0 then 0.0 else DeepestDip(g, i - 1)
      invariant maxDrawdown >= 0.0
    {
      if cum[i] > runningMax {
        runningMax := cum[i];
      }
      if runningMax > 0.0 {
        var dd := (runningMax - cum[i]) / runningMax;
        if dd > maxDrawdown {
          maxDrawdown := dd;
        }
      }
    }
  }

  // ---------------------------------------------------------------------------
  // Walk-forward splits
  // ---------------------------------------------------------------------------

  datatype Split = Split(trainStart: int, trainEnd: int, testStart: int, testEnd: int)

  function SplitAt(samples: int, initial: int, test: int, step: int, k: int): Split {
    var start := initial + k * step;
    Split(0, start, start, if start + test < samples then start + test else samples)
  }

  /** The splits up to and including the first whose test window reaches the last sample, or all that fit.
      Training always ends where testing starts, and no window runs past the samples. */
  ghost predicate Anchored(samples: int, initial: int, test: int, step: int, splits: seq<Split>) {
    && step > 0 && 1 <= |splits| <= (samples - initial) / step
    && (forall k :: 0 <= k < |splits| ==>
          && splits[k] == SplitAt(samples, initial, test, step, k)
          && splits[k].trainStart == 0 && splits[k].trainEnd == initial + k * step
          && 0 <= splits[k].trainEnd == splits[k].testStart <= splits[k].testEnd <= samples)
    && (forall k :: 0 <= k < |splits| - 1 ==> splits[k].testEnd < samples)
    && (|splits| < (samples - initial) / step ==> splits[|splits| - 1].testEnd == samples)
  }

  /** `anchored_split` */
  method AnchoredSplit(samples: int, initial: int, test: int, step: int) returns (splits: seq<Split>)
    requires step > 0 && test >= 0 && initial >= 0 && samples - initial >= step
    ensures Anchored(samples, initial, test, step, splits)
    ensures forall t :: initial <= t < samples ==> (Tested(splits, t) <==> Reached(samples, initial, test, step, t))
  {
    var maxSplits := (samples - initial) / step;
    splits := [];
    var i := 0;
    while i < maxSplits
      invariant 0 <= i <= maxSplits && |splits| == i
      invariant forall k :: 0 <= k < i ==>
                  && splits[k] == SplitAt(samples, initial, test, step, k)
                  && 0 <= splits[k].trainEnd == splits[k].testStart <= splits[k].testEnd < samples
    {
      var trainEnd := initial + i * step;
      StartInRange(samples, initial, step, i);
      var testEnd := if trainEnd + test < samples then trainEnd + test else samples;
      splits := splits + [Split(0, trainEnd, trainEnd, testEnd)];
      if testEnd >= samples {
        break;
      }
      i := i + 1;
    }
    forall t | initial <= t < samples ensures Tested(splits, t) <==> Reached(samples, initial, test, step, t) {
      TestedExactly(samples, initial, test, step, splits, t);
    }
  }

  lemma StartInRange(samples: int, initial: int, step: int, i: int)
    requires step > 0 && 0 <= i < (samples - initial) / step
    ensures 0 <= i * step && initial + i * step <= samples
  {
    var q := (samples - initial) / step;
    assert q * step <= samples - initial;
    assert (q - i) * step >= 0;
    assert q * step == i * step + (q - i) * step;
  }

  /** Consecutive test windows leave samples untested between them exactly when the step is longer
      than the test window. */
  lemma GapExactly(samples: int, initial: int, test: int, step: int, splits: seq<Split>, k: nat)
    requires Anchored(samples, initial, test, step, splits) && k + 1 < |splits|
    ensures splits[k].testEnd < splits[k + 1].testStart <==> step > test
  {
    assert (k + 1) * step == k * step + step;
  }

  /** The sample lies in some test window. */
  ghost predicate Tested(splits: seq<Split>, t: int) {
    exists k :: 0 <= k < |splits| && splits[k].testStart <= t < splits[k].testEnd
  }

  /** Counting whole steps from the initial training set: within them a sample is tested in the window of
      its own step, and in the rest after them only if the last window extends that far. */
  predicate Reached(samples: int, initial: int, test: int, step: int, t: int)
    requires step > 0
  {
    var offset := (t - initial) % step;
    if (t - initial) / step < (samples - initial) / step then offset < test else offset + step < test
  }

  /** A later window starts a step later, at least. */
  lemma WindowsAscend(initial: int, step: int, k: int, l: int)
    requires step > 0 && k <= l
    ensures initial + k * step <= initial + l * step
    ensures k < l ==> initial + k * step + step <= initial + l * step
  {
    assert (l - k) * step == l * step - k * step;
    if k < l {
      MultipleAtLeast(l - k, step);
    }
  }

  /** The end of the samples cuts off nothing of a window but what lies past it. */
  lemma InWindow(samples: int, initial: int, test: int, step: int, k: int, t: int)
    requires t < samples
    ensures var s := SplitAt(samples, initial, test, step, k);
            s.testStart <= t < s.testEnd <==> initial + k * step <= t < initial + k * step + test
  {
  }

  /** The steps before a sample, and where it lies in its own. */
  lemma StepOf(initial: int, step: int, t: int)
    requires step > 0 && initial <= t
    ensures var j := (t - initial) / step;
            j >= 0 && t == initial + j * step + (t - initial) % step && 0 <= (t - initial) % step < step
  {
  }

  /** Exactly which samples from the end of the initial training set on are tested. */
  lemma TestedExactly(samples: int, initial: int, test: int, step: int, splits: seq<Split>, t: int)
    requires Anchored(samples, initial, test, step, splits) && initial <= t < samples
    ensures Tested(splits, t) <==> Reached(samples, initial, test, step, t)
  {
    if Tested(splits, t) {
      TestedIsReached(samples, initial, test, step, splits, t);
    }
    if Reached(samples, initial, test, step, t) {
      ReachedIsTested(samples, initial, test, step, splits, t);
    }
  }

  lemma TestedIsReached(samples: int, initial: int, test: int, step: int, splits: seq<Split>, t: int)
    requires Anchored(samples, initial, test, step, splits) && initial <= t < samples && Tested(splits, t)
    ensures Reached(samples, initial, test, step, t)
  {
    var k :| 0 <= k < |splits| && splits[k].testStart <= t < splits[k].testEnd;
    var j := (t - initial) / step;
    StepOf(initial, step, t);
    InWindow(samples, initial, test, step, k, t);
    if k > j {
      WindowsAscend(initial, step, j, k);
    } else {
      WindowsAscend(initial, step, k, j);
    }
  }

  lemma ReachedIsTested(samples: int, initial: int, test: int, step: int, splits: seq<Split>, t: int)
    requires Anchored(samples, initial, test, step, splits) && initial <= t < samples
    requires Reached(samples, initial, test, step, t)
    ensures Tested(splits, t)
  {
    var j, q, n := (t - initial) / step, (samples - initial) / step, |splits|;
    StepOf(initial, step, t);
    StepOf(initial, step, samples);
    var k := if j < n then j else n - 1;
    InWindow(samples, initial, test, step, k, t);
    WindowsAscend(initial, step, k, j);
    assert splits[k].testStart <= t;
    if j >= n && n == q {
      WindowsAscend(initial, step, q, j);
      assert t < initial + j * step + step;
    }
    assert splits[k].testStart <= t < splits[k].testEnd;
  }

  /** Every sample from the end of the initial training set on is tested if and only if the test window is as
      long as a step and the rest after the last whole step. */
  lemma AllTestedExactly(samples: int, initial: int, test: int, step: int, splits: seq<Split>)
    requires Anchored(samples, initial, test, step, splits)
    ensures (forall t :: initial <= t < samples ==> Tested(splits, t)) <==> test >= step + (samples - initial) % step
  {
    if test >= step + (samples - initial) % step {
      forall t | initial <= t < samples ensures Tested(splits, t) {
        LongWindowsReach(samples, initial, test, step, t);
        TestedExactly(samples, initial, test, step, splits, t);
      }
    } else {
      LastNotReached(samples, initial, test, step);
      TestedExactly(samples, initial, test, step, splits, samples - 1);
    }
  }

  lemma LongWindowsReach(samples: int, initial: int, test: int, step: int, t: int)
    requires step > 0 && initial <= t < samples && test >= step + (samples - initial) % step
    ensures Reached(samples, initial, test, step, t)
  {
    var j, q := (t - initial) / step, (samples - initial) / step;
    StepOf(initial, step, t);
    StepOf(initial, step, samples);
    if j >= q {
      WindowsAscend(initial, step, q, j);
    }
  }

  lemma LastNotReached(samples: int, initial: int, test: int, step: int)
    requires step > 0 && initial < samples && test < step + (samples - initial) % step
    ensures !Reached(samples, initial, test, step, samples - 1)
  {
    var n := samples - initial;
    var q, rest := n / step, n % step;
    assert n == q * step + rest;
    if rest > 0 {
      DivisionIs(n - 1, step, q, rest - 1);
    } else {
      assert n - 1 == (q - 1) * step + (step - 1);
      DivisionIs(n - 1, step, q - 1, step - 1);
    }
    assert samples - 1 - initial == n - 1;
  }
}
