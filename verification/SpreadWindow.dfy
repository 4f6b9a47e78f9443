/** The rolling window of python/arb/spread_monitor.py: running sums against the values a bounded
    deque still holds. */
module SpreadWindow {
  import opened Common

  const DEQUE_BOUND: nat := 1000
  const VOLATILITY_LOOKBACK: nat := 200     // the max_size that register_pair passes

  datatype Window = Window(values: seq<real>, sumX: real, sumX2: real)

  const EMPTY := Window([], 0.0, 0.0)

  function Sq(x: real): real { x * x }

  /** `deque.append` with a bound. */
  function Append(values: seq<real>, v: real, bound: nat): seq<real>
    requires bound >= 1
  {
    var longer := values + [v];
    if |longer| > bound then longer[|longer| - bound..] else longer
  }

  function Add(w: Window, v: real, maxSize: nat, bound: nat): Window
    requires maxSize >= 1 && bound >= 1
  {
    var full := |w.values| == maxSize;
    var oldX := if full then w.values[0] else 0.0;
    Window(Append(w.values, v, bound), w.sumX - oldX + v, w.sumX2 - Sq(oldX) + Sq(v))
  }

  function AddAll(vs: seq<real>, maxSize: nat, bound: nat): Window
    requires maxSize >= 1 && bound >= 1
  {
    if vs == [] then EMPTY else Add(AddAll(vs[..|vs| - 1], maxSize, bound), vs[|vs| - 1], maxSize, bound)
  }

  // ---------------------------------------------------------------------------
  // Sums
  // ---------------------------------------------------------------------------

  function Sum(vs: seq<real>): real {
    if vs == [] then 0.0 else Sum(vs[..|vs| - 1]) + vs[|vs| - 1]
  }

  function Squares(vs: seq<real>): (r: seq<real>)
    ensures |r| == |vs|
  {
    seq(|vs|, i requires 0 <= i < |vs| => Sq(vs[i]))
  }

  lemma {:induction false} SumDropFirst(vs: seq<real>)
    requires vs != []
    ensures Sum(vs) == vs[0] + Sum(vs[1..])
  {
    if |vs| > 1 {
      SumDropFirst(vs[..|vs| - 1]);
      assert vs[..|vs| - 1][1..] == vs[1..][..|vs| - 2];
    }
  }

  lemma SquaresParts(vs: seq<real>)
    requires vs != []
    ensures Squares(vs)[..|vs| - 1] == Squares(vs[..|vs| - 1])
    ensures Squares(vs)[1..] == Squares(vs[1..])
  {
  }

  // ---------------------------------------------------------------------------
  // What the window and the sums hold
  // ---------------------------------------------------------------------------

  function Tail(vs: seq<real>, n: nat): seq<real> {
    if |vs| <= n then vs else vs[|vs| - n..]
  }

  lemma TailStep(init: seq<real>, x: real, bound: nat)
    requires bound >= 1
    ensures Append(Tail(init, bound), x, bound) == Tail(init + [x], bound)
  {
  }

  /** The deque holds the last `bound` values, whatever `maxSize` is. */
  lemma {:induction false} WindowHoldsTail(vs: seq<real>, maxSize: nat, bound: nat)
    requires maxSize >= 1 && bound >= 1
    ensures AddAll(vs, maxSize, bound).values == Tail(vs, bound)
  {
    if vs != [] {
      var init, x := vs[..|vs| - 1], vs[|vs| - 1];
      assert vs == init + [x];
      WindowHoldsTail(init, maxSize, bound);
      TailStep(init, x, bound);
    }
  }

  /** The values the running sums stand for. */
  function Counted(vs: seq<real>, maxSize: nat, bound: nat): seq<real> {
    if maxSize == bound then Tail(vs, bound)
    else if maxSize < bound && |vs| > maxSize then vs[1..]
    else vs
  }

  /** Whether the next add finds the deque at `maxSize`. */
  predicate Drops(init: seq<real>, maxSize: nat, bound: nat) {
    |Tail(init, bound)| == maxSize
  }

  lemma CountedStep(init: seq<real>, x: real, maxSize: nat, bound: nat)
    requires maxSize >= 1 && bound >= 1
    ensures var c := Counted(init, maxSize, bound);
            && (Drops(init, maxSize, bound) ==> c != [] && c[0] == Tail(init, bound)[0])
            && Counted(init + [x], maxSize, bound) == (if Drops(init, maxSize, bound) then c[1..] else c) + [x]
  {
    var vs := init + [x];
    if maxSize == bound {
      if |init| >= bound {
        assert Tail(vs, bound) == Tail(init, bound)[1..] + [x];
      }
    } else if maxSize < bound {
      if |init| == maxSize {
        assert vs[1..] == init[1..] + [x];
      } else if |init| > maxSize {
        assert vs[1..] == init[1..] + [x];
      }
    }
  }

  lemma SumShift(c: seq<real>, drop: bool, x: real)
    requires drop ==> c != []
    ensures var o := if drop then c[0] else 0.0;
            var c' := (if drop then c[1..] else c) + [x];
            Sum(c') == Sum(c) - o + x
  {
    var base := if drop then c[1..] else c;
    if drop {
      SumDropFirst(c);
    }
    assert (base + [x])[..|base|] == base;
  }

  lemma SquareShift(c: seq<real>, drop: bool, x: real)
    requires drop ==> c != []
    ensures var o := if drop then c[0] else 0.0;
            var c' := (if drop then c[1..] else c) + [x];
            Sum(Squares(c')) == Sum(Squares(c)) - Sq(o) + Sq(x)
  {
    var c' := (if drop then c[1..] else c) + [x];
    SumShift(Squares(c), drop, Sq(x));
    assert Squares(c') == (if drop then Squares(c)[1..] else Squares(c)) + [Sq(x)];
  }

  lemma SumsStep(w: Window, init: seq<real>, x: real, maxSize: nat, bound: nat)
    requires maxSize >= 1 && bound >= 1 && w.values == Tail(init, bound)
    requires var c := Counted(init, maxSize, bound); w.sumX == Sum(c) && w.sumX2 == Sum(Squares(c))
    ensures var w' := Add(w, x, maxSize, bound);
            var c' := Counted(init + [x], maxSize, bound);
            w'.sumX == Sum(c') && w'.sumX2 == Sum(Squares(c'))
  {
    CountedStep(init, x, maxSize, bound);
    var c, drop := Counted(init, maxSize, bound), Drops(init, maxSize, bound);
    SumShift(c, drop, x);
    SquareShift(c, drop, x);
  }

  /** With `maxSize` equal to the bound the sums are those of the window.  With a smaller `maxSize` the
      subtraction happens once only, and from then on the sums are those of everything ever added
      except the first value.  With a larger one nothing is ever subtracted. */
  lemma {:induction false} SumsAreCounted(vs: seq<real>, maxSize: nat, bound: nat)
    requires maxSize >= 1 && bound >= 1
    ensures var w := AddAll(vs, maxSize, bound);
            var c := Counted(vs, maxSize, bound);
            w.sumX == Sum(c) && w.sumX2 == Sum(Squares(c))
  {
    if vs == [] {
      assert Squares([]) == [];
    } else {
      var init, x := vs[..|vs| - 1], vs[|vs| - 1];
      assert vs == init + [x];
      SumsAreCounted(init, maxSize, bound);
      WindowHoldsTail(init, maxSize, bound);
      SumsStep(AddAll(init, maxSize, bound), init, x, maxSize, bound);
    }
  }

  /** The values by which the sums and the window differ. */
  function Stray(vs: seq<real>, maxSize: nat, bound: nat): seq<real> {
    if maxSize == bound || (|vs| <= maxSize && |vs| <= bound) then []
    else if maxSize > bound then vs[..|vs| - bound]
    else if |vs| <= bound then vs[..1]
    else vs[1..|vs| - bound]
  }

  lemma {:induction false} SumConcat(a: seq<real>, b: seq<real>)
    ensures Sum(a + b) == Sum(a) + Sum(b)
  {
    if b == [] {
      assert a + b == a;
    } else {
      assert (a + b)[..|a + b| - 1] == a + b[..|b| - 1];
      SumConcat(a, b[..|b| - 1]);
    }
  }

  lemma PositiveProduct(a: real, b: real, product: real)
    requires (a > 0.0 && b > 0.0) || (a < 0.0 && b < 0.0)
    requires product == a * b
    ensures product > 0.0
  {
  }

  lemma SquarePositive(v: real)
    requires v != 0.0
    ensures Sq(v) > 0.0
  {
    PositiveProduct(v, v, Sq(v));
  }

  lemma {:induction false} NoSquares(vs: seq<real>)
    ensures Sum(Squares(vs)) >= 0.0
    ensures Sum(Squares(vs)) == 0.0 <==> forall i :: 0 <= i < |vs| ==> vs[i] == 0.0
  {
    if vs == [] {
      assert Squares(vs) == [];
    } else {
      var init, y := vs[..|vs| - 1], vs[|vs| - 1];
      SquaresParts(vs);
      NoSquares(init);
      assert Sum(Squares(vs)) == Sum(Squares(init)) + Sq(y);
      if y != 0.0 {
        SquarePositive(y);
      } else {
        assert forall i :: 0 <= i < |init| ==> init[i] == vs[i];
      }
    }
  }

  /** Counted and held values differ by the stray ones, on one side or the other. */
  lemma StrayDiffers(vs: seq<real>, maxSize: nat, bound: nat)
    requires maxSize >= 1 && bound >= 1
    ensures var (c, t, s) := (Counted(vs, maxSize, bound), Tail(vs, bound), Stray(vs, maxSize, bound));
            c == s + t || t == s + c
  {
    var c, t, s := Counted(vs, maxSize, bound), Tail(vs, bound), Stray(vs, maxSize, bound);
    if s == [] {
      assert c == t;
      assert s + t == t;
    } else if maxSize < bound && |vs| <= bound {
      assert t == s + c;
    } else {
      assert c == s + t;
    }
  }

  lemma SquaresConcat(a: seq<real>, b: seq<real>)
    ensures Squares(a + b) == Squares(a) + Squares(b)
  {
  }

  /** The running sum is that of the window if and only if the stray values add up to zero, and the
      running sum of squares if and only if they are all zero: for a smaller `maxSize`, the first
      value until the deque overflows, and later everything it has let go except the first value; for a
      larger one everything it has let go. */
  lemma TracksExactly(vs: seq<real>, maxSize: nat, bound: nat)
    requires maxSize >= 1 && bound >= 1
    ensures var w := AddAll(vs, maxSize, bound);
            var s := Stray(vs, maxSize, bound);
            && (w.sumX == Sum(w.values) <==> Sum(s) == 0.0)
            && (w.sumX2 == Sum(Squares(w.values)) <==> forall i :: 0 <= i < |s| ==> s[i] == 0.0)
  {
    WindowHoldsTail(vs, maxSize, bound);
    SumsAreCounted(vs, maxSize, bound);
    StrayDiffers(vs, maxSize, bound);
    var c, t, s := Counted(vs, maxSize, bound), Tail(vs, bound), Stray(vs, maxSize, bound);
    SumConcat(s, t);
    SumConcat(s, c);
    SquaresConcat(s, t);
    SquaresConcat(s, c);
    SumConcat(Squares(s), Squares(t));
    SumConcat(Squares(s), Squares(c));
    NoSquares(s);
  }

  // ---------------------------------------------------------------------------
  // Variance
  // ---------------------------------------------------------------------------

  /** The sum of squared distances from `x`, multiplied out. */
  lemma {:induction false} SquaredDistances(vs: seq<real>, x: real)
    ensures Sum(Squares(vs)) - 2.0 * x * Sum(vs) + |vs| as real * (x * x) >= 0.0
  {
    if vs == [] {
      assert Squares(vs) == [];
    } else {
      var init, y := vs[..|vs| - 1], vs[|vs| - 1];
      SquaredDistances(init, x);
      SquaresParts(vs);
      var q, s, n := Sum(Squares(init)), Sum(init), |init| as real;
      assert Sum(Squares(vs)) == q + y * y && Sum(vs) == s + y && |vs| as real == n + 1.0;
      assert 2.0 * x * (s + y) == 2.0 * x * s + 2.0 * x * y;
      assert (n + 1.0) * (x * x) == n * (x * x) + x * x;
      SquareNonNegative(y - x);
      assert (y - x) * (y - x) == y * y - 2.0 * x * y + x * x;
    }
  }

  lemma SquareNonNegative(a: real)
    ensures a * a >= 0.0
  {
  }

  /** `n` times the sum of squares is at least the square of the sum. */
  lemma {:induction false} CauchySchwarz(vs: seq<real>)
    ensures |vs| as real * Sum(Squares(vs)) >= Sum(vs) * Sum(vs)
    ensures Sum(Squares(vs)) >= 0.0
  {
    if vs == [] {
      assert Squares(vs) == [];
    } else {
      var init, y := vs[..|vs| - 1], vs[|vs| - 1];
      CauchySchwarz(init);
      SquaredDistances(init, y);
      SquaresParts(vs);
      SquareNonNegative(y);
      assert Squares(vs)[|vs| - 1] == y * y;
      assert |vs| as real == |init| as real + 1.0;
      CauchyStep(|init| as real, Sum(init), Sum(Squares(init)), y);
    }
  }

  lemma CauchyStep(n: real, s: real, q: real, y: real)
    requires n * q >= s * s && q - 2.0 * y * s + n * (y * y) >= 0.0
    ensures (n + 1.0) * (q + y * y) >= (s + y) * (s + y)
  {
    assert (n + 1.0) * (q + y * y) == n * q + n * (y * y) + q + y * y;
    assert (s + y) * (s + y) == s * s + 2.0 * y * s + y * y;
  }

  function Spread(n: real, x: real, x2: real): real { n * x2 - x * x }

  /** The sign of the variance is that of this number. */
  function VarianceNumerator(w: Window): real {
    Spread(|w.values| as real, w.sumX, w.sumX2)
  }

  /** `std` before the square root: mean of squares less squared mean, with Bessel's correction. */
  function Variance(w: Window): real
    requires |w.values| >= 2
  {
    VarianceOf(|w.values| as real, w.sumX, w.sumX2)
  }

  function VarianceOf(n: real, x: real, x2: real): real
    requires n > 1.0
  {
    var mean := x / n;
    (x2 / n - mean * mean) * n / (n - 1.0)
  }

  lemma VarianceSign(w: Window)
    requires |w.values| >= 2
    ensures Variance(w) >= 0.0 <==> VarianceNumerator(w) >= 0.0
  {
    var n := |w.values| as real;
    var m, q := w.sumX / n, w.sumX2 / n;
    assert m * n == w.sumX && q * n == w.sumX2;
    var core := (q - m * m) * n;
    assert core * n == VarianceNumerator(w) by {
      assert q * n * n == w.sumX2 * n;
      assert m * m * n * n == w.sumX * w.sumX by { assert m * m * n * n == (m * n) * (m * n); }
      assert core * n == q * n * n - m * m * n * n;
    }
    ScaleOrder(0.0, core, n);
    var v := core / (n - 1.0);
    assert v * (n - 1.0) == core;
    ScaleOrder(0.0, v, n - 1.0);
  }

  /** The sum of squared distances from `x`. */
  function Deviations(vs: seq<real>, x: real): real {
    if vs == [] then 0.0 else Deviations(vs[..|vs| - 1], x) + Sq(vs[|vs| - 1] - x)
  }

  lemma DeviationsStep(d: real, q: real, s: real, n: real, y: real, x: real)
    requires d == q - 2.0 * x * s + n * Sq(x)
    ensures d + Sq(y - x) == q + Sq(y) - 2.0 * x * (s + y) + (n + 1.0) * Sq(x)
  {
    assert (y - x) * (y - x) == y * y - 2.0 * x * y + x * x;
    assert 2.0 * x * (s + y) == 2.0 * x * s + 2.0 * x * y;
    assert (n + 1.0) * (x * x) == n * (x * x) + x * x;
  }

  /** The moments of a sequence, and its squared distances from `x`. */
  ghost predicate Expanded(d: real, q: real, s: real, n: real, x: real) {
    d == q - 2.0 * x * s + n * Sq(x)
  }

  lemma {:induction false} DeviationsExpand(vs: seq<real>, x: real)
    ensures Expanded(Deviations(vs, x), Sum(Squares(vs)), Sum(vs), |vs| as real, x)
  {
    if vs == [] {
      assert Squares(vs) == [];
    } else {
      var init, y := vs[..|vs| - 1], vs[|vs| - 1];
      DeviationsExpand(init, x);
      SquaresParts(vs);
      DeviationsStep(Deviations(init, x), Sum(Squares(init)), Sum(init), |init| as real, y, x);
      assert Expanded(Deviations(init, x) + Sq(y - x), Sum(Squares(init)) + Sq(y), Sum(init) + y,
                      |init| as real + 1.0, x);
    }
  }

  lemma SampleCore(n: real, s: real, q: real, m: real, v: real, d: real)
    requires m * n == s && v * n == q && Expanded(d, q, s, n, m)
    ensures (v - m * m) * n == d
  {
    assert 2.0 * m * s == 2.0 * (m * m * n);
    assert n * (m * m) == m * m * n;
    assert (v - m * m) * n == v * n - m * m * n;
  }

  lemma SampleValue(n: real, s: real, q: real, d: real)
    requires n > 1.0 && Expanded(d, q, s, n, s / n)
    ensures VarianceOf(n, s, q) == d / (n - 1.0)
  {
    var m, v := s / n, q / n;
    assert m * n == s && v * n == q;
    SampleCore(n, s, q, m, v, d);
    var core := (v - m * m) * n;
    assert core == d;
    assert VarianceOf(n, s, q) == core / (n - 1.0);
  }

  /** Where the sums are those of the window, the variance is the sample variance: the squared distances from the
      mean, divided by one less than their number. */
  lemma VarianceIsSample(w: Window)
    requires |w.values| >= 2 && w.sumX == Sum(w.values) && w.sumX2 == Sum(Squares(w.values))
    ensures var n := |w.values| as real;
            Variance(w) == Deviations(w.values, Sum(w.values) / n) / (n - 1.0)
  {
    var n := |w.values| as real;
    var d := Deviations(w.values, w.sumX / n);
    DeviationsExpand(w.values, w.sumX / n);
    SampleValue(n, w.sumX, w.sumX2, d);
  }

  lemma LongerCount(k: real, n: real, q: real, s: real)
    requires k <= n && q >= 0.0 && k * q >= s
    ensures n * q >= s
  {
    assert (n - k) * q >= 0.0;
    assert n * q == k * q + (n - k) * q;
  }

  /** Sums of no more values than the deque holds give no negative variance. */
  lemma EnoughValues(w: Window, c: seq<real>)
    requires w.sumX == Sum(c) && w.sumX2 == Sum(Squares(c)) && |c| <= |w.values|
    ensures VarianceNumerator(w) >= 0.0
  {
    CauchySchwarz(c);
    LongerCount(|c| as real, |w.values| as real, w.sumX2, w.sumX * w.sumX);
  }

  /** With the bound as `maxSize`, the variance is never negative. */
  lemma MatchedNeverNegative(vs: seq<real>, bound: nat)
    requires bound >= 1
    ensures VarianceNumerator(AddAll(vs, bound, bound)) >= 0.0
  {
    WindowHoldsTail(vs, bound, bound);
    SumsAreCounted(vs, bound, bound);
    EnoughValues(AddAll(vs, bound, bound), Tail(vs, bound));
  }

  function Constant(n: nat, v: real): seq<real> { seq(n, _ => v) }

  lemma {:induction false} SumConstant(n: nat, v: real)
    ensures Sum(Constant(n, v)) == n as real * v
  {
    if n > 0 {
      SumConstant(n - 1, v);
      assert Constant(n, v)[..n - 1] == Constant(n - 1, v);
    }
  }

  lemma SquaredProduct(k: real, v: real)
    ensures (k * v) * (k * v) == k * k * Sq(v)
  {
  }

  lemma Expand(n: real, k: real, q: real)
    ensures (k - n) * k * q == k * k * q - n * (k * q)
  {
    assert (k - n) * k == k * k - n * k;
    assert n * k * q == n * (k * q);
  }

  lemma SmallerFactor(n: real, k: real, v: real)
    requires 0.0 <= n < k && v != 0.0
    ensures Spread(n, k * v, k * Sq(v)) < 0.0
  {
    var d, q := k - n, Sq(v);
    SquarePositive(v);
    ScaleOrder(0.0, d, k);
    ScaleOrder(0.0, d * k, q);
    SquaredProduct(k, v);
    Expand(n, k, q);
    assert Spread(n, k * v, k * q) == n * (k * q) - k * k * q;
  }

  lemma SumSquaredConstant(n: nat, v: real)
    ensures Sum(Squares(Constant(n, v))) == n as real * Sq(v)
  {
    assert Squares(Constant(n, v)) == Constant(n, Sq(v));
    SumConstant(n, Sq(v));
  }

  /** More values counted than held. */
  lemma TooFewValues(w: Window, k: nat, v: real)
    requires |w.values| < k && v != 0.0
    requires w.sumX == k as real * v && w.sumX2 == k as real * Sq(v)
    ensures VarianceNumerator(w) < 0.0
  {
    SmallerFactor(|w.values| as real, k as real, v);
  }

  /** The lengths up to which the sums count no more values than the deque holds. */
  predicate Harmless(n: nat, maxSize: nat, bound: nat) {
    maxSize == bound || n <= bound + if maxSize < bound then 1 else 0
  }

  lemma HarmlessNonNegative(vs: seq<real>, maxSize: nat, bound: nat)
    requires maxSize >= 1 && bound >= 1 && Harmless(|vs|, maxSize, bound)
    ensures VarianceNumerator(AddAll(vs, maxSize, bound)) >= 0.0
  {
    WindowHoldsTail(vs, maxSize, bound);
    SumsAreCounted(vs, maxSize, bound);
    EnoughValues(AddAll(vs, maxSize, bound), Counted(vs, maxSize, bound));
  }

  /** A constant spread other than zero gives a negative variance as soon as the length allows it. */
  lemma ConstantSpread(n: nat, v: real, maxSize: nat, bound: nat)
    requires maxSize >= 1 && bound >= 1 && v != 0.0
    ensures VarianceNumerator(AddAll(Constant(n, v), maxSize, bound)) >= 0.0 <==> Harmless(n, maxSize, bound)
  {
    if Harmless(n, maxSize, bound) {
      HarmlessNonNegative(Constant(n, v), maxSize, bound);
    } else {
      WindowHoldsTail(Constant(n, v), maxSize, bound);
      SumsAreCounted(Constant(n, v), maxSize, bound);
      var k := if maxSize < bound then n - 1 else n;
      assert Counted(Constant(n, v), maxSize, bound) == Constant(k, v);
      SumConstant(k, v);
      SumSquaredConstant(k, v);
      TooFewValues(AddAll(Constant(n, v), maxSize, bound), k, v);
    }
  }

  /** The variance is non-negative for every history of a given length if and only if the sizes match
      or the history is short: up to the bound when `maxSize` is larger, up to one more when it is
      smaller, as register_pair passes it. */
  lemma SignExact(n: nat, maxSize: nat, bound: nat)
    requires maxSize >= 1 && bound >= 1
    ensures (forall vs :: |vs| == n ==> VarianceNumerator(AddAll(vs, maxSize, bound)) >= 0.0)
       <==> Harmless(n, maxSize, bound)
  {
    if Harmless(n, maxSize, bound) {
      forall vs: seq<real> | |vs| == n ensures VarianceNumerator(AddAll(vs, maxSize, bound)) >= 0.0 {
        HarmlessNonNegative(vs, maxSize, bound);
      }
    } else {
      ConstantSpread(n, 1.0, maxSize, bound);
      assert |Constant(n, 1.0)| == n;
    }
  }

  /** The windows that register_pair creates go wrong on the 1002nd update of any constant spread other
      than zero, and stay wrong as long as it lasts. */
  lemma RegisteredPairGoesNegative(n: nat, v: real)
    requires v != 0.0
    ensures VarianceNumerator(AddAll(Constant(n, v), VOLATILITY_LOOKBACK, DEQUE_BOUND)) < 0.0 <==> n >= 1002
  {
    ConstantSpread(n, v, VOLATILITY_LOOKBACK, DEQUE_BOUND);
  }

  // ---------------------------------------------------------------------------
  // The class
  // ---------------------------------------------------------------------------

  class SpreadWindow {
    const maxSize: nat
    const bound: nat
    var values: seq<real>
    var sumX: real
    var sumX2: real
    ghost var log: seq<real>              // every value added

    ghost function View(): Window
      reads this
    {
      Window(values, sumX, sumX2)
    }

    ghost predicate Valid()
      reads this
    {
      maxSize >= 1 && bound >= 1 && View() == AddAll(log, maxSize, bound)
    }

    constructor (maxSize: nat, bound: nat)
      requires maxSize >= 1 && bound >= 1
      ensures Valid() && log == [] && this.maxSize == maxSize && this.bound == bound
    {
      this.maxSize, this.bound := maxSize, bound;
      values, sumX, sumX2, log := [], 0.0, 0.0, [];
    }

    method AddValue(value: real)
      requires Valid()
      modifies this
      ensures Valid() && log == old(log) + [value]
      ensures maxSize == bound ==> sumX == Sum(values) && sumX2 == Sum(Squares(values))
    {
      ghost var before := log;
      ghost var w := View();
      if |values| == maxSize {
        var oldValue := values[0];
        sumX := sumX - oldValue;
        sumX2 := sumX2 - Sq(oldValue);
      }
      values := Append(values, value, bound);
      sumX := sumX + value;
      sumX2 := sumX2 + Sq(value);
      log := log + [value];
      assert log[..|log| - 1] == before;
      assert View() == Add(w, value, maxSize, bound);
      WindowHoldsTail(log, maxSize, bound);
      SumsAreCounted(log, maxSize, bound);
    }
  }
}
