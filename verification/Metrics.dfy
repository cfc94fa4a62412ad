/** Path metrics stay close together, so comparing their wrapped difference is safe for ever. */
module Metrics {
  import opened Bits
  import opened Trellis
  import opened Paths
  import opened Shift

  /** Bound on the distance between any two path metrics of one step. */
  function Spread(d: Design): (m: nat)
    requires Shaped(d)
  {
    var early, late := d.bias + (d.nu - 1) * Most(d), d.nu * Most(d);
    if early <= late then late else early
  }

  /** The word width suffices: the largest compared gap is below half the modulus. */
  ghost predicate Fits(d: Design) {
    Shaped(d) && 2 * (Spread(d) + Most(d)) < Pow2(d.width)
  }

  lemma Product(t: nat, n: nat, m: nat)
    requires t <= n
    ensures t * m <= n * m
  {
  }

  lemma {:induction false} MetricFromBias(d: Design, start: nat, rx: seq<seq<nat>>, s: nat)
    requires Shaped(d) && AreGroups(d, rx) && s < States(d)
    ensures Metric(d, start, rx, s) <= d.bias + |rx| * Most(d)
    decreases |rx|
  {
    if |rx| != 0 {
      var sr := Entry(d, s, 0);
      MetricBelow(d, start, rx, s, 0);
      ThroughValue(d, start, rx, s, 0, sr);
      MetricFromBias(d, start, Front(rx), sr / 2);
      var m, t := Most(d), |rx| - 1;
      assert (t + 1) * m == t * m + m;
      hide *;
    }
  }

  /** The bits of a state, oldest first. */
  function BitsOf(s: nat, n: nat): (z: seq<nat>)
    ensures |z| == n && AreBits(z)
  {
    if n == 0 then [] else BitsOf(s / 2, n - 1) + [s % 2]
  }

  lemma {:induction false} BitsOfValue(s: nat, n: nat)
    ensures Value(BitsOf(s, n)) == Low(s, n)
  {
    if n != 0 {
      BitsOfValue(s / 2, n - 1);
      var z := BitsOf(s, n);
      assert Front(z) == BitsOf(s / 2, n - 1) && Last(z) == s % 2;
    }
  }

  // Extending a path costs at most the largest branch metric per step, and never makes it cheaper.
  lemma {:induction false} CostGrows(d: Design, start: nat, s0: nat, u: seq<nat>, rx: seq<seq<nat>>, n: nat)
    requires s0 < States(d) && AreBits(u) && |u| == |rx| && AreGroups(d, rx) && n <= |u|
    ensures Cost(d, start, s0, u[..n], rx[..n]) <= Cost(d, start, s0, u, rx)
    ensures Cost(d, start, s0, u, rx) <= Cost(d, start, s0, u[..n], rx[..n]) + (|u| - n) * Most(d)
    decreases |u|
  {
    if n == |u| {
      assert u[..n] == u && rx[..n] == rx;
    } else {
      assert Front(u)[..n] == u[..n] && Front(rx)[..n] == rx[..n];
      CostGrows(d, start, s0, Front(u), Front(rx), n);
      PathStep(d, start, s0, u, rx);
      var m, t := Most(d), |u| - n - 1;
      assert (t + 1) * m == t * m + m;
      hide *;
    }
  }

  // From any earlier state every state can be reached in nu steps.
  lemma Reachable(d: Design, start: nat, rx: seq<seq<nat>>, x: nat, s: nat)
    requires Shaped(d) && AreGroups(d, rx) && x < States(d) && s < States(d) && |rx| >= d.nu
    ensures Metric(d, start, rx, s) <= Metric(d, start, rx[..|rx| - d.nu], x) + d.nu * Most(d)
  {
    hide Metric, Cost, Survivor;
    var n := |rx| - d.nu;
    var p := Survivor(d, start, rx[..n], x);
    SurvivorCost(d, start, rx[..n], x);
    var u := p.bits + BitsOf(s, d.nu);
    assert u[..n] == p.bits && u[n..] == BitsOf(s, d.nu);
    StateIsWindow(d, p.from, u);
    BitsOfValue(s, d.nu);
    LowSmall(s, d.nu);
    CostGrows(d, start, p.from, u, rx, n);
    MetricIsLowerBound(d, start, p.from, u, rx);
  }

  /** Any two path metrics of the same step are within `Spread`, after any number of steps. */
  lemma SpreadBound(d: Design, start: nat, rx: seq<seq<nat>>, s: nat, s': nat)
    requires Shaped(d) && AreGroups(d, rx) && s < States(d) && s' < States(d)
    ensures Metric(d, start, rx, s) <= Metric(d, start, rx, s') + Spread(d)
  {
    if |rx| < d.nu {
      MetricFromBias(d, start, rx, s);
      Product(|rx|, d.nu - 1, Most(d));
    } else {
      hide Metric, Cost, Survivor;
      var n := |rx| - d.nu;
      var p := Survivor(d, start, rx, s');
      SurvivorCost(d, start, rx, s');
      CostGrows(d, start, p.from, p.bits, rx, n);
      MetricIsLowerBound(d, start, p.from, p.bits[..n], rx[..n]);
      Reachable(d, start, rx, StateAfter(d, p.from, p.bits[..n]), s);
    }
  }

  /** The two candidates a butterfly compares are never further apart than `Spread + Most`. */
  lemma ComparedGap(d: Design, start: nat, rx: seq<seq<nat>>, s: nat)
    requires Shaped(d) && AreGroups(d, rx) && s < States(d) && |rx| > 0
    ensures var m0, m1 := Through(d, start, rx, s, 0), Through(d, start, rx, s, 1);
      -(Spread(d) + Most(d)) <= m0 - m1 <= Spread(d) + Most(d)
  {
    var sr0, sr1 := Entry(d, s, 0), Entry(d, s, 1);
    ThroughValue(d, start, rx, s, 0, sr0);
    ThroughValue(d, start, rx, s, 1, sr1);
    SpreadBound(d, start, Front(rx), sr0 / 2, sr1 / 2);
    SpreadBound(d, start, Front(rx), sr1 / 2, sr0 / 2);
  }

  /** Unsigned arithmetic modulo `n`. */
  function Wrap(x: int, n: nat): (r: nat)
    requires n > 0
    ensures r < n
  {
    x % n
  }

  /** A word read as a two's complement number. */
  function Signed(v: nat, n: nat): int {
    if 2 * v < n then v else v - n
  }

  lemma WrapUnique(x: int, n: nat, q: int, r: int)
    requires n > 0 && x == q * n + r && 0 <= r < n
    ensures Wrap(x, n) == r
  {
    RemainderUnique(x, n, q, r);
  }

  lemma WrapQuotient(x: int, n: nat) returns (q: int)
    requires n > 0
    ensures x == q * n + Wrap(x, n)
  {
    q := x / n;
  }

  lemma WrapSame(x: int, y: int, n: nat, k: int)
    requires n > 0 && x == y + k * n
    ensures Wrap(x, n) == Wrap(y, n)
  {
    hide Wrap;
    var q := WrapQuotient(y, n);
    assert (q + k) * n == q * n + k * n;
    WrapUnique(x, n, q + k, Wrap(y, n));
  }

  lemma WrapAdd(x: int, y: int, n: nat)
    requires n > 0
    ensures Wrap(Wrap(x, n) + y, n) == Wrap(x + y, n)
    ensures Wrap(y + Wrap(x, n), n) == Wrap(x + y, n)
    ensures Wrap(y - Wrap(x, n), n) == Wrap(y - x, n)
  {
    hide Wrap;
    var q := WrapQuotient(x, n);
    assert (-q) * n == -(q * n);
    WrapSame(Wrap(x, n) + y, x + y, n, -q);
    WrapSame(y - Wrap(x, n), y - x, n, q);
  }

  /** The signed test on a wrapped difference of wrapped numbers sees the true difference. */
  lemma SignedDifference(a: int, b: int, n: nat)
    requires n > 0 && 2 * (a - b) < n && 2 * (b - a) < n
    ensures Signed(Wrap(Wrap(a, n) - Wrap(b, n), n), n) == a - b
  {
    hide Wrap;
    WrapAdd(b, Wrap(a, n), n);
    WrapAdd(a, -b, n);
    var x := a - b;
    if x >= 0 {
      WrapUnique(x, n, 0, x);
    } else {
      WrapUnique(x, n, -1, x + n);
    }
  }

  /** Modular comparison is harmless: from wrapped path metrics the decoder takes the same decision, and
      keeps the same survivor, as unbounded arithmetic, after any number of steps. */
  lemma WrappedDecision(d: Design, start: nat, rx: seq<seq<nat>>, s: nat)
    requires Fits(d) && AreGroups(d, rx) && s < States(d) && |rx| > 0
    ensures var n := Pow2(d.width);
      var m0, m1 := Wrap(Through(d, start, rx, s, 0), n), Wrap(Through(d, start, rx, s, 1), n);
      var gap := Signed(Wrap(m0 - m1, n), n);
      && Choice(d, start, rx, s) == (if gap > 0 || (gap == 0 && !d.strict) then 1 else 0)
      && Wrap(Metric(d, start, rx, s), n) == (if Choice(d, start, rx, s) == 1 then m1 else m0)
  {
    ComparedGap(d, start, rx, s);
    var m0, m1 := Through(d, start, rx, s, 0), Through(d, start, rx, s, 1);
    MetricBelow(d, start, rx, s, 0);
    hide Metric, Through, Wrap;
    SignedDifference(m0, m1, Pow2(d.width));
  }
}
