/** The decoder object: metric buffers swapped on every bit, packed decision words, and chainback. */
module Viterbi {
  import opened Bits
  import opened Taps
  import opened Trellis
  import opened Paths
  import opened Shift
  import opened Metrics
  import opened Chainback

  function Words(d: Design): nat
    requires Shaped(d)
  {
    Pow2(d.nu - d.pack)
  }

  lemma {:induction false} ShrBound(s: nat, n: nat, k: nat)
    requires s < Pow2(n) && k <= n
    ensures Shr(s, k) < Pow2(n - k)
  {
    if k != 0 {
      ShrBound(s / 2, n - 1, k - 1);
    }
  }

  /** The word of a decision row that holds the bit of state `s`. */
  function WordOf(d: Design, s: nat): (w: nat)
    requires Shaped(d) && s < States(d)
    ensures w < Words(d)
  {
    ShrBound(s, d.nu, d.pack);
    Shr(s, d.pack)
  }

  lemma SameWord(d: Design, s: nat, s': nat)
    requires Shaped(d) && s < States(d) && s' < States(d) && s != s'
    ensures WordOf(d, s) != WordOf(d, s') || Low(s, d.pack) != Low(s', d.pack)
  {
    ShrLow(s, d.pack);
    ShrLow(s', d.pack);
  }

  /** The branch table of one set of polynomials. */
  ghost predicate TableFor(tab: array2<nat>, d: Design)
    requires Shaped(d)
    reads tab
  {
    && tab.Length0 == |d.polys| && tab.Length1 == Pow2(d.nu - 1)
    && forall j, i :: 0 <= j < tab.Length0 && 0 <= i < tab.Length1 ==> tab[j, i] == Level(Sent(d.polys[j], 2 * i))
  }

  lemma {:induction false} AndBound(a: nat, b: nat)
    ensures And(a, b) <= a
  {
    if a != 0 {
      AndBound(a / 2, b / 2);
    }
  }

  lemma {:induction false} PowMonotone(a: nat, b: nat)
    requires a <= b
    ensures Pow2(a) <= Pow2(b)
    decreases b
  {
    if a < b {
      PowMonotone(a, b - 1);
    }
  }

  method TableEntry(poly: int, state: nat) returns (v: nat)
    requires 2 * state < Pow2(32)
    ensures v == Level(Sent(poly, 2 * state))
  {
    AndBound(2 * state, Abs(poly));
    var odd := Parity(And(2 * state, Abs(poly)));
    v := if (poly < 0) != odd then 255 else 0;
  }

  ghost predicate Column(tab: array2<nat>, polys: seq<int>, i: nat, n: nat)
    requires n <= |polys| <= tab.Length0 && i < tab.Length1
    reads tab
  {
    forall j :: 0 <= j < n ==> tab[j, i] == Level(Sent(polys[j], 2 * i))
  }

  method FillColumn(tab: array2<nat>, polys: seq<int>, state: nat)
    requires |polys| == tab.Length0 && state < tab.Length1 && 2 * state < Pow2(32)
    modifies tab
    ensures Column(tab, polys, state, |polys|)
    ensures forall i: nat | i < tab.Length1 && i != state && old(Column(tab, polys, i, |polys|)) ::
      Column(tab, polys, i, |polys|)
  {
    hide Pow2, Level, Sent;
    var j := 0;
    while j < |polys|
      invariant 0 <= j <= |polys|
      invariant Column(tab, polys, state, j)
      invariant forall j, i | 0 <= j < tab.Length0 && 0 <= i < tab.Length1 && i != state :: tab[j, i] == old(tab[j, i])
    {
      var v := TableEntry(polys[j], state);
      tab[j, state] := v;
      j := j + 1;
    }
  }

  /** `set_viterbi*_polynomial`: the table of sent levels for the even registers. */
  method SetPolynomial(d: Design) returns (tab: array2<nat>)
    requires Shaped(d)
    ensures fresh(tab) && TableFor(tab, d)
  {
    var half := Pow2(d.nu - 1);
    tab := new nat[|d.polys|, half];
    PowMonotone(d.nu, 32);
    assert Pow2(d.nu) == 2 * half;
    hide Pow2, Level, Sent;
    var state := 0;
    while state < half
      invariant 0 <= state <= half
      invariant forall i: nat :: i < state ==> Column(tab, d.polys, i, |d.polys|)
    {
      FillColumn(tab, d.polys, state);
      state := state + 1;
    }
    forall j, i | 0 <= j < tab.Length0 && 0 <= i < tab.Length1
      ensures tab[j, i] == Level(Sent(d.polys[j], 2 * i))
    {
      assert Column(tab, d.polys, i, |d.polys|);
    }
  }

  // The four candidates of a butterfly, from the old metrics of its two states.
  lemma Butterfly(d: Design, start: nat, rx: seq<seq<nat>>, i: nat, b: nat, k: nat)
    requires Shaped(d) && AreGroups(d, rx) && |rx| > 0 && i < Pow2(d.nu - 1) && b < 2 && k < 2
    ensures 2 * i + b < States(d) && i + k * Pow2(d.nu - 1) < States(d)
    ensures var base := Mismatch(d.polys, 2 * i, Last(rx));
      Through(d, start, rx, 2 * i + b, k)
        == Metric(d, start, Front(rx), i + k * Pow2(d.nu - 1)) + (if b == k then base else Most(d) - base)
  {
    hide Metric, Mismatch;
    assert States(d) == 2 * Pow2(d.nu - 1);
    var s := 2 * i + b;
    EntryParts(d, s, k);
    assert s / 2 == i && s % 2 == b;
    ThroughValue(d, start, rx, s, k, Entry(d, s, k));
  }

  // Branch sums and adjustments on wrapped metrics.
  lemma WrappedSums(x: nat, m: nat, most: nat, n: nat)
    requires n > 0 && m <= most
    ensures Wrap(Wrap(x, n) + m, n) == Wrap(x + m, n)
    ensures Wrap(Wrap(x, n) + Wrap(most - m, n), n) == Wrap(x + (most - m), n)
    ensures Wrap(Wrap(x + m, n) - Wrap(m + m - most, n), n) == Wrap(x + (most - m), n)
    ensures Wrap(Wrap(x + (most - m), n) + Wrap(m + m - most, n), n) == Wrap(x + m, n)
  {
    hide Wrap;
    WrapAdd(x, m, n);
    WrapAdd(x, Wrap(most - m, n), n);
    WrapAdd(most - m, x, n);
    WrapAdd(m + m - most, Wrap(x + m, n), n);
    WrapAdd(x + m, -(m + m - most), n);
    WrapAdd(x + (most - m), Wrap(m + m - most, n), n);
    WrapAdd(m + m - most, x + (most - m), n);
  }

  // The sums both forms of the butterfly compute, from wrapped metrics of x and y.
  lemma Sums(x: nat, y: nat, m: nat, most: nat, n: nat)
    requires n > 0 && m <= most
    ensures var a, b, c, c' := Wrap(x, n), Wrap(y, n), Wrap(most - m, n), Wrap(m + m - most, n);
      && Wrap(a + m, n) == Wrap(x + m, n)
      && Wrap(b + c, n) == Wrap(y + (most - m), n)
      && Wrap(a + c, n) == Wrap(x + (most - m), n)
      && Wrap(b + m, n) == Wrap(y + m, n)
      && Wrap(Wrap(a + m, n) - c', n) == Wrap(x + (most - m), n)
      && Wrap(Wrap(b + c, n) + c', n) == Wrap(y + m, n)
  {
    hide *;
    WrappedSums(x, m, most, n);
    WrappedSums(y, m, most, n);
  }

  /** What a butterfly must produce for one of its two new states. */
  ghost predicate Candidate(d: Design, start: nat, rx: seq<seq<nat>>, s: nat, m0: nat, m1: nat)
    requires Shaped(d) && AreGroups(d, rx) && |rx| > 0 && s < States(d)
  {
    m0 == Wrap(Through(d, start, rx, s, 0), Pow2(d.width)) && m1 == Wrap(Through(d, start, rx, s, 1), Pow2(d.width))
  }

  lemma Candidates(d: Design, start: nat, rx: seq<seq<nat>>, i: nat, a: nat, b: nat)
    requires Shaped(d) && AreGroups(d, rx) && |rx| > 0 && i < Pow2(d.nu - 1)
    requires 2 * i + 1 < States(d) && i + Pow2(d.nu - 1) < States(d)
    requires a == Wrap(Metric(d, start, Front(rx), i), Pow2(d.width))
    requires b == Wrap(Metric(d, start, Front(rx), i + Pow2(d.nu - 1)), Pow2(d.width))
    ensures var n, most, m := Pow2(d.width), Most(d), Mismatch(d.polys, 2 * i, Last(rx));
      var c, c' := Wrap(most - m, n), Wrap(m + m - most, n);
      var m0, m1 := Wrap(a + m, n), Wrap(b + c, n);
      && Candidate(d, start, rx, 2 * i, m0, m1)
      && Candidate(d, start, rx, 2 * i + 1, Wrap(a + c, n), Wrap(b + m, n))
      && Candidate(d, start, rx, 2 * i + 1, Wrap(m0 - c', n), Wrap(m1 + c', n))
  {
    hide Metric, Mismatch, Through, Wrap, Pow2, States;
    var half := Pow2(d.nu - 1);
    Butterfly(d, start, rx, i, 0, 0);
    Butterfly(d, start, rx, i, 0, 1);
    Butterfly(d, start, rx, i, 1, 0);
    Butterfly(d, start, rx, i, 1, 1);
    Sums(Metric(d, start, Front(rx), i), Metric(d, start, Front(rx), i + half),
         Mismatch(d.polys, 2 * i, Last(rx)), Most(d), Pow2(d.width));
  }

  lemma CandidateDecision(d: Design, start: nat, rx: seq<seq<nat>>, s: nat, m0: nat, m1: nat)
    requires Fits(d) && AreGroups(d, rx) && |rx| > 0 && s < States(d) && Candidate(d, start, rx, s, m0, m1)
    ensures var gap := Signed(Wrap(m0 - m1, Pow2(d.width)), Pow2(d.width));
      && Choice(d, start, rx, s) == (if gap > 0 || (gap == 0 && !d.strict) then 1 else 0)
      && Wrap(Metric(d, start, rx, s), Pow2(d.width)) == (if Choice(d, start, rx, s) == 1 then m1 else m0)
  {
    WrappedDecision(d, start, rx, s);
  }

  ghost predicate AreSymbols(syms: seq<nat>) {
    forall k :: 0 <= k < |syms| ==> syms[k] <= 255
  }

  /** The symbols of successive steps, `n` to a group. */
  function Groups(syms: seq<nat>, n: nat, count: nat): (g: seq<seq<nat>>)
    requires |syms| >= count * n
    ensures |g| == count
  {
    if count == 0 then [] else
      assert count * n == n + (count - 1) * n;
      [syms[..n]] + Groups(syms[n..], n, count - 1)
  }

  lemma GroupsStep(d: Design, syms: seq<nat>, count: nat)
    requires AreSymbols(syms) && |syms| >= count * |d.polys| && count > 0
    ensures |syms| >= |d.polys| && IsGroup(d, syms[..|d.polys|])
    ensures AreSymbols(syms[|d.polys|..]) && |syms[|d.polys|..]| >= (count - 1) * |d.polys|
    ensures Groups(syms, |d.polys|, count) == [syms[..|d.polys|]] + Groups(syms[|d.polys|..], |d.polys|, count - 1)
  {
    assert count * |d.polys| == |d.polys| + (count - 1) * |d.polys|;
  }

  lemma GroupsNone(syms: seq<nat>, n: nat)
    ensures |syms| >= 0 * n && Groups(syms, n, 0) == []
  {
  }

  lemma Regroup(h: seq<seq<nat>>, g: seq<nat>, rest: seq<seq<nat>>)
    ensures h + ([g] + rest) == (h + [g]) + rest
  {
  }

  lemma PrefixGroups(d: Design, rx: seq<seq<nat>>, n: nat)
    requires AreGroups(d, rx) && n <= |rx|
    ensures AreGroups(d, rx[..n])
  {
  }

  lemma StatesIsPow2(d: Design)
    requires Shaped(d)
    ensures States(d) == Pow2(d.nu) && d.nu >= 1
  {
  }

  lemma EndValue(e: nat, n: nat)
    requires e < Pow2(n)
    ensures Value(BitsOf(e, n)) == e
  {
    BitsOfValue(e, n);
    LowSmall(e, n);
  }

  lemma EndBits(d: Design, z: seq<nat>, e: nat)
    requires Shaped(d) && AreBits(z) && |z| == d.nu && Value(z) == e && e < States(d)
    ensures z == BitsOf(e, d.nu)
  {
    EndValue(e, d.nu);
    ValueInjective(z, BitsOf(e, d.nu));
  }

  lemma CheapestParts(d: Design, start: nat, rx: seq<seq<nat>>, e: nat, p: Path)
    requires Shaped(d) && AreGroups(d, rx) && |rx| >= d.nu && Cheapest(d, start, rx, e, p)
    ensures AreBits(p.bits) && |p.bits| == |rx| && e == Value(p.bits[|rx| - d.nu..])
  {
    StateIsWindow(d, p.from, p.bits);
  }

  lemma BiasFits(d: Design)
    requires Fits(d)
    ensures Wrap(d.bias, Pow2(d.width)) == d.bias && Wrap(0, Pow2(d.width)) == 0
  {
    var n := Pow2(d.width);
    Product(0, d.nu - 1, Most(d));
    hide *;
    WrapUnique(d.bias, n, 0, d.bias);
    WrapUnique(0, n, 0, 0);
  }

  lemma HalfStates(d: Design)
    requires Shaped(d)
    ensures States(d) == 2 * Pow2(d.nu - 1)
  {
  }

  lemma MismatchLast(polys: seq<int>, sr: nat, g: seq<nat>, j: nat)
    requires |g| == |polys| && j < |g| && forall k :: 0 <= k < |g| ==> g[k] <= 255
    ensures Mismatch(polys[..j + 1], sr, g[..j + 1]) == Mismatch(polys[..j], sr, g[..j]) + Gap(Sent(polys[j], sr), g[j])
  {
    assert polys[..j + 1][..j] == polys[..j] && g[..j + 1][..j] == g[..j];
  }

  lemma ShiftedBit(decision: nat, k: nat, q: nat)
    requires decision < 2
    ensures Bit(decision * Pow2(k), q) == if q == k && decision == 1 then 1 else 0
  {
    BitShifted(decision, k, q);
    if k < q {
      assert Shr(decision, q - k) == Shr(0, q - k - 1);
      BitOfZero(q - k - 1);
    }
  }

  class Decoder {
    const d: Design
    const branchtab: array2<nat>
    const metrics1: array<nat>
    const metrics2: array<nat>
    var oldMetrics: array<nat>
    var newMetrics: array<nat>
    const decisions: array2<nat>
    var dp: nat
    // The known start state and the groups received since initialisation.
    ghost var start: nat
    ghost var heard: seq<seq<nat>>

    /** Parts fixed at creation. */
    ghost predicate Built()
      reads branchtab
    {
      && Fits(d) && TableFor(branchtab, d) && branchtab != decisions
      && metrics1 != metrics2 && metrics1.Length == metrics2.Length == States(d)
      && decisions.Length1 == Words(d)
    }

    ghost predicate Laid()
      reads this, branchtab
    {
      && Built()
      && ((oldMetrics == metrics1 && newMetrics == metrics2) || (oldMetrics == metrics2 && newMetrics == metrics1))
      && dp <= decisions.Length0
      && AreGroups(d, heard) && start < States(d)
    }

    /** The stored path metrics are the exact ones, wrapped. */
    ghost predicate MetricsHold(a: array<nat>, rx: seq<seq<nat>>)
      requires Fits(d) && AreGroups(d, rx)
      reads this`start, a
    {
      && a.Length == States(d)
      && forall s :: 0 <= s < States(d) ==> a[s] == Wrap(Metric(d, start, rx, s), Pow2(d.width))
    }

    /** `(d[t].w[s / 32] >> (s % 32)) & 1`. */
    function Decision(t: nat, s: nat): (k: nat)
      requires Shaped(d) && decisions.Length1 == Words(d) && t < decisions.Length0 && s < States(d)
      reads decisions
      ensures k < 2
    {
      Bit(decisions[t, WordOf(d, s)], Low(s, d.pack))
    }

    /** Row `t` holds the decisions taken on the first `t + 1` groups. */
    ghost predicate RowHolds(t: nat, rx: seq<seq<nat>>)
      requires Shaped(d) && decisions.Length1 == Words(d) && t < decisions.Length0
      requires AreGroups(d, rx) && t < |rx|
      reads this`start, decisions
    {
      forall s: nat :: s < States(d) ==> Decision(t, s) == Choice(d, start, rx[..t + 1], s)
    }

    ghost predicate Valid()
      reads this, branchtab, metrics1, metrics2, decisions
    {
      && Laid() && dp == |heard|
      && MetricsHold(oldMetrics, heard)
      && forall t: nat :: t < dp ==> RowHolds(t, heard)
    }

    /** `(Branchtab[0].c[i] ^ sym0) + (Branchtab[1].c[i] ^ sym1) + ...` */
    method BranchMetric(i: nat, g: seq<nat>) returns (metric: nat)
      requires Shaped(d) && TableFor(branchtab, d) && IsGroup(d, g) && i < Pow2(d.nu - 1)
      ensures metric == Mismatch(d.polys, 2 * i, g) && metric <= Most(d)
    {
      metric := 0;
      var j := 0;
      while j < |g|
        invariant 0 <= j <= |g|
        invariant metric == Mismatch(d.polys[..j], 2 * i, g[..j])
      {
        GapIsXor(Sent(d.polys[j], 2 * i), g[j]);
        MismatchLast(d.polys, 2 * i, g, j);
        metric := metric + Xor(branchtab[j, i], g[j]);
        j := j + 1;
      }
      assert g[..j] == g && d.polys[..j] == d.polys;
    }

    /** The signed test on the difference of two unsigned metrics. */
    method Compare(m0: nat, m1: nat) returns (decision: nat)
      requires Shaped(d)
      ensures var gap := Signed(Wrap(m0 - m1, Pow2(d.width)), Pow2(d.width));
        decision == if gap > 0 || (gap == 0 && !d.strict) then 1 else 0
    {
      var gap := Signed(Wrap(m0 - m1, Pow2(d.width)), Pow2(d.width));
      if d.strict {
        decision := if gap > 0 then 1 else 0;
      } else {
        decision := if gap >= 0 then 1 else 0;
      }
    }

    /** `d->w[s / 32] |= decision << (s & 31)`. */
    method Record(s: nat, decision: nat)
      requires Shaped(d) && decisions.Length1 == Words(d) && dp < decisions.Length0 && s < States(d) && decision < 2
      modifies decisions
      ensures forall t, w | 0 <= t < decisions.Length0 && 0 <= w < decisions.Length1 && t != dp ::
        decisions[t, w] == old(decisions[t, w])
      ensures Decision(dp, s) == if old(Decision(dp, s)) == 1 || decision == 1 then 1 else 0
      ensures forall s': nat :: s' < States(d) && s' != s ==> Decision(dp, s') == old(Decision(dp, s'))
    {
      var w, k := WordOf(d, s), Low(s, d.pack);
      ghost var was := decisions[dp, w];
      decisions[dp, w] := Or(decisions[dp, w], decision * Pow2(k));
      forall s': nat | s' < States(d)
        ensures Decision(dp, s') == if s' == s && decision == 1 then 1 else old(Decision(dp, s'))
      {
        var q := Low(s', d.pack);
        OrBit(was, decision * Pow2(k), q);
        ShiftedBit(decision, k, q);
        if s' != s {
          SameWord(d, s, s');
        }
      }
    }

    /** One new state: compare its two candidates, keep the survivor, record the decision. */
    method Settle(s: nat, m0: nat, m1: nat, ghost rx: seq<seq<nat>>)
      requires Laid() && dp < decisions.Length0 && s < States(d)
      requires AreGroups(d, rx) && |rx| > 0 && Candidate(d, start, rx, s, m0, m1)
      requires Decision(dp, s) == 0
      modifies newMetrics, decisions
      ensures newMetrics[..] == old(newMetrics[..])[s := Wrap(Metric(d, start, rx, s), Pow2(d.width))]
      ensures forall s': nat | s' < States(d) ::
        Decision(dp, s') == if s' == s then Choice(d, start, rx, s) else old(Decision(dp, s'))
      ensures forall t, w | 0 <= t < decisions.Length0 && 0 <= w < decisions.Length1 && t != dp ::
        decisions[t, w] == old(decisions[t, w])
    {
      hide *;
      LaidParts();
      CandidateDecision(d, start, rx, s, m0, m1);
      var decision := Compare(m0, m1);
      newMetrics[s] := if decision == 1 then m1 else m0;
      Record(s, decision);
    }

    lemma LaidParts()
      requires Laid()
      ensures d.nu >= 1 && Fits(d) && Shaped(d) && TableFor(branchtab, d) && branchtab != decisions
      ensures oldMetrics != newMetrics && oldMetrics.Length == newMetrics.Length == States(d)
      ensures decisions.Length1 == Words(d) && AreGroups(d, heard)
    {
    }

    // What a butterfly reads.
    lemma OldMetrics(i: nat, g: seq<nat>)
      requires Laid() && i < Pow2(d.nu - 1) && MetricsHold(oldMetrics, heard)
      ensures d.nu >= 1 && Fits(d) && Shaped(d) && TableFor(branchtab, d) && branchtab != decisions
      ensures Front(heard + [g]) == heard && Last(heard + [g]) == g
      ensures i + Pow2(d.nu - 1) < States(d) == oldMetrics.Length
      ensures oldMetrics[i] == Wrap(Metric(d, start, heard, i), Pow2(d.width))
      ensures oldMetrics[i + Pow2(d.nu - 1)] == Wrap(Metric(d, start, heard, i + Pow2(d.nu - 1)), Pow2(d.width))
    {
      hide Metric, Wrap;
      assert States(d) == 2 * Pow2(d.nu - 1);
    }

    /** The two sums of the even new state, and the branch metric they were formed with. */
    method FirstSums(i: nat, g: seq<nat>, ghost rx: seq<seq<nat>>) returns (metric: nat, m0: nat, m1: nat)
      requires Laid() && i < Pow2(d.nu - 1) && 2 * i + 1 < States(d)
      requires IsGroup(d, g) && rx == heard + [g] && AreGroups(d, rx) && MetricsHold(oldMetrics, heard)
      ensures Candidate(d, start, rx, 2 * i, m0, m1)
      ensures var c := Wrap(metric + metric - Most(d), Pow2(d.width));
        Candidate(d, start, rx, 2 * i + 1, Wrap(m0 - c, Pow2(d.width)), Wrap(m1 + c, Pow2(d.width)))
    {
      hide *;
      OldMetrics(i, g);
      var n := Pow2(d.width);
      metric := BranchMetric(i, g);
      var a, b := oldMetrics[i], oldMetrics[i + Pow2(d.nu - 1)];
      Candidates(d, start, rx, i, a, b);
      m0 := Wrap(a + metric, n);
      m1 := Wrap(b + Wrap(Most(d) - metric, n), n);
    }

    /** All four sums at once. */
    method FourSums(i: nat, g: seq<nat>, ghost rx: seq<seq<nat>>) returns (m0: nat, m1: nat, m2: nat, m3: nat)
      requires Laid() && i < Pow2(d.nu - 1) && 2 * i + 1 < States(d)
      requires IsGroup(d, g) && rx == heard + [g] && AreGroups(d, rx) && MetricsHold(oldMetrics, heard)
      ensures Candidate(d, start, rx, 2 * i, m0, m1) && Candidate(d, start, rx, 2 * i + 1, m2, m3)
    {
      hide *;
      OldMetrics(i, g);
      var n := Pow2(d.width);
      var metric := BranchMetric(i, g);
      var a, b := oldMetrics[i], oldMetrics[i + Pow2(d.nu - 1)];
      Candidates(d, start, rx, i, a, b);
      m0 := Wrap(a + metric, n);
      m1 := Wrap(b + Wrap(Most(d) - metric, n), n);
      m2 := Wrap(a + Wrap(Most(d) - metric, n), n);
      m3 := Wrap(b + metric, n);
    }

    /** One butterfly, in either of its two forms. */
    method Butterfly(i: nat, g: seq<nat>, ghost rx: seq<seq<nat>>)
      requires Laid() && dp < decisions.Length0 && i < Pow2(d.nu - 1) && 2 * i + 1 < States(d)
      requires IsGroup(d, g) && rx == heard + [g] && AreGroups(d, rx) && MetricsHold(oldMetrics, heard)
      requires Decision(dp, 2 * i) == 0 && Decision(dp, 2 * i + 1) == 0
      modifies newMetrics, decisions
      ensures newMetrics[..] == old(newMetrics[..])
        [2 * i := Wrap(Metric(d, start, rx, 2 * i), Pow2(d.width))]
        [2 * i + 1 := Wrap(Metric(d, start, rx, 2 * i + 1), Pow2(d.width))]
      ensures forall s: nat | s < States(d) ::
        Decision(dp, s) == if s == 2 * i || s == 2 * i + 1 then Choice(d, start, rx, s) else old(Decision(dp, s))
      ensures forall t, w | 0 <= t < decisions.Length0 && 0 <= w < decisions.Length1 && t != dp ::
        decisions[t, w] == old(decisions[t, w])
    {
      hide *;
      LaidParts();
      if d.four {
        var m0, m1, m2, m3 := FourSums(i, g, rx);
        Settle(2 * i, m0, m1, rx);
        Settle(2 * i + 1, m2, m3, rx);
      } else {
        var metric, m0, m1 := FirstSums(i, g, rx);
        Settle(2 * i, m0, m1, rx);
        var c: int := Wrap(metric + metric - Most(d), Pow2(d.width));
        m0 := Wrap(m0 - c, Pow2(d.width));
        m1 := Wrap(m1 + c, Pow2(d.width));
        Settle(2 * i + 1, m0, m1, rx);
      }
    }

    method ClearRow()
      requires Shaped(d) && decisions.Length1 == Words(d) && dp < decisions.Length0
      modifies decisions
      ensures forall s: nat | s < States(d) :: Decision(dp, s) == 0
      ensures forall t, w | 0 <= t < decisions.Length0 && 0 <= w < decisions.Length1 && t != dp ::
        decisions[t, w] == old(decisions[t, w])
    {
      var w := 0;
      while w < decisions.Length1
        invariant 0 <= w <= decisions.Length1
        invariant forall v :: 0 <= v < w ==> decisions[dp, v] == 0
        invariant forall t, w | 0 <= t < decisions.Length0 && 0 <= w < decisions.Length1 && t != dp ::
          decisions[t, w] == old(decisions[t, w])
      {
        decisions[dp, w] := 0;
        w := w + 1;
      }
      forall s: nat | s < States(d) ensures Decision(dp, s) == 0 {
        BitOfZero(Low(s, d.pack));
      }
    }

    /** The first `n` new metrics and decisions are done. */
    ghost predicate Done(n: nat, rx: seq<seq<nat>>)
      requires Fits(d) && AreGroups(d, rx) && |rx| > 0 && n <= States(d) == newMetrics.Length
      requires decisions.Length1 == Words(d) && dp < decisions.Length0
      reads this, newMetrics, decisions
    {
      && (forall s: nat :: s < n ==> newMetrics[s] == Wrap(Metric(d, start, rx, s), Pow2(d.width)))
      && (forall s: nat :: s < n ==> Decision(dp, s) == Choice(d, start, rx, s))
      && (forall s: nat :: n <= s < States(d) ==> Decision(dp, s) == 0)
    }

    // One butterfly extends the finished part by two states.
    method NextPair(i: nat, g: seq<nat>, ghost rx: seq<seq<nat>>)
      requires Laid() && dp < decisions.Length0 && i < Pow2(d.nu - 1) && 2 * i + 2 <= States(d)
      requires IsGroup(d, g) && rx == heard + [g] && AreGroups(d, rx) && MetricsHold(oldMetrics, heard)
      requires Done(2 * i, rx)
      modifies newMetrics, decisions
      ensures Done(2 * i + 2, rx)
      ensures forall t, w | 0 <= t < decisions.Length0 && 0 <= w < decisions.Length1 && t != dp ::
        decisions[t, w] == old(decisions[t, w])
    {
      hide Metric, Choice, Wrap, Decision, Fits, Shaped, Laid, MetricsHold;
      LaidParts();
      ghost var was := newMetrics[..];
      Butterfly(i, g, rx);
      assert newMetrics[..] == was[2 * i := Wrap(Metric(d, start, rx, 2 * i), Pow2(d.width))]
        [2 * i + 1 := Wrap(Metric(d, start, rx, 2 * i + 1), Pow2(d.width))];
      forall s: nat | s < 2 * i + 2
        ensures newMetrics[s] == Wrap(Metric(d, start, rx, s), Pow2(d.width))
      {
        assert newMetrics[s] == newMetrics[..][s];
        assert s < 2 * i ==> was[s] == Wrap(Metric(d, start, rx, s), Pow2(d.width));
      }
    }

    /** All butterflies of one step. */
    method Butterflies(g: seq<nat>, ghost rx: seq<seq<nat>>)
      requires Laid() && dp < decisions.Length0
      requires IsGroup(d, g) && rx == heard + [g] && AreGroups(d, rx) && MetricsHold(oldMetrics, heard)
      modifies newMetrics, decisions
      ensures Laid() && newMetrics.Length == States(d) && Done(States(d), rx)
      ensures forall t, w | 0 <= t < decisions.Length0 && 0 <= w < decisions.Length1 && t != dp ::
        decisions[t, w] == old(decisions[t, w])
    {
      hide Metric, Choice, Wrap, Decision, Fits, Shaped, Pow2, MetricsHold, TableFor;
      LaidParts();
      HalfStates(d);
      ClearRow();
      var i := 0;
      while i < Pow2(d.nu - 1)
        invariant 0 <= i <= Pow2(d.nu - 1)
        invariant MetricsHold(oldMetrics, heard)
        invariant Done(2 * i, rx)
        invariant forall t, w | 0 <= t < decisions.Length0 && 0 <= w < decisions.Length1 && t != dp ::
          decisions[t, w] == old(decisions[t, w])
      {
        NextPair(i, g, rx);
        i := i + 1;
      }
    }

    // Rows written before the current one keep their meaning.
    twostate lemma RowsKept(rx: seq<seq<nat>>)
      requires Shaped(d) && decisions.Length1 == Words(d) && old(dp) <= |rx| && old(dp) < decisions.Length0
      requires AreGroups(d, rx) && start == old(start)
      requires forall t, w | 0 <= t < decisions.Length0 && 0 <= w < decisions.Length1 && t != old(dp) ::
        decisions[t, w] == old(decisions[t, w])
      requires forall t: nat :: t < old(dp) ==> old(RowHolds(t, rx))
      ensures forall t: nat :: t < old(dp) ==> RowHolds(t, rx)
    {
      hide Choice, Shaped, AreGroups;
      forall t: nat | t < old(dp) ensures RowHolds(t, rx) {
        assert old(RowHolds(t, rx));
        forall s: nat | s < States(d) ensures Decision(t, s) == old(Decision(t, s)) {
        }
      }
    }

    // The same rows, read as decisions on a longer history.
    lemma RowsExtend(rx: seq<seq<nat>>, g: seq<nat>)
      requires Shaped(d) && decisions.Length1 == Words(d) && dp <= decisions.Length0 && dp == |rx|
      requires AreGroups(d, rx) && IsGroup(d, g)
      requires forall t: nat :: t < dp ==> RowHolds(t, rx)
      ensures AreGroups(d, rx + [g]) && forall t: nat :: t < dp ==> RowHolds(t, rx + [g])
    {
      hide Choice, Decision, Shaped;
      forall t: nat | t < dp ensures RowHolds(t, rx + [g]) {
        assert RowHolds(t, rx);
        assert (rx + [g])[..t + 1] == rx[..t + 1];
      }
    }

    lemma DoneHolds(rx: seq<seq<nat>>)
      requires Fits(d) && AreGroups(d, rx) && States(d) == newMetrics.Length && dp + 1 == |rx|
      requires decisions.Length1 == Words(d) && dp < decisions.Length0 && Done(States(d), rx)
      ensures MetricsHold(newMetrics, rx) && RowHolds(dp, rx)
    {
      assert rx[..dp + 1] == rx;
      hide Metric, Choice, Wrap, Decision, Fits;
    }

    // New metrics and decisions for one group, before the buffers change places.
    method Compute(g: seq<nat>, ghost rx: seq<seq<nat>>)
      requires Valid() && dp < decisions.Length0 && IsGroup(d, g) && rx == heard + [g] && AreGroups(d, rx)
      requires forall t: nat :: t < dp ==> RowHolds(t, rx)
      modifies newMetrics, decisions
      ensures Laid() && dp < decisions.Length0 && MetricsHold(newMetrics, rx)
      ensures forall t: nat :: t <= dp ==> RowHolds(t, rx)
    {
      assert Laid() && MetricsHold(oldMetrics, heard) && dp == |heard|;
      hide *;
      LaidParts();
      Butterflies(g, rx);
      LaidParts();
      RowsKept(rx);
      DoneHolds(rx);
    }

    /** One received group: every butterfly, then the buffers change places. */
    method Step(g: seq<nat>)
      requires Valid() && dp < decisions.Length0 && IsGroup(d, g)
      modifies this, metrics1, metrics2, decisions
      ensures Valid() && start == old(start) && heard == old(heard) + [g]
    {
      hide Metric, Choice, Wrap, Decision, Fits, Shaped, TableFor, States, RowHolds, MetricsHold;
      LaidParts();
      ghost var rx := heard + [g];
      RowsExtend(heard, g);
      Compute(g, rx);
      oldMetrics, newMetrics := newMetrics, oldMetrics;
      dp := dp + 1;
      heard := rx;
      assert forall t: nat :: t < dp ==> RowHolds(t, heard);
    }

    /** `update_viterbi*_blk`: process the symbols of `nbits` bits. */
    method Update(syms: seq<nat>, nbits: nat)
      requires Valid() && dp + nbits <= decisions.Length0
      requires AreSymbols(syms) && |syms| >= nbits * |d.polys|
      modifies this, metrics1, metrics2, decisions
      ensures Valid() && start == old(start) && heard == old(heard) + Groups(syms, |d.polys|, nbits)
    {
      hide *;
      var rest := syms;
      var left: nat := nbits;
      assert heard == old(heard) + [];
      ValidParts();
      while left != 0
        invariant left <= nbits && Valid() && start == old(start) && dp + left <= decisions.Length0
        invariant AreSymbols(rest) && |rest| >= left * |d.polys|
        invariant heard + Groups(rest, |d.polys|, left) == old(heard) + Groups(syms, |d.polys|, nbits)
        decreases left
      {
        GroupsStep(d, rest, left);
        var g := rest[..|d.polys|];
        ghost var h := heard;
        Step(g);
        ValidParts();
        rest := rest[|d.polys|..];
        left := left - 1;
        Regroup(h, g, Groups(rest, |d.polys|, left));
      }
      GroupsNone(rest, |d.polys|);
      assert heard + [] == heard;
    }

    // How far the decoder has come.
    lemma ValidParts()
      requires Valid()
      ensures Built() && Laid() && Shaped(d) && dp == |heard| && dp <= decisions.Length0 && AreGroups(d, heard)
      ensures decisions.Length1 == Words(d) && start < States(d)
    {
    }

    // What the loop of chainback finds in the decision rows.
    lemma RowBit(e: nat, nbits: nat, n: nat)
      requires Valid() && n < nbits && nbits + d.nu <= dp && e < States(d) && AreGroups(d, heard[..nbits + d.nu])
      ensures Shaped(d) && decisions.Length1 == Words(d) && dp <= decisions.Length0
      ensures var bits := Survivor(d, start, heard[..nbits + d.nu], e).bits;
        var x := Value(bits[n + 1..n + 1 + d.nu]);
        x < States(d) && Decision(n + d.nu, x) == bits[n]
    {
      ValidParts();
      assert RowHolds(n + d.nu, heard);
      var rx := heard[..nbits + d.nu];
      assert rx[..n + 1 + d.nu] == heard[..n + 1 + d.nu];
      hide Valid, Choice, Survivor, Value, Decision;
      TraceBit(d, start, rx, e, n);
    }

    /** The path bits from bit n on that the decision rows lead to, back from end state e. */
    ghost function Trace(n: nat, nbits: nat, e: nat): (z: seq<nat>)
      requires Shaped(d) && decisions.Length1 == Words(d) && n <= nbits && nbits + d.nu <= decisions.Length0
      reads decisions
      ensures |z| == nbits - n + d.nu && AreBits(z)
      decreases nbits - n
    {
      if n == nbits then BitsOf(e, d.nu) else
        var y := Trace(n + 1, nbits, e);
        ValueWindow(y[..d.nu], 0);
        [Decision(n + d.nu, Value(y[..d.nu]))] + y
    }

    lemma TraceStep(n: nat, nbits: nat, e: nat)
      requires Shaped(d) && decisions.Length1 == Words(d) && n < nbits && nbits + d.nu <= decisions.Length0
      ensures var y := Trace(n + 1, nbits, e);
        && Value(y[..d.nu]) < States(d)
        && Trace(n, nbits, e) == [Decision(n + d.nu, Value(y[..d.nu]))] + y
    {
      hide Decision, Value, BitsOf;
      ValueWindow(Trace(n + 1, nbits, e)[..d.nu], 0);
    }

    // A trace is the end of every longer one.
    lemma {:induction false} TraceSuffix(n: nat, nbits: nat, e: nat)
      requires Shaped(d) && decisions.Length1 == Words(d) && n <= nbits && nbits + d.nu <= decisions.Length0
      ensures Trace(0, nbits, e)[n..] == Trace(n, nbits, e)
    {
      if n > 0 {
        hide *;
        TraceSuffix(n - 1, nbits, e);
        TraceStep(n - 1, nbits, e);
        var t := Trace(0, nbits, e);
        assert t[n..] == t[n - 1..][1..];
      }
    }

    // What the loop of chainback finds in the row of bit n.
    lemma TraceRow(n: nat, nbits: nat, e: nat)
      requires Shaped(d) && decisions.Length1 == Words(d) && n < nbits && nbits + d.nu <= decisions.Length0
      ensures var bits := Trace(0, nbits, e);
        var x := Value(bits[n + 1..n + 1 + d.nu]);
        x < States(d) && Decision(n + d.nu, x) == bits[n]
    {
      hide *;
      TraceSuffix(n, nbits, e);
      TraceSuffix(n + 1, nbits, e);
      TraceStep(n, nbits, e);
      var bits, y := Trace(0, nbits, e), Trace(n + 1, nbits, e);
      assert bits[n + 1..][..d.nu] == bits[n + 1..n + 1 + d.nu];
      assert bits[n] == bits[n..][0];
    }

    // Rows written for the frame lead along the survivor.
    lemma {:induction false} TraceIsSurvivor(n: nat, nbits: nat, e: nat)
      requires Valid() && n <= nbits && nbits + d.nu <= dp && e < States(d) && AreGroups(d, heard[..nbits + d.nu])
      ensures Shaped(d) && decisions.Length1 == Words(d) && dp <= decisions.Length0
      ensures Trace(n, nbits, e) == Survivor(d, start, heard[..nbits + d.nu], e).bits[n..]
      decreases nbits - n
    {
      hide *;
      ValidParts();
      var rx := heard[..nbits + d.nu];
      var bits := Survivor(d, start, rx, e).bits;
      SurvivorOptimal(d, start, rx, e);
      CheapestParts(d, start, rx, e, Survivor(d, start, rx, e));
      if n == nbits {
        TraceEnd(nbits, e);
        EndBits(d, bits[n..], e);
      } else {
        TraceIsSurvivor(n + 1, nbits, e);
        TraceStep(n, nbits, e);
        RowBit(e, nbits, n);
        assert bits[n + 1..][..d.nu] == bits[n + 1..n + 1 + d.nu];
        assert bits[n..] == [bits[n]] + bits[n + 1..];
      }
    }

    lemma TraceEnd(nbits: nat, e: nat)
      requires Shaped(d) && decisions.Length1 == Words(d) && nbits + d.nu <= decisions.Length0
      ensures Trace(nbits, nbits, e) == BitsOf(e, d.nu)
    {
    }

    /** `chainback_viterbi*`: decode `nbits` bits backwards from the state after the tail, along whatever the rows
        hold. When all these rows were written for the current frame, that is a cheapest path. */
    method Chainback(data: array<nat>, nbits: nat, endstate: nat)
      requires Valid() && nbits + d.nu <= decisions.Length0 && 8 * data.Length >= nbits
      requires data != metrics1 && data != metrics2
      modifies data
      ensures Valid()
      ensures var bits := Trace(0, nbits, Low(endstate, d.nu));
        && (forall j: nat | 8 * j < nbits :: data[j] == Byte(d, bits, j))
        && (forall j: nat | 8 * j >= nbits && j < data.Length :: data[j] == old(data[j]))
      ensures nbits + d.nu <= dp ==>
        var rx, e := heard[..nbits + d.nu], Low(endstate, d.nu);
        && AreGroups(d, rx)
        && Trace(0, nbits, e) == Survivor(d, start, rx, e).bits
        && Cheapest(d, start, rx, e, Survivor(d, start, rx, e))
    {
      hide *;
      ValidParts();
      var e := Low(endstate, d.nu);
      StatesIsPow2(d);
      if nbits + d.nu <= dp {
        ghost var rx := heard[..nbits + d.nu];
        PrefixGroups(d, heard, nbits + d.nu);
        SurvivorOptimal(d, start, rx, e);
        TraceIsSurvivor(0, nbits, e);
      }
      ghost var bits := Trace(0, nbits, e);
      TraceSuffix(nbits, nbits, e);
      TraceEnd(nbits, e);
      EndValue(e, d.nu);
      var reg := e * Pow2(Reach(d) - d.nu);
      WindowStart(d, bits);
      var n: nat := nbits;
      while n != 0
        invariant n <= nbits && Valid() && reg == Window(d, bits, n) && Trace(0, nbits, e) == bits
        invariant forall j: nat | n <= 8 * j < nbits :: data[j] == Byte(d, bits, j)
        invariant forall j: nat | 8 * j >= nbits && j < data.Length :: data[j] == old(data[j])
        decreases n
      {
        WindowState(d, bits, n);
        n := n - 1;
        TraceRow(n, nbits, e);
        var k := Decision(n + d.nu, Shr(reg, Reach(d) - d.nu));
        WindowBack(d, bits, n);
        reg := Or(Shr(reg, 1), k * Pow2(Reach(d) - 1));
        data[n / 8] := Shr(reg, Reach(d) - 8);
        if n % 8 == 0 {
          WindowByte(d, bits, n / 8);
        }
      }
    }

    /** `init_viterbi*`: a new frame from a known encoder state. */
    method Init(startingState: int)
      requires Built()
      modifies this, metrics1
      ensures Valid() && heard == [] && start == Wrap(startingState, States(d)) && dp == 0
      ensures oldMetrics == metrics1
      ensures forall s: nat | s < States(d) :: metrics1[s] == if s == start then 0 else d.bias
    {
      hide Pow2, Wrap, TableFor, Fits, States;
      assert Fits(d);
      BiasFits(d);
      var known := Wrap(startingState, States(d));
      var i := 0;
      while i < States(d)
        invariant 0 <= i <= States(d)
        invariant forall s: nat :: s < i ==> metrics1[s] == d.bias
      {
        metrics1[i] := d.bias;
        i := i + 1;
      }
      oldMetrics := metrics1;
      newMetrics := metrics2;
      dp := 0;
      oldMetrics[known] := 0;
      start := known;
      heard := [];
      assert MetricsHold(oldMetrics, heard);
    }

    /** `create_viterbi*`: room for `len` bits and their tail. */
    constructor (design: Design, table: array2<nat>, len: nat)
      requires Fits(design) && TableFor(table, design)
      ensures Valid() && d == design && branchtab == table && decisions.Length0 == len + design.nu
      ensures heard == [] && start == 0 && dp == 0
      ensures oldMetrics == metrics1 && forall s: nat | s < States(d) :: metrics1[s] == if s == 0 then 0 else d.bias
      ensures fresh(metrics1) && fresh(metrics2) && fresh(decisions)
    {
      d := design;
      branchtab := table;
      metrics1 := new nat[States(design)];
      metrics2 := new nat[States(design)];
      decisions := new nat[len + design.nu, Words(design)];
      oldMetrics := metrics1;
      newMetrics := metrics2;
      new;
      hide *;
      assert Built() by {
        FreshlyBuilt();
      }
      Init(0);
      WrapUnique(0, States(d), 0, 0);
    }

    lemma FreshlyBuilt()
      requires Fits(d) && TableFor(branchtab, d) && branchtab != decisions
      requires metrics1 != metrics2 && metrics1.Length == metrics2.Length == States(d)
      requires decisions.Length1 == Words(d)
      ensures Built()
    {
    }
  }
}
