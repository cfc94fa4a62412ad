/** Paths through the trellis: the metric recursion, its optimality, and the survivor path. */
module Paths {
  import opened Bits
  import opened Trellis

  ghost predicate AreGroups(d: Design, rx: seq<seq<nat>>) {
    forall t :: 0 <= t < |rx| ==> IsGroup(d, rx[t])
  }

  predicate AreBits(u: seq<nat>) {
    forall t :: 0 <= t < |u| ==> u[t] < 2
  }

  function Front<T>(s: seq<T>): seq<T>
    requires |s| > 0
  {
    s[..|s| - 1]
  }

  function Last<T>(s: seq<T>): T
    requires |s| > 0
  {
    s[|s| - 1]
  }

  /** The encoder's state after shifting in the bits `u`, newest bit at the low end. */
  function StateAfter(d: Design, s0: nat, u: seq<nat>): (s: nat)
    requires s0 < States(d)
    ensures s < States(d)
  {
    if |u| == 0 then s0 else Low(2 * StateAfter(d, s0, Front(u)) + Last(u), d.nu)
  }

  /** The encoder's register while it sends the last group of `u`. */
  function Register(d: Design, s0: nat, u: seq<nat>): nat
    requires s0 < States(d) && |u| > 0
  {
    2 * StateAfter(d, s0, Front(u)) + Last(u)
  }

  /** The bias of a start state: nothing for the known one. */
  function Initial(d: Design, start: nat, s: nat): nat {
    if s == start then 0 else d.bias
  }

  /** Total cost of a path: start bias plus the branch costs of every step. */
  function Cost(d: Design, start: nat, s0: nat, u: seq<nat>, rx: seq<seq<nat>>): nat
    requires s0 < States(d) && |u| == |rx| && AreGroups(d, rx)
  {
    if |u| == 0 then Initial(d, start, s0) else
      Cost(d, start, s0, Front(u), Front(rx)) + Branch(d, Last(rx), Register(d, s0, u))
  }

  /** The register on the branch into state `s` from its lower (0) or upper (1) predecessor. */
  function Entry(d: Design, s: nat, k: nat): nat {
    s + k * States(d)
  }

  /** The candidate metric of `s` through one of its two predecessors. */
  function Through(d: Design, start: nat, rx: seq<seq<nat>>, s: nat, k: nat): nat
    requires Shaped(d) && AreGroups(d, rx) && s < States(d) && |rx| > 0 && k < 2
    decreases |rx|, 0
  {
    EntryParts(d, s, k);
    Metric(d, start, Front(rx), Entry(d, s, k) / 2) + Branch(d, Last(rx), Entry(d, s, k))
  }

  /** The path metric of state `s` after the groups `rx`. */
  function Metric(d: Design, start: nat, rx: seq<seq<nat>>, s: nat): nat
    requires Shaped(d) && AreGroups(d, rx) && s < States(d)
    decreases |rx|, 1
  {
    if |rx| == 0 then Initial(d, start, s) else
      var m0, m1 := Through(d, start, rx, s, 0), Through(d, start, rx, s, 1);
      if m0 <= m1 then m0 else m1
  }

  /** The decision bit stored for `s`: whether the upper predecessor wins, under the decoder's tie rule. */
  function Choice(d: Design, start: nat, rx: seq<seq<nat>>, s: nat): (k: nat)
    requires Shaped(d) && AreGroups(d, rx) && s < States(d) && |rx| > 0
    ensures k < 2
  {
    var m0, m1 := Through(d, start, rx, s, 0), Through(d, start, rx, s, 1);
    if m0 > m1 || (m0 == m1 && !d.strict) then 1 else 0
  }

  lemma HalfOf(i: nat, b: nat, m: nat)
    requires b < 2
    ensures (2 * (i + m) + b) / 2 == i + m
    ensures (2 * (i + m) + b) % 2 == b
  {
  }

  lemma EntryParts(d: Design, s: nat, k: nat)
    requires Shaped(d) && s < States(d) && k < 2
    ensures IsRegister(d, Entry(d, s, k)) && Low(Entry(d, s, k), d.nu) == s && Shr(Entry(d, s, k), d.nu) == k
    ensures Entry(d, s, k) / 2 == s / 2 + k * Pow2(d.nu - 1) && Entry(d, s, k) / 2 < States(d)
    ensures Entry(d, s, k) % 2 == s % 2
  {
    var half := Pow2(d.nu - 1);
    assert States(d) == 2 * half;
    var m := k * half;
    assert k * (2 * half) == 2 * m;
    HalfOf(s / 2, s % 2, m);
    assert k == 0 ==> m == 0;
    assert k == 1 ==> m == half;
    PackParts(s, k, d.nu);
  }

  lemma {:induction false} PackParts(s: nat, k: nat, n: nat)
    requires s < Pow2(n)
    ensures Low(s + k * Pow2(n), n) == s && Shr(s + k * Pow2(n), n) == k
  {
    if n != 0 {
      assert k * Pow2(n) == 2 * (k * Pow2(n - 1));
      HalfOf(s / 2, s % 2, k * Pow2(n - 1));
      PackParts(s / 2, k, n - 1);
    }
  }

  // A register is the entry into its own next state.
  lemma RegisterEntry(d: Design, sr: nat)
    requires Shaped(d) && IsRegister(d, sr)
    ensures Shr(sr, d.nu) < 2 && Entry(d, Low(sr, d.nu), Shr(sr, d.nu)) == sr && sr / 2 < States(d)
  {
    RegisterParts(d.nu, sr);
  }

  lemma MetricBelow(d: Design, start: nat, rx: seq<seq<nat>>, s: nat, k: nat)
    requires Shaped(d) && AreGroups(d, rx) && s < States(d) && |rx| > 0 && k < 2
    ensures Metric(d, start, rx, s) <= Through(d, start, rx, s, k)
    ensures Metric(d, start, rx, s) == Through(d, start, rx, s, Choice(d, start, rx, s))
  {
  }

  lemma PathStep(d: Design, start: nat, s0: nat, u: seq<nat>, rx: seq<seq<nat>>)
    requires s0 < States(d) && AreBits(u) && |u| == |rx| > 0 && AreGroups(d, rx)
    ensures var sr := Register(d, s0, u);
      && sr / 2 == StateAfter(d, s0, Front(u)) && sr % 2 == Last(u) && IsRegister(d, sr)
      && StateAfter(d, s0, u) == Low(sr, d.nu)
      && Cost(d, start, s0, u, rx) == Cost(d, start, s0, Front(u), Front(rx)) + Branch(d, Last(rx), sr)
  {
    hide Branch, Low;
  }

  lemma ThroughValue(d: Design, start: nat, rx: seq<seq<nat>>, s: nat, k: nat, sr: nat)
    requires Shaped(d) && AreGroups(d, rx) && s < States(d) && |rx| > 0 && k < 2
    requires Entry(d, s, k) == sr
    ensures sr / 2 < States(d)
    ensures Through(d, start, rx, s, k) == Metric(d, start, Front(rx), sr / 2) + Branch(d, Last(rx), sr)
  {
    hide Metric, Branch;
    EntryParts(d, s, k);
  }

  /** No path into a state costs less than the metric of that state. */
  lemma {:induction false} MetricIsLowerBound(d: Design, start: nat, s0: nat, u: seq<nat>, rx: seq<seq<nat>>)
    requires Shaped(d) && s0 < States(d) && AreBits(u) && |u| == |rx| && AreGroups(d, rx)
    ensures Metric(d, start, rx, StateAfter(d, s0, u)) <= Cost(d, start, s0, u, rx)
    decreases |u|
  {
    if |u| != 0 {
      MetricIsLowerBound(d, start, s0, Front(u), Front(rx));
      PathStep(d, start, s0, u, rx);
      var sr := Register(d, s0, u);
      RegisterEntry(d, sr);
      var s, k := Low(sr, d.nu), Shr(sr, d.nu);
      ThroughValue(d, start, rx, s, k, sr);
      MetricBelow(d, start, rx, s, k);
      hide *;
    }
  }

  /** A path: its start state and its input bits. */
  datatype Path = Path(from: nat, bits: seq<nat>)

  /** The path found by following decisions back from state `s`. */
  function Survivor(d: Design, start: nat, rx: seq<seq<nat>>, s: nat): (p: Path)
    requires Shaped(d) && AreGroups(d, rx) && s < States(d)
    ensures p.from < States(d) && |p.bits| == |rx| && AreBits(p.bits)
    decreases |rx|
  {
    if |rx| == 0 then Path(s, []) else
      var k := Choice(d, start, rx, s);
      EntryParts(d, s, k);
      var p := Survivor(d, start, Front(rx), Entry(d, s, k) / 2);
      Path(p.from, p.bits + [s % 2])
  }

  lemma {:induction false} SurvivorCost(d: Design, start: nat, rx: seq<seq<nat>>, s: nat)
    requires Shaped(d) && AreGroups(d, rx) && s < States(d)
    ensures var p := Survivor(d, start, rx, s);
      StateAfter(d, p.from, p.bits) == s && Cost(d, start, p.from, p.bits, rx) == Metric(d, start, rx, s)
    decreases |rx|
  {
    if |rx| != 0 {
      var k := Choice(d, start, rx, s);
      EntryParts(d, s, k);
      var sr := Entry(d, s, k);
      SurvivorCost(d, start, Front(rx), sr / 2);
      var q := Survivor(d, start, Front(rx), sr / 2);
      var p := Survivor(d, start, rx, s);
      SurvivorStep(d, start, rx, s);
      ThroughValue(d, start, rx, s, k, sr);
      MetricBelow(d, start, rx, s, k);
      hide *;
      PathStep(d, start, p.from, p.bits, rx);
      SameRegister(sr, Register(d, p.from, p.bits));
    }
  }

  lemma SameRegister(a: nat, b: nat)
    requires a / 2 == b / 2 && a % 2 == b % 2
    ensures a == b
  {
  }

  lemma SurvivorStep(d: Design, start: nat, rx: seq<seq<nat>>, s: nat)
    requires Shaped(d) && AreGroups(d, rx) && s < States(d) && |rx| > 0
    ensures var sr := Entry(d, s, Choice(d, start, rx, s));
      && sr / 2 < States(d)
      && var p, q := Survivor(d, start, rx, s), Survivor(d, start, Front(rx), sr / 2);
      p.from == q.from && |p.bits| > 0 && Front(p.bits) == q.bits && Last(p.bits) == s % 2
  {
    hide Metric, Choice;
    EntryParts(d, s, Choice(d, start, rx, s));
  }

  ghost predicate PathTo(d: Design, p: Path, n: nat, s: nat) {
    p.from < States(d) && AreBits(p.bits) && |p.bits| == n && StateAfter(d, p.from, p.bits) == s
  }

  /** `p` leads to `s` and no encoder path to `s` costs less. */
  ghost predicate Cheapest(d: Design, start: nat, rx: seq<seq<nat>>, s: nat, p: Path)
    requires AreGroups(d, rx)
  {
    && PathTo(d, p, |rx|, s)
    && forall q: Path :: PathTo(d, q, |rx|, s) ==>
      Cost(d, start, p.from, p.bits, rx) <= Cost(d, start, q.from, q.bits, rx)
  }

  /** Maximum likelihood: the survivor into a state has the least cost of all encoder paths into it, and
      that cost is the state's metric. */
  lemma SurvivorOptimal(d: Design, start: nat, rx: seq<seq<nat>>, s: nat)
    requires Shaped(d) && AreGroups(d, rx) && s < States(d)
    ensures var p := Survivor(d, start, rx, s);
      Cheapest(d, start, rx, s, p) && Cost(d, start, p.from, p.bits, rx) == Metric(d, start, rx, s)
  {
    SurvivorCost(d, start, rx, s);
    hide Metric, Cost, Survivor, StateAfter;
    forall q: Path | PathTo(d, q, |rx|, s)
      ensures Metric(d, start, rx, s) <= Cost(d, start, q.from, q.bits, rx)
    {
      MetricIsLowerBound(d, start, q.from, q.bits, rx);
    }
  }

  // ----- what the start bias does

  /** The branch costs of a path alone. */
  function Raw(d: Design, s0: nat, u: seq<nat>, rx: seq<seq<nat>>): nat
    requires s0 < States(d) && |u| == |rx| && AreGroups(d, rx)
  {
    if |u| == 0 then 0 else Raw(d, s0, Front(u), Front(rx)) + Branch(d, Last(rx), Register(d, s0, u))
  }

  lemma {:induction false} CostIsRaw(d: Design, start: nat, s0: nat, u: seq<nat>, rx: seq<seq<nat>>)
    requires s0 < States(d) && |u| == |rx| && AreGroups(d, rx)
    ensures Cost(d, start, s0, u, rx) == Raw(d, s0, u, rx) + (if s0 == start then 0 else d.bias)
  {
    hide Branch, Register;
    if |u| != 0 {
      CostIsRaw(d, start, s0, Front(u), Front(rx));
    }
  }

  /** The survivor has the least sum of branch costs, where a path that does not come from the known state counts
      `bias` more; so it leaves the known state only for a path that is at least `bias` cheaper. */
  lemma SurvivorLeastRaw(d: Design, start: nat, rx: seq<seq<nat>>, s: nat, q: Path)
    requires Shaped(d) && AreGroups(d, rx) && s < States(d) && PathTo(d, q, |rx|, s)
    ensures var p := Survivor(d, start, rx, s);
      && PathTo(d, p, |rx|, s)
      && Raw(d, p.from, p.bits, rx) + (if p.from == start then 0 else d.bias)
           <= Raw(d, q.from, q.bits, rx) + (if q.from == start then 0 else d.bias)
      && (p.from != start && q.from == start ==> Raw(d, p.from, p.bits, rx) + d.bias <= Raw(d, q.from, q.bits, rx))
  {
    hide Raw, Cost, Survivor, StateAfter;
    var p := Survivor(d, start, rx, s);
    SurvivorOptimal(d, start, rx, s);
    CostIsRaw(d, start, p.from, p.bits, rx);
    CostIsRaw(d, start, q.from, q.bits, rx);
  }
}
