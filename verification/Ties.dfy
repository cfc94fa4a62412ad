/** Which of several cheapest paths the decoder follows. */
module Ties {
  import opened Bits
  import opened Trellis
  import opened Paths

  /** After step t both paths are in the same state, and from there on they take the same input bits. */
  ghost predicate MergedFrom(d: Design, p: Path, q: Path, t: nat)
    requires p.from < States(d) && q.from < States(d) && t <= |p.bits| == |q.bits|
  {
    && StateAfter(d, p.from, p.bits[..t]) == StateAfter(d, q.from, q.bits[..t])
    && p.bits[t..] == q.bits[t..]
  }

  /** At step t the paths p and q come into the same state from different states: p from the lower numbered one
      under the strict rule, from the higher numbered one otherwise. */
  ghost predicate Preferred(d: Design, p: Path, q: Path, t: nat)
    requires p.from < States(d) && q.from < States(d) && t < |p.bits| == |q.bits|
  {
    && MergedFrom(d, p, q, t + 1)
    && var x, y := StateAfter(d, p.from, p.bits[..t]), StateAfter(d, q.from, q.bits[..t]);
       if d.strict then x < y else y < x
  }

  lemma CheapestCost(d: Design, start: nat, rx: seq<seq<nat>>, s: nat, q: Path)
    requires Shaped(d) && AreGroups(d, rx) && s < States(d) && Cheapest(d, start, rx, s, q)
    ensures PathTo(d, q, |rx|, s) && Cost(d, start, q.from, q.bits, rx) == Metric(d, start, rx, s)
  {
    hide Cost, Metric, Survivor, StateAfter;
    SurvivorOptimal(d, start, rx, s);
  }

  lemma CostCheapest(d: Design, start: nat, rx: seq<seq<nat>>, s: nat, q: Path)
    requires Shaped(d) && AreGroups(d, rx) && s < States(d) && PathTo(d, q, |rx|, s)
    requires Cost(d, start, q.from, q.bits, rx) == Metric(d, start, rx, s)
    ensures Cheapest(d, start, rx, s, q)
  {
    hide Cost, Metric, StateAfter;
    forall r: Path | PathTo(d, r, |rx|, s)
      ensures Cost(d, start, q.from, q.bits, rx) <= Cost(d, start, r.from, r.bits, rx)
    {
      MetricIsLowerBound(d, start, r.from, r.bits, rx);
    }
  }

  // A cheapest path is cheapest up to its last step, and enters its end through a predecessor that is no worse.
  lemma LastStep(d: Design, start: nat, rx: seq<seq<nat>>, s: nat, q: Path) returns (k: nat)
    requires Shaped(d) && AreGroups(d, rx) && |rx| > 0 && s < States(d) && Cheapest(d, start, rx, s, q)
    ensures k < 2 && |q.bits| == |rx| && q.from < States(d) && Last(q.bits) == s % 2
    ensures var x := Entry(d, s, k) / 2;
      && x < States(d) && StateAfter(d, q.from, Front(q.bits)) == x
      && Cheapest(d, start, Front(rx), x, Path(q.from, Front(q.bits)))
      && Through(d, start, rx, s, k) == Metric(d, start, rx, s)
  {
    CheapestCost(d, start, rx, s, q);
    var sr := Register(d, q.from, q.bits);
    PathStep(d, start, q.from, q.bits, rx);
    RegisterEntry(d, sr);
    k := Shr(sr, d.nu);
    EntryParts(d, s, k);
    ThroughValue(d, start, rx, s, k, sr);
    MetricBelow(d, start, rx, s, k);
    MetricIsLowerBound(d, start, q.from, Front(q.bits), Front(rx));
    hide Cost, Metric, Through, StateAfter, Branch, Low, Shr, Cheapest;
    CostCheapest(d, start, Front(rx), sr / 2, Path(q.from, Front(q.bits)));
  }

  lemma TieChoice(d: Design, start: nat, rx: seq<seq<nat>>, s: nat, k: nat)
    requires Shaped(d) && AreGroups(d, rx) && |rx| > 0 && s < States(d) && k < 2
    requires Through(d, start, rx, s, k) == Metric(d, start, rx, s) && k != Choice(d, start, rx, s)
    ensures Choice(d, start, rx, s) == (if d.strict then 0 else 1) && k == (if d.strict then 1 else 0)
  {
    hide Through;
  }

  lemma EntriesApart(d: Design, s: nat)
    requires Shaped(d) && s < States(d)
    ensures Entry(d, s, 0) / 2 < Entry(d, s, 1) / 2
  {
    EntryParts(d, s, 0);
    EntryParts(d, s, 1);
  }

  lemma FrontSlices(u: seq<nat>, v: seq<nat>, t: nat)
    requires |u| == |v| > t && Last(u) == Last(v) && Front(u)[t..] == Front(v)[t..]
    ensures u[t..] == v[t..] && Front(u)[..t] == u[..t] && Front(v)[..t] == v[..t]
  {
    assert u == Front(u) + [Last(u)] && v == Front(v) + [Last(v)];
    assert u[t..] == Front(u)[t..] + [Last(u)] && v[t..] == Front(v)[t..] + [Last(v)];
  }

  /** Of several cheapest paths the decoder follows the one that, where it last merges with any other of them,
      comes from the lower numbered state if the comparison is strict, and from the higher numbered one if not. */
  lemma {:induction false} TieBreak(d: Design, start: nat, rx: seq<seq<nat>>, s: nat, q: Path) returns (t: nat)
    requires Shaped(d) && AreGroups(d, rx) && s < States(d)
    requires Cheapest(d, start, rx, s, q) && q != Survivor(d, start, rx, s)
    ensures var p := Survivor(d, start, rx, s);
      q.from < States(d) && t < |rx| == |p.bits| == |q.bits| && Preferred(d, p, q, t)
    decreases |rx|
  {
    hide *;
    var p := Survivor(d, start, rx, s);
    OnlyEmpty(d, start, rx, s, q);
    SurvivorStepParts(d, start, rx, s);
    var c := Choice(d, start, rx, s);
    var k := LastStep(d, start, rx, s, q);
    SplitLast(p.bits);
    SplitLast(q.bits);
    if k == c {
      var x := Entry(d, s, k) / 2;
      var p', q' := Survivor(d, start, Front(rx), x), Path(q.from, Front(q.bits));
      FrontGroups(d, rx);
      t := TieBreak(d, start, Front(rx), x, q');
      LiftPreferred(d, p, q, p', q', t);
    } else {
      t := |rx| - 1;
      TieChoice(d, start, rx, s, k);
      EntriesApart(d, s);
      MergeHere(d, p, q, s);
    }
  }

  // Nothing but the empty path leads from nowhere.
  lemma OnlyEmpty(d: Design, start: nat, rx: seq<seq<nat>>, s: nat, q: Path)
    requires Shaped(d) && AreGroups(d, rx) && s < States(d)
    requires Cheapest(d, start, rx, s, q) && q != Survivor(d, start, rx, s)
    ensures |rx| > 0 && q.from < States(d) && |q.bits| == |rx| && StateAfter(d, q.from, q.bits) == s
  {
    CheapestCost(d, start, rx, s, q);
    assert |q.bits| == 0 ==> q.bits == [];
  }

  // The survivor one step earlier.
  lemma SurvivorStepParts(d: Design, start: nat, rx: seq<seq<nat>>, s: nat)
    requires Shaped(d) && AreGroups(d, rx) && |rx| > 0 && s < States(d)
    ensures var p, x := Survivor(d, start, rx, s), Entry(d, s, Choice(d, start, rx, s)) / 2;
      && x < States(d) && |p.bits| > 0 && Last(p.bits) == s % 2 && AreGroups(d, Front(rx))
      && Survivor(d, start, Front(rx), x) == Path(p.from, Front(p.bits))
      && StateAfter(d, p.from, p.bits) == s && StateAfter(d, p.from, Front(p.bits)) == x
  {
    SurvivorStep(d, start, rx, s);
    SurvivorCost(d, start, rx, s);
    hide *;
    FrontGroups(d, rx);
    SurvivorCost(d, start, Front(rx), Entry(d, s, Choice(d, start, rx, s)) / 2);
  }

  lemma SplitLast(u: seq<nat>)
    requires |u| > 0
    ensures u == Front(u) + [Last(u)] && |Front(u)| == |u| - 1 && u[..|u| - 1] == Front(u)
  {
  }

  lemma FrontGroups(d: Design, rx: seq<seq<nat>>)
    requires AreGroups(d, rx) && |rx| > 0
    ensures AreGroups(d, Front(rx)) && |Front(rx)| == |rx| - 1
  {
  }

  lemma LiftPreferred(d: Design, p: Path, q: Path, p': Path, q': Path, t: nat)
    requires p.from < States(d) && q.from < States(d) && |p.bits| == |q.bits| > 0 && Last(p.bits) == Last(q.bits)
    requires p' == Path(p.from, Front(p.bits)) && q' == Path(q.from, Front(q.bits))
    requires t < |p'.bits| == |q'.bits| && Preferred(d, p', q', t)
    ensures t < |p.bits| && Preferred(d, p, q, t)
  {
    hide StateAfter;
    FrontSlices(p.bits, q.bits, t + 1);
    assert p.bits[..t] == p'.bits[..t] && q.bits[..t] == q'.bits[..t];
  }

  lemma MergeHere(d: Design, p: Path, q: Path, s: nat)
    requires p.from < States(d) && q.from < States(d) && |p.bits| == |q.bits| > 0
    requires StateAfter(d, p.from, p.bits) == s == StateAfter(d, q.from, q.bits)
    requires var x, y := StateAfter(d, p.from, Front(p.bits)), StateAfter(d, q.from, Front(q.bits));
      if d.strict then x < y else y < x
    ensures Preferred(d, p, q, |p.bits| - 1)
  {
    hide StateAfter;
    var n := |p.bits|;
    assert p.bits[..n] == p.bits && q.bits[..n] == q.bits;
    assert p.bits[n..] == [] && q.bits[n..] == [];
  }
}
