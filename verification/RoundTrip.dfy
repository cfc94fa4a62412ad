/** Encoding, and why the decoder undoes it. */
module RoundTrip {
  import opened Taps
  import opened Trellis
  import opened Paths
  import opened Shift
  import opened Metrics
  import opened Chainback
  import opened Designs

  /** The noise-free group for one register content. */
  function SentGroup(polys: seq<int>, sr: nat): (g: seq<nat>)
    ensures |g| == |polys| && forall j :: 0 <= j < |g| ==> g[j] <= 255
  {
    if |polys| == 0 then [] else SentGroup(Front(polys), sr) + [Level(Sent(Last(polys), sr))]
  }

  /** All groups sent for the input bits `u` from state `s0`. */
  function Encoded(d: Design, s0: nat, u: seq<nat>): (rx: seq<seq<nat>>)
    requires s0 < States(d)
    ensures |rx| == |u| && AreGroups(d, rx)
  {
    if |u| == 0 then [] else Encoded(d, s0, Front(u)) + [SentGroup(d.polys, Register(d, s0, u))]
  }

  // Distances obey the triangle inequality, and only equal symbols are at distance zero.
  lemma {:induction false} MismatchTriangle(polys: seq<int>, sr: nat, sr': nat, g: seq<nat>)
    requires |g| == |polys| && forall j :: 0 <= j < |g| ==> g[j] <= 255
    ensures Mismatch(polys, sr', SentGroup(polys, sr)) <= Mismatch(polys, sr', g) + Mismatch(polys, sr, g)
  {
    hide Sent;
    if |polys| != 0 {
      var n := |polys| - 1;
      MismatchTriangle(polys[..n], sr, sr', g[..n]);
      var h := SentGroup(polys, sr);
      assert h[..n] == SentGroup(polys[..n], sr);
    }
  }

  lemma {:induction false} MismatchZero(polys: seq<int>, sr: nat, sr': nat)
    ensures Mismatch(polys, sr', SentGroup(polys, sr)) == 0
      <==> forall j :: 0 <= j < |polys| ==> Sent(polys[j], sr) == Sent(polys[j], sr')
  {
    hide Sent;
    if |polys| != 0 {
      var n := |polys| - 1;
      MismatchZero(polys[..n], sr, sr');
      var h := SentGroup(polys, sr);
      assert h[..n] == SentGroup(polys[..n], sr);
      assert forall j :: 0 <= j < n ==> polys[..n][j] == polys[j];
    }
  }

  // From the same state, different input bits send different groups.
  lemma SameGroupSameBit(d: Design, x: nat, b: nat, b': nat)
    requires Shaped(d) && Tapped(d) && |d.polys| > 0 && x < States(d) && b < 2 && b' < 2
    requires Mismatch(d.polys, 2 * x + b', SentGroup(d.polys, 2 * x + b)) == 0
    ensures b == b'
  {
    hide And, Odd, Mismatch, SentGroup, Shaped;
    MismatchZero(d.polys, 2 * x + b, 2 * x + b');
    var p := d.polys[0];
    assert EndTaps(d.nu, Abs(p));
    OddAnd(2 * x + b, Abs(p));
    OddAnd(2 * x + b', Abs(p));
    assert (2 * x + b) / 2 == x && (2 * x + b') / 2 == x;
  }

  // The cost of one more step against the path's own symbols, when both paths agree so far.
  lemma NextCostZero(d: Design, x: nat, b: nat, b': nat)
    requires Shaped(d) && Tapped(d) && |d.polys| > 0 && x < States(d) && b < 2 && b' < 2
    ensures Branch(d, SentGroup(d.polys, 2 * x + b), 2 * x + b') == 0 <==> b == b'
  {
    hide Mismatch, Sent, SentGroup, Tapped, Branch;
    BranchIsMismatch(d, SentGroup(d.polys, 2 * x + b), 2 * x + b');
    MismatchZero(d.polys, 2 * x + b, 2 * x + b');
    if Mismatch(d.polys, 2 * x + b', SentGroup(d.polys, 2 * x + b)) == 0 {
      SameGroupSameBit(d, x, b, b');
    }
  }

  lemma SamePath(p: Path, s0: nat, u: seq<nat>)
    requires |p.bits| == |u| > 0
    ensures p == Path(s0, u) <==> Path(p.from, Front(p.bits)) == Path(s0, Front(u)) && Last(p.bits) == Last(u)
  {
    assert u == Front(u) + [Last(u)] && p.bits == Front(p.bits) + [Last(p.bits)];
  }

  lemma EncodedStep(d: Design, s0: nat, u: seq<nat>)
    requires s0 < States(d) && |u| > 0
    ensures var rx := Encoded(d, s0, u);
      Front(rx) == Encoded(d, s0, Front(u)) && Last(rx) == SentGroup(d.polys, Register(d, s0, u))
  {
    hide SentGroup;
  }

  /** Cost of one path against another path's noise-free symbols is zero only for that path itself. */
  lemma {:induction false} ZeroCostUnique(d: Design, start: nat, u: seq<nat>, p: Path)
    requires Shaped(d) && Tapped(d) && |d.polys| > 0 && d.bias > 0 && start < States(d) && p.from < States(d)
    requires AreBits(u) && AreBits(p.bits) && |p.bits| == |u|
    ensures Cost(d, start, p.from, p.bits, Encoded(d, start, u)) == 0 <==> p == Path(start, u)
    decreases |u|
  {
    hide *;
    if |u| == 0 {
      EmptyPath(d, start, u, p);
    } else {
      var q := Path(p.from, Front(p.bits));
      FrontBits(u);
      FrontBits(p.bits);
      ZeroCostUnique(d, start, Front(u), q);
      EncodedStep(d, start, u);
      SamePath(p, start, u);
      PathStep(d, start, p.from, p.bits, Encoded(d, start, u));
      var x := StateAfter(d, start, Front(u));
      NextCostZero(d, x, Last(u), Last(p.bits));
      RegisterIs(d, start, u);
      RegisterIs(d, p.from, p.bits);
    }
  }

  lemma EmptyPath(d: Design, start: nat, u: seq<nat>, p: Path)
    requires d.bias > 0 && start < States(d) && p.from < States(d) && |p.bits| == |u| == 0
    ensures Cost(d, start, p.from, p.bits, Encoded(d, start, u)) == 0 <==> p == Path(start, u)
  {
  }

  lemma FrontBits(u: seq<nat>)
    requires AreBits(u) && |u| > 0
    ensures AreBits(Front(u)) && |Front(u)| == |u| - 1 && Last(u) < 2
  {
  }

  lemma RegisterIs(d: Design, s0: nat, u: seq<nat>)
    requires s0 < States(d) && |u| > 0
    ensures Register(d, s0, u) == 2 * StateAfter(d, s0, Front(u)) + Last(u)
  {
  }

  /** A path that is strictly cheaper than every other path to its end is the one decoded. */
  lemma StrictlyCheapest(d: Design, start: nat, rx: seq<seq<nat>>, e: nat, q: Path)
    requires Shaped(d) && AreGroups(d, rx) && e < States(d) && PathTo(d, q, |rx|, e)
    requires forall r: Path | PathTo(d, r, |rx|, e) && r != q ::
      Cost(d, start, q.from, q.bits, rx) < Cost(d, start, r.from, r.bits, rx)
    ensures Survivor(d, start, rx, e) == q
  {
    hide Cost, Survivor, StateAfter;
    SurvivorOptimal(d, start, rx, e);
  }

  /** Noise-free symbols decode to the bits that were sent, whatever they are. */
  lemma NoiseFree(d: Design, start: nat, u: seq<nat>)
    requires Shaped(d) && Usable(d) && start < States(d) && AreBits(u)
    ensures Survivor(d, start, Encoded(d, start, u), StateAfter(d, start, u)) == Path(start, u)
  {
    hide Cost, Survivor, StateAfter, Fits;
    var rx, e, q := Encoded(d, start, u), StateAfter(d, start, u), Path(start, u);
    ZeroCostUnique(d, start, u, q);
    forall r: Path | PathTo(d, r, |rx|, e) && r != q
      ensures Cost(d, start, q.from, q.bits, rx) < Cost(d, start, r.from, r.bits, rx)
    {
      ZeroCostUnique(d, start, u, r);
    }
    StrictlyCheapest(d, start, rx, e, q);
  }

  lemma {:induction false} CostTriangle(d: Design, start: nat, u: seq<nat>, p: Path, rx: seq<seq<nat>>)
    requires Shaped(d) && Tapped(d) && start < States(d) && p.from < States(d)
    requires AreBits(u) && AreBits(p.bits) && |p.bits| == |u| == |rx| && AreGroups(d, rx)
    ensures Cost(d, start, p.from, p.bits, Encoded(d, start, u))
      <= Cost(d, start, p.from, p.bits, rx) + Cost(d, start, start, u, rx)
    decreases |u|
  {
    hide Branch, Mismatch, Sent;
    if |u| != 0 {
      var tx := Encoded(d, start, u);
      CostTriangle(d, start, Front(u), Path(p.from, Front(p.bits)), Front(rx));
      assert Front(tx) == Encoded(d, start, Front(u));
      PathStep(d, start, p.from, p.bits, tx);
      PathStep(d, start, p.from, p.bits, rx);
      PathStep(d, start, start, u, rx);
      var sr, sr' := Register(d, start, u), Register(d, p.from, p.bits);
      assert Last(tx) == SentGroup(d.polys, sr);
      BranchIsMismatch(d, Last(tx), sr');
      BranchIsMismatch(d, Last(rx), sr');
      BranchIsMismatch(d, Last(rx), sr);
      MismatchTriangle(d.polys, sr, sr', Last(rx));
    }
  }

  /** Noise smaller than half the distance to every other path is corrected: `rx` may be any received frame
      whose total distance from the sent frame stays below half of what separates it from the others. */
  lemma WithinHalfDistance(d: Design, start: nat, u: seq<nat>, rx: seq<seq<nat>>)
    requires Shaped(d) && Tapped(d) && start < States(d) && AreBits(u) && |u| == |rx| && AreGroups(d, rx)
    requires forall r: Path | PathTo(d, r, |u|, StateAfter(d, start, u)) && r != Path(start, u) ::
      2 * Cost(d, start, start, u, rx) < Cost(d, start, r.from, r.bits, Encoded(d, start, u))
    ensures Survivor(d, start, rx, StateAfter(d, start, u)) == Path(start, u)
  {
    hide Cost, Survivor, StateAfter, Tapped;
    var e, q := StateAfter(d, start, u), Path(start, u);
    forall r: Path | PathTo(d, r, |rx|, e) && r != q
      ensures Cost(d, start, q.from, q.bits, rx) < Cost(d, start, r.from, r.bits, rx)
    {
      CostTriangle(d, start, u, r, rx);
    }
    StrictlyCheapest(d, start, rx, e, q);
  }

  /** Flushing with zero bits brings the encoder back to state zero. */
  lemma TailClears(d: Design, start: nat, m: seq<nat>)
    requires Shaped(d) && start < States(d) && AreBits(m)
    ensures StateAfter(d, start, m + Zeros(d.nu)) == 0
  {
    var u := m + Zeros(d.nu);
    StateIsWindow(d, start, u);
    assert u[|u| - d.nu..] == Zeros(d.nu);
    FeedZeros(0, d.nu);
  }
}
