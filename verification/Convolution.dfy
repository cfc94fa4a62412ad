/** What is sent, as a convolution of the input bits with the generator polynomials. */
module Convolution {
  import opened Bits
  import opened Taps
  import opened Trellis
  import opened Paths
  import opened Shift
  import opened RoundTrip
  import opened Frame

  /** The taps of p below n that meet a one: the lowest tap meets the bit u[t], the next ones the bits before. */
  function TapSum(p: nat, u: seq<nat>, t: nat, n: nat): nat
    requires t < |u|
  {
    if n == 0 then 0
    else (if p % 2 == 1 && u[t] == 1 then 1 else 0) + (if t == 0 then 0 else TapSum(p / 2, u, t - 1, n - 1))
  }

  lemma OddNothing(p: nat)
    ensures !Odd(And(0, p))
  {
  }

  lemma LowNothing(n: nat)
    ensures Low(0, n) == 0
  {
    LowSmall(0, n);
  }

  lemma PrefixValue(u: seq<nat>, t: nat)
    requires t < |u|
    ensures Value(u[..t + 1]) == 2 * Value(u[..t]) + u[t] && Value(u[..0]) == 0
  {
    assert Front(u[..t + 1]) == u[..t] && Last(u[..t + 1]) == u[t];
  }

  lemma {:induction false} RegisterTaps(p: nat, u: seq<nat>, t: nat, n: nat)
    requires AreBits(u) && t < |u|
    ensures Odd(And(Low(Value(u[..t + 1]), n), p)) == (TapSum(p, u, t, n) % 2 == 1)
    decreases n
  {
    hide And, Odd, Value;
    var v := Value(u[..t + 1]);
    PrefixValue(u, t);
    OddNothing(p);
    if n != 0 {
      LowStep(v, n);
      hide Low;
      assert v / 2 == Value(u[..t]) && v % 2 == u[t];
      OddAnd(Low(v, n), p);
      if t == 0 {
        LowNothing(n - 1);
        OddNothing(p / 2);
      } else {
        RegisterTaps(p / 2, u, t - 1, n - 1);
      }
    }
  }

  lemma {:induction false} GroupAt(polys: seq<int>, sr: nat, j: nat)
    requires j < |polys|
    ensures SentGroup(polys, sr)[j] == Level(Sent(polys[j], sr))
  {
    hide Sent, Level;
    if j < |polys| - 1 {
      GroupAt(Front(polys), sr, j);
    }
  }

  lemma {:induction false} EncodedAt(d: Design, u: seq<nat>, t: nat)
    requires t < |u|
    ensures Encoded(d, 0, u)[t] == SentGroup(d.polys, Register(d, 0, u[..t + 1]))
  {
    hide SentGroup, Register;
    if t == |u| - 1 {
      assert u[..t + 1] == u;
    } else {
      EncodedAt(d, Front(u), t);
      assert Front(u)[..t + 1] == u[..t + 1];
    }
  }

  /** The encoder is a convolution: from the zero state, symbol j of step t is 255 exactly when an odd number of taps
      of polynomial j meets a one among the newest nu + 1 input bits, the other way round for an inverted one. */
  lemma EncoderIsConvolution(d: Design, u: seq<nat>, t: nat, j: nat)
    requires Shaped(d) && AreBits(u) && t < |u| && j < |d.polys|
    ensures Encoded(d, 0, u)[t][j]
      == if (TapSum(Abs(d.polys[j]), u, t, d.nu + 1) % 2 == 1) != (d.polys[j] < 0) then 255 else 0
  {
    EncodedAt(d, u, t);
    var w := u[..t + 1];
    GroupAt(d.polys, Register(d, 0, w), j);
    RegisterIsLow(d, w);
    hide And, Odd, Value, TapSum, Low;
    RegisterTaps(Abs(d.polys[j]), u, t, d.nu + 1);
  }

  // ----- costs are distances

  function Apart(a: nat, b: nat): nat {
    if a >= b then a - b else b - a
  }

  /** Sum of the differences of two groups of symbols. */
  function GroupDistance(g: seq<nat>, h: seq<nat>): nat
    requires |g| == |h|
  {
    if |g| == 0 then 0 else Apart(g[0], h[0]) + GroupDistance(g[1..], h[1..])
  }

  function FrameDistance(a: seq<seq<nat>>, b: seq<seq<nat>>): nat
    requires |a| == |b| && forall t :: 0 <= t < |a| ==> |a[t]| == |b[t]|
  {
    if |a| == 0 then 0 else GroupDistance(a[0], b[0]) + FrameDistance(a[1..], b[1..])
  }

  lemma {:induction false} GroupDistanceLast(g: seq<nat>, h: seq<nat>)
    requires |g| == |h| > 0
    ensures GroupDistance(g, h) == GroupDistance(Front(g), Front(h)) + Apart(Last(g), Last(h))
  {
    hide Apart;
    if |g| > 1 {
      GroupDistanceLast(g[1..], h[1..]);
      assert Front(g)[1..] == Front(g[1..]) && Front(h)[1..] == Front(h[1..]);
    }
  }

  lemma {:induction false} FrameDistanceLast(a: seq<seq<nat>>, b: seq<seq<nat>>)
    requires |a| == |b| > 0 && forall t :: 0 <= t < |a| ==> |a[t]| == |b[t]|
    ensures FrameDistance(a, b) == FrameDistance(Front(a), Front(b)) + GroupDistance(Last(a), Last(b))
  {
    hide GroupDistance;
    if |a| > 1 {
      FrameDistanceLast(a[1..], b[1..]);
      assert Front(a)[1..] == Front(a[1..]) && Front(b)[1..] == Front(b[1..]);
    }
  }

  lemma {:induction false} MismatchIsDistance(polys: seq<int>, sr: nat, g: seq<nat>)
    requires |g| == |polys| && forall j :: 0 <= j < |g| ==> g[j] <= 255
    ensures Mismatch(polys, sr, g) == GroupDistance(SentGroup(polys, sr), g)
  {
    hide Sent;
    if |polys| > 0 {
      var n := |polys| - 1;
      MismatchIsDistance(polys[..n], sr, g[..n]);
      GroupDistanceLast(SentGroup(polys, sr), g);
      assert Front(SentGroup(polys, sr)) == SentGroup(Front(polys), sr);
      GapIsXor(Sent(polys[n], sr), g[n]);
      hide Mismatch, SentGroup, GroupDistance;
    }
  }

  lemma SentSizes(d: Design, s0: nat, u: seq<nat>, rx: seq<seq<nat>>)
    requires s0 < States(d) && |u| == |rx| && AreGroups(d, rx)
    ensures forall t :: 0 <= t < |u| ==> |Encoded(d, s0, u)[t]| == |rx[t]|
  {
    assert AreGroups(d, Encoded(d, s0, u));
    hide Encoded;
  }

  /** The branch costs of a path add up to the distance of what was received from what the path would have sent. */
  lemma {:induction false} RawIsDistance(d: Design, s0: nat, u: seq<nat>, rx: seq<seq<nat>>)
    requires Shaped(d) && Tapped(d) && s0 < States(d) && AreBits(u) && |u| == |rx| && AreGroups(d, rx)
    ensures forall t :: 0 <= t < |u| ==> |Encoded(d, s0, u)[t]| == |rx[t]|
    ensures Raw(d, s0, u, rx) == FrameDistance(Encoded(d, s0, u), rx)
    decreases |u|
  {
    hide Tapped, Branch, Mismatch, SentGroup, GroupDistance, StateAfter;
    SentSizes(d, s0, u, rx);
    if |u| > 0 {
      RawIsDistance(d, s0, Front(u), Front(rx));
      EncodedStep(d, s0, u);
      PathStep(d, s0, s0, u, rx);
      var sr := Register(d, s0, u);
      BranchIsMismatch(d, Last(rx), sr);
      MismatchIsDistance(d.polys, sr, Last(rx));
      FrameDistanceLast(Encoded(d, s0, u), rx);
    }
  }

  /** Maximum likelihood in plain terms: of all paths to the end state the decoded one would have sent the frame nearest
      to the received one, where a path from an unknown state counts `bias` more. */
  lemma NearestDecoded(d: Design, start: nat, rx: seq<seq<nat>>, s: nat, q: Path)
    requires Shaped(d) && Tapped(d) && AreGroups(d, rx) && s < States(d) && PathTo(d, q, |rx|, s)
    ensures var p := Survivor(d, start, rx, s);
      && (forall t :: 0 <= t < |rx| ==> |Encoded(d, p.from, p.bits)[t]| == |Encoded(d, q.from, q.bits)[t]| == |rx[t]|)
      && FrameDistance(Encoded(d, p.from, p.bits), rx) + (if p.from == start then 0 else d.bias)
           <= FrameDistance(Encoded(d, q.from, q.bits), rx) + (if q.from == start then 0 else d.bias)
  {
    hide *;
    SurvivorLeastRaw(d, start, rx, s, q);
    var p := Survivor(d, start, rx, s);
    PathParts(d, p, |rx|, s);
    PathParts(d, q, |rx|, s);
    RawIsDistance(d, p.from, p.bits, rx);
    RawIsDistance(d, q.from, q.bits, rx);
  }

  lemma PathParts(d: Design, p: Path, n: nat, s: nat)
    requires PathTo(d, p, n, s)
    ensures p.from < States(d) && AreBits(p.bits) && |p.bits| == n
  {
  }
}
