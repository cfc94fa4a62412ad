/** Following the decisions back: the widened state register and the bytes it leaves behind. */
module Chainback {
  import opened Bits
  import opened Taps
  import opened Trellis
  import opened Paths
  import opened Shift

  /** Width of the chainback register: the state, widened to a byte for the short code. */
  function Reach(d: Design): (r: nat)
    ensures r >= 8 && r >= d.nu
  {
    if d.nu <= 8 then 8 else d.nu
  }

  function Zeros(n: nat): (z: seq<nat>)
    ensures |z| == n && AreBits(z)
  {
    if n == 0 then [] else Zeros(n - 1) + [0]
  }

  function Padded(d: Design, bits: seq<nat>): seq<nat> {
    bits + Zeros(Reach(d) - d.nu)
  }

  /** What chainback leaves in the register on reaching input bit `n`. */
  function Window(d: Design, bits: seq<nat>, n: nat): nat
    requires n + d.nu <= |bits|
  {
    Value(Padded(d, bits)[n..n + Reach(d)])
  }

  /** Output byte `j`: eight input bits of the path, the oldest one at the top. */
  function Byte(d: Design, bits: seq<nat>, j: nat): nat
    requires 8 * j + d.nu <= |bits|
  {
    Value(Padded(d, bits)[8 * j..8 * j + 8])
  }

  // A byte that lies within the path holds nothing but input bits.
  lemma FullByte(d: Design, bits: seq<nat>, j: nat)
    requires 8 * j + d.nu <= |bits| && 8 * j + 8 <= |bits|
    ensures Byte(d, bits, j) == Value(bits[8 * j..8 * j + 8])
  {
    assert Padded(d, bits)[8 * j..8 * j + 8] == bits[8 * j..8 * j + 8];
  }

  // A byte that reaches beyond the path ends in zeros.
  lemma PartialByte(d: Design, bits: seq<nat>, j: nat)
    requires AreBits(bits) && 8 * j + d.nu <= |bits| < 8 * j + 8
    ensures Byte(d, bits, j) == Value(bits[8 * j..]) * Pow2(8 * j + 8 - |bits|)
  {
    var m := 8 * j + 8 - |bits|;
    ZerosPrefix(Reach(d) - d.nu, m);
    assert Padded(d, bits)[8 * j..8 * j + 8] == bits[8 * j..] + Zeros(Reach(d) - d.nu)[..m];
    FeedConcat(0, bits[8 * j..], Zeros(m));
    FeedZeros(Value(bits[8 * j..]), m);
  }

  lemma {:induction false} ZerosPrefix(n: nat, m: nat)
    requires m <= n
    ensures Zeros(n)[..m] == Zeros(m)
  {
    if m < n {
      ZerosPrefix(n - 1, m);
      assert Zeros(n)[..m] == Zeros(n - 1)[..m];
    }
  }

  lemma {:induction false} FeedZeros(h: nat, n: nat)
    ensures Feed(h, Zeros(n)) == h * Pow2(n)
  {
    if n != 0 {
      var z, y := Zeros(n), Zeros(n - 1);
      assert Front(z) == y && Last(z) == 0;
      FeedZeros(h, n - 1);
      assert Feed(h, z) == 2 * Feed(h, y) + 0;
      assert Pow2(n) == 2 * Pow2(n - 1);
      hide *;
      DoubleProduct(h, Pow2(n - 1));
    }
  }

  lemma DoubleProduct(h: nat, p: nat)
    ensures 2 * (h * p) == h * (2 * p)
  {
  }

  // `endstate << (r - nu)`
  lemma WindowStart(d: Design, bits: seq<nat>)
    requires AreBits(bits) && |bits| >= d.nu
    ensures Window(d, bits, |bits| - d.nu) == Value(bits[|bits| - d.nu..]) * Pow2(Reach(d) - d.nu)
  {
    var n, m := |bits| - d.nu, Reach(d) - d.nu;
    assert Padded(d, bits)[n..n + Reach(d)] == bits[n..] + Zeros(m);
    FeedConcat(0, bits[n..], Zeros(m));
    FeedZeros(Value(bits[n..]), m);
  }

  // One round of the chainback loop, from bit n + 1 to bit n.
  lemma WindowBack(d: Design, bits: seq<nat>, n: nat)
    requires AreBits(bits) && n + 1 + d.nu <= |bits|
    ensures Or(Shr(Window(d, bits, n + 1), 1), bits[n] * Pow2(Reach(d) - 1)) == Window(d, bits, n)
  {
    var z, r := Padded(d, bits), Reach(d);
    var y := z[n + 1..n + r];
    assert z[n + 1..n + 1 + r] == y + [z[n + r]];
    assert z[n..n + r] == [bits[n]] + y;
    WindowStep(bits[n], y, z[n + r]);
  }

  // Reading the state and the output byte out of the register.
  lemma WindowState(d: Design, bits: seq<nat>, n: nat)
    requires AreBits(bits) && n + d.nu <= |bits|
    ensures Shr(Window(d, bits, n), Reach(d) - d.nu) == Value(bits[n..n + d.nu])
  {
    var w := Padded(d, bits)[n..n + Reach(d)];
    hide Value, Shr, Low;
    ValueWindow(w, d.nu);
    assert w[..d.nu] == bits[n..n + d.nu];
  }

  lemma WindowByte(d: Design, bits: seq<nat>, j: nat)
    requires AreBits(bits) && 8 * j + d.nu <= |bits|
    ensures Shr(Window(d, bits, 8 * j), Reach(d) - 8) == Byte(d, bits, j)
  {
    var z, n := Padded(d, bits), 8 * j;
    var w := z[n..n + Reach(d)];
    hide Value, Shr, Low;
    ValueWindow(w, 8);
    assert w[..8] == z[n..n + 8];
  }

  /** Every earlier state of a survivor has that part of the path as its own survivor. */
  lemma {:induction false} SurvivorPrefix(d: Design, start: nat, rx: seq<seq<nat>>, e: nat, t: nat)
    requires Shaped(d) && AreGroups(d, rx) && e < States(d) && t <= |rx|
    ensures var p := Survivor(d, start, rx, e);
      Survivor(d, start, rx[..t], StateAfter(d, p.from, p.bits[..t])) == Path(p.from, p.bits[..t])
    decreases |rx|
  {
    hide Choice, StateAfter, Survivor;
    var p := Survivor(d, start, rx, e);
    SurvivorCost(d, start, rx, e);
    if t == |rx| {
      assert rx[..t] == rx && p.bits[..t] == p.bits;
    } else {
      SurvivorStep(d, start, rx, e);
      var x := Entry(d, e, Choice(d, start, rx, e)) / 2;
      SurvivorPrefix(d, start, Front(rx), x, t);
      assert Front(rx)[..t] == rx[..t] && Front(p.bits)[..t] == p.bits[..t];
    }
  }

  // The decision that leads into a state is the input bit about to leave its register.
  lemma SurvivorBit(d: Design, start: nat, rx: seq<seq<nat>>, s: nat)
    requires Shaped(d) && AreGroups(d, rx) && s < States(d) && |rx| > d.nu
    ensures Choice(d, start, rx, s) == Survivor(d, start, rx, s).bits[|rx| - 1 - d.nu]
  {
    hide Choice, StateAfter, Survivor, Low, Value;
    SurvivorStep(d, start, rx, s);
    var k := Choice(d, start, rx, s);
    var x := Entry(d, s, k) / 2;
    var q := Survivor(d, start, Front(rx), x);
    SurvivorCost(d, start, Front(rx), x);
    StateIsWindow(d, q.from, q.bits);
    var w := q.bits[|q.bits| - d.nu..];
    ValueWindow(w, 1);
    EntryParts(d, s, k);
    TopBit(s, k, d.nu);
    FirstBit(w);
  }

  lemma FirstBit(w: seq<nat>)
    requires AreBits(w) && |w| > 0
    ensures Value(w[..1]) == w[0]
  {
    var v := w[..1];
    assert Front(v) == [] && Last(v) == w[0];
    assert Value(v) == 2 * Feed(0, Front(v)) + Last(v);
  }

  lemma TopBit(s: nat, k: nat, nu: nat)
    requires nu >= 1 && s < Pow2(nu) && k < 2
    ensures Shr(s / 2 + k * Pow2(nu - 1), nu - 1) == k
  {
    PackParts(s / 2, k, nu - 1);
  }

  /** Along the survivor, the decision row `nu` steps later holds the input bit. */
  lemma TraceBit(d: Design, start: nat, rx: seq<seq<nat>>, e: nat, n: nat)
    requires Shaped(d) && AreGroups(d, rx) && e < States(d) && n + d.nu < |rx|
    ensures var p, t := Survivor(d, start, rx, e), n + 1 + d.nu;
      var x := Value(p.bits[n + 1..t]);
      x < States(d) && Choice(d, start, rx[..t], x) == p.bits[n]
  {
    hide Choice, StateAfter, Survivor, Value;
    var p, t := Survivor(d, start, rx, e), n + 1 + d.nu;
    var u := p.bits[..t];
    StateIsWindow(d, p.from, u);
    assert |u| - d.nu == n + 1 && u[n + 1..] == p.bits[n + 1..t];
    SurvivorPrefix(d, start, rx, e, t);
    SurvivorBit(d, start, rx[..t], StateAfter(d, p.from, u));
  }
}
