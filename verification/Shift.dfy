/** Bit strings, most significant bit first, and the shift registers that hold a window of them. */
module Shift {
  import opened Bits
  import opened Taps
  import opened Trellis
  import opened Paths

  /** Shifting the bits `z` into a register that holds `h`, with no bound on its width. */
  function Feed(h: nat, z: seq<nat>): nat
  {
    if |z| == 0 then h else 2 * Feed(h, Front(z)) + Last(z)
  }

  /** The number written by the bits `z`, most significant first. */
  function Value(z: seq<nat>): nat {
    Feed(0, z)
  }

  lemma {:induction false} FeedConcat(h: nat, a: seq<nat>, b: seq<nat>)
    ensures Feed(h, a + b) == Feed(Feed(h, a), b)
    decreases |b|
  {
    if |b| == 0 {
      assert a + b == a;
    } else {
      assert Front(a + b) == a + Front(b);
      FeedConcat(h, a, Front(b));
    }
  }

  lemma {:induction false} FeedParts(h: nat, z: seq<nat>)
    requires AreBits(z)
    ensures Low(Feed(h, z), |z|) == Value(z) && Shr(Feed(h, z), |z|) == h
  {
    if |z| != 0 {
      FeedParts(h, Front(z));
      assert Feed(h, z) / 2 == Feed(h, Front(z)) && Feed(h, z) % 2 == Last(z);
    }
  }

  lemma FeedSplit(h: nat, z: seq<nat>, n: nat)
    requires AreBits(z) && n <= |z|
    ensures Low(Feed(h, z), |z| - n) == Value(z[n..])
    ensures Shr(Feed(h, z), |z| - n) == Feed(h, z[..n])
  {
    assert z == z[..n] + z[n..];
    FeedConcat(h, z[..n], z[n..]);
    FeedParts(Feed(h, z[..n]), z[n..]);
  }

  lemma LowAppend(y: nat, b: nat, n: nat)
    requires b < 2
    ensures Low(2 * Low(y, n) + b, n) == Low(2 * y + b, n)
  {
    if n != 0 {
      var l := Low(y, n);
      LowLow(y, n, n - 1);
      LowStep(2 * l + b, n);
      LowStep(2 * y + b, n);
      assert (2 * l + b) / 2 == l && (2 * y + b) / 2 == y;
      assert (2 * l + b) % 2 == b && (2 * y + b) % 2 == b;
    }
  }

  lemma {:induction false} StateIsFeed(d: Design, s0: nat, u: seq<nat>)
    requires s0 < States(d) && AreBits(u)
    ensures StateAfter(d, s0, u) == Low(Feed(s0, u), d.nu)
  {
    if |u| == 0 {
      LowSmall(s0, d.nu);
    } else {
      StateIsFeed(d, s0, Front(u));
      var y, b := Feed(s0, Front(u)), Last(u);
      assert StateAfter(d, s0, u) == Low(2 * StateAfter(d, s0, Front(u)) + b, d.nu);
      assert Feed(s0, u) == 2 * y + b;
      hide *;
      LowAppend(y, b, d.nu);
    }
  }

  /** Once the register has filled, the state is the last `nu` input bits. */
  lemma StateIsWindow(d: Design, s0: nat, u: seq<nat>)
    requires s0 < States(d) && AreBits(u) && |u| >= d.nu
    ensures StateAfter(d, s0, u) == Value(u[|u| - d.nu..])
  {
    StateIsFeed(d, s0, u);
    FeedSplit(s0, u, |u| - d.nu);
  }

  // Windows of a bit string seen in a register.
  lemma ValueWindow(z: seq<nat>, n: nat)
    requires AreBits(z) && n <= |z|
    ensures Shr(Value(z), |z| - n) == Value(z[..n])
    ensures Low(Value(z), |z| - n) == Value(z[n..])
    ensures Value(z) < Pow2(|z|)
  {
    FeedSplit(0, z, n);
    FeedParts(0, z);
  }

  lemma {:induction false} OrAbove(a: nat, k: nat, n: nat)
    requires a < Pow2(n) && k < 2
    ensures Or(a, k * Pow2(n)) == a + k * Pow2(n)
  {
    if n == 0 {
      assert k * Pow2(0) == k;
    } else {
      assert k * Pow2(n) == 2 * (k * Pow2(n - 1));
      OrAbove(a / 2, k, n - 1);
    }
  }

  /** One chainback shift, `(reg >> 1) | (k << (r - 1))`, moves the window one bit towards the start. */
  lemma WindowStep(k: nat, y: seq<nat>, b: nat)
    requires k < 2 && b < 2 && AreBits(y)
    ensures Or(Shr(Value(y + [b]), 1), k * Pow2(|y|)) == Value([k] + y)
  {
    var z := y + [b];
    assert Front(z) == y && Last(z) == b;
    assert Shr(Value(z), 1) == Value(y) by {
      assert Shr(Value(z), 1) == Shr(Value(z) / 2, 0);
    }
    FeedParts(0, y);
    OrAbove(Value(y), k, |y|);
    FeedConcat(0, [k], y);
    assert Feed(0, [k]) == k by {
      assert Front([k]) == [];
    }
    FeedParts(k, y);
    ShrLow(Feed(k, y), |y|);
  }

  lemma {:induction false} ValueInjective(a: seq<nat>, b: seq<nat>)
    requires AreBits(a) && AreBits(b) && |a| == |b| && Value(a) == Value(b)
    ensures a == b
  {
    if |a| != 0 {
      ValueInjective(Front(a), Front(b));
      assert a == Front(a) + [Last(a)] && b == Front(b) + [Last(b)];
    }
  }
}
