/** The convolutional code behind a Viterbi decoder: encoder register, sent symbols, branch costs. */
module Trellis {
  import opened Bits
  import opened Taps

  /** One decoder of the library. `nu` is the constraint length less one: the bits of encoder state.
      `polys` are the generator polynomials, negative for an inverted symbol; `bias` is the start metric
      of every state but the known one; metrics are `width`-bit words; `strict` is the tie rule; `four` says
      that the butterfly forms four sums instead of adjusting two in place; decision bits are packed in words
      of `2^pack` bits. */
  datatype Design = Design(nu: nat, polys: seq<int>, bias: nat, width: nat, strict: bool, four: bool, pack: nat)

  /** What any of the decoders needs to run at all. */
  ghost predicate Shaped(d: Design) {
    1 <= d.nu <= 31 && d.pack <= d.nu
  }

  function States(d: Design): (n: nat)
    ensures n >= 1
  {
    Pow2(d.nu)
  }

  function Abs(p: int): nat {
    if p < 0 then -p else p
  }

  /** The largest branch metric: 255 for each symbol of the step. */
  function Most(d: Design): nat {
    255 * |d.polys|
  }

  /** The symbol the encoder sends for one polynomial when its register holds `sr`. */
  predicate Sent(poly: int, sr: nat) {
    (poly < 0) != Odd(And(sr, Abs(poly)))
  }

  /** A sent symbol as the receiver would see it without noise. */
  function Level(b: bool): (v: nat)
    ensures v == 0 || v == 255
  {
    if b then 255 else 0
  }

  predicate IsGroup(d: Design, g: seq<nat>) {
    |g| == |d.polys| && forall j :: 0 <= j < |g| ==> g[j] <= 255
  }

  /** Distance of one received symbol from a sent level. */
  function Gap(b: bool, sym: nat): nat
    requires sym <= 255
  {
    if b then 255 - sym else sym
  }

  /** Distance between what register `sr` would send and the received group. */
  function Mismatch(polys: seq<int>, sr: nat, g: seq<nat>): (m: nat)
    requires |g| == |polys| && forall j :: 0 <= j < |g| ==> g[j] <= 255
    ensures m <= 255 * |polys|
  {
    if |polys| == 0 then 0 else
      var n := |polys| - 1;
      Mismatch(polys[..n], sr, g[..n]) + Gap(Sent(polys[n], sr), g[n])
  }

  // The exclusive-or with 0 or 255 in the source is this distance.
  lemma GapIsXor(b: bool, sym: nat)
    requires sym <= 255
    ensures Xor(Level(b), sym) == Gap(b, sym)
    ensures Gap(b, sym) == if Level(b) >= sym then Level(b) - sym else sym - Level(b)
  {
    if b {
      assert Pow2(8) == 256;
      XorOnes(sym, 8);
    } else {
      XorComm(0, sym);
      XorZero(sym);
    }
  }

  /** The branch cost the butterfly uses: the metric of its upper branch, or the complement of it. */
  function Branch(d: Design, g: seq<nat>, sr: nat): (m: nat)
    requires IsGroup(d, g)
    ensures m <= Most(d)
  {
    var base := Mismatch(d.polys, 2 * (Low(sr, d.nu) / 2), g);
    if sr % 2 == Shr(sr, d.nu) then base else Most(d) - base
  }

  /** The taps a polynomial needs at both ends of the register. */
  predicate EndTaps(nu: nat, p: nat) {
    p % 2 == 1 && Bit(p, nu) == 1
  }

  ghost predicate Tapped(d: Design) {
    forall j :: 0 <= j < |d.polys| ==> EndTaps(d.nu, Abs(d.polys[j]))
  }

  ghost predicate IsRegister(d: Design, sr: nat) {
    sr < 2 * States(d)
  }

  lemma AtMostOne(h: nat, p: nat, l: nat)
    requires h * p + l < 2 * p
    ensures h < 2
  {
    if h >= 2 && (h - 2) * p >= 0 {
      assert false;
    }
  }

  // A register is its middle bits, its newest bit and its oldest bit.
  lemma RegisterParts(nu: nat, sr: nat)
    requires nu >= 1 && sr < 2 * Pow2(nu)
    ensures var i, b, h := Low(sr, nu) / 2, sr % 2, Shr(sr, nu);
      && h < 2 && sr == 2 * i + b + h * Pow2(nu) && 2 * i + b == Low(sr, nu) && 2 * i + 1 < Pow2(nu)
  {
    ShrLow(sr, nu);
    var h := Shr(sr, nu);
    var p := Pow2(nu);
    AtMostOne(h, p, Low(sr, nu));
    assert p == 2 * Pow2(nu - 1);
    assert Low(sr, nu) % 2 == sr % 2;
  }

  // What the two end taps do to a sent symbol.
  lemma SentParts(nu: nat, poly: int, i: nat, b: nat, h: nat)
    requires nu >= 1 && b < 2 && h < 2 && 2 * i + 1 < Pow2(nu)
    ensures Sent(poly, 2 * i + b + h * Pow2(nu))
      == ((Sent(poly, 2 * i) != (b == 1 && Abs(poly) % 2 == 1)) != (h == 1 && Bit(Abs(poly), nu) == 1))
  {
    hide And, Odd, Bit;
    var p := Abs(poly);
    OddTop(2 * i + b, h, p, nu);
    OddAnd(2 * i + b, p);
    OddAnd(2 * i, p);
    assert (2 * i + b) / 2 == i && (2 * i) / 2 == i;
  }

  // With taps at both ends every symbol of a group flips together.
  lemma {:induction false} MismatchParts(nu: nat, polys: seq<int>, g: seq<nat>, i: nat, b: nat, h: nat)
    requires nu >= 1 && b < 2 && h < 2 && 2 * i + 1 < Pow2(nu)
    requires |g| == |polys| && forall j :: 0 <= j < |g| ==> g[j] <= 255
    requires forall j :: 0 <= j < |polys| ==> EndTaps(nu, Abs(polys[j]))
    ensures Mismatch(polys, 2 * i + b + h * Pow2(nu), g)
      == if b == h then Mismatch(polys, 2 * i, g) else 255 * |polys| - Mismatch(polys, 2 * i, g)
  {
    hide Sent, Bit, Pow2;
    if |polys| != 0 {
      var n := |polys| - 1;
      SentParts(nu, polys[n], i, b, h);
      MismatchParts(nu, polys[..n], g[..n], i, b, h);
      assert EndTaps(nu, Abs(polys[n]));
    }
  }

  /** The butterfly's branch cost is the encoder's own: distance of the received group from what is sent. */
  lemma BranchIsMismatch(d: Design, g: seq<nat>, sr: nat)
    requires Shaped(d) && Tapped(d) && IsGroup(d, g) && IsRegister(d, sr)
    ensures Branch(d, g, sr) == Mismatch(d.polys, sr, g)
  {
    RegisterParts(d.nu, sr);
    MismatchParts(d.nu, d.polys, g, Low(sr, d.nu) / 2, sr % 2, Shr(sr, d.nu));
  }

  // Raising one received symbol from 0 to 1 moves the mismatch by one, up or down with the sent symbol.
  lemma {:induction false} MismatchNudge(polys: seq<int>, sr: nat, g: seq<nat>, j: nat)
    requires |g| == |polys| && j < |g| && g[j] == 0 && forall k :: 0 <= k < |g| ==> g[k] <= 255
    ensures Mismatch(polys, sr, g[j := 1]) == Mismatch(polys, sr, g) + (if Sent(polys[j], sr) then -1 else 1)
  {
    hide Sent;
    var n := |polys| - 1;
    var g' := g[j := 1];
    if j == n {
      assert g'[..n] == g[..n];
    } else {
      assert g'[..n] == g[..n][j := 1];
      MismatchNudge(polys[..n], sr, g[..n], j);
    }
  }

  /** The butterfly uses the encoder's costs for every register and every received group exactly when
      all polynomials have taps at both ends. */
  lemma BranchExact(d: Design)
    requires Shaped(d)
    ensures Tapped(d)
      <==> forall g: seq<nat>, sr: nat :: IsGroup(d, g) && IsRegister(d, sr) ==>
        Branch(d, g, sr) == Mismatch(d.polys, sr, g)
  {
    if Tapped(d) {
      forall g: seq<nat>, sr: nat | IsGroup(d, g) && IsRegister(d, sr)
        ensures Branch(d, g, sr) == Mismatch(d.polys, sr, g)
      {
        BranchIsMismatch(d, g, sr);
      }
    } else {
      var j :| 0 <= j < |d.polys| && !EndTaps(d.nu, Abs(d.polys[j]));
      var sr, g := MissingTap(d, j);
    }
  }

  // A missing end tap makes two branches of a butterfly agree on a symbol where they should differ.
  lemma MissingTap(d: Design, j: nat) returns (sr: nat, g: seq<nat>)
    requires Shaped(d) && j < |d.polys| && !EndTaps(d.nu, Abs(d.polys[j]))
    ensures IsGroup(d, g) && IsRegister(d, sr) && Branch(d, g, sr) != Mismatch(d.polys, sr, g)
  {
    var p := d.polys[j];
    var b: nat, h: nat := if Abs(p) % 2 == 0 then 1 else 0, if Abs(p) % 2 == 0 then 0 else 1;
    sr := b + h * Pow2(d.nu);
    assert Pow2(d.nu) == 2 * Pow2(d.nu - 1);
    SentParts(d.nu, p, 0, b, h);
    assert Sent(p, sr) == Sent(p, 0);
    LowEnds(d.nu, b, h);
    g := seq(|d.polys|, k => 0);
    var g' := g[j := 1];
    hide Sent, Pow2, Low, Shr;
    MismatchNudge(d.polys, sr, g, j);
    MismatchNudge(d.polys, 0, g, j);
    if Branch(d, g, sr) == Mismatch(d.polys, sr, g) {
      g := g';
    }
  }

  lemma LowEnds(nu: nat, b: nat, h: nat)
    requires nu >= 1 && b < 2 && h < 2 && b + h == 1
    ensures var sr := b + h * Pow2(nu); Low(sr, nu) / 2 == 0 && sr % 2 == b && Shr(sr, nu) == h && sr < 2 * Pow2(nu)
  {
    var sr := b + h * Pow2(nu);
    var p := Pow2(nu);
    assert p == 2 * Pow2(nu - 1);
    RegisterParts(nu, sr);
    hide *;
  }
}
