/** The decoders of the library as instances of one design, and where one of them departs from it. */
module Designs {
  import opened Bits
  import opened Taps
  import opened Trellis
  import opened Metrics

  const V27 := Design(6, [0x6d, 0x4f], 63, 32, true, false, 5)
  const V29 := Design(8, [0x1af, 0x11d], 63, 32, true, false, 5)
  const V39 := Design(8, [0x1ed, 0x19b, 0x127], 63, 32, true, false, 5)
  const POLYS_615: seq<int> := [0x4599, 0x4ea5, 0x5d47, 0x76f3, 0x7eb7, 0x695f]
  const V615 := Design(14, POLYS_615, 1000, 32, false, true, 3)
  const V39_MMX := Design(8, [0x1ed, 0x19b, 0x127], 1000, 16, true, true, 0)
  const V615_MMX := Design(14, POLYS_615, 5000, 16, true, true, 0)

  ghost predicate Usable(d: Design) {
    Fits(d) && Tapped(d) && |d.polys| > 0 && d.bias > 0
  }

  lemma {:induction false} PowSum(a: nat, b: nat)
    ensures Pow2(a + b) == Pow2(a) * Pow2(b)
  {
    if a != 0 {
      PowSum(a - 1, b);
      var x, y := Pow2(a - 1), Pow2(b);
      assert 2 * (x * y) == (2 * x) * y;
    }
  }

  lemma Powers()
    ensures Pow2(6) == 64 && Pow2(8) == 256 && Pow2(14) == 16384 && Pow2(16) == 65536
    ensures Pow2(32) == 0x1_0000_0000
  {
    PowSum(16, 16);
  }

  lemma TapsHalf()
    ensures EndTaps(6, 0x6d) && EndTaps(6, 0x4f) && EndTaps(8, 0x1af) && EndTaps(8, 0x11d)
  {
  }

  lemma TapsThird()
    ensures EndTaps(8, 0x1ed) && EndTaps(8, 0x19b) && EndTaps(8, 0x127)
  {
  }

  lemma TapsSixth()
    ensures forall j :: 0 <= j < 6 ==> EndTaps(14, POLYS_615[j])
  {
    hide Shr, Bit;
    forall j | 0 <= j < 6 ensures EndTaps(14, POLYS_615[j]) {
      TopTap(POLYS_615[j]);
    }
  }

  lemma TopTap(p: nat)
    requires 16384 <= p < 32768
    ensures Bit(p, 14) == 1
  {
    assert Pow2(14) == 16384;
    ShrTop(p, 14);
  }

  /** Every shipped decoder has end taps on all its polynomials and metric words wide enough for ever; on
      16-bit words the widest comparison of the K=15 decoder is 26420. */
  lemma ShippedDesigns()
    ensures Usable(V27) && Usable(V29) && Usable(V39) && Usable(V615) && Usable(V39_MMX) && Usable(V615_MMX)
    ensures Spread(V615_MMX) + Most(V615_MMX) == 26420 < 0x8000
    ensures Spread(V39_MMX) + Most(V39_MMX) == 7120 < 0x8000
  {
    Powers();
    TapsHalf();
    TapsThird();
    TapsSixth();
    hide Bit, Pow2;
    assert forall j :: 0 <= j < 2 ==> Abs(V27.polys[j]) == V27.polys[j] && Abs(V29.polys[j]) == V29.polys[j];
    assert forall j :: 0 <= j < 3 ==> Abs(V39.polys[j]) == V39.polys[j];
    assert forall j :: 0 <= j < 6 ==> Abs(POLYS_615[j]) == POLYS_615[j];
  }

  lemma {:induction false} OddComplement(x: nat, q: nat, n: nat)
    requires x < Pow2(n) && q < Pow2(n)
    ensures Odd(And(x, Pow2(n) - 1 - q)) == (Odd(x) != Odd(And(x, q)))
  {
    if n != 0 {
      var c := Pow2(n) - 1 - q;
      assert c / 2 == Pow2(n - 1) - 1 - q / 2 && (c % 2 == 1) == (q % 2 == 0);
      OddComplement(x / 2, q / 2, n - 1);
      OddAnd(x, q);
      OddAnd(x, c);
      OddAppend(x / 2, x % 2);
    }
  }

  const WORD: nat := 0x1_0000_0000

  predicate IsInt(x: int) {
    -0x8000_0000 < x < 0x8000_0000
  }

  /** The mask the K=9 MMX table builder uses: it leaves out `abs`, so a negative polynomial acts as its
      32-bit two's complement pattern. */
  function RawMask(poly: int): nat
    requires IsInt(poly)
  {
    if poly < 0 then WORD + poly else poly
  }

  predicate SentRaw(poly: int, sr: nat)
    requires IsInt(poly)
  {
    (poly < 0) != Odd(And(sr, RawMask(poly)))
  }

  /** The number of zero bits below the lowest one. */
  function TrailingZeros(p: nat): nat
    requires p > 0
  {
    if p % 2 == 1 then 0 else 1 + TrailingZeros(p / 2)
  }

  // Below its lowest one a mask and its two's complement agree, above they are complements.
  lemma {:induction false} RawMaskParity(p: nat, x: nat, n: nat)
    requires 0 < p < Pow2(n) && x < Pow2(n)
    ensures Odd(And(x, Pow2(n) - p)) == (Odd(And(x, p)) != Odd(Shr(x, TrailingZeros(p) + 1)))
  {
    hide And, Odd;
    var c := Pow2(n) - p;
    OddAnd(x, p);
    OddAnd(x, c);
    if p % 2 == 1 {
      OddComplement(x, p - 1, n);
      OddAnd(x, p - 1);
      assert (p - 1) / 2 == p / 2;
      OddAppend(x / 2, x % 2);
    } else {
      assert Pow2(n) == 2 * Pow2(n - 1);
      assert c / 2 == Pow2(n - 1) - p / 2 && c % 2 == 0;
      RawMaskParity(p / 2, x / 2, n - 1);
    }
  }

  /** Without `abs` the table entry of an inverted polynomial is right exactly when the register has an
      even number of ones above the lowest tap; entries of plain polynomials are always right. */
  lemma RawTable(poly: int, state: nat)
    requires IsInt(poly) && 2 * state < WORD
    ensures SentRaw(poly, 2 * state) == Sent(poly, 2 * state) <==>
      poly >= 0 || !Odd(Shr(2 * state, TrailingZeros(-poly) + 1))
  {
    hide And, Odd, Pow2, Shr, TrailingZeros;
    if poly < 0 {
      var p: nat := -poly;
      Powers();
      RawMaskParity(p, 2 * state, 32);
      assert RawMask(poly) == WORD - p && Abs(poly) == p;
    }
  }

  lemma LowestTap(p: nat, state: nat)
    requires p % 2 == 1
    ensures Shr(2 * state, TrailingZeros(p) + 1) == state
  {
    assert Shr(2 * state, 1) == Shr(state, 0);
  }

  // For a polynomial with its lowest tap, as all decoders have, that is an even number of ones in the state.
  lemma RawTableOdd(poly: int, state: nat)
    requires IsInt(poly) && poly % 2 == 1 && 2 * state < WORD
    ensures SentRaw(poly, 2 * state) == Sent(poly, 2 * state) <==> poly > 0 || !Odd(state)
  {
    hide *;
    RawTable(poly, state);
    if poly < 0 {
      assert -poly % 2 == 1;
      LowestTap(-poly, state);
    }
  }

  // Two wrong entries: the first polynomial of the decoder inverted, at state 1, and an even one at state 3.
  lemma RawTableWrong()
    ensures SentRaw(-0x1ed, 2) != Sent(-0x1ed, 2)
    ensures SentRaw(-6, 6) != Sent(-6, 6)
  {
    RawTable(-0x1ed, 1);
    RawTable(-6, 3);
    hide SentRaw, Sent;
    assert Shr(2, 1) == 1 && Odd(1);
    assert TrailingZeros(6) == 1;
    assert Shr(6, 2) == 1;
  }
}
