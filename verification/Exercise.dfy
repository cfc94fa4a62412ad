/** The exercise of the test program: encode a block, damage it, decode it. */
module Exercise {
  import opened Bits
  import opened Field
  import opened Poly
  import opened Code
  import opened Distance
  import opened Decoding
  import opened Restoration
  import opened Codec
  import opened Encoder
  import opened Decoder

  /** Places, counted with the padding, where the noise is not zero. */
  function NoisePlaces(c: Params, noise: seq<nat>): set<nat> {
    set p | 0 <= p < |noise| && noise[p] != 0 :: c.pad + p
  }

  lemma NoiseDiffers(c: Params, cw: seq<nat>, noise: seq<nat>)
    requires |cw| == |noise|
    ensures DiffPositions(c, XorAll(cw, noise), cw) == NoisePlaces(c, noise)
  {
    forall p | 0 <= p < |cw| ensures XorAll(cw, noise)[p] != cw[p] <==> noise[p] != 0 {
      XorCancel(cw[p], noise[p]);
      XorSelf(cw[p]);
      XorZero(cw[p]);
    }
  }

  lemma NoisyBlock(c: Params, cw: seq<nat>, noise: seq<nat>)
    requires Good(c) && IsCodeword(c, cw) && |noise| == |cw| && IsSyms(c.f, noise)
    ensures IsBlock(c, XorAll(cw, noise)) && |cw| > 0
  {
    hide Xor;
    forall p | 0 <= p < |cw| ensures IsSym(c.f, XorAll(cw, noise)[p]) {
      SymXor(c.f, cw[p], noise[p]);
    }
  }

  // Noise within the capacity, counted the way the test program does.
  lemma NoiseWithin(c: Params, cw: seq<nat>, noise: seq<nat>, flagged: seq<nat>)
    requires |cw| == |noise| && Positions(c, flagged) && Elements(flagged) <= NoisePlaces(c, noise)
    requires 2 * |NoisePlaces(c, noise)| - |flagged| <= c.nroots
    ensures WithinCapacity(c, XorAll(cw, noise), cw, flagged)
    ensures Errors(c, XorAll(cw, noise), cw, flagged) + Elements(flagged) == NoisePlaces(c, noise)
    ensures |Errors(c, XorAll(cw, noise), cw, flagged)| + |flagged| == |NoisePlaces(c, noise)|
  {
    hide NoisePlaces, XorAll, DiffPositions;
    NoiseDiffers(c, cw, noise);
    ElementsSize(flagged);
    var e := Errors(c, XorAll(cw, noise), cw, flagged);
    assert e == NoisePlaces(c, noise) - Elements(flagged);
    assert e + Elements(flagged) == NoisePlaces(c, noise);
  }

  /** What the test program checks: the block is restored, the return value is the number of damaged
      symbols, and the places reported are exactly the damaged ones. */
  lemma NoiseRemoved(c: Params, cw: seq<nat>, noise: seq<nat>, flagged: seq<nat>)
    requires Good(c) && IsCodeword(c, cw) && |noise| == |cw| && IsSyms(c.f, noise)
    requires Positions(c, flagged) && Elements(flagged) <= NoisePlaces(c, noise)
    requires 2 * |NoisePlaces(c, noise)| - |flagged| <= c.nroots
    ensures IsBlock(c, XorAll(cw, noise))
    ensures var o := Decoded(c, XorAll(cw, noise), flagged);
      && o.block == cw && o.count == |NoisePlaces(c, noise)|
      && |o.places| == o.count && Elements(o.places) == NoisePlaces(c, noise)
  {
    hide *;
    NoisyBlock(c, cw, noise);
    NoiseWithin(c, cw, noise, flagged);
    BoundedDistance(c, cw, XorAll(cw, noise), flagged);
    var data := XorAll(cw, noise);
    if AllZero(Syndromes(c, data)) {
      NoiseDiffers(c, cw, noise);
      NoDifference(c, cw);
      CleanOutcome(c, data, flagged);
    } else {
      ElementsSize(Decoded(c, data, flagged).places);
    }
  }

  lemma NoDifference(c: Params, cw: seq<nat>)
    ensures DiffPositions(c, cw, cw) == {} && |DiffPositions(c, cw, cw)| == 0
  {
  }

  lemma CleanOutcome(c: Params, data: seq<nat>, eras: seq<nat>)
    requires Good(c) && IsBlock(c, data) && AllZero(Syndromes(c, data))
    ensures Decoded(c, data, eras) == Outcome(0, data, []) && Elements([]) == {}
  {
  }

  /** One trial: encode a message, add noise to the block, decode with some of the damaged places flagged as
      erasures, and compare. */
  method Trial(rs: RS, message: array<nat>, noise: seq<nat>, derrlocs: array<nat>, erasures: nat)
    returns (block: seq<nat>, tblock: array<nat>, derrors: int)
    requires rs.Valid() && rs.nroots >= 1
    requires message.Length == rs.nn - rs.nroots - rs.pad && IsSyms(rs.F(), message[..])
    requires |noise| == rs.nn - rs.pad && IsSyms(rs.F(), noise)
    requires derrlocs !in rs.Tables() && derrlocs != message && erasures <= rs.nroots <= derrlocs.Length
    requires Positions(rs.P(), derrlocs[..erasures])
    requires Elements(derrlocs[..erasures]) <= NoisePlaces(rs.P(), noise)
    requires 2 * |NoisePlaces(rs.P(), noise)| - erasures <= rs.nroots
    modifies derrlocs
    ensures IsCodeword(rs.P(), block) && message[..] == old(message[..]) && message[..] <= block
    ensures tblock[..] == block && derrors == |NoisePlaces(rs.P(), noise)| <= derrlocs.Length
    ensures Elements(derrlocs[..derrors]) == NoisePlaces(rs.P(), noise)
  {
    hide *;
    ghost var flagged := derrlocs[..erasures];
    TrialParts(rs, flagged);
    var parity := new nat[rs.nroots];
    Encode(rs, message, parity);
    block := message[..] + parity[..];
    NoisyBlock(rs.P(), block, noise);
    NoiseRemoved(rs.P(), block, noise, flagged);
    tblock := new nat[rs.nn - rs.pad];
    var i := 0;
    while i < tblock.Length
      invariant 0 <= i <= tblock.Length && rs.Valid() && derrlocs[..erasures] == flagged
      invariant forall k :: 0 <= k < i ==> tblock[k] == XorAll(block, noise)[k]
    {
      tblock[i] := Xor(block[i], noise[i]);
      i := i + 1;
    }
    assert tblock[..] == XorAll(block, noise);
    ErasureList(derrlocs, erasures);
    assert derrlocs[..erasures] == flagged;
    forall j | 0 <= j < erasures ensures derrlocs[j] < rs.nn {
      assert derrlocs[j] == flagged[j];
    }
    ghost var o := Decoded(rs.P(), XorAll(block, noise), flagged);
    derrors := Decode(rs, tblock, derrlocs, erasures);
    assert tblock[..] == o.block && derrors == o.count;
    assert derrlocs[..] == o.places + derrlocs[..][|o.places|..];
    assert derrlocs[..derrors] == o.places;
  }

  lemma TrialParts(rs: RS, flagged: seq<nat>)
    requires rs.Valid() && Positions(rs.P(), flagged)
    ensures Good(rs.P()) && rs.Tables() == {rs.alphaTo, rs.indexOf, rs.genpoly}
    ensures rs.P().nroots == rs.nroots && rs.P().f == rs.F() && NN(rs.F()) == rs.nn && rs.P().pad == rs.pad
    ensures rs.nroots + rs.pad < rs.nn
    ensures forall j :: 0 <= j < |flagged| ==> flagged[j] < rs.nn
  {
    GoodParts(rs.P());
  }

  lemma ErasureList(eras: array<nat>, n: nat)
    requires n <= eras.Length
    ensures EraList(eras, n) == eras[..n]
  {
  }
}
