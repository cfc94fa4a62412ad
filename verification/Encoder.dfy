/** The systematic encoder: a shift register fed back through the generator polynomial. */
module Encoder {
  import opened Bits
  import opened Field
  import opened Poly
  import opened Code
  import opened Distance
  import opened Generator
  import opened Codec

  /** The register with the feedback added to all symbols but the first. */
  ghost predicate FedBack(f: GF, was: seq<nat>, now: seq<nat>, fb: nat, g: seq<nat>, n: nat) {
    && |was| == |now| && |g| == |was| + 1 && 1 <= n <= |was|
    && now[0] == was[0]
    && (forall j :: 1 <= j < n ==> now[j] == Xor(was[j], Mul(f, fb, g[j])))
    && forall j :: n <= j < |was| ==> now[j] == was[j]
  }

  // A generator coefficient always has an ordinary index.
  lemma GeneratorIndex(rs: RS, j: nat)
    requires rs.Valid() && j <= rs.nroots
    ensures rs.genpoly[rs.nroots - j] < rs.nn
    ensures Exp(rs.F(), rs.genpoly[rs.nroots - j]) == GeneratorPoly(rs.P(), rs.nroots)[j]
  {
    GeneratorNonzero(rs.P(), j);
    GoodPrimitive(rs.P());
    hide Good, GeneratorPoly, Exp, Primitive;
    IndexZero(rs.F(), rs.genpoly[rs.nroots - j], GeneratorPoly(rs.P(), rs.nroots)[j]);
  }

  method FeedBack(rs: RS, parity: array<nat>, feedback: nat, ghost fb: nat)
    requires rs.Valid() && parity !in rs.Tables() && parity.Length == rs.nroots >= 1
    requires feedback < rs.nn && Exp(rs.F(), feedback) == fb
    modifies parity
    ensures FedBack(rs.F(), old(parity[..]), parity[..], fb, GeneratorPoly(rs.P(), rs.nroots), rs.nroots)
  {
    hide Exp, Primitive, GeneratorPoly, Mul, Xor;
    GoodParts(rs.P());
    ghost var f, g, was := rs.F(), GeneratorPoly(rs.P(), rs.nroots), parity[..];
    var j := 1;
    while j < rs.nroots
      invariant 1 <= j <= rs.nroots
      invariant FedBack(f, was, parity[..], fb, g, j)
    {
      GeneratorIndex(rs, j);
      var t := Lookup(f, rs.mm, rs.nn, rs.alphaTo, feedback, rs.genpoly[rs.nroots - j]);
      parity[j] := Xor(parity[j], t);
      j := j + 1;
    }
  }

  // Feeding back, shifting and filling the last symbol is one step of the register.
  lemma StepDone(f: GF, was: seq<nat>, now: seq<nat>, d: nat, g: seq<nat>, last: nat, after: seq<nat>)
    requires |was| > 0 && FedBack(f, was, now, Xor(d, was[0]), g, |was|)
    requires last == Mul(f, Xor(d, was[0]), g[|was|])
    requires |after| == |was| && after[|was| - 1] == last && forall j :: 0 <= j < |was| - 1 ==> after[j] == now[j + 1]
    ensures after == EncodeStep(f, g, was, d)
  {
    hide Xor, Mul;
    var r := EncodeStep(f, g, was, d);
    XorComm(0, last);
    XorZero(last);
    forall j | 0 <= j < |was| ensures after[j] == r[j] {
      if j < |was| - 1 {
        assert after[j] == now[j + 1];
      }
    }
  }

  lemma NoFeedback(f: GF, was: seq<nat>, g: seq<nat>, n: nat)
    requires |g| == |was| + 1 && 1 <= n <= |was|
    ensures FedBack(f, was, was, 0, g, n)
    ensures Mul(f, 0, g[|was|]) == 0
  {
    hide Xor, Mul;
    forall j | 1 <= j < n ensures was[j] == Xor(was[j], Mul(f, 0, g[j])) {
      MulZero(f, g[j]);
      XorZero(was[j]);
    }
    MulZero(f, g[|was|]);
  }

  method EncodeSymbol(rs: RS, parity: array<nat>, d: nat)
    requires rs.Valid() && parity !in rs.Tables() && parity.Length == rs.nroots >= 1
    requires IsSym(rs.F(), d) && IsSyms(rs.F(), parity[..])
    modifies parity
    ensures parity[..] == EncodeStep(rs.F(), GeneratorPoly(rs.P(), rs.nroots), old(parity[..]), d)
  {
    hide Exp, Primitive, GeneratorPoly, Mul, Xor, FedBack, EncodeStep;
    GoodParts(rs.P());
    var n := rs.nroots;
    ghost var f, g, was := rs.F(), GeneratorPoly(rs.P(), n), parity[..];
    ghost var fb := Xor(d, was[0]);
    SymXor(f, d, was[0]);
    var feedback := rs.indexOf[Xor(d, parity[0])];
    IndexZero(f, feedback, fb);
    var last := 0;
    if feedback != rs.nn {
      FeedBack(rs, parity, feedback, fb);
      GeneratorIndex(rs, n);
      last := Lookup(f, rs.mm, rs.nn, rs.alphaTo, feedback, rs.genpoly[0]);
    } else {
      NoFeedback(f, was, g, n);
    }
    ghost var now := parity[..];
    forall k | 0 <= k < n - 1 {
      parity[k] := parity[k + 1];
    }
    parity[n - 1] := last;
    StepDone(f, was, now, d, g, last, parity[..]);
  }

  /** Parity of a data block, most significant symbol first. */
  method Encode(rs: RS, data: array<nat>, parity: array<nat>)
    requires rs.Valid() && rs.nroots >= 1
    requires data.Length == rs.nn - rs.nroots - rs.pad && IsSyms(rs.F(), data[..])
    requires parity.Length == rs.nroots && parity !in rs.Tables() && parity != data
    modifies parity
    ensures parity[..] == Parity(rs.F(), GeneratorPoly(rs.P(), rs.nroots), data[..], rs.nroots)
    ensures IsCodeword(rs.P(), data[..] + parity[..])
    ensures forall p :: |p| == rs.nroots && IsCodeword(rs.P(), data[..] + p) ==> p == parity[..]
  {
    hide Exp, Primitive, GeneratorPoly, Mul, Xor, EncodeStep, IsCodeword;
    ghost var f, g, n := rs.F(), GeneratorPoly(rs.P(), rs.nroots), rs.nroots;
    var i := 0;
    while i < rs.nroots
      invariant 0 <= i <= rs.nroots
      invariant forall j :: 0 <= j < i ==> parity[j] == 0
    {
      parity[i] := 0;
      i := i + 1;
    }
    i := 0;
    while i < rs.nn - rs.nroots - rs.pad
      invariant 0 <= i <= data.Length
      invariant parity[..] == Parity(f, g, data[..i], n)
    {
      ParityRange(f, g, data[..i], n);
      EncodeSymbol(rs, parity, data[i]);
      assert data[..i + 1][..i] == data[..i];
      i := i + 1;
    }
    assert data[..i] == data[..];
    EncodedIsCodeword(rs.P(), data[..]);
    forall p | |p| == n && IsCodeword(rs.P(), data[..] + p) ensures p == parity[..] {
      ParityUnique(rs.P(), data[..], p);
    }
  }
}
