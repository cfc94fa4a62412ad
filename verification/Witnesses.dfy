/** Concrete inputs at which two tempting claims about the codec fail. */
module Witnesses {
  import opened Bits
  import opened Field
  import opened Order
  import opened Poly
  import opened BerlekampMassey
  import opened Code
  import opened Distance
  import opened Chien
  import opened Decoding

  // The register can return to 1 although x has a smaller order: x^4+x^3+x^2+x+1 over 4-bit
  // symbols passes the check of the initialisation but does not generate the field; the symbol 3
  // never gets an index.
  lemma AcceptedButNotPrimitive()
    ensures var f := GF(4, 0x1f);
      Exp(f, NN(f)) == 1 && Exp(f, 5) == 1 && !Primitive(f) && !Written(f, 3, NN(f))
  {
    var f := GF(4, 0x1f);
    assert Pow2(4) == 16;
    assert Exp(f, 1) == 2;
    assert Exp(f, 2) == 4;
    assert Exp(f, 3) == 8;
    assert Xor(16, 31) == 15;
    assert Exp(f, 4) == 15;
    assert Xor(30, 31) == 1;
    assert Exp(f, 5) == 1;
    ExpAdd(f, 5, 5);
    ExpAdd(f, 10, 5);
    forall i: nat | i < NN(f) ensures Exp(f, i) != 3 {
      ReturnRepeats(f, 5, i);
      var r := i % 5;
      assert r == 0 || r == 1 || r == 2 || r == 3 || r == 4;
    }
  }

  // ----- a nonnegative return code without a codeword

  function Unit(n: nat): (u: seq<nat>)
    ensures |u| == n + 1 && u[0] == 1 && forall i :: 1 <= i <= n ==> u[i] == 0
  {
    [1] + seq(n, _ => 0)
  }

  function Impulse(n: nat): (s: seq<nat>)
    requires n >= 1
    ensures |s| == n && s[0] == 1 && forall i :: 1 <= i < n ==> s[i] == 0
  {
    [1] + seq(n - 1, _ => 0)
  }

  lemma ConvUnit(f: GF, u: seq<nat>, s: seq<nat>, k: nat)
    requires Primitive(f) && |u| > 0 && u[0] == 1 && (forall i :: 1 <= i < |u| ==> u[i] == 0)
    requires k < |s| && IsSyms(f, s)
    ensures Conv(f, u, s, k) == s[k]
  {
    PrimitiveWide(f);
    hide Mul, Xor, Primitive;
    DotSingle(f, u, Reverse(s, k), 0, k + 1);
    MulOne(f, s[k]);
  }

  lemma InvOne(f: GF)
    requires Primitive(f)
    ensures IsSym(f, 1) && Inv(f, 1) == 1
  {
    PrimitiveWide(f);
    NNPositive(f);
    hide Mul, Primitive, Inv;
    MulInv(f, 1);
    MulOne(f, Inv(f, 1));
  }

  /** 1 + z as an array of n + 1 coefficients. */
  function OnePlusZ(n: nat): (u: seq<nat>)
    requires n >= 1
    ensures |u| == n + 1 && u[0] == 1 && u[1] == 1 && forall i :: 2 <= i <= n ==> u[i] == 0
  {
    [1, 1] + seq(n - 1, _ => 0)
  }

  lemma ConvOnePlusZ(f: GF, n: nat)
    requires Primitive(f) && n >= 2
    ensures Conv(f, OnePlusZ(n), Impulse(n), 1) == 1
  {
    PrimitiveWide(f);
    NNPositive(f);
    hide Mul, Xor, Primitive;
    var u, v := OnePlusZ(n), Reverse(Impulse(n), 1);
    assert v[0] == 0 && v[1] == 1;
    DotLast(f, u, v, 2);
    DotExtend(f, u, v, 0, 1);
    DotStart(f, u, v);
    MulOne(f, 1);
    XorComm(0, 1);
    XorZero(1);
  }

  // Adding z to a polynomial that starts 1 + a z flips its linear coefficient.
  lemma AddZ(f: GF, n: nat)
    requires Primitive(f) && n >= 1
    ensures AddMul(f, Unit(n), 1, Shifted(Unit(n))) == OnePlusZ(n)
    ensures AddMul(f, OnePlusZ(n), 1, Shifted(Unit(n))) == Unit(n)
    ensures Scaled(f, 1, Unit(n)) == Unit(n)
  {
    PrimitiveWide(f);
    NNPositive(f);
    hide Mul, Xor, Primitive;
    MulOne(f, 0);
    MulOne(f, 1);
    XorZero(0);
    XorZero(1);
    XorComm(0, 1);
    XorSelf(1);
  }

  lemma ImpulseFirst(f: GF, n: nat)
    requires Primitive(f) && n >= 2
    ensures Step(f, Impulse(n), 0, State(Unit(n), Unit(n), 0), 0) == State(OnePlusZ(n), Unit(n), 1)
  {
    InvOne(f);
    assert IsSyms(f, Impulse(n));
    hide Mul, Xor, Primitive, Conv, Inv, Unit, OnePlusZ, Impulse, Shifted;
    ConvUnit(f, Unit(n), Impulse(n), 0);
    AddZ(f, n);
  }

  lemma ImpulseSecond(f: GF, n: nat)
    requires Primitive(f) && n >= 2
    ensures Step(f, Impulse(n), 0, State(OnePlusZ(n), Unit(n), 1), 1) == State(Unit(n), Shifted(Unit(n)), 1)
  {
    hide Mul, Xor, Primitive, Conv, Inv, Unit, OnePlusZ, Impulse, Shifted;
    ConvOnePlusZ(f, n);
    AddZ(f, n);
  }

  lemma ImpulseLater(f: GF, n: nat, st: State, r: nat)
    requires Primitive(f) && 2 <= r < n && st.lambda == Unit(n) && |st.b| == n + 1 && st.el == 1
    ensures var st' := Step(f, Impulse(n), 0, st, r);
      st'.lambda == Unit(n) && st'.el == 1
  {
    InvOne(f);
    assert IsSyms(f, Impulse(n));
    hide Mul, Xor, Primitive, Conv, Unit, Impulse, Shifted;
    ConvUnit(f, Unit(n), Impulse(n), r);
  }

  lemma RunTwice(f: GF, s: seq<nat>, u: seq<nat>)
    requires Primitive(f) && |u| > 0
    ensures Run(f, s, 0, u, 2) == Step(f, s, 0, Step(f, s, 0, State(u, u, 0), 0), 1)
  {
    hide Step, Primitive;
    assert Run(f, s, 0, u, 0) == State(u, u, 0);
    assert Run(f, s, 0, u, 1) == Step(f, s, 0, State(u, u, 0), 0);
  }

  // With syndromes 1, 0, ..., 0 the locator collapses back to 1 at the second step and stays there.
  lemma {:induction false} ImpulseRun(f: GF, n: nat, r: nat)
    requires Primitive(f) && 2 <= r <= n
    ensures var st := Run(f, Impulse(n), 0, Unit(n), r);
      st.lambda == Unit(n) && st.el == 1
  {
    hide Step, Unit, OnePlusZ, Impulse, Primitive, Shifted;
    if r == 2 {
      RunTwice(f, Impulse(n), Unit(n));
      ImpulseFirst(f, n);
      ImpulseSecond(f, n);
    } else {
      ImpulseRun(f, n, r - 1);
      ImpulseLater(f, n, Run(f, Impulse(n), 0, Unit(n), r - 1), r - 1);
    }
  }

  // Such a block is returned unchanged with code 0, although it is no codeword.
  lemma ImpulseAccepted(c: Params, data: seq<nat>)
    requires Good(c) && c.nroots >= 2 && IsBlock(c, data) && Syndromes(c, data) == Impulse(c.nroots)
    ensures Decoded(c, data, []) == Outcome(0, data, []) && !IsCodeword(c, data)
  {
    var f, n := c.f, c.nroots;
    GoodPrimitive(c);
    assert LocatorsOf(c, []) == [];
    assert ErasureLocator(f, [], n) == Unit(n);
    assert Syndrome(c, data, 0) == Impulse(n)[0];
    hide Good, Primitive, Run, Syndrome, RootIndices, Place, Unit;
    ImpulseRun(f, n, n);
    assert Final(c, data, []).lambda == Unit(n);
    NoRoots(c, n);
  }

  lemma NoRoots(c: Params, n: nat)
    requires Good(c)
    ensures Degree(Unit(n)) == 0 && RootIndices(c.f, Unit(n), NN(c.f)) == []
  {
    var u := Unit(n);
    GoodPrimitive(c);
    PlacesOfRoots(c, u);
    var ps := Places(c, RootIndices(c.f, u, NN(c.f)));
    LocatorsDistinct(c, ps);
    NNPositive(c.f);
    hide Good, Locator, Place, Primitive, Quo, RootIndices, Unit;
    RootsAtMostDegree(c.f, u, 0, LocatorsOf(c, ps));
  }

  const SMALL := GF(2, 7)

  lemma SmallField()
    ensures Primitive(SMALL) && NN(SMALL) == 3
    ensures Exp(SMALL, 0) == 1 && Exp(SMALL, 1) == 2
  {
    assert Pow2(2) == 4;
    assert Exp(SMALL, 1) == 2;
    assert Xor(4, 7) == 3;
    assert Exp(SMALL, 2) == 3;
    assert Xor(6, 7) == 1;
    assert Exp(SMALL, 3) == 1;
  }

  lemma SmallProducts()
    ensures Mul(SMALL, 1, 2) == 2 && Mul(SMALL, 2, 2) == 3
    ensures IsSym(SMALL, 0) && IsSym(SMALL, 2) && IsSym(SMALL, 3)
    ensures Xor(3, 2) == 1 && Xor(3, 3) == 0
  {
    SmallField();
    hide Primitive;
    MulExp(SMALL, 0, 1);
    MulExp(SMALL, 1, 1);
    assert Xor(4, 7) == 3;
    assert Exp(SMALL, 2) == 3;
  }

  const SMALL_CODE := Params(SMALL, 0, 1, 1, 2, 0)

  lemma SmallGood()
    ensures Good(SMALL_CODE) && NN(SMALL) == 3 && Root(SMALL_CODE, 0) == 1 && Root(SMALL_CODE, 1) == 2
  {
    SmallField();
    hide Primitive, Exp;
    assert 1 * 1 == 1 + 0 * NN(SMALL);
  }

  lemma SmallSyndromes()
    ensures IsSyms(SMALL, [0, 2, 3]) && Syndromes(SMALL_CODE, [0, 2, 3]) == Impulse(2)
  {
    SmallField();
    SmallGood();
    SmallProducts();
    hide Primitive, Good, Root, Mul, Xor, Quo, Exp, IsSym;
    TwoHorner(SMALL, 2, 3, 1);
    TwoHorner(SMALL, 2, 3, 2);
  }

  // A code over 2-bit symbols with two roots, and a block with syndromes 1, 0.
  lemma ReturnCodeIsNotEnough()
    ensures Good(SMALL_CODE) && IsBlock(SMALL_CODE, [0, 2, 3])
    ensures Decoded(SMALL_CODE, [0, 2, 3], []) == Outcome(0, [0, 2, 3], [])
    ensures !IsCodeword(SMALL_CODE, [0, 2, 3])
  {
    SmallGood();
    SmallSyndromes();
    hide Good, IsSyms, NN, Syndromes;
    ImpulseAccepted(SMALL_CODE, [0, 2, 3]);
  }

  lemma TwoHorner(f: GF, a: nat, b: nat, x: nat)
    requires Primitive(f) && IsSyms(f, [0, a, b])
    ensures Quo(f, [0, a, b], x, 2) == Xor(b, Mul(f, x, a))
  {
    var p := [0, a, b];
    hide Xor, Mul, Quo, Primitive;
    QuoZero(f, p, x);
    QuoStep(f, p, x, 1);
    QuoStep(f, p, x, 2);
    MulZero(f, x);
    XorZero(a);
  }
}
