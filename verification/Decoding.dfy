/** What the decoder computes, and when it restores the codeword that was sent. */
module Decoding {
  import opened Bits
  import opened Field
  import opened Poly
  import opened BerlekampMassey
  import opened Forney
  import opened Code
  import opened Distance
  import opened Chien
  import opened Values

  /** Return code, corrected block, and the places written back over the erasure list. */
  datatype Outcome = Outcome(count: int, block: seq<nat>, places: seq<nat>)

  ghost predicate AllZero(s: seq<nat>) {
    forall i :: 0 <= i < |s| ==> s[i] == 0
  }

  /** Errata locator after all syndromes. */
  ghost function Final(c: Params, data: seq<nat>, eras: seq<nat>): (st: State)
    requires Primitive(c.f) && |data| > 0
    ensures |st.lambda| == c.nroots + 1
  {
    Run(c.f, Syndromes(c, data), |eras|, ErasureLocator(c.f, LocatorsOf(c, eras), c.nroots), c.nroots)
  }

  /** The block with y added at a place, unless the place lies in the padding. */
  function CorrectOne(c: Params, block: seq<nat>, place: nat, y: nat): (r: seq<nat>)
    ensures |r| == |block|
  {
    if c.pad <= place < c.pad + |block| then block[place - c.pad := Xor(block[place - c.pad], y)] else block
  }

  /** Corrections from the last place to the first. */
  function Correct(c: Params, block: seq<nat>, places: seq<nat>, ys: seq<nat>): (r: seq<nat>)
    requires |places| == |ys|
    ensures |r| == |block|
  {
    if |places| == 0 then block
    else CorrectOne(c, Correct(c, block, places[1..], ys[1..]), places[0], ys[0])
  }

  ghost function ErrorValues(c: Params, p: seq<nat>, s: seq<nat>, d: nat, roots: seq<nat>): (ys: seq<nat>)
    requires Primitive(c.f) && forall j :: 0 <= j < |roots| ==> roots[j] <= NN(c.f)
    ensures |ys| == |roots| && forall j :: 0 <= j < |roots| ==> ys[j] == ErrorValue(c, p, s, d, roots[j])
  {
    seq(|roots|, j requires 0 <= j < |roots| => ErrorValue(c, p, s, d, roots[j]))
  }

  ghost function Decoded(c: Params, data: seq<nat>, eras: seq<nat>): Outcome
    requires Good(c) && IsBlock(c, data)
  {
    var s := Syndromes(c, data);
    if AllZero(s) then Outcome(0, data, [])
    else
      var p := Final(c, data, eras).lambda;
      var d := Degree(p);
      var roots := RootIndices(c.f, p, NN(c.f));
      if |roots| != d then Outcome(-1, data, [])
      else Outcome(d, Correct(c, data, Places(c, roots), ErrorValues(c, p, s, d, roots)), Places(c, roots))
  }

  // ----- corrections, symbol by symbol

  lemma {:induction false} CorrectSymbols(c: Params, block: seq<nat>, ps: seq<nat>, ys: seq<nat>)
    requires Distinct(ps) && |ps| == |ys|
    ensures var b := Correct(c, block, ps, ys);
      && (forall q :: 0 <= q < |b| && c.pad + q !in ps ==> b[q] == block[q])
      && forall j :: 0 <= j < |ps| && c.pad <= ps[j] < c.pad + |block| ==>
           b[ps[j] - c.pad] == Xor(block[ps[j] - c.pad], ys[j])
  {
    hide Xor;
    if |ps| > 0 {
      var ps', ys' := ps[1..], ys[1..];
      CorrectSymbols(c, block, ps', ys');
      var b', b := Correct(c, block, ps', ys'), Correct(c, block, ps, ys);
      forall q | 0 <= q < |b| && c.pad + q !in ps ensures b[q] == block[q] {
        assert c.pad + q !in ps';
      }
      forall j | 0 <= j < |ps| && c.pad <= ps[j] < c.pad + |block|
        ensures b[ps[j] - c.pad] == Xor(block[ps[j] - c.pad], ys[j])
      {
        if j == 0 {
          assert ps[0] !in ps';
        } else {
          assert ps[j] == ps'[j - 1] && ys[j] == ys'[j - 1];
        }
      }
    }
  }

  // ----- error values are the weights that the evaluator asks for

  lemma EvaluationFacts(f: GF, p: seq<nat>, s: seq<nat>, d: nat, nroots: nat, r: nat, x: nat)
    requires Primitive(f) && IsSyms(f, p) && IsSym(f, x) && x != 0 && Mul(f, x, Exp(f, r)) == 1
    requires 1 <= d <= nroots && DegreeAtMost(p, d) && Quo(f, p, x, d) == 0
    ensures var v, t := QuotientValue(f, p, x, Exp(f, r), d), Pow(f, x, d - 1);
      && IsSym(f, v)
      && Quo(f, Quotient(f, p, x, d), x, d - 1) == Mul(f, t, v)
      && Quo(f, Evaluator(f, p, s, d), x, d - 1) == Mul(f, t, Num1(f, p, s, d, r))
      && Derivative(f, p, r, DerivativeTerms(d, nroots)) == Mul(f, x, v)
  {
    var a, q := Exp(f, r), Quotient(f, p, x, d);
    hide Exp, Mul, Primitive, Quo, Pow, NN, IsSyms, DegreeAtMost, Dot, DerivativeTerms;
    QuoIsEval(f, q, x, a, d - 1);
    QuoIsEval(f, Evaluator(f, p, s, d), x, a, d - 1);
    DerivativeAtRoot(f, p, d, nroots, x, r);
    DotRange(f, q, Powers(f, a, d), d);
  }

  // The three quantities of an error value in terms of the locator x.
  lemma ValueFacts(c: Params, p: seq<nat>, s: seq<nat>, d: nat, r: nat, x: nat)
    requires Good(c) && 1 <= r <= NN(c.f) && 1 <= d <= c.nroots
    requires IsSyms(c.f, p) && DegreeAtMost(p, d)
    requires x == Locator(c, Place(c, r)) && Quo(c.f, p, x, d) == 0
    ensures Primitive(c.f) && IsSym(c.f, x) && x != 0
    ensures var v, t := QuotientValue(c.f, p, x, Exp(c.f, r), d), Pow(c.f, x, d - 1);
      && IsSym(c.f, v)
      && Quo(c.f, Quotient(c.f, p, x, d), x, d - 1) == Mul(c.f, t, v)
      && Quo(c.f, Evaluator(c.f, p, s, d), x, d - 1) == Mul(c.f, t, Num1(c.f, p, s, d, r))
      && Derivative(c.f, p, r, DerivativeTerms(d, c.nroots)) == Mul(c.f, x, v)
      && Mul(c.f, Pow(c.f, x, c.fcr), Num2(c, r)) == x
  {
    GoodParts(c);
    hide *;
    PlaceLocator(c, r);
    LocatorRange(c, Place(c, r));
    EvaluationFacts(c.f, p, s, d, c.nroots, r, x);
    Num2Cancels(c, x, r);
  }

  // One error value: its weight times the quotient's value is the evaluator's value.
  lemma ValueWeight(c: Params, p: seq<nat>, s: seq<nat>, d: nat, r: nat, x: nat)
    requires Good(c) && 1 <= r <= NN(c.f) && 1 <= d <= c.nroots
    requires IsSyms(c.f, p) && DegreeAtMost(p, d)
    requires x == Locator(c, Place(c, r)) && Quo(c.f, p, x, d) == 0
    requires Quo(c.f, Quotient(c.f, p, x, d), x, d - 1) != 0
    ensures Derivative(c.f, p, r, DerivativeTerms(d, c.nroots)) != 0
    ensures Mul(c.f, Mul(c.f, ErrorValue(c, p, s, d, r), Pow(c.f, x, c.fcr)),
      Quo(c.f, Quotient(c.f, p, x, d), x, d - 1))
         == Quo(c.f, Evaluator(c.f, p, s, d), x, d - 1)
  {
    ValueFacts(c, p, s, d, r, x);
    var f := c.f;
    GoodParts(c);
    var v, t, num1 := QuotientValue(f, p, x, Exp(f, r), d), Pow(f, x, d - 1), Num1(f, p, s, d, r);
    hide Exp, Mul, Primitive, Quo, Locator, Pow, Derivative, DerivativeTerms, Num1, Num2, QuotientValue, Place, Good,
      NN;
    MulZero(f, t);
    NoZeroDivisors(f, x, v);
    if num1 == 0 {
      MulZero(f, Pow(f, x, c.fcr));
      MulZero(f, Mul(f, t, v));
    } else {
      MulInv(f, Mul(f, x, v));
      ValueProduct(f, num1, Num2(c, r), Inv(f, Mul(f, x, v)), Pow(f, x, c.fcr), t, x, v);
      MulComm(f, num1, t);
    }
  }

  // ----- all places at once

  /** What the decoder knows once the search found as many roots as the degree. */
  ghost predicate Found(c: Params, p: seq<nat>, d: nat, roots: seq<nat>) {
    && Good(c) && |p| == c.nroots + 1 && IsSyms(c.f, p) && p[0] == 1
    && d == Degree(p)
    && roots == RootIndices(c.f, p, NN(c.f)) && |roots| == d
  }

  lemma FoundSplits(c: Params, p: seq<nat>, d: nat, roots: seq<nat>)
    requires Found(c, p, d, roots)
    ensures Positions(c, Places(c, roots)) && d <= c.nroots
    ensures Splits(c.f, p[..d + 1], LocatorsOf(c, Places(c, roots)))
    ensures IsSyms(c.f, p) && DegreeAtMost(p, d)
    ensures forall pos :: 0 <= pos < NN(c.f) && Quo(c.f, p, Locator(c, pos), |p| - 1) == 0 ==> pos in Places(c, roots)
  {
    PlacesOfRoots(c, p);
    var ps := Places(c, roots);
    LocatorsDistinct(c, ps);
    GoodPrimitive(c);
    hide Quo, Locator, Place, Primitive, Good, RootIndices;
    VanishesTruncated(c.f, p, d, LocatorsOf(c, ps));
  }

  // Truncating at the degree does not change convolutions, quotients or evaluators.
  lemma TruncatedConv(f: GF, p: seq<nat>, d: nat, s: seq<nat>, k: nat)
    requires d < |p| && DegreeAtMost(p, d)
    ensures Conv(f, p[..d + 1], s, k) == Conv(f, p, s, k)
  {
    hide Mul, Xor;
    DotTerms(f, p[..d + 1], Reverse(s, k), p, Reverse(s, k), k + 1);
  }

  lemma TruncatedEvaluator(f: GF, p: seq<nat>, d: nat, s: seq<nat>)
    requires d < |p| && DegreeAtMost(p, d)
    ensures Evaluator(f, p[..d + 1], s, d) == Evaluator(f, p, s, d)
  {
    hide Conv, DegreeAtMost;
    forall i | 0 <= i < d ensures Conv(f, p[..d + 1], s, i) == Conv(f, p, s, i) {
      TruncatedConv(f, p, d, s, i);
    }
  }

  lemma TruncatedQuo(f: GF, p: seq<nat>, d: nat, x: nat, k: nat)
    requires d < |p| && k <= d
    ensures Quo(f, p[..d + 1], x, k) == Quo(f, p, x, k)
  {
    hide Mul, Xor;
    DotTerms(f, p[..d + 1], PowersDown(f, x, k), p, PowersDown(f, x, k), k + 1);
  }

  lemma TruncatedQuotient(f: GF, p: seq<nat>, d: nat, x: nat)
    requires d < |p|
    ensures Quotient(f, p[..d + 1], x, d) == Quotient(f, p, x, d)
  {
    hide Quo;
    forall i | 0 <= i < d ensures Quo(f, p[..d + 1], x, i) == Quo(f, p, x, i) {
      TruncatedQuo(f, p, d, x, i);
    }
  }

  /** Each error value times its locator to the power fcr. */
  function WeightsOfValues(c: Params, ys: seq<nat>, ps: seq<nat>): (w: seq<nat>)
    requires |ys| == |ps|
    ensures |w| == |ps|
    ensures forall j :: 0 <= j < |w| ==> w[j] == Mul(c.f, ys[j], Pow(c.f, Locator(c, ps[j]), c.fcr))
  {
    seq(|ps|, j requires 0 <= j < |ps| => Mul(c.f, ys[j], Pow(c.f, Locator(c, ps[j]), c.fcr)))
  }

  lemma SplitAt(f: GF, p: seq<nat>, xs: seq<nat>, l: nat)
    requires Primitive(f) && Splits(f, p, xs) && l < |xs|
    ensures Quo(f, p, xs[l], |xs|) == 0
    ensures Quo(f, Quotient(f, p, xs[l], |xs|), xs[l], |xs| - 1) != 0
  {
    hide Quo, Primitive;
    OwnValueNonzero(f, p, xs, l);
    assert Quo(f, p, xs[l], |p| - 1) == 0;
  }

  // What the decoder's formulas need to know about one recorded root.
  lemma RecordedRoot(c: Params, p: seq<nat>, d: nat, roots: seq<nat>, l: nat)
    requires Found(c, p, d, roots) && l < d
    ensures Good(c) && Primitive(c.f) && d <= c.nroots && l < |roots| && 1 <= roots[l] <= NN(c.f) && d < |p|
    ensures IsSyms(c.f, p) && DegreeAtMost(p, d)
    ensures var x := Locator(c, Place(c, roots[l]));
      Quo(c.f, p, x, d) == 0 && Quo(c.f, Quotient(c.f, p, x, d), x, d - 1) != 0
  {
    GoodPrimitive(c);
    FoundSplits(c, p, d, roots);
    var xs := LocatorsOf(c, Places(c, roots));
    assert xs[l] == Locator(c, Place(c, roots[l])) && |xs| == d && d < |p|;
    assert 1 <= roots[l] <= NN(c.f);
    hide *;
    SplitAt(c.f, p[..d + 1], xs, l);
    TruncatedQuotient(c.f, p, d, xs[l]);
    TruncatedQuo(c.f, p, d, xs[l], d);
  }

  lemma ForneyAt(c: Params, p: seq<nat>, s: seq<nat>, d: nat, roots: seq<nat>, l: nat)
    requires Found(c, p, d, roots) && l < d && Primitive(c.f) && d < |p|
    ensures var x, p' := Locator(c, Place(c, roots[l])), p[..d + 1];
      Mul(c.f, Mul(c.f, ErrorValue(c, p, s, d, roots[l]), Pow(c.f, x, c.fcr)),
        Quo(c.f, Quotient(c.f, p', x, d), x, d - 1))
        == Quo(c.f, Evaluator(c.f, p', s, d), x, d - 1)
  {
    RecordedRoot(c, p, d, roots, l);
    var x := Locator(c, Place(c, roots[l]));
    hide *;
    RecordedRoot(c, p, d, roots, l);
    TruncatedQuotient(c.f, p, d, x);
    TruncatedEvaluator(c.f, p, d, s);
    ValueWeight(c, p, s, d, roots[l], x);
  }

  // The error values, weighted, are exactly what the soundness of the evaluator asks for.
  lemma ValuesAreForney(c: Params, p: seq<nat>, s: seq<nat>, d: nat, roots: seq<nat>)
    requires Found(c, p, d, roots)
    ensures Primitive(c.f) && d <= c.nroots
    ensures var ps := Places(c, roots);
      ForneyWeights(c.f, p[..d + 1], s, WeightsOfValues(c, ErrorValues(c, p, s, d, roots), ps), LocatorsOf(c, ps))
  {
    hide Quo, Locator, Place, Primitive, Good, RootIndices, Mul, Pow, ErrorValue;
    GoodParts(c);
    var f, ps := c.f, Places(c, roots);
    var w := WeightsOfValues(c, ErrorValues(c, p, s, d, roots), ps);
    forall l | 0 <= l < d
      ensures Mul(f, w[l], Quo(f, Quotient(f, p[..d + 1], LocatorsOf(c, ps)[l], d), LocatorsOf(c, ps)[l], d - 1))
           == Quo(f, Evaluator(f, p[..d + 1], s, d), LocatorsOf(c, ps)[l], d - 1)
    {
      ForneyAt(c, p, s, d, roots, l);
    }
  }
}
