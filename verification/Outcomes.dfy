/** What the decoder returns for any block whatever, within its capacity or beyond. */
module Outcomes {
  import opened Bits
  import opened Field
  import opened Poly
  import opened BerlekampMassey
  import opened Forney
  import opened Code
  import opened Distance
  import opened Chien
  import opened Decoding
  import opened Restoration

  /** Positions, padding included, at whose locators p vanishes. */
  ghost function Zeros(c: Params, p: seq<nat>): set<nat>
    requires |p| > 0
  {
    set pos | 0 <= pos < NN(c.f) && Quo(c.f, p, Locator(c, pos), |p| - 1) == 0
  }

  /** The number of the power of alpha, counted from zero, at which the search tests a position. */
  function Rank(c: Params, pos: nat): nat
    requires NN(c.f) > 0 && c.prim >= 1
  {
    (c.prim * (pos + 1) - 1) % NN(c.f)
  }

  lemma PrimPositive(c: Params)
    requires Good(c)
    ensures c.prim >= 1 && NN(c.f) > 0
  {
    GoodParts(c);
    var t: nat :| c.prim * c.iprim == 1 + t * NN(c.f);
    assert t * NN(c.f) >= 0;
    assert c.prim == 0 ==> c.prim * c.iprim == 0;
  }

  lemma LessOne(a: nat, b: nat, n: nat)
    requires n > 0 && a >= 1 && 1 <= b <= n && a % n == b % n
    ensures (a - 1) % n == b - 1
  {
    var q := a / n;
    var p := b / n;
    assert a == q * n + a % n && b == p * n + b % n;
    assert a - 1 == (q - p) * n + (b - 1) by {
      assert (q - p) * n == q * n - p * n;
    }
    RemainderUnique(a - 1, n, q - p, b - 1);
  }

  lemma RankOfRoot(c: Params, r: nat)
    requires Good(c) && 1 <= r <= NN(c.f)
    ensures c.prim >= 1 && Rank(c, Place(c, r)) == r - 1
  {
    hide Good, Place, NN;
    PrimPositive(c);
    PlaceCongruent(c, r);
    var k := Place(c, r);
    assert c.prim * (k + 1) >= 1 by {
      assert c.prim * (k + 1) == c.prim * k + c.prim && c.prim * k >= 0;
    }
    LessOne(c.prim * (k + 1), r, NN(c.f));
  }

  /** Positions in the order in which the search tests them. */
  ghost predicate InSearchOrder(c: Params, ps: seq<nat>) {
    && NN(c.f) > 0 && c.prim >= 1
    && forall i, j :: 0 <= i < j < |ps| ==> Rank(c, ps[i]) < Rank(c, ps[j])
  }

  lemma PlacesInOrder(c: Params, p: seq<nat>)
    requires Good(c) && |p| > 0
    ensures InSearchOrder(c, Places(c, RootIndices(c.f, p, NN(c.f))))
  {
    PrimPositive(c);
    hide Good, Place, NN, Rank, IsRoot, Eval;
    var roots := RootIndices(c.f, p, NN(c.f));
    var ps := Places(c, roots);
    forall i, j | 0 <= i < j < |ps| ensures Rank(c, ps[i]) < Rank(c, ps[j]) {
      RankOfRoot(c, roots[i]);
      RankOfRoot(c, roots[j]);
    }
  }

  lemma PlacesAreZeros(c: Params, p: seq<nat>)
    requires Good(c) && |p| > 0
    ensures var roots := RootIndices(c.f, p, NN(c.f));
      && Positions(c, Places(c, roots)) && Elements(Places(c, roots)) == Zeros(c, p) && |Zeros(c, p)| == |roots|
  {
    hide Good, Place, NN, Quo, Locator, RootIndices;
    PlacesOfRoots(c, p);
    var ps := Places(c, RootIndices(c.f, p, NN(c.f)));
    forall pos | pos in ps ensures pos in Zeros(c, p) {
      var j :| 0 <= j < |ps| && ps[j] == pos;
      assert Quo(c.f, p, LocatorsOf(c, ps)[j], |p| - 1) == 0;
    }
    ElementsSize(ps);
  }

  /** A block with a nonzero syndrome is given up, and left as it is, exactly when the locator polynomial has another
      number of zeros than its degree. Otherwise the zeros are reported, in the order of the search, and their number
      is returned. Nothing else leads to a failure. */
  lemma GivenUpIff(c: Params, data: seq<nat>, eras: seq<nat>)
    requires Good(c) && IsBlock(c, data) && !AllZero(Syndromes(c, data))
    ensures |data| > 0 && Primitive(c.f)
    ensures var o, p := Decoded(c, data, eras), Final(c, data, eras).lambda;
      && (|Zeros(c, p)| != Degree(p) ==> o == Outcome(-1, data, []))
      && (|Zeros(c, p)| == Degree(p) ==>
           && o.count == |o.places| == Degree(p)
           && Distinct(o.places) && Elements(o.places) == Zeros(c, p) && InSearchOrder(c, o.places))
  {
    BlockLength(c, data);
    GoodParts(c);
    var p := Final(c, data, eras).lambda;
    hide Good, Place, NN, Quo, Locator, RootIndices, Primitive, Run, Correct, ErrorValues, Degree, Zeros;
    PlacesAreZeros(c, p);
    PlacesInOrder(c, p);
  }

  /** The corrections y at the places of an outcome: they explain the first syndromes, one for each place, and the
      block has changed by them. */
  ghost predicate Corrects(c: Params, data: seq<nat>, o: Outcome, ys: seq<nat>)
    requires |data| > 0
  {
    && |ys| == |o.places| && IsSyms(c.f, ys) && |o.block| == |data|
    && SumsTo(c.f, Syndromes(c, data), WeightsOfValues(c, ys, o.places), LocatorsOf(c, o.places), |o.places|)
    && (forall q :: 0 <= q < |data| && c.pad + q !in o.places ==> o.block[q] == data[q])
    && forall j :: 0 <= j < |ys| && c.pad <= o.places[j] < c.pad + |data| ==>
         o.block[o.places[j] - c.pad] == Xor(data[o.places[j] - c.pad], ys[j])
  }

  lemma SearchHolds(c: Params, data: seq<nat>, eras: seq<nat>)
    requires Good(c) && IsBlock(c, data) && Positions(c, eras) && |eras| <= c.nroots
    requires !AllZero(Syndromes(c, data)) && Decoded(c, data, eras).count >= 0
    ensures |data| > 0 && Primitive(c.f)
    ensures var s, st := Syndromes(c, data), Final(c, data, eras);
      var d, roots := Degree(st.lambda), RootIndices(c.f, st.lambda, NN(c.f));
      && Searched(c, data, eras, s, st, d, roots)
      && Decoded(c, data, eras) ==
           Outcome(d, Correct(c, data, Places(c, roots), ErrorValues(c, st.lambda, s, d, roots)), Places(c, roots))
  {
    BlockLength(c, data);
    GoodPrimitive(c);
    PositionsLocators(c, eras);
    RunKeeps(c.f, Syndromes(c, data), LocatorsOf(c, eras), c.nroots);
    hide Quo, Xor, Mul, Conv, Primitive, Good, Run, Syndrome, Places, ErrorValues, Correct, RootIndices;
  }

  lemma FirstExplained(c: Params, data: seq<nat>, eras: seq<nat>, s: seq<nat>, st: State, d: nat, roots: seq<nat>)
    requires Searched(c, data, eras, s, st, d, roots)
    ensures Good(c)
    ensures var ps, ys := Places(c, roots), ErrorValues(c, st.lambda, s, d, roots);
      && |ps| == |ys| && IsSyms(c.f, ys) && Distinct(ps)
      && SumsTo(c.f, s, WeightsOfValues(c, ys, ps), LocatorsOf(c, ps), |ps|)
  {
    SearchedFacts(c, data, eras, s, st, d, roots);
    hide *;
    SearchedParts(c, data, eras, s, st, d, roots);
    FoundSplits(c, st.lambda, d, roots);
    ValuesAreForney(c, st.lambda, s, d, roots);
    var ps, ys := Places(c, roots), ErrorValues(c, st.lambda, s, d, roots);
    PositionsDistinct(c, ps);
    ForneyFirst(c.f, st.lambda[..d + 1], s, WeightsOfValues(c, ys, ps), LocatorsOf(c, ps));
  }

  lemma SearchedParts(c: Params, data: seq<nat>, eras: seq<nat>, s: seq<nat>, st: State, d: nat, roots: seq<nat>)
    requires Searched(c, data, eras, s, st, d, roots)
    ensures Primitive(c.f) && Found(c, st.lambda, d, roots) && |st.lambda| == c.nroots + 1 && |roots| == d
  {
    hide Primitive, Good;
  }

  lemma PositionsDistinct(c: Params, ps: seq<nat>)
    requires Positions(c, ps)
    ensures Distinct(ps)
  {
  }

  /** Whatever the number of errors: the corrections made are such that they explain as many of the first syndromes
      as there are places. */
  lemma CorrectionsExist(c: Params, data: seq<nat>, eras: seq<nat>)
    requires Good(c) && IsBlock(c, data) && Positions(c, eras) && |eras| <= c.nroots
    requires !AllZero(Syndromes(c, data)) && Decoded(c, data, eras).count >= 0
    ensures |data| > 0 && exists ys :: Corrects(c, data, Decoded(c, data, eras), ys)
  {
    hide *;
    SearchHolds(c, data, eras);
    var s, st := Syndromes(c, data), Final(c, data, eras);
    var d, roots := Degree(st.lambda), RootIndices(c.f, st.lambda, NN(c.f));
    FirstExplained(c, data, eras, s, st, d, roots);
    var ps, ys := Places(c, roots), ErrorValues(c, st.lambda, s, d, roots);
    CorrectSymbols(c, data, ps, ys);
    CorrectsIs(c, data, d, ps, ys);
  }

  lemma CorrectsIs(c: Params, data: seq<nat>, d: nat, ps: seq<nat>, ys: seq<nat>)
    requires |data| > 0 && |ps| == |ys| && IsSyms(c.f, ys)
    requires SumsTo(c.f, Syndromes(c, data), WeightsOfValues(c, ys, ps), LocatorsOf(c, ps), |ps|)
    requires var b := Correct(c, data, ps, ys);
      && (forall q :: 0 <= q < |b| && c.pad + q !in ps ==> b[q] == data[q])
      && forall j :: 0 <= j < |ps| && c.pad <= ps[j] < c.pad + |data| ==>
           b[ps[j] - c.pad] == Xor(data[ps[j] - c.pad], ys[j])
    ensures Corrects(c, data, Outcome(d, Correct(c, data, ps, ys), ps), ys)
  {
    hide Correct, Xor, SumsTo, IsSyms;
  }

  // Weights at distinct locators are determined by as many power sums.
  lemma SameWeights(f: GF, s: seq<nat>, v: seq<nat>, w: seq<nat>, xs: seq<nat>)
    requires Primitive(f) && IsSyms(f, v) && IsSyms(f, w) && Locators(f, xs) && Distinct(xs)
    requires SumsTo(f, s, v, xs, |xs|) && SumsTo(f, s, w, xs, |xs|)
    ensures v == w
  {
    var t := AddMul(f, v, 1, w);
    assert forall k :: 0 <= k < |xs| ==> PowerSum(f, v, xs, k) == PowerSum(f, w, xs, k);
    hide Xor, Mul, Dot, Primitive, SumsTo, Pow;
    PrimitiveWide(f);
    forall i | 0 <= i < |v| ensures IsSym(f, t[i]) && (t[i] == 0 ==> v[i] == w[i]) {
      MulOne(f, w[i]);
      SymXor(f, v[i], w[i]);
      XorCancel(v[i], w[i]);
    }
    forall k | 0 <= k < 0 + |xs| ensures PowerSum(f, t, xs, k) == 0 {
      DotLinearLeft(f, v, 1, w, t, PowersOf(f, xs, k), |xs|);
      DotRange(f, w, PowersOf(f, xs, k), |xs|);
      MulOne(f, PowerSum(f, w, xs, k));
      XorSelf(PowerSum(f, w, xs, k));
    }
    hide PowerSum;
    Vandermonde(f, t, xs, 0);
  }

  /** And they are the only ones. */
  lemma CorrectionsUnique(c: Params, data: seq<nat>, o: Outcome, ys: seq<nat>, zs: seq<nat>)
    requires Good(c) && |data| > 0 && Positions(c, o.places)
    requires Corrects(c, data, o, ys) && Corrects(c, data, o, zs)
    ensures ys == zs
  {
    hide *;
    CorrectsParts(c, data, o, ys);
    CorrectsParts(c, data, o, zs);
    GoodPrimitive(c);
    LocatorsDistinct(c, o.places);
    var v, w := WeightsOfValues(c, ys, o.places), WeightsOfValues(c, zs, o.places);
    WeightsOfValuesRange(c, ys, o.places);
    WeightsOfValuesRange(c, zs, o.places);
    SameWeights(c.f, Syndromes(c, data), v, w, LocatorsOf(c, o.places));
    forall j | 0 <= j < |ys| ensures ys[j] == zs[j] {
      assert v[j] == w[j];
      WeightCancel(c, ys[j], zs[j], o.places[j]);
    }
  }

  lemma CorrectsParts(c: Params, data: seq<nat>, o: Outcome, ys: seq<nat>)
    requires |data| > 0 && Corrects(c, data, o, ys)
    ensures |ys| == |o.places| && forall j :: 0 <= j < |ys| ==> IsSym(c.f, ys[j])
    ensures SumsTo(c.f, Syndromes(c, data), WeightsOfValues(c, ys, o.places), LocatorsOf(c, o.places), |o.places|)
  {
    hide SumsTo, Xor;
  }

  // ----- codewords in plain terms

  /** The sum of the symbols data[..n], each times the power of alpha whose exponent is e times its degree; the last
      symbol of the block has degree zero. */
  function PlainSum(f: GF, data: seq<nat>, e: nat, n: nat): nat
    requires n <= |data|
  {
    if n == 0 then 0
    else Xor(PlainSum(f, data, e, n - 1), Mul(f, data[n - 1], Exp(f, e * (|data| - n))))
  }

  lemma {:induction false} PlainIsDot(f: GF, data: seq<nat>, e: nat, n: nat)
    requires Primitive(f) && n <= |data| && |data| > 0
    ensures PlainSum(f, data, e, n) == Dot(f, data, PowersDown(f, Exp(f, e), |data| - 1), n)
  {
    hide Xor, Mul, Exp, Primitive;
    if n > 0 {
      PlainIsDot(f, data, e, n - 1);
      PowExp(f, e, |data| - n);
      hide Pow;
      assert |data| - 1 - (n - 1) == |data| - n;
    } else {
      DotStart(f, data, PowersDown(f, Exp(f, e), |data| - 1));
    }
  }

  /** The block as a polynomial, with its last symbol as constant term, at alpha^(prim (fcr + i)). */
  function PlainValue(c: Params, data: seq<nat>, i: nat): nat {
    PlainSum(c.f, data, c.prim * (c.fcr + i), |data|)
  }

  lemma PlainValueIs(c: Params, data: seq<nat>, i: nat)
    requires Primitive(c.f) && |data| > 0
    ensures PlainValue(c, data, i) == Syndrome(c, data, i)
  {
    hide Exp, Mul, Xor, Primitive, Dot, PlainSum;
    var e := c.prim * (c.fcr + i);
    PlainIsDot(c.f, data, e, |data|);
    assert (c.fcr + i) * c.prim == e;
  }

  /** A block is a codeword exactly when that polynomial vanishes at all nroots of these powers. */
  lemma CodewordMeans(c: Params, data: seq<nat>)
    requires Good(c) && IsBlock(c, data)
    ensures IsCodeword(c, data) <==> forall i: nat :: i < c.nroots ==> PlainValue(c, data, i) == 0
  {
    hide PlainValue, Syndrome, Good, Primitive;
    BlockLength(c, data);
    GoodPrimitive(c);
    forall i: nat | i < c.nroots ensures PlainValue(c, data, i) == Syndrome(c, data, i) {
      PlainValueIs(c, data, i);
    }
  }
}
