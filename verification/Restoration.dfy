/** The main results about decoding: bounded-distance correction, and exactly when a nonnegative
    return code means that the block is a codeword. */
module Restoration {
  import opened Bits
  import opened Field
  import opened Poly
  import opened BerlekampMassey
  import opened Forney
  import opened Code
  import opened Distance
  import opened Chien
  import opened Values
  import opened Decoding

  // ----- error patterns behind the syndromes

  lemma SyndromesRange(c: Params, data: seq<nat>)
    requires |data| > 0
    ensures IsSyms(c.f, Syndromes(c, data))
  {
    forall i | 0 <= i < c.nroots ensures IsSym(c.f, Syndrome(c, data, i)) {
      QuoRange(c.f, data, Root(c, i), |data| - 1);
    }
  }

  // The syndromes of a damaged codeword are power sums of locators that cover the damage.
  lemma ErrorExplains(c: Params, data: seq<nat>, cw: seq<nat>, ps: seq<nat>)
    requires Good(c) && IsCodeword(c, cw) && IsBlock(c, data) && Positions(c, ps)
    requires forall p :: p in DiffPositions(c, data, cw) ==> p in ps
    ensures SumsTo(c.f, Syndromes(c, data), Weights(c, Padded(c, XorAll(data, cw)), ps), LocatorsOf(c, ps), c.nroots)
  {
    var e := XorAll(data, cw);
    XorAllSyms(c, data, cw);
    ErrorZeroOff(c, data, cw, ps);
    hide Syndrome, PowerSum, Xor, Good, Locator, Weight, DiffPositions, ZeroOff;
    forall i | 0 <= i < c.nroots
      ensures Syndrome(c, data, i) == PowerSum(c.f, Weights(c, Padded(c, e), ps), LocatorsOf(c, ps), i)
    {
      SparseSyndrome(c, e, ps, i);
      SyndromeXor(c, data, cw, i);
      XorZero(Syndrome(c, data, i));
    }
  }

  // Erasures first, then the other positions: the pattern the key equation lemmas speak about.
  lemma ErrorPattern(c: Params, data: seq<nat>, cw: seq<nat>, eras: seq<nat>, rest: seq<nat>)
    requires Good(c) && IsCodeword(c, cw) && IsBlock(c, data) && Positions(c, eras + rest)
    requires forall p :: p in DiffPositions(c, data, cw) ==> p in eras + rest
    ensures var full := Padded(c, XorAll(data, cw));
      Pattern(c.f, Syndromes(c, data), Weights(c, full, eras), LocatorsOf(c, eras), Weights(c, full, rest),
        LocatorsOf(c, rest))
  {
    var full := Padded(c, XorAll(data, cw));
    ErrorExplains(c, data, cw, eras + rest);
    LocatorsDistinct(c, eras + rest);
    WeightsRange(c, full, eras + rest);
    hide Weight, Locator, Good, PowerSum;
    assert Weights(c, full, eras + rest) == Weights(c, full, eras) + Weights(c, full, rest);
    assert LocatorsOf(c, eras + rest) == LocatorsOf(c, eras) + LocatorsOf(c, rest);
  }

  // Weights are determined by as many power sums as there are locators.
  lemma WeightsUnique(f: GF, s: seq<nat>, w: seq<nat>, v: seq<nat>, xs: seq<nat>, n: nat)
    requires Primitive(f) && IsSyms(f, w) && IsSyms(f, v) && Locators(f, xs) && Distinct(xs)
    requires SumsTo(f, s, w, xs, n) && SumsTo(f, s, v, xs, n) && |xs| <= n
    ensures w == v
  {
    var z := AddMul(f, w, 1, v);
    PrimitiveWide(f);
    ZeroSum(f, w, v);
    forall k | 0 <= k < |xs| ensures PowerSum(f, z, xs, k) == 0 {
      hide Xor, Mul, Primitive;
      var u := PowersOf(f, xs, k);
      DotLinearLeft(f, w, 1, v, z, u, |xs|);
      DotRange(f, v, u, |xs|);
      var t := Dot(f, v, u, |xs|);
      assert t == PowerSum(f, v, xs, k) == PowerSum(f, w, xs, k);
      MulOne(f, t);
      XorSelf(t);
    }
    hide Primitive, PowerSum;
    Vandermonde(f, z, xs, 0);
  }

  // ----- degree, length and number of places

  lemma DegreeBelow(p: seq<nat>, el: nat)
    requires |p| > 0 && DegreeAtMost(p, el)
    ensures Degree(p) <= el
  {
  }

  function Elements(a: seq<nat>): (s: set<nat>)
    ensures forall x :: x in s <==> x in a
  {
    set x | x in a
  }

  lemma ListsCover(a: seq<nat>, b: seq<nat>)
    requires Distinct(a) && Distinct(b) && forall x :: x in a ==> x in b
    ensures |a| <= |b|
    ensures |a| == |b| ==> Elements(a) == Elements(b)
  {
    ElementsSize(a);
    ElementsSize(b);
    SubsetSize(Elements(a), Elements(b));
    if |a| == |b| {
      FullSubset(Elements(a), Elements(b));
    }
  }

  lemma {:induction false} ElementsSize(a: seq<nat>)
    requires Distinct(a)
    ensures |Elements(a)| == |a|
  {
    if |a| == 0 {
      assert Elements(a) == {};
    } else {
      var b, l := a[..|a| - 1], a[|a| - 1];
      ElementsSize(b);
      assert a == b + [l];
      assert Elements(a) == Elements(b) + {l};
    }
  }

  // ----- values that explain the syndromes

  lemma SyndromesAnnihilated(c: Params, s: seq<nat>, p: seq<nat>, d: nat, n: nat)
    requires d < |p| && DegreeAtMost(p, d) && Annihilates(c.f, p, s, d, n)
    ensures Annihilates(c.f, p[..d + 1], s, d, n)
  {
    hide Conv;
    var p' := p[..d + 1];
    forall k | d <= k < n ensures Conv(c.f, p', s, k) == 0 {
      TruncatedConv(c.f, p, d, s, k);
    }
  }

  lemma WeightsOfValuesRange(c: Params, ys: seq<nat>, ps: seq<nat>)
    requires |ys| == |ps|
    ensures IsSyms(c.f, WeightsOfValues(c, ys, ps))
  {
  }

  // When lambda has its full length, the error values explain every syndrome.
  lemma ValuesExplain(c: Params, p: seq<nat>, s: seq<nat>, d: nat, roots: seq<nat>)
    requires Found(c, p, d, roots) && |s| == c.nroots && IsSyms(c.f, s) && Annihilates(c.f, p, s, d, c.nroots)
    ensures Primitive(c.f)
    ensures var ps := Places(c, roots);
      SumsTo(c.f, s, WeightsOfValues(c, ErrorValues(c, p, s, d, roots), ps), LocatorsOf(c, ps), c.nroots)
  {
    FoundSplits(c, p, d, roots);
    ValuesAreForney(c, p, s, d, roots);
    SyndromesAnnihilated(c, s, p, d, c.nroots);
    hide Quo, Locator, Place, Primitive, RootIndices, Conv, ErrorValue, Found, Splits, ForneyWeights, SumsTo,
      Annihilates;
    ForneySound(c.f, p[..d + 1], s, WeightsOfValues(c, ErrorValues(c, p, s, d, roots), Places(c, roots)),
      LocatorsOf(c, Places(c, roots)));
  }

  // Equal weights at a position come from equal symbols.
  lemma WeightCancel(c: Params, y: nat, z: nat, pos: nat)
    requires Good(c) && IsSym(c.f, y) && IsSym(c.f, z)
    requires Mul(c.f, y, Pow(c.f, Locator(c, pos), c.fcr)) == Mul(c.f, z, Pow(c.f, Locator(c, pos), c.fcr))
    ensures y == z
  {
    GoodPrimitive(c);
    hide Locator, Mul, Pow, Primitive, Good;
    LocatorRange(c, pos);
    PowRange(c.f, Locator(c, pos), c.fcr);
    MulCancel(c.f, y, z, Pow(c.f, Locator(c, pos), c.fcr));
  }

  // If the values explain the syndromes, they are the symbols of any error whose support they cover.
  lemma ValuesAreErrors(c: Params, data: seq<nat>, cw: seq<nat>, ys: seq<nat>, ps: seq<nat>)
    requires Good(c) && IsCodeword(c, cw) && IsBlock(c, data) && Positions(c, ps) && |ps| <= c.nroots
    requires |ys| == |ps| && IsSyms(c.f, ys)
    requires forall p :: p in DiffPositions(c, data, cw) ==> p in ps
    requires SumsTo(c.f, Syndromes(c, data), WeightsOfValues(c, ys, ps), LocatorsOf(c, ps), c.nroots)
    ensures forall j :: 0 <= j < |ps| ==> ps[j] < NN(c.f) && ys[j] == Padded(c, XorAll(data, cw))[ps[j]]
  {
    var f, full := c.f, Padded(c, XorAll(data, cw));
    var w, v, xs := WeightsOfValues(c, ys, ps), Weights(c, full, ps), LocatorsOf(c, ps);
    ErrorExplains(c, data, cw, ps);
    LocatorsDistinct(c, ps);
    WeightsRange(c, full, ps);
    WeightsOfValuesRange(c, ys, ps);
    XorAllSyms(c, data, cw);
    PaddedSyndrome(c, XorAll(data, cw), 0);
    GoodPrimitive(c);
    WeightsUnique(f, Syndromes(c, data), w, v, xs, c.nroots);
    hide Good, Locator, Mul, Pow, SumsTo, Primitive, Padded, XorAll;
    forall j | 0 <= j < |ps| ensures ys[j] == full[ps[j]] {
      assert w[j] == v[j];
      assert At(full, ps[j]) == full[ps[j]];
      WeightCancel(c, ys[j], full[ps[j]], ps[j]);
    }
  }

  lemma PaddedSymbol(c: Params, e: seq<nat>, q: nat)
    requires q < |e|
    ensures Padded(c, e)[c.pad + q] == e[q]
  {
  }

  lemma EqualOffDiff(c: Params, a: seq<nat>, b: seq<nat>, ps: seq<nat>, q: nat)
    requires |a| == |b| && q < |a| && c.pad + q !in ps && forall p :: p in DiffPositions(c, a, b) ==> p in ps
    ensures a[q] == b[q]
  {
    assert c.pad + q !in DiffPositions(c, a, b);
  }

  lemma RestoredSymbol(c: Params, data: seq<nat>, cw: seq<nat>, ys: seq<nat>, ps: seq<nat>, j: nat, q: nat)
    requires |data| == |cw| && |ys| == |ps| && j < |ps| && q < |data| && ps[j] == c.pad + q && Distinct(ps)
    requires ys[j] == Padded(c, XorAll(data, cw))[ps[j]]
    ensures Correct(c, data, ps, ys)[q] == cw[q]
  {
    CorrectSymbols(c, data, ps, ys);
    hide Xor, Correct, Distinct;
    PaddedSymbol(c, XorAll(data, cw), q);
    XorCancel(data[q], cw[q]);
  }

  lemma UntouchedSymbol(c: Params, data: seq<nat>, ys: seq<nat>, ps: seq<nat>, q: nat)
    requires |ys| == |ps| && q < |data| && c.pad + q !in ps && Distinct(ps)
    ensures Correct(c, data, ps, ys)[q] == data[q]
  {
    CorrectSymbols(c, data, ps, ys);
  }

  // Adding the error's symbols at places that cover it restores the codeword.
  lemma CorrectRestores(c: Params, data: seq<nat>, cw: seq<nat>, ys: seq<nat>, ps: seq<nat>)
    requires |data| == |cw| && |ys| == |ps| && Distinct(ps)
    requires forall p :: p in DiffPositions(c, data, cw) ==> p in ps
    requires forall j :: 0 <= j < |ps| ==> ps[j] < c.pad + |data| && ys[j] == Padded(c, XorAll(data, cw))[ps[j]]
    ensures Correct(c, data, ps, ys) == cw
  {
    var b := Correct(c, data, ps, ys);
    hide Xor, Correct, DiffPositions, Distinct, Padded, XorAll;
    forall q | 0 <= q < |data| ensures b[q] == cw[q] {
      if c.pad + q in ps {
        var j :| 0 <= j < |ps| && ps[j] == c.pad + q;
        RestoredSymbol(c, data, cw, ys, ps, j, q);
      } else {
        UntouchedSymbol(c, data, ys, ps, q);
        EqualOffDiff(c, data, cw, ps, q);
      }
    }
  }

  // ----- bounded-distance decoding

  /** Positions that differ and were not flagged as erasures. */
  function Errors(c: Params, data: seq<nat>, cw: seq<nat>, eras: seq<nat>): set<nat>
    requires |data| == |cw|
  {
    DiffPositions(c, data, cw) - Elements(eras)
  }

  /** Within the capacity of the code: twice the errors plus the erasures. */
  ghost predicate WithinCapacity(c: Params, data: seq<nat>, cw: seq<nat>, eras: seq<nat>)
    requires |data| == |cw|
  {
    && Positions(c, eras)
    && 2 * |Errors(c, data, cw, eras)| + |eras| <= c.nroots
  }

  // A list of the unflagged error positions; together with the erasures it covers all damage.
  lemma ListErrors(c: Params, data: seq<nat>, cw: seq<nat>, eras: seq<nat>) returns (rest: seq<nat>)
    requires Good(c) && IsBlock(c, data) && IsBlock(c, cw) && Positions(c, eras)
    ensures |rest| == |Errors(c, data, cw, eras)| && Elements(rest) == Errors(c, data, cw, eras)
    ensures Positions(c, eras + rest)
    ensures forall p :: p in DiffPositions(c, data, cw) ==> p in eras + rest
  {
    rest := SetToSeq(Errors(c, data, cw, eras));
    forall j | 0 <= j < |rest| ensures rest[j] < NN(c.f) && rest[j] !in eras {
      assert rest[j] in Errors(c, data, cw, eras);
    }
  }

  // Within the capacity, the final lambda has exactly the damaged and flagged positions as places.
  lemma LocatesDamage(c: Params, data: seq<nat>, cw: seq<nat>, eras: seq<nat>, rest: seq<nat>)
    requires Good(c) && IsCodeword(c, cw) && IsBlock(c, data)
    requires Positions(c, eras + rest) && 2 * |rest| + |eras| <= c.nroots
    requires forall p :: p in DiffPositions(c, data, cw) ==> p in eras + rest
    requires forall j :: 0 <= j < |rest| ==> rest[j] in DiffPositions(c, data, cw)
    ensures var st, d := Final(c, data, eras), |eras| + |rest|;
      var roots := RootIndices(c.f, st.lambda, NN(c.f));
      && Found(c, st.lambda, d, roots) && st.el == d
      && Annihilates(c.f, st.lambda, Syndromes(c, data), d, c.nroots)
      && Elements(Places(c, roots)) == Elements(eras + rest)
  {
    var full := Padded(c, XorAll(data, cw));
    var es, ys, s := LocatorsOf(c, eras), LocatorsOf(c, rest), Syndromes(c, data);
    ErrorPattern(c, data, cw, eras, rest);
    NonzeroErrors(c, data, cw, rest);
    GoodPrimitive(c);
    hide Good, Locator, Weight, Pattern, Xor, Mul, Quo, Conv, Primitive, Padded, XorAll, Syndrome;
    FindsLocators(c.f, s, Weights(c, full, eras), es, Weights(c, full, rest), ys);
    var st := Final(c, data, eras);
    hide Final, Run, DiffPositions;
    SplitsExactly(c, st.lambda, st.el, eras, rest);
  }

  lemma NonzeroErrors(c: Params, data: seq<nat>, cw: seq<nat>, rest: seq<nat>)
    requires Good(c) && IsBlock(c, cw) && IsBlock(c, data)
    requires forall j :: 0 <= j < |rest| ==> rest[j] in DiffPositions(c, data, cw)
    ensures var w := Weights(c, Padded(c, XorAll(data, cw)), rest);
      forall j :: 0 <= j < |w| ==> w[j] != 0
  {
    var full := Padded(c, XorAll(data, cw));
    hide Good, Weight;
    forall j | 0 <= j < |rest| ensures Weight(c, full, rest[j]) != 0 {
      hide *;
      NonzeroError(c, data, cw, rest[j]);
    }
  }

  lemma NonzeroError(c: Params, data: seq<nat>, cw: seq<nat>, pos: nat)
    requires Good(c) && IsBlock(c, cw) && IsBlock(c, data) && pos in DiffPositions(c, data, cw)
    ensures Weight(c, Padded(c, XorAll(data, cw)), pos) != 0
  {
    var e, q := XorAll(data, cw), pos - c.pad;
    XorAllSyms(c, data, cw);
    PaddedSyndrome(c, e, 0);
    hide Good, Locator, Weight, Xor, Syndrome;
    XorCancel(data[q], cw[q]);
    PaddedSymbol(c, e, q);
    WeightNonzero(c, Padded(c, e), pos);
  }

  // A lambda of length at most the number of positions at which it vanishes has no other places.
  lemma SplitsExactly(c: Params, p: seq<nat>, el: nat, eras: seq<nat>, rest: seq<nat>)
    requires Good(c) && |p| == c.nroots + 1 && IsSyms(c.f, p) && p[0] == 1 && DegreeAtMost(p, el)
    requires Positions(c, eras + rest) && el <= |eras| + |rest|
    requires VanishesAt(c.f, p, LocatorsOf(c, eras)) && VanishesAt(c.f, p, LocatorsOf(c, rest))
    ensures var d, roots := |eras| + |rest|, RootIndices(c.f, p, NN(c.f));
      Found(c, p, d, roots) && el == d && Elements(Places(c, roots)) == Elements(eras + rest)
  {
    var all, d, roots := eras + rest, Degree(p), RootIndices(c.f, p, NN(c.f));
    var ps := Places(c, roots);
    PlacesOfRoots(c, p);
    LocatorsDistinct(c, ps);
    GoodPrimitive(c);
    DegreeBelow(p, el);
    hide Good, Locator, Quo, Primitive, RootIndices, Place;
    forall x | x in all ensures x in ps {
      if x in eras {
        var j :| 0 <= j < |eras| && eras[j] == x;
        assert Quo(c.f, p, LocatorsOf(c, eras)[j], |p| - 1) == 0;
        assert all[j] == x;
      } else {
        var j :| 0 <= j < |rest| && rest[j] == x;
        assert Quo(c.f, p, LocatorsOf(c, rest)[j], |p| - 1) == 0;
        assert all[|eras| + j] == x;
      }
    }
    ListsCover(all, ps);
    RootsAtMostDegree(c.f, p, d, LocatorsOf(c, ps));
  }

  // Bounded-distance decoding: the codeword comes back whenever twice the errors plus the
  // erasures stay within the number of roots.
  lemma BoundedDistance(c: Params, cw: seq<nat>, data: seq<nat>, eras: seq<nat>)
    requires Good(c) && IsCodeword(c, cw) && IsBlock(c, data) && WithinCapacity(c, data, cw, eras)
    ensures var o := Decoded(c, data, eras);
      && o.block == cw
      && (AllZero(Syndromes(c, data)) ==> data == cw && o.count == 0)
      && (!AllZero(Syndromes(c, data)) ==>
           && o.count == |Errors(c, data, cw, eras)| + |eras|
           && Distinct(o.places) && Elements(o.places) == Errors(c, data, cw, eras) + Elements(eras))
  {
    var rest := ListErrors(c, data, cw, eras);
    var s := Syndromes(c, data);
    if AllZero(s) {
      CloseCodewords(c, data, cw, eras + rest);
    } else {
      forall j | 0 <= j < |rest| ensures rest[j] in DiffPositions(c, data, cw) {
        assert rest[j] in Elements(rest);
      }
      RestoresDamage(c, data, cw, eras, rest);
      assert Elements(eras + rest) == Elements(eras) + Elements(rest);
    }
  }

  lemma RestoresDamage(c: Params, data: seq<nat>, cw: seq<nat>, eras: seq<nat>, rest: seq<nat>)
    requires Good(c) && IsCodeword(c, cw) && IsBlock(c, data) && !AllZero(Syndromes(c, data))
    requires Positions(c, eras + rest) && 2 * |rest| + |eras| <= c.nroots
    requires forall p :: p in DiffPositions(c, data, cw) ==> p in eras + rest
    requires forall j :: 0 <= j < |rest| ==> rest[j] in DiffPositions(c, data, cw)
    ensures var o := Decoded(c, data, eras);
      && o.block == cw && o.count == |eras| + |rest|
      && Distinct(o.places) && Elements(o.places) == Elements(eras + rest)
  {
    LocatesDamage(c, data, cw, eras, rest);
    var s, st, d := Syndromes(c, data), Final(c, data, eras), |eras| + |rest|;
    var p := st.lambda;
    var roots := RootIndices(c.f, p, NN(c.f));
    var ps, vs := Places(c, roots), ErrorValues(c, p, s, d, roots);
    SyndromesRange(c, data);
    FoundSplits(c, p, d, roots);
    hide Locator, Quo, Primitive, RootIndices, Place, Conv, ErrorValue, Syndrome, Final, DiffPositions, Annihilates,
      SumsTo, XorAll, Padded, Correct;
    ValuesExplain(c, p, s, d, roots);
    assert forall x :: x in eras + rest <==> x in ps;
    ValuesAreErrors(c, data, cw, vs, ps);
    CorrectRestores(c, data, cw, vs, ps);
  }

  // ----- when a nonnegative return code means a codeword

  /** No correction was meant for a padding symbol, where the decoder cannot apply it. */
  ghost predicate PaddingClean(c: Params, ps: seq<nat>, ys: seq<nat>)
    requires |ps| == |ys|
  {
    forall j :: 0 <= j < |ps| && ps[j] < c.pad ==> ys[j] == 0
  }

  lemma CorrectIsBlock(c: Params, data: seq<nat>, ps: seq<nat>, ys: seq<nat>)
    requires IsBlock(c, data) && |ps| == |ys| && Distinct(ps) && IsSyms(c.f, ys)
    ensures IsBlock(c, Correct(c, data, ps, ys))
  {
    var b := Correct(c, data, ps, ys);
    CorrectSymbols(c, data, ps, ys);
    hide Xor, Correct, Distinct;
    forall q | 0 <= q < |b| ensures IsSym(c.f, b[q]) {
      if c.pad + q in ps {
        var j :| 0 <= j < |ps| && ps[j] == c.pad + q;
        assert b[ps[j] - c.pad] == Xor(data[q], ys[j]);
        SymXor(c.f, data[q], ys[j]);
      } else {
        UntouchedSymbol(c, data, ys, ps, q);
      }
    }
  }

  // What the corrections changed: the error values at places outside the padding.
  lemma CorrectionSymbol(c: Params, data: seq<nat>, ps: seq<nat>, ys: seq<nat>, j: nat)
    requires |ps| == |ys| && Distinct(ps) && j < |ps| && ps[j] < c.pad + |data|
    ensures Padded(c, XorAll(data, Correct(c, data, ps, ys)))[ps[j]] == if ps[j] < c.pad then 0 else ys[j]
  {
    var b := Correct(c, data, ps, ys);
    CorrectSymbols(c, data, ps, ys);
    hide Xor, Correct, Distinct;
    if ps[j] >= c.pad {
      var q := ps[j] - c.pad;
      PaddedSymbol(c, XorAll(data, b), q);
      XorCancel(data[q], ys[j]);
    }
  }

  lemma CorrectionsCovered(c: Params, data: seq<nat>, ps: seq<nat>, ys: seq<nat>)
    requires |ps| == |ys| && Distinct(ps)
    ensures forall p :: p in DiffPositions(c, data, Correct(c, data, ps, ys)) ==> p in ps
  {
    var b := Correct(c, data, ps, ys);
    CorrectSymbols(c, data, ps, ys);
    hide Correct, Distinct;
    forall p | p in DiffPositions(c, data, b) ensures p in ps {
      if p !in ps {
        var q := p - c.pad;
      }
    }
  }

  // With clean padding, the corrections carry exactly the weights of the error values.
  lemma CorrectionWeights(c: Params, data: seq<nat>, ps: seq<nat>, ys: seq<nat>)
    requires Good(c) && IsBlock(c, data) && Positions(c, ps) && |ps| == |ys| && PaddingClean(c, ps, ys)
    ensures Weights(c, Padded(c, XorAll(data, Correct(c, data, ps, ys))), ps) == WeightsOfValues(c, ys, ps)
  {
    var full := Padded(c, XorAll(data, Correct(c, data, ps, ys)));
    hide Xor, Mul, Correct, Locator, Pow, Good, Padded, XorAll;
    forall j | 0 <= j < |ps| ensures Weight(c, full, ps[j]) == Mul(c.f, ys[j], Pow(c.f, Locator(c, ps[j]), c.fcr)) {
      CorrectionSymbol(c, data, ps, ys, j);
      AtIs(full, ps[j]);
    }
  }

  // Values that explain all syndromes and leave the padding alone turn the block into a codeword.
  lemma ExplainedIsCodeword(c: Params, data: seq<nat>, ps: seq<nat>, ys: seq<nat>)
    requires Good(c) && IsBlock(c, data) && Positions(c, ps) && |ps| == |ys| && IsSyms(c.f, ys)
    requires PaddingClean(c, ps, ys)
    requires SumsTo(c.f, Syndromes(c, data), WeightsOfValues(c, ys, ps), LocatorsOf(c, ps), c.nroots)
    ensures IsCodeword(c, Correct(c, data, ps, ys))
  {
    var b := Correct(c, data, ps, ys);
    var e := XorAll(data, b);
    CorrectIsBlock(c, data, ps, ys);
    XorAllSyms(c, data, b);
    CorrectionsCovered(c, data, ps, ys);
    ErrorZeroOff(c, data, b, ps);
    CorrectionWeights(c, data, ps, ys);
    hide Syndrome, PowerSum, Xor, Good, Locator, Weight, Mul, Pow, Correct, Padded, XorAll, DiffPositions, ZeroOff;
    forall i | 0 <= i < c.nroots ensures Syndrome(c, b, i) == 0 {
      SparseSyndrome(c, e, ps, i);
      SyndromeXor(c, data, b, i);
      XorCancel(Syndrome(c, data, i), Syndrome(c, b, i));
      XorSelf(Syndrome(c, data, i));
      assert Syndromes(c, data)[i] == Syndrome(c, data, i);
    }
  }

  lemma ErasuresAmongPlaces(c: Params, p: seq<nat>, d: nat, roots: seq<nat>, eras: seq<nat>)
    requires Found(c, p, d, roots) && Positions(c, eras) && VanishesAt(c.f, p, LocatorsOf(c, eras))
    ensures forall x :: x in eras ==> x in Places(c, roots)
  {
    FoundSplits(c, p, d, roots);
    hide Found, Places, Quo, Locator, Splits;
    forall x | x in eras ensures x in Places(c, roots) {
      var j :| 0 <= j < |eras| && eras[j] == x;
      assert Quo(c.f, p, LocatorsOf(c, eras)[j], |p| - 1) == 0;
    }
  }

  lemma SplitPlaces(ps: seq<nat>, eras: seq<nat>) returns (rest: seq<nat>)
    requires Distinct(ps) && Distinct(eras) && forall x :: x in eras ==> x in ps
    ensures Distinct(eras + rest) && |eras| + |rest| == |ps| && Elements(eras + rest) == Elements(ps)
  {
    rest := SetToSeq(Elements(ps) - Elements(eras));
    forall j | 0 <= j < |rest| ensures rest[j] !in eras {
      assert rest[j] in Elements(ps) - Elements(eras);
    }
    var all := eras + rest;
    assert Elements(all) == Elements(ps);
    forall x | x in all ensures x in ps {
      assert x in Elements(all);
    }
    forall x | x in ps ensures x in all {
      assert x in Elements(all);
    }
    ListsCover(eras + rest, ps);
    ListsCover(ps, eras + rest);
  }

  // If the corrected block is a codeword, lambda had its full length.
  lemma CodewordHasFullLength(c: Params, data: seq<nat>, eras: seq<nat>, b: seq<nat>, d: nat, roots: seq<nat>)
    requires Good(c) && IsBlock(c, data) && Positions(c, eras) && |eras| <= c.nroots && IsCodeword(c, b)
    requires Found(c, Final(c, data, eras).lambda, d, roots)
    requires VanishesAt(c.f, Final(c, data, eras).lambda, LocatorsOf(c, eras))
    requires forall p :: p in DiffPositions(c, data, b) ==> p in Places(c, roots)
    ensures Final(c, data, eras).el <= d
  {
    var st := Final(c, data, eras);
    FoundSplits(c, st.lambda, d, roots);
    ErasuresAmongPlaces(c, st.lambda, d, roots, eras);
    var ps, full := Places(c, roots), Padded(c, XorAll(data, b));
    var rest := SplitPlaces(ps, eras);
    hide Found, Quo, Locator, Splits, Xor, Mul, Conv, Primitive, Weight, Pattern, DiffPositions, Place;
    forall j | 0 <= j < |eras + rest| ensures (eras + rest)[j] < NN(c.f) {
      assert (eras + rest)[j] in Elements(ps);
    }
    assert forall x :: x in ps ==> x in Elements(eras + rest);
    ErrorPattern(c, data, b, eras, rest);
    GoodPrimitive(c);
    hide Good;
    LengthMinimal(c.f, Syndromes(c, data), Weights(c, full, eras), LocatorsOf(c, eras), c.nroots,
      Weights(c, full, rest), LocatorsOf(c, rest));
  }

  /** The situation after a search that found as many roots as the degree of lambda. */
  ghost predicate Searched(c: Params, data: seq<nat>, eras: seq<nat>, s: seq<nat>, st: State, d: nat, roots: seq<nat>) {
    && IsBlock(c, data) && Positions(c, eras) && |eras| <= c.nroots
    && Primitive(c.f) && s == Syndromes(c, data) && st == Final(c, data, eras)
    && Invariant(c.f, s, LocatorsOf(c, eras), c.nroots, st)
    && Found(c, st.lambda, d, roots)
  }

  lemma SearchedFacts(c: Params, data: seq<nat>, eras: seq<nat>, s: seq<nat>, st: State, d: nat, roots: seq<nat>)
    requires Searched(c, data, eras, s, st, d, roots)
    ensures Good(c) && IsSyms(c.f, s) && |s| == c.nroots && d <= st.el && d <= c.nroots
    ensures VanishesAt(c.f, st.lambda, LocatorsOf(c, eras)) && Annihilates(c.f, st.lambda, s, st.el, c.nroots)
    ensures Positions(c, Places(c, roots)) && |Places(c, roots)| == d
    ensures IsSyms(c.f, ErrorValues(c, st.lambda, s, d, roots))
  {
    SyndromesRange(c, data);
    DegreeBelow(st.lambda, st.el);
    hide Good, Primitive, Xor, Mul, Quo, Conv, Syndrome;
    FoundSplits(c, st.lambda, d, roots);
  }

  lemma FullLengthIsCodeword(c: Params, data: seq<nat>, eras: seq<nat>, s: seq<nat>, st: State, d: nat, roots: seq<nat>)
    requires Searched(c, data, eras, s, st, d, roots) && d == st.el
    requires PaddingClean(c, Places(c, roots), ErrorValues(c, st.lambda, s, d, roots))
    ensures IsCodeword(c, Correct(c, data, Places(c, roots), ErrorValues(c, st.lambda, s, d, roots)))
  {
    SearchedFacts(c, data, eras, s, st, d, roots);
    hide Good, Primitive, Xor, Mul, Quo, Conv, Syndrome, SumsTo, PaddingClean, Correct, Place, ErrorValue, Run,
      Annihilates, Invariant, IsCodeword;
    ValuesExplain(c, st.lambda, s, d, roots);
    ExplainedIsCodeword(c, data, Places(c, roots), ErrorValues(c, st.lambda, s, d, roots));
  }

  lemma CodewordNeedsFullLength(c: Params, data: seq<nat>, eras: seq<nat>, s: seq<nat>, st: State, d: nat,
                                roots: seq<nat>)
    requires Searched(c, data, eras, s, st, d, roots)
    requires IsCodeword(c, Correct(c, data, Places(c, roots), ErrorValues(c, st.lambda, s, d, roots)))
    ensures d == st.el && PaddingClean(c, Places(c, roots), ErrorValues(c, st.lambda, s, d, roots))
  {
    var ps, ys := Places(c, roots), ErrorValues(c, st.lambda, s, d, roots);
    var b := Correct(c, data, ps, ys);
    SearchedFacts(c, data, eras, s, st, d, roots);
    hide Good, Primitive, Xor, Mul, Quo, Conv, Syndrome, SumsTo, Correct, Place, ErrorValue, Run, Annihilates,
      Invariant, VanishesAt, DiffPositions;
    CorrectionsCovered(c, data, ps, ys);
    CodewordHasFullLength(c, data, eras, b, d, roots);
    ValuesExplain(c, st.lambda, s, d, roots);
    ValuesAreErrors(c, data, b, ys, ps);
    forall j | 0 <= j < |ps| && ps[j] < c.pad ensures ys[j] == 0 {
      CorrectionSymbol(c, data, ps, ys, j);
    }
  }

  // The exact meaning of a nonnegative return code: the block is now a codeword if and only if
  // it was clean, or lambda has its full length el and no correction fell into the padding.
  lemma CodewordIff(c: Params, data: seq<nat>, eras: seq<nat>)
    requires Good(c) && IsBlock(c, data) && Positions(c, eras) && |eras| <= c.nroots
    requires Decoded(c, data, eras).count >= 0
    ensures var s, st := Syndromes(c, data), Final(c, data, eras);
      var d, roots := Degree(st.lambda), RootIndices(c.f, st.lambda, NN(c.f));
      IsCodeword(c, Decoded(c, data, eras).block) <==>
        AllZero(s) || (d == st.el && PaddingClean(c, Places(c, roots), ErrorValues(c, st.lambda, s, d, roots)))
  {
    var s, st := Syndromes(c, data), Final(c, data, eras);
    var d, roots := Degree(st.lambda), RootIndices(c.f, st.lambda, NN(c.f));
    var ps, ys := Places(c, roots), ErrorValues(c, st.lambda, s, d, roots);
    if !AllZero(s) {
      PositionsLocators(c, eras);
      GoodPrimitive(c);
      RunKeeps(c.f, s, LocatorsOf(c, eras), c.nroots);
      hide Quo, Xor, Mul, Conv, Primitive, Good, Run, Syndrome, PaddingClean, Places, ErrorValues, Correct, RootIndices;
      assert Searched(c, data, eras, s, st, d, roots);
      if d == st.el && PaddingClean(c, ps, ys) {
        FullLengthIsCodeword(c, data, eras, s, st, d, roots);
      }
      if IsCodeword(c, Correct(c, data, ps, ys)) {
        CodewordNeedsFullLength(c, data, eras, s, st, d, roots);
      }
    }
  }

  lemma PositionsLocators(c: Params, ps: seq<nat>)
    requires Good(c)
    ensures Locators(c.f, LocatorsOf(c, ps))
  {
    hide Locator, Good;
    forall j | 0 <= j < |ps| ensures IsSym(c.f, Locator(c, ps[j])) && Locator(c, ps[j]) != 0 {
      LocatorRange(c, ps[j]);
    }
  }
}
