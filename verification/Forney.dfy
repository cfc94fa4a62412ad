/** Error values from the evaluator polynomial: they reproduce every syndrome whenever the locator
    polynomial splits, whatever the number of errors was. */
module Forney {
  import opened Bits
  import opened Field
  import opened Poly
  import opened BerlekampMassey

  /** The evaluator: the product of locator and syndromes below degree d. */
  function Evaluator(f: GF, p: seq<nat>, s: seq<nat>, d: nat): (r: seq<nat>)
    ensures |r| == d && forall i :: 0 <= i < d ==> r[i] == Conv(f, p, s, i)
  {
    seq(d, i requires 0 <= i < d => Conv(f, p, s, i))
  }

  /** p splits: its degree is the number of the distinct locators xs of its roots. */
  ghost predicate Splits(f: GF, p: seq<nat>, xs: seq<nat>) {
    && |p| == |xs| + 1 && p[0] == 1
    && IsSyms(f, p) && Locators(f, xs) && Distinct(xs)
    && VanishesAt(f, p, xs)
  }

  // ----- quotients by one root, seen from the other roots

  lemma CrossRoot(f: GF, p: seq<nat>, xs: seq<nat>, j: nat, l: nat)
    requires Primitive(f) && Splits(f, p, xs) && j < |xs| && l < |xs| && j != l
    ensures Quo(f, Quotient(f, p, xs[j], |xs|), xs[l], |xs| - 1) == 0
  {
    assert xs[j] != xs[l];
    hide Quo, Xor, Mul, Primitive;
    assert Quo(f, p, xs[j], |p| - 1) == 0 && Quo(f, p, xs[l], |p| - 1) == 0;
    QuotientRoot(f, p, xs[j], xs[l]);
  }

  // The formal derivative never vanishes at a root of a polynomial that splits.
  lemma OwnValueNonzero(f: GF, p: seq<nat>, xs: seq<nat>, j: nat)
    requires Primitive(f) && Splits(f, p, xs) && j < |xs|
    ensures Quo(f, Quotient(f, p, xs[j], |xs|), xs[j], |xs| - 1) != 0
  {
    var d := |xs|;
    var q := Quotient(f, p, xs[j], d);
    hide Quo, Xor, Mul, Primitive;
    if Quo(f, q, xs[j], d - 1) == 0 {
      forall l | 0 <= l < d ensures Quo(f, q, xs[l], d - 1) == 0 {
        if l != j {
          CrossRoot(f, p, xs, j, l);
        }
      }
      QuotientRange(f, p, xs[j], d);
      RootCount(f, q, xs);
      QuoZero(f, p, xs[j]);
    }
  }

  // ----- the evaluator of a power-sum sequence

  /** For every locator: the first n terms of its quotient against the coefficients c. */
  function PartialValues(f: GF, p: seq<nat>, xs: seq<nat>, d: nat, c: seq<nat>, n: nat): (r: seq<nat>)
    ensures |r| == |xs| && forall j :: 0 <= j < |xs| ==> r[j] == Dot(f, Quotient(f, p, xs[j], d), c, n)
  {
    seq(|xs|, j requires 0 <= j < |xs| => Dot(f, Quotient(f, p, xs[j], d), c, n))
  }

  lemma {:induction false} EvaluatorTerms(f: GF, p: seq<nat>, s: seq<nat>, w: seq<nat>, xs: seq<nat>, d: nat,
                                          c: seq<nat>, n: nat)
    requires Primitive(f) && SumsTo(f, s, w, xs, d) && n <= d
    ensures Dot(f, Evaluator(f, p, s, d), c, n) == Dot(f, w, PartialValues(f, p, xs, d, c, n), |xs|)
  {
    hide Xor, Mul, Conv, Quo, Primitive, SumsTo, PowerSum;
    var v' := PartialValues(f, p, xs, d, c, n);
    if n == 0 {
      DotExtend(f, w, v', 0, |xs|);
    } else {
      EvaluatorTerms(f, p, s, w, xs, d, c, n - 1);
      var v, u, ci := PartialValues(f, p, xs, d, c, n - 1), QuoOf(f, p, xs, n - 1), At(c, n - 1);
      forall j | 0 <= j < |xs| ensures At(v', j) == Xor(At(v, j), Mul(f, ci, At(u, j))) {
        MulComm(f, ci, u[j]);
      }
      DotLinear(f, w, v, ci, u, v', |xs|);
      assert Conv(f, p, s, n - 1) == Dot(f, w, u, |xs|) by {
        assert SumsTo(f, s, w, xs, n) by { SumsToFewer(f, s, w, xs, d, n); }
        ConvPowerSums(f, p, s, w, xs, n - 1);
      }
      MulComm(f, ci, Dot(f, w, u, |xs|));
    }
  }

  lemma SumsToFewer(f: GF, s: seq<nat>, w: seq<nat>, xs: seq<nat>, m: nat, n: nat)
    requires SumsTo(f, s, w, xs, m) && n <= m
    ensures SumsTo(f, s, w, xs, n)
  {
  }

  // At its own locator the evaluator of a power sum is the weight times the quotient's value.
  lemma EvaluatorValue(f: GF, p: seq<nat>, s: seq<nat>, w: seq<nat>, xs: seq<nat>, l: nat)
    requires Primitive(f) && Splits(f, p, xs) && SumsTo(f, s, w, xs, |xs|) && l < |xs|
    ensures Quo(f, Evaluator(f, p, s, |xs|), xs[l], |xs| - 1)
         == Mul(f, w[l], Quo(f, Quotient(f, p, xs[l], |xs|), xs[l], |xs| - 1))
  {
    hide *;
    var d := |xs|;
    var c := PowersDown(f, xs[l], d - 1);
    var v := PartialValues(f, p, xs, d, c, d);
    EvaluatorTerms(f, p, s, w, xs, d, c, d);
    QuoIsDot(f, Evaluator(f, p, s, d), xs[l], d);
    forall j | 0 <= j < d ensures v[j] == Quo(f, Quotient(f, p, xs[j], d), xs[l], d - 1) {
      QuoIsDot(f, Quotient(f, p, xs[j], d), xs[l], d);
    }
    forall j | 0 <= j < d && j != l ensures At(v, j) == 0 {
      CrossRoot(f, p, xs, j, l);
      EntryIs(v, j);
    }
    SumsLength(f, s, w, xs, d);
    DotSingle(f, w, v, l, d);
    EntryIs(v, l);
    EntryIs(w, l);
  }

  lemma QuoIsDot(f: GF, p: seq<nat>, x: nat, d: nat)
    requires d >= 1
    ensures Quo(f, p, x, d - 1) == Dot(f, p, PowersDown(f, x, d - 1), d)
  {
  }

  lemma EntryIs(v: seq<nat>, j: nat)
    requires j < |v|
    ensures At(v, j) == v[j]
  {
  }

  lemma SumsLength(f: GF, s: seq<nat>, w: seq<nat>, xs: seq<nat>, n: nat)
    requires SumsTo(f, s, w, xs, n)
    ensures |w| == |xs|
  {
  }

  // ----- equal convolutions come from equal sequences

  lemma {:induction false} ConvInjective(f: GF, p: seq<nat>, s: seq<nat>, t: seq<nat>, n: nat)
    requires Primitive(f) && |p| > 0 && p[0] == 1 && IsSyms(f, s) && IsSyms(f, t) && n <= |s| && n <= |t|
    requires forall k :: 0 <= k < n ==> Conv(f, p, s, k) == Conv(f, p, t, k)
    ensures forall k :: 0 <= k < n ==> s[k] == t[k]
  {
    hide Xor, Mul, Conv, Dot, Primitive;
    if n != 0 {
      ConvInjective(f, p, s, t, n - 1);
      ConvHead(f, p, s, n - 1);
      ConvHead(f, p, t, n - 1);
      var a, b := Reverse(s, n - 1)[1..], Reverse(t, n - 1)[1..];
      assert a == b;
      var r := Dot(f, p[1..], a, n - 1);
      XorCancel(s[n - 1], r);
      XorCancel(t[n - 1], r);
    }
  }

  lemma ConvHead(f: GF, p: seq<nat>, s: seq<nat>, k: nat)
    requires Primitive(f) && |p| > 0 && p[0] == 1 && IsSyms(f, s) && k < |s|
    ensures Conv(f, p, s, k) == Xor(s[k], Dot(f, p[1..], Reverse(s, k)[1..], k))
  {
    hide Xor, Mul;
    var v := Reverse(s, k);
    DotFirst(f, p, v, p[1..], v[1..], k);
    assert f.mm >= 1;
    MulOne(f, s[k]);
  }

  // ----- soundness of the error values

  /** Each weight solves its own equation: weight times quotient value is the evaluator's value. */
  ghost predicate ForneyWeights(f: GF, p: seq<nat>, s: seq<nat>, w: seq<nat>, xs: seq<nat>) {
    && |w| == |xs| && IsSyms(f, w)
    && forall l :: 0 <= l < |xs| ==>
         Mul(f, w[l], Quo(f, Quotient(f, p, xs[l], |xs|), xs[l], |xs| - 1))
           == Quo(f, Evaluator(f, p, s, |xs|), xs[l], |xs| - 1)
  }

  function PowerSums(f: GF, w: seq<nat>, xs: seq<nat>, n: nat): (r: seq<nat>)
    ensures |r| == n && forall k :: 0 <= k < n ==> r[k] == PowerSum(f, w, xs, k)
  {
    seq(n, k requires 0 <= k < n => PowerSum(f, w, xs, k))
  }

  lemma PowerSumsRange(f: GF, w: seq<nat>, xs: seq<nat>, n: nat)
    ensures IsSyms(f, PowerSums(f, w, xs, n))
    ensures |w| == |xs| ==> forall m: nat :: m <= n ==> SumsTo(f, PowerSums(f, w, xs, n), w, xs, m)
  {
    forall k | 0 <= k < n ensures IsSym(f, PowerSum(f, w, xs, k)) {
      DotRange(f, w, PowersOf(f, xs, k), |xs|);
    }
  }

  lemma SumOfEqualValues(f: GF, p: seq<nat>, q: seq<nat>, x: nat, k: nat)
    requires Primitive(f) && |p| == |q| && Quo(f, p, x, k) == Quo(f, q, x, k)
    ensures Quo(f, AddMul(f, p, 1, q), x, k) == 0
  {
    PrimitiveWide(f);
    hide Xor, Mul, Quo, Primitive;
    QuoAddMul(f, p, 1, q, x, k);
    var v := Quo(f, q, x, k);
    QuoRange(f, q, x, k);
    MulOne(f, v);
    XorSelf(v);
  }

  lemma ZeroSum(f: GF, p: seq<nat>, q: seq<nat>)
    requires Primitive(f) && IsSyms(f, p) && IsSyms(f, q) && |p| == |q|
    ensures var t := AddMul(f, p, 1, q);
      IsSyms(f, t) && ((forall i :: 0 <= i < |t| ==> t[i] == 0) ==> p == q)
  {
    PrimitiveWide(f);
    hide Xor, Mul, Primitive;
    forall i | 0 <= i < |p|
      ensures IsSym(f, Xor(p[i], Mul(f, 1, q[i]))) && (Xor(p[i], Mul(f, 1, q[i])) == 0 ==> p[i] == q[i])
    {
      MulOne(f, q[i]);
      SymXor(f, p[i], q[i]);
      XorCancel(p[i], q[i]);
    }
  }

  // Two polynomials with as many coefficients as locators that agree at all of them are equal.
  lemma EqualByValues(f: GF, p: seq<nat>, q: seq<nat>, xs: seq<nat>)
    requires Primitive(f) && IsSyms(f, p) && IsSyms(f, q) && Locators(f, xs) && Distinct(xs)
    requires |p| == |q| == |xs|
    requires forall l :: 0 <= l < |xs| ==> Quo(f, p, xs[l], |xs| - 1) == Quo(f, q, xs[l], |xs| - 1)
    ensures p == q
  {
    hide Xor, Mul, Quo, Primitive, AddMul;
    var n, t := |xs|, AddMul(f, p, 1, q);
    forall l | 0 <= l < n ensures Quo(f, t, xs[l], n - 1) == 0 {
      SumOfEqualValues(f, p, q, xs[l], n - 1);
    }
    ZeroSum(f, p, q);
    RootCount(f, t, xs);
  }

  lemma EvaluatorRange(f: GF, p: seq<nat>, s: seq<nat>, d: nat)
    ensures IsSyms(f, Evaluator(f, p, s, d))
  {
    forall i | 0 <= i < d ensures IsSym(f, Conv(f, p, s, i)) {
      DotRange(f, p, Reverse(s, i), i + 1);
    }
  }

  // Past its degree, a polynomial that vanishes at all locators annihilates their power sums.
  lemma PowerSumsAnnihilated(f: GF, p: seq<nat>, s: seq<nat>, w: seq<nat>, xs: seq<nat>, k: nat)
    requires Primitive(f) && Splits(f, p, xs) && SumsTo(f, s, w, xs, k + 1) && |xs| <= k
    ensures Conv(f, p, s, k) == 0
  {
    hide Xor, Mul, Quo, Conv, Dot, Primitive, SumsTo;
    ConvPowerSums(f, p, s, w, xs, k);
    var v := QuoOf(f, p, xs, k);
    DotStart(f, w, v);
    forall j | 0 <= j < |xs| ensures At(v, j) == 0 {
      assert Quo(f, p, xs[j], |p| - 1) == 0;
      QuoBeyond(f, p, xs[j], |p| - 1, k);
    }
    DotExtend(f, w, v, 0, |xs|);
  }

  lemma WeightsLength(f: GF, p: seq<nat>, s: seq<nat>, w: seq<nat>, xs: seq<nat>)
    requires ForneyWeights(f, p, s, w, xs)
    ensures |w| == |xs|
  {
    hide Mul, Quo, Quotient, Evaluator;
  }

  lemma WeightAt(f: GF, p: seq<nat>, s: seq<nat>, w: seq<nat>, xs: seq<nat>, l: nat)
    requires ForneyWeights(f, p, s, w, xs) && l < |xs| == |w|
    ensures Mul(f, w[l], Quo(f, Quotient(f, p, xs[l], |xs|), xs[l], |xs| - 1))
         == Quo(f, Evaluator(f, p, s, |xs|), xs[l], |xs| - 1)
  {
    hide Mul, Quo, Quotient, Evaluator;
  }

  lemma SplitsParts(f: GF, p: seq<nat>, xs: seq<nat>)
    requires Splits(f, p, xs)
    ensures |p| == |xs| + 1 && p[0] == 1 && IsSyms(f, p) && Locators(f, xs) && Distinct(xs)
  {
    hide Quo;
  }

  // The power sums of Forney's weights have the same evaluator as the syndromes.
  lemma ForneyConvolves(f: GF, p: seq<nat>, s: seq<nat>, w: seq<nat>, xs: seq<nat>)
    requires Primitive(f) && Splits(f, p, xs) && IsSyms(f, s) && |xs| <= |s| && ForneyWeights(f, p, s, w, xs)
    ensures var t := PowerSums(f, w, xs, |s|);
      && IsSyms(f, t) && (forall m: nat :: m <= |s| ==> SumsTo(f, t, w, xs, m))
      && forall k :: 0 <= k < |xs| ==> Conv(f, p, s, k) == Conv(f, p, t, k)
  {
    hide *;
    var d, n := |xs|, |s|;
    var t := PowerSums(f, w, xs, n);
    WeightsLength(f, p, s, w, xs);
    PowerSumsRange(f, w, xs, n);
    SplitsParts(f, p, xs);
    var a, b := Evaluator(f, p, t, d), Evaluator(f, p, s, d);
    forall l | 0 <= l < d ensures Quo(f, a, xs[l], d - 1) == Quo(f, b, xs[l], d - 1) {
      EvaluatorValue(f, p, t, w, xs, l);
      WeightAt(f, p, s, w, xs, l);
    }
    EvaluatorRange(f, p, t, d);
    EvaluatorRange(f, p, s, d);
    EqualByValues(f, a, b, xs);
    forall k | 0 <= k < d ensures Conv(f, p, s, k) == Conv(f, p, t, k) {
      assert a[k] == b[k];
    }
  }

  // Whatever the syndromes, the error values at the roots of a split locator polynomial explain the first of them,
  // as many as there are roots.
  lemma ForneyFirst(f: GF, p: seq<nat>, s: seq<nat>, w: seq<nat>, xs: seq<nat>)
    requires Primitive(f) && Splits(f, p, xs) && IsSyms(f, s) && |xs| <= |s| && ForneyWeights(f, p, s, w, xs)
    ensures SumsTo(f, s, w, xs, |xs|)
  {
    hide Xor, Mul, Quo, Conv, Primitive;
    ForneyConvolves(f, p, s, w, xs);
    ConvInjective(f, p, s, PowerSums(f, w, xs, |s|), |xs|);
  }

  // If the locator polynomial splits and annihilates the syndromes from its degree on, the
  // error values explain every syndrome.
  lemma ForneySound(f: GF, p: seq<nat>, s: seq<nat>, w: seq<nat>, xs: seq<nat>)
    requires Primitive(f) && Splits(f, p, xs) && IsSyms(f, s) && |xs| <= |s|
    requires Annihilates(f, p, s, |xs|, |s|) && ForneyWeights(f, p, s, w, xs)
    ensures SumsTo(f, s, w, xs, |s|)
  {
    var d, n := |xs|, |s|;
    var t := PowerSums(f, w, xs, n);
    hide Xor, Mul, Quo, Conv, Primitive;
    ForneyConvolves(f, p, s, w, xs);
    forall k | d <= k < n ensures Conv(f, p, s, k) == Conv(f, p, t, k) {
      PowerSumsAnnihilated(f, p, t, w, xs, k);
    }
    ConvInjective(f, p, s, t, n);
  }
}
