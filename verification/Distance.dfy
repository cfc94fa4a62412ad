/** Errors as differences of blocks, their syndromes as sparse power sums, and the minimum distance. */
module Distance {
  import opened Bits
  import opened Field
  import opened Poly
  import opened BerlekampMassey
  import opened Code

  // ----- sums with few nonzero terms

  function Pick(u: seq<nat>, ps: seq<nat>): (r: seq<nat>)
    ensures |r| == |ps| && forall j :: 0 <= j < |ps| ==> r[j] == At(u, ps[j])
  {
    seq(|ps|, j requires 0 <= j < |ps| => At(u, ps[j]))
  }

  ghost predicate ZeroOff(u: seq<nat>, ps: seq<nat>) {
    forall p :: 0 <= p < |u| && p !in ps ==> u[p] == 0
  }

  lemma {:induction false} DotWithout(f: GF, u: seq<nat>, v: seq<nat>, l: nat, n: nat)
    requires l < |u| && n <= |u|
    ensures Dot(f, u, v, n) ==
      if l < n then Xor(Dot(f, u[l := 0], v, n), Mul(f, u[l], At(v, l))) else Dot(f, u[l := 0], v, n)
  {
    hide Xor, Mul, At;
    if n != 0 {
      DotWithout(f, u, v, l, n - 1);
      DotLast(f, u, v, n);
      DotLast(f, u[l := 0], v, n);
      hide Dot;
      AtIs(u, n - 1);
      AtIs(u[l := 0], n - 1);
      var d, t := Dot(f, u[l := 0], v, n - 1), Mul(f, u[l], At(v, l));
      if l == n - 1 {
        MulZero(f, At(v, l));
        XorZero(d);
      } else if l < n - 1 {
        XorLast(d, t, Mul(f, u[n - 1], At(v, n - 1)));
      }
    }
  }

  lemma AtIs(u: seq<nat>, i: nat)
    requires i < |u|
    ensures At(u, i) == u[i]
  {
  }

  lemma DotLast(f: GF, u: seq<nat>, v: seq<nat>, n: nat)
    requires n > 0
    ensures Dot(f, u, v, n) == Xor(Dot(f, u, v, n - 1), Mul(f, At(u, n - 1), At(v, n - 1)))
  {
  }

  lemma XorLast(a: nat, b: nat, d: nat)
    ensures Xor(Xor(a, b), d) == Xor(Xor(a, d), b)
  {
    hide Xor;
    XorAssoc(a, b, d);
    XorComm(b, d);
    XorAssoc(a, d, b);
  }

  lemma {:induction false} Gather(f: GF, u: seq<nat>, v: seq<nat>, ps: seq<nat>)
    requires Distinct(ps) && ZeroOff(u, ps) && forall j :: 0 <= j < |ps| ==> ps[j] < |u|
    ensures Dot(f, u, v, |u|) == Dot(f, Pick(u, ps), Pick(v, ps), |ps|)
    decreases |ps|
  {
    var n, m := |u|, |ps|;
    hide Xor, Mul, Dot;
    DotStart(f, u, v);
    DotStart(f, Pick(u, ps), Pick(v, ps));
    if m == 0 {
      DotExtend(f, u, v, 0, n);
    } else {
      var l, ps' := ps[m - 1], ps[..m - 1];
      var u' := u[l := 0];
      DotWithout(f, u, v, l, n);
      assert ZeroOff(u', ps') by {
        forall p | 0 <= p < |u'| && p !in ps' ensures u'[p] == 0 {
          assert p in ps ==> p == l;
        }
      }
      Gather(f, u', v, ps');
      DotLast(f, Pick(u, ps), Pick(v, ps), m);
      forall j | 0 <= j < m - 1
        ensures At(Pick(u', ps'), j) == At(Pick(u, ps), j) && At(Pick(v, ps'), j) == At(Pick(v, ps), j)
      {
        assert ps'[j] == ps[j] != l;
      }
      DotTerms(f, Pick(u', ps'), Pick(v, ps'), Pick(u, ps), Pick(v, ps), m - 1);
    }
  }

  // The syndromes of a block that is zero off some positions are power sums of their locators.
  lemma SparseSyndrome(c: Params, data: seq<nat>, ps: seq<nat>, i: nat)
    requires Good(c) && IsBlock(c, data) && Positions(c, ps) && ZeroOff(Padded(c, data), ps)
    ensures Syndrome(c, data, i) == PowerSum(c.f, Weights(c, Padded(c, data), ps), LocatorsOf(c, ps), i)
  {
    var f, n, full := c.f, NN(c.f), Padded(c, data);
    var all := AllPositions(n);
    SyndromeIsPowerSum(c, data, i);
    var w, v := Weights(c, full, all), PowersOf(f, LocatorsOf(c, all), i);
    hide Locator, Pow, Dot, Primitive;
    WeightsZeroOff(c, full, all, ps);
    Gather(f, w, v, ps);
    hide Weight;
    assert Pick(w, ps) == Weights(c, full, ps);
    assert Pick(v, ps) == PowersOf(f, LocatorsOf(c, ps), i);
  }

  lemma WeightsZeroOff(c: Params, full: seq<nat>, all: seq<nat>, ps: seq<nat>)
    requires |full| == |all| && (forall p :: 0 <= p < |all| ==> all[p] == p) && ZeroOff(full, ps)
    ensures ZeroOff(Weights(c, full, all), ps)
  {
    forall p | 0 <= p < |all| && p !in ps ensures Weight(c, full, p) == 0 {
      MulZero(c.f, Pow(c.f, Locator(c, p), c.fcr));
    }
  }

  lemma WeightNonzero(c: Params, full: seq<nat>, pos: nat)
    requires Good(c) && IsSyms(c.f, full) && pos < |full|
    ensures IsSym(c.f, Weight(c, full, pos))
    ensures Weight(c, full, pos) == 0 <==> full[pos] == 0
  {
    hide Locator, Pow, Primitive, Mul;
    LocatorRange(c, pos);
    PowRange(c.f, Locator(c, pos), c.fcr);
    NoZeroDivisors(c.f, full[pos], Pow(c.f, Locator(c, pos), c.fcr));
  }

  lemma WeightsRange(c: Params, full: seq<nat>, ps: seq<nat>)
    ensures IsSyms(c.f, Weights(c, full, ps))
  {
  }

  // A block with zero syndromes and at most nroots nonzero symbols is zero.
  lemma LightCodeword(c: Params, data: seq<nat>, ps: seq<nat>)
    requires Good(c) && IsCodeword(c, data) && Positions(c, ps) && ZeroOff(Padded(c, data), ps)
    requires |ps| <= c.nroots
    ensures forall p :: 0 <= p < |data| ==> data[p] == 0
  {
    var f, full := c.f, Padded(c, data);
    var w, xs := Weights(c, full, ps), LocatorsOf(c, ps);
    hide Syndrome, Weight, Locator, PowerSum, Good;
    forall k | 0 <= k < |xs| ensures PowerSum(f, w, xs, k) == 0 {
      SparseSyndrome(c, data, ps, k);
    }
    LocatorsDistinct(c, ps);
    WeightsRange(c, full, ps);
    assert Primitive(f) by { GoodPrimitive(c); }
    Vandermonde(f, w, xs, 0);
    PaddedSyndrome(c, data, 0);
    forall p | 0 <= p < |full| ensures full[p] == 0 {
      if p in ps {
        var j :| 0 <= j < |ps| && ps[j] == p;
        assert w[j] == 0;
        WeightNonzero(c, full, p);
      }
    }
    forall p | 0 <= p < |data| ensures data[p] == 0 {
      assert full[c.pad + p] == data[p];
    }
  }

  lemma GoodPrimitive(c: Params)
    requires Good(c)
    ensures Primitive(c.f)
  {
  }

  // ----- differences

  /** Symbol-wise sum of two blocks: the error that turns one into the other. */
  function XorAll(a: seq<nat>, b: seq<nat>): (r: seq<nat>)
    requires |a| == |b|
    ensures |r| == |a| && forall p :: 0 <= p < |a| ==> r[p] == Xor(a[p], b[p])
  {
    seq(|a|, p requires 0 <= p < |a| => Xor(a[p], b[p]))
  }

  /** Positions, counted with the padding, where two blocks differ. */
  function DiffPositions(c: Params, a: seq<nat>, b: seq<nat>): set<nat>
    requires |a| == |b|
  {
    set p | 0 <= p < |a| && a[p] != b[p] :: c.pad + p
  }

  lemma XorAllSyms(c: Params, a: seq<nat>, b: seq<nat>)
    requires Good(c) && IsBlock(c, a) && IsBlock(c, b)
    ensures IsBlock(c, XorAll(a, b))
    ensures XorAll(a, b) == AddMul(c.f, a, 1, b)
  {
    GoodPrimitive(c);
    PrimitiveWide(c.f);
    hide Xor, Mul, Good, Primitive;
    var e := XorAll(a, b);
    forall p | 0 <= p < |a| ensures IsSym(c.f, e[p]) && Mul(c.f, 1, b[p]) == b[p] {
      SymXor(c.f, a[p], b[p]);
      MulOne(c.f, b[p]);
    }
  }

  lemma SyndromeXor(c: Params, a: seq<nat>, b: seq<nat>, i: nat)
    requires Good(c) && IsBlock(c, a) && IsBlock(c, b)
    ensures Syndrome(c, XorAll(a, b), i) == Xor(Syndrome(c, a, i), Syndrome(c, b, i))
  {
    hide Xor, Mul, Root, Quo, Primitive, Good, IsSyms, NN;
    XorAllSyms(c, a, b);
    GoodPrimitive(c);
    PrimitiveWide(c.f);
    var x, k := Root(c, i), |a| - 1;
    QuoAddMul(c.f, a, 1, b, x, k);
    QuoRange(c.f, b, x, k);
    MulOne(c.f, Quo(c.f, b, x, k));
  }

  // The error between two blocks is zero off any list that covers the positions where they differ.
  lemma ErrorZeroOff(c: Params, a: seq<nat>, b: seq<nat>, ps: seq<nat>)
    requires |a| == |b| && forall p :: p in DiffPositions(c, a, b) ==> p in ps
    ensures ZeroOff(Padded(c, XorAll(a, b)), ps)
  {
    var full := Padded(c, XorAll(a, b));
    forall p | 0 <= p < |full| && p !in ps ensures full[p] == 0 {
      if p >= c.pad {
        var q := p - c.pad;
        assert p !in DiffPositions(c, a, b);
        assert a[q] == b[q];
        XorSelf(a[q]);
      }
    }
  }

  lemma {:induction false} SetToSeq(s: set<nat>) returns (ps: seq<nat>)
    ensures Distinct(ps) && |ps| == |s| && forall p :: p in ps <==> p in s
    decreases |s|
  {
    if s == {} {
      ps := [];
    } else {
      var p :| p in s;
      ps := SetToSeq(s - {p});
      ps := ps + [p];
    }
  }

  // Two codewords that differ in at most nroots positions are equal.
  lemma CloseCodewords(c: Params, a: seq<nat>, b: seq<nat>, ps: seq<nat>)
    requires Good(c) && IsCodeword(c, a) && IsCodeword(c, b) && Positions(c, ps) && |ps| <= c.nroots
    requires forall p :: p in DiffPositions(c, a, b) ==> p in ps
    ensures a == b
  {
    var e := XorAll(a, b);
    XorAllSyms(c, a, b);
    hide Xor, Syndrome;
    forall i | 0 <= i < c.nroots ensures Syndrome(c, e, i) == 0 {
      SyndromeXor(c, a, b, i);
      XorSelf(0);
    }
    ErrorZeroOff(c, a, b, ps);
    LightCodeword(c, e, ps);
    forall p | 0 <= p < |a| ensures a[p] == b[p] {
      XorCancel(a[p], b[p]);
    }
  }

  // Minimum distance: distinct codewords differ in more than nroots positions.
  lemma MinimumDistance(c: Params, a: seq<nat>, b: seq<nat>)
    requires Good(c) && IsCodeword(c, a) && IsCodeword(c, b) && a != b
    ensures |DiffPositions(c, a, b)| > c.nroots
  {
    var d := DiffPositions(c, a, b);
    hide Good, IsSyms;
    if |d| <= c.nroots {
      var ps := SetToSeq(d);
      forall j | 0 <= j < |ps| ensures ps[j] < NN(c.f) {
        assert ps[j] in d;
      }
      hide DiffPositions;
      CloseCodewords(c, a, b, ps);
    }
  }

  // A block at distance 1 to nroots from a codeword never looks clean.
  lemma DamageDetected(c: Params, a: seq<nat>, b: seq<nat>)
    requires Good(c) && IsCodeword(c, a) && IsBlock(c, b) && 1 <= |DiffPositions(c, a, b)| <= c.nroots
    ensures exists i :: 0 <= i < c.nroots && Syndrome(c, b, i) != 0
  {
    if forall i :: 0 <= i < c.nroots ==> Syndrome(c, b, i) == 0 {
      assert a != b by {
        var p :| p in DiffPositions(c, a, b);
      }
      MinimumDistance(c, a, b);
    }
  }
}
