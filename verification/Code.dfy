/** The Reed-Solomon code: its parameters, locators, syndromes, codewords and minimum distance. */
module Code {
  import opened Bits
  import opened Field
  import opened Poly
  import opened BerlekampMassey

  /** The control block without its tables. */
  datatype Params = Params(f: GF, fcr: nat, prim: nat, iprim: nat, nroots: nat, pad: nat)

  /** iprim is the inverse of prim modulo NN. */
  ghost predicate InverseRoot(prim: nat, iprim: nat, nn: nat) {
    exists t: nat :: prim * iprim == 1 + t * nn
  }

  ghost predicate Good(c: Params) {
    && Primitive(c.f)
    && 1 <= c.iprim <= NN(c.f)
    && InverseRoot(c.prim, c.iprim, NN(c.f))
    && c.nroots + c.pad < NN(c.f)
  }

  lemma GoodParts(c: Params)
    requires Good(c)
    ensures Primitive(c.f) && NN(c.f) > 0 && 1 <= c.iprim <= NN(c.f) && c.nroots + c.pad < NN(c.f)
  {
    NNPositive(c.f);
  }

  /** Number of symbols in a block on the wire. */
  function Len(c: Params): nat
    requires c.pad <= NN(c.f)
  {
    NN(c.f) - c.pad
  }

  ghost predicate IsBlock(c: Params, data: seq<nat>) {
    c.pad < NN(c.f) && |data| == Len(c) && IsSyms(c.f, data)
  }

  lemma BlockLength(c: Params, data: seq<nat>)
    requires IsBlock(c, data)
    ensures |data| > 0 && c.pad < NN(c.f) && |data| == NN(c.f) - c.pad
  {
  }

  /** The k-th power of alpha to the power prim. */
  function Beta(c: Params, k: nat): nat {
    Exp(c.f, k * c.prim)
  }

  /** The i-th root of the generator polynomial. */
  function Root(c: Params, i: nat): nat {
    Beta(c, c.fcr + i)
  }

  lemma BetaRange(c: Params, k: nat)
    requires Primitive(c.f)
    ensures IsSym(c.f, Beta(c, k)) && Beta(c, k) != 0
  {
    hide Exp, Primitive;
    assert c.f.mm >= 1 by { assert Primitive(c.f); PrimitiveWide(c.f); }
    ExpRange(c.f, k * c.prim);
    ExpNonzero(c.f, k * c.prim);
  }

  lemma BetaPow(c: Params, k: nat, m: nat)
    requires Primitive(c.f)
    ensures k * m >= 0 && Pow(c.f, Beta(c, k), m) == Beta(c, k * m)
  {
    hide Exp, Primitive;
    PowExp(c.f, k * c.prim, m);
    ProductSwap(k, c.prim, m);
  }

  lemma ProductSwap(a: nat, b: nat, m: nat)
    ensures a * b * m == (a * m) * b
  {
  }

  /** The block as a polynomial, first symbol highest, evaluated at the i-th root. */
  function Syndrome(c: Params, data: seq<nat>, i: nat): nat
    requires |data| > 0
  {
    Quo(c.f, data, Root(c, i), |data| - 1)
  }

  function Syndromes(c: Params, data: seq<nat>): (s: seq<nat>)
    requires |data| > 0
    ensures |s| == c.nroots && forall i :: 0 <= i < c.nroots ==> s[i] == Syndrome(c, data, i)
  {
    seq(c.nroots, i requires 0 <= i < c.nroots => Syndrome(c, data, i))
  }

  ghost predicate IsCodeword(c: Params, data: seq<nat>) {
    IsBlock(c, data) && forall i :: 0 <= i < c.nroots ==> Syndrome(c, data, i) == 0
  }

  // ----- locators of positions in the unshortened block

  /** Locator of position pos, counted in the block with its padding. */
  function Locator(c: Params, pos: nat): nat {
    if pos < NN(c.f) then Beta(c, NN(c.f) - 1 - pos) else 1
  }

  function LocatorsOf(c: Params, ps: seq<nat>): (r: seq<nat>)
    ensures |r| == |ps| && forall j :: 0 <= j < |ps| ==> r[j] == Locator(c, ps[j])
  {
    seq(|ps|, j requires 0 <= j < |ps| => Locator(c, ps[j]))
  }

  lemma LocatorRange(c: Params, pos: nat)
    requires Good(c)
    ensures IsSym(c.f, Locator(c, pos)) && Locator(c, pos) != 0
  {
    NNPositive(c.f);
    hide Beta;
    if pos < NN(c.f) {
      BetaRange(c, NN(c.f) - 1 - pos);
    }
  }

  lemma {:induction false} ExpCycle(f: GF, i: nat, k: nat)
    requires Primitive(f)
    ensures k * NN(f) >= 0 && Exp(f, i + k * NN(f)) == Exp(f, i)
  {
    hide Exp, NN, Primitive;
    if k != 0 {
      ExpCycle(f, i, k - 1);
      ExpPeriod(f, i + (k - 1) * NN(f));
      assert i + (k - 1) * NN(f) + NN(f) == i + k * NN(f);
    }
  }

  lemma InverseArith(p: nat, q: nat, t: nat, n: nat, a: nat)
    requires p * q == 1 + t * n
    ensures a * t >= 0 && (a * p) * q == a + (a * t) * n
  {
    assert (a * p) * q == a * (p * q);
    assert a * (1 + t * n) == a + a * (t * n);
    assert a * (t * n) == (a * t) * n;
  }

  // Raising to the power iprim undoes multiplying the exponent by prim.
  lemma PowIprim(c: Params, a: nat)
    requires Good(c)
    ensures Pow(c.f, Beta(c, a), c.iprim) == Exp(c.f, a)
  {
    var t: nat :| c.prim * c.iprim == 1 + t * NN(c.f);
    InverseArith(c.prim, c.iprim, t, NN(c.f), a);
    hide Exp, Primitive, NN, Good;
    PowExp(c.f, a * c.prim, c.iprim);
    ExpCycle(c.f, a, a * t);
  }

  lemma LocatorInjective(c: Params, p: nat, q: nat)
    requires Good(c) && p < q < NN(c.f)
    ensures Locator(c, p) != Locator(c, q)
  {
    var n := NN(c.f);
    PowIprim(c, n - 1 - p);
    PowIprim(c, n - 1 - q);
    hide Beta, Pow, Exp;
    ExpInjective(c.f, n - 1 - q, n - 1 - p);
  }

  ghost predicate Positions(c: Params, ps: seq<nat>) {
    Distinct(ps) && forall j :: 0 <= j < |ps| ==> ps[j] < NN(c.f)
  }

  lemma LocatorsDistinct(c: Params, ps: seq<nat>)
    requires Good(c) && Positions(c, ps)
    ensures Locators(c.f, LocatorsOf(c, ps)) && Distinct(LocatorsOf(c, ps))
  {
    var xs := LocatorsOf(c, ps);
    hide Locator, Good;
    forall j | 0 <= j < |xs| ensures IsSym(c.f, xs[j]) && xs[j] != 0 {
      LocatorRange(c, ps[j]);
    }
    forall i, j | 0 <= i < j < |xs| ensures xs[i] != xs[j] {
      if ps[i] < ps[j] {
        LocatorInjective(c, ps[i], ps[j]);
      } else {
        LocatorInjective(c, ps[j], ps[i]);
      }
    }
  }

  // ----- syndromes as power sums

  /** The block with its padding symbols in front. */
  function Padded(c: Params, data: seq<nat>): (r: seq<nat>)
    ensures |r| == c.pad + |data|
    ensures forall p :: 0 <= p < |r| ==> r[p] == if p < c.pad then 0 else data[p - c.pad]
  {
    seq(c.pad, _ => 0) + data
  }

  lemma {:induction false} QuoPadded(f: GF, z: nat, data: seq<nat>, full: seq<nat>, x: nat, k: nat)
    requires Primitive(f) && IsSyms(f, data) && IsSyms(f, full) && k < z + |data|
    requires |full| == z + |data| && forall p :: 0 <= p < |full| ==> full[p] == if p < z then 0 else data[p - z]
    ensures Quo(f, full, x, k) == if k < z then 0 else Quo(f, data, x, k - z)
  {
    hide Xor, Mul, Quo, Primitive, IsSyms;
    if k == 0 {
      QuoZero(f, full, x);
      QuoZero(f, data, x);
    } else {
      QuoPadded(f, z, data, full, x, k - 1);
      QuoStep(f, full, x, k);
      if k < z {
        MulZero(f, x);
        XorZero(0);
      } else if k == z {
        QuoZero(f, data, x);
        MulZero(f, x);
        XorZero(full[k]);
      } else {
        QuoStep(f, data, x, k - z);
      }
    }
  }

  /** Symbol at a position times its locator to the power fcr. */
  function Weight(c: Params, full: seq<nat>, pos: nat): nat {
    Mul(c.f, At(full, pos), Pow(c.f, Locator(c, pos), c.fcr))
  }

  function Weights(c: Params, full: seq<nat>, ps: seq<nat>): (r: seq<nat>)
    ensures |r| == |ps| && forall j :: 0 <= j < |ps| ==> r[j] == Weight(c, full, ps[j])
  {
    seq(|ps|, j requires 0 <= j < |ps| => Weight(c, full, ps[j]))
  }

  function AllPositions(n: nat): (r: seq<nat>)
    ensures |r| == n && forall p :: 0 <= p < n ==> r[p] == p
  {
    seq(n, p requires 0 <= p < n => p)
  }

  lemma RootPower(c: Params, i: nat, pos: nat)
    requires Good(c) && pos < NN(c.f)
    ensures Pow(c.f, Root(c, i), NN(c.f) - 1 - pos)
         == Mul(c.f, Pow(c.f, Locator(c, pos), c.fcr), Pow(c.f, Locator(c, pos), i))
  {
    var m := NN(c.f) - 1 - pos;
    hide Beta, Mul, Pow, Primitive;
    BetaPow(c, c.fcr + i, m);
    BetaPow(c, m, c.fcr + i);
    assert (c.fcr + i) * m == m * (c.fcr + i);
    PowAdd(c.f, Locator(c, pos), c.fcr, i);
  }

  lemma WeightTerm(c: Params, full: seq<nat>, i: nat, pos: nat)
    requires Good(c) && pos < NN(c.f)
    ensures Mul(c.f, At(full, pos), Pow(c.f, Root(c, i), NN(c.f) - 1 - pos))
         == Mul(c.f, Weight(c, full, pos), Pow(c.f, Locator(c, pos), i))
  {
    hide Root, Locator, Pow, Mul, At, Primitive;
    RootPower(c, i, pos);
    MulAssoc(c.f, At(full, pos), Pow(c.f, Locator(c, pos), c.fcr), Pow(c.f, Locator(c, pos), i));
  }

  lemma PaddedSyndrome(c: Params, data: seq<nat>, i: nat)
    requires Good(c) && IsBlock(c, data)
    ensures IsSyms(c.f, Padded(c, data)) && |Padded(c, data)| == NN(c.f)
    ensures Quo(c.f, Padded(c, data), Root(c, i), NN(c.f) - 1) == Syndrome(c, data, i)
  {
    SymZero(c.f);
    assert IsSyms(c.f, Padded(c, data));
    hide Quo, Root;
    QuoPadded(c.f, c.pad, data, Padded(c, data), Root(c, i), NN(c.f) - 1);
  }

  lemma SyndromeIsPowerSum(c: Params, data: seq<nat>, i: nat)
    requires Good(c) && IsBlock(c, data)
    ensures var ps := AllPositions(NN(c.f));
      Syndrome(c, data, i) == PowerSum(c.f, Weights(c, Padded(c, data), ps), LocatorsOf(c, ps), i)
  {
    var f, n := c.f, NN(c.f);
    var full, ps, x := Padded(c, data), AllPositions(n), Root(c, i);
    PaddedSyndrome(c, data, i);
    var w, xs, v := Weights(c, full, ps), LocatorsOf(c, ps), PowersDown(f, x, n - 1);
    var u := PowersOf(f, xs, i);
    assert Quo(f, full, x, n - 1) == Dot(f, full, v, n);
    hide Xor, Mul, Primitive, Pow, Root, Locator, Quo, Weight, Dot;
    forall p | 0 <= p < n ensures Mul(f, At(full, p), At(v, p)) == Mul(f, At(w, p), At(u, p)) {
      WeightTerm(c, full, i, p);
    }
    DotTerms(f, full, v, w, u, n);
  }
}
