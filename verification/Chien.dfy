/** The Chien search: roots of the locator polynomial, in index form, and the block positions they stand for. */
module Chien {
  import opened Bits
  import opened Field
  import opened Poly
  import opened BerlekampMassey
  import opened Code
  import opened Distance

  /** Index of the highest nonzero coefficient, 0 if there is none above the constant. */
  function Degree(p: seq<nat>): (d: nat)
    requires |p| > 0
    ensures d < |p| && DegreeAtMost(p, d) && (d > 0 ==> p[d] != 0)
  {
    if |p| == 1 then 0
    else if p[|p| - 1] != 0 then |p| - 1
    else Degree(p[..|p| - 1])
  }

  ghost predicate IsRoot(f: GF, p: seq<nat>, r: nat) {
    Eval(f, p, Exp(f, r)) == 0
  }

  /** The exponents of the roots among alpha^1, ..., alpha^n, in increasing order. */
  ghost function RootIndices(f: GF, p: seq<nat>, n: nat): (roots: seq<nat>)
    ensures forall j :: 0 <= j < |roots| ==> 1 <= roots[j] <= n && IsRoot(f, p, roots[j])
    ensures forall i, j :: 0 <= i < j < |roots| ==> roots[i] < roots[j]
    ensures forall r :: 1 <= r <= n && IsRoot(f, p, r) ==> r in roots
  {
    if n == 0 then []
    else if IsRoot(f, p, n) then RootIndices(f, p, n - 1) + [n]
    else RootIndices(f, p, n - 1)
  }

  /** The location counter of the search when it tests alpha^r. */
  function Place(c: Params, r: nat): nat {
    if r <= 1 || NN(c.f) == 0 then (if c.iprim == 0 then 0 else c.iprim - 1)
    else Mod(Place(c, r - 1) + c.iprim, NN(c.f))
  }

  lemma BetaAdd(c: Params, j: nat, k: nat)
    requires Primitive(c.f)
    ensures Mul(c.f, Beta(c, j), Beta(c, k)) == Beta(c, j + k)
  {
    hide Exp, Mul, Primitive;
    MulExp(c.f, j * c.prim, k * c.prim);
    assert j * c.prim + k * c.prim == (j + k) * c.prim;
  }

  lemma BetaPeriod(c: Params, k: nat)
    requires Primitive(c.f)
    ensures Beta(c, k + NN(c.f)) == Beta(c, k)
  {
    hide Exp, Primitive, NN;
    ExpCycle(c.f, k * c.prim, c.prim);
    assert k * c.prim + c.prim * NN(c.f) == (k + NN(c.f)) * c.prim;
  }

  lemma {:induction false} BetaMod(c: Params, k: nat)
    requires Primitive(c.f) && NN(c.f) > 0
    ensures Beta(c, Mod(k, NN(c.f))) == Beta(c, k)
    decreases k
  {
    hide Beta, Primitive;
    if k >= NN(c.f) {
      BetaMod(c, k - NN(c.f));
      BetaPeriod(c, k - NN(c.f));
    }
  }

  lemma BetaIprim(c: Params)
    requires Good(c)
    ensures Beta(c, c.iprim) == Exp(c.f, 1)
  {
    var t: nat :| c.prim * c.iprim == 1 + t * NN(c.f);
    hide Exp, Primitive, NN, Good;
    assert c.iprim * c.prim == 1 + t * NN(c.f);
    ExpCycle(c.f, 1, t);
  }

  // Equal powers stay equal one step on.
  lemma PlaceNext(c: Params, a: nat, b: nat)
    requires Primitive(c.f) && Beta(c, a) == Beta(c, b)
    ensures Beta(c, a + 1) == Beta(c, b + 1)
  {
    hide Beta, Primitive, Mul;
    BetaAdd(c, a, 1);
    BetaAdd(c, b, 1);
  }

  // One step of the location counter is one more power of alpha.
  lemma PlaceStep(c: Params, k: nat, e: nat)
    requires Good(c) && NN(c.f) > 0 && Beta(c, k + 1) == Exp(c.f, e)
    ensures Beta(c, Mod(k + c.iprim, NN(c.f)) + 1) == Exp(c.f, e + 1)
  {
    hide *;
    BetaIprim(c);
    GoodPrimitive(c);
    BetaMod(c, k + c.iprim);
    PlaceNext(c, Mod(k + c.iprim, NN(c.f)), k + c.iprim);
    BetaAdd(c, k + 1, c.iprim);
    MulExp(c.f, e, 1);
  }

  // The place counts powers of alpha^prim up to the root.
  lemma {:induction false} PlaceOfRoot(c: Params, r: nat)
    requires Good(c) && r >= 1
    ensures Place(c, r) < NN(c.f) && Beta(c, Place(c, r) + 1) == Exp(c.f, r)
  {
    hide Beta, Exp, Primitive, Mul;
    if r == 1 {
      BetaIprim(c);
    } else {
      PlaceOfRoot(c, r - 1);
      PlaceStep(c, Place(c, r - 1), r - 1);
    }
  }

  // Equal powers have congruent exponents.
  lemma ExpCongruent(f: GF, i: nat, j: nat)
    requires Primitive(f) && Exp(f, i) == Exp(f, j)
    ensures NN(f) > 0 && i % NN(f) == j % NN(f)
  {
    hide *;
    var n := NN(f);
    ExpMod(f, i);
    ExpMod(f, j);
    ModIsRemainder(i, n);
    ModIsRemainder(j, n);
    if Mod(i, n) < Mod(j, n) {
      ExpInjective(f, Mod(i, n), Mod(j, n));
    } else if Mod(j, n) < Mod(i, n) {
      ExpInjective(f, Mod(j, n), Mod(i, n));
    }
  }

  // prim (place + 1) is the root's exponent, modulo NN.
  lemma PlaceCongruent(c: Params, r: nat)
    requires Good(c) && r >= 1
    ensures NN(c.f) > 0 && Place(c, r) < NN(c.f)
    ensures (c.prim * (Place(c, r) + 1)) % NN(c.f) == r % NN(c.f)
  {
    hide Exp, NN, Primitive, Place, Good;
    GoodPrimitive(c);
    PlaceOfRoot(c, r);
    var e := (Place(c, r) + 1) * c.prim;
    assert e == c.prim * (Place(c, r) + 1);
    ExpCongruent(c.f, e, r);
  }

  // The locator of the place and the root are inverse to each other.
  lemma PlaceLocator(c: Params, r: nat)
    requires Good(c) && 1 <= r <= NN(c.f)
    ensures Place(c, r) < NN(c.f)
    ensures Locator(c, Place(c, r)) == Exp(c.f, NN(c.f) - r)
    ensures Mul(c.f, Locator(c, Place(c, r)), Exp(c.f, r)) == 1
  {
    var n := NN(c.f);
    PlaceOfRoot(c, r);
    var k := Place(c, r);
    BetaAdd(c, n - 1 - k, k + 1);
    BetaPeriod(c, 0);
    BetaZero(c);
    MulExp(c.f, n - r, r);
    LocatorRange(c, k);
    ExpRange(c.f, n - r);
    ExpRange(c.f, r);
    ExpNonzero(c.f, r);
    MulCancel(c.f, Locator(c, k), Exp(c.f, n - r), Exp(c.f, r));
  }

  lemma BetaZero(c: Params)
    ensures Beta(c, 0) == 1
  {
  }

  lemma MulCancel(f: GF, a: nat, b: nat, x: nat)
    requires Primitive(f) && IsSym(f, a) && IsSym(f, b) && IsSym(f, x) && x != 0
    requires Mul(f, a, x) == Mul(f, b, x)
    ensures a == b
  {
    hide Mul, Xor, Primitive;
    MulXor(f, x, a, b);
    XorSelf(Mul(f, a, x));
    SymXor(f, a, b);
    NoZeroDivisors(f, Xor(a, b), x);
    XorCancel(a, b);
  }

  lemma PlaceInjective(c: Params, q: nat, r: nat)
    requires Good(c) && 1 <= q < r <= NN(c.f)
    ensures Place(c, q) != Place(c, r)
  {
    PlaceLocator(c, q);
    PlaceLocator(c, r);
    hide Locator, Place, Exp;
    ExpInjective(c.f, NN(c.f) - r, NN(c.f) - q);
  }

  // Every position is the place of some root index.
  lemma PlaceOnto(c: Params, pos: nat) returns (r: nat)
    requires Good(c) && pos < NN(c.f)
    ensures 1 <= r <= NN(c.f) && Place(c, r) == pos
  {
    LocatorRange(c, pos);
    var x := Locator(c, pos);
    hide Locator, Place, Exp, Primitive;
    r := NN(c.f) - Log(c.f, x);
    PlaceLocator(c, r);
    if Place(c, r) < pos {
      LocatorInjective(c, Place(c, r), pos);
    } else if pos < Place(c, r) {
      LocatorInjective(c, pos, Place(c, r));
    }
  }

  // ----- roots and locators

  lemma {:induction false} PowInverse(f: GF, x: nat, a: nat, n: nat)
    requires Primitive(f) && Mul(f, x, a) == 1
    ensures Mul(f, Pow(f, x, n), Pow(f, a, n)) == 1
  {
    hide Mul, Primitive;
    if n == 0 {
      PrimitiveWide(f);
      NNPositive(f);
      MulOne(f, 1);
    } else {
      PowInverse(f, x, a, n - 1);
      MulExchange(f, x, Pow(f, x, n - 1), a, Pow(f, a, n - 1));
      PrimitiveWide(f);
      NNPositive(f);
      MulOne(f, 1);
    }
  }

  lemma MulExchange(f: GF, a: nat, b: nat, c: nat, d: nat)
    requires Primitive(f)
    ensures Mul(f, Mul(f, a, b), Mul(f, c, d)) == Mul(f, Mul(f, a, c), Mul(f, b, d))
  {
    hide Mul, Primitive;
    MulAssoc(f, a, b, Mul(f, c, d));
    MulSwap(f, b, c, d);
    MulAssoc(f, a, c, Mul(f, b, d));
  }

  // x^(k-i) is x^k a^i when a is the inverse of x.
  lemma PowDown(f: GF, x: nat, a: nat, k: nat, i: nat)
    requires Primitive(f) && Mul(f, x, a) == 1 && i <= k
    ensures Pow(f, x, k - i) == Mul(f, Pow(f, x, k), Pow(f, a, i))
  {
    hide Mul, Primitive, Pow;
    PowAdd(f, x, k - i, i);
    MulAssoc(f, Pow(f, x, k - i), Pow(f, x, i), Pow(f, a, i));
    PowInverse(f, x, a, i);
    PowRange(f, x, k - i);
    PrimitiveWide(f);
    MulComm(f, Pow(f, x, k - i), 1);
    MulOne(f, Pow(f, x, k - i));
  }

  // Synthetic division at x evaluates at the inverse of x, scaled by a power of x.
  lemma QuoIsEval(f: GF, p: seq<nat>, x: nat, a: nat, k: nat)
    requires Primitive(f) && Mul(f, x, a) == 1
    ensures Quo(f, p, x, k) == Mul(f, Pow(f, x, k), Dot(f, p, Powers(f, a, k + 1), k + 1))
  {
    var u, v := PowersDown(f, x, k), Powers(f, a, k + 1);
    hide Mul, Primitive, Pow;
    forall i | 0 <= i <= k ensures At(u, i) == Mul(f, Pow(f, x, k), At(v, i)) {
      PowDown(f, x, a, k, i);
    }
    DotScale(f, p, Pow(f, x, k), v, u, k + 1);
  }

  lemma RootIsLocator(f: GF, p: seq<nat>, x: nat, r: nat)
    requires Primitive(f) && |p| > 0 && IsSym(f, x) && x != 0 && Mul(f, x, Exp(f, r)) == 1
    ensures IsRoot(f, p, r) <==> Quo(f, p, x, |p| - 1) == 0
  {
    var a := Exp(f, r);
    hide Mul, Primitive, Exp, Quo;
    QuoIsEval(f, p, x, a, |p| - 1);
    PowRange(f, x, |p| - 1);
    DotRange(f, p, Powers(f, a, |p|), |p|);
    NoZeroDivisors(f, Pow(f, x, |p| - 1), Eval(f, p, a));
  }

  /** Places of a list of root indices. */
  function Places(c: Params, roots: seq<nat>): (r: seq<nat>)
    ensures |r| == |roots| && forall j :: 0 <= j < |roots| ==> r[j] == Place(c, roots[j])
  {
    seq(|roots|, j requires 0 <= j < |roots| => Place(c, roots[j]))
  }

  // The search records exactly the places of the locators at which p vanishes, each once.
  lemma PlacesOfRoots(c: Params, p: seq<nat>)
    requires Good(c) && |p| > 0
    ensures NN(c.f) > 0
    ensures var ps := Places(c, RootIndices(c.f, p, NN(c.f)));
      && Positions(c, ps)
      && VanishesAt(c.f, p, LocatorsOf(c, ps))
      && forall pos :: 0 <= pos < NN(c.f) && Quo(c.f, p, Locator(c, pos), |p| - 1) == 0 ==> pos in ps
  {
    var f, n := c.f, NN(c.f);
    NNPositive(f);
    var roots := RootIndices(f, p, n);
    var ps := Places(c, roots);
    hide Quo, Locator, Place, Exp, Primitive, RootIndices, IsRoot;
    forall j | 0 <= j < |ps| ensures ps[j] < n && Quo(f, p, Locator(c, ps[j]), |p| - 1) == 0 {
      PlaceLocator(c, roots[j]);
      LocatorRange(c, ps[j]);
      RootIsLocator(f, p, Locator(c, ps[j]), roots[j]);
    }
    forall i, j | 0 <= i < j < |ps| ensures ps[i] != ps[j] {
      PlaceInjective(c, roots[i], roots[j]);
    }
    forall pos | 0 <= pos < n && Quo(f, p, Locator(c, pos), |p| - 1) == 0 ensures pos in ps {
      var r := PlaceOnto(c, pos);
      PlaceLocator(c, r);
      LocatorRange(c, pos);
      RootIsLocator(f, p, Locator(c, pos), r);
      assert r in roots;
      var j :| 0 <= j < |roots| && roots[j] == r;
      assert ps[j] == pos;
    }
  }

  // Dropping zero coefficients at the top keeps the locators of roots.
  lemma VanishesTruncated(f: GF, p: seq<nat>, d: nat, xs: seq<nat>)
    requires Primitive(f) && IsSyms(f, p) && Locators(f, xs) && d < |p| && DegreeAtMost(p, d) && VanishesAt(f, p, xs)
    ensures VanishesAt(f, p[..d + 1], xs)
  {
    hide Mul, Xor, Primitive;
    forall j | 0 <= j < |xs| ensures Quo(f, p[..d + 1], xs[j], d) == 0 {
      QuoBeyond(f, p, xs[j], d, |p| - 1);
      DotTerms(f, p[..d + 1], PowersDown(f, xs[j], d), p, PowersDown(f, xs[j], d), d + 1);
    }
  }

  // A polynomial with constant term 1 has at most as many roots as its degree.
  lemma RootsAtMostDegree(f: GF, p: seq<nat>, d: nat, xs: seq<nat>)
    requires Primitive(f) && IsSyms(f, p) && Locators(f, xs) && Distinct(xs) && d < |p|
    requires p[0] == 1 && DegreeAtMost(p, d) && VanishesAt(f, p, xs)
    ensures |xs| <= d
  {
    if |xs| > d {
      VanishesTruncated(f, p, d, xs);
      RootCount(f, p[..d + 1], xs);
    }
  }
}
