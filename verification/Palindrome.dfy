/** When the generator polynomial reads the same in both directions. */
module Palindrome {
  import opened Bits
  import opened Field
  import opened Poly
  import opened BerlekampMassey
  import opened Code
  import opened Distance
  import opened Chien
  import opened Generator

  ghost predicate CentredBy(c: Params, t: nat) {
    2 * c.fcr + c.nroots - 1 == t * NN(c.f)
  }

  /** The roots are centred: the first and the last one are inverse to each other. */
  ghost predicate Centred(c: Params) {
    exists t: nat :: CentredBy(c, t)
  }

  lemma SumTimes(a: nat, b: nat, p: nat, t: nat, n: nat)
    requires a + b == t * n
    ensures a * p + b * p == (t * p) * n
  {
    assert a * p + b * p == (a + b) * p;
    assert (t * n) * p == (t * p) * n;
  }

  // Roots at mirrored places are inverse to each other.
  lemma MirroredRoots(c: Params, i: nat)
    requires Good(c) && Centred(c) && i < c.nroots
    ensures Mul(c.f, Root(c, c.nroots - 1 - i), Root(c, i)) == 1
  {
    hide Exp, Mul, Primitive, NN, Good, InverseRoot;
    var t: nat :| CentredBy(c, t);
    var a, b := c.fcr + (c.nroots - 1 - i), c.fcr + i;
    SumTimes(a, b, c.prim, t, NN(c.f));
    GoodPrimitive(c);
    var k := t * c.prim;
    MulExp(c.f, a * c.prim, b * c.prim);
    ExpCycle(c.f, 0, k);
    ExpZero(c.f);
  }

  lemma RootInjective(c: Params, i: nat, j: nat)
    requires Good(c) && i < j < NN(c.f)
    ensures Root(c, i) != Root(c, j)
  {
    hide *;
    var f := c.f;
    GoodPrimitive(c);
    PowIprim(c, c.fcr + i);
    PowIprim(c, c.fcr + j);
    RootIsBeta(c, i);
    RootIsBeta(c, j);
    ExpInjective(f, i, j);
    MulExp(f, i, c.fcr);
    MulExp(f, j, c.fcr);
    PrimitiveRange(f, i);
    PrimitiveRange(f, j);
    PrimitiveRange(f, c.fcr);
    if Root(c, i) == Root(c, j) {
      MulCancel(f, Exp(f, i), Exp(f, j), Exp(f, c.fcr));
    }
  }

  lemma RootIsBeta(c: Params, i: nat)
    ensures Root(c, i) == Beta(c, c.fcr + i)
  {
  }

  lemma PrimitiveRange(f: GF, i: nat)
    requires Primitive(f)
    ensures IsSym(f, Exp(f, i)) && Exp(f, i) != 0
  {
    PrimitiveWide(f);
    hide Exp, Primitive;
    ExpRange(f, i);
    ExpNonzero(f, i);
  }

  lemma {:induction false} DotReverse(f: GF, u: seq<nat>, v: seq<nat>, ru: seq<nat>, rv: seq<nat>, n: nat)
    requires |u| == |v| == |ru| == |rv| == n
    requires forall i :: 0 <= i < n ==> ru[i] == u[n - 1 - i] && rv[i] == v[n - 1 - i]
    ensures Dot(f, ru, rv, n) == Dot(f, u, v, n)
  {
    hide Xor, Mul;
    if n > 0 {
      var m := n - 1;
      DotReverse(f, u[..m], v[..m], ru[1..], rv[1..], m);
      DotFirst(f, ru, rv, ru[1..], rv[1..], m);
      DotTerms(f, u[..m], v[..m], u, v, m);
      XorComm(Mul(f, u[m], v[m]), Dot(f, u, v, m));
    }
  }

  lemma EvalReversed(f: GF, g: seq<nat>, h: seq<nat>, x: nat)
    requires |g| == |h| > 0 && forall i :: 0 <= i < |g| ==> h[i] == g[|g| - 1 - i]
    ensures Quo(f, h, x, |h| - 1) == Eval(f, g, x)
  {
    hide Pow, Dot;
    DotReverse(f, g, Powers(f, x, |g|), h, PowersDown(f, x, |h| - 1), |g|);
  }

  /** The coefficients in the opposite order. */
  function Mirrored(g: seq<nat>): (h: seq<nat>)
    ensures |h| == |g| && forall i :: 0 <= i < |g| ==> h[i] == g[|g| - 1 - i]
  {
    seq(|g|, i requires 0 <= i < |g| => g[|g| - 1 - i])
  }

  // The mirrored generator vanishes at every root as well.
  lemma MirroredVanishes(c: Params, i: nat)
    requires Good(c) && Centred(c) && i < c.nroots
    ensures Quo(c.f, Mirrored(GeneratorPoly(c, c.nroots)), Root(c, i), c.nroots) == 0
  {
    hide *;
    GoodPrimitive(c);
    var f, g, n := c.f, GeneratorPoly(c, c.nroots), c.nroots;
    var x, x' := Root(c, i), Root(c, n - 1 - i);
    MirroredRoots(c, i);
    GeneratorRoots(c, n);
    BetaRange(c, c.fcr + (n - 1 - i));
    RootRange(c, n - 1 - i);
    EvalReversed(f, g, Mirrored(g), x);
    EvalAtInverse(f, g, x', x, n);
  }

  lemma RootRange(c: Params, i: nat)
    requires Primitive(c.f)
    ensures IsSym(c.f, Root(c, i)) && Root(c, i) != 0
  {
    hide Beta, Primitive;
    BetaRange(c, c.fcr + i);
  }

  lemma EvalAtInverse(f: GF, g: seq<nat>, x': nat, x: nat, n: nat)
    requires Primitive(f) && |g| == n + 1 && IsSym(f, x') && x' != 0 && Mul(f, x', x) == 1 && Quo(f, g, x', n) == 0
    ensures Eval(f, g, x) == 0
  {
    hide Mul, Primitive, Quo, Pow;
    QuoIsEval(f, g, x', x, n);
    PowRange(f, x', n);
    DotRange(f, g, Powers(f, x, n + 1), n + 1);
    NoZeroDivisors(f, Pow(f, x', n), Eval(f, g, x));
  }

  lemma SquareOne(f: GF, a: nat)
    requires Primitive(f) && IsSym(f, a) && Mul(f, a, a) == 1
    ensures a == 1
  {
    hide *;
    PrimitiveWide(f);
    var b := Xor(a, 1);
    OneIsSym(f);
    SymXor(f, a, 1);
    MulXor(f, b, a, 1);
    MulXor(f, a, a, 1);
    MulOne(f, b);
    MulOne(f, a);
    MulComm(f, b, 1);
    MulComm(f, a, 1);
    MulComm(f, b, a);
    XorCancel(a, 1);
    XorComm(1, a);
    XorSelf(b);
    NoZeroDivisors(f, b, b);
  }

  lemma OneIsSym(f: GF)
    requires Primitive(f)
    ensures IsSym(f, 1)
  {
    PrimitiveWide(f);
  }

  // The difference of the mirrored generator and a multiple of the generator has no leading term and
  // one root too many.
  lemma MirroredIsMultiple(c: Params, k: nat)
    requires Good(c) && Centred(c) && k <= c.nroots
    ensures var g := GeneratorPoly(c, c.nroots); Mirrored(g)[k] == Mul(c.f, g[c.nroots], g[k])
  {
    hide *;
    var f, n := c.f, c.nroots;
    var g, h := GeneratorPoly(c, n), Mirrored(GeneratorPoly(c, n));
    GoodParts(c);
    GeneratorRoots(c, n);
    SymsAt(f, g);
    SymsOf(f, h);
    var t := AddMul(f, h, g[n], g);
    AddMulSyms(f, h, g[n], g);
    SymsAt(f, t);
    LeadingCancels(f, g[n]);
    assert t[0] == 0;
    var p := t[1..];
    SymsOf(f, p);
    forall i | 0 <= i < n ensures Quo(f, p, Roots(c, n)[i], n - 1) == 0 {
      MirroredVanishes(c, i);
      QuoAddMul(f, h, g[n], g, Root(c, i), n);
      MulZero(f, g[n]);
      XorZero(0);
      QuoPadded(f, 1, p, t, Root(c, i), n);
    }
    RootsDistinct(c, n);
    RootCount(f, p, Roots(c, n));
    assert k > 0 ==> t[k] == p[k - 1];
    XorCancel(h[k], Mul(f, g[n], g[k]));
  }

  lemma LeadingCancels(f: GF, a: nat)
    requires Primitive(f) && IsSym(f, a)
    ensures Xor(a, Mul(f, a, 1)) == 0
  {
    hide *;
    PrimitiveWide(f);
    MulComm(f, a, 1);
    MulOne(f, a);
    XorSelf(a);
  }

  lemma SymsAt(f: GF, u: seq<nat>)
    requires IsSyms(f, u)
    ensures forall i :: 0 <= i < |u| ==> IsSym(f, u[i])
  {
  }

  lemma SymsOf(f: GF, u: seq<nat>)
    requires forall i :: 0 <= i < |u| ==> IsSym(f, u[i])
    ensures IsSyms(f, u)
  {
  }

  lemma AddMulSyms(f: GF, p: seq<nat>, a: nat, q: seq<nat>)
    requires |p| == |q| && IsSyms(f, p)
    ensures IsSyms(f, AddMul(f, p, a, q))
  {
    hide Mul, Xor;
    forall i | 0 <= i < |p| ensures IsSym(f, AddMul(f, p, a, q)[i]) {
      SymXor(f, p[i], Mul(f, a, q[i]));
    }
  }

  lemma RootsDistinct(c: Params, n: nat)
    requires Good(c) && n <= NN(c.f)
    ensures IsSyms(c.f, Roots(c, n)) && Distinct(Roots(c, n))
  {
    GoodPrimitive(c);
    RootsAreLocators(c, n);
    hide Root, NN, Primitive;
    forall i, j | 0 <= i < j < n ensures Roots(c, n)[i] != Roots(c, n)[j] {
      RootInjective(c, i, j);
    }
  }

  /** With centred roots the generator is palindromic, and its constant term is one. */
  lemma Palindromic(c: Params, k: nat)
    requires Good(c) && Centred(c) && k <= c.nroots
    ensures var g := GeneratorPoly(c, c.nroots); g[k] == g[c.nroots - k] && g[c.nroots] == 1
  {
    hide *;
    var f, n := c.f, c.nroots;
    var g := GeneratorPoly(c, n);
    GoodPrimitive(c);
    GeneratorRoots(c, n);
    SymsAt(f, g);
    MirroredIsMultiple(c, n);
    SquareOne(f, g[n]);
    MirroredIsMultiple(c, k);
    PrimitiveWide(f);
    MulOne(f, g[k]);
  }

  /** The CCSDS code, with first root 112 and 32 roots over 255 symbols, is centred. */
  lemma CcsdsIsCentred(c: Params)
    requires c.fcr == 112 && c.nroots == 32 && NN(c.f) == 255
    ensures Centred(c)
  {
    assert CentredBy(c, 1);
  }
}
