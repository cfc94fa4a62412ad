/** The decoder in place, on index-form arrays, phase by phase. */
module Decoder {
  import opened Bits
  import opened Field
  import opened Poly
  import opened BerlekampMassey
  import opened Forney
  import opened Code
  import opened Distance
  import opened Chien
  import opened Values
  import opened Decoding
  import opened Restoration
  import opened Codec

  /** idx holds the logarithms of the symbols xs. */
  ghost predicate Indices(f: GF, idx: seq<nat>, xs: seq<nat>) {
    |idx| == |xs| && forall i :: 0 <= i < |xs| ==> IsIndex(f, idx[i], xs[i])
  }

  /** Add the product of two symbols given by their indices, unless one of them is log(0). */
  method AddProduct(rs: RS, acc: nat, i: nat, ghost x: nat, j: nat, ghost y: nat) returns (r: nat)
    requires rs.Valid() && IsIndex(rs.F(), i, x) && IsIndex(rs.F(), j, y)
    ensures r == Xor(acc, Mul(rs.F(), x, y))
    ensures IsSym(rs.F(), acc) ==> IsSym(rs.F(), r)
  {
    hide Exp, Primitive, Mul, Xor, Good;
    GoodParts(rs.P());
    IndexZero(rs.F(), i, x);
    IndexZero(rs.F(), j, y);
    if i != rs.nn && j != rs.nn {
      var t := Lookup(rs.F(), rs.mm, rs.nn, rs.alphaTo, i, j);
      r := Xor(acc, t);
    } else {
      MulZero(rs.F(), x);
      MulZero(rs.F(), y);
      XorZero(acc);
      r := acc;
    }
    if IsSym(rs.F(), acc) {
      SymXor(rs.F(), acc, Mul(rs.F(), x, y));
    }
  }

  /** Add x alpha^e, where x is given by its index, unless x is zero. */
  method AddPower(rs: RS, acc: nat, i: nat, ghost x: nat, e: nat) returns (r: nat)
    requires rs.Valid() && IsIndex(rs.F(), i, x)
    ensures r == Xor(acc, Mul(rs.F(), x, Exp(rs.F(), e)))
    ensures IsSym(rs.F(), acc) ==> IsSym(rs.F(), r)
  {
    hide Exp, Primitive, Mul, Xor, Good;
    GoodParts(rs.P());
    IndexZero(rs.F(), i, x);
    if i != rs.nn {
      var t := Lookup(rs.F(), rs.mm, rs.nn, rs.alphaTo, i, e);
      r := Xor(acc, t);
    } else {
      MulZero(rs.F(), Exp(rs.F(), e));
      XorZero(acc);
      r := acc;
    }
    if IsSym(rs.F(), acc) {
      SymXor(rs.F(), acc, Mul(rs.F(), x, Exp(rs.F(), e)));
    }
  }

  // Sums that run from the highest term down: moving one term to the accumulator.
  lemma MoveTerm(acc: nat, term: nat, rest: nat, total: nat)
    requires Xor(acc, Xor(rest, term)) == total
    ensures Xor(Xor(acc, term), rest) == total
  {
    hide Xor;
    XorAssoc(acc, term, rest);
    XorComm(rest, term);
  }

  lemma NothingLeft(acc: nat)
    ensures Xor(acc, 0) == acc && Xor(0, acc) == acc
  {
    XorZero(acc);
    XorComm(0, acc);
  }

  // ----- syndromes

  /** One Horner step of one syndrome. */
  method HornerStep(rs: RS, s: nat, d: nat, ghost k: nat, exponent: nat) returns (r: nat)
    requires rs.Valid() && IsSym(rs.F(), s) && IsSym(rs.F(), d) && exponent == (rs.fcr + k) * rs.prim
    ensures r == Xor(d, Mul(rs.F(), Root(rs.P(), k), s)) && IsSym(rs.F(), r)
  {
    hide Exp, Primitive, Mul, Xor, Good;
    GoodParts(rs.P());
    ghost var f, x := rs.F(), Root(rs.P(), k);
    MulComm(f, x, s);
    if s == 0 {
      MulZero(f, x);
      XorZero(d);
      r := d;
    } else {
      IndexZero(f, rs.indexOf[s], s);
      var t := Lookup(f, rs.mm, rs.nn, rs.alphaTo, rs.indexOf[s], exponent);
      SymXor(f, d, t);
      r := Xor(d, t);
    }
  }

  method FormSyndromes(rs: RS, data: array<nat>) returns (s: array<nat>)
    requires rs.Valid() && IsBlock(rs.P(), data[..])
    ensures fresh(s) && s[..] == Syndromes(rs.P(), data[..])
  {
    hide Exp, Primitive, Mul, Xor, Quo, Root, Good;
    GoodParts(rs.P());
    ghost var f, c, block := rs.F(), rs.P(), data[..];
    s := new nat[rs.nroots];
    var i := 0;
    while i < rs.nroots
      invariant 0 <= i <= rs.nroots
      invariant forall k :: 0 <= k < i ==> s[k] == Quo(f, block, Root(c, k), 0)
    {
      QuoZero(f, block, Root(c, i));
      s[i] := data[0];
      i := i + 1;
    }
    var j := 1;
    while j < rs.nn - rs.pad
      invariant 1 <= j <= |block|
      invariant forall k :: 0 <= k < rs.nroots ==> s[k] == Quo(f, block, Root(c, k), j - 1)
    {
      i := 0;
      while i < rs.nroots
        invariant 0 <= i <= rs.nroots
        invariant forall k :: 0 <= k < rs.nroots ==> s[k] == Quo(f, block, Root(c, k), if k < i then j else j - 1)
      {
        QuoRange(f, block, Root(c, i), j - 1);
        QuoStep(f, block, Root(c, i), j);
        s[i] := HornerStep(rs, s[i], data[j], i, (rs.fcr + i) * rs.prim);
        i := i + 1;
      }
      j := j + 1;
    }
  }

  /** Convert to index form; tell whether any syndrome is nonzero. */
  method ConvertSyndromes(rs: RS, s: array<nat>) returns (synError: bool)
    requires rs.Valid() && s !in rs.Tables() && IsSyms(rs.F(), s[..])
    modifies s
    ensures Indices(rs.F(), s[..], old(s[..]))
    ensures synError <==> !AllZero(old(s[..]))
  {
    hide Good, IsIndex;
    ghost var was := s[..];
    synError := false;
    var i := 0;
    while i < s.Length
      invariant 0 <= i <= s.Length
      invariant forall k :: 0 <= k < i ==> IsIndex(rs.F(), s[k], was[k])
      invariant forall k :: i <= k < s.Length ==> s[k] == was[k]
      invariant synError <==> exists k :: 0 <= k < i && was[k] != 0
    {
      synError := synError || s[i] != 0;
      s[i] := rs.indexOf[s[i]];
      i := i + 1;
    }
  }

  // ----- the erasure locator

  lemma EraseLocatorStep(c: Params, eras: seq<nat>, i: nat)
    requires i < |eras|
    ensures var p := ErasureLocator(c.f, LocatorsOf(c, eras[..i]), c.nroots);
      ErasureLocator(c.f, LocatorsOf(c, eras[..i + 1]), c.nroots) == AddMul(c.f, p, Locator(c, eras[i]), Shifted(p))
  {
    assert LocatorsOf(c, eras[..i + 1])[..i] == LocatorsOf(c, eras[..i]);
  }

  lemma EraseLocatorFacts(c: Params, eras: seq<nat>, i: nat)
    requires Good(c) && i <= |eras| <= c.nroots
    ensures var p := ErasureLocator(c.f, LocatorsOf(c, eras[..i]), c.nroots);
      IsSyms(c.f, p) && p[0] == 1 && DegreeAtMost(p, i)
  {
    PositionsLocators(c, eras[..i]);
    GoodPrimitive(c);
    hide Good, Locator, Primitive;
    ErasureLocatorRoots(c.f, LocatorsOf(c, eras[..i]), c.nroots);
  }

  // Past the degree the product with a linear factor stays zero; the constant stays one.
  lemma LinearEnds(f: GF, p: seq<nat>, x: nat, i: nat)
    requires |p| > i + 1 && DegreeAtMost(p, i) && p[0] == 1
    ensures var t := AddMul(f, p, x, Shifted(p));
      t[0] == 1 && forall k :: i + 1 < k < |p| ==> t[k] == p[k] == 0
  {
    hide Mul, Xor;
    MulZero(f, x);
    XorZero(0);
    XorZero(1);
  }

  lemma TableIndex(rs: RS, x: nat)
    requires rs.Valid() && IsSym(rs.F(), x)
    ensures x < rs.indexOf.Length && IsIndex(rs.F(), rs.indexOf[x], x)
  {
  }

  /** Multiply lambda in place by one more factor (1 + X z), highest coefficient first. */
  method MultiplyErasure(rs: RS, lambda: array<nat>, i: nat, u: nat, ghost x: nat)
    requires rs.Valid() && lambda !in rs.Tables() && lambda.Length == rs.nroots + 1 && i < rs.nroots
    requires IsSyms(rs.F(), lambda[..]) && DegreeAtMost(lambda[..], i) && lambda[0] == 1
    requires IsIndex(rs.F(), u, x)
    modifies lambda
    ensures lambda[..] == AddMul(rs.F(), old(lambda[..]), x, Shifted(old(lambda[..])))
  {
    hide Mul, Xor, IsIndex, DegreeAtMost, IsSym, NN, TablesFor, Good, AddMul, Shifted;
    ghost var f, p := rs.F(), lambda[..];
    ghost var zp := Shifted(p);
    ghost var q := AddMul(f, p, x, zp);
    LinearEnds(f, p, x, i);
    var j := i + 1;
    while j > 0
      invariant 0 <= j <= i + 1
      invariant forall k :: 0 <= k <= j ==> lambda[k] == p[k]
      invariant forall k :: j < k < lambda.Length ==> lambda[k] == q[k]
    {
      TableIndex(rs, p[j - 1]);
      lambda[j] := AddProduct(rs, lambda[j], u, x, rs.indexOf[lambda[j - 1]], p[j - 1]);
      j := j - 1;
    }
  }

  lemma SymBound(f: GF, x: nat)
    requires IsSym(f, x)
    ensures x <= NN(f)
  {
  }

  /** Index of the locator of an erased position. */
  method ErasureIndex(rs: RS, pos: nat) returns (u: nat)
    requires rs.Valid() && pos < rs.nn
    ensures IsIndex(rs.F(), u, Locator(rs.P(), pos)) && u < rs.nn
  {
    hide Exp, Primitive;
    GoodParts(rs.P());
    LocatorIndex(rs.P(), pos);
    u := Modnn(rs.mm, rs.nn, rs.prim * (rs.nn - 1 - pos));
  }

  lemma LocatorIndex(c: Params, pos: nat)
    requires Good(c) && pos < NN(c.f)
    ensures c.prim * (NN(c.f) - 1 - pos) >= 0
    ensures IsIndex(c.f, Mod(c.prim * (NN(c.f) - 1 - pos), NN(c.f)), Locator(c, pos))
  {
    hide Exp, Primitive;
    var k := NN(c.f) - 1 - pos;
    assert c.prim * k == k * c.prim;
    ExpMod(c.f, k * c.prim);
  }

  /** The constant polynomial 1. */
  method UnitPolynomial(ghost f: GF, n: nat) returns (lambda: array<nat>)
    ensures fresh(lambda) && lambda[..] == ErasureLocator(f, [], n)
  {
    lambda := new nat[n + 1];
    var i := 1;
    while i < n + 1
      invariant 1 <= i <= n + 1
      invariant forall k :: 1 <= k < i ==> lambda[k] == 0
    {
      lambda[i] := 0;
      i := i + 1;
    }
    lambda[0] := 1;
  }

  method FormErasureLocator(rs: RS, eras: array?<nat>, noEras: nat) returns (lambda: array<nat>)
    requires rs.Valid() && noEras <= rs.nroots
    requires noEras > 0 ==> eras != null && noEras <= eras.Length && forall j :: 0 <= j < noEras ==> eras[j] < rs.nn
    ensures fresh(lambda)
    ensures lambda[..]
      == ErasureLocator(rs.F(), LocatorsOf(rs.P(), if noEras == 0 then [] else eras[..noEras]), rs.nroots)
  {
    hide Mul, Xor, Good, IsIndex, Locator, Primitive, Exp, NN, TablesFor;
    ghost var f, c, n := rs.F(), rs.P(), rs.nroots;
    lambda := UnitPolynomial(rs.F(), rs.nroots);
    if noEras > 0 {
      ghost var es := eras[..noEras];
      assert LocatorsOf(c, es[..0]) == [];
      EraseLocatorStep(c, es, 0);
      ghost var p, x := lambda[..], Locator(c, es[0]);
      var u := ErasureIndex(rs, eras[0]);
      FirstErasure(rs, p, u, x);
      lambda[1] := rs.alphaTo[u];
      assert lambda[..] == AddMul(f, p, x, Shifted(p));
      var i := 1;
      while i < noEras
        invariant 1 <= i <= noEras
        invariant lambda[..] == ErasureLocator(f, LocatorsOf(c, es[..i]), n)
      {
        EraseLocatorFacts(c, es, i);
        EraseLocatorStep(c, es, i);
        u := ErasureIndex(rs, eras[i]);
        MultiplyErasure(rs, lambda, i, u, Locator(c, es[i]));
        i := i + 1;
      }
      assert es[..i] == es;
    }
  }

  // The product with the first factor is written down directly.
  lemma FirstErasure(rs: RS, p: seq<nat>, u: nat, x: nat)
    requires rs.Valid() && IsIndex(rs.F(), u, x) && u < rs.nn && |p| >= 2 && p[0] == 1
    requires forall k :: 1 <= k < |p| ==> p[k] == 0
    ensures u < rs.alphaTo.Length && rs.alphaTo[u] == x
    ensures AddMul(rs.F(), p, x, Shifted(p)) == p[1 := rs.alphaTo[u]]
  {
    GoodParts(rs.P());
    IndexZero(rs.F(), u, x);
    hide Mul, Xor, Good, Primitive, Exp;
    MulZero(rs.F(), x);
    XorZero(0);
    XorZero(1);
    PrimitiveNN(rs.F());
    MulComm(rs.F(), x, 1);
    MulOne(rs.F(), x);
    XorComm(0, x);
    XorZero(x);
    var t := AddMul(rs.F(), p, x, Shifted(p));
    forall k | 0 <= k < |p| ensures t[k] == p[1 := rs.alphaTo[u]][k] {
    }
  }

  // ----- Berlekamp-Massey

  /** Discrepancy at step r, in polynomial form. */
  method Discrepancy(rs: RS, lambda: array<nat>, s: array<nat>, ghost syn: seq<nat>, r: nat) returns (d: nat)
    requires rs.Valid() && lambda.Length == rs.nroots + 1 && s.Length == rs.nroots && 1 <= r <= rs.nroots
    requires IsSyms(rs.F(), lambda[..]) && Indices(rs.F(), s[..], syn)
    ensures d == Conv(rs.F(), lambda[..], syn, r - 1) && IsSym(rs.F(), d)
  {
    hide Mul, Xor, Good, IsIndex;
    ghost var p, v := lambda[..], Reverse(syn, r - 1);
    d := 0;
    SymZero(rs.F());
    var i := 0;
    while i < r
      invariant 0 <= i <= r
      invariant d == Dot(rs.F(), p, v, i) && IsSym(rs.F(), d)
    {
      SymBound(rs.F(), p[i]);
      d := AddProduct(rs, d, rs.indexOf[lambda[i]], p[i], s[r - i - 1], syn[r - i - 1]);
      i := i + 1;
    }
  }

  /** B(x) becomes x B(x), in index form. */
  method ShiftUp(rs: RS, b: array<nat>, ghost bp: seq<nat>)
    requires rs.Valid() && b !in rs.Tables() && b.Length == |bp| == rs.nroots + 1 && Indices(rs.F(), b[..], bp)
    modifies b
    ensures Indices(rs.F(), b[..], Shifted(bp))
  {
    ZeroIndex(rs.F());
    hide Good, IsIndex;
    ghost var was := b[..];
    forall k | 1 <= k < b.Length {
      b[k] := b[k - 1];
    }
    b[0] := rs.nn;
    ghost var q := Shifted(bp);
    forall k | 0 <= k < |q| ensures IsIndex(rs.F(), b[..][k], q[k]) {
      if k > 0 {
        assert b[k] == was[k - 1];
      }
    }
  }

  lemma ZeroIndex(f: GF)
    ensures IsIndex(f, NN(f), 0)
  {
  }

  /** T(x) = lambda(x) - discr x B(x), in polynomial form. */
  method UpdateT(rs: RS, t: array<nat>, lambda: array<nat>, b: array<nat>, ghost bp: seq<nat>, discr: nat, ghost d: nat)
    requires rs.Valid() && t !in rs.Tables() && t != lambda && t != b
    requires t.Length == lambda.Length == b.Length == |bp| == rs.nroots + 1
    requires Indices(rs.F(), b[..], bp) && IsIndex(rs.F(), discr, d)
    modifies t
    ensures t[..] == AddMul(rs.F(), lambda[..], d, Shifted(bp))
  {
    hide Mul, Xor, Good, IsIndex;
    ghost var p := lambda[..];
    ghost var q := AddMul(rs.F(), p, d, Shifted(bp));
    MulZero(rs.F(), d);
    XorZero(p[0]);
    t[0] := lambda[0];
    var i := 0;
    while i < rs.nroots
      invariant 0 <= i <= rs.nroots
      invariant forall k :: 0 <= k <= i ==> t[k] == q[k]
    {
      t[i + 1] := AddProduct(rs, lambda[i + 1], discr, d, b[i], bp[i]);
      i := i + 1;
    }
  }

  // Subtracting the discrepancy's index divides by the discrepancy.
  lemma DivideIndex(f: GF, i: nat, x: nat, discr: nat, d: nat)
    requires Primitive(f) && IsIndex(f, i, x) && i < NN(f) && IsIndex(f, discr, d) && discr < NN(f) && IsSym(f, d)
    requires d != 0
    ensures IsIndex(f, Mod(i + (NN(f) - discr), NN(f)), Mul(f, Inv(f, d), x))
  {
    LogExp(f, discr);
    hide Exp, Mul, Primitive;
    TableProduct(f, i, NN(f) - discr);
    MulComm(f, Exp(f, i), Exp(f, NN(f) - discr));
  }

  /** B(x) = lambda(x) / discr, in index form. */
  method SaveLocator(rs: RS, b: array<nat>, lambda: array<nat>, discr: nat, ghost d: nat)
    requires rs.Valid() && b !in rs.Tables() && b != lambda && b.Length == lambda.Length == rs.nroots + 1
    requires IsSyms(rs.F(), lambda[..]) && IsIndex(rs.F(), discr, d) && discr < rs.nn && IsSym(rs.F(), d) && d != 0
    requires Primitive(rs.F())
    modifies b
    ensures Indices(rs.F(), b[..], Scaled(rs.F(), Inv(rs.F(), d), lambda[..]))
  {
    hide Exp, Mul, Primitive, Good, Inv;
    GoodParts(rs.P());
    ghost var f, p := rs.F(), lambda[..];
    ghost var q := Scaled(f, Inv(f, d), p);
    ZeroIndex(f);
    MulZero(f, Inv(f, d));
    var i := 0;
    while i <= rs.nroots
      invariant 0 <= i <= rs.nroots + 1
      invariant forall k :: 0 <= k < i ==> IsIndex(f, b[k], q[k])
    {
      if lambda[i] == 0 {
        b[i] := rs.nn;
      } else {
        IndexZero(f, rs.indexOf[lambda[i]], p[i]);
        DivideIndex(f, rs.indexOf[lambda[i]], p[i], discr, d);
        assert rs.indexOf[lambda[i]] - discr + rs.nn == rs.indexOf[lambda[i]] + (rs.nn - discr);
        b[i] := Modnn(rs.mm, rs.nn, rs.indexOf[lambda[i]] - discr + rs.nn);
      }
      i := i + 1;
    }
  }

  /** The arrays hold the state st: lambda in polynomial form, b in index form. */
  ghost predicate InArrays(f: GF, lambda: seq<nat>, b: seq<nat>, el: nat, st: State) {
    lambda == st.lambda && Indices(f, b, st.b) && el == st.el
  }

  /** One step of the iteration, for step number r. */
  method BMStep(rs: RS, lambda: array<nat>, b: array<nat>, t: array<nat>, s: array<nat>, ghost syn: seq<nat>,
                noEras: nat, r: nat, el: nat, ghost st: State) returns (el': nat)
    requires rs.Valid() && Primitive(rs.F()) && {lambda, b, t, s} !! rs.Tables()
    requires lambda != b && lambda != t && lambda != s && b != t && b != s && t != s
    requires lambda.Length == b.Length == t.Length == rs.nroots + 1 && s.Length == rs.nroots
    requires 1 <= r <= rs.nroots && el <= r - 1 + noEras
    requires InArrays(rs.F(), lambda[..], b[..], el, st) && |st.b| == |st.lambda|
    requires IsSyms(rs.F(), st.lambda) && Indices(rs.F(), s[..], syn)
    modifies lambda, b, t
    ensures InArrays(rs.F(), lambda[..], b[..], el', Step(rs.F(), syn, noEras, st, r - 1))
  {
    hide Exp, Mul, Xor, Good, IsIndex, Conv, TablesFor, IsSym, NN, Inv, Indices;
    ghost var f, bp := rs.F(), st.b;
    el' := el;
    var dp := Discrepancy(rs, lambda, s, syn, r);
    TableIndex(rs, dp);
    var discr := rs.indexOf[dp];
    IndexZero(f, discr, dp);
    if discr == rs.nn {
      ShiftUp(rs, b, bp);
    } else {
      ghost var p := lambda[..];
      UpdateT(rs, t, lambda, b, bp, discr, dp);
      ghost var q := t[..];
      assert lambda[..] == p && q == AddMul(f, p, dp, Shifted(bp));
      if 2 * el <= r + noEras - 1 {
        el' := r + noEras - el;
        SaveLocator(rs, b, lambda, discr, dp);
      } else {
        ShiftUp(rs, b, bp);
      }
      assert t[..] == q;
      ghost var saved := b[..];
      forall k | 0 <= k < lambda.Length {
        lambda[k] := t[k];
      }
      assert lambda[..] == q && b[..] == saved;
    }
  }

  method FindLocator(rs: RS, lambda: array<nat>, s: array<nat>, ghost syn: seq<nat>, noEras: nat, ghost es: seq<nat>)
    returns (ghost el': nat)
    requires rs.Valid() && Primitive(rs.F()) && {lambda, s} !! rs.Tables() && lambda != s
    requires lambda.Length == rs.nroots + 1 && s.Length == |syn| == rs.nroots && Indices(rs.F(), s[..], syn)
    requires |es| == noEras <= rs.nroots && Locators(rs.F(), es)
    requires lambda[..] == ErasureLocator(rs.F(), es, rs.nroots)
    modifies lambda
    ensures var st := Run(rs.F(), syn, noEras, ErasureLocator(rs.F(), es, rs.nroots), rs.nroots);
      lambda[..] == st.lambda && el' == st.el
  {
    hide Exp, Mul, Xor, Good, IsIndex, Conv, TablesFor, IsSym, NN, Primitive, ErasureLocator, Locators, Step;
    ghost var f, locator := rs.F(), lambda[..];
    RunKeeps(f, syn, es, noEras);
    var b, t := new nat[rs.nroots + 1], new nat[rs.nroots + 1];
    var i := 0;
    while i <= rs.nroots
      invariant 0 <= i <= rs.nroots + 1
      invariant lambda[..] == locator
      invariant forall k :: 0 <= k < i ==> IsIndex(f, b[k], locator[k])
    {
      TableIndex(rs, locator[i]);
      b[i] := rs.indexOf[lambda[i]];
      i := i + 1;
    }
    var el := noEras;
    var r := noEras + 1;
    while r <= rs.nroots
      invariant noEras + 1 <= r <= rs.nroots + 1
      invariant InArrays(f, lambda[..], b[..], el, Run(f, syn, noEras, locator, r - 1))
    {
      RunKeeps(f, syn, es, r - 1);
      el := BMStep(rs, lambda, b, t, s, syn, noEras, r, el, Run(f, syn, noEras, locator, r - 1));
      r := r + 1;
    }
    el' := el;
  }

  // ----- degree

  lemma DegreeUnique(p: seq<nat>, d: nat)
    requires d < |p| && DegreeAtMost(p, d) && (d > 0 ==> p[d] != 0)
    ensures Degree(p) == d
  {
  }

  method ConvertLambda(rs: RS, lambda: array<nat>) returns (deg: nat)
    requires rs.Valid() && Primitive(rs.F()) && lambda !in rs.Tables() && lambda.Length == rs.nroots + 1
    requires IsSyms(rs.F(), lambda[..])
    modifies lambda
    ensures Indices(rs.F(), lambda[..], old(lambda[..])) && deg == Degree(old(lambda[..]))
  {
    hide Good, IsIndex, Primitive, Degree, IsSym, NN, TablesFor;
    ghost var p := lambda[..];
    deg := 0;
    var i := 0;
    while i < rs.nroots + 1
      invariant 0 <= i <= rs.nroots + 1
      invariant forall k :: 0 <= k < i ==> IsIndex(rs.F(), lambda[k], p[k])
      invariant forall k :: i <= k < lambda.Length ==> lambda[k] == p[k]
      invariant deg <= rs.nroots && (deg > 0 ==> p[deg] != 0)
      invariant forall k :: deg < k < i ==> p[k] == 0
    {
      TableIndex(rs, p[i]);
      lambda[i] := rs.indexOf[lambda[i]];
      IndexZero(rs.F(), lambda[i], p[i]);
      if lambda[i] != rs.nn {
        deg := i;
      }
      i := i + 1;
    }
    DegreeUnique(p, deg);
  }

  // ----- Chien search

  /** Register j holds the index of coefficient j times alpha^(i j). */
  ghost predicate Registers(f: GF, reg: seq<nat>, p: seq<nat>, i: nat, deg: nat) {
    |reg| == |p| && deg < |p| && forall j :: 1 <= j <= deg ==> IsIndex(f, reg[j], Mul(f, p[j], Exp(f, i * j)))
  }

  lemma RegisterNext(f: GF, a: nat, p: nat, i: nat, j: nat)
    requires Primitive(f) && i >= 1 && i * j >= 0 && (i - 1) * j >= 0 && IsIndex(f, a, Mul(f, p, Exp(f, (i - 1) * j)))
    requires IsSym(f, p)
    ensures NN(f) >= 1
    ensures IsIndex(f, if a < NN(f) then Mod(a + j, NN(f)) else a, Mul(f, p, Exp(f, i * j)))
    ensures Mul(f, p, Exp(f, i * j)) == Mul(f, p, Pow(f, Exp(f, i), j))
  {
    IndexZero(f, a, Mul(f, p, Exp(f, (i - 1) * j)));
    ExpNonzero(f, (i - 1) * j);
    ExpRange(f, (i - 1) * j);
    NoZeroDivisors(f, p, Exp(f, (i - 1) * j));
    hide Exp, Mul, Primitive;
    PrimitiveNN(f);
    PowExp(f, i, j);
    if a < NN(f) {
      TableProduct(f, a, j);
      MulAssoc(f, p, Exp(f, (i - 1) * j), Exp(f, j));
      MulExp(f, (i - 1) * j, j);
      assert (i - 1) * j + j == i * j;
    } else {
      MulZero(f, Exp(f, i * j));
    }
  }

  lemma ProductNat(i: nat, j: nat)
    ensures i * j >= 0
  {
  }

  // The constant term of the sum at alpha^i.
  lemma FirstTerm(f: GF, p: seq<nat>, v: seq<nat>)
    requires Primitive(f) && |p| > 0 && |v| > 0 && p[0] == 1 && v[0] == 1
    ensures Dot(f, p, v, 1) == 1
  {
    DotLast(f, p, v, 1);
    DotStart(f, p, v);
    PrimitiveNN(f);
    hide Dot, Xor, Mul, Primitive;
    MulOne(f, 1);
    NothingLeft(1);
  }

  /** Advance one register and add it to q. */
  method ChienTerm(rs: RS, reg: array<nat>, ghost i: nat, j: nat, ghost x: nat, q: nat) returns (q': nat)
    requires rs.Valid() && Primitive(rs.F()) && reg !in rs.Tables() && j < reg.Length && i >= 1 && IsSym(rs.F(), x)
    requires i * j >= 0 && (i - 1) * j >= 0 && IsIndex(rs.F(), reg[j], Mul(rs.F(), x, Exp(rs.F(), (i - 1) * j)))
    modifies reg
    ensures reg[..] == old(reg[..])[j := reg[j]]
    ensures IsIndex(rs.F(), reg[j], Mul(rs.F(), x, Exp(rs.F(), i * j)))
    ensures q' == Xor(q, Mul(rs.F(), x, Pow(rs.F(), Exp(rs.F(), i), j)))
  {
    hide Exp, Mul, Xor, Good, Primitive, Pow;
    GoodParts(rs.P());
    RegisterNext(rs.F(), reg[j], x, i, j);
    ghost var t := Mul(rs.F(), x, Exp(rs.F(), i * j));
    if reg[j] != rs.nn {
      reg[j] := Modnn(rs.mm, rs.nn, reg[j] + j);
      q' := Xor(q, rs.alphaTo[reg[j]]);
    } else {
      IndexZero(rs.F(), reg[j], t);
      NothingLeft(q);
      q' := q;
    }
  }

  lemma CancelOne(q: nat, t: nat)
    requires Xor(q, 1) == Xor(1, t)
    ensures q == t
  {
    hide Xor;
    XorComm(q, 1);
    XorCancel(1, q);
    XorCancel(1, t);
  }

  /** Advance every register and add them all up: lambda at alpha^i. */
  method ChienTest(rs: RS, reg: array<nat>, deg: nat, ghost i: nat, ghost p: seq<nat>) returns (q: nat)
    requires rs.Valid() && Primitive(rs.F()) && reg !in rs.Tables() && reg.Length == |p| == rs.nroots + 1
    requires i >= 1 && IsSyms(rs.F(), p) && p[0] == 1 && DegreeAtMost(p, deg)
    requires Registers(rs.F(), reg[..], p, i - 1, deg)
    modifies reg
    ensures Registers(rs.F(), reg[..], p, i, deg)
    ensures q == Eval(rs.F(), p, Exp(rs.F(), i))
  {
    hide Exp, Mul, Xor, Good, IsIndex, Conv, TablesFor, IsSym, NN, Primitive;
    ghost var f, v := rs.F(), Powers(rs.F(), Exp(rs.F(), i), |p|);
    assert v[0] == 1;
    hide Pow;
    DotExtend(f, p, v, deg + 1, |p|);
    FirstTerm(f, p, v);
    q := 1;
    var j := deg;
    while j > 0
      invariant 0 <= j <= deg
      invariant forall k :: 1 <= k <= j ==> IsIndex(f, reg[k], Mul(f, p[k], Exp(f, (i - 1) * k)))
      invariant forall k :: j < k <= deg ==> IsIndex(f, reg[k], Mul(f, p[k], Exp(f, i * k)))
      invariant Xor(q, Dot(f, p, v, j + 1)) == Xor(1, Dot(f, p, v, deg + 1))
    {
      ProductNat(i, j);
      ProductNat(i - 1, j);
      DotLast(f, p, v, j + 1);
      MoveTerm(q, Mul(f, p[j], v[j]), Dot(f, p, v, j), Xor(1, Dot(f, p, v, deg + 1)));
      q := ChienTerm(rs, reg, i, j, p[j], q);
      j := j - 1;
    }
    CancelOne(q, Dot(f, p, v, deg + 1));
  }

  // The roots among fewer candidates are a prefix of the roots among more.
  lemma {:induction false} RootsPrefix(f: GF, p: seq<nat>, m: nat, n: nat)
    requires m <= n
    ensures RootIndices(f, p, m) <= RootIndices(f, p, n)
  {
    hide IsRoot;
    if m < n {
      RootsPrefix(f, p, m, n - 1);
    }
  }

  lemma RootsBound(c: Params, p: seq<nat>, n: nat)
    requires Good(c) && |p| > 0 && IsSyms(c.f, p) && p[0] == 1 && n <= NN(c.f)
    ensures |RootIndices(c.f, p, n)| <= Degree(p)
    ensures |RootIndices(c.f, p, n)| == Degree(p) ==> RootIndices(c.f, p, NN(c.f)) == RootIndices(c.f, p, n)
  {
    GoodPrimitive(c);
    PlacesOfRoots(c, p);
    var ps := Places(c, RootIndices(c.f, p, NN(c.f)));
    LocatorsDistinct(c, ps);
    hide Good, Locator, Place, Primitive, Quo, RootIndices;
    RootsAtMostDegree(c.f, p, Degree(p), LocatorsOf(c, ps));
    RootsPrefix(c.f, p, n, NN(c.f));
  }

  lemma RootNext(f: GF, p: seq<nat>, i: nat)
    requires i >= 1
    ensures RootIndices(f, p, i) == if IsRoot(f, p, i) then RootIndices(f, p, i - 1) + [i] else RootIndices(f, p, i - 1)
  {
  }

  lemma RegistersStart(rs: RS, reg: seq<nat>, p: seq<nat>, deg: nat)
    requires rs.Valid() && Primitive(rs.F()) && |reg| == |p| && deg < |p| && IsSyms(rs.F(), p)
    requires forall j :: 1 <= j <= deg ==> IsIndex(rs.F(), reg[j], p[j])
    ensures Registers(rs.F(), reg, p, 0, deg)
  {
    PrimitiveNN(rs.F());
    assert Exp(rs.F(), 0) == 1;
    hide IsIndex, Mul, Exp, Primitive;
    forall j | 1 <= j <= deg ensures IsIndex(rs.F(), reg[j], Mul(rs.F(), p[j], Exp(rs.F(), 0 * j))) {
      MulComm(rs.F(), p[j], 1);
      MulOne(rs.F(), p[j]);
    }
  }

  /** Record root exponents and places until all roots are found or all candidates are tried. */
  method ChienSearch(rs: RS, lambda: array<nat>, deg: nat, root: array<nat>, loc: array<nat>, ghost p: seq<nat>)
    returns (count: nat)
    requires rs.Valid() && Primitive(rs.F()) && {root, loc} !! rs.Tables() && root != loc && lambda != root
    requires lambda != loc
    requires lambda.Length == |p| == rs.nroots + 1 && root.Length == loc.Length == rs.nroots
    requires Indices(rs.F(), lambda[..], p) && IsSyms(rs.F(), p) && p[0] == 1 && deg == Degree(p)
    modifies root, loc
    ensures count == |RootIndices(rs.F(), p, rs.nn)| <= deg
    ensures root[..count] == RootIndices(rs.F(), p, rs.nn)
    ensures loc[..count] == Places(rs.P(), root[..count])
  {
    hide Exp, Mul, Xor, Good, IsIndex, Conv, TablesFor, IsSym, Primitive, Pow, Degree, RootIndices, Eval;
    GoodParts(rs.P());
    ghost var f, c := rs.F(), rs.P();
    var reg := new nat[rs.nroots + 1];
    forall j | 0 <= j < rs.nroots + 1 {
      reg[j] := lambda[j];
    }
    RegistersStart(rs, reg[..], p, deg);
    count := 0;
    RootsNone(f, p);
    var i, k := 1, rs.iprim - 1;
    while i <= rs.nn
      invariant 1 <= i <= rs.nn + 1
      invariant Registers(f, reg[..], p, i - 1, deg)
      invariant k == Place(c, i)
      invariant count <= rs.nroots && root[..count] == RootIndices(f, p, i - 1)
      invariant loc[..count] == Places(c, root[..count])
    {
      RootNext(f, p, i);
      RootsBound(c, p, i);
      var q := ChienTest(rs, reg, deg, i, p);
      if q == 0 {
        RecordRoot(c, root, loc, count, i, k);
        count := count + 1;
        if count == deg {
          break;
        }
      }
      i := i + 1;
      k := Modnn(rs.mm, rs.nn, k + rs.iprim);
    }
    RootsBound(c, p, rs.nn);
  }

  method RecordRoot(ghost c: Params, root: array<nat>, loc: array<nat>, count: nat, i: nat, k: nat)
    requires root != loc && count < root.Length == loc.Length && k == Place(c, i)
    requires loc[..count] == Places(c, root[..count])
    modifies root, loc
    ensures root[..count + 1] == old(root[..count]) + [i]
    ensures loc[..count + 1] == Places(c, root[..count + 1])
  {
    hide Place;
    ghost var ps := loc[..count];
    root[count] := i;
    loc[count] := k;
    assert root[..count + 1] == old(root[..count]) + [i];
    assert loc[..count + 1] == ps + [k];
  }

  lemma RootsNone(f: GF, p: seq<nat>)
    ensures RootIndices(f, p, 0) == []
  {
  }

  // ----- evaluator and error values

  method FormOmega(rs: RS, lambda: array<nat>, s: array<nat>, deg: nat, ghost p: seq<nat>, ghost syn: seq<nat>)
    returns (omega: array<nat>)
    requires rs.Valid() && Primitive(rs.F()) && lambda.Length == |p| == rs.nroots + 1 && s.Length == |syn| == rs.nroots
    requires deg <= rs.nroots
    requires Indices(rs.F(), lambda[..], p) && Indices(rs.F(), s[..], syn)
    ensures fresh(omega) && omega.Length == rs.nroots + 1
    ensures Indices(rs.F(), omega[..deg], Evaluator(rs.F(), p, syn, deg))
  {
    hide Exp, Mul, Xor, Good, IsIndex, TablesFor, IsSym, Primitive, NN;
    omega := new nat[rs.nroots + 1];
    var i := 0;
    while i < deg
      invariant 0 <= i <= deg
      invariant forall k :: 0 <= k < i ==> IsIndex(rs.F(), omega[k], Conv(rs.F(), p, syn, k))
    {
      var tmp := OmegaCoefficient(rs, lambda, s, i, p, syn);
      TableIndex(rs, tmp);
      omega[i] := rs.indexOf[tmp];
      i := i + 1;
    }
  }

  method OmegaCoefficient(rs: RS, lambda: array<nat>, s: array<nat>, i: nat, ghost p: seq<nat>, ghost syn: seq<nat>)
    returns (tmp: nat)
    requires rs.Valid() && Primitive(rs.F()) && lambda.Length == |p| == rs.nroots + 1 && s.Length == |syn| == rs.nroots
    requires i < rs.nroots
    requires Indices(rs.F(), lambda[..], p) && Indices(rs.F(), s[..], syn)
    ensures tmp == Conv(rs.F(), p, syn, i) && IsSym(rs.F(), tmp)
  {
    hide Exp, Mul, Xor, Good, IsIndex, TablesFor, Primitive, NN;
    ghost var f, v := rs.F(), Reverse(syn, i);
    ghost var total := Dot(f, p, v, i + 1);
    tmp := 0;
    SymZero(f);
    NothingLeft(total);
    var j: int := i;
    while j >= 0
      invariant -1 <= j <= i
      invariant Xor(tmp, Dot(f, p, v, j + 1)) == total && IsSym(f, tmp)
    {
      DotLast(f, p, v, j + 1);
      MoveTerm(tmp, Mul(f, p[j], v[j]), Dot(f, p, v, j), total);
      MulComm(f, p[j], v[j]);
      tmp := AddProduct(rs, tmp, s[i - j], syn[i - j], lambda[j], p[j]);
      j := j - 1;
    }
    DotStart(f, p, v);
    NothingLeft(tmp);
  }

  /** omega at alpha^r, highest term first. */
  method EvaluateOmega(rs: RS, omega: array<nat>, deg: nat, r: nat, ghost p: seq<nat>, ghost syn: seq<nat>)
    returns (num1: nat)
    requires rs.Valid() && Primitive(rs.F()) && deg <= omega.Length
    requires Indices(rs.F(), omega[..deg], Evaluator(rs.F(), p, syn, deg))
    ensures num1 == Num1(rs.F(), p, syn, deg, r) && IsSym(rs.F(), num1)
  {
    hide Exp, Mul, Xor, Good, IsIndex, TablesFor, Primitive, NN, Pow, Conv;
    ghost var f, e := rs.F(), Evaluator(rs.F(), p, syn, deg);
    ghost var v := Powers(f, Exp(f, r), deg);
    ghost var total := Dot(f, e, v, deg);
    num1 := 0;
    SymZero(f);
    NothingLeft(total);
    var i: int := deg - 1;
    while i >= 0
      invariant -1 <= i <= deg - 1
      invariant Xor(num1, Dot(f, e, v, i + 1)) == total && IsSym(f, num1)
    {
      DotLast(f, e, v, i + 1);
      MoveTerm(num1, Mul(f, e[i], v[i]), Dot(f, e, v, i), total);
      PowersOfExp(f, r, i);
      num1 := AddPower(rs, num1, omega[i], e[i], i * r);
      i := i - 1;
    }
    DotStart(f, e, v);
    NothingLeft(num1);
  }

  lemma DerivativeLast(f: GF, p: seq<nat>, r: nat, m: nat)
    requires m > 0
    ensures (2 * m - 2) * r >= 0
    ensures Derivative(f, p, r, m) == Xor(Derivative(f, p, r, m - 1), Mul(f, At(p, 2 * m - 1), Exp(f, (2 * m - 2) * r)))
  {
  }

  lemma DerivativeStart(f: GF, p: seq<nat>, r: nat)
    ensures Derivative(f, p, r, 0) == 0
  {
  }

  /** The formal derivative of lambda at alpha^r, from its odd coefficients, highest first. */
  method EvaluateDerivative(rs: RS, lambda: array<nat>, deg: nat, r: nat, ghost p: seq<nat>) returns (den: nat)
    requires rs.Valid() && Primitive(rs.F()) && lambda.Length == |p| == rs.nroots + 1 && 1 <= deg <= rs.nroots
    requires Indices(rs.F(), lambda[..], p)
    ensures den == Derivative(rs.F(), p, r, DerivativeTerms(deg, rs.nroots)) && IsSym(rs.F(), den)
  {
    hide Exp, Mul, Xor, Good, IsIndex, TablesFor, Primitive, NN, Derivative;
    ghost var f, total := rs.F(), Derivative(rs.F(), p, r, DerivativeTerms(deg, rs.nroots));
    den := 0;
    SymZero(f);
    NothingLeft(total);
    var top := if deg < rs.nroots - 1 then deg else rs.nroots - 1;
    var i: int := top - top % 2;
    while i >= 0
      invariant -2 <= i <= rs.nroots - 1 && i % 2 == 0
      invariant Xor(den, Derivative(f, p, r, (i + 2) / 2)) == total && IsSym(f, den)
    {
      ghost var m := (i + 2) / 2;
      assert 2 * m - 2 == i;
      DerivativeLast(f, p, r, m);
      MoveTerm(den, Mul(f, p[i + 1], Exp(f, i * r)), Derivative(f, p, r, m - 1), total);
      den := AddPower(rs, den, lambda[i + 1], p[i + 1], i * r);
      i := i - 2;
    }
    DerivativeStart(f, p, r);
    NothingLeft(den);
  }

  // At every root of a polynomial that splits the decoder's denominator is nonzero.
  lemma DenominatorNonzero(c: Params, p: seq<nat>, s: seq<nat>, d: nat, roots: seq<nat>, l: nat)
    requires Found(c, p, d, roots) && l < d
    ensures d <= c.nroots && Derivative(c.f, p, roots[l], DerivativeTerms(d, c.nroots)) != 0
  {
    RecordedRoot(c, p, d, roots, l);
    hide *;
    ValueWeight(c, p, s, d, roots[l], Locator(c, Place(c, roots[l])));
  }

  // The sum of indices that the decoder looks up is the error value.
  lemma ValueIndex(f: GF, i1: nat, num1: nat, e2: nat, num2: nat, i3: nat, den: nat)
    requires Primitive(f) && IsIndex(f, i1, num1) && num1 != 0 && IsIndex(f, e2, num2) && num2 != 0
    requires IsIndex(f, i3, den) && den != 0 && IsSym(f, den)
    ensures NN(f) >= 1 && i1 < NN(f) && i3 < NN(f)
    ensures Unlog(f, Mod(i1 + e2 + (NN(f) - i3), NN(f))) == Mul(f, Mul(f, num1, num2), Inv(f, den))
  {
    IndexZero(f, i1, num1);
    IndexZero(f, e2, num2);
    IndexZero(f, i3, den);
    LogExp(f, i3);
    hide Exp, Mul, Primitive;
    MulExp(f, i1, e2);
    TableProduct(f, i1 + e2, NN(f) - i3);
  }

  /** Error value at the root r. */
  method ComputeValue(rs: RS, num1: nat, num2: nat, den: nat) returns (y: nat)
    requires rs.Valid() && Primitive(rs.F()) && IsSym(rs.F(), num1) && IsSym(rs.F(), num2) && IsSym(rs.F(), den)
    requires num1 != 0 && num2 != 0 && den != 0
    ensures y == Mul(rs.F(), Mul(rs.F(), num1, num2), Inv(rs.F(), den))
  {
    hide Exp, Mul, Good, Primitive, Inv;
    GoodParts(rs.P());
    TableIndex(rs, num1);
    TableIndex(rs, num2);
    TableIndex(rs, den);
    ValueIndex(rs.F(), rs.indexOf[num1], num1, rs.indexOf[num2], num2, rs.indexOf[den], den);
    var t := Modnn(rs.mm, rs.nn, rs.indexOf[num1] + rs.indexOf[num2] + rs.nn - rs.indexOf[den]);
    y := rs.alphaTo[t];
  }

  lemma Num2Sum(r: nat, fcr: nat, n: nat)
    requires r <= n
    ensures r * (fcr - 1) + n == Num2Index(r, fcr, n)
  {
    if fcr == 0 {
      assert r * (fcr - 1) + r == 0;
    }
  }

  lemma Num2Facts(c: Params, r: nat)
    requires Primitive(c.f) && r <= NN(c.f)
    ensures NN(c.f) >= 1 && r * (c.fcr - 1) + NN(c.f) >= 0
    ensures Unlog(c.f, Mod(r * (c.fcr - 1) + NN(c.f), NN(c.f))) == Num2(c, r)
    ensures IsSym(c.f, Num2(c, r)) && Num2(c, r) != 0
  {
    PrimitiveNN(c.f);
    Num2Sum(r, c.fcr, NN(c.f));
    hide Exp, Primitive, NN, Num2Index;
    var k := Num2Index(r, c.fcr, NN(c.f));
    ExpMod(c.f, k);
    ExpRange(c.f, k);
    ExpNonzero(c.f, k);
  }

  /** Correct the symbol at one place. */
  method CorrectPlace(rs: RS, data: array<nat>, lambda: array<nat>, omega: array<nat>, deg: nat, r: nat, place: nat,
                      ghost p: seq<nat>, ghost syn: seq<nat>)
    requires rs.Valid() && Primitive(rs.F()) && data !in rs.Tables() && data != lambda && data != omega
    requires rs.pad <= rs.nn && data.Length == rs.nn - rs.pad && place < rs.nn
    requires lambda.Length == |p| == rs.nroots + 1 && omega.Length == rs.nroots + 1 && 1 <= deg <= rs.nroots
    requires 1 <= r <= rs.nn
    requires Indices(rs.F(), lambda[..], p) && Indices(rs.F(), omega[..deg], Evaluator(rs.F(), p, syn, deg))
    requires Derivative(rs.F(), p, r, DerivativeTerms(deg, rs.nroots)) != 0
    modifies data
    ensures data[..] == CorrectOne(rs.P(), old(data[..]), place, ErrorValue(rs.P(), p, syn, deg, r))
  {
    hide Exp, Mul, Good, Primitive, Xor, Derivative, DerivativeTerms, Num1, Num2, Inv, IsIndex, Indices;
    GoodParts(rs.P());
    var num1 := EvaluateOmega(rs, omega, deg, r, p, syn);
    Num2Facts(rs.P(), r);
    var t := Modnn(rs.mm, rs.nn, r * (rs.fcr - 1) + rs.nn);
    var num2 := rs.alphaTo[t];
    var den := EvaluateDerivative(rs, lambda, deg, r, p);
    if num1 != 0 && place >= rs.pad {
      var y := ComputeValue(rs, num1, num2, den);
      data[place - rs.pad] := Xor(data[place - rs.pad], y);
    } else if place >= rs.pad {
      NothingLeft(data[place - rs.pad]);
    }
  }

  lemma CorrectNext(c: Params, block: seq<nat>, ps: seq<nat>, ys: seq<nat>, j: nat)
    requires |ps| == |ys| && j < |ps|
    ensures Correct(c, block, ps[j..], ys[j..])
      == CorrectOne(c, Correct(c, block, ps[j + 1..], ys[j + 1..]), ps[j], ys[j])
  {
    assert ps[j..][1..] == ps[j + 1..] && ys[j..][1..] == ys[j + 1..];
  }

  method CorrectAll(rs: RS, data: array<nat>, lambda: array<nat>, omega: array<nat>, deg: nat, root: array<nat>,
                    loc: array<nat>, ghost p: seq<nat>, ghost syn: seq<nat>)
    requires rs.Valid() && Primitive(rs.F()) && data !in rs.Tables() && data !in {lambda, omega, root, loc}
    requires rs.pad <= rs.nn && data.Length == rs.nn - rs.pad
    requires lambda.Length == |p| == rs.nroots + 1 && omega.Length == rs.nroots + 1
    requires root.Length == loc.Length == rs.nroots
    requires deg <= rs.nroots && Found(rs.P(), p, deg, root[..deg]) && loc[..deg] == Places(rs.P(), root[..deg])
    requires Indices(rs.F(), lambda[..], p) && Indices(rs.F(), omega[..deg], Evaluator(rs.F(), p, syn, deg))
    modifies data
    ensures data[..] == Correct(rs.P(), old(data[..]), loc[..deg], ErrorValues(rs.P(), p, syn, deg, root[..deg]))
  {
    hide Exp, Mul, Good, Primitive, Xor, Derivative, DerivativeTerms, ErrorValue, Indices, Correct, CorrectOne, Place;
    ghost var c, block, roots, ps := rs.P(), data[..], root[..deg], loc[..deg];
    ghost var ys := ErrorValues(c, p, syn, deg, roots);
    FoundSplits(c, p, deg, roots);
    CorrectNone(c, block, ps, ys, deg);
    var j: int := deg - 1;
    while j >= 0
      invariant -1 <= j <= deg - 1
      invariant data[..] == Correct(c, block, ps[j + 1..], ys[j + 1..])
    {
      assert root[j] == roots[j] && loc[j] == ps[j];
      DenominatorNonzero(c, p, syn, deg, roots, j);
      CorrectNext(c, block, ps, ys, j);
      CorrectPlace(rs, data, lambda, omega, deg, root[j], loc[j], p, syn);
      j := j - 1;
    }
    assert ps[0..] == ps && ys[0..] == ys;
  }

  lemma CorrectNone(c: Params, block: seq<nat>, ps: seq<nat>, ys: seq<nat>, n: nat)
    requires |ps| == |ys| == n
    ensures Correct(c, block, ps[n..], ys[n..]) == block
  {
  }

  // ----- the decoder

  function EraList(eras: array?<nat>, noEras: nat): (r: seq<nat>)
    requires noEras > 0 ==> eras != null && noEras <= eras.Length
    reads if eras != null then {eras} else {}
  {
    if noEras == 0 then [] else eras[..noEras]
  }

  lemma RestoresEvery(c: Params, data: seq<nat>, eras: seq<nat>)
    requires Good(c) && IsBlock(c, data)
    ensures forall cw :: IsCodeword(c, cw) && WithinCapacity(c, data, cw, eras) ==>
              Decoded(c, data, eras).block == cw && Decoded(c, data, eras).count >= 0
  {
    forall cw | IsCodeword(c, cw) && WithinCapacity(c, data, cw, eras)
      ensures Decoded(c, data, eras).block == cw && Decoded(c, data, eras).count >= 0
    {
      hide Good, Decoded;
      BoundedDistance(c, cw, data, eras);
    }
  }

  lemma SearchResult(c: Params, block: seq<nat>, es: seq<nat>)
    requires Good(c) && IsBlock(c, block) && |es| <= c.nroots && !AllZero(Syndromes(c, block))
    ensures Primitive(c.f) && NN(c.f) > 0
    ensures var s, p := Syndromes(c, block), Final(c, block, es).lambda;
      var d, roots := Degree(p), RootIndices(c.f, p, NN(c.f));
      && IsSyms(c.f, p) && p[0] == 1 && d <= c.nroots
      && Locators(c.f, LocatorsOf(c, es)) && IsSyms(c.f, s)
      && (|roots| != d ==> Decoded(c, block, es) == Outcome(-1, block, []))
      && (|roots| == d ==> Found(c, p, d, roots))
      && (|roots| == d ==>
            Decoded(c, block, es)
              == Outcome(d, Correct(c, block, Places(c, roots), ErrorValues(c, p, s, d, roots)), Places(c, roots)))
  {
    GoodParts(c);
    SyndromesRange(c, block);
    PositionsLocators(c, es);
    hide Good, Primitive, Correct, RootIndices, Syndrome, Locator, ErrorValue, Place, Degree, Run;
    RunKeeps(c.f, Syndromes(c, block), LocatorsOf(c, es), c.nroots);
  }

  /** The errata locator in index form, and its degree. */
  method LocateErrata(rs: RS, s: array<nat>, eras: array?<nat>, noEras: nat, ghost syn: seq<nat>)
    returns (lambda: array<nat>, deg: nat, ghost p: seq<nat>)
    requires rs.Valid() && Primitive(rs.F()) && s !in rs.Tables()
    requires s.Length == |syn| == rs.nroots && Indices(rs.F(), s[..], syn)
    requires noEras <= rs.nroots && (noEras > 0 ==> eras != null && noEras <= eras.Length)
    requires noEras > 0 ==> forall j :: 0 <= j < noEras ==> eras[j] < rs.nn
    requires Locators(rs.F(), LocatorsOf(rs.P(), EraList(eras, noEras))) && IsSyms(rs.F(), syn)
    ensures fresh(lambda) && lambda.Length == |p| == rs.nroots + 1
    ensures Indices(rs.F(), lambda[..], p) && deg == Degree(p)
    ensures var es := LocatorsOf(rs.P(), EraList(eras, noEras));
      p == Run(rs.F(), syn, noEras, ErasureLocator(rs.F(), es, rs.nroots), rs.nroots).lambda
  {
    hide Exp, Mul, Good, Primitive, Xor, Indices, Locator, Degree, Run, IsIndex, IsSyms, Locators;
    lambda := FormErasureLocator(rs, eras, noEras);
    ghost var el := FindLocator(rs, lambda, s, syn, noEras, LocatorsOf(rs.P(), EraList(eras, noEras)));
    p := lambda[..];
    LocatorSyms(rs.F(), syn, LocatorsOf(rs.P(), EraList(eras, noEras)));
    deg := ConvertLambda(rs, lambda);
    IndicesLength(rs.F(), lambda[..], p);
  }

  lemma LocatorSyms(f: GF, s: seq<nat>, es: seq<nat>)
    requires Primitive(f) && IsSyms(f, s) && Locators(f, es) && |es| <= |s|
    ensures IsSyms(f, Run(f, s, |es|, ErasureLocator(f, es, |s|), |s|).lambda)
  {
    hide Run, Primitive, Locators;
    RunKeeps(f, s, es, |s|);
  }

  lemma IndicesLength(f: GF, u: seq<nat>, p: seq<nat>)
    requires Indices(f, u, p)
    ensures |u| == |p|
  {
  }

  /** All that follows a nonzero syndrome. */
  method Repair(rs: RS, data: array<nat>, s: array<nat>, eras: array?<nat>, noEras: nat, loc: array<nat>)
    returns (count: int)
    requires rs.Valid() && {data, s, loc} !! rs.Tables() && data != s && data != loc && s != loc
    requires IsBlock(rs.P(), data[..])
    requires s.Length == loc.Length == rs.nroots
    requires Indices(rs.F(), s[..], Syndromes(rs.P(), data[..])) && !AllZero(Syndromes(rs.P(), data[..]))
    requires noEras <= rs.nroots && (noEras > 0 ==> eras != null && noEras <= eras.Length)
    requires noEras > 0 ==> eras != data && eras != loc && forall j :: 0 <= j < noEras ==> eras[j] < rs.nn
    modifies data, loc
    ensures var o := Decoded(rs.P(), old(data[..]), old(EraList(eras, noEras)));
      && count == o.count && data[..] == o.block
      && |o.places| <= rs.nroots && loc[..|o.places|] == o.places
  {
    hide Exp, Mul, Good, Primitive, Xor, Indices, Correct, Place, Locator, ErrorValue, RootIndices, Degree, Run,
      IsIndex, Found, Syndrome;
    hide Decoded, IsBlock, AllZero;
    ghost var f, c, block, es := rs.F(), rs.P(), data[..], EraList(eras, noEras);
    BlockLength(c, block);
    ghost var syn := Syndromes(c, block);
    SearchResult(c, block, es);
    var lambda, deg;
    ghost var p;
    lambda, deg, p := LocateErrata(rs, s, eras, noEras, syn);
    assert p == Final(c, block, es).lambda;
    var root := new nat[rs.nroots];
    var found := ChienSearch(rs, lambda, deg, root, loc, p);
    assert data[..] == block;
    if deg != found {
      count := -1;
      return;
    }
    count := found;
    var omega := FormOmega(rs, lambda, s, deg, p, syn);
    CorrectAll(rs, data, lambda, omega, deg, root, loc, p, syn);
  }

  method WriteBack(eras: array<nat>, loc: array<nat>, count: nat)
    requires eras != loc && count <= loc.Length <= eras.Length
    modifies eras
    ensures eras[..] == loc[..count] + old(eras[..])[count..]
  {
    var i := 0;
    while i < count
      invariant 0 <= i <= count
      invariant forall k :: 0 <= k < i ==> eras[k] == loc[k]
      invariant forall k :: i <= k < eras.Length ==> eras[k] == old(eras[k])
    {
      eras[i] := loc[i];
      i := i + 1;
    }
  }

  /** Correct a block in place. Returns the number of symbols located, or -1 when the locator
      polynomial does not split; the places found replace the erasure list. */
  method Decode(rs: RS, data: array<nat>, eras: array?<nat>, noEras: nat) returns (count: int)
    requires rs.Valid() && data !in rs.Tables() && IsBlock(rs.P(), data[..])
    requires eras != null ==> eras !in rs.Tables() && eras != data && eras.Length >= rs.nroots
    requires noEras <= rs.nroots && (noEras > 0 ==> eras != null)
    requires noEras > 0 ==> forall j :: 0 <= j < noEras ==> eras[j] < rs.nn
    modifies data, if eras != null then {eras} else {}
    ensures var o := Decoded(rs.P(), old(data[..]), old(EraList(eras, noEras)));
      && count == o.count && data[..] == o.block
      && |o.places| <= rs.nroots
      && (eras != null ==> eras[..] == o.places + old(eras[..])[|o.places|..])
    ensures forall cw ::
      IsCodeword(rs.P(), cw) && WithinCapacity(rs.P(), old(data[..]), cw, old(EraList(eras, noEras))) ==>
        data[..] == cw && count >= 0
  {
    hide Exp, Mul, Good, Primitive, Xor, Indices, Correct, IsCodeword, WithinCapacity, Syndrome;
    ghost var c, block, es := rs.P(), data[..], EraList(eras, noEras);
    RestoresEvery(c, block, es);
    SyndromesRange(c, block);
    var s := FormSyndromes(rs, data);
    var synError := ConvertSyndromes(rs, s);
    assert data[..] == block;
    if !synError {
      count := 0;
    } else {
      var loc := new nat[rs.nroots];
      count := Repair(rs, data, s, eras, noEras, loc);
      assert eras != null ==> eras[..] == old(eras[..]);
      DecodedCount(c, block, es);
      if eras != null && count >= 0 {
        WriteBack(eras, loc, count);
      }
    }
  }

  lemma DecodedCount(c: Params, block: seq<nat>, es: seq<nat>)
    requires Good(c) && IsBlock(c, block)
    ensures var o := Decoded(c, block, es);
      |o.places| == if o.count < 0 then 0 else o.count
  {
    hide Good, Correct, RootIndices, ErrorValue, Place, Degree, Run;
  }
}
