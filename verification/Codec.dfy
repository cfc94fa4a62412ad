/** The control block with its log tables, and the initialisation that fills them. */
module Codec {
  import opened Bits
  import opened Numbers
  import opened Field
  import opened Reduction
  import opened Code
  import opened Generator

  /** Symbol for an index: the reserved index NN stands for log(0). */
  function Unlog(f: GF, i: nat): nat {
    if i < NN(f) then Exp(f, i) else 0
  }

  ghost predicate IsIndex(f: GF, i: nat, x: nat) {
    i <= NN(f) && Unlog(f, i) == x
  }

  /** ALPHA_TO and INDEX_OF are inverse bijections between indices and symbols. */
  ghost predicate TablesFor(f: GF, alphaTo: seq<nat>, indexOf: seq<nat>) {
    && |alphaTo| == |indexOf| == NN(f) + 1
    && (forall i :: 0 <= i <= NN(f) ==> alphaTo[i] == Unlog(f, i))
    && forall x :: 0 <= x <= NN(f) ==> IsIndex(f, indexOf[x], x)
  }

  lemma IndexZero(f: GF, i: nat, x: nat)
    requires Primitive(f) && IsIndex(f, i, x)
    ensures i == NN(f) <==> x == 0
    ensures i < NN(f) ==> Exp(f, i) == x
    ensures IsSym(f, x)
  {
    PrimitiveNN(f);
    if i < NN(f) {
      ExpNonzero(f, i);
      ExpRange(f, i);
    }
  }

  lemma PrimitiveNN(f: GF)
    requires Primitive(f)
    ensures f.mm >= 1 && NN(f) >= 1
  {
    NNPositive(f);
  }

  // Looking up the sum of two indices, reduced modulo NN, multiplies.
  lemma TableProduct(f: GF, i: nat, j: nat)
    requires Primitive(f)
    ensures NN(f) >= 1 && Unlog(f, Mod(i + j, NN(f))) == Mul(f, Exp(f, i), Exp(f, j))
    ensures IsSym(f, Mul(f, Exp(f, i), Exp(f, j)))
  {
    PrimitiveNN(f);
    hide Exp, Mul, Primitive;
    MulExp(f, i, j);
    ExpMod(f, i + j);
  }

  // So table look-ups multiply polynomials over two elements modulo the field polynomial.
  lemma TableRemainder(f: GF, i: nat, j: nat)
    requires Primitive(f)
    ensures NN(f) >= 1 && IsRemainder(f, ClMul(Exp(f, i), Exp(f, j)), Unlog(f, Mod(i + j, NN(f))))
  {
    hide Exp, Mul, Primitive, ClMul, Unlog, IsRemainder;
    PrimitiveNN(f);
    TableProduct(f, i, j);
    ExpRange(f, i);
    ExpRange(f, j);
    MulIsRemainder(f, Exp(f, i), Exp(f, j));
  }

  class RS {
    const mm: nat
    const nn: nat
    const alphaTo: array<nat>
    const indexOf: array<nat>
    const genpoly: array<nat>
    const nroots: nat
    const fcr: nat
    const prim: nat
    const iprim: nat
    const pad: nat
    ghost const poly: nat

    constructor (mm: nat, nn: nat, alphaTo: array<nat>, indexOf: array<nat>, genpoly: array<nat>,
                 nroots: nat, fcr: nat, prim: nat, iprim: nat, pad: nat, ghost poly: nat)
      ensures this.mm == mm && this.nn == nn && this.alphaTo == alphaTo && this.indexOf == indexOf
      ensures this.genpoly == genpoly && this.nroots == nroots && this.fcr == fcr && this.prim == prim
      ensures this.iprim == iprim && this.pad == pad && this.poly == poly
    {
      this.mm, this.nn, this.alphaTo, this.indexOf, this.genpoly := mm, nn, alphaTo, indexOf, genpoly;
      this.nroots, this.fcr, this.prim, this.iprim, this.pad, this.poly := nroots, fcr, prim, iprim, pad, poly;
    }

    ghost function F(): GF {
      GF(mm, poly)
    }

    ghost function P(): Params {
      Params(F(), fcr, prim, iprim, nroots, pad)
    }

    ghost function Tables(): set<object> {
      {alphaTo, indexOf, genpoly}
    }

    ghost predicate Valid()
      reads alphaTo, indexOf, genpoly
    {
      && Good(P()) && nn == NN(F())
      && TablesFor(F(), alphaTo[..], indexOf[..])
      && genpoly.Length == nroots + 1
      && forall j :: 0 <= j <= nroots ==> IsIndex(F(), genpoly[j], GeneratorPoly(P(), nroots)[nroots - j])
    }
  }

  /** Reduction modulo NN without division: subtract, then add the high part to the low part. */
  method Modnn(mm: nat, nn: nat, x: nat) returns (r: nat)
    requires mm >= 1 && nn == Pow2(mm) - 1
    ensures nn >= 1 && r == Mod(x, nn) == x % nn
  {
    r := x;
    assert Pow2(mm) == 2 * Pow2(mm - 1);
    while r >= nn
      invariant Mod(r, nn) == Mod(x, nn)
    {
      ghost var before := r;
      r := r - nn;
      FoldStep(r, mm, nn);
      r := Shr(r, mm) + Low(r, mm);
    }
    ModIsRemainder(x, nn);
  }

  /** ALPHA_TO[MODNN(i + j)]: the product of the symbols with indices i and j. */
  method Lookup(ghost f: GF, mm: nat, nn: nat, alphaTo: array<nat>, i: nat, j: nat) returns (x: nat)
    requires Primitive(f) && mm == f.mm && nn == NN(f) && alphaTo.Length == nn + 1
    requires forall k :: 0 <= k <= nn ==> alphaTo[k] == Unlog(f, k)
    ensures x == Mul(f, Exp(f, i), Exp(f, j)) && IsSym(f, x)
  {
    PrimitiveNN(f);
    var t := Modnn(mm, nn, i + j);
    TableProduct(f, i, j);
    x := alphaTo[t];
  }

  // Folding x = h (nn + 1) + l into h + l keeps the residue and does not grow.
  lemma FoldStep(x: nat, mm: nat, nn: nat)
    requires nn >= 1 && nn == Pow2(mm) - 1
    ensures Mod(Shr(x, mm) + Low(x, mm), nn) == Mod(x, nn)
    ensures Shr(x, mm) + Low(x, mm) <= x
  {
    ShrLow(x, mm);
    FoldResidue(Shr(x, mm), Low(x, mm), nn);
  }

  lemma FoldResidue(h: nat, l: nat, nn: nat)
    requires nn >= 1
    ensures h * (nn + 1) >= h
    ensures Mod(h + l, nn) == Mod(h * (nn + 1) + l, nn)
  {
    var k := h * nn;
    assert h * (nn + 1) == k + h;
    ModAdd(h + l, h, nn);
  }

  /** Wait for the first 1 + t nn that prim divides. */
  method FindIprim(prim: nat, nn: nat) returns (iprim: nat)
    requires prim >= 1 && nn >= 1 && Coprime(prim, nn)
    ensures 1 <= iprim <= nn && InverseRoot(prim, iprim, nn)
  {
    StopsIffCoprime(prim, nn);
    ghost var limit: nat :| limit < prim && Stops(prim, nn, limit);
    var i := 1;
    ghost var t := 0;
    while i % prim != 0
      invariant 0 <= t <= limit && i == 1 + t * nn
      decreases limit - t
    {
      if t == limit {
        StopsRemainder(prim, nn, t);
      }
      assert (t + 1) * nn == t * nn + nn;
      i := i + nn;
      t := t + 1;
    }
    iprim := i / prim;
    assert prim * iprim == i;
    IprimBound(prim, nn, t, iprim);
  }

  lemma StopsRemainder(prim: nat, nn: nat, t: nat)
    requires prim >= 1 && Stops(prim, nn, t)
    ensures (1 + t * nn) % prim == 0
  {
    var k: nat :| IsProduct(prim, k, 1 + t * nn);
    RemainderUnique(1 + t * nn, prim, k, 0);
  }

  lemma IprimBound(prim: nat, nn: nat, t: nat, iprim: int)
    requires prim >= 1 && nn >= 1 && t < prim && prim * iprim == 1 + t * nn
    ensures 1 <= iprim <= nn
  {
    FactorSign(prim, iprim);
    ProductMonotone(t, prim - 1, nn);
    assert (prim - 1) * nn == prim * nn - nn;
    assert prim * (iprim - nn) == prim * iprim - prim * nn;
    FactorSign(prim, iprim - nn);
  }

  lemma ProductMonotone(a: nat, b: nat, n: nat)
    requires a <= b
    ensures a * n <= b * n
  {
    ProductNonneg(b - a, n);
    assert (b - a) * n == b * n - a * n;
  }

  lemma ProductNonneg(a: nat, b: nat)
    ensures a * b >= 0
  {
  }
}
