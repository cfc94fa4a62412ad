/** Initialisation of a codec: parameter checks, field tables, prim-th root of one, generator. */
module Init {
  import opened Bits
  import opened Numbers
  import opened Field
  import opened Poly
  import opened BerlekampMassey
  import opened Code
  import opened Generator
  import opened Codec
  import opened Order
  import opened Reduction

  // ----- field tables

  /** The entry of x after n rounds: the last exponent at which the register was x, else what it was before. */
  ghost predicate Entry(f: GF, v: nat, x: nat, n: nat, before: nat) {
    if Written(f, x, n) then v < n && Exp(f, v) == x && forall k: nat :: v < k < n ==> Exp(f, k) != x
    else v == before
  }

  /** The tables after n rounds, for any polynomial; `before` are the entries of `index_of` as allocated. */
  ghost predicate FilledTo(f: GF, alphaTo: seq<nat>, indexOf: seq<nat>, before: seq<nat>, n: nat) {
    && |alphaTo| == |indexOf| == |before| == NN(f) + 1 && n <= NN(f)
    && alphaTo[NN(f)] == 0
    && (forall k :: 0 <= k < n ==> alphaTo[k] == Exp(f, k))
    && forall x: nat :: x <= NN(f) ==> Entry(f, indexOf[x], x, n, if x == 0 then NN(f) else before[x])
  }

  lemma EntryStep(f: GF, v: nat, x: nat, n: nat, before: nat)
    requires Entry(f, v, x, n, before)
    ensures Entry(f, if Exp(f, n) == x then n else v, x, n + 1, before)
  {
    hide Exp;
    if Exp(f, n) == x {
      assert Written(f, x, n + 1);
    } else if Written(f, x, n) {
      var k: nat :| k < n && Exp(f, k) == x;
      assert Written(f, x, n + 1);
    }
  }

  lemma FillStep(f: GF, a: seq<nat>, b: seq<nat>, before: seq<nat>, i: nat)
    requires f.mm >= 1 && FilledTo(f, a, b, before, i) && i < NN(f)
    ensures Exp(f, i) <= NN(f)
    ensures FilledTo(f, a[i := Exp(f, i)], b[Exp(f, i) := i], before, i + 1)
  {
    ExpRange(f, i);
    hide Exp, Entry;
    forall x: nat | x <= NN(f)
      ensures Entry(f, b[Exp(f, i) := i][x], x, i + 1, if x == 0 then NN(f) else before[x])
    {
      EntryStep(f, b[x], x, i, if x == 0 then NN(f) else before[x]);
    }
  }

  // Tables that are inverse to each other leave no symbol without an index.
  lemma TablesWritten(f: GF, a: seq<nat>, b: seq<nat>)
    requires TablesFor(f, a, b)
    ensures forall x: nat :: 1 <= x <= NN(f) ==> Written(f, x, NN(f))
  {
    hide Exp;
    forall x: nat | 1 <= x <= NN(f) ensures Written(f, x, NN(f)) {
      assert IsIndex(f, b[x], x);
      assert Exp(f, b[x]) == x;
    }
  }

  lemma FilledTables(f: GF, a: seq<nat>, b: seq<nat>, before: seq<nat>)
    requires Primitive(f) && FilledTo(f, a, b, before, NN(f))
    ensures TablesFor(f, a, b)
  {
    PrimitiveNN(f);
    hide Exp, Primitive, NN;
    forall x | 0 <= x <= NN(f) ensures IsIndex(f, b[x], x) {
      assert Entry(f, b[x], x, NN(f), if x == 0 then NN(f) else before[x]);
      if x == 0 {
        if Written(f, 0, NN(f)) {
          ExpNonzero(f, b[x]);
        }
      } else {
        ExpOnto(f, x);
        assert Written(f, x, NN(f));
      }
    }
  }

  /** Filled tables of a polynomial that passes the check are right exactly when it is primitive. */
  lemma TablesIff(f: GF, a: seq<nat>, b: seq<nat>, before: seq<nat>)
    requires f.mm >= 1 && FilledTo(f, a, b, before, NN(f)) && Exp(f, NN(f)) == 1
    ensures TablesFor(f, a, b) <==> Primitive(f)
  {
    hide FilledTo, Exp, NN, Primitive;
    if TablesFor(f, a, b) {
      TablesWritten(f, a, b);
      AllWrittenIff(f);
    }
    if Primitive(f) {
      FilledTables(f, a, b, before);
    }
  }

  /** What the loops need to stay inside the tables, whatever the polynomial. */
  ghost predicate Allocated(f: GF, mm: nat, nn: nat, alphaTo: seq<nat>, indexOf: seq<nat>) {
    && f.mm >= 1 && mm == f.mm && nn == NN(f) && |alphaTo| == |indexOf| == nn + 1
    && forall k :: 0 <= k <= nn ==> alphaTo[k] <= nn
  }

  ghost predicate Ready(f: GF, alphaTo: seq<nat>, indexOf: seq<nat>) {
    Primitive(f) && TablesFor(f, alphaTo, indexOf)
  }

  lemma FilledAllocated(f: GF, a: seq<nat>, b: seq<nat>, before: seq<nat>)
    requires f.mm >= 1 && FilledTo(f, a, b, before, NN(f))
    ensures Allocated(f, f.mm, NN(f), a, b)
  {
    hide Exp;
    forall k | 0 <= k <= NN(f) ensures a[k] <= NN(f) {
      if k < NN(f) {
        ExpRange(f, k);
      }
    }
  }

  // Antilogs are the remainders of the powers of x.
  lemma FilledRemainders(f: GF, a: seq<nat>, b: seq<nat>, before: seq<nat>)
    requires f.mm >= 1 && FilledTo(f, a, b, before, NN(f))
    ensures forall k :: 0 <= k < NN(f) ==> IsRemainder(f, Pow2(k), a[k])
  {
    hide IsRemainder, Exp, Entry;
    forall k | 0 <= k < NN(f) ensures IsRemainder(f, Pow2(k), a[k]) {
      ExpIsRemainder(f, k);
    }
  }

  method FillTables(f: GF, nn: nat, alphaTo: array<nat>, indexOf: array<nat>) returns (sr: nat)
    requires f.mm >= 1 && nn == NN(f) && alphaTo.Length == indexOf.Length == nn + 1 && alphaTo != indexOf
    modifies alphaTo, indexOf
    ensures sr == Exp(f, nn) && IsRemainder(f, Pow2(nn), sr)
    ensures forall k :: 0 <= k < nn ==> IsRemainder(f, Pow2(k), alphaTo[k])
    ensures FilledTo(f, alphaTo[..], indexOf[..], old(indexOf[..]), nn)
    ensures sr == 1 ==> (TablesFor(f, alphaTo[..], indexOf[..]) <==> Primitive(f))
  {
    hide IsRemainder;
    ghost var before := indexOf[..];
    indexOf[0] := nn;
    alphaTo[nn] := 0;
    sr := 1;
    assert Pow2(f.mm) == 2 * Pow2(f.mm - 1);
    var i: nat := 0;
    while i < nn
      invariant 0 <= i <= nn && sr == Exp(f, i)
      invariant FilledTo(f, alphaTo[..], indexOf[..], before, i)
    {
      ExpRange(f, i);
      ghost var a, b := alphaTo[..], indexOf[..];
      indexOf[sr] := i;
      alphaTo[i] := sr;
      assert FilledTo(f, alphaTo[..], indexOf[..], before, i + 1) by {
        FillStep(f, a, b, before, i);
        assert alphaTo[..] == a[i := Exp(f, i)] && indexOf[..] == b[Exp(f, i) := i];
      }
      sr := 2 * sr;
      if Shr(sr, f.mm) % 2 == 1 {
        sr := Xor(sr, f.poly);
      }
      sr := Low(sr, f.mm);
      i := i + 1;
    }
    if sr == 1 {
      TablesIff(f, alphaTo[..], indexOf[..], before);
    }
    ExpIsRemainder(f, nn);
    FilledRemainders(f, alphaTo[..], indexOf[..], before);
    assert forall k :: 0 <= k < nn ==> alphaTo[k] == alphaTo[..][k];
  }

  // ----- the generator polynomial

  /** The product of the first i factors, in an array that has room for all. */
  function Partial(c: Params, i: nat): (g: seq<nat>)
    ensures |g| == c.nroots + 1
  {
    ErasureLocator(c.f, Roots(c, i), c.nroots)
  }

  lemma PartialStep(c: Params, i: nat)
    ensures Partial(c, i + 1) == AddMul(c.f, Partial(c, i), Root(c, i), Shifted(Partial(c, i)))
  {
    assert Roots(c, i + 1)[..i] == Roots(c, i);
  }

  lemma PartialFacts(c: Params, i: nat)
    requires Primitive(c.f) && i <= c.nroots
    ensures var g := Partial(c, i);
      IsSyms(c.f, g) && g[0] == 1 && DegreeAtMost(g, i)
  {
    RootsAreLocators(c, i);
    ErasureLocatorRoots(c.f, Roots(c, i), c.nroots);
  }

  /** Coefficients 0..i of the product of i factors, lowest first. */
  ghost predicate Holds(c: Params, g: seq<nat>, i: nat) {
    |g| == c.nroots + 1 && i <= c.nroots && forall j :: 0 <= j <= i ==> g[j] == Partial(c, i)[i - j]
  }

  // One coefficient of the next product.
  lemma PartialNext(c: Params, i: nat, k: nat)
    requires Primitive(c.f) && i < c.nroots && k <= i + 1
    ensures Partial(c, i + 1)[k] ==
      if k == 0 then 1
      else if k == i + 1 then Mul(c.f, Root(c, i), Partial(c, i)[i])
      else Xor(Partial(c, i)[k], Mul(c.f, Root(c, i), Partial(c, i)[k - 1]))
    ensures IsSyms(c.f, Partial(c, i))
  {
    PartialStep(c, i);
    PartialFacts(c, i);
    PartialFacts(c, i + 1);
    hide Partial, Root, Primitive, Mul, Xor;
    if k == i + 1 {
      var t := Mul(c.f, Root(c, i), Partial(c, i)[i]);
      XorComm(0, t);
      XorZero(t);
    }
  }

  // One coefficient of the next product, in the order of the array.
  lemma NextCoefficient(c: Params, i: nat, j: nat)
    requires Primitive(c.f) && i < c.nroots && j <= i
    ensures var p, q := Partial(c, i), Partial(c, i + 1);
      && IsSym(c.f, p[i - j]) && IsSym(c.f, p[i - j + 1])
      && q[i + 1 - j] ==
           if j > 0 then Xor(p[i - j + 1], Mul(c.f, p[i - j], Root(c, i))) else Mul(c.f, p[i - j], Root(c, i))
  {
    hide Partial, Root, Primitive, Mul, Xor;
    PartialNext(c, i, i + 1 - j);
    MulComm(c.f, Partial(c, i)[i - j], Root(c, i));
  }

  lemma RootNonzero(c: Params, i: nat, x: nat)
    requires Primitive(c.f) && IsSym(c.f, x) && x != 0
    ensures Mul(c.f, x, Root(c, i)) != 0
  {
    hide Beta, Primitive, Mul;
    BetaRange(c, c.fcr + i);
    NoZeroDivisors(c.f, x, Root(c, i));
  }

  lemma ReadyProduct(f: GF, alphaTo: seq<nat>, indexOf: seq<nat>, x: nat, e: nat)
    requires Ready(f, alphaTo, indexOf) && IsSym(f, x) && x != 0
    ensures NN(f) >= 1 && |alphaTo| == |indexOf| == NN(f) + 1
    ensures alphaTo[Mod(indexOf[x] + e, NN(f))] == Mul(f, x, Exp(f, e))
  {
    hide Exp, Mul, Primitive, Unlog;
    PrimitiveNN(f);
    assert IsIndex(f, indexOf[x], x);
    IndexZero(f, indexOf[x], x);
    TableProduct(f, indexOf[x], e);
  }

  lemma SymbolXor(f: GF, x: nat, y: nat)
    requires x <= NN(f) && y <= NN(f)
    ensures Xor(x, y) <= NN(f)
  {
    SymXor(f, x, y);
  }

  /** The inner loop at one coefficient: x times the root, through the tables. */
  method TimesRoot(ghost c: Params, mm: nat, nn: nat, alphaTo: array<nat>, indexOf: array<nat>, ghost i: nat,
                   root: nat, x: nat)
    returns (y: nat)
    requires Allocated(c.f, mm, nn, alphaTo[..], indexOf[..]) && x <= nn && root == (c.fcr + i) * c.prim
    ensures y <= nn
    ensures Ready(c.f, alphaTo[..], indexOf[..]) && x != 0 ==> y == Mul(c.f, x, Root(c, i))
  {
    var t := Modnn(mm, nn, indexOf[x] + root);
    y := alphaTo[t];
    if Ready(c.f, alphaTo[..], indexOf[..]) && x != 0 {
      hide Exp, Mul, Ready;
      ReadyProduct(c.f, alphaTo[..], indexOf[..], x, root);
    }
  }

  /** The array before round i: symbols always, the product of the first i factors when the tables are right. */
  ghost predicate Partway(c: Params, g: seq<nat>, alphaTo: seq<nat>, indexOf: seq<nat>, i: nat) {
    && |g| == c.nroots + 1 && i <= c.nroots && (forall j :: 0 <= j <= i ==> g[j] <= NN(c.f))
    && (Ready(c.f, alphaTo, indexOf) ==> Holds(c, g, i) && g[0] != 0)
  }

  /** Inside a round, with coefficient j next. */
  ghost predicate InRound(c: Params, g: seq<nat>, i: nat, j: nat) {
    && |g| == c.nroots + 1 && j <= i < c.nroots && g[0] != 0
    && (forall k :: 0 <= k <= j ==> g[k] == Partial(c, i)[i - k])
    && forall k :: j < k <= i + 1 ==> g[k] == Partial(c, i + 1)[i + 1 - k]
  }

  lemma RoundStart(c: Params, g: seq<nat>, i: nat)
    requires Primitive(c.f) && i < c.nroots && Holds(c, g, i) && g[0] != 0
    ensures InRound(c, g[i + 1 := 1], i, i)
  {
    hide Partial, Primitive, Mul, Xor, Root;
    PartialNext(c, i, 0);
  }

  lemma RoundOpen(c: Params, g: seq<nat>, i: nat, j: nat)
    requires InRound(c, g, i, j)
    ensures |g| == c.nroots + 1 && g[0] != 0
  {
    hide Partial;
  }

  // The new value of one coefficient.
  lemma RoundStep(c: Params, g: seq<nat>, i: nat, j: nat, y: nat)
    requires Primitive(c.f) && InRound(c, g, i, j) && j > 0
    requires y == if g[j] != 0 then Xor(g[j - 1], Mul(c.f, g[j], Root(c, i))) else g[j - 1]
    ensures InRound(c, g[j := y], i, j - 1)
  {
    hide Partial, Primitive, Mul, Xor, Root;
    NextCoefficient(c, i, j);
    MulZero(c.f, Root(c, i));
    XorZero(g[j - 1]);
  }

  lemma RoundEnd(c: Params, g: seq<nat>, i: nat)
    requires Primitive(c.f) && InRound(c, g, i, 0)
    ensures var y := Mul(c.f, g[0], Root(c, i)); Holds(c, g[0 := y], i + 1) && y != 0
  {
    hide Partial, Primitive, Mul, Xor, Root;
    NextCoefficient(c, i, 0);
    RootNonzero(c, i, g[0]);
  }

  lemma AllocatedParts(f: GF, mm: nat, nn: nat, alphaTo: seq<nat>, indexOf: seq<nat>)
    requires Allocated(f, mm, nn, alphaTo, indexOf)
    ensures f.mm >= 1 && 1 <= nn == NN(f) && |indexOf| == nn + 1
  {
    ExpRange(f, 0);
  }

  lemma PartwayOpen(c: Params, g: seq<nat>, alphaTo: seq<nat>, indexOf: seq<nat>, i: nat)
    requires Partway(c, g, alphaTo, indexOf, i)
    ensures |g| == c.nroots + 1 && forall j :: 0 <= j <= i ==> g[j] <= NN(c.f)
    ensures Ready(c.f, alphaTo, indexOf) ==> Primitive(c.f) && Holds(c, g, i) && g[0] != 0
  {
    hide Holds, Primitive, TablesFor, NN;
  }

  lemma PartwayClose(c: Params, g: seq<nat>, alphaTo: seq<nat>, indexOf: seq<nat>, i: nat)
    requires |g| == c.nroots + 1 && i <= c.nroots && forall j :: 0 <= j <= i ==> g[j] <= NN(c.f)
    requires Ready(c.f, alphaTo, indexOf) ==> Holds(c, g, i) && g[0] != 0
    ensures Partway(c, g, alphaTo, indexOf, i)
  {
    hide Holds, Ready, NN;
  }

  method MultiplyFactor(ghost c: Params, mm: nat, nn: nat, alphaTo: array<nat>, indexOf: array<nat>, g: array<nat>,
                        i: nat, root: nat)
    requires Allocated(c.f, mm, nn, alphaTo[..], indexOf[..]) && i < c.nroots && root == (c.fcr + i) * c.prim
    requires g != alphaTo && g != indexOf && Partway(c, g[..], alphaTo[..], indexOf[..], i)
    modifies g
    ensures Partway(c, g[..], alphaTo[..], indexOf[..], i + 1)
  {
    hide *;
    ghost var a, b, before := alphaTo[..], indexOf[..], g[..];
    AllocatedParts(c.f, mm, nn, a, b);
    PartwayOpen(c, before, a, b, i);
    ghost var ready := Ready(c.f, a, b);
    assert forall k :: 0 <= k <= i ==> g[k] == before[k];
    g[i + 1] := 1;
    assert g[..] == before[i + 1 := 1];
    if ready {
      RoundStart(c, before, i);
    }
    var j := i;
    while j > 0
      invariant 0 <= j <= i && forall k :: 0 <= k <= i + 1 ==> g[k] <= nn
      invariant ready ==> InRound(c, g[..], i, j)
    {
      before := g[..];
      assert before[j] == g[j] && before[j - 1] == g[j - 1];
      if g[j] != 0 {
        var t := TimesRoot(c, mm, nn, alphaTo, indexOf, i, root, g[j]);
        SymbolXor(c.f, g[j - 1], t);
        g[j] := Xor(g[j - 1], t);
      } else {
        g[j] := g[j - 1];
      }
      assert g[..] == before[j := g[j]];
      if ready {
        RoundStep(c, before, i, j, g[j]);
      }
      j := j - 1;
    }
    before := g[..];
    assert before[0] == g[0];
    if ready {
      RoundOpen(c, before, i, 0);
      RoundEnd(c, before, i);
    }
    g[0] := TimesRoot(c, mm, nn, alphaTo, indexOf, i, root, g[0]);
    assert g[..] == before[0 := g[0]];
    PartwayClose(c, g[..], a, b, i + 1);
  }

  lemma PartialStart(c: Params)
    ensures Partial(c, 0)[0] == 1
  {
  }

  lemma PartialFull(c: Params)
    ensures Partial(c, c.nroots) == GeneratorPoly(c, c.nroots)
  {
  }

  lemma PartwayStart(c: Params, g: seq<nat>, alphaTo: seq<nat>, indexOf: seq<nat>)
    requires c.f.mm >= 1 && |g| == c.nroots + 1 && g[0] == 1
    ensures Partway(c, g, alphaTo, indexOf, 0)
  {
    PartialStart(c);
    ExpRange(c.f, 0);
    hide Partial, Ready;
  }

  // The finished product, ready for the conversion to index form.
  lemma PartwayFull(c: Params, g: seq<nat>, alphaTo: seq<nat>, indexOf: seq<nat>)
    requires Partway(c, g, alphaTo, indexOf, c.nroots)
    ensures |g| == c.nroots + 1 && forall j :: 0 <= j <= c.nroots ==> g[j] <= NN(c.f)
    ensures Ready(c.f, alphaTo, indexOf) ==> forall j :: 0 <= j <= c.nroots ==>
      g[j] == GeneratorPoly(c, c.nroots)[c.nroots - j] && IsIndex(c.f, indexOf[g[j]], g[j])
  {
    hide Partial, Primitive, GeneratorPoly, Unlog;
    PartialFull(c);
  }

  /** The generator polynomial from its roots, converted to index form at the end. */
  method BuildGenerator(ghost c: Params, mm: nat, nn: nat, alphaTo: array<nat>, indexOf: array<nat>, nroots: nat,
                        fcr: nat, prim: nat)
    returns (g: array<nat>)
    requires Allocated(c.f, mm, nn, alphaTo[..], indexOf[..])
    requires c.nroots == nroots && c.fcr == fcr && c.prim == prim
    ensures fresh(g) && g.Length == nroots + 1
    ensures Ready(c.f, alphaTo[..], indexOf[..]) ==>
      forall j :: 0 <= j <= nroots ==> IsIndex(c.f, g[j], GeneratorPoly(c, nroots)[nroots - j])
  {
    hide *;
    ghost var a, b := alphaTo[..], indexOf[..];
    ghost var ready := Ready(c.f, a, b);
    AllocatedParts(c.f, mm, nn, a, b);
    g := new nat[nroots + 1];
    g[0] := 1;
    PartwayStart(c, g[..], a, b);
    var i, root := 0, fcr * prim;
    while i < nroots
      invariant 0 <= i <= nroots && root == (fcr + i) * prim
      invariant Partway(c, g[..], a, b, i) && alphaTo[..] == a && indexOf[..] == b
    {
      MultiplyFactor(c, mm, nn, alphaTo, indexOf, g, i, root);
      assert (fcr + i + 1) * prim == (fcr + i) * prim + prim;
      i, root := i + 1, root + prim;
    }
    ghost var product := g[..];
    PartwayFull(c, product, a, b);
    i := 0;
    while i <= nroots
      invariant 0 <= i <= nroots + 1
      invariant forall j :: i <= j <= nroots ==> g[j] == product[j]
      invariant ready ==> forall j :: 0 <= j < i ==> IsIndex(c.f, g[j], product[j])
    {
      assert g[i] == product[i] && indexOf[g[i]] == b[g[i]];
      g[i] := indexOf[g[i]];
      i := i + 1;
    }
  }

  // ----- the whole initialisation

  /** The ranges that the parameter checks accept; `bits` is the width of a data symbol. */
  predicate InRange(bits: nat, symsize: int, fcr: int, prim: int, nroots: int, pad: int) {
    && 0 <= symsize <= bits
    && 0 <= fcr < Pow2(symsize)
    && 0 < prim < Pow2(symsize)
    && 0 <= nroots < Pow2(symsize)
    && 0 <= pad < Pow2(symsize) - 1 - nroots
  }

  // First root, prim-th power and number of roots are symbols, prim is not zero, and at least one data symbol is left.
  lemma InRangeMeans(bits: nat, symsize: nat, fcr: nat, prim: nat, nroots: nat, pad: nat)
    ensures var f := GF(symsize, 0);
      InRange(bits, symsize, fcr, prim, nroots, pad) <==>
        symsize <= bits && IsSym(f, fcr) && IsSym(f, prim) && prim != 0 && nroots + pad + 1 <= NN(f)
  {
  }

  /** A codec for the parameters, or null if a check fails or the register does not return to 1.
      The caller supplies a prim without common divisor with NN, else the search for iprim never ends.
      What passes the check on the register without being primitive gives a codec that is not valid. */
  method InitRS(bits: nat, symsize: int, gfpoly: nat, fcr: int, prim: int, nroots: int, pad: int) returns (rs: RS?)
    requires InRange(bits, symsize, fcr, prim, nroots, pad) ==> Coprime(prim, Pow2(symsize) - 1)
    ensures rs == null <==>
      !InRange(bits, symsize, fcr, prim, nroots, pad) || Exp(GF(symsize, gfpoly), Pow2(symsize) - 1) != 1
    ensures rs != null ==> fresh(rs.Tables()) && (rs.Valid() <==> Primitive(GF(symsize, gfpoly)))
    ensures rs != null ==>
      rs.F() == GF(symsize, gfpoly) && rs.fcr == fcr && rs.prim == prim && rs.nroots == nroots && rs.pad == pad
  {
    rs := null;
    if symsize < 0 || symsize > bits {
      return;
    }
    if fcr < 0 || fcr >= Pow2(symsize) {
      return;
    }
    if prim <= 0 || prim >= Pow2(symsize) {
      return;
    }
    if nroots < 0 || nroots >= Pow2(symsize) {
      return;
    }
    if pad < 0 || pad >= Pow2(symsize) - 1 - nroots {
      return;
    }
    var f := GF(symsize, gfpoly);
    var nn := Pow2(symsize) - 1;
    assert symsize >= 1;
    var alphaTo, indexOf := new nat[nn + 1], new nat[nn + 1];
    ghost var before := indexOf[..];
    var sr := FillTables(f, nn, alphaTo, indexOf);
    if sr != 1 {
      return;
    }
    assert Allocated(f, symsize, nn, alphaTo[..], indexOf[..])
      by { FilledAllocated(f, alphaTo[..], indexOf[..], before); }
    var iprim := FindIprim(prim, nn);
    ghost var c := Params(f, fcr, prim, iprim, nroots, pad);
    var g := BuildGenerator(c, symsize, nn, alphaTo, indexOf, nroots, fcr, prim);
    rs := new RS(symsize, nn, alphaTo, indexOf, g, nroots, fcr, prim, iprim, pad, gfpoly);
  }
}
