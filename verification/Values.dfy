/** The three quantities of an error value as the decoder computes them, and why their quotient is
    the weight that the evaluator asks for. */
module Values {
  import opened Bits
  import opened Field
  import opened Poly
  import opened BerlekampMassey
  import opened Forney
  import opened Code
  import opened Distance
  import opened Chien

  /** omega at alpha^r. */
  function Num1(f: GF, p: seq<nat>, s: seq<nat>, d: nat, r: nat): nat {
    Eval(f, Evaluator(f, p, s, d), Exp(f, r))
  }

  function Num2Index(r: nat, fcr: nat, n: nat): nat
    requires r <= n
  {
    if fcr == 0 then n - r else r * (fcr - 1) + n
  }

  /** alpha^r to the power fcr - 1. */
  function Num2(c: Params, r: nat): nat
    requires r <= NN(c.f)
  {
    Exp(c.f, Num2Index(r, c.fcr, NN(c.f)))
  }

  /** The first m terms of the formal derivative of p at alpha^r: the odd coefficients of p. */
  function Derivative(f: GF, p: seq<nat>, r: nat, m: nat): nat {
    if m == 0 then 0
    else Xor(Derivative(f, p, r, m - 1), Mul(f, At(p, 2 * m - 1), Exp(f, (2 * m - 2) * r)))
  }

  /** Number of terms of the derivative that the decoder sums. */
  function DerivativeTerms(d: nat, nroots: nat): nat {
    var top := if d < nroots then d else if nroots == 0 then 0 else nroots - 1;
    top / 2 + 1
  }

  lemma PowersOfExp(f: GF, r: nat, i: nat)
    requires Primitive(f)
    ensures i * r >= 0 && Pow(f, Exp(f, r), i) == Exp(f, i * r)
  {
    PowExp(f, r, i);
    assert r * i == i * r;
  }

  // ----- the derivative at a root

  lemma DerivativeStep(f: GF, p: seq<nat>, x: nat, a: nat, i: nat)
    requires Primitive(f) && IsSyms(f, p) && Mul(f, x, a) == 1
    ensures Mul(f, At(p, i + 1), Pow(f, a, i))
         == Xor(Mul(f, x, Mul(f, Quo(f, p, x, i), Pow(f, a, i))),
           Mul(f, x, Mul(f, Quo(f, p, x, i + 1), Pow(f, a, i + 1))))
  {
    var q0, q1, ai := Quo(f, p, x, i), Quo(f, p, x, i + 1), Pow(f, a, i);
    QuoStep(f, p, x, i + 1);
    assert Pow(f, a, i + 1) == Mul(f, a, ai);
    PowRange(f, a, i);
    PrimitiveWide(f);
    hide Mul, Xor, Quo, Pow, Primitive;
    // p[i+1] == q1 + x q0
    XorCancel(At(p, i + 1), Mul(f, x, q0));
    MulXor(f, ai, q1, Mul(f, x, q0));
    MulAssoc(f, x, q0, ai);
    // x (q1 (a ai)) == q1 ai
    MulSwap(f, q1, a, ai);
    MulAssoc(f, x, a, Mul(f, q1, ai));
    MulOne(f, Mul(f, q1, ai));
    XorComm(Mul(f, q1, ai), Mul(f, x, Mul(f, q0, ai)));
  }

  lemma {:induction false} DerivativeIsQuotientValue(f: GF, p: seq<nat>, x: nat, r: nat, q: seq<nat>, m: nat)
    requires Primitive(f) && IsSyms(f, p) && Mul(f, x, Exp(f, r)) == 1
    requires |q| == 2 * m && forall i :: 0 <= i < |q| ==> q[i] == Quo(f, p, x, i)
    ensures Derivative(f, p, r, m) == Mul(f, x, Dot(f, q, Powers(f, Exp(f, r), 2 * m), 2 * m))
  {
    var a := Exp(f, r);
    hide Mul, Xor, Quo, Pow, Exp, Primitive;
    if m == 0 {
      MulZero(f, x);
    } else {
      var i := 2 * m - 2;
      var q', v, v' := q[..i], Powers(f, a, 2 * m), Powers(f, a, i);
      DerivativeIsQuotientValue(f, p, x, r, q', m - 1);
      DotTerms(f, q', v', q, v, i);
      DotLast(f, q, v, i + 1);
      DotLast(f, q, v, i + 2);
      var s, t0, t1 := Dot(f, q, v, i), Mul(f, q[i], v[i]), Mul(f, q[i + 1], v[i + 1]);
      PowersOfExp(f, r, i);
      DerivativeStep(f, p, x, a, i);
      hide Dot;
      XorAssoc(s, t0, t1);
      MulXor(f, x, s, Xor(t0, t1));
      MulXor(f, x, t0, t1);
    }
  }

  /** The first n quotient coefficients at x evaluated at the inverse a of x. */
  function QuotientValue(f: GF, p: seq<nat>, x: nat, a: nat, n: nat): nat {
    Dot(f, Quotient(f, p, x, n), Powers(f, a, n), n)
  }

  // More quotient coefficients than the degree add nothing when x is the locator of a root.
  lemma QuotientValueExtend(f: GF, p: seq<nat>, x: nat, a: nat, d: nat, n: nat)
    requires Primitive(f) && IsSyms(f, p) && IsSym(f, x) && x != 0 && d <= n
    requires DegreeAtMost(p, d) && Quo(f, p, x, d) == 0
    ensures QuotientValue(f, p, x, a, n) == QuotientValue(f, p, x, a, d)
  {
    var u, v := Quotient(f, p, x, n), Powers(f, a, n);
    hide Mul, Xor, Quo, Pow, Primitive;
    forall i | d <= i < n ensures At(u, i) == 0 {
      QuoBeyond(f, p, x, d, i);
    }
    DotExtend(f, u, v, d, n);
    DotTerms(f, u, v, Quotient(f, p, x, d), Powers(f, a, d), d);
  }

  // The denominator of an error value: x times the value of the quotient.
  lemma DerivativeAtRoot(f: GF, p: seq<nat>, d: nat, nroots: nat, x: nat, r: nat)
    requires Primitive(f) && IsSyms(f, p) && IsSym(f, x) && x != 0 && Mul(f, x, Exp(f, r)) == 1
    requires 1 <= d <= nroots && DegreeAtMost(p, d) && Quo(f, p, x, d) == 0
    ensures Derivative(f, p, r, DerivativeTerms(d, nroots)) == Mul(f, x, QuotientValue(f, p, x, Exp(f, r), d))
  {
    var m := DerivativeTerms(d, nroots);
    assert 2 * m >= d;
    hide Mul, Xor, Quo, Pow, Exp, Primitive, DerivativeTerms;
    DerivativeIsQuotientValue(f, p, x, r, Quotient(f, p, x, 2 * m), m);
    QuotientValueExtend(f, p, x, Exp(f, r), d, 2 * m);
  }

  // ----- the power fcr - 1

  lemma Num2Cancels(c: Params, x: nat, r: nat)
    requires Primitive(c.f) && 1 <= r <= NN(c.f) && x == Exp(c.f, NN(c.f) - r)
    ensures Mul(c.f, Pow(c.f, x, c.fcr), Num2(c, r)) == x
  {
    hide Exp, Mul, Pow, Primitive, NN, Num2Index;
    var f, n, k := c.f, NN(c.f), Num2Index(r, c.fcr, NN(c.f));
    PowExp(f, n - r, c.fcr);
    var j := (n - r) * c.fcr;
    Num2Arith(n, r, c.fcr);
    MulExp(f, j, k);
    ExpCycle(f, n - r, c.fcr);
  }

  lemma Num2Arith(n: nat, r: nat, fcr: nat)
    requires r <= n
    ensures (n - r) * fcr >= 0 && fcr * n >= 0
    ensures (n - r) * fcr + Num2Index(r, fcr, n) == (n - r) + fcr * n
  {
    if fcr != 0 {
      assert (n - r) * fcr == n * fcr - r * fcr;
      assert r * (fcr - 1) == r * fcr - r;
    }
  }

  // ----- the error value

  /** The symbol added at the place of root r. */
  ghost function ErrorValue(c: Params, p: seq<nat>, s: seq<nat>, d: nat, r: nat): (y: nat)
    requires Primitive(c.f) && r <= NN(c.f)
    ensures IsSym(c.f, y)
  {
    var den := Derivative(c.f, p, r, DerivativeTerms(d, c.nroots));
    var num1 := Num1(c.f, p, s, d, r);
    if num1 != 0 && den != 0 && IsSym(c.f, den) then
      Mul(c.f, Mul(c.f, num1, Num2(c, r)), Inv(c.f, den))
    else SymZero(c.f); 0
  }

  // The factors of an error value, multiplied out.
  lemma ValueProduct(f: GF, num1: nat, num2: nat, di: nat, xf: nat, t: nat, x: nat, v: nat)
    requires Primitive(f) && Mul(f, xf, num2) == x && Mul(f, Mul(f, x, v), di) == 1
    ensures Mul(f, Mul(f, Mul(f, Mul(f, num1, num2), di), xf), Mul(f, t, v)) == Mul(f, num1, t)
  {
    hide Mul, Primitive;
    var y := Mul(f, Mul(f, num1, num2), di);
    calc {
      Mul(f, y, xf);
      { MulAssoc(f, Mul(f, num1, num2), di, xf); MulComm(f, di, xf); }
      Mul(f, Mul(f, num1, num2), Mul(f, xf, di));
      {
        MulExchange(f, num1, num2, xf, di);
        MulExchange(f, num1, xf, num2, di);
        MulAssoc(f, num1, xf, Mul(f, num2, di));
        MulAssoc(f, xf, num2, di);
      }
      Mul(f, num1, Mul(f, x, di));
    }
    MulExchange(f, num1, Mul(f, x, di), t, v);
    MulAssoc(f, x, di, v);
    MulComm(f, di, v);
    MulAssoc(f, x, v, di);
    MulComm(f, Mul(f, num1, t), 1);
    PrimitiveWide(f);
    MulOne(f, Mul(f, num1, t));
  }
}
