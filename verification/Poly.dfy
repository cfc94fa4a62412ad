/** Vectors and polynomials over the field, power sums, synthetic division, and the two
    nonsingularity facts the codec rests on. */
module Poly {
  import opened Bits
  import opened Field

  ghost predicate IsSyms(f: GF, u: seq<nat>) {
    forall i :: 0 <= i < |u| ==> IsSym(f, u[i])
  }

  /** Coefficient i, zero outside the sequence. */
  function At(u: seq<nat>, i: int): nat {
    if 0 <= i < |u| then u[i] else 0
  }

  /** The sum of u[i] v[i] for i below n. */
  function Dot(f: GF, u: seq<nat>, v: seq<nat>, n: nat): (r: nat)
  {
    if n == 0 then 0 else Xor(Dot(f, u, v, n - 1), Mul(f, At(u, n - 1), At(v, n - 1)))
  }

  lemma {:induction false} DotRange(f: GF, u: seq<nat>, v: seq<nat>, n: nat)
    ensures IsSym(f, Dot(f, u, v, n))
  {
    hide Xor, Mul;
    if n != 0 {
      DotRange(f, u, v, n - 1);
      SymXor(f, Dot(f, u, v, n - 1), Mul(f, At(u, n - 1), At(v, n - 1)));
    }
  }

  // Sums with equal terms are equal.
  lemma {:induction false} DotTerms(f: GF, u: seq<nat>, v: seq<nat>, u': seq<nat>, v': seq<nat>, n: nat)
    requires forall i :: 0 <= i < n ==> Mul(f, At(u, i), At(v, i)) == Mul(f, At(u', i), At(v', i))
    ensures Dot(f, u, v, n) == Dot(f, u', v', n)
  {
    hide Xor, Mul, At;
    if n != 0 {
      DotTerms(f, u, v, u', v', n - 1);
    }
  }

  lemma DotComm(f: GF, u: seq<nat>, v: seq<nat>, n: nat)
    requires Primitive(f)
    ensures Dot(f, u, v, n) == Dot(f, v, u, n)
  {
    hide Xor, Mul, At;
    forall i | 0 <= i < n ensures Mul(f, At(u, i), At(v, i)) == Mul(f, At(v, i), At(u, i)) {
      MulComm(f, At(u, i), At(v, i));
    }
    DotTerms(f, u, v, v, u, n);
  }

  // Linearity in the second argument.
  lemma {:induction false} DotLinear(f: GF, u: seq<nat>, v: seq<nat>, c: nat, w: seq<nat>, z: seq<nat>, n: nat)
    requires Primitive(f)
    requires forall i :: 0 <= i < n ==> At(z, i) == Xor(At(v, i), Mul(f, c, At(w, i)))
    ensures Dot(f, u, z, n) == Xor(Dot(f, u, v, n), Mul(f, c, Dot(f, u, w, n)))
  {
    hide Xor, Mul, At;
    if n == 0 {
      MulZero(f, c);
      XorZero(0);
    } else {
      DotLinear(f, u, v, c, w, z, n - 1);
      var a, b, d := At(u, n - 1), At(v, n - 1), At(w, n - 1);
      MulXor(f, a, b, Mul(f, c, d));
      MulSwap(f, a, c, d);
      MulXor(f, c, Dot(f, u, w, n - 1), Mul(f, a, d));
      XorExchange(Dot(f, u, v, n - 1), Mul(f, c, Dot(f, u, w, n - 1)), Mul(f, a, b), Mul(f, c, Mul(f, a, d)));
    }
  }

  lemma MulSwap(f: GF, a: nat, c: nat, d: nat)
    requires Primitive(f)
    ensures Mul(f, a, Mul(f, c, d)) == Mul(f, c, Mul(f, a, d))
  {
    hide Mul;
    MulAssoc(f, a, c, d);
    MulAssoc(f, c, a, d);
    MulComm(f, a, c);
  }

  lemma {:induction false} DotScale(f: GF, u: seq<nat>, c: nat, w: seq<nat>, z: seq<nat>, n: nat)
    requires Primitive(f)
    requires forall i :: 0 <= i < n ==> At(z, i) == Mul(f, c, At(w, i))
    ensures Dot(f, u, z, n) == Mul(f, c, Dot(f, u, w, n))
  {
    hide Xor, Mul;
    forall i | 0 <= i < n ensures At(z, i) == Xor(At([], i), Mul(f, c, At(w, i))) {
      XorZero(At(z, i));
      XorComm(0, At(z, i));
    }
    DotLinear(f, u, [], c, w, z, n);
    DotNil(f, u, n);
    var r := Mul(f, c, Dot(f, u, w, n));
    XorZero(r);
    XorComm(0, r);
  }

  lemma {:induction false} DotNil(f: GF, u: seq<nat>, n: nat)
    ensures Dot(f, u, [], n) == 0
  {
    hide Xor, Mul;
    if n != 0 {
      DotNil(f, u, n - 1);
      MulZero(f, At(u, n - 1));
      XorZero(0);
    }
  }

  // Terms past m that vanish do not matter.
  lemma {:induction false} DotExtend(f: GF, u: seq<nat>, v: seq<nat>, m: nat, n: nat)
    requires m <= n
    requires forall i :: m <= i < n ==> At(u, i) == 0 || At(v, i) == 0
    ensures Dot(f, u, v, n) == Dot(f, u, v, m)
  {
    hide Xor, Mul, At;
    if m < n {
      DotExtend(f, u, v, m, n - 1);
      MulZero(f, At(u, n - 1));
      MulZero(f, At(v, n - 1));
      XorZero(Dot(f, u, v, n - 1));
    }
  }

  // A sum with a single nonzero term.
  lemma {:induction false} DotSingle(f: GF, u: seq<nat>, v: seq<nat>, l: nat, n: nat)
    requires l < n
    requires forall i :: 0 <= i < n && i != l ==> At(u, i) == 0 || At(v, i) == 0
    ensures Dot(f, u, v, n) == Mul(f, At(u, l), At(v, l))
  {
    DotExtend(f, u, v, l + 1, n);
    DotExtend(f, u, v, 0, l);
    hide Xor, Mul, At;
    XorZero(Mul(f, At(u, l), At(v, l)));
    XorComm(0, Mul(f, At(u, l), At(v, l)));
  }

  // Splitting off the first term.
  lemma {:induction false} DotFirst(f: GF, u: seq<nat>, v: seq<nat>, u': seq<nat>, v': seq<nat>, n: nat)
    requires forall i :: 0 <= i < n ==> At(u', i) == At(u, i + 1) && At(v', i) == At(v, i + 1)
    ensures Dot(f, u, v, n + 1) == Xor(Mul(f, At(u, 0), At(v, 0)), Dot(f, u', v', n))
  {
    hide Xor, Mul, At;
    if n == 0 {
      XorComm(0, Mul(f, At(u, 0), At(v, 0)));
    } else {
      DotFirst(f, u, v, u', v', n - 1);
      XorAssoc(Mul(f, At(u, 0), At(v, 0)), Dot(f, u', v', n - 1), Mul(f, At(u, n), At(v, n)));
    }
  }

  // ----- evaluation, convolution, synthetic division

  function Powers(f: GF, x: nat, n: nat): (r: seq<nat>)
    ensures |r| == n && forall i :: 0 <= i < n ==> r[i] == Pow(f, x, i)
  {
    seq(n, i requires 0 <= i < n => Pow(f, x, i))
  }

  /** The powers x^k, ..., x, 1. */
  function PowersDown(f: GF, x: nat, k: nat): (r: seq<nat>)
    ensures |r| == k + 1 && forall i :: 0 <= i <= k ==> r[i] == Pow(f, x, k - i)
  {
    seq(k + 1, i requires 0 <= i <= k => Pow(f, x, k - i))
  }

  /** The polynomial with coefficients p, lowest first, at x. */
  function Eval(f: GF, p: seq<nat>, x: nat): nat {
    Dot(f, p, Powers(f, x, |p|), |p|)
  }

  /** The entries s[k], ..., s[0]. */
  function Reverse(s: seq<nat>, k: nat): (r: seq<nat>)
    ensures |r| == k + 1 && forall i :: 0 <= i <= k ==> r[i] == At(s, k - i)
  {
    seq(k + 1, i requires 0 <= i <= k => At(s, k - i))
  }

  /** Coefficient k of the product of p and s. */
  function Conv(f: GF, p: seq<nat>, s: seq<nat>, k: nat): nat {
    Dot(f, p, Reverse(s, k), k + 1)
  }

  /** Coefficient k of the power series p(z) / (1 - x z), by synthetic division. */
  function Quo(f: GF, p: seq<nat>, x: nat, k: nat): nat {
    Dot(f, p, PowersDown(f, x, k), k + 1)
  }

  lemma QuoZero(f: GF, p: seq<nat>, x: nat)
    requires Primitive(f) && IsSyms(f, p)
    ensures Quo(f, p, x, 0) == At(p, 0)
  {
    NNPositive(f);
    hide Xor, Mul;
    var a := At(p, 0);
    assert Dot(f, p, PowersDown(f, x, 0), 0) == 0;
    assert Pow(f, x, 0) == 1;
    MulComm(f, a, 1);
    MulOne(f, a);
    XorComm(0, a);
    XorZero(a);
  }

  lemma QuoStep(f: GF, p: seq<nat>, x: nat, k: nat)
    requires Primitive(f) && IsSyms(f, p) && k > 0
    ensures Quo(f, p, x, k) == Xor(At(p, k), Mul(f, x, Quo(f, p, x, k - 1)))
  {
    NNPositive(f);
    hide Xor, Mul;
    var u, v := PowersDown(f, x, k), PowersDown(f, x, k - 1);
    DotScale(f, p, x, v, u, k);
    assert At(u, k) == Pow(f, x, 0) == 1;
    MulComm(f, At(p, k), 1);
    MulOne(f, At(p, k));
    XorComm(Mul(f, x, Dot(f, p, v, k)), At(p, k));
  }

  lemma QuoRange(f: GF, p: seq<nat>, x: nat, k: nat)
    ensures IsSym(f, Quo(f, p, x, k))
  {
    DotRange(f, p, PowersDown(f, x, k), k + 1);
  }

  // Past the last coefficient the quotient only gets multiplied by x.
  lemma {:induction false} QuoBeyond(f: GF, p: seq<nat>, x: nat, d: nat, k: nat)
    requires Primitive(f) && IsSyms(f, p) && IsSym(f, x) && x != 0 && d <= k
    requires forall i :: d < i <= k ==> At(p, i) == 0
    ensures Quo(f, p, x, k) == 0 <==> Quo(f, p, x, d) == 0
    decreases k
  {
    hide Xor, Mul, Quo;
    if d < k {
      QuoBeyond(f, p, x, d, k - 1);
      QuoStep(f, p, x, k);
      var q := Quo(f, p, x, k - 1);
      QuoRange(f, p, x, k - 1);
      NoZeroDivisors(f, x, q);
      XorComm(0, Mul(f, x, q));
      XorZero(Mul(f, x, q));
    }
  }

  /** The first n coefficients of the quotient. */
  function Quotient(f: GF, p: seq<nat>, x: nat, n: nat): (r: seq<nat>)
    ensures |r| == n && forall i :: 0 <= i < n ==> r[i] == Quo(f, p, x, i)
  {
    seq(n, i requires 0 <= i < n => Quo(f, p, x, i))
  }

  lemma QuotientRange(f: GF, p: seq<nat>, x: nat, n: nat)
    ensures IsSyms(f, Quotient(f, p, x, n))
  {
    forall i | 0 <= i < n ensures IsSym(f, Quotient(f, p, x, n)[i]) {
      QuoRange(f, p, x, i);
    }
  }

  // Dividing out x leaves every other point y with the factor (y - x).
  lemma {:induction false} QuoQuotient(f: GF, p: seq<nat>, x: nat, y: nat, n: nat, k: nat)
    requires Primitive(f) && IsSyms(f, p) && k < n
    ensures var q := Quotient(f, p, x, n);
      Quo(f, p, y, k) ==
        if k == 0 then Quo(f, q, y, 0)
        else Xor(Quo(f, q, y, k), Mul(f, x, Quo(f, q, y, k - 1)))
  {
    var q := Quotient(f, p, x, n);
    QuotientRange(f, p, x, n);
    hide Xor, Mul, Quo;
    if k == 0 {
      QuoZero(f, p, y);
      QuoZero(f, p, x);
      QuoZero(f, q, y);
    } else {
      QuoQuotient(f, p, x, y, n, k - 1);
      QuoStep(f, p, y, k);
      QuoStep(f, q, y, k);
      QuoStep(f, p, x, k);
      var a, b, c := At(p, k), q[k - 1], Quo(f, q, y, k - 1);
      assert At(q, k) == Xor(a, Mul(f, x, b));
      if k == 1 {
        QuoZero(f, q, y);
        assert c == b;
        var u, v := Mul(f, x, b), Mul(f, y, b);
        assert Xor(a, v) == Xor(Xor(Xor(a, u), v), u) by {
          XorLaws();
        }
      } else {
        QuoStep(f, q, y, k - 1);
        var e := Quo(f, q, y, k - 2);
        // c == b + y e;  left side a + y (c + x e);  right side (a + x b + y c) + x c
        MulXor(f, y, c, Mul(f, x, e));
        MulXor(f, x, b, Mul(f, y, e));
        MulSwap(f, x, y, e);
        RearrangeStep(a, Mul(f, x, b), Mul(f, y, c), Mul(f, x, c), Mul(f, y, Mul(f, x, e)));
      }
    }
  }

  lemma RearrangeStep(a: nat, xb: nat, yc: nat, xc: nat, yxe: nat)
    requires xc == Xor(xb, yxe)
    ensures Xor(a, Xor(yc, yxe)) == Xor(Xor(Xor(a, xb), yc), xc)
  {
    hide Xor;
    XorExchange(Xor(a, xb), yc, xb, yxe);
    XorCancel(a, xb);
  }

  lemma {:induction false} QuotientRoot(f: GF, p: seq<nat>, x: nat, y: nat)
    requires Primitive(f) && IsSyms(f, p) && |p| > 0 && IsSym(f, x) && IsSym(f, y) && x != y
    requires Quo(f, p, x, |p| - 1) == 0 && Quo(f, p, y, |p| - 1) == 0
    ensures |p| > 1 ==> Quo(f, Quotient(f, p, x, |p| - 1), y, |p| - 2) == 0
  {
    var n := |p|;
    if n > 1 {
      var q, r := Quotient(f, p, x, n), Quotient(f, p, x, n - 1);
      QuoQuotient(f, p, x, y, n, n - 1);
      QuotientRange(f, p, x, n);
      QuoStep(f, q, y, n - 1);
      var e := Quo(f, q, y, n - 2);
      assert Quo(f, r, y, n - 2) == e by {
        hide Xor, Mul;
        DotTerms(f, r, PowersDown(f, y, n - 2), q, PowersDown(f, y, n - 2), n - 1);
      }
      hide Xor, Mul, Quo;
      XorZero(Mul(f, y, e));
      XorComm(0, Mul(f, y, e));
      MulXor(f, e, y, x);
      assert Mul(f, Xor(y, x), e) == 0;
      SymXor(f, y, x);
      XorCancel(y, x);
      assert IsSym(f, e) by { QuoRange(f, q, y, n - 2); }
      NoZeroDivisors(f, Xor(y, x), e);
    }
  }

  ghost predicate Distinct(xs: seq<nat>) {
    forall i, j :: 0 <= i < j < |xs| ==> xs[i] != xs[j]
  }

  // A polynomial with at least as many distinct locators as coefficients is zero:
  // a nonzero polynomial has no more roots than its degree.
  lemma {:induction false} RootCount(f: GF, p: seq<nat>, xs: seq<nat>)
    requires Primitive(f) && IsSyms(f, p) && IsSyms(f, xs) && Distinct(xs) && |p| <= |xs|
    requires |p| > 0 ==> forall j :: 0 <= j < |xs| ==> Quo(f, p, xs[j], |p| - 1) == 0
    ensures forall i :: 0 <= i < |p| ==> p[i] == 0
    decreases |p|
  {
    hide Xor, Mul, Quo;
    var n := |p|;
    if n > 0 {
      var x := xs[|xs| - 1];
      var q, ys := Quotient(f, p, x, n - 1), xs[..|xs| - 1];
      QuotientRange(f, p, x, n - 1);
      if n > 1 {
        forall j | 0 <= j < |ys| ensures Quo(f, q, ys[j], n - 2) == 0 {
          QuotientRoot(f, p, x, ys[j]);
        }
      }
      RootCount(f, q, ys);
      ZeroQuotient(f, p, x);
    }
  }

  lemma ZeroQuotient(f: GF, p: seq<nat>, x: nat)
    requires Primitive(f) && IsSyms(f, p)
    requires forall k :: 0 <= k < |p| ==> Quo(f, p, x, k) == 0
    ensures forall i :: 0 <= i < |p| ==> p[i] == 0
  {
    hide Xor, Mul, Quo;
    forall i | 0 <= i < |p| ensures p[i] == 0 {
      if i == 0 {
        QuoZero(f, p, x);
      } else {
        QuoStep(f, p, x, i);
        assert Quo(f, p, x, i) == 0 && Quo(f, p, x, i - 1) == 0;
        MulZero(f, x);
        XorZero(p[i]);
      }
    }
  }

  // ----- power sums

  /** The k-th power of every locator. */
  function PowersOf(f: GF, xs: seq<nat>, k: nat): (r: seq<nat>)
    ensures |r| == |xs| && forall j :: 0 <= j < |xs| ==> r[j] == Pow(f, xs[j], k)
  {
    seq(|xs|, j requires 0 <= j < |xs| => Pow(f, xs[j], k))
  }

  /** The sum of w[j] xs[j]^k over all locators. */
  function PowerSum(f: GF, w: seq<nat>, xs: seq<nat>, k: nat): nat {
    Dot(f, w, PowersOf(f, xs, k), |xs|)
  }

  /** The weights with the last locator eliminated: w[j] times (xs[j] - last). */
  function Eliminate(f: GF, w: seq<nat>, xs: seq<nat>): (r: seq<nat>)
    requires |w| == |xs| > 0
    ensures |r| == |w| - 1
    ensures forall j :: 0 <= j < |r| ==> r[j] == Mul(f, Xor(xs[j], xs[|xs| - 1]), w[j])
  {
    seq(|w| - 1, j requires 0 <= j < |w| - 1 => Mul(f, Xor(xs[j], xs[|xs| - 1]), w[j]))
  }

  lemma EliminateSum(f: GF, w: seq<nat>, xs: seq<nat>, k: nat)
    requires Primitive(f) && |w| == |xs| > 0
    ensures PowerSum(f, Eliminate(f, w, xs), xs[..|xs| - 1], k)
         == Xor(PowerSum(f, w, xs, k + 1), Mul(f, xs[|xs| - 1], PowerSum(f, w, xs, k)))
  {
    var n := |xs|;
    var x := xs[n - 1];
    var u, v := PowersOf(f, xs, k + 1), PowersOf(f, xs, k);
    var z := seq(n, j requires 0 <= j < n => Xor(u[j], Mul(f, x, v[j])));
    var w', v' := Eliminate(f, w, xs), PowersOf(f, xs[..n - 1], k);
    hide Xor, Mul;
    DotLinear(f, w, u, x, v, z, n);
    assert At(z, n - 1) == 0 by {
      XorSelf(Pow(f, x, k + 1));
    }
    DotExtend(f, w, z, n - 1, n);
    forall j | 0 <= j < n - 1 ensures Mul(f, At(w', j), At(v', j)) == Mul(f, At(w, j), At(z, j)) {
      var y, q := xs[j], v[j];
      MulXor(f, q, y, x);
      assert z[j] == Mul(f, Xor(y, x), q);
      MulComm(f, Xor(y, x), w[j]);
      MulAssoc(f, w[j], Xor(y, x), q);
    }
    DotTerms(f, w', v', w, z, n - 1);
  }

  // Vandermonde: as many consecutive vanishing power sums as distinct nonzero locators force
  // every weight to be zero.
  lemma {:induction false} Vandermonde(f: GF, w: seq<nat>, xs: seq<nat>, k0: nat)
    requires Primitive(f) && |w| == |xs| && IsSyms(f, w) && IsSyms(f, xs) && Distinct(xs)
    requires forall j :: 0 <= j < |xs| ==> xs[j] != 0
    requires forall k :: k0 <= k < k0 + |xs| ==> PowerSum(f, w, xs, k) == 0
    ensures forall j :: 0 <= j < |w| ==> w[j] == 0
    decreases |xs|
  {
    hide Xor, Mul, PowerSum;
    var n := |xs|;
    if n > 0 {
      var x := xs[n - 1];
      var w', ys := Eliminate(f, w, xs), xs[..n - 1];
      forall k | k0 <= k < k0 + (n - 1) ensures PowerSum(f, w', ys, k) == 0 {
        EliminateSum(f, w, xs, k);
        MulZero(f, x);
        XorZero(0);
      }
      Vandermonde(f, w', ys, k0);
      forall j | 0 <= j < n - 1 ensures w[j] == 0 {
        assert w'[j] == 0;
        SymXor(f, xs[j], x);
        XorCancel(xs[j], x);
        NoZeroDivisors(f, Xor(xs[j], x), w[j]);
      }
      LastWeight(f, w, xs, k0);
    }
  }

  lemma LastWeight(f: GF, w: seq<nat>, xs: seq<nat>, k: nat)
    requires Primitive(f) && |w| == |xs| > 0 && IsSyms(f, w) && IsSyms(f, xs) && xs[|xs| - 1] != 0
    requires forall j :: 0 <= j < |xs| - 1 ==> w[j] == 0
    requires PowerSum(f, w, xs, k) == 0
    ensures w[|xs| - 1] == 0
  {
    var n := |xs|;
    var v := PowersOf(f, xs, k);
    hide Xor, Mul;
    DotSingle(f, w, v, n - 1, n);
    PowRange(f, xs[n - 1], k);
    NoZeroDivisors(f, w[n - 1], v[n - 1]);
  }

  // ----- convolving a power-sum sequence

  /** Coefficient k of p(z) / (1 - x z) for every locator x. */
  function QuoOf(f: GF, p: seq<nat>, xs: seq<nat>, k: nat): (r: seq<nat>)
    ensures |r| == |xs| && forall j :: 0 <= j < |xs| ==> r[j] == Quo(f, p, xs[j], k)
  {
    seq(|xs|, j requires 0 <= j < |xs| => Quo(f, p, xs[j], k))
  }

  /** The first n terms of the same coefficients. */
  function PartialQuoOf(f: GF, p: seq<nat>, xs: seq<nat>, k: nat, n: nat): (r: seq<nat>)
    ensures |r| == |xs| && forall j :: 0 <= j < |xs| ==> r[j] == Dot(f, p, PowersDown(f, xs[j], k), n)
  {
    seq(|xs|, j requires 0 <= j < |xs| => Dot(f, p, PowersDown(f, xs[j], k), n))
  }

  ghost predicate SumsTo(f: GF, s: seq<nat>, w: seq<nat>, xs: seq<nat>, n: nat) {
    |w| == |xs| && forall k :: 0 <= k < n ==> At(s, k) == PowerSum(f, w, xs, k)
  }

  lemma {:induction false} ConvTerms(f: GF, p: seq<nat>, s: seq<nat>, w: seq<nat>, xs: seq<nat>, k: nat, n: nat)
    requires Primitive(f) && SumsTo(f, s, w, xs, k + 1) && n <= k + 1
    ensures Dot(f, p, Reverse(s, k), n) == Dot(f, w, PartialQuoOf(f, p, xs, k, n), |xs|)
  {
    hide Xor, Mul;
    if n == 0 {
      forall j | 0 <= j < |xs| ensures At(PartialQuoOf(f, p, xs, k, 0), j) == 0 {}
      DotExtend(f, w, PartialQuoOf(f, p, xs, k, 0), 0, |xs|);
    } else {
      ConvTerms(f, p, s, w, xs, k, n - 1);
      var v, v', c := PartialQuoOf(f, p, xs, k, n - 1), PartialQuoOf(f, p, xs, k, n), At(p, n - 1);
      var u := PowersOf(f, xs, k - (n - 1));
      forall j | 0 <= j < |xs| ensures At(v', j) == Xor(At(v, j), Mul(f, c, At(u, j))) {
      }
      DotLinear(f, w, v, c, u, v', |xs|);
    }
  }

  // Convolving the power sums of the locators sums the quotients at the locators.
  lemma ConvPowerSums(f: GF, p: seq<nat>, s: seq<nat>, w: seq<nat>, xs: seq<nat>, k: nat)
    requires Primitive(f) && SumsTo(f, s, w, xs, k + 1)
    ensures Conv(f, p, s, k) == Dot(f, w, QuoOf(f, p, xs, k), |xs|)
  {
    ConvTerms(f, p, s, w, xs, k, k + 1);
    hide Xor, Mul;
    DotTerms(f, w, PartialQuoOf(f, p, xs, k, k + 1), w, QuoOf(f, p, xs, k), |xs|);
  }
}
