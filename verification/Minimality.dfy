/** The length found by the iteration is the least possible, and the locator is unique when twice
    the length does not exceed the syndromes plus the erasures. */
module Minimality {
  import opened Bits
  import opened Field
  import opened Poly
  import opened BerlekampMassey
  import opened Forney
  import opened Code
  import opened Chien

  // ----- convolutions commute

  /** The first n coefficients of the product of p and s. */
  function Series(f: GF, p: seq<nat>, s: seq<nat>, n: nat): (r: seq<nat>)
    ensures |r| == n && forall k :: 0 <= k < n ==> r[k] == Conv(f, p, s, k)
  {
    seq(n, k requires 0 <= k < n => Conv(f, p, s, k))
  }

  /** The first n terms of q against s read backwards from k. */
  function Partial(f: GF, q: seq<nat>, s: seq<nat>, k: nat, n: nat): nat {
    Dot(f, q, Reverse(s, k), n)
  }

  function Columns(f: GF, q: seq<nat>, s: seq<nat>, k: nat, n: nat): (r: seq<nat>)
    ensures |r| == k + 1 && forall j :: 0 <= j <= k ==> r[j] == Partial(f, q, s, k - j, n)
  {
    seq(k + 1, j requires 0 <= j <= k => Partial(f, q, s, k - j, n))
  }

  lemma ReverseShort(f: GF, p: seq<nat>, s: seq<nat>, k: nat, n: nat)
    requires k + 1 <= n
    ensures Dot(f, p, Reverse(s, k), n) == Conv(f, p, s, k)
  {
    hide Xor, Mul;
    DotExtend(f, p, Reverse(s, k), k + 1, n);
  }

  lemma {:induction false} SwapSums(f: GF, q: seq<nat>, p: seq<nat>, s: seq<nat>, k: nat, n: nat, m: nat)
    requires Primitive(f) && n <= k + 1 && k < m
    ensures Dot(f, q, Reverse(Series(f, p, s, m), k), n) == Dot(f, p, Columns(f, q, s, k, n), k + 1)
  {
    hide Xor, Mul, Conv, Primitive;
    if n == 0 {
      DotExtend(f, p, Columns(f, q, s, k, 0), 0, k + 1);
    } else {
      SwapSums(f, q, p, s, k, n - 1, m);
      var v, v', c, u := Columns(f, q, s, k, n - 1), Columns(f, q, s, k, n), At(q, n - 1), Reverse(s, k - (n - 1));
      forall j | 0 <= j < k + 1 ensures At(v', j) == Xor(At(v, j), Mul(f, c, At(u, j))) {
      }
      DotLinear(f, p, v, c, u, v', k + 1);
      ReverseShort(f, p, s, k - (n - 1), k + 1);
      assert At(Reverse(Series(f, p, s, m), k), n - 1) == Conv(f, p, s, k - (n - 1));
    }
  }

  lemma ConvCommutes(f: GF, q: seq<nat>, p: seq<nat>, s: seq<nat>, k: nat, m: nat)
    requires Primitive(f) && k < m
    ensures Conv(f, q, Series(f, p, s, m), k) == Conv(f, p, Series(f, q, s, m), k)
  {
    SwapSums(f, q, p, s, k, k + 1, m);
    ColumnsAreSeries(f, q, s, k, m);
  }

  lemma ColumnsAreSeries(f: GF, q: seq<nat>, s: seq<nat>, k: nat, m: nat)
    requires k < m
    ensures Columns(f, q, s, k, k + 1) == Reverse(Series(f, q, s, m), k)
  {
    var u, v := Columns(f, q, s, k, k + 1), Reverse(Series(f, q, s, m), k);
    hide Conv, Dot;
    forall j | 0 <= j <= k ensures u[j] == v[j] {
      ReverseShort(f, q, s, k - j, k + 1);
    }
  }

  // ----- products keep the roots of their factors

  /** The first n coefficients of the product of p and w, divided by 1 - x z, factor by factor. */
  lemma {:induction false} QuoOfProduct(f: GF, p: seq<nat>, w: seq<nat>, x: nat, n: nat, k: nat)
    requires Primitive(f) && IsSyms(f, p) && k < n
    ensures Quo(f, Series(f, p, w, n), x, k) == Conv(f, Quotient(f, p, x, n), w, k)
  {
    hide Xor, Mul, Conv, Quo, Primitive;
    var pw, q := Series(f, p, w, n), Quotient(f, p, x, n);
    SeriesRange(f, p, w, n);
    if k == 0 {
      QuoZero(f, pw, x);
      QuoZero(f, p, x);
      ConvFirst(f, p, q, w);
    } else {
      QuoOfProduct(f, p, w, x, n, k - 1);
      QuoStep(f, pw, x, k);
      ConvOfQuotient(f, p, w, x, n, k);
    }
  }

  lemma SeriesRange(f: GF, p: seq<nat>, w: seq<nat>, n: nat)
    ensures IsSyms(f, Series(f, p, w, n))
  {
    forall k | 0 <= k < n ensures IsSym(f, Conv(f, p, w, k)) {
      DotRange(f, p, Reverse(w, k), k + 1);
    }
  }

  lemma ConvFirst(f: GF, p: seq<nat>, q: seq<nat>, w: seq<nat>)
    requires At(p, 0) == At(q, 0)
    ensures Conv(f, p, w, 0) == Conv(f, q, w, 0)
  {
    hide Xor, Mul;
    DotTerms(f, p, Reverse(w, 0), q, Reverse(w, 0), 1);
  }

  function Head(p: seq<nat>, n: nat): (r: seq<nat>)
    ensures |r| == n && forall i :: 0 <= i < n ==> r[i] == At(p, i)
  {
    seq(n, i requires 0 <= i < n => At(p, i))
  }

  // Coefficient by coefficient, the quotient is p plus x z times the quotient.
  lemma QuotientEquation(f: GF, p: seq<nat>, x: nat, n: nat)
    requires Primitive(f) && IsSyms(f, p) && n >= 1
    ensures Quotient(f, p, x, n) == AddMul(f, Head(p, n), x, Shifted(Quotient(f, p, x, n)))
  {
    var q, p' := Quotient(f, p, x, n), Head(p, n);
    var zq := Shifted(q);
    hide Xor, Mul, Quo, Primitive;
    forall i | 0 <= i < n ensures q[i] == Xor(p'[i], Mul(f, x, zq[i])) {
      if i == 0 {
        QuoZero(f, p, x);
        MulZero(f, x);
        XorZero(p'[0]);
      } else {
        QuoStep(f, p, x, i);
      }
    }
  }

  lemma HeadConv(f: GF, p: seq<nat>, w: seq<nat>, n: nat, k: nat)
    requires k < n
    ensures Conv(f, Head(p, n), w, k) == Conv(f, p, w, k)
  {
    hide Xor, Mul;
    DotTerms(f, Head(p, n), Reverse(w, k), p, Reverse(w, k), k + 1);
  }

  lemma ConvAddMul(f: GF, p: seq<nat>, c: nat, q: seq<nat>, w: seq<nat>, k: nat)
    requires Primitive(f) && |p| == |q|
    ensures Conv(f, AddMul(f, p, c, q), w, k) == Xor(Conv(f, p, w, k), Mul(f, c, Conv(f, q, w, k)))
  {
    hide Xor, Mul, Primitive;
    DotLinearLeft(f, p, c, q, AddMul(f, p, c, q), Reverse(w, k), k + 1);
  }

  lemma ConvOfQuotient(f: GF, p: seq<nat>, w: seq<nat>, x: nat, n: nat, k: nat)
    requires Primitive(f) && IsSyms(f, p) && 1 <= k < n
    ensures Conv(f, Quotient(f, p, x, n), w, k)
         == Xor(Conv(f, p, w, k), Mul(f, x, Conv(f, Quotient(f, p, x, n), w, k - 1)))
  {
    var q := Quotient(f, p, x, n);
    hide *;
    QuotientEquation(f, p, x, n);
    HeadConv(f, p, w, n, k);
    ConvAddMul(f, Head(p, n), x, Shifted(q), w, k);
    ConvShift(f, q, w, k);
  }

  // If p vanishes at x, so does its product with any polynomial.
  lemma ProductVanishes(f: GF, p: seq<nat>, w: seq<nat>, x: nat, d: nat, e: nat, n: nat)
    requires Primitive(f) && IsSyms(f, p) && IsSym(f, x) && x != 0 && DegreeAtMost(p, d) && Quo(f, p, x, d) == 0
    requires (forall i :: e <= i < |w| ==> w[i] == 0) && d + e <= n && n > 0
    ensures Quo(f, Series(f, p, w, n), x, n - 1) == 0
  {
    QuoOfProduct(f, p, w, x, n, n - 1);
    var q, v := Quotient(f, p, x, n), Reverse(w, n - 1);
    hide Xor, Mul, Quo, Primitive;
    forall i | 0 <= i < n ensures At(q, i) == 0 || At(v, i) == 0 {
      if i >= d {
        QuoBeyond(f, p, x, d, i);
      } else {
        assert n - 1 - i >= e;
      }
    }
    DotExtend(f, q, v, 0, n);
    DotStart(f, q, v);
  }

  // ----- two recurrences for the same syndromes

  /** The first el coefficients of the product of p and s: the evaluator of p. */
  function Low(f: GF, p: seq<nat>, s: seq<nat>, el: nat, n: nat): (r: seq<nat>)
    ensures |r| == n && forall k :: 0 <= k < n ==> r[k] == if k < el then Conv(f, p, s, k) else 0
  {
    seq(n, k requires 0 <= k < n => if k < el then Conv(f, p, s, k) else 0)
  }

  /** A recurrence of length el for the syndromes below r that respects the erasures es. */
  ghost predicate Recurrence(f: GF, s: seq<nat>, es: seq<nat>, p: seq<nat>, el: nat, r: nat) {
    && IsSyms(f, p) && |p| == |s| + 1 && el <= |s| && r <= |s|
    && DegreeAtMost(p, el)
    && VanishesAt(f, p, es)
    && Annihilates(f, p, s, el, r)
  }

  /** q times the evaluator of p plus p times the evaluator of q. */
  function Cross(f: GF, s: seq<nat>, p: seq<nat>, elp: nat, q: seq<nat>, elq: nat, n: nat): (d: seq<nat>)
    ensures |d| == n
    ensures forall k :: 0 <= k < n ==>
      d[k] == Xor(Conv(f, q, Low(f, p, s, elp, |s|), k), Conv(f, p, Low(f, q, s, elq, |s|), k))
  {
    seq(n, k requires 0 <= k < n => Xor(Conv(f, q, Low(f, p, s, elp, |s|), k), Conv(f, p, Low(f, q, s, elq, |s|), k)))
  }

  // While p annihilates, its evaluator agrees with its whole series.
  lemma LowIsSeries(f: GF, s: seq<nat>, p: seq<nat>, elp: nat, q: seq<nat>, k: nat)
    requires Annihilates(f, p, s, elp, k + 1) && k < |s|
    ensures Conv(f, q, Low(f, p, s, elp, |s|), k) == Conv(f, q, Series(f, p, s, |s|), k)
  {
    var u, v := Reverse(Low(f, p, s, elp, |s|), k), Reverse(Series(f, p, s, |s|), k);
    forall i | 0 <= i <= k ensures u[i] == v[i] {
      hide Conv;
    }
    hide Xor, Mul;
    DotTerms(f, q, u, q, v, k + 1);
  }

  lemma CrossBelow(f: GF, s: seq<nat>, p: seq<nat>, elp: nat, q: seq<nat>, elq: nat, n: nat, k: nat)
    requires Primitive(f) && Annihilates(f, p, s, elp, k + 1) && Annihilates(f, q, s, elq, k + 1) && k < |s| && k < n
    ensures Cross(f, s, p, elp, q, elq, n)[k] == 0
  {
    hide Conv, Xor, Primitive, Annihilates, Low, Series;
    LowIsSeries(f, s, p, elp, q, k);
    LowIsSeries(f, s, q, elq, p, k);
    ConvCommutes(f, q, p, s, k, |s|);
    XorSelf(Conv(f, p, Series(f, q, s, |s|), k));
  }

  // The first discrepancy of p shows up undisturbed.
  lemma CrossAt(f: GF, s: seq<nat>, p: seq<nat>, elp: nat, q: seq<nat>, elq: nat, n: nat, r: nat)
    requires Primitive(f) && |q| > 0 && q[0] == 1 && elp <= r < |s| && r < n
    requires Annihilates(f, p, s, elp, r) && Annihilates(f, q, s, elq, r + 1)
    ensures Cross(f, s, p, elp, q, elq, n)[r] == Conv(f, p, s, r)
  {
    var a, b, d := Conv(f, q, Low(f, p, s, elp, |s|), r), Conv(f, p, Low(f, q, s, elq, |s|), r), Conv(f, p, s, r);
    hide Conv, Xor, Primitive, Annihilates, Low, Series;
    LowIsSeries(f, s, q, elq, p, r);
    ConvCommutes(f, q, p, s, r, |s|);
    FirstDiscrepancy(f, s, p, elp, q, r);
    assert b == Xor(d, a);
    XorComm(d, a);
    XorCancel(a, d);
  }

  lemma FirstDiscrepancy(f: GF, s: seq<nat>, p: seq<nat>, elp: nat, q: seq<nat>, r: nat)
    requires Primitive(f) && |q| > 0 && q[0] == 1 && elp <= r < |s| && Annihilates(f, p, s, elp, r)
    ensures Conv(f, q, Series(f, p, s, |s|), r) == Xor(Conv(f, p, s, r), Conv(f, q, Low(f, p, s, elp, |s|), r))
  {
    var u, v := Reverse(Series(f, p, s, |s|), r), Reverse(Low(f, p, s, elp, |s|), r);
    SeriesRange(f, p, s, |s|);
    forall i | 1 <= i <= r ensures u[i] == v[i] {
      hide Conv;
    }
    assert u[0] == Conv(f, p, s, r) && v[0] == 0;
    hide Xor, Mul, Primitive, Low, Series;
    DotFirst(f, q, u, q[1..], u[1..], r);
    DotFirst(f, q, v, q[1..], v[1..], r);
    assert u[1..] == v[1..];
    PrimitiveWide(f);
    MulOne(f, u[0]);
    MulZero(f, 1);
    var t := Dot(f, q[1..], v[1..], r);
    XorComm(0, t);
    XorZero(t);
  }

  lemma ConvBeyond(f: GF, q: seq<nat>, w: seq<nat>, d: nat, e: nat, k: nat)
    requires DegreeAtMost(q, d) && (forall i :: e <= i < |w| ==> w[i] == 0) && d + e <= k
    ensures Conv(f, q, w, k) == 0
  {
    var v := Reverse(w, k);
    hide Xor, Mul;
    forall i | 0 <= i <= k ensures At(q, i) == 0 || At(v, i) == 0 {
      if i <= d {
        assert k - i >= e;
      }
    }
    DotExtend(f, q, v, 0, k + 1);
    DotStart(f, q, v);
  }

  lemma CrossBeyond(f: GF, s: seq<nat>, p: seq<nat>, elp: nat, q: seq<nat>, elq: nat, n: nat, k: nat)
    requires DegreeAtMost(p, elp) && DegreeAtMost(q, elq) && elp + elq <= k < n
    ensures Cross(f, s, p, elp, q, elq, n)[k] == 0
  {
    hide Conv, Xor, DegreeAtMost;
    ConvBeyond(f, q, Low(f, p, s, elp, |s|), elq, elp, k);
    ConvBeyond(f, p, Low(f, q, s, elq, |s|), elp, elq, k);
    XorZero(0);
  }

  lemma CrossSyms(f: GF, s: seq<nat>, p: seq<nat>, elp: nat, q: seq<nat>, elq: nat, n: nat)
    requires Primitive(f)
    ensures IsSyms(f, Cross(f, s, p, elp, q, elq, n))
    ensures Cross(f, s, p, elp, q, elq, n)
         == AddMul(f, Series(f, q, Low(f, p, s, elp, |s|), n), 1, Series(f, p, Low(f, q, s, elq, |s|), n))
  {
    PrimitiveWide(f);
    hide Conv, Xor, Mul, Primitive;
    var a, b := Series(f, q, Low(f, p, s, elp, |s|), n), Series(f, p, Low(f, q, s, elq, |s|), n);
    SeriesRange(f, q, Low(f, p, s, elp, |s|), n);
    SeriesRange(f, p, Low(f, q, s, elq, |s|), n);
    forall k | 0 <= k < n ensures Mul(f, 1, b[k]) == b[k] && IsSym(f, Xor(a[k], b[k])) {
      MulOne(f, b[k]);
      SymXor(f, a[k], b[k]);
    }
  }

  // The cross polynomial vanishes at every erasure locator.
  lemma CrossVanishes(f: GF, s: seq<nat>, es: seq<nat>, p: seq<nat>, elp: nat, q: seq<nat>, elq: nat, r: nat, n: nat,
                      j: nat)
    requires Primitive(f) && Locators(f, es) && j < |es| && n > 0 && elp + elq <= n
    requires Recurrence(f, s, es, p, elp, r) && Recurrence(f, s, es, q, elq, r)
    ensures Quo(f, Cross(f, s, p, elp, q, elq, n), es[j], n - 1) == 0
  {
    var x := es[j];
    var u, v := Low(f, p, s, elp, |s|), Low(f, q, s, elq, |s|);
    CrossSyms(f, s, p, elp, q, elq, n);
    assert Quo(f, p, x, |s|) == 0 && Quo(f, q, x, |s|) == 0;
    hide Conv, Xor, Mul, Quo, Primitive, Cross;
    QuoBeyond(f, p, x, elp, |s|);
    QuoBeyond(f, q, x, elq, |s|);
    ProductVanishes(f, q, u, x, elq, elp, n);
    ProductVanishes(f, p, v, x, elp, elq, n);
    QuoAddMul(f, Series(f, q, u, n), 1, Series(f, p, v, n), x, n - 1);
    MulZero(f, 1);
    XorZero(0);
  }

  // A polynomial that starts with r zeros and vanishes at as many points as it has further
  // coefficients is zero.
  lemma ZeroTail(f: GF, d: seq<nat>, es: seq<nat>, r: nat)
    requires Primitive(f) && IsSyms(f, d) && Locators(f, es) && Distinct(es) && |d| == r + |es| && |es| > 0
    requires forall k :: 0 <= k < r ==> d[k] == 0
    requires forall j :: 0 <= j < |es| ==> Quo(f, d, es[j], |d| - 1) == 0
    ensures d[r] == 0
  {
    var e := d[r..];
    hide Quo, Primitive;
    forall j | 0 <= j < |es| ensures Quo(f, e, es[j], |e| - 1) == 0 {
      QuoPadded(f, r, e, d, es[j], |d| - 1);
    }
    RootCount(f, e, es);
    assert d[r] == e[0];
  }

  // With too few coefficients left after the zeros, the cross polynomial is zero at r.
  lemma CrossZero(f: GF, s: seq<nat>, es: seq<nat>, p: seq<nat>, elp: nat, q: seq<nat>, elq: nat, r: nat)
    requires Primitive(f) && Locators(f, es) && Distinct(es) && r < |s|
    requires Recurrence(f, s, es, p, elp, r) && Recurrence(f, s, es, q, elq, r)
    requires elp + elq <= r + |es|
    ensures Cross(f, s, p, elp, q, elq, r + 1 + |es|)[r] == 0
  {
    var n := r + |es|;
    hide Conv, Xor, Mul, Quo, Primitive;
    if |es| == 0 {
      CrossBeyond(f, s, p, elp, q, elq, r + 1, r);
    } else {
      CrossSyms(f, s, p, elp, q, elq, n);
      forall k | 0 <= k < r ensures Cross(f, s, p, elp, q, elq, n)[k] == 0 {
        CrossBelow(f, s, p, elp, q, elq, n, k);
      }
      forall j | 0 <= j < |es| ensures Quo(f, Cross(f, s, p, elp, q, elq, n), es[j], n - 1) == 0 {
        CrossVanishes(f, s, es, p, elp, q, elq, r, n, j);
      }
      hide Recurrence;
      ZeroTail(f, Cross(f, s, p, elp, q, elq, n), es, r);
    }
  }

  // Two recurrences of which one fails first at r: their lengths add up to more than r.
  lemma PairBound(f: GF, s: seq<nat>, es: seq<nat>, p: seq<nat>, elp: nat, q: seq<nat>, elq: nat, r: nat)
    requires Primitive(f) && Locators(f, es) && Distinct(es) && r < |s| && elp <= r
    requires Recurrence(f, s, es, p, elp, r) && Recurrence(f, s, es, q, elq, r + 1) && q[0] == 1
    requires Conv(f, p, s, r) != 0
    ensures r + 1 + |es| <= elp + elq
  {
    hide Conv, Primitive;
    CrossAt(f, s, p, elp, q, elq, r + 1 + |es|, r);
    if elp + elq <= r + |es| {
      CrossZero(f, s, es, p, elp, q, elq, r);
    }
  }

  // ----- the iteration finds a shortest recurrence

  lemma RecurrenceShorter(f: GF, s: seq<nat>, es: seq<nat>, q: seq<nat>, el: nat, n: nat, r: nat)
    requires Recurrence(f, s, es, q, el, n) && r <= n
    ensures Recurrence(f, s, es, q, el, r)
  {
    hide Conv, Quo;
  }

  lemma InvariantRecurrence(f: GF, s: seq<nat>, es: seq<nat>, r: nat, st: State)
    requires Invariant(f, s, es, r, st)
    ensures Recurrence(f, s, es, st.lambda, st.el, r) && st.lambda[0] == 1 && st.el <= r
  {
    hide Conv, Quo;
  }

  lemma {:induction false} LeastLengthSoFar(f: GF, s: seq<nat>, es: seq<nat>, q: seq<nat>, el: nat, r: nat)
    requires Primitive(f) && Locators(f, es) && Distinct(es) && |es| <= r <= |s|
    requires Recurrence(f, s, es, q, el, |s|) && q[0] == 1
    ensures Run(f, s, |es|, ErasureLocator(f, es, |s|), r).el <= el
  {
    hide Xor, Mul, Quo, Conv, Primitive, ErasureLocator, Invariant;
    if r == |es| {
      RootsAtMostDegree(f, q, el, es);
    } else {
      LeastLengthSoFar(f, s, es, q, el, r - 1);
      RunKeeps(f, s, es, r - 1);
      var st := Run(f, s, |es|, ErasureLocator(f, es, |s|), r - 1);
      InvariantRecurrence(f, s, es, r - 1, st);
      RecurrenceShorter(f, s, es, q, el, |s|, r);
      hide Recurrence;
      if Conv(f, st.lambda, s, r - 1) != 0 {
        PairBound(f, s, es, st.lambda, st.el, q, el, r - 1);
      }
    }
  }

  // No recurrence for all syndromes that respects the erasures is shorter than the one found.
  lemma LeastLength(f: GF, s: seq<nat>, es: seq<nat>, q: seq<nat>, el: nat)
    requires Primitive(f) && Locators(f, es) && Distinct(es) && |es| <= |s|
    requires Recurrence(f, s, es, q, el, |s|) && q[0] == 1
    ensures var st := Run(f, s, |es|, ErasureLocator(f, es, |s|), |s|);
      st.el <= el && Recurrence(f, s, es, st.lambda, st.el, |s|)
  {
    hide Xor, Mul, Quo, Conv, Primitive, ErasureLocator, Invariant, Recurrence, Run;
    LeastLengthSoFar(f, s, es, q, el, |s|);
    RunKeeps(f, s, es, |s|);
    InvariantRecurrence(f, s, es, |s|, Run(f, s, |es|, ErasureLocator(f, es, |s|), |s|));
  }

  // ----- uniqueness

  /** p divided by z^a, in an array of the same length. */
  function Drop(p: seq<nat>, a: nat): (r: seq<nat>)
    requires a <= |p|
    ensures |r| == |p| && forall i :: 0 <= i < |p| ==> r[i] == if i + a < |p| then p[i + a] else 0
  {
    p[a..] + seq(a, _ => 0)
  }

  lemma DropConv(f: GF, p: seq<nat>, a: nat, s: seq<nat>, k: nat)
    requires a <= |p| && forall i :: 0 <= i < a ==> p[i] == 0
    ensures Conv(f, p, s, k + a) == Conv(f, Drop(p, a), s, k)
    decreases a
  {
    hide Xor, Mul;
    if a == 0 {
      assert Drop(p, 0) == p;
    } else {
      var q := Drop(p, 1);
      DropConv(f, q, a - 1, s, k);
      assert Drop(q, a - 1) == Drop(p, a);
      var v := Reverse(s, k + a);
      DotFirst(f, p, v, q, Reverse(s, k + a - 1), k + a);
      MulZero(f, v[0]);
      var t := Conv(f, q, s, k + a - 1);
      XorComm(0, t);
      XorZero(t);
    }
  }

  lemma DropVanishes(f: GF, p: seq<nat>, a: nat, d: nat, x: nat)
    requires Primitive(f) && IsSyms(f, p) && IsSym(f, x) && x != 0 && a <= d < |p| && DegreeAtMost(p, d)
    requires (forall i :: 0 <= i < a ==> p[i] == 0) && Quo(f, p, x, |p| - 1) == 0
    ensures Quo(f, Drop(p, a), x, |p| - 1) == 0
  {
    var q, h := Drop(p, a), p[a..];
    SymZero(f);
    assert IsSyms(f, q);
    hide Xor, Mul, Quo, Primitive;
    QuoPadded(f, a, h, p, x, |p| - 1);
    var k := |h| - 1;
    assert Quo(f, h, x, k) == Quo(f, q, x, k) by {
      SameHead(f, h, q, x, k);
    }
    QuoBeyond(f, q, x, k, |p| - 1);
  }

  lemma SameHead(f: GF, p: seq<nat>, q: seq<nat>, x: nat, k: nat)
    requires forall i :: 0 <= i <= k ==> At(p, i) == At(q, i)
    ensures Quo(f, p, x, k) == Quo(f, q, x, k)
  {
    hide Xor, Mul;
    DotTerms(f, p, PowersDown(f, x, k), q, PowersDown(f, x, k), k + 1);
  }

  // The difference of two recurrences, divided by its lowest power of z and made monic, is a
  // shorter recurrence for fewer syndromes.
  lemma DifferenceRecurrence(f: GF, s: seq<nat>, es: seq<nat>, d: seq<nat>, el: nat, a: nat)
    requires Primitive(f) && Locators(f, es) && Recurrence(f, s, es, d, el, |s|)
    requires 1 <= a <= el && d[a] != 0 && forall i :: 0 <= i < a ==> d[i] == 0
    ensures IsSym(f, d[a])
    ensures var q := Scaled(f, Inv(f, d[a]), Drop(d, a));
      q[0] == 1 && Recurrence(f, s, es, q, el - a, |s| - a)
  {
    hide Xor, Mul, Quo, Conv, Primitive, Inv;
    var p, n := Drop(d, a), |s|;
    SymZero(f);
    var c := Inv(f, d[a]);
    var q := Scaled(f, c, p);
    MulInv(f, d[a]);
    MulComm(f, c, d[a]);
    MulZero(f, c);
    forall j | 0 <= j < |es| ensures Quo(f, p, es[j], n) == 0 {
      assert Quo(f, d, es[j], n) == 0;
      DropVanishes(f, d, a, el, es[j]);
    }
    ScaledKeeps(f, s, es, c, p);
    forall k | el - a <= k < n - a ensures Conv(f, q, s, k) == 0 {
      DropConv(f, d, a, s, k);
    }
  }

  // A recurrence that is too short to fail against lambda never fails.
  lemma {:induction false} NeverFails(f: GF, s: seq<nat>, es: seq<nat>, p: seq<nat>, elp: nat, q: seq<nat>, elq: nat,
                                      n: nat, r: nat)
    requires Primitive(f) && Locators(f, es) && Distinct(es) && n <= r <= |s| && elp <= n
    requires Recurrence(f, s, es, p, elp, n) && Recurrence(f, s, es, q, elq, |s|) && q[0] == 1
    requires elp + elq < n + 1 + |es|
    ensures Recurrence(f, s, es, p, elp, r)
    decreases r
  {
    hide Conv, Primitive, Quo;
    if r > n {
      NeverFails(f, s, es, p, elp, q, elq, n, r - 1);
      RecurrenceShorter(f, s, es, q, elq, |s|, r);
      if Conv(f, p, s, r - 1) != 0 {
        PairBound(f, s, es, p, elp, q, elq, r - 1);
      }
    }
  }

  lemma DifferenceIsRecurrence(f: GF, s: seq<nat>, es: seq<nat>, p: seq<nat>, q: seq<nat>, el: nat)
    requires Primitive(f) && Recurrence(f, s, es, p, el, |s|) && Recurrence(f, s, es, q, el, |s|)
    ensures Recurrence(f, s, es, AddMul(f, p, 1, q), el, |s|)
  {
    hide Conv, Primitive, Quo, Xor, Mul;
    AddMulKeeps(f, s, es, p, 1, q);
    MulZero(f, 1);
    XorZero(0);
  }

  function FirstNonzero(d: seq<nat>): (a: nat)
    ensures a <= |d| && (forall i :: 0 <= i < a ==> d[i] == 0) && (a < |d| ==> d[a] != 0)
  {
    if |d| == 0 || d[0] != 0 then 0 else 1 + FirstNonzero(d[1..])
  }

  // A nonzero difference would give a recurrence shorter than the shortest.
  lemma DifferenceTooShort(f: GF, s: seq<nat>, es: seq<nat>, p: seq<nat>, d: seq<nat>, el: nat, a: nat)
    returns (q: seq<nat>)
    requires Primitive(f) && Locators(f, es) && Distinct(es) && |es| <= |s|
    requires Recurrence(f, s, es, p, el, |s|) && p[0] == 1 && Recurrence(f, s, es, d, el, |s|)
    requires 1 <= a <= el && d[a] != 0 && forall i :: 0 <= i < a ==> d[i] == 0
    requires 2 * el <= |s| + |es|
    ensures Recurrence(f, s, es, q, el - a, |s|) && q[0] == 1
  {
    DifferenceRecurrence(f, s, es, d, el, a);
    q := Scaled(f, Inv(f, d[a]), Drop(d, a));
    hide Conv, Primitive, Quo, Inv, Drop, Scaled;
    NeverFails(f, s, es, q, el - a, p, el, |s| - a, |s|);
  }

  lemma DifferenceStart(f: GF, p: seq<nat>, q: seq<nat>)
    requires Primitive(f) && |p| == |q| > 0 && p[0] == 1 && q[0] == 1
    ensures AddMul(f, p, 1, q)[0] == 0
  {
    PrimitiveWide(f);
    NNPositive(f);
    hide Primitive, Xor, Mul;
    MulOne(f, 1);
    XorSelf(1);
  }

  // Two recurrences of the least length are equal.
  lemma ShortestEqual(f: GF, s: seq<nat>, es: seq<nat>, p: seq<nat>, q: seq<nat>, el: nat)
    requires Primitive(f) && Locators(f, es) && Distinct(es) && |es| <= |s|
    requires Recurrence(f, s, es, p, el, |s|) && p[0] == 1 && Recurrence(f, s, es, q, el, |s|) && q[0] == 1
    requires 2 * el <= |s| + |es|
    requires el == Run(f, s, |es|, ErasureLocator(f, es, |s|), |s|).el
    ensures p == q
  {
    hide Conv, Primitive, Quo, Xor, Mul, Run, ErasureLocator, VanishesAt, Annihilates, AddMul, IsSyms;
    var d := AddMul(f, p, 1, q);
    DifferenceIsRecurrence(f, s, es, p, q, el);
    DifferenceStart(f, p, q);
    ZeroSum(f, p, q);
    var a := FirstNonzero(d);
    if a < |d| {
      var t := DifferenceTooShort(f, s, es, p, d, el, a);
      LeastLength(f, s, es, t, el - a);
    }
  }

  lemma LocatorUnique(f: GF, s: seq<nat>, es: seq<nat>, q: seq<nat>)
    requires Primitive(f) && Locators(f, es) && Distinct(es) && |es| <= |s| && |q| > 0 && q[0] == 1
    ensures var st := Run(f, s, |es|, ErasureLocator(f, es, |s|), |s|);
      2 * st.el <= |s| + |es| && Recurrence(f, s, es, q, st.el, |s|) ==> q == st.lambda
  {
    var st := Run(f, s, |es|, ErasureLocator(f, es, |s|), |s|);
    hide *;
    FinalRecurrence(f, s, es);
    if 2 * st.el <= |s| + |es| && Recurrence(f, s, es, q, st.el, |s|) {
      ShortestEqual(f, s, es, st.lambda, q, st.el);
    }
  }

  lemma FinalRecurrence(f: GF, s: seq<nat>, es: seq<nat>)
    requires Primitive(f) && Locators(f, es) && |es| <= |s|
    ensures var st := Run(f, s, |es|, ErasureLocator(f, es, |s|), |s|);
      Recurrence(f, s, es, st.lambda, st.el, |s|) && st.lambda[0] == 1
  {
    hide *;
    RunKeeps(f, s, es, |s|);
    InvariantRecurrence(f, s, es, |s|, Run(f, s, |es|, ErasureLocator(f, es, |s|), |s|));
  }
}
