/** The Berlekamp-Massey iteration with erasures, on polynomials, and what every step keeps. */
module BerlekampMassey {
  import opened Bits
  import opened Field
  import opened Poly

  datatype State = State(lambda: seq<nat>, b: seq<nat>, el: nat)

  /** z times p in an array of the same length: the top coefficient falls off. */
  function Shifted(p: seq<nat>): (r: seq<nat>)
    requires |p| > 0
    ensures |r| == |p| && r[0] == 0 && forall i :: 1 <= i < |p| ==> r[i] == p[i - 1]
  {
    [0] + p[..|p| - 1]
  }

  /** p + c q, coefficient by coefficient. */
  function AddMul(f: GF, p: seq<nat>, c: nat, q: seq<nat>): (r: seq<nat>)
    requires |p| == |q|
    ensures |r| == |p| && forall i :: 0 <= i < |p| ==> r[i] == Xor(p[i], Mul(f, c, q[i]))
  {
    seq(|p|, i requires 0 <= i < |p| => Xor(p[i], Mul(f, c, q[i])))
  }

  function Scaled(f: GF, c: nat, p: seq<nat>): (r: seq<nat>)
    ensures |r| == |p| && forall i :: 0 <= i < |p| ==> r[i] == Mul(f, c, p[i])
  {
    seq(|p|, i requires 0 <= i < |p| => Mul(f, c, p[i]))
  }

  /** The step that takes syndrome r into account, when `eras` erasures were given. */
  ghost function Step(f: GF, s: seq<nat>, eras: nat, st: State, r: nat): State
    requires Primitive(f) && |st.lambda| == |st.b| > 0
  {
    var d := Conv(f, st.lambda, s, r);
    var zb := Shifted(st.b);
    if d == 0 then
      State(st.lambda, zb, st.el)
    else if 2 * st.el <= r + eras && st.el <= r + 1 + eras then
      DotRange(f, st.lambda, Reverse(s, r), r + 1);
      State(AddMul(f, st.lambda, d, zb), Scaled(f, Inv(f, d), st.lambda), r + 1 + eras - st.el)
    else
      State(AddMul(f, st.lambda, d, zb), zb, st.el)
  }

  /** The state after the syndromes below r, starting from the erasure locator. */
  ghost function Run(f: GF, s: seq<nat>, eras: nat, locator: seq<nat>, r: nat): (st: State)
    requires Primitive(f) && |locator| > 0
    ensures |st.lambda| == |st.b| == |locator|
  {
    if r <= eras then State(locator, locator, eras) else Step(f, s, eras, Run(f, s, eras, locator, r - 1), r - 1)
  }

  // ----- linearity and shifting of convolutions and quotients

  lemma {:induction false} DotLinearLeft(f: GF, p: seq<nat>, c: nat, q: seq<nat>, t: seq<nat>, v: seq<nat>, n: nat)
    requires Primitive(f) && |p| == |q| && t == AddMul(f, p, c, q)
    ensures Dot(f, t, v, n) == Xor(Dot(f, p, v, n), Mul(f, c, Dot(f, q, v, n)))
  {
    hide Xor, Mul;
    DotComm(f, t, v, n);
    DotComm(f, p, v, n);
    DotComm(f, q, v, n);
    forall i | 0 <= i < n ensures At(t, i) == Xor(At(p, i), Mul(f, c, At(q, i))) {
      MulZero(f, c);
      XorZero(0);
    }
    DotLinear(f, v, p, c, q, t, n);
  }

  lemma DotScaledLeft(f: GF, c: nat, p: seq<nat>, v: seq<nat>, n: nat)
    requires Primitive(f)
    ensures Dot(f, Scaled(f, c, p), v, n) == Mul(f, c, Dot(f, p, v, n))
  {
    hide Xor, Mul;
    var t := Scaled(f, c, p);
    DotComm(f, t, v, n);
    DotComm(f, p, v, n);
    forall i | 0 <= i < n ensures At(t, i) == Mul(f, c, At(p, i)) {
      MulZero(f, c);
    }
    DotScale(f, v, c, p, t, n);
  }

  lemma ConvShift(f: GF, p: seq<nat>, s: seq<nat>, k: nat)
    requires 0 < |p| && k < |p|
    ensures Conv(f, Shifted(p), s, k) == if k == 0 then 0 else Conv(f, p, s, k - 1)
  {
    hide Xor, Mul;
    var u, v := Shifted(p), Reverse(s, k);
    MulZero(f, At(v, 0));
    if k == 0 {
      DotExtend(f, u, v, 0, 1);
    } else {
      DotFirst(f, u, v, p, Reverse(s, k - 1), k);
      XorComm(0, Conv(f, p, s, k - 1));
      XorZero(Conv(f, p, s, k - 1));
    }
  }

  lemma QuoShift(f: GF, p: seq<nat>, x: nat, k: nat)
    requires 1 <= k < |p|
    ensures Quo(f, Shifted(p), x, k) == Quo(f, p, x, k - 1)
  {
    hide Xor, Mul;
    var u, v := Shifted(p), PowersDown(f, x, k);
    MulZero(f, At(v, 0));
    DotFirst(f, u, v, p, PowersDown(f, x, k - 1), k);
    XorComm(0, Quo(f, p, x, k - 1));
    XorZero(Quo(f, p, x, k - 1));
  }

  // ----- the invariant

  ghost predicate DegreeAtMost(p: seq<nat>, d: int) {
    forall i :: 0 <= i < |p| && i > d ==> p[i] == 0
  }

  /** Every x in xs is the locator of a root of p. */
  ghost predicate VanishesAt(f: GF, p: seq<nat>, xs: seq<nat>)
    requires |p| > 0
  {
    forall j :: 0 <= j < |xs| ==> Quo(f, p, xs[j], |p| - 1) == 0
  }

  ghost predicate Locators(f: GF, xs: seq<nat>) {
    IsSyms(f, xs) && forall j :: 0 <= j < |xs| ==> xs[j] != 0
  }

  /** lambda generates the syndromes from index el on. */
  ghost predicate Annihilates(f: GF, p: seq<nat>, s: seq<nat>, el: nat, r: nat) {
    forall k :: el <= k < r ==> Conv(f, p, s, k) == 0
  }

  /** What holds after the syndromes below r: `es` are the erasure locators. */
  ghost predicate Invariant(f: GF, s: seq<nat>, es: seq<nat>, r: nat, st: State) {
    && |st.lambda| == |st.b| == |s| + 1
    && IsSyms(f, st.lambda) && IsSyms(f, st.b)
    && st.lambda[0] == 1
    && |es| <= st.el <= r <= |s|
    && DegreeAtMost(st.lambda, st.el)
    && DegreeAtMost(st.b, r - st.el + |es|)
    && VanishesAt(f, st.lambda, es)
    && VanishesAt(f, st.b, es)
    && Annihilates(f, st.lambda, s, st.el, r)
    && (st.el > |es| ==>
         && Annihilates(f, st.b, s, r - st.el + |es|, r - 1)
         && Conv(f, st.b, s, r - 1) == 1)
  }

  lemma ShiftedKeeps(f: GF, s: seq<nat>, es: seq<nat>, r: nat, st: State)
    requires Primitive(f) && Locators(f, es)
    requires Invariant(f, s, es, r, st) && r < |s|
    ensures var zb := Shifted(st.b);
      && IsSyms(f, zb)
      && DegreeAtMost(zb, r + 1 - st.el + |es|)
      && VanishesAt(f, zb, es)
      && (st.el > |es| ==> Annihilates(f, zb, s, r + 1 - st.el + |es|, r) && Conv(f, zb, s, r) == 1)
  {
    hide Xor, Mul, Quo, Conv;
    var zb, n := Shifted(st.b), |s|;
    assert IsSyms(f, zb) by { SymZero(f); }
    forall j | 0 <= j < |es| ensures Quo(f, zb, es[j], n) == 0 {
      QuoShift(f, st.b, es[j], n);
      QuoBeyond(f, st.b, es[j], n - 1, n);
    }
    if st.el > |es| {
      forall k | r + 1 - st.el + |es| <= k <= r ensures Conv(f, zb, s, k) == Conv(f, st.b, s, k - 1) {
        ConvShift(f, st.b, s, k);
      }
    }
  }

  lemma SymZero(f: GF)
    ensures IsSym(f, 0)
  {
  }

  lemma AddMulKeeps(f: GF, s: seq<nat>, es: seq<nat>, p: seq<nat>, c: nat, q: seq<nat>)
    requires Primitive(f) && |p| == |q| == |s| + 1 && IsSyms(f, p) && IsSyms(f, q)
    requires VanishesAt(f, p, es) && VanishesAt(f, q, es)
    ensures var t := AddMul(f, p, c, q);
      && IsSyms(f, t) && VanishesAt(f, t, es)
      && forall k: nat :: Conv(f, t, s, k) == Xor(Conv(f, p, s, k), Mul(f, c, Conv(f, q, s, k)))
  {
    var t, n := AddMul(f, p, c, q), |s|;
    hide Xor, Mul;
    forall i | 0 <= i < |t| ensures IsSym(f, t[i]) {
      SymXor(f, p[i], Mul(f, c, q[i]));
    }
    forall j | 0 <= j < |es| ensures Quo(f, t, es[j], n) == 0 {
      DotLinearLeft(f, p, c, q, t, PowersDown(f, es[j], n), n + 1);
      assert Quo(f, p, es[j], n) == 0 && Quo(f, q, es[j], n) == 0;
      MulZero(f, c);
      XorZero(0);
    }
    forall k: nat ensures Conv(f, t, s, k) == Xor(Conv(f, p, s, k), Mul(f, c, Conv(f, q, s, k))) {
      DotLinearLeft(f, p, c, q, t, Reverse(s, k), k + 1);
    }
  }

  lemma ScaledKeeps(f: GF, s: seq<nat>, es: seq<nat>, c: nat, p: seq<nat>)
    requires Primitive(f) && |p| == |s| + 1 && VanishesAt(f, p, es)
    ensures var t := Scaled(f, c, p);
      && IsSyms(f, t) && VanishesAt(f, t, es)
      && forall k: nat :: Conv(f, t, s, k) == Mul(f, c, Conv(f, p, s, k))
  {
    var t, n := Scaled(f, c, p), |s|;
    hide Xor, Mul;
    forall j | 0 <= j < |es| ensures Quo(f, t, es[j], n) == 0 {
      DotScaledLeft(f, c, p, PowersDown(f, es[j], n), n + 1);
      assert Quo(f, p, es[j], n) == 0;
      MulZero(f, c);
    }
    forall k: nat ensures Conv(f, t, s, k) == Mul(f, c, Conv(f, p, s, k)) {
      DotScaledLeft(f, c, p, Reverse(s, k), k + 1);
    }
  }

  // The updated locator: its discrepancy at r cancels.
  lemma UpdatedLocator(f: GF, s: seq<nat>, es: seq<nat>, r: nat, st: State, el': nat)
    requires Primitive(f) && Locators(f, es)
    requires Invariant(f, s, es, r, st) && r < |s|
    requires el' == if 2 * st.el <= r + |es| then r + 1 + |es| - st.el else st.el
    ensures var t := AddMul(f, st.lambda, Conv(f, st.lambda, s, r), Shifted(st.b));
      && IsSyms(f, t) && t[0] == 1 && DegreeAtMost(t, el') && VanishesAt(f, t, es)
      && Annihilates(f, t, s, el', r + 1)
  {
    ShiftedKeeps(f, s, es, r, st);
    var zb, d := Shifted(st.b), Conv(f, st.lambda, s, r);
    assert IsSym(f, d) by { DotRange(f, st.lambda, Reverse(s, r), r + 1); }
    hide Xor, Mul, Quo, Conv;
    AddMulKeeps(f, s, es, st.lambda, d, zb);
    var t := AddMul(f, st.lambda, d, zb);
    MulZero(f, d);
    XorZero(0);
    XorZero(1);
    forall k | el' <= k < r + 1 ensures Conv(f, t, s, k) == 0 {
      if k == r {
        MulComm(f, d, 1);
        MulOne(f, d);
        XorSelf(d);
      }
    }
  }

  // The locator kept at a length change, divided by its discrepancy.
  lemma SavedLocator(f: GF, s: seq<nat>, es: seq<nat>, r: nat, st: State)
    requires Primitive(f) && Invariant(f, s, es, r, st) && r < |s|
    requires Conv(f, st.lambda, s, r) != 0 && IsSym(f, Conv(f, st.lambda, s, r))
    ensures var b := Scaled(f, Inv(f, Conv(f, st.lambda, s, r)), st.lambda);
      && IsSyms(f, b) && DegreeAtMost(b, st.el) && VanishesAt(f, b, es)
      && Annihilates(f, b, s, st.el, r) && Conv(f, b, s, r) == 1
  {
    var d := Conv(f, st.lambda, s, r);
    hide Xor, Mul, Quo, Conv, Inv;
    var e := Inv(f, d);
    ScaledKeeps(f, s, es, e, st.lambda);
    MulZero(f, e);
    MulInv(f, d);
    MulComm(f, d, e);
  }

  // Every step keeps the invariant.
  lemma StepKeeps(f: GF, s: seq<nat>, es: seq<nat>, r: nat, st: State)
    requires Primitive(f) && Locators(f, es)
    requires Invariant(f, s, es, r, st) && r < |s|
    ensures Invariant(f, s, es, r + 1, Step(f, s, |es|, st, r))
  {
    var d := Conv(f, st.lambda, s, r);
    assert IsSym(f, d) by { DotRange(f, st.lambda, Reverse(s, r), r + 1); }
    hide Xor, Mul, Quo, Conv, Inv;
    ShiftedKeeps(f, s, es, r, st);
    if d != 0 {
      var el' := if 2 * st.el <= r + |es| then r + 1 + |es| - st.el else st.el;
      UpdatedLocator(f, s, es, r, st, el');
      if 2 * st.el <= r + |es| {
        SavedLocator(f, s, es, r, st);
      }
    }
  }

  // ----- the erasure locator

  /** The product of (1 + es[j] z), in an array of n + 1 coefficients. */
  function ErasureLocator(f: GF, es: seq<nat>, n: nat): (r: seq<nat>)
    ensures |r| == n + 1
  {
    if |es| == 0 then [1] + seq(n, _ => 0)
    else
      var p := ErasureLocator(f, es[..|es| - 1], n);
      AddMul(f, p, es[|es| - 1], Shifted(p))
  }

  lemma {:induction false} ErasureLocatorRoots(f: GF, es: seq<nat>, n: nat)
    requires Primitive(f) && Locators(f, es) && |es| <= n
    ensures var p := ErasureLocator(f, es, n);
      IsSyms(f, p) && p[0] == 1 && DegreeAtMost(p, |es|) && VanishesAt(f, p, es)
  {
    hide Xor, Mul, Quo, Primitive, Locators;
    if |es| == 0 {
      assert es == [];
      NoErasures(f, n);
    } else {
      var e, x := es[..|es| - 1], es[|es| - 1];
      assert Locators(f, e) && IsSym(f, x) by { LocatorsPrefix(f, es); }
      ErasureLocatorRoots(f, e, n);
      var p := ErasureLocator(f, e, n);
      TimesLinear(f, p, |e|, x);
      TimesLinearRoots(f, p, e, x);
      assert e + [x] == es;
    }
  }

  lemma LocatorsPrefix(f: GF, es: seq<nat>)
    requires Locators(f, es) && |es| > 0
    ensures Locators(f, es[..|es| - 1]) && IsSym(f, es[|es| - 1])
  {
  }

  // Multiplying by (1 + x z) ...
  lemma TimesLinear(f: GF, p: seq<nat>, d: nat, x: nat)
    requires Primitive(f) && IsSyms(f, p) && |p| > d + 1 && p[0] == 1 && DegreeAtMost(p, d)
    ensures var t := AddMul(f, p, x, Shifted(p));
      IsSyms(f, t) && t[0] == 1 && DegreeAtMost(t, d + 1)
  {
    var t, zp := AddMul(f, p, x, Shifted(p)), Shifted(p);
    hide Xor, Mul, Primitive;
    MulZero(f, x);
    XorZero(0);
    XorZero(1);
    forall i | 0 <= i < |t| ensures IsSym(f, t[i]) {
      SymXor(f, p[i], Mul(f, x, zp[i]));
    }
  }

  // ... keeps the old roots and adds the one located by x.
  lemma TimesLinearRoots(f: GF, p: seq<nat>, e: seq<nat>, x: nat)
    requires Primitive(f) && IsSyms(f, p) && |p| > |e| + 1 && DegreeAtMost(p, |e|)
    requires IsSym(f, x) && Locators(f, e) && VanishesAt(f, p, e)
    ensures VanishesAt(f, AddMul(f, p, x, Shifted(p)), e + [x])
  {
    var t, zp, n, es := AddMul(f, p, x, Shifted(p)), Shifted(p), |p| - 1, e + [x];
    hide Xor, Mul, Quo, Primitive;
    forall j | 0 <= j < |es| ensures Quo(f, t, es[j], n) == 0 {
      var y := es[j];
      var q := Quo(f, p, y, n - 1);
      QuoAddMul(f, p, x, zp, y, n);
      QuoShift(f, p, y, n);
      assert Quo(f, t, y, n) == Xor(Quo(f, p, y, n), Mul(f, x, q));
      if j < |e| {
        assert Quo(f, p, e[j], n) == 0;
        QuoBeyond(f, p, y, n - 1, n);
        MulZero(f, x);
        XorZero(0);
      } else {
        QuoStep(f, p, x, n);
        XorComm(0, Mul(f, x, q));
        XorZero(Mul(f, x, q));
        XorSelf(Mul(f, x, q));
      }
    }
  }

  // (y + x) q vanishes only with a factor.
  lemma SumOfProducts(f: GF, y: nat, x: nat, q: nat)
    requires Primitive(f) && IsSym(f, x) && IsSym(f, y) && y != 0 && IsSym(f, q)
    ensures Xor(Mul(f, y, q), Mul(f, x, q)) == 0 <==> y == x || Mul(f, y, q) == 0
  {
    hide Xor, Mul, Primitive, IsSym;
    MulXor(f, q, y, x);
    SymXor(f, y, x);
    NoZeroDivisors(f, Xor(y, x), q);
    NoZeroDivisors(f, y, q);
    XorCancel(y, x);
  }

  // ... and no other.
  lemma TimesLinearExact(f: GF, p: seq<nat>, x: nat, y: nat)
    requires Primitive(f) && IsSyms(f, p) && |p| > 1 && p[|p| - 1] == 0
    requires IsSym(f, x) && IsSym(f, y) && y != 0
    ensures var n := |p| - 1;
      Quo(f, AddMul(f, p, x, Shifted(p)), y, n) == 0 <==> y == x || Quo(f, p, y, n) == 0
  {
    hide Xor, Mul, Quo, Primitive, AddMul, Shifted;
    var n := |p| - 1;
    var q := Quo(f, p, y, n - 1);
    QuoAddMul(f, p, x, Shifted(p), y, n);
    QuoShift(f, p, y, n);
    QuoStep(f, p, y, n);
    QuoRange(f, p, y, n - 1);
    XorComm(0, Mul(f, y, q));
    XorZero(Mul(f, y, q));
    SumOfProducts(f, y, x, q);
  }

  // The degree goes up by one.
  lemma TimesLinearDegree(f: GF, p: seq<nat>, d: nat, x: nat)
    requires Primitive(f) && IsSyms(f, p) && |p| > d + 1 && p[d + 1] == 0 && p[d] != 0 && IsSym(f, x) && x != 0
    ensures AddMul(f, p, x, Shifted(p))[d + 1] != 0
  {
    hide Xor, Mul, Primitive;
    NoZeroDivisors(f, x, p[d]);
    XorComm(0, Mul(f, x, p[d]));
    XorZero(Mul(f, x, p[d]));
  }

  lemma LocatorAt(f: GF, es: seq<nat>, j: nat)
    requires Locators(f, es) && j < |es|
    ensures IsSym(f, es[j]) && es[j] != 0
  {
  }

  lemma NoErasuresExact(f: GF, n: nat, y: nat)
    requires Primitive(f) && IsSym(f, y) && y != 0
    ensures ErasureLocator(f, [], n)[0] == 1 && Quo(f, ErasureLocator(f, [], n), y, n) != 0
  {
    var p := ErasureLocator(f, [], n);
    NoErasures(f, n);
    hide Mul, Quo, Primitive;
    QuoBeyond(f, p, y, 0, n);
    QuoZero(f, p, y);
  }

  lemma ErasureLocatorStep(f: GF, es: seq<nat>, n: nat)
    requires |es| > 0
    ensures var p := ErasureLocator(f, es[..|es| - 1], n);
      ErasureLocator(f, es, n) == AddMul(f, p, es[|es| - 1], Shifted(p))
  {
  }

  lemma AboveDegree(p: seq<nat>, d: nat)
    requires DegreeAtMost(p, d) && d + 1 < |p|
    ensures p[d + 1] == 0 && p[|p| - 1] == 0
  {
  }

  /** The locator has exactly the degree of its factors, and a symbol locates a root of it exactly when it is one of
      the erasures. */
  lemma {:induction false} ErasureLocatorExact(f: GF, es: seq<nat>, n: nat, y: nat)
    requires Primitive(f) && Locators(f, es) && |es| <= n && IsSym(f, y) && y != 0
    ensures var p := ErasureLocator(f, es, n);
      p[|es|] != 0 && DegreeAtMost(p, |es|) && (Quo(f, p, y, n) == 0 <==> y in es)
  {
    hide *;
    ErasureLocatorRoots(f, es, n);
    if |es| == 0 {
      assert es == [];
      NoErasuresExact(f, n, y);
    } else {
      var e, x := es[..|es| - 1], es[|es| - 1];
      LocatorsPrefix(f, es);
      LocatorAt(f, es, |es| - 1);
      ErasureLocatorRoots(f, e, n);
      ErasureLocatorExact(f, e, n, y);
      ErasureLocatorStep(f, es, n);
      var p := ErasureLocator(f, e, n);
      AboveDegree(p, |e|);
      TimesLinearExact(f, p, x, y);
      TimesLinearDegree(f, p, |e|, x);
      assert es == e + [x];
    }
  }

  lemma QuoAddMul(f: GF, p: seq<nat>, c: nat, q: seq<nat>, y: nat, k: nat)
    requires Primitive(f) && |p| == |q|
    ensures Quo(f, AddMul(f, p, c, q), y, k) == Xor(Quo(f, p, y, k), Mul(f, c, Quo(f, q, y, k)))
  {
    hide Xor, Mul;
    DotLinearLeft(f, p, c, q, AddMul(f, p, c, q), PowersDown(f, y, k), k + 1);
  }

  lemma NoErasures(f: GF, n: nat)
    requires Primitive(f)
    ensures var p := ErasureLocator(f, [], n);
      IsSyms(f, p) && p[0] == 1 && DegreeAtMost(p, 0) && VanishesAt(f, p, [])
  {
    NNPositive(f);
    var p := ErasureLocator(f, [], n);
    assert forall i :: 1 <= i < |p| ==> p[i] == 0;
  }

  // The invariant holds from the start and hence after every step.
  lemma {:induction false} RunKeeps(f: GF, s: seq<nat>, es: seq<nat>, r: nat)
    requires Primitive(f) && Locators(f, es)
    requires |es| <= r <= |s|
    ensures Invariant(f, s, es, r, Run(f, s, |es|, ErasureLocator(f, es, |s|), r))
  {
    hide Xor, Mul, Quo, Conv, Step;
    ErasureLocatorRoots(f, es, |s|);
    if r > |es| {
      RunKeeps(f, s, es, r - 1);
      StepKeeps(f, s, es, r - 1, Run(f, s, |es|, ErasureLocator(f, es, |s|), r - 1));
    }
  }

  // ----- what the iteration finds when the syndromes are power sums of locators

  /** The syndromes s are those of an error pattern with values w (scaled) at the locators xs. */
  ghost predicate Explains(f: GF, s: seq<nat>, w: seq<nat>, xs: seq<nat>) {
    && SumsTo(f, s, w, xs, |s|)
    && IsSyms(f, w) && Locators(f, xs) && Distinct(xs)
  }

  /** Each weight times the quotient of p at its locator. */
  function Weighted(f: GF, p: seq<nat>, el: nat, w: seq<nat>, xs: seq<nat>): (r: seq<nat>)
    requires |w| == |xs|
    ensures |r| == |xs| && forall j :: 0 <= j < |r| ==> r[j] == Mul(f, w[j], Quo(f, p, xs[j], el))
  {
    seq(|xs|, j requires 0 <= j < |xs| => Mul(f, w[j], Quo(f, p, xs[j], el)))
  }

  lemma {:induction false} QuoPast(f: GF, p: seq<nat>, x: nat, d: nat, k: nat)
    requires Primitive(f) && IsSyms(f, p) && DegreeAtMost(p, d)
    ensures Quo(f, p, x, d + k) == Mul(f, Quo(f, p, x, d), Pow(f, x, k))
  {
    hide Xor, Mul, Quo;
    if k == 0 {
      QuoRange(f, p, x, d);
      NNPositive(f);
      MulComm(f, Quo(f, p, x, d), 1);
      MulOne(f, Quo(f, p, x, d));
    } else {
      QuoPast(f, p, x, d, k - 1);
      QuoStep(f, p, x, d + k);
      var q := Mul(f, x, Quo(f, p, x, d + k - 1));
      XorComm(0, q);
      XorZero(q);
      MulSwap(f, x, Quo(f, p, x, d), Pow(f, x, k - 1));
    }
  }

  lemma {:induction false} DotConcat(f: GF, v: seq<nat>, w: seq<nat>, a: seq<nat>, b: seq<nat>)
    requires |v| == |a| && |w| == |b|
    ensures Dot(f, v + w, a + b, |v| + |w|) == Xor(Dot(f, v, a, |v|), Dot(f, w, b, |w|))
  {
    hide Xor, Mul;
    if |w| == 0 {
      DotTerms(f, v + w, a + b, v, a, |v|);
      XorZero(Dot(f, v, a, |v|));
    } else {
      var w', b', n := w[..|w| - 1], b[..|b| - 1], |w| - 1;
      DotConcat(f, v, w', a, b');
      DotTerms(f, v + w', a + b', v + w, a + b, |v| + n);
      DotTerms(f, w', b', w, b, n);
      XorAssoc(Dot(f, v, a, |v|), Dot(f, w, b, n), Mul(f, w[n], b[n]));
    }
  }

  lemma DotStart(f: GF, u: seq<nat>, v: seq<nat>)
    ensures Dot(f, u, v, 0) == 0
  {
  }

  lemma PastTerm(f: GF, p: seq<nat>, d: nat, w: nat, y: nat, k: nat)
    requires Primitive(f) && IsSyms(f, p) && DegreeAtMost(p, d) && d <= k
    ensures Mul(f, w, Quo(f, p, y, k)) == Mul(f, Mul(f, w, Quo(f, p, y, d)), Pow(f, y, k - d))
  {
    hide Mul, Quo, Primitive, IsSyms, DegreeAtMost, Pow;
    QuoPast(f, p, y, d, k - d);
    MulAssoc(f, w, Quo(f, p, y, d), Pow(f, y, k - d));
  }

  lemma PastTerms(f: GF, p: seq<nat>, d: nat, w: seq<nat>, ys: seq<nat>, k: nat)
    requires Primitive(f) && IsSyms(f, p) && DegreeAtMost(p, d) && d <= k && |w| == |ys|
    ensures Dot(f, w, QuoOf(f, p, ys, k), |ys|) == PowerSum(f, Weighted(f, p, d, w, ys), ys, k - d)
  {
    var u, z, u' := QuoOf(f, p, ys, k), Weighted(f, p, d, w, ys), PowersOf(f, ys, k - d);
    hide Xor, Mul, Quo, Dot, Primitive, IsSyms, DegreeAtMost, Pow;
    forall i | 0 <= i < |ys| ensures Mul(f, At(w, i), At(u, i)) == Mul(f, At(z, i), At(u', i)) {
      PastTerm(f, p, d, w[i], ys[i], k);
    }
    DotTerms(f, w, u, z, u', |ys|);
  }

  lemma PatternConv(f: GF, p: seq<nat>, s: seq<nat>, v: seq<nat>, es: seq<nat>, w: seq<nat>, ys: seq<nat>, k: nat)
    requires Primitive(f) && |v| == |es| && |w| == |ys| && SumsTo(f, s, v + w, es + ys, k + 1)
    ensures Conv(f, p, s, k) == Xor(Dot(f, v, QuoOf(f, p, es, k), |es|), Dot(f, w, QuoOf(f, p, ys, k), |ys|))
  {
    hide Xor, Mul, Quo, Dot, Conv, Primitive, SumsTo;
    ConvPowerSums(f, p, s, v + w, es + ys, k);
    assert QuoOf(f, p, es + ys, k) == QuoOf(f, p, es, k) + QuoOf(f, p, ys, k);
    DotConcat(f, v, w, QuoOf(f, p, es, k), QuoOf(f, p, ys, k));
  }

  // Once past the degree of p, convolving by p is a power sum with weighted values; locators
  // of roots of p drop out.
  lemma ConvPast(f: GF, p: seq<nat>, s: seq<nat>, d: nat, v: seq<nat>, es: seq<nat>, w: seq<nat>, ys: seq<nat>, k: nat)
    requires Primitive(f) && IsSyms(f, p) && DegreeAtMost(p, d) && SumsTo(f, s, v + w, es + ys, k + 1)
    requires |v| == |es| && |w| == |ys| && d <= k && forall i :: 0 <= i < |es| ==> Quo(f, p, es[i], k) == 0
    ensures Conv(f, p, s, k) == PowerSum(f, Weighted(f, p, d, w, ys), ys, k - d)
  {
    hide Xor, Mul, Quo, Dot, Conv, Primitive, SumsTo, IsSyms, DegreeAtMost, PowerSum;
    PatternConv(f, p, s, v, es, w, ys, k);
    PastTerms(f, p, d, w, ys, k);
    DotExtend(f, v, QuoOf(f, p, es, k), 0, |es|);
    DotStart(f, v, QuoOf(f, p, es, k));
    var t := Dot(f, w, QuoOf(f, p, ys, k), |ys|);
    XorComm(0, t);
    XorZero(t);
  }

  /** The syndromes s come from values v at the erasures es and nonzero values w at further locators ys. */
  ghost predicate Pattern(f: GF, s: seq<nat>, v: seq<nat>, es: seq<nat>, w: seq<nat>, ys: seq<nat>) {
    && |v| == |es| && |w| == |ys|
    && Explains(f, s, v + w, es + ys)
  }

  lemma PatternParts(f: GF, s: seq<nat>, v: seq<nat>, es: seq<nat>, w: seq<nat>, ys: seq<nat>)
    requires Pattern(f, s, v, es, w, ys)
    ensures SumsTo(f, s, v + w, es + ys, |s|) && |v| == |es| && |w| == |ys|
    ensures IsSyms(f, w) && Locators(f, es) && Locators(f, ys) && Distinct(ys)
  {
    var xs, m := es + ys, |es|;
    forall i | 0 <= i < |ys| ensures IsSym(f, w[i]) && IsSym(f, ys[i]) && ys[i] != 0 {
      assert xs[m + i] == ys[i] && (v + w)[m + i] == w[i];
    }
    forall i, j | 0 <= i < j < |ys| ensures ys[i] != ys[j] {
      assert xs[m + i] == ys[i] && xs[m + j] == ys[j];
    }
    forall i | 0 <= i < |es| ensures IsSym(f, es[i]) && es[i] != 0 {
      assert xs[i] == es[i];
    }
  }

  // From index el on, the convolution only sees the locators that are not erasures.
  lemma TailSum(f: GF, s: seq<nat>, v: seq<nat>, es: seq<nat>, r: nat, st: State, w: seq<nat>, ys: seq<nat>, k: nat)
    requires Primitive(f) && Invariant(f, s, es, r, st) && Pattern(f, s, v, es, w, ys) && st.el <= k < |s|
    ensures Conv(f, st.lambda, s, k) == PowerSum(f, Weighted(f, st.lambda, st.el, w, ys), ys, k - st.el)
  {
    hide Xor, Mul, Quo, Conv, PowerSum, Primitive, Pattern;
    var p := st.lambda;
    PatternParts(f, s, v, es, w, ys);
    forall i | 0 <= i < |es| ensures Quo(f, p, es[i], k) == 0 {
      assert Quo(f, p, es[i], |s|) == 0;
      QuoBeyond(f, p, es[i], k, |s|);
    }
    ConvPast(f, p, s, st.el, v, es, w, ys, k);
  }

  lemma WeightedRange(f: GF, p: seq<nat>, el: nat, w: seq<nat>, xs: seq<nat>)
    requires |w| == |xs|
    ensures IsSyms(f, Weighted(f, p, el, w, xs))
  {
  }

  lemma TailSumVanishes(f: GF, s: seq<nat>, v: seq<nat>, es: seq<nat>, r: nat, st: State, w: seq<nat>, ys: seq<nat>,
                        k: nat)
    requires Primitive(f) && Invariant(f, s, es, r, st) && Pattern(f, s, v, es, w, ys)
    requires st.el + k < r
    ensures |w| == |ys| && PowerSum(f, Weighted(f, st.lambda, st.el, w, ys), ys, k) == 0
  {
    hide Xor, Mul, Quo, Conv, PowerSum, Primitive, Explains, Weighted;
    TailSum(f, s, v, es, r, st, w, ys, st.el + k);
    assert Conv(f, st.lambda, s, st.el + k) == 0;
  }

  // If lambda annihilates as many syndromes as there are unknown locators, all tail weights vanish.
  lemma TailWeightsVanish(f: GF, s: seq<nat>, v: seq<nat>, es: seq<nat>, r: nat, st: State, w: seq<nat>, ys: seq<nat>)
    requires Primitive(f) && Invariant(f, s, es, r, st) && Pattern(f, s, v, es, w, ys)
    requires st.el + |ys| <= r
    ensures forall j :: 0 <= j < |ys| ==> Weighted(f, st.lambda, st.el, w, ys)[j] == 0
  {
    PatternParts(f, s, v, es, w, ys);
    var z := Weighted(f, st.lambda, st.el, w, ys);
    forall k | 0 <= k < |ys| ensures PowerSum(f, z, ys, k) == 0 {
      hide *;
      TailSumVanishes(f, s, v, es, r, st, w, ys, k);
    }
    WeightedRange(f, st.lambda, st.el, w, ys);
    hide Xor, Mul, Quo, Conv, PowerSum, Primitive, Pattern, Invariant, IsSyms, Distinct;
    Vandermonde(f, z, ys, 0);
  }

  // A nonzero discrepancy means that lambda is still too short for the error pattern.
  lemma DiscrepancyBound(f: GF, s: seq<nat>, v: seq<nat>, es: seq<nat>, r: nat, st: State, w: seq<nat>, ys: seq<nat>)
    requires Primitive(f) && Invariant(f, s, es, r, st) && Pattern(f, s, v, es, w, ys) && r < |s|
    requires Conv(f, st.lambda, s, r) != 0
    ensures r < st.el + |ys|
  {
    if st.el + |ys| <= r {
      TailWeightsVanish(f, s, v, es, r, st, w, ys);
      TailSum(f, s, v, es, r, st, w, ys, r);
      hide Xor, Mul, Quo;
      DotExtend(f, Weighted(f, st.lambda, st.el, w, ys), PowersOf(f, ys, r - st.el), 0, |ys|);
    }
  }

  // el never exceeds the number of locators of any pattern that explains the syndromes.
  lemma {:induction false} LengthMinimal(f: GF, s: seq<nat>, v: seq<nat>, es: seq<nat>, r: nat, w: seq<nat>,
                                         ys: seq<nat>)
    requires Primitive(f) && Pattern(f, s, v, es, w, ys) && |es| <= r <= |s|
    ensures Run(f, s, |es|, ErasureLocator(f, es, |s|), r).el <= |es| + |ys|
  {
    hide Xor, Mul, Quo, Conv, Primitive, ErasureLocator, Invariant, Pattern;
    if r > |es| {
      LengthMinimal(f, s, v, es, r - 1, w, ys);
      PatternParts(f, s, v, es, w, ys);
      RunKeeps(f, s, es, r - 1);
      var st := Run(f, s, |es|, ErasureLocator(f, es, |s|), r - 1);
      if Conv(f, st.lambda, s, r - 1) != 0 {
        DiscrepancyBound(f, s, v, es, r - 1, st, w, ys);
      }
    }
  }

  // Within the capacity the final lambda vanishes at every locator of the pattern.
  lemma FindsLocators(f: GF, s: seq<nat>, v: seq<nat>, es: seq<nat>, w: seq<nat>, ys: seq<nat>)
    requires Primitive(f) && Pattern(f, s, v, es, w, ys)
    requires forall j :: 0 <= j < |w| ==> w[j] != 0
    requires 2 * |ys| + |es| <= |s|
    ensures var st := Run(f, s, |es|, ErasureLocator(f, es, |s|), |s|);
      && Invariant(f, s, es, |s|, st) && st.el <= |es| + |ys|
      && VanishesAt(f, st.lambda, es) && VanishesAt(f, st.lambda, ys)
  {
    var n, m := |s|, |es|;
    PatternParts(f, s, v, es, w, ys);
    assert |w| == |ys|;
    hide Xor, Mul, Quo, Conv, Run, ErasureLocator, Primitive, Pattern;
    LengthMinimal(f, s, v, es, n, w, ys);
    RunKeeps(f, s, es, n);
    var st := Run(f, s, m, ErasureLocator(f, es, n), n);
    TailWeightsVanish(f, s, v, es, n, st, w, ys);
    var z := Weighted(f, st.lambda, st.el, w, ys);
    forall j | 0 <= j < |ys| ensures Quo(f, st.lambda, ys[j], n) == 0 {
      assert z[j] == 0;
      NonzeroWeight(f, st.lambda, st.el, n, w[j], ys[j]);
    }
  }

  lemma NonzeroWeight(f: GF, p: seq<nat>, d: nat, k: nat, w: nat, x: nat)
    requires Primitive(f) && IsSyms(f, p) && DegreeAtMost(p, d) && d <= k
    requires IsSym(f, w) && w != 0 && IsSym(f, x) && x != 0 && Mul(f, w, Quo(f, p, x, d)) == 0
    ensures Quo(f, p, x, k) == 0
  {
    hide Xor, Mul, Quo, Primitive;
    QuoRange(f, p, x, d);
    NoZeroDivisors(f, w, Quo(f, p, x, d));
    QuoBeyond(f, p, x, d, k);
  }
}
