/** The finite field behind the log tables: symbols of `mm` bits, added by Xor and multiplied
    modulo the field generator polynomial. */
module Field {
  import opened Bits

  datatype GF = GF(mm: nat, poly: nat)

  /** Number of nonzero symbols; also the reserved index that stands for log(0). */
  function NN(f: GF): nat {
    Pow2(f.mm) - 1
  }

  predicate IsSym(f: GF, a: nat) {
    a < Pow2(f.mm)
  }

  /** One step of the shift register that fills the tables: multiply by x, reduce by the generator polynomial. */
  function Shift(f: GF, a: nat): (r: nat)
    ensures IsSym(f, r)
  {
    var d := 2 * a;
    Low(if Shr(d, f.mm) % 2 == 1 then Xor(d, f.poly) else d, f.mm)
  }

  function ShiftBy(f: GF, a: nat, n: nat): nat {
    if n == 0 then a else Shift(f, ShiftBy(f, a, n - 1))
  }

  /** alpha to the power i: the register after i steps. */
  function Exp(f: GF, i: nat): nat {
    ShiftBy(f, 1, i)
  }

  /** x has order exactly NN. */
  ghost predicate Primitive(f: GF) {
    && f.mm >= 1
    && Exp(f, NN(f)) == 1
    && forall i :: 0 < i < NN(f) ==> Exp(f, i) != 1
  }

  lemma PrimitiveWide(f: GF)
    requires Primitive(f)
    ensures f.mm >= 1
  {
  }

  /** Schoolbook shift-and-add multiplication of symbols modulo the generator polynomial. */
  function Times(f: GF, a: nat, b: nat): nat {
    if b == 0 then 0 else Xor(if b % 2 == 1 then a else 0, Shift(f, Times(f, a, b / 2)))
  }

  /** The same on the low mm bits of any two numbers, so that its laws need no side conditions. */
  function Mul(f: GF, a: nat, b: nat): (r: nat)
    ensures IsSym(f, r)
  {
    TimesRange(f, Low(a, f.mm), Low(b, f.mm));
    Times(f, Low(a, f.mm), Low(b, f.mm))
  }

  lemma {:induction false} TimesRange(f: GF, a: nat, b: nat)
    requires IsSym(f, a)
    ensures IsSym(f, Times(f, a, b))
  {
    if b == 0 {
    } else {
      TimesRange(f, a, b / 2);
      XorBound(if b % 2 == 1 then a else 0, Shift(f, Times(f, a, b / 2)), f.mm);
    }
  }

  lemma SymXor(f: GF, a: nat, b: nat)
    requires IsSym(f, a) && IsSym(f, b)
    ensures IsSym(f, Xor(a, b))
  {
    XorBound(a, b, f.mm);
  }

  // ----- the register is linear

  lemma ShiftXor(f: GF, a: nat, b: nat)
    ensures Shift(f, Xor(a, b)) == Xor(Shift(f, a), Shift(f, b))
  {
    XorDouble(a, b);
    XorShr(2 * a, 2 * b, f.mm);
    XorStep(Shr(2 * a, f.mm), Shr(2 * b, f.mm));
    var u, v, p := 2 * a, 2 * b, f.poly;
    hide Xor;
    XorLow(u, v, f.mm);
    XorLow(Xor(u, p), v, f.mm);
    XorLow(u, Xor(v, p), f.mm);
    XorLow(Xor(u, p), Xor(v, p), f.mm);
    assert Xor(Xor(u, p), v) == Xor(Xor(u, v), p) by { XorLaws(); }
    assert Xor(u, Xor(v, p)) == Xor(Xor(u, v), p) by { XorLaws(); }
    assert Xor(Xor(u, p), Xor(v, p)) == Xor(u, v) by { XorExchange(u, p, v, p); XorSelf(p); XorZero(Xor(u, v)); }
  }

  lemma ShiftZero(f: GF)
    ensures Shift(f, 0) == 0
  {
    ShiftXor(f, 0, 0);
    XorSelf(0);
    XorSelf(Shift(f, 0));
  }

  // Below half range the register only shifts.
  lemma ShiftSmall(f: GF, a: nat)
    requires 2 * a < Pow2(f.mm)
    ensures Shift(f, a) == 2 * a
  {
    LowSmall(2 * a, f.mm);
  }

  lemma {:induction false} ShiftByXor(f: GF, a: nat, b: nat, n: nat)
    ensures ShiftBy(f, Xor(a, b), n) == Xor(ShiftBy(f, a, n), ShiftBy(f, b, n))
  {
    hide Xor, Shift;
    if n != 0 {
      ShiftByXor(f, a, b, n - 1);
      ShiftXor(f, ShiftBy(f, a, n - 1), ShiftBy(f, b, n - 1));
    }
  }

  lemma {:induction false} ShiftByAdd(f: GF, a: nat, m: nat, n: nat)
    ensures ShiftBy(f, ShiftBy(f, a, m), n) == ShiftBy(f, a, m + n)
  {
    hide Shift;
    if n != 0 {
      ShiftByAdd(f, a, m, n - 1);
    }
  }

  lemma {:induction false} ShiftByZero(f: GF, n: nat)
    ensures ShiftBy(f, 0, n) == 0
  {
    hide Shift;
    if n != 0 {
      ShiftByZero(f, n - 1);
      ShiftZero(f);
    }
  }

  // ----- Times is bilinear

  lemma {:induction false} TimesXorLeft(f: GF, a: nat, c: nat, b: nat)
    ensures Times(f, Xor(a, c), b) == Xor(Times(f, a, b), Times(f, c, b))
    decreases b
  {
    hide Xor, Shift;
    if b == 0 {
      XorZero(0);
    } else {
      TimesXorLeft(f, a, c, b / 2);
      var s, t := Times(f, a, b / 2), Times(f, c, b / 2);
      ShiftXor(f, s, t);
      XorExchange(a, Shift(f, s), c, Shift(f, t));
      XorExchange(0, Shift(f, s), 0, Shift(f, t));
      XorZero(0);
    }
  }

  lemma {:induction false} TimesXorRight(f: GF, a: nat, b: nat, c: nat)
    ensures Times(f, a, Xor(b, c)) == Xor(Times(f, a, b), Times(f, a, c))
    decreases b + c
  {
    hide Xor, Shift;
    if b + c == 0 {
      XorZero(0);
    } else {
      XorStep(b, c);
      TimesStep(f, a, b);
      TimesStep(f, a, c);
      TimesStep(f, a, Xor(b, c));
      hide Times;
      TimesXorRight(f, a, b / 2, c / 2);
      var s, t := Times(f, a, b / 2), Times(f, a, c / 2);
      ShiftXor(f, s, t);
      var i, j := if b % 2 == 1 then a else 0, if c % 2 == 1 then a else 0;
      XorExchange(i, Shift(f, s), j, Shift(f, t));
      XorSelf(a);
      XorSelf(0);
      XorZero(a);
      XorComm(0, a);
    }
  }

  // The recursion of Times, valid for zero too.
  lemma TimesStep(f: GF, a: nat, b: nat)
    ensures Times(f, a, b) == Xor(if b % 2 == 1 then a else 0, Shift(f, Times(f, a, b / 2)))
  {
    if b == 0 {
      hide Xor, Shift;
      ShiftZero(f);
      XorZero(0);
      assert b % 2 == 0 && b / 2 == 0;
    }
  }

  lemma {:induction false} TimesShift(f: GF, a: nat, b: nat)
    ensures Times(f, Shift(f, a), b) == Shift(f, Times(f, a, b))
  {
    hide Xor, Shift;
    if b == 0 {
      ShiftZero(f);
    } else {
      TimesShift(f, a, b / 2);
      ShiftXor(f, if b % 2 == 1 then a else 0, Shift(f, Times(f, a, b / 2)));
      ShiftZero(f);
    }
  }

  lemma {:induction false} TimesZeroOne(f: GF, b: nat)
    ensures Times(f, 0, b) == 0
    ensures IsSym(f, b) ==> Times(f, 1, b) == b
  {
    hide Xor, Shift;
    if b != 0 {
      TimesZeroOne(f, b / 2);
      ShiftZero(f);
      XorZero(0);
      if IsSym(f, b) {
        ShiftSmall(f, b / 2);
        XorAppend(0, b % 2, b / 2, 0);
        XorComm(0, b / 2);
        XorZero(b / 2);
      }
    }
  }

  // Multiplying by alpha^i is i steps of the register.
  lemma {:induction false} TimesExp(f: GF, i: nat, b: nat)
    requires IsSym(f, b)
    ensures Times(f, Exp(f, i), b) == ShiftBy(f, b, i)
  {
    hide Xor, Shift;
    if i == 0 {
      TimesZeroOne(f, b);
    } else {
      TimesExp(f, i - 1, b);
      TimesShift(f, Exp(f, i - 1), b);
    }
  }

  // ----- the powers of alpha run through all nonzero symbols

  lemma ExpAdd(f: GF, i: nat, j: nat)
    ensures Exp(f, i + j) == ShiftBy(f, Exp(f, i), j)
  {
    ShiftByAdd(f, 1, i, j);
  }

  lemma ExpRange(f: GF, i: nat)
    requires f.mm >= 1
    ensures IsSym(f, Exp(f, i))
  {
    assert Pow2(f.mm) == 2 * Pow2(f.mm - 1);
  }

  lemma ExpPeriod(f: GF, i: nat)
    requires Primitive(f)
    ensures Exp(f, i + NN(f)) == Exp(f, i)
  {
    ExpAdd(f, NN(f), i);
  }

  lemma NNPositive(f: GF)
    requires Primitive(f)
    ensures NN(f) >= 1
  {
    assert Pow2(f.mm) == 2 * Pow2(f.mm - 1);
  }

  lemma {:induction false} ExpMod(f: GF, i: nat)
    requires Primitive(f)
    ensures NN(f) >= 1 && Exp(f, Mod(i, NN(f))) == Exp(f, i)
    decreases i
  {
    hide Exp, Primitive;
    NNPositive(f);
    if i >= NN(f) {
      ExpMod(f, i - NN(f));
      ExpPeriod(f, i - NN(f));
    }
  }

  // From zero the register never leaves zero, yet it comes back to 1.
  lemma ExpNonzero(f: GF, i: nat)
    requires Primitive(f)
    ensures Exp(f, i) != 0
  {
    ExpMod(f, i);
    var r := Mod(i, NN(f));
    ExpAdd(f, r, NN(f) - r);
    ShiftByZero(f, NN(f) - r);
  }

  lemma ExpInjective(f: GF, i: nat, j: nat)
    requires Primitive(f) && i < j < NN(f)
    ensures Exp(f, i) != Exp(f, j)
  {
    if Exp(f, i) == Exp(f, j) {
      var k := NN(f) - j;
      ExpAdd(f, i, k);
      ExpAdd(f, j, k);
    }
  }

  function ExpSet(f: GF, n: nat): set<nat> {
    set i | 0 <= i < n :: Exp(f, i)
  }

  function UpTo(n: nat): (s: set<nat>)
    ensures |s| == n && forall i :: i in s <==> 1 <= i <= n
  {
    if n == 0 then {} else UpTo(n - 1) + {n}
  }

  lemma {:induction false} ExpSetSize(f: GF, n: nat)
    requires Primitive(f) && n <= NN(f)
    ensures |ExpSet(f, n)| == n && ExpSet(f, n) <= UpTo(NN(f))
  {
    hide Exp;
    if n != 0 {
      ExpSetSize(f, n - 1);
      var e := Exp(f, n - 1);
      ExpNonzero(f, n - 1);
      ExpRange(f, n - 1);
      forall i | 0 <= i < n - 1 ensures Exp(f, i) != e {
        ExpInjective(f, i, n - 1);
      }
      assert ExpSet(f, n) == ExpSet(f, n - 1) + {e};
    }
  }

  lemma FullSubset(s: set<nat>, t: set<nat>)
    requires s <= t && |s| == |t|
    ensures s == t
  {
    if a :| a in t && a !in s {
      assert s <= t - {a};
      SubsetSize(s, t - {a});
    }
  }

  lemma {:induction false} SubsetSize(s: set<nat>, t: set<nat>)
    requires s <= t
    ensures |s| <= |t|
  {
    if s != {} {
      var a :| a in s;
      SubsetSize(s - {a}, t - {a});
    }
  }

  lemma ExpOnto(f: GF, a: nat)
    requires Primitive(f) && IsSym(f, a) && a != 0
    ensures exists i: nat :: i < NN(f) && Exp(f, i) == a
  {
    ExpSetSize(f, NN(f));
    FullSubset(ExpSet(f, NN(f)), UpTo(NN(f)));
    assert a in UpTo(NN(f));
  }

  /** Discrete logarithm of a nonzero symbol. */
  ghost function Log(f: GF, a: nat): (i: nat)
    requires Primitive(f) && IsSym(f, a) && a != 0
    ensures i < NN(f) && Exp(f, i) == a
  {
    ExpOnto(f, a);
    var i: nat :| i < NN(f) && Exp(f, i) == a;
    i
  }

  lemma LogExp(f: GF, i: nat)
    requires Primitive(f)
    ensures IsSym(f, Exp(f, i)) && Exp(f, i) != 0 && NN(f) >= 1
    ensures Log(f, Exp(f, i)) == Mod(i, NN(f))
  {
    ExpRange(f, i);
    ExpNonzero(f, i);
    ExpMod(f, i);
    hide Exp;
    var a, b := Log(f, Exp(f, i)), Mod(i, NN(f));
    if a < b {
      ExpInjective(f, a, b);
    } else if b < a {
      ExpInjective(f, b, a);
    }
  }

  // ----- field laws

  lemma LowSym(f: GF, a: nat)
    requires IsSym(f, a)
    ensures Low(a, f.mm) == a
  {
    LowSmall(a, f.mm);
  }

  lemma MulIsTimes(f: GF, a: nat, b: nat)
    requires IsSym(f, a) && IsSym(f, b)
    ensures Mul(f, a, b) == Times(f, a, b)
  {
    LowSym(f, a);
    LowSym(f, b);
  }

  lemma MulExp(f: GF, i: nat, j: nat)
    requires Primitive(f)
    ensures Mul(f, Exp(f, i), Exp(f, j)) == Exp(f, i + j)
  {
    ExpRange(f, i);
    ExpRange(f, j);
    MulIsTimes(f, Exp(f, i), Exp(f, j));
    TimesExp(f, i, Exp(f, j));
    ExpAdd(f, j, i);
  }

  // The product through the log tables: logarithms of nonzero symbols add modulo NN.
  lemma MulByLogs(f: GF, a: nat, b: nat)
    requires Primitive(f) && IsSym(f, a) && IsSym(f, b) && a != 0 && b != 0
    ensures NN(f) >= 1
    ensures Mul(f, a, b) == Exp(f, Mod(Log(f, a) + Log(f, b), NN(f)))
    ensures Mul(f, a, b) != 0
  {
    hide Exp, Mul;
    MulExp(f, Log(f, a), Log(f, b));
    ExpMod(f, Log(f, a) + Log(f, b));
    ExpNonzero(f, Log(f, a) + Log(f, b));
  }

  lemma MulLow(f: GF, a: nat, b: nat)
    ensures Mul(f, Low(a, f.mm), b) == Mul(f, a, b)
    ensures Mul(f, a, Low(b, f.mm)) == Mul(f, a, b)
  {
    LowSym(f, Low(a, f.mm));
    LowSym(f, Low(b, f.mm));
  }

  lemma MulZero(f: GF, a: nat)
    ensures Mul(f, 0, a) == 0
    ensures Mul(f, a, 0) == 0
  {
    LowSmall(0, f.mm);
    TimesZeroOne(f, Low(a, f.mm));
  }

  lemma MulComm(f: GF, a: nat, b: nat)
    requires Primitive(f)
    ensures Mul(f, a, b) == Mul(f, b, a)
  {
    var u, v := Low(a, f.mm), Low(b, f.mm);
    MulLow(f, a, b);
    MulLow(f, a, v);
    MulLow(f, b, a);
    MulLow(f, b, u);
    hide Mul, Exp;
    MulZero(f, u);
    MulZero(f, v);
    if u != 0 && v != 0 {
      MulExp(f, Log(f, u), Log(f, v));
      MulExp(f, Log(f, v), Log(f, u));
    }
  }

  lemma MulAssoc(f: GF, a: nat, b: nat, c: nat)
    requires Primitive(f)
    ensures Mul(f, Mul(f, a, b), c) == Mul(f, a, Mul(f, b, c))
  {
    var u, v, w := Low(a, f.mm), Low(b, f.mm), Low(c, f.mm);
    MulLow(f, a, b);
    MulLow(f, u, b);
    MulLow(f, b, c);
    MulLow(f, v, c);
    MulLow(f, a, Mul(f, b, c));
    MulLow(f, Mul(f, a, b), c);
    hide Mul, Exp;
    MulZero(f, u);
    MulZero(f, v);
    MulZero(f, w);
    if u != 0 && v != 0 && w != 0 {
      var i, j, k := Log(f, u), Log(f, v), Log(f, w);
      MulExp(f, i, j);
      MulExp(f, i + j, k);
      MulExp(f, j, k);
      MulExp(f, i, j + k);
    } else {
      MulZero(f, Mul(f, v, w));
      MulZero(f, Mul(f, u, v));
    }
  }

  lemma MulXor(f: GF, a: nat, b: nat, c: nat)
    ensures Mul(f, a, Xor(b, c)) == Xor(Mul(f, a, b), Mul(f, a, c))
    ensures Mul(f, Xor(b, c), a) == Xor(Mul(f, b, a), Mul(f, c, a))
  {
    hide Xor, Low, Times;
    XorLow(b, c, f.mm);
    var u, v, w := Low(a, f.mm), Low(b, f.mm), Low(c, f.mm);
    TimesXorRight(f, u, v, w);
    TimesXorLeft(f, v, w, u);
  }

  lemma MulOne(f: GF, a: nat)
    requires f.mm >= 1 && IsSym(f, a)
    ensures Mul(f, 1, a) == a
  {
    assert Pow2(f.mm) == 2 * Pow2(f.mm - 1);
    MulIsTimes(f, 1, a);
    TimesZeroOne(f, a);
  }

  lemma NoZeroDivisors(f: GF, a: nat, b: nat)
    requires Primitive(f) && IsSym(f, a) && IsSym(f, b)
    ensures Mul(f, a, b) == 0 <==> a == 0 || b == 0
  {
    MulZero(f, a);
    MulZero(f, b);
    if a != 0 && b != 0 {
      MulByLogs(f, a, b);
    }
  }

  ghost function Inv(f: GF, a: nat): (r: nat)
    requires Primitive(f) && IsSym(f, a) && a != 0
    ensures IsSym(f, r) && r != 0
  {
    ExpRange(f, NN(f) - Log(f, a));
    ExpNonzero(f, NN(f) - Log(f, a));
    Exp(f, NN(f) - Log(f, a))
  }

  lemma MulInv(f: GF, a: nat)
    requires Primitive(f) && IsSym(f, a) && a != 0
    ensures Mul(f, a, Inv(f, a)) == 1
  {
    MulExp(f, Log(f, a), NN(f) - Log(f, a));
  }

  // ----- powers

  function Pow(f: GF, x: nat, n: nat): nat {
    if n == 0 then 1 else Mul(f, x, Pow(f, x, n - 1))
  }

  lemma {:induction false} PowExp(f: GF, i: nat, n: nat)
    requires Primitive(f)
    ensures Pow(f, Exp(f, i), n) == Exp(f, i * n)
  {
    hide Exp, Mul;
    if n == 0 {
      assert Exp(f, 0) == 1 by { ExpZero(f); }
      assert i * n == 0;
    } else {
      PowExp(f, i, n - 1);
      MulExp(f, i, i * (n - 1));
      assert i + i * (n - 1) == i * n;
    }
  }

  lemma ExpZero(f: GF)
    ensures Exp(f, 0) == 1
  {
  }

  lemma {:induction false} PowRange(f: GF, x: nat, n: nat)
    requires Primitive(f)
    ensures IsSym(f, Pow(f, x, n))
    ensures IsSym(f, x) && x != 0 ==> Pow(f, x, n) != 0
  {
    hide Mul, Exp;
    if n == 0 {
      NNPositive(f);
    } else {
      PowRange(f, x, n - 1);
      if IsSym(f, x) && x != 0 {
        NoZeroDivisors(f, x, Pow(f, x, n - 1));
      }
    }
  }

  lemma {:induction false} PowAdd(f: GF, x: nat, m: nat, n: nat)
    requires Primitive(f)
    ensures Pow(f, x, m + n) == Mul(f, Pow(f, x, m), Pow(f, x, n))
  {
    hide Mul, Exp;
    if m == 0 {
      PowRange(f, x, n);
      MulOne(f, Pow(f, x, n));
    } else {
      PowAdd(f, x, m - 1, n);
      MulAssoc(f, x, Pow(f, x, m - 1), Pow(f, x, n));
    }
  }
}
