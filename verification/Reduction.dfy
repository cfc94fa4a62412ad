/** What the shift register computes: carry-less products and powers of x, reduced by the field polynomial. */
module Reduction {
  import opened Bits
  import opened Field

  /** The carry-less product: schoolbook multiplication whose additions are exclusive-or. */
  function ClMul(a: nat, b: nat): nat {
    if b == 0 then 0 else Xor(if b % 2 == 1 then a else 0, 2 * ClMul(a, b / 2))
  }

  /** The polynomial the register reduces by: x^mm and the low bits of the generator polynomial. */
  function Modulus(f: GF): nat {
    Pow2(f.mm) + Low(f.poly, f.mm)
  }

  /** The symbol r is the remainder of x, as a polynomial over two elements. */
  ghost predicate IsRemainder(f: GF, x: nat, r: nat) {
    IsSym(f, r) && exists q: nat :: x == Xor(r, ClMul(Modulus(f), q))
  }

  // A polynomial of degree mm is its own modulus.
  lemma ModulusIs(f: GF)
    requires Pow2(f.mm) <= f.poly < 2 * Pow2(f.mm)
    ensures Modulus(f) == f.poly
  {
    ShrTop(f.poly, f.mm);
    ShrLow(f.poly, f.mm);
  }

  lemma ModulusParts(f: GF)
    ensures Low(Modulus(f), f.mm) == Low(f.poly, f.mm) && Shr(Modulus(f), f.mm) == 1
  {
    TopParts(f.mm, Low(f.poly, f.mm));
  }

  lemma {:induction false} TopParts(n: nat, l: nat)
    requires l < Pow2(n)
    ensures Low(Pow2(n) + l, n) == l && Shr(Pow2(n) + l, n) == 1
  {
    if n != 0 {
      var x := Pow2(n) + l;
      assert x / 2 == Pow2(n - 1) + l / 2 && x % 2 == l % 2;
      TopParts(n - 1, l / 2);
    }
  }

  // One register step is a doubling, less the modulus if the top bit came out.
  lemma ShiftReduces(f: GF, a: nat) returns (t: nat)
    requires f.mm >= 1 && IsSym(f, a)
    ensures t < 2 && 2 * a == Xor(Shift(f, a), if t == 1 then Modulus(f) else 0)
  {
    var d, m, n := 2 * a, Modulus(f), f.mm;
    ModulusParts(f);
    XorLow(d, f.poly, n);
    XorLow(d, m, n);
    XorShr(d, m, n);
    if d < Pow2(n) {
      LowSmall(d, n);
      XorZero(d);
      t := 0;
    } else {
      ShrTop(d, n);
      XorSelf(1);
      var r := Xor(d, m);
      LowSmall(r, n);
      hide Xor;
      XorCancel(d, m);
      t := 1;
    }
  }

  lemma ClMulStep(a: nat, b: nat, t: nat)
    requires t < 2
    ensures ClMul(a, 2 * b + t) == Xor(if t == 1 then a else 0, 2 * ClMul(a, b))
  {
    hide Xor;
    if 2 * b + t == 0 {
      XorZero(0);
    } else {
      assert (2 * b + t) / 2 == b && (2 * b + t) % 2 == t;
    }
  }

  // Doubling a reduced value and stepping the register give the same remainder, with something added to both.
  lemma StepRemainder(f: GF, c: nat, r: nat, q: nat, a: nat) returns (q': nat)
    requires f.mm >= 1 && IsSym(f, r) && c == Xor(r, ClMul(Modulus(f), q))
    ensures Xor(a, 2 * c) == Xor(Xor(a, Shift(f, r)), ClMul(Modulus(f), q'))
  {
    var t := ShiftReduces(f, r);
    q' := 2 * q + t;
    ClMulStep(Modulus(f), q, t);
    hide *;
    var m, u := ClMul(Modulus(f), q), if t == 1 then Modulus(f) else 0;
    XorDouble(r, m);
    XorAssoc(Shift(f, r), u, 2 * m);
    XorAssoc(a, Shift(f, r), Xor(u, 2 * m));
  }

  lemma {:induction false} TimesRemainder(f: GF, a: nat, b: nat) returns (q: nat)
    requires f.mm >= 1 && IsSym(f, a)
    ensures ClMul(a, b) == Xor(Times(f, a, b), ClMul(Modulus(f), q))
  {
    if b == 0 {
      q := 0;
      XorZero(0);
    } else {
      q := TimesRemainder(f, a, b / 2);
      TimesRange(f, a, b / 2);
      hide Xor, Shift, Modulus;
      q := StepRemainder(f, ClMul(a, b / 2), Times(f, a, b / 2), q, if b % 2 == 1 then a else 0);
    }
  }

  /** The product of two symbols is the remainder of their carry-less product by the field polynomial. */
  lemma MulIsRemainder(f: GF, a: nat, b: nat)
    requires f.mm >= 1 && IsSym(f, a) && IsSym(f, b)
    ensures IsRemainder(f, ClMul(a, b), Mul(f, a, b))
    ensures Pow2(f.mm) <= f.poly < 2 * Pow2(f.mm) ==>
      exists q: nat :: ClMul(a, b) == Xor(Mul(f, a, b), ClMul(f.poly, q))
  {
    MulIsTimes(f, a, b);
    var q := TimesRemainder(f, a, b);
    hide ClMul, Xor, Times, Mul, Modulus;
    if Pow2(f.mm) <= f.poly < 2 * Pow2(f.mm) {
      ModulusIs(f);
    }
  }

  /** The register after i steps is the remainder of x^i by the field polynomial. */
  lemma {:induction false} ExpIsRemainder(f: GF, i: nat)
    requires f.mm >= 1
    ensures IsRemainder(f, Pow2(i), Exp(f, i))
  {
    ExpRange(f, i);
    if i == 0 {
      XorZero(1);
      assert ClMul(Modulus(f), 0) == 0;
    } else {
      ExpIsRemainder(f, i - 1);
      ExpRange(f, i - 1);
      hide Xor, Shift, Modulus, ClMul;
      var q: nat :| Pow2(i - 1) == Xor(Exp(f, i - 1), ClMul(Modulus(f), q));
      q := StepRemainder(f, Pow2(i - 1), Exp(f, i - 1), q, 0);
      XorComm(0, 2 * Pow2(i - 1));
      XorZero(2 * Pow2(i - 1));
      XorComm(0, Shift(f, Exp(f, i - 1)));
      XorZero(Shift(f, Exp(f, i - 1)));
    }
  }

  // ----- remainders are unique

  lemma {:induction false} ClMulXor(a: nat, b: nat, c: nat)
    ensures ClMul(a, Xor(b, c)) == Xor(ClMul(a, b), ClMul(a, c))
    decreases b + c
  {
    hide Xor;
    if b + c == 0 {
      XorZero(0);
    } else {
      XorStep(b, c);
      var i, j: nat := b % 2, c % 2;
      ClMulXor(a, b / 2, c / 2);
      ClMulStep(a, b / 2, i);
      ClMulStep(a, c / 2, j);
      ClMulStep(a, Xor(b, c) / 2, Xor(b, c) % 2);
      hide ClMul;
      var u, v := ClMul(a, b / 2), ClMul(a, c / 2);
      XorDouble(u, v);
      XorExchange(if i == 1 then a else 0, 2 * u, if j == 1 then a else 0, 2 * v);
      XorSelf(a);
      XorZero(a);
      XorZero(0);
      XorComm(0, a);
      assert 2 * (b / 2) + i == b && 2 * (c / 2) + j == c && 2 * (Xor(b, c) / 2) + Xor(b, c) % 2 == Xor(b, c);
    }
  }

  // A nonzero multiple of the modulus is at least as long as the modulus.
  lemma {:induction false} MultipleLong(f: GF, q: nat)
    requires q != 0
    ensures Shr(ClMul(Modulus(f), q), f.mm) != 0
  {
    var m, n := Modulus(f), f.mm;
    ModulusParts(f);
    if q == 1 {
      ClMulStep(m, 0, 1);
      XorZero(m);
    } else {
      MultipleLong(f, q / 2);
      var u, a := ClMul(m, q / 2), if q % 2 == 1 then m else 0;
      ClMulStep(m, q / 2, q % 2);
      XorShr(a, 2 * u, n);
      hide ClMul, Modulus, Xor;
      LongDouble(u, n);
      LowSmall(0, n);
      XorCancel(Shr(a, n), Shr(2 * u, n));
      assert Shr(a, n) <= 1;
    }
  }

  lemma {:induction false} LongDouble(u: nat, n: nat)
    requires Shr(u, n) != 0
    ensures Shr(2 * u, n) >= 2
  {
    LowSmall(2 * u, n);
    if n != 0 {
      ShrTwice(u, n);
    }
  }

  lemma {:induction false} ShrTwice(u: nat, n: nat)
    ensures Shr(2 * u, n) >= 2 * Shr(u, n)
  {
    if n != 0 {
      ShrMonotone(2 * (u / 2), u, n - 1);
      ShrTwice(u / 2, n - 1);
    }
  }

  lemma {:induction false} ShrMonotone(a: nat, b: nat, n: nat)
    requires a <= b
    ensures Shr(a, n) <= Shr(b, n)
  {
    if n != 0 {
      ShrMonotone(a / 2, b / 2, n - 1);
    }
  }

  /** No other symbol is the remainder. */
  lemma OnlyRemainder(f: GF, x: nat, r: nat, r': nat)
    requires IsRemainder(f, x, r) && IsRemainder(f, x, r')
    ensures r == r'
  {
    var m := Modulus(f);
    var p: nat :| x == Xor(r, ClMul(m, p));
    var q: nat :| x == Xor(r', ClMul(m, q));
    SymXor(f, r, r');
    LowSmall(Xor(r, r'), f.mm);
    hide Modulus, ClMul, Xor, Shr, Pow2;
    var u, v := ClMul(m, p), ClMul(m, q);
    ClMulXor(m, p, q);
    XorExchange(r, u, r', v);
    XorSelf(x);
    XorCancel(Xor(r, r'), Xor(u, v));
    XorCancel(r, r');
    XorCancel(p, q);
    if Xor(p, q) != 0 {
      MultipleLong(f, Xor(p, q));
    } else {
      XorSelf(u);
    }
  }
}
