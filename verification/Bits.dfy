/** Exclusive-or on natural numbers, written out bit by bit: the C `^` on symbols of any width. */
module Bits {

  function Pow2(n: nat): (p: nat)
    ensures p >= 1
  {
    if n == 0 then 1 else 2 * Pow2(n - 1)
  }

  function Xor(a: nat, b: nat): nat
    decreases a + b
  {
    if a == 0 && b == 0 then 0 else 2 * Xor(a / 2, b / 2) + (if a % 2 == b % 2 then 0 else 1)
  }

  lemma {:induction false} XorComm(a: nat, b: nat)
    ensures Xor(a, b) == Xor(b, a)
    decreases a + b
  {
    if a != 0 || b != 0 {
      XorComm(a / 2, b / 2);
    }
  }

  lemma {:induction false} XorZero(a: nat)
    ensures Xor(a, 0) == a
  {
    if a != 0 {
      XorZero(a / 2);
    }
  }

  lemma {:induction false} XorSelf(a: nat)
    ensures Xor(a, a) == 0
  {
    if a != 0 {
      XorSelf(a / 2);
    }
  }

  // How Xor acts on the last bit and on the remaining bits.
  lemma XorStep(a: nat, b: nat)
    ensures Xor(a, b) / 2 == Xor(a / 2, b / 2)
    ensures Xor(a, b) % 2 == if a % 2 == b % 2 then 0 else 1
  {
  }

  lemma SameBits(x: nat, y: nat)
    requires x / 2 == y / 2 && x % 2 == y % 2
    ensures x == y
  {
  }

  lemma {:induction false} XorAssoc(a: nat, b: nat, c: nat)
    ensures Xor(Xor(a, b), c) == Xor(a, Xor(b, c))
    decreases a + b + c
  {
    hide Xor;
    XorStep(a, b);
    XorStep(b, c);
    XorStep(Xor(a, b), c);
    XorStep(a, Xor(b, c));
    if a + b + c != 0 {
      XorAssoc(a / 2, b / 2, c / 2);
      SameBits(Xor(Xor(a, b), c), Xor(a, Xor(b, c)));
    }
  }

  // The laws in quantified form, for proofs that rearrange short sums.
  lemma XorLaws()
    ensures forall a: nat, b: nat :: Xor(a, b) == Xor(b, a)
    ensures forall a: nat, b: nat, c: nat :: Xor(Xor(a, b), c) == Xor(a, Xor(b, c))
    ensures forall a: nat :: Xor(a, 0) == a
    ensures forall a: nat :: Xor(a, a) == 0
  {
    forall a: nat, b: nat ensures Xor(a, b) == Xor(b, a) { XorComm(a, b); }
    forall a: nat, b: nat, c: nat ensures Xor(Xor(a, b), c) == Xor(a, Xor(b, c)) { XorAssoc(a, b, c); }
    forall a: nat ensures Xor(a, 0) == a { XorZero(a); }
    forall a: nat ensures Xor(a, a) == 0 { XorSelf(a); }
  }

  // Adding the same term on both sides; in particular a sum is zero exactly when its terms agree.
  lemma XorCancel(a: nat, b: nat)
    ensures Xor(a, Xor(a, b)) == b
    ensures Xor(Xor(a, b), b) == a
    ensures Xor(a, b) == 0 <==> a == b
  {
    XorAssoc(a, a, b);
    XorAssoc(a, b, b);
    XorSelf(a);
    XorSelf(b);
    XorZero(a);
    XorZero(b);
    XorComm(0, b);
  }

  // (a + b) + (c + d) == (a + c) + (b + d)
  lemma XorExchange(a: nat, b: nat, c: nat, d: nat)
    ensures Xor(Xor(a, b), Xor(c, d)) == Xor(Xor(a, c), Xor(b, d))
  {
    hide Xor;
    XorAssoc(a, b, Xor(c, d));
    XorAssoc(b, c, d);
    XorComm(b, c);
    XorAssoc(c, b, d);
    XorAssoc(a, c, Xor(b, d));
  }

  lemma XorAppend(u: nat, i: nat, v: nat, j: nat)
    requires i < 2 && j < 2
    ensures Xor(2 * u + i, 2 * v + j) == 2 * Xor(u, v) + (if i == j then 0 else 1)
  {
    hide Xor;
    var a, b := 2 * u + i, 2 * v + j;
    XorStep(a, b);
    assert a / 2 == u && b / 2 == v;
    assert a % 2 == i && b % 2 == j;
  }

  lemma XorDouble(a: nat, b: nat)
    ensures Xor(2 * a, 2 * b) == 2 * Xor(a, b)
  {
    hide Xor;
    XorAppend(a, 0, b, 0);
  }

  /** The C expression `x >> n`. */
  function Shr(x: nat, n: nat): nat
  {
    if n == 0 then x else Shr(x / 2, n - 1)
  }

  /** The C expression `x & ((1 << n) - 1)`. */
  function Low(x: nat, n: nat): (r: nat)
    ensures r < Pow2(n)
  {
    if n == 0 then 0 else 2 * Low(x / 2, n - 1) + x % 2
  }

  lemma AppendBit(h: nat, p: nat, l: nat, x: nat)
    requires x / 2 == h * p + l
    ensures x == h * (2 * p) + (2 * l + x % 2)
  {
    assert h * (2 * p) == 2 * (h * p);
    var m := h * p;
    assert x / 2 == m + l;
  }

  lemma {:induction false} ShrLow(x: nat, n: nat)
    ensures x == Shr(x, n) * Pow2(n) + Low(x, n)
  {
    if n == 0 {
    } else {
      ShrLow(x / 2, n - 1);
      AppendBit(Shr(x / 2, n - 1), Pow2(n - 1), Low(x / 2, n - 1), x);
    }
  }

  lemma LowStep(x: nat, n: nat)
    requires n > 0
    ensures Low(x, n) == 2 * Low(x / 2, n - 1) + x % 2
  {
  }

  lemma {:induction false} LowSmall(x: nat, n: nat)
    ensures x < Pow2(n) <==> Low(x, n) == x
    ensures x < Pow2(n) <==> Shr(x, n) == 0
  {
    if n == 0 {
    } else {
      LowSmall(x / 2, n - 1);
    }
  }

  lemma {:induction false} ShrTop(x: nat, n: nat)
    requires Pow2(n) <= x < 2 * Pow2(n)
    ensures Shr(x, n) == 1
  {
    if n != 0 {
      ShrTop(x / 2, n - 1);
    }
  }

  lemma {:induction false} XorLow(a: nat, b: nat, n: nat)
    ensures Low(Xor(a, b), n) == Xor(Low(a, n), Low(b, n))
  {
    hide Xor;
    XorStep(a, b);
    if n == 0 {
      XorZero(0);
    } else {
      XorLow(a / 2, b / 2, n - 1);
      LowStep(a, n);
      LowStep(b, n);
      LowStep(Xor(a, b), n);
      hide Low;
      XorAppend(Low(a / 2, n - 1), a % 2, Low(b / 2, n - 1), b % 2);
    }
  }

  lemma {:induction false} XorShr(a: nat, b: nat, n: nat)
    ensures Shr(Xor(a, b), n) == Xor(Shr(a, n), Shr(b, n))
  {
    hide Xor;
    XorStep(a, b);
    if n != 0 {
      XorShr(a / 2, b / 2, n - 1);
    }
  }

  lemma XorBound(a: nat, b: nat, n: nat)
    requires a < Pow2(n) && b < Pow2(n)
    ensures Xor(a, b) < Pow2(n)
  {
    XorLow(a, b, n);
    LowSmall(a, n);
    LowSmall(b, n);
    LowSmall(Xor(a, b), n);
  }

  /** Remainder of a natural number, by repeated subtraction. */
  function Mod(x: nat, d: nat): (r: nat)
    requires d > 0
    ensures r < d
  {
    if x < d then x else Mod(x - d, d)
  }

  lemma {:induction false} ModIsRemainder(x: nat, d: nat)
    requires d > 0
    ensures Mod(x, d) == x % d
  {
    var k, r := ModQuotient(x, d);
    RemainderUnique(x, d, k, r);
  }

  lemma {:induction false} ModQuotient(x: nat, d: nat) returns (k: nat, r: nat)
    requires d > 0
    ensures x == k * d + r && r == Mod(x, d)
    decreases x
  {
    if x < d {
      k, r := 0, x;
    } else {
      k, r := ModQuotient(x - d, d);
      k := k + 1;
    }
  }

  lemma RemainderUnique(x: int, d: int, q: int, r: int)
    requires d > 0 && x == q * d + r && 0 <= r < d
    ensures x % d == r
  {
    var q', r' := x / d, x % d;
    assert x == q' * d + r';
    var t := q' - q;
    assert t * d == q' * d - q * d;
    MultipleInRange(t, d);
  }

  lemma MultipleInRange(t: int, d: int)
    requires -d < t * d < d
    ensures t == 0
  {
    if t >= 1 && (t - 1) * d >= 0 {
      assert false;
    }
    if t <= -1 && (-t - 1) * d >= 0 {
      assert false;
    }
  }

  // Equal remainders of x and x + k d.
  lemma {:induction false} ModAdd(x: nat, k: nat, d: nat)
    requires d > 0
    ensures x + k * d >= 0
    ensures Mod(x + k * d, d) == Mod(x, d)
  {
    if k != 0 {
      ModAdd(x, k - 1, d);
      assert x + k * d == x + (k - 1) * d + d;
    }
  }
}
