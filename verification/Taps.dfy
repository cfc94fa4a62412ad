/** Bitwise and, or and parity on natural numbers: the operations of the convolutional codec. */
module Taps {
  import opened Bits

  /** The C `&`. */
  function And(a: nat, b: nat): nat
  {
    if a == 0 then 0 else 2 * And(a / 2, b / 2) + (if a % 2 == 1 && b % 2 == 1 then 1 else 0)
  }

  /** The C `|`. */
  function Or(a: nat, b: nat): nat
    decreases a + b
  {
    if a == 0 && b == 0 then 0 else 2 * Or(a / 2, b / 2) + (if a % 2 == 1 || b % 2 == 1 then 1 else 0)
  }

  /** The C `(x >> k) & 1`. */
  function Bit(x: nat, k: nat): (r: nat)
    ensures r < 2
  {
    Shr(x, k) % 2
  }

  /** Whether an odd number of bits is set. */
  predicate Odd(x: nat)
  {
    if x == 0 then false else Odd(x / 2) != (x % 2 == 1)
  }

  lemma OddAppend(u: nat, i: nat)
    requires i < 2
    ensures Odd(2 * u + i) == (Odd(u) != (i == 1))
  {
    var x := 2 * u + i;
    assert x / 2 == u && x % 2 == i;
  }

  lemma {:induction false} OddXor(a: nat, b: nat)
    ensures Odd(Xor(a, b)) == (Odd(a) != Odd(b))
    decreases a + b
  {
    if a + b != 0 {
      OddXor(a / 2, b / 2);
      XorStep(a, b);
      OddAppend(a / 2, a % 2);
      OddAppend(b / 2, b % 2);
      OddAppend(Xor(a, b) / 2, Xor(a, b) % 2);
    }
  }

  lemma {:induction false} OddSplit(x: nat, k: nat)
    ensures Odd(x) == (Odd(Low(x, k)) != Odd(Shr(x, k)))
  {
    if k != 0 {
      OddSplit(x / 2, k - 1);
      OddAppend(x / 2, x % 2);
      OddAppend(Low(x / 2, k - 1), x % 2);
    }
  }

  // One folding step: the upper half is added to the lower half.
  lemma OddFold(x: nat, k: nat)
    ensures Odd(Low(Xor(x, Shr(x, k)), k)) == Odd(Low(x, 2 * k))
  {
    var h := Shr(x, k);
    XorLow(x, h, k);
    OddXor(Low(x, k), Low(h, k));
    LowShr(x, k, k);
    LowLow(x, 2 * k, k);
    OddSplit(Low(x, 2 * k), k);
  }

  lemma {:induction false} LowLow(x: nat, n: nat, k: nat)
    requires k <= n
    ensures Low(Low(x, n), k) == Low(x, k)
  {
    if k != 0 {
      LowStep(x, n);
      var y := Low(x, n);
      assert y / 2 == Low(x / 2, n - 1) && y % 2 == x % 2;
      LowStep(y, k);
      LowStep(x, k);
      hide *;
      LowLow(x / 2, n - 1, k - 1);
    }
  }

  lemma {:induction false} LowShr(x: nat, n: nat, k: nat)
    ensures Shr(Low(x, n + k), n) == Low(Shr(x, n), k)
  {
    if n != 0 {
      LowShr(x / 2, n - 1, k);
    }
  }

  lemma {:induction false} ShrShr(x: nat, j: nat, k: nat)
    ensures Shr(Shr(x, j), k) == Shr(x, j + k)
  {
    if j != 0 {
      ShrShr(x / 2, j - 1, k);
    }
  }

  // Folding a 32-bit word to one byte keeps its parity.
  lemma OddFolded(word: nat)
    requires word < Pow2(32)
    ensures var x := Xor(word, Shr(word, 16)); Odd(Low(Xor(x, Shr(x, 8)), 8)) == Odd(word)
  {
    hide Xor, Shr, Odd;
    OddFold(word, 16);
    LowSmall(word, 32);
    hide *;
    OddFold(Xor(word, Shr(word, 16)), 8);
  }

  /** One entry of the parity table (fec.c): the ones of a byte, counted and reduced modulo two. */
  method TableParity(byte: nat) returns (r: bool)
    ensures r == Odd(byte)
  {
    var count, rest := 0, byte;
    while rest != 0
      invariant Odd(byte) == ((count % 2 == 1) != Odd(rest))
      decreases rest
    {
      OddAppend(rest / 2, rest % 2);
      if rest % 2 == 1 {
        count := count + 1;
      }
      rest := rest / 2;
    }
    r := count % 2 == 1;
  }

  /** `parity` of fec.h on a 32-bit word: fold to a byte, then look the byte up. */
  method Parity(word: nat) returns (r: bool)
    requires word < Pow2(32)
    ensures r == Odd(word)
  {
    OddFolded(word);
    hide *;
    var x := Xor(word, Shr(word, 16));
    x := Xor(x, Shr(x, 8));
    r := TableParity(Low(x, 8));
  }

  // A register with one more bit on top, seen through a tap mask.
  lemma {:induction false} OddTop(x: nat, h: nat, p: nat, n: nat)
    requires x < Pow2(n) && h < 2
    ensures Odd(And(x + h * Pow2(n), p)) == (Odd(And(x, p)) != (h == 1 && Bit(p, n) == 1))
  {
    if n == 0 {
      OddBit(h, p);
    } else {
      var y := x + h * Pow2(n);
      assert y == x + 2 * (h * Pow2(n - 1));
      assert y / 2 == x / 2 + h * Pow2(n - 1) && y % 2 == x % 2;
      OddTop(x / 2, h, p / 2, n - 1);
      OddAnd(x, p);
      OddAnd(y, p);
    }
  }

  lemma OddBit(h: nat, p: nat)
    requires h < 2
    ensures Odd(And(h, p)) == (h == 1 && p % 2 == 1)
  {
    OddAnd(h, p);
  }

  lemma OddAnd(x: nat, p: nat)
    ensures Odd(And(x, p)) == (Odd(And(x / 2, p / 2)) != (x % 2 == 1 && p % 2 == 1))
  {
    hide *;
    AndStep(x, p);
    var i: nat := if x % 2 == 1 && p % 2 == 1 then 1 else 0;
    OddAppend(And(x / 2, p / 2), i);
  }

  lemma AndStep(x: nat, p: nat)
    ensures And(x, p) == 2 * And(x / 2, p / 2) + (if x % 2 == 1 && p % 2 == 1 then 1 else 0)
  {
  }

  // Setting bits of a word: what `w |= v << n` does to each bit.
  lemma {:induction false} OrBit(a: nat, b: nat, k: nat)
    ensures Bit(Or(a, b), k) == if Bit(a, k) == 1 || Bit(b, k) == 1 then 1 else 0
  {
    var o := Or(a, b);
    assert a + b != 0 ==> o / 2 == Or(a / 2, b / 2);
    if k != 0 {
      OrBit(a / 2, b / 2, k - 1);
    }
  }

  lemma {:induction false} BitShifted(v: nat, n: nat, k: nat)
    ensures Bit(v * Pow2(n), k) == if k < n then 0 else Bit(v, k - n)
  {
    if n != 0 {
      assert v * Pow2(n) == 2 * (v * Pow2(n - 1));
      if k != 0 {
        BitShifted(v, n - 1, k - 1);
      }
    }
  }

  lemma {:induction false} BitOfZero(k: nat)
    ensures Bit(0, k) == 0
  {
    if k != 0 {
      BitOfZero(k - 1);
    }
  }

  lemma {:induction false} XorOnes(s: nat, n: nat)
    requires s < Pow2(n)
    ensures Xor(Pow2(n) - 1, s) == Pow2(n) - 1 - s
  {
    if n == 0 {
      XorZero(0);
    } else {
      var o := Pow2(n) - 1;
      assert o / 2 == Pow2(n - 1) - 1 && o % 2 == 1;
      hide Xor;
      XorOnes(s / 2, n - 1);
      XorStep(o, s);
    }
  }
}
