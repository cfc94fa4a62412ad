/** The order of x: which field polynomials fill the log tables. */
module Order {
  import opened Bits
  import opened Numbers
  import opened Field

  /** The register takes the value x in one of its first n states, so the entry of x is written. */
  ghost predicate Written(f: GF, x: nat, n: nat) {
    exists i: nat :: i < n && Exp(f, i) == x
  }

  lemma RemainderBack(i: nat, k: nat)
    requires 0 < k <= i
    ensures i % k == (i - k) % k
  {
    var q, r := (i - k) / k, (i - k) % k;
    assert i - k == q * k + r;
    assert (q + 1) * k == q * k + k;
    RemainderUnique(i, k, q + 1, r);
  }

  lemma RemainderSmall(i: nat, k: nat)
    requires i < k
    ensures i % k == i
  {
    RemainderUnique(i, k, 0, i);
  }

  // A return after k steps repeats.
  lemma {:induction false} ReturnRepeats(f: GF, k: nat, i: nat)
    requires k > 0 && Exp(f, k) == 1
    ensures Exp(f, i) == Exp(f, i % k)
    decreases i
  {
    hide ShiftBy;
    if i < k {
      RemainderSmall(i, k);
    } else {
      ExpAdd(f, k, i - k);
      ReturnRepeats(f, k, i - k);
      RemainderBack(i, k);
    }
  }

  lemma {:induction false} ExpSetSmall(f: GF, k: nat)
    ensures |ExpSet(f, k)| <= k
  {
    hide Exp;
    if k == 0 {
      assert ExpSet(f, 0) == {};
    } else {
      ExpSetSmall(f, k - 1);
      assert ExpSet(f, k) == ExpSet(f, k - 1) + {Exp(f, k - 1)};
    }
  }

  // A register that returns early has too few states to take every nonzero value.
  lemma EarlyReturn(f: GF, k: nat)
    requires 0 < k < NN(f) && Exp(f, k) == 1
    ensures exists x: nat :: 1 <= x <= NN(f) && !Written(f, x, NN(f))
  {
    hide Exp, NN;
    var n := NN(f);
    if forall x: nat :: 1 <= x <= n ==> Written(f, x, n) {
      forall x | x in UpTo(n) ensures x in ExpSet(f, k) {
        assert Written(f, x, n);
        var i: nat :| i < n && Exp(f, i) == x;
        ReturnRepeats(f, k, i);
      }
      SubsetSize(UpTo(n), ExpSet(f, k));
      ExpSetSmall(f, k);
    }
  }

  /** Among the polynomials that pass the check on the register, every nonzero symbol gets an index exactly for
      the primitive ones. */
  lemma AllWrittenIff(f: GF)
    requires f.mm >= 1 && Exp(f, NN(f)) == 1
    ensures (forall x: nat :: 1 <= x <= NN(f) ==> Written(f, x, NN(f))) <==> Primitive(f)
  {
    if Primitive(f) {
      hide Exp, Primitive;
      forall x: nat | 1 <= x <= NN(f) ensures Written(f, x, NN(f)) {
        ExpOnto(f, x);
      }
    } else {
      var k :| 0 < k < NN(f) && Exp(f, k) == 1;
      EarlyReturn(f, k);
    }
  }

  // The least return divides every return.
  lemma LeastReturn(f: GF, n: nat, k: nat) returns (d: nat)
    requires Exp(f, n) == 1 && 0 < k < n && Exp(f, k) == 1
    ensures 0 < d < n && Divides(d, n) && Exp(f, d) == 1
    decreases k
  {
    var r := n % k;
    ReturnRepeats(f, k, n);
    hide Exp;
    if r == 0 {
      d := k;
      assert n == k * (n / k);
      FactorSign(k, n / k);
      assert IsProduct(k, n / k, n);
    } else {
      d := LeastReturn(f, n, r);
    }
  }

  /** Primitivity by checks a caller can make: the register returns after NN steps and after no proper divisor
      of NN. */
  lemma PrimitiveIff(f: GF)
    ensures Primitive(f) <==>
      && f.mm >= 1 && Exp(f, NN(f)) == 1
      && forall d: nat :: 0 < d < NN(f) && Divides(d, NN(f)) ==> Exp(f, d) != 1
  {
    if f.mm >= 1 && Exp(f, NN(f)) == 1 && !Primitive(f) {
      var k :| 0 < k < NN(f) && Exp(f, k) == 1;
      var d := LeastReturn(f, NN(f), k);
    }
  }
}
