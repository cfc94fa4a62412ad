/** Divisibility: when the search for the prim-th root of one ends. */
module Numbers {

  ghost predicate IsProduct(d: nat, k: nat, x: nat) {
    x == d * k
  }

  ghost predicate Divides(d: nat, x: nat) {
    exists k: nat :: IsProduct(d, k, x)
  }

  /** No common divisor above one. */
  ghost predicate Coprime(a: nat, n: nat) {
    forall d: nat :: d >= 2 && Divides(d, a) ==> !Divides(d, n)
  }

  /** 1 + t n is a multiple of a: what the loop waits for. */
  ghost predicate Stops(a: nat, n: nat, t: nat)
  {
    t * n >= 0 && Divides(a, 1 + t * n)
  }

  lemma PositiveProduct(d: int, m: int)
    requires d >= 1 && m >= 1
    ensures d * m >= d
  {
  }

  lemma FactorSign(d: int, m: int)
    requires d >= 1
    ensures d * m <= 0 ==> m <= 0
    ensures d * m >= 0 ==> m >= 0
    ensures d * m >= 1 ==> m >= 1
  {
    if m >= 1 {
      PositiveProduct(d, m);
    }
    if m <= -1 {
      PositiveProduct(d, -m);
    }
  }

  lemma DividesDifference(d: nat, x: nat, y: nat)
    requires Divides(d, x) && Divides(d, y) && x <= y && d >= 1
    ensures Divides(d, y - x)
  {
    var j: nat :| IsProduct(d, j, x);
    var k: nat :| IsProduct(d, k, y);
    assert d * (k - j) == y - x;
    FactorSign(d, k - j);
    assert IsProduct(d, k - j, y - x);
  }

  lemma DividesMultiple(d: nat, x: nat, t: nat)
    requires Divides(d, x)
    ensures t * x >= 0 && Divides(d, t * x)
  {
    var k: nat :| IsProduct(d, k, x);
    assert t * (d * k) == d * (t * k);
    assert IsProduct(d, t * k, t * x);
  }

  lemma DividesSum(d: nat, x: nat, y: nat)
    requires Divides(d, x) && Divides(d, y)
    ensures Divides(d, x + y)
  {
    var j: nat :| IsProduct(d, j, x);
    var k: nat :| IsProduct(d, k, y);
    assert d * (j + k) == d * j + d * k;
    assert IsProduct(d, j + k, x + y);
  }

  lemma NoDivisorOfOne(d: nat)
    requires d >= 2
    ensures !Divides(d, 1)
  {
    forall k: nat ensures !IsProduct(d, k, 1) {
      if k >= 1 {
        PositiveProduct(d, k);
      }
    }
  }

  // The loop can end only if the two numbers have no common divisor.
  lemma StopsOnlyIfCoprime(a: nat, n: nat, t: nat)
    requires Stops(a, n, t) && a >= 1
    ensures Coprime(a, n)
  {
    forall d: nat | d >= 2 && Divides(d, a) ensures !Divides(d, n) {
      if Divides(d, n) {
        DividesMultiple(d, n, t);
        var k: nat :| IsProduct(a, k, 1 + t * n);
        DividesMultiple(d, a, k);
        assert k * a == 1 + t * n;
        DividesDifference(d, t * n, 1 + t * n);
        NoDivisorOfOne(d);
      }
    }
  }

  lemma {:induction false} CoprimeReduce(a: nat, n: nat)
    requires Coprime(a, n) && 1 <= a <= n
    ensures Coprime(a, n - a)
  {
    forall d: nat | d >= 2 && Divides(d, a) ensures !Divides(d, n - a) {
      if Divides(d, n - a) {
        DividesSum(d, a, n - a);
      }
    }
  }

  lemma CoprimeSymmetric(a: nat, n: nat)
    requires Coprime(a, n)
    ensures Coprime(n, a)
  {
  }

  /** x a == 1 + t n. */
  ghost predicate Bezout(a: nat, n: nat, x: nat, t: nat) {
    x * a == 1 + t * n
  }

  // Subtractive Euclid on coprime numbers, with both signs of the identity.
  lemma {:induction false} BezoutPair(a: nat, n: nat) returns (x: nat, t: nat, y: nat, u: nat)
    requires Coprime(a, n) && a >= 1 && n >= 1
    ensures Bezout(a, n, x, t) && Bezout(n, a, y, u)
    decreases a + n
  {
    if a == n {
      CoprimeEqual(a);
      x, t, y, u := 1, 0, 1, 0;
    } else if a < n {
      CoprimeReduce(a, n);
      var y', u';
      x, t, y', u' := BezoutPair(a, n - a);
      // x a == 1 + t (n - a);  y' (n - a) == 1 + u' a
      assert (x + t) * a == 1 + t * n by {
        assert (x + t) * a == x * a + t * a;
        assert t * n == t * (n - a) + t * a;
      }
      assert y' * n == 1 + (u' + y') * a by {
        assert (u' + y') * a == u' * a + y' * a;
        assert y' * n == y' * (n - a) + y' * a;
      }
      x, y, u := x + t, y', u' + y';
    } else {
      CoprimeSymmetric(a, n);
      y, u, x, t := BezoutPair'(n, a);
    }
  }

  lemma {:induction false} BezoutPair'(n: nat, a: nat) returns (y: nat, u: nat, x: nat, t: nat)
    requires Coprime(n, a) && 1 <= n < a
    ensures Bezout(a, n, x, t) && Bezout(n, a, y, u)
    decreases a + n, 0
  {
    CoprimeReduce(n, a);
    var x', t';
    y, u, x', t' := BezoutPair(n, a - n);
    assert (y + u) * n == 1 + u * a by {
      assert (y + u) * n == y * n + u * n;
      assert u * a == u * (a - n) + u * n;
    }
    assert x' * a == 1 + (t' + x') * n by {
      assert (t' + x') * n == t' * n + x' * n;
      assert x' * a == x' * (a - n) + x' * n;
    }
    y, x, t := y + u, x', t' + x';
  }

  lemma CoprimeEqual(a: nat)
    requires Coprime(a, a) && a >= 1
    ensures a == 1
  {
    assert IsProduct(a, 1, a);
    assert Divides(a, a);
  }

  // Subtracting prim from the round number keeps the stopping condition.
  lemma {:induction false} SmallestStop(a: nat, n: nat, t: nat) returns (s: nat)
    requires Stops(a, n, t) && a >= 1
    ensures Stops(a, n, s) && s < a
    decreases t
  {
    if t < a {
      s := t;
    } else {
      var k: nat :| IsProduct(a, k, 1 + t * n);
      assert 1 + (t - a) * n == a * (k - n) by {
        assert (t - a) * n == t * n - a * n;
        assert a * (k - n) == a * k - a * n;
      }
      assert (t - a) * n >= 0;
      FactorSign(a, k - n);
      assert IsProduct(a, k - n, 1 + (t - a) * n);
      s := SmallestStop(a, n, t - a);
    }
  }

  // The loop ends, within a rounds, exactly when a and n are coprime.
  lemma StopsIffCoprime(a: nat, n: nat)
    requires a >= 1 && n >= 1
    ensures Coprime(a, n) <==> exists t: nat :: t < a && Stops(a, n, t)
  {
    if Coprime(a, n) {
      var x, t, y, u := BezoutPair(a, n);
      assert x * a == a * x;
      assert IsProduct(a, x, 1 + t * n);
      var s := SmallestStop(a, n, t);
    }
    if t: nat :| t < a && Stops(a, n, t) {
      StopsOnlyIfCoprime(a, n, t);
    }
  }
}
