/** The half-table encoder: feedback products come from a table of half the generator, mirrored on the fly,
    and the register is kept in the opposite order. */
module AltiVec {
  import opened Bits
  import opened Field
  import opened Poly
  import opened Code
  import opened Distance
  import opened Generator
  import opened Palindrome
  import opened Codec
  import opened Encoder

  /** Column k holds, for every symbol but zero, its product with the coefficient of x^(half - k). */
  ghost predicate Column(f: GF, g: seq<nat>, table: array2<nat>, k: nat, n: nat)
    requires k < table.Length1 && |g| == 2 * table.Length1 + 1 && n <= table.Length0
    reads table
  {
    forall i :: 1 <= i < n ==> table[i, k] == Mul(f, i, g[table.Length1 + k])
  }

  ghost predicate Sized(f: GF, g: seq<nat>, table: array2<nat>) {
    |g| == 2 * table.Length1 + 1 && table.Length1 >= 1 && table.Length0 == NN(f) + 1
  }

  ghost predicate HalfTable(f: GF, g: seq<nat>, table: array2<nat>)
    reads table
  {
    && Sized(f, g, table)
    && (forall k: nat :: k < table.Length1 ==> table[0, k] == 0)
    && forall k: nat :: k < table.Length1 ==> Column(f, g, table, k, table.Length0)
  }

  /** `alpha_to[modnn(poly[j + 1] + index_of[i])]` */
  method TableEntry(rs: RS, i: nat, j: nat) returns (x: nat)
    requires rs.Valid() && 1 <= i <= rs.nn && j < rs.nroots
    ensures x == Mul(rs.F(), i, GeneratorPoly(rs.P(), rs.nroots)[rs.nroots - (j + 1)])
  {
    ghost var f := rs.F();
    GoodPrimitive(rs.P());
    assert IsIndex(f, rs.indexOf[i], i);
    GeneratorIndex(rs, rs.nroots - (j + 1));
    ghost var g := GeneratorPoly(rs.P(), rs.nroots)[rs.nroots - (j + 1)];
    hide Mul, Exp, GeneratorPoly, Primitive, Good;
    IndexZero(f, rs.indexOf[i], i);
    x := Lookup(f, rs.mm, rs.nn, rs.alphaTo, rs.genpoly[j + 1], rs.indexOf[i]);
    MulComm(f, i, g);
  }

  method FillColumn(rs: RS, table: array2<nat>, j: nat)
    requires rs.Valid() && Sized(rs.F(), GeneratorPoly(rs.P(), rs.nroots), table) && j < table.Length1
    modifies table
    ensures Column(rs.F(), GeneratorPoly(rs.P(), rs.nroots), table, table.Length1 - j - 1, table.Length0)
    ensures table[0, j] == 0 && forall k | 0 <= k < table.Length1 && k != j :: table[0, k] == old(table[0, k])
    ensures forall k: nat | k < table.Length1 && k != table.Length1 - j - 1
        && old(Column(rs.F(), GeneratorPoly(rs.P(), rs.nroots), table, k, table.Length0)) ::
      Column(rs.F(), GeneratorPoly(rs.P(), rs.nroots), table, k, table.Length0)
  {
    hide Mul, GeneratorPoly, Primitive, Good;
    ghost var g := GeneratorPoly(rs.P(), rs.nroots);
    var half := table.Length1;
    table[0, j] := 0;
    var i := 1;
    while i <= rs.nn
      invariant 1 <= i <= rs.nn + 1
      invariant Column(rs.F(), g, table, half - j - 1, i)
      invariant table[0, j] == 0 && forall k | 0 <= k < half && k != j :: table[0, k] == old(table[0, k])
      invariant forall i, k | 1 <= i < table.Length0 && 0 <= k < half && k != half - j - 1 ::
        table[i, k] == old(table[i, k])
    {
      var x := TableEntry(rs, i, j);
      table[i, half - j - 1] := x;
      i := i + 1;
    }
  }

  /** `rs_init_av`. */
  method InitTable(rs: RS) returns (table: array2<nat>)
    requires rs.Valid() && rs.nroots >= 2 && rs.nroots % 2 == 0
    ensures fresh(table) && HalfTable(rs.F(), GeneratorPoly(rs.P(), rs.nroots), table)
  {
    hide Mul, GeneratorPoly, Primitive, Good, Column;
    var half := rs.nroots / 2;
    table := new nat[rs.nn + 1, half];
    ghost var f, g := rs.F(), GeneratorPoly(rs.P(), rs.nroots);
    var j := 0;
    while j < half
      invariant 0 <= j <= half
      invariant forall k: nat :: k < j ==> table[0, k] == 0
      invariant forall k: nat :: half - j <= k < half ==> Column(f, g, table, k, table.Length0)
    {
      FillColumn(rs, table, j);
      j := j + 1;
    }
  }

  // ----- encoding

  /** The register in the opposite order of the parity symbols. */
  ghost predicate Opposite(c: seq<nat>, p: seq<nat>) {
    |c| == |p| && forall m :: 0 <= m < |c| ==> c[m] == p[|p| - 1 - m]
  }

  /** What one step of the vector register must produce. */
  ghost predicate Stepped(f: GF, g: seq<nat>, was: seq<nat>, now: seq<nat>, fb: nat) {
    && |now| == |was| > 0 && |g| == |was| + 1
    && now[0] == fb
    && forall m :: 1 <= m < |was| ==> now[m] == Xor(was[m - 1], Mul(f, fb, g[|was| - m]))
  }

  // A step in one order is a step of the plain encoder in the other.
  lemma OppositeStep(f: GF, g: seq<nat>, was: seq<nat>, now: seq<nat>, p: seq<nat>, d: nat)
    requires Primitive(f) && |p| > 0 && |g| == |p| + 1 && g[|p|] == 1
    requires IsSym(f, Xor(d, p[0])) && Opposite(was, p) && Stepped(f, g, was, now, Xor(d, p[0]))
    ensures Opposite(now, EncodeStep(f, g, p, d))
  {
    PrimitiveWide(f);
    hide Mul, Xor, Primitive, EncodeStep;
    var fb, n, r := Xor(d, p[0]), |p|, EncodeStep(f, g, p, d);
    MulComm(f, fb, 1);
    MulOne(f, fb);
    XorComm(0, fb);
    XorZero(fb);
    forall m | 0 <= m < n ensures now[m] == r[n - 1 - m] {
      if m > 0 {
        assert was[m - 1] == p[n - m];
      }
    }
  }

  // The two halves of the feedback, the second read from the table and the first its mirror image.
  lemma Feedback(f: GF, g: seq<nat>, table: array2<nat>, fb: nat, k: nat)
    requires Primitive(f) && HalfTable(f, g, table) && fb < table.Length0 && k < table.Length1
    ensures table[fb, k] == Mul(f, fb, g[table.Length1 + k])
  {
    hide Primitive, Mul;
    if fb == 0 {
      MulZero(f, g[table.Length1 + k]);
    } else {
      assert Column(f, g, table, k, table.Length0);
    }
  }

  /** One symbol: `feedback1` is the table row, `feedback0` the row reversed after its first element. */
  method VectorStep(ghost f: GF, ghost g: seq<nat>, table: array2<nat>, c: array<nat>, fb: nat)
    requires Primitive(f) && HalfTable(f, g, table) && fb < table.Length0 && c.Length == 2 * table.Length1
    requires forall k :: 0 <= k < |g| ==> g[k] == g[|g| - 1 - k]
    modifies c
    ensures Stepped(f, g, old(c[..]), c[..], fb)
  {
    hide Primitive, Mul, Xor;
    var half := table.Length1;
    ghost var was := c[..];
    forall k: nat | k < half ensures table[fb, k] == Mul(f, fb, g[half + k]) {
      Feedback(f, g, table, fb, k);
    }
    hide HalfTable;
    var m := 2 * half - 1;
    while m > 0
      invariant 0 <= m < 2 * half
      invariant forall k :: 0 <= k <= m ==> c[k] == was[k]
      invariant forall k :: m < k < 2 * half ==> c[k] == Xor(was[k - 1], Mul(f, fb, g[2 * half - k]))
    {
      var product := if m >= half then table[fb, m - half] else table[fb, half - m];
      assert product == Mul(f, fb, g[2 * half - m]) by {
        assert m >= half ==> g[half + (m - half)] == g[2 * half - m];
        assert m < half ==> half + (half - m) == 2 * half - m;
      }
      c[m] := Xor(c[m - 1], product);
      m := m - 1;
    }
    c[0] := fb;
  }

  /** `encode_rs_av`: the same parity as the plain encoder, for every code with centred roots and an even
      number of parity symbols. */
  method EncodeAv(rs: RS, table: array2<nat>, data: array<nat>, parity: array<nat>)
    requires rs.Valid() && rs.nroots >= 2 && Centred(rs.P())
    requires HalfTable(rs.F(), GeneratorPoly(rs.P(), rs.nroots), table)
    requires data.Length == rs.nn - rs.nroots - rs.pad && IsSyms(rs.F(), data[..])
    requires parity.Length == rs.nroots && parity !in rs.Tables() && parity != data
    modifies parity
    ensures parity[..] == Parity(rs.F(), GeneratorPoly(rs.P(), rs.nroots), data[..], rs.nroots)
  {
    hide *;
    ghost var f, g, n := rs.F(), GeneratorPoly(rs.P(), rs.nroots), rs.nroots;
    EncoderParts(rs, table);
    GeneratorMirror(rs.P());
    var c := new nat[rs.nroots](_ => 0);
    StartOpposite(f, g, c[..], data[..]);
    var i := 0;
    while i < rs.nn - rs.nroots - rs.pad
      invariant 0 <= i <= data.Length && rs.Valid()
      invariant Opposite(c[..], Parity(f, g, data[..i], n))
    {
      ghost var was, p := c[..], Parity(f, g, data[..i], n);
      NextSymbol(rs, c[..], data[..], i);
      var fb := Xor(data[i], c[rs.nroots - 1]);
      VectorStep(f, g, table, c, fb);
      OppositeStep(f, g, was, c[..], p, data[i]);
      i := i + 1;
    }
    assert data[..i] == data[..];
    i := 0;
    while i < rs.nroots
      invariant 0 <= i <= rs.nroots
      invariant Opposite(c[..], Parity(f, g, data[..], n))
      invariant forall k :: 0 <= k < i ==> parity[rs.nroots - k - 1] == c[k]
    {
      parity[rs.nroots - i - 1] := c[i];
      i := i + 1;
    }
    Turned(c[..], Parity(f, g, data[..], n), parity[..]);
  }

  lemma Turned(c: seq<nat>, p: seq<nat>, q: seq<nat>)
    requires Opposite(c, p) && |q| == |p| && forall k :: 0 <= k < |c| ==> q[|p| - k - 1] == c[k]
    ensures q == p
  {
    forall j | 0 <= j < |p| ensures q[j] == p[j] {
      assert q[|p| - (|p| - 1 - j) - 1] == c[|p| - 1 - j];
    }
  }

  lemma EncoderParts(rs: RS, table: array2<nat>)
    requires rs.Valid() && HalfTable(rs.F(), GeneratorPoly(rs.P(), rs.nroots), table)
    ensures Primitive(rs.F()) && Good(rs.P()) && rs.P().nroots == rs.nroots && rs.P().f == rs.F()
    ensures rs.nroots + rs.pad < rs.nn && rs.Tables() == {rs.alphaTo, rs.indexOf, rs.genpoly}
    ensures rs.nroots == 2 * table.Length1 && table.Length0 == NN(rs.F()) + 1
  {
    GoodParts(rs.P());
  }

  lemma GeneratorMirror(c: Params)
    requires Good(c) && Centred(c)
    ensures var g := GeneratorPoly(c, c.nroots);
      (forall k :: 0 <= k < |g| ==> g[k] == g[|g| - 1 - k]) && g[c.nroots] == 1
  {
    hide *;
    var g := GeneratorPoly(c, c.nroots);
    Palindromic(c, 0);
    forall k | 0 <= k < |g| ensures g[k] == g[|g| - 1 - k] {
      Palindromic(c, k);
    }
  }

  lemma StartOpposite(f: GF, g: seq<nat>, c: seq<nat>, data: seq<nat>)
    requires |g| == |c| + 1 && |c| > 0 && forall k :: 0 <= k < |c| ==> c[k] == 0
    ensures Opposite(c, Parity(f, g, data[..0], |c|))
  {
  }

  // The next feedback symbol is the plain encoder's, and the plain register's next value.
  lemma NextSymbol(rs: RS, c: seq<nat>, data: seq<nat>, i: nat)
    requires rs.Valid() && rs.nroots > 0 && i < |data| && IsSyms(rs.F(), data)
    requires Opposite(c, Parity(rs.F(), GeneratorPoly(rs.P(), rs.nroots), data[..i], rs.nroots))
    ensures var f, g, n := rs.F(), GeneratorPoly(rs.P(), rs.nroots), rs.nroots;
      var p := Parity(f, g, data[..i], n);
      && |c| == n && c[n - 1] == p[0] && IsSym(f, Xor(data[i], p[0])) && Xor(data[i], p[0]) <= NN(f)
      && Parity(f, g, data[..i + 1], n) == EncodeStep(f, g, p, data[i])
  {
    var f, g, n := rs.F(), GeneratorPoly(rs.P(), rs.nroots), rs.nroots;
    hide GeneratorPoly, Xor, EncodeStep, Good;
    ParityRange(f, g, data[..i], n);
    SymXor(f, data[i], Parity(f, g, data[..i], n)[0]);
    assert data[..i + 1][..i] == data[..i];
  }
}
