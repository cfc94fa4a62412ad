/** The generator polynomial, highest coefficient first, and the systematic encoding it defines. */
module Generator {
  import opened Bits
  import opened Field
  import opened Poly
  import opened BerlekampMassey
  import opened Code
  import opened Distance

  function Roots(c: Params, n: nat): (r: seq<nat>)
    ensures |r| == n && forall i :: 0 <= i < n ==> r[i] == Root(c, i)
  {
    seq(n, i requires 0 <= i < n => Root(c, i))
  }

  /** The product of (x + Root(i)) for i below n, highest coefficient first: read backwards it is
      the product of (1 + Root(i) z). */
  function GeneratorPoly(c: Params, n: nat): (g: seq<nat>)
    ensures |g| == n + 1
  {
    ErasureLocator(c.f, Roots(c, n), n)
  }

  lemma RootsAreLocators(c: Params, n: nat)
    requires Primitive(c.f)
    ensures Locators(c.f, Roots(c, n))
  {
    hide Beta, Primitive;
    forall i | 0 <= i < n ensures IsSym(c.f, Root(c, i)) && Root(c, i) != 0 {
      BetaRange(c, c.fcr + i);
    }
  }

  // Monic, and zero at every root.
  lemma GeneratorRoots(c: Params, n: nat)
    requires Primitive(c.f)
    ensures var g := GeneratorPoly(c, n);
      && IsSyms(c.f, g) && g[0] == 1
      && forall i :: 0 <= i < n ==> Quo(c.f, g, Root(c, i), n) == 0
  {
    RootsAreLocators(c, n);
    hide Primitive, Root, Quo, ErasureLocator;
    ErasureLocatorRoots(c.f, Roots(c, n), n);
    forall i | 0 <= i < n ensures Quo(c.f, GeneratorPoly(c, n), Root(c, i), n) == 0 {
      assert Roots(c, n)[i] == Root(c, i);
    }
  }

  /** u after z zero symbols. */
  function AfterZeros(z: nat, u: seq<nat>): (b: seq<nat>)
    ensures |b| == z + |u|
    ensures forall p :: 0 <= p < |b| ==> b[p] == if p < z then 0 else u[p - z]
  {
    seq(z, _ => 0) + u
  }

  // A word of full length that vanishes at every root is a codeword.
  lemma CodewordByRoots(c: Params, w: seq<nat>)
    requires c.pad < NN(c.f) && |w| == NN(c.f) - c.pad && IsSyms(c.f, w)
    requires forall i :: 0 <= i < c.nroots ==> Quo(c.f, w, Root(c, i), |w| - 1) == 0
    ensures IsCodeword(c, w)
  {
    hide Quo, Root, IsSyms, NN;
  }

  lemma ZerosRange(f: GF, z: nat, u: seq<nat>)
    requires IsSyms(f, u)
    ensures IsSyms(f, AfterZeros(z, u))
  {
    SymZero(f);
  }

  lemma ZerosVanish(f: GF, z: nat, u: seq<nat>, x: nat)
    requires Primitive(f) && IsSyms(f, u) && |u| > 0 && Quo(f, u, x, |u| - 1) == 0
    ensures Quo(f, AfterZeros(z, u), x, z + |u| - 1) == 0
  {
    ZerosRange(f, z, u);
    hide Primitive, Quo, IsSyms;
    QuoPadded(f, z, u, AfterZeros(z, u), x, z + |u| - 1);
  }

  // The generator in the last positions of an otherwise zero block is a codeword.
  lemma GeneratorIsCodeword(c: Params, z: nat)
    requires Good(c) && z + c.nroots + 1 + c.pad == NN(c.f)
    ensures IsCodeword(c, AfterZeros(z, GeneratorPoly(c, c.nroots)))
  {
    hide *;
    var g, b := GeneratorPoly(c, c.nroots), AfterZeros(z, GeneratorPoly(c, c.nroots));
    GoodParts(c);
    GeneratorRoots(c, c.nroots);
    ZerosRange(c.f, z, g);
    forall i | 0 <= i < c.nroots ensures Quo(c.f, b, Root(c, i), |b| - 1) == 0 {
      assert Quo(c.f, g, Root(c, i), c.nroots) == 0;
      ZerosVanish(c.f, z, g, Root(c, i));
    }
    CodewordByRoots(c, b);
  }

  /** All but the k-th of n + 1 positions starting at z. */
  function PositionsExcept(z: nat, n: nat, k: nat): (ps: seq<nat>)
    requires k <= n
    ensures |ps| == n && forall j :: 0 <= j < n ==> ps[j] == z + (if j < k then j else j + 1)
  {
    seq(n, j requires 0 <= j < n => z + (if j < k then j else j + 1))
  }

  lemma AmongExcept(z: nat, n: nat, k: nat, p: nat)
    requires k <= n && z <= p <= z + n && p != z + k
    ensures p in PositionsExcept(z, n, k)
  {
    var j := if p < z + k then p - z else p - z - 1;
    assert PositionsExcept(z, n, k)[j] == p;
  }

  lemma ExceptCovers(c: Params, z: nat, g: seq<nat>, k: nat)
    requires |g| > 0 && k < |g| && g[k] == 0
    ensures ZeroOff(Padded(c, AfterZeros(z, g)), PositionsExcept(c.pad + z, |g| - 1, k))
  {
    var full, ps := Padded(c, AfterZeros(z, g)), PositionsExcept(c.pad + z, |g| - 1, k);
    hide PositionsExcept;
    forall p | 0 <= p < |full| && p !in ps ensures full[p] == 0 {
      if p >= c.pad + z && p != c.pad + z + k {
        AmongExcept(c.pad + z, |g| - 1, k, p);
      }
    }
  }

  // A zero coefficient would make the generator a codeword of too small weight.
  lemma LightGenerator(c: Params, k: nat)
    requires Good(c) && k <= c.nroots && GeneratorPoly(c, c.nroots)[k] == 0
    ensures GeneratorPoly(c, c.nroots)[0] == 0
  {
    GoodParts(c);
    var g, n := GeneratorPoly(c, c.nroots), c.nroots;
    var z := NN(c.f) - c.pad - n - 1;
    var b, ps := AfterZeros(z, g), PositionsExcept(c.pad + z, n, k);
    assert Positions(c, ps);
    hide *;
    GeneratorIsCodeword(c, z);
    ExceptCovers(c, z, g, k);
    LightCodeword(c, b, ps);
    assert b[z] == g[0];
  }

  // No coefficient of the generator is zero.
  lemma GeneratorNonzero(c: Params, k: nat)
    requires Good(c) && k <= c.nroots
    ensures GeneratorPoly(c, c.nroots)[k] != 0
  {
    GoodPrimitive(c);
    GeneratorRoots(c, c.nroots);
    if GeneratorPoly(c, c.nroots)[k] == 0 {
      LightGenerator(c, k);
    }
  }

  // ----- the encoder's shift register

  /** Symbol j of the register after one more data symbol d: the next one, plus the fed back product. */
  function NextSymbol(f: GF, g: seq<nat>, parity: seq<nat>, d: nat, j: nat): nat
    requires |g| == |parity| + 1 && j < |parity|
  {
    Xor(if j + 1 < |parity| then parity[j + 1] else 0, Mul(f, Xor(d, parity[0]), g[j + 1]))
  }

  /** The register after one more data symbol d. */
  function EncodeStep(f: GF, g: seq<nat>, parity: seq<nat>, d: nat): (r: seq<nat>)
    requires |g| == |parity| + 1 && |parity| > 0
    ensures |r| == |parity|
    ensures forall j :: 0 <= j < |r| ==> r[j] == NextSymbol(f, g, parity, d, j)
  {
    seq(|parity|, j requires 0 <= j < |parity| => NextSymbol(f, g, parity, d, j))
  }

  /** The register after the whole of data. */
  function Parity(f: GF, g: seq<nat>, data: seq<nat>, n: nat): (r: seq<nat>)
    requires |g| == n + 1 && n > 0
    ensures |r| == n
  {
    if |data| == 0 then seq(n, _ => 0)
    else EncodeStep(f, g, Parity(f, g, data[..|data| - 1], n), data[|data| - 1])
  }

  lemma {:induction false} ParityRange(f: GF, g: seq<nat>, data: seq<nat>, n: nat)
    requires |g| == n + 1 && n > 0
    ensures IsSyms(f, Parity(f, g, data, n))
  {
    hide Xor, Mul;
    SymZero(f);
    if |data| > 0 {
      ParityRange(f, g, data[..|data| - 1], n);
      StepRange(f, g, Parity(f, g, data[..|data| - 1], n), data[|data| - 1]);
    }
  }

  lemma StepRange(f: GF, g: seq<nat>, p: seq<nat>, d: nat)
    requires |g| == |p| + 1 && |p| > 0 && IsSyms(f, p)
    ensures IsSyms(f, EncodeStep(f, g, p, d))
  {
    hide Xor, Mul;
    SymZero(f);
    var r := EncodeStep(f, g, p, d);
    forall j | 0 <= j < |r| ensures IsSym(f, r[j]) {
      SymXor(f, if j + 1 < |p| then p[j + 1] else 0, Mul(f, Xor(d, p[0]), g[j + 1]));
    }
  }

  // Data so far followed by the register is the previous word shifted once, plus a multiple of
  // the generator.
  lemma StepWord(f: GF, g: seq<nat>, data: seq<nat>, p: seq<nat>, d: nat)
    requires Primitive(f) && |g| == |p| + 1 && |p| > 0 && g[0] == 1
    requires IsSym(f, d) && IsSyms(f, p)
    ensures data + [d] + EncodeStep(f, g, p, d)
         == AddMul(f, data + p + [0], Xor(d, p[0]), AfterZeros(|data|, g))
  {
    var fb, m := Xor(d, p[0]), |data|;
    var u, v, w, e := data + p + [0], AfterZeros(m, g), data + [d] + EncodeStep(f, g, p, d), EncodeStep(f, g, p, d);
    SymXor(f, d, p[0]);
    PrimitiveWide(f);
    MulComm(f, fb, 1);
    MulOne(f, fb);
    hide Mul, Primitive, Xor, EncodeStep, AfterZeros, IsSyms;
    MulZero(f, fb);
    XorComm(d, p[0]);
    XorCancel(p[0], d);
    forall q | 0 <= q < |u| ensures w[q] == Xor(u[q], Mul(f, fb, v[q])) {
      if q < m {
        XorZero(data[q]);
      } else if q == m {
        assert u[q] == p[0] && v[q] == g[0];
      } else {
        assert w[q] == e[q - m - 1];
      }
    }
  }

  // The invariant of the encoder: data so far, followed by the register, vanishes at the root.
  lemma {:induction false} ParityVanishes(f: GF, g: seq<nat>, data: seq<nat>, n: nat, x: nat)
    requires Primitive(f) && |g| == n + 1 && n > 0 && IsSyms(f, g) && g[0] == 1 && Quo(f, g, x, n) == 0
    requires IsSyms(f, data)
    ensures Quo(f, data + Parity(f, g, data, n), x, |data| + n - 1) == 0
  {
    hide Mul, Primitive, Xor, Quo, EncodeStep;
    if |data| == 0 {
      SymZero(f);
      assert data + Parity(f, g, data, n) == seq(n, _ => 0);
      ZeroVanishes(f, seq(n, _ => 0), x, n - 1);
    } else {
      var m, d := |data| - 1, data[|data| - 1];
      var data' := data[..m];
      ParityVanishes(f, g, data', n, x);
      ParityRange(f, g, data', n);
      assert data == data' + [d];
      var p := Parity(f, g, data', n);
      StepWord(f, g, data', p, d);
      var u, v := data' + p + [0], AfterZeros(m, g);
      SymZero(f);
      assert IsSyms(f, u) && IsSyms(f, v);
      ShiftVanishes(f, data' + p, u, x);
      QuoPadded(f, m, g, v, x, m + n);
      QuoAddMul(f, u, Xor(d, p[0]), v, x, m + n);
      MulZero(f, Xor(d, p[0]));
      XorZero(0);
    }
  }

  lemma {:induction false} ZeroVanishes(f: GF, u: seq<nat>, x: nat, k: nat)
    requires Primitive(f) && (forall i :: 0 <= i < |u| ==> u[i] == 0)
    ensures Quo(f, u, x, k) == 0
  {
    hide Mul, Primitive, Xor;
    DotExtend(f, u, PowersDown(f, x, k), 0, k + 1);
  }

  lemma ShiftVanishes(f: GF, u: seq<nat>, v: seq<nat>, x: nat)
    requires Primitive(f) && |u| > 0 && v == u + [0] && IsSyms(f, v) && Quo(f, u, x, |u| - 1) == 0
    ensures Quo(f, v, x, |u|) == 0
  {
    hide Mul, Primitive, Xor;
    QuoStep(f, v, x, |u|);
    DotTerms(f, u, PowersDown(f, x, |u| - 1), v, PowersDown(f, x, |u| - 1), |u|);
    MulZero(f, x);
    XorZero(0);
  }

  lemma JoinedSyms(f: GF, u: seq<nat>, v: seq<nat>)
    requires IsSyms(f, u) && IsSyms(f, v)
    ensures IsSyms(f, u + v)
  {
  }

  // Systematic encoding: data followed by its parity is a codeword, ...
  lemma EncodedIsCodeword(c: Params, data: seq<nat>)
    requires Good(c) && c.nroots >= 1 && IsSyms(c.f, data) && |data| == NN(c.f) - c.nroots - c.pad
    ensures IsCodeword(c, data + Parity(c.f, GeneratorPoly(c, c.nroots), data, c.nroots))
  {
    hide *;
    var g, n := GeneratorPoly(c, c.nroots), c.nroots;
    var w := data + Parity(c.f, g, data, n);
    GoodParts(c);
    ParityRange(c.f, g, data, n);
    JoinedSyms(c.f, data, Parity(c.f, g, data, n));
    GeneratorRoots(c, n);
    forall i | 0 <= i < n ensures Quo(c.f, w, Root(c, i), |w| - 1) == 0 {
      ParityVanishes(c.f, g, data, n, Root(c, i));
    }
    CodewordByRoots(c, w);
  }

  /** The last n positions of the block. */
  function Tail(c: Params, n: nat): (ps: seq<nat>)
    requires n <= NN(c.f)
    ensures |ps| == n && forall j :: 0 <= j < n ==> ps[j] == NN(c.f) - n + j
  {
    seq(n, j requires 0 <= j < n => NN(c.f) - n + j)
  }

  lemma TailPositions(c: Params, n: nat)
    requires n <= NN(c.f)
    ensures Positions(c, Tail(c, n))
  {
    hide NN;
  }

  lemma SuffixEqual(d: seq<nat>, a: seq<nat>, b: seq<nat>)
    requires d + a == d + b
    ensures a == b
  {
    assert a == (d + a)[|d|..] && b == (d + b)[|d|..];
  }

  // ... and no other parity makes one.
  lemma ParityUnique(c: Params, data: seq<nat>, parity: seq<nat>)
    requires Good(c) && c.nroots >= 1 && IsSyms(c.f, data) && |data| == NN(c.f) - c.nroots - c.pad
    requires |parity| == c.nroots && IsCodeword(c, data + parity)
    ensures parity == Parity(c.f, GeneratorPoly(c, c.nroots), data, c.nroots)
  {
    hide *;
    var p, n := Parity(c.f, GeneratorPoly(c, c.nroots), data, c.nroots), c.nroots;
    EncodedIsCodeword(c, data);
    TailPositions(c, n);
    TailDifference(c, data, parity, p);
    CloseCodewords(c, data + parity, data + p, Tail(c, n));
    SuffixEqual(data, parity, p);
  }

  lemma TailDifference(c: Params, data: seq<nat>, a: seq<nat>, b: seq<nat>)
    requires |a| == |b| && c.pad + |data| + |a| == NN(c.f)
    ensures forall q :: q in DiffPositions(c, data + a, data + b) ==> q in Tail(c, |a|)
  {
    hide NN, Tail;
    forall q | q in DiffPositions(c, data + a, data + b) ensures q in Tail(c, |a|) {
      var i := q - c.pad;
      assert (data + a)[i] != (data + b)[i];
      assert i >= |data|;
      assert Tail(c, |a|)[i - |data|] == q;
    }
  }
}
