/** A whole frame: the test programs' encoder, and encoding, decoding and comparing one frame. */
module Frame {
  import opened Bits
  import opened Taps
  import opened Trellis
  import opened Paths
  import opened Shift
  import opened Metrics
  import opened Chainback
  import opened Viterbi
  import opened Designs
  import opened RoundTrip

  lemma {:induction false} AndLow(x: nat, p: nat, n: nat)
    requires p < Pow2(n)
    ensures And(x, p) == And(Low(x, n), p)
  {
    AndStep(x, p);
    AndStep(Low(x, n), p);
    if n == 0 {
      AndZero(x);
    } else {
      AndLow(x / 2, p / 2, n - 1);
      LowStep(x, n);
      assert Low(x, n) / 2 == Low(x / 2, n - 1) && Low(x, n) % 2 == x % 2;
    }
  }

  lemma {:induction false} AndZero(x: nat)
    ensures And(x, 0) == 0
  {
    if x != 0 {
      AndZero(x / 2);
    }
  }

  // The encoder's register is the newest bits of everything shifted in.
  lemma RegisterIsLow(d: Design, u: seq<nat>)
    requires AreBits(u) && |u| > 0
    ensures Register(d, 0, u) == Low(Value(u), d.nu + 1)
  {
    StateIsFeed(d, 0, Front(u));
    var y := Feed(0, Front(u));
    assert Value(u) == 2 * y + Last(u);
    LowStep(Value(u), d.nu + 1);
    assert Value(u) / 2 == y && Value(u) % 2 == Last(u);
  }

  ghost predicate Narrow(d: Design) {
    forall j :: 0 <= j < |d.polys| ==> Abs(d.polys[j]) < Pow2(d.nu + 1)
  }

  /** The encoder's 32-bit shift register `sr` after the bits `u`. */
  ghost predicate Holds(sr: nat, u: seq<nat>)
    requires AreBits(u)
  {
    sr == Low(Value(u), 32)
  }

  // What an overlong register sends is what the constraint length allows it to see.
  lemma SameSent(d: Design, poly: int, sr: nat, u: seq<nat>)
    requires Shaped(d) && AreBits(u) && |u| > 0 && Holds(sr, u) && Abs(poly) < Pow2(d.nu + 1)
    ensures Sent(poly, sr) == Sent(poly, Register(d, 0, u))
  {
    RegisterIsLow(d, u);
    hide And, Value, Register, Odd;
    LowLow(Value(u), 32, d.nu + 1);
    AndLow(sr, Abs(poly), d.nu + 1);
  }

  lemma ValueNext(u: seq<nat>, b: nat)
    ensures Value(u + [b]) == 2 * Value(u) + b
  {
    assert Front(u + [b]) == u;
  }

  lemma HoldsNext(sr: nat, u: seq<nat>, b: nat)
    requires AreBits(u) && b < 2 && Holds(sr, u)
    ensures AreBits(u + [b]) && Holds(Low(2 * sr + b, 32), u + [b])
  {
    hide Low, Feed;
    ValueNext(u, b);
    LowAppend(Value(u), b, 32);
  }

  // `sr & 0xff`: the last eight bits.
  lemma LastByte(sr: nat, u: seq<nat>)
    requires AreBits(u) && Holds(sr, u) && |u| >= 8
    ensures Low(sr, 8) == Value(u[|u| - 8..])
  {
    hide Value;
    LowLow(Value(u), 32, 8);
    ValueWindow(u, |u| - 8);
  }

  lemma {:induction false} GroupsAppend(s: seq<nat>, g: seq<nat>, n: nat, c: nat)
    requires |s| == c * n && |g| == n
    ensures |s + g| == (c + 1) * n && Groups(s + g, n, c + 1) == Groups(s, n, c) + [g]
    decreases c
  {
    assert (c + 1) * n == c * n + n;
    if c == 0 {
      assert s + g == g && g[..n] == g && g[n..] == [];
      assert Groups(g[n..], n, 0) == [];
    } else {
      assert c * n == n + (c - 1) * n;
      assert (s + g)[..n] == s[..n] && (s + g)[n..] == s[n..] + g;
      GroupsAppend(s[n..], g, n, c - 1);
    }
  }

  /** The symbols of one bit, one for each polynomial. */
  method SendGroup(d: Design, sr: nat, ghost u: seq<nat>) returns (g: seq<nat>)
    requires Shaped(d) && Narrow(d) && AreBits(u) && |u| > 0 && Holds(sr, u) && sr < Pow2(32)
    ensures g == SentGroup(d.polys, Register(d, 0, u))
  {
    hide Sent, Register, Value, Pow2;
    g := [];
    var j := 0;
    while j < |d.polys|
      invariant 0 <= j <= |d.polys|
      invariant g == SentGroup(d.polys[..j], Register(d, 0, u))
    {
      var p := d.polys[j];
      var v := SendSymbol(p, sr);
      SameSent(d, p, sr, u);
      assert Front(d.polys[..j + 1]) == d.polys[..j] && Last(d.polys[..j + 1]) == p;
      g := g + [v];
      j := j + 1;
    }
    assert d.polys[..j] == d.polys;
  }

  method SendSymbol(p: int, sr: nat) returns (v: nat)
    requires sr < Pow2(32)
    ensures v == Level(Sent(p, sr))
  {
    AndBound(sr, Abs(p));
    var odd := Parity(And(sr, Abs(p)));
    v := if (p < 0) != odd then 255 else 0;
  }

  lemma EncodedNext(d: Design, u: seq<nat>, b: nat)
    ensures Encoded(d, 0, u + [b]) == Encoded(d, 0, u) + [SentGroup(d.polys, Register(d, 0, u + [b]))]
  {
    assert Front(u + [b]) == u;
    hide SentGroup, Register;
  }

  lemma NoSymbols(n: nat)
    ensures 0 * n == 0 && AreSymbols([]) && Groups([], n, 0) == []
  {
  }

  lemma SymbolsAppend(s: seq<nat>, g: seq<nat>)
    requires AreSymbols(s) && forall j :: 0 <= j < |g| ==> g[j] <= 255
    ensures AreSymbols(s + g)
  {
  }

  lemma NextBit(bits: seq<nat>, nu: nat, i: nat)
    requires AreBits(bits) && i < |bits| + nu
    ensures var u := bits + Zeros(nu);
      && u[i] == (if i < |bits| then bits[i] else 0) && u[i] < 2
      && u[..i + 1] == u[..i] + [u[i]]
  {
    if i >= |bits| {
      ZerosAt(nu, i - |bits|);
    }
  }

  lemma {:induction false} ZerosAt(n: nat, k: nat)
    requires k < n
    ensures Zeros(n)[k] == 0
  {
    if k < n - 1 {
      ZerosAt(n - 1, k);
    }
  }

  lemma NothingSent(d: Design, u: seq<nat>)
    ensures AreBits(u[..0]) && Holds(0, u[..0]) && Encoded(d, 0, u[..0]) == []
  {
    LowSmall(0, 32);
    hide Low;
  }

  lemma PaddedBits(bits: seq<nat>, nu: nat)
    requires AreBits(bits)
    ensures AreBits(bits + Zeros(nu)) && forall i :: 0 <= i <= |bits| + nu ==> AreBits((bits + Zeros(nu))[..i])
  {
  }

  /** The test programs' encoder: shift in each bit and then `nu` zeros, send the parities, and keep the
      register's low byte as the reference for the decoded data. */
  method EncodeFrame(d: Design, bits: seq<nat>, sent: array<nat>) returns (symbols: seq<nat>)
    requires Shaped(d) && Narrow(d) && AreBits(bits) && 8 * sent.Length >= |bits| + d.nu
    modifies sent
    ensures AreSymbols(symbols) && |symbols| == (|bits| + d.nu) * |d.polys|
    ensures Groups(symbols, |d.polys|, |bits| + d.nu) == Encoded(d, 0, bits + Zeros(d.nu))
    ensures var u := bits + Zeros(d.nu); forall j: nat | 8 * j + 8 <= |u| :: sent[j] == Value(u[8 * j..8 * j + 8])
  {
    ghost var u := bits + Zeros(d.nu);
    hide *;
    NothingSent(d, u);
    var sr: nat := 0;
    var i: nat := 0;
    symbols := [];
    NoSymbols(|d.polys|);
    PaddedBits(bits, d.nu);
    while i < |bits| + d.nu
      invariant i <= |bits| + d.nu == |u| && AreBits(u) && AreBits(u[..i]) && Holds(sr, u[..i])
      invariant AreSymbols(symbols) && |symbols| == i * |d.polys|
      invariant Groups(symbols, |d.polys|, i) == Encoded(d, 0, u[..i])
      invariant forall j: nat | 8 * j + 8 <= i :: sent[j] == Value(u[8 * j..8 * j + 8])
    {
      var bit := if i < |bits| then bits[i] else 0;
      NextBit(bits, d.nu, i);
      HoldsNext(sr, u[..i], bit);
      sr := Low(2 * sr + bit, 32);
      sent[i / 8] := Low(sr, 8);
      if i % 8 == 7 {
        LastByte(sr, u[..i + 1]);
        assert u[..i + 1][i - 7..] == u[8 * (i / 8)..8 * (i / 8) + 8];
      }
      var g := SendGroup(d, sr, u[..i + 1]);
      EncodedNext(d, u[..i], bit);
      GroupsAppend(symbols, g, |d.polys|, i);
      SymbolsAppend(symbols, g);
      symbols := symbols + g;
      i := i + 1;
    }
    assert u[..i] == u;
  }

  // The survivor into state zero is the sent frame, and its full bytes are the message's.
  lemma Received(d: Design, bits: seq<nat>, rx: seq<seq<nat>>)
    requires Shaped(d) && Usable(d) && AreBits(bits) && rx == Encoded(d, 0, bits + Zeros(d.nu))
    ensures AreGroups(d, rx) && 0 < States(d) && |rx| == |bits| + d.nu && Low(0, d.nu) == 0
    ensures Survivor(d, 0, rx, 0).bits == bits + Zeros(d.nu)
    ensures var u := bits + Zeros(d.nu);
      forall j: nat | 8 * j + 8 <= |bits| ::
        Byte(d, u, j) == Value(u[8 * j..8 * j + 8]) == Value(bits[8 * j..8 * j + 8])
  {
    hide *;
    var u := bits + Zeros(d.nu);
    LowSmall(0, d.nu);
    PaddedBits(bits, d.nu);
    TailClears(d, 0, bits);
    NoiseFree(d, 0, u);
    forall j: nat | 8 * j + 8 <= |bits|
      ensures Byte(d, u, j) == Value(u[8 * j..8 * j + 8]) == Value(bits[8 * j..8 * j + 8])
    {
      FullByte(d, u, j);
      assert u[8 * j..8 * j + 8] == bits[8 * j..8 * j + 8];
    }
  }

  lemma UsableParts(d: Design)
    requires Usable(d)
    ensures Fits(d) && Shaped(d) && Wrap(0, States(d)) == 0
  {
    hide Wrap, Pow2;
    WrapUnique(0, States(d), 0, 0);
  }

  /** Encode a frame, decode it, and find every full byte as it was sent. */
  method SendAndReceive(d: Design, bits: seq<nat>) returns (sent: array<nat>, data: array<nat>)
    requires Usable(d) && Narrow(d) && AreBits(bits)
    ensures 8 * data.Length >= |bits| && 8 * sent.Length >= |bits|
    ensures forall j: nat | 8 * j + 8 <= |bits| :: data[j] == sent[j] == Value(bits[8 * j..8 * j + 8])
  {
    hide *;
    UsableParts(d);
    var tab := SetPolynomial(d);
    var v := new Decoder(d, tab, |bits|);
    sent := new nat[|bits| + d.nu];
    data := new nat[|bits|];
    var symbols := EncodeFrame(d, bits, sent);
    v.ValidParts();
    v.Init(0);
    v.Update(symbols, |bits| + d.nu);
    v.ValidParts();
    ghost var rx := v.heard;
    assert rx == Encoded(d, 0, bits + Zeros(d.nu));
    Received(d, bits, rx);
    assert rx[..|bits| + d.nu] == rx;
    v.Chainback(data, |bits|, 0);
  }
}
