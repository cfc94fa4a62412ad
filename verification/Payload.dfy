/** Fragmentation of a packet into frames, and its reassembly from frames in any order. */
module Payload {

  /** Number of frames of a packet: `n / f + 1`, less one when the last frame would be empty. */
  function Frames(n: nat, f: nat): nat
    requires f >= 1
  {
    if n % f == 0 then n / f else n / f + 1
  }

  function LastSize(n: nat, f: nat): nat
    requires f >= 1
  {
    if n % f == 0 then f else n % f
  }

  function FrameSize(n: nat, f: nat, i: nat): nat
    requires f >= 1
  {
    if i + 1 == Frames(n, f) then LastSize(n, f) else f
  }

  lemma Multiply(i: nat, q: nat, f: nat)
    requires i <= q
    ensures i * f <= q * f && (i < q ==> i * f + f <= q * f)
  {
    var t := q - i;
    assert q * f == i * f + t * f;
    if i < q {
      assert t * f == (t - 1) * f + f;
      assert (t - 1) * f >= 0;
    }
  }

  // The frames lie end to end: each one stops where the next one starts, and the last one at the end.
  lemma FrameExtent(n: nat, f: nat, i: nat)
    requires f >= 1 && i < Frames(n, f)
    ensures 1 <= FrameSize(n, f, i) <= f
    ensures i + 1 < Frames(n, f) ==> i * f + FrameSize(n, f, i) == (i + 1) * f
    ensures i + 1 == Frames(n, f) ==> i * f + FrameSize(n, f, i) == n
    ensures i * f + FrameSize(n, f, i) <= n
  {
    var q, r := n / f, n % f;
    assert n == q * f + r;
    assert (i + 1) * f == i * f + f;
    if i + 1 == Frames(n, f) {
      if r == 0 {
        assert q * f == (i + 1) * f;
      } else {
        assert q * f == i * f;
      }
    } else {
      Multiply(i, q, f);
    }
  }

  // Every byte lies in a frame.
  lemma FrameOf(n: nat, f: nat, k: nat) returns (i: nat)
    requires f >= 1 && k < n
    ensures i < Frames(n, f) && i * f <= k < i * f + FrameSize(n, f, i)
  {
    i := k / f;
    assert k == i * f + k % f;
    var q, r := n / f, n % f;
    assert n == q * f + r;
    if i > q {
      Multiply(q, i, f);
      assert false;
    }
    if i == q {
      assert r > 0;
    }
    FrameExtent(n, f, i);
  }

  // Distinct frames do not overlap.
  lemma FramesApart(n: nat, f: nat, i: nat, j: nat)
    requires f >= 1 && i < j < Frames(n, f)
    ensures i * f + FrameSize(n, f, i) <= j * f
  {
    FrameExtent(n, f, i);
    Multiply(i, j, f);
  }

  /** Frame i of a payload. */
  function Fragment<T>(p: seq<T>, f: nat, i: nat): seq<T>
    requires f >= 1 && i < Frames(|p|, f)
  {
    FrameExtent(|p|, f, i);
    p[i * f..i * f + FrameSize(|p|, f, i)]
  }

  // ----- reassembly as a function of the frames delivered so far

  /** The receive buffer and the flags of the frames received. */
  datatype Rx = Rx(buffer: seq<nat>, got: seq<bool>)

  datatype Delivery = Delivery(id: nat, data: seq<nat>)

  ghost predicate Fitting(n: nat, f: nat, d: Delivery)
    requires f >= 1
  {
    d.id < Frames(n, f) ==> |d.data| >= FrameSize(n, f, d.id)
  }

  ghost predicate AllFitting(n: nat, f: nat, ds: seq<Delivery>)
    requires f >= 1
  {
    forall k :: 0 <= k < |ds| ==> Fitting(n, f, ds[k])
  }

  /** b with the bytes of d from index k on. */
  function Splice(b: seq<nat>, k: nat, d: seq<nat>): (r: seq<nat>)
    requires k + |d| <= |b|
    ensures |r| == |b|
    ensures forall i :: 0 <= i < |b| ==> r[i] == if k <= i < k + |d| then d[i - k] else b[i]
  {
    b[..k] + d + b[k + |d|..]
  }

  predicate Accepts(st: Rx, id: nat) {
    id < |st.got| && !st.got[id]
  }

  function Accept(f: nat, st: Rx, d: Delivery): (r: Rx)
    requires f >= 1 && |st.got| == Frames(|st.buffer|, f) && Fitting(|st.buffer|, f, d)
    ensures |r.buffer| == |st.buffer| && |r.got| == |st.got|
  {
    if !Accepts(st, d.id) then st else
      FrameExtent(|st.buffer|, f, d.id);
      Rx(Splice(st.buffer, d.id * f, d.data[..FrameSize(|st.buffer|, f, d.id)]), st.got[d.id := true])
  }

  function Receive(f: nat, st: Rx, ds: seq<Delivery>): (r: Rx)
    requires f >= 1 && |st.got| == Frames(|st.buffer|, f)
    requires AllFitting(|st.buffer|, f, ds)
    ensures |r.buffer| == |st.buffer| && |r.got| == |st.got|
  {
    if |ds| == 0 then st else Accept(f, Receive(f, st, ds[..|ds| - 1]), ds[|ds| - 1])
  }

  /** A delivery that carries the frame it names, possibly with padding after it. */
  ghost predicate Genuine(p: seq<nat>, f: nat, d: Delivery)
    requires f >= 1
  {
    Fitting(|p|, f, d) && (d.id < Frames(|p|, f) ==> d.data[..FrameSize(|p|, f, d.id)] == Fragment(p, f, d.id))
  }

  ghost predicate AllGenuine(p: seq<nat>, f: nat, ds: seq<Delivery>)
    requires f >= 1
  {
    forall k :: 0 <= k < |ds| ==> Genuine(p, f, ds[k])
  }

  ghost predicate Delivered(ds: seq<Delivery>, i: nat) {
    exists k :: 0 <= k < |ds| && ds[k].id == i
  }

  ghost predicate FrameHeld(p: seq<nat>, f: nat, b: seq<nat>, i: nat)
    requires f >= 1 && |b| == |p| && i < Frames(|p|, f)
  {
    Fragment(b, f, i) == Fragment(p, f, i)
  }

  lemma SpliceSlices(b: seq<nat>, k: nat, d: seq<nat>, lo: nat, hi: nat)
    requires k + |d| <= |b| && lo <= hi <= |b|
    ensures Splice(b, k, d)[k..k + |d|] == d
    ensures hi <= k || k + |d| <= lo ==> Splice(b, k, d)[lo..hi] == b[lo..hi]
  {
  }

  // Storing one frame leaves the others alone.
  lemma SpliceFrames(p: seq<nat>, f: nat, b: seq<nat>, i: nat, j: nat)
    requires f >= 1 && |b| == |p| && i < Frames(|p|, f) && j < Frames(|p|, f)
    ensures i * f + FrameSize(|p|, f, i) <= |b| && |Fragment(p, f, i)| == FrameSize(|p|, f, i)
    ensures var r := Splice(b, i * f, Fragment(p, f, i));
      FrameHeld(p, f, r, i) && (FrameHeld(p, f, b, j) ==> FrameHeld(p, f, r, j))
  {
    hide Frames, FrameSize, Splice;
    FrameExtent(|p|, f, i);
    FrameExtent(|p|, f, j);
    SpliceSlices(b, i * f, Fragment(p, f, i), j * f, j * f + FrameSize(|p|, f, j));
    if i < j {
      FramesApart(|p|, f, i, j);
    } else if j < i {
      FramesApart(|p|, f, j, i);
    }
  }

  /** Frame i is held with its own bytes if it has been delivered, and not at all otherwise. */
  ghost predicate Tracks(p: seq<nat>, f: nat, r: Rx, ds: seq<Delivery>, i: nat)
    requires f >= 1 && |r.buffer| == |p| && |r.got| == Frames(|p|, f) && i < |r.got|
  {
    (r.got[i] <==> Delivered(ds, i)) && (r.got[i] ==> FrameHeld(p, f, r.buffer, i))
  }

  lemma DeliveredStep(ds: seq<Delivery>, i: nat)
    requires |ds| > 0
    ensures Delivered(ds, i) <==> Delivered(ds[..|ds| - 1], i) || ds[|ds| - 1].id == i
  {
    var m := |ds| - 1;
    if Delivered(ds, i) {
      var k :| 0 <= k < |ds| && ds[k].id == i;
      assert k < m ==> ds[..m][k].id == i;
    }
    if Delivered(ds[..m], i) {
      var k :| 0 <= k < m && ds[..m][k].id == i;
      assert ds[k].id == i;
    }
  }

  lemma AcceptTracks(p: seq<nat>, f: nat, q: Rx, ds: seq<Delivery>, i: nat)
    requires f >= 1 && |q.buffer| == |p| && |q.got| == Frames(|p|, f) && i < |q.got|
    requires |ds| > 0 && Genuine(p, f, ds[|ds| - 1]) && Tracks(p, f, q, ds[..|ds| - 1], i)
    ensures Tracks(p, f, Accept(f, q, ds[|ds| - 1]), ds, i)
  {
    var d := ds[|ds| - 1];
    DeliveredStep(ds, i);
    hide Frames, FrameSize, FrameHeld, Fragment, Delivered, Splice;
    if Accepts(q, d.id) {
      SpliceFrames(p, f, q.buffer, d.id, i);
    }
  }

  lemma GenuineFits(p: seq<nat>, f: nat, ds: seq<Delivery>)
    requires f >= 1 && AllGenuine(p, f, ds)
    ensures AllFitting(|p|, f, ds)
  {
    hide Fitting, Fragment, FrameSize, Frames;
  }

  /** Any order, any duplicates: exactly the frames delivered are held, each with its own bytes. */
  lemma {:induction false} HeldFrames(p: seq<nat>, f: nat, st: Rx, ds: seq<Delivery>, i: nat)
    requires f >= 1 && |st.buffer| == |p| && |st.got| == Frames(|p|, f) && i < |st.got|
    requires (forall i :: 0 <= i < |st.got| ==> !st.got[i]) && AllGenuine(p, f, ds)
    ensures AllFitting(|p|, f, ds) && Tracks(p, f, Receive(f, st, ds), ds, i)
  {
    GenuineFits(p, f, ds);
    hide Frames, FrameSize, Fragment, FrameHeld, Fitting, Genuine, Accept;
    if |ds| > 0 {
      var m := |ds| - 1;
      HeldFrames(p, f, st, ds[..m], i);
      AcceptTracks(p, f, Receive(f, st, ds[..m]), ds, i);
    }
  }

  // ----- frames that need not be genuine

  ghost predicate IsFirst(ds: seq<Delivery>, k: nat, i: nat) {
    k < |ds| && ds[k].id == i && forall j :: 0 <= j < k ==> ds[j].id != i
  }

  /** Frame i of the buffer b holds the first bytes of the delivery. */
  ghost predicate Brought(f: nat, b: seq<nat>, d: Delivery, i: nat)
    requires f >= 1 && i < Frames(|b|, f)
  {
    |d.data| >= FrameSize(|b|, f, i) && Fragment(b, f, i) == d.data[..FrameSize(|b|, f, i)]
  }

  /** Frame i holds what its first delivery brought, or what it held before if there was none or it was flagged. */
  ghost predicate HoldsFirst(f: nat, st: Rx, r: Rx, ds: seq<Delivery>, i: nat)
    requires f >= 1 && |r.buffer| == |st.buffer| && |r.got| == |st.got| == Frames(|st.buffer|, f) && i < |st.got|
    requires AllFitting(|st.buffer|, f, ds)
  {
    if st.got[i] || !Delivered(ds, i) then
      r.got[i] == st.got[i] && Fragment(r.buffer, f, i) == Fragment(st.buffer, f, i)
    else
      r.got[i] && forall k: nat :: IsFirst(ds, k, i) ==> Brought(f, r.buffer, ds[k], i)
  }

  lemma FirstStep(ds: seq<Delivery>, k: nat, i: nat)
    requires |ds| > 0
    ensures Delivered(ds[..|ds| - 1], i) ==> (IsFirst(ds, k, i) <==> IsFirst(ds[..|ds| - 1], k, i))
    ensures !Delivered(ds[..|ds| - 1], i) && IsFirst(ds, k, i) ==> k == |ds| - 1
  {
    var m := |ds| - 1;
    var es := ds[..m];
    if Delivered(es, i) {
      var j: nat :| 0 <= j < m && es[j].id == i;
      assert ds[j].id == i;
      assert forall t :: 0 <= t < m ==> ds[t] == es[t];
    }
    assert k < m ==> es[k] == ds[k];
  }

  lemma AcceptIs(f: nat, q: Rx, d: Delivery)
    requires f >= 1 && |q.got| == Frames(|q.buffer|, f) && Fitting(|q.buffer|, f, d)
    ensures !(d.id < |q.got|) || q.got[d.id] ==> Accept(f, q, d) == q
    ensures d.id < |q.got| && !q.got[d.id] ==>
      var z := FrameSize(|q.buffer|, f, d.id);
      && z <= |d.data| && d.id * f + z <= |q.buffer|
      && Accept(f, q, d) == Rx(Splice(q.buffer, d.id * f, d.data[..z]), q.got[d.id := true])
  {
    if d.id < |q.got| {
      FrameExtent(|q.buffer|, f, d.id);
    }
    hide Frames, FrameSize, Splice;
  }

  lemma FragmentIs(b: seq<nat>, f: nat, i: nat)
    requires f >= 1 && i < Frames(|b|, f)
    ensures i * f + FrameSize(|b|, f, i) <= |b| && Fragment(b, f, i) == b[i * f..i * f + FrameSize(|b|, f, i)]
  {
    FrameExtent(|b|, f, i);
    hide Frames, FrameSize;
  }

  lemma BroughtIs(f: nat, b: seq<nat>, d: Delivery, i: nat)
    requires f >= 1 && i < Frames(|b|, f) && |d.data| >= FrameSize(|b|, f, i)
    requires Fragment(b, f, i) == d.data[..FrameSize(|b|, f, i)]
    ensures Brought(f, b, d, i)
  {
  }

  lemma BroughtKeeps(f: nat, b: seq<nat>, c: seq<nat>, d: Delivery, i: nat)
    requires f >= 1 && |b| == |c| && i < Frames(|b|, f) && Brought(f, b, d, i) && Fragment(c, f, i) == Fragment(b, f, i)
    ensures Brought(f, c, d, i)
  {
  }

  // What accepting one delivery does to one frame.
  lemma AcceptFrame(f: nat, q: Rx, d: Delivery, i: nat)
    requires f >= 1 && |q.got| == Frames(|q.buffer|, f) && Fitting(|q.buffer|, f, d) && i < |q.got|
    ensures var r := Accept(f, q, d);
      if d.id == i && !q.got[i] then r.got[i] && Brought(f, r.buffer, d, i)
      else r.got[i] == q.got[i] && Fragment(r.buffer, f, i) == Fragment(q.buffer, f, i)
  {
    hide *;
    var n, r := |q.buffer|, Accept(f, q, d);
    AcceptIs(f, q, d);
    if d.id < |q.got| && !q.got[d.id] {
      var z := FrameSize(n, f, d.id);
      FragmentIs(q.buffer, f, i);
      FragmentIs(r.buffer, f, i);
      FrameExtent(n, f, i);
      SpliceSlices(q.buffer, d.id * f, d.data[..z], i * f, i * f + FrameSize(n, f, i));
      if i < d.id {
        FramesApart(n, f, i, d.id);
      } else if d.id < i {
        FramesApart(n, f, d.id, i);
      } else {
        BroughtIs(f, r.buffer, d, i);
      }
    }
  }

  lemma FittingPrefix(n: nat, f: nat, ds: seq<Delivery>)
    requires f >= 1 && |ds| > 0 && AllFitting(n, f, ds)
    ensures AllFitting(n, f, ds[..|ds| - 1]) && Fitting(n, f, ds[|ds| - 1])
  {
    hide Fitting;
  }

  /** Of all deliveries of one frame, genuine or not, the first one counts and the others change nothing. */
  lemma {:induction false} FirstDelivery(f: nat, st: Rx, ds: seq<Delivery>, i: nat)
    requires f >= 1 && |st.got| == Frames(|st.buffer|, f) && AllFitting(|st.buffer|, f, ds) && i < |st.got|
    ensures HoldsFirst(f, st, Receive(f, st, ds), ds, i)
  {
    hide Frames, FrameSize, Fragment, Fitting, AllFitting, Accept, IsFirst, Brought;
    if |ds| > 0 {
      var m := |ds| - 1;
      FittingPrefix(|st.buffer|, f, ds);
      FirstDelivery(f, st, ds[..m], i);
      var q := Receive(f, st, ds[..m]);
      AcceptFrame(f, q, ds[m], i);
      DeliveredStep(ds, i);
      forall k: nat | IsFirst(ds, k, i) && !st.got[i]
        ensures k < |ds| && Brought(f, Receive(f, st, ds).buffer, ds[k], i)
      {
        FirstStep(ds, k, i);
        FirstIs(ds, k, i);
        if Delivered(ds[..m], i) {
          FirstIs(ds[..m], k, i);
          BroughtKeeps(f, q.buffer, Receive(f, st, ds).buffer, ds[k], i);
        }
      }
    }
  }

  lemma FirstIs(ds: seq<Delivery>, k: nat, i: nat)
    requires IsFirst(ds, k, i)
    ensures k < |ds| && ds[k].id == i
  {
  }

  ghost predicate Complete(st: Rx) {
    forall i :: 0 <= i < |st.got| ==> st.got[i]
  }

  lemma FrameByte(p: seq<nat>, f: nat, i: nat, k: nat)
    requires f >= 1 && i < Frames(|p|, f) && i * f <= k < i * f + FrameSize(|p|, f, i)
    ensures i * f + FrameSize(|p|, f, i) <= |p| && |Fragment(p, f, i)| == FrameSize(|p|, f, i)
    ensures Fragment(p, f, i)[k - i * f] == p[k]
  {
    hide Frames, FrameSize;
    FrameExtent(|p|, f, i);
  }

  lemma AllHeld(p: seq<nat>, f: nat, b: seq<nat>)
    requires f >= 1 && |b| == |p| && forall i: nat :: i < Frames(|p|, f) ==> FrameHeld(p, f, b, i)
    ensures b == p
  {
    hide Frames, FrameSize, Fragment;
    forall k | 0 <= k < |p| ensures b[k] == p[k] {
      var i := FrameOf(|p|, f, k);
      assert FrameHeld(p, f, b, i);
      FrameByte(p, f, i, k);
      FrameByte(b, f, i, k);
    }
  }

  /** Reassembly completes exactly when every frame has been delivered at least once, whatever the order and
      the duplicates, and the buffer is then the packet that was sent. */
  lemma Reassembled(p: seq<nat>, f: nat, st: Rx, ds: seq<Delivery>)
    requires f >= 1 && |st.buffer| == |p| && |st.got| == Frames(|p|, f)
    requires (forall i :: 0 <= i < |st.got| ==> !st.got[i]) && AllGenuine(p, f, ds)
    ensures AllFitting(|p|, f, ds)
    ensures var r := Receive(f, st, ds);
      && (Complete(r) <==> forall i: nat :: i < Frames(|p|, f) ==> Delivered(ds, i))
      && (Complete(r) ==> r.buffer == p)
  {
    GenuineFits(p, f, ds);
    hide Frames, FrameSize, Fragment, FrameHeld, Receive, AllGenuine, AllFitting, Delivered;
    var r := Receive(f, st, ds);
    forall i: nat | i < |r.got|
      ensures r.got[i] <==> Delivered(ds, i)
      ensures r.got[i] ==> FrameHeld(p, f, r.buffer, i)
    {
      HeldFrames(p, f, st, ds, i);
    }
    if Complete(r) {
      forall i: nat | i < Frames(|p|, f) ensures FrameHeld(p, f, r.buffer, i) {
        assert r.got[i];
      }
      AllHeld(p, f, r.buffer);
    }
  }

  /** Frames still missing. */
  function Missing(got: seq<bool>): nat {
    if |got| == 0 then 0 else Missing(got[..|got| - 1]) + (if got[|got| - 1] then 0 else 1)
  }

  lemma {:induction false} MissingNone(got: seq<bool>)
    ensures Missing(got) == 0 <==> forall i :: 0 <= i < |got| ==> got[i]
  {
    if |got| > 0 {
      var m := |got| - 1;
      MissingNone(got[..m]);
      assert forall i :: 0 <= i < m ==> got[..m][i] == got[i];
    }
  }

  lemma {:induction false} MissingMark(got: seq<bool>, k: nat)
    requires k < |got| && !got[k]
    ensures Missing(got[k := true]) == Missing(got) - 1
  {
    var m := |got| - 1;
    var now := got[k := true];
    if k < m {
      MissingMark(got[..m], k);
      assert now[..m] == got[..m][k := true];
    } else {
      assert now[..m] == got[..m];
    }
  }

  /** Each delivery either adds one missing frame or changes nothing, and completion is none missing. */
  lemma AcceptProgress(f: nat, st: Rx, d: Delivery)
    requires f >= 1 && |st.got| == Frames(|st.buffer|, f) && Fitting(|st.buffer|, f, d)
    ensures var r := Accept(f, st, d);
      && Missing(r.got) == Missing(st.got) - (if Accepts(st, d.id) then 1 else 0)
      && (Complete(r) <==> Missing(r.got) == 0)
      && (Complete(r) && !Complete(st) ==> Accepts(st, d.id) && Missing(st.got) == 1)
  {
    var r := Accept(f, st, d);
    MissingNone(st.got);
    MissingNone(r.got);
    if Accepts(st, d.id) {
      MissingMark(st.got, d.id);
    }
  }

  // ----- the two objects

  method Copy(dst: array<nat>, at: nat, src: seq<nat>, n: nat)
    requires at + n <= dst.Length && n <= |src|
    modifies dst
    ensures dst[..] == Splice(old(dst[..]), at, src[..n])
  {
    var k := 0;
    while k < n
      invariant 0 <= k <= n
      invariant dst[..] == old(dst[..])[..at] + src[..k] + old(dst[..])[at + k..]
    {
      dst[at + k] := src[k];
      k := k + 1;
    }
  }

  /** Number and size of the frames, as both constructors compute them. */
  method Layout(payloadSize: nat, frameSize: nat) returns (frames: nat, last: nat)
    requires frameSize >= 1
    ensures frames == Frames(payloadSize, frameSize) && last == LastSize(payloadSize, frameSize)
  {
    frames := payloadSize / frameSize + 1;
    last := payloadSize % frameSize;
    if last == 0 {
      frames := frames - 1;
      last := frameSize;
    }
  }

  class RxPayload {
    const payloadSize: nat
    const frameSize: nat
    const framesPerPacket: nat
    const lastFrameSize: nat
    const payload: array<nat>
    const frameReceived: array<bool>

    ghost predicate Valid() {
      && frameSize >= 1 && payload.Length == payloadSize
      && framesPerPacket == frameReceived.Length == Frames(payloadSize, frameSize)
      && lastFrameSize == LastSize(payloadSize, frameSize)
    }

    ghost function State(): Rx
      reads payload, frameReceived
    {
      Rx(payload[..], frameReceived[..])
    }

    constructor (payloadSize: nat, frameSize: nat)
      requires frameSize >= 1
      ensures Valid() && this.payloadSize == payloadSize && this.frameSize == frameSize
      ensures fresh(payload) && fresh(frameReceived)
      ensures forall i :: 0 <= i < framesPerPacket ==> !frameReceived[i]
    {
      var frames, last := Layout(payloadSize, frameSize);
      this.payloadSize := payloadSize;
      this.frameSize := frameSize;
      this.framesPerPacket := frames;
      this.lastFrameSize := last;
      this.payload := new nat[payloadSize];
      this.frameReceived := new bool[frames](_ => false);
    }

    /** `add_frame`: an unknown or repeated frame is refused and changes nothing. */
    method AddFrame(frameId: nat, data: seq<nat>) returns (added: bool)
      requires Valid() && Fitting(payloadSize, frameSize, Delivery(frameId, data))
      modifies payload, frameReceived
      ensures State() == Accept(frameSize, old(State()), Delivery(frameId, data))
      ensures added == Accepts(old(State()), frameId)
    {
      hide Frames, LastSize;
      if frameId >= framesPerPacket {
        return false;
      }
      if frameReceived[frameId] {
        return false;
      }
      FrameExtent(payloadSize, frameSize, frameId);
      if frameId == framesPerPacket - 1 {
        Copy(payload, frameId * frameSize, data, lastFrameSize);
      } else {
        Copy(payload, frameId * frameSize, data, frameSize);
      }
      frameReceived[frameId] := true;
      return true;
    }

    method IsComplete() returns (complete: bool)
      requires Valid()
      ensures complete == Complete(State())
    {
      var i := 0;
      while i < framesPerPacket
        invariant 0 <= i <= framesPerPacket
        invariant forall k :: 0 <= k < i ==> frameReceived[k]
      {
        if !frameReceived[i] {
          return false;
        }
        i := i + 1;
      }
      return true;
    }

    method NumFramesRemaining() returns (result: nat)
      requires Valid()
      ensures result == Missing(State().got)
    {
      result := 0;
      var i := 0;
      while i < framesPerPacket
        invariant 0 <= i <= framesPerPacket
        invariant result == Missing(frameReceived[..i])
      {
        assert frameReceived[..i + 1][..i] == frameReceived[..i];
        if !frameReceived[i] {
          result := result + 1;
        }
        i := i + 1;
      }
      assert frameReceived[..i] == frameReceived[..];
    }
  }

  /** The piece of the transmit buffer a caller is pointed at, and what goes with it. */
  datatype Piece = Nothing | Piece(at: nat, frameId: nat, frameSize: nat, totalPacketLen: nat)

  class TxPayload {
    const payloadSize: nat
    const frameSize: nat
    const framesPerPacket: nat
    const lastFrameSize: nat
    const payload: array<nat>
    const frameTransmitted: array<bool>
    var nextFrame: nat
    var retrieved: bool
    // The frame size asked for; the field above is cut down to the payload.
    ghost const asked: nat

    ghost predicate Valid()
      reads this
    {
      && asked >= 1 && payload.Length == payloadSize
      && frameSize == (if payloadSize < asked then payloadSize else asked)
      && framesPerPacket == frameTransmitted.Length == Frames(payloadSize, asked)
      && lastFrameSize == LastSize(payloadSize, asked)
      && nextFrame <= framesPerPacket
    }

    constructor (bytes: seq<nat>, frameSize: nat)
      requires frameSize >= 1
      ensures Valid() && asked == frameSize && payload[..] == bytes && nextFrame == 0 && !retrieved
      ensures fresh(payload) && fresh(frameTransmitted)
      ensures forall i :: 0 <= i < framesPerPacket ==> !frameTransmitted[i]
    {
      var frames, last := Layout(|bytes|, frameSize);
      payloadSize := |bytes|;
      asked := frameSize;
      this.frameSize := if |bytes| < frameSize then |bytes| else frameSize;
      framesPerPacket := frames;
      lastFrameSize := last;
      payload := new nat[|bytes|](k requires 0 <= k < |bytes| => bytes[k]);
      frameTransmitted := new bool[frames](_ => false);
      nextFrame := 0;
      retrieved := false;
    }

    ghost predicate AllTransmitted()
      reads frameTransmitted
    {
      forall i :: 0 <= i < frameTransmitted.Length ==> frameTransmitted[i]
    }

    method AllFramesTransmitted() returns (all: bool)
      requires Valid()
      ensures all == AllTransmitted()
    {
      var i := 0;
      while i < framesPerPacket
        invariant 0 <= i <= framesPerPacket
        invariant forall k :: 0 <= k < i ==> frameTransmitted[k]
      {
        if !frameTransmitted[i] {
          return false;
        }
        i := i + 1;
      }
      return true;
    }

    /** `get_next_frame`: the next frame in order, until there are no more. */
    method GetNextFrame() returns (piece: Piece)
      requires Valid()
      modifies this, frameTransmitted
      ensures Valid()
      ensures old(nextFrame) >= framesPerPacket ==>
        piece == Nothing && nextFrame == old(nextFrame) && retrieved == old(retrieved)
        && frameTransmitted[..] == old(frameTransmitted[..])
      ensures old(nextFrame) < framesPerPacket ==>
        && nextFrame == old(nextFrame) + 1
        && frameTransmitted[..] == old(frameTransmitted[..])[old(nextFrame) := true]
        && retrieved == (old(retrieved) || AllTransmitted())
        && piece.Piece? && piece.frameId == old(nextFrame) && piece.totalPacketLen == payloadSize
        && piece.at + piece.frameSize <= payloadSize
        && payload[piece.at..piece.at + piece.frameSize] == Fragment(payload[..], asked, old(nextFrame))
    {
      if nextFrame < framesPerPacket {
        PieceExtent(payloadSize, asked, nextFrame, frameSize);
        hide Frames, LastSize, FrameSize;
        frameTransmitted[nextFrame] := true;
        var size := frameSize;
        var index := nextFrame;
        nextFrame := nextFrame + 1;
        var all := AllFramesTransmitted();
        if all {
          retrieved := true;
        }
        if index == framesPerPacket - 1 {
          size := lastFrameSize;
        }
        piece := Piece(index * frameSize, index, size, payloadSize);
      } else {
        piece := Nothing;
      }
    }
  }

  // Cutting the frame size down to a short payload moves no frame and changes no size.
  lemma PieceExtent(n: nat, f: nat, i: nat, cut: nat)
    requires f >= 1 && i < Frames(n, f) && cut == if n < f then n else f
    ensures i * cut == i * f
    ensures (if i + 1 == Frames(n, f) then LastSize(n, f) else cut) == FrameSize(n, f, i)
    ensures i * f + FrameSize(n, f, i) <= n
  {
    FrameExtent(n, f, i);
    if n < f {
      ShortPacket(n, f, i);
      assert i * cut == 0 && i * f == 0;
    }
  }

  lemma ShortPacket(n: nat, f: nat, i: nat)
    requires n < f && i < Frames(n, f)
    ensures i == 0 && Frames(n, f) == 1
  {
  }

  lemma ReceiveNext(f: nat, st: Rx, ds: seq<Delivery>, d: Delivery)
    requires f >= 1 && |st.got| == Frames(|st.buffer|, f) && AllFitting(|st.buffer|, f, ds)
    requires Fitting(|st.buffer|, f, d)
    ensures AllFitting(|st.buffer|, f, ds + [d])
    ensures Receive(f, st, ds + [d]) == Accept(f, Receive(f, st, ds), d)
  {
    assert (ds + [d])[..|ds|] == ds;
    hide Accept, Fitting;
  }

  lemma FragmentGenuine(p: seq<nat>, f: nat, i: nat)
    requires f >= 1 && i < Frames(|p|, f)
    ensures Genuine(p, f, Delivery(i, Fragment(p, f, i)))
  {
    hide Frames, FrameSize;
    FrameExtent(|p|, f, i);
    var g := Fragment(p, f, i);
    assert g[..|g|] == g;
  }

  lemma NothingReceived(p: seq<nat>, f: nat, st: Rx)
    requires f >= 1 && |st.got| == Frames(|st.buffer|, f)
    ensures AllGenuine(p, f, []) && AllFitting(|st.buffer|, f, []) && Receive(f, st, []) == st
  {
  }

  lemma GenuineNext(p: seq<nat>, f: nat, ds: seq<Delivery>, d: Delivery)
    requires f >= 1 && AllGenuine(p, f, ds) && Genuine(p, f, d)
    ensures AllGenuine(p, f, ds + [d]) && Fitting(|p|, f, d)
  {
    hide Fitting, Fragment, Frames, FrameSize;
  }

  lemma DeliveredNext(ds: seq<Delivery>, d: Delivery, n: nat)
    requires d.id == n && forall i: nat :: i < n ==> Delivered(ds, i)
    ensures forall i: nat :: i < n + 1 ==> Delivered(ds + [d], i)
  {
    forall i: nat | i < n + 1 ensures Delivered(ds + [d], i) {
      DeliveredStep(ds + [d], i);
      assert (ds + [d])[..|ds|] == ds;
    }
  }

  /** A packet sent frame by frame arrives whole. */
  method Transfer(tx: TxPayload, rx: RxPayload)
    requires tx.Valid() && rx.Valid() && tx.nextFrame == 0
    requires rx.payloadSize == tx.payloadSize && rx.frameSize == tx.asked && rx.payload != tx.payload
    requires rx.frameReceived != tx.frameTransmitted
    requires forall i :: 0 <= i < rx.framesPerPacket ==> !rx.frameReceived[i]
    modifies tx, tx.frameTransmitted, rx.payload, rx.frameReceived
    ensures rx.payload[..] == tx.payload[..] == old(tx.payload[..]) && Complete(rx.State())
  {
    hide Frames, FrameSize, LastSize, Fragment, Receive, Accept, AllFitting, AllGenuine, Fitting, Genuine, Delivered,
      Complete;
    ghost var p, f, st := tx.payload[..], tx.asked, rx.State();
    ghost var ds: seq<Delivery> := [];
    NothingReceived(p, f, st);
    var piece := tx.GetNextFrame();
    ghost var sent: nat := 0;
    while piece.Piece?
      invariant tx.Valid() && rx.Valid() && tx.payload[..] == p && sent <= Frames(|p|, f) == tx.framesPerPacket
      invariant tx.nextFrame == if piece.Piece? then sent + 1 else sent
      invariant piece.Nothing? ==> sent == Frames(|p|, f)
      invariant piece.Piece? ==> sent < Frames(|p|, f) && piece.frameId == sent
      invariant piece.Piece? ==> piece.at + piece.frameSize <= |p|
      invariant piece.Piece? ==> p[piece.at..piece.at + piece.frameSize] == Fragment(p, f, sent)
      invariant AllGenuine(p, f, ds) && AllFitting(|p|, f, ds) && rx.State() == Receive(f, st, ds)
      invariant forall i: nat :: i < sent ==> Delivered(ds, i)
      decreases Frames(|p|, f) - sent
    {
      ghost var d := Delivery(sent, Fragment(p, f, sent));
      FragmentGenuine(p, f, sent);
      GenuineNext(p, f, ds, d);
      ReceiveNext(f, st, ds, d);
      DeliveredNext(ds, d, sent);
      var data := tx.payload[piece.at..piece.at + piece.frameSize];
      var added := rx.AddFrame(piece.frameId, data);
      ds := ds + [d];
      sent := sent + 1;
      piece := tx.GetNextFrame();
    }
    Reassembled(p, f, st, ds);
  }
}
