/** The frequency-hop sequence: a row-column interleaver for each table, and the product of the two. */
module Hop {
  import opened Bits

  ghost predicate Permutation(s: seq<nat>, n: nat) {
    && |s| == n
    && (forall i :: 0 <= i < n ==> s[i] < n)
    && (forall i, j :: 0 <= i < j < n ==> s[i] != s[j])
    && forall v: nat :: v < n ==> v in s
  }

  ghost predicate DistinctBelow(s: seq<nat>, n: nat) {
    (forall i :: 0 <= i < |s| ==> s[i] < n) && forall i, j :: 0 <= i < j < |s| ==> s[i] != s[j]
  }

  lemma WithoutPlace(s: seq<nat>, i: nat, n: nat) returns (r: seq<nat>)
    requires DistinctBelow(s, n) && i < |s|
    ensures |s| == |r| + 1 && forall k :: 0 <= k < |r| ==> r[k] == s[if k < i then k else k + 1]
    ensures DistinctBelow(r, n) && s[i] !in r
    ensures forall u: nat :: u in s && u != s[i] ==> u in r
  {
    r := seq(|s| - 1, k requires 0 <= k < |s| - 1 => s[if k < i then k else k + 1]);
    forall u: nat | u in s && u != s[i] ensures u in r {
      var k :| 0 <= k < |s| && s[k] == u;
      assert r[if k < i then k else k - 1] == u;
    }
  }

  // Removing the largest possible value.
  lemma WithoutTop(s: seq<nat>, v: nat) returns (r: seq<nat>)
    requires DistinctBelow(s, v + 1)
    ensures DistinctBelow(r, v) && |s| == |r| + (if v in s then 1 else 0)
    ensures forall u: nat :: u < v ==> (u in r <==> u in s)
  {
    if v in s {
      var i :| 0 <= i < |s| && s[i] == v;
      r := WithoutPlace(s, i, v + 1);
    } else {
      r := s;
    }
  }

  // Distinct values below n: at most n of them, and all of them exactly if there are n.
  lemma {:induction false} AtMostAll(s: seq<nat>, n: nat)
    requires DistinctBelow(s, n)
    ensures |s| <= n
    ensures |s| == n <==> forall v: nat :: v < n ==> v in s
    decreases n
  {
    if |s| == 0 {
      assert n > 0 ==> 0 !in s;
    } else {
      assert s[0] < n;
      var r := WithoutTop(s, n - 1);
      hide DistinctBelow;
      AtMostAll(r, n - 1);
    }
  }

  /** The least root whose square reaches n, searched from s: `ceil(sqrt(n))`. */
  function CeilRoot(n: nat, s: nat): (r: nat)
    requires s == 0 || (s - 1) * (s - 1) < n
    ensures r * r >= n && (r == 0 || (r - 1) * (r - 1) < n) && r >= s
    decreases n + 1 - s
  {
    if s * s >= n then s else
      RootBelow(s, n);
      CeilRoot(n, s + 1)
  }

  lemma RootBelow(s: nat, n: nat)
    requires s * s < n
    ensures s < n
  {
    if s >= n && s * (s - 1) >= 0 {
      assert false;
    }
  }

  /** Indices picked in column `o`, from the first `j` rows. */
  function Column(size: nat, stride: nat, o: nat, j: nat): seq<nat> {
    if j == 0 then [] else
      Column(size, stride, o, j - 1) + (if (j - 1) * stride + o < size then [(j - 1) * stride + o] else [])
  }

  /** Indices picked in the first `o` columns. */
  function Columns(size: nat, stride: nat, o: nat): seq<nat> {
    if o == 0 then [] else Columns(size, stride, o - 1) + Column(size, stride, o - 1, stride)
  }

  ghost predicate IsPick(stride: nat, o: nat, r: nat, v: nat) {
    v == r * stride + o
  }

  ghost predicate PickedIn(size: nat, stride: nat, o: nat, j: nat, v: nat) {
    v < size && exists r: nat :: r < j && IsPick(stride, o, r, v)
  }

  lemma {:induction false} ColumnMembers(size: nat, stride: nat, o: nat, j: nat, v: nat)
    ensures v in Column(size, stride, o, j) <==> PickedIn(size, stride, o, j, v)
  {
    if j > 0 {
      ColumnMembers(size, stride, o, j - 1, v);
      if v in Column(size, stride, o, j) && v !in Column(size, stride, o, j - 1) {
        assert IsPick(stride, o, j - 1, v);
      }
      if PickedIn(size, stride, o, j, v) {
        var r: nat :| r < j && IsPick(stride, o, r, v);
        if r < j - 1 {
          assert PickedIn(size, stride, o, j - 1, v);
        }
      }
    }
  }

  // A value has one row and one column.
  lemma OnePlace(stride: nat, o: nat, r: nat, o': nat, r': nat)
    requires o < stride && o' < stride && r * stride + o == r' * stride + o'
    ensures o == o' && r == r'
  {
    var t := r - r';
    assert t * stride == r * stride - r' * stride;
    MultipleInRange(t, stride);
  }

  // What has been picked after `o` whole columns and `j` rows of the next one.
  lemma {:induction false} ColumnDistinct(size: nat, stride: nat, o: nat, j: nat)
    requires o < stride
    ensures DistinctBelow(Column(size, stride, o, j), size)
  {
    if j > 0 {
      var c, v := Column(size, stride, o, j - 1), (j - 1) * stride + o;
      ColumnDistinct(size, stride, o, j - 1);
      ColumnMembers(size, stride, o, j - 1, v);
      if PickedIn(size, stride, o, j - 1, v) {
        var r: nat :| r < j - 1 && IsPick(stride, o, r, v);
        OnePlace(stride, o, r, o, j - 1);
      }
      AppendDistinct(c, v, size);
    }
  }

  lemma AppendDistinct(s: seq<nat>, v: nat, n: nat)
    requires DistinctBelow(s, n) && v !in s
    ensures v < n ==> DistinctBelow(s + [v], n)
  {
  }

  lemma JoinDistinct(s: seq<nat>, t: seq<nat>, n: nat)
    requires DistinctBelow(s, n) && DistinctBelow(t, n) && forall v :: v in s ==> v !in t
    ensures DistinctBelow(s + t, n)
  {
    var u := s + t;
    forall i, j | 0 <= i < j < |u| ensures u[i] != u[j] {
      if i < |s| <= j {
        assert u[i] in s && u[j] in t;
      }
    }
  }

  lemma ColumnsStep(size: nat, stride: nat, o: nat, v: nat)
    requires o > 0
    ensures v in Columns(size, stride, o) <==>
      v in Columns(size, stride, o - 1) || PickedIn(size, stride, o - 1, stride, v)
  {
    hide Column, PickedIn;
    var s, t := Columns(size, stride, o - 1), Column(size, stride, o - 1, stride);
    assert Columns(size, stride, o) == s + t;
    hide Columns;
    ColumnMembers(size, stride, o - 1, stride, v);
    assert v in s + t <==> v in s || v in t;
  }

  lemma InColumn(size: nat, stride: nat, o: nat, j: nat, r: nat, v: nat)
    requires v < size && r < j && IsPick(stride, o, r, v)
    ensures PickedIn(size, stride, o, j, v)
  {
    hide IsPick;
  }

  lemma {:induction false} InColumns(size: nat, stride: nat, o: nat, p: nat, r: nat, v: nat)
    requires v < size && p < o && r < stride && IsPick(stride, p, r, v)
    ensures v in Columns(size, stride, o)
  {
    hide *;
    ColumnsStep(size, stride, o, v);
    if p < o - 1 {
      InColumns(size, stride, o - 1, p, r, v);
    } else {
      InColumn(size, stride, o - 1, stride, r, v);
    }
  }

  lemma {:induction false} FromColumns(size: nat, stride: nat, o: nat, v: nat) returns (p: nat, r: nat)
    requires v in Columns(size, stride, o)
    ensures v < size && p < o && r < stride && IsPick(stride, p, r, v)
  {
    NoColumns(size, stride);
    hide Columns, Column, IsPick;
    if o == 0 {
      assert false;
    }
    ColumnsStep(size, stride, o, v);
    if v in Columns(size, stride, o - 1) {
      p, r := FromColumns(size, stride, o - 1, v);
    } else {
      p := o - 1;
      r :| r < stride && IsPick(stride, o - 1, r, v);
    }
  }

  lemma NoColumns(size: nat, stride: nat)
    ensures Columns(size, stride, 0) == []
  {
  }

  // Nothing is picked twice, so the array never overflows.
  lemma {:induction false} PickedDistinct(size: nat, stride: nat, o: nat, j: nat)
    requires o < stride
    ensures DistinctBelow(Columns(size, stride, o) + Column(size, stride, o, j), size)
    ensures |Columns(size, stride, o) + Column(size, stride, o, j)| <= size
    decreases o
  {
    if o == 0 {
      assert DistinctBelow(Columns(size, stride, 0), size);
    } else {
      PickedDistinct(size, stride, o - 1, stride);
    }
    var s, t := Columns(size, stride, o), Column(size, stride, o, j);
    ColumnDistinct(size, stride, o, j);
    forall v | v in s ensures v !in t {
      var p, r := FromColumns(size, stride, o, v);
      ColumnMembers(size, stride, o, j, v);
      if PickedIn(size, stride, o, j, v) {
        var r': nat :| r' < j && IsPick(stride, o, r', v);
        OnePlace(stride, p, r, o, r');
      }
    }
    JoinDistinct(s, t, size);
    AtMostAll(s + t, size);
  }

  lemma RowBelow(v: nat, stride: nat, size: nat)
    requires v < size <= stride * stride
    ensures v / stride < stride && v % stride < stride && v == (v / stride) * stride + v % stride
  {
    var q := v / stride;
    assert v == q * stride + v % stride;
    if q >= stride && (q - stride) * stride >= 0 {
      assert false;
    }
  }

  lemma AllPicked(size: nat, stride: nat, v: nat)
    requires v < size <= stride * stride
    ensures v in Columns(size, stride, stride)
  {
    RowBelow(v, stride, size);
    hide *;
    var p, r := v % stride, v / stride;
    PickIs(stride, p, r, v);
    InColumns(size, stride, stride, p, r, v);
  }

  lemma PickIs(stride: nat, o: nat, r: nat, v: nat)
    requires v == r * stride + o
    ensures IsPick(stride, o, r, v)
  {
  }

  /** The whole table is a permutation of its indices. */
  lemma InterleavedIsPermutation(size: nat, stride: nat)
    requires stride >= 1 && stride * stride >= size
    ensures Permutation(Columns(size, stride, stride), size)
  {
    var s := Columns(size, stride, stride);
    PickedDistinct(size, stride, stride - 1, stride);
    assert s == Columns(size, stride, stride - 1) + Column(size, stride, stride - 1, stride);
    hide Columns, Column;
    forall v: nat | v < size ensures v in s {
      AllPicked(size, stride, v);
    }
    AtMostAll(s, size);
  }

  // The inner loop: one column of the interleaver.
  method PickColumn(idx: array<nat>, size: nat, stride: nat, offset: nat, start: nat) returns (count: nat)
    requires idx.Length == size && offset < stride && start <= size
    requires idx[..start] == Columns(size, stride, offset)
    modifies idx
    ensures count <= size && idx[..count] == Columns(size, stride, offset + 1)
  {
    hide *;
    count := start;
    var row: nat := 0;
    NoRows(size, stride, offset);
    while row < stride
      invariant row <= stride
      invariant count <= size && idx[..count] == Columns(size, stride, offset) + Column(size, stride, offset, row)
    {
      PickedDistinct(size, stride, offset, row + 1);
      NextRow(size, stride, offset, row);
      var pick := row * stride + offset;
      if pick < size {
        idx[count] := pick;
        count := count + 1;
      }
      row := row + 1;
    }
    NextColumn(size, stride, offset);
  }

  /** The order in which the indices of a table of n entries are visited. */
  function Order(n: nat): seq<nat> {
    if n < 4 then seq(n, k requires 0 <= k < n => n - k - 1)
    else Columns(n, CeilRoot(n, 0), CeilRoot(n, 0))
  }

  lemma OrderIs(n: nat, s: seq<nat>)
    requires |s| == n
    requires if n < 4 then (forall k :: 0 <= k < n ==> s[k] == n - k - 1)
      else s == Columns(n, CeilRoot(n, 0), CeilRoot(n, 0))
    ensures s == Order(n)
  {
  }

  /** Permute the indices of one frequency table in the style of a row-column interleaver. */
  method Interleave(size: nat) returns (idx: array<nat>)
    ensures fresh(idx) && Permutation(idx[..], size) && idx[..] == Order(size)
  {
    hide *;
    idx := new nat[size];
    if size < 4 {
      var k := 0;
      while k < size
        invariant 0 <= k <= size
        invariant forall j :: 0 <= j < k ==> idx[j] == size - j - 1
      {
        idx[k] := size - k - 1;
        k := k + 1;
      }
      ReversedIsPermutation(idx[..], size);
    } else {
      var stride := CeilRoot(size, 0);
      var count: nat, offset: nat := 0, 0;
      NoColumns(size, stride);
      while offset < stride
        invariant offset <= stride
        invariant count <= size && idx[..count] == Columns(size, stride, offset)
      {
        count := PickColumn(idx, size, stride, offset, count);
        offset := offset + 1;
      }
      RootPositive(size, stride);
      InterleavedIsPermutation(size, stride);
      PermutationSize(Columns(size, stride, stride), size);
      assert idx[..] == idx[..count];
    }
    OrderIs(size, idx[..]);
  }

  lemma PermutationSize(s: seq<nat>, n: nat)
    requires Permutation(s, n)
    ensures |s| == n
  {
  }

  lemma RootPositive(size: nat, stride: nat)
    requires size >= 4 && stride * stride >= size
    ensures stride >= 1
  {
  }

  lemma NoRows(size: nat, stride: nat, o: nat)
    ensures Column(size, stride, o, 0) == []
  {
  }

  lemma NextRow(size: nat, stride: nat, o: nat, j: nat)
    ensures Column(size, stride, o, j + 1)
      == Column(size, stride, o, j) + (if j * stride + o < size then [j * stride + o] else [])
  {
  }

  lemma NextColumn(size: nat, stride: nat, o: nat)
    ensures Columns(size, stride, o + 1) == Columns(size, stride, o) + Column(size, stride, o, stride)
  {
  }

  lemma ReversedIsPermutation(s: seq<nat>, n: nat)
    requires |s| == n && forall j :: 0 <= j < n ==> s[j] == n - j - 1
    ensures Permutation(s, n)
  {
    forall v: nat | v < n ensures v in s {
      assert s[n - 1 - v] == v;
    }
  }

  /** a is picked before b: from an earlier column, or from an earlier row of the same one. */
  predicate Before(stride: nat, a: nat, b: nat)
    requires stride >= 1
  {
    a % stride < b % stride || (a % stride == b % stride && a < b)
  }

  ghost predicate Ascending(stride: nat, s: seq<nat>)
    requires stride >= 1
  {
    forall i, j :: 0 <= i < j < |s| ==> Before(stride, s[i], s[j])
  }

  lemma PickBefore(stride: nat, o: nat, r: nat, a: nat, o': nat, r': nat, b: nat)
    requires IsPick(stride, o, r, a) && IsPick(stride, o', r', b) && o < stride && o' < stride
    requires o < o' || (o == o' && r < r')
    ensures Before(stride, a, b)
  {
    RemainderUnique(a, stride, r, o);
    RemainderUnique(b, stride, r', o');
    if o == o' {
      var t := r' - r;
      assert r' * stride == r * stride + t * stride && t * stride == stride + (t - 1) * stride;
      assert (t - 1) * stride >= 0;
    }
  }

  lemma JoinAscending(stride: nat, s: seq<nat>, t: seq<nat>)
    requires stride >= 1 && Ascending(stride, s) && Ascending(stride, t)
    requires forall a, b :: a in s && b in t ==> Before(stride, a, b)
    ensures Ascending(stride, s + t)
  {
    hide Before;
    var u := s + t;
    forall i, j | 0 <= i < j < |u| ensures Before(stride, u[i], u[j]) {
      if i < |s| <= j {
        assert u[i] in s && u[j] in t;
      }
    }
  }

  lemma {:induction false} ColumnAscending(size: nat, stride: nat, o: nat, j: nat)
    requires o < stride
    ensures Ascending(stride, Column(size, stride, o, j))
  {
    hide Before, IsPick;
    if j > 0 {
      var s, v := Column(size, stride, o, j - 1), (j - 1) * stride + o;
      ColumnAscending(size, stride, o, j - 1);
      PickIs(stride, o, j - 1, v);
      forall a | a in s ensures Before(stride, a, v) {
        ColumnMembers(size, stride, o, j - 1, a);
        var r: nat :| r < j - 1 && IsPick(stride, o, r, a);
        PickBefore(stride, o, r, a, o, j - 1, v);
      }
      JoinAscending(stride, s, if v < size then [v] else []);
    }
  }

  lemma {:induction false} ColumnsAscending(size: nat, stride: nat, o: nat)
    requires o <= stride && stride >= 1
    ensures Ascending(stride, Columns(size, stride, o))
  {
    hide Before, IsPick, Column;
    if o > 0 {
      var s, t := Columns(size, stride, o - 1), Column(size, stride, o - 1, stride);
      ColumnsAscending(size, stride, o - 1);
      ColumnAscending(size, stride, o - 1, stride);
      forall a, b | a in s && b in t ensures Before(stride, a, b) {
        var p, r := FromColumns(size, stride, o - 1, a);
        ColumnMembers(size, stride, o - 1, stride, b);
        var r': nat :| r' < stride && IsPick(stride, o - 1, r', b);
        PickBefore(stride, p, r, a, o - 1, r', b);
      }
      JoinAscending(stride, s, t);
    }
  }

  /** The order is that of a square read by columns, whose side is the least root of a square that holds the table;
      tables below four entries are read backwards. With `InterleavedIsPermutation` this leaves one order only. */
  lemma OrderIsColumnMajor(n: nat) returns (stride: nat)
    ensures n < 4 ==> |Order(n)| == n && forall k :: 0 <= k < n ==> Order(n)[k] == n - 1 - k
    ensures n >= 4 ==>
      && stride >= 1 && (stride - 1) * (stride - 1) < n <= stride * stride
      && Ascending(stride, Order(n)) && Permutation(Order(n), n)
  {
    stride := CeilRoot(n, 0);
    if n >= 4 {
      RootPositive(n, stride);
      ColumnsAscending(n, stride, stride);
      InterleavedIsPermutation(n, stride);
    }
  }

  // ----- the product of the two tables

  ghost predicate LapAt(k: nat, outer: nat, inner: nat, o: nat, i: nat, laps: nat) {
    k == laps * (outer * inner) + (o * inner + i)
  }

  /** Step k of a walk through `outer` times `inner` pairs, the inner index fastest. */
  ghost predicate Visits(k: nat, outer: nat, inner: nat, o: nat, i: nat) {
    && o < outer && i < inner
    && exists laps: nat :: LapAt(k, outer, inner, o, i, laps)
  }

  lemma VisitsStart(outer: nat, inner: nat)
    requires outer >= 1 && inner >= 1
    ensures Visits(0, outer, inner, 0, 0)
  {
    assert LapAt(0, outer, inner, 0, 0, 0);
  }

  // The counters of the nested loops: inner first, then outer, then the next lap.
  lemma VisitsNext(k: nat, outer: nat, inner: nat, o: nat, i: nat)
    requires Visits(k, outer, inner, o, i)
    ensures i + 1 < inner ==> Visits(k + 1, outer, inner, o, i + 1)
    ensures i + 1 == inner && o + 1 < outer ==> Visits(k + 1, outer, inner, o + 1, 0)
    ensures i + 1 == inner && o + 1 == outer ==> Visits(k + 1, outer, inner, 0, 0)
  {
    var laps: nat :| LapAt(k, outer, inner, o, i, laps);
    assert (o + 1) * inner == o * inner + inner;
    if i + 1 < inner {
      assert LapAt(k + 1, outer, inner, o, i + 1, laps);
    } else if o + 1 < outer {
      assert LapAt(k + 1, outer, inner, o + 1, 0, laps);
    } else {
      assert (laps + 1) * (outer * inner) == laps * (outer * inner) + outer * inner;
      assert LapAt(k + 1, outer, inner, 0, 0, laps + 1);
    }
  }

  lemma PairBelow(outer: nat, inner: nat, o: nat, i: nat)
    requires o < outer && i < inner
    ensures o * inner + i < outer * inner
  {
    var t := outer - 1 - o;
    assert outer * inner == o * inner + t * inner + inner;
    assert t * inner >= 0;
  }

  // Two steps less than a whole lap apart never visit the same pair.
  lemma VisitsOnce(k: nat, k': nat, outer: nat, inner: nat, o: nat, i: nat)
    requires Visits(k, outer, inner, o, i) && Visits(k', outer, inner, o, i)
    requires -(outer * inner) < k - k' < outer * inner
    ensures k == k'
  {
    var a: nat :| LapAt(k, outer, inner, o, i, a);
    var b: nat :| LapAt(k', outer, inner, o, i, b);
    var n := outer * inner;
    assert (a - b) * n == a * n - b * n;
    MultipleInRange(a - b, n);
  }

  // Every window of a whole lap visits every pair.
  lemma {:induction false} VisitsWithin(k: nat, outer: nat, inner: nat, o: nat, i: nat) returns (t: nat)
    requires o < outer && i < inner
    ensures k <= t < k + outer * inner && Visits(t, outer, inner, o, i)
  {
    var n := outer * inner;
    PairBelow(outer, inner, o, i);
    if k == 0 {
      t := o * inner + i;
      assert LapAt(t, outer, inner, o, i, 0);
    } else {
      t := VisitsWithin(k - 1, outer, inner, o, i);
      if t == k - 1 {
        var a: nat :| LapAt(t, outer, inner, o, i, a);
        t := t + n;
        assert (a + 1) * n == a * n + n;
        assert LapAt(t, outer, inner, o, i, a + 1);
      }
    }
  }

  // A step visits only one pair.
  lemma VisitsUnique(k: nat, outer: nat, inner: nat, o: nat, i: nat, o': nat, i': nat)
    requires Visits(k, outer, inner, o, i) && Visits(k, outer, inner, o', i')
    ensures o == o' && i == i'
  {
    var a: nat :| LapAt(k, outer, inner, o, i, a);
    var b: nat :| LapAt(k, outer, inner, o', i', b);
    PairBelow(outer, inner, o, i);
    PairBelow(outer, inner, o', i');
    OnePlace(outer * inner, o * inner + i, a, o' * inner + i', b);
    OnePlace(inner, i, o, i', o');
  }

  ghost predicate WalkedAt(slow: seq<nat>, fast: seq<nat>, outer: seq<nat>, inner: seq<nat>, k: nat)
    requires k < |slow| && k < |fast|
  {
    forall o: nat, i: nat :: Visits(k, |outer|, |inner|, o, i) ==> slow[k] == outer[o] && fast[k] == inner[i]
  }

  /** The table is filled up to step `n` by walking the two permutations. */
  ghost predicate Walked(slow: seq<nat>, fast: seq<nat>, outer: seq<nat>, inner: seq<nat>, n: nat) {
    && n <= |slow| && n <= |fast|
    && forall k: nat :: k < n ==> WalkedAt(slow, fast, outer, inner, k)
  }

  lemma WalkedNext(slow: seq<nat>, fast: seq<nat>, slow': seq<nat>, fast': seq<nat>,
                   outer: seq<nat>, inner: seq<nat>, k: nat, o: nat, i: nat)
    requires Walked(slow, fast, outer, inner, k) && k < |slow| == |slow'| && k < |fast| == |fast'|
    requires Visits(k, |outer|, |inner|, o, i)
    requires slow' == slow[k := outer[o]] && fast' == fast[k := inner[i]]
    ensures Walked(slow', fast', outer, inner, k + 1)
  {
    hide Visits;
    forall o': nat, i': nat | Visits(k, |outer|, |inner|, o', i') ensures o' == o && i' == i {
      VisitsUnique(k, |outer|, |inner|, o, i, o', i');
    }
    assert WalkedAt(slow', fast', outer, inner, k) by {
      VisitsBounds(outer, inner);
    }
    forall t: nat | t < k ensures WalkedAt(slow', fast', outer, inner, t) {
      assert WalkedAt(slow, fast, outer, inner, t);
    }
  }

  lemma VisitsBounds(outer: seq<nat>, inner: seq<nat>)
    ensures forall k: nat, o: nat, i: nat :: Visits(k, |outer|, |inner|, o, i) ==> o < |outer| && i < |inner|
  {
  }

  /** Fill both index tables by walking the outer permutation slowly and the inner one fast, again and again
      until the tables are full. */
  method FillProduct(slow: array<nat>, fast: array<nat>, outer: array<nat>, inner: array<nat>)
    requires slow.Length == fast.Length && slow != fast && outer.Length >= 1 && inner.Length >= 1
    requires outer != slow && outer != fast && inner != slow && inner != fast
    modifies slow, fast
    ensures Walked(slow[..], fast[..], outer[..], inner[..], slow.Length)
  {
    hide *;
    var count: nat := 0;
    ghost var po, pi := outer[..], inner[..];
    WalkedNone(slow[..], fast[..], po, pi);
    while count < slow.Length
      invariant count <= slow.Length && outer[..] == po && inner[..] == pi
      invariant Walked(slow[..], fast[..], po, pi, count)
      invariant count < slow.Length ==> Visits(count, |po|, |pi|, 0, 0)
    {
      ghost var before := count;
      var o: nat := 0;
      while o < outer.Length
        invariant o <= outer.Length && count < slow.Length && outer[..] == po && inner[..] == pi
        invariant Walked(slow[..], fast[..], po, pi, count)
        invariant Visits(count, |po|, |pi|, if o < outer.Length then o else 0, 0)
        invariant count >= before && (o > 0 ==> count > before)
      {
        var i: nat := 0;
        while i < inner.Length
          invariant i <= inner.Length && count < slow.Length && outer[..] == po && inner[..] == pi
          invariant Walked(slow[..], fast[..], po, pi, count)
          invariant i < inner.Length ==> Visits(count, |po|, |pi|, o, i)
          invariant i == inner.Length ==> Visits(count, |po|, |pi|, if o + 1 < outer.Length then o + 1 else 0, 0)
          invariant count >= before && (o > 0 || i > 0 ==> count > before)
        {
          ghost var s, f := slow[..], fast[..];
          slow[count] := outer[o];
          fast[count] := inner[i];
          WalkedNext(s, f, slow[..], fast[..], po, pi, count, o, i);
          VisitsNext(count, |po|, |pi|, o, i);
          count := count + 1;
          if count >= slow.Length {
            break;
          }
          i := i + 1;
        }
        if count >= slow.Length {
          break;
        }
        o := o + 1;
      }
    }
  }

  lemma LapArith(k: nat, m: nat, n: nat)
    requires m >= 1 && n >= 1
    ensures LapAt(k, n, m, (k / m) % n, k % m, (k / m) / n)
  {
    var q, i := k / m, k % m;
    var a, o := q / n, q % n;
    assert k == q * m + i && q == a * n + o;
    assert (a * n + o) * m == a * (n * m) + o * m;
  }

  lemma VisitsAt(k: nat, m: nat, n: nat)
    requires m >= 1 && n >= 1
    ensures Visits(k, n, m, (k / m) % n, k % m)
  {
    LapArith(k, m, n);
  }

  lemma WalkedValue(slow: seq<nat>, fast: seq<nat>, outer: seq<nat>, inner: seq<nat>, n: nat, k: nat, o: nat, i: nat)
    requires Walked(slow, fast, outer, inner, n) && k < n && Visits(k, |outer|, |inner|, o, i)
    ensures k < |slow| && k < |fast| && o < |outer| && i < |inner| && slow[k] == outer[o] && fast[k] == inner[i]
  {
    assert WalkedAt(slow, fast, outer, inner, k);
  }

  /** The walk in closed form: quotient and remainder of the step number. */
  lemma WalkedAre(slow: seq<nat>, fast: seq<nat>, outer: seq<nat>, inner: seq<nat>, n: nat, k: nat)
    requires Walked(slow, fast, outer, inner, n) && k < n && |outer| >= 1 && |inner| >= 1
    ensures k < |slow| && k < |fast|
    ensures slow[k] == outer[(k / |inner|) % |outer|] && fast[k] == inner[k % |inner|]
  {
    hide *;
    VisitsAt(k, |inner|, |outer|);
    WalkedValue(slow, fast, outer, inner, n, k, (k / |inner|) % |outer|, k % |inner|);
  }

  lemma WalkedNone(slow: seq<nat>, fast: seq<nat>, outer: seq<nat>, inner: seq<nat>)
    requires |outer| >= 1 && |inner| >= 1
    ensures Walked(slow, fast, outer, inner, 0) && Visits(0, |outer|, |inner|, 0, 0)
  {
    VisitsStart(|outer|, |inner|);
  }

  ghost predicate Hits(rf: seq<nat>, dsp: seq<nat>, t: nat, a: nat, b: nat) {
    t < |rf| && t < |dsp| && rf[t] == a && dsp[t] == b
  }

  ghost predicate HitOnce(rf: seq<nat>, dsp: seq<nat>, lo: nat, hi: nat, a: nat, b: nat) {
    && (exists t: nat :: lo <= t < hi && Hits(rf, dsp, t, a, b))
    && forall t: nat, t': nat :: lo <= t < hi && lo <= t' < hi && Hits(rf, dsp, t, a, b) && Hits(rf, dsp, t', a, b) ==>
      t == t'
  }

  /** In the steps from lo up to hi, every pair of indices of tables of m and n entries occurs exactly once. */
  ghost predicate CoversWindow(rf: seq<nat>, dsp: seq<nat>, m: nat, n: nat, lo: nat, hi: nat) {
    forall a: nat, b: nat :: a < m && b < n ==> HitOnce(rf, dsp, lo, hi, a, b)
  }

  // Every step visits some pair.
  lemma {:induction false} VisitsSome(k: nat, outer: nat, inner: nat) returns (o: nat, i: nat)
    requires outer >= 1 && inner >= 1
    ensures Visits(k, outer, inner, o, i)
  {
    if k == 0 {
      VisitsStart(outer, inner);
      o, i := 0, 0;
    } else {
      o, i := VisitsSome(k - 1, outer, inner);
      VisitsNext(k - 1, outer, inner, o, i);
      if i + 1 < inner {
        i := i + 1;
      } else if o + 1 < outer {
        o, i := o + 1, 0;
      } else {
        o, i := 0, 0;
      }
    }
  }

  lemma WalkHits(slow: seq<nat>, fast: seq<nat>, outer: seq<nat>, inner: seq<nat>, o: nat, i: nat, t: nat)
    requires Walked(slow, fast, outer, inner, |slow|) && |slow| == |fast| && |outer| >= 1 && |inner| >= 1
    requires Permutation(outer, |outer|) && Permutation(inner, |inner|) && o < |outer| && i < |inner| && t < |slow|
    ensures Hits(slow, fast, t, outer[o], inner[i]) <==> Visits(t, |outer|, |inner|, o, i)
  {
    hide Visits;
    assert WalkedAt(slow, fast, outer, inner, t);
    var p, q := VisitsSome(t, |outer|, |inner|);
    VisitsBounds(outer, inner);
    assert slow[t] == outer[p] && fast[t] == inner[q];
    if Hits(slow, fast, t, outer[o], inner[i]) {
      SameIndex(outer, |outer|, p, o);
      SameIndex(inner, |inner|, q, i);
    }
  }

  lemma SameIndex(s: seq<nat>, n: nat, i: nat, j: nat)
    requires Permutation(s, n) && i < n && j < n && s[i] == s[j]
    ensures i == j
  {
  }

  /** Hop coverage: any window of one lap meets every pair exactly once. */
  lemma LapCovers(slow: seq<nat>, fast: seq<nat>, outer: seq<nat>, inner: seq<nat>, k: nat)
    requires Walked(slow, fast, outer, inner, |slow|) && |slow| == |fast| && |outer| >= 1 && |inner| >= 1
    requires Permutation(outer, |outer|) && Permutation(inner, |inner|) && k + |outer| * |inner| <= |slow|
    ensures CoversWindow(slow, fast, |outer|, |inner|, k, k + |outer| * |inner|)
  {
    hide Walked, Visits;
    var hi := k + |outer| * |inner|;
    forall a: nat, b: nat | a < |outer| && b < |inner| ensures HitOnce(slow, fast, k, hi, a, b) {
      assert a in outer && b in inner;
      var o: nat :| o < |outer| && outer[o] == a;
      var i: nat :| i < |inner| && inner[i] == b;
      PairOnce(slow, fast, outer, inner, k, o, i);
    }
  }

  lemma PairOnce(slow: seq<nat>, fast: seq<nat>, outer: seq<nat>, inner: seq<nat>, k: nat, o: nat, i: nat)
    requires Walked(slow, fast, outer, inner, |slow|) && |slow| == |fast| && |outer| >= 1 && |inner| >= 1
    requires Permutation(outer, |outer|) && Permutation(inner, |inner|) && k + |outer| * |inner| <= |slow|
    requires o < |outer| && i < |inner|
    ensures HitOnce(slow, fast, k, k + |outer| * |inner|, outer[o], inner[i])
  {
    var hi := k + |outer| * |inner|;
    hide Walked, Visits, Permutation, Hits;
    var t := VisitsWithin(k, |outer|, |inner|, o, i);
    WalkHits(slow, fast, outer, inner, o, i, t);
    forall t: nat, t': nat | k <= t < hi && k <= t' < hi
        && Hits(slow, fast, t, outer[o], inner[i]) && Hits(slow, fast, t', outer[o], inner[i])
      ensures t == t'
    {
      WalkHits(slow, fast, outer, inner, o, i, t);
      WalkHits(slow, fast, outer, inner, o, i, t');
      VisitsOnce(t, t', |outer|, |inner|, o, i);
    }
  }

  datatype Algorithm = AlgA | AlgB

  /** Every window of one full lap visits each pair of radio and signal-processing frequencies once. */
  ghost predicate CoversAll(rf: seq<nat>, dsp: seq<nat>, m: nat, n: nat) {
    forall lo: nat, hi: nat :: hi == lo + m * n && hi <= |rf| ==> CoversWindow(rf, dsp, m, n, lo, hi)
  }

  lemma SwapWindow(rf: seq<nat>, dsp: seq<nat>, m: nat, n: nat, lo: nat, hi: nat)
    requires CoversWindow(dsp, rf, n, m, lo, hi)
    ensures CoversWindow(rf, dsp, m, n, lo, hi)
  {
    forall a: nat, b: nat | a < m && b < n ensures HitOnce(rf, dsp, lo, hi, a, b) {
      assert HitOnce(dsp, rf, lo, hi, b, a);
      var t: nat :| lo <= t < hi && Hits(dsp, rf, t, b, a);
      assert Hits(rf, dsp, t, a, b);
      forall t: nat, t': nat | lo <= t < hi && lo <= t' < hi && Hits(rf, dsp, t, a, b) && Hits(rf, dsp, t', a, b)
        ensures t == t'
      {
        assert Hits(dsp, rf, t, b, a) && Hits(dsp, rf, t', b, a);
      }
    }
  }

  lemma LapsCover(slow: seq<nat>, fast: seq<nat>, outer: seq<nat>, inner: seq<nat>)
    requires Walked(slow, fast, outer, inner, |slow|) && |slow| == |fast| && |outer| >= 1 && |inner| >= 1
    requires Permutation(outer, |outer|) && Permutation(inner, |inner|)
    ensures CoversAll(slow, fast, |outer|, |inner|) && CoversAll(fast, slow, |inner|, |outer|)
  {
    hide Walked, Permutation, CoversWindow;
    var m, n := |outer|, |inner|;
    forall lo: nat, hi: nat | hi == lo + m * n && hi <= |slow|
      ensures CoversWindow(slow, fast, m, n, lo, hi) && CoversWindow(fast, slow, n, m, lo, hi)
    {
      LapCovers(slow, fast, outer, inner, lo);
      SwapWindow(fast, slow, n, m, lo, hi);
    }
    assert m * n == n * m;
  }

  class FhSeqGenerator {
    const numSeqSteps: nat
    const rfTableSize: nat
    const dspTableSize: nat
    const rfIdxTable: array<nat>
    const dspIdxTable: array<nat>

    constructor (numSeqSteps: nat, rfTableSize: nat, dspTableSize: nat)
      ensures this.numSeqSteps == numSeqSteps && this.rfTableSize == rfTableSize && this.dspTableSize == dspTableSize
      ensures Valid() && fresh(rfIdxTable) && fresh(dspIdxTable)
      ensures forall k :: 0 <= k < numSeqSteps ==> rfIdxTable[k] == 0 && dspIdxTable[k] == 0
    {
      this.numSeqSteps := numSeqSteps;
      this.rfTableSize := rfTableSize;
      this.dspTableSize := dspTableSize;
      this.rfIdxTable := new nat[numSeqSteps](_ => 0);
      this.dspIdxTable := new nat[numSeqSteps](_ => 0);
    }

    ghost predicate Valid() {
      rfIdxTable != dspIdxTable && rfIdxTable.Length == dspIdxTable.Length == numSeqSteps
    }

    /** `makeSeq` for the two permuting algorithms: B walks the tables in the opposite nesting. */
    method MakeSeq(algorithm: Algorithm)
      requires Valid() && rfTableSize >= 1 && dspTableSize >= 1
      modifies rfIdxTable, dspIdxTable
      ensures algorithm == AlgA
        ==> Walked(rfIdxTable[..], dspIdxTable[..], Order(rfTableSize), Order(dspTableSize), numSeqSteps)
      ensures algorithm == AlgB
        ==> Walked(dspIdxTable[..], rfIdxTable[..], Order(dspTableSize), Order(rfTableSize), numSeqSteps)
      ensures CoversAll(rfIdxTable[..], dspIdxTable[..], rfTableSize, dspTableSize)
    {
      var rf := Interleave(rfTableSize);
      var dsp := Interleave(dspTableSize);
      hide Permutation, Walked, CoversAll, Order;
      PermutationSize(rf[..], rfTableSize);
      PermutationSize(dsp[..], dspTableSize);
      ghost var rfs, dsps := rf[..], dsp[..];
      if algorithm == AlgA {
        FillProduct(rfIdxTable, dspIdxTable, rf, dsp);
        LapsCover(rfIdxTable[..], dspIdxTable[..], rfs, dsps);
      } else {
        FillProduct(dspIdxTable, rfIdxTable, dsp, rf);
        LapsCover(dspIdxTable[..], rfIdxTable[..], dsps, rfs);
      }
    }
  }
}
