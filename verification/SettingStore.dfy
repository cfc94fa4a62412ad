/** Settings as the library keeps them: records that point at their parent and their elements. A record is
    named by its place in the order of creation, so elements always come after their parent. */
module SettingStore {
  import opened Lexemes
  import opened Config

  datatype Type = NoType | GroupType | IntType | Int64Type | StringType | BoolType | ArrayType | ListType

  datatype Name = NoName | Named(text: string)

  datatype Node = Node(name: Name, typ: Type, format: Format, number: int, text: string, parent: int,
                       elements: seq<nat>)

  ghost predicate Ordered(nodes: seq<Node>) {
    forall x: nat, k: nat :: x < |nodes| && k < |nodes[x].elements| ==> x < nodes[x].elements[k] < |nodes|
  }

  ghost predicate After(es: seq<nat>, x: nat, hi: nat) {
    forall k :: 0 <= k < |es| ==> x < es[k] < hi
  }

  lemma ElementsAfter(nodes: seq<Node>, x: nat)
    requires Ordered(nodes) && x < |nodes|
    ensures After(nodes[x].elements, x, |nodes|)
  {
  }

  /** What stands for a setting that has no value yet: a number no setting can hold. */
  function NoValue(): Value {
    Int(HALF_INT, Plain)
  }

  /** The value a setting stands for. */
  ghost function TreeOf(nodes: seq<Node>, x: nat): Value
    requires Ordered(nodes) && x < |nodes|
    decreases |nodes| - x, |nodes[x].elements| + 1
  {
    var n := nodes[x];
    ElementsAfter(nodes, x);
    match n.typ
    case NoType => NoValue()
    case BoolType => Bool(n.number != 0)
    case IntType => Int(n.number, n.format)
    case Int64Type => Int64(n.number, n.format)
    case StringType => Text(n.text)
    case ArrayType => Array(ValuesOf(nodes, x, n.elements))
    case ListType => List(ValuesOf(nodes, x, n.elements))
    case GroupType => Group(MembersOf(nodes, x, n.elements))
  }

  ghost function ValuesOf(nodes: seq<Node>, x: nat, es: seq<nat>): Values
    requires Ordered(nodes) && x < |nodes| && After(es, x, |nodes|)
    decreases |nodes| - x, |es|
  {
    if |es| == 0 then Nil else
      assert x < es[0] < |nodes|;
      Cons(TreeOf(nodes, es[0]), ValuesOf(nodes, x, es[1..]))
  }

  function NameText(n: Name): string {
    if n.Named? then n.text else ""
  }

  ghost function MembersOf(nodes: seq<Node>, x: nat, es: seq<nat>): Members
    requires Ordered(nodes) && x < |nodes| && After(es, x, |nodes|)
    decreases |nodes| - x, |es|
  {
    if |es| == 0 then End else
      assert x < es[0] < |nodes|;
      More(NameText(nodes[es[0]].name), TreeOf(nodes, es[0]), MembersOf(nodes, x, es[1..]))
  }

  // ----- what a growing store keeps

  /** No setting in [lo, hi) points outside of it. */
  ghost predicate Closed(nodes: seq<Node>, lo: nat, hi: nat)
    requires hi <= |nodes|
  {
    forall x: nat, k: nat :: lo <= x < hi && k < |nodes[x].elements| ==> nodes[x].elements[k] < hi
  }

  /** Both stores hold the same settings in [lo, hi), and none of them points outside. */
  ghost predicate SamePart(a: seq<Node>, b: seq<Node>, lo: nat, hi: nat) {
    && lo <= hi <= |a| && hi <= |b| && Ordered(a) && Ordered(b) && Closed(a, lo, hi)
    && forall x: nat :: lo <= x < hi ==> a[x] == b[x]
  }

  lemma PartElements(a: seq<Node>, b: seq<Node>, lo: nat, hi: nat, x: nat)
    requires SamePart(a, b, lo, hi) && lo <= x < hi
    ensures a[x] == b[x] && After(a[x].elements, x, hi) && After(b[x].elements, x, |b|) && After(a[x].elements, x, |a|)
  {
    ElementsAfter(a, x);
    ElementsAfter(b, x);
  }

  lemma {:induction false} SameTree(a: seq<Node>, b: seq<Node>, lo: nat, hi: nat, x: nat)
    requires SamePart(a, b, lo, hi) && lo <= x < hi
    ensures TreeOf(a, x) == TreeOf(b, x)
    decreases hi - x, |a[x].elements| + 1
  {
    PartElements(a, b, lo, hi, x);
    var es := a[x].elements;
    if a[x].typ == GroupType {
      SameMembers(a, b, lo, hi, x, x, es);
    } else if a[x].typ == ArrayType || a[x].typ == ListType {
      SameValues(a, b, lo, hi, x, x, es);
    }
    hide SamePart, Ordered, ValuesOf, MembersOf;
  }

  lemma {:induction false} SameValues(a: seq<Node>, b: seq<Node>, lo: nat, hi: nat, x: nat, y: nat, es: seq<nat>)
    requires SamePart(a, b, lo, hi) && x < |a| && y < |b| && After(es, x, hi) && After(es, y, hi)
    requires forall k :: 0 <= k < |es| ==> lo <= es[k]
    ensures After(es, x, |a|) && After(es, y, |b|) && ValuesOf(a, x, es) == ValuesOf(b, y, es)
    decreases hi - x, |es|
  {
    hide TreeOf;
    if |es| > 0 {
      SameTree(a, b, lo, hi, es[0]);
      SameValues(a, b, lo, hi, x, y, es[1..]);
    }
  }

  lemma {:induction false} SameMembers(a: seq<Node>, b: seq<Node>, lo: nat, hi: nat, x: nat, y: nat, es: seq<nat>)
    requires SamePart(a, b, lo, hi) && x < |a| && y < |b| && After(es, x, hi) && After(es, y, hi)
    requires forall k :: 0 <= k < |es| ==> lo <= es[k]
    ensures After(es, x, |a|) && After(es, y, |b|) && MembersOf(a, x, es) == MembersOf(b, y, es)
    decreases hi - x, |es|
  {
    hide TreeOf;
    if |es| > 0 {
      SameTree(a, b, lo, hi, es[0]);
      SameMembers(a, b, lo, hi, x, y, es[1..]);
    }
  }

  /** From a to b the only change to old settings is that p got the elements es, all of them new. */
  ghost predicate Grew(a: seq<Node>, b: seq<Node>, p: nat, es: seq<nat>) {
    && p < |a| <= |b| && Ordered(a) && Ordered(b)
    && b[p] == a[p].(elements := a[p].elements + es)
    && (forall y: nat :: y < |a| && y != p ==> b[y] == a[y])
    && forall k :: 0 <= k < |es| ==> |a| <= es[k] < |b|
  }

  /** From a to b the last setting t of a got a value, possibly with settings below it. */
  ghost predicate Filled(a: seq<Node>, b: seq<Node>, t: nat) {
    && |a| == t + 1 <= |b| && Ordered(a) && Ordered(b)
    && (forall y: nat :: y < t ==> b[y] == a[y])
    && b[t].name == a[t].name && b[t].parent == a[t].parent
  }

  lemma GrewAfter(a: seq<Node>, b: seq<Node>, p: nat, es: seq<nat>)
    requires Grew(a, b, p, es)
    ensures Ordered(b) && p < |b| && After(es, p, |b|)
  {
  }

  lemma GrewNot(a: seq<Node>, p: nat)
    requires Ordered(a) && p < |a|
    ensures Grew(a, a, p, []) && ValuesOf(a, p, []) == Nil && MembersOf(a, p, []) == End
  {
    assert a[p].elements + [] == a[p].elements;
  }

  // Growing twice.
  lemma GrewTwice(a: seq<Node>, b: seq<Node>, c: seq<Node>, p: nat, es: seq<nat>, fs: seq<nat>)
    requires Grew(a, b, p, es) && Grew(b, c, p, fs)
    ensures Grew(a, c, p, es + fs)
  {
    assert a[p].elements + (es + fs) == (a[p].elements + es) + fs;
    hide Ordered;
  }

  lemma GrewKeeps(a: seq<Node>, b: seq<Node>, c: seq<Node>, p: nat, t: nat, fs: seq<nat>)
    requires Grew(a, b, p, [t]) && Grew(b, c, p, fs)
    ensures t < |b| && t < |c| && TreeOf(c, t) == TreeOf(b, t) && c[t].name == b[t].name
  {
    assert [t][0] == t;
    assert SamePart(b, c, |a|, |b|);
    hide Ordered;
    SameTree(b, c, |a|, |b|, t);
  }

  // One more element in front of those that follow.
  lemma ValuesFirst(c: seq<Node>, p: nat, t: nat, fs: seq<nat>)
    requires Ordered(c) && p < t < |c| && After(fs, p, |c|)
    ensures After([t] + fs, p, |c|) && ValuesOf(c, p, [t] + fs) == Cons(TreeOf(c, t), ValuesOf(c, p, fs))
    ensures MembersOf(c, p, [t] + fs) == More(NameText(c[t].name), TreeOf(c, t), MembersOf(c, p, fs))
  {
    assert ([t] + fs)[1..] == fs;
    hide TreeOf, Ordered;
  }

  lemma FilledByGrowth(a: seq<Node>, b: seq<Node>, t: nat, es: seq<nat>)
    requires Grew(a, b, t, es) && |a| == t + 1
    ensures Filled(a, b, t) && b[t] == a[t].(elements := a[t].elements + es)
  {
    hide Ordered;
  }

  lemma FilledTwice(a: seq<Node>, b: seq<Node>, c: seq<Node>, t: nat)
    requires Filled(a, b, t) && |b| == t + 1 && Filled(b, c, t)
    ensures Filled(a, c, t)
  {
    hide Ordered;
  }

  // A new last element that then gets its value.
  lemma GrewFilled(a: seq<Node>, b: seq<Node>, c: seq<Node>, p: nat, t: nat)
    requires Grew(a, b, p, [t]) && |b| == t + 1 && Filled(b, c, t)
    ensures Grew(a, c, p, [t]) && c[t].name == b[t].name
  {
    assert [t][0] == t;
    hide Ordered;
  }

  /** A record for a new element of p. */
  function Child(p: nat, name: Name, typ: Type): Node {
    Node(name, typ, Plain, 0, "", p, [])
  }

  function Added(a: seq<Node>, p: nat, n: Node): seq<Node>
    requires p < |a|
  {
    a[p := a[p].(elements := a[p].elements + [|a|])] + [n]
  }

  lemma AddedGrew(a: seq<Node>, p: nat, n: Node)
    requires Ordered(a) && p < |a| && n.elements == []
    ensures var b := Added(a, p, n); Grew(a, b, p, [|a|]) && |b| == |a| + 1 && b[|a|] == n
  {
    var b := Added(a, p, n);
    forall x: nat, k: nat | x < |b| && k < |b[x].elements| ensures x < b[x].elements[k] < |b| {
      if x < |a| && k < |a[x].elements| {
        assert x < a[x].elements[k] < |a|;
      }
    }
  }

  lemma ChangedFilled(a: seq<Node>, t: nat, n: Node)
    requires Ordered(a) && |a| == t + 1 && a[t].elements == [] && n.elements == []
    requires n.name == a[t].name && n.parent == a[t].parent
    ensures Filled(a, a[t := n], t) && |a[t := n]| == t + 1
  {
    var b := a[t := n];
    forall x: nat, k: nat | x < |b| && k < |b[x].elements| ensures x < b[x].elements[k] < |b| {
      assert x < a[x].elements[k] < |a|;
    }
  }
}
