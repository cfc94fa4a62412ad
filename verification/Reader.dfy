/** The parser's semantic actions on the setting store, run in the order of the grammar's productions. */
module Reader {
  import opened Config
  import opened SettingStore

  datatype Outcome = Fine | Bad(error: Error)

  predicate PathToken(c: char) {
    c in ":./"
  }

  /** `__config_name_compare(a, b) == 0`: equal up to a path separator or the end. */
  predicate SameName(a: string, b: string) {
    var aEnd, bEnd := |a| == 0 || PathToken(a[0]), |b| == 0 || PathToken(b[0]);
    if aEnd || bEnd then aEnd && bEnd else a[0] == b[0] && SameName(a[1..], b[1..])
  }

  predicate PlainName(n: string) {
    forall i :: 0 <= i < |n| ==> !PathToken(n[i])
  }

  lemma {:induction false} SameNameIsEqual(a: string, b: string)
    requires PlainName(a) && PlainName(b)
    ensures SameName(a, b) <==> a == b
  {
    if |a| > 0 && |b| > 0 {
      SameNameIsEqual(a[1..], b[1..]);
      assert a == [a[0]] + a[1..] && b == [b[0]] + b[1..];
    }
  }

  lemma ValidIsPlain(n: string)
    requires ValidName(n)
    ensures PlainName(n)
  {
  }

  ghost predicate MemberSeen(nodes: seq<Node>, e: nat, seen: set<string>) {
    e < |nodes| && nodes[e].name.Named? && ValidName(nodes[e].name.text) && nodes[e].name.text in seen
  }

  ghost predicate HasText(nodes: seq<Node>, e: nat, n: string) {
    e < |nodes| && nodes[e].name == Named(n)
  }

  ghost predicate Holds(nodes: seq<Node>, p: nat, n: string)
    requires Ordered(nodes) && p < |nodes|
  {
    exists k: nat :: k < |nodes[p].elements| && HasText(nodes, nodes[p].elements[k], n)
  }

  /** The group p holds exactly the names `seen`, all of them valid. */
  ghost predicate Seen(nodes: seq<Node>, p: nat, seen: set<string>)
    requires Ordered(nodes) && p < |nodes|
  {
    && (forall k: nat :: k < |nodes[p].elements| ==> MemberSeen(nodes, nodes[p].elements[k], seen))
    && forall n :: n in seen ==> Holds(nodes, p, n)
  }

  function TypeOf(k: Kind): Type {
    match k
    case BoolKind => BoolType
    case IntKind => IntType
    case Int64Kind => Int64Type
    case TextKind => StringType
    case OtherKind => NoType
  }

  /** What the elements already in an array require of the next one. */
  ghost predicate Expects(nodes: seq<Node>, p: nat, e: Expected)
    requires Ordered(nodes) && p < |nodes|
  {
    var es := nodes[p].elements;
    && (e == Any <==> |es| == 0)
    && (e.Only? && |es| > 0 ==> es[0] < |nodes| && nodes[es[0]].typ == TypeOf(e.kind) && e.kind != OtherKind)
  }

  predicate IsScalar(t: Type) {
    t == BoolType || t == IntType || t == Int64Type || t == StringType
  }

  predicate IsVector(t: Type) {
    t == ArrayType || t == ListType
  }

  /** A parent that holds no settings, a name that is no name, or one that the group already has. */
  predicate RefusesChild(parent: Type, name: Name, seen: set<string>) {
    || (parent != GroupType && !IsVector(parent))
    || (name.Named? && (!ValidName(name.text) || (parent == GroupType && name.text in seen)))
  }

  lemma GroupRefuses(n: string, seen: set<string>)
    ensures !IsVector(GroupType)
    ensures RefusesChild(GroupType, Named(n), seen) <==> !ValidName(n) || n in seen
  {
  }

  /** A record with a scalar stored in it. */
  function Leaf(n: Node, typ: Type, format: Format, number: int, text: string): Node {
    n.(typ := typ, format := format, number := number, text := text)
  }

  /** The scalar stored in a record. */
  function LeafValue(n: Node): Value
    requires IsScalar(n.typ)
  {
    match n.typ
    case BoolType => Bool(n.number != 0)
    case IntType => Int(n.number, n.format)
    case Int64Type => Int64(n.number, n.format)
    case _ => Text(n.text)
  }

  lemma LeafTree(nodes: seq<Node>, x: nat)
    requires Ordered(nodes) && x < |nodes| && IsScalar(nodes[x].typ)
    ensures TreeOf(nodes, x) == LeafValue(nodes[x]) && nodes[x].typ == TypeOf(KindOf(LeafValue(nodes[x])))
    ensures KindOf(LeafValue(nodes[x])) != OtherKind
  {
  }

  /** From a, a record t of the given type has been opened for a value below p. */
  ghost predicate OpenedAt(a: seq<Node>, b: seq<Node>, p: nat, t: nat, typ: Type) {
    && p < |a| && Ordered(a) && Ordered(b) && |b| == t + 1
    && b[t].typ == typ && b[t].elements == [] && b[t].parent == p
    && if a[p].typ == GroupType then Filled(a, b, t) else t == |a| && Grew(a, b, p, [t])
  }

  lemma OpenedFacts(a: seq<Node>, p: nat, typ: Type)
    requires Ordered(a) && p < |a|
    ensures a[p].typ == ListType ==> OpenedAt(a, Added(a, p, Child(p, NoName, typ)), p, |a|, typ)
    ensures a[p].typ == GroupType && a[|a| - 1].elements == [] && a[|a| - 1].parent == p ==>
      OpenedAt(a, a[|a| - 1 := a[|a| - 1].(typ := typ)], p, |a| - 1, typ)
  {
    AddedGrew(a, p, Child(p, NoName, typ));
    var t := |a| - 1;
    if a[t].elements == [] {
      ChangedFilled(a, t, a[t].(typ := typ));
    }
  }

  lemma OpenedIs(a: seq<Node>, b: seq<Node>, p: nat, t: nat, typ: Type)
    requires OpenedAt(a, b, p, t, typ)
    ensures Ordered(b) && t < |b| && b[t].typ == typ && b[t].elements == [] && b[t].parent == p
    ensures Expects(b, t, Any) && Seen(b, t, {})
  {
    hide Ordered;
  }

  /** The store after one value has been read in place: as a new element of the vector, or into the waiting
      setting. */
  ghost predicate ReadInto(a: seq<Node>, b: seq<Node>, p: nat, v: Value) {
    && p < |a| && Ordered(a) && Ordered(b)
    && if a[p].typ == GroupType then |a| > 0 && Filled(a, b, |a| - 1) && |a| - 1 < |b| && TreeOf(b, |a| - 1) == v
       else Grew(a, b, p, [|a|]) && |a| < |b| && TreeOf(b, |a|) == v
  }

  /** How reading a value in place must end; the parent is the old one again. */
  ghost predicate ValueDone(a: seq<Node>, b: seq<Node>, p: nat, now: nat, r: Parsed<Value>, rest: seq<Token>,
                            o: Outcome)
  {
    match r
    case Fail(e) => o == Bad(e)
    case Done(v, more) => o == Fine && rest == more && now == p && ReadInto(a, b, p, v)
  }

  lemma FilledSize(a: seq<Node>, b: seq<Node>, t: nat)
    ensures Filled(a, b, t) ==> |a| == t + 1
  {
  }

  // A compound value is complete when everything below its record has been read.
  lemma Complete(a: seq<Node>, b: seq<Node>, c: seq<Node>, p: nat, t: nat, typ: Type, es: seq<nat>)
    requires OpenedAt(a, b, p, t, typ) && Grew(b, c, t, es)
    ensures t < |c| && c[t].parent == p && After(es, t, |c|)
    ensures typ == ArrayType ==> ReadInto(a, c, p, Array(ValuesOf(c, t, es)))
    ensures typ == ListType ==> ReadInto(a, c, p, List(ValuesOf(c, t, es)))
    ensures typ == GroupType ==> ReadInto(a, c, p, Group(MembersOf(c, t, es)))
  {
    hide Ordered, Grew, Filled, ValuesOf, MembersOf;
    FilledByGrowth(b, c, t, es);
    GrewAfter(b, c, t, es);
    assert b[t].elements + es == es;
    FilledSize(a, b, t);
    if a[p].typ == GroupType {
      FilledTwice(a, b, c, t);
    } else {
      GrewFilled(a, b, c, p, t);
    }
  }

  lemma EmptyVector(a: seq<Node>, b: seq<Node>, p: nat, t: nat, ts: seq<Token>, rest: seq<Token>)
    requires |ts| >= 2 && rest == ts[2..]
    requires (ts[0] == TArrayStart && ts[1] == TArrayEnd && OpenedAt(a, b, p, t, ArrayType))
      || (ts[0] == TListStart && ts[1] == TListEnd && OpenedAt(a, b, p, t, ListType))
    ensures t < |b| && b[t].parent == p && ValueDone(a, b, p, p, Parse(ts), rest, Fine)
  {
    GrewNot(b, t);
    Complete(a, b, b, p, t, b[t].typ, []);
    hide ReadInto, ValuesOf, OpenedAt;
  }

  ghost predicate ValuesAre(b: seq<Node>, p: nat, es: seq<nat>, vs: Values) {
    Ordered(b) && p < |b| && After(es, p, |b|) && ValuesOf(b, p, es) == vs
  }

  /** How reading the elements of a vector must end. */
  ghost predicate ElementsDone(a: seq<Node>, b: seq<Node>, p: nat, r: Parsed<Values>, rest: seq<Token>, o: Outcome,
                               es: seq<nat>)
  {
    match r
    case Fail(e) => o == Bad(e)
    case Done(vs, more) =>
      o == Fine && rest == more && Grew(a, b, p, es) && ValuesAre(b, p, es, vs)
  }

  lemma VectorRead(a: seq<Node>, b: seq<Node>, c: seq<Node>, p: nat, t: nat, ts: seq<Token>, rest: seq<Token>,
                   o: Outcome, es: seq<nat>)
    requires |ts| >= 1 && ts[0] == TArrayStart && !(|ts| > 1 && ts[1] == TArrayEnd) && OpenedAt(a, b, p, t, ArrayType)
    requires ElementsDone(b, c, t, Elements(ts[1..], Any), rest, o, es)
    ensures o.Fine? ==> t < |c| && c[t].parent == p && ValueDone(a, c, p, p, Parse(ts), rest, o)
    ensures o.Bad? ==> forall now: nat :: ValueDone(a, c, p, now, Parse(ts), rest, o)
  {
    hide OpenedAt, Elements, ReadInto, ValuesOf, Grew;
    if o.Fine? {
      Complete(a, b, c, p, t, ArrayType, es);
    }
  }

  lemma ListRead(a: seq<Node>, b: seq<Node>, c: seq<Node>, p: nat, t: nat, ts: seq<Token>, rest: seq<Token>, o: Outcome,
                 es: seq<nat>)
    requires |ts| >= 1 && ts[0] == TListStart && !(|ts| > 1 && ts[1] == TListEnd) && OpenedAt(a, b, p, t, ListType)
    requires ElementsDone(b, c, t, Items(ts[1..]), rest, o, es)
    ensures o.Fine? ==> t < |c| && c[t].parent == p && ValueDone(a, c, p, p, Parse(ts), rest, o)
    ensures o.Bad? ==> forall now: nat :: ValueDone(a, c, p, now, Parse(ts), rest, o)
  {
    hide OpenedAt, Items, ReadInto, ValuesOf, Grew;
    if o.Fine? {
      Complete(a, b, c, p, t, ListType, es);
    }
  }

  ghost predicate MembersAre(b: seq<Node>, p: nat, es: seq<nat>, ms: Members) {
    Ordered(b) && p < |b| && After(es, p, |b|) && MembersOf(b, p, es) == ms
  }

  /** How reading the settings of a group must end. */
  ghost predicate SettingsDone(a: seq<Node>, b: seq<Node>, p: nat, r: Parsed<Members>, rest: seq<Token>, o: Outcome,
                               es: seq<nat>)
  {
    match r
    case Fail(e) => o == Bad(e)
    case Done(ms, more) => o == Fine && rest == more && Grew(a, b, p, es) && MembersAre(b, p, es, ms)
  }

  lemma GroupRead(a: seq<Node>, b: seq<Node>, c: seq<Node>, p: nat, t: nat, ts: seq<Token>, rest: seq<Token>,
                  o: Outcome, es: seq<nat>)
    requires |ts| >= 1 && ts[0] == TGroupStart && OpenedAt(a, b, p, t, GroupType)
    requires SettingsDone(b, c, t, Settings(ts[1..], {}), rest, o, es)
    ensures o.Fine? ==> t < |c| && c[t].parent == p
    ensures o.Fine? && |rest| > 0 && rest[0] == TGroupEnd ==> ValueDone(a, c, p, p, Parse(ts), rest[1..], Fine)
    ensures o.Fine? && !(|rest| > 0 && rest[0] == TGroupEnd) ==>
      forall now: nat :: ValueDone(a, c, p, now, Parse(ts), rest, Bad(SyntaxError))
    ensures o.Bad? ==> forall now: nat :: ValueDone(a, c, p, now, Parse(ts), rest, o)
  {
    hide OpenedAt, Settings, ReadInto, MembersOf, Grew;
    if o.Fine? {
      Complete(a, b, c, p, t, GroupType, es);
    }
  }

  /** The first element of the array is of another type. */
  ghost predicate Clash(nodes: seq<Node>, p: nat, typ: Type)
    requires Ordered(nodes) && p < |nodes|
  {
    var es := nodes[p].elements;
    ElementsAfter(nodes, p);
    |es| > 0 && nodes[es[0]].typ != typ
  }

  /** How reading a simple value in place must end. */
  ghost predicate SimpleDone(a: seq<Node>, b: seq<Node>, p: nat, r: Parsed<Value>, rest: seq<Token>, o: Outcome)
    requires Ordered(a) && p < |a|
  {
    match r
    case Fail(e) => o == Bad(e)
    case Done(v, more) =>
      if a[p].typ == ArrayType && Clash(a, p, TypeOf(KindOf(v))) then o == Bad(MismatchedElement) else
        && o == Fine && rest == more && ReadInto(a, b, p, v)
        && (a[p].typ != GroupType ==> |b| == |a| + 1 && b[|a|].typ == TypeOf(KindOf(v)))
  }

  lemma SimpleRead(a: seq<Node>, b: seq<Node>, p: nat, ts: seq<Token>, rest: seq<Token>, o: Outcome)
    requires Ordered(a) && p < |a| && (a[p].typ == GroupType || a[p].typ == ListType)
    requires SimpleDone(a, b, p, Simple(ts), rest, o)
    requires |ts| > 0 ==> ts[0] != TArrayStart && ts[0] != TListStart && ts[0] != TGroupStart
    ensures ValueDone(a, b, p, p, Parse(ts), rest, o)
  {
    hide Strings, ReadInto;
  }

  // What is known after the first of the remaining list elements.
  lemma AfterValue(a: seq<Node>, b: seq<Node>, p: nat, now: nat, ts: seq<Token>, rest: seq<Token>, o: Outcome)
    requires Ordered(a) && p < |a| && a[p].typ == ListType && ValueDone(a, b, p, now, Parse(ts), rest, o)
    ensures o.Bad? ==> Items(ts) == Fail(o.error)
    ensures o.Fine? ==> var v := Parse(ts);
      && v.Done? && rest == v.rest && |rest| < |ts| && now == p
      && Grew(a, b, p, [|a|]) && |a| < |b| && TreeOf(b, |a|) == v.value && Ordered(b) && p < |b| && b[p].typ == ListType
  {
    hide TreeOf, Parse;
    if o.Fine? {
      GrewAfter(a, b, p, [|a|]);
    }
  }

  lemma JoinValues(a: seq<Node>, b: seq<Node>, c: seq<Node>, p: nat, fs: seq<nat>)
    requires Grew(a, b, p, [|a|]) && |a| < |b| && Grew(b, c, p, fs)
    ensures After(fs, p, |c|) && Grew(a, c, p, [|a|] + fs) && After([|a|] + fs, p, |c|)
    ensures ValuesOf(c, p, [|a|] + fs) == Cons(TreeOf(b, |a|), ValuesOf(c, p, fs))
    ensures MembersOf(c, p, [|a|] + fs) == More(NameText(b[|a|].name), TreeOf(b, |a|), MembersOf(c, p, fs))
  {
    GrewTwice(a, b, c, p, [|a|], fs);
    GrewKeeps(a, b, c, p, |a|, fs);
    GrewAfter(b, c, p, fs);
    GrewAfter(a, c, p, [|a|] + fs);
    ValuesFirst(c, p, |a|, fs);
    hide *;
  }

  lemma ItemsJoin(a: seq<Node>, b: seq<Node>, c: seq<Node>, p: nat, ts: seq<Token>, rest: seq<Token>, o: Outcome,
                  fs: seq<nat>)
    requires Parse(ts).Done? && Grew(a, b, p, [|a|]) && |a| < |b| && TreeOf(b, |a|) == Parse(ts).value
    requires |Parse(ts).rest| > 0 && Parse(ts).rest[0] == TComma
    requires ElementsDone(b, c, p, Items(Parse(ts).rest[1..]), rest, o, fs)
    ensures ElementsDone(a, c, p, Items(ts), rest, o, [|a|] + fs)
  {
    hide TreeOf, Parse, ValuesOf;
    if o.Fine? {
      JoinValues(a, b, c, p, fs);
    }
  }

  lemma OneValue(a: seq<Node>, b: seq<Node>, p: nat)
    requires Grew(a, b, p, [|a|]) && |a| < |b|
    ensures ValuesAre(b, p, [|a|], Cons(TreeOf(b, |a|), Nil))
  {
    GrewAfter(a, b, p, [|a|]);
    ValuesFirst(b, p, |a|, []);
    assert [|a|] + [] == [|a|];
    hide TreeOf;
  }

  lemma ItemsLast(a: seq<Node>, b: seq<Node>, p: nat, ts: seq<Token>, rest: seq<Token>)
    requires Parse(ts).Done? && Grew(a, b, p, [|a|]) && |a| < |b| && TreeOf(b, |a|) == Parse(ts).value
    requires |Parse(ts).rest| > 0 && Parse(ts).rest[0] == TListEnd && rest == Parse(ts).rest[1..]
    ensures ElementsDone(a, b, p, Items(ts), rest, Fine, [|a|])
  {
    OneValue(a, b, p);
    hide TreeOf, Parse, ValuesOf, Grew, ValuesAre;
  }

  lemma ItemsBroken(ts: seq<Token>)
    requires Parse(ts).Done?
    requires |Parse(ts).rest| > 0 ==> Parse(ts).rest[0] != TListEnd && Parse(ts).rest[0] != TComma
    ensures Items(ts) == Fail(SyntaxError)
  {
    hide Parse;
  }

  lemma NoMoreSettings(a: seq<Node>, p: nat, ts: seq<Token>, seen: set<string>)
    requires Ordered(a) && p < |a| && (|ts| == 0 || !ts[0].TName?)
    ensures SettingsDone(a, a, p, Settings(ts, seen), ts, Fine, [])
  {
    GrewNot(a, p);
    hide Ordered, Grew, MembersOf;
  }

  lemma RefusedName(a: seq<Node>, b: seq<Node>, p: nat, ts: seq<Token>, seen: set<string>)
    requires |ts| > 0 && ts[0].TName? && (!ValidName(ts[0].n) || ts[0].n in seen)
    ensures SettingsDone(a, b, p, Settings(ts, seen), ts, Bad(DuplicateSetting), [])
  {
  }

  lemma NewSetting(a: seq<Node>, b: seq<Node>, p: nat, n: string)
    requires Ordered(a) && p < |a| && b == Added(a, p, Child(p, Named(n), NoType))
    ensures Grew(a, b, p, [|a|]) && |b| == |a| + 1 && b[|a|] == Child(p, Named(n), NoType) && Ordered(b)
    ensures b[p].typ == a[p].typ
  {
    AddedGrew(a, p, Child(p, Named(n), NoType));
    hide Ordered;
  }

  lemma MissingEquals(a: seq<Node>, b: seq<Node>, p: nat, ts: seq<Token>, seen: set<string>, rest: seq<Token>)
    requires |ts| > 0 && ts[0].TName? && ValidName(ts[0].n) && ts[0].n !in seen && (|ts| == 1 || ts[1] != TEquals)
    ensures SettingsDone(a, b, p, Settings(ts, seen), rest, Bad(SyntaxError), [])
  {
    hide ValidName;
  }

  ghost predicate NamedStart(ts: seq<Token>, seen: set<string>) {
    |ts| > 1 && ts[0].TName? && ValidName(ts[0].n) && ts[0].n !in seen && ts[1] == TEquals
  }

  lemma NamedIs(ts: seq<Token>, seen: set<string>)
    requires |ts| > 1 && ts[0].TName? && ValidName(ts[0].n) && ts[0].n !in seen && ts[1] == TEquals
    ensures NamedStart(ts, seen)
  {
  }

  lemma TerminatedIs(ts: seq<Token>)
    ensures Terminated(ts) == if |ts| > 0 && (ts[0] == TSemicolon || ts[0] == TComma) then ts[1..] else ts
  {
  }

  lemma SeenMore(a: seq<Node>, c: seq<Node>, p: nat, seen: set<string>, n: string)
    requires Grew(a, c, p, [|a|]) && |a| < |c| && c[|a|].name == Named(n) && ValidName(n) && Seen(a, p, seen)
    ensures Seen(c, p, seen + {n})
  {
    hide ValidName;
    var es, fs := a[p].elements, c[p].elements;
    assert fs == es + [|a|];
    ElementsAfter(a, p);
    forall k: nat | k < |fs| ensures MemberSeen(c, fs[k], seen + {n}) {
      if k < |es| {
        assert MemberSeen(a, es[k], seen);
        assert c[es[k]].name == a[es[k]].name;
      }
    }
    forall m | m in seen + {n} ensures Holds(c, p, m) {
      if m in seen {
        assert Holds(a, p, m);
        var k: nat :| k < |es| && HasText(a, es[k], m);
        assert HasText(c, fs[k], m);
      } else {
        assert HasText(c, fs[|es|], m);
      }
    }
  }

  // What is known after the value of the first of the remaining settings.
  lemma AfterSetting(a: seq<Node>, b: seq<Node>, c: seq<Node>, p: nat, now: nat, ts: seq<Token>, seen: set<string>,
                     rest: seq<Token>, o: Outcome)
    requires NamedStart(ts, seen) && Grew(a, b, p, [|a|]) && |b| == |a| + 1
    requires b[|a|] == Child(p, Named(ts[0].n), NoType)
    requires a[p].typ == GroupType && Seen(a, p, seen)
    requires ValueDone(b, c, p, now, Parse(ts[2..]), rest, o)
    ensures o.Bad? ==> SettingsDone(a, c, p, Settings(ts, seen), rest, o, [])
    ensures o.Fine? ==> var v := Parse(ts[2..]);
      && v.Done? && rest == v.rest && |rest| < |ts| && now == p
      && Grew(a, c, p, [|a|]) && |a| < |c| && TreeOf(c, |a|) == v.value && c[|a|].name == Named(ts[0].n)
      && Ordered(c) && p < |c| && c[p].typ == GroupType && Seen(c, p, seen + {ts[0].n})
  {
    hide TreeOf, Parse, ValidName, Seen;
    if o.Fine? {
      GrewFilled(a, b, c, p, |a|);
      GrewAfter(a, c, p, [|a|]);
      SeenMore(a, c, p, seen, ts[0].n);
    }
  }

  lemma SettingsJoin(a: seq<Node>, b: seq<Node>, c: seq<Node>, p: nat, ts: seq<Token>, seen: set<string>,
                     rest: seq<Token>, o: Outcome, fs: seq<nat>)
    requires NamedStart(ts, seen) && Parse(ts[2..]).Done?
    requires Grew(a, b, p, [|a|]) && |a| < |b| && TreeOf(b, |a|) == Parse(ts[2..]).value
    requires b[|a|].name == Named(ts[0].n)
    requires SettingsDone(b, c, p, Settings(Terminated(Parse(ts[2..]).rest), seen + {ts[0].n}), rest, o, fs)
    ensures SettingsDone(a, c, p, Settings(ts, seen), rest, o, [|a|] + fs)
  {
    hide TreeOf, Parse, MembersOf, ValidName, Terminated;
    if o.Fine? {
      JoinValues(a, b, c, p, fs);
    }
  }

  function Root(): Node {
    Node(NoName, GroupType, Plain, 0, "", -1, [])
  }

  lemma RootAlone()
    ensures Ordered([Root()]) && Root().typ == GroupType && Seen([Root()], 0, {})
  {
  }

  ghost predicate ReadDone(nodes: seq<Node>, parent: nat, r: Parsed<Value>, o: Outcome) {
    match r
    case Fail(e) => o == Bad(e)
    case Done(v, _) =>
      && o == Fine && parent == 0 && Ordered(nodes) && |nodes| > 0
      && nodes[0].typ == GroupType && TreeOf(nodes, 0) == v
  }

  lemma RootRead(a: seq<Node>, b: seq<Node>, now: nat, ts: seq<Token>, rest: seq<Token>, o: Outcome, es: seq<nat>)
    requires a == [Root()] && SettingsDone(a, b, 0, Settings(ts, {}), rest, o, es) && (o.Fine? ==> now == 0)
    ensures o.Bad? ==> ReadDone(b, now, Read(ts), o)
    ensures o.Fine? ==> ReadDone(b, now, Read(ts), if |rest| > 0 then Bad(SyntaxError) else Fine)
  {
    hide Settings, MembersOf, Ordered;
    if o.Fine? {
      assert [] + es == es;
    }
  }

  lemma Refused(a: seq<Node>, b: seq<Node>, p: nat, rest: seq<Token>, o: Outcome, es: seq<nat>)
    ensures o.Bad? ==> ElementsDone(a, b, p, Fail(o.error), rest, o, es)
  {
  }

  // What is known after the first of the remaining array elements.
  lemma AfterSimple(a: seq<Node>, b: seq<Node>, p: nat, ts: seq<Token>, e: Expected, rest: seq<Token>, o: Outcome)
    requires Ordered(a) && p < |a| && a[p].typ == ArrayType && Expects(a, p, e)
    requires SimpleDone(a, b, p, Simple(ts), rest, o)
    ensures o.Bad? ==> Elements(ts, e) == Fail(o.error)
    ensures o.Fine? ==> var s := Simple(ts);
      && s.Done? && rest == s.rest && |rest| < |ts| && !(e.Only? && e.kind != KindOf(s.value))
      && Grew(a, b, p, [|a|]) && |a| < |b| && TreeOf(b, |a|) == s.value
      && Ordered(b) && p < |b| && b[p].typ == ArrayType && Expects(b, p, Only(KindOf(s.value)))
  {
    hide TreeOf, Simple;
    if o.Fine? {
      GrewAfter(a, b, p, [|a|]);
    }
  }

  lemma ElementsJoin(a: seq<Node>, b: seq<Node>, c: seq<Node>, p: nat, ts: seq<Token>, e: Expected,
                     rest: seq<Token>, o: Outcome, fs: seq<nat>)
    requires Simple(ts).Done? && Grew(a, b, p, [|a|]) && |a| < |b| && TreeOf(b, |a|) == Simple(ts).value
    requires !(e.Only? && e.kind != KindOf(Simple(ts).value))
    requires |Simple(ts).rest| > 0 && Simple(ts).rest[0] == TComma
    requires ElementsDone(b, c, p, Elements(Simple(ts).rest[1..], Only(KindOf(Simple(ts).value))), rest, o, fs)
    ensures ElementsDone(a, c, p, Elements(ts, e), rest, o, [|a|] + fs)
  {
    hide TreeOf, Simple, ValuesOf, KindOf;
    if o.Fine? {
      JoinValues(a, b, c, p, fs);
    }
  }

  lemma ElementsLast(a: seq<Node>, b: seq<Node>, p: nat, ts: seq<Token>, e: Expected, rest: seq<Token>)
    requires Simple(ts).Done? && Grew(a, b, p, [|a|]) && |a| < |b| && TreeOf(b, |a|) == Simple(ts).value
    requires !(e.Only? && e.kind != KindOf(Simple(ts).value))
    requires |Simple(ts).rest| > 0 && Simple(ts).rest[0] == TArrayEnd && rest == Simple(ts).rest[1..]
    ensures ElementsDone(a, b, p, Elements(ts, e), rest, Fine, [|a|])
  {
    OneValue(a, b, p);
    hide TreeOf, Simple, ValuesOf, KindOf, Grew, ValuesAre;
  }

  lemma ElementsBroken(a: seq<Node>, b: seq<Node>, p: nat, ts: seq<Token>, e: Expected)
    requires Simple(ts).Done? && !(e.Only? && e.kind != KindOf(Simple(ts).value))
    requires |Simple(ts).rest| > 0 ==> Simple(ts).rest[0] != TArrayEnd && Simple(ts).rest[0] != TComma
    ensures Elements(ts, e) == Fail(SyntaxError)
  {
    hide Simple, KindOf;
  }

  lemma LeafKind(n: Node)
    requires IsScalar(n.typ)
    ensures TypeOf(KindOf(LeafValue(n))) == n.typ
  {
  }

  lemma PutPlaced(a: seq<Node>, b: seq<Node>, p: nat, n: Node)
    requires Ordered(a) && p < |a| && n.elements == [] && IsScalar(n.typ)
    requires a[p].typ == GroupType ==> a[|a| - 1].elements == [] && b == a[|a| - 1 := n]
    requires a[p].typ == GroupType ==> n.name == a[|a| - 1].name && n.parent == a[|a| - 1].parent
    requires a[p].typ != GroupType ==> b == Added(a, p, n)
    ensures ReadInto(a, b, p, LeafValue(n))
    ensures a[p].typ != GroupType ==> |b| == |a| + 1 && b[|a|] == n
  {
    if a[p].typ == GroupType {
      ChangedFilled(a, |a| - 1, n);
      LeafTree(b, |a| - 1);
    } else {
      AddedGrew(a, p, n);
      LeafTree(b, |a|);
    }
  }

  class ParseContext {
    var nodes: seq<Node>
    var parent: nat
    var setting: int
    var rest: seq<Token>
    var text: string

    constructor ()
      ensures nodes == [] && rest == []
    {
      nodes := [];
      parent := 0;
      setting := 0;
      rest := [];
      text := "";
    }

    ghost predicate Placed()
      reads this`nodes, this`parent
    {
      Ordered(nodes) && parent < |nodes|
    }

    predicate InVector()
      requires parent < |nodes|
      reads this`nodes, this`parent
    {
      nodes[parent].typ == ArrayType || nodes[parent].typ == ListType
    }

    /** A setting of a group waits for its value. */
    ghost predicate Waiting()
      reads this`nodes, this`parent, this`setting
    {
      && Placed() && nodes[parent].typ == GroupType && setting == |nodes| - 1 && parent < setting
      && nodes[setting].typ == NoType && nodes[setting].elements == [] && nodes[setting].parent == parent
    }

    lemma NowWaiting(p: nat, n: string)
      requires Ordered(nodes) && parent == p < |nodes| && nodes[p].typ == GroupType && setting == |nodes| - 1
      requires p < setting
      requires nodes[setting] == Child(p, Named(n), NoType)
      ensures Placed() && Waiting()
    {
    }

    lemma PlacedParts()
      requires Placed()
      ensures Ordered(nodes) && parent < |nodes|
      ensures nodes[parent].typ == ArrayType || nodes[parent].typ == ListType ==> InVector()
      ensures Waiting() ==> nodes[parent].typ == GroupType
    {
    }

    lemma StillPlaced()
      requires Ordered(nodes) && parent < |nodes|
      ensures Placed()
    {
    }

    /** `config_setting_get_member` */
    method Member(p: nat, name: string, ghost seen: set<string>) returns (found: bool)
      requires Ordered(nodes) && p < |nodes| && ValidName(name)
      requires nodes[p].typ == GroupType ==> Seen(nodes, p, seen)
      ensures found <==> nodes[p].typ == GroupType && name in seen
    {
      if nodes[p].typ != GroupType {
        return false;
      }
      ElementsAfter(nodes, p);
      ValidIsPlain(name);
      var es := nodes[p].elements;
      var i := 0;
      while i < |es|
        invariant 0 <= i <= |es|
        invariant forall k: nat :: k < i ==> !HasText(nodes, es[k], name)
      {
        assert MemberSeen(nodes, es[i], seen);
        var n := nodes[es[i]].name;
        if n.Named? {
          ValidIsPlain(n.text);
          SameNameIsEqual(name, n.text);
          if SameName(name, n.text) {
            return true;
          }
        }
        i := i + 1;
      }
      assert name in seen ==> Holds(nodes, p, name);
      return false;
    }

    /** `config_setting_add`; -1 stands for no setting. Scalar settings hold no others. */
    method Add(p: nat, name: Name, typ: Type, ghost seen: set<string>) returns (id: int)
      requires Ordered(nodes) && p < |nodes|
      requires nodes[p].typ == GroupType ==> Seen(nodes, p, seen) && name.Named?
      modifies this`nodes
      ensures var n := if IsVector(old(nodes[p]).typ) then NoName else name;
        if RefusesChild(old(nodes[p]).typ, n, seen) then id == -1 && nodes == old(nodes)
        else id == |old(nodes)| && nodes == Added(old(nodes), p, Child(p, n, typ))
    {
      var n := name;
      if nodes[p].typ == ArrayType || nodes[p].typ == ListType {
        n := NoName;
      }
      if n.Named? {
        if !ValidName(n.text) {
          return -1;
        }
        var found := Member(p, n.text, seen);
        if found {
          return -1;
        }
      }
      if nodes[p].typ != GroupType && nodes[p].typ != ArrayType && nodes[p].typ != ListType {
        return -1;
      }
      id := |nodes|;
      nodes := Added(nodes, p, Child(p, n, typ));
    }

    /** `config_setting_set_*_elem(parent, -1, ...)` in an array or list, `config_setting_set_*` otherwise. */
    method Put(typ: Type, format: Format, number: int, s: string) returns (ok: bool)
      requires Placed() && (Waiting() || InVector()) && IsScalar(typ)
      modifies this`nodes
      ensures ok <==> !(old(nodes[parent]).typ == ArrayType && Clash(old(nodes), parent, typ))
      ensures !ok ==> nodes == old(nodes)
      ensures ok && old(InVector()) ==>
        nodes == Added(old(nodes), parent, Leaf(Child(parent, NoName, typ), typ, format, number, s))
      ensures !old(InVector()) ==>
        setting >= 0 && nodes == old(nodes)[setting := Leaf(old(nodes)[setting], typ, format, number, s)]
    {
      if InVector() {
        ElementsAfter(nodes, parent);
        var es := nodes[parent].elements;
        if nodes[parent].typ == ArrayType && |es| > 0 && nodes[es[0]].typ != typ {
          return false;
        }
        nodes := Added(nodes, parent, Leaf(Child(parent, NoName, typ), typ, format, number, s));
      } else {
        nodes := nodes[setting := Leaf(nodes[setting], typ, format, number, s)];
      }
      return true;
    }

    /** Strings next to each other are joined in the string buffer. */
    method TakeStrings() returns (s: string)
      modifies this`rest, this`text
      ensures s == Strings(old(rest)).0 && rest == Strings(old(rest)).1
    {
      text := "";
      assert text + Strings(rest).0 == Strings(rest).0;
      while |rest| > 0 && rest[0].TString?
        invariant text + Strings(rest).0 == Strings(old(rest)).0 && Strings(rest).1 == Strings(old(rest)).1
        decreases |rest|
      {
        assert text + Strings(rest).0 == (text + rest[0].s) + Strings(rest[1..]).0;
        text := text + rest[0].s;
        rest := rest[1..];
      }
      s := text;
      text := "";
    }

    /** Store one scalar with the setter of its type. */
    method PutValue(v: Value) returns (ok: bool)
      requires Placed() && (Waiting() || InVector()) && KindOf(v) != OtherKind
      modifies this`nodes
      ensures ok <==> !(old(nodes[parent]).typ == ArrayType && Clash(old(nodes), parent, TypeOf(KindOf(v))))
      ensures ok ==> ReadInto(old(nodes), nodes, parent, v)
      ensures ok && old(nodes[parent]).typ != GroupType ==>
        |nodes| == |old(nodes)| + 1 && nodes[|old(nodes)|].typ == TypeOf(KindOf(v))
    {
      hide Ordered, Clash;
      ghost var a, p, n := nodes, parent, if InVector() then Child(parent, NoName, TypeOf(KindOf(v)))
        else nodes[setting];
      match v {
        case Bool(b) => ok := Put(BoolType, Plain, if b then 1 else 0, "");
          n := Leaf(n, BoolType, Plain, if b then 1 else 0, "");
        case Int(i, f) => ok := Put(IntType, f, i, "");
          n := Leaf(n, IntType, f, i, "");
        case Int64(j, f) => ok := Put(Int64Type, f, j, "");
          n := Leaf(n, Int64Type, f, j, "");
        case Text(s) => ok := Put(StringType, Plain, 0, s);
          n := Leaf(n, StringType, Plain, 0, s);
        case _ =>
      }
      LeafKind(n);
      assert LeafValue(n) == v;
      hide *;
      if ok {
        PutPlaced(a, nodes, p, n);
      }
    }

    /** `simple_value` */
    method ParseSimple() returns (o: Outcome)
      requires Placed() && (Waiting() || InVector())
      modifies this
      ensures parent == old(parent)
      ensures SimpleDone(old(nodes), nodes, parent, Simple(old(rest)), rest, o)
    {
      hide Ordered, Clash, ReadInto, TypeOf, KindOf, Strings;
      if |rest| == 0 {
        return Bad(SyntaxError);
      }
      var v: Value;
      match rest[0] {
        case TBool(b) =>
          v := Bool(b);
          rest := rest[1..];
        case TInt(i) =>
          v := Int(i, Plain);
          rest := rest[1..];
        case THex(i) =>
          v := Int(i, Hex);
          rest := rest[1..];
        case TInt64(j) =>
          v := Int64(j, Plain);
          rest := rest[1..];
        case THex64(j) =>
          v := Int64(j, Hex);
          rest := rest[1..];
        case TString(_) =>
          var s := TakeStrings();
          v := Text(s);
        case _ =>
          return Bad(SyntaxError);
      }
      assert Simple(old(rest)) == Done(v, rest);
      var ok := PutValue(v);
      o := if ok then Fine else Bad(MismatchedElement);
    }

    /** Array elements and the closing bracket. */
    method ParseElements(ghost e: Expected) returns (o: Outcome, ghost es: seq<nat>)
      requires Placed() && nodes[parent].typ == ArrayType && Expects(nodes, parent, e)
      modifies this
      ensures parent == old(parent)
      ensures ElementsDone(old(nodes), nodes, parent, Elements(old(rest), e), rest, o, es)
      decreases |rest|
    {
      hide *;
      ghost var a, p, ts := nodes, parent, rest;
      PlacedParts();
      o := ParseSimple();
      ghost var s := Simple(ts);
      AfterSimple(a, nodes, p, ts, e, rest, o);
      es := [|a|];
      Refused(a, nodes, p, rest, o, es);
      if o.Bad? {
        return;
      }
      ghost var b := nodes;
      if |rest| > 0 && rest[0] == TComma {
        rest := rest[1..];
        ghost var fs;
        assert Placed() by { StillPlaced(); }
        o, fs := ParseElements(Only(KindOf(s.value)));
        es := es + fs;
        ElementsJoin(a, b, nodes, p, ts, e, rest, o, fs);
      } else if |rest| > 0 && rest[0] == TArrayEnd {
        rest := rest[1..];
        ElementsLast(a, b, p, ts, e, rest);
      } else {
        o := Bad(SyntaxError);
        ElementsBroken(a, b, p, ts, e);
        Refused(a, b, p, rest, o, es);
      }
    }

    /** The action behind an opening bracket or brace: a new element of a list, or the waiting setting, becomes
        the parent. */
    method Open(typ: Type) returns (ghost t: nat)
      requires Placed() && (Waiting() || nodes[parent].typ == ListType) && typ in {ArrayType, ListType, GroupType}
      modifies this
      ensures rest == old(rest) && parent == t && OpenedAt(old(nodes), nodes, old(parent), t, typ)
    {
      ghost var a, p := nodes, parent;
      OpenedFacts(a, p, typ);
      hide Ordered;
      if nodes[parent].typ == ListType {
        var id := Add(parent, NoName, typ, {});
        t := |a|;
        parent := id;
      } else {
        t := |a| - 1;
        nodes := nodes[setting := nodes[setting].(typ := typ)];
        parent := setting;
        setting := -1;
      }
    }

    /** The action behind a closing bracket or brace. */
    method Close(ghost p: nat)
      requires parent < |nodes| && nodes[parent].parent == p
      modifies this`parent
      ensures parent == p
    {
      parent := nodes[parent].parent;
    }

    /** `value` */
    method ParseValue() returns (o: Outcome)
      requires Placed() && (Waiting() || nodes[parent].typ == ListType)
      modifies this
      ensures ValueDone(old(nodes), nodes, old(parent), parent, Parse(old(rest)), rest, o)
      decreases |rest|, 1
    {
      hide *;
      ghost var a, p, ts := nodes, parent, rest;
      PlacedParts();
      if |rest| > 0 && rest[0] == TArrayStart {
        rest := rest[1..];
        ghost var t := Open(ArrayType);
        ghost var b, es := nodes, [];
        OpenedIs(a, b, p, t, ArrayType);
        if |rest| > 0 && rest[0] == TArrayEnd {
          rest := rest[1..];
          EmptyVector(a, b, p, t, ts, rest);
          Close(p);
          o := Fine;
        } else {
          assert Placed() by { StillPlaced(); }
          o, es := ParseElements(Any);
          VectorRead(a, b, nodes, p, t, ts, rest, o, es);
          if o.Fine? {
            Close(p);
          }
        }
      } else if |rest| > 0 && rest[0] == TListStart {
        rest := rest[1..];
        ghost var t := Open(ListType);
        ghost var b, es := nodes, [];
        OpenedIs(a, b, p, t, ListType);
        if |rest| > 0 && rest[0] == TListEnd {
          rest := rest[1..];
          EmptyVector(a, b, p, t, ts, rest);
          Close(p);
          o := Fine;
        } else {
          assert Placed() by { StillPlaced(); }
          o, es := ParseItems();
          ListRead(a, b, nodes, p, t, ts, rest, o, es);
          if o.Fine? {
            Close(p);
          }
        }
      } else if |rest| > 0 && rest[0] == TGroupStart {
        rest := rest[1..];
        ghost var t := Open(GroupType);
        ghost var b, es := nodes, [];
        OpenedIs(a, b, p, t, GroupType);
        assert Placed() by { StillPlaced(); }
        o, es := ParseSettings({});
        GroupRead(a, b, nodes, p, t, ts, rest, o, es);
        if o.Fine? {
          if |rest| > 0 && rest[0] == TGroupEnd {
            rest := rest[1..];
            Close(p);
          } else {
            o := Bad(SyntaxError);
          }
        }
      } else {
        o := ParseSimple();
        SimpleRead(a, nodes, p, ts, rest, o);
      }
    }

    /** `value_list` and the closing parenthesis. */
    method ParseItems() returns (o: Outcome, ghost es: seq<nat>)
      requires Placed() && nodes[parent].typ == ListType
      modifies this
      ensures o.Fine? ==> parent == old(parent)
      ensures ElementsDone(old(nodes), nodes, old(parent), Items(old(rest)), rest, o, es)
      decreases |rest|, 2
    {
      hide *;
      ghost var a, p, ts := nodes, parent, rest;
      PlacedParts();
      o := ParseValue();
      AfterValue(a, nodes, p, parent, ts, rest, o);
      es := [|a|];
      Refused(a, nodes, p, rest, o, es);
      if o.Bad? {
        return;
      }
      ghost var b := nodes;
      if |rest| > 0 && rest[0] == TComma {
        rest := rest[1..];
        ghost var fs;
        assert Placed() by { StillPlaced(); }
        o, fs := ParseItems();
        es := es + fs;
        ItemsJoin(a, b, nodes, p, ts, rest, o, fs);
      } else if |rest| > 0 && rest[0] == TListEnd {
        rest := rest[1..];
        ItemsLast(a, b, p, ts, rest);
      } else {
        o := Bad(SyntaxError);
        ItemsBroken(ts);
        Refused(a, b, p, rest, o, es);
      }
    }

    /** `setting_list_optional`: settings as long as a name follows. */
    method ParseSettings(ghost seen: set<string>) returns (o: Outcome, ghost es: seq<nat>)
      requires Placed() && nodes[parent].typ == GroupType && Seen(nodes, parent, seen)
      modifies this
      ensures o.Fine? ==> parent == old(parent)
      ensures SettingsDone(old(nodes), nodes, old(parent), Settings(old(rest), seen), rest, o, es)
      decreases |rest|, 0
    {
      hide *;
      ghost var a, p, ts := nodes, parent, rest;
      PlacedParts();
      es := [];
      if |rest| == 0 || !rest[0].TName? {
        NoMoreSettings(a, p, ts, seen);
        return Fine, [];
      }
      ghost var n := rest[0].n;
      GroupRefuses(n, seen);
      var id := Add(parent, Named(rest[0].n), NoType, seen);
      if id == -1 {
        RefusedName(a, nodes, p, ts, seen);
        return Bad(DuplicateSetting), [];
      }
      ghost var b := nodes;
      NewSetting(a, b, p, n);
      setting := id;
      rest := rest[1..];
      if |rest| == 0 || rest[0] != TEquals {
        MissingEquals(a, b, p, ts, seen, rest);
        return Bad(SyntaxError), [];
      }
      rest := rest[1..];
      assert Placed() && Waiting() by { NowWaiting(p, n); }
      assert rest == ts[2..];
      NamedIs(ts, seen);
      o := ParseValue();
      ghost var c := nodes;
      AfterSetting(a, b, c, p, parent, ts, seen, rest, o);
      if o.Bad? {
        return o, [];
      }
      TerminatedIs(rest);
      if |rest| > 0 && (rest[0] == TSemicolon || rest[0] == TComma) {
        rest := rest[1..];
      }
      ghost var fs;
      assert Placed() by { StillPlaced(); }
      o, fs := ParseSettings(seen + {n});
      es := [|a|] + fs;
      SettingsJoin(a, c, nodes, p, ts, seen, rest, o, fs);
    }

    /** `__config_read`: start over with an empty root and parse all tokens. Afterwards the parse context is back
        at the root. */
    method ReadConfig(tokens: seq<Token>) returns (o: Outcome)
      modifies this
      ensures ReadDone(nodes, parent, Read(tokens), o)
    {
      hide *;
      nodes := [Root()];
      parent := 0;
      setting := 0;
      rest := tokens;
      text := "";
      RootAlone();
      assert Placed() by { StillPlaced(); }
      ghost var fs;
      o, fs := ParseSettings({});
      RootRead([Root()], nodes, parent, tokens, rest, o, fs);
      if o.Fine? && |rest| > 0 {
        o := Bad(SyntaxError);
      }
    }
  }
}
