/** The writer over the setting store, and a configuration saved and loaded again. */
module Writer {
  import opened Lexemes
  import opened Config
  import opened ConfigRoundTrip
  import opened SettingStore
  import opened Reader

  lemma ValuesStep(nodes: seq<Node>, x: nat, es: seq<nat>)
    requires Ordered(nodes) && x < |nodes| && After(es, x, |nodes|) && |es| > 0 && AllWellFormed(ValuesOf(nodes, x, es))
    ensures After(es[1..], x, |nodes|) && x < es[0] < |nodes|
    ensures ValuesOf(nodes, x, es) == Cons(TreeOf(nodes, es[0]), ValuesOf(nodes, x, es[1..]))
    ensures ValuesOf(nodes, x, es[1..]).Nil? <==> |es| == 1
    ensures WellFormed(TreeOf(nodes, es[0])) && AllWellFormed(ValuesOf(nodes, x, es[1..]))
  {
    hide TreeOf, WellFormed, Ordered;
  }

  lemma MembersStep(nodes: seq<Node>, x: nat, es: seq<nat>)
    requires Ordered(nodes) && x < |nodes| && After(es, x, |nodes|) && |es| > 0
    requires MembersWellFormed(MembersOf(nodes, x, es))
    ensures After(es[1..], x, |nodes|) && x < es[0] < |nodes|
    ensures MembersOf(nodes, x, es)
      == More(NameText(nodes[es[0]].name), TreeOf(nodes, es[0]), MembersOf(nodes, x, es[1..]))
    ensures WellFormed(TreeOf(nodes, es[0])) && MembersWellFormed(MembersOf(nodes, x, es[1..]))
  {
    hide TreeOf, WellFormed, Ordered;
  }

  lemma VectorParts(nodes: seq<Node>, x: nat)
    requires Ordered(nodes) && x < |nodes| && WellFormed(TreeOf(nodes, x))
    ensures After(nodes[x].elements, x, |nodes|)
    ensures nodes[x].typ == ArrayType ==> TreeOf(nodes, x) == Array(ValuesOf(nodes, x, nodes[x].elements))
    ensures nodes[x].typ == ListType ==> TreeOf(nodes, x) == List(ValuesOf(nodes, x, nodes[x].elements))
    ensures nodes[x].typ == GroupType ==> TreeOf(nodes, x) == Group(MembersOf(nodes, x, nodes[x].elements))
    ensures nodes[x].typ == ArrayType || nodes[x].typ == ListType ==>
      AllWellFormed(ValuesOf(nodes, x, nodes[x].elements))
    ensures nodes[x].typ == GroupType ==> MembersWellFormed(MembersOf(nodes, x, nodes[x].elements))
  {
    ElementsAfter(nodes, x);
    hide ValuesOf, MembersOf, Ordered;
  }

  lemma HasValue(nodes: seq<Node>, x: nat)
    requires Ordered(nodes) && x < |nodes| && WellFormed(TreeOf(nodes, x))
    ensures nodes[x].typ != NoType
  {
  }

  lemma ScalarPrinted(nodes: seq<Node>, x: nat, d: Format)
    requires Ordered(nodes) && x < |nodes| && IsScalar(nodes[x].typ) && WellFormed(TreeOf(nodes, x))
    ensures var n := nodes[x]; var p := Print(TreeOf(nodes, x), d);
      && (n.typ == BoolType ==> p == [BoolToken(n.number != 0)])
      && (n.typ == IntType ==> -HALF_INT <= n.number < HALF_INT && p == [IntToken(n.number, Effective(n.format, d))])
      && (n.typ == Int64Type ==>
        -HALF_INT64 <= n.number < HALF_INT64 && p == [Int64Token(n.number, Effective(n.format, d))])
      && (n.typ == StringType ==> IsText(n.text) && p == [StringToken(n.text)])
  {
    hide ValuesOf, MembersOf, Ordered, PrintValues, PrintMembers, IsText, BoolToken, IntToken, Int64Token,
      StringToken;
  }

  lemma CompoundPrinted(nodes: seq<Node>, x: nat, d: Format)
    requires Ordered(nodes) && x < |nodes| && WellFormed(TreeOf(nodes, x))
    ensures After(nodes[x].elements, x, |nodes|)
    ensures nodes[x].typ == ArrayType || nodes[x].typ == ListType ==>
      AllWellFormed(ValuesOf(nodes, x, nodes[x].elements))
    ensures nodes[x].typ == GroupType ==> MembersWellFormed(MembersOf(nodes, x, nodes[x].elements))
    ensures var n := nodes[x]; var p := Print(TreeOf(nodes, x), d);
      && (n.typ == ArrayType ==> p == [TArrayStart] + PrintValues(ValuesOf(nodes, x, n.elements), d) + [TArrayEnd])
      && (n.typ == ListType ==> p == [TListStart] + PrintValues(ValuesOf(nodes, x, n.elements), d) + [TListEnd])
      && (n.typ == GroupType ==> p == [TGroupStart] + PrintMembers(MembersOf(nodes, x, n.elements), d) + [TGroupEnd])
  {
    VectorParts(nodes, x);
    hide ValuesOf, MembersOf, Ordered, PrintValues, PrintMembers, AllWellFormed, MembersWellFormed, TreeOf;
  }

  lemma Wrapped<T>(out: seq<T>, a: T, p: seq<T>, b: T)
    ensures out + [a] + p + [b] == out + ([a] + p + [b])
  {
  }

  lemma Appended<T>(out: seq<T>, p: seq<T>, q: seq<T>, r: seq<T>)
    ensures out + p + q + r == out + (p + (q + r))
    ensures out + p + r == out + (p + r)
  {
  }

  lemma Listed<T>(out: seq<T>, a: T, b: T, p: seq<T>, c: T, r: seq<T>)
    ensures out + [a] + [b] + p + [c] + r == out + ([a, b] + p + [c] + r)
  {
  }

  class Stream {
    var out: seq<Token>

    constructor ()
      ensures out == []
    {
      out := [];
    }

    method Emit(t: Token)
      modifies this
      ensures out == old(out) + [t]
    {
      out := out + [t];
    }

    /** `__config_write_value` */
    method WriteValue(nodes: seq<Node>, x: nat, d: Format)
      requires Ordered(nodes) && x < |nodes| && WellFormed(TreeOf(nodes, x))
      modifies this
      ensures out == old(out) + Print(TreeOf(nodes, x), d)
      decreases |nodes| - x, 0
    {
      hide *;
      CompoundPrinted(nodes, x, d);
      ScalarCase(nodes[x].typ);
      HasValue(nodes, x);
      if IsScalar(nodes[x].typ) {
        ScalarPrinted(nodes, x, d);
      }
      ghost var before := out;
      var n := nodes[x];
      match n.typ {
        case BoolType => Emit(BoolToken(n.number != 0));
        case IntType => Emit(IntToken(n.number, Effective(n.format, d)));
        case Int64Type => Emit(Int64Token(n.number, Effective(n.format, d)));
        case StringType => Emit(StringToken(n.text));
        case ArrayType =>
          Emit(TArrayStart);
          WriteValues(nodes, x, n.elements, d);
          Emit(TArrayEnd);
          Wrapped(before, TArrayStart, PrintValues(ValuesOf(nodes, x, n.elements), d), TArrayEnd);
        case ListType =>
          Emit(TListStart);
          WriteValues(nodes, x, n.elements, d);
          Emit(TListEnd);
          Wrapped(before, TListStart, PrintValues(ValuesOf(nodes, x, n.elements), d), TListEnd);
        case GroupType =>
          Emit(TGroupStart);
          WriteMembers(nodes, x, n.elements, d);
          Emit(TGroupEnd);
          Wrapped(before, TGroupStart, PrintMembers(MembersOf(nodes, x, n.elements), d), TGroupEnd);
        case NoType =>
      }
    }

    /** The elements of an array or list, with commas between them. */
    method WriteValues(nodes: seq<Node>, x: nat, es: seq<nat>, d: Format)
      requires Ordered(nodes) && x < |nodes| && After(es, x, |nodes|) && AllWellFormed(ValuesOf(nodes, x, es))
      modifies this
      ensures out == old(out) + PrintValues(ValuesOf(nodes, x, es), d)
      decreases |nodes| - x, 0, |es|
    {
      hide *;
      NoValues(nodes, x, d);
      var i: nat := 0;
      assert es[0..] == es;
      while i < |es|
        invariant i <= |es| && After(es[i..], x, |nodes|) && AllWellFormed(ValuesOf(nodes, x, es[i..]))
        invariant out + PrintValues(ValuesOf(nodes, x, es[i..]), d) == old(out) + PrintValues(ValuesOf(nodes, x, es), d)
      {
        ValuesStep(nodes, x, es[i..]);
        ValueStep(nodes, x, es[i..], d);
        assert es[i..][1..] == es[i + 1..] && es[i..][0] == es[i];
        Appended(out, Print(TreeOf(nodes, es[i]), d), [TComma], PrintValues(ValuesOf(nodes, x, es[i + 1..]), d));
        WriteValue(nodes, es[i], d);
        if i + 1 < |es| {
          Emit(TComma);
        }
        i := i + 1;
      }
      assert es[i..] == [];
    }

    /** The settings of a group. */
    method WriteMembers(nodes: seq<Node>, x: nat, es: seq<nat>, d: Format)
      requires Ordered(nodes) && x < |nodes| && After(es, x, |nodes|) && MembersWellFormed(MembersOf(nodes, x, es))
      modifies this
      ensures out == old(out) + PrintMembers(MembersOf(nodes, x, es), d)
      decreases |nodes| - x, 0, |es|
    {
      hide *;
      NoMembers(nodes, x, d);
      var i: nat := 0;
      assert es[0..] == es;
      while i < |es|
        invariant i <= |es| && After(es[i..], x, |nodes|) && MembersWellFormed(MembersOf(nodes, x, es[i..]))
        invariant out + PrintMembers(MembersOf(nodes, x, es[i..]), d)
          == old(out) + PrintMembers(MembersOf(nodes, x, es), d)
      {
        MembersStep(nodes, x, es[i..]);
        MemberStep(nodes, x, es[i..], d);
        assert es[i..][1..] == es[i + 1..] && es[i..][0] == es[i];
        Listed(out, NameToken(NameText(nodes[es[i]].name)), TEquals, Print(TreeOf(nodes, es[i]), d), TSemicolon,
               PrintMembers(MembersOf(nodes, x, es[i + 1..]), d));
        Emit(NameToken(NameText(nodes[es[i]].name)));
        Emit(TEquals);
        WriteValue(nodes, es[i], d);
        Emit(TSemicolon);
        i := i + 1;
      }
      assert es[i..] == [];
    }

    /** `config_write`: the settings of the root, without braces. */
    method WriteConfig(nodes: seq<Node>, d: Format)
      requires Ordered(nodes) && |nodes| > 0 && nodes[0].typ == GroupType && WellFormed(TreeOf(nodes, 0))
      modifies this
      ensures TreeOf(nodes, 0).Group? && out == old(out) + PrintMembers(TreeOf(nodes, 0).members, d)
    {
      VectorParts(nodes, 0);
      hide *;
      WriteMembers(nodes, 0, nodes[0].elements, d);
    }
  }

  lemma ScalarCase(t: Type)
    ensures IsScalar(t) <==> t == BoolType || t == IntType || t == Int64Type || t == StringType
  {
  }

  lemma NoValues(nodes: seq<Node>, x: nat, d: Format)
    requires Ordered(nodes) && x < |nodes|
    ensures After([], x, |nodes|) && ValuesOf(nodes, x, []) == Nil && PrintValues(Nil, d) == []
  {
  }

  lemma NoMembers(nodes: seq<Node>, x: nat, d: Format)
    requires Ordered(nodes) && x < |nodes|
    ensures After([], x, |nodes|) && MembersOf(nodes, x, []) == End && PrintMembers(End, d) == []
  {
  }

  lemma ValueStep(nodes: seq<Node>, x: nat, es: seq<nat>, d: Format)
    requires Ordered(nodes) && x < |nodes| && After(es, x, |nodes|) && |es| > 0 && AllWellFormed(ValuesOf(nodes, x, es))
    ensures x < es[0] < |nodes| && After(es[1..], x, |nodes|) && AllWellFormed(ValuesOf(nodes, x, es[1..]))
    ensures WellFormed(TreeOf(nodes, es[0]))
    ensures PrintValues(ValuesOf(nodes, x, es), d) == Print(TreeOf(nodes, es[0]), d)
      + (if |es| == 1 then [] else [TComma] + PrintValues(ValuesOf(nodes, x, es[1..]), d))
    ensures |es| == 1 ==> PrintValues(ValuesOf(nodes, x, es[1..]), d) == []
  {
    ValuesStep(nodes, x, es);
    hide TreeOf, WellFormed, Ordered, Print, ValuesOf;
  }

  lemma MemberStep(nodes: seq<Node>, x: nat, es: seq<nat>, d: Format)
    requires Ordered(nodes) && x < |nodes| && After(es, x, |nodes|) && |es| > 0
    requires MembersWellFormed(MembersOf(nodes, x, es))
    ensures x < es[0] < |nodes| && After(es[1..], x, |nodes|) && MembersWellFormed(MembersOf(nodes, x, es[1..]))
    ensures WellFormed(TreeOf(nodes, es[0]))
    ensures PrintMembers(MembersOf(nodes, x, es), d) == [NameToken(NameText(nodes[es[0]].name)), TEquals]
      + Print(TreeOf(nodes, es[0]), d) + [TSemicolon] + PrintMembers(MembersOf(nodes, x, es[1..]), d)
  {
    MembersStep(nodes, x, es);
    hide TreeOf, WellFormed, Ordered, Print, MembersOf, NameToken, NameText;
  }

  lemma RootFacts(nodes: seq<Node>)
    requires Ordered(nodes) && |nodes| > 0 && nodes[0].typ == GroupType && WellFormed(TreeOf(nodes, 0))
    requires Readable(TreeOf(nodes, 0))
    ensures TreeOf(nodes, 0).Group?
    ensures MembersWellFormed(TreeOf(nodes, 0).members) && MembersReadable(TreeOf(nodes, 0).members)
    ensures Shown(TreeOf(nodes, 0), Plain) == TreeOf(nodes, 0)
    ensures forall d :: Shown(TreeOf(nodes, 0), d) == Group(ShownMembers(TreeOf(nodes, 0).members, d))
  {
    ShownPlain(TreeOf(nodes, 0));
    hide MembersOf, MembersWellFormed, MembersReadable, ShownMembers;
  }

  lemma ReadGives(nodes: seq<Node>, parent: nat, r: Parsed<Value>, o: Outcome)
    requires ReadDone(nodes, parent, r, o) && r.Done?
    ensures parent == 0 && Ordered(nodes) && |nodes| > 0 && TreeOf(nodes, 0) == r.value
  {
  }

  /** Saving a configuration and loading it into a fresh one gives the same tree, with every number in the format
      it was written in; the parse context is back at the root. */
  method SaveAndLoad(config: ParseContext, d: Format) returns (again: ParseContext)
    requires Ordered(config.nodes) && |config.nodes| > 0 && config.nodes[0].typ == GroupType
    requires WellFormed(TreeOf(config.nodes, 0)) && Readable(TreeOf(config.nodes, 0))
    ensures fresh(again) && again.parent == 0 && |again.nodes| > 0 && Ordered(again.nodes)
    ensures TreeOf(again.nodes, 0) == Shown(TreeOf(config.nodes, 0), d)
    ensures d == Plain ==> TreeOf(again.nodes, 0) == TreeOf(config.nodes, 0)
  {
    hide *;
    RootFacts(config.nodes);
    var stream := new Stream();
    stream.WriteConfig(config.nodes, d);
    WriteThenRead(TreeOf(config.nodes, 0).members, d);
    assert [] + PrintMembers(TreeOf(config.nodes, 0).members, d) == PrintMembers(TreeOf(config.nodes, 0).members, d);
    again := new ParseContext();
    var o := again.ReadConfig(stream.out);
    ReadGives(again.nodes, again.parent, Read(stream.out), o);
  }
}
