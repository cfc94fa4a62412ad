/** In which form a tree is written. */
module Formats {
  import opened Config
  import opened ConfigRoundTrip
  import opened Syntax

  predicate IsNumber(t: Token) {
    t.TInt? || t.THex? || t.TInt64? || t.THex64?
  }

  /** The number tokens among ts. */
  function NumberTokens(ts: seq<Token>): seq<Token> {
    if |ts| == 0 then [] else (if IsNumber(ts[0]) then [ts[0]] else []) + NumberTokens(ts[1..])
  }

  /** The numbers of a tree, in order. */
  function Leaves(v: Value): seq<Value> {
    match v
    case Int(_, _) => [v]
    case Int64(_, _) => [v]
    case Array(es) => AllLeaves(es)
    case List(es) => AllLeaves(es)
    case Group(ms) => MemberLeaves(ms)
    case _ => []
  }

  function AllLeaves(vs: Values): seq<Value> {
    match vs
    case Nil => []
    case Cons(h, t) => Leaves(h) + AllLeaves(t)
  }

  function MemberLeaves(ms: Members): seq<Value> {
    match ms
    case End => []
    case More(_, v, rest) => Leaves(v) + MemberLeaves(rest)
  }

  /** The token of a number: hexadecimal if its own format or the default is. */
  predicate WrittenAs(v: Value, d: Format, t: Token) {
    match v
    case Int(i, f) => t == if f == Hex || d == Hex then THex(i) else TInt(i)
    case Int64(j, f) => t == if f == Hex || d == Hex then THex64(j) else TInt64(j)
    case _ => false
  }

  predicate AllWritten(vs: seq<Value>, d: Format, ts: seq<Token>) {
    |vs| == |ts| && forall k :: 0 <= k < |vs| ==> WrittenAs(vs[k], d, ts[k])
  }

  lemma {:induction false} NumbersConcat(a: seq<Token>, b: seq<Token>)
    ensures NumberTokens(a + b) == NumberTokens(a) + NumberTokens(b)
  {
    if |a| == 0 {
      assert a + b == b;
    } else {
      NumbersConcat(a[1..], b);
      assert (a + b)[1..] == a[1..] + b;
    }
  }

  lemma NoNumber(t: Token)
    requires !IsNumber(t)
    ensures NumberTokens([t]) == []
  {
  }

  lemma WrittenConcat(vs: seq<Value>, ws: seq<Value>, d: Format, ts: seq<Token>, us: seq<Token>)
    requires AllWritten(vs, d, ts) && AllWritten(ws, d, us)
    ensures AllWritten(vs + ws, d, ts + us)
  {
    hide WrittenAs;
  }

  lemma Wrapped(a: Token, inner: seq<Token>, b: Token)
    requires !IsNumber(a) && !IsNumber(b)
    ensures NumberTokens([a] + inner + [b]) == NumberTokens(inner)
  {
    NumbersConcat([a] + inner, [b]);
    NumbersConcat([a], inner);
    NoNumber(a);
    NoNumber(b);
  }

  lemma ScalarTokens(v: Value, d: Format)
    requires WellFormed(v) && KindOf(v) != OtherKind
    ensures AllWritten(Leaves(v), d, NumberTokens(Print(v, d)))
  {
    hide IntToken, Int64Token, StringToken;
    var t := Print(v, d)[0];
    assert [t][1..] == [];
    assert NumberTokens([t]) == if IsNumber(t) then [t] else [];
  }

  /** Every number is written once, in its place, and in hexadecimal exactly when its own format or the default is. */
  lemma {:induction false} NumbersWritten(v: Value, d: Format)
    requires WellFormed(v)
    ensures AllWritten(Leaves(v), d, NumberTokens(Print(v, d)))
    decreases v
  {
    hide WrittenAs, NumberTokens, IntToken, Int64Token, StringToken;
    match v
    case Array(es) =>
      ValuesWritten(es, d);
      Wrapped(TArrayStart, PrintValues(es, d), TArrayEnd);
    case List(es) =>
      ValuesWritten(es, d);
      Wrapped(TListStart, PrintValues(es, d), TListEnd);
    case Group(ms) =>
      MembersWritten(ms, d);
      Wrapped(TGroupStart, PrintMembers(ms, d), TGroupEnd);
    case _ =>
      ScalarTokens(v, d);
  }

  lemma NothingWritten(d: Format)
    ensures AllWritten([], d, NumberTokens([]))
  {
  }

  lemma {:induction false} ValuesWritten(es: Values, d: Format)
    requires AllWellFormed(es)
    ensures AllWritten(AllLeaves(es), d, NumberTokens(PrintValues(es, d)))
    decreases es
  {
    NothingWritten(d);
    hide WrittenAs, NumberTokens, Print, Leaves, AllWritten;
    if es.Cons? {
      NumbersWritten(es.head, d);
      ValuesWritten(es.tail, d);
      var ts, us := Print(es.head, d), PrintValues(es.tail, d);
      if es.tail.Nil? {
        assert AllLeaves(es) == Leaves(es.head) + [] == Leaves(es.head);
        assert PrintValues(es, d) == ts + [] == ts;
      } else {
        NumbersConcat([TComma], us);
        NumbersConcat(ts, [TComma] + us);
        NoNumber(TComma);
        WrittenConcat(Leaves(es.head), AllLeaves(es.tail), d, NumberTokens(ts), NumberTokens(us));
        assert [] + NumberTokens(us) == NumberTokens(us);
      }
    }
  }

  lemma NameNoNumber(n: string)
    ensures !IsNumber(NameToken(n))
  {
  }

  lemma {:induction false} MembersWritten(ms: Members, d: Format)
    requires MembersWellFormed(ms)
    ensures AllWritten(MemberLeaves(ms), d, NumberTokens(PrintMembers(ms, d)))
    decreases ms
  {
    NothingWritten(d);
    hide WrittenAs, NumberTokens, Print, Leaves, AllWritten, NameToken;
    if ms.More? {
      NumbersWritten(ms.value, d);
      MembersWritten(ms.rest, d);
      var n, ts, us := NameToken(ms.name), Print(ms.value, d), PrintMembers(ms.rest, d);
      assert PrintMembers(ms, d) == ([n] + ([TEquals] + ts + [TSemicolon])) + us;
      NameNoNumber(ms.name);
      NoNumber(n);
      NumbersConcat([n] + ([TEquals] + ts + [TSemicolon]), us);
      NumbersConcat([n], [TEquals] + ts + [TSemicolon]);
      Wrapped(TEquals, ts, TSemicolon);
      assert [] + NumberTokens(ts) == NumberTokens(ts);
      WrittenConcat(Leaves(ms.value), MemberLeaves(ms.rest), d, NumberTokens(ts), NumberTokens(us));
    }
  }

  lemma {:induction false} NumberAmong(ts: seq<Token>, k: nat) returns (m: nat)
    requires k < |ts| && IsNumber(ts[k])
    ensures m < |NumberTokens(ts)| && NumberTokens(ts)[m] == ts[k]
  {
    hide IsNumber;
    if k == 0 {
      m := 0;
    } else {
      m := NumberAmong(ts[1..], k - 1);
      m := if IsNumber(ts[0]) then m + 1 else m;
    }
  }

  /** With hexadecimal as the default no number is written in decimal. */
  lemma DefaultHex(v: Value, k: nat)
    requires WellFormed(v) && k < |Print(v, Hex)|
    ensures !Print(v, Hex)[k].TInt? && !Print(v, Hex)[k].TInt64?
  {
    hide Print, Leaves, NumberTokens;
    NumbersWritten(v, Hex);
    if IsNumber(Print(v, Hex)[k]) {
      var m := NumberAmong(Print(v, Hex), k);
      assert WrittenAs(Leaves(v)[m], Hex, Print(v, Hex)[k]);
    }
  }

  // ----- the form of the whole text

  /** The form in which the writer renders a tree: strings in one piece, a semicolon behind every setting. */
  function Rendered(v: Value, d: Format): Form {
    match v
    case Bool(b) => Scalar(TBool(b))
    case Int(i, f) => Scalar(if f == Hex || d == Hex then THex(i) else TInt(i))
    case Int64(j, f) => Scalar(if f == Hex || d == Hex then THex64(j) else TInt64(j))
    case Text(s) => Pieces([s])
    case Array(es) => ArrayForm(RenderedAll(es, d))
    case List(es) => ListForm(RenderedAll(es, d))
    case Group(ms) => GroupForm(RenderedMembers(ms, d))
  }

  function RenderedAll(vs: Values, d: Format): Forms {
    match vs
    case Nil => NilForm
    case Cons(h, t) => ConsForm(Rendered(h, d), RenderedAll(t, d))
  }

  function RenderedMembers(ms: Members, d: Format): MemberForms {
    match ms
    case End => EndForm
    case More(n, v, rest) => MoreForm(n, Rendered(v, d), Semicolon, RenderedMembers(rest, d))
  }

  lemma ScalarRendered(v: Value, d: Format)
    requires WellFormed(v) && KindOf(v) != OtherKind
    ensures Print(v, d) == TextOf(Rendered(v, d))
  {
    hide BoolToken, IntToken, Int64Token, StringToken;
    if v.Text? {
      assert StringTokens([v.s]) == [TString(v.s)];
    }
  }

  /** What is printed is the text of that form. */
  lemma {:induction false} PrintedForm(v: Value, d: Format)
    requires WellFormed(v) && Readable(v)
    ensures Print(v, d) == TextOf(Rendered(v, d))
    decreases v
  {
    hide BoolToken, IntToken, Int64Token, StringToken, StringTokens;
    match v
    case Array(es) =>
      ScalarsReadable(es);
      PrintedFormAll(es, d);
    case List(es) => PrintedFormAll(es, d);
    case Group(ms) => PrintedFormMembers(ms, d);
    case _ => ScalarRendered(v, d);
  }

  lemma {:induction false} PrintedFormAll(es: Values, d: Format)
    requires AllWellFormed(es) && AllReadable(es)
    ensures PrintValues(es, d) == TextOfAll(RenderedAll(es, d))
    decreases es
  {
    hide Print, Rendered, TextOf;
    if es.Cons? {
      PrintedForm(es.head, d);
      PrintedFormAll(es.tail, d);
    }
  }

  lemma {:induction false} PrintedFormMembers(ms: Members, d: Format)
    requires MembersWellFormed(ms) && MembersReadable(ms)
    ensures PrintMembers(ms, d) == TextOfMembers(RenderedMembers(ms, d))
    decreases ms
  {
    hide Print, Rendered, TextOf, NameToken;
    if ms.More? {
      PrintedForm(ms.value, d);
      PrintedFormMembers(ms.rest, d);
      PlainName(ms.name);
    }
  }

  lemma PlainName(n: string)
    requires !Reserved(n)
    ensures NameToken(n) == TName(n)
  {
  }
}
