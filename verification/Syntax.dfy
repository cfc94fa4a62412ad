/** The language that the configuration parser accepts: exactly the texts generated by its productions. */
module Syntax {
  import opened Config
  import opened ConfigRoundTrip

  /** What may stand behind a setting. */
  datatype Separator = NoSeparator | Semicolon | Comma

  /** Concrete syntax: how a value was written. */
  datatype Form =
    | Scalar(token: Token)
    | Pieces(pieces: seq<string>)
    | ArrayForm(elems: Forms)
    | ListForm(items: Forms)
    | GroupForm(members: MemberForms)

  datatype Forms = NilForm | ConsForm(head: Form, tail: Forms)

  datatype MemberForms = EndForm | MoreForm(name: string, value: Form, separator: Separator, rest: MemberForms)

  // ----- the text of a form

  function StringTokens(pieces: seq<string>): (ts: seq<Token>)
    ensures |ts| == |pieces| && forall i :: 0 <= i < |ts| ==> ts[i] == TString(pieces[i])
  {
    seq(|pieces|, i requires 0 <= i < |pieces| => TString(pieces[i]))
  }

  function SeparatorTokens(s: Separator): seq<Token> {
    match s
    case NoSeparator => []
    case Semicolon => [TSemicolon]
    case Comma => [TComma]
  }

  function TextOf(c: Form): seq<Token> {
    match c
    case Scalar(t) => [t]
    case Pieces(ss) => StringTokens(ss)
    case ArrayForm(es) => [TArrayStart] + TextOfAll(es) + [TArrayEnd]
    case ListForm(es) => [TListStart] + TextOfAll(es) + [TListEnd]
    case GroupForm(ms) => [TGroupStart] + TextOfMembers(ms) + [TGroupEnd]
  }

  function TextOfAll(cs: Forms): seq<Token> {
    match cs
    case NilForm => []
    case ConsForm(h, t) => TextOf(h) + (if t.NilForm? then [] else [TComma] + TextOfAll(t))
  }

  function TextOfMembers(ms: MemberForms): seq<Token> {
    match ms
    case EndForm => []
    case MoreForm(n, v, s, rest) => [TName(n), TEquals] + TextOf(v) + SeparatorTokens(s) + TextOfMembers(rest)
  }

  // ----- its meaning

  /** Strings joined in their order. */
  function Joined(pieces: seq<string>): string {
    if |pieces| == 0 then "" else Joined(pieces[..|pieces| - 1]) + pieces[|pieces| - 1]
  }

  function ScalarMeaning(t: Token): Value {
    match t
    case TBool(b) => Bool(b)
    case TInt(i) => Int(i, Plain)
    case THex(i) => Int(i, Hex)
    case TInt64(j) => Int64(j, Plain)
    case THex64(j) => Int64(j, Hex)
    case _ => Text("")
  }

  function Meaning(c: Form): Value {
    match c
    case Scalar(t) => ScalarMeaning(t)
    case Pieces(ss) => Text(Joined(ss))
    case ArrayForm(es) => Array(MeaningOfAll(es))
    case ListForm(es) => List(MeaningOfAll(es))
    case GroupForm(ms) => Group(MeaningOfMembers(ms))
  }

  function MeaningOfAll(cs: Forms): Values {
    match cs
    case NilForm => Nil
    case ConsForm(h, t) => Cons(Meaning(h), MeaningOfAll(t))
  }

  function MeaningOfMembers(ms: MemberForms): Members {
    match ms
    case EndForm => End
    case MoreForm(n, v, _, rest) => More(n, Meaning(v), MeaningOfMembers(rest))
  }

  // ----- which forms are allowed

  predicate IsSimple(c: Form) {
    match c
    case Scalar(t) => t.TBool? || t.TInt? || t.THex? || t.TInt64? || t.THex64?
    case Pieces(ss) => |ss| > 0
    case _ => false
  }

  predicate Legal(c: Form) {
    match c
    case Scalar(_) => IsSimple(c)
    case Pieces(_) => IsSimple(c)
    case ArrayForm(es) => es.ConsForm? ==> LegalElements(es, KindOf(Meaning(es.head)))
    case ListForm(es) => AllLegal(es)
    case GroupForm(ms) => LegalMembers(ms, {})
  }

  /** Array elements: scalars or strings of one kind. */
  predicate LegalElements(cs: Forms, k: Kind) {
    match cs
    case NilForm => true
    case ConsForm(h, t) => IsSimple(h) && KindOf(Meaning(h)) == k && LegalElements(t, k)
  }

  predicate AllLegal(cs: Forms) {
    match cs
    case NilForm => true
    case ConsForm(h, t) => Legal(h) && AllLegal(t)
  }

  /** Settings with valid names, different from each other and from `seen`. */
  predicate LegalMembers(ms: MemberForms, seen: set<string>) {
    match ms
    case EndForm => true
    case MoreForm(n, v, _, rest) => ValidName(n) && n !in seen && Legal(v) && LegalMembers(rest, seen + {n})
  }

  /** Values of one scalar kind: both booleans, both integers, both 64-bit integers, or both strings. */
  lemma SameKind(a: Value, b: Value)
    ensures KindOf(a) == KindOf(b) != OtherKind <==>
      (a.Bool? && b.Bool?) || (a.Int? && b.Int?) || (a.Int64? && b.Int64?) || (a.Text? && b.Text?)
  {
  }

  // ----- whatever is read is the text of a form

  lemma {:induction false} JoinedFront(s: string, ss: seq<string>)
    ensures Joined([s] + ss) == s + Joined(ss)
  {
    if |ss| == 0 {
      assert [s] + ss == [s];
      assert Joined([s]) == Joined([]) + s;
    } else {
      var n := |ss| - 1;
      JoinedFront(s, ss[..n]);
      assert ([s] + ss)[..n + 1] == [s] + ss[..n];
      assert s + (Joined(ss[..n]) + ss[n]) == (s + Joined(ss[..n])) + ss[n];
    }
  }

  lemma JoinedNone()
    ensures Joined([]) == ""
  {
  }

  lemma {:induction false} StringsSound(ts: seq<Token>) returns (ss: seq<string>)
    ensures ts == StringTokens(ss) + Strings(ts).1 && Strings(ts).0 == Joined(ss) && NoString(Strings(ts).1)
    ensures |ts| > 0 && ts[0].TString? ==> |ss| > 0
  {
    hide Joined;
    JoinedNone();
    if |ts| > 0 && ts[0].TString? {
      assert Strings(ts) == (ts[0].s + Strings(ts[1..]).0, Strings(ts[1..]).1);
      var rest := StringsSound(ts[1..]);
      ss := [ts[0].s] + rest;
      JoinedFront(ts[0].s, rest);
      hide Strings;
      assert StringTokens(ss) == [ts[0]] + StringTokens(rest);
      assert ts == [ts[0]] + ts[1..];
    } else {
      ss := [];
      assert StringTokens(ss) == [];
    }
  }

  lemma SimpleSound(ts: seq<Token>) returns (c: Form)
    requires Simple(ts).Done?
    ensures IsSimple(c) && ts == TextOf(c) + Simple(ts).rest && Meaning(c) == Simple(ts).value
  {
    if ts[0].TString? {
      var ss := StringsSound(ts);
      c := Pieces(ss);
    } else {
      c := Scalar(ts[0]);
      assert ts == [ts[0]] + ts[1..];
    }
  }

  lemma ConsText(c: Form, cs: Forms, end: Token, rest: seq<Token>)
    ensures TextOfAll(ConsForm(c, NilForm)) + ([end] + rest) == TextOf(c) + ([end] + rest)
    ensures cs.ConsForm? ==>
      TextOfAll(ConsForm(c, cs)) + ([end] + rest) == TextOf(c) + ([TComma] + (TextOfAll(cs) + ([end] + rest)))
  {
    hide TextOf;
    assert TextOf(c) + [] == TextOf(c);
  }

  lemma Uncons(ts: seq<Token>, t: Token)
    requires |ts| > 0 && ts[0] == t
    ensures ts == [t] + ts[1..]
  {
  }

  // What a successful step of the element rule means.
  lemma ElementsParts(ts: seq<Token>, e: Expected)
    requires Elements(ts, e).Done?
    ensures var s := Simple(ts);
      && s.Done? && |s.rest| > 0 && (e == Any || e == Only(KindOf(s.value)))
      && (s.rest[0] == TComma ==>
           var t := Elements(s.rest[1..], Only(KindOf(s.value)));
           t.Done? && Elements(ts, e) == Done(Cons(s.value, t.value), t.rest))
      && (s.rest[0] != TComma ==>
           s.rest[0] == TArrayEnd && Elements(ts, e) == Done(Cons(s.value, Nil), s.rest[1..]))
  {
    hide Simple, KindOf;
  }

  lemma FormsStep(c: Form, cs: Forms, k: Kind)
    ensures TextOfAll(NilForm) == [] && MeaningOfAll(NilForm) == Nil && LegalElements(NilForm, k) && AllLegal(NilForm)
    ensures MeaningOfAll(ConsForm(c, cs)) == Cons(Meaning(c), MeaningOfAll(cs))
    ensures LegalElements(ConsForm(c, cs), k) <==> IsSimple(c) && KindOf(Meaning(c)) == k && LegalElements(cs, k)
    ensures AllLegal(ConsForm(c, cs)) <==> Legal(c) && AllLegal(cs)
  {
    hide Meaning, IsSimple, Legal, KindOf;
  }

  lemma {:induction false} ElementsSound(ts: seq<Token>, e: Expected) returns (cs: Forms)
    requires Elements(ts, e).Done?
    ensures var r := Elements(ts, e);
      && cs.ConsForm? && LegalElements(cs, KindOf(Meaning(cs.head)))
      && (e == Any || e == Only(KindOf(Meaning(cs.head))))
      && ts == TextOfAll(cs) + ([TArrayEnd] + r.rest) && MeaningOfAll(cs) == r.value
    decreases |ts|
  {
    hide *;
    ElementsParts(ts, e);
    var s := Simple(ts);
    var c := SimpleSound(ts);
    var k := KindOf(s.value);
    if s.rest[0] == TComma {
      Uncons(s.rest, TComma);
      var ds := ElementsSound(s.rest[1..], Only(k));
      cs := ConsForm(c, ds);
      FormsStep(c, ds, k);
      ConsText(c, ds, TArrayEnd, Elements(ts, e).rest);
    } else {
      Uncons(s.rest, TArrayEnd);
      cs := ConsForm(c, NilForm);
      FormsStep(c, NilForm, k);
      ConsText(c, NilForm, TArrayEnd, Elements(ts, e).rest);
    }
  }

  lemma ItemsParts(ts: seq<Token>)
    requires Items(ts).Done?
    ensures var s := Parse(ts);
      && s.Done? && |s.rest| > 0
      && (s.rest[0] == TComma ==>
           Items(s.rest[1..]).Done?
             && Items(ts) == Done(Cons(s.value, Items(s.rest[1..]).value), Items(s.rest[1..]).rest))
      && (s.rest[0] != TComma ==> s.rest[0] == TListEnd && Items(ts) == Done(Cons(s.value, Nil), s.rest[1..]))
  {
    hide Parse;
  }

  lemma {:induction false} ItemsSound(ts: seq<Token>) returns (cs: Forms)
    requires Items(ts).Done?
    ensures var r := Items(ts);
      cs.ConsForm? && AllLegal(cs) && ts == TextOfAll(cs) + ([TListEnd] + r.rest) && MeaningOfAll(cs) == r.value
    decreases |ts|, 2
  {
    hide *;
    ItemsParts(ts);
    var s := Parse(ts);
    var c := ParseSound(ts);
    if s.rest[0] == TComma {
      Uncons(s.rest, TComma);
      var ds := ItemsSound(s.rest[1..]);
      cs := ConsForm(c, ds);
      FormsStep(c, ds, OtherKind);
      ConsText(c, ds, TListEnd, Items(ts).rest);
    } else {
      Uncons(s.rest, TListEnd);
      cs := ConsForm(c, NilForm);
      FormsStep(c, NilForm, OtherKind);
      ConsText(c, NilForm, TListEnd, Items(ts).rest);
    }
  }

  // How a separator is consumed.
  lemma SeparatorSound(ts: seq<Token>) returns (s: Separator)
    ensures ts == SeparatorTokens(s) + Terminated(ts)
  {
    if |ts| > 0 && ts[0] == TSemicolon {
      s := Semicolon;
      assert ts == [TSemicolon] + ts[1..];
    } else if |ts| > 0 && ts[0] == TComma {
      s := Comma;
      assert ts == [TComma] + ts[1..];
    } else {
      s := NoSeparator;
      assert [] + ts == ts;
    }
  }

  lemma SettingsParts(ts: seq<Token>, seen: set<string>)
    requires Settings(ts, seen).Done? && |ts| > 0 && ts[0].TName?
    ensures var n := ts[0].n;
      && ValidName(n) && n !in seen && |ts| > 1 && ts[1] == TEquals && Parse(ts[2..]).Done?
      && var m := Settings(Terminated(Parse(ts[2..]).rest), seen + {n});
         m.Done? && Settings(ts, seen) == Done(More(n, Parse(ts[2..]).value, m.value), m.rest)
  {
    hide Parse, ValidName, Terminated;
  }

  lemma SettingsStop(ts: seq<Token>, seen: set<string>)
    requires |ts| == 0 || !ts[0].TName?
    ensures Settings(ts, seen) == Done(End, ts)
  {
  }

  lemma MembersStep(n: string, v: Form, s: Separator, ms: MemberForms, seen: set<string>)
    ensures TextOfMembers(EndForm) == [] && MeaningOfMembers(EndForm) == End && LegalMembers(EndForm, seen)
    ensures TextOfMembers(MoreForm(n, v, s, ms))
      == [TName(n), TEquals] + TextOf(v) + SeparatorTokens(s) + TextOfMembers(ms)
    ensures MeaningOfMembers(MoreForm(n, v, s, ms)) == More(n, Meaning(v), MeaningOfMembers(ms))
    ensures LegalMembers(MoreForm(n, v, s, ms), seen) <==>
      ValidName(n) && n !in seen && Legal(v) && LegalMembers(ms, seen + {n})
  {
    hide TextOf, Meaning, Legal, ValidName, SeparatorTokens;
  }

  lemma {:induction false} SettingsSound(ts: seq<Token>, seen: set<string>) returns (ms: MemberForms)
    requires Settings(ts, seen).Done?
    ensures var r := Settings(ts, seen);
      LegalMembers(ms, seen) && ts == TextOfMembers(ms) + r.rest && MeaningOfMembers(ms) == r.value
    decreases |ts|, 0
  {
    hide *;
    if |ts| == 0 || !ts[0].TName? {
      SettingsStop(ts, seen);
      ms := EndForm;
      MembersStep("", Pieces([]), NoSeparator, EndForm, seen);
      assert [] + ts == ts;
    } else {
      SettingsParts(ts, seen);
      var n, p := ts[0].n, Parse(ts[2..]);
      var v := ParseSound(ts[2..]);
      var s := SeparatorSound(p.rest);
      var rest := SettingsSound(Terminated(p.rest), seen + {n});
      ms := MoreForm(n, v, s, rest);
      MembersStep(n, v, s, rest, seen);
      assert ts == [TName(n), TEquals] + ts[2..];
      JoinFour([TName(n), TEquals], TextOf(v), SeparatorTokens(s), TextOfMembers(rest), Settings(ts, seen).rest);
    }
  }

  lemma JoinFour(a: seq<Token>, b: seq<Token>, c: seq<Token>, d: seq<Token>, e: seq<Token>)
    ensures a + b + c + d + e == a + (b + (c + (d + e)))
  {
  }

  lemma ParseParts(ts: seq<Token>)
    requires Parse(ts).Done?
    ensures |ts| > 0
    ensures ts[0] == TArrayStart && !(|ts| > 1 && ts[1] == TArrayEnd) ==>
      var r := Elements(ts[1..], Any); r.Done? && Parse(ts) == Done(Array(r.value), r.rest)
    ensures ts[0] == TArrayStart && |ts| > 1 && ts[1] == TArrayEnd ==> Parse(ts) == Done(Array(Nil), ts[2..])
    ensures ts[0] == TListStart && !(|ts| > 1 && ts[1] == TListEnd) ==>
      var r := Items(ts[1..]); r.Done? && Parse(ts) == Done(List(r.value), r.rest)
    ensures ts[0] == TListStart && |ts| > 1 && ts[1] == TListEnd ==> Parse(ts) == Done(List(Nil), ts[2..])
    ensures ts[0] == TGroupStart ==>
      var r := Settings(ts[1..], {});
      r.Done? && |r.rest| > 0 && r.rest[0] == TGroupEnd && Parse(ts) == Done(Group(r.value), r.rest[1..])
    ensures ts[0] != TArrayStart && ts[0] != TListStart && ts[0] != TGroupStart ==> Parse(ts) == Simple(ts)
  {
    hide Simple, Elements, Items, Settings;
  }

  // The parts of the form of a compound value.
  lemma CompoundParts(es: Forms, ms: MemberForms)
    ensures TextOf(ArrayForm(es)) == [TArrayStart] + TextOfAll(es) + [TArrayEnd]
    ensures TextOf(ListForm(es)) == [TListStart] + TextOfAll(es) + [TListEnd]
    ensures TextOf(GroupForm(ms)) == [TGroupStart] + TextOfMembers(ms) + [TGroupEnd]
    ensures Meaning(ArrayForm(es)) == Array(MeaningOfAll(es)) && Meaning(ListForm(es)) == List(MeaningOfAll(es))
    ensures Meaning(GroupForm(ms)) == Group(MeaningOfMembers(ms))
    ensures Legal(ArrayForm(es)) <==> (es.ConsForm? ==> LegalElements(es, KindOf(Meaning(es.head))))
    ensures Legal(ListForm(es)) <==> AllLegal(es)
    ensures Legal(GroupForm(ms)) <==> LegalMembers(ms, {})
  {
    hide TextOfAll, TextOfMembers, MeaningOfAll, MeaningOfMembers, LegalElements, AllLegal, LegalMembers, KindOf;
  }

  lemma SimpleLegal(c: Form)
    requires IsSimple(c)
    ensures Legal(c)
  {
  }

  lemma TwoTokens(ts: seq<Token>, a: Token, b: Token)
    requires |ts| > 1 && ts[0] == a && ts[1] == b
    ensures ts == [a] + ([] + ([b] + ts[2..])) && [a] + [] + [b] + ts[2..] == ts
  {
  }

  /** Whatever value is read was written in a legal form, with that meaning, up to where reading stopped. */
  lemma {:induction false} ParseSound(ts: seq<Token>) returns (c: Form)
    requires Parse(ts).Done?
    ensures Legal(c) && ts == TextOf(c) + Parse(ts).rest && Meaning(c) == Parse(ts).value
    decreases |ts|, 1
  {
    hide *;
    ParseParts(ts);
    var rest := Parse(ts).rest;
    Uncons(ts, ts[0]);
    FormsStep(Pieces([]), NilForm, OtherKind);
    if ts[0] == TArrayStart {
      var es := NilForm;
      if |ts| > 1 && ts[1] == TArrayEnd {
        TwoTokens(ts, TArrayStart, TArrayEnd);
      } else {
        es := ElementsSound(ts[1..], Any);
        Bracketed(TArrayStart, TextOfAll(es), TArrayEnd, rest);
      }
      c := ArrayForm(es);
      CompoundParts(es, EndForm);
    } else if ts[0] == TListStart {
      var es := NilForm;
      if |ts| > 1 && ts[1] == TListEnd {
        TwoTokens(ts, TListStart, TListEnd);
      } else {
        es := ItemsSound(ts[1..]);
        Bracketed(TListStart, TextOfAll(es), TListEnd, rest);
      }
      c := ListForm(es);
      CompoundParts(es, EndForm);
    } else if ts[0] == TGroupStart {
      var ms := SettingsSound(ts[1..], {});
      c := GroupForm(ms);
      CompoundParts(NilForm, ms);
      Uncons(Settings(ts[1..], {}).rest, TGroupEnd);
      Bracketed(TGroupStart, TextOfMembers(ms), TGroupEnd, rest);
    } else {
      c := SimpleSound(ts);
      SimpleLegal(c);
    }
  }

  // ----- the text of every legal form is read

  /** Adjacent strings are joined in their order. */
  lemma {:induction false} StringsComplete(ss: seq<string>, rest: seq<Token>)
    requires NoString(rest)
    ensures Strings(StringTokens(ss) + rest) == (Joined(ss), rest)
  {
    hide Joined;
    JoinedNone();
    if |ss| == 0 {
      assert StringTokens(ss) + rest == rest;
    } else {
      var ts := StringTokens(ss) + rest;
      assert ts[1..] == StringTokens(ss[1..]) + rest;
      StringsComplete(ss[1..], rest);
      JoinedFront(ss[0], ss[1..]);
      assert ss == [ss[0]] + ss[1..];
    }
  }

  lemma SimpleComplete(c: Form, rest: seq<Token>)
    requires IsSimple(c) && NoString(rest)
    ensures Simple(TextOf(c) + rest) == Done(Meaning(c), rest) && Parse(TextOf(c) + rest) == Done(Meaning(c), rest)
  {
    hide Strings, Joined;
    var ts := TextOf(c) + rest;
    if c.Pieces? {
      StringsComplete(c.pieces, rest);
      assert ts[0] == TString(c.pieces[0]);
    } else {
      assert ts[1..] == rest;
    }
  }

  lemma {:induction false} ElementsComplete(cs: Forms, k: Kind, e: Expected, rest: seq<Token>)
    requires cs.ConsForm? && LegalElements(cs, k) && (e == Any || e == Only(k))
    ensures Elements(TextOfAll(cs) + ([TArrayEnd] + rest), e) == Done(MeaningOfAll(cs), rest)
    decreases cs
  {
    hide *;
    var c, ds := cs.head, cs.tail;
    var ts := TextOfAll(cs) + ([TArrayEnd] + rest);
    FormsStep(c, ds, k);
    ConsText(c, ds, TArrayEnd, rest);
    if ds.NilForm? {
      NoStringAfter(TArrayEnd, rest);
      SimpleComplete(c, [TArrayEnd] + rest);
      ElementsEnd(ts, e, Meaning(c), rest);
    } else {
      var more := TextOfAll(ds) + ([TArrayEnd] + rest);
      NoStringAfter(TComma, more);
      SimpleComplete(c, [TComma] + more);
      ElementsComplete(ds, k, Only(k), rest);
      ElementsMore(ts, e, Meaning(c), more, MeaningOfAll(ds), rest);
    }
  }

  lemma {:induction false} ItemsComplete(cs: Forms, rest: seq<Token>)
    requires cs.ConsForm? && AllLegal(cs)
    ensures Items(TextOfAll(cs) + ([TListEnd] + rest)) == Done(MeaningOfAll(cs), rest)
    decreases cs
  {
    hide *;
    var c, ds := cs.head, cs.tail;
    var ts := TextOfAll(cs) + ([TListEnd] + rest);
    FormsStep(c, ds, OtherKind);
    ConsText(c, ds, TListEnd, rest);
    if ds.NilForm? {
      NoStringAfter(TListEnd, rest);
      ParseComplete(c, [TListEnd] + rest);
      ItemsEnd(ts, Meaning(c), rest);
    } else {
      var more := TextOfAll(ds) + ([TListEnd] + rest);
      NoStringAfter(TComma, more);
      ParseComplete(c, [TComma] + more);
      ItemsComplete(ds, rest);
      ItemsMore(ts, Meaning(c), more, MeaningOfAll(ds), rest);
    }
  }

  /** What may follow the settings of a group: its closing brace, or the end of the text. */
  predicate Closed(rest: seq<Token>) {
    |rest| > 0 ==> rest[0] == TGroupEnd
  }

  // Behind a value there is its separator, the next name, or the end of the settings.
  lemma AfterValue(s: Separator, ms: MemberForms, rest: seq<Token>)
    requires Closed(rest)
    ensures var more := TextOfMembers(ms) + rest;
      NoString(SeparatorTokens(s) + more) && Terminated(SeparatorTokens(s) + more) == more
  {
    var more := TextOfMembers(ms) + rest;
    if ms.MoreForm? {
      assert more[0] == TName(ms.name);
    } else {
      assert more == rest;
    }
    var ts := SeparatorTokens(s) + more;
    if s.NoSeparator? {
      assert ts == more;
    } else {
      assert ts[1..] == more;
    }
    hide TextOfMembers;
  }

  lemma SettingsNext(n: string, seen: set<string>, ts: seq<Token>, v: Value, more: seq<Token>, ms: Members,
                     rest: seq<Token>)
    requires ValidName(n) && n !in seen && Parse(ts).Done? && Parse(ts).value == v && Terminated(Parse(ts).rest) == more
    requires Settings(more, seen + {n}) == Done(ms, rest)
    ensures Settings([TName(n), TEquals] + ts, seen) == Done(More(n, v, ms), rest)
  {
    var all := [TName(n), TEquals] + ts;
    assert all[2..] == ts;
    hide Parse, ValidName, Terminated;
  }

  lemma ClosedStops(rest: seq<Token>, seen: set<string>)
    requires Closed(rest)
    ensures Settings(rest, seen) == Done(End, rest) && NoString(rest)
  {
  }

  lemma {:induction false} SettingsComplete(ms: MemberForms, seen: set<string>, rest: seq<Token>)
    requires LegalMembers(ms, seen) && Closed(rest)
    ensures Settings(TextOfMembers(ms) + rest, seen) == Done(MeaningOfMembers(ms), rest)
    decreases ms
  {
    hide *;
    if ms.EndForm? {
      MembersStep("", Pieces([]), NoSeparator, EndForm, seen);
      ClosedStops(rest, seen);
      assert [] + rest == rest;
    } else {
      var n, v, s, more := ms.name, ms.value, ms.separator, ms.rest;
      MembersStep(n, v, s, more, seen);
      var after := TextOfMembers(more) + rest;
      AfterValue(s, more, rest);
      ParseComplete(v, SeparatorTokens(s) + after);
      SettingsComplete(more, seen + {n}, rest);
      SettingsNext(n, seen, TextOf(v) + (SeparatorTokens(s) + after), Meaning(v), after, MeaningOfMembers(more), rest);
      JoinFour([TName(n), TEquals], TextOf(v), SeparatorTokens(s), TextOfMembers(more), rest);
    }
  }

  lemma LegalParts(c: Form)
    requires Legal(c)
    ensures c.Scalar? || c.Pieces? ==> IsSimple(c)
  {
  }

  lemma GroupClosed(rest: seq<Token>)
    ensures Closed([TGroupEnd] + rest)
  {
  }

  /** The text of every legal form is read with the meaning of the form, and nothing behind it. */
  lemma {:induction false} ParseComplete(c: Form, rest: seq<Token>)
    requires Legal(c) && NoString(rest)
    ensures Parse(TextOf(c) + rest) == Done(Meaning(c), rest)
    decreases c
  {
    hide *;
    LegalParts(c);
    FormsStep(Pieces([]), NilForm, OtherKind);
    match c
    case ArrayForm(es) =>
      CompoundParts(es, EndForm);
      Bracketed(TArrayStart, TextOfAll(es), TArrayEnd, rest);
      if es.ConsForm? {
        ElementsComplete(es, KindOf(Meaning(es.head)), Any, rest);
        ArrayOf(TextOfAll(es) + ([TArrayEnd] + rest), MeaningOfAll(es), rest);
      } else {
        EmptyArray(rest);
        assert [] + ([TArrayEnd] + rest) == [TArrayEnd] + rest;
      }
    case ListForm(es) =>
      CompoundParts(es, EndForm);
      Bracketed(TListStart, TextOfAll(es), TListEnd, rest);
      if es.ConsForm? {
        ItemsComplete(es, rest);
        ListOf(TextOfAll(es) + ([TListEnd] + rest), MeaningOfAll(es), rest);
      } else {
        EmptyList(rest);
        assert [] + ([TListEnd] + rest) == [TListEnd] + rest;
      }
    case GroupForm(ms) =>
      CompoundParts(NilForm, ms);
      Bracketed(TGroupStart, TextOfMembers(ms), TGroupEnd, rest);
      GroupClosed(rest);
      SettingsComplete(ms, {}, [TGroupEnd] + rest);
      GroupOf(TextOfMembers(ms) + ([TGroupEnd] + rest), MeaningOfMembers(ms), rest);
    case _ =>
      SimpleComplete(c, rest);
  }

  ghost predicate Written(ts: seq<Token>, ms: MemberForms, v: Value) {
    LegalMembers(ms, {}) && ts == TextOfMembers(ms) && v == Group(MeaningOfMembers(ms))
  }

  lemma ReadIs(ts: seq<Token>)
    ensures Settings(ts, {}).Done? && Settings(ts, {}).rest == [] ==>
      Read(ts) == Done(Group(Settings(ts, {}).value), [])
    ensures Read(ts).Done? ==> Settings(ts, {}).Done? && Settings(ts, {}).rest == []
  {
    hide Settings;
  }

  /** The configurations that are read, and as what: exactly the texts of legal settings, with their meaning. */
  lemma ReadIff(ts: seq<Token>, v: Value)
    ensures Read(ts) == Done(v, []) <==> exists ms :: Written(ts, ms, v)
  {
    hide Read, Settings, LegalMembers, TextOfMembers, MeaningOfMembers;
    ReadIs(ts);
    if Read(ts) == Done(v, []) {
      var ms := SettingsSound(ts, {});
      assert TextOfMembers(ms) + [] == TextOfMembers(ms);
      assert Written(ts, ms, v);
    }
    if ms :| Written(ts, ms, v) {
      SettingsComplete(ms, {}, []);
      assert TextOfMembers(ms) + [] == TextOfMembers(ms);
    }
  }

  // Two strings next to each other mean the same as one.
  lemma AdjacentStrings(n: string, s: string, t: string)
    ensures Read([TName(n), TEquals, TString(s), TString(t), TSemicolon])
      == Read([TName(n), TEquals, TString(s + t), TSemicolon])
  {
    var a, b := [TName(n), TEquals, TString(s), TString(t), TSemicolon],
      [TName(n), TEquals, TString(s + t), TSemicolon];
    hide *;
    if ValidName(n) {
      OneSetting(n, [s, t]);
      OneSetting(n, [s + t]);
      assert StringTokens([s, t]) == [TString(s), TString(t)];
      assert StringTokens([s + t]) == [TString(s + t)];
      assert a == [TName(n), TEquals] + StringTokens([s, t]) + [TSemicolon];
      assert b == [TName(n), TEquals] + StringTokens([s + t]) + [TSemicolon];
      JoinedTwo(s, t);
    } else {
      InvalidName(a, n);
      InvalidName(b, n);
    }
  }

  lemma JoinedTwo(s: string, t: string)
    ensures Joined([s, t]) == s + t == Joined([s + t])
  {
    assert [s, t][..1] == [s] && [s][..0] == [] && [s + t][..0] == [];
    assert Joined([]) == "";
    assert Joined([s]) == Joined([]) + s;
    assert Joined([s + t]) == Joined([]) + (s + t);
  }

  lemma InvalidName(ts: seq<Token>, n: string)
    requires |ts| > 0 && ts[0] == TName(n) && !ValidName(n)
    ensures Read(ts) == Fail(DuplicateSetting)
  {
    hide ValidName;
  }

  lemma OneSetting(n: string, ss: seq<string>)
    requires ValidName(n) && |ss| > 0
    ensures Read([TName(n), TEquals] + StringTokens(ss) + [TSemicolon])
      == Done(Group(More(n, Text(Joined(ss)), End)), [])
  {
    hide *;
    var v := Pieces(ss);
    var ms := MoreForm(n, v, Semicolon, EndForm);
    PiecesParts(ss);
    MembersStep(n, v, Semicolon, EndForm, {});
    MembersStep(n, v, Semicolon, EndForm, {} + {n});
    var ts := [TName(n), TEquals] + StringTokens(ss) + [TSemicolon];
    assert ts + [] == ts;
    WrittenIs(ts, ms);
    ReadIff(ts, Group(MeaningOfMembers(ms)));
  }

  lemma PiecesParts(ss: seq<string>)
    ensures TextOf(Pieces(ss)) == StringTokens(ss) && Meaning(Pieces(ss)) == Text(Joined(ss))
    ensures Legal(Pieces(ss)) <==> |ss| > 0
    ensures SeparatorTokens(Semicolon) == [TSemicolon]
  {
  }

  lemma WrittenIs(ts: seq<Token>, ms: MemberForms)
    requires LegalMembers(ms, {}) && ts == TextOfMembers(ms)
    ensures Written(ts, ms, Group(MeaningOfMembers(ms)))
  {
  }

  // ----- what is refused, and how

  predicate Names(ms: MemberForms, n: string) {
    ms.MoreForm? && (ms.name == n || Names(ms.rest, n))
  }

  lemma NextFails(n: string, seen: set<string>, ts: seq<Token>, more: seq<Token>, e: Error)
    requires ValidName(n) && n !in seen && Parse(ts).Done? && Terminated(Parse(ts).rest) == more
    requires Settings(more, seen + {n}) == Fail(e)
    ensures Settings([TName(n), TEquals] + ts, seen) == Fail(e)
  {
    var all := [TName(n), TEquals] + ts;
    assert all[2..] == ts;
    hide Parse, ValidName, Terminated;
  }

  lemma NameAhead(s: Separator, ms: MemberForms, n: string, rest: seq<Token>)
    ensures var more := TextOfMembers(ms) + ([TName(n)] + rest);
      NoString(SeparatorTokens(s) + more) && Terminated(SeparatorTokens(s) + more) == more
  {
    var more := TextOfMembers(ms) + ([TName(n)] + rest);
    if ms.EndForm? {
      assert more == [TName(n)] + rest;
    } else {
      assert more[0] == TName(ms.name);
    }
    var ts := SeparatorTokens(s) + more;
    if s.NoSeparator? {
      assert ts == more;
    } else {
      assert ts[1..] == more;
    }
    hide TextOfMembers;
  }

  lemma NameRefused(n: string, seen: set<string>, rest: seq<Token>)
    requires n in seen || !ValidName(n)
    ensures Settings([TName(n)] + rest, seen) == Fail(DuplicateSetting)
  {
    hide ValidName;
  }

  /** A name that the group already has is refused as a duplicate, whatever follows it; so is an invalid name. */
  lemma {:induction false} DuplicateRefused(ms: MemberForms, n: string, seen: set<string>, rest: seq<Token>)
    requires LegalMembers(ms, seen) && (Names(ms, n) || n in seen || !ValidName(n))
    ensures Settings(TextOfMembers(ms) + ([TName(n)] + rest), seen) == Fail(DuplicateSetting)
    decreases ms
  {
    NamesStep(ms, n);
    hide *;
    var tail := [TName(n)] + rest;
    if ms.EndForm? {
      MembersStep("", Pieces([]), NoSeparator, EndForm, seen);
      NameRefused(n, seen, rest);
      assert [] + tail == tail;
    } else {
      var m, v, s, more := ms.name, ms.value, ms.separator, ms.rest;
      MembersStep(m, v, s, more, seen);
      var after := TextOfMembers(more) + tail;
      NameAhead(s, more, n, rest);
      ParseComplete(v, SeparatorTokens(s) + after);
      DuplicateRefused(more, n, seen + {m}, rest);
      NextFails(m, seen, TextOf(v) + (SeparatorTokens(s) + after), after, DuplicateSetting);
      JoinFour([TName(m), TEquals], TextOf(v), SeparatorTokens(s), TextOfMembers(more), tail);
    }
  }

  lemma NamesStep(ms: MemberForms, n: string)
    ensures Names(ms, n) <==> ms.MoreForm? && (ms.name == n || Names(ms.rest, n))
  {
  }

  lemma ElementsFail(ts: seq<Token>, e: Expected, v: Value, more: seq<Token>, f: Error)
    requires Simple(ts) == Done(v, [TComma] + more) && (e == Any || e == Only(KindOf(v)))
    requires Elements(more, Only(KindOf(v))) == Fail(f)
    ensures Elements(ts, e) == Fail(f)
  {
    HeadTail(TComma, more);
    hide Simple;
  }

  lemma ElementRefused(c: Form, k: Kind, rest: seq<Token>)
    requires IsSimple(c) && KindOf(Meaning(c)) != k && NoString(rest)
    ensures Elements(TextOf(c) + rest, Only(k)) == Fail(MismatchedElement)
  {
    SimpleComplete(c, rest);
    hide Simple, Meaning, TextOf, KindOf;
  }

  /** A scalar of another kind than the elements before it is refused as such, whatever follows it. */
  lemma {:induction false} MismatchRefused(cs: Forms, k: Kind, e: Expected, c: Form, rest: seq<Token>)
    requires cs.ConsForm? && LegalElements(cs, k) && (e == Any || e == Only(k))
    requires IsSimple(c) && KindOf(Meaning(c)) != k && NoString(rest)
    ensures Elements(TextOfAll(cs) + ([TComma] + (TextOf(c) + rest)), e) == Fail(MismatchedElement)
    decreases cs
  {
    hide *;
    var b, ds, tail := cs.head, cs.tail, TextOf(c) + rest;
    FormsStep(b, ds, k);
    ConsText(b, ds, TComma, tail);
    var ts := TextOfAll(cs) + ([TComma] + tail);
    if ds.NilForm? {
      NoStringAfter(TComma, tail);
      SimpleComplete(b, [TComma] + tail);
      ElementRefused(c, k, rest);
      ElementsFail(ts, e, Meaning(b), tail, MismatchedElement);
    } else {
      var more := TextOfAll(ds) + ([TComma] + tail);
      NoStringAfter(TComma, more);
      SimpleComplete(b, [TComma] + more);
      MismatchRefused(ds, k, Only(k), c, rest);
      ElementsFail(ts, e, Meaning(b), more, MismatchedElement);
    }
  }
}
