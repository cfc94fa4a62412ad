/** Reading undoes writing. */
module ConfigRoundTrip {
  import opened Lexemes
  import opened Config

  // Nothing that an adjacent string would be joined with.
  predicate NoString(ts: seq<Token>) {
    |ts| > 0 ==> !ts[0].TString?
  }

  predicate NoName(ts: seq<Token>) {
    |ts| > 0 ==> !ts[0].TName?
  }

  lemma HeadTail(t: Token, ts: seq<Token>)
    ensures ([t] + ts)[0] == t && ([t] + ts)[1..] == ts && |[t] + ts| == |ts| + 1
  {
  }

  // ----- single steps of the grammar

  lemma OneString(s: string, rest: seq<Token>)
    requires NoString(rest)
    ensures Strings([TString(s)] + rest) == (s, rest)
  {
    HeadTail(TString(s), rest);
    assert Strings(rest) == ("", rest);
    assert s + "" == s;
  }

  lemma SimpleBack(v: Value, d: Format, rest: seq<Token>)
    requires WellFormed(v) && KindOf(v) != OtherKind && NoString(rest)
    ensures Simple(Print(v, d) + rest) == Done(Shown(v, d), rest)
    ensures Parse(Print(v, d) + rest) == Done(Shown(v, d), rest)
  {
    hide Strings, BoolToken, IntToken, Int64Token, StringToken;
    var t := Print(v, d)[0];
    HeadTail(t, rest);
    if v.Text? {
      OneString(v.s, rest);
    }
  }

  lemma ShownKind(v: Value, d: Format)
    ensures KindOf(Shown(v, d)) == KindOf(v)
  {
  }

  lemma ElementsEnd(ts: seq<Token>, e: Expected, v: Value, rest: seq<Token>)
    requires Simple(ts) == Done(v, [TArrayEnd] + rest) && (e == Any || e == Only(KindOf(v)))
    ensures Elements(ts, e) == Done(Cons(v, Nil), rest)
  {
    HeadTail(TArrayEnd, rest);
    hide Simple;
  }

  lemma ElementsMore(ts: seq<Token>, e: Expected, v: Value, more: seq<Token>, vs: Values, rest: seq<Token>)
    requires Simple(ts) == Done(v, [TComma] + more) && (e == Any || e == Only(KindOf(v)))
    requires Elements(more, Only(KindOf(v))) == Done(vs, rest)
    ensures Elements(ts, e) == Done(Cons(v, vs), rest)
  {
    HeadTail(TComma, more);
    hide Simple;
  }

  lemma ItemsEnd(ts: seq<Token>, v: Value, rest: seq<Token>)
    requires Parse(ts) == Done(v, [TListEnd] + rest)
    ensures Items(ts) == Done(Cons(v, Nil), rest)
  {
    HeadTail(TListEnd, rest);
    hide Parse;
  }

  lemma ItemsMore(ts: seq<Token>, v: Value, more: seq<Token>, vs: Values, rest: seq<Token>)
    requires Parse(ts) == Done(v, [TComma] + more) && Items(more) == Done(vs, rest)
    ensures Items(ts) == Done(Cons(v, vs), rest)
  {
    HeadTail(TComma, more);
    hide Parse;
  }

  lemma SettingsMore(n: string, seen: set<string>, ts: seq<Token>, v: Value, more: seq<Token>, ms: Members,
                     rest: seq<Token>)
    requires ValidName(n) && n !in seen && Parse(ts) == Done(v, [TSemicolon] + more)
    requires Settings(more, seen + {n}) == Done(ms, rest)
    ensures Settings([TName(n), TEquals] + ts, seen) == Done(More(n, v, ms), rest)
  {
    HeadTail(TSemicolon, more);
    var all := [TName(n), TEquals] + ts;
    assert all[2..] == ts;
    hide Parse, ValidName;
  }

  lemma ArrayOf(inner: seq<Token>, vs: Values, rest: seq<Token>)
    requires Elements(inner, Any) == Done(vs, rest)
    ensures Parse([TArrayStart] + inner) == Done(Array(vs), rest)
  {
    HeadTail(TArrayStart, inner);
    assert |inner| > 0 && inner[0] != TArrayEnd;
    hide Elements;
  }

  lemma EmptyArray(rest: seq<Token>)
    ensures Parse([TArrayStart] + ([TArrayEnd] + rest)) == Done(Array(Nil), rest)
  {
    var ts := [TArrayStart] + ([TArrayEnd] + rest);
    assert ts[2..] == rest;
  }

  lemma ListOf(inner: seq<Token>, vs: Values, rest: seq<Token>)
    requires Items(inner) == Done(vs, rest)
    ensures Parse([TListStart] + inner) == Done(List(vs), rest)
  {
    HeadTail(TListStart, inner);
    assert |inner| > 0 && inner[0] != TListEnd;
    hide Items;
  }

  lemma EmptyList(rest: seq<Token>)
    ensures Parse([TListStart] + ([TListEnd] + rest)) == Done(List(Nil), rest)
  {
    var ts := [TListStart] + ([TListEnd] + rest);
    assert ts[2..] == rest;
  }

  lemma GroupOf(inner: seq<Token>, ms: Members, rest: seq<Token>)
    requires Settings(inner, {}) == Done(ms, [TGroupEnd] + rest)
    ensures Parse([TGroupStart] + inner) == Done(Group(ms), rest)
  {
    HeadTail(TGroupStart, inner);
    HeadTail(TGroupEnd, rest);
    hide Settings;
  }

  // ----- the parts of the printed form

  lemma PrintedValues(es: Values, d: Format, end: Token, rest: seq<Token>)
    requires es.Cons? && AllWellFormed(es)
    ensures WellFormed(es.head) && AllWellFormed(es.tail)
    ensures es.tail.Nil? ==> PrintValues(es, d) + ([end] + rest) == Print(es.head, d) + ([end] + rest)
    ensures es.tail.Cons? ==>
      PrintValues(es, d) + ([end] + rest) == Print(es.head, d) + ([TComma] + (PrintValues(es.tail, d) + ([end] + rest)))
    ensures ShownAll(es, d) == Cons(Shown(es.head, d), ShownAll(es.tail, d))
    ensures ShownAll(Nil, d) == Nil
  {
    hide Print, Shown, WellFormed;
  }

  lemma PrintedMembers(ms: Members, d: Format, rest: seq<Token>)
    requires ms.More? && MembersWellFormed(ms) && MembersReadable(ms)
    ensures ValidName(ms.name) && WellFormed(ms.value) && MembersWellFormed(ms.rest) && !HasName(ms.rest, ms.name)
    ensures Readable(ms.value) && MembersReadable(ms.rest)
    ensures PrintMembers(ms, d) + rest
      == [TName(ms.name), TEquals] + (Print(ms.value, d) + ([TSemicolon] + (PrintMembers(ms.rest, d) + rest)))
    ensures ShownMembers(ms, d) == More(ms.name, Shown(ms.value, d), ShownMembers(ms.rest, d))
    ensures forall n :: HasName(ms, n) <==> n == ms.name || HasName(ms.rest, n)
  {
    hide Print, Shown, WellFormed, Readable, ValidName, SameWord;
    assert NameToken(ms.name) == TName(ms.name);
  }

  // ----- reading back

  lemma {:induction false} ElementsBack(es: Values, d: Format, k: Kind, e: Expected, rest: seq<Token>)
    requires es.Cons? && AllWellFormed(es) && AllOfKind(es, k) && k != OtherKind && (e == Any || e == Only(k))
    ensures Elements(PrintValues(es, d) + ([TArrayEnd] + rest), e) == Done(ShownAll(es, d), rest)
    decreases es
  {
    assert KindOf(es.head) == k && AllOfKind(es.tail, k);
    hide *;
    PrintedValues(es, d, TArrayEnd, rest);
    ShownKind(es.head, d);
    var ts := PrintValues(es, d) + ([TArrayEnd] + rest);
    if es.tail.Nil? {
      NoStringAfter(TArrayEnd, rest);
      SimpleBack(es.head, d, [TArrayEnd] + rest);
      ElementsEnd(ts, e, Shown(es.head, d), rest);
    } else {
      var more := PrintValues(es.tail, d) + ([TArrayEnd] + rest);
      NoStringAfter(TComma, more);
      SimpleBack(es.head, d, [TComma] + more);
      ElementsBack(es.tail, d, k, Only(k), rest);
      ElementsMore(ts, e, Shown(es.head, d), more, ShownAll(es.tail, d), rest);
    }
  }

  lemma NoStringAfter(t: Token, ts: seq<Token>)
    requires !t.TString?
    ensures NoString([t] + ts)
    ensures !t.TName? ==> NoName([t] + ts)
  {
  }

  lemma {:induction false} ItemsBack(es: Values, d: Format, rest: seq<Token>)
    requires es.Cons? && AllWellFormed(es) && AllReadable(es)
    ensures Items(PrintValues(es, d) + ([TListEnd] + rest)) == Done(ShownAll(es, d), rest)
    decreases es
  {
    assert Readable(es.head) && AllReadable(es.tail);
    hide *;
    PrintedValues(es, d, TListEnd, rest);
    var ts := PrintValues(es, d) + ([TListEnd] + rest);
    if es.tail.Nil? {
      NoStringAfter(TListEnd, rest);
      ReadBack(es.head, d, [TListEnd] + rest);
      ItemsEnd(ts, Shown(es.head, d), rest);
    } else {
      var more := PrintValues(es.tail, d) + ([TListEnd] + rest);
      NoStringAfter(TComma, more);
      ReadBack(es.head, d, [TComma] + more);
      ItemsBack(es.tail, d, rest);
      ItemsMore(ts, Shown(es.head, d), more, ShownAll(es.tail, d), rest);
    }
  }

  lemma NoSettings(d: Format, seen: set<string>, rest: seq<Token>)
    requires NoName(rest)
    ensures Settings(PrintMembers(End, d) + rest, seen) == Done(End, rest) && ShownMembers(End, d) == End
  {
    assert PrintMembers(End, d) + rest == rest;
  }

  lemma {:induction false} SettingsBack(ms: Members, d: Format, seen: set<string>, rest: seq<Token>)
    requires MembersWellFormed(ms) && MembersReadable(ms) && NoName(rest)
    requires forall n | HasName(ms, n) :: n !in seen
    ensures Settings(PrintMembers(ms, d) + rest, seen) == Done(ShownMembers(ms, d), rest)
    decreases ms
  {
    hide *;
    if ms.End? {
      NoSettings(d, seen, rest);
    } else {
      PrintedMembers(ms, d, rest);
      var more := PrintMembers(ms.rest, d) + rest;
      var ts := Print(ms.value, d) + ([TSemicolon] + more);
      assert HasName(ms, ms.name);
      NoStringAfter(TSemicolon, more);
      ReadBack(ms.value, d, [TSemicolon] + more);
      SettingsBack(ms.rest, d, seen + {ms.name}, rest);
      SettingsMore(ms.name, seen, ts, Shown(ms.value, d), more, ShownMembers(ms.rest, d), rest);
    }
  }

  // What the written form of a compound value is made of.
  lemma CompoundForm(v: Value, d: Format)
    requires WellFormed(v) && Readable(v) && KindOf(v) == OtherKind
    ensures v.Array? ==> AllWellFormed(v.elems) && Print(v, d) == [TArrayStart] + PrintValues(v.elems, d) + [TArrayEnd]
    ensures v.Array? && v.elems.Cons? ==> KindOf(v.elems.head) != OtherKind && AllOfKind(v.elems, KindOf(v.elems.head))
    ensures v.Array? ==> Shown(v, d) == Array(ShownAll(v.elems, d))
    ensures v.List? ==> AllWellFormed(v.items) && Print(v, d) == [TListStart] + PrintValues(v.items, d) + [TListEnd]
    ensures v.List? ==> AllReadable(v.items) && Shown(v, d) == List(ShownAll(v.items, d))
    ensures v.Group? ==> MembersWellFormed(v.members) && MembersReadable(v.members)
    ensures v.Group? ==> Print(v, d) == [TGroupStart] + PrintMembers(v.members, d) + [TGroupEnd]
    ensures v.Group? ==> Shown(v, d) == Group(ShownMembers(v.members, d))
    ensures v.Array? || v.List? || v.Group?
    ensures PrintValues(Nil, d) == [] && ShownAll(Nil, d) == Nil
  {
    hide PrintMembers, ShownMembers;
  }

  lemma Bracketed(a: Token, inner: seq<Token>, b: Token, rest: seq<Token>)
    ensures [a] + inner + [b] + rest == [a] + (inner + ([b] + rest))
  {
  }

  /** The grammar reads the printed form of a value back as the value shown, and stops right behind it. */
  lemma {:induction false} ReadBack(v: Value, d: Format, rest: seq<Token>)
    requires WellFormed(v) && Readable(v) && NoString(rest)
    ensures Parse(Print(v, d) + rest) == Done(Shown(v, d), rest)
    decreases v
  {
    hide *;
    if KindOf(v) != OtherKind {
      SimpleBack(v, d, rest);
    } else {
      CompoundForm(v, d);
      match v
      case Array(es) =>
        Bracketed(TArrayStart, PrintValues(es, d), TArrayEnd, rest);
        if es.Cons? {
          ElementsBack(es, d, KindOf(es.head), Any, rest);
          ArrayOf(PrintValues(es, d) + ([TArrayEnd] + rest), ShownAll(es, d), rest);
        } else {
          EmptyArray(rest);
          assert [] + ([TArrayEnd] + rest) == [TArrayEnd] + rest;
        }
      case List(es) =>
        Bracketed(TListStart, PrintValues(es, d), TListEnd, rest);
        if es.Cons? {
          ItemsBack(es, d, rest);
          ListOf(PrintValues(es, d) + ([TListEnd] + rest), ShownAll(es, d), rest);
        } else {
          EmptyList(rest);
          assert [] + ([TListEnd] + rest) == [TListEnd] + rest;
        }
      case Group(ms) =>
        Bracketed(TGroupStart, PrintMembers(ms, d), TGroupEnd, rest);
        NoStringAfter(TGroupEnd, rest);
        SettingsBack(ms, d, {}, [TGroupEnd] + rest);
        GroupOf(PrintMembers(ms, d) + ([TGroupEnd] + rest), ShownMembers(ms, d), rest);
      case _ =>
    }
  }

  /** Printer and parser are inverse: a written configuration reads back as itself. */
  lemma WriteThenRead(ms: Members, d: Format)
    requires MembersWellFormed(ms) && MembersReadable(ms)
    ensures Read(PrintMembers(ms, d)) == Done(Group(ShownMembers(ms, d)), [])
  {
    hide PrintMembers, ShownMembers, MembersWellFormed, MembersReadable, Settings;
    SettingsBack(ms, d, {}, []);
    assert PrintMembers(ms, d) + [] == PrintMembers(ms, d);
  }

  // ----- names the scanner does not take for names

  // Reading stopped in front of a boolean where a name was meant.
  predicate Stuck(r: Parsed<Members>) {
    r.Fail? || (|r.rest| > 0 && r.rest[0].TBool?)
  }

  lemma SettingsFail(n: string, seen: set<string>, ts: seq<Token>)
    requires Parse(ts).Fail?
    ensures Stuck(Settings([TName(n), TEquals] + ts, seen))
  {
    var all := [TName(n), TEquals] + ts;
    assert all[2..] == ts;
    hide Parse, ValidName;
  }

  lemma SettingsStuck(n: string, seen: set<string>, ts: seq<Token>, v: Value, more: seq<Token>)
    requires Parse(ts) == Done(v, [TSemicolon] + more) && Stuck(Settings(more, seen + {n}))
    ensures Stuck(Settings([TName(n), TEquals] + ts, seen))
  {
    HeadTail(TSemicolon, more);
    var all := [TName(n), TEquals] + ts;
    assert all[2..] == ts;
    hide Parse, ValidName;
  }

  lemma BooleanFirst(n: string, seen: set<string>, ts: seq<Token>)
    requires Reserved(n)
    ensures Stuck(Settings([NameToken(n), TEquals] + ts, seen))
  {
    hide SameWord;
  }

  lemma PrintedFirst(ms: Members, d: Format, rest: seq<Token>)
    requires ms.More? && MembersWellFormed(ms)
    ensures WellFormed(ms.value) && MembersWellFormed(ms.rest)
    ensures PrintMembers(ms, d) + rest
      == [NameToken(ms.name), TEquals] + (Print(ms.value, d) + ([TSemicolon] + (PrintMembers(ms.rest, d) + rest)))
    ensures MembersReadable(ms) <==> !Reserved(ms.name) && Readable(ms.value) && MembersReadable(ms.rest)
    ensures !Reserved(ms.name) ==> NameToken(ms.name) == TName(ms.name)
  {
    hide Print, WellFormed, Readable, ValidName, SameWord;
  }

  lemma {:induction false} SettingsUnreadable(ms: Members, d: Format, seen: set<string>, rest: seq<Token>)
    requires MembersWellFormed(ms) && !MembersReadable(ms)
    ensures Stuck(Settings(PrintMembers(ms, d) + rest, seen))
    decreases ms
  {
    NotEmpty(ms);
    hide *;
    PrintedFirst(ms, d, rest);
    var more := PrintMembers(ms.rest, d) + rest;
    var ts := Print(ms.value, d) + ([TSemicolon] + more);
    NoStringAfter(TSemicolon, more);
    if Reserved(ms.name) {
      BooleanFirst(ms.name, seen, ts);
    } else if !Readable(ms.value) {
      Unreadable(ms.value, d, [TSemicolon] + more);
      SettingsFail(ms.name, seen, ts);
    } else {
      ReadBack(ms.value, d, [TSemicolon] + more);
      SettingsUnreadable(ms.rest, d, seen + {ms.name}, rest);
      SettingsStuck(ms.name, seen, ts, Shown(ms.value, d), more);
    }
  }

  lemma NotEmpty(ms: Members)
    requires !MembersReadable(ms)
    ensures ms.More?
  {
  }

  lemma ItemsFail(ts: seq<Token>)
    requires Parse(ts).Fail?
    ensures Items(ts).Fail?
  {
    hide Parse;
  }

  lemma ItemsFailLater(ts: seq<Token>, v: Value, more: seq<Token>)
    requires Parse(ts) == Done(v, [TComma] + more) && Items(more).Fail?
    ensures Items(ts).Fail?
  {
    HeadTail(TComma, more);
    hide Parse;
  }

  lemma {:induction false} ItemsUnreadable(es: Values, d: Format, rest: seq<Token>)
    requires es.Cons? && AllWellFormed(es) && !AllReadable(es)
    ensures Items(PrintValues(es, d) + ([TListEnd] + rest)).Fail?
    decreases es
  {
    assert Readable(es.head) ==> !AllReadable(es.tail);
    OneReadable(es);
    hide *;
    PrintedValues(es, d, TListEnd, rest);
    var ts := PrintValues(es, d) + ([TListEnd] + rest);
    if es.tail.Nil? {
      NoStringAfter(TListEnd, rest);
      Unreadable(es.head, d, [TListEnd] + rest);
      ItemsFail(ts);
    } else {
      var more := PrintValues(es.tail, d) + ([TListEnd] + rest);
      NoStringAfter(TComma, more);
      if !Readable(es.head) {
        Unreadable(es.head, d, [TComma] + more);
        ItemsFail(ts);
      } else {
        ReadBack(es.head, d, [TComma] + more);
        ItemsUnreadable(es.tail, d, rest);
        ItemsFailLater(ts, Shown(es.head, d), more);
      }
    }
  }

  lemma OneReadable(es: Values)
    requires es.Cons? && !AllReadable(es)
    ensures es.tail.Nil? ==> !Readable(es.head)
  {
  }

  lemma ListFails(inner: seq<Token>)
    requires Items(inner).Fail? && |inner| > 0 && inner[0] != TListEnd
    ensures Parse([TListStart] + inner).Fail?
  {
    HeadTail(TListStart, inner);
    hide Items;
  }

  lemma GroupFails(inner: seq<Token>)
    requires Stuck(Settings(inner, {}))
    ensures Parse([TGroupStart] + inner).Fail?
  {
    HeadTail(TGroupStart, inner);
    hide Settings;
  }

  lemma UnreadableForm(v: Value, d: Format)
    requires WellFormed(v) && !Readable(v)
    ensures v.List? || v.Group?
    ensures v.List? ==> v.items.Cons? && AllWellFormed(v.items) && !AllReadable(v.items)
    ensures v.List? ==> Print(v, d) == [TListStart] + PrintValues(v.items, d) + [TListEnd]
    ensures v.List? ==> WellFormed(v.items.head) && |PrintValues(v.items, d)| > 0
    ensures v.List? ==> PrintValues(v.items, d)[0] == Print(v.items.head, d)[0] != TListEnd
    ensures v.Group? ==> MembersWellFormed(v.members) && !MembersReadable(v.members)
    ensures v.Group? ==> Print(v, d) == [TGroupStart] + PrintMembers(v.members, d) + [TGroupEnd]
  {
    if v.Array? {
      ScalarsReadable(v.elems);
    }
    if v.List? {
      FirstToken(v.items.head, d);
    }
    hide PrintMembers;
  }

  lemma FirstToken(v: Value, d: Format)
    requires WellFormed(v)
    ensures |Print(v, d)| > 0 && Print(v, d)[0] != TListEnd
  {
  }

  lemma {:induction false} ScalarsReadable(es: Values)
    requires es.Cons? ==> KindOf(es.head) != OtherKind && AllOfKind(es, KindOf(es.head))
    ensures AllReadable(es)
    decreases es
  {
    if es.Cons? && es.tail.Cons? {
      ScalarsReadable(es.tail);
    }
  }

  lemma {:induction false} Unreadable(v: Value, d: Format, rest: seq<Token>)
    requires WellFormed(v) && !Readable(v) && NoString(rest)
    ensures Parse(Print(v, d) + rest).Fail?
    decreases v
  {
    hide *;
    UnreadableForm(v, d);
    match v
    case List(es) =>
      Bracketed(TListStart, PrintValues(es, d), TListEnd, rest);
      ItemsUnreadable(es, d, rest);
      ListFails(PrintValues(es, d) + ([TListEnd] + rest));
    case Group(ms) =>
      Bracketed(TGroupStart, PrintMembers(ms, d), TGroupEnd, rest);
      SettingsUnreadable(ms, d, {}, [TGroupEnd] + rest);
      GroupFails(PrintMembers(ms, d) + ([TGroupEnd] + rest));
    case _ =>
  }

  /** A well-formed configuration survives writing and reading exactly when none of its settings is named like
      a boolean; otherwise the written text is refused. */
  lemma ReadsBackIff(ms: Members, d: Format)
    requires MembersWellFormed(ms)
    ensures MembersReadable(ms) ==> Read(PrintMembers(ms, d)) == Done(Group(ShownMembers(ms, d)), [])
    ensures !MembersReadable(ms) ==> Read(PrintMembers(ms, d)).Fail?
  {
    if MembersReadable(ms) {
      WriteThenRead(ms, d);
    } else {
      hide PrintMembers, ShownMembers, MembersWellFormed, MembersReadable, Settings;
      SettingsUnreadable(ms, d, {}, []);
      assert PrintMembers(ms, d) + [] == PrintMembers(ms, d);
    }
  }

  // One setting named "true" is enough: its name scans as a boolean, and the text is refused.
  lemma NamedTrue(d: Format)
    ensures var ms := More("true", Bool(true), End);
      MembersWellFormed(ms) && Read(PrintMembers(ms, d)).Fail?
  {
    var ms := More("true", Bool(true), End);
    assert Reserved("true");
    assert MembersWellFormed(ms) && !MembersReadable(ms);
    hide *;
    ReadsBackIff(ms, d);
  }

  // ----- what reading guarantees

  /** Tokens as the scanner makes them. */
  predicate IsToken(t: Token) {
    match t
    case TInt(i) => -HALF_INT <= i < HALF_INT
    case THex(i) => -HALF_INT <= i < HALF_INT
    case TInt64(j) => -HALF_INT64 <= j < HALF_INT64
    case THex64(j) => -HALF_INT64 <= j < HALF_INT64
    case TString(s) => IsText(s)
    case TName(n) => !Reserved(n)
    case _ => true
  }

  predicate AreTokens(ts: seq<Token>) {
    forall i :: 0 <= i < |ts| ==> IsToken(ts[i])
  }

  lemma TokensFrom(ts: seq<Token>, k: nat)
    requires AreTokens(ts) && k <= |ts|
    ensures AreTokens(ts[k..]) && (|ts| > 0 ==> IsToken(ts[0]))
  {
  }

  lemma {:induction false} StringsText(ts: seq<Token>)
    requires AreTokens(ts)
    ensures IsText(Strings(ts).0) && AreTokens(Strings(ts).1)
  {
    hide IsToken;
    if |ts| > 0 && ts[0].TString? {
      TokensFrom(ts, 1);
      StringsText(ts[1..]);
      TokenText(ts[0]);
    }
  }

  lemma TokenText(t: Token)
    requires IsToken(t) && t.TString?
    ensures IsText(t.s)
  {
  }

  lemma SimpleGood(ts: seq<Token>)
    requires AreTokens(ts) && Simple(ts).Done?
    ensures WellFormed(Simple(ts).value) && Readable(Simple(ts).value) && AreTokens(Simple(ts).rest)
  {
    hide AreTokens, Strings;
    TokensFrom(ts, 1);
    StringsText(ts);
  }

  lemma {:induction false} ElementsGood(ts: seq<Token>, e: Expected)
    requires AreTokens(ts) && Elements(ts, e).Done?
    ensures var r := Elements(ts, e);
      && AllWellFormed(r.value) && AllReadable(r.value) && AreTokens(r.rest)
      && r.value.Cons? && KindOf(r.value.head) != OtherKind && AllOfKind(r.value, KindOf(r.value.head))
      && (e.Only? ==> KindOf(r.value.head) == e.kind)
    decreases |ts|
  {
    hide AreTokens, Simple, WellFormed, Readable;
    SimpleGood(ts);
    var s := Simple(ts);
    if |s.rest| > 0 {
      TokensFrom(s.rest, 1);
      if s.rest[0] == TComma {
        ElementsGood(s.rest[1..], Only(KindOf(s.value)));
      }
    }
  }

  lemma {:induction false} ItemsGood(ts: seq<Token>)
    requires AreTokens(ts) && Items(ts).Done?
    ensures AllWellFormed(Items(ts).value) && AllReadable(Items(ts).value) && AreTokens(Items(ts).rest)
    decreases |ts|, 2
  {
    hide AreTokens, Parse, WellFormed, Readable;
    ParseGood(ts);
    var s := Parse(ts);
    if |s.rest| > 0 {
      TokensFrom(s.rest, 1);
      if s.rest[0] == TComma {
        ItemsGood(s.rest[1..]);
      }
    }
  }

  lemma {:induction false} SettingsGood(ts: seq<Token>, seen: set<string>)
    requires AreTokens(ts) && Settings(ts, seen).Done?
    ensures var r := Settings(ts, seen);
      && MembersWellFormed(r.value) && MembersReadable(r.value) && AreTokens(r.rest)
      && forall n | HasName(r.value, n) :: n !in seen
    decreases |ts|, 0
  {
    hide AreTokens, Parse, WellFormed, Readable, ValidName, Reserved;
    if |ts| > 0 && ts[0].TName? {
      TokensFrom(ts, 0);
      TokensFrom(ts, 2);
      NameIsPlain(ts[0]);
      ParseGood(ts[2..]);
      var v := Parse(ts[2..]);
      TokensFrom(v.rest, 0);
      if |v.rest| > 0 {
        TokensFrom(v.rest, 1);
      }
      SettingsGood(Terminated(v.rest), seen + {ts[0].n});
    }
  }

  lemma NameIsPlain(t: Token)
    requires IsToken(t) && t.TName?
    ensures !Reserved(t.n)
  {
  }

  /** Every value read from the scanner's tokens is well formed, with unique valid names and arrays of one
      kind, and can be written and read again. */
  lemma {:induction false} ParseGood(ts: seq<Token>)
    requires AreTokens(ts) && Parse(ts).Done?
    ensures WellFormed(Parse(ts).value) && Readable(Parse(ts).value) && AreTokens(Parse(ts).rest)
    decreases |ts|, 1
  {
    hide AreTokens, Simple, Elements, Items, Settings, IsToken;
    match ts[0]
    case TArrayStart =>
      if |ts| > 1 && ts[1] == TArrayEnd {
        TokensFrom(ts, 2);
      } else {
        TokensFrom(ts, 1);
        ElementsGood(ts[1..], Any);
      }
    case TListStart =>
      if |ts| > 1 && ts[1] == TListEnd {
        TokensFrom(ts, 2);
      } else {
        TokensFrom(ts, 1);
        ItemsGood(ts[1..]);
      }
    case TGroupStart =>
      TokensFrom(ts, 1);
      SettingsGood(ts[1..], {});
      TokensFrom(Settings(ts[1..], {}).rest, 1);
    case _ =>
      SimpleGood(ts);
  }

  /** Whatever text was read, writing the result and reading it again gives the same configuration, each number
      in the format it is written in. */
  lemma ReadWriteRead(ts: seq<Token>, d: Format)
    requires AreTokens(ts) && Read(ts).Done?
    ensures Read(ts).value.Group? && WellFormed(Read(ts).value)
    ensures Read(PrintMembers(Read(ts).value.members, d)) == Done(Shown(Read(ts).value, d), [])
  {
    hide AreTokens, Settings, MembersWellFormed, MembersReadable, PrintMembers, ShownMembers;
    SettingsGood(ts, {});
    WriteThenRead(Read(ts).value.members, d);
  }

  // With the plain default format nothing is reformatted.
  lemma {:induction false} ShownPlain(v: Value)
    ensures Shown(v, Plain) == v
    decreases v
  {
    match v
    case Array(es) => ShownAllPlain(es);
    case List(es) => ShownAllPlain(es);
    case Group(ms) => ShownMembersPlain(ms);
    case _ =>
  }

  lemma {:induction false} ShownAllPlain(es: Values)
    ensures ShownAll(es, Plain) == es
    decreases es
  {
    if es.Cons? {
      ShownPlain(es.head);
      ShownAllPlain(es.tail);
    }
  }

  lemma {:induction false} ShownMembersPlain(ms: Members)
    ensures ShownMembers(ms, Plain) == ms
    decreases ms
  {
    if ms.More? {
      ShownPlain(ms.value);
      ShownMembersPlain(ms.rest);
    }
  }
}
