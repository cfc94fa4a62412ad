/** Configuration trees, the tokens the writer prints for them, and the grammar that reads tokens back. */
module Config {
  import opened Lexemes

  datatype Format = Plain | Hex

  datatype Value =
    | Bool(b: bool)
    | Int(i: int, format: Format)
    | Int64(j: int, format: Format)
    | Text(s: string)
    | Array(elems: Values)
    | List(items: Values)
    | Group(members: Members)

  datatype Values = Nil | Cons(head: Value, tail: Values)

  datatype Members = End | More(name: string, value: Value, rest: Members)

  // ----- well-formed trees

  predicate IsAlpha(c: char) {
    'a' <= c <= 'z' || 'A' <= c <= 'Z'
  }

  /** `__config_validate_name`, which is also the pattern of a name token. */
  predicate ValidName(n: string) {
    && |n| > 0
    && (IsAlpha(n[0]) || n[0] == '*')
    && forall i :: 0 < i < |n| ==> IsAlpha(n[i]) || '0' <= n[i] <= '9' || n[i] in "*_-"
  }

  predicate SameWord(n: string, w: string) {
    |n| == |w| && forall i :: 0 <= i < |n| ==> n[i] == w[i] || (n[i] as int) + 32 == w[i] as int
  }

  /** A name the scanner would take for a boolean, in any mixture of cases. */
  predicate Reserved(n: string) {
    SameWord(n, "true") || SameWord(n, "false")
  }

  datatype Kind = BoolKind | IntKind | Int64Kind | TextKind | OtherKind

  function KindOf(v: Value): Kind {
    match v
    case Bool(_) => BoolKind
    case Int(_, _) => IntKind
    case Int64(_, _) => Int64Kind
    case Text(_) => TextKind
    case _ => OtherKind
  }

  predicate HasName(ms: Members, n: string) {
    match ms
    case End => false
    case More(m, _, rest) => m == n || HasName(rest, n)
  }

  predicate AllOfKind(vs: Values, k: Kind) {
    match vs
    case Nil => true
    case Cons(h, t) => KindOf(h) == k && AllOfKind(t, k)
  }

  /** Numbers in range, C strings, arrays of scalars of one kind, valid and distinct names in a group. */
  predicate WellFormed(v: Value) {
    match v
    case Bool(_) => true
    case Int(i, _) => -HALF_INT <= i < HALF_INT
    case Int64(j, _) => -HALF_INT64 <= j < HALF_INT64
    case Text(s) => IsText(s)
    case Array(es) => AllWellFormed(es) && (es.Cons? ==> KindOf(es.head) != OtherKind && AllOfKind(es, KindOf(es.head)))
    case List(es) => AllWellFormed(es)
    case Group(ms) => MembersWellFormed(ms)
  }

  predicate AllWellFormed(vs: Values) {
    match vs
    case Nil => true
    case Cons(h, t) => WellFormed(h) && AllWellFormed(t)
  }

  predicate MembersWellFormed(ms: Members) {
    match ms
    case End => true
    case More(n, v, rest) => ValidName(n) && !HasName(rest, n) && WellFormed(v) && MembersWellFormed(rest)
  }

  /** No setting anywhere in the tree has a reserved name. */
  predicate Readable(v: Value) {
    match v
    case Array(es) => AllReadable(es)
    case List(es) => AllReadable(es)
    case Group(ms) => MembersReadable(ms)
    case _ => true
  }

  predicate AllReadable(vs: Values) {
    match vs
    case Nil => true
    case Cons(h, t) => Readable(h) && AllReadable(t)
  }

  predicate MembersReadable(ms: Members) {
    match ms
    case End => true
    case More(n, v, rest) => !Reserved(n) && Readable(v) && MembersReadable(rest)
  }

  // ----- writing

  datatype Token =
    | TBool(b: bool) | TInt(i: int) | THex(i: int) | TInt64(j: int) | THex64(j: int)
    | TString(s: string) | TName(n: string)
    | TEquals | TArrayStart | TArrayEnd | TListStart | TListEnd | TComma
    | TGroupStart | TGroupEnd | TSemicolon | TGarbage

  /** The format a number is written in: its own, or the configuration's default. */
  function Effective(f: Format, d: Format): Format {
    if f == Plain then d else f
  }

  function NumberToken(n: Number): Token {
    match n
    case Short(i) => TInt(i)
    case ShortHex(i) => THex(i)
    case Long(j) => TInt64(j)
    case LongHex(j) => THex64(j)
    case NotNumber => TGarbage
  }

  /** The printed text of an integer. */
  function IntText(i: int, f: Format): string
    requires -HALF_INT <= i < HALF_INT
  {
    if f == Hex then "0x" + PrintHex(i, HALF_INT) else PrintDecimal(i)
  }

  function Int64Text(j: int, f: Format): string
    requires -HALF_INT64 <= j < HALF_INT64
  {
    (if f == Hex then "0x" + PrintHex(j, HALF_INT64) else PrintDecimal(j)) + "L"
  }

  /** The token the scanner makes of a printed integer, by the rule its text matches. */
  function IntToken(i: int, f: Format): (t: Token)
    requires -HALF_INT <= i < HALF_INT
    ensures t == if f == Hex then THex(i) else TInt(i)
  {
    NumberRoundTrip(i);
    NumberToken(ScanNumber(IntText(i, f)))
  }

  function Int64Token(j: int, f: Format): (t: Token)
    requires -HALF_INT64 <= j < HALF_INT64
    ensures t == if f == Hex then THex64(j) else TInt64(j)
  {
    NumberRoundTrip(j);
    NumberToken(ScanNumber(Int64Text(j, f)))
  }

  /** The token the scanner makes of a printed string. */
  function StringToken(s: string): (t: Token)
    requires IsText(s)
    ensures t == TString(s)
  {
    EscapeRoundTrip(s, "");
    assert Escape(s) + "\"" + "" == Escape(s) + "\"";
    TString(ScanString(Escape(s) + "\"").text)
  }

  /** The token the scanner makes of a printed boolean. */
  function BoolToken(b: bool): (t: Token)
    ensures t == TBool(b)
  {
    NameToken(if b then "true" else "false")
  }

  /** The token the scanner makes of a printed name: the boolean rules come first. */
  function NameToken(n: string): Token {
    if SameWord(n, "true") then TBool(true) else if SameWord(n, "false") then TBool(false) else TName(n)
  }

  function Print(v: Value, d: Format): seq<Token>
    requires WellFormed(v)
  {
    match v
    case Bool(b) => [BoolToken(b)]
    case Int(i, f) => [IntToken(i, Effective(f, d))]
    case Int64(j, f) => [Int64Token(j, Effective(f, d))]
    case Text(s) => [StringToken(s)]
    case Array(es) => [TArrayStart] + PrintValues(es, d) + [TArrayEnd]
    case List(es) => [TListStart] + PrintValues(es, d) + [TListEnd]
    case Group(ms) => [TGroupStart] + PrintMembers(ms, d) + [TGroupEnd]
  }

  function PrintValues(vs: Values, d: Format): seq<Token>
    requires AllWellFormed(vs)
  {
    match vs
    case Nil => []
    case Cons(h, t) => Print(h, d) + (if t.Nil? then [] else [TComma] + PrintValues(t, d))
  }

  function PrintMembers(ms: Members, d: Format): seq<Token>
    requires MembersWellFormed(ms)
  {
    match ms
    case End => []
    case More(n, v, rest) => [NameToken(n), TEquals] + Print(v, d) + [TSemicolon] + PrintMembers(rest, d)
  }

  /** The tree with every number in the format it is written in. */
  function Shown(v: Value, d: Format): Value {
    match v
    case Int(i, f) => Int(i, Effective(f, d))
    case Int64(j, f) => Int64(j, Effective(f, d))
    case Array(es) => Array(ShownAll(es, d))
    case List(es) => List(ShownAll(es, d))
    case Group(ms) => Group(ShownMembers(ms, d))
    case _ => v
  }

  function ShownAll(vs: Values, d: Format): Values {
    match vs
    case Nil => Nil
    case Cons(h, t) => Cons(Shown(h, d), ShownAll(t, d))
  }

  function ShownMembers(ms: Members, d: Format): Members {
    match ms
    case End => End
    case More(n, v, rest) => More(n, Shown(v, d), ShownMembers(rest, d))
  }

  // ----- reading

  datatype Error = SyntaxError | DuplicateSetting | MismatchedElement

  datatype Parsed<T> = Fail(error: Error) | Done(value: T, rest: seq<Token>)

  /** Adjacent strings are joined. */
  function Strings(ts: seq<Token>): (r: (string, seq<Token>))
    ensures |r.1| <= |ts|
    ensures |ts| > 0 && ts[0].TString? ==> |r.1| < |ts|
  {
    if |ts| > 0 && ts[0].TString? then
      var r := Strings(ts[1..]);
      (ts[0].s + r.0, r.1)
    else ("", ts)
  }

  function Simple(ts: seq<Token>): (r: Parsed<Value>)
    ensures r.Done? ==> |r.rest| < |ts| && KindOf(r.value) != OtherKind
  {
    if |ts| == 0 then Fail(SyntaxError) else
    match ts[0]
    case TBool(b) => Done(Bool(b), ts[1..])
    case TInt(i) => Done(Int(i, Plain), ts[1..])
    case THex(i) => Done(Int(i, Hex), ts[1..])
    case TInt64(j) => Done(Int64(j, Plain), ts[1..])
    case THex64(j) => Done(Int64(j, Hex), ts[1..])
    case TString(_) => var r := Strings(ts); Done(Text(r.0), r.1)
    case _ => Fail(SyntaxError)
  }

  datatype Expected = Any | Only(kind: Kind)

  /** Array elements up to the closing bracket; the first one fixes the kind. */
  function Elements(ts: seq<Token>, e: Expected): (r: Parsed<Values>)
    ensures r.Done? ==> |r.rest| < |ts|
    decreases |ts|
  {
    var s := Simple(ts);
    if s.Fail? then Fail(s.error)
    else if e.Only? && e.kind != KindOf(s.value) then Fail(MismatchedElement)
    else if |s.rest| > 0 && s.rest[0] == TComma then
      var t := Elements(s.rest[1..], Only(KindOf(s.value)));
      if t.Fail? then t else Done(Cons(s.value, t.value), t.rest)
    else if |s.rest| > 0 && s.rest[0] == TArrayEnd then Done(Cons(s.value, Nil), s.rest[1..])
    else Fail(SyntaxError)
  }

  function Parse(ts: seq<Token>): (r: Parsed<Value>)
    ensures r.Done? ==> |r.rest| < |ts|
    decreases |ts|, 1
  {
    if |ts| == 0 then Fail(SyntaxError) else
    match ts[0]
    case TArrayStart =>
      if |ts| > 1 && ts[1] == TArrayEnd then Done(Array(Nil), ts[2..])
      else var r := Elements(ts[1..], Any); if r.Fail? then Fail(r.error) else Done(Array(r.value), r.rest)
    case TListStart =>
      if |ts| > 1 && ts[1] == TListEnd then Done(List(Nil), ts[2..])
      else var r := Items(ts[1..]); if r.Fail? then Fail(r.error) else Done(List(r.value), r.rest)
    case TGroupStart =>
      var r := Settings(ts[1..], {});
      if r.Fail? then Fail(r.error)
      else if |r.rest| > 0 && r.rest[0] == TGroupEnd then Done(Group(r.value), r.rest[1..])
      else Fail(SyntaxError)
    case _ => Simple(ts)
  }

  /** List elements up to the closing parenthesis. */
  function Items(ts: seq<Token>): (r: Parsed<Values>)
    ensures r.Done? ==> |r.rest| < |ts|
    decreases |ts|, 2
  {
    var s := Parse(ts);
    if s.Fail? then Fail(s.error)
    else if |s.rest| > 0 && s.rest[0] == TComma then
      var t := Items(s.rest[1..]);
      if t.Fail? then t else Done(Cons(s.value, t.value), t.rest)
    else if |s.rest| > 0 && s.rest[0] == TListEnd then Done(Cons(s.value, Nil), s.rest[1..])
    else Fail(SyntaxError)
  }

  function Terminated(ts: seq<Token>): (r: seq<Token>)
    ensures |r| <= |ts|
  {
    if |ts| > 0 && (ts[0] == TSemicolon || ts[0] == TComma) then ts[1..] else ts
  }

  /** Settings as long as a name follows; `seen` are the names the group already has. */
  function Settings(ts: seq<Token>, seen: set<string>): (r: Parsed<Members>)
    ensures r.Done? ==> |r.rest| <= |ts|
    decreases |ts|, 0
  {
    if |ts| == 0 || !ts[0].TName? then Done(End, ts)
    else if !ValidName(ts[0].n) || ts[0].n in seen then Fail(DuplicateSetting)
    else if |ts| == 1 || ts[1] != TEquals then Fail(SyntaxError)
    else
      var v := Parse(ts[2..]);
      if v.Fail? then Fail(v.error) else
      var m := Settings(Terminated(v.rest), seen + {ts[0].n});
      if m.Fail? then m else Done(More(ts[0].n, v.value, m.value), m.rest)
  }

  /** A whole configuration. */
  function Read(ts: seq<Token>): (r: Parsed<Value>)
  {
    var m := Settings(ts, {});
    if m.Fail? then Fail(m.error) else if m.rest == [] then Done(Group(m.value), []) else Fail(SyntaxError)
  }
}
