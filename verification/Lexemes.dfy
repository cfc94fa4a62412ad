/** The text of single values: escaped strings and numbers, as the writer prints and the scanner reads them. */
module Lexemes {

  /** The characters a C string can hold. */
  predicate IsText(s: string) {
    forall i :: 0 <= i < |s| ==> 0 < s[i] as int < 256
  }

  const DIGITS: string := "0123456789ABCDEF"

  /** `\x%02X` */
  function HexPair(c: int): (s: string)
    requires 0 <= c < 256
    ensures |s| == 2
  {
    [DIGITS[c / 16], DIGITS[c % 16]]
  }

  /** The writer's form of one character. */
  function EscapeChar(c: char): (s: string)
    requires 0 < c as int < 256
    ensures |s| > 0
  {
    if c == '\"' || c == '\\' then ['\\', c]
    else if c == '\n' then "\\n"
    else if c == '\r' then "\\r"
    else if c == '\U{c}' then "\\f"
    else if c == '\t' then "\\t"
    else if c as int >= ' ' as int then [c]
    else "\\x" + HexPair(c as int)
  }

  /** A string between its quotes. */
  function Escape(s: string): string
    requires IsText(s)
  {
    if |s| == 0 then "" else EscapeChar(s[0]) + Escape(s[1..])
  }

  predicate IsHexDigit(c: char) {
    '0' <= c <= '9' || 'A' <= c <= 'F' || 'a' <= c <= 'f'
  }

  function HexValue(c: char): (v: nat)
    requires IsHexDigit(c)
    ensures v < 16
  {
    if c <= '9' then c as int - '0' as int
    else if c <= 'F' then c as int - 'A' as int + 10
    else c as int - 'a' as int + 10
  }

  datatype Scanned = Unterminated | Scanned(text: string, rest: string)

  function Prefixed(c: string, r: Scanned): Scanned {
    if r.Unterminated? then r else Scanned(c + r.text, r.rest)
  }

  /** A one-character C string; a zero ends it at once. */
  function CString(c: nat): string
    requires c < 256
  {
    if c == 0 then "" else [c as char]
  }

  /** The string state of the scanner, up to the closing quote. The longest rule wins; a backslash that starts
      no escape stands for itself. */
  function ScanString(t: string): (r: Scanned)
    ensures r.Scanned? ==> |r.rest| < |t|
  {
    if |t| == 0 then Unterminated
    else if t[0] == '\"' then Scanned("", t[1..])
    else if t[0] != '\\' then Prefixed([t[0]], ScanString(t[1..]))
    else if |t| == 1 then Unterminated
    else if t[1] == 'n' then Prefixed("\n", ScanString(t[2..]))
    else if t[1] == 'r' then Prefixed("\r", ScanString(t[2..]))
    else if t[1] == 't' then Prefixed("\t", ScanString(t[2..]))
    else if t[1] == 'f' then Prefixed("\U{c}", ScanString(t[2..]))
    else if t[1] == '\\' then Prefixed("\\", ScanString(t[2..]))
    else if t[1] == '\"' then Prefixed("\"", ScanString(t[2..]))
    else if |t| >= 4 && (t[1] == 'x' || t[1] == 'X') && IsHexDigit(t[2]) && IsHexDigit(t[3]) then
      Prefixed(CString(16 * HexValue(t[2]) + HexValue(t[3])), ScanString(t[4..]))
    else Prefixed("\\", ScanString(t[1..]))
  }

  lemma HexPairValue(c: int)
    requires 0 <= c < 256
    ensures var p := HexPair(c);
      IsHexDigit(p[0]) && IsHexDigit(p[1]) && 16 * HexValue(p[0]) + HexValue(p[1]) == c
  {
    DigitValue(c / 16);
    DigitValue(c % 16);
  }

  lemma DigitValue(d: nat)
    requires d < 16
    ensures IsHexDigit(DIGITS[d]) && HexValue(DIGITS[d]) == d
  {
  }

  /** The letter after the backslash of a two-character escape, and what it stands for. */
  predicate ShortEscape(e: char, c: char) {
    || (e == 'n' && c == '\n') || (e == 'r' && c == '\r') || (e == 't' && c == '\t') || (e == 'f' && c == '\U{c}')
    || (e == '\\' && c == '\\') || (e == '\"' && c == '\"')
  }

  lemma ScanShort(e: char, c: char, u: string)
    requires |u| >= 2 && u[0] == '\\' && u[1] == e && ShortEscape(e, c)
    ensures ScanString(u) == Prefixed([c], ScanString(u[2..]))
  {
    hide Prefixed, IsHexDigit, HexValue;
  }

  lemma HexRule(u: string)
    requires |u| >= 4 && u[0] == '\\' && (u[1] == 'x' || u[1] == 'X') && IsHexDigit(u[2]) && IsHexDigit(u[3])
    ensures ScanString(u) == Prefixed(CString(16 * HexValue(u[2]) + HexValue(u[3])), ScanString(u[4..]))
  {
    hide Prefixed, IsHexDigit, HexValue;
  }

  lemma ScanHex(c: int, u: string, t: string)
    requires 0 < c < 256 && u == "\\x" + HexPair(c) + t
    ensures ScanString(u) == Prefixed([c as char], ScanString(t))
  {
    hide *;
    HexPairValue(c);
    var p := HexPair(c);
    assert u[0] == '\\' && u[1] == 'x' && u[2] == p[0] && u[3] == p[1] && u[4..] == t;
    HexRule(u);
    OneCharacter(c);
  }

  lemma OneCharacter(c: nat)
    requires 0 < c < 256
    ensures CString(c) == [c as char]
  {
  }

  lemma ScanPlain(u: string)
    requires |u| >= 1 && u[0] != '\\' && u[0] != '\"'
    ensures ScanString(u) == Prefixed([u[0]], ScanString(u[1..]))
  {
  }

  lemma EscapeForms(c: char)
    requires 0 < c as int < 256
    ensures var e := EscapeChar(c);
      || (|e| == 2 && e[0] == '\\' && ShortEscape(e[1], c))
      || e == "\\x" + HexPair(c as int)
      || (e == [c] && c != '\\' && c != '\"')
  {
  }

  lemma ScanEscaped(c: char, t: string)
    requires 0 < c as int < 256
    ensures ScanString(EscapeChar(c) + t) == Prefixed([c], ScanString(t))
  {
    EscapeForms(c);
    hide *;
    var e := EscapeChar(c);
    var u := e + t;
    if e == "\\x" + HexPair(c as int) {
      ScanHex(c as int, u, t);
    } else if |e| == 2 {
      assert u[2..] == t && u[0] == e[0] && u[1] == e[1];
      ScanShort(e[1], c, u);
    } else {
      assert u[1..] == t && u[0] == c;
      ScanPlain(u);
    }
  }

  /** Scanning what the writer printed gives the string back, and stops behind its closing quote. */
  lemma {:induction false} EscapeRoundTrip(s: string, t: string)
    requires IsText(s)
    ensures ScanString(Escape(s) + "\"" + t) == Scanned(s, t)
  {
    if |s| == 0 {
      assert Escape(s) + "\"" + t == ['\"'] + t;
      assert (['\"'] + t)[1..] == t;
    } else {
      var u := Escape(s[1..]) + "\"" + t;
      assert Escape(s) + "\"" + t == EscapeChar(s[0]) + u;
      ScanEscaped(s[0], u);
      EscapeRoundTrip(s[1..], t);
      assert s == [s[0]] + s[1..];
    }
  }

  // ----- numbers

  function Digits(n: nat, b: nat): (s: string)
    requires 2 <= b <= 16
    ensures |s| > 0
  {
    if n < b then [DIGITS[n]] else
      DigitOf(n, b);
      Digits(n / b, b) + [DIGITS[n % b]]
  }

  lemma DigitOf(n: nat, b: nat)
    requires 2 <= b <= n
    ensures 0 <= n / b < n && n == b * (n / b) + n % b
  {
    var q := n / b;
    assert n == b * q + n % b;
    assert b * q == 2 * q + (b - 2) * q;
    assert (b - 2) * q >= 0;
  }

  predicate AllDigits(s: string) {
    forall i :: 0 <= i < |s| ==> IsHexDigit(s[i])
  }

  predicate IsDigit(c: char) {
    '0' <= c <= '9'
  }

  predicate AllDecimal(s: string) {
    forall i :: 0 <= i < |s| ==> IsDigit(s[i])
  }

  function ReadDigits(s: string, b: nat): nat
    requires AllDigits(s)
  {
    if |s| == 0 then 0 else b * ReadDigits(s[..|s| - 1], b) + HexValue(s[|s| - 1])
  }

  lemma {:induction false} DigitsRoundTrip(n: nat, b: nat)
    requires 2 <= b <= 16
    ensures AllDigits(Digits(n, b)) && ReadDigits(Digits(n, b), b) == n
  {
    var s := Digits(n, b);
    var last: nat := if n < b then n else n % b;
    DigitValue(last);
    hide IsHexDigit, HexValue;
    if n < b {
      assert s[..0] == "";
      assert b * ReadDigits("", b) == 0;
    } else {
      DigitOf(n, b);
      DigitsRoundTrip(n / b, b);
      var t := Digits(n / b, b);
      assert s[..|s| - 1] == t;
      assert forall i :: 0 <= i < |s| ==> s[i] == if i < |t| then t[i] else DIGITS[last];
    }
  }

  lemma {:induction false} DecimalDigits(n: nat)
    ensures AllDecimal(Digits(n, 10))
  {
    if n >= 10 {
      DigitOf(n, 10);
      DecimalDigits(n / 10);
      assert IsDigit(DIGITS[n % 10]);
    }
  }

  lemma DecimalIsHex(s: string)
    requires AllDecimal(s)
    ensures AllDigits(s)
  {
  }

  function Unsigned(s: string): string {
    if |s| > 0 && (s[0] == '-' || s[0] == '+') then s[1..] else s
  }

  /** The scanner's `integer`: an optional sign, then decimal digits. */
  predicate MatchesInteger(s: string) {
    |Unsigned(s)| > 0 && AllDecimal(Unsigned(s))
  }

  /** The scanner's `hex`. */
  predicate MatchesHex(s: string) {
    |s| > 2 && s[0] == '0' && (s[1] == 'x' || s[1] == 'X') && AllDigits(s[2..])
  }

  predicate IsLong(s: string) {
    |s| > 0 && s[|s| - 1] == 'L'
  }

  /** A number without its suffix `L` or `LL`. */
  function Stem(s: string): string {
    if !IsLong(s) then s
    else if IsLong(s[..|s| - 1]) then s[..|s| - 2]
    else s[..|s| - 1]
  }

  /** `%d` and its 64-bit sibling. */
  function PrintDecimal(i: int): (s: string)
    ensures |s| > 0
  {
    if i < 0 then "-" + Digits(-i, 10) else Digits(i, 10)
  }

  /** `atoi`, `atoll`: an optional sign, then digits. */
  function ReadDecimal(s: string): int
    requires MatchesInteger(s)
  {
    DecimalIsHex(Unsigned(s));
    if s[0] == '-' then -(ReadDigits(Unsigned(s), 10) as int) else ReadDigits(Unsigned(s), 10)
  }

  /** A printed number matches the scanner's rule for integers and reads back as itself. */
  lemma DecimalRoundTrip(i: int)
    ensures MatchesInteger(PrintDecimal(i)) && ReadDecimal(PrintDecimal(i)) == i
  {
    var s := PrintDecimal(i);
    var n: nat := if i < 0 then -i else i;
    DigitsRoundTrip(n, 10);
    DecimalDigits(n);
    hide Digits, ReadDigits;
    assert IsDigit(Digits(n, 10)[0]);
    assert Unsigned(s) == Digits(n, 10);
  }

  /** The unsigned pattern of a two's complement number of `half * 2` values. */
  function ToUnsigned(i: int, half: int): (u: nat)
    requires -half <= i < half
    ensures u < 2 * half
  {
    if i < 0 then i + 2 * half else i
  }

  function ToSigned(u: nat, half: int): (i: int)
    requires u < 2 * half
    ensures -half <= i < half
  {
    if u < half then u else u - 2 * half
  }

  const HALF_INT: int := 0x8000_0000

  const HALF_INT64: int := 0x8000_0000_0000_0000

  /** The hexadecimal form of a signed number: the digits of its unsigned pattern. */
  function PrintHex(i: int, half: int): string
    requires -half <= i < half
  {
    Digits(ToUnsigned(i, half), 16)
  }

  lemma HexRoundTrip(i: int, half: int)
    requires -half <= i < half
    ensures AllDigits(PrintHex(i, half))
    ensures ReadDigits(PrintHex(i, half), 16) < 2 * half && ToSigned(ReadDigits(PrintHex(i, half), 16), half) == i
  {
    DigitsRoundTrip(ToUnsigned(i, half), 16);
  }

  /** `strtoul` and `strtoull` on 64-bit machines. */
  function ReadHex(s: string): (u: nat)
    requires MatchesHex(s)
    ensures u < 2 * HALF_INT64
  {
    var u := ReadDigits(s[2..], 16);
    if u < 2 * HALF_INT64 then u else 2 * HALF_INT64 - 1
  }

  /** What a whole lexeme means as a number, by the rule it matches. */
  datatype Number = NotNumber | Short(i: int) | ShortHex(i: int) | Long(j: int) | LongHex(j: int)

  function ScanNumber(s: string): Number {
    if MatchesInteger(s) then Short(ReadDecimal(s))
    else if MatchesHex(s) then ShortHex(ToSigned(ReadHex(s) % (2 * HALF_INT), HALF_INT))
    else if IsLong(s) && MatchesInteger(Stem(s)) then Long(ReadDecimal(Stem(s)))
    else if IsLong(s) && MatchesHex(Stem(s)) then LongHex(ToSigned(ReadHex(Stem(s)), HALF_INT64))
    else NotNumber
  }

  lemma StemOf(s: string)
    requires !IsLong(s)
    ensures IsLong(s + "L") && Stem(s + "L") == s
  {
    var t := s + "L";
    assert t[..|t| - 1] == s;
  }

  // No two rules match the same text.
  lemma OneRule(s: string)
    ensures MatchesInteger(s) ==> !MatchesHex(s) && !IsLong(s)
    ensures MatchesHex(s) ==> !MatchesInteger(s) && !IsLong(s)
  {
    if MatchesInteger(s) {
      var t := Unsigned(s);
      assert IsDigit(t[|t| - 1]) && t[|t| - 1] == s[|s| - 1];
      if |s| > 2 && s[0] == '0' {
        assert t == s && IsDigit(t[1]);
      }
    }
    if MatchesHex(s) {
      var t := s[2..];
      assert IsHexDigit(t[|t| - 1]) && t[|t| - 1] == s[|s| - 1];
    }
  }

  lemma HexText(i: int, half: int)
    requires -half <= i < half <= HALF_INT64
    ensures var s := "0x" + PrintHex(i, half);
      MatchesHex(s) && ReadHex(s) == ToUnsigned(i, half)
  {
    HexRoundTrip(i, half);
    var s := "0x" + PrintHex(i, half);
    assert s[2..] == PrintHex(i, half);
    DigitsRoundTrip(ToUnsigned(i, half), 16);
  }

  lemma SignedUnsigned(i: int, half: int)
    requires -half <= i < half
    ensures ToSigned(ToUnsigned(i, half), half) == i
  {
  }

  /** Of the four printed forms of numbers each matches the rule of its own format and width, and no other. */
  lemma NumberRoundTrip(i: int)
    ensures -HALF_INT <= i < HALF_INT ==> ScanNumber(PrintDecimal(i)) == Short(i)
    ensures -HALF_INT <= i < HALF_INT ==> ScanNumber("0x" + PrintHex(i, HALF_INT)) == ShortHex(i)
    ensures ScanNumber(PrintDecimal(i) + "L") == Long(i)
    ensures -HALF_INT64 <= i < HALF_INT64 ==> ScanNumber("0x" + PrintHex(i, HALF_INT64) + "L") == LongHex(i)
  {
    DecimalRoundTrip(i);
    hide MatchesInteger, MatchesHex, ReadHex, ReadDecimal, IsLong, Stem, ToSigned, ToUnsigned, PrintHex, PrintDecimal;
    var d := PrintDecimal(i);
    OneRule(d);
    OneRule(d + "L");
    StemOf(d);
    if -HALF_INT <= i < HALF_INT {
      HexText(i, HALF_INT);
      SignedUnsigned(i, HALF_INT);
      OneRule("0x" + PrintHex(i, HALF_INT));
    }
    if -HALF_INT64 <= i < HALF_INT64 {
      HexText(i, HALF_INT64);
      SignedUnsigned(i, HALF_INT64);
      var h := "0x" + PrintHex(i, HALF_INT64);
      OneRule(h);
      OneRule(h + "L");
      StemOf(h);
    }
  }
}
