/** All the texts that mean the same number or character, beyond the ones the writer prints. */
module Spelling {
  import opened Bits
  import opened Lexemes
  import opened Config

  /** A letter in upper case. */
  function Upper(c: char): char {
    if 'a' <= c <= 'z' then ((c as int) - 32) as char else c
  }

  function Folded(s: string): (r: string)
    ensures |r| == |s| && forall i :: 0 <= i < |s| ==> r[i] == Upper(s[i])
  {
    seq(|s|, i requires 0 <= i < |s| => Upper(s[i]))
  }

  /** Zeros in front of a number. */
  function Zeros(k: nat): (z: string)
    ensures |z| == k && forall i :: 0 <= i < k ==> z[i] == '0'
  {
    seq(k, _ => '0')
  }

  // A digit is the printed form of its value, in either case.
  lemma DigitFolded(c: char)
    requires IsHexDigit(c)
    ensures Upper(c) == DIGITS[HexValue(c)] && IsHexDigit(Upper(c)) && HexValue(Upper(c)) == HexValue(c)
    ensures IsDigit(c) ==> HexValue(c) < 10
  {
  }

  predicate DigitsBelow(s: string, b: nat) {
    forall i :: 0 <= i < |s| ==> IsHexDigit(s[i]) && HexValue(s[i]) < b
  }

  lemma DigitsUnfold(n: nat, b: nat)
    requires 2 <= b <= 16
    ensures n < b ==> Digits(n, b) == [DIGITS[n]]
    ensures n >= b ==> 0 <= n % b < b && n / b >= 0 && Digits(n, b) == Digits(n / b, b) + [DIGITS[n % b]]
  {
    if n >= b {
      DigitOf(n, b);
    }
  }

  lemma DigitsStep(m: nat, v: nat, b: nat)
    requires 2 <= b <= 16 && v < b
    ensures b * m + v >= 0
    ensures m > 0 ==> Digits(b * m + v, b) == Digits(m, b) + [DIGITS[v]]
    ensures m == 0 ==> Digits(b * m + v, b) == [DIGITS[v]]
  {
    hide *;
    ProductGrows(b, m);
    DigitsUnfold(b * m + v, b);
    QuotientIs(m, v, b);
  }

  lemma ProductGrows(b: nat, m: nat)
    ensures b * m >= 0 && (m == 0 ==> b * m == 0) && (m > 0 ==> b * m >= b)
  {
    if m > 0 {
      assert b * m == b + b * (m - 1);
    }
  }

  lemma QuotientIs(m: nat, v: nat, b: nat)
    requires v < b
    ensures (b * m + v) / b == m && (b * m + v) % b == v
  {
    var n: int := b * m + v;
    var q, r := n / b, n % b;
    assert n == b * q + r && 0 <= r < b;
    assert (q - m) * b == b * q - b * m;
    MultipleInRange(q - m, b);
  }

  lemma ReadStep(t: string, c: char, b: nat)
    requires AllDigits(t) && IsHexDigit(c)
    ensures AllDigits(t + [c]) && ReadDigits(t + [c], b) == b * ReadDigits(t, b) + HexValue(c)
  {
    var s := t + [c];
    assert s[..|s| - 1] == t;
    hide IsHexDigit, HexValue;
  }

  lemma ReadNothing(b: nat)
    ensures AllDigits("") && ReadDigits("", b) == 0
  {
  }

  lemma FoldedAppend(t: string, c: char)
    ensures Folded(t + [c]) == Folded(t) + [Upper(c)]
  {
  }

  lemma BelowParts(t: string, c: char, b: nat)
    requires DigitsBelow(t + [c], b)
    ensures DigitsBelow(t, b) && IsHexDigit(c) && HexValue(c) < b
  {
    var s := t + [c];
    assert s[|t|] == c;
    assert forall i :: 0 <= i < |t| ==> s[i] == t[i];
    hide HexValue, IsHexDigit;
  }

  /** Any digits of either case are, folded to upper case, zeros in front of the printed form of their value. */
  lemma {:induction false} AnyDigits(s: string, b: nat)
    requires 2 <= b <= 16 && |s| > 0 && DigitsBelow(s, b)
    ensures AllDigits(s)
    ensures var d := Digits(ReadDigits(s, b), b);
      |d| <= |s| && Folded(s) == Zeros(|s| - |d|) + d
  {
    hide *;
    var t, c := s[..|s| - 1], s[|s| - 1];
    assert s == t + [c];
    BelowParts(t, c, b);
    DigitFolded(c);
    var v := HexValue(c);
    if |t| == 0 {
      assert t == "";
      ReadNothing(b);
      ReadStep(t, c, b);
      FoldedAppend(t, c);
      NoProduct(b);
      DigitsStep(0, v, b);
      assert Folded(s) == Zeros(0) + [Upper(c)];
    } else {
      AnyDigits(t, b);
      ReadStep(t, c, b);
      FoldedAppend(t, c);
      var m := ReadDigits(t, b);
      DigitsStep(m, v, b);
      var e := Digits(m, b);
      if m == 0 {
        NoProduct(b);
        ZeroDigit(b);
        assert Zeros(|t| - 1) + "0" == Zeros(|t|);
        assert Folded(s) == Zeros(|t|) + [Upper(c)];
      } else {
        assert Zeros(|t| - |e|) + e + [Upper(c)] == Zeros(|t| - |e|) + (e + [Upper(c)]);
      }
    }
  }

  lemma NoProduct(b: nat)
    ensures b * 0 == 0
  {
  }

  lemma ZeroDigit(b: nat)
    requires 2 <= b <= 16
    ensures Digits(0, b) == "0"
  {
  }

  /** The printed form has no superfluous zero and no lower-case digit. */
  lemma {:induction false} PrintedDigits(n: nat, b: nat)
    requires 2 <= b <= 16
    ensures var d := Digits(n, b);
      && (|d| > 1 ==> d[0] != '0')
      && (n == 0 <==> d == "0")
      && forall i :: 0 <= i < |d| ==> '0' <= d[i] <= '9' || 'A' <= d[i] <= 'F'
  {
    if n >= b {
      DigitOf(n, b);
      PrintedDigits(n / b, b);
      UpperDigit(n % b);
    } else {
      UpperDigit(n);
    }
  }

  lemma UpperDigit(v: nat)
    requires v < 16
    ensures '0' <= DIGITS[v] <= '9' || 'A' <= DIGITS[v] <= 'F'
    ensures v == 0 <==> DIGITS[v] == '0'
  {
  }

  lemma HexBelow(s: string)
    requires AllDigits(s)
    ensures DigitsBelow(s, 16)
  {
  }

  lemma {:induction false} ReadFolded(s: string, u: string)
    requires AllDigits(s) && AllDigits(u) && Folded(s) == Folded(u)
    ensures ReadDigits(s, 16) == ReadDigits(u, 16)
  {
    if |s| > 0 {
      var n := |s| - 1;
      assert forall i :: 0 <= i < n ==> Upper(s[i]) == Folded(s)[i] == Folded(u)[i] == Upper(u[i]);
      assert Upper(s[n]) == Folded(s)[n] == Folded(u)[n] == Upper(u[n]);
      assert Folded(s[..n]) == Folded(u[..n]);
      DigitFolded(s[n]);
      DigitFolded(u[n]);
      hide HexValue, IsHexDigit, Upper;
      ReadFolded(s[..n], u[..n]);
    }
  }

  lemma ReadHexFolded(s: string, u: string)
    requires MatchesHex(s) && MatchesHex(u) && Folded(s) == Folded(u)
    ensures ReadHex(s) == ReadHex(u)
  {
    assert |s| == |Folded(s)| == |u|;
    assert forall i :: 0 <= i < |s| ==> Upper(s[i]) == Folded(s)[i] == Folded(u)[i] == Upper(u[i]);
    assert Folded(s[2..]) == Folded(u[2..]);
    ReadFolded(s[2..], u[2..]);
  }

  lemma StemFolded(s: string, u: string)
    requires IsLong(s) && IsLong(u) && MatchesHex(Stem(s)) && MatchesHex(Stem(u)) && Folded(s) == Folded(u)
    ensures Folded(Stem(s)) == Folded(Stem(u))
  {
    var a, b := Stem(s), Stem(u);
    assert |s| == |Folded(s)| == |u|;
    assert forall i :: 0 <= i < |s| ==> Upper(s[i]) == Folded(s)[i] == Folded(u)[i] == Upper(u[i]);
    assert forall i :: 0 <= i < |a| ==> a[i] == s[i];
    assert forall i :: 0 <= i < |b| ==> b[i] == u[i];
    LastDigit(a);
    LastDigit(b);
    assert |a| < |s| && |b| < |u|;
    assert Upper(s[|a|]) == Upper(u[|a|]) && Upper(s[|b|]) == Upper(u[|b|]);
    assert s[|a|] == 'L' && u[|b|] == 'L';
    assert |a| == |b|;
  }

  // A hexadecimal number ends in a digit, which no suffix letter is.
  lemma LastDigit(s: string)
    requires MatchesHex(s)
    ensures forall i :: 2 <= i < |s| ==> Upper(s[i]) != 'L'
  {
    forall i | 2 <= i < |s| ensures Upper(s[i]) != 'L' {
      assert s[2..][i - 2] == s[i];
      DigitFolded(s[i]);
    }
  }

  /** Reading hexadecimal numbers ignores the case of their letters. */
  lemma ScanFolded(s: string, u: string)
    requires Folded(s) == Folded(u)
    requires (MatchesHex(s) && MatchesHex(u)) || (IsLong(s) && IsLong(u) && MatchesHex(Stem(s)) && MatchesHex(Stem(u)))
    ensures ScanNumber(s) == ScanNumber(u)
  {
    OneRule(s);
    OneRule(u);
    OneRule(Stem(s));
    OneRule(Stem(u));
    hide MatchesHex, MatchesInteger, ReadHex, ReadDecimal, IsLong, Stem;
    if MatchesHex(s) && MatchesHex(u) {
      ReadHexFolded(s, u);
    } else {
      StemFolded(s, u);
      ReadHexFolded(Stem(s), Stem(u));
    }
  }

  /** The same for the two digits and the letter of an escape. */
  lemma EscapeFolded(x: char, h: char, l: char, t: string)
    requires (x == 'x' || x == 'X') && IsHexDigit(h) && IsHexDigit(l)
    ensures ScanString(['\\', x, h, l] + t) == Prefixed(CString(16 * HexValue(h) + HexValue(l)), ScanString(t))
    ensures ScanString(['\\', x, h, l] + t) == ScanString(['\\', 'x', Upper(h), Upper(l)] + t)
  {
    hide *;
    DigitFolded(h);
    DigitFolded(l);
    var u, v := ['\\', x, h, l] + t, ['\\', 'x', Upper(h), Upper(l)] + t;
    assert u[4..] == t && v[4..] == t;
    HexRule(u);
    HexRule(v);
  }

  /** Signs of decimal numbers. */
  lemma SignRule(s: string)
    requires |s| > 0 && AllDecimal(s)
    ensures MatchesInteger(s) && MatchesInteger("+" + s) && MatchesInteger("-" + s)
    ensures ReadDecimal("+" + s) == ReadDecimal(s) && ReadDecimal("-" + s) == -ReadDecimal(s)
    ensures AllDigits(s) && ReadDecimal(s) == ReadDigits(s, 10)
  {
    assert IsDigit(s[0]);
    DecimalIsHex(s);
    assert Unsigned(s) == s && Unsigned("+" + s) == s && Unsigned("-" + s) == s;
  }

  lemma DoubleLong(s: string)
    requires !IsLong(s)
    ensures IsLong(s + "LL") && Stem(s + "LL") == s
  {
    var t := s + "LL";
    assert t[..|t| - 1] == s + "L" && t[..|t| - 2] == s;
  }

  /** One `L` or two mean the same. */
  lemma SuffixRule(s: string)
    requires MatchesInteger(s) || MatchesHex(s)
    ensures ScanNumber(s + "LL") == ScanNumber(s + "L")
    ensures MatchesInteger(s) ==> ScanNumber(s + "L") == Long(ReadDecimal(s))
    ensures MatchesHex(s) ==> ScanNumber(s + "L") == LongHex(ToSigned(ReadHex(s), HALF_INT64))
  {
    OneRule(s);
    OneRule(s + "L");
    OneRule(s + "LL");
    StemOf(s);
    DoubleLong(s);
    hide MatchesHex, MatchesInteger, ReadHex, ReadDecimal, IsLong, Stem, ToSigned;
  }

  lemma HexOf(n: nat)
    ensures var s := "0x" + Digits(n, 16);
      MatchesHex(s) && ReadHex(s) == if n < 2 * HALF_INT64 then n else 2 * HALF_INT64 - 1
  {
    var s := "0x" + Digits(n, 16);
    DigitsRoundTrip(n, 16);
    assert s[2..] == Digits(n, 16);
    hide Digits, ReadDigits;
  }

  lemma ShortNumber(s: string)
    requires MatchesHex(s) && !MatchesInteger(s)
    ensures ScanNumber(s) == ShortHex(ToSigned(ReadHex(s) % (2 * HALF_INT), HALF_INT))
  {
    hide MatchesHex, MatchesInteger, ReadHex, ToSigned;
  }

  lemma SignedResidue(u: nat)
    requires u < 2 * HALF_INT64
    ensures var i := ToSigned(u % (2 * HALF_INT), HALF_INT); -HALF_INT <= i < HALF_INT && (u - i) % (2 * HALF_INT) == 0
    ensures var j := ToSigned(u, HALF_INT64); -HALF_INT64 <= j < HALF_INT64 && (u - j) % (2 * HALF_INT64) == 0
  {
  }

  /** A hexadecimal lexeme of any length: saturated at 64 bits, then cut to the width of its type. */
  lemma HexLexeme(n: nat)
    ensures var s, m := "0x" + Digits(n, 16), if n < 2 * HALF_INT64 then n else 2 * HALF_INT64 - 1;
      && ScanNumber(s).ShortHex? && -HALF_INT <= ScanNumber(s).i < HALF_INT
      && (m - ScanNumber(s).i) % (2 * HALF_INT) == 0
      && ScanNumber(s + "L").LongHex? && -HALF_INT64 <= ScanNumber(s + "L").j < HALF_INT64
      && (m - ScanNumber(s + "L").j) % (2 * HALF_INT64) == 0
  {
    hide *;
    var s := "0x" + Digits(n, 16);
    HexOf(n);
    OneRule(s);
    SuffixRule(s);
    ShortNumber(s);
    SignedResidue(ReadHex(s));
  }

  // ----- escapes and names

  /** Escapes stand for the codes that the standard gives them. */
  lemma EscapeCodes(t: string)
    ensures ScanString("\\n" + t) == Prefixed([10 as char], ScanString(t))
    ensures ScanString("\\r" + t) == Prefixed([13 as char], ScanString(t))
    ensures ScanString("\\t" + t) == Prefixed([9 as char], ScanString(t))
    ensures ScanString("\\f" + t) == Prefixed([12 as char], ScanString(t))
    ensures ScanString([92 as char, 92 as char] + t) == Prefixed([92 as char], ScanString(t))
    ensures ScanString([92 as char, 34 as char] + t) == Prefixed([34 as char], ScanString(t))
  {
    hide *;
    ShortEscapeIs('n', 10 as char, t);
    ShortEscapeIs('r', 13 as char, t);
    ShortEscapeIs('t', 9 as char, t);
    ShortEscapeIs('f', 12 as char, t);
    ShortEscapeIs('\\', 92 as char, t);
    ShortEscapeIs('\"', 34 as char, t);
    assert "\\n" + t == ['\\', 'n'] + t && "\\r" + t == ['\\', 'r'] + t;
    assert "\\t" + t == ['\\', 't'] + t && "\\f" + t == ['\\', 'f'] + t;
    assert [92 as char, 92 as char] + t == ['\\', '\\'] + t && [92 as char, 34 as char] + t == ['\\', '\"'] + t;
  }

  lemma ShortEscapeIs(e: char, c: char, t: string)
    requires (e == 'n' && c as int == 10) || (e == 'r' && c as int == 13) || (e == 't' && c as int == 9)
      || (e == 'f' && c as int == 12) || (e == '\\' && c as int == 92) || (e == '\"' && c as int == 34)
    ensures ScanString(['\\', e] + t) == Prefixed([c], ScanString(t))
  {
    var u := ['\\', e] + t;
    assert u[2..] == t;
    ScanShort(e, c, u);
  }

  /** The writer escapes the quote, the backslash and the codes below 32, and nothing else; a code below 32 that has
      no letter of its own is written with two digits. */
  lemma EscapedWhen(c: char)
    requires 0 < c as int < 256
    ensures EscapeChar(c) == [c] <==> c as int >= 32 && c as int != 34 && c as int != 92
    ensures |EscapeChar(c)| == 4 <==> c as int < 32 && c as int !in {9, 10, 12, 13}
    ensures |EscapeChar(c)| == 2 <==> c as int in {9, 10, 12, 13, 34, 92}
  {
  }

  predicate NameChar(c: char, first: bool) {
    || 'A' <= c <= 'Z' || 'a' <= c <= 'z' || c == '*'
    || (!first && (c == '-' || c == '_' || '0' <= c <= '9'))
  }

  /** The scanner's pattern for names, read from the left. */
  predicate MatchesName(n: string, first: bool) {
    if |n| == 0 then !first else NameChar(n[0], first) && MatchesName(n[1..], false)
  }

  lemma {:induction false} MatchesTail(n: string)
    ensures MatchesName(n, false) <==> forall i :: 0 <= i < |n| ==> NameChar(n[i], false)
  {
    hide NameChar;
    if |n| > 0 {
      MatchesTail(n[1..]);
      assert forall i :: 0 <= i < |n| - 1 ==> n[1..][i] == n[i + 1];
      if forall i :: 0 <= i < |n[1..]| ==> NameChar(n[1..][i], false) {
        forall i | 0 < i < |n| ensures NameChar(n[i], false) {
          assert n[1..][i - 1] == n[i];
        }
      }
    }
  }

  /** The names that the library accepts are those of the scanner's pattern. */
  lemma ValidNameIff(n: string)
    ensures ValidName(n) <==> MatchesName(n, true)
  {
    if |n| > 0 {
      MatchesTail(n[1..]);
      assert forall i :: 0 <= i < |n| - 1 ==> n[1..][i] == n[i + 1];
      if ValidName(n) {
        forall i | 0 <= i < |n| - 1 ensures NameChar(n[1..][i], false) {
          assert n[1..][i] == n[i + 1];
        }
      }
      if MatchesName(n, true) {
        forall i | 0 < i < |n| ensures NameChar(n[i], false) {
          assert n[1..][i - 1] == n[i];
        }
      }
    }
  }

  lemma SameWordFolded(n: string, w: string, u: string)
    requires |w| == |u| && forall i :: 0 <= i < |w| ==> 'a' <= w[i] <= 'z' && u[i] == Upper(w[i])
    ensures SameWord(n, w) <==> Folded(n) == u
  {
    if SameWord(n, w) {
      assert Folded(n) == u;
    }
    if Folded(n) == u {
      assert forall i :: 0 <= i < |n| ==> Upper(n[i]) == Folded(n)[i] == Upper(w[i]);
    }
  }

  /** A name token becomes a boolean exactly when it reads true or false in any mixture of cases. */
  lemma BooleanNames(n: string)
    ensures NameToken(n) == if Folded(n) == "TRUE" then TBool(true) else if Folded(n) == "FALSE" then TBool(false)
      else TName(n)
    ensures Reserved(n) <==> Folded(n) == "TRUE" || Folded(n) == "FALSE"
  {
    SameWordFolded(n, "true", "TRUE");
    SameWordFolded(n, "false", "FALSE");
    hide SameWord, Folded;
  }

  lemma LastNotLong(n: nat, b: nat)
    requires 2 <= b <= 16
    ensures !IsLong(Digits(n, b))
  {
    PrintedDigits(n, b);
    hide Digits;
    var d := Digits(n, b);
    assert '0' <= d[|d| - 1] <= '9' || 'A' <= d[|d| - 1] <= 'F';
  }

  /** A printed decimal: a minus sign only if negative, then the digits, and no suffix. */
  lemma DecimalText(i: int)
    ensures var s := PrintDecimal(i);
      (s[0] == '-' <==> i < 0) && Unsigned(s) == Digits(if i < 0 then -i else i, 10) && !IsLong(s)
  {
    var n: nat := if i < 0 then -i else i;
    var s, d := PrintDecimal(i), Digits(n, 10);
    LastNotLong(n, 10);
    PrintedDigits(n, 10);
    hide Digits;
    assert s[|s| - 1] == d[|d| - 1];
    assert d[0] != '-' && d[0] != '+';
    if i < 0 {
      assert s[1..] == d;
    }
  }

  /** The printed texts of numbers: decimals as they are, 0x in front of the digits of the unsigned pattern, and one L
      behind numbers of 64 bits. */
  lemma PrintedTexts(i: int)
    requires -HALF_INT64 <= i < HALF_INT64
    ensures -HALF_INT <= i < HALF_INT ==> IntText(i, Plain) == PrintDecimal(i)
    ensures -HALF_INT <= i < HALF_INT ==> IntText(i, Hex) == "0x" + Digits(if i < 0 then i + 0x1_0000_0000 else i, 16)
    ensures Int64Text(i, Plain) == PrintDecimal(i) + "L"
    ensures Int64Text(i, Hex) == "0x" + Digits(if i < 0 then i + 0x1_0000_0000_0000_0000 else i, 16) + "L"
  {
    hide Digits;
  }
}
