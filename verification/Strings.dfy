/** The string operations of Python that the code relies on. Case mapping is that of the
    ASCII letters, which decides comparisons with the ASCII keywords it is used for. */
module Strings {
  import opened Options
  import opened Sorting

  /** `str.isspace` on one character. */
  predicate IsSpace(c: char) {
    var n := c as int;
    || 0x09 <= n <= 0x0D || 0x1C <= n <= 0x20 || n == 0x85 || n == 0xA0 || n == 0x1680
    || 0x2000 <= n <= 0x200A || n == 0x2028 || n == 0x2029 || n == 0x202F || n == 0x205F || n == 0x3000
  }

  function StripLeft(s: string): string {
    if s != [] && IsSpace(s[0]) then StripLeft(s[1..]) else s
  }

  function StripRight(s: string): string {
    if s != [] && IsSpace(s[|s| - 1]) then StripRight(s[..|s| - 1]) else s
  }

  function Strip(s: string): string {
    StripRight(StripLeft(s))
  }

  /** `str.lower` or `str.upper` on all texts, where Python's own tables decide; a parameter
      about which nothing is assumed. */
  type CaseMap = string -> string

  function LowerChar(c: char): char {
    if 'A' <= c <= 'Z' then ((c as int) + 32) as char else c
  }

  function UpperChar(c: char): char {
    if 'a' <= c <= 'z' then ((c as int) - 32) as char else c
  }

  function Lower(s: string): string {
    seq(|s|, i requires 0 <= i < |s| => LowerChar(s[i]))
  }

  function Upper(s: string): string {
    seq(|s|, i requires 0 <= i < |s| => UpperChar(s[i]))
  }

  /** Position of the first `c`, or the length when there is none. */
  function Find(s: string, c: char): (i: nat)
    ensures i <= |s|
    ensures i < |s| ==> s[i] == c
    ensures c !in s[..i]
  {
    if s == [] || s[0] == c then 0
    else
      var i := 1 + Find(s[1..], c);
      assert s[..i] == [s[0]] + s[1..][..i - 1];
      i
  }

  /** The zeros of the runs of ten decimal digits that Unicode 14 has beyond ASCII; `int` reads
      them all. */
  const DIGIT_ZEROS: seq<int> := [
    0x660, 0x6F0, 0x7C0, 0x966, 0x9E6, 0xA66, 0xAE6, 0xB66, 0xBE6, 0xC66, 0xCE6, 0xD66, 0xDE6,
    0xE50, 0xED0, 0xF20, 0x1040, 0x1090, 0x17E0, 0x1810, 0x1946, 0x19D0, 0x1A80, 0x1A90, 0x1B50,
    0x1BB0, 0x1C40, 0x1C50, 0xA620, 0xA8D0, 0xA900, 0xA9D0, 0xA9F0, 0xAA50, 0xABF0, 0xFF10, 0x104A0,
    0x10D30, 0x11066, 0x110F0, 0x11136, 0x111D0, 0x112F0, 0x11450, 0x114D0, 0x11650, 0x116C0,
    0x11730, 0x118E0, 0x11950, 0x11C50, 0x11D50, 0x11DA0, 0x16A60, 0x16AC0, 0x16B50, 0x1D7CE,
    0x1D7D8, 0x1D7E2, 0x1D7EC, 0x1D7F6, 0x1E140, 0x1E2F0, 0x1E950, 0x1FBF0]

  function DigitIn(zeros: seq<int>, n: int): (d: int)
    ensures -1 <= d < 10
  {
    if zeros == [] then -1
    else if zeros[0] <= n < zeros[0] + 10 then n - zeros[0]
    else DigitIn(zeros[1..], n)
  }

  /** The value of a decimal digit, or -1. */
  function DigitValue(c: char): (d: int)
    ensures -1 <= d < 10
  {
    if '0' <= c <= '9' then c as int - '0' as int
    else if (c as int) < 128 then -1
    else DigitIn(DIGIT_ZEROS, c as int)
  }

  /** Digits with single underscores between them. */
  function ReadDigits(s: string): Option<nat> {
    if s == [] || DigitValue(s[|s| - 1]) < 0 then None
    else
      var d := DigitValue(s[|s| - 1]);
      if |s| == 1 then Some(d)
      else
        var front := if s[|s| - 2] == '_' then s[..|s| - 2] else s[..|s| - 1];
        match ReadDigits(front)
        case None => None
        case Some(n) => Some(10 * n + d)
  }

  /** `int(text)`. */
  function ReadInt(text: string): Option<int> {
    var s := Strip(text);
    if s != [] && (s[0] == '-' || s[0] == '+') then
      match ReadDigits(s[1..])
      case None => None
      case Some(n) =>
        var m: int := n;
        Some(if s[0] == '-' then -m else m)
    else
      match ReadDigits(s)
      case None => None
      case Some(n) => Some(n)
  }

  predicate CharLess(c: char, d: char) {
    c < d
  }

  /** Python's `<` on strings. */
  predicate Less(a: string, b: string) {
    Lexical(CharLess, a, b)
  }

  /** By the first character that differs; a proper beginning comes first. */
  lemma LessMeans(a: string, b: string)
    ensures Less(a, b) <==> exists n: nat :: DifferAt(CharLess, a, b, n)
  {
    LexicalMeans(CharLess, a, b);
  }

  lemma LessTransitive(a: string, b: string, c: string)
    requires Less(a, b) && Less(b, c)
    ensures Less(a, c)
  {
    LexicalTransitive(CharLess, a, b, c);
  }

  lemma LessTotal(a: string, b: string)
    ensures Less(a, b) || Less(b, a) || a == b
    ensures !(Less(a, b) && Less(b, a)) && !Less(a, a)
  {
    LexicalTotal(CharLess, a, b);
  }

  lemma {:induction false} FindAt(a: string, c: char, b: string)
    requires c !in a
    ensures Find(a + [c] + b, c) == |a| && Find(a, c) == |a|
  {
    if a == [] {
      assert (a + [c] + b)[0] == c;
    } else {
      assert a[0] in a;
      assert (a + [c] + b)[1..] == a[1..] + [c] + b;
      FindAt(a[1..], c, b);
    }
  }

  /** `str(n)`. */
  function Decimal(n: nat): string {
    if n < 10 then [(n + '0' as int) as char] else Decimal(n / 10) + [(n % 10 + '0' as int) as char]
  }

  predicate IsDigit(c: char) {
    '0' <= c <= '9'
  }

  lemma {:induction false} DecimalDigits(n: nat)
    ensures Decimal(n) != [] && forall i :: 0 <= i < |Decimal(n)| ==> IsDigit(Decimal(n)[i])
  {
    if n < 10 {
    } else {
      DecimalDigits(n / 10);
    }
  }

  lemma {:induction false} DecimalReads(n: nat)
    ensures ReadDigits(Decimal(n)) == Some(n)
  {
    DecimalDigits(n);
    var s := Decimal(n);
    if n < 10 {
    } else {
      DecimalDigits(n / 10);
      DecimalReads(n / 10);
      assert s[..|s| - 1] == Decimal(n / 10);
      assert IsDigit(s[|s| - 2]);
    }
  }

  /** The digits that can be read: single underscores between digits, nothing else. */
  lemma {:induction false} DigitsExactly(s: string)
    ensures ReadDigits(s).Some? <==>
      && s != [] && DigitValue(s[0]) >= 0 && DigitValue(s[|s| - 1]) >= 0
      && (forall i :: 0 <= i < |s| ==> DigitValue(s[i]) >= 0 || s[i] == '_')
      && forall i :: 0 < i < |s| ==> s[i - 1] != '_' || s[i] != '_'
  {
    hide DigitValue;
    UnderscoreIsNoDigit();
    if |s| > 1 && DigitValue(s[|s| - 1]) >= 0 {
      var front := if s[|s| - 2] == '_' then s[..|s| - 2] else s[..|s| - 1];
      DigitsExactly(front);
    }
  }

  /** A further digit, with or without an underscore before it, counts for one and the rest
      ten times. */
  lemma MoreDigits(s: string, c: char)
    requires ReadDigits(s).Some? && DigitValue(c) >= 0
    ensures ReadDigits(s + [c]) == Some(10 * ReadDigits(s).value + DigitValue(c))
    ensures ReadDigits(s + ['_', c]) == Some(10 * ReadDigits(s).value + DigitValue(c))
  {
    hide DigitValue, ReadDigits;
    EndsInDigit(s);
    UnderscoreIsNoDigit();
    DigitAppended(s, c);
    UnderscoreAppended(s, c);
  }

  lemma DigitAppended(s: string, c: char)
    requires s != [] && s[|s| - 1] != '_' && DigitValue(c) >= 0 && ReadDigits(s).Some?
    ensures ReadDigits(s + [c]) == Some(10 * ReadDigits(s).value + DigitValue(c))
  {
    hide DigitValue, ReadDigits;
    var t := s + [c];
    assert t[..|s|] == s && t[|s| - 1] == s[|s| - 1] && t[|s|] == c;
    LastDigit(t, s);
  }

  lemma UnderscoreAppended(s: string, c: char)
    requires s != [] && DigitValue(c) >= 0 && ReadDigits(s).Some?
    ensures ReadDigits(s + ['_', c]) == Some(10 * ReadDigits(s).value + DigitValue(c))
  {
    hide DigitValue, ReadDigits;
    var t := s + ['_', c];
    assert t[..|s|] == s && t[|s|] == '_' && t[|s| + 1] == c;
    LastDigit(t, s);
  }

  lemma EndsInDigit(s: string)
    requires ReadDigits(s).Some?
    ensures s != [] && DigitValue(s[|s| - 1]) >= 0
  {
    hide DigitValue;
  }

  lemma UnderscoreIsNoDigit()
    ensures DigitValue('_') < 0
  {
    hide DigitIn;
  }

  lemma LastDigit(t: string, front: string)
    requires |t| >= 2 && DigitValue(t[|t| - 1]) >= 0 && ReadDigits(front).Some?
    requires front == if t[|t| - 2] == '_' then t[..|t| - 2] else t[..|t| - 1]
    ensures ReadDigits(t) == Some(10 * ReadDigits(front).value + DigitValue(t[|t| - 1]))
  {
    hide DigitValue;
  }

  /** A sign may stand before the digits, and white space around the whole. */
  lemma SignsRead(n: nat, text: string)
    ensures ReadInt(Decimal(n)) == ReadInt("+" + Decimal(n)) == Some(n) && ReadInt("-" + Decimal(n)) == Some(0 - n)
    ensures Strip(text) == Decimal(n) ==> ReadInt(text) == Some(n)
  {
    hide DigitValue;
    DecimalReads(n);
    DecimalDigits(n);
    var d := Decimal(n);
    assert !IsSpace(d[0]) && !IsSpace(d[|d| - 1]) && d[0] != '-' && d[0] != '+';
    assert Strip(d) == d && Strip("+" + d) == "+" + d && Strip("-" + d) == "-" + d;
    assert ("+" + d)[1..] == d && ("-" + d)[1..] == d;
  }
}
