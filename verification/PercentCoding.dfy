/** Percent-encoding (section 2.1 of RFC 3986) as `urllib.parse` applies it, and the query
    strings built from it (core/wire.py). */
module PercentCoding {
  import opened Options
  import opened Utf8
  import Strings

  /** What decoding with replacement characters makes of bytes that are not UTF-8. */
  type Lossy = seq<Byte> -> string

  function DecodeLossy(lossy: Lossy, b: seq<Byte>): string {
    match Decode(b)
    case None => lossy(b)
    case Some(s) => s
  }

  // ----- quoting

  predicate Unreserved(n: int) {
    || 'A' as int <= n <= 'Z' as int || 'a' as int <= n <= 'z' as int || '0' as int <= n <= '9' as int
    || n == '_' as int || n == '.' as int || n == '-' as int || n == '~' as int
  }

  function HexDigit(n: int): char
    requires 0 <= n < 16
  {
    if n < 10 then (n + '0' as int) as char else (n - 10 + 'A' as int) as char
  }

  function HexValue(c: char): int {
    if '0' <= c <= '9' then c as int - '0' as int
    else if 'A' <= c <= 'F' then c as int - 'A' as int + 10
    else if 'a' <= c <= 'f' then c as int - 'a' as int + 10
    else -1
  }

  function QuoteByte(b: Byte): string {
    if Unreserved(b) then [b as char] else ['%', HexDigit(b / 16), HexDigit(b % 16)]
  }

  function QuoteBytes(b: seq<Byte>): string {
    if b == [] then [] else QuoteByte(b[0]) + QuoteBytes(b[1..])
  }

  /** `quote(s, safe='')`. */
  function Quote(s: string): string {
    QuoteBytes(Encode(s))
  }

  /** `unquote_to_bytes` on ASCII text: a `%` without two hex digits stands for itself. */
  function UnquoteBytes(s: string): seq<Byte>
    requires forall i :: 0 <= i < |s| ==> (s[i] as int) < 128
    decreases |s|
  {
    if s == [] then []
    else if s[0] == '%' && |s| >= 3 && HexValue(s[1]) >= 0 && HexValue(s[2]) >= 0 then
      [HexValue(s[1]) * 16 + HexValue(s[2])] + UnquoteBytes(s[3..])
    else [s[0] as int] + UnquoteBytes(s[1..])
  }

  function AsciiEnd(s: string): (n: nat)
    ensures n <= |s|
    ensures forall i :: 0 <= i < n ==> (s[i] as int) < 128
    ensures n < |s| ==> (s[n] as int) >= 128
  {
    if s == [] || (s[0] as int) >= 128 then 0 else 1 + AsciiEnd(s[1..])
  }

  /** Each run of ASCII characters is decoded by itself. */
  function UnquoteRuns(lossy: Lossy, s: string): string
    decreases |s|
  {
    if s == [] then []
    else if (s[0] as int) >= 128 then [s[0]] + UnquoteRuns(lossy, s[1..])
    else DecodeLossy(lossy, UnquoteBytes(s[..AsciiEnd(s)])) + UnquoteRuns(lossy, s[AsciiEnd(s)..])
  }

  /** `unquote_plus`. */
  function UnquotePlus(lossy: Lossy, s: string): string {
    var t := seq(|s|, i requires 0 <= i < |s| => if s[i] == '+' then ' ' else s[i]);
    if '%' in t then UnquoteRuns(lossy, t) else t
  }

  /** The characters that quoting produces. */
  predicate QuoteChar(c: char) {
    Unreserved(c as int) || c == '%'
  }

  lemma {:induction false} QuoteBytesChars(b: seq<Byte>)
    ensures forall i :: 0 <= i < |QuoteBytes(b)| ==> QuoteChar(QuoteBytes(b)[i]) && (QuoteBytes(b)[i] as int) < 128
  {
    if b == [] {
    } else {
      QuoteBytesChars(b[1..]);
      var q := QuoteByte(b[0]);
      assert forall i :: 0 <= i < |q| ==> QuoteChar(q[i]) && (q[i] as int) < 128;
    }
  }

  lemma HexDigits(b: Byte)
    ensures HexValue(HexDigit(b / 16)) == b / 16 && HexValue(HexDigit(b % 16)) == b % 16
  {
  }

  lemma {:induction false} UnquoteQuoted(b: seq<Byte>)
    requires forall i :: 0 <= i < |QuoteBytes(b)| ==> (QuoteBytes(b)[i] as int) < 128
    ensures UnquoteBytes(QuoteBytes(b)) == b
  {
    if b == [] {
    } else {
      QuoteBytesChars(b[1..]);
      UnquoteQuoted(b[1..]);
      HexDigits(b[0]);
      var q := QuoteBytes(b);
      if Unreserved(b[0]) {
        assert q[1..] == QuoteBytes(b[1..]);
      } else {
        assert q[3..] == QuoteBytes(b[1..]);
      }
      assert [b[0]] + b[1..] == b;
    }
  }

  predicate IsHex(c: char) {
    c in "0123456789abcdefABCDEF"
  }

  lemma HexIsHex(c: char)
    ensures HexValue(c) >= 0 <==> IsHex(c)
  {
    var digits := "0123456789abcdefABCDEF";
    if HexValue(c) >= 0 {
      assert c == digits[if 'A' <= c <= 'F' then HexValue(c) + 6 else HexValue(c)];
    }
  }

  /** An escape stands at this place. */
  predicate EscapeAt(s: string, i: nat) {
    i + 2 < |s| && s[i] == '%' && IsHex(s[i + 1]) && IsHex(s[i + 2])
  }

  lemma {:induction false} UnquotePlain(s: string)
    requires forall i :: 0 <= i < |s| ==> (s[i] as int) < 128
    requires forall i :: 0 <= i < |s| ==> !EscapeAt(s, i)
    ensures UnquoteBytes(s) == Encode(s)
  {
    hide IsHex;
    if s == [] {
    } else {
      assert !EscapeAt(s, 0);
      if |s| > 2 {
        HexIsHex(s[1]);
        HexIsHex(s[2]);
      }
      forall i | 0 <= i < |s[1..]| ensures !EscapeAt(s[1..], i) {
        assert !EscapeAt(s, i + 1);
      }
      UnquotePlain(s[1..]);
    }
  }

  /** ASCII text without a plus sign and without a percent sign that two hex digits follow
      is left alone, stray percent signs included. */
  lemma StrayStays(lossy: Lossy, s: string)
    requires forall i :: 0 <= i < |s| ==> (s[i] as int) < 128 && s[i] != '+' && !EscapeAt(s, i)
    ensures UnquotePlus(lossy, s) == s
  {
    var t := seq(|s|, i requires 0 <= i < |s| => if s[i] == '+' then ' ' else s[i]);
    assert t == s;
    if '%' in s {
      UnquotePlain(s);
      AsciiWhole(s);
      RoundTrip(s);
      assert s[..|s|] == s && s[|s|..] == [];
      assert UnquoteRuns(lossy, s) == s + UnquoteRuns(lossy, []);
    }
  }

  /** Without a percent sign, unquoting only turns each plus sign into a blank. */
  lemma PlusReads(lossy: Lossy, s: string)
    requires '%' !in s
    ensures var t := UnquotePlus(lossy, s);
      |t| == |s| && forall i :: 0 <= i < |s| ==> t[i] == if s[i] == '+' then ' ' else s[i]
  {
    var t := seq(|s|, i requires 0 <= i < |s| => if s[i] == '+' then ' ' else s[i]);
    assert forall i :: 0 <= i < |s| ==> s[i] != '%' && t[i] != '%';
  }

  /** An escape reads as the byte that its digits name, in
      either case of the letters. */
  lemma EscapesRead(high: char, low: char)
    requires IsHex(high) && IsHex(low)
    ensures UnquoteBytes(['%', high, low]) == [HexValue(high) * 16 + HexValue(low)]
  {
    hide IsHex, HexValue;
    HexIsHex(high);
    HexIsHex(low);
    assert ['%', high, low][3..] == [];
  }

  lemma HexLetters(i: nat)
    requires i < 16
    ensures HexValue("0123456789abcdef"[i]) == i
    ensures HexValue("0123456789ABCDEF"[i]) == i
  {
  }

  /** The escapes that quoting writes. */
  lemma EscapesWritten(b: Byte)
    ensures !Unreserved(b) ==> QuoteBytes([b]) == ['%', "0123456789ABCDEF"[b / 16], "0123456789ABCDEF"[b % 16]]
    ensures Unreserved(b) ==> QuoteBytes([b]) == [b as char]
  {
    assert HexDigit(b / 16) == "0123456789ABCDEF"[b / 16];
    assert HexDigit(b % 16) == "0123456789ABCDEF"[b % 16];
    assert QuoteBytes([b]) == QuoteByte(b) + [] == QuoteByte(b);
  }

  /** Unquoting undoes quoting, for every text. */
  lemma QuoteRoundTrip(lossy: Lossy, s: string)
    ensures UnquotePlus(lossy, Quote(s)) == s
  {
    var q := Quote(s);
    QuoteBytesChars(Encode(s));
    UnquoteQuoted(Encode(s));
    var t := seq(|q|, i requires 0 <= i < |q| => if q[i] == '+' then ' ' else q[i]);
    assert t == q;
    if '%' in q {
      AsciiWhole(q);
      assert q[..|q|] == q && q[|q|..] == [];
      RoundTrip(s);
      assert UnquoteRuns(lossy, q) == s + UnquoteRuns(lossy, []);
    } else {
      assert forall i :: 0 <= i < |q| ==> q[i] in q;
      UnquotePlain(q);
      EncodeInjective(q, s);
    }
  }

  lemma {:induction false} AsciiWhole(s: string)
    requires forall i :: 0 <= i < |s| ==> (s[i] as int) < 128
    ensures AsciiEnd(s) == |s|
  {
  }

  // ----- dictionaries in insertion order

  type Dict = seq<(string, string)>

  predicate HasKey(d: Dict, k: string) {
    exists i :: 0 <= i < |d| && d[i].0 == k
  }

  /** `d[k] = v`. */
  function Put(d: Dict, k: string, v: string): Dict {
    if d == [] then [(k, v)]
    else if d[0].0 == k then [(k, v)] + d[1..]
    else [d[0]] + Put(d[1..], k, v)
  }

  ghost predicate DistinctKeys(d: Dict) {
    forall i, j :: 0 <= i < j < |d| ==> d[i].0 != d[j].0
  }

  lemma {:induction false} PutNew(d: Dict, k: string, v: string)
    requires !HasKey(d, k)
    ensures Put(d, k, v) == d + [(k, v)]
  {
    if d == [] {
    } else {
      assert d[0].0 != k;
      forall i | 0 <= i < |d[1..]| ensures d[1..][i].0 != k {
        assert d[1..][i] == d[i + 1];
      }
      PutNew(d[1..], k, v);
    }
  }

  // ----- query strings

  /** Python's `s.split(c)`. */
  function Split(s: string, c: char): seq<string>
    decreases |s|
  {
    var i := Strings.Find(s, c);
    if i == |s| then [s] else [s[..i]] + Split(s[i + 1..], c)
  }

  function PairText(p: (string, string)): string {
    Quote(p.0) + "=" + Quote(p.1)
  }

  function PairTexts(q: Dict): seq<string> {
    seq(|q|, i requires 0 <= i < |q| => PairText(q[i]))
  }

  /** `sep.join(parts)`. */
  function JoinWith(parts: seq<string>, sep: char): string {
    if parts == [] then [] else if |parts| == 1 then parts[0] else parts[0] + [sep] + JoinWith(parts[1..], sep)
  }

  function QueryText(q: Dict): string {
    JoinWith(PairTexts(q), '&')
  }

  /** One `key=value` of a query string into the dictionary so far. */
  function PutPair(lossy: Lossy, d: Dict, pair: string): Dict {
    if pair == [] then d
    else
      var i := Strings.Find(pair, '=');
      var key := UnquotePlus(lossy, pair[..i]);
      if key == [] then d else Put(d, key, if i < |pair| then UnquotePlus(lossy, pair[i + 1..]) else [])
  }

  function PutPairs(lossy: Lossy, d: Dict, pairs: seq<string>): Dict
    decreases |pairs|
  {
    if pairs == [] then d else PutPairs(lossy, PutPair(lossy, d, pairs[0]), pairs[1..])
  }

  /** `_parse_query_string`. */
  function ParseQuery(lossy: Lossy, s: string): Dict {
    if s == [] then [] else PutPairs(lossy, [], Split(s, '&'))
  }

  lemma SplitAt(a: string, c: char, b: string)
    requires c !in a
    ensures Split(a, c) == [a] && Split(a + [c] + b, c) == [a] + Split(b, c)
  {
    Strings.FindAt(a, c, b);
    var s := a + [c] + b;
    assert s[..|a|] == a && s[|a| + 1..] == b;
  }

  lemma {:induction false} SplitJoined(parts: seq<string>, sep: char)
    requires parts != [] && forall i :: 0 <= i < |parts| ==> sep !in parts[i]
    ensures Split(JoinWith(parts, sep), sep) == parts
  {
    hide Split;
    if |parts| == 1 {
      SplitAt(parts[0], sep, []);
    } else {
      SplitAt(parts[0], sep, JoinWith(parts[1..], sep));
      SplitJoined(parts[1..], sep);
      assert [parts[0]] + parts[1..] == parts;
    }
  }

  lemma QuoteAvoids(s: string, c: char)
    requires !QuoteChar(c)
    ensures c !in Quote(s)
  {
    QuoteBytesChars(Encode(s));
  }

  lemma {:induction false} PairReads(lossy: Lossy, d: Dict, p: (string, string))
    requires p.0 != [] && !HasKey(d, p.0)
    ensures PutPair(lossy, d, PairText(p)) == d + [p]
  {
    var k, v := Quote(p.0), Quote(p.1);
    var pair := PairText(p);
    QuoteAvoids(p.0, '=');
    assert pair == k + ['='] + v;
    Strings.FindAt(k, '=', v);
    assert pair[..|k|] == k && pair[|k| + 1..] == v;
    QuoteRoundTrip(lossy, p.0);
    QuoteRoundTrip(lossy, p.1);
    PutNew(d, p.0, p.1);
  }

  lemma DistinctNext(d: Dict, q: Dict)
    requires q != [] && DistinctKeys(d + q)
    ensures !HasKey(d, q[0].0) && (d + [q[0]]) + q[1..] == d + q
  {
    assert (d + q)[|d|] == q[0];
    assert forall i :: 0 <= i < |d| ==> (d + q)[i] == d[i];
  }

  lemma {:induction false} PairsRead(lossy: Lossy, d: Dict, q: Dict)
    requires DistinctKeys(d + q) && forall i :: 0 <= i < |q| ==> q[i].0 != []
    ensures PutPairs(lossy, d, PairTexts(q)) == d + q
    decreases |q|
  {
    hide PutPair, PairText, DistinctKeys, HasKey;
    if q == [] {
      assert d + q == d;
    } else {
      DistinctNext(d, q);
      PairReads(lossy, d, q[0]);
      assert PairTexts(q)[0] == PairText(q[0]);
      assert PairTexts(q)[1..] == PairTexts(q[1..]);
      PairsRead(lossy, d + [q[0]], q[1..]);
    }
  }

  /** A query with distinct nonempty keys reads back as it was, in order, whatever
      characters its keys and values hold. */
  lemma QueryRoundTrip(lossy: Lossy, q: Dict)
    requires q != [] && DistinctKeys(q) && forall i :: 0 <= i < |q| ==> q[i].0 != []
    ensures QueryText(q) != [] && ParseQuery(lossy, QueryText(q)) == q
  {
    hide Split, Quote, PutPairs;
    var parts := PairTexts(q);
    forall i | 0 <= i < |parts| ensures '&' !in parts[i] {
      QuoteAvoids(q[i].0, '&');
      QuoteAvoids(q[i].1, '&');
    }
    SplitJoined(parts, '&');
    assert [] + q == q;
    PairsRead(lossy, [], q);
    assert parts[0] == PairText(q[0]) != [];
  }
}
