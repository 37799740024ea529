/** AGTP requests on the wire: serializing and parsing (core/wire.py). */
module Wire {
  import opened Options
  import opened Utf8
  import opened Strings
  import opened PercentCoding

  datatype WireError =
    | Closed | NoHeaderLines | MalformedHeader | MalformedStart | BadVersion | Fragment | BadLength | Truncated

  type Read<+T> = Result<T, WireError>

  datatype Request = Request(method_: string, headers: Dict, body: seq<Byte>, path: string, query: Dict)

  const VERSION := "AGTP/1.0"
  const CONTENT_LENGTH := "Content-Length"

  // ----- serializing

  /** The headers as sent: with a length if there is a body and no length yet. */
  function SentHeaders(r: Request): Dict {
    if r.body == [] || HasKey(r.headers, CONTENT_LENGTH) then r.headers
    else r.headers + [(CONTENT_LENGTH, Decimal(|r.body|))]
  }

  function PathToken(r: Request): string {
    var path := if r.path == [] then "/" else r.path;
    if r.query == [] then path else path + "?" + QueryText(r.query)
  }

  /** The path is left out when it says nothing. */
  function StartLine(r: Request): string {
    if PathToken(r) == "/" then VERSION + " " + r.method_ else VERSION + " " + r.method_ + " " + PathToken(r)
  }

  function HeaderLine(h: (string, string)): string {
    h.0 + ": " + h.1
  }

  function HeaderLines(d: Dict): seq<string> {
    seq(|d|, i requires 0 <= i < |d| => HeaderLine(d[i]))
  }

  function HeadText(lines: seq<string>): string {
    if lines == [] then [] else lines[0] + "\r\n" + HeadText(lines[1..])
  }

  function Lines(r: Request): seq<string> {
    [StartLine(r)] + HeaderLines(SentHeaders(r))
  }

  /** `AGTPRequest.serialize`. */
  function Serialize(r: Request): seq<Byte> {
    Encode(HeadText(Lines(r)) + "\r\n") + r.body
  }

  // ----- reading

  const LF: Byte := 10
  const CR: Byte := 13

  /** Length of the first line, its line feed included. */
  function LineLength(data: seq<Byte>): (n: nat)
    ensures n <= |data| && (data != [] ==> n > 0)
  {
    if data == [] then 0 else if data[0] == LF then 1 else 1 + LineLength(data[1..])
  }

  /** `_read_until_blank_line`: the head, and what is left unread. */
  function ReadUntilBlank(data: seq<Byte>, acc: seq<Byte>): Read<(seq<Byte>, seq<Byte>)>
    decreases |data|
  {
    var line, rest := data[..LineLength(data)], data[LineLength(data)..];
    if line == [] then Err(Closed)
    else if line == [CR, LF] || line == [LF] then Ok((acc, rest))
    else ReadUntilBlank(rest, acc + line)
  }

  /** `line.rstrip("\r")`. */
  function StripCR(s: string): string {
    if s != [] && s[|s| - 1] == '\r' then StripCR(s[..|s| - 1]) else s
  }

  /** Drop blank lines, and the carriage returns at the ends of the others. */
  function Clean(lines: seq<string>): seq<string> {
    if lines == [] then []
    else (if Strip(lines[0]) == [] then [] else [StripCR(lines[0])]) + Clean(lines[1..])
  }

  function PutHeader(d: Dict, line: string): Read<Dict> {
    var i := Find(line, ':');
    if i == |line| then Err(MalformedHeader) else Ok(Put(d, Strip(line[..i]), Strip(line[i + 1..])))
  }

  function PutHeaders(d: Dict, lines: seq<string>): Read<Dict>
    decreases |lines|
  {
    if lines == [] then Ok(d)
    else
      var d' :- PutHeader(d, lines[0]);
      PutHeaders(d', lines[1..])
  }

  /** `_parse_headers`: the start line and the headers. */
  function ParseHead(lossy: Lossy, raw: seq<Byte>): Read<(string, Dict)> {
    var lines := Clean(Split(DecodeLossy(lossy, raw), '\n'));
    if lines == [] then Err(NoHeaderLines)
    else
      var d :- PutHeaders([], lines[1..]);
      Ok((lines[0], d))
  }

  function FieldEnd(s: string): (n: nat)
    ensures n <= |s|
  {
    if s == [] || IsSpace(s[0]) then 0 else 1 + FieldEnd(s[1..])
  }

  /** `s.split()`. */
  function Fields(s: string): seq<string>
    decreases |s|
  {
    if s == [] then []
    else if IsSpace(s[0]) then Fields(s[1..])
    else [s[..FieldEnd(s)]] + Fields(s[FieldEnd(s)..])
  }

  /** The first header that is a content length in any case; empty when there is none. */
  function LengthText(d: Dict): string {
    if d == [] then []
    else if Lower(d[0].0) == "content-length" then d[0].1
    else LengthText(d[1..])
  }

  /** `_read_body`: the body, and what is left unread. */
  function ReadBody(d: Dict, data: seq<Byte>): Read<(seq<Byte>, seq<Byte>)> {
    var text := LengthText(d);
    if text == [] then Ok(([], data))
    else match ReadInt(text)
      case None => Err(BadLength)
      case Some(n) =>
        if n == 0 then Ok(([], data))
        else if n < 0 || n > |data| then Err(Truncated)
        else Ok((data[..n], data[n..]))
  }

  /** Method and path token of a start line. */
  function ReadStart(start: string): Read<(string, string)> {
    var parts := Fields(start);
    if |parts| != 2 && |parts| != 3 then Err(MalformedStart)
    else if parts[0] != VERSION then Err(BadVersion)
    else
      var token := if |parts| == 3 then parts[2] else "/";
      if '#' in token then Err(Fragment) else Ok((parts[1], token))
  }

  /** Bare path and query string of a path token. */
  function SplitToken(token: string): (string, string) {
    var i := Find(token, '?');
    var path := token[..i];
    (if path == [] then "/" else path, if i < |token| then token[i + 1..] else [])
  }

  /** `parse_request`: the request, and what is left unread. */
  function ParseRequest(lossy: Lossy, data: seq<Byte>): Read<(Request, seq<Byte>)> {
    var (raw, rest) :- ReadUntilBlank(data, []);
    var (start, headers) :- ParseHead(lossy, raw);
    var (verb, token) :- ReadStart(start);
    var (path, query) := SplitToken(token);
    var (body, left) :- ReadBody(headers, rest);
    Ok((Request(verb, headers, body, path, ParseQuery(lossy, query)), left))
  }

  // ----- which requests survive the trip

  predicate Token(s: string) {
    s != [] && forall i :: 0 <= i < |s| ==> !IsSpace(s[i])
  }

  predicate Trimmed(s: string) {
    s == [] || (!IsSpace(s[0]) && !IsSpace(s[|s| - 1]))
  }

  predicate GoodHeader(h: (string, string)) {
    && Trimmed(h.0) && Trimmed(h.1) && ':' !in h.0 && '\n' !in h.0 && '\n' !in h.1
    && Lower(h.0) != "content-length"
  }

  ghost predicate WellFormed(r: Request) {
    && Token(r.method_) && Token(r.path) && '?' !in r.path && '#' !in r.path
    && DistinctKeys(r.headers) && (forall i :: 0 <= i < |r.headers| ==> GoodHeader(r.headers[i]))
    && DistinctKeys(r.query) && (forall i :: 0 <= i < |r.query| ==> r.query[i].0 != [])
  }

  // ----- lines

  lemma {:induction false} NoLineFeed(s: string)
    requires '\n' !in s
    ensures LF !in Encode(s)
  {
    if s == [] {
    } else {
      assert s[0] in s;
      NoLineFeed(s[1..]);
      var e := EncodeChar(s[0]);
      assert forall i :: 0 <= i < |e| ==> e[i] != LF;
    }
  }

  lemma {:induction false} LineLengthAt(line: seq<Byte>, more: seq<Byte>)
    requires LF !in line
    ensures LineLength(line + [CR, LF] + more) == |line| + 2
  {
    var data := line + [CR, LF] + more;
    if line == [] {
      assert data[0] == CR && data[1..][0] == LF;
    } else {
      assert line[0] in line;
      assert data[1..] == line[1..] + [CR, LF] + more;
      LineLengthAt(line[1..], more);
    }
  }

  /** A line of a head: not blank, one line, no carriage return at its end. */
  predicate GoodLine(l: string) {
    '\n' !in l && l != [] && !IsSpace(l[0]) && l[|l| - 1] != '\r'
  }

  lemma GoodLineEncodes(l: string)
    requires GoodLine(l)
    ensures '\n' !in l && Encode(l) != [] && LF !in Encode(l)
  {
    NoLineFeed(l);
    assert EncodeChar(l[0]) != [];
  }

  lemma CrLf()
    ensures Encode("\r\n") == [CR, LF] && Encode("") == []
  {
    assert "\r\n"[1..] == "\n" && "\n"[1..] == "";
    assert Encode("\n") == [LF];
  }

  lemma EncodeLine(l: string, more: string)
    ensures Encode(l + "\r\n" + more) == Encode(l) + [CR, LF] + Encode(more)
  {
    CrLf();
    EncodeConcat(l + "\r\n", more);
    EncodeConcat(l, "\r\n");
  }

  /** Reading up to the blank line takes the head and nothing more. */
  lemma {:induction false} HeadReads(lines: seq<string>, acc: seq<Byte>, rest: seq<Byte>)
    requires forall i :: 0 <= i < |lines| ==> GoodLine(lines[i])
    ensures ReadUntilBlank(Encode(HeadText(lines)) + [CR, LF] + rest, acc) == Ok((acc + Encode(HeadText(lines)), rest))
    decreases |lines|
  {
    hide GoodLine, LineLength, Encode;
    var data := Encode(HeadText(lines)) + [CR, LF] + rest;
    if lines == [] {
      CrLf();
      assert data == [] + [CR, LF] + rest;
      LineLengthAt([], rest);
      assert data[..2] == [CR, LF] && data[2..] == rest;
      assert acc + [] == acc;
    } else {
      var e, more := Encode(lines[0]), Encode(HeadText(lines[1..]));
      EncodeLine(lines[0], HeadText(lines[1..]));
      GoodLineEncodes(lines[0]);
      var tail := more + [CR, LF] + rest;
      assert data == e + [CR, LF] + tail;
      LineLengthAt(e, tail);
      var line := e + [CR, LF];
      assert data[..|e| + 2] == line && data[|e| + 2..] == tail;
      HeadReads(lines[1..], acc + line, rest);
      assert acc + line + more == acc + (e + [CR, LF] + more);
    }
  }

  lemma StripKeepsNonblank(l: string)
    requires l != [] && !IsSpace(l[0])
    ensures Strip(l) != []
  {
    StripRightKeeps(l);
  }

  lemma {:induction false} StripRightKeeps(l: string)
    requires l != [] && !IsSpace(l[0])
    ensures StripRight(l) != []
  {
    if IsSpace(l[|l| - 1]) {
      StripRightKeeps(l[..|l| - 1]);
    }
  }

  lemma StripTrimmed(s: string)
    requires Trimmed(s)
    ensures Strip(s) == s && Strip(" " + s) == s
  {
    assert (" " + s)[1..] == s;
  }

  lemma CleanLine(l: string, rest: seq<string>)
    requires GoodLine(l)
    ensures Clean([l + "\r"] + rest) == [l] + Clean(rest)
  {
    hide Strip, IsSpace;
    var line := l + "\r";
    StripKeepsNonblank(line);
    assert line[..|l|] == l;
    assert StripCR(line) == l;
    assert ([line] + rest)[1..] == rest;
  }

  /** Splitting the head's text at line feeds and cleaning up gives its lines back. */
  lemma {:induction false} LinesRead(lines: seq<string>)
    requires forall i :: 0 <= i < |lines| ==> GoodLine(lines[i])
    ensures Clean(Split(HeadText(lines), '\n')) == lines
  {
    hide Split, Clean, GoodLine;
    if lines == [] {
      SplitAt([], '\n', []);
      BlankIsCleaned();
    } else {
      var l, more := lines[0], HeadText(lines[1..]);
      assert HeadText(lines) == (l + "\r") + ['\n'] + more;
      assert '\n' !in l + "\r" by {
        assert GoodLine(lines[0]);
        GoodLineEncodes(l);
      }
      SplitAt(l + "\r", '\n', more);
      LinesRead(lines[1..]);
      CleanLine(l, Split(more, '\n'));
      assert [l] + lines[1..] == lines;
    }
  }

  lemma BlankIsCleaned()
    ensures Clean([""]) == []
  {
  }

  // ----- headers

  predicate Readable(h: (string, string)) {
    Trimmed(h.0) && Trimmed(h.1) && ':' !in h.0
  }

  lemma HeaderReads(d: Dict, h: (string, string))
    requires Readable(h) && !HasKey(d, h.0)
    ensures PutHeader(d, HeaderLine(h)) == Ok(d + [h])
  {
    var line := HeaderLine(h);
    assert line == h.0 + [':'] + (" " + h.1);
    FindAt(h.0, ':', " " + h.1);
    assert line[..|h.0|] == h.0 && line[|h.0| + 1..] == " " + h.1;
    StripTrimmed(h.0);
    StripTrimmed(h.1);
    PutNew(d, h.0, h.1);
  }

  lemma {:induction false} HeadersRead(d: Dict, more: Dict)
    requires DistinctKeys(d + more) && forall i :: 0 <= i < |more| ==> Readable(more[i])
    ensures PutHeaders(d, HeaderLines(more)) == Ok(d + more)
    decreases |more|
  {
    hide DistinctKeys, PutHeader, HeaderLine, Readable, HasKey;
    if more == [] {
      assert d + more == d;
    } else {
      DistinctNext(d, more);
      HeaderReads(d, more[0]);
      assert HeaderLines(more)[0] == HeaderLine(more[0]);
      assert HeaderLines(more)[1..] == HeaderLines(more[1..]);
      HeadersRead(d + [more[0]], more[1..]);
    }
  }

  // ----- the length

  lemma {:induction false} DigitsAreTrimmed(n: nat)
    ensures Trimmed(Decimal(n)) && '\n' !in Decimal(n)
    ensures ReadInt(Decimal(n)) == Some(n)
  {
    hide ReadDigits, Decimal;
    DecimalDigits(n);
    DecimalReads(n);
    StripTrimmed(Decimal(n));
  }

  lemma {:induction false} LengthTextOf(d: Dict, tail: Dict)
    requires forall i :: 0 <= i < |d| ==> Lower(d[i].0) != "content-length"
    ensures LengthText(d + tail) == LengthText(tail)
  {
    if d == [] {
      assert d + tail == tail;
    } else {
      assert (d + tail)[1..] == d[1..] + tail;
      LengthTextOf(d[1..], tail);
    }
  }

  lemma LengthKey()
    ensures Lower(CONTENT_LENGTH) == "content-length"
    ensures Trimmed(CONTENT_LENGTH) && ':' !in CONTENT_LENGTH && '\n' !in CONTENT_LENGTH
  {
    var l := Lower(CONTENT_LENGTH);
    assert l == "content-length";
  }

  lemma SentHeadersAre(r: Request)
    requires WellFormed(r)
    ensures SentHeaders(r) == r.headers + if r.body == [] then [] else [(CONTENT_LENGTH, Decimal(|r.body|))]
    ensures DistinctKeys(SentHeaders(r))
    ensures forall i :: 0 <= i < |SentHeaders(r)| ==>
      Readable(SentHeaders(r)[i]) && GoodLine(HeaderLine(SentHeaders(r)[i]))
  {
    LengthKey();
    DigitsAreTrimmed(|r.body|);
    assert !HasKey(r.headers, CONTENT_LENGTH) by {
      forall i | 0 <= i < |r.headers| ensures r.headers[i].0 != CONTENT_LENGTH {
        assert GoodHeader(r.headers[i]);
      }
    }
    assert r.body == [] ==> r.headers + [] == r.headers;
    forall i | 0 <= i < |SentHeaders(r)|
      ensures Readable(SentHeaders(r)[i]) && GoodLine(HeaderLine(SentHeaders(r)[i]))
    {
      if i < |r.headers| {
        assert GoodHeader(r.headers[i]);
      }
      HeaderLineIsGood(SentHeaders(r)[i]);
    }
  }

  lemma HeaderLineIsGood(h: (string, string))
    requires Readable(h) && '\n' !in h.0 && '\n' !in h.1
    ensures GoodLine(HeaderLine(h))
  {
    var l := HeaderLine(h);
    assert l[0] == if h.0 == [] then ':' else h.0[0];
    assert l[|l| - 1] == if h.1 == [] then ' ' else h.1[|h.1| - 1];
  }

  /** The body is framed: it comes back whole and what follows stays unread. */
  lemma BodyReads(r: Request, rest: seq<Byte>)
    requires WellFormed(r)
    ensures ReadBody(SentHeaders(r), r.body + rest) == Ok((r.body, rest))
  {
    hide ReadInt;
    SentHeadersAre(r);
    forall i | 0 <= i < |r.headers| ensures Lower(r.headers[i].0) != "content-length" {
      assert GoodHeader(r.headers[i]);
    }
    if r.body == [] {
      LengthTextOf(r.headers, []);
      assert r.body + rest == rest;
    } else {
      var last := [(CONTENT_LENGTH, Decimal(|r.body|))];
      LengthTextOf(r.headers, last);
      LengthKey();
      DecimalDigits(|r.body|);
      DigitsAreTrimmed(|r.body|);
    }
  }

  // ----- the start line

  lemma {:induction false} FieldEndAt(w: string, more: string)
    requires forall i :: 0 <= i < |w| ==> !IsSpace(w[i])
    ensures FieldEnd(w + " " + more) == |w| && FieldEnd(w) == |w|
  {
    var s := w + " " + more;
    if w == [] {
      assert s[0] == ' ';
    } else {
      assert s[1..] == w[1..] + " " + more;
      FieldEndAt(w[1..], more);
    }
  }

  lemma FieldsOne(w: string)
    requires Token(w)
    ensures Fields(w) == [w]
  {
    FieldEndAt(w, []);
    assert w[..|w|] == w && w[|w|..] == [];
  }

  lemma FieldsMore(w: string, more: string)
    requires Token(w)
    ensures Fields(w + " " + more) == [w] + Fields(more)
  {
    FieldEndAt(w, more);
    var s := w + " " + more;
    assert s[..|w|] == w && s[|w|..] == " " + more;
    assert (" " + more)[1..] == more;
  }

  lemma {:induction false} JoinedChars(parts: seq<string>, sep: char, bad: char)
    requires sep != bad && forall i :: 0 <= i < |parts| ==> bad !in parts[i]
    ensures bad !in JoinWith(parts, sep)
  {
    if |parts| <= 1 {
    } else {
      JoinedChars(parts[1..], sep, bad);
    }
  }

  lemma QueryTextAvoids(q: Dict, bad: char)
    requires !QuoteChar(bad) && bad != '=' && bad != '&'
    ensures bad !in QueryText(q)
  {
    var parts := PairTexts(q);
    forall i | 0 <= i < |parts| ensures bad !in parts[i] {
      QuoteAvoids(q[i].0, bad);
      QuoteAvoids(q[i].1, bad);
    }
    JoinedChars(parts, '&', bad);
  }

  lemma PathTokenIsToken(r: Request)
    requires WellFormed(r)
    ensures Token(PathToken(r)) && '#' !in PathToken(r)
  {
    hide QueryText, DistinctKeys;
    var q := QueryText(r.query);
    forall i | 0 <= i < |q| ensures !IsSpace(q[i]) {
      assert q[i] in q;
      if IsSpace(q[i]) {
        QueryTextAvoids(r.query, q[i]);
      }
    }
    QueryTextAvoids(r.query, '#');
  }

  lemma VersionIsToken()
    ensures Token(VERSION)
  {
  }

  lemma {:induction false} StartReads(r: Request)
    requires WellFormed(r)
    ensures ReadStart(StartLine(r)) == Ok((r.method_, PathToken(r)))
    ensures GoodLine(StartLine(r))
  {
    hide PathToken, Fields;
    PathTokenIsToken(r);
    VersionIsToken();
    FieldsOne(r.method_);
    if PathToken(r) == "/" {
      FieldsMore(VERSION, r.method_);
      TokensMakeLine(VERSION + " " + r.method_);
    } else {
      assert StartLine(r) == VERSION + " " + (r.method_ + " " + PathToken(r));
      FieldsMore(VERSION, r.method_ + " " + PathToken(r));
      FieldsMore(r.method_, PathToken(r));
      FieldsOne(PathToken(r));
      TokensMakeLine(StartLine(r));
    }
  }

  lemma TokensMakeLine(l: string)
    requires l != [] && !IsSpace(l[0]) && !IsSpace(l[|l| - 1])
    requires forall i :: 0 <= i < |l| ==> l[i] == ' ' || !IsSpace(l[i])
    ensures GoodLine(l)
  {
  }

  lemma {:induction false} TokenSplits(lossy: Lossy, r: Request)
    requires WellFormed(r)
    ensures var (path, query) := SplitToken(PathToken(r)); path == r.path && ParseQuery(lossy, query) == r.query
  {
    hide QueryText, DistinctKeys;
    var token := PathToken(r);
    if r.query == [] {
      FindAt(r.path, '?', []);
      assert token[..|token|] == token;
    } else {
      QueryRoundTrip(lossy, r.query);
      assert token == r.path + ['?'] + QueryText(r.query);
      FindAt(r.path, '?', QueryText(r.query));
      assert token[..|r.path|] == r.path && token[|r.path| + 1..] == QueryText(r.query);
    }
  }

  // ----- the whole trip

  lemma {:induction false} LinesAreGood(r: Request)
    requires WellFormed(r)
    ensures forall i :: 0 <= i < |Lines(r)| ==> GoodLine(Lines(r)[i])
  {
    hide GoodLine, StartLine, HeaderLine, SentHeaders;
    StartReads(r);
    SentHeadersAre(r);
  }

  lemma HeadIsRead(lossy: Lossy, r: Request)
    requires WellFormed(r)
    ensures ParseHead(lossy, Encode(HeadText(Lines(r)))) == Ok((StartLine(r), SentHeaders(r)))
  {
    hide Split, Clean, StartLine, HeaderLine, GoodLine, DistinctKeys, HeadText, SentHeaders, Readable, WellFormed,
      PutHeaders, Encode, Decode;
    LinesAreGood(r);
    LinesRead(Lines(r));
    Utf8.RoundTrip(HeadText(Lines(r)));
    SentHeadersAre(r);
    assert [] + SentHeaders(r) == SentHeaders(r);
    HeadersRead([], SentHeaders(r));
    assert Lines(r)[1..] == HeaderLines(SentHeaders(r));
  }

  /** Parsing what was serialized, followed by anything, gives the request back (with its
      content length when it has a body) and leaves exactly what followed unread. */
  lemma {:induction false} RequestRoundTrip(lossy: Lossy, r: Request, rest: seq<Byte>)
    requires WellFormed(r)
    ensures ParseRequest(lossy, Serialize(r) + rest) == Ok((r.(headers := SentHeaders(r)), rest))
  {
    hide ReadUntilBlank, ParseHead, ReadStart, SplitToken, ReadBody, ParseQuery, HeadText, Lines, WellFormed,
      SentHeaders, PathToken;
    var text := HeadText(Lines(r));
    EncodeConcat(text, "\r\n");
    CrLf();
    assert Serialize(r) + rest == Encode(text) + [CR, LF] + (r.body + rest);
    LinesAreGood(r);
    HeadReads(Lines(r), [], r.body + rest);
    assert [] + Encode(text) == Encode(text);
    HeadIsRead(lossy, r);
    StartReads(r);
    TokenSplits(lossy, r);
    BodyReads(r, rest);
  }

  /** A stream starts with at most one request: whatever follows, two well-formed requests
      whose bytes agree are the same request, and the rest of the stream is the same. */
  lemma {:induction false} FramingUnambiguous(a: Request, b: Request, more: seq<Byte>, rest: seq<Byte>)
    requires WellFormed(a) && WellFormed(b)
    ensures Serialize(a) + more == Serialize(b) + rest ==> a == b && more == rest
  {
    hide ParseRequest, Serialize, WellFormed, SentHeaders;
    var lossy: Lossy := (_: seq<Byte>) => "";
    RequestRoundTrip(lossy, a, more);
    RequestRoundTrip(lossy, b, rest);
    SentHeadersAre(a);
    SentHeadersAre(b);
    if Serialize(a) + more == Serialize(b) + rest {
      var n := |a.headers|;
      assert SentHeaders(a)[..n] == a.headers;
      assert SentHeaders(b)[..n] == b.headers;
    }
  }
}
