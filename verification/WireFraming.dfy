/** Requests on the wire, seen from the bytes: what is accepted and what a request looks like
    (core/wire.py). */
module WireFraming {
  import opened Options
  import opened Utf8
  import opened Strings
  import opened PercentCoding
  import opened Wire

  // ----- a request that is cut off

  lemma {:induction false} NoLineFeedLength(line: seq<Byte>)
    requires LF !in line
    ensures LineLength(line) == |line|
  {
    if line == [] {
    } else {
      assert line[0] in line;
      NoLineFeedLength(line[1..]);
    }
  }

  /** A stream that ends within a line ends before the blank line. */
  lemma PartialLine(line: seq<Byte>, acc: seq<Byte>)
    requires LF !in line
    ensures ReadUntilBlank(line, acc) == Err(Closed)
  {
    NoLineFeedLength(line);
    assert line[..|line|] == line && line[|line|..] == [];
    assert ReadUntilBlank([], acc + line) == Err(Closed);
  }

  /** A head that is cut off is reported as a closed connection. */
  lemma {:induction false} HeadCutOff(lines: seq<string>, acc: seq<Byte>, i: nat)
    requires forall j :: 0 <= j < |lines| ==> GoodLine(lines[j])
    requires i < |Encode(HeadText(lines))| + 2
    ensures ReadUntilBlank((Encode(HeadText(lines)) + [CR, LF])[..i], acc) == Err(Closed)
    decreases |lines|
  {
    hide GoodLine, LineLength, Encode;
    var data := (Encode(HeadText(lines)) + [CR, LF])[..i];
    if lines == [] {
      CrLf();
      assert data == if i == 0 then [] else [CR];
      PartialLine(data, acc);
    } else {
      var e, more := Encode(lines[0]), Encode(HeadText(lines[1..])) + [CR, LF];
      EncodeLine(lines[0], HeadText(lines[1..]));
      GoodLineEncodes(lines[0]);
      assert Encode(HeadText(lines)) + [CR, LF] == e + [CR, LF] + more;
      if i < |e| + 2 {
        assert data == (e + [CR])[..i];
        PartialLine(data, acc);
      } else {
        var rest := more[..i - |e| - 2];
        assert data == e + [CR, LF] + rest;
        LineLengthAt(e, rest);
        assert data[..|e| + 2] == e + [CR, LF] && data[|e| + 2..] == rest;
        HeadCutOff(lines[1..], acc + (e + [CR, LF]), i - |e| - 2);
      }
    }
  }

  /** A body that is cut off is not read. */
  lemma BodyCutOff(r: Request, j: nat)
    requires WellFormed(r) && j < |r.body|
    ensures ReadBody(SentHeaders(r), r.body[..j]) == Err(Truncated)
  {
    hide ReadInt;
    SentHeadersAre(r);
    forall i | 0 <= i < |r.headers| ensures Lower(r.headers[i].0) != "content-length" {
      assert GoodHeader(r.headers[i]);
    }
    LengthTextOf(r.headers, [(CONTENT_LENGTH, Decimal(|r.body|))]);
    LengthKey();
    DecimalDigits(|r.body|);
    DigitsAreTrimmed(|r.body|);
  }

  /** No beginning of a serialized request is taken for a request. */
  lemma {:induction false} CutOffIsRefused(lossy: Lossy, r: Request, i: nat)
    requires WellFormed(r) && i < |Serialize(r)|
    ensures ParseRequest(lossy, Serialize(r)[..i]).Err?
  {
    hide ReadUntilBlank, ParseHead, ReadStart, SplitToken, ReadBody, ParseQuery, HeadText, Lines, WellFormed,
      SentHeaders,
      PathToken;
    var text := HeadText(Lines(r));
    var head := Encode(text) + [CR, LF];
    EncodeConcat(text, "\r\n");
    CrLf();
    assert Serialize(r) == head + r.body;
    LinesAreGood(r);
    if i < |head| {
      assert Serialize(r)[..i] == head[..i];
      HeadCutOff(Lines(r), [], i);
    } else {
      var j := i - |head|;
      assert Serialize(r)[..i] == Encode(text) + [CR, LF] + r.body[..j];
      HeadReads(Lines(r), [], r.body[..j]);
      assert [] + Encode(text) == Encode(text);
      HeadIsRead(lossy, r);
      StartReads(r);
      BodyCutOff(r, j);
    }
  }

  // ----- what any accepted input looks like

  /** `raw` is lines, none of them blank. */
  ghost predicate HeadBytes(raw: seq<Byte>)
    decreases |raw|
  {
    raw == [] ||
    var n := LineLength(raw);
    raw[n - 1] == LF && raw[..n] != [LF] && raw[..n] != [CR, LF] && HeadBytes(raw[n..])
  }

  lemma {:induction false} LineLengthIn(data: seq<Byte>)
    requires data != []
    ensures var n := LineLength(data);
      n < |data| ==> data[n - 1] == LF
    ensures LineLength(data[..LineLength(data)]) == LineLength(data)
  {
    if data[0] != LF && |data| > 1 {
      LineLengthIn(data[1..]);
      var n := LineLength(data);
      assert data[1..][..n - 1] == data[..n][1..];
    }
  }

  /** What is read up to a blank line stands in the input before that line. */
  lemma {:induction false} HeadIsInInput(data: seq<Byte>, acc: seq<Byte>)
    returns (head: seq<Byte>, blank: seq<Byte>)
    requires ReadUntilBlank(data, acc).Ok?
    ensures var (raw, rest) := ReadUntilBlank(data, acc).value;
      && raw == acc + head && HeadBytes(head)
      && (blank == [CR, LF] || blank == [LF]) && data == head + blank + rest
    decreases |data|
  {
    hide HeadBytes, LineLength;
    var n := LineLength(data);
    var line, after := data[..n], data[n..];
    assert data == line + after;
    if line == [CR, LF] || line == [LF] {
      head, blank := [], line;
      NothingIsHead();
      assert acc + [] == acc && [] + line == line;
    } else {
      assert ReadUntilBlank(data, acc) == ReadUntilBlank(after, acc + line);
      hide ReadUntilBlank;
      var h;
      h, blank := HeadIsInInput(after, acc + line);
      LineThenHead(data, n, h);
      head := line + h;
      Regroup(acc, line, h);
      Regroup(line, h, blank);
      Regroup(line, h + blank, ReadUntilBlank(data, acc).value.1);
    }
  }

  lemma Regroup(a: seq<Byte>, b: seq<Byte>, c: seq<Byte>)
    ensures a + b + c == a + (b + c)
  {
  }

  lemma NothingIsHead()
    ensures HeadBytes([])
  {
  }

  lemma LineThenHead(data: seq<Byte>, n: nat, head: seq<Byte>)
    requires 0 < n == LineLength(data) < |data| && HeadBytes(head)
    requires data[..n] != [CR, LF] && data[..n] != [LF]
    ensures HeadBytes(data[..n] + head)
  {
    LineLengthIn(data);
    var line := data[..n];
    LineLengthBefore(line, head);
    assert (line + head)[..n] == line && (line + head)[n..] == head;
  }

  lemma {:induction false} LineLengthBefore(line: seq<Byte>, more: seq<Byte>)
    requires line != [] && LineLength(line) == |line| && line[|line| - 1] == LF
    ensures LineLength(line + more) == |line|
  {
    if line[0] == LF {
    } else {
      assert (line + more)[1..] == line[1..] + more;
      LineLengthBefore(line[1..], more);
    }
  }

  /** The header at `i` is the first one named content-length, in any case. */
  ghost predicate FirstLength(d: Dict, i: nat) {
    && i < |d| && Lower(d[i].0) == "content-length"
    && forall j :: 0 <= j < i ==> Lower(d[j].0) != "content-length"
  }

  /** The first header named content-length, in any case, gives the length of the body; an
      empty one, or none, stands for no body. */
  ghost predicate Announces(d: Dict, n: nat) {
    && ((forall i :: 0 <= i < |d| ==> Lower(d[i].0) != "content-length") ==> n == 0)
    && forall i: nat :: FirstLength(d, i) ==> if d[i].1 == "" then n == 0 else ReadInt(d[i].1) == Some(n)
  }

  lemma {:induction false} LengthIsFirst(d: Dict, i: nat)
    requires i <= |d| && forall j :: 0 <= j < i ==> Lower(d[j].0) != "content-length"
    ensures LengthText(d) == LengthText(d[i..])
  {
    if i == 0 {
      assert d[0..] == d;
    } else {
      LengthIsFirst(d[1..], i - 1);
      assert d[1..][i - 1..] == d[i..];
    }
  }

  /** Whatever is accepted is a head through its blank line, a body of the announced length,
      and what is left unread. */
  lemma {:induction false} AcceptedInput(lossy: Lossy, data: seq<Byte>)
    requires ParseRequest(lossy, data).Ok?
    ensures var (r, rest) := ParseRequest(lossy, data).value;
      && Announces(r.headers, |r.body|)
      && exists head, blank :: (
           && HeadBytes(head) && (blank == [CR, LF] || blank == [LF])
           && data == head + blank + r.body + rest)
  {
    hide ParseHead, ReadStart, SplitToken, ParseQuery, HeadBytes, ReadUntilBlank;
    var (raw, after) := ReadUntilBlank(data, []).value;
    var (r, rest) := ParseRequest(lossy, data).value;
    var head, blank := HeadIsInInput(data, []);
    BodyExactly(r.headers, after, r.body, rest);
    assert data == head + blank + r.body + rest;
  }

  /** Exactly what is read of a body: as many bytes as are announced, when they are there. */
  lemma {:induction false} BodyExactly(d: Dict, data: seq<Byte>, body: seq<Byte>, rest: seq<Byte>)
    ensures ReadBody(d, data) == Ok((body, rest)) <==> data == body + rest && Announces(d, |body|)
  {
    hide ReadInt, Lower;
    var i := FirstOf(d);
    LengthIsFirst(d, i);
    if i < |d| {
      assert FirstLength(d, i);
      assert forall j: nat :: FirstLength(d, j) ==> j == i;
    }
    if data == body + rest {
      assert data[..|body|] == body && data[|body|..] == rest;
    }
  }

  /** Position of the first header named content-length, or the number of headers. */
  ghost function FirstOf(d: Dict): (i: nat)
    ensures i <= |d| && (i < |d| ==> Lower(d[i].0) == "content-length")
    ensures forall j :: 0 <= j < i ==> Lower(d[j].0) != "content-length"
  {
    if d == [] || Lower(d[0].0) == "content-length" then 0 else 1 + FirstOf(d[1..])
  }

  /** Exactly the start lines that are accepted: the version, a method, and at most a path
      token without a fragment. */
  lemma AcceptedStart(start: string, verb: string, token: string)
    ensures ReadStart(start) == Ok((verb, token))
      <==> ('#' !in token
        && ((Fields(start) == ["AGTP/1.0", verb] && token == "/") || Fields(start) == ["AGTP/1.0", verb, token]))
  {
    assert '#' !in "/" by {
      assert "/"[0] == '/';
    }
  }

  /** A path token ends its path at the first question mark; an empty path is the root. */
  lemma TokenMeans(path: string, query: string)
    requires '?' !in path
    ensures SplitToken(path + "?" + query) == (if path == "" then "/" else path, query)
    ensures SplitToken(path) == (if path == "" then "/" else path, "")
  {
    FindAt(path, '?', query);
    var s := path + "?" + query;
    assert s[..|path|] == path && s[|path| + 1..] == query && path[..|path|] == path;
  }

  // ----- dictionaries: the last one wins

  function Lookup(d: Dict, k: string): Option<string> {
    if d == [] then None else if d[0].0 == k then Some(d[0].1) else Lookup(d[1..], k)
  }

  lemma {:induction false} LookupPut(d: Dict, k: string, v: string, x: string)
    ensures Lookup(Put(d, k, v), x) == if x == k then Some(v) else Lookup(d, x)
  {
    if d == [] {
    } else {
      LookupPut(d[1..], k, v, x);
    }
  }

  /** The value of the last pair of that key. */
  function LastValue(lossy: Lossy, pairs: seq<string>, k: string): Option<string> {
    if pairs == [] then None
    else
      var p := pairs[|pairs| - 1];
      var i := Find(p, '=');
      if UnquotePlus(lossy, p[..i]) == k then Some(if i < |p| then UnquotePlus(lossy, p[i + 1..]) else "")
      else LastValue(lossy, pairs[..|pairs| - 1], k)
  }

  /** A query text denotes, for each nonempty key, the value of the last of its pairs with
      that key; a pair without `=` has an empty value. */
  lemma {:induction false} QueryMeans(lossy: Lossy, s: string, k: string)
    requires k != ""
    ensures Lookup(ParseQuery(lossy, s), k) == LastValue(lossy, Split(s, '&'), k)
  {
    hide UnquotePlus;
    if s == "" {
      assert Split(s, '&') == [""];
      EmptyPair(lossy, k);
    } else {
      PairsMean(lossy, [], Split(s, '&'), k);
    }
  }

  lemma EmptyPair(lossy: Lossy, k: string)
    requires k != ""
    ensures LastValue(lossy, [""], k) == None
  {
    assert UnquotePlus(lossy, "") == "";
    assert LastValue(lossy, [], k) == None;
    assert [""][..0] == [];
  }

  lemma {:induction false} PairsMean(lossy: Lossy, d: Dict, pairs: seq<string>, k: string)
    requires k != ""
    ensures Lookup(PutPairs(lossy, d, pairs), k)
      == if LastValue(lossy, pairs, k).Some? then LastValue(lossy, pairs, k) else Lookup(d, k)
    decreases |pairs|
  {
    hide UnquotePlus, PutPair;
    if pairs == [] {
    } else {
      var front, last := pairs[..|pairs| - 1], pairs[|pairs| - 1];
      PairsMean(lossy, d, front, k);
      assert pairs == front + [last];
      PutLast(lossy, d, front, last);
      OnePair(lossy, PutPairs(lossy, d, front), last, k);
    }
  }

  lemma {:induction false} PutLast(lossy: Lossy, d: Dict, front: seq<string>, last: string)
    ensures PutPairs(lossy, d, front + [last]) == PutPair(lossy, PutPairs(lossy, d, front), last)
    decreases |front|
  {
    hide PutPair;
    if front == [] {
      assert front + [last] == [last] && [last][1..] == [];
    } else {
      assert (front + [last])[1..] == front[1..] + [last];
      PutLast(lossy, PutPair(lossy, d, front[0]), front[1..], last);
    }
  }

  lemma OnePair(lossy: Lossy, d: Dict, p: string, k: string)
    requires k != ""
    ensures var i := Find(p, '=');
      Lookup(PutPair(lossy, d, p), k)
        == if UnquotePlus(lossy, p[..i]) == k then Some(if i < |p| then UnquotePlus(lossy, p[i + 1..]) else "")
           else Lookup(d, k)
  {
    hide UnquotePlus, Put;
    var i := Find(p, '=');
    var key := UnquotePlus(lossy, p[..i]);
    if p == "" {
      assert p[..i] == "";
      UnquoteNothing(lossy);
    } else if key != "" {
      LookupPut(d, key, if i < |p| then UnquotePlus(lossy, p[i + 1..]) else "", k);
    }
  }

  lemma UnquoteNothing(lossy: Lossy)
    ensures UnquotePlus(lossy, "") == ""
  {
  }

  /** The value of the last header line of that name. */
  function LastHeader(lines: seq<string>, k: string): Option<string> {
    if lines == [] then None
    else
      var l := lines[|lines| - 1];
      var i := Find(l, ':');
      if i < |l| && Strip(l[..i]) == k then Some(Strip(l[i + 1..])) else LastHeader(lines[..|lines| - 1], k)
  }

  /** Header lines are accepted exactly if each has a colon, and of two with one name the
      later one counts. */
  lemma {:induction false} HeadersMean(d: Dict, lines: seq<string>, k: string)
    ensures PutHeaders(d, lines).Ok? <==> forall l :: l in lines ==> ':' in l
    ensures PutHeaders(d, lines).Ok? ==>
      Lookup(PutHeaders(d, lines).value, k)
        == if LastHeader(lines, k).Some? then LastHeader(lines, k) else Lookup(d, k)
    decreases |lines|
  {
    hide Strip;
    if lines == [] {
    } else {
      var l, rest := lines[0], lines[1..];
      assert lines == [l] + rest;
      ColonAt(l);
      if ':' in l {
        var i := Find(l, ':');
        var d' := Put(d, Strip(l[..i]), Strip(l[i + 1..]));
        LookupPut(d, Strip(l[..i]), Strip(l[i + 1..]), k);
        HeadersMean(d', rest, k);
        LastOfMore(l, rest, k);
      }
    }
  }

  lemma ColonAt(l: string)
    ensures Find(l, ':') < |l| <==> ':' in l
  {
    assert l[..|l|] == l;
  }

  lemma {:induction false} LastOfMore(l: string, rest: seq<string>, k: string)
    ensures LastHeader([l] + rest, k)
      == if LastHeader(rest, k).Some? then LastHeader(rest, k) else LastHeader([l], k)
    decreases |rest|
  {
    hide Strip;
    if rest == [] {
      assert [l] + rest == [l];
    } else {
      var front := rest[..|rest| - 1];
      assert ([l] + rest)[..|rest|] == [l] + front;
      LastOfMore(l, front, k);
    }
  }

  // ----- what a request looks like

  lemma {:induction false} LastLine(lines: seq<string>, l: string)
    ensures HeadText(lines + [l]) == HeadText(lines) + l + "\r\n"
  {
    if lines == [] {
      assert [] + [l] == [l] && [l][1..] == [];
    } else {
      assert (lines + [l])[1..] == lines[1..] + [l];
      LastLine(lines[1..], l);
    }
  }

  /** The start line: the version, the method, and the path unless it is the root and there
      is no query. */
  lemma StartLineText(
    verb: string, headers: Dict, body: seq<Byte>, path: string, k: string, v: string, x: string, y: string)
    ensures StartLine(Request(verb, headers, body, "", [])) == "AGTP/1.0 " + verb
    ensures StartLine(Request(verb, headers, body, "/", [])) == "AGTP/1.0 " + verb
    ensures path != "" && path != "/" ==>
      StartLine(Request(verb, headers, body, path, [])) == "AGTP/1.0 " + verb + " " + path
    ensures path != "" ==>
      StartLine(Request(verb, headers, body, path, [(k, v)]))
        == "AGTP/1.0 " + verb + " " + path + "?" + Quote(k) + "=" + Quote(v)
    ensures path != "" ==>
      StartLine(Request(verb, headers, body, path, [(k, v), (x, y)]))
        == "AGTP/1.0 " + verb + " " + path + "?" + Quote(k) + "=" + Quote(v) + "&" + Quote(x) + "=" + Quote(y)
  {
    hide Quote;
    var one, two := PairTexts([(k, v)]), PairTexts([(k, v), (x, y)]);
    assert one == [Quote(k) + "=" + Quote(v)];
    assert two == [Quote(k) + "=" + Quote(v), Quote(x) + "=" + Quote(y)];
    assert two[1..] == [Quote(x) + "=" + Quote(y)];
    assert JoinWith(two, '&') == Quote(k) + "=" + Quote(v) + "&" + (Quote(x) + "=" + Quote(y));
    if path != "" {
      var t := path + "?" + QueryText([(k, v)]);
      var u := path + "?" + QueryText([(k, v), (x, y)]);
      assert |t| > 1 && |u| > 1;
      assert "AGTP/1.0 " + verb + " " + t == "AGTP/1.0 " + verb + " " + path + "?" + Quote(k) + "=" + Quote(v);
      assert "AGTP/1.0 " + verb + " " + u
        == "AGTP/1.0 " + verb + " " + path + "?" + Quote(k) + "=" + Quote(v) + "&" + Quote(x) + "=" + Quote(y);
    }
  }

  /** A request with a header and a body, in full. */
  lemma RequestText(r: Request, k: string, v: string)
    requires r.headers == [(k, v)] && k != "Content-Length" && r.body != []
    ensures Serialize(r)
      == Encode(StartLine(r) + "\r\n" + k + ": " + v + "\r\n" + "Content-Length: " + Decimal(|r.body|) + "\r\n"
        + "\r\n") + r.body
  {
    hide StartLine, Encode;
    var n := Decimal(|r.body|);
    var lines := [StartLine(r), HeaderLine((k, v)), HeaderLine((CONTENT_LENGTH, n))];
    assert SentHeaders(r) == [(k, v), (CONTENT_LENGTH, n)];
    assert Lines(r) == lines;
    LastLine([], StartLine(r));
    LastLine([StartLine(r)], HeaderLine((k, v)));
    LastLine([StartLine(r), HeaderLine((k, v))], HeaderLine((CONTENT_LENGTH, n)));
    assert [] + [StartLine(r)] == [StartLine(r)];
    assert [StartLine(r)] + [HeaderLine((k, v))] == [StartLine(r), HeaderLine((k, v))];
    assert [StartLine(r), HeaderLine((k, v))] + [HeaderLine((CONTENT_LENGTH, n))] == lines;
    assert HeadText(lines) + "\r\n"
      == StartLine(r) + "\r\n" + k + ": " + v + "\r\n" + "Content-Length: " + n + "\r\n" + "\r\n";
  }

  // ----- the texts of a head

  /** White space separates fields, however much of it there is. */
  lemma {:induction false} FieldsAcross(a: string, c: char, b: string)
    requires IsSpace(c)
    ensures Fields(a + [c] + b) == Fields(a) + Fields(b)
    decreases |a|
  {
    hide IsSpace;
    var s := a + [c] + b;
    if a == [] {
      assert s[0] == c && s[1..] == b;
    } else if IsSpace(a[0]) {
      assert s[1..] == a[1..] + [c] + b;
      FieldsAcross(a[1..], c, b);
    } else {
      var n := FieldEnd(a);
      FieldEndBefore(a, c, b);
      assert s[..n] == a[..n] && s[n..] == a[n..] + [c] + b;
      FieldsAcross(a[n..], c, b);
      assert [a[..n]] + (Fields(a[n..]) + Fields(b)) == [a[..n]] + Fields(a[n..]) + Fields(b);
    }
  }

  lemma {:induction false} FieldEndBefore(a: string, c: char, b: string)
    requires IsSpace(c)
    ensures FieldEnd(a + [c] + b) == FieldEnd(a)
  {
    hide IsSpace;
    if a != [] {
      assert (a + [c] + b)[1..] == a[1..] + [c] + b;
      FieldEndBefore(a[1..], c, b);
    }
  }

  /** A line of a head loses the carriage returns at its end, and counts only if it is not blank. */
  lemma {:induction false} CleanLine(lines: seq<string>, more: seq<string>, l: string)
    ensures Clean(lines + more) == Clean(lines) + Clean(more)
    ensures Strip(l) == "" ==> Clean([l]) == []
    ensures Strip(l) != "" ==>
      exists n: nat :: n <= |l| && Clean([l]) == [l[..n]] && (n > 0 ==> l[n - 1] != '\r')
                  && forall i :: n <= i < |l| ==> l[i] == '\r'
  {
    hide Strip;
    StripCREnds(l);
    assert [l][1..] == [];
    if lines == [] {
      assert lines + more == more;
    } else {
      assert (lines + more)[1..] == lines[1..] + more;
      CleanLine(lines[1..], more, l);
    }
  }

  lemma {:induction false} StripCREnds(l: string)
    ensures var n := |StripCR(l)|;
      && n <= |l| && StripCR(l) == l[..n] && (n > 0 ==> l[n - 1] != '\r')
      && forall i :: n <= i < |l| ==> l[i] == '\r'
  {
    if l != [] && l[|l| - 1] == '\r' {
      StripCREnds(l[..|l| - 1]);
    }
  }
}
