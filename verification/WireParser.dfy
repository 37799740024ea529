/** The reading and writing of requests step by step (core/wire.py), each step against the
    functions of Wire. */
module WireParser {
  import opened Options
  import opened Utf8
  import opened Strings
  import opened PercentCoding
  import opened Wire

  /** A byte stream whose end is known; `rest` is what nobody has read yet. */
  class Reader {
    var rest: seq<Byte>

    constructor (data: seq<Byte>)
      ensures rest == data
    {
      rest := data;
    }

    /** `readline()`: through the next line feed, or to the end. */
    method ReadLine() returns (line: seq<Byte>)
      modifies this
      ensures line == old(rest)[..LineLength(old(rest))] && line + rest == old(rest)
    {
      var n := LineLength(rest);
      line, rest := rest[..n], rest[n..];
    }

    /** `read(n)`: at most `n` bytes, and everything when `n` is negative. */
    method Read(n: int) returns (chunk: seq<Byte>)
      modifies this
      ensures chunk + rest == old(rest)
      ensures |chunk| == if n < 0 || n > |old(rest)| then |old(rest)| else n
    {
      var m := if n < 0 || n > |rest| then |rest| else n;
      chunk, rest := rest[..m], rest[m..];
    }
  }

  method ReadUntilBlankLine(reader: Reader) returns (res: Read<seq<Byte>>)
    modifies reader
    ensures match ReadUntilBlank(old(reader.rest), [])
            case Err(e) => res == Err(e)
            case Ok((raw, rest)) => res == Ok(raw) && reader.rest == rest
  {
    var chunks: seq<Byte> := [];
    while true
      invariant ReadUntilBlank(reader.rest, chunks) == ReadUntilBlank(old(reader.rest), [])
      decreases |reader.rest|
    {
      ghost var before := reader.rest;
      var line := reader.ReadLine();
      assert before[LineLength(before)..] == reader.rest;
      if line == [] {
        return Err(Closed);
      }
      if line == [CR, LF] || line == [LF] {
        break;
      }
      chunks := chunks + line;
    }
    return Ok(chunks);
  }

  method ParseHeaders(lossy: Lossy, raw: seq<Byte>) returns (res: Read<(string, Dict)>)
    ensures res == ParseHead(lossy, raw)
  {
    var lines := Clean(Split(DecodeLossy(lossy, raw), '\n'));
    if lines == [] {
      return Err(NoHeaderLines);
    }
    var headers: Dict := [];
    var i := 1;
    while i < |lines|
      invariant 1 <= i <= |lines|
      invariant PutHeaders(headers, lines[i..]) == PutHeaders([], lines[1..])
    {
      var line := lines[i];
      assert lines[i..][1..] == lines[i + 1..];
      if ':' !in line {
        NoColon(line);
        return Err(MalformedHeader);
      }
      var c := Find(line, ':');
      ColonFound(line);
      headers := Put(headers, Strip(line[..c]), Strip(line[c + 1..]));
      i := i + 1;
    }
    return Ok((lines[0], headers));
  }

  lemma NoColon(line: string)
    requires ':' !in line
    ensures Find(line, ':') == |line|
  {
  }

  lemma ColonFound(line: string)
    requires ':' in line
    ensures Find(line, ':') < |line|
  {
    assert line[..|line|] == line;
  }

  method ReadBodyFrom(reader: Reader, headers: Dict) returns (res: Read<seq<Byte>>)
    modifies reader
    ensures match ReadBody(headers, old(reader.rest))
            case Err(e) => res == Err(e)
            case Ok((body, rest)) => res == Ok(body) && reader.rest == rest
  {
    var text := "";
    var i := 0;
    while i < |headers|
      invariant 0 <= i <= |headers|
      invariant text == "" && LengthText(headers[i..]) == LengthText(headers)
    {
      if Lower(headers[i].0) == "content-length" {
        text := headers[i].1;
        break;
      }
      i := i + 1;
    }
    if text == "" {
      return Ok([]);
    }
    var length := ReadInt(text);
    if length == None {
      return Err(BadLength);
    }
    if length.value == 0 {
      return Ok([]);
    }
    var raw := reader.Read(length.value);
    if |raw| != length.value {
      return Err(Truncated);
    }
    assert old(reader.rest)[..|raw|] == raw && old(reader.rest)[|raw|..] == reader.rest;
    return Ok(raw);
  }

  method ParseQueryString(lossy: Lossy, text: string) returns (out: Dict)
    ensures out == ParseQuery(lossy, text)
  {
    out := [];
    if text == "" {
      return;
    }
    var pairs := Split(text, '&');
    var i := 0;
    while i < |pairs|
      invariant 0 <= i <= |pairs|
      invariant PutPairs(lossy, out, pairs[i..]) == PutPairs(lossy, [], pairs)
    {
      var pair := pairs[i];
      assert pairs[i..][1..] == pairs[i + 1..];
      i := i + 1;
      if pair == "" {
        continue;
      }
      var e := Find(pair, '=');
      var key := UnquotePlus(lossy, pair[..e]);
      if key == "" {
        continue;
      }
      out := Put(out, key, if e < |pair| then UnquotePlus(lossy, pair[e + 1..]) else "");
    }
  }

  /** `parse_request`: the request the stream starts with, and the stream just past it. */
  method ReadRequest(lossy: Lossy, reader: Reader) returns (res: Read<Request>)
    modifies reader
    ensures match Wire.ParseRequest(lossy, old(reader.rest))
            case Err(e) => res == Err(e)
            case Ok((request, rest)) => res == Ok(request) && reader.rest == rest
  {
    var raw :- ReadUntilBlankLine(reader);
    var head :- ParseHeaders(lossy, raw);
    var (start, headers) := head;
    var request :- ReadStart(start);
    var (verb, token) := request;
    var (path, text) := SplitToken(token);
    var query := ParseQueryString(lossy, text);
    var body :- ReadBodyFrom(reader, headers);
    return Ok(Request(verb, headers, body, path, query));
  }

  // ----- writing

  /** `"\r\n".join(lines)`. */
  function JoinLines(lines: seq<string>): string {
    if lines == [] then [] else if |lines| == 1 then lines[0] else lines[0] + "\r\n" + JoinLines(lines[1..])
  }

  lemma {:induction false} JoinedLinesAreHead(lines: seq<string>)
    requires lines != []
    ensures JoinLines(lines) + "\r\n" == HeadText(lines)
  {
    if |lines| <= 1 {
    } else {
      JoinedLinesAreHead(lines[1..]);
    }
  }

  /** `serialize`: what is written reads back (Wire.RequestRoundTrip). */
  method WriteRequest(r: Request) returns (data: seq<Byte>)
    ensures data == Serialize(r)
  {
    var headers := r.headers;
    if r.body != [] && !HasKey(headers, CONTENT_LENGTH) {
      headers := headers + [(CONTENT_LENGTH, Decimal(|r.body|))];
    }
    var lines := [StartLine(r)];
    var i := 0;
    while i < |headers|
      invariant 0 <= i <= |headers|
      invariant lines == [StartLine(r)] + HeaderLines(headers)[..i]
    {
      lines := lines + [HeaderLine(headers[i])];
      i := i + 1;
    }
    JoinedLinesAreHead(lines);
    assert JoinLines(lines) + "\r\n\r\n" == HeadText(lines) + "\r\n";
    assert HeaderLines(headers)[..|headers|] == HeaderLines(headers);
    data := Encode(JoinLines(lines) + "\r\n\r\n") + r.body;
  }
}
