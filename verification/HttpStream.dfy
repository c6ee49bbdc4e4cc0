/** Requests read from and written to a stream, line by line. */
module HttpStream {
  import opened Characters
  import opened Http
  import opened Options

  class InputStream {
    const text: string
    var pos: nat

    ghost predicate Valid()
      reads this
    {
      pos <= |text|
    }

    ghost function View(): string
      reads this
      requires Valid()
    {
      text[pos..]
    }

    constructor (text: string)
      ensures Valid() && View() == text
    {
      this.text := text;
      pos := 0;
    }

    /** The characters up to the next `end`, which is taken off the stream as well; nothing once the
        stream is used up. */
    method GetLine(end: char) returns (line: Option<string>)
      requires Valid()
      modifies this`pos
      ensures Valid()
      ensures var s := old(View()); var n := UpTo(s, end);
              line == (if s == [] then None else Some(s[..n])) && View() == if n < |s| then s[n + 1..] else []
    {
      if pos >= |text| {
        return None;
      }
      var start := pos;
      ghost var s := View();
      while pos < |text| && text[pos] != end
        invariant Valid() && start <= pos
        invariant forall i :: start <= i < pos ==> text[i] != end
      {
        pos := pos + 1;
      }
      assert forall i :: 0 <= i < pos - start ==> s[i] == text[start + i];
      if pos < |text| {
        UpToFirst(s, end, pos - start);
      } else {
        UpToNone(s, end);
      }
      line := Some(text[start..pos]);
      assert text[start..pos] == s[..pos - start];
      if pos < |text| {
        pos := pos + 1;
        assert View() == s[pos - start..];
      }
    }
  }

  lemma UpToNone(s: string, c: char)
    requires forall i :: 0 <= i < |s| ==> s[i] != c
    ensures UpTo(s, c) == |s|
  {}

  /** One turn of the loop over the headers. */
  lemma HeadersStep(s: string, headers: seq<Header>)
    ensures ReadHeaders(s, headers) ==
      var n := UpTo(s, '\n');
      var rest := if n < |s| then s[n + 1..] else [];
      if s == [] then (headers, [])
      else if Chop(s[..n]) == [] then (headers, rest)
      else ReadHeaders(rest, AddHeader(headers, Chop(s[..n])))
  {
    hide UpTo, Chop, AddHeader;
  }

  /** The headers up to the empty line, which is taken off the stream. */
  method ReadHeaderLines(stream: InputStream) returns (headers: seq<Header>)
    requires stream.Valid()
    modifies stream`pos
    ensures stream.Valid() && (headers, stream.View()) == ReadHeaders(old(stream.View()), [])
  {
    hide AddHeader, UpTo, Chop, ReadHeaders;
    headers := [];
    while true
      invariant stream.Valid()
      invariant ReadHeaders(stream.View(), headers) == ReadHeaders(old(stream.View()), [])
      decreases |stream.View()|
    {
      HeadersStep(stream.View(), headers);
      var line := stream.GetLine('\n');
      if line.None? {
        break;
      }
      var header := Chop(line.value);
      if header == [] {
        break;
      }
      headers := AddHeader(headers, header);
    }
  }

  method DeserializeRequest(s: string) returns (r: Option<Request>)
    ensures r == Deserialize(s)
  {
    hide RequestLine, Chop, UpTo, ReadHeaders;
    if s == [] {
      return None;
    }
    var stream := new InputStream(s);
    var first := stream.GetLine('\n');
    var parsed := RequestLine(Chop(first.value));
    if parsed.None? {
      return None;
    }
    var (verb, path, version) := parsed.value;
    var headers := ReadHeaderLines(stream);
    ghost var rest := stream.View();
    var body := stream.GetLine('\0');
    assert rest == [] ==> rest[..UpTo(rest, '\0')] == [];
    r := Some(Request(verb, path, version, headers, if body.Some? then body.value else []));
  }

  method SerializeRequest(req: Request) returns (text: string)
    ensures text == Serialize(req)
  {
    hide HeaderLine, MethodName, Decimal;
    text := RequestLineText(req) + "\r\n";
    text := WriteHeaders(text, req.headers, req.body);
    text := text + "\r\n";
    text := text + req.body;
  }

  /** The headers, and behind them the length of a body that has none. */
  method WriteHeaders(start: string, headers: seq<Header>, body: string) returns (text: string)
    ensures text == start + HeaderLines(WrittenHeaders(headers, body))
  {
    hide HeaderLine, Decimal;
    text := start;
    var i := 0;
    LinesNone();
    assert start + [] == start;
    while i < |headers|
      invariant i <= |headers| && text == start + HeaderLines(headers[..i])
    {
      LinesSnoc(headers[..i], headers[i]);
      assert headers[..i + 1] == headers[..i] + [headers[i]];
      Appended(start, HeaderLines(headers[..i]), HeaderLine(headers[i]), "\r\n");
      text := text + HeaderLine(headers[i]) + "\r\n";
      i := i + 1;
    }
    assert headers[..i] == headers;
    if body != [] && Lookup(headers, "Content-Length").None? {
      ghost var h := Header("Content-Length", Decimal(|body|));
      LinesSnoc(headers, h);
      LengthLine(Decimal(|body|));
      Appended(start, HeaderLines(headers), HeaderLine(h), "\r\n");
      text := text + ("Content-Length: " + Decimal(|body|)) + "\r\n";
    }
  }

  lemma LinesNone()
    ensures HeaderLines([]) == []
  {}

  lemma Appended(a: string, b: string, c: string, d: string)
    ensures a + b + c + d == a + (b + c + d)
  {}

  lemma LengthLine(n: string)
    ensures HeaderLine(Header("Content-Length", n)) == "Content-Length: " + n
  {
    assert "Content-Length" + ": " == "Content-Length: ";
  }

  lemma {:induction false} LinesSnoc(headers: seq<Header>, h: Header)
    ensures HeaderLines(headers + [h]) == HeaderLines(headers) + HeaderLine(h) + "\r\n"
  {
    hide HeaderLine;
    if headers == [] {
      assert (headers + [h])[1..] == [] && HeaderLines([]) == [];
      assert [] + HeaderLine(h) == HeaderLine(h);
    } else {
      assert (headers + [h])[1..] == headers[1..] + [h];
      LinesSnoc(headers[1..], h);
      Appended(HeaderLine(headers[0]) + "\r\n", HeaderLines(headers[1..]), HeaderLine(h), "\r\n");
    }
  }
}
