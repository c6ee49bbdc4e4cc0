/** Responses: how they are written, and what the client that reads the text sees. */
module HttpResponse {
  import opened Characters
  import opened Http
  import HttpRoundTrip
  import HttpStream
  import opened Options
  import opened StringOrder

  datatype Response = Response(code: int, version: string, headers: seq<Header>, body: string)

  /** The reason phrases; other codes are written as unknown. */
  function Reason(code: int): string {
    if code == 200 then "OK"
    else if code == 201 then "Created"
    else if code == 204 then "No Content"
    else if code == 400 then "Bad Request"
    else if code == 404 then "Not Found"
    else if code == 405 then "Method Not Allowed"
    else if code == 500 then "Internal Server Error"
    else if code == 501 then "Not Implemented"
    else "Unknown"
  }

  function StatusLine(r: Response): string {
    r.version + " " + Decimal(r.code) + " " + Reason(r.code)
  }

  function SerializeResponse(r: Response): string {
    StatusLine(r) + "\r\n" + HeaderLines(WrittenHeaders(r.headers, r.body)) + "\r\n" + r.body
  }

  function PlainText(): string {
    "text/plain; charset=utf-8"
  }

  /** A text response. */
  function MakeText(code: int, text: string): Response {
    Response(code, "HTTP/1.1", [Header("Content-Type", PlainText())], text)
  }

  lemma DecimalExamples()
    ensures Decimal(200) == "200" && Decimal(400) == "400" && Decimal(404) == "404" && Decimal(500) == "500" && Decimal(2) == "2"
  {
    assert Digits(2) == "2" && Digits(20) == "20" && Digits(200) == "200";
    assert Digits(4) == "4" && Digits(40) == "40" && Digits(400) == "400" && Digits(404) == "404";
    assert Digits(5) == "5" && Digits(50) == "50" && Digits(500) == "500";
  }

  /** The first lines that the server writes. */
  lemma StatusLines(text: string)
    ensures StatusLine(MakeText(200, text)) == "HTTP/1.1" + " " + "200" + " " + "OK"
    ensures StatusLine(MakeText(400, text)) == "HTTP/1.1" + " " + "400" + " " + "Bad Request"
    ensures StatusLine(MakeText(404, text)) == "HTTP/1.1" + " " + "404" + " " + "Not Found"
    ensures StatusLine(MakeText(500, text)) == "HTTP/1.1" + " " + "500" + " " + "Internal Server Error"
  {
    hide Decimal;
    DecimalExamples();
  }

  // ----- reading -----

  /** A response as it was read; a line that ends before the code leaves the code unset. */
  datatype Seen = Seen(code: Option<int>, version: string, headers: seq<Header>, body: string)

  function Clamped(n: int): int {
    if n > 0x7FFF_FFFF then 0x7FFF_FFFF else if n < -0x8000_0000 then -0x8000_0000 else n
  }

  /** A number from a stream: a sign and digits, 0 without digits, and the nearest one if it does not
      fit 32 bits. */
  function StreamNumber(s: string): int {
    var from := if s != [] && (s[0] == '-' || s[0] == '+') then s[1..] else s;
    var n: int := DigitsValue(from[..DigitSpan(from)]);
    Clamped(if s != [] && s[0] == '-' then -n else n)
  }

  function StatusOf(line: string): (string, Option<int>) {
    var (version, rest) := Word(line);
    var t := SkipSpace(rest);
    (version, if t == [] then None else Some(StreamNumber(t)))
  }

  function DeserializeResponse(s: string): Option<Seen> {
    if s == [] then None
    else
      var (version, code) := StatusOf(Line(s));
      var (headers, rest) := ReadHeaders(AfterLine(s), []);
      Some(Seen(code, version, headers, rest[..UpTo(rest, '\0')]))
  }

  // ----- the status line -----

  predicate Fits32(n: int) {
    -0x8000_0000 <= n <= 0x7FFF_FFFF
  }

  lemma DecimalWord(n: int)
    ensures IsWord(Decimal(n)) && '\n' !in Decimal(n)
  {
    var d := Digits(if n < 0 then -n else n);
    assert forall i :: 0 <= i < |d| ==> IsDigit(d[i]);
    var s := Decimal(n);
    forall i | 0 <= i < |s| ensures !IsSpace(s[i]) && s[i] != '\n' {
      assert s[i] == '-' || IsDigit(s[i]);
    }
  }

  lemma StreamDecimal(n: int, rest: string)
    requires rest == [] || !IsDigit(rest[0])
    ensures StreamNumber(Decimal(n) + rest) == Clamped(n)
  {
    hide DigitsValue, DigitSpan, Digits, Clamped;
    var d := Digits(if n < 0 then -n else n);
    var s := Decimal(n) + rest;
    DigitsRead(if n < 0 then -n else n);
    SpanWhole(d, rest);
    assert (d + rest)[..|d|] == d;
    if n < 0 {
      assert s[0] == '-' && s[1..] == d + rest;
    } else {
      assert s == d + rest && IsDigit(s[0]);
    }
  }

  // No reason phrase has a line break.
  lemma CleanNoContent() ensures '\n' !in "No Content" { assert "No Content" == "No" + " Content"; }
  lemma CleanBadRequest() ensures '\n' !in "Bad Request" { assert "Bad Request" == "Bad" + " Request"; }
  lemma CleanNotFound() ensures '\n' !in "Not Found" { assert "Not Found" == "Not" + " Found"; }
  lemma CleanNotAllowed() ensures '\n' !in "Method Not Allowed" { assert "Method Not Allowed" == "Method" + " Not" + " Allowed"; }
  lemma CleanInternalError() ensures '\n' !in "Internal Server Error" { assert "Internal Server Error" == "Internal" + " Server" + " Error"; }
  lemma CleanNotImplemented() ensures '\n' !in "Not Implemented" { assert "Not Implemented" == "Not" + " Implemented"; }

  lemma CleanReason(code: int)
    ensures '\n' !in Reason(code)
  {
    CleanNoContent();
    CleanBadRequest();
    CleanNotFound();
    CleanNotAllowed();
    CleanInternalError();
    CleanNotImplemented();
  }

  /** Version and code are read back from the line; an empty version lets the code take its place. */
  lemma StatusRead(r: Response)
    ensures IsWord(r.version) ==> StatusOf(StatusLine(r)) == (r.version, Some(Clamped(r.code)))
    ensures r.version == [] ==> StatusOf(StatusLine(r)).0 != []
    ensures '\n' !in r.version ==> '\n' !in StatusLine(r)
  {
    hide Word, Digits, StreamNumber, IsWord, Reason, Clamped;
    var d := Decimal(r.code);
    var tail := " " + Reason(r.code);
    DecimalWord(r.code);
    CleanReason(r.code);
    if IsWord(r.version) {
      assert StatusLine(r) == "" + (r.version + (" " + (d + tail)));
      WordOf("", r.version, " " + (d + tail));
      Words(d);
      FirstNoSpace(d);
      SkipTo(" ", d + tail);
      assert (d + tail)[0] == d[0];
      StreamDecimal(r.code, tail);
    }
    if r.version == [] {
      assert StatusLine(r) == " " + (d + tail);
      WordOf(" ", d, tail);
    }
  }

  lemma FirstNoSpace(w: string)
    requires IsWord(w)
    ensures w != [] && !IsSpace(w[0])
  {}

  // ----- what is read of a response that was written -----

  /** A request with the same headers and body. */
  function Carrier(r: Response): Request {
    Request(GET, "/", "HTTP/1.1", r.headers, r.body)
  }

  /** The response as its receiver sees it: with the length of the body. */
  function WithLengthSeen(r: Response): Seen {
    Seen(Some(r.code), r.version, WithLength(Carrier(r)).headers, r.body)
  }

  lemma ResponseRead(r: Response)
    requires IsWord(r.version)
    requires var hs := WrittenHeaders(r.headers, r.body); forall i :: 0 <= i < |hs| ==> OneLine(hs[i])
    ensures var headers := SetAll([], ReceivedAll(WrittenHeaders(r.headers, r.body)));
            DeserializeResponse(SerializeResponse(r))
            == Some(Seen(Some(Clamped(r.code)), r.version, headers, r.body[..UpTo(r.body, '\0')]))
  {
    hide StatusLine, StatusOf, Line, AfterLine, ReadHeaders, HeaderLines, OneLine, SetHeader, UpTo, IsWord, Clamped;
    var l := StatusLine(r);
    var hs := WrittenHeaders(r.headers, r.body);
    var rest := HeaderLines(hs) + "\r\n" + r.body;
    assert SerializeResponse(r) == l + "\r\n" + rest;
    Words(r.version);
    StatusRead(r);
    WrittenLine(l, rest);
    HeadersRead([], hs, r.body);
  }

  /** What a response must meet to survive being written. */
  ghost predicate WellFormedResponse(r: Response) {
    Fits32(r.code) && IsWord(r.version)
    && NamesSorted(r.headers) && (forall i :: 0 <= i < |r.headers| ==> CleanHeader(r.headers[i]))
    && '\0' !in r.body
  }

  lemma VersionRead(s: string)
    requires DeserializeResponse(s).Some?
    ensures var v := DeserializeResponse(s).value;
            (v.version == [] || IsWord(v.version)) && HttpRoundTrip.WellRead(v.headers) && '\0' !in v.body
            && (v.code.Some? ==> Fits32(v.code.value))
  {
    hide ReadHeaders, Line, AfterLine, IsWord, UpTo, DigitsValue, DigitSpan, Word;
    HttpRoundTrip.WordIsWord(Line(s));
    HttpRoundTrip.ReadWellRead(AfterLine(s), []);
  }

  lemma NoVersion(r: Response)
    requires r.version == []
    ensures DeserializeResponse(SerializeResponse(r)).Some?
    ensures DeserializeResponse(SerializeResponse(r)).value.version != []
  {
    hide StatusLine, StatusOf, Line, AfterLine, ReadHeaders, HeaderLines, UpTo;
    var rest := HeaderLines(WrittenHeaders(r.headers, r.body)) + "\r\n" + r.body;
    assert SerializeResponse(r) == StatusLine(r) + "\r\n" + rest;
    StatusRead(r);
    WrittenLine(StatusLine(r), rest);
  }

  /** A response that was written is read back, with its length where that was missing, exactly if it
      is well formed. */
  lemma ResponseRoundTrip(r: Response)
    ensures DeserializeResponse(SerializeResponse(r)) == Some(WithLengthSeen(r)) <==> WellFormedResponse(r)
  {
    hide DeserializeResponse, SerializeResponse, OneLine, IsWord, WrittenHeaders, ReceivedAll, HttpRoundTrip.WellRead;
    var req := Carrier(r);
    var hs := WrittenHeaders(r.headers, r.body);
    if WellFormedResponse(r) {
      assert WellFormed(req) by { assert IsWord("/") && IsWord("HTTP/1.1") by { CarrierWords(); } }
      WrittenClean(req);
      forall i | 0 <= i < |hs| ensures OneLine(hs[i]) {
        CleanIsOneLine(hs[i]);
      }
      ResponseRead(r);
      ReceivedClean(hs);
      SetWritten(req);
      NoNull(r.body);
      assert r.body[..|r.body|] == r.body;
    } else if DeserializeResponse(SerializeResponse(r)) == Some(WithLengthSeen(r)) {
      VersionRead(SerializeResponse(r));
      if r.version == [] { NoVersion(r); }
      HttpRoundTrip.WithoutLength(req);
      HttpRoundTrip.WrittenOneLine(req);
      ResponseRead(r);
      HttpRoundTrip.HeadersArrive(req);
      HttpRoundTrip.AllClean(r.headers);
    }
  }

  lemma CarrierWords()
    ensures IsWord("/") && IsWord("HTTP/1.1")
  {}

  // ----- text responses -----

  /** The length that a client finds announced: 0 without a usable announcement. */
  function LengthSeen(v: Seen): nat {
    ContentLength(Request(GET, "/", v.version, v.headers, v.body))
  }

  /** A client reads the code and the text of a text response, up to a null character in it, and the
      announced length is that of the text. */
  lemma TextSeen(code: int, text: string)
    requires Fits32(code) && |text| < 0x1_0000_0000_0000_0000
    ensures var seen := DeserializeResponse(SerializeResponse(MakeText(code, text)));
            seen.Some? && seen.value.code == Some(code) && seen.value.version == "HTTP/1.1"
            && seen.value.body == text[..UpTo(text, '\0')] && LengthSeen(seen.value) == |text|
            && Lookup(seen.value.headers, "Content-Type") == Some(PlainText())
  {
    hide DeserializeResponse, SerializeResponse, UpTo, PlainText, Lookup, ContentLength, WithLength, MakeText, Carrier, LengthSeen;
    TextRead(code, text);
    TypeKept(code, text);
    TextLength(code, text, Seen(Some(code), "HTTP/1.1", WithLength(Carrier(MakeText(code, text))).headers, text[..UpTo(text, '\0')]));
  }

  lemma TextLength(code: int, text: string, seen: Seen)
    requires |text| < 0x1_0000_0000_0000_0000 && seen.headers == WithLength(Carrier(MakeText(code, text))).headers
    ensures LengthSeen(seen) == |text|
  {
    hide UpTo, PlainText, Lookup, ContentLength, Announced, WithLength, MakeText, Carrier;
    var req := Carrier(MakeText(code, text));
    WrittenLength(req);
    TextAnnounced(code, text);
    SameHeadersSameLength(Request(GET, "/", seen.version, seen.headers, seen.body), WithLength(req));
    CarrierBody(MakeText(code, text));
  }

  lemma CarrierBody(r: Response)
    ensures Carrier(r).body == r.body && Carrier(r).headers == r.headers
  {}

  lemma TextAnnounced(code: int, text: string)
    requires |text| < 0x1_0000_0000_0000_0000
    ensures Announced(Carrier(MakeText(code, text))) && MakeText(code, text).body == text
  {
    hide Lookup, PlainText;
    TypeKept(code, text);
  }

  lemma TextRead(code: int, text: string)
    requires Fits32(code)
    ensures DeserializeResponse(SerializeResponse(MakeText(code, text)))
            == Some(Seen(Some(code), "HTTP/1.1", WithLength(Carrier(MakeText(code, text))).headers, text[..UpTo(text, '\0')]))
  {
    hide DeserializeResponse, SerializeResponse, IsWord, UpTo, WrittenHeaders, SetAll, ReceivedAll, OneLine, CleanHeader,
      PlainText, WithLength, NamesSorted;
    var r := MakeText(code, text);
    var hs := WrittenHeaders(r.headers, r.body);
    CarrierWords();
    TextClean(code, text);
    forall i | 0 <= i < |hs| ensures OneLine(hs[i]) {
      CleanIsOneLine(hs[i]);
    }
    ResponseRead(r);
    ReceivedClean(hs);
    SetWritten(Carrier(r));
  }

  lemma TextClean(code: int, text: string)
    ensures var r := MakeText(code, text);
            NamesSorted(r.headers)
            && var hs := WrittenHeaders(r.headers, r.body); forall i :: 0 <= i < |hs| ==> CleanHeader(hs[i])
  {
    hide CleanHeader, Lookup, Decimal, PlainText;
    TypeClean();
    LengthClean(|text|);
  }

  lemma TypeClean()
    ensures CleanHeader(Header("Content-Type", PlainText()))
  {
    hide PlainText;
    NameClean();
    PlainClean();
  }

  lemma NameClean()
    ensures '\n' !in "Content-Type" && ':' !in "Content-Type"
  {}

  lemma PlainClean()
    ensures '\n' !in PlainText() && PlainText() != [] && PlainText()[0] == 't'
  {
    assert PlainText() == "text/plain" + "; " + "charset=utf-8";
  }

  lemma TypeKept(code: int, text: string)
    ensures var req := Carrier(MakeText(code, text));
            Lookup(req.headers, "Content-Length") == None
            && Lookup(WithLength(req).headers, "Content-Type") == Some(PlainText())
  {
    hide Decimal, PlainText, Less;
    var h := Header("Content-Type", PlainText());
    assert [h][1..] == [];
    assert "Content-" + "Length" == "Content-Length" && "Content-" + "Type" == "Content-Type";
    LessBehind("Content-", "Length", "Type");
    LengthBefore();
  }

  lemma {:induction false} LessBehind(p: string, a: string, b: string)
    ensures Less(p + a, p + b) <==> Less(a, b)
  {
    if p == [] {
      assert p + a == a && p + b == b;
    } else {
      assert (p + a)[1..] == p[1..] + a && (p + b)[1..] == p[1..] + b;
      LessBehind(p[1..], a, b);
    }
  }

  lemma LengthBefore()
    ensures Less("Length", "Type")
  {}

  // ----- the loops -----

  method WriteResponse(r: Response) returns (text: string)
    ensures text == SerializeResponse(r)
  {
    hide HeaderLine, Decimal, Reason;
    text := r.version + " " + Decimal(r.code) + " " + Reason(r.code) + "\r\n";
    text := HttpStream.WriteHeaders(text, r.headers, r.body);
    text := text + "\r\n";
    text := text + r.body;
  }

  method ReadResponse(s: string) returns (r: Option<Seen>)
    ensures r == DeserializeResponse(s)
  {
    hide StatusOf, Chop, UpTo, ReadHeaders;
    if s == [] {
      return None;
    }
    var stream := new HttpStream.InputStream(s);
    var first := stream.GetLine('\n');
    var (version, code) := StatusOf(Chop(first.value));
    var headers := HttpStream.ReadHeaderLines(stream);
    ghost var rest := stream.View();
    var body := stream.GetLine('\0');
    assert rest == [] ==> rest[..UpTo(rest, '\0')] == [];
    r := Some(Seen(code, version, headers, if body.Some? then body.value else []));
  }
}
