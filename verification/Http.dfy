/** Requests and responses of HTTP/1.x as text. */
module Http {
  import opened Characters
  import opened Options
  import opened StringOrder

  datatype Method = GET | POST | PUT | DELETE | HEAD | OPTIONS | PATCH | TRACE | CONNECT | Custom

  datatype Header = Header(name: string, value: string)

  /** Headers are kept in the order of their names. */
  datatype Request = Request(verb: Method, path: string, version: string, headers: seq<Header>, body: string)

  function MethodName(m: Method): string {
    match m
    case GET => "GET"
    case POST => "POST"
    case PUT => "PUT"
    case DELETE => "DELETE"
    case HEAD => "HEAD"
    case OPTIONS => "OPTIONS"
    case PATCH => "PATCH"
    case TRACE => "TRACE"
    case CONNECT => "CONNECT"
    case Custom => "GET"
  }

  function MethodOf(name: string): Option<Method> {
    if name == "GET" then Some(GET)
    else if name == "POST" then Some(POST)
    else if name == "PUT" then Some(PUT)
    else if name == "DELETE" then Some(DELETE)
    else if name == "HEAD" then Some(HEAD)
    else if name == "OPTIONS" then Some(OPTIONS)
    else if name == "PATCH" then Some(PATCH)
    else if name == "TRACE" then Some(TRACE)
    else if name == "CONNECT" then Some(CONNECT)
    else None
  }

  // ----- headers -----

  /** The value of a header, which replaces an earlier one of the same name. */
  function SetHeader(headers: seq<Header>, name: string, value: string): (r: seq<Header>)
    ensures r != []
  {
    if headers == [] then [Header(name, value)]
    else if name == headers[0].name then [Header(name, value)] + headers[1..]
    else if Less(name, headers[0].name) then [Header(name, value)] + headers
    else [headers[0]] + SetHeader(headers[1..], name, value)
  }

  function Lookup(headers: seq<Header>, name: string): Option<string> {
    if headers == [] then None
    else if headers[0].name == name then Some(headers[0].value)
    else Lookup(headers[1..], name)
  }

  ghost predicate NamesSorted(headers: seq<Header>) {
    forall i, j :: 0 <= i < j < |headers| ==> Less(headers[i].name, headers[j].name)
  }

  // ----- lines -----

  /** The characters before the first `c`, or all of them. */
  function UpTo(s: string, c: char): (n: nat)
    ensures n <= |s|
    ensures forall i :: 0 <= i < n ==> s[i] != c
    ensures n < |s| ==> s[n] == c
  {
    if s == [] || s[0] == c then 0 else 1 + UpTo(s[1..], c)
  }

  /** What is left after the first line. */
  function AfterLine(s: string): (r: string)
    ensures s != [] ==> |r| < |s|
  {
    var n := UpTo(s, '\n');
    if n < |s| then s[n + 1..] else []
  }

  /** A line without the carriage return that may end it. */
  function Chop(line: string): string {
    if line != [] && line[|line| - 1] == '\r' then line[..|line| - 1] else line
  }

  function Line(s: string): string {
    Chop(s[..UpTo(s, '\n')])
  }

  // ----- reading a request -----

  function UpToSpace(s: string): (n: nat)
    ensures n <= |s|
    ensures forall i :: 0 <= i < n ==> !IsSpace(s[i])
  {
    if s == [] || IsSpace(s[0]) then 0 else 1 + UpToSpace(s[1..])
  }

  /** The next word of a line and what follows it. */
  function Word(s: string): (string, string) {
    var t := SkipSpace(s);
    (t[..UpToSpace(t)], t[UpToSpace(t)..])
  }

  /** Method, path and version; a line without a path or with an unknown method is an error. */
  function RequestLine(line: string): Option<(Method, string, string)> {
    var (name, rest) := Word(line);
    var (path, rest') := Word(rest);
    var version := Word(rest').0;
    if name == [] || path == [] || MethodOf(name).None? then None
    else Some((MethodOf(name).value, path, if version == [] then "HTTP/1.1" else version))
  }

  function SkipBlanks(s: string): string {
    if s != [] && (s[0] == ' ' || s[0] == '\t') then SkipBlanks(s[1..]) else s
  }

  /** A value of blanks only keeps them. */
  function TrimmedValue(value: string): string {
    if SkipBlanks(value) == [] then value else SkipBlanks(value)
  }

  /** A line without a colon is ignored. */
  function AddHeader(headers: seq<Header>, line: string): seq<Header> {
    var colon := UpTo(line, ':');
    if colon == |line| then headers
    else SetHeader(headers, line[..colon], TrimmedValue(line[colon + 1..]))
  }

  /** The headers up to the first empty line, and the text after it. */
  function ReadHeaders(s: string, headers: seq<Header>): (seq<Header>, string)
    decreases |s|
  {
    if s == [] then (headers, [])
    else if Line(s) == [] then (headers, AfterLine(s))
    else ReadHeaders(AfterLine(s), AddHeader(headers, Line(s)))
  }

  /** The body ends at the first null character. */
  function Deserialize(s: string): Option<Request> {
    if s == [] || RequestLine(Line(s)).None? then None
    else
      var (verb, path, version) := RequestLine(Line(s)).value;
      var (headers, rest) := ReadHeaders(AfterLine(s), []);
      Some(Request(verb, path, version, headers, rest[..UpTo(rest, '\0')]))
  }

  // ----- the length of a request -----

  /** The decimal conversion of the C library to 64 bits: spaces, a sign and digits; a negative
      number wraps around, and one out of range is an error. */
  function UnsignedNumber(s: string): (r: Option<nat>)
    ensures r.Some? ==> r.value < 0x1_0000_0000_0000_0000
  {
    var t := SkipSpace(s);
    var u := if t != [] && (t[0] == '-' || t[0] == '+') then t[1..] else t;
    var n := DigitsValue(u[..DigitSpan(u)]);
    if DigitSpan(u) == 0 || n >= 0x1_0000_0000_0000_0000 then None
    else if t[0] == '-' && n > 0 then Some(0x1_0000_0000_0000_0000 - n)
    else Some(n)
  }

  /** The announced length of the body; without a usable announcement, 0. */
  function ContentLength(req: Request): nat {
    match Lookup(req.headers, "Content-Length")
    case None => 0
    case Some(text) =>
      match UnsignedNumber(text)
      case None => 0
      case Some(n) => n
  }

  /** A blank line: the end of a line and an empty one after it. */
  predicate BlankAt(s: string, k: nat) {
    k + 4 <= |s| && s[k] == '\r' && s[k + 1] == '\n' && s[k + 2] == '\r' && s[k + 3] == '\n'
  }

  /** Where the first blank line, which ends the headers, begins. */
  function HeaderEnd(s: string): (r: Option<nat>)
    ensures r.Some? ==> BlankAt(s, r.value) && forall k: nat :: k < r.value ==> !BlankAt(s, k)
    ensures r.None? ==> forall k: nat :: !BlankAt(s, k)
  {
    if |s| < 4 then None
    else if BlankAt(s, 0) then Some(0)
    else
      var r := HeaderEnd(s[1..]);
      assert forall k: nat :: k > 0 && BlankAt(s, k) ==> BlankAt(s[1..], k - 1);
      match r
      case None => None
      case Some(h) => Some(h + 1)
  }

  /** Parts of a text that begins with `p` agree on where the headers end. */
  lemma HeaderEndPrefix(p: string, s: string)
    requires p <= s
    ensures HeaderEnd(p) == match HeaderEnd(s)
                            case None => None
                            case Some(h) => if h + 4 <= |p| then Some(h) else None
  {
    assert forall k: nat :: k + 4 <= |p| ==> (BlankAt(p, k) <==> BlankAt(s, k));
    var (a, b) := (HeaderEnd(p), HeaderEnd(s));
    if a.Some? && b.Some? { assert BlankAt(s, a.value); assert b.value + 4 <= |p| ==> BlankAt(p, b.value); }
    if a.Some? { assert BlankAt(s, a.value); }
    if b.Some? && b.value + 4 <= |p| { assert BlankAt(p, b.value); }
  }

  // ----- the head of a request decides everything but its body -----

  lemma {:induction false} UpToFirst(s: string, c: char, n: nat)
    requires n < |s| && s[n] == c && forall i :: 0 <= i < n ==> s[i] != c
    ensures UpTo(s, c) == n
  {
    if n > 0 { UpToFirst(s[1..], c, n - 1); }
  }

  lemma {:induction false} UpToExtends(s: string, more: string, c: char)
    requires UpTo(s, c) < |s|
    ensures UpTo(s + more, c) == UpTo(s, c)
  {
    if s[0] != c {
      assert (s + more)[1..] == s[1..] + more;
      UpToExtends(s[1..], more, c);
    }
  }

  lemma Slices(s: string, more: string, n: nat)
    requires n < |s|
    ensures (s + more)[..n] == s[..n] && (s + more)[n + 1..] == s[n + 1..] + more
  {}

  /** A line that has ended is not changed by what follows. */
  lemma LineExtends(s: string, more: string)
    requires UpTo(s, '\n') < |s|
    ensures Line(s + more) == Line(s) && AfterLine(s + more) == AfterLine(s) + more
  {
    hide UpTo, Chop;
    UpToExtends(s, more, '\n');
    Slices(s, more, UpTo(s, '\n'));
  }

  /** Somewhere the text has an empty line that has ended. */
  predicate Terminated(s: string)
    decreases |s|
  {
    UpTo(s, '\n') < |s| && (Line(s) == [] || Terminated(AfterLine(s)))
  }

  lemma {:induction false} HeadersExtend(s: string, more: string, headers: seq<Header>)
    requires Terminated(s)
    ensures ReadHeaders(s + more, headers) == (ReadHeaders(s, headers).0, ReadHeaders(s, headers).1 + more)
    decreases |s|
  {
    hide AddHeader;
    LineExtends(s, more);
    if Line(s) != [] { HeadersExtend(AfterLine(s), more, AddHeader(headers, Line(s))); }
  }

  lemma {:induction false} BlankTerminates(s: string, k: nat)
    requires BlankAt(s, k)
    ensures UpTo(s, '\n') < |s| && Terminated(AfterLine(s))
    decreases |s|
  {
    hide Line;
    LineBefore(s, k);
    var n := UpTo(s, '\n');
    if n < k + 1 { BlankTerminates(AfterLine(s), k - n - 1); }
  }

  /** The first line ends before a blank line, which is the empty line behind it or comes later. */
  lemma LineBefore(s: string, k: nat)
    requires BlankAt(s, k)
    ensures var (n, r) := (UpTo(s, '\n'), AfterLine(s));
            n <= k + 1 && n != k && |r| < |s|
            && (n == k + 1 ==> UpTo(r, '\n') < |r| && Line(r) == [])
            && (n < k + 1 ==> BlankAt(r, k - n - 1))
  {
    hide UpTo;
    var n := UpTo(s, '\n');
    assert s[k + 1] == '\n' && n <= k + 1;
    var r := AfterLine(s);
    if n == k + 1 {
      assert r[0] == '\r' && r[1] == '\n';
      UpToFirst(r, '\n', 1);
      assert r[..1] == "\r";
    }
  }

  /** Once the headers are complete, what follows only adds to the text that the body is cut from. */
  lemma HeadDecides(s: string, more: string)
    requires HeaderEnd(s).Some?
    ensures Deserialize(s + more).None? <==> Deserialize(s).None?
    ensures Deserialize(s).Some? ==>
              Deserialize(s + more).value == Deserialize(s).value.(body := Deserialize(s + more).value.body)
  {
    hide ReadHeaders, Line, AfterLine, RequestLine;
    BlankTerminates(s, HeaderEnd(s).value);
    LineExtends(s, more);
    HeadersExtend(AfterLine(s), more, []);
  }

  lemma SameHeadersSameLength(a: Request, b: Request)
    requires a.headers == b.headers
    ensures ContentLength(a) == ContentLength(b)
  {}

  // ----- writing a request -----

  function HeaderLine(h: Header): string {
    h.name + ": " + h.value
  }

  function HeaderLines(headers: seq<Header>): string {
    if headers == [] then [] else HeaderLine(headers[0]) + "\r\n" + HeaderLines(headers[1..])
  }

  /** The headers that are written: a missing length is added after all others. */
  function WrittenHeaders(headers: seq<Header>, body: string): seq<Header> {
    if body != [] && Lookup(headers, "Content-Length").None? then headers + [Header("Content-Length", Decimal(|body|))]
    else headers
  }

  function RequestLineText(req: Request): string {
    MethodName(req.verb) + " " + req.path + " " + req.version
  }

  function Serialize(req: Request): string {
    RequestLineText(req) + "\r\n" + HeaderLines(WrittenHeaders(req.headers, req.body)) + "\r\n" + req.body
  }

  /** The request as its receiver sees it. */
  function WithLength(req: Request): Request {
    if req.body != [] && Lookup(req.headers, "Content-Length").None?
    then req.(headers := SetHeader(req.headers, "Content-Length", Decimal(|req.body|)))
    else req
  }

  predicate IsWord(s: string) {
    s != [] && forall i :: 0 <= i < |s| ==> !IsSpace(s[i])
  }

  /** One line, with a name that ends at the first colon. */
  predicate OneLine(h: Header) {
    '\n' !in h.name && ':' !in h.name && '\n' !in h.value
  }

  predicate CleanHeader(h: Header) {
    OneLine(h) && h.value != [] && h.value[0] != ' ' && h.value[0] != '\t'
  }

  /** What a request must meet to survive being written: words in the first line, headers on one
      line each, and no null character in the body. */
  ghost predicate WellFormed(req: Request) {
    req.verb != Custom && IsWord(req.path) && IsWord(req.version)
    && NamesSorted(req.headers) && (forall i :: 0 <= i < |req.headers| ==> CleanHeader(req.headers[i]))
    && '\0' !in req.body
  }

  /** A length that is given is right, and one that is added fits 64 bits. */
  predicate Announced(req: Request) {
    if Lookup(req.headers, "Content-Length").Some? then ContentLength(req) == |req.body|
    else |req.body| < 0x1_0000_0000_0000_0000
  }

  // ----- the first line -----

  lemma {:induction false} UpToSpaceWord(w: string, rest: string)
    requires (forall i :: 0 <= i < |w| ==> !IsSpace(w[i])) && (rest == [] || IsSpace(rest[0]))
    ensures UpToSpace(w + rest) == |w|
  {
    if w == [] {
      assert w + rest == rest;
    } else {
      assert (w + rest)[1..] == w[1..] + rest;
      UpToSpaceWord(w[1..], rest);
    }
  }

  lemma WordOf(gap: string, w: string, rest: string)
    requires Spaces(gap) && IsWord(w) && (rest == [] || IsSpace(rest[0]))
    ensures Word(gap + (w + rest)) == (w, rest)
  {
    hide SkipSpace, UpToSpace, IsSpace;
    SkipTo(gap, w + rest);
    UpToSpaceWord(w, rest);
    assert (w + rest)[..|w|] == w && (w + rest)[|w|..] == rest;
  }

  /** A method without a name of its own is sent as GET. */
  function Sent(m: Method): Method {
    if m == Custom then GET else m
  }

  lemma MethodNames(m: Method)
    ensures MethodOf(MethodName(m)) == Some(Sent(m)) && IsWord(MethodName(m)) && '\n' !in MethodName(m)
  {}

  /** The names of the methods, and no other word is one. */
  lemma MethodExactly(m: Method, name: string)
    ensures MethodOf(name) == Some(m)
            <==> exists i | 0 <= i < 9 :: (m, name) == [(GET, "GET"), (POST, "POST"), (PUT, "PUT"), (DELETE, "DELETE"),
                   (HEAD, "HEAD"), (OPTIONS, "OPTIONS"), (PATCH, "PATCH"), (TRACE, "TRACE"), (CONNECT, "CONNECT")][i]
  {
    var all := [(GET, "GET"), (POST, "POST"), (PUT, "PUT"), (DELETE, "DELETE"),
                (HEAD, "HEAD"), (OPTIONS, "OPTIONS"), (PATCH, "PATCH"), (TRACE, "TRACE"), (CONNECT, "CONNECT")];
    if MethodOf(name) == Some(m) {
      assert (m, name) in all;
    }
  }

  lemma RequestLineRead(req: Request)
    requires IsWord(req.path) && IsWord(req.version)
    ensures RequestLine(RequestLineText(req)) == Some((Sent(req.verb), req.path, req.version))
  {
    hide Word, MethodName, MethodOf, IsWord;
    var name := MethodName(req.verb);
    var tail := " " + (req.version + "");
    MethodNames(req.verb);
    assert req.path != [] && name != [] && req.version != [] by { assert IsWord(name) && IsWord(req.path) && IsWord(req.version); Words(name); Words(req.path); Words(req.version); }
    assert RequestLineText(req) == "" + (name + (" " + (req.path + tail)));
    WordOf("", name, " " + (req.path + tail));
    WordOf(" ", req.path, tail);
    WordOf(" ", req.version, "");
  }

  lemma Words(w: string)
    requires IsWord(w)
    ensures w != [] && '\n' !in w
  {
    if '\n' in w {
      var i :| 0 <= i < |w| && w[i] == '\n';
      assert IsSpace(w[i]);
    }
  }

  // ----- the lines -----

  lemma {:induction false} UpToAbsent(l: string, rest: string, c: char)
    requires c !in l && rest != [] && rest[0] == c
    ensures UpTo(l + rest, c) == |l|
  {
    if l == [] {
      assert l + rest == rest;
    } else {
      assert (l + rest)[1..] == l[1..] + rest;
      UpToAbsent(l[1..], rest, c);
    }
  }

  lemma WrittenLine(l: string, rest: string)
    requires '\n' !in l
    ensures Line(l + "\r\n" + rest) == l && AfterLine(l + "\r\n" + rest) == rest
  {
    hide UpTo;
    var s := l + "\r\n" + rest;
    assert s == (l + "\r") + ("\n" + rest);
    UpToAbsent(l + "\r", "\n" + rest, '\n');
    assert s[..|l| + 1] == l + "\r" && s[|l| + 2..] == rest;
    assert (l + "\r")[..|l|] == l;
  }

  /** A header as its receiver sees it: the blank after the colon goes, and others with it. */
  function Received(h: Header): Header {
    Header(h.name, TrimmedValue(" " + h.value))
  }

  function ReceivedAll(headers: seq<Header>): (r: seq<Header>)
    ensures |r| == |headers|
  {
    seq(|headers|, i requires 0 <= i < |headers| => Received(headers[i]))
  }

  lemma HeaderRead(headers: seq<Header>, h: Header)
    requires OneLine(h)
    ensures AddHeader(headers, HeaderLine(h)) == SetHeader(headers, h.name, Received(h).value)
    ensures '\n' !in HeaderLine(h) && HeaderLine(h) != []
  {
    hide UpTo, SetHeader;
    var line := HeaderLine(h);
    assert line == h.name + (": " + h.value);
    UpToAbsent(h.name, ": " + h.value, ':');
    assert line[..|h.name|] == h.name && line[|h.name| + 1..] == " " + h.value;
  }

  /** Exactly the clean ones arrive as they are. */
  lemma ReceivedSame(h: Header)
    requires OneLine(h)
    ensures Received(h) == h <==> CleanHeader(h)
  {
    var v := h.value;
    assert (" " + v)[1..] == v;
    assert SkipBlanks(" " + v) == SkipBlanks(v);
    SkipBlanksShorter(v);
    assert " " + v != v by { assert |" " + v| == |v| + 1; }
  }

  lemma {:induction false} SkipBlanksShorter(s: string)
    ensures |SkipBlanks(s)| <= |s|
    ensures SkipBlanks(s) == s <==> s == [] || (s[0] != ' ' && s[0] != '\t')
  {
    if s != [] { SkipBlanksShorter(s[1..]); }
  }

  function SetAll(headers: seq<Header>, more: seq<Header>): seq<Header>
    decreases |more|
  {
    if more == [] then headers else SetAll(SetHeader(headers, more[0].name, more[0].value), more[1..])
  }

  lemma {:induction false} HeadersRead(done: seq<Header>, headers: seq<Header>, body: string)
    requires forall i :: 0 <= i < |headers| ==> OneLine(headers[i])
    ensures ReadHeaders(HeaderLines(headers) + "\r\n" + body, done) == (SetAll(done, ReceivedAll(headers)), body)
    decreases |headers|
  {
    hide Line, AfterLine, AddHeader, SetHeader, OneLine, Received;
    var s := HeaderLines(headers) + "\r\n" + body;
    if headers == [] {
      assert s == "" + "\r\n" + body;
      WrittenLine("", body);
    } else {
      var rest := HeaderLines(headers[1..]) + "\r\n" + body;
      HeaderRead(done, headers[0]);
      assert s == HeaderLine(headers[0]) + "\r\n" + rest;
      WrittenLine(HeaderLine(headers[0]), rest);
      ReceivedName(headers[0]);
      assert ReceivedAll(headers)[1..] == ReceivedAll(headers[1..]);
      HeadersRead(SetHeader(done, headers[0].name, Received(headers[0]).value), headers[1..], body);
    }
  }

  lemma ReceivedName(h: Header)
    ensures Received(h).name == h.name
  {}

  lemma ReceivedClean(headers: seq<Header>)
    requires forall i :: 0 <= i < |headers| ==> CleanHeader(headers[i])
    ensures ReceivedAll(headers) == headers
  {
    hide CleanHeader, OneLine, Received;
    forall i | 0 <= i < |headers| ensures Received(headers[i]) == headers[i] {
      CleanIsOneLine(headers[i]);
      ReceivedSame(headers[i]);
    }
  }

  lemma CleanIsOneLine(h: Header)
    requires CleanHeader(h)
    ensures OneLine(h)
  {}

  lemma {:induction false} SetLast(headers: seq<Header>, h: Header)
    requires forall i :: 0 <= i < |headers| ==> Less(headers[i].name, h.name)
    ensures SetHeader(headers, h.name, h.value) == headers + [h]
  {
    if headers != [] {
      LessTotal(headers[0].name, h.name);
      SetLast(headers[1..], h);
    }
  }

  lemma {:induction false} SetAllSorted(done: seq<Header>, headers: seq<Header>, last: seq<Header>)
    requires NamesSorted(done + headers)
    ensures SetAll(done, headers + last) == SetAll(done + headers, last)
    decreases |headers|
  {
    hide SetHeader;
    if headers == [] {
      assert headers + last == last && done + headers == done;
    } else {
      var h := headers[0];
      forall i | 0 <= i < |done| ensures Less(done[i].name, h.name) {
        assert (done + headers)[i] == done[i] && (done + headers)[|done|] == h;
      }
      SetLast(done, h);
      assert (headers + last)[1..] == headers[1..] + last;
      assert done + [h] + headers[1..] == done + headers;
      SetAllSorted(done + [h], headers[1..], last);
    }
  }

  // ----- where the headers end -----

  lemma HeaderEndIs(s: string, h: nat)
    requires BlankAt(s, h) && forall k: nat :: k < h ==> !BlankAt(s, k)
    ensures HeaderEnd(s) == Some(h)
  {
    assert HeaderEnd(s).Some?;
  }

  /** A line break is a blank line exactly when another one follows. */
  lemma BlankInLine(l: string, rest: string, k: nat)
    requires '\n' !in l && BlankAt(l + "\r\n" + rest, k)
    ensures (k == |l| && |rest| >= 2 && rest[0] == '\r' && rest[1] == '\n') || (k >= |l| + 2 && BlankAt(rest, k - |l| - 2))
  {
    var s := l + "\r\n" + rest;
    assert forall j :: 0 <= j < |l| ==> s[j] == l[j];
    assert s[|l|] == '\r' && s[|l| + 1] == '\n';
    assert forall j :: |l| + 2 <= j < |s| ==> s[j] == rest[j - |l| - 2];
  }

  lemma {:induction false} HeaderEndWritten(l: string, headers: seq<Header>, body: string)
    requires '\n' !in l && forall i :: 0 <= i < |headers| ==> CleanHeader(headers[i])
    ensures HeaderEnd(l + "\r\n" + (HeaderLines(headers) + "\r\n" + body)) == Some(|l| + |HeaderLines(headers)|)
    decreases |headers|
  {
    hide CleanHeader, HeaderEnd, HeaderLine;
    var rest := HeaderLines(headers) + "\r\n" + body;
    var s := l + "\r\n" + rest;
    var end := |l| + |HeaderLines(headers)|;
    if headers == [] {
      assert rest == "\r\n" + body;
      assert BlankAt(s, |l|);
    } else {
      var line := HeaderLine(headers[0]);
      CleanIsOneLine(headers[0]);
      HeaderRead([], headers[0]);
      assert rest == line + "\r\n" + (HeaderLines(headers[1..]) + "\r\n" + body);
      HeaderEndWritten(line, headers[1..], body);
      var h := |line| + |HeaderLines(headers[1..])|;
      assert BlankAt(rest, h) && forall k: nat :: k < h ==> !BlankAt(rest, k) by { HeaderEndMeans(rest, h); }
      assert |HeaderLines(headers)| == h + 2;
      BlankShifts(l, rest, h);
      HeaderLineStart(headers[0]);
      assert rest[0] == line[0] && (|line| > 1 ==> rest[1] == line[1]);
    }
    forall k: nat | k < end ensures !BlankAt(s, k) {
      if BlankAt(s, k) { BlankInLine(l, rest, k); }
    }
    HeaderEndIs(s, end);
  }

  lemma HeaderEndMeans(s: string, h: nat)
    requires HeaderEnd(s) == Some(h)
    ensures BlankAt(s, h) && forall k: nat :: k < h ==> !BlankAt(s, k)
  {}

  lemma BlankShifts(l: string, rest: string, h: nat)
    requires BlankAt(rest, h)
    ensures BlankAt(l + "\r\n" + rest, |l| + 2 + h)
  {}

  lemma HeaderLineStart(h: Header)
    requires CleanHeader(h)
    ensures |HeaderLine(h)| > 1 && HeaderLine(h)[1] != '\n'
  {
    var line := HeaderLine(h);
    if |h.name| > 1 { assert line[1] == h.name[1]; }
    else if |h.name| == 1 { assert line[1] == ':'; }
    else { assert line[1] == ' '; }
  }

  // ----- what is written is read back -----

  lemma WrittenClean(req: Request)
    requires WellFormed(req)
    ensures var hs := WrittenHeaders(req.headers, req.body); forall i :: 0 <= i < |hs| ==> CleanHeader(hs[i])
  {
    LengthClean(|req.body|);
  }

  lemma LengthClean(n: nat)
    ensures CleanHeader(Header("Content-Length", Decimal(n)))
  {
    var d := Digits(n);
    assert forall i :: 0 <= i < |d| ==> IsDigit(d[i]);
    assert IsDigit(d[0]);
  }

  lemma NoNull(body: string)
    requires '\0' !in body
    ensures UpTo(body, '\0') == |body|
  {}

  lemma FirstLineClean(req: Request)
    requires IsWord(req.path) && IsWord(req.version)
    ensures '\n' !in RequestLineText(req)
  {
    hide IsWord;
    MethodNames(req.verb);
    Words(req.path);
    Words(req.version);
  }

  /** What the receiver of a written request sees. */
  lemma WrittenRead(req: Request)
    requires IsWord(req.path) && IsWord(req.version)
    requires var hs := WrittenHeaders(req.headers, req.body); forall i :: 0 <= i < |hs| ==> OneLine(hs[i])
    ensures var headers := SetAll([], ReceivedAll(WrittenHeaders(req.headers, req.body)));
            Deserialize(Serialize(req))
            == Some(Request(Sent(req.verb), req.path, req.version, headers, req.body[..UpTo(req.body, '\0')]))
  {
    hide RequestLine, RequestLineText, Line, AfterLine, ReadHeaders, HeaderLines, OneLine, SetHeader, UpTo, IsWord;
    var l := RequestLineText(req);
    var hs := WrittenHeaders(req.headers, req.body);
    var rest := HeaderLines(hs) + "\r\n" + req.body;
    assert Serialize(req) == l + "\r\n" + rest;
    FirstLineClean(req);
    WrittenLine(l, rest);
    RequestLineRead(req);
    HeadersRead([], hs, req.body);
  }

  /** Reading a written request gives it back, with its length where that was missing. */
  lemma SerializeDeserialize(req: Request)
    requires WellFormed(req)
    ensures Deserialize(Serialize(req)) == Some(WithLength(req))
  {
    hide Deserialize, Serialize, CleanHeader, OneLine, SetHeader, UpTo, IsWord;
    var hs := WrittenHeaders(req.headers, req.body);
    WrittenClean(req);
    forall i | 0 <= i < |hs| ensures OneLine(hs[i]) {
      CleanIsOneLine(hs[i]);
    }
    WrittenRead(req);
    ReceivedClean(hs);
    SetWritten(req);
    NoNull(req.body);
    assert req.body[..|req.body|] == req.body;
  }

  lemma SetWritten(req: Request)
    requires NamesSorted(req.headers)
    ensures SetAll([], WrittenHeaders(req.headers, req.body)) == WithLength(req).headers
  {
    hide SetHeader;
    assert [] + req.headers == req.headers;
    if req.body != [] && Lookup(req.headers, "Content-Length").None? {
      var last := [Header("Content-Length", Decimal(|req.body|))];
      SetAllSorted([], req.headers, last);
      assert last[1..] == [];
    } else {
      SetAllSorted([], req.headers, []);
      assert req.headers + [] == req.headers;
    }
  }

  lemma {:induction false} LookupSet(headers: seq<Header>, name: string, value: string)
    ensures Lookup(SetHeader(headers, name, value), name) == Some(value)
  {
    if headers != [] && name != headers[0].name { LookupSet(headers[1..], name, value); }
  }

  lemma DecimalNumber(n: nat)
    requires n < 0x1_0000_0000_0000_0000
    ensures UnsignedNumber(Decimal(n)) == Some(n)
  {
    hide DigitsValue, DigitSpan, Digits;
    var d := Digits(n);
    assert IsDigit(d[0]);
    SpanWhole(d, "");
    assert d + "" == d && d[..|d|] == d;
    DigitsRead(n);
  }

  /** A written request announces the length of its body exactly if it was announced right before. */
  lemma WrittenLength(req: Request)
    ensures ContentLength(WithLength(req)) == |req.body| <==> Announced(req)
  {
    hide UnsignedNumber, SetHeader, Lookup, Decimal;
    if Lookup(req.headers, "Content-Length").None? && req.body != [] {
      LookupSet(req.headers, "Content-Length", Decimal(|req.body|));
      if |req.body| < 0x1_0000_0000_0000_0000 { DecimalNumber(|req.body|); }
    }
  }

  lemma SerializedEnd(req: Request)
    requires WellFormed(req)
    ensures HeaderEnd(Serialize(req)).Some? && HeaderEnd(Serialize(req)).value + 4 + |req.body| == |Serialize(req)|
  {
    hide RequestLineText, HeaderLines, HeaderEnd, CleanHeader, WrittenHeaders;
    var l := RequestLineText(req);
    var hs := WrittenHeaders(req.headers, req.body);
    FirstLineClean(req);
    WrittenClean(req);
    HeaderEndWritten(l, hs, req.body);
    assert Serialize(req) == l + "\r\n" + (HeaderLines(hs) + "\r\n" + req.body);
  }

  /** A request as it is written. */
  lemma SerializeExample()
    ensures Serialize(Request(POST, "/a", "HTTP/1.1", [Header("Host", "b")], "hi"))
            == "POST" + " " + "/a" + " " + "HTTP/1.1" + "\r\n" + ("Host" + ": " + "b" + "\r\n"
               + ("Content-Length" + ": " + "2" + "\r\n" + "")) + "\r\n" + "hi"
  {
    var host := Header("Host", "b");
    assert Decimal(2) == "2";
    assert "Host" != "Content-Length";
    assert [host][1..] == [] && Lookup([host], "Content-Length") == None;
    var all := WrittenHeaders([host], "hi");
    assert all == [host, Header("Content-Length", "2")] && all[1..] == [Header("Content-Length", "2")] && all[1..][1..] == [];
  }

  // ----- what is read of a length and of a first line -----

  /** Spaces, a sign and digits, whatever follows: negative numbers wrap around at 64 bits, and what
      is out of range is no number. */
  lemma NumberRead(gap: string, sign: string, d: string, rest: string)
    requires Spaces(gap) && (sign == "" || sign == "+" || sign == "-")
    requires d != [] && (forall i :: 0 <= i < |d| ==> IsDigit(d[i])) && (rest == [] || !IsDigit(rest[0]))
    ensures UnsignedNumber(gap + (sign + (d + rest)))
            == if DigitsValue(d) >= 0x1_0000_0000_0000_0000 then None
               else if sign == "-" && DigitsValue(d) > 0 then Some(0x1_0000_0000_0000_0000 - DigitsValue(d))
               else Some(DigitsValue(d))
  {
    hide DigitsValue, DigitSpan, UnsignedNumber;
    var t := sign + (d + rest);
    assert IsDigit(d[0]);
    assert t[0] == if sign == "" then d[0] else sign[0];
    SkipTo(gap, t);
    SpanWhole(d, rest);
    assert (d + rest)[..|d|] == d;
    assert t[|sign|..] == d + rest;
    SignedNumber(gap + t, t, if t[0] == '-' || t[0] == '+' then t[1..] else t, d);
  }

  lemma SignedNumber(s: string, t: string, u: string, d: string)
    requires t == SkipSpace(s) && t != [] && u == if t[0] == '-' || t[0] == '+' then t[1..] else t
    requires DigitSpan(u) == |d| > 0 && u[..|d|] == d
    ensures var n := DigitsValue(u[..DigitSpan(u)]);
            UnsignedNumber(s) == if n >= 0x1_0000_0000_0000_0000 then None
                                 else if t[0] == '-' && n > 0 then Some(0x1_0000_0000_0000_0000 - n) else Some(n)
  {
    hide DigitsValue, DigitSpan, SkipSpace;
  }

  /** And without a digit there is none. */
  lemma NoNumber(gap: string, rest: string)
    requires Spaces(gap) && (rest == [] || (!IsSpace(rest[0]) && !IsDigit(rest[0])))
    requires rest != [] && (rest[0] == '-' || rest[0] == '+') ==> |rest| == 1 || !IsDigit(rest[1])
    ensures UnsignedNumber(gap + rest) == None
  {
    hide DigitsValue;
    SkipSpaces(gap, rest);
    SkipNone(rest);
  }

  /** The words of a first line: method, path and version, with any spaces between them; a missing
      version is HTTP/1.1, and what follows is ignored. */
  lemma FirstLineRead(g1: string, name: string, g2: string, path: string, g3: string, version: string, rest: string)
    requires Spaces(g1) && Spaces(g2) && Spaces(g3) && g2 != [] && g3 != []
    requires IsWord(name) && IsWord(path) && IsWord(version) && (rest == [] || IsSpace(rest[0]))
    ensures RequestLine(g1 + (name + (g2 + (path + (g3 + (version + rest))))))
            == if MethodOf(name).None? then None else Some((MethodOf(name).value, path, version))
    ensures RequestLine(g1 + (name + (g2 + (path + g3))))
            == if MethodOf(name).None? then None else Some((MethodOf(name).value, path, "HTTP/1.1"))
    ensures RequestLine(g1 + (name + (g2 + path)))
            == if MethodOf(name).None? then None else Some((MethodOf(name).value, path, "HTTP/1.1"))
    ensures RequestLine(g1 + (name + g2)) == None && RequestLine(g1 + name) == None && RequestLine(g1) == None
  {
    hide Word, MethodOf, IsWord;
    Words(name);
    Words(path);
    Words(version);
    assert IsSpace(g2[0]) && IsSpace(g3[0]);
    WordOf(g1, name, g2 + (path + (g3 + (version + rest))));
    WordOf(g1, name, g2 + (path + g3));
    WordOf(g1, name, g2 + path);
    WordOf(g1, name, g2);
    WordOf(g1, name, []);
    WordOf(g2, path, g3 + (version + rest));
    WordOf(g2, path, g3);
    WordOf(g2, path, []);
    WordOf(g3, version, rest);
    assert name + [] == name && path + [] == path;
    NoWord(g1);
    NoWord(g2);
    NoWord(g3);
    NoWord([]);
  }

  lemma NoWord(gap: string)
    requires Spaces(gap)
    ensures Word(gap) == ([], [])
  {
    SkipSpaces(gap, []);
    assert gap + [] == gap;
  }

  /** A line with a colon sets a header, blanks in front of the value taken off; any other is ignored. */
  lemma HeaderLineRead(headers: seq<Header>, name: string, blanks: string, value: string, junk: string)
    requires ':' !in name && ':' !in junk
    requires (forall i :: 0 <= i < |blanks| ==> blanks[i] == ' ' || blanks[i] == '\t')
    requires value != [] && value[0] != ' ' && value[0] != '\t'
    ensures AddHeader(headers, name + (":" + (blanks + value))) == SetHeader(headers, name, value)
    ensures AddHeader(headers, name + (":" + blanks)) == SetHeader(headers, name, blanks)
    ensures AddHeader(headers, junk) == headers
  {
    hide UpTo, SetHeader;
    UpToAbsent(name, ":" + (blanks + value), ':');
    UpToAbsent(name, ":" + blanks, ':');
    UpToAll(junk, ':');
    var (l, m) := (name + (":" + (blanks + value)), name + (":" + blanks));
    assert l[..|name|] == name && l[|name| + 1..] == blanks + value;
    assert m[..|name|] == name && m[|name| + 1..] == blanks;
    BlanksSkipped(blanks, value);
    BlanksSkipped(blanks, []);
    assert blanks + [] == blanks;
  }

  lemma {:induction false} UpToAll(s: string, c: char)
    requires c !in s
    ensures UpTo(s, c) == |s|
  {
    if s != [] { UpToAll(s[1..], c); }
  }

  lemma {:induction false} BlanksSkipped(blanks: string, value: string)
    requires forall i :: 0 <= i < |blanks| ==> blanks[i] == ' ' || blanks[i] == '\t'
    requires value == [] || (value[0] != ' ' && value[0] != '\t')
    ensures SkipBlanks(blanks + value) == value
  {
    if blanks == [] {
      assert blanks + value == value;
    } else {
      assert (blanks + value)[1..] == blanks[1..] + value;
      BlanksSkipped(blanks[1..], value);
    }
  }

  /** The last header of a name counts, others keep theirs. */
  lemma {:induction false} LookupOther(headers: seq<Header>, name: string, value: string, other: string)
    requires NamesSorted(headers)
    ensures Lookup(SetHeader(headers, name, value), other) == if other == name then Some(value) else Lookup(headers, other)
  {
    hide Less;
    if other == name {
      LookupSet(headers, name, value);
    } else if headers != [] && name != headers[0].name && !Less(name, headers[0].name) {
      LookupOther(headers[1..], name, value, other);
    }
  }
}
