/** Which requests come back when they are written and read. */
module HttpRoundTrip {
  import opened Characters
  import opened Http
  import opened Options
  import opened StringOrder

  // ----- what every request that was read is like -----

  function Names(headers: seq<Header>): (s: seq<string>)
    ensures |s| == |headers|
  {
    seq(|headers|, i requires 0 <= i < |headers| => headers[i].name)
  }

  lemma {:induction false} SetNames(headers: seq<Header>, name: string, value: string)
    ensures Names(SetHeader(headers, name, value)) == Insert(Names(headers), name)
  {
    hide Less;
    var s := Names(headers);
    if headers != [] {
      SetNames(headers[1..], name, value);
      assert s[1..] == Names(headers[1..]);
      assert s == [s[0]] + s[1..];
    }
  }

  ghost predicate WellRead(headers: seq<Header>) {
    NamesSorted(headers) && forall i :: 0 <= i < |headers| ==> OneLine(headers[i])
  }

  lemma {:induction false} SetOneLine(headers: seq<Header>, h: Header, k: nat)
    requires OneLine(h) && forall i :: 0 <= i < |headers| ==> OneLine(headers[i])
    requires k < |SetHeader(headers, h.name, h.value)|
    ensures OneLine(SetHeader(headers, h.name, h.value)[k])
  {
    hide OneLine, Less;
    assert h == Header(h.name, h.value);
    if headers != [] && h.name != headers[0].name && !Less(h.name, headers[0].name) {
      if k > 0 { SetOneLine(headers[1..], h, k - 1); }
    } else {
      assert k > 0 ==> SetHeader(headers, h.name, h.value)[k] in headers;
    }
  }

  lemma SortedByName(headers: seq<Header>)
    ensures NamesSorted(headers) <==> Sorted(Names(headers))
  {
    hide Less;
    if NamesSorted(headers) {
      assert Sorted(Names(headers));
    } else {
      var i, j :| 0 <= i < j < |headers| && !Less(headers[i].name, headers[j].name);
      assert Names(headers)[i] == headers[i].name && Names(headers)[j] == headers[j].name;
    }
  }

  lemma SetWellRead(headers: seq<Header>, h: Header)
    requires WellRead(headers) && OneLine(h)
    ensures WellRead(SetHeader(headers, h.name, h.value))
  {
    hide SetHeader, OneLine, NamesSorted;
    forall k | 0 <= k < |SetHeader(headers, h.name, h.value)| ensures OneLine(SetHeader(headers, h.name, h.value)[k]) {
      SetOneLine(headers, h, k);
    }
    SortedByName(headers);
    SetNames(headers, h.name, h.value);
    InsertSorted(Names(headers), h.name);
    SortedByName(SetHeader(headers, h.name, h.value));
  }

  lemma {:induction false} SkipBlanksLine(s: string)
    requires '\n' !in s
    ensures '\n' !in SkipBlanks(s)
  {
    if s != [] && (s[0] == ' ' || s[0] == '\t') { SkipBlanksLine(s[1..]); }
  }

  lemma AddWellRead(headers: seq<Header>, line: string)
    requires WellRead(headers) && '\n' !in line
    ensures WellRead(AddHeader(headers, line))
  {
    hide SetHeader, UpTo, WellRead, SkipBlanks;
    var colon := UpTo(line, ':');
    if colon < |line| {
      SkipBlanksLine(line[colon + 1..]);
      SetWellRead(headers, Header(line[..colon], TrimmedValue(line[colon + 1..])));
    }
  }

  lemma LineIsLine(s: string)
    ensures '\n' !in Line(s)
  {}

  lemma {:induction false} ReadWellRead(s: string, headers: seq<Header>)
    requires WellRead(headers)
    ensures WellRead(ReadHeaders(s, headers).0)
    decreases |s|
  {
    hide WellRead, Line, AfterLine, AddHeader;
    if s != [] && Line(s) != [] {
      LineIsLine(s);
      AddWellRead(headers, Line(s));
      AfterShorter(s);
      ReadWellRead(AfterLine(s), AddHeader(headers, Line(s)));
    }
  }

  lemma AfterShorter(s: string)
    requires s != []
    ensures |AfterLine(s)| < |s|
  {}

  lemma WordIsWord(s: string)
    ensures Word(s).0 == [] || IsWord(Word(s).0)
  {}

  lemma RequestLineWords(line: string)
    requires RequestLine(line).Some?
    ensures var (verb, path, version) := RequestLine(line).value;
            verb != Custom && IsWord(path) && IsWord(version)
  {
    hide Word, IsWord;
    var rest := Word(line).1;
    WordIsWord(rest);
    WordIsWord(Word(rest).1);
    assert IsWord("HTTP/1.1") by { DefaultVersion(); }
  }

  lemma DefaultVersion()
    ensures IsWord("HTTP/1.1")
  {}

  lemma DeserializedForm(s: string)
    requires Deserialize(s).Some?
    ensures var r := Deserialize(s).value;
            r.verb != Custom && IsWord(r.path) && IsWord(r.version) && WellRead(r.headers) && '\0' !in r.body
  {
    hide RequestLine, ReadHeaders, Line, AfterLine, IsWord, UpTo;
    RequestLineWords(Line(s));
    ReadWellRead(AfterLine(s), []);
  }

  // ----- which requests are read back -----

  lemma {:induction false} LookupNone(headers: seq<Header>, name: string)
    ensures Lookup(headers, name).None? <==> forall i :: 0 <= i < |headers| ==> headers[i].name != name
  {
    if headers != [] { LookupNone(headers[1..], name); }
  }

  /** A header that was missing goes in between. */
  lemma {:induction false} SetInserts(headers: seq<Header>, name: string, value: string) returns (k: nat)
    requires Lookup(headers, name).None?
    ensures k <= |headers| && SetHeader(headers, name, value) == headers[..k] + [Header(name, value)] + headers[k..]
  {
    hide Less;
    if headers == [] || Less(name, headers[0].name) {
      k := 0;
    } else {
      k := SetInserts(headers[1..], name, value);
      assert headers == [headers[0]] + headers[1..];
      k := k + 1;
    }
  }

  /** It goes to the same place in lists of the same names. */
  lemma {:induction false} SetInjective(a: seq<Header>, b: seq<Header>, name: string, value: string)
    requires |a| == |b| && (forall i :: 0 <= i < |a| ==> a[i].name == b[i].name)
    requires Lookup(a, name).None? && Lookup(b, name).None?
    requires SetHeader(a, name, value) == SetHeader(b, name, value)
    ensures a == b
  {
    hide Less;
    if a != [] {
      var (x, y) := (SetHeader(a, name, value), SetHeader(b, name, value));
      if Less(name, a[0].name) {
        assert a == x[1..] && b == y[1..];
      } else {
        assert x[1..] == SetHeader(a[1..], name, value) && y[1..] == SetHeader(b[1..], name, value);
        assert a[0] == x[0] && b[0] == y[0];
        SetInjective(a[1..], b[1..], name, value);
        assert a == [a[0]] + a[1..] && b == [b[0]] + b[1..];
      }
    }
  }

  lemma WithoutLength(req: Request)
    requires WellRead(WithLength(req).headers)
    ensures WellRead(req.headers)
  {
    hide SetHeader, OneLine, Less, Lookup, Decimal;
    if req.body != [] && Lookup(req.headers, "Content-Length").None? {
      var k := SetInserts(req.headers, "Content-Length", Decimal(|req.body|));
      var r := WithLength(req).headers;
      assert forall i :: 0 <= i < |req.headers| ==> req.headers[i] == r[if i < k then i else i + 1];
    }
  }

  /** Headers on one line each, in order, arrive as they are exactly if they are clean. */
  lemma HeadersArrive(req: Request)
    requires WellRead(req.headers)
    requires SetAll([], ReceivedAll(WrittenHeaders(req.headers, req.body))) == WithLength(req).headers
    ensures ReceivedAll(req.headers) == req.headers
  {
    hide SetHeader, OneLine, Less, Lookup, Decimal, Received, WellRead, SetAll;
    var (hs, text) := (ReceivedAll(req.headers), Decimal(|req.body|));
    forall i | 0 <= i < |hs| ensures hs[i].name == req.headers[i].name {
      ReceivedName(req.headers[i]);
    }
    SortedAlike(req.headers, hs);
    assert [] + hs == hs;
    if req.body != [] && Lookup(req.headers, "Content-Length").None? {
      var length := Header("Content-Length", text);
      LengthClean(|req.body|);
      ReceivedClean([length]);
      assert ReceivedAll(req.headers + [length]) == hs + ReceivedAll([length]);
      SetAllSorted([], hs, [length]);
      SetAllOne(hs, length);
      LookupNone(req.headers, "Content-Length");
      LookupNone(hs, "Content-Length");
      SetInjective(hs, req.headers, "Content-Length", text);
    } else {
      SetAllSorted([], hs, []);
      assert hs + [] == hs;
      SetAllNone(hs);
    }
  }

  lemma SetAllOne(headers: seq<Header>, h: Header)
    ensures SetAll(headers, [h]) == SetHeader(headers, h.name, h.value)
  {
    assert [h][1..] == [];
    SetAllNone(SetHeader(headers, h.name, h.value));
  }

  lemma SetAllNone(headers: seq<Header>)
    ensures SetAll(headers, []) == headers
  {}

  lemma SortedAlike(a: seq<Header>, b: seq<Header>)
    requires WellRead(a) && |a| == |b| && forall i :: 0 <= i < |a| ==> a[i].name == b[i].name
    ensures NamesSorted(b)
  {
    hide Less, OneLine;
  }

  lemma WrittenOneLine(req: Request)
    requires WellRead(req.headers)
    ensures var hs := WrittenHeaders(req.headers, req.body); forall i :: 0 <= i < |hs| ==> OneLine(hs[i])
  {
    hide OneLine, NamesSorted;
    LengthClean(|req.body|);
    CleanIsOneLine(Header("Content-Length", Decimal(|req.body|)));
  }

  /** A written request is read back, with its length where that was missing, exactly if it is well formed. */
  lemma RoundTripExactly(req: Request)
    ensures Deserialize(Serialize(req)) == Some(WithLength(req)) <==> WellFormed(req)
  {
    hide Deserialize, Serialize, OneLine, IsWord, WellRead, WrittenHeaders, ReceivedAll;
    if WellFormed(req) {
      SerializeDeserialize(req);
    } else if Deserialize(Serialize(req)) == Some(WithLength(req)) {
      DeserializedForm(Serialize(req));
      WithoutLength(req);
      WrittenOneLine(req);
      WrittenRead(req);
      HeadersArrive(req);
      AllClean(req.headers);
    }
  }

  lemma AllClean(headers: seq<Header>)
    requires WellRead(headers) && ReceivedAll(headers) == headers
    ensures NamesSorted(headers) && forall i :: 0 <= i < |headers| ==> CleanHeader(headers[i])
  {
    hide OneLine, CleanHeader, Received;
    forall i | 0 <= i < |headers| ensures CleanHeader(headers[i]) {
      assert Received(headers[i]) == ReceivedAll(headers)[i];
      ReceivedSame(headers[i]);
    }
  }
}
