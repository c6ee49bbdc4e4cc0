/** The JSON texts that the reader accepts, generated by their syntax, and what they mean. */
module JsonGrammar {
  import opened Characters
  import opened JsonString
  import opened JsonText
  import opened JsonValue
  import opened Options

  // ----- syntax -----

  /** One character of a string literal, as it is spelled. */
  datatype Part = Raw(c: char) | Letter(e: char) | Code4(h: string) | Code2(h: string)

  datatype Exponent = Exponent(e: char, sign: string, digits: string)

  datatype Number = Number(minus: bool, whole: string, fraction: Option<string>, exponent: Option<Exponent>)

  datatype Json =
    | JNull | JTrue | JFalse
    | JNumber(number: Number)
    | JString(parts: seq<Part>)
    | JNone(braces: bool)
    | JArray(items: Items)
    | JObject(members: Members)

  /** Items and members with the spaces around them. */
  datatype Items = Last(before: string, item: Json, after: string) | More(before: string, item: Json, after: string, rest: Items)

  datatype Member = Member(before: string, key: seq<Part>, colon: string, gap: string, value: Json, after: string)

  datatype Members = LastMember(member: Member) | MoreMembers(member: Member, rest: Members)

  // ----- string literals -----

  predicate PartFits(p: Part, extensions: bool) {
    match p
    case Raw(c) => c != '"' && c != '\\'
    case Letter(e) => e in "\"\\/bfnrt"
    case Code4(h) => |h| == 4 && HexNumber(h).Some?
    case Code2(h) => extensions && |h| == 2 && HexNumber(h).Some?
  }

  function PartText(p: Part): (s: string)
    ensures s != []
  {
    match p
    case Raw(c) => [c]
    case Letter(e) => ['\\', e]
    case Code4(h) => "\\u" + h
    case Code2(h) => "\\x" + h
  }

  function PartMeans(p: Part): string {
    match p
    case Raw(c) => [c]
    case Letter(e) =>
      if e == 'b' then [8 as char] else if e == 'f' then [12 as char] else if e == 'n' then "\n"
      else if e == 'r' then "\r" else if e == 't' then "\t" else [e]
    case Code4(h) => if HexNumber(h).Some? then Utf8(HexNumber(h).value % 0x1_0000_0000) else []
    case Code2(h) => if HexNumber(h).Some? then [Byte(HexNumber(h).value % 0x100)] else []
  }

  predicate PartsFit(parts: seq<Part>, extensions: bool) {
    forall i :: 0 <= i < |parts| ==> PartFits(parts[i], extensions)
  }

  function PartsText(parts: seq<Part>): string {
    if parts == [] then [] else PartText(parts[0]) + PartsText(parts[1..])
  }

  function PartsMean(parts: seq<Part>): string {
    if parts == [] then [] else PartMeans(parts[0]) + PartsMean(parts[1..])
  }

  lemma Letters(e: char)
    ensures SimpleEscape(e).Some? <==> e in "\"\\/bfnrt"
    ensures SimpleEscape(e).Some? ==> PartMeans(Letter(e)) == [SimpleEscape(e).value]
  {}

  lemma PartReads(p: Part, extensions: bool, tail: string, acc: string)
    requires PartFits(p, extensions) && tail != []
    ensures ReadChars(PartText(p) + tail, extensions, acc) == ReadChars(tail, extensions, acc + PartMeans(p))
  {
    match p
    case Raw(c) => RawReads(c, extensions, tail, acc);
    case Letter(e) => LetterReads(e, extensions, tail, acc);
    case Code4(h) => Code4Reads(h, extensions, tail, acc);
    case Code2(h) => Code2Reads(h, extensions, tail, acc);
  }

  lemma RawReads(c: char, extensions: bool, tail: string, acc: string)
    requires c != '"' && c != '\\'
    ensures ReadChars([c] + tail, extensions, acc) == ReadChars(tail, extensions, acc + [c])
  {
    assert ([c] + tail)[1..] == tail;
  }

  lemma LetterReads(e: char, extensions: bool, tail: string, acc: string)
    requires PartFits(Letter(e), extensions) && tail != []
    ensures ReadChars(['\\', e] + tail, extensions, acc) == ReadChars(tail, extensions, acc + PartMeans(Letter(e)))
  {
    hide HexNumber, Utf8, Byte, SimpleEscape, ReadChars;
    Letters(e);
    ReadSimple(SimpleEscape(e).value, e, extensions, tail, acc);
  }

  lemma Code4Reads(h: string, extensions: bool, tail: string, acc: string)
    requires PartFits(Code4(h), extensions) && tail != []
    ensures ReadChars("\\u" + h + tail, extensions, acc) == ReadChars(tail, extensions, acc + PartMeans(Code4(h)))
  {
    hide HexNumber, Utf8, Byte, SimpleEscape;
    Letters('u');
    var t := ['\\', 'u'] + (h + tail);
    assert "\\u" + h + tail == t;
    assert t[2..6] == h && t[6..] == tail;
  }

  lemma Code2Reads(h: string, extensions: bool, tail: string, acc: string)
    requires PartFits(Code2(h), extensions) && tail != []
    ensures ReadChars("\\x" + h + tail, extensions, acc) == ReadChars(tail, extensions, acc + PartMeans(Code2(h)))
  {
    hide HexNumber, Utf8, Byte, SimpleEscape;
    Letters('x');
    var t := ['\\', 'x'] + (h + tail);
    assert "\\x" + h + tail == t;
    assert t[2..4] == h && t[4..] == tail;
  }

  lemma {:induction false} PartsRead(parts: seq<Part>, extensions: bool, acc: string, rest: string)
    requires PartsFit(parts, extensions)
    ensures ReadChars(PartsText(parts) + ("\"" + rest), extensions, acc) == Parsed(acc + PartsMean(parts), rest)
  {
    hide ReadChars, PartText, PartMeans, PartFits;
    if parts == [] {
      assert PartsText(parts) + ("\"" + rest) == "\"" + rest && acc + PartsMean(parts) == acc;
      ReadClosing(rest, extensions, acc);
    } else {
      var tail := PartsText(parts[1..]) + ("\"" + rest);
      assert PartsText(parts) + ("\"" + rest) == PartText(parts[0]) + tail;
      PartReads(parts[0], extensions, tail, acc);
      PartsRead(parts[1..], extensions, acc + PartMeans(parts[0]), rest);
      assert acc + PartMeans(parts[0]) + PartsMean(parts[1..]) == acc + PartsMean(parts);
    }
  }

  ghost predicate Spelled(parts: seq<Part>, extensions: bool, s: string, acc: string, r: Parsed<string>) {
    PartsFit(parts, extensions) && r.Parsed? && r.value == acc + PartsMean(parts) && s == PartsText(parts) + ("\"" + r.rest)
  }

  lemma {:induction false} ReadsParts(s: string, extensions: bool, acc: string) returns (parts: seq<Part>)
    requires ReadChars(s, extensions, acc).Parsed?
    ensures Spelled(parts, extensions, s, acc, ReadChars(s, extensions, acc))
    decreases |s|
  {
    hide ReadChars, PartMeans, PartFits, PartText;
    Nonempty(s, extensions, acc);
    if s[0] == '"' {
      parts := [];
      assert s == "\"" + s[1..] && acc + PartsMean([]) == acc;
    } else {
      var p := FirstPart(s, extensions, acc);
      var tail := s[|PartText(p)|..];
      var more := ReadsParts(tail, extensions, acc + PartMeans(p));
      parts := [p] + more;
      OnePart(p, more, acc);
      assert s == PartText(p) + tail;
    }
  }

  lemma OnePart(p: Part, more: seq<Part>, acc: string)
    ensures ([p] + more)[1..] == more && PartsText([p] + more) == PartText(p) + PartsText(more)
    ensures acc + PartsMean([p] + more) == acc + PartMeans(p) + PartsMean(more)
  {
    assert ([p] + more)[1..] == more;
  }

  lemma Nonempty(s: string, extensions: bool, acc: string)
    requires ReadChars(s, extensions, acc).Parsed?
    ensures s != [] && (s[0] == '"' ==> ReadChars(s, extensions, acc) == Parsed(acc, s[1..]))
  {
    hide HexNumber, SimpleEscape;
  }

  lemma FirstPart(s: string, extensions: bool, acc: string) returns (p: Part)
    requires ReadChars(s, extensions, acc).Parsed? && s != [] && s[0] != '"'
    ensures PartFits(p, extensions) && PartText(p) <= s
    ensures ReadChars(s, extensions, acc) == ReadChars(s[|PartText(p)|..], extensions, acc + PartMeans(p))
  {
    hide HexNumber, Utf8, Byte, SimpleEscape;
    if s[0] != '\\' {
      p := Raw(s[0]);
    } else if SimpleEscape(s[1]).Some? {
      p := Letter(s[1]);
      Letters(s[1]);
    } else if s[1] == 'u' {
      p := Code4(s[2..6]);
      assert s[..6] == PartText(p);
    } else {
      p := Code2(s[2..4]);
      assert s[..4] == PartText(p);
    }
  }

  /** A string literal behind its opening quote is read exactly as it is spelled. */
  lemma StringExactly(s: string, extensions: bool, value: string, rest: string)
    ensures ReadString(s, extensions) == Parsed(value, rest)
            <==> exists parts :: PartsFit(parts, extensions) && PartsMean(parts) == value && s == "\"" + PartsText(parts) + ("\"" + rest)
  {
    hide ReadChars, PartsFit, PartsMean, PartsText;
    if ReadString(s, extensions) == Parsed(value, rest) {
      var parts := ReadsParts(s[1..], extensions, []);
      assert [] + PartsMean(parts) == PartsMean(parts);
      assert s == "\"" + s[1..];
      assert s == "\"" + PartsText(parts) + ("\"" + rest);
    }
    if parts :| PartsFit(parts, extensions) && PartsMean(parts) == value && s == "\"" + PartsText(parts) + ("\"" + rest) {
      assert s[1..] == PartsText(parts) + ("\"" + rest);
      PartsRead(parts, extensions, [], rest);
      assert [] + PartsMean(parts) == PartsMean(parts);
    }
  }

  // ----- numbers -----

  predicate AllDigits(d: string) {
    d != [] && forall i :: 0 <= i < |d| ==> IsDigit(d[i])
  }

  predicate NumberFits(n: Number) {
    && AllDigits(n.whole) && (n.whole[0] == '0' ==> |n.whole| == 1)
    && (n.fraction.Some? ==> AllDigits(n.fraction.value))
    && (n.exponent.Some? ==>
          var e := n.exponent.value;
          (e.e == 'e' || e.e == 'E') && (e.sign == "" || e.sign == "+" || e.sign == "-") && AllDigits(e.digits))
  }

  function WholeText(n: Number): string {
    (if n.minus then "-" else "") + n.whole
  }

  function FractionText(n: Number): string {
    if n.fraction.Some? then "." + n.fraction.value else ""
  }

  function ExponentText(n: Number): string {
    if n.exponent.Some? then [n.exponent.value.e] + n.exponent.value.sign + n.exponent.value.digits else ""
  }

  function NumberText(n: Number): string {
    WholeText(n) + FractionText(n) + ExponentText(n)
  }

  /** Nothing in `rest` continues the number. */
  predicate NumberEnds(n: Number, rest: string) {
    rest != [] ==>
      && !IsDigit(rest[0])
      && (n.exponent.None? ==> rest[0] != 'e' && rest[0] != 'E')
      && (n.exponent.None? && n.fraction.None? ==> rest[0] != '.')
  }

  /** Without fraction and exponent an integer, if it has 64 bits; otherwise floating, if that converts. */
  function NumberMeans(n: Number, lib: Library): Option<Value>
    requires NumberFits(n)
  {
    var magnitude: int := DigitsValue(n.whole);
    var k := if n.minus then -magnitude else magnitude;
    if n.fraction.None? && n.exponent.None? && -0x8000_0000_0000_0000 <= k < 0x8000_0000_0000_0000 then Some(Integer(k))
    else FloatingOf(NumberText(n), lib)
  }

  lemma SpanMiddle(a: string, d: string, rest: string)
    requires (forall i :: 0 <= i < |d| ==> IsDigit(d[i])) && (rest == [] || !IsDigit(rest[0]))
    ensures DigitSpan((a + (d + rest))[|a|..]) == |d|
  {
    assert (a + (d + rest))[|a|..] == d + rest;
    SpanWhole(d, rest);
  }

  lemma WholeReads(n: Number, rest: string)
    requires NumberFits(n) && (rest == [] || !IsDigit(rest[0]))
    ensures IntegerEnd(WholeText(n) + rest) == Some(|WholeText(n)|)
  {
    hide DigitSpan;
    var s := WholeText(n) + rest;
    var sign := if n.minus then "-" else "";
    assert s == sign + (n.whole + rest);
    assert SignLength(s) == |sign| && s[|sign|] == n.whole[0];
    if n.whole[0] == '0' {
      assert |s| > |sign| + 1 ==> s[|sign| + 1] == rest[0];
    } else {
      SpanMiddle(sign, n.whole, rest);
    }
  }

  lemma FractionReads(a: string, n: Number, rest: string)
    requires NumberFits(n) && (rest == [] || !IsDigit(rest[0])) && (n.fraction.None? ==> rest == [] || rest[0] != '.')
    ensures FractionEnd(a + (FractionText(n) + rest), |a|) == Some(|a| + |FractionText(n)|)
  {
    hide DigitSpan;
    var s := a + (FractionText(n) + rest);
    if n.fraction.Some? {
      assert s == (a + ".") + (n.fraction.value + rest);
      SpanMiddle(a + ".", n.fraction.value, rest);
      assert s[|a|] == '.';
    } else {
      assert s == a + rest;
      assert |a| < |s| ==> s[|a|] == rest[0];
    }
  }

  lemma ExponentReads(a: string, n: Number, rest: string)
    requires NumberFits(n) && NumberEnds(n, rest)
    ensures ExponentEnd(a + (ExponentText(n) + rest), |a|) == Some(|a| + |ExponentText(n)|)
  {
    hide DigitSpan;
    var s := a + (ExponentText(n) + rest);
    if n.exponent.Some? {
      var Exponent(e, sign, digits) := n.exponent.value;
      var head := a + [e] + sign;
      assert s == head + (digits + rest);
      SpanMiddle(head, digits, rest);
      assert s[|a|] == e && |digits| > 0;
      if sign == [] {
        assert s[|a| + 1] == digits[0];
      } else {
        assert s[|a| + 1] == sign[0];
      }
    } else {
      assert s == a + rest;
      assert |a| < |s| ==> s[|a|] == rest[0];
    }
  }

  lemma NumberReads(n: Number, lib: Library, rest: string)
    requires NumberFits(n) && NumberEnds(n, rest) && NumberMeans(n, lib).Some?
    ensures ParseNumber(NumberText(n) + rest, lib) == Parsed(NumberMeans(n, lib).value, rest)
  {
    hide ParseNumber, IntegerEnd, FractionEnd, ExponentEnd, DigitsValue, WholeText, FractionText, ExponentText, FloatingOf,
      IntegerOrFloating, NumberFits, NumberEnds, NumberMeans;
    var s := NumberText(n) + rest;
    var (w, f, e) := (WholeText(n), FractionText(n), ExponentText(n));
    PartsBounds(n, rest);
    WholeReads(n, f + (e + rest));
    FractionReads(w, n, e + rest);
    ExponentReads(w + f, n, rest);
    assert s == w + (f + (e + rest)) == (w + f) + (e + rest);
    var end := |w + f + e|;
    assert s[..end] == NumberText(n) && s[end..] == rest;
    WholeValue(n, lib);
    assert end == |w| ==> NumberText(n) == w && f == [] && e == [];
    if f != [] || e != [] { FloatingMeans(n, lib); }
    NumberEndsAt(s, lib, |w|, |w + f|, end, NumberMeans(n, lib).value);
  }

  /** What is read of a number with these ends of its parts. */
  lemma NumberEndsAt(s: string, lib: Library, whole: nat, fraction: nat, end: nat, v: Value)
    requires IntegerEnd(s) == Some(whole) && whole <= |s| && FractionEnd(s, whole) == Some(fraction)
    requires fraction <= |s| && ExponentEnd(s, fraction) == Some(end) && end <= |s|
    requires end == whole ==> IntegerOrFloating(s[..end], lib) == Some(v)
    requires end != whole ==> FloatingOf(s[..end], lib) == Some(v)
    ensures ParseNumber(s, lib) == Parsed(v, s[end..])
  {
    hide IntegerEnd, FractionEnd, ExponentEnd, FloatingOf, IntegerOrFloating;
  }

  lemma FloatingMeans(n: Number, lib: Library)
    requires NumberFits(n) && (n.fraction.Some? || n.exponent.Some?)
    ensures NumberMeans(n, lib) == FloatingOf(NumberText(n), lib)
  {}

  lemma PartsBounds(n: Number, rest: string)
    requires NumberFits(n) && NumberEnds(n, rest)
    ensures var (f, e) := (FractionText(n), ExponentText(n));
            (f + (e + rest) == [] || !IsDigit((f + (e + rest))[0]))
            && (e + rest == [] || !IsDigit((e + rest)[0]))
            && (n.fraction.None? ==> e + rest == [] || (e + rest)[0] != '.')
            && (f == [] <==> n.fraction.None?) && (e == [] <==> n.exponent.None?)
  {}

  lemma WholeValue(n: Number, lib: Library)
    requires NumberFits(n)
    ensures forall i :: SignLength(WholeText(n)) <= i < |WholeText(n)| ==> IsDigit(WholeText(n)[i])
    ensures n.fraction.None? && n.exponent.None? ==> IntegerOrFloating(WholeText(n), lib) == NumberMeans(n, lib)
  {
    hide DigitsValue;
    var w := WholeText(n);
    assert w[SignLength(w)..] == n.whole;
    assert NumberText(n) == w || n.fraction.Some? || n.exponent.Some?;
  }

  ghost predicate SpellsNumber(n: Number, s: string, lib: Library, v: Value, rest: string) {
    NumberFits(n) && NumberEnds(n, rest) && s == NumberText(n) + rest && NumberMeans(n, lib) == Some(v)
  }

  lemma WholeSplit(s: string) returns (minus: bool, whole: string)
    requires IntegerEnd(s).Some?
    ensures var n := Number(minus, whole, None, None); NumberFits(n) && s[..IntegerEnd(s).value] == WholeText(n)
    ensures var end := IntegerEnd(s).value; end < |s| ==> !IsDigit(s[end])
  {
    hide DigitSpan;
    var (from, end) := (SignLength(s), IntegerEnd(s).value);
    minus := from == 1;
    whole := s[from..end];
    assert s[..end] == (if minus then "-" else "") + whole;
    if s[from] != '0' {
      SpanAfter(s, from);
    }
  }

  lemma SpanAfter(s: string, from: nat)
    requires from <= |s|
    ensures var end := from + DigitSpan(s[from..]);
            end <= |s| && (forall i :: from <= i < end ==> IsDigit(s[i])) && (end < |s| ==> !IsDigit(s[end]))
  {
    var k := DigitSpan(s[from..]);
    forall i | from <= i < from + k ensures IsDigit(s[i]) {
      assert s[i] == s[from..][i - from];
    }
    if from + k < |s| { assert s[from + k] == s[from..][k]; }
  }

  lemma FractionSplit(s: string, at: nat) returns (fraction: Option<string>)
    requires at <= |s| && FractionEnd(s, at).Some?
    ensures var end := FractionEnd(s, at).value;
            at <= end <= |s| && s[at..end] == (if fraction.Some? then "." + fraction.value else "")
            && (fraction.Some? ==> AllDigits(fraction.value) && (end < |s| ==> !IsDigit(s[end])))
            && (fraction.None? ==> end == at && (at < |s| ==> s[at] != '.'))
  {
    hide DigitSpan;
    var end := FractionEnd(s, at).value;
    if at < |s| && s[at] == '.' {
      SpanAfter(s, at + 1);
      fraction := Some(s[at + 1..end]);
      assert s[at..end] == "." + s[at + 1..end];
    } else {
      fraction := None;
    }
  }

  lemma ExponentSplit(s: string, at: nat) returns (exponent: Option<Exponent>)
    requires at <= |s| && ExponentEnd(s, at).Some?
    ensures var end := ExponentEnd(s, at).value; var n := Number(false, "0", None, exponent);
            at <= end <= |s| && NumberFits(n) && s[at..end] == ExponentText(n)
            && (exponent.Some? ==> (end < |s| ==> !IsDigit(s[end])))
            && (exponent.None? ==> end == at && (at < |s| ==> s[at] != 'e' && s[at] != 'E'))
  {
    if at < |s| && (s[at] == 'e' || s[at] == 'E') {
      var sign, digits := SomeExponent(s, at);
      exponent := Some(Exponent(s[at], sign, digits));
    } else {
      exponent := None;
      assert s[at..at] == "";
    }
  }

  lemma SomeExponent(s: string, at: nat) returns (sign: string, digits: string)
    requires at < |s| && (s[at] == 'e' || s[at] == 'E') && ExponentEnd(s, at).Some?
    ensures sign == "" || sign == "+" || sign == "-"
    ensures var end := ExponentEnd(s, at).value;
            at <= end <= |s| && AllDigits(digits) && s[at..end] == [s[at]] + sign + digits && (end < |s| ==> !IsDigit(s[end]))
  {
    hide DigitSpan;
    var end := ExponentEnd(s, at).value;
    var signed := at + 1 < |s| && (s[at + 1] == '+' || s[at + 1] == '-');
    var from := if signed then at + 2 else at + 1;
    SpanAfter(s, from);
    digits := s[from..end];
    if signed {
      sign := [s[at + 1]];
      assert s[at..end] == [s[at], s[at + 1]] + digits == [s[at]] + sign + digits;
    } else {
      sign := [];
      assert s[at..end] == [s[at]] + digits == [s[at]] + sign + digits;
    }
  }

  /** The ends of the three parts of a number that is accepted. */
  lemma NumberForm(s: string, lib: Library) returns (whole: nat, fraction: nat, end: nat)
    requires ParseNumber(s, lib).Parsed?
    ensures IntegerEnd(s) == Some(whole) && whole <= |s| && FractionEnd(s, whole) == Some(fraction)
    ensures fraction <= |s| && ExponentEnd(s, fraction) == Some(end) && whole <= fraction <= end <= |s|
    ensures ParseNumber(s, lib).rest == s[end..]
    ensures Some(ParseNumber(s, lib).value) == if end == whole then IntegerOrFloating(s[..end], lib) else FloatingOf(s[..end], lib)
  {
    hide IntegerEnd, FractionEnd, ExponentEnd, FloatingOf, IntegerOrFloating;
    whole := IntegerEnd(s).value;
    fraction := FractionEnd(s, whole).value;
    end := ExponentEnd(s, fraction).value;
  }

  lemma NumberSplit(s: string, lib: Library) returns (n: Number)
    requires ParseNumber(s, lib).Parsed?
    ensures SpellsNumber(n, s, lib, ParseNumber(s, lib).value, ParseNumber(s, lib).rest)
  {
    hide ParseNumber, IntegerEnd, FractionEnd, ExponentEnd, FloatingOf, IntegerOrFloating, AllDigits, NumberText, WholeText,
      FractionText, ExponentText, NumberMeans, NumberFits;
    var whole, fraction, end := NumberForm(s, lib);
    var minus, digits := WholeSplit(s);
    var f := FractionSplit(s, whole);
    var e := ExponentSplit(s, fraction);
    n := Number(minus, digits, f, e);
    SplitText(s, whole, fraction, end, minus, digits, f, e);
    assert s == s[..end] + s[end..];
    SplitFits(minus, digits, f, e);
    SplitMeans(n, lib, whole, end, s[..end]);
  }

  lemma SplitText(s: string, whole: nat, fraction: nat, end: nat, minus: bool, digits: string, f: Option<string>, e: Option<Exponent>)
    requires whole <= fraction <= end <= |s| && s[..whole] == WholeText(Number(minus, digits, None, None))
    requires s[whole..fraction] == (if f.Some? then "." + f.value else "")
    requires s[fraction..end] == ExponentText(Number(false, "0", None, e))
    ensures NumberText(Number(minus, digits, f, e)) == s[..end] && |WholeText(Number(minus, digits, f, e))| == whole
  {
    assert s[..end] == s[..whole] + s[whole..fraction] + s[fraction..end];
  }

  lemma SplitFits(minus: bool, digits: string, f: Option<string>, e: Option<Exponent>)
    requires NumberFits(Number(minus, digits, None, None)) && NumberFits(Number(false, "0", None, e))
    requires f.Some? ==> AllDigits(f.value)
    ensures NumberFits(Number(minus, digits, f, e))
  {}

  lemma SplitMeans(n: Number, lib: Library, whole: nat, end: nat, text: string)
    requires NumberFits(n) && text == NumberText(n) && |text| == end && |WholeText(n)| == whole
    requires end == whole ==> forall i :: SignLength(text) <= i < |text| ==> IsDigit(text[i])
    ensures NumberMeans(n, lib) == if end == whole then IntegerOrFloating(text, lib) else FloatingOf(text, lib)
  {
    hide FloatingOf, DigitsValue;
    if end == whole {
      assert FractionText(n) == [] && ExponentText(n) == [];
      assert text == WholeText(n);
      WholeValue(n, lib);
    }
  }

  /** A number is read exactly as it is spelled, as far as it goes. */
  lemma NumberExactly(s: string, lib: Library, v: Value, rest: string)
    ensures ParseNumber(s, lib) == Parsed(v, rest) <==> exists n :: SpellsNumber(n, s, lib, v, rest)
  {
    hide ParseNumber, NumberFits, NumberEnds, NumberText, NumberMeans;
    if ParseNumber(s, lib) == Parsed(v, rest) {
      var n := NumberSplit(s, lib);
    }
    if n :| SpellsNumber(n, s, lib, v, rest) {
      NumberReads(n, lib, rest);
    }
  }

  // ----- values -----

  predicate Fits(j: Json, lib: Library)
    decreases j
  {
    match j
    case JNumber(n) => NumberFits(n) && NumberMeans(n, lib).Some?
    case JString(parts) => PartsFit(parts, lib.extensions)
    case JArray(items) => ItemsFit(items, lib)
    case JObject(members) => MembersFit(members, lib)
    case _ => true
  }

  predicate ItemsFit(items: Items, lib: Library)
    decreases items
  {
    Spaces(items.before) && Fits(items.item, lib) && Spaces(items.after) && (items.More? ==> ItemsFit(items.rest, lib))
  }

  predicate MemberFits(m: Member, lib: Library)
    decreases m
  {
    Spaces(m.before) && PartsFit(m.key, lib.extensions) && Spaces(m.colon) && Spaces(m.gap) && Fits(m.value, lib) && Spaces(m.after)
  }

  predicate MembersFit(members: Members, lib: Library)
    decreases members
  {
    MemberFits(members.member, lib) && (members.MoreMembers? ==> MembersFit(members.rest, lib))
  }

  function Source(j: Json): string
    decreases j
  {
    match j
    case JNull => "null"
    case JTrue => "true"
    case JFalse => "false"
    case JNumber(n) => NumberText(n)
    case JString(parts) => StringText(parts)
    case JNone(braces) => if braces then "{}" else "[]"
    case JArray(items) => "[" + ItemsSource(items)
    case JObject(members) => "{" + MembersSource(members)
  }

  function StringText(parts: seq<Part>): string {
    "\"" + PartsText(parts) + "\""
  }

  function ItemsSource(items: Items): string
    decreases items
  {
    items.before + Source(items.item) + items.after + (if items.More? then "," + ItemsSource(items.rest) else "]")
  }

  function MemberSource(m: Member): string
    decreases m
  {
    m.before + StringText(m.key) + m.colon + ":" + m.gap + Source(m.value) + m.after
  }

  function MembersSource(members: Members): string
    decreases members
  {
    MemberSource(members.member) + (if members.MoreMembers? then "," + MembersSource(members.rest) else "}")
  }

  /** The value; of several members with one key the first one stays. */
  function Means(j: Json, lib: Library): Value
    requires Fits(j, lib)
    decreases j
  {
    match j
    case JNull => Null
    case JTrue => Bool(true)
    case JFalse => Bool(false)
    case JNumber(n) => NumberMeans(n, lib).value
    case JString(parts) => StringValue(PartsMean(parts), lib.extensions)
    case JNone(braces) => if braces then Object([]) else Array([])
    case JArray(items) => Array(ItemsMean(items, lib))
    case JObject(members) => Object(MembersMean(members, lib, []))
  }

  function ItemsMean(items: Items, lib: Library): seq<Value>
    requires ItemsFit(items, lib)
    decreases items
  {
    [Means(items.item, lib)] + (if items.More? then ItemsMean(items.rest, lib) else [])
  }

  function MemberMeans(m: Member, lib: Library): Field
    requires MemberFits(m, lib)
    decreases m
  {
    Field(PartsMean(m.key), Means(m.value, lib))
  }

  function MembersMean(members: Members, lib: Library, fields: seq<Field>): seq<Field>
    requires MembersFit(members, lib)
    decreases members
  {
    var field := MemberMeans(members.member, lib);
    var more := Put(fields, field.key, field.value);
    if members.MoreMembers? then MembersMean(members.rest, lib, more) else more
  }

  predicate ValueEnds(j: Json, rest: string) {
    j.JNumber? ==> NumberEnds(j.number, rest)
  }

  // ----- everything generated is accepted -----

  lemma JsonStarts(j: Json, lib: Library)
    requires Fits(j, lib)
    ensures Source(j) != [] && !IsSpace(Source(j)[0]) && Source(j)[0] != ']' && Source(j)[0] != '}'
  {
    if j.JNumber? { NumberStarts(j.number); }
  }

  lemma NumberStarts(n: Number)
    requires NumberFits(n)
    ensures NumberText(n) != [] && (NumberText(n)[0] == '-' || IsDigit(NumberText(n)[0]))
  {}

  lemma NumberBehind(n: Number, gap: string, c: char, rest: string)
    requires Spaces(gap) && (c == ',' || c == ']' || c == '}')
    ensures NumberEnds(n, gap + ([c] + rest))
  {
    var s := gap + ([c] + rest);
    assert s[0] == if gap == [] then c else gap[0];
  }

  lemma StringReads(parts: seq<Part>, lib: Library, rest: string)
    requires PartsFit(parts, lib.extensions)
    ensures ReadString(StringText(parts) + rest, lib.extensions) == Parsed(PartsMean(parts), rest)
  {
    hide ReadString, PartsMean, PartsFit, PartsText;
    StringExactly(StringText(parts) + rest, lib.extensions, PartsMean(parts), rest);
    assert StringText(parts) + rest == "\"" + PartsText(parts) + ("\"" + rest);
  }

  lemma {:induction false} ValueReads(j: Json, lib: Library, rest: string)
    requires Fits(j, lib) && ValueEnds(j, rest)
    ensures ParseValue(Source(j) + rest, lib) == Parsed(Means(j, lib), rest)
    decreases j
  {
    hide ParseValue, ParseItems, ParseMembers, Source, Means;
    match j
    case JArray(items) =>
      ItemsRead(items, lib, rest, []);
      ArrayReads(items, lib, rest);
    case JObject(members) =>
      MembersRead(members, lib, rest, []);
      ObjectReads(members, lib, rest);
    case JNumber(n) => NumberValueReads(n, lib, rest);
    case JString(parts) => StringValueReads(parts, lib, rest);
    case _ => WordReads(j, lib, rest);
  }

  lemma WordReads(j: Json, lib: Library, rest: string)
    requires j.JNull? || j.JTrue? || j.JFalse? || j.JNone?
    ensures Fits(j, lib) && ParseValue(Source(j) + rest, lib) == Parsed(Means(j, lib), rest)
  {
    hide ParseNumber, ParseItems, ParseMembers, ReadString;
    var s := Source(j) + rest;
    match j
    case JNull => assert s[..4] == "null" && s[4..] == rest;
    case JTrue => assert s[..4] == "true" && s[4..] == rest;
    case JFalse => assert s[..5] == "false" && s[5..] == rest;
    case JNone(braces) => assert s[2..] == rest;
  }

  lemma NumberValueReads(n: Number, lib: Library, rest: string)
    requires Fits(JNumber(n), lib) && NumberEnds(n, rest)
    ensures ParseValue(Source(JNumber(n)) + rest, lib) == Parsed(Means(JNumber(n), lib), rest)
  {
    hide ParseNumber, NumberFits, NumberMeans, NumberText, NumberEnds;
    var s := Source(JNumber(n)) + rest;
    NumberStarts(n);
    assert s[0] == NumberText(n)[0];
    NumberReads(n, lib, rest);
  }

  lemma StringValueReads(parts: seq<Part>, lib: Library, rest: string)
    requires PartsFit(parts, lib.extensions)
    ensures ParseValue(Source(JString(parts)) + rest, lib) == Parsed(Means(JString(parts), lib), rest)
  {
    hide ReadString, PartsFit, PartsMean, StringText, StringValue;
    StringReads(parts, lib, rest);
    QuoteFirst(parts, rest);
  }

  lemma ArrayReads(items: Items, lib: Library, rest: string)
    requires ItemsFit(items, lib)
    requires ParseItems(ItemsSource(items) + rest, lib, []) == Parsed(Array([] + ItemsMean(items, lib)), rest)
    ensures Fits(JArray(items), lib) && ParseValue(Source(JArray(items)) + rest, lib) == Parsed(Means(JArray(items), lib), rest)
  {
    hide ParseItems, ItemsSource, ItemsMean, ItemsFit;
    var s := "[" + ItemsSource(items) + rest;
    assert s[1..] == ItemsSource(items) + rest;
    FirstItem(items, lib, rest);
    assert s[1] == s[1..][0];
    assert [] + ItemsMean(items, lib) == ItemsMean(items, lib);
  }

  lemma ObjectReads(members: Members, lib: Library, rest: string)
    requires MembersFit(members, lib)
    requires ParseMembers(MembersSource(members) + rest, lib, []) == Parsed(Object(MembersMean(members, lib, [])), rest)
    ensures Fits(JObject(members), lib) && ParseValue(Source(JObject(members)) + rest, lib) == Parsed(Means(JObject(members), lib), rest)
  {
    hide ParseMembers, MembersSource, MembersMean, MembersFit;
    var s := "{" + MembersSource(members) + rest;
    assert s[1..] == MembersSource(members) + rest;
    FirstMember(members, lib, rest);
    assert s[1] == s[1..][0];
  }

  lemma QuoteFirst(parts: seq<Part>, rest: string)
    ensures (StringText(parts) + rest)[0] == '"'
  {}

  /** No closing bracket follows the opening one directly. */
  lemma FirstItem(items: Items, lib: Library, rest: string)
    requires ItemsFit(items, lib)
    ensures var s := ItemsSource(items) + rest; s != [] && s[0] != ']'
  {
    JsonStarts(items.item, lib);
    var s := ItemsSource(items) + rest;
    assert s[0] == if items.before == [] then Source(items.item)[0] else items.before[0];
  }

  lemma FirstMember(members: Members, lib: Library, rest: string)
    requires MembersFit(members, lib)
    ensures var s := MembersSource(members) + rest; s != [] && s[0] != '}'
  {
    var m := members.member;
    QuoteFirst(m.key, m.colon);
    assert MemberSource(m)[0] == if m.before == [] then '"' else m.before[0];
    assert (MembersSource(members) + rest)[0] == MemberSource(m)[0];
  }

  lemma {:induction false} ItemsRead(items: Items, lib: Library, rest: string, done: seq<Value>)
    requires ItemsFit(items, lib)
    ensures ParseItems(ItemsSource(items) + rest, lib, done) == Parsed(Array(done + ItemsMean(items, lib)), rest)
    decreases items
  {
    hide ParseValue, ParseItems, Means, Fits, Source;
    var (item, after) := (items.item, items.after);
    var (c, left) := if items.More? then (',', ItemsSource(items.rest) + rest) else (']', rest);
    var tail := [c] + left;
    var s := ItemsSource(items) + rest;
    ItemsParts(items, lib, rest, done);
    var t := Source(item) + (after + tail);
    JsonStarts(item, lib);
    assert t[0] == Source(item)[0];
    SkipTo(items.before, t);
    if item.JNumber? { NumberBehind(item.number, after, c, left); }
    ValueReads(item, lib, after + tail);
    SkipTo(after, tail);
    ParseItemsStep(s, t, after + tail, Means(item, lib), lib, done);
    assert tail[1..] == left;
    if items.More? {
      ItemsRead(items.rest, lib, rest, done + [Means(item, lib)]);
      ParseItemsSkips(left, lib, done + [Means(item, lib)]);
    }
  }

  lemma ItemsParts(items: Items, lib: Library, rest: string, done: seq<Value>)
    requires ItemsFit(items, lib)
    ensures var (c, left) := if items.More? then (',', ItemsSource(items.rest) + rest) else (']', rest);
            ItemsSource(items) + rest == items.before + (Source(items.item) + (items.after + ([c] + left)))
    ensures done + ItemsMean(items, lib)
            == if items.More? then done + [Means(items.item, lib)] + ItemsMean(items.rest, lib) else done + [Means(items.item, lib)]
  {
    hide Source, Means;
  }

  lemma {:induction false} MemberReads(m: Member, lib: Library, c: char, rest: string)
    requires MemberFits(m, lib) && (c == ',' || c == '}')
    ensures ParseField(MemberSource(m) + ([c] + rest), lib)
            == Parsed(MemberMeans(m, lib), m.after + ([c] + rest))
    decreases m
  {
    hide ParseValue, ReadString, Means, PartsMean, PartsFit, StringText, Source, Fits;
    var end := m.after + ([c] + rest);
    var value := Source(m.value) + end;
    var behind := m.colon + (":" + (m.gap + value));
    var s := MemberSource(m) + ([c] + rest);
    assert s == m.before + (StringText(m.key) + behind);
    QuoteFirst(m.key, behind);
    SkipTo(m.before, StringText(m.key) + behind);
    StringReads(m.key, lib, behind);
    SkipTo(m.colon, ":" + (m.gap + value));
    assert (":" + (m.gap + value))[1..] == m.gap + value;
    JsonStarts(m.value, lib);
    assert value[0] == Source(m.value)[0];
    SkipTo(m.gap, value);
    if m.value.JNumber? { NumberBehind(m.value.number, m.after, c, rest); }
    ValueReads(m.value, lib, end);
  }

  lemma MemberSpaces(m: Member, lib: Library)
    requires MemberFits(m, lib)
    ensures Spaces(m.after)
  {}

  lemma {:induction false} MembersRead(members: Members, lib: Library, rest: string, done: seq<Field>)
    requires MembersFit(members, lib)
    ensures ParseMembers(MembersSource(members) + rest, lib, done) == Parsed(Object(MembersMean(members, lib, done)), rest)
    decreases members
  {
    hide ParseField, ParseMembers, MemberMeans, MemberSource, MemberFits, Put;
    var m := members.member;
    var (c, left) := if members.MoreMembers? then (',', MembersSource(members.rest) + rest) else ('}', rest);
    var s := MembersSource(members) + rest;
    assert s == MemberSource(m) + ([c] + left);
    MemberReads(m, lib, c, left);
    var field := MemberMeans(m, lib);
    MemberSpaces(m, lib);
    SkipTo(m.after, [c] + left);
    ParseMembersStep(s, m.after + ([c] + left), field, lib, done);
    assert ([c] + left)[1..] == left;
    if members.MoreMembers? {
      var more := Put(done, field.key, field.value);
      MembersRead(members.rest, lib, rest, more);
      ParseMembersSkips(left, lib, more);
    }
  }

  // ----- everything accepted is generated -----

  ghost predicate Spells(j: Json, s: string, lib: Library, v: Value, rest: string) {
    Fits(j, lib) && ValueEnds(j, rest) && s == Source(j) + rest && Means(j, lib) == v
  }

  lemma {:induction false} SkipSplit(s: string) returns (gap: string)
    ensures Spaces(gap) && s == gap + SkipSpace(s)
  {
    if s != [] && IsSpace(s[0]) {
      var more := SkipSplit(s[1..]);
      gap := [s[0]] + more;
      assert s == [s[0]] + s[1..];
    } else {
      gap := [];
      assert s == [] + s;
    }
  }

  lemma StringSpelled(s: string, lib: Library) returns (parts: seq<Part>)
    requires ReadString(s, lib.extensions).Parsed?
    ensures PartsFit(parts, lib.extensions) && PartsMean(parts) == ReadString(s, lib.extensions).value
    ensures s == StringText(parts) + ReadString(s, lib.extensions).rest
  {
    hide ReadString, PartsFit, PartsMean, PartsText;
    var r := ReadString(s, lib.extensions);
    StringExactly(s, lib.extensions, r.value, r.rest);
    parts :| PartsFit(parts, lib.extensions) && PartsMean(parts) == r.value && s == "\"" + PartsText(parts) + ("\"" + r.rest);
    assert StringText(parts) + r.rest == s;
  }

  /** Values that are no arrays or objects. */
  lemma PlainSpelled(s: string, lib: Library) returns (j: Json)
    requires ParseValue(s, lib).Parsed?
    requires !(s[0] == '{' && !(|s| > 1 && s[1] == '}')) && !(s[0] == '[' && !(|s| > 1 && s[1] == ']'))
    ensures Spells(j, s, lib, ParseValue(s, lib).value, ParseValue(s, lib).rest)
  {
    hide ParseNumber, ParseItems, ParseMembers, ReadString, NumberFits, NumberMeans, NumberText, NumberEnds, PartsFit, PartsMean,
      StringText, StringValue;
    if s[0] == '{' || s[0] == '[' {
      j := JNone(s[0] == '{');
      assert s == s[..2] + s[2..];
    } else if s[0] == '"' {
      var parts := StringSpelled(s, lib);
      j := JString(parts);
    } else if IsDigit(s[0]) || s[0] == '-' {
      var n := NumberSplit(s, lib);
      j := JNumber(n);
    } else {
      j := WordSpelled(s, lib);
    }
  }

  lemma WordSpelled(s: string, lib: Library) returns (j: Json)
    requires ParseValue(s, lib).Parsed? && s[0] != '{' && s[0] != '[' && s[0] != '"' && s[0] != '-' && !IsDigit(s[0])
    ensures Spells(j, s, lib, ParseValue(s, lib).value, ParseValue(s, lib).rest)
  {
    hide ParseNumber, ParseItems, ParseMembers, ReadString;
    if StartsWith(s, "true") {
      j := JTrue;
      assert s == "true" + s[4..];
    } else if StartsWith(s, "false") {
      j := JFalse;
      assert s == "false" + s[5..];
    } else {
      j := JNull;
      assert s == "null" + s[4..];
    }
  }

  lemma {:induction false} ValueSpelled(s: string, lib: Library) returns (j: Json)
    requires ParseValue(s, lib).Parsed?
    ensures Spells(j, s, lib, ParseValue(s, lib).value, ParseValue(s, lib).rest)
    decreases |s|, 1
  {
    hide ParseItems, ParseMembers, ParseNumber, ReadString, ItemsFit, MembersFit, ItemsMean, MembersMean, ItemsSource, MembersSource;
    if s[0] == '{' && !(|s| > 1 && s[1] == '}') {
      var members := MembersSpelled(s[1..], lib, []);
      j := JObject(members);
      assert s == "{" + s[1..];
    } else if s[0] == '[' && !(|s| > 1 && s[1] == ']') {
      var items := ItemsSpelled(s[1..], lib, []);
      j := JArray(items);
      assert s == "[" + s[1..];
      assert [] + ItemsMean(items, lib) == ItemsMean(items, lib);
    } else {
      j := PlainSpelled(s, lib);
    }
  }

  ghost predicate SpellsItems(items: Items, s: string, lib: Library, done: seq<Value>, r: Parsed<Value>) {
    ItemsFit(items, lib) && r.Parsed? && s == ItemsSource(items) + r.rest && r.value == Array(done + ItemsMean(items, lib))
  }

  /** One turn of the loop over the items. */
  lemma ItemsTurn(s: string, lib: Library, done: seq<Value>) returns (value: Value, after: string, t: string)
    requires ParseItems(s, lib, done).Parsed?
    ensures ParseValue(SkipSpace(s), lib) == Parsed(value, after) && t == SkipSpace(after) && t != [] && |t| <= |after| < |s|
    ensures t[0] == ',' || t[0] == ']'
    ensures t[0] == ',' ==> ParseItems(s, lib, done) == ParseItems(t[1..], lib, done + [value])
    ensures t[0] == ']' ==> ParseItems(s, lib, done) == Parsed(Array(done + [value]), t[1..])
  {
    hide ParseValue;
    var p := ParseValue(SkipSpace(s), lib);
    value, after := p.value, p.rest;
    t := SkipSpace(after);
    if t[0] == ',' { ParseItemsSkips(t[1..], lib, done + [value]); }
  }

  lemma {:induction false} ItemsSpelled(s: string, lib: Library, done: seq<Value>) returns (items: Items)
    requires ParseItems(s, lib, done).Parsed?
    ensures SpellsItems(items, s, lib, done, ParseItems(s, lib, done))
    decreases |s|, 2
  {
    hide ParseValue, ParseItems, Fits, Source, Means;
    var value, after, t := ItemsTurn(s, lib, done);
    var before := SkipSplit(s);
    var gap := SkipSplit(after);
    var j := ValueSpelled(SkipSpace(s), lib);
    assert t == [t[0]] + t[1..];
    assert s == before + (Source(j) + (gap + ([t[0]] + t[1..])));
    if t[0] == ',' {
      var rest := ItemsSpelled(t[1..], lib, done + [value]);
      items := More(before, j, gap, rest);
      ItemsParts(items, lib, ParseItems(s, lib, done).rest, done);
    } else {
      items := Last(before, j, gap);
      ItemsParts(items, lib, t[1..], done);
    }
  }

  lemma FieldParts(s: string, lib: Library) returns (t: string, name: Parsed<string>, u: string)
    requires ParseField(s, lib).Parsed?
    ensures t == SkipSpace(s) && name == ReadString(t, lib.extensions) && name.Parsed?
    ensures u == SkipSpace(name.rest) && u != [] && u[0] == ':' && |u| <= |name.rest| < |t| <= |s|
    ensures var p := ParseValue(SkipSpace(u[1..]), lib);
            p.Parsed? && ParseField(s, lib) == Parsed(Field(name.value, p.value), p.rest)
  {
    hide ParseValue, ReadString;
    t := SkipSpace(s);
    name := ReadString(t, lib.extensions);
    u := SkipSpace(name.rest);
  }

  lemma {:induction false} FieldSpelled(s: string, lib: Library) returns (m: Member)
    requires ParseField(s, lib).Parsed?
    ensures m.after == [] && MemberFits(m, lib)
    ensures s == MemberSource(m) + ParseField(s, lib).rest && ParseField(s, lib).value == MemberMeans(m, lib)
    decreases |s|, 2
  {
    hide ParseField, ParseValue, ReadString, PartsFit, PartsMean, StringText, Source, Fits, Means, MemberSource;
    var t, name, u := FieldParts(s, lib);
    var before := SkipSplit(s);
    var parts := StringSpelled(t, lib);
    var colon := SkipSplit(name.rest);
    var gap := SkipSplit(u[1..]);
    var j := ValueSpelled(SkipSpace(u[1..]), lib);
    m := Member(before, parts, colon, gap, j, []);
    var rest := ParseField(s, lib).rest;
    assert u == ":" + u[1..];
    MemberJoined(m, rest, lib);
  }

  lemma MemberJoined(m: Member, rest: string, lib: Library)
    requires m.after == []
    ensures MemberSource(m) + rest
            == m.before + (StringText(m.key) + (m.colon + (":" + (m.gap + (Source(m.value) + rest)))))
  {
    hide StringText, Source;
  }

  lemma MembersTurn(s: string, lib: Library, done: seq<Field>) returns (field: Field, after: string, t: string)
    requires ParseMembers(s, lib, done).Parsed?
    ensures ParseField(s, lib) == Parsed(field, after) && t == SkipSpace(after) && t != [] && |t| <= |after| < |s|
    ensures t[0] == ',' || t[0] == '}'
    ensures var more := Put(done, field.key, field.value);
            && (t[0] == ',' ==> ParseMembers(s, lib, done) == ParseMembers(t[1..], lib, more))
            && (t[0] == '}' ==> ParseMembers(s, lib, done) == Parsed(Object(more), t[1..]))
  {
    hide ParseField, Put;
    var p := ParseField(s, lib);
    field, after := p.value, p.rest;
    t := SkipSpace(after);
    if t[0] == ',' { ParseMembersSkips(t[1..], lib, Put(done, field.key, field.value)); }
  }

  ghost predicate SpellsMembers(members: Members, s: string, lib: Library, done: seq<Field>, r: Parsed<Value>) {
    MembersFit(members, lib) && r.Parsed? && s == MembersSource(members) + r.rest && r.value == Object(MembersMean(members, lib, done))
  }

  lemma {:induction false} MembersSpelled(s: string, lib: Library, done: seq<Field>) returns (members: Members)
    requires ParseMembers(s, lib, done).Parsed?
    ensures SpellsMembers(members, s, lib, done, ParseMembers(s, lib, done))
    decreases |s|, 3
  {
    hide ParseField, ParseMembers, Put, MemberFits, MemberSource, MemberMeans, SpellsMembers;
    var field, after, t := MembersTurn(s, lib, done);
    var gap := SkipSplit(after);
    var m := FieldSpelled(s, lib);
    var member := m.(after := gap);
    SpacedMember(m, gap, lib);
    assert t == [t[0]] + t[1..];
    assert s == MemberSource(member) + ([t[0]] + t[1..]);
    var r := ParseMembers(s, lib, done);
    if t[0] == ',' {
      var rest := MembersSpelled(t[1..], lib, Put(done, field.key, field.value));
      members := MoreMembers(member, rest);
      MoreSpelled(member, rest, s, t[1..], lib, done, r);
    } else {
      members := LastMember(member);
      LastSpelled(member, s, t[1..], lib, done);
    }
  }

  lemma MoreSpelled(m: Member, rest: Members, s: string, t: string, lib: Library, done: seq<Field>, r: Parsed<Value>)
    requires MemberFits(m, lib) && s == MemberSource(m) + ("," + t)
    requires SpellsMembers(rest, t, lib, Put(done, MemberMeans(m, lib).key, MemberMeans(m, lib).value), r)
    ensures SpellsMembers(MoreMembers(m, rest), s, lib, done, r)
  {
    hide MemberFits, MemberSource, MemberMeans, Put;
  }

  lemma LastSpelled(m: Member, s: string, t: string, lib: Library, done: seq<Field>)
    requires MemberFits(m, lib) && s == MemberSource(m) + ("}" + t)
    ensures var f := MemberMeans(m, lib); SpellsMembers(LastMember(m), s, lib, done, Parsed(Object(Put(done, f.key, f.value)), t))
  {
    hide MemberFits, MemberSource, MemberMeans, Put;
  }

  lemma SpacedMember(m: Member, gap: string, lib: Library)
    requires m.after == [] && MemberFits(m, lib) && Spaces(gap)
    ensures var member := m.(after := gap);
            MemberFits(member, lib) && MemberSource(member) == MemberSource(m) + gap && MemberMeans(member, lib) == MemberMeans(m, lib)
  {
    hide Source, StringText;
    assert MemberSource(m) + [] == MemberSource(m);
  }

  /** The reader accepts exactly the texts that the syntax generates, and gives what they mean. */
  lemma LanguageExactly(s: string, lib: Library, v: Value, rest: string)
    ensures ParseValue(s, lib) == Parsed(v, rest) <==> exists j :: Spells(j, s, lib, v, rest)
  {
    hide ParseValue, Fits, Source, Means, ValueEnds;
    if ParseValue(s, lib) == Parsed(v, rest) {
      var j := ValueSpelled(s, lib);
    }
    if j :| Spells(j, s, lib, v, rest) {
      ValueReads(j, lib, rest);
    }
  }

  // ----- what the codes of characters are -----

  /** Four hexadecimal digits, upper or lower case, are the number that they spell. */
  lemma CodeNumber(h: string)
    requires |h| == 4 && forall i :: 0 <= i < 4 ==> IsHex(h[i])
    ensures HexNumber(h) == Some(4096 * HexValue(h[0]) + 256 * HexValue(h[1]) + 16 * HexValue(h[2]) + HexValue(h[3]))
  {
    hide HexNumber, HexPrefix, HexValue;
    NoPrefix(h);
    HexPlain(h);
    HexFour(h[0], h[1], h[2], h[3]);
    assert h == [h[0], h[1], h[2], h[3]];
  }

  lemma NoPrefix(h: string)
    requires |h| == 4 && forall i :: 0 <= i < 4 ==> IsHex(h[i])
    ensures h[1] != 'x' && h[1] != 'X'
  {}

  lemma HexDigits(n: nat)
    requires n < 16
    ensures IsHex("0123456789abcdef"[n]) && HexValue("0123456789abcdef"[n]) == n
    ensures IsHex("0123456789ABCDEF"[n]) && HexValue("0123456789ABCDEF"[n]) == n
    ensures HexDigit(n) == "0123456789abcdef"[n]
  {
    if n < 10 { LowDigits(n); } else { HighDigits(n); }
  }

  lemma LowDigits(n: nat)
    requires n < 10
    ensures Code("0123456789abcdef"[n]) == 48 + n && Code("0123456789ABCDEF"[n]) == 48 + n
  {}

  lemma HighDigits(n: nat)
    requires 10 <= n < 16
    ensures Code("0123456789abcdef"[n]) == 87 + n && Code("0123456789ABCDEF"[n]) == 55 + n
  {}
}
