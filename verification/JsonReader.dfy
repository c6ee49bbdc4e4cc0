/** The JSON reader: a cursor that moves over the text. */
module JsonReader {
  import opened Characters
  import opened JsonString
  import JsonText
  import opened JsonValue
  import opened Options

  class Parser {
    const text: string
    const lib: JsonText.Library
    var pos: nat

    ghost predicate Valid()
      reads this
    {
      pos <= |text|
    }

    /** What is still to be read. */
    ghost function View(): string
      reads this
      requires Valid()
    {
      text[pos..]
    }

    constructor (text: string, lib: JsonText.Library)
      ensures Valid() && View() == text && this.text == text && this.lib == lib
    {
      this.text := text;
      this.lib := lib;
      pos := 0;
    }

    method SkipWhitespace()
      requires Valid()
      modifies this`pos
      ensures Valid() && View() == SkipSpace(old(View()))
    {
      while pos < |text| && IsSpace(text[pos])
        invariant Valid() && SkipSpace(View()) == SkipSpace(old(View()))
      {
        assert View()[1..] == text[pos + 1..];
        pos := pos + 1;
      }
    }

    method ParseJsonString() returns (r: Option<string>)
      requires Valid()
      modifies this`pos
      ensures Valid() && Outcome(ReadString(old(View()), lib.extensions), r, View())
    {
      hide ReadChars, SimpleEscape, HexNumber, Utf8, JsonString.Byte;
      if pos >= |text| || text[pos] != '"' {
        return None;
      }
      assert View()[1..] == text[pos + 1..];
      pos := pos + 1;
      var result := "";
      while pos < |text|
        invariant Valid()
        invariant ReadChars(View(), lib.extensions, result) == ReadString(old(View()), lib.extensions)
        decreases |text| - pos
      {
        ghost var before := View();
        ghost var acc := result;
        var c := text[pos];
        if c == '\\' {
          pos := pos + 1;
          if pos >= |text| {
            ReadStep(before, lib.extensions, acc);
            return None;
          }
          var escaped := text[pos];
          var simple := SimpleEscape(escaped);
          if simple.Some? {
            result := result + [simple.value];
          } else if escaped == 'u' {
            if pos + 4 >= |text| {
              ReadStep(before, lib.extensions, acc);
              return None;
            }
            assert before[2..6] == text[pos + 1..pos + 5];
            var codepoint := HexNumber(text[pos + 1..pos + 5]);
            if codepoint.None? {
              ReadStep(before, lib.extensions, acc);
              return None;
            }
            result := result + Utf8(codepoint.value % 0x1_0000_0000);
            pos := pos + 4;
          } else if escaped == 'x' && lib.extensions {
            if pos + 2 >= |text| {
              ReadStep(before, lib.extensions, acc);
              return None;
            }
            assert before[2..4] == text[pos + 1..pos + 3];
            var code := HexNumber(text[pos + 1..pos + 3]);
            if code.None? {
              ReadStep(before, lib.extensions, acc);
              return None;
            }
            result := result + [JsonString.Byte(code.value % 0x100)];
            pos := pos + 2;
          } else {
            ReadStep(before, lib.extensions, acc);
            return None;
          }
        } else if c == '"' {
          pos := pos + 1;
          ReadStep(before, lib.extensions, acc);
          assert before[1..] == View();
          return Some(result);
        } else {
          result := result + [c];
        }
        pos := pos + 1;
        ReadStep(before, lib.extensions, acc);
        assert before[|before| - |View()|..] == View();
      }
      ReadStep(View(), lib.extensions, result);
      r := None;
    }

    method SkipDigits()
      requires Valid()
      modifies this`pos
      ensures Valid() && pos == old(pos) + DigitSpan(old(View()))
    {
      while pos < |text| && IsDigit(text[pos])
        invariant Valid() && old(pos) <= pos
        invariant pos - old(pos) + DigitSpan(View()) == DigitSpan(old(View()))
      {
        assert View()[1..] == text[pos + 1..];
        pos := pos + 1;
      }
    }

    method ParseNumber() returns (r: Option<Value>)
      requires Valid()
      modifies this`pos
      ensures Valid() && Outcome(JsonText.ParseNumber(old(View()), lib), r, View())
    {
      hide DigitSpan, DigitsValue;
      ghost var s := View();
      var start := pos;
      if pos >= |text| {
        return None;
      }
      if text[pos] == '-' {
        pos := pos + 1;
      }
      ghost var sign := pos - start;
      if pos >= |text| {
        return None;
      }
      assert s[sign..] == View();
      if text[pos] == '0' {
        pos := pos + 1;
        if pos < |text| && IsDigit(text[pos]) {
          return None;
        }
      } else if IsDigit(text[pos]) {
        SkipDigits();
      } else {
        return None;
      }
      ghost var whole := pos - start;
      assert JsonText.IntegerEnd(s) == Some(whole);
      r := ParseRemainder(start, whole);
    }

    /** The rest of a number that began at `start`, and its value. */
    method ParseRemainder(start: nat, ghost whole: nat) returns (r: Option<Value>)
      requires Valid() && start + whole == pos && JsonText.IntegerEnd(text[start..]) == Some(whole)
      modifies this`pos
      ensures Valid() && Outcome(JsonText.ParseNumber(text[start..], lib), r, View())
    {
      hide DigitSpan, DigitsValue, JsonText.IntegerEnd, JsonText.FractionEnd, JsonText.ExponentEnd;
      ghost var s := text[start..];
      assert s[whole..] == View();
      var ok, hasFraction := ParseFraction(start);
      if !ok {
        return None;
      }
      var okay, hasExponent := ParseExponent(start);
      if !okay {
        return None;
      }
      var literal := text[start..pos];
      assert s[..pos - start] == literal && s[pos - start..] == View();
      r := if hasFraction || hasExponent then JsonText.FloatingOf(literal, lib) else JsonText.IntegerOrFloating(literal, lib);
    }

    /** The fraction of a number that began at `start`, if there is one. */
    method ParseFraction(start: nat) returns (ok: bool, floating: bool)
      requires Valid() && start <= pos
      modifies this`pos
      ensures Valid() && start <= pos
      ensures JsonText.FractionEnd(text[start..], old(pos) - start) == if ok then Some(pos - start) else None
      ensures ok ==> (floating <==> pos > old(pos))
    {
      hide DigitSpan;
      if pos < |text| && text[pos] == '.' {
        pos := pos + 1;
        assert text[start..][pos - start..] == View();
        if pos >= |text| || !IsDigit(text[pos]) {
          SpanNone(View());
          return false, true;
        }
        SkipDigits();
        return true, true;
      }
      return true, false;
    }

    method ParseExponent(start: nat) returns (ok: bool, floating: bool)
      requires Valid() && start <= pos
      modifies this`pos
      ensures Valid() && start <= pos
      ensures JsonText.ExponentEnd(text[start..], old(pos) - start) == if ok then Some(pos - start) else None
      ensures ok ==> (floating <==> pos > old(pos))
    {
      hide DigitSpan;
      if pos < |text| && (text[pos] == 'e' || text[pos] == 'E') {
        pos := pos + 1;
        if pos < |text| && (text[pos] == '+' || text[pos] == '-') {
          pos := pos + 1;
        }
        assert text[start..][pos - start..] == View();
        if pos >= |text| || !IsDigit(text[pos]) {
          SpanNone(View());
          return false, true;
        }
        SpanSome(View());
        SkipDigits();
        return true, true;
      }
      return true, false;
    }

    method ParseJsonValue() returns (r: Option<Value>)
      requires Valid()
      modifies this`pos
      ensures Valid() && Outcome(JsonText.ParseValue(old(View()), lib), r, View())
      decreases |View()|, 2
    {
      hide ReadString, JsonText.ParseNumber, JsonText.ParseItems, JsonText.ParseMembers;
      if pos >= |text| {
        return None;
      }
      ghost var s := View();
      var c := text[pos];
      if c == '{' {
        r := ParseObject();
      } else if c == '[' {
        r := ParseArray();
      } else if c == '"' {
        var str := ParseJsonString();
        r := if str.None? then None else Some(JsonText.StringValue(str.value, lib.extensions));
      } else if IsDigit(c) || c == '-' {
        r := ParseNumber();
      } else if Matches("true") {
        pos := pos + 4;
        assert s[4..] == View();
        r := Some(Bool(true));
      } else if Matches("false") {
        pos := pos + 5;
        assert s[5..] == View();
        r := Some(Bool(false));
      } else if Matches("null") {
        pos := pos + 4;
        assert s[4..] == View();
        r := Some(Null);
      } else {
        r := None;
      }
    }

    predicate Matches(word: string)
      requires Valid()
      reads this
      ensures Matches(word) <==> JsonText.StartsWith(View(), word)
    {
      assert |word| <= |text| - pos ==> text[pos..][..|word|] == text[pos..pos + |word|];
      |word| <= |text| - pos && text[pos..pos + |word|] == word
    }

    method ParseArray() returns (r: Option<Value>)
      requires Valid() && pos < |text| && text[pos] == '['
      modifies this`pos
      ensures Valid() && Outcome(JsonText.ParseValue(old(View()), lib), r, View())
      decreases |View()|, 1
    {
      hide SkipSpace, JsonText.ParseValue, JsonText.ParseItems;
      ghost var s := View();
      ArrayText(s, lib);
      pos := pos + 1;
      assert s[1..] == View();
      if pos < |text| && text[pos] == ']' {
        pos := pos + 1;
        assert s[2..] == View();
        return Some(Array([]));
      }
      var items := [];
      while true
        invariant Valid() && |View()| < |s|
        invariant JsonText.ParseItems(View(), lib, items) == JsonText.ParseValue(s, lib)
        decreases |View()|
      {
        ItemsCases(View(), lib, items);
        SkipWhitespace();
        var v := ParseJsonValue();
        if v.None? {
          return None;
        }
        SkipWhitespace();
        if pos >= |text| {
          return None;
        }
        ghost var before, t := items, View();
        items := items + [v.value];
        var c := text[pos];
        if c == ',' {
          pos := pos + 1;
          assert t[1..] == View();
          SkipWhitespace();
        } else if c == ']' {
          pos := pos + 1;
          assert t[1..] == View();
          break;
        } else {
          return None;
        }
      }
      r := Some(Array(items));
    }

    /** A name and a value; the name is read first, then the colon. */
    method GetNextObject() returns (r: Option<Field>)
      requires Valid()
      modifies this`pos
      ensures Valid() && Outcome(JsonText.ParseField(old(View()), lib), r, View())
      decreases |View()|, 3
    {
      hide ReadString, SkipSpace, JsonText.ParseValue;
      SkipWhitespace();
      var name := ParseJsonString();
      if name.None? {
        return None;
      }
      SkipWhitespace();
      if pos >= |text| || text[pos] != ':' {
        return None;
      }
      assert View()[1..] == text[pos + 1..];
      pos := pos + 1;
      SkipWhitespace();
      var value := ParseJsonValue();
      if value.None? {
        return None;
      }
      r := Some(Field(name.value, value.value));
    }

    method ParseObject() returns (r: Option<Value>)
      requires Valid() && pos < |text| && text[pos] == '{'
      modifies this`pos
      ensures Valid() && Outcome(JsonText.ParseValue(old(View()), lib), r, View())
      decreases |View()|, 1
    {
      hide SkipSpace, Put, JsonText.ParseValue, JsonText.ParseField, JsonText.ParseMembers;
      ghost var s := View();
      ObjectText(s, lib);
      pos := pos + 1;
      assert s[1..] == View();
      if pos < |text| && text[pos] == '}' {
        pos := pos + 1;
        assert s[2..] == View();
        return Some(Object([]));
      }
      var fields := [];
      while true
        invariant Valid() && |View()| < |s|
        invariant JsonText.ParseMembers(View(), lib, fields) == JsonText.ParseValue(s, lib)
        decreases |View()|
      {
        MembersCases(View(), lib, fields);
        var p := GetNextObject();
        if p.None? {
          return None;
        }
        SkipWhitespace();
        if pos >= |text| {
          return None;
        }
        ghost var t := View();
        fields := Put(fields, p.value.key, p.value.value);
        var c := text[pos];
        if c == ',' {
          pos := pos + 1;
          assert t[1..] == View();
          SkipWhitespace();
        } else if c == '}' {
          pos := pos + 1;
          assert t[1..] == View();
          break;
        } else {
          return None;
        }
      }
      r := Some(Object(fields));
    }
  }

  lemma ItemsCases(s: string, lib: JsonText.Library, items: seq<Value>)
    ensures var p := JsonText.ParseValue(SkipSpace(s), lib);
            if p.Failed? then JsonText.ParseItems(s, lib, items) == Failed
            else JsonText.ParseItems(s, lib, items) == AfterItem(items + [p.value], SkipSpace(p.rest), lib)
  {
    hide JsonText.ParseValue;
  }

  /** What the character after an item decides. */
  function AfterItem(items: seq<Value>, t: string, lib: JsonText.Library): Parsed<Value> {
    if t == [] then Failed
    else if t[0] == ',' then JsonText.ParseItems(SkipSpace(t[1..]), lib, items)
    else if t[0] == ']' then Parsed(Array(items), t[1..])
    else Failed
  }

  lemma MembersCases(s: string, lib: JsonText.Library, fields: seq<Field>)
    ensures var p := JsonText.ParseField(s, lib);
            if p.Failed? then JsonText.ParseMembers(s, lib, fields) == Failed
            else JsonText.ParseMembers(s, lib, fields)
                 == AfterMember(Put(fields, p.value.key, p.value.value), SkipSpace(p.rest), lib)
  {
    hide JsonText.ParseField, Put;
  }

  function AfterMember(fields: seq<Field>, t: string, lib: JsonText.Library): Parsed<Value> {
    if t == [] then Failed
    else if t[0] == ',' then JsonText.ParseMembers(SkipSpace(t[1..]), lib, fields)
    else if t[0] == '}' then Parsed(Object(fields), t[1..])
    else Failed
  }

  lemma ObjectText(s: string, lib: JsonText.Library)
    requires s != [] && s[0] == '{'
    ensures JsonText.ParseValue(s, lib) ==
      if |s| > 1 && s[1] == '}' then Parsed(Object([]), s[2..]) else JsonText.ParseMembers(s[1..], lib, [])
  {}

  /** A whole document. */
  method FromString(text: string, lib: JsonText.Library) returns (r: Option<Value>)
    ensures r == JsonText.ParseDocument(text, lib)
    ensures r.Some? ==> Ordered(r.value)
  {
    hide JsonText.ParseValue, Ordered;
    JsonText.ParseOrdered(text, lib);
    if text == "" {
      EmptyText(lib);
      return None;
    }
    var parser := new Parser(text, lib);
    r := parser.ParseJsonValue();
  }

  lemma EmptyText(lib: JsonText.Library)
    ensures JsonText.ParseValue("", lib) == Failed
  {}

  lemma ArrayText(s: string, lib: JsonText.Library)
    requires s != [] && s[0] == '['
    ensures JsonText.ParseValue(s, lib) ==
      if |s| > 1 && s[1] == ']' then Parsed(Array([]), s[2..]) else JsonText.ParseItems(s[1..], lib, [])
  {}

  lemma SpanNone(s: string)
    requires s == [] || !IsDigit(s[0])
    ensures DigitSpan(s) == 0
  {}

  lemma SpanSome(s: string)
    requires s != [] && IsDigit(s[0])
    ensures DigitSpan(s) > 0
  {}

  /** A reading method has done what the grammar function says: same value and same rest, or failure. */
  ghost predicate Outcome<T>(p: Parsed<T>, r: Option<T>, left: string) {
    if p.Parsed? then r == Some(p.value) && left == p.rest else r == None
  }

  lemma ReadStep(s: string, extensions: bool, acc: string)
    ensures ReadChars(s, extensions, acc) ==
      if s == [] then Failed
      else if s[0] == '"' then Parsed(acc, s[1..])
      else if s[0] != '\\' then ReadChars(s[1..], extensions, acc + [s[0]])
      else if |s| == 1 then Failed
      else if SimpleEscape(s[1]).Some? then ReadChars(s[2..], extensions, acc + [SimpleEscape(s[1]).value])
      else if s[1] == 'u' then
        if |s| <= 5 || HexNumber(s[2..6]).None? then Failed
        else ReadChars(s[6..], extensions, acc + Utf8(HexNumber(s[2..6]).value % 0x1_0000_0000))
      else if s[1] == 'x' && extensions then
        if |s| <= 3 || HexNumber(s[2..4]).None? then Failed
        else ReadChars(s[4..], extensions, acc + [JsonString.Byte(HexNumber(s[2..4]).value % 0x100)])
      else Failed
  {}
}
