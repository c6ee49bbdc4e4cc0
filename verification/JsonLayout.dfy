/** The layouts of the writer: the compact text, with spaces and line breaks put in between. */
module JsonLayout {
  import opened Characters
  import opened JsonString
  import opened JsonText
  import opened JsonValue

  // ----- laying out a text -----

  /** One step of indentation. */
  function Step(indent: Indent): string {
    match indent
    case NoIndent => ""
    case Space2 => "  "
    case Space4 => "    "
    case Tab => "\t"
  }

  function Margin(indent: Indent, level: nat): string {
    if level == 0 then "" else Step(indent) + Margin(indent, level - 1)
  }

  /** What stands where a line can end. */
  function Break(layout: Layout, level: nat): string {
    if layout.compact then "" else if layout.inline then " " else "\n" + Margin(layout.indent, level)
  }

  predicate Opens(c: char) {
    c == '[' || c == '{'
  }

  predicate Closes(c: char) {
    c == ']' || c == '}'
  }

  /** A text without spaces, laid out from a level on: a line ends behind an opening bracket and a
      comma and before a closing bracket, an empty pair of brackets stays together, and a space
      follows a colon. */
  function Laid(s: string, layout: Layout, level: nat): string
    decreases |s|
  {
    if s == [] then []
    else if s[0] == '"' then ['"'] + LaidString(s[1..], layout, level)
    else if Opens(s[0]) && |s| > 1 && Closes(s[1]) then s[..2] + Laid(s[2..], layout, level)
    else if Opens(s[0]) then [s[0]] + Break(layout, level + 1) + Laid(s[1..], layout, level + 1)
    else if Closes(s[0]) then
      var outer := if level == 0 then 0 else level - 1;
      Break(layout, outer) + [s[0]] + Laid(s[1..], layout, outer)
    else if s[0] == ',' then "," + Break(layout, level) + Laid(s[1..], layout, level)
    else if s[0] == ':' then (if layout.compact then ":" else ": ") + Laid(s[1..], layout, level)
    else [s[0]] + Laid(s[1..], layout, level)
  }

  /** Within a string nothing is put in. */
  function LaidString(s: string, layout: Layout, level: nat): string
    decreases |s|
  {
    if s == [] then []
    else if s[0] == '"' then ['"'] + Laid(s[1..], layout, level)
    else if s[0] == '\\' && |s| > 1 then s[..2] + LaidString(s[2..], layout, level)
    else [s[0]] + LaidString(s[1..], layout, level)
  }

  // ----- the pieces of the written text -----

  function Compact(ascii: bool): Layout {
    Layout(true, false, NoIndent, ascii)
  }

  lemma {:induction false} MarginText(layout: Layout, level: nat)
    ensures Margin(layout.indent, level)
            == match layout.indent
               case NoIndent => ""
               case Space2 => Repeat(' ', 2 * level)
               case Space4 => Repeat(' ', 4 * level)
               case Tab => Repeat('\t', level)
  {
    if level > 0 { MarginText(layout, level - 1); }
  }

  lemma BreakText(layout: Layout, level: nat)
    ensures Break(layout, level) == NewLine(layout) + IndentText(layout, level)
  {
    hide Margin, Repeat;
    MarginText(layout, level);
  }

  predicate Bare(s: string) {
    s != [] && forall i :: 0 <= i < |s| ==> s[i] != '"' && !Opens(s[i]) && !Closes(s[i]) && s[i] != ',' && s[i] != ':'
  }

  /** Literals of numbers have none of the characters that matter to the layout. */
  predicate BareNumbers(v: Value) {
    match v
    case Floating(literal) => Bare(literal)
    case Array(items) => BareItems(items)
    case Object(fields) => BareFields(fields)
    case _ => true
  }

  predicate BareItems(items: seq<Value>) {
    items == [] || (BareNumbers(items[0]) && BareItems(items[1..]))
  }

  predicate BareFields(fields: seq<Field>) {
    fields == [] || (BareNumbers(fields[0].value) && BareFields(fields[1..]))
  }

  lemma {:induction false} BareLaid(s: string, tail: string, layout: Layout, level: nat)
    requires s == [] || Bare(s)
    ensures Laid(s + tail, layout, level) == s + Laid(tail, layout, level)
  {
    hide Break;
    if s == [] {
      assert s + tail == tail;
    } else {
      assert (s + tail)[1..] == s[1..] + tail;
      BareLaid(s[1..], tail, layout, level);
      assert s == [s[0]] + s[1..];
    }
  }

  lemma DecimalBare(n: int)
    ensures Bare(Decimal(n))
  {
    var d := Digits(if n < 0 then -n else n);
    assert forall i :: 0 <= i < |d| ==> IsDigit(d[i]);
    var s := Decimal(n);
    forall i | 0 <= i < |s| ensures s[i] == '-' || IsDigit(s[i]) {}
  }

  /** Characters within a string that are neither a quote nor a backslash. */
  predicate Inner(s: string) {
    forall i :: 0 <= i < |s| ==> s[i] != '"' && s[i] != '\\'
  }

  lemma {:induction false} InnerLaid(s: string, tail: string, layout: Layout, level: nat)
    requires Inner(s)
    ensures LaidString(s + tail, layout, level) == s + LaidString(tail, layout, level)
  {
    if s == [] {
      assert s + tail == tail;
    } else {
      assert (s + tail)[1..] == s[1..] + tail;
      InnerLaid(s[1..], tail, layout, level);
      assert s == [s[0]] + s[1..];
    }
  }

  lemma EscapedLaid(e: char, more: string, tail: string, layout: Layout, level: nat)
    requires Inner(more)
    ensures LaidString(['\\', e] + more + tail, layout, level) == ['\\', e] + more + LaidString(tail, layout, level)
  {
    var s := ['\\', e] + more + tail;
    assert s[2..] == more + tail && s[..2] == ['\\', e];
    InnerLaid(more, tail, layout, level);
    assert ['\\', e] + (more + LaidString(tail, layout, level)) == ['\\', e] + more + LaidString(tail, layout, level);
  }

  lemma HexInner(n: nat)
    requires n < 0x10000
    ensures Inner(Hex4(n))
  {
    DigitInner(n / 4096);
    DigitInner(n / 256 % 16);
    DigitInner(n / 16 % 16);
    DigitInner(n % 16);
  }

  lemma DigitInner(n: nat)
    requires n < 16
    ensures HexDigit(n) != '"' && HexDigit(n) != '\\'
  {}

  lemma CharLaid(c: char, tail: string, layout: Layout, level: nat)
    ensures LaidString(EscapeChar(c) + tail, layout, level) == EscapeChar(c) + LaidString(tail, layout, level)
  {
    hide Hex4, LaidString;
    var e := EscapeChar(c);
    if PlainChar(c, false) {
      InnerLaid([c], tail, layout, level);
    } else if |e| == 2 {
      EscapedLaid(e[1], [], tail, layout, level);
      assert e == ['\\', e[1]] + [];
    } else {
      HexInner(Code(c));
      EscapedLaid('u', Hex4(Code(c)), tail, layout, level);
      assert e == ['\\', 'u'] + Hex4(Code(c));
    }
  }

  lemma CodeLaid(n: nat, tail: string, layout: Layout, level: nat)
    requires n < 0x10000
    ensures LaidString("\\u" + Hex4(n) + tail, layout, level) == "\\u" + Hex4(n) + LaidString(tail, layout, level)
  {
    hide Hex4, LaidString;
    HexInner(n);
    EscapedLaid('u', Hex4(n), tail, layout, level);
    assert ['\\', 'u'] == "\\u";
  }

  lemma SequenceLaid(s: string, tail: string, layout: Layout, level: nat)
    requires |s| > 0
    ensures LaidString(EscapeSequence(s) + tail, layout, level) == EscapeSequence(s) + LaidString(tail, layout, level)
  {
    hide Hex4, LaidString, Decode;
    var cp := Decode(s).0;
    if cp > 0xFFFF {
      var (hi, lo) := (0xD800 + (cp - 0x10000) / 1024, 0xDC00 + (cp - 0x10000) % 1024);
      var second := "\\u" + Hex4(lo);
      CodeLaid(hi, second + tail, layout, level);
      CodeLaid(lo, tail, layout, level);
      assert EscapeSequence(s) + tail == "\\u" + Hex4(hi) + (second + tail);
      assert EscapeSequence(s) + LaidString(tail, layout, level) == "\\u" + Hex4(hi) + (second + LaidString(tail, layout, level));
    } else {
      CodeLaid(if cp >= 0 then cp else Code(s[0]) % 0x100, tail, layout, level);
    }
  }

  lemma {:induction false} EscapeLaid(s: string, ascii: bool, tail: string, layout: Layout, level: nat)
    ensures LaidString(Escape(s, ascii) + tail, layout, level) == Escape(s, ascii) + LaidString(tail, layout, level)
    decreases |s|
  {
    hide EscapeChar, EscapeSequence, Consumed, LaidString;
    if s == [] {
      assert Escape(s, ascii) + tail == tail;
    } else {
      var (first, rest) := if ascii && Code(s[0]) >= 0x80 then (EscapeSequence(s), s[Consumed(s)..]) else (EscapeChar(s[0]), s[1..]);
      var more := Escape(rest, ascii) + tail;
      assert Escape(s, ascii) + tail == first + more;
      if ascii && Code(s[0]) >= 0x80 { SequenceLaid(s, more, layout, level); } else { CharLaid(s[0], more, layout, level); }
      EscapeLaid(rest, ascii, tail, layout, level);
      assert first + (Escape(rest, ascii) + LaidString(tail, layout, level)) == Escape(s, ascii) + LaidString(tail, layout, level);
    }
  }

  lemma QuoteLaid(s: string, ascii: bool, tail: string, layout: Layout, level: nat)
    ensures Laid(Quote(s, ascii) + tail, layout, level) == Quote(s, ascii) + Laid(tail, layout, level)
  {
    hide Escape;
    var q := Quote(s, ascii) + tail;
    assert q[1..] == Escape(s, ascii) + ("\"" + tail);
    EscapeLaid(s, ascii, "\"" + tail, layout, level);
    assert ("\"" + tail)[1..] == tail;
  }

  // ----- values -----

  /** The text of a value in any layout is its compact text, laid out. */
  lemma {:induction false} ValueLaid(v: Value, layout: Layout, level: nat, k: nat, tail: string)
    requires BareNumbers(v)
    ensures Laid(ValueText(v, Compact(layout.ascii), k) + tail, layout, level) == ValueText(v, layout, level) + Laid(tail, layout, level)
    decreases v, 1
  {
    hide Laid, Bare, Quote, Escape, Decimal;
    match v
    case Null => WordsBare(); BareLaid("null", tail, layout, level);
    case Bool(b) => WordsBare(); BareLaid(if b then "true" else "false", tail, layout, level);
    case Integer(n) => DecimalBare(n); BareLaid(Decimal(n), tail, layout, level);
    case Floating(literal) => BareLaid(literal, tail, layout, level);
    case Text(text) => QuoteLaid(Escape(text, layout.ascii), layout.ascii, tail, layout, level);
    case Extended(source) => QuoteLaid(source, layout.ascii, tail, layout, level);
    case Array(items) =>
      if items == [] { EmptyLaid(tail, layout, level); } else { ArrayLaid(items, layout, level, k, tail); }
    case Object(fields) =>
      if fields == [] { EmptyLaid(tail, layout, level); } else { ObjectLaid(fields, layout, level, k, tail); }
  }

  lemma WordsBare()
    ensures Bare("null") && Bare("true") && Bare("false")
  {}

  lemma EmptyLaid(tail: string, layout: Layout, level: nat)
    ensures Laid("[]" + tail, layout, level) == "[]" + Laid(tail, layout, level)
    ensures Laid("{}" + tail, layout, level) == "{}" + Laid(tail, layout, level)
  {
    assert ("[]" + tail)[2..] == tail && ("[]" + tail)[..2] == "[]";
    assert ("{}" + tail)[2..] == tail && ("{}" + tail)[..2] == "{}";
  }

  /** A closing bracket on the level `level + 1`. */
  lemma CloseLaid(c: char, tail: string, layout: Layout, level: nat)
    requires Closes(c)
    ensures Laid([c] + tail, layout, level + 1) == NewLine(layout) + IndentText(layout, level) + [c] + Laid(tail, layout, level)
  {
    hide Break, NewLine, IndentText;
    BreakText(layout, level);
    assert ([c] + tail)[1..] == tail;
  }

  lemma OpenLaid(c: char, s: string, layout: Layout, level: nat)
    requires Opens(c) && s != [] && !Closes(s[0])
    ensures Laid([c] + s, layout, level) == [c] + (NewLine(layout) + IndentText(layout, level + 1)) + Laid(s, layout, level + 1)
  {
    hide Break, NewLine, IndentText;
    BreakText(layout, level + 1);
    assert ([c] + s)[1..] == s;
  }

  lemma CommaLaid(s: string, layout: Layout, level: nat)
    ensures Laid("," + s, layout, level) == "," + (NewLine(layout) + IndentText(layout, level)) + Laid(s, layout, level)
  {
    hide Break, NewLine, IndentText;
    BreakText(layout, level);
    assert ("," + s)[1..] == s;
  }

  lemma ColonLaid(s: string, layout: Layout, level: nat)
    ensures Laid(":" + s, layout, level) == (if layout.compact then ":" else ": ") + Laid(s, layout, level)
  {
    assert (":" + s)[1..] == s;
  }

  lemma ValueBegins(v: Value, layout: Layout, level: nat)
    requires BareNumbers(v)
    ensures var s := ValueText(v, layout, level); s != [] && !Closes(s[0])
  {
    hide Escape;
    if v.Integer? { DecimalBare(v.number); }
  }

  /** The items of the compact text, without the brackets. */
  lemma CompactItems(items: seq<Value>, ascii: bool, k: nat)
    requires items != []
    ensures ItemsText(items, Compact(ascii), k)
            == ValueText(items[0], Compact(ascii), k) + (if |items| == 1 then "" else ",") + ItemsText(items[1..], Compact(ascii), k)
    ensures ValueText(Array(items), Compact(ascii), k) == "[" + ItemsText(items, Compact(ascii), k + 1) + "]"
  {
    hide ValueText;
    var c := Compact(ascii);
    assert IndentText(c, k) == [] && NewLine(c) == [] && IndentText(c, k + 1) == [];
    ArrayText(items, c, k);
  }

  lemma ArrayText(items: seq<Value>, layout: Layout, level: nat)
    requires items != []
    ensures ValueText(Array(items), layout, level)
            == "[" + NewLine(layout) + ItemsText(items, layout, level + 1) + IndentText(layout, level) + "]"
  {}

  lemma Glue(a: string, b: string, c: string, d: string, e: string, f: string, g: string)
    ensures a + (b + c) + (d + (e + (f + g))) == a + b + ((c + d + e + f) + g)
    ensures a + (b + c) + (d + (e + (f + g))) == (a + b + (c + d + e + f)) + g
  {}

  lemma Join(a: string, b: string, c: string, d: string)
    ensures a + (b + (c + d)) == (a + b + c) + d
    ensures a + b + c + d == a + (b + (c + d))
  {}

  /** What closes an array or object. */
  function End(c: char, tail: string, layout: Layout, level: nat): string {
    IndentText(layout, level) + ([c] + Laid(tail, layout, level))
  }

  lemma {:induction false} ItemsLaid(items: seq<Value>, layout: Layout, level: nat, k: nat, tail: string)
    requires items != [] && BareItems(items)
    ensures Laid(ItemsText(items, Compact(layout.ascii), k) + ("]" + tail), layout, level + 1)
            == ValueText(items[0], layout, level + 1)
               + (Separator(|items| == 1, layout) + (ItemsText(items[1..], layout, level + 1) + End(']', tail, layout, level)))
    decreases items, 0
  {
    hide Laid, ValueText, NewLine, IndentText, ItemsText, End;
    var c := Compact(layout.ascii);
    var first := ValueText(items[0], c, k);
    CompactItems(items, layout.ascii, k);
    var end := "]" + tail;
    if |items| == 1 {
      NoItems(items[1..], layout, level + 1);
      NoItems(items[1..], c, k);
      assert ItemsText(items, c, k) + end == first + end;
      ValueLaid(items[0], layout, level + 1, k, end);
      EndLaid(']', tail, layout, level);
    } else {
      var rest := ItemsText(items[1..], c, k) + end;
      Join(first, ",", ItemsText(items[1..], c, k), end);
      assert ItemsText(items, c, k) + end == first + ("," + rest);
      ValueLaid(items[0], layout, level + 1, k, "," + rest);
      CommaLaid(rest, layout, level + 1);
      ItemsLaid(items[1..], layout, level, k, tail);
      FirstItemText(items[1..], layout, level + 1);
      Glue(",", NewLine(layout), IndentText(layout, level + 1), ValueText(items[1], layout, level + 1),
           Separator(|items[1..]| == 1, layout), ItemsText(items[1..][1..], layout, level + 1), End(']', tail, layout, level));
    }
  }

  lemma NoItems(items: seq<Value>, layout: Layout, level: nat)
    requires items == []
    ensures ItemsText(items, layout, level) == []
  {}

  lemma EndLaid(c: char, tail: string, layout: Layout, level: nat)
    requires Closes(c)
    ensures Laid([c] + tail, layout, level + 1) == Separator(true, layout) + ([] + End(c, tail, layout, level))
  {
    hide Laid, NewLine, IndentText;
    CloseLaid(c, tail, layout, level);
    Join(NewLine(layout), IndentText(layout, level), [c], Laid(tail, layout, level));
    assert "" + NewLine(layout) == NewLine(layout);
  }

  lemma ArrayLaid(items: seq<Value>, layout: Layout, level: nat, k: nat, tail: string)
    requires items != [] && BareItems(items)
    ensures Laid(ValueText(Array(items), Compact(layout.ascii), k) + tail, layout, level)
            == ValueText(Array(items), layout, level) + Laid(tail, layout, level)
    decreases items, 1
  {
    hide Laid, NewLine, IndentText, ValueText, ItemsText, Separator;
    var c := Compact(layout.ascii);
    var inside := ItemsText(items, c, k + 1);
    var body := inside + ("]" + tail);
    CompactItems(items, layout.ascii, k);
    CompactItems(items, layout.ascii, k + 1);
    Join("[", inside, "]", tail);
    assert ValueText(Array(items), c, k) + tail == "[" + body;
    ValueBegins(items[0], c, k + 1);
    assert body[0] == ValueText(items[0], c, k + 1)[0];
    OpenLaid('[', body, layout, level);
    ItemsLaid(items, layout, level, k + 1, tail);
    ArrayText(items, layout, level);
    FirstItemText(items, layout, level + 1);
    Whole("[", NewLine(layout), IndentText(layout, level + 1), ValueText(items[0], layout, level + 1),
          Separator(|items| == 1, layout), ItemsText(items[1..], layout, level + 1), IndentText(layout, level), "]", Laid(tail, layout, level));
  }

  lemma Whole(a: string, b: string, c: string, d: string, e: string, f: string, g: string, h: string, i: string)
    ensures a + (b + c) + (d + (e + (f + (g + (h + i))))) == (a + b + (c + d + e + f) + g + h) + i
  {}

  lemma FirstItemText(items: seq<Value>, layout: Layout, level: nat)
    requires items != []
    ensures ItemsText(items, layout, level)
            == IndentText(layout, level) + ValueText(items[0], layout, level) + Separator(|items| == 1, layout)
               + ItemsText(items[1..], layout, level)
  {
    hide ValueText;
  }

  lemma ObjectText(fields: seq<Field>, layout: Layout, level: nat)
    requires fields != []
    ensures ValueText(Object(fields), layout, level)
            == "{" + NewLine(layout) + FieldsText(fields, layout, level + 1) + IndentText(layout, level) + "}"
    ensures FieldsText(fields, layout, level)
            == IndentText(layout, level) + KeyText(fields[0].key, layout) + ValueText(fields[0].value, layout, level)
               + Separator(|fields| == 1, layout) + FieldsText(fields[1..], layout, level)
  {
    hide KeyText;
  }

  function KeyQuote(key: string, ascii: bool): string {
    Quote(Escape(key, ascii), ascii)
  }

  lemma CompactFields(fields: seq<Field>, ascii: bool, k: nat)
    requires fields != []
    ensures FieldsText(fields, Compact(ascii), k)
            == KeyQuote(fields[0].key, ascii) + ":" + ValueText(fields[0].value, Compact(ascii), k)
               + (if |fields| == 1 then "" else ",") + FieldsText(fields[1..], Compact(ascii), k)
    ensures ValueText(Object(fields), Compact(ascii), k) == "{" + FieldsText(fields, Compact(ascii), k + 1) + "}"
  {
    hide ValueText, Quote, Escape;
    var c := Compact(ascii);
    assert IndentText(c, k) == [] && NewLine(c) == [] && IndentText(c, k + 1) == [];
    ObjectText(fields, c, k);
  }

  lemma FieldLaid(f: Field, layout: Layout, level: nat, value: string)
    ensures Laid(KeyQuote(f.key, layout.ascii) + (":" + value), layout, level) == KeyText(f.key, layout) + Laid(value, layout, level)
  {
    hide Laid, Quote, Escape;
    QuoteLaid(Escape(f.key, layout.ascii), layout.ascii, ":" + value, layout, level);
    ColonLaid(value, layout, level);
  }

  lemma {:induction false} FieldsLaid(fields: seq<Field>, layout: Layout, level: nat, k: nat, tail: string)
    requires fields != [] && BareFields(fields)
    ensures Laid(FieldsText(fields, Compact(layout.ascii), k) + ("}" + tail), layout, level + 1)
            == FieldText(fields[0], layout, level + 1)
               + (Separator(|fields| == 1, layout) + (FieldsText(fields[1..], layout, level + 1) + End('}', tail, layout, level)))
    decreases fields, 0
  {
    hide Laid, ValueText, NewLine, IndentText, KeyText, KeyQuote, FieldsText, End;
    var c := Compact(layout.ascii);
    var f := fields[0];
    var (key, first) := (KeyQuote(f.key, layout.ascii), ValueText(f.value, c, k));
    CompactFields(fields, layout.ascii, k);
    var end := "}" + tail;
    if |fields| == 1 {
      NoFields(fields[1..], layout, level + 1);
      NoFields(fields[1..], c, k);
      Join(key, ":", first, end);
      assert FieldsText(fields, c, k) + end == key + (":" + (first + end));
      FieldLaid(f, layout, level + 1, first + end);
      ValueLaid(f.value, layout, level + 1, k, end);
      EndLaid('}', tail, layout, level);
      Pair(KeyText(f.key, layout), ValueText(f.value, layout, level + 1), Laid(end, layout, level + 1));
    } else {
      var rest := FieldsText(fields[1..], c, k) + end;
      CompactRest(key, ":", first, ",", FieldsText(fields[1..], c, k), end);
      assert FieldsText(fields, c, k) + end == key + (":" + (first + ("," + rest)));
      FieldLaid(f, layout, level + 1, first + ("," + rest));
      ValueLaid(f.value, layout, level + 1, k, "," + rest);
      Pair(KeyText(f.key, layout), ValueText(f.value, layout, level + 1), Laid("," + rest, layout, level + 1));
      CommaLaid(rest, layout, level + 1);
      FieldsLaid(fields[1..], layout, level, k, tail);
      FirstFieldText(fields[1..], layout, level + 1);
      Glue(",", NewLine(layout), IndentText(layout, level + 1), FieldText(fields[1], layout, level + 1),
           Separator(|fields[1..]| == 1, layout), FieldsText(fields[1..][1..], layout, level + 1), End('}', tail, layout, level));
    }
  }

  lemma CompactRest(a: string, b: string, c: string, d: string, e: string, f: string)
    ensures a + b + c + d + e + f == a + (b + (c + (d + (e + f))))
  {}

  lemma Pair(a: string, b: string, c: string)
    ensures a + (b + c) == (a + b) + c
  {}

  function FieldText(f: Field, layout: Layout, level: nat): string {
    KeyText(f.key, layout) + ValueText(f.value, layout, level)
  }

  lemma FirstFieldText(fields: seq<Field>, layout: Layout, level: nat)
    requires fields != []
    ensures FieldsText(fields, layout, level)
            == IndentText(layout, level) + FieldText(fields[0], layout, level) + Separator(|fields| == 1, layout)
               + FieldsText(fields[1..], layout, level)
  {
    hide KeyText, ValueText;
    Pair(IndentText(layout, level), KeyText(fields[0].key, layout), ValueText(fields[0].value, layout, level));
  }

  lemma NoFields(fields: seq<Field>, layout: Layout, level: nat)
    requires fields == []
    ensures FieldsText(fields, layout, level) == []
  {}

  lemma ObjectLaid(fields: seq<Field>, layout: Layout, level: nat, k: nat, tail: string)
    requires fields != [] && BareFields(fields)
    ensures Laid(ValueText(Object(fields), Compact(layout.ascii), k) + tail, layout, level)
            == ValueText(Object(fields), layout, level) + Laid(tail, layout, level)
    decreases fields, 1
  {
    hide Laid, NewLine, IndentText, ValueText, KeyQuote, KeyText, FieldsText, FieldText, Separator;
    var c := Compact(layout.ascii);
    var inside := FieldsText(fields, c, k + 1);
    var body := inside + ("}" + tail);
    CompactFields(fields, layout.ascii, k);
    CompactFields(fields, layout.ascii, k + 1);
    Join("{", inside, "}", tail);
    assert ValueText(Object(fields), c, k) + tail == "{" + body;
    KeyBegins(fields[0].key, layout.ascii);
    assert body[0] == KeyQuote(fields[0].key, layout.ascii)[0];
    OpenLaid('{', body, layout, level);
    FieldsLaid(fields, layout, level, k + 1, tail);
    ObjectText(fields, layout, level);
    FirstFieldText(fields, layout, level + 1);
    Whole("{", NewLine(layout), IndentText(layout, level + 1), FieldText(fields[0], layout, level + 1),
          Separator(|fields| == 1, layout), FieldsText(fields[1..], layout, level + 1), IndentText(layout, level), "}", Laid(tail, layout, level));
  }

  lemma KeyBegins(key: string, ascii: bool)
    ensures KeyQuote(key, ascii) != [] && KeyQuote(key, ascii)[0] == '"'
  {}

  /** A document in any layout is the compact one, laid out from the first level. */
  lemma DocumentLaid(v: Value, layout: Layout)
    requires BareNumbers(v)
    ensures ValueText(v, layout, 0) == Laid(ValueText(v, Compact(layout.ascii), 0), layout, 0)
  {
    hide ValueText;
    var c := ValueText(v, Compact(layout.ascii), 0);
    ValueLaid(v, layout, 0, 0, []);
    assert c + [] == c && Laid([], layout, 0) == [];
    assert ValueText(v, layout, 0) + [] == ValueText(v, layout, 0);
  }
}
