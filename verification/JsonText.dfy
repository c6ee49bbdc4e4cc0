/** The text of JSON values in every layout, the grammar the reader follows, and what reading the
    text of a value gives. */
module JsonText {
  import opened Characters
  import opened JsonString
  import opened JsonValue
  import opened Options
  import opened StringOrder

  /** What the reader is built with: whether the extensions are compiled in, and for which literals
      the conversion to a floating number succeeds; it throws on the others. */
  datatype Library = Library(extensions: bool, converts: string -> bool)

  // ----- numbers -----

  /** The digits after a decimal point, at index `at`: where they end, if there are any. */
  function FractionEnd(s: string, at: nat): (r: Option<nat>)
    requires at <= |s|
    ensures r.Some? ==> at <= r.value <= |s|
  {
    if at < |s| && s[at] == '.' then
      if DigitSpan(s[at + 1..]) == 0 then None else Some(at + 1 + DigitSpan(s[at + 1..]))
    else Some(at)
  }

  function ExponentEnd(s: string, at: nat): (r: Option<nat>)
    requires at <= |s|
    ensures r.Some? ==> at <= r.value <= |s|
  {
    if at < |s| && (s[at] == 'e' || s[at] == 'E') then
      var from := if at + 1 < |s| && (s[at + 1] == '+' || s[at + 1] == '-') then at + 2 else at + 1;
      if DigitSpan(s[from..]) == 0 then None else Some(from + DigitSpan(s[from..]))
    else Some(at)
  }

  /** A sign and an integer part, with no leading zeros. */
  function IntegerEnd(s: string): (r: Option<nat>)
    ensures r.Some? ==> 0 < r.value <= |s|
    ensures r.Some? ==> var from := SignLength(s); from < r.value && forall i :: from <= i < r.value ==> IsDigit(s[i])
  {
    var from := SignLength(s);
    if from >= |s| || !IsDigit(s[from]) then None
    else if s[from] == '0' then
      if from + 1 < |s| && IsDigit(s[from + 1]) then None else Some(from + 1)
    else Some(from + DigitSpan(s[from..]))
  }

  function SignLength(s: string): (n: nat)
    ensures n <= |s|
  {
    if s != [] && s[0] == '-' then 1 else 0
  }

  function ParseNumber(s: string, lib: Library): (r: Parsed<Value>)
    ensures r.Parsed? ==> |r.rest| < |s|
  {
    match IntegerEnd(s)
    case None => Failed
    case Some(whole) =>
      match FractionEnd(s, whole)
      case None => Failed
      case Some(fraction) =>
        match ExponentEnd(s, fraction)
        case None => Failed
        case Some(end) =>
          match if end == whole then IntegerOrFloating(s[..end], lib) else FloatingOf(s[..end], lib)
          case None => Failed
          case Some(v) => Parsed(v, s[end..])
  }

  function FloatingOf(literal: string, lib: Library): Option<Value> {
    if lib.converts(literal) then Some(Floating(literal)) else None
  }

  /** An integer beyond 64 bits becomes a floating value. */
  function IntegerOrFloating(literal: string, lib: Library): Option<Value>
    requires forall i :: SignLength(literal) <= i < |literal| ==> IsDigit(literal[i])
  {
    var magnitude: int := DigitsValue(literal[SignLength(literal)..]);
    var n := if SignLength(literal) == 1 then -magnitude else magnitude;
    if -0x8000_0000_0000_0000 <= n < 0x8000_0000_0000_0000 then Some(Integer(n)) else FloatingOf(literal, lib)
  }

  /** Nothing that would continue a number. */
  predicate Ends(rest: string) {
    rest == [] || !(IsDigit(rest[0]) || rest[0] == '.' || rest[0] == 'e' || rest[0] == 'E')
  }

  lemma DecimalEnd(n: int, rest: string)
    requires Ends(rest)
    ensures IntegerEnd(Decimal(n) + rest) == Some(|Decimal(n)|)
  {
    hide Digits, DigitSpan, IntegerEnd;
    var magnitude: nat := if n < 0 then -n else n;
    var d := Digits(magnitude);
    DigitZero(magnitude);
    if n < 0 {
      assert Decimal(n) == "-" + d;
      SignedEnd("-", d, rest);
    } else {
      assert Decimal(n) == "" + d;
      SignedEnd("", d, rest);
    }
  }

  lemma SignedEnd(sign: string, d: string, rest: string)
    requires Ends(rest) && (sign == "" || sign == "-")
    requires d != [] && (forall i :: 0 <= i < |d| ==> IsDigit(d[i])) && (d[0] == '0' ==> d == "0")
    ensures IntegerEnd(sign + d + rest) == Some(|sign + d|)
  {
    hide DigitSpan;
    var s := sign + d + rest;
    SpanWhole(d, rest);
    assert s[|sign|] == d[0] && (|d| == 1 && rest != [] ==> s[|sign| + 1] == rest[0]);
    assert s[|sign|..] == d + rest;
  }

  lemma ParseDecimal(n: int64, rest: string, lib: Library)
    requires Ends(rest)
    ensures ParseNumber(Decimal(n) + rest, lib) == Parsed(Integer(n), rest)
  {
    hide Digits, DigitsValue, IntegerEnd;
    var s := Decimal(n) + rest;
    var d := Decimal(n);
    DecimalEnd(n, rest);
    assert s[|d|..] == rest && s[..|d|] == d;
    DigitsRead(if n < 0 then -(n as int) else n);
    assert d[SignLength(d)..] == Digits(if n < 0 then -(n as int) else n);
  }

  // ----- layouts -----

  datatype Indent = NoIndent | Space2 | Space4 | Tab

  /** The options of the writer; `ascii` escapes the characters from 0x80 on. */
  datatype Layout = Layout(compact: bool, inline: bool, indent: Indent, ascii: bool)

  function Repeat(c: char, n: nat): (s: string)
    ensures |s| == n && forall i :: 0 <= i < n ==> s[i] == c
  {
    seq(n, i => c)
  }

  function IndentText(layout: Layout, level: nat): (s: string)
    ensures Spaces(s)
  {
    if layout.compact || layout.inline then []
    else
      match layout.indent
      case NoIndent => []
      case Space2 => Repeat(' ', 2 * level)
      case Space4 => Repeat(' ', 4 * level)
      case Tab => Repeat('\t', level)
  }

  function NewLine(layout: Layout): (s: string)
    ensures Spaces(s)
  {
    if layout.compact then [] else if layout.inline then " " else "\n"
  }

  // ----- writing -----

  function ValueText(v: Value, layout: Layout, level: nat): string
    decreases v
  {
    match v
    case Null => "null"
    case Bool(b) => if b then "true" else "false"
    case Integer(n) => Decimal(n)
    case Floating(literal) => literal
    case Text(text) => Quote(Escape(text, layout.ascii), layout.ascii)
    case Extended(source) => Quote(source, layout.ascii)
    case Array(items) =>
      if items == [] then "[]"
      else "[" + NewLine(layout) + ItemsText(items, layout, level + 1) + IndentText(layout, level) + "]"
    case Object(fields) =>
      if fields == [] then "{}"
      else "{" + NewLine(layout) + FieldsText(fields, layout, level + 1) + IndentText(layout, level) + "}"
  }

  function Separator(last: bool, layout: Layout): string {
    (if last then "" else ",") + NewLine(layout)
  }

  function ItemsText(items: seq<Value>, layout: Layout, level: nat): string
    decreases items
  {
    if items == [] then []
    else IndentText(layout, level) + ValueText(items[0], layout, level) + Separator(|items| == 1, layout)
         + ItemsText(items[1..], layout, level)
  }

  function KeyText(key: string, layout: Layout): string {
    Quote(Escape(key, layout.ascii), layout.ascii) + (if layout.compact then ":" else ": ")
  }

  function FieldsText(fields: seq<Field>, layout: Layout, level: nat): string
    decreases fields
  {
    if fields == [] then []
    else IndentText(layout, level) + KeyText(fields[0].key, layout) + ValueText(fields[0].value, layout, level)
         + Separator(|fields| == 1, layout) + FieldsText(fields[1..], layout, level)
  }

  // ----- reading -----

  predicate StartsWith(s: string, prefix: string) {
    |prefix| <= |s| && s[..|prefix|] == prefix
  }

  /** What becomes of a string that was read as a value. */
  function StringValue(text: string, extensions: bool): Value {
    if extensions && (StartsWith(text, "data:") || StartsWith(text, "base64:")) then Extended(text) else Text(text)
  }

  function ParseValue(s: string, lib: Library): (r: Parsed<Value>)
    ensures r.Parsed? ==> |r.rest| < |s|
    decreases |s|, 1
  {
    if s == [] then Failed
    else if s[0] == '{' then
      if |s| > 1 && s[1] == '}' then Parsed(Object([]), s[2..]) else ParseMembers(s[1..], lib, [])
    else if s[0] == '[' then
      if |s| > 1 && s[1] == ']' then Parsed(Array([]), s[2..]) else ParseItems(s[1..], lib, [])
    else if s[0] == '"' then
      match ReadString(s, lib.extensions)
      case Failed => Failed
      case Parsed(text, rest) => Parsed(StringValue(text, lib.extensions), rest)
    else if IsDigit(s[0]) || s[0] == '-' then ParseNumber(s, lib)
    else if StartsWith(s, "true") then Parsed(Bool(true), s[4..])
    else if StartsWith(s, "false") then Parsed(Bool(false), s[5..])
    else if StartsWith(s, "null") then Parsed(Null, s[4..])
    else Failed
  }

  /** The rest of an array, with the items read so far. */
  function ParseItems(s: string, lib: Library, items: seq<Value>): (r: Parsed<Value>)
    ensures r.Parsed? ==> |r.rest| < |s|
    decreases |s|, 2
  {
    match ParseValue(SkipSpace(s), lib)
    case Failed => Failed
    case Parsed(value, rest) =>
      var t := SkipSpace(rest);
      if t == [] then Failed
      else if t[0] == ',' then ParseItems(SkipSpace(t[1..]), lib, items + [value])
      else if t[0] == ']' then Parsed(Array(items + [value]), t[1..])
      else Failed
  }

  /** A name, a colon and a value. */
  function ParseField(s: string, lib: Library): (r: Parsed<Field>)
    ensures r.Parsed? ==> |r.rest| < |s|
    decreases |s|, 2
  {
    match ReadString(SkipSpace(s), lib.extensions)
    case Failed => Failed
    case Parsed(name, rest) =>
      var t := SkipSpace(rest);
      if t == [] || t[0] != ':' then Failed
      else
        match ParseValue(SkipSpace(t[1..]), lib)
        case Failed => Failed
        case Parsed(value, left) => Parsed(Field(name, value), left)
  }

  /** The rest of an object, with the fields read so far; the first of several equal names wins. */
  function ParseMembers(s: string, lib: Library, fields: seq<Field>): (r: Parsed<Value>)
    ensures r.Parsed? ==> |r.rest| < |s|
    decreases |s|, 3
  {
    match ParseField(s, lib)
    case Failed => Failed
    case Parsed(field, rest) =>
      var t := SkipSpace(rest);
      var more := Put(fields, field.key, field.value);
      if t == [] then Failed
      else if t[0] == ',' then ParseMembers(SkipSpace(t[1..]), lib, more)
      else if t[0] == '}' then Parsed(Object(more), t[1..])
      else Failed
  }

  /** A document is a value at the very start; what follows it is not looked at. */
  function ParseDocument(s: string, lib: Library): Option<Value> {
    match ParseValue(s, lib)
    case Failed => None
    case Parsed(value, _) => Some(value)
  }

  // ----- what reading the text of a value gives -----

  /** The value with every string and key escaped once. */
  function Rewritten(v: Value, ascii: bool, extensions: bool): Value
    decreases v
  {
    match v
    case Text(text) => StringValue(Escape(text, ascii), extensions)
    case Array(items) => Array(RewrittenItems(items, ascii, extensions, []))
    case Object(fields) => Object(RewrittenFields(fields, ascii, extensions, []))
    case _ => v
  }

  function RewrittenItems(items: seq<Value>, ascii: bool, extensions: bool, done: seq<Value>): seq<Value>
    decreases items
  {
    if items == [] then done
    else RewrittenItems(items[1..], ascii, extensions, done + [Rewritten(items[0], ascii, extensions)])
  }

  function RewrittenFields(fields: seq<Field>, ascii: bool, extensions: bool, done: seq<Field>): seq<Field>
    decreases fields
  {
    if fields == [] then done
    else RewrittenFields(fields[1..], ascii, extensions,
                         Put(done, Escape(fields[0].key, ascii), Rewritten(fields[0].value, ascii, extensions)))
  }

  /** How the text of a value can begin. */
  predicate Starts(s: string) {
    s != [] && !IsSpace(s[0]) && s[0] != ']' && s[0] != '}'
  }

  lemma ValueStarts(v: Value, layout: Layout, level: nat)
    requires Exact(v)
    ensures Starts(ValueText(v, layout, level))
  {
    if v.Integer? { DecimalStarts(v.number); }
  }

  lemma DecimalStarts(n: int)
    ensures Decimal(n)[0] == '-' || IsDigit(Decimal(n)[0])
  {}

  lemma AfterSpaces(w: string, t: string)
    requires Spaces(w) && Starts(t)
    ensures w + t != [] && (w + t)[0] != ']' && (w + t)[0] != '}'
  {
    if w != [] { assert (w + t)[0] == w[0]; }
  }

  lemma SpacesEnd(w: string, c: char, rest: string)
    requires Spaces(w) && (c == ']' || c == '}' || c == ',')
    ensures Ends(w + ([c] + rest))
  {
    var t := w + ([c] + rest);
    if w == [] { assert t[0] == c; } else { assert t[0] == w[0] && IsSpace(t[0]); }
  }

  lemma Regroup(lead: string, i: string, t: string, sep: string, more: string, end: string)
    ensures lead + (i + t + sep + more + end) == lead + i + (t + (sep + (more + end)))
  {}

  lemma Regroup2(lead: string, i: string, k: string, t: string, sep: string, more: string, end: string)
    ensures lead + (i + k + t + sep + more + end) == lead + i + (k + (t + (sep + (more + end))))
  {}

  /** The reader takes the text of a value, in any layout, as the value escaped once. */
  lemma {:induction false} ReadValue(v: Value, layout: Layout, level: nat, lib: Library, rest: string)
    requires Exact(v) && Ends(rest)
    ensures ParseValue(ValueText(v, layout, level) + rest, lib) == Parsed(Rewritten(v, layout.ascii, lib.extensions), rest)
    decreases v, 1
  {
    match v
    case Array(items) =>
      if items == [] { ReadEmpty(rest, lib); } else { ReadArray(items, layout, level, lib, rest); }
    case Object(fields) =>
      if fields == [] { ReadEmpty(rest, lib); } else { ReadObject(fields, layout, level, lib, rest); }
    case _ => ReadScalar(v, layout, level, lib, rest);
  }

  lemma ReadEmpty(rest: string, lib: Library)
    ensures ParseValue("[]" + rest, lib) == Parsed(Array([]), rest)
    ensures ParseValue("{}" + rest, lib) == Parsed(Object([]), rest)
  {
    assert ("[]" + rest)[2..] == rest && ("{}" + rest)[2..] == rest;
  }

  lemma ReadScalar(v: Value, layout: Layout, level: nat, lib: Library, rest: string)
    requires Exact(v) && Ends(rest) && !v.Array? && !v.Object?
    ensures ParseValue(ValueText(v, layout, level) + rest, lib) == Parsed(Rewritten(v, layout.ascii, lib.extensions), rest)
  {
    hide Quote, Escape, ReadString, ParseNumber, Decimal, StringValue;
    var t := ValueText(v, layout, level) + rest;
    match v
    case Null => assert t[..4] == "null" && t[4..] == rest;
    case Bool(b) => if b { assert t[..4] == "true" && t[4..] == rest; } else { assert t[..5] == "false" && t[5..] == rest; }
    case Integer(n) => ParseDecimal(n, rest, lib); DecimalStarts(n); assert t[0] == Decimal(n)[0];
    case Text(text) => ReadQuoted(text, layout.ascii, lib.extensions, rest); QuoteStarts(Escape(text, layout.ascii), layout.ascii);
  }

  lemma QuoteStarts(s: string, ascii: bool)
    ensures |Quote(s, ascii)| > 0 && Quote(s, ascii)[0] == '"'
  {}

  lemma {:induction false} ReadArray(items: seq<Value>, layout: Layout, level: nat, lib: Library, rest: string)
    requires items != [] && ExactItems(items)
    ensures var v := Array(items);
            ParseValue(ValueText(v, layout, level) + rest, lib) == Parsed(Rewritten(v, layout.ascii, lib.extensions), rest)
    decreases items, 1
  {
    hide ItemsText, ParseItems;
    var (lead, w) := (NewLine(layout), IndentText(layout, level));
    var body := ItemsText(items, layout, level + 1) + (w + ("]" + rest));
    var t := ValueText(Array(items), layout, level) + rest;
    assert t[0] == '[' && t[1..] == lead + body;
    ItemsStart(items, layout, level + 1, lead, w + ("]" + rest));
    ReadItems(items, layout, level + 1, lib, lead, w, rest, []);
  }

  lemma ItemsStart(items: seq<Value>, layout: Layout, level: nat, lead: string, after: string)
    requires items != [] && Exact(items[0]) && Spaces(lead)
    ensures var t := lead + (ItemsText(items, layout, level) + after); t != [] && t[0] != ']'
  {
    hide ValueText, Separator;
    var text := ValueText(items[0], layout, level);
    var sep := Separator(|items| == 1, layout);
    var rest := sep + (ItemsText(items[1..], layout, level) + after);
    ValueStarts(items[0], layout, level);
    JoinSpaces(lead, IndentText(layout, level));
    AfterSpaces(lead + IndentText(layout, level), text + rest);
    Regroup(lead, IndentText(layout, level), text, sep, ItemsText(items[1..], layout, level), after);
  }

  lemma {:induction false} ReadItems(items: seq<Value>, layout: Layout, level: nat, lib: Library,
                                     lead: string, w: string, rest: string, done: seq<Value>)
    requires items != [] && ExactItems(items) && Spaces(lead) && Spaces(w)
    ensures ParseItems(lead + (ItemsText(items, layout, level) + (w + ("]" + rest))), lib, done)
            == Parsed(Array(RewrittenItems(items, layout.ascii, lib.extensions, done)), rest)
    decreases items, 0
  {
    hide ValueText, ParseValue, ParseItems, Rewritten, Separator, SkipSpace, Ends;
    var text := ValueText(items[0], layout, level);
    var value := Rewritten(items[0], layout.ascii, lib.extensions);
    var end := w + ("]" + rest);
    var last := |items| == 1;
    var after := Separator(last, layout) + (ItemsText(items[1..], layout, level) + end);
    var s := lead + (ItemsText(items, layout, level) + end);
    Regroup(lead, IndentText(layout, level), text, Separator(last, layout), ItemsText(items[1..], layout, level), end);
    ValueStarts(items[0], layout, level);
    JoinSpaces(lead, IndentText(layout, level));
    SkipTo(lead + IndentText(layout, level), text + after);
    AfterEntry(last, ItemsText(items[1..], layout, level), layout, w, "]", rest);
    ReadValue(items[0], layout, level, lib, after);
    ParseItemsStep(s, text + after, after, value, lib, done);
    if last {
      RewrittenLast(items, layout.ascii, lib.extensions, done);
    } else {
      ReadItems(items[1..], layout, level, lib, NewLine(layout), w, rest, done + [value]);
      ParseItemsSkips(after[1..], lib, done + [value]);
    }
  }

  lemma ParseItemsStep(s: string, t: string, after: string, value: Value, lib: Library, done: seq<Value>)
    requires SkipSpace(s) == t && ParseValue(t, lib) == Parsed(value, after)
    ensures var u := SkipSpace(after);
            u != [] && u[0] == ',' ==> ParseItems(s, lib, done) == ParseItems(SkipSpace(u[1..]), lib, done + [value])
    ensures var u := SkipSpace(after);
            u != [] && u[0] == ']' ==> ParseItems(s, lib, done) == Parsed(Array(done + [value]), u[1..])
  {
    hide ParseValue;
  }

  lemma RewrittenLast(items: seq<Value>, ascii: bool, extensions: bool, done: seq<Value>)
    requires |items| == 1
    ensures RewrittenItems(items, ascii, extensions, done) == done + [Rewritten(items[0], ascii, extensions)]
  {
    hide Rewritten;
    assert items[1..] == [];
  }

  lemma ParseItemsSkips(s: string, lib: Library, done: seq<Value>)
    ensures ParseItems(SkipSpace(s), lib, done) == ParseItems(s, lib, done)
  {
    SkipTwice(s);
  }

  /** What follows an entry: a comma and the other entries, or after the last one the closing bracket. */
  lemma AfterEntry(last: bool, more: string, layout: Layout, w: string, close: string, rest: string)
    requires (last ==> more == []) && Spaces(w) && (close == "]" || close == "}")
    ensures var after := Separator(last, layout) + (more + (w + (close + rest)));
            Ends(after) && after != []
            && (if last then SkipSpace(after) == close + rest
                else SkipSpace(after) == after && after[0] == ',' && after[1..] == NewLine(layout) + (more + (w + (close + rest))))
  {
    hide NewLine;
    var n := NewLine(layout);
    var end := w + (close + rest);
    var after := Separator(last, layout) + (more + end);
    if last {
      JoinSpaces(n, w);
      assert more + end == end;
      assert after == n + w + (close + rest);
      SkipTo(n + w, close + rest);
      SpacesEnd(n + w, close[0], rest);
      assert close == [close[0]];
    } else {
      assert after == [','] + (n + (more + end));
      SkipNone(after);
    }
  }

  lemma {:induction false} ReadObject(fields: seq<Field>, layout: Layout, level: nat, lib: Library, rest: string)
    requires fields != [] && ExactFields(fields)
    ensures var v := Object(fields);
            ParseValue(ValueText(v, layout, level) + rest, lib) == Parsed(Rewritten(v, layout.ascii, lib.extensions), rest)
    decreases fields, 1
  {
    hide FieldsText, ParseMembers;
    var (lead, w) := (NewLine(layout), IndentText(layout, level));
    var body := FieldsText(fields, layout, level + 1) + (w + ("}" + rest));
    var t := ValueText(Object(fields), layout, level) + rest;
    assert t[0] == '{' && t[1..] == lead + body;
    FieldsStart(fields, layout, level + 1, lead, w + ("}" + rest));
    ReadMembers(fields, layout, level + 1, lib, lead, w, rest, []);
  }

  lemma FieldsStart(fields: seq<Field>, layout: Layout, level: nat, lead: string, after: string)
    requires fields != [] && Spaces(lead)
    ensures var t := lead + (FieldsText(fields, layout, level) + after); t != [] && t[0] != '}'
  {
    hide ValueText, Quote, Separator, Escape;
    var key := KeyText(fields[0].key, layout);
    var text := ValueText(fields[0].value, layout, level);
    var sep := Separator(|fields| == 1, layout);
    var rest := text + (sep + (FieldsText(fields[1..], layout, level) + after));
    QuoteStarts(Escape(fields[0].key, layout.ascii), layout.ascii);
    JoinSpaces(lead, IndentText(layout, level));
    AfterSpaces(lead + IndentText(layout, level), key + rest);
    Regroup2(lead, IndentText(layout, level), key, text, sep, FieldsText(fields[1..], layout, level), after);
  }

  /** One field: its name, the colon, and the value. */
  lemma {:induction false} ReadField(field: Field, layout: Layout, level: nat, lib: Library, w: string, after: string)
    requires Exact(field.value) && Spaces(w) && Ends(after)
    ensures ParseField(w + (KeyText(field.key, layout) + (ValueText(field.value, layout, level) + after)), lib)
            == Parsed(Field(Escape(field.key, layout.ascii), Rewritten(field.value, layout.ascii, lib.extensions)), after)
    decreases field, 0
  {
    hide ValueText, ParseValue, Rewritten, Quote, ReadString;
    var quoted := Quote(Escape(field.key, layout.ascii), layout.ascii);
    var text := ValueText(field.value, layout, level);
    var gap := if layout.compact then [] else " ";
    var rest := ":" + (gap + (text + after));
    assert KeyText(field.key, layout) + (text + after) == quoted + rest;
    QuoteStarts(Escape(field.key, layout.ascii), layout.ascii);
    SkipTo(w, quoted + rest);
    ReadQuoted(field.key, layout.ascii, lib.extensions, rest);
    SkipNone(rest);
    assert rest[1..] == gap + (text + after);
    ValueStarts(field.value, layout, level);
    SkipTo(gap, text + after);
    ReadValue(field.value, layout, level, lib, after);
  }

  lemma {:induction false} ReadMembers(fields: seq<Field>, layout: Layout, level: nat, lib: Library,
                                       lead: string, w: string, rest: string, done: seq<Field>)
    requires fields != [] && ExactFields(fields) && Spaces(lead) && Spaces(w)
    ensures ParseMembers(lead + (FieldsText(fields, layout, level) + (w + ("}" + rest))), lib, done)
            == Parsed(Object(RewrittenFields(fields, layout.ascii, lib.extensions, done)), rest)
    decreases fields, 0
  {
    hide ValueText, ParseField, ParseMembers, Rewritten, KeyText, Put, Separator, SkipSpace, Ends, Escape;
    var text := ValueText(fields[0].value, layout, level);
    var key := KeyText(fields[0].key, layout);
    var more := Put(done, Escape(fields[0].key, layout.ascii), Rewritten(fields[0].value, layout.ascii, lib.extensions));
    var end := w + ("}" + rest);
    var last := |fields| == 1;
    var after := Separator(last, layout) + (FieldsText(fields[1..], layout, level) + end);
    var s := lead + (FieldsText(fields, layout, level) + end);
    Regroup2(lead, IndentText(layout, level), key, text, Separator(last, layout), FieldsText(fields[1..], layout, level), end);
    JoinSpaces(lead, IndentText(layout, level));
    AfterEntry(last, FieldsText(fields[1..], layout, level), layout, w, "}", rest);
    ReadField(fields[0], layout, level, lib, lead + IndentText(layout, level), after);
    ParseMembersStep(s, after, Field(Escape(fields[0].key, layout.ascii), Rewritten(fields[0].value, layout.ascii, lib.extensions)), lib, done);
    if last {
      RewrittenLastField(fields, layout.ascii, lib.extensions, done);
    } else {
      ReadMembers(fields[1..], layout, level, lib, NewLine(layout), w, rest, more);
      ParseMembersSkips(after[1..], lib, more);
    }
  }

  lemma ParseMembersStep(s: string, after: string, field: Field, lib: Library, done: seq<Field>)
    requires ParseField(s, lib) == Parsed(field, after)
    ensures var u := SkipSpace(after); var more := Put(done, field.key, field.value);
            u != [] && u[0] == ',' ==> ParseMembers(s, lib, done) == ParseMembers(SkipSpace(u[1..]), lib, more)
    ensures var u := SkipSpace(after); var more := Put(done, field.key, field.value);
            u != [] && u[0] == '}' ==> ParseMembers(s, lib, done) == Parsed(Object(more), u[1..])
  {
    hide ParseField, Put;
  }

  lemma RewrittenLastField(fields: seq<Field>, ascii: bool, extensions: bool, done: seq<Field>)
    requires |fields| == 1
    ensures RewrittenFields(fields, ascii, extensions, done)
            == Put(done, Escape(fields[0].key, ascii), Rewritten(fields[0].value, ascii, extensions))
  {
    hide Rewritten, Put;
    assert fields[1..] == [];
  }

  lemma ParseMembersSkips(s: string, lib: Library, done: seq<Field>)
    ensures ParseMembers(SkipSpace(s), lib, done) == ParseMembers(s, lib, done)
  {
    SkipTwice(s);
  }

  // ----- when the value comes back -----

  predicate FaithfulString(s: string, ascii: bool, extensions: bool) {
    Plain(s, ascii) && (extensions ==> !StartsWith(s, "data:") && !StartsWith(s, "base64:"))
  }

  /** No string and no key needs escaping, and no string is one that an extension converts. */
  predicate Faithful(v: Value, ascii: bool, extensions: bool) {
    match v
    case Text(text) => FaithfulString(text, ascii, extensions)
    case Array(items) => FaithfulItems(items, ascii, extensions)
    case Object(fields) => FaithfulFields(fields, ascii, extensions)
    case _ => true
  }

  predicate FaithfulItems(items: seq<Value>, ascii: bool, extensions: bool) {
    items == [] || (Faithful(items[0], ascii, extensions) && FaithfulItems(items[1..], ascii, extensions))
  }

  predicate FaithfulFields(fields: seq<Field>, ascii: bool, extensions: bool) {
    fields == []
    || (Plain(fields[0].key, ascii) && Faithful(fields[0].value, ascii, extensions)
        && FaithfulFields(fields[1..], ascii, extensions))
  }

  lemma RewrittenText(text: string, ascii: bool, extensions: bool)
    ensures StringValue(Escape(text, ascii), extensions) == Text(text) <==> FaithfulString(text, ascii, extensions)
  {
    hide Escape, Plain;
    EscapeLengthens(text, ascii);
  }

  lemma {:induction false} RewrittenSame(v: Value, ascii: bool, extensions: bool)
    requires Exact(v) && Ordered(v)
    ensures Rewritten(v, ascii, extensions) == v <==> Faithful(v, ascii, extensions)
    decreases v, 1
  {
    match v
    case Text(text) => RewrittenText(text, ascii, extensions);
    case Array(items) => RewrittenItemsSame(items, ascii, extensions, []); assert [] + items == items;
    case Object(fields) =>
      RewrittenFieldsSame(fields, ascii, extensions, []);
      assert [] + fields == fields;
    case _ =>
  }

  lemma {:induction false} RewrittenItemsLength(items: seq<Value>, ascii: bool, extensions: bool, done: seq<Value>)
    ensures |RewrittenItems(items, ascii, extensions, done)| == |done| + |items|
    ensures done <= RewrittenItems(items, ascii, extensions, done)
    decreases items
  {
    if items != [] {
      RewrittenItemsLength(items[1..], ascii, extensions, done + [Rewritten(items[0], ascii, extensions)]);
    }
  }

  lemma {:induction false} RewrittenItemsSame(items: seq<Value>, ascii: bool, extensions: bool, done: seq<Value>)
    requires ExactItems(items) && OrderedItems(items)
    ensures RewrittenItems(items, ascii, extensions, done) == done + items <==> FaithfulItems(items, ascii, extensions)
    decreases items, 0
  {
    hide Rewritten, Faithful, Exact, Ordered;
    if items == [] {
      assert done + items == done;
    } else {
      var more := done + [Rewritten(items[0], ascii, extensions)];
      var r := RewrittenItems(items, ascii, extensions, done);
      RewrittenSame(items[0], ascii, extensions);
      RewrittenItemsSame(items[1..], ascii, extensions, more);
      RewrittenItemsLength(items[1..], ascii, extensions, more);
      assert more[|done|] == Rewritten(items[0], ascii, extensions) == r[|done|];
      assert (done + items)[|done|] == items[0];
      if Rewritten(items[0], ascii, extensions) == items[0] {
        assert more + items[1..] == done + items;
      }
    }
  }

  /** The characters in the keys after escaping, and one for every field. */
  function EscapedWeight(fields: seq<Field>, ascii: bool): nat {
    if fields == [] then 0 else |Escape(fields[0].key, ascii)| + 1 + EscapedWeight(fields[1..], ascii)
  }

  predicate PlainKeys(fields: seq<Field>, ascii: bool) {
    fields == [] || (Plain(fields[0].key, ascii) && PlainKeys(fields[1..], ascii))
  }

  lemma {:induction false} EscapedWeightGrows(fields: seq<Field>, ascii: bool)
    ensures EscapedWeight(fields, ascii) >= Weight(fields)
    ensures PlainKeys(fields, ascii) <==> EscapedWeight(fields, ascii) == Weight(fields)
  {
    hide Escape, Plain;
    if fields != [] {
      EscapeLengthens(fields[0].key, ascii);
      EscapedWeightGrows(fields[1..], ascii);
    }
  }

  /** If no field is dropped, none of the characters is. */
  lemma {:induction false} RewrittenWeight(fields: seq<Field>, ascii: bool, extensions: bool, done: seq<Field>)
    ensures var r := RewrittenFields(fields, ascii, extensions, done);
            |r| <= |done| + |fields|
            && (|r| == |done| + |fields| ==> Weight(r) == Weight(done) + EscapedWeight(fields, ascii))
    decreases fields
  {
    hide Rewritten, Escape, Put;
    if fields != [] {
      var (k, v) := (Escape(fields[0].key, ascii), Rewritten(fields[0].value, ascii, extensions));
      PutWeight(done, k, v);
      RewrittenWeight(fields[1..], ascii, extensions, Put(done, k, v));
    }
  }

  /** Plain keys in order keep their places. */
  lemma {:induction false} RewrittenInOrder(fields: seq<Field>, ascii: bool, extensions: bool, done: seq<Field>)
    requires KeysSorted(done + fields) && PlainKeys(fields, ascii) && ExactFields(fields) && OrderedFields(fields)
    ensures RewrittenFields(fields, ascii, extensions, done) == done + fields <==> FaithfulFields(fields, ascii, extensions)
    ensures |RewrittenFields(fields, ascii, extensions, done)| == |done| + |fields|
    ensures done <= RewrittenFields(fields, ascii, extensions, done)
    decreases fields, 0
  {
    hide Rewritten, Faithful, Exact, Ordered, Escape, Plain, Put, KeysSorted;
    if fields == [] {
      assert done + fields == done;
    } else {
      var f := fields[0];
      var v := Rewritten(f.value, ascii, extensions);
      var more := done + [Field(f.key, v)];
      var r := RewrittenFields(fields, ascii, extensions, done);
      EscapeLengthens(f.key, ascii);
      PutsLast(done, fields, v);
      assert r == RewrittenFields(fields[1..], ascii, extensions, more);
      RewrittenSame(f.value, ascii, extensions);
      SameKeysSorted(done, fields, v);
      RewrittenInOrder(fields[1..], ascii, extensions, more);
      assert more[|done|] == Field(f.key, v) == r[|done|];
      assert (done + fields)[|done|] == f;
      if v == f.value {
        assert more + fields[1..] == done + fields;
      }
    }
  }

  lemma PutsLast(done: seq<Field>, fields: seq<Field>, v: Value)
    requires fields != [] && KeysSorted(done + fields)
    ensures Put(done, fields[0].key, v) == done + [Field(fields[0].key, v)]
  {
    forall i | 0 <= i < |done| ensures Less(done[i].key, fields[0].key) {
      assert (done + fields)[i] == done[i] && (done + fields)[|done|] == fields[0];
    }
    PutLast(done, fields[0].key, v);
  }

  lemma SameKeysSorted(done: seq<Field>, fields: seq<Field>, v: Value)
    requires fields != [] && KeysSorted(done + fields)
    ensures KeysSorted(done + [Field(fields[0].key, v)] + fields[1..])
  {
    var (s, t) := (done + fields, done + [Field(fields[0].key, v)] + fields[1..]);
    assert |s| == |t| && forall i :: 0 <= i < |s| ==> s[i].key == t[i].key;
  }

  lemma {:induction false} FaithfulPlain(fields: seq<Field>, ascii: bool, extensions: bool)
    requires FaithfulFields(fields, ascii, extensions)
    ensures PlainKeys(fields, ascii)
  {
    if fields != [] { FaithfulPlain(fields[1..], ascii, extensions); }
  }

  lemma {:induction false} RewrittenFieldsSame(fields: seq<Field>, ascii: bool, extensions: bool, none: seq<Field>)
    requires ExactFields(fields) && OrderedFields(fields) && KeysSorted(fields) && none == []
    ensures RewrittenFields(fields, ascii, extensions, none) == fields <==> FaithfulFields(fields, ascii, extensions)
    decreases fields, 1
  {
    hide RewrittenFields, FaithfulFields, PlainKeys;
    assert none + fields == fields;
    RewrittenWeight(fields, ascii, extensions, none);
    EscapedWeightGrows(fields, ascii);
    if FaithfulFields(fields, ascii, extensions) { FaithfulPlain(fields, ascii, extensions); }
    if PlainKeys(fields, ascii) { RewrittenInOrder(fields, ascii, extensions, none); }
  }

  /** Reading the text of a value, in every layout, gives the value with each string and key
      escaped once; that is the value itself exactly when nothing in it needs escaping. */
  lemma RoundTrip(v: Value, layout: Layout, lib: Library)
    requires Exact(v)
    ensures ParseDocument(ValueText(v, layout, 0), lib) == Some(Rewritten(v, layout.ascii, lib.extensions))
    ensures Ordered(v) ==>
              (ParseDocument(ValueText(v, layout, 0), lib) == Some(v) <==> Faithful(v, layout.ascii, lib.extensions))
  {
    hide ValueText, ParseValue, Rewritten, Exact, Ordered, Faithful;
    ReadValue(v, layout, 0, lib, []);
    assert ValueText(v, layout, 0) + [] == ValueText(v, layout, 0);
    if Ordered(v) { RewrittenSame(v, layout.ascii, lib.extensions); }
  }

  // ----- whatever is read is in order -----

  /** Every value the reader accepts lists the fields of its objects in order, each key once. */
  lemma {:induction false} ParseOrdered(s: string, lib: Library)
    ensures ParseValue(s, lib).Parsed? ==> Ordered(ParseValue(s, lib).value)
    decreases |s|, 1
  {
    hide ParseItems, ParseMembers, ParseNumber, ReadString;
    if s != [] && s[0] == '{' && !(|s| > 1 && s[1] == '}') {
      ParseMembersOrdered(s[1..], lib, []);
    } else if s != [] && s[0] == '[' && !(|s| > 1 && s[1] == ']') {
      ParseItemsOrdered(s[1..], lib, []);
    } else if s != [] && (IsDigit(s[0]) || s[0] == '-') {
      ParseNumberScalar(s, lib);
    }
  }

  lemma ParseNumberScalar(s: string, lib: Library)
    ensures ParseNumber(s, lib).Parsed? ==> ParseNumber(s, lib).value.Integer? || ParseNumber(s, lib).value.Floating?
  {
    hide IntegerEnd, FractionEnd, ExponentEnd, DigitsValue;
  }

  lemma {:induction false} OrderedItemsSnoc(items: seq<Value>, v: Value)
    requires OrderedItems(items) && Ordered(v)
    ensures OrderedItems(items + [v])
  {
    if items != [] {
      assert (items + [v])[1..] == items[1..] + [v];
      OrderedItemsSnoc(items[1..], v);
    }
  }

  lemma {:induction false} ParseItemsOrdered(s: string, lib: Library, items: seq<Value>)
    requires OrderedItems(items)
    ensures ParseItems(s, lib, items).Parsed? ==> Ordered(ParseItems(s, lib, items).value)
    decreases |s|, 2
  {
    hide ParseValue;
    var r := ParseValue(SkipSpace(s), lib);
    if r.Parsed? {
      ParseOrdered(SkipSpace(s), lib);
      OrderedItemsSnoc(items, r.value);
      var t := SkipSpace(r.rest);
      if t != [] { ParseItemsOrdered(SkipSpace(t[1..]), lib, items + [r.value]); }
    }
  }

  lemma {:induction false} ParseMembersOrdered(s: string, lib: Library, fields: seq<Field>)
    requires OrderedFields(fields) && KeysSorted(fields)
    ensures ParseMembers(s, lib, fields).Parsed? ==> Ordered(ParseMembers(s, lib, fields).value)
    decreases |s|, 3
  {
    hide ParseField, Put;
    var r := ParseField(s, lib);
    if r.Parsed? {
      ParseFieldOrdered(s, lib);
      PutOrdered(fields, r.value.key, r.value.value);
      PutSorted(fields, r.value.key, r.value.value);
      var t := SkipSpace(r.rest);
      if t != [] { ParseMembersOrdered(SkipSpace(t[1..]), lib, Put(fields, r.value.key, r.value.value)); }
    }
  }

  lemma {:induction false} ParseFieldOrdered(s: string, lib: Library)
    ensures ParseField(s, lib).Parsed? ==> Ordered(ParseField(s, lib).value.value)
    decreases |s|, 2
  {
    hide ParseValue, ReadString;
    var name := ReadString(SkipSpace(s), lib.extensions);
    if name.Parsed? {
      var t := SkipSpace(name.rest);
      if t != [] { ParseOrdered(SkipSpace(t[1..]), lib); }
    }
  }
}
