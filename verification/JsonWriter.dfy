/** The JSON writer: it appends to one result string. */
module JsonWriter {
  import opened Characters
  import opened JsonString
  import opened JsonText
  import opened JsonValue
  import opened Options

  class Exporter {
    var layout: Layout
    var result: string

    constructor (layout: Layout)
      ensures this.layout == layout && result == []
    {
      this.layout := layout;
      result := [];
    }

    method ExportToString(v: Value) returns (text: string)
      modifies this`result
      ensures text == ValueText(v, layout, 0)
    {
      result := [];
      ExportValue(v, 0);
      text := result;
    }

    /** The same in the compact layout, which the exporter then keeps. */
    method ExportToCompactString(v: Value) returns (text: string)
      modifies this
      ensures layout == old(layout).(compact := true)
      ensures text == ValueText(v, layout, 0)
    {
      result := [];
      layout := layout.(compact := true);
      ExportValue(v, 0);
      text := result;
    }

    method ExportValue(v: Value, level: nat)
      modifies this`result
      ensures result == old(result) + ValueText(v, layout, level)
      decreases v, 2
    {
      hide Quote, Escape, Decimal, NewLine, IndentText, ItemsText, FieldsText;
      match v
      case Null =>
        result := result + "null";
      case Bool(b) =>
        result := result + (if b then "true" else "false");
      case Integer(n) =>
        result := result + Decimal(n);
      case Floating(literal) =>
        result := result + literal;
      case Text(text) =>
        var escaped := EscapeJsonString(text);
        var quoted := JQuote(escaped);
        result := result + quoted;
      case Extended(source) =>
        var quoted := JQuote(source);
        result := result + quoted;
      case Array(items) =>
        ExportArray(items, level);
      case Object(fields) =>
        ExportObject(fields, level);
    }

    method ExportArray(items: seq<Value>, level: nat)
      modifies this`result
      ensures result == old(result) + ValueText(Array(items), layout, level)
      decreases items, 1
    {
      hide NewLine, IndentText, ItemsText;
      ghost var before := result;
      result := result + "[";
      if items == [] {
        result := result + "]";
        assert before + "[" + "]" == before + "[]";
        return;
      }
      result := result + NewLine(layout);
      ExportItems(items, level + 1);
      result := result + IndentText(layout, level);
      result := result + "]";
      Joined(before, "[", NewLine(layout), ItemsText(items, layout, level + 1), IndentText(layout, level), "]");
    }

    /** The loop over the items. */
    method ExportItems(items: seq<Value>, level: nat)
      modifies this`result
      ensures result == old(result) + ItemsText(items, layout, level)
      decreases items, 0
    {
      hide NewLine, IndentText, ValueText, KeyText, ItemsText;
      ghost var before := result;
      var i := 0;
      ItemsEnd(items, layout, level);
      while i < |items|
        invariant i <= |items|
        invariant before + ItemsText(items, layout, level) == result + ItemsText(items[i..], layout, level)
      {
        ghost var r := result;
        result := result + IndentText(layout, level);
        ExportValue(items[i], level);
        if i != |items| - 1 {
          result := result + ",";
        }
        result := result + NewLine(layout);
        ItemsStep(items, layout, level, i, r);
        i := i + 1;
      }
    }

    method ExportObject(fields: seq<Field>, level: nat)
      modifies this`result
      ensures result == old(result) + ValueText(Object(fields), layout, level)
      decreases fields, 1
    {
      hide NewLine, IndentText, FieldsText;
      ghost var before := result;
      result := result + "{";
      if fields == [] {
        result := result + "}";
        assert before + "{" + "}" == before + "{}";
        return;
      }
      result := result + NewLine(layout);
      ExportFields(fields, level + 1);
      result := result + IndentText(layout, level);
      result := result + "}";
      Joined(before, "{", NewLine(layout), FieldsText(fields, layout, level + 1), IndentText(layout, level), "}");
    }

    /** The loop over the fields. */
    method ExportFields(fields: seq<Field>, level: nat)
      modifies this`result
      ensures result == old(result) + FieldsText(fields, layout, level)
      decreases fields, 0
    {
      hide NewLine, IndentText, ValueText, KeyText, FieldsText;
      ghost var before := result;
      var i := 0;
      FieldsEnd(fields, layout, level);
      while i < |fields|
        invariant i <= |fields|
        invariant before + FieldsText(fields, layout, level) == result + FieldsText(fields[i..], layout, level)
      {
        ghost var r := result;
        result := result + IndentText(layout, level);
        var key := fields[i].key;
        ExportKey(key);
        ExportValue(fields[i].value, level);
        if i != |fields| - 1 {
          result := result + ",";
        }
        result := result + NewLine(layout);
        FieldsStep(fields, layout, level, i, r);
        i := i + 1;
      }
    }

    method ExportKey(key: string)
      modifies this`result
      ensures result == old(result) + KeyText(key, layout)
    {
      hide Escape;
      var escaped := EscapeJsonString(key);
      var quoted := JQuote(escaped);
      result := result + (quoted + (if layout.compact then ":" else ": "));
    }

    method EscapeJsonString(s: string) returns (escaped: string)
      ensures escaped == Escape(s, layout.ascii)
    {
      hide EscapeChar, EscapeSequence, Consumed, Escape;
      escaped := [];
      var i := 0;
      EscapeEnd(s, layout.ascii);
      while i < |s|
        invariant i <= |s| && escaped + Escape(s[i..], layout.ascii) == Escape(s, layout.ascii)
      {
        ghost var before := escaped;
        EscapeStep(s, layout.ascii, i);
        if layout.ascii && Code(s[i]) >= 0x80 {
          escaped := escaped + EscapeSequence(s[i..]);
          i := i + Consumed(s[i..]);
        } else {
          escaped := escaped + EscapeChar(s[i]);
          i := i + 1;
        }
        assert before + (escaped[|before|..] + Escape(s[i..], layout.ascii)) == escaped + Escape(s[i..], layout.ascii);
      }
    }

    method JQuote(s: string) returns (quoted: string)
      ensures quoted == Quote(s, layout.ascii)
    {
      var escaped := EscapeJsonString(s);
      quoted := "\"" + escaped + "\"";
    }
  }

  lemma EscapeEnd(s: string, ascii: bool)
    ensures Escape([], ascii) == [] && s[0..] == s && s[|s|..] == []
  {}

  lemma EscapeStep(s: string, ascii: bool, i: nat)
    requires i < |s|
    ensures Escape(s[i..], ascii) ==
      if ascii && Code(s[i]) >= 0x80 then EscapeSequence(s[i..]) + Escape(s[i + Consumed(s[i..])..], ascii)
      else EscapeChar(s[i]) + Escape(s[i + 1..], ascii)
  {
    hide EscapeChar, EscapeSequence, Consumed;
    assert s[i..][1..] == s[i + 1..] && s[i..][Consumed(s[i..])..] == s[i + Consumed(s[i..])..];
  }

  lemma Joined(before: string, a: string, b: string, c: string, d: string, e: string)
    ensures before + a + b + c + d + e == before + (a + b + c + d + e)
  {}

  lemma ItemsEnd(items: seq<Value>, layout: Layout, level: nat)
    ensures ItemsText([], layout, level) == []
    ensures items[0..] == items && items[|items|..] == []
  {}

  /** `r` followed by the text from item i on is one more entry followed by the text from the next. */
  lemma ItemsStep(items: seq<Value>, layout: Layout, level: nat, i: nat, r: string)
    requires i < |items|
    ensures r + ItemsText(items[i..], layout, level)
            == r + IndentText(layout, level) + ValueText(items[i], layout, level)
               + (if i == |items| - 1 then "" else ",") + NewLine(layout) + ItemsText(items[i + 1..], layout, level)
  {
    hide ValueText, IndentText, NewLine;
    assert items[i..][0] == items[i] && items[i..][1..] == items[i + 1..];
    Joined(r, IndentText(layout, level), ValueText(items[i], layout, level),
           if i == |items| - 1 then "" else ",", NewLine(layout), ItemsText(items[i + 1..], layout, level));
    Grouped(IndentText(layout, level) + ValueText(items[i], layout, level),
            if i == |items| - 1 then "" else ",", NewLine(layout), ItemsText(items[i + 1..], layout, level));
  }

  lemma Grouped(a: string, b: string, c: string, d: string)
    ensures a + (b + c) + d == a + b + c + d
  {}

  lemma FieldsEnd(fields: seq<Field>, layout: Layout, level: nat)
    ensures FieldsText([], layout, level) == []
    ensures fields[0..] == fields && fields[|fields|..] == []
  {}

  lemma FieldsStep(fields: seq<Field>, layout: Layout, level: nat, i: nat, r: string)
    requires i < |fields|
    ensures r + FieldsText(fields[i..], layout, level)
            == r + IndentText(layout, level) + KeyText(fields[i].key, layout) + ValueText(fields[i].value, layout, level)
               + (if i == |fields| - 1 then "" else ",") + NewLine(layout) + FieldsText(fields[i + 1..], layout, level)
  {
    hide ValueText, IndentText, NewLine, KeyText;
    assert fields[i..][0] == fields[i] && fields[i..][1..] == fields[i + 1..];
    var entry := IndentText(layout, level) + KeyText(fields[i].key, layout);
    Joined(r, entry, ValueText(fields[i].value, layout, level),
           if i == |fields| - 1 then "" else ",", NewLine(layout), FieldsText(fields[i + 1..], layout, level));
    Grouped(entry + ValueText(fields[i].value, layout, level),
            if i == |fields| - 1 then "" else ",", NewLine(layout), FieldsText(fields[i + 1..], layout, level));
    assert r + entry == r + IndentText(layout, level) + KeyText(fields[i].key, layout);
  }

  /** Writing a value and reading the text back gives the value exactly when nothing in it needs
      escaping, in every layout. */
  method WriteAndRead(v: Value, layout: Layout) returns (text: string)
    requires Exact(v) && Ordered(v)
    ensures forall lib: Library :: ParseDocument(text, lib) == Some(v) <==> Faithful(v, layout.ascii, lib.extensions)
  {
    hide ParseDocument, ValueText, Faithful;
    var exporter := new Exporter(layout);
    text := exporter.ExportToString(v);
    forall lib: Library ensures ParseDocument(text, lib) == Some(v) <==> Faithful(v, layout.ascii, lib.extensions) {
      RoundTrip(v, layout, lib);
    }
  }
}
