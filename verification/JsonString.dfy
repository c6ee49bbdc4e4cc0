/** String literals of the JSON reader and writer: escaping, and the loop that undoes it. */
module JsonString {
  import opened Arithmetic
  import opened Characters
  import opened Options

  /** What a parsing function consumed and what is left of the input. */
  datatype Parsed<T> = Parsed(value: T, rest: string) | Failed

  function HexDigit(n: nat): char
    requires n < 16
  {
    if n < 10 then ('0' as int + n) as char else ('a' as int + (n - 10)) as char
  }

  function Hex4(n: nat): (h: string)
    requires n < 0x10000
    ensures |h| == 4
  {
    [HexDigit(n / 4096), HexDigit(n / 256 % 16), HexDigit(n / 16 % 16), HexDigit(n % 16)]
  }

  // ----- escaping -----

  /** One character below 0x80, or any byte when bytes above are passed through. */
  function EscapeChar(c: char): (e: string)
    ensures |e| >= 1
  {
    if c == '"' then "\\\""
    else if c == '\\' then "\\\\"
    else if Code(c) == 8 then "\\b"
    else if Code(c) == 12 then "\\f"
    else if c == '\n' then "\\n"
    else if c == '\r' then "\\r"
    else if c == '\t' then "\\t"
    else if Code(c) < 0x20 then "\\u" + Hex4(Code(c))
    else [c]
  }

  /** The code point of a multi-byte sequence, or -1, and the index at which decoding stopped. */
  function Continue(s: string, at: nat, cp: nat, extra: nat): (r: (int, nat))
    requires at < |s|
    ensures at <= r.1 <= at + extra && r.1 <= |s| && r.0 >= -1
    ensures r.0 >= 0 ==> r.1 == at + extra < |s|
    decreases extra
  {
    if extra == 0 then (cp, at)
    else if at + 1 >= |s| || !(0x80 <= Code(s[at + 1]) < 0xC0) then (-1, at + 1)
    else Continue(s, at + 1, cp * 64 + (Code(s[at + 1]) - 0x80), extra - 1)
  }

  function Power64(n: nat): (p: nat) {
    if n == 0 then 1 else 64 * Power64(n - 1)
  }

  lemma {:induction false} ContinueBound(s: string, at: nat, cp: nat, extra: nat)
    requires at < |s|
    ensures Continue(s, at, cp, extra).0 < (cp + 1) * Power64(extra)
    decreases extra
  {
    if extra == 0 {
    } else if at + 1 >= |s| || !(0x80 <= Code(s[at + 1]) < 0xC0) {
      MulOrder(cp + 1, 0, Power64(extra));
    } else {
      var next := cp * 64 + (Code(s[at + 1]) - 0x80);
      ContinueBound(s, at + 1, next, extra - 1);
      MulOrder((cp + 1) * 64, next + 1, Power64(extra - 1));
    }
  }

  function Decode(s: string): (r: (int, nat))
    requires |s| > 0
    ensures r.1 <= 3 && r.1 <= |s| && -1 <= r.0 < 0x200000
    ensures r.0 >= 0 ==> r.1 < |s|
    ensures r.0 >= 0x10000 ==> r.1 == 3
  {
    hide Continue;
    var b := Code(s[0]);
    assert Power64(1) == 64 && Power64(2) == 4096 && Power64(3) == 262144;
    if 0xC0 <= b < 0xE0 then ContinueBound(s, 0, b - 0xC0, 1); Continue(s, 0, b - 0xC0, 1)
    else if 0xE0 <= b < 0xF0 then ContinueBound(s, 0, b - 0xE0, 2); Continue(s, 0, b - 0xE0, 2)
    else if 0xF0 <= b < 0xF8 then ContinueBound(s, 0, b - 0xF0, 3); Continue(s, 0, b - 0xF0, 3)
    else (-1, 0)
  }

  /** The text for a sequence that starts with a byte from 0x80 on. */
  function EscapeSequence(s: string): (e: string)
    requires |s| > 0
    ensures |e| >= (if Decode(s).0 > 0xFFFF then 12 else 6)
  {
    var (cp, at) := Decode(s);
    if cp > 0xFFFF then
      "\\u" + Hex4(0xD800 + (cp - 0x10000) / 1024) + "\\u" + Hex4(0xDC00 + (cp - 0x10000) % 1024)
    else "\\u" + Hex4(if cp >= 0 then cp else Code(s[0]) % 0x100)
  }

  /** How far the loop moves past such a sequence: one character beyond a decoded sequence, and
      onto the next one after a failure. */
  function Consumed(s: string): (n: nat)
    requires |s| > 0
    ensures 0 < n <= |s|
    ensures n < (if Decode(s).0 > 0xFFFF then 12 else 6)
  {
    var (cp, at) := Decode(s);
    Min(|s|, if cp >= 0 then at + 2 else at + 1)
  }

  function Min(a: nat, b: nat): nat {
    if a < b then a else b
  }

  /** `ascii` asks for every character from 0x80 on to be replaced by its code. */
  function Escape(s: string, ascii: bool): (e: string)
    decreases |s|
  {
    if s == [] then []
    else if ascii && Code(s[0]) >= 0x80 then EscapeSequence(s) + Escape(s[Consumed(s)..], ascii)
    else EscapeChar(s[0]) + Escape(s[1..], ascii)
  }

  predicate PlainChar(c: char, ascii: bool) {
    c != '"' && c != '\\' && 0x20 <= Code(c) && (ascii ==> Code(c) < 0x80)
  }

  /** No character of the string needs escaping. */
  predicate Plain(s: string, ascii: bool) {
    forall i :: 0 <= i < |s| ==> PlainChar(s[i], ascii)
  }

  lemma EscapeCharLength(c: char)
    ensures PlainChar(c, false) ==> EscapeChar(c) == [c]
    ensures !PlainChar(c, false) ==> |EscapeChar(c)| >= 2
  {}

  /** Escaping leaves exactly the plain strings as they are, and lengthens all others. */
  lemma {:induction false} EscapeLengthens(s: string, ascii: bool)
    ensures |Escape(s, ascii)| >= |s|
    ensures Plain(s, ascii) <==> |Escape(s, ascii)| == |s|
    ensures Plain(s, ascii) <==> Escape(s, ascii) == s
    decreases |s|
  {
    hide EscapeChar, EscapeSequence, Consumed, Decode;
    if s != [] {
      if ascii && Code(s[0]) >= 0x80 {
        EscapeLengthens(s[Consumed(s)..], ascii);
        assert !PlainChar(s[0], ascii);
      } else {
        EscapeLengthens(s[1..], ascii);
        EscapeCharLength(s[0]);
        assert s == [s[0]] + s[1..];
        assert Plain(s, ascii) <==> PlainChar(s[0], ascii) && Plain(s[1..], ascii);
      }
    }
  }

  lemma {:induction false} ContinueReads(s: string, at: nat, cp: nat, extra: nat, k: nat, c: char)
    requires at < |s| && k < |s| && Continue(s, at, cp, extra).0 >= 0 && Continue(s, at, cp, extra).1 < k
    ensures Continue(s[k := c], at, cp, extra) == Continue(s, at, cp, extra)
    decreases extra
  {
    hide Power64;
    if extra > 0 {
      ContinueReads(s, at + 1, cp * 64 + (Code(s[at + 1]) - 0x80), extra - 1, k, c);
    }
  }

  lemma DecodeReads(s: string, k: nat, c: char)
    requires 0 < |s| && Decode(s).0 >= 0 && Decode(s).1 < k < |s|
    ensures Decode(s[k := c]) == Decode(s)
  {
    hide Continue;
    var b := Code(s[0]);
    if 0xC0 <= b < 0xE0 { ContinueReads(s, 0, b - 0xC0, 1, k, c); }
    if 0xE0 <= b < 0xF0 { ContinueReads(s, 0, b - 0xE0, 2, k, c); }
    if 0xF0 <= b < 0xF8 { ContinueReads(s, 0, b - 0xF0, 3, k, c); }
  }

  /** The character after a decoded sequence is lost: replacing it by any other changes nothing. */
  lemma AsciiEscapeForgets(s: string, c: char)
    requires |s| > 0 && Code(s[0]) >= 0x80 && Decode(s).0 >= 0 && Decode(s).1 + 1 < |s|
    ensures Escape(s[Decode(s).1 + 1 := c], true) == Escape(s, true)
  {
    hide Decode, Hex4;
    var k := Decode(s).1 + 1;
    var t := s[k := c];
    DecodeReads(s, k, c);
    assert EscapeSequence(t) == EscapeSequence(s) && Consumed(t) == Consumed(s) == k + 1;
    assert t[k + 1..] == s[k + 1..];
  }

  // ----- reading -----

  predicate IsHex(c: char) {
    '0' <= c <= '9' || 'a' <= c <= 'f' || 'A' <= c <= 'F'
  }

  function HexValue(c: char): (n: nat)
    requires IsHex(c)
    ensures n < 16
  {
    if c <= '9' then Code(c) - Code('0') else if c <= 'F' then Code(c) - Code('A') + 10 else Code(c) - Code('a') + 10
  }

  /** The number that the leading hexadecimal digits of `s` denote after `n`. */
  function HexPrefix(s: string, n: nat): nat {
    if s == [] || !IsHex(s[0]) then n else HexPrefix(s[1..], 16 * n + HexValue(s[0]))
  }

  /** The conversion of the C library to base 16: spaces, a sign, a prefix 0x, and as many digits as
      follow, at least one. */
  function HexNumber(s: string): Option<int>
  {
    var t := SkipSpace(s);
    var negative := t != [] && t[0] == '-';
    var u := if t != [] && (t[0] == '-' || t[0] == '+') then t[1..] else t;
    var digits := if |u| > 2 && u[0] == '0' && (u[1] == 'x' || u[1] == 'X') && IsHex(u[2]) then u[2..] else u;
    if digits == [] || !IsHex(digits[0]) then None
    else
      var n: int := HexPrefix(digits, 0);
      Some(if negative then -n else n)
  }

  function Byte(n: nat): char {
    (n % 0x100) as char
  }

  function Or(a: bv8, n: nat): char {
    (a | ((n % 0x100) as bv8)) as char
  }

  /** A code point as UTF-8 in at most three bytes. */
  function Utf8(cp: nat): (s: string)
    ensures cp <= 0x7F ==> s == [cp as char]
  {
    if cp <= 0x7F then [cp as char]
    else if cp <= 0x7FF then [Or(0xC0, cp / 64), Or(0x80, cp % 64)]
    else [Or(0xE0, cp / 4096), Or(0x80, cp / 64 % 64), Or(0x80, cp % 64)]
  }

  /** The character that a one-letter escape stands for. */
  function SimpleEscape(e: char): Option<char> {
    if e == '"' || e == '\\' || e == '/' then Some(e)
    else if e == 'b' then Some(8 as char)
    else if e == 'f' then Some(12 as char)
    else if e == 'n' then Some('\n')
    else if e == 'r' then Some('\r')
    else if e == 't' then Some('\t')
    else None
  }

  /** The rest of a literal after its opening quote; `extensions` admits two-digit byte escapes. */
  function ReadChars(s: string, extensions: bool, acc: string): (r: Parsed<string>)
    ensures r.Parsed? ==> |r.rest| < |s|
    decreases |s|
  {
    if s == [] then Failed
    else if s[0] == '"' then Parsed(acc, s[1..])
    else if s[0] != '\\' then ReadChars(s[1..], extensions, acc + [s[0]])
    else if |s| == 1 then Failed
    else if SimpleEscape(s[1]).Some? then ReadChars(s[2..], extensions, acc + [SimpleEscape(s[1]).value])
    else if s[1] == 'u' then
      if |s| <= 5 || HexNumber(s[2..6]).None? then Failed
      else ReadChars(s[6..], extensions, acc + Utf8(HexNumber(s[2..6]).value % 0x1_0000_0000))
    else if s[1] == 'x' && extensions then
      if |s| <= 3 || HexNumber(s[2..4]).None? then Failed
      else ReadChars(s[4..], extensions, acc + [Byte(HexNumber(s[2..4]).value % 0x100)])
    else Failed
  }

  function ReadString(s: string, extensions: bool): (r: Parsed<string>)
    ensures r.Parsed? ==> |r.rest| < |s|
  {
    if s == [] || s[0] != '"' then Failed else ReadChars(s[1..], extensions, [])
  }

  // ----- one layer of escaping is undone -----

  lemma HexDigitValue(n: nat)
    requires n < 16
    ensures IsHex(HexDigit(n)) && HexValue(HexDigit(n)) == n
    ensures HexDigit(n) != 'x' && HexDigit(n) != 'X' && !IsSpace(HexDigit(n)) && HexDigit(n) != '-' && HexDigit(n) != '+'
  {}

  lemma HexStep(c: char, s: string, n: nat)
    requires IsHex(c)
    ensures HexPrefix([c] + s, n) == HexPrefix(s, 16 * n + HexValue(c))
  {
    assert ([c] + s)[1..] == s;
  }

  lemma HexFour(a: char, b: char, c: char, d: char)
    requires IsHex(a) && IsHex(b) && IsHex(c) && IsHex(d)
    ensures HexPrefix([a, b, c, d], 0)
            == 16 * (16 * (16 * HexValue(a) + HexValue(b)) + HexValue(c)) + HexValue(d)
  {
    hide HexPrefix, HexValue, IsHex;
    HexStep(a, [b, c, d], 0);
    HexStep(b, [c, d], HexValue(a));
    HexStep(c, [d], 16 * HexValue(a) + HexValue(b));
    HexStep(d, [], 16 * (16 * HexValue(a) + HexValue(b)) + HexValue(c));
    assert [a] + [b, c, d] == [a, b, c, d] && [b] + [c, d] == [b, c, d] && [c] + [d] == [c, d] && [d] + [] == [d];
    EmptyPrefix(16 * (16 * (16 * HexValue(a) + HexValue(b)) + HexValue(c)) + HexValue(d));
  }

  lemma EmptyPrefix(n: nat)
    ensures HexPrefix([], n) == n
  {}

  lemma HexPlain(h: string)
    requires h != [] && forall i :: 0 <= i < |h| ==> IsHex(h[i])
    requires |h| < 2 || (h[1] != 'x' && h[1] != 'X')
    ensures HexNumber(h) == Some(HexPrefix(h, 0))
  {
    hide HexPrefix;
  }

  lemma HexRead(n: nat)
    requires n < 0x10000
    ensures HexNumber(Hex4(n)) == Some(n)
  {
    hide HexDigit, HexValue, IsHex, HexNumber, HexPrefix;
    HexDigitValue(n / 4096);
    HexDigitValue(n / 256 % 16);
    HexDigitValue(n / 16 % 16);
    HexDigitValue(n % 16);
    HexFour(HexDigit(n / 4096), HexDigit(n / 256 % 16), HexDigit(n / 16 % 16), HexDigit(n % 16));
    HexPlain(Hex4(n));
    assert n / 16 == 16 * (n / 256) + n / 16 % 16 && n / 256 == 16 * (n / 4096) + n / 256 % 16;
  }

  lemma ReadPlain(c: char, extensions: bool, s: string, acc: string)
    requires PlainChar(c, false)
    ensures ReadChars([c] + s, extensions, acc) == ReadChars(s, extensions, acc + [c])
  {
    assert ([c] + s)[1..] == s;
  }

  lemma ReadSimple(c: char, e: char, extensions: bool, s: string, acc: string)
    requires s != [] && SimpleEscape(e) == Some(c)
    ensures ReadChars(['\\', e] + s, extensions, acc) == ReadChars(s, extensions, acc + [c])
  {
    var t := ['\\', e] + s;
    assert t[0] == '\\' && t[1] == e && t[2..] == s;
  }

  lemma ReadCode(n: nat, extensions: bool, s: string, acc: string)
    requires s != [] && n < 0x10000
    ensures ReadChars("\\u" + Hex4(n) + s, extensions, acc) == ReadChars(s, extensions, acc + Utf8(n))
  {
    hide HexNumber, Hex4, Utf8;
    HexRead(n);
    var t := "\\u" + Hex4(n) + s;
    assert t[0] == '\\' && t[1] == 'u' && t[2..6] == Hex4(n) && t[6..] == s;
  }

  lemma ReadEscapedChar(c: char, extensions: bool, s: string, acc: string)
    requires s != []
    ensures ReadChars(EscapeChar(c) + s, extensions, acc) == ReadChars(s, extensions, acc + [c])
  {
    hide ReadChars, Hex4;
    var e := EscapeChar(c);
    if PlainChar(c, false) {
      ReadPlain(c, extensions, s, acc);
    } else if |e| == 2 {
      ReadSimple(c, e[1], extensions, s, acc);
      assert e == ['\\', e[1]];
    } else {
      ReadCode(Code(c), extensions, s, acc);
    }
  }

  /** Reading back what was escaped once gives the string, for every string. */
  lemma {:induction false} ReadEscaped(s: string, ascii: bool, extensions: bool, acc: string, rest: string)
    requires !ascii || (forall i :: 0 <= i < |s| ==> Code(s[i]) < 0x80)
    ensures ReadChars(Escape(s, ascii) + ("\"" + rest), extensions, acc) == Parsed(acc + s, rest)
    decreases |s|
  {
    hide EscapeChar, ReadChars;
    if s == [] {
      assert Escape(s, ascii) + ("\"" + rest) == "\"" + rest;
      ReadClosing(rest, extensions, acc);
      assert acc + s == acc;
    } else {
      var tail := Escape(s[1..], ascii) + ("\"" + rest);
      assert Escape(s, ascii) + ("\"" + rest) == EscapeChar(s[0]) + tail;
      ReadEscapedChar(s[0], extensions, tail, acc);
      ReadEscaped(s[1..], ascii, extensions, acc + [s[0]], rest);
      assert acc + [s[0]] + s[1..] == acc + s;
    }
  }

  lemma ReadClosing(rest: string, extensions: bool, acc: string)
    ensures ReadChars("\"" + rest, extensions, acc) == Parsed(acc, rest)
  {}

  // ----- two layers -----

  lemma EscapeCharAscii(c: char)
    ensures Code(c) < 0x80 ==> forall i :: 0 <= i < |EscapeChar(c)| ==> Code(EscapeChar(c)[i]) < 0x80
  {}

  lemma EscapeSequenceAscii(s: string)
    requires |s| > 0
    ensures forall i :: 0 <= i < |EscapeSequence(s)| ==> Code(EscapeSequence(s)[i]) < 0x80
  {
    hide Decode;
  }

  /** Asked for, the result has no character from 0x80 on. */
  lemma {:induction false} EscapeAscii(s: string)
    ensures forall i :: 0 <= i < |Escape(s, true)| ==> Code(Escape(s, true)[i]) < 0x80
    decreases |s|
  {
    hide EscapeChar, EscapeSequence, Consumed;
    if s != [] {
      if Code(s[0]) >= 0x80 {
        EscapeSequenceAscii(s);
        EscapeAscii(s[Consumed(s)..]);
      } else {
        EscapeCharAscii(s[0]);
        EscapeAscii(s[1..]);
      }
    }
  }

  /** The quotes that the writer puts around a string, which it escapes once more. */
  function Quote(s: string, ascii: bool): (q: string) {
    "\"" + Escape(s, ascii) + "\""
  }

  /** Reading takes off one layer of the two that the writer puts on. */
  lemma ReadQuoted(s: string, ascii: bool, extensions: bool, rest: string)
    ensures ReadString(Quote(Escape(s, ascii), ascii) + rest, extensions) == Parsed(Escape(s, ascii), rest)
  {
    hide Escape, ReadChars;
    var e := Escape(s, ascii);
    if ascii { EscapeAscii(s); }
    ReadEscaped(e, ascii, extensions, [], rest);
    assert (Quote(e, ascii) + rest)[1..] == Escape(e, ascii) + ("\"" + rest);
    assert [] + e == e;
  }
}
