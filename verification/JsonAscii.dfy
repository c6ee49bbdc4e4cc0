/** What the reader makes of a string that was written without non-ASCII characters. */
module JsonAscii {
  import opened Arithmetic
  import opened Characters
  import opened JsonString
  import opened Options

  predicate IsContinuation(c: char) {
    0x80 <= Code(c) < 0xC0
  }

  /** What the code of the sequence at the start of `s` is read as: its code point, the two halves
      of a surrogate pair, or its first byte. */
  function Unit(s: string): (u: string)
    requires |s| > 0
  {
    var cp := Decode(s).0;
    if cp > 0xFFFF then Utf8(0xD800 + (cp - 0x10000) / 1024) + Utf8(0xDC00 + (cp - 0x10000) % 1024)
    else Utf8(if cp >= 0 then cp else Code(s[0]) % 0x100)
  }

  function Reread(s: string): (r: string)
    decreases |s|
  {
    if s == [] then []
    else if Code(s[0]) < 0x80 then [s[0]] + Reread(s[1..])
    else Unit(s) + Reread(s[Consumed(s)..])
  }

  // ----- the reader gets exactly that -----

  lemma ReadUnit(s: string, extensions: bool, tail: string, acc: string)
    requires |s| > 0 && tail != []
    ensures ReadChars(EscapeSequence(s) + tail, extensions, acc) == ReadChars(tail, extensions, acc + Unit(s))
  {
    hide Decode, Hex4, Utf8, ReadChars;
    var cp := Decode(s).0;
    if cp > 0xFFFF {
      var (hi, lo) := (0xD800 + (cp - 0x10000) / 1024, 0xDC00 + (cp - 0x10000) % 1024);
      ReadCode(hi, extensions, "\\u" + Hex4(lo) + tail, acc);
      ReadCode(lo, extensions, tail, acc + Utf8(hi));
      assert EscapeSequence(s) + tail == "\\u" + Hex4(hi) + ("\\u" + Hex4(lo) + tail);
      assert acc + Utf8(hi) + Utf8(lo) == acc + Unit(s);
    } else {
      ReadCode(if cp >= 0 then cp else Code(s[0]) % 0x100, extensions, tail, acc);
    }
  }

  lemma {:induction false} ReadAscii(s: string, extensions: bool, acc: string, rest: string)
    ensures ReadChars(Escape(s, true) + ("\"" + rest), extensions, acc) == Parsed(acc + Reread(s), rest)
    decreases |s|
  {
    hide EscapeChar, EscapeSequence, Unit, Consumed, ReadChars;
    if s == [] {
      assert Escape(s, true) + ("\"" + rest) == "\"" + rest;
      ReadClosing(rest, extensions, acc);
      assert acc + Reread(s) == acc;
    } else if Code(s[0]) < 0x80 {
      var tail := Escape(s[1..], true) + ("\"" + rest);
      assert Escape(s, true) + ("\"" + rest) == EscapeChar(s[0]) + tail;
      ReadEscapedChar(s[0], extensions, tail, acc);
      ReadAscii(s[1..], extensions, acc + [s[0]], rest);
      assert acc + [s[0]] + Reread(s[1..]) == acc + Reread(s);
    } else {
      var next := s[Consumed(s)..];
      var tail := Escape(next, true) + ("\"" + rest);
      assert Escape(s, true) + ("\"" + rest) == EscapeSequence(s) + tail;
      ReadUnit(s, extensions, tail, acc);
      ReadAscii(next, extensions, acc + Unit(s), rest);
      assert acc + Unit(s) + Reread(next) == acc + Reread(s);
    }
  }

  // ----- which strings come back -----

  /** The length of a sequence of two or three bytes in its shortest form, or 0. */
  function SequenceLength(s: string): (n: nat)
    requires |s| > 0
    ensures n <= |s| && n != 1 && n <= 3
  {
    var b := Code(s[0]);
    if 0xC2 <= b < 0xE0 && |s| > 1 && IsContinuation(s[1]) then 2
    else if && 0xE0 <= b < 0xF0 && |s| > 2 && IsContinuation(s[1]) && IsContinuation(s[2])
            && (b == 0xE0 ==> Code(s[1]) >= 0xA0) then 3
    else 0
  }

  /** The character after a sequence is dropped.  It comes back only if it is 0xC2 before a byte
      that stands alone after the loss, which the reader then takes for a code point of its own. */
  predicate Restored(s: string) {
    |s| >= 2 && Code(s[0]) == 0xC2 && IsContinuation(s[1])
  }

  predicate Survives(s: string)
    decreases |s|
  {
    if s == [] then true
    else if Code(s[0]) < 0x80 then Survives(s[1..])
    else
      var n := SequenceLength(s);
      n > 0 && (|s| == n || (Restored(s[n..]) && Survives(s[n + 2..])))
  }

  predicate IsByteString(s: string) {
    forall i :: 0 <= i < |s| ==> Code(s[i]) < 0x100
  }

  lemma SmallByte(n: nat)
    requires n < 64
    ensures (n as bv8) as int == n
  {}

  lemma OrByte(b: bv8)
    ensures b < 32 ==> (0xC0 | b) as int == 0xC0 + b as int
    ensures b < 64 ==> (0x80 | b) as int == 0x80 + b as int
    ensures b < 16 ==> (0xE0 | b) as int == 0xE0 + b as int
  {}

  lemma OrSum(n: nat)
    ensures n < 32 ==> Or(0xC0, n) == (0xC0 + n) as char
    ensures n < 64 ==> Or(0x80, n) == (0x80 + n) as char
    ensures n < 16 ==> Or(0xE0, n) == (0xE0 + n) as char
  {
    if n < 64 {
      SmallByte(n);
      OrByte(n as bv8);
      assert n % 0x100 == n;
    }
  }

  lemma Utf8Chars(cp: nat)
    requires cp < 0x10000
    ensures 0x7F < cp <= 0x7FF ==> Utf8(cp) == [(0xC0 + cp / 64) as char, (0x80 + cp % 64) as char]
    ensures cp > 0x7FF ==>
      Utf8(cp) == [(0xE0 + cp / 4096) as char, (0x80 + cp / 64 % 64) as char, (0x80 + cp % 64) as char]
  {
    hide Or;
    OrSum(cp / 64);
    OrSum(cp % 64);
    OrSum(cp / 4096);
    OrSum(cp / 64 % 64);
  }

  // ----- decoding one sequence -----

  lemma DecodeStops(s: string)
    requires |s| > 0 && (IsContinuation(s[0]) || 0xF8 <= Code(s[0]))
    ensures Decode(s) == (-1, 0)
  {}

  lemma DecodeTwo(s: string)
    requires |s| > 0 && 0xC0 <= Code(s[0]) < 0xE0
    ensures var more := |s| > 1 && IsContinuation(s[1]);
            Decode(s) == (if more then (Code(s[0]) - 0xC0) * 64 + (Code(s[1]) - 0x80) else -1, 1)
  {
    hide Power64;
  }

  lemma DecodeThree(s: string)
    requires |s| > 0 && 0xE0 <= Code(s[0]) < 0xF0
    ensures |s| > 2 && IsContinuation(s[1]) && IsContinuation(s[2]) ==>
              Decode(s) == ((Code(s[0]) - 0xE0) * 4096 + (Code(s[1]) - 0x80) * 64 + (Code(s[2]) - 0x80), 2)
    ensures !(|s| > 2 && IsContinuation(s[1]) && IsContinuation(s[2])) ==> Decode(s).0 == -1
  {
    hide Power64;
  }

  /** A code point that is below 0x80, or written in two or three bytes in shortest form. */
  predicate WellBegun(r: string) {
    |r| > 0 &&
    (Code(r[0]) >= 0x80 ==>
       0xC2 <= Code(r[0]) < 0xF0 && |r| > 1 && IsContinuation(r[1]) && (Code(r[0]) == 0xE0 ==> Code(r[1]) >= 0xA0))
  }

  lemma Utf8Begins(cp: nat)
    requires cp < 0x10000
    ensures WellBegun(Utf8(cp))
    ensures cp >= 0x80 ==> Code(Utf8(cp)[0]) >= 0x80
    ensures cp < 0x80 ==> |Utf8(cp)| == 1
    ensures cp < 0x800 ==> Code(Utf8(cp)[0]) < 0xE0
  {
    hide Utf8;
    Utf8Chars(cp);
    Utf8Small(cp);
  }

  lemma Utf8Small(cp: nat)
    ensures cp < 0x80 ==> Utf8(cp) == [cp as char]
  {}

  lemma UnitBegins(s: string)
    requires |s| > 0
    ensures WellBegun(Unit(s))
    ensures Code(Unit(s)[0]) < 0x80 ==> |Unit(s)| == 1
  {
    hide Utf8, WellBegun, Decode;
    var cp := Decode(s).0;
    if cp > 0xFFFF {
      var (hi, lo) := (0xD800 + (cp - 0x10000) / 1024, 0xDC00 + (cp - 0x10000) % 1024);
      Utf8Begins(hi);
      LongerBegins(Utf8(hi), Utf8(lo));
      assert Unit(s)[0] == Utf8(hi)[0] by { BegunWord(Utf8(hi)); }
    } else {
      Utf8Begins(if cp >= 0 then cp else Code(s[0]) % 0x100);
    }
  }

  lemma BegunWord(r: string)
    requires WellBegun(r)
    ensures r != []
  {}

  lemma LongerBegins(r: string, t: string)
    requires WellBegun(r)
    ensures WellBegun(r + t)
  {}

  lemma RereadBegins(s: string)
    ensures Reread(s) == [] || WellBegun(Reread(s))
  {
    hide Unit, WellBegun, Consumed;
    if s != [] {
      if Code(s[0]) < 0x80 {
        assert WellBegun([s[0]]) by { AsciiBegins(s[0]); }
        LongerBegins([s[0]], Reread(s[1..]));
      } else {
        UnitBegins(s);
        LongerBegins(Unit(s), Reread(s[Consumed(s)..]));
      }
    }
  }

  lemma AsciiBegins(c: char)
    requires Code(c) < 0x80
    ensures WellBegun([c])
  {}

  // ----- the strings that come back -----

  lemma UnitOfTwo(s: string)
    requires |s| > 0 && SequenceLength(s) == 2
    ensures Unit(s) == s[..2] && Decode(s).1 == 1 && Decode(s).0 >= 0
  {
    hide Utf8, Decode;
    DecodeTwo(s);
    Utf8Chars(Decode(s).0);
  }

  lemma ThreeParts(a: nat, b: nat, c: nat)
    requires a < 16 && b < 64 && c < 64
    ensures var cp := a * 4096 + b * 64 + c;
            cp / 4096 == a && cp / 64 % 64 == b && cp % 64 == c
  {}

  lemma UnitOfThree(s: string)
    requires |s| > 0 && SequenceLength(s) == 3
    ensures Unit(s) == s[..3] && Decode(s).1 == 2 && Decode(s).0 >= 0
  {
    hide Utf8, Decode;
    DecodeThree(s);
    var (a, b, c) := (Code(s[0]) - 0xE0, Code(s[1]) - 0x80, Code(s[2]) - 0x80);
    ThreeParts(a, b, c);
    Utf8Chars(a * 4096 + b * 64 + c);
  }

  lemma UnitOfSequence(s: string)
    requires |s| > 0 && SequenceLength(s) > 0
    ensures Unit(s) == s[..SequenceLength(s)]
    ensures Consumed(s) == Min(|s|, SequenceLength(s) + 1)
  {
    hide Unit, Decode;
    if SequenceLength(s) == 2 { UnitOfTwo(s); } else { UnitOfThree(s); }
  }

  lemma LoneUnit(s: string)
    requires |s| > 0 && 0x80 <= Code(s[0]) < 0x100 && Decode(s).0 < 0
    ensures Code(s[0]) < 0xC0 ==> Unit(s) == [0xC2 as char, s[0]]
    ensures Code(s[0]) >= 0xC0 ==> |Unit(s)| > 0 && Unit(s)[0] == 0xC3 as char
  {
    hide Utf8, Decode;
    Utf8Chars(Code(s[0]));
  }

  /** Whatever else starts with such a byte is changed. */
  lemma UnitWrong(s: string, t: string)
    requires |s| > 0 && 0x80 <= Code(s[0]) < 0x100 && SequenceLength(s) == 0
    ensures Unit(s) + t != s
  {
    hide Unit, Decode;
    if Unit(s) + t == s {
      UnitBegins(s);
      LongerBegins(Unit(s), t);
      DecodeThree(s);
      LoneUnit(s);
    }
  }

  lemma UnitWide(s: string)
    requires WellBegun(s) && Code(s[0]) >= 0x80
    ensures |Unit(s)| > 1
  {
    hide Utf8, Decode;
    UnitBegins(s);
    if 0xC0 <= Code(s[0]) < 0xE0 { DecodeTwo(s); } else { DecodeThree(s); }
    Utf8Begins(if Decode(s).0 >= 0 then Decode(s).0 else Code(s[0]));
  }

  lemma SameHead(a: char, s: string, b: char, t: string)
    ensures [a] + s == [b] + t <==> a == b && s == t
  {
    assert ([a] + s)[0] == a && ([a] + s)[1..] == s && ([b] + t)[0] == b && ([b] + t)[1..] == t;
  }

  /** The dropped character `c` comes back exactly in one case. */
  lemma {:induction false} DroppedReturns(c: char, u: string)
    requires IsByteString(u)
    ensures Reread(u) == [c] + u <==> Restored([c] + u) && Reread(u[1..]) == u[1..]
    decreases |u|
  {
    hide Unit, WellBegun, Decode, SequenceLength;
    if u == [] {
    } else if Code(u[0]) < 0x80 {
      DroppedReturns(u[0], u[1..]);
      assert u == [u[0]] + u[1..];
      SameHead(u[0], Reread(u[1..]), c, u);
    } else if IsContinuation(u[0]) {
      DecodeStops(u);
      LoneUnit(u);
      assert u[Consumed(u)..] == u[1..];
      assert u == [u[0]] + u[1..];
      SameHead(0xC2 as char, [u[0]] + Reread(u[1..]), c, u);
      SameHead(u[0], Reread(u[1..]), u[0], u[1..]);
      assert Reread(u) == [0xC2 as char] + ([u[0]] + Reread(u[1..]));
    } else if Reread(u) == [c] + u {
      assert false by { LeadingByteDropped(c, u); }
    }
  }

  lemma LeadingByteDropped(c: char, u: string)
    requires IsByteString(u) && u != [] && Code(u[0]) >= 0xC0
    ensures Reread(u) != [c] + u
  {
    hide Unit, Decode;
    var v := u[Consumed(u)..];
    UnitBegins(u);
    if |Unit(u)| > 1 {
      // the second character is a continuation on one side only
      assert (Unit(u) + Reread(v))[1] == Unit(u)[1] && ([c] + u)[1] == u[0];
    } else if Reread(u) == [c] + u {
      SameHead(Unit(u)[0], Reread(v), c, u);
      RereadBegins(v);
      UnitWide(u);
    }
  }

  lemma {:induction false} SurvivesExactly(s: string)
    requires IsByteString(s)
    ensures Reread(s) == s <==> Survives(s)
    decreases |s|
  {
    hide Unit, SequenceLength, Decode, IsContinuation;
    if s == [] {
    } else if Code(s[0]) < 0x80 {
      SurvivesExactly(s[1..]);
      assert s == [s[0]] + s[1..];
    } else if SequenceLength(s) == 0 {
      UnitWrong(s, Reread(s[Consumed(s)..]));
    } else {
      var n := SequenceLength(s);
      AfterSequence(s, n);
      if n < |s| && Restored(s[n..]) {
        SurvivesExactly(s[n + 2..]);
      }
    }
  }

  lemma AfterSequence(s: string, n: nat)
    requires IsByteString(s) && |s| > 0 && Code(s[0]) >= 0x80 && n == SequenceLength(s) > 0
    ensures Reread(s) == s <==> |s| == n || (Restored(s[n..]) && Reread(s[n + 2..]) == s[n + 2..])
  {
    hide Reread, SequenceLength, IsContinuation;
    BehindSequence(s, n);
    if n < |s| {
      DroppedReturns(s[n], s[n + 1..]);
      assert s[n..] == [s[n]] + s[n + 1..];
      if |s| > n + 1 {
        assert s[n + 1..][1..] == s[n + 2..];
      }
    }
  }

  lemma BehindSequence(s: string, n: nat)
    requires |s| > 0 && Code(s[0]) >= 0x80 && n == SequenceLength(s) > 0
    ensures Reread(s) == s <==> |s| == n || Reread(s[n + 1..]) == s[n..]
  {
    hide Unit, SequenceLength, Decode, Consumed;
    UnitOfSequence(s);
    var next := s[Consumed(s)..];
    assert Reread(s) == s[..n] + Reread(next);
    assert (s[..n] + Reread(next))[n..] == Reread(next);
    assert s == s[..n] + s[n..];
  }

  /** Written without non-ASCII characters, a byte string comes back exactly if every sequence in it
      is a shortest form of two or three bytes behind which nothing is lost. */
  lemma AsciiRoundTrip(s: string, extensions: bool, acc: string, rest: string)
    requires IsByteString(s)
    ensures ReadChars(Escape(s, true) + ("\"" + rest), extensions, acc) == Parsed(acc + s, rest) <==> Survives(s)
  {
    hide ReadChars, Escape, Reread, Survives;
    ReadAscii(s, extensions, acc, rest);
    SurvivesExactly(s);
    assert acc + Reread(s) == acc + s <==> Reread(s) == s by {
      assert (acc + Reread(s))[|acc|..] == Reread(s) && (acc + s)[|acc|..] == s;
    }
  }
}
