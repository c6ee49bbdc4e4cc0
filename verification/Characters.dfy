/** Character classes of the C locale, and numbers in decimal digits. */
module Characters {

  function Code(c: char): nat {
    c as nat
  }

  predicate IsSpace(c: char) {
    c == ' ' || 9 <= Code(c) <= 13
  }

  /** The six white-space characters. */
  lemma SpaceExactly(c: char)
    ensures IsSpace(c) <==> Code(c) in {32, 9, 10, 11, 12, 13}
    ensures IsSpace(' ') && IsSpace('\t') && IsSpace('\n') && IsSpace('\r')
  {}

  function SkipSpace(s: string): (t: string)
    ensures |t| <= |s|
    ensures t != [] ==> !IsSpace(t[0])
  {
    if s != [] && IsSpace(s[0]) then SkipSpace(s[1..]) else s
  }

  predicate Spaces(s: string) {
    forall i :: 0 <= i < |s| ==> IsSpace(s[i])
  }

  lemma {:induction false} SkipSpaces(w: string, t: string)
    requires Spaces(w)
    ensures SkipSpace(w + t) == SkipSpace(t)
  {
    if w == [] {
      assert w + t == t;
    } else {
      assert (w + t)[1..] == w[1..] + t;
      SkipSpaces(w[1..], t);
    }
  }

  lemma SkipNone(t: string)
    requires t == [] || !IsSpace(t[0])
    ensures SkipSpace(t) == t
  {}

  lemma SkipTwice(t: string)
    ensures SkipSpace(SkipSpace(t)) == SkipSpace(t)
  {
    SkipNone(SkipSpace(t));
  }

  lemma SkipTo(w: string, t: string)
    requires Spaces(w) && t != [] && !IsSpace(t[0])
    ensures SkipSpace(w + t) == t
  {
    SkipSpaces(w, t);
    SkipNone(t);
  }

  lemma JoinSpaces(v: string, w: string)
    requires Spaces(v) && Spaces(w)
    ensures Spaces(v + w)
  {}

  // ----- decimal digits -----

  predicate IsDigit(c: char) {
    '0' <= c <= '9'
  }

  function Digits(n: nat): (d: string)
    ensures d != [] && (forall i :: 0 <= i < |d| ==> IsDigit(d[i]))
    ensures d[0] == '0' <==> n == 0
  {
    var last := ('0' as int + n % 10) as char;
    if n < 10 then [last] else Digits(n / 10) + [last]
  }

  function Decimal(n: int): (d: string)
    ensures d != []
  {
    if n < 0 then "-" + Digits(-n) else Digits(n)
  }

  /** How many digits `s` starts with. */
  function DigitSpan(s: string): (n: nat)
    ensures n <= |s|
    ensures forall i :: 0 <= i < n ==> IsDigit(s[i])
    ensures n < |s| ==> !IsDigit(s[n])
  {
    if s == [] || !IsDigit(s[0]) then 0 else 1 + DigitSpan(s[1..])
  }

  function DigitsValue(d: string): nat
    requires forall i :: 0 <= i < |d| ==> IsDigit(d[i])
  {
    if d == [] then 0
    else
      assert IsDigit(d[|d| - 1]);
      10 * DigitsValue(d[..|d| - 1]) + (Code(d[|d| - 1]) - Code('0'))
  }

  lemma {:induction false} DigitsRead(n: nat)
    ensures DigitsValue(Digits(n)) == n
  {
    var d := Digits(n);
    if n >= 10 {
      assert d[..|d| - 1] == Digits(n / 10);
      DigitsRead(n / 10);
    } else {
      assert d[..|d| - 1] == [];
    }
  }

  lemma {:induction false} SpanWhole(d: string, rest: string)
    requires forall i :: 0 <= i < |d| ==> IsDigit(d[i])
    requires rest == [] || !IsDigit(rest[0])
    ensures DigitSpan(d + rest) == |d|
  {
    if d == [] {
      assert d + rest == rest;
    } else {
      assert (d + rest)[1..] == d[1..] + rest;
      SpanWhole(d[1..], rest);
    }
  }

  lemma DigitZero(n: nat)
    ensures n == 0 ==> Digits(n) == "0"
  {}
}
