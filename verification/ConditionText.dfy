/** The textual form of condition trees: printing, the tokens of a text, and the grammar. */
module ConditionText {
  import opened Characters
  import opened Logical
  import opened Condition

  datatype Token =
    | EndOfInput | LeftParen | RightParen
    | OperatorNot | OperatorAnd | OperatorOr | OperatorXor
    | OperatorNand | OperatorNor | OperatorXnor
    | OperatorImplyLeft | OperatorImplyRight
    | Identifier(id: string)
    | BoolLiteral(value: bool)
    | Error

  // ----- printing -----

  function OpText(op: BinaryOp): string {
    match op
    case And => " & "
    case Or => " | "
    case Xor => " ^ "
    case Nand => " !& "
    case Nor => " !| "
    case Xnor => " !^ "
    case ImplyLeft => " <- "
    case ImplyRight => " -> "
  }

  function ToString(t: Node): string {
    match t
    case Null => "{null}"
    case Bool(b) => if b then "{true}" else "{false}"
    case Func(id) => id
    case Unary(c) => "!(" + ToString(c) + ")"
    case Binary(op, l, r) => "(" + ToString(l) + OpText(op) + ToString(r) + ")"
    case _ => "{error}"
  }

  // ----- tokens of a text -----

  predicate IsAlphaNum(c: char) {
    'a' <= c <= 'z' || 'A' <= c <= 'Z' || '0' <= c <= '9' || c == '_'
  }

  /** The number of leading characters that satisfy `p`. */
  function Span(p: char -> bool, u: string): (n: nat)
    ensures n <= |u|
    ensures forall i :: 0 <= i < n ==> p(u[i])
    ensures n < |u| ==> !p(u[n])
  {
    if u == [] || !p(u[0]) then 0 else 1 + Span(p, u[1..])
  }

  /** The token at the start of a text without leading space, and the characters that it takes. */
  function TokenAt(u: string): (r: (Token, nat))
    ensures r.1 <= |u|
    ensures r.0 != EndOfInput && r.0 != Error ==> r.1 > 0
  {
    if u == [] then (EndOfInput, 0)
    else if u[0] == '(' then (LeftParen, 1)
    else if u[0] == ')' then (RightParen, 1)
    else if u[0] == '{' then
      var n := Span(c => c != '}', u[1..]);
      var literal := u[1..1 + n];
      if n == |u| - 1 then (Error, 1 + n)
      else if literal == "true" || literal == "1" then (BoolLiteral(true), n + 2)
      else if literal == "false" || literal == "0" then (BoolLiteral(false), n + 2)
      else (Error, n + 2)
    else if u[0] == '!' then
      if |u| > 1 && u[1] == '&' then (OperatorNand, 2)
      else if |u| > 1 && u[1] == '|' then (OperatorNor, 2)
      else if |u| > 1 && u[1] == '^' then (OperatorXnor, 2)
      else (OperatorNot, 1)
    else if u[0] == '&' then (OperatorAnd, 1)
    else if u[0] == '|' then (OperatorOr, 1)
    else if u[0] == '^' then (OperatorXor, 1)
    else if u[0] == '-' then
      if |u| > 1 && u[1] == '>' then (OperatorImplyRight, 2) else (Error, 1)
    else if u[0] == '<' then
      if |u| > 1 && u[1] == '-' then (OperatorImplyLeft, 2) else (Error, 1)
    else if IsAlphaNum(u[0]) then
      var n := Span(IsAlphaNum, u);
      (Identifier(u[..n]), n)
    else (Error, 0)
  }

  /** The next token of a text and the characters up to its end. */
  function NextToken(u: string): (r: (Token, nat))
    ensures r.1 <= |u|
    ensures r.0 != EndOfInput && r.0 != Error ==> r.1 > 0
  {
    var n := Span(IsSpace, u);
    var (t, k) := TokenAt(u[n..]);
    (t, n + k)
  }

  predicate Final(t: Token) {
    t == EndOfInput || t == Error
  }

  /** All tokens up to the end of the text or the first error. */
  function Lex(u: string): seq<Token>
    decreases |u|
  {
    var (t, n) := NextToken(u);
    if Final(t) then [t] else [t] + Lex(u[n..])
  }

  // ----- the grammar -----

  datatype Parsed = Ok(node: Node, rest: seq<Token>) | Unexpected

  function Peek(ts: seq<Token>): Token {
    if ts == [] then EndOfInput else ts[0]
  }

  /** The arrows denote their direction of implication, opposite to the names of the tokens. */
  function LogicalOp(t: Token): BinaryOp
    requires IsAnd(t) || IsOrXor(t) || IsImplyToken(t)
  {
    match t
    case OperatorAnd => And
    case OperatorOr => Or
    case OperatorXor => Xor
    case OperatorNand => Nand
    case OperatorNor => Nor
    case OperatorXnor => Xnor
    case OperatorImplyLeft => ImplyRight
    case OperatorImplyRight => ImplyLeft
  }

  predicate IsAnd(t: Token) {
    t == OperatorAnd || t == OperatorNand
  }

  predicate IsOrXor(t: Token) {
    t == OperatorOr || t == OperatorXor || t == OperatorNor || t == OperatorXnor
  }

  predicate IsImplyToken(t: Token) {
    t == OperatorImplyLeft || t == OperatorImplyRight
  }

  /** The trees without Null nodes whose function ids can be read back. */
  predicate Printable(t: Node) {
    match t
    case Bool(_) => true
    case Func(id) => ValidId(id)
    case Unary(c) => Printable(c)
    case Binary(_, l, r) => Printable(l) && Printable(r)
    case _ => false
  }

  predicate ValidId(id: string) {
    id != [] && forall i :: 0 <= i < |id| ==> IsAlphaNum(id[i])
  }

  ghost predicate ValidTokens(ts: seq<Token>) {
    forall i :: 0 <= i < |ts| && ts[i].Identifier? ==> ValidId(ts[i].id)
  }

  function ParsePrimary(ts: seq<Token>): (p: Parsed)
    ensures p.Ok? ==> |p.rest| < |ts|
    decreases |ts|, 0
  {
    match Peek(ts)
    case OperatorNot => (
      match ParsePrimary(ts[1..])
      case Ok(n, rest) => Ok(Unary(n), rest)
      case Unexpected => Unexpected
    )
    case LeftParen => (
      match ParseImply(ts[1..])
      case Ok(n, rest) => if Peek(rest) == RightParen then Ok(n, rest[1..]) else Unexpected
      case Unexpected => Unexpected
    )
    case Identifier(id) =>
      if Peek(ts[1..]) == OperatorNot then Ok(Unary(Func(id)), ts[2..]) else Ok(Func(id), ts[1..])
    case BoolLiteral(b) => Ok(Bool(b), ts[1..])
    case _ => Unexpected
  }

  function ParseAnd(ts: seq<Token>): (p: Parsed)
    ensures p.Ok? ==> |p.rest| < |ts|
    decreases |ts|, 1
  {
    match ParsePrimary(ts)
    case Ok(n, rest) => AndLoop(n, rest)
    case Unexpected => Unexpected
  }

  function AndLoop(left: Node, ts: seq<Token>): (p: Parsed)
    ensures p.Ok? ==> |p.rest| <= |ts|
    decreases |ts|, 0
  {
    if !IsAnd(Peek(ts)) then Ok(left, ts)
    else
      match ParsePrimary(ts[1..])
      case Ok(n, rest) => AndLoop(Binary(LogicalOp(ts[0]), left, n), rest)
      case Unexpected => Unexpected
  }

  function ParseOrXor(ts: seq<Token>): (p: Parsed)
    ensures p.Ok? ==> |p.rest| < |ts|
    decreases |ts|, 2
  {
    match ParseAnd(ts)
    case Ok(n, rest) => OrXorLoop(n, rest)
    case Unexpected => Unexpected
  }

  function OrXorLoop(left: Node, ts: seq<Token>): (p: Parsed)
    ensures p.Ok? ==> |p.rest| <= |ts|
    decreases |ts|, 0
  {
    if !IsOrXor(Peek(ts)) then Ok(left, ts)
    else
      match ParseAnd(ts[1..])
      case Ok(n, rest) => OrXorLoop(Binary(LogicalOp(ts[0]), left, n), rest)
      case Unexpected => Unexpected
  }

  function ParseImply(ts: seq<Token>): (p: Parsed)
    ensures p.Ok? ==> |p.rest| < |ts|
    decreases |ts|, 3
  {
    match ParseOrXor(ts)
    case Ok(n, rest) => ImplyLoop(n, rest)
    case Unexpected => Unexpected
  }

  function ImplyLoop(left: Node, ts: seq<Token>): (p: Parsed)
    ensures p.Ok? ==> |p.rest| <= |ts|
    decreases |ts|, 0
  {
    if !IsImplyToken(Peek(ts)) then Ok(left, ts)
    else
      match ParseOrXor(ts[1..])
      case Ok(n, rest) => ImplyLoop(Binary(LogicalOp(ts[0]), left, n), rest)
      case Unexpected => Unexpected
  }

  /** Parsing stops where no operator follows; what comes after is ignored. */
  function Parse(text: string): Parsed {
    ParseImply(Lex(text))
  }

  // ----- lexing a printed tree -----

  function OpToken(op: BinaryOp): Token {
    match op
    case And => OperatorAnd
    case Or => OperatorOr
    case Xor => OperatorXor
    case Nand => OperatorNand
    case Nor => OperatorNor
    case Xnor => OperatorXnor
    case ImplyLeft => OperatorImplyLeft
    case ImplyRight => OperatorImplyRight
  }

  function TokensOf(t: Node): seq<Token> {
    match t
    case Bool(b) => [BoolLiteral(b)]
    case Func(id) => [Identifier(id)]
    case Unary(c) => [OperatorNot, LeftParen] + TokensOf(c) + [RightParen]
    case Binary(op, l, r) => [LeftParen] + TokensOf(l) + [OpToken(op)] + TokensOf(r) + [RightParen]
    case _ => [Error]
  }

  /** What may follow an identifier without becoming part of it. */
  predicate Delimited(b: string) {
    b == [] || !IsAlphaNum(b[0])
  }

  lemma {:induction false} SpanAll(p: char -> bool, a: string, b: string)
    requires forall i :: 0 <= i < |a| ==> p(a[i])
    requires b == [] || !p(b[0])
    ensures Span(p, a + b) == |a|
  {
    if a == [] {
      assert a + b == b;
    } else {
      assert (a + b)[1..] == a[1..] + b;
      SpanAll(p, a[1..], b);
    }
  }

  lemma LexToken(u: string, n: nat)
    requires n <= |u| && TokenAt(u).1 == n && !Final(TokenAt(u).0)
    requires u != [] && !IsSpace(u[0])
    ensures Lex(u) == [TokenAt(u).0] + Lex(u[n..])
  {
    hide TokenAt;
    assert Span(IsSpace, u) == 0;
    assert u[0..] == u;
  }

  lemma NextAfterSpace(v: string)
    ensures NextToken([' '] + v) == (NextToken(v).0, NextToken(v).1 + 1)
  {
    hide TokenAt;
    var (u, n) := ([' '] + v, Span(IsSpace, v));
    assert u[1..] == v;
    assert Span(IsSpace, u) == n + 1;
    assert u[n + 1..] == v[n..];
  }

  lemma LexSpace(v: string)
    ensures Lex([' '] + v) == Lex(v)
  {
    hide NextToken;
    NextAfterSpace(v);
    var n := NextToken(v).1;
    assert ([' '] + v)[n + 1..] == v[n..];
  }

  lemma LexParens(b: string)
    ensures Lex("(" + b) == [LeftParen] + Lex(b)
    ensures Lex(")" + b) == [RightParen] + Lex(b)
  {
    hide Lex;
    LexToken("(" + b, 1);
    LexToken(")" + b, 1);
    assert ("(" + b)[1..] == b && (")" + b)[1..] == b;
  }

  lemma LexNot(b: string)
    ensures Lex("!" + ("(" + b)) == [OperatorNot, LeftParen] + Lex(b)
  {
    hide Lex;
    var u := "!" + ("(" + b);
    assert TokenAt(u) == (OperatorNot, 1);
    LexToken(u, 1);
    assert u[1..] == "(" + b;
    LexParens(b);
  }

  lemma OpTokenAt(op: BinaryOp, b: string)
    ensures var v := OpText(op)[1..] + b;
            TokenAt(v) == (OpToken(op), |OpText(op)| - 2) && !IsSpace(v[0])
  {}

  lemma LexOp(op: BinaryOp, b: string)
    ensures Lex(OpText(op) + b) == [OpToken(op)] + Lex(b)
  {
    OpTokenAt(op, b);
    OpTextSpaces(op);
    hide Lex, TokenAt, OpText, OpToken;
    var v := OpText(op)[1..] + b;
    var n := |OpText(op)| - 2;
    assert OpText(op) + b == [' '] + v;
    LexSpace(v);
    LexToken(v, n);
    assert v[n..] == [' '] + b;
    LexSpace(b);
  }

  lemma OpTextSpaces(op: BinaryOp)
    ensures 3 <= |OpText(op)| && OpText(op)[0] == ' ' && OpText(op)[|OpText(op)| - 1] == ' '
    ensures !Final(OpToken(op))
  {}

  lemma LexBool(value: bool, b: string)
    ensures Lex((if value then "{true}" else "{false}") + b) == [BoolLiteral(value)] + Lex(b)
  {
    hide Lex;
    var text := if value then "true" else "false";
    var u := (if value then "{true}" else "{false}") + b;
    var n := |text|;
    assert u[1..] == text + ("}" + b);
    SpanAll(c => c != '}', text, "}" + b);
    assert u[1..1 + n] == text;
    LexToken(u, n + 2);
    assert u[n + 2..] == b;
  }

  lemma LexId(id: string, b: string)
    requires ValidId(id) && Delimited(b)
    ensures Lex(id + b) == [Identifier(id)] + Lex(b)
  {
    hide Lex;
    var u := id + b;
    SpanAll(IsAlphaNum, id, b);
    assert u[..|id|] == id && u[|id|..] == b;
    assert IsAlphaNum(u[0]);
    LexToken(u, |id|);
  }

  lemma {:induction false} LexPrinted(t: Node, b: string)
    requires Printable(t) && Delimited(b)
    ensures Lex(ToString(t) + b) == TokensOf(t) + Lex(b)
  {
    hide Lex, OpText, OpToken, IsAlphaNum;
    match t
    case Bool(value) => LexBool(value, b);
    case Func(id) => LexId(id, b);
    case Unary(c) =>
      NotAlphaNum(b);
      LexPrinted(c, ")" + b);
      LexUnary(c, b);
    case Binary(op, l, r) =>
      NotAlphaNum(b);
      OpNotAlphaNum(op, ToString(r) + (")" + b));
      LexPrinted(l, OpText(op) + (ToString(r) + (")" + b)));
      LexPrinted(r, ")" + b);
      LexBinary(op, l, r, b);
  }

  lemma LexUnary(c: Node, b: string)
    requires Lex(ToString(c) + (")" + b)) == TokensOf(c) + Lex(")" + b)
    ensures Lex(ToString(Unary(c)) + b) == TokensOf(Unary(c)) + Lex(b)
  {
    hide Lex;
    LexNot(ToString(c) + (")" + b));
    LexParens(b);
    assert ToString(Unary(c)) + b == "!" + ("(" + (ToString(c) + (")" + b)));
  }

  lemma Regrouped<T>(a: seq<T>, b: seq<T>, c: seq<T>, d: seq<T>, e: seq<T>, f: seq<T>)
    ensures a + b + c + d + e + f == a + (b + (c + (d + (e + f))))
  {}

  lemma LexBinary(op: BinaryOp, l: Node, r: Node, b: string)
    requires Lex(ToString(r) + (")" + b)) == TokensOf(r) + Lex(")" + b)
    requires var middle := OpText(op) + (ToString(r) + (")" + b));
             Lex(ToString(l) + middle) == TokensOf(l) + Lex(middle)
    ensures Lex(ToString(Binary(op, l, r)) + b) == TokensOf(Binary(op, l, r)) + Lex(b)
  {
    hide Lex, OpText, OpToken;
    var tail := ")" + b;
    var middle := OpText(op) + (ToString(r) + tail);
    Regrouped("(", ToString(l), OpText(op), ToString(r), ")", b);
    Regrouped([LeftParen], TokensOf(l), [OpToken(op)], TokensOf(r), [RightParen], Lex(b));
    LexParens(ToString(l) + middle);
    LexOp(op, ToString(r) + tail);
    LexParens(b);
  }

  lemma NotAlphaNum(b: string)
    ensures Delimited(")" + b)
  {}

  lemma OpNotAlphaNum(op: BinaryOp, b: string)
    ensures Delimited(OpText(op) + b)
  {}

  // ----- parsing the tokens of a tree -----

  /** The two implications exchanged throughout. */
  function Exchanged(t: Node): Node {
    match t
    case Unary(c) => Unary(Exchanged(c))
    case Binary(op, l, r) =>
      var op' := if op == ImplyLeft then ImplyRight else if op == ImplyRight then ImplyLeft else op;
      Binary(op', Exchanged(l), Exchanged(r))
    case _ => t
  }

  lemma {:induction false} PrimaryOf(t: Node, rest: seq<Token>)
    requires Printable(t) && Peek(rest) != OperatorNot
    ensures ParsePrimary(TokensOf(t) + rest) == Ok(Exchanged(t), rest)
    decreases t, 1
  {
    hide ParseImply;
    var ts := TokensOf(t) + rest;
    match t
    case Bool(_) => assert ts[1..] == rest;
    case Func(_) => assert ts[1..] == rest;
    case Unary(c) =>
      var inner := TokensOf(c) + ([RightParen] + rest);
      assert ts == [OperatorNot] + ([LeftParen] + inner);
      ImplyOf(c, [RightParen] + rest);
      ParenOf(inner, Exchanged(c), rest);
    case Binary(op, l, r) =>
      var inner := TokensOf(l) + ([OpToken(op)] + (TokensOf(r) + ([RightParen] + rest)));
      assert ts == [LeftParen] + inner;
      InnerOf(t, [RightParen] + rest);
      ParenOf(inner, Exchanged(t), rest);
  }

  lemma ParenOf(inner: seq<Token>, n: Node, rest: seq<Token>)
    requires ParseImply(inner) == Ok(n, [RightParen] + rest)
    ensures ParsePrimary([LeftParen] + inner) == Ok(n, rest)
  {
    assert ([LeftParen] + inner)[1..] == inner;
    assert ([RightParen] + rest)[1..] == rest;
  }

  /** A closing parenthesis or the end of the input closes every level of the grammar. */
  predicate Closes(t: Token) {
    t == RightParen || t == EndOfInput
  }

  lemma ImplyOf(t: Node, rest: seq<Token>)
    requires Printable(t) && Closes(Peek(rest))
    ensures ParseImply(TokensOf(t) + rest) == Ok(Exchanged(t), rest)
    decreases t, 2
  {
    hide ParsePrimary, TokensOf;
    var (ts, n) := (TokensOf(t) + rest, Exchanged(t));
    PrimaryOf(t, rest);
    assert ParseAnd(ts) == Ok(n, rest);
    assert ParseOrXor(ts) == Ok(n, rest);
  }

  /** Two operands and the operator between them, whatever its precedence. */
  lemma InnerOf(t: Node, rest: seq<Token>)
    requires Printable(t) && t.Binary? && Closes(Peek(rest))
    ensures ParseImply(TokensOf(t.left) + ([OpToken(t.op)] + (TokensOf(t.right) + rest))) == Ok(Exchanged(t), rest)
    decreases t, 0
  {
    hide ParsePrimary, TokensOf;
    var Binary(op, l, r) := t;
    var tail := [OpToken(op)] + (TokensOf(r) + rest);
    PrimaryOf(l, tail);
    PrimaryOf(r, rest);
    OperatorBetween(TokensOf(l) + tail, Exchanged(l), OpToken(op), TokensOf(r) + rest, Exchanged(r), rest);
  }

  lemma OperatorBetween(ts: seq<Token>, l: Node, operator: Token, second: seq<Token>, r: Node, rest: seq<Token>)
    requires IsAnd(operator) || IsOrXor(operator) || IsImplyToken(operator)
    requires ParsePrimary(ts) == Ok(l, [operator] + second)
    requires ParsePrimary(second) == Ok(r, rest) && Closes(Peek(rest))
    ensures ParseImply(ts) == Ok(Binary(LogicalOp(operator), l, r), rest)
  {
    hide ParsePrimary, LogicalOp;
    var tail := [operator] + second;
    var n := Binary(LogicalOp(operator), l, r);
    assert tail[1..] == second;
    assert AndLoop(n, rest) == Ok(n, rest) && OrXorLoop(n, rest) == Ok(n, rest) && ImplyLoop(n, rest) == Ok(n, rest);
    assert ParseAnd(second) == Ok(r, rest);
    assert ParseOrXor(second) == Ok(r, rest);
    if IsAnd(operator) {
      assert ParseAnd(ts) == Ok(n, rest);
    } else {
      assert ParseAnd(ts) == Ok(l, tail);
      if IsOrXor(operator) {
        assert ParseOrXor(ts) == Ok(n, rest);
      } else {
        assert ParseOrXor(ts) == Ok(l, tail);
      }
    }
  }

  // ----- every parsed tree is printable -----

  lemma {:induction false} LexValid(u: string)
    ensures ValidTokens(Lex(u))
    decreases |u|
  {
    hide TokenAt;
    var (t, n) := NextToken(u);
    TokenValid(u[Span(IsSpace, u)..]);
    if !Final(t) {
      LexValid(u[n..]);
    }
  }

  lemma TokenValid(u: string)
    ensures TokenAt(u).0.Identifier? ==> ValidId(TokenAt(u).0.id)
  {}

  ghost predicate PrintableResult(p: Parsed) {
    p.Ok? ==> Printable(p.node) && ValidTokens(p.rest)
  }

  lemma {:induction false} PrimaryPrintable(ts: seq<Token>)
    requires ValidTokens(ts)
    ensures PrintableResult(ParsePrimary(ts))
    decreases |ts|, 0
  {
    hide ParseImply;
    match Peek(ts)
    case OperatorNot => PrimaryPrintable(ts[1..]);
    case LeftParen => ImplyPrintable(ts[1..]);
    case Identifier(id) =>
      assert ts[0] == Identifier(id);
      assert Printable(Func(id)) && Printable(Unary(Func(id)));
    case _ =>
  }

  lemma {:induction false} AndPrintable(ts: seq<Token>)
    requires ValidTokens(ts)
    ensures PrintableResult(ParseAnd(ts))
    decreases |ts|, 1
  {
    hide ParsePrimary, AndLoop;
    PrimaryPrintable(ts);
    var p := ParsePrimary(ts);
    if p.Ok? {
      AndLoopPrintable(p.node, p.rest);
    }
  }

  lemma {:induction false} AndLoopPrintable(left: Node, ts: seq<Token>)
    requires Printable(left) && ValidTokens(ts)
    ensures PrintableResult(AndLoop(left, ts))
    decreases |ts|, 0
  {
    hide ParsePrimary;
    if IsAnd(Peek(ts)) {
      PrimaryPrintable(ts[1..]);
      var p := ParsePrimary(ts[1..]);
      if p.Ok? {
        AndLoopPrintable(Binary(LogicalOp(ts[0]), left, p.node), p.rest);
      }
    }
  }

  lemma {:induction false} OrXorPrintable(ts: seq<Token>)
    requires ValidTokens(ts)
    ensures PrintableResult(ParseOrXor(ts))
    decreases |ts|, 2
  {
    hide ParseAnd, OrXorLoop;
    AndPrintable(ts);
    var p := ParseAnd(ts);
    if p.Ok? {
      OrXorLoopPrintable(p.node, p.rest);
    }
  }

  lemma {:induction false} OrXorLoopPrintable(left: Node, ts: seq<Token>)
    requires Printable(left) && ValidTokens(ts)
    ensures PrintableResult(OrXorLoop(left, ts))
    decreases |ts|, 0
  {
    hide ParseAnd;
    if IsOrXor(Peek(ts)) {
      AndPrintable(ts[1..]);
      var p := ParseAnd(ts[1..]);
      if p.Ok? {
        OrXorLoopPrintable(Binary(LogicalOp(ts[0]), left, p.node), p.rest);
      }
    }
  }

  lemma {:induction false} ImplyPrintable(ts: seq<Token>)
    requires ValidTokens(ts)
    ensures PrintableResult(ParseImply(ts))
    decreases |ts|, 3
  {
    hide ParseOrXor, ImplyLoop;
    OrXorPrintable(ts);
    var p := ParseOrXor(ts);
    if p.Ok? {
      ImplyLoopPrintable(p.node, p.rest);
    }
  }

  lemma {:induction false} ImplyLoopPrintable(left: Node, ts: seq<Token>)
    requires Printable(left) && ValidTokens(ts)
    ensures PrintableResult(ImplyLoop(left, ts))
    decreases |ts|, 0
  {
    hide ParseOrXor;
    if IsImplyToken(Peek(ts)) {
      OrXorPrintable(ts[1..]);
      var p := ParseOrXor(ts[1..]);
      if p.Ok? {
        ImplyLoopPrintable(Binary(LogicalOp(ts[0]), left, p.node), p.rest);
      }
    }
  }

  // ----- the round trip -----

  predicate ReadsBackAs(t: Node, expected: Node) {
    var p := Parse(ToString(t));
    p.Ok? && p.node == expected
  }

  /** Reading back a printed tree yields the tree with its two implications exchanged, exactly for
      the printable trees. */
  lemma RoundTripExchanges(t: Node)
    ensures ReadsBackAs(t, Exchanged(t)) <==> Printable(t)
  {
    hide ParseImply, Lex;
    ExchangedPrintable(t);
    LexValid(ToString(t));
    ImplyPrintable(Lex(ToString(t)));
    if Printable(t) {
      assert ToString(t) + "" == ToString(t);
      LexPrinted(t, "");
      LexEmpty();
      ImplyOf(t, [EndOfInput]);
    }
  }

  lemma LexEmpty()
    ensures Lex("") == [EndOfInput]
  {}

  lemma {:induction false} ExchangedPrintable(t: Node)
    ensures Printable(Exchanged(t)) <==> Printable(t)
  {
    match t
    case Unary(c) => ExchangedPrintable(c);
    case Binary(_, l, r) => ExchangedPrintable(l); ExchangedPrintable(r);
    case _ =>
  }

  predicate HasImply(t: Node) {
    match t
    case Unary(c) => HasImply(c)
    case Binary(op, l, r) => IsImply(op) || HasImply(l) || HasImply(r)
    case _ => false
  }

  lemma {:induction false} ExchangedSame(t: Node)
    ensures Exchanged(t) == t <==> !HasImply(t)
  {
    match t
    case Unary(c) => ExchangedSame(c);
    case Binary(_, l, r) => ExchangedSame(l); ExchangedSame(r);
    case _ =>
  }

  /** The text form is faithful exactly for printable trees without implications. */
  lemma RoundTrip(t: Node)
    ensures ReadsBackAs(t, t) <==> Printable(t) && !HasImply(t)
  {
    hide Parse, ToString;
    RoundTripExchanges(t);
    ExchangedSame(t);
    ParsePrintable(ToString(t));
  }

  lemma ParsePrintable(text: string)
    ensures Parse(text).Ok? ==> Printable(Parse(text).node)
  {
    hide ParseImply, Lex;
    LexValid(text);
    ImplyPrintable(Lex(text));
  }
}
