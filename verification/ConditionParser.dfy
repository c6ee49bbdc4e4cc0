/** The tokenizer and the recursive-descent parser as they run: a position that advances over the
    text, and one token of lookahead. */
module ConditionParser {
  import opened Characters
  import opened Logical
  import opened Condition
  import opened ConditionText

  datatype Result = Success(node: Node) | Failure

  class Tokenizer {
    const source: string
    var pos: nat

    ghost predicate Valid()
      reads this
    {
      pos <= |source|
    }

    constructor (input: string)
      ensures Valid() && source == input && pos == 0
    {
      source := input;
      pos := 0;
    }

    method SkipWhitespace()
      requires Valid()
      modifies this`pos
      ensures Valid() && pos == old(pos) + Span(IsSpace, source[old(pos)..])
    {
      SkipWhile(IsSpace);
    }

    /** Advances while the current character satisfies `p`. */
    method SkipWhile(p: char -> bool)
      requires Valid()
      modifies this`pos
      ensures Valid() && pos == old(pos) + Span(p, source[old(pos)..])
    {
      while pos < |source| && p(source[pos])
        invariant Valid() && old(pos) <= pos
        invariant pos - old(pos) + Span(p, source[pos..]) == Span(p, source[old(pos)..])
        decreases |source| - pos
      {
        assert source[pos..][1..] == source[pos + 1..];
        pos := pos + 1;
      }
    }

    method NextToken() returns (t: Token)
      requires Valid()
      modifies this`pos
      ensures Valid()
      ensures ConditionText.NextToken(source[old(pos)..]) == (t, pos - old(pos))
    {
      hide Span;
      SkipWhitespace();
      ghost var u := source[pos..];
      assert source[old(pos)..][pos - old(pos)..] == u;
      t := Scan();
    }

    /** The token at the current position, which is not a space. */
    method Scan() returns (t: Token)
      requires Valid()
      modifies this`pos
      ensures Valid() && old(pos) <= pos
      ensures TokenAt(source[old(pos)..]) == (t, pos - old(pos))
    {
      hide Span;
      ghost var u := source[pos..];
      if pos >= |source| {
        return EndOfInput;
      }
      var current := source[pos];
      if current == '(' { pos := pos + 1; return LeftParen; }
      if current == ')' { pos := pos + 1; return RightParen; }
      if current == '{' {
        t := ScanLiteral();
        return;
      }
      if current == '!' {
        pos := pos + 1;
        if pos < |source| {
          if source[pos] == '&' { pos := pos + 1; return OperatorNand; }
          if source[pos] == '|' { pos := pos + 1; return OperatorNor; }
          if source[pos] == '^' { pos := pos + 1; return OperatorXnor; }
        }
        return OperatorNot;
      }
      if current == '&' { pos := pos + 1; return OperatorAnd; }
      if current == '|' { pos := pos + 1; return OperatorOr; }
      if current == '^' { pos := pos + 1; return OperatorXor; }
      if current == '-' {
        pos := pos + 1;
        if pos < |source| && source[pos] == '>' { pos := pos + 1; return OperatorImplyRight; }
        return Error;
      }
      if current == '<' {
        pos := pos + 1;
        if pos < |source| && source[pos] == '-' { pos := pos + 1; return OperatorImplyLeft; }
        return Error;
      }
      if IsAlphaNum(current) {
        var start := pos;
        SkipWhile(IsAlphaNum);
        assert source[start..pos] == u[..pos - start];
        return Identifier(source[start..pos]);
      }
      t := Error;
    }

    /** A constant in braces, up to the closing one. */
    method ScanLiteral() returns (t: Token)
      requires Valid() && pos < |source| && source[pos] == '{'
      modifies this`pos
      ensures Valid() && old(pos) <= pos
      ensures TokenAt(source[old(pos)..]) == (t, pos - old(pos))
    {
      hide Span;
      ghost var u := source[pos..];
      pos := pos + 1;
      var start := pos;
      var inBraces := c => c != '}';
      SkipWhile(inBraces);
      assert source[start..] == u[1..];
      var literal := source[start..pos];
      assert literal == u[1..1 + (pos - start)];
      if pos < |source| && source[pos] == '}' {
        pos := pos + 1;
        if literal == "true" || literal == "false" || literal == "1" || literal == "0" {
          return BoolLiteral(literal == "true" || literal == "1");
        } else {
          return Error;
        }
      }
      t := Error;
    }
  }

  /** A parsing method has done what the grammar function says: same tree, or failure, and the
      tokens that are left. */
  ghost predicate Outcome(p: Parsed, r: Result, left: seq<Token>) {
    if p.Ok? then r == Success(p.node) && left == p.rest else r == Failure
  }

  class Parser {
    const tokenizer: Tokenizer
    var currentToken: Token

    ghost predicate Valid()
      reads this, tokenizer
    {
      tokenizer.Valid()
    }

    /** The current token and all that are to come. */
    ghost function View(): seq<Token>
      reads this, tokenizer
      requires Valid()
    {
      if Final(currentToken) then [currentToken]
      else [currentToken] + Lex(tokenizer.source[tokenizer.pos..])
    }

    constructor (input: string)
      ensures Valid() && fresh(tokenizer) && View() == Lex(input)
    {
      hide ConditionText.NextToken;
      var t := new Tokenizer(input);
      assert input[0..] == input;
      var first := t.NextToken();
      tokenizer := t;
      currentToken := first;
      new;
      LexStep(input, first, t.pos);
    }

    method Advance()
      requires Valid() && !Final(currentToken)
      modifies this`currentToken, tokenizer`pos
      ensures Valid() && View() == old(View())[1..]
    {
      hide ConditionText.NextToken;
      ghost var u := tokenizer.source[tokenizer.pos..];
      currentToken := tokenizer.NextToken();
      LexStep(u, currentToken, tokenizer.pos - old(tokenizer.pos));
      assert u[tokenizer.pos - old(tokenizer.pos)..] == tokenizer.source[tokenizer.pos..];
    }

    /** An expression may be followed by anything; the rest of the text is not looked at. */
    method Parse() returns (r: Result)
      requires Valid()
      modifies this`currentToken, tokenizer`pos
      ensures Valid() && Outcome(ConditionText.ParseImply(old(View())), r, View())
    {
      r := ParseImply();
    }

    method ParsePrimary() returns (r: Result)
      requires Valid()
      modifies this`currentToken, tokenizer`pos
      ensures Valid() && Outcome(ConditionText.ParsePrimary(old(View())), r, View())
      decreases |View()|, 0
    {
      hide ConditionText.ParseImply, Lex;
      if currentToken == OperatorNot {
        Advance();
        var child := ParsePrimary();
        if child.Failure? {
          return Failure;
        }
        return Success(Unary(child.node));
      }
      if currentToken == LeftParen {
        Advance();
        var inner := ParseImply();
        if inner.Failure? || currentToken != RightParen {
          return Failure;
        }
        Advance();
        return inner;
      }
      if currentToken.Identifier? {
        var id := currentToken.id;
        Advance();
        if currentToken == OperatorNot {
          Advance();
          return Success(Unary(Func(id)));
        }
        return Success(Func(id));
      }
      if currentToken.BoolLiteral? {
        var value := currentToken.value;
        Advance();
        return Success(Bool(value));
      }
      r := Failure;
    }

    method ParseAnd() returns (r: Result)
      requires Valid()
      modifies this`currentToken, tokenizer`pos
      ensures Valid() && Outcome(ConditionText.ParseAnd(old(View())), r, View())
      decreases |View()|, 1
    {
      hide ConditionText.ParsePrimary, Lex;
      var first := ParsePrimary();
      if first.Failure? {
        return Failure;
      }
      var left := first.node;
      while IsAnd(currentToken)
        invariant Valid() && |View()| < |old(View())|
        invariant AndLoop(left, View()) == ConditionText.ParseAnd(old(View()))
        decreases |View()|
      {
        var op := currentToken;
        Advance();
        var right := ParsePrimary();
        if right.Failure? {
          return Failure;
        }
        left := Binary(LogicalOp(op), left, right.node);
      }
      r := Success(left);
    }

    method ParseOrXor() returns (r: Result)
      requires Valid()
      modifies this`currentToken, tokenizer`pos
      ensures Valid() && Outcome(ConditionText.ParseOrXor(old(View())), r, View())
      decreases |View()|, 2
    {
      hide ConditionText.ParseAnd, Lex;
      var first := ParseAnd();
      if first.Failure? {
        return Failure;
      }
      var left := first.node;
      while IsOrXor(currentToken)
        invariant Valid() && |View()| < |old(View())|
        invariant OrXorLoop(left, View()) == ConditionText.ParseOrXor(old(View()))
        decreases |View()|
      {
        var op := currentToken;
        Advance();
        var right := ParseAnd();
        if right.Failure? {
          return Failure;
        }
        left := Binary(LogicalOp(op), left, right.node);
      }
      r := Success(left);
    }

    method ParseImply() returns (r: Result)
      requires Valid()
      modifies this`currentToken, tokenizer`pos
      ensures Valid() && Outcome(ConditionText.ParseImply(old(View())), r, View())
      decreases |View()|, 3
    {
      hide ConditionText.ParseOrXor, Lex;
      var first := ParseOrXor();
      if first.Failure? {
        return Failure;
      }
      var left := first.node;
      while IsImplyToken(currentToken)
        invariant Valid() && |View()| < |old(View())|
        invariant ImplyLoop(left, View()) == ConditionText.ParseImply(old(View()))
        decreases |View()|
      {
        var op := currentToken;
        Advance();
        var right := ParseOrXor();
        if right.Failure? {
          return Failure;
        }
        left := Binary(LogicalOp(op), left, right.node);
      }
      r := Success(left);
    }
  }

  lemma LexStep(u: string, t: Token, n: nat)
    requires ConditionText.NextToken(u) == (t, n)
    ensures Lex(u) == if Final(t) then [t] else [t] + Lex(u[n..])
  {}

  /** `parse` on a text. */
  method ParseText(text: string) returns (r: Result)
    ensures r == match ConditionText.Parse(text) case Ok(n, _) => Success(n) case Unexpected => Failure
  {
    hide Lex;
    var parser := new Parser(text);
    r := parser.Parse();
  }
}
