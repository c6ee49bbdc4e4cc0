/** The language of conditions, generated by its syntax trees, and that the parser accepts just that. */
module ConditionGrammar {
  import opened Characters
  import opened Logical
  import opened Condition
  import opened ConditionText
  import opened Options

  // ----- syntax trees -----

  datatype Syntax =
    | Literal(value: bool)
    | Name(id: string)
    | Postfix(name: string)
    | Negated(operand: Syntax)
    | Parens(inner: Syntax)
    | Infix(operator: Token, left: Syntax, right: Syntax)

  /** How loosely an infix operator binds: conjunctions first, then disjunctions, then implications. */
  function Looseness(t: Token): Option<nat> {
    match t
    case OperatorAnd => Some(1)
    case OperatorNand => Some(1)
    case OperatorOr => Some(2)
    case OperatorXor => Some(2)
    case OperatorNor => Some(2)
    case OperatorXnor => Some(2)
    case OperatorImplyLeft => Some(3)
    case OperatorImplyRight => Some(3)
    case _ => None
  }

  function Level(s: Syntax): nat {
    if s.Infix? && Looseness(s.operator).Some? then Looseness(s.operator).value else 0
  }

  /** Operators of one level group to the left; a negation takes no operator without parentheses. */
  predicate WellFormed(s: Syntax) {
    match s
    case Negated(c) => WellFormed(c) && Level(c) == 0
    case Parens(c) => WellFormed(c)
    case Infix(o, l, r) =>
      Looseness(o).Some? && WellFormed(l) && WellFormed(r)
      && Level(l) <= Looseness(o).value && Level(r) < Looseness(o).value
    case _ => true
  }

  function Tokens(s: Syntax): (ts: seq<Token>)
    ensures ts != []
  {
    match s
    case Literal(b) => [BoolLiteral(b)]
    case Name(id) => [Identifier(id)]
    case Postfix(id) => [Identifier(id), OperatorNot]
    case Negated(c) => [OperatorNot] + Tokens(c)
    case Parens(c) => [LeftParen] + Tokens(c) + [RightParen]
    case Infix(o, l, r) => Tokens(l) + [o] + Tokens(r)
  }

  /** What an infix operator means; the arrows point the way of the implication. */
  function Meaning(t: Token): BinaryOp
    requires Looseness(t).Some?
  {
    match t
    case OperatorAnd => And
    case OperatorOr => Or
    case OperatorXor => Xor
    case OperatorNand => Nand
    case OperatorNor => Nor
    case OperatorXnor => Xnor
    case OperatorImplyLeft => ImplyRight
    case OperatorImplyRight => ImplyLeft
  }

  function TreeOf(s: Syntax): Node
    requires WellFormed(s)
  {
    match s
    case Literal(b) => Bool(b)
    case Name(id) => Func(id)
    case Postfix(id) => Unary(Func(id))
    case Negated(c) => Unary(TreeOf(c))
    case Parens(c) => TreeOf(c)
    case Infix(o, l, r) => Binary(Meaning(o), TreeOf(l), TreeOf(r))
  }

  /** Does the text end in a name, which a negation behind it would join? */
  predicate EndsInName(s: Syntax) {
    match s
    case Name(_) => true
    case Negated(c) => EndsInName(c)
    case Infix(_, _, r) => EndsInName(r)
    case _ => false
  }

  /** Nothing in `more` continues an expression that is read up to this level. */
  predicate Stops(s: Syntax, level: nat, more: seq<Token>) {
    (Looseness(Peek(more)).Some? ==> Looseness(Peek(more)).value > level)
    && (EndsInName(s) ==> Peek(more) != OperatorNot)
  }

  // ----- the parser by levels -----

  function ParseAt(level: nat, ts: seq<Token>): Parsed
    requires level <= 3
  {
    if level == 0 then ParsePrimary(ts)
    else if level == 1 then ParseAnd(ts)
    else if level == 2 then ParseOrXor(ts)
    else ParseImply(ts)
  }

  function LoopAt(level: nat, left: Node, ts: seq<Token>): Parsed
    requires 1 <= level <= 3
  {
    if level == 1 then AndLoop(left, ts) else if level == 2 then OrXorLoop(left, ts) else ImplyLoop(left, ts)
  }

  lemma ParseStep(level: nat, ts: seq<Token>)
    requires 1 <= level <= 3
    ensures ParseAt(level, ts) == match ParseAt(level - 1, ts)
                                  case Ok(n, rest) => LoopAt(level, n, rest)
                                  case Unexpected => Unexpected
    ensures ParseAt(level, ts).Ok? ==> |ParseAt(level, ts).rest| < |ts|
    ensures ParseAt(level - 1, ts).Ok? ==> |ParseAt(level - 1, ts).rest| < |ts|
  {
    hide ParsePrimary, AndLoop, OrXorLoop, ImplyLoop;
  }

  lemma LoopStep(level: nat, left: Node, ts: seq<Token>)
    requires 1 <= level <= 3
    ensures Looseness(Peek(ts)) != Some(level) ==> LoopAt(level, left, ts) == Ok(left, ts)
    ensures Looseness(Peek(ts)) == Some(level) ==>
              LoopAt(level, left, ts) == match ParseAt(level - 1, ts[1..])
                                         case Ok(n, rest) => LoopAt(level, Binary(Meaning(Peek(ts)), left, n), rest)
                                         case Unexpected => Unexpected
  {
    hide ParsePrimary, ParseAnd, ParseOrXor;
  }

  // ----- everything generated is accepted -----

  /** Reading a syntax tree at a level goes on with the loop of that level behind it. */
  lemma {:induction false} Reads(s: Syntax, level: nat, more: seq<Token>)
    requires WellFormed(s) && Level(s) <= level <= 3 && level > 0
    requires Stops(s, level - 1, more)
    ensures ParseAt(level, Tokens(s) + more) == LoopAt(level, TreeOf(s), more)
    decreases s, level, 0
  {
    hide ParseAt, LoopAt, Meaning;
    var ts := Tokens(s) + more;
    ParseStep(level, ts);
    if Level(s) == level {
      var Infix(o, l, r) := s;
      var behind := [o] + (Tokens(r) + more);
      assert ts == Tokens(l) + behind;
      assert Peek(behind) == o && behind[1..] == Tokens(r) + more;
      Reads(l, level, behind);
      LoopStep(level, TreeOf(l), behind);
      if level == 1 { ReadsPrimary(r, more); } else { ReadsOperand(r, level - 1, more); }
    } else if level == 1 {
      ReadsPrimary(s, more);
    } else {
      ReadsOperand(s, level - 1, more);
    }
  }

  lemma ReadsOperand(s: Syntax, level: nat, more: seq<Token>)
    requires WellFormed(s) && Level(s) <= level <= 3 && level > 0 && Stops(s, level, more)
    ensures ParseAt(level, Tokens(s) + more) == Ok(TreeOf(s), more)
    decreases s, level, 1
  {
    hide ParseAt, LoopAt;
    Reads(s, level, more);
    LoopStep(level, TreeOf(s), more);
  }

  lemma {:induction false} ReadsPrimary(s: Syntax, more: seq<Token>)
    requires WellFormed(s) && Level(s) == 0 && (EndsInName(s) ==> Peek(more) != OperatorNot)
    ensures ParseAt(0, Tokens(s) + more) == Ok(TreeOf(s), more)
    decreases s, 0, 0
  {
    hide ParseImply, LoopAt;
    var ts := Tokens(s) + more;
    match s
    case Literal(_) => assert ts[1..] == more;
    case Name(_) => assert ts[1..] == more;
    case Postfix(_) => assert ts[1..][0] == OperatorNot && ts[2..] == more;
    case Negated(c) =>
      assert ts[1..] == Tokens(c) + more;
      ReadsPrimary(c, more);
    case Parens(c) =>
      var behind := [RightParen] + more;
      assert ts[1..] == Tokens(c) + behind;
      assert behind[1..] == more;
      ReadsOperand(c, 3, behind);
  }

  // ----- everything accepted is generated -----

  /** `s` is what was read of `ts`, up to `rest`. */
  ghost predicate Generates(s: Syntax, level: nat, ts: seq<Token>, n: Node, rest: seq<Token>) {
    WellFormed(s) && Level(s) <= level && TreeOf(s) == n && ts == Tokens(s) + rest && Stops(s, level, rest)
  }

  lemma {:induction false} PrimaryGenerated(ts: seq<Token>) returns (s: Syntax)
    requires ParsePrimary(ts).Ok?
    ensures Generates(s, 0, ts, ParsePrimary(ts).node, ParsePrimary(ts).rest)
    decreases |ts|, 0
  {
    hide ParseImply, Generates;
    match ts[0]
    case OperatorNot =>
      var c := PrimaryGenerated(ts[1..]);
      s := Negated(c);
      NegatedGenerates(c, ts, ParsePrimary(ts[1..]).node, ParsePrimary(ts[1..]).rest);
    case LeftParen =>
      var c := Generated(3, ts[1..]);
      s := Parens(c);
      ParensGenerate(c, ts, ParseImply(ts[1..]).node, ParseImply(ts[1..]).rest);
    case _ =>
      s := AtomGenerated(ts);
  }

  lemma NegatedGenerates(c: Syntax, ts: seq<Token>, n: Node, rest: seq<Token>)
    requires ts != [] && ts[0] == OperatorNot && Generates(c, 0, ts[1..], n, rest)
    ensures Generates(Negated(c), 0, ts, Unary(n), rest)
  {
    assert ts == [ts[0]] + ts[1..];
  }

  lemma ParensGenerate(c: Syntax, ts: seq<Token>, n: Node, rest: seq<Token>)
    requires ts != [] && ts[0] == LeftParen && Generates(c, 3, ts[1..], n, rest) && Peek(rest) == RightParen
    ensures Generates(Parens(c), 0, ts, n, rest[1..])
  {
    assert ts == [ts[0]] + ts[1..] && rest == [RightParen] + rest[1..];
    OnlyLevels(rest[1..]);
  }

  /** Every infix operator is on one of the levels. */
  lemma OnlyLevels(ts: seq<Token>)
    ensures Looseness(Peek(ts)).Some? ==> 0 < Looseness(Peek(ts)).value <= 3
  {}

  lemma AtomGenerated(ts: seq<Token>) returns (s: Syntax)
    requires ts != [] && (ts[0].Identifier? || ts[0].BoolLiteral?)
    ensures Generates(s, 0, ts, ParsePrimary(ts).node, ParsePrimary(ts).rest)
  {
    assert ts == [ts[0]] + ts[1..];
    OnlyLevels(ParsePrimary(ts).rest);
    if ts[0].BoolLiteral? {
      s := Literal(ts[0].value);
    } else if Peek(ts[1..]) == OperatorNot {
      assert ts == [ts[0], OperatorNot] + ts[2..];
      s := Postfix(ts[0].id);
    } else {
      s := Name(ts[0].id);
    }
  }

  lemma {:induction false} Generated(level: nat, ts: seq<Token>) returns (s: Syntax)
    requires level <= 3 && ParseAt(level, ts).Ok?
    ensures Generates(s, level, ts, ParseAt(level, ts).node, ParseAt(level, ts).rest)
    decreases |ts|, level + 1
  {
    hide ParsePrimary, ParseAnd, ParseOrXor, ParseImply, AndLoop, OrXorLoop, ImplyLoop;
    if level == 0 {
      s := PrimaryGenerated(ts);
    } else {
      ParseStep(level, ts);
      var first := Generated(level - 1, ts);
      s := LoopGenerated(level, first, ParseAt(level - 1, ts).rest);
    }
  }

  lemma {:induction false} LoopGenerated(level: nat, first: Syntax, ts: seq<Token>) returns (s: Syntax)
    requires 1 <= level <= 3 && WellFormed(first) && Level(first) <= level && Stops(first, level - 1, ts)
    requires LoopAt(level, TreeOf(first), ts).Ok?
    ensures var p := LoopAt(level, TreeOf(first), ts); Generates(s, level, Tokens(first) + ts, p.node, p.rest)
    decreases |ts|, level
  {
    hide ParseAt, LoopAt, Meaning;
    LoopStep(level, TreeOf(first), ts);
    if Looseness(Peek(ts)) != Some(level) {
      s := first;
    } else {
      var o := ts[0];
      ParseStep(level, ts[1..]);
      var operand := Generated(level - 1, ts[1..]);
      var rest := ParseAt(level - 1, ts[1..]).rest;
      assert Tokens(first) + ts == Tokens(Infix(o, first, operand)) + rest;
      s := LoopGenerated(level, Infix(o, first, operand), rest);
    }
  }

  /** The parser accepts exactly what the syntax trees generate, and gives their tree. */
  lemma LanguageExactly(ts: seq<Token>, n: Node, rest: seq<Token>)
    ensures ParseImply(ts) == Ok(n, rest) <==> exists s :: Generates(s, 3, ts, n, rest)
  {
    hide ParseImply;
    if ParseImply(ts) == Ok(n, rest) {
      var s := Generated(3, ts);
    }
    if s :| Generates(s, 3, ts, n, rest) {
      ReadsOperand(s, 3, rest);
    }
  }

  /** The same for a text: what is read is an expression, and what follows does not continue it. */
  lemma TextExactly(text: string, ts: seq<Token>, n: Node, rest: seq<Token>)
    requires ts == Lex(text)
    ensures Parse(text) == Ok(n, rest) <==> exists s :: Generates(s, 3, ts, n, rest)
  {
    hide ParseImply, Generates;
    LanguageExactly(ts, n, rest);
  }

  // ----- as few parentheses as the levels need -----

  function Sign(op: BinaryOp): (t: Token)
    ensures Looseness(t).Some? && Meaning(t) == op
  {
    match op
    case And => OperatorAnd
    case Or => OperatorOr
    case Xor => OperatorXor
    case Nand => OperatorNand
    case Nor => OperatorNor
    case Xnor => OperatorXnor
    case ImplyLeft => OperatorImplyRight
    case ImplyRight => OperatorImplyLeft
  }

  function Written(t: Node, level: nat): Syntax {
    match t
    case Bool(b) => Literal(b)
    case Func(id) => Name(id)
    case Unary(c) => Negated(Written(c, 0))
    case Binary(op, l, r) =>
      var k := Looseness(Sign(op)).value;
      var s := Infix(Sign(op), Written(l, k), Written(r, k - 1));
      if k > level then Parens(s) else s
    case _ => Literal(false)
  }

  lemma {:induction false} WrittenTree(t: Node, level: nat)
    requires Printable(t)
    ensures var s := Written(t, level); WellFormed(s) && Level(s) <= level && TreeOf(s) == t
  {
    match t
    case Unary(c) => WrittenTree(c, 0);
    case Binary(op, l, r) =>
      var k := Looseness(Sign(op)).value;
      WrittenTree(l, k);
      WrittenTree(r, k - 1);
    case _ =>
  }

  /** Written without the parentheses that the levels make needless, every tree is read as it is. */
  lemma WrittenReads(t: Node)
    requires Printable(t)
    ensures ParseImply(Tokens(Written(t, 3)) + [EndOfInput]) == Ok(t, [EndOfInput])
  {
    hide ParseImply, Written;
    WrittenTree(t, 3);
    ReadsOperand(Written(t, 3), 3, [EndOfInput]);
  }

  /** Conjunctions bind before disjunctions, and these before implications, on either side. */
  lemma LevelsDecide(tight: Token, loose: Token, x: Syntax, y: Syntax, z: Syntax)
    requires Looseness(tight).Some? && Looseness(loose).Some? && Looseness(tight).value < Looseness(loose).value
    requires WellFormed(x) && WellFormed(y) && WellFormed(z) && Level(x) == Level(y) == Level(z) == 0
    ensures ParseImply(Tokens(x) + [loose] + Tokens(y) + [tight] + Tokens(z) + [EndOfInput])
            == Ok(Binary(Meaning(loose), TreeOf(x), Binary(Meaning(tight), TreeOf(y), TreeOf(z))), [EndOfInput])
    ensures ParseImply(Tokens(x) + [tight] + Tokens(y) + [loose] + Tokens(z) + [EndOfInput])
            == Ok(Binary(Meaning(loose), Binary(Meaning(tight), TreeOf(x), TreeOf(y)), TreeOf(z)), [EndOfInput])
  {
    hide ParseImply, Meaning, Tokens;
    TightRight(tight, loose, x, y, z);
    TightLeft(tight, loose, x, y, z);
  }

  lemma TightRight(tight: Token, loose: Token, x: Syntax, y: Syntax, z: Syntax)
    requires Looseness(tight).Some? && Looseness(loose).Some? && Looseness(tight).value < Looseness(loose).value
    requires WellFormed(x) && WellFormed(y) && WellFormed(z) && Level(x) == Level(y) == Level(z) == 0
    ensures ParseImply(Tokens(x) + [loose] + Tokens(y) + [tight] + Tokens(z) + [EndOfInput])
            == Ok(Binary(Meaning(loose), TreeOf(x), Binary(Meaning(tight), TreeOf(y), TreeOf(z))), [EndOfInput])
  {
    hide ParseImply, Meaning, Looseness, Tokens;
    var s := Infix(loose, x, Infix(tight, y, z));
    InfixTokens(loose, x, Infix(tight, y, z));
    InfixTokens(tight, y, z);
    LevelBounds(tight);
    LevelBounds(loose);
    NothingFollows(s);
    ReadsOperand(s, 3, [EndOfInput]);
    Six(Tokens(x), [loose], Tokens(y), [tight], Tokens(z), [EndOfInput]);
  }

  lemma TightLeft(tight: Token, loose: Token, x: Syntax, y: Syntax, z: Syntax)
    requires Looseness(tight).Some? && Looseness(loose).Some? && Looseness(tight).value < Looseness(loose).value
    requires WellFormed(x) && WellFormed(y) && WellFormed(z) && Level(x) == Level(y) == Level(z) == 0
    ensures ParseImply(Tokens(x) + [tight] + Tokens(y) + [loose] + Tokens(z) + [EndOfInput])
            == Ok(Binary(Meaning(loose), Binary(Meaning(tight), TreeOf(x), TreeOf(y)), TreeOf(z)), [EndOfInput])
  {
    hide ParseImply, Meaning, Looseness, Tokens;
    var s := Infix(loose, Infix(tight, x, y), z);
    InfixTokens(loose, Infix(tight, x, y), z);
    InfixTokens(tight, x, y);
    LevelBounds(tight);
    LevelBounds(loose);
    NothingFollows(s);
    ReadsOperand(s, 3, [EndOfInput]);
  }

  lemma Six(a: seq<Token>, b: seq<Token>, c: seq<Token>, d: seq<Token>, e: seq<Token>, f: seq<Token>)
    ensures a + b + c + d + e + f == a + b + (c + d + e) + f
  {}

  lemma InfixTokens(o: Token, l: Syntax, r: Syntax)
    ensures Tokens(Infix(o, l, r)) == Tokens(l) + [o] + Tokens(r)
  {}

  lemma LevelBounds(t: Token)
    ensures Looseness(t).Some? ==> 0 < Looseness(t).value <= 3
  {}

  lemma NothingFollows(s: Syntax)
    ensures Stops(s, 3, [EndOfInput])
  {}

  /** Operators of one level group to the left. */
  lemma GroupsLeft(first: Token, second: Token, x: Syntax, y: Syntax, z: Syntax)
    requires Looseness(first).Some? && Looseness(second) == Looseness(first)
    requires WellFormed(x) && WellFormed(y) && WellFormed(z) && Level(x) == Level(y) == Level(z) == 0
    ensures ParseImply(Tokens(x) + [first] + Tokens(y) + [second] + Tokens(z) + [EndOfInput])
            == Ok(Binary(Meaning(second), Binary(Meaning(first), TreeOf(x), TreeOf(y)), TreeOf(z)), [EndOfInput])
  {
    hide ParseImply, Meaning;
    var s := Infix(second, Infix(first, x, y), z);
    ReadsOperand(s, 3, [EndOfInput]);
    assert Tokens(x) + [first] + Tokens(y) + [second] + Tokens(z) + [EndOfInput] == Tokens(s) + [EndOfInput];
  }

  // ----- tokens -----

  /** The spellings of a token. */
  predicate Spells(t: Token, text: string) {
    match t
    case LeftParen => text == "("
    case RightParen => text == ")"
    case OperatorNot => text == "!"
    case OperatorAnd => text == "&"
    case OperatorOr => text == "|"
    case OperatorXor => text == "^"
    case OperatorNand => text == "!&"
    case OperatorNor => text == "!|"
    case OperatorXnor => text == "!^"
    case OperatorImplyLeft => text == "<-"
    case OperatorImplyRight => text == "->"
    case Identifier(id) => text == id && ValidId(id)
    case BoolLiteral(b) => if b then text == "{true}" || text == "{1}" else text == "{false}" || text == "{0}"
    case _ => false
  }

  /** The token is not longer than that. */
  predicate EndsAt(t: Token, rest: string) {
    (t.Identifier? ==> Delimited(rest))
    && (t == OperatorNot ==> rest == [] || (rest[0] != '&' && rest[0] != '|' && rest[0] != '^'))
  }

  /** A text without leading space starts with exactly those tokens that spell its beginning. */
  lemma TokenExactly(t: Token, text: string, rest: string)
    ensures TokenAt(text + rest) == (t, |text|) && !Final(t) <==> Spells(t, text) && EndsAt(t, rest)
  {
    var u := text + rest;
    assert u[..|text|] == text && u[|text|..] == rest;
    if Spells(t, text) && EndsAt(t, rest) {
      SpelledStarts(t, text, rest);
    }
    if TokenAt(u) == (t, |text|) && !Final(t) {
      StartSpelled(u);
    }
  }

  lemma SpelledStarts(t: Token, text: string, rest: string)
    requires Spells(t, text) && EndsAt(t, rest)
    ensures TokenAt(text + rest) == (t, |text|) && !Final(t)
  {
    if t.Identifier? {
      NameStarts(text, rest);
    } else if t.BoolLiteral? {
      LiteralStarts(t.value, text, rest);
    } else {
      SignStarts(t, text, rest);
    }
  }

  lemma NameStarts(id: string, rest: string)
    requires ValidId(id) && Delimited(rest)
    ensures TokenAt(id + rest) == (Identifier(id), |id|)
  {
    var u := id + rest;
    SpanAll(IsAlphaNum, id, rest);
    assert u[..|id|] == id && IsAlphaNum(u[0]);
  }

  lemma SignStarts(t: Token, text: string, rest: string)
    requires Spells(t, text) && EndsAt(t, rest) && !t.Identifier? && !t.BoolLiteral?
    ensures TokenAt(text + rest) == (t, |text|) && !Final(t)
  {}

  lemma LiteralStarts(value: bool, text: string, rest: string)
    requires Spells(BoolLiteral(value), text)
    ensures TokenAt(text + rest) == (BoolLiteral(value), |text|)
  {
    hide TokenAt;
    var word := if text == "{true}" then "true" else if text == "{1}" then "1" else if text == "{false}" then "false" else "0";
    assert text == "{" + word + "}";
    BoolStarts(word, rest);
  }

  lemma BoolStarts(word: string, rest: string)
    requires word == "true" || word == "1" || word == "false" || word == "0"
    ensures TokenAt("{" + word + "}" + rest) == (BoolLiteral(word == "true" || word == "1"), |word| + 2)
  {
    var u := "{" + word + "}" + rest;
    NoBrace(word);
    assert u[1..] == word + ("}" + rest);
    SpanAll(c => c != '}', word, "}" + rest);
    assert u[1..1 + |word|] == word;
  }

  lemma NoBrace(word: string)
    requires word == "true" || word == "1" || word == "false" || word == "0"
    ensures forall i :: 0 <= i < |word| ==> word[i] != '}'
  {}

  lemma StartSpelled(u: string)
    requires !Final(TokenAt(u).0)
    ensures var (t, n) := TokenAt(u); Spells(t, u[..n]) && EndsAt(t, u[n..])
  {
    var (t, n) := TokenAt(u);
    if t.BoolLiteral? {
      var k := Span(c => c != '}', u[1..]);
      assert u[..n] == [u[0]] + u[1..1 + k] + [u[1 + k]];
      assert u[1..][k] == '}';
    }
  }

  /** The names of one character, as codes of ASCII: digits, capitals, `_` and small letters. */
  lemma NameExactly(c: char)
    ensures ValidId([c]) <==> var n := c as int; 48 <= n <= 57 || 65 <= n <= 90 || n == 95 || 97 <= n <= 122
    ensures ValidId([c]) <==> TokenAt([c]) == (Identifier([c]), 1)
  {
    assert ValidId([c]) <==> IsAlphaNum([c][0]);
    assert [c] + [] == [c];
    if ValidId([c]) {
      NameStarts([c], []);
    }
  }

  /** The text of an empty tree is no token, so that nothing around it can be read. */
  lemma EmptyUnreadable(rest: string)
    ensures ToString(Null) == "{" + ("null" + "}") && TokenAt(ToString(Null) + rest) == (Error, 6)
  {
    var u := ToString(Null) + rest;
    assert u[1..] == "null" + ("}" + rest);
    SpanAll(c => c != '}', "null", "}" + rest);
    assert u[1..5] == "null";
  }

  /** There is no token exactly at the end of the text. */
  lemma EndExactly(u: string)
    ensures TokenAt(u).0 == EndOfInput <==> u == []
  {}

  /** Spaces before a token do not matter, and the tokens behind it are those of the rest. */
  lemma LexSpelled(gap: string, t: Token, text: string, rest: string)
    requires Spaces(gap) && Spells(t, text) && EndsAt(t, rest)
    ensures Lex(gap + (text + rest)) == [t] + Lex(rest)
  {
    hide TokenAt, Spells, EndsAt, Lex;
    TokenExactly(t, text, rest);
    FirstCharacter(t, text);
    var u := text + rest;
    LexToken(u, |text|);
    assert u[|text|..] == rest;
    LexSpaces(gap, u);
  }

  lemma {:induction false} LexSpaces(gap: string, u: string)
    requires Spaces(gap)
    ensures Lex(gap + u) == Lex(u)
  {
    if gap == [] {
      assert gap + u == u;
    } else {
      LexSpaces(gap[1..], u);
      OneSpace(gap[0], gap[1..] + u);
      assert gap + u == [gap[0]] + (gap[1..] + u);
    }
  }

  lemma OneSpace(c: char, v: string)
    requires IsSpace(c)
    ensures Lex([c] + v) == Lex(v)
  {
    hide NextToken;
    NextBehind(c, v);
    var n := NextToken(v).1;
    assert ([c] + v)[n + 1..] == v[n..];
  }

  lemma NextBehind(c: char, v: string)
    requires IsSpace(c)
    ensures NextToken([c] + v) == (NextToken(v).0, NextToken(v).1 + 1)
  {
    hide TokenAt;
    var (u, n) := ([c] + v, Span(IsSpace, v));
    assert u[1..] == v;
    assert Span(IsSpace, u) == n + 1;
    assert u[n + 1..] == v[n..];
  }

  lemma FirstCharacter(t: Token, text: string)
    requires Spells(t, text)
    ensures text != [] && !IsSpace(text[0])
  {}
}
