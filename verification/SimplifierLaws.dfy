/** Which rule the simplifier applies to an operator, read off the simplified operands. */
module SimplifierLaws {
  import opened Logical
  import opened Condition
  import opened Simplifier

  // ----- constants -----

  /** A tree over the operators !, &, | and ^. */
  predicate Plain(t: Node) {
    match t
    case Bool(_) => true
    case Func(_) => true
    case Unary(c) => Plain(c)
    case Binary(op, l, r) => op in {And, Or, Xor} && Plain(l) && Plain(r)
    case _ => false
  }

  predicate ConstantFree(t: Node) {
    match t
    case Bool(_) => false
    case Unary(c) => ConstantFree(c)
    case Binary(_, l, r) => ConstantFree(l) && ConstantFree(r)
    case _ => true
  }

  predicate Reduced(t: Node) {
    t.Bool? || ConstantFree(t)
  }

  lemma {:induction false} PlainWhole(t: Node)
    requires Plain(t)
    ensures t.Intact() && t.Evaluable() && !Disturbs(t) && !Poisonous(t)
  {
    match t
    case Unary(c) => PlainWhole(c);
    case Binary(op, l, r) =>
      PlainWhole(l);
      PlainWhole(r);
    case _ =>
  }

  lemma NotReduced(s: Node)
    requires Reduced(s)
    ensures Reduced(SimplifyNot(s))
  {
    if s.Binary? {
      var (l, r) := (s.left, s.right);
      assert ConstantFree(l) && ConstantFree(r);
      assert l.Unary? ==> ConstantFree(l.child);
      assert r.Unary? ==> ConstantFree(r.child);
    }
  }

  lemma RulesReduced(l: Node, r: Node)
    requires l.Intact() && r.Intact() && ConstantFree(l) && ConstantFree(r)
    ensures CombineTerms(l, r).Rewritten? ==> ConstantFree(CombineTerms(l, r).tree)
    ensures Absorb(l, r).Rewritten? ==> ConstantFree(Absorb(l, r).tree)
  {
    hide SameTree, NegationOf;
    assert l.Binary? ==> ConstantFree(l.left) && ConstantFree(l.right);
    assert r.Binary? ==> ConstantFree(r.left) && ConstantFree(r.right);
  }

  lemma OrReduced(l: Node, r: Node)
    requires l.Intact() && r.Intact() && Reduced(l) && Reduced(r)
    ensures Reduced(ApplyAnd(l, r)) && Reduced(ApplyOr(l, r)) && (!(l.Bool? && r.Bool?) ==> Reduced(ApplyXor(l, r)))
  {
    hide SameTree, NegationOf, CombineTerms, Absorb;
    if !l.Bool? && !r.Bool? { RulesReduced(l, r); }
  }

  /** Of a tree over !, &, | and ^ a constant remains, or a tree without constants. */
  lemma {:induction false} NoConstantLeft(t: Node)
    requires Plain(t)
    ensures t.Intact() && Simplify(t).Done? && Reduced(Simplify(t).result)
  {
    hide SimplifyNot, ApplyAnd, ApplyOr, ApplyXor, Reduced;
    PlainWhole(t);
    MovesExactly(t);
    match t
    case Unary(c) =>
      NoConstantLeft(c);
      NotReduced(Simplify(c).result);
    case Binary(op, l, r) =>
      NoConstantLeft(l);
      NoConstantLeft(r);
      OrReduced(Simplify(l).result, Simplify(r).result);
      ConstantsReduced();
    case _ =>
      LeafReduced(t);
  }

  lemma ConstantsReduced()
    ensures forall b :: Reduced(Bool(b))
  {}

  lemma LeafReduced(t: Node)
    requires t.Bool? || t.Func?
    ensures Reduced(t)
  {}

  // ----- laws, for the simplified operands `l` and `r` of an operator -----

  /** What the operands simplify to. */
  ghost predicate Operands(t: Node, u: Node, l: Node, r: Node) {
    t.Intact() && u.Intact()
    && Simplify(t).Done? && Simplify(t).result == l && Simplify(u).Done? && Simplify(u).result == r
  }

  /** The simplified form of the two trees under an operator that is not negated. */
  function Joined(op: BinaryOp, t: Node, u: Node): (s: Node)
    requires t.Intact() && u.Intact() && Simplify(t).Done? && Simplify(u).Done? && !IsNot(op)
    ensures Simplify(Binary(op, t, u)).Done?
  {
    Simplify(Binary(op, t, u)).result
  }

  lemma JoinedIs(op: BinaryOp, t: Node, u: Node, l: Node, r: Node)
    requires Operands(t, u, l, r) && !IsNot(op)
    ensures l.Intact() && r.Intact() && Joined(op, t, u) == Combine(l, r, op)
  {
    hide Combine;
  }

  lemma {:induction false} SameSize(l: Node, r: Node)
    requires l.Intact() && r.Intact() && SameTree(l, r)
    ensures l.Size() == r.Size() && (l.Bool? <==> r.Bool?)
    decreases l
  {
    match (l, r)
    case (Unary(a), Unary(b)) => SameSize(a, b);
    case (Binary(op, a, b), Binary(op', c, d)) =>
      if SameTree(a, c) && SameTree(b, d) {
        SameSize(a, c);
        SameSize(b, d);
      } else {
        SameSize(a, d);
        SameSize(b, c);
      }
    case _ =>
  }

  /** No tree is the same as its own negation. */
  lemma SameNotNegation(l: Node, r: Node)
    requires l.Intact() && r.Intact() && SameTree(l, r)
    ensures !NegationOf(l, r)
  {
    hide SameTree;
    SameSize(l, r);
    if l.Unary? && SameTree(l.child, r) { SameSize(l.child, r); }
    if r.Unary? && SameTree(l, r.child) { SameSize(l, r.child); }
  }

  /** Constants are folded under every operator. */
  lemma ConstantsFold(op: BinaryOp, t: Node, u: Node, l: Node, r: Node)
    requires Operands(t, u, l, r) && !IsNot(op) && l.Bool? && r.Bool?
    ensures Joined(op, t, u) == Bool(LoEval(op, l.value, r.value))
  {
    hide Simplify, Joined;
    JoinedIs(op, t, u, l, r);
  }

  /** And: a false operand, operands of which one negates the other, a true operand, equal operands;
      in all other cases the conjunction stays. */
  lemma AndLaws(t: Node, u: Node, l: Node, r: Node)
    requires Operands(t, u, l, r)
    ensures l == Bool(false) || r == Bool(false) ==> Joined(And, t, u) == Bool(false)
    ensures !l.Bool? && !r.Bool? && NegationOf(l, r) ==> Joined(And, t, u) == Bool(false)
    ensures l == Bool(true) ==> Joined(And, t, u) == r
    ensures r == Bool(true) ==> Joined(And, t, u) == l
    ensures SameTree(l, r) ==> Joined(And, t, u) == l
    ensures !l.Bool? && !r.Bool? && !NegationOf(l, r) && !SameTree(l, r) ==> Joined(And, t, u) == Binary(And, l, r)
  {
    hide Simplify, Joined, SameTree, NegationOf;
    JoinedIs(And, t, u, l, r);
    if SameTree(l, r) {
      SameNotNegation(l, r);
      SameSize(l, r);
      if l.Bool? { BoolsSame(l, r); }
    }
  }

  lemma BoolsSame(l: Node, r: Node)
    requires l.Intact() && r.Intact() && SameTree(l, r) && l.Bool?
    ensures l == r
  {}

  /** Or: the duals, and where none of them applies the two rules below decide. */
  lemma OrLaws(t: Node, u: Node, l: Node, r: Node)
    requires Operands(t, u, l, r)
    ensures l == Bool(true) || r == Bool(true) ==> Joined(Or, t, u) == Bool(true)
    ensures !l.Bool? && !r.Bool? && NegationOf(l, r) ==> Joined(Or, t, u) == Bool(true)
    ensures l == Bool(false) ==> Joined(Or, t, u) == r
    ensures r == Bool(false) ==> Joined(Or, t, u) == l
    ensures SameTree(l, r) ==> Joined(Or, t, u) == l
  {
    hide Simplify, Joined, SameTree, NegationOf, CombineTerms, Absorb;
    JoinedIs(Or, t, u, l, r);
    if SameTree(l, r) {
      SameNotNegation(l, r);
      SameSize(l, r);
      if l.Bool? { BoolsSame(l, r); }
    }
  }

  /** None of the laws above applies to a disjunction. */
  predicate Open(l: Node, r: Node)
    requires l.Intact() && r.Intact()
  {
    !l.Bool? && !r.Bool? && !NegationOf(l, r) && !SameTree(l, r)
  }

  /** (a & b) | (a & !b) is a, and the same with the operands of the second conjunction exchanged. */
  lemma CommonOperand(t: Node, u: Node, a: Node, b: Node, c: Node, d: Node)
    requires Operands(t, u, Binary(And, a, b), Binary(And, c, d)) && Open(Binary(And, a, b), Binary(And, c, d))
    ensures SameTree(a, c) && NegationOf(b, d) ==> Joined(Or, t, u) == a
    ensures !SameTree(a, c) && SameTree(a, d) && NegationOf(b, c) ==> Joined(Or, t, u) == a
    ensures !(SameTree(a, c) && NegationOf(b, d)) && !(!SameTree(a, c) && SameTree(a, d) && NegationOf(b, c)) ==>
              Joined(Or, t, u) == Binary(Or, Binary(And, a, b), Binary(And, c, d))
  {
    hide Simplify, Joined, NegationOf;
    var (l, r) := (Binary(And, a, b), Binary(And, c, d));
    JoinedIs(Or, t, u, l, r);
    assert SameTree(l, r) <==> (SameTree(a, c) && SameTree(b, d)) || (SameTree(a, d) && SameTree(b, c));
  }

  /** a | (!a & b) is a | b and a | (a & b) is a, for a function a in front of a conjunction. */
  lemma AbsorbRight(t: Node, u: Node, a: Node, x: Node, y: Node)
    requires a.Func? && Operands(t, u, a, Binary(And, x, y))
    ensures NegationOf(a, x) ==> Joined(Or, t, u) == Binary(Or, a, y)
    ensures !NegationOf(a, x) && NegationOf(a, y) ==> Joined(Or, t, u) == Binary(Or, a, x)
    ensures !NegationOf(a, x) && !NegationOf(a, y) && (SameTree(a, x) || SameTree(a, y)) ==> Joined(Or, t, u) == a
    ensures !NegationOf(a, x) && !NegationOf(a, y) && !SameTree(a, x) && !SameTree(a, y) ==>
              Joined(Or, t, u) == Binary(Or, a, Binary(And, x, y))
  {
    hide Simplify, Joined;
    JoinedIs(Or, t, u, a, Binary(And, x, y));
  }

  /** Behind it only the second rule is there. */
  lemma AbsorbLeft(t: Node, u: Node, x: Node, y: Node, a: Node)
    requires a.Func? && Operands(t, u, Binary(And, x, y), a)
    ensures SameTree(a, x) || SameTree(a, y) ==> Joined(Or, t, u) == a
    ensures !SameTree(a, x) && !SameTree(a, y) ==> Joined(Or, t, u) == Binary(Or, Binary(And, x, y), a)
  {
    hide Simplify, Joined;
    JoinedIs(Or, t, u, Binary(And, x, y), a);
  }

  predicate IsConjunction(n: Node) {
    n.Binary? && n.op == And
  }

  /** Where there is no conjunction to work on, the disjunction stays. */
  lemma OrStays(t: Node, u: Node, l: Node, r: Node)
    requires Operands(t, u, l, r) && Open(l, r)
    requires !IsConjunction(l) || !(IsConjunction(r) || r.Func?)
    requires !IsConjunction(r) || !(IsConjunction(l) || l.Func?)
    ensures Joined(Or, t, u) == Binary(Or, l, r)
  {
    hide Simplify, Joined, SameTree, NegationOf;
    JoinedIs(Or, t, u, l, r);
    assert l.Intact() && r.Intact();
  }

  lemma XorLaws(t: Node, u: Node, l: Node, r: Node)
    requires Operands(t, u, l, r) && !(l.Bool? && r.Bool?)
    ensures l == Bool(false) ==> Joined(Xor, t, u) == r
    ensures r == Bool(false) ==> Joined(Xor, t, u) == l
    ensures l == Bool(true) ==> Joined(Xor, t, u) == Unary(r)
    ensures r == Bool(true) ==> Joined(Xor, t, u) == Unary(l)
    ensures !l.Bool? && !r.Bool? ==> Joined(Xor, t, u) == Binary(Xor, l, r)
  {
    hide Simplify, Joined;
    JoinedIs(Xor, t, u, l, r);
  }

  /** a -> a, {false} -> r and {true} -> r; a constant on the right alone stays. */
  lemma ImplyLeftLaws(t: Node, u: Node, l: Node, r: Node)
    requires Operands(t, u, l, r)
    ensures l.Func? && l == r ==> Joined(ImplyLeft, t, u) == Bool(true)
    ensures l == Bool(false) ==> Joined(ImplyLeft, t, u) == Bool(true)
    ensures l == Bool(true) ==> Joined(ImplyLeft, t, u) == r
    ensures !(l.Func? && l == r) && !l.Bool? ==> Joined(ImplyLeft, t, u) == Binary(ImplyLeft, l, r)
  {
    hide Simplify, Joined;
    JoinedIs(ImplyLeft, t, u, l, r);
  }

  /** a <- a; a constant on the right alone is taken for the other side; one on the left alone stays. */
  lemma ImplyRightLaws(t: Node, u: Node, l: Node, r: Node)
    requires Operands(t, u, l, r) && !(l.Bool? && r.Bool?)
    ensures l.Func? && l == r ==> Joined(ImplyRight, t, u) == Bool(true)
    ensures r == Bool(true) ==> Joined(ImplyRight, t, u) == Bool(true)
    ensures r == Bool(false) ==> Joined(ImplyRight, t, u) == l
    ensures !(l.Func? && l == r) && !r.Bool? ==> Joined(ImplyRight, t, u) == Binary(ImplyRight, l, r)
  {
    hide Simplify, Joined;
    JoinedIs(ImplyRight, t, u, l, r);
  }

  /** Negated operators: only constants are folded, unless De Morgan's shape is there. */
  lemma NegatedStays(op: BinaryOp, t: Node, u: Node, l: Node, r: Node)
    requires Operands(t, u, l, r) && IsNot(op) && !BothNegated(op, t, u) && !Poisonous(Binary(op, t, u))
    ensures Simplify(Binary(op, t, u)).Done?
    ensures Simplify(Binary(op, t, u)).result
            == if l.Bool? && r.Bool? then Bool(LoEval(op, l.value, r.value)) else Binary(op, l, r)
  {
    hide SameTree, NegationOf;
    assert Simplify(t).residue.Unary? <==> t.Unary?;
  }

  /** !x !& !y is x | y and !x !| !y is x & y, the operands as they were. */
  lemma DeMorgan(x: Node, y: Node)
    requires x.Intact() && y.Intact() && !Disturbs(x)
    ensures Simplify(Binary(Nand, Unary(x), Unary(y))).Done?
    ensures Simplify(Binary(Nand, Unary(x), Unary(y))).result == Binary(Or, x, y)
    ensures Simplify(Binary(Nor, Unary(x), Unary(y))).Done?
    ensures Simplify(Binary(Nor, Unary(x), Unary(y))).result == Binary(And, x, y)
  {
    hide SimplifyNot;
    MovesExactly(Unary(x));
    if Poisonous(x) { PoisonousDisturbs(x); }
  }

  /** A negation goes into constants, negations and operators; only implications, functions and empty
      trees keep it in front. */
  lemma NotLaws(t: Node)
    requires t.Intact() && Simplify(t).Done?
    ensures Simplify(Unary(t)).Done?
    ensures var (s, n) := (Simplify(t).result, Simplify(Unary(t)).result);
            && (s.Bool? ==> n == Bool(!s.value))
            && (s.Unary? ==> n == s.child)
            && (s.Binary? && s.op == And && s.left.Unary? && s.right.Unary? ==> n == Binary(Or, s.left.child, s.right.child))
            && (s.Binary? && s.op == Or && s.left.Unary? && s.right.Unary? ==> n == Binary(And, s.left.child, s.right.child))
            && (s.Binary? && IsNot(s.op) ==> n == Binary(BaseOp(s.op), s.left, s.right))
            && (s.Binary? && s.op == Xor ==> n == Binary(Xnor, s.left, s.right))
            && (s.Binary? && s.op in {And, Or} && !(s.left.Unary? && s.right.Unary?) ==> n == Binary(AddNot(s.op), s.left, s.right))
            && (s.Func? || (s.Binary? && IsImply(s.op)) || s.Null? ==> n == Unary(s))
  {}
}
