/** The rewriting simplifier of condition trees, including what its moves do to the source tree. */
module Simplifier {
  import opened Logical
  import opened Condition

  /** A rule either applies and yields a tree, or leaves the decision to the next one. */
  datatype Rule = Rewritten(tree: Node) | NoMatch

  function SimplifyNot(child: Node): Node {
    match child
    case Bool(b) => Bool(!b)
    case Unary(x) => x
    case Binary(op, l, r) =>
      if op == And && l.Unary? && r.Unary? then Binary(Or, l.child, r.child)
      else if op == Or && l.Unary? && r.Unary? then Binary(And, l.child, r.child)
      else if IsNot(op) then Binary(BaseOp(op), l, r)
      else if !IsImply(op) then Binary(AddNot(op), l, r)
      else Unary(child)
    case _ => Unary(child)
  }

  predicate IsConst(n: Node, b: bool) {
    n == Bool(b)
  }

  function ApplyAnd(l: Node, r: Node): Node
    requires l.Intact() && r.Intact()
  {
    if IsConst(l, false) || IsConst(r, false) then Bool(false)
    else if IsConst(l, true) then r
    else if IsConst(r, true) then l
    else if NegationOf(l, r) then Bool(false)
    else if SameTree(l, r) then l
    else Binary(And, l, r)
  }

  /** (A & B) | (A & C) with C equal to B or to its negation, A at the left of the first conjunct. */
  function CombineTerms(l: Node, r: Node): Rule
    requires l.Intact() && r.Intact()
  {
    if !(l.Binary? && l.op == And && r.Binary? && r.op == And) then NoMatch
    else if SameTree(l.left, r.left) then
      if NegationOf(l.right, r.right) then Rewritten(l.left)
      else if SameTree(l.right, r.right) then Rewritten(l)
      else NoMatch
    else if SameTree(l.left, r.right) then
      if NegationOf(l.right, r.left) then Rewritten(l.left)
      else if SameTree(l.right, r.left) then Rewritten(l)
      else NoMatch
    else NoMatch
  }

  /** A | (!A & B) and A | (A & B) for an endpoint A, and the latter mirrored. */
  function Absorb(l: Node, r: Node): Rule
    requires l.Intact() && r.Intact()
  {
    if l.IsEndpoint() && r.Binary? && r.op == And && NegationOf(l, r.left) then Rewritten(Binary(Or, l, r.right))
    else if l.IsEndpoint() && r.Binary? && r.op == And && NegationOf(l, r.right) then Rewritten(Binary(Or, l, r.left))
    else if l.IsEndpoint() && r.Binary? && r.op == And && (SameTree(l, r.left) || SameTree(l, r.right)) then Rewritten(l)
    else if r.IsEndpoint() && l.Binary? && l.op == And && (SameTree(r, l.left) || SameTree(r, l.right)) then Rewritten(r)
    else NoMatch
  }

  function ApplyOr(l: Node, r: Node): Node
    requires l.Intact() && r.Intact()
  {
    if IsConst(l, true) || IsConst(r, true) then Bool(true)
    else if IsConst(l, false) then r
    else if IsConst(r, false) then l
    else if NegationOf(l, r) then Bool(true)
    else if SameTree(l, r) then l
    else
      match CombineTerms(l, r)
      case Rewritten(t) => t
      case NoMatch =>
        match Absorb(l, r)
        case Rewritten(t) => t
        case NoMatch => Binary(Or, l, r)
  }

  function ApplyXor(l: Node, r: Node): Node {
    if IsConst(l, false) then r
    else if IsConst(r, false) then l
    else if IsConst(l, true) then Unary(r)
    else if IsConst(r, true) then Unary(l)
    else Binary(Xor, l, r)
  }

  function ApplyImplyLeft(l: Node, r: Node): Node {
    if SameFunction(l, r) then Bool(true)
    else if IsConst(l, true) then r
    else if IsConst(l, false) then Bool(true)
    else Binary(ImplyLeft, l, r)
  }

  /** The two constant arms are those of the opposite direction; see `ImplyRightExactly`. */
  function ApplyImplyRight(l: Node, r: Node): Node {
    if SameFunction(l, r) then Bool(true)
    else if IsConst(r, true) then Bool(true)
    else if IsConst(r, false) then l
    else Binary(ImplyRight, l, r)
  }

  function ApplyIdentities(l: Node, r: Node, op: BinaryOp): Node
    requires l.Intact() && r.Intact()
  {
    match op
    case And => ApplyAnd(l, r)
    case Or => ApplyOr(l, r)
    case Xor => ApplyXor(l, r)
    case ImplyLeft => ApplyImplyLeft(l, r)
    case ImplyRight => ApplyImplyRight(l, r)
    case _ => Binary(op, l, r)
  }

  /** Constant folding first, then the identities. */
  function Combine(l: Node, r: Node, op: BinaryOp): Node
    requires l.Intact() && r.Intact()
  {
    if l.Bool? && r.Bool? then Bool(LoEval(op, l.value, r.value))
    else ApplyIdentities(l, r, op)
  }

  // ----- the recursion, with its effect on the source tree -----

  /** What is left of a node after its contents have been moved elsewhere. */
  function MovedFrom(n: Node): Node {
    match n
    case Func(_) => HollowFunc
    case Unary(_) => HollowLogical
    case Binary(_, _, _) => HollowLogical
    case _ => n
  }

  /** `simplify` returns a tree and leaves a residue of the (const) source tree behind.  `Poisoned`
      means that it has put a node into the result out of which an earlier step had moved. */
  datatype Outcome = Done(result: Node, residue: Node) | Poisoned

  /** !A !& !B and !A !| !B, the shapes that De Morgan's laws are applied to. */
  predicate BothNegated(op: Op, l: Node, r: Node) {
    (op == Nand || op == Nor) && l.Unary? && r.Unary?
  }

  function Dual(op: Op): BinaryOp {
    if op == Nand then Or else And
  }

  function Simplify(t: Node): (o: Outcome)
    requires t.Intact()
    ensures o.Done? ==> o.result.Intact()
    ensures o.Done? && t.Unary? ==> o.residue.Unary?
    ensures o.Done? && !t.Unary? ==> !o.residue.Unary?
  {
    match t
    case Unary(c) => (
      match Simplify(c)
      case Poisoned => Poisoned
      case Done(s, c') => NotIntact(s); Done(SimplifyNot(s), Unary(c'))
    )
    case Binary(op, l, r) => (
      match Simplify(l)
      case Poisoned => Poisoned
      case Done(sl, l') =>
        // from here on the left operand is what its own simplification has left of it
        if BothNegated(op, l', r) then
          if !l'.child.Intact() then Poisoned
          else
            ChildIntact(r);
            Done(Binary(Dual(op), l'.child, r.child),
                    Binary(op, Unary(MovedFrom(l'.child)), Unary(MovedFrom(r.child))))
        else
          match Simplify(r)
          case Poisoned => Poisoned
          case Done(sr, r') => CombineIntact(sl, sr, op); Done(Combine(sl, sr, op), Binary(op, l', r'))
    )
    case _ => Done(t, t)
  }

  lemma NotIntact(child: Node)
    requires child.Intact()
    ensures SimplifyNot(child).Intact()
  {}

  lemma ChildIntact(n: Node)
    requires n.Intact() && n.Unary?
    ensures n.child.Intact()
  {}

  lemma AndOrIntact(l: Node, r: Node)
    requires l.Intact() && r.Intact()
    ensures ApplyAnd(l, r).Intact() && ApplyOr(l, r).Intact()
  {
    hide SameTree, NegationOf;
  }

  lemma CombineIntact(l: Node, r: Node, op: BinaryOp)
    requires l.Intact() && r.Intact()
    ensures Combine(l, r, op).Intact()
  {
    hide ApplyAnd, ApplyOr;
    AndOrIntact(l, r);
  }

  // ----- each rewrite preserves the truth value -----

  lemma NotSound(child: Node, env: Env)
    requires child.Evaluable()
    ensures SimplifyNot(child).Evaluable()
    ensures Eval(SimplifyNot(child), env) == !Eval(child, env)
  {}

  lemma CombineTermsSound(l: Node, r: Node, env: Env)
    requires l.Intact() && r.Intact() && l.Evaluable() && r.Evaluable()
    requires CombineTerms(l, r).Rewritten?
    ensures CombineTerms(l, r).tree.Evaluable()
    ensures Eval(CombineTerms(l, r).tree, env) == (Eval(l, env) || Eval(r, env))
  {
    var c := if SameTree(l.left, r.left) then r.right else r.left;
    var a := if SameTree(l.left, r.left) then r.left else r.right;
    SameTreeSound(l.left, a, env);
    if NegationOf(l.right, c) {
      NegationSound(l.right, c, env);
    } else {
      SameTreeSound(l.right, c, env);
    }
  }

  lemma AbsorbSound(l: Node, r: Node, env: Env)
    requires l.Intact() && r.Intact() && l.Evaluable() && r.Evaluable()
    requires Absorb(l, r).Rewritten?
    ensures Absorb(l, r).tree.Evaluable()
    ensures Eval(Absorb(l, r).tree, env) == (Eval(l, env) || Eval(r, env))
  {
    var (a, b) := if l.IsEndpoint() && r.Binary? && r.op == And then (l, r) else (r, l);
    if NegationOf(a, b.left) { NegationSound(a, b.left, env); }
    if NegationOf(a, b.right) { NegationSound(a, b.right, env); }
    if SameTree(a, b.left) { SameTreeSound(a, b.left, env); }
    if SameTree(a, b.right) { SameTreeSound(a, b.right, env); }
  }

  lemma OrSound(l: Node, r: Node, env: Env)
    requires l.Intact() && r.Intact() && l.Evaluable() && r.Evaluable()
    ensures ApplyOr(l, r).Evaluable()
    ensures Eval(ApplyOr(l, r), env) == (Eval(l, env) || Eval(r, env))
  {
    if NegationOf(l, r) { NegationSound(l, r, env); }
    if SameTree(l, r) { SameTreeSound(l, r, env); }
    if CombineTerms(l, r).Rewritten? { CombineTermsSound(l, r, env); }
    if Absorb(l, r).Rewritten? { AbsorbSound(l, r, env); }
  }

  lemma AndSound(l: Node, r: Node, env: Env)
    requires l.Intact() && r.Intact() && l.Evaluable() && r.Evaluable()
    ensures ApplyAnd(l, r).Evaluable()
    ensures Eval(ApplyAnd(l, r), env) == (Eval(l, env) && Eval(r, env))
  {
    if NegationOf(l, r) { NegationSound(l, r, env); }
    if SameTree(l, r) { SameTreeSound(l, r, env); }
  }

  lemma XorSound(l: Node, r: Node, env: Env)
    requires l.Evaluable() && r.Evaluable()
    ensures ApplyXor(l, r).Evaluable()
    ensures Eval(ApplyXor(l, r), env) == (Eval(l, env) != Eval(r, env))
  {}

  lemma ImplyLeftSound(l: Node, r: Node, env: Env)
    requires l.Evaluable() && r.Evaluable()
    ensures ApplyImplyLeft(l, r).Evaluable()
    ensures Eval(ApplyImplyLeft(l, r), env) == (!Eval(l, env) || Eval(r, env))
  {}

  lemma ImplyRightExactly(l: Node, r: Node, env: Env)
    requires l.Evaluable() && r.Evaluable()
    ensures ApplyImplyRight(l, r).Evaluable()
    ensures Eval(ApplyImplyRight(l, r), env) == (!Eval(r, env) || Eval(l, env))
            <==> !(r.Bool? && !Eval(l, env))
  {}

  /** Combining two simplified operands computes their operator, except in one case: `l <- r` with
      a constant right operand and a left operand that is not constant and evaluates to false. */
  lemma CombineExactly(l: Node, r: Node, op: BinaryOp, env: Env)
    requires l.Intact() && r.Intact() && l.Evaluable() && r.Evaluable()
    ensures Combine(l, r, op).Evaluable()
    ensures Eval(Combine(l, r, op), env) == LoEval(op, Eval(l, env), Eval(r, env))
            <==> !(op == ImplyRight && r.Bool? && !l.Bool? && !Eval(l, env))
  {
    hide ApplyAnd, ApplyOr, ApplyXor, ApplyImplyLeft, ApplyImplyRight;
    AndSound(l, r, env);
    OrSound(l, r, env);
    XorSound(l, r, env);
    ImplyLeftSound(l, r, env);
    ImplyRightExactly(l, r, env);
  }

  // ----- when moves reach the result or the source tree -----

  predicate Movable(n: Node) {
    !n.Null? && !n.Bool?
  }

  /** Does `simplify` move anything out of the source tree? */
  predicate Disturbs(t: Node) {
    match t
    case Unary(c) => Disturbs(c)
    case Binary(op, l, r) =>
      Disturbs(l) || if BothNegated(op, l, r) then Movable(l.child) || Movable(r.child) else Disturbs(r)
    case _ => false
  }

  /** Is there a De Morgan shape whose left operand is itself disturbed? */
  predicate Poisonous(t: Node) {
    match t
    case Unary(c) => Poisonous(c)
    case Binary(op, l, r) =>
      Poisonous(l) || if BothNegated(op, l, r) then Disturbs(l) else Poisonous(r)
    case _ => false
  }

  lemma {:induction false} PoisonousDisturbs(t: Node)
    requires Poisonous(t)
    ensures Disturbs(t)
  {
    match t
    case Unary(c) => PoisonousDisturbs(c);
    case Binary(op, l, r) =>
      if Poisonous(l) {
        PoisonousDisturbs(l);
      } else if !BothNegated(op, l, r) {
        PoisonousDisturbs(r);
      }
    case _ =>
  }

  /** A moved-from node enters the result exactly for poisonous trees, and the const source tree
      survives unchanged exactly when nothing disturbs it. */
  lemma {:induction false} MovesExactly(t: Node)
    requires t.Intact()
    ensures Simplify(t).Poisoned? <==> Poisonous(t)
    ensures Simplify(t).Done? ==> (Simplify(t).residue == t <==> !Disturbs(t))
    ensures Simplify(t).Done? ==> (Simplify(t).residue.Intact() <==> !Disturbs(t))
  {
    hide SimplifyNot, Combine;
    match t
    case Unary(c) => MovesExactly(c);
    case Binary(op, l, r) =>
      MovesExactly(l);
      if !BothNegated(op, l, r) {
        MovesExactly(r);
      }
    case _ =>
  }

  // ----- the simplified tree -----

  predicate SimplifiesToConst(t: Node)
    requires t.Intact()
  {
    var o := Simplify(t);
    o.Done? && o.result.Bool?
  }

  /** The simplified tree means the same under every environment. */
  ghost predicate Keeps(t: Node)
    requires t.Intact() && t.Evaluable()
  {
    var o := Simplify(t);
    o.Done? && o.result.Evaluable() && forall env: Env :: Eval(o.result, env) == Eval(t, env)
  }

  /** The tree and all its subtrees whose simplified form enters the result keep their meaning. */
  ghost predicate KeepsThroughout(t: Node)
    requires t.Intact() && t.Evaluable()
  {
    Keeps(t) &&
    match t
    case Unary(c) => KeepsThroughout(c)
    case Binary(op, l, r) => BothNegated(op, l, r) || (KeepsThroughout(l) && KeepsThroughout(r))
    case _ => true
  }

  /** `l <- r` whose right operand alone simplifies to a constant, while the left one can be false. */
  ghost predicate HarmfulPremise(l: Node, r: Node)
    requires l.Intact() && l.Evaluable() && r.Intact()
  {
    SimplifiesToConst(r) && !SimplifiesToConst(l) && exists env: Env :: !Eval(l, env)
  }

  /** Is there such an implication among the subtrees whose simplified form enters the result? */
  ghost predicate Harmful(t: Node)
    requires t.Intact() && t.Evaluable()
  {
    match t
    case Unary(c) => Harmful(c)
    case Binary(op, l, r) =>
      && !BothNegated(op, l, r)
      && (Harmful(l) || Harmful(r) || (op == ImplyRight && HarmfulPremise(l, r)))
    case _ => false
  }

  lemma NotKeeps(c: Node)
    requires c.Intact() && c.Evaluable() && !Poisonous(c) && Keeps(c)
    ensures Keeps(Unary(c))
  {
    hide SimplifyNot, Combine;
    var s := Simplify(c).result;
    forall env: Env ensures SimplifyNot(s).Evaluable() && Eval(SimplifyNot(s), env) == Eval(Unary(c), env) {
      NotSound(s, env);
    }
    var any: Env := _ => false;
    NotSound(s, any);
  }

  lemma NegatedKeeps(op: BinaryOp, l: Node, r: Node)
    requires var t := Binary(op, l, r); t.Intact() && t.Evaluable() && !Poisonous(t)
    requires BothNegated(op, l, r)
    ensures Keeps(Binary(op, l, r))
  {
    hide SimplifyNot, Combine;
    MovesExactly(Binary(op, l, r));
    MovesExactly(l);
    assert Simplify(Binary(op, l, r)).result == Binary(Dual(op), l.child, r.child);
    forall env: Env ensures Eval(Binary(Dual(op), l.child, r.child), env) == Eval(Binary(op, l, r), env) {
      assert Eval(l, env) == !Eval(l.child, env) && Eval(r, env) == !Eval(r.child, env);
    }
  }

  lemma CombineKeeps(op: BinaryOp, l: Node, r: Node)
    requires var t := Binary(op, l, r); t.Intact() && t.Evaluable() && !Poisonous(t)
    requires !BothNegated(op, l, r) && Keeps(l) && Keeps(r)
    ensures Keeps(Binary(op, l, r)) <==> !(op == ImplyRight && HarmfulPremise(l, r))
  {
    hide SimplifyNot, Combine;
    var t := Binary(op, l, r);
    MovesExactly(t);
    MovesExactly(l);
    var (sl, sr) := (Simplify(l).result, Simplify(r).result);
    forall env: Env
      ensures Combine(sl, sr, op).Evaluable()
      ensures Eval(Combine(sl, sr, op), env) == Eval(t, env)
              <==> !(op == ImplyRight && sr.Bool? && !sl.Bool? && !Eval(l, env))
    {
      CombineExactly(sl, sr, op, env);
    }
    var any: Env := _ => false;
    CombineExactly(sl, sr, op, any);
    assert Simplify(t).result == Combine(sl, sr, op);
  }

  /** Meaning is kept throughout the tree exactly if it has no such premise. */
  lemma {:induction false} KeepsExactly(t: Node)
    requires t.Intact() && t.Evaluable() && !Poisonous(t)
    ensures KeepsThroughout(t) <==> !Harmful(t)
  {
    hide Simplify, Keeps, HarmfulPremise;
    match t
    case Unary(c) =>
      KeepsExactly(c);
      if KeepsThroughout(c) { NotKeeps(c); }
    case Binary(op, l, r) =>
      if BothNegated(op, l, r) {
        NegatedKeeps(op, l, r);
      } else {
        KeepsExactly(l);
        KeepsExactly(r);
        if KeepsThroughout(l) && KeepsThroughout(r) { CombineKeeps(op, l, r); }
      }
    case _ =>
      LeafKeeps(t);
  }

  lemma LeafKeeps(t: Node)
    requires t.Intact() && t.Evaluable() && !t.Unary? && !t.Binary?
    ensures Keeps(t)
  {}

  /** So the simplified tree means the same under every environment. */
  lemma SimplifyPreserves(t: Node, env: Env)
    requires t.Intact() && t.Evaluable()
    requires !Poisonous(t) && !Harmful(t)
    ensures Simplify(t).Done? && Simplify(t).result.Evaluable()
    ensures Eval(Simplify(t).result, env) == Eval(t, env)
  {
    hide Simplify;
    KeepsExactly(t);
  }

  /** Does the operator occur in the tree? */
  predicate Uses(t: Node, op: BinaryOp) {
    match t
    case Unary(c) => Uses(c, op)
    case Binary(op', l, r) => op == op' || Uses(l, op) || Uses(r, op)
    case _ => false
  }

  lemma {:induction false} WithoutPremises(t: Node)
    requires t.Intact() && t.Evaluable() && !Uses(t, ImplyRight)
    ensures !Harmful(t)
  {
    match t
    case Unary(c) => WithoutPremises(c);
    case Binary(op, l, r) =>
      WithoutPremises(l);
      WithoutPremises(r);
    case _ =>
  }

  lemma {:induction false} WithoutDeMorgan(t: Node)
    requires !Uses(t, Nand) && !Uses(t, Nor)
    ensures !Disturbs(t) && !Poisonous(t)
  {
    match t
    case Unary(c) => WithoutDeMorgan(c);
    case Binary(op, l, r) =>
      WithoutDeMorgan(l);
      WithoutDeMorgan(r);
    case _ =>
  }

  /** A tree without `<-` keeps its meaning; without negated conjunctions and disjunctions the
      source survives as well. */
  lemma OperatorsDecide(t: Node, env: Env)
    requires t.Intact() && t.Evaluable() && !Uses(t, ImplyRight)
    ensures !Poisonous(t) ==> Simplify(t).Done? && Simplify(t).result.Evaluable()
                              && Eval(Simplify(t).result, env) == Eval(t, env)
    ensures !Uses(t, Nand) && !Uses(t, Nor) ==> !Poisonous(t) && Simplify(t).Done? && Simplify(t).residue == t
  {
    hide Simplify, Harmful;
    WithoutPremises(t);
    if !Poisonous(t) { SimplifyPreserves(t, env); }
    if !Uses(t, Nand) && !Uses(t, Nor) {
      WithoutDeMorgan(t);
      MovesExactly(t);
    }
  }

  lemma NotShrinks(child: Node)
    ensures SimplifyNot(child).Size() <= 1 + child.Size()
    ensures SimplifyNot(child).Functions() <= child.Functions()
  {}

  /** `n` is no larger than an operator node over `l` and `r`, and has no other functions. */
  predicate Within(n: Node, l: Node, r: Node) {
    n.Size() <= 1 + l.Size() + r.Size() && n.Functions() <= l.Functions() + r.Functions()
  }

  lemma RulesShrink(l: Node, r: Node)
    requires l.Intact() && r.Intact()
    ensures CombineTerms(l, r).Rewritten? ==> Within(CombineTerms(l, r).tree, l, r)
    ensures Absorb(l, r).Rewritten? ==> Within(Absorb(l, r).tree, l, r)
  {
    hide SameTree, NegationOf;
  }

  lemma OperandsWithin(l: Node, r: Node)
    ensures Within(l, l, r) && Within(r, l, r)
    ensures Within(Unary(l), l, r) && Within(Unary(r), l, r)
    ensures forall b :: Within(Bool(b), l, r)
    ensures forall op: BinaryOp :: Within(Binary(op, l, r), l, r)
  {}

  lemma CombineShrinks(l: Node, r: Node, op: BinaryOp)
    requires l.Intact() && r.Intact()
    ensures Within(Combine(l, r, op), l, r)
  {
    hide SameTree, NegationOf, CombineTerms, Absorb, Within;
    RulesShrink(l, r);
    OperandsWithin(l, r);
  }

  /** It is never larger than the source tree and mentions no new function. */
  lemma {:induction false} SimplifyShrinks(t: Node)
    requires t.Intact() && Simplify(t).Done?
    ensures Simplify(t).result.Size() <= t.Size()
    ensures Simplify(t).result.Functions() <= t.Functions()
  {
    hide SimplifyNot, Combine;
    MovesExactly(t);
    match t
    case Unary(c) =>
      SimplifyShrinks(c);
      NotShrinks(Simplify(c).result);
    case Binary(op, l, r) =>
      MovesExactly(l);
      if BothNegated(op, l, r) {
        assert Simplify(t).result == Binary(Dual(op), l.child, r.child);
      } else {
        SimplifyShrinks(l);
        SimplifyShrinks(r);
        CombineShrinks(Simplify(l).result, Simplify(r).result, op);
      }
    case _ =>
  }

  // ----- trees on which the promises fail -----

  /** !(!a !& !b) !& !c: the inner conversion empties its operands before the outer one takes them. */
  function NestedDeMorgan(a: string, b: string, c: string): (t: Node)
    ensures t.Intact() && t.Evaluable()
  {
    var inner := Binary(Nand, Unary(Func(a)), Unary(Func(b)));
    assert Unary(Func(a)).Intact() && Unary(Func(b)).Intact() && Unary(Func(c)).Intact();
    assert Unary(Func(a)).Evaluable() && Unary(Func(b)).Evaluable() && Unary(Func(c)).Evaluable();
    assert Unary(inner).Intact() && Unary(inner).Evaluable() by {
      assert inner.Intact() && inner.Evaluable();
    }
    Binary(Nand, Unary(inner), Unary(Func(c)))
  }

  lemma NestedDeMorganIsPoisonous(a: string, b: string, c: string)
    ensures Simplify(NestedDeMorgan(a, b, c)) == Poisoned
  {
    var t := NestedDeMorgan(a, b, c);
    MovesExactly(t);
    assert Disturbs(t.left.child);
    assert Disturbs(t.left);
  }

  /** a <- {true} means a, and becomes {true}. */
  function ConstantPremiseTree(a: string): (t: Node)
    ensures t.Intact() && t.Evaluable()
  {
    assert Func(a).Intact() && Bool(true).Intact() && Func(a).Evaluable() && Bool(true).Evaluable();
    Binary(ImplyRight, Func(a), Bool(true))
  }

  lemma ConstantPremiseChangesMeaning(a: string)
    ensures Simplify(ConstantPremiseTree(a)).Done? && Simplify(ConstantPremiseTree(a)).result == Bool(true)
    ensures exists env: Env :: Eval(ConstantPremiseTree(a), env) != Eval(Bool(true), env)
  {
    var t := ConstantPremiseTree(a);
    assert Simplify(t.left) == Done(t.left, t.left) && Simplify(t.right) == Done(t.right, t.right);
    var env: Env := _ => false;
    assert Eval(t.left, env) == false;
    assert Eval(t, env) != Eval(Bool(true), env);
  }
}
