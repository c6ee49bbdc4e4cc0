/** Condition trees: structure, meaning, and comparison up to commutativity. */
module Condition {
  import opened Logical

  type BinaryOp = op: Op | op != Not witness And

  /** The last two constructors are what a node is after a move out of it: an endpoint keeps its
      kind but its function id is unspecified, a logical node loses its operands. */
  datatype Node =
    | Null
    | Bool(value: bool)
    | Func(id: string)
    | Unary(child: Node)
    | Binary(op: BinaryOp, left: Node, right: Node)
    | HollowFunc
    | HollowLogical
  {
    /** No part of the tree has been moved from. */
    predicate Intact() {
      match this
      case Unary(c) => c.Intact()
      case Binary(_, l, r) => l.Intact() && r.Intact()
      case HollowFunc => false
      case HollowLogical => false
      case _ => true
    }

    /** The trees that `evaluate` does not throw on, once their functions are bound. */
    predicate Evaluable() {
      match this
      case Unary(c) => c.Evaluable()
      case Binary(_, l, r) => l.Evaluable() && r.Evaluable()
      case Bool(_) => true
      case Func(_) => true
      case _ => false
    }

    predicate IsEndpoint() {
      Bool? || Func? || HollowFunc?
    }

    function Size(): nat {
      match this
      case Unary(c) => 1 + c.Size()
      case Binary(_, l, r) => 1 + l.Size() + r.Size()
      case _ => 1
    }

    function Functions(): set<string> {
      match this
      case Func(id) => {id}
      case Unary(c) => c.Functions()
      case Binary(_, l, r) => l.Functions() + r.Functions()
      case _ => {}
    }
  }

  /** What the functions bound to the endpoints return. */
  type Env = string -> bool

  function Eval(t: Node, env: Env): bool
    requires t.Evaluable()
  {
    match t
    case Bool(b) => b
    case Func(id) => env(id)
    case Unary(c) => LoEval(Not, Eval(c, env), false)
    case Binary(op, l, r) => LoEval(op, Eval(l, env), Eval(r, env))
  }

  predicate SameFunction(l: Node, r: Node) {
    l.Func? && r.Func? && l.id == r.id
  }

  predicate SameTree(l: Node, r: Node)
    requires l.Intact() && r.Intact()
    decreases l
  {
    match (l, r)
    case (Null, Null) => true
    case (Bool(a), Bool(b)) => a == b
    case (Func(a), Func(b)) => a == b
    case (Unary(a), Unary(b)) => SameTree(a, b)
    case (Binary(op, a, b), Binary(op', c, d)) =>
      if op != op' then false
      else if IsImply(op) then SameTree(a, c) && SameTree(b, d)
      else (SameTree(a, c) && SameTree(b, d)) || (SameTree(a, d) && SameTree(b, c))
    case _ => false
  }

  predicate NegationOf(a: Node, b: Node)
    requires a.Intact() && b.Intact()
  {
    if a.Unary? then SameTree(a.child, b)
    else if b.Unary? then SameTree(a, b.child)
    else false
  }

  // ----- trees that differ by swapped operands mean the same -----

  lemma {:induction false} SameTreeSound(l: Node, r: Node, env: Env)
    requires l.Intact() && r.Intact() && l.Evaluable() && r.Evaluable()
    requires SameTree(l, r)
    ensures Eval(l, env) == Eval(r, env)
    decreases l
  {
    match (l, r)
    case (Unary(a), Unary(b)) => SameTreeSound(a, b, env);
    case (Binary(op, a, b), Binary(op', c, d)) =>
      if SameTree(a, c) && SameTree(b, d) {
        SameTreeSound(a, c, env);
        SameTreeSound(b, d, env);
      } else {
        SameTreeSound(a, d, env);
        SameTreeSound(b, c, env);
      }
    case _ =>
  }

  lemma NegationSound(a: Node, b: Node, env: Env)
    requires a.Intact() && b.Intact() && a.Evaluable() && b.Evaluable()
    requires NegationOf(a, b)
    ensures Eval(a, env) != Eval(b, env)
  {
    if a.Unary? {
      SameTreeSound(a.child, b, env);
    } else {
      SameTreeSound(a, b.child, env);
    }
  }

  lemma {:induction false} SameTreeReflexive(t: Node)
    requires t.Intact()
    ensures SameTree(t, t)
  {
    match t
    case Unary(c) => SameTreeReflexive(c);
    case Binary(_, l, r) => SameTreeReflexive(l); SameTreeReflexive(r);
    case _ =>
  }

  /** The comparison is an equivalence, so the order in which the simplifier meets operands is
      irrelevant to it. */
  lemma {:induction false} SameTreeEquivalence(a: Node, b: Node, c: Node)
    requires a.Intact() && b.Intact() && c.Intact() && SameTree(a, b)
    ensures SameTree(b, a)
    ensures SameTree(b, c) ==> SameTree(a, c)
    decreases a
  {
    match (a, b)
    case (Unary(x), Unary(y)) =>
      SameTreeEquivalence(x, y, if c.Unary? then c.child else x);
    case (Binary(op, a1, a2), Binary(_, b1, b2)) =>
      var (c1, c2) := if c.Binary? then (c.left, c.right) else (a1, a2);
      if SameTree(a1, b1) && SameTree(a2, b2) {
        SameTreeEquivalence(a1, b1, c1);
        SameTreeEquivalence(a1, b1, c2);
        SameTreeEquivalence(a2, b2, c1);
        SameTreeEquivalence(a2, b2, c2);
      } 
      if !IsImply(op) && SameTree(a1, b2) && SameTree(a2, b1) {
        SameTreeEquivalence(a1, b2, c1);
        SameTreeEquivalence(a1, b2, c2);
        SameTreeEquivalence(a2, b1, c1);
        SameTreeEquivalence(a2, b1, c2);
      }
    case _ =>
  }

  // ----- what the comparison compares -----

  /** Where the operands of a tree are exchanged. */
  datatype Swaps = Keep | Down(here: bool, left: Swaps, right: Swaps)

  /** The tree with its operands exchanged in these places; those of implications stay. */
  function Swapped(t: Node, s: Swaps): Node {
    match t
    case Unary(c) => Unary(Swapped(c, if s.Down? then s.left else Keep))
    case Binary(op, l, r) =>
      var (a, b) := (Swapped(l, if s.Down? then s.left else Keep), Swapped(r, if s.Down? then s.right else Keep));
      if s.Down? && s.here && !IsImply(op) then Binary(op, b, a) else Binary(op, a, b)
    case _ => t
  }

  lemma {:induction false} SwappedSame(t: Node, s: Swaps)
    requires t.Intact()
    ensures Swapped(t, s).Intact() && SameTree(t, Swapped(t, s))
  {
    match t
    case Unary(c) => SwappedSame(c, if s.Down? then s.left else Keep);
    case Binary(op, l, r) =>
      SwappedSame(l, if s.Down? then s.left else Keep);
      SwappedSame(r, if s.Down? then s.right else Keep);
    case _ =>
  }

  lemma {:induction false} SameSwapped(l: Node, r: Node) returns (s: Swaps)
    requires l.Intact() && r.Intact() && SameTree(l, r)
    ensures Swapped(l, s) == r
    decreases l
  {
    s := Keep;
    match (l, r)
    case (Unary(a), Unary(b)) =>
      var inner := SameSwapped(a, b);
      s := Down(false, inner, Keep);
    case (Binary(op, a, b), Binary(op', c, d)) =>
      if SameTree(a, c) && SameTree(b, d) {
        var p := SameSwapped(a, c);
        var q := SameSwapped(b, d);
        s := Down(false, p, q);
      } else {
        var p := SameSwapped(a, d);
        var q := SameSwapped(b, c);
        s := Down(true, p, q);
      }
    case _ =>
  }

  /** Two trees compare as the same exactly if one is the other with operands exchanged somewhere. */
  lemma SameExactly(l: Node, r: Node)
    requires l.Intact() && r.Intact()
    ensures SameTree(l, r) <==> exists s :: Swapped(l, s) == r
  {
    if SameTree(l, r) {
      var s := SameSwapped(l, r);
    }
    if s :| Swapped(l, s) == r {
      SwappedSame(l, s);
    }
  }

  /** A negation is recognized by the negated tree on either side, the left side deciding. */
  lemma NegationForms(x: Node, y: Node)
    requires x.Intact() && y.Intact()
    ensures NegationOf(Unary(x), y) <==> SameTree(x, y)
    ensures !x.Unary? ==> (NegationOf(x, Unary(y)) <==> SameTree(x, y))
    ensures !x.Unary? && !y.Unary? ==> !NegationOf(x, y)
  {
    hide SameTree;
    assert Unary(x).Intact() && Unary(y).Intact();
  }
}
