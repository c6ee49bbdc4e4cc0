/** The operator enumeration and the truth function that the condition engine must preserve. */
module Logical {

  datatype Op = Not | And | Or | Xor | Nand | Nor | Xnor | ImplyLeft | ImplyRight

  /** Is the "not" bit of the operator code set? */
  predicate IsNot(op: Op) {
    op in {Not, Nand, Nor, Xnor}
  }

  function BaseOp(op: Op): Op
    requires op != Not
  {
    match op
    case Nand => And
    case Nor => Or
    case Xnor => Xor
    case _ => op
  }

  function AddNot(op: Op): (r: Op)
    requires !IsImply(op)
    ensures IsNot(r) && (op != Not ==> r != Not && BaseOp(r) == BaseOp(op))
  {
    match op
    case And => Nand
    case Or => Nor
    case Xor => Xnor
    case _ => op
  }

  predicate IsImply(op: Op) {
    op == ImplyLeft || op == ImplyRight
  }

  function EvalBase(op: Op, left: bool, right: bool): bool
    requires op != Not && !IsNot(op)
  {
    match op
    case And => left && right
    case Or => left || right
    case Xor => left != right
    case ImplyLeft => !left || right
    case ImplyRight => !right || left
  }

  /** The right operand of a lone `Not` is ignored. */
  function LoEval(op: Op, left: bool, right: bool): bool {
    if op == Not then !left
    else
      var result := EvalBase(BaseOp(op), left, right);
      if IsNot(op) then !result else result
  }
}
