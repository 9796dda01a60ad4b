/**
  The comparison operators of conditions.
 */
module Comparisons {

  datatype CompOp = EQ | NE | LT | GT | LE | GE

  /** Whether a three-way comparison satisfies an operator. */
  predicate CheckOp(res: int, op: CompOp)
  {
    match op
    case EQ => res == 0
    case NE => res != 0
    case LT => res < 0
    case GT => res > 0
    case LE => res <= 0
    case GE => res >= 0
  }

  /** The operator that says the same of the two sides swapped. */
  function SwapOp(op: CompOp): CompOp
  {
    match op
    case EQ => EQ
    case NE => NE
    case LT => GT
    case GT => LT
    case LE => GE
    case GE => LE
  }
}
