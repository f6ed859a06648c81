/** The node kinds of the expression tree, their precedence ranks and the
    arithmetic each binary operator performs. */
module Nodes {

  /** One kind per token the line reader turns into a node. */
  datatype Kind =
    | Value(v: real)
    | LeftBracket
    | RightBracket
    | Plus
    | Minus
    | Times
    | Divide
    | Power

  predicate IsBracket(k: Kind) {
    k.LeftBracket? || k.RightBracket?
  }

  predicate IsBinary(k: Kind) {
    k.Plus? || k.Minus? || k.Times? || k.Divide? || k.Power?
  }

  /** The precedence rank of a node kind; a larger rank binds looser. */
  function Precedence(k: Kind): (r: nat)
    ensures r <= 4
    ensures r == 0 <==> IsBracket(k)
    ensures r == 1 <==> k.Value?
    ensures IsBinary(k) <==> r >= 2
    ensures k.Power? ==> r == 2
    ensures k.Times? || k.Divide? ==> r == 3
    ensures k.Plus? || k.Minus? ==> r == 4
  {
    match k
    case LeftBracket => 0
    case RightBracket => 0
    case Value(_) => 1
    case Power => 2
    case Times => 3
    case Divide => 3
    case Plus => 4
    case Minus => 4
  }

  /** The double-precision operations the model leaves uninterpreted. */
  datatype Ops = Ops(div: (real, real) -> real, pow: (real, real) -> real)

  /** What a binary operator computes from its two operand values. */
  function Combine(k: Kind, a: real, b: real, ops: Ops): real
    requires IsBinary(k)
  {
    match k
    case Plus => a + b
    case Minus => a - b
    case Times => a * b
    case Divide => ops.div(a, b)
    case Power => ops.pow(a, b)
  }

  /** The two exceptions an evaluation can raise: `std::out_of_range` from
      `vector::at`, and the `runtime_error` of an unclosed bracket. */
  datatype EvalError = OutOfRange | ParenExpected

  datatype EvalResult = Ok(value: real) | Err(error: EvalError)
}
