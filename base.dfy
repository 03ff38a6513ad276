/** Failure-compatible wrappers used for the calculator's thrown errors. */
module Wrappers {

  datatype Option<+T> = None | Some(value: T)

  /** `Ok` carries a value; `Err` stands for an `Error` thrown by the evaluator. */
  datatype Result<+T, +E> = Ok(value: T) | Err(error: E) {

    predicate IsFailure() {
      Err?
    }

    function PropagateFailure<U>(): Result<U, E>
      requires Err?
    {
      Err(error)
    }

    function Extract(): T
      requires Ok?
    {
      value
    }
  }
}

/** The errors the evaluator of index.js throws, one constructor per `throw`. */
module Errors {

  datatype Error =
    | BadExpression      // the tokenizer found no token at all ("Bad expression")
    | WrongPlace         // a binary operator with no left operand ("Operator in wrong place")
    | EndsWithOperator   // the expression ends while a number is expected ("Ends with operator")
    | InvalidToken       // a token that is neither a number nor an operator ("Invalid token")
    | BadCalcUnderflow   // an operator found fewer than two operands ("Bad calc")
    | BadCalcSize        // evaluation did not end with exactly one value ("Bad calc")
    | BadOp              // an operator symbol outside + - * / ("Bad op")
}
