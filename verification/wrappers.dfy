/** Failure-carrying results for the operations of the regular-language engine.
    Every exception the engine raises becomes an `Error` value. */
module Wrappers {

  /** The exceptions of the engine, one constructor per message. */
  datatype Error =
    | StatesOverlap          // NFA composition with shared states
    | AlphabetMismatch       // older product constructions
    | MissingTerm            // empty term where an expression is required
    | MissingAfterUnion      // `|` with no following term
    | MissingRParen          // `(` without its `)`
    | PushbackError          // second pushback before the first was consumed
    | MissingLeftOperand     // operator node without a left child
    | MissingRightOperand    // binary operator node without a right child
    | InvalidOperand         // leaf holding a token that is not a symbol or `.`

  datatype Option<+T> = None | Some(value: T)

  datatype Result<+T> = Ok(value: T) | Err(error: Error) {
    predicate IsFailure() {
      Err?
    }

    function PropagateFailure<U>(): Result<U>
      requires Err?
    {
      Err(error)
    }

    function Extract(): T
      requires Ok?
    {
      value
    }
  }
}
