/** The expression model shared by the reader and the evaluator (main.go:11-19,
    main.go:109, main.go:115), and the error results that replace Go's panics
    and nil returns. */
module Expr {

  /** The two built-in procedures of the standard environment: `*` is a
      BinaryFunc, `begin` a VariadicFunc. They are tags rather than closures. */
  datatype Builtin = BinaryMul | Begin

  /** Exp: a Symbol, a Number (a real, so that `*` is exact), a List of
      sub-expressions, or a built-in procedure. */
  datatype Exp =
    | Symbol(name: string)
    | Number(value: real)
    | List(items: seq<Exp>)
    | Proc(builtin: Builtin)

  /** One error per failure point of main.go. */
  datatype Error =
    | NoWhitespace          // tokenize: slice[1:len-1] on a one-piece split
    | EmptyTokens           // readInternal on no tokens
    | UnexpectedClose       // readInternal on a leading `)`
    | UnexpectedEnd         // readInternal indexing past the last token
    | UnboundSymbol(name: string)  // eval of a symbol with no binding
    | NotEvaluable          // eval of a procedure value
    | EmptyList             // evalList indexing list[0] of `()`
    | MalformedDefine       // `define` without a symbol and an expression
    | MissingOperand        // `*` indexing an operand that is not there
    | NotANumber            // `*` applied to an operand that is not a Number
    | NoArguments           // `begin` indexing the last of no arguments
    | NotCallable           // the head of a list is no procedure

  datatype Result<T> = Ok(value: T) | Err(error: Error)

  datatype Option<T> = None | Some(value: T)

  /** What evaluation can produce and what the environment holds: a Number or
      a procedure. */
  predicate IsValue(e: Exp)
  {
    e.Number? || e.Proc?
  }
}
