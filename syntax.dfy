/**
 * The data of the parser: its errors, the flat tokens the tokenizer emits and
 * the expression tree the tree builder produces (src/parse.rs).
 */
module Syntax {

  /**
   * The ways the Rust tree builder panics.  The source has no error value for
   * them; the model reports them as `ParseError.Panicked`.
   */
  datatype Defect =
    | LevelUnderflow    // `level -= 1` on a usize that is 0
    | SliceOutOfRange   // a slice bound past the end, or a start after the end
    | Unreachable       // `unreachable!()`: the split found no operator

  datatype ParseError =
    | ValueError(literal: string, typeName: string)
    | UnexpectedTokenError(position: nat, character: char)
    | EmptyError
    | Panicked(defect: Defect)

  datatype Token<T> =
    | Value(value: T)
    | Variable(name: string)
    | OpeningBrackets
    | ClosingBrackets
    | AddSymbol
    | SubSymbol
    | MulSymbol
    | DivSymbol
    | PowSymbol
  {
    predicate IsOperator() {
      AddSymbol? || SubSymbol? || MulSymbol? || DivSymbol? || PowSymbol?
    }

    predicate IsBracket() {
      OpeningBrackets? || ClosingBrackets?
    }

    /** A value or a variable: a token that stands for a number. */
    predicate IsTerm() {
      Value? || Variable?
    }
  }

  datatype Expr<T> =
    | Value(value: T)
    | Variable(name: string)
    | Add(left: Expr<T>, right: Expr<T>)
    | Sub(left: Expr<T>, right: Expr<T>)
    | Mul(left: Expr<T>, right: Expr<T>)
    | Div(left: Expr<T>, right: Expr<T>)
    | Pow(left: Expr<T>, right: Expr<T>)
  {
    predicate IsLeaf() {
      Value? || Variable?
    }
  }

  /** The variables of a tree, left to right, with repetitions. */
  function Names<T>(e: Expr<T>): seq<string> {
    match e
    case Value(_) => []
    case Variable(n) => [n]
    case Add(l, r) => Names(l) + Names(r)
    case Sub(l, r) => Names(l) + Names(r)
    case Mul(l, r) => Names(l) + Names(r)
    case Div(l, r) => Names(l) + Names(r)
    case Pow(l, r) => Names(l) + Names(r)
  }
}
