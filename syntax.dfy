/** The two data types the evaluator consumes and produces: the abstract syntax
    tree handed over by the parser (crate::nodes) and the runtime values
    (crate::values). Source positions carried by the tree nodes are dropped. */
module Syntax {

  /** An expression tree node. `Unhandled` stands for every node kind the
      evaluator has no case for. */
  datatype Expr =
    | Define(target: Expr, rhs: Expr)
    | Closure(param: Expr, body: Expr)
    | Multiply(left: Expr, right: Expr)
    | Add(left: Expr, right: Expr)
    | Number(dividend: int, divisor: int)
    | ImaginaryConstant
    | Variable(name: string)
    | Boolean(value: bool)
    | Unhandled

  /** A runtime value. `ComplexNumber(a, b, c, d)` is a/b + (c/d)i, never reduced;
      a `Function` keeps its parameter and body verbatim and captures no scope. */
  datatype Value =
    | ComplexNumber(a: int, b: int, c: int, d: int)
    | Function(param: Expr, body: Expr)
    | Boolean(value: bool)
}
