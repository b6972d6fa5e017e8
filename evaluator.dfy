/** The evaluator object: a scope stack updated in place and the recursive
    evaluation methods, each proved against the functions of `Semantics`. */
module Evaluation {
  import opened Syntax
  import opened Scopes
  import opened Semantics

  class Evaluator {
    /** The scope stack, outermost frame first. */
    var definitions: Frames
    /** The gcd primitive `add` uses; it is not part of this model. */
    const gcd: (int, int) -> int

    /** `new`: one empty frame. */
    constructor (gcd: (int, int) -> int)
      ensures definitions == Initial
      ensures this.gcd == gcd
    {
      definitions := [map[]];
      this.gcd := gcd;
    }

    /** `evaluate_expression`, recursing at most `fuel` deep. */
    method EvaluateExpression(expr: Expr, fuel: nat) returns (out: Outcome)
      modifies this
      ensures Run(out, definitions) == Eval(gcd, old(definitions), expr, fuel)
      decreases fuel, 0
    {
      if fuel == 0 {
        return DepthExceeded;
      }
      var values: seq<Value> := [];
      match expr {
        case Define(l, r) =>
          if l.Variable? {
            if |definitions| > 0 {
              var last := |definitions| - 1;
              definitions := definitions[..last] + [definitions[last][l.name := r]];
            }
            var rv := EvaluateExpression(r, fuel - 1);
            if !rv.Values? {
              return rv;
            }
            values := values + rv.vs;
          }
        case Closure(x, f) =>
          values := values + [Value.Function(x, f)];
          assert values == [Value.Function(x, f)];
        case Multiply(x, y) =>
          var rv := Eval2(Times, x, y, fuel - 1);
          if !rv.Values? {
            return rv;
          }
          values := values + rv.vs;
        case Add(x, y) =>
          var rv := Eval2(Plus, x, y, fuel - 1);
          if !rv.Values? {
            return rv;
          }
          values := values + rv.vs;
        case Number(dividend, divisor) =>
          values := values + [ComplexNumber(dividend, divisor, 0, 1)];
          assert values == [ComplexNumber(dividend, divisor, 0, 1)];
        case ImaginaryConstant =>
          values := values + [ComplexNumber(0, 1, 1, 1)];
          assert values == [ComplexNumber(0, 1, 1, 1)];
        case Variable(name) =>
          var result := GetDefinition(name);
          match result {
            case Some(bound) =>
              var rv := EvaluateExpression(bound, fuel - 1);
              if !rv.Values? {
                return rv;
              }
              values := values + rv.vs;
            case None =>
          }
        case Boolean(b) =>
          values := values + [Value.Boolean(b)];
          assert values == [Value.Boolean(b)];
        case Unhandled =>
      }
      out := Values(values);
    }

    /** `get_definition`: scans the frames from the innermost outward and
      returns the first binding of the name. */
    method GetDefinition(name: string) returns (r: Option<Expr>)
      ensures r == Lookup(definitions, name)
    {
      var i := |definitions|;
      assert definitions[..i] == definitions;
      while i > 0
        invariant 0 <= i <= |definitions|
        invariant Lookup(definitions[..i], name) == Lookup(definitions, name)
      {
        var scope := definitions[i - 1];
        if name in scope {
          return Some(scope[name]);
        }
        assert definitions[..i][..i - 1] == definitions[..i - 1];
        i := i - 1;
      }
      return None;
    }

    /** `increase_scope`: pushes an empty frame. */
    method IncreaseScope()
      modifies this
      ensures definitions == PushFrame(old(definitions))
    {
      definitions := definitions + [map[]];
    }

    /** `decrease_scope`: pops the innermost frame; on an empty stack nothing
      happens. */
    method DecreaseScope()
      modifies this
      ensures definitions == PopFrame(old(definitions))
    {
      if |definitions| > 0 {
        definitions := definitions[..|definitions| - 1];
      }
    }

    /** `eval2`: evaluates both operands, then applies the operator to every
      pair in the nested loops' order; a pair on which `add` divides by zero
      ends the evaluation. */
    method Eval2(op: Operator, xExpr: Expr, yExpr: Expr, fuel: nat) returns (out: Outcome)
      modifies this
      ensures Run(out, definitions) == EvalBinary(gcd, op, old(definitions), xExpr, yExpr, fuel)
      decreases fuel, 1
    {
      var xOut := EvaluateExpression(xExpr, fuel);
      if !xOut.Values? {
        return xOut;
      }
      var yOut := EvaluateExpression(yExpr, fuel);
      if !yOut.Values? {
        return yOut;
      }
      out := Combination(op, xOut.vs, yOut.vs);
    }

    /** The nested loops of `eval2`: every value of the left operand, and for
      each every value of the right one, combined in that order; a pair on
      which `add` divides by zero ends the loops. */
    method Combination(op: Operator, xs: seq<Value>, ys: seq<Value>) returns (out: Outcome)
      ensures out == Combine(gcd, op, xs, ys)
    {
      var values: seq<Value> := [];
      var i := 0;
      while i < |xs|
        invariant 0 <= i <= |xs|
        invariant Safe(op, xs[..i], ys)
        invariant values == Product(gcd, op, xs[..i], ys)
      {
        var x, j := xs[i], 0;
        ghost var done := values;
        while j < |ys|
          invariant 0 <= j <= |ys|
          invariant forall k :: 0 <= k < j ==> !Panics(op, x, ys[k])
          invariant values == done + Row(gcd, op, x, ys[..j])
        {
          if Panics(op, x, ys[j]) {
            assert !Safe(op, xs, ys);
            return DivideByZero;
          }
          RowExtend(gcd, op, x, ys, j);
          values := values + [Apply(gcd, op, x, ys[j])];
          j := j + 1;
        }
        ProductExtend(gcd, op, xs, ys, i);
        i := i + 1;
      }
      assert xs[..|xs|] == xs;
      out := Values(values);
    }
  }

  /** A session on a fresh evaluator: x defined as 5 and referenced, then
      redefined as 7 and referenced again; an undefined name denotes nothing. */
  method DefineAndRedefine(gcd: (int, int) -> int) returns (first: Outcome, second: Outcome, undefined: Outcome)
    ensures first == Values([ComplexNumber(5, 1, 0, 1)])
    ensures second == Values([ComplexNumber(7, 1, 0, 1)])
    ensures undefined == Values([])
  {
    var ev := new Evaluator(gcd);
    var defined := ev.EvaluateExpression(Define(Variable("x"), Number(5, 1)), 2);
    LookupAfterInsert(Initial, "x", Number(5, 1), "y");
    first := ev.EvaluateExpression(Variable("x"), 2);
    var redefined := ev.EvaluateExpression(Define(Variable("x"), Number(7, 1)), 2);
    LookupAfterInsert(ev.definitions, "x", Number(7, 1), "y");
    second := ev.EvaluateExpression(Variable("x"), 2);
    undefined := ev.EvaluateExpression(Variable("y"), 2);
  }
}
