/** What evaluating an expression means: a state-passing function from the
    scope stack and an expression to the ordered sequence of values the
    expression denotes and the scope stack afterwards. The `Evaluator` class
    is proved against it. */
module Semantics {
  import opened Syntax
  import opened Scopes
  import Arithmetic

  /** The combinator a binary node applies to each pair of operand values. */
  datatype Operator = Times | Plus

  /** How an evaluation ends: with the values the expression denotes, with the
      panic `add` raises when it divides by zero, or with the recursion depth
      exhausted (the source recurses without bound and overflows its stack). */
  datatype Outcome = Values(vs: seq<Value>) | DivideByZero | DepthExceeded

  /** An outcome together with the scope stack the evaluation leaves behind. */
  datatype Run = Run(out: Outcome, defs: Frames)

  /** Applying the operator to this pair panics: only `add` can, and only on
      complex numbers that do not denote a number. */
  predicate Panics(op: Operator, x: Value, y: Value)
    ensures Panics(op, x, y) <==>
      op == Plus && x.ComplexNumber? && y.ComplexNumber? &&
      !(Arithmetic.WellFormed(x) && Arithmetic.WellFormed(y))
  {
    op == Plus && Arithmetic.AddDividesByZero(x, y)
  }

  function Apply(gcd: (int, int) -> int, op: Operator, x: Value, y: Value): Value
    requires !Panics(op, x, y)
  {
    match op
    case Times => Arithmetic.Multiply(x, y)
    case Plus => Arithmetic.Add(gcd, x, y)
  }

  /** No pair of the cartesian product panics. */
  predicate Safe(op: Operator, xs: seq<Value>, ys: seq<Value>) {
    forall i, j :: 0 <= i < |xs| && 0 <= j < |ys| ==> !Panics(op, xs[i], ys[j])
  }

  /** The operator applied to x and each element of ys, in order. */
  function Row(gcd: (int, int) -> int, op: Operator, x: Value, ys: seq<Value>): (r: seq<Value>)
    requires forall j :: 0 <= j < |ys| ==> !Panics(op, x, ys[j])
    ensures |r| == |ys|
  {
    if |ys| == 0 then []
    else Row(gcd, op, x, ys[..|ys| - 1]) + [Apply(gcd, op, x, ys[|ys| - 1])]
  }

  /** The rows of the cartesian product, left operand major. */
  function Product(gcd: (int, int) -> int, op: Operator, xs: seq<Value>, ys: seq<Value>): (r: seq<Value>)
    requires Safe(op, xs, ys)
    ensures |r| == |xs| * |ys|
  {
    if |xs| == 0 then []
    else
      var init := xs[..|xs| - 1];
      assert Safe(op, init, ys);
      assert |xs| * |ys| == |init| * |ys| + |ys|;
      Product(gcd, op, init, ys) + Row(gcd, op, xs[|xs| - 1], ys)
  }

  /** The combination step of `eval2`. */
  function Combine(gcd: (int, int) -> int, op: Operator, xs: seq<Value>, ys: seq<Value>): (r: Outcome)
    ensures !r.DepthExceeded?
    ensures r.Values? ==> |r.vs| == |xs| * |ys|
  {
    if Safe(op, xs, ys) then Values(Product(gcd, op, xs, ys)) else DivideByZero
  }

  /** `evaluate_expression`, with at most `fuel` nested evaluations. */
  function Eval(gcd: (int, int) -> int, defs: Frames, e: Expr, fuel: nat): (r: Run)
    ensures |r.defs| == |defs|
    decreases fuel, 0
  {
    if fuel == 0 then Run(DepthExceeded, defs)
    else
      match e
      case Define(target, rhs) =>
        if target.Variable? then Eval(gcd, Insert(defs, target.name, rhs), rhs, fuel - 1)
        else Run(Values([]), defs)
      case Closure(param, body) => Run(Values([Value.Function(param, body)]), defs)
      case Multiply(x, y) => EvalBinary(gcd, Times, defs, x, y, fuel - 1)
      case Add(x, y) => EvalBinary(gcd, Plus, defs, x, y, fuel - 1)
      case Number(n, d) => Run(Values([ComplexNumber(n, d, 0, 1)]), defs)
      case ImaginaryConstant => Run(Values([ComplexNumber(0, 1, 1, 1)]), defs)
      case Variable(name) =>
        (match Lookup(defs, name)
         case Some(bound) => Eval(gcd, defs, bound, fuel - 1)
         case None => Run(Values([]), defs))
      case Boolean(b) => Run(Values([Value.Boolean(b)]), defs)
      case Unhandled => Run(Values([]), defs)
  }

  /** `eval2`: the left operand, then the right one in the state the left one
      left behind, then every pair combined. */
  function EvalBinary(gcd: (int, int) -> int, op: Operator, defs: Frames, x: Expr, y: Expr, fuel: nat): (r: Run)
    ensures |r.defs| == |defs|
    decreases fuel, 1
  {
    var rx := Eval(gcd, defs, x, fuel);
    if !rx.out.Values? then rx
    else
      var ry := Eval(gcd, rx.defs, y, fuel);
      if !ry.out.Values? then ry
      else Run(Combine(gcd, op, rx.out.vs, ry.out.vs), ry.defs)
  }

  // ---------------------------------------------------------------------------
  // The cartesian product

  /** Value j of a row is the operator applied to x and ys[j]. */
  lemma {:induction false} RowAt(gcd: (int, int) -> int, op: Operator, x: Value, ys: seq<Value>, j: int)
    requires forall k :: 0 <= k < |ys| ==> !Panics(op, x, ys[k])
    requires 0 <= j < |ys|
    ensures Row(gcd, op, x, ys)[j] == Apply(gcd, op, x, ys[j])
  {
    if j < |ys| - 1 {
      RowAt(gcd, op, x, ys[..|ys| - 1], j);
    }
  }

  lemma RowMajorIndex(i: nat, j: nat, n: nat, m: nat)
    requires i < n && j < m
    ensures i * m + j < n * m
    ensures i < n - 1 ==> i * m + j < (n - 1) * m
    ensures i == n - 1 ==> i * m + j - (n - 1) * m == j
  {
    assert (n - 1) * m + m == n * m;
    if i < n - 1 {
      assert i * m <= (n - 2) * m;
    }
  }

  /** Element i*|ys|+j of the product is the operator applied to xs[i] and ys[j]. */
  lemma {:induction false} ProductAt(gcd: (int, int) -> int, op: Operator, xs: seq<Value>, ys: seq<Value>, i: int, j: int)
    requires Safe(op, xs, ys)
    requires 0 <= i < |xs| && 0 <= j < |ys|
    ensures i * |ys| + j < |Product(gcd, op, xs, ys)|
    ensures Product(gcd, op, xs, ys)[i * |ys| + j] == Apply(gcd, op, xs[i], ys[j])
  {
    var init, last := xs[..|xs| - 1], xs[|xs| - 1];
    assert Safe(op, init, ys);
    RowMajorIndex(i, j, |xs|, |ys|);
    if i < |xs| - 1 {
      ProductAt(gcd, op, init, ys, i, j);
    } else {
      RowAt(gcd, op, last, ys, j);
    }
  }

  /** `eval2`'s combination: it panics exactly when some pair panics; otherwise
      it has |xs|*|ys| values, value i*|ys|+j being the operator applied to
      xs[i] and ys[j]. */
  lemma CombineSpec(gcd: (int, int) -> int, op: Operator, xs: seq<Value>, ys: seq<Value>)
    ensures Combine(gcd, op, xs, ys).DivideByZero? <==>
      exists i, j :: 0 <= i < |xs| && 0 <= j < |ys| && Panics(op, xs[i], ys[j])
    ensures Combine(gcd, op, xs, ys).Values? ==>
      |Combine(gcd, op, xs, ys).vs| == |xs| * |ys| &&
      forall i, j :: 0 <= i < |xs| && 0 <= j < |ys| ==>
        i * |ys| + j < |xs| * |ys| &&
        Combine(gcd, op, xs, ys).vs[i * |ys| + j] == Apply(gcd, op, xs[i], ys[j])
  {
    if Safe(op, xs, ys) {
      forall i, j | 0 <= i < |xs| && 0 <= j < |ys|
        ensures i * |ys| + j < |xs| * |ys|
        ensures Product(gcd, op, xs, ys)[i * |ys| + j] == Apply(gcd, op, xs[i], ys[j])
      {
        ProductAt(gcd, op, xs, ys, i, j);
      }
    }
  }

  /** The product is empty when either operand sequence is. */
  lemma {:induction false} CombineEmpty(gcd: (int, int) -> int, op: Operator, xs: seq<Value>, ys: seq<Value>)
    requires |xs| == 0 || |ys| == 0
    ensures Combine(gcd, op, xs, ys) == Values([])
  {
  }

  /** One more pair on the current row of the product. */
  lemma RowExtend(gcd: (int, int) -> int, op: Operator, x: Value, ys: seq<Value>, j: int)
    requires 0 <= j < |ys|
    requires forall k :: 0 <= k <= j ==> !Panics(op, x, ys[k])
    ensures Row(gcd, op, x, ys[..j + 1]) == Row(gcd, op, x, ys[..j]) + [Apply(gcd, op, x, ys[j])]
  {
    assert ys[..j + 1][..j] == ys[..j];
  }

  /** One more row of the product. */
  lemma ProductExtend(gcd: (int, int) -> int, op: Operator, xs: seq<Value>, ys: seq<Value>, i: int)
    requires 0 <= i < |xs|
    requires Safe(op, xs[..i], ys)
    requires forall k :: 0 <= k < |ys| ==> !Panics(op, xs[i], ys[k])
    ensures Safe(op, xs[..i + 1], ys)
    ensures Product(gcd, op, xs[..i + 1], ys) == Product(gcd, op, xs[..i], ys) + Row(gcd, op, xs[i], ys[..|ys|])
  {
    assert xs[..i + 1][..i] == xs[..i];
    assert ys[..|ys|] == ys;
    var pre := xs[..i + 1];
    assert Safe(op, pre, ys) by {
      forall a, b | 0 <= a < |pre| && 0 <= b < |ys|
        ensures !Panics(op, pre[a], ys[b])
      {
        if a < i {
          assert pre[a] == xs[..i][a];
        }
      }
    }
  }

  /** On single values the combination is the operator itself. */
  lemma CombineSingletons(gcd: (int, int) -> int, op: Operator, x: Value, y: Value)
    requires !Panics(op, x, y)
    ensures Combine(gcd, op, [x], [y]) == Values([Apply(gcd, op, x, y)])
  {
    assert [x][..0] == [] && [y][..0] == [];
    assert Safe(op, [x], [y]);
    assert Row(gcd, op, x, [y]) == [Apply(gcd, op, x, y)];
    assert Product(gcd, op, [x], [y]) == Product(gcd, op, [], [y]) + Row(gcd, op, x, [y]);
  }

  /** Multiplication never panics. */
  lemma TimesNeverPanics(gcd: (int, int) -> int, xs: seq<Value>, ys: seq<Value>)
    ensures Combine(gcd, Times, xs, ys).Values?
  {
  }

  // ---------------------------------------------------------------------------
  // Evaluation, case by case

  /** Literals denote exactly one value and leave the scope stack alone; a
      closure's body is not evaluated. */
  lemma EvalLiteral(gcd: (int, int) -> int, defs: Frames, e: Expr, fuel: nat)
    requires fuel >= 1
    ensures e.Number? ==> Eval(gcd, defs, e, fuel) == Run(Values([ComplexNumber(e.dividend, e.divisor, 0, 1)]), defs)
    ensures e.ImaginaryConstant? ==> Eval(gcd, defs, e, fuel) == Run(Values([ComplexNumber(0, 1, 1, 1)]), defs)
    ensures e.Boolean? ==> Eval(gcd, defs, e, fuel) == Run(Values([Value.Boolean(e.value)]), defs)
    ensures e.Closure? ==> Eval(gcd, defs, e, fuel) == Run(Values([Value.Function(e.param, e.body)]), defs)
  {
  }

  /** `Define` of a variable inserts the unevaluated right-hand side into the
      innermost frame and then denotes what the right-hand side denotes in the
      updated stack; with any other target it denotes nothing, evaluates
      nothing and changes nothing. */
  lemma EvalDefine(gcd: (int, int) -> int, defs: Frames, target: Expr, rhs: Expr, fuel: nat)
    requires fuel >= 1
    ensures target.Variable? ==>
      Eval(gcd, defs, Define(target, rhs), fuel) == Eval(gcd, Insert(defs, target.name, rhs), rhs, fuel - 1)
    ensures !target.Variable? ==> Eval(gcd, defs, Define(target, rhs), fuel) == Run(Values([]), defs)
  {
  }

  /** A variable is re-evaluated from its binding on every reference; a name
      bound nowhere denotes nothing, as does every unhandled node kind. */
  lemma EvalVariable(gcd: (int, int) -> int, defs: Frames, name: string, fuel: nat)
    requires fuel >= 1
    ensures Lookup(defs, name).None? ==> Eval(gcd, defs, Variable(name), fuel) == Run(Values([]), defs)
    ensures Lookup(defs, name).Some? ==>
      Eval(gcd, defs, Variable(name), fuel) == Eval(gcd, defs, Lookup(defs, name).value, fuel - 1)
    ensures Eval(gcd, defs, Unhandled, fuel) == Run(Values([]), defs)
  {
  }

  /** On a fresh stack every variable denotes nothing. */
  lemma FreshStackUndefined(gcd: (int, int) -> int, name: string, fuel: nat)
    requires fuel >= 1
    ensures Eval(gcd, Initial, Variable(name), fuel) == Run(Values([]), Initial)
  {
    InitialBindsNothing(name);
  }

  /** A binary node whose left operand denotes nothing denotes nothing, whatever
      the right operand denotes (the right operand is still evaluated). */
  lemma EvalBinaryLeftEmpty(gcd: (int, int) -> int, op: Operator, defs: Frames, x: Expr, y: Expr, fuel: nat)
    requires Eval(gcd, defs, x, fuel).out == Values([])
    ensures var ry := Eval(gcd, Eval(gcd, defs, x, fuel).defs, y, fuel);
      EvalBinary(gcd, op, defs, x, y, fuel) == if ry.out.Values? then Run(Values([]), ry.defs) else ry
  {
    var ry := Eval(gcd, Eval(gcd, defs, x, fuel).defs, y, fuel);
    if ry.out.Values? {
      CombineEmpty(gcd, op, [], ry.out.vs);
    }
  }

  /** A variable defined in the left operand is visible in the right one: with
      x bound to n/d on the left, `x * x` multiplies n/d by itself. */
  lemma DefineVisibleToRightOperand(gcd: (int, int) -> int, defs: Frames, name: string, n: int, d: int, fuel: nat)
    requires |defs| > 0 && fuel >= 3
    ensures var v := ComplexNumber(n, d, 0, 1);
      Eval(gcd, defs, Multiply(Define(Variable(name), Number(n, d)), Variable(name)), fuel)
      == Run(Values([Arithmetic.Multiply(v, v)]), Insert(defs, name, Number(n, d)))
  {
    var v := ComplexNumber(n, d, 0, 1);
    var lhs, rhs := Define(Variable(name), Number(n, d)), Variable(name);
    var defs' := Insert(defs, name, Number(n, d));
    EvalDefine(gcd, defs, Variable(name), Number(n, d), fuel - 1);
    EvalLiteral(gcd, defs', Number(n, d), fuel - 2);
    assert Eval(gcd, defs, lhs, fuel - 1) == Run(Values([v]), defs');
    LookupAfterInsert(defs, name, Number(n, d), name);
    EvalVariable(gcd, defs', name, fuel - 1);
    assert Eval(gcd, defs', rhs, fuel - 1) == Run(Values([v]), defs');
    CombineSingletons(gcd, Times, v, v);
    assert EvalBinary(gcd, Times, defs, lhs, rhs, fuel - 1) == Run(Values([Arithmetic.Multiply(v, v)]), defs');
  }

  // ---------------------------------------------------------------------------
  // Properties of whole evaluations

  /** The stack `after` is `before` with bindings added to or overwritten in
      its innermost frame only. */
  ghost predicate Extends(before: Frames, after: Frames) {
    && |after| == |before|
    && (forall i :: 0 <= i < |before| - 1 ==> after[i] == before[i])
    && (|before| > 0 ==> Top(before).Keys <= Top(after).Keys)
  }

  /** Evaluation never pushes, pops or removes anything: it only binds names
      in the innermost frame. */
  lemma {:induction false} EvalExtends(gcd: (int, int) -> int, defs: Frames, e: Expr, fuel: nat)
    ensures Extends(defs, Eval(gcd, defs, e, fuel).defs)
    decreases fuel, 0
  {
    if fuel > 0 {
      match e
      case Define(target, rhs) =>
        if target.Variable? {
          var defs' := Insert(defs, target.name, rhs);
          EvalExtends(gcd, defs', rhs, fuel - 1);
        }
      case Multiply(x, y) => EvalBinaryExtends(gcd, Times, defs, x, y, fuel - 1);
      case Add(x, y) => EvalBinaryExtends(gcd, Plus, defs, x, y, fuel - 1);
      case Variable(name) =>
        if Lookup(defs, name).Some? {
          EvalExtends(gcd, defs, Lookup(defs, name).value, fuel - 1);
        }
      case _ =>
    }
  }

  lemma {:induction false} EvalBinaryExtends(gcd: (int, int) -> int, op: Operator, defs: Frames, x: Expr, y: Expr, fuel: nat)
    ensures Extends(defs, EvalBinary(gcd, op, defs, x, y, fuel).defs)
    decreases fuel, 1
  {
    var rx := Eval(gcd, defs, x, fuel);
    EvalExtends(gcd, defs, x, fuel);
    EvalExtends(gcd, rx.defs, y, fuel);
  }

  /** An evaluation that finishes within some depth gives the same result and
      the same stack with any larger depth bound. */
  lemma {:induction false} EvalMoreFuel(gcd: (int, int) -> int, defs: Frames, e: Expr, fuel: nat, more: nat)
    requires fuel <= more
    requires !Eval(gcd, defs, e, fuel).out.DepthExceeded?
    ensures Eval(gcd, defs, e, more) == Eval(gcd, defs, e, fuel)
    decreases fuel, 0
  {
    match e
    case Define(target, rhs) =>
      if target.Variable? {
        EvalMoreFuel(gcd, Insert(defs, target.name, rhs), rhs, fuel - 1, more - 1);
      }
    case Multiply(x, y) => EvalBinaryMoreFuel(gcd, Times, defs, x, y, fuel - 1, more - 1);
    case Add(x, y) => EvalBinaryMoreFuel(gcd, Plus, defs, x, y, fuel - 1, more - 1);
    case Variable(name) =>
      if Lookup(defs, name).Some? {
        EvalMoreFuel(gcd, defs, Lookup(defs, name).value, fuel - 1, more - 1);
      }
    case _ =>
  }

  lemma {:induction false} EvalBinaryMoreFuel(gcd: (int, int) -> int, op: Operator, defs: Frames, x: Expr, y: Expr, fuel: nat, more: nat)
    requires fuel <= more
    requires !EvalBinary(gcd, op, defs, x, y, fuel).out.DepthExceeded?
    ensures EvalBinary(gcd, op, defs, x, y, more) == EvalBinary(gcd, op, defs, x, y, fuel)
    decreases fuel, 1
  {
    var rx := Eval(gcd, defs, x, fuel);
    EvalMoreFuel(gcd, defs, x, fuel, more);
    if rx.out.Values? {
      EvalMoreFuel(gcd, rx.defs, y, fuel, more);
    }
  }

  /** A variable bound to itself is never resolved: every depth bound is
      exhausted. */
  lemma {:induction false} SelfReferenceDiverges(gcd: (int, int) -> int, defs: Frames, name: string, fuel: nat)
    requires Lookup(defs, name) == Some(Variable(name))
    ensures Eval(gcd, defs, Variable(name), fuel) == Run(DepthExceeded, defs)
  {
    if fuel > 0 {
      SelfReferenceDiverges(gcd, defs, name, fuel - 1);
    }
  }

  /** So `Define(x, x)` never finishes on a non-empty stack. */
  lemma SelfDefinitionDiverges(gcd: (int, int) -> int, defs: Frames, name: string, fuel: nat)
    requires |defs| > 0
    ensures Eval(gcd, defs, Define(Variable(name), Variable(name)), fuel).out == DepthExceeded
  {
    if fuel > 0 {
      var defs' := Insert(defs, name, Variable(name));
      LookupAfterInsert(defs, name, Variable(name), name);
      SelfReferenceDiverges(gcd, defs', name, fuel - 1);
    }
  }
}
