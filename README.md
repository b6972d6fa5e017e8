# A verified model of the aRc expression evaluator

This project models `src/eval.rs`, the evaluator of aRc. It is a small
tree-walking evaluator for an expression language over rational complex numbers
`a/b + (c/d)i`. It has three parts.

- **Scope stack.** The evaluator keeps a stack of frames. Each frame maps a name to an
  *unevaluated* expression. `Define` binds a name in the innermost frame. A variable
  is looked up from the innermost frame outward and re-evaluated on every reference.
  `increase_scope` pushes a frame and `decrease_scope` pops one.
- **Sequence-valued evaluation.** Every expression denotes an ordered, possibly empty
  sequence of values. A binary node evaluates its left operand and then its right
  operand. It then applies its combinator to every pair of values, left operand
  major.
- **Arithmetic combinators.** `multiply` and `add` work on two values. They return
  `ComplexNumber(0,1,0,1)` when an operand is not a complex number.

Files and modules:

- `syntax.dfy` (`Syntax`): the expression tree the parser produces, and runtime values.
  Both types live outside `eval.rs`.
- `arithmetic.dfy` (`Arithmetic`): `multiply`, `add` and the source's integer division,
  which rounds toward zero. It also gives the real-number meaning of a value and proves
  lemmas about both combinators.
- `scopes.dfy` (`Scopes`): frames, lookup, insertion, push and pop, and their lemmas.
- `semantics.dfy` (`Semantics`): the meaning of evaluation, written as a state-passing
  function. `Eval` maps a scope stack and an expression to an outcome and the new
  stack. `EvalBinary` is `eval2`. `Combine` is the cartesian combination. The lemmas
  about them are here too.
- `evaluator.dfy` (`Evaluation`): the `Evaluator` class. Its `definitions` field is
  updated in place. Its methods mirror the source's, and each is proved equal to the
  functions above.

Modelling decisions:

- `gcd` comes from `crate::values` and is not shown. It is never given a definition.
  `Add` takes it as a parameter, and the `Evaluator` stores it as a constant. Lemmas
  that need a property of gcd say so in their `requires`.
- Rust's `/` rounds toward zero, so the model writes it out as `TruncDiv`.
- `add` divides by all four denominators, so Rust panics if any of them is zero. The
  model makes `Arithmetic.Add` require non-zero denominators. The evaluator checks
  first and ends with the outcome `DivideByZero`.
- Rust recurses without a bound. A self-referential definition overflows the stack.
  The model gives evaluation a depth bound `fuel` and ends with `DepthExceeded` when
  the bound runs out. `Semantics.EvalMoreFuel` shows that any finished evaluation
  gives the same result under every larger bound.
- `add` is modelled exactly as written, and the model does not claim that it
  computes the sum:
  - its "lcm" is `b1 * gcd(b1, b2) / b2`, which can truncate to 0;
  - its imaginary part is scaled by the imaginary "lcm" but divided by the real one.
  
  For operands that share both denominators, `AddCommonDenominatorsMeaning` states
  exactly when the result is the sum. `AddRealPartOverCommonMultiple` shows that the
  real part is the sum whenever the computed real denominator is a non-zero common
  multiple of both real denominators.
  `AddTruncatesDenominator` and `AddImaginaryOverRealDenominator` each pin one
  concrete case.
- Closures are inert values. They keep the parameter and body verbatim and capture no
  scope. The source has no way to apply them.

Three behaviours of the code differ from what a reader of the language might expect.
The model follows the code in each case:

- A `Define` whose target is not a variable does nothing. One might expect its
  right-hand side to be evaluated and returned anyway. But the whole body sits inside
  `if let Expression::Variable` (`src/eval.rs:33-39`), so such a `Define` yields `[]` and
  evaluates nothing (`Semantics.EvalDefine`).
- The global frame is meant to last as long as the evaluator, but `decrease_scope`
  (`src/eval.rs:73-75`) pops without a check. The stack can therefore become empty, and
  on an empty stack `Define` binds nothing (`Scopes.Insert`, `Scopes.PopFrame`).
- One would expect `add(1/2, 1/3)` to equal 5/6. With any gcd that has
  gcd(2, 3) = 1, the code gives a zero denominator instead
  (`Arithmetic.AddTruncatesDenominator`).

## Model

| member | source | states |
|---|---|---|
| Arithmetic.TruncDiv | src/eval.rs:108-117 | the integer division `add` uses (Rust `/`); on a non-negative dividend and a positive divisor it agrees with floor division |
| Arithmetic.TruncDivRoundsTowardZero | src/eval.rs:108-117 | the integer division `add` uses rounds toward zero: q*m never overshoots n, lies within \|m\| of it and has n's sign |
| Arithmetic.TruncDivExact | src/eval.rs:108-117 | dividing an exact multiple k*m by m gives k back |
| Arithmetic.Multiply | src/eval.rs:90-102 | the result is always a complex number; it is exactly `ComplexNumber(0,1,0,1)` when an operand is not a complex number; the two result denominators are equal; non-zero input denominators give non-zero output denominators |
| Arithmetic.MultiplyMeaning | src/eval.rs:92-98 | on complex numbers with non-zero denominators, `multiply` is complex multiplication of the numbers denoted: re = re1*re2 - im1*im2, im = re1*im2 + im1*re2 |
| Arithmetic.MultiplyByOne | src/eval.rs:92-98 | multiplying by 1/1 + (0/1)i gives a1*d1/(b1*d1) + (c1*b1/(b1*d1))i, numerically the input, unreduced |
| Arithmetic.AddDividesByZero | src/eval.rs:108-117 | `add` divides by both real and both imaginary denominators: it panics exactly on two complex numbers one of which has a zero denominator, i.e. does not denote a number |
| Arithmetic.Add | src/eval.rs:104-123 | the result is always a complex number; it is exactly `ComplexNumber(0,1,0,1)` when an operand is not a complex number; the imaginary denominator always equals the real one |
| Arithmetic.AddCommonDenominators | src/eval.rs:106-119 | with equal denominators b, d on both sides and gcd(b,b)=b, gcd(d,d)=d, the result is (a1+a2)/b + ((c1+c2)/b)i |
| Arithmetic.AddCommonDenominatorsMeaning | src/eval.rs:106-119 | under the same conditions the real part is the sum of the real parts, and the imaginary part is the sum if and only if b = d or the imaginary numerators cancel |
| Arithmetic.AddRealPartOverCommonMultiple | src/eval.rs:108-112 | whenever the computed real denominator b1*gcd(b1,b2)/b2 is a non-zero common multiple k1*b1 = k2*b2, the result denotes a number and its real part is the sum of the real parts |
| Arithmetic.AddRealPartWhenDenominatorDivides | src/eval.rs:108-112 | when b2 divides b1 and gcd(b1,b2)=b2, the real denominator is b1 and the real part is the sum of the real parts |
| Arithmetic.AddTruncatesDenominator | src/eval.rs:108-112 | with gcd(2,3)=1, adding 1/2 and 1/3 yields a zero denominator (not 5/6), because the "lcm" b1*gcd/b2 truncates to 0 |
| Arithmetic.AddImaginaryOverRealDenominator | src/eval.rs:114-118 | (1/2)i + (1/2)i gives 0/1 + (2/1)i: imaginary numerators are scaled by the imaginary "lcm" but divided by the real one |
| Scopes.Lookup | src/eval.rs:59-67 | `get_definition` finds nothing if and only if no frame binds the name |
| Scopes.PushFrame | src/eval.rs:69-71 | `increase_scope` adds one empty innermost frame and keeps the others; popping afterwards restores the stack |
| Scopes.PopFrame | src/eval.rs:73-75 | `decrease_scope` on a non-empty stack leaves the stack that, with the old innermost frame appended, is the old stack; on an empty stack it does nothing |
| Scopes.Insert | src/eval.rs:34-37 | `Define`'s insertion keeps the frame count; on a non-empty stack it binds the name to the expression in the innermost frame, keeps that frame's other bindings and every outer frame; on an empty stack it changes nothing |
| Scopes.LookupFindsInnermost | src/eval.rs:59-67 | if frame i binds the name and no frame inside it does, lookup returns frame i's binding |
| Scopes.LookupSound | src/eval.rs:59-67 | lookup returns None if and only if no frame binds the name, and any binding it returns is the innermost frame's binding of that name |
| Scopes.LookupAfterInsert | src/eval.rs:32-39 | after a `Define` on a non-empty stack the name resolves to the new expression and every other name resolves as before |
| Scopes.RedefinitionOverwrites | src/eval.rs:35 | defining a name twice in the same frame is the same as defining it once with the second expression |
| Scopes.ScopedDefinitionIsForgotten | src/eval.rs:69-75 | a binding made in a pushed frame shadows the outer ones, and after the frame is popped every lookup is as before the push |
| Scopes.InitialBindsNothing | src/eval.rs:11-15 | the stack of a new evaluator binds no name |
| Semantics.Panics | src/eval.rs:108-117 | applying the combinator to a pair panics exactly when it is `add` on two complex numbers one of which has a zero denominator; `multiply` never panics |
| Semantics.Row | src/eval.rs:82-84 | the inner loop yields exactly one value per right operand value |
| Semantics.RowAt | src/eval.rs:82-84 | value j of the inner loop's output is the combinator applied to x and Y[j] |
| Semantics.Product | src/eval.rs:80-86 | the nested loops of `eval2` produce \|X\|*\|Y\| values |
| Semantics.Combine | src/eval.rs:80-86 | the combination never reports an exhausted depth bound, and when it does not panic it has \|X\|*\|Y\| values |
| Semantics.Eval | src/eval.rs:29-57 | `evaluate_expression` keeps the number of frames on the stack |
| Semantics.EvalBinary | src/eval.rs:77-87 | `eval2` keeps the number of frames on the stack |
| Semantics.ProductAt | src/eval.rs:80-86 | value i*\|Y\|+j of the combination is the combinator applied to X[i] and Y[j] |
| Semantics.CombineSpec | src/eval.rs:80-86 | the combination panics if and only if `add` divides by zero on some pair; otherwise it has \|X\|*\|Y\| values in left-major order |
| Semantics.CombineEmpty | src/eval.rs:80-86 | the combination is empty when either operand sequence is empty |
| Semantics.CombineSingletons | src/eval.rs:80-86 | on one value each, the combination is the single combinator result |
| Semantics.TimesNeverPanics | src/eval.rs:90-102 | combining with `multiply` never divides by zero |
| Semantics.EvalLiteral | src/eval.rs:41-53 | `Number(n,d)` gives [ComplexNumber(n,d,0,1)], the imaginary constant [ComplexNumber(0,1,1,1)], `Boolean(b)` [Boolean(b)], `Closure(x,f)` [Function(x,f)] without evaluating f; none changes the stack |
| Semantics.EvalDefine | src/eval.rs:32-40 | `Define` of a variable inserts the unevaluated right-hand side and then denotes what it denotes in the updated stack; with another target it yields [] and changes nothing |
| Semantics.EvalVariable | src/eval.rs:46-54 | a bound variable denotes what its binding denotes, re-evaluated in the current stack; an unbound one denotes []; unhandled node kinds denote [] |
| Semantics.FreshStackUndefined | src/eval.rs:46-52 | on a new evaluator's stack every variable denotes [] |
| Semantics.EvalBinaryLeftEmpty | src/eval.rs:77-87 | if the left operand denotes [], the binary node denotes [] whatever the right operand denotes (the right operand is still evaluated) |
| Semantics.DefineVisibleToRightOperand | src/eval.rs:77-79 | the left operand is evaluated first: x defined as n/d on the left of `*` is visible on the right, giving [multiply(n/d, n/d)] |
| Semantics.EvalExtends | src/eval.rs:29-57 | evaluation never pushes, pops or removes: it keeps the frame count and every outer frame, and only adds or overwrites bindings in the innermost frame |
| Semantics.EvalBinaryExtends | src/eval.rs:77-87 | the same for `eval2` |
| Semantics.EvalMoreFuel | src/eval.rs:29-57 | an evaluation that finishes within a depth bound gives the same values and stack under any larger bound |
| Semantics.EvalBinaryMoreFuel | src/eval.rs:77-87 | the same for `eval2` |
| Semantics.SelfReferenceDiverges | src/eval.rs:46-51 | a variable bound to itself exhausts every depth bound |
| Semantics.SelfDefinitionDiverges | src/eval.rs:32-51 | `Define(x, x)` on a non-empty stack never finishes |
| Evaluation.Evaluator.constructor | src/eval.rs:11-15 | a new evaluator has exactly one frame, and it is empty |
| Evaluation.Evaluator.EvaluateExpression | src/eval.rs:29-57 | the outcome and the new stack are those of `Eval` on the old stack |
| Evaluation.Evaluator.GetDefinition | src/eval.rs:59-67 | the reverse scan with early return yields `Lookup` of the stack, and does not modify the evaluator |
| Evaluation.Evaluator.IncreaseScope | src/eval.rs:69-71 | the stack gains an empty innermost frame |
| Evaluation.Evaluator.DecreaseScope | src/eval.rs:73-75 | the innermost frame is dropped; an empty stack stays empty |
| Evaluation.Evaluator.Eval2 | src/eval.rs:77-87 | the outcome and new stack are those of `EvalBinary`: left operand, then right operand in the left one's resulting stack, then the combination |
| Evaluation.Evaluator.Combination | src/eval.rs:80-86 | the nested loops compute `Combine` of the two value sequences |
| Evaluation.DefineAndRedefine | src/eval.rs:32-52 | on a new evaluator, x defined as 5 then referenced gives [5/1]; redefined as 7 it gives [7/1]; an undefined name gives [] |

## Left out

- `evaluate(String)` (`src/eval.rs:17-27`) calls the parser and prints parse errors with `println!`. The parser is not part of this model, and neither is that I/O.
- `gcd` from `crate::values` is not part of this model. It is an uninterpreted parameter, and nothing is assumed about its sign or its behaviour at zero.
- Fixed-width integers: the model uses unbounded integers. Rust's overflow panics and wrap-around are not modelled, and neither is the panic on the most negative integer divided by -1.
- `HashMap` hashing and iteration order: a frame is a Dafny `map`, because only `insert` and `get` are used.
- Source positions in the tree nodes are dropped. Node kinds the evaluator does not handle are collapsed into one `Unhandled` kind.
- Closure application: the source defines no call semantics.
- Stack overflow on unbounded recursion is modelled by the depth bound `fuel` and the outcome `DepthExceeded`. How deep the real stack goes is not modelled.
- A panic ends the whole program in Rust. The model returns `DivideByZero` and says nothing about the scope stack left behind.
- The nested loops of `eval2` are a separate method, `Combination`. Nothing of `eval2` is lost by this.
- `add` is given no "correct sum" contract, because the source's formula does not compute one. The lemmas above pin what it does compute.
