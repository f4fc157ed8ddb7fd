# kyadet in Dafny

kyadet is a header-only C++ library for symbolic forward-mode automatic
differentiation. A caller builds an immutable expression graph from `Input`
leaves with the overloaded operators `+ - * /` and `exp`. Every node answers
`value()` and `diff(p)`. The answer to `diff(p)` is a new graph: the
derivative with respect to the leaf at address `p`. That graph can be
evaluated or differentiated again.

This project models that core and proves the calculus rules it implements.

- **Expressions** (`expr.dfy`). `Expr` has one constructor per node kind:
  `Input`, `Add`, `Sub`, `Mult`, `Div` and `Exp`.
  - A leaf's `Identity` stands for its address. `Held(a)` is a leaf the caller
    built and can name as a target. `Fresh` is a leaf the library allocated
    itself, such as a promoted literal or a constant 1 or 0 built by `diff`.
  - `Eval` is `value()`. It is `Undefined` where a divisor evaluates to zero.
- **Numbers** (`numbers.dfy`). The library is a template over a number type.
  `Arith<T>` is that type's interface: `+ - * /`, `exp`, 0 and 1.
  - The general theorems hold for every instance.
  - The few that need an algebraic law take it as a precondition.
  - `Reals` is the instance with exact real arithmetic. `std::exp` is a
    parameter about which nothing is assumed.
- **Composition** (`compose.dfy`). These are the operator overloads: node or
  number on the left, node or number on the right, but never two numbers.
  A number is promoted to a fresh `Input` leaf.
- **Differentiation** (`diff.dfy`).
  - `Diff` is the graph-mode `diff(p)`. Each rule is built with the
    composition operators, exactly as the C++ `diff` bodies are.
  - `DiffValue` is the same set of rules in value mode, with the textbook
    quotient rule. It is the independent reference that `Diff` is proved
    against.
  - A target that is not a caller-held leaf, such as the address of a
    composite node, matches no leaf and so is an address outside the
    expression.
- **Scenarios** (`scenarios.dfy`). Concrete differentiations over the reals,
  including the library's example program.

## Model

| member | source | states |
|---|---|---|
| Expressions.EvalDefinedIff | kyadet.hpp:205-208 | evaluation fails exactly when some division in the graph has a divisor evaluating to zero; every other node always has a value |
| Compose.Promote | kyadet.hpp:72-75 | promoting an operand brings in exactly the operand's caller-held leaves: none for a number, whose new leaf nobody holds |
| Compose.PromoteValue | kyadet.hpp:72-75 | a promoted number evaluates to that number, and a node operand keeps its value |
| Compose.Plus | kyadet.hpp:64-83 | every `+` overload builds an `Add` node whose caller-held leaves are exactly those of its two operands |
| Compose.Minus | kyadet.hpp:116-135 | every `-` overload builds a `Sub` node whose caller-held leaves are exactly those of its two operands |
| Compose.Times | kyadet.hpp:168-187 | every `*` overload builds a `Mult` node whose caller-held leaves are exactly those of its two operands |
| Compose.Over | kyadet.hpp:220-239 | every `/` overload builds a `Div` node whose caller-held leaves are exactly those of its two operands |
| Compose.ExpOf | kyadet.hpp:264-268 | `exp` builds an `Exp` node over the same caller-held leaves as its operand |
| Compose.PromotedValues | kyadet.hpp:49-52 | a composed node evaluates to the operator applied to its operands' values, whichever side a number is on; a quotient is undefined at a zero divisor |
| Differentiate.Diff | kyadet.hpp:27-261 | models every `diff` body (lines 27-30, 54-57, 106-109, 158-161, 210-213, 258-261); a derivative graph never mentions a caller-held leaf that the differentiated expression does not mention, and has a value exactly where that expression has one, so differentiating never introduces or removes a division by zero |
| Differentiate.DiffValue | kyadet.hpp:210-213 | the reference value-mode rules, which the library itself does not have; the quotient is in the textbook form `(l' r - l r') / (r r)` rather than the graph's `/ r / r`; the value-mode derivative exists exactly where the expression has a value |
| Differentiate.GraphMatchesValueMode | kyadet.hpp:210-213 | evaluating the derivative graph gives the value-mode derivative at every expression and target, where dividing twice by `r` is dividing by `r * r` |
| Differentiate.GraphMatchesValueModeReals | kyadet.hpp:210-213 | over the reals, evaluating the derivative graph always gives the value-mode derivative with the textbook quotient rule |
| Differentiate.DiffDenominators | kyadet.hpp:210-213 | every division in a derivative graph is by a divisor of the differentiated expression |
| Differentiate.DiffTwice | main.cpp:10 | a derivative can be differentiated again; the second derivative has a value exactly where the original has one, and mentions no new leaf |
| Differentiate.LeafRule | kyadet.hpp:22-30 | a leaf's value is its stored number; its derivative is 1 exactly when the target is that leaf's own address, whatever number it holds, and 0 otherwise |
| Differentiate.RuleShapes | kyadet.hpp:54-261 | whatever the operands evaluate to, the derivative of a sum is `Add(dl, dr)`, of a difference `Sub(dl, dr)`, of a product `Add(Mult(dl, r), Mult(l, dr))` over the operands themselves, of a quotient `Div(Div(Sub(Mult(dl, r), Mult(l, dr)), r), r)`, and of `exp(t)` is `Mult(Exp(t), dt)` over a new `Exp` node on the same operand |
| Differentiate.SumRule | kyadet.hpp:49-57 | where the operands have values, a sum's value is the sum of their values and its derivative evaluates to `l' + r'` |
| Differentiate.DifferenceRule | kyadet.hpp:101-109 | where the operands have values, a difference's value is `l - r` and its derivative evaluates to `l' - r'` |
| Differentiate.ProductRule | kyadet.hpp:153-161 | where the operands have values, a product's value is `l * r` and its derivative evaluates to `l' r + l r'` |
| Differentiate.QuotientRule | kyadet.hpp:205-213 | where the operands have values, the derivative of a quotient is undefined at a zero divisor like the quotient itself, and otherwise evaluates to `(l' r - l r') / r / r`, which is `(l' r - l r') / (r r)` in any number type with the quotient law |
| Differentiate.ExpChainRule | kyadet.hpp:253-261 | where the operand has a value, `exp(t)` has value `exp` of it and its derivative evaluates to `exp(t) * t'` |
| Differentiate.AbsentTargetDerivativeZero | kyadet.hpp:27-30 | the derivative with respect to a leaf not occurring in the expression is zero wherever the expression has a value |
| Differentiate.PromotedLiteralIsConstant | kyadet.hpp:72-75 | a promoted number adds no caller-held leaf, keeps its value and differentiates to zero |
| Differentiate.LiteralOnRight | kyadet.hpp:80-83 | `e op c` builds the same node kind as `e op e2`, and its derivative has the literal's zero in the literal's place |
| Differentiate.LiteralOnLeft | kyadet.hpp:72-75 | `c op e` builds the same node kind as `e op c`, and its derivative has the literal's zero in the literal's place |
| Scenarios.ExampleValue | main.cpp:7-9 | with `x = y = 1`, `x * y + 2.0` is 3 and `z = x + y / (x * y + 2.0)` is 4/3 |
| Scenarios.ExampleFirstDerivative | main.cpp:10 | `z->diff(x)` is the graph `1 + (0 * d - y * d') / d / d` over the divisor `d` itself |
| Scenarios.ExampleProgram | main.cpp:7-10 | `z->diff(x)->diff(y)->value()` is -4/27, and every division in that graph is by the node `x * y + 2.0` itself, which is 3 |
| Scenarios.QuotientExample | kyadet.hpp:205-213 | for `z = x / y` at `x = 1`, `y = 2`, the value is 0.5, the derivative in `x` is 0.5, and its derivative in `y` is -0.25 |
| Scenarios.SquareExample | kyadet.hpp:158-161 | `x * x` with `x` holding `c` differentiates to `2c`, both occurrences being the same leaf |
| Scenarios.EqualValuesDistinctLeaves | kyadet.hpp:27-30 | identity, not value, picks the target: of two distinct leaves holding 5, only the target contributes to the derivative of their sum |
| Scenarios.LiteralSumExample | kyadet.hpp:72-83 | `x + 2.0` and `2.0 + x` both have derivative 1 in `x`, and `x + 2.0` has derivative 0 in any other leaf |

## Left out

- Floating point. `double` rounding is not modelled; arithmetic is exact in
  `Reals`. A division by zero makes the value `Undefined`, where IEEE
  arithmetic would yield an infinity or NaN and carry on.
- The meaning of `std::exp`. It is a parameter with no axioms, so every
  statement about it holds for any function.
- Mixed number types. A promoted literal is an `Input` of the literal's own
  C++ type, such as `int` for `2`, so the usual arithmetic conversions apply.
  The model uses one number type throughout.
- Overload selection. The `enable_if` conditions take the literal as a
  forwarding reference `L&&`. A named arithmetic variable deduces a reference
  type, fails `is_arithmetic_v` and is rejected at compile time. The model
  accepts any number operand.
- Ownership. `shared_ptr` and `unique_ptr` lifetimes, the constructors
  taking `L&&`, `R&&` or `T&&` and the empty CRTP base `Parameter`
  (kyadet.hpp:9-11) have no counterpart. Those constructors do not move:
  they copy the named reference into a new shared object with
  `make_shared` (kyadet.hpp:44, 47, 96, 99, 148, 151, 200, 203, 251). A datatype value is immutable, so
  sharing is automatic and `diff` cannot change its input.
- The leaf that `Input::diff` returns at top level. The caller holds that new
  object and could use its address as a later target. The model marks it
  `Fresh`, so such a target is never matched. Leaves inside a composite
  derivative are unreachable to the caller, so `Fresh` is exact for them.
- Literal overloads as written. The only type the literal overloads hand to
  those copying constructors is `Input<…>` (kyadet.hpp:74, 82, 126, 134, 178,
  186, 230, 238). `Input` owns its number through a `unique_ptr`
  (kyadet.hpp:16), so `Input` has no copy constructor. Read as text, every
  literal overload is therefore ill-formed once instantiated, including the
  example program's `x * y + 2.0` (main.cpp:9). `Promote` and the `Literal`
  operands model the evidently intended effect: the number becomes a new
  leaf that nobody holds. They do not model the compile failure.
- Printing in the example program. Only the printed value is modelled.
- Differentiate.GraphMatchesValueMode: proved for number types in which
  dividing twice by `y` equals dividing once by `y * y`. `Numbers.RealsLaws`
  proves the reals satisfy this, and `GraphMatchesValueModeReals` states the
  unconditional real case.
- Differentiate.AbsentTargetDerivativeZero: proved for number types in which
  zero is absorbing for `*`, is a left zero for `/`, and `0 + 0 = 0 - 0 = 0`.
  `Numbers.RealsLaws` proves the reals satisfy this.
- Differentiate.LeafRule: the "exactly when" direction needs `1 != 0` in the
  number type.
- Differentiate.LiteralOnRight: gives derivative values for `+`, `-` and
  `*`. For `/` it states the node kind only; the value then follows from
  `QuotientRule`, since the literal is an ordinary leaf.
- Differentiate.LiteralOnLeft: as `LiteralOnRight`, with the literal on the
  left.
