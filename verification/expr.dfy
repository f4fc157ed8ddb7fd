/**
 The expression graph of the differentiator and its evaluator.

 Every node kind of the library (`Input`, `Add`, `Sub`, `Mult`, `Div`, `Exp`)
 is one constructor of `Expr`. Shared sub-expressions need no reference
 counting here: a datatype value is immutable and may occur under several
 parents. The only object identity that matters to the library is the
 address of an `Input` leaf, which `diff` compares against its target; it is
 kept as the leaf's `Identity`.
 */
module Expressions {
  import opened Numbers

  /** The result of evaluating a graph: `Undefined` where a `double` would
      hold an infinity or NaN after a division by zero. */
  datatype Partial<T> = Undefined | Defined(value: T)

  /** The address of a leaf, as the caller holds it. */
  type Address = nat

  /** `Held(a)` is a leaf the caller built and can name as a differentiation
      target. `Fresh` is a leaf the library allocated itself (a promoted
      literal, or a constant 1 or 0 built by `diff`): its address is never
      handed out, so it never equals a target. */
  datatype Identity = Held(addr: Address) | Fresh

  /** A node over the number type `T`. */
  datatype Expr<T> =
    | Input(id: Identity, v: T)
    | Add(l: Expr<T>, r: Expr<T>)
    | Sub(l: Expr<T>, r: Expr<T>)
    | Mult(l: Expr<T>, r: Expr<T>)
    | Div(l: Expr<T>, r: Expr<T>)
    | Exp(arg: Expr<T>)

  /** `value()`: bottom-up evaluation in the number type `num`. A divisor
      equal to zero makes the result undefined (where `double` would produce
      an infinity or NaN). */
  function Eval<T(==)>(e: Expr<T>, num: Arith<T>): Partial<T>
  {
    match e
    case Input(_, v) => Defined(v)
    case Add(l, r) =>
      var a, b := Eval(l, num), Eval(r, num);
      if a.Defined? && b.Defined? then Defined(num.add(a.value, b.value)) else Undefined
    case Sub(l, r) =>
      var a, b := Eval(l, num), Eval(r, num);
      if a.Defined? && b.Defined? then Defined(num.sub(a.value, b.value)) else Undefined
    case Mult(l, r) =>
      var a, b := Eval(l, num), Eval(r, num);
      if a.Defined? && b.Defined? then Defined(num.mul(a.value, b.value)) else Undefined
    case Div(l, r) =>
      var a, b := Eval(l, num), Eval(r, num);
      if a.Defined? && b.Defined? && b.value != num.zero then Defined(num.div(a.value, b.value)) else Undefined
    case Exp(t) =>
      var a := Eval(t, num);
      if a.Defined? then Defined(num.exp(a.value)) else Undefined
  }

  /** The addresses of the caller-held leaves occurring in `e`: the only
      targets with respect to which `e` can have a nonzero derivative. */
  function Addresses<T>(e: Expr<T>): set<Address>
  {
    match e
    case Input(id, _) => if id.Held? then {id.addr} else {}
    case Add(l, r) => Addresses(l) + Addresses(r)
    case Sub(l, r) => Addresses(l) + Addresses(r)
    case Mult(l, r) => Addresses(l) + Addresses(r)
    case Div(l, r) => Addresses(l) + Addresses(r)
    case Exp(t) => Addresses(t)
  }

  /** The right operands of all `Div` nodes of `e`. */
  function Denominators<T(==)>(e: Expr<T>): set<Expr<T>>
  {
    match e
    case Input(_, _) => {}
    case Add(l, r) => Denominators(l) + Denominators(r)
    case Sub(l, r) => Denominators(l) + Denominators(r)
    case Mult(l, r) => Denominators(l) + Denominators(r)
    case Div(l, r) => {r} + Denominators(l) + Denominators(r)
    case Exp(t) => Denominators(t)
  }

  /** No denominator of `e` evaluates to zero. */
  predicate DenominatorsNonzero<T(==)>(e: Expr<T>, num: Arith<T>)
  {
    forall d :: d in Denominators(e) ==> Eval(d, num) != Defined(num.zero)
  }

  /** Evaluation is undefined exactly when some division in the graph has a
      divisor that evaluates to zero; every other node is total. */
  lemma {:induction false} EvalDefinedIff<T>(e: Expr<T>, num: Arith<T>)
    ensures Eval(e, num).Defined? <==> DenominatorsNonzero(e, num)
  {
    match e
    case Input(_, _) =>
    case Add(l, r) =>
      EvalDefinedIff(l, num);
      EvalDefinedIff(r, num);
    case Sub(l, r) =>
      EvalDefinedIff(l, num);
      EvalDefinedIff(r, num);
    case Mult(l, r) =>
      EvalDefinedIff(l, num);
      EvalDefinedIff(r, num);
    case Div(l, r) =>
      EvalDefinedIff(l, num);
      EvalDefinedIff(r, num);
    case Exp(t) =>
      EvalDefinedIff(t, num);
  }
}
