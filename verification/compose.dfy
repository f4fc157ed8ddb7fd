/**
 The composition layer: the overloaded `+ - * /` and `exp` that grow the
 graph. Each binary operator accepts a node or a plain number on either side
 (but not two numbers, which is ordinary arithmetic); a number is promoted to
 a fresh `Input` leaf that no caller holds.
 */
module Compose {
  import opened Numbers
  import opened Expressions

  /** One side of a binary operator: an existing node or a numeric literal. */
  datatype Operand<T> = Node(e: Expr<T>) | Literal(c: T)

  /** Promotion of a literal to an anonymous leaf; a node is used as is.
      Promotion brings in no caller-held leaf beyond the operand's own. */
  function Promote<T>(a: Operand<T>): (n: Expr<T>)
    ensures Addresses(n) == OperandAddresses(a)
  {
    match a
    case Node(e) => e
    case Literal(c) => Input(Fresh, c)
  }

  /** The caller-held leaves of an operand. */
  function OperandAddresses<T>(a: Operand<T>): set<Address>
  {
    if a.Node? then Addresses(a.e) else {}
  }

  /** The value an operand contributes: a literal its number, a node its
      evaluation. */
  function OperandValue<T(==)>(a: Operand<T>, num: Arith<T>): Partial<T>
  {
    if a.Node? then Eval(a.e, num) else Defined(a.c)
  }

  /** Promotion keeps the operand's value: a promoted literal evaluates to
      its number, and a node to what it evaluated to before. */
  lemma PromoteValue<T>(a: Operand<T>, num: Arith<T>)
    ensures Eval(Promote(a), num) == OperandValue(a, num)
  {
  }

  /** At least one side is a node, as every overload demands. */
  predicate Composable<T>(a: Operand<T>, b: Operand<T>)
  {
    a.Node? || b.Node?
  }

  /** `operator+` in its three overloads. */
  function Plus<T>(a: Operand<T>, b: Operand<T>): (n: Expr<T>)
    requires Composable(a, b)
    ensures n.Add?
    ensures Addresses(n) == OperandAddresses(a) + OperandAddresses(b)
  {
    Add(Promote(a), Promote(b))
  }

  /** `operator-` in its three overloads. */
  function Minus<T>(a: Operand<T>, b: Operand<T>): (n: Expr<T>)
    requires Composable(a, b)
    ensures n.Sub?
    ensures Addresses(n) == OperandAddresses(a) + OperandAddresses(b)
  {
    Sub(Promote(a), Promote(b))
  }

  /** `operator*` in its three overloads. */
  function Times<T>(a: Operand<T>, b: Operand<T>): (n: Expr<T>)
    requires Composable(a, b)
    ensures n.Mult?
    ensures Addresses(n) == OperandAddresses(a) + OperandAddresses(b)
  {
    Mult(Promote(a), Promote(b))
  }

  /** `operator/` in its three overloads. */
  function Over<T>(a: Operand<T>, b: Operand<T>): (n: Expr<T>)
    requires Composable(a, b)
    ensures n.Div?
    ensures Addresses(n) == OperandAddresses(a) + OperandAddresses(b)
  {
    Div(Promote(a), Promote(b))
  }

  /** `exp`, which accepts a node only. */
  function ExpOf<T>(t: Expr<T>): (n: Expr<T>)
    ensures n.Exp? && Addresses(n) == Addresses(t)
  {
    Exp(t)
  }

  /** A composed node evaluates to the operator applied to its operands'
      values, whichever side the literal is on; division is undefined at a
      zero divisor. */
  lemma PromotedValues<T>(a: Operand<T>, b: Operand<T>, num: Arith<T>)
    requires Composable(a, b)
    requires OperandValue(a, num).Defined? && OperandValue(b, num).Defined?
    ensures var x, y := OperandValue(a, num).value, OperandValue(b, num).value;
      && Eval(Plus(a, b), num) == Defined(num.add(x, y))
      && Eval(Minus(a, b), num) == Defined(num.sub(x, y))
      && Eval(Times(a, b), num) == Defined(num.mul(x, y))
      && Eval(Over(a, b), num) == (if y != num.zero then Defined(num.div(x, y)) else Undefined)
  {
  }
}
