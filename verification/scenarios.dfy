/**
 Concrete differentiations over the reals: the library's own example program
 and small cases that exercise each rule. No scenario contains an `exp`
 node, so each holds whatever `std::exp` is.
 */
module Scenarios {
  import opened Numbers
  import opened Expressions
  import opened Compose
  import opened Differentiate

  /** Two caller-held leaves, both holding 1. */
  const X: Expr<real> := Input(Held(0), 1.0)
  const Y: Expr<real> := Input(Held(1), 1.0)

  /** The example program's `x * y + 2.0`, with the literal promoted. */
  const Divisor: Expr<real> := Plus(Node(Times(Node(X), Node(Y))), Literal(2.0))

  /** The example program's `z = x + y / (x * y + 2.0)`. */
  const Z: Expr<real> := Plus(Node(X), Node(Over(Node(Y), Node(Divisor))))

  /** The pieces of `z->diff(x)` as the rules build them: the fresh constants
      for the derivatives of `x` and `y`, the derivative of the divisor, and
      the numerator and inner quotient of the quotient rule. */
  const DX: Expr<real> := Input(Fresh, 1.0)
  const DY: Expr<real> := Input(Fresh, 0.0)
  const DDivisor: Expr<real> := Add(Add(Mult(DX, Y), Mult(X, DY)), Input(Fresh, 0.0))
  const Numerator: Expr<real> := Sub(Mult(DY, Divisor), Mult(Y, DDivisor))
  const Inner: Expr<real> := Div(Numerator, Divisor)

  /** The value of `z` and of its divisor. */
  lemma ExampleValue(exp: real -> real)
    ensures Eval(Divisor, Reals(exp)) == Defined(3.0)
    ensures Eval(Z, Reals(exp)) == Defined(4.0 / 3.0)
  {
    var R := Reals(exp);
    assert Eval(Mult(X, Y), R) == Defined(1.0);
    assert Eval(Divisor, R) == Defined(3.0);
    assert Eval(Div(Y, Divisor), R) == Defined(1.0 / 3.0);
  }

  /** `z->diff(x)` is the graph `dx + (dy * d - y * d') / d / d` over the
      divisor `d` itself. */
  lemma ExampleFirstDerivative(exp: real -> real)
    ensures Diff(Z, 0, Reals(exp)) == Add(DX, Div(Inner, Divisor))
  {
    var R := Reals(exp);
    assert Divisor == Add(Mult(X, Y), Input(Fresh, 2.0));
    assert Z == Add(X, Div(Y, Divisor));
    assert Diff(X, 0, R) == DX && Diff(Y, 0, R) == DY;
    assert Diff(Mult(X, Y), 0, R) == Add(Mult(DX, Y), Mult(X, DY));
    assert Diff(Divisor, 0, R) == DDivisor;
    assert Diff(Div(Y, Divisor), 0, R) == Div(Inner, Divisor);
  }

  /** The values of the pieces of `z->diff(x)`. */
  lemma ExampleFirstDerivativeValues(exp: real -> real)
    ensures Eval(DDivisor, Reals(exp)) == Defined(1.0)
    ensures Eval(Numerator, Reals(exp)) == Defined(-1.0)
    ensures Eval(Inner, Reals(exp)) == Defined(-1.0 / 3.0)
  {
    var R := Reals(exp);
    ExampleValue(exp);
    assert Eval(Mult(DX, Y), R) == Defined(1.0);
    assert Eval(Mult(X, DY), R) == Defined(0.0);
    assert Eval(Add(Mult(DX, Y), Mult(X, DY)), R) == Defined(1.0);
    assert Eval(DDivisor, R) == Defined(1.0);
    assert Eval(Mult(DY, Divisor), R) == Defined(0.0);
    assert Eval(Mult(Y, DDivisor), R) == Defined(1.0);
  }

  /** The value-mode derivatives with respect to `y` of the pieces of
      `z->diff(x)`. */
  lemma ExampleSecondDerivativeValues(exp: real -> real)
    ensures DiffValue(Divisor, 1, Reals(exp)) == Defined(1.0)
    ensures DiffValue(Numerator, 1, Reals(exp)) == Defined(-2.0)
    ensures DiffValue(Inner, 1, Reals(exp)) == Defined(-5.0 / 9.0)
    ensures DiffValue(Div(Inner, Divisor), 1, Reals(exp)) == Defined(-4.0 / 27.0)
  {
    var R := Reals(exp);
    ExampleValue(exp);
    ExampleFirstDerivativeValues(exp);
    assert DiffValue(Mult(X, Y), 1, R) == Defined(1.0);
    assert DiffValue(Divisor, 1, R) == Defined(1.0);
    assert DiffValue(Mult(DX, Y), 1, R) == Defined(1.0);
    assert DiffValue(Mult(X, DY), 1, R) == Defined(0.0);
    assert DiffValue(DDivisor, 1, R) == Defined(1.0);
    assert DiffValue(Mult(DY, Divisor), 1, R) == Defined(0.0);
    assert DiffValue(Mult(Y, DDivisor), 1, R) == Defined(2.0);
    assert DiffValue(Numerator, 1, R) == Defined(-2.0);
  }

  /** The example program: `z` is 1 + 1/3, its mixed second partial
      `z->diff(x)->diff(y)` is -4/27, and every division in that second
      derivative is by the divisor `x * y + 2.0` itself, which is 3. */
  lemma ExampleProgram(exp: real -> real)
    ensures Eval(Z, Reals(exp)) == Defined(4.0 / 3.0)
    ensures Eval(Diff(Diff(Z, 0, Reals(exp)), 1, Reals(exp)), Reals(exp)) == Defined(-4.0 / 27.0)
    ensures Denominators(Diff(Diff(Z, 0, Reals(exp)), 1, Reals(exp))) <= {Divisor}
    ensures forall d :: d in Denominators(Diff(Diff(Z, 0, Reals(exp)), 1, Reals(exp))) ==>
      Eval(d, Reals(exp)) == Defined(3.0)
  {
    var R := Reals(exp);
    var G := Add(DX, Div(Inner, Divisor));
    ExampleValue(exp);
    ExampleFirstDerivative(exp);
    ExampleSecondDerivativeValues(exp);
    assert DiffValue(G, 1, R) == Defined(-4.0 / 27.0);
    GraphMatchesValueModeReals(G, 1, exp);
    assert Denominators(Z) == {Divisor};
    DiffDenominators(Z, 0, R);
    DiffDenominators(G, 1, R);
  }

  /** `z = x / y` at `x = 1`, `y = 2`: `z` is 0.5, `z->diff(x)` is 0.5, and
      differentiating that graph again with respect to `y` gives -0.25. */
  lemma QuotientExample(exp: real -> real)
    ensures var x, y := Input(Held(0), 1.0), Input(Held(1), 2.0);
      var z := Over(Node(x), Node(y));
      && Eval(z, Reals(exp)) == Defined(0.5)
      && Eval(Diff(z, 0, Reals(exp)), Reals(exp)) == Defined(0.5)
      && Eval(Diff(Diff(z, 0, Reals(exp)), 1, Reals(exp)), Reals(exp)) == Defined(-0.25)
  {
    var R := Reals(exp);
    var x, y := Input(Held(0), 1.0), Input(Held(1), 2.0);
    var n := Sub(Mult(Input(Fresh, 1.0), y), Mult(x, Input(Fresh, 0.0)));
    var g := Div(Div(n, y), y);
    assert Diff(Div(x, y), 0, R) == g;
    assert Eval(Mult(Input(Fresh, 1.0), y), R) == Defined(2.0);
    assert Eval(Mult(x, Input(Fresh, 0.0)), R) == Defined(0.0);
    assert Eval(n, R) == Defined(2.0);
    assert Eval(Div(n, y), R) == Defined(1.0);
    assert Eval(g, R) == Defined(0.5);
    assert DiffValue(Mult(Input(Fresh, 1.0), y), 1, R) == Defined(1.0);
    assert DiffValue(Mult(x, Input(Fresh, 0.0)), 1, R) == Defined(0.0);
    assert DiffValue(n, 1, R) == Defined(1.0);
    assert DiffValue(Div(n, y), 1, R) == Defined(0.0);
    assert DiffValue(g, 1, R) == Defined(-0.25);
    GraphMatchesValueModeReals(g, 1, exp);
  }

  /** A shared operand: `x * x` differentiates with respect to `x` to `2c`
      where `x` holds `c`, both occurrences being the same leaf. */
  lemma SquareExample(c: real, exp: real -> real)
    ensures var x := Input(Held(0), c);
      Eval(Diff(Times(Node(x), Node(x)), 0, Reals(exp)), Reals(exp)) == Defined(2.0 * c)
  {
  }

  /** Identity, not value, decides which leaf is the target: two distinct
      leaves that both hold 5 contribute 1 and 0 to the derivative of their
      sum. */
  lemma EqualValuesDistinctLeaves(exp: real -> real)
    ensures var a, b := Input(Held(0), 5.0), Input(Held(1), 5.0);
      && Eval(Diff(Plus(Node(a), Node(b)), 0, Reals(exp)), Reals(exp)) == Defined(1.0)
      && Eval(Diff(Plus(Node(a), Node(a)), 0, Reals(exp)), Reals(exp)) == Defined(2.0)
  {
  }

  /** A literal on either side of `+` differentiates to zero: `x + 2.0` and
      `2.0 + x` both have derivative 1 with respect to `x`, and 0 with
      respect to any other leaf. */
  lemma LiteralSumExample(c: real, q: Address, exp: real -> real)
    requires q != 0
    ensures var x := Input(Held(0), c);
      && Eval(Diff(Plus(Node(x), Literal(2.0)), 0, Reals(exp)), Reals(exp)) == Defined(1.0)
      && Eval(Diff(Plus(Literal(2.0), Node(x)), 0, Reals(exp)), Reals(exp)) == Defined(1.0)
      && Eval(Diff(Plus(Node(x), Literal(2.0)), q, Reals(exp)), Reals(exp)) == Defined(0.0)
  {
  }
}
