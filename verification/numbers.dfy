/**
 The numeric type the library is instantiated with.

 Every node of the library is a template over a number type `T` and uses
 only `T`'s `+ - * /`, `std::exp`, and the constants `T(1)` and `T(0)` that
 `Input::diff` builds. `Arith<T>` is that interface, passed explicitly; the
 general theorems hold for every instance, and the few that need an
 algebraic law say so with a precondition. `Reals` is the instance used for
 concrete numbers, with exact real arithmetic in place of `double`.
 */
module Numbers {

  /** The operations of the number type. `div` is only ever applied to a
      nonzero divisor (evaluation checks first), so its value at zero is
      irrelevant. */
  datatype Arith<!T> = Arith(
    add: (T, T) -> T,
    sub: (T, T) -> T,
    mul: (T, T) -> T,
    div: (T, T) -> T,
    exp: T -> T,
    zero: T,
    one: T)

  /** The laws that make a zero derivative stay zero through every rule. */
  ghost predicate ZeroLaws<T(!new)>(num: Arith<T>)
  {
    && num.add(num.zero, num.zero) == num.zero
    && num.sub(num.zero, num.zero) == num.zero
    && (forall x :: num.mul(num.zero, x) == num.zero)
    && (forall x :: num.mul(x, num.zero) == num.zero)
    && (forall y :: num.div(num.zero, y) == num.zero)
  }

  /** Dividing twice by `y` is dividing once by `y * y`: the law that relates
      the quotient rule as the graph builds it to the textbook formula. */
  ghost predicate QuotientLaw<T(!new)>(num: Arith<T>)
  {
    forall x, y :: y != num.zero ==> num.div(num.div(x, y), y) == num.div(x, num.mul(y, y))
  }

  /** Exact real arithmetic, with `exp` standing for `std::exp` (no property
      of the exponential is assumed). */
  function Reals(exp: real -> real): (num: Arith<real>)
  {
    Arith(
      (x, y) => x + y,
      (x, y) => x - y,
      (x, y) => x * y,
      (x: real, y: real) => if y == 0.0 then 0.0 else x / y,
      exp,
      0.0,
      1.0)
  }

  /** Dividing by `a` and then by `b` is dividing by `a * b`. */
  lemma DivideByProduct(x: real, a: real, b: real)
    requires a != 0.0 && b != 0.0
    ensures x / a / b == x / (a * b)
  {
    assert a * b != 0.0;
    var w := x / a / b;
    assert w * b == x / a;
    assert w * b * a == x;
    assert w * (a * b) == x;
  }

  /** The reals satisfy both laws, whatever `exp` is. */
  lemma RealsLaws(exp: real -> real)
    ensures ZeroLaws(Reals(exp))
    ensures QuotientLaw(Reals(exp))
  {
    var num := Reals(exp);
    forall x: real, y: real | y != 0.0
      ensures num.div(num.div(x, y), y) == num.div(x, num.mul(y, y))
    {
      DivideByProduct(x, y, y);
    }
  }
}
