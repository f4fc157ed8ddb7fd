/**
 Differentiation with respect to one caller-held leaf.

 `Diff` is the library's graph mode: every node's `diff(p)` returns a new
 expression built with the composition operators, reusing the original
 operand sub-expressions where a rule needs an operand's value, so the result
 can be evaluated or differentiated again. `DiffValue` is the value mode of
 the same rules, collapsing to a number at every level; it is the reference
 the graph mode is proved against.
 */
module Differentiate {
  import opened Numbers
  import opened Expressions
  import opened Compose

  /** Graph-mode `diff(p)`. A leaf yields a fresh constant `T(1)` when it is
      the leaf at address `p` (identity, not value) and a fresh `T(0)`
      otherwise. The derivative never mentions a caller-held leaf that `e`
      does not, and it can be evaluated exactly where `e` can: differentiating
      never introduces a division by zero and never removes one. */
  function Diff<T>(e: Expr<T>, p: Address, num: Arith<T>): (d: Expr<T>)
    ensures Addresses(d) <= Addresses(e)
    ensures Eval(d, num).Defined? <==> Eval(e, num).Defined?
  {
    match e
    case Input(id, _) => Input(Fresh, if id == Held(p) then num.one else num.zero)
    case Add(l, r) => Plus(Node(Diff(l, p, num)), Node(Diff(r, p, num)))
    case Sub(l, r) => Minus(Node(Diff(l, p, num)), Node(Diff(r, p, num)))
    case Mult(l, r) =>
      Plus(Node(Times(Node(Diff(l, p, num)), Node(r))), Node(Times(Node(l), Node(Diff(r, p, num)))))
    case Div(l, r) =>
      var dl, dr := Diff(l, p, num), Diff(r, p, num);
      var numerator := Minus(Node(Times(Node(dl), Node(r))), Node(Times(Node(l), Node(dr))));
      assert numerator == Sub(Mult(dl, r), Mult(l, dr));
      NumeratorValue(l, r, dl, dr, num);
      QuotientGraphValue(numerator, r, num);
      Over(Node(Over(Node(numerator), Node(r))), Node(r))
    case Exp(t) => Times(Node(ExpOf(t)), Node(Diff(t, p, num)))
  }

  /** Value-mode differentiation: the sum, difference, product, quotient and
      chain rules applied to operand values and operand derivatives, with the
      quotient rule in its textbook form `(l' r - l r') / (r r)`. It is
      defined exactly where the expression itself can be evaluated. */
  function DiffValue<T(==)>(e: Expr<T>, p: Address, num: Arith<T>): (d: Partial<T>)
    ensures d.Defined? <==> Eval(e, num).Defined?
  {
    match e
    case Input(id, _) => Defined(if id == Held(p) then num.one else num.zero)
    case Add(l, r) =>
      var dl, dr := DiffValue(l, p, num), DiffValue(r, p, num);
      if dl.Defined? && dr.Defined? then Defined(num.add(dl.value, dr.value)) else Undefined
    case Sub(l, r) =>
      var dl, dr := DiffValue(l, p, num), DiffValue(r, p, num);
      if dl.Defined? && dr.Defined? then Defined(num.sub(dl.value, dr.value)) else Undefined
    case Mult(l, r) =>
      var vl, vr := Eval(l, num), Eval(r, num);
      var dl, dr := DiffValue(l, p, num), DiffValue(r, p, num);
      if vl.Defined? && vr.Defined? && dl.Defined? && dr.Defined?
      then Defined(num.add(num.mul(dl.value, vr.value), num.mul(vl.value, dr.value)))
      else Undefined
    case Div(l, r) =>
      var vl, vr := Eval(l, num), Eval(r, num);
      var dl, dr := DiffValue(l, p, num), DiffValue(r, p, num);
      if vl.Defined? && vr.Defined? && dl.Defined? && dr.Defined? && vr.value != num.zero
      then
        var numerator := num.sub(num.mul(dl.value, vr.value), num.mul(vl.value, dr.value));
        Defined(num.div(numerator, num.mul(vr.value, vr.value)))
      else Undefined
    case Exp(t) =>
      var vt, dt := Eval(t, num), DiffValue(t, p, num);
      if vt.Defined? && dt.Defined? then Defined(num.mul(num.exp(vt.value), dt.value)) else Undefined
  }

  /** The numerator `Sub(Mult(dl, r), Mult(l, dr))` of the quotient-rule graph
      is defined exactly when its four inputs are, and is then
      `dl * r - l * dr`. */
  lemma NumeratorValue<T>(l: Expr<T>, r: Expr<T>, dl: Expr<T>, dr: Expr<T>, num: Arith<T>)
    ensures var vl, vr, vdl, vdr := Eval(l, num), Eval(r, num), Eval(dl, num), Eval(dr, num);
      var g := Eval(Sub(Mult(dl, r), Mult(l, dr)), num);
      && (g.Defined? <==> vl.Defined? && vr.Defined? && vdl.Defined? && vdr.Defined?)
      && (g.Defined? ==> g.value == num.sub(num.mul(vdl.value, vr.value), num.mul(vl.value, vdr.value)))
  {
    assert Eval(Mult(dl, r), num).Defined? <==> Eval(dl, num).Defined? && Eval(r, num).Defined?;
    assert Eval(Mult(l, dr), num).Defined? <==> Eval(l, num).Defined? && Eval(dr, num).Defined?;
  }

  /** Evaluating the quotient-rule graph `Div(Div(n, r), r)`: it is defined
      exactly when the numerator and the divisor are and the divisor is
      nonzero, and then it divides the numerator by `r` twice. */
  lemma QuotientGraphValue<T>(n: Expr<T>, r: Expr<T>, num: Arith<T>)
    ensures var vn, vr := Eval(n, num), Eval(r, num);
      var g := Eval(Div(Div(n, r), r), num);
      && (g.Defined? <==> vn.Defined? && vr.Defined? && vr.value != num.zero)
      && (g.Defined? ==> g.value == num.div(num.div(vn.value, vr.value), vr.value))
  {
    assert Eval(Div(n, r), num).Defined? <==> Eval(n, num).Defined? && Eval(r, num).Defined? && Eval(r, num).value != num.zero;
  }

  /** Graph mode and value mode agree: evaluating the derivative graph gives
      the value-mode derivative, and one is undefined exactly when the other
      is. The graph divides by `r` twice where the value mode divides once by
      `r * r`, so the number type must satisfy the quotient law (the reals
      do, see `RealsLaws`). */
  lemma {:induction false} GraphMatchesValueMode<T(!new)>(e: Expr<T>, p: Address, num: Arith<T>)
    requires QuotientLaw(num)
    ensures Eval(Diff(e, p, num), num) == DiffValue(e, p, num)
  {
    match e
    case Input(_, _) =>
    case Add(l, r) =>
      GraphMatchesValueMode(l, p, num);
      GraphMatchesValueMode(r, p, num);
    case Sub(l, r) =>
      GraphMatchesValueMode(l, p, num);
      GraphMatchesValueMode(r, p, num);
    case Mult(l, r) =>
      GraphMatchesValueMode(l, p, num);
      GraphMatchesValueMode(r, p, num);
    case Div(l, r) =>
      GraphMatchesValueMode(l, p, num);
      GraphMatchesValueMode(r, p, num);
      NumeratorValue(l, r, Diff(l, p, num), Diff(r, p, num), num);
      QuotientGraphValue(Sub(Mult(Diff(l, p, num), r), Mult(l, Diff(r, p, num))), r, num);
    case Exp(t) =>
      GraphMatchesValueMode(t, p, num);
  }

  /** Over the reals, evaluating the derivative graph is value-mode
      differentiation, whatever `std::exp` is. */
  lemma GraphMatchesValueModeReals(e: Expr<real>, p: Address, exp: real -> real)
    ensures Eval(Diff(e, p, Reals(exp)), Reals(exp)) == DiffValue(e, p, Reals(exp))
  {
    RealsLaws(exp);
    GraphMatchesValueMode(e, p, Reals(exp));
  }

  /** Differentiating introduces no new divisor: every division node of the
      derivative graph divides by a divisor of the original expression. */
  lemma {:induction false} DiffDenominators<T>(e: Expr<T>, p: Address, num: Arith<T>)
    ensures Denominators(Diff(e, p, num)) <= Denominators(e)
  {
    match e
    case Input(_, _) =>
    case Add(l, r) =>
      DiffDenominators(l, p, num);
      DiffDenominators(r, p, num);
    case Sub(l, r) =>
      DiffDenominators(l, p, num);
      DiffDenominators(r, p, num);
    case Mult(l, r) =>
      DiffDenominators(l, p, num);
      DiffDenominators(r, p, num);
    case Div(l, r) =>
      DiffDenominators(l, p, num);
      DiffDenominators(r, p, num);
      var dl, dr := Diff(l, p, num), Diff(r, p, num);
      var n := Sub(Mult(dl, r), Mult(l, dr));
      assert Diff(e, p, num) == Div(Div(n, r), r);
      assert Denominators(n) == Denominators(dl) + Denominators(r) + Denominators(l) + Denominators(dr);
      assert Denominators(Div(n, r)) == {r} + Denominators(n) + Denominators(r);
    case Exp(t) =>
      DiffDenominators(t, p, num);
  }

  /** The result of `diff` is again an expression: differentiating it a second
      time (a second derivative or a mixed partial) is defined wherever the
      original is, and mentions no leaf the original does not. */
  lemma DiffTwice<T>(e: Expr<T>, p: Address, q: Address, num: Arith<T>)
    ensures Eval(Diff(Diff(e, p, num), q, num), num).Defined? <==> Eval(e, num).Defined?
    ensures Addresses(Diff(Diff(e, p, num), q, num)) <= Addresses(e)
  {
  }

  /** A leaf evaluates to its stored number, and its derivative evaluates to
      one exactly when the target is that leaf's own address, whatever number
      it holds; otherwise, and always for a library-made leaf, to zero. */
  lemma LeafRule<T>(id: Identity, c: T, p: Address, num: Arith<T>)
    requires num.one != num.zero
    ensures Eval(Input(id, c), num) == Defined(c)
    ensures Eval(Diff(Input(id, c), p, num), num) == Defined(num.one) <==> id == Held(p)
    ensures id != Held(p) ==> Eval(Diff(Input(id, c), p, num), num) == Defined(num.zero)
  {
  }

  /** The graphs the five composite rules build, whatever the operands
      evaluate to: `Add(dl, dr)`, `Sub(dl, dr)`, `Add(Mult(dl, r), Mult(l, dr))`
      over the operands themselves, `Div(Div(Sub(Mult(dl, r), Mult(l, dr)), r), r)`,
      and `Mult(Exp(t), dt)` over a new `Exp` node on the same operand. */
  lemma RuleShapes<T>(l: Expr<T>, r: Expr<T>, t: Expr<T>, p: Address, num: Arith<T>)
    ensures Diff(Add(l, r), p, num) == Add(Diff(l, p, num), Diff(r, p, num))
    ensures Diff(Sub(l, r), p, num) == Sub(Diff(l, p, num), Diff(r, p, num))
    ensures Diff(Mult(l, r), p, num) == Add(Mult(Diff(l, p, num), r), Mult(l, Diff(r, p, num)))
    ensures Diff(Div(l, r), p, num)
         == Div(Div(Sub(Mult(Diff(l, p, num), r), Mult(l, Diff(r, p, num))), r), r)
    ensures Diff(Exp(t), p, num) == Mult(Exp(t), Diff(t, p, num))
  {
  }

  /** Sum rule: where the operands have values, a sum has value `l + r` and
      its derivative evaluates to `l' + r'`. */
  lemma SumRule<T>(l: Expr<T>, r: Expr<T>, p: Address, num: Arith<T>)
    requires Eval(l, num).Defined? && Eval(r, num).Defined?
    ensures Eval(Diff(l, p, num), num).Defined? && Eval(Diff(r, p, num), num).Defined?
    ensures Eval(Add(l, r), num) == Defined(num.add(Eval(l, num).value, Eval(r, num).value))
    ensures Eval(Diff(Add(l, r), p, num), num)
         == Defined(num.add(Eval(Diff(l, p, num), num).value, Eval(Diff(r, p, num), num).value))
  {
    assert Diff(Add(l, r), p, num) == Add(Diff(l, p, num), Diff(r, p, num));
  }

  /** Difference rule: where the operands have values, a difference has value
      `l - r` and its derivative evaluates to `l' - r'`. */
  lemma DifferenceRule<T>(l: Expr<T>, r: Expr<T>, p: Address, num: Arith<T>)
    requires Eval(l, num).Defined? && Eval(r, num).Defined?
    ensures Eval(Diff(l, p, num), num).Defined? && Eval(Diff(r, p, num), num).Defined?
    ensures Eval(Sub(l, r), num) == Defined(num.sub(Eval(l, num).value, Eval(r, num).value))
    ensures Eval(Diff(Sub(l, r), p, num), num)
         == Defined(num.sub(Eval(Diff(l, p, num), num).value, Eval(Diff(r, p, num), num).value))
  {
    assert Diff(Sub(l, r), p, num) == Sub(Diff(l, p, num), Diff(r, p, num));
  }

  /** Product rule: where the operands have values, a product has value
      `l * r` and its derivative evaluates to `l' * r + l * r'`. */
  lemma ProductRule<T>(l: Expr<T>, r: Expr<T>, p: Address, num: Arith<T>)
    requires Eval(l, num).Defined? && Eval(r, num).Defined?
    ensures Eval(Diff(l, p, num), num).Defined? && Eval(Diff(r, p, num), num).Defined?
    ensures var vl, vr := Eval(l, num).value, Eval(r, num).value;
      var dl, dr := Eval(Diff(l, p, num), num).value, Eval(Diff(r, p, num), num).value;
      && Eval(Mult(l, r), num) == Defined(num.mul(vl, vr))
      && Eval(Diff(Mult(l, r), p, num), num) == Defined(num.add(num.mul(dl, vr), num.mul(vl, dr)))
  {
    assert Diff(Mult(l, r), p, num) == Add(Mult(Diff(l, p, num), r), Mult(l, Diff(r, p, num)));
  }

  /** Quotient rule: where the operands have values, a zero divisor leaves
      the derivative undefined like the quotient itself; otherwise the
      derivative evaluates to `(l' * r - l * r') / r / r`, which is
      `(l' * r - l * r') / (r * r)` in a number type with the quotient law. */
  lemma QuotientRule<T(!new)>(l: Expr<T>, r: Expr<T>, p: Address, num: Arith<T>)
    requires Eval(l, num).Defined? && Eval(r, num).Defined?
    ensures Eval(Diff(l, p, num), num).Defined? && Eval(Diff(r, p, num), num).Defined?
    ensures Eval(r, num).value == num.zero ==>
      Eval(Div(l, r), num) == Undefined && Eval(Diff(Div(l, r), p, num), num) == Undefined
    ensures var vl, vr := Eval(l, num).value, Eval(r, num).value;
      var dl, dr := Eval(Diff(l, p, num), num).value, Eval(Diff(r, p, num), num).value;
      var numerator := num.sub(num.mul(dl, vr), num.mul(vl, dr));
      vr != num.zero ==>
        && Eval(Div(l, r), num) == Defined(num.div(vl, vr))
        && Eval(Diff(Div(l, r), p, num), num) == Defined(num.div(num.div(numerator, vr), vr))
        && (QuotientLaw(num) ==>
              Eval(Diff(Div(l, r), p, num), num) == Defined(num.div(numerator, num.mul(vr, vr))))
  {
    NumeratorValue(l, r, Diff(l, p, num), Diff(r, p, num), num);
    QuotientGraphValue(Sub(Mult(Diff(l, p, num), r), Mult(l, Diff(r, p, num))), r, num);
  }

  /** Chain rule for `exp`: where the operand has a value `t`, `exp(t)` has
      value `exp` of it and its derivative evaluates to `exp(t) * t'`. */
  lemma ExpChainRule<T>(t: Expr<T>, p: Address, num: Arith<T>)
    requires Eval(t, num).Defined?
    ensures Eval(Diff(t, p, num), num).Defined?
    ensures Eval(Exp(t), num) == Defined(num.exp(Eval(t, num).value))
    ensures Eval(Diff(Exp(t), p, num), num)
         == Defined(num.mul(num.exp(Eval(t, num).value), Eval(Diff(t, p, num), num).value))
  {
    assert Diff(Exp(t), p, num) == Mult(Exp(t), Diff(t, p, num));
  }

  /** Differentiating with respect to a leaf that does not occur in `e` gives
      zero wherever `e` is defined, provided zero behaves as zero in the number
      type (the reals' does, see `RealsLaws`). */
  lemma {:induction false} AbsentTargetDerivativeZero<T(!new)>(e: Expr<T>, p: Address, num: Arith<T>)
    requires ZeroLaws(num)
    requires p !in Addresses(e)
    requires Eval(e, num).Defined?
    ensures Eval(Diff(e, p, num), num) == Defined(num.zero)
  {
    match e
    case Input(_, _) =>
    case Add(l, r) =>
      AbsentTargetDerivativeZero(l, p, num);
      AbsentTargetDerivativeZero(r, p, num);
    case Sub(l, r) =>
      AbsentTargetDerivativeZero(l, p, num);
      AbsentTargetDerivativeZero(r, p, num);
    case Mult(l, r) =>
      AbsentTargetDerivativeZero(l, p, num);
      AbsentTargetDerivativeZero(r, p, num);
    case Div(l, r) =>
      AbsentTargetDerivativeZero(l, p, num);
      AbsentTargetDerivativeZero(r, p, num);
      NumeratorValue(l, r, Diff(l, p, num), Diff(r, p, num), num);
      QuotientGraphValue(Sub(Mult(Diff(l, p, num), r), Mult(l, Diff(r, p, num))), r, num);
    case Exp(t) =>
      AbsentTargetDerivativeZero(t, p, num);
  }

  /** A promoted literal is a leaf no target can name: it adds no address and
      differentiates to zero. */
  lemma PromotedLiteralIsConstant<T>(c: T, p: Address, num: Arith<T>)
    ensures Addresses(Promote(Literal(c))) == {}
    ensures Eval(Promote(Literal(c)), num) == Defined(c)
    ensures Eval(Diff(Promote(Literal(c)), p, num), num) == Defined(num.zero)
  {
  }

  /** `e op c`: the node kind is that of the operator, and the derivative has
      the literal's zero in the literal's place. */
  lemma LiteralOnRight<T>(e: Expr<T>, c: T, p: Address, num: Arith<T>)
    requires Eval(e, num).Defined?
    ensures Plus(Node(e), Literal(c)).Add? && Minus(Node(e), Literal(c)).Sub?
    ensures Times(Node(e), Literal(c)).Mult? && Over(Node(e), Literal(c)).Div?
    ensures Eval(Diff(e, p, num), num).Defined?
    ensures var v, d, z := Eval(e, num).value, Eval(Diff(e, p, num), num).value, num.zero;
      && Eval(Diff(Plus(Node(e), Literal(c)), p, num), num) == Defined(num.add(d, z))
      && Eval(Diff(Minus(Node(e), Literal(c)), p, num), num) == Defined(num.sub(d, z))
      && Eval(Diff(Times(Node(e), Literal(c)), p, num), num)
         == Defined(num.add(num.mul(d, c), num.mul(v, z)))
  {
    var k := Input(Fresh, c);
    assert Diff(k, p, num) == Input(Fresh, num.zero);
    assert Diff(Plus(Node(e), Literal(c)), p, num) == Add(Diff(e, p, num), Diff(k, p, num));
    assert Diff(Minus(Node(e), Literal(c)), p, num) == Sub(Diff(e, p, num), Diff(k, p, num));
    assert Diff(Times(Node(e), Literal(c)), p, num)
        == Add(Mult(Diff(e, p, num), k), Mult(e, Diff(k, p, num)));
    assert Eval(Mult(Diff(e, p, num), k), num)
        == Defined(num.mul(Eval(Diff(e, p, num), num).value, c));
    assert Eval(Mult(e, Diff(k, p, num)), num) == Defined(num.mul(Eval(e, num).value, num.zero));
  }

  /** `c op e`: the same node kinds as `e op c`, and the derivative has the
      literal's zero in the literal's place. */
  lemma LiteralOnLeft<T>(e: Expr<T>, c: T, p: Address, num: Arith<T>)
    requires Eval(e, num).Defined?
    ensures Plus(Literal(c), Node(e)).Add? && Minus(Literal(c), Node(e)).Sub?
    ensures Times(Literal(c), Node(e)).Mult? && Over(Literal(c), Node(e)).Div?
    ensures Eval(Diff(e, p, num), num).Defined?
    ensures var v, d, z := Eval(e, num).value, Eval(Diff(e, p, num), num).value, num.zero;
      && Eval(Diff(Plus(Literal(c), Node(e)), p, num), num) == Defined(num.add(z, d))
      && Eval(Diff(Minus(Literal(c), Node(e)), p, num), num) == Defined(num.sub(z, d))
      && Eval(Diff(Times(Literal(c), Node(e)), p, num), num)
         == Defined(num.add(num.mul(z, v), num.mul(c, d)))
  {
    var k := Input(Fresh, c);
    assert Diff(k, p, num) == Input(Fresh, num.zero);
    assert Diff(Plus(Literal(c), Node(e)), p, num) == Add(Diff(k, p, num), Diff(e, p, num));
    assert Diff(Minus(Literal(c), Node(e)), p, num) == Sub(Diff(k, p, num), Diff(e, p, num));
    assert Diff(Times(Literal(c), Node(e)), p, num)
        == Add(Mult(Diff(k, p, num), e), Mult(k, Diff(e, p, num)));
    assert Eval(Mult(Diff(k, p, num), e), num) == Defined(num.mul(num.zero, Eval(e, num).value));
    assert Eval(Mult(k, Diff(e, p, num)), num)
        == Defined(num.mul(c, Eval(Diff(e, p, num), num).value));
  }
}
