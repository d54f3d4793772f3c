/** The four arithmetic operators of SciFloat.  Each builds a new value
    through the constructor, so each result is the normalization of a
    (mantissa, exponent) pair computed from the operands' fields. */
module SciArithmetic {
  import opened Powers
  import opened SciFloats

  /** What an operator returns, or the exception it raises. */
  datatype Error = TypeError | ZeroDivisionError
  datatype Result<T> = Ok(value: T) | Err(error: Error)

  /** The right operand of an operator: another SciFloat, a plain Python
      number (`int` or `float`), or anything else. */
  datatype Operand = Sci(v: SciValue) | Number(x: real) | Other

  /** The SciFloat an operand stands for: a plain number `x` is coerced to
      `SciFloat(x, 0)`. */
  function AsSci(o: Operand): (r: SciValue)
    requires !o.Other?
    ensures Value(r) == OperandValue(o)
    ensures o.Number? ==> IsNormal(r)
  {
    match o
    case Sci(v) => v
    case Number(x) => Normalized(x, 0)
  }

  /** The number an operand stands for (other operands stand for none; zero
      is a placeholder). */
  function OperandValue(o: Operand): real {
    match o
    case Sci(v) => Value(v)
    case Number(x) => x
    case Other => 0.0
  }

  function Max(a: int, b: int): (r: int)
    ensures r >= a && r >= b && (r == a || r == b)
  {
    if a < b then b else a
  }

  // ---------------------------------------------------------------------
  // Operators on two SciFloats
  // ---------------------------------------------------------------------

  /** The mantissa of `x` restated at exponent `e`: `x`'s mantissa times
      10^(x.exponent - e). */
  function Align(x: SciValue, e: int): (r: real)
    ensures Scaled(r, e) == Value(x)
  {
    ScaledCompose(x.mantissa, x.exponent - e, e);
    ScaledCongruent(x.mantissa, x.mantissa, x.exponent - e + e, x.exponent);
    Scaled(x.mantissa, x.exponent - e)
  }

  /** `a + b` for two SciFloats: equal exponents add the mantissas, other
      pairs are first restated at the larger exponent.  The result stands
      for the exact sum. */
  function Add(a: SciValue, b: SciValue): (r: SciValue)
    ensures IsNormal(r)
    ensures Value(r) == Value(a) + Value(b)
  {
    if a.exponent == b.exponent then
      ScaledAdd(a.mantissa, b.mantissa, a.exponent);
      Normalized(a.mantissa + b.mantissa, a.exponent)
    else
      var e := Max(a.exponent, b.exponent);
      ScaledAdd(Align(a, e), Align(b, e), e);
      Normalized(Align(a, e) + Align(b, e), e)
  }

  /** `a - b` for two SciFloats, aligned like addition.  The result stands
      for the exact difference. */
  function Sub(a: SciValue, b: SciValue): (r: SciValue)
    ensures IsNormal(r)
    ensures Value(r) == Value(a) - Value(b)
  {
    if a.exponent == b.exponent then
      SubtractScaled(a.mantissa, b.mantissa, a.exponent);
      Normalized(a.mantissa - b.mantissa, a.exponent)
    else
      var e := Max(a.exponent, b.exponent);
      SubtractScaled(Align(a, e), Align(b, e), e);
      Normalized(Align(a, e) - Align(b, e), e)
  }

  lemma SubtractScaled(m: real, n: real, e: int)
    ensures Scaled(m - n, e) == Scaled(m, e) - Scaled(n, e)
  {
    ScaledNeg(n, e);
    ScaledAdd(m, -n, e);
    ScaledCongruent(m + -n, m - n, e, e);
  }

  /** `a * b` for two SciFloats: mantissas multiply, exponents add.  The
      result stands for the exact product. */
  function Mul(a: SciValue, b: SciValue): (r: SciValue)
    ensures IsNormal(r)
    ensures Value(r) == Value(a) * Value(b)
  {
    NormalizedProduct(a.mantissa, a.exponent, b.mantissa, b.exponent, Value(a), Value(b));
    Normalized(a.mantissa * b.mantissa, a.exponent + b.exponent)
  }

  lemma NormalizedProduct(m: real, a: int, n: real, b: int, x: real, y: real)
    requires x == Scaled(m, a) && y == Scaled(n, b)
    ensures Value(Normalized(m * n, a + b)) == x * y
  {
    ScaledProduct(m, a, n, b);
    ProductOfEquals(Scaled(m * n, a + b), Scaled(m, a), Scaled(n, b), x, y);
  }

  lemma ProductOfEquals(p: real, u: real, v: real, x: real, y: real)
    requires p == u * v && u == x && v == y
    ensures p == x * y
  {
  }

  /** `a / b` for two SciFloats whose divisor mantissa is not zero:
      mantissas divide, exponents subtract.  The result stands for the
      exact quotient. */
  function Quotient(a: SciValue, b: SciValue): (r: SciValue)
    requires b.mantissa != 0.0
    ensures IsNormal(r)
    ensures Value(b) != 0.0 && Value(r) == Value(a) / Value(b)
  {
    ScaledQuotient(a.mantissa, a.exponent, b.mantissa, b.exponent);
    Normalized(a.mantissa / b.mantissa, a.exponent - b.exponent)
  }

  // ---------------------------------------------------------------------
  // What each result is
  // ---------------------------------------------------------------------

  /** A constructor call yields the canonical pair of the number it is
      given, except that a zero mantissa keeps the exponent it came with. */
  lemma NormalizedByValue(m: real, e: int)
    ensures Scaled(m, e) != 0.0 ==> Normalized(m, e) == Normalized(Scaled(m, e), 0)
    ensures Scaled(m, e) == 0.0 ==> Normalized(m, e) == SciValue(0.0, e)
  {
    ScaledSign(m, e);
    if m != 0.0 {
      NormalizedCanonical(m, e, Scaled(m, e), 0);
    }
  }

  /** A sum is the canonical pair of the exact sum; a zero sum keeps the
      larger exponent. */
  lemma AddCanonical(a: SciValue, b: SciValue)
    ensures Value(a) + Value(b) != 0.0 ==> Add(a, b) == Normalized(Value(a) + Value(b), 0)
    ensures Value(a) + Value(b) == 0.0 ==> Add(a, b) == SciValue(0.0, Max(a.exponent, b.exponent))
  {
    var e := Max(a.exponent, b.exponent);
    var m := if a.exponent == b.exponent then a.mantissa + b.mantissa else Align(a, e) + Align(b, e);
    assert Add(a, b) == Normalized(m, e);
    assert Scaled(m, e) == Value(a) + Value(b) by {
      if a.exponent == b.exponent {
        ScaledAdd(a.mantissa, b.mantissa, e);
      } else {
        ScaledAdd(Align(a, e), Align(b, e), e);
      }
    }
    NormalizedByValue(m, e);
  }

  /** A difference is the canonical pair of the exact difference; a zero
      difference keeps the larger exponent. */
  lemma SubCanonical(a: SciValue, b: SciValue)
    ensures Value(a) - Value(b) != 0.0 ==> Sub(a, b) == Normalized(Value(a) - Value(b), 0)
    ensures Value(a) - Value(b) == 0.0 ==> Sub(a, b) == SciValue(0.0, Max(a.exponent, b.exponent))
  {
    var e := Max(a.exponent, b.exponent);
    var m := if a.exponent == b.exponent then a.mantissa - b.mantissa else Align(a, e) - Align(b, e);
    assert Sub(a, b) == Normalized(m, e);
    assert Scaled(m, e) == Value(a) - Value(b) by {
      if a.exponent == b.exponent {
        SubtractScaled(a.mantissa, b.mantissa, e);
      } else {
        SubtractScaled(Align(a, e), Align(b, e), e);
      }
    }
    NormalizedByValue(m, e);
  }

  /** A product is the canonical pair of the exact product; a zero factor
      makes the result zero at the sum of the exponents. */
  lemma MulCanonical(a: SciValue, b: SciValue)
    ensures a.mantissa != 0.0 && b.mantissa != 0.0 ==> Mul(a, b) == Normalized(Value(a) * Value(b), 0)
    ensures a.mantissa == 0.0 || b.mantissa == 0.0 ==> Mul(a, b) == SciValue(0.0, a.exponent + b.exponent)
  {
    if a.mantissa == 0.0 || b.mantissa == 0.0 {
      ZeroProduct(a.mantissa, b.mantissa, a.exponent + b.exponent);
    } else {
      var r := Mul(a, b);
      ScaledSign(a.mantissa, a.exponent);
      ScaledSign(b.mantissa, b.exponent);
      NonzeroProduct(Value(a), Value(b));
      ScaledSign(r.mantissa, r.exponent);
      NormalizedIs(Value(a) * Value(b), 0, r);
    }
  }

  lemma ZeroProduct(m: real, n: real, e: int)
    requires m == 0.0 || n == 0.0
    ensures Normalized(m * n, e) == SciValue(0.0, e)
  {
  }

  lemma NonzeroProduct(x: real, y: real)
    requires x != 0.0 && y != 0.0
    ensures x * y != 0.0
  {
  }

  /** A quotient is the canonical pair of the exact quotient; a zero
      dividend keeps the difference of the exponents. */
  lemma QuotientCanonical(a: SciValue, b: SciValue)
    requires b.mantissa != 0.0
    ensures Value(a) != 0.0 ==> Quotient(a, b) == Normalized(Value(a) / Value(b), 0)
    ensures Value(a) == 0.0 ==> Quotient(a, b) == SciValue(0.0, a.exponent - b.exponent)
  {
    ScaledSign(a.mantissa, a.exponent);
    if a.mantissa == 0.0 {
      ZeroQuotient(a.mantissa, b.mantissa, a.exponent - b.exponent);
    } else {
      var r := Quotient(a, b);
      NonzeroQuotient(Value(a), Value(b));
      ScaledSign(r.mantissa, r.exponent);
      NormalizedIs(Value(a) / Value(b), 0, r);
    }
  }

  lemma ZeroQuotient(m: real, n: real, e: int)
    requires m == 0.0 && n != 0.0
    ensures Normalized(m / n, e) == SciValue(0.0, e)
  {
  }

  lemma NonzeroQuotient(x: real, y: real)
    requires x != 0.0 && y != 0.0
    ensures x / y != 0.0
  {
  }

  /** Addition is commutative, including the exponent a zero sum keeps. */
  lemma AddCommutes(a: SciValue, b: SciValue)
    ensures Add(a, b) == Add(b, a)
  {
    AddCanonical(a, b);
    AddCanonical(b, a);
  }

  /** Multiplication is commutative, including the exponent a zero
      product keeps. */
  lemma MulCommutes(a: SciValue, b: SciValue)
    ensures Mul(a, b) == Mul(b, a)
  {
    MulCanonical(a, b);
    MulCanonical(b, a);
  }

  /** Subtracting a value from itself gives a zero mantissa at the value's
      own exponent, not the canonical zero. */
  lemma SubSelf(a: SciValue)
    ensures Sub(a, a) == SciValue(0.0, a.exponent)
  {
    SubCanonical(a, a);
  }

  /** Dividing by a value recovers the dividend, once both are canonical. */
  lemma QuotientUndoesMul(a: SciValue, b: SciValue)
    requires IsNormal(a) && b.mantissa != 0.0
    ensures Quotient(Mul(a, b), b) == a
  {
    if a.mantissa == 0.0 {
      MulCanonical(a, b);
      ScaledSign(0.0, a.exponent + b.exponent);
      QuotientCanonical(Mul(a, b), b);
      return;
    }
    var p := Mul(a, b);
    ScaledSign(a.mantissa, a.exponent);
    ScaledSign(b.mantissa, b.exponent);
    ScaledSign(p.mantissa, p.exponent);
    var r := Quotient(p, b);
    assert Value(r) == Value(a) * Value(b) / Value(b);
    ScaledSign(r.mantissa, r.exponent);
    NormalFormUnique(r, a);
  }

  // ---------------------------------------------------------------------
  // Addition and subtraction as written
  // ---------------------------------------------------------------------

  /** The mantissa SciFloat.py computes for `x` at the larger exponent `e`
      of a sum or difference: `x`'s mantissa times 10^(e - x.exponent),
      which scales up where restating at `e` needs scaling down. */
  function Lifted(x: SciValue, e: int): (r: real)
    requires e >= x.exponent
    ensures Scaled(r, e) == Scaled(Value(x), 2 * (e - x.exponent))
  {
    ScaledCompose(x.mantissa, e - x.exponent, e);
    ScaledCompose(x.mantissa, x.exponent, 2 * (e - x.exponent));
    ScaledCongruent(x.mantissa, x.mantissa, e - x.exponent + e, x.exponent + 2 * (e - x.exponent));
    Scaled(x.mantissa, e - x.exponent)
  }

  /** `a + b` exactly as SciFloat.py writes it.  Equal exponents give the
      exact sum; otherwise the operand with the smaller exponent counts
      10^(2 d) times its value, where d is the gap between the exponents. */
  function AddAsWritten(a: SciValue, b: SciValue): (r: SciValue)
    ensures IsNormal(r)
    ensures a.exponent == b.exponent ==> r == Add(a, b)
    ensures var e := Max(a.exponent, b.exponent);
            Value(r) == Scaled(Value(a), 2 * (e - a.exponent)) + Scaled(Value(b), 2 * (e - b.exponent))
  {
    var e := Max(a.exponent, b.exponent);
    if a.exponent == b.exponent then
      ScaledAdd(a.mantissa, b.mantissa, a.exponent);
      Normalized(a.mantissa + b.mantissa, a.exponent)
    else
      ScaledAdd(Lifted(a, e), Lifted(b, e), e);
      Normalized(Lifted(a, e) + Lifted(b, e), e)
  }

  /** `a - b` exactly as SciFloat.py writes it, with the same scaling as
      `AddAsWritten`. */
  function SubAsWritten(a: SciValue, b: SciValue): (r: SciValue)
    ensures IsNormal(r)
    ensures a.exponent == b.exponent ==> r == Sub(a, b)
    ensures var e := Max(a.exponent, b.exponent);
            Value(r) == Scaled(Value(a), 2 * (e - a.exponent)) - Scaled(Value(b), 2 * (e - b.exponent))
  {
    var e := Max(a.exponent, b.exponent);
    if a.exponent == b.exponent then
      SubtractScaled(a.mantissa, b.mantissa, a.exponent);
      Normalized(a.mantissa - b.mantissa, a.exponent)
    else
      SubtractScaled(Lifted(a, e), Lifted(b, e), e);
      Normalized(Lifted(a, e) - Lifted(b, e), e)
  }

  /** The sum as written does not depend on the order of the operands,
      down to the exponent of a zero sum. */
  lemma AddAsWrittenCommutes(a: SciValue, b: SciValue)
    ensures AddAsWritten(a, b) == AddAsWritten(b, a)
  {
  }

  /** Scaling by a positive exponent fixes only zero. */
  lemma ScaledFixesOnlyZero(x: real, k: int)
    requires k > 0
    ensures Scaled(x, k) == x <==> x == 0.0
  {
    ScaledZero(k);
    if x > 0.0 {
      ScaledStrictlyGrows(x, k);
    } else if x < 0.0 {
      ScaledStrictlyGrows(-x, k);
      ScaledNeg(x, k);
    }
  }

  /** The operand with the smaller exponent (the second on a tie). */
  function Lower(a: SciValue, b: SciValue): (r: SciValue)
    ensures r.exponent <= a.exponent && r.exponent <= b.exponent
    ensures r == a || r == b
  {
    if a.exponent < b.exponent then a else b
  }

  /** The sum as written is exact exactly when the exponents agree or the
      operand with the smaller exponent is zero. */
  lemma AddAsWrittenExactIff(a: SciValue, b: SciValue)
    ensures Value(AddAsWritten(a, b)) == Value(a) + Value(b)
            <==> a.exponent == b.exponent || Lower(a, b).mantissa == 0.0
  {
    var low := Lower(a, b);
    ScaledSign(low.mantissa, low.exponent);
    if a.exponent < b.exponent {
      ScaledFixesOnlyZero(Value(a), 2 * (b.exponent - a.exponent));
    } else if b.exponent < a.exponent {
      ScaledFixesOnlyZero(Value(b), 2 * (a.exponent - b.exponent));
    }
  }

  /** The difference as written is exact exactly when the exponents agree
      or the operand with the smaller exponent is zero. */
  lemma SubAsWrittenExactIff(a: SciValue, b: SciValue)
    ensures Value(SubAsWritten(a, b)) == Value(a) - Value(b)
            <==> a.exponent == b.exponent || Lower(a, b).mantissa == 0.0
  {
    var low := Lower(a, b);
    ScaledSign(low.mantissa, low.exponent);
    if a.exponent < b.exponent {
      ScaledFixesOnlyZero(Value(a), 2 * (b.exponent - a.exponent));
    } else if b.exponent < a.exponent {
      ScaledFixesOnlyZero(Value(b), 2 * (a.exponent - b.exponent));
    }
  }

  /** 1e0 + 1e3 as written gives 1.001e6, where the sum is 1.001e3. */
  lemma AddAsWrittenCounterexample()
    ensures AddAsWritten(SciValue(1.0, 0), SciValue(1.0, 3)) == SciValue(1.001, 6)
    ensures Add(SciValue(1.0, 0), SciValue(1.0, 3)) == SciValue(1.001, 3)
  {
  }

  /** 1e3 - 1e0 as written gives -9.99e5, where the difference is 9.99e2. */
  lemma SubAsWrittenCounterexample()
    ensures SubAsWritten(SciValue(1.0, 3), SciValue(1.0, 0)) == SciValue(-9.99, 5)
    ensures Sub(SciValue(1.0, 3), SciValue(1.0, 0)) == SciValue(9.99, 2)
  {
  }

  // ---------------------------------------------------------------------
  // The operators on any right operand
  // ---------------------------------------------------------------------

  /** `a + o` (`__add__`): a SciFloat is added directly, a plain number is
      first built into `SciFloat(o, 0)` and added, anything else raises
      TypeError. */
  function Plus(a: SciValue, o: Operand): (r: Result<SciValue>)
    ensures r.Err? <==> o.Other?
    ensures r.Err? ==> r.error == TypeError
    ensures r.Ok? ==> r.value == Add(a, AsSci(o))
    ensures r.Ok? ==> IsNormal(r.value) && Value(r.value) == Value(a) + OperandValue(o)
    decreases if o.Number? then 1 else 0
  {
    match o
    case Sci(v) => Ok(Add(a, v))
    case Number(x) => Plus(a, Sci(Normalized(x, 0)))
    case Other => Err(TypeError)
  }

  /** `a - o` (`__sub__`), with the same operand handling as `Plus`. */
  function Minus(a: SciValue, o: Operand): (r: Result<SciValue>)
    ensures r.Err? <==> o.Other?
    ensures r.Err? ==> r.error == TypeError
    ensures r.Ok? ==> r.value == Sub(a, AsSci(o))
    ensures r.Ok? ==> IsNormal(r.value) && Value(r.value) == Value(a) - OperandValue(o)
    decreases if o.Number? then 1 else 0
  {
    match o
    case Sci(v) => Ok(Sub(a, v))
    case Number(x) => Minus(a, Sci(Normalized(x, 0)))
    case Other => Err(TypeError)
  }

  /** `a + o` exactly as SciFloat.py writes it: the operand handling of
      `Plus` over the sum as written. */
  function PlusAsWritten(a: SciValue, o: Operand): (r: Result<SciValue>)
    ensures r.Err? <==> o.Other?
    ensures r.Err? ==> r.error == TypeError
    ensures r.Ok? ==> r.value == AddAsWritten(a, AsSci(o))
    ensures r.Ok? ==> IsNormal(r.value)
    ensures r.Ok? && a.exponent == AsSci(o).exponent ==> r == Plus(a, o)
    ensures r.Ok? ==> (Value(r.value) == Value(a) + OperandValue(o)
                       <==> a.exponent == AsSci(o).exponent || Lower(a, AsSci(o)).mantissa == 0.0)
    decreases if o.Number? then 1 else 0
  {
    match o
    case Sci(v) =>
      AddAsWrittenExactIff(a, v);
      Ok(AddAsWritten(a, v))
    case Number(x) => PlusAsWritten(a, Sci(Normalized(x, 0)))
    case Other => Err(TypeError)
  }

  /** `a - o` exactly as SciFloat.py writes it: the operand handling of
      `Minus` over the difference as written. */
  function MinusAsWritten(a: SciValue, o: Operand): (r: Result<SciValue>)
    ensures r.Err? <==> o.Other?
    ensures r.Err? ==> r.error == TypeError
    ensures r.Ok? ==> r.value == SubAsWritten(a, AsSci(o))
    ensures r.Ok? ==> IsNormal(r.value)
    ensures r.Ok? && a.exponent == AsSci(o).exponent ==> r == Minus(a, o)
    ensures r.Ok? ==> (Value(r.value) == Value(a) - OperandValue(o)
                       <==> a.exponent == AsSci(o).exponent || Lower(a, AsSci(o)).mantissa == 0.0)
    decreases if o.Number? then 1 else 0
  {
    match o
    case Sci(v) =>
      SubAsWrittenExactIff(a, v);
      Ok(SubAsWritten(a, v))
    case Number(x) => MinusAsWritten(a, Sci(Normalized(x, 0)))
    case Other => Err(TypeError)
  }

  /** `SciFloat(5, 3) + 1` as written gives 1.005e6, where the sum is
      5.001e3; `SciFloat(5, 3) - 1` gives -9.95e5 where the difference is
      4.999e3. */
  lemma PlusMinusAsWrittenCounterexample()
    ensures PlusAsWritten(SciValue(5.0, 3), Number(1.0)) == Ok(SciValue(1.005, 6))
    ensures Plus(SciValue(5.0, 3), Number(1.0)) == Ok(SciValue(5.001, 3))
    ensures MinusAsWritten(SciValue(5.0, 3), Number(1.0)) == Ok(SciValue(-9.95, 5))
    ensures Minus(SciValue(5.0, 3), Number(1.0)) == Ok(SciValue(4.999, 3))
  {
    NormalizedFixpoint(SciValue(1.0, 0));
  }

  /** `a * o` (`__mul__`), with the same operand handling as `Plus`: the
      product of `a` and the SciFloat the operand stands for, whose number
      is the operand's (see `AsSci` and `Mul`). */
  function Times(a: SciValue, o: Operand): (r: Result<SciValue>)
    ensures r.Err? <==> o.Other?
    ensures r.Err? ==> r.error == TypeError
    ensures r.Ok? ==> r.value == Mul(a, AsSci(o))
    decreases if o.Number? then 1 else 0
  {
    match o
    case Sci(v) => Ok(Mul(a, v))
    case Number(x) => Times(a, Sci(Normalized(x, 0)))
    case Other => Err(TypeError)
  }

  /** `a / o` (`__truediv__`), with the same operand handling as `Plus`; a
      divisor whose mantissa is zero raises ZeroDivisionError, which happens
      exactly when the divisor stands for zero. */
  function Divide(a: SciValue, o: Operand): (r: Result<SciValue>)
    ensures r == Err(TypeError) <==> o.Other?
    ensures r == Err(ZeroDivisionError) <==> !o.Other? && OperandValue(o) == 0.0
    ensures r.Ok? ==> AsSci(o).mantissa != 0.0 && r.value == Quotient(a, AsSci(o))
    ensures r.Ok? ==> IsNormal(r.value) && OperandValue(o) != 0.0
                      && Value(r.value) == Value(a) / OperandValue(o)
    decreases if o.Number? then 1 else 0
  {
    match o
    case Sci(v) =>
      ScaledSign(v.mantissa, v.exponent);
      if v.mantissa == 0.0 then Err(ZeroDivisionError) else Ok(Quotient(a, v))
    case Number(x) => Divide(a, Sci(Normalized(x, 0)))
    case Other => Err(TypeError)
  }

  // ---------------------------------------------------------------------
  // The example at the end of SciFloat.py
  // ---------------------------------------------------------------------

  /** Builds `SciFloat(1.2, 3)` twice and multiplies the two: the product
      is 1.44e6. */
  method ExampleProduct() returns (p: SciValue)
    ensures p == SciValue(1.44, 6)
    ensures Value(p) == Scaled(1.2, 3) * Scaled(1.2, 3)
  {
    var a := new SciFloat(1.2, 3);
    var b := new SciFloat(1.2, 3);
    NormalizedFixpoint(SciValue(1.2, 3));
    NormalizedFixpoint(SciValue(1.44, 6));
    p := Mul(a.View(), b.View());
  }
}
