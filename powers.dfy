/** Exact scaling by powers of ten over the whole of `int`: `Scaled(m, e)`
    is the number `m * 10^e` that a scientific-notation pair stands for.
    Each step of the definition multiplies or divides by the constant ten,
    so reasoning about it stays within linear real arithmetic. */
module Powers {

  /** `m * 10^k` for a natural `k`. */
  function ScaleUp(m: real, k: nat): real {
    if k == 0 then m else 10.0 * ScaleUp(m, k - 1)
  }

  /** `m / 10^k` for a natural `k`. */
  function ScaleDown(m: real, k: nat): real {
    if k == 0 then m else ScaleDown(m, k - 1) / 10.0
  }

  /** `m * 10^e`; a negative `e` divides by the matching power of ten. */
  function Scaled(m: real, e: int): real {
    if e >= 0 then ScaleUp(m, e) else ScaleDown(m, -e)
  }

  function Abs(x: real): real {
    if x < 0.0 then -x else x
  }

  /** Scaling is a function of its two arguments; stated so that the solver
      applies it to arguments that are equal only by arithmetic. */
  lemma ScaledCongruent(m: real, n: real, a: int, b: int)
    requires m == n && a == b
    ensures Scaled(m, a) == Scaled(n, b)
  {
  }

  /** Raising the exponent by one multiplies by ten, on both sides of zero. */
  lemma ScaledSucc(m: real, e: int)
    ensures Scaled(m, e + 1) == 10.0 * Scaled(m, e)
  {
    if e == -1 {
      assert Scaled(m, e) == ScaleDown(m, 1) == m / 10.0;
    }
  }

  /** Dividing the mantissa by ten while raising the exponent by one keeps
      the number. */
  lemma {:induction false} ShiftDown(m: real, e: int)
    ensures Scaled(m / 10.0, e + 1) == Scaled(m, e)
    decreases if e < 0 then -e else e
  {
    if e > 0 {
      ShiftDown(m, e - 1);
      ScaledSucc(m / 10.0, e);
      ScaledSucc(m, e - 1);
    } else if e < 0 {
      ShiftDown(m, e + 1);
      ScaledSucc(m / 10.0, e + 1);
      ScaledSucc(m, e);
    } else {
      ScaledSucc(m / 10.0, 0);
    }
  }

  /** Multiplying the mantissa by ten while lowering the exponent by one
      keeps the number. */
  lemma {:induction false} ShiftUp(m: real, e: int)
    ensures Scaled(m * 10.0, e - 1) == Scaled(m, e)
    decreases if e < 0 then -e else e
  {
    if e > 0 {
      ShiftUp(m, e - 1);
      ScaledSucc(m * 10.0, e - 2);
      ScaledSucc(m, e - 1);
    } else if e < 0 {
      ShiftUp(m, e + 1);
      ScaledSucc(m * 10.0, e - 1);
      ScaledSucc(m, e);
    } else {
      ScaledSucc(m * 10.0, -1);
    }
  }

  /** Scaling is additive in the mantissa. */
  lemma {:induction false} ScaledAdd(m: real, n: real, e: int)
    ensures Scaled(m + n, e) == Scaled(m, e) + Scaled(n, e)
    decreases if e < 0 then -e else e
  {
    if e > 0 {
      ScaledAdd(m, n, e - 1);
      ScaledSucc(m, e - 1);
      ScaledSucc(n, e - 1);
      ScaledSucc(m + n, e - 1);
    } else if e < 0 {
      ScaledAdd(m, n, e + 1);
      ScaledSucc(m, e);
      ScaledSucc(n, e);
      ScaledSucc(m + n, e);
    }
  }

  /** Scaling commutes with negation. */
  lemma {:induction false} ScaledNeg(m: real, e: int)
    ensures Scaled(-m, e) == -Scaled(m, e)
    decreases if e < 0 then -e else e
  {
    if e > 0 {
      ScaledNeg(m, e - 1);
      ScaledSucc(m, e - 1);
      ScaledSucc(-m, e - 1);
    } else if e < 0 {
      ScaledNeg(m, e + 1);
      ScaledSucc(m, e);
      ScaledSucc(-m, e);
    }
  }

  /** Scaling is strictly increasing in the mantissa. */
  lemma {:induction false} ScaledLess(m: real, n: real, e: int)
    requires m < n
    ensures Scaled(m, e) < Scaled(n, e)
    decreases if e < 0 then -e else e
  {
    if e > 0 {
      ScaledLess(m, n, e - 1);
      ScaledSucc(m, e - 1);
      ScaledSucc(n, e - 1);
    } else if e < 0 {
      ScaledLess(m, n, e + 1);
      ScaledSucc(m, e);
      ScaledSucc(n, e);
    }
  }

  /** Zero scales to zero. */
  lemma {:induction false} ScaledZero(e: int)
    ensures Scaled(0.0, e) == 0.0
    decreases if e < 0 then -e else e
  {
    if e > 0 {
      ScaledZero(e - 1);
      ScaledSucc(0.0, e - 1);
    } else if e < 0 {
      ScaledZero(e + 1);
      ScaledSucc(0.0, e);
    }
  }

  /** The sign of a scaled number is the sign of its mantissa. */
  lemma ScaledSign(m: real, e: int)
    ensures Scaled(m, e) > 0.0 <==> m > 0.0
    ensures Scaled(m, e) < 0.0 <==> m < 0.0
    ensures Scaled(m, e) == 0.0 <==> m == 0.0
  {
    ScaledZero(e);
    if m > 0.0 {
      ScaledLess(0.0, m, e);
    } else if m < 0.0 {
      ScaledLess(m, 0.0, e);
    }
  }

  /** Scaling commutes with taking the magnitude. */
  lemma ScaledAbs(m: real, e: int)
    ensures Abs(Scaled(m, e)) == Scaled(Abs(m), e)
  {
    ScaledSign(m, e);
    ScaledNeg(m, e);
  }

  /** Scaling is injective in the mantissa. */
  lemma ScaledInjective(m: real, n: real, e: int)
    requires Scaled(m, e) == Scaled(n, e)
    ensures m == n
  {
    if m < n {
      ScaledLess(m, n, e);
    } else if n < m {
      ScaledLess(n, m, e);
    }
  }

  /** Scaling twice adds the exponents. */
  lemma {:induction false} ScaledCompose(m: real, a: int, b: int)
    ensures Scaled(Scaled(m, a), b) == Scaled(m, a + b)
    decreases if b < 0 then -b else b
  {
    if b > 0 {
      ScaledCompose(m, a, b - 1);
      ScaledSucc(m, a + b - 1);
      ScaledSucc(Scaled(m, a), b - 1);
    } else if b < 0 {
      ScaledCompose(m, a, b + 1);
      ScaledSucc(m, a + b);
      ScaledSucc(Scaled(m, a), b);
    }
  }

  lemma TenTimes(c: real, s: real)
    ensures c * (10.0 * s) == 10.0 * (c * s)
  {
  }

  lemma TenthOf(c: real, s: real)
    ensures c * (s / 10.0) == (c * s) / 10.0
  {
  }

  /** A constant factor on the left moves out of the scaling. */
  lemma {:induction false} ScaledTimes(c: real, m: real, e: int)
    ensures Scaled(c * m, e) == c * Scaled(m, e)
    decreases if e < 0 then -e else e
  {
    if e > 0 {
      ScaledTimes(c, m, e - 1);
      ScaledSucc(m, e - 1);
      ScaledSucc(c * m, e - 1);
      TenTimes(c, Scaled(m, e - 1));
    } else if e < 0 {
      ScaledTimes(c, m, e + 1);
      ScaledSucc(m, e);
      ScaledSucc(c * m, e);
      TenthOf(c, Scaled(m, e + 1));
    }
  }

  /** Scaling is multiplication by the power of ten. */
  lemma {:induction false} ScaledIsProduct(m: real, e: int)
    ensures Scaled(m, e) == m * Scaled(1.0, e)
    decreases if e < 0 then -e else e
  {
    if e > 0 {
      ScaledIsProduct(m, e - 1);
      ScaledSucc(m, e - 1);
      ScaledSucc(1.0, e - 1);
      TenTimes(m, Scaled(1.0, e - 1));
    } else if e < 0 {
      ScaledIsProduct(m, e + 1);
      ScaledSucc(m, e);
      ScaledSucc(1.0, e);
      TenthOf(m, Scaled(1.0, e + 1));
    }
  }

  /** Powers of ten multiply by adding exponents. */
  lemma PowerProduct(a: int, b: int)
    ensures Scaled(1.0, a + b) == Scaled(1.0, a) * Scaled(1.0, b)
  {
    ScaledCompose(1.0, a, b);
    ScaledIsProduct(Scaled(1.0, a), b);
  }

  lemma Rearrange(m: real, n: real, s: real, p: real, x: real, y: real, u: real, v: real)
    requires s == (m * n) * p && p == x * y && u == m * x && v == n * y
    ensures s == u * v
  {
  }

  /** Mantissas multiply while exponents add. */
  lemma ScaledProduct(m: real, a: int, n: real, b: int)
    ensures Scaled(m * n, a + b) == Scaled(m, a) * Scaled(n, b)
  {
    ScaledIsProduct(m * n, a + b);
    PowerProduct(a, b);
    ScaledIsProduct(m, a);
    ScaledIsProduct(n, b);
    Rearrange(m, n, Scaled(m * n, a + b), Scaled(1.0, a + b), Scaled(1.0, a), Scaled(1.0, b),
              Scaled(m, a), Scaled(n, b));
  }

  /** Scaling a positive number up by a nonnegative exponent does not make
      it smaller. */
  lemma {:induction false} ScaledGrows(m: real, k: int)
    requires m > 0.0 && k >= 0
    ensures m <= Scaled(m, k)
    decreases k
  {
    if k > 0 {
      ScaledGrows(m, k - 1);
      ScaledSucc(m, k - 1);
    }
  }

  /** Scaling a positive number up by a positive exponent makes it
      strictly larger. */
  lemma ScaledStrictlyGrows(m: real, k: int)
    requires m > 0.0 && k > 0
    ensures m < Scaled(m, k)
  {
    ScaledGrows(m, k - 1);
    ScaledSucc(m, k - 1);
  }

  /** A positive number scaled by a larger exponent is larger. */
  lemma ScaledExponentMonotone(m: real, a: int, b: int)
    requires m > 0.0 && a <= b
    ensures Scaled(m, a) <= Scaled(m, b)
  {
    ScaledSign(m, a);
    ScaledGrows(Scaled(m, a), b - a);
    ScaledCompose(m, a, b - a);
  }

  lemma DivideBack(x: real, y: real, z: real)
    requires z != 0.0 && y == x * z
    ensures x == y / z
  {
  }

  /** Mantissas divide while exponents subtract. */
  lemma ScaledQuotient(m: real, a: int, n: real, b: int)
    requires n != 0.0
    ensures Scaled(n, b) != 0.0
    ensures Scaled(m / n, a - b) == Scaled(m, a) / Scaled(n, b)
  {
    var q := m / n;
    ScaledProduct(q, a - b, n, b);
    assert q * n == m;
    ScaledCongruent(q * n, m, a - b + b, a);
    ScaledSign(n, b);
    DivideBack(Scaled(q, a - b), Scaled(m, a), Scaled(n, b));
  }
}
