/** The SciFloat value type: a number held as a pair (mantissa, exponent)
    meaning `mantissa * 10^exponent`, kept normalized by two rescaling loops
    that run when a value is built, with arithmetic and comparison operators
    that build new values.  The mantissa is an exact real. */
module SciFloats {
  import opened Powers

  /** A built SciFloat, as a value: the two fields of the object once its
      constructor has finished. */
  datatype SciValue = SciValue(mantissa: real, exponent: int)

  /** The number a pair stands for. */
  function Value(x: SciValue): real {
    Scaled(x.mantissa, x.exponent)
  }

  /** The range the normalization loops establish: a zero mantissa, or a
      mantissa whose magnitude lies in [1, 10). */
  predicate IsNormal(x: SciValue) {
    x.mantissa == 0.0 || (1.0 <= Abs(x.mantissa) < 10.0)
  }

  // ---------------------------------------------------------------------
  // Normalization
  // ---------------------------------------------------------------------

  /** Termination measure of the dividing loop. */
  function ShrinkMeasure(m: real): nat {
    Abs(m).Floor
  }

  /** Termination measure of the multiplying loop. */
  function GrowMeasure(m: real): nat {
    if m == 0.0 then 0 else (1.0 / Abs(m)).Floor
  }

  lemma ShrinkMeasureDecreases(m: real)
    requires Abs(m) >= 10.0
    ensures ShrinkMeasure(m / 10.0) < ShrinkMeasure(m)
  {
    assert Abs(m / 10.0) == Abs(m) / 10.0;
  }

  lemma GrowMeasureDecreases(m: real)
    requires m != 0.0 && Abs(m) < 1.0
    ensures GrowMeasure(m * 10.0) < GrowMeasure(m)
  {
    var x := 1.0 / Abs(m);
    assert x * Abs(m) == 1.0;
    assert x > 1.0;
    assert Abs(m * 10.0) == 10.0 * Abs(m);
    assert 1.0 / Abs(m * 10.0) == x / 10.0;
  }

  /** What the first loop computes: divide by ten, raising the exponent,
      while the magnitude is at least ten.  The number is kept, the loop
      ends below ten, a magnitude of at least one stays so, and zero is
      left alone. */
  function Shrink(m: real, e: int): (r: SciValue)
    ensures Value(r) == Scaled(m, e)
    ensures Abs(r.mantissa) < 10.0
    ensures Abs(m) >= 1.0 ==> Abs(r.mantissa) >= 1.0
    ensures r.mantissa == 0.0 <==> m == 0.0
    ensures m == 0.0 ==> r == SciValue(m, e)
    decreases ShrinkMeasure(m)
  {
    if Abs(m) >= 10.0 then
      ShrinkMeasureDecreases(m);
      ShiftDown(m, e);
      Shrink(m / 10.0, e + 1)
    else
      SciValue(m, e)
  }

  /** What the second loop computes: multiply by ten, lowering the
      exponent, while the magnitude is below one and not zero.  The number
      is kept, zero is left alone, and from a magnitude below ten (where
      the first loop leaves it) the loop ends in the normal range. */
  function Grow(m: real, e: int): (r: SciValue)
    ensures Value(r) == Scaled(m, e)
    ensures Abs(m) < 10.0 ==> IsNormal(r)
    ensures r.mantissa == 0.0 <==> m == 0.0
    ensures m == 0.0 ==> r == SciValue(m, e)
    decreases GrowMeasure(m)
  {
    if Abs(m) < 1.0 && Abs(m) != 0.0 then
      GrowMeasureDecreases(m);
      ShiftUp(m, e);
      Grow(m * 10.0, e - 1)
    else
      SciValue(m, e)
  }

  /** The value `SciFloat(mantissa, exponent)` holds once built: the
      normalization range holds, the number is unchanged, and a zero
      mantissa is left alone together with its exponent. */
  function Normalized(m: real, e: int): (r: SciValue)
    ensures IsNormal(r)
    ensures Value(r) == Scaled(m, e)
    ensures r.mantissa == 0.0 <==> m == 0.0
    ensures m == 0.0 ==> r == SciValue(0.0, e)
  {
    var s := Shrink(m, e);
    Grow(s.mantissa, s.exponent)
  }

  /** The object Python builds: its two fields are updated in place by
      the normalization loops, after which they are never written again. */
  class SciFloat {
    var mantissa: real
    var exponent: int

    function View(): SciValue
      reads this
    {
      SciValue(mantissa, exponent)
    }

    constructor (mantissa: real, exponent: int)
      ensures View() == Normalized(mantissa, exponent)
    {
      this.mantissa := mantissa;
      this.exponent := exponent;
      new;
      Normalize();
    }

    /** Rescales the fields until the mantissa is zero or in [1, 10). */
    method Normalize()
      modifies this
      ensures View() == Normalized(old(mantissa), old(exponent))
      ensures IsNormal(View()) && Value(View()) == Value(old(View()))
    {
      ghost var m0, e0 := mantissa, exponent;
      while Abs(mantissa) >= 10.0
        invariant Shrink(mantissa, exponent) == Shrink(m0, e0)
        decreases ShrinkMeasure(mantissa)
      {
        ShrinkMeasureDecreases(mantissa);
        mantissa := mantissa / 10.0;
        exponent := exponent + 1;
      }
      ghost var s := View();
      while Abs(mantissa) < 1.0 && Abs(mantissa) != 0.0
        invariant Grow(mantissa, exponent) == Grow(s.mantissa, s.exponent)
        decreases GrowMeasure(mantissa)
      {
        GrowMeasureDecreases(mantissa);
        mantissa := mantissa * 10.0;
        exponent := exponent - 1;
      }
      assert View() == Normalized(m0, e0);
    }
  }

  /** A normal pair is left as it is by normalization. */
  lemma NormalizedFixpoint(x: SciValue)
    requires IsNormal(x)
    ensures Normalized(x.mantissa, x.exponent) == x
  {
  }

  /** Two normal pairs with nonzero mantissas stand for the same number
      only when they are the same pair. */
  lemma NormalFormUnique(a: SciValue, b: SciValue)
    requires IsNormal(a) && IsNormal(b)
    requires a.mantissa != 0.0 && b.mantissa != 0.0
    requires Value(a) == Value(b)
    ensures a == b
  {
    if a.exponent < b.exponent {
      NormalMagnitudeBelow(a, b);
    } else if b.exponent < a.exponent {
      NormalMagnitudeBelow(b, a);
    } else {
      SameExponentCancel(a, b);
    }
  }

  /** At one exponent the number determines the mantissa. */
  lemma SameExponentCancel(a: SciValue, b: SciValue)
    requires a.exponent == b.exponent && Value(a) == Value(b)
    ensures a.mantissa == b.mantissa
  {
    ScaledInjective(a.mantissa, b.mantissa, a.exponent);
  }

  /** A nonzero normal pair with the smaller exponent has the smaller
      magnitude. */
  lemma NormalMagnitudeBelow(a: SciValue, b: SciValue)
    requires IsNormal(a) && IsNormal(b) && b.mantissa != 0.0
    requires a.exponent < b.exponent
    ensures Abs(Value(a)) < Abs(Value(b))
  {
    ScaledAbs(a.mantissa, a.exponent);
    ScaledAbs(b.mantissa, b.exponent);
    ScaledLess(Abs(a.mantissa), 10.0, a.exponent);
    ScaledSucc(1.0, a.exponent);
    ScaledTimes(10.0, 1.0, a.exponent);
    assert Scaled(10.0, a.exponent) == Scaled(1.0, a.exponent + 1);
    ScaledExponentMonotone(1.0, a.exponent + 1, b.exponent);
    if Abs(b.mantissa) > 1.0 {
      ScaledLess(1.0, Abs(b.mantissa), b.exponent);
    }
  }

  /** Normalization depends only on the number when it is not zero. */
  lemma NormalizedCanonical(m: real, e: int, m': real, e': int)
    requires m != 0.0
    requires Scaled(m, e) == Scaled(m', e')
    ensures Normalized(m, e) == Normalized(m', e')
  {
    ScaledSign(m, e);
    ScaledSign(m', e');
    NormalFormUnique(Normalized(m, e), Normalized(m', e'));
  }

  /** Any nonzero normal pair with the right number is what normalization
      yields; used to evaluate literal constructions. */
  lemma NormalizedIs(m: real, e: int, x: SciValue)
    requires IsNormal(x) && x.mantissa != 0.0
    requires Value(x) == Scaled(m, e)
    ensures Normalized(m, e) == x
  {
    ScaledSign(x.mantissa, x.exponent);
    ScaledSign(m, e);
    NormalFormUnique(Normalized(m, e), x);
  }
}
