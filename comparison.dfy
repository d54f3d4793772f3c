/** The comparison operators of SciFloat.  `==` compares both fields,
    `<` compares exponents first and mantissas second, and the other four
    are built from those two with Python's `or` and `not`. */
module SciComparison {
  import opened Powers
  import opened SciFloats
  import opened SciArithmetic

  /** What a comparison method returns: a boolean, or the `NotImplemented`
      marker for an operand it does not handle.  Python 3.9 to 3.13 treat
      the marker as true in a boolean context; later versions raise
      TypeError there instead. */
  datatype Comparison = Bool(b: bool) | NotImplemented

  predicate Truthy(c: Comparison) {
    match c
    case Bool(b) => b
    case NotImplemented => true
  }

  /** The order `<` uses on two SciFloats: lexicographic on
      (exponent, mantissa). */
  predicate Less(a: SciValue, b: SciValue): (r: bool)
    ensures r ==> a.exponent <= b.exponent
    ensures a.exponent < b.exponent ==> r
  {
    if a.exponent == b.exponent then a.mantissa < b.mantissa else a.exponent < b.exponent
  }

  // ---------------------------------------------------------------------
  // The six methods
  // ---------------------------------------------------------------------

  /** `a.__eq__(o)`: both fields equal; a plain number is first built into
      `SciFloat(o, 0)`; any other operand gives NotImplemented. */
  function Eq(a: SciValue, o: Operand): (r: Comparison)
    ensures r == NotImplemented <==> o.Other?
    ensures !o.Other? ==> r == Bool(a == AsSci(o))
    decreases if o.Number? then 1 else 0
  {
    match o
    case Sci(v) => Bool(a.mantissa == v.mantissa && a.exponent == v.exponent)
    case Number(x) => Eq(a, Sci(Normalized(x, 0)))
    case Other => NotImplemented
  }

  /** `a.__lt__(o)`, with the same operand handling as `Eq`. */
  function Lt(a: SciValue, o: Operand): (r: Comparison)
    ensures r == NotImplemented <==> o.Other?
    ensures !o.Other? ==> r == Bool(Less(a, AsSci(o)))
    decreases if o.Number? then 1 else 0
  {
    match o
    case Sci(v) =>
      if a.exponent == v.exponent then Bool(a.mantissa < v.mantissa) else Bool(a.exponent < v.exponent)
    case Number(x) => Lt(a, Sci(Normalized(x, 0)))
    case Other => NotImplemented
  }

  /** `a.__le__(o)`: `a.__lt__(o) or a.__eq__(o)`.  An unsupported operand
      passes NotImplemented through, since the marker counts as true. */
  function Le(a: SciValue, o: Operand): (r: Comparison)
    ensures o.Other? ==> r == NotImplemented
    ensures !o.Other? ==> r == Bool(Less(a, AsSci(o)) || a == AsSci(o))
  {
    var lt := Lt(a, o);
    if Truthy(lt) then lt else Eq(a, o)
  }

  /** `a.__ne__(o)`: `not a.__eq__(o)`.  An unsupported operand gives
      False, the negation of the true-counting marker. */
  function Ne(a: SciValue, o: Operand): (r: Comparison)
    ensures r == Bool(!o.Other? && a != AsSci(o))
  {
    Bool(!Truthy(Eq(a, o)))
  }

  /** `a.__gt__(o)`: `not a.__lt__(o) and not a.__eq__(o)`; this is the
      reversed order `o < a`, and False for an unsupported operand. */
  function Gt(a: SciValue, o: Operand): (r: Comparison)
    ensures r == Bool(!o.Other? && Less(AsSci(o), a))
  {
    OperandTrichotomy(a, o);
    Bool(!Truthy(Lt(a, o)) && !Truthy(Eq(a, o)))
  }

  /** `a.__ge__(o)`: `not a.__lt__(o)`; this is `o < a or a == o`, and
      False for an unsupported operand. */
  function Ge(a: SciValue, o: Operand): (r: Comparison)
    ensures r == Bool(!o.Other? && (Less(AsSci(o), a) || a == AsSci(o)))
  {
    OperandTrichotomy(a, o);
    Bool(!Truthy(Lt(a, o)))
  }

  // ---------------------------------------------------------------------
  // The order
  // ---------------------------------------------------------------------

  lemma LessIrreflexive(a: SciValue)
    ensures !Less(a, a)
  {
  }

  lemma LessAsymmetric(a: SciValue, b: SciValue)
    requires Less(a, b)
    ensures !Less(b, a)
  {
  }

  lemma LessTransitive(a: SciValue, b: SciValue, c: SciValue)
    requires Less(a, b) && Less(b, c)
    ensures Less(a, c)
  {
  }

  /** Exactly one of `a < b`, `a == b`, `b < a` holds. */
  lemma LessTrichotomy(a: SciValue, b: SciValue)
    ensures Less(a, b) || a == b || Less(b, a)
    ensures !(Less(a, b) && a == b) && !(Less(a, b) && Less(b, a)) && !(a == b && Less(b, a))
  {
  }

  lemma OperandTrichotomy(a: SciValue, o: Operand)
    ensures !o.Other? ==> (Less(a, AsSci(o)) || a == AsSci(o) || Less(AsSci(o), a))
    ensures !o.Other? ==> !(Less(a, AsSci(o)) && Less(AsSci(o), a))
  {
    if !o.Other? {
      LessTrichotomy(a, AsSci(o));
    }
  }

  /** For positive normal values the order is the order of the numbers. */
  lemma LessMatchesValueWhenPositive(a: SciValue, b: SciValue)
    requires IsNormal(a) && IsNormal(b)
    requires a.mantissa > 0.0 && b.mantissa > 0.0
    ensures Less(a, b) <==> Value(a) < Value(b)
  {
    if a.exponent == b.exponent {
      if a.mantissa < b.mantissa {
        ScaledLess(a.mantissa, b.mantissa, a.exponent);
      } else if b.mantissa < a.mantissa {
        ScaledLess(b.mantissa, a.mantissa, a.exponent);
      }
    } else {
      ScaledSign(a.mantissa, a.exponent);
      ScaledSign(b.mantissa, b.exponent);
      if a.exponent < b.exponent {
        NormalMagnitudeBelow(a, b);
      } else {
        NormalMagnitudeBelow(b, a);
      }
    }
  }

  /** The order is not the order of the numbers once signs differ:
      -5e3 < 1e2 as numbers, but not by `<`. */
  lemma LessIgnoresSign()
    ensures IsNormal(SciValue(-5.0, 3)) && IsNormal(SciValue(1.0, 2))
    ensures Value(SciValue(-5.0, 3)) < Value(SciValue(1.0, 2))
    ensures !Less(SciValue(-5.0, 3), SciValue(1.0, 2))
  {
    ScaledSign(-5.0, 3);
    ScaledSign(1.0, 2);
  }

  /** `==` on two normal nonzero values holds exactly when they stand for
      the same number. */
  lemma EqMatchesValue(a: SciValue, b: SciValue)
    requires IsNormal(a) && IsNormal(b)
    requires a.mantissa != 0.0 && b.mantissa != 0.0
    ensures Eq(a, Sci(b)) == Bool(true) <==> Value(a) == Value(b)
  {
    if Value(a) == Value(b) {
      NormalFormUnique(a, b);
    }
  }

  /** A zero keeps the exponent it was built with, so `SciFloat(0, 3)` is
      equal neither to `SciFloat(0, 0)` nor to the number 0, though all
      three stand for zero. */
  lemma ZeroKeepsExponent()
    ensures Normalized(0.0, 3) == SciValue(0.0, 3)
    ensures Value(Normalized(0.0, 3)) == 0.0 && Value(Normalized(0.0, 0)) == 0.0
    ensures Eq(Normalized(0.0, 3), Sci(Normalized(0.0, 0))) == Bool(false)
    ensures Eq(Normalized(0.0, 3), Number(0.0)) == Bool(false)
  {
  }

  /** `a - a == 0` is false unless `a`'s exponent is zero. */
  lemma SubSelfNotZero(a: SciValue)
    ensures Eq(Sub(a, a), Number(0.0)) == Bool(a.exponent == 0)
  {
    SubSelf(a);
  }

  // ---------------------------------------------------------------------
  // Comparisons by the number a pair stands for
  // ---------------------------------------------------------------------

  /** The numeric order on normal pairs, read off the fields: signs first,
      then the lexicographic order for positive pairs and its mirror image
      for negative ones. */
  predicate Below(a: SciValue, b: SciValue) {
    if a.mantissa < 0.0 && b.mantissa < 0.0 then
      if a.exponent == b.exponent then a.mantissa < b.mantissa else b.exponent < a.exponent
    else if a.mantissa <= 0.0 || b.mantissa <= 0.0 then
      a.mantissa < b.mantissa
    else
      Less(a, b)
  }

  /** Equality of the numbers of two normal pairs: the same pair, or two
      zeros whatever their exponents. */
  predicate Same(a: SciValue, b: SciValue) {
    a == b || (a.mantissa == 0.0 && b.mantissa == 0.0)
  }

  function Negated(x: SciValue): SciValue {
    SciValue(-x.mantissa, x.exponent)
  }

  lemma NegatedValue(x: SciValue)
    ensures IsNormal(x) ==> IsNormal(Negated(x))
    ensures Value(Negated(x)) == -Value(x)
  {
    ScaledNeg(x.mantissa, x.exponent);
  }

  lemma BelowMatchesValue(a: SciValue, b: SciValue)
    requires IsNormal(a) && IsNormal(b)
    ensures Below(a, b) <==> Value(a) < Value(b)
  {
    ScaledSign(a.mantissa, a.exponent);
    ScaledSign(b.mantissa, b.exponent);
    if a.mantissa < 0.0 && b.mantissa < 0.0 {
      NegatedValue(a);
      NegatedValue(b);
      LessMatchesValueWhenPositive(Negated(b), Negated(a));
    } else if a.mantissa > 0.0 && b.mantissa > 0.0 {
      LessMatchesValueWhenPositive(a, b);
    }
  }

  lemma SameMatchesValue(a: SciValue, b: SciValue)
    requires IsNormal(a) && IsNormal(b)
    ensures Same(a, b) <==> Value(a) == Value(b)
  {
    ScaledSign(a.mantissa, a.exponent);
    ScaledSign(b.mantissa, b.exponent);
    if a.mantissa != 0.0 && b.mantissa != 0.0 && Value(a) == Value(b) {
      NormalFormUnique(a, b);
    }
  }

  /** `<` as it is evidently meant: the order of the numbers, with the
      same operand handling as `Lt`. */
  function LtByValue(a: SciValue, o: Operand): (r: Comparison)
    requires IsNormal(a) && (o.Sci? ==> IsNormal(o.v))
    ensures r == NotImplemented <==> o.Other?
    ensures !o.Other? ==> r == Bool(Value(a) < OperandValue(o))
  {
    if o.Other? then NotImplemented
    else
      BelowMatchesValue(a, AsSci(o));
      Bool(Below(a, AsSci(o)))
  }

  /** `==` as it is evidently meant: equality of the numbers, so that every
      zero equals every other zero. */
  function EqByValue(a: SciValue, o: Operand): (r: Comparison)
    requires IsNormal(a) && (o.Sci? ==> IsNormal(o.v))
    ensures r == NotImplemented <==> o.Other?
    ensures !o.Other? ==> r == Bool(Value(a) == OperandValue(o))
    ensures !o.Other? && AsSci(o).mantissa != 0.0 ==> r == Eq(a, o)
  {
    if o.Other? then NotImplemented
    else
      SameMatchesValue(a, AsSci(o));
      Bool(Same(a, AsSci(o)))
  }

  /** The corrected pair orders normal values totally and consistently:
      exactly one of `a < b`, `a == b`, `b < a` holds. */
  lemma ByValueTrichotomy(a: SciValue, b: SciValue)
    requires IsNormal(a) && IsNormal(b)
    ensures LtByValue(a, Sci(b)) == Bool(true) || EqByValue(a, Sci(b)) == Bool(true) || LtByValue(b, Sci(a)) == Bool(true)
    ensures !(LtByValue(a, Sci(b)) == Bool(true) && LtByValue(b, Sci(a)) == Bool(true))
    ensures !(LtByValue(a, Sci(b)) == Bool(true) && EqByValue(a, Sci(b)) == Bool(true))
  {
  }

  /** The two counterexamples, compared by value: -5e3 is below 1e2, and
      `a - a` equals 0 whatever `a`'s exponent. */
  lemma ByValueCorrects(a: SciValue)
    ensures Lt(SciValue(-5.0, 3), Sci(SciValue(1.0, 2))) == Bool(false)
    ensures LtByValue(SciValue(-5.0, 3), Sci(SciValue(1.0, 2))) == Bool(true)
    ensures EqByValue(Sub(a, a), Number(0.0)) == Bool(true)
  {
    LessIgnoresSign();
    SubSelf(a);
    ScaledZero(a.exponent);
  }
}
