/** Quarks: a fixed table of the six flavors with their charge (in units
    of the elementary charge), mass (in eV) and generation, the two spin
    states, the three colour charges, and a quark record built from one of
    each.  Charges and masses are SciFloat values built by the constructor
    and by division. */
module Quarks {
  import opened Powers
  import opened SciFloats
  import opened SciArithmetic

  /** One row of the flavor table. */
  datatype QuarkProperty = QuarkProperty(charge: SciValue, mass: SciValue, gen: int)

  /** The literals written in one row of the flavor table: the charge is
      built as `SciFloat(chargeNumerator, 0) / SciFloat(3, 0)` and the mass
      as `SciFloat(massMantissa, massExponent)`. */
  datatype RowLiterals = RowLiterals(chargeNumerator: real, massMantissa: real, massExponent: int, gen: int)

  /** A charge of `numerator` thirds, built by SciFloat division; it stands
      for exactly that fraction. */
  function ChargeFrom(numerator: real): (r: SciValue)
    ensures Value(r) == numerator / 3.0
  {
    var n, three := Normalized(numerator, 0), Normalized(3.0, 0);
    var q := Quotient(n, three);
    QuotientOfEquals(Value(q), Value(n), Value(three), numerator, 3.0);
    q
  }

  lemma QuotientOfEquals(q: real, x: real, y: real, x': real, y': real)
    requires y != 0.0 && q == x / y && x == x' && y == y'
    ensures q == x' / y'
  {
  }

  /** The two charges of the table, normalized: 2/3 is held as (20/3, -1)
      and -1/3 as (-10/3, -1). */
  lemma ChargeLiterals()
    ensures ChargeFrom(2.0) == SciValue(20.0 / 3.0, -1)
    ensures ChargeFrom(-1.0) == SciValue(-10.0 / 3.0, -1)
  {
    ShiftUp(2.0 / 3.0, 0);
    ShiftUp(-1.0 / 3.0, 0);
    NormalFormUnique(ChargeFrom(2.0), SciValue(20.0 / 3.0, -1));
    NormalFormUnique(ChargeFrom(-1.0), SciValue(-10.0 / 3.0, -1));
  }

  /** A table row built from its literals, as the enum member's value. */
  function BuildProperty(l: RowLiterals): (r: QuarkProperty)
    ensures Value(r.charge) == l.chargeNumerator / 3.0
    ensures IsNormal(r.mass) && Value(r.mass) == Scaled(l.massMantissa, l.massExponent)
    ensures r.gen == l.gen
  {
    QuarkProperty(ChargeFrom(l.chargeNumerator), Normalized(l.massMantissa, l.massExponent), l.gen)
  }

  datatype Flavor = Up | Down | Charm | Strange | Top | Bottom {

    /** The literals of this flavor's row. */
    function Literals(): RowLiterals {
      match this
      case Up => RowLiterals(2.0, 2.2, 6, 1)
      case Down => RowLiterals(-1.0, 4.7, 6, 1)
      case Charm => RowLiterals(2.0, 1.27, 9, 2)
      case Strange => RowLiterals(-1.0, 96.0, 6, 2)
      case Top => RowLiterals(2.0, 173.1, 9, 3)
      case Bottom => RowLiterals(-1.0, 4.18, 9, 3)
    }

    /** The table row of this flavor (its enum value). */
    function Property(): (r: QuarkProperty)
      ensures Value(r.charge) == Literals().chargeNumerator / 3.0
      ensures IsNormal(r.mass) && Value(r.mass) == Scaled(Literals().massMantissa, Literals().massExponent)
      ensures r.gen == Literals().gen
    {
      BuildProperty(Literals())
    }

    predicate IsUpType() {
      this == Up || this == Charm || this == Top
    }

    /** The charge field of the row (see `AccessorsReadRow`): exactly 2/3 for up-type flavors and
        -1/3 for down-type ones, normalized with exponent -1. */
    function Charge(): (r: SciValue)
      ensures IsUpType() ==> r == SciValue(20.0 / 3.0, -1) && Value(r) == 2.0 / 3.0
      ensures !IsUpType() ==> r == SciValue(-10.0 / 3.0, -1) && Value(r) == -1.0 / 3.0
    {
      var n := Literals().chargeNumerator;
      assert n == if IsUpType() then 2.0 else -1.0;
      ChargeLiterals();
      ChargeFrom(n)
    }

    /** The mass field of the row (see `AccessorsReadRow`): the literal in the table, normalized and
        positive. */
    function Mass(): (r: SciValue)
      ensures IsNormal(r) && r.mantissa > 0.0 && Value(r) > 0.0
      ensures r == match this
                   case Up => SciValue(2.2, 6)
                   case Down => SciValue(4.7, 6)
                   case Charm => SciValue(1.27, 9)
                   case Strange => SciValue(9.6, 7)
                   case Top => SciValue(1.731, 11)
                   case Bottom => SciValue(4.18, 9)
    {
      var r := Normalized(Literals().massMantissa, Literals().massExponent);
      ScaledSign(r.mantissa, r.exponent);
      r
    }

    /** The generation field of the row (see `AccessorsReadRow`): 1, 2 or
        3. */
    function Gen(): (r: int)
      ensures 1 <= r <= 3
      ensures r == 1 <==> this == Up || this == Down
      ensures r == 2 <==> this == Charm || this == Strange
      ensures r == 3 <==> this == Top || this == Bottom
    {
      Literals().gen
    }
  }

  /** The two spin states; each enum value is a SciFloat. */
  datatype Spin = SpinUp | SpinDown {
    function Moment(): (r: SciValue)
      ensures IsNormal(r)
      ensures this == SpinUp ==> r == SciValue(5.0, -1)
      ensures this == SpinDown ==> r == SciValue(-5.0, -1)
    {
      ShiftUp(0.5, 0);
      ShiftUp(-0.5, 0);
      NormalizedIs(0.5, 0, SciValue(5.0, -1));
      NormalizedIs(-0.5, 0, SciValue(-5.0, -1));
      match this
      case SpinUp => Normalized(0.5, 0)
      case SpinDown => Normalized(-0.5, 0)
    }
  }

  /** The three colour charges; each enum value is a string. */
  datatype Color = Red | Green | Blue {
    function Name(): (r: string)
      ensures this == Red ==> r == "red"
      ensures this == Green ==> r == "green"
      ensures this == Blue ==> r == "blue"
    {
      match this
      case Red => "red"
      case Green => "green"
      case Blue => "blue"
    }
  }

  /** A quark: one flavor, one colour and one spin.  Its charge, mass and
      generation come from the flavor alone. */
  datatype Quark = Quark(flavor: Flavor, color: Color, spin: Spin) {

    /** The flavor's charge, as a value in elementary charges. */
    function Charge(): (r: SciValue)
      ensures r == flavor.Property().charge
      ensures Value(r) == if flavor.IsUpType() then 2.0 / 3.0 else -1.0 / 3.0
    {
      flavor.Charge()
    }

    /** The flavor's mass, as a value in eV. */
    function Mass(): (r: SciValue)
      ensures r == flavor.Property().mass
      ensures IsNormal(r) && Value(r) > 0.0
    {
      flavor.Mass()
    }

    /** The flavor's generation. */
    function Gen(): (r: int)
      ensures r == flavor.Property().gen
      ensures 1 <= r <= 3
    {
      flavor.Gen()
    }
  }

  // ---------------------------------------------------------------------
  // Properties of the table
  // ---------------------------------------------------------------------

  /** The three accessors return exactly the fields of the flavor's row. */
  lemma AccessorsReadRow(f: Flavor)
    ensures f.Property() == QuarkProperty(f.Charge(), f.Mass(), f.Gen())
  {
  }

  /** Each mass literal stands for the number written in the table. */
  lemma MassesMatchLiterals()
    ensures Value(Up.Mass()) == Scaled(2.2, 6)
    ensures Value(Down.Mass()) == Scaled(4.7, 6)
    ensures Value(Charm.Mass()) == Scaled(1.27, 9)
    ensures Value(Strange.Mass()) == Scaled(96.0, 6)
    ensures Value(Top.Mass()) == Scaled(173.1, 9)
    ensures Value(Bottom.Mass()) == Scaled(4.18, 9)
  {
  }

  /** No three distinct flavors share a generation. */
  lemma AtMostTwoPerGeneration(f: Flavor, g: Flavor, h: Flavor)
    requires f != g && g != h && f != h
    ensures !(f.Gen() == g.Gen() == h.Gen())
  {
  }

  /** Every generation holds an up-type and a down-type flavor. */
  lemma GenerationHasBothTypes(n: int)
    requires 1 <= n <= 3
    ensures exists f: Flavor :: f.Gen() == n && f.IsUpType()
    ensures exists f: Flavor :: f.Gen() == n && !f.IsUpType()
  {
    if n == 1 {
      assert Up.Gen() == 1 && Down.Gen() == 1;
    } else if n == 2 {
      assert Charm.Gen() == 2 && Strange.Gen() == 2;
    } else {
      assert Top.Gen() == 3 && Bottom.Gen() == 3;
    }
  }

  /** Two flavors of one generation are one up-type and one down-type, so
      their charges are 2/3 and -1/3. */
  lemma GenerationSplitsByCharge(f: Flavor, g: Flavor)
    requires f != g && f.Gen() == g.Gen()
    ensures f.IsUpType() != g.IsUpType()
    ensures Value(f.Charge()) + Value(g.Charge()) == 1.0 / 3.0
  {
    if f.IsUpType() {
      assert !g.IsUpType();
    } else {
      assert g.IsUpType();
    }
  }

  /** Different flavors have different masses. */
  lemma MassesDistinct(f: Flavor, g: Flavor)
    requires f != g
    ensures f.Mass() != g.Mass()
  {
  }

  /** Different flavors have different table rows, so no enum member is an
      alias of another. */
  lemma PropertyInjective(f: Flavor, g: Flavor)
    ensures f.Property() == g.Property() ==> f == g
  {
    AccessorsReadRow(f);
    AccessorsReadRow(g);
    if f != g {
      MassesDistinct(f, g);
    }
  }

  /** Different colours have different names. */
  lemma ColorNamesDistinct(c: Color, d: Color)
    requires c != d
    ensures c.Name() != d.Name()
  {
  }

  /** The two spin states stand for numbers that are each other's
      negatives: 1/2 and -1/2. */
  lemma SpinsOpposite()
    ensures Value(SpinUp.Moment()) == 0.5 && Value(SpinDown.Moment()) == -0.5
  {
    ShiftUp(0.5, 0);
    ShiftUp(-0.5, 0);
  }

  /** A quark's charge, mass and generation depend on its flavor only. */
  lemma QuarkDependsOnFlavor(p: Quark, q: Quark)
    requires p.flavor == q.flavor
    ensures p.Charge() == q.Charge() && p.Mass() == q.Mass() && p.Gen() == q.Gen()
  {
  }
}
