# SciFloat and Quark, modelled in Dafny

This project models two Python files.

`SciFloat.py` defines a number type held as a pair `(mantissa, exponent)` that stands for
`mantissa * 10^exponent`. The constructor stores the two fields. `_normalize` then runs two loops:
- the first divides the mantissa by ten and raises the exponent while `|mantissa| >= 10`;
- the second multiplies by ten and lowers the exponent while `0 < |mantissa| < 1`.

Arithmetic:
- `+` and `-` keep the exponent when the two exponents are equal. Otherwise they rescale both mantissas to the larger exponent.
- `*` multiplies mantissas and adds exponents. `/` divides mantissas and subtracts exponents.
- A plain `int`/`float` operand is first built into `SciFloat(x, 0)`. Any other operand raises `TypeError`.

Comparisons:
- `==` compares both fields.
- `<` compares exponents first and mantissas second.
- `<=`, `!=`, `>` and `>=` are built from those two with `or` and `not`. For an unsupported operand they apply `or` and `not` to the `NotImplemented` marker, which Python 3.9-3.13 treats as true.

`Quark.py` holds a table of the six quark flavors. Each row has:
- a charge built as `SciFloat(n, 0) / SciFloat(3, 0)`;
- a mass as a SciFloat literal in eV;
- a generation.

The file also has the two spin states (SciFloats 0.5 and -0.5), the three colour charges, and a frozen `Quark` record. The record's charge, mass and generation come from its flavor.

The model's modules:
- `Powers` (`powers.dfy`) defines `Scaled(m, e) = m * 10^e` over all integers `e`, with its algebra.
- `SciFloats` (`scifloat.dfy`) holds the value `SciValue(mantissa, exponent)`. It also holds the two normalization loops, as the pure functions `Shrink`/`Grow` and as the `SciFloat` class whose `Normalize` method updates its fields in place. Normal forms are proved unique.
- `SciArithmetic` (`arithmetic.dfy`) has the four operators on built values, and operand dispatch with `Result` errors (`TypeError`, `ZeroDivisionError`). It also has the addition and subtraction exactly as written; see Findings.
- `SciComparison` (`comparison.dfy`) has the six comparison methods and their order. It also has corrected comparisons by value.
- `Quarks` (`quark.dfy`) has the flavor table, spin, colour and quark.

The mantissa is an exact `real`, so every statement here is about exact arithmetic (see Left out).

## Model

| member | source | states |
|---|---|---|
| SciFloats.Normalized | SciFloat.py:7-13 | the normalized pair is in range (mantissa 0 or 1 <= \|mantissa\| < 10), stands for the same number `m * 10^e`, has a zero mantissa exactly when the input does, and a zero input keeps its exponent |
| SciFloats.Shrink | SciFloat.py:8-10 | the dividing loop keeps the number, ends below 10 in magnitude, keeps a magnitude of at least 1, and maps zero to itself |
| SciFloats.Grow | SciFloat.py:11-13 | from a magnitude below 10, the multiplying loop keeps the number, ends in the normal range, and leaves zero alone |
| SciFloats.ShrinkMeasureDecreases | SciFloat.py:8-10 | each pass of the dividing loop lowers the floor of the magnitude, so the loop ends |
| SciFloats.GrowMeasureDecreases | SciFloat.py:11-13 | each pass of the multiplying loop lowers the floor of 1/magnitude, so the loop ends |
| SciFloats.SciFloat.constructor | SciFloat.py:2-5 | the built object's fields are the normalization of the given mantissa and exponent |
| SciFloats.SciFloat.Normalize | SciFloat.py:7-13 | the two loops leave the fields equal to `Normalized` of the old fields: in range, with the number unchanged |
| SciFloats.NormalizedFixpoint | SciFloat.py:7-13 | a pair already in range is left unchanged (neither loop runs) |
| SciFloats.NormalFormUnique | SciFloat.py:7-13 | two nonzero pairs in range that stand for the same number are the same pair |
| SciFloats.NormalizedCanonical | SciFloat.py:2-13 | for a nonzero number, the built pair depends only on the number, not on how it was written |
| SciFloats.NormalizedIs | SciFloat.py:2-13 | any nonzero pair in range with the right number is what construction yields |
| SciArithmetic.AsSci | SciFloat.py:23-24 | a plain number operand is built as `SciFloat(x, 0)`: in range and standing for `x` |
| SciArithmetic.Align | SciFloat.py:20-21 | (corrected) a mantissa restated at exponent `e` stands for the same number |
| SciArithmetic.Add | SciFloat.py:15-22 | the sum is in range and stands for exactly the sum of the numbers |
| SciArithmetic.Sub | SciFloat.py:28-35 | the difference is in range and stands for exactly the difference of the numbers |
| SciArithmetic.Mul | SciFloat.py:41-43 | the product is in range and stands for exactly the product of the numbers |
| SciArithmetic.Quotient | SciFloat.py:49-51 | for a nonzero divisor mantissa, the divisor's number is nonzero and the quotient is in range and stands for exactly the quotient |
| SciArithmetic.NormalizedByValue | SciFloat.py:2-13 | construction from `(m, e)` equals construction from the number with exponent 0, except that a zero keeps `e` |
| SciArithmetic.AddCanonical | SciFloat.py:15-22 | a nonzero sum is the canonical pair of the summed number; a zero sum has the larger exponent |
| SciArithmetic.SubCanonical | SciFloat.py:28-35 | a nonzero difference is the canonical pair of the difference; a zero difference has the larger exponent |
| SciArithmetic.MulCanonical | SciFloat.py:41-43 | a product of nonzero mantissas is the canonical pair of the product; otherwise it is zero with exponent `a.e + b.e` |
| SciArithmetic.QuotientCanonical | SciFloat.py:49-51 | a nonzero quotient is the canonical pair of the quotient; a zero dividend gives zero with exponent `a.e - b.e` |
| SciArithmetic.AddCommutes | SciFloat.py:15-22 | `a + b` and `b + a` are the same pair |
| SciArithmetic.MulCommutes | SciFloat.py:41-43 | `a * b` and `b * a` are the same pair |
| SciArithmetic.SubSelf | SciFloat.py:30-31 | `a - a` is zero with `a`'s exponent |
| SciArithmetic.QuotientUndoesMul | SciFloat.py:41-51 | for any built `a`, zero included, and a nonzero `b`, `(a * b) / b` gives back `a` exactly |
| SciArithmetic.Lifted | SciFloat.py:21 | the mantissa as the code rescales it stands for the number scaled by `10^(2 * (e - exponent))`, not the number itself |
| SciArithmetic.AddAsWritten | SciFloat.py:15-22 | the code's sum agrees with `Add` for equal exponents; otherwise it stands for the two numbers each lifted twice the exponent gap |
| SciArithmetic.AddAsWrittenCommutes | SciFloat.py:15-22 | the code's `a + b` and `b + a` are the same pair, including the exponent of a zero sum |
| SciArithmetic.SubAsWritten | SciFloat.py:28-35 | the code's difference agrees with `Sub` for equal exponents; otherwise each operand is lifted twice the gap |
| SciArithmetic.AddAsWrittenExactIff | SciFloat.py:20-22 | the code's sum is exact if and only if the exponents are equal or the operand with the smaller exponent is zero |
| SciArithmetic.SubAsWrittenExactIff | SciFloat.py:33-35 | the code's difference is exact if and only if the exponents are equal or the operand with the smaller exponent is zero |
| SciArithmetic.AddAsWrittenCounterexample | SciFloat.py:20-22 | `1e0 + 1e3` gives `1.001e6` as written and `1.001e3` corrected |
| SciArithmetic.SubAsWrittenCounterexample | SciFloat.py:33-35 | `1e3 - 1e0` gives `-9.99e5` as written and `9.99e2` corrected |
| SciArithmetic.Plus | SciFloat.py:15-26 | (corrected) `TypeError` exactly for an unsupported operand; otherwise the sum with the operand (a number built at exponent 0), in range and exact |
| SciArithmetic.Minus | SciFloat.py:28-39 | (corrected) `TypeError` exactly for an unsupported operand; otherwise the difference, in range and exact |
| SciArithmetic.PlusAsWritten | SciFloat.py:15-26 | `__add__` as written: `TypeError` exactly for an unsupported operand; otherwise the written sum with the built operand, in range, agreeing with `Plus` for equal exponents, and exact if and only if the exponents agree or the operand with the smaller exponent is zero |
| SciArithmetic.MinusAsWritten | SciFloat.py:28-39 | `__sub__` as written: `TypeError` exactly for an unsupported operand; otherwise the written difference, in range, agreeing with `Minus` for equal exponents, and exact if and only if the exponents agree or the operand with the smaller exponent is zero |
| SciArithmetic.PlusMinusAsWrittenCounterexample | SciFloat.py:15-39 | `SciFloat(5, 3) + 1` gives `1.005e6` as written and `5.001e3` corrected; `SciFloat(5, 3) - 1` gives `-9.95e5` as written and `4.999e3` corrected |
| SciArithmetic.Times | SciFloat.py:41-47 | `TypeError` exactly for an unsupported operand; otherwise the product with the built operand |
| SciArithmetic.Divide | SciFloat.py:49-55 | `TypeError` exactly for an unsupported operand, `ZeroDivisionError` exactly for an operand standing for zero; otherwise the exact quotient, in range |
| SciArithmetic.ExampleProduct | SciFloat.py:95-97 | `SciFloat(1.2, 3) * SciFloat(1.2, 3)` is the pair `(1.44, 6)`, the product of the two numbers |
| SciComparison.Eq | SciFloat.py:57-63 | `NotImplemented` exactly for an unsupported operand; otherwise true exactly when both fields match the (built) operand's |
| SciComparison.Lt | SciFloat.py:65-74 | `NotImplemented` exactly for an unsupported operand; otherwise the lexicographic order on (exponent, mantissa) |
| SciComparison.Le | SciFloat.py:76-77 | `NotImplemented` passes through for an unsupported operand; otherwise lexicographically less or equal |
| SciComparison.Ne | SciFloat.py:79-80 | true exactly for a supported operand whose built pair differs (so false for an unsupported one) |
| SciComparison.Gt | SciFloat.py:82-83 | exactly the reversed order `o < a`, false for an unsupported operand |
| SciComparison.Ge | SciFloat.py:85-86 | exactly `o < a` or equal, false for an unsupported operand |
| SciComparison.Less | SciFloat.py:65-70 | the order `<` uses: a pair below another never has the larger exponent, and a smaller exponent always puts a pair below |
| SciComparison.LessIrreflexive | SciFloat.py:65-70 | no pair is below itself |
| SciComparison.LessAsymmetric | SciFloat.py:65-70 | two pairs are never below each other |
| SciComparison.LessTransitive | SciFloat.py:65-70 | the order is transitive |
| SciComparison.LessTrichotomy | SciFloat.py:57-70 | exactly one of `a < b`, `a == b`, `b < a` holds |
| SciComparison.LessMatchesValueWhenPositive | SciFloat.py:65-70 | on positive pairs in range, `<` is the order of the numbers, in both directions |
| SciComparison.LessIgnoresSign | SciFloat.py:65-70 | `-5e3 < 1e2` numerically, yet `<` says false |
| SciComparison.EqMatchesValue | SciFloat.py:57-59 | on nonzero pairs in range, `==` holds exactly when the numbers are equal |
| SciComparison.ZeroKeepsExponent | SciFloat.py:57-61 | `SciFloat(0, 3)` equals neither `SciFloat(0, 0)` nor the number 0 |
| SciComparison.SubSelfNotZero | SciFloat.py:28-31 | `a - a == 0` is true exactly when `a`'s exponent is 0 |
| SciComparison.NegatedValue | SciFloat.py:7-13 | negating the mantissa keeps the pair in range and negates the number |
| SciComparison.BelowMatchesValue | SciFloat.py:65-70 | the corrected order on pairs in range is the order of the numbers, in both directions |
| SciComparison.SameMatchesValue | SciFloat.py:57-59 | the corrected equality on pairs in range is equality of the numbers, in both directions |
| SciComparison.LtByValue | SciFloat.py:65-74 | corrected `<`: `NotImplemented` exactly for an unsupported operand, otherwise the numeric order |
| SciComparison.EqByValue | SciFloat.py:57-63 | corrected `==`: numeric equality, agreeing with `Eq` whenever the operand is nonzero |
| SciComparison.ByValueTrichotomy | SciFloat.py:57-74 | the corrected `<` and `==` form a strict total order consistent with equality |
| SciComparison.ByValueCorrects | SciFloat.py:57-74 | the corrected comparisons put `-5e3` below `1e2` and make `a - a == 0` true |
| Quarks.ChargeFrom | Quark.py:16-21 | `SciFloat(n, 0) / SciFloat(3, 0)` stands for exactly `n/3` |
| Quarks.ChargeLiterals | Quark.py:16-21 | the two charges are held as `(20/3, -1)` and `(-10/3, -1)` |
| Quarks.BuildProperty | Quark.py:16-21 | a row built from its literals has a charge standing for the numerator over 3, a mass in range standing for its literal, and the literal generation |
| Quarks.Flavor.Property | Quark.py:16-21 | each enum member's value: charge numerator/3, the normalized mass literal and the generation, from that member's literals |
| Quarks.Flavor.Charge | Quark.py:23-25 | up, charm and top have charge 2/3; down, strange and bottom have -1/3 |
| Quarks.Flavor.Mass | Quark.py:27-29 | each mass is positive and in range, and is the normalized literal: 2.2e6, 4.7e6, 1.27e9, 9.6e7, 1.731e11, 4.18e9 |
| Quarks.Flavor.Gen | Quark.py:31-33 | the generation is 1, 2 or 3, and exactly up/down are 1, charm/strange are 2, top/bottom are 3 |
| Quarks.AccessorsReadRow | Quark.py:23-33 | the three accessors return exactly the fields of the flavor's row |
| Quarks.MassesMatchLiterals | Quark.py:16-21 | each mass stands for exactly the number written in the table |
| Quarks.AtMostTwoPerGeneration | Quark.py:16-21 | no three distinct flavors share a generation |
| Quarks.GenerationHasBothTypes | Quark.py:16-21 | each generation holds an up-type and a down-type flavor |
| Quarks.GenerationSplitsByCharge | Quark.py:16-21 | two flavors of one generation are of different type, and their charges sum to 1/3 |
| Quarks.MassesDistinct | Quark.py:16-21 | different flavors have different masses |
| Quarks.PropertyInjective | Quark.py:15-21 | different flavors have different rows, so no enum member is an alias of another |
| Quarks.Spin.Moment | Quark.py:36-38 | the spin values are built as `(5, -1)` and `(-5, -1)` |
| Quarks.SpinsOpposite | Quark.py:36-38 | the two spin states stand for 1/2 and -1/2 |
| Quarks.Color.Name | Quark.py:41-44 | Red's value is "red", Green's is "green" and Blue's is "blue" |
| Quarks.ColorNamesDistinct | Quark.py:41-44 | different colours have different values |
| Quarks.Quark.Charge | Quark.py:66-69 | a quark's charge is its flavor's row charge: 2/3 for up-type, -1/3 for down-type |
| Quarks.Quark.Mass | Quark.py:71-74 | a quark's mass is its flavor's row mass, positive and in range |
| Quarks.Quark.Gen | Quark.py:76-79 | a quark's generation is its flavor's row generation, between 1 and 3 |
| Quarks.QuarkDependsOnFlavor | Quark.py:62-79 | two quarks of one flavor have the same charge, mass and generation, whatever their colour and spin |

## Left out

- Floating point: the mantissa is an exact real, so the model has no rounding. It also has no `inf` or `nan`, for which Python's loops would not end or would behave differently. Every equality above is exact. In Python, `1.2 * 1.2` and `2 / 3` are only approximations. Nor does the model have Python's `OverflowError`. That error is raised when a float mantissa meets `10 ** k` above about `10 ** 308` at SciFloat.py:21 and :34, as in `SciFloat(1.5, 0) + SciFloat(1.5, 400)`. It is also raised when a huge integer mantissa is divided in `_normalize`.
- Integer and float operands are both a real `Number(x)`. Python's `bool` (a subclass of `int`) counts as a number too; the model does not single it out.
- `__str__` and `__repr__` (SciFloat.py:88-92) and `Quark.__str__` (Quark.py:81-82) only format text. The module-level `print` (SciFloat.py:98) is output.
- Python's operator protocol around the arithmetic operators `+ - * /` and the comparison methods is not modelled. This covers the reflected operators and the fallback that `==` applies when `__eq__` returns `NotImplemented`. SciFloat has no `__radd__`, `__rsub__`, `__rmul__` or `__rtruediv__`, so `1 + SciFloat(1, 0)` raises `TypeError` in Python; the model has only the SciFloat-on-the-left methods. The model states what each method returns.
- `Units.py` is not part of this model. `eUnit` and `eV` are `NewType` wrappers that return their argument unchanged, so `Quark.charge` and `Quark.mass` are modelled as the flavor's SciFloat.
- Enum and dataclass machinery (member lookup by value, hashing, `frozen`) is not modelled. Rows are modelled as values. The fact that no two rows alias is proved as `PropertyInjective`.
- SciArithmetic.Times: states the result as `Mul` applied to the built operand, rather than as the product of the numbers directly. The value follows from `Mul`'s and `AsSci`'s contracts.
- SciArithmetic.Add and SciArithmetic.Sub: these model the evidently intended alignment (scaling the smaller-exponent mantissa down). The code as written is `AddAsWritten`/`SubAsWritten`; see Findings.
- SciArithmetic.Align: the corrected rescaling to the larger exponent. The rescaling as written at SciFloat.py:21 and :34 is `Lifted`.
- SciArithmetic.Plus: `__add__` over the corrected `Add`. The operator as written is `PlusAsWritten`.
- SciArithmetic.Minus: `__sub__` over the corrected `Sub`. The operator as written is `MinusAsWritten`.
- SciComparison.Le, SciComparison.Ne, SciComparison.Gt, SciComparison.Ge: for an unsupported operand, these give the results of Python 3.9-3.13, where `NotImplemented` counts as true (with a deprecation warning). From Python 3.14, using the marker as a boolean raises `TypeError`, so these four methods raise instead. `Truthy` models the older rule.
- The object's identity is not modelled. Every operator builds a fresh object, and the model describes it by its two fields after construction (`SciValue`). Only the constructor and `Normalize` work on the class.

## Findings

| source | as written | input that shows it | evidently intended | confidence | as-written member | corrected member |
|---|---|---|---|---|---|---|
| SciFloat.py:21 | the operand with the smaller exponent is multiplied by `10^(exponent - self.exponent)`, a positive power, while its exponent is raised | `SciFloat(1, 0) + SciFloat(1, 3)` gives `1.001e6` | scale that mantissa down by the gap, giving `1.001e3` | not executed | SciArithmetic.AddAsWritten, SciArithmetic.PlusAsWritten, SciArithmetic.AddAsWrittenCounterexample | SciArithmetic.Add |
| SciFloat.py:34 | the same upward rescaling in subtraction | `SciFloat(1, 3) - SciFloat(1, 0)` gives `-9.99e5` | `9.99e2` | not executed | SciArithmetic.SubAsWritten, SciArithmetic.MinusAsWritten, SciArithmetic.SubAsWrittenCounterexample | SciArithmetic.Sub |
| SciFloat.py:67-70 | `<` compares exponents before anything else, ignoring the sign of the mantissa | `SciFloat(-5, 3) < SciFloat(1, 2)` is false | numeric order: true | not executed | SciComparison.Lt, SciComparison.LessIgnoresSign | SciComparison.LtByValue |
| SciFloat.py:59 | `==` compares both fields, and normalization leaves a zero with any exponent | `SciFloat(5, 3) - SciFloat(5, 3) == 0` is false | every zero equals zero: true | not executed | SciComparison.Eq, SciComparison.SubSelfNotZero | SciComparison.EqByValue |
