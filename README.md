# Irrationals in Dafny

A model of `irrationals.py`, a small library for exact arithmetic on
quadratic irrationals of the form `a + b * sqrt(d)`, on fractions of such
numbers over an integer denominator, and on their simple continued
fractions.

- `Irrational(real, (coeff, irr))` is the datatype `Irrationals.Irrational`.
- `Fraction(num, denom)` is `Fractions.Ratio`. A fraction after the
  constructor's `simplify` is the subset type `Fractions.Fraction`, whose
  values are canonical: the gcd of the three parts is 1 and the
  denominator is positive.
- `ContFraction(irr)` is `ContFractions.ContFraction`: the value as a
  fraction together with its `Expansion` (the tuple `main_lst` and
  `period_idx`).
- Python's run-time dispatch on the operand type (`int`, `Irrational`,
  `Fraction`) is the datatype `Arith.Num`, with one function per operator.
- Raised exceptions are `Err` values of `Irrationals.Result`, one `Error`
  constructor per exception class.

Values are given meaning by evaluating them at a real `root` with
`root * root == d`. The arithmetic lemmas prove that addition,
subtraction, multiplication and `flip` compute the sum, difference,
product and inverse of those values, and that division as intended
computes the quotient. Division as the library writes it inverts the
dividend in some operand combinations. With a nonzero dividend it gives
the same quotient there. With a zero dividend it raises ZeroDivisionError
(see Findings). Floors are computed exactly with an integer square root.

The files, in dependency order:
- `numtheory.dfy`: gcd as `math.gcd` computes it, Bezout coefficients,
  floor division, the integer square root.
- `irrational.dfy`: the `Irrational` class and `sqrt`.
- `fraction.dfy`: the `Fraction` class, including a class that models the
  in-place `simplify`.
- `arith.dfy`: operator dispatch across the three kinds of operand.
- `orbit.dfy`: orbits of a map and their first repeat.
- `contfraction.dfy`: `ContFraction`, `expand` and `approximate`.
- `contfraction_cases.dfy`: the library's continued-fraction examples,
  proved.
- `render.dfy`: the three `__repr__` methods.
- `render_cases.dfy`: the library's rendering examples, proved.

## Model

| member | source | states |
|---|---|---|
| Irrationals.MakeIrrational | irrationals.py:56-62 | A negative radicand is exactly the ImaginaryPart error; otherwise the three parts are stored unchanged |
| Irrationals.Sqrt | irrationals.py:386-388 | `sqrt(n)` succeeds exactly when `n >= 0` and is `0 + 1 * sqrt(n)`; a negative `n` gives ImaginaryPart |
| Irrationals.CheckSameRadicand | irrationals.py:181-183 | Fails, with DifferentIrrationalPart, exactly when the radicands differ |
| Irrationals.AddInt | irrationals.py:73-78 | Adding an integer keeps the coefficient and the radicand |
| Irrationals.AddIntValue | irrationals.py:73-78 | Adding an integer adds it to the value |
| Irrationals.Add | irrationals.py:64-71 | Fails exactly on different radicands, with DifferentIrrationalPart; otherwise the radicand is kept |
| Irrationals.AddValue | irrationals.py:64-71 | The sum's value is the sum of the values |
| Irrationals.MulInt | irrationals.py:95-100 | Scaling by an integer keeps the radicand |
| Irrationals.MulIntValue | irrationals.py:95-100 | Scaling by an integer scales the value |
| Irrationals.Mul | irrationals.py:86-93 | Fails exactly on different radicands, with DifferentIrrationalPart; otherwise the radicand is kept |
| Irrationals.MulValue | irrationals.py:86-93 | For every real `root`, the product's value is the product of the values plus `coeff1 * coeff2 * (d - root^2)`; so where `root * root == d` it is the product of the values |
| Irrationals.MulCommutes | irrationals.py:105-106 | The product does not depend on the order of the operands, so `__rmul__` agrees with `__mul__` |
| Irrationals.Neg | irrationals.py:135-136 | Negation keeps the radicand |
| Irrationals.Sub | irrationals.py:129-130 | Fails exactly on different radicands, with DifferentIrrationalPart; otherwise the radicand is kept |
| Irrationals.Conj | irrationals.py:171-176 | The conjugate keeps the radicand |
| Irrationals.ConjValue | irrationals.py:171-176 | The conjugate's value is the value at `-root`, and conjugation is an involution |
| Irrationals.MulConj | irrationals.py:171-176 | `x * conj(x)` succeeds and is the integer `real^2 - coeff^2 * irr`, with no irrational part |
| Irrationals.FloorDivBy | irrationals.py:122-127 | Each part of `x // n` is Python's floor quotient of that part by `n`: for `n > 0`, `n * q <= part < n * q + n`, and mirrored for `n < 0`. The radicand is kept, and scaling is undone when both parts are multiples of `n` |
| Irrationals.FloorDivBothExact | irrationals.py:122-127 | When the divisor divides both parts, each part is its floor quotient times the divisor |
| Irrationals.FloorDivInt | irrationals.py:122-127 | `x // n` fails exactly when `n == 0`, with ZeroDivision; otherwise it is the part-wise floor quotient `FloorDivBy(x, n)` over the same radicand |
| Irrationals.FloorDivValue | irrationals.py:122-127 | When the divisor divides both parts, the quotient times the divisor has the original value |
| Irrationals.NormNonzero | irrationals.py:289-293 | A nonzero irrational whose radicand is not a perfect square has a nonzero norm, so `flip` never divides by zero for it |
| Irrationals.NormZeroSquare | irrationals.py:289-293 | A zero norm with a nonzero coefficient forces the radicand to be a perfect square |
| Irrationals.SquareRadicandHasZeroNorm | irrationals.py:334-336 | Over a perfect-square radicand, `s + sqrt(s^2)` has norm zero: without the perfect-square check, `expand` could divide by zero |
| Fractions.CanonicalGcd | irrationals.py:295-305 | With a positive denominator, a ratio is canonical exactly when the gcd of `real`, `coeff` and `denom` is 1 |
| Fractions.CanonicalByCombination | irrationals.py:295-305 | A ratio with a positive denominator and an integer combination of its parts equal to 1 is canonical |
| Fractions.ReduceByGcd | irrationals.py:295-302 | The gcd of the three parts is positive and divides each part exactly, and the quotients have gcd 1 |
| Fractions.Simplify | irrationals.py:295-305 | `simplify` yields a canonical fraction over the same radicand, with the same ratio as its input |
| Fractions.SimplifyScales | irrationals.py:295-305 | The input is a nonzero integer multiple of the simplified fraction, part by part |
| Fractions.SimplifyUnique | irrationals.py:295-305 | Two inputs with the same ratio simplify to the same fraction |
| Fractions.SimplifyIdempotent | irrationals.py:295-305 | Simplifying a canonical fraction gives it back unchanged |
| Fractions.SimplifyValue | irrationals.py:295-305 | Simplification keeps the value `num / denom` |
| Fractions.SimplifyIsCanonicalForm | irrationals.py:295-305 | The algorithm's result is the unique canonical fraction with the input's ratio |
| Fractions.CanonicalUnique | irrationals.py:268-269 | Two canonical fractions with the same ratio are equal, so `__eq__` on the parts is equality of values |
| Fractions.OneCanonicalForm | irrationals.py:188-206 | There is at most one canonical fraction with a given ratio |
| Fractions.CanonicalForm | irrationals.py:188-206 | The fraction the constructor stores has the ratio it was given |
| Fractions.CanonicalFormIs | irrationals.py:188-206 | Any canonical fraction with the given ratio is the one the constructor stores |
| Fractions.FractionCell.constructor | irrationals.py:188-206 | The constructed object holds the simplified numerator and denominator |
| Fractions.FractionCell.SimplifyInPlace | irrationals.py:295-305 | Rewriting the fields in place leaves exactly `Simplify` of the old fields, which is canonical |
| Fractions.MakeFraction | irrationals.py:188-206 | `Fraction(num, denom)` fails exactly when `denom == 0`, with ZeroDivision; otherwise it keeps the ratio |
| Fractions.MakeFractionValue | irrationals.py:188-206 | The constructed fraction's value times the given denominator is the numerator's value |
| Fractions.Promote | irrationals.py:188-206 | `Fraction(x)` with the default denominator is `x / 1`, already canonical |
| Fractions.PromoteSimplifies | irrationals.py:188-206 | Simplifying `x / 1` leaves it unchanged |
| Fractions.PromoteValue | irrationals.py:188-206 | `x / 1` has the value of `x` |
| Fractions.Zero | irrationals.py:188-206 | The canonical zero over a radicand is `(0 + 0 * sqrt(d)) / 1` |
| Fractions.ZeroCanonicalForm | irrationals.py:295-305 | A numerator with no real and no irrational part gives the canonical zero fraction, whatever the denominator |
| Fractions.MulZero | irrationals.py:236-239 | Zero times any fraction over the same radicand is zero |
| Fractions.AddInt | irrationals.py:209-212 | Adding an integer keeps the radicand |
| Fractions.AddIntValue | irrationals.py:209-212 | Adding an integer adds it to the value |
| Fractions.Add | irrationals.py:214-221 | Fails exactly on different radicands; otherwise the radicand is kept |
| Fractions.AddValue | irrationals.py:214-221 | The sum's value is the sum of the values |
| Fractions.MulInt | irrationals.py:228-231 | Scaling by an integer keeps the radicand |
| Fractions.MulIntValue | irrationals.py:228-231 | Scaling by an integer scales the value |
| Fractions.Mul | irrationals.py:233-239 | Fails exactly on different radicands; otherwise the radicand is kept |
| Fractions.MulValue | irrationals.py:233-239 | For every real `root`, the product's value is the product of the values plus `coeff1 * coeff2 * (d - root^2) / (denom1 * denom2)`; so where `root * root == d` it is the product of the values |
| Fractions.DivInt | irrationals.py:245-248 | Dividing by an integer fails exactly when it is zero, with ZeroDivision |
| Fractions.DivIntValue | irrationals.py:245-248 | The quotient by a nonzero integer, times that integer, has the original value |
| Fractions.Neg | irrationals.py:265-266 | Negation keeps the radicand |
| Fractions.Sub | irrationals.py:259-260 | Fails exactly on different radicands; otherwise the radicand is kept |
| Fractions.Flip | irrationals.py:289-293 | `flip` fails, with ZeroDivision, exactly when the numerator's norm is zero; otherwise it is `denom * conj(num) / norm` in canonical form |
| Fractions.FlipValue | irrationals.py:289-293 | The flipped fraction's value times the original's is 1 |
| Fractions.FlipInvolution | irrationals.py:289-293 | Flipping twice gives the fraction back |
| Fractions.FlipOfRatio | irrationals.py:289-293 | Flipping any representation `n / dn` of a fraction: the norm of `n` is zero exactly when the fraction's is, and otherwise the result has the ratio `dn * conj(n) / norm(n)` |
| Fractions.MulOfRatio | irrationals.py:233-239 | Multiplying by a fraction gives the ratio of multiplying by any other representation of it |
| Fractions.FlipInvolutionIrrational | irrationals.py:289-293 | A nonzero fraction whose radicand is not a perfect square can always be flipped, and flipping twice is the identity |
| Fractions.Div | irrationals.py:250-254 | Fails exactly when the divisor's norm is zero (ZeroDivision) or the radicands differ (DifferentIrrationalPart) |
| Fractions.DivValue | irrationals.py:250-254 | The quotient times the divisor has the dividend's value |
| Fractions.FloorSurd | irrationals.py:307-308 | `floor(b * sqrt(d))` in integers: for `b >= 0`, `r >= 0` and `r^2 <= b^2 d < (r + 1)^2`; for `b < 0`, `r <= 0` and `b^2 d <= r^2`, and when `r < 0`, also `(r + 1)^2 < b^2 d` |
| Fractions.Floor | irrationals.py:307-308 | `math.floor(num.value() / denom)` computed exactly as the floor quotient of `real + floor(coeff * sqrt(irr))` by the denominator. It has no contract of its own; `FloorBounds` and `FloorValueBounds` prove it is the floor of the value |
| Fractions.FloorBounds | irrationals.py:307-308 | `floor()` times the denominator is at most the numerator's value, which is below the next multiple |
| Fractions.FloorValueBounds | irrationals.py:307-308 | `floor() <= value < floor() + 1` |
| Arith.ToFraction | irrationals.py:214-215 | Promoting an operand to a fraction keeps its numerator and radicand; an integer becomes `n / 1` |
| Arith.ToFractionValue | irrationals.py:214-215 | Promotion keeps the value |
| Arith.Neg | irrationals.py:135-136 | Unary minus keeps the kind of the operand and its radicand |
| Arith.NegValue | irrationals.py:265-266 | Unary minus negates the value |
| Arith.Add | irrationals.py:64-84 | `a + b` in every operand combination: it fails exactly on two different radicands; otherwise the result is of the wider kind, over the shared radicand |
| Arith.AddValue | irrationals.py:208-225 | The sum's value is the sum of the values, in every operand combination |
| Arith.Sub | irrationals.py:129-133 | `a - b`, including the reflected `__rsub__`: same error condition and result kind as `+` |
| Arith.SubValue | irrationals.py:259-263 | The difference's value is the difference of the values |
| Arith.Mul | irrationals.py:86-106 | `a * b` in every operand combination: the error condition and result kind are as for `+` |
| Arith.MulValue | irrationals.py:227-242 | The product's value is the product of the values |
| Arith.MulSwapsInt | irrationals.py:241-242 | An integer factor commutes, so `__rmul__` agrees with `__mul__` |
| Arith.MulIntOperandValue | irrationals.py:95-100 | An integer times any operand scales its value |
| Arith.Div | irrationals.py:108-116 | Division as intended: it fails exactly on a zero divisor (ZeroDivision) or different radicands (DifferentIrrationalPart); otherwise it is a fraction over the shared radicand |
| Arith.DivValue | irrationals.py:244-254 | The quotient times the divisor has the dividend's value |
| Arith.DivByIntValue | irrationals.py:108-110 | Division by a nonzero integer succeeds and inverts multiplication by it |
| Arith.DivBySurdValue | irrationals.py:112-113 | Division by a non-zero irrational or fraction succeeds and inverts multiplication by it |
| Arith.DivAsWritten | irrationals.py:119-120 | Division exactly as written, including the reflected `flip(b / a)` rows; a result over the shared radicand |
| Arith.DivAsWrittenZeroDividend | irrationals.py:256-257 | In the rows that invert the dividend, a zero dividend raises ZeroDivision whatever the divisor |
| Arith.DivAsWrittenAgrees | irrationals.py:244-254 | Outside those rows, division as written is division as intended |
| Arith.DivAsWrittenInverts | irrationals.py:115-120 | In those rows, with a nonzero dividend and agreeing radicands, `flip(b / a)` is `a / b`: the same fraction, or the same ZeroDivision for a zero divisor |
| Arith.DivAsWrittenIncompatible | irrationals.py:115-116 | In those rows, with a nonzero dividend and different radicands, division as written raises DifferentIrrationalPart, even for a zero divisor |
| Arith.IntOverSurdAsWritten | irrationals.py:119-120 | For a nonzero integer `m` and a divisor denoting `y / e`, inverting the fraction `b / m` gives `m / b` |
| Arith.IrrOverFracAsWritten | irrationals.py:115-116 | For `x` of nonzero norm and a fraction `g` over its radicand, `flip(g / x)` is `x / g` |
| Arith.NormMul | irrationals.py:86-93 | The norm `real^2 - coeff^2 * irr` of a product is the product of the norms |
| Arith.DivOfZero | irrationals.py:108-116 | As intended, zero over a non-zero divisor is the zero fraction |
| Arith.ZeroOverSqrtTwo | irrationals.py:119-120 | `0 / sqrt(2)` raises ZeroDivision as written, but is `0` as intended |
| ContFractions.Next | irrationals.py:346 | One step `(alpha - floor).flip()` of a quadratic value never divides by zero and gives a quadratic value over the same radicand |
| ContFractions.NextValue | irrationals.py:346-347 | `alpha = floor(alpha) + 1 / next`, and the next complete quotient exceeds 1 |
| ContFractions.OrbitQuadratic | irrationals.py:345-354 | Every complete quotient along the orbit is quadratic over the same radicand |
| ContFractions.FirstIndex | irrationals.py:348-349 | `alpha_lst.index(x)` is the first position holding `x`, or the length when `x` is absent |
| ContFractions.Expand | irrationals.py:340-356 | The loop records distinct complete quotients along the orbit; on a repeat it returns the expansion of its input, with as many terms as records; otherwise it runs out of steps |
| ContFractions.RepeatCloses | irrationals.py:348-350 | A distinct history whose next complete quotient is already in it gives the expansion with that period index |
| ContFractions.ExpansionUnique | irrationals.py:340-356 | A value has at most one expansion |
| ContFractions.ExpandCompletes | irrationals.py:340-356 | With at least as many steps as the expansion has terms, `expand` returns it |
| ContFractions.CycleOrbit | irrationals.py:345-354 | A closed cycle of complete quotients is the orbit, wrapping back to the period |
| ContFractions.ExpansionOfCycle | irrationals.py:340-356 | Distinct complete quotients that cycle back give the expansion with their floors as terms |
| ContFractions.NewContFraction | irrationals.py:312-338 | A plain integer is NonIrrational; then a zero coefficient is ZeroCoefficient; then a perfect-square radicand is PerfectSquare, in that order; otherwise the object holds the operand as a fraction and its expansion, and running out of steps means the expansion is longer than the bound |
| ContFractions.ConstructCompletes | irrationals.py:312-338 | With enough steps, construction succeeds and holds the expansion |
| Orbits.WrapIndex | irrationals.py:364 | `p + (i - p) % (n - p) if i >= p else i` is always an index below `n`, and a result below `p` is `i` itself |
| Orbits.WrapIndexBounds | irrationals.py:364 | From step `p` on the index stays in the period `[p, n)`, and it is `i` itself while `i < n` |
| Orbits.WrapIndexPeriod | irrationals.py:364 | From step `p` on, the index repeats with period `n - p` |
| ContFractions.ExpansionPeriodic | irrationals.py:364 | Every complete quotient's floor is the term at the wrapped index `p + (i - p) % (n - p)` |
| ContFractions.Recurrence | irrationals.py:360-366 | Defines the convergents: `(p1, p2, q1, q2)` start at `(1, a[0], 0, 1)`, and step `i` uses the term at the wrapped index. It has no contract of its own; `Approximate`, `RecurrenceDeterminant` and `RecurrenceDenominators` state its properties |
| ContFractions.Approximate | irrationals.py:358-370 | The loop returns the numerator and denominator of the convergent `Recurrence(e, depth)` |
| ContFractions.RecurrenceDeterminant | irrationals.py:363-366 | `p2 * q1 - p1 * q2` alternates between -1 and +1, so every convergent is in lowest terms |
| ContFractions.RecurrenceDenominators | irrationals.py:363-366 | With positive partial quotients the denominators are positive and never decrease |
| ContFractions.ExpansionTermsPositive | irrationals.py:343-347 | Every term of an expansion after the first is positive |
| ContFractionCases.WalkExpansion | irrationals.py:340-356 | A closed cycle of distinct quadratic values, each stepping to the next, is the expansion of its first value |
| ContFractionCases.UnitStep | irrationals.py:346-347 | One explicit step from `(a + sqrt(d)) / q` with floor `t` |
| ContFractionCases.Sqrt2Expansion | tests.py:208-209 | The expansion of `sqrt(2)` is `(1, (2))` |
| ContFractionCases.Sqrt2ContFraction | tests.py:208-209 | `ContFraction(sqrt(2))` succeeds with terms `[1, 2]` and period index 1 |
| ContFractionCases.Sqrt3Expansion | tests.py:212-213 | The expansion of `sqrt(3)` is `(1, (1, 2))` |
| ContFractionCases.Sqrt3ContFraction | tests.py:212-213 | `ContFraction(sqrt(3))` succeeds with terms `[1, 1, 2]` and period index 1 |
| ContFractionCases.Sqrt5Expansion | tests.py:216-217 | The expansion of `sqrt(5)` is `(2, (4))` |
| ContFractionCases.Sqrt5ContFraction | tests.py:216-217 | `ContFraction(sqrt(5))` succeeds with terms `[2, 4]` and period index 1 |
| ContFractionCases.Sqrt29Step | tests.py:220-221 | Each of the six complete quotients of `sqrt(29)` has the expected floor and steps to the next, the last one back to the second |
| ContFractionCases.Sqrt29Distinct | tests.py:220-221 | The six complete quotients of `sqrt(29)` are pairwise distinct |
| ContFractionCases.Sqrt29Expansion | tests.py:220-221 | The expansion of `sqrt(29)` is `(5, (2, 1, 1, 2, 10))` |
| ContFractionCases.Sqrt29ContFraction | tests.py:220-221 | `ContFraction(sqrt(29))` succeeds with terms `[5, 2, 1, 1, 2, 10]` and period index 1 |
| ContFractionCases.Sqrt29Convergent | tests.py:232 | `approximate(depth=7, is_fraction=True)` on `sqrt(29)` computes `(2251, 418)` |
| ContFractionCases.GoldenSum | tests.py:224 | `sqrt(5) + 1` is `1 + sqrt(5)` |
| ContFractionCases.GoldenIs | tests.py:224 | `(sqrt(5) + 1) / 2` is the fraction `(1 + sqrt(5)) / 2` |
| ContFractionCases.GoldenExpansion | tests.py:224-225 | The expansion of the golden ratio is `((1))` |
| ContFractionCases.GoldenContFraction | tests.py:224-225 | `ContFraction((sqrt(5) + 1) / 2)` succeeds with terms `[1]` and period index 0 |
| ContFractionCases.Sqrt4Rejected | tests.py:236 | `ContFraction(sqrt(4))` raises PerfectSquareError |
| ContFractionCases.ZeroCoefficientRejected | tests.py:239 | `ContFraction(Irrational(2, (0, 5)))` raises ZeroCoefficientError |
| ContFractionCases.IntegerRejected | tests.py:242 | `ContFraction(5)` raises NonIrrationalError |
| Render.NatToString | irrationals.py:148 | `str(n)` for `n >= 0` is a non-empty string of digits with no leading zero |
| Render.NatToStringRoundTrip | irrationals.py:148 | Reading the digits of `str(n)` back gives `n` |
| Render.IntToStringRoundTrip | irrationals.py:274 | `int(str(n)) == n` for every integer |
| Render.LetterNotInteger | irrationals.py:273-277 | A string holding a letter is not something `int` accepts |
| Render.JoinSnoc | irrationals.py:168 | `sep.join(parts + [x])` is `sep.join(parts) + sep + x`, or just `x` when `parts` is empty |
| Render.JoinHolds | irrationals.py:168 | Every character of a part appears in the joined string |
| Render.ShowIrrational | irrationals.py:141-169 | An irrational with no irrational part, or with a perfect-square radicand, renders as `str` of its integer value |
| Render.SurdPartForm | irrationals.py:150-161 | The radical part is the coefficient and ` * ` (left out for plus or minus one), a bare `-` for minus one in front, then `sqrt(irr)` |
| Render.SurdPartLetter | irrationals.py:159 | The radical part always holds the letter `s` |
| Render.ShowIrrationalForm | irrationals.py:146-168 | Otherwise the string is the real part (when nonzero), the sign as separator, then the radical part with the absolute coefficient |
| Render.ShowIrrationalInteger | irrationals.py:273-277 | `int(str(x))` succeeds exactly when `x` has no irrational part or a perfect-square radicand, and then gives the value of `x` |
| Render.ShowOverForm | irrationals.py:284-287 | The numerator string, followed by ` / ` and the denominator unless it is 1 |
| Render.Reduce | irrationals.py:279-282 | `num // g, denom // g` for `g = gcd(num, denom)` is the same ratio, in lowest terms, over a positive denominator |
| Render.ShowFraction | irrationals.py:271-287 | A numerator that is not an integer renders as is, followed by ` / ` and the denominator unless it is 1. An integer numerator that the denominator divides renders as the integer quotient alone |
| Render.ReduceWhole | irrationals.py:279-282 | Reducing a whole-valued ratio leaves the quotient over 1 |
| Render.ShowFractionNumerator | irrationals.py:271-287 | A numerator that is not an integer literal renders as is; an integer one is first reduced against the denominator |
| Render.OpeningComplete | irrationals.py:372-383 | The text built term by term is the expansion's tuple notation with the period in its own parentheses |
| Render.PiecesText | irrationals.py:374-381 | The pieces the loop appends for the first `i` terms spell the first `i` terms of the notation |
| Render.BufferText | irrationals.py:372-383 | Joining the whole buffer gives the tuple notation |
| Render.ShowContFraction | irrationals.py:372-383 | The buffer loop of `__repr__` produces the tuple notation of the expansion |
| RenderCases.ShowSqrt5 | tests.py:105-106 | `str(sqrt(5))` is `sqrt(5)` |
| RenderCases.ShowNegSqrt5 | tests.py:109-110 | `str(-sqrt(5))` is `-sqrt(5)` |
| RenderCases.ShowSqrtMinusOne | tests.py:113-114 | `str(sqrt(5) - 1)` is `-1 + sqrt(5)` |
| RenderCases.ShowSqrtPlusOne | tests.py:117-118 | `str(sqrt(5) + 1)` is `1 + sqrt(5)` |
| RenderCases.ShowOneMinusSqrt | tests.py:121-122 | `str(-sqrt(5) + 1)` is `1 - sqrt(5)` |
| RenderCases.ShowNegOneMinusSqrt | tests.py:125-126 | `str(-sqrt(5) - 1)` is `-1 - sqrt(5)` |
| RenderCases.ShowThreePlusTwoSqrt2 | tests.py:129-130 | `str(2 * sqrt(2) + 3)` is `3 + 2 * sqrt(2)` |
| RenderCases.ShowNegOneMinusTwoSqrt5 | tests.py:133-134 | `str(-2 * sqrt(5) - 1)` is `-1 - 2 * sqrt(5)` |
| RenderCases.ShowOnePlusTwoSqrt5 | tests.py:137-138 | `str(2 * sqrt(5) + 1)` is `1 + 2 * sqrt(5)` |
| RenderCases.ShowNegTwoSqrt5 | tests.py:141-142 | `str(-2 * sqrt(5))` is `-2 * sqrt(5)` |
| RenderCases.ShowIntegerIrrationals | tests.py:145-158 | Integer-valued irrationals render as their value: `-1`, `1`, `0` and `0` |
| RenderCases.ShowNinePlusThreeSqrt5 | tests.py:190-191 | `str(9 + 3 * sqrt(5))` is `9 + 3 * sqrt(5)` |
| RenderCases.ShowGoldenRatio | tests.py:162-163 | `str((sqrt(5) + 1) / 2)` is `1 + sqrt(5) / 2` |
| RenderCases.ShowReducedSurd | tests.py:166-167 | `str(-2 * sqrt(5) / 4)` is `-sqrt(5) / 2` |
| RenderCases.ShowNegatedDenominator | tests.py:170-171 | `str(-sqrt(100) / -10)` is `1` |
| RenderCases.ShowZeroCoefficientFraction | tests.py:174-175 | `str(0 * sqrt(2) / 3)` is `0` |
| RenderCases.ShowZeroRadicandFraction | tests.py:178-179 | `str(2 * sqrt(0) / 3)` is `0` |
| RenderCases.ShowIntegerOverDenominator | tests.py:182-183 | `str((-sqrt(4) + 1) / 2)` is `-1 / 2` |
| RenderCases.ShowCancelledToIrrational | tests.py:186-187 | `str((2 * sqrt(5) + 2) / 2)` is `1 + sqrt(5)` |
| RenderCases.ShowCancelledByFive | tests.py:190-191 | `str((45 + 15 * sqrt(5)) / 50)` is `9 + 3 * sqrt(5) / 10` |
| RenderCases.ShowSqrt2Expansion | tests.py:208-209 | `str(ContFraction(sqrt(2)))` is `(1, (2))` |
| RenderCases.ShowSqrt3Expansion | tests.py:212-213 | `str(ContFraction(sqrt(3)))` is `(1, (1, 2))` |
| RenderCases.ShowSqrt5Expansion | tests.py:216-217 | `str(ContFraction(sqrt(5)))` is `(2, (4))` |
| RenderCases.ShowSqrt29Expansion | tests.py:220-221 | `str(ContFraction(sqrt(29)))` is `(5, (2, 1, 1, 2, 10))` |
| RenderCases.ShowGoldenExpansion | tests.py:224-225 | `str(ContFraction((sqrt(5) + 1) / 2))` is `((1))` |

## Left out

- `value()` and its floating-point arithmetic, used by the float result of `approximate` (irrationals.py:178-179, 370). The model keeps only the exact `(p2, q2)` pair and gives values meaning through a real root.
- The floating-point perfect-square test `sq == int(sq)` (irrational and continued-fraction code). It is modelled as the exact integer-square-root test `IsPerfectSquare`, and `Fraction.floor` as the exact floor. For very large radicands, where a float rounds, the two can differ.
- `is_integer` and NonIntegerError: every part has an integer type, so this error cannot arise.
- Operands of any other type, for which the operators fall through and return `None`, are not modelled: `Arith.Num` has only the three kinds.
- Arith.DivAsWritten: its own contract states only the kind and radicand of a successful result. Four lemmas together give its whole behaviour. `DivAsWrittenAgrees` covers the rows that do not invert the dividend, `DivAsWrittenZeroDividend` a zero dividend, `DivAsWrittenInverts` a nonzero dividend with agreeing radicands, and `DivAsWrittenIncompatible` a nonzero dividend with different radicands. In the last case the error also differs in priority. For `x / f` with `f` over another radicand and with a zero numerator norm, the library reports DifferentIrrationalPartError, where `Arith.Div` reports ZeroDivision first.
- Arith.Div: requires that not both operands are integers. Dividing two plain integers is Python's float division, not part of the library.
- Arith.Add, Arith.Sub, Arith.Mul, Arith.Div: the reflected operators `__radd__`, `__rmul__`, `__rsub__` and `__rtruediv__` are folded into one function per operator over both operand orders. `__rtruediv__` is modelled separately in `Arith.DivAsWritten`.
- `__eq__` is Dafny's equality on the datatypes. For canonical fractions, `Fractions.CanonicalUnique` shows that this is equality of values.
- ContFractions.Expand: the library loops until a complete quotient repeats. The model takes a step bound `fuel` and returns `OutOfFuel` when it is exhausted. The proof that the loop always ends (Lagrange's theorem on periodic expansions) is not part of this model. `ExpandCompletes` and `ConstructCompletes` show that any bound at least the length of the expansion suffices.
- ContFractions.Approximate: `depth=100` and `is_fraction` become a `depth` parameter and a pair result. It requires what a constructed `ContFraction` always has: at least one term and a period index inside the terms.
- Render.ShowContFraction: requires a period index inside the terms, which every constructed `ContFraction` has.
- Render.ShowFraction: the `try: int(str(num))` is modelled by the integer condition it amounts to. `Render.ShowIrrationalInteger` proves the two equivalent.
- The operator examples of the library's tests (tests.py:8-100) are not restated as concrete lemmas. The general value lemmas of `Irrationals`, `Fractions` and `Arith` cover them. Examples such as `105 / (30 * sqrt(5) + 120)` (tests.py:34-35) go through the rows that invert the dividend, and `Arith.DivAsWrittenInverts` reduces those to `Arith.Div`.

## Findings

| source | as written | input that shows it | evidently intended | confidence | as-written member | corrected member |
|---|---|---|---|---|---|---|
| irrationals.py:119-120, 256-257 | `n / x` for an integer `n` (and `x / f` for an irrational `x` and a fraction `f`) computes `flip(x / n)` (respectively `flip(f / x)`), inverting the dividend | `0 / sqrt(2)`: `sqrt(2) / 0` raises ZeroDivisionError | `0 / sqrt(2) == 0`; only a zero divisor should raise | not executed | Arith.DivAsWritten, Arith.ZeroOverSqrtTwo | Arith.Div, Arith.DivOfZero |
