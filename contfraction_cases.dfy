/** The continued fractions the library's examples expand: `sqrt(2)`,
    `sqrt(3)`, `sqrt(5)`, `sqrt(29)` and the golden ratio `(sqrt(5) + 1) / 2`,
    and the convergent of `sqrt(29)` at depth 7. Each expansion is computed
    step by step from the recurrence, and the constructor is shown to return
    it whenever it is given enough steps. */
module ContFractionCases {
  import opened NumberTheory
  import opened Irrationals
  import opened ContFractions
  import Fractions
  import Arith
  import Orbits

  /** `(a + sqrt(d)) / q`, canonical because its coefficient is one. */
  function Unit(a: int, d: nat, q: int): Fraction
    requires q > 0
  {
    Fractions.CanonicalByCombination(Fractions.Ratio(Irrational(a, 1, d), q), 0, 1, 0);
    Fractions.Ratio(Irrational(a, 1, d), q)
  }

  /** `Next(alpha) == r`, from the two canonical forms it computes. */
  lemma StepIs(alpha: Fraction, m: Fraction, r: Fraction)
    requires IsQuadratic(alpha)
    requires Fractions.SameRatio(Irrationals.AddInt(alpha.num, -Fractions.Floor(alpha) * alpha.denom), alpha.denom, m.num, m.denom)
    requires Norm(m.num) != 0
    requires Fractions.SameRatio(Irrationals.MulInt(Conj(m.num), m.denom), Norm(m.num), r.num, r.denom)
    ensures Next(alpha) == r
  {
    var a := Fractions.Floor(alpha);
    Fractions.CanonicalFormIs(Irrationals.AddInt(alpha.num, -a * alpha.denom), alpha.denom, m);
    var n := Irrationals.MulInt(Conj(m.num), m.denom);
    Fractions.CanonicalFormIs(n, Norm(m.num), r);
    Fractions.CanonicalFormIs(n, Norm(m.num), Fractions.Flip(m).value);
  }

  lemma FloorDivIs(x: int, q: int, t: int)
    requires q > 0 && q * t <= x < q * t + q
    ensures FloorDiv(x, q) == t
  {
    var t' := FloorDiv(x, q);
    assert -q < q * (t - t') < q;
    SmallMultiple(q, t - t');
  }

  lemma CrossStep(u: int, v: int, q: int, q2: int, n: int)
    requires v == -u && n == -(q * q2)
    ensures (u * q) * q2 == v * n && (-1 * q) * q2 == 1 * n
  {
  }

  /** One step from `(a + sqrt(d)) / q`, where `s` is the integer square root
      of `d`: the floor is `t`, and the next complete quotient is
      `(t q - a + sqrt(d)) / q2` with `q q2 = d - (a - t q)^2`. */
  lemma UnitStep(a: int, d: nat, q: int, s: nat, t: int, q2: int)
    requires q > 0 && q2 > 0 && s * s <= d < (s + 1) * (s + 1) && s * s != d
    requires q * t <= a + s < q * t + q
    requires q * q2 == d - (a - t * q) * (a - t * q)
    ensures IsQuadratic(Unit(a, d, q)) && Fractions.Floor(Unit(a, d, q)) == t
    ensures Next(Unit(a, d, q)) == Unit(t * q - a, d, q2)
  {
    ISqrtUnique(d, s);
    assert 1 * 1 * d == d;
    FloorDivIs(a + s, q, t);
    var alpha := Unit(a, d, q);
    var u := a - t * q;
    var m := Unit(u, d, q);
    var r := Unit(t * q - a, d, q2);
    var n := Norm(m.num);
    assert n == -(q * q2);
    Fractions.NonzeroProduct(q, q2);
    assert Irrationals.AddInt(alpha.num, -Fractions.Floor(alpha) * alpha.denom) == Irrational(u, 1, d);
    CrossStep(u, t * q - a, q, q2, n);
    StepIs(alpha, m, r);
  }

  /** A walk through complete quotients `h` in which each step gives the
      next one and the last step returns to position `k`, with the floors
      `terms` along the way: the expansion of `h[0]`. */
  lemma WalkExpansion(h: seq<Fraction>, k: nat, terms: seq<int>)
    requires 1 <= |h| && k < |h| && |terms| == |h| && Distinct(h)
    requires forall j :: 0 <= j < |h| ==> IsQuadratic(h[j]) && Fractions.Floor(h[j]) == terms[j]
    requires forall j :: 0 <= j < |h| ==> Next(h[j]) == h[if j < |h| - 1 then j + 1 else k]
    ensures IsQuadratic(h[0]) && IsExpansionOf(h[0], Expansion(terms, k))
  {
    assert Next(h[|h| - 1]) == h[k];
    ExpansionOfCycle(h[0], h, k, terms);
  }

  // ---------------------------------------------------------------------
  // sqrt(29) = [5; (2, 1, 1, 2, 10)]

  function Sqrt29Cycle(): seq<Fraction> {
    [Unit(0, 29, 1), Unit(5, 29, 4), Unit(3, 29, 5), Unit(2, 29, 5), Unit(3, 29, 4), Unit(5, 29, 1)]
  }

  function Sqrt29Terms(): seq<int> {
    [5, 2, 1, 1, 2, 10]
  }

  /** Step `j` along the cycle: the complete quotient at `j`, its floor, and
      the one after it. */
  lemma Sqrt29Step(j: nat)
    requires j < 6
    ensures IsQuadratic(Sqrt29Cycle()[j]) && Fractions.Floor(Sqrt29Cycle()[j]) == Sqrt29Terms()[j]
    ensures Next(Sqrt29Cycle()[j]) == Sqrt29Cycle()[if j < 5 then j + 1 else 1]
  {
    if j < 2 { Sqrt29StepA(j); } else if j < 4 { Sqrt29StepB(j); } else { Sqrt29StepC(j); }
  }

  lemma Sqrt29StepA(j: nat)
    requires j < 2
    ensures IsQuadratic(Sqrt29Cycle()[j]) && Fractions.Floor(Sqrt29Cycle()[j]) == Sqrt29Terms()[j]
    ensures Next(Sqrt29Cycle()[j]) == Sqrt29Cycle()[j + 1]
  {
    if j == 0 { UnitStep(0, 29, 1, 5, 5, 4); } else { UnitStep(5, 29, 4, 5, 2, 5); }
  }

  lemma Sqrt29StepB(j: nat)
    requires 2 <= j < 4
    ensures IsQuadratic(Sqrt29Cycle()[j]) && Fractions.Floor(Sqrt29Cycle()[j]) == Sqrt29Terms()[j]
    ensures Next(Sqrt29Cycle()[j]) == Sqrt29Cycle()[j + 1]
  {
    if j == 2 { UnitStep(3, 29, 5, 5, 1, 5); } else { UnitStep(2, 29, 5, 5, 1, 4); }
  }

  lemma Sqrt29StepC(j: nat)
    requires 4 <= j < 6
    ensures IsQuadratic(Sqrt29Cycle()[j]) && Fractions.Floor(Sqrt29Cycle()[j]) == Sqrt29Terms()[j]
    ensures Next(Sqrt29Cycle()[j]) == Sqrt29Cycle()[if j < 5 then j + 1 else 1]
  {
    if j == 4 { UnitStep(3, 29, 4, 5, 2, 1); } else { UnitStep(5, 29, 1, 5, 10, 4); }
  }

  lemma Sqrt29Distinct()
    ensures Distinct(Sqrt29Cycle())
  {
  }

  /** `sqrt(29)` expands to `(5, (2, 1, 1, 2, 10))` with period index 1. */
  lemma Sqrt29Expansion()
    ensures IsQuadratic(Unit(0, 29, 1))
    ensures IsExpansionOf(Unit(0, 29, 1), Expansion(Sqrt29Terms(), 1))
  {
    var h := Sqrt29Cycle();
    forall j | 0 <= j < 6
      ensures IsQuadratic(h[j]) && Fractions.Floor(h[j]) == Sqrt29Terms()[j]
      ensures Next(h[j]) == h[if j < 5 then j + 1 else 1]
    {
      Sqrt29Step(j);
    }
    Sqrt29Distinct();
    WalkExpansion(h, 1, Sqrt29Terms());
  }

  /** `ContFraction(sqrt(29))`, given at least six steps. */
  lemma Sqrt29ContFraction(fuel: nat, r: Result<ContFraction>)
    requires fuel >= 6 && ConstructOutcome(Arith.Irr(Sqrt(29).value), fuel, r)
    ensures r == Ok(ContFraction(Unit(0, 29, 1), Expansion([5, 2, 1, 1, 2, 10], 1)))
  {
    Sqrt29Expansion();
    ConstructCompletes(Arith.Irr(Sqrt(29).value), fuel, r, Expansion(Sqrt29Terms(), 1));
  }

  /** The convergent of `sqrt(29)` at depth 7 is `2251 / 418`. */
  lemma Sqrt29Convergent()
    ensures Recurrence(Expansion(Sqrt29Terms(), 1), 7) == Convergents(1524, 2251, 283, 418)
  {
    var e := Expansion(Sqrt29Terms(), 1);
    assert Recurrence(e, 0) == Convergents(1, 5, 0, 1);
    assert Recurrence(e, 1) == Convergents(5, 11, 1, 2);
    assert Recurrence(e, 2) == Convergents(11, 16, 2, 3);
    assert Recurrence(e, 3) == Convergents(16, 27, 3, 5);
    assert Recurrence(e, 4) == Convergents(27, 70, 5, 13);
    assert Recurrence(e, 5) == Convergents(70, 727, 13, 135);
    assert Orbits.WrapIndex(6, 1, 6) == 1;
    assert Recurrence(e, 6) == Convergents(727, 1524, 135, 283);
    assert Orbits.WrapIndex(7, 1, 6) == 2;
  }

  // ---------------------------------------------------------------------
  // sqrt(2) = [1; (2)]

  function Sqrt2Cycle(): seq<Fraction> {
    [Unit(0, 2, 1), Unit(1, 2, 1)]
  }

  function Sqrt2Terms(): seq<int> {
    [1, 2]
  }

  lemma Sqrt2Step(j: nat)
    requires j < 2
    ensures IsQuadratic(Sqrt2Cycle()[j]) && Fractions.Floor(Sqrt2Cycle()[j]) == Sqrt2Terms()[j]
    ensures Next(Sqrt2Cycle()[j]) == Sqrt2Cycle()[1]
  {
    if j == 0 { UnitStep(0, 2, 1, 1, 1, 1); } else { UnitStep(1, 2, 1, 1, 2, 1); }
  }

  lemma Sqrt2Distinct()
    ensures Distinct(Sqrt2Cycle())
  {
  }

  lemma Sqrt2Expansion()
    ensures IsQuadratic(Unit(0, 2, 1))
    ensures IsExpansionOf(Unit(0, 2, 1), Expansion(Sqrt2Terms(), 1))
  {
    var h := Sqrt2Cycle();
    forall j | 0 <= j < 2
      ensures IsQuadratic(h[j]) && Fractions.Floor(h[j]) == Sqrt2Terms()[j] && Next(h[j]) == h[1]
    {
      Sqrt2Step(j);
    }
    Sqrt2Distinct();
    WalkExpansion(h, 1, Sqrt2Terms());
  }

  /** `ContFraction(sqrt(2))`, given at least two steps. */
  lemma Sqrt2ContFraction(fuel: nat, r: Result<ContFraction>)
    requires fuel >= 2 && ConstructOutcome(Arith.Irr(Sqrt(2).value), fuel, r)
    ensures r == Ok(ContFraction(Unit(0, 2, 1), Expansion([1, 2], 1)))
  {
    Sqrt2Expansion();
    ConstructCompletes(Arith.Irr(Sqrt(2).value), fuel, r, Expansion(Sqrt2Terms(), 1));
  }

  // ---------------------------------------------------------------------
  // sqrt(3) = [1; (1, 2)]

  function Sqrt3Cycle(): seq<Fraction> {
    [Unit(0, 3, 1), Unit(1, 3, 2), Unit(1, 3, 1)]
  }

  function Sqrt3Terms(): seq<int> {
    [1, 1, 2]
  }

  lemma Sqrt3Step(j: nat)
    requires j < 3
    ensures IsQuadratic(Sqrt3Cycle()[j]) && Fractions.Floor(Sqrt3Cycle()[j]) == Sqrt3Terms()[j]
    ensures Next(Sqrt3Cycle()[j]) == Sqrt3Cycle()[if j < 2 then j + 1 else 1]
  {
    if j == 0 {
      UnitStep(0, 3, 1, 1, 1, 2);
    } else if j == 1 {
      UnitStep(1, 3, 2, 1, 1, 1);
    } else {
      UnitStep(1, 3, 1, 1, 2, 2);
    }
  }

  lemma Sqrt3Distinct()
    ensures Distinct(Sqrt3Cycle())
  {
  }

  lemma Sqrt3Expansion()
    ensures IsQuadratic(Unit(0, 3, 1))
    ensures IsExpansionOf(Unit(0, 3, 1), Expansion(Sqrt3Terms(), 1))
  {
    var h := Sqrt3Cycle();
    forall j | 0 <= j < 3
      ensures IsQuadratic(h[j]) && Fractions.Floor(h[j]) == Sqrt3Terms()[j]
      ensures Next(h[j]) == h[if j < 2 then j + 1 else 1]
    {
      Sqrt3Step(j);
    }
    Sqrt3Distinct();
    WalkExpansion(h, 1, Sqrt3Terms());
  }

  /** `ContFraction(sqrt(3))`, given at least three steps. */
  lemma Sqrt3ContFraction(fuel: nat, r: Result<ContFraction>)
    requires fuel >= 3 && ConstructOutcome(Arith.Irr(Sqrt(3).value), fuel, r)
    ensures r == Ok(ContFraction(Unit(0, 3, 1), Expansion([1, 1, 2], 1)))
  {
    Sqrt3Expansion();
    ConstructCompletes(Arith.Irr(Sqrt(3).value), fuel, r, Expansion(Sqrt3Terms(), 1));
  }

  // ---------------------------------------------------------------------
  // sqrt(5) = [2; (4)]

  function Sqrt5Cycle(): seq<Fraction> {
    [Unit(0, 5, 1), Unit(2, 5, 1)]
  }

  function Sqrt5Terms(): seq<int> {
    [2, 4]
  }

  lemma Sqrt5Step(j: nat)
    requires j < 2
    ensures IsQuadratic(Sqrt5Cycle()[j]) && Fractions.Floor(Sqrt5Cycle()[j]) == Sqrt5Terms()[j]
    ensures Next(Sqrt5Cycle()[j]) == Sqrt5Cycle()[1]
  {
    if j == 0 { UnitStep(0, 5, 1, 2, 2, 1); } else { UnitStep(2, 5, 1, 2, 4, 1); }
  }

  lemma Sqrt5Distinct()
    ensures Distinct(Sqrt5Cycle())
  {
  }

  lemma Sqrt5Expansion()
    ensures IsQuadratic(Unit(0, 5, 1))
    ensures IsExpansionOf(Unit(0, 5, 1), Expansion(Sqrt5Terms(), 1))
  {
    var h := Sqrt5Cycle();
    forall j | 0 <= j < 2
      ensures IsQuadratic(h[j]) && Fractions.Floor(h[j]) == Sqrt5Terms()[j] && Next(h[j]) == h[1]
    {
      Sqrt5Step(j);
    }
    Sqrt5Distinct();
    WalkExpansion(h, 1, Sqrt5Terms());
  }

  /** `ContFraction(sqrt(5))`, given at least two steps. */
  lemma Sqrt5ContFraction(fuel: nat, r: Result<ContFraction>)
    requires fuel >= 2 && ConstructOutcome(Arith.Irr(Sqrt(5).value), fuel, r)
    ensures r == Ok(ContFraction(Unit(0, 5, 1), Expansion([2, 4], 1)))
  {
    Sqrt5Expansion();
    ConstructCompletes(Arith.Irr(Sqrt(5).value), fuel, r, Expansion(Sqrt5Terms(), 1));
  }

  // ---------------------------------------------------------------------
  // (sqrt(5) + 1) / 2 = [(1)]

  /** The golden ratio as the library's operators build it. */
  function Golden(): Arith.Num {
    Arith.Div(Arith.Add(Arith.Irr(Sqrt(5).value), Arith.Int(1)).value, Arith.Int(2)).value
  }

  lemma GoldenSum()
    ensures Arith.Add(Arith.Irr(Sqrt(5).value), Arith.Int(1)) == Ok(Arith.Irr(Irrational(1, 1, 5)))
  {
  }

  lemma GoldenIs()
    ensures Golden() == Arith.Frac(Unit(1, 5, 2))
  {
    GoldenSum();
    Fractions.CanonicalFormIs(Irrational(1, 1, 5), 2, Unit(1, 5, 2));
  }

  /** The golden ratio is its own next complete quotient: the whole
      expansion is periodic, `((1))`. */
  lemma GoldenExpansion()
    ensures IsQuadratic(Unit(1, 5, 2))
    ensures IsExpansionOf(Unit(1, 5, 2), Expansion([1], 0))
  {
    UnitStep(1, 5, 2, 2, 1, 2);
    ExpansionOfCycle(Unit(1, 5, 2), [Unit(1, 5, 2)], 0, [1]);
  }

  /** `ContFraction((sqrt(5) + 1) / 2)`, given at least one step. */
  lemma GoldenContFraction(fuel: nat, r: Result<ContFraction>)
    requires fuel >= 1 && ConstructOutcome(Golden(), fuel, r)
    ensures r == Ok(ContFraction(Unit(1, 5, 2), Expansion([1], 0)))
  {
    GoldenIs();
    GoldenExpansion();
    ConstructCompletes(Golden(), fuel, r, Expansion([1], 0));
  }

  // ---------------------------------------------------------------------
  // rejected inputs

  /** `ContFraction(sqrt(4))`: the radicand is a perfect square. */
  lemma Sqrt4Rejected(fuel: nat, r: Result<ContFraction>)
    requires ConstructOutcome(Arith.Irr(Sqrt(4).value), fuel, r)
    ensures r == Err(PerfectSquare)
  {
    ISqrtUnique(4, 2);
  }

  /** `ContFraction(Irrational(2, (0, 5)))`: no irrational part. */
  lemma ZeroCoefficientRejected(fuel: nat, r: Result<ContFraction>)
    requires ConstructOutcome(Arith.Irr(Irrational(2, 0, 5)), fuel, r)
    ensures r == Err(ZeroCoefficient)
  {
  }

  /** `ContFraction(5)`: not an irrational number. */
  lemma IntegerRejected(fuel: nat, r: Result<ContFraction>)
    requires ConstructOutcome(Arith.Int(5), fuel, r)
    ensures r == Err(NonIrrational)
  {
  }
}
