/** The renderings the library's examples spell out: irrationals, fractions
    after the constructor's simplification, and the five continued
    fractions. */
module RenderCases {
  import opened NumberTheory
  import opened Irrationals
  import Fractions
  import ContFractions
  import ContFractionCases
  import opened Render

  // ---------------------------------------------------------------------
  // Irrational.__repr__

  lemma ShowSqrt5()
    ensures ShowIrrational(Irrational(0, 1, 5)) == "sqrt(5)"
  {
    ISqrtUnique(5, 2);
    ShowIrrationalForm(Irrational(0, 1, 5));
    SurdPartForm(Irrational(0, 1, 5), false);
  }

  lemma ShowNegSqrt5()
    ensures ShowIrrational(Irrational(0, -1, 5)) == "-sqrt(5)"
  {
    ISqrtUnique(5, 2);
    ShowIrrationalForm(Irrational(0, -1, 5));
    SurdPartForm(Irrational(0, -1, 5), false);
  }

  lemma ShowSqrtMinusOne()
    ensures ShowIrrational(Irrational(-1, 1, 5)) == "-1 + sqrt(5)"
  {
    ISqrtUnique(5, 2);
    ShowIrrationalForm(Irrational(-1, 1, 5));
    SurdPartForm(Irrational(-1, 1, 5), true);
  }

  lemma ShowSqrtPlusOne()
    ensures ShowIrrational(Irrational(1, 1, 5)) == "1 + sqrt(5)"
  {
    ISqrtUnique(5, 2);
    ShowIrrationalForm(Irrational(1, 1, 5));
    SurdPartForm(Irrational(1, 1, 5), true);
  }

  lemma ShowOneMinusSqrt()
    ensures ShowIrrational(Irrational(1, -1, 5)) == "1 - sqrt(5)"
  {
    ISqrtUnique(5, 2);
    ShowIrrationalForm(Irrational(1, -1, 5));
    SurdPartForm(Irrational(1, -1, 5), true);
  }

  lemma ShowNegOneMinusSqrt()
    ensures ShowIrrational(Irrational(-1, -1, 5)) == "-1 - sqrt(5)"
  {
    ISqrtUnique(5, 2);
    ShowIrrationalForm(Irrational(-1, -1, 5));
    SurdPartForm(Irrational(-1, -1, 5), true);
  }

  lemma ShowThreePlusTwoSqrt2()
    ensures ShowIrrational(Irrational(3, 2, 2)) == "3 + 2 * sqrt(2)"
  {
    ISqrtUnique(2, 1);
    ShowIrrationalForm(Irrational(3, 2, 2));
    SurdPartForm(Irrational(3, 2, 2), true);
  }

  lemma ShowNegOneMinusTwoSqrt5()
    ensures ShowIrrational(Irrational(-1, -2, 5)) == "-1 - 2 * sqrt(5)"
  {
    ISqrtUnique(5, 2);
    ShowIrrationalForm(Irrational(-1, -2, 5));
    SurdPartForm(Irrational(-1, -2, 5), true);
  }

  lemma ShowOnePlusTwoSqrt5()
    ensures ShowIrrational(Irrational(1, 2, 5)) == "1 + 2 * sqrt(5)"
  {
    ISqrtUnique(5, 2);
    ShowIrrationalForm(Irrational(1, 2, 5));
    SurdPartForm(Irrational(1, 2, 5), true);
  }

  lemma ShowNegTwoSqrt5()
    ensures ShowIrrational(Irrational(0, -2, 5)) == "-2 * sqrt(5)"
  {
    ISqrtUnique(5, 2);
    ShowIrrationalForm(Irrational(0, -2, 5));
    SurdPartForm(Irrational(0, -2, 5), false);
  }

  /** Integer-valued irrationals render as their value. */
  lemma ShowIntegerIrrationals()
    ensures ShowIrrational(Irrational(-1, 0, 5)) == "-1"
    ensures ShowIrrational(Irrational(1, 2, 0)) == "1"
    ensures ShowIrrational(Irrational(0, 0, 0)) == "0"
    ensures ShowIrrational(Irrational(8, -2, 16)) == "0"
  {
    ISqrtUnique(5, 2);
    ISqrtUnique(16, 4);
  }

  lemma ShowNinePlusThreeSqrt5()
    ensures ShowIrrational(Irrational(9, 3, 5)) == "9 + 3 * sqrt(5)"
  {
    ISqrtUnique(5, 2);
    ShowIrrationalForm(Irrational(9, 3, 5));
    SurdPartForm(Irrational(9, 3, 5), true);
  }

  // ---------------------------------------------------------------------
  // Fraction.__repr__, after the constructor's simplification

  /** A ratio shown canonical by a combination of its parts equal to one. */
  function Canon(num: Irrational, denom: int, x: int, y: int, z: int): Fractions.Fraction
    requires denom > 0 && x * num.realPart + y * num.coeff + z * denom == 1
  {
    Fractions.CanonicalByCombination(Fractions.Ratio(num, denom), x, y, z);
    Fractions.Ratio(num, denom)
  }

  /** `n // g` and `d // g` for a known `g = gcd(n, d)`. */
  lemma ReduceIs(n: int, d: int, g: nat, p: int, q: int)
    requires d > 0 && g == IntGcd(n, d) && n == g * p && d == g * q
    ensures Reduce(n, d) == (p, q)
  {
    assert g != 0;
    DividesIntro(g, n, p);
    DividesIntro(g, d, q);
    DividesElim(g, n);
    DividesElim(g, d);
    MulCancel(g, n / g, p);
    MulCancel(g, d / g, q);
  }

  lemma GcdOfZero(d: nat)
    ensures IntGcd(0, d) == d
  {
    if d > 0 {
      assert 0 % d == 0;
      assert Gcd(0, d) == Gcd(d, 0);
    }
  }

  lemma GoldenRatioSimplified()
    ensures Fractions.MakeFraction(Irrational(1, 1, 5), 2).value == Fractions.Ratio(Irrational(1, 1, 5), 2)
  {
    Fractions.CanonicalFormIs(Irrational(1, 1, 5), 2, Canon(Irrational(1, 1, 5), 2, 1, 0, 0));
  }

  lemma ShowGoldenRatio()
    ensures ShowFraction(Fractions.MakeFraction(Irrational(1, 1, 5), 2).value) == "1 + sqrt(5) / 2"
  {
    GoldenRatioSimplified();
    ISqrtUnique(5, 2);
    ShowSqrtPlusOne();
    ShowOverForm("1 + sqrt(5)", 2);
    assert IntToString(2) == "2";
  }

  lemma ReducedSurdSimplified()
    ensures Fractions.MakeFraction(Irrational(0, -2, 5), 4).value == Fractions.Ratio(Irrational(0, -1, 5), 2)
  {
    Fractions.CanonicalFormIs(Irrational(0, -2, 5), 4, Canon(Irrational(0, -1, 5), 2, 0, -1, 0));
  }

  lemma ShowReducedSurd()
    ensures ShowFraction(Fractions.MakeFraction(Irrational(0, -2, 5), 4).value) == "-sqrt(5) / 2"
  {
    ReducedSurdSimplified();
    ISqrtUnique(5, 2);
    ShowNegSqrt5();
    ShowOverForm("-sqrt(5)", 2);
    assert IntToString(2) == "2";
  }

  lemma NegatedDenominatorSimplified()
    ensures Fractions.MakeFraction(Irrational(0, -1, 100), -10).value == Fractions.Ratio(Irrational(0, 1, 100), 10)
  {
    Fractions.CanonicalFormIs(Irrational(0, -1, 100), -10, Canon(Irrational(0, 1, 100), 10, 0, 1, 0));
  }

  lemma ShowNegatedDenominator()
    ensures ShowFraction(Fractions.MakeFraction(Irrational(0, -1, 100), -10).value) == "1"
  {
    NegatedDenominatorSimplified();
    ISqrtUnique(100, 10);
    assert IntegerValue(Irrational(0, 1, 100)) == 10;
    assert IntGcd(10, 10) == 10;
    ReduceIs(10, 10, 10, 1, 1);
    ShowOverForm(IntToString(1), 1);
    assert IntToString(1) == "1";
  }

  lemma ZeroCoefficientSimplified()
    ensures Fractions.MakeFraction(Irrational(0, 0, 2), 3).value == Fractions.Ratio(Irrational(0, 0, 2), 1)
  {
    Fractions.CanonicalFormIs(Irrational(0, 0, 2), 3, Canon(Irrational(0, 0, 2), 1, 0, 0, 1));
  }

  lemma ShowZeroCoefficientFraction()
    ensures ShowFraction(Fractions.MakeFraction(Irrational(0, 0, 2), 3).value) == "0"
  {
    ZeroCoefficientSimplified();
    assert IntegerValue(Irrational(0, 0, 2)) == 0;
    GcdOfZero(1);
    ReduceIs(0, 1, 1, 0, 1);
    ShowOverForm(IntToString(0), 1);
  }

  lemma ZeroRadicandSimplified()
    ensures Fractions.MakeFraction(Irrational(0, 2, 0), 3).value == Fractions.Ratio(Irrational(0, 2, 0), 3)
  {
    Fractions.CanonicalFormIs(Irrational(0, 2, 0), 3, Canon(Irrational(0, 2, 0), 3, 0, -1, 1));
  }

  lemma ShowZeroRadicandFraction()
    ensures ShowFraction(Fractions.MakeFraction(Irrational(0, 2, 0), 3).value) == "0"
  {
    ZeroRadicandSimplified();
    ShowZeroRadicandRatio();
  }

  lemma ShowZeroRadicandRatio()
    ensures ShowFraction(Canon(Irrational(0, 2, 0), 3, 0, -1, 1)) == "0"
  {
    var f := Canon(Irrational(0, 2, 0), 3, 0, -1, 1);
    assert ISqrt(0) == 0;
    assert IntegerValue(f.num) == 0;
    GcdOfZero(3);
    ReduceIs(0, 3, 3, 0, 1);
    ShowOverForm(IntToString(0), 1);
  }

  lemma IntegerOverDenominatorSimplified()
    ensures Fractions.MakeFraction(Irrational(1, -1, 4), 2).value == Fractions.Ratio(Irrational(1, -1, 4), 2)
  {
    Fractions.CanonicalFormIs(Irrational(1, -1, 4), 2, Canon(Irrational(1, -1, 4), 2, 1, 0, 0));
  }

  lemma ShowIntegerOverDenominator()
    ensures ShowFraction(Fractions.MakeFraction(Irrational(1, -1, 4), 2).value) == "-1 / 2"
  {
    IntegerOverDenominatorSimplified();
    ISqrtUnique(4, 2);
    assert IntegerValue(Irrational(1, -1, 4)) == -1;
    assert IntGcd(-1, 2) == 1;
    ReduceIs(-1, 2, 1, -1, 2);
    ShowOverForm(IntToString(-1), 2);
    assert IntToString(-1) == "-1";
    assert IntToString(2) == "2";
  }

  lemma CancelledToIrrationalSimplified()
    ensures Fractions.MakeFraction(Irrational(2, 2, 5), 2).value == Fractions.Ratio(Irrational(1, 1, 5), 1)
  {
    Fractions.CanonicalFormIs(Irrational(2, 2, 5), 2, Canon(Irrational(1, 1, 5), 1, 0, 0, 1));
  }

  lemma ShowCancelledToIrrational()
    ensures ShowFraction(Fractions.MakeFraction(Irrational(2, 2, 5), 2).value) == "1 + sqrt(5)"
  {
    CancelledToIrrationalSimplified();
    ISqrtUnique(5, 2);
    ShowSqrtPlusOne();
    ShowOverForm("1 + sqrt(5)", 1);
  }

  lemma CancelledByFiveSimplified()
    ensures Fractions.MakeFraction(Irrational(45, 15, 5), 50).value == Fractions.Ratio(Irrational(9, 3, 5), 10)
  {
    Fractions.CanonicalFormIs(Irrational(45, 15, 5), 50, Canon(Irrational(9, 3, 5), 10, -1, 0, 1));
  }

  lemma ShowCancelledByFive()
    ensures ShowFraction(Fractions.MakeFraction(Irrational(45, 15, 5), 50).value) == "9 + 3 * sqrt(5) / 10"
  {
    CancelledByFiveSimplified();
    ISqrtUnique(5, 2);
    ShowNinePlusThreeSqrt5();
    ShowOverForm("9 + 3 * sqrt(5)", 10);
    assert IntToString(10) == "10";
  }

  // ---------------------------------------------------------------------
  // ContFraction.__repr__

  lemma ShowSqrt2Expansion()
    ensures ShowExpansion(ContFractions.Expansion(ContFractionCases.Sqrt2Terms(), 1)) == "(1, (2))"
  {
    var t := ContFractionCases.Sqrt2Terms();
    assert t[..1] == [1] && t[1..] == [2];
    assert Numerals([1]) == ["1"] && Numerals([2]) == ["2"] by {
      assert [1][..0] == [] && [2][..0] == [];
    }
  }

  lemma ShowSqrt3Expansion()
    ensures ShowExpansion(ContFractions.Expansion(ContFractionCases.Sqrt3Terms(), 1)) == "(1, (1, 2))"
  {
    var t := ContFractionCases.Sqrt3Terms();
    assert t[..1] == [1] && t[1..] == [1, 2];
    assert Numerals([1]) == ["1"] by {
      assert [1][..0] == [];
    }
    JoinOfSqrt3Period();
  }

  lemma JoinOfSqrt3Period()
    ensures Join(Numerals([1, 2]), ", ") == "1, 2"
  {
    assert [1, 2][..1] == [1] && [1][..0] == [];
    assert Numerals([1, 2]) == ["1", "2"];
    JoinSnoc(["1"], "2", ", ");
    assert ["1"] + ["2"] == ["1", "2"];
  }

  lemma ShowSqrt5Expansion()
    ensures ShowExpansion(ContFractions.Expansion(ContFractionCases.Sqrt5Terms(), 1)) == "(2, (4))"
  {
    var t := ContFractionCases.Sqrt5Terms();
    assert t[..1] == [2] && t[1..] == [4];
    assert Numerals([2]) == ["2"] && Numerals([4]) == ["4"] by {
      assert [2][..0] == [] && [4][..0] == [];
    }
  }

  lemma NumeralsOfSqrt29Period()
    ensures Numerals([2, 1, 1, 2, 10]) == ["2", "1", "1", "2", "10"]
  {
    assert [2, 1, 1, 2, 10][..4] == [2, 1, 1, 2];
    assert [2, 1, 1, 2][..3] == [2, 1, 1];
    assert [2, 1, 1][..2] == [2, 1];
    assert [2, 1][..1] == [2];
    assert [2][..0] == [];
    assert IntToString(10) == "10";
  }

  lemma JoinOfSqrt29Period()
    ensures Join(["2", "1", "1", "2", "10"], ", ") == "2, 1, 1, 2, 10"
  {
    JoinSnoc(["2", "1", "1", "2"], "10", ", ");
    JoinSnoc(["2", "1", "1"], "2", ", ");
    JoinSnoc(["2", "1"], "1", ", ");
    JoinSnoc(["2"], "1", ", ");
    assert ["2", "1", "1", "2"] + ["10"] == ["2", "1", "1", "2", "10"];
    assert ["2", "1", "1"] + ["2"] == ["2", "1", "1", "2"];
    assert ["2", "1"] + ["1"] == ["2", "1", "1"];
    assert ["2"] + ["1"] == ["2", "1"];
  }

  lemma ShowSqrt29Expansion()
    ensures ShowExpansion(ContFractions.Expansion(ContFractionCases.Sqrt29Terms(), 1)) == "(5, (2, 1, 1, 2, 10))"
  {
    var t := ContFractionCases.Sqrt29Terms();
    assert t[..1] == [5];
    assert t[1..] == [2, 1, 1, 2, 10];
    assert Numerals([5]) == ["5"] by {
      assert [5][..0] == [];
    }
    NumeralsOfSqrt29Period();
    JoinOfSqrt29Period();
  }

  lemma ShowGoldenExpansion()
    ensures ShowExpansion(ContFractions.Expansion([1], 0)) == "((1))"
  {
    assert [1][..0] == [] && [1][0..] == [1];
    assert Numerals([1]) == ["1"] by {
      assert [1][..0] == [];
    }
  }
}
