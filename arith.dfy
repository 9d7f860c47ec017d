/** The operators as the library dispatches them on the run-time type of
    their operands: a plain integer, an `Irrational` or a `Fraction`. The
    reflected operators (`__radd__`, `__rmul__`, `__rsub__`, `__rtruediv__`)
    are the rows whose left operand is an integer. */
module Arith {
  import opened NumberTheory
  import opened Irrationals
  import Fractions

  datatype Num = Int(i: int) | Irr(x: Irrational) | Frac(f: Fractions.Fraction)

  /** The result type grows from integer to irrational to fraction. */
  function Rank(a: Num): nat {
    match a
    case Int(_) => 0
    case Irr(_) => 1
    case Frac(_) => 2
  }

  function Radicand(a: Num): nat
    requires !a.Int?
  {
    if a.Irr? then a.x.rad else a.f.num.rad
  }

  /** The numerator of an irrational or fractional operand. */
  function Numerator(a: Num): Irrational
    requires !a.Int?
  {
    if a.Irr? then a.x else a.f.num
  }

  /** Two operands can be combined: at most one carries a radicand, or both carry the same one. */
  predicate Compatible(a: Num, b: Num) {
    a.Int? || b.Int? || Radicand(a) == Radicand(b)
  }

  /** The radicand of a mixed operation's result. */
  function SharedRadicand(a: Num, b: Num): nat
    requires !(a.Int? && b.Int?)
  {
    if a.Int? then Radicand(b) else Radicand(a)
  }

  function Max(m: nat, n: nat): nat {
    if m < n then n else m
  }

  function LiftIrr(r: Result<Irrational>): Result<Num> {
    if r.Err? then Err(r.error) else Ok(Irr(r.value))
  }

  function LiftFrac(r: Result<Fractions.Fraction>): Result<Num> {
    if r.Err? then Err(r.error) else Ok(Frac(r.value))
  }

  /** An operand as a fraction over radicand `rad` (used for the divisions). */
  function ToFraction(a: Num, rad: nat): (q: Fractions.Fraction)
    requires !a.Int? ==> Radicand(a) == rad
    ensures q.num.rad == rad
    ensures if a.Int? then q.num == Irrational(a.i, 0, rad) && q.denom == 1 else q.num == Numerator(a)
  {
    match a
    case Int(n) => Fractions.Promote(Irrational(n, 0, rad))
    case Irr(x) => Fractions.Promote(x)
    case Frac(f) => f
  }

  /** The value of an operand at a chosen square root of its radicand. */
  function NumValue(a: Num, root: real): real {
    match a
    case Int(n) => n as real
    case Irr(x) => Irrationals.Value(x, root)
    case Frac(f) => Fractions.Value(f, root)
  }

  // ---------------------------------------------------------------------
  // The operators

  /** Unary minus: `(-1) * x` for both classes. */
  function Neg(a: Num): (r: Num)
    ensures Rank(r) == Rank(a)
    ensures !a.Int? ==> Radicand(r) == Radicand(a)
  {
    match a
    case Int(n) => Int(-n)
    case Irr(x) => Irr(Irrationals.Neg(x))
    case Frac(f) => Frac(Fractions.Neg(f))
  }

  /** `a + b`. An `Irrational` hands a `Fraction` operand to `Fraction.__add__`,
      which promotes the irrational to a fraction over one. */
  function Add(a: Num, b: Num): (r: Result<Num>)
    ensures r.Err? <==> !Compatible(a, b)
    ensures r.Err? ==> r.error == DifferentIrrationalPart
    ensures r.Ok? ==> Rank(r.value) == Max(Rank(a), Rank(b))
    ensures r.Ok? && !(a.Int? && b.Int?) ==> !r.value.Int? && Radicand(r.value) == SharedRadicand(a, b)
  {
    match (a, b)
    case (Int(m), Int(n)) => Ok(Int(m + n))
    case (Int(m), Irr(y)) => Ok(Irr(Irrationals.AddInt(y, m)))
    case (Int(m), Frac(g)) => Ok(Frac(Fractions.AddInt(g, m)))
    case (Irr(x), Int(n)) => Ok(Irr(Irrationals.AddInt(x, n)))
    case (Irr(x), Irr(y)) => LiftIrr(Irrationals.Add(x, y))
    case (Irr(x), Frac(g)) => LiftFrac(Fractions.Add(g, Fractions.Promote(x)))
    case (Frac(f), Int(n)) => Ok(Frac(Fractions.AddInt(f, n)))
    case (Frac(f), Irr(y)) => LiftFrac(Fractions.Add(f, Fractions.Promote(y)))
    case (Frac(f), Frac(g)) => LiftFrac(Fractions.Add(f, g))
  }

  /** `a - b`: `a + -b`, except that an integer on the left uses the
      reflected `__rsub__`, `-(b - a)`. */
  function Sub(a: Num, b: Num): (r: Result<Num>)
    ensures r.Err? <==> !Compatible(a, b)
    ensures r.Err? ==> r.error == DifferentIrrationalPart
    ensures r.Ok? ==> Rank(r.value) == Max(Rank(a), Rank(b))
    ensures r.Ok? && !(a.Int? && b.Int?) ==> !r.value.Int? && Radicand(r.value) == SharedRadicand(a, b)
  {
    match (a, b)
    case (Int(m), Int(n)) => Ok(Int(m - n))
    case (Int(m), _) =>
      var d := Add(b, Int(-m));
      if d.Err? then d else Ok(Neg(d.value))
    case (_, _) => Add(a, Neg(b))
  }

  /** `a * b`, dispatched like addition. */
  function Mul(a: Num, b: Num): (r: Result<Num>)
    ensures r.Err? <==> !Compatible(a, b)
    ensures r.Err? ==> r.error == DifferentIrrationalPart
    ensures r.Ok? ==> Rank(r.value) == Max(Rank(a), Rank(b))
    ensures r.Ok? && !(a.Int? && b.Int?) ==> !r.value.Int? && Radicand(r.value) == SharedRadicand(a, b)
  {
    match (a, b)
    case (Int(m), Int(n)) => Ok(Int(m * n))
    case (Int(m), Irr(y)) => Ok(Irr(Irrationals.MulInt(y, m)))
    case (Int(m), Frac(g)) => Ok(Frac(Fractions.MulInt(g, m)))
    case (Irr(x), Int(n)) => Ok(Irr(Irrationals.MulInt(x, n)))
    case (Irr(x), Irr(y)) => LiftIrr(Irrationals.Mul(x, y))
    case (Irr(x), Frac(g)) => LiftFrac(Fractions.Mul(g, Fractions.Promote(x)))
    case (Frac(f), Int(n)) => Ok(Frac(Fractions.MulInt(f, n)))
    case (Frac(f), Irr(y)) => LiftFrac(Fractions.Mul(f, Fractions.Promote(y)))
    case (Frac(f), Frac(g)) => LiftFrac(Fractions.Mul(f, g))
  }

  /** The divisor is zero: a zero integer, or a numerator whose norm vanishes,
      so that its inversion by the conjugate has a zero denominator. */
  predicate ZeroDivisor(b: Num) {
    if b.Int? then b.i == 0 else Norm(Numerator(b)) == 0
  }

  /** `a / b` as the library evidently intends it: the dividend, as a fraction,
      times the inverted divisor. It agrees with `DivAsWritten` except where
      that one inverts the dividend (see `DivAsWritten`). Division of two
      plain integers is Python's float division and is not part of the library. */
  function Div(a: Num, b: Num): (r: Result<Num>)
    requires !(a.Int? && b.Int?)
    ensures r.Err? <==> ZeroDivisor(b) || !Compatible(a, b)
    ensures r.Err? ==> r.error == if ZeroDivisor(b) then ZeroDivision else DifferentIrrationalPart
    ensures r.Ok? ==> r.value.Frac? && Radicand(r.value) == SharedRadicand(a, b)
  {
    match b
    case Int(n) =>
      if a.Irr? then LiftFrac(Fractions.MakeFraction(a.x, n)) else LiftFrac(Fractions.DivInt(a.f, n))
    case _ => LiftFrac(Fractions.Div(ToFraction(a, SharedRadicand(a, b)), ToFraction(b, Radicand(b))))
  }

  function FlipResult(r: Result<Fractions.Fraction>): Result<Fractions.Fraction> {
    if r.Err? then r else Fractions.Flip(r.value)
  }

  /** `a / b` exactly as written. An `Irrational` divided by a `Fraction`
      evaluates `flip(f / x)`, and an integer `n` on the left of `/` evaluates
      `flip(b / n)`: both invert the dividend, so a zero dividend raises
      ZeroDivisionError. */
  function DivAsWritten(a: Num, b: Num): (r: Result<Num>)
    requires !(a.Int? && b.Int?)
    ensures r.Ok? ==> r.value.Frac? && Radicand(r.value) == SharedRadicand(a, b)
  {
    match (a, b)
    case (Int(m), Irr(y)) => LiftFrac(FlipResult(Fractions.MakeFraction(y, m)))
    case (Int(m), Frac(g)) => LiftFrac(FlipResult(Fractions.DivInt(g, m)))
    case (Irr(x), Int(n)) => LiftFrac(Fractions.MakeFraction(x, n))
    case (Irr(x), Irr(y)) => LiftFrac(Fractions.Div(Fractions.Promote(x), Fractions.Promote(y)))
    case (Irr(x), Frac(g)) => LiftFrac(FlipResult(Fractions.Div(g, Fractions.Promote(x))))
    case (Frac(f), Int(n)) => LiftFrac(Fractions.DivInt(f, n))
    case (Frac(f), Irr(y)) => LiftFrac(Fractions.Div(f, Fractions.Promote(y)))
    case (Frac(f), Frac(g)) => LiftFrac(Fractions.Div(f, g))
  }

  // ---------------------------------------------------------------------
  // What the operators mean

  lemma ToFractionValue(a: Num, rad: nat, root: real)
    requires !a.Int? ==> Radicand(a) == rad
    ensures Fractions.Value(ToFraction(a, rad), root) == NumValue(a, root)
  {
    if !a.Frac? {
      Fractions.PromoteValue(ToFraction(a, rad).num, root);
    }
  }

  /** Negation negates the value. */
  lemma NegValue(a: Num, root: real)
    ensures NumValue(Neg(a), root) == -NumValue(a, root)
  {
    match a
    case Int(_) =>
    case Irr(x) => Irrationals.MulIntValue(x, -1, root);
    case Frac(f) => Fractions.MulIntValue(f, -1, root);
  }

  /** Addition adds values, for every pairing of operand types. */
  lemma AddValue(a: Num, b: Num, root: real)
    requires Compatible(a, b)
    ensures NumValue(Add(a, b).value, root) == NumValue(a, root) + NumValue(b, root)
  {
    match (a, b)
    case (Int(m), Int(n)) =>
    case (Int(m), Irr(y)) => Irrationals.AddIntValue(y, m, root);
    case (Int(m), Frac(g)) => Fractions.AddIntValue(g, m, root);
    case (Irr(x), Int(n)) => Irrationals.AddIntValue(x, n, root);
    case (Irr(x), Irr(y)) => Irrationals.AddValue(x, y, root);
    case (Irr(x), Frac(g)) => PromotedAddValue(g, x, root);
    case (Frac(f), Int(n)) => Fractions.AddIntValue(f, n, root);
    case (Frac(f), Irr(y)) => PromotedAddValue(f, y, root);
    case (Frac(f), Frac(g)) => Fractions.AddValue(f, g, root);
  }

  /** Subtraction subtracts values, the reflected form included. */
  lemma SubValue(a: Num, b: Num, root: real)
    requires Compatible(a, b)
    ensures NumValue(Sub(a, b).value, root) == NumValue(a, root) - NumValue(b, root)
  {
    match (a, b)
    case (Int(m), Int(n)) =>
    case (Int(m), _) =>
      AddValue(b, Int(-m), root);
      NegValue(Add(b, Int(-m)).value, root);
    case (_, _) =>
      NegValue(b, root);
      AddValue(a, Neg(b), root);
  }

  /** Multiplication multiplies values at any square root of the shared radicand. */
  lemma MulValue(a: Num, b: Num, root: real)
    requires Compatible(a, b)
    requires !(a.Int? && b.Int?) ==> root * root == SharedRadicand(a, b) as real
    ensures NumValue(Mul(a, b).value, root) == NumValue(a, root) * NumValue(b, root)
  {
    if a.Int? {
      MulIntOperandValue(a.i, b, root);
    } else if b.Int? {
      MulIntOperandValue(b.i, a, root);
      MulSwapsInt(a, b.i);
    } else {
      MulSurdsValue(a, b, root);
    }
  }

  /** An integer on the left of `*`, the case the reflected `__rmul__` serves. */
  lemma MulIntOperandValue(m: int, b: Num, root: real)
    requires !b.Int? ==> root * root == Radicand(b) as real
    ensures NumValue(Mul(Int(m), b).value, root) == m as real * NumValue(b, root)
  {
    match b
    case Int(n) => Fractions.IntToRealMul(m, n);
    case Irr(y) => Irrationals.MulIntValue(y, m, root);
    case Frac(g) => Fractions.MulIntValue(g, m, root);
  }

  /** `__rmul__` hands the integer to `__mul__`, so the order does not matter. */
  lemma MulSwapsInt(a: Num, n: int)
    ensures Mul(a, Int(n)) == Mul(Int(n), a)
  {
  }

  /** Both operands carry a radicand. */
  lemma MulSurdsValue(a: Num, b: Num, root: real)
    requires !a.Int? && !b.Int? && Radicand(a) == Radicand(b)
    requires root * root == Radicand(a) as real
    ensures NumValue(Mul(a, b).value, root) == NumValue(a, root) * NumValue(b, root)
  {
    if a.Irr? && b.Irr? {
      Irrationals.MulValue(a.x, b.x, root);
    } else if a.Frac? && b.Frac? {
      Fractions.MulValue(a.f, b.f, root);
    } else {
      MulMixedValue(a, b, root);
    }
  }

  /** An irrational and a fraction, in either order. */
  lemma MulMixedValue(a: Num, b: Num, root: real)
    requires (a.Irr? && b.Frac?) || (a.Frac? && b.Irr?)
    requires Radicand(a) == Radicand(b) && root * root == Radicand(a) as real
    ensures NumValue(Mul(a, b).value, root) == NumValue(a, root) * NumValue(b, root)
  {
    if a.Irr? {
      PromotedMulValue(b.f, a.x, root);
    } else {
      PromotedMulValue(a.f, b.x, root);
    }
  }

  /** A fraction times an irrational promoted to a fraction over one. */
  lemma PromotedMulValue(f: Fractions.Fraction, x: Irrational, root: real)
    requires f.num.rad == x.rad && root * root == x.rad as real
    ensures Fractions.Mul(f, Fractions.Promote(x)).Ok?
    ensures Fractions.Value(Fractions.Mul(f, Fractions.Promote(x)).value, root)
         == Fractions.Value(f, root) * Irrationals.Value(x, root)
  {
    Fractions.MulValue(f, Fractions.Promote(x), root);
    Fractions.PromoteValue(x, root);
  }

  /** A fraction plus an irrational promoted to a fraction over one. */
  lemma PromotedAddValue(f: Fractions.Fraction, x: Irrational, root: real)
    requires f.num.rad == x.rad
    ensures Fractions.Add(f, Fractions.Promote(x)).Ok?
    ensures Fractions.Value(Fractions.Add(f, Fractions.Promote(x)).value, root)
         == Fractions.Value(f, root) + Irrationals.Value(x, root)
  {
    Fractions.AddValue(f, Fractions.Promote(x), root);
    Fractions.PromoteValue(x, root);
  }

  /** A successful division multiplies back to the dividend. */
  lemma DivValue(a: Num, b: Num, root: real)
    requires !(a.Int? && b.Int?) && Div(a, b).Ok?
    requires root * root == SharedRadicand(a, b) as real
    ensures NumValue(Div(a, b).value, root) * NumValue(b, root) == NumValue(a, root)
  {
    if b.Int? {
      DivByIntValue(a, b.i, root);
    } else {
      DivBySurdValue(a, b, root);
    }
  }

  lemma DivByIntValue(a: Num, n: int, root: real)
    requires !a.Int? && n != 0
    ensures Div(a, Int(n)).Ok?
    ensures NumValue(Div(a, Int(n)).value, root) * n as real == NumValue(a, root)
  {
    if a.Irr? {
      DivIrrByIntValue(a, n, root);
    } else {
      DivFracByIntValue(a, n, root);
    }
  }

  /** `Irrational.__truediv__` by an integer builds `Fraction(x, n)`. */
  lemma DivIrrByIntValue(a: Num, n: int, root: real)
    requires a.Irr? && n != 0
    ensures Div(a, Int(n)).Ok?
    ensures NumValue(Div(a, Int(n)).value, root) * n as real == NumValue(a, root)
  {
    var r := Fractions.MakeFraction(a.x, n).value;
    assert Div(a, Int(n)) == Ok(Frac(r));
    Fractions.MakeFractionValue(a.x, n, root);
  }

  /** `Fraction.__truediv__` by an integer multiplies the denominator. */
  lemma DivFracByIntValue(a: Num, n: int, root: real)
    requires a.Frac? && n != 0
    ensures Div(a, Int(n)).Ok?
    ensures NumValue(Div(a, Int(n)).value, root) * n as real == NumValue(a, root)
  {
    var r := Fractions.DivInt(a.f, n).value;
    assert Div(a, Int(n)) == Ok(Frac(r));
    Fractions.DivIntValue(a.f, n, root);
  }

  /** A divisor with a radicand: the dividend, as a fraction, times the flipped divisor. */
  lemma DivBySurdValue(a: Num, b: Num, root: real)
    requires !b.Int? && Compatible(a, b) && !ZeroDivisor(b)
    requires root * root == Radicand(b) as real
    ensures Div(a, b).Ok?
    ensures NumValue(Div(a, b).value, root) * NumValue(b, root) == NumValue(a, root)
  {
    var p, q, r := DivBySurdShape(a, b);
    Fractions.DivValue(p, q, root);
    ToFractionValue(a, Radicand(b), root);
    ToFractionValue(b, Radicand(b), root);
    ProductOfEquals(Fractions.Value(r, root), Fractions.Value(q, root), Fractions.Value(p, root),
                    NumValue(Frac(r), root), NumValue(b, root), NumValue(a, root));
  }

  /** Division by an irrational or a fraction is fraction division of the
      promoted operands. */
  lemma DivBySurdShape(a: Num, b: Num) returns (p: Fractions.Fraction, q: Fractions.Fraction, r: Fractions.Fraction)
    requires !b.Int? && Compatible(a, b) && !ZeroDivisor(b)
    ensures p == ToFraction(a, Radicand(b)) && q == ToFraction(b, Radicand(b))
    ensures p.num.rad == q.num.rad && Norm(q.num) != 0
    ensures Fractions.Div(p, q) == Ok(r) && Div(a, b) == Ok(Frac(r))
  {
    p, q := ToFraction(a, Radicand(b)), ToFraction(b, Radicand(b));
    assert q.num == Numerator(b);
    r := Fractions.Div(p, q).value;
  }

  // ---------------------------------------------------------------------
  // Division as written against division as intended

  /** The rows of `DivAsWritten` that compute `flip(b / a)` instead of `a / b`. */
  predicate InvertsDividend(a: Num, b: Num) {
    (a.Int? && !b.Int?) || (a.Irr? && b.Frac?)
  }

  /** As written, a zero dividend in an inverting row raises ZeroDivisionError,
      whatever the divisor. */
  lemma DivAsWrittenZeroDividend(a: Num, b: Num)
    requires InvertsDividend(a, b) && ZeroDivisor(a)
    ensures DivAsWritten(a, b) == Err(ZeroDivision)
  {
    if a.Irr? {
      assert Fractions.Promote(a.x).num == a.x;
    }
  }

  /** Outside the inverting rows the two divisions are the same function. */
  lemma DivAsWrittenAgrees(a: Num, b: Num)
    requires !(a.Int? && b.Int?) && !InvertsDividend(a, b)
    ensures DivAsWritten(a, b) == Div(a, b)
  {
  }

  /** In every inverting row with a nonzero dividend and agreeing radicands,
      `flip(b / a)` is `a / b` after all: the same canonical fraction, or the
      same ZeroDivisionError for a zero divisor. */
  lemma DivAsWrittenInverts(a: Num, b: Num)
    requires InvertsDividend(a, b) && !ZeroDivisor(a) && Compatible(a, b)
    ensures DivAsWritten(a, b) == Div(a, b)
  {
    match (a, b)
    case (Int(m), Irr(y)) => IntOverSurdAsWritten(m, y, 1, Fractions.MakeFraction(y, m).value, Irr(y));
    case (Int(m), Frac(g)) =>
      Fractions.NonzeroProduct(g.denom, m);
      IntOverSurdAsWritten(m, g.num, g.denom, Fractions.DivInt(g, m).value, Frac(g));
    case (Irr(x), Frac(g)) => IrrOverFracAsWritten(x, g);
  }

  /** `m / b` for a divisor `b` denoting `y / e`: as written, the library
      inverts `f`, the fraction that `b / m` denotes. */
  lemma IntOverSurdAsWritten(m: int, y: Irrational, e: int, f: Fractions.Fraction, b: Num)
    requires m != 0 && e > 0 && !b.Int? && Numerator(b) == y
    requires b.Irr? ==> e == 1
    requires b.Frac? ==> e == b.f.denom
    requires Fractions.SameRatio(y, e * m, f.num, f.denom)
    ensures LiftFrac(FlipResult(Ok(f))) == Div(Int(m), b)
  {
    var rad := y.rad;
    var q := ToFraction(b, rad);
    assert q.num == y && q.denom == e;
    Fractions.NonzeroProduct(e, m);
    Fractions.FlipOfRatio(y, e * m, f);
    Fractions.FlipOfRatio(y, e, q);
    if Norm(y) != 0 {
      var r1 := Fractions.Flip(f).value;
      var h := Fractions.Flip(q).value;
      var p := ToFraction(Int(m), rad);
      var r2 := Fractions.Mul(p, h).value;
      var c := Irrationals.MulInt(Conj(y), e);
      var c1 := Irrationals.MulInt(Conj(y), e * m);
      Fractions.MulOfRatio(p.num, c, Norm(y), h);
      assert p.num == Irrational(m, 0, rad);
      Rearrange(m, 1, y.realPart, e);
      Rearrange(m, 1, -y.coeff, e);
      assert Irrationals.Mul(p.num, c).value == c1;
      assert Fractions.SameRatio(Irrationals.Mul(p.num, h.num).value, 1 * h.denom, r2.num, r2.denom);
      Fractions.SameRatioSymmetric(c1, Norm(y), r1.num, r1.denom);
      Fractions.SameRatioSymmetric(Irrationals.Mul(p.num, h.num).value, 1 * h.denom, c1, Norm(y));
      Fractions.SameRatioTrans(r1.num, r1.denom, c1, Norm(y), Irrationals.Mul(p.num, h.num).value, 1 * h.denom);
      Fractions.SameRatioTrans(r1.num, r1.denom, Irrationals.Mul(p.num, h.num).value, 1 * h.denom, r2.num, r2.denom);
      Fractions.CanonicalUnique(r1, r2);
    }
  }

  /** `x / g` for an irrational `x` and a fraction `g`: as written, the
      library inverts `f`, the fraction `g / x`. */
  lemma IrrOverFracAsWritten(x: Irrational, g: Fractions.Fraction)
    requires Norm(x) != 0 && x.rad == g.num.rad
    ensures DivAsWritten(Irr(x), Frac(g)) == Div(Irr(x), Frac(g))
  {
    var px := Fractions.Promote(x);
    var cx := Irrationals.MulInt(Conj(x), 1);
    var h := Fractions.Flip(px).value;
    var prod := Irrationals.Mul(g.num, h.num).value;
    var f := Fractions.Mul(g, h).value;
    assert Norm(cx) == Norm(x);
    Fractions.FlipOfRatio(cx, Norm(x), h);
    NormMul(g.num, h.num);
    Fractions.NonzeroProduct(g.denom, h.denom);
    Fractions.FlipOfRatio(prod, g.denom * h.denom, f);
    if Norm(g.num) == 0 {
      assert Norm(prod) == 0;
    } else {
      Fractions.NonzeroProduct(Norm(g.num), Norm(h.num));
      var r1 := Fractions.Flip(f).value;
      var cg := Irrationals.MulInt(Conj(g.num), g.denom);
      var h2 := Fractions.Flip(g).value;
      var r2 := Fractions.Mul(px, h2).value;
      var n1 := Irrationals.MulInt(Conj(prod), g.denom * h.denom);
      var n2 := Irrationals.Mul(x, cg).value;
      var n3 := Irrationals.Mul(x, h2.num).value;
      IrrOverFracCross(x, g, h);
      Fractions.MulOfRatio(x, cg, Norm(g.num), h2);
      Fractions.SameRatioSymmetric(n3, 1 * h2.denom, n2, Norm(g.num));
      Fractions.SameRatioSymmetric(n1, Norm(prod), r1.num, r1.denom);
      Fractions.SameRatioTrans(r1.num, r1.denom, n1, Norm(prod), n2, Norm(g.num));
      Fractions.SameRatioTrans(r1.num, r1.denom, n2, Norm(g.num), n3, 1 * h2.denom);
      Fractions.SameRatioTrans(r1.num, r1.denom, n3, 1 * h2.denom, r2.num, r2.denom);
      Fractions.CanonicalUnique(r1, r2);
    }
  }

  /** The norm is multiplicative. */
  lemma NormMul(x: Irrational, y: Irrational)
    requires x.rad == y.rad
    ensures Norm(Irrationals.Mul(x, y).value) == Norm(x) * Norm(y)
  {
    NormOfProduct(x.realPart, x.coeff, y.realPart, y.coeff, x.rad);
  }

  /** `(a + b√d)(c + e√d)` has norm `(a² - b²d)(c² - e²d)`, in integers. */
  lemma NormOfProduct(a: int, b: int, c: int, e: int, d: int)
    ensures (a * c + b * e * d) * (a * c + b * e * d) - (a * e + b * c) * (a * e + b * c) * d
         == (a * a - b * b * d) * (c * c - e * e * d)
  {
    var s, t, u, w := a * c, b * e * d, a * e, b * c;
    SquareOfSum(s, t);
    ScaledSquareOfSum(u, w, d);
    Rearrange(a, c, b * e * d, 1);
    assert s * t == u * w * d;
    Rearrange(a, c, a, c);
    SquareOfTriple(b, e, d);
    SquareScaled(a, e, d);
    SquareScaled(b, c, d);
    ProductOfDifferences(a * a, b * b * d, c * c, e * e * d);
  }

  lemma Rearrange(p: int, q: int, r: int, k: int)
    ensures (p * q) * (r * k) == (p * r) * (q * k)
  {
  }

  lemma SquareOfSum(s: int, t: int)
    ensures (s + t) * (s + t) == s * s + 2 * (s * t) + t * t
  {
  }

  lemma ScaledSquareOfSum(u: int, w: int, d: int)
    ensures (u + w) * (u + w) * d == u * u * d + 2 * (u * w * d) + w * w * d
  {
    SquareOfSum(u, w);
  }

  lemma SquareOfTriple(b: int, e: int, d: int)
    ensures (b * e * d) * (b * e * d) == (b * b * d) * (e * e * d)
  {
    Rearrange(b * e, d, b * e, d);
    Rearrange(b, e, b, e);
    Rearrange(b * b, e * e, d, d);
  }

  lemma SquareScaled(a: int, e: int, d: int)
    ensures (a * e) * (a * e) * d == (a * a) * (e * e * d)
  {
    Rearrange(a, e, a, e);
  }

  lemma ProductOfDifferences(p: int, q: int, r: int, k: int)
    ensures (p - q) * (r - k) == p * r + q * k - p * k - q * r
  {
  }

  /** `conj(g * h) * (gd * hd) / norm(g * h)` and `x * conj(g) * gd / norm(g)`
      are the same ratio when `h / hd` is the inverse `conj(x) / norm(x)` of `x`. */
  lemma IrrOverFracCross(x: Irrational, g: Fractions.Fraction, h: Fractions.Fraction)
    requires Norm(x) != 0 && x.rad == g.num.rad == h.num.rad
    requires Fractions.SameRatio(Irrationals.MulInt(Conj(x), 1), Norm(x), h.num, h.denom)
    ensures var prod := Irrationals.Mul(g.num, h.num).value;
      Fractions.SameRatio(Irrationals.MulInt(Conj(prod), g.denom * h.denom), Norm(prod),
                          Irrationals.Mul(x, Irrationals.MulInt(Conj(g.num), g.denom)).value, Norm(g.num))
  {
    var a, b, d, n := x.realPart, x.coeff, x.rad, Norm(x);
    var p, q, hd := h.num.realPart, h.num.coeff, h.denom;
    var u, v, e := g.num.realPart, g.num.coeff, g.denom;
    var prod := Irrationals.Mul(g.num, h.num).value;
    var n1 := Irrationals.MulInt(Conj(prod), e * hd);
    var n2 := Irrationals.Mul(x, Irrationals.MulInt(Conj(g.num), e)).value;
    var gn, hn := Norm(g.num), Norm(h.num);
    assert p * n == a * hd && q * n == -b * hd;
    Fractions.NormScale(a, b, d, hd, n, p, q);
    MulCancel(n, n * hn, hd * hd);
    NormMul(g.num, h.num);
    assert Norm(prod) == gn * hn;
    assert prod.realPart == u * p + v * q * d && -prod.coeff == -(u * q + v * p);
    InverseProductParts(n, a, b, d, p, q, hd, u, v);
    ConjugateProductParts(a, b, u, v, d, e);
    assert n1.realPart == prod.realPart * (e * hd) && n1.coeff == (-prod.coeff) * (e * hd);
    assert n2.realPart == (a * u - b * v * d) * e && n2.coeff == (-(a * v - b * u)) * e;
    QuotientCross(n, prod.realPart, a * u - b * v * d, e, hd, gn, hn);
    QuotientCross(n, -prod.coeff, -(a * v - b * u), e, hd, gn, hn);
  }

  /** The parts of `g * h` times `n` when `h * n == conj(x) * hd`. */
  lemma InverseProductParts(n: int, a: int, b: int, d: int, p: int, q: int, hd: int, u: int, v: int)
    requires p * n == a * hd && q * n == -b * hd
    ensures n * (u * p + v * q * d) == hd * (a * u - b * v * d)
    ensures n * -(u * q + v * p) == hd * -(a * v - b * u)
  {
    calc {
      n * (u * p + v * q * d);
      u * (p * n) + v * d * (q * n);
      u * (a * hd) + v * d * (-b * hd);
      hd * (a * u - b * v * d);
    }
    calc {
      n * (u * q + v * p);
      u * (q * n) + v * (p * n);
      u * (-b * hd) + v * (a * hd);
      hd * (a * v - b * u);
    }
  }

  /** The parts of `x * (conj(g) * e)`. */
  lemma ConjugateProductParts(a: int, b: int, u: int, v: int, d: int, e: int)
    ensures a * (u * e) + b * (-v * e) * d == (a * u - b * v * d) * e
    ensures a * (-v * e) + b * (u * e) == (-(a * v - b * u)) * e
  {
  }

  /** Cancelling the common factor `n` out of a cross product. */
  lemma QuotientCross(n: int, s: int, t: int, e: int, h: int, g: int, k: int)
    requires n != 0 && n * s == h * t && n * k == h * h
    ensures (s * (e * h)) * g == (t * e) * (g * k)
  {
    calc {
      n * ((s * (e * h)) * g);
      (n * s) * (e * h) * g;
      (h * t) * (e * h) * g;
      (t * e) * g * (h * h);
      (t * e) * g * (n * k);
      n * ((t * e) * (g * k));
    }
    MulCancel(n, (s * (e * h)) * g, (t * e) * (g * k));
  }

  /** With a nonzero dividend and different radicands, an irrational over a
      fraction raises DifferentIrrationalPartError as written, even for a zero
      divisor, where the intended division reports ZeroDivisionError first. */
  lemma DivAsWrittenIncompatible(a: Num, b: Num)
    requires InvertsDividend(a, b) && !ZeroDivisor(a) && !Compatible(a, b)
    ensures DivAsWritten(a, b) == Err(DifferentIrrationalPart)
  {
    assert Fractions.Promote(a.x).num == a.x;
  }

  /** As intended, zero divided by any nonzero divisor is the zero fraction. */
  lemma DivOfZero(b: Num)
    requires !b.Int? && !ZeroDivisor(b)
    ensures Div(Int(0), b) == Ok(Frac(Fractions.Zero(Radicand(b))))
  {
    var p, q, r := DivBySurdShape(Int(0), b);
    Fractions.MulZero(p, Fractions.Flip(q).value);
  }

  /** `0 / sqrt(2)`: the library raises ZeroDivisionError, the intended
      division gives `0`. */
  lemma ZeroOverSqrtTwo()
    ensures DivAsWritten(Int(0), Irr(Sqrt(2).value)) == Err(ZeroDivision)
    ensures Div(Int(0), Irr(Sqrt(2).value)) == Ok(Frac(Fractions.Zero(2)))
  {
    var b := Irr(Sqrt(2).value);
    DivAsWrittenZeroDividend(Int(0), b);
    assert Norm(Numerator(b)) == -2;
    DivOfZero(b);
  }

  /** Replacing the factors of a product by equal ones. */
  lemma ProductOfEquals(x: real, y: real, z: real, x': real, y': real, z': real)
    requires x * y == z && x == x' && y == y' && z == z'
    ensures x' * y' == z'
  {
  }
}
