/** Quadratic irrationals `real + coeff * sqrt(rad)` with a fixed, non-negative
    radicand, and the operations the library defines on them directly. Every
    operation builds a new value; combining two values with different
    radicands is an error. */
module Irrationals {
  import opened NumberTheory

  /** The library's error kinds. `NonIntegerError` has no counterpart: every
      field here is an `int` by typing. `OutOfFuel` belongs to the model only
      (the step bound on the continued-fraction expansion). */
  datatype Error =
    | ImaginaryPart            // a negative radicand
    | DifferentIrrationalPart  // two operands with different radicands
    | ZeroDivision             // a zero denominator or divisor
    | ZeroCoefficient          // expanding a value with no irrational part
    | PerfectSquare            // expanding a value whose radicand is a perfect square
    | NonIrrational            // expanding a plain integer
    | OutOfFuel                // the expansion did not close within its step bound

  datatype Result<T> = Ok(value: T) | Err(error: Error)

  /** `realPart + coeff * sqrt(rad)`; the radicand is unchanged by every operation. */
  datatype Irrational = Irrational(realPart: int, coeff: int, rad: nat)

  /** The constructor `Irrational(real, (coeff, irr))`: a negative radicand is refused. */
  function MakeIrrational(realPart: int, coeff: int, rad: int): (r: Result<Irrational>)
    ensures r.Err? <==> rad < 0
    ensures r.Err? ==> r.error == ImaginaryPart
    ensures r.Ok? ==> r.value.realPart == realPart && r.value.coeff == coeff && r.value.rad == rad
  {
    if rad < 0 then Err(ImaginaryPart) else Ok(Irrational(realPart, coeff, rad))
  }

  /** The helper `sqrt(n)`: the pure radical `0 + 1 * sqrt(n)`. */
  function Sqrt(n: int): (r: Result<Irrational>)
    ensures r.Ok? <==> n >= 0
    ensures r.Err? ==> r.error == ImaginaryPart
    ensures r.Ok? ==> r.value == Irrational(0, 1, n)
  {
    MakeIrrational(0, 1, n)
  }

  /** The value at a chosen square root `root` of the radicand. */
  function Value(x: Irrational, root: real): real {
    x.realPart as real + x.coeff as real * root
  }

  /** `(x * conj(x)).real`, the norm `real^2 - coeff^2 * rad`. */
  function Norm(x: Irrational): int {
    x.realPart * x.realPart - x.coeff * x.coeff * x.rad
  }

  // ---------------------------------------------------------------------
  // Operations

  /** `x + n` for an integer `n`. */
  function AddInt(x: Irrational, n: int): (r: Irrational)
    ensures r.rad == x.rad && r.coeff == x.coeff
  {
    Irrational(x.realPart + n, x.coeff, x.rad)
  }

  /** `is_different_irr`: combining two values needs one radicand. */
  function CheckSameRadicand(x: Irrational, y: Irrational): (r: Result<()>)
    ensures r.Err? <==> x.rad != y.rad
    ensures r.Err? ==> r.error == DifferentIrrationalPart
  {
    if x.rad != y.rad then Err(DifferentIrrationalPart) else Ok(())
  }

  /** `x + y`; the radicands must agree. */
  function Add(x: Irrational, y: Irrational): (r: Result<Irrational>)
    ensures r.Err? <==> x.rad != y.rad
    ensures r.Err? ==> r.error == DifferentIrrationalPart
    ensures r.Ok? ==> r.value.rad == x.rad
  {
    var check := CheckSameRadicand(x, y);
    if check.Err? then Err(check.error)
    else Ok(Irrational(x.realPart + y.realPart, x.coeff + y.coeff, x.rad))
  }

  /** `x * n` for an integer `n`. */
  function MulInt(x: Irrational, n: int): (r: Irrational)
    ensures r.rad == x.rad
  {
    Irrational(x.realPart * n, x.coeff * n, x.rad)
  }

  /** `x * y`; the radicands must agree. */
  function Mul(x: Irrational, y: Irrational): (r: Result<Irrational>)
    ensures r.Err? <==> x.rad != y.rad
    ensures r.Err? ==> r.error == DifferentIrrationalPart
    ensures r.Ok? ==> r.value.rad == x.rad
  {
    var check := CheckSameRadicand(x, y);
    if check.Err? then Err(check.error)
    else Ok(Irrational(x.realPart * y.realPart + x.coeff * y.coeff * x.rad,
                       x.realPart * y.coeff + x.coeff * y.realPart, x.rad))
  }

  /** `-x`, computed as `(-1) * x`. */
  function Neg(x: Irrational): (r: Irrational)
    ensures r.rad == x.rad
  {
    MulInt(x, -1)
  }

  /** `x - y`, computed as `x + -y`. */
  function Sub(x: Irrational, y: Irrational): (r: Result<Irrational>)
    ensures r.Err? <==> x.rad != y.rad
    ensures r.Err? ==> r.error == DifferentIrrationalPart
    ensures r.Ok? ==> r.value.rad == x.rad
  {
    Add(x, Neg(y))
  }

  /** The Galois conjugate `real - coeff * sqrt(rad)`. */
  function Conj(x: Irrational): (r: Irrational)
    ensures r.rad == x.rad
  {
    Irrational(x.realPart, -x.coeff, x.rad)
  }

  /** `x // n` with a nonzero divisor: Python floor division of both parts. */
  function FloorDivBy(x: Irrational, n: int): (r: Irrational)
    requires n != 0
    ensures r.rad == x.rad
    ensures n > 0 ==> n * r.realPart <= x.realPart < n * r.realPart + n && n * r.coeff <= x.coeff < n * r.coeff + n
    ensures n < 0 ==> n * r.realPart + n < x.realPart <= n * r.realPart && n * r.coeff + n < x.coeff <= n * r.coeff
    ensures Divides(n, x.realPart) && Divides(n, x.coeff) ==> MulInt(r, n) == x
  {
    FloorDivBothExact(x, n);
    Irrational(FloorDiv(x.realPart, n), FloorDiv(x.coeff, n), x.rad)
  }

  lemma FloorDivBothExact(x: Irrational, n: int)
    requires n != 0
    ensures Divides(n, x.realPart) && Divides(n, x.coeff) ==>
      x.realPart == FloorDiv(x.realPart, n) * n && x.coeff == FloorDiv(x.coeff, n) * n
  {
    if Divides(n, x.realPart) && Divides(n, x.coeff) {
      FloorDivExact(x.realPart, n);
      FloorDivExact(x.coeff, n);
    }
  }

  /** `x // n`: integer floor division of both parts; a zero divisor is an error. */
  function FloorDivInt(x: Irrational, n: int): (r: Result<Irrational>)
    ensures r.Err? <==> n == 0
    ensures r.Err? ==> r.error == ZeroDivision
    ensures r.Ok? ==> r.value.rad == x.rad && r.value == FloorDivBy(x, n)
  {
    if n == 0 then Err(ZeroDivision) else Ok(FloorDivBy(x, n))
  }

  // ---------------------------------------------------------------------
  // What the operations mean

  /** Addition adds values, whatever the root. */
  lemma AddValue(x: Irrational, y: Irrational, root: real)
    requires x.rad == y.rad
    ensures Value(Add(x, y).value, root) == Value(x, root) + Value(y, root)
  {
  }

  lemma AddIntValue(x: Irrational, n: int, root: real)
    ensures Value(AddInt(x, n), root) == Value(x, root) + n as real
  {
  }

  /** Scaling by an integer scales the value. */
  lemma MulIntValue(x: Irrational, n: int, root: real)
    ensures Value(MulInt(x, n), root) == Value(x, root) * n as real
  {
  }

  /** The product formula multiplies values at any square root of the radicand.
      At any other real `root` the two differ by `coeff * coeff' * (rad - root^2)`,
      so the identity, holding for every real, fixes both parts of the product. */
  lemma MulValue(x: Irrational, y: Irrational, root: real)
    requires x.rad == y.rad
    ensures Value(Mul(x, y).value, root)
         == Value(x, root) * Value(y, root) + (x.coeff * y.coeff) as real * (x.rad as real - root * root)
    ensures root * root == x.rad as real ==> Value(Mul(x, y).value, root) == Value(x, root) * Value(y, root)
  {
    var a, b, c, e := x.realPart as real, x.coeff as real, y.realPart as real, y.coeff as real;
    var d := x.rad as real;
    assert (x.realPart * y.realPart + x.coeff * y.coeff * x.rad) as real == a * c + b * e * d;
    assert (x.realPart * y.coeff + x.coeff * y.realPart) as real == a * e + b * c;
    assert (x.coeff * y.coeff) as real == b * e;
    calc {
      Value(x, root) * Value(y, root) + (b * e) * (d - root * root);
      (a + b * root) * (c + e * root) + (b * e) * (d - root * root);
      a * c + b * e * d + (a * e + b * c) * root;
    }
  }

  /** Conjugation replaces the chosen square root by its negative. */
  lemma ConjValue(x: Irrational, root: real)
    ensures Value(Conj(x), root) == Value(x, -root)
    ensures Conj(Conj(x)) == x
  {
  }

  /** `x * conj(x)` is the rational number `real^2 - coeff^2 * rad`. */
  lemma MulConj(x: Irrational)
    ensures Mul(x, Conj(x)) == Ok(Irrational(Norm(x), 0, x.rad))
  {
  }

  lemma MulCommutes(x: Irrational, y: Irrational)
    ensures Mul(x, y) == Mul(y, x)
  {
  }

  /** The floor division used by canonicalisation is exact when `n` divides both parts. */
  lemma FloorDivValue(x: Irrational, n: int, root: real)
    requires n != 0 && Divides(n, x.realPart) && Divides(n, x.coeff)
    ensures Value(FloorDivBy(x, n), root) * n as real == Value(x, root)
  {
    MulIntValue(FloorDivBy(x, n), n, root);
  }

  // ---------------------------------------------------------------------
  // A zero norm forces a perfect-square radicand

  lemma SquareOfProduct(g: int, p: int)
    ensures (g * p) * (g * p) == (g * g) * (p * p)
  {
  }

  /** Cancelling a common factor out of `a^2 == b^2 * d`. */
  lemma CancelSquares(g: int, p: int, q: int, d: int)
    requires g != 0 && (g * p) * (g * p) == (g * q) * (g * q) * d
    ensures p * p == q * q * d
  {
    SquareOfProduct(g, p);
    SquareOfProduct(g, q);
    assert (g * g) * (p * p) == (g * g) * (q * q * d);
    MulCancel(g * g, p * p, q * q * d);
  }

  /** From `p^2 == q^2 * d` and `u * p + v * q == 1`, the factor `q` is a unit. */
  lemma CoprimeSquareRatio(p: int, q: int, d: int, u: int, v: int)
    requires p * p == q * q * d && u * p + v * q == 1
    ensures q * q == 1
  {
    var m := u * q * d + v * p;
    QuotientOfSquares(p, q, d, u, v);
    UnitCombination(p, q, u, v, m);
    AbsMul(q, u * m + v);
    UnitFactor(Abs(q), Abs(u * m + v));
    assert q * q == Abs(q) * Abs(q);
  }

  lemma QuotientOfSquares(p: int, q: int, d: int, u: int, v: int)
    requires p * p == q * q * d && u * p + v * q == 1
    ensures q * (u * q * d + v * p) == p
  {
    calc {
      q * (u * q * d + v * p);
      q * (u * q * d) + q * (v * p);
      { assert q * (u * q * d) == u * (q * q * d); assert q * (v * p) == v * p * q; }
      u * (q * q * d) + v * p * q;
      u * (p * p) + v * p * q;
      p * (u * p + v * q);
      p;
    }
  }

  lemma UnitCombination(p: int, q: int, u: int, v: int, m: int)
    requires q * m == p && u * p + v * q == 1
    ensures q * (u * m + v) == 1
  {
    calc {
      q * (u * m + v);
      u * (q * m) + v * q;
      u * p + v * q;
    }
  }

  /** A nonzero coefficient with norm zero: the radicand is the square of `real / coeff`. */
  lemma NormZeroSquare(x: Irrational)
    requires Norm(x) == 0 && x.coeff != 0
    ensures IsPerfectSquare(x.rad)
  {
    var a, b, d := x.realPart, x.coeff, x.rad;
    var g, p, q, u, v := ReducedPair(a, b);
    assert (g * p) * (g * p) == (g * q) * (g * q) * d;
    CancelSquares(g, p, q, d);
    CoprimeSquareRatio(p, q, d, u, v);
    assert d == Square(Abs(p));
    ISqrtOfSquare(Abs(p));
  }

  /** `(a, b)` divided by its gcd `g` is a coprime pair `(p, q)`, with the
      combination `u * p + v * q == 1` that shows it. */
  lemma ReducedPair(a: int, b: int) returns (g: int, p: int, q: int, u: int, v: int)
    requires b != 0
    ensures g > 0 && a == g * p && b == g * q && u * p + v * q == 1
  {
    g := IntGcd(a, b);
    GcdDivides(Abs(a), Abs(b));
    DividesAbs(g, a);
    DividesAbs(g, b);
    assert g != 0;
    DividesElim(g, a);
    DividesElim(g, b);
    p, q := a / g, b / g;
    var uv := Bezout(Abs(a), Abs(b));
    SignFold(uv.0, a);
    SignFold(uv.1, b);
    u, v := uv.0 * Sign(a), uv.1 * Sign(b);
    assert u * a + v * b + 0 * 0 == g;
    DividesIntro(g, 0, 0);
    DivideCombination(g, a, b, 0, u, v, 0);
  }

  /** A nonzero value whose radicand is not a perfect square has a nonzero norm,
      so the inversion by the conjugate never divides by zero for it. */
  lemma NormNonzero(x: Irrational)
    requires !IsPerfectSquare(x.rad) && (x.realPart != 0 || x.coeff != 0)
    ensures Norm(x) != 0
  {
    if Norm(x) == 0 {
      assert x.coeff != 0;
      NormZeroSquare(x);
    }
  }

  /** Over a perfect-square radicand the norm does vanish on a nonzero value. */
  lemma SquareRadicandHasZeroNorm(s: nat)
    ensures Norm(Irrational(s, 1, Square(s))) == 0
  {
  }
}
