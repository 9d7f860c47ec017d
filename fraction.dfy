/** Fractions `(realPart + coeff * sqrt(rad)) / denom` with an irrational
    numerator and a nonzero integer denominator, always stored in canonical
    form: a positive denominator and no common factor of the numerator's two
    parts and the denominator. `Simplify` is the only way to build one, so a
    value of type `Fraction` is canonical by construction. */
module Fractions {
  import opened NumberTheory
  import opened Irrationals

  /** A numerator over a denominator, before or after canonicalisation. */
  datatype Ratio = Ratio(num: Irrational, denom: int)

  /** The stored form that `simplify` produces: a positive denominator and
      no factor above one common to the two parts and the denominator. */
  ghost predicate IsCanonical(q: Ratio) {
    q.denom > 0 && Coprime3(q.num.realPart, q.num.coeff, q.denom)
  }

  /** The same thing in the source's terms: `gcd(real, coeff, denom) == 1`. */
  lemma CanonicalGcd(q: Ratio)
    requires q.denom > 0
    ensures IsCanonical(q) <==> Gcd3(q.num.realPart, q.num.coeff, q.denom) == 1
  {
    CoprimeIffGcdOne(q.num.realPart, q.num.coeff, q.denom);
  }

  type Fraction = q: Ratio | IsCanonical(q) witness Ratio(Irrational(0, 0, 0), 1)

  /** A combination of the three parts equal to one shows a ratio canonical. */
  lemma CanonicalByCombination(q: Ratio, x: int, y: int, z: int)
    requires q.denom > 0 && x * q.num.realPart + y * q.num.coeff + z * q.denom == 1
    ensures IsCanonical(q)
  {
    CoprimeFromCombination(q.num.realPart, q.num.coeff, q.denom, x, y, z);
    CanonicalGcd(q);
  }

  /** `n1 / d1` and `n2 / d2` are the same ratio: equal radicands and
      cross-multiplied equal parts. */
  predicate SameRatio(n1: Irrational, d1: int, n2: Irrational, d2: int) {
    n1.rad == n2.rad && n1.realPart * d2 == n2.realPart * d1 && n1.coeff * d2 == n2.coeff * d1
  }

  /** The value of a ratio at a chosen square root `root` of its radicand. */
  function Value(q: Ratio, root: real): real
    requires q.denom != 0
  {
    Irrationals.Value(q.num, root) / q.denom as real
  }

  // ---------------------------------------------------------------------
  // Canonicalisation

  /** What dividing by `reduce(math.gcd, (real, coeff, denom))` achieves. */
  lemma ReduceByGcd(num: Irrational, denom: int)
    requires denom != 0
    ensures var g := Gcd3(num.realPart, num.coeff, denom);
      && g > 0
      && num.realPart == g * FloorDiv(num.realPart, g)
      && num.coeff == g * FloorDiv(num.coeff, g)
      && denom == g * FloorDiv(denom, g)
      && Gcd3(FloorDiv(num.realPart, g), FloorDiv(num.coeff, g), FloorDiv(denom, g)) == 1
  {
    var g := Gcd3(num.realPart, num.coeff, denom);
    ReducedCoprime(num.realPart, num.coeff, denom);
    Gcd3Divides(num.realPart, num.coeff, denom);
    FloorDivExact(num.realPart, g);
    FloorDivExact(num.coeff, g);
    FloorDivExact(denom, g);
  }

  /** `simplify`, run once by the constructor: divide out the gcd of the three
      parts, then move a negative sign from the denominator to the numerator.
      The result is canonical (by its type) and denotes the same ratio. */
  function Simplify(num: Irrational, denom: int): (f: Fraction)
    requires denom != 0
    ensures f.num.rad == num.rad
    ensures SameRatio(num, denom, f.num, f.denom)
  {
    var g := Gcd3(num.realPart, num.coeff, denom);
    ReduceByGcd(num, denom);
    var n1 := FloorDivBy(num, g);
    var d1 := FloorDiv(denom, g);
    SimplifyRatio(num, denom, g, n1, d1);
    ReducedCanonical(n1, d1);
    if d1 < 0 then Ratio(Irrationals.MulInt(n1, -1), d1 * -1) else Ratio(n1, d1)
  }

  /** Both sign choices of a reduced triple have no common factor. */
  lemma ReducedCanonical(n1: Irrational, d1: int)
    requires d1 != 0 && Gcd3(n1.realPart, n1.coeff, d1) == 1
    ensures Coprime3(n1.realPart, n1.coeff, d1)
    ensures Coprime3(n1.realPart * -1, n1.coeff * -1, d1 * -1)
  {
    CoprimeIffGcdOne(n1.realPart, n1.coeff, d1);
    assert Gcd3(n1.realPart * -1, n1.coeff * -1, d1 * -1) == Gcd3(n1.realPart, n1.coeff, d1);
    CoprimeIffGcdOne(n1.realPart * -1, n1.coeff * -1, d1 * -1);
  }

  lemma SimplifyRatio(num: Irrational, denom: int, g: int, n1: Irrational, d1: int)
    requires num.realPart == g * n1.realPart && num.coeff == g * n1.coeff && denom == g * d1
    requires n1.rad == num.rad
    ensures SameRatio(num, denom, n1, d1)
    ensures SameRatio(num, denom, Irrationals.MulInt(n1, -1), d1 * -1)
  {
    assert (g * n1.realPart) * d1 == n1.realPart * (g * d1);
    assert (g * n1.coeff) * d1 == n1.coeff * (g * d1);
  }

  /** The common factor `simplify` divides out, with its sign. */
  function SimplifyFactor(num: Irrational, denom: int): int
    requires denom != 0
  {
    var g: int := Gcd3(num.realPart, num.coeff, denom);
    ReduceByGcd(num, denom);
    if FloorDiv(denom, g) < 0 then -g else g
  }

  /** The input triple is the stored triple times one common nonzero integer. */
  lemma SimplifyScales(num: Irrational, denom: int)
    requires denom != 0
    ensures var f, k := Simplify(num, denom), SimplifyFactor(num, denom);
      && k != 0
      && num.realPart == k * f.num.realPart
      && num.coeff == k * f.num.coeff
      && denom == k * f.denom
  {
    var g := Gcd3(num.realPart, num.coeff, denom);
    ReduceByGcd(num, denom);
    var n1 := FloorDivBy(num, g);
    var d1 := FloorDiv(denom, g);
    var f := Simplify(num, denom);
    var neg := d1 < 0;
    assert f.num == (if neg then Irrationals.MulInt(n1, -1) else n1);
    assert f.denom == (if neg then d1 * -1 else d1);
    SignedScale(num.realPart, g, n1.realPart, neg);
    SignedScale(num.coeff, g, n1.coeff, neg);
    SignedScale(denom, g, d1, neg);
  }

  lemma SignedScale(x: int, g: int, x1: int, neg: bool)
    requires x == g * x1
    ensures x == (if neg then -g else g) * (if neg then x1 * -1 else x1)
  {
  }

  /** `Fraction(num, denom)`: a zero denominator raises ZeroDivisionError;
      otherwise the stored form denotes the same ratio. */
  function MakeFraction(num: Irrational, denom: int): (r: Result<Fraction>)
    ensures r.Err? <==> denom == 0
    ensures r.Err? ==> r.error == ZeroDivision
    ensures r.Ok? ==> SameRatio(num, denom, r.value.num, r.value.denom)
  {
    if denom == 0 then Err(ZeroDivision) else Ok(CanonicalForm(num, denom))
  }

  /** `Fraction(x)`: an irrational over one, which is already canonical. */
  function Promote(x: Irrational): (f: Fraction)
    ensures f.num == x && f.denom == 1
  {
    assert Gcd(IntGcd(x.realPart, x.coeff), 1) == 1;
    CoprimeIffGcdOne(x.realPart, x.coeff, 1);
    Ratio(x, 1)
  }

  /** Promotion is what the constructor's simplification makes of `x / 1`. */
  lemma PromoteSimplifies(x: Irrational)
    ensures Simplify(x, 1) == Promote(x)
  {
    SimplifyIdempotent(Promote(x));
  }

  /** Promotion keeps the value. */
  lemma PromoteValue(x: Irrational, root: real)
    ensures Value(Promote(x), root) == Irrationals.Value(x, root)
  {
  }

  /** Two canonical fractions denoting the same ratio are identical. */
  lemma CanonicalUnique(f1: Fraction, f2: Fraction)
    requires SameRatio(f1.num, f1.denom, f2.num, f2.denom)
    ensures f1 == f2
  {
    DenominatorDivides(f1, f2);
    DenominatorDivides(f2, f1);
    MutualDivides(f1.denom, f2.denom);
    MulCancel(f1.denom, f1.num.realPart, f2.num.realPart);
    MulCancel(f1.denom, f1.num.coeff, f2.num.coeff);
  }

  /** The denominator of a canonical fraction divides that of any fraction with the same ratio. */
  lemma DenominatorDivides(f1: Fraction, f2: Fraction)
    requires SameRatio(f1.num, f1.denom, f2.num, f2.denom)
    ensures Divides(f1.denom, f2.denom)
  {
    var r1, c1, d1 := f1.num.realPart, f1.num.coeff, f1.denom;
    var r2, c2, d2 := f2.num.realPart, f2.num.coeff, f2.denom;
    CoprimeIffGcdOne(r1, c1, d1);
    var x, y, z := CoprimeCombination(r1, c1, d1);
    CombinationFactor(r1, c1, d1, r2, c2, d2, x, y, z);
    DividesIntro(d1, d2, x * r2 + y * c2 + z * d2);
  }

  /** With `x * r1 + y * c1 + z * d1 == 1`, the cross products put a factor
      `d1` into `d2`. */
  lemma CombinationFactor(r1: int, c1: int, d1: int, r2: int, c2: int, d2: int, x: int, y: int, z: int)
    requires x * r1 + y * c1 + z * d1 == 1
    requires r1 * d2 == r2 * d1 && c1 * d2 == c2 * d1
    ensures d2 == d1 * (x * r2 + y * c2 + z * d2)
  {
    Distribute3(d2, x, r1, y, c1, z, d1);
    Distribute3(d1, x, r2, y, c2, z, d2);
    calc {
      d2;
      d2 * (x * r1 + y * c1 + z * d1);
      x * (r1 * d2) + y * (c1 * d2) + z * (d1 * d2);
      { assert d1 * d2 == d2 * d1; }
      x * (r2 * d1) + y * (c2 * d1) + z * (d2 * d1);
      d1 * (x * r2 + y * c2 + z * d2);
    }
  }

  lemma Distribute3(k: int, x: int, a: int, y: int, b: int, z: int, c: int)
    ensures k * (x * a + y * b + z * c) == x * (a * k) + y * (b * k) + z * (c * k)
  {
  }

  lemma MutualDivides(a: int, b: int)
    requires a > 0 && b > 0 && Divides(a, b) && Divides(b, a)
    ensures a == b
  {
    DividesElim(a, b);
    DividesElim(b, a);
    var m, n := b / a, a / b;
    assert m > 0;
    assert a * 1 == a * (m * n);
    MulCancel(a, 1, m * n);
    UnitFactor(m, n);
  }

  lemma SameRatioSymmetric(n1: Irrational, d1: int, n2: Irrational, d2: int)
    requires SameRatio(n1, d1, n2, d2)
    ensures SameRatio(n2, d2, n1, d1)
  {
  }

  lemma SameRatioTrans(n1: Irrational, d1: int, n2: Irrational, d2: int, n3: Irrational, d3: int)
    requires d2 != 0 && SameRatio(n1, d1, n2, d2) && SameRatio(n2, d2, n3, d3)
    ensures SameRatio(n1, d1, n3, d3)
  {
    CrossTrans(n1.realPart, d1, n2.realPart, d2, n3.realPart, d3);
    CrossTrans(n1.coeff, d1, n2.coeff, d2, n3.coeff, d3);
  }

  /** Canonical form is unique: inputs denoting the same ratio simplify to identical fractions. */
  lemma SimplifyUnique(n1: Irrational, d1: int, n2: Irrational, d2: int)
    requires d1 != 0 && d2 != 0 && SameRatio(n1, d1, n2, d2)
    ensures Simplify(n1, d1) == Simplify(n2, d2)
  {
    var f1, f2 := Simplify(n1, d1), Simplify(n2, d2);
    SameRatioSymmetric(n1, d1, f1.num, f1.denom);
    SameRatioTrans(f1.num, f1.denom, n1, d1, n2, d2);
    SameRatioTrans(f1.num, f1.denom, n2, d2, f2.num, f2.denom);
    CanonicalUnique(f1, f2);
  }

  /** Canonicalisation is idempotent: simplifying a stored fraction leaves it unchanged. */
  lemma SimplifyIdempotent(f: Fraction)
    ensures Simplify(f.num, f.denom) == f
  {
    var g := Simplify(f.num, f.denom);
    CanonicalUnique(g, f);
  }

  /** Any two stored fractions with the ratio `num / denom` are the same one. */
  lemma OneCanonicalForm(num: Irrational, denom: int)
    requires denom != 0
    ensures forall f1: Fraction, f2: Fraction ::
      SameRatio(num, denom, f1.num, f1.denom) && SameRatio(num, denom, f2.num, f2.denom) ==> f1 == f2
  {
    forall f1: Fraction, f2: Fraction |
      SameRatio(num, denom, f1.num, f1.denom) && SameRatio(num, denom, f2.num, f2.denom)
      ensures f1 == f2
    {
      SameRatioSymmetric(num, denom, f1.num, f1.denom);
      SameRatioTrans(f1.num, f1.denom, num, denom, f2.num, f2.denom);
      CanonicalUnique(f1, f2);
    }
  }

  /** The stored form of `num / denom`: the one canonical fraction with that
      ratio. `Simplify` computes it (`SimplifyIsCanonicalForm`), and the
      constructor and the arithmetic below are stated with it. */
  function CanonicalForm(num: Irrational, denom: int): (f: Fraction)
    requires denom != 0
    ensures SameRatio(num, denom, f.num, f.denom)
  {
    OneCanonicalForm(num, denom);
    assert SameRatio(num, denom, Simplify(num, denom).num, Simplify(num, denom).denom);
    var f: Fraction :| SameRatio(num, denom, f.num, f.denom);
    f
  }

  /** The canonical form is the one fraction with the same ratio. */
  lemma CanonicalFormIs(num: Irrational, denom: int, f: Fraction)
    requires denom != 0 && SameRatio(num, denom, f.num, f.denom)
    ensures CanonicalForm(num, denom) == f
  {
    OneCanonicalForm(num, denom);
  }

  /** The constructor's `simplify` produces the canonical form. */
  lemma SimplifyIsCanonicalForm(num: Irrational, denom: int)
    requires denom != 0
    ensures Simplify(num, denom) == CanonicalForm(num, denom)
  {
    OneCanonicalForm(num, denom);
  }

  /** The zero fraction `0 / 1` over radicand `rad`. */
  function Zero(rad: nat): (f: Fraction)
    ensures f.num.realPart == 0 && f.num.coeff == 0 && f.num.rad == rad && f.denom == 1
  {
    Promote(Irrational(0, 0, rad))
  }

  /** Every representation of zero has the canonical form `0 / 1`. */
  lemma ZeroCanonicalForm(num: Irrational, denom: int)
    requires denom != 0 && num.realPart == 0 && num.coeff == 0
    ensures CanonicalForm(num, denom) == Zero(num.rad)
  {
    var z := Zero(num.rad);
    assert SameRatio(num, denom, z.num, z.denom);
    OneCanonicalForm(num, denom);
  }

  /** Zero times anything with the same radicand is zero. */
  lemma MulZero(f: Fraction, g: Fraction)
    requires f.num.realPart == 0 && f.num.coeff == 0 && f.num.rad == g.num.rad
    ensures Mul(f, g) == Ok(Zero(f.num.rad))
  {
    var p := Irrationals.Mul(f.num, g.num).value;
    assert p.realPart == 0 && p.coeff == 0;
    NonzeroProduct(f.denom, g.denom);
    ZeroCanonicalForm(p, f.denom * g.denom);
  }

  lemma RatioOfReals(p: real, q: real, d1: real, d2: real)
    requires d1 != 0.0 && d2 != 0.0 && p * d2 == q * d1
    ensures p / d1 == q / d2
  {
    calc {
      p / d1;
      (p * d2) / (d1 * d2);
      (q * d1) / (d1 * d2);
      q / d2;
    }
  }

  lemma IntToRealMul(a: int, b: int)
    ensures (a * b) as real == a as real * b as real
  {
  }

  /** Cross-multiplied equal parts give cross-multiplied equal values. */
  lemma CrossValue(x: Irrational, d1: int, y: Irrational, d2: int, root: real)
    requires SameRatio(x, d1, y, d2)
    ensures Irrationals.Value(x, root) * d2 as real == Irrationals.Value(y, root) * d1 as real
  {
    var a, b, c, e := x.realPart as real, x.coeff as real, y.realPart as real, y.coeff as real;
    var p, q := d1 as real, d2 as real;
    IntToRealMul(x.realPart, d2);
    IntToRealMul(y.realPart, d1);
    IntToRealMul(x.coeff, d2);
    IntToRealMul(y.coeff, d1);
    assert a * q == c * p;
    assert b * q == e * p;
    calc {
      (a + b * root) * q;
      a * q + (b * q) * root;
      c * p + (e * p) * root;
      (c + e * root) * p;
    }
  }

  /** Canonicalisation keeps the value. */
  lemma SimplifyValue(num: Irrational, denom: int, root: real)
    requires denom != 0
    ensures Value(Simplify(num, denom), root) == Irrationals.Value(num, root) / denom as real
  {
    SameRatioValue(num, denom, Simplify(num, denom), root);
  }

  lemma SameRatioValue(num: Irrational, denom: int, f: Ratio, root: real)
    requires denom != 0 && f.denom != 0 && SameRatio(num, denom, f.num, f.denom)
    ensures Value(f, root) == Irrationals.Value(num, root) / denom as real
  {
    CrossValue(num, denom, f.num, f.denom, root);
    RatioOfReals(Irrationals.Value(num, root), Irrationals.Value(f.num, root), denom as real, f.denom as real);
  }

  // ---------------------------------------------------------------------
  // Arithmetic: cross-multiply, then canonicalise again

  /** `f + n` for an integer `n`. */
  function AddInt(f: Fraction, n: int): (r: Fraction)
    ensures r.num.rad == f.num.rad
  {
    CanonicalForm(Irrationals.AddInt(f.num, n * f.denom), f.denom)
  }

  /** `f + g`; the radicands must agree. */
  function Add(f: Fraction, g: Fraction): (r: Result<Fraction>)
    ensures r.Err? <==> f.num.rad != g.num.rad
    ensures r.Err? ==> r.error == DifferentIrrationalPart
    ensures r.Ok? ==> r.value.num.rad == f.num.rad
  {
    var s := Irrationals.Add(Irrationals.MulInt(f.num, g.denom), Irrationals.MulInt(g.num, f.denom));
    if s.Err? then Err(s.error) else Ok(CanonicalForm(s.value, f.denom * g.denom))
  }

  /** `f * n` for an integer `n`. */
  function MulInt(f: Fraction, n: int): (r: Fraction)
    ensures r.num.rad == f.num.rad
  {
    CanonicalForm(Irrationals.MulInt(f.num, n), f.denom)
  }

  /** `f * g`; the radicands must agree. */
  function Mul(f: Fraction, g: Fraction): (r: Result<Fraction>)
    ensures r.Err? <==> f.num.rad != g.num.rad
    ensures r.Err? ==> r.error == DifferentIrrationalPart
    ensures r.Ok? ==> r.value.num.rad == f.num.rad
  {
    var p := Irrationals.Mul(f.num, g.num);
    if p.Err? then Err(p.error) else Ok(CanonicalForm(p.value, f.denom * g.denom))
  }

  /** `f / n` for an integer `n`, a zero divisor being a zero denominator. */
  function DivInt(f: Fraction, n: int): (r: Result<Fraction>)
    ensures r.Err? <==> n == 0
    ensures r.Err? ==> r.error == ZeroDivision
    ensures r.Ok? ==> r.value.num.rad == f.num.rad
  {
    MakeFraction(f.num, f.denom * n)
  }

  /** `-f`, computed as `(-1) * f`. */
  function Neg(f: Fraction): (r: Fraction)
    ensures r.num.rad == f.num.rad
  {
    MulInt(f, -1)
  }

  /** `f - g`, computed as `f + -g`. */
  function Sub(f: Fraction, g: Fraction): (r: Result<Fraction>)
    ensures r.Err? <==> f.num.rad != g.num.rad
    ensures r.Err? ==> r.error == DifferentIrrationalPart
    ensures r.Ok? ==> r.value.num.rad == f.num.rad
  {
    Add(f, Neg(g))
  }

  /** `flip`: invert by multiplying numerator and denominator by the conjugate
      of the numerator. The new denominator is the norm of the numerator;
      when it is zero the constructor raises ZeroDivisionError. */
  function Flip(f: Fraction): (r: Result<Fraction>)
    ensures r.Err? <==> Norm(f.num) == 0
    ensures r.Err? ==> r.error == ZeroDivision
    ensures r.Ok? ==> r.value.num.rad == f.num.rad
    ensures r.Ok? ==> SameRatio(Irrationals.MulInt(Conj(f.num), f.denom), Norm(f.num), r.value.num, r.value.denom)
  {
    var conj := Conj(f.num);
    var prod := Irrationals.Mul(f.num, conj);
    MulConj(f.num);
    MakeFraction(Irrationals.MulInt(conj, f.denom), prod.value.realPart)
  }

  /** `f / g`, computed as `f * flip(g)`: the inversion runs, and can fail, first. */
  function Div(f: Fraction, g: Fraction): (r: Result<Fraction>)
    ensures r.Err? <==> Norm(g.num) == 0 || f.num.rad != g.num.rad
    ensures r.Err? ==> r.error == if Norm(g.num) == 0 then ZeroDivision else DifferentIrrationalPart
    ensures r.Ok? ==> r.value.num.rad == f.num.rad
  {
    var h := Flip(g);
    if h.Err? then Err(h.error) else Mul(f, h.value)
  }

  // ---------------------------------------------------------------------
  // Floor

  lemma SquareTimesNat(b: int, d: nat)
    ensures b * b * d >= 0
  {
    MulNonneg(b * b, d);
  }

  /** `floor(b * sqrt(d))`, computed exactly with the integer square root
      (irrationals.py evaluates it in floating point). */
  function FloorSurd(b: int, d: nat): (r: int)
    ensures b >= 0 ==> 0 <= r && r * r <= b * b * d < (r + 1) * (r + 1)
    ensures b < 0 ==> r <= 0 && b * b * d <= r * r && (r < 0 ==> (r + 1) * (r + 1) < b * b * d)
  {
    SquareTimesNat(b, d);
    var s: int := ISqrt(b * b * d);
    assert (-s) * (-s) == s * s && (-s - 1) * (-s - 1) == (s + 1) * (s + 1);
    assert (-s + 1) * (-s + 1) == s * s - 2 * s + 1;
    if b >= 0 then s else if s * s == b * b * d then -s else -s - 1
  }

  /** `floor`: the integer part of the value, exact where irrationals.py uses
      `math.floor` of a floating-point quotient. */
  function Floor(f: Fraction): int {
    FloorDiv(f.num.realPart + FloorSurd(f.num.coeff, f.num.rad), f.denom)
  }

  // ---------------------------------------------------------------------
  // What the operations mean

  lemma SumOfRatios(a: real, b: real, p: real, q: real)
    requires p != 0.0 && q != 0.0
    ensures (a * q + b * p) / (p * q) == a / p + b / q
  {
  }

  lemma ProductOfRatios(a: real, b: real, p: real, q: real)
    requires p != 0.0 && q != 0.0
    ensures (a * b) / (p * q) == (a / p) * (b / q)
  {
  }

  /** Adding an integer adds its value. */
  lemma AddIntValue(f: Fraction, n: int, root: real)
    ensures Value(AddInt(f, n), root) == Value(f, root) + n as real
  {
    AddIntRatioValue(f, n, AddInt(f, n), root);
  }

  lemma AddIntRatioValue(f: Ratio, n: int, r: Ratio, root: real)
    requires f.denom > 0 && r.denom > 0
    requires SameRatio(Irrationals.AddInt(f.num, n * f.denom), f.denom, r.num, r.denom)
    ensures Value(r, root) == Value(f, root) + n as real
  {
    SameRatioValue(Irrationals.AddInt(f.num, n * f.denom), f.denom, r, root);
    ShiftedNumerator(f.num, n, f.denom, root);
    ShiftRatio(Irrationals.Value(f.num, root), f.denom as real, n as real);
  }

  lemma ShiftedNumerator(x: Irrational, n: int, d: int, root: real)
    ensures Irrationals.Value(Irrationals.AddInt(x, n * d), root) == Irrationals.Value(x, root) + n as real * d as real
  {
    Irrationals.AddIntValue(x, n * d, root);
    IntToRealMul(n, d);
  }

  lemma ShiftRatio(v: real, p: real, n: real)
    requires p != 0.0
    ensures (v + n * p) / p == v / p + n
  {
  }

  /** Fraction addition adds values, whatever the root. */
  lemma AddValue(f: Fraction, g: Fraction, root: real)
    requires f.num.rad == g.num.rad
    ensures Value(Add(f, g).value, root) == Value(f, root) + Value(g, root)
  {
    AddRatioValue(f, g, Add(f, g).value, root);
  }

  lemma AddRatioValue(f: Ratio, g: Ratio, r: Ratio, root: real)
    requires f.denom > 0 && g.denom > 0 && r.denom > 0
    requires f.num.rad == g.num.rad
    requires SameRatio(Irrationals.Add(Irrationals.MulInt(f.num, g.denom), Irrationals.MulInt(g.num, f.denom)).value,
                       f.denom * g.denom, r.num, r.denom)
    ensures Value(r, root) == Value(f, root) + Value(g, root)
  {
    var x, y := Irrationals.MulInt(f.num, g.denom), Irrationals.MulInt(g.num, f.denom);
    var s := Irrationals.Add(x, y).value;
    var a, b, p, q := Irrationals.Value(f.num, root), Irrationals.Value(g.num, root), f.denom as real, g.denom as real;
    assert Irrationals.Value(s, root) == a * q + b * p by {
      Irrationals.AddValue(x, y, root);
      Irrationals.MulIntValue(f.num, g.denom, root);
      Irrationals.MulIntValue(g.num, f.denom, root);
    }
    assert Value(r, root) == Irrationals.Value(s, root) / (p * q) by {
      SameRatioValue(s, f.denom * g.denom, r, root);
      IntToRealMul(f.denom, g.denom);
    }
    SumOfRatios(a, b, p, q);
  }

  /** Scaling by an integer scales the value. */
  lemma MulIntValue(f: Fraction, n: int, root: real)
    ensures Value(MulInt(f, n), root) == Value(f, root) * n as real
  {
    MulIntRatioValue(f, n, MulInt(f, n), root);
  }

  lemma MulIntRatioValue(f: Ratio, n: int, r: Ratio, root: real)
    requires f.denom > 0 && r.denom > 0
    requires SameRatio(Irrationals.MulInt(f.num, n), f.denom, r.num, r.denom)
    ensures Value(r, root) == Value(f, root) * n as real
  {
    Irrationals.MulIntValue(f.num, n, root);
    SameRatioValue(Irrationals.MulInt(f.num, n), f.denom, r, root);
  }

  /** Fraction multiplication multiplies values at any square root of the
      radicand; at any other real `root` they differ by the product
      numerator's `coeff * coeff' * (rad - root^2)` over the denominators. */
  lemma MulValue(f: Fraction, g: Fraction, root: real)
    requires f.num.rad == g.num.rad
    ensures Value(Mul(f, g).value, root)
         == Value(f, root) * Value(g, root)
            + (f.num.coeff * g.num.coeff) as real * (f.num.rad as real - root * root) / (f.denom * g.denom) as real
    ensures root * root == f.num.rad as real ==> Value(Mul(f, g).value, root) == Value(f, root) * Value(g, root)
  {
    MulRatioValue(f, g, Mul(f, g).value, root);
  }

  lemma MulRatioValue(f: Ratio, g: Ratio, r: Ratio, root: real)
    requires f.denom > 0 && g.denom > 0 && r.denom > 0
    requires f.num.rad == g.num.rad
    requires SameRatio(Irrationals.Mul(f.num, g.num).value, f.denom * g.denom, r.num, r.denom)
    ensures Value(r, root)
         == Value(f, root) * Value(g, root)
            + (f.num.coeff * g.num.coeff) as real * (f.num.rad as real - root * root) / (f.denom * g.denom) as real
    ensures root * root == f.num.rad as real ==> Value(r, root) == Value(f, root) * Value(g, root)
  {
    var e := (f.num.coeff * g.num.coeff) as real * (f.num.rad as real - root * root);
    var p, q := f.denom as real, g.denom as real;
    Irrationals.MulValue(f.num, g.num, root);
    SameRatioValue(Irrationals.Mul(f.num, g.num).value, f.denom * g.denom, r, root);
    IntToRealMul(f.denom, g.denom);
    ProductOfRatios(Irrationals.Value(f.num, root), Irrationals.Value(g.num, root), p, q);
    SumOverReal(Irrationals.Value(f.num, root) * Irrationals.Value(g.num, root), e, p * q);
    if root * root == f.num.rad as real {
      assert e == 0.0;
    }
  }

  lemma SumOverReal(a: real, e: real, p: real)
    requires p != 0.0
    ensures (a + e) / p == a / p + e / p
  {
  }

  /** Dividing by a nonzero integer divides the value. */
  /** `Fraction(x, n)` denotes `x / n`. */
  lemma MakeFractionValue(num: Irrational, denom: int, root: real)
    requires denom != 0
    ensures Value(MakeFraction(num, denom).value, root) * denom as real == Irrationals.Value(num, root)
  {
    var r := MakeFraction(num, denom);
    assert r.Ok? && SameRatio(num, denom, r.value.num, r.value.denom);
    MakeFractionRatioValue(num, denom, r.value, root);
  }

  lemma MakeFractionRatioValue(num: Irrational, denom: int, r: Ratio, root: real)
    requires denom != 0 && r.denom > 0 && SameRatio(num, denom, r.num, r.denom)
    ensures Value(r, root) * denom as real == Irrationals.Value(num, root)
  {
    SameRatioValue(num, denom, r, root);
    var v, d := Irrationals.Value(num, root), denom as real;
    assert (v / d) * d == v;
  }

  lemma DivIntValue(f: Fraction, n: int, root: real)
    requires n != 0
    ensures Value(DivInt(f, n).value, root) * n as real == Value(f, root)
  {
    DivIntRatioValue(f, n, DivInt(f, n).value, root);
  }

  lemma DivIntRatioValue(f: Ratio, n: int, r: Ratio, root: real)
    requires f.denom > 0 && r.denom > 0
    requires n != 0 && SameRatio(f.num, f.denom * n, r.num, r.denom)
    ensures Value(r, root) * n as real == Value(f, root)
  {
    SameRatioValue(f.num, f.denom * n, r, root);
    IntToRealMul(f.denom, n);
    var v, p, q := Irrationals.Value(f.num, root), f.denom as real, n as real;
    assert v / (p * q) * q == v / p;
  }

  lemma InverseProduct(c: real, v: real, p: real, m: real)
    requires p != 0.0 && m == v * c && m != 0.0
    ensures ((c * p) / m) * (v / p) == 1.0
  {
    calc {
      ((c * p) / m) * (v / p);
      (v * c) / m;
      1.0;
    }
  }

  /** `flip` inverts the value: the product with the fraction itself is one. */
  lemma FlipValue(f: Fraction, root: real)
    requires root * root == f.num.rad as real && Norm(f.num) != 0
    ensures Value(Flip(f).value, root) * Value(f, root) == 1.0
  {
    MulConj(f.num);
    FlipRatioValue(f, Flip(f).value, root);
  }

  lemma FlipRatioValue(f: Ratio, r: Ratio, root: real)
    requires f.denom > 0 && r.denom > 0
    requires root * root == f.num.rad as real && Norm(f.num) != 0
    requires SameRatio(Irrationals.MulInt(Conj(f.num), f.denom), Norm(f.num), r.num, r.denom)
    ensures Value(r, root) * Value(f, root) == 1.0
  {
    var conj := Conj(f.num);
    MulConj(f.num);
    Irrationals.MulValue(f.num, conj, root);
    Irrationals.MulIntValue(conj, f.denom, root);
    SameRatioValue(Irrationals.MulInt(conj, f.denom), Norm(f.num), r, root);
    InverseProduct(Irrationals.Value(conj, root), Irrationals.Value(f.num, root), f.denom as real, Norm(f.num) as real);
  }

  /** Division multiplies back: `(f / g) * g == f` in value, for a divisor with nonzero norm. */
  lemma DivValue(f: Fraction, g: Fraction, root: real)
    requires f.num.rad == g.num.rad && root * root == f.num.rad as real && Norm(g.num) != 0
    ensures Value(Div(f, g).value, root) * Value(g, root) == Value(f, root)
  {
    var h := Flip(g).value;
    FlipValue(g, root);
    MulValue(f, h, root);
    assert Value(f, root) * Value(h, root) * Value(g, root) == Value(f, root) * (Value(h, root) * Value(g, root));
  }

  // ---------------------------------------------------------------------
  // flip is an involution

  lemma NormScale(a: int, b: int, d: int, dn: int, k: int, a1: int, b1: int)
    requires a * dn == k * a1 && (-b) * dn == k * b1
    ensures k * k * (a1 * a1 - b1 * b1 * d) == dn * dn * (a * a - b * b * d)
  {
    assert (k * a1) * (k * a1) == (a * dn) * (a * dn);
    assert (k * b1) * (k * b1) == (b * dn) * (b * dn);
    calc {
      k * k * (a1 * a1 - b1 * b1 * d);
      (k * a1) * (k * a1) - (k * b1) * (k * b1) * d;
      (a * dn) * (a * dn) - (b * dn) * (b * dn) * d;
      dn * dn * (a * a - b * b * d);
    }
  }

  lemma NonzeroProduct(x: int, y: int)
    requires x != 0 && y != 0
    ensures x * y != 0
  {
    MulMagnitude(x, y);
  }

  /** The cross products that make the second inversion equal the first fraction. */
  lemma InvolutionCross(a: int, b: int, d: int, dn: int, k: int, a1: int, b1: int, d1: int)
    requires k != 0 && a * dn == k * a1 && (-b) * dn == k * b1 && a * a - b * b * d == k * d1
    ensures (a1 * d1) * dn == a * (a1 * a1 - b1 * b1 * d)
    ensures ((-b1) * d1) * dn == b * (a1 * a1 - b1 * b1 * d)
  {
    var m, m1 := a * a - b * b * d, a1 * a1 - b1 * b1 * d;
    NormScale(a, b, d, dn, k, a1, b1);
    CrossComponent(a, a1, dn, k, d1, m, m1);
    assert b * dn == k * (-b1);
    CrossComponent(b, -b1, dn, k, d1, m, m1);
  }

  /** One part of the twice-inverted numerator against the first one. */
  lemma CrossComponent(c: int, c1: int, dn: int, k: int, d1: int, m: int, m1: int)
    requires k != 0 && c * dn == k * c1 && m == k * d1 && k * k * m1 == dn * dn * m
    ensures (c1 * d1) * dn == c * m1
  {
    NonzeroProduct(k, k);
    calc {
      k * k * ((c1 * d1) * dn);
      (k * c1) * (k * d1) * dn;
      (c * dn) * m * dn;
      c * (dn * dn * m);
      c * (k * k * m1);
      k * k * (c * m1);
    }
    MulCancel(k * k, (c1 * d1) * dn, c * m1);
  }

  /** The first inversion scales `(a * dn, -b * dn, a^2 - b^2 d)` down by one
      common nonzero factor `k`. */
  lemma FlipFactor(f: Fraction) returns (k: int)
    requires Norm(f.num) != 0
    ensures Flip(f).Ok?
    ensures var f1 := Flip(f).value;
      && k != 0
      && f.num.realPart * f.denom == k * f1.num.realPart
      && (-f.num.coeff) * f.denom == k * f1.num.coeff
      && Norm(f.num) == k * f1.denom
  {
    MulConj(f.num);
    var n1 := Irrationals.MulInt(Conj(f.num), f.denom);
    SimplifyIsCanonicalForm(n1, Norm(f.num));
    assert Flip(f).value == Simplify(n1, Norm(f.num));
    SimplifyScales(n1, Norm(f.num));
    k := SimplifyFactor(n1, Norm(f.num));
  }

  /** `flip(flip(f)) == f` whenever the first inversion is defined. */
  lemma FlipInvolution(f: Fraction)
    requires Norm(f.num) != 0
    ensures Flip(f).Ok? && Flip(Flip(f).value) == Ok(f)
  {
    var a, b, d, dn := f.num.realPart, f.num.coeff, f.num.rad, f.denom;
    var k := FlipFactor(f);
    var f1 := Flip(f).value;
    var a1, b1, d1 := f1.num.realPart, f1.num.coeff, f1.denom;
    NormScale(a, b, d, dn, k, a1, b1);
    NonzeroProduct(dn, dn);
    NonzeroProduct(dn * dn, Norm(f.num));
    assert Norm(f1.num) != 0;
    var n2 := Irrationals.MulInt(Conj(f1.num), d1);
    var f2 := Flip(f1).value;
    InvolutionCross(a, b, d, dn, k, a1, b1, d1);
    assert SameRatio(n2, Norm(f1.num), f.num, dn);
    SameRatioSymmetric(n2, Norm(f1.num), f2.num, f2.denom);
    SameRatioTrans(f2.num, f2.denom, n2, Norm(f1.num), f.num, dn);
    CanonicalUnique(f2, f);
  }

  /** A nonzero fraction over a non-square radicand can always be inverted, twice. */
  lemma FlipInvolutionIrrational(f: Fraction)
    requires !IsPerfectSquare(f.num.rad) && (f.num.realPart != 0 || f.num.coeff != 0)
    ensures Flip(f).Ok? && Flip(Flip(f).value) == Ok(f)
  {
    NormNonzero(f.num);
    FlipInvolution(f);
  }

  // ---------------------------------------------------------------------
  // flip and multiplication on any representation of a ratio

  /** A product with a nonzero left factor vanishes only with the right one. */
  lemma ZeroProductFactor(x: int, y: int)
    requires x != 0 && x * y == 0
    ensures y == 0
  {
    if y != 0 {
      NonzeroProduct(x, y);
    }
  }

  /** The parts of `conj(n) * dn / norm(n)` against those of `conj(n1) * d1 / norm(n1)`,
      for `n / dn` and `n1 / d1` the same ratio. */
  lemma FlipCross(c: int, c1: int, dn: int, d1: int, m: int, m1: int)
    requires d1 != 0 && c * d1 == c1 * dn && dn * dn * m1 == d1 * d1 * m
    ensures (c * dn) * m1 == (c1 * d1) * m
  {
    calc {
      d1 * ((c * dn) * m1);
      (c * d1) * (dn * m1);
      (c1 * dn) * (dn * m1);
      c1 * (dn * dn * m1);
      c1 * (d1 * d1 * m);
      d1 * ((c1 * d1) * m);
    }
    MulCancel(d1, (c * dn) * m1, (c1 * d1) * m);
  }

  /** Inverting a fraction that `n / dn` denotes: it fails exactly when the
      norm of `n` vanishes, and otherwise denotes `conj(n) * dn / norm(n)`. */
  lemma FlipOfRatio(n: Irrational, dn: int, f: Fraction)
    requires dn != 0 && SameRatio(n, dn, f.num, f.denom)
    ensures Norm(n) == 0 <==> Norm(f.num) == 0
    ensures Norm(n) != 0 ==>
      Flip(f).Ok? && SameRatio(Irrationals.MulInt(Conj(n), dn), Norm(n), Flip(f).value.num, Flip(f).value.denom)
  {
    var d1 := f.denom;
    NormScale(n.realPart, -n.coeff, n.rad, d1, dn, f.num.realPart, f.num.coeff);
    assert dn * dn * Norm(f.num) == d1 * d1 * Norm(n);
    NonzeroProduct(dn, dn);
    NonzeroProduct(d1, d1);
    if Norm(n) == 0 {
      ZeroProductFactor(dn * dn, Norm(f.num));
    } else {
      if Norm(f.num) == 0 {
        ZeroProductFactor(d1 * d1, Norm(n));
      }
      var n1 := Irrationals.MulInt(Conj(n), dn);
      var n2 := Irrationals.MulInt(Conj(f.num), d1);
      FlipCross(n.realPart, f.num.realPart, dn, d1, Norm(n), Norm(f.num));
      FlipCross(-n.coeff, -f.num.coeff, dn, d1, Norm(n), Norm(f.num));
      assert SameRatio(n1, Norm(n), n2, Norm(f.num));
      SameRatioTrans(n1, Norm(n), n2, Norm(f.num), Flip(f).value.num, Flip(f).value.denom);
    }
  }

  /** Multiplying `x` into the same ratio written two ways gives the same ratio. */
  lemma MulOfRatio(x: Irrational, n: Irrational, dn: int, h: Fraction)
    requires x.rad == n.rad && SameRatio(n, dn, h.num, h.denom)
    ensures SameRatio(Irrationals.Mul(x, h.num).value, 1 * h.denom, Irrationals.Mul(x, n).value, dn)
  {
    var a, b, d := x.realPart, x.coeff, x.rad;
    var p, q, e := n.realPart, n.coeff, h.denom;
    var p1, q1 := h.num.realPart, h.num.coeff;
    assert p * e == p1 * dn && q * e == q1 * dn;
    calc {
      (a * p1 + b * q1 * d) * dn;
      a * (p1 * dn) + b * d * (q1 * dn);
      a * (p * e) + b * d * (q * e);
      (a * p + b * q * d) * (1 * e);
    }
    calc {
      (a * q1 + b * p1) * dn;
      a * (q1 * dn) + b * (p1 * dn);
      a * (q * e) + b * (p * e);
      (a * q + b * p) * (1 * e);
    }
  }

  // ---------------------------------------------------------------------
  // floor is exact

  lemma PosMulReal(x: real, p: real)
    requires p > 0.0 && x * p >= 0.0
    ensures x >= 0.0
  {
  }

  lemma RealSqrtBounds(u: real, s: int, n: int)
    requires s >= 0 && u >= 0.0 && u * u == n as real && s * s <= n < (s + 1) * (s + 1)
    ensures s as real <= u < (s + 1) as real
  {
    IntToRealMul(s, s);
    IntToRealMul(s + 1, s + 1);
    var r := s as real;
    assert r * r <= u * u < (r + 1.0) * (r + 1.0);
    assert (u - r) * (u + r) >= 0.0;
    assert (r + 1.0 - u) * (r + 1.0 + u) > 0.0;
    PosMulReal(r + 1.0 - u, r + 1.0 + u);
    if u + r > 0.0 {
      PosMulReal(u - r, u + r);
    }
  }

  lemma EqualSquares(u: real, r: real)
    requires u >= 0.0 && r >= 0.0 && u * u == r * r
    ensures u == r
  {
    if u + r != 0.0 {
      assert u - r == ((u - r) * (u + r)) / (u + r);
    }
  }

  lemma AbsRootSquare(b: int, d: nat, root: real)
    requires root >= 0.0 && root * root == d as real
    ensures Abs(b) as real * root >= 0.0
    ensures (Abs(b) as real * root) * (Abs(b) as real * root) == (b * b * d) as real
  {
    IntToRealMul(b * b, d);
    IntToRealMul(b, b);
    var c := Abs(b) as real;
    assert c * c == (b * b) as real;
    calc {
      (c * root) * (c * root);
      (c * c) * (root * root);
      (b * b) as real * d as real;
    }
  }

  /** The three branches of `FloorSurd`, given that `s` is the integer part of
      `u = |b| * root`, and equal to `u` exactly when `s * s == n`. */
  lemma SurdCases(b: int, root: real, u: real, s: int, n: int)
    requires s >= 0 && u == Abs(b) as real * root && s as real <= u < (s + 1) as real
    requires s * s == n <==> u == s as real
    ensures var m := if b >= 0 then s else if s * s == n then -s else -s - 1;
      m as real <= b as real * root < (m + 1) as real
  {
    if b < 0 {
      assert b as real * root == -u;
    }
  }

  /** The integer square root of `b^2 * d` is the integer part of `|b| * sqrt(d)`. */
  lemma SurdRootBounds(b: int, d: nat, root: real, s: int)
    requires root >= 0.0 && root * root == d as real
    requires s >= 0 && s * s <= b * b * d < (s + 1) * (s + 1)
    ensures s as real <= Abs(b) as real * root < (s + 1) as real
    ensures s * s == b * b * d <==> Abs(b) as real * root == s as real
  {
    var u := Abs(b) as real * root;
    AbsRootSquare(b, d, root);
    RealSqrtBounds(u, s, b * b * d);
    IntToRealMul(s, s);
    if s * s == b * b * d {
      EqualSquares(u, s as real);
    }
  }

  lemma FloorSurdBounds(b: int, d: nat, root: real)
    requires root >= 0.0 && root * root == d as real
    ensures FloorSurd(b, d) as real <= b as real * root < (FloorSurd(b, d) + 1) as real
  {
    SquareTimesNat(b, d);
    var n := b * b * d;
    var s: int := ISqrt(n);
    assert FloorSurd(b, d) == if b >= 0 then s else if s * s == n then -s else -s - 1;
    SurdRootBounds(b, d, root, s);
    SurdCases(b, root, Abs(b) as real * root, s, n);
  }

  lemma DivBounds(v: real, p: real, k: real)
    requires p > 0.0 && k * p <= v < (k + 1.0) * p
    ensures k <= v / p < k + 1.0
  {
    var q := v / p;
    assert q * p == v;
    PosMulReal(q - k, p);
    PosMulReal(k + 1.0 - q, p);
    assert (k + 1.0 - q) * p != 0.0;
  }

  /** `floor(f)` is the exact floor of the value: `k * denom <= value of the
      numerator < (k + 1) * denom`, at the non-negative square root. */
  lemma FloorBounds(f: Fraction, root: real)
    requires root >= 0.0 && root * root == f.num.rad as real
    ensures (Floor(f) * f.denom) as real <= Irrationals.Value(f.num, root) < ((Floor(f) + 1) * f.denom) as real
  {
    var v := Irrationals.Value(f.num, root);
    assert v == f.num.realPart as real + f.num.coeff as real * root;
    var t := f.num.realPart + FloorSurd(f.num.coeff, f.num.rad);
    NumeratorBounds(f.num.realPart, f.num.coeff, f.num.rad, root, v);
    QuotientBounds(t, v, f.denom, Floor(f));
  }

  /** The same bound on the fraction's value: `floor(f) <= f < floor(f) + 1`. */
  lemma FloorValueBounds(f: Fraction, root: real)
    requires root >= 0.0 && root * root == f.num.rad as real
    ensures Floor(f) as real <= Value(f, root) < (Floor(f) + 1) as real
  {
    var v := Irrationals.Value(f.num, root);
    assert v == f.num.realPart as real + f.num.coeff as real * root;
    assert Value(f, root) == v / f.denom as real;
    var t := f.num.realPart + FloorSurd(f.num.coeff, f.num.rad);
    NumeratorBounds(f.num.realPart, f.num.coeff, f.num.rad, root, v);
    QuotientBounds(t, v, f.denom, Floor(f));
  }

  /** The integer numerator used by `floor` is the floor of `v = a + b * root`. */
  lemma NumeratorBounds(a: int, b: int, d: nat, root: real, v: real)
    requires root >= 0.0 && root * root == d as real
    requires v == a as real + b as real * root
    ensures var t := a + FloorSurd(b, d);
      t as real <= v < (t + 1) as real
  {
    FloorSurdBounds(b, d, root);
    SurdShift(a, FloorSurd(b, d), b as real * root, v);
  }

  lemma SurdShift(a: int, s: int, w: real, v: real)
    requires s as real <= w < (s + 1) as real && v == a as real + w
    ensures (a + s) as real <= v < (a + s + 1) as real
  {
  }

  /** If `t` is the floor of `v` and `k` the floor of `t / dn`, then `k` is
      the floor of `v / dn`. */
  lemma QuotientBounds(t: int, v: real, dn: int, k: int)
    requires dn > 0 && t as real <= v < (t + 1) as real
    requires dn * k <= t < dn * k + dn
    ensures (k * dn) as real <= v < ((k + 1) * dn) as real
    ensures k as real <= v / dn as real < (k + 1) as real
  {
    assert (k + 1) * dn == k * dn + dn;
    IntToRealMul(k, dn);
    IntToRealMul(k + 1, dn);
    DivBounds(v, dn as real, k as real);
  }

  // ---------------------------------------------------------------------
  // The constructor's in-place simplification

  /** The object built by the fraction constructor, whose `simplify` rewrites
      the numerator and the denominator in place. */
  class FractionCell {
    var num: Irrational
    var denom: int

    /** Store the parts, then simplify them. */
    constructor (num: Irrational, denom: int)
      requires denom != 0
      ensures Ratio(this.num, this.denom) == Simplify(num, denom)
    {
      this.num := num;
      this.denom := denom;
      new;
      SimplifyInPlace();
    }

    /** Divide out the gcd of the three parts, then make the denominator positive. */
    method SimplifyInPlace()
      requires denom != 0
      modifies this
      ensures Ratio(num, denom) == Simplify(old(num), old(denom))
      ensures IsCanonical(Ratio(num, denom))
    {
      var g := Gcd3(num.realPart, num.coeff, denom);
      ReduceByGcd(num, denom);
      num := FloorDivBy(num, g);
      denom := FloorDiv(denom, g);
      if denom < 0 {
        denom := denom * -1;
        num := Irrationals.MulInt(num, -1);
      }
    }
  }
}
