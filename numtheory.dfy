/** Integer facts the library leans on: greatest common divisors as Python's
    `math.gcd` returns them, Bezout coefficients, Python's floor division,
    and the exact integer square root that replaces the floating-point
    `math.sqrt` tests of the library. */
module NumberTheory {

  function Abs(x: int): nat {
    if x < 0 then -x else x
  }

  /** The sign that turns `x` into `Abs(x)`. */
  function Sign(x: int): int {
    if x < 0 then -1 else 1
  }

  /** `k` divides `n` (zero divides only zero). */
  predicate Divides(k: int, n: int) {
    if k == 0 then n == 0 else n % k == 0
  }

  function Square(k: int): int {
    k * k
  }

  // ---------------------------------------------------------------------
  // Small arithmetic facts

  lemma MulNonneg(a: int, b: int)
    requires a >= 0 && b >= 0
    ensures a * b >= 0
  {
  }

  lemma AbsMul(k: int, t: int)
    ensures Abs(k * t) == Abs(k) * Abs(t)
  {
    if k < 0 && t < 0 {
      assert k * t == (-k) * (-t);
    } else if k < 0 {
      assert k * t == -((-k) * t);
    } else if t < 0 {
      assert k * t == -(k * (-t));
    }
  }

  lemma MulMagnitude(k: int, t: int)
    requires t != 0
    ensures Abs(k * t) >= Abs(k)
  {
    AbsMul(k, t);
    var a, b := Abs(k), Abs(t);
    assert a * b == a * (b - 1) + a;
    MulNonneg(a, b - 1);
  }

  lemma MulLtCancel(a: int, b: int, c: int)
    requires a > 0 && a * b < a * c
    ensures b < c
  {
    assert a * (c - b) > 0;
  }

  /** A multiple of `k` smaller in size than `k` is zero. */
  lemma SmallMultiple(k: int, t: int)
    requires k != 0 && Abs(k * t) < Abs(k)
    ensures t == 0
  {
    AbsMul(k, t);
    MulLtCancel(Abs(k), Abs(t), 1);
  }

  lemma DividesIntro(k: int, n: int, m: int)
    requires n == k * m
    ensures Divides(k, n)
  {
    if k != 0 {
      var q, r := n / k, n % k;
      assert n == k * q + r && 0 <= r < Abs(k);
      assert k * (m - q) == r;
      SmallMultiple(k, m - q);
    }
  }

  lemma DividesElim(k: int, n: int)
    requires k != 0 && Divides(k, n)
    ensures n == k * (n / k)
  {
  }

  lemma DividesTrans(a: int, b: int, c: int)
    requires Divides(a, b) && Divides(b, c)
    ensures Divides(a, c)
  {
    if a != 0 {
      DividesElim(a, b);
      if b == 0 {
        DividesIntro(a, c, 0);
      } else {
        var m1, m2 := b / a, c / b;
        DividesElim(b, c);
        assert c == a * (m1 * m2) by {
          assert c == b * m2 && b == a * m1;
        }
        DividesIntro(a, c, m1 * m2);
      }
    }
  }

  lemma DividesAbs(k: int, n: int)
    requires Divides(k, Abs(n))
    ensures Divides(k, n)
  {
    if n < 0 && k != 0 {
      DividesElim(k, -n);
      DividesIntro(k, n, -((-n) / k));
    }
  }

  /** A common divisor of three numbers divides every integer combination of them. */
  lemma DividesCombination(k: int, x: int, y: int, z: int, a: int, b: int, c: int)
    requires Divides(k, x) && Divides(k, y) && Divides(k, z)
    ensures Divides(k, a * x + b * y + c * z)
  {
    if k != 0 {
      var mx, my, mz := x / k, y / k, z / k;
      DividesElim(k, x); DividesElim(k, y); DividesElim(k, z);
      calc {
        a * x + b * y + c * z;
        a * (k * mx) + b * (k * my) + c * (k * mz);
        k * (a * mx + b * my + c * mz);
      }
      DividesIntro(k, a * x + b * y + c * z, a * mx + b * my + c * mz);
    }
  }

  lemma UnitFactor(h: nat, m: int)
    requires h * m == 1
    ensures h == 1
  {
    assert m >= 1;
    assert h * m == h * (m - 1) + h;
    MulNonneg(h, m - 1);
  }

  lemma MulCancel(k: int, x: int, y: int)
    requires k != 0 && k * x == k * y
    ensures x == y
  {
    assert k * (x - y) == 0;
  }

  /** Cross-multiplied equality of two ratios is transitive through a ratio with nonzero denominator. */
  lemma CrossTrans(x1: int, y1: int, x2: int, y2: int, x3: int, y3: int)
    requires y2 != 0
    requires x1 * y2 == x2 * y1 && x2 * y3 == x3 * y2
    ensures x1 * y3 == x3 * y1
  {
    calc {
      y2 * (x1 * y3);
      (x1 * y2) * y3;
      (x2 * y1) * y3;
      y1 * (x2 * y3);
      y1 * (x3 * y2);
      y2 * (x3 * y1);
    }
    MulCancel(y2, x1 * y3, x3 * y1);
  }

  // ---------------------------------------------------------------------
  // Greatest common divisor

  /** Euclid's algorithm; `Gcd(0, 0) == 0`, as for `math.gcd`. */
  function Gcd(a: nat, b: nat): nat
    decreases b
  {
    if b == 0 then a else Gcd(b, a % b)
  }

  lemma {:induction false} GcdDivides(a: nat, b: nat)
    ensures Divides(Gcd(a, b), a) && Divides(Gcd(a, b), b)
    decreases b
  {
    if b == 0 {
      if a != 0 { DividesIntro(a, a, 1); }
    } else {
      var g := Gcd(b, a % b);
      GcdDivides(b, a % b);
      assert g != 0;
      var u, v := b / g, (a % b) / g;
      DividesElim(g, b);
      DividesElim(g, a % b);
      calc {
        a;
        (a / b) * b + a % b;
        (a / b) * (g * u) + g * v;
        g * ((a / b) * u + v);
      }
      DividesIntro(g, a, (a / b) * u + v);
    }
  }

  /** One step of the extended Euclidean algorithm: coefficients for
      `(b, r)` give coefficients for `(a, b)` when `a == q * b + r`. */
  lemma BezoutStep(a: int, b: int, q: int, r: int, x: int, y: int)
    requires a == q * b + r
    ensures y * a + (x - q * y) * b == x * b + y * r
  {
    calc {
      y * a + (x - q * y) * b;
      y * (q * b + r) + x * b - (q * y) * b;
      y * (q * b) + y * r + x * b - (q * y) * b;
      { assert y * (q * b) == (q * y) * b; }
      x * b + y * r;
    }
  }

  /** Bezout coefficients: `c.0 * a + c.1 * b == Gcd(a, b)`. */
  function Bezout(a: nat, b: nat): (c: (int, int))
    ensures c.0 * a + c.1 * b == Gcd(a, b)
    decreases b
  {
    if b == 0 then (1, 0)
    else
      var inner := Bezout(b, a % b);
      var q, r := a / b, a % b;
      BezoutStep(a, b, q, r, inner.0, inner.1);
      (inner.1, inner.0 - q * inner.1)
  }

  /** `math.gcd` on integers. */
  function IntGcd(x: int, y: int): nat {
    Gcd(Abs(x), Abs(y))
  }

  /** `reduce(math.gcd, (x, y, z))`. */
  function Gcd3(x: int, y: int, z: int): nat {
    IntGcd(IntGcd(x, y), z)
  }

  lemma Gcd3Divides(x: int, y: int, z: int)
    ensures Divides(Gcd3(x, y, z), x) && Divides(Gcd3(x, y, z), y) && Divides(Gcd3(x, y, z), z)
  {
    var h := IntGcd(x, y);
    var g := Gcd3(x, y, z);
    GcdDivides(Abs(x), Abs(y));
    GcdDivides(h, Abs(z));
    DividesAbs(h, x); DividesAbs(h, y); DividesAbs(g, z);
    DividesTrans(g, h, x);
    DividesTrans(g, h, y);
  }

  lemma Gcd3Positive(x: int, y: int, z: int)
    requires z != 0
    ensures Gcd3(x, y, z) > 0
  {
    Gcd3Divides(x, y, z);
  }

  /** `c * x` with the sign of `x` folded into the coefficient. */
  lemma SignFold(c: int, x: int)
    ensures (c * Sign(x)) * x == c * Abs(x)
  {
    if x < 0 {
      assert (c * -1) * x == c * (-x);
    }
  }

  lemma Bezout3Combine(x: int, y: int, z: int, u: int, v: int, s: int, t: int, h: int, g: int)
    requires u * Abs(x) + v * Abs(y) == h
    requires s * h + t * Abs(z) == g
    ensures (s * u * Sign(x)) * x + (s * v * Sign(y)) * y + (t * Sign(z)) * z == g
  {
    SignFold(s * u, x);
    SignFold(s * v, y);
    SignFold(t, z);
    var p, q := Abs(x), Abs(y);
    assert (s * u) * p + (s * v) * q == s * (u * p + v * q);
  }

  /** Bezout coefficients for three numbers: `c.0 * x + c.1 * y + c.2 * z == Gcd3(x, y, z)`. */
  function Bezout3(x: int, y: int, z: int): (c: (int, int, int))
    ensures c.0 * x + c.1 * y + c.2 * z == Gcd3(x, y, z)
  {
    var uv := Bezout(Abs(x), Abs(y));
    var st := Bezout(IntGcd(x, y), Abs(z));
    Bezout3Combine(x, y, z, uv.0, uv.1, st.0, st.1, IntGcd(x, y), Gcd3(x, y, z));
    (st.0 * uv.0 * Sign(x), st.0 * uv.1 * Sign(y), st.1 * Sign(z))
  }

  /** Dividing a combination equal to a common divisor `g` by `g` gives one. */
  lemma DivideCombination(g: int, x: int, y: int, z: int, a: int, b: int, c: int)
    requires g > 0 && Divides(g, x) && Divides(g, y) && Divides(g, z)
    requires a * x + b * y + c * z == g
    ensures a * (x / g) + b * (y / g) + c * (z / g) == 1
  {
    var x', y', z' := x / g, y / g, z / g;
    DividesElim(g, x); DividesElim(g, y); DividesElim(g, z);
    calc {
      g * (a * x' + b * y' + c * z');
      a * (g * x') + b * (g * y') + c * (g * z');
      g * 1;
    }
    MulCancel(g, a * x' + b * y' + c * z', 1);
  }

  /** Three numbers with an integer combination equal to one have gcd one. */
  lemma CoprimeFromCombination(x: int, y: int, z: int, a: int, b: int, c: int)
    requires z != 0 && a * x + b * y + c * z == 1
    ensures Gcd3(x, y, z) == 1
  {
    var h := Gcd3(x, y, z);
    Gcd3Divides(x, y, z);
    Gcd3Positive(x, y, z);
    DividesCombination(h, x, y, z, a, b, c);
    DividesElim(h, 1);
    UnitFactor(h, 1 / h);
  }

  /** After dividing three numbers by their gcd, the gcd of what is left is one. */
  lemma ReducedCoprime(x: int, y: int, z: int)
    requires z != 0
    ensures var g := Gcd3(x, y, z);
      g > 0 && Gcd3(x / g, y / g, z / g) == 1
  {
    var g := Gcd3(x, y, z);
    Gcd3Positive(x, y, z);
    Gcd3Divides(x, y, z);
    var c := Bezout3(x, y, z);
    DivideCombination(g, x, y, z, c.0, c.1, c.2);
    DividesElim(g, z);
    assert z / g != 0;
    CoprimeFromCombination(x / g, y / g, z / g, c.0, c.1, c.2);
  }

  /** A gcd of one means some integer combination of the three numbers is one. */
  lemma CoprimeCombination(x: int, y: int, z: int) returns (a: int, b: int, c: int)
    requires Gcd3(x, y, z) == 1
    ensures a * x + b * y + c * z == 1
  {
    var t := Bezout3(x, y, z);
    a, b, c := t.0, t.1, t.2;
  }

  /** `k` divides each of `x`, `y` and `z`. */
  predicate CommonDivisor(k: int, x: int, y: int, z: int) {
    Divides(k, x) && Divides(k, y) && Divides(k, z)
  }

  /** No common factor above one: what `gcd(x, y, z) == 1` means. */
  ghost predicate Coprime3(x: int, y: int, z: int) {
    forall k: int :: k > 1 ==> !CommonDivisor(k, x, y, z)
  }

  /** Every common divisor divides the gcd. */
  lemma CommonDivisorDividesGcd3(k: int, x: int, y: int, z: int)
    ensures CommonDivisor(k, x, y, z) ==> Divides(k, Gcd3(x, y, z))
  {
    var c := Bezout3(x, y, z);
    if CommonDivisor(k, x, y, z) {
      DividesCombination(k, x, y, z, c.0, c.1, c.2);
    }
  }

  lemma DividesOneBound(k: int)
    ensures Divides(k, 1) ==> k <= 1
  {
    if Divides(k, 1) {
      DividesElim(k, 1);
      MulMagnitude(k, 1 / k);
    }
  }

  /** The gcd is one exactly when there is no common factor above one. */
  lemma CoprimeIffGcdOne(x: int, y: int, z: int)
    requires z != 0
    ensures Coprime3(x, y, z) <==> Gcd3(x, y, z) == 1
  {
    var g := Gcd3(x, y, z);
    Gcd3Divides(x, y, z);
    Gcd3Positive(x, y, z);
    assert CommonDivisor(g, x, y, z);
    if g == 1 {
      forall k: int | k > 1
        ensures !CommonDivisor(k, x, y, z)
      {
        CommonDivisorDividesGcd3(k, x, y, z);
        DividesOneBound(k);
      }
    }
  }

  // ---------------------------------------------------------------------
  // Floor division and integer square root

  /** Python's `a // n`, which rounds toward minus infinity. */
  function FloorDiv(a: int, n: int): (q: int)
    requires n != 0
    ensures n > 0 ==> n * q <= a < n * q + n
    ensures n < 0 ==> n * q + n < a <= n * q
  {
    if n > 0 then a / n else (-a) / (-n)
  }

  lemma FloorDivExact(a: int, n: int)
    requires n != 0 && Divides(n, a)
    ensures a == n * FloorDiv(a, n)
  {
    DividesElim(n, a);
    var m, q := a / n, FloorDiv(a, n);
    assert n * (m - q) == n * m - n * q;
    SmallMultiple(n, m - q);
  }

  lemma ISqrtStep(n: nat, t: nat)
    requires n >= 4 && t * t <= n / 4 < (t + 1) * (t + 1)
    ensures (2 * t) * (2 * t) <= n < (2 * t + 2) * (2 * t + 2)
  {
    assert (2 * t) * (2 * t) == 4 * (t * t);
    assert (2 * t + 2) * (2 * t + 2) == 4 * ((t + 1) * (t + 1));
  }

  /** The exact integer square root: the largest `s` with `s * s <= n`. */
  function ISqrt(n: nat): (s: nat)
    ensures s * s <= n < (s + 1) * (s + 1)
    decreases n
  {
    if n < 4 then (if n == 0 then 0 else 1)
    else
      var t := ISqrt(n / 4);
      ISqrtStep(n, t);
      var h := 2 * t;
      if (h + 1) * (h + 1) <= n then h + 1 else h
  }

  /** The exact replacement for `sq == int(sq)` with `sq = math.sqrt(n)`. */
  predicate IsPerfectSquare(n: nat) {
    ISqrt(n) * ISqrt(n) == n
  }

  lemma PosFactor(p: int, x: int)
    requires p >= 0 && p * x > 0
    ensures x > 0
  {
  }

  lemma SquareLtMonotone(a: nat, b: nat)
    requires a * a < b * b
    ensures a < b
  {
    assert (b - a) * (b + a) == b * b - a * a;
    PosFactor(b + a, b - a);
  }

  lemma SquareLeMonotone(a: nat, b: nat)
    requires a * a <= b * b
    ensures a <= b
  {
    assert (b - a) * (b + a) == b * b - a * a;
    if a + b > 0 {
      assert (b + a) * (b - a) >= 0;
    }
  }

  /** The square root of a square is its root: `IsPerfectSquare` holds exactly of the squares. */
  lemma ISqrtOfSquare(k: nat)
    ensures ISqrt(Square(k)) == k && IsPerfectSquare(Square(k))
  {
    var s := ISqrt(k * k);
    SquareLtMonotone(k, s + 1);
    SquareLeMonotone(s, k);
  }

  /** The integer square root is the only `s` with `s^2 <= n < (s + 1)^2`. */
  lemma ISqrtUnique(n: nat, s: nat)
    requires s * s <= n < (s + 1) * (s + 1)
    ensures ISqrt(n) == s
  {
    var t := ISqrt(n);
    SquareLtMonotone(t, s + 1);
    SquareLtMonotone(s, t + 1);
  }
}
