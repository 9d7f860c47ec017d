/** `ContFraction`: the simple continued fraction of a quadratic irrational,
    computed by the complete-quotient recurrence `alpha' = 1 / (alpha - floor(alpha))`
    until a complete quotient repeats, and the convergents computed from it. */
module ContFractions {
  import opened NumberTheory
  import opened Irrationals
  import Fractions
  import Arith
  import opened Orbits

  type Fraction = Fractions.Fraction

  /** A value the expansion accepts: a nonzero irrational part over a
      radicand that is not a perfect square. */
  predicate IsQuadratic(f: Fraction) {
    f.num.coeff != 0 && !IsPerfectSquare(f.num.rad)
  }

  /** A canonical form keeps a nonzero coefficient nonzero. */
  lemma CoeffKept(n: Irrational, d: int, f: Fraction)
    requires n.coeff != 0 && Fractions.SameRatio(n, d, f.num, f.denom)
    ensures f.num.coeff != 0
  {
    Fractions.NonzeroProduct(n.coeff, f.denom);
  }

  /** One step of `expand`: `(alpha - a).flip()` with `a = alpha.floor()`.
      The inversion never divides by zero, and the step stays quadratic. */
  function Next(alpha: Fraction): (r: Fraction)
    requires IsQuadratic(alpha)
    ensures IsQuadratic(r) && r.num.rad == alpha.num.rad
  {
    var a := Fractions.Floor(alpha);
    var m := Fractions.AddInt(alpha, -a);
    CoeffKept(Irrationals.AddInt(alpha.num, -a * alpha.denom), alpha.denom, m);
    NormNonzero(m.num);
    var r := Fractions.Flip(m).value;
    Fractions.NonzeroProduct(m.num.coeff, m.denom);
    CoeffKept(Irrationals.MulInt(Conj(m.num), m.denom), Norm(m.num), r);
    r
  }

  /** What a step means: `alpha = floor(alpha) + 1 / next`, and every
      complete quotient after the first exceeds one. */
  lemma NextValue(alpha: Fraction, root: real)
    requires IsQuadratic(alpha) && root >= 0.0 && root * root == alpha.num.rad as real
    ensures Fractions.Value(Next(alpha), root) > 1.0
    ensures Fractions.Value(alpha, root)
         == Fractions.Floor(alpha) as real + 1.0 / Fractions.Value(Next(alpha), root)
  {
    var a := Fractions.Floor(alpha);
    var m := Fractions.AddInt(alpha, -a);
    CoeffKept(Irrationals.AddInt(alpha.num, -a * alpha.denom), alpha.denom, m);
    NormNonzero(m.num);
    Fractions.AddIntValue(alpha, -a, root);
    Fractions.FloorValueBounds(alpha, root);
    Fractions.FlipValue(m, root);
    ReciprocalAboveOne(Fractions.Value(m, root), Fractions.Value(Next(alpha), root),
                       Fractions.Value(alpha, root), a as real);
  }

  lemma ReciprocalAboveOne(x: real, y: real, v: real, a: real)
    requires y * x == 1.0 && x == v + -a && a <= v < a + 1.0
    ensures y > 1.0 && v == a + 1.0 / y
  {
    assert 0.0 < x < 1.0;
    assert 1.0 / y == x;
    assert y <= 1.0 ==> y * x < 1.0;
  }

  /** One step of the recurrence as a total map (it leaves anything else as
      it is, which never happens along an orbit of a quadratic value). */
  function Step(f: Fraction): Fraction {
    if IsQuadratic(f) then Next(f) else f
  }

  /** The complete quotient after `n` steps. */
  function Orbit(alpha: Fraction, n: nat): Fraction {
    Iterate(Step, alpha, n)
  }

  /** Every complete quotient is again quadratic, over the same radicand, and
      the next one is `Next` of it. */
  lemma {:induction false} OrbitQuadratic(alpha: Fraction, n: nat)
    requires IsQuadratic(alpha)
    ensures IsQuadratic(Orbit(alpha, n)) && Orbit(alpha, n).num.rad == alpha.num.rad
    ensures Orbit(alpha, n + 1) == Next(Orbit(alpha, n))
  {
    if n > 0 {
      OrbitQuadratic(alpha, n - 1);
    }
    IterateStep(Step, alpha, n);
  }

  // ---------------------------------------------------------------------
  // expand

  /** The expansion `(tuple(main_lst), period_idx)`: the terms up to the first
      repeat and the index where the period starts. */
  datatype Expansion = Expansion(terms: seq<int>, periodIdx: nat)

  predicate Distinct(s: seq<Fraction>) {
    forall i, j :: 0 <= i < j < |s| ==> s[i] != s[j]
  }

  /** `e` is the expansion of `alpha`: the orbit of `alpha` first repeats
      after `|e.terms|` steps, returning to the complete quotient of step
      `e.periodIdx`, and the terms are the floors of the complete quotients
      before the repeat. */
  ghost predicate IsExpansionOf(alpha: Fraction, e: Expansion) {
    && FirstRepeat(Step, alpha, |e.terms|, e.periodIdx)
    && (forall i :: 0 <= i < |e.terms| ==> e.terms[i] == Fractions.Floor(Orbit(alpha, i)))
  }

  /** The expansion is determined by the value: there is at most one. */
  lemma ExpansionUnique(alpha: Fraction, e1: Expansion, e2: Expansion)
    requires IsExpansionOf(alpha, e1) && IsExpansionOf(alpha, e2)
    ensures e1 == e2
  {
    FirstRepeatUnique(Step, alpha, |e1.terms|, e1.periodIdx, |e2.terms|, e2.periodIdx);
    assert e1.terms == e2.terms;
  }

  /** `alpha_lst.index(x)`: the first position of `x`, or `|s|` when `x` is
      absent (where the library's `x in alpha_lst` is false). */
  function FirstIndex(s: seq<Fraction>, x: Fraction): (k: nat)
    ensures k <= |s|
    ensures k < |s| ==> s[k] == x
    ensures forall i :: 0 <= i < k ==> s[i] != x
  {
    if |s| == 0 then 0
    else if s[0] == x then 0
    else 1 + FirstIndex(s[1..], x)
  }

  /** What `expand` leaves behind, for `alpha0` and a step bound `fuel`: the
      history `alpha_lst` holds the first complete quotients, pairwise
      distinct; a completed expansion is the expansion of `alpha0`, with as
      many terms as history entries; running out of steps is `OutOfFuel`. */
  ghost predicate ExpandOutcome(alpha0: Fraction, fuel: nat, r: Result<Expansion>, history: seq<Fraction>)
    requires IsQuadratic(alpha0)
  {
    && 1 <= |history|
    && (forall i :: 0 <= i < |history| ==> history[i] == Orbit(alpha0, i))
    && Distinct(history)
    && (r.Err? ==> r.error == OutOfFuel && |history| == fuel + 1)
    && (r.Ok? ==> |r.value.terms| == |history| && IsExpansionOf(alpha0, r.value))
  }

  /** `expand`: follow the complete quotients, recording each and its floor,
      until the next one is already recorded. The library loops without a
      bound; here at most `fuel` steps are taken. */
  method Expand(alpha0: Fraction, fuel: nat) returns (r: Result<Expansion>, history: seq<Fraction>)
    requires IsQuadratic(alpha0)
    ensures ExpandOutcome(alpha0, fuel, r, history)
  {
    var alpha := alpha0;
    var a := Fractions.Floor(alpha);
    var terms := [a];
    history := [alpha];
    var steps := 0;
    while steps < fuel
      invariant steps <= fuel
      invariant |terms| == |history| == steps + 1
      invariant forall i :: 0 <= i < |history| ==> history[i] == Orbit(alpha0, i)
      invariant forall i :: 0 <= i < |terms| ==> terms[i] == Fractions.Floor(Orbit(alpha0, i))
      invariant Distinct(history)
      invariant alpha == history[steps] && a == terms[steps]
    {
      OrbitQuadratic(alpha0, steps);
      var newAlpha := Next(alpha);
      var newA := Fractions.Floor(newAlpha);
      var k := FirstIndex(history, newAlpha);
      if k < |history| {
        RepeatCloses(alpha0, history, terms, k);
        r := Ok(Expansion(terms, k));
        return;
      }
      history := history + [newAlpha];
      terms := terms + [newA];
      alpha, a := newAlpha, newA;
      steps := steps + 1;
    }
    r := Err(OutOfFuel);
  }

  /** A recorded history whose next complete quotient is already in it at
      position `k` gives the expansion with period index `k`. */
  lemma RepeatCloses(alpha0: Fraction, history: seq<Fraction>, terms: seq<int>, k: nat)
    requires |terms| == |history| && k < |history|
    requires forall i :: 0 <= i < |history| ==> history[i] == Orbit(alpha0, i)
    requires forall i :: 0 <= i < |terms| ==> terms[i] == Fractions.Floor(Orbit(alpha0, i))
    requires Distinct(history) && Orbit(alpha0, |history|) == history[k]
    ensures IsExpansionOf(alpha0, Expansion(terms, k))
  {
    RunRepeats(Step, alpha0, history, k);
  }

  /** A run of complete quotients, each the step of the one before, leading
      back to position `k`. */
  ghost predicate IsCycle(alpha: Fraction, h: seq<Fraction>, k: nat) {
    && 1 <= |h| && h[0] == alpha && k < |h|
    && (forall i :: 0 <= i < |h| ==> IsQuadratic(h[i]))
    && (forall i :: 0 <= i < |h| - 1 ==> Next(h[i]) == h[i + 1])
    && Next(h[|h| - 1]) == h[k]
  }

  lemma {:induction false} CycleOrbit(alpha: Fraction, h: seq<Fraction>, k: nat, i: nat)
    requires IsCycle(alpha, h, k) && i <= |h|
    ensures Orbit(alpha, i) == if i < |h| then h[i] else h[k]
    decreases i
  {
    if i > 0 {
      CycleOrbit(alpha, h, k, i - 1);
      OrbitQuadratic(alpha, i - 1);
    }
  }

  /** A run of pairwise distinct complete quotients that closes on itself
      gives the expansion: the floors along the run, period index `k`. */
  lemma ExpansionOfCycle(alpha: Fraction, h: seq<Fraction>, k: nat, terms: seq<int>)
    requires IsCycle(alpha, h, k) && Distinct(h)
    requires |terms| == |h| && forall i :: 0 <= i < |h| ==> terms[i] == Fractions.Floor(h[i])
    ensures IsExpansionOf(alpha, Expansion(terms, k))
  {
    forall i | 0 <= i <= |h|
      ensures Orbit(alpha, i) == if i < |h| then h[i] else h[k]
    {
      CycleOrbit(alpha, h, k, i);
    }
    RepeatCloses(alpha, h, terms, k);
  }

  /** With at least as many steps as the expansion has terms, `expand`
      completes, and with the expansion. */
  lemma ExpandCompletes(alpha0: Fraction, e: Expansion, fuel: nat, r: Result<Expansion>, history: seq<Fraction>)
    requires IsQuadratic(alpha0) && IsExpansionOf(alpha0, e) && fuel >= |e.terms|
    requires ExpandOutcome(alpha0, fuel, r, history)
    ensures r == Ok(e)
  {
    DistinctPrefixBound(Step, alpha0, |e.terms|, e.periodIdx, history);
    if r.Ok? {
      ExpansionUnique(alpha0, r.value, e);
    }
  }

  // ---------------------------------------------------------------------
  // The constructor

  /** The object `ContFraction(irr)`: the value as a fraction and its expansion. */
  datatype ContFraction = ContFraction(irr: Fraction, expansion: Expansion)

  /** What `ContFraction(irr)` may produce, within `fuel` expansion steps: a
      plain integer raises NonIrrationalError; otherwise the operand as a
      fraction raises ZeroCoefficientError when its coefficient is zero, then
      PerfectSquareError when its radicand is a perfect square; otherwise the
      object holds the operand and its expansion, and running out of steps
      happens only when the expansion is longer than `fuel`. */
  ghost predicate ConstructOutcome(x: Arith.Num, fuel: nat, r: Result<ContFraction>) {
    if x.Int? then r == Err(NonIrrational)
    else
      var irr := Arith.ToFraction(x, Arith.Radicand(x));
      if irr.num.coeff == 0 then r == Err(ZeroCoefficient)
      else if IsPerfectSquare(irr.num.rad) then r == Err(PerfectSquare)
      else
        && (r.Ok? ==> r.value.irr == irr && IsExpansionOf(irr, r.value.expansion))
        && (r.Err? ==> r.error == OutOfFuel && forall e :: IsExpansionOf(irr, e) ==> |e.terms| > fuel)
  }

  /** `ContFraction(irr)`: the type and value checks, then `expand`. */
  method NewContFraction(x: Arith.Num, fuel: nat) returns (r: Result<ContFraction>)
    ensures ConstructOutcome(x, fuel, r)
  {
    if x.Int? {
      return Err(NonIrrational);
    }
    var irr := Arith.ToFraction(x, Arith.Radicand(x));
    if irr.num.coeff == 0 {
      return Err(ZeroCoefficient);
    }
    if IsPerfectSquare(irr.num.rad) {
      return Err(PerfectSquare);
    }
    var e, history := Expand(irr, fuel);
    if e.Err? {
      forall e' | IsExpansionOf(irr, e')
        ensures |e'.terms| > fuel
      {
        DistinctPrefixBound(Step, irr, |e'.terms|, e'.periodIdx, history);
      }
      return Err(e.error);
    }
    r := Ok(ContFraction(irr, e.value));
  }

  /** With enough steps the constructor succeeds, holding the expansion. */
  lemma ConstructCompletes(x: Arith.Num, fuel: nat, r: Result<ContFraction>, e: Expansion)
    requires !x.Int? && IsQuadratic(Arith.ToFraction(x, Arith.Radicand(x)))
    requires IsExpansionOf(Arith.ToFraction(x, Arith.Radicand(x)), e) && fuel >= |e.terms|
    requires ConstructOutcome(x, fuel, r)
    ensures r == Ok(ContFraction(Arith.ToFraction(x, Arith.Radicand(x)), e))
  {
    if r.Ok? {
      ExpansionUnique(r.value.irr, r.value.expansion, e);
    }
  }

  // ---------------------------------------------------------------------
  // approximate

  /** The floors of all complete quotients, read off the expansion with the
      wrapped index: `approximate` uses the true partial quotients. */
  lemma ExpansionPeriodic(alpha: Fraction, e: Expansion, i: nat)
    requires IsExpansionOf(alpha, e)
    ensures Fractions.Floor(Orbit(alpha, i)) == e.terms[WrapIndex(i, e.periodIdx, |e.terms|)]
  {
    IteratePeriodic(Step, alpha, |e.terms|, e.periodIdx, i);
    WrapIndexBounds(i, e.periodIdx, |e.terms|);
  }

  /** `(p1, p2, q1, q2)` after `k` rounds of the loop in `approximate`. */
  datatype Convergents = Convergents(p1: int, p2: int, q1: int, q2: int)

  function Recurrence(e: Expansion, k: nat): Convergents
    requires 1 <= |e.terms| && e.periodIdx < |e.terms|
  {
    if k == 0 then Convergents(1, e.terms[0], 0, 1)
    else
      var c := Recurrence(e, k - 1);
      var t := e.terms[WrapIndex(k, e.periodIdx, |e.terms|)];
      Convergents(c.p2, t * c.p2 + c.p1, c.q2, t * c.q2 + c.q1)
  }

  /** Consecutive convergents have determinant `-1` or `+1`, alternately;
      so every convergent `p2 / q2` is in lowest terms. */
  lemma {:induction false} RecurrenceDeterminant(e: Expansion, k: nat)
    requires 1 <= |e.terms| && e.periodIdx < |e.terms|
    ensures var c := Recurrence(e, k);
      c.p2 * c.q1 - c.p1 * c.q2 == if k % 2 == 0 then -1 else 1
  {
    if k > 0 {
      RecurrenceDeterminant(e, k - 1);
      var c := Recurrence(e, k - 1);
      var t := e.terms[WrapIndex(k, e.periodIdx, |e.terms|)];
      DeterminantStep(t, c.p1, c.p2, c.q1, c.q2);
      assert (k - 1) % 2 == 0 <==> k % 2 != 0;
    }
  }

  lemma DeterminantStep(t: int, p1: int, p2: int, q1: int, q2: int)
    ensures (t * p2 + p1) * q2 - p2 * (t * q2 + q1) == -(p2 * q1 - p1 * q2)
  {
  }

  /** Every partial quotient the convergents use after the first is at
      least one (the first term counts too when the period starts there). */
  predicate QuotientsPositive(e: Expansion)
    requires 1 <= |e.terms|
  {
    && (forall i :: 1 <= i < |e.terms| ==> e.terms[i] >= 1)
    && (e.periodIdx == 0 ==> e.terms[0] >= 1)
  }

  /** With positive partial quotients the denominators are positive and grow. */
  lemma {:induction false} RecurrenceDenominators(e: Expansion, k: nat)
    requires 1 <= |e.terms| && e.periodIdx < |e.terms| && QuotientsPositive(e)
    ensures var c := Recurrence(e, k); 0 <= c.q1 <= c.q2 && 1 <= c.q2
  {
    if k > 0 {
      RecurrenceDenominators(e, k - 1);
      var c := Recurrence(e, k - 1);
      var w := WrapIndex(k, e.periodIdx, |e.terms|);
      WrapIndexBounds(k, e.periodIdx, |e.terms|);
      GrowthStep(e.terms[w], c.q1, c.q2);
    }
  }

  lemma GrowthStep(t: int, q1: int, q2: int)
    requires t >= 1 && 0 <= q1 <= q2 && 1 <= q2
    ensures q2 <= t * q2 + q1
  {
    MulNonneg(t - 1, q2);
    assert t * q2 == (t - 1) * q2 + q2;
  }

  /** The partial quotients of a quadratic irrational are positive after the
      first: every later complete quotient exceeds one. */
  lemma ExpansionTermsPositive(alpha: Fraction, e: Expansion, root: real)
    requires IsQuadratic(alpha) && IsExpansionOf(alpha, e)
    requires root >= 0.0 && root * root == alpha.num.rad as real
    ensures QuotientsPositive(e)
  {
    forall i | 1 <= i <= |e.terms|
      ensures Fractions.Floor(Orbit(alpha, i)) >= 1
    {
      var prev := Orbit(alpha, i - 1);
      OrbitQuadratic(alpha, i - 1);
      NextValue(prev, root);
      Fractions.FloorValueBounds(Next(prev), root);
    }
    assert Fractions.Floor(Orbit(alpha, |e.terms|)) >= 1;
  }

  /** `approximate(depth, is_fraction=True)`: the `depth`-th convergent `(p, q)`. */
  method Approximate(e: Expansion, depth: nat) returns (p: int, q: int)
    requires 1 <= |e.terms| && e.periodIdx < |e.terms|
    ensures p == Recurrence(e, depth).p2 && q == Recurrence(e, depth).q2
  {
    var n := |e.terms|;
    var p1, p2 := 1, e.terms[0];
    var q1, q2 := 0, 1;
    for i := 1 to depth + 1
      invariant Recurrence(e, i - 1) == Convergents(p1, p2, q1, q2)
    {
      var idx := if i >= e.periodIdx then e.periodIdx + (i - e.periodIdx) % (n - e.periodIdx) else i;
      assert idx == WrapIndex(i, e.periodIdx, n);
      WrapIndexBounds(i, e.periodIdx, n);
      p1, p2 := p2, e.terms[idx] * p2 + p1;
      q1, q2 := q2, e.terms[idx] * q2 + q1;
    }
    p, q := p2, q2;
  }
}
