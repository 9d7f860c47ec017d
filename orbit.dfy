/** Orbits of a map `f`: the points `x, f(x), f(f(x)), ...`, the first
    repeat along an orbit, and the periodic indexing that a repeat induces.
    The continued-fraction expansion follows the orbit of the complete
    quotient under one step of the recurrence. */
module Orbits {
  import NumberTheory

  function Iterate<T>(f: T -> T, x: T, n: nat): T {
    if n == 0 then x else f(Iterate(f, x, n - 1))
  }

  lemma IterateStep<T>(f: T -> T, x: T, m: nat)
    ensures Iterate(f, x, m + 1) == f(Iterate(f, x, m))
  {
  }

  /** The orbit is determined by its current point: two steps that meet stay
      together. */
  lemma {:induction false} IterateShift<T>(f: T -> T, x: T, i: nat, j: nat, k: nat)
    requires Iterate(f, x, i) == Iterate(f, x, j)
    ensures Iterate(f, x, i + k) == Iterate(f, x, j + k)
    decreases k
  {
    if k > 0 {
      IterateShift(f, x, i, j, k - 1);
      IterateStep(f, x, i + (k - 1));
      IterateStep(f, x, j + (k - 1));
    }
  }

  /** The first `n` points of the orbit are pairwise distinct, and the next
      one is the point of step `p`. */
  ghost predicate FirstRepeat<T>(f: T -> T, x: T, n: nat, p: nat) {
    && p < n
    && (forall i, j :: 0 <= i < j < n ==> Iterate(f, x, i) != Iterate(f, x, j))
    && Iterate(f, x, n) == Iterate(f, x, p)
  }

  /** A run of points along the orbit that reaches step `n` holds the
      repeated point twice. */
  lemma PrefixRepeats<T>(f: T -> T, x: T, n: nat, p: nat, s: seq<T>)
    requires p < n && Iterate(f, x, n) == Iterate(f, x, p)
    requires forall i :: 0 <= i < |s| ==> s[i] == Iterate(f, x, i)
    ensures |s| > n ==> s[p] == s[n]
  {
  }

  /** A distinct run of points along the orbit stops at the first repeat. */
  lemma DistinctPrefixBound<T>(f: T -> T, x: T, n: nat, p: nat, s: seq<T>)
    requires FirstRepeat(f, x, n, p)
    requires forall i :: 0 <= i < |s| ==> s[i] == Iterate(f, x, i)
    requires forall i, j :: 0 <= i < j < |s| ==> s[i] != s[j]
    ensures |s| <= n
  {
    PrefixRepeats(f, x, n, p, s);
  }

  /** A distinct run of points along the orbit whose next point is already
      in it, at position `k`, ends at the first repeat. */
  lemma RunRepeats<T>(f: T -> T, x: T, s: seq<T>, k: nat)
    requires k < |s|
    requires forall i :: 0 <= i < |s| ==> s[i] == Iterate(f, x, i)
    requires forall i, j :: 0 <= i < j < |s| ==> s[i] != s[j]
    requires Iterate(f, x, |s|) == s[k]
    ensures FirstRepeat(f, x, |s|, k)
  {
    forall i, j | 0 <= i < j < |s|
      ensures Iterate(f, x, i) != Iterate(f, x, j)
    {
      assert s[i] != s[j];
    }
  }

  /** The first repeat is unique. */
  lemma FirstRepeatUnique<T>(f: T -> T, x: T, n1: nat, p1: nat, n2: nat, p2: nat)
    requires FirstRepeat(f, x, n1, p1) && FirstRepeat(f, x, n2, p2)
    ensures n1 == n2 && p1 == p2
  {
    var a1, a2, b1, b2 := Iterate(f, x, n1), Iterate(f, x, n2), Iterate(f, x, p1), Iterate(f, x, p2);
    assert n1 < n2 ==> b1 != a1;
    assert n2 < n1 ==> b2 != a2;
    assert p1 < p2 ==> b1 != b2;
    assert p2 < p1 ==> b2 != b1;
  }

  /** The index of step `i` once the orbit cycles through the steps `[p, n)`. */
  function WrapIndex(i: nat, p: nat, n: nat): (r: nat)
    requires p < n
    ensures r < n
    ensures r < p ==> r == i
  {
    if i >= p then p + (i - p) % (n - p) else i
  }

  /** The wrapped index stays in the cycle, and is `i` itself while `i` is in
      range. */
  lemma WrapIndexBounds(i: nat, p: nat, n: nat)
    requires p < n
    ensures i >= p ==> p <= WrapIndex(i, p, n) < n
    ensures i < n ==> WrapIndex(i, p, n) == i
  {
    if p <= i < n {
      assert (i - p) % (n - p) == i - p;
    }
  }

  lemma ModShift(x: nat, m: nat)
    requires m > 0
    ensures (x + m) % m == x % m
  {
    var q1, r1, q, r := (x + m) / m, (x + m) % m, x / m, x % m;
    assert m * (q1 - q - 1) == r - r1;
    NumberTheory.SmallMultiple(m, q1 - q - 1);
  }

  /** One cycle further on, the wrapped index is the same. */
  lemma WrapIndexPeriod(i: nat, p: nat, n: nat)
    requires p < n && i >= p
    ensures WrapIndex(i + (n - p), p, n) == WrapIndex(i, p, n)
  {
    ModShift(i - p, n - p);
    assert i + (n - p) - p == (i - p) + (n - p);
  }

  /** After the first repeat the orbit cycles: every point is the point of
      the wrapped index. */
  lemma {:induction false} IteratePeriodic<T>(f: T -> T, x: T, n: nat, p: nat, i: nat)
    requires FirstRepeat(f, x, n, p)
    ensures Iterate(f, x, i) == Iterate(f, x, WrapIndex(i, p, n))
    decreases i
  {
    WrapIndexBounds(i, p, n);
    if i >= n {
      var j := i - (n - p);
      IteratePeriodic(f, x, n, p, j);
      IterateShift(f, x, n, p, j - p);
      assert n + (j - p) == i && p + (j - p) == j;
      WrapIndexPeriod(j, p, n);
    }
  }
}
