/** The `__repr__` renderers: decimal numerals as `str(int)` writes them,
    irrationals such as `1 - 2 * sqrt(5)`, fractions such as
    `1 + sqrt(5) / 2`, and continued fractions such as `(5, (2, 1, 1, 2, 10))`.
    The float test in `Irrational.__repr__` (`sq == int(sq)`) is the exact
    perfect-square test, and the `int(str(num))` attempt in
    `Fraction.__repr__` is the integer condition it amounts to, which
    `ShowIrrationalInteger` proves equivalent. */
module Render {
  import opened NumberTheory
  import opened Irrationals
  import Fractions
  import ContFractions

  // ---------------------------------------------------------------------
  // Decimal numerals

  predicate IsDigit(c: char) {
    '0' <= c <= '9'
  }

  predicate AllDigits(s: string) {
    forall i :: 0 <= i < |s| ==> IsDigit(s[i])
  }

  function DigitChar(d: nat): char
    requires d < 10
  {
    ('0' as int + d) as char
  }

  function DigitValue(c: char): nat
    requires IsDigit(c)
  {
    c as int - '0' as int
  }

  /** `str(n)` for `n >= 0`: decimal digits without leading zeros. */
  function NatToString(n: nat): (s: string)
    ensures |s| >= 1 && AllDigits(s)
    ensures s[0] == '0' <==> n == 0
    ensures n == 0 ==> s == "0"
    decreases n
  {
    if n < 10 then [DigitChar(n)] else NatToString(n / 10) + [DigitChar(n % 10)]
  }

  /** The value of a string of decimal digits. */
  function ParseDigits(s: string): nat
    requires AllDigits(s)
  {
    if s == [] then 0 else 10 * ParseDigits(s[..|s| - 1]) + DigitValue(s[|s| - 1])
  }

  lemma {:induction false} NatToStringRoundTrip(n: nat)
    ensures ParseDigits(NatToString(n)) == n
    decreases n
  {
    if n >= 10 {
      NatToStringRoundTrip(n / 10);
      var s := NatToString(n);
      assert s[..|s| - 1] == NatToString(n / 10);
    }
  }

  /** `str(n)`. */
  function IntToString(n: int): string {
    if n < 0 then "-" + NatToString(-n) else NatToString(n)
  }

  /** What `int(s)` accepts among the strings the renderers produce: an
      optional minus sign followed by at least one digit. */
  predicate IsIntLiteral(s: string) {
    if |s| > 0 && s[0] == '-' then |s| > 1 && AllDigits(s[1..]) else |s| > 0 && AllDigits(s)
  }

  /** `int(s)`. */
  function ParseInt(s: string): int
    requires IsIntLiteral(s)
  {
    if s[0] == '-' then -(ParseDigits(s[1..]) as int) else ParseDigits(s)
  }

  /** `int(str(n)) == n`. */
  lemma IntToStringRoundTrip(n: int)
    ensures IsIntLiteral(IntToString(n)) && ParseInt(IntToString(n)) == n
  {
    var s := IntToString(n);
    if n < 0 {
      NatToStringRoundTrip(-n);
      assert s[1..] == NatToString(-n);
    } else {
      NatToStringRoundTrip(n);
    }
  }

  /** A string holding a letter is not an integer literal. */
  lemma LetterNotInteger(s: string, c: char)
    requires c in s && c != '-' && !IsDigit(c)
    ensures !IsIntLiteral(s)
  {
    var i :| 0 <= i < |s| && s[i] == c;
    if |s| > 0 && s[0] == '-' {
      assert s[1..][i - 1] == c;
    }
  }

  // ---------------------------------------------------------------------
  // Joining lists of strings

  /** `''.join(parts)`. */
  function Concat(parts: seq<string>): string {
    if |parts| == 0 then "" else Concat(parts[..|parts| - 1]) + parts[|parts| - 1]
  }

  /** `sep.join(parts)`. */
  function Join(parts: seq<string>, sep: string): string {
    if |parts| == 0 then ""
    else if |parts| == 1 then parts[0]
    else Join(parts[..|parts| - 1], sep) + sep + parts[|parts| - 1]
  }

  lemma JoinSnoc(parts: seq<string>, x: string, sep: string)
    ensures Join(parts + [x], sep) == if |parts| == 0 then x else Join(parts, sep) + sep + x
  {
    assert (parts + [x])[..|parts|] == parts;
  }

  /** A character of one of the parts is a character of the joined string. */
  lemma {:induction false} JoinHolds(parts: seq<string>, sep: string, k: nat, c: char)
    requires k < |parts| && c in parts[k]
    ensures c in Join(parts, sep)
    decreases |parts|
  {
    if k < |parts| - 1 {
      JoinHolds(parts[..|parts| - 1], sep, k, c);
    }
  }

  // ---------------------------------------------------------------------
  // Irrational.__repr__

  /** The value of `x` when it is an integer: its radicand is a perfect
      square (`str(int(self.value()))`), or it has no irrational part. */
  function IntegerValue(x: Irrational): int {
    x.realPart + x.coeff * ISqrt(x.rad)
  }

  /** The `coeff * sqrt(irr)` part; `afterReal` says a real part precedes
      it, so the sign goes into the separator. */
  function SurdPart(x: Irrational, afterReal: bool): string {
    var c := if afterReal then Abs(x.coeff) else x.coeff;
    var factor := if c != -1 && c != 1 then [IntToString(c)] else [];
    var radical := (if !afterReal && x.coeff == -1 then "-" else "") + "sqrt(" + NatToString(x.rad) + ")";
    Join(factor + [radical], " * ")
  }

  /** The radical part always spells `sqrt`, so it holds a letter. */
  lemma SurdPartLetter(x: Irrational, afterReal: bool)
    ensures 's' in SurdPart(x, afterReal)
  {
    var c := if afterReal then Abs(x.coeff) else x.coeff;
    var factor := if c != -1 && c != 1 then [IntToString(c)] else [];
    var radical := (if !afterReal && x.coeff == -1 then "-" else "") + "sqrt(" + NatToString(x.rad) + ")";
    assert radical[|radical| - |NatToString(x.rad)| - 6] == 's';
    JoinHolds(factor + [radical], " * ", |factor|, 's');
  }

  /** `str(x)` for an `Irrational`. An integer-valued `x` renders as its
      value. */
  function ShowIrrational(x: Irrational): (s: string)
    ensures x.coeff == 0 || IsPerfectSquare(x.rad) ==> s == IntToString(IntegerValue(x))
  {
    if IsPerfectSquare(x.rad) then IntToString(IntegerValue(x))
    else
      var head := if x.realPart != 0 then [IntToString(x.realPart)] else [];
      var buffer := head + (if x.coeff != 0 && x.rad != 0 then [SurdPart(x, |head| > 0)] else []);
      var sep := if x.coeff < 0 then " - " else " + ";
      if |buffer| > 0 then Join(buffer, sep) else "0"
  }

  /** The radical part spelled out: the coefficient and ` * ` unless it is
      one or minus one, a bare minus sign for minus one in front, then
      `sqrt(irr)`. */
  lemma SurdPartForm(x: Irrational, afterReal: bool)
    ensures var c := if afterReal then Abs(x.coeff) else x.coeff;
      SurdPart(x, afterReal) ==
        (if c != -1 && c != 1 then IntToString(c) + " * " else "")
        + ((if !afterReal && x.coeff == -1 then "-" else "") + "sqrt(" + NatToString(x.rad) + ")")
  {
    var c := if afterReal then Abs(x.coeff) else x.coeff;
    var radical := (if !afterReal && x.coeff == -1 then "-" else "") + "sqrt(" + NatToString(x.rad) + ")";
    if c != -1 && c != 1 {
      JoinSnoc([IntToString(c)], radical, " * ");
    } else {
      JoinSnoc([], radical, " * ");
      assert [] + [radical] == [radical];
    }
  }

  /** A radicand that is not a square and a nonzero coefficient: the real
      part, if any, then the radical part with its sign moved into the
      separator. */
  lemma ShowIrrationalForm(x: Irrational)
    requires !IsPerfectSquare(x.rad) && x.coeff != 0
    ensures ShowIrrational(x) ==
      if x.realPart != 0 then IntToString(x.realPart) + (if x.coeff < 0 then " - " else " + ") + SurdPart(x, true)
      else SurdPart(x, false)
  {
    assert x.rad != 0 by {
      assert ISqrt(0) == 0;
    }
    var sep := if x.coeff < 0 then " - " else " + ";
    if x.realPart != 0 {
      JoinSnoc([IntToString(x.realPart)], SurdPart(x, true), sep);
    } else {
      assert [] + [SurdPart(x, false)] == [SurdPart(x, false)];
    }
  }

  /** `int(str(x))` succeeds exactly when `x` has no irrational part or a
      perfect-square radicand, and then gives the value of `x`. */
  lemma ShowIrrationalInteger(x: Irrational)
    ensures IsIntLiteral(ShowIrrational(x)) <==> x.coeff == 0 || IsPerfectSquare(x.rad)
    ensures x.coeff == 0 || IsPerfectSquare(x.rad) ==> ParseInt(ShowIrrational(x)) == IntegerValue(x)
  {
    if x.coeff == 0 || IsPerfectSquare(x.rad) {
      IntToStringRoundTrip(IntegerValue(x));
    } else {
      assert x.rad != 0 by {
        assert ISqrt(0) == 0;
      }
      var head := if x.realPart != 0 then [IntToString(x.realPart)] else [];
      var surd := SurdPart(x, |head| > 0);
      var buffer := head + [surd];
      var sep := if x.coeff < 0 then " - " else " + ";
      assert ShowIrrational(x) == Join(buffer, sep);
      SurdPartLetter(x, |head| > 0);
      JoinHolds(buffer, sep, |head|, 's');
      LetterNotInteger(ShowIrrational(x), 's');
    }
  }

  // ---------------------------------------------------------------------
  // Fraction.__repr__

  /** `' / '.join(buffer)` with the denominator left out when it is one. */
  function ShowOver(num: string, denom: int): string {
    Join([num] + (if denom != 1 then [IntToString(denom)] else []), " / ")
  }

  lemma ShowOverForm(num: string, denom: int)
    ensures ShowOver(num, denom) == if denom != 1 then num + " / " + IntToString(denom) else num
  {
    if denom != 1 {
      JoinSnoc([num], IntToString(denom), " / ");
    } else {
      assert [num] + [] == [num];
    }
  }

  /** `n // g` and `d // g` with `g = gcd(n, d)`: the same ratio, in lowest
      terms, with a positive denominator. */
  function Reduce(n: int, d: int): (r: (int, int))
    requires d > 0
    ensures r.1 > 0 && r.0 * d == n * r.1 && IntGcd(r.0, r.1) == 1
  {
    var g := IntGcd(n, d);
    assert g == Gcd3(n, 0, d);
    ReducedCoprime(n, 0, d);
    Gcd3Divides(n, 0, d);
    DividesElim(g, n);
    DividesElim(g, d);
    var p, q := n / g, d / g;
    assert IntGcd(p, q) == Gcd3(p, 0 / g, q);
    assert p * d == p * (g * q) == (g * p) * q == n * q;
    (p, q)
  }

  /** A ratio with a whole value reduces to that value over one. */
  lemma ReduceWhole(n: int, d: int)
    requires d > 0
    ensures Divides(d, n) ==> Reduce(n, d) == (n / d, 1)
  {
    if Divides(d, n) {
      var r := Reduce(n, d);
      var k := n / d;
      DividesElim(d, n);
      WholeCross(r.0, r.1, n, d, k);
      MulCancel(d, r.0, k * r.1);
      DividesIntro(r.1, r.0, k);
      DividesIntro(r.1, 0, 0);
      DividesIntro(r.1, r.1, 1);
      assert IntGcd(r.0, r.1) == Gcd3(r.0, 0, r.1);
      CommonDivisorDividesGcd3(r.1, r.0, 0, r.1);
      DividesOneBound(r.1);
      assert r.1 == 1 && r.0 == k;
    }
  }

  lemma WholeCross(a: int, q: int, n: int, d: int, k: int)
    requires a * d == n * q && n == d * k
    ensures d * a == d * (k * q)
  {
    calc {
      d * a;
      a * d;
      n * q;
      (d * k) * q;
      d * (k * q);
    }
  }

  /** `str(f)` for a `Fraction`: an integer numerator is reduced against the
      denominator first. */
  function ShowFraction(f: Fractions.Fraction): (r: string)
    ensures !(f.num.coeff == 0 || IsPerfectSquare(f.num.rad)) ==>
      r == ShowIrrational(f.num) + (if f.denom != 1 then " / " + IntToString(f.denom) else "")
    ensures (f.num.coeff == 0 || IsPerfectSquare(f.num.rad)) && Divides(f.denom, IntegerValue(f.num)) ==>
      r == IntToString(IntegerValue(f.num) / f.denom)
  {
    ShowOverForm(ShowIrrational(f.num), f.denom);
    ReduceWhole(IntegerValue(f.num), f.denom);
    ShowOverForm(IntToString(IntegerValue(f.num) / f.denom), 1);
    if f.num.coeff == 0 || IsPerfectSquare(f.num.rad) then
      var r := Reduce(IntegerValue(f.num), f.denom);
      ShowOver(IntToString(r.0), r.1)
    else
      ShowOver(ShowIrrational(f.num), f.denom)
  }

  /** The rendered numerator is the rendered irrational whenever that is not
      an integer literal, and the reduced value otherwise. */
  lemma ShowFractionNumerator(f: Fractions.Fraction)
    ensures !IsIntLiteral(ShowIrrational(f.num)) ==> ShowFraction(f) == ShowOver(ShowIrrational(f.num), f.denom)
    ensures IsIntLiteral(ShowIrrational(f.num)) ==>
      var r := Reduce(ParseInt(ShowIrrational(f.num)), f.denom);
      ShowFraction(f) == ShowOver(IntToString(r.0), r.1)
  {
    ShowIrrationalInteger(f.num);
  }

  // ---------------------------------------------------------------------
  // ContFraction.__repr__

  /** `str` of each term. */
  function Numerals(ts: seq<int>): (r: seq<string>)
    ensures |r| == |ts|
  {
    if |ts| == 0 then [] else Numerals(ts[..|ts| - 1]) + [IntToString(ts[|ts| - 1])]
  }

  /** `(a0, ..., ak-1, (ak, ..., an))`: the terms before the period, then
      the period in its own parentheses. */
  function ShowExpansion(e: ContFractions.Expansion): string
    requires e.periodIdx < |e.terms|
  {
    var p := e.periodIdx;
    "(" + Join(Numerals(e.terms[..p]), ", ") + (if p > 0 then ", " else "")
      + "(" + Join(Numerals(e.terms[p..]), ", ") + "))"
  }

  /** What the loop of `__repr__` appends for term `i`: `(` first if the
      period starts there, and `, ` after it unless it is the last. */
  function Piece(e: ContFractions.Expansion, i: nat): string
    requires e.periodIdx < |e.terms| && i < |e.terms|
  {
    (if i == e.periodIdx then "(" else "") + IntToString(e.terms[i]) + (if i != |e.terms| - 1 then ", " else "")
  }

  /** The first `i` terms, each followed by `, `, for `i` up to the period. */
  ghost function Preperiod(e: ContFractions.Expansion, i: nat): string
    requires i <= e.periodIdx < |e.terms|
  {
    Join(Numerals(e.terms[..i]), ", ") + (if i > 0 then ", " else "")
  }

  /** The same text in closed form: the terms before the period, then the
      period's terms so far. */
  ghost function OpeningForm(e: ContFractions.Expansion, i: nat): string
    requires e.periodIdx < |e.terms| && i <= |e.terms|
  {
    var p := e.periodIdx;
    if i <= p then Preperiod(e, i)
    else Preperiod(e, p) + "(" + Join(Numerals(e.terms[p..i]), ", ") + (if i < |e.terms| then ", " else "")
  }

  lemma NumeralsSnoc(ts: seq<int>, a: nat, i: nat)
    requires a <= i < |ts|
    ensures Numerals(ts[a..i + 1]) == Numerals(ts[a..i]) + [IntToString(ts[i])]
  {
    assert ts[a..i + 1][..i - a] == ts[a..i];
  }

  lemma OpeningStep(e: ContFractions.Expansion, i: nat)
    requires e.periodIdx < |e.terms| && i < |e.terms|
    ensures OpeningForm(e, i + 1) == OpeningForm(e, i) + Piece(e, i)
  {
    if i < e.periodIdx {
      OpeningBefore(e, i);
    } else if i == e.periodIdx {
      OpeningAt(e, i);
    } else {
      OpeningAfter(e, i);
    }
  }

  lemma GlueFirst(f0: string, f1: string, x: string, piece: string)
    requires f0 == "" + "" && f1 == x + ", " && piece == "" + x + ", "
    ensures f1 == f0 + piece
  {
  }

  lemma GlueNext(f0: string, f1: string, j: string, x: string, piece: string)
    requires f0 == j + ", " && f1 == j + ", " + x + ", " && piece == "" + x + ", "
    ensures f1 == f0 + piece
  {
  }

  lemma OpeningBefore(e: ContFractions.Expansion, i: nat)
    requires i < e.periodIdx < |e.terms|
    ensures OpeningForm(e, i + 1) == OpeningForm(e, i) + Piece(e, i)
  {
    var ts, x := e.terms, IntToString(e.terms[i]);
    NumeralsSnoc(ts, 0, i);
    assert ts[..i + 1] == ts[0..i + 1] && ts[..i] == ts[0..i];
    JoinSnoc(Numerals(ts[..i]), x, ", ");
    if i == 0 {
      GlueFirst(OpeningForm(e, i), OpeningForm(e, i + 1), x, Piece(e, i));
    } else {
      GlueNext(OpeningForm(e, i), OpeningForm(e, i + 1), Join(Numerals(ts[..i]), ", "), x, Piece(e, i));
    }
  }

  lemma GlueOpen(f0: string, f1: string, x: string, tail: string, piece: string)
    requires f1 == f0 + "(" + x + tail && piece == "(" + x + tail
    ensures f1 == f0 + piece
  {
  }

  lemma OpeningAt(e: ContFractions.Expansion, i: nat)
    requires i == e.periodIdx < |e.terms|
    ensures OpeningForm(e, i + 1) == OpeningForm(e, i) + Piece(e, i)
  {
    var x := IntToString(e.terms[i]);
    assert Numerals(e.terms[i..i + 1]) == [x];
    GlueOpen(OpeningForm(e, i), OpeningForm(e, i + 1), x, if i != |e.terms| - 1 then ", " else "", Piece(e, i));
  }

  lemma GlueAfter(pre: string, j: string, x: string, tail: string, f0: string, f1: string, piece: string)
    requires f0 == pre + "(" + j + ", " && f1 == pre + "(" + (j + ", " + x) + tail
    requires piece == "" + x + tail
    ensures f1 == f0 + piece
  {
  }

  lemma OpeningAfter(e: ContFractions.Expansion, i: nat)
    requires e.periodIdx < i < |e.terms|
    ensures OpeningForm(e, i + 1) == OpeningForm(e, i) + Piece(e, i)
  {
    var p, ts := e.periodIdx, e.terms;
    var x := IntToString(ts[i]);
    var joined := Join(Numerals(ts[p..i]), ", ");
    NumeralsSnoc(ts, p, i);
    JoinSnoc(Numerals(ts[p..i]), x, ", ");
    GlueAfter(Preperiod(e, p), joined, x, if i != |ts| - 1 then ", " else "",
      OpeningForm(e, i), OpeningForm(e, i + 1), Piece(e, i));
  }

  lemma GlueEnd(pre: string, period: string, o: string, show: string, j: string, c: string)
    requires pre == j + c && o == pre + "(" + period + ""
    requires show == "(" + j + c + "(" + period + "))"
    ensures show == "(" + o + "))"
  {
  }

  /** All terms written, the opening is the rendering without its outer
      parentheses. */
  lemma OpeningComplete(e: ContFractions.Expansion)
    requires e.periodIdx < |e.terms|
    ensures ShowExpansion(e) == "(" + OpeningForm(e, |e.terms|) + "))"
  {
    var p, ts := e.periodIdx, e.terms;
    assert ts[p..|ts|] == ts[p..];
    GlueEnd(Preperiod(e, p), Join(Numerals(ts[p..]), ", "), OpeningForm(e, |ts|), ShowExpansion(e),
      Join(Numerals(ts[..p]), ", "), if p > 0 then ", " else "");
  }

  lemma {:induction false} ConcatAppend(a: seq<string>, b: seq<string>)
    ensures Concat(a + b) == Concat(a) + Concat(b)
    decreases |b|
  {
    if |b| > 0 {
      ConcatAppend(a, b[..|b| - 1]);
      assert (a + b)[..|a + b| - 1] == a + b[..|b| - 1];
    } else {
      assert a + b == a;
    }
  }

  /** What one pass of the loop appends to the buffer for term `i`. */
  function PieceList(e: ContFractions.Expansion, i: nat): seq<string>
    requires e.periodIdx < |e.terms| && i < |e.terms|
  {
    (if i == e.periodIdx then ["("] else []) + [IntToString(e.terms[i])] + (if i != |e.terms| - 1 then [", "] else [])
  }

  /** The buffer's pieces after the first `i` terms. */
  function Pieces(e: ContFractions.Expansion, i: nat): seq<string>
    requires e.periodIdx < |e.terms| && i <= |e.terms|
  {
    if i == 0 then [] else Pieces(e, i - 1) + PieceList(e, i - 1)
  }

  lemma ConcatPair(a: string, b: string)
    ensures Concat([a, b]) == a + b
  {
    assert [a, b][..1] == [a];
    ConcatOne(a);
  }

  lemma ConcatTriple(a: string, b: string, c: string)
    ensures Concat([a, b, c]) == a + b + c
  {
    assert [a, b, c][..2] == [a, b];
    ConcatPair(a, b);
  }

  lemma ConcatOne(a: string)
    ensures Concat([a]) == a
  {
    assert [a][..0] == [];
  }

  lemma PieceText(e: ContFractions.Expansion, i: nat)
    requires e.periodIdx < |e.terms| && i < |e.terms|
    ensures Concat(PieceList(e, i)) == Piece(e, i)
  {
    var x := IntToString(e.terms[i]);
    var opens, more := i == e.periodIdx, i != |e.terms| - 1;
    if opens && more {
      assert PieceList(e, i) == ["(", x, ", "];
      ConcatTriple("(", x, ", ");
    } else if opens {
      assert PieceList(e, i) == ["(", x];
      ConcatPair("(", x);
    } else if more {
      assert PieceList(e, i) == [x, ", "];
      ConcatPair(x, ", ");
    } else {
      assert PieceList(e, i) == [x];
      ConcatOne(x);
    }
  }

  /** The pieces of the first `i` terms read as the closed form. */
  lemma {:induction false} PiecesText(e: ContFractions.Expansion, i: nat)
    requires e.periodIdx < |e.terms| && i <= |e.terms|
    ensures Concat(Pieces(e, i)) == OpeningForm(e, i)
    decreases i
  {
    if i > 0 {
      PiecesText(e, i - 1);
      OpeningStep(e, i - 1);
      ConcatAppend(Pieces(e, i - 1), PieceList(e, i - 1));
      PieceText(e, i - 1);
    } else {
      assert OpeningForm(e, 0) == "";
    }
  }

  /** The whole buffer joins to the rendering. */
  lemma BufferText(e: ContFractions.Expansion)
    requires e.periodIdx < |e.terms|
    ensures Concat(["("] + Pieces(e, |e.terms|) + ["))"]) == ShowExpansion(e)
  {
    var body := Pieces(e, |e.terms|);
    ConcatAppend(["("] + body, ["))"]);
    ConcatAppend(["("], body);
    ConcatOne("(");
    ConcatOne("))");
    PiecesText(e, |e.terms|);
    OpeningComplete(e);
  }

  /** `ContFraction.__repr__`: the buffer of pieces, then `''.join`. */
  method ShowContFraction(c: ContFractions.ContFraction) returns (s: string)
    requires c.expansion.periodIdx < |c.expansion.terms|
    ensures s == ShowExpansion(c.expansion)
  {
    var e := c.expansion;
    var buffer := ["("];
    for i := 0 to |e.terms|
      invariant buffer == ["("] + Pieces(e, i)
    {
      if i == e.periodIdx {
        buffer := buffer + ["("];
      }
      buffer := buffer + [IntToString(e.terms[i])];
      if i != |e.terms| - 1 {
        buffer := buffer + [", "];
      }
    }
    buffer := buffer + ["))"];
    BufferText(e);
    s := Concat(buffer);
  }
}
