/** The `Fraction` record of templates/Fraction.java: a pair of 32-bit ints, compared
    structurally (2/4 and 1/2 are different records). No operation normalises the sign, and
    only `times` and `divide` divide out the gcd. */
module Fractions {
  import opened Arith
  import opened JavaInt
  import opened Wrappers
  import opened MathUtil

  datatype Fraction = Fraction(numerator: int, denominator: int)

  const ZERO: Fraction := Fraction(0, 1)
  const ONE: Fraction := Fraction(1, 1)

  /** Both components are Java `int`s. */
  predicate InRange(f: Fraction) {
    IsInt(f.numerator) && IsInt(f.denominator)
  }

  /** The rational number a fraction with a non-zero denominator stands for. */
  function Value(f: Fraction): real
    requires f.denominator != 0
  {
    f.numerator as real / f.denominator as real
  }

  /** `reciprocal()`: swaps the components, so the product of the two values is one. */
  function Reciprocal(f: Fraction): (r: Fraction)
    ensures r.numerator == f.denominator && r.denominator == f.numerator
    ensures f.numerator != 0 && f.denominator != 0 ==> Value(r) * Value(f) == 1.0
  {
    Fraction(f.denominator, f.numerator)
  }

  /** `isZero()`: tests the numerator only, which is exactly a zero value when the
      denominator is non-zero. */
  predicate IsZero(f: Fraction)
    ensures f.denominator != 0 ==> (IsZero(f) <==> Value(f) == 0.0)
  {
    f.numerator == 0
  }

  /** `plus` and `minus`: both fractions are brought to `lcm(d1, d2)` as denominator, with the
      32-bit wrap-around of every product and of the sum; the result is not reduced.
      The division `lcm / d` throws when a denominator is zero. */
  function CommonDenominator(f: Fraction, g: Fraction, subtract: bool): (r: Result<Fraction>)
    requires InRange(f) && InRange(g)
    ensures r.Err? <==> f.denominator == 0 || g.denominator == 0
    ensures r.Err? ==> r.error == Arithmetic
    ensures r.Ok? ==> InRange(r.value)
  {
    var l :- LcmInt(f.denominator, g.denominator);
    if f.denominator == 0 || g.denominator == 0 then Err(Arithmetic)
    else
      var a := Wrap32(f.numerator * Wrap32(Div(l, f.denominator)));
      var b := Wrap32(g.numerator * Wrap32(Div(l, g.denominator)));
      Ok(Fraction(if subtract then Wrap32(a - b) else Wrap32(a + b), l))
  }

  /** `plus`: the sum over the least common denominator; never reduced. */
  function Plus(f: Fraction, g: Fraction): (r: Result<Fraction>)
    requires InRange(f) && InRange(g)
    ensures r.Err? <==> f.denominator == 0 || g.denominator == 0
    ensures r.Err? ==> r.error == Arithmetic
    ensures r.Ok? ==> InRange(r.value)
    ensures SumFits(f, g, false) ==>
              r.Ok? && r.value.denominator == ExactLcm(f.denominator, g.denominator) &&
              r.value.denominator != 0 && Value(r.value) == Value(f) + Value(g)
  {
    SumValue(f, g, false);
    CommonDenominator(f, g, false)
  }

  /** `minus`: the difference over the least common denominator; never reduced. */
  function Minus(f: Fraction, g: Fraction): (r: Result<Fraction>)
    requires InRange(f) && InRange(g)
    ensures r.Err? <==> f.denominator == 0 || g.denominator == 0
    ensures r.Err? ==> r.error == Arithmetic
    ensures r.Ok? ==> InRange(r.value)
    ensures SumFits(f, g, true) ==>
              r.Ok? && r.value.denominator == ExactLcm(f.denominator, g.denominator) &&
              r.value.denominator != 0 && Value(r.value) == Value(f) - Value(g)
  {
    SumValue(f, g, true);
    CommonDenominator(f, g, true)
  }

  /** No intermediate of `plus`/`minus` leaves the `int` range. */
  ghost predicate SumFits(f: Fraction, g: Fraction, subtract: bool) {
    var d1, d2 := f.denominator, g.denominator;
    d1 != 0 && d2 != 0 && IsInt(d1 * d2) && d1 * d2 != INT_MIN &&
    var l := ExactLcm(d1, d2);
    var a := f.numerator * Div(l, d1);
    var b := g.numerator * Div(l, d2);
    IsInt(a) && IsInt(b) && IsInt(if subtract then a - b else a + b)
  }

  /** Without overflow, `plus` and `minus` compute the exact sum and difference, over the
      least common denominator. */
  lemma {:induction false} SumValue(f: Fraction, g: Fraction, subtract: bool)
    requires InRange(f) && InRange(g)
    ensures SumFits(f, g, subtract) ==>
              var r := CommonDenominator(f, g, subtract);
              r.Ok? && r.value.denominator == ExactLcm(f.denominator, g.denominator) &&
              r.value.denominator != 0 &&
              Value(r.value) == if subtract then Value(f) - Value(g) else Value(f) + Value(g)
  {
    if SumFits(f, g, subtract) {
      var l, k1, k2 := SumParts(f, g, subtract);
      SumRational(f.numerator, f.denominator, g.numerator, g.denominator, k1, k2, l, subtract);
    }
  }

  /** The shape of the result of `plus`/`minus` when nothing overflows. */
  lemma {:induction false} SumParts(f: Fraction, g: Fraction, subtract: bool) returns (l: int, k1: int, k2: int)
    requires InRange(f) && InRange(g) && SumFits(f, g, subtract)
    ensures l == ExactLcm(f.denominator, g.denominator) && l != 0
    ensures l == f.denominator * k1 && l == g.denominator * k2
    ensures var a, b := f.numerator * k1, g.numerator * k2;
            CommonDenominator(f, g, subtract) == Ok(Fraction(if subtract then a - b else a + b, l))
  {
    var d1, d2 := f.denominator, g.denominator;
    LcmIntExact(d1, d2);
    ExactLcmIsLcm(d1, d2);
    ExactLcmNonZero(d1, d2);
    l := ExactLcm(d1, d2);
    k1 := DividesElim(d1, l);
    k2 := DividesElim(d2, l);
    DivExact(l, d1, k1);
    DivExact(l, d2, k2);
    DivBound(l, d1);
    DivBound(l, d2);
  }

  /** The rational algebra of a sum over a common denominator. */
  lemma {:induction false} SumRational(n1: int, d1: int, n2: int, d2: int, k1: int, k2: int, l: int, subtract: bool)
    requires d1 != 0 && d2 != 0 && l != 0 && l == d1 * k1 && l == d2 * k2
    ensures var a, b := n1 * k1, n2 * k2;
            (if subtract then a - b else a + b) as real / l as real ==
            if subtract then n1 as real / d1 as real - n2 as real / d2 as real
            else n1 as real / d1 as real + n2 as real / d2 as real
  {
    var a, b := n1 * k1, n2 * k2;
    assert k1 != 0 && k2 != 0;
    RealCancel(n1, d1, k1);
    RealCancel(n2, d2, k2);
    assert a as real / l as real == n1 as real / d1 as real;
    assert b as real / l as real == n2 as real / d2 as real;
    if subtract {
      RealSum(a, -b, l);
    } else {
      RealSum(a, b, l);
    }
  }

  /** `times` and `divide` end in the same step: divide both components by their (signed) gcd;
      a zero gcd, from a 0/0 intermediate, throws ArithmeticException. */
  function Reduce(num: int, den: int): (r: Result<Fraction>)
    requires IsInt(num) && IsInt(den)
    ensures r.Err? <==> num == 0 && den == 0
    ensures r.Err? ==> r.error == Arithmetic
    ensures r.Ok? ==> InRange(r.value)
  {
    EuclidGcdZero(num, den);
    var g := EuclidGcd(num, den);
    if g == 0 then Err(Arithmetic) else Ok(Fraction(Wrap32(Div(num, g)), Wrap32(Div(den, g))))
  }

  /** A fraction in lowest terms: its components have no common divisor but one and minus one. */
  predicate Lowest(f: Fraction) {
    Abs(EuclidGcd(f.numerator, f.denominator)) == 1
  }

  /** Without overflow, reducing keeps the value and yields lowest terms. */
  lemma {:induction false} ReduceLowest(num: int, den: int)
    requires IsInt(num) && IsInt(den) && num != INT_MIN && den != INT_MIN && den != 0
    ensures Reduce(num, den).Ok?
    ensures Reduce(num, den).value.denominator != 0
    ensures Value(Reduce(num, den).value) == num as real / den as real
    ensures Lowest(Reduce(num, den).value)
  {
    var g, a, b := ReduceParts(num, den);
    RealCancel(a, b, g);
    QuotientsCoprime(num, den, g, a, b);
  }

  /** The shape of `Reduce`'s result when nothing overflows: both components divided exactly by the gcd. */
  lemma {:induction false} ReduceParts(num: int, den: int) returns (g: int, a: int, b: int)
    requires IsInt(num) && IsInt(den) && num != INT_MIN && den != INT_MIN && den != 0
    ensures g == EuclidGcd(num, den) && g != 0 && num == a * g && den == b * g && b != 0
    ensures Reduce(num, den) == Ok(Fraction(a, b))
  {
    EuclidGcdZero(num, den);
    EuclidGcdDivides(num, den);
    g := EuclidGcd(num, den);
    a := DividesElim(g, num);
    b := DividesElim(g, den);
    DivExact(num, g, a);
    DivExact(den, g, b);
    DivBound(num, g);
    DivBound(den, g);
  }

  /** Dividing both numbers by their gcd leaves numbers whose gcd is one or minus one. */
  lemma {:induction false} QuotientsCoprime(num: int, den: int, g: int, a: int, b: int)
    requires g == EuclidGcd(num, den) && g != 0 && num == a * g && den == b * g && b != 0
    ensures Abs(EuclidGcd(a, b)) == 1
  {
    var c := EuclidGcd(a, b);
    EuclidGcdDivides(a, b);
    EuclidGcdZero(a, b);
    var ka := DividesElim(c, a);
    var kb := DividesElim(c, b);
    MulAssoc(num, a, g, c, ka);
    MulAssoc(den, b, g, c, kb);
    DividesIntro(c * g, num, ka);
    DividesIntro(c * g, den, kb);
    EuclidGcdGreatest(c * g, num, den);
    DividesBound(c * g, g);
    MulAtMostOne(c, g);
  }

  /** A product of two `int`s that neither wraps nor lands on `Integer.MIN_VALUE`. */
  ghost predicate MulFits(x: int, y: int) {
    IsInt(x * y) && x * y != INT_MIN
  }

  /** `times`: multiplies componentwise with 32-bit wrap-around, then reduces. */
  function Times(f: Fraction, g: Fraction): (r: Result<Fraction>)
    requires InRange(f) && InRange(g)
    ensures r.Err? ==> r.error == Arithmetic
    ensures r.Ok? ==> InRange(r.value)
    ensures MulFits(f.numerator, g.numerator) && MulFits(f.denominator, g.denominator) ==>
              (r.Err? <==> (f.numerator == 0 || g.numerator == 0) && (f.denominator == 0 || g.denominator == 0))
    ensures MulFits(f.numerator, g.numerator) && MulFits(f.denominator, g.denominator) &&
            f.denominator != 0 && g.denominator != 0 ==>
              r.Ok? && r.value.denominator != 0 &&
              Value(r.value) == Value(f) * Value(g) && Lowest(r.value)
  {
    ReduceProductErr(f.numerator, g.numerator, f.denominator, g.denominator);
    TimesValue(f, g);
    Reduce(Wrap32(f.numerator * g.numerator), Wrap32(f.denominator * g.denominator))
  }

  /** `divide`: multiplies crosswise with 32-bit wrap-around, then reduces. */
  function Divide(f: Fraction, g: Fraction): (r: Result<Fraction>)
    requires InRange(f) && InRange(g)
    ensures r.Err? ==> r.error == Arithmetic
    ensures r.Ok? ==> InRange(r.value)
    ensures MulFits(f.numerator, g.denominator) && MulFits(f.denominator, g.numerator) ==>
              (r.Err? <==> (f.numerator == 0 || g.denominator == 0) && (f.denominator == 0 || g.numerator == 0))
    ensures MulFits(f.numerator, g.denominator) && MulFits(f.denominator, g.numerator) &&
            f.denominator != 0 && g.denominator != 0 && g.numerator != 0 ==>
              r.Ok? && r.value.denominator != 0 &&
              Value(r.value) == Value(f) / Value(g) && Lowest(r.value)
  {
    ReduceProductErr(f.numerator, g.denominator, f.denominator, g.numerator);
    DivideValue(f, g);
    Reduce(Wrap32(f.numerator * g.denominator), Wrap32(f.denominator * g.numerator))
  }

  /** Reducing two products that do not wrap throws exactly when both products are zero. */
  lemma {:induction false} ReduceProductErr(a: int, b: int, c: int, d: int)
    requires IsInt(a) && IsInt(b) && IsInt(c) && IsInt(d)
    ensures MulFits(a, b) && MulFits(c, d) ==>
              (Reduce(Wrap32(a * b), Wrap32(c * d)).Err? <==> (a == 0 || b == 0) && (c == 0 || d == 0))
  {
    if MulFits(a, b) && MulFits(c, d) {
      NoWrap(a * b);
      NoWrap(c * d);
      if a != 0 && b != 0 { MulNonZero(a, b); }
      if c != 0 && d != 0 { MulNonZero(c, d); }
    }
  }

  /** Without overflow, reducing the componentwise products gives the exact product, in
      lowest terms. */
  lemma {:induction false} TimesValue(f: Fraction, g: Fraction)
    requires InRange(f) && InRange(g)
    ensures MulFits(f.numerator, g.numerator) && MulFits(f.denominator, g.denominator) &&
            f.denominator != 0 && g.denominator != 0 ==>
              var r := Reduce(Wrap32(f.numerator * g.numerator), Wrap32(f.denominator * g.denominator));
              r.Ok? && r.value.denominator != 0 &&
              Value(r.value) == Value(f) * Value(g) && Lowest(r.value)
  {
    if MulFits(f.numerator, g.numerator) && MulFits(f.denominator, g.denominator) &&
       f.denominator != 0 && g.denominator != 0 {
      var num, den := f.numerator * g.numerator, f.denominator * g.denominator;
      NoWrap(num);
      NoWrap(den);
      var h := ReduceExact(num, den, f.denominator, g.denominator);
      ProductValue(f, g, h);
    }
  }

  lemma {:induction false} ProductValue(f: Fraction, g: Fraction, h: Fraction)
    requires f.denominator != 0 && g.denominator != 0 && h.denominator != 0
    requires Value(h) == (f.numerator * g.numerator) as real / (f.denominator * g.denominator) as real
    ensures Value(h) == Value(f) * Value(g)
  {
    RealProd(f.numerator, f.denominator, g.numerator, g.denominator);
  }

  /** `ReduceLowest` on a denominator that is a product of two non-zero factors. */
  lemma {:induction false} ReduceExact(num: int, den: int, d1: int, d2: int) returns (h: Fraction)
    requires IsInt(num) && IsInt(den) && num != INT_MIN && den != INT_MIN && den == d1 * d2
    requires d1 != 0 && d2 != 0
    ensures Reduce(num, den) == Ok(h) && h.denominator != 0 && den != 0
    ensures Value(h) == num as real / den as real && Lowest(h)
  {
    MulNonZero(d1, d2);
    ReduceLowest(num, den);
    h := Reduce(num, den).value;
  }

  /** Without overflow, reducing the cross products of a division by a non-zero fraction
      gives the exact quotient, in lowest terms. */
  lemma {:induction false} DivideValue(f: Fraction, g: Fraction)
    requires InRange(f) && InRange(g)
    ensures MulFits(f.numerator, g.denominator) && MulFits(f.denominator, g.numerator) &&
            f.denominator != 0 && g.denominator != 0 && g.numerator != 0 ==>
              var r := Reduce(Wrap32(f.numerator * g.denominator), Wrap32(f.denominator * g.numerator));
              r.Ok? && r.value.denominator != 0 &&
              Value(r.value) == Value(f) / Value(g) && Lowest(r.value)
  {
    if MulFits(f.numerator, g.denominator) && MulFits(f.denominator, g.numerator) &&
       f.denominator != 0 && g.denominator != 0 && g.numerator != 0 {
      var num, den := f.numerator * g.denominator, f.denominator * g.numerator;
      NoWrap(num);
      NoWrap(den);
      var h := ReduceExact(num, den, f.denominator, g.numerator);
      QuotientValue(f, g, h);
    }
  }

  /** `plus` does not simplify, although its documentation says it does: 1/2 + 1/2 is 2/2. */
  lemma {:induction false} PlusNotSimplified()
    ensures Plus(Fraction(1, 2), Fraction(1, 2)) == Ok(Fraction(2, 2))
    ensures !Lowest(Fraction(2, 2))
  {
  }

  lemma {:induction false} QuotientValue(f: Fraction, g: Fraction, h: Fraction)
    requires f.denominator != 0 && g.denominator != 0 && g.numerator != 0 && h.denominator != 0
    requires Value(h) == (f.numerator * g.denominator) as real / (f.denominator * g.numerator) as real
    ensures Value(h) == Value(f) / Value(g)
  {
    RealQuot(f.numerator, f.denominator, g.numerator, g.denominator);
  }

  lemma {:induction false} NoWrap(x: int)
    requires IsInt(x)
    ensures Wrap32(x) == x
  {
  }

  lemma {:induction false} RealCancel(a: int, b: int, k: int)
    requires b != 0 && k != 0
    ensures (a * k) as real / (b * k) as real == a as real / b as real
  {
    assert (a * k) as real == a as real * k as real;
    assert (b * k) as real == b as real * k as real;
  }

  lemma {:induction false} RealSum(x: int, y: int, l: int)
    requires l != 0
    ensures (x + y) as real / l as real == x as real / l as real + y as real / l as real
  {
  }

  lemma {:induction false} RealProd(a: int, b: int, c: int, d: int)
    requires b != 0 && d != 0
    ensures (a * c) as real / (b * d) as real == (a as real / b as real) * (c as real / d as real)
  {
    assert (a * c) as real == a as real * c as real;
    assert (b * d) as real == b as real * d as real;
  }

  lemma {:induction false} RealQuot(a: int, b: int, c: int, d: int)
    requires b != 0 && c != 0 && d != 0
    ensures (a * d) as real / (b * c) as real == (a as real / b as real) / (c as real / d as real)
  {
    assert (a * d) as real == a as real * d as real;
    assert (b * c) as real == b as real * c as real;
  }
}
