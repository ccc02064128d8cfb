/** Facts about integer multiplication, Euclidean division and divisibility that the
    solver does not find unaided. They carry no behaviour of their own. */
module Arith {

  function Abs(x: int): (r: nat)
    ensures r == x || r == -x
  {
    if x < 0 then -x else x
  }

  /** `d` divides `x` (zero divides only zero). */
  predicate Divides(d: int, x: int) {
    if d == 0 then x == 0 else x % d == 0
  }

  lemma {:induction false} MulNonNeg(a: int, b: int)
    requires a >= 0 && b >= 0
    ensures a * b >= 0
  {
  }

  lemma {:induction false} MulNonZero(a: int, b: int)
    requires a != 0 && b != 0
    ensures a * b != 0
  {
    MulAbs(a, b);
    MulNonNeg(Abs(a) - 1, Abs(b));
    assert Abs(a) * Abs(b) == (Abs(a) - 1) * Abs(b) + Abs(b);
  }

  /** A multiple of g no larger than g in magnitude uses a factor of magnitude at most one. */
  lemma {:induction false} MulAtMostOne(c: int, g: int)
    requires g != 0 && Abs(c * g) <= Abs(g)
    ensures Abs(c) <= 1
  {
    MulAbs(c, g);
    if Abs(c) >= 2 {
      MulNonNeg(Abs(c) - 2, Abs(g));
    }
  }

  lemma {:induction false} MulAssoc(x: int, a: int, g: int, c: int, k: int)
    requires x == a * g && a == c * k
    ensures x == (c * g) * k
  {
  }

  lemma {:induction false} MulAbs(a: int, b: int)
    ensures Abs(a * b) == Abs(a) * Abs(b)
  {
    if a < 0 && b < 0 {
      assert a * b == (-a) * (-b);
    } else if a < 0 {
      assert a * b == -((-a) * b);
    } else if b < 0 {
      assert a * b == -(a * (-b));
    }
  }

  /** A non-zero multiple of m is at least as large as m. */
  lemma {:induction false} MulSmall(m: int, t: int)
    requires m != 0 && Abs(m * t) < Abs(m)
    ensures t == 0
  {
    MulAbs(m, t);
    if t != 0 {
      MulNonNeg(Abs(m), Abs(t) - 1);
    }
  }

  /** Euclidean quotient and remainder are determined by `x == m * d + r` with `0 <= r < |m|`. */
  lemma {:induction false} ModUnique(x: int, m: int, d: int, r: int)
    requires m != 0 && x == m * d + r && 0 <= r < Abs(m)
    ensures x % m == r && x / m == d
  {
    var d', r' := x / m, x % m;
    assert m * (d - d') == r' - r;
    MulSmall(m, d - d');
  }

  lemma {:induction false} MulDiv(q: int, m: int)
    requires m != 0
    ensures (q * m) % m == 0 && (q * m) / m == q
  {
    ModUnique(q * m, m, q, 0);
  }

  /** Divisibility as the existence of a cofactor, in either direction. */
  lemma {:induction false} DividesIntro(d: int, x: int, k: int)
    requires x == d * k
    ensures Divides(d, x)
  {
    if d != 0 {
      MulDiv(k, d);
    }
  }

  lemma {:induction false} DividesElim(d: int, x: int) returns (k: int)
    requires Divides(d, x)
    ensures x == d * k
  {
    if d == 0 {
      k := 0;
    } else {
      k := x / d;
    }
  }

  /** Divisibility is preserved by integer linear combinations. */
  lemma {:induction false} DividesLinear(d: int, x: int, y: int, p: int, q: int)
    requires Divides(d, x) && Divides(d, y)
    ensures Divides(d, p * x + q * y)
  {
    var kx := DividesElim(d, x);
    var ky := DividesElim(d, y);
    assert p * x + q * y == d * (p * kx + q * ky);
    DividesIntro(d, p * x + q * y, p * kx + q * ky);
  }

  lemma {:induction false} DividesTrans(c: int, d: int, x: int)
    requires Divides(c, d) && Divides(d, x)
    ensures Divides(c, x)
  {
    var k := DividesElim(c, d);
    var l := DividesElim(d, x);
    assert x == c * (k * l);
    DividesIntro(c, x, k * l);
  }

  lemma {:induction false} DividesNeg(d: int, x: int)
    requires Divides(d, x)
    ensures Divides(-d, x) && Divides(d, -x)
  {
    var k := DividesElim(d, x);
    assert x == (-d) * (-k);
    assert -x == d * (-k);
    DividesIntro(-d, x, -k);
    DividesIntro(d, -x, -k);
  }

  /** A non-zero multiple of d has magnitude at least |d|. */
  lemma {:induction false} DividesBound(d: int, x: int)
    requires Divides(d, x) && x != 0
    ensures Abs(d) <= Abs(x)
  {
    var k := DividesElim(d, x);
    MulAbs(d, k);
    MulNonNeg(Abs(d), Abs(k) - 1);
    assert Abs(d) * Abs(k) == Abs(d) + Abs(d) * (Abs(k) - 1);
  }

  /** Dividing an exact multiple: `(d * k) / d == k` also for truncating division. */
  lemma {:induction false} MulCancel(d: int, k: int, k': int)
    requires d != 0 && d * k == d * k'
    ensures k == k'
  {
    assert d * (k - k') == 0;
    MulSmall(d, k - k');
  }

  /** A square is non-negative, and zero only for zero. */
  lemma {:induction false} SquareNonNeg(e: int)
    ensures e * e >= 0
    ensures e * e == 0 <==> e == 0
  {
    if e != 0 {
      MulNonZero(e, e);
    }
  }

  /** A square is at least the magnitude it squares. */
  lemma {:induction false} SquareAtLeast(e: int)
    ensures e * e >= Abs(e)
  {
    if e > 0 {
      assert e * e >= e * 1;
    } else if e < 0 {
      assert e * e == (-e) * (-e);
      assert (-e) * (-e) >= (-e) * 1;
    }
  }

  /** Each term of a sum of three squares is at most the sum. */
  lemma {:induction false} SquaresBounded(a: int, b: int, c: int, bound: int)
    requires a * a + b * b + c * c <= bound
    ensures 0 <= a * a <= bound && 0 <= b * b <= bound && 0 <= c * c <= bound
  {
    SquareNonNeg(a);
    SquareNonNeg(b);
    SquareNonNeg(c);
  }

  /** A sum of three squares is zero only when all three are zero. */
  lemma {:induction false} SumOfSquaresZero(a: int, b: int, c: int)
    ensures a * a + b * b + c * c >= 0
    ensures a * a + b * b + c * c == 0 <==> a == 0 && b == 0 && c == 0
  {
    SquareNonNeg(a);
    SquareNonNeg(b);
    SquareNonNeg(c);
  }

  /** Each term of a sum of four squares is at most the sum. */
  lemma {:induction false} SquaresBounded4(a: int, b: int, c: int, d: int, bound: int)
    requires a * a + b * b + c * c + d * d <= bound
    ensures 0 <= a * a <= bound && 0 <= b * b <= bound && 0 <= c * c <= bound && 0 <= d * d <= bound
  {
    SquareNonNeg(a);
    SquareNonNeg(b);
    SquareNonNeg(c);
    SquareNonNeg(d);
  }

  /** A sum of four squares is zero only when all four are zero. */
  lemma {:induction false} SumOfSquaresZero4(a: int, b: int, c: int, d: int)
    ensures a * a + b * b + c * c + d * d >= 0
    ensures a * a + b * b + c * c + d * d == 0 <==> a == 0 && b == 0 && c == 0 && d == 0
  {
    SquareNonNeg(a);
    SquareNonNeg(b);
    SquareNonNeg(c);
    SquareNonNeg(d);
  }

  /** Signs come out of a product. */
  lemma {:induction false} NegMul(x: int, y: int)
    ensures (-x) * y == -(x * y) && x * (-y) == -(x * y) && (-x) * (-y) == x * y
  {
  }

  /** Kotlin's `minOf` / `maxOf` (and `min` / `max` of `kotlin.math`). */
  function MinOf(a: int, b: int): (r: int)
    ensures r <= a && r <= b && (r == a || r == b)
  {
    if a <= b then a else b
  }

  function MaxOf(a: int, b: int): (r: int)
    ensures r >= a && r >= b && (r == a || r == b)
  {
    if a >= b then a else b
  }

  /** The triangle inequality on the number line. */
  lemma {:induction false} AbsTriangle(p: int, q: int, r: int)
    ensures Abs(p - r) <= Abs(p - q) + Abs(q - r)
  {
  }
}
