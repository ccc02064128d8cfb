/** The greatest common divisor and least common multiple helpers of MathUtil.java.
    The Java `int` and `long` overloads of `gcd` run the same loop: with truncating `%`
    every intermediate value is bounded by an argument, so the width never matters there.
    `lcm` multiplies first, so its width does matter and each overload wraps explicitly. */
module MathUtil {
  import opened Arith
  import opened JavaInt
  import opened Wrappers

  /** Euclid's recurrence as the loop of `gcd` runs it: on Java's truncating remainder,
      so the result carries a sign (gcd(4, -6) is -2). */
  function EuclidGcd(a: int, b: int): int
    decreases Abs(b)
  {
    if b == 0 then a else EuclidGcd(b, Rem(a, b))
  }

  /** The result divides both arguments. */
  lemma {:induction false} EuclidGcdDivides(a: int, b: int)
    ensures Divides(EuclidGcd(a, b), a) && Divides(EuclidGcd(a, b), b)
    decreases Abs(b)
  {
    var g := EuclidGcd(a, b);
    if b == 0 {
      DividesIntro(a, a, 1);
      DividesIntro(a, 0, 0);
    } else {
      var q, r := Div(a, b), Rem(a, b);
      assert a == b * q + r;
      EuclidGcdDivides(b, r);
      DividesLinear(g, b, r, q, 1);
      BezoutStep(a, b, q, r, 0, 0);
    }
  }

  /** Bezout: the result is an integer combination of the arguments. */
  lemma {:induction false} EuclidBezout(a: int, b: int) returns (x: int, y: int)
    ensures EuclidGcd(a, b) == a * x + b * y
    decreases Abs(b)
  {
    if b == 0 {
      x, y := 1, 0;
    } else {
      var r := Rem(a, b);
      var q := Div(a, b);
      assert a == b * q + r;
      var x', y' := EuclidBezout(b, r);
      BezoutStep(a, b, q, r, x', y');
      x, y := y', x' - q * y';
    }
  }

  /** The algebra of one Euclidean step, on plain variables. */
  lemma {:induction false} BezoutStep(a: int, b: int, q: int, r: int, x: int, y: int)
    requires a == b * q + r
    ensures b * x + r * y == a * y + b * (x - q * y)
    ensures q * b + 1 * r == a
  {
  }

  /** Every common divisor of the arguments divides the result: it is a greatest common divisor. */
  lemma {:induction false} EuclidGcdGreatest(c: int, a: int, b: int)
    requires Divides(c, a) && Divides(c, b)
    ensures Divides(c, EuclidGcd(a, b))
  {
    var x, y := EuclidBezout(a, b);
    DividesLinear(c, a, b, x, y);
    assert x * a + y * b == a * x + b * y;
  }

  /** The result is zero exactly when both arguments are. */
  lemma {:induction false} EuclidGcdZero(a: int, b: int)
    ensures EuclidGcd(a, b) == 0 <==> a == 0 && b == 0
  {
    EuclidGcdDivides(a, b);
    if a == 0 && b == 0 {
      DividesIntro(0, 0, 0);
      EuclidGcdGreatest(0, a, b);
    }
  }

  /** `gcd(int, int)` (and `gcd(long, long)`): the Euclidean loop. */
  method Gcd(a0: int, b0: int) returns (r: int)
    ensures r == EuclidGcd(a0, b0)
    ensures Divides(r, a0) && Divides(r, b0)
    ensures forall c :: Divides(c, a0) && Divides(c, b0) ==> Divides(c, r)
    ensures r == 0 <==> a0 == 0 && b0 == 0
  {
    var a, b := a0, b0;
    while b != 0
      invariant EuclidGcd(a, b) == EuclidGcd(a0, b0)
      decreases Abs(b)
    {
      var temp := b;
      b := Rem(a, b);
      a := temp;
    }
    r := a;
    EuclidGcdDivides(a0, b0);
    EuclidGcdZero(a0, b0);
    forall c | Divides(c, a0) && Divides(c, b0)
      ensures Divides(c, r)
    {
      EuclidGcdGreatest(c, a0, b0);
    }
  }

  /** The left fold of `gcd` over a non-empty array. */
  function GcdFold(numbers: seq<int>): int
    requires |numbers| > 0
  {
    if |numbers| == 1 then numbers[0]
    else EuclidGcd(GcdFold(numbers[..|numbers| - 1]), numbers[|numbers| - 1])
  }

  /** The fold divides every element, and every common divisor of the elements divides it. */
  lemma {:induction false} GcdFoldCommon(numbers: seq<int>)
    requires |numbers| > 0
    ensures forall i :: 0 <= i < |numbers| ==> Divides(GcdFold(numbers), numbers[i])
    ensures forall c :: (forall i :: 0 <= i < |numbers| ==> Divides(c, numbers[i])) ==>
                        Divides(c, GcdFold(numbers))
  {
    if |numbers| == 1 {
      DividesIntro(numbers[0], numbers[0], 1);
    } else {
      var init := numbers[..|numbers| - 1];
      var last := numbers[|numbers| - 1];
      GcdFoldCommon(init);
      var g := GcdFold(numbers);
      EuclidGcdDivides(GcdFold(init), last);
      forall i | 0 <= i < |numbers|
        ensures Divides(g, numbers[i])
      {
        if i < |numbers| - 1 {
          assert numbers[i] == init[i];
          DividesTrans(g, GcdFold(init), numbers[i]);
        }
      }
      forall c | (forall i :: 0 <= i < |numbers| ==> Divides(c, numbers[i]))
        ensures Divides(c, g)
      {
        assert forall i :: 0 <= i < |init| ==> init[i] == numbers[i];
        EuclidGcdGreatest(c, GcdFold(init), last);
      }
    }
  }

  /** `gcd(int...)` (and `gcd(long...)`): starts from `numbers[0]`, so an empty array
      throws ArrayIndexOutOfBoundsException. */
  method GcdAll(numbers: seq<int>) returns (r: Result<int>)
    ensures numbers == [] ==> r == Err(IndexOutOfBounds)
    ensures numbers != [] ==> r == Ok(GcdFold(numbers))
    ensures r.Ok? ==> forall i :: 0 <= i < |numbers| ==> Divides(r.value, numbers[i])
  {
    if |numbers| == 0 {
      return Err(IndexOutOfBounds);
    }
    var result := numbers[0];
    var i := 1;
    while i < |numbers|
      invariant 1 <= i <= |numbers|
      invariant result == GcdFold(numbers[..i])
    {
      assert numbers[..i + 1][..i] == numbers[..i];
      result := Gcd(result, numbers[i]);
      i := i + 1;
    }
    assert numbers[..|numbers|] == numbers;
    GcdFoldCommon(numbers);
    r := Ok(result);
  }

  /** The least common multiple on unbounded integers, as `lcm` computes it when nothing wraps:
      |a * b| divided by the signed Euclidean gcd. */
  function ExactLcm(a: int, b: int): int
  {
    if EuclidGcd(a, b) == 0 then 0 else Div(Abs(a * b), EuclidGcd(a, b))
  }

  /** The exact lcm is a common multiple of the arguments that divides every common multiple,
      and its product with the gcd is |a * b|. */
  lemma {:induction false} ExactLcmIsLcm(a: int, b: int)
    requires a != 0 || b != 0
    ensures EuclidGcd(a, b) != 0
    ensures ExactLcm(a, b) * EuclidGcd(a, b) == Abs(a * b)
    ensures Divides(a, ExactLcm(a, b)) && Divides(b, ExactLcm(a, b))
    ensures forall m :: Divides(a, m) && Divides(b, m) ==> Divides(ExactLcm(a, b), m)
  {
    EuclidGcdZero(a, b);
    EuclidGcdDivides(a, b);
    var g := EuclidGcd(a, b);
    var ka := DividesElim(g, a);
    var kb := DividesElim(g, b);
    var p := a * b;
    var s := if p < 0 then -1 else 1;
    var k := LcmCofactor(a, b, g, ka, kb, p, s);
    DivExact(Abs(p), g, k);
    var l := ExactLcm(a, b);
    assert l == k;
    DividesIntro(b, l, s * ka);
    DividesIntro(a, l, s * kb);
    forall m | Divides(a, m) && Divides(b, m)
      ensures Divides(l, m)
    {
      var u := DividesElim(a, m);
      var t := DividesElim(b, m);
      var x, y := EuclidBezout(a, b);
      var c := LcmQuotient(a, b, g, l, m, s, t, u, x, y);
      DividesIntro(l, m, c);
    }
  }

  /** Algebra for ExactLcmIsLcm: the signed cofactor of |a * b| over the gcd. */
  lemma {:induction false} LcmCofactor(a: int, b: int, g: int, ka: int, kb: int, p: int, s: int) returns (k: int)
    requires a == g * ka && b == g * kb && p == a * b
    requires s == if p < 0 then -1 else 1
    ensures k == s * ka * b && Abs(p) == g * k
    ensures k == b * (s * ka) && k == a * (s * kb)
  {
    k := s * ka * b;
    assert p == g * (ka * b);
    assert ka * b == ka * (g * kb) == a * kb;
  }

  /** Algebra for ExactLcmIsLcm: a common multiple m satisfies m == l * c. */
  lemma {:induction false} LcmQuotient(a: int, b: int, g: int, l: int, m: int, s: int, t: int, u: int, x: int, y: int)
    returns (c: int)
    requires g != 0 && (s == 1 || s == -1)
    requires l * g == s * (a * b)
    requires m == a * u && m == b * t && g == a * x + b * y
    ensures m == l * c
  {
    var p, q := a * b, t * x + u * y;
    c := s * q;
    CommonMultipleTimesGcd(a, b, g, m, t, u, x, y);
    SignedQuotient(l, g, p, q, s);
    MulCancel(g, m, l * c);
  }

  /** Algebra for LcmQuotient: m * g == (a * b) * (t * x + u * y). */
  lemma {:induction false} CommonMultipleTimesGcd(a: int, b: int, g: int, m: int, t: int, u: int, x: int, y: int)
    requires m == a * u && m == b * t && g == a * x + b * y
    ensures g * m == (a * b) * (t * x + u * y)
  {
    var p := a * b;
    assert m * g == m * (a * x) + m * (b * y);
    assert m * (a * x) == p * (t * x) by {
      assert m * (a * x) == (b * t) * (a * x);
    }
    assert m * (b * y) == p * (u * y) by {
      assert m * (b * y) == (a * u) * (b * y);
    }
  }

  /** Algebra for LcmQuotient: with l * g == s * p and s a sign, (l * (s * q)) * g == p * q. */
  lemma {:induction false} SignedQuotient(l: int, g: int, p: int, q: int, s: int)
    requires (s == 1 || s == -1) && l * g == s * p
    ensures g * (l * (s * q)) == p * q
  {
    assert g * (l * (s * q)) == (l * g) * (s * q);
    assert (s * p) * (s * q) == (s * s) * (p * q);
  }

  /** `lcm(int, int)`: `Math.abs(a * b) / gcd(a, b)` with a 32-bit product; when both arguments
      are zero the gcd is zero and the division throws ArithmeticException. */
  function LcmInt(a: int, b: int): (r: Result<int>)
    requires IsInt(a) && IsInt(b)
    ensures r.Err? <==> a == 0 && b == 0
    ensures r.Err? ==> r.error == Arithmetic
    ensures r.Ok? ==> IsInt(r.value)
  {
    EuclidGcdZero(a, b);
    var g := EuclidGcd(a, b);
    if g == 0 then Err(Arithmetic) else Ok(Wrap32(Div(AbsInt(Wrap32(a * b)), g)))
  }

  /** `lcm(long, long)`: the same with a 64-bit product. */
  function LcmLong(a: int, b: int): (r: Result<int>)
    requires IsLong(a) && IsLong(b)
    ensures r.Err? <==> a == 0 && b == 0
    ensures r.Err? ==> r.error == Arithmetic
    ensures r.Ok? ==> IsLong(r.value)
  {
    EuclidGcdZero(a, b);
    var g := EuclidGcd(a, b);
    if g == 0 then Err(Arithmetic) else Ok(Wrap64(Div(AbsLong(Wrap64(a * b)), g)))
  }

  /** When the product fits in an `int` (and is not its minimum), `lcm(int, int)` is the exact lcm. */
  lemma {:induction false} LcmIntExact(a: int, b: int)
    requires IsInt(a) && IsInt(b) && (a != 0 || b != 0)
    requires IsInt(a * b) && a * b != INT_MIN
    ensures EuclidGcd(a, b) != 0 && LcmInt(a, b) == Ok(ExactLcm(a, b))
  {
    EuclidGcdZero(a, b);
    var g := EuclidGcd(a, b);
    var p := a * b;
    assert Wrap32(p) == p;
    assert AbsInt(p) == Abs(p);
    var q := Div(Abs(p), g);
    DivBound(Abs(p), g);
    assert Wrap32(q) == q;
  }

  /** When the product fits in a `long` (and is not its minimum), `lcm(long, long)` is the exact lcm. */
  lemma {:induction false} LcmLongExact(a: int, b: int)
    requires IsLong(a) && IsLong(b) && (a != 0 || b != 0)
    requires IsLong(a * b) && a * b != LONG_MIN
    ensures EuclidGcd(a, b) != 0 && LcmLong(a, b) == Ok(ExactLcm(a, b))
  {
    EuclidGcdZero(a, b);
    var g := EuclidGcd(a, b);
    var p := a * b;
    assert Wrap64(p) == p;
    assert AbsLong(p) == Abs(p);
    var q := Div(Abs(p), g);
    DivBound(Abs(p), g);
    assert Wrap64(q) == q;
  }

  /** A truncating quotient is no larger in magnitude than the dividend. */
  lemma {:induction false} DivBound(p: int, g: int)
    requires g != 0
    ensures Abs(Div(p, g)) <= Abs(p)
  {
    var q := Div(p, g);
    MulNonNeg(Abs(g) - 1, Abs(q));
    assert Abs(g) * Abs(q) == (Abs(g) - 1) * Abs(q) + Abs(q);
  }

  /** The left fold of `lcm(long, long)` over a non-empty array; `lcm(int...)` widens each
      element to `long` and runs the same fold. */
  function LcmFold(numbers: seq<int>): (r: Result<int>)
    requires |numbers| > 0 && forall i :: 0 <= i < |numbers| ==> IsLong(numbers[i])
    ensures r.Ok? ==> IsLong(r.value)
  {
    if |numbers| == 1 then Ok(numbers[0])
    else
      var acc :- LcmFold(numbers[..|numbers| - 1]);
      LcmLong(acc, numbers[|numbers| - 1])
  }

  /** One more element of the fold: the prefix's value is combined with the next element. */
  lemma {:induction false} LcmFoldStep(numbers: seq<int>, i: int)
    requires forall i :: 0 <= i < |numbers| ==> IsLong(numbers[i])
    requires 1 <= i < |numbers| && LcmFold(numbers[..i]).Ok?
    ensures LcmFold(numbers[..i + 1]) == LcmLong(LcmFold(numbers[..i]).value, numbers[i])
  {
    assert numbers[..i + 1][..i] == numbers[..i];
  }

  /** Once a prefix of the fold has thrown, the whole fold throws the same exception. */
  lemma {:induction false} LcmFoldPrefixErr(numbers: seq<int>, k: int)
    requires forall i :: 0 <= i < |numbers| ==> IsLong(numbers[i])
    requires 1 <= k <= |numbers| && LcmFold(numbers[..k]).Err?
    ensures LcmFold(numbers) == LcmFold(numbers[..k])
  {
    if k == |numbers| {
      assert numbers[..k] == numbers;
    } else {
      var init := numbers[..|numbers| - 1];
      assert init[..k] == numbers[..k];
      LcmFoldPrefixErr(init, k);
    }
  }

  lemma {:induction false} ExactLcmNonZero(a: int, b: int)
    requires a != 0 && b != 0
    ensures EuclidGcd(a, b) != 0 && ExactLcm(a, b) != 0
  {
    ExactLcmIsLcm(a, b);
    MulNonZero(a, b);
    var l, g := ExactLcm(a, b), EuclidGcd(a, b);
    assert l * g != 0;
  }

  /** No step of the fold overflows: each product of the running lcm with the next element fits. */
  predicate FoldFits(numbers: seq<int>)
    requires |numbers| > 0 && forall i :: 0 <= i < |numbers| ==> IsLong(numbers[i])
  {
    |numbers| == 1 ||
    (FoldFits(numbers[..|numbers| - 1]) &&
     match LcmFold(numbers[..|numbers| - 1])
     case Err(_) => false
     case Ok(acc) => IsLong(acc * numbers[|numbers| - 1]) && acc * numbers[|numbers| - 1] != LONG_MIN)
  }

  /** With non-zero elements and no overflow, the fold is a common multiple of every element
      and divides every common multiple. */
  lemma {:induction false} LcmFoldIsLcm(numbers: seq<int>)
    requires |numbers| > 0 && forall i :: 0 <= i < |numbers| ==> IsLong(numbers[i]) && numbers[i] != 0
    requires FoldFits(numbers)
    ensures LcmFold(numbers).Ok?
    ensures LcmFold(numbers).value != 0
    ensures forall i :: 0 <= i < |numbers| ==> Divides(numbers[i], LcmFold(numbers).value)
    ensures forall m :: (forall i :: 0 <= i < |numbers| ==> Divides(numbers[i], m)) ==>
                        Divides(LcmFold(numbers).value, m)
  {
    if |numbers| == 1 {
      DividesIntro(numbers[0], numbers[0], 1);
    } else {
      var init := numbers[..|numbers| - 1];
      var last := numbers[|numbers| - 1];
      LcmFoldIsLcm(init);
      var acc := LcmFold(init).value;
      assert IsLong(acc * last) && acc * last != LONG_MIN;
      LcmLongExact(acc, last);
      ExactLcmIsLcm(acc, last);
      var l := LcmFold(numbers).value;
      assert l == ExactLcm(acc, last);
      ExactLcmNonZero(acc, last);
      forall i | 0 <= i < |numbers|
        ensures Divides(numbers[i], l)
      {
        if i < |numbers| - 1 {
          assert numbers[i] == init[i];
          DividesTrans(numbers[i], acc, l);
        }
      }
      forall m | (forall i :: 0 <= i < |numbers| ==> Divides(numbers[i], m))
        ensures Divides(l, m)
      {
        assert forall i :: 0 <= i < |init| ==> init[i] == numbers[i];
        assert Divides(acc, m);
      }
    }
  }

  /** `lcm(long...)` and `lcm(int...)`: the fold starts from `numbers[0]`, so an empty array
      throws ArrayIndexOutOfBoundsException; a zero gcd on the way throws ArithmeticException. */
  method LcmAll(numbers: seq<int>) returns (r: Result<int>)
    requires forall i :: 0 <= i < |numbers| ==> IsLong(numbers[i])
    ensures numbers == [] ==> r == Err(IndexOutOfBounds)
    ensures numbers != [] ==> r == LcmFold(numbers)
  {
    if |numbers| == 0 {
      return Err(IndexOutOfBounds);
    }
    var result := numbers[0];
    var i := 1;
    while i < |numbers|
      invariant 1 <= i <= |numbers|
      invariant LcmFold(numbers[..i]) == Ok(result) && IsLong(result)
    {
      LcmFoldStep(numbers, i);
      var step := LcmLong(result, numbers[i]);
      if step.Err? {
        LcmFoldPrefixErr(numbers, i + 1);
        return step;
      }
      result := step.value;
      i := i + 1;
    }
    assert numbers[..|numbers|] == numbers;
    r := Ok(result);
  }
}
