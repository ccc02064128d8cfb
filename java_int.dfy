/** Java's fixed-width integer semantics, written out on unbounded integers.
    `int` is 32-bit and `long` 64-bit two's complement: `+`, `-` and `*` wrap around,
    `/` and `%` truncate toward zero, and `Math.abs` of the minimum value is that value. */
module JavaInt {
  import opened Arith

  const INT_MIN: int := -0x8000_0000
  const INT_MAX: int := 0x7fff_ffff
  const LONG_MIN: int := -0x8000_0000_0000_0000
  const LONG_MAX: int := 0x7fff_ffff_ffff_ffff
  const TWO_32: int := 0x1_0000_0000
  const TWO_64: int := 0x1_0000_0000_0000_0000

  predicate IsInt(x: int) { INT_MIN <= x <= INT_MAX }

  predicate IsLong(x: int) { LONG_MIN <= x <= LONG_MAX }

  /** The values of a Java `int` and of a Java `long`. */
  type Int32 = x: int | INT_MIN <= x <= INT_MAX
  type Int64 = x: int | LONG_MIN <= x <= LONG_MAX

  /** The 32-bit value of an exact result: the one `int` congruent to `x` modulo 2^32. */
  function Wrap32(x: int): (r: int)
    ensures IsInt(r)
    ensures (x - r) % TWO_32 == 0
    ensures IsInt(x) ==> r == x
  {
    (x - INT_MIN) % TWO_32 + INT_MIN
  }

  /** The 64-bit value of an exact result: the one `long` congruent to `x` modulo 2^64. */
  function Wrap64(x: int): (r: int)
    ensures IsLong(r)
    ensures (x - r) % TWO_64 == 0
    ensures IsLong(x) ==> r == x
  {
    (x - LONG_MIN) % TWO_64 + LONG_MIN
  }

  /** Java's `/`: the quotient rounded toward zero (before any wrap-around). */
  function Div(a: int, b: int): (q: int)
    requires b != 0
    ensures Abs(b) * Abs(q) <= Abs(a) < Abs(b) * Abs(q) + Abs(b)
    ensures q == 0 || ((q > 0) <==> ((a > 0) == (b > 0)))
  {
    var m := Abs(a) / Abs(b);
    DivNat(Abs(a), Abs(b));
    if (a < 0) == (b < 0) then m else -m
  }

  lemma {:induction false} DivNat(x: nat, y: int)
    requires y > 0
    ensures x / y >= 0 && y * (x / y) <= x < y * (x / y) + y
    ensures x == y * (x / y) + x % y
  {
    assert x == y * (x / y) + x % y;
  }

  /** Java's `%`: the remainder that goes with a quotient rounded toward zero; its sign is that of `a`. */
  function Rem(a: int, b: int): (r: int)
    requires b != 0
    ensures a == b * Div(a, b) + r
    ensures Abs(r) < Abs(b)
    ensures r == 0 || ((r > 0) <==> (a > 0))
  {
    DivRemAbs(a, b);
    var m := Abs(a) % Abs(b);
    if a < 0 then -m else m
  }

  lemma {:induction false} DivRemAbs(a: int, b: int)
    requires b != 0
    ensures a == b * Div(a, b) + (if a < 0 then -(Abs(a) % Abs(b)) else Abs(a) % Abs(b))
  {
    var m, k := Abs(a) / Abs(b), Abs(a) % Abs(b);
    DivNat(Abs(a), Abs(b));
    assert Div(a, b) == if (a < 0) == (b < 0) then m else -m;
    SignedSplit(a, b, Abs(b), m, k);
  }

  /** Putting the signs back on a division of magnitudes. */
  lemma {:induction false} SignedSplit(a: int, b: int, y: int, m: int, k: int)
    requires y == Abs(b) && Abs(a) == y * m + k
    ensures a == b * (if (a < 0) == (b < 0) then m else -m) + (if a < 0 then -k else k)
  {
    NegMul(y, m);
    if b < 0 {
      assert b == -y;
    }
  }

  /** When `b` divides `a` exactly, Java's quotient is the exact one. */
  lemma {:induction false} DivExact(a: int, b: int, k: int)
    requires b != 0 && a == b * k
    ensures Div(a, b) == k && Rem(a, b) == 0
  {
    MulAbs(b, k);
    MulDiv(Abs(k), Abs(b));
    assert Abs(a) == Abs(k) * Abs(b);
    if k != 0 {
      assert (a < 0) == ((b < 0) != (k < 0));
    }
  }

  /** Java `int` division: the truncated quotient, wrapped; only `MIN_VALUE / -1` wraps. */
  function Div32(a: Int32, b: Int32): (r: Int32)
    requires b != 0
    ensures r == Wrap32(Div(a, b))
  {
    if a == INT_MIN && b == -1 then INT_MIN else DivFits(a, b, INT_MIN); Div(a, b)
  }

  /** Java `long` division. */
  function Div64(a: Int64, b: Int64): (r: Int64)
    requires b != 0
    ensures r == Wrap64(Div(a, b))
  {
    if a == LONG_MIN && b == -1 then LONG_MIN else DivFits(a, b, LONG_MIN); Div(a, b)
  }

  /** A truncated quotient is no larger in magnitude than the dividend, and it equals the
      dividend's negation only when dividing by -1; so it stays in the range `[lo, -lo - 1]`
      of the operands unless the minimum is divided by -1. */
  lemma {:induction false} DivFits(a: int, b: int, lo: int)
    requires b != 0 && lo < 0 && lo <= a <= -lo - 1 && lo <= b <= -lo - 1 && !(a == lo && b == -1)
    ensures lo <= Div(a, b) <= -lo - 1
  {
    QuotientBound(Abs(a), Abs(b), Abs(Div(a, b)));
  }

  lemma {:induction false} QuotientBound(x: int, y: int, m: int)
    requires 0 <= x && 1 <= y && 0 <= m && y * m <= x < y * m + y
    ensures y >= 2 ==> 2 * m <= x
    ensures y == 1 ==> m == x
  {
    if y >= 2 {
      MulNonNeg(y - 2, m);
    }
  }

  /** The remainder is smaller in magnitude than the divisor, so it always fits. */
  lemma {:induction false} RemFits(a: int, b: int, lo: int)
    requires b != 0 && lo <= b <= -lo - 1
    ensures lo < Rem(a, b) < -lo
  {
  }

  /** Kotlin's `Int.mod` / `Long.mod`: the remainder of floored division; its sign is that of `b`. */
  function FloorMod(a: int, b: int): (r: int)
    requires b != 0
    ensures Divides(b, a - r)
    ensures b > 0 ==> 0 <= r < b
    ensures b < 0 ==> b < r <= 0
  {
    var m := a % b;
    var r := if b > 0 || m == 0 then m else m + b;
    DividesIntro(b, a - r, if b > 0 || m == 0 then a / b else a / b - 1);
    r
  }

  /** Java's `Math.abs(int)`: the magnitude, except that the minimum value stays negative. */
  function AbsInt(x: int): (r: int)
    requires IsInt(x)
    ensures IsInt(r)
    ensures x != INT_MIN ==> r == Abs(x)
    ensures x == INT_MIN ==> r == INT_MIN
  {
    if x == INT_MIN then INT_MIN else Abs(x)
  }

  /** Java's `Math.abs(long)`. */
  function AbsLong(x: int): (r: int)
    requires IsLong(x)
    ensures IsLong(r)
    ensures x != LONG_MIN ==> r == Abs(x)
    ensures x == LONG_MIN ==> r == LONG_MIN
  {
    if x == LONG_MIN then LONG_MIN else Abs(x)
  }

  /** Values congruent modulo 2^32 wrap to the same `int`. */
  lemma {:induction false} Wrap32Congruent(x: int, y: int)
    requires (x - y) % TWO_32 == 0
    ensures Wrap32(x) == Wrap32(y)
  {
    var k := (x - y) / TWO_32;
    assert x - y == TWO_32 * k;
    var q, r := (y - INT_MIN) / TWO_32, (y - INT_MIN) % TWO_32;
    ModUnique(x - INT_MIN, TWO_32, q + k, r);
  }

  /** Values congruent modulo 2^64 wrap to the same `long`. */
  lemma {:induction false} Wrap64Congruent(x: int, y: int)
    requires (x - y) % TWO_64 == 0
    ensures Wrap64(x) == Wrap64(y)
  {
    var k := (x - y) / TWO_64;
    assert x - y == TWO_64 * k;
    var q, r := (y - LONG_MIN) / TWO_64, (y - LONG_MIN) % TWO_64;
    ModUnique(x - LONG_MIN, TWO_64, q + k, r);
  }

  /** An intermediate wrap of one operand does not change a wrapped sum or product. */
  lemma {:induction false} Wrap32Ops(a: int, b: int)
    ensures Wrap32(Wrap32(a) + b) == Wrap32(a + b)
    ensures Wrap32(Wrap32(a) * b) == Wrap32(a * b)
  {
    var k := (a - Wrap32(a)) / TWO_32;
    assert a - Wrap32(a) == TWO_32 * k;
    LinearMod(Wrap32(a) + b - (a + b), -k, TWO_32);
    assert Wrap32(a) * b - a * b == TWO_32 * (-k * b);
    LinearMod(Wrap32(a) * b - a * b, -k * b, TWO_32);
    Wrap32Congruent(Wrap32(a) + b, a + b);
    Wrap32Congruent(Wrap32(a) * b, a * b);
  }

  lemma {:induction false} Wrap64Ops(a: int, b: int)
    ensures Wrap64(Wrap64(a) + b) == Wrap64(a + b)
    ensures Wrap64(Wrap64(a) * b) == Wrap64(a * b)
  {
    var k := (a - Wrap64(a)) / TWO_64;
    assert a - Wrap64(a) == TWO_64 * k;
    LinearMod(Wrap64(a) + b - (a + b), -k, TWO_64);
    assert Wrap64(a) * b - a * b == TWO_64 * (-k * b);
    LinearMod(Wrap64(a) * b - a * b, -k * b, TWO_64);
    Wrap64Congruent(Wrap64(a) + b, a + b);
    Wrap64Congruent(Wrap64(a) * b, a * b);
  }

  lemma {:induction false} LinearMod(x: int, k: int, m: int)
    requires m > 0 && x == m * k
    ensures x % m == 0
  {
    ModUnique(x, m, k, 0);
  }

  /** The one `int` congruent to `x` is what `x` wraps to. */
  lemma {:induction false} Wrap32Unique(x: int, r: int, k: int)
    requires IsInt(r) && x - r == TWO_32 * k
    ensures Wrap32(x) == r
  {
    LinearMod(x - r, k, TWO_32);
    Wrap32Congruent(x, r);
  }

  lemma {:induction false} Wrap64Unique(x: int, r: int, k: int)
    requires IsLong(r) && x - r == TWO_64 * k
    ensures Wrap64(x) == r
  {
    LinearMod(x - r, k, TWO_64);
    Wrap64Congruent(x, r);
  }

  /** Java `int` addition, subtraction and negation. The exact result of two `int` operands is
      at most one 2^32 outside the range, so a single correction brings it back. */
  function Add32(a: Int32, b: Int32): Int32
  {
    if a + b > INT_MAX then a + b - TWO_32 else if a + b < INT_MIN then a + b + TWO_32 else a + b
  }

  function Sub32(a: Int32, b: Int32): Int32
  {
    if a - b > INT_MAX then a - b - TWO_32 else if a - b < INT_MIN then a - b + TWO_32 else a - b
  }

  function Neg32(a: Int32): Int32
  {
    if a == INT_MIN then INT_MIN else -a
  }

  /** Java `int` multiplication. */
  function Mul32(a: Int32, b: Int32): Int32
  {
    Wrap32(a * b)
  }

  /** Each of them is the exact result wrapped to 32 bits. */
  lemma {:induction false} Add32Wraps(a: Int32, b: Int32)
    ensures Add32(a, b) == Wrap32(a + b)
  {
    Wrap32Unique(a + b, Add32(a, b), if a + b > INT_MAX then 1 else if a + b < INT_MIN then -1 else 0);
  }

  lemma {:induction false} Sub32Wraps(a: Int32, b: Int32)
    ensures Sub32(a, b) == Wrap32(a - b)
  {
    Wrap32Unique(a - b, Sub32(a, b), if a - b > INT_MAX then 1 else if a - b < INT_MIN then -1 else 0);
  }

  lemma {:induction false} Neg32Wraps(a: Int32)
    ensures Neg32(a) == Wrap32(-(a as int))
  {
    Wrap32Unique(-(a as int), Neg32(a), if a == INT_MIN then 1 else 0);
  }

  /** Multiplying by -1, 0 or 1 negates, clears or keeps the value, on either side. */
  lemma {:induction false} Mul32Unit(n: Int32, u: Int32)
    requires -1 <= u <= 1
    ensures Mul32(n, u) == Mul32(u, n) == if u == 0 then 0 else if u == 1 then n else Neg32(n)
  {
    if u == -1 {
      Neg32Wraps(n);
      assert n * u == u * n == -(n as int);
    }
  }

  /** `int` addition is associative, `+ (-b)` undoes `+ b`, negation is an involution, and
      adding to the same value is injective: the `int`s are a group under wrapped addition. */
  lemma {:induction false} Add32Assoc(a: Int32, b: Int32, c: Int32)
    ensures Add32(Add32(a, b), c) == Add32(a, Add32(b, c))
  {
  }

  lemma {:induction false} Add32Undo(a: Int32, b: Int32)
    ensures Add32(Add32(a, b), Neg32(b)) == a
  {
  }

  lemma {:induction false} Neg32Involution(a: Int32)
    ensures Neg32(Neg32(a)) == a
  {
  }

  lemma {:induction false} Add32Cancel(a: Int32, u: Int32, v: Int32)
    requires Add32(a, u) == Add32(a, v)
    ensures u == v
  {
  }

  /** Swapping the operands of `-` negates the result, overflow or not. */
  lemma {:induction false} Sub32Swap(a: Int32, b: Int32)
    ensures Sub32(b, a) == Neg32(Sub32(a, b))
  {
  }

  /** Subtraction is addition of the negation, and it undoes an addition. */
  lemma {:induction false} Sub32AsAdd(a: Int32, b: Int32)
    ensures Sub32(a, b) == Add32(a, Neg32(b))
    ensures Sub32(Add32(a, b), b) == a
  {
  }

  /** Where the distance of two `int`s fits in an `int`, `Math.abs` of their wrapped
      difference is that distance. */
  lemma {:induction false} AbsDiff32(p: Int32, q: Int32)
    requires Abs(p - q) <= INT_MAX
    ensures AbsInt(Sub32(p, q)) == Abs(p - q)
  {
  }

  /** Sums of non-negative `int`s that fit are exact. */
  lemma {:induction false} Add32Sum3(p: Int32, q: Int32, r: Int32)
    requires 0 <= p && 0 <= q && 0 <= r && p + q + r <= INT_MAX
    ensures Add32(Add32(p, q), r) == p + q + r
  {
  }

  lemma {:induction false} Add32Sum4(p: Int32, q: Int32, r: Int32, t: Int32)
    requires 0 <= p && 0 <= q && 0 <= r && 0 <= t && p + q + r + t <= INT_MAX
    ensures Add32(Add32(Add32(p, q), r), t) == p + q + r + t
  {
  }

  /** Adding to a wrapped running sum is wrapping the exact running sum. */
  lemma {:induction false} WrapStep32(n: Int32, exact: int, v: Int32)
    requires n as int == Wrap32(exact)
    ensures Add32(n, v) as int == Wrap32(exact + v as int)
  {
    Add32Wraps(n, v);
    Wrap32Ops(exact, v as int);
  }

  lemma {:induction false} WrapStep64(n: Int64, exact: int, v: Int64)
    requires n as int == Wrap64(exact)
    ensures Add64(n, v) as int == Wrap64(exact + v as int)
  {
    Add64Wraps(n, v);
    Wrap64Ops(exact, v as int);
  }

  /** An `int` counter after `n` increments `c++` from 0. */
  function Count32(n: nat): Int32
  {
    if n == 0 then 0 else Add32(Count32(n - 1), 1)
  }

  /** The counter holds `n` wrapped to 32 bits, which is `n` itself up to `Int.MAX_VALUE`. */
  lemma {:induction false} Count32Wraps(n: nat)
    ensures Count32(n) as int == Wrap32(n)
    ensures n <= INT_MAX ==> Count32(n) as int == n
  {
    if n > 0 {
      Count32Wraps(n - 1);
      WrapStep32(Count32(n - 1), n - 1, 1);
    }
  }

  /** An `int` sum of two wrapped exact values is their exact sum, wrapped. */
  lemma {:induction false} Add32OfWrapped(x: Int32, y: Int32, a: int, b: int)
    requires x as int == Wrap32(a) && y as int == Wrap32(b)
    ensures Add32(x, y) as int == Wrap32(a + b)
  {
    Add32Wraps(x, y);
    Wrap32Ops(a, Wrap32(b));
    Wrap32Ops(b, a);
  }

  /** Adding two counters is counting both. */
  lemma {:induction false} Count32Add(a: nat, b: nat)
    ensures Add32(Count32(a), Count32(b)) == Count32(a + b)
  {
    Count32Wraps(a);
    Count32Wraps(b);
    Count32Wraps(a + b);
    Add32OfWrapped(Count32(a), Count32(b), a, b);
  }

  /** The exact sum of a list of numbers. */
  function Sum(xs: seq<int>): int
  {
    if |xs| == 0 then 0 else Sum(xs[..|xs| - 1]) + xs[|xs| - 1]
  }

  /** The exact product of a list of numbers. */
  function Product(xs: seq<int>): int
  {
    if |xs| == 0 then 1 else Product(xs[..|xs| - 1]) * xs[|xs| - 1]
  }

  /** Kotlin's `sumOf` with a `Long` selector: a `long` accumulator from 0, added to in order. */
  function Sum64(xs: seq<Int64>): Int64
  {
    if |xs| == 0 then 0 else Add64(Sum64(xs[..|xs| - 1]), xs[|xs| - 1])
  }

  lemma {:induction false} SumAppend(xs: seq<int>, ys: seq<int>)
    ensures Sum(xs + ys) == Sum(xs) + Sum(ys)
    decreases |ys|
  {
    if |ys| == 0 {
      assert xs + ys == xs;
    } else {
      var init := ys[..|ys| - 1];
      SumAppend(xs, init);
      assert (xs + ys)[..|xs + ys| - 1] == xs + init;
    }
  }

  /** One more element is one more `long` addition. */
  lemma {:induction false} Sum64Snoc(xs: seq<Int64>, x: Int64)
    ensures Sum64(xs + [x]) == Add64(Sum64(xs), x)
  {
    assert (xs + [x])[..|xs|] == xs;
  }

  /** A `long` sum of two lists is the `long` sum of the two sums. */
  lemma {:induction false} Sum64Append(xs: seq<Int64>, ys: seq<Int64>)
    ensures Sum64(xs + ys) == Add64(Sum64(xs), Sum64(ys))
    decreases |ys|
  {
    if |ys| == 0 {
      assert xs + ys == xs;
    } else {
      var init, last := ys[..|ys| - 1], ys[|ys| - 1];
      Sum64Append(xs, init);
      assert xs + ys == (xs + init) + [last];
      Sum64Snoc(xs + init, last);
      Add64Assoc(Sum64(xs), Sum64(init), last);
    }
  }

  /** A `long` sum of two wrapped exact values is their exact sum, wrapped. */
  lemma {:induction false} Add64OfWrapped(x: Int64, y: Int64, a: int, b: int)
    requires x as int == Wrap64(a) && y as int == Wrap64(b)
    ensures Add64(x, y) as int == Wrap64(a + b)
  {
    Add64Wraps(x, y);
    Wrap64Both(a, b);
  }

  /** Wrapping both operands first does not change a wrapped sum. */
  lemma {:induction false} Wrap64Both(a: int, b: int)
    ensures Wrap64(Wrap64(a) + Wrap64(b)) == Wrap64(a + b)
  {
    Wrap64Ops(a, Wrap64(b));
    Wrap64Ops(b, a);
  }

  /** The `long` sum is the exact sum wrapped to 64 bits, which is the exact sum when it fits. */
  lemma {:induction false} Sum64Wraps(xs: seq<Int64>)
    ensures Sum64(xs) as int == Wrap64(Sum(xs))
    ensures IsLong(Sum(xs)) ==> Sum64(xs) as int == Sum(xs)
  {
    if |xs| > 0 {
      var init := xs[..|xs| - 1];
      Sum64Wraps(init);
      Add64Wraps(Sum64(init), xs[|xs| - 1]);
      Wrap64Ops(Sum(init), xs[|xs| - 1]);
    }
  }

  /** `Math.abs` does not see a sign change. */
  lemma {:induction false} AbsNeg32(a: Int32)
    ensures AbsInt(Neg32(a)) == AbsInt(a)
  {
  }

  /** Java `long` addition, subtraction and negation. */
  function Add64(a: Int64, b: Int64): Int64
  {
    if a + b > LONG_MAX then a + b - TWO_64 else if a + b < LONG_MIN then a + b + TWO_64 else a + b
  }

  function Sub64(a: Int64, b: Int64): Int64
  {
    if a - b > LONG_MAX then a - b - TWO_64 else if a - b < LONG_MIN then a - b + TWO_64 else a - b
  }

  function Neg64(a: Int64): Int64
  {
    if a == LONG_MIN then LONG_MIN else -a
  }

  /** Java `long` multiplication. */
  function Mul64(a: Int64, b: Int64): Int64
  {
    Wrap64(a * b)
  }

  lemma {:induction false} Add64Wraps(a: Int64, b: Int64)
    ensures Add64(a, b) == Wrap64(a + b)
  {
    Wrap64Unique(a + b, Add64(a, b), if a + b > LONG_MAX then 1 else if a + b < LONG_MIN then -1 else 0);
  }

  lemma {:induction false} Sub64Wraps(a: Int64, b: Int64)
    ensures Sub64(a, b) == Wrap64(a - b)
  {
    Wrap64Unique(a - b, Sub64(a, b), if a - b > LONG_MAX then 1 else if a - b < LONG_MIN then -1 else 0);
  }

  lemma {:induction false} Neg64Wraps(a: Int64)
    ensures Neg64(a) == Wrap64(-(a as int))
  {
    Wrap64Unique(-(a as int), Neg64(a), if a == LONG_MIN then 1 else 0);
  }

  lemma {:induction false} Mul64Unit(n: Int64, u: Int64)
    requires -1 <= u <= 1
    ensures Mul64(n, u) == Mul64(u, n) == if u == 0 then 0 else if u == 1 then n else Neg64(n)
  {
    if u == -1 {
      Neg64Wraps(n);
      assert n * u == u * n == -(n as int);
    }
  }

  lemma {:induction false} Add64Assoc(a: Int64, b: Int64, c: Int64)
    ensures Add64(Add64(a, b), c) == Add64(a, Add64(b, c))
  {
  }

  lemma {:induction false} Add64Undo(a: Int64, b: Int64)
    ensures Add64(Add64(a, b), Neg64(b)) == a
  {
  }

  lemma {:induction false} Neg64Involution(a: Int64)
    ensures Neg64(Neg64(a)) == a
  {
  }

  lemma {:induction false} Add64Cancel(a: Int64, u: Int64, v: Int64)
    requires Add64(a, u) == Add64(a, v)
    ensures u == v
  {
  }

  lemma {:induction false} Sub64Swap(a: Int64, b: Int64)
    ensures Sub64(b, a) == Neg64(Sub64(a, b))
  {
  }

  lemma {:induction false} Sub64AsAdd(a: Int64, b: Int64)
    ensures Sub64(a, b) == Add64(a, Neg64(b))
    ensures Sub64(Add64(a, b), b) == a
  {
  }

  /** A square does not see a sign change, wrapped or not. */
  lemma {:induction false} Mul64NegSquare(a: Int64)
    ensures Mul64(Neg64(a), Neg64(a)) == Mul64(a, a)
  {
    assert Neg64(a) * Neg64(a) == a * a;
  }

  /** A square that fits in a `long` has a `long` root, and `long` multiplication computes it
      exactly. */
  lemma {:induction false} Square64Fits(e: int)
    requires e * e <= LONG_MAX
    ensures IsLong(e) && Mul64(e, e) == e * e
  {
    SquareAtLeast(e);
  }

  lemma {:induction false} AbsDiff64(p: Int64, q: Int64)
    requires Abs(p - q) <= LONG_MAX
    ensures AbsLong(Sub64(p, q)) == Abs(p - q)
  {
  }

  lemma {:induction false} Add64Sum3(p: Int64, q: Int64, r: Int64)
    requires 0 <= p && 0 <= q && 0 <= r && p + q + r <= LONG_MAX
    ensures Add64(Add64(p, q), r) == p + q + r
  {
  }

  lemma {:induction false} AbsNeg64(a: Int64)
    ensures AbsLong(Neg64(a)) == AbsLong(a)
  {
  }

  /** The product of two `int` values always fits in a `long`. */
  lemma {:induction false} IntProductBound(a: int, b: int)
    requires IsInt(a) && IsInt(b)
    ensures IsLong(a * b)
  {
    var a', b' := if a < 0 then -a else a, if b < 0 then -b else b;
    assert a' <= 0x8000_0000 && b' <= 0x8000_0000;
    ProductBound(a', b', 0x8000_0000);
    assert a * b == a' * b' || a * b == -(a' * b');
  }

  lemma {:induction false} ProductBound(a: nat, b: nat, m: nat)
    requires a <= m && b <= m
    ensures a * b <= m * m
  {
  }
}
