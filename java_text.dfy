/** The string primitives the coordinate parsers use: `String.indexOf`, `String.substring`,
    `Integer.parseInt` / `Long.parseLong` and the decimal form `%d` prints. */
module JavaText {
  import opened Wrappers
  import opened JavaInt

  /** `s.indexOf(c, from)`: the first index at or after `from` holding `c`, or -1; a negative
      `from` counts as 0. */
  function IndexOf(s: string, c: char, from: int): (r: int)
    ensures -1 <= r < |s|
    ensures r >= 0 ==> r >= from && s[r] == c
    ensures r >= 0 ==> forall i :: from <= i < r && 0 <= i ==> s[i] != c
    ensures r == -1 ==> forall i :: from <= i < |s| && 0 <= i ==> s[i] != c
    decreases |s| - from
  {
    if from < 0 then IndexOf(s, c, 0)
    else if from >= |s| then -1
    else if s[from] == c then from
    else IndexOf(s, c, from + 1)
  }

  /** `s.substring(begin, end)`: it throws unless `0 <= begin <= end <= length`. */
  function Substring(s: string, begin: int, end: int): (r: Result<string>)
    ensures r.Ok? <==> 0 <= begin <= end <= |s|
    ensures r.Ok? ==> r.value == s[begin..end]
    ensures r.Err? ==> r.error == IndexOutOfBounds
  {
    if 0 <= begin <= end <= |s| then Ok(s[begin..end]) else Err(IndexOutOfBounds)
  }

  /** `s.substring(begin)`. */
  function SubstringFrom(s: string, begin: int): (r: Result<string>)
    ensures r.Ok? <==> 0 <= begin <= |s|
    ensures r.Ok? ==> r.value == s[begin..]
    ensures r.Err? ==> r.error == IndexOutOfBounds
  {
    Substring(s, begin, |s|)
  }

  predicate IsDigit(c: char)
  {
    '0' <= c <= '9'
  }

  function DigitValue(c: char): int
  {
    c as int - '0' as int
  }

  predicate AllDigits(s: string)
  {
    forall i :: 0 <= i < |s| ==> IsDigit(s[i])
  }

  /** The number a string of decimal digits denotes, or None when some character is not a
      digit; read from the last digit back. */
  function DigitsOf(s: string): Option<nat>
  {
    if |s| == 0 then Some(0)
    else if !IsDigit(s[|s| - 1]) then None
    else match DigitsOf(s[..|s| - 1])
      case None => None
      case Some(v) => Some(v * 10 + DigitValue(s[|s| - 1]))
  }

  /** `Integer.parseInt` / `Long.parseLong` into the range `[lo, hi]`: an optional sign, at
      least one digit, and a value that fits; anything else is a `NumberFormatException`. */
  function ParseNumber(s: string, lo: int, hi: int): (r: Result<int>)
    ensures r.Ok? ==> lo <= r.value <= hi
    ensures r.Err? ==> r.error == NumberFormat
  {
    if |s| == 0 then Err(NumberFormat)
    else
      var digits := if s[0] == '-' || s[0] == '+' then s[1..] else s;
      if |digits| == 0 then Err(NumberFormat)
      else match DigitsOf(digits)
        case None => Err(NumberFormat)
        case Some(d) =>
          var v := if s[0] == '-' then -(d as int) else d as int;
          if lo <= v <= hi then Ok(v) else Err(NumberFormat)
  }

  function ParseInt(s: string): (r: Result<int>)
    ensures r.Ok? ==> IsInt(r.value)
    ensures r.Err? ==> r.error == NumberFormat
  {
    ParseNumber(s, INT_MIN, INT_MAX)
  }

  function ParseLong(s: string): (r: Result<int>)
    ensures r.Ok? ==> IsLong(r.value)
    ensures r.Err? ==> r.error == NumberFormat
  {
    ParseNumber(s, LONG_MIN, LONG_MAX)
  }

  /** A number accepted in a range is accepted, unchanged, in any wider range: every
      string `parseInt` reads, `parseLong` reads the same. */
  lemma {:induction false} ParseNumberWiden(s: string, lo: int, hi: int, lo': int, hi': int)
    requires lo' <= lo && hi <= hi' && ParseNumber(s, lo, hi).Ok?
    ensures ParseNumber(s, lo', hi') == ParseNumber(s, lo, hi)
  {
  }

  /** The decimal digits of a natural number, without leading zeros. */
  function Digits(n: nat): (s: string)
    ensures |s| >= 1
  {
    var last := ['0' + (n % 10) as char];
    if n < 10 then last else Digits(n / 10) + last
  }

  /** `%d` / `toString`: a minus sign for negative numbers, then the digits. */
  function Decimal(n: int): string
  {
    if n < 0 then "-" + Digits(-n) else Digits(n)
  }

  /** The digits denote the number. */
  lemma {:induction false} DigitsValueOf(n: nat)
    ensures DigitsOf(Digits(n)) == Some(n)
  {
    var s := Digits(n);
    if n >= 10 {
      DigitsValueOf(n / 10);
      assert s[..|s| - 1] == Digits(n / 10);
    }
  }

  /** Parsing the decimal form of an in-range number gives the number back. */
  lemma {:induction false} ParseDecimal(n: int, lo: int, hi: int)
    requires lo <= n <= hi
    ensures ParseNumber(Decimal(n), lo, hi) == Ok(n)
  {
    DigitsValueOf(if n < 0 then -n else n);
    DigitsAreDigits(if n < 0 then -n else n);
    if n < 0 {
      assert Decimal(n)[1..] == Digits(-n);
    }
  }

  /** Every character of the decimal digits is a digit. */
  lemma {:induction false} DigitsAreDigits(n: nat)
    ensures AllDigits(Digits(n))
  {
    if n >= 10 {
      DigitsAreDigits(n / 10);
    }
  }

  /** The decimal form holds no comma. */
  lemma {:induction false} DecimalHasNoComma(n: int)
    ensures NoComma(Decimal(n))
  {
    var d := Digits(if n < 0 then -n else n);
    DigitsAreDigits(if n < 0 then -n else n);
    if n < 0 {
      assert forall i :: 1 <= i < |Decimal(n)| ==> Decimal(n)[i] == d[i - 1];
    }
  }

  /** The first comma after `prefix` when `prefix` has none. */
  lemma {:induction false} IndexOfAfter(prefix: string, rest: string, from: int)
    requires 0 <= from <= |prefix|
    requires forall i :: 0 <= i < |prefix| ==> prefix[i] != ','
    requires |rest| > 0 && rest[0] == ','
    ensures IndexOf(prefix + rest, ',', from) == |prefix|
  {
    var s := prefix + rest;
    var r := IndexOf(s, ',', from);
    assert s[|prefix|] == ',';
    assert forall i :: from <= i < |prefix| ==> s[i] == prefix[i];
  }

  predicate NoComma(s: string)
  {
    forall i :: 0 <= i < |s| ==> s[i] != ','
  }

  /** A comma-free field, a comma, and the rest: the first comma is the one after the field,
      and the slices give the parts back. */
  lemma {:induction false} SplitAtComma(s: string, p: string, rest: string)
    requires NoComma(p) && s == p + "," + rest
    ensures IndexOf(s, ',', 0) == |p|
    ensures s[0..|p|] == p && s[|p| + 1..] == rest
  {
    assert s == p + ("," + rest);
    IndexOfAfter(p, "," + rest, 0);
    assert s == (p + ",") + rest;
  }

  /** The texts of a comma-separated line read as `n + 1` fields: the text before each of
      the first `n` commas (`substring(begin, indexOf(',', begin))`, `begin` one past the
      previous comma), then the text after the last (`substring(comma + 1)`). The search
      from one past a comma is written as a search of the text after it. Where a comma is
      missing, `substring` is handed -1 and throws: the result stops at the texts found
      before it and is shorter than `n + 1`. */
  function FieldTexts(s: string, n: nat): (r: seq<string>)
    ensures |r| <= n + 1
    ensures forall k :: 0 <= k < |r| - 1 ==> NoComma(r[k])
    decreases n
  {
    if n == 0 then [s]
    else
      var comma := IndexOf(s, ',', 0);
      if comma == -1 then []
      else [s[..comma]] + FieldTexts(s[comma + 1..], n - 1)
  }

  /** Each text read as a number in `[lo, hi]`, in order; the first that fails decides the
      exception. */
  function ParseAll(ts: seq<string>, lo: int, hi: int): (r: Result<seq<int>>)
    ensures r.Ok? ==> |r.value| == |ts| && forall k :: 0 <= k < |ts| ==> ParseNumber(ts[k], lo, hi) == Ok(r.value[k])
    ensures r.Err? ==> r.error == NumberFormat && exists k :: 0 <= k < |ts| && ParseNumber(ts[k], lo, hi).Err?
  {
    if |ts| == 0 then Ok([])
    else
      var v :- ParseNumber(ts[0], lo, hi);
      var rest :- ParseAll(ts[1..], lo, hi);
      Ok([v] + rest)
  }

  /** The fields of `s`: `n + 1` comma-separated numbers in `[lo, hi]`, read left to right
      as the source does, finding each comma and then reading the text before it. The
      splitting and the reading are written as two passes: a malformed number before the
      first missing comma throws `NumberFormatException`, a missing comma with every earlier
      number well formed throws `IndexOutOfBoundsException`. */
  function Fields(s: string, n: nat, lo: int, hi: int): (r: Result<seq<int>>)
    ensures r.Ok? ==> |r.value| == n + 1 && forall k :: 0 <= k < |r.value| ==> lo <= r.value[k] <= hi
    ensures r.Err? ==> r.error == IndexOutOfBounds || r.error == NumberFormat
  {
    var vs :- ParseAll(FieldTexts(s, n), lo, hi);
    if |vs| < n + 1 then Err(IndexOutOfBounds) else Ok(vs)
  }

  /** The decimal forms of the numbers joined by commas. */
  function Joined(vs: seq<int>): string
    requires |vs| >= 1
  {
    if |vs| == 1 then Decimal(vs[0]) else Decimal(vs[0]) + "," + Joined(vs[1..])
  }

  /** The decimal forms of the numbers, one by one. */
  function Decimals(vs: seq<int>): (r: seq<string>)
    ensures |r| == |vs|
  {
    if |vs| == 0 then [] else [Decimal(vs[0])] + Decimals(vs[1..])
  }

  /** Splitting the joined decimal forms at their commas gives the decimal forms back. */
  lemma {:induction false} TextsOfJoined(vs: seq<int>)
    requires |vs| >= 1
    ensures FieldTexts(Joined(vs), |vs| - 1) == Decimals(vs)
    decreases |vs|
  {
    if |vs| > 1 {
      DecimalHasNoComma(vs[0]);
      SplitAtComma(Joined(vs), Decimal(vs[0]), Joined(vs[1..]));
      TextsOfJoined(vs[1..]);
    }
  }

  /** Reading the decimal forms of in-range numbers gives the numbers back. */
  lemma {:induction false} ParseAllDecimals(vs: seq<int>, lo: int, hi: int)
    requires forall k :: 0 <= k < |vs| ==> lo <= vs[k] <= hi
    ensures ParseAll(Decimals(vs), lo, hi) == Ok(vs)
    decreases |vs|
  {
    if |vs| > 0 {
      ParseDecimal(vs[0], lo, hi);
      ParseAllDecimals(vs[1..], lo, hi);
      assert [vs[0]] + vs[1..] == vs;
    }
  }

  /** Reading the fields of the joined decimal forms gives the numbers back. */
  lemma {:induction false} FieldsRoundTrip(vs: seq<int>, lo: int, hi: int)
    requires |vs| >= 1 && forall k :: 0 <= k < |vs| ==> lo <= vs[k] <= hi
    ensures Fields(Joined(vs), |vs| - 1, lo, hi) == Ok(vs)
  {
    TextsOfJoined(vs);
    ParseAllDecimals(vs, lo, hi);
  }

  /** Without a comma there is no second field: reading two or more fails, on a `substring`
      bound, whatever the text. */
  lemma {:induction false} FieldsNeedComma(s: string, n: nat, lo: int, hi: int)
    requires n >= 1 && IndexOf(s, ',', 0) == -1
    ensures Fields(s, n, lo, hi) == Err(IndexOutOfBounds)
  {
  }

  /** A malformed first field throws `NumberFormatException` before any later comma is
      looked for. */
  lemma {:induction false} FieldsFirstMalformed(s: string, n: nat, lo: int, hi: int)
    requires n >= 1
    requires IndexOf(s, ',', 0) != -1 && ParseNumber(s[..IndexOf(s, ',', 0)], lo, hi).Err?
    ensures Fields(s, n, lo, hi) == Err(NumberFormat)
  {
  }

  /** A string without commas has no comma from any index on. */
  lemma {:induction false} IndexOfNone(s: string, from: int)
    requires 0 <= from
    requires forall i :: 0 <= i < |s| ==> s[i] != ','
    ensures IndexOf(s, ',', from) == -1
  {
  }
}
