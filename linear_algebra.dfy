/** Gaussian elimination over `Fraction`s (helper/LinearAlgebra.java). The matrix is an
    augmented matrix [A | b]: every column but the last is a coefficient column. The Java
    `Fraction[][]` is an array of row arrays; here it is an array of row values, so swapping
    two rows swaps two values and writing an entry replaces its row. */
module LinearAlgebra {
  import opened JavaInt
  import opened Wrappers
  import opened MathUtil
  import opened Fractions

  /** Every row has `cols` entries, each a pair of `int`s. */
  predicate Rect(rows: seq<seq<Fraction>>, cols: int) {
    forall y :: 0 <= y < |rows| ==> |rows[y]| == cols && RowInRange(rows[y])
  }

  predicate RowInRange(row: seq<Fraction>) {
    forall x :: 0 <= x < |row| ==> InRange(row[x])
  }

  /** The first `n` entries of the row are zero (numerator zero). */
  predicate ZeroBefore(row: seq<Fraction>, n: int)
    requires 0 <= n <= |row|
  {
    forall x :: 0 <= x < n ==> IsZero(row[x])
  }

  /** The row reads 0 = c with c non-zero. */
  predicate Contradictory(row: seq<Fraction>)
    requires |row| >= 1
  {
    ZeroBefore(row, |row| - 1) && !IsZero(row[|row| - 1])
  }

  /** Some row of the matrix reads 0 = c with c non-zero. */
  predicate HasContradiction(rows: seq<seq<Fraction>>, cols: int)
    requires cols >= 1 && Rect(rows, cols)
  {
    exists y :: 0 <= y < |rows| && Contradictory(rows[y])
  }

  /** No row of the matrix reads 0 = c with c non-zero. */
  predicate NoContradiction(rows: seq<seq<Fraction>>, cols: int)
    requires cols >= 1 && Rect(rows, cols)
  {
    forall y :: 0 <= y < |rows| ==> !Contradictory(rows[y])
  }

  /** Strictly increasing column indices below `bound`. */
  predicate Pivots(piv: seq<int>, bound: int) {
    (forall i :: 0 <= i < |piv| ==> 0 <= piv[i] < bound) &&
    (forall i, j :: 0 <= i < j < |piv| ==> piv[i] < piv[j])
  }

  /** The elimination state before column `sx`: rows `0..|piv|` have a ONE pivot at
      column `piv[y]` with zeros before it, and every later row is zero before `sx`. */
  predicate EchelonPrefix(rows: seq<seq<Fraction>>, cols: int, piv: seq<int>, sx: int)
    requires 0 <= sx <= cols && Rect(rows, cols)
  {
    |piv| <= |rows| && Pivots(piv, sx) &&
    (forall y :: 0 <= y < |piv| ==> rows[y][piv[y]] == ONE && ZeroBefore(rows[y], piv[y])) &&
    (forall y :: |piv| <= y < |rows| ==> ZeroBefore(rows[y], sx))
  }

  /** Row echelon form with ONE pivots in the coefficient columns; the rows after the
      pivot rows have all coefficients zero. */
  predicate RowEchelon(rows: seq<seq<Fraction>>, cols: int, piv: seq<int>)
    requires cols >= 1 && Rect(rows, cols)
  {
    EchelonPrefix(rows, cols, piv, cols - 1)
  }

  /** Reduced row echelon form: also every other entry of a pivot column is zero. */
  predicate ReducedEchelon(rows: seq<seq<Fraction>>, cols: int, piv: seq<int>)
    requires cols >= 1 && Rect(rows, cols)
  {
    RowEchelon(rows, cols, piv) &&
    forall k, y :: 0 <= k < |piv| && 0 <= y < |rows| && y != k ==> IsZero(rows[y][piv[k]])
  }

  /** The pivot columns of the first `n` pivot rows are zero in every other row. */
  predicate Cleared(rows: seq<seq<Fraction>>, cols: int, piv: seq<int>, n: int)
    requires cols >= 1 && Rect(rows, cols) && RowEchelon(rows, cols, piv)
  {
    forall k, y :: 0 <= k < n && k < |piv| && 0 <= y < |rows| && y != k ==> IsZero(rows[y][piv[k]])
  }

  /** The condition `isConsistent` tests: a single column, or no row reads 0 = c with c
      non-zero. */
  predicate ConsistentSpec(rows: seq<seq<Fraction>>, cols: int)
    requires cols >= 1 && Rect(rows, cols)
  {
    cols == 1 || !HasContradiction(rows, cols)
  }

  /** `isConsistent`. An empty matrix (no `matrix[0]`) or an empty first row (no last column)
      throws ArrayIndexOutOfBoundsException. */
  method IsConsistent(m: array<seq<Fraction>>) returns (r: Result<bool>)
    requires m.Length > 0 ==> Rect(m[..], |m[0]|)
    ensures m.Length == 0 ==> r == Err(IndexOutOfBounds)
    ensures m.Length > 0 && |m[0]| == 0 ==> r == Err(IndexOutOfBounds)
    ensures m.Length > 0 && |m[0]| >= 1 ==> r == Ok(ConsistentSpec(m[..], |m[0]|))
  {
    if m.Length == 0 {
      return Err(IndexOutOfBounds);
    }
    var cols := |m[0]|;
    if cols == 1 {
      return Ok(true);
    }
    if cols == 0 {
      return Err(IndexOutOfBounds);
    }
    var y := 0;
    while y < m.Length
      invariant 0 <= y <= m.Length
      invariant forall k :: 0 <= k < y ==> !Contradictory(m[k])
    {
      var allZeros := true;
      var x := 0;
      while x < cols - 1
        invariant 0 <= x <= cols - 1
        invariant allZeros <==> ZeroBefore(m[y], x)
      {
        if !IsZero(m[y][x]) {
          allZeros := false;
          break;
        }
        x := x + 1;
      }
      assert allZeros <==> ZeroBefore(m[y], cols - 1);
      if allZeros && !IsZero(m[y][cols - 1]) {
        assert Contradictory(m[..][y]);
        return Ok(false);
      }
      y := y + 1;
    }
    assert forall k :: 0 <= k < m.Length ==> m[..][k] == m[k];
    return Ok(true);
  }

  /** The pivot search of `solve`: the first row from `sy` down whose entry in column `sx` is
      exactly ONE, or else the first row whose entry there is non-zero, or -1 if there is none. */
  method PivotRow(m: array<seq<Fraction>>, cols: int, sy: int, sx: int) returns (idx: int)
    requires 0 <= sx < cols && 0 <= sy <= m.Length && Rect(m[..], cols)
    ensures idx == -1 <==> forall y :: sy <= y < m.Length ==> IsZero(m[y][sx])
    ensures idx != -1 ==> sy <= idx < m.Length && !IsZero(m[idx][sx])
    ensures idx != -1 && m[idx][sx] == ONE ==> forall y :: sy <= y < idx ==> m[y][sx] != ONE
    ensures idx != -1 && m[idx][sx] != ONE ==>
              (forall y :: sy <= y < m.Length ==> m[y][sx] != ONE) &&
              (forall y :: sy <= y < idx ==> IsZero(m[y][sx]))
  {
    idx := -1;
    var y := sy;
    while y < m.Length
      invariant sy <= y <= m.Length
      invariant forall k :: sy <= k < y ==> m[k][sx] != ONE
      invariant idx == -1 ==> forall k :: sy <= k < y ==> IsZero(m[k][sx])
      invariant idx != -1 ==> sy <= idx < y && !IsZero(m[idx][sx]) &&
                              forall k :: sy <= k < idx ==> IsZero(m[k][sx])
    {
      var value := m[y][sx];
      if !IsZero(value) {
        if idx == -1 {
          idx := y;
        }
        if value == ONE {
          idx := y;
          break;
        }
      }
      y := y + 1;
    }
  }

  /** `e.minus(scale.times(s))`: the entry update of an elimination step; either call can throw. */
  function ElimEntry(a: Fraction, scale: Fraction, b: Fraction): (r: Result<Fraction>)
    requires InRange(a) && InRange(scale) && InRange(b)
    ensures r.Ok? ==> InRange(r.value)
  {
    var t :- Times(scale, b);
    Minus(a, t)
  }

  /** The pivot row is scaled: the pivot entry becomes ONE and every later entry is divided
      by the old pivot entry; the entries before the pivot are left as they are. */
  method NormalizeRow(m: array<seq<Fraction>>, cols: int, y: int, sx: int) returns (r: Result<()>)
    requires 0 <= sx < cols && 0 <= y < m.Length && Rect(m[..], cols)
    modifies m
    ensures Rect(m[..], cols)
    ensures forall k :: 0 <= k < m.Length && k != y ==> m[k] == old(m[k])
    ensures r.Ok? <==> forall x :: sx < x < cols ==> Divide(old(m[y][x]), old(m[y][sx])).Ok?
    ensures r.Err? ==> r.error == Arithmetic
    ensures r.Ok? ==> m[y][sx] == ONE && forall x :: 0 <= x < sx ==> m[y][x] == old(m[y][x])
    ensures r.Ok? ==> forall x :: sx < x < cols ==> Divide(old(m[y][x]), old(m[y][sx])) == Ok(m[y][x])
  {
    var scale := m[y][sx];
    ghost var row0 := m[y];
    m[y] := m[y][sx := ONE];
    var x := sx + 1;
    while x < cols
      invariant sx + 1 <= x <= cols
      invariant Rect(m[..], cols)
      invariant forall k :: 0 <= k < m.Length && k != y ==> m[k] == old(m[k])
      invariant m[y][sx] == ONE && forall j :: 0 <= j < sx ==> m[y][j] == row0[j]
      invariant forall j :: x <= j < cols ==> m[y][j] == row0[j]
      invariant forall j :: sx < j < x ==> Divide(row0[j], scale) == Ok(m[y][j])
    {
      var next := Divide(m[y][x], scale);
      if next.Err? {
        return Err(next.error);
      }
      m[y] := m[y][x := next.value];
      x := x + 1;
    }
    r := Ok(());
  }

  /** Row `t` loses a multiple of row `src`: with `scale` the entry of row `t` in column `col`,
      that entry becomes ZERO and every later entry `e` becomes `e.minus(scale.times(s))`,
      where `s` is the entry of row `src` in the same column. `allZeros` says whether the new
      coefficients after column `col` are all zero. */
  method EliminateRow(m: array<seq<Fraction>>, cols: int, t: int, src: int, col: int)
    returns (r: Result<()>, allZeros: bool)
    requires 0 <= col < cols && 0 <= t < m.Length && 0 <= src < m.Length && t != src
    requires Rect(m[..], cols)
    modifies m
    ensures Rect(m[..], cols)
    ensures forall k :: 0 <= k < m.Length && k != t ==> m[k] == old(m[k])
    ensures r.Ok? <==> forall x :: col < x < cols ==> ElimEntry(old(m[t][x]), old(m[t][col]), old(m[src][x])).Ok?
    ensures r.Err? ==> r.error == Arithmetic
    ensures r.Ok? ==> m[t][col] == ZERO && forall x :: 0 <= x < col ==> m[t][x] == old(m[t][x])
    ensures r.Ok? ==> forall x :: col < x < cols ==>
              ElimEntry(old(m[t][x]), old(m[t][col]), old(m[src][x])) == Ok(m[t][x])
    ensures r.Ok? ==> (allZeros <==> forall x :: col < x < cols - 1 ==> IsZero(m[t][x]))
  {
    var scale := m[t][col];
    ghost var row0 := m[t];
    var source := m[src];
    var row := m[t][col := ZERO];
    allZeros := true;
    var x := col + 1;
    while x < cols
      invariant col + 1 <= x <= cols
      invariant |row| == cols && RowInRange(row)
      invariant row[col] == ZERO && forall j :: 0 <= j < col ==> row[j] == row0[j]
      invariant forall j :: x <= j < cols ==> row[j] == row0[j]
      invariant forall j :: col < j < x ==> ElimEntry(row0[j], scale, source[j]) == Ok(row[j])
      invariant allZeros <==> forall j :: col < j < x && j < cols - 1 ==> IsZero(row[j])
    {
      var product := Times(scale, source[x]);
      if product.Err? {
        m[t] := row;
        return Err(product.error), allZeros;
      }
      var next := Minus(row[x], product.value);
      if next.Err? {
        m[t] := row;
        return Err(next.error), allZeros;
      }
      row := row[x := next.value];
      if x < cols - 1 && !IsZero(next.value) {
        allZeros := false;
      }
      x := x + 1;
    }
    m[t] := row;
    r := Ok(());
  }

  /** Replacing one non-pivot row by a row that is still zero before `sx` keeps the prefix. */
  lemma {:induction false} EchelonRowUpdate(rows: seq<seq<Fraction>>, rows': seq<seq<Fraction>>, cols: int,
                         piv: seq<int>, sx: int, t: int)
    requires 0 <= sx <= cols && Rect(rows, cols) && Rect(rows', cols) && |rows'| == |rows|
    requires EchelonPrefix(rows, cols, piv, sx) && |piv| <= t < |rows|
    requires forall k :: 0 <= k < |rows| && k != t ==> rows'[k] == rows[k]
    requires ZeroBefore(rows'[t], sx)
    ensures EchelonPrefix(rows', cols, piv, sx)
  {
  }

  /** Replacing one row by a row that is not 0 = c keeps the matrix free of such rows. */
  lemma {:induction false} NoContradictionUpdate(rows: seq<seq<Fraction>>, rows': seq<seq<Fraction>>, cols: int, t: int)
    requires cols >= 1 && Rect(rows, cols) && Rect(rows', cols) && |rows'| == |rows|
    requires NoContradiction(rows, cols) && 0 <= t < |rows|
    requires forall k :: 0 <= k < |rows| && k != t ==> rows'[k] == rows[k]
    requires !Contradictory(rows'[t])
    ensures NoContradiction(rows', cols)
  {
  }

  /** The pivot row is swapped up to row `sy` (when it is elsewhere) and normalised. */
  method PlacePivot(m: array<seq<Fraction>>, cols: int, sy: int, sx: int, idx: int, ghost piv: seq<int>)
    returns (r: Result<()>)
    requires 0 <= sx < cols - 1 && Rect(m[..], cols) && |piv| == sy && sy <= idx < m.Length
    requires EchelonPrefix(m[..], cols, piv, sx) && NoContradiction(m[..], cols)
    requires !IsZero(m[idx][sx])
    modifies m
    ensures Rect(m[..], cols)
    ensures forall k :: 0 <= k < m.Length && k != sy && k != idx ==> m[k] == old(m[k])
    ensures idx != sy ==> m[idx] == old(m[sy])
    ensures r.Err? ==> r.error == Arithmetic
    ensures r.Ok? ==> m[sy][sx] == ONE && forall x :: 0 <= x < sx ==> m[sy][x] == old(m[idx][x])
    ensures r.Ok? ==> forall x :: sx < x < cols ==> Divide(old(m[idx][x]), old(m[idx][sx])) == Ok(m[sy][x])
    ensures r.Ok? ==> EchelonPrefix(m[..], cols, piv, sx) && NoContradiction(m[..], cols)
  {
    if idx != sy {
      m[sy], m[idx] := m[idx], m[sy];
    }
    assert EchelonPrefix(m[..], cols, piv, sx);
    assert NoContradiction(m[..], cols);
    ghost var before := m[..];
    r := NormalizeRow(m, cols, sy, sx);
    if r.Ok? {
      assert ZeroBefore(m[sy], sx);
      assert !Contradictory(m[sy]);
      EchelonRowUpdate(before, m[..], cols, piv, sx, sy);
      NoContradictionUpdate(before, m[..], cols, sy);
    }
  }

  /** The elimination loop of `solve` below the pivot row `sy`: every later row with a
      non-zero entry in column `sx` loses a multiple of the pivot row. */
  method EliminateBelow(m: array<seq<Fraction>>, cols: int, sy: int, sx: int, ghost piv: seq<int>)
    returns (r: Result<bool>)
    requires 0 <= sx < cols - 1 && Rect(m[..], cols) && |piv| == sy < m.Length
    requires EchelonPrefix(m[..], cols, piv, sx) && NoContradiction(m[..], cols)
    requires m[sy][sx] == ONE
    modifies m
    ensures Rect(m[..], cols)
    ensures forall k :: 0 <= k <= sy ==> m[k] == old(m[k])
    ensures r == Ok(true) ==> EchelonPrefix(m[..], cols, piv + [sx], sx + 1) && NoContradiction(m[..], cols)
    ensures r == Ok(false) ==> HasContradiction(m[..], cols)
    ensures r.Err? ==> r.error == Arithmetic
  {
    var y := sy + 1;
    while y < m.Length
      invariant sy + 1 <= y <= m.Length
      invariant Rect(m[..], cols)
      invariant forall k :: 0 <= k <= sy ==> m[k] == old(m[k])
      invariant EchelonPrefix(m[..], cols, piv, sx)
      invariant forall k :: sy < k < y ==> ZeroBefore(m[k], sx + 1)
      invariant NoContradiction(m[..], cols)
    {
      ghost var before := m[..];
      var step := EliminateStep(m, cols, sy, sx, y, piv);
      if step.Err? || !step.value {
        return step;
      }
      assert forall k :: 0 <= k < m.Length && k != y ==> m[k] == before[k];
      y := y + 1;
    }
    EchelonExtend(m[..], cols, piv, sx);
    r := Ok(true);
  }

  /** A ONE pivot in row |piv| and column sx, with zeros below it, extends the prefix. */
  lemma {:induction false} EchelonExtend(rows: seq<seq<Fraction>>, cols: int, piv: seq<int>, sx: int)
    requires 0 <= sx < cols && Rect(rows, cols) && |piv| < |rows|
    requires EchelonPrefix(rows, cols, piv, sx)
    requires rows[|piv|][sx] == ONE
    requires forall k :: |piv| < k < |rows| ==> ZeroBefore(rows[k], sx + 1)
    ensures EchelonPrefix(rows, cols, piv + [sx], sx + 1)
  {
    var piv' := piv + [sx];
    forall y | 0 <= y < |piv'|
      ensures rows[y][piv'[y]] == ONE && ZeroBefore(rows[y], piv'[y])
    {
      if y < |piv| {
        assert piv'[y] == piv[y];
      }
    }
  }

  /** One iteration of the elimination loop of `solve`, for row `y`. */
  method EliminateStep(m: array<seq<Fraction>>, cols: int, sy: int, sx: int, y: int, ghost piv: seq<int>)
    returns (r: Result<bool>)
    requires 0 <= sx < cols - 1 && Rect(m[..], cols) && |piv| == sy < y < m.Length
    requires EchelonPrefix(m[..], cols, piv, sx) && NoContradiction(m[..], cols)
    modifies m
    ensures Rect(m[..], cols)
    ensures forall k :: 0 <= k < m.Length && k != y ==> m[k] == old(m[k])
    ensures r == Ok(true) ==> EchelonPrefix(m[..], cols, piv, sx) && NoContradiction(m[..], cols)
    ensures r == Ok(true) ==> ZeroBefore(m[y], sx + 1)
    ensures r == Ok(false) ==> HasContradiction(m[..], cols)
    ensures r.Err? ==> r.error == Arithmetic
  {
    var subScale := m[y][sx];
    if IsZero(subScale) {
      return Ok(true);
    }
    ghost var before := m[..];
    var e, allZeros := EliminateRow(m, cols, y, sy, sx);
    if e.Err? {
      return Err(e.error);
    }
    StepOutcome(before, m[..], cols, piv, sx, y, allZeros);
    if allZeros && !IsZero(m[y][cols - 1]) {
      return Ok(false);
    }
    r := Ok(true);
  }

  /** What one elimination step leaves: row `y` is zero up to and including column `sx`,
      and it is 0 = c exactly when `allZeros` holds and its last entry is non-zero. */
  lemma {:induction false} StepOutcome(before: seq<seq<Fraction>>, after: seq<seq<Fraction>>, cols: int,
                    piv: seq<int>, sx: int, y: int, allZeros: bool)
    requires 0 <= sx < cols - 1 && Rect(before, cols) && Rect(after, cols) && |after| == |before|
    requires |piv| < y < |before| && EchelonPrefix(before, cols, piv, sx) && NoContradiction(before, cols)
    requires forall k :: 0 <= k < |before| && k != y ==> after[k] == before[k]
    requires after[y][sx] == ZERO && forall x :: 0 <= x < sx ==> after[y][x] == before[y][x]
    requires allZeros <==> forall x :: sx < x < cols - 1 ==> IsZero(after[y][x])
    ensures ZeroBefore(after[y], sx + 1)
    ensures allZeros && !IsZero(after[y][cols - 1]) ==> HasContradiction(after, cols)
    ensures !(allZeros && !IsZero(after[y][cols - 1])) ==>
              EchelonPrefix(after, cols, piv, sx) && NoContradiction(after, cols)
  {
    assert ZeroBefore(after[y], sx + 1);
    if allZeros && !IsZero(after[y][cols - 1]) {
      assert Contradictory(after[y]);
    } else {
      assert !Contradictory(after[y]);
      EchelonRowUpdate(before, after, cols, piv, sx, y);
      NoContradictionUpdate(before, after, cols, y);
    }
  }

  /** The recursive `solve(matrix, startY, startX)`: forward elimination from row `sy` and
      column `sx`. It returns false as soon as an elimination step leaves a row 0 = c with c
      non-zero; it returns true in row echelon form. */
  method SolveFrom(m: array<seq<Fraction>>, cols: int, sy: int, sx: int, ghost piv: seq<int>)
    returns (r: Result<bool>, ghost pivOut: seq<int>)
    requires cols >= 1 && Rect(m[..], cols)
    requires 0 <= sy <= m.Length && 0 <= sx <= cols - 1 && |piv| == sy
    requires EchelonPrefix(m[..], cols, piv, sx) && (cols > 1 ==> NoContradiction(m[..], cols))
    modifies m
    decreases cols - sx
    ensures Rect(m[..], cols)
    ensures cols == 1 ==> r == Ok(true) && m[..] == old(m[..])
    ensures r == Ok(true) ==> RowEchelon(m[..], cols, pivOut) && (cols > 1 ==> NoContradiction(m[..], cols))
    ensures r == Ok(false) ==> HasContradiction(m[..], cols)
    ensures r.Err? ==> r.error == Arithmetic
  {
    if sy == m.Length || sx == cols - 1 {
      return Ok(true), piv;
    }
    var idx := PivotRow(m, cols, sy, sx);
    if idx == -1 {
      assert EchelonPrefix(m[..], cols, piv, sx + 1);
      r, pivOut := SolveFrom(m, cols, sy, sx + 1, piv);
      return;
    }
    var placed := PlacePivot(m, cols, sy, sx, idx, piv);
    if placed.Err? {
      return Err(placed.error), piv;
    }
    var ok := EliminateBelow(m, cols, sy, sx, piv);
    if ok.Err? || !ok.value {
      return ok, piv;
    }
    r, pivOut := SolveFrom(m, cols, sy + 1, sx + 1, piv + [sx]);
  }

  /** One row above pivot row `y` loses a multiple of that row, unless its entry in the
      pivot column is already zero. */
  method ClearUpper(m: array<seq<Fraction>>, cols: int, subY: int, y: int, p: int, ghost piv: seq<int>)
    returns (r: Result<()>)
    requires cols >= 1 && Rect(m[..], cols) && RowEchelon(m[..], cols, piv) && NoContradiction(m[..], cols)
    requires 0 <= subY < y < |piv| && p == piv[y] && Cleared(m[..], cols, piv, y)
    modifies m
    ensures Rect(m[..], cols)
    ensures forall k :: 0 <= k < m.Length && k != subY ==> m[k] == old(m[k])
    ensures r.Err? ==> r.error == Arithmetic
    ensures r.Ok? ==> RowEchelon(m[..], cols, piv) && NoContradiction(m[..], cols)
    ensures r.Ok? ==> Cleared(m[..], cols, piv, y) && IsZero(m[subY][piv[y]])
  {
    var scale := m[subY][p];
    if IsZero(scale) {
      return Ok(());
    }
    ghost var before := m[..];
    var e, _ := EliminateRow(m, cols, subY, y, p);
    if e.Err? {
      return Err(e.error);
    }
    assert piv[subY] < p;
    assert forall x :: 0 <= x <= piv[subY] ==> m[subY][x] == before[subY][x];
    assert m[subY][piv[subY]] == ONE;
    assert !Contradictory(m[subY]);
    NoContradictionUpdate(before, m[..], cols, subY);
    forall k, y' | 0 <= k < y && k < |piv| && 0 <= y' < m.Length && y' != k
      ensures IsZero(m[y'][piv[k]])
    {
      if y' == subY {
        assert piv[k] < p;
        assert m[subY][piv[k]] == before[subY][piv[k]];
      }
    }
    r := Ok(());
  }

  /** The loop of `reduce` over the rows above pivot row `y`. */
  method ClearColumnAbove(m: array<seq<Fraction>>, cols: int, y: int, p: int, ghost piv: seq<int>)
    returns (r: Result<()>)
    requires cols >= 1 && Rect(m[..], cols) && RowEchelon(m[..], cols, piv) && NoContradiction(m[..], cols)
    requires 0 <= y < |piv| && p == piv[y] && Cleared(m[..], cols, piv, y)
    modifies m
    ensures Rect(m[..], cols)
    ensures forall k :: y <= k < m.Length ==> m[k] == old(m[k])
    ensures r.Err? ==> r.error == Arithmetic
    ensures r.Ok? ==> RowEchelon(m[..], cols, piv) && NoContradiction(m[..], cols)
    ensures r.Ok? ==> Cleared(m[..], cols, piv, y + 1)
  {
    var subY := 0;
    while subY < y
      invariant 0 <= subY <= y
      invariant Rect(m[..], cols) && RowEchelon(m[..], cols, piv) && NoContradiction(m[..], cols)
      invariant Cleared(m[..], cols, piv, y)
      invariant forall k :: y <= k < m.Length ==> m[k] == old(m[k])
      invariant forall k :: 0 <= k < subY ==> IsZero(m[k][piv[y]])
    {
      ghost var before := m[..];
      var step := ClearUpper(m, cols, subY, y, p, piv);
      if step.Err? {
        return step;
      }
      assert forall k :: 0 <= k < m.Length && k != subY ==> m[k] == before[k];
      subY := subY + 1;
    }
    forall k, y' | 0 <= k < y + 1 && k < |piv| && 0 <= y' < m.Length && y' != k
      ensures IsZero(m[y'][piv[k]])
    {
      if k == y && y' > y {
        if y' < |piv| {
          assert piv[y] < piv[y'];
          assert ZeroBefore(m[y'], piv[y']);
        } else {
          assert ZeroBefore(m[y'], cols - 1);
        }
      }
    }
    r := Ok(());
  }

  /** `reduce`: back substitution on a matrix in row echelon form. `leadingX` walks along the
      pivot columns; the first row without a pivot ends the pass. */
  method ReduceMatrix(m: array<seq<Fraction>>, cols: int, ghost piv: seq<int>) returns (r: Result<()>)
    requires cols >= 1 && Rect(m[..], cols) && RowEchelon(m[..], cols, piv)
    requires cols > 1 ==> NoContradiction(m[..], cols)
    modifies m
    ensures Rect(m[..], cols)
    ensures cols == 1 ==> r == Ok(()) && m[..] == old(m[..])
    ensures r.Err? ==> r.error == Arithmetic
    ensures r.Ok? ==> ReducedEchelon(m[..], cols, piv) && (cols > 1 ==> NoContradiction(m[..], cols))
  {
    var leadingX := 0;
    var y := 0;
    while y < m.Length
      invariant 0 <= y <= |piv|
      invariant Rect(m[..], cols) && RowEchelon(m[..], cols, piv)
      invariant cols > 1 ==> NoContradiction(m[..], cols)
      invariant Cleared(m[..], cols, piv, y)
      invariant leadingX == if y == 0 then 0 else piv[y - 1] + 1
      invariant cols == 1 ==> m[..] == old(m[..])
    {
      assert y < |piv| ==> leadingX <= piv[y] < cols - 1;
      if leadingX >= cols - 1 {
        assert y == |piv|;
        return Ok(());
      }
      var row := m[y];
      assert y < |piv| ==> m[..][y] == row && row[piv[y]] == ONE && piv[y] <= cols - 2;
      while IsZero(row[leadingX])
        invariant 0 <= leadingX <= cols - 2
        invariant y < |piv| ==> leadingX <= piv[y]
        decreases cols - leadingX
      {
        if leadingX >= cols - 2 {
          assert y == |piv|;
          return Ok(());
        }
        leadingX := leadingX + 1;
      }
      assert y < |piv| && leadingX == piv[y];
      r := ClearColumnAbove(m, cols, y, leadingX, piv);
      if r.Err? {
        return;
      }
      leadingX := leadingX + 1;
      y := y + 1;
    }
    r := Ok(());
  }

  /** `solve(Fraction[][])`: the consistency test, forward elimination and back substitution,
      in place. True leaves the matrix in reduced row echelon form with ONE pivots; false
      leaves a row 0 = c with c non-zero in it. A single-column matrix has no coefficients and
      is reported solvable unchanged. */
  method Solve(m: array<seq<Fraction>>) returns (r: Result<bool>, ghost piv: seq<int>)
    requires m.Length > 0 ==> Rect(m[..], |m[0]|)
    modifies m
    ensures m.Length == 0 ==> r == Err(IndexOutOfBounds)
    ensures m.Length > 0 ==> Rect(m[..], |old(m[0])|)
    ensures m.Length > 0 && |old(m[0])| == 0 ==> r == Err(IndexOutOfBounds)
    ensures m.Length > 0 && |old(m[0])| == 1 ==> r == Ok(true) && m[..] == old(m[..])
    ensures r.Err? ==> r.error == IndexOutOfBounds || r.error == Arithmetic
    ensures r == Ok(true) ==> m.Length > 0 && |old(m[0])| >= 1 && ReducedEchelon(m[..], |old(m[0])|, piv)
    ensures r == Ok(true) && |old(m[0])| > 1 ==> NoContradiction(m[..], |old(m[0])|)
    ensures r == Ok(false) ==> m.Length > 0 && |old(m[0])| > 1 && HasContradiction(m[..], |old(m[0])|)
  {
    piv := [];
    var consistent := IsConsistent(m);
    if consistent.Err? {
      return Err(consistent.error), piv;
    }
    var cols := |m[0]|;
    if !consistent.value {
      return Ok(false), piv;
    }
    assert EchelonPrefix(m[..], cols, [], 0);
    var solved;
    solved, piv := SolveFrom(m, cols, 0, 0, []);
    if solved.Err? || !solved.value {
      return solved, piv;
    }
    var reduced := ReduceMatrix(m, cols, piv);
    if reduced.Err? {
      return Err(reduced.error), piv;
    }
    r := Ok(true);
  }

  /** The `new Fraction(matrix[y][x], 1)` conversion of one row. */
  function ToFractions(row: seq<int>): (r: seq<Fraction>)
    ensures |r| == |row|
    ensures forall x :: 0 <= x < |row| ==> r[x].numerator == row[x] && r[x].denominator == 1
  {
    seq(|row|, x requires 0 <= x < |row| => Fraction(row[x], 1))
  }

  /** The lcm of the denominators of a row, folded with `lcm(int, int)` from the first entry. */
  function RowLcm(row: seq<Fraction>): (r: Result<int>)
    requires |row| > 0 && RowInRange(row)
    ensures r.Err? ==> r.error == Arithmetic
    ensures r.Ok? ==> IsInt(r.value)
  {
    if |row| == 1 then Ok(row[0].denominator)
    else
      var l :- RowLcm(row[..|row| - 1]);
      LcmInt(l, row[|row| - 1].denominator)
  }

  /** `numerator * (lcm / denominator)` for every entry, with 32-bit wrap-around; a zero
      denominator throws ArithmeticException. */
  function ScaleEntries(row: seq<Fraction>, l: int): (r: Result<seq<int>>)
    requires RowInRange(row) && IsInt(l)
    ensures r.Ok? ==> |r.value| == |row|
  {
    if exists x :: 0 <= x < |row| && row[x].denominator == 0 then Err(Arithmetic)
    else Ok(seq(|row|, x requires 0 <= x < |row| => ScaleEntry(row[x], l)))
  }

  /** One entry written back: `numerator * (lcm / denominator)` in 32-bit arithmetic. */
  function ScaleEntry(f: Fraction, l: int): (r: int)
    requires f.denominator != 0
    ensures IsInt(r)
  {
    Wrap32(f.numerator * Wrap32(Div(l, f.denominator)))
  }

  /** The integer row `solve(int[][])` writes back for a solved fraction row. */
  function ScaledRow(row: seq<Fraction>): Result<seq<int>>
    requires |row| > 0 && RowInRange(row)
  {
    var l :- RowLcm(row);
    ScaleEntries(row, l)
  }

  /** The fold of `lcm` over the denominators: every step's product fits in an `int`. */
  predicate RowLcmFits(row: seq<Fraction>)
    requires |row| > 0 && RowInRange(row)
  {
    |row| == 1 ||
    (RowLcmFits(row[..|row| - 1]) &&
     match RowLcm(row[..|row| - 1])
     case Err(_) => false
     case Ok(l) => IsInt(l * row[|row| - 1].denominator) && l * row[|row| - 1].denominator != INT_MIN)
  }

  /** With non-zero denominators and no overflow, the row lcm is a non-zero common multiple
      of every denominator of the row. */
  lemma {:induction false} RowLcmCommon(row: seq<Fraction>)
    requires |row| > 0 && RowInRange(row) && RowLcmFits(row)
    requires forall x :: 0 <= x < |row| ==> row[x].denominator != 0
    ensures RowLcm(row).Ok? && RowLcm(row).value != 0
    ensures forall x :: 0 <= x < |row| ==> Arith.Divides(row[x].denominator, RowLcm(row).value)
  {
    if |row| == 1 {
      Arith.DividesIntro(row[0].denominator, row[0].denominator, 1);
    } else {
      var init := row[..|row| - 1];
      var last := row[|row| - 1].denominator;
      RowLcmCommon(init);
      var acc := RowLcm(init).value;
      assert IsInt(acc * last) && acc * last != INT_MIN;
      LcmIntExact(acc, last);
      ExactLcmIsLcm(acc, last);
      ExactLcmNonZero(acc, last);
      var l := RowLcm(row).value;
      assert l == ExactLcm(acc, last);
      forall x | 0 <= x < |row|
        ensures Arith.Divides(row[x].denominator, l)
      {
        if x < |row| - 1 {
          assert row[x] == init[x];
          Arith.DividesTrans(row[x].denominator, acc, l);
        }
      }
    }
  }

  /** The integer `v` is the fraction `f` multiplied by `l`. */
  predicate ScaledBy(v: int, l: int, f: Fraction)
    requires f.denominator != 0
  {
    v as real == l as real * Value(f)
  }

  /** Without overflow, each integer written back is its fraction multiplied by the row lcm:
      the integer row is the solved row scaled by a common factor. */
  lemma {:induction false} ScaledRowValue(row: seq<Fraction>, x: int)
    requires |row| > 0 && RowInRange(row) && RowLcmFits(row) && 0 <= x < |row|
    requires forall i :: 0 <= i < |row| ==> row[i].denominator != 0
    requires RowLcm(row).Ok?
    requires IsInt(Div(RowLcm(row).value, row[x].denominator))
    requires IsInt(row[x].numerator * Div(RowLcm(row).value, row[x].denominator))
    ensures ScaledRow(row).Ok?
    ensures ScaledBy(ScaledRow(row).value[x], RowLcm(row).value, row[x])
  {
    RowLcmCommon(row);
    var l := RowLcm(row).value;
    assert ScaledRow(row) == ScaleEntries(row, l);
    ScaledEntryValue(row, l, x);
  }

  lemma {:induction false} ScaledEntryValue(row: seq<Fraction>, l: int, x: int)
    requires RowInRange(row) && IsInt(l) && 0 <= x < |row|
    requires forall i :: 0 <= i < |row| ==> row[i].denominator != 0
    requires Arith.Divides(row[x].denominator, l)
    requires IsInt(Div(l, row[x].denominator)) && IsInt(row[x].numerator * Div(l, row[x].denominator))
    ensures ScaleEntries(row, l).Ok?
    ensures ScaledBy(ScaleEntries(row, l).value[x], l, row[x])
  {
    var f := row[x];
    var k := Arith.DividesElim(f.denominator, l);
    DivExact(l, f.denominator, k);
    assert ScaleEntries(row, l).value[x] == ScaleEntry(f, l) == f.numerator * k;
    ScaledValue(f, k, l);
  }

  lemma {:induction false} ScaledValue(f: Fraction, k: int, l: int)
    requires f.denominator != 0 && l == f.denominator * k
    ensures (f.numerator * k) as real == l as real * Value(f)
  {
    var n, d := f.numerator, f.denominator;
    assert (n * k) as real == n as real * k as real;
    assert l as real == d as real * k as real;
    assert l as real * (n as real / d as real) == n as real * k as real;
  }

  /** The conversion loop of `solve(int[][])`. */
  method FromInts(matrix: array<seq<int>>, cols: nat) returns (frac: array<seq<Fraction>>)
    requires forall y :: 0 <= y < matrix.Length ==> |matrix[y]| == cols
    ensures fresh(frac) && frac.Length == matrix.Length
    ensures forall y :: 0 <= y < matrix.Length ==> frac[y] == ToFractions(matrix[y])
  {
    frac := new seq<Fraction>[matrix.Length];
    var y := 0;
    while y < matrix.Length
      invariant 0 <= y <= matrix.Length
      invariant forall k :: 0 <= k < y ==> frac[k] == ToFractions(matrix[k])
      modifies frac
    {
      var row: seq<Fraction> := [];
      var x := 0;
      while x < cols
        invariant 0 <= x <= cols
        invariant row == ToFractions(matrix[y][..x])
      {
        row := row + [Fraction(matrix[y][x], 1)];
        assert matrix[y][..x + 1] == matrix[y][..x] + [matrix[y][x]];
        x := x + 1;
      }
      assert matrix[y][..cols] == matrix[y];
      frac[y] := row;
      y := y + 1;
    }
  }

  /** The lcm loop of `solve(int[][])` for one solved row. */
  method RowLcmLoop(row: seq<Fraction>) returns (r: Result<int>)
    requires |row| > 0 && RowInRange(row)
    ensures r == RowLcm(row)
  {
    var l := row[0].denominator;
    var x := 1;
    while x < |row|
      invariant 1 <= x <= |row|
      invariant RowLcm(row[..x]) == Ok(l)
    {
      assert row[..x + 1][..x] == row[..x];
      var next := LcmInt(l, row[x].denominator);
      if next.Err? {
        RowLcmPrefixErr(row, x + 1);
        return Err(next.error);
      }
      l := next.value;
      x := x + 1;
    }
    assert row[..|row|] == row;
    r := Ok(l);
  }

  /** The write-back loop of `solve(int[][])` for one solved row and its lcm. */
  method ScaleLoop(row: seq<Fraction>, l: int) returns (r: Result<seq<int>>)
    requires RowInRange(row) && IsInt(l)
    ensures r == ScaleEntries(row, l)
  {
    var out: seq<int> := [];
    var x := 0;
    while x < |row|
      invariant 0 <= x <= |row| && |out| == x
      invariant forall j :: 0 <= j < x ==> row[j].denominator != 0 && out[j] == ScaleEntry(row[j], l)
    {
      var f := row[x];
      if f.denominator == 0 {
        return Err(Arithmetic);
      }
      out := out + [ScaleEntry(f, l)];
      x := x + 1;
    }
    assert ScaleEntries(row, l) == Ok(out) by {
      assert !exists j :: 0 <= j < |row| && row[j].denominator == 0;
      var e := seq(|row|, j requires 0 <= j < |row| => ScaleEntry(row[j], l));
      assert e == out;
    }
    r := Ok(out);
  }

  /** Both loops of `solve(int[][])` for one solved row. */
  method ScaleRowInts(row: seq<Fraction>) returns (r: Result<seq<int>>)
    requires |row| > 0 && RowInRange(row)
    ensures r == ScaledRow(row)
  {
    var l :- RowLcmLoop(row);
    r := ScaleLoop(row, l);
  }

  /** Once the lcm fold fails on a prefix it fails on the whole row. */
  lemma {:induction false} RowLcmPrefixErr(row: seq<Fraction>, n: int)
    requires |row| > 0 && RowInRange(row) && 1 <= n <= |row|
    requires RowLcm(row[..n]).Err?
    ensures RowLcm(row).Err?
    decreases |row| - n
  {
    if n < |row| {
      assert row[..n + 1][..n] == row[..n];
      RowLcmPrefixErr(row, n + 1);
    } else {
      assert row[..n] == row;
    }
  }

  /** `solve(int[][])`: converts the entries to fractions n/1, solves, and on success writes
      every solved row back multiplied by the lcm of its denominators. `solved` is the fraction
      matrix after solving. */
  method SolveInts(matrix: array<seq<int>>) returns (r: Result<bool>, ghost solved: seq<seq<Fraction>>, ghost piv: seq<int>)
    requires matrix.Length > 0 ==>
               forall y :: 0 <= y < matrix.Length ==>
                 |matrix[y]| == |matrix[0]| && forall x :: 0 <= x < |matrix[y]| ==> IsInt(matrix[y][x])
    modifies matrix
    ensures matrix.Length == 0 ==> r == Err(IndexOutOfBounds)
    ensures r.Err? ==> r.error == IndexOutOfBounds || r.error == Arithmetic
    ensures r == Ok(false) ==> matrix[..] == old(matrix[..])
    ensures r.Ok? ==> matrix.Length > 0 && |solved| == matrix.Length && Rect(solved, |old(matrix[0])|)
    ensures r == Ok(false) ==> |old(matrix[0])| > 1 && HasContradiction(solved, |old(matrix[0])|)
    ensures r == Ok(true) ==> |old(matrix[0])| >= 1 && ReducedEchelon(solved, |old(matrix[0])|, piv)
    ensures r == Ok(true) && |old(matrix[0])| > 1 ==> NoContradiction(solved, |old(matrix[0])|)
    ensures r == Ok(true) ==> forall y :: 0 <= y < matrix.Length ==> ScaledRow(solved[y]) == Ok(matrix[y])
  {
    solved, piv := [], [];
    if matrix.Length == 0 {
      return Err(IndexOutOfBounds), solved, piv;
    }
    var cols := |matrix[0]|;
    var frac := FromInts(matrix, cols);
    assert Rect(frac[..], cols);
    var res;
    res, piv := Solve(frac);
    solved := frac[..];
    if res.Err? || !res.value {
      return res, solved, piv;
    }
    var y := 0;
    while y < matrix.Length
      invariant 0 <= y <= matrix.Length
      invariant forall k :: 0 <= k < y ==> ScaledRow(solved[k]) == Ok(matrix[k])
      modifies matrix
    {
      var scaled := ScaleRowInts(frac[y]);
      if scaled.Err? {
        return Err(scaled.error), solved, piv;
      }
      matrix[y] := scaled.value;
      y := y + 1;
    }
    r := Ok(true);
  }
}
