/** `Day06.kt`: a worksheet of problems written side by side. The lines are cut into blocks at
    every column that is blank in all of them; in each block the last row holds the operator
    (`+`, otherwise multiplication) and the rows above it the operands. `part1` reads each
    operand row as a number, `part2` reads each column of digits top to bottom as a number;
    both add up the results of all blocks. */
module Day06 {
  import opened Wrappers
  import opened JavaInt
  import opened JavaText
  import opened Collections

  // ---------------------------------------------------------------------------------------
  // Cutting the lines into blocks
  // ---------------------------------------------------------------------------------------

  /** Column `j` is a space in every line. */
  predicate BlankColumn(lines: seq<string>, j: int)
  {
    forall k :: 0 <= k < |lines| ==> 0 <= j < |lines[k]| && lines[k][j] == ' '
  }

  /** Some line is shorter than the first one. */
  predicate Ragged(lines: seq<string>)
  {
    exists k :: 0 <= k < |lines| && |lines[k]| < |lines[0]|
  }

  /** `lines.all { it[strIdx] == ' ' }`: the lines in order; the first one too short for the
      index throws, the first one with another character there answers false. */
  function AllSpace(lines: seq<string>, j: nat): (r: Result<bool>)
    ensures r.Ok? ==> (r.value <==> BlankColumn(lines, j))
    ensures r.Err? ==> r.error == IndexOutOfBounds && exists k :: 0 <= k < |lines| && |lines[k]| <= j
  {
    if |lines| == 0 then Ok(true)
    else if j >= |lines[0]| then Err(IndexOutOfBounds)
    else if lines[0][j] != ' ' then Ok(false)
    else
      var r := AllSpace(lines[1..], j);
      assert forall k :: 1 <= k < |lines| ==> lines[1..][k - 1] == lines[k];
      r
  }

  /** The blank columns below `n`, in increasing order. */
  function CutsBelow(lines: seq<string>, n: nat): seq<nat>
  {
    if n == 0 then [] else CutsBelow(lines, n - 1) + (if BlankColumn(lines, n - 1) then [n - 1] else [])
  }

  /** Where every line is cut: at each blank column of the first line's width, and at its end. */
  function Ends(lines: seq<string>): seq<nat>
    requires |lines| >= 1
  {
    CutsBelow(lines, |lines[0]|) + [|lines[0]|]
  }

  /** Where the piece after some cuts starts: one past the last cut (`nextSplitIdx`). */
  function NextStart(cuts: seq<nat>): nat
  {
    if |cuts| == 0 then 0 else cuts[|cuts| - 1] + 1
  }

  /** `s.substring(a, b)` where it is defined. */
  function Slice(s: string, a: nat, b: nat): string
  {
    if a <= b <= |s| then s[a..b] else ""
  }

  /** The pieces of a line between consecutive cuts, each cut column left out. */
  function Pieces(line: string, cuts: seq<nat>): (r: seq<string>)
    ensures |r| == |cuts|
  {
    if |cuts| == 0 then []
    else Pieces(line, cuts[..|cuts| - 1]) + [Slice(line, NextStart(cuts[..|cuts| - 1]), cuts[|cuts| - 1])]
  }

  /** What lines 31-41 build: every line cut at the same columns into its pieces, or an
      `IndexOutOfBoundsException` when some line is shorter than the first. */
  function Columns(lines: seq<string>): Result<seq<seq<string>>>
    requires |lines| >= 1
  {
    if Ragged(lines) then Err(IndexOutOfBounds) else Ok(Grid(lines))
  }

  /** Every line cut into its pieces. */
  function Grid(lines: seq<string>): (r: seq<seq<string>>)
    requires |lines| >= 1
    ensures |r| == |lines| && forall i :: 0 <= i < |r| ==> |r[i]| == |Ends(lines)|
  {
    seq(|lines|, i requires 0 <= i < |lines| => Pieces(lines[i], Ends(lines)))
  }

  /** Cuts strictly increase. */
  predicate Increasing(cuts: seq<nat>)
  {
    forall a, b :: 0 <= a < b < |cuts| ==> cuts[a] < cuts[b]
  }

  lemma {:induction false} PiecesSnoc(line: string, cuts: seq<nat>, c: nat)
    ensures Pieces(line, cuts + [c]) == Pieces(line, cuts) + [Slice(line, NextStart(cuts), c)]
  {
    assert (cuts + [c])[..|cuts|] == cuts;
  }

  /** The cuts below `n` are exactly the blank columns below `n`, in increasing order. */
  lemma {:induction false} CutsBelowBlank(lines: seq<string>, n: nat)
    ensures Increasing(CutsBelow(lines, n))
    ensures forall b :: 0 <= b < |CutsBelow(lines, n)| ==> CutsBelow(lines, n)[b] < n
    ensures forall b :: 0 <= b < |CutsBelow(lines, n)| ==> BlankColumn(lines, CutsBelow(lines, n)[b])
    ensures forall j :: 0 <= j < n && BlankColumn(lines, j) ==> j in CutsBelow(lines, n)
  {
    if n > 0 {
      CutsBelowBlank(lines, n - 1);
    }
  }

  /** On cuts that increase and stay within the line, piece `x` runs from one past cut
      `x - 1` to cut `x`: its width does not depend on the line. */
  lemma {:induction false} PiecesWidth(line: string, cuts: seq<nat>, x: int)
    requires Increasing(cuts) && |cuts| > 0 && cuts[|cuts| - 1] <= |line| && 0 <= x < |cuts|
    ensures Pieces(line, cuts)[x] == line[NextStart(cuts[..x])..cuts[x]]
  {
    var front := cuts[..|cuts| - 1];
    if x < |front| {
      assert front[..x] == cuts[..x];
      PiecesWidth(line, front, x);
    } else {
      assert front == cuts[..x];
    }
  }

  /** The pieces joined again with a space between neighbours give the line back, when the
      line has a space at every cut but the last. */
  lemma {:induction false} PiecesJoin(line: string, cuts: seq<nat>)
    requires |cuts| > 0 && Increasing(cuts) && cuts[|cuts| - 1] <= |line|
    requires forall b :: 0 <= b < |cuts| - 1 ==> line[cuts[b]] == ' '
    ensures Join(Pieces(line, cuts), ' ') == line[..cuts[|cuts| - 1]]
  {
    var front := cuts[..|cuts| - 1];
    var c := cuts[|cuts| - 1];
    if |front| > 0 {
      var f := front[|front| - 1];
      PiecesJoin(line, front);
      var p := Pieces(line, front);
      assert Pieces(line, cuts) == p + [line[f + 1..c]];
      assert (p + [line[f + 1..c]])[..|p|] == p;
      assert line[..c] == line[..f] + [' '] + line[f + 1..c];
    }
  }

  /** Lines 31-41 as a whole: when every line is as long as the first, each line is cut at
      the columns blank in all lines and at its end; the pieces of a block have one width in
      every line, and joining a line's pieces with spaces gives it back up to that width. */
  lemma {:induction false} ColumnsCut(lines: seq<string>, i: int, x: int)
    requires |lines| >= 1 && !Ragged(lines) && 0 <= i < |lines| && 0 <= x < |Ends(lines)|
    ensures |Columns(lines).value[i]| == |Ends(lines)|
    ensures |Columns(lines).value[i][x]| == |Columns(lines).value[0][x]|
    ensures Join(Columns(lines).value[i], ' ') == lines[i][..|lines[0]|]
  {
    var ends := Ends(lines);
    EndsBlank(lines);
    assert |lines[i]| >= |lines[0]|;
    PiecesWidth(lines[i], ends, x);
    PiecesWidth(lines[0], ends, x);
    PiecesJoin(lines[i], ends);
  }

  /** The cuts increase, end at the first line's width and, but for that end, fall on
      blank columns. */
  lemma {:induction false} EndsBlank(lines: seq<string>)
    requires |lines| >= 1
    ensures Increasing(Ends(lines)) && Ends(lines)[|Ends(lines)| - 1] == |lines[0]|
    ensures forall b, k :: 0 <= b < |Ends(lines)| - 1 && 0 <= k < |lines| ==>
              Ends(lines)[b] < |lines[k]| && lines[k][Ends(lines)[b]] == ' '
  {
    var w := |lines[0]|;
    var cuts := CutsBelow(lines, w);
    CutsBelowBlank(lines, w);
    assert forall b :: 0 <= b < |cuts| ==> Ends(lines)[b] == cuts[b];
  }

  /** Lines 36-38: every line's piece from `start` to `end` added to its list, line by line;
      a line too short for `substring` throws. */
  method AddPieces(lines: seq<string>, grid: seq<seq<string>>, start: nat, end: nat) returns (r: Result<seq<seq<string>>>)
    requires |grid| == |lines| && start <= end
    ensures r.Err? <==> exists k :: 0 <= k < |lines| && |lines[k]| < end
    ensures r.Err? ==> r.error == IndexOutOfBounds
    ensures r.Ok? ==> |r.value| == |lines| && forall k :: 0 <= k < |lines| ==> r.value[k] == grid[k] + [Slice(lines[k], start, end)]
  {
    var result := grid;
    for i := 0 to |lines|
      invariant |result| == |lines|
      invariant forall k :: 0 <= k < i ==> |lines[k]| >= end && result[k] == grid[k] + [Slice(lines[k], start, end)]
      invariant forall k :: i <= k < |lines| ==> result[k] == grid[k]
    {
      var piece := Substring(lines[i], start, end);
      if piece.Err? {
        return Err(piece.error);
      }
      result := result[i := result[i] + [piece.value]];
    }
    r := Ok(result);
  }

  /** Lines 31-41: one pass over the columns of the first line and one past its end; the
      pass past the end always cuts (`strIdx == totalWidth`), so it comes after the loop. */
  method SplitColumns(lines: seq<string>) returns (r: Result<seq<seq<string>>>)
    requires |lines| >= 1
    ensures r == Columns(lines)
  {
    var totalWidth := |lines[0]|;
    var grid: seq<seq<string>> := seq(|lines|, _ => []);
    var nextSplitIdx := 0;
    for strIdx := 0 to totalWidth
      invariant nextSplitIdx == NextStart(CutsBelow(lines, strIdx)) <= strIdx
      invariant |grid| == |lines| && forall i :: 0 <= i < |lines| ==> grid[i] == Pieces(lines[i], CutsBelow(lines, strIdx))
    {
      var blank := AllSpace(lines, strIdx);
      if blank.Err? {
        assert Ragged(lines);
        return Err(blank.error);
      }
      ghost var cuts := CutsBelow(lines, strIdx);
      if blank.value {
        assert CutsBelow(lines, strIdx + 1) == cuts + [strIdx];
        var added := AddPieces(lines, grid, nextSplitIdx, strIdx);
        grid := added.value;
        forall i | 0 <= i < |lines|
          ensures grid[i] == Pieces(lines[i], cuts + [strIdx])
        {
          PiecesSnoc(lines[i], cuts, strIdx);
        }
        nextSplitIdx := strIdx + 1;
      } else {
        assert CutsBelow(lines, strIdx + 1) == cuts + [] == cuts;
      }
    }
    var added := AddPieces(lines, grid, nextSplitIdx, totalWidth);
    if added.Err? {
      assert Ragged(lines);
      return Err(added.error);
    }
    assert !Ragged(lines);
    grid := added.value;
    forall i | 0 <= i < |lines|
      ensures grid[i] == Pieces(lines[i], Ends(lines))
    {
      PiecesSnoc(lines[i], CutsBelow(lines, totalWidth), totalWidth);
    }
    assert grid == Columns(lines).value;
    r := Ok(grid);
  }

  // ---------------------------------------------------------------------------------------
  // The numbers of a block
  // ---------------------------------------------------------------------------------------

  /** `res` after folding `nums` into the identity of the block's operator with `long`
      arithmetic: 0 and `+=` for addition, 1 and `*=` otherwise. */
  function Fold64(plus: bool, nums: seq<Int64>): Int64
  {
    if |nums| == 0 then (if plus then 0 else 1)
    else
      var res := Fold64(plus, nums[..|nums| - 1]);
      if plus then Add64(res, nums[|nums| - 1]) else Mul64(res, nums[|nums| - 1])
  }

  /** The fold is the exact sum, or the exact product, wrapped to 64 bits. */
  lemma {:induction false} FoldExact(plus: bool, nums: seq<Int64>)
    ensures Fold64(plus, nums) as int == Wrap64(if plus then Sum(nums) else Product(nums))
  {
    if |nums| > 0 {
      var front := nums[..|nums| - 1];
      var last := nums[|nums| - 1];
      FoldExact(plus, front);
      if plus {
        Add64Wraps(Fold64(plus, front), last);
        Wrap64Ops(Sum(front), last);
      } else {
        Wrap64Ops(Product(front), last);
      }
    }
  }

  lemma {:induction false} Fold64Snoc(plus: bool, nums: seq<Int64>, n: Int64)
    ensures Fold64(plus, nums + [n]) == if plus then Add64(Fold64(plus, nums), n) else Mul64(Fold64(plus, nums), n)
  {
    assert (nums + [n])[..|nums|] == nums;
  }

  /** Lines 69-77 (and `for (num in vertNums)`): the fold as a loop. */
  method FoldNumbers(plus: bool, nums: seq<Int64>) returns (res: Int64)
    ensures res as int == Wrap64(if plus then Sum(nums) else Product(nums))
    ensures res == Fold64(plus, nums)
  {
    res := if plus then 0 else 1;
    for k := 0 to |nums|
      invariant res == Fold64(plus, nums[..k])
    {
      assert nums[..k + 1][..k] == nums[..k];
      if plus {
        res := Add64(res, nums[k]);
      } else {
        res := Mul64(res, nums[k]);
      }
    }
    assert nums[..|nums|] == nums;
    FoldExact(plus, nums);
  }

  /** `grid[y][x].trim().toInt()` for each operand row, in order. */
  function ParseRows(ops: seq<string>): (r: Result<seq<Int64>>)
    ensures r.Ok? ==> |r.value| == |ops|
    ensures r.Err? ==> r.error == NumberFormat
  {
    if |ops| == 0 then Ok([])
    else
      var front :- ParseRows(ops[..|ops| - 1]);
      var num :- ParseInt(Trim(ops[|ops| - 1]));
      Ok(front + [num as Int64])
  }

  /** The operands are the rows read as `int`s once trimmed; any row that is no `int` makes
      the block throw. */
  lemma {:induction false} ParseRowsValue(ops: seq<string>, k: int)
    requires ParseRows(ops).Ok? && 0 <= k < |ops|
    ensures ParseInt(Trim(ops[k])) == Ok(ParseRows(ops).value[k] as int)
  {
    var front := ops[..|ops| - 1];
    var num := ParseInt(Trim(ops[|ops| - 1]));
    assert ParseRows(front).Ok? && num.Ok?;
    var nums := ParseRows(front).value + [num.value as Int64];
    assert ParseRows(ops) == Ok(nums);
    if k < |front| {
      ParseRowsValue(front, k);
      assert front[k] == ops[k];
      assert nums[k] == ParseRows(front).value[k];
      assert ParseInt(Trim(ops[k])) == Ok(nums[k] as int);
    } else {
      assert k == |ops| - 1;
      assert nums[k] == num.value as Int64;
      assert ParseInt(Trim(ops[k])) == Ok(nums[k] as int);
    }
  }

  /** A parse that throws has a row that is no `int`, and the other way round. */
  lemma {:induction false} ParseRowsFails(ops: seq<string>)
    ensures ParseRows(ops).Err? <==> exists k :: 0 <= k < |ops| && ParseInt(Trim(ops[k])).Err?
  {
    if ParseRows(ops).Err? {
      var front := ops[..|ops| - 1];
      if ParseRows(front).Err? {
        ParseRowsFails(front);
        var k :| 0 <= k < |front| && ParseInt(Trim(front[k])).Err?;
        assert front[k] == ops[k];
      } else {
        assert ParseInt(Trim(ops[|ops| - 1])).Err?;
      }
    } else {
      forall k | 0 <= k < |ops|
        ensures ParseInt(Trim(ops[k])).Ok?
      {
        ParseRowsValue(ops, k);
      }
    }
  }

  /** A row that throws ends the parse. */
  lemma {:induction false} ParseRowsStop(ops: seq<string>, y: nat)
    requires y <= |ops| && ParseRows(ops[..y]).Err?
    ensures ParseRows(ops) == ParseRows(ops[..y])
    decreases |ops| - y
  {
    if y < |ops| {
      assert ops[..y + 1][..y] == ops[..y];
      ParseRowsStop(ops, y + 1);
    } else {
      assert ops[..y] == ops;
    }
  }

  /** One more row that is an `int` extends the parse by its value. */
  lemma {:induction false} ParseRowsSnoc(ops: seq<string>, y: nat)
    requires y < |ops| && ParseRows(ops[..y]).Ok? && ParseInt(Trim(ops[y])).Ok?
    ensures ParseRows(ops[..y + 1]) == Ok(ParseRows(ops[..y]).value + [ParseInt(Trim(ops[y])).value as Int64])
  {
    assert ops[..y + 1][..y] == ops[..y];
  }

  /** `part1`'s result for a block. */
  function HorizontalValue(ops: seq<string>, plus: bool): Result<Int64>
  {
    var nums :- ParseRows(ops);
    Ok(Fold64(plus, nums))
  }

  /** Lines 58-66: each operand row parsed and folded in turn. */
  method Horizontal(ops: seq<string>, plus: bool) returns (r: Result<Int64>)
    ensures r == HorizontalValue(ops, plus)
  {
    var res: Int64 := if plus then 0 else 1;
    for y := 0 to |ops|
      invariant ParseRows(ops[..y]).Ok? && res == Fold64(plus, ParseRows(ops[..y]).value)
    {
      var next := FoldRow(ops, plus, y, res);
      if next.Err? {
        return Err(next.error);
      }
      res := next.value;
    }
    assert ops[..|ops|] == ops;
    r := Ok(res);
  }

  /** One row of `part1`'s fold: its `int` folded into `res`, or the exception that ends the
      whole parse. */
  method FoldRow(ops: seq<string>, plus: bool, y: nat, res: Int64) returns (r: Result<Int64>)
    requires y < |ops|
    requires ParseRows(ops[..y]).Ok? && res == Fold64(plus, ParseRows(ops[..y]).value)
    ensures r.Err? ==> HorizontalValue(ops, plus) == Err(r.error)
    ensures r.Ok? ==> ParseRows(ops[..y + 1]).Ok? && r.value == Fold64(plus, ParseRows(ops[..y + 1]).value)
  {
    var num := ParseInt(Trim(ops[y]));
    RowStep(ops, plus, y);
    if num.Err? {
      return Err(num.error);
    }
    if plus {
      r := Ok(Add64(res, num.value));
    } else {
      r := Ok(Mul64(res, num.value));
    }
  }

  /** Row `y` of the fold: a row that is no `int` is the exception of the whole parse; one
      that is extends the parse and is folded in. */
  lemma {:induction false} RowStep(ops: seq<string>, plus: bool, y: nat)
    requires y < |ops| && ParseRows(ops[..y]).Ok?
    ensures ParseInt(Trim(ops[y])).Err? ==> HorizontalValue(ops, plus) == Err(ParseInt(Trim(ops[y])).error)
    ensures ParseInt(Trim(ops[y])).Ok? ==>
              var v := ParseInt(Trim(ops[y])).value as Int64;
              var res := Fold64(plus, ParseRows(ops[..y]).value);
              ParseRows(ops[..y + 1]).Ok? &&
              Fold64(plus, ParseRows(ops[..y + 1]).value) == if plus then Add64(res, v) else Mul64(res, v)
  {
    var num := ParseInt(Trim(ops[y]));
    if num.Err? {
      assert ops[..y + 1][..y] == ops[..y];
      ParseRowsStop(ops, y + 1);
    } else {
      ParseRowsSnoc(ops, y);
      Fold64Snoc(plus, ParseRows(ops[..y]).value, num.value as Int64);
    }
  }

  /** `vertNums[i]` after the rows of `ops`: each digit in column `i` appended to the `int`
      read so far with `* 10 +`, spaces skipped; `digitToInt` throws on any other character,
      and a row too short for the column throws `StringIndexOutOfBoundsException`. */
  function DigitFold(ops: seq<string>, i: nat): Result<Int32>
  {
    if |ops| == 0 then Ok(0)
    else
      var v :- DigitFold(ops[..|ops| - 1], i);
      var row := ops[|ops| - 1];
      if i >= |row| then Err(IndexOutOfBounds)
      else if row[i] == ' ' then Ok(v)
      else if !IsDigit(row[i]) then Err(IllegalArgument)
      else Ok(Add32(Mul32(v, 10), DigitValue(row[i])))
  }

  /** Column `i` of the rows, top to bottom. */
  function ColumnOf(ops: seq<string>, i: nat): (r: string)
    requires forall y :: 0 <= y < |ops| ==> i < |ops[y]|
    ensures |r| == |ops|
  {
    if |ops| == 0 then [] else ColumnOf(ops[..|ops| - 1], i) + [ops[|ops| - 1][i]]
  }

  /** Appending a digit in `int` arithmetic is the exact value wrapped. */
  lemma {:induction false} DigitStep(v: int, d: int)
    requires 0 <= d <= 9
    ensures Add32(Mul32(Wrap32(v), 10), d) == Wrap32(v * 10 + d)
  {
    Add32Wraps(Mul32(Wrap32(v), 10), d);
    Wrap32Ops(Wrap32(v) * 10, d);
    Wrap32Ops(v, 10);
    Wrap32Ops(v * 10, d);
  }

  /** The `int` a string of digits spells, wrapped; `digitToInt` throws on anything else. */
  function Spelled(s: string): Result<Int32>
  {
    match DigitsOf(s)
    case None => Err(IllegalArgument)
    case Some(v) => Ok(Wrap32(v) as Int32)
  }

  /** One more character: a digit is appended with `* 10 +` in `int` arithmetic. */
  lemma {:induction false} SpelledSnoc(s: string, c: char)
    ensures Spelled(s + [c]) == if Spelled(s).Err? || !IsDigit(c) then Err(IllegalArgument)
                                else Ok(Add32(Mul32(Spelled(s).value, 10), DigitValue(c)))
  {
    assert (s + [c])[..|s|] == s;
    if IsDigit(c) && DigitsOf(s).Some? {
      DigitStep(DigitsOf(s).value, DigitValue(c));
    }
  }

  /** `vertNums[i]` is the number the digits of column `i` spell top to bottom once the
      spaces are taken out, wrapped to `int`; any other character makes `digitToInt` throw. */
  lemma {:induction false} DigitFoldValue(ops: seq<string>, i: nat)
    requires forall y :: 0 <= y < |ops| ==> i < |ops[y]|
    ensures DigitFold(ops, i) == Spelled(Kept(ColumnOf(ops, i), Equal(' ')))
  {
    if |ops| > 0 {
      var front := ops[..|ops| - 1];
      var c := ops[|ops| - 1][i];
      DigitFoldValue(front, i);
      var col := ColumnOf(ops, i);
      assert col[..|col| - 1] == ColumnOf(front, i);
      var kept := Kept(ColumnOf(front, i), Equal(' '));
      assert Kept(col, Equal(' ')) == kept + (if c == ' ' then [] else [c]);
      if c == ' ' {
        assert kept + [] == kept;
      } else {
        SpelledSnoc(kept, c);
      }
    }
  }

  /** `vertNums` for the first `width` columns: the columns in order, the first that
      throws decides the exception. */
  function VerticalValues(ops: seq<string>, width: nat): (r: Result<seq<Int32>>)
    ensures r.Ok? ==> |r.value| == width
  {
    if width == 0 then Ok([])
    else
      var front :- VerticalValues(ops, width - 1);
      var v :- DigitFold(ops, width - 1);
      Ok(front + [v])
  }

  /** A column that throws ends the fold over the rows. */
  lemma {:induction false} DigitFoldStops(ops: seq<string>, i: nat, y: nat)
    requires y <= |ops| && DigitFold(ops[..y], i).Err?
    ensures DigitFold(ops, i) == DigitFold(ops[..y], i)
    decreases |ops| - y
  {
    if y < |ops| {
      assert ops[..y + 1][..y] == ops[..y];
      DigitFoldStops(ops, i, y + 1);
    } else {
      assert ops[..y] == ops;
    }
  }

  /** A column that throws ends the fold over the columns. */
  lemma {:induction false} VerticalStops(ops: seq<string>, i: nat, width: nat)
    requires i <= width && VerticalValues(ops, i).Err?
    ensures VerticalValues(ops, width) == VerticalValues(ops, i)
    decreases width - i
  {
    if i < width {
      VerticalStops(ops, i, width - 1);
    }
  }

  /** Lines 49-56: `vertNums`, an `int` array of the block's width, filled column by column
      as the digits of each row are read. */
  method Vertical(ops: seq<string>, width: nat) returns (r: Result<seq<Int32>>)
    ensures r == VerticalValues(ops, width)
  {
    var vertNums := new Int32[width](_ => 0);
    for i := 0 to width
      invariant VerticalValues(ops, i).Ok? && vertNums[..i] == VerticalValues(ops, i).value
      invariant forall j :: i <= j < width ==> vertNums[j] == 0
    {
      ghost var done := vertNums[..i];
      var column := FillColumn(ops, i, vertNums);
      if column.Err? {
        VerticalStops(ops, i + 1, width);
        return Err(column.error);
      }
      assert vertNums[..i] == done;
      assert vertNums[..i + 1] == done + [vertNums[i]];
    }
    assert vertNums[..] == vertNums[..width];
    r := Ok(vertNums[..]);
  }

  /** The inner loop: `vertNums[i]` built from the digits of column `i`, row by row; the
      other cells stay as they are. */
  method FillColumn(ops: seq<string>, i: nat, vertNums: array<Int32>) returns (r: Result<Int32>)
    requires i < vertNums.Length && vertNums[i] == 0
    modifies vertNums
    ensures r == DigitFold(ops, i)
    ensures r.Ok? ==> vertNums[i] == r.value
    ensures forall j :: 0 <= j < vertNums.Length && j != i ==> vertNums[j] == old(vertNums[j])
  {
    assert ops[..0] == [];
    for y := 0 to |ops|
      invariant DigitFold(ops[..y], i) == Ok(vertNums[i])
      invariant forall j :: 0 <= j < vertNums.Length && j != i ==> vertNums[j] == old(vertNums[j])
    {
      assert ops[..y + 1][..y] == ops[..y];
      if i >= |ops[y]| {
        DigitFoldStops(ops, i, y + 1);
        return Err(IndexOutOfBounds);
      }
      var c := ops[y][i];
      if c == ' ' {
        continue;
      }
      if !IsDigit(c) {
        DigitFoldStops(ops, i, y + 1);
        return Err(IllegalArgument);
      }
      vertNums[i] := Add32(Mul32(vertNums[i], 10), DigitValue(c));
    }
    assert ops[..|ops|] == ops;
    r := Ok(vertNums[i]);
  }

  // ---------------------------------------------------------------------------------------
  // The whole evaluation
  // ---------------------------------------------------------------------------------------

  /** The answers of one block, whose rows are its pieces from the top line to the last:
      `grid.last()` of no rows throws `NoSuchElementException`. */
  function BlockAnswer(rows: seq<string>): Result<(Int64, Int64)>
  {
    if |rows| == 0 then Err(NoSuchElement)
    else
      var plus := '+' in rows[|rows| - 1];
      var ops := rows[..|rows| - 1];
      var vert :- VerticalValues(ops, |rows[0]|);
      var h :- HorizontalValue(ops, plus);
      Ok((h, Fold64(plus, vert)))
  }

  /** Lines 46-77 for one block. */
  method SolveBlock(rows: seq<string>) returns (r: Result<(Int64, Int64)>)
    ensures r == BlockAnswer(rows)
  {
    if |rows| == 0 {
      return Err(NoSuchElement);
    }
    var plus := '+' in rows[|rows| - 1];
    var ops := rows[..|rows| - 1];
    var vertNums := Vertical(ops, |rows[0]|);
    if vertNums.Err? {
      return Err(vertNums.error);
    }
    var h := Horizontal(ops, plus);
    if h.Err? {
      return Err(h.error);
    }
    var v := FoldNumbers(plus, vertNums.value);
    r := Ok((h.value, v));
  }

  /** `part1` and `part2` after the blocks: `long` sums of the block answers, the first block
      that throws deciding the exception. */
  function Totals(blocks: seq<seq<string>>): Result<(Int64, Int64)>
  {
    if |blocks| == 0 then Ok((0, 0))
    else
      var t :- Totals(blocks[..|blocks| - 1]);
      var b :- BlockAnswer(blocks[|blocks| - 1]);
      Ok((Add64(t.0, b.0), Add64(t.1, b.1)))
  }

  /** One block more: its error, or its answers added to the totals so far. */
  lemma {:induction false} TotalsNext(blocks: seq<seq<string>>, x: nat, t: (Int64, Int64))
    requires x < |blocks| && Totals(blocks[..x]) == Ok(t)
    ensures BlockAnswer(blocks[x]).Err? ==> Totals(blocks[..x + 1]) == Err(BlockAnswer(blocks[x]).error)
    ensures BlockAnswer(blocks[x]).Ok? ==>
              Totals(blocks[..x + 1]) == Ok((Add64(t.0, BlockAnswer(blocks[x]).value.0), Add64(t.1, BlockAnswer(blocks[x]).value.1)))
  {
    assert blocks[..x + 1][..x] == blocks[..x];
  }

  lemma {:induction false} TotalsStop(blocks: seq<seq<string>>, x: nat)
    requires x <= |blocks| && Totals(blocks[..x]).Err?
    ensures Totals(blocks) == Totals(blocks[..x])
    decreases |blocks| - x
  {
    if x < |blocks| {
      assert blocks[..x + 1][..x] == blocks[..x];
      TotalsStop(blocks, x + 1);
    } else {
      assert blocks[..x] == blocks;
    }
  }

  /** The blocks of a worksheet: block `x` holds piece `x` of every line. */
  function Blocks(lines: seq<string>): (r: seq<seq<string>>)
    requires |lines| >= 1
    ensures |r| == |Ends(lines)|
  {
    BlocksOf(Grid(lines), |Ends(lines)|)
  }

  /** Each row of the grid holds `width` pieces. */
  predicate Rectangular(grid: seq<seq<string>>, width: nat)
  {
    forall y :: 0 <= y < |grid| ==> |grid[y]| == width
  }

  /** The blocks of a grid of pieces, left to right. */
  function BlocksOf(grid: seq<seq<string>>, width: nat): (r: seq<seq<string>>)
    requires Rectangular(grid, width)
    ensures |r| == width
  {
    seq(width, x requires 0 <= x < width => BlockOf(grid, x))
  }

  /** `grid.map { it[x] }`: piece `x` of every line. */
  function BlockOf(grid: seq<seq<string>>, x: nat): (r: seq<string>)
    requires forall y :: 0 <= y < |grid| ==> x < |grid[y]|
    ensures |r| == |grid| && forall y :: 0 <= y < |grid| ==> r[y] == grid[y][x]
  {
    seq(|grid|, y requires 0 <= y < |grid| => grid[y][x])
  }

  /** `evaluate()` on a worksheet: `lines[0]` of no lines throws, so does a line shorter than
      the first; otherwise the totals over the blocks. */
  function Answer(lines: seq<string>): Result<(Int64, Int64)>
  {
    if |lines| == 0 || Ragged(lines) then Err(IndexOutOfBounds) else Totals(Blocks(lines))
  }

  /** Lines 44-78: each block solved in turn and its answers added to `part1` and `part2`. */
  method SumBlocks(grid: seq<seq<string>>, width: nat) returns (r: Result<(Int64, Int64)>)
    requires Rectangular(grid, width)
    ensures r == Totals(BlocksOf(grid, width))
  {
    ghost var blocks := BlocksOf(grid, width);
    var part1: Int64 := 0;
    var part2: Int64 := 0;
    for x := 0 to width
      invariant Totals(blocks[..x]) == Ok((part1, part2))
    {
      var rows := BlockOf(grid, x);
      assert rows == blocks[x];
      TotalsNext(blocks, x, (part1, part2));
      var answer := SolveBlock(rows);
      if answer.Err? {
        TotalsStop(blocks, x + 1);
        return Err(answer.error);
      }
      part1 := Add64(part1, answer.value.0);
      part2 := Add64(part2, answer.value.1);
    }
    assert blocks[..width] == blocks;
    r := Ok((part1, part2));
  }

  /** Lines 31-80: the worksheet cut into blocks, then the blocks summed. */
  method Evaluate(lines: seq<string>) returns (r: Result<(Int64, Int64)>)
    ensures r == Answer(lines)
  {
    if |lines| == 0 {
      return Err(IndexOutOfBounds);
    }
    var split := SplitColumns(lines);
    if split.Err? {
      return Err(split.error);
    }
    var grid := split.value;
    assert grid == Grid(lines);
    r := SumBlocks(grid, |grid[0]|);
  }
}
