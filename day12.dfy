/** Day 12: presents of a few shapes, drawn as `#` cells, and the regions under the trees
    that must hold a given number of presents of each shape. A region is counted when its
    area is at least the number of cells the presents it must hold cover. */
module Day12 {
  import opened Wrappers
  import opened JavaInt
  import opened JavaText
  import opened Collections
  import opened Sorting
  import opened Grids

  /** `Tree(size, counts)`: the width and height of the region, and how many presents of
      each shape it must hold. */
  datatype Tree = Tree(size: (Int32, Int32), counts: seq<Int32>)

  // ---------------------------------------------------------------------------------------
  // Shapes
  // ---------------------------------------------------------------------------------------

  /** `l.drop(1).toBooleanGrid { c -> c == '#' }`: the block without its header line, a cell
      set wherever the drawing has a `#`. */
  function Piece(block: seq<string>): (g: seq<seq<bool>>)
    ensures |block| == 0 ==> |g| == 0
    ensures |block| >= 1 ==> |g| == |block| - 1 && forall y :: 0 <= y < |g| ==> |g[y]| == |block[y + 1]|
  {
    ToGrid(if |block| == 0 then [] else block[1..], Equal('#'))
  }

  /** The cells of a grid that satisfy `p`, row by row. */
  function CountCells<T>(g: seq<seq<T>>, p: T -> bool): nat
  {
    if |g| == 0 then 0 else CountCells(g[..|g| - 1], p) + CountWhere(g[|g| - 1], p)
  }

  /** `GridHelper.countOccurrences(piece, true)`: an `int` counter of the set cells. */
  function PieceTotal(g: seq<seq<bool>>): Int32
  {
    Count32(CountCells(g, Equal(true)))
  }

  /** `pieces.map { ... countOccurrences(piece, true) }`. */
  function Totals(pieces: seq<seq<seq<bool>>>): (r: seq<Int32>)
    ensures |r| == |pieces|
    ensures forall i :: 0 <= i < |r| ==> r[i] == PieceTotal(pieces[i])
  {
    seq(|pieces|, i requires 0 <= i < |pieces| => PieceTotal(pieces[i]))
  }

  /** A row read from a line has as many set cells as the line has `#`s. */
  lemma {:induction false} RowHashes(line: string, row: seq<bool>)
    requires |row| == |line| && forall x :: 0 <= x < |row| ==> row[x] == (line[x] == '#')
    ensures CountWhere(row, Equal(true)) == CountWhere(line, Equal('#'))
  {
    if |row| > 0 {
      RowHashes(line[..|line| - 1], row[..|row| - 1]);
    }
  }

  /** A shape has as many set cells as its drawing has `#`s. */
  lemma {:induction false} GridHashes(lines: seq<string>)
    ensures CountCells(ToGrid(lines, Equal('#')), Equal(true)) == CountCells(lines, Equal('#'))
  {
    var g := ToGrid(lines, Equal('#'));
    if |lines| > 0 {
      var front := lines[..|lines| - 1];
      GridHashes(front);
      assert g[..|g| - 1] == ToGrid(front, Equal('#'));
      RowHashes(lines[|lines| - 1], g[|g| - 1]);
    }
  }

  /** The total of each shape counts the `#`s of its block below the header line. */
  lemma {:induction false} PieceTotalHashes(block: seq<string>)
    requires |block| >= 1
    ensures PieceTotal(Piece(block)) == Count32(CountCells(block[1..], Equal('#')))
  {
    GridHashes(block[1..]);
  }

  // ---------------------------------------------------------------------------------------
  // Trees
  // ---------------------------------------------------------------------------------------

  /** `toInts()`: every text read as an `int`. */
  function ToInts(texts: seq<string>): (r: Result<seq<Int32>>)
    ensures r.Ok? ==> |r.value| == |texts|
    ensures r.Err? ==> r.error == NumberFormat
  {
    var vs :- ParseAll(texts, INT_MIN, INT_MAX);
    Ok(seq(|vs|, k requires 0 <= k < |vs| => vs[k] as Int32))
  }

  /** `val (size, counts) = l.split(": ")`, then `size.split("x").toInts().toPair()` and
      `counts.split(" ").toInts()`. A line without ": " has no second component; the size
      is read, and checked to be two numbers, before the counts are read. */
  function ParseTree(l: string): (r: Result<Tree>)
    ensures r.Err? ==> r.error == IndexOutOfBounds || r.error == NumberFormat || r.error == IllegalArgument
  {
    var parts := Split(l, ": ");
    if |parts| < 2 then Err(IndexOutOfBounds)
    else
      var dims :- ToInts(Split(parts[0], "x"));
      var size :- ToPair(dims);
      var counts :- ToInts(Split(parts[1], " "));
      Ok(Tree(size, counts))
  }

  /** A line without ": " is rejected. */
  lemma {:induction false} TreeLineNeedsColon(l: string)
    requires Free(l, ": ")
    ensures ParseTree(l) == Err(IndexOutOfBounds)
  {
    SplitWhole(l, ": ");
  }

  /** `it.last().map { ... }`: every tree line parsed in order; the first malformed line
      decides the exception. */
  function ParseTrees(lines: seq<string>): (r: Result<seq<Tree>>)
    ensures r.Ok? ==> |r.value| == |lines|
    ensures r.Err? ==> r.error == IndexOutOfBounds || r.error == NumberFormat || r.error == IllegalArgument
  {
    if |lines| == 0 then Ok([])
    else
      var first :- ParseTree(lines[0]);
      var rest :- ParseTrees(lines[1..]);
      Ok([first] + rest)
  }

  /** The parse succeeds exactly when every line does, and then holds each line's tree. */
  lemma {:induction false} ParseTreesMeaning(lines: seq<string>)
    ensures ParseTrees(lines).Ok? <==> forall k :: 0 <= k < |lines| ==> ParseTree(lines[k]).Ok?
    ensures ParseTrees(lines).Ok? ==> forall k :: 0 <= k < |lines| ==> Ok(ParseTrees(lines).value[k]) == ParseTree(lines[k])
  {
    if |lines| > 0 {
      var tail := lines[1..];
      ParseTreesMeaning(tail);
      assert forall k :: 1 <= k < |lines| ==> tail[k - 1] == lines[k];
    }
  }

  /** A failed parse carries the exception of the first line that does not parse. */
  lemma {:induction false} ParseTreesFirstError(lines: seq<string>)
    requires ParseTrees(lines).Err?
    ensures exists k :: 0 <= k < |lines| && ParseTree(lines[k]) == Err(ParseTrees(lines).error)
                        && forall j :: 0 <= j < k ==> ParseTree(lines[j]).Ok?
  {
    var tail := lines[1..];
    if ParseTree(lines[0]).Ok? {
      ParseTreesFirstError(tail);
      var k :| 0 <= k < |tail| && ParseTree(tail[k]) == Err(ParseTrees(tail).error)
               && forall j :: 0 <= j < k ==> ParseTree(tail[j]).Ok?;
      assert ParseTree(lines[k + 1]) == Err(ParseTrees(lines).error);
      assert forall j :: 1 <= j < k + 1 ==> lines[j] == tail[j - 1];
    } else {
      assert ParseTree(lines[0]) == Err(ParseTrees(lines).error);
    }
  }

  /** The line a tree is written as: `WxH: c0 c1 ...`. */
  function TreeText(t: Tree): string
    requires |t.counts| >= 1
  {
    Decimal(t.size.0) + "x" + Decimal(t.size.1) + ": " + JoinWith(Decimals(t.counts), " ")
  }

  /** A decimal form holds only digits and a minus sign. */
  lemma {:induction false} DecimalAvoids(n: int, c: char)
    requires c != '-' && !IsDigit(c)
    ensures c !in Decimal(n)
  {
    DigitsAreDigits(if n < 0 then -n else n);
    if n < 0 {
      assert forall i :: 1 <= i < |Decimal(n)| ==> Decimal(n)[i] == Digits(-n)[i - 1];
    }
  }

  lemma {:induction false} DecimalsAvoid(vs: seq<int>, c: char)
    requires c != '-' && !IsDigit(c)
    ensures forall p :: p in Decimals(vs) ==> c !in p
    decreases |vs|
  {
    if |vs| > 0 {
      DecimalAvoids(vs[0], c);
      DecimalsAvoid(vs[1..], c);
    }
  }

  /** Splitting the decimal forms joined by one character gives the forms back. */
  lemma {:induction false} SplitDecimals(vs: seq<int>, c: char)
    requires |vs| >= 1 && c != '-' && !IsDigit(c)
    ensures Split(JoinWith(Decimals(vs), [c]), [c]) == Decimals(vs)
  {
    var ds := Decimals(vs);
    DecimalsAvoid(vs, c);
    SplitChar(JoinWith(ds, [c]), c);
    JoinWithChar(ds, c);
    PartsJoin(ds, c);
  }

  /** Reading the decimal forms of `int`s gives the numbers back. */
  lemma {:induction false} ReadDecimals(vs: seq<Int32>)
    ensures ToInts(Decimals(vs)) == Ok(vs)
  {
    ParseAllDecimals(vs, INT_MIN, INT_MAX);
    var ws := ParseAll(Decimals(vs), INT_MIN, INT_MAX).value;
    assert ws == vs;
    var converted: seq<Int32> := seq(|ws|, k requires 0 <= k < |ws| => ws[k] as Int32);
    assert converted == vs;
  }

  /** The numbers written with one character between them are read back. */
  lemma {:induction false} JoinedInts(vs: seq<Int32>, c: char)
    requires |vs| >= 1 && c != '-' && !IsDigit(c)
    ensures ToInts(Split(JoinWith(Decimals(vs), [c]), [c])) == Ok(vs)
  {
    SplitDecimals(vs, c);
    ReadDecimals(vs);
  }

  /** Parsing the line written for a tree gives the tree back. */
  lemma {:induction false} TreeRoundTrip(t: Tree)
    requires |t.counts| >= 1
    ensures ParseTree(TreeText(t)) == Ok(t)
  {
    var size := Decimal(t.size.0) + "x" + Decimal(t.size.1);
    var counts := JoinWith(Decimals(t.counts), " ");
    assert TreeText(t) == size + ": " + counts;
    DecimalAvoids(t.size.0, ':');
    DecimalAvoids(t.size.1, ':');
    CharFree(size, ": ");
    DecimalsAvoid(t.counts, ':');
    JoinWithAvoids(Decimals(t.counts), " ", ':');
    SplitAroundColon(size, counts);
    assert Decimals([t.size.0, t.size.1]) == [Decimal(t.size.0), Decimal(t.size.1)];
    assert JoinWith(Decimals([t.size.0, t.size.1]), "x") == size;
    JoinedInts([t.size.0, t.size.1], 'x');
    JoinedInts(t.counts, ' ');
  }

  // ---------------------------------------------------------------------------------------
  // The area test
  // ---------------------------------------------------------------------------------------

  /** `pieceTotals.mapIndexed { i, tot -> tree.counts[i] * tot }.sum()` over the first `n`
      shapes: `int` products added into an `int` sum. */
  function Need(counts: seq<Int32>, totals: seq<Int32>, n: nat): Int32
    requires n <= |totals| && n <= |counts|
  {
    if n == 0 then 0 else Add32(Need(counts, totals, n - 1), Mul32(counts[n - 1], totals[n - 1]))
  }

  /** The exact number of cells the presents of the first `n` shapes cover. */
  function ExactNeed(counts: seq<Int32>, totals: seq<Int32>, n: nat): int
    requires n <= |totals| && n <= |counts|
  {
    if n == 0 then 0 else ExactNeed(counts, totals, n - 1) + counts[n - 1] as int * totals[n - 1] as int
  }

  /** The `int` sum is the exact sum wrapped to 32 bits. */
  lemma {:induction false} NeedWraps(counts: seq<Int32>, totals: seq<Int32>, n: nat)
    requires n <= |totals| && n <= |counts|
    ensures Need(counts, totals, n) as int == Wrap32(ExactNeed(counts, totals, n))
  {
    if n > 0 {
      NeedWraps(counts, totals, n - 1);
      var p := counts[n - 1] as int * totals[n - 1] as int;
      Add32OfWrapped(Need(counts, totals, n - 1), Mul32(counts[n - 1], totals[n - 1]), ExactNeed(counts, totals, n - 1), p);
    }
  }

  /** The test for one tree: `size.second * size.first` against the cells needed. Reading
      `counts[i]` for a shape the tree lists no count for throws. */
  function Fits(t: Tree, totals: seq<Int32>): (r: Result<bool>)
    ensures r.Err? <==> |t.counts| < |totals|
    ensures r.Err? ==> r.error == IndexOutOfBounds
  {
    if |t.counts| < |totals| then Err(IndexOutOfBounds)
    else Ok(!(Mul32(t.size.1, t.size.0) < Need(t.counts, totals, |totals|)))
  }

  /** When neither the area nor the cells needed overflow an `int`, a tree is counted
      exactly when its area is at least the number of cells its presents cover. */
  lemma {:induction false} FitsExact(t: Tree, totals: seq<Int32>)
    requires |t.counts| >= |totals|
    requires IsInt(t.size.0 * t.size.1) && IsInt(ExactNeed(t.counts, totals, |totals|))
    ensures Fits(t, totals) == Ok(t.size.0 * t.size.1 >= ExactNeed(t.counts, totals, |totals|))
  {
    NeedWraps(t.counts, totals, |totals|);
  }

  /** The trees that pass the test. */
  function FitsIn(totals: seq<Int32>): Tree -> bool
  {
    t => Fits(t, totals) == Ok(true)
  }

  /** `trees.count { ... }`: the number of trees that fit; a tree with too few counts throws. */
  function CountFits(trees: seq<Tree>, totals: seq<Int32>): (r: Result<nat>)
    ensures r.Err? <==> exists k :: 0 <= k < |trees| && |trees[k].counts| < |totals|
    ensures r.Err? ==> r.error == IndexOutOfBounds
    ensures r.Ok? ==> r.value == CountWhere(trees, FitsIn(totals))
  {
    if |trees| == 0 then Ok(0)
    else
      var front := trees[..|trees| - 1];
      assert forall k :: 0 <= k < |front| ==> front[k] == trees[k];
      var n :- CountFits(front, totals);
      var fits :- Fits(trees[|trees| - 1], totals);
      Ok(n + if fits then 1 else 0)
  }

  // ---------------------------------------------------------------------------------------
  // Part 1
  // ---------------------------------------------------------------------------------------

  /** `subList(0, size - 1).map { ... }`: every block read as a shape. */
  function Pieces(blocks: seq<seq<string>>): (r: seq<seq<seq<bool>>>)
    ensures |r| == |blocks| && forall i :: 0 <= i < |r| ==> r[i] == Piece(blocks[i])
  {
    seq(|blocks|, i requires 0 <= i < |blocks| => Piece(blocks[i]))
  }

  /** Part 1: the blocks between blank lines; all but the last are shapes, the last lists
      the trees, and the answer is the number of trees that pass the area test. */
  function Part1(lines: seq<string>): (r: Result<nat>)
    ensures r.Err? ==> r.error == IndexOutOfBounds || r.error == NumberFormat || r.error == IllegalArgument
    ensures r.Ok? ==> r.value <= |Parts(lines, IsBlank)[|Parts(lines, IsBlank)| - 1]|
  {
    var groups := Parts(lines, IsBlank);
    var pieces := Pieces(groups[..|groups| - 1]);
    var trees :- ParseTrees(groups[|groups| - 1]);
    CountFits(trees, Totals(pieces))
  }

  /** The lines written for the trees, one per tree. */
  function TreeLines(trees: seq<Tree>): (r: seq<string>)
    requires forall k :: 0 <= k < |trees| ==> |trees[k].counts| >= 1
    ensures |r| == |trees|
  {
    seq(|trees|, k requires 0 <= k < |trees| && |trees[k].counts| >= 1 => TreeText(trees[k]))
  }

  /** A tree line holds a colon, so it is not blank. */
  lemma {:induction false} TreeTextNotBlank(t: Tree)
    requires |t.counts| >= 1
    ensures !IsBlank(TreeText(t)) && TreeText(t) != ""
  {
    var size := Decimal(t.size.0) + "x" + Decimal(t.size.1);
    assert TreeText(t)[|size|] == ':';
  }

  /** Parsing the lines written for some trees gives the trees back. */
  lemma {:induction false} TreeLinesRoundTrip(trees: seq<Tree>)
    requires forall k :: 0 <= k < |trees| ==> |trees[k].counts| >= 1
    ensures ParseTrees(TreeLines(trees)) == Ok(trees)
  {
    var lines := TreeLines(trees);
    forall k | 0 <= k < |trees|
      ensures ParseTree(lines[k]) == Ok(trees[k])
    {
      TreeRoundTrip(trees[k]);
    }
    ParseTreesAll(lines, trees);
  }

  /** Lines that each parse to a tree parse to those trees. */
  lemma {:induction false} ParseTreesAll(lines: seq<string>, trees: seq<Tree>)
    requires |lines| == |trees| && forall k :: 0 <= k < |lines| ==> ParseTree(lines[k]) == Ok(trees[k])
    ensures ParseTrees(lines) == Ok(trees)
  {
    ParseTreesMeaning(lines);
    assert ParseTrees(lines).value == trees;
  }

  /** An input written as the shape blocks and then the tree lines, a blank line after each
      block, is read back as those shapes and trees: the answer counts the trees that pass
      the area test against the shapes' totals. */
  lemma {:induction false} Part1Input(shapes: seq<seq<string>>, trees: seq<Tree>)
    requires forall k :: 0 <= k < |trees| ==> |trees[k].counts| >= 1
    requires forall i, l :: 0 <= i < |shapes| && l in shapes[i] ==> !IsBlank(l)
    ensures Part1(Join(shapes + [TreeLines(trees)], "")) == CountFits(trees, Totals(Pieces(shapes)))
  {
    var blocks := shapes + [TreeLines(trees)];
    forall i, l | 0 <= i < |blocks| && l in blocks[i]
      ensures !IsBlank(l)
    {
      if i == |shapes| {
        var k :| 0 <= k < |trees| && TreeLines(trees)[k] == l;
        TreeTextNotBlank(trees[k]);
      } else {
        assert blocks[i] == shapes[i];
      }
    }
    BlankLinesJoin(blocks);
    assert blocks[..|blocks| - 1] == shapes;
    TreeLinesRoundTrip(trees);
  }
}
