# AdventOfCode2025 in Dafny

A model of the solver library and the day solvers of SizableShrimp's AdventOfCode2025 (Kotlin and Java), with proofs about the model.

## What is modelled

- **Java and Kotlin integer semantics** (`JavaInt`):
  - `int` and `long` are unbounded integers with an explicit two's-complement wrap.
  - `+`, `-` and `*` wrap; `/` and `%` truncate toward zero; Kotlin's `mod` floors; `Math.abs(MIN_VALUE)` is `MIN_VALUE`.
  - The text primitives (`indexOf`, `substring`, `split`, `parseInt`/`parseLong` and decimal output) are in `JavaText`.
- **Exceptions** are values of a `Result` datatype (`Wrappers`). Each names the exception the source throws, such as `IndexOutOfBoundsException`, `NumberFormatException`, `NullPointerException`, `NoSuchElementException`, `IllegalArgumentException`.
- **Union-find** (`DisjointSets`): a class over `parent` and `rank` arrays, with path compression, union by rank and a set counter. Beside it sits a pure layer of roots over sequences.
  - The invariant is a parent forest whose ranks increase toward the roots, with `numSets` equal to the number of roots.
  - `find` changes no element's root.
  - `union` merges exactly two blocks of the partition, or returns false and changes nothing.
- **Plain-changes permutations** (`Permutations`): the Steinhaus-Johnson-Trotter iterator as a class over key and direction arrays. Every permutation it returns is a permutation of its input.
- **Generic search** (`Search`): `searchBest`, `searchBestSimple`, `searchAll`, both `searchNoRepeats` and `searchMemoizing`, each as a loop over an explicit queue and `seen` map, proved against fold specifications.
  - The `run` callback is a successor function and a comparator is a cost function.
  - The memoized recursion is a class whose cache agrees with a recursive reference `Value` whenever states sharing an id share an answer. A null cached answer is recomputed, as `?:` does.
- **Arithmetic**: Euclid's `gcd` and `lcm` overloads (`MathUtil`); `Fraction` records and their operators (`Fractions`); and Gaussian elimination over fractions on an array of rows (`LinearAlgebra`).
- **Ranges, collections and grids** (`Ranges`, `Collections`, `Grids`).
- **Directions and coordinates**:
  - the `Direction` and `ZDirection` tables (`Directions`, `ZDirections`);
  - the coordinate records `Coordinate`, `LongCoordinate`, `ZCoordinate`, `ZLongCoordinate` and `HyperCoordinate`, in their own component widths;
  - the Kotlin coordinate operators (`CoordinateOps`, `LongCoordinateOps`).
- **Days 1 to 6 and 8 to 12**: one module per day.
  - Each has parsing with its error paths.
  - Each day's `evaluate` (or `part1`/`part2`) is a method proved equal to, or bounded by, a reference definition. Lemmas then prove what that definition means.
  - Examples: Day03's greedy choice is the largest subsequence; Day05's merged ranges are disjoint and cover the same ids; Day08's circuits are the blocks of the union-find partition; Day11 counts exactly the paths of the graph.
  - Day09's part 2 reads the `first { l.first <= minX }` condition as the source writes it. Once the first piece of a row starts at or left of `minX`, `first` always selects that piece. The test on its index (line 79) therefore always takes its even branch (`Day09.RowVerdictMeaning`).
- `Sorting` and `Itertools` stand for the library sorts and `Itertools.combinations`, which the days use.
- `Arith` holds facts about arithmetic that the solver does not find unaided.

Loops in the source are `method`s with loop invariants. Classes whose fields the source updates are `class`es.

## Model

| member | source | states |
|---|---|---|
| MathUtil.EuclidGcdDivides | src/util/java/me/sizableshrimp/adventofcode2025/helper/MathUtil.java:27-35 | the Euclidean result divides both arguments |
| MathUtil.EuclidBezout | src/util/java/me/sizableshrimp/adventofcode2025/helper/MathUtil.java:27-35 | the Euclidean result is an integer combination `a * x + b * y` of the arguments |
| MathUtil.EuclidGcdGreatest | src/util/java/me/sizableshrimp/adventofcode2025/helper/MathUtil.java:27-35 | every common divisor of the arguments divides the result |
| MathUtil.EuclidGcdZero | src/util/java/me/sizableshrimp/adventofcode2025/helper/MathUtil.java:27-35 | the result is 0 exactly when both arguments are 0 |
| MathUtil.Gcd | src/util/java/me/sizableshrimp/adventofcode2025/helper/MathUtil.java:27-35 | the `while (b != 0)` loop with Java's truncating `%` terminates and returns a greatest common divisor: it divides both arguments, every common divisor divides it, and it is 0 iff both are 0 (`gcd(a, 0) == a`) |
| MathUtil.GcdFoldCommon | src/util/java/me/sizableshrimp/adventofcode2025/helper/MathUtil.java:37-45 | the left fold of `gcd` divides every element and every common divisor of the elements divides it |
| MathUtil.GcdAll | src/util/java/me/sizableshrimp/adventofcode2025/helper/MathUtil.java:37-45 | an empty array throws `ArrayIndexOutOfBoundsException`; otherwise the result is the left fold from `numbers[0]` and divides every element |
| MathUtil.ExactLcmIsLcm | src/util/java/me/sizableshrimp/adventofcode2025/helper/MathUtil.java:67-69 | `abs(a * b) / gcd(a, b)` is a common multiple of `a` and `b` that divides every common multiple, and times the gcd it is `abs(a * b)` |
| MathUtil.LcmInt | src/util/java/me/sizableshrimp/adventofcode2025/helper/MathUtil.java:67-69 | `Math.abs(a * b) / gcd(a, b)` in `int` arithmetic: throws `ArithmeticException` exactly when both are 0, otherwise an `int` |
| MathUtil.LcmLong | src/util/java/me/sizableshrimp/adventofcode2025/helper/MathUtil.java:81-83 | the same in `long` arithmetic |
| MathUtil.LcmIntExact | src/util/java/me/sizableshrimp/adventofcode2025/helper/MathUtil.java:67-69 | when `a * b` fits an `int` (and is not `Integer.MIN_VALUE`), `lcm(int, int)` is the exact least common multiple |
| MathUtil.LcmLongExact | src/util/java/me/sizableshrimp/adventofcode2025/helper/MathUtil.java:81-83 | the same for `lcm(long, long)` |
| MathUtil.LcmFoldStep | src/util/java/me/sizableshrimp/adventofcode2025/helper/MathUtil.java:85-93 | one more element of the fold combines the prefix's value with it by `lcm(long, long)` |
| MathUtil.LcmFoldPrefixErr | src/util/java/me/sizableshrimp/adventofcode2025/helper/MathUtil.java:85-93 | once a prefix has thrown, the whole fold throws the same exception |
| MathUtil.LcmFoldIsLcm | src/util/java/me/sizableshrimp/adventofcode2025/helper/MathUtil.java:85-93 | with non-zero elements and no overflow on the way the fold succeeds, is non-zero, is a multiple of every element and divides every common multiple |
| MathUtil.LcmAll | src/util/java/me/sizableshrimp/adventofcode2025/helper/MathUtil.java:71-79 | `lcm(int...)` / `lcm(long...)`: empty throws `ArrayIndexOutOfBoundsException`, otherwise the loop's result is the left fold from `numbers[0]` accumulated in `long` |
| Fractions.Reciprocal | src/util/java/me/sizableshrimp/adventofcode2025/templates/Fraction.java:10-12 | the components are swapped (so applying it twice gives the same record back), and for non-zero components the two values multiply to 1 |
| Fractions.IsZero | src/util/java/me/sizableshrimp/adventofcode2025/templates/Fraction.java:14-16 | true iff the numerator is 0, which for a non-zero denominator is exactly a zero value |
| Fractions.CommonDenominator | src/util/java/me/sizableshrimp/adventofcode2025/templates/Fraction.java:22-36 | throws `ArithmeticException` exactly when a denominator is 0; otherwise an `int` fraction over `lcm(d1, d2)` |
| Fractions.Plus | src/util/java/me/sizableshrimp/adventofcode2025/templates/Fraction.java:22-26 | `plus` throws ArithmeticException exactly when a denominator is 0 and otherwise gives an `int` fraction; when nothing wraps its denominator is the exact lcm of the two and its value the exact rational sum |
| Fractions.Minus | src/util/java/me/sizableshrimp/adventofcode2025/templates/Fraction.java:32-36 | `minus` throws ArithmeticException exactly when a denominator is 0 and otherwise gives an `int` fraction; when nothing wraps its denominator is the exact lcm of the two and its value the exact rational difference |
| Fractions.SumValue | src/util/java/me/sizableshrimp/adventofcode2025/templates/Fraction.java:22-36 | when nothing overflows, the common-denominator sum or difference has the exact lcm as denominator and the exact rational value |
| Fractions.SumParts | src/util/java/me/sizableshrimp/adventofcode2025/templates/Fraction.java:22-36 | the result is `n1 * (l / d1) ± n2 * (l / d2)` over `l = lcm(d1, d2)`, with `l / d1` and `l / d2` exact cofactors |
| Fractions.PlusNotSimplified | src/util/java/me/sizableshrimp/adventofcode2025/templates/Fraction.java:18-26 | `1/2 + 1/2` is `2/2`, which is not in lowest terms: the "simplified" promise of the doc comment does not hold for `plus` |
| Fractions.Reduce | src/util/java/me/sizableshrimp/adventofcode2025/templates/Fraction.java:41-43 | division by `gcd(num, den)` throws exactly when both are 0; otherwise an `int` fraction |
| Fractions.ReduceLowest | src/util/java/me/sizableshrimp/adventofcode2025/templates/Fraction.java:41-43 | with a non-zero denominator (and no `Integer.MIN_VALUE`) the reduced fraction has the same value and its components are coprime |
| Fractions.ReduceParts | src/util/java/me/sizableshrimp/adventofcode2025/templates/Fraction.java:41-43 | the reduced components are the exact cofactors of the gcd |
| Fractions.QuotientsCoprime | src/util/java/me/sizableshrimp/adventofcode2025/templates/Fraction.java:41-43 | the cofactors of the gcd are coprime |
| Fractions.Times | src/util/java/me/sizableshrimp/adventofcode2025/templates/Fraction.java:38-44 | `times` throws only ArithmeticException and otherwise gives an `int` fraction; when the products fit it throws exactly when both products are 0, and with non-zero denominators it is the exact rational product in lowest terms |
| Fractions.Divide | src/util/java/me/sizableshrimp/adventofcode2025/templates/Fraction.java:50-56 | `divide` throws only ArithmeticException and otherwise gives an `int` fraction; when the cross products fit it throws exactly when both are 0, and dividing by a non-zero fraction gives the exact rational quotient in lowest terms |
| Fractions.ReduceProductErr | src/util/java/me/sizableshrimp/adventofcode2025/templates/Fraction.java:38-56 | reducing two products that do not wrap throws exactly when both products are 0 |
| Fractions.TimesValue | src/util/java/me/sizableshrimp/adventofcode2025/templates/Fraction.java:38-44 | when the products fit an `int`, reducing them gives the exact rational product, in lowest terms |
| Fractions.DivideValue | src/util/java/me/sizableshrimp/adventofcode2025/templates/Fraction.java:50-56 | when the cross products fit an `int` and the divisor is non-zero, reducing them gives the exact rational quotient, in lowest terms |
| LinearAlgebra.IsConsistent | src/util/java/me/sizableshrimp/adventofcode2025/helper/LinearAlgebra.java:27-45 | `matrix[0]` of no rows throws; a single column is consistent; otherwise the result is false iff some row has all-zero coefficients and a non-zero last entry |
| LinearAlgebra.PivotRow | src/util/java/me/sizableshrimp/adventofcode2025/helper/LinearAlgebra.java:51-63 | -1 iff every entry of the column from `startY` down is zero; otherwise the first row holding exactly `ONE` if there is one, else the first non-zero row |
| LinearAlgebra.NormalizeRow | src/util/java/me/sizableshrimp/adventofcode2025/helper/LinearAlgebra.java:76-82 | only the pivot row changes: its pivot becomes `ONE`, the entries before it stay, each later entry is divided by the old pivot; an `ArithmeticException` from a division is passed on |
| LinearAlgebra.EliminateRow | src/util/java/me/sizableshrimp/adventofcode2025/helper/LinearAlgebra.java:84-96 | only row `t` changes: the pivot column becomes `ZERO` and each later entry `e` becomes `e.minus(subScale.times(s))`; `allZeros` says whether the new coefficients are all zero |
| LinearAlgebra.EchelonRowUpdate | src/util/java/me/sizableshrimp/adventofcode2025/helper/LinearAlgebra.java:84-96 | changing one row below the pivots, keeping it zero before the current column, keeps the echelon prefix |
| LinearAlgebra.NoContradictionUpdate | src/util/java/me/sizableshrimp/adventofcode2025/helper/LinearAlgebra.java:84-99 | changing one row into one that is not `0 … 0 = c` (c non-zero) keeps the matrix free of contradictions |
| LinearAlgebra.PlacePivot | src/util/java/me/sizableshrimp/adventofcode2025/helper/LinearAlgebra.java:69-82 | rows `startY` and `nonZeroIdx` are swapped, then the pivot row is normalised; the other rows stay and the echelon prefix is kept |
| LinearAlgebra.EliminateBelow | src/util/java/me/sizableshrimp/adventofcode2025/helper/LinearAlgebra.java:84-100 | every row below the pivot gets a zero in the pivot column, or the result is false with a `0 … 0 = c` row in the matrix |
| LinearAlgebra.EchelonExtend | src/util/java/me/sizableshrimp/adventofcode2025/helper/LinearAlgebra.java:76-102 | a `ONE` pivot with zeros below it extends the echelon prefix by one column |
| LinearAlgebra.EliminateStep | src/util/java/me/sizableshrimp/adventofcode2025/helper/LinearAlgebra.java:85-99 | one row below the pivot: a zero `subScale` leaves it, otherwise it is eliminated; false exactly when it became a contradiction |
| LinearAlgebra.StepOutcome | src/util/java/me/sizableshrimp/adventofcode2025/helper/LinearAlgebra.java:94-99 | an eliminated row is zero up to the pivot column; it is a contradiction exactly when its coefficients are all zero and its last entry is not |
| LinearAlgebra.SolveFrom | src/util/java/me/sizableshrimp/adventofcode2025/helper/LinearAlgebra.java:47-103 | the recursive `solve` stops at the last row or the last column; on true the matrix is in row echelon form with `ONE` pivots and no contradictory row, on false some row is `0 … 0 = c` |
| LinearAlgebra.ClearUpper | src/util/java/me/sizableshrimp/adventofcode2025/helper/LinearAlgebra.java:118-127 | one row above the current pivot gets a zero in the pivot column; the echelon form is kept |
| LinearAlgebra.ClearColumnAbove | src/util/java/me/sizableshrimp/adventofcode2025/helper/LinearAlgebra.java:118-128 | every row above the current pivot gets a zero in its column |
| LinearAlgebra.ReduceMatrix | src/util/java/me/sizableshrimp/adventofcode2025/helper/LinearAlgebra.java:105-132 | `reduce` leaves the matrix in reduced row echelon form: zeros above every leading `ONE` |
| LinearAlgebra.Solve | src/util/java/me/sizableshrimp/adventofcode2025/helper/LinearAlgebra.java:15-25 | `solve(Fraction[][])`: no rows throws; one column gives true unchanged; true means reduced row echelon form with no contradictory row, false means a `0 … 0 = c` row exists |
| LinearAlgebra.ToFractions | src/util/java/me/sizableshrimp/adventofcode2025/helper/LinearAlgebra.java:137-141 | each entry `n` becomes `n/1` |
| LinearAlgebra.RowLcm | src/util/java/me/sizableshrimp/adventofcode2025/helper/LinearAlgebra.java:147-151 | the row's lcm of denominators, in `int` arithmetic, or the `ArithmeticException` of `lcm(0, 0)` |
| LinearAlgebra.ScaleEntries | src/util/java/me/sizableshrimp/adventofcode2025/helper/LinearAlgebra.java:153-155 | one `numerator * (lcm / denominator)` per entry, or the exception of a zero denominator |
| LinearAlgebra.RowLcmCommon | src/util/java/me/sizableshrimp/adventofcode2025/helper/LinearAlgebra.java:147-151 | with non-zero denominators and no overflow, the row's lcm is a non-zero multiple of every denominator |
| LinearAlgebra.ScaledRowValue | src/util/java/me/sizableshrimp/adventofcode2025/helper/LinearAlgebra.java:146-156 | each written-back entry is the fraction's value scaled by the row's lcm |
| LinearAlgebra.ScaledEntryValue | src/util/java/me/sizableshrimp/adventofcode2025/helper/LinearAlgebra.java:153-155 | `numerator * (l / denominator)` is `l` times the fraction's value when the denominator divides `l` |
| LinearAlgebra.FromInts | src/util/java/me/sizableshrimp/adventofcode2025/helper/LinearAlgebra.java:135-141 | a fresh matrix of fractions `n/1` of the same shape |
| LinearAlgebra.RowLcmLoop | src/util/java/me/sizableshrimp/adventofcode2025/helper/LinearAlgebra.java:147-151 | the loop computes `RowLcm` |
| LinearAlgebra.ScaleLoop | src/util/java/me/sizableshrimp/adventofcode2025/helper/LinearAlgebra.java:153-155 | the loop computes `ScaleEntries` |
| LinearAlgebra.ScaleRowInts | src/util/java/me/sizableshrimp/adventofcode2025/helper/LinearAlgebra.java:146-156 | one row's write-back is `ScaledRow` |
| LinearAlgebra.RowLcmPrefixErr | src/util/java/me/sizableshrimp/adventofcode2025/helper/LinearAlgebra.java:147-151 | an exception on a prefix of the row makes the whole row's lcm throw |
| LinearAlgebra.SolveInts | src/util/java/me/sizableshrimp/adventofcode2025/helper/LinearAlgebra.java:134-159 | `solve(int[][])`: false leaves the matrix unchanged and a contradiction exists; true means the fraction matrix is in reduced row echelon form and every row was written back scaled by its lcm |
| DisjointSets.Root | src/util/java/me/sizableshrimp/adventofcode2025/helper/DisjointSet.java:65-72 | following parents from `i` ends at a self-parented element, whose rank is above that of every non-root on the way |
| DisjointSets.RootRankIndependent | src/util/java/me/sizableshrimp/adventofcode2025/helper/DisjointSet.java:65-72 | the root of an element depends only on the parent links, not on the ranks used to bound the walk |
| DisjointSets.CompressedOrdered | src/util/java/me/sizableshrimp/adventofcode2025/helper/DisjointSet.java:70-71 | pointing elements directly at their roots keeps parents strictly above children in rank |
| DisjointSets.CompressedRoot | src/util/java/me/sizableshrimp/adventofcode2025/helper/DisjointSet.java:70-71 | path compression changes no element's root |
| DisjointSets.CompressedRoots | src/util/java/me/sizableshrimp/adventofcode2025/helper/DisjointSet.java:70-71 | path compression keeps the set of roots |
| DisjointSets.LinkOrdered | src/util/java/me/sizableshrimp/adventofcode2025/helper/DisjointSet.java:86-95 | hanging one root under another keeps the rank order |
| DisjointSets.LinkRoot | src/util/java/me/sizableshrimp/adventofcode2025/helper/DisjointSet.java:86-95 | after hanging root `c` under `nr`, every element of `c`'s set has root `nr` and all other roots stay |
| DisjointSets.LinkForest | src/util/java/me/sizableshrimp/adventofcode2025/helper/DisjointSet.java:86-95 | linking two roots relabels the root sequence: both old roots become the new one |
| DisjointSets.LinkRoots | src/util/java/me/sizableshrimp/adventofcode2025/helper/DisjointSet.java:86-96 | linking two distinct roots removes exactly one root, so the number of sets drops by one |
| DisjointSets.Identity | src/util/java/me/sizableshrimp/adventofcode2025/helper/DisjointSet.java:54-56 | the initial parent array: every element its own parent |
| DisjointSets.Zeros | src/util/java/me/sizableshrimp/adventofcode2025/helper/DisjointSet.java:51 | the initial rank array: all zero |
| DisjointSets.InitialRoots | src/util/java/me/sizableshrimp/adventofcode2025/helper/DisjointSet.java:49-57 | the initial structure is a valid forest of `size` singleton sets |
| DisjointSets.RootsBy | src/util/java/me/sizableshrimp/adventofcode2025/helper/DisjointSet.java:65-72 | the root of every element, in index order |
| DisjointSets.RootsByRoots | src/util/java/me/sizableshrimp/adventofcode2025/helper/DisjointSet.java:65-72 | the roots reached from the elements are exactly the self-parented elements |
| DisjointSets.Relabel | src/util/java/me/sizableshrimp/adventofcode2025/helper/DisjointSet.java:86-95 | the root sequence after a merge: both merged roots replaced by the winner, every other root kept |
| DisjointSets.RelabelMerges | src/util/java/me/sizableshrimp/adventofcode2025/helper/DisjointSet.java:95-96 | relabelling the roots of `a` and `b` to one of the two groups the elements exactly as merging the labels of `a` and `b` does |
| DisjointSets.ScanStep | src/util/java/me/sizableshrimp/adventofcode2025/helper/DisjointSet.java:108-111 | one step of the inner loop keeps the roots grouping the elements as the reference labels one step on: a related pair is merged, an unrelated one changes nothing |
| DisjointSets.MergeJoins | src/util/java/me/sizableshrimp/adventofcode2025/helper/DisjointSet.java:108-111 | after a merge `a` and `b` share a label, and elements that shared one still do |
| DisjointSets.Merge | src/util/java/me/sizableshrimp/adventofcode2025/helper/DisjointSet.java:108-111 | the reference merge of a related pair: `b` takes the label of `a`, which keeps its own, and elements outside the set of `b` keep theirs; out-of-range indices change nothing |
| DisjointSets.ScanJoined | src/util/java/me/sizableshrimp/adventofcode2025/helper/DisjointSet.java:106-113 | every related pair `a < b` the two loops have passed by position (i, j) shares a label there |
| DisjointSets.ScannedJoined | src/util/java/me/sizableshrimp/adventofcode2025/helper/DisjointSet.java:103-116 | after both loops both elements of every related pair `i < j` share a label |
| DisjointSets.ConnectedTrans | src/util/java/me/sizableshrimp/adventofcode2025/helper/DisjointSet.java:103-116 | two chains of related elements that meet make one chain |
| DisjointSets.ScanConnected | src/util/java/me/sizableshrimp/adventofcode2025/helper/DisjointSet.java:106-113 | elements the loops have given one label by position (i, j) are joined by a chain of related elements; nothing else is ever merged |
| DisjointSets.PathJoined | src/util/java/me/sizableshrimp/adventofcode2025/helper/DisjointSet.java:103-116 | both ends of a chain of related elements end up with one label |
| DisjointSets.ScannedConnected | src/util/java/me/sizableshrimp/adventofcode2025/helper/DisjointSet.java:103-116 | after both loops two elements share a label exactly when a chain of related elements joins them |
| DisjointSets.ClustersConnected | src/util/java/me/sizableshrimp/adventofcode2025/helper/DisjointSet.java:103-116 | roots grouped as the final labels put every related pair in one set, and put two elements in one set exactly when a chain of related elements joins them |
| DisjointSets.SamePartitionRefl | src/util/java/me/sizableshrimp/adventofcode2025/helper/DisjointSet.java:49-57 | a labelling groups its elements as itself does: the starting point of the loops |
| DisjointSets.LinkState | src/util/java/me/sizableshrimp/adventofcode2025/helper/DisjointSet.java:86-96 | a link keeps a valid forest with one set fewer; both roots end up under the winner of the rank comparison |
| DisjointSets.LinkUnder | src/util/java/me/sizableshrimp/adventofcode2025/helper/DisjointSet.java:89-95 | hanging the lower-ranked root under the other, raising the rank on a tie, keeps a valid forest |
| DisjointSets.RootIndex | src/util/java/me/sizableshrimp/adventofcode2025/helper/DisjointSet.java:119-123 | `putIfAbsent(root, map.size())`: every root gets a distinct index below the map's size |
| DisjointSets.RootIndexShape | src/util/java/me/sizableshrimp/adventofcode2025/helper/DisjointSet.java:119-123 | the index map's keys are exactly the roots met, and its indices are distinct |
| DisjointSets.RootIndexKeys | src/util/java/me/sizableshrimp/adventofcode2025/helper/DisjointSet.java:119-123 | the index map's keys are exactly the roots met |
| DisjointSets.RootIndexDistinct | src/util/java/me/sizableshrimp/adventofcode2025/helper/DisjointSet.java:119-123 | two different roots get different indices |
| DisjointSets.Homes | src/util/java/me/sizableshrimp/adventofcode2025/helper/DisjointSet.java:131-135 | the result list each element is added to, a valid index |
| DisjointSets.GroupStep | src/util/java/me/sizableshrimp/adventofcode2025/helper/DisjointSet.java:131-135 | one more element adds it to exactly the group of its root |
| DisjointSets.GroupedStep | src/util/java/me/sizableshrimp/adventofcode2025/helper/DisjointSet.java:131-135 | adding element `n` to its home keeps every group equal to the elements of its root seen so far |
| DisjointSets.RootIndexRoots | src/util/java/me/sizableshrimp/adventofcode2025/helper/DisjointSet.java:119-123 | the index map has one key per set |
| DisjointSets.SizesShape | src/util/java/me/sizableshrimp/adventofcode2025/helper/DisjointSet.java:143-146 | `mergeInt(root, 1, Integer::sum)` counts each root as often as elements have it |
| DisjointSets.RootIndexSnoc | src/util/java/me/sizableshrimp/adventofcode2025/helper/DisjointSet.java:121-122 | one loop step: an absent root is added with the next index, a present one leaves the map |
| DisjointSets.SizesSnoc | src/util/java/me/sizableshrimp/adventofcode2025/helper/DisjointSet.java:144-145 | one loop step: the root's count rises by one, or starts at one |
| DisjointSets.SizesStep | src/util/java/me/sizableshrimp/adventofcode2025/helper/DisjointSet.java:144-145 | the loop's map update gives the counts of one more element |
| DisjointSets.MapSumRemove | src/util/java/me/sizableshrimp/adventofcode2025/helper/DisjointSet.java:140-149 | the total of the counts is one count plus the total of the others |
| DisjointSets.SizesTotal | src/util/java/me/sizableshrimp/adventofcode2025/helper/DisjointSet.java:140-149 | the counts add up to the number of elements |
| DisjointSets.ForestSizes | src/util/java/me/sizableshrimp/adventofcode2025/helper/DisjointSet.java:140-149 | the size map has one key per set and its sizes add up to the number of elements |
| DisjointSets.DisjointSet.RootSeq | src/util/java/me/sizableshrimp/adventofcode2025/helper/DisjointSet.java:65-72 | the root of every element of the structure |
| DisjointSets.DisjointSet.constructor | src/util/java/me/sizableshrimp/adventofcode2025/helper/DisjointSet.java:49-57 | `size` singleton sets: every element its own parent, all ranks zero; every element is its own root |
| DisjointSets.DisjointSet.Find | src/util/java/me/sizableshrimp/adventofcode2025/helper/DisjointSet.java:65-72 | returns the element's root, points `i` directly at it, and changes no element's root and no rank |
| DisjointSets.DisjointSet.FindKeeping | src/util/java/me/sizableshrimp/adventofcode2025/helper/DisjointSet.java:65-72 | returns the element's root and changes no root |
| DisjointSets.DisjointSet.Union | src/util/java/me/sizableshrimp/adventofcode2025/helper/DisjointSet.java:80-101 | true iff the two were in different sets; then the sets are merged under the winner of the rank comparison and `numSets` drops by one; otherwise nothing changes; the common root is the old root of `x` or that of `y`, and every element of either set takes it |
| DisjointSets.DisjointSet.Link | src/util/java/me/sizableshrimp/adventofcode2025/helper/DisjointSet.java:86-96 | the lower-ranked root goes under the other (under `xRoot` on a tie, whose rank rises); one set fewer |
| DisjointSets.DisjointSet.FindClusters | src/util/java/me/sizableshrimp/adventofcode2025/helper/DisjointSet.java:103-116 | every pair `i < j` the predicate relates ends up in one set, and two elements share a set exactly when a chain of related elements joins them, so no unrelated sets are merged |
| DisjointSets.DisjointSet.UnionMatches | src/util/java/me/sizableshrimp/adventofcode2025/helper/DisjointSet.java:106-113 | the inner loop for `i` takes the roots from grouping as the reference labels before round `i` to grouping as them after it |
| DisjointSets.DisjointSet.UnionIfRelated | src/util/java/me/sizableshrimp/adventofcode2025/helper/DisjointSet.java:109-111 | a related pair is merged and an unrelated pair changes nothing, so the roots group the elements as the reference labels one step on |
| DisjointSets.DisjointSet.Resolve | src/util/java/me/sizableshrimp/adventofcode2025/helper/DisjointSet.java:118-138 | one set per group, each holding exactly the data of the elements that share its root; a data list shorter than the structure throws `IndexOutOfBounds` |
| DisjointSets.DisjointSet.IndexRoots | src/util/java/me/sizableshrimp/adventofcode2025/helper/DisjointSet.java:119-123 | the first loop builds `RootIndex` of the roots |
| DisjointSets.DisjointSet.Distribute | src/util/java/me/sizableshrimp/adventofcode2025/helper/DisjointSet.java:127-135 | the second loop puts every datum into the group of its root |
| DisjointSets.DisjointSet.HomeOf | src/util/java/me/sizableshrimp/adventofcode2025/helper/DisjointSet.java:132-133 | the group index of one element |
| DisjointSets.DisjointSet.ResolveSizes | src/util/java/me/sizableshrimp/adventofcode2025/helper/DisjointSet.java:140-149 | the size of every set keyed by its root; the keys are the roots and the sizes add up to the number of elements |
| DisjointSets.DisjointSet.NumSets | src/util/java/me/sizableshrimp/adventofcode2025/helper/DisjointSet.java:151-153 | `numSets` is the number of roots |
| Permutations.MobileScan | src/util/java/me/sizableshrimp/adventofcode2025/helper/PermutationIterator.java:120-130 | -1/-1 when no key is mobile; otherwise a mobile key's index and value |
| Permutations.MobileScanLargest | src/util/java/me/sizableshrimp/adventofcode2025/helper/PermutationIterator.java:122-130 | the scan finds no key iff none is mobile; the key found is the largest mobile one, and the first of that value (strict `>`) |
| Permutations.Swap | src/util/java/me/sizableshrimp/adventofcode2025/helper/PermutationIterator.java:138-144 | the two positions trade places and nothing else moves |
| Permutations.SwapMultiset | src/util/java/me/sizableshrimp/adventofcode2025/helper/PermutationIterator.java:138-141 | a swap keeps the keys as a multiset |
| Permutations.Flip | src/util/java/me/sizableshrimp/adventofcode2025/helper/PermutationIterator.java:148-151 | exactly the keys larger than the moved key reverse direction |
| Permutations.KeyRange | src/util/java/me/sizableshrimp/adventofcode2025/helper/PermutationIterator.java:89-95 | the initial keys are `1 .. n` in order |
| Permutations.Apply | src/util/java/me/sizableshrimp/adventofcode2025/helper/PermutationIterator.java:152 | element `j` of a permutation is the object mapped to key `keys[j]` |
| Permutations.StepPermutes | src/util/java/me/sizableshrimp/adventofcode2025/helper/PermutationIterator.java:119-156 | one step of plain changes keeps the keys in `1 .. n`, as the same multiset, so the list built is a permutation of the collection |
| Permutations.OrbitStep | src/util/java/me/sizableshrimp/adventofcode2025/helper/PermutationIterator.java:113-157 | the sequence of key lists the iterator goes through continues with the next step's list |
| Permutations.AllLeft | src/util/java/me/sizableshrimp/adventofcode2025/helper/PermutationIterator.java:87-88 | every direction starts at false (left) |
| Permutations.PlainChange2Step0 | src/util/java/me/sizableshrimp/adventofcode2025/helper/PermutationIterator.java:119-156 | the step from `[1, 2]` swaps the two keys |
| Permutations.PlainChange2Step1 | src/util/java/me/sizableshrimp/adventofcode2025/helper/PermutationIterator.java:131-135 | `[2, 1]` has no mobile key, so the iteration ends |
| Permutations.PlainChange3Step0 | src/util/java/me/sizableshrimp/adventofcode2025/helper/PermutationIterator.java:119-156 | the first step from `[1, 2, 3]` moves 3 left |
| Permutations.PlainChange3Step1 | src/util/java/me/sizableshrimp/adventofcode2025/helper/PermutationIterator.java:119-156 | the second step moves 3 left again |
| Permutations.PlainChange3Step2 | src/util/java/me/sizableshrimp/adventofcode2025/helper/PermutationIterator.java:119-156 | the third step moves 2 and turns 3 right |
| Permutations.PlainChange3Step3 | src/util/java/me/sizableshrimp/adventofcode2025/helper/PermutationIterator.java:119-156 | the fourth step moves 3 right |
| Permutations.PlainChange3Step4 | src/util/java/me/sizableshrimp/adventofcode2025/helper/PermutationIterator.java:119-156 | the fifth step moves 3 right again |
| Permutations.PlainChange3Step5 | src/util/java/me/sizableshrimp/adventofcode2025/helper/PermutationIterator.java:131-135 | after six permutations no key is mobile |
| Permutations.SmallOrbits | src/util/java/me/sizableshrimp/adventofcode2025/helper/PermutationIterator.java:42-43 | zero elements give exactly the one empty list; one element one list; two elements both orders |
| Permutations.ThreeOrbit | src/util/java/me/sizableshrimp/adventofcode2025/helper/PermutationIterator.java:38 | three elements give exactly the 3! = 6 permutations, each once, in plain-change order |
| Permutations.PermutationIterator.constructor | src/util/java/me/sizableshrimp/adventofcode2025/helper/PermutationIterator.java:81-97 | keys `1 .. n`, all directions left, and the first permutation is the collection itself |
| Permutations.PermutationIterator.HasNext | src/util/java/me/sizableshrimp/adventofcode2025/helper/PermutationIterator.java:104-106 | true iff a next permutation is pending |
| Permutations.PermutationIterator.LargestMobile | src/util/java/me/sizableshrimp/adventofcode2025/helper/PermutationIterator.java:119-130 | the loop computes `MobileScan` |
| Permutations.PermutationIterator.FlipAndBuild | src/util/java/me/sizableshrimp/adventofcode2025/helper/PermutationIterator.java:146-153 | the directions are flipped as `Flip` says and the list built is `Apply` of the keys |
| Permutations.PermutationIterator.Next | src/util/java/me/sizableshrimp/adventofcode2025/helper/PermutationIterator.java:114-157 | no pending permutation throws `NoSuchElementException`; otherwise returns it, a permutation of the collection, and moves the keys one plain-change step, or ends the iteration when no key is mobile |
| Permutations.PermutationIterator.Advance | src/util/java/me/sizableshrimp/adventofcode2025/helper/PermutationIterator.java:137-156 | swaps the largest mobile key with its neighbour and flips the larger keys: exactly `Step` |
| Permutations.PermutationIterator.Remove | src/util/java/me/sizableshrimp/adventofcode2025/helper/PermutationIterator.java:159-162 | always throws `UnsupportedOperationException` |
| Search.ReachableStep | src/util/kotlin/me/sizableshrimp/adventofcode2025/util/SearchUtil.kt:36-46 | a successor of a reachable state is reachable, in at least one step |
| Search.Pop | src/util/kotlin/me/sizableshrimp/adventofcode2025/util/SearchUtil.kt:49 | `removeFirst` when `bfs`, `removeLast` otherwise |
| Search.PopMembers | src/util/kotlin/me/sizableshrimp/adventofcode2025/util/SearchUtil.kt:49 | popping takes one queued state out and keeps the rest |
| Search.CostSumRemove | src/util/kotlin/me/sizableshrimp/adventofcode2025/util/SearchUtil.kt:167-168 | the total cost of the seen states is one entry's cost plus the rest's |
| Search.CostSumUpdate | src/util/kotlin/me/sizableshrimp/adventofcode2025/util/SearchUtil.kt:84-86 | replacing an entry changes the total cost by the cost difference |
| Search.FewerUnknown | src/util/kotlin/me/sizableshrimp/adventofcode2025/util/SearchUtil.kt:84-86 | a new id shrinks the set of ids not yet seen |
| Search.RelaxedMono | src/util/kotlin/me/sizableshrimp/adventofcode2025/util/SearchUtil.kt:84-86 | once every successor of a state is matched by a seen state no costlier, improving the seen map keeps that true |
| Search.AddNext | src/util/kotlin/me/sizableshrimp/adventofcode2025/util/SearchUtil.kt:82-88 | the `addNext` of `searchAll`: a state better than the one seen for its id (or with a new id) is recorded and queued, any other is dropped; costs never rise |
| Search.AddNextInv | src/util/kotlin/me/sizableshrimp/adventofcode2025/util/SearchUtil.kt:82-88 | `addNext` keeps the loop invariant: seen states are reachable, keyed by their ids, and every run state is relaxed or awaits a queued better state |
| Search.ExpandAllStep | src/util/kotlin/me/sizableshrimp/adventofcode2025/util/SearchUtil.kt:94 | one `addNext` call inside `run` keeps the step invariant |
| Search.OfferAllInv | src/util/kotlin/me/sizableshrimp/adventofcode2025/util/SearchUtil.kt:94 | offering the successors in order keeps the invariant |
| Search.ExpandAll | src/util/kotlin/me/sizableshrimp/adventofcode2025/util/SearchUtil.kt:94 | `run(state, addNext)` offers every successor in order; the seen costs only fall, and an unchanged map leaves the queue as it was |
| Search.ExpandAllDone | src/util/kotlin/me/sizableshrimp/adventofcode2025/util/SearchUtil.kt:94 | after all successors of the state are offered, it is relaxed |
| Search.PopAllInv | src/util/kotlin/me/sizableshrimp/adventofcode2025/util/SearchUtil.kt:91-92 | a popped state is seen and reachable; one worse than its seen entry can be skipped |
| Search.SearchAll | src/util/kotlin/me/sizableshrimp/adventofcode2025/util/SearchUtil.kt:73-98 | `searchAll`: the start's id is seen with cost at most the start's; every seen state is reachable and keyed by its id; and every successor of a seen state is matched by a seen state no costlier (a fixpoint of relaxation) |
| Search.AllInit | src/util/kotlin/me/sizableshrimp/adventofcode2025/util/SearchUtil.kt:78-81 | the queue holding the start and the map the start satisfy the invariant |
| Search.AllFinal | src/util/kotlin/me/sizableshrimp/adventofcode2025/util/SearchUtil.kt:90-97 | an empty queue gives `searchAll`'s promises |
| Search.AllRound | src/util/kotlin/me/sizableshrimp/adventofcode2025/util/SearchUtil.kt:90-95 | one loop round keeps the invariant and makes progress, so the loop ends |
| Search.RelaxedBestMono | src/util/kotlin/me/sizableshrimp/adventofcode2025/util/SearchUtil.kt:36-46 | improving the map and the minimum keeps a state relaxed |
| Search.AddNextBest | src/util/kotlin/me/sizableshrimp/adventofcode2025/util/SearchUtil.kt:36-46 | the `addNext` of `searchBest`: a target-id state replaces `min` only when strictly cheaper and is never queued; any other state is offered as in `searchAll` |
| Search.AddNextBestInv | src/util/kotlin/me/sizableshrimp/adventofcode2025/util/SearchUtil.kt:36-46 | `addNext` keeps the `searchBest` invariant |
| Search.ExpandBestStep | src/util/kotlin/me/sizableshrimp/adventofcode2025/util/SearchUtil.kt:53 | one `addNext` call inside `run` keeps the step invariant |
| Search.ExpandBestDone | src/util/kotlin/me/sizableshrimp/adventofcode2025/util/SearchUtil.kt:53 | all successors offered, the state is relaxed or pruned |
| Search.OfferBestInv | src/util/kotlin/me/sizableshrimp/adventofcode2025/util/SearchUtil.kt:53 | offering the successors in order keeps the invariant |
| Search.ExpandBest | src/util/kotlin/me/sizableshrimp/adventofcode2025/util/SearchUtil.kt:53 | `run(state, addNext)` offers every successor in order; costs only fall |
| Search.PopBestInv | src/util/kotlin/me/sizableshrimp/adventofcode2025/util/SearchUtil.kt:48-51 | a popped state at least as costly as `min`, or worse than its seen entry, can be skipped |
| Search.SearchBest | src/util/kotlin/me/sizableshrimp/adventofcode2025/util/SearchUtil.kt:26-57 | `searchBest`: `min` is a reachable target state reached in at least one step; the target id is in `seen` only as the start; every seen state is reachable, and is either pruned by `min` or relaxed |
| Search.BestInit | src/util/kotlin/me/sizableshrimp/adventofcode2025/util/SearchUtil.kt:31-35 | the start satisfies the invariant |
| Search.BestFinal | src/util/kotlin/me/sizableshrimp/adventofcode2025/util/SearchUtil.kt:48-56 | an empty queue gives `searchBest`'s promises |
| Search.BestRound | src/util/kotlin/me/sizableshrimp/adventofcode2025/util/SearchUtil.kt:48-54 | one loop round keeps the invariant and makes progress |
| Search.Lift | src/util/kotlin/me/sizableshrimp/adventofcode2025/util/SearchUtil.kt:110-111 | the wrapped `run` counts one more step for every successor |
| Search.LiftMembers | src/util/kotlin/me/sizableshrimp/adventofcode2025/util/SearchUtil.kt:110-111 | a lifted successor is a successor one step further on |
| Search.LiftClosed | src/util/kotlin/me/sizableshrimp/adventofcode2025/util/SearchUtil.kt:106-112 | a successor-closed id set stays closed for the lifted states |
| Search.LiftedPath | src/util/kotlin/me/sizableshrimp/adventofcode2025/util/SearchUtil.kt:110-111 | a path from `(start, 0)` over lifted states ends at a step count equal to its length, along a walk of that length |
| Search.LiftedReachable | src/util/kotlin/me/sizableshrimp/adventofcode2025/util/SearchUtil.kt:110-111 | every reachable lifted state's count is the length of a walk to it |
| Search.FixpointWalks | src/util/kotlin/me/sizableshrimp/adventofcode2025/util/SearchUtil.kt:106-112 | relaxation prefix by prefix: every state on a path from the start is seen with at most that many steps |
| Search.SeenWalks | src/util/kotlin/me/sizableshrimp/adventofcode2025/util/SearchUtil.kt:106-112 | every seen entry's count is the length of a real walk to it |
| Search.FixpointBounds | src/util/kotlin/me/sizableshrimp/adventofcode2025/util/SearchUtil.kt:106-112 | every path from the start ends in a seen id with a count at most its length |
| Search.SearchAllSimple | src/util/kotlin/me/sizableshrimp/adventofcode2025/util/SearchUtil.kt:106-112 | `searchAllSimple` gives the least number of steps to every reachable id: a real walk of that length exists and no path is shorter |
| Search.BestWalks | src/util/kotlin/me/sizableshrimp/adventofcode2025/util/SearchUtil.kt:65-71 | on every path from the start either `min` is no longer than the prefix, or the prefix's end is seen with at most that many steps |
| Search.MinWalk | src/util/kotlin/me/sizableshrimp/adventofcode2025/util/SearchUtil.kt:65-71 | `min` is a walk of its step count, at least one, to the target |
| Search.BestBounds | src/util/kotlin/me/sizableshrimp/adventofcode2025/util/SearchUtil.kt:65-71 | no path of one step or more from the start to the target is shorter than `min` |
| Search.SearchBestSimple | src/util/kotlin/me/sizableshrimp/adventofcode2025/util/SearchUtil.kt:65-71 | `searchBestSimple` finds the least number of steps (at least one) from the start to the target, or none when no such path exists |
| Search.AddNextNew | src/util/kotlin/me/sizableshrimp/adventofcode2025/util/SearchUtil.kt:122-129 | the id-keyed `addNext` of `searchNoRepeats`: true iff the id was new; a known id changes nothing |
| Search.QueuedFiled | src/util/kotlin/me/sizableshrimp/adventofcode2025/util/SearchUtil.kt:120-135 | every queued state's id is seen and the state is reachable |
| Search.AddNextNewInv | src/util/kotlin/me/sizableshrimp/adventofcode2025/util/SearchUtil.kt:122-129 | `addNext` keeps the `searchNoRepeats` invariant |
| Search.ExpandNewStep | src/util/kotlin/me/sizableshrimp/adventofcode2025/util/SearchUtil.kt:134 | one `addNext` call inside `run` keeps the step invariant |
| Search.ExpandNewDone | src/util/kotlin/me/sizableshrimp/adventofcode2025/util/SearchUtil.kt:134 | with every successor offered, the state joins the states run |
| Search.OfferNewInv | src/util/kotlin/me/sizableshrimp/adventofcode2025/util/SearchUtil.kt:134 | offering the successors in order keeps the invariant |
| Search.ExpandNew | src/util/kotlin/me/sizableshrimp/adventofcode2025/util/SearchUtil.kt:134 | `run(state, addNext)` offers each successor once, in order |
| Search.PopNewInv | src/util/kotlin/me/sizableshrimp/adventofcode2025/util/SearchUtil.kt:132 | the popped state is reachable and becomes the running state |
| Search.NoRepeatsDone | src/util/kotlin/me/sizableshrimp/adventofcode2025/util/SearchUtil.kt:131-137 | with an empty queue each kept state was run exactly once; two kept states never share an id; every successor of a kept state has its id kept |
| Search.FirstByIdKeys | src/util/kotlin/me/sizableshrimp/adventofcode2025/util/SearchUtil.kt:119-129 | the ids kept are exactly the ids offered, each over a state of its own id |
| Search.FirstByIdMeaning | src/util/kotlin/me/sizableshrimp/adventofcode2025/util/SearchUtil.kt:122-129 | a state is kept exactly when it is the first offered with its id |
| Search.OfferNewFirst | src/util/kotlin/me/sizableshrimp/adventofcode2025/util/SearchUtil.kt:122-129 | offering more states one at a time to `addNext` keeps the first state per id of all offers |
| Search.OffersStep | src/util/kotlin/me/sizableshrimp/adventofcode2025/util/SearchUtil.kt:131-135 | running one more state offers its successors after every earlier offer |
| Search.SearchNoRepeatsById | src/util/kotlin/me/sizableshrimp/adventofcode2025/util/SearchUtil.kt:114-138 | `searchNoRepeats` by id: the start is kept; every kept state is reachable; one state per id; the ids are closed under successors; each kept state is run exactly once; and a state is kept exactly when it is the first offered with its id, the start offered first and then the successors of each state run, in order |
| Search.ClosedHoldsReachable | src/util/kotlin/me/sizableshrimp/adventofcode2025/util/SearchUtil.kt:155-161 | a set holding the start and closed under successors holds every state on a path from the start |
| Search.AddNextSet | src/util/kotlin/me/sizableshrimp/adventofcode2025/util/SearchUtil.kt:148-153 | `seen.add(s)`: true iff new; the queue grows only then |
| Search.ExpandSetStep | src/util/kotlin/me/sizableshrimp/adventofcode2025/util/SearchUtil.kt:158 | one `addNext` call inside `run` keeps the step invariant |
| Search.OfferSetInv | src/util/kotlin/me/sizableshrimp/adventofcode2025/util/SearchUtil.kt:158 | offering the successors in order keeps the invariant |
| Search.ExpandSet | src/util/kotlin/me/sizableshrimp/adventofcode2025/util/SearchUtil.kt:158 | `run(state, addNext)` offers each successor once, in order |
| Search.ExpandSetDone | src/util/kotlin/me/sizableshrimp/adventofcode2025/util/SearchUtil.kt:158 | with every successor offered, the state joins the states run |
| Search.PopSetInv | src/util/kotlin/me/sizableshrimp/adventofcode2025/util/SearchUtil.kt:156 | the popped state is seen and becomes the running state |
| Search.SetDone | src/util/kotlin/me/sizableshrimp/adventofcode2025/util/SearchUtil.kt:155-161 | with an empty queue the seen set is exactly the reachable states, each run once |
| Search.SearchNoRepeats | src/util/kotlin/me/sizableshrimp/adventofcode2025/util/SearchUtil.kt:140-162 | the set-based `searchNoRepeats` returns exactly the states reachable from the start, and runs each exactly once |
| Search.AcyclicChildren | src/util/kotlin/me/sizableshrimp/adventofcode2025/util/SearchUtil.kt:179-181 | the children `run` asks `recurse` about rank lower than their parent and have no id cycle below them |
| Search.ValueOf | src/util/kotlin/me/sizableshrimp/adventofcode2025/util/SearchUtil.kt:179-181 | the reference value of a state is `run` applied to the values of its children, in order |
| Search.KeptTrans | src/util/kotlin/me/sizableshrimp/adventofcode2025/util/SearchUtil.kt:180 | the cache never loses an id or a non-null answer, across several calls |
| Search.UntouchedTrans | src/util/kotlin/me/sizableshrimp/adventofcode2025/util/SearchUtil.kt:179-181 | a recursion below a state never touches ids ranked as high as that state, across several calls |
| Search.Memoizer.constructor | src/util/kotlin/me/sizableshrimp/adventofcode2025/util/SearchUtil.kt:177 | an empty cache, bound to the given `getId`, `run` and null test, with nothing computed |
| Search.Memoizer.Recurse | src/util/kotlin/me/sizableshrimp/adventofcode2025/util/SearchUtil.kt:179-181 | `seen[id] ?:`: a non-null cached answer is returned and nothing changes; a missing or null answer is recomputed and cached, as the last entry of the trace; when states sharing an id share an answer, the result is the reference value |
| Search.Memoizer.RecordAnswer | src/util/kotlin/me/sizableshrimp/adventofcode2025/util/SearchUtil.kt:180 | `.also { seen[id] = it }` on a missing or null id keeps every cached answer the last one computed for its id, and recomputes only after null |
| Search.Memoizer.Ask | src/util/kotlin/me/sizableshrimp/adventofcode2025/util/SearchUtil.kt:180 | one `next(child)` call inside `run` answers the next child with its reference value when the cache is consistent, and adds nothing ranked as high as the parent |
| Search.Memoizer.Combined | src/util/kotlin/me/sizableshrimp/adventofcode2025/util/SearchUtil.kt:180 | with every child answered, `run` combines the answers into the reference value of the state |
| Search.Memoizer.Run | src/util/kotlin/me/sizableshrimp/adventofcode2025/util/SearchUtil.kt:180 | `run(s, ::recurse)` keeps the cache valid, adds nothing ranked as high as `s`, and gives the reference value of `s` when the cache is consistent |
| Search.Memoizer.Call | src/util/kotlin/me/sizableshrimp/adventofcode2025/util/SearchUtil.kt:183 | the returned closure gives the reference value of its argument when the cache is consistent, and does not cache the argument itself |
| Search.MemoizingById | src/util/kotlin/me/sizableshrimp/adventofcode2025/util/SearchUtil.kt:173-184 | `searchMemoizing(getId, run)` returns a closure over an empty cache, for any `getId` and `run` |
| Search.SearchMemoizingById | src/util/kotlin/me/sizableshrimp/adventofcode2025/util/SearchUtil.kt:186-197 | `searchMemoizing(start, getId, run)` returns the reference value of `start` whenever states sharing an id share an answer |
| Search.IdentityConsistent | src/util/kotlin/me/sizableshrimp/adventofcode2025/util/SearchUtil.kt:199-218 | keying by the state itself always makes the cache consistent |
| Search.InjectiveConsistent | src/util/kotlin/me/sizableshrimp/adventofcode2025/util/SearchUtil.kt:173-197 | an id function that never maps two states to one id makes the cache consistent |
| Search.Memoizing | src/util/kotlin/me/sizableshrimp/adventofcode2025/util/SearchUtil.kt:199-207 | `searchMemoizing(run)` returns a closure over an empty cache keyed by the state itself, which is consistent |
| Search.SearchMemoizing | src/util/kotlin/me/sizableshrimp/adventofcode2025/util/SearchUtil.kt:209-218 | `searchMemoizing(start, run)` returns the reference value of `start` for any `run` with a rank below `start`, since a cache keyed by the state is consistent |
| Ranges.WrapTo | src/util/kotlin/me/sizableshrimp/adventofcode2025/util/RangeUtil.kt:26-30 | reduces an exact result into the width's value range, leaving values that fit unchanged |
| Ranges.Size | src/util/kotlin/me/sizableshrimp/adventofcode2025/util/RangeUtil.kt:26-30 | `last - first + 1` in the range's own width, so it always lies within that width |
| Ranges.CountBetween | src/util/kotlin/me/sizableshrimp/adventofcode2025/util/RangeUtil.kt:26-30 | `lo..hi` has exactly `hi - lo + 1` elements |
| Ranges.SizeCounts | src/util/kotlin/me/sizableshrimp/adventofcode2025/util/RangeUtil.kt:26-30 | for a non-empty range whose count fits, `size` is the number of its elements |
| Ranges.SizeWraps | src/util/kotlin/me/sizableshrimp/adventofcode2025/util/RangeUtil.kt:26-27 | `(Int.MIN_VALUE..0).size` overflows and is negative |
| Ranges.Intersect | src/util/kotlin/me/sizableshrimp/adventofcode2025/util/RangeUtil.kt:32-48 | `intersectWith`: `null` when the ranges do not overlap, otherwise a non-empty range |
| Ranges.IntersectContains | src/util/kotlin/me/sizableshrimp/adventofcode2025/util/RangeUtil.kt:32-48 | a value is in the intersection iff it is in both ranges; the intersection stays within the width |
| Ranges.IntersectCommutes | src/util/kotlin/me/sizableshrimp/adventofcode2025/util/RangeUtil.kt:32-48 | intersecting is symmetric |
| Ranges.NonEmptyOnly | src/util/kotlin/me/sizableshrimp/adventofcode2025/util/RangeUtil.kt:54 | `filter { it.first <= it.last }` keeps exactly the non-empty ranges, in order |
| Ranges.DisjointRangesWrapCounterexample | src/util/kotlin/me/sizableshrimp/adventofcode2025/util/RangeUtil.kt:50-55 | as written, two ranges that both end at `Int.MAX_VALUE` make `intersection.last + 1` wrap, and the second part covers values of the intersection |
| Ranges.DisjointRanges | src/util/kotlin/me/sizableshrimp/adventofcode2025/util/RangeUtil.kt:50-69 | `getDisjointRanges` as intended: at most two ranges |
| Ranges.NonEmptyPair | src/util/kotlin/me/sizableshrimp/adventofcode2025/util/RangeUtil.kt:54 | filtering two ranges keeps the non-empty ones in order |
| Ranges.DisjointRangesAgree | src/util/kotlin/me/sizableshrimp/adventofcode2025/util/RangeUtil.kt:50-69 | the code as written and the intended function agree in every width unless the intersection ends at the width's largest value |
| Ranges.DisjointRangesApart | src/util/kotlin/me/sizableshrimp/adventofcode2025/util/RangeUtil.kt:51 | ranges that do not overlap come back unchanged, in order |
| Ranges.DisjointRangesSymmetricDifference | src/util/kotlin/me/sizableshrimp/adventofcode2025/util/RangeUtil.kt:50-69 | for overlapping ranges the result is non-empty ranges within the width, separated by a gap, covering exactly the values in one range but not the other |
| Ranges.CoveredPair | src/util/kotlin/me/sizableshrimp/adventofcode2025/util/RangeUtil.kt:54 | the filtered pair covers exactly the values of the two ranges |
| Ranges.DisjointRangesWidthFree | src/util/kotlin/me/sizableshrimp/adventofcode2025/util/RangeUtil.kt:50-69 | the `Int`, `Long` and `Char` versions compute the same ranges when no wrap happens |
| Collections.Distinct | src/mainKotlin/kotlin/me/sizableshrimp/adventofcode2025/days/Day09.kt:38 | `distinct()`: the same elements, each once |
| Collections.TwoCopies | src/mainKotlin/kotlin/me/sizableshrimp/adventofcode2025/days/Day09.kt:38 | an element at two positions occurs twice |
| Collections.OnceIsUnique | src/mainKotlin/kotlin/me/sizableshrimp/adventofcode2025/days/Day09.kt:38 | a list holding each element at most once has no repeated position |
| Collections.DistinctOfUnique | src/mainKotlin/kotlin/me/sizableshrimp/adventofcode2025/days/Day10.kt:37 | `distinct()` of a list without repeats is the list itself |
| Collections.FirstIndex | src/mainKotlin/kotlin/me/sizableshrimp/adventofcode2025/days/Day09.kt:38 | the position of the first occurrence of an element: it holds the element and no earlier position does |
| Collections.FirstIndexPrefix | src/mainKotlin/kotlin/me/sizableshrimp/adventofcode2025/days/Day09.kt:38 | elements appended after a first occurrence do not move it |
| Collections.DistinctInOrder | src/mainKotlin/kotlin/me/sizableshrimp/adventofcode2025/days/Day09.kt:38 | `distinct()` lists the elements in the order of their first occurrences; with the contract of `Distinct` this determines the result |
| Collections.Parts | src/util/kotlin/me/sizableshrimp/adventofcode2025/util/CollectionUtil.kt:43-58 | `splitOn`: always at least one part (the first, possibly empty, list) |
| Collections.Step | src/util/kotlin/me/sizableshrimp/adventofcode2025/util/CollectionUtil.kt:48-55 | one element: a separator opens a new empty part, anything else joins the last part |
| Collections.SplitOn | src/util/kotlin/me/sizableshrimp/adventofcode2025/util/CollectionUtil.kt:43-58 | the loop computes `Parts` |
| Collections.PartsCount | src/util/kotlin/me/sizableshrimp/adventofcode2025/util/CollectionUtil.kt:43-58 | one part more than there are separators |
| Collections.PartsFlatten | src/util/kotlin/me/sizableshrimp/adventofcode2025/util/CollectionUtil.kt:43-58 | the parts joined are the input with the separators removed, in order |
| Collections.PartsHaveNoSeparator | src/util/kotlin/me/sizableshrimp/adventofcode2025/util/CollectionUtil.kt:43-58 | no part holds a separator |
| Collections.StepMerge | src/util/kotlin/me/sizableshrimp/adventofcode2025/util/CollectionUtil.kt:48-55 | stepping the split of a concatenation steps the split of its second half |
| Collections.PartsAppend | src/util/kotlin/me/sizableshrimp/adventofcode2025/util/CollectionUtil.kt:43-58 | the split of `xs + ys` joins the last part of `xs`'s split with the first of `ys`'s |
| Collections.PartsNoSeparator | src/util/kotlin/me/sizableshrimp/adventofcode2025/util/CollectionUtil.kt:43-58 | a list without separators is one part |
| Collections.AdjacentSeparators | src/util/kotlin/me/sizableshrimp/adventofcode2025/util/CollectionUtil.kt:48-52 | two separators in a row produce an empty part |
| Collections.SplitOnElement | src/util/kotlin/me/sizableshrimp/adventofcode2025/util/CollectionUtil.kt:60 | `splitOnElement`: `splitOn { element == it }`, and joining the parts with the element gives the input back |
| Collections.JoinParts | src/util/kotlin/me/sizableshrimp/adventofcode2025/util/CollectionUtil.kt:60 | joining the parts with the separating element is the input |
| Collections.JoinStep | src/util/kotlin/me/sizableshrimp/adventofcode2025/util/CollectionUtil.kt:48-55 | one more element extends the joined text by that element |
| Collections.PartsAfterSeparator | src/util/kotlin/me/sizableshrimp/adventofcode2025/util/CollectionUtil.kt:48-55 | a leading separator gives an empty first part |
| Collections.PartsJoin | src/util/kotlin/me/sizableshrimp/adventofcode2025/util/CollectionUtil.kt:60 | splitting parts that hold no separator, joined with it, gives those parts back |
| Collections.JoinFront | src/util/kotlin/me/sizableshrimp/adventofcode2025/util/CollectionUtil.kt:60 | joining a first part with the rest puts the separator between them |
| Collections.JoinLast | src/util/kotlin/me/sizableshrimp/adventofcode2025/util/CollectionUtil.kt:60 | joining the front with the last part puts the separator between them |
| Collections.MergeSeparated | src/util/kotlin/me/sizableshrimp/adventofcode2025/util/CollectionUtil.kt:48-52 | a separator at the end of the second half opens a new last part |
| Collections.PartsAgree | src/util/kotlin/me/sizableshrimp/adventofcode2025/util/CollectionUtil.kt:43-58 | two splitters that agree on every element split alike |
| Collections.JoinMembers | src/util/kotlin/me/sizableshrimp/adventofcode2025/util/CollectionUtil.kt:60 | every element of the joined text is the separator or an element of a part |
| Collections.TrimStart | src/mainKotlin/kotlin/me/sizableshrimp/adventofcode2025/days/Day06.kt:60 | `trimStart()`: a suffix of the input whose dropped characters are all whitespace and whose first character is not |
| Collections.TrimEnd | src/mainKotlin/kotlin/me/sizableshrimp/adventofcode2025/days/Day06.kt:60 | `trimEnd()`: a prefix of the input whose dropped characters are all whitespace and whose last character is not |
| Collections.Trim | src/mainKotlin/kotlin/me/sizableshrimp/adventofcode2025/days/Day06.kt:60 | `trim()`: neither end of a non-empty result is whitespace |
| Collections.SplitOnBlankLines | src/util/kotlin/me/sizableshrimp/adventofcode2025/util/CollectionUtil.kt:62 | `splitOnBlankLines`: `splitOn(String::isBlank)`, one block more than blank lines, the blocks holding exactly the non-blank lines, in order |
| Collections.BlankLinesJoin | src/util/kotlin/me/sizableshrimp/adventofcode2025/util/CollectionUtil.kt:62 | blocks without blank lines, joined by empty lines, split back into those blocks |
| Collections.JoinedLine | src/util/kotlin/me/sizableshrimp/adventofcode2025/util/CollectionUtil.kt:62 | in such joined text the only blank lines are the empty separators |
| Collections.FindFrom | src/mainKotlin/kotlin/me/sizableshrimp/adventofcode2025/days/Day02.kt:31 | `indexOf(d, from)`: the first occurrence at or after `from`, or -1 when there is none |
| Collections.Split | src/mainKotlin/kotlin/me/sizableshrimp/adventofcode2025/days/Day02.kt:31 | `split(d)`: at least one piece |
| Collections.PrefixFree | src/mainKotlin/kotlin/me/sizableshrimp/adventofcode2025/days/Day02.kt:31 | the text before the first occurrence holds no occurrence |
| Collections.SplitStep | src/mainKotlin/kotlin/me/sizableshrimp/adventofcode2025/days/Day02.kt:31 | the first piece is the text before the first occurrence, and splitting goes on after it |
| Collections.SplitJoin | src/mainKotlin/kotlin/me/sizableshrimp/adventofcode2025/days/Day02.kt:31 | joining the pieces with the delimiter gives the input back |
| Collections.SplitFree | src/mainKotlin/kotlin/me/sizableshrimp/adventofcode2025/days/Day02.kt:31 | no piece holds the delimiter |
| Collections.JoinWithChar | src/mainKotlin/kotlin/me/sizableshrimp/adventofcode2025/days/Day10.kt:37 | joining with a one-character delimiter is joining with that character |
| Collections.SplitChar | src/mainKotlin/kotlin/me/sizableshrimp/adventofcode2025/days/Day10.kt:37 | splitting at a one-character delimiter is `splitOnElement` of that character |
| Collections.FirstAt | src/mainKotlin/kotlin/me/sizableshrimp/adventofcode2025/days/Day11.kt:32 | an occurrence with none before it is what `indexOf` finds |
| Collections.SplitWhole | src/mainKotlin/kotlin/me/sizableshrimp/adventofcode2025/days/Day11.kt:33 | text without the delimiter is one piece |
| Collections.JoinWithAvoids | src/mainKotlin/kotlin/me/sizableshrimp/adventofcode2025/days/Day11.kt:33 | a character in neither the pieces nor the delimiter is not in the joined text |
| Collections.SplitAroundColon | src/mainKotlin/kotlin/me/sizableshrimp/adventofcode2025/days/Day11.kt:32 | `"name: rest".split(": ")` is `[name, rest]` when neither part holds the delimiter |
| Collections.CharFree | src/mainKotlin/kotlin/me/sizableshrimp/adventofcode2025/days/Day11.kt:32 | a text without the delimiter's first character holds no occurrence of it |
| Collections.ToPair | src/util/kotlin/me/sizableshrimp/adventofcode2025/util/CollectionUtil.kt:74-77 | `toPair`: a pair of the two elements exactly when there are two, `IllegalArgumentException` otherwise |
| Collections.Max | src/util/kotlin/me/sizableshrimp/adventofcode2025/util/CollectionUtil.kt:79-107 | `max()` of an `Int` or `Long` collection: `IllegalArgumentException` when empty, otherwise an element that no element exceeds |
| Collections.Min | src/util/kotlin/me/sizableshrimp/adventofcode2025/util/CollectionUtil.kt:169-197 | `min()`: `IllegalArgumentException` when empty, otherwise an element no element is below |
| Collections.ToList | src/util/kotlin/me/sizableshrimp/adventofcode2025/util/CollectionUtil.kt:244-248 | `toIntList()`: the range's values, in increasing order, nothing else |
| Collections.DeepCopy | src/util/kotlin/me/sizableshrimp/adventofcode2025/util/CollectionUtil.kt:250-268 | `deepCopy()`: a fresh outer array of fresh row copies with the same contents, no two rows shared |
| Collections.Repeat | src/util/kotlin/me/sizableshrimp/adventofcode2025/util/CollectionUtil.kt:266 | `repeat(num)`: `num` copies of the value; a negative count throws |
| Collections.RepeatElementsWrapCounterexample | src/util/kotlin/me/sizableshrimp/adventofcode2025/util/CollectionUtil.kt:264 | as written, `[7, 8, 9].repeatElements(0x55555556)` has `size * num` wrap to 2 and returns `[7, 8]` |
| Collections.RepeatElements | src/util/kotlin/me/sizableshrimp/adventofcode2025/util/CollectionUtil.kt:264 | `repeatElements` as intended: `size * num` elements cycling through the list, or an error when that count is negative or beyond `Int` |
| Collections.RepeatElementsAgree | src/util/kotlin/me/sizableshrimp/adventofcode2025/util/CollectionUtil.kt:264 | the written and the intended versions agree when `size * num` fits an `Int` |
| Collections.RepeatElementsIsConcat | src/util/kotlin/me/sizableshrimp/adventofcode2025/util/CollectionUtil.kt:264 | the repeated list is `num` copies of the list, one after another |
| Collections.AllIndexed | src/util/kotlin/me/sizableshrimp/adventofcode2025/util/CollectionUtil.kt:270-274 | `allIndexed`: true iff the predicate holds at every index with its element |
| Collections.AllFromHolds | src/util/kotlin/me/sizableshrimp/adventofcode2025/util/CollectionUtil.kt:270-274 | the loop from index `i` is true iff the predicate holds at every index from `i` on |
| Grids.SetOnlyThatCell | src/util/kotlin/me/sizableshrimp/adventofcode2025/util/GridUtil.kt:91-102 | after `grid[c] = v` the grid keeps its shape, `grid[c]` reads `v`, and every other cell reads as before |
| Grids.Grid.constructor | src/util/kotlin/me/sizableshrimp/adventofcode2025/util/GridUtil.kt:100-102 | a grid holding the given rows |
| Grids.Grid.Set | src/util/kotlin/me/sizableshrimp/adventofcode2025/util/GridUtil.kt:100-102 | `grid[coord] = value`: an in-bounds cell is overwritten and nothing else changes; an outside cell throws `IndexOutOfBounds` and changes nothing |
| Grids.ToGrid | src/util/kotlin/me/sizableshrimp/adventofcode2025/util/GridUtil.kt:30-52 | `toGrid(func)`: one row per line, as long as its line |
| Grids.ToGridWithCoord | src/util/kotlin/me/sizableshrimp/adventofcode2025/util/GridUtil.kt:54-55 | `toGridWithCoord(func)`: one row per line, as long as its line |
| Grids.ToGridCells | src/util/kotlin/me/sizableshrimp/adventofcode2025/util/GridUtil.kt:30-55 | each cell of the grid is `func` of the line's character at that place (with its coordinate for `toGridWithCoord`); the grid has the lines' cells and no others |
| Grids.FindFirstCoord | src/util/kotlin/me/sizableshrimp/adventofcode2025/util/GridUtil.kt:57-66 | `findFirstCoord`: the first occurrence of the character in row-major order, or `null` when there is none |
| Grids.FindAllCoords | src/util/kotlin/me/sizableshrimp/adventofcode2025/util/GridUtil.kt:68-79 | `findAllCoords`: exactly the coordinates holding the character |
| Grids.Neighbors | src/util/kotlin/me/sizableshrimp/adventofcode2025/util/GridUtil.kt:134-162 | one neighbour at most per direction |
| Grids.DirsOf | src/util/kotlin/me/sizableshrimp/adventofcode2025/util/GridUtil.kt:134-142 | the directions of the neighbours yielded |
| Grids.NeighborsYield | src/util/kotlin/me/sizableshrimp/adventofcode2025/util/GridUtil.kt:134-162 | `(dir, next)` is yielded iff `dir` is among the directions, `next` is `coord.resolve(dir)`, and it lies inside the grid |
| Grids.NeighborsInOrder | src/util/kotlin/me/sizableshrimp/adventofcode2025/util/GridUtil.kt:134-162 | the neighbours come in the order of the direction list |
| Grids.CornerNeighbors | src/util/kotlin/me/sizableshrimp/adventofcode2025/util/GridUtil.kt:134-142 | the top-left cell's cardinal neighbours are east then south |
| Grids.WalkedShape | src/util/kotlin/me/sizableshrimp/adventofcode2025/util/GridUtil.kt:376-396 | the iterator's output after `y` full rows and `x` more cells has `y * width + x` cells, cell `i` being `(i % width, i / width)` with its value |
| Grids.WalkedRowEnd | src/util/kotlin/me/sizableshrimp/adventofcode2025/util/GridUtil.kt:387-391 | a finished row moves the walk to the start of the next one |
| Grids.LastCell | src/util/kotlin/me/sizableshrimp/adventofcode2025/util/GridUtil.kt:384-395 | the cell at position `y * width + x` of the walk is `(x, y)` |
| Grids.AppendCell | src/util/kotlin/me/sizableshrimp/adventofcode2025/util/GridUtil.kt:384-395 | one more cell keeps the walk's shape |
| Grids.WalkedStep | src/util/kotlin/me/sizableshrimp/adventofcode2025/util/GridUtil.kt:384-395 | `next()` advances `x`, wrapping to the next row at `width` |
| Grids.GridIterator.constructor | src/util/kotlin/me/sizableshrimp/adventofcode2025/util/GridUtil.kt:376-378 | `GridIterator(height, width)` starts at `(0, 0)` |
| Grids.GridIterator.Next | src/util/kotlin/me/sizableshrimp/adventofcode2025/util/GridUtil.kt:384-395 | `next()` returns the current coordinate and its value, then moves right, wrapping to the next row at `width`; reading outside the grid throws `IndexOutOfBounds` |
| Grids.WithCoordinate | src/util/kotlin/me/sizableshrimp/adventofcode2025/util/GridUtil.kt:398 | `withCoordinate()` lists `height * this[0].size` cells row by row; it throws when the grid is empty or a row is shorter than the first |
| Grids.VisitedSteps | src/util/kotlin/me/sizableshrimp/adventofcode2025/util/GridUtil.kt:410-416 | the nested loops visit each row's cells left to right, then the next row |
| Grids.VisitedEmptyRow | src/util/kotlin/me/sizableshrimp/adventofcode2025/util/GridUtil.kt:410-416 | an empty row adds nothing |
| Grids.RowCellsMembers | src/util/kotlin/me/sizableshrimp/adventofcode2025/util/GridUtil.kt:410-416 | the first `x` cells of row `y` are exactly its cells left of `x` |
| Grids.CellsMembers | src/util/kotlin/me/sizableshrimp/adventofcode2025/util/GridUtil.kt:410-416 | the cells of the first `y` rows are exactly the in-bounds coordinates above `y` with their values |
| Grids.CellsOrdered | src/util/kotlin/me/sizableshrimp/adventofcode2025/util/GridUtil.kt:410-416 | the cells come in row-major order |
| Grids.RowCellsOrdered | src/util/kotlin/me/sizableshrimp/adventofcode2025/util/GridUtil.kt:410-416 | within a row, the cells come left to right, `x` of them |
| Grids.CellsCount | src/util/kotlin/me/sizableshrimp/adventofcode2025/util/GridUtil.kt:410-416 | as many cells as the rows' lengths add up to |
| Grids.MapCells | src/util/kotlin/me/sizableshrimp/adventofcode2025/util/GridUtil.kt:540-548 | one transformed value per cell, in order |
| Grids.FilterCells | src/util/kotlin/me/sizableshrimp/adventofcode2025/util/GridUtil.kt:692-701 | no more cells than visited |
| Grids.FoldsSnoc | src/util/kotlin/me/sizableshrimp/adventofcode2025/util/GridUtil.kt:540-701 | one more cell adds its image to `map2D` and, when it passes, itself to `filter2D` |
| Grids.FilterMembers | src/util/kotlin/me/sizableshrimp/adventofcode2025/util/GridUtil.kt:692-701 | a cell is kept iff it is visited and passes the predicate |
| Grids.FilterSplit | src/util/kotlin/me/sizableshrimp/adventofcode2025/util/GridUtil.kt:692-701 | the kept cells and the rejected cells add up to all the cells |
| Grids.WrappedSnoc | src/util/kotlin/me/sizableshrimp/adventofcode2025/util/GridUtil.kt:870-912 | one more cell adds to the running `Int`/`Long` total with wrap-around |
| Grids.CountWrappedIsWrap | src/util/kotlin/me/sizableshrimp/adventofcode2025/util/GridUtil.kt:1157-1166 | `count2D` is the number of passing cells, wrapped to an `Int` |
| Grids.SumWrapped32IsWrap | src/util/kotlin/me/sizableshrimp/adventofcode2025/util/GridUtil.kt:870-878 | the `Int` `sumOf2D` is the exact sum wrapped to an `Int` |
| Grids.SumWrapped64IsWrap | src/util/kotlin/me/sizableshrimp/adventofcode2025/util/GridUtil.kt:892-900 | the `Long` `sumOf2D` is the exact sum wrapped to a `Long` |
| Grids.ForEach2D | src/util/kotlin/me/sizableshrimp/adventofcode2025/util/GridUtil.kt:410-416 | `forEach2D` calls the action on every cell, in row-major order, once each |
| Grids.Map2D | src/util/kotlin/me/sizableshrimp/adventofcode2025/util/GridUtil.kt:540-548 | `map2D` is the transform of every cell in row-major order |
| Grids.Filter2D | src/util/kotlin/me/sizableshrimp/adventofcode2025/util/GridUtil.kt:692-701 | `filter2D` keeps the passing cells, in row-major order |
| Grids.Count2D | src/util/kotlin/me/sizableshrimp/adventofcode2025/util/GridUtil.kt:1157-1166 | `count2D` counts the passing cells in `Int` arithmetic |
| Grids.SumOf2D | src/util/kotlin/me/sizableshrimp/adventofcode2025/util/GridUtil.kt:870-878 | `sumOf2D` adds the selected `Int`s with wrap-around |
| Grids.SumOf2DLong | src/util/kotlin/me/sizableshrimp/adventofcode2025/util/GridUtil.kt:892-900 | `sumOf2D` adds the selected `Long`s with wrap-around |
| Grids.CountExact | src/util/kotlin/me/sizableshrimp/adventofcode2025/util/GridUtil.kt:1157-1166 | on a grid of at most `Int.MAX_VALUE` cells the count is exact, and passing plus failing cells are all the cells |
| Directions.X | src/util/java/me/sizableshrimp/adventofcode2025/templates/Direction.java:36-39 | the x offset of a direction is -1, 0 or 1 |
| Directions.Y | src/util/java/me/sizableshrimp/adventofcode2025/templates/Direction.java:36-39 | the y offset of a direction is -1, 0 or 1 (north is -1) |
| Directions.TableShape | src/util/java/me/sizableshrimp/adventofcode2025/templates/Direction.java:36-62 | every direction has a non-zero unit offset and degrees a multiple of 45 below 360; distinct directions differ in both; exactly the cardinal ones have an axis, `X` for horizontal and `Y` for vertical offsets |
| Directions.ArraysShape | src/util/java/me/sizableshrimp/adventofcode2025/templates/Direction.java:42-44 | `CARDINAL_ORDINAL` is `CARDINAL` then `ORDINAL`, holds all eight directions once, and each of the two halves goes round in 90-degree steps |
| Directions.CardinalMap | src/util/java/me/sizableshrimp/adventofcode2025/templates/Direction.java:65-67 | `getCardinalDirections` maps the four characters to north, east, south, west; `Map.of` throws `IllegalArgumentException` when two characters coincide |
| Directions.ParseDirection | src/util/java/me/sizableshrimp/adventofcode2025/templates/Direction.java:69-90 | `parseDirection` gives the direction with offset `(xDiff, yDiff)`, and throws `IllegalArgumentException` for `(0, 0)` or any component outside -1..1 |
| Directions.ParseOffset | src/util/java/me/sizableshrimp/adventofcode2025/templates/Direction.java:69-90 | parsing a direction's own offset gives it back |
| Directions.CardinalOf | src/util/java/me/sizableshrimp/adventofcode2025/templates/Direction.java:92-100 | `getCardinalDirection` accepts exactly `NU^ER>SDvWL<`, always giving a cardinal direction, and throws `IllegalStateException` otherwise |
| Directions.CharURDL | src/util/java/me/sizableshrimp/adventofcode2025/templates/Direction.java:117-125 | defined exactly for the cardinal directions; others throw `IllegalStateException` |
| Directions.CharNESW | src/util/java/me/sizableshrimp/adventofcode2025/templates/Direction.java:127-135 | defined exactly for the cardinal directions; others throw `IllegalStateException` |
| Directions.CharArrow | src/util/java/me/sizableshrimp/adventofcode2025/templates/Direction.java:137-145 | defined exactly for the cardinal directions; others throw `IllegalStateException` |
| Directions.CharsRoundTrip | src/util/java/me/sizableshrimp/adventofcode2025/templates/Direction.java:92-145 | each of the three characters of a cardinal direction parses back to it, and different directions get different characters |
| Directions.AtDegrees | src/util/java/me/sizableshrimp/adventofcode2025/templates/Direction.java:41-50 | `degreesMap` holds exactly the multiples of 45 in 0..315, each for the direction of those degrees |
| Directions.Normalized | src/util/java/me/sizableshrimp/adventofcode2025/templates/Direction.java:164-166 | `360 + degrees` for negatives, then Java's `%`, lands strictly between -360 and 360 |
| Directions.NormalizedMod | src/util/java/me/sizableshrimp/adventofcode2025/templates/Direction.java:164-166 | from -360 up, the normalisation is the mathematical remainder modulo 360 |
| Directions.FromDegrees | src/util/java/me/sizableshrimp/adventofcode2025/templates/Direction.java:163-172 | `fromDegrees` throws only `IllegalArgumentException` |
| Directions.FromDegreesTurns | src/util/java/me/sizableshrimp/adventofcode2025/templates/Direction.java:163-172 | from -360 up, `fromDegrees` succeeds iff the angle is a multiple of 45, giving the direction at that angle modulo 360 |
| Directions.FromDegreesBelowOneTurn | src/util/java/me/sizableshrimp/adventofcode2025/templates/Direction.java:164-170 | below -360 a single `360 +` is not enough: `fromDegrees(-450)` throws although -450 is a multiple of 45 |
| Directions.FromDegreesTable | src/util/java/me/sizableshrimp/adventofcode2025/templates/Direction.java:163-172 | `fromDegrees(dir.degrees)` is `dir` |
| Directions.RelativeTurn | src/util/java/me/sizableshrimp/adventofcode2025/templates/Direction.java:147-149 | a turn by a multiple of 45 within one full turn always succeeds, at the sum of the angles modulo 360 |
| Directions.DegreesDetermine | src/util/java/me/sizableshrimp/adventofcode2025/templates/Direction.java:36-39 | the degrees identify the direction |
| Directions.Degrees | src/util/java/me/sizableshrimp/adventofcode2025/templates/Direction.java:36-39 | each direction's degrees lie in 0..359 and are a multiple of 45 |
| Directions.Opposite | src/util/java/me/sizableshrimp/adventofcode2025/templates/Direction.java:151-153 | `opposite()` negates the offset and keeps the axis |
| Directions.Clockwise | src/util/java/me/sizableshrimp/adventofcode2025/templates/Direction.java:155-157 | `clockwise()` turns the offset a quarter to the right, 90 degrees on |
| Directions.CounterClockwise | src/util/java/me/sizableshrimp/adventofcode2025/templates/Direction.java:159-161 | `counterClockwise()` turns the offset a quarter to the left, 270 degrees on |
| Directions.TurnsInverse | src/util/java/me/sizableshrimp/adventofcode2025/templates/Direction.java:151-161 | `opposite` undoes itself, `clockwise` and `counterClockwise` undo each other, two clockwise turns are the opposite |
| Directions.GetAxis | src/util/java/me/sizableshrimp/adventofcode2025/templates/Direction.java:178-180 | `getAxis` gives the x offset for `X` and the y offset for `Y` |
| Directions.OtherAxis | src/util/java/me/sizableshrimp/adventofcode2025/templates/Direction.java:191-193 | `Axis.opposite()` is the other axis |
| Directions.AxisDirectionsMembers | src/util/java/me/sizableshrimp/adventofcode2025/templates/Direction.java:183-197 | each axis lists exactly its two directions |
| Directions.AxisDirectionsOpposite | src/util/java/me/sizableshrimp/adventofcode2025/templates/Direction.java:183-193 | the two directions of an axis are opposite; the other axis of the other axis is the axis itself |
| ZDirections.TableShape | src/util/java/me/sizableshrimp/adventofcode2025/templates/ZDirection.java:31-52 | every direction is a unit offset along its own axis and zero along the others; distinct directions have distinct offsets |
| ZDirections.OneAxisShape | src/util/java/me/sizableshrimp/adventofcode2025/templates/ZDirection.java:39-59 | `oneAxisDirections()` lists all six directions once, the four horizontal ones first |
| ZDirections.FromDirection | src/util/java/me/sizableshrimp/adventofcode2025/templates/ZDirection.java:65-73 | `fromDirection` keeps the offset of a cardinal direction with z = 0, and throws `IllegalArgumentException` for an ordinal one |
| ZDirections.ToDirection | src/util/java/me/sizableshrimp/adventofcode2025/templates/ZDirection.java:75-83 | `toDirection` keeps the offset of a horizontal direction and throws `IllegalArgumentException` for up and down |
| ZDirections.DirectionRoundTrip | src/util/java/me/sizableshrimp/adventofcode2025/templates/ZDirection.java:65-83 | `toDirection` undoes `fromDirection` on cardinal directions, and the reverse on horizontal ones |
| Coordinates.Parse | src/util/java/me/sizableshrimp/adventofcode2025/templates/Coordinate.java:48-53 | `parse` without a comma throws `IndexOutOfBoundsException`; every failure is that or a `NumberFormatException` |
| Coordinates.ParseRoundTrip | src/util/java/me/sizableshrimp/adventofcode2025/templates/Coordinate.java:48-53 | `parse` reads back the decimal text `x,y` of every coordinate |
| Coordinates.ParseThreeParts | src/util/java/me/sizableshrimp/adventofcode2025/templates/Coordinate.java:48-53 | a second comma stays in the `y` text, so `parse("1,2,3")` throws `NumberFormatException` |
| Coordinates.Resolve | src/util/java/me/sizableshrimp/adventofcode2025/templates/Coordinate.java:67-72 | the zero-offset shortcut of `resolve(x, y)` returns the same value as the component-wise 32-bit sum |
| Coordinates.ResolveExact | src/util/java/me/sizableshrimp/adventofcode2025/templates/Coordinate.java:67-72 | without overflow, `resolve(x, y)` adds the offset exactly |
| Coordinates.ResolveLaws | src/util/java/me/sizableshrimp/adventofcode2025/templates/Coordinate.java:55-72 | `resolve(Coordinate)` has ORIGIN as identity, is commutative and associative, and the negated offset undoes it, even under wrap-around |
| Coordinates.AsCoords | src/util/java/me/sizableshrimp/adventofcode2025/templates/Direction.java:174-176 | a direction's offset is never ORIGIN |
| Coordinates.AsCoordsOpposite | src/util/java/me/sizableshrimp/adventofcode2025/templates/Direction.java:174-176 | the opposite direction's offset is the negated offset |
| Coordinates.StepBack | src/util/java/me/sizableshrimp/adventofcode2025/templates/Coordinate.java:181-183 | `resolve(direction)` moves by the direction's offset, and a step in the opposite direction comes back |
| Coordinates.ResolveDir | src/util/java/me/sizableshrimp/adventofcode2025/templates/Coordinate.java:181-183 | `resolve(direction)` always leaves the cell, and adds the direction's offset exactly where that fits an `int` |
| Coordinates.StepInjective | src/util/java/me/sizableshrimp/adventofcode2025/templates/Coordinate.java:181-183 | two different directions never lead from one coordinate to the same one |
| Coordinates.ResolveDirTimesExact | src/util/java/me/sizableshrimp/adventofcode2025/templates/Coordinate.java:185-187 | without overflow, `resolve(direction, count)` moves by exactly `count` times the offset |
| Coordinates.ResolveDirTimesStep | src/util/java/me/sizableshrimp/adventofcode2025/templates/Coordinate.java:185-187 | zero steps stay put, and `count + 1` steps are `count` steps followed by one step |
| Coordinates.OffsetStep | src/util/java/me/sizableshrimp/adventofcode2025/templates/Coordinate.java:185-187 | the offset of `count + 1` steps is the offset of `count` steps plus one offset, in 32-bit arithmetic |
| Coordinates.Multiply | src/util/java/me/sizableshrimp/adventofcode2025/templates/Coordinate.java:78-83 | the unit-factor shortcut of `multiply(x, y)` returns the same value as the component-wise 32-bit product |
| Coordinates.MultiplyExact | src/util/java/me/sizableshrimp/adventofcode2025/templates/Coordinate.java:78-83 | without overflow, `multiply` multiplies each component exactly |
| Coordinates.MultiplyLaws | src/util/java/me/sizableshrimp/adventofcode2025/templates/Coordinate.java:85-87 | `multiply(1)` is the identity, `multiply(-1)` negates, and negating twice gives the coordinate back |
| Coordinates.NegateInvolution | src/util/java/me/sizableshrimp/adventofcode2025/templates/Coordinate.java:74-87 | negation is an involution under wrap-around |
| Coordinates.Negate | src/util/java/me/sizableshrimp/adventofcode2025/templates/Coordinate.java:78-87 | `multiply(-1)` is the additive inverse under wrap-around: moving by it returns to ORIGIN |
| Coordinates.SwapXYInvolution | src/util/java/me/sizableshrimp/adventofcode2025/templates/Coordinate.java:110-112 | `swapXY` is an involution and commutes with `resolve` |
| Coordinates.Rotate90 | src/util/java/me/sizableshrimp/adventofcode2025/templates/Coordinate.java:95-107 | `rotate90` fails only with `IllegalStateException` |
| Coordinates.QuarterTurns | src/util/java/me/sizableshrimp/adventofcode2025/templates/Coordinate.java:95-107 | the 90, 180 and 270 cases of `rotate90` are one, two and three quarter turns, and four quarter turns are the identity |
| Coordinates.Rotate90Turns | src/util/java/me/sizableshrimp/adventofcode2025/templates/Coordinate.java:95-107 | from -360 degrees on, `rotate90` succeeds exactly for multiples of 90 and then turns `degrees mod 360 / 90` quarter turns |
| Coordinates.Rotate90Clockwise | src/util/java/me/sizableshrimp/adventofcode2025/templates/Coordinate.java:95-107 | `rotate90(90)` of a direction's offset is the offset of its clockwise neighbour |
| Coordinates.Rotate90BelowOneTurn | src/util/java/me/sizableshrimp/adventofcode2025/templates/Coordinate.java:95-107 | below one negative turn the normalised angle is still negative, so `rotate90(-450)` throws |
| Coordinates.Distance | src/util/java/me/sizableshrimp/adventofcode2025/templates/Coordinate.java:150-162 | where the Manhattan distance fits in an `int`, `distance` is that distance |
| Coordinates.DistanceSymmetric | src/util/java/me/sizableshrimp/adventofcode2025/templates/Coordinate.java:150-162 | `distance` is symmetric, overflow included |
| Coordinates.DistanceMetric | src/util/java/me/sizableshrimp/adventofcode2025/templates/Coordinate.java:150-162 | where it fits, `distance` is non-negative, zero exactly between equal coordinates, and obeys the triangle inequality |
| Coordinates.DistanceWraps | src/util/java/me/sizableshrimp/adventofcode2025/templates/Coordinate.java:150-162 | overflowing differences make `distance((0,0), (MIN,MIN))` zero |
| Coordinates.DistanceToOriginCounterexample | src/util/java/me/sizableshrimp/adventofcode2025/templates/Coordinate.java:139-141 | `x + y` gives -2 for (-1, -1), whose Manhattan distance to ORIGIN is 2 |
| Coordinates.DistanceToOrigin | src/util/java/me/sizableshrimp/adventofcode2025/templates/Coordinate.java:139-141 | the corrected `distanceToOrigin` is the Manhattan distance to ORIGIN where it fits, and agrees with `x + y` on the non-negative quadrant |
| Coordinates.DistanceToOriginAsWritten | src/util/java/me/sizableshrimp/adventofcode2025/templates/Coordinate.java:139-141 | `distanceToOrigin()` as written is the plain sum `x + y` wherever that fits an `int`, not a distance |
| Coordinates.Relative | src/util/java/me/sizableshrimp/adventofcode2025/templates/Coordinate.java:172-179 | `relative` returns the one direction whose step reaches `other`, and null exactly when no direction does |
| Coordinates.Steps | src/util/java/me/sizableshrimp/adventofcode2025/templates/Coordinate.java:192-215 | `down`, `up`, `left` and `right` change one component by one; down and up undo each other, and so do left and right |
| Coordinates.GetAxisStep | src/util/java/me/sizableshrimp/adventofcode2025/templates/Coordinate.java:220-222 | a step along an axis changes that component by the direction's offset and leaves the other one alone |
| LongCoordinates.Of | src/util/java/me/sizableshrimp/adventofcode2025/templates/LongCoordinate.java:42-44 | `of(Coordinate)` widens each component without changing its value |
| LongCoordinates.OfLaws | src/util/java/me/sizableshrimp/adventofcode2025/templates/LongCoordinate.java:42-44 | widening is injective, and it commutes with `resolve` where the `int` sum does not overflow |
| LongCoordinates.Parse | src/util/java/me/sizableshrimp/adventofcode2025/templates/LongCoordinate.java:52-57 | `parse` without a comma throws `IndexOutOfBoundsException`; every failure is that or a `NumberFormatException` |
| LongCoordinates.ParseRoundTrip | src/util/java/me/sizableshrimp/adventofcode2025/templates/LongCoordinate.java:52-57 | `parse` reads back the decimal text `x,y` of every coordinate |
| LongCoordinates.ParseWidens | src/util/java/me/sizableshrimp/adventofcode2025/templates/LongCoordinate.java:52-57 | text that `Coordinate.parse` accepts parses to the widened coordinate |
| LongCoordinates.Resolve | src/util/java/me/sizableshrimp/adventofcode2025/templates/LongCoordinate.java:71-76 | the zero-offset shortcut of `resolve(x, y)` returns the same value as the component-wise 64-bit sum |
| LongCoordinates.ResolveExact | src/util/java/me/sizableshrimp/adventofcode2025/templates/LongCoordinate.java:71-76 | without overflow, `resolve(x, y)` adds the offset exactly |
| LongCoordinates.ResolveLaws | src/util/java/me/sizableshrimp/adventofcode2025/templates/LongCoordinate.java:59-76 | `resolve(LongCoordinate)` has ORIGIN as identity, is commutative and associative, and the negated offset undoes it, even under wrap-around |
| LongCoordinates.AsCoords | src/util/java/me/sizableshrimp/adventofcode2025/templates/LongCoordinate.java:160-162 | a direction's offset is never ORIGIN |
| LongCoordinates.StepBack | src/util/java/me/sizableshrimp/adventofcode2025/templates/LongCoordinate.java:160-162 | `resolve(direction)` moves by the direction's offset, and a step in the opposite direction comes back |
| LongCoordinates.StepInjective | src/util/java/me/sizableshrimp/adventofcode2025/templates/LongCoordinate.java:160-162 | two different directions never lead from one coordinate to the same one |
| LongCoordinates.ResolveDirTimesCounterexample | src/util/java/me/sizableshrimp/adventofcode2025/templates/LongCoordinate.java:164-166 | as written, `direction.x * count` is an `int` product, so `resolve(WEST, Integer.MIN_VALUE)` from ORIGIN wraps to x = MIN instead of 2147483648 |
| LongCoordinates.ResolveDirTimesAsWrittenStepFails | src/util/java/me/sizableshrimp/adventofcode2025/templates/LongCoordinate.java:164-166 | with the `int` product, `count + 1` steps are not `count` steps followed by one more |
| LongCoordinates.ResolveDirTimesExact | src/util/java/me/sizableshrimp/adventofcode2025/templates/LongCoordinate.java:164-166 | the corrected `resolve(direction, count)` (product in `long`) moves by exactly `count` times the offset where the sum fits, and differs from the as-written one only at `count = MIN` |
| LongCoordinates.ResolveDirTimesAsWritten | src/util/java/me/sizableshrimp/adventofcode2025/templates/LongCoordinate.java:164-166 | `resolve(direction, count)` as written moves exactly `count` steps whenever the sum fits a `long`, except for `count == Integer.MIN_VALUE` |
| LongCoordinates.ResolveDirTimesStep | src/util/java/me/sizableshrimp/adventofcode2025/templates/LongCoordinate.java:164-166 | zero steps stay put, and `count + 1` steps are `count` steps followed by one step |
| LongCoordinates.Multiply | src/util/java/me/sizableshrimp/adventofcode2025/templates/LongCoordinate.java:82-87 | the unit-factor shortcut of `multiply(x, y)` returns the same value as the component-wise 64-bit product |
| LongCoordinates.MultiplyExact | src/util/java/me/sizableshrimp/adventofcode2025/templates/LongCoordinate.java:82-87 | without overflow, `multiply` multiplies each component exactly |
| LongCoordinates.MultiplyLaws | src/util/java/me/sizableshrimp/adventofcode2025/templates/LongCoordinate.java:89-91 | `multiply(1)` is the identity, `multiply(-1)` negates, and negating twice gives the coordinate back |
| LongCoordinates.NegateInvolution | src/util/java/me/sizableshrimp/adventofcode2025/templates/LongCoordinate.java:78-91 | negation is an involution under wrap-around |
| LongCoordinates.SwapXYInvolution | src/util/java/me/sizableshrimp/adventofcode2025/templates/LongCoordinate.java:114-116 | `swapXY` is an involution and commutes with `resolve` |
| LongCoordinates.Rotate90 | src/util/java/me/sizableshrimp/adventofcode2025/templates/LongCoordinate.java:99-111 | `rotate90` fails only with `IllegalStateException` |
| LongCoordinates.QuarterTurns | src/util/java/me/sizableshrimp/adventofcode2025/templates/LongCoordinate.java:99-111 | the 90, 180 and 270 cases of `rotate90` are one, two and three quarter turns, and four quarter turns are the identity |
| LongCoordinates.Rotate90Turns | src/util/java/me/sizableshrimp/adventofcode2025/templates/LongCoordinate.java:99-111 | from -360 degrees on, `rotate90` succeeds exactly for multiples of 90 and then turns `degrees mod 360 / 90` quarter turns |
| LongCoordinates.Distance | src/util/java/me/sizableshrimp/adventofcode2025/templates/LongCoordinate.java:134-146 | where the Manhattan distance fits in a `long`, `distance` is that distance |
| LongCoordinates.DistanceSymmetric | src/util/java/me/sizableshrimp/adventofcode2025/templates/LongCoordinate.java:134-146 | `distance` is symmetric, overflow included |
| LongCoordinates.DistanceMetric | src/util/java/me/sizableshrimp/adventofcode2025/templates/LongCoordinate.java:134-146 | where it fits, `distance` is non-negative, zero exactly between equal coordinates, and obeys the triangle inequality |
| LongCoordinates.DistanceOf | src/util/java/me/sizableshrimp/adventofcode2025/templates/LongCoordinate.java:134-146 | between widened `int` coordinates the `long` distance is always the exact Manhattan distance |
| LongCoordinates.DistanceToOriginCounterexample | src/util/java/me/sizableshrimp/adventofcode2025/templates/LongCoordinate.java:123-125 | `x + y` gives -2 for (-1, -1), whose Manhattan distance to ORIGIN is 2 |
| LongCoordinates.DistanceToOrigin | src/util/java/me/sizableshrimp/adventofcode2025/templates/LongCoordinate.java:123-125 | the corrected `distanceToOrigin` is the Manhattan distance to ORIGIN where it fits, and agrees with `x + y` on the non-negative quadrant |
| LongCoordinates.DistanceToOriginAsWritten | src/util/java/me/sizableshrimp/adventofcode2025/templates/LongCoordinate.java:123-125 | `distanceToOrigin()` as written is the plain sum `x + y` wherever that fits a `long`, not a distance |
| LongCoordinates.FirstReaching | src/util/java/me/sizableshrimp/adventofcode2025/templates/LongCoordinate.java:156-158 | the filtered stream yields a listed direction whose step reaches `other`, or nothing when none of them does |
| LongCoordinates.RelativeSpec | src/util/java/me/sizableshrimp/adventofcode2025/templates/LongCoordinate.java:148-158 | `relative` returns the one direction whose step reaches `other`, and null exactly when no direction does |
| LongCoordinates.Steps | src/util/java/me/sizableshrimp/adventofcode2025/templates/LongCoordinate.java:168-194 | `down`, `up`, `left` and `right` change one component by one; down and up undo each other, and so do left and right |
| LongCoordinates.GetAxisStep | src/util/java/me/sizableshrimp/adventofcode2025/templates/LongCoordinate.java:199-201 | a step along an axis changes that component by the direction's offset and leaves the other one alone |
| ZCoordinates.Parse | src/util/java/me/sizableshrimp/adventofcode2025/templates/ZCoordinate.java:46-53 | every failure of `parse` is an `IndexOutOfBoundsException` or a `NumberFormatException` |
| ZCoordinates.ParseNeedsComma | src/util/java/me/sizableshrimp/adventofcode2025/templates/ZCoordinate.java:46-53 | text without a comma throws `IndexOutOfBoundsException` |
| ZCoordinates.ParseRoundTrip | src/util/java/me/sizableshrimp/adventofcode2025/templates/ZCoordinate.java:46-53 | `parse` reads back the decimal text `x,y,z` of every coordinate |
| ZCoordinates.ResolveExact | src/util/java/me/sizableshrimp/adventofcode2025/templates/ZCoordinate.java:72-74 | without overflow, `resolve(x, y, z)` adds the offset exactly |
| ZCoordinates.ResolveLaws | src/util/java/me/sizableshrimp/adventofcode2025/templates/ZCoordinate.java:55-74 | `resolve(ZCoordinate)` has ORIGIN as identity and is commutative and associative, even under wrap-around |
| ZCoordinates.AsCoords | src/util/java/me/sizableshrimp/adventofcode2025/templates/ZCoordinate.java:59-61 | a direction's offset is never ORIGIN |
| ZCoordinates.StepOnAxis | src/util/java/me/sizableshrimp/adventofcode2025/templates/ZCoordinate.java:59-61 | `resolve(direction)` changes only the component on the direction's axis, by the direction's offset |
| ZCoordinates.SubtractUndoesResolve | src/util/java/me/sizableshrimp/adventofcode2025/templates/ZCoordinate.java:107-109 | `subtract` and `resolve` by the same coordinate undo each other |
| ZCoordinates.DistanceExact | src/util/java/me/sizableshrimp/adventofcode2025/templates/ZCoordinate.java:93-105 | where the Manhattan distance fits in an `int`, `distance` is that distance |
| ZCoordinates.DistanceSymmetric | src/util/java/me/sizableshrimp/adventofcode2025/templates/ZCoordinate.java:81-105 | `distance` is symmetric, and it is `distanceToOrigin` of the difference |
| ZCoordinates.DistanceMetric | src/util/java/me/sizableshrimp/adventofcode2025/templates/ZCoordinate.java:93-105 | where it fits, `distance` is non-negative, zero exactly between equal coordinates, and obeys the triangle inequality |
| ZCoordinates.ManhattanMetric | src/util/java/me/sizableshrimp/adventofcode2025/templates/ZCoordinate.java:93-105 | the exact Manhattan distance is zero exactly between equal coordinates, and obeys the triangle inequality |
| ZCoordinates.DistanceToOriginExact | src/util/java/me/sizableshrimp/adventofcode2025/templates/ZCoordinate.java:81-83 | where it fits, `distanceToOrigin` is the sum of the absolute components |
| ZCoordinates.GetAxisComponents | src/util/java/me/sizableshrimp/adventofcode2025/templates/ZCoordinate.java:114-120 | `getAxis` reads the x, y and z components for the three axes |
| ZLongCoordinates.Parse | src/util/java/me/sizableshrimp/adventofcode2025/templates/ZLongCoordinate.java:46-53 | every failure of `parse` is an `IndexOutOfBoundsException` or a `NumberFormatException` |
| ZLongCoordinates.ParseNeedsComma | src/util/java/me/sizableshrimp/adventofcode2025/templates/ZLongCoordinate.java:46-53 | text without a comma throws `IndexOutOfBoundsException` |
| ZLongCoordinates.ParseRoundTrip | src/util/java/me/sizableshrimp/adventofcode2025/templates/ZLongCoordinate.java:46-53 | `parse` reads back the decimal text `x,y,z` of every coordinate |
| ZLongCoordinates.ResolveExact | src/util/java/me/sizableshrimp/adventofcode2025/templates/ZLongCoordinate.java:72-74 | without overflow, `resolve(x, y, z)` adds the offset exactly |
| ZLongCoordinates.ResolveLaws | src/util/java/me/sizableshrimp/adventofcode2025/templates/ZLongCoordinate.java:55-74 | `resolve(ZLongCoordinate)` has ORIGIN as identity and is commutative and associative, even under wrap-around |
| ZLongCoordinates.StepOnAxis | src/util/java/me/sizableshrimp/adventofcode2025/templates/ZLongCoordinate.java:59-61 | `resolve(direction)` changes only the component on the direction's axis, by the direction's offset |
| ZLongCoordinates.SubtractUndoesResolve | src/util/java/me/sizableshrimp/adventofcode2025/templates/ZLongCoordinate.java:155-157 | `subtract` and `resolve` by the same coordinate undo each other |
| ZLongCoordinates.DistanceManhattanExact | src/util/java/me/sizableshrimp/adventofcode2025/templates/ZLongCoordinate.java:93-105 | where the Manhattan distance fits in a `long`, `distanceManhattan` is that distance |
| ZLongCoordinates.DistanceSymmetric | src/util/java/me/sizableshrimp/adventofcode2025/templates/ZLongCoordinate.java:81-105 | `distanceManhattan` is symmetric, and it is `distanceToOrigin` of the difference |
| ZLongCoordinates.DistanceMetric | src/util/java/me/sizableshrimp/adventofcode2025/templates/ZLongCoordinate.java:93-105 | where it fits, `distanceManhattan` is non-negative, zero exactly between equal coordinates, and obeys the triangle inequality |
| ZLongCoordinates.ManhattanMetric | src/util/java/me/sizableshrimp/adventofcode2025/templates/ZLongCoordinate.java:93-105 | the exact Manhattan distance is zero exactly between equal coordinates, and obeys the triangle inequality |
| ZLongCoordinates.DistanceToOriginExact | src/util/java/me/sizableshrimp/adventofcode2025/templates/ZLongCoordinate.java:81-83 | where it fits, `distanceToOrigin` is the sum of the absolute components |
| ZLongCoordinates.DistanceSquaredExact | src/util/java/me/sizableshrimp/adventofcode2025/templates/ZLongCoordinate.java:115-121 | where the squared Euclidean distance fits in a `long`, `distanceSquared` is that value |
| ZLongCoordinates.DistanceSquaredSymmetric | src/util/java/me/sizableshrimp/adventofcode2025/templates/ZLongCoordinate.java:115-131 | `distanceSquared` is symmetric, overflow included |
| ZLongCoordinates.DistanceSquaredZero | src/util/java/me/sizableshrimp/adventofcode2025/templates/ZLongCoordinate.java:115-121 | where it fits, `distanceSquared` is non-negative and zero exactly between equal coordinates |
| ZLongCoordinates.GetAxisComponents | src/util/java/me/sizableshrimp/adventofcode2025/templates/ZLongCoordinate.java:162-168 | `getAxis` reads the x, y and z components for the three axes |
| HyperCoordinates.Parse | src/util/java/me/sizableshrimp/adventofcode2025/templates/HyperCoordinate.java:46-55 | every failure of `parse` is an `IndexOutOfBoundsException` or a `NumberFormatException` |
| HyperCoordinates.ParseNeedsComma | src/util/java/me/sizableshrimp/adventofcode2025/templates/HyperCoordinate.java:46-55 | text without a comma throws `IndexOutOfBoundsException` |
| HyperCoordinates.ParseRoundTrip | src/util/java/me/sizableshrimp/adventofcode2025/templates/HyperCoordinate.java:46-55 | `parse` reads back the decimal text `x,y,z,w` of every coordinate |
| HyperCoordinates.ResolveExact | src/util/java/me/sizableshrimp/adventofcode2025/templates/HyperCoordinate.java:57-73 | without overflow, `resolve` adds the offset exactly |
| HyperCoordinates.ResolveLaws | src/util/java/me/sizableshrimp/adventofcode2025/templates/HyperCoordinate.java:57-73 | `resolve` has ORIGIN as identity and is commutative and associative, even under wrap-around |
| HyperCoordinates.DistanceManhattanExact | src/util/java/me/sizableshrimp/adventofcode2025/templates/HyperCoordinate.java:93-105 | where the Manhattan distance fits in an `int`, `distanceManhattan` is that distance |
| HyperCoordinates.DistanceSymmetric | src/util/java/me/sizableshrimp/adventofcode2025/templates/HyperCoordinate.java:93-105 | `distanceManhattan` is symmetric, overflow included |
| HyperCoordinates.DistanceMetric | src/util/java/me/sizableshrimp/adventofcode2025/templates/HyperCoordinate.java:93-105 | where it fits, `distanceManhattan` is non-negative, zero exactly between equal coordinates, and obeys the triangle inequality |
| HyperCoordinates.ManhattanMetric | src/util/java/me/sizableshrimp/adventofcode2025/templates/HyperCoordinate.java:93-105 | the exact Manhattan distance is zero exactly between equal coordinates, and obeys the triangle inequality |
| HyperCoordinates.DistanceToOriginExact | src/util/java/me/sizableshrimp/adventofcode2025/templates/HyperCoordinate.java:80-82 | where it fits, `distanceToOrigin` is the sum of the absolute components |
| HyperCoordinates.DistanceSquaredAsWrittenExact | src/util/java/me/sizableshrimp/adventofcode2025/templates/HyperCoordinate.java:115-122 | as written (differences in `int`, then widened), `distanceSquared` is exact when no difference overflows an `int` |
| HyperCoordinates.DistanceSquaredAsWritten | src/util/java/me/sizableshrimp/adventofcode2025/templates/HyperCoordinate.java:115-122 | the `int` differences as written give the widened result whenever no difference wraps |
| HyperCoordinates.DistanceSquaredCounterexample | src/util/java/me/sizableshrimp/adventofcode2025/templates/HyperCoordinate.java:115-122 | as written, the x difference 3000000000 wraps in `int` and `distanceSquared` gives 1676940297709551616 instead of 9000000000000000000 |
| HyperCoordinates.DistanceSquaredExact | src/util/java/me/sizableshrimp/adventofcode2025/templates/HyperCoordinate.java:115-122 | the corrected `distanceSquared` (differences in `long`) is the exact squared Euclidean distance wherever that fits in a `long` |
| HyperCoordinates.DistanceSquaredSymmetric | src/util/java/me/sizableshrimp/adventofcode2025/templates/HyperCoordinate.java:115-131 | the corrected `distanceSquared` is symmetric, overflow included |
| HyperCoordinates.DistanceSquaredZero | src/util/java/me/sizableshrimp/adventofcode2025/templates/HyperCoordinate.java:115-122 | where it fits, the corrected `distanceSquared` is non-negative and zero exactly between equal coordinates |
| CoordinateOps.ToCoordinate | src/util/kotlin/me/sizableshrimp/adventofcode2025/util/CoordinateUtil.kt:31-34 | `toCoordinate` succeeds exactly on two-element lists, taking the first as x and the second as y, and fails the `check` with `IllegalStateException` otherwise |
| CoordinateOps.ToCoordinateRoundTrip | src/util/kotlin/me/sizableshrimp/adventofcode2025/util/CoordinateUtil.kt:31-36 | the list and the pair of a coordinate's components convert back to that coordinate |
| CoordinateOps.MinusUndoesPlus | src/util/kotlin/me/sizableshrimp/adventofcode2025/util/CoordinateUtil.kt:38-44 | `minus` and `plus` by the same coordinate undo each other, under wrap-around |
| CoordinateOps.MinusDirUndoesPlusDir | src/util/kotlin/me/sizableshrimp/adventofcode2025/util/CoordinateUtil.kt:40-46 | `minus` and `plus` by the same direction undo each other |
| CoordinateOps.MinusScalarUndoesPlusScalar | src/util/kotlin/me/sizableshrimp/adventofcode2025/util/CoordinateUtil.kt:42-48 | `minus(num)` and `plus(num)` undo each other, `num = MIN` included |
| CoordinateOps.MinusDirIsPlusOpposite | src/util/kotlin/me/sizableshrimp/adventofcode2025/util/CoordinateUtil.kt:40-46 | subtracting a direction is adding its opposite |
| CoordinateOps.DivBy | src/util/kotlin/me/sizableshrimp/adventofcode2025/util/CoordinateUtil.kt:54 | `div(Coordinate)` throws `ArithmeticException` exactly when a component of the divisor is zero |
| CoordinateOps.DivScalar | src/util/kotlin/me/sizableshrimp/adventofcode2025/util/CoordinateUtil.kt:56 | `div(Int)` throws `ArithmeticException` exactly when the divisor is zero |
| CoordinateOps.RemBy | src/util/kotlin/me/sizableshrimp/adventofcode2025/util/CoordinateUtil.kt:58 | `rem` throws `ArithmeticException` exactly when a component of the divisor is zero |
| CoordinateOps.Mod | src/util/kotlin/me/sizableshrimp/adventofcode2025/util/CoordinateUtil.kt:60 | `mod` throws `ArithmeticException` exactly when a component of the divisor is zero |
| CoordinateOps.DivRem | src/util/kotlin/me/sizableshrimp/adventofcode2025/util/CoordinateUtil.kt:54-58 | component-wise, the remainder is smaller than the divisor in magnitude and takes the dividend's sign, and quotient times divisor plus remainder is the dividend except for `MIN / -1` |
| CoordinateOps.DivTruncates | src/util/kotlin/me/sizableshrimp/adventofcode2025/util/CoordinateUtil.kt:54 | division truncates toward zero: the quotient's magnitude is the largest whose product with the divisor's does not pass the dividend's |
| CoordinateOps.ModRange | src/util/kotlin/me/sizableshrimp/adventofcode2025/util/CoordinateUtil.kt:60 | for positive divisors `mod` lies in `[0, divisor)` and differs from the dividend by a multiple of the divisor |
| CoordinateOps.RowShape | src/util/kotlin/me/sizableshrimp/adventofcode2025/util/CoordinateUtil.kt:72-74 | the inner loop visits `x0..x1` in increasing order on one row |
| CoordinateOps.BoxShape | src/util/kotlin/me/sizableshrimp/adventofcode2025/util/CoordinateUtil.kt:71-75 | the nested loops visit `(x1 - x0 + 1) * (y1 - y0 + 1)` cells, row by row from the top, each row left to right |
| CoordinateOps.BoxMembers | src/util/kotlin/me/sizableshrimp/adventofcode2025/util/CoordinateUtil.kt:71-75 | a cell is visited exactly when it lies in the closed rectangle |
| CoordinateOps.BetweenCoordsInclusive | src/util/kotlin/me/sizableshrimp/adventofcode2025/util/CoordinateUtil.kt:65-76 | `betweenCoordsInclusive` calls the consumer on the cells of the rectangle spanned by the two corners, in row-major order |
| CoordinateOps.BetweenCoordsVisits | src/util/kotlin/me/sizableshrimp/adventofcode2025/util/CoordinateUtil.kt:65-76 | it makes `(abs(dx) + 1) * (abs(dy) + 1)` calls, on exactly the cells between the corners, and does not depend on which corner comes first |
| LongCoordinateOps.ToCoordinate | src/util/kotlin/me/sizableshrimp/adventofcode2025/util/LongCoordinateUtil.kt:31-34 | `toCoordinate` succeeds exactly on two-element lists, taking the first as x and the second as y, and fails the `check` with `IllegalStateException` otherwise |
| LongCoordinateOps.ToCoordinateRoundTrip | src/util/kotlin/me/sizableshrimp/adventofcode2025/util/LongCoordinateUtil.kt:31-36 | the list and the pair of a coordinate's components convert back to that coordinate |
| LongCoordinateOps.MinusUndoesPlus | src/util/kotlin/me/sizableshrimp/adventofcode2025/util/LongCoordinateUtil.kt:38-46 | `minus` and `plus` by the same coordinate undo each other, under wrap-around |
| LongCoordinateOps.MinusDirUndoesPlusDir | src/util/kotlin/me/sizableshrimp/adventofcode2025/util/LongCoordinateUtil.kt:40-48 | `minus` and `plus` by the same direction undo each other |
| LongCoordinateOps.MinusScalarUndoesPlusScalar | src/util/kotlin/me/sizableshrimp/adventofcode2025/util/LongCoordinateUtil.kt:42-52 | `minus(num)` and `plus(num)` undo each other, `num = MIN` included |
| LongCoordinateOps.DivBy | src/util/kotlin/me/sizableshrimp/adventofcode2025/util/LongCoordinateUtil.kt:60 | `div(LongCoordinate)` throws `ArithmeticException` exactly when a component of the divisor is zero |
| LongCoordinateOps.DivScalar | src/util/kotlin/me/sizableshrimp/adventofcode2025/util/LongCoordinateUtil.kt:62 | `div(Int)` throws `ArithmeticException` exactly when the divisor is zero |
| LongCoordinateOps.RemBy | src/util/kotlin/me/sizableshrimp/adventofcode2025/util/LongCoordinateUtil.kt:64 | `rem` throws `ArithmeticException` exactly when a component of the divisor is zero |
| LongCoordinateOps.Mod | src/util/kotlin/me/sizableshrimp/adventofcode2025/util/LongCoordinateUtil.kt:66 | `mod` throws `ArithmeticException` exactly when a component of the divisor is zero |
| LongCoordinateOps.DivRem | src/util/kotlin/me/sizableshrimp/adventofcode2025/util/LongCoordinateUtil.kt:60-64 | component-wise, the remainder is smaller than the divisor in magnitude and takes the dividend's sign, and quotient times divisor plus remainder is the dividend except for `MIN / -1` |
| LongCoordinateOps.ModIsFloorMod | src/util/kotlin/me/sizableshrimp/adventofcode2025/util/LongCoordinateUtil.kt:66 | `mod` takes the divisor's sign, is smaller than it in magnitude, and differs from the dividend by a multiple of it |
| LongCoordinateOps.BetweenCoordsInclusive | src/util/kotlin/me/sizableshrimp/adventofcode2025/util/LongCoordinateUtil.kt:71-82 | `betweenCoordsInclusive` calls the consumer on the cells of the rectangle spanned by the two corners, in row-major order |
| LongCoordinateOps.BetweenCoordsVisits | src/util/kotlin/me/sizableshrimp/adventofcode2025/util/LongCoordinateUtil.kt:71-82 | it makes `(abs(dx) + 1) * (abs(dy) + 1)` calls, on exactly the cells between the corners |
| Sorting.SortByCorrect | src/mainKotlin/kotlin/me/sizableshrimp/adventofcode2025/days/Day05.kt:36-37 | `sorted()` and `sortedBy { key }` return the same elements, each as often, ordered by the key |
| Sorting.InsertWithKey | src/mainKotlin/kotlin/me/sizableshrimp/adventofcode2025/days/Day05.kt:36-37 | inserting an element adds it after every element of its own key and moves no other element past one of that key |
| Sorting.SortByStable | src/mainKotlin/kotlin/me/sizableshrimp/adventofcode2025/days/Day05.kt:36-37 | `sortedBy { key }` is stable: the elements with any one key come out in the order they went in |
| Sorting.CountWherePermutation | src/mainKotlin/kotlin/me/sizableshrimp/adventofcode2025/days/Day05.kt:37-45 | counting the ids that pass a test does not depend on the order the ids were sorted into |
| Sorting.DescendingOrderFree | src/mainKotlin/kotlin/me/sizableshrimp/adventofcode2025/days/Day08.kt:45 | `sortedDescending()` of the set sizes does not depend on the order `values` lists them in |
| Itertools.PairsMembers | src/mainKotlin/kotlin/me/sizableshrimp/adventofcode2025/days/Day08.kt:36 | `combinations(indices, 2)` lists exactly the index pairs `i < j`, `n (n - 1) / 2` of them, so each once |
| JavaText.ParseInt | src/util/java/me/sizableshrimp/adventofcode2025/templates/ZCoordinate.java:48-51 | `Integer.parseInt`: an accepted text gives an `int` value; anything else throws `NumberFormatException` |
| JavaText.ParseLong | src/util/java/me/sizableshrimp/adventofcode2025/templates/ZLongCoordinate.java:48-51 | `Long.parseLong`: an accepted text gives a `long` value; anything else throws `NumberFormatException` |
| Day01.ParseRotation | src/mainKotlin/kotlin/me/sizableshrimp/adventofcode2025/days/Day01.kt:36-37 | a line parses exactly when it is non-empty and the rest after its first character is an `int`; `L` means left; an empty line throws `IndexOutOfBoundsException`, a bad number `NumberFormatException` |
| Day01.ParseRotations | src/mainKotlin/kotlin/me/sizableshrimp/adventofcode2025/days/Day01.kt:35-37 | all lines parse, each into its own rotation, or the first failure is some line's failure |
| Day01.ErrorPersists | src/mainKotlin/kotlin/me/sizableshrimp/adventofcode2025/days/Day01.kt:35-37 | once a prefix of the input fails to parse, the whole input fails with that error |
| Day01.ClickMod | src/mainKotlin/kotlin/me/sizableshrimp/adventofcode2025/days/Day01.kt:42-48 | one click with the wrap-around at 100 and -1 keeps the dial equal to the start plus the signed clicks so far, mod 100, and in `0..99` |
| Day01.Clicks | src/mainKotlin/kotlin/me/sizableshrimp/adventofcode2025/days/Day01.kt:42-52 | the click loop ends on the landing position and adds one to `part2` for every click that lands on 0 |
| Day01.HitsClosedForm | src/mainKotlin/kotlin/me/sizableshrimp/adventofcode2025/days/Day01.kt:42-52 | the zero passes of one rotation are `(start + n) / 100` to the right and `(n + (100 - start) mod 100) / 100` to the left |
| Day01.Line | src/mainKotlin/kotlin/me/sizableshrimp/adventofcode2025/days/Day01.kt:36-52 | one line's work (the part 1 test, then the clicks) moves the machine state exactly as the reference `Turn` does |
| Day01.RunSnoc | src/mainKotlin/kotlin/me/sizableshrimp/adventofcode2025/days/Day01.kt:35-53 | the reference run over one line more is one more `Turn` |
| Day01.Run | src/mainKotlin/kotlin/me/sizableshrimp/adventofcode2025/days/Day01.kt:31-53 | from 50 the dial always stays in `0..99` |
| Day01.EndsAtZeroExact | src/mainKotlin/kotlin/me/sizableshrimp/adventofcode2025/days/Day01.kt:39-40 | without overflow, the part 1 test counts exactly the rotations whose exact signed end is a multiple of 100 |
| Day01.LandingHits | src/mainKotlin/kotlin/me/sizableshrimp/adventofcode2025/days/Day01.kt:39-52 | a rotation of at least one click that lands on 0 passes 0 at least once |
| Day01.Part1AtMostPart2 | src/mainKotlin/kotlin/me/sizableshrimp/adventofcode2025/days/Day01.kt:31-55 | with rotations of at least one click (and no overflow), the part 1 count never exceeds the part 2 count |
| Day01.Evaluate | src/mainKotlin/kotlin/me/sizableshrimp/adventofcode2025/days/Day01.kt:30-56 | a parse error is thrown as is; otherwise the result is the reference run's two counts in 32-bit arithmetic |
| Day02.PowerAt | src/mainKotlin/kotlin/me/sizableshrimp/adventofcode2025/days/Day02.kt:41-47 | a block repeated `m` times holds at every position the block's character at that position mod the block length |
| Day02.PeriodicAt | src/mainKotlin/kotlin/me/sizableshrimp/adventofcode2025/days/Day02.kt:41-47 | when each block equals the next, every character equals the one a whole number of blocks earlier |
| Day02.CycledIsPeriodic | src/mainKotlin/kotlin/me/sizableshrimp/adventofcode2025/days/Day02.kt:41-47 | conversely, text equal to itself shifted by the block size has all blocks equal |
| Day02.RepeatedIsPower | src/mainKotlin/kotlin/me/sizableshrimp/adventofcode2025/days/Day02.kt:37-53 | an id is counted in part 2 exactly when its text is some block repeated at least twice |
| Day02.HalvesArePeriodic | src/mainKotlin/kotlin/me/sizableshrimp/adventofcode2025/days/Day02.kt:49-50 | for an even length, the first size tried (half the length) passes exactly when the two halves are equal |
| Day02.HalvesAreRepeated | src/mainKotlin/kotlin/me/sizableshrimp/adventofcode2025/days/Day02.kt:49-50 | an id with equal halves is also a part 2 id |
| Day02.BlockPair | src/mainKotlin/kotlin/me/sizableshrimp/adventofcode2025/days/Day02.kt:42-45 | comparing block `i` with block `i + 1` is comparing each character of block `i + 1` with the one a block earlier |
| Day02.BlocksAgree | src/mainKotlin/kotlin/me/sizableshrimp/adventofcode2025/days/Day02.kt:41-47 | the inner loop finishes without `continue@loop` exactly when all blocks of that size are equal |
| Day02.Classify | src/mainKotlin/kotlin/me/sizableshrimp/adventofcode2025/days/Day02.kt:37-53 | the size loop finds a size exactly when the id is a repeated block, and the first size tried was the one that matched exactly when the halves are equal |
| Day02.Part1IdsInPart2 | src/mainKotlin/kotlin/me/sizableshrimp/adventofcode2025/days/Day02.kt:49-52 | every id added to `part1` is also added to `part2` |
| Day02.Examine | src/mainKotlin/kotlin/me/sizableshrimp/adventofcode2025/days/Day02.kt:35-55 | one id: it goes to `part1` exactly when its halves are equal, and contributes itself to `part2` exactly when it is a repeated block, otherwise 0 |
| Day02.OverSnoc | src/mainKotlin/kotlin/me/sizableshrimp/adventofcode2025/days/Day02.kt:34 | the values over `l..hi` are those over `l..hi - 1` followed by the value at `hi` |
| Day02.AddScore | src/mainKotlin/kotlin/me/sizableshrimp/adventofcode2025/days/Day02.kt:49-50 | adding the id to `part1` when its halves agree keeps `part1` the 64-bit sum of the part 1 scores so far |
| Day02.ScoreId | src/mainKotlin/kotlin/me/sizableshrimp/adventofcode2025/days/Day02.kt:34-56 | one id of the inner `sumOf` keeps both running sums equal to the wrapped sums of the scores so far |
| Day02.SumRange | src/mainKotlin/kotlin/me/sizableshrimp/adventofcode2025/days/Day02.kt:34-56 | the inner `sumOf` over `l..r` is the 64-bit sum of the part 2 scores, and `part1` gains the sum of the part 1 scores |
| Day02.RangeSumsFlat | src/mainKotlin/kotlin/me/sizableshrimp/adventofcode2025/days/Day02.kt:33-57 | summing per range and then over ranges is the same 64-bit sum as summing all ids' scores in one list |
| Day02.RangeSumsWrap | src/mainKotlin/kotlin/me/sizableshrimp/adventofcode2025/days/Day02.kt:33-57 | the nested 64-bit sums are the exact sum of all scores, wrapped to 64 bits |
| Day02.AddRange | src/mainKotlin/kotlin/me/sizableshrimp/adventofcode2025/days/Day02.kt:33-57 | one range of the outer loop extends both sums by that range's scores |
| Day02.Totals | src/mainKotlin/kotlin/me/sizableshrimp/adventofcode2025/days/Day02.kt:32-59 | both parts are the exact sums of the ids' scores wrapped to 64 bits |
| Day02.ParseRange | src/mainKotlin/kotlin/me/sizableshrimp/adventofcode2025/days/Day02.kt:31 | a range parses when it splits into exactly two numbers at `-`; otherwise `toLong` throws `NumberFormatException` or `toPair` throws `IllegalArgumentException` |
| Day02.ParseRangeTexts | src/mainKotlin/kotlin/me/sizableshrimp/adventofcode2025/days/Day02.kt:31 | all comma-separated pieces parse, each into its own range, or the failure is some piece's failure |
| Day02.ParseRangeRoundTrip | src/mainKotlin/kotlin/me/sizableshrimp/adventofcode2025/days/Day02.kt:31 | the text `a-b` of non-negative bounds parses back to that range and holds no comma |
| Day02.ParseRangesRoundTrip | src/mainKotlin/kotlin/me/sizableshrimp/adventofcode2025/days/Day02.kt:31 | non-negative ranges joined with commas parse back to the same ranges |
| Day02.Evaluate | src/mainKotlin/kotlin/me/sizableshrimp/adventofcode2025/days/Day02.kt:30-60 | no input line throws `IndexOutOfBoundsException`, a parse error is thrown as is, and otherwise both parts are the 64-bit sums of the part 1 and part 2 scores over all ranges |
| Day03.Best | src/mainKotlin/kotlin/me/sizableshrimp/adventofcode2025/days/Day03.kt:40 | the index `argmax` picks lies in the slice `idx ..< size - depth + 1` |
| Day03.BestIsFirstMax | src/mainKotlin/kotlin/me/sizableshrimp/adventofcode2025/days/Day03.kt:40 | that index holds the largest digit of the slice, and no earlier index of the slice holds one as large |
| Day03.ScaleStep | src/mainKotlin/kotlin/me/sizableshrimp/adventofcode2025/days/Day03.kt:42 | with `scale = 10^(depth - 1)`, `scale == 1` exactly at the last digit, and `scale / 10` is the next place value |
| Day03.Calc | src/mainKotlin/kotlin/me/sizableshrimp/adventofcode2025/days/Day03.kt:39-43 | `calc` succeeds exactly when at least `depth` digits remain from `idx`; otherwise the empty slice makes `argmax` throw `NoSuchElementException` |
| Day03.CalcLast | src/mainKotlin/kotlin/me/sizableshrimp/adventofcode2025/days/Day03.kt:42 | at the last place `calc` is the largest remaining digit |
| Day03.CalcStep | src/mainKotlin/kotlin/me/sizableshrimp/adventofcode2025/days/Day03.kt:42 | at a higher place `calc` is the place value times the picked digit plus `calc` of the rest after it |
| Day03.PicksChoice | src/mainKotlin/kotlin/me/sizableshrimp/adventofcode2025/days/Day03.kt:39-43 | the indices `calc` picks are strictly increasing from `idx`, and their digits are the ones it combines |
| Day03.CalcAchieved | src/mainKotlin/kotlin/me/sizableshrimp/adventofcode2025/days/Day03.kt:39-43 | `calc` is the number written by the digits it picks |
| Day03.PicksAreBest | src/mainKotlin/kotlin/me/sizableshrimp/adventofcode2025/days/Day03.kt:39-43 | the picked digits are lexicographically at least those of every other choice of `depth` increasing indices |
| Day03.NumBound | src/mainKotlin/kotlin/me/sizableshrimp/adventofcode2025/days/Day03.kt:42 | `depth` decimal digits write a number below `10^depth` |
| Day03.LexLeNum | src/mainKotlin/kotlin/me/sizableshrimp/adventofcode2025/days/Day03.kt:42 | for digit sequences of one length, lexicographic order is numeric order |
| Day03.CalcBound | src/mainKotlin/kotlin/me/sizableshrimp/adventofcode2025/days/Day03.kt:42 | `calc` lies in `[0, 10 * scale)`, so it fits in a `long` |
| Day03.CalcIsMaximum | src/mainKotlin/kotlin/me/sizableshrimp/adventofcode2025/days/Day03.kt:39-43 | `calc(bank, depth, 10^(depth - 1))` is the largest number formed by `depth` digits of the bank kept in order, and some such choice attains it |
| Day03.ParseBank | src/mainKotlin/kotlin/me/sizableshrimp/adventofcode2025/days/Day03.kt:31 | `digitToInt` maps a line of decimal digits to their values and throws `IllegalArgumentException` at any other character |
| Day03.ParseBanks | src/mainKotlin/kotlin/me/sizableshrimp/adventofcode2025/days/Day03.kt:31 | all lines parse, each into its bank, or the result is `IllegalArgumentException` |
| Day03.Calcs | src/mainKotlin/kotlin/me/sizableshrimp/adventofcode2025/days/Day03.kt:34-35 | `calc` of every bank succeeds exactly when every bank has at least `depth` digits, giving `calc` of each in order, and `NoSuchElementException` otherwise |
| Day03.Evaluate | src/mainKotlin/kotlin/me/sizableshrimp/adventofcode2025/days/Day03.kt:30-37 | the day succeeds exactly when every line is digits and at least 12 long; a bad character gives `IllegalArgumentException`, a short bank `NoSuchElementException` |
| Day04.NeighborsInside | src/mainKotlin/kotlin/me/sizableshrimp/adventofcode2025/days/Day04.kt:53 | every neighbour `getCardinalOrdinalNeighbors` yields lies on the grid |
| Day04.RollsAmong | src/mainKotlin/kotlin/me/sizableshrimp/adventofcode2025/days/Day04.kt:53 | the neighbours holding a roll are at most all the neighbours |
| Day04.FewNeighbors | src/mainKotlin/kotlin/me/sizableshrimp/adventofcode2025/days/Day04.kt:50-54 | a roll with at most three neighbours on the grid (a corner, say) is always accessible |
| Day04.RowRollsWrite | src/mainKotlin/kotlin/me/sizableshrimp/adventofcode2025/days/Day04.kt:42 | writing one cell changes the roll count of its row by the old and new values |
| Day04.RollsReplace | src/mainKotlin/kotlin/me/sizableshrimp/adventofcode2025/days/Day04.kt:42 | replacing one row changes the grid's roll count by the difference of the rows' counts |
| Day04.ClearOne | src/mainKotlin/kotlin/me/sizableshrimp/adventofcode2025/days/Day04.kt:42 | clearing one roll lowers the roll count by one |
| Day04.AllCellsInside | src/mainKotlin/kotlin/me/sizableshrimp/adventofcode2025/days/Day04.kt:40 | `count2D` visits only cells on the grid |
| Day04.Sweep | src/mainKotlin/kotlin/me/sizableshrimp/adventofcode2025/days/Day04.kt:40-45 | a sweep in which accessible rolls are cleared as they are met keeps the grid's shape |
| Day04.SweepClears | src/mainKotlin/kotlin/me/sizableshrimp/adventofcode2025/days/Day04.kt:40-45 | a sweep only ever clears cells, and the rolls it counts are exactly the rolls it removes |
| Day04.SweepNothing | src/mainKotlin/kotlin/me/sizableshrimp/adventofcode2025/days/Day04.kt:40-45 | a sweep that counts nothing leaves the grid as it was, and then no visited cell is accessible |
| Day04.FullSweep | src/mainKotlin/kotlin/me/sizableshrimp/adventofcode2025/days/Day04.kt:40-45 | a sweep over all cells keeps the grid's shape |
| Day04.FullSweepNothing | src/mainKotlin/kotlin/me/sizableshrimp/adventofcode2025/days/Day04.kt:40-47 | a full sweep that removes nothing leaves the grid as it was, with no accessible roll |
| Day04.Settle | src/mainKotlin/kotlin/me/sizableshrimp/adventofcode2025/days/Day04.kt:39-48 | repeating sweeps until one removes nothing keeps the shape and takes at least one pass |
| Day04.SettleStep | src/mainKotlin/kotlin/me/sizableshrimp/adventofcode2025/days/Day04.kt:39-48 | `generateSequence` stops at the first pass whose 32-bit count is 0, and otherwise adds that pass's count and goes on from the swept grid |
| Day04.SettleBounds | src/mainKotlin/kotlin/me/sizableshrimp/adventofcode2025/days/Day04.kt:39-48 | the passes only clear cells, and there are at most one more than the rolls at the start |
| Day04.SettleStable | src/mainKotlin/kotlin/me/sizableshrimp/adventofcode2025/days/Day04.kt:39-48 | when the grid's cells fit in an `int`, part 2 is the number of rolls removed, and the final grid has no accessible roll |
| Day04.RollsAtMostCells | src/mainKotlin/kotlin/me/sizableshrimp/adventofcode2025/days/Day04.kt:31 | the roll count is at most the number of cells |
| Day04.ParsedRolls | src/mainKotlin/kotlin/me/sizableshrimp/adventofcode2025/days/Day04.kt:33-35 | `toBooleanGrid` keeps the shape of the lines and marks exactly the `@` cells |
| Day04.AccessibleCount | src/mainKotlin/kotlin/me/sizableshrimp/adventofcode2025/days/Day04.kt:37 | when the cells fit in an `int`, part 1 counts exactly the accessible rolls, once each |
| Day04.Solver.constructor | src/mainKotlin/kotlin/me/sizableshrimp/adventofcode2025/days/Day04.kt:31 | before `parse` the grid is empty |
| Day04.Solver.Parse | src/mainKotlin/kotlin/me/sizableshrimp/adventofcode2025/days/Day04.kt:33-35 | `parse` sets the grid to `toBooleanGrid { it == '@' }` of the lines |
| Day04.Solver.Part1 | src/mainKotlin/kotlin/me/sizableshrimp/adventofcode2025/days/Day04.kt:37 | `part1` is the 32-bit count of the accessible rolls |
| Day04.Solver.Pass | src/mainKotlin/kotlin/me/sizableshrimp/adventofcode2025/days/Day04.kt:40-45 | one pass of `count2D` leaves the grid swept and returns the 32-bit count of the rolls it cleared |
| Day04.Solver.SweepRow | src/mainKotlin/kotlin/me/sizableshrimp/adventofcode2025/days/Day04.kt:40-45 | sweeping one more row extends the sweep by that row's cells |
| Day04.Solver.Select | src/mainKotlin/kotlin/me/sizableshrimp/adventofcode2025/days/Day04.kt:41-44 | one cell: cleared and counted exactly when it is accessible in the grid as it is at that moment |
| Day04.Solver.Round | src/mainKotlin/kotlin/me/sizableshrimp/adventofcode2025/days/Day04.kt:39-48 | one step of `generateSequence`: either the sequence ends with the settled grid and the total, or fewer rolls remain |
| Day04.Solver.Part2 | src/mainKotlin/kotlin/me/sizableshrimp/adventofcode2025/days/Day04.kt:39-48 | `part2` leaves the settled grid and returns the 32-bit total of the rolls removed |
| Day04.AddCount | src/mainKotlin/kotlin/me/sizableshrimp/adventofcode2025/days/Day04.kt:47 | `part2 + toAdd` is the 32-bit count of the two exact counts together |
| Day04.SettleRound | src/mainKotlin/kotlin/me/sizableshrimp/adventofcode2025/days/Day04.kt:39-48 | one more pass either ends the sequence with the settled grid or keeps the invariant with fewer rolls |
| Day05.ParseRange | src/mainKotlin/kotlin/me/sizableshrimp/adventofcode2025/days/Day05.kt:33-35 | a parsed range has both bounds in the `long` range; failures are `IndexOutOfBoundsException` (no `-`) or `NumberFormatException` |
| Day05.ParseRanges | src/mainKotlin/kotlin/me/sizableshrimp/adventofcode2025/days/Day05.kt:33-36 | all range lines parse, each into its own range, or the failure is some line's failure |
| Day05.Parse | src/mainKotlin/kotlin/me/sizableshrimp/adventofcode2025/days/Day05.kt:32-37 | after the blank-line split, every range and every id is a `long` value |
| Day05.ParseRangeRoundTrip | src/mainKotlin/kotlin/me/sizableshrimp/adventofcode2025/days/Day05.kt:33-35 | the text `a-b` of non-negative bounds parses back to that range |
| Day05.NegativeStartRejected | src/mainKotlin/kotlin/me/sizableshrimp/adventofcode2025/days/Day05.kt:34 | a negative start splits into an empty first field, so `"-1-3"` throws `NumberFormatException` |
| Day05.CoveredSnoc | src/mainKotlin/kotlin/me/sizableshrimp/adventofcode2025/days/Day05.kt:53-62 | an id is in some range of a list with one more range exactly when it is in the list or in the new range |
| Day05.UnionMembers | src/mainKotlin/kotlin/me/sizableshrimp/adventofcode2025/days/Day05.kt:64 | the union of the ranges holds exactly the ids some range contains |
| Day05.CoveredPermutation | src/mainKotlin/kotlin/me/sizableshrimp/adventofcode2025/days/Day05.kt:36 | whether an id is covered does not depend on the order of the ranges |
| Day05.MergeFold | src/mainKotlin/kotlin/me/sizableshrimp/adventofcode2025/days/Day05.kt:39-49 | the merge closes fewer ranges than it reads |
| Day05.Merged | src/mainKotlin/kotlin/me/sizableshrimp/adventofcode2025/days/Day05.kt:39-49 | the merged list has at least one and at most as many ranges as the input |
| Day05.MergeRanges | src/mainKotlin/kotlin/me/sizableshrimp/adventofcode2025/days/Day05.kt:39-49 | the merge loop computes the merge of the sorted ranges |
| Day05.MergeStepCovers | src/mainKotlin/kotlin/me/sizableshrimp/adventofcode2025/days/Day05.kt:42-47 | one merge step (close `current` and start a new one, or stretch `current`) covers the same ids as before plus the new range |
| Day05.MergedCovers | src/mainKotlin/kotlin/me/sizableshrimp/adventofcode2025/days/Day05.kt:39-49 | the merged ranges cover exactly the ids the input ranges cover |
| Day05.SeparatedSnoc | src/mainKotlin/kotlin/me/sizableshrimp/adventofcode2025/days/Day05.kt:43 | closing a range that ends before the next one starts keeps the closed ranges apart |
| Day05.MergeFoldSeparated | src/mainKotlin/kotlin/me/sizableshrimp/adventofcode2025/days/Day05.kt:39-49 | on non-empty ranges sorted by start, the closed ranges and `current` are ordered and pairwise apart |
| Day05.MergeFoldInWidth | src/mainKotlin/kotlin/me/sizableshrimp/adventofcode2025/days/Day05.kt:46 | stretching with `max` keeps every bound in the `long` range |
| Day05.SeparatedUnion | src/mainKotlin/kotlin/me/sizableshrimp/adventofcode2025/days/Day05.kt:64 | ranges that are apart cover exactly as many ids as their sizes add up to |
| Day05.SizesExact | src/mainKotlin/kotlin/me/sizableshrimp/adventofcode2025/days/Day05.kt:64 | `sumOf { it.size }` over non-empty ranges is their total length where it fits in a `long` |
| Day05.Part2Counts | src/mainKotlin/kotlin/me/sizableshrimp/adventofcode2025/days/Day05.kt:36-64 | part 2 is the number of distinct ids covered by the ranges, whatever order they came in |
| Day05.MergedSeparated | src/mainKotlin/kotlin/me/sizableshrimp/adventofcode2025/days/Day05.kt:39-49 | the merged sorted ranges are ordered, pairwise apart, and within the `long` range |
| Day05.InvertedRangeCountsNegative | src/mainKotlin/kotlin/me/sizableshrimp/adventofcode2025/days/Day05.kt:64 | an inverted range such as `5-3` has size -1 and makes part 2 count -1 |
| Day05.FindFrom | src/mainKotlin/kotlin/me/sizableshrimp/adventofcode2025/days/Day05.kt:54-57 | the inner scan stops at the first range from `idx` on that contains the id, or at the end |
| Day05.FoundEndBefore | src/mainKotlin/kotlin/me/sizableshrimp/adventofcode2025/days/Day05.kt:53-62 | with ranges sorted by start and ids sorted, every range before the found one ends before this id, so no later id can be in it |
| Day05.NotFoundUncovered | src/mainKotlin/kotlin/me/sizableshrimp/adventofcode2025/days/Day05.kt:55-58 | an id the scan does not find from `idx` is in no range at all |
| Day05.CountFound | src/mainKotlin/kotlin/me/sizableshrimp/adventofcode2025/days/Day05.kt:51-62 | on sorted ranges and ids, part 1 is the 32-bit count of the ids that some range contains |
| Day05.Part1Unsorted | src/mainKotlin/kotlin/me/sizableshrimp/adventofcode2025/days/Day05.kt:36-37 | sorting the ranges and ids does not change how many ids are covered |
| Day05.Evaluate | src/mainKotlin/kotlin/me/sizableshrimp/adventofcode2025/days/Day05.kt:31-65 | a parse error is thrown as is, no ranges throws `IndexOutOfBoundsException`, and otherwise part 1 counts the fresh ids and part 2 sums the sizes of the merged ranges |
| Day06.AllSpace | src/mainKotlin/kotlin/me/sizableshrimp/adventofcode2025/days/Day06.kt:35 | `lines.all { it[strIdx] == ' ' }` is true exactly when the column is blank in every line, and throws `IndexOutOfBoundsException` only when some line is too short |
| Day06.Pieces | src/mainKotlin/kotlin/me/sizableshrimp/adventofcode2025/days/Day06.kt:36-39 | every cut gives each line exactly one piece |
| Day06.Grid | src/mainKotlin/kotlin/me/sizableshrimp/adventofcode2025/days/Day06.kt:32-41 | the split gives every line one piece per cut |
| Day06.PiecesSnoc | src/mainKotlin/kotlin/me/sizableshrimp/adventofcode2025/days/Day06.kt:36-39 | one more cut appends the slice from the last start to the cut |
| Day06.CutsBelowBlank | src/mainKotlin/kotlin/me/sizableshrimp/adventofcode2025/days/Day06.kt:34-40 | the cuts below `n` are increasing and are exactly the blank columns below `n` |
| Day06.PiecesWidth | src/mainKotlin/kotlin/me/sizableshrimp/adventofcode2025/days/Day06.kt:37 | piece `x` is the text between the previous cut (plus one) and cut `x` |
| Day06.PiecesJoin | src/mainKotlin/kotlin/me/sizableshrimp/adventofcode2025/days/Day06.kt:34-41 | joining a line's pieces with single spaces gives the line back up to the last cut |
| Day06.ColumnsCut | src/mainKotlin/kotlin/me/sizableshrimp/adventofcode2025/days/Day06.kt:32-41 | on lines no split can fall off, every line gets the same number of pieces, piece `x` is as wide in every line, and the pieces rejoin to the line |
| Day06.EndsBlank | src/mainKotlin/kotlin/me/sizableshrimp/adventofcode2025/days/Day06.kt:34-41 | the cuts are increasing, end at `totalWidth`, and every other cut is a blank column in every line |
| Day06.AddPieces | src/mainKotlin/kotlin/me/sizableshrimp/adventofcode2025/days/Day06.kt:36-38 | one cut adds one slice to every line's pieces, or throws `IndexOutOfBoundsException` exactly when some line is shorter than the cut |
| Day06.SplitColumns | src/mainKotlin/kotlin/me/sizableshrimp/adventofcode2025/days/Day06.kt:31-41 | the split loop computes the column split of the lines |
| Day06.FoldExact | src/mainKotlin/kotlin/me/sizableshrimp/adventofcode2025/days/Day06.kt:58-77 | the `0L`/`1L` fold with `+=` or `*=` is the exact sum or product wrapped to 64 bits |
| Day06.Fold64Snoc | src/mainKotlin/kotlin/me/sizableshrimp/adventofcode2025/days/Day06.kt:58-77 | folding one more number adds it in, or multiplies it in |
| Day06.FoldNumbers | src/mainKotlin/kotlin/me/sizableshrimp/adventofcode2025/days/Day06.kt:69-76 | the part 2 fold over `vertNums` is the wrapped sum or product |
| Day06.ParseRows | src/mainKotlin/kotlin/me/sizableshrimp/adventofcode2025/days/Day06.kt:59-60 | every row's piece but the operator row parses, or the error is `NumberFormatException` |
| Day06.ParseRowsValue | src/mainKotlin/kotlin/me/sizableshrimp/adventofcode2025/days/Day06.kt:60 | each parsed row value is `trim().toInt()` of its piece |
| Day06.ParseRowsFails | src/mainKotlin/kotlin/me/sizableshrimp/adventofcode2025/days/Day06.kt:60 | the rows fail exactly when some row's trimmed piece is not an `int` |
| Day06.ParseRowsStop | src/mainKotlin/kotlin/me/sizableshrimp/adventofcode2025/days/Day06.kt:59-60 | once a prefix of the rows fails, all the rows fail with the same error |
| Day06.Horizontal | src/mainKotlin/kotlin/me/sizableshrimp/adventofcode2025/days/Day06.kt:58-66 | the part 1 loop computes the fold of the parsed rows, or the first parse error |
| Day06.FoldRow | src/mainKotlin/kotlin/me/sizableshrimp/adventofcode2025/days/Day06.kt:59-66 | one row of the part 1 loop either throws the error the whole problem throws or extends the fold |
| Day06.RowStep | src/mainKotlin/kotlin/me/sizableshrimp/adventofcode2025/days/Day06.kt:59-66 | after a parsed prefix, the next row either ends the problem with its parse error or extends the fold by one number |
| Day06.DigitStep | src/mainKotlin/kotlin/me/sizableshrimp/adventofcode2025/days/Day06.kt:54 | `vertNums[i] * 10 + digit` in `int` arithmetic is the exact value wrapped to 32 bits |
| Day06.SpelledSnoc | src/mainKotlin/kotlin/me/sizableshrimp/adventofcode2025/days/Day06.kt:52-54 | one more non-space character multiplies the number by ten and adds its digit, or `digitToInt` throws `IllegalArgumentException` |
| Day06.DigitFoldValue | src/mainKotlin/kotlin/me/sizableshrimp/adventofcode2025/days/Day06.kt:50-56 | column `i` of the problem, read top to bottom without spaces, is the number `vertNums[i]` gets |
| Day06.VerticalValues | src/mainKotlin/kotlin/me/sizableshrimp/adventofcode2025/days/Day06.kt:49-56 | when part 2 succeeds there is one number per column of the problem |
| Day06.DigitFoldStops | src/mainKotlin/kotlin/me/sizableshrimp/adventofcode2025/days/Day06.kt:51-55 | a digit error in a prefix of the rows is the error of the whole column |
| Day06.VerticalStops | src/mainKotlin/kotlin/me/sizableshrimp/adventofcode2025/days/Day06.kt:50-56 | an error in an earlier column is the error of the whole problem |
| Day06.Vertical | src/mainKotlin/kotlin/me/sizableshrimp/adventofcode2025/days/Day06.kt:49-56 | the nested loops fill `vertNums` with the column numbers, or throw the first error |
| Day06.FillColumn | src/mainKotlin/kotlin/me/sizableshrimp/adventofcode2025/days/Day06.kt:51-55 | the loop over the rows computes column `i`'s number, writes it into `vertNums[i]` and leaves the other entries alone |
| Day06.SolveBlock | src/mainKotlin/kotlin/me/sizableshrimp/adventofcode2025/days/Day06.kt:45-77 | one problem's body computes the reference pair of part 1 and part 2 answers, or its error |
| Day06.TotalsNext | src/mainKotlin/kotlin/me/sizableshrimp/adventofcode2025/days/Day06.kt:67-77 | one more problem either ends with its error or adds its two answers to the 64-bit totals |
| Day06.TotalsStop | src/mainKotlin/kotlin/me/sizableshrimp/adventofcode2025/days/Day06.kt:45-78 | once an earlier problem fails, the whole sum fails with the same error |
| Day06.Blocks | src/mainKotlin/kotlin/me/sizableshrimp/adventofcode2025/days/Day06.kt:45 | there is one problem per cut |
| Day06.BlockOf | src/mainKotlin/kotlin/me/sizableshrimp/adventofcode2025/days/Day06.kt:45-66 | problem `x` holds piece `x` of every line |
| Day06.SumBlocks | src/mainKotlin/kotlin/me/sizableshrimp/adventofcode2025/days/Day06.kt:45-78 | the outer loop computes the 64-bit totals of all problems' answers, or the first error |
| Day06.Evaluate | src/mainKotlin/kotlin/me/sizableshrimp/adventofcode2025/days/Day06.kt:30-81 | `evaluate` is the reference answer of the split lines: the 64-bit totals of all problems, or the first error |
| Day08.ParseCoords | src/mainKotlin/kotlin/me/sizableshrimp/adventofcode2025/days/Day08.kt:34 | all lines parse, one coordinate each, or the error is `IndexOutOfBoundsException` or `NumberFormatException` |
| Day08.ParseCoordsValue | src/mainKotlin/kotlin/me/sizableshrimp/adventofcode2025/days/Day08.kt:34 | coordinate `k` is `ZCoordinate.parse` of line `k` |
| Day08.SquaredDistanceMetric | src/mainKotlin/kotlin/me/sizableshrimp/adventofcode2025/days/Day08.kt:37 | the squared distance is symmetric and zero exactly between equal coordinates |
| Day08.SortedPairsOrder | src/mainKotlin/kotlin/me/sizableshrimp/adventofcode2025/days/Day08.kt:36-37 | the sorted pairs are ordered by squared distance and are a permutation of all index pairs `i < j` |
| Day08.Unite | src/mainKotlin/kotlin/me/sizableshrimp/adventofcode2025/days/Day08.kt:42 | `union` on the value model keeps the number of elements |
| Day08.AfterPairs | src/mainKotlin/kotlin/me/sizableshrimp/adventofcode2025/days/Day08.kt:35-42 | the sets after any prefix of the pairs still have one entry per box |
| Day08.UniteFits | src/mainKotlin/kotlin/me/sizableshrimp/adventofcode2025/days/Day08.kt:42 | `union` keeps the forest well formed |
| Day08.AfterPairsFits | src/mainKotlin/kotlin/me/sizableshrimp/adventofcode2025/days/Day08.kt:35-42 | the forest stays well formed after every prefix of the pairs |
| Day08.UniteMerges | src/mainKotlin/kotlin/me/sizableshrimp/adventofcode2025/days/Day08.kt:42 | `union(a, b)` partitions the boxes as merging the labels of `a` and `b` does |
| Day08.UnionsArePartition | src/mainKotlin/kotlin/me/sizableshrimp/adventofcode2025/days/Day08.kt:35-42 | after any prefix of the pairs, the disjoint set partitions the boxes as the reference relabelling does |
| Day08.PairsJoined | src/mainKotlin/kotlin/me/sizableshrimp/adventofcode2025/days/Day08.kt:40-42 | after a prefix of the pairs, both boxes of every pair in it lie in one set |
| Day08.OneSetJoinsAll | src/mainKotlin/kotlin/me/sizableshrimp/adventofcode2025/days/Day08.kt:47-48 | when `numSets` is 1, every two boxes lie in one set |
| Day08.ValuesListRemove | src/mainKotlin/kotlin/me/sizableshrimp/adventofcode2025/days/Day08.kt:45 | the map's values hold each entry's value once |
| Day08.SizeValues | src/mainKotlin/kotlin/me/sizableshrimp/adventofcode2025/days/Day08.kt:45 | `resolveSizes().values` lists the set sizes as a multiset |
| Day08.TopThree | src/mainKotlin/kotlin/me/sizableshrimp/adventofcode2025/days/Day08.kt:45 | `take(3)` keeps three sizes, or all of them when there are fewer |
| Day08.TopThreeLargest | src/mainKotlin/kotlin/me/sizableshrimp/adventofcode2025/days/Day08.kt:45 | the three kept sizes start `sortedDescending()` and are at least every size left out |
| Day08.TopProductOrderFree | src/mainKotlin/kotlin/me/sizableshrimp/adventofcode2025/days/Day08.kt:45 | the product of the three largest sizes does not depend on the order of the sizes |
| Day08.XProductExact | src/mainKotlin/kotlin/me/sizableshrimp/adventofcode2025/days/Day08.kt:48 | `coords[a].x.toLong() * coords[b].x` is exact, as both factors are `int` values |
| Day08.NumSetsCounts | src/mainKotlin/kotlin/me/sizableshrimp/adventofcode2025/days/Day08.kt:47 | `numSets` is the number of distinct roots |
| Day08.RunStep | src/mainKotlin/kotlin/me/sizableshrimp/adventofcode2025/days/Day08.kt:40-49 | each pair is joined; at index 1000 part 1 takes the top-three product (which may throw), and the loop returns as soon as one set remains |
| Day08.Advance | src/mainKotlin/kotlin/me/sizableshrimp/adventofcode2025/days/Day08.kt:41-45 | one iteration joins the pair, keeps the arrays, tracks `numSets`, and computes part 1 at index 1000 |
| Day08.LargestThree | src/mainKotlin/kotlin/me/sizableshrimp/adventofcode2025/days/Day08.kt:45 | `resolveSizes().values.sortedDescending().take(3).reduce(Int::times)` is the top-three product of the set sizes, and changes no set |
| Day08.Step | src/mainKotlin/kotlin/me/sizableshrimp/adventofcode2025/days/Day08.kt:42 | `dset.union(a, b)` moves the disjoint set's roots and ranks to those of the value model |
| Day08.Connect | src/mainKotlin/kotlin/me/sizableshrimp/adventofcode2025/days/Day08.kt:35-51 | the loop computes the reference run over the sorted pairs |
| Day08.Evaluate | src/mainKotlin/kotlin/me/sizableshrimp/adventofcode2025/days/Day08.kt:33-52 | `evaluate` is the reference answer: the parse error, or the run over the sorted pairs |
| Day09.ParseCoords | src/mainKotlin/kotlin/me/sizableshrimp/adventofcode2025/days/Day09.kt:36 | all lines parse, one coordinate each, or the error is `IndexOutOfBoundsException` or `NumberFormatException` |
| Day09.ParseCoordsValue | src/mainKotlin/kotlin/me/sizableshrimp/adventofcode2025/days/Day09.kt:36 | coordinate `k` is `Coordinate.parse` of line `k` |
| Day09.YValuesShape | src/mainKotlin/kotlin/me/sizableshrimp/adventofcode2025/days/Day09.kt:38 | `yVals` is strictly increasing and holds exactly the corners' y values |
| Day09.CrossRow | src/mainKotlin/kotlin/me/sizableshrimp/adventofcode2025/days/Day09.kt:44-48 | a vertical edge adds the piece `(x, x)` to exactly the rows of `yVals` strictly between its ends |
| Day09.CrossFilled | src/mainKotlin/kotlin/me/sizableshrimp/adventofcode2025/days/Day09.kt:47 | `getOrPut` never leaves an empty list in the map |
| Day09.TableRow | src/mainKotlin/kotlin/me/sizableshrimp/adventofcode2025/days/Day09.kt:40-52 | the pieces of a row are, in outline order, the contributions of each edge of the closed outline to that row |
| Day09.TableRows | src/mainKotlin/kotlin/me/sizableshrimp/adventofcode2025/days/Day09.kt:40-52 | that holds for every row at once, and every list in the map is non-empty |
| Day09.TableKeys | src/mainKotlin/kotlin/me/sizableshrimp/adventofcode2025/days/Day09.kt:40-52 | a row is a key of `horizRanges` exactly when some edge contributes to it |
| Day09.CrossedRows | src/mainKotlin/kotlin/me/sizableshrimp/adventofcode2025/days/Day09.kt:42-43 | `min + 1 .. max - 1` is the rows strictly between the edge's ends, when that arithmetic does not wrap |
| Day09.SortRowsSorted | src/mainKotlin/kotlin/me/sizableshrimp/adventofcode2025/days/Day09.kt:54 | sorting keeps the rows of the map, and each row's pieces become sorted by start and a permutation of what they were |
| Day09.SizeExact | src/mainKotlin/kotlin/me/sizableshrimp/adventofcode2025/days/Day09.kt:61-62 | the rectangle size `(abs(dx) + 1).toLong() * (abs(dy) + 1)` is exact when the sides fit in an `int` |
| Day09.SizeSymmetric | src/mainKotlin/kotlin/me/sizableshrimp/adventofcode2025/days/Day09.kt:61-62 | the size does not depend on which corner comes first |
| Day09.SideSymmetric | src/mainKotlin/kotlin/me/sizableshrimp/adventofcode2025/days/Day09.kt:61-62 | each side length is symmetric in the two corners |
| Day09.PairsInRange | src/mainKotlin/kotlin/me/sizableshrimp/adventofcode2025/days/Day09.kt:56 | every pair `combinations` yields is a pair of corner indices |
| Day09.LargestIsMax | src/mainKotlin/kotlin/me/sizableshrimp/adventofcode2025/days/Day09.kt:60-63 | the running `max` ends at the largest size of the remaining pairs, attained by one of them unless it is 0 |
| Day09.FirstAtOrLeft | src/mainKotlin/kotlin/me/sizableshrimp/adventofcode2025/days/Day09.kt:77 | `first { l.first <= minX }` is the first piece starting at or left of `minX`, and throws `NoSuchElementException` when there is none |
| Day09.RowVerdictMeaning | src/mainKotlin/kotlin/me/sizableshrimp/adventofcode2025/days/Day09.kt:76-83 | once the first piece starts at or left of `minX`, `first` always lands on it, so a row passes exactly when the rectangle's row starts inside the first piece and ends inside the first or the second |
| Day09.FitsFrom | src/mainKotlin/kotlin/me/sizableshrimp/adventofcode2025/days/Day09.kt:73-84 | the row loop fails only with `NullPointerException` (a missing row) or `NoSuchElementException` |
| Day09.FitsMeaning | src/mainKotlin/kotlin/me/sizableshrimp/adventofcode2025/days/Day09.kt:73-84 | a rectangle passes exactly when every row of `yVals` it spans is in the map and passes its row test |
| Day09.ScanFirst | src/mainKotlin/kotlin/me/sizableshrimp/adventofcode2025/days/Day09.kt:60-63 | when the loop finishes, part 1 is the larger of its start and the largest size |
| Day09.ScanSecond | src/mainKotlin/kotlin/me/sizableshrimp/adventofcode2025/days/Day09.kt:60-87 | when the loop finishes, part 2 is at most part 1, at least every accepted rectangle, and one of them unless unchanged |
| Day09.LeftOfFirstRejects | src/mainKotlin/kotlin/me/sizableshrimp/adventofcode2025/days/Day09.kt:73-76 | a rectangle that starts left of the first piece on some row it spans is rejected |
| Day09.AnswerFirst | src/mainKotlin/kotlin/me/sizableshrimp/adventofcode2025/days/Day09.kt:35-89 | part 1 is the size of the largest rectangle with two corners as opposite vertices |
| Day09.LargestOfAll | src/mainKotlin/kotlin/me/sizableshrimp/adventofcode2025/days/Day09.kt:56-63 | over all pairs of corners, part 1 is at least each rectangle's size and equal to one of them unless 0 |
| Day09.AnswerSecond | src/mainKotlin/kotlin/me/sizableshrimp/adventofcode2025/days/Day09.kt:35-89 | part 2 is the largest contained rectangle (0 when none), and at most part 1 |
| Day09.ContainedLargest | src/mainKotlin/kotlin/me/sizableshrimp/adventofcode2025/days/Day09.kt:56-87 | over all pairs of corners, part 2 is at most part 1, at least every contained rectangle, and one of them unless 0 |
| Day09.ContainedAbove | src/mainKotlin/kotlin/me/sizableshrimp/adventofcode2025/days/Day09.kt:56-87 | every contained rectangle is at most part 2 |
| Day09.ContainedAttained | src/mainKotlin/kotlin/me/sizableshrimp/adventofcode2025/days/Day09.kt:56-87 | a non-zero part 2 is the size of some contained rectangle |
| Day09.AddCrossings | src/mainKotlin/kotlin/me/sizableshrimp/adventofcode2025/days/Day09.kt:44-48 | the loop over `yVals` adds the vertical edge's pieces as the reference does |
| Day09.BuildTable | src/mainKotlin/kotlin/me/sizableshrimp/adventofcode2025/days/Day09.kt:40-52 | `windowed(2)` over the closed outline builds the reference table |
| Day09.Contained | src/mainKotlin/kotlin/me/sizableshrimp/adventofcode2025/days/Day09.kt:73-84 | the row loop computes the reference row tests |
| Day09.Search | src/mainKotlin/kotlin/me/sizableshrimp/adventofcode2025/days/Day09.kt:56-87 | the pair loop computes the reference scan over `combinations(coords, 2)` |
| Day09.Evaluate | src/mainKotlin/kotlin/me/sizableshrimp/adventofcode2025/days/Day09.kt:35-90 | `evaluate` is the reference answer: the parse error, `IndexOutOfBoundsException` for no corners, or the two parts |
| Day10.Inner | src/mainKotlin/kotlin/me/sizableshrimp/adventofcode2025/days/Day10.kt:36-38 | `substring(1, length - 1)` succeeds exactly on texts of at least two characters and gives what lies between the first and the last; shorter texts throw `IndexOutOfBoundsException` |
| Day10.ParseInts | src/mainKotlin/kotlin/me/sizableshrimp/adventofcode2025/days/Day10.kt:37-38 | `split(",").toInts()` gives `int` values only, and fails only with `NumberFormatException` |
| Day10.ParseButton | src/mainKotlin/kotlin/me/sizableshrimp/adventofcode2025/days/Day10.kt:37 | a button is a set of `int` light indices without repeats, or the bracket or number error |
| Day10.DistinctInts | src/mainKotlin/kotlin/me/sizableshrimp/adventofcode2025/days/Day10.kt:37 | `toSet()` keeps each index once and keeps them all `int` |
| Day10.ParseButtons | src/mainKotlin/kotlin/me/sizableshrimp/adventofcode2025/days/Day10.kt:37 | every piece between the first and the last becomes one button |
| Day10.ParseMachine | src/mainKotlin/kotlin/me/sizableshrimp/adventofcode2025/days/Day10.kt:34-39 | a line yields as many buttons as it has pieces less two, or one of the three errors |
| Day10.OnePiece | src/mainKotlin/kotlin/me/sizableshrimp/adventofcode2025/days/Day10.kt:37 | a line without a space throws `IllegalArgumentException` from `subList(1, 0)` |
| Day10.ParseMachines | src/mainKotlin/kotlin/me/sizableshrimp/adventofcode2025/days/Day10.kt:34-40 | every line becomes one machine, or the first line's error |
| Day10.ParseIntsJoined | src/mainKotlin/kotlin/me/sizableshrimp/adventofcode2025/days/Day10.kt:37-38 | `int` values written with commas between them parse back to the same values |
| Day10.ButtonRoundTrip | src/mainKotlin/kotlin/me/sizableshrimp/adventofcode2025/days/Day10.kt:37 | a bracketed button parses back to itself |
| Day10.ButtonsRoundTrip | src/mainKotlin/kotlin/me/sizableshrimp/adventofcode2025/days/Day10.kt:37 | a list of written buttons parses back to the same buttons |
| Day10.MachineRoundTrip | src/mainKotlin/kotlin/me/sizableshrimp/adventofcode2025/days/Day10.kt:34-39 | a well-formed machine written as a line parses back to itself |
| Day10.Toggle | src/mainKotlin/kotlin/me/sizableshrimp/adventofcode2025/days/Day10.kt:57-60 | flipping a button's lights keeps the number of lights, and fails only with `IndexOutOfBoundsException` |
| Day10.ToggleOk | src/mainKotlin/kotlin/me/sizableshrimp/adventofcode2025/days/Day10.kt:58-59 | flipping succeeds exactly when every index of the button is a light |
| Day10.ToggleAt | src/mainKotlin/kotlin/me/sizableshrimp/adventofcode2025/days/Day10.kt:57-60 | light `i` flips exactly when the button lists it |
| Day10.ToggleFlips | src/mainKotlin/kotlin/me/sizableshrimp/adventofcode2025/days/Day10.kt:57-60 | every light flips exactly when the button lists it and keeps its value otherwise |
| Day10.ToggleTwice | src/mainKotlin/kotlin/me/sizableshrimp/adventofcode2025/days/Day10.kt:57-60 | pressing the same button twice gives back the lights |
| Day10.ToggleCommutes | src/mainKotlin/kotlin/me/sizableshrimp/adventofcode2025/days/Day10.kt:57-60 | two buttons pressed in either order give the same lights |
| Day10.Press | src/mainKotlin/kotlin/me/sizableshrimp/adventofcode2025/days/Day10.kt:57-60 | the copy-and-flip loop computes the reference flip, including its error |
| Day10.PressesParity | src/mainKotlin/kotlin/me/sizableshrimp/adventofcode2025/days/Day10.kt:57-60 | after a sequence of presses a light has changed exactly when the buttons pressed listed it an odd number of times |
| Day10.PressStep | src/mainKotlin/kotlin/me/sizableshrimp/adventofcode2025/days/Day10.kt:53-64 | a state reached by a path gives, pressed with another button, the state that path plus that button reaches |
| Day10.PressReaches | src/mainKotlin/kotlin/me/sizableshrimp/adventofcode2025/days/Day10.kt:61-62 | when a press lands on the target, `nextFlipped` presses reach the target from all off |
| Day10.TryButton | src/mainKotlin/kotlin/me/sizableshrimp/adventofcode2025/days/Day10.kt:56-65 | one button press: it fails exactly when the button lists a light that does not exist, lowers `best` only to `nextFlipped`, and enqueues the new lights exactly when they were unseen and not the target |
| Day10.Expand | src/mainKotlin/kotlin/me/sizableshrimp/adventofcode2025/days/Day10.kt:55-66 | the button loop keeps every queued state reachable, `seen` the set of what was enqueued, and `best` a reachable count or `Int.MAX_VALUE`; it fails exactly when some button other than the last pressed lists a missing light |
| Day10.Enqueue | src/mainKotlin/kotlin/me/sizableshrimp/adventofcode2025/days/Day10.kt:63-64 | enqueuing a reachable state keeps every queued state reachable |
| Day10.Dequeue | src/mainKotlin/kotlin/me/sizableshrimp/adventofcode2025/days/Day10.kt:52 | `removeFirst` yields a reachable state and leaves the rest reachable |
| Day10.FewestPresses | src/mainKotlin/kotlin/me/sizableshrimp/adventofcode2025/days/Day10.kt:46-67 | the search ends; it throws exactly when some button lists a missing light; otherwise `best` is `Int.MAX_VALUE` or a number of presses that takes the lights from all off to the target without the same button twice in a row |
| Day10.SearchAll | src/mainKotlin/kotlin/me/sizableshrimp/adventofcode2025/days/Day10.kt:42-69 | part 1 is the `long` sum of each machine's `best`, each such a bound, and the run throws exactly when some machine has a button with a missing light |
| Day10.Evaluate | src/mainKotlin/kotlin/me/sizableshrimp/adventofcode2025/days/Day10.kt:33-89 | `evaluate` gives the parse error of the first bad line, or the search's error, or part 1 as the sum of each machine's reachable press count |
| Day11.ParseLine | src/mainKotlin/kotlin/me/sizableshrimp/adventofcode2025/days/Day11.kt:32-33 | `val (label, rest) = l.split(": ")` gives a label without `": "` and at least one output without a space, or throws `IndexOutOfBoundsException` |
| Day11.LineRoundTrip | src/mainKotlin/kotlin/me/sizableshrimp/adventofcode2025/days/Day11.kt:32-33 | a line written as `label: a b c` parses back to its label and outputs |
| Day11.NoSeparatorLine | src/mainKotlin/kotlin/me/sizableshrimp/adventofcode2025/days/Day11.kt:32 | a line without `": "` throws `IndexOutOfBoundsException` in the destructuring |
| Day11.ParsePairs | src/mainKotlin/kotlin/me/sizableshrimp/adventofcode2025/days/Day11.kt:31-34 | every line becomes one pair, or the destructuring error |
| Day11.ParsePairsMeaning | src/mainKotlin/kotlin/me/sizableshrimp/adventofcode2025/days/Day11.kt:31-34 | parsing succeeds exactly when every line parses, and then pair `i` is line `i`'s |
| Day11.AssociateKeys | src/mainKotlin/kotlin/me/sizableshrimp/adventofcode2025/days/Day11.kt:31 | a label is a key of the map exactly when some line has it |
| Day11.AssociateLast | src/mainKotlin/kotlin/me/sizableshrimp/adventofcode2025/days/Day11.kt:31 | `associate` keeps the outputs of the last line with a label |
| Day11.ParseNodes | src/mainKotlin/kotlin/me/sizableshrimp/adventofcode2025/days/Day11.kt:31-34 | building the map fails only with `IndexOutOfBoundsException` |
| Day11.NodesRoundTrip | src/mainKotlin/kotlin/me/sizableshrimp/adventofcode2025/days/Day11.kt:31-34 | lines written from entries parse to the map `associate` builds from those entries |
| Day11.NonOut | src/mainKotlin/kotlin/me/sizableshrimp/adventofcode2025/days/Day11.kt:37 | the outputs `submit` is called on are outputs other than `out` |
| Day11.PathsSound | src/mainKotlin/kotlin/me/sizableshrimp/adventofcode2025/days/Day11.kt:36-38 | every path enumerated from a node starts there and follows the graph's edges to `out` |
| Day11.PathsViaSound | src/mainKotlin/kotlin/me/sizableshrimp/adventofcode2025/days/Day11.kt:37 | every path through an output list starts at the node and follows edges |
| Day11.InVia | src/mainKotlin/kotlin/me/sizableshrimp/adventofcode2025/days/Day11.kt:37 | a path through one output belongs to the paths through the whole output list |
| Day11.PathsComplete | src/mainKotlin/kotlin/me/sizableshrimp/adventofcode2025/days/Day11.kt:36-38 | every path that follows the graph's edges to `out` is enumerated from its first node |
| Day11.ViaSeconds | src/mainKotlin/kotlin/me/sizableshrimp/adventofcode2025/days/Day11.kt:37 | every path through an output list goes next to one of those outputs |
| Day11.HeadSeconds | src/mainKotlin/kotlin/me/sizableshrimp/adventofcode2025/days/Day11.kt:37 | every path through output `c` goes next to `c` |
| Day11.PathsUnique | src/mainKotlin/kotlin/me/sizableshrimp/adventofcode2025/days/Day11.kt:36-38 | when no node lists an output twice, no path is enumerated twice |
| Day11.PathsViaUnique | src/mainKotlin/kotlin/me/sizableshrimp/adventofcode2025/days/Day11.kt:37 | the same for the paths through an output list without repeats |
| Day11.CountAll | src/mainKotlin/kotlin/me/sizableshrimp/adventofcode2025/days/Day11.kt:37 | with both flags set every path counts |
| Day11.PassesBoth | src/mainKotlin/kotlin/me/sizableshrimp/adventofcode2025/days/Day11.kt:40-48 | from `svr` with both flags clear, a path counts exactly when it passes `dac` and `fft` |
| Day11.CountPrefix | src/mainKotlin/kotlin/me/sizableshrimp/adventofcode2025/days/Day11.kt:45 | counting paths from a child with the flags updated by that child counts the same paths from the parent |
| Day11.GoodStep | src/mainKotlin/kotlin/me/sizableshrimp/adventofcode2025/days/Day11.kt:43-45 | a path's verdict from `v` is its verdict from the next node with the flags updated |
| Day11.WalkFlags | src/mainKotlin/kotlin/me/sizableshrimp/adventofcode2025/days/Day11.kt:40-47 | walking a path sets `seenDac` exactly when the path holds `dac`, `seenFft` likewise, and ends on its last node |
| Day11.Successors | src/mainKotlin/kotlin/me/sizableshrimp/adventofcode2025/days/Day11.kt:45 | each output other than `out` gives one successor state |
| Day11.Acyclic1 | src/mainKotlin/kotlin/me/sizableshrimp/adventofcode2025/days/Day11.kt:36-38 | a graph with a rank function that drops along every edge gives the memoized search of part 1 a well-founded order |
| Day11.Acyclic2 | src/mainKotlin/kotlin/me/sizableshrimp/adventofcode2025/days/Day11.kt:40-48 | the same for the states of part 2 |
| Day11.SumOfOut | src/mainKotlin/kotlin/me/sizableshrimp/adventofcode2025/days/Day11.kt:37 | an `out` output adds its hit to the `long` sum |
| Day11.SumOfNode | src/mainKotlin/kotlin/me/sizableshrimp/adventofcode2025/days/Day11.kt:37 | any other output adds its submitted value, or passes its error on |
| Day11.CountVia | src/mainKotlin/kotlin/me/sizableshrimp/adventofcode2025/days/Day11.kt:37 | the paths through an output list split as the paths through the first output and the rest |
| Day11.CountHeadOut | src/mainKotlin/kotlin/me/sizableshrimp/adventofcode2025/days/Day11.kt:42-43 | the path straight to `out` counts 1 when both flags are set and 0 otherwise |
| Day11.CountHeadNode | src/mainKotlin/kotlin/me/sizableshrimp/adventofcode2025/days/Day11.kt:44-45 | the paths through a child count as the child's paths with the flags updated |
| Day11.MatchesOf | src/mainKotlin/kotlin/me/sizableshrimp/adventofcode2025/days/Day11.kt:37 | answers in output order match the expected value of each output |
| Day11.SumOfTotal | src/mainKotlin/kotlin/me/sizableshrimp/adventofcode2025/days/Day11.kt:37 | `sumOf` is the `long` wrap of the exact total when every child is present, and `NullPointerException` from `!!` otherwise |
| Day11.CountViaTotal | src/mainKotlin/kotlin/me/sizableshrimp/adventofcode2025/days/Day11.kt:37 | counting paths through an output list is adding up each output's count |
| Day11.AnsweredMatches | src/mainKotlin/kotlin/me/sizableshrimp/adventofcode2025/days/Day11.kt:37 | the submitted answers match the expected counts |
| Day11.AllOkClosed | src/mainKotlin/kotlin/me/sizableshrimp/adventofcode2025/days/Day11.kt:37 | every child answering without error means every child closes under `!!` |
| Day11.Via | src/mainKotlin/kotlin/me/sizableshrimp/adventofcode2025/days/Day11.kt:37 | one node's `sumOf` is the wrapped count of its good paths, or `NullPointerException` when some node below is missing |
| Day11.Part1Value | src/mainKotlin/kotlin/me/sizableshrimp/adventofcode2025/days/Day11.kt:36-38 | the memoized search from a node of part 1 is the wrapped number of its paths to `out`, or `NullPointerException` |
| Day11.Part2Value | src/mainKotlin/kotlin/me/sizableshrimp/adventofcode2025/days/Day11.kt:40-48 | the memoized search from a state of part 2 is the wrapped number of its paths to `out` that, with the state's flags, pass `dac` and `fft` |
| Day11.Evaluate | src/mainKotlin/kotlin/me/sizableshrimp/adventofcode2025/days/Day11.kt:30-51 | `evaluate` gives `IndexOutOfBoundsException` for a bad line, `NullPointerException` when a reachable node has no line, and otherwise the number of paths from `you` to `out` and the number from `svr` to `out` through `dac` and `fft` |
| Day12.Piece | src/mainKotlin/kotlin/me/sizableshrimp/adventofcode2025/days/Day12.kt:34 | `drop(1).toBooleanGrid`: a shape block loses its header line and keeps one row per remaining line, as wide as that line |
| Day12.Totals | src/mainKotlin/kotlin/me/sizableshrimp/adventofcode2025/days/Day12.kt:45 | one total per piece, each the piece's count of `true` cells |
| Day12.RowHashes | src/mainKotlin/kotlin/me/sizableshrimp/adventofcode2025/days/Day12.kt:34 | a row read with `c == '#'` has as many `true` cells as its line has `#` |
| Day12.GridHashes | src/mainKotlin/kotlin/me/sizableshrimp/adventofcode2025/days/Day12.kt:34 | the same for a whole grid |
| Day12.PieceTotalHashes | src/mainKotlin/kotlin/me/sizableshrimp/adventofcode2025/days/Day12.kt:34-45 | a piece's total is the number of `#` below the block's header line |
| Day12.ToInts | src/mainKotlin/kotlin/me/sizableshrimp/adventofcode2025/days/Day12.kt:37 | `toInts()` gives one `int` per text, or `NumberFormatException` |
| Day12.ParseTree | src/mainKotlin/kotlin/me/sizableshrimp/adventofcode2025/days/Day12.kt:36-37 | a tree line parses or fails with `IndexOutOfBoundsException`, `NumberFormatException` or `IllegalArgumentException` from `toPair` |
| Day12.TreeLineNeedsColon | src/mainKotlin/kotlin/me/sizableshrimp/adventofcode2025/days/Day12.kt:36 | a line without `": "` throws `IndexOutOfBoundsException` in the destructuring |
| Day12.ParseTrees | src/mainKotlin/kotlin/me/sizableshrimp/adventofcode2025/days/Day12.kt:35-38 | every line of the last block becomes one tree, or one of those errors |
| Day12.ParseTreesMeaning | src/mainKotlin/kotlin/me/sizableshrimp/adventofcode2025/days/Day12.kt:35-38 | the trees parse exactly when every line does, and tree `k` is line `k`'s |
| Day12.ParseTreesFirstError | src/mainKotlin/kotlin/me/sizableshrimp/adventofcode2025/days/Day12.kt:35-38 | a failure is the error of the first line that fails |
| Day12.DecimalAvoids | src/mainKotlin/kotlin/me/sizableshrimp/adventofcode2025/days/Day12.kt:37 | a number written in decimal holds no separator character |
| Day12.SplitDecimals | src/mainKotlin/kotlin/me/sizableshrimp/adventofcode2025/days/Day12.kt:37 | splitting numbers written with a separator gives back their texts |
| Day12.ReadDecimals | src/mainKotlin/kotlin/me/sizableshrimp/adventofcode2025/days/Day12.kt:37 | `toInts()` reads written `int` values back |
| Day12.JoinedInts | src/mainKotlin/kotlin/me/sizableshrimp/adventofcode2025/days/Day12.kt:37 | `split` then `toInts()` reads the joined values back |
| Day12.TreeRoundTrip | src/mainKotlin/kotlin/me/sizableshrimp/adventofcode2025/days/Day12.kt:36-37 | a tree written as `WxH: a b c` parses back to itself |
| Day12.NeedWraps | src/mainKotlin/kotlin/me/sizableshrimp/adventofcode2025/days/Day12.kt:48 | `mapIndexed { counts[i] * tot }.sum()` is the 32-bit wrap of the exact sum of products |
| Day12.Fits | src/mainKotlin/kotlin/me/sizableshrimp/adventofcode2025/days/Day12.kt:47-51 | the per-tree test throws `IndexOutOfBoundsException` exactly when the tree has fewer counts than there are pieces |
| Day12.FitsExact | src/mainKotlin/kotlin/me/sizableshrimp/adventofcode2025/days/Day12.kt:48-51 | where no product or sum wraps, a tree passes exactly when its area is at least the cells its pieces need |
| Day12.CountFits | src/mainKotlin/kotlin/me/sizableshrimp/adventofcode2025/days/Day12.kt:47-56 | `count` throws exactly when some tree has fewer counts than pieces, and otherwise is the number of trees that pass |
| Day12.Pieces | src/mainKotlin/kotlin/me/sizableshrimp/adventofcode2025/days/Day12.kt:33-34 | one piece per block before the last |
| Day12.Part1 | src/mainKotlin/kotlin/me/sizableshrimp/adventofcode2025/days/Day12.kt:31-57 | part 1 is the parse error or a count no larger than the number of tree lines |
| Day12.TreeTextNotBlank | src/mainKotlin/kotlin/me/sizableshrimp/adventofcode2025/days/Day12.kt:35-38 | a written tree line is not blank |
| Day12.TreeLinesRoundTrip | src/mainKotlin/kotlin/me/sizableshrimp/adventofcode2025/days/Day12.kt:35-38 | written tree lines parse back to the trees |
| Day12.ParseTreesAll | src/mainKotlin/kotlin/me/sizableshrimp/adventofcode2025/days/Day12.kt:35-38 | lines that each parse give their trees in order |
| Day12.Part1Input | src/mainKotlin/kotlin/me/sizableshrimp/adventofcode2025/days/Day12.kt:31-57 | for an input of shape blocks followed by tree lines, part 1 is the per-tree test counted over those trees, with the totals of those shapes |

## Left out

- Reading input files, downloading inputs, printing answers, `Printer`, `DataManager` and the `main`/`run` entry points: I/O. Each day takes its input as a sequence of lines.
- Floating point: `Fraction.toDouble`, the `of(double…)` constructors, `distanceSqrt`, the `double`-returning `distanceSquared(other)` overloads, and the `Double`/`Float` overloads of the grid and collection helpers. The solver does not model IEEE arithmetic.
- `toString` and `String.format` output, except the decimal text of numbers the parsers read back.
- The byte and char overloads of `max`/`min`, `sumOf2D` and similar helpers: they repeat the `int` overloads at another width.
- The `MathUtil.kt` infix, array and collection wrappers: each is a one-line delegation to the `MathUtil.java` members modelled here.
- Kotlin's `component1`..`component4` destructuring accessors: they return a field.
- Day10 part 2: a call into the Z3 optimizer, which lies outside the code base. As a result `Day10.Evaluate`'s error verdict ignores part 2's `check()`. In the source that `IllegalStateException` can be thrown for one machine before a later machine's search fails.
- Day10.FewestPresses: proves that the result is `Int.MAX_VALUE` or a press count that reaches the target. It does not prove that the count is the fewest; the breadth-first optimality argument is not part of this model.
- Day11.Evaluate: requires a rank function that drops along every edge of the whole map, that is, an acyclic map. The source's memoised recursion visits only the devices reachable from "you" and "svr", so it still terminates when the only cycles lie elsewhere. For example `you: out`, `svr: out`, `a: b`, `b: a` gives (1, 0). Such maps are not modelled. A cycle reachable from "you" or "svr" makes the source recurse without end, and the model has no counterpart for that either.
- Day12 part 2 returns `null` in the source; there is no second answer to model.
- Day12.FitsExact: states the area test as exact arithmetic only where no product or sum wraps around. `Day12.Fits` itself keeps the 32-bit wrap, and `Day12.NeedWraps` ties the two together.
- Permutations.PermutationIterator.Next: the iterator's yielding exactly n! permutations (the Steinhaus-Johnson-Trotter theorem) is not proved. Each step is proved to keep a permutation of the keys.
- LinearAlgebra.Solve / LinearAlgebra.SolveInts: proves the shape of the reduced row echelon form and the consistency verdict. It does not prove that elimination preserves the solution set.
- Search: the searches take a finite set of ids closed under the successor function as a ghost parameter, so the model covers only graphs whose reachable ids form a finite set. That leaves out the runs where the source loops forever. It also leaves out the runs of `SearchBest`/`SearchBestSimple` that end on an infinite graph because pruning empties the queue (successors `n + 1` and `n - 1`, start 0, target 3: once the best is 3, every state costing at least 3 is skipped).
- Search abstractions: every `run(state, addNext)` is modelled as a successor function that offers `succ(state)` in order, so a `run` whose offers depend on what `addNext` answered or on outside state is not modelled. Every `Comparator<S>` is modelled as a `nat` cost compared with `<`, so a comparator that no such cost embeds (one with an infinite descending chain, or one that is not a total preorder) is not modelled.
- Search.SearchMemoizingById: promises the reference value of `start` only when states that share an id share an answer (`Search.Consistent`). With an id function that merges states of different answers, the source returns whatever was cached first; `Search.Memoizer.Recurse`, `Run` and `Call` then promise only the cache discipline of `Search.Memoizer.Valid`. `Search.Memoizing` and `SearchMemoizing`, keyed by the state, always get the value.
- Search.Memoizer.Recurse: requires a rank over ids that drops along every edge reachable from the state asked about (`Search.AcyclicFrom`). The source also ends on some id cycles among distinct states, for example a state whose only child has the same id but no children: the child is run because the parent's answer is not yet cached. Such runs are not modelled. A reachable id cycle that is revisited before an answer is cached makes the source recurse without end.
- The `Itertools.combinations`, `argmax`, `GridHelper.isValid`, `GridHelper.countOccurrences` and `GridHelper.createCharGrid` helpers are not part of this model. Their assumed behaviour:
  - `combinations` lists the index pairs `i < j` in lexicographic order;
  - `argmax` is the first maximal index;
  - `isValid` is the in-bounds test;
  - `countOccurrences` counts equal cells in an `int` counter.
- `ZCoordinate.distanceSquared` is called by Day08 but does not appear in this revision of `ZCoordinate.java`. Day08 takes it as the exact squared Euclidean distance.
- `Integer.parseInt`, `Long.parseLong`, `toInt` and `digitToInt`: modelled on ASCII decimal text with an optional sign. Unicode digits are not modelled.
- The day solvers, the search helpers and the collection helpers count and index with unbounded integers, apart from the `int` and `long` sums and products the source computes, which wrap explicitly. A list longer than `Int.MAX_VALUE` is not modelled.
- Kotlin laziness (`generateSequence`, `iterator { yield }`) and the hash map internals: sequences are eager and maps are Dafny maps.
- Day04: the grid is a field of sequences of rows, written cell by cell, rather than an array of arrays. The source never aliases two rows.
- The library sorts are modelled as insertion sorts, proved sorted, a permutation and stable (`Sorting.SortByStable`). The source's sort algorithm is not modelled, only its result.
- Out-of-domain arguments that make the source throw are excluded by types or preconditions, not modelled as exceptions:
  - `Permutations.PermutationIterator.constructor` takes a sequence, which is never null, so it omits the `NullPointerException` of PermutationIterator.java:79 and 82-83;
  - `DisjointSets.DisjointSet.constructor` takes a `nat` size, so it omits the `NegativeArraySizeException` of DisjointSet.java:50;
  - `DisjointSets.DisjointSet.Find`, `FindKeeping` and `Union` require in-range indices, so they omit the `ArrayIndexOutOfBoundsException`; `Union` thereby also excludes `union(x, x)` with `x` out of range, which DisjointSet.java:81-82 answers with false without touching the arrays;
  - `LinearAlgebra` takes a matrix as a sequence of rows of one length. A jagged `Fraction[][]` and one whose rows alias each other are not modelled.
- Fraction: the `plus` and `minus` documentation says their results are simplified, but they are not (`Fractions.PlusNotSimplified`). The model keeps the unsimplified behaviour because `LinearAlgebra` depends on it.

## Findings

| source | as written | input that shows it | evidently intended | confidence | as-written member | corrected member |
|---|---|---|---|---|---|---|
| src/util/java/me/sizableshrimp/adventofcode2025/templates/LongCoordinate.java:164-166 | `direction.x * count` and `direction.y * count` are `int` products, wrapped before they are widened to `long` | `ORIGIN.resolve(WEST, Integer.MIN_VALUE)` gives x = -2147483648 instead of 2147483648 | the offset `direction * count` in `long` arithmetic | not executed | LongCoordinates.ResolveDirTimesCounterexample | LongCoordinates.ResolveDirTimesExact |
| src/util/java/me/sizableshrimp/adventofcode2025/templates/HyperCoordinate.java:115-122 | the component differences are `int` subtractions, wrapped before they are widened and squared | (2000000000, 0, 0, 0) and (-1000000000, 0, 0, 0) give 1676940297709551616 instead of 9000000000000000000 | differences taken in `long` | not executed | HyperCoordinates.DistanceSquaredCounterexample | HyperCoordinates.DistanceSquaredExact |
| src/util/java/me/sizableshrimp/adventofcode2025/templates/Coordinate.java:139-141 | `distanceToOrigin` returns `x + y` | (-1, -1) gives -2, a negative distance | `abs(x) + abs(y)`, the Manhattan distance to the origin, as `distance(ORIGIN)` gives; the same holds for LongCoordinate.java:123-125 | not executed | Coordinates.DistanceToOriginCounterexample | Coordinates.DistanceToOrigin |
| src/util/java/me/sizableshrimp/adventofcode2025/templates/LongCoordinate.java:123-125 | `distanceToOrigin` returns `x + y` | (-1, -1) gives -2 | `abs(x) + abs(y)` | not executed | LongCoordinates.DistanceToOriginCounterexample | LongCoordinates.DistanceToOrigin |
| src/util/kotlin/me/sizableshrimp/adventofcode2025/util/RangeUtil.kt:50-55 | the part after the intersection starts at `intersection.last + 1`, computed in `Int` | `(0..Int.MAX_VALUE).getDisjointRanges(5..Int.MAX_VALUE)`: the second part wraps to `Int.MIN_VALUE..Int.MAX_VALUE` and covers 7, which lies in both ranges | no part after the intersection when the intersection reaches the larger end, so the result is the symmetric difference | not executed | Ranges.DisjointRangesWrapCounterexample | Ranges.DisjointRangesSymmetricDifference |
| src/util/kotlin/me/sizableshrimp/adventofcode2025/util/CollectionUtil.kt:264 | `List(this.size * num)` takes the size as an `Int` product | `[7, 8, 9].repeatElements(0x55555556)` gives `[7, 8]`, because `3 * 0x55555556` wraps to 2 | `num` copies of the list, or a failure when that many elements cannot be held | not executed | Collections.RepeatElementsWrapCounterexample | Collections.RepeatElementsIsConcat |
