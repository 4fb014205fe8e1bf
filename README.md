# rref in Dafny

A Dafny model of the `rref` Python package by MarkMoretto. The package puts a
matrix (a list of rows of numbers) into a "row-reduced echelon form" in three
passes over one mutable matrix:

- step 1 makes the first column non-negative and clears every cell left of
  the diagonal;
- step 2 divides every row by its first nonzero entry;
- step 3 flips the matrix and, below each pivot (a 1 followed by a 0), clears
  the pivot's column.

`run` sorts the rows by their first entry, largest first. It then performs the
three steps once, flips the matrix back and rounds every cell to one decimal
place. The model covers:

- the `RREF` class (`rref/main.py`);
- the matrix helpers and the matrix state of `MatrixMadness` (`rref/helpers/mm.py`);
- the `CEIL`, `FLOOR` and `ROUND` arithmetic of `MathClass` (`rref/helpers/math_.py`);
- the iteration helpers `RANGE`, `SUM`, `LEN`, `ENUM` and `ABS` (`rref/helpers/utils_.py`).

Numbers are exact `real`s. The `== 0` and `== 1` tests are exact comparisons.
A Python exception is a value: `Fault` is `ZeroDivision` or `IndexOutOfRange`,
`Result<T>` is `Ok(value)` or `Err(fault)`, and a method that may raise
returns an `Outcome` (`Done` or `Raised(fault)`).

Layout, one module per file:

| file | module | what |
|---|---|---|
| results.dfy | `Results` | `Option`, `Fault`, `Result`, `Outcome`, `Min`, `Max` |
| utils.dfy | `Utils` | `RANGE` (a loop proved equal to `RangeSeq`), `SUM`, `LEN`, `ENUM`, `ABS` |
| maths.dfy | `Maths` | Python's `n % 1`, `FLOOR`, `CEIL`, `10 ** d`, `ROUND` |
| matrices.dfy | `Matrices` | the pure helpers of `MatrixMadness` |
| rowsort.dfy | `RowSort` | the stable sort behind `sort_it`, written as an insertion sort |
| matrixstate.dfy | `MatrixState` | class `MatrixMadness`: the held matrix and its measures `len`, `row_len`, `col_len` |
| elimination.dfy | `Elimination` | steps 1 to 3 and `run` as functions of the matrix, and what they guarantee |
| engine.dfy | `Engine` | class `Rref`: the three steps and `run` as in-place loops, proved to compute those functions |

The methods of `Engine.Rref` keep the source's nested loops. Each loop over
a row or over the cells of a row that does not fit the solver's budget in one
method is a helper method of its own.

Each method is specified by a function in `Elimination`:

- `Step1` returns `Done` exactly when `Step1Spec` of the old matrix is `Ok`,
  and then leaves the matrix that `Step1Spec` gives;
- `Step1` raises `f` exactly when `Step1Spec` is `Err(f)`;
- `Step2` cannot raise and leaves `Step2Spec` of the old matrix;
- `Step3` and `Run` behave as `Step1` does, against `Step3Spec` and `RunSpec`.

The lemmas of `Elimination` state what those functions guarantee.

`ROUND` returns its argument unchanged only when it is a whole number (or
when no digits are asked for). Any other value moves up to the next multiple
of 10^-d strictly above it, so `ROUND(2.5, 1)` is `2.6`
(`Maths.RoundExactStillMoves`).

Step 1 is certain to raise when the matrix has at least one column and at
least two more rows than columns (`Elimination.Step1TooTall`,
`Elimination.RunTooTall`). The error is an IndexError from the base lookup
past the end of a row, unless a zero base in an earlier row raises
ZeroDivisionError first. With exactly one more row
than columns, step 1 raises only when a base it reads is 0
(`Elimination.EliminateCellCases`).

`Elimination.RunExample` works the system 2x + y = 8, x + y = 5 through
`run`: the result is [[1, 0, 3], [0, 1, 2]], that is x = 3 and y = 2.

## Model

| member | source | states |
|---|---|---|
| Utils.RangeSeq | rref/helpers/utils_.py:13-50 | what `RANGE` yields: an increment of 0 yields nothing, and every value lies between the two endpoints (0 and start when there is no stop) |
| Utils.Range | rref/helpers/utils_.py:13-50 | the generator yields exactly `RangeSeq`: with no stop the range runs from 0 to start, the increment defaults to 1, the endpoints are sorted, 0 yields nothing, a negative increment counts down inclusively |
| Utils.CountDown | rref/helpers/utils_.py:37-43 | the counting-down while loop yields exactly `Descending(hi, lo, inc)` |
| Utils.CountUp | rref/helpers/utils_.py:44-50 | the counting-up while loop yields exactly `Ascending(lo, hi, inc)` |
| Utils.AscendingValues | rref/helpers/utils_.py:44-50 | counting up, the k-th value is lo + k·inc, every value lies in [lo, hi), and one more step would reach hi |
| Utils.DescendingValues | rref/helpers/utils_.py:37-43 | counting down, the k-th value is hi + k·inc, every value lies in [lo, hi], and one more step would drop below lo |
| Utils.AscendingByOne | rref/helpers/utils_.py:44-50 | counting up by 1 from lo to hi yields max(0, hi-lo) values lo, lo+1, … |
| Utils.DescendingByOne | rref/helpers/utils_.py:37-43 | counting down by 1 from hi to lo yields hi-lo+1 values hi, hi-1, …, ending at lo |
| Utils.RangeSingleArgument | rref/helpers/utils_.py:25-27 | `RANGE(n)` with n ≥ 0 yields 0, 1, …, n-1 |
| Utils.RangeSingleArgumentLength | rref/helpers/utils_.py:25-36 | `RANGE(n)` yields \|n\| values for either sign of n, since 0 and n are sorted |
| Utils.RangeEndpointsOrderless | rref/helpers/utils_.py:32-36 | `RANGE(a, b, inc)` and `RANGE(b, a, inc)` yield the same values |
| Utils.RangeCountsUp | rref/helpers/utils_.py:44-50 | with inc > 0 the k-th value is min(a,b) + k·inc, every value is in [min, max), and the range stops only once the next value would reach max |
| Utils.RangeCountsDown | rref/helpers/utils_.py:37-43 | with inc < 0 the k-th value is max(a,b) + k·inc, every value is in [min, max], and the range stops only once the next value would drop below min |
| Utils.RangeDocstringExamples | rref/helpers/utils_.py:19-23 | `RANGE(10, increment=-1)` yields 11 values from 10 to 0; `RANGE(10, 1, -1)` yields 10 values from 10 to 1 |
| Utils.RangeZeroIncrement | rref/helpers/utils_.py:33-34 | an increment of 0 yields nothing |
| Utils.Sum | rref/helpers/utils_.py:53-58 | the running total of the loop is the total `SumOf` of the elements (0 for none) |
| Utils.SumOfAppend | rref/helpers/utils_.py:53-58 | the total of a concatenation is the sum of the two totals |
| Utils.SumOfCopies | rref/helpers/utils_.py:61-63 | n copies of v add up to n·v |
| Utils.Len | rref/helpers/utils_.py:61-63 | `int(SUM([1 for i in x]))` is the number of elements |
| Utils.Enum | rref/helpers/utils_.py:66-72 | one pair per element, in order; pair i is (start + i·increment, x_i) |
| Utils.Abs | rref/helpers/utils_.py:75-77 | the result is non-negative and is n or -n |
| Maths.Mod1 | rref/helpers/math_.py:27 | Python's floored `n % 1` lies in [0, 1), differs from n by a whole number, and is 0 exactly for whole n |
| Maths.Floor | rref/helpers/math_.py:29-31 | `FLOOR(n)` is whole and n - 1 < FLOOR(n) ≤ n, so it is the greatest whole number not above n |
| Maths.Ceil | rref/helpers/math_.py:25-27 | `CEIL(n)` is FLOOR(n) + 1, hence whole and strictly above n, at most n + 1 |
| Maths.CeilOfWhole | rref/helpers/math_.py:25-27 | `CEIL` of a whole number adds one (`CEIL(3.0) == 4.0`) |
| Maths.Pow10 | rref/helpers/math_.py:38 | `10 ** d` is positive for every integer d |
| Maths.ProbeZero | rref/helpers/math_.py:40 | the probe `SUM([x % 1 for i in RANGE(d)])` is 0 exactly when d is 0 or x is whole |
| Maths.Round | rref/helpers/math_.py:33-44 | `ROUND(x, d)` is x when the probe is 0, else `CEIL(x·10^d)/10^d`; it never moves a value down and leaves a whole number unchanged |
| Maths.RoundWithoutDigits | rref/helpers/math_.py:33-41 | `ROUND(x)` and `ROUND(x, 0)` return x |
| Maths.RoundWhole | rref/helpers/math_.py:40-41 | `ROUND` returns a whole x unchanged, for any number of digits |
| Maths.CeilScaled | rref/helpers/math_.py:43 | `CEIL(x·f)/f` is (floor(x·f)+1)/f, strictly above x and at most 1/f above it |
| Maths.RoundNotWhole | rref/helpers/math_.py:40-43 | for a non-whole x and d ≠ 0, `ROUND` takes the `CEIL` branch |
| Maths.RoundMovesUp | rref/helpers/math_.py:38-43 | for a non-whole x and d > 0, `ROUND(x, d)` is (floor(x·10^d)+1)/10^d, above x by at most 10^-d |
| Maths.RoundExactStillMoves | rref/helpers/math_.py:40-43 | a non-whole value exact at d digits is still moved up: `ROUND(2.5, 1) == 2.6` |
| Maths.RoundExactShortCut | rref/helpers/math_.py:40-41 | `ROUND(2.0, 3) == 2.0` |
| Maths.RoundToTenths | rref/helpers/math_.py:33-44 | `ROUND(x, 1)` is a whole number of tenths for every x |
| Matrices.Transpose | rref/helpers/mm.py:67-69 | the transpose has `col_len` rows of `row_len` cells and cell (i, j) is cell (j, i) of the matrix |
| Matrices.TransposeTwice | rref/helpers/mm.py:67-69 | transposing a rectangular matrix with a column twice gives it back |
| Matrices.InverseRows | rref/helpers/mm.py:71-73 | `inverse_rows` has as many rows as the matrix |
| Matrices.InverseRowsAt | rref/helpers/mm.py:71-73 | row i of `inverse_rows` is row n-1-i of the matrix |
| Matrices.InverseColumns | rref/helpers/mm.py:75-77 | `inverse_columns` has as many rows as the matrix |
| Matrices.InverseColumnsAt | rref/helpers/mm.py:75-77 | every row keeps its length, and cell (i, j) is cell (i, w-1-j) of the matrix, w being that row's length |
| Matrices.InverseRowsInvolution | rref/helpers/mm.py:71-73 | `inverse_rows` keeps the shape and undoes itself |
| Matrices.InverseColumnsInvolution | rref/helpers/mm.py:75-77 | `inverse_columns` keeps the shape and undoes itself |
| Matrices.Flip | rref/helpers/mm.py:79-81 | the flipped matrix has as many rows, row i as long as row n-1-i of the original |
| Matrices.FlipAt | rref/helpers/mm.py:79-81 | flipping keeps the shape and cell (i, j) is cell (n-1-i, w-1-j) |
| Matrices.FlipInvolution | rref/helpers/mm.py:79-81 | flipping twice gives back any matrix, as the docstring says |
| Matrices.QuarterRotate | rref/helpers/mm.py:83-87 | a quarter turn of an n×w matrix, in either direction, is w×n |
| Matrices.RotateCounterclockwiseAt | rref/helpers/mm.py:83-87 | a `'CCW'` turn of an n×w matrix is w×n with cell (i, j) = cell (j, w-1-i) |
| Matrices.RotateClockwiseAt | rref/helpers/mm.py:83-87 | any other direction gives a w×n matrix with cell (i, j) = cell (n-1-j, i) |
| Matrices.QuarterRotateAt | rref/helpers/mm.py:83-87 | the two cases above, chosen by whether the direction is `'CCW'` |
| Matrices.QuarterRotateUndo | rref/helpers/mm.py:83-87 | a clockwise quarter turn followed by a counterclockwise one gives back the matrix |
| Matrices.RotateExamples | rref/helpers/mm.py:67-87 | on [[1,2],[3,4]]: the transpose is [[1,3],[2,4]] and the clockwise turn is [[3,1],[4,2]] |
| Matrices.GetRow | rref/helpers/mm.py:89-92 | `get_row` has as many entries as the first row |
| Matrices.GetRowIsRow | rref/helpers/mm.py:89-92 | in a rectangular matrix `get_row(k)` is row k, and so is `get_row(k - n)` |
| Matrices.GetColumn | rref/helpers/mm.py:94-97 | `get_column` has one entry per row |
| Matrices.GetColumnIsTransposedRow | rref/helpers/mm.py:94-97 | `get_column(c)` is row c of the transpose |
| Matrices.Unravel | rref/helpers/mm.py:62-65 | a value occurs in the flattened list exactly when it occurs in some row |
| Matrices.UnravelLength | rref/helpers/mm.py:62-65 | unravelling n rows of w cells gives n·w values |
| Matrices.UnravelCell | rref/helpers/mm.py:62-65 | cell (i, j) is value i·w + j of the flattened list, with i·w as repeated addition |
| Matrices.UnravelAt | rref/helpers/mm.py:62-65 | unravelling n rows of w cells gives n·w values with cell (i, j) at position i·w + j |
| Matrices.SvProduct | rref/helpers/mm.py:99-106 | the product has the vector's length and entry i is scalar·vector[i] |
| Matrices.SvProductExample | rref/helpers/mm.py:102-104 | `sv_product(-2, [1,2,3,4]) == [-2,-4,-6,-8]` |
| Matrices.SvProductCompose | rref/helpers/mm.py:99-106 | scaling by b then by a is scaling by a·b |
| Matrices.RowSum | rref/helpers/mm.py:108-115 | `ROW_SUM` (through `zip`) is as long as the shorter vector, and each entry is the sum of the two entries in that position |
| Matrices.RowSumCommutes | rref/helpers/mm.py:108-115 | `ROW_SUM` does not depend on the order of its arguments |
| Matrices.RowSumCancels | rref/helpers/mm.py:108-115 | a vector plus its `sv_product` by -1 is all zeros |
| Matrices.NoNegatives | rref/helpers/mm.py:117-126 | the result has as many rows as the matrix, each as long as the first row |
| Matrices.NoNegativesRows | rref/helpers/mm.py:117-126 | a row with a negative first entry is replaced by its negation; every other row is kept; the shape is kept |
| Matrices.NoNegativesFirstColumn | rref/helpers/mm.py:117-126 | the first column of the result has no negative entry |
| Matrices.NoNegativesIdempotent | rref/helpers/mm.py:117-126 | applying `no_negatives` twice is applying it once |
| Matrices.RoundMatrix | rref/helpers/mm.py:132-133 | the rounded matrix has as many rows as the matrix, each as long as the first row |
| Matrices.RoundMatrixWhole | rref/helpers/mm.py:132-133 | a matrix of whole numbers is unchanged by rounding |
| Matrices.RoundMatrixTenths | rref/helpers/mm.py:128-133 | rounding to one place leaves every cell a whole number of tenths |
| RowSort.SortRows | rref/helpers/mm.py:57-60 | the sorted rows are a permutation of the rows (same multiset) |
| RowSort.Insert | rref/helpers/mm.py:57-60 | inserting one keyed row into keyed rows gives one more row, all keyed |
| RowSort.InsertMultiset | rref/helpers/mm.py:57-60 | inserting a row adds exactly one copy of it |
| RowSort.InsertOrdered | rref/helpers/mm.py:57-60 | inserting into ordered rows keeps them ordered |
| RowSort.SortRowsOrdered | rref/helpers/mm.py:57-60 | no row of the result has a strictly larger first entry (descending) or strictly smaller one (ascending) than an earlier row |
| RowSort.InsertWithKey | rref/helpers/mm.py:57-60 | inserting a row changes only its own key's rows, and puts it in front of them (the earlier input row is inserted last, which gives stability) |
| RowSort.SortRowsStable | rref/helpers/mm.py:57-60 | the rows with any given first entry keep their original relative order (stability) |
| MatrixState.MatrixMadness.constructor | rref/helpers/mm.py:23-25 | the object holds the given matrix |
| MatrixState.MatrixMadness.SetBasicMeasures | rref/helpers/mm.py:30-33 | `len` and `row_len` become the row count and `col_len` the first row's length; the matrix is unchanged |
| MatrixState.MatrixMadness.UpdateMatrix | rref/helpers/mm.py:35-37 | the object holds the new matrix and its measures |
| MatrixState.MatrixMadness.SortIt | rref/helpers/mm.py:57-60 | the held matrix becomes the stable sort of the old one, as a permutation, ordered by first entry and with ties in their old order; the measures are refreshed |
| MatrixState.MatrixMadness.RoundMatrixValues | rref/helpers/mm.py:128-137 | every cell of the given (or held) matrix is rounded; in place the result is held and measured and nothing is returned; otherwise the result is returned and the object is unchanged |
| Elimination.CombineRow | rref/main.py:81-92 | the combined row is as long as the base row |
| Elimination.EliminateCell | rref/main.py:58-92 | one cell of step 1 keeps the shape and writes no row but r |
| Elimination.EliminateRow | rref/main.py:54-92 | step 1 on row r keeps the shape and writes no other row |
| Elimination.EliminateFrom | rref/main.py:53-92 | step 1's row loop keeps the shape and never writes the rows above its first row (row 0 in particular) |
| Elimination.Step1Spec | rref/main.py:40-92 | step 1 is `no_negatives` then the row loop from row 1; a result keeps the shape |
| Elimination.EliminateCellCases | rref/main.py:61-92 | the base is M[r-1][r-1], or M[r-1][r] when that is 0; a lookup past the row raises IndexError; a zero target leaves the matrix unchanged; a zero base with a nonzero target raises ZeroDivisionError; a nonzero base with a nonzero target always succeeds, and then cell c becomes 0 and every other cell k becomes M[r][k] - (target/base)·M[r-1][k] |
| Elimination.EliminateCellClears | rref/main.py:76-92 | given zeros left of the diagonal in row r-1, one cell of step 1 zeroes column c of row r and keeps the zeros before it |
| Elimination.EliminateRowClears | rref/main.py:54-92 | after step 1 on row r, row r is 0 left of column r |
| Elimination.EliminateFromClears | rref/main.py:53-92 | the row loop extends the zero lower triangle to every row |
| Elimination.Step1ClearsLowerTriangle | rref/main.py:40-92 | after step 1 the shape is unchanged and every cell (r, c) with c < r is exactly 0 |
| Elimination.Step1FirstColumn | rref/main.py:50-92 | after step 1, row 0 is row 0 of `no_negatives(M)` and the first column has no negative entry |
| Elimination.Step1TooTall | rref/main.py:53-65 | with at least one column and at least two more rows than columns, step 1 raises |
| Elimination.LeadIndex | rref/main.py:104-124 | the first nonzero entry's position: every cell before it is 0, and it is nonzero unless it is the row's length |
| Elimination.NormalizeRow | rref/main.py:104-133 | a row keeps its length under step 2: left alone when all zero, else every cell divided by the first nonzero entry |
| Elimination.NormalizeRowLeadingOne | rref/main.py:104-133 | in a row with a nonzero entry, step 2 keeps the first nonzero entry where it is and makes it 1 |
| Elimination.NormalizeRowCells | rref/main.py:104-133 | zero cells and all-zero rows are untouched; every nonzero cell stays nonzero and is divided by the original first nonzero entry, the same divisor for the whole row |
| Elimination.Step2Spec | rref/main.py:94-133 | step 2 normalizes every row and keeps every row's length |
| Elimination.Step2LeadingOnes | rref/main.py:94-133 | after step 2 the first nonzero entry of every row that has one is 1 |
| Elimination.Step2KeepsZeros | rref/main.py:127-133 | step 2 makes a cell 0 exactly when it was 0 |
| Elimination.ClearRow | rref/main.py:179-191 | the cleared row is as long as the base row |
| Elimination.ClearBelow | rref/main.py:171-191 | clearing below a pivot keeps the shape and writes no row above the one it starts at |
| Elimination.ScanRow | rref/main.py:159-191 | scanning row r keeps the shape and writes none of rows 0..r |
| Elimination.ClearFrom | rref/main.py:158-191 | step 3's loop over every row but the last; a result keeps the shape |
| Elimination.Step3Spec | rref/main.py:135-191 | step 3 is `flip_matrix` then that loop from row 0; a result keeps the shape |
| Elimination.ClearBelowClears | rref/main.py:171-191 | with a 1 in the base row's column c, every row from j down ends with 0 in column c |
| Elimination.PivotClearsColumn | rref/main.py:165-191 | right after the pivot (r, c): rows 0..r, the base row among them, are unchanged and column c is 0 in every later row |
| Elimination.ScanRowFault | rref/main.py:158-165 | scanning a row raises, and then always IndexError, exactly when its last cell is 1 |
| Elimination.ClearFromSucceeds | rref/main.py:158-191 | when every row but the last ends in 0, step 3's loops never raise |
| Elimination.Step3Succeeds | rref/main.py:135-191 | step 3 never raises on a matrix whose first column is 0 below row 0 |
| Elimination.SortedInput | rref/helpers/mm.py:57-60 | the rows sorted largest first keep the n×w shape |
| Elimination.Reduce | rref/main.py:200-205 | steps 1, 2 and 3 in turn on the sorted rows; a result keeps the shape |
| Elimination.Finish | rref/main.py:206-207 | flipping back and rounding to one place keep the shape and leave every cell a whole number of tenths |
| Elimination.RunSpec | rref/main.py:193-207 | an empty matrix or empty rows raise IndexError; a result has the input's shape and every cell is a whole number of tenths |
| Elimination.RunFaultsOnlyInStep1 | rref/main.py:193-207 | `run` raises exactly when step 1 raises on the sorted rows: step 3 can never raise after steps 1 and 2 |
| Elimination.RunTooTall | rref/main.py:193-207 | with at least one column and at least two more rows than columns, `run` raises |
| Elimination.ExampleStep1 | rref/main.py:40-92 | step 1 on [[2,1,8],[1,1,5]] gives [[2,1,8],[0,0.5,1]] |
| Elimination.ExampleStep2 | rref/main.py:94-133 | step 2 on that gives [[1,0.5,4],[0,1,2]] |
| Elimination.ExampleStep3 | rref/main.py:135-191 | step 3 on that flips to [[2,1,0],[4,0.5,1]] and clears below the pivot (0, 1), giving [[2,1,0],[3,0,1]] |
| Elimination.ExampleSorted | rref/helpers/mm.py:57-60 | sorting [[2,1,8],[1,1,5]] by first entry, largest first, keeps it as it is |
| Elimination.ExampleReduce | rref/main.py:200-205 | the three steps on the sorted rows give [[2,1,0],[3,0,1]] |
| Elimination.ExampleFinish | rref/main.py:206-207 | flipping back and rounding gives [[1,0,3],[0,1,2]] |
| Elimination.RunExample | rref/main.py:193-207 | `run` on [[2,1,8],[1,1,5]] (2x + y = 8, x + y = 5) gives [[1,0,3],[0,1,2]]: x = 3, y = 2 |
| Engine.Rref.constructor | rref/main.py:34-35 | the engine owns a new `MatrixMadness` holding the matrix |
| Engine.Rref.Step1 | rref/main.py:40-92 | the in-place loops leave `Step1Spec` of the old matrix, or raise exactly its fault; the shape and measures are kept |
| Engine.Rref.EliminateRowAt | rref/main.py:54-92 | the column loop for row r leaves `EliminateRow`, or raises exactly its fault |
| Engine.Rref.AddScaledRow | rref/main.py:81-92 | the ENUM loop adds factor times row r-1 into row r and forces cell c to 0, and changes no other row |
| Engine.Rref.Step2 | rref/main.py:94-133 | the in-place loops, with `count` and `divisor`, leave `Step2Spec` of the old matrix |
| Engine.Rref.Step3 | rref/main.py:135-191 | the flip and the in-place loops leave `Step3Spec` of the old matrix, or raise exactly its fault |
| Engine.Rref.ScanRowAt | rref/main.py:159-191 | the column loop for row r leaves `ScanRow`, or raises exactly its fault |
| Engine.Rref.ClearBelowAt | rref/main.py:165-191 | the loop over later rows, with `base_row`, leaves `ClearBelow` |
| Engine.Rref.AddNonzeroProducts | rref/main.py:179-191 | the ENUM loop adds the nonzero cells of factor times the base row into row j, and changes no other row |
| Engine.Rref.Run | rref/main.py:193-207 | sort, the three steps, flip and in-place rounding leave `RunSpec` of the old matrix, measured, or raise exactly its fault |

## Left out

- Floating point: cells are exact reals. The rounding drift that IEEE doubles would add to steps 1 to 3 and to `ROUND` is not modelled.
- Python's `sorted` algorithm (Timsort) is replaced by an insertion sort. Only its result is modelled: the stable order.
- `creatrix`: random numbers and a console message.
- `print_matrix` and `print_matrix_csv`: console output.
- `MathClass.ROUNDUP`, `ROUNDDOWN` and `__decimal_len`: they depend on `str()` formatting of floats.
- `cls_property`: property descriptors and reflection.
- The console message printed by `RANGE` for a zero increment. Only the fact that nothing is yielded is kept.
- Generator laziness: `RANGE`, `ENUM` and `ROW_SUM` return whole sequences.
- `RANGE`, `ROUND` and `get_row`/`get_column` with arguments that are not integers (Python would accept floats or raise TypeError).
- `__repr__` of both classes.
- rref/test/rref_test.py and setup.py: a demonstration script and packaging.
- Engine.Rref.Run: a ragged input matrix is excluded by precondition. In Python a row shorter than the first raises IndexError inside `no_negatives`, and longer rows are cut to the first row's length.
- Elimination.RunSpec: a ragged input matrix is excluded by precondition, as for `Step1Spec` and `Step3Spec`. Python would raise IndexError inside `no_negatives` for a row shorter than the first and cut longer rows to its length.
- Engine.Rref.Step1: after a raised error the partly updated matrix is not described. Only its shape and measures are.
- Engine.Rref.Step3: after a raised error the partly updated matrix is not described. Only its shape and measures are.
- Engine.Rref.Step1: the steps require the measures to describe the held matrix, as `run` arranges through `sort_it`. Called on their own in Python, the steps would use stale measures.
- Elimination.PivotClearsColumn: holds right after each pivot is processed. A later pivot in the same row may write the earlier pivot's column again, so the zeros are not claimed for the end of step 3.
- Elimination.RunSpec: no claim that the result is a true reduced row echelon form or row-equivalent to the input. Step 1 always divides by the diagonal base of row r-1, whatever column it clears, so the result is not row-equivalent in general.
- Matrices.Transpose: an index past the end of a row (IndexError) is excluded by precondition rather than modelled as an error.
- Matrices.GetRow: an index out of range is excluded by precondition rather than modelled as an error.
- Matrices.GetColumn: an index out of range is excluded by precondition rather than modelled as an error.
- Matrices.NoNegatives: a row shorter than the first row (IndexError) is excluded by precondition.
- Matrices.RoundMatrix: a row shorter than the first row (IndexError) is excluded by precondition.
- MatrixState.MatrixMadness.SetBasicMeasures: an empty matrix (IndexError on `matrix[0]`) is excluded by precondition.
- MatrixState.MatrixMadness.UpdateMatrix: an empty matrix is excluded by precondition; Python raises IndexError in `__set_basic_measures`.
- MatrixState.MatrixMadness.SortIt: an empty held matrix is excluded by precondition; Python raises IndexError in `__set_basic_measures` after sorting.
- MatrixState.MatrixMadness.RoundMatrixValues: in place, an empty matrix is excluded by precondition; Python raises IndexError in `__set_basic_measures`.
- MatrixState.MatrixMadness.SortIt: an empty row (IndexError in the sort key) is excluded by precondition. `Engine.Rref.Run` raises for it instead.
- MatrixState.MatrixMadness.constructor: the `MathClass` instance it creates is not modelled. `ROUND` is a plain function here.
- The measures `len`, `row_len` and `col_len` do not exist in Python until `update_matrix` runs. Here they start at 0.
- Aliasing of row lists is not modelled. Rows are values, so each in-place cell update writes exactly one row. In the source, `no_negatives` and `flip_matrix` build fresh rows before any cell is written, so none is shared.
