/** The pure helpers of MatrixMadness in rref/helpers/mm.py: matrices are lists of rows of reals. */
module Matrices {
  import opened Results
  import opened Maths

  type Row = seq<real>
  type Matrix = seq<Row>

  /** The matrix has n rows of w cells each. */
  predicate HasShape(m: Matrix, n: nat, w: nat) {
    |m| == n && forall i :: 0 <= i < n ==> |m[i]| == w
  }

  /** At least one row, and every row as long as the first. */
  predicate Rectangular(m: Matrix) {
    |m| > 0 && HasShape(m, |m|, |m[0]|)
  }

  /**
   * Every row is at least as long as the first, so that the comprehensions
   * over RANGE(LEN(matrix[0])) can index each row.
   */
  predicate Reaches(m: Matrix) {
    forall i :: 0 <= i < |m| ==> |m[i]| >= |m[0]|
  }

  /** Python's index rule: a negative index counts from the end. */
  function PyIndex(i: int, n: nat): int {
    if i < 0 then i + n else i
  }

  /** transpose: row i of the result is column i of the matrix. */
  function Transpose(m: Matrix): (t: Matrix)
    requires |m| > 0 && Reaches(m)
    ensures HasShape(t, |m[0]|, |m|)
    ensures forall i, j :: 0 <= i < |m[0]| && 0 <= j < |m| ==> t[i][j] == m[j][i]
  {
    seq(|m[0]|, i requires 0 <= i < |m[0]| => seq(|m|, j requires 0 <= j < |m| => m[j][i]))
  }

  /** Transposing a rectangular matrix with at least one column twice gives it back. */
  lemma TransposeTwice(m: Matrix)
    requires Rectangular(m) && |m[0]| > 0
    ensures Transpose(Transpose(m)) == m
  {
    var t := Transpose(Transpose(m));
    assert |t| == |m|;
    forall i | 0 <= i < |m| ensures t[i] == m[i] {
      assert |t[i]| == |m[i]|;
    }
  }

  /** A sequence read back to front, as the slice `s[::-1]`. */
  function Reverse<T>(s: seq<T>): (r: seq<T>)
    ensures |r| == |s|
  {
    seq(|s|, i requires 0 <= i < |s| => s[|s| - 1 - i])
  }

  lemma ReverseTwice<T>(s: seq<T>)
    ensures Reverse(Reverse(s)) == s
  {
    var r := Reverse(Reverse(s));
    forall i | 0 <= i < |s| ensures r[i] == s[i] {
      assert r[i] == Reverse(s)[|s| - 1 - i];
    }
  }

  /** inverse_rows: the rows in reverse order. */
  function InverseRows(m: Matrix): (r: Matrix)
    ensures |r| == |m|
  {
    Reverse(m)
  }

  /** inverse_columns: every row read back to front. */
  function InverseColumns(m: Matrix): (r: Matrix)
    ensures |r| == |m|
  {
    seq(|m|, i requires 0 <= i < |m| => Reverse(m[i]))
  }

  /** Row i of inverse_rows is row n-1-i of the matrix. */
  lemma InverseRowsAt(m: Matrix)
    ensures var r := InverseRows(m);
      |r| == |m| && forall i :: 0 <= i < |m| ==> r[i] == m[|m| - 1 - i]
  {
  }

  /** Cell (i, j) of inverse_columns is cell (i, w-1-j) of the matrix, w being row i's length. */
  lemma InverseColumnsAt(m: Matrix)
    ensures var r := InverseColumns(m);
      (forall i :: 0 <= i < |m| ==> |r[i]| == |m[i]|) &&
      forall i, j :: 0 <= i < |m| && 0 <= j < |m[i]| ==> r[i][j] == m[i][|m[i]| - 1 - j]
  {
  }

  /** inverse_rows keeps the shape and undoes itself. */
  lemma InverseRowsInvolution(m: Matrix, n: nat, w: nat)
    requires HasShape(m, n, w)
    ensures HasShape(InverseRows(m), n, w) && InverseRows(InverseRows(m)) == m
  {
    ReverseTwice(m);
  }

  /** inverse_columns keeps the shape and undoes itself. */
  lemma InverseColumnsInvolution(m: Matrix, n: nat, w: nat)
    requires HasShape(m, n, w)
    ensures HasShape(InverseColumns(m), n, w) && InverseColumns(InverseColumns(m)) == m
  {
    var r := InverseColumns(InverseColumns(m));
    forall i | 0 <= i < n ensures r[i] == m[i] {
      ReverseTwice(m[i]);
    }
  }

  /** flip_matrix: both orders reversed, a half turn of the matrix. */
  function Flip(m: Matrix): (r: Matrix)
    ensures |r| == |m| && forall i :: 0 <= i < |m| ==> |r[i]| == |m[|m| - 1 - i]|
  {
    var c := InverseColumns(m);
    assert forall i :: 0 <= i < |m| ==> Reverse(c)[i] == c[|m| - 1 - i];
    InverseRows(c)
  }

  /** Cell (i, j) of the flipped matrix is cell (n-1-i, w-1-j) of the original. */
  lemma FlipAt(m: Matrix, n: nat, w: nat)
    requires HasShape(m, n, w)
    ensures HasShape(Flip(m), n, w)
    ensures forall i, j :: 0 <= i < n && 0 <= j < w ==> Flip(m)[i][j] == m[n - 1 - i][w - 1 - j]
  {
    var c, f := InverseColumns(m), Flip(m);
    forall i | 0 <= i < n ensures f[i] == Reverse(m[n - 1 - i]) {
      assert f[i] == c[n - 1 - i];
    }
  }

  /** Flipping twice gives back the original matrix, as the docstring says, whatever its shape. */
  lemma FlipInvolution(m: Matrix)
    ensures Flip(Flip(m)) == m
  {
    var c := InverseColumns(m);
    var f := Flip(m);
    var g := Flip(f);
    assert |g| == |m|;
    forall i | 0 <= i < |m| ensures g[i] == m[i] {
      var k := |m| - 1 - i;
      assert f[k] == c[i] == Reverse(m[i]);
      assert g[i] == Reverse(f[k]);
      ReverseTwice(m[i]);
    }
  }

  /** quarter_rotate: 'CCW' reverses the rows of the transpose, any other direction reverses its columns. */
  function QuarterRotate(m: Matrix, direction: string): (r: Matrix)
    requires |m| > 0 && Reaches(m)
    ensures HasShape(r, |m[0]|, |m|)
  {
    if direction == "CCW" then InverseRows(Transpose(m)) else InverseColumns(Transpose(m))
  }

  /** Counterclockwise, cell (i, j) of the result is cell (j, w-1-i). */
  lemma RotateCounterclockwiseAt(m: Matrix)
    requires Rectangular(m)
    ensures var n, w, r := |m|, |m[0]|, InverseRows(Transpose(m));
      HasShape(r, w, n) && forall i, j :: 0 <= i < w && 0 <= j < n ==> r[i][j] == m[j][w - 1 - i]
  {
    var n, w := |m|, |m[0]|;
    var t := Transpose(m);
    var r := InverseRows(t);
    forall i | 0 <= i < w ensures r[i] == t[w - 1 - i] {
    }
  }

  /** Clockwise, cell (i, j) of the result is cell (n-1-j, i). */
  lemma RotateClockwiseAt(m: Matrix)
    requires Rectangular(m)
    ensures var n, w, r := |m|, |m[0]|, InverseColumns(Transpose(m));
      HasShape(r, w, n) && forall i, j :: 0 <= i < w && 0 <= j < n ==> r[i][j] == m[n - 1 - j][i]
  {
    var n, w := |m|, |m[0]|;
    var t := Transpose(m);
    var r := InverseColumns(t);
    forall i | 0 <= i < w ensures r[i] == Reverse(t[i]) {
    }
  }

  /** Clockwise, cell (i, j) of the result is cell (n-1-j, i); counterclockwise it is cell (j, w-1-i). */
  lemma QuarterRotateAt(m: Matrix, direction: string)
    requires Rectangular(m)
    ensures var n, w, r := |m|, |m[0]|, QuarterRotate(m, direction);
      HasShape(r, w, n) &&
      forall i, j :: 0 <= i < w && 0 <= j < n ==>
        r[i][j] == if direction == "CCW" then m[j][w - 1 - i] else m[n - 1 - j][i]
  {
    if direction == "CCW" {
      RotateCounterclockwiseAt(m);
    } else {
      RotateClockwiseAt(m);
    }
  }

  /** A clockwise quarter turn followed by a counterclockwise one gives back the matrix. */
  lemma QuarterRotateUndo(m: Matrix)
    requires Rectangular(m) && |m[0]| > 0
    ensures var r := QuarterRotate(m, "CW"); |r| > 0 && Reaches(r) && QuarterRotate(r, "CCW") == m
  {
    var n, w := |m|, |m[0]|;
    QuarterRotateAt(m, "CW");
    var r := QuarterRotate(m, "CW");
    QuarterRotateAt(r, "CCW");
    var b := QuarterRotate(r, "CCW");
    assert HasShape(b, n, w);
    forall i | 0 <= i < n ensures b[i] == m[i] {
      forall j | 0 <= j < w ensures b[i][j] == m[i][j] {
        assert b[i][j] == r[j][n - 1 - i];
      }
    }
  }

  /** The examples of transpose and a clockwise quarter turn on [[1, 2], [3, 4]]. */
  lemma RotateExamples()
    ensures Transpose([[1.0, 2.0], [3.0, 4.0]]) == [[1.0, 3.0], [2.0, 4.0]]
    ensures QuarterRotate([[1.0, 2.0], [3.0, 4.0]], "CW") == [[3.0, 1.0], [4.0, 2.0]]
  {
    var m := [[1.0, 2.0], [3.0, 4.0]];
    var t := Transpose(m);
    assert t[0] == [1.0, 3.0] && t[1] == [2.0, 4.0];
    QuarterRotateAt(m, "CW");
    var r := QuarterRotate(m, "CW");
    assert r[0] == [3.0, 1.0];
    assert r[1] == [4.0, 2.0];
  }

  /** get_row: the entries of a row, as many as the first row has; a negative index counts from the end. */
  function GetRow(rowIndex: int, m: Matrix): (r: Row)
    requires -|m| <= rowIndex < |m| && |m[PyIndex(rowIndex, |m|)]| >= |m[0]|
    ensures |r| == |m[0]|
  {
    seq(|m[0]|, i requires 0 <= i < |m[0]| => m[PyIndex(rowIndex, |m|)][i])
  }

  /** get_column: one entry from every row; a negative index counts from the end of each row. */
  function GetColumn(columnIndex: int, m: Matrix): (r: Row)
    requires forall i :: 0 <= i < |m| ==> -|m[i]| <= columnIndex < |m[i]|
    ensures |r| == |m|
  {
    seq(|m|, i requires 0 <= i < |m| => m[i][PyIndex(columnIndex, |m[i]|)])
  }

  /** In a rectangular matrix get_row(k) is row k, and get_row(k - n) is the same row. */
  lemma GetRowIsRow(m: Matrix, k: nat)
    requires Rectangular(m) && k < |m|
    ensures GetRow(k, m) == m[k] && GetRow(k - |m|, m) == m[k]
  {
    assert |GetRow(k, m)| == |m[k]|;
    assert |GetRow(k - |m|, m)| == |m[k]|;
  }

  /** get_column(c) is row c of the transpose. */
  lemma GetColumnIsTransposedRow(m: Matrix, c: nat)
    requires Rectangular(m) && c < |m[0]|
    ensures GetColumn(c, m) == GetRow(c, Transpose(m))
  {
    var t := Transpose(m);
    assert |GetRow(c, t)| == |m|;
  }

  /** unravel: the rows one after another. */
  function Unravel(m: Matrix): (r: seq<real>)
    ensures forall x :: x in r <==> exists i :: 0 <= i < |m| && x in m[i]
  {
    if m == [] then [] else m[0] + Unravel(m[1..])
  }

  /** i * w written as repeated addition, so that the proofs below stay linear. */
  function Offset(i: nat, w: nat): nat
  {
    if i == 0 then 0 else Offset(i - 1, w) + w
  }

  lemma {:induction false} OffsetIsProduct(i: nat, w: nat)
    ensures Offset(i, w) == i * w
  {
    if i > 0 {
      OffsetIsProduct(i - 1, w);
      assert (i - 1) * w + w == i * w;
    }
  }

  /** Unravelling n rows of w cells gives Offset(n, w) values. */
  lemma {:induction false} UnravelLength(m: Matrix, n: nat, w: nat)
    requires HasShape(m, n, w)
    ensures |Unravel(m)| == Offset(n, w)
  {
    if n > 0 {
      UnravelLength(m[1..], n - 1, w);
    }
  }

  /** Cell (i, j) of n rows of w cells is value Offset(i, w) + j of the unravelled rows. */
  lemma {:induction false} UnravelCell(m: Matrix, n: nat, w: nat, i: nat, j: nat)
    requires HasShape(m, n, w) && i < n && j < w
    ensures Offset(i, w) + j < |Unravel(m)| && Unravel(m)[Offset(i, w) + j] == m[i][j]
  {
    var u, tail := Unravel(m), Unravel(m[1..]);
    assert u == m[0] + tail;
    if i > 0 {
      UnravelCell(m[1..], n - 1, w, i - 1, j);
      assert u[Offset(i, w) + j] == tail[Offset(i - 1, w) + j];
    }
  }

  /** Unravelling n rows of w cells gives n * w values, cell (i, j) at position i * w + j. */
  lemma UnravelAt(m: Matrix, n: nat, w: nat, i: nat, j: nat)
    requires HasShape(m, n, w) && i < n && j < w
    ensures |Unravel(m)| == n * w && i * w + j < n * w && Unravel(m)[i * w + j] == m[i][j]
  {
    UnravelLength(m, n, w);
    UnravelCell(m, n, w, i, j);
    OffsetIsProduct(n, w);
    OffsetIsProduct(i, w);
  }

  /** sv_product: every element of the vector multiplied by the scalar. */
  function SvProduct(scalar: real, vector: Row): (r: Row)
    ensures |r| == |vector|
    ensures forall i :: 0 <= i < |vector| ==> r[i] == scalar * vector[i]
  {
    seq(|vector|, i requires 0 <= i < |vector| => scalar * vector[i])
  }

  /** The docstring example: sv_product(-2, [1, 2, 3, 4]) is [-2, -4, -6, -8]. */
  lemma SvProductExample()
    ensures SvProduct(-2.0, [1.0, 2.0, 3.0, 4.0]) == [-2.0, -4.0, -6.0, -8.0]
  {
  }

  /** Scaling by b and then by a is scaling by a * b. */
  lemma SvProductCompose(a: real, b: real, v: Row)
    ensures SvProduct(a, SvProduct(b, v)) == SvProduct(a * b, v)
  {
    forall i | 0 <= i < |v| ensures SvProduct(a, SvProduct(b, v))[i] == SvProduct(a * b, v)[i] {
      assert a * (b * v[i]) == (a * b) * v[i];
    }
  }

  /** ROW_SUM: the sums of the entries in the same position, as long as the shorter vector (zip). */
  function RowSum(v1: Row, v2: Row): (r: Row)
    ensures |r| == Min(|v1|, |v2|)
    ensures forall i :: 0 <= i < |r| ==> r[i] == v1[i] + v2[i]
  {
    seq(Min(|v1|, |v2|), i requires 0 <= i < Min(|v1|, |v2|) => v1[i] + v2[i])
  }

  /** ROW_SUM does not depend on the order of its arguments. */
  lemma RowSumCommutes(v1: Row, v2: Row)
    ensures RowSum(v1, v2) == RowSum(v2, v1)
  {
  }

  /** Adding the negated vector to a vector gives all zeros. */
  lemma RowSumCancels(v: Row)
    ensures RowSum(v, SvProduct(-1.0, v)) == seq(|v|, _ => 0.0)
  {
  }

  /** no_negatives: every row whose first entry is negative is negated, the others are kept. */
  function NoNegatives(m: Matrix): (r: Matrix)
    requires Reaches(m)
    ensures |r| == |m| && forall i :: 0 <= i < |m| ==> |r[i]| == |m[0]|
  {
    seq(|m|, i requires 0 <= i < |m| =>
      seq(|m[0]|, j requires 0 <= j < |m[0]| => if m[i][0] < 0.0 then m[i][j] * -1.0 else m[i][j]))
  }

  /** In a rectangular matrix no_negatives keeps the shape and replaces exactly the rows with a negative first entry by their negation. */
  lemma NoNegativesRows(m: Matrix)
    requires Rectangular(m) && |m[0]| > 0
    ensures var r := NoNegatives(m);
      HasShape(r, |m|, |m[0]|) &&
      forall i :: 0 <= i < |m| ==> r[i] == if m[i][0] < 0.0 then SvProduct(-1.0, m[i]) else m[i]
  {
    var r := NoNegatives(m);
    forall i | 0 <= i < |m|
      ensures r[i] == if m[i][0] < 0.0 then SvProduct(-1.0, m[i]) else m[i]
    {
      assert |r[i]| == |m[i]|;
    }
  }

  /** After no_negatives the first column has no negative entry. */
  lemma NoNegativesFirstColumn(m: Matrix)
    requires Reaches(m) && |m| > 0 && |m[0]| > 0
    ensures forall i :: 0 <= i < |m| ==> NoNegatives(m)[i][0] >= 0.0
  {
  }

  /** no_negatives is idempotent on rectangular matrices. */
  lemma NoNegativesIdempotent(m: Matrix)
    requires Rectangular(m)
    ensures Reaches(NoNegatives(m)) && NoNegatives(NoNegatives(m)) == NoNegatives(m)
  {
    var r := NoNegatives(m);
    var s := NoNegatives(r);
    forall i | 0 <= i < |m| ensures s[i] == r[i] {
      assert |s[i]| == |r[i]|;
    }
  }

  /** The matrix built by round_matrix_values: ROUND applied to every cell. */
  function RoundMatrix(m: Matrix, places: Option<int>): (r: Matrix)
    requires Reaches(m)
    ensures |r| == |m| && forall i :: 0 <= i < |m| ==> |r[i]| == |m[0]|
  {
    seq(|m|, i requires 0 <= i < |m| =>
      seq(|m[0]|, j requires 0 <= j < |m[0]| => Round(m[i][j], places)))
  }

  /** A matrix of whole numbers comes back from rounding unchanged. */
  lemma RoundMatrixWhole(m: Matrix, places: Option<int>)
    requires Rectangular(m)
    requires forall i, j :: 0 <= i < |m| && 0 <= j < |m[i]| ==> IsWhole(m[i][j])
    ensures RoundMatrix(m, places) == m
  {
    var r := RoundMatrix(m, places);
    forall i | 0 <= i < |m| ensures r[i] == m[i] {
      forall j | 0 <= j < |m[i]| ensures r[i][j] == m[i][j] {
        RoundWhole(m[i][j], places);
      }
    }
  }

  /** Rounding to one place leaves every cell a whole number of tenths. */
  lemma RoundMatrixTenths(m: Matrix)
    requires Reaches(m)
    ensures var r := RoundMatrix(m, Some(1));
      forall i, j :: 0 <= i < |r| && 0 <= j < |r[i]| ==> IsWhole(r[i][j] * 10.0)
  {
    var r := RoundMatrix(m, Some(1));
    forall i, j | 0 <= i < |r| && 0 <= j < |r[i]| ensures IsWhole(r[i][j] * 10.0) {
      RoundToTenths(m[i][j]);
    }
  }
}
