/** The stateful part of MatrixMadness in rref/helpers/mm.py: the matrix it holds and its measures. */
module MatrixState {
  import opened Results
  import opened Matrices
  import opened RowSort

  class MatrixMadness {
    var matrix: Matrix
    var len: int
    var rowLen: int
    var colLen: int

    /** The measures describe the current matrix, as update_matrix leaves them. */
    ghost predicate Measured()
      reads this
    {
      |matrix| > 0 && len == rowLen == |matrix| && colLen == |matrix[0]|
    }

    /** The source sets the measures only in update_matrix; until then they stay 0 here. */
    constructor (m: Matrix)
      ensures matrix == m && len == rowLen == colLen == 0
    {
      matrix := m;
      len, rowLen, colLen := 0, 0, 0;
    }

    /** __set_basic_measures: the number of rows (twice) and the length of the first row. */
    method SetBasicMeasures()
      requires |matrix| > 0
      modifies this
      ensures matrix == old(matrix) && Measured()
    {
      len := |matrix|;
      rowLen := |matrix|;
      colLen := |matrix[0]|;
    }

    /** update_matrix: hold m and measure it; an empty m raises (it has no first row). */
    method UpdateMatrix(m: Matrix)
      requires |m| > 0
      modifies this
      ensures matrix == m && Measured()
    {
      matrix := m;
      SetBasicMeasures();
    }

    /** sort_it: the rows stably sorted by first entry, then measured. */
    method SortIt(descending: bool)
      requires |matrix| > 0 && Keyed(matrix)
      modifies this
      ensures matrix == SortRows(old(matrix), descending) && Measured()
      ensures |matrix| == old(|matrix|) && multiset(matrix) == old(multiset(matrix))
      ensures Ordered(matrix, descending)
      ensures forall k :: WithKey(matrix, k) == WithKey(old(matrix), k)
    {
      var sorted := SortRows(matrix, descending);
      SortRowsOrdered(matrix, descending);
      forall k ensures WithKey(sorted, k) == WithKey(matrix, k) {
        SortRowsStable(matrix, descending, k);
      }
      UpdateMatrix(sorted);
    }

    /**
     * round_matrix_values: ROUND every cell of `source` (the held matrix when
     * None). In place it holds and measures the result and returns None;
     * otherwise it returns the result and changes nothing.
     */
    method RoundMatrixValues(source: Option<Matrix>, nPlaces: Option<int>, inplace: bool)
      returns (result: Option<Matrix>)
      requires Reaches(source.GetOr(matrix))
      requires inplace ==> |source.GetOr(matrix)| > 0
      modifies this
      ensures var rounded := RoundMatrix(old(source.GetOr(matrix)), nPlaces);
        if inplace then result.None? && matrix == rounded && Measured()
        else result == Some(rounded) && unchanged(this)
    {
      var m := if source.None? then matrix else source.value;
      var rounded := RoundMatrix(m, nPlaces);
      if inplace {
        UpdateMatrix(rounded);
        result := None;
      } else {
        result := Some(rounded);
      }
    }
  }
}
