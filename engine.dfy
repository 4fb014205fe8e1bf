/**
 * The RREF class of rref/main.py: it owns a MatrixMadness and reduces the
 * matrix held there in place. Each step is proved to leave exactly what the
 * functions in elimination.dfy compute, or to raise exactly where they fail.
 */
module Engine {
  import opened Results
  import opened Matrices
  import opened RowSort
  import opened Elimination
  import opened MatrixState

  class Rref {
    const mm: MatrixMadness

    constructor (m: Matrix)
      ensures fresh(mm) && mm.matrix == m
    {
      mm := new MatrixMadness(m);
    }

    /**
     * Step 1: make the first column non-negative, then for every row r from 1
     * and every column c < r add a multiple of row r-1 to row r so that cell
     * (r, c) becomes 0.
     */
    method Step1() returns (outcome: Outcome)
      requires mm.Measured() && Rectangular(mm.matrix)
      modifies mm
      ensures mm.Measured() && HasShape(mm.matrix, old(|mm.matrix|), old(|mm.matrix[0]|))
      ensures outcome.Done? ==> Step1Spec(old(mm.matrix)) == Ok(mm.matrix)
      ensures outcome.Raised? ==> Step1Spec(old(mm.matrix)) == Err(outcome.fault)
    {
      ghost var m0 := mm.matrix;
      ghost var n, w := |m0|, |m0[0]|;
      mm.matrix := NoNegatives(mm.matrix);
      var r := 1;
      while r < mm.rowLen
        invariant 1 <= r <= n
        invariant mm.Measured() && HasShape(mm.matrix, n, w)
        invariant Step1Spec(m0) == EliminateFrom(mm.matrix, r)
      {
        outcome := EliminateRowAt(r);
        if outcome.Raised? {
          return;
        }
        r := r + 1;
      }
      return Done;
    }

    /** The body of step 1's row loop for row r: every column c < r in turn. */
    method EliminateRowAt(r: nat) returns (outcome: Outcome)
      requires mm.Measured() && Rectangular(mm.matrix) && 1 <= r < |mm.matrix|
      modifies mm
      ensures mm.Measured() && HasShape(mm.matrix, old(|mm.matrix|), old(|mm.matrix[0]|))
      ensures outcome.Done? ==> EliminateRow(old(mm.matrix), r, 0) == Ok(mm.matrix)
      ensures outcome.Raised? ==> EliminateRow(old(mm.matrix), r, 0) == Err(outcome.fault)
    {
      ghost var rowStart := mm.matrix;
      ghost var n, w := |rowStart|, |rowStart[0]|;
      var c := 0;
      while c < mm.colLen
        invariant 0 <= c <= w
        invariant mm.Measured() && HasShape(mm.matrix, n, w)
        invariant EliminateRow(rowStart, r, 0) == EliminateRow(mm.matrix, r, c)
      {
        if c < r {
          if r - 1 >= |mm.matrix[r - 1]| {
            return Raised(IndexOutOfRange);
          }
          var baseValue := mm.matrix[r - 1][r - 1];
          if baseValue == 0.0 {
            if r >= |mm.matrix[r - 1]| {
              return Raised(IndexOutOfRange);
            }
            baseValue := mm.matrix[r - 1][r];
          }
          var targetValue := mm.matrix[r][c];
          if targetValue != 0.0 {
            if baseValue == 0.0 {
              return Raised(ZeroDivision);
            }
            var factor := (targetValue / baseValue) * -1.0;
            AddScaledRow(r, c, factor);
          }
        }
        c := c + 1;
      }
      return Done;
    }

    /** Step 1's ENUM loop: row r gets factor times row r-1 added, and cell c is set to 0. */
    method AddScaledRow(r: nat, c: nat, factor: real)
      requires mm.Measured() && Rectangular(mm.matrix) && 1 <= r < |mm.matrix|
      modifies mm
      ensures mm.Measured()
      ensures mm.matrix == old(mm.matrix)[r := CombineRow(old(mm.matrix[r]), old(mm.matrix[r - 1]), factor, c)]
    {
      ghost var before := mm.matrix;
      ghost var n, w := |before|, |before[0]|;
      ghost var combined := CombineRow(before[r], before[r - 1], factor, c);
      var adjusted := SvProduct(factor, mm.matrix[r - 1]);
      var k := 0;
      while k < |adjusted|
        invariant 0 <= k <= w
        invariant mm.Measured() && HasShape(mm.matrix, n, w)
        invariant mm.matrix == before[r := mm.matrix[r]]
        invariant forall t :: 0 <= t < k ==> mm.matrix[r][t] == combined[t]
        invariant forall t :: k <= t < w ==> mm.matrix[r][t] == before[r][t]
      {
        if k == c {
          mm.matrix := mm.matrix[r := mm.matrix[r][k := 0.0]];
        } else {
          mm.matrix := mm.matrix[r := mm.matrix[r][k := mm.matrix[r][k] + adjusted[k]]];
        }
        k := k + 1;
      }
      assert mm.matrix[r] == combined;
    }

    /**
     * Step 2: in every row find the first nonzero value, then divide every
     * nonzero cell of the row by it.
     */
    method Step2()
      requires mm.Measured() && Rectangular(mm.matrix)
      modifies mm
      ensures mm.Measured() && mm.matrix == Step2Spec(old(mm.matrix))
    {
      ghost var m0 := mm.matrix;
      ghost var n, w := |m0|, |m0[0]|;
      // Unbound in the source until a row with a nonzero value is met; it is
      // only read for a nonzero cell, and then this row has set it.
      var divisor := 0.0;
      var r := 0;
      while r < mm.rowLen
        invariant 0 <= r <= n
        invariant mm.Measured() && HasShape(mm.matrix, n, w)
        invariant forall i :: 0 <= i < r ==> mm.matrix[i] == NormalizeRow(m0[i])
        invariant forall i :: r <= i < n ==> mm.matrix[i] == m0[i]
      {
        var row := mm.matrix[r];
        var count := 0;
        var i := 0;
        while i < |row|
          invariant 0 <= i <= |row| && 0 <= count <= 1
          invariant count == 0 ==> LeadIndex(row) >= i
          invariant count == 1 ==> LeadIndex(row) < i && divisor == row[LeadIndex(row)]
        {
          if count < 1 {
            if row[i] != 0.0 {
              divisor := row[i];
              count := count + 1;
            }
          }
          i := i + 1;
        }
        ghost var before := mm.matrix;
        ghost var normalized := NormalizeRow(row);
        var c := 0;
        while c < mm.colLen
          invariant 0 <= c <= w
          invariant mm.Measured() && HasShape(mm.matrix, n, w)
          invariant mm.matrix == before[r := mm.matrix[r]]
          invariant forall t :: 0 <= t < c ==> mm.matrix[r][t] == normalized[t]
          invariant forall t :: c <= t < w ==> mm.matrix[r][t] == row[t]
        {
          if !(mm.matrix[r][c] == 0.0) {
            mm.matrix := mm.matrix[r := mm.matrix[r][c := mm.matrix[r][c] / divisor]];
          }
          c := c + 1;
        }
        assert mm.matrix[r] == normalized;
        r := r + 1;
      }
    }

    /**
     * Step 3: flip the matrix; in every row but the last, each 1 followed by
     * a 0 is a pivot, and every later row gets the negation of its cell in the
     * pivot column times the pivot row, added where the product is nonzero.
     */
    method Step3() returns (outcome: Outcome)
      requires mm.Measured() && Rectangular(mm.matrix)
      modifies mm
      ensures mm.Measured() && HasShape(mm.matrix, old(|mm.matrix|), old(|mm.matrix[0]|))
      ensures outcome.Done? ==> Step3Spec(old(mm.matrix)) == Ok(mm.matrix)
      ensures outcome.Raised? ==> Step3Spec(old(mm.matrix)) == Err(outcome.fault)
    {
      ghost var m0 := mm.matrix;
      ghost var n, w := |m0|, |m0[0]|;
      FlipAt(m0, n, w);
      mm.matrix := Flip(mm.matrix);
      var r := 0;
      while r < mm.rowLen - 1
        invariant 0 <= r <= n
        invariant mm.Measured() && HasShape(mm.matrix, n, w)
        invariant Step3Spec(m0) == ClearFrom(mm.matrix, r)
      {
        outcome := ScanRowAt(r);
        if outcome.Raised? {
          return;
        }
        r := r + 1;
      }
      return Done;
    }

    /** The body of step 3's row loop for row r: every column in turn, clearing below each pivot. */
    method ScanRowAt(r: nat) returns (outcome: Outcome)
      requires mm.Measured() && Rectangular(mm.matrix) && r < |mm.matrix|
      modifies mm
      ensures mm.Measured() && HasShape(mm.matrix, old(|mm.matrix|), old(|mm.matrix[0]|))
      ensures outcome.Done? ==> ScanRow(old(mm.matrix), r, 0) == Ok(mm.matrix)
      ensures outcome.Raised? ==> ScanRow(old(mm.matrix), r, 0) == Err(outcome.fault)
    {
      ghost var rowStart := mm.matrix;
      ghost var n, w := |rowStart|, |rowStart[0]|;
      var c := 0;
      while c < mm.colLen
        invariant 0 <= c <= w
        invariant mm.Measured() && HasShape(mm.matrix, n, w)
        invariant ScanRow(rowStart, r, 0) == ScanRow(mm.matrix, r, c)
      {
        if mm.matrix[r][c] == 1.0 {
          if c + 1 >= |mm.matrix[r]| {
            return Raised(IndexOutOfRange);
          }
          if mm.matrix[r][c + 1] == 0.0 {
            ClearBelowAt(r, c);
          }
        }
        c := c + 1;
      }
      return Done;
    }

    /** Step 3's loop over the rows below the pivot (r, c), with row r as the base row. */
    method ClearBelowAt(r: nat, c: nat)
      requires mm.Measured() && Rectangular(mm.matrix) && r < |mm.matrix| && c < |mm.matrix[0]|
      modifies mm
      ensures mm.Measured() && mm.matrix == ClearBelow(old(mm.matrix), r, c, r + 1)
    {
      ghost var pivotStart := mm.matrix;
      ghost var n, w := |pivotStart|, |pivotStart[0]|;
      var baseRow := mm.matrix[r];
      var j := r + 1;
      while j < mm.rowLen
        invariant r + 1 <= j <= n
        invariant mm.Measured() && HasShape(mm.matrix, n, w)
        invariant mm.matrix[r] == baseRow
        invariant ClearBelow(pivotStart, r, c, r + 1) == ClearBelow(mm.matrix, r, c, j)
      {
        if mm.matrix[j][c] != 0.0 {
          var factor := mm.matrix[j][c] * -1.0;
          AddNonzeroProducts(j, factor, baseRow);
        }
        j := j + 1;
      }
    }

    /** Step 3's ENUM loop: every nonzero cell of factor times the base row is added into row j. */
    method AddNonzeroProducts(j: nat, factor: real, baseRow: Row)
      requires mm.Measured() && Rectangular(mm.matrix) && j < |mm.matrix| && |baseRow| == |mm.matrix[0]|
      modifies mm
      ensures mm.Measured()
      ensures mm.matrix == old(mm.matrix)[j := ClearRow(old(mm.matrix[j]), baseRow, factor)]
    {
      ghost var before := mm.matrix;
      ghost var n, w := |before|, |before[0]|;
      ghost var cleared := ClearRow(before[j], baseRow, factor);
      var adjusted := SvProduct(factor, baseRow);
      var k := 0;
      while k < |adjusted|
        invariant 0 <= k <= w
        invariant mm.Measured() && HasShape(mm.matrix, n, w)
        invariant mm.matrix == before[j := mm.matrix[j]]
        invariant forall t :: 0 <= t < k ==> mm.matrix[j][t] == cleared[t]
        invariant forall t :: k <= t < w ==> mm.matrix[j][t] == before[j][t]
      {
        if adjusted[k] != 0.0 {
          mm.matrix := mm.matrix[j := mm.matrix[j][k := mm.matrix[j][k] + adjusted[k]]];
        }
        k := k + 1;
      }
      assert mm.matrix[j] == cleared;
    }

    /**
     * run: sort the rows by first value, largest first, run the three steps
     * once, flip the matrix back and round every cell to one place in place.
     */
    method Run() returns (outcome: Outcome)
      requires mm.matrix == [] || Rectangular(mm.matrix)
      modifies mm
      ensures outcome.Done? ==> RunSpec(old(mm.matrix)) == Ok(mm.matrix) && mm.Measured()
      ensures outcome.Raised? ==> RunSpec(old(mm.matrix)) == Err(outcome.fault)
    {
      if mm.matrix == [] || |mm.matrix[0]| == 0 {
        return Raised(IndexOutOfRange);
      }
      ghost var m0 := mm.matrix;
      ghost var sorted := SortedInput(m0);
      mm.SortIt(true);
      assert mm.matrix == sorted;
      Step1ClearsLowerTriangle(sorted);
      outcome := Step1();
      if outcome.Raised? {
        assert Reduce(sorted) == Err(outcome.fault);
        return;
      }
      Step2();
      outcome := Step3();
      if outcome.Raised? {
        assert Reduce(sorted) == Err(outcome.fault);
        return;
      }
      ghost var m3 := mm.matrix;
      assert Reduce(sorted) == Ok(m3);
      mm.matrix := Flip(mm.matrix);
      var _ := mm.RoundMatrixValues(None, Some(1), true);
      assert mm.matrix == Finish(m3);
    }
  }
}
