/**
 * The three steps of RREF in rref/main.py and the run that chains them, as
 * functions of the matrix. The class in engine.dfy performs them in place and
 * is proved to compute exactly these functions.
 */
module Elimination {
  import opened Results
  import opened Matrices
  import opened RowSort
  import opened Maths

  /** The first k cells of the row (those that exist) are 0. */
  predicate ZeroBefore(row: Row, k: int) {
    forall j :: 0 <= j < k && j < |row| ==> row[j] == 0.0
  }

  /** In rows 0 .. upto-1 every cell left of the diagonal is 0. */
  predicate LowerZero(m: Matrix, upto: int) {
    forall i :: 0 <= i < upto && i < |m| ==> ZeroBefore(m[i], i)
  }

  // ---------------------------------------------------------------- step 1

  /**
   * The base value used while row r is processed: M[r-1][r-1], or M[r-1][r]
   * when that is 0. A lookup past the end of row r-1 raises IndexError.
   */
  function BaseValue(m: Matrix, r: nat): Result<real>
    requires 1 <= r < |m|
  {
    if r - 1 >= |m[r - 1]| then Err(IndexOutOfRange)
    else if m[r - 1][r - 1] != 0.0 then Ok(m[r - 1][r - 1])
    else if r >= |m[r - 1]| then Err(IndexOutOfRange)
    else Ok(m[r - 1][r])
  }

  /** Row r after step 1's ENUM loop: cell c forced to 0, every other cell plus the adjusted base row's cell. */
  function CombineRow(target: Row, base: Row, factor: real, c: nat): (r: Row)
    requires |target| == |base|
    ensures |r| == |base|
  {
    var adjusted := SvProduct(factor, base);
    seq(|adjusted|, k requires 0 <= k < |adjusted| => if k == c then 0.0 else target[k] + adjusted[k])
  }

  /**
   * Step 1's body at row r, column c < r: read the base value, leave the row
   * alone when the target cell is 0, otherwise divide (raising on a zero base)
   * and combine. Only row r can change.
   */
  function EliminateCell(m: Matrix, r: nat, c: nat): (res: Result<Matrix>)
    requires Rectangular(m) && 1 <= r < |m| && c < |m[0]|
    ensures res.Ok? ==> HasShape(res.value, |m|, |m[0]|)
    ensures res.Ok? ==> forall i :: 0 <= i < |m| && i != r ==> res.value[i] == m[i]
  {
    match BaseValue(m, r)
    case Err(f) => Err(f)
    case Ok(base) =>
      var target := m[r][c];
      if target == 0.0 then Ok(m)
      else if base == 0.0 then Err(ZeroDivision)
      else Ok(m[r := CombineRow(m[r], m[r - 1], (target / base) * -1.0, c)])
  }

  /** Step 1's loop over the columns c, c+1, ... of row r; only the columns left of r are processed. */
  function EliminateRow(m: Matrix, r: nat, c: nat): (res: Result<Matrix>)
    requires Rectangular(m) && 1 <= r < |m| && c <= |m[0]|
    ensures res.Ok? ==> HasShape(res.value, |m|, |m[0]|)
    ensures res.Ok? ==> forall i :: 0 <= i < |m| && i != r ==> res.value[i] == m[i]
    decreases |m[0]| - c
  {
    if c == |m[0]| then Ok(m)
    else if c < r then
      match EliminateCell(m, r, c)
      case Err(f) => Err(f)
      case Ok(next) => EliminateRow(next, r, c + 1)
    else EliminateRow(m, r, c + 1)
  }

  /** Step 1's loop over the rows r, r+1, ...; rows above r are never written. */
  function EliminateFrom(m: Matrix, r: nat): (res: Result<Matrix>)
    requires Rectangular(m) && 1 <= r <= |m|
    ensures res.Ok? ==> HasShape(res.value, |m|, |m[0]|) && res.value[..r] == m[..r]
    decreases |m| - r
  {
    if r == |m| then Ok(m)
    else
      match EliminateRow(m, r, 0)
      case Err(f) => Err(f)
      case Ok(next) =>
        assert next[..r] == m[..r];
        EliminateFrom(next, r + 1)
  }

  /** Step 1: no_negatives, then the elimination from row 1 on. */
  function Step1Spec(m: Matrix): (res: Result<Matrix>)
    requires Rectangular(m)
    ensures res.Ok? ==> HasShape(res.value, |m|, |m[0]|)
  {
    EliminateFrom(NoNegatives(m), 1)
  }

  /**
   * How one cell of step 1 behaves: which base is chosen, when it raises, that
   * a zero target leaves the matrix alone, and that otherwise row r becomes
   * row r minus (target / base) times row r-1, with the target cell forced to 0.
   */
  lemma EliminateCellCases(m: Matrix, r: nat, c: nat)
    requires Rectangular(m) && 1 <= r < |m| && c < |m[0]|
    ensures var w, res := |m[0]|, EliminateCell(m, r, c);
      (r - 1 >= w ==> res == Err(IndexOutOfRange)) &&
      (r - 1 < w && m[r - 1][r - 1] == 0.0 && r >= w ==> res == Err(IndexOutOfRange)) &&
      (BaseValue(m, r).Ok? && m[r][c] == 0.0 ==> res == Ok(m)) &&
      (r < w && m[r - 1][r - 1] == 0.0 && m[r - 1][r] == 0.0 && m[r][c] != 0.0 ==> res == Err(ZeroDivision)) &&
      (BaseValue(m, r).Ok? && BaseValue(m, r).value != 0.0 && m[r][c] != 0.0 ==>
        var base := if m[r - 1][r - 1] != 0.0 then m[r - 1][r - 1] else m[r - 1][r];
        res.Ok? && base != 0.0 && res.value[r][c] == 0.0 &&
        forall k :: 0 <= k < w && k != c ==> res.value[r][k] == m[r][k] - (m[r][c] / base) * m[r - 1][k])
  {
  }

  /** One cell of step 1 zeroes its target and keeps the zeros left of it, given the zeros of row r-1. */
  lemma EliminateCellClears(m: Matrix, r: nat, c: nat)
    requires Rectangular(m) && 1 <= r < |m| && c < |m[0]| && c < r
    requires ZeroBefore(m[r - 1], r - 1) && ZeroBefore(m[r], c)
    requires EliminateCell(m, r, c).Ok?
    ensures ZeroBefore(EliminateCell(m, r, c).value[r], c + 1)
  {
    var res := EliminateCell(m, r, c).value;
    if m[r][c] != 0.0 {
      var base := BaseValue(m, r).value;
      var factor := (m[r][c] / base) * -1.0;
      assert res[r] == CombineRow(m[r], m[r - 1], factor, c);
      forall j | 0 <= j < c ensures res[r][j] == 0.0 {
        assert m[r - 1][j] == 0.0;
        assert res[r][j] == m[r][j] + factor * m[r - 1][j];
      }
    }
  }

  /** Processing row r from column c on leaves row r zero left of column r. */
  lemma {:induction false} EliminateRowClears(m: Matrix, r: nat, c: nat)
    requires Rectangular(m) && 1 <= r < |m| && c <= |m[0]|
    requires ZeroBefore(m[r - 1], r - 1) && ZeroBefore(m[r], Min(c, r))
    ensures EliminateRow(m, r, c).Ok? ==> ZeroBefore(EliminateRow(m, r, c).value[r], r)
    decreases |m[0]| - c
  {
    if c < |m[0]| {
      if c < r {
        if EliminateCell(m, r, c).Ok? {
          var next := EliminateCell(m, r, c).value;
          EliminateCellClears(m, r, c);
          EliminateRowClears(next, r, c + 1);
        }
      } else {
        EliminateRowClears(m, r, c + 1);
      }
    }
  }

  /** Processing rows r, r+1, ... extends the zero lower triangle to the whole matrix. */
  lemma {:induction false} EliminateFromClears(m: Matrix, r: nat)
    requires Rectangular(m) && 1 <= r <= |m| && LowerZero(m, r)
    ensures EliminateFrom(m, r).Ok? ==> LowerZero(EliminateFrom(m, r).value, |m|)
    decreases |m| - r
  {
    if r < |m| && EliminateRow(m, r, 0).Ok? {
      var next := EliminateRow(m, r, 0).value;
      EliminateRowClears(m, r, 0);
      assert LowerZero(next, r + 1) by {
        forall i | 0 <= i < r + 1 && i < |next| ensures ZeroBefore(next[i], i) {
          if i < r {
            assert next[i] == m[i];
          }
        }
      }
      EliminateFromClears(next, r + 1);
    }
  }

  /** After step 1 every cell left of the diagonal is exactly 0 and the shape is unchanged. */
  lemma Step1ClearsLowerTriangle(m: Matrix)
    requires Rectangular(m)
    ensures var res := Step1Spec(m);
      res.Ok? ==> (HasShape(res.value, |m|, |m[0]|) &&
        forall r, c :: 0 <= c < r < |m| && c < |m[0]| ==> res.value[r][c] == 0.0)
  {
    var start := NoNegatives(m);
    assert LowerZero(start, 1);
    EliminateFromClears(start, 1);
    var res := Step1Spec(m);
    if res.Ok? {
      forall r, c | 0 <= c < r < |m| && c < |m[0]| ensures res.value[r][c] == 0.0 {
        assert ZeroBefore(res.value[r], r);
      }
    }
  }

  /** Step 1 never writes row 0, and the first column it leaves has no negative entry. */
  lemma Step1FirstColumn(m: Matrix)
    requires Rectangular(m) && |m[0]| > 0
    ensures var res := Step1Spec(m);
      res.Ok? ==> (res.value[0] == NoNegatives(m)[0] &&
        forall i :: 0 <= i < |m| ==> res.value[i][0] >= 0.0)
  {
    var res := Step1Spec(m);
    Step1ClearsLowerTriangle(m);
    NoNegativesFirstColumn(m);
    if res.Ok? {
      assert res.value[..1] == NoNegatives(m)[..1];
      assert res.value[0] == res.value[..1][0];
    }
  }

  /** Once the rows reach past the columns by two, step 1 runs off the end of a row before it finishes. */
  lemma {:induction false} EliminateFromTooTall(m: Matrix, r: nat)
    requires Rectangular(m) && |m[0]| > 0 && 1 <= r <= |m[0]| + 1 < |m|
    ensures EliminateFrom(m, r).Err?
    decreases |m| - r
  {
    var w := |m[0]|;
    if r == w + 1 {
      assert EliminateCell(m, r, 0) == Err(IndexOutOfRange);
      assert EliminateRow(m, r, 0).Err?;
    } else if EliminateRow(m, r, 0).Ok? {
      EliminateFromTooTall(EliminateRow(m, r, 0).value, r + 1);
    }
  }

  /** A matrix with more rows than columns plus one makes step 1 raise IndexError or divide by zero. */
  lemma Step1TooTall(m: Matrix)
    requires Rectangular(m) && |m[0]| > 0 && |m| > |m[0]| + 1
    ensures Step1Spec(m).Err?
  {
    EliminateFromTooTall(NoNegatives(m), 1);
  }

  // ---------------------------------------------------------------- step 2

  /** The position of the first nonzero entry of the row, or its length when there is none. */
  function LeadIndex(row: Row): (k: nat)
    ensures k <= |row|
    ensures forall j :: 0 <= j < k ==> row[j] == 0.0
    ensures k < |row| ==> row[k] != 0.0
  {
    if row == [] then 0
    else if row[0] != 0.0 then 0
    else 1 + LeadIndex(row[1..])
  }

  /** A nonzero cell divided by the divisor; a zero cell stays as it is. */
  function DivideNonzero(x: real, divisor: real): real
    requires divisor != 0.0
  {
    if x != 0.0 then x / divisor else x
  }

  lemma SelfQuotient(d: real)
    requires d != 0.0
    ensures d / d == 1.0
  {
  }

  /** Dividing keeps zero cells, keeps nonzero cells nonzero, undoes by multiplying back, and turns the divisor itself into 1. */
  lemma DivideNonzeroCell(x: real, divisor: real)
    requires divisor != 0.0
    ensures x == 0.0 ==> DivideNonzero(x, divisor) == x
    ensures x != 0.0 ==> DivideNonzero(x, divisor) != 0.0 && DivideNonzero(x, divisor) * divisor == x
    ensures x == divisor ==> DivideNonzero(x, divisor) == 1.0
  {
    SelfQuotient(divisor);
  }

  /** Step 2 on one row: every nonzero cell divided by the first nonzero entry, fixed before dividing. */
  function NormalizeRow(row: Row): (r: Row)
    ensures |r| == |row|
  {
    var k := LeadIndex(row);
    if k == |row| then row
    else seq(|row|, j requires 0 <= j < |row| => DivideNonzero(row[j], row[k]))
  }

  /** Step 2: every row normalized. */
  function Step2Spec(m: Matrix): (r: Matrix)
    ensures |r| == |m| && forall i :: 0 <= i < |m| ==> |r[i]| == |m[i]|
  {
    seq(|m|, i requires 0 <= i < |m| => NormalizeRow(m[i]))
  }

  /** In a row with a nonzero entry, the first nonzero entry moves nowhere and becomes exactly 1. */
  lemma NormalizeRowLeadingOne(row: Row)
    requires LeadIndex(row) < |row|
    ensures LeadIndex(NormalizeRow(row)) == LeadIndex(row)
    ensures NormalizeRow(row)[LeadIndex(row)] == 1.0
  {
    var k := LeadIndex(row);
    var r := NormalizeRow(row);
    DivideNonzeroCell(row[k], row[k]);
    assert r[k] == 1.0;
    assert forall j :: 0 <= j < k ==> r[j] == 0.0;
  }

  /**
   * Zero cells and all-zero rows are left alone; every nonzero cell stays
   * nonzero and is the original cell divided by the original first nonzero
   * entry, the same divisor for the whole row.
   */
  lemma NormalizeRowCells(row: Row)
    ensures LeadIndex(row) == |row| ==> NormalizeRow(row) == row
    ensures forall j :: 0 <= j < |row| && row[j] == 0.0 ==> NormalizeRow(row)[j] == 0.0
    ensures forall j :: 0 <= j < |row| && row[j] != 0.0 ==>
      LeadIndex(row) < |row| && NormalizeRow(row)[j] != 0.0 && NormalizeRow(row)[j] == row[j] / row[LeadIndex(row)]
  {
    forall j | 0 <= j < |row| {
      NormalizeRowCell(row, j);
    }
  }

  /** One cell of NormalizeRowCells. */
  lemma NormalizeRowCell(row: Row, j: nat)
    requires j < |row|
    ensures row[j] == 0.0 ==> NormalizeRow(row)[j] == 0.0
    ensures row[j] != 0.0 ==> LeadIndex(row) < |row|
    ensures row[j] != 0.0 ==> NormalizeRow(row)[j] != 0.0
    ensures row[j] != 0.0 ==> NormalizeRow(row)[j] == row[j] / row[LeadIndex(row)]
  {
    var k := LeadIndex(row);
    if k < |row| {
      var r := NormalizeRow(row);
      assert r[j] == DivideNonzero(row[j], row[k]);
      DivideNonzeroCell(row[j], row[k]);
    }
  }

  /** After step 2 the first nonzero entry of every row that has one is 1. */
  lemma Step2LeadingOnes(m: Matrix)
    ensures var r := Step2Spec(m);
      forall i :: 0 <= i < |m| && LeadIndex(m[i]) < |m[i]| ==>
        LeadIndex(r[i]) == LeadIndex(m[i]) && r[i][LeadIndex(m[i])] == 1.0
  {
    forall i | 0 <= i < |m| && LeadIndex(m[i]) < |m[i]| {
      NormalizeRowLeadingOne(m[i]);
    }
  }

  /** Step 2 keeps exactly the zero cells zero, so it keeps the lower triangle that step 1 cleared. */
  lemma Step2KeepsZeros(m: Matrix)
    ensures var r := Step2Spec(m);
      forall i, j :: 0 <= i < |m| && 0 <= j < |m[i]| ==> (r[i][j] == 0.0 <==> m[i][j] == 0.0)
  {
    forall i | 0 <= i < |m| {
      NormalizeRowCells(m[i]);
    }
  }

  // ---------------------------------------------------------------- step 3

  /** Step 3's ENUM loop: every nonzero cell of the adjusted base row added into the target row. */
  function ClearRow(target: Row, base: Row, factor: real): (r: Row)
    requires |target| == |base|
    ensures |r| == |base|
  {
    var adjusted := SvProduct(factor, base);
    seq(|adjusted|, k requires 0 <= k < |adjusted| => if adjusted[k] != 0.0 then target[k] + adjusted[k] else target[k])
  }

  /**
   * Step 3's loop over rows j, j+1, ... below the pivot (r, c): a row with a
   * nonzero cell in column c gets that cell's negation times the base row.
   */
  function ClearBelow(m: Matrix, r: nat, c: nat, j: nat): (res: Matrix)
    requires Rectangular(m) && r < j <= |m| && c < |m[0]|
    ensures HasShape(res, |m|, |m[0]|) && res[..j] == m[..j]
    decreases |m| - j
  {
    if j == |m| then m
    else
      var next := if m[j][c] != 0.0 then m[j := ClearRow(m[j], m[r], m[j][c] * -1.0)] else m;
      assert next[..j] == m[..j];
      ClearBelow(next, r, c, j + 1)
  }

  /**
   * Step 3's loop over the columns c, c+1, ... of row r: a 1 followed by a 0
   * is a pivot. Reading the cell after a 1 in the last column raises IndexError.
   */
  function ScanRow(m: Matrix, r: nat, c: nat): (res: Result<Matrix>)
    requires Rectangular(m) && r < |m| && c <= |m[0]|
    ensures res.Ok? ==> HasShape(res.value, |m|, |m[0]|) && res.value[..r + 1] == m[..r + 1]
    decreases |m[0]| - c
  {
    if c == |m[0]| then Ok(m)
    else if m[r][c] == 1.0 then
      if c + 1 >= |m[r]| then Err(IndexOutOfRange)
      else if m[r][c + 1] == 0.0 then
        var next := ClearBelow(m, r, c, r + 1);
        var res := ScanRow(next, r, c + 1);
        assert res.Ok? ==> res.value[..r + 1] == next[..r + 1];
        res
      else ScanRow(m, r, c + 1)
    else ScanRow(m, r, c + 1)
  }

  /** Step 3's loop over the rows r, r+1, ... except the last. */
  function ClearFrom(m: Matrix, r: nat): (res: Result<Matrix>)
    requires Rectangular(m) && r <= |m|
    ensures res.Ok? ==> HasShape(res.value, |m|, |m[0]|)
    decreases |m| - r
  {
    if r + 1 >= |m| then Ok(m)
    else
      match ScanRow(m, r, 0)
      case Err(f) => Err(f)
      case Ok(next) => ClearFrom(next, r + 1)
  }

  /** Step 3: flip, then clear below every pivot found. */
  function Step3Spec(m: Matrix): (res: Result<Matrix>)
    requires Rectangular(m)
    ensures res.Ok? ==> HasShape(res.value, |m|, |m[0]|)
  {
    FlipAt(m, |m|, |m[0]|);
    ClearFrom(Flip(m), 0)
  }

  /** Clearing from row j on zeroes column c in every row from j down when the base cell is 1. */
  lemma {:induction false} ClearBelowClears(m: Matrix, r: nat, c: nat, j: nat)
    requires Rectangular(m) && r < j <= |m| && c < |m[0]| && m[r][c] == 1.0
    ensures forall i :: j <= i < |m| ==> ClearBelow(m, r, c, j)[i][c] == 0.0
    decreases |m| - j
  {
    if j < |m| {
      var next := if m[j][c] != 0.0 then m[j := ClearRow(m[j], m[r], m[j][c] * -1.0)] else m;
      assert next[r] == m[r];
      assert next[j][c] == 0.0;
      ClearBelowClears(next, r, c, j + 1);
      var res := ClearBelow(m, r, c, j);
      assert res == ClearBelow(next, r, c, j + 1);
      assert res[j] == res[..j + 1][j] == next[..j + 1][j];
    }
  }

  /**
   * Right after the pivot (r, c) is processed: rows 0..r, the base row
   * among them, are unchanged and column c is 0 in every row below r.
   */
  lemma PivotClearsColumn(m: Matrix, r: nat, c: nat)
    requires Rectangular(m) && r + 1 < |m| && c + 1 < |m[0]| && m[r][c] == 1.0 && m[r][c + 1] == 0.0
    ensures var res := ClearBelow(m, r, c, r + 1);
      HasShape(res, |m|, |m[0]|) && res[..r + 1] == m[..r + 1] &&
      forall i :: r < i < |m| ==> res[i][c] == 0.0
  {
    ClearBelowClears(m, r, c, r + 1);
  }

  /** Scanning row r raises exactly when the row ends in a 1 (it reads the cell after it). */
  lemma {:induction false} ScanRowFault(m: Matrix, r: nat, c: nat)
    requires Rectangular(m) && r < |m| && c < |m[0]|
    ensures ScanRow(m, r, c).Err? <==> m[r][|m[0]| - 1] == 1.0
    ensures ScanRow(m, r, c).Err? ==> ScanRow(m, r, c) == Err(IndexOutOfRange)
    decreases |m[0]| - c
  {
    var w := |m[0]|;
    if c + 1 < w {
      if m[r][c] == 1.0 && m[r][c + 1] == 0.0 {
        var next := ClearBelow(m, r, c, r + 1);
        assert next[r] == next[..r + 1][r] == m[r];
        ScanRowFault(next, r, c + 1);
      } else {
        ScanRowFault(m, r, c + 1);
      }
    }
  }

  /** Every row but the last has a 0 in the last column. */
  predicate LastColumnClear(m: Matrix)
    requires Rectangular(m) && |m[0]| > 0
  {
    forall i :: 0 <= i < |m| - 1 ==> m[i][|m[0]| - 1] == 0.0
  }

  /** With a base row ending in 0, clearing below it leaves the last column alone. */
  lemma {:induction false} ClearBelowKeepsLastColumn(m: Matrix, r: nat, c: nat, j: nat)
    requires Rectangular(m) && r < j <= |m| && c < |m[0]| && m[r][|m[0]| - 1] == 0.0
    ensures forall i :: 0 <= i < |m| ==> ClearBelow(m, r, c, j)[i][|m[0]| - 1] == m[i][|m[0]| - 1]
    decreases |m| - j
  {
    if j < |m| {
      var w := |m[0]|;
      var next := if m[j][c] != 0.0 then m[j := ClearRow(m[j], m[r], m[j][c] * -1.0)] else m;
      assert next[j][w - 1] == m[j][w - 1];
      ClearBelowKeepsLastColumn(next, r, c, j + 1);
    }
  }

  /** Scanning a row of a matrix whose rows but the last end in 0 succeeds and keeps that so. */
  lemma {:induction false} ScanRowKeepsLastColumn(m: Matrix, r: nat, c: nat)
    requires Rectangular(m) && |m[0]| > 0 && LastColumnClear(m) && r + 1 < |m| && c <= |m[0]|
    ensures ScanRow(m, r, c).Ok? && LastColumnClear(ScanRow(m, r, c).value)
    decreases |m[0]| - c
  {
    var w := |m[0]|;
    if c < w {
      if m[r][c] == 1.0 {
        assert c + 1 < w;
        if m[r][c + 1] == 0.0 {
          var next := ClearBelow(m, r, c, r + 1);
          ClearBelowKeepsLastColumn(m, r, c, r + 1);
          ScanRowKeepsLastColumn(next, r, c + 1);
        } else {
          ScanRowKeepsLastColumn(m, r, c + 1);
        }
      } else {
        ScanRowKeepsLastColumn(m, r, c + 1);
      }
    }
  }

  /** Step 3's row loop cannot raise on a matrix whose rows but the last end in 0. */
  lemma {:induction false} ClearFromSucceeds(m: Matrix, r: nat)
    requires Rectangular(m) && |m[0]| > 0 && LastColumnClear(m) && r <= |m|
    ensures ClearFrom(m, r).Ok?
    decreases |m| - r
  {
    if r + 1 < |m| {
      ScanRowKeepsLastColumn(m, r, 0);
      ClearFromSucceeds(ScanRow(m, r, 0).value, r + 1);
    }
  }

  /** Step 3 cannot raise when the first column is 0 below row 0: after flipping, no scanned row ends in 1. */
  lemma Step3Succeeds(m: Matrix)
    requires Rectangular(m) && |m[0]| > 0
    requires forall i :: 1 <= i < |m| ==> m[i][0] == 0.0
    ensures Step3Spec(m).Ok?
  {
    var n, w := |m|, |m[0]|;
    FlipAt(m, n, w);
    var f := Flip(m);
    forall i | 0 <= i < n - 1 ensures f[i][w - 1] == 0.0 {
      assert f[i][w - 1] == m[n - 1 - i][0];
    }
    ClearFromSucceeds(f, 0);
  }

  // ---------------------------------------------------------------- run

  /** Sorting keeps the shape, since the rows are only reordered. */
  lemma SortRowsShape(m: Matrix, n: nat, w: nat, descending: bool)
    requires HasShape(m, n, w) && w > 0
    ensures HasShape(SortRows(m, descending), n, w)
  {
    var s := SortRows(m, descending);
    forall i | 0 <= i < n ensures |s[i]| == w {
      assert s[i] in multiset(m);
    }
  }

  /**
   * The rows sorted by their first cells, largest first, as run does before
   * step 1. The ensures hands callers the shape, and names the sort itself so
   * that they can relate it to MatrixMadness.SortIt.
   */
  function SortedInput(m: Matrix): (s: Matrix)
    requires Rectangular(m) && |m[0]| > 0
    ensures HasShape(s, |m|, |m[0]|) && s == SortRows(m, true)
  {
    SortRowsShape(m, |m|, |m[0]|, true);
    SortRows(m, true)
  }

  /** Steps 1, 2 and 3 of run, on the sorted rows. */
  function Reduce(sorted: Matrix): (res: Result<Matrix>)
    requires Rectangular(sorted)
    ensures res.Ok? ==> HasShape(res.value, |sorted|, |sorted[0]|)
  {
    Step1ClearsLowerTriangle(sorted);
    match Step1Spec(sorted)
    case Err(f) => Err(f)
    case Ok(m1) => Step3Spec(Step2Spec(m1))
  }

  /** Every cell of the n x w matrix m is a whole number of tenths. */
  predicate WholeTenths(m: Matrix, n: nat, w: nat)
    requires HasShape(m, n, w)
  {
    forall i, j :: 0 <= i < n && 0 <= j < w ==> IsWhole(m[i][j] * 10.0)
  }

  /** The end of run: flip back and round every cell to one place. */
  function Finish(m: Matrix): (r: Matrix)
    requires Rectangular(m)
    ensures HasShape(r, |m|, |m[0]|) && WholeTenths(r, |m|, |m[0]|)
  {
    FinishShape(m, |m|, |m[0]|);
    RoundMatrix(Flip(m), Some(1))
  }

  /**
   * run: sort descending, steps 1, 2 and 3 once each, flip back and round
   * every cell to one place. Sorting an empty matrix or one with empty rows
   * raises IndexError (there is no first row to measure, or no first cell to
   * sort by); after that only step 1 or step 3 may raise. A result has the
   * input's shape and every cell is a whole number of tenths.
   */
  function RunSpec(m: Matrix): (res: Result<Matrix>)
    requires m == [] || Rectangular(m)
    ensures m == [] || |m[0]| == 0 ==> res == Err(IndexOutOfRange)
    ensures res.Ok? ==> m != [] && HasShape(res.value, |m|, |m[0]|) && WholeTenths(res.value, |m|, |m[0]|)
  {
    if m == [] || |m[0]| == 0 then Err(IndexOutOfRange)
    else
      var reduced := Reduce(SortedInput(m));
      if reduced.Err? then Err(reduced.fault)
      else Ok(Finish(reduced.value))
  }

  /** The last stage of run: flipping back and rounding keep the shape and leave whole tenths. */
  lemma FinishShape(m: Matrix, n: nat, w: nat)
    requires HasShape(m, n, w)
    ensures var r := RoundMatrix(Flip(m), Some(1));
      HasShape(r, n, w) && WholeTenths(r, n, w)
  {
    RoundMatrixTenths(Flip(m));
  }

  /** run raises exactly when step 1 does: step 3 never meets a 1 in the last column of a scanned row. */
  lemma RunFaultsOnlyInStep1(m: Matrix)
    requires Rectangular(m) && |m[0]| > 0
    ensures RunSpec(m).Err? <==> Step1Spec(SortedInput(m)).Err?
  {
    var sorted := SortedInput(m);
    Step1ClearsLowerTriangle(sorted);
    if Step1Spec(sorted).Ok? {
      var m1 := Step1Spec(sorted).value;
      var m2 := Step2Spec(m1);
      Step2KeepsZeros(m1);
      assert forall i :: 1 <= i < |m2| ==> m2[i][0] == 0.0 by {
        forall i | 1 <= i < |m2| ensures m2[i][0] == 0.0 {
          assert m1[i][0] == 0.0;
        }
      }
      Step3Succeeds(m2);
      assert Reduce(sorted).Ok?;
    }
  }

  /** A matrix with more rows than columns plus one makes run raise. */
  lemma RunTooTall(m: Matrix)
    requires Rectangular(m) && |m[0]| > 0 && |m| > |m[0]| + 1
    ensures RunSpec(m).Err?
  {
    Step1TooTall(SortedInput(m));
    RunFaultsOnlyInStep1(m);
  }

  // ---------------------------------------------------------------- a worked example

  /** The two equations 2x + y = 8 and x + y = 5: step 1 on the sorted rows. */
  lemma ExampleStep1()
    ensures Step1Spec([[2.0, 1.0, 8.0], [1.0, 1.0, 5.0]]) == Ok([[2.0, 1.0, 8.0], [0.0, 0.5, 1.0]])
  {
    var m := [[2.0, 1.0, 8.0], [1.0, 1.0, 5.0]];
    var m1 := [[2.0, 1.0, 8.0], [0.0, 0.5, 1.0]];
    assert NoNegatives(m) == m by {
      NoNegativesRows(m);
    }
    assert BaseValue(m, 1) == Ok(2.0);
    assert (1.0 / 2.0) * -1.0 == -0.5;
    assert CombineRow(m[1], m[0], -0.5, 0) == m1[1];
    assert m[1 := m1[1]] == m1;
    assert EliminateCell(m, 1, 0) == Ok(m1);
    assert EliminateRow(m1, 1, 1) == Ok(m1);
    assert EliminateRow(m, 1, 0) == Ok(m1);
    assert EliminateFrom(m1, 2) == Ok(m1);
  }

  /** Step 2 divides each row by its first nonzero entry. */
  lemma ExampleStep2()
    ensures Step2Spec([[2.0, 1.0, 8.0], [0.0, 0.5, 1.0]]) == [[1.0, 0.5, 4.0], [0.0, 1.0, 2.0]]
  {
    var m := [[2.0, 1.0, 8.0], [0.0, 0.5, 1.0]];
    assert LeadIndex(m[0]) == 0;
    assert LeadIndex(m[1]) == 1;
    assert NormalizeRow(m[0]) == [1.0, 0.5, 4.0];
    assert NormalizeRow(m[1]) == [0.0, 1.0, 2.0];
  }

  /** Step 3 flips and clears below the pivot at (0, 1) of the flipped matrix. */
  lemma ExampleStep3()
    ensures Step3Spec([[1.0, 0.5, 4.0], [0.0, 1.0, 2.0]]) == Ok([[2.0, 1.0, 0.0], [3.0, 0.0, 1.0]])
  {
    var m := [[1.0, 0.5, 4.0], [0.0, 1.0, 2.0]];
    var f := [[2.0, 1.0, 0.0], [4.0, 0.5, 1.0]];
    var m3 := [[2.0, 1.0, 0.0], [3.0, 0.0, 1.0]];
    FlipRows(m, f);
    assert ClearRow(f[1], f[0], -0.5) == m3[1];
    assert ClearBelow(f, 0, 1, 1) == m3;
    assert ScanRow(m3, 0, 2) == Ok(m3);
    assert ScanRow(f, 0, 1) == Ok(m3);
    assert ScanRow(f, 0, 0) == Ok(m3);
    assert ClearFrom(m3, 1) == Ok(m3);
  }

  /** Flip on a 2 x 3 matrix, checked cell by cell. */
  lemma FlipRows(m: Matrix, f: Matrix)
    requires HasShape(m, 2, 3) && HasShape(f, 2, 3)
    requires forall i, j :: 0 <= i < 2 && 0 <= j < 3 ==> f[i][j] == m[1 - i][2 - j]
    ensures Flip(m) == f
  {
    FlipAt(m, 2, 3);
    var g := Flip(m);
    assert g[0] == f[0];
    assert g[1] == f[1];
  }

  /** Sorting leaves the two rows where they are: 2 is ahead of 1. */
  lemma ExampleSorted()
    ensures SortedInput([[2.0, 1.0, 8.0], [1.0, 1.0, 5.0]]) == [[2.0, 1.0, 8.0], [1.0, 1.0, 5.0]]
  {
    var m := [[2.0, 1.0, 8.0], [1.0, 1.0, 5.0]];
    assert SortRows([m[1]], true) == [m[1]];
    assert m[1..] == [m[1]];
  }

  /** The three steps on the sorted rows. */
  lemma ExampleReduce()
    ensures Reduce([[2.0, 1.0, 8.0], [1.0, 1.0, 5.0]]) == Ok([[2.0, 1.0, 0.0], [3.0, 0.0, 1.0]])
  {
    ExampleStep1();
    ExampleStep2();
    ExampleStep3();
  }

  /** Flipping back leaves whole numbers, which rounding keeps. */
  lemma ExampleFinish()
    ensures Finish([[2.0, 1.0, 0.0], [3.0, 0.0, 1.0]]) == [[1.0, 0.0, 3.0], [0.0, 1.0, 2.0]]
  {
    var m3 := [[2.0, 1.0, 0.0], [3.0, 0.0, 1.0]];
    var r := [[1.0, 0.0, 3.0], [0.0, 1.0, 2.0]];
    FlipRows(m3, r);
    assert IsWhole(0.0) && IsWhole(1.0) && IsWhole(2.0) && IsWhole(3.0);
    RoundMatrixWhole(r, Some(1));
  }

  /** run on the two equations leaves x = 3 and y = 2 in the last column. */
  lemma RunExample()
    ensures RunSpec([[2.0, 1.0, 8.0], [1.0, 1.0, 5.0]]) == Ok([[1.0, 0.0, 3.0], [0.0, 1.0, 2.0]])
  {
    ExampleSorted();
    ExampleReduce();
    ExampleFinish();
  }
}
