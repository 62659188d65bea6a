/** The generic dense matrix of the calculator, instantiated at `real`: a
    row-major buffer that `set` and `swap_rows` update in place, and the
    operations that build fresh matrices from it. Each method is proved to
    compute the matrix the MatrixSpec functions describe. */
module Matrices {
  import opened MatrixSpec

  class Matrix {
    const rows: nat
    const cols: nat
    /** Entry (row, col) lives at index `cols * row + col`. */
    var data: seq<real>
    /** The matrix the buffer holds. */
    ghost var model: Mat

    /** The buffer holds exactly rows * cols entries, read as `model`. */
    ghost predicate Valid()
      reads this
    {
      |data| == Area(rows, cols) && model == FromBuffer(rows, cols, data)
    }

    /** `Matrix::new`: a rows x cols matrix of zeros. */
    constructor New(rows: nat, cols: nat)
      ensures this.rows == rows && this.cols == cols
      ensures Valid() && model == Zeros(rows, cols)
    {
      this.rows := rows;
      this.cols := cols;
      data := seq(rows * cols, i => 0.0);
      model := Zeros(rows, cols);
      AreaIsProduct(rows, cols);
      FromZeroBuffer(rows, cols);
    }

    /** `Matrix::init`: takes the buffer as given. It does not check its
        length, so the result is only Valid when the length fits. */
    constructor Init(rows: nat, cols: nat, data: seq<real>)
      ensures this.rows == rows && this.cols == cols && this.data == data
      ensures Valid() <==> |data| == rows * cols
    {
      this.rows := rows;
      this.cols := cols;
      this.data := data;
      AreaIsProduct(rows, cols);
      model := if |data| == rows * cols then FromBuffer(rows, cols, data) else Zeros(rows, cols);
    }

    /** `get`: the entry at `cols * row + col`. */
    function Get(row: nat, col: nat): (v: real)
      reads this
      requires Valid() && row < rows && col < cols
      ensures v == At(model, row, col)
    {
      FromBufferAt(rows, cols, data, row, col);
      data[cols * row + col]
    }

    /** `set`: overwrites the entry at `cols * row + col` and no other. */
    method Set(row: nat, col: nat, value: real)
      requires Valid() && row < rows && col < cols
      modifies this
      ensures Valid() && model == SetCell(old(model), row, col, value)
    {
      FromBufferSet(rows, cols, data, row, col, value);
      data := data[cols * row + col := value];
      model := SetCell(model, row, col, value);
    }

    /** `swap_rows`: exchanges two rows column by column through a cache. */
    method SwapRows(fromRow: nat, toRow: nat)
      requires Valid() && (cols > 0 ==> fromRow < rows && toRow < rows)
      modifies this
      ensures Valid()
      ensures cols > 0 ==> model == MatrixSpec.SwapRows(old(model), fromRow, toRow)
      ensures cols == 0 ==> data == old(data)
    {
      if cols == 0 {
        return;
      }
      ghost var m := model;
      ghost var s := MatrixSpec.SwapRows(m, fromRow, toRow);
      for col := 0 to cols
        invariant Valid()
        invariant forall r, c :: 0 <= r < rows && 0 <= c < cols ==>
          model.cells[r][c] == if c < col then s.cells[r][c] else m.cells[r][c]
      {
        var cache := Get(fromRow, col);
        Set(fromRow, col, Get(toRow, col));
        Set(toRow, col, cache);
        forall r | 0 <= r < rows
          ensures model.cells[r][col] == s.cells[r][col]
        {
          SwapRowsAt(m, fromRow, toRow, r, col);
        }
      }
      Ext(model, s);
    }

    /** `transpose`: entry (row, col) of the result is target(col, row). */
    static method Transpose(target: Matrix) returns (result: Matrix)
      requires target.Valid()
      ensures fresh(result) && result.Valid()
      ensures result.model == MatrixSpec.Transpose(target.model)
    {
      ghost var t := MatrixSpec.Transpose(target.model);
      result := new Matrix.New(target.cols, target.rows);
      FillToStart(t);
      for row := 0 to target.cols
        invariant result.Valid() && result.rows == target.cols && result.cols == target.rows
        invariant result.model == FillTo(t, row, 0)
      {
        for col := 0 to target.rows
          invariant result.Valid() && result.model == FillTo(t, row, col)
        {
          FillToStep(t, row, col);
          result.Set(row, col, target.Get(col, row));
        }
        FillToNextRow(t, row);
      }
      FillToEnd(t);
    }

    /** The pivot search of `get_upper_triangular_matrix` in column col:
        starting from the diagonal, a later entry that beats the current
        pivot replaces it. */
    method FindPivot(col: nat, rule: PivotRule) returns (pivot: real, pivotIndex: nat)
      requires Valid() && col < rows && col < cols
      ensures (pivot, pivotIndex) == PivotOf(model, col, rule, rows)
    {
      pivot := Get(col, col);
      pivotIndex := col;
      for row := col + 1 to rows
        invariant (pivot, pivotIndex) == PivotOf(model, col, rule, row)
      {
        var item := Get(row, col);
        if Beats(rule, item, pivot) {
          pivot := item;
          pivotIndex := row;
        }
      }
    }

    /** The innermost elimination loop: row `row` gets `ratio` times row
        col added, column by column from col on. */
    method AddScaledRow(row: nat, col: nat, ratio: real)
      requires Valid() && row < rows && col < rows && col <= cols && row != col
      modifies this
      ensures Valid() && model == MatrixSpec.AddScaledRow(old(model), row, col, ratio)
    {
      ghost var m := model;
      ghost var target := MatrixSpec.AddScaledRow(m, row, col, ratio);
      AddScaledRowAt(m, row, col, ratio);
      for subCol := col to cols
        invariant Valid()
        invariant forall r, c :: 0 <= r < rows && 0 <= c < cols ==>
          model.cells[r][c] == if r == row && c < subCol then target.cells[r][c] else m.cells[r][c]
      {
        Set(row, subCol, Shifted(Get(row, subCol), ratio, Get(col, subCol)));
      }
      Ext(model, target);
    }

    /** The elimination loop of column col: every row below the pivot row
        gets the pivot row times `0 - first / pivot` added. */
    method EliminateBelow(col: nat, pivot: real)
      requires Valid() && col < rows && col < cols && pivot == model.cells[col][col]
      requires col + 1 < rows ==> pivot != 0.0
      modifies this
      ensures Valid() && model == Eliminate(old(model), col)
    {
      ghost var s := model;
      for row := col + 1 to rows
        invariant Valid()
        invariant model == EliminateUpTo(s, col, row)
      {
        EliminateRows(s, col, row);
        var firstItem := Get(row, col);
        RatioOf(s, row, col, firstItem, pivot);
        var ratio := 0.0 - firstItem / pivot;
        EliminateUpToNext(s, col, row);
        ghost var next := EliminateUpTo(s, col, row + 1);
        AddScaledRow(row, col, ratio);
        assert model == next;
      }
    }

    /** One pass of the outer loop of `get_upper_triangular_matrix`: the
        pivot search, the swap that brings the pivot row up, and the
        elimination below it. The result is the number of swaps (0 or 1), or
        the failure when the pivot is zero with rows left below it. */
    method EliminateColumn(col: nat, rule: PivotRule) returns (o: Outcome<nat>)
      requires Valid() && col < rows && col < cols
      modifies this
      ensures Valid()
      ensures o.Err? ==> Step(old(model), col, rule) == Err(o.failure)
      ensures o.Ok? ==> Step(old(model), col, rule) == Ok((model, o.value))
    {
      ghost var cur := model;
      var pivot, pivotIndex := FindPivot(col, rule);
      var swapped: nat := 0;
      if pivotIndex != col {
        swapped := 1;
        SwapRows(pivotIndex, col);
      }
      assert model == PivotSwap(cur, col, rule);
      if col + 1 < rows && pivot == 0.0 {
        return Err(PivotIsZero(col));
      }
      StepOk(cur, col, rule);
      EliminateBelow(col, pivot);
      return Ok(swapped);
    }

    /** One round of the elimination loop of `get_upper_triangular_matrix`:
        column `col` is cleared, and the swap count extended. */
    method Advance(ghost m: Mat, rule: PivotRule, col: nat, swaps: nat) returns (o: Outcome<nat>)
      requires Valid() && Wf(m) && rows == m.rows && cols == m.cols && col < cols <= rows
      requires Reaches(m, rule, col, Ok((model, swaps)))
      modifies this
      ensures Valid()
      ensures o.Err? ==> Reaches(m, rule, col + 1, Err(o.failure))
      ensures o.Ok? ==> Reaches(m, rule, col + 1, Ok((model, o.value)))
    {
      ghost var cur := model;
      var step := EliminateColumn(col, rule);
      if step.Err? {
        TriangulateFails(m, rule, col + 1, (cur, swaps));
        return Err(step.failure);
      }
      TriangulateNext(m, rule, col + 1, (cur, swaps), (model, step.value));
      return Ok(swaps + step.value);
    }

    /** `get_upper_triangular_matrix`: Gaussian elimination on a copy, with
        the pivot search of `rule`; the result and the number of row swaps. */
    static method GetUpperTriangular(target: Matrix, rule: PivotRule) returns (o: Outcome<(Matrix, nat)>)
      requires target.Valid() && target.cols <= target.rows
      ensures o.Err? ==> Triangulate(target.model, rule, target.cols) == Err(o.failure)
      ensures o.Ok? ==> fresh(o.value.0) && o.value.0.Valid()
      ensures o.Ok? ==> Triangulate(target.model, rule, target.cols) == Ok((o.value.0.model, o.value.1))
    {
      ghost var m := target.model;
      AreaIsProduct(target.rows, target.cols);
      var result := new Matrix.Init(target.rows, target.cols, target.data);
      var swaps: nat := 0;
      for col := 0 to result.cols
        invariant result.Valid() && result.rows == m.rows && result.cols == m.cols
        invariant Reaches(m, rule, col, Ok((result.model, swaps)))
      {
        var step := result.Advance(m, rule, col, swaps);
        if step.Err? {
          TriangulateStops(m, rule, col + 1, m.cols);
          return Err(step.failure);
        }
        swaps := step.value;
      }
      return Ok((result, swaps));
    }

    /** The product loop of `determinant`: the diagonal entries multiplied
        left to right, up to the smaller dimension. */
    static method DiagonalProduct(upper: Matrix) returns (result: real)
      requires upper.Valid() && 1 <= upper.cols <= upper.rows
      ensures result == DiagProd(upper.model, upper.cols)
    {
      result := upper.Get(0, 0);
      var n := if upper.cols < upper.rows then upper.cols else upper.rows;
      for index := 1 to n
        invariant result == DiagProd(upper.model, index)
      {
        var d := upper.Get(index, index);
        DiagProdNext(upper.model, index, result, d);
        result := result * d;
      }
    }

    /** `determinant`: the diagonal product of the eliminated matrix,
        negated when the number of swaps is odd. */
    static method Determinant(target: Matrix, rule: PivotRule) returns (o: Outcome<real>)
      requires target.Valid() && 1 <= target.cols <= target.rows
      ensures o == MatrixSpec.Determinant(target.model, rule)
    {
      var triangular := GetUpperTriangular(target, rule);
      if triangular.Err? {
        return Err(triangular.failure);
      }
      var upper, swaps := triangular.value.0, triangular.value.1;
      var result := DiagonalProduct(upper);
      if swaps % 2 == 0 {
        return Ok(result);
      } else {
        return Ok(0.0 - result);
      }
    }

    /** `get_matrix_of_cofactors`: entries where row + col is odd are
        negated. */
    static method Cofactors(target: Matrix) returns (result: Matrix)
      requires target.Valid()
      ensures fresh(result) && result.Valid()
      ensures result.model == MatrixSpec.Cofactors(target.model)
    {
      ghost var t := MatrixSpec.Cofactors(target.model);
      result := new Matrix.New(target.rows, target.cols);
      FillToStart(t);
      for row := 0 to target.rows
        invariant result.Valid() && result.rows == target.rows && result.cols == target.cols
        invariant result.model == FillTo(t, row, 0)
      {
        CofactorsRow(target, result, row, t);
      }
      FillToEnd(t);
    }

    /** One pass of the outer loop of `get_matrix_of_cofactors`: row `row`
        of the result gets the entries of target, negated where row + col
        is odd. */
    static method CofactorsRow(target: Matrix, result: Matrix, row: nat, ghost t: Mat)
      requires target.Valid() && row < target.rows && t == MatrixSpec.Cofactors(target.model)
      requires result != target && result.Valid() && result.rows == target.rows && result.cols == target.cols
      requires result.model == FillTo(t, row, 0)
      modifies result
      ensures result.Valid() && result.model == FillTo(t, row + 1, 0)
    {
      for col := 0 to target.cols
        invariant result.Valid() && result.model == FillTo(t, row, col)
      {
        FillToStep(t, row, col);
        if (row + col) % 2 == 0 {
          result.Set(row, col, target.Get(row, col));
        } else {
          result.Set(row, col, 0.0 - target.Get(row, col));
        }
      }
      FillToNextRow(t, row);
    }

    /** One pass of the inner copy loop of `get_matrix_of_minors`: row i of
        target, without column selectedCol, becomes row tempRow of temp. */
    static method CopyMinorRow(target: Matrix, selectedCol: nat, temp: Matrix, i: nat, tempRow: nat, ghost minor: Mat)
      requires target.Valid() && i < target.rows && selectedCol < target.cols
      requires temp != target && temp.Valid() && tempRow < temp.rows && temp.cols == target.cols - 1
      requires Wf(minor) && minor.rows == temp.rows && minor.cols == temp.cols
      requires forall c :: 0 <= c < minor.cols ==> minor.cells[tempRow][c] == target.model.cells[i][Skip(c, selectedCol)]
      requires temp.model == FillTo(minor, tempRow, 0)
      modifies temp
      ensures temp.Valid() && temp.model == FillTo(minor, tempRow + 1, 0)
    {
      var tempCol: nat := 0;
      for j := 0 to target.cols
        invariant temp.Valid() && tempCol == if j <= selectedCol then j else j - 1
        invariant temp.model == FillTo(minor, tempRow, tempCol)
      {
        if j == selectedCol {
          continue;
        }
        FillToStep(minor, tempRow, tempCol);
        temp.Set(tempRow, tempCol, target.Get(i, j));
        tempCol := tempCol + 1;
      }
      FillToNextRow(minor, tempRow);
    }

    /** The copy loop of `get_matrix_of_minors`: every entry outside the
        selected row and column, in order. */
    static method CopyMinor(target: Matrix, selectedRow: nat, selectedCol: nat) returns (temp: Matrix)
      requires target.Valid() && selectedRow < target.rows && selectedCol < target.cols
      ensures fresh(temp) && temp.Valid()
      ensures temp.model == Minor(target.model, selectedRow, selectedCol)
    {
      ghost var minor := Minor(target.model, selectedRow, selectedCol);
      temp := new Matrix.New(target.rows - 1, target.cols - 1);
      FillToStart(minor);
      var tempRow: nat := 0;
      for i := 0 to target.rows
        invariant temp.Valid() && temp.rows == target.rows - 1 && temp.cols == target.cols - 1
        invariant tempRow == if i <= selectedRow then i else i - 1
        invariant temp.model == FillTo(minor, tempRow, 0)
      {
        if i == selectedRow {
          continue;
        }
        forall c | 0 <= c < minor.cols
          ensures minor.cells[tempRow][c] == target.model.cells[i][Skip(c, selectedCol)]
        {
          MinorAt(target.model, selectedRow, selectedCol, tempRow, c);
        }
        CopyMinorRow(target, selectedCol, temp, i, tempRow, minor);
        tempRow := tempRow + 1;
      }
      FillToEnd(minor);
    }

    /** The body of the loops of `get_matrix_of_minors`: the determinant of
        the copied minor. */
    static method DeterminantOfMinor(target: Matrix, selectedRow: nat, selectedCol: nat, rule: PivotRule)
      returns (o: Outcome<real>)
      requires target.Valid() && 2 <= target.cols <= target.rows
      requires selectedRow < target.rows && selectedCol < target.cols
      ensures o == MatrixSpec.Determinant(Minor(target.model, selectedRow, selectedCol), rule)
    {
      var temp := CopyMinor(target, selectedRow, selectedCol);
      o := Determinant(temp, rule);
    }

    /** The body of the inner loop of `get_matrix_of_minors`: entry
        (selectedRow, selectedCol) of the result becomes the determinant of
        its minor, when that minor has one. */
    static method MinorsEntry(target: Matrix, rule: PivotRule, result: Matrix, selectedRow: nat, selectedCol: nat, ghost t: Mat)
      returns (ok: bool)
      requires target.Valid() && 2 <= target.cols <= target.rows
      requires selectedRow < target.rows && selectedCol < target.cols
      requires result != target && result.Valid() && result.rows == target.rows && result.cols == target.cols
      requires Wf(t) && t.rows == target.rows && t.cols == target.cols
      requires MatrixSpec.Determinant(Minor(target.model, selectedRow, selectedCol), rule).Ok? ==>
        t.cells[selectedRow][selectedCol] == MatrixSpec.Determinant(Minor(target.model, selectedRow, selectedCol), rule).value
      requires result.model == FillTo(t, selectedRow, selectedCol)
      modifies result
      ensures result.Valid()
      ensures ok <==> MatrixSpec.Determinant(Minor(target.model, selectedRow, selectedCol), rule).Ok?
      ensures ok ==> result.model == FillTo(t, selectedRow, selectedCol + 1)
    {
      var determinant := DeterminantOfMinor(target, selectedRow, selectedCol, rule);
      if determinant.Err? {
        return false;
      }
      FillToStep(t, selectedRow, selectedCol);
      result.Set(selectedRow, selectedCol, determinant.value);
      return true;
    }

    /** One pass of the outer loop of `get_matrix_of_minors`: row
        selectedRow of the result gets the determinants of its minors, or
        the pass stops at the first minor whose elimination stops. The
        expected entries `t` are given by what they hold, not by formula. */
    static method MinorsRow(target: Matrix, rule: PivotRule, result: Matrix, selectedRow: nat, ghost t: Mat)
      returns (ok: bool)
      requires target.Valid() && (target.cols == 0 || 2 <= target.cols <= target.rows) && selectedRow < target.rows
      requires result != target && result.Valid() && result.rows == target.rows && result.cols == target.cols
      requires Wf(t) && t.rows == target.rows && t.cols == target.cols
      requires forall r, c :: 0 <= r < t.rows && 0 <= c < t.cols && MatrixSpec.Determinant(Minor(target.model, r, c), rule).Ok? ==>
        t.cells[r][c] == MatrixSpec.Determinant(Minor(target.model, r, c), rule).value
      requires result.model == FillTo(t, selectedRow, 0)
      requires MinorsDefinedBefore(target.model, rule, selectedRow, 0)
      modifies result
      ensures result.Valid()
      ensures ok ==> result.model == FillTo(t, selectedRow + 1, 0)
      ensures ok ==> MinorsDefinedBefore(target.model, rule, selectedRow + 1, 0)
      ensures !ok ==> !MinorsDefined(target.model, rule)
    {
      ghost var m := target.model;
      for selectedCol := 0 to target.cols
        invariant result.Valid() && result.model == FillTo(t, selectedRow, selectedCol)
        invariant MinorsDefinedBefore(m, rule, selectedRow, selectedCol)
      {
        ok := MinorsEntry(target, rule, result, selectedRow, selectedCol, t);
        if !ok {
          return;
        }
        MinorsDefinedNext(m, rule, selectedRow, selectedCol);
      }
      MinorsDefinedNextRow(m, rule, selectedRow);
      FillToNextRow(t, selectedRow);
      return true;
    }

    /** `get_matrix_of_minors`: entry (r, c) is the determinant of the
        matrix without row r and column c; the first minor whose
        elimination stops ends the whole computation. */
    static method Minors(target: Matrix, rule: PivotRule) returns (o: Outcome<Matrix>)
      requires target.Valid()
      requires target.rows == 0 || target.cols == 0 || 2 <= target.cols <= target.rows
      ensures o.Ok? <==> MinorsDefined(target.model, rule)
      ensures o.Err? ==> o.failure == MinorFails
      ensures o.Ok? ==> fresh(o.value) && o.value.Valid() && o.value.model == MinorsOf(target.model, rule)
    {
      ghost var t := MinorsOf(target.model, rule);
      o := FillMinors(target, rule, t);
    }

    /** The loops of `get_matrix_of_minors`, filling the result row by row
        towards `t`. */
    static method FillMinors(target: Matrix, rule: PivotRule, ghost t: Mat) returns (o: Outcome<Matrix>)
      requires target.Valid()
      requires target.rows == 0 || target.cols == 0 || 2 <= target.cols <= target.rows
      requires Wf(t) && t.rows == target.rows && t.cols == target.cols
      requires forall r, c :: 0 <= r < t.rows && 0 <= c < t.cols && MatrixSpec.Determinant(Minor(target.model, r, c), rule).Ok? ==>
        t.cells[r][c] == MatrixSpec.Determinant(Minor(target.model, r, c), rule).value
      ensures o.Ok? <==> MinorsDefined(target.model, rule)
      ensures o.Err? ==> o.failure == MinorFails
      ensures o.Ok? ==> fresh(o.value) && o.value.Valid() && o.value.model == t
    {
      ghost var m := target.model;
      var result := new Matrix.New(target.rows, target.cols);
      FillToStart(t);
      for selectedRow := 0 to target.rows
        invariant result.Valid() && result.rows == m.rows && result.cols == m.cols
        invariant result.model == FillTo(t, selectedRow, 0)
        invariant MinorsDefinedBefore(m, rule, selectedRow, 0)
      {
        var ok := MinorsRow(target, rule, result, selectedRow, t);
        if !ok {
          return Err(MinorFails);
        }
      }
      MinorsDefinedAll(m, rule);
      FillToEnd(t);
      return Ok(result);
    }

    /** `inverse`: minors, cofactor signs, transpose, then scaling by
        1 / determinant. */
    static method Inverse(target: Matrix, rule: PivotRule) returns (o: Outcome<Matrix>)
      requires target.Valid() && 2 <= target.cols <= target.rows
      ensures o.Ok? <==> MatrixSpec.Inverse(target.model, rule).Ok?
      ensures o.Ok? ==> fresh(o.value) && o.value.Valid()
      ensures o.Ok? ==> o.value.model == MatrixSpec.Inverse(target.model, rule).value
    {
      var minors := Minors(target, rule);
      if minors.Err? {
        return Err(minors.failure);
      }
      var result := Cofactors(minors.value);
      result := Transpose(result);
      var determinant := Determinant(target, rule);
      if determinant.Err? {
        return Err(determinant.failure);
      }
      if determinant.value == 0.0 {
        return Err(DeterminantIsZero);
      }
      result := Scale(result, 1.0 / determinant.value);
      return Ok(result);
    }

    /** The shared loop of `+`, `-` and `hadamard_product`:
        `data[i] = lhs.data[i] op rhs.data[i]` over the whole buffer. */
    static method Combine(op: CellOp, lhs: Matrix, rhs: Matrix) returns (result: Matrix)
      requires lhs.Valid() && rhs.Valid() && lhs.rows == rhs.rows && lhs.cols == rhs.cols
      ensures fresh(result) && result.Valid()
      ensures result.model == Pointwise(op, lhs.model, rhs.model)
    {
      result := new Matrix.New(lhs.rows, lhs.cols);
      ghost var target := PointwiseBuffer(op, lhs.data, rhs.data);
      AreaIsProduct(lhs.rows, lhs.cols);
      assert lhs.cols * lhs.rows == lhs.rows * lhs.cols;
      for index := 0 to lhs.cols * lhs.rows
        invariant |result.data| == |target|
        invariant forall k :: 0 <= k < index ==> result.data[k] == target[k]
      {
        result.data := result.data[index := Apply(op, lhs.data[index], rhs.data[index])];
      }
      assert result.data == target;
      result.model := FromBuffer(result.rows, result.cols, result.data);
      FromBufferPointwise(op, lhs.rows, lhs.cols, lhs.data, rhs.data);
    }

    /** `hadamard_product`: the entry-wise product. */
    static method Hadamard(lhs: Matrix, rhs: Matrix) returns (result: Matrix)
      requires lhs.Valid() && rhs.Valid() && lhs.rows == rhs.rows && lhs.cols == rhs.cols
      ensures fresh(result) && result.Valid()
      ensures result.model == Pointwise(Times, lhs.model, rhs.model)
    {
      result := Combine(Times, lhs, rhs);
    }

    /** `&lhs + &rhs`. */
    static method Add(lhs: Matrix, rhs: Matrix) returns (result: Matrix)
      requires lhs.Valid() && rhs.Valid() && lhs.rows == rhs.rows && lhs.cols == rhs.cols
      ensures fresh(result) && result.Valid()
      ensures result.model == Pointwise(Plus, lhs.model, rhs.model)
    {
      result := Combine(Plus, lhs, rhs);
    }

    /** `&lhs - &rhs`. */
    static method Sub(lhs: Matrix, rhs: Matrix) returns (result: Matrix)
      requires lhs.Valid() && rhs.Valid() && lhs.rows == rhs.rows && lhs.cols == rhs.cols
      ensures fresh(result) && result.Valid()
      ensures result.model == Pointwise(Minus, lhs.model, rhs.model)
    {
      result := Combine(Minus, lhs, rhs);
    }

    /** `&m * k`: `data[i] = m.data[i] * k` over the whole buffer. */
    static method Scale(m: Matrix, k: real) returns (result: Matrix)
      requires m.Valid()
      ensures fresh(result) && result.Valid()
      ensures result.model == MatrixSpec.Scale(m.model, k)
    {
      result := new Matrix.New(m.rows, m.cols);
      ghost var target := ScaleBuffer(m.data, k);
      AreaIsProduct(m.rows, m.cols);
      assert m.cols * m.rows == m.rows * m.cols;
      for index := 0 to m.cols * m.rows
        invariant |result.data| == |target|
        invariant forall i :: 0 <= i < index ==> result.data[i] == target[i]
      {
        result.data := result.data[index := m.data[index] * k];
      }
      assert result.data == target;
      result.model := FromBuffer(result.rows, result.cols, result.data);
      FromBufferScale(m.rows, m.cols, m.data, k);
    }

    /** The innermost loop of `&lhs * &rhs`: lhs(i, k) * rhs(k, j) summed
        over k from 0. */
    static method RowTimesColumn(lhs: Matrix, rhs: Matrix, i: nat, j: nat) returns (sum: real)
      requires lhs.Valid() && rhs.Valid() && lhs.cols == rhs.rows && i < lhs.rows && j < rhs.cols
      ensures sum == Dot(lhs.model, rhs.model, i, j, lhs.cols)
    {
      sum := 0.0;
      for k := 0 to lhs.cols
        invariant sum == Dot(lhs.model, rhs.model, i, j, k)
      {
        var x, y := lhs.Get(i, k), rhs.Get(k, j);
        DotNext(lhs.model, rhs.model, i, j, k, sum, x, y);
        sum := sum + x * y;
      }
    }

    /** `&lhs * &rhs`: entry (i, j) is the sum over k of lhs(i, k) * rhs(k, j). */
    static method Product(lhs: Matrix, rhs: Matrix) returns (result: Matrix)
      requires lhs.Valid() && rhs.Valid() && lhs.cols == rhs.rows
      ensures fresh(result) && result.Valid()
      ensures result.model == MatrixSpec.Product(lhs.model, rhs.model)
    {
      ghost var p := MatrixSpec.Product(lhs.model, rhs.model);
      result := new Matrix.New(lhs.rows, rhs.cols);
      FillToStart(p);
      for i := 0 to lhs.rows
        invariant result.Valid() && result.rows == lhs.rows && result.cols == rhs.cols
        invariant result.model == FillTo(p, i, 0)
      {
        for j := 0 to rhs.cols
          invariant result.Valid() && result.model == FillTo(p, i, j)
        {
          var sum := RowTimesColumn(lhs, rhs, i, j);
          FillToStep(p, i, j);
          result.Set(i, j, sum);
        }
        FillToNextRow(p, i);
      }
      FillToEnd(p);
    }
  }
}
