/** What the dense matrix operations compute, stated on values: a matrix is
    its shape and its rows of entries. The row-major buffer the program stores
    is related to this view by FromBuffer. */
module MatrixSpec {

  datatype Mat = Mat(rows: nat, cols: nat, cells: seq<seq<real>>)

  /** The shape holds: `rows` rows of `cols` entries each. */
  predicate Wf(m: Mat)
  {
    |m.cells| == m.rows && forall r :: 0 <= r < m.rows ==> |m.cells[r]| == m.cols
  }

  /** The entry in row r, column c. */
  function At(m: Mat, r: nat, c: nat): real
    requires Wf(m) && r < m.rows && c < m.cols
  {
    m.cells[r][c]
  }

  /** Two matrices of the same shape that agree at every entry are equal. */
  lemma Ext(a: Mat, b: Mat)
    requires Wf(a) && Wf(b) && a.rows == b.rows && a.cols == b.cols
    requires forall r, c :: 0 <= r < a.rows && 0 <= c < a.cols ==> a.cells[r][c] == b.cells[r][c]
    ensures a == b
  {
    forall r | 0 <= r < a.rows
      ensures a.cells[r] == b.cells[r]
    {
    }
  }

  // ---------------------------------------------------------------------------
  // The row-major buffer

  lemma MulMonotone(k: nat, a: nat, b: nat)
    requires a <= b
    ensures k * a <= k * b
  {
  }

  /** rows * cols counted row by row: the length of a rows x cols buffer. */
  function Area(rows: nat, cols: nat): nat
    decreases rows
  {
    if rows == 0 then 0 else Area(rows - 1, cols) + cols
  }

  lemma {:induction false} AreaIsProduct(rows: nat, cols: nat)
    ensures Area(rows, cols) == rows * cols
    decreases rows
  {
    if rows > 0 {
      AreaIsProduct(rows - 1, cols);
    }
  }

  /** Row r of a rows x cols buffer ends inside the buffer. */
  lemma RowEnd(rows: nat, cols: nat, r: nat)
    requires r < rows
    ensures cols * r + cols <= rows * cols == Area(rows, cols)
  {
    AreaIsProduct(rows, cols);
    MulMonotone(cols, r + 1, rows);
  }

  /** Different cells have different buffer indices `cols * row + col`. */
  lemma IndexDistinct(cols: nat, r: nat, c: nat, r': nat, c': nat)
    requires c < cols && c' < cols && (r != r' || c != c')
    ensures cols * r + c != cols * r' + c'
  {
    if r < r' {
      MulMonotone(cols, r + 1, r');
    } else if r' < r {
      MulMonotone(cols, r' + 1, r);
    }
  }

  /** A buffer of `rows` rows of `cols` entries, cut into those rows. */
  function Chunks(rows: nat, cols: nat, data: seq<real>): (cells: seq<seq<real>>)
    requires |data| == Area(rows, cols)
    ensures |cells| == rows && forall r :: 0 <= r < rows ==> |cells[r]| == cols
    decreases rows
  {
    if rows == 0 then [] else [data[..cols]] + Chunks(rows - 1, cols, data[cols..])
  }

  /** Row r is the slice that starts after r full rows. */
  lemma {:induction false} ChunksAt(rows: nat, cols: nat, data: seq<real>, r: nat)
    requires |data| == Area(rows, cols) && r < rows
    ensures Area(r, cols) + cols <= |data|
    ensures Chunks(rows, cols, data)[r] == data[Area(r, cols) .. Area(r, cols) + cols]
    decreases rows
  {
    var cells := Chunks(rows, cols, data);
    assert cells == [data[..cols]] + Chunks(rows - 1, cols, data[cols..]);
    if r > 0 {
      ChunksAt(rows - 1, cols, data[cols..], r - 1);
      assert Area(r, cols) == Area(r - 1, cols) + cols;
      assert cells[r] == Chunks(rows - 1, cols, data[cols..])[r - 1];
    }
  }

  /** The matrix a buffer holds: entry (r, c) is `data[cols * r + c]`. */
  function FromBuffer(rows: nat, cols: nat, data: seq<real>): (m: Mat)
    requires |data| == Area(rows, cols)
    ensures Wf(m) && m.rows == rows && m.cols == cols
  {
    Mat(rows, cols, Chunks(rows, cols, data))
  }

  lemma FromBufferAt(rows: nat, cols: nat, data: seq<real>, r: nat, c: nat)
    requires |data| == Area(rows, cols) && r < rows && c < cols
    ensures cols * r + c < |data|
    ensures At(FromBuffer(rows, cols, data), r, c) == data[cols * r + c]
  {
    ChunksAt(rows, cols, data, r);
    AreaIsProduct(r, cols);
    assert Area(r, cols) == cols * r;
  }

  /** `data[cols * row + col] = value` changes exactly entry (row, col). */
  function SetCell(m: Mat, r: nat, c: nat, v: real): (m': Mat)
    requires Wf(m) && r < m.rows && c < m.cols
    ensures Wf(m') && m'.rows == m.rows && m'.cols == m.cols
    ensures At(m', r, c) == v
    ensures forall r', c' :: 0 <= r' < m.rows && 0 <= c' < m.cols && (r' != r || c' != c) ==>
      m'.cells[r'][c'] == m.cells[r'][c']
  {
    m.(cells := m.cells[r := m.cells[r][c := v]])
  }

  lemma FromBufferSet(rows: nat, cols: nat, data: seq<real>, r: nat, c: nat, v: real)
    requires |data| == Area(rows, cols) && r < rows && c < cols
    ensures cols * r + c < |data|
    ensures FromBuffer(rows, cols, data[cols * r + c := v]) == SetCell(FromBuffer(rows, cols, data), r, c, v)
  {
    RowEnd(rows, cols, r);
    var a := FromBuffer(rows, cols, data[cols * r + c := v]);
    var b := SetCell(FromBuffer(rows, cols, data), r, c, v);
    forall r', c' | 0 <= r' < rows && 0 <= c' < cols
      ensures a.cells[r'][c'] == b.cells[r'][c']
    {
      if r' == r && c' == c {
        FromBufferSetSame(rows, cols, data, r, c, v);
      } else {
        FromBufferSetOther(rows, cols, data, r, c, v, r', c');
      }
    }
    Ext(a, b);
  }

  /** Every index of a rows x cols buffer is `cols * r + c` for a cell
      (r, c) of the matrix. */
  lemma BufferIndex(rows: nat, cols: nat, i: nat)
    requires i < Area(rows, cols)
    ensures cols > 0 && i / cols < rows && i % cols < cols
    ensures cols * (i / cols) + i % cols == i
  {
    AreaIsProduct(rows, cols);
    if i / cols >= rows {
      MulMonotone(cols, rows, i / cols);
    }
  }

  /** A buffer is determined by the matrix it holds. */
  lemma FromBufferInjective(rows: nat, cols: nat, a: seq<real>, b: seq<real>)
    requires |a| == |b| == Area(rows, cols)
    requires FromBuffer(rows, cols, a) == FromBuffer(rows, cols, b)
    ensures a == b
  {
    forall i | 0 <= i < |a|
      ensures a[i] == b[i]
    {
      BufferIndex(rows, cols, i);
      FromBufferAt(rows, cols, a, i / cols, i % cols);
      FromBufferAt(rows, cols, b, i / cols, i % cols);
    }
  }

  /** The only buffer that holds the matrix with entry (r, c) set to v is
      the old buffer with index `cols * r + c` overwritten. */
  lemma SetCellBuffer(rows: nat, cols: nat, data: seq<real>, data': seq<real>, r: nat, c: nat, v: real)
    requires |data| == |data'| == Area(rows, cols) && r < rows && c < cols
    requires FromBuffer(rows, cols, data') == SetCell(FromBuffer(rows, cols, data), r, c, v)
    ensures cols * r + c < |data| && data' == data[cols * r + c := v]
  {
    FromBufferSet(rows, cols, data, r, c, v);
    FromBufferInjective(rows, cols, data', data[cols * r + c := v]);
  }

  /** The written cell reads back the new value. */
  lemma FromBufferSetSame(rows: nat, cols: nat, data: seq<real>, r: nat, c: nat, v: real)
    requires |data| == Area(rows, cols) && r < rows && c < cols
    ensures cols * r + c < |data|
    ensures At(FromBuffer(rows, cols, data[cols * r + c := v]), r, c) == v
  {
    RowEnd(rows, cols, r);
    FromBufferAt(rows, cols, data[cols * r + c := v], r, c);
  }

  /** Every other cell keeps its value. */
  lemma FromBufferSetOther(rows: nat, cols: nat, data: seq<real>, r: nat, c: nat, v: real, r': nat, c': nat)
    requires |data| == Area(rows, cols) && r < rows && c < cols && r' < rows && c' < cols
    requires r' != r || c' != c
    ensures cols * r + c < |data|
    ensures At(FromBuffer(rows, cols, data[cols * r + c := v]), r', c') == At(FromBuffer(rows, cols, data), r', c')
  {
    RowEnd(rows, cols, r);
    RowEnd(rows, cols, r');
    IndexDistinct(cols, r, c, r', c');
    FromBufferAgree(rows, cols, data[cols * r + c := v], data, r', c');
  }

  /** Buffers that agree at a cell's index hold the same entry there. */
  lemma FromBufferAgree(rows: nat, cols: nat, a: seq<real>, b: seq<real>, r: nat, c: nat)
    requires |a| == |b| == Area(rows, cols) && r < rows && c < cols
    requires cols * r + c < |a| && a[cols * r + c] == b[cols * r + c]
    ensures At(FromBuffer(rows, cols, a), r, c) == At(FromBuffer(rows, cols, b), r, c)
  {
    FromBufferAt(rows, cols, a, r, c);
    FromBufferAt(rows, cols, b, r, c);
  }

  /** `Matrix::new`: every entry is `T::default()`, that is 0. */
  function Zeros(rows: nat, cols: nat): (m: Mat)
    ensures Wf(m) && m.rows == rows && m.cols == cols
    ensures forall r, c :: 0 <= r < rows && 0 <= c < cols ==> m.cells[r][c] == 0.0
  {
    Mat(rows, cols, seq(rows, r => seq(cols, c => 0.0)))
  }

  lemma FromZeroBuffer(rows: nat, cols: nat)
    ensures FromBuffer(rows, cols, seq(Area(rows, cols), i => 0.0)) == Zeros(rows, cols)
  {
    var data := seq(Area(rows, cols), i => 0.0);
    forall r, c | 0 <= r < rows && 0 <= c < cols
      ensures FromBuffer(rows, cols, data).cells[r][c] == 0.0
    {
      FromBufferAt(rows, cols, data, r, c);
    }
    Ext(FromBuffer(rows, cols, data), Zeros(rows, cols));
  }

  // ---------------------------------------------------------------------------
  // Filling a fresh matrix in row-major order

  /** A zero matrix of t's shape whose entries before (r, c), in row-major
      order, have been set to t's. */
  function FillTo(t: Mat, r: nat, c: nat): (m: Mat)
    requires Wf(t) && r <= t.rows && c <= t.cols
    ensures Wf(m) && m.rows == t.rows && m.cols == t.cols
  {
    Mat(t.rows, t.cols, seq(t.rows, i requires 0 <= i < t.rows =>
      seq(t.cols, j requires 0 <= j < t.cols =>
        if i < r || (i == r && j < c) then t.cells[i][j] else 0.0)))
  }

  lemma FillToStart(t: Mat)
    requires Wf(t)
    ensures FillTo(t, 0, 0) == Zeros(t.rows, t.cols)
  {
    Ext(FillTo(t, 0, 0), Zeros(t.rows, t.cols));
  }

  /** Setting entry (r, c) to t's moves the fill one entry on. */
  lemma FillToStep(t: Mat, r: nat, c: nat)
    requires Wf(t) && r < t.rows && c < t.cols
    ensures SetCell(FillTo(t, r, c), r, c, t.cells[r][c]) == FillTo(t, r, c + 1)
  {
    Ext(SetCell(FillTo(t, r, c), r, c, t.cells[r][c]), FillTo(t, r, c + 1));
  }

  lemma FillToNextRow(t: Mat, r: nat)
    requires Wf(t) && r < t.rows
    ensures FillTo(t, r, t.cols) == FillTo(t, r + 1, 0)
  {
    Ext(FillTo(t, r, t.cols), FillTo(t, r + 1, 0));
  }

  lemma FillToEnd(t: Mat)
    requires Wf(t)
    ensures FillTo(t, t.rows, 0) == t
  {
    Ext(FillTo(t, t.rows, 0), t);
  }

  // ---------------------------------------------------------------------------
  // Transpose and row exchange

  /** `transpose`: a cols x rows matrix with entry (r, c) = m(c, r). */
  function Transpose(m: Mat): (t: Mat)
    requires Wf(m)
    ensures Wf(t) && t.rows == m.cols && t.cols == m.rows
    ensures forall r, c :: 0 <= r < m.cols && 0 <= c < m.rows ==> t.cells[r][c] == m.cells[c][r]
  {
    Mat(m.cols, m.rows, seq(m.cols, r requires 0 <= r < m.cols =>
      seq(m.rows, c requires 0 <= c < m.rows => m.cells[c][r])))
  }

  lemma TransposeInvolutive(m: Mat)
    requires Wf(m)
    ensures Transpose(Transpose(m)) == m
  {
    Ext(Transpose(Transpose(m)), m);
  }

  /** `swap_rows(i, j)`: rows i and j trade places, every other row stays. */
  function SwapRows(m: Mat, i: nat, j: nat): (s: Mat)
    requires Wf(m) && i < m.rows && j < m.rows
    ensures Wf(s) && s.rows == m.rows && s.cols == m.cols
  {
    m.(cells := m.cells[i := m.cells[j]][j := m.cells[i]])
  }

  /** Swapping a row with itself changes nothing. */
  lemma SwapRowsSelf(m: Mat, i: nat)
    requires Wf(m) && i < m.rows
    ensures SwapRows(m, i, i) == m
  {
  }

  lemma SwapRowsAt(m: Mat, i: nat, j: nat, r: nat, c: nat)
    requires Wf(m) && i < m.rows && j < m.rows && r < m.rows && c < m.cols
    ensures At(SwapRows(m, i, j), r, c)
      == if r == i then At(m, j, c) else if r == j then At(m, i, c) else At(m, r, c)
  {
  }

  lemma SwapRowsInvolutive(m: Mat, i: nat, j: nat)
    requires Wf(m) && i < m.rows && j < m.rows
    ensures SwapRows(SwapRows(m, i, j), i, j) == m
  {
    var s := SwapRows(SwapRows(m, i, j), i, j);
    forall r, c | 0 <= r < m.rows && 0 <= c < m.cols
      ensures s.cells[r][c] == m.cells[r][c]
    {
      SwapRowsAt(m, i, j, r, c);
      SwapRowsAt(SwapRows(m, i, j), i, j, r, c);
    }
    Ext(s, m);
  }

  // ---------------------------------------------------------------------------
  // Entry-wise operations

  /** The entry-wise operators: `+`, `-` and the Hadamard product. */
  datatype CellOp = Plus | Minus | Times

  function Apply(op: CellOp, x: real, y: real): real
  {
    match op
    case Plus => x + y
    case Minus => x - y
    case Times => x * y
  }

  /** Entry (r, c) of the result is Apply(op, a(r, c), b(r, c)). */
  function Pointwise(op: CellOp, a: Mat, b: Mat): (p: Mat)
    requires Wf(a) && Wf(b) && a.rows == b.rows && a.cols == b.cols
    ensures Wf(p) && p.rows == a.rows && p.cols == a.cols
    ensures forall r, c :: 0 <= r < a.rows && 0 <= c < a.cols ==>
      p.cells[r][c] == Apply(op, a.cells[r][c], b.cells[r][c])
  {
    Mat(a.rows, a.cols, seq(a.rows, r requires 0 <= r < a.rows =>
      seq(a.cols, c requires 0 <= c < a.cols => Apply(op, a.cells[r][c], b.cells[r][c]))))
  }

  /** `&m * k`: every entry multiplied by k. */
  function Scale(m: Mat, k: real): (s: Mat)
    requires Wf(m)
    ensures Wf(s) && s.rows == m.rows && s.cols == m.cols
    ensures forall r, c :: 0 <= r < m.rows && 0 <= c < m.cols ==> s.cells[r][c] == m.cells[r][c] * k
  {
    Mat(m.rows, m.cols, seq(m.rows, r requires 0 <= r < m.rows =>
      seq(m.cols, c requires 0 <= c < m.cols => m.cells[r][c] * k)))
  }

  /** The buffer loops `data[i] = lhs.data[i] op rhs.data[i]`. */
  function PointwiseBuffer(op: CellOp, x: seq<real>, y: seq<real>): (z: seq<real>)
    requires |x| == |y|
    ensures |z| == |x|
  {
    seq(|x|, i requires 0 <= i < |x| => Apply(op, x[i], y[i]))
  }

  /** The buffer loop `data[i] = self.data[i] * rhs`. */
  function ScaleBuffer(x: seq<real>, k: real): (z: seq<real>)
    ensures |z| == |x|
  {
    seq(|x|, i requires 0 <= i < |x| => x[i] * k)
  }

  /** The flat loops over cols * rows indices compute the entry-wise results. */
  lemma FromBufferPointwise(op: CellOp, rows: nat, cols: nat, x: seq<real>, y: seq<real>)
    requires |x| == Area(rows, cols) && |y| == Area(rows, cols)
    ensures FromBuffer(rows, cols, PointwiseBuffer(op, x, y))
      == Pointwise(op, FromBuffer(rows, cols, x), FromBuffer(rows, cols, y))
  {
    var z := PointwiseBuffer(op, x, y);
    forall r, c | 0 <= r < rows && 0 <= c < cols
      ensures FromBuffer(rows, cols, z).cells[r][c]
        == Apply(op, FromBuffer(rows, cols, x).cells[r][c], FromBuffer(rows, cols, y).cells[r][c])
    {
      FromBufferPointwiseAt(op, rows, cols, x, y, r, c);
    }
    Ext(FromBuffer(rows, cols, z), Pointwise(op, FromBuffer(rows, cols, x), FromBuffer(rows, cols, y)));
  }

  lemma FromBufferPointwiseAt(op: CellOp, rows: nat, cols: nat, x: seq<real>, y: seq<real>, r: nat, c: nat)
    requires |x| == Area(rows, cols) && |y| == Area(rows, cols) && r < rows && c < cols
    ensures At(FromBuffer(rows, cols, PointwiseBuffer(op, x, y)), r, c)
      == Apply(op, At(FromBuffer(rows, cols, x), r, c), At(FromBuffer(rows, cols, y), r, c))
  {
    FromBufferAt(rows, cols, PointwiseBuffer(op, x, y), r, c);
    FromBufferAt(rows, cols, x, r, c);
    FromBufferAt(rows, cols, y, r, c);
  }

  lemma FromBufferScale(rows: nat, cols: nat, x: seq<real>, k: real)
    requires |x| == Area(rows, cols)
    ensures FromBuffer(rows, cols, ScaleBuffer(x, k)) == Scale(FromBuffer(rows, cols, x), k)
  {
    var z := ScaleBuffer(x, k);
    forall r, c | 0 <= r < rows && 0 <= c < cols
      ensures FromBuffer(rows, cols, z).cells[r][c] == FromBuffer(rows, cols, x).cells[r][c] * k
    {
      FromBufferScaleAt(rows, cols, x, k, r, c);
    }
    Ext(FromBuffer(rows, cols, z), Scale(FromBuffer(rows, cols, x), k));
  }

  lemma FromBufferScaleAt(rows: nat, cols: nat, x: seq<real>, k: real, r: nat, c: nat)
    requires |x| == Area(rows, cols) && r < rows && c < cols
    ensures At(FromBuffer(rows, cols, ScaleBuffer(x, k)), r, c) == At(FromBuffer(rows, cols, x), r, c) * k
  {
    FromBufferAt(rows, cols, ScaleBuffer(x, k), r, c);
    FromBufferAt(rows, cols, x, r, c);
  }

  /** (a + b) - b == a. */
  lemma AddSubCancel(a: Mat, b: Mat)
    requires Wf(a) && Wf(b) && a.rows == b.rows && a.cols == b.cols
    ensures Pointwise(Minus, Pointwise(Plus, a, b), b) == a
  {
    Ext(Pointwise(Minus, Pointwise(Plus, a, b), b), a);
  }

  /** Addition and the Hadamard product do not depend on operand order. */
  lemma PointwiseCommutes(op: CellOp, a: Mat, b: Mat)
    requires op != Minus
    requires Wf(a) && Wf(b) && a.rows == b.rows && a.cols == b.cols
    ensures Pointwise(op, a, b) == Pointwise(op, b, a)
  {
    Ext(Pointwise(op, a, b), Pointwise(op, b, a));
  }

  // ---------------------------------------------------------------------------
  // Matrix product

  /** sum_{k < n} a(i, k) * b(k, j), accumulated from 0 in increasing k. */
  function Dot(a: Mat, b: Mat, i: nat, j: nat, n: nat): real
    requires Wf(a) && Wf(b) && i < a.rows && j < b.cols && n <= a.cols && n <= b.rows
  {
    if n == 0 then 0.0 else Dot(a, b, i, j, n - 1) + a.cells[i][n - 1] * b.cells[n - 1][j]
  }

  lemma DotNext(a: Mat, b: Mat, i: nat, j: nat, n: nat, acc: real, x: real, y: real)
    requires Wf(a) && Wf(b) && i < a.rows && j < b.cols && n < a.cols && n < b.rows
    requires acc == Dot(a, b, i, j, n) && x == a.cells[i][n] && y == b.cells[n][j]
    ensures Dot(a, b, i, j, n + 1) == acc + x * y
  {
  }

  /** `&a * &b`: rows x other.cols, entry (i, j) the dot product of row i of a
      and column j of b. */
  function Product(a: Mat, b: Mat): (p: Mat)
    requires Wf(a) && Wf(b) && a.cols == b.rows
    ensures Wf(p) && p.rows == a.rows && p.cols == b.cols
    ensures forall i, j :: 0 <= i < a.rows && 0 <= j < b.cols ==> p.cells[i][j] == Dot(a, b, i, j, a.cols)
  {
    Mat(a.rows, b.cols, seq(a.rows, i requires 0 <= i < a.rows =>
      seq(b.cols, j requires 0 <= j < b.cols => Dot(a, b, i, j, a.cols))))
  }

  function Identity(n: nat): (m: Mat)
    ensures Wf(m) && m.rows == n && m.cols == n
  {
    Mat(n, n, seq(n, r => seq(n, c => if r == c then 1.0 else 0.0)))
  }

  lemma {:induction false} DotIdentity(a: Mat, i: nat, j: nat, n: nat)
    requires Wf(a) && i < a.rows && j < a.cols && n <= a.rows
    ensures Dot(Identity(a.rows), a, i, j, n) == if i < n then a.cells[i][j] else 0.0
  {
    if n > 0 {
      DotIdentity(a, i, j, n - 1);
    }
  }

  /** The identity is a left unit of the product. */
  lemma IdentityProduct(a: Mat)
    requires Wf(a)
    ensures Product(Identity(a.rows), a) == a
  {
    forall i, j | 0 <= i < a.rows && 0 <= j < a.cols
      ensures Product(Identity(a.rows), a).cells[i][j] == a.cells[i][j]
    {
      DotIdentity(a, i, j, a.rows);
    }
    Ext(Product(Identity(a.rows), a), a);
  }

  // ---------------------------------------------------------------------------
  // Cofactor signs and minors

  /** `get_matrix_of_cofactors`: entry (r, c) kept when r + c is even and
      replaced by 0 - entry when it is odd. */
  function Cofactors(m: Mat): (s: Mat)
    requires Wf(m)
    ensures Wf(s) && s.rows == m.rows && s.cols == m.cols
    ensures forall r, c :: 0 <= r < m.rows && 0 <= c < m.cols && (r + c) % 2 == 0 ==>
      s.cells[r][c] == m.cells[r][c]
    ensures forall r, c :: 0 <= r < m.rows && 0 <= c < m.cols && (r + c) % 2 == 1 ==>
      s.cells[r][c] == -m.cells[r][c]
  {
    Mat(m.rows, m.cols, seq(m.rows, r requires 0 <= r < m.rows =>
      seq(m.cols, c requires 0 <= c < m.cols =>
        if (r + c) % 2 == 0 then m.cells[r][c] else 0.0 - m.cells[r][c])))
  }

  /** Applying the sign pattern twice gives the matrix back. */
  lemma CofactorsInvolutive(m: Mat)
    requires Wf(m)
    ensures Cofactors(Cofactors(m)) == m
  {
    Ext(Cofactors(Cofactors(m)), m);
  }

  /** The matrix with row sr and column sc deleted, as the minors loop fills
      `temp_matrix`. */
  function Minor(m: Mat, sr: nat, sc: nat): (n: Mat)
    requires Wf(m) && sr < m.rows && sc < m.cols
    ensures Wf(n) && n.rows == m.rows - 1 && n.cols == m.cols - 1
  {
    Mat(m.rows - 1, m.cols - 1, seq(m.rows - 1, r requires 0 <= r < m.rows - 1 =>
      seq(m.cols - 1, c requires 0 <= c < m.cols - 1 => m.cells[Skip(r, sr)][Skip(c, sc)])))
  }

  /** The index in the full matrix of index i of the minor that leaves s out. */
  function Skip(i: nat, s: nat): (k: nat)
    ensures k != s && (k == i || k == i + 1)
  {
    if i < s then i else i + 1
  }

  lemma MinorAt(m: Mat, sr: nat, sc: nat, r: nat, c: nat)
    requires Wf(m) && sr < m.rows && sc < m.cols && r < m.rows - 1 && c < m.cols - 1
    ensures At(Minor(m, sr, sc), r, c) == At(m, if r < sr then r else r + 1, if c < sc then c else c + 1)
  {
  }

  // ---------------------------------------------------------------------------
  // Gaussian elimination

  /** Why an operation stops: a zero pivot with rows left to eliminate below
      it, a minor whose determinant stops that way, or a zero determinant in
      `inverse`. Each is a division by zero. */
  datatype Failure = PivotIsZero(col: nat) | MinorFails | DeterminantIsZero

  datatype Outcome<T> = Ok(value: T) | Err(failure: Failure)

  /** The comparison used by the pivot search: `SignedAsWritten` is the test
      `item > pivot || 0 - item > pivot` of the program, `ByMagnitude` is
      partial pivoting on absolute values. */
  datatype PivotRule = SignedAsWritten | ByMagnitude

  function Magnitude(x: real): (a: real)
    ensures a >= 0.0 && (a == x || a == -x)
  {
    if x < 0.0 then -x else x
  }

  predicate Beats(rule: PivotRule, item: real, pivot: real)
  {
    match rule
    case SignedAsWritten => item > pivot || 0.0 - item > pivot
    case ByMagnitude => Magnitude(item) > Magnitude(pivot)
  }

  /** The pivot search of column col over rows col+1 .. end-1, starting from
      the diagonal entry: the chosen value and its row. */
  function PivotOf(m: Mat, col: nat, rule: PivotRule, end: nat): (p: (real, nat))
    requires Wf(m) && col < m.rows && col < m.cols && end <= m.rows
    ensures col <= p.1 < m.rows && (p.1 == col || p.1 < end)
    ensures p.0 == m.cells[p.1][col]
    decreases end
  {
    if end <= col + 1 then (m.cells[col][col], col)
    else
      var p := PivotOf(m, col, rule, end - 1);
      if Beats(rule, m.cells[end - 1][col], p.0) then (m.cells[end - 1][col], end - 1) else p
  }

  /** With partial pivoting the chosen pivot is at least as large in
      magnitude as every entry it was compared with. */
  lemma {:induction false} PivotDominates(m: Mat, col: nat, end: nat)
    requires Wf(m) && col < m.rows && col < m.cols && end <= m.rows
    ensures forall r :: col <= r < end ==>
      Magnitude(m.cells[r][col]) <= Magnitude(PivotOf(m, col, ByMagnitude, end).0)
  {
    if end > col + 1 {
      PivotDominates(m, col, end - 1);
    }
  }

  /** With partial pivoting a zero pivot means the column is zero from the
      diagonal down. */
  lemma ZeroPivotZeroColumn(m: Mat, col: nat)
    requires Wf(m) && col < m.rows && col < m.cols
    requires PivotOf(m, col, ByMagnitude, m.rows).0 == 0.0
    ensures forall r :: col <= r < m.rows ==> m.cells[r][col] == 0.0
  {
    PivotDominates(m, col, m.rows);
  }

  function Ratio(s: Mat, r: nat, col: nat): real
    requires Wf(s) && r < s.rows && col < s.rows && col < s.cols && s.cells[col][col] != 0.0
  {
    0.0 - s.cells[r][col] / s.cells[col][col]
  }

  lemma RatioOf(s: Mat, r: nat, col: nat, x: real, p: real)
    requires Wf(s) && r < s.rows && col < s.rows && col < s.cols && s.cells[col][col] != 0.0
    requires x == s.cells[r][col] && p == s.cells[col][col]
    ensures 0.0 - x / p == Ratio(s, r, col)
  {
  }

  /** One elimination update: `x + ratio * y`. */
  function Shifted(x: real, ratio: real, y: real): real
  {
    x + ratio * y
  }

  /** `row[j] + ratio * prow[j]` for the columns j from col on. */
  function RowOp(row: seq<real>, prow: seq<real>, col: nat, ratio: real): (out: seq<real>)
    requires |prow| == |row|
    ensures |out| == |row|
  {
    seq(|row|, j requires 0 <= j < |row| => if j < col then row[j] else Shifted(row[j], ratio, prow[j]))
  }

  lemma RowOpZero(row: seq<real>, prow: seq<real>, col: nat)
    requires |prow| == |row|
    ensures RowOp(row, prow, col, 0.0) == row
  {
  }

  /** Row `row` gets `ratio` times the pivot row `col` added, from column col
      on; every other row stays. */
  function AddScaledRow(m: Mat, row: nat, col: nat, ratio: real): (m': Mat)
    requires Wf(m) && row < m.rows && col < m.rows
    ensures Wf(m') && m'.rows == m.rows && m'.cols == m.cols
  {
    m.(cells := m.cells[row := RowOp(m.cells[row], m.cells[col], col, ratio)])
  }

  /** Only row `row` changes, and only from column col on. */
  lemma AddScaledRowAt(m: Mat, row: nat, col: nat, ratio: real)
    requires Wf(m) && row < m.rows && col < m.rows
    ensures forall r, c :: 0 <= r < m.rows && 0 <= c < m.cols ==>
      AddScaledRow(m, row, col, ratio).cells[r][c]
        == if r == row && c >= col then Shifted(m.cells[r][c], ratio, m.cells[col][c]) else m.cells[r][c]
  {
    var a := AddScaledRow(m, row, col, ratio);
    forall r, c | 0 <= r < m.rows && 0 <= c < m.cols
      ensures a.cells[r][c] == if r == row && c >= col then Shifted(m.cells[r][c], ratio, m.cells[col][c]) else m.cells[r][c]
    {
      if r == row {
        assert a.cells[r] == RowOp(m.cells[row], m.cells[col], col, ratio);
      }
    }
  }

  /** Rows col+1 .. end-1 have the pivot row, scaled by their ratio, added;
      the ratio of each row is taken from s. */
  function EliminateUpTo(s: Mat, col: nat, end: nat): (e: Mat)
    requires Wf(s) && col < s.rows && col < s.cols && end <= s.rows
    requires col + 1 < end ==> s.cells[col][col] != 0.0
    ensures Wf(e) && e.rows == s.rows && e.cols == s.cols
    decreases end
  {
    if end <= col + 1 then s
    else AddScaledRow(EliminateUpTo(s, col, end - 1), end - 1, col, Ratio(s, end - 1, col))
  }

  lemma EliminateUpToNext(s: Mat, col: nat, end: nat)
    requires Wf(s) && col < end < s.rows && col < s.cols && s.cells[col][col] != 0.0
    ensures EliminateUpTo(s, col, end + 1) == AddScaledRow(EliminateUpTo(s, col, end), end, col, Ratio(s, end, col))
  {
  }

  /** Rows col+1 .. end-1 are updated by their own ratio; every other row
      is kept. */
  lemma {:induction false} EliminateRows(s: Mat, col: nat, end: nat)
    requires Wf(s) && col < s.rows && col < s.cols && end <= s.rows
    requires col + 1 < end ==> s.cells[col][col] != 0.0
    ensures forall r :: 0 <= r < s.rows && (r <= col || end <= r) ==>
      EliminateUpTo(s, col, end).cells[r] == s.cells[r]
    ensures forall r :: col < r < end ==>
      EliminateUpTo(s, col, end).cells[r] == RowOp(s.cells[r], s.cells[col], col, Ratio(s, r, col))
    decreases end
  {
    if end > col + 1 {
      EliminateRows(s, col, end - 1);
    }
  }

  /** Every row below col has the pivot row, scaled by its ratio, added. */
  function Eliminate(s: Mat, col: nat): (e: Mat)
    requires Wf(s) && col < s.rows && col < s.cols
    requires col + 1 < s.rows ==> s.cells[col][col] != 0.0
    ensures Wf(e) && e.rows == s.rows && e.cols == s.cols
  {
    EliminateUpTo(s, col, s.rows)
  }

  /** The swap that brings the pivot row to the diagonal; when the pivot is
      already there this swaps the row with itself, which changes nothing
      (SwapRowsSelf), as the source's skipped swap does. */
  function PivotSwap(m: Mat, col: nat, rule: PivotRule): (s: Mat)
    requires Wf(m) && col < m.rows && col < m.cols
    ensures Wf(s) && s.rows == m.rows && s.cols == m.cols
    ensures s.cells[col][col] == PivotOf(m, col, rule, m.rows).0
  {
    var p := PivotOf(m, col, rule, m.rows);
    SwapRows(m, p.1, col)
  }

  /** One pass of the outer loop of `get_upper_triangular_matrix`: the
      elimination result and the number of swaps (0 or 1). */
  function Step(m: Mat, col: nat, rule: PivotRule): (o: Outcome<(Mat, nat)>)
    requires Wf(m) && col < m.rows && col < m.cols
    ensures o.Ok? ==> Wf(o.value.0) && o.value.0.rows == m.rows && o.value.0.cols == m.cols
    ensures o.Ok? ==> o.value.1 <= 1
  {
    var s := PivotSwap(m, col, rule);
    if col + 1 < m.rows && s.cells[col][col] == 0.0 then Err(PivotIsZero(col))
    else Ok((Eliminate(s, col), if PivotOf(m, col, rule, m.rows).1 != col then 1 else 0))
  }

  /** The first k passes of the elimination: the matrix and the swap count. */
  function Triangulate(m: Mat, rule: PivotRule, k: nat): (o: Outcome<(Mat, nat)>)
    requires Wf(m) && k <= m.cols <= m.rows
    ensures o.Ok? ==> Wf(o.value.0) && o.value.0.rows == m.rows && o.value.0.cols == m.cols
    ensures o.Ok? ==> o.value.1 <= k
  {
    if k == 0 then Ok((m, 0))
    else
      match Triangulate(m, rule, k - 1)
      case Err(f) => Err(f)
      case Ok(prev) =>
        match Step(prev.0, k - 1, rule)
        case Err(f) => Err(f)
        case Ok(next) => Ok((next.0, prev.1 + next.1))
  }

  /** The first k passes of the elimination end in outcome o. */
  predicate Reaches(m: Mat, rule: PivotRule, k: nat, o: Outcome<(Mat, nat)>)
    requires Wf(m) && k <= m.cols <= m.rows
  {
    Triangulate(m, rule, k) == o
  }

  /** The pass succeeds unless the chosen pivot is zero with rows below it. */
  lemma StepOk(m: Mat, col: nat, rule: PivotRule)
    requires Wf(m) && col < m.rows && col < m.cols
    requires !(col + 1 < m.rows && PivotSwap(m, col, rule).cells[col][col] == 0.0)
    ensures Step(m, col, rule)
      == Ok((Eliminate(PivotSwap(m, col, rule), col), if PivotOf(m, col, rule, m.rows).1 != col then 1 else 0))
  {
  }

  /** A successful pass extends a successful elimination. */
  lemma TriangulateNext(m: Mat, rule: PivotRule, k: nat, prev: (Mat, nat), next: (Mat, nat))
    requires Wf(m) && 1 <= k <= m.cols <= m.rows
    requires Reaches(m, rule, k - 1, Ok(prev))
    requires Step(prev.0, k - 1, rule) == Ok(next)
    ensures Reaches(m, rule, k, Ok((next.0, prev.1 + next.1)))
  {
  }

  /** A failing pass ends a successful elimination with its failure. */
  lemma TriangulateFails(m: Mat, rule: PivotRule, k: nat, prev: (Mat, nat))
    requires Wf(m) && 1 <= k <= m.cols <= m.rows
    requires Reaches(m, rule, k - 1, Ok(prev))
    requires Step(prev.0, k - 1, rule).Err?
    ensures Reaches(m, rule, k, Err(Step(prev.0, k - 1, rule).failure))
  {
  }

  /** Once a pass fails, the elimination as a whole fails the same way. */
  lemma {:induction false} TriangulateStops(m: Mat, rule: PivotRule, k: nat, k': nat)
    requires Wf(m) && k <= k' <= m.cols <= m.rows
    requires Triangulate(m, rule, k).Err?
    ensures Triangulate(m, rule, k') == Triangulate(m, rule, k)
    decreases k'
  {
    if k' > k {
      TriangulateStops(m, rule, k, k' - 1);
    }
  }

  /** Every entry below the diagonal in the first k columns is zero. */
  predicate UpperBelow(m: Mat, k: nat)
    requires Wf(m) && k <= m.cols
  {
    forall r, c :: 0 <= c < k && c < r < m.rows ==> m.cells[r][c] == 0.0
  }

  lemma CancelRatio(x: real, p: real)
    requires p != 0.0
    ensures Shifted(x, 0.0 - x / p, p) == 0.0
  {
    calc {
      x + (0.0 - x / p) * p;
      x - (x / p) * p;
      x - x;
    }
  }

  /** A pass keeps the zeros of the earlier columns and clears its own. */
  lemma StepClearsColumn(m: Mat, col: nat, rule: PivotRule)
    requires Wf(m) && col < m.cols <= m.rows && UpperBelow(m, col)
    requires Step(m, col, rule).Ok?
    ensures UpperBelow(Step(m, col, rule).value.0, col + 1)
  {
    var p := PivotOf(m, col, rule, m.rows);
    var s := PivotSwap(m, col, rule);
    assert UpperBelow(s, col) by {
      forall r, c | 0 <= c < col && c < r < m.rows
        ensures s.cells[r][c] == 0.0
      {
        if p.1 != col {
          SwapRowsAt(m, p.1, col, r, c);
        }
      }
    }
    var e := Step(m, col, rule).value.0;
    assert e == Eliminate(s, col);
    EliminateRows(s, col, m.rows);
    forall r, c | 0 <= c < col + 1 && c < r < m.rows
      ensures e.cells[r][c] == 0.0
    {
      if c == col {
        assert e.cells[r] == RowOp(s.cells[r], s.cells[col], col, Ratio(s, r, col));
        CancelRatio(s.cells[r][col], s.cells[col][col]);
      }
    }
  }

  /** After k successful passes the first k columns are cleared below the
      diagonal, with at most one swap per pass. */
  lemma {:induction false} TriangulateUpper(m: Mat, rule: PivotRule, k: nat)
    requires Wf(m) && k <= m.cols <= m.rows
    requires Triangulate(m, rule, k).Ok?
    ensures UpperBelow(Triangulate(m, rule, k).value.0, k)
    ensures Triangulate(m, rule, k).value.1 <= k
  {
    if k > 0 {
      var prev := Triangulate(m, rule, k - 1).value;
      TriangulateUpper(m, rule, k - 1);
      StepClearsColumn(prev.0, k - 1, rule);
    }
  }

  /** A diagonal entry that no zero entry beats: positive under the signed
      test, non-zero under partial pivoting. */
  predicate StablePivot(rule: PivotRule, d: real)
  {
    match rule
    case SignedAsWritten => d > 0.0
    case ByMagnitude => d != 0.0
  }

  lemma {:induction false} PivotStaysOnDiagonal(m: Mat, col: nat, rule: PivotRule, end: nat)
    requires Wf(m) && col < m.cols <= m.rows && end <= m.rows
    requires UpperBelow(m, m.cols) && StablePivot(rule, m.cells[col][col])
    ensures PivotOf(m, col, rule, end) == (m.cells[col][col], col)
  {
    if end > col + 1 {
      PivotStaysOnDiagonal(m, col, rule, end - 1);
    }
  }

  /** A pass over an upper-triangular matrix with a stable pivot changes
      nothing and swaps nothing. */
  lemma StepFixed(m: Mat, col: nat, rule: PivotRule)
    requires Wf(m) && col < m.cols <= m.rows
    requires UpperBelow(m, m.cols) && StablePivot(rule, m.cells[col][col])
    ensures Step(m, col, rule) == Ok((m, 0))
  {
    PivotStaysOnDiagonal(m, col, rule, m.rows);
    SwapRowsSelf(m, col);
    var e := Eliminate(m, col);
    EliminateRows(m, col, m.rows);
    forall r | col < r < m.rows
      ensures e.cells[r] == m.cells[r]
    {
      assert Ratio(m, r, col) == 0.0;
      RowOpZero(m.cells[r], m.cells[col], col);
    }
    assert e.cells == m.cells;
  }

  lemma {:induction false} TriangulateSteady(m: Mat, rule: PivotRule, k: nat)
    requires Wf(m) && k <= m.cols <= m.rows
    requires forall i :: 0 <= i < m.cols ==> Step(m, i, rule) == Ok((m, 0))
    ensures Triangulate(m, rule, k) == Ok((m, 0))
  {
    if k > 0 {
      TriangulateSteady(m, rule, k - 1);
      TriangulateNext(m, rule, k, (m, 0), (m, 0));
    }
  }

  lemma TriangulateFixed(m: Mat, rule: PivotRule, k: nat)
    requires Wf(m) && k <= m.cols <= m.rows && UpperBelow(m, m.cols)
    requires forall i :: 0 <= i < m.cols ==> StablePivot(rule, m.cells[i][i])
    ensures Triangulate(m, rule, k) == Ok((m, 0))
  {
    forall i | 0 <= i < m.cols
      ensures Step(m, i, rule) == Ok((m, 0))
    {
      StepFixed(m, i, rule);
    }
    TriangulateSteady(m, rule, k);
  }

  // ---------------------------------------------------------------------------
  // Determinant, minors and inverse

  /** t(0,0) * t(1,1) * ... * t(n-1,n-1), multiplied left to right. */
  function DiagProd(t: Mat, n: nat): real
    requires Wf(t) && 1 <= n <= t.rows && n <= t.cols
  {
    if n == 1 then t.cells[0][0] else DiagProd(t, n - 1) * t.cells[n - 1][n - 1]
  }

  lemma DiagProdNext(t: Mat, n: nat, acc: real, d: real)
    requires Wf(t) && 1 <= n < t.rows && n < t.cols
    requires acc == DiagProd(t, n) && d == t.cells[n][n]
    ensures DiagProd(t, n + 1) == acc * d
  {
  }

  /** `determinant`: the diagonal product of the eliminated matrix, negated
      when the number of swaps is odd. */
  function Determinant(m: Mat, rule: PivotRule): (o: Outcome<real>)
    requires Wf(m) && 1 <= m.cols <= m.rows
  {
    match Triangulate(m, rule, m.cols)
    case Err(f) => Err(f)
    case Ok(t) =>
      var d := DiagProd(t.0, m.cols);
      Ok(if t.1 % 2 == 0 then d else 0.0 - d)
  }

  /** An upper-triangular matrix with stable pivots keeps its diagonal
      product as determinant. */
  lemma DeterminantTriangular(m: Mat, rule: PivotRule)
    requires Wf(m) && 1 <= m.cols <= m.rows && UpperBelow(m, m.cols)
    requires forall i :: 0 <= i < m.cols ==> StablePivot(rule, m.cells[i][i])
    ensures Determinant(m, rule) == Ok(DiagProd(m, m.cols))
  {
    TriangulateFixed(m, rule, m.cols);
  }

  lemma {:induction false} DiagProdIdentity(n: nat, k: nat)
    requires 1 <= k <= n
    ensures DiagProd(Identity(n), k) == 1.0
  {
    if k > 1 {
      DiagProdIdentity(n, k - 1);
    }
  }

  lemma DeterminantIdentity(n: nat, rule: PivotRule)
    requires n >= 1
    ensures Determinant(Identity(n), rule) == Ok(1.0)
  {
    DiagProdIdentity(n, n);
    DeterminantTriangular(Identity(n), rule);
  }

  /** The pass over the last row has nothing to eliminate. */
  lemma StepLastRow(m: Mat, rule: PivotRule)
    requires Wf(m) && 1 <= m.rows <= m.cols
    ensures Step(m, m.rows - 1, rule) == Ok((m, 0))
  {
    SwapRowsSelf(m, m.rows - 1);
    EliminateRows(m, m.rows - 1, m.rows);
    assert Eliminate(m, m.rows - 1).cells == m.cells;
  }

  /** A 1 x 1 matrix is its own determinant. */
  lemma DeterminantSingle(m: Mat, rule: PivotRule)
    requires Wf(m) && m.rows == 1 && m.cols == 1
    ensures Determinant(m, rule) == Ok(m.cells[0][0])
  {
    StepLastRow(m, rule);
    assert Triangulate(m, rule, 1) == Ok((m, 0));
  }

  function Mat2(a: real, b: real, c: real, d: real): (m: Mat)
    ensures Wf(m) && m.rows == 2 && m.cols == 2
  {
    Mat(2, 2, [[a, b], [c, d]])
  }

  /** Eliminating the first column of a 2 x 2 matrix leaves ad - bc on the
      diagonal. */
  lemma DiagProdEliminated(s: Mat)
    requires Wf(s) && s.rows == 2 && s.cols == 2 && s.cells[0][0] != 0.0
    ensures DiagProd(Eliminate(s, 0), 2) == s.cells[0][0] * s.cells[1][1] - s.cells[0][1] * s.cells[1][0]
  {
    var x, y, u, v := s.cells[0][0], s.cells[0][1], s.cells[1][0], s.cells[1][1];
    var e := Eliminate(s, 0);
    EliminateRows(s, 0, 2);
    assert e.cells[0][0] == x;
    assert e.cells[1][1] == v + Ratio(s, 1, 0) * y;
    calc {
      DiagProd(e, 2);
      x * (v + (0.0 - u / x) * y);
      x * v - (x * (u / x)) * y;
      x * v - y * u;
    }
  }

  lemma SwappedDiagonal(s: Mat, a: real, b: real, c: real, d: real)
    requires Wf(s) && s.rows == 2 && s.cols == 2 && s.cells == [[c, d], [a, b]]
    ensures s.cells[0][0] * s.cells[1][1] - s.cells[0][1] * s.cells[1][0] == 0.0 - (a * d - b * c)
  {
  }

  /** On a 2 x 2 matrix only the first pass can swap or fail. */
  lemma DeterminantTwoRows(m: Mat, rule: PivotRule)
    requires Wf(m) && m.rows == 2 && m.cols == 2
    ensures Step(m, 0, rule).Err? ==> Determinant(m, rule) == Err(Step(m, 0, rule).failure)
    ensures Step(m, 0, rule).Ok? ==>
      var t := Step(m, 0, rule).value;
      Determinant(m, rule) == Ok(if t.1 % 2 == 0 then DiagProd(t.0, 2) else 0.0 - DiagProd(t.0, 2))
  {
    assert Triangulate(m, rule, 1) == Step(m, 0, rule);
    if Step(m, 0, rule).Ok? {
      StepLastRow(Step(m, 0, rule).value.0, rule);
    }
  }

  /** When elimination succeeds on a 2 x 2 matrix the result is ad - bc. */
  lemma Determinant2x2(a: real, b: real, c: real, d: real, rule: PivotRule)
    requires Determinant(Mat2(a, b, c, d), rule).Ok?
    ensures Determinant(Mat2(a, b, c, d), rule).value == a * d - b * c
  {
    var m := Mat2(a, b, c, d);
    DeterminantTwoRows(m, rule);
    var s := PivotSwap(m, 0, rule);
    DiagProdEliminated(s);
    if PivotOf(m, 0, rule, 2).1 == 0 {
      SwapRowsSelf(m, 0);
      assert Step(m, 0, rule).value == (Eliminate(m, 0), 0);
    } else {
      assert s == SwapRows(m, 1, 0);
      assert Step(m, 0, rule).value == (Eliminate(s, 0), 1);
      SwappedDiagonal(s, a, b, c, d);
    }
  }

  /** Every minor has a determinant. */
  predicate MinorsDefined(m: Mat, rule: PivotRule)
    requires Wf(m) && (m.rows == 0 || m.cols == 0 || 2 <= m.cols <= m.rows)
  {
    forall r, c :: 0 <= r < m.rows && 0 <= c < m.cols ==> Determinant(Minor(m, r, c), rule).Ok?
  }

  /** Every minor before (sr, sc), in row-major order, has a determinant. */
  predicate MinorsDefinedBefore(m: Mat, rule: PivotRule, sr: nat, sc: nat)
    requires Wf(m) && (m.rows == 0 || m.cols == 0 || 2 <= m.cols <= m.rows)
  {
    forall r, c :: 0 <= r < m.rows && 0 <= c < m.cols && (r < sr || (r == sr && c < sc)) ==>
      Determinant(Minor(m, r, c), rule).Ok?
  }

  lemma MinorsDefinedNext(m: Mat, rule: PivotRule, sr: nat, sc: nat)
    requires Wf(m) && 2 <= m.cols <= m.rows && sr < m.rows && sc < m.cols
    requires MinorsDefinedBefore(m, rule, sr, sc) && Determinant(Minor(m, sr, sc), rule).Ok?
    ensures MinorsDefinedBefore(m, rule, sr, sc + 1)
  {
  }

  lemma MinorsDefinedNextRow(m: Mat, rule: PivotRule, sr: nat)
    requires Wf(m) && (m.rows == 0 || m.cols == 0 || 2 <= m.cols <= m.rows) && sr < m.rows
    requires MinorsDefinedBefore(m, rule, sr, m.cols)
    ensures MinorsDefinedBefore(m, rule, sr + 1, 0)
  {
  }

  lemma MinorsDefinedAll(m: Mat, rule: PivotRule)
    requires Wf(m) && (m.rows == 0 || m.cols == 0 || 2 <= m.cols <= m.rows)
    requires MinorsDefinedBefore(m, rule, m.rows, 0)
    ensures MinorsDefined(m, rule)
  {
  }

  /** The determinant of the minor at (r, c), or 0 where its elimination
      stops. */
  function MinorDeterminant(m: Mat, r: nat, c: nat, rule: PivotRule): real
    requires Wf(m) && 2 <= m.cols <= m.rows && r < m.rows && c < m.cols
  {
    match Determinant(Minor(m, r, c), rule)
    case Ok(v) => v
    case Err(_) => 0.0
  }

  /** `get_matrix_of_minors`: entry (r, c) is the determinant of the matrix
      with row r and column c deleted, wherever that determinant exists. */
  function MinorsOf(m: Mat, rule: PivotRule): (n: Mat)
    requires Wf(m) && (m.rows == 0 || m.cols == 0 || 2 <= m.cols <= m.rows)
    ensures Wf(n) && n.rows == m.rows && n.cols == m.cols
    ensures forall r, c :: 0 <= r < m.rows && 0 <= c < m.cols && Determinant(Minor(m, r, c), rule).Ok? ==>
      n.cells[r][c] == Determinant(Minor(m, r, c), rule).value
  {
    Mat(m.rows, m.cols, seq(m.rows, r requires 0 <= r < m.rows =>
      seq(m.cols, c requires 0 <= c < m.cols => MinorDeterminant(m, r, c, rule))))
  }

  /** `inverse`: the transposed cofactor matrix of the minors, scaled by
      1 / determinant. It fails when a minor or the matrix itself has no
      determinant, or when the determinant is zero. */
  function Inverse(m: Mat, rule: PivotRule): (o: Outcome<Mat>)
    requires Wf(m) && 2 <= m.cols <= m.rows
    ensures o.Ok? ==> Wf(o.value) && o.value.rows == m.cols && o.value.cols == m.rows
    ensures o.Ok? ==> MinorsDefined(m, rule) && Determinant(m, rule).Ok? && Determinant(m, rule).value != 0.0
  {
    if !MinorsDefined(m, rule) then Err(MinorFails)
    else
      match Determinant(m, rule)
      case Err(f) => Err(f)
      case Ok(d) =>
        if d == 0.0 then Err(DeterminantIsZero)
        else Ok(Scale(Transpose(Cofactors(MinorsOf(m, rule))), 1.0 / d))
  }

  /** Deleting a row and a column of a 2 x 2 matrix leaves the opposite entry. */
  lemma MinorOfTwo(m: Mat, r: nat, c: nat)
    requires Wf(m) && m.rows == 2 && m.cols == 2 && r < 2 && c < 2
    ensures Minor(m, r, c) == Mat(1, 1, [[m.cells[1 - r][1 - c]]])
  {
    MinorAt(m, r, c, 0, 0);
    Ext(Minor(m, r, c), Mat(1, 1, [[m.cells[1 - r][1 - c]]]));
  }

  /** The minors of a 2 x 2 matrix are its opposite entries. */
  lemma Minors2x2(a: real, b: real, c: real, d: real, rule: PivotRule)
    ensures MinorsDefined(Mat2(a, b, c, d), rule)
    ensures MinorsOf(Mat2(a, b, c, d), rule) == Mat2(d, c, b, a)
  {
    var m := Mat2(a, b, c, d);
    MinorDeterminantsOfTwo(m, rule);
    Ext(MinorsOf(m, rule), Mat2(d, c, b, a));
  }

  lemma MinorDeterminantsOfTwo(m: Mat, rule: PivotRule)
    requires Wf(m) && m.rows == 2 && m.cols == 2
    ensures forall r, c :: 0 <= r < 2 && 0 <= c < 2 ==>
      Determinant(Minor(m, r, c), rule) == Ok(m.cells[1 - r][1 - c])
  {
    forall r, c | 0 <= r < 2 && 0 <= c < 2
      ensures Determinant(Minor(m, r, c), rule) == Ok(m.cells[1 - r][1 - c])
    {
      MinorOfTwo(m, r, c);
      DeterminantSingle(Mat(1, 1, [[m.cells[1 - r][1 - c]]]), rule);
    }
  }

  lemma InverseEntry(x: real, y: real, u: real, v: real, k: real, det: real)
    requires det != 0.0 && k == 1.0 / det && x * u - y * v == det
    ensures 0.0 + x * k * u + (0.0 - y) * k * v == 1.0
  {
    calc {
      0.0 + x * k * u + (0.0 - y) * k * v;
      k * (x * u - y * v);
      k * det;
    }
  }

  lemma InverseZero(x: real, y: real, k: real)
    ensures 0.0 + x * k * y + (0.0 - y) * k * x == 0.0
  {
  }

  lemma Dot2(x: Mat, y: Mat, i: nat, j: nat)
    requires Wf(x) && Wf(y) && x.cols == 2 && y.rows == 2 && i < x.rows && j < y.cols
    ensures Dot(x, y, i, j, 2) == 0.0 + x.cells[i][0] * y.cells[0][j] + x.cells[i][1] * y.cells[1][j]
  {
    assert Dot(x, y, i, j, 1) == 0.0 + x.cells[i][0] * y.cells[0][j];
  }

  /** The adjugate of a 2 x 2 matrix over its determinant ad - bc. */
  function Adjugate2(a: real, b: real, c: real, d: real): (m: Mat)
    requires a * d - b * c != 0.0
    ensures Wf(m) && m.rows == 2 && m.cols == 2
  {
    var k := 1.0 / (a * d - b * c);
    Mat2(d * k, (0.0 - b) * k, (0.0 - c) * k, a * k)
  }

  /** Cofactor signs, transpose and scaling turn the minors d, c, b, a into
      the adjugate. */
  lemma AdjugateOfMinors(a: real, b: real, c: real, d: real)
    requires a * d - b * c != 0.0
    ensures Scale(Transpose(Cofactors(Mat2(d, c, b, a))), 1.0 / (a * d - b * c)) == Adjugate2(a, b, c, d)
  {
    var cof := Cofactors(Mat2(d, c, b, a));
    var inv := Scale(Transpose(cof), 1.0 / (a * d - b * c));
    assert cof.cells[0][0] == d && cof.cells[0][1] == 0.0 - c;
    assert cof.cells[1][0] == 0.0 - b && cof.cells[1][1] == a;
    var adj := Adjugate2(a, b, c, d);
    assert inv.cells[0][0] == adj.cells[0][0] && inv.cells[0][1] == adj.cells[0][1];
    assert inv.cells[1][0] == adj.cells[1][0] && inv.cells[1][1] == adj.cells[1][1];
    Ext(inv, adj);
  }

  /** The inverse of a 2 x 2 matrix is its adjugate over ad - bc. */
  lemma InverseOf2x2(a: real, b: real, c: real, d: real, rule: PivotRule)
    requires Inverse(Mat2(a, b, c, d), rule).Ok?
    ensures a * d - b * c != 0.0
    ensures Inverse(Mat2(a, b, c, d), rule).value == Adjugate2(a, b, c, d)
  {
    Minors2x2(a, b, c, d, rule);
    Determinant2x2(a, b, c, d, rule);
    var k := 1.0 / (a * d - b * c);
    var inv := Inverse(Mat2(a, b, c, d), rule).value;
    assert inv == Scale(Transpose(Cofactors(Mat2(d, c, b, a))), k);
    AdjugateOfMinors(a, b, c, d);
  }

  lemma AdjugateProductDiagonal(a: real, b: real, c: real, d: real)
    requires a * d - b * c != 0.0
    ensures Product(Adjugate2(a, b, c, d), Mat2(a, b, c, d)).cells[0][0] == 1.0
    ensures Product(Adjugate2(a, b, c, d), Mat2(a, b, c, d)).cells[1][1] == 1.0
  {
    var det := a * d - b * c;
    var k := 1.0 / det;
    var inv := Adjugate2(a, b, c, d);
    var m := Mat2(a, b, c, d);
    Dot2(inv, m, 0, 0);
    InverseEntry(d, b, a, c, k, det);
    Dot2(inv, m, 1, 1);
    InverseEntry(a, c, d, b, k, det);
  }

  lemma AdjugateProductOffDiagonal(a: real, b: real, c: real, d: real)
    requires a * d - b * c != 0.0
    ensures Product(Adjugate2(a, b, c, d), Mat2(a, b, c, d)).cells[0][1] == 0.0
    ensures Product(Adjugate2(a, b, c, d), Mat2(a, b, c, d)).cells[1][0] == 0.0
  {
    var k := 1.0 / (a * d - b * c);
    var inv := Adjugate2(a, b, c, d);
    var m := Mat2(a, b, c, d);
    Dot2(inv, m, 0, 1);
    InverseZero(d, b, k);
    Dot2(inv, m, 1, 0);
    InverseZero(a, c, k);
  }

  /** The adjugate over ad - bc times the matrix is the identity. */
  lemma AdjugateProduct(a: real, b: real, c: real, d: real)
    requires a * d - b * c != 0.0
    ensures Product(Adjugate2(a, b, c, d), Mat2(a, b, c, d)) == Identity(2)
  {
    AdjugateProductDiagonal(a, b, c, d);
    AdjugateProductOffDiagonal(a, b, c, d);
    Ext(Product(Adjugate2(a, b, c, d), Mat2(a, b, c, d)), Identity(2));
  }

  /** A 2 x 2 inverse, when it exists, is a left inverse. */
  lemma Inverse2x2(a: real, b: real, c: real, d: real, rule: PivotRule)
    requires Inverse(Mat2(a, b, c, d), rule).Ok?
    ensures Product(Inverse(Mat2(a, b, c, d), rule).value, Mat2(a, b, c, d)) == Identity(2)
  {
    InverseOf2x2(a, b, c, d, rule);
    AdjugateProduct(a, b, c, d);
  }

  // ---------------------------------------------------------------------------
  // The signed pivot test

  /** As written, the pivot test lets a later zero replace a negative
      pivot: [[-1, 0], [0, 1]] (determinant -1) hits a zero pivot. */
  lemma SignedPivotFails()
    ensures Determinant(Mat2(-1.0, 0.0, 0.0, 1.0), SignedAsWritten) == Err(PivotIsZero(0))
    ensures Determinant(Mat2(-1.0, 0.0, 0.0, 1.0), ByMagnitude) == Ok(-1.0)
  {
    var m := Mat2(-1.0, 0.0, 0.0, 1.0);
    assert PivotOf(m, 0, SignedAsWritten, 2) == (0.0, 1);
    assert PivotOf(m, 0, ByMagnitude, 2) == (-1.0, 0);
    DeterminantTriangular(m, ByMagnitude);
  }

  /** With partial pivoting elimination fails only on a column that is zero
      from the diagonal down, so only on a singular matrix. */
  lemma MagnitudeStepFails(m: Mat, col: nat)
    requires Wf(m) && col < m.cols <= m.rows
    requires Step(m, col, ByMagnitude).Err?
    ensures forall r :: col <= r < m.rows ==> m.cells[r][col] == 0.0
  {
    ZeroPivotZeroColumn(m, col);
  }
}
