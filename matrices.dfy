/** Two-dimensional numeric arrays with an explicit shape. numpy keeps the
    shape of an array apart from its elements, so an array with no rows still
    has a column count; `rows` and `cols` play that part here. */
module Matrices {

  datatype Matrix<T> = Matrix(rows: nat, cols: nat, cells: seq<seq<T>>)
  {
    /** The cells form a `rows` × `cols` rectangle. */
    ghost predicate Valid()
    {
      && |cells| == rows
      && forall i :: 0 <= i < rows ==> |cells[i]| == cols
    }
  }

  /** `m.T`: rows become columns. */
  function Transpose<T>(m: Matrix<T>): (t: Matrix<T>)
    requires m.Valid()
    ensures t.Valid() && t.rows == m.cols && t.cols == m.rows
    ensures forall i, j :: 0 <= i < m.cols && 0 <= j < m.rows ==> t.cells[i][j] == m.cells[j][i]
  {
    Matrix(m.cols, m.rows,
      seq(m.cols, i requires 0 <= i < m.cols =>
        seq(m.rows, j requires 0 <= j < m.rows => m.cells[j][i])))
  }

  /** Transposing twice gives the matrix back. */
  lemma TransposeInvolutive<T>(m: Matrix<T>)
    requires m.Valid()
    ensures Transpose(Transpose(m)) == m
  {
    var tt := Transpose(Transpose(m));
    forall i | 0 <= i < m.rows
      ensures tt.cells[i] == m.cells[i]
    {
    }
  }
}
