/** The `Matrix` record of the program: a row-major buffer of `rows*cols`
    elements, element (i, j) being stored at index `i*cols + j`. */
module Matrices {

  /** Flat index of element (i, j) of a rows-by-cols row-major buffer. */
  function Idx(i: nat, j: nat, rows: nat, cols: nat): (k: nat)
    requires i < rows && j < cols
    ensures k == i * cols + j && k < rows * cols
  {
    MulStep(i, rows, cols);
    i * cols + j
  }

  lemma MulStep(i: nat, rows: nat, cols: nat)
    requires i < rows
    ensures i * cols + cols <= rows * cols
  {
    assert i * cols + cols == (i + 1) * cols;
  }

  /** Row-major order: element (ii, jj) comes strictly before (i, j). */
  predicate Before(ii: nat, jj: nat, i: nat, j: nat)
  {
    ii < i || (ii == i && jj < j)
  }

  lemma IdxOrdered(i: nat, j: nat, rows: nat, cols: nat)
    requires i < rows && j < cols
    ensures forall ii: nat, jj: nat :: ii < rows && jj < cols && Before(ii, jj, i, j) ==>
      Idx(ii, jj, rows, cols) < Idx(i, j, rows, cols)
  {
    forall ii: nat, jj: nat | ii < rows && jj < cols && Before(ii, jj, i, j)
      ensures Idx(ii, jj, rows, cols) < Idx(i, j, rows, cols)
    {
      if ii < i {
        MulStep(ii, i, cols);
      }
    }
  }

  lemma IdxInjective(i: nat, j: nat, rows: nat, cols: nat)
    requires i < rows && j < cols
    ensures forall ii: nat, jj: nat :: ii < rows && jj < cols && (ii != i || jj != j) ==>
      Idx(ii, jj, rows, cols) != Idx(i, j, rows, cols)
  {
    IdxOrdered(i, j, rows, cols);
    forall ii: nat, jj: nat | ii < rows && jj < cols && (ii != i || jj != j)
      ensures Idx(ii, jj, rows, cols) != Idx(i, j, rows, cols)
    {
      if !Before(ii, jj, i, j) {
        IdxOrdered(ii, jj, rows, cols);
      }
    }
  }

  /** The rows-by-cols matrix (as a sequence of rows) held in a flat buffer. */
  function Grid(a: seq<real>, rows: nat, cols: nat): (m: seq<seq<real>>)
    requires |a| == rows * cols
    ensures |m| == rows && forall i :: 0 <= i < rows ==> |m[i]| == cols
  {
    seq(rows, i requires 0 <= i < rows => seq(cols, j requires 0 <= j < cols => a[Idx(i, j, rows, cols)]))
  }

  /** Every element of `m` before (i, j) in row-major order is already in `a`. */
  ghost predicate Filled(a: array<real>, m: seq<seq<real>>, rows: nat, cols: nat, i: nat, j: nat)
    reads a
    requires a.Length == rows * cols
    requires |m| == rows && forall r :: 0 <= r < rows ==> |m[r]| == cols
  {
    forall ii: nat, jj: nat :: ii < rows && jj < cols && Before(ii, jj, i, j) ==>
      a[Idx(ii, jj, rows, cols)] == m[ii][jj]
  }

  /** A buffer filled in every position holds exactly `m`. */
  lemma FilledGrid(a: array<real>, m: seq<seq<real>>, rows: nat, cols: nat)
    requires a.Length == rows * cols
    requires |m| == rows && forall r :: 0 <= r < rows ==> |m[r]| == cols
    requires Filled(a, m, rows, cols, rows, 0)
    ensures Grid(a[..], rows, cols) == m
  {
    var g := Grid(a[..], rows, cols);
    forall i | 0 <= i < rows ensures g[i] == m[i] {
      forall j | 0 <= j < cols ensures g[i][j] == m[i][j] {
        assert Before(i, j, rows, 0);
      }
    }
  }

  /** Storing m[i][j] at (i, j) extends the filled region by one element. */
  lemma FilledStep(a: array<real>, m: seq<seq<real>>, rows: nat, cols: nat, i: nat, j: nat, old_a: seq<real>)
    requires a.Length == rows * cols && |old_a| == a.Length && i < rows && j < cols
    requires |m| == rows && forall r :: 0 <= r < rows ==> |m[r]| == cols
    requires forall ii: nat, jj: nat :: ii < rows && jj < cols && Before(ii, jj, i, j) ==>
      old_a[Idx(ii, jj, rows, cols)] == m[ii][jj]
    requires a[..] == old_a[Idx(i, j, rows, cols) := m[i][j]]
    ensures Filled(a, m, rows, cols, i, j + 1)
  {
    IdxOrdered(i, j, rows, cols);
    forall ii: nat, jj: nat | ii < rows && jj < cols && Before(ii, jj, i, j + 1)
      ensures a[Idx(ii, jj, rows, cols)] == m[ii][jj]
    {
      assert a[Idx(ii, jj, rows, cols)] == a[..][Idx(ii, jj, rows, cols)];
    }
  }

  /** Finishing row i is the same as being at the start of row i + 1. */
  lemma FilledNextRow(a: array<real>, m: seq<seq<real>>, rows: nat, cols: nat, i: nat)
    requires a.Length == rows * cols
    requires |m| == rows && forall r :: 0 <= r < rows ==> |m[r]| == cols
    requires Filled(a, m, rows, cols, i, cols)
    ensures Filled(a, m, rows, cols, i + 1, 0)
  {
    forall ii: nat, jj: nat | ii < rows && jj < cols && Before(ii, jj, i + 1, 0)
      ensures a[Idx(ii, jj, rows, cols)] == m[ii][jj]
    {
      assert Before(ii, jj, i, cols);
    }
  }

  /** The program's `Matrix` structure. `rows` and `cols` never change after
      creation; the elements are written in place by the builders. */
  class Matrix {
    const rows: nat
    const cols: nat
    const values: array<real>

    ghost predicate Valid()
    {
      1 <= rows && 1 <= cols && values.Length == rows * cols
    }

    /** The matrix the buffer holds, row by row. */
    ghost function Cells(): (m: seq<seq<real>>)
      reads values
      requires Valid()
      ensures |m| == rows && forall i :: 0 <= i < rows ==> |m[i]| == cols
    {
      Grid(values[..], rows, cols)
    }

    /** create_matrix: a fresh rows-by-cols buffer (its contents are unspecified in C). */
    constructor (rows: nat, cols: nat)
      requires 1 <= rows && 1 <= cols
      ensures Valid() && this.rows == rows && this.cols == cols && fresh(values)
    {
      this.rows := rows;
      this.cols := cols;
      values := new real[rows * cols];
    }
  }

  /** Element (i, j) of a matrix is the buffer element at index i*cols + j. */
  lemma CellsAt(m: Matrix, i: nat, j: nat)
    requires m.Valid() && i < m.rows && j < m.cols
    ensures m.Cells()[i][j] == m.values[Idx(i, j, m.rows, m.cols)]
  {
  }

  /** A buffer whose element i*cols + j is rows[i][j] holds the matrix rows. */
  lemma CellsAre(m: Matrix, rows: seq<seq<real>>)
    requires m.Valid() && |rows| == m.rows
    requires forall i | 0 <= i < |rows| :: |rows[i]| == m.cols
    requires forall i: nat, j: nat :: i < m.rows && j < m.cols ==> m.values[Idx(i, j, m.rows, m.cols)] == rows[i][j]
    ensures m.Cells() == rows
  {
    forall i | 0 <= i < m.rows ensures m.Cells()[i] == rows[i] {
      forall j | 0 <= j < m.cols ensures m.Cells()[i][j] == rows[i][j] {
        CellsAt(m, i, j);
      }
    }
  }
}
