/** The builders of the program: each allocates a result matrix and fills its
    buffer with loops, and each is proved to produce the matrix that the
    corresponding function of module Algebra specifies. */
module Engine {
  import opened Outcomes
  import opened Matrices
  import opened Algebra

  /** get_transpose: element (i, j) of the input is stored at (j, i) of a new
      cols-by-rows matrix. */
  method GetTranspose(a: Matrix) returns (t: Matrix)
    requires a.Valid()
    ensures t.Valid() && t.rows == a.cols && t.cols == a.rows
    ensures fresh(t) && fresh(t.values)
    ensures t.Cells() == Transpose(a.Cells())
  {
    ghost var m := a.Cells();
    t := new Matrix(a.cols, a.rows);
    var i := 0;
    while i < t.cols
      invariant 0 <= i <= t.cols
      invariant forall ii: nat, jj: nat :: ii < i && jj < t.rows ==>
        t.values[Idx(jj, ii, t.rows, t.cols)] == m[ii][jj]
    {
      var j := 0;
      while j < t.rows
        invariant 0 <= j <= t.rows
        invariant forall ii: nat, jj: nat :: jj < t.rows && Before(ii, jj, i, j) ==>
          t.values[Idx(jj, ii, t.rows, t.cols)] == m[ii][jj]
      {
        IdxInjective(j, i, t.rows, t.cols);
        t.values[Idx(j, i, t.rows, t.cols)] := a.values[Idx(i, j, a.rows, a.cols)];
        j := j + 1;
      }
      i := i + 1;
    }
    ghost var g := t.Cells();
    forall r | 0 <= r < t.rows ensures g[r] == Transpose(m)[r] {
      forall c | 0 <= c < t.cols ensures g[r][c] == m[c][r] {
      }
    }
  }

  /** The innermost loop of get_product: adds row k of a times column i of b,
      term by term, to the accumulator, which holds `start` on entry. */
  method AccumulateEntry(a: Matrix, b: Matrix, k: nat, i: nat, start: real) returns (sum: real)
    requires a.Valid() && b.Valid() && a.cols == b.rows && k < a.rows && i < b.cols
    ensures sum == start + DotTo(a.Cells()[k], b.Cells(), i, a.cols)
  {
    ghost var ma, mb := a.Cells(), b.Cells();
    sum := start;
    var j := 0;
    while j < a.cols
      invariant 0 <= j <= a.cols
      invariant sum == start + DotTo(ma[k], mb, i, j)
    {
      CellsAt(a, k, j);
      CellsAt(b, j, i);
      var x, y := a.values[Idx(k, j, a.rows, a.cols)], b.values[Idx(j, i, b.rows, b.cols)];
      DotToNext(ma[k], mb, i, j, start, sum, x, y);
      sum := sum + x * y;
      j := j + 1;
    }
  }

  /** get_product: entry (k, i) is the sum over j of a(k, j) * b(j, i), built
      in an accumulator that is reset to zero after each entry is stored. */
  method GetProduct(a: Matrix, b: Matrix) returns (p: Matrix)
    requires a.Valid() && b.Valid() && a.cols == b.rows
    ensures p.Valid() && p.rows == a.rows && p.cols == b.cols
    ensures fresh(p) && fresh(p.values)
    ensures p.Cells() == Mul(a.Cells(), b.Cells())
  {
    ghost var mp := Mul(a.Cells(), b.Cells());
    var sum := 0.0;
    p := new Matrix(a.rows, b.cols);
    var k := 0;
    while k < p.rows
      invariant 0 <= k <= p.rows && sum == 0.0
      invariant Filled(p.values, mp, p.rows, p.cols, k, 0)
    {
      var i := 0;
      while i < p.cols
        invariant 0 <= i <= p.cols && sum == 0.0
        invariant Filled(p.values, mp, p.rows, p.cols, k, i)
      {
        sum := AccumulateEntry(a, b, k, i, sum);
        ghost var before := p.values[..];
        p.values[Idx(k, i, p.rows, p.cols)] := sum;
        FilledStep(p.values, mp, p.rows, p.cols, k, i, before);
        sum := 0.0;
        i := i + 1;
      }
      FilledNextRow(p.values, mp, p.rows, p.cols, k);
      k := k + 1;
    }
    FilledGrid(p.values, mp, p.rows, p.cols);
  }

  lemma MulNext(x: nat, y: nat)
    ensures x * y + y == (x + 1) * y
  {
  }

  /** One pass of the inner minor loop, over row i of src: unless i == r,
      every element outside column c goes to the next free slot k of dst. */
  method CopyMinorRow(src: Matrix, dst: Matrix, r: nat, c: nat, i: nat, k0: nat) returns (k: nat)
    requires src.Valid() && dst.Valid() && src.rows == src.cols >= 2
    requires dst.rows == dst.cols == src.rows - 1 && r < src.rows && c < src.cols && i < src.rows
    requires dst.values != src.values
    requires k0 == Shrink(i, r) * dst.cols
    requires Filled(dst.values, Minor(src.Cells(), r, c), dst.rows, dst.cols, Shrink(i, r), 0)
    modifies dst.values
    ensures k == Shrink(i + 1, r) * dst.cols
    ensures Filled(dst.values, Minor(src.Cells(), r, c), dst.rows, dst.cols, Shrink(i + 1, r), 0)
  {
    ghost var mi := Minor(src.Cells(), r, c);
    var n := src.cols;
    k := k0;
    if i == r {
      return;
    }
    var j := 0;
    while j < n
      invariant 0 <= j <= n
      invariant k == Shrink(i, r) * (n - 1) + Shrink(j, c)
      invariant Filled(dst.values, mi, n - 1, n - 1, Shrink(i, r), Shrink(j, c))
    {
      if j != c {
        CellsAt(src, i, j);
        MinorAt(src.Cells(), r, c, i, j);
        assert k == Idx(Shrink(i, r), Shrink(j, c), n - 1, n - 1);
        ghost var before := dst.values[..];
        dst.values[k] := src.values[Idx(i, j, n, n)];
        FilledStep(dst.values, mi, n - 1, n - 1, Shrink(i, r), Shrink(j, c), before);
        k := k + 1;
      }
      j := j + 1;
    }
    MulNext(Shrink(i, r), n - 1);
    FilledNextRow(dst.values, mi, n - 1, n - 1, Shrink(i, r));
  }

  /** The minor loops of find_cofactor (and of find_det, with r = 0): walk
      the whole matrix in row-major order and copy every element outside row r
      and column c to the next free slot k of dst. */
  method FillMinor(src: Matrix, dst: Matrix, r: nat, c: nat) returns (k: nat)
    requires src.Valid() && dst.Valid() && src.rows == src.cols >= 2
    requires dst.rows == dst.cols == src.rows - 1 && r < src.rows && c < src.cols
    requires dst.values != src.values
    modifies dst.values
    ensures k == dst.rows * dst.cols
    ensures dst.Cells() == Minor(src.Cells(), r, c)
  {
    ghost var mi := Minor(src.Cells(), r, c);
    k := 0;
    var i := 0;
    while i < src.rows
      invariant 0 <= i <= src.rows
      invariant k == Shrink(i, r) * dst.cols
      invariant Filled(dst.values, mi, dst.rows, dst.cols, Shrink(i, r), 0)
    {
      k := CopyMinorRow(src, dst, r, c, i, k);
      i := i + 1;
    }
    FilledGrid(dst.values, mi, dst.rows, dst.cols);
  }

  /** find_det, for n-by-n matrices with n >= 2: the 2x2 closed form, and
      otherwise the cofactor expansion along the top row, reusing one minor
      buffer for every term. */
  method FindDet(m: Matrix) returns (det: real)
    requires m.Valid() && m.rows == m.cols >= 2
    ensures det == Det(m.Cells())
    decreases m.rows
  {
    ghost var mc := m.Cells();
    if m.rows == 2 {
      CellsAt(m, 0, 0);
      CellsAt(m, 0, 1);
      CellsAt(m, 1, 0);
      CellsAt(m, 1, 1);
      return m.values[0] * m.values[3] - m.values[1] * m.values[2];
    }
    var sub := new Matrix(m.rows - 1, m.cols - 1);
    det := 0.0;
    var top := 0;
    while top < m.cols
      invariant 0 <= top <= m.cols
      invariant det == Expansion(mc, top)
    {
      var k := FillMinor(m, sub, 0, top);
      var d := FindDet(sub);
      CellsAt(m, 0, top);
      var v := m.values[top];
      ExpansionNext(mc, top, det, v, d);
      det := det + Sign(top) * v * d;
      top := top + 1;
    }
  }

  /** get_determinant: the only element of a 1x1 matrix, otherwise find_det. */
  method GetDeterminant(m: Matrix) returns (det: real)
    requires m.Valid() && m.rows == m.cols
    ensures det == Det(m.Cells())
  {
    if m.rows == 1 {
      CellsAt(m, 0, 0);
      return m.values[0];
    }
    det := FindDet(m);
  }

  /** find_cofactor: for every element (i, j), build the minor deleting row i
      and column j in a fresh buffer and store pow(-1, i+j) times its
      determinant at (i, j). */
  method FindCofactor(m: Matrix) returns (c: Matrix)
    requires m.Valid() && m.rows == m.cols >= 2
    ensures c.Valid() && c.rows == m.rows && c.cols == m.cols
    ensures fresh(c) && fresh(c.values)
    ensures c.Cells() == CofactorMatrix(m.Cells())
  {
    ghost var mc := m.Cells();
    ghost var cm := CofactorMatrix(mc);
    c := new Matrix(m.rows, m.cols);
    var i := 0;
    while i < m.rows
      invariant 0 <= i <= m.rows
      invariant Filled(c.values, cm, c.rows, c.cols, i, 0)
    {
      var j := 0;
      while j < m.cols
        invariant 0 <= j <= m.cols
        invariant Filled(c.values, cm, c.rows, c.cols, i, j)
      {
        var minor := new Matrix(m.rows - 1, m.cols - 1);
        var k := FillMinor(m, minor, i, j);
        var d := GetDeterminant(minor);
        CofactorOf(mc, i, j, d);
        var cofactor := Sign(i + j) * d;
        ghost var before := c.values[..];
        c.values[Idx(i, j, c.rows, c.cols)] := cofactor;
        FilledStep(c.values, cm, c.rows, c.cols, i, j, before);
        j := j + 1;
      }
      FilledNextRow(c.values, cm, c.rows, c.cols, i);
      i := i + 1;
    }
    FilledGrid(c.values, cm, c.rows, c.cols);
  }

  /** get_adjoint: [1] for a 1x1 matrix, otherwise the transpose of the
      cofactor matrix. */
  method GetAdjoint(m: Matrix) returns (adj: Matrix)
    requires m.Valid() && m.rows == m.cols
    ensures adj.Valid() && adj.rows == m.rows && adj.cols == m.cols
    ensures fresh(adj) && fresh(adj.values)
    ensures adj.Cells() == Adjoint(m.Cells())
  {
    if m.rows == 1 {
      adj := new Matrix(m.rows, m.cols);
      adj.values[0] := 1.0;
      assert adj.Cells()[0] == [1.0];
      return;
    }
    var cofactors := FindCofactor(m);
    adj := GetTranspose(cofactors);
  }

  /** The loops of get_inverse: element (i, j) of the result is adjoint
      element (i, j) divided by det. */
  method DivideByDeterminant(adj: Matrix, det: real) returns (inv: Matrix)
    requires adj.Valid() && adj.rows == adj.cols && det != 0.0
    ensures inv.Valid() && inv.rows == adj.rows && inv.cols == adj.cols
    ensures fresh(inv) && fresh(inv.values)
    ensures inv.Cells() == Scaled(adj.Cells(), det)
  {
    ghost var target := Scaled(adj.Cells(), det);
    inv := new Matrix(adj.rows, adj.cols);
    var i := 0;
    while i < adj.rows
      invariant 0 <= i <= adj.rows
      invariant Filled(inv.values, target, inv.rows, inv.cols, i, 0)
    {
      var j := 0;
      while j < adj.cols
        invariant 0 <= j <= adj.cols
        invariant Filled(inv.values, target, inv.rows, inv.cols, i, j)
      {
        CellsAt(adj, i, j);
        var a := adj.values[Idx(i, j, adj.rows, adj.cols)];
        ScaledAt(adj.Cells(), det, i, j, a);
        ghost var before := inv.values[..];
        inv.values[Idx(i, j, inv.rows, inv.cols)] := a / det;
        FilledStep(inv.values, target, inv.rows, inv.cols, i, j, before);
        j := j + 1;
      }
      FilledNextRow(inv.values, target, inv.rows, inv.cols, i);
      i := i + 1;
    }
    FilledGrid(inv.values, target, inv.rows, inv.cols);
  }

  /** get_inverse: fails with Singular when the determinant is exactly zero;
      otherwise divides every adjoint element by the determinant. */
  method GetInverse(m: Matrix) returns (r: Result<Matrix, MatrixError>)
    requires m.Valid() && m.rows == m.cols
    ensures r.Err? ==> Inverse(m.Cells()) == Err(r.error)
    ensures r.Ok? ==> r.value.Valid() && r.value.rows == m.rows && r.value.cols == m.cols
    ensures r.Ok? ==> fresh(r.value) && fresh(r.value.values)
    ensures r.Ok? ==> Inverse(m.Cells()) == Ok(r.value.Cells())
  {
    var det := GetDeterminant(m);
    if det == 0.0 {
      return Err(Singular);
    }
    var adj := GetAdjoint(m);
    var inv := DivideByDeterminant(adj, det);
    r := Ok(inv);
  }

  /** The product operation: A*B when A's columns match B's rows; otherwise,
      when B's columns match A's rows, B*A with `swapped` set; otherwise the
      NotConformable error. */
  method Product(a: Matrix, b: Matrix) returns (r: Result<Matrix, MatrixError>, swapped: bool)
    requires a.Valid() && b.Valid()
    ensures r.Err? <==> ChooseOrder(a.rows, a.cols, b.rows, b.cols) == Mismatch
    ensures r.Err? ==> r.error == NotConformable && !swapped
    ensures swapped <==> ChooseOrder(a.rows, a.cols, b.rows, b.cols) == BA
    ensures r.Ok? ==> fresh(r.value) && fresh(r.value.values)
    ensures r.Ok? && !swapped ==>
      && a.cols == b.rows && r.value.Valid() && r.value.rows == a.rows && r.value.cols == b.cols
      && r.value.Cells() == Mul(a.Cells(), b.Cells())
    ensures r.Ok? && swapped ==>
      && b.cols == a.rows && r.value.Valid() && r.value.rows == b.rows && r.value.cols == a.cols
      && r.value.Cells() == Mul(b.Cells(), a.Cells())
  {
    if a.cols != b.rows && b.cols != a.rows {
      return Err(NotConformable), false;
    }
    if a.cols != b.rows && b.cols == a.rows {
      var c := GetProduct(b, a);
      return Ok(c), true;
    }
    var c := GetProduct(a, b);
    return Ok(c), false;
  }
}
