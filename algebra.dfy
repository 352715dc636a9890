/** The linear algebra the engine computes, stated over exact reals: a matrix
    is a sequence of rows. These functions are the specification of the
    builders in module Engine. */
module Algebra {
  import opened Outcomes

  type Mat = seq<seq<real>>

  /** Number of columns (taken from the first row). */
  function Cols(m: Mat): nat
  {
    if |m| == 0 then 0 else |m[0]|
  }

  /** Every row has the same length. */
  predicate Rect(m: Mat)
  {
    forall i :: 0 <= i < |m| ==> |m[i]| == Cols(m)
  }

  /** A non-empty n-by-n matrix. */
  predicate IsSquare(m: Mat)
  {
    1 <= |m| && forall i :: 0 <= i < |m| ==> |m[i]| == |m|
  }

  // ---------------------------------------------------------------- transpose

  function Transpose(m: Mat): (t: Mat)
    requires Rect(m)
    ensures |t| == Cols(m) && Rect(t)
    ensures |m| >= 1 && Cols(m) >= 1 ==> Cols(t) == |m|
  {
    seq(Cols(m), j requires 0 <= j < Cols(m) => seq(|m|, i requires 0 <= i < |m| => m[i][j]))
  }

  /** Transposing twice gives back the original matrix. */
  lemma TransposeInvolution(m: Mat)
    requires Rect(m) && |m| >= 1 && Cols(m) >= 1
    ensures Transpose(Transpose(m)) == m
  {
    var t := Transpose(Transpose(m));
    assert |t| == |m|;
    forall i | 0 <= i < |m| ensures t[i] == m[i] {
      assert |t[i]| == |m[i]|;
    }
  }

  // ------------------------------------------------------------------ product

  /** The sum over t < n of row[t] * b[t][col], accumulated left to right. */
  function DotTo(row: seq<real>, b: Mat, col: nat, n: nat): real
    requires n <= |row| && n <= |b| && forall t :: 0 <= t < n ==> col < |b[t]|
  {
    if n == 0 then 0.0 else DotTo(row, b, col, n - 1) + row[n - 1] * b[n - 1][col]
  }

  /** One more step of an accumulator that started at `start`. */
  lemma DotToNext(row: seq<real>, b: Mat, col: nat, n: nat, start: real, sum: real, x: real, y: real)
    requires n < |row| && n < |b| && forall t :: 0 <= t <= n ==> col < |b[t]|
    requires sum == start + DotTo(row, b, col, n) && x == row[n] && y == b[n][col]
    ensures sum + x * y == start + DotTo(row, b, col, n + 1)
  {
  }

  /** The matrix product a*b; entry [k][i] is the sum over j of a[k][j]*b[j][i]. */
  function Mul(a: Mat, b: Mat): (p: Mat)
    requires Rect(a) && Rect(b) && Cols(a) == |b|
    ensures |p| == |a| && Rect(p)
    ensures |a| >= 1 ==> Cols(p) == Cols(b)
  {
    seq(|a|, k requires 0 <= k < |a| =>
      seq(Cols(b), i requires 0 <= i < Cols(b) => DotTo(a[k], b, i, |b|)))
  }

  lemma {:induction false} DotToTransposed(a: Mat, b: Mat, k: nat, i: nat, n: nat)
    requires Rect(a) && Rect(b) && Cols(a) == |b| && k < |a| && i < Cols(b) && n <= |b|
    ensures DotTo(a[k], b, i, n) == DotTo(Transpose(b)[i], Transpose(a), k, n)
  {
    if n > 0 {
      DotToTransposed(a, b, k, i, n - 1);
    }
  }

  /** (a*b)^T = b^T * a^T. */
  lemma TransposeOfProduct(a: Mat, b: Mat)
    requires Rect(a) && Rect(b) && Cols(a) == |b| && |a| >= 1 && |b| >= 1 && Cols(b) >= 1
    ensures Transpose(Mul(a, b)) == Mul(Transpose(b), Transpose(a))
  {
    var l := Transpose(Mul(a, b));
    var r := Mul(Transpose(b), Transpose(a));
    assert |l| == |r|;
    forall i | 0 <= i < |l| ensures l[i] == r[i] {
      assert |l[i]| == |r[i]|;
      forall k | 0 <= k < |a| ensures l[i][k] == r[i][k] {
        DotToTransposed(a, b, k, i, |b|);
      }
    }
  }

  /** Operand order chosen by the product operation for operands A and B. */
  datatype Orientation = AB | BA | Mismatch

  /** Try A*B, then B*A, then give up: A*B unless it is not conformable and B*A is. */
  function ChooseOrder(aRows: nat, aCols: nat, bRows: nat, bCols: nat): (o: Orientation)
    ensures o == Mismatch <==> aCols != bRows && bCols != aRows
    ensures o == AB ==> aCols == bRows
    ensures o == BA <==> aCols != bRows && bCols == aRows
  {
    if aCols != bRows && bCols != aRows then Mismatch
    else if aCols != bRows && bCols == aRows then BA
    else AB
  }

  // -------------------------------------------------------------- determinant

  /** pow(-1, k). */
  function Sign(k: nat): (s: real)
    ensures s == 1.0 || s == -1.0
  {
    if k % 2 == 0 then 1.0 else -1.0
  }

  /** Index in the full matrix of index i of a minor that deletes index r. */
  function Skip(i: nat, r: nat): nat
  {
    if i < r then i else i + 1
  }

  /** Index, within a minor deleting index r, of index i != r of the full matrix;
      for i == r it is where the skipped row would have started. */
  function Shrink(i: nat, r: nat): nat
  {
    if i <= r then i else i - 1
  }

  /** The minor of m deleting row r and column c. */
  function Minor(m: Mat, r: nat, c: nat): (s: Mat)
    requires IsSquare(m) && |m| >= 2 && r < |m| && c < |m|
    ensures IsSquare(s) && |s| == |m| - 1
  {
    seq(|m| - 1, i requires 0 <= i < |m| - 1 =>
      seq(|m| - 1, j requires 0 <= j < |m| - 1 => m[Skip(i, r)][Skip(j, c)]))
  }

  /** Element (i, j) of m, outside row r and column c, sits at (Shrink(i, r), Shrink(j, c)) of the minor. */
  lemma MinorAt(m: Mat, r: nat, c: nat, i: nat, j: nat)
    requires IsSquare(m) && |m| >= 2 && r < |m| && c < |m| && i < |m| && j < |m| && i != r && j != c
    ensures Shrink(i, r) < |m| - 1 && Shrink(j, c) < |m| - 1
    ensures Minor(m, r, c)[Shrink(i, r)][Shrink(j, c)] == m[i][j]
  {
    assert Skip(Shrink(i, r), r) == i && Skip(Shrink(j, c), c) == j;
  }

  /** Every element of row k is zero. */
  predicate ZeroRow(m: Mat, k: nat)
    requires k < |m|
  {
    forall j | 0 <= j < |m[k]| :: m[k][j] == 0.0
  }

  /** The determinant as the program computes it: the sole element of a 1x1
      matrix, a*d - b*c for a 2x2 matrix, and otherwise the cofactor expansion
      along row 0. A matrix with a row of zeros has determinant zero. */
  function Det(m: Mat): (d: real)
    requires IsSquare(m)
    ensures forall k | 0 <= k < |m| && ZeroRow(m, k) :: d == 0.0
    decreases |m|, 1
  {
    if |m| == 1 then m[0][0]
    else if |m| == 2 then m[0][0] * m[1][1] - m[0][1] * m[1][0]
    else Expansion(m, |m|)
  }

  /** The first t terms of the expansion along row 0, summed left to right;
      term j is m[0][j] times the cofactor (-1)^j * det(minor(0, j)). */
  function Expansion(m: Mat, t: nat): (e: real)
    requires IsSquare(m) && |m| >= 2 && t <= |m|
    ensures forall k | 0 <= k < |m| && ZeroRow(m, k) :: e == 0.0
    decreases |m|, 0, t
  {
    if t == 0 then 0.0
    else Expansion(m, t - 1) + m[0][t - 1] * Cofactor(m, 0, t - 1)
  }

  /** (-1)^(i+j) times the determinant of the minor deleting row i and column j.
      A row of zeros other than row i makes the cofactor zero. */
  function Cofactor(m: Mat, i: nat, j: nat): (c: real)
    requires IsSquare(m) && |m| >= 2 && i < |m| && j < |m|
    ensures forall k | 0 <= k < |m| && k != i && ZeroRow(m, k) :: c == 0.0
    decreases |m|, 0, 0
  {
    var s := Minor(m, i, j);
    assert forall k | 0 <= k < |m| && k != i && ZeroRow(m, k) :: ZeroRow(s, Shrink(k, i)) by {
      forall k | 0 <= k < |m| && k != i && ZeroRow(m, k) ensures ZeroRow(s, Shrink(k, i)) {
        assert Skip(Shrink(k, i), i) == k;
      }
    }
    Sign(i + j) * Det(s)
  }

  /** Adding the program's term pow(-1, t) * m[0][t] * det(minor(0, t)) to
      the first t terms of the expansion gives the first t + 1 terms. */
  lemma ExpansionNext(m: Mat, t: nat, acc: real, v: real, d: real)
    requires IsSquare(m) && |m| >= 2 && t < |m|
    requires acc == Expansion(m, t) && v == m[0][t] && d == Det(Minor(m, 0, t))
    ensures acc + Sign(t) * v * d == Expansion(m, t + 1)
  {
    var s := Sign(t);
    assert Cofactor(m, 0, t) == s * d;
    Regroup(s, v, d);
  }

  lemma Regroup(s: real, v: real, d: real)
    ensures s * v * d == v * (s * d)
  {
  }

  /** The program's pow(-1, i+j) * det(minor) is the cofactor. */
  lemma CofactorOf(m: Mat, i: nat, j: nat, d: real)
    requires IsSquare(m) && |m| >= 2 && i < |m| && j < |m| && d == Det(Minor(m, i, j))
    ensures Sign(i + j) * d == Cofactor(m, i, j)
  {
  }

  /** Reference definition: the textbook Laplace expansion with 1x1 as the only base case. */
  function LaplaceDet(m: Mat): real
    requires IsSquare(m)
    decreases |m|, 1
  {
    if |m| == 1 then m[0][0] else LaplaceSum(m, |m|)
  }

  function LaplaceSum(m: Mat, t: nat): real
    requires IsSquare(m) && |m| >= 2 && t <= |m|
    decreases |m|, 0, t
  {
    if t == 0 then 0.0
    else LaplaceSum(m, t - 1) + m[0][t - 1] * (Sign(t - 1) * LaplaceDet(Minor(m, 0, t - 1)))
  }

  /** The minor of a 2x2 matrix is the 1x1 matrix of the opposite corner. */
  lemma MinorOfTwo(m: Mat, r: nat, c: nat)
    requires IsSquare(m) && |m| == 2 && r < 2 && c < 2
    ensures Minor(m, r, c) == [[m[1 - r][1 - c]]]
  {
    var s := Minor(m, r, c);
    assert s[0][0] == m[1 - r][1 - c];
    assert s[0] == [m[1 - r][1 - c]];
  }

  /** The 2x2 shortcut and the expansion agree: Det is the Laplace determinant. */
  lemma {:induction false} DetIsLaplace(m: Mat)
    requires IsSquare(m)
    ensures Det(m) == LaplaceDet(m)
    decreases |m|, 1
  {
    if |m| == 2 {
      MinorOfTwo(m, 0, 0);
      MinorOfTwo(m, 0, 1);
      assert LaplaceSum(m, 1) == m[0][0] * m[1][1];
      assert LaplaceSum(m, 2) == m[0][0] * m[1][1] - m[0][1] * m[1][0];
    } else if |m| > 2 {
      ExpansionIsLaplace(m, |m|);
    }
  }

  lemma {:induction false} ExpansionIsLaplace(m: Mat, t: nat)
    requires IsSquare(m) && |m| > 2 && t <= |m|
    ensures Expansion(m, t) == LaplaceSum(m, t)
    decreases |m|, 0, t
  {
    if t > 0 {
      ExpansionIsLaplace(m, t - 1);
      DetIsLaplace(Minor(m, 0, t - 1));
    }
  }

  // ------------------------------------------------ cofactor, adjoint, inverse

  /** cofactor[i][j] = (-1)^(i+j) * det(minor deleting row i and column j). */
  function CofactorMatrix(m: Mat): (c: Mat)
    requires IsSquare(m) && |m| >= 2
    ensures IsSquare(c) && |c| == |m|
  {
    seq(|m|, i requires 0 <= i < |m| =>
      seq(|m|, j requires 0 <= j < |m| => Cofactor(m, i, j)))
  }

  /** The adjoint: [1] for a 1x1 matrix, otherwise the transposed cofactor matrix. */
  function Adjoint(m: Mat): (a: Mat)
    requires IsSquare(m)
    ensures IsSquare(a) && |a| == |m|
  {
    if |m| == 1 then [[1.0]] else Transpose(CofactorMatrix(m))
  }

  datatype MatrixError = NotConformable | Singular

  /** Every element of m divided by d. */
  function Scaled(m: Mat, d: real): (s: Mat)
    requires IsSquare(m) && d != 0.0
    ensures IsSquare(s) && |s| == |m|
  {
    seq(|m|, i requires 0 <= i < |m| => seq(|m|, j requires 0 <= j < |m| => m[i][j] / d))
  }

  /** adjoint / det, or Singular when the determinant is exactly zero. */
  function Inverse(m: Mat): (r: Result<Mat, MatrixError>)
    requires IsSquare(m)
    ensures r.Err? <==> Det(m) == 0.0
    ensures r.Err? ==> r.error == Singular
    ensures r.Ok? ==> IsSquare(r.value) && |r.value| == |m|
  {
    var d := Det(m);
    if d == 0.0 then Err(Singular) else Ok(Scaled(Adjoint(m), d))
  }

  /** Entry [i][j] of the adjoint is the cofactor of element (j, i). */
  lemma AdjointAt(m: Mat, i: nat, j: nat)
    requires IsSquare(m) && |m| >= 2 && i < |m| && j < |m|
    ensures Adjoint(m)[i][j] == Cofactor(m, j, i)
  {
    var c := CofactorMatrix(m);
    assert Adjoint(m) == Transpose(c);
    assert Transpose(c)[i][j] == c[j][i];
  }

  /** Summing row 0 against a column of cofactors of row 0 is the expansion. */
  lemma {:induction false} DotToCofactors(m: Mat, a: Mat, t: nat)
    requires IsSquare(m) && |m| >= 2 && t <= |m| && |a| >= t
    requires forall j :: 0 <= j < t ==> |a[j]| >= 1 && a[j][0] == Cofactor(m, 0, j)
    ensures DotTo(m[0], a, 0, t) == Expansion(m, t)
  {
    if t > 0 {
      DotToCofactors(m, a, t - 1);
    }
  }

  /** For every size of at least 2, the determinant is the full expansion
      along row 0 (for 2x2 the closed form agrees with it). */
  lemma DetIsExpansion(m: Mat)
    requires IsSquare(m) && |m| >= 2
    ensures Det(m) == Expansion(m, |m|)
  {
    if |m| == 2 {
      MinorOfTwo(m, 0, 0);
      MinorOfTwo(m, 0, 1);
      assert Cofactor(m, 0, 0) == m[1][1];
      assert Cofactor(m, 0, 1) == -m[1][0];
      assert Expansion(m, 1) == m[0][0] * m[1][1];
    }
  }

  /** Column 0 of the adjoint holds the cofactors of row 0. */
  lemma AdjointColumnZero(m: Mat)
    requires IsSquare(m) && |m| >= 2
    ensures forall j :: 0 <= j < |m| ==> |Adjoint(m)[j]| >= 1 && Adjoint(m)[j][0] == Cofactor(m, 0, j)
  {
    forall j | 0 <= j < |m| ensures Adjoint(m)[j][0] == Cofactor(m, 0, j) {
      AdjointAt(m, j, 0);
    }
  }

  /** Row 0 of m times column 0 of its adjoint is det(m): the expansion along
      row 0 written with the cofactor matrix. */
  lemma AdjointCorner(m: Mat)
    requires IsSquare(m)
    ensures Mul(m, Adjoint(m))[0][0] == Det(m)
  {
    var adj := Adjoint(m);
    assert Mul(m, adj)[0][0] == DotTo(m[0], adj, 0, |m|);
    if |m| == 1 {
      assert DotTo(m[0], adj, 0, 1) == m[0][0] * 1.0;
    } else {
      AdjointColumnZero(m);
      DotToCofactors(m, adj, |m|);
      DetIsExpansion(m);
    }
  }

  lemma {:induction false} DotToScaled(row: seq<real>, b: Mat, s: Mat, col: nat, n: nat, d: real)
    requires d != 0.0 && n <= |row| && n <= |b| && n <= |s|
    requires forall t :: 0 <= t < n ==> col < |b[t]| && col < |s[t]| && s[t][col] == b[t][col] / d
    ensures DotTo(row, s, col, n) == DotTo(row, b, col, n) / d
  {
    if n > 0 {
      DotToScaled(row, b, s, col, n - 1, d);
    }
  }

  /** Every entry of the inverse is the matching adjoint entry divided by det(m). */
  lemma InverseEntries(m: Mat)
    requires IsSquare(m) && Det(m) != 0.0
    ensures forall i, j :: 0 <= i < |m| && 0 <= j < |m| ==>
      Inverse(m).value[i][j] == Adjoint(m)[i][j] / Det(m)
  {
  }

  /** Entry (i, j) of the inverse is adjoint entry (i, j) divided by det(m). */
  lemma ScaledAt(m: Mat, d: real, i: nat, j: nat, a: real)
    requires IsSquare(m) && d != 0.0 && i < |m| && j < |m| && a == m[i][j]
    ensures Scaled(m, d)[i][j] == a / d
  {
  }

  /** Dividing every entry of b by d divides every entry of a*b by d. */
  lemma EntryScaled(a: Mat, b: Mat, s: Mat, d: real, i: nat, j: nat)
    requires IsSquare(a) && IsSquare(b) && IsSquare(s) && |a| == |b| == |s| && d != 0.0
    requires i < |a| && j < |a|
    requires forall i, j :: 0 <= i < |b| && 0 <= j < |b| ==> s[i][j] == b[i][j] / d
    ensures Mul(a, s)[i][j] == Mul(a, b)[i][j] / d
  {
    DotToScaled(a[i], b, s, j, |b|, d);
  }

  /** Entry [0][0] of m times its inverse is exactly 1. */
  lemma InverseCorner(m: Mat)
    requires IsSquare(m) && Det(m) != 0.0
    ensures Mul(m, Inverse(m).value)[0][0] == 1.0
  {
    var d := Det(m);
    InverseEntries(m);
    AdjointCorner(m);
    EntryScaled(m, Adjoint(m), Inverse(m).value, d, 0, 0);
    DivSelf(d);
  }

  lemma DivSelf(d: real)
    requires d != 0.0
    ensures d / d == 1.0
  {
  }

  /** The cofactors of a 2x2 matrix. */
  lemma TwoByTwoCofactors(m: Mat)
    requires IsSquare(m) && |m| == 2
    ensures Cofactor(m, 0, 0) == m[1][1] && Cofactor(m, 0, 1) == -m[1][0]
    ensures Cofactor(m, 1, 0) == -m[0][1] && Cofactor(m, 1, 1) == m[0][0]
  {
    MinorOfTwo(m, 0, 0);
    MinorOfTwo(m, 0, 1);
    MinorOfTwo(m, 1, 0);
    MinorOfTwo(m, 1, 1);
  }

  // ---------------------------------------------------------- worked examples

  /** [[5]] has determinant 5 and [[1, 2], [3, 4]] has determinant -2. */
  lemma DeterminantExamples()
    ensures Det([[5.0]]) == 5.0
    ensures Det([[1.0, 2.0], [3.0, 4.0]]) == -2.0
  {
  }

  /** [[1, 2], [2, 4]] is singular, so its inverse is refused. */
  lemma SingularExample()
    ensures Inverse([[1.0, 2.0], [2.0, 4.0]]) == Err(Singular)
  {
  }

  /** Asking for B*A with B = [[1], [2], [3]] and A = [[1, 0, 0], [0, 1, 0]]:
      B's 1 column does not match A's 2 rows, but A's 3 columns match B's 3
      rows, so the operands are swapped and the 2x1 product A*B results. */
  lemma SwappedProductExample()
    ensures ChooseOrder(3, 1, 2, 3) == BA
    ensures Mul([[1.0, 0.0, 0.0], [0.0, 1.0, 0.0]], [[1.0], [2.0], [3.0]]) == [[1.0], [2.0]]
  {
    var a, b := [[1.0, 0.0, 0.0], [0.0, 1.0, 0.0]], [[1.0], [2.0], [3.0]];
    var p := Mul(a, b);
    assert DotTo(a[0], b, 0, 1) == 1.0 && DotTo(a[0], b, 0, 2) == 1.0;
    assert DotTo(a[1], b, 0, 1) == 0.0 && DotTo(a[1], b, 0, 2) == 2.0;
    assert p[0] == [1.0];
    assert p[1] == [2.0];
  }

  /** A 3x3 determinant by expansion along the top row:
      det [[2, 0, 1], [1, 3, 2], [1, 1, 1]] = 2*(3-2) - 0*(1-2) + 1*(1-3) = 0. */
  lemma ThreeByThreeExample()
    ensures Det([[2.0, 0.0, 1.0], [1.0, 3.0, 2.0], [1.0, 1.0, 1.0]]) == 0.0
  {
    var m := [[2.0, 0.0, 1.0], [1.0, 3.0, 2.0], [1.0, 1.0, 1.0]];
    TopMinorOfThree(m, 0);
    TopMinorOfThree(m, 1);
    TopMinorOfThree(m, 2);
    assert Cofactor(m, 0, 0) == 1.0;
    assert Cofactor(m, 0, 1) == 1.0;
    assert Cofactor(m, 0, 2) == -2.0;
    assert Expansion(m, 1) == 2.0;
    assert Expansion(m, 2) == 2.0;
  }

  /** The minors along the top row of a 3x3 matrix. */
  lemma TopMinorOfThree(m: Mat, c: nat)
    requires IsSquare(m) && |m| == 3 && c < 3
    ensures Minor(m, 0, c) ==
      [[m[1][Skip(0, c)], m[1][Skip(1, c)]], [m[2][Skip(0, c)], m[2][Skip(1, c)]]]
  {
    var s := Minor(m, 0, c);
    assert s[0] == [m[1][Skip(0, c)], m[1][Skip(1, c)]];
    assert s[1] == [m[2][Skip(0, c)], m[2][Skip(1, c)]];
  }
}
