/** The program's file reader: a `Context` walks the lines of an opened file,
    and `ReadMatrix` builds a `Matrix` from them or reports why the file is not
    a matrix file. Every method is proved to behave as the corresponding
    function of `MatrixFile`. */
module Reader {
  import opened Outcomes
  import opened Text
  import opened Algebra
  import opened Matrices
  import opened MatrixFile

  /** Why no matrix came out of a file: it could not be opened, or its
      contents are invalid. */
  datatype ReadError = OpenFailed | Invalid(failure: Failure)

  /** The program's `Context`, together with the position `fgets` and
      `strtok` keep for it. */
  class Context {
    /** The file's lines. */
    const lines: seq<string>
    /** Number of lines `fgets` has consumed. */
    var next: nat
    var lineNumber: int
    var token: Option<string>
    /** Tokens `strtok` has not yet returned from the current line. */
    var rest: seq<string>

    ghost function Cur(): Cursor
      reads this
    {
      Cursor(next, lineNumber, token, rest)
    }

    ghost predicate Valid()
      reads this
    {
      next <= |lines|
    }

    /** The context read_matrix sets up for an opened file, with the line
        count at zero and no token yet. */
    constructor (lines: seq<string>)
      ensures Valid() && this.lines == lines && Cur() == Cursor(0, 0, None, [])
    {
      this.lines := lines;
      next := 0;
      lineNumber := 0;
      token := None;
      rest := [];
    }

    /** read_line. */
    method ReadLine() returns (r: Result<string, Failure>)
      requires Valid()
      modifies this
      ensures Valid()
      ensures var s := MatrixFile.ReadLine(lines, old(Cur()));
        (s.Err? ==> r == Err(s.error)) && (s.Ok? ==> Cur() == s.value && r == Ok(token.value))
      decreases |lines| - next
    {
      lineNumber := lineNumber + 1;
      if next == |lines| {
        return Err(Failure(EndOfInput, lineNumber, token));
      }
      var ts := Tokens(lines[next]);
      next := next + 1;
      if ts == [] {
        token := None;
        rest := [];
      } else {
        token := Some(ts[0]);
        rest := ts[1..];
      }
      if token.None? || IsComment(token.value) {
        r := ReadLine();
      } else {
        r := Ok(token.value);
      }
    }

    /** get_new_token. */
    method GetNewToken() returns (t: Option<string>)
      modifies this
      ensures Cur() == NextToken(old(Cur())) && t == token
    {
      if rest == [] {
        token := None;
      } else {
        token := Some(rest[0]);
        rest := rest[1..];
      }
      t := token;
    }

    /** read_rows_cols. */
    method ReadRowsCols() returns (r: Result<(nat, nat), Failure>)
      modifies this
      ensures var s := MatrixFile.ReadRowsCols(old(Cur()));
        (s.Err? ==> r == Err(s.error)) && (s.Ok? ==> r == Ok((s.value.0, s.value.1)) && Cur() == s.value.2)
    {
      if token != Some("matrix") {
        return Err(Failure(NotMatrixHeader, lineNumber, token));
      }
      var t := GetNewToken();
      var rows := GetInt(t);
      if rows.Err? {
        return Err(Failure(rows.error, lineNumber, token));
      }
      t := GetNewToken();
      var cols := GetInt(t);
      if cols.Err? {
        return Err(Failure(cols.error, lineNumber, token));
      }
      t := GetNewToken();
      if t.Some? && !IsComment(t.value) {
        return Err(Failure(TrailingAfterHeader, lineNumber, token));
      }
      r := Ok((rows.value, cols.value));
    }

    /** The element loop of read_array for row i: stores the row at
        i*cols + j and checks what follows it on the line. */
    method ReadRow(m: Matrix, i: nat) returns (err: Option<Failure>, ghost row: seq<real>)
      requires Valid() && m.Valid() && i < m.rows
      modifies this, m.values
      ensures Valid()
      ensures var s := RowFrom(old(Cur()), m.cols, []);
        (s.Err? ==> err == Some(s.error)) && (s.Ok? ==> err.None? && row == s.value.0 && Cur() == s.value.1)
      ensures forall jj: nat :: jj < m.cols && err.None? ==> m.values[Idx(i, jj, m.rows, m.cols)] == row[jj]
      ensures forall ii: nat, jj: nat :: ii < m.rows && ii != i && jj < m.cols ==>
        m.values[Idx(ii, jj, m.rows, m.cols)] == old(m.values[Idx(ii, jj, m.rows, m.cols)])
    {
      ghost var c1 := Cur();
      row := [];
      var j := 0;
      while j < m.cols
        invariant 0 <= j <= m.cols && |row| == j && Valid()
        invariant forall jj: nat :: jj < j ==> m.values[Idx(i, jj, m.rows, m.cols)] == row[jj]
        invariant forall ii: nat, jj: nat :: ii < m.rows && ii != i && jj < m.cols ==>
          m.values[Idx(ii, jj, m.rows, m.cols)] == old(m.values[Idx(ii, jj, m.rows, m.cols)])
        invariant RowFrom(c1, m.cols, []) == RowFrom(Cur(), m.cols, row)
      {
        if token.None? {
          return Some(Failure(TooFewColumns, lineNumber, token)), row;
        }
        if token.value == "end" {
          return Some(Failure(TooFewRows, lineNumber, token)), row;
        }
        var x := GetDouble(token.value);
        if x.Err? {
          return Some(Failure(x.error, lineNumber, token)), row;
        }
        IdxInjective(i, j, m.rows, m.cols);
        m.values[Idx(i, j, m.rows, m.cols)] := x.value;
        row := row + [x.value];
        var _ := GetNewToken();
        j := j + 1;
      }
      if token.Some? && !IsComment(token.value) {
        return Some(Failure(TrailingCharacters, lineNumber, token)), row;
      }
      err := None;
    }

    /** read_array: fills the matrix row by row from the next `rows`
        significant lines. */
    method ReadArray(m: Matrix) returns (err: Option<Failure>)
      requires Valid() && m.Valid()
      modifies this, m.values
      ensures Valid()
      ensures var s := ReadRows(lines, old(Cur()), m.rows, m.cols, []);
        (s.Err? ==> err == Some(s.error)) && (s.Ok? ==> err.None? && m.Cells() == s.value.0 && Cur() == s.value.1)
    {
      ghost var c0 := Cur();
      ghost var acc: Mat := [];
      var i := 0;
      while i < m.rows
        invariant 0 <= i <= m.rows && |acc| == i && Valid()
        invariant forall r | 0 <= r < i :: |acc[r]| == m.cols
        invariant forall ii: nat, jj: nat :: ii < i && jj < m.cols ==>
          m.values[Idx(ii, jj, m.rows, m.cols)] == acc[ii][jj]
        invariant ReadRows(lines, c0, m.rows, m.cols, []) == ReadRows(lines, Cur(), m.rows, m.cols, acc)
      {
        ghost var before := Cur();
        var first := ReadLine();
        if first.Err? {
          return Some(first.error);
        }
        var e, row := ReadRow(m, i);
        if e.Some? {
          return e;
        }
        ReadRowsStep(lines, before, m.rows, m.cols, acc);
        acc := acc + [row];
        i := i + 1;
      }
      CellsAre(m, acc);
      err := None;
    }

    /** read_file_end. */
    method ReadFileEnd() returns (err: Option<Failure>)
      requires Valid()
      modifies this
      ensures Valid()
      ensures var s := MatrixFile.ReadFileEnd(lines, old(Cur()));
        (s.Err? ==> err == Some(s.error)) && (s.Ok? ==> err.None? && Cur() == s.value)
    {
      var first := ReadLine();
      if first.Err? {
        return Some(first.error);
      }
      if token != Some("end") {
        return Some(Failure(MissingEnd, lineNumber, token));
      }
      var t := GetNewToken();
      if t.Some? && !IsComment(t.value) {
        return Some(Failure(TrailingCharacters, lineNumber, token));
      }
      err := None;
    }
  }

  /** One turn of the row loop: a significant line, then its elements. */
  lemma ReadRowsStep(lines: seq<string>, c: Cursor, rows: nat, cols: nat, acc: Mat)
    requires c.next <= |lines| && |acc| < rows
    requires forall i | 0 <= i < |acc| :: |acc[i]| == cols
    requires MatrixFile.ReadLine(lines, c).Ok?
    ensures var c1 := MatrixFile.ReadLine(lines, c).value; var rf := RowFrom(c1, cols, []);
      (rf.Err? ==> ReadRows(lines, c, rows, cols, acc) == Err(rf.error))
      && (rf.Ok? ==> ReadRows(lines, c, rows, cols, acc) == ReadRows(lines, rf.value.1, rows, cols, acc + [rf.value.0]))
  {
  }

  /** read_matrix: `file` is None when the file cannot be opened, otherwise
      its lines. The matrix returned is the one the file holds. */
  method ReadMatrix(file: Option<seq<string>>) returns (r: Result<Matrix, ReadError>)
    ensures file.None? ==> r == Err(OpenFailed)
    ensures file.Some? && ReadMatrixText(file.value).Err? ==> r == Err(Invalid(ReadMatrixText(file.value).error))
    ensures file.Some? && ReadMatrixText(file.value).Ok? ==>
      r.Ok? && r.value.Valid() && r.value.Cells() == ReadMatrixText(file.value).value
    ensures r.Ok? ==> fresh(r.value) && fresh(r.value.values)
  {
    if file.None? {
      return Err(OpenFailed);
    }
    var context := new Context(file.value);
    ghost var text := ReadMatrixText(file.value);
    var first := context.ReadLine();
    if first.Err? {
      assert text == Err(first.error);
      return Err(Invalid(first.error));
    }
    var dims := context.ReadRowsCols();
    if dims.Err? {
      assert text == Err(dims.error);
      return Err(Invalid(dims.error));
    }
    ghost var c2 := context.Cur();
    assert text == ReadRowsThenEnd(file.value, c2, dims.value.0, dims.value.1);
    var matrix := new Matrix(dims.value.0, dims.value.1);
    var e := context.ReadArray(matrix);
    if e.Some? {
      return Err(Invalid(e.value));
    }
    e := context.ReadFileEnd();
    if e.Some? {
      return Err(Invalid(e.value));
    }
    r := Ok(matrix);
  }

  /** What read_matrix has left to do once the header has been read. */
  ghost function ReadRowsThenEnd(lines: seq<string>, c: Cursor, rows: nat, cols: nat): Result<Mat, Failure>
    requires c.next <= |lines|
  {
    match ReadRows(lines, c, rows, cols, [])
    case Err(f) => Err(f)
    case Ok((m, c3)) =>
      match MatrixFile.ReadFileEnd(lines, c3)
      case Err(f) => Err(f)
      case Ok(_) => Ok(m)
  }
}
