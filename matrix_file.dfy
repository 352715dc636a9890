/** The matrix file format and the reader's behaviour on it, as pure functions.

    A file is a sequence of physical lines. Lines that hold no token, or whose
    first token starts with '#', are skipped. The significant lines must be
    `matrix R C`, then R lines of C numbers, then `end`; each may be followed
    by a comment token. The reader walks the file with a `Cursor` (the state of
    the program's `Context` and of `strtok`) and stops at the first problem with
    a `Failure`: the reason, the line number and the token it reports. */
module MatrixFile {
  import opened Outcomes
  import opened Text
  import opened Algebra

  /** MAX_ROWS_COLS. */
  const MaxRowsCols: nat := 2000

  datatype Reason =
    | EndOfInput          // no line left to read
    | NotMatrixHeader     // first significant token is not `matrix`
    | BadDimension        // stated rows or columns are not an integer >= 1
    | DimensionTooLarge   // stated rows or columns exceed MaxRowsCols
    | TrailingAfterHeader // a non-comment token after `matrix R C`
    | BadElement          // an element that is not a number
    | TooFewColumns       // a row line ends before C elements
    | TooFewRows          // `end` met where an element was expected
    | TrailingCharacters  // a non-comment token after a row or after `end`
    | MissingEnd          // the line after the last row does not start with `end`

  /** The text each failure prints after "<file> is an invalid matrix file.";
      only running out of input and a missing `matrix` keyword print none. */
  function Message(r: Reason): (text: string)
    ensures text == "" <==> r == EndOfInput || r == NotMatrixHeader
  {
    match r
    case EndOfInput => ""
    case NotMatrixHeader => ""
    case BadDimension => "Stated rows or columns are invalid."
    case DimensionTooLarge => "Rows or columns of the matrix are bigger than the maximum value allowed."
    case TrailingAfterHeader => "There are unexpected characters in the file."
    case BadElement => "Matrix element is invalid."
    case TooFewColumns => "Number of stated columns does not match file."
    case TooFewRows => "Number of stated rows does not match file."
    case TrailingCharacters => "Unexpected characters in the file."
    case MissingEnd => "Could not find the end of the file."
  }

  /** What the program reports when it gives up: reason, line number, token. */
  datatype Failure = Failure(reason: Reason, line: int, token: Option<string>)

  /** Reading position: `next` physical lines consumed, the line number the
      context counts, the token most recently produced and the tokens `strtok`
      still holds for the current line. */
  datatype Cursor = Cursor(next: nat, line: int, token: Option<string>, rest: seq<string>)

  /** A cursor whose strtok state is exhausted holds no pending tokens. */
  predicate Coherent(c: Cursor)
  {
    c.token.None? ==> c.rest == []
  }

  /** The current token and the ones still to come on the line. */
  function Remaining(c: Cursor): seq<string>
  {
    if c.token.Some? then [c.token.value] + c.rest else []
  }

  /** A line that is neither blank nor a comment. */
  predicate Significant(line: string)
  {
    var ts := Tokens(line);
    ts != [] && !IsComment(ts[0])
  }

  /** The token lists of the significant lines from line index n on. */
  function SigFrom(lines: seq<string>, n: nat): seq<seq<string>>
    requires n <= |lines|
    decreases |lines| - n
  {
    if n == |lines| then []
    else (if Significant(lines[n]) then [Tokens(lines[n])] else []) + SigFrom(lines, n + 1)
  }

  /** Starting to tokenise a physical line. */
  function StartLine(next: nat, line: int, ts: seq<string>): (c: Cursor)
    ensures Coherent(c) && Remaining(c) == ts
  {
    if ts == [] then Cursor(next, line, None, []) else Cursor(next, line, Some(ts[0]), ts[1..])
  }

  /** read_line: count a line; fail at the end of the input; skip the line when
      it is blank or a comment; otherwise its first token becomes current. */
  function ReadLine(lines: seq<string>, c: Cursor): (r: Result<Cursor, Failure>)
    requires c.next <= |lines|
    ensures r.Ok? ==> c.next < r.value.next <= |lines| && r.value.line == c.line + (r.value.next - c.next)
    ensures r.Ok? ==> Coherent(r.value) && r.value.token.Some? && Significant(lines[r.value.next - 1])
    ensures r.Ok? ==> Remaining(r.value) == Tokens(lines[r.value.next - 1])
    ensures r.Ok? ==> forall k | c.next <= k < r.value.next - 1 :: !Significant(lines[k])
    ensures r.Err? ==> r.error.reason == EndOfInput && r.error.line == c.line + (|lines| - c.next) + 1
    ensures r.Err? ==> forall k | c.next <= k < |lines| :: !Significant(lines[k])
    decreases |lines| - c.next
  {
    var line := c.line + 1;
    if c.next == |lines| then Err(Failure(EndOfInput, line, c.token))
    else
      var c1 := StartLine(c.next + 1, line, Tokens(lines[c.next]));
      if c1.token.None? || IsComment(c1.token.value) then ReadLine(lines, c1) else Ok(c1)
  }

  /** get_new_token: the next token of the current line, if any. */
  function NextToken(c: Cursor): (d: Cursor)
    ensures d.next == c.next && d.line == c.line
    ensures Coherent(c) && c.token.Some? ==> Coherent(d) && Remaining(d) == Remaining(c)[1..]
  {
    if c.rest == [] then c.(token := None) else c.(token := Some(c.rest[0]), rest := c.rest[1..])
  }

  /** get_int, with the missing token reported as an invalid dimension. */
  function GetInt(token: Option<string>): (r: Result<nat, Reason>)
    ensures r.Ok? ==> 1 <= r.value <= MaxRowsCols
    ensures r.Err? ==> r.error == BadDimension || r.error == DimensionTooLarge
  {
    if token.None? then Err(BadDimension)
    else match ParseLong(token.value)
      case None => Err(BadDimension)
      case Some(v) =>
        if v < 1 then Err(BadDimension)
        else if v > MaxRowsCols then Err(DimensionTooLarge)
        else Ok(v)
  }

  /** get_int as the program calls it: on a header with fewer than two
      dimensions it is handed the null pointer `strtok` returned, which
      strtol dereferences. `None` stands for that undefined behaviour. */
  function GetIntAsWritten(token: Option<string>): (r: Option<Result<nat, Reason>>)
    ensures r.None? <==> token.None?
    ensures r.Some? ==> r.value == GetInt(token)
  {
    if token.None? then None else Some(GetInt(token))
  }

  /** A dimension token is accepted exactly when the whole token is an
      integer from 1 to MaxRowsCols, and then its value is that integer. */
  lemma DimensionAccepted(t: string, n: nat)
    ensures GetInt(Some(t)) == Ok(n) <==> ParseLong(t) == Some(n) && 1 <= n <= MaxRowsCols
    ensures GetInt(Some(t)) == Err(DimensionTooLarge) <==> ParseLong(t).Some? && ParseLong(t).value > MaxRowsCols
  {
  }

  /** Every dimension the program can hold, written in decimal, is read back. */
  lemma DimensionRoundTrip(n: nat)
    requires 1 <= n <= MaxRowsCols
    ensures GetInt(Some(NatToDecimal(n))) == Ok(n)
  {
    ParseLongOfDecimal(n);
  }

  /** get_double: an element is a token strtod reads completely. The only
      failure is an invalid element, and a token without a digit (`end`, a
      comment) is never an element. */
  function GetDouble(token: string): (r: Result<real, Reason>)
    ensures r.Err? ==> r.error == BadElement
    ensures r.Ok? ==> HasDigit(token) && ParseReal(token) == Some(r.value)
  {
    match ParseReal(token)
    case None => Err(BadElement)
    case Some(x) => Ok(x)
  }

  /** Nothing, or a comment, follows on the line. */
  predicate CommentTail(ts: seq<string>)
  {
    ts == [] || IsComment(ts[0])
  }

  /** read_rows_cols, given the cursor on the first significant token. */
  function ReadRowsCols(c: Cursor): (r: Result<(nat, nat, Cursor), Failure>)
    ensures r.Ok? ==> 1 <= r.value.0 <= MaxRowsCols && 1 <= r.value.1 <= MaxRowsCols
    ensures r.Ok? ==> r.value.2.next == c.next && r.value.2.line == c.line
    ensures r.Err? ==> r.error.line == c.line
  {
    if c.token != Some("matrix") then Err(Failure(NotMatrixHeader, c.line, c.token))
    else
      var c1 := NextToken(c);
      match GetInt(c1.token)
      case Err(e) => Err(Failure(e, c1.line, c1.token))
      case Ok(rows) =>
        var c2 := NextToken(c1);
        match GetInt(c2.token)
        case Err(e) => Err(Failure(e, c2.line, c2.token))
        case Ok(cols) =>
          var c3 := NextToken(c2);
          if c3.token.Some? && !IsComment(c3.token.value) then Err(Failure(TrailingAfterHeader, c3.line, c3.token))
          else Ok((rows, cols, c3))
  }

  /** The inner loop of read_array: the elements of one row after the `|acc|`
      already read, then the test that nothing but a comment follows. */
  function RowFrom(c: Cursor, cols: nat, acc: seq<real>): (r: Result<(seq<real>, Cursor), Failure>)
    requires |acc| <= cols
    ensures r.Ok? ==> |r.value.0| == cols && r.value.0[..|acc|] == acc
    ensures r.Ok? ==> r.value.1.next == c.next && r.value.1.line == c.line
    ensures r.Err? ==> r.error.line == c.line
    decreases cols - |acc|
  {
    if |acc| == cols then
      if c.token.Some? && !IsComment(c.token.value) then Err(Failure(TrailingCharacters, c.line, c.token)) else Ok((acc, c))
    else if c.token.None? then Err(Failure(TooFewColumns, c.line, c.token))
    else if c.token.value == "end" then Err(Failure(TooFewRows, c.line, c.token))
    else match GetDouble(c.token.value)
      case Err(e) => Err(Failure(e, c.line, c.token))
      case Ok(x) =>
        var r := RowFrom(NextToken(c), cols, acc + [x]);
        if r.Ok? then
          PrefixOfPrefix(r.value.0, acc, x);
          r
        else r
  }

  /** The outer loop of read_array: rows `|acc|` to `rows - 1`, one
      significant line each. */
  function ReadRows(lines: seq<string>, c: Cursor, rows: nat, cols: nat, acc: Mat): (r: Result<(Mat, Cursor), Failure>)
    requires c.next <= |lines| && |acc| <= rows
    requires forall i | 0 <= i < |acc| :: |acc[i]| == cols
    ensures r.Ok? ==> |r.value.0| == rows && r.value.0[..|acc|] == acc
    ensures r.Ok? ==> c.next <= r.value.1.next <= |lines|
    ensures r.Ok? ==> forall i | 0 <= i < rows :: |r.value.0[i]| == cols
    decreases rows - |acc|
  {
    if |acc| == rows then Ok((acc, c))
    else match ReadLine(lines, c)
      case Err(f) => Err(f)
      case Ok(c1) =>
        match RowFrom(c1, cols, [])
        case Err(f) => Err(f)
        case Ok((row, c2)) =>
          var r := ReadRows(lines, c2, rows, cols, acc + [row]);
          if r.Ok? then
            PrefixOfPrefix(r.value.0, acc, row);
            r
          else r
  }

  lemma PrefixOfPrefix<T>(s: seq<T>, acc: seq<T>, x: T)
    requires |acc| < |s| && s[..|acc| + 1] == acc + [x]
    ensures s[..|acc|] == acc
  {
    assert s[..|acc|] == s[..|acc| + 1][..|acc|];
  }

  /** read_file_end: the next significant line starts with `end`, and nothing
      but a comment follows it there. */
  function ReadFileEnd(lines: seq<string>, c: Cursor): (r: Result<Cursor, Failure>)
    requires c.next <= |lines|
    ensures r.Ok? ==> r.value.token.None? || IsComment(r.value.token.value)
  {
    match ReadLine(lines, c)
    case Err(f) => Err(f)
    case Ok(c1) =>
      if c1.token != Some("end") then Err(Failure(MissingEnd, c1.line, c1.token))
      else
        var c2 := NextToken(c1);
        if c2.token.Some? && !IsComment(c2.token.value) then Err(Failure(TrailingCharacters, c2.line, c2.token))
        else Ok(c2)
  }

  /** read_matrix from a given starting context: header, rows, end. */
  function ReadMatrixFrom(lines: seq<string>, c0: Cursor): (r: Result<Mat, Failure>)
    requires c0.next <= |lines|
    ensures r.Ok? ==> Rect(r.value) && 1 <= |r.value| <= MaxRowsCols && 1 <= Cols(r.value) <= MaxRowsCols
  {
    match ReadLine(lines, c0)
    case Err(f) => Err(f)
    case Ok(c1) =>
      match ReadRowsCols(c1)
      case Err(f) => Err(f)
      case Ok((rows, cols, c2)) =>
        match ReadRows(lines, c2, rows, cols, [])
        case Err(f) => Err(f)
        case Ok((m, c3)) =>
          match ReadFileEnd(lines, c3)
          case Err(f) => Err(f)
          case Ok(_) => Ok(m)
  }

  /** The reader as intended: nothing read yet, line count zero, no token. */
  function ReadMatrixText(lines: seq<string>): (r: Result<Mat, Failure>)
    ensures r.Ok? ==> Rect(r.value) && 1 <= |r.value| <= MaxRowsCols && 1 <= Cols(r.value) <= MaxRowsCols
  {
    ReadMatrixFrom(lines, Cursor(0, 0, None, []))
  }

  // ---------------------------------------------------------------------
  // The format, stated on the significant lines alone.

  predicate HeaderLine(ts: seq<string>, rows: nat, cols: nat)
  {
    |ts| >= 3 && ts[0] == "matrix" && GetInt(Some(ts[1])) == Ok(rows)
    && GetInt(Some(ts[2])) == Ok(cols) && CommentTail(ts[3..])
  }

  predicate RowLine(ts: seq<string>, row: seq<real>)
  {
    |ts| >= |row| && (forall j | 0 <= j < |row| :: ParseReal(ts[j]) == Some(row[j]))
    && CommentTail(ts[|row|..])
  }

  predicate EndLine(ts: seq<string>)
  {
    |ts| >= 1 && ts[0] == "end" && CommentTail(ts[1..])
  }

  /** `lines` is a matrix file holding m: a header stating m's shape, one line
      per row of m, then `end`. Lines after the `end` line are not looked at. */
  predicate WellFormed(lines: seq<string>, m: Mat)
  {
    Shape(SigFrom(lines, 0), m)
  }

  /** The significant lines s, in order, hold m: header, rows, `end`. */
  predicate Shape(s: seq<seq<string>>, m: Mat)
  {
    |m| >= 1 && |s| >= |m| + 2 && HeaderLine(s[0], |m|, |m[0]|)
    && (forall i | 0 <= i < |m| :: |m[i]| == |m[0]| && RowLine(s[i + 1], m[i]))
    && EndLine(s[|m| + 1])
  }

  // ---------------------------------------------------------------------
  // The reader accepts exactly the well-formed files.

  /** read_line finds the next significant line, and only that. */
  lemma {:induction false} ReadLineSig(lines: seq<string>, c: Cursor)
    requires c.next <= |lines|
    ensures ReadLine(lines, c).Ok? <==> SigFrom(lines, c.next) != []
    ensures ReadLine(lines, c).Ok? ==>
      Remaining(ReadLine(lines, c).value) == SigFrom(lines, c.next)[0]
      && SigFrom(lines, ReadLine(lines, c).value.next) == SigFrom(lines, c.next)[1..]
    decreases |lines| - c.next
  {
    if c.next < |lines| {
      var c1 := StartLine(c.next + 1, c.line + 1, Tokens(lines[c.next]));
      if c1.token.None? || IsComment(c1.token.value) {
        assert !Significant(lines[c.next]);
        ReadLineSig(lines, c1);
      } else {
        assert Significant(lines[c.next]);
      }
    }
  }

  lemma RowLineStep(ts: seq<string>, row: seq<real>)
    requires ts != [] && row != []
    ensures RowLine(ts, row) <==> ParseReal(ts[0]) == Some(row[0]) && RowLine(ts[1..], row[1..])
  {
    if RowLine(ts[1..], row[1..]) {
      assert ts[|row|..] == ts[1..][|row| - 1..];
    }
    if RowLine(ts, row) {
      assert ts[|row|..] == ts[1..][|row| - 1..];
    }
  }

  /** The element loop reads exactly the rows the format allows. */
  lemma {:induction false} RowFromIff(c: Cursor, cols: nat, acc: seq<real>, row: seq<real>)
    requires Coherent(c) && |acc| + |row| == cols
    ensures (RowFrom(c, cols, acc).Ok? && RowFrom(c, cols, acc).value.0 == acc + row)
      <==> RowLine(Remaining(c), row)
    decreases |row|
  {
    if row == [] {
      assert acc + row == acc;
    } else if c.token.Some? {
      var t := c.token.value;
      if t == "end" {
        EndIsNotNumber();
      }
      RowLineStep(Remaining(c), row);
      if t != "end" && ParseReal(t).Some? {
        var x := ParseReal(t).value;
        var r := RowFrom(NextToken(c), cols, acc + [x]);
        RowFromIff(NextToken(c), cols, acc + [x], row[1..]);
        assert acc + [x] + row[1..] == acc + row <==> x == row[0] by {
          if acc + [x] + row[1..] == acc + row {
            assert (acc + row)[|acc|] == x;
          }
          if x == row[0] {
            assert acc + row == acc + [x] + row[1..];
          }
        }
        if r.Ok? && r.value.0 == acc + row {
          assert r.value.0[|acc|] == (r.value.0[..|acc| + 1])[|acc|] == x;
        }
      }
    }
  }

  lemma AppendHead<T>(acc: seq<T>, m: seq<T>)
    requires m != []
    ensures acc + [m[0]] + m[1..] == acc + m
  {
    assert m == [m[0]] + m[1..];
  }

  /** Each of the first |m| significant lines holds the matching row of m. */
  predicate RowLines(s: seq<seq<string>>, m: Mat)
  {
    |s| >= |m| && forall i | 0 <= i < |m| :: RowLine(s[i], m[i])
  }

  lemma RowLinesCons(s: seq<seq<string>>, m: Mat)
    requires s != [] && m != []
    ensures RowLines(s, m) <==> RowLine(s[0], m[0]) && RowLines(s[1..], m[1..])
  {
    if RowLine(s[0], m[0]) && RowLines(s[1..], m[1..]) {
      forall i | 0 <= i < |m| ensures RowLine(s[i], m[i]) {
        if i > 0 {
          assert s[i] == s[1..][i - 1] && m[i] == m[1..][i - 1];
        }
      }
    }
  }

  /** After the row loop the cursor stands before the significant line that
      follows the last row. */
  lemma {:induction false} ReadRowsRest(lines: seq<string>, c: Cursor, rows: nat, cols: nat, acc: Mat)
    requires c.next <= |lines| && |acc| <= rows
    requires forall i | 0 <= i < |acc| :: |acc[i]| == cols
    ensures var r := ReadRows(lines, c, rows, cols, acc); var s := SigFrom(lines, c.next);
      r.Ok? ==> rows - |acc| <= |s| && SigFrom(lines, r.value.1.next) == s[rows - |acc|..]
    decreases rows - |acc|
  {
    if |acc| < rows {
      ReadLineSig(lines, c);
      var l := ReadLine(lines, c);
      if l.Ok? {
        var rf := RowFrom(l.value, cols, []);
        if rf.Ok? {
          ReadRowsRest(lines, rf.value.1, rows, cols, acc + [rf.value.0]);
          var s := SigFrom(lines, c.next);
          if ReadRows(lines, c, rows, cols, acc).Ok? {
            assert s[1..][rows - |acc| - 1..] == s[rows - |acc|..];
          }
        }
      }
    }
  }

  /** The row loop reads exactly the row lines the format allows. */
  lemma {:induction false} ReadRowsIff(lines: seq<string>, c: Cursor, rows: nat, cols: nat, acc: Mat, m: Mat)
    requires c.next <= |lines| && |acc| + |m| == rows
    requires forall i | 0 <= i < |acc| :: |acc[i]| == cols
    requires forall i | 0 <= i < |m| :: |m[i]| == cols
    ensures var r := ReadRows(lines, c, rows, cols, acc);
      (r.Ok? && r.value.0 == acc + m) <==> RowLines(SigFrom(lines, c.next), m)
    decreases |m|
  {
    var s := SigFrom(lines, c.next);
    if m == [] {
      assert acc + m == acc;
    } else {
      ReadLineSig(lines, c);
      var l := ReadLine(lines, c);
      if l.Ok? {
        var c1 := l.value;
        RowFromIff(c1, cols, [], m[0]);
        RowLinesCons(s, m);
        var rf := RowFrom(c1, cols, []);
        assert [] + m[0] == m[0];
        if rf.Ok? {
          var row := rf.value.0;
          var r := ReadRows(lines, rf.value.1, rows, cols, acc + [row]);
          ReadRowsIff(lines, rf.value.1, rows, cols, acc + [row], m[1..]);
          if r.Ok? {
            assert r.value.0[|acc|] == (r.value.0[..|acc| + 1])[|acc|] == row;
          }
          assert (acc + m)[|acc|] == m[0];
          if row == m[0] {
            AppendHead(acc, m);
          }
        }
      }
    }
  }

  /** read_file_end succeeds exactly on an `end` line. */
  lemma ReadFileEndIff(lines: seq<string>, c: Cursor)
    requires c.next <= |lines|
    ensures ReadFileEnd(lines, c).Ok? <==> SigFrom(lines, c.next) != [] && EndLine(SigFrom(lines, c.next)[0])
  {
    ReadLineSig(lines, c);
  }

  /** read_rows_cols succeeds exactly on a header line, with its dimensions. */
  lemma ReadRowsColsIff(c: Cursor, rows: nat, cols: nat)
    requires Coherent(c)
    ensures (ReadRowsCols(c).Ok? && ReadRowsCols(c).value.0 == rows && ReadRowsCols(c).value.1 == cols)
      <==> HeaderLine(Remaining(c), rows, cols)
  {
    var ts := Remaining(c);
    if c.token == Some("matrix") {
      var c1 := NextToken(c);
      var c2 := NextToken(c1);
      var c3 := NextToken(c2);
      if |ts| >= 2 {
        assert c1.token == Some(ts[1]);
        if |ts| >= 3 {
          assert c2.token == Some(ts[2]);
          assert Remaining(c3) == ts[3..];
        } else {
          assert c2.token.None?;
        }
      } else {
        assert c1.token.None?;
      }
    }
  }

  /** The reader returns m exactly when the file is well formed and holds m. */
  lemma ReadMatrixIff(lines: seq<string>, m: Mat)
    ensures ReadMatrixText(lines) == Ok(m) <==> WellFormed(lines, m)
  {
    var c0 := Cursor(0, 0, None, []);
    var s := SigFrom(lines, 0);
    ReadLineSig(lines, c0);
    var l := ReadLine(lines, c0);
    if l.Ok? {
      var c1 := l.value;
      var h := ReadRowsCols(c1);
      if |m| >= 1 {
        ReadRowsColsIff(c1, |m|, |m[0]|);
      }
      if h.Ok? {
        var (rows, cols, c2) := h.value;
        ReadRowsColsIff(c1, rows, cols);
        ReadMatrixTail(lines, c2, rows, cols, m);
      }
    }
  }

  lemma RowLinesShift(s: seq<seq<string>>, m: Mat)
    requires s != []
    ensures RowLines(s[1..], m) <==> |s| >= |m| + 1 && forall i | 0 <= i < |m| :: RowLine(s[i + 1], m[i])
  {
    if |s| >= |m| + 1 {
      forall i | 0 <= i < |m| ensures s[1..][i] == s[i + 1] {}
    }
  }

  /** Rows and `end`, once the header has been read from the first
      significant line. */
  lemma ReadMatrixTail(lines: seq<string>, c: Cursor, rows: nat, cols: nat, m: Mat)
    requires 1 <= c.next <= |lines| && 1 <= rows && 1 <= cols
    requires SigFrom(lines, 0) != [] && SigFrom(lines, c.next) == SigFrom(lines, 0)[1..]
    ensures var rr := ReadRows(lines, c, rows, cols, []);
      (rr.Ok? && rr.value.0 == m && ReadFileEnd(lines, rr.value.1).Ok?)
      <==> (|m| == rows && (forall i | 0 <= i < |m| :: |m[i]| == cols) && |SigFrom(lines, 0)| >= |m| + 2
           && (forall i | 0 <= i < |m| :: RowLine(SigFrom(lines, 0)[i + 1], m[i]))
           && EndLine(SigFrom(lines, 0)[|m| + 1]))
  {
    var s := SigFrom(lines, 0);
    var rr := ReadRows(lines, c, rows, cols, []);
    ReadRowsRest(lines, c, rows, cols, []);
    if rr.Ok? {
      ReadFileEndIff(lines, rr.value.1);
      assert s[1..][rows..] == s[rows + 1..];
    }
    if |m| == rows && (forall i | 0 <= i < |m| :: |m[i]| == cols) {
      ReadRowsIff(lines, c, rows, cols, [], m);
      assert [] + m == m;
      RowLinesShift(s, m);
    }
    if rr.Ok? {
      ReadRowsIff(lines, c, rows, cols, [], rr.value.0);
      assert [] + rr.value.0 == rr.value.0;
    }
  }

  // ---------------------------------------------------------------------
  // Blank lines, comment lines and what follows `end`.

  /** The significant lines of a + b are those of a followed by those of b. */
  lemma {:induction false} SigFromAppend(a: seq<string>, b: seq<string>, n: nat)
    requires n <= |a|
    ensures SigFrom(a + b, n) == SigFrom(a, n) + SigFrom(b, 0)
    decreases |a| - n
  {
    if n == |a| {
      SigFromShift(a, b, 0);
    } else {
      assert (a + b)[n] == a[n];
      var h := if Significant(a[n]) then [Tokens(a[n])] else [];
      assert SigFrom(a + b, n) == h + SigFrom(a + b, n + 1);
      assert SigFrom(a, n) == h + SigFrom(a, n + 1);
      SigFromAppend(a, b, n + 1);
      assert h + (SigFrom(a, n + 1) + SigFrom(b, 0)) == h + SigFrom(a, n + 1) + SigFrom(b, 0);
    }
  }

  /** Past the end of a, the lines of a + b are the lines of b. */
  lemma {:induction false} SigFromShift(a: seq<string>, b: seq<string>, k: nat)
    requires k <= |b|
    ensures SigFrom(a + b, |a| + k) == SigFrom(b, k)
    decreases |b| - k
  {
    if k < |b| {
      assert (a + b)[|a| + k] == b[k];
      SigFromShift(a, b, k + 1);
    }
  }

  /** The file with its blank and comment lines removed. */
  function SignificantOnly(lines: seq<string>): (r: seq<string>)
    ensures forall k | 0 <= k < |r| :: Significant(r[k])
  {
    if lines == [] then []
    else (if Significant(lines[0]) then [lines[0]] else []) + SignificantOnly(lines[1..])
  }

  lemma {:induction false} SigFromOfSignificantOnly(lines: seq<string>)
    ensures SigFrom(SignificantOnly(lines), 0) == SigFrom(lines, 0)
  {
    if lines != [] {
      var head := if Significant(lines[0]) then [lines[0]] else [];
      SigFromOfSignificantOnly(lines[1..]);
      SigFromAppend(head, SignificantOnly(lines[1..]), 0);
      SigFromAppend([lines[0]], lines[1..], 0);
      assert [lines[0]] + lines[1..] == lines;
    }
  }

  /** Blank and comment lines anywhere in the file change nothing about the
      matrix read: the file reads as m exactly when the file without them
      does. */
  lemma CommentTolerance(lines: seq<string>, m: Mat)
    ensures ReadMatrixText(lines) == Ok(m) <==> ReadMatrixText(SignificantOnly(lines)) == Ok(m)
  {
    ReadMatrixIff(lines, m);
    ReadMatrixIff(SignificantOnly(lines), m);
    SigFromOfSignificantOnly(lines);
  }

  /** Whatever follows the `end` line is never read. */
  lemma TrailingLinesIgnored(lines: seq<string>, more: seq<string>, m: Mat)
    requires ReadMatrixText(lines) == Ok(m)
    ensures ReadMatrixText(lines + more) == Ok(m)
  {
    ReadMatrixIff(lines, m);
    SigFromAppend(lines, more, 0);
    ShapeExtended(SigFrom(lines, 0), SigFrom(more, 0), m);
    ReadMatrixIff(lines + more, m);
  }

  lemma ShapeExtended(s: seq<seq<string>>, u: seq<seq<string>>, m: Mat)
    requires Shape(s, m)
    ensures Shape(s + u, m)
  {
    var t := s + u;
    assert forall k | 0 <= k < |s| :: t[k] == s[k];
  }

  // ---------------------------------------------------------------------
  // Where failures are reported.

  /** A failure names the line it happened on: one past the last line when
      the input ran out, otherwise a significant line holding the token. */
  predicate Located(lines: seq<string>, f: Failure)
  {
    (f.reason == EndOfInput ==> f.line == |lines| + 1)
    && (f.reason != EndOfInput ==>
          1 <= f.line <= |lines| && Significant(lines[f.line - 1])
          && (f.token.Some? ==> f.token.value in Tokens(lines[f.line - 1])))
  }

  /** The cursor stands on a significant line whose number it counts
      correctly, and every token it still holds comes from that line. */
  predicate OnLine(lines: seq<string>, c: Cursor)
  {
    Coherent(c) && c.line == c.next && 1 <= c.next <= |lines| && Significant(lines[c.next - 1])
    && forall k | 0 <= k < |Remaining(c)| :: Remaining(c)[k] in Tokens(lines[c.next - 1])
  }

  lemma ReadLineLocated(lines: seq<string>, c: Cursor)
    requires c.next <= |lines| && c.line == c.next
    ensures ReadLine(lines, c).Ok? ==> OnLine(lines, ReadLine(lines, c).value)
    ensures ReadLine(lines, c).Err? ==> Located(lines, ReadLine(lines, c).error)
  {
  }

  lemma NextTokenOnLine(lines: seq<string>, c: Cursor)
    requires OnLine(lines, c)
    ensures OnLine(lines, NextToken(c))
  {
    if c.token.Some? {
      var d := NextToken(c);
      forall k | 0 <= k < |Remaining(d)| ensures Remaining(d)[k] in Tokens(lines[c.next - 1]) {
        assert Remaining(d)[k] == Remaining(c)[k + 1];
      }
    }
  }

  lemma ReadRowsColsLocated(lines: seq<string>, c: Cursor)
    requires OnLine(lines, c)
    ensures ReadRowsCols(c).Err? ==> Located(lines, ReadRowsCols(c).error)
    ensures ReadRowsCols(c).Ok? ==> ReadRowsCols(c).value.2.line == ReadRowsCols(c).value.2.next
  {
    var c1 := NextToken(c);
    NextTokenOnLine(lines, c);
    NextTokenOnLine(lines, c1);
    NextTokenOnLine(lines, NextToken(c1));
    assert c.token.Some? ==> c.token.value == Remaining(c)[0];
    assert c1.token.Some? ==> c1.token.value == Remaining(c1)[0];
    assert NextToken(c1).token.Some? ==> NextToken(c1).token.value == Remaining(NextToken(c1))[0];
    var c3 := NextToken(NextToken(c1));
    assert c3.token.Some? ==> c3.token.value == Remaining(c3)[0];
  }

  lemma {:induction false} RowFromLocated(lines: seq<string>, c: Cursor, cols: nat, acc: seq<real>)
    requires OnLine(lines, c) && |acc| <= cols
    ensures RowFrom(c, cols, acc).Err? ==> Located(lines, RowFrom(c, cols, acc).error)
    ensures RowFrom(c, cols, acc).Ok? ==> RowFrom(c, cols, acc).value.1.line == RowFrom(c, cols, acc).value.1.next
    decreases cols - |acc|
  {
    assert c.token.Some? ==> c.token.value == Remaining(c)[0];
    if |acc| < cols && c.token.Some? && c.token.value != "end" && ParseReal(c.token.value).Some? {
      NextTokenOnLine(lines, c);
      RowFromLocated(lines, NextToken(c), cols, acc + [ParseReal(c.token.value).value]);
    }
  }

  lemma {:induction false} ReadRowsLocated(lines: seq<string>, c: Cursor, rows: nat, cols: nat, acc: Mat)
    requires c.next <= |lines| && c.line == c.next && |acc| <= rows
    requires forall i | 0 <= i < |acc| :: |acc[i]| == cols
    ensures ReadRows(lines, c, rows, cols, acc).Err? ==> Located(lines, ReadRows(lines, c, rows, cols, acc).error)
    ensures ReadRows(lines, c, rows, cols, acc).Ok? ==>
      ReadRows(lines, c, rows, cols, acc).value.1.line == ReadRows(lines, c, rows, cols, acc).value.1.next
    decreases rows - |acc|
  {
    if |acc| < rows {
      ReadLineLocated(lines, c);
      var l := ReadLine(lines, c);
      if l.Ok? {
        RowFromLocated(lines, l.value, cols, []);
        var rf := RowFrom(l.value, cols, []);
        if rf.Ok? {
          ReadRowsLocated(lines, rf.value.1, rows, cols, acc + [rf.value.0]);
        }
      }
    }
  }

  lemma ReadFileEndLocated(lines: seq<string>, c: Cursor)
    requires c.next <= |lines| && c.line == c.next
    ensures ReadFileEnd(lines, c).Err? ==> Located(lines, ReadFileEnd(lines, c).error)
  {
    ReadLineLocated(lines, c);
    var l := ReadLine(lines, c);
    if l.Ok? {
      NextTokenOnLine(lines, l.value);
      assert l.value.token.value == Remaining(l.value)[0];
      var c2 := NextToken(l.value);
      assert c2.token.Some? ==> c2.token.value == Remaining(c2)[0];
    }
  }

  /** Reading from the intended initial context, every failure reports the
      physical line it happened on, and the token it prints is on that line. */
  lemma ErrorLocated(lines: seq<string>)
    requires ReadMatrixText(lines).Err?
    ensures Located(lines, ReadMatrixText(lines).error)
  {
    var c0 := Cursor(0, 0, None, []);
    ReadLineLocated(lines, c0);
    var l := ReadLine(lines, c0);
    if l.Ok? {
      ReadRowsColsLocated(lines, l.value);
      var h := ReadRowsCols(l.value);
      if h.Ok? {
        var (rows, cols, c2) := h.value;
        ReadRowsLocated(lines, c2, rows, cols, []);
        var rr := ReadRows(lines, c2, rows, cols, []);
        if rr.Ok? {
          ReadFileEndLocated(lines, rr.value.1);
        }
      }
    }
  }

  // ---------------------------------------------------------------------
  // A failure is raised on the line it reports.

  /** a and b have the same first k lines. */
  predicate Agree(a: seq<string>, b: seq<string>, k: int)
  {
    0 <= k <= |a| && k <= |b| && forall i | 0 <= i < k :: a[i] == b[i]
  }

  /** read_line looks at no line past the one it stops on. */
  lemma {:induction false} ReadLineAgree(a: seq<string>, b: seq<string>, c: Cursor, k: nat)
    requires c.next <= k && Agree(a, b, k)
    requires ReadLine(a, c).Ok? && ReadLine(a, c).value.next <= k
    ensures ReadLine(b, c) == ReadLine(a, c)
    decreases k - c.next
  {
    assert a[c.next] == b[c.next];
    var c1 := StartLine(c.next + 1, c.line + 1, Tokens(a[c.next]));
    if c1.token.None? || IsComment(c1.token.value) {
      ReadLineAgree(a, b, c1, k);
    }
  }

  /** Without the line read_line stops on, it runs out of input there. */
  lemma {:induction false} ReadLineCut(a: seq<string>, b: seq<string>, c: Cursor, k: nat)
    requires c.next <= k && Agree(a, b, k) && |b| == k
    requires ReadLine(a, c).Ok? && ReadLine(a, c).value.next == k + 1
    ensures ReadLine(b, c).Err?
    decreases k - c.next
  {
    if c.next < k {
      assert a[c.next] == b[c.next];
      assert !Significant(a[c.next]);
      var c1 := StartLine(c.next + 1, c.line + 1, Tokens(a[c.next]));
      assert ReadLine(a, c) == ReadLine(a, c1);
      ReadLineCut(a, b, c1, k);
    }
  }

  /** A row loop that succeeds looks at no line past its last row. */
  lemma {:induction false} ReadRowsAgree(a: seq<string>, b: seq<string>, c: Cursor, rows: nat, cols: nat, acc: Mat, k: nat)
    requires c.next <= |a| && c.next <= k && Agree(a, b, k) && |acc| <= rows
    requires forall i | 0 <= i < |acc| :: |acc[i]| == cols
    requires ReadRows(a, c, rows, cols, acc).Ok? && ReadRows(a, c, rows, cols, acc).value.1.next <= k
    ensures ReadRows(b, c, rows, cols, acc) == ReadRows(a, c, rows, cols, acc)
    decreases rows - |acc|
  {
    if |acc| < rows {
      var c1 := ReadLine(a, c).value;
      var rf := RowFrom(c1, cols, []).value;
      assert ReadRows(a, c, rows, cols, acc) == ReadRows(a, rf.1, rows, cols, acc + [rf.0]);
      ReadLineAgree(a, b, c, k);
      ReadRowsAgree(a, b, rf.1, rows, cols, acc + [rf.0], k);
    }
  }

  /** A row failure other than running out of input is reported on a line
      after the cursor, and the cursor's line counts stay equal to the lines
      consumed. */
  lemma {:induction false} ReadRowsFailLine(a: seq<string>, c: Cursor, rows: nat, cols: nat, acc: Mat)
    requires c.next <= |a| && c.line == c.next && |acc| <= rows
    requires forall i | 0 <= i < |acc| :: |acc[i]| == cols
    requires ReadRows(a, c, rows, cols, acc).Err? && ReadRows(a, c, rows, cols, acc).error.reason != EndOfInput
    ensures c.next < ReadRows(a, c, rows, cols, acc).error.line <= |a|
    decreases rows - |acc|
  {
    var c1 := ReadLine(a, c).value;
    var rf := RowFrom(c1, cols, []);
    if rf.Ok? {
      ReadRowsFailLine(a, rf.value.1, rows, cols, acc + [rf.value.0]);
    }
  }

  /** The lines up to the reported one decide a row failure. */
  lemma {:induction false} ReadRowsFailKeep(a: seq<string>, b: seq<string>, c: Cursor, rows: nat, cols: nat, acc: Mat)
    requires c.next <= |a| && c.next <= |b| && c.line == c.next && |acc| <= rows
    requires forall i | 0 <= i < |acc| :: |acc[i]| == cols
    requires ReadRows(a, c, rows, cols, acc).Err? && ReadRows(a, c, rows, cols, acc).error.reason != EndOfInput
    requires Agree(a, b, ReadRows(a, c, rows, cols, acc).error.line)
    ensures ReadRows(b, c, rows, cols, acc) == ReadRows(a, c, rows, cols, acc)
    decreases rows - |acc|
  {
    var f := ReadRows(a, c, rows, cols, acc).error;
    var c1 := ReadLine(a, c).value;
    var rf := RowFrom(c1, cols, []);
    if rf.Ok? {
      ReadRowsFailLine(a, rf.value.1, rows, cols, acc + [rf.value.0]);
      ReadLineAgree(a, b, c, c1.next);
      ReadRowsFailKeep(a, b, rf.value.1, rows, cols, acc + [rf.value.0]);
    } else {
      ReadLineAgree(a, b, c, c1.next);
    }
  }

  /** Without the reported line, the row loop runs out of input on it. */
  lemma {:induction false} ReadRowsFailCut(a: seq<string>, b: seq<string>, c: Cursor, rows: nat, cols: nat, acc: Mat)
    requires c.next <= |a| && c.next <= |b| && c.line == c.next && |acc| <= rows
    requires forall i | 0 <= i < |acc| :: |acc[i]| == cols
    requires ReadRows(a, c, rows, cols, acc).Err? && ReadRows(a, c, rows, cols, acc).error.reason != EndOfInput
    requires Agree(a, b, |b|) && |b| == ReadRows(a, c, rows, cols, acc).error.line - 1
    ensures ReadRows(b, c, rows, cols, acc).Err? && ReadRows(b, c, rows, cols, acc).error.reason == EndOfInput
    ensures ReadRows(b, c, rows, cols, acc).error.line == ReadRows(a, c, rows, cols, acc).error.line
    decreases rows - |acc|
  {
    var c1 := ReadLine(a, c).value;
    var rf := RowFrom(c1, cols, []);
    if rf.Ok? {
      ReadRowsFailLine(a, rf.value.1, rows, cols, acc + [rf.value.0]);
      ReadLineAgree(a, b, c, c1.next);
      ReadRowsFailCut(a, b, rf.value.1, rows, cols, acc + [rf.value.0]);
    } else {
      ReadLineCut(a, b, c, |b|);
    }
  }

  /** The same three facts for read_file_end. */
  lemma ReadFileEndFail(a: seq<string>, b: seq<string>, c: Cursor)
    requires c.next <= |a| && c.line == c.next
    requires ReadFileEnd(a, c).Err? && ReadFileEnd(a, c).error.reason != EndOfInput
    ensures c.next < ReadFileEnd(a, c).error.line <= |a|
    ensures c.next <= |b| && Agree(a, b, ReadFileEnd(a, c).error.line) ==> ReadFileEnd(b, c) == ReadFileEnd(a, c)
    ensures c.next <= |b| && Agree(a, b, |b|) && |b| == ReadFileEnd(a, c).error.line - 1 ==>
      ReadFileEnd(b, c).Err? && ReadFileEnd(b, c).error.reason == EndOfInput
      && ReadFileEnd(b, c).error.line == ReadFileEnd(a, c).error.line
  {
    var c1 := ReadLine(a, c).value;
    if c.next <= |b| && Agree(a, b, ReadFileEnd(a, c).error.line) {
      ReadLineAgree(a, b, c, c1.next);
    }
    if c.next <= |b| && Agree(a, b, |b|) && |b| == ReadFileEnd(a, c).error.line - 1 {
      ReadLineCut(a, b, c, |b|);
    }
  }

  /** What read_matrix does once the header line is read. */
  lemma {:induction false} TailFail(a: seq<string>, b: seq<string>, c1: Cursor, k: nat)
    requires 1 <= c1.next <= |a| && c1.line == c1.next && Agree(a, b, k)
    requires ReadRowsCols(c1).Ok?
    ensures var (rows, cols, c2) := ReadRowsCols(c1).value; var rr := ReadRows(a, c2, rows, cols, []);
      && (rr.Err? && rr.error.reason != EndOfInput ==> c1.next < rr.error.line <= |a|)
      && (rr.Err? && rr.error.reason != EndOfInput && k == rr.error.line ==> ReadRows(b, c2, rows, cols, []) == rr)
      && (rr.Err? && rr.error.reason != EndOfInput && k == |b| == rr.error.line - 1 ==>
            ReadRows(b, c2, rows, cols, []).Err? && ReadRows(b, c2, rows, cols, []).error.reason == EndOfInput
            && ReadRows(b, c2, rows, cols, []).error.line == rr.error.line)
      && (rr.Ok? ==> rr.value.1.line == rr.value.1.next && c1.next <= rr.value.1.next)
      && (rr.Ok? && rr.value.1.next <= k ==> ReadRows(b, c2, rows, cols, []) == rr)
  {
    var (rows, cols, c2) := ReadRowsCols(c1).value;
    var rr := ReadRows(a, c2, rows, cols, []);
    ReadRowsLocated(a, c2, rows, cols, []);
    if rr.Err? && rr.error.reason != EndOfInput {
      ReadRowsFailLine(a, c2, rows, cols, []);
      if k == rr.error.line {
        ReadRowsFailKeep(a, b, c2, rows, cols, []);
      }
      if k == |b| == rr.error.line - 1 {
        ReadRowsFailCut(a, b, c2, rows, cols, []);
      }
    }
    if rr.Ok? && rr.value.1.next <= k {
      ReadRowsAgree(a, b, c2, rows, cols, [], k);
    }
  }

  /** Reading from the intended initial context, a failure other than running
      out of input is raised while reading the line it reports: the lines up
      to that line decide the failure whatever follows them, and without that
      line the reader runs out of input exactly there. */
  lemma ErrorOnReportedLine(lines: seq<string>, more: seq<string>)
    requires ReadMatrixText(lines).Err? && ReadMatrixText(lines).error.reason != EndOfInput
    ensures 1 <= ReadMatrixText(lines).error.line <= |lines|
    ensures ReadMatrixText(lines[..ReadMatrixText(lines).error.line] + more) == ReadMatrixText(lines)
    ensures var e := ReadMatrixText(lines[..ReadMatrixText(lines).error.line - 1]);
      e.Err? && e.error.reason == EndOfInput && e.error.line == ReadMatrixText(lines).error.line
  {
    ErrorLocated(lines);
    var L := ReadMatrixText(lines).error.line;
    PrefixAgrees(lines, L, more);
    PrefixAgrees(lines, L - 1, []);
    assert lines[..L - 1] + [] == lines[..L - 1];
    ErrorKeep(lines, lines[..L] + more);
    ErrorCut(lines, lines[..L - 1]);
  }

  lemma PrefixAgrees(lines: seq<string>, k: nat, more: seq<string>)
    requires k <= |lines|
    ensures Agree(lines, lines[..k] + more, k)
  {
  }

  /** A file that agrees with lines up to the reported line fails alike. */
  lemma ErrorKeep(lines: seq<string>, b: seq<string>)
    requires ReadMatrixText(lines).Err? && ReadMatrixText(lines).error.reason != EndOfInput
    requires Agree(lines, b, ReadMatrixText(lines).error.line)
    ensures ReadMatrixText(b) == ReadMatrixText(lines)
  {
    var f := ReadMatrixText(lines).error;
    var c0 := Cursor(0, 0, None, []);
    var c1 := ReadLine(lines, c0).value;
    var h := ReadRowsCols(c1);
    if h.Err? {
      ReadLineAgree(lines, b, c0, c1.next);
    } else {
      var (rows, cols, c2) := h.value;
      var rr := ReadRows(lines, c2, rows, cols, []);
      TailFail(lines, b, c1, f.line);
      if rr.Err? {
        assert f == rr.error && c1.next < f.line;
      } else {
        var c3 := rr.value.1;
        ReadFileEndFail(lines, b, c3);
        assert f == ReadFileEnd(lines, c3).error && c1.next <= c3.next < f.line;
      }
      ReadLineAgree(lines, b, c0, c1.next);
    }
  }

  /** A file made of the lines before the reported line runs out of input on it. */
  lemma ErrorCut(lines: seq<string>, b: seq<string>)
    requires ReadMatrixText(lines).Err? && ReadMatrixText(lines).error.reason != EndOfInput
    requires Agree(lines, b, |b|) && |b| == ReadMatrixText(lines).error.line - 1
    ensures ReadMatrixText(b).Err? && ReadMatrixText(b).error.reason == EndOfInput
    ensures ReadMatrixText(b).error.line == ReadMatrixText(lines).error.line
  {
    var f := ReadMatrixText(lines).error;
    var c0 := Cursor(0, 0, None, []);
    var c1 := ReadLine(lines, c0).value;
    var h := ReadRowsCols(c1);
    if h.Err? {
      ReadLineCut(lines, b, c0, |b|);
    } else {
      var (rows, cols, c2) := h.value;
      var rr := ReadRows(lines, c2, rows, cols, []);
      TailFail(lines, b, c1, |b|);
      if rr.Err? {
        assert f == rr.error && c1.next < f.line;
      } else {
        var c3 := rr.value.1;
        ReadFileEndFail(lines, b, c3);
        assert f == ReadFileEnd(lines, c3).error && c1.next <= c3.next < f.line;
      }
      ReadLineAgree(lines, b, c0, c1.next);
    }
  }

  // ---------------------------------------------------------------------
  // Which failure a malformed row is reported as.

  /** The first j tokens of ts are numbers to strtod. */
  predicate NumbersBefore(ts: seq<string>, j: nat)
    requires j <= |ts|
  {
    forall i | 0 <= i < j :: ParseReal(ts[i]).Some?
  }

  lemma NumbersShift(ts: seq<string>, j: nat)
    requires 1 <= j <= |ts|
    ensures NumbersBefore(ts, j) <==> ParseReal(ts[0]).Some? && NumbersBefore(ts[1..], j - 1)
  {
    if ParseReal(ts[0]).Some? && NumbersBefore(ts[1..], j - 1) {
      forall i | 1 <= i < j ensures ParseReal(ts[i]).Some? {
        assert ts[i] == ts[1..][i - 1];
      }
    }
  }

  /** Too few columns, with no token shown, exactly when the line runs out
      while every token on it is a number. */
  lemma {:induction false} RowFromShort(c: Cursor, cols: nat, acc: seq<real>)
    requires Coherent(c) && |acc| <= cols
    ensures var ts := Remaining(c);
      RowFrom(c, cols, acc) == Err(Failure(TooFewColumns, c.line, None))
      <==> |ts| < cols - |acc| && NumbersBefore(ts, |ts|)
    decreases cols - |acc|
  {
    var ts := Remaining(c);
    if |acc| < cols && c.token.Some? {
      EndIsNotNumber();
      assert ts[0] == c.token.value;
      NumbersShift(ts, |ts|);
      if c.token.value != "end" && ParseReal(c.token.value).Some? {
        RowFromShort(NextToken(c), cols, acc + [ParseReal(c.token.value).value]);
      }
    }
  }

  /** When token j is the first that is not a number and fewer than
      cols - |acc| elements come before it: too few rows if it is `end`,
      an invalid element otherwise. */
  lemma {:induction false} RowFromStop(c: Cursor, cols: nat, acc: seq<real>, j: nat)
    requires Coherent(c) && |acc| + j < cols
    requires j < |Remaining(c)| && NumbersBefore(Remaining(c), j)
    ensures var t := Remaining(c)[j];
      && (t == "end" ==> RowFrom(c, cols, acc) == Err(Failure(TooFewRows, c.line, Some("end"))))
      && (t != "end" && ParseReal(t).None? ==> RowFrom(c, cols, acc) == Err(Failure(BadElement, c.line, Some(t))))
    decreases j
  {
    var ts := Remaining(c);
    assert ts[0] == c.token.value;
    if j > 0 {
      EndIsNotNumber();
      NumbersShift(ts, j);
      var d := NextToken(c);
      assert Remaining(d) == ts[1..];
      RowFromStop(d, cols, acc + [ParseReal(c.token.value).value], j - 1);
    }
  }

  /** Unexpected characters when all elements are numbers and a token other
      than a comment follows them on the line. */
  lemma {:induction false} RowFromTrailing(c: Cursor, cols: nat, acc: seq<real>)
    requires Coherent(c) && |acc| <= cols
    requires cols - |acc| < |Remaining(c)| && NumbersBefore(Remaining(c), cols - |acc|)
    requires !IsComment(Remaining(c)[cols - |acc|])
    ensures RowFrom(c, cols, acc) == Err(Failure(TrailingCharacters, c.line, Some(Remaining(c)[cols - |acc|])))
    decreases cols - |acc|
  {
    var ts := Remaining(c);
    assert c.token.Some? && ts[0] == c.token.value;
    if |acc| < cols {
      var n := cols - |acc|;
      var d := NextToken(c);
      var x := ParseReal(c.token.value).value;
      assert Coherent(d) && Remaining(d) == ts[1..] && d.line == c.line;
      assert NumbersBefore(Remaining(d), n - 1) && Remaining(d)[n - 1] == ts[n] by {
        NumbersShift(ts, n);
      }
      RowFromTrailing(d, cols, acc + [x]);
      RowFromNumber(c, cols, acc);
    }
  }

  /** A number before the row is complete is taken and the loop goes on. */
  lemma RowFromNumber(c: Cursor, cols: nat, acc: seq<real>)
    requires |acc| < cols && c.token.Some? && ParseReal(c.token.value).Some?
    ensures RowFrom(c, cols, acc) == RowFrom(NextToken(c), cols, acc + [ParseReal(c.token.value).value])
  {
    EndIsNotNumber();
    assert GetDouble(c.token.value) == Ok(ParseReal(c.token.value).value);
  }

  /** The element loop, on the tokens ts still to come on its line and the
      n = cols - |acc| elements still wanted, reports:
      - too few columns, with no token, exactly when the line runs out while
        every token so far is a number;
      - too few rows when the first token that is not a number is `end`;
      - an invalid element when that token is anything else;
      - unexpected characters when all n elements are read and a token other
        than a comment follows them. */
  lemma RowFromReasons(c: Cursor, cols: nat, acc: seq<real>)
    requires Coherent(c) && |acc| <= cols
    ensures var ts := Remaining(c); var n := cols - |acc|; var r := RowFrom(c, cols, acc);
      && (r == Err(Failure(TooFewColumns, c.line, None)) <==> |ts| < n && NumbersBefore(ts, |ts|))
      && (forall j | 0 <= j < n && j < |ts| && NumbersBefore(ts, j) && ts[j] == "end" ::
            r == Err(Failure(TooFewRows, c.line, Some("end"))))
      && (forall j | 0 <= j < n && j < |ts| && NumbersBefore(ts, j) && ts[j] != "end" && ParseReal(ts[j]).None? ::
            r == Err(Failure(BadElement, c.line, Some(ts[j]))))
      && (n < |ts| && NumbersBefore(ts, n) && !IsComment(ts[n]) ==>
            r == Err(Failure(TrailingCharacters, c.line, Some(ts[n]))))
  {
    var ts := Remaining(c);
    RowFromShort(c, cols, acc);
    forall j | 0 <= j < cols - |acc| && j < |ts| && NumbersBefore(ts, j)
      ensures ts[j] == "end" ==> RowFrom(c, cols, acc) == Err(Failure(TooFewRows, c.line, Some("end")))
      ensures ts[j] != "end" && ParseReal(ts[j]).None? ==> RowFrom(c, cols, acc) == Err(Failure(BadElement, c.line, Some(ts[j])))
    {
      RowFromStop(c, cols, acc, j);
    }
    if cols - |acc| < |ts| && NumbersBefore(ts, cols - |acc|) && !IsComment(ts[cols - |acc|]) {
      RowFromTrailing(c, cols, acc);
    }
  }

  /** An `end` line met while rows are still expected is reported as too few
      rows, on the `end` token. */
  lemma ReadRowsEarlyEnd(lines: seq<string>, c: Cursor, rows: nat, cols: nat, acc: Mat)
    requires c.next <= |lines| && |acc| < rows && 1 <= cols
    requires forall i | 0 <= i < |acc| :: |acc[i]| == cols
    requires SigFrom(lines, c.next) != [] && SigFrom(lines, c.next)[0] != [] && SigFrom(lines, c.next)[0][0] == "end"
    ensures ReadRows(lines, c, rows, cols, acc).Err?
    ensures ReadRows(lines, c, rows, cols, acc).error.reason == TooFewRows
    ensures ReadRows(lines, c, rows, cols, acc).error.token == Some("end")
  {
    ReadLineSig(lines, c);
    var c1 := ReadLine(lines, c).value;
    assert c1.token.value == Remaining(c1)[0];
  }

  /** The row loop fails only by running out of input or with one of the
      four row failures. */
  lemma {:induction false} ReadRowsReasons(lines: seq<string>, c: Cursor, rows: nat, cols: nat, acc: Mat)
    requires c.next <= |lines| && |acc| <= rows
    requires forall i | 0 <= i < |acc| :: |acc[i]| == cols
    ensures var r := ReadRows(lines, c, rows, cols, acc);
      r.Err? ==> r.error.reason in {EndOfInput, TooFewColumns, TooFewRows, BadElement, TrailingCharacters}
    decreases rows - |acc|
  {
    if |acc| < rows {
      var l := ReadLine(lines, c);
      if l.Ok? {
        var rf := RowFrom(l.value, cols, []);
        RowFromFails(l.value, cols, []);
        if rf.Ok? {
          ReadRowsReasons(lines, rf.value.1, rows, cols, acc + [rf.value.0]);
        }
      }
    }
  }

  lemma {:induction false} RowFromFails(c: Cursor, cols: nat, acc: seq<real>)
    requires |acc| <= cols
    ensures var r := RowFrom(c, cols, acc);
      r.Err? ==> r.error.reason in {TooFewColumns, TooFewRows, BadElement, TrailingCharacters}
    decreases cols - |acc|
  {
    if |acc| < cols && c.token.Some? && c.token.value != "end" && ParseReal(c.token.value).Some? {
      RowFromFails(NextToken(c), cols, acc + [ParseReal(c.token.value).value]);
    }
  }

  /** A significant line written as the words ws is read whole. */
  lemma {:induction false} LineOfWords(lines: seq<string>, c: Cursor, ws: seq<string>)
    requires c.next < |lines| && lines[c.next] == JoinWords(ws)
    requires ws != [] && !IsComment(ws[0])
    requires forall k | 0 <= k < |ws| :: ws[k] != [] && NoSeparator(ws[k])
    ensures ReadLine(lines, c) == Ok(Cursor(c.next + 1, c.line + 1, Some(ws[0]), ws[1..]))
  {
    assert Tokens(lines[c.next]) == ws by {
      TokensOfJoin(ws);
    }
    var c1 := StartLine(c.next + 1, c.line + 1, ws);
    assert c1 == Cursor(c.next + 1, c.line + 1, Some(ws[0]), ws[1..]);
    assert c1.token.Some? && !IsComment(c1.token.value);
  }

  lemma SmallNumbers()
    ensures GetInt(Some("2")) == Ok(2)
    ensures ParseReal("1") == Some(1.0) && ParseReal("2") == Some(2.0) && ParseReal("3") == Some(3.0)
  {
    assert GetInt(Some("2")) == Ok(2) by {
      assert SkipSpace("2") == "2";
      assert DigitsValue("2") == 2 by {
        assert "2"[..0] == [];
      }
    }
    SingleDigit('1');
    SingleDigit('2');
    SingleDigit('3');
  }

  /** A one-digit token is the number it names. */
  lemma SingleDigit(ch: char)
    requires IsDigit(ch)
    ensures ParseReal([ch]) == Some(DigitValue(ch) as real)
  {
    var t := [ch];
    assert SkipSpace(t) == t && SplitSign(t) == (false, t);
    assert DigitRun(t) == 1 by {
      assert t[1..] == [];
    }
    assert t[..1] == t && t[1..] == [];
    assert DigitsValue(t) == DigitValue(ch) by {
      assert t[..0] == [];
    }
  }

  /** The file `matrix 2 2`, `1 2`, `3`, `end`. */
  function ShortRowFile(): seq<string>
  {
    [JoinWords(["matrix", "2", "2"]), JoinWords(["1", "2"]), JoinWords(["3"]), JoinWords(["end"])]
  }

  lemma ShortRowHeader()
    ensures ReadLine(ShortRowFile(), Cursor(0, 0, None, [])) == Ok(Cursor(1, 1, Some("matrix"), ["2", "2"]))
    ensures ReadRowsCols(Cursor(1, 1, Some("matrix"), ["2", "2"])) == Ok((2, 2, Cursor(1, 1, None, [])))
  {
    LineOfWords(ShortRowFile(), Cursor(0, 0, None, []), ["matrix", "2", "2"]);
    SmallNumbers();
  }

  lemma ShortRowFirst()
    ensures ReadLine(ShortRowFile(), Cursor(1, 1, None, [])) == Ok(Cursor(2, 2, Some("1"), ["2"]))
    ensures RowFrom(Cursor(2, 2, Some("1"), ["2"]), 2, []) == Ok(([1.0, 2.0], Cursor(2, 2, None, [])))
  {
    LineOfWords(ShortRowFile(), Cursor(1, 1, None, []), ["1", "2"]);
    RowOfTwo();
  }

  lemma RowOfTwo()
    ensures RowFrom(Cursor(2, 2, Some("1"), ["2"]), 2, []) == Ok(([1.0, 2.0], Cursor(2, 2, None, [])))
  {
    var c0 := Cursor(2, 2, Some("1"), ["2"]);
    var c1 := Cursor(2, 2, Some("2"), []);
    var c2 := Cursor(2, 2, None, []);
    var r := Ok(([1.0, 2.0], c2));
    OneAndTwo();
    assert RowFrom(c1, 2, [1.0]) == r by {
      assert NextToken(c1) == c2;
      assert [1.0] + [2.0] == [1.0, 2.0];
      assert RowFrom(c2, 2, [1.0, 2.0]) == r;
    }
    assert NextToken(c0) == c1;
    assert [] + [1.0] == [1.0];
  }

  lemma OneAndTwo()
    ensures GetDouble("1") == Ok(1.0) && GetDouble("2") == Ok(2.0)
  {
    SmallNumbers();
  }

  lemma ShortRowSecond()
    ensures ReadLine(ShortRowFile(), Cursor(2, 2, None, [])) == Ok(Cursor(3, 3, Some("3"), []))
    ensures RowFrom(Cursor(3, 3, Some("3"), []), 2, []) == Err(Failure(TooFewColumns, 3, None))
  {
    LineOfWords(ShortRowFile(), Cursor(2, 2, None, []), ["3"]);
    SmallNumbers();
  }

  /** A file stating two columns whose second row holds one number is
      refused with too few columns on line 3, with no token to show. */
  lemma ShortRowExample()
    ensures ReadMatrixText(ShortRowFile()) == Err(Failure(TooFewColumns, 3, None))
  {
    ShortRowHeader();
    ShortRowFirst();
    ShortRowSecond();
  }

  // ---------------------------------------------------------------------
  // Two defects of read_matrix as written.

  lemma {:induction false} HeaderLineRead(ws: seq<string>, s: int)
    requires ws == ["matrix", "0", "1"] || ws == ["matrix", "3"]
    ensures ReadLine([JoinWords(ws)], Cursor(0, s, None, [])) == Ok(Cursor(1, s + 1, Some("matrix"), ws[1..]))
  {
    assert forall k | 0 <= k < |ws| :: ws[k] != [] && NoSeparator(ws[k]);
    LineOfWords([JoinWords(ws)], Cursor(0, s, None, []), ws);
  }

  lemma SmallDimensions()
    ensures GetInt(Some("0")) == Err(BadDimension)
    ensures GetInt(Some("3")) == Ok(3)
  {
    assert SkipSpace("0") == "0";
    assert DigitsValue("0") == 0 by {
      assert "0"[..0] == [];
    }
    assert SkipSpace("3") == "3";
    assert DigitsValue("3") == 3 by {
      assert "3"[..0] == [];
    }
  }

  /** read_matrix never sets the context's line number (nor its token) before
      read_line increments it, so the line it reports is shifted by whatever
      value the stack held. Here the first line's bad dimension is reported
      on line s + 1. */
  lemma LineNumberAsWritten(s: int)
    ensures ReadMatrixFrom([JoinWords(["matrix", "0", "1"])], Cursor(0, s, None, []))
      == Err(Failure(BadDimension, s + 1, Some("0")))
  {
    HeaderLineRead(["matrix", "0", "1"], s);
    SmallDimensions();
  }

  /** Starting from line 0, the same file is reported on its first line. */
  lemma LineNumberFromZero()
    ensures ReadMatrixText([JoinWords(["matrix", "0", "1"])]) == Err(Failure(BadDimension, 1, Some("0")))
  {
    LineNumberAsWritten(0);
  }

  /** read_rows_cols hands get_int whatever strtok returned; on the header
      `matrix 3` the column token is the null pointer, which strtol may not
      be given. */
  lemma MissingColumnsAsWritten()
    ensures var lines := [JoinWords(["matrix", "3"])];
      var c1 := ReadLine(lines, Cursor(0, 0, None, []));
      c1.Ok? && GetInt(NextToken(c1.value).token) == Ok(3)
      && GetIntAsWritten(NextToken(NextToken(c1.value)).token).None?
  {
    HeaderLineRead(["matrix", "3"], 0);
    SmallDimensions();
  }

  /** With the missing token taken as an invalid dimension, the same header
      is refused with "Stated rows or columns are invalid." on line 1. */
  lemma MissingColumnsRefused()
    ensures ReadMatrixText([JoinWords(["matrix", "3"])]) == Err(Failure(BadDimension, 1, None))
  {
    HeaderLineRead(["matrix", "3"], 0);
    SmallDimensions();
  }
}
