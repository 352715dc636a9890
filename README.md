# matrix_calc in Dafny

`matrix_calc` is a command-line matrix calculator written in C (`main.c`). It
reads matrices from text files and computes the transpose, the product of two
matrices, the determinant, the adjoint and the inverse. This project models
its core and proves properties of it:

- **the matrix record** (`Matrices`): the row-major `Matrix` structure. It is a
  class whose constant `values` array holds element (i, j) at index
  `i*cols + j`. `Cells()` reads the buffer back as a sequence of rows.
- **the file format and reader specification** (`Text`, `MatrixFile`).
  `Text` models `strtok` over the separators space, tab, `\r` and `\n`. It
  also models `strtol` and the decimal forms of `strtod`, each with the
  program's rule that the whole token must be consumed.
  `MatrixFile` holds one pure function per reader routine. A `Cursor` carries
  the state those routines share: lines consumed, line number, current token,
  and the tokens strtok still holds. A `Failure` carries what the program
  reports when it rejects a file: its message, line number and token.
  `MatrixFile` also states the format on its own terms (`WellFormed`), and
  `ReadMatrixIff` proves that the reader accepts exactly the well-formed
  files and returns the matrix they hold.
- **the reader** (`Reader`): the program's `Context` as a class.
  `ReadLine` recurses as the C function does. `ReadArray` and `ReadRow` fill
  the matrix buffer in place. Each method is proved to behave as the
  matching `MatrixFile` function.
- **the algebra** (`Algebra`): pure definitions over exact reals. They cover
  the transpose, product, determinant, minors, cofactors, adjoint, inverse,
  and the operand order the product operation picks. Properties are proved
  about them: the transpose is an involution, and (AB)ᵀ = BᵀAᵀ. The
  program's determinant equals the textbook Laplace expansion.
  `Mul(m, Adjoint(m))[0][0]` equals `Det(m)`. The inverse fails exactly when
  the determinant is zero.
- **the engine** (`Engine`): the builders. They allocate result matrices and
  fill them with nested loops, as the C functions do. Each is proved to
  produce the `Algebra` function of its input.

The file is given to the model as its sequence of lines. `None` stands for a
file that cannot be opened. Matrix elements are exact reals.

## Model

| member | source | states |
|---|---|---|
| `Matrices.Matrix.constructor` | main.c:116-133 | create_matrix: a fresh buffer of rows*cols elements, with the given dimensions recorded |
| `Algebra.Transpose` | main.c:328-340 | the transpose of an r-by-c matrix is c-by-r and rectangular |
| `Algebra.TransposeInvolution` | main.c:328-340 | transposing twice gives back the original matrix |
| `Algebra.Mul` | main.c:343-360 | the product of an r-by-n and an n-by-c matrix is r-by-c |
| `Algebra.TransposeOfProduct` | main.c:328-360 | the transpose of a*b is transpose(b)*transpose(a) |
| `Algebra.ChooseOrder` | main.c:580-604 | product() gives up iff neither a.cols == b.rows nor b.cols == a.rows; it swaps iff only b*a is conformable; otherwise a*b is conformable |
| `Algebra.Minor` | main.c:370-388 | the minor of an n-by-n matrix (n >= 2) is square of size n-1 |
| `Algebra.MinorAt` | main.c:377-388 | an element outside the deleted row and column lands at its shifted position in the minor |
| `Algebra.Det` | main.c:363-408 | the determinant of a square matrix with a row of zeros is 0 |
| `Algebra.DetIsLaplace` | main.c:363-408 | the determinant as the program computes it (1x1 element, 2x2 shortcut, row-0 expansion) equals the textbook Laplace determinant |
| `Algebra.Cofactor` | main.c:436 | the (i, j) cofactor, pow(-1, i+j) times the determinant of the (i, j) minor, is 0 whenever a row other than row i is all zeros |
| `Algebra.CofactorMatrix` | main.c:411-444 | the cofactor matrix of an n-by-n matrix is n-by-n |
| `Algebra.TwoByTwoCofactors` | main.c:411-444 | the cofactors of a 2x2 matrix are d, -c, -b, a |
| `Algebra.Adjoint` | main.c:447-462 | the adjoint of an n-by-n matrix is n-by-n |
| `Algebra.AdjointAt` | main.c:447-462 | adjoint entry [i][j] is the cofactor of element (j, i) |
| `Algebra.AdjointCorner` | main.c:447-462 | entry [0][0] of m times its adjoint is det(m) |
| `Algebra.Scaled` | main.c:478-483 | dividing every element by d keeps the shape |
| `Algebra.Inverse` | main.c:465-488 | the inverse fails, with Singular, exactly when the determinant is 0; otherwise it has m's shape |
| `Algebra.InverseCorner` | main.c:465-488 | for a nonsingular m, entry [0][0] of m times its inverse is 1 |
| `Algebra.DeterminantExamples` | main.c:399-408 | det [[5]] = 5 and det [[1,2],[3,4]] = -2 |
| `Algebra.ThreeByThreeExample` | main.c:363-396 | the 3x3 expansion gives det [[2,0,1],[1,3,2],[1,1,1]] = 0 |
| `Algebra.SingularExample` | main.c:468-472 | [[1,2],[2,4]] has no inverse |
| `Algebra.SwappedProductExample` | main.c:580-604 | a 3x1 A with a 2x3 B is multiplied as B*A, and the product is computed |
| `Engine.GetTranspose` | main.c:328-340 | get_transpose returns a cols-by-rows matrix holding the transpose |
| `Engine.AccumulateEntry` | main.c:350-352 | the innermost product loop adds row k of a dotted with column i of b to the running sum |
| `Engine.GetProduct` | main.c:343-360 | get_product returns a.rows-by-b.cols holding a*b, with the sum reset between entries |
| `Engine.CopyMinorRow` | main.c:424-433 | copying one source row into the minor buffer extends the filled prefix of the minor by a row (no row for the deleted row) |
| `Engine.FillMinor` | main.c:375-388 | the k-indexed copy loop leaves exactly the minor deleting row r and column c in the buffer, after writing (n-1)^2 elements |
| `Engine.FindDet` | main.c:363-396 | find_det on an n-by-n matrix, n >= 2, returns Det |
| `Engine.GetDeterminant` | main.c:399-408 | get_determinant returns Det for every square matrix, including 1x1 |
| `Engine.FindCofactor` | main.c:411-444 | find_cofactor returns the cofactor matrix |
| `Engine.GetAdjoint` | main.c:447-462 | get_adjoint returns [1] for a 1x1 matrix, otherwise transpose(cofactor matrix) |
| `Engine.DivideByDeterminant` | main.c:478-483 | the division loop yields every adjoint element divided by det |
| `Engine.GetInverse` | main.c:465-488 | get_inverse fails exactly when Inverse reports Singular (det == 0), and otherwise returns Inverse |
| `Engine.Product` | main.c:580-604 | product() fails iff the orientation is a mismatch; it swaps iff only b*a is conformable; the result is a*b or b*a accordingly |
| `Text.Tokens` | main.c:153-166 | strtok's tokens are non-empty and contain no separator |
| `Text.TokensOfJoin` | main.c:153-166 | tokenising words written with separating spaces gives back the words |
| `Text.ParseLong` | main.c:172 | strtol reads a number only from a token that holds a digit |
| `Text.ParseLongOfDecimal` | main.c:169-185 | strtol reads every decimal numeral, with or without a sign, as its value |
| `Text.ParseLongIsReal` | main.c:169-200 | a token strtol reads completely is read by strtod as the same number |
| `Text.ParseReal` | main.c:191 | strtod reads a number only from a token that holds a digit |
| `Text.DecimalExample` | main.c:188-200 | "2.5" is the element 2.5 |
| `Text.NegativeExample` | main.c:188-200 | "-3" is the element -3 |
| `Text.ExponentExample` | main.c:188-200 | "1e2" is the element 100 |
| `Text.EndIsNotNumber` | main.c:188-200 | "end" is not an element |
| `Text.RejectedExamples` | main.c:188-200 | "1e" and "4x" are not elements: strtod stops before their end |
| `MatrixFile.ReadLine` | main.c:142-159 | read_line counts one line per physical line, skipped ones included. It skips exactly the blank and comment lines, and its token is the first one of the line it stops on. At the end of input it fails with line number old + remaining lines + 1 |
| `MatrixFile.ReadLineSig` | main.c:142-159 | read_line succeeds iff a significant line remains; it then yields that line's tokens and leaves the rest |
| `MatrixFile.NextToken` | main.c:162-166 | get_new_token yields the line's tokens one by one and stays on the same line |
| `MatrixFile.GetInt` | main.c:169-185 | an accepted dimension lies in [1, 2000]; every failure is the "invalid" or the "too big" one |
| `MatrixFile.DimensionAccepted` | main.c:169-185 | a dimension is accepted as n iff the whole token is the integer n and 1 <= n <= 2000; "too big" iff the whole token is an integer above 2000 |
| `MatrixFile.DimensionRoundTrip` | main.c:169-185 | every dimension from 1 to 2000 written in decimal is read back |
| `MatrixFile.GetIntAsWritten` | main.c:209-213 | get_int as called: a missing dimension token is a null pointer handed to strtol |
| `MatrixFile.GetDouble` | main.c:188-200 | get_double's only failure is the invalid element; an element it accepts holds a digit and is the number strtod reads from the whole token |
| `MatrixFile.ReadRowsCols` | main.c:203-220 | read_rows_cols accepts dimensions in [1, 2000], stays on the header line, and reports failures on it |
| `MatrixFile.ReadRowsColsIff` | main.c:203-220 | read_rows_cols yields (R, C) iff the line is `matrix R C` with an optional trailing comment |
| `MatrixFile.RowFrom` | main.c:226-247 | the element loop yields exactly cols elements, keeping those already read, and stays on the line |
| `MatrixFile.RowFromIff` | main.c:226-247 | the element loop yields row iff the line holds row's elements and then nothing but an optional comment |
| `MatrixFile.RowFromShort` | main.c:228-233 | the element loop reports too few columns, with no token, iff the line runs out while every token on it is a number |
| `MatrixFile.RowFromStop` | main.c:234-240 | at the first token that is not a number, before the row is complete, the loop reports too few rows if it is `end` and an invalid element otherwise, showing that token |
| `MatrixFile.RowFromTrailing` | main.c:244-248 | once all elements are numbers, a following token other than a comment is reported as unexpected characters, showing that token |
| `MatrixFile.RowFromReasons` | main.c:226-247 | the four reports of the element loop together, each stated on the tokens of the line |
| `MatrixFile.ReadRows` | main.c:223-250 | read_array yields rows rows of cols elements |
| `MatrixFile.ReadRowsIff` | main.c:223-250 | read_array yields m iff the next significant lines are m's rows |
| `MatrixFile.ReadRowsRest` | main.c:223-250 | after read_array the next significant line is the one after the last row |
| `MatrixFile.ReadRowsEarlyEnd` | main.c:224-238 | when a row is still wanted and the next significant line starts with `end`, read_array reports too few rows, showing `end` |
| `MatrixFile.ReadRowsReasons` | main.c:223-250 | read_array fails only by running out of input, or with too few columns, too few rows, an invalid element or unexpected characters |
| `MatrixFile.ShortRowExample` | main.c:223-250 | the file `matrix 2 2`, `1 2`, `3`, `end` is refused with too few columns on line 3, with no token |
| `MatrixFile.ReadFileEnd` | main.c:253-267 | read_file_end leaves nothing but a comment on the `end` line |
| `MatrixFile.ReadFileEndIff` | main.c:253-267 | read_file_end succeeds iff the next significant line is `end` with an optional comment |
| `MatrixFile.ReadMatrixFrom` | main.c:270-300 | a matrix read has 1 to 2000 rows, 1 to 2000 columns, and every row the same length |
| `MatrixFile.ReadMatrixText` | main.c:284-300 | read_matrix with the line count starting at 0: a matrix read has 1 to 2000 rows and columns and is rectangular |
| `MatrixFile.ReadMatrixTail` | main.c:288-296 | after the header, rows and `end` succeed with m iff the following significant lines are m's rows and then `end` |
| `MatrixFile.ReadMatrixIff` | main.c:270-300 | read_matrix returns m iff the file is well formed and holds m |
| `MatrixFile.CommentTolerance` | main.c:142-159 | a file reads as m iff the same file without its blank and comment lines does |
| `MatrixFile.TrailingLinesIgnored` | main.c:253-267 | lines after the `end` line do not change the matrix read |
| `MatrixFile.ErrorLocated` | main.c:106-113 | every failure other than running out of input reports a significant line of the file, and the token it prints is on that line; running out of input reports one past the last line |
| `MatrixFile.ErrorOnReportedLine` | main.c:106-113 | a failure other than running out of input is raised on the line it reports: the lines up to it give the same failure whatever follows, and without that line the reader runs out of input on it |
| `MatrixFile.Message` | main.c:142-267 | the message printed is empty exactly for running out of input and for a first line that is not a `matrix` header |
| `MatrixFile.LineNumberAsWritten` | main.c:280-286 | with the uninitialised start value s, a bad dimension on line 1 is reported on line s + 1 |
| `MatrixFile.LineNumberFromZero` | main.c:280-286 | starting from 0, the same failure is reported on line 1 |
| `MatrixFile.MissingColumnsAsWritten` | main.c:209-213 | on the header `matrix 3` the rows are read but get_int is handed strtok's null pointer |
| `MatrixFile.MissingColumnsRefused` | main.c:209-213 | with a missing dimension taken as invalid, `matrix 3` is refused as "Stated rows or columns are invalid." on line 1 |
| `Reader.Context.constructor` | main.c:284-286 | the context starts with no line read, line count 0 and no token; the zero start is the correction of the first finding below |
| `Reader.Context.ReadLine` | main.c:142-159 | the recursive read_line behaves as MatrixFile.ReadLine: same failure, or same new context and the first token of that line |
| `Reader.Context.GetNewToken` | main.c:162-166 | the new context is MatrixFile.NextToken of the old one, and the token returned is the current one |
| `Reader.Context.ReadRowsCols` | main.c:203-220 | behaves as MatrixFile.ReadRowsCols: same failure, or same dimensions and context |
| `Reader.Context.ReadRow` | main.c:226-247 | the element loop behaves as MatrixFile.RowFrom. It stores element j of row i at i*cols + j and leaves every other row of the buffer unchanged |
| `Reader.Context.ReadArray` | main.c:223-250 | read_array behaves as MatrixFile.ReadRows: same failure, or a buffer holding exactly the rows read |
| `Reader.Context.ReadFileEnd` | main.c:253-267 | behaves as MatrixFile.ReadFileEnd |
| `Reader.ReadMatrix` | main.c:270-300 | read_matrix fails to open iff the file is absent. Otherwise it fails exactly as ReadMatrixText does, or it returns a matrix holding what ReadMatrixText reads, which by ReadMatrixIff is the matrix of a well-formed file |

## Left out

- Command-line handling, `main`, `help` and choosing the output file. These are the program's shell, not its core.
- Printing results: `output_matrix`, `file_print_matrix` and `print_matrix`, together with the messages printed on errors and the notice that the product operands were swapped. `Product` returns a `swapped` flag instead of printing.
- `get_frob_norm` (main.c:313-325). It is built on `pow` and a floating-point square root, which exact reals do not model.
- Floating-point arithmetic. Elements are exact reals, so rounding in products, in the determinant and in division is not modelled. In particular `det == 0` is an exact test, and strtod overflow to infinity is not modelled.
- `Text.ParseReal` accepts only the decimal forms of strtod. The program's strtod also accepts `inf`, `nan` and hexadecimal floating constants; the model refuses those tokens.
- `Text.ParseLong` uses unbounded integers. strtol saturates at LONG_MAX and LONG_MIN, but such values fall into the same outcome here: above 2000 is "too big" and below 1 is "invalid". The `(int)` cast in get_int only ever sees values from 1 to 2000.
- `fgets` reads at most MAX_LINE_LENGTH - 1 (39999) characters at a time, so a longer line is read in pieces. The model reads each line whole.
- How the file is split into lines. The model takes the lines as given, so whether a final newline yields an extra empty line is decided by whoever supplies them; that choice fixes the line number reported on running out of input.
- Embedded NUL characters. Lines are `seq<char>` and a NUL is an ordinary character; in the program a NUL ends the C string seen by strtok, strtol, strtod and strcmp.
- The `Processing file...` notice read_matrix prints (main.c:281).
- Allocation failure (`exit_malloc_failed`) and `free_matrix`. Dafny allocation does not fail, and memory is not managed.
- The file name and `fclose`. A rejection is returned as a `Failure` carrying the reason, the line number and the token, rather than printed before `exit`. `MatrixFile.Message` keeps the message text of each reason.
- Lines after `end` are never read: read_matrix stops once read_file_end has checked the `end` line. A file with further significant lines after `end` is therefore accepted. The model follows the code (`MatrixFile.TrailingLinesIgnored`), although the format's description asks for `end` to be the last significant line.
- The squareness checks in `determinant()`, `adjoint()` and `inverse()` (main.c:607-660) are preconditions of the engine methods, as are the conformability conditions `product()` checks before calling `get_product`.
- find_det copies rows 1 to n-1, skipping column top_row, into its sub-matrix. It is modelled by the shared `Engine.FillMinor` with row 0 deleted. That routine visits the same elements in the same order and performs the same writes.
- `Algebra.InverseCorner` proves only entry [0][0] of m times its inverse equal to 1, not the whole identity matrix. Together with `Algebra.Inverse` and `Engine.GetInverse`, it shows the inverse is adjoint/det for the program's determinant.

## Findings

| source | as written | input that shows it | evidently intended | confidence | as-written member | corrected member |
|---|---|---|---|---|---|---|
| main.c:280-286 | read_matrix declares `Context file_context` and sets only `file` and `file_name`. `line_number` is then incremented from an indeterminate value, and `token` is printed uninitialised when the file is empty | a file whose first line is `matrix 0 1`: reported on line s + 1, where s is whatever the stack held | the line count starts at 0 and the token at NULL, so the first line is reported as line 1 | not executed | `MatrixFile.LineNumberAsWritten` | `MatrixFile.ErrorLocated` |
| main.c:209-213 | read_rows_cols passes strtok's result straight to get_int, which calls strtol on it; strtok returns NULL when the header has fewer than two dimensions | a file whose first line is `matrix 3` | a missing dimension is refused as "Stated rows or columns are invalid." | not executed | `MatrixFile.MissingColumnsAsWritten` | `MatrixFile.MissingColumnsRefused` |
