/** The C library text routines the matrix reader relies on: `strtok` with the
    separators " \t\r\n", `strtol` in base 10 and the decimal forms of `strtod`,
    each taken together with the reader's "the whole token must be consumed"
    test (`*end_ptr == '\0'`). */
module Text {
  import opened Outcomes

  /** TOKEN_SEPARATORS: space, tab, carriage return and newline. */
  predicate IsSeparator(ch: char)
  {
    ch == ' ' || ch == '\t' || ch == '\r' || ch == '\n'
  }

  predicate NoSeparator(t: string)
  {
    forall i | 0 <= i < |t| :: !IsSeparator(t[i])
  }

  /** A token opens a comment when its first character is '#'. */
  predicate IsComment(t: string)
  {
    |t| > 0 && t[0] == '#'
  }

  /** Length of the token that starts at the front of `s`. */
  function WordLength(s: string): (n: nat)
    requires s != [] && !IsSeparator(s[0])
    ensures 1 <= n <= |s| && NoSeparator(s[..n])
    ensures n < |s| ==> IsSeparator(s[n])
    decreases |s|
  {
    if |s| == 1 || IsSeparator(s[1]) then 1
    else
      var n := 1 + WordLength(s[1..]);
      assert s[..n] == [s[0]] + s[1..][..n - 1];
      n
  }

  /** The tokens successive `strtok` calls return for a line: the maximal runs
      of non-separator characters, in order. */
  function Tokens(s: string): (ts: seq<string>)
    ensures forall k | 0 <= k < |ts| :: ts[k] != [] && NoSeparator(ts[k])
    decreases |s|
  {
    if s == [] then []
    else if IsSeparator(s[0]) then Tokens(s[1..])
    else
      var n := WordLength(s);
      [s[..n]] + Tokens(s[n..])
  }

  /** The line that writes each word followed by one space. */
  function JoinWords(ws: seq<string>): string
  {
    if ws == [] then "" else ws[0] + " " + JoinWords(ws[1..])
  }

  lemma {:induction false} WordLengthOf(w: string, tail: string)
    requires w != [] && NoSeparator(w) && tail != [] && IsSeparator(tail[0])
    ensures WordLength(w + tail) == |w|
    decreases |w|
  {
    var s := w + tail;
    if |w| == 1 {
      assert IsSeparator(s[1]);
    } else {
      assert s[1..] == w[1..] + tail;
      WordLengthOf(w[1..], tail);
    }
  }

  /** Splitting a line of words written with separating spaces gives the
      words back. */
  lemma {:induction false} TokensOfJoin(ws: seq<string>)
    requires forall k | 0 <= k < |ws| :: ws[k] != [] && NoSeparator(ws[k])
    ensures Tokens(JoinWords(ws)) == ws
  {
    if ws != [] {
      var w := ws[0];
      var rest := JoinWords(ws[1..]);
      var s := w + " " + rest;
      assert s == w + (" " + rest);
      WordLengthOf(w, " " + rest);
      assert s[..|w|] == w;
      assert s[|w|..] == " " + rest;
      assert Tokens(" " + rest) == Tokens(rest) by {
        assert (" " + rest)[1..] == rest;
      }
      TokensOfJoin(ws[1..]);
    }
  }

  /** The characters C's isspace accepts, which strtol and strtod skip at the
      front of their input: space, \t, \n, \v, \f and \r. */
  predicate IsSpace(ch: char)
  {
    ch == ' ' || ch == '\t' || ch == '\n' || ch == '\r' || ch as int == 11 || ch as int == 12
  }

  function SkipSpace(s: string): string
    decreases |s|
  {
    if s != [] && IsSpace(s[0]) then SkipSpace(s[1..]) else s
  }

  /** An optional '+' or '-' at the front: whether the number is negated, and
      what follows the sign. */
  function SplitSign(s: string): (bool, string)
  {
    if s != [] && s[0] == '-' then (true, s[1..])
    else if s != [] && s[0] == '+' then (false, s[1..])
    else (false, s)
  }

  predicate IsDigit(ch: char)
  {
    '0' <= ch <= '9'
  }

  predicate AllDigits(d: string)
  {
    forall i | 0 <= i < |d| :: IsDigit(d[i])
  }

  function DigitValue(ch: char): nat
    requires IsDigit(ch)
  {
    ch as int - '0' as int
  }

  function DigitChar(v: nat): (ch: char)
    requires v < 10
    ensures IsDigit(ch) && DigitValue(ch) == v
  {
    ('0' as int + v) as char
  }

  /** The value of a string of decimal digits, most significant first. */
  function DigitsValue(d: string): nat
    requires AllDigits(d)
    decreases |d|
  {
    if d == [] then 0 else DigitsValue(d[..|d| - 1]) * 10 + DigitValue(d[|d| - 1])
  }

  /** A sign followed by at least one digit and nothing else. */
  function ParseSigned(s: string): Option<int>
  {
    var (negative, d) := SplitSign(s);
    if d != [] && AllDigits(d) then
      Some(if negative then -(DigitsValue(d) as int) else DigitsValue(d))
    else None
  }

  /** Some character of t is a decimal digit. */
  predicate HasDigit(t: string)
  {
    exists k | 0 <= k < |t| :: IsDigit(t[k])
  }

  /** What strtol and strtod read after the white space and the sign is the
      end of the token; a digit there is a digit of the token. */
  lemma NumberHasDigit(t: string, b: string, k: nat)
    requires b == SplitSign(SkipSpace(t)).1 && k < |b| && IsDigit(b[k])
    ensures HasDigit(t)
  {
    SkipSpaceSuffix(t);
    var s := SkipSpace(t);
    SplitSignSuffix(s);
    var i := |s| - |b| + k;
    assert s[i] == b[k];
    assert t[|t| - |s| + i] == s[i];
  }

  lemma SplitSignSuffix(s: string)
    ensures |SplitSign(s).1| <= |s| && SplitSign(s).1 == s[|s| - |SplitSign(s).1|..]
  {
    if s != [] && (s[0] == '-' || s[0] == '+') {
      assert SplitSign(s).1 == s[1..];
    } else {
      assert SplitSign(s).1 == s == s[0..];
    }
  }

  lemma {:induction false} SkipSpaceSuffix(s: string)
    ensures |SkipSpace(s)| <= |s| && SkipSpace(s) == s[|s| - |SkipSpace(s)|..]
    decreases |s|
  {
    if s != [] && IsSpace(s[0]) {
      SkipSpaceSuffix(s[1..]);
    }
  }

  /** strtol(token, &end, 10) with `*end == '\0'` demanded: `Some(v)` when the
      whole token is read as the integer v, `None` when some character is left.
      A token without a digit is never an integer. */
  function ParseLong(t: string): (r: Option<int>)
    ensures r.Some? ==> HasDigit(t)
  {
    var r := ParseSigned(SkipSpace(t));
    if r.Some? then
      NumberHasDigit(t, SplitSign(SkipSpace(t)).1, 0);
      r
    else r
  }

  /** The decimal numeral of n, as the program's output would write it. */
  function NatToDecimal(n: nat): (s: string)
    ensures s != [] && AllDigits(s) && DigitsValue(s) == n
  {
    if n < 10 then
      [DigitChar(n)]
    else
      var s := NatToDecimal(n / 10) + [DigitChar(n % 10)];
      assert s[..|s| - 1] == NatToDecimal(n / 10);
      s
  }

  /** Every decimal numeral, signed or not, is read back as its value. */
  lemma ParseLongOfDecimal(n: nat)
    ensures ParseLong(NatToDecimal(n)) == Some(n)
    ensures ParseLong("-" + NatToDecimal(n)) == Some(-(n as int))
    ensures ParseLong("+" + NatToDecimal(n)) == Some(n)
  {
    var d := NatToDecimal(n);
    assert SkipSpace(d) == d;
    assert SkipSpace("-" + d) == "-" + d;
    assert SkipSpace("+" + d) == "+" + d;
    assert ("-" + d)[1..] == d;
    assert ("+" + d)[1..] == d;
  }

  /** Number of leading decimal digits of s. */
  function DigitRun(s: string): (n: nat)
    ensures n <= |s| && AllDigits(s[..n]) && (n < |s| ==> !IsDigit(s[n]))
    decreases |s|
  {
    if s != [] && IsDigit(s[0]) then
      var n := 1 + DigitRun(s[1..]);
      assert s[..n] == [s[0]] + s[1..][..n - 1];
      n
    else 0
  }

  function Pow10(e: nat): (p: real)
    ensures p >= 1.0
  {
    if e == 0 then 1.0 else 10.0 * Pow10(e - 1)
  }

  /** x times ten to the power e. */
  function ScaleBy10(x: real, e: int): real
  {
    if e >= 0 then x * Pow10(e) else x / Pow10(-e)
  }

  /** strtod(token, &end) with `*end == '\0'` demanded, for the decimal forms:
      optional white space and sign, digits with an optional '.' (at least one
      digit in all), then an optional exponent 'e' or 'E' with an optional sign
      and at least one digit. Anything else leaves characters unread: `None`. */
  function ParseReal(t: string): (r: Option<real>)
    ensures r.Some? ==> HasDigit(t)
  {
    var (negative, b) := SplitSign(SkipSpace(t));
    var i := DigitRun(b);
    var hasDot := i < |b| && b[i] == '.';
    var f := if hasDot then DigitRun(b[i + 1..]) else 0;
    var rest := if hasDot then b[i + 1 + f..] else b[i..];
    if i + f == 0 then None
    else
      NumberHasDigit(t, b, if i > 0 then 0 else 1);
      var whole := DigitsValue(b[..i]) as real;
      var fraction := if hasDot then DigitsValue(b[i + 1..][..f]) as real / Pow10(f) else 0.0;
      var magnitude := whole + fraction;
      var signed := if negative then -magnitude else magnitude;
      if rest == [] then Some(signed)
      else if (rest[0] == 'e' || rest[0] == 'E') && ParseSigned(rest[1..]).Some? then
        Some(ScaleBy10(signed, ParseSigned(rest[1..]).value))
      else None
  }

  /** A token strtol reads completely is read by strtod as the same number. */
  lemma ParseLongIsReal(t: string)
    requires ParseLong(t).Some?
    ensures ParseReal(t) == Some(ParseLong(t).value as real)
  {
    var (negative, b) := SplitSign(SkipSpace(t));
    if DigitRun(b) < |b| {
      assert false;
    }
    assert b[..|b|] == b;
  }

  lemma DecimalExample()
    ensures ParseReal("2.5") == Some(2.5)
  {
    assert DigitRun("2.5") == 1;
    assert "2.5"[2..] == "5";
    assert DigitRun("5") == 1;
    assert "2.5"[..1] == "2";
    assert "5"[..1] == "5";
    assert DigitsValue("5") == 5;
    assert DigitsValue("2") == 2;
  }

  lemma NegativeExample()
    ensures ParseReal("-3") == Some(-3.0)
  {
    assert "-3"[1..] == "3";
    assert DigitRun("3") == 1;
    assert "3"[..1] == "3";
    assert DigitsValue("3") == 3;
  }

  lemma ExponentExample()
    ensures ParseReal("1e2") == Some(100.0)
  {
    assert DigitRun("1e2") == 1;
    assert "1e2"[..1] == "1";
    assert "1e2"[1..] == "e2";
    assert "e2"[1..] == "2";
    assert DigitsValue("2") == 2;
    assert DigitsValue("1") == 1;
    assert ParseSigned("2") == Some(2);
  }

  /** The keyword closing a matrix file is not a number. */
  lemma EndIsNotNumber()
    ensures ParseReal("end") == None
  {
    assert SkipSpace("end") == "end";
    assert SplitSign("end") == (false, "end");
    assert DigitRun("end") == 0;
  }

  /** An exponent marker without digits, or a trailing letter, leaves strtod
      short of the end of the token. */
  lemma RejectedExamples()
    ensures ParseReal("1e") == None
    ensures ParseReal("4x") == None
  {
    assert SkipSpace("1e") == "1e";
    assert DigitRun("1e") == 1;
    assert "1e"[1..] == "e";
    assert "e"[1..] == "";
    assert SkipSpace("4x") == "4x";
    assert DigitRun("4x") == 1;
    assert "4x"[1..] == "x";
  }
}
