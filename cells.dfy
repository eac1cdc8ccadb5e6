/**
 * The cell grid the spreadsheet loader produces, and the id normalisation `str(int(float(x)))`
 * that the category builder and the word extractor both apply to a cell.
 */
module Cells {
  import opened Wrappers
  import opened Text

  /**
   * One loaded cell. A number carries its exact value and the text Python's str() gives it
   * (which depends on whether the loader produced an int or a float); blank cells are Missing.
   */
  datatype Cell = Number(value: real, shown: string) | Text(text: string) | Missing

  /** The loaded sheet: rows of cells, addressed grid[row][column]. */
  type Grid = seq<seq<Cell>>

  /** A data frame is rectangular: every row has as many cells as the first. */
  predicate Rectangular(grid: Grid) {
    forall r :: 0 <= r < |grid| ==> |grid[r]| == |grid[0]|
  }

  function Width(grid: Grid): nat {
    if grid == [] then 0 else |grid[0]|
  }

  /** Number of data columns: every column but the label column 0. */
  function DataColumns(grid: Grid): nat {
    if Width(grid) == 0 then 0 else Width(grid) - 1
  }

  /** Python's str() of a non-missing cell. */
  function CellText(c: Cell): string
    requires !c.Missing?
  {
    match c
    case Number(_, shown) => shown
    case Text(t) => t
  }

  /** Python's int() of a finite float: truncation toward zero. */
  function Truncate(v: real): (r: int)
    ensures 0.0 <= v ==> r as real <= v < r as real + 1.0
    ensures v < 0.0 ==> r as real - 1.0 < v <= r as real
  {
    if 0.0 <= v then v.Floor else -((-v).Floor)
  }

  /**
   * int(float(t)) for a text cell, on the decimal forms: surrounding whitespace, an optional sign,
   * digits with an optional fractional part, at least one digit. Anything else is rejected.
   */
  function ParseTruncated(t: string): (r: Option<int>)
  {
    ParseDecimal(Strip(t))
  }

  /** int(float(s)) for text already stripped of surrounding whitespace: an optional sign, then an
      unsigned decimal. */
  function ParseDecimal(s: string): (r: Option<int>)
  {
    var negative := s != [] && s[0] == '-';
    var body := if s != [] && (s[0] == '-' || s[0] == '+') then s[1..] else s;
    match ParseUnsigned(body)
    case None => None
    case Some(n) => Some(if negative then -(n as int) else n)
  }

  /** The integer part of an unsigned decimal: digits with an optional fractional part, at least one
      digit in all. */
  function ParseUnsigned(body: string): (r: Option<nat>)
  {
    if '.' in body then
      var dot := FirstIndex(body, '.');
      var whole, fraction := body[..dot], body[dot + 1..];
      if AllDigits(whole) && AllDigits(fraction) && |whole| + |fraction| > 0 then Some(DigitsValue(whole))
      else None
    else if AllDigits(body) && body != [] then Some(DigitsValue(body))
    else None
  }

  /** `s` is a decimal literal: a sign ("", "+" or "-"), the digits `whole`, and, when `dotted`, a
      point followed by the digits `fraction`; at least one digit in all. */
  ghost predicate DecimalForm(s: string, sign: string, whole: string, dotted: bool, fraction: string) {
    && (sign == "" || sign == "+" || sign == "-")
    && AllDigits(whole) && AllDigits(fraction)
    && (if dotted then |whole| + |fraction| > 0 else whole != [] && fraction == [])
    && s == sign + whole + (if dotted then "." + fraction else "")
  }

  function Pow10(n: nat): (r: nat)
    ensures r > 0
  {
    if n == 0 then 1 else 10 * Pow10(n - 1)
  }

  lemma {:induction false} DigitsValueBelow(s: string)
    ensures DigitsValue(s) < Pow10(|s|)
  {
    if s != [] {
      DigitsValueBelow(s[..|s| - 1]);
    }
  }

  /** The exact value of the unsigned decimal literal with `whole` before the point and `fraction` after it. */
  ghost function DecimalValue(whole: string, fraction: string): real {
    DigitsValue(whole) as real + DigitsValue(fraction) as real / Pow10(|fraction|) as real
  }

  /** A quotient of a non-negative number by a larger one is a fraction below one. */
  lemma QuotientBelowOne(f: real, p: real)
    requires 0.0 <= f < p
    ensures 0.0 <= f / p < 1.0
  {
  }

  /** A whole number plus a fraction below one truncates to the whole number, with either sign. */
  lemma TruncateWhole(w: nat, q: real)
    requires 0.0 <= q < 1.0
    ensures Truncate(w as real + q) == w
    ensures Truncate(-(w as real + q)) == -(w as int)
  {
  }

  /** Truncating a decimal literal's value toward zero drops its fractional digits. */
  lemma TruncateDecimal(whole: string, fraction: string, negative: bool)
    ensures Truncate(if negative then -DecimalValue(whole, fraction) else DecimalValue(whole, fraction))
      == if negative then -(DigitsValue(whole) as int) else DigitsValue(whole)
  {
    DigitsValueBelow(fraction);
    var q := DigitsValue(fraction) as real / Pow10(|fraction|) as real;
    QuotientBelowOne(DigitsValue(fraction) as real, Pow10(|fraction|) as real);
    TruncateWhole(DigitsValue(whole), q);
  }

  /** The first point after a run of digits is the one right after it. */
  lemma FirstPointAfterDigits(whole: string, rest: string)
    requires AllDigits(whole) && rest != [] && rest[0] == '.'
    ensures '.' in whole + rest && FirstIndex(whole + rest, '.') == |whole|
  {
    var body := whole + rest;
    assert body[|whole|] == '.';
    var dot := FirstIndex(body, '.');
    assert forall i :: 0 <= i < |whole| ==> body[i] == whole[i] && body[i] != '.';
  }

  /** Cutting a sequence around the element at `i`. */
  lemma CutAt(s: string, i: nat)
    requires i < |s|
    ensures s == s[..i] + [s[i]] + s[i + 1..]
  {
  }

  /** Concatenation regrouped. */
  lemma Regroup(a: string, b: string, c: string, d: string)
    ensures a + b + (c + d) == a + (b + c + d)
  {
  }

  /** The unsigned part of a decimal literal, after its sign. */
  lemma DecimalBody(s: string, sign: string, whole: string, dotted: bool, fraction: string)
    requires DecimalForm(s, sign, whole, dotted, fraction)
    ensures var body := if s != [] && (s[0] == '-' || s[0] == '+') then s[1..] else s;
      && body == whole + (if dotted then "." + fraction else "")
      && ((s != [] && s[0] == '-') <==> sign == "-")
  {
    var rest := if dotted then "." + fraction else "";
    if sign == "" {
      assert s == whole + rest;
      if whole != [] {
        assert s[0] == whole[0];
      } else {
        assert s[0] == '.';
      }
    } else {
      assert s == sign + (whole + rest);
    }
  }

  /** The digits before a decimal literal's point, signed. */
  lemma ParseDecimalOf(s: string, sign: string, whole: string, dotted: bool, fraction: string)
    requires DecimalForm(s, sign, whole, dotted, fraction)
    ensures ParseDecimal(s) == Some(if sign == "-" then -(DigitsValue(whole) as int) else DigitsValue(whole))
  {
    DecimalBody(s, sign, whole, dotted, fraction);
    if dotted {
      ParseDottedOf(whole, fraction);
    } else {
      ParseUndottedOf(whole);
    }
  }

  lemma ParseDottedOf(whole: string, fraction: string)
    requires AllDigits(whole) && AllDigits(fraction) && |whole| + |fraction| > 0
    ensures ParseUnsigned(whole + ("." + fraction)) == Some(DigitsValue(whole))
  {
    var body := whole + ("." + fraction);
    FirstPointAfterDigits(whole, "." + fraction);
    assert body[..|whole|] == whole;
    assert body[|whole| + 1..] == fraction;
  }

  lemma ParseUndottedOf(whole: string)
    requires AllDigits(whole) && whole != []
    ensures ParseUnsigned(whole + "") == Some(DigitsValue(whole))
  {
    assert whole + "" == whole;
    assert '.' !in whole by {
      assert forall i :: 0 <= i < |whole| ==> IsDigit(whole[i]);
    }
  }

  /** A text whose stripped form is a decimal literal gives that literal's value truncated toward
      zero, as int(float(t)) does. */
  lemma ParseTruncatedDecimal(t: string, sign: string, whole: string, dotted: bool, fraction: string)
    requires DecimalForm(Strip(t), sign, whole, dotted, fraction)
    ensures ParseTruncated(t)
      == Some(Truncate(if sign == "-" then -DecimalValue(whole, fraction) else DecimalValue(whole, fraction)))
  {
    ParseDecimalOf(Strip(t), sign, whole, dotted, fraction);
    TruncateDecimal(whole, fraction, sign == "-");
  }

  /** Every stripped text ParseDecimal accepts is a decimal literal. */
  lemma ParseDecimalForm(s: string) returns (sign: string, whole: string, dotted: bool, fraction: string)
    requires ParseDecimal(s).Some?
    ensures DecimalForm(s, sign, whole, dotted, fraction)
  {
    var signed := s != [] && (s[0] == '-' || s[0] == '+');
    sign := if signed then [s[0]] else "";
    var body := if signed then s[1..] else s;
    assert s == sign + body;
    assert ParseUnsigned(body).Some?;
    if '.' in body {
      var dot := FirstIndex(body, '.');
      whole, dotted, fraction := body[..dot], true, body[dot + 1..];
      assert AllDigits(whole) && AllDigits(fraction) && |whole| + |fraction| > 0;
      CutAt(body, dot);
      Regroup(sign, whole, ".", fraction);
    } else {
      whole, dotted, fraction := body, false, "";
      assert AllDigits(whole) && whole != [];
      assert s == sign + whole + "";
    }
  }

  /** Every text ParseTruncated accepts is, once stripped, a decimal literal, and gives its value
      truncated toward zero; all other text is rejected. */
  lemma ParseTruncatedForm(t: string) returns (sign: string, whole: string, dotted: bool, fraction: string)
    requires ParseTruncated(t).Some?
    ensures DecimalForm(Strip(t), sign, whole, dotted, fraction)
    ensures ParseTruncated(t)
      == Some(Truncate(if sign == "-" then -DecimalValue(whole, fraction) else DecimalValue(whole, fraction)))
  {
    sign, whole, dotted, fraction := ParseDecimalForm(Strip(t));
    ParseTruncatedDecimal(t, sign, whole, dotted, fraction);
  }

  /**
   * The converter's id normalisation: the canonical integer string of a cell, or None where
   * the source skips it (a missing cell, or one float()/int() reject).
   */
  function NormalizeId(c: Cell): (r: Option<string>)
    ensures c.Missing? ==> r.None?
    ensures c.Number? ==> r == Some(IntToString(Truncate(c.value)))
  {
    match c
    case Missing => None
    case Number(v, _) => Some(IntToString(Truncate(v)))
    case Text(t) =>
      match ParseTruncated(t)
      case None => None
      case Some(n) => Some(IntToString(n))
  }

  /** Every id the normaliser gives is canonical: the rendering of its own integer value. */
  lemma NormalizeIdCanonical(c: Cell)
    requires NormalizeId(c).Some?
    ensures IsCanonical(NormalizeId(c).value)
  {
    match c
    case Number(v, _) => IdValueOfIntToString(Truncate(v));
    case Text(t) => IdValueOfIntToString(ParseTruncated(t).value);
  }

  /** Reading back a rendered integer gives it again. */
  lemma {:induction false} ParseRendered(n: int)
    ensures ParseTruncated(IntToString(n)) == Some(n)
  {
    var s := IntToString(n);
    assert LeadingSpace(s) == 0 && s[0..] == s;
    assert TrailingSpace(s) == 0;
    assert Strip(s) == s;
    IdValueOfIntToString(n);
    if n < 0 {
      assert '.' !in s[1..];
    } else {
      assert '.' !in s;
    }
  }

  /** Normalisation is idempotent: a normalised id written as text normalises to itself. */
  lemma NormalizeIdIdempotent(c: Cell)
    requires NormalizeId(c).Some?
    ensures NormalizeId(Text(NormalizeId(c).value)) == NormalizeId(c)
  {
    var id := NormalizeId(c).value;
    NormalizeIdCanonical(c);
    ParseRendered(IdValue(id));
  }

  /** A number and the text of its decimal digits name the same id. */
  lemma NumberAndTextAgree(n: int, shown: string)
    ensures NormalizeId(Number(n as real, shown)) == NormalizeId(Text(IntToString(n)))
  {
    assert Truncate(n as real) == n;
    ParseRendered(n);
    assert NormalizeId(Text(IntToString(n))) == Some(IntToString(n));
  }
}
