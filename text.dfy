/**
 * String operations the converter relies on from Python: str.isspace / str.strip, string
 * comparison (`<` on str), str(int) and int(str) for decimal ids, and str.join.
 */
module Text {
  /** The characters for which Python's str.isspace() holds; str.strip() and float() remove them. */
  predicate IsSpace(c: char) {
    var n := c as int;
    n == 32 || 9 <= n <= 13 || 28 <= n <= 31 || n == 0x85 || n == 0xA0 || n == 0x1680
    || 0x2000 <= n <= 0x200A || n == 0x2028 || n == 0x2029 || n == 0x202F || n == 0x205F || n == 0x3000
  }

  /** Number of whitespace characters at the start of `s`. */
  function LeadingSpace(s: string): (n: nat)
    ensures n <= |s|
  {
    if s == [] || !IsSpace(s[0]) then 0 else 1 + LeadingSpace(s[1..])
  }

  /** Number of whitespace characters at the end of `s`. */
  function TrailingSpace(s: string): (n: nat)
    ensures n <= |s|
  {
    if s == [] || !IsSpace(s[|s| - 1]) then 0 else 1 + TrailingSpace(s[..|s| - 1])
  }

  /** LeadingSpace(s) counts the maximal whitespace prefix of `s`. */
  lemma {:induction false} LeadingSpaceSpec(s: string)
    ensures forall i :: 0 <= i < LeadingSpace(s) ==> IsSpace(s[i])
    ensures LeadingSpace(s) < |s| ==> !IsSpace(s[LeadingSpace(s)])
  {
    if s != [] && IsSpace(s[0]) {
      LeadingSpaceSpec(s[1..]);
    }
  }

  /** TrailingSpace(s) counts the maximal whitespace suffix of `s`. */
  lemma {:induction false} TrailingSpaceSpec(s: string)
    ensures forall i :: |s| - TrailingSpace(s) <= i < |s| ==> IsSpace(s[i])
    ensures TrailingSpace(s) < |s| ==> !IsSpace(s[|s| - 1 - TrailingSpace(s)])
  {
    if s != [] && IsSpace(s[|s| - 1]) {
      TrailingSpaceSpec(s[..|s| - 1]);
    }
  }

  /** Python's str.strip(): `s` with its leading and trailing whitespace removed. */
  function Strip(s: string): string {
    var t := s[LeadingSpace(s)..];
    t[..|t| - TrailingSpace(t)]
  }

  /** `s` is whitespace, then Strip(s), then whitespace, and Strip(s) neither starts nor ends with whitespace. */
  lemma StripSpec(s: string)
    ensures var r := Strip(s);
      && |r| <= |s| - LeadingSpace(s)
      && r == s[LeadingSpace(s)..LeadingSpace(s) + |r|]
      && (forall i :: 0 <= i < |s| && !(LeadingSpace(s) <= i < LeadingSpace(s) + |r|) ==> IsSpace(s[i]))
      && (r != [] ==> !IsSpace(r[0]) && !IsSpace(r[|r| - 1]))
  {
    LeadingSpaceSpec(s);
    TrailingSpaceSpec(s[LeadingSpace(s)..]);
  }

  /** A string is stripped exactly when it has no whitespace at either end. */
  lemma StrippedIff(s: string)
    ensures Strip(s) == s <==> s == [] || (!IsSpace(s[0]) && !IsSpace(s[|s| - 1]))
  {
    if s != [] && !IsSpace(s[0]) && !IsSpace(s[|s| - 1]) {
      assert LeadingSpace(s) == 0 && s[0..] == s;
      assert TrailingSpace(s) == 0;
    }
  }

  /** Stripping twice is stripping once. */
  lemma StripIdempotent(s: string)
    ensures Strip(Strip(s)) == Strip(s)
  {
    StripSpec(s);
    StrippedIff(Strip(s));
  }

  /** Python's `<` on str: lexicographic by code point, a proper prefix before its extensions. */
  predicate LexLess(a: string, b: string)
    decreases |a|
  {
    if a == [] then b != []
    else b != [] && (a[0] < b[0] || (a[0] == b[0] && LexLess(a[1..], b[1..])))
  }

  lemma {:induction false} LexLessTransitive(a: string, b: string, c: string)
    requires LexLess(a, b) && LexLess(b, c)
    ensures LexLess(a, c)
  {
    if a != [] && a[0] == b[0] && b[0] == c[0] {
      LexLessTransitive(a[1..], b[1..], c[1..]);
    }
  }

  /** Any two different strings are ordered one way or the other. */
  lemma {:induction false} LexLessTotal(a: string, b: string)
    requires a != b
    ensures LexLess(a, b) || LexLess(b, a)
  {
    if a != [] && b != [] && a[0] == b[0] {
      assert a == [a[0]] + a[1..] && b == [b[0]] + b[1..];
      LexLessTotal(a[1..], b[1..]);
    }
  }

  predicate IsDigit(c: char) {
    '0' <= c <= '9'
  }

  predicate AllDigits(s: string) {
    forall i :: 0 <= i < |s| ==> IsDigit(s[i])
  }

  function DigitChar(d: nat): (c: char)
    requires d < 10
    ensures IsDigit(c) && c as int - '0' as int == d
  {
    (d + '0' as int) as char
  }

  /** Value of a digit; other characters count as 0 (they never reach it for the converter's ids). */
  function DigitValue(c: char): nat {
    if IsDigit(c) then c as int - '0' as int else 0
  }

  /** Value of a string of decimal digits, most significant first. */
  function DigitsValue(s: string): nat {
    if s == [] then 0 else 10 * DigitsValue(s[..|s| - 1]) + DigitValue(s[|s| - 1])
  }

  /** Python's str() of a non-negative int. */
  function NatToString(n: nat): (s: string)
    ensures s != [] && AllDigits(s)
  {
    if n < 10 then [DigitChar(n)] else NatToString(n / 10) + [DigitChar(n % 10)]
  }

  /** Python's str() of an int: a minus sign for negative values, then the decimal digits. */
  function IntToString(i: int): (s: string)
    ensures s != [] && (s[0] == '-' <==> i < 0)
    ensures i < 0 ==> AllDigits(s[1..])
    ensures 0 <= i ==> AllDigits(s)
  {
    if i < 0 then "-" + NatToString(-i) else NatToString(i)
  }

  /** Python's int() applied to a decimal id string. */
  function IdValue(id: string): int {
    if id != [] && id[0] == '-' then -(DigitsValue(id[1..]) as int) else DigitsValue(id)
  }

  /** An id is canonical when it is the str() of some integer, namely of its own int(). */
  predicate IsCanonical(id: string) {
    IntToString(IdValue(id)) == id
  }

  lemma {:induction false} DigitsValueOfNat(n: nat)
    ensures DigitsValue(NatToString(n)) == n
  {
    if n >= 10 {
      var s := NatToString(n);
      assert s[..|s| - 1] == NatToString(n / 10);
      DigitsValueOfNat(n / 10);
    }
  }

  /** int(str(n)) == n: rendering an id and reading it back gives the same integer. */
  lemma IdValueOfIntToString(n: int)
    ensures IdValue(IntToString(n)) == n
    ensures IsCanonical(IntToString(n))
  {
    if n < 0 {
      assert IntToString(n)[1..] == NatToString(-n);
      DigitsValueOfNat(-n);
    } else {
      DigitsValueOfNat(n);
    }
  }

  /** Different canonical ids have different integer values, so sorting by int() never ties them. */
  lemma CanonicalIdValueInjective(a: string, b: string)
    requires IsCanonical(a) && IsCanonical(b) && a != b
    ensures IdValue(a) != IdValue(b)
  {
  }

  /** Python's `sep.join(parts)`. */
  function Join(parts: seq<string>, sep: string): string {
    if parts == [] then ""
    else if |parts| == 1 then parts[0]
    else parts[0] + sep + Join(parts[1..], sep)
  }

  /** Splits `s` at every occurrence of the character `sep` (Python's `s.split(sep)` for one character). */
  function Split(s: string, sep: char): (r: seq<string>)
    ensures r != []
    decreases |s|
  {
    if sep !in s then [s]
    else
      var i := FirstIndex(s, sep);
      [s[..i]] + Split(s[i + 1..], sep)
  }

  function FirstIndex(s: string, c: char): (i: nat)
    requires c in s
    ensures i < |s| && s[i] == c && c !in s[..i]
  {
    if s[0] == c then 0 else 1 + FirstIndex(s[1..], c)
  }

  /** Joining with one separator character and splitting at it give back the parts,
      provided no part contains the separator. */
  lemma {:induction false} SplitJoin(parts: seq<string>, sep: char)
    requires parts != []
    requires forall i :: 0 <= i < |parts| ==> sep !in parts[i]
    ensures Split(Join(parts, [sep]), sep) == parts
  {
    if |parts| > 1 {
      var rest := Join(parts[1..], [sep]);
      var s := parts[0] + [sep] + rest;
      assert s[|parts[0]|] == sep;
      assert forall k :: 0 <= k < |parts[0]| ==> s[k] == parts[0][k];
      var i := FirstIndex(s, sep);
      assert i == |parts[0]| by {
        assert i <= |parts[0]| by {
          assert sep in s[..|parts[0]| + 1];
        }
        assert i >= |parts[0]| by {
          assert sep !in parts[0];
        }
      }
      assert s[..i] == parts[0];
      assert s[i + 1..] == rest;
      SplitJoin(parts[1..], sep);
    }
  }
}
