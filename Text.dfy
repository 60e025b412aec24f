/**
 * The string operations the file identity is built from: invariant-culture
 * lower-casing (restricted to ASCII letters), the decimal rendering of an
 * unsigned integer and its parse, and the text after the last comma.
 */
module Text {

  predicate IsUpper(c: char) { 'A' <= c <= 'Z' }

  predicate IsDigit(c: char) { '0' <= c <= '9' }

  predicate AllDigits(s: string) { forall i :: 0 <= i < |s| ==> IsDigit(s[i]) }

  predicate NoComma(s: string) { forall i :: 0 <= i < |s| ==> s[i] != ',' }

  /** Lower-cases one character: an ASCII capital becomes its small letter, anything else is kept. */
  function LowerChar(c: char): (r: char)
    ensures !IsUpper(r)
    ensures !IsUpper(c) ==> r == c
    ensures IsUpper(c) ==> 'a' <= r <= 'z' && r as int - c as int == 'a' as int - 'A' as int
  {
    if IsUpper(c) then (c as int + ('a' as int - 'A' as int)) as char else c
  }

  /** Character-wise lower-casing of a whole string (the model of ToLowerInvariant). */
  function Lower(s: string): (r: string)
    ensures |r| == |s|
    ensures forall i :: 0 <= i < |s| ==> r[i] == LowerChar(s[i])
  {
    seq(|s|, i requires 0 <= i < |s| => LowerChar(s[i]))
  }

  /** Lower-casing works piece by piece, so it distributes over concatenation. */
  lemma LowerConcat(a: string, b: string)
    ensures Lower(a + b) == Lower(a) + Lower(b)
  {
    assert forall i :: 0 <= i < |a + b| ==> Lower(a + b)[i] == (Lower(a) + Lower(b))[i];
  }

  /** A string without capitals is left as it is. */
  lemma LowerFixes(s: string)
    requires forall i :: 0 <= i < |s| ==> !IsUpper(s[i])
    ensures Lower(s) == s
  {
  }

  function DigitValue(c: char): (d: nat)
    requires IsDigit(c)
    ensures d < 10
  {
    c as int - '0' as int
  }

  function Digit(d: nat): (c: char)
    requires d < 10
    ensures IsDigit(c) && DigitValue(c) == d
  {
    ('0' as int + d) as char
  }

  /** The decimal representation of n, most significant digit first, without leading zeros. */
  function Decimal(n: nat): (s: string)
    ensures |s| >= 1 && AllDigits(s)
    ensures |s| > 1 ==> s[0] != '0'
    decreases n
  {
    if n < 10 then [Digit(n)] else Decimal(n / 10) + [Digit(n % 10)]
  }

  /** The value of a string of decimal digits. */
  function ParseDecimal(s: string): nat
    requires AllDigits(s)
  {
    if s == [] then 0 else 10 * ParseDecimal(s[..|s| - 1]) + DigitValue(s[|s| - 1])
  }

  /** Parsing the decimal rendering of n gives back n. */
  lemma {:induction false} ParseDecimalOfDecimal(n: nat)
    ensures ParseDecimal(Decimal(n)) == n
  {
    if n >= 10 {
      var s := Decimal(n);
      assert s[..|s| - 1] == Decimal(n / 10);
      ParseDecimalOfDecimal(n / 10);
    }
  }

  /** Different numbers have different decimal renderings. */
  lemma DecimalInjective(m: nat, n: nat)
    requires Decimal(m) == Decimal(n)
    ensures m == n
  {
    ParseDecimalOfDecimal(m);
    ParseDecimalOfDecimal(n);
  }

  /**
   * The longest comma-free suffix of s: everything after the last comma,
   * or all of s when it has none.
   */
  function AfterLastComma(s: string): (r: string)
    ensures |r| <= |s| && r == s[|s| - |r|..]
    ensures NoComma(r)
    ensures |r| < |s| ==> s[|s| - |r| - 1] == ','
  {
    if s == [] || s[|s| - 1] == ',' then [] else AfterLastComma(s[..|s| - 1]) + [s[|s| - 1]]
  }

  /** Whatever precedes it, the text after a comma that is followed by no other comma is d. */
  lemma {:induction false} AfterLastCommaOf(a: string, d: string)
    requires NoComma(d)
    ensures AfterLastComma(a + [','] + d) == d
  {
    var s := a + [','] + d;
    if d != [] {
      var d' := d[..|d| - 1];
      assert s[..|s| - 1] == a + [','] + d';
      AfterLastCommaOf(a, d');
      assert d' + [d[|d| - 1]] == d;
    }
  }
}
