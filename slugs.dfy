/** The slug a question receives on its first save: the slugified title, a
    dash, and the decimal text of a random number drawn from
    [SUFFIX_MIN, SUFFIX_MAX]. The slugify routine itself belongs to the web
    framework and is passed in as a function. */
module Slugs {

  const SUFFIX_MIN: nat := 11111111
  const SUFFIX_MAX: nat := 99999999

  predicate IsDigit(c: char) {
    '0' <= c <= '9'
  }

  predicate AllDigits(s: string) {
    forall i :: 0 <= i < |s| ==> IsDigit(s[i])
  }

  function DigitChar(d: nat): (c: char)
    requires d < 10
    ensures IsDigit(c)
  {
    ('0' as int + d) as char
  }

  function DigitValue(c: char): (d: nat)
    requires IsDigit(c)
    ensures d < 10 && DigitChar(d) == c
  {
    c as int - '0' as int
  }

  /** str(n): the decimal text of n, most significant digit first. */
  function DecimalString(n: nat): (s: string)
    ensures |s| >= 1 && AllDigits(s)
  {
    if n < 10 then [DigitChar(n)] else DecimalString(n / 10) + [DigitChar(n % 10)]
  }

  /** The number a string of decimal digits denotes. */
  function ParseDecimal(s: string): nat
    requires AllDigits(s)
  {
    if s == [] then 0 else ParseDecimal(s[..|s| - 1]) * 10 + DigitValue(s[|s| - 1])
  }

  function Pow10(k: nat): (p: nat)
    ensures p >= 1
  {
    if k == 0 then 1 else 10 * Pow10(k - 1)
  }

  /** slugify(title) + "-" + str(n) */
  function NewSlug(slugify: string -> string, title: string, n: nat): string {
    slugify(title) + "-" + DecimalString(n)
  }

  // ---------------------------------------------------------------------------
  // Lemmas

  /** Reading back the decimal text of n gives n. */
  lemma {:induction false} ParseDecimalString(n: nat)
    ensures ParseDecimal(DecimalString(n)) == n
  {
    var s := DecimalString(n);
    if n >= 10 {
      ParseDecimalString(n / 10);
      assert s[..|s| - 1] == DecimalString(n / 10);
      assert DigitValue(s[|s| - 1]) == n % 10;
    } else {
      assert DigitValue(s[0]) == n;
    }
  }

  /** A number with k + 1 decimal digits has decimal text of length k + 1. */
  lemma {:induction false} DecimalStringLength(n: nat, k: nat)
    requires Pow10(k) <= n < Pow10(k + 1)
    ensures |DecimalString(n)| == k + 1
  {
    if k == 0 {
      assert n < 10;
    } else {
      assert Pow10(k) == 10 * Pow10(k - 1);
      assert Pow10(k + 1) == 10 * Pow10(k);
      DecimalStringLength(n / 10, k - 1);
    }
  }

  /** Every drawn suffix is written with exactly eight digits. */
  lemma SuffixIsEightDigits(n: nat)
    requires SUFFIX_MIN <= n <= SUFFIX_MAX
    ensures |DecimalString(n)| == 8
  {
    assert Pow10(7) == 10000000 && Pow10(8) == 100000000 by {
      assert Pow10(2) == 100;
      assert Pow10(4) == 10000;
      assert Pow10(6) == 1000000;
    }
    DecimalStringLength(n, 7);
  }

  /** A new slug splits back into the slugified title, a dash and eight digits
      that denote the drawn number. */
  lemma NewSlugParts(slugify: string -> string, title: string, n: nat)
    requires SUFFIX_MIN <= n <= SUFFIX_MAX
    ensures var s := NewSlug(slugify, title, n);
            && |s| == |slugify(title)| + 9
            && s[..|s| - 9] == slugify(title)
            && s[|s| - 9] == '-'
            && AllDigits(s[|s| - 8..])
            && ParseDecimal(s[|s| - 8..]) == n
  {
    var s := NewSlug(slugify, title, n);
    SuffixIsEightDigits(n);
    ParseDecimalString(n);
    assert s[|s| - 8..] == DecimalString(n);
  }
}
