/**
 Decimal numerals: what "%v" prints for an integer, and what strconv reads back.
 */
module Decimal {
  import opened Wrappers

  const MIN_INT64: int := -0x8000_0000_0000_0000
  const MAX_INT64: int := 0x7fff_ffff_ffff_ffff

  predicate IsDigit(c: char) {
    '0' <= c <= '9'
  }

  predicate AllDigits(s: string) {
    forall i | 0 <= i < |s| :: IsDigit(s[i])
  }

  function DigitValue(c: char): nat
    requires IsDigit(c)
  {
    c as int - '0' as int
  }

  function DigitsValue(s: string): nat
    requires AllDigits(s)
  {
    if s == [] then 0 else 10 * DigitsValue(s[..|s| - 1]) + DigitValue(s[|s| - 1])
  }

  function NatText(n: nat): string {
    if n < 10 then ['0' + n as char] else NatText(n / 10) + ['0' + (n % 10) as char]
  }

  function IntText(n: int): string {
    if n < 0 then "-" + NatText(-n) else NatText(n)
  }

  /** strconv.ParseInt(s, 10, 64): an optional sign, then at least one digit, within int64. */
  function ParseInt64(s: string): Option<int> {
    var negative := s != [] && s[0] == '-';
    var digits := if s != [] && (s[0] == '-' || s[0] == '+') then s[1..] else s;
    if digits == [] || !AllDigits(digits) then None
    else
      var magnitude: int := DigitsValue(digits);
      var value := if negative then -magnitude else magnitude;
      if MIN_INT64 <= value <= MAX_INT64 then Some(value) else None
  }

  /** A printed numeral is a non-empty run of digits that reads back as the number. */
  lemma {:induction false} NatTextReadsBack(n: nat)
    ensures NatText(n) != [] && AllDigits(NatText(n)) && DigitsValue(NatText(n)) == n
  {
    if n < 10 {
      assert NatText(n)[..0] == [];
    } else {
      NatTextReadsBack(n / 10);
      assert NatText(n)[..|NatText(n)| - 1] == NatText(n / 10);
    }
  }

  /** What is printed for an int64 is read back as the same int64. */
  lemma ParsePrintedInt(n: int)
    requires MIN_INT64 <= n <= MAX_INT64
    ensures ParseInt64(IntText(n)) == Some(n)
  {
    var m: nat := if n < 0 then -n else n;
    NatTextReadsBack(m);
    var text := NatText(m);
    assert IsDigit(text[0]);
    if n < 0 {
      assert ("-" + text)[0] == '-' && ("-" + text)[1..] == text;
      assert IntText(n) == "-" + text;
    } else {
      assert text[0] != '-' && text[0] != '+';
    }
  }

  /** Different numbers print differently. */
  lemma NatTextInjective(m: nat, n: nat)
    requires NatText(m) == NatText(n)
    ensures m == n
  {
    NatTextReadsBack(m);
    NatTextReadsBack(n);
  }

  lemma IntTextChars(n: int)
    ensures IntText(n) != []
    ensures forall i | 0 <= i < |IntText(n)| :: IsDigit(IntText(n)[i]) || IntText(n)[i] == '-'
  {
    NatTextReadsBack(if n < 0 then -n else n);
  }
}
