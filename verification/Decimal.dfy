/** Decimal numerals: `to_string` of an unsigned integer and `str::parse::<u128>`. */
module Decimal {
  import opened Basics

  predicate IsDigit(c: char) { '0' <= c <= '9' }

  predicate Digits(s: string) { s != "" && forall i | 0 <= i < |s| :: IsDigit(s[i]) }

  function DigitChar(n: nat): (c: char)
    requires n < 10
    ensures IsDigit(c) && c as int - 48 == n
  {
    (48 + n) as char
  }

  /** The numeral of n, without leading zeros. */
  function Show(n: nat): (s: string)
    ensures Digits(s)
  {
    if n < 10 then [DigitChar(n)] else Show(n / 10) + [DigitChar(n % 10)]
  }

  function Value(s: string): nat
    requires s == "" || Digits(s)
  {
    if s == "" then 0 else 10 * Value(s[..|s| - 1]) + (s[|s| - 1] as int - 48)
  }

  /** Accepts one optional `+`, then at least one digit, then a value that fits in 128 bits. */
  function ParseU128(s: string): Option<nat> {
    var digits := if s != "" && s[0] == '+' then s[1..] else s;
    if Digits(digits) && Value(digits) < U128_LIMIT then Some(Value(digits)) else None
  }

  lemma {:induction false} ValueShow(n: nat)
    ensures Value(Show(n)) == n
  {
    if n >= 10 {
      ValueShow(n / 10);
      assert Show(n)[..|Show(n)| - 1] == Show(n / 10);
    }
  }

  /** Ten times a number and a digit is written as the number and then the digit. */
  lemma ShowAppends(n: nat, d: nat)
    requires d < 10
    ensures Show(10 * n + d) == (if n == 0 then "" else Show(n)) + ["0123456789"[d]]
  {
    assert (10 * n + d) / 10 == n && (10 * n + d) % 10 == d;
    assert "0123456789"[d] as int == 48 + d;
  }

  /** What parses: digits, leading zeros included, behind at most one plus sign. */
  lemma ParseExact(s: string, n: nat)
    ensures ParseU128(s) == Some(n) <==>
            n < U128_LIMIT && exists digits: string :: Digits(digits) && Value(digits) == n
                                                       && (s == digits || s == "+" + digits)
  {
    if ParseU128(s) == Some(n) {
      var digits := if s[0] == '+' then s[1..] else s;
      assert s == digits || s == "+" + digits;
    }
    if digits: string :| Digits(digits) && Value(digits) == n && (s == digits || s == "+" + digits) {
      assert ("+" + digits)[1..] == digits && digits[0] != '+';
    }
  }

  lemma ShowInjective(m: nat, n: nat)
    requires Show(m) == Show(n)
    ensures m == n
  {
    ValueShow(m);
    ValueShow(n);
  }

  /** A numeral parses to its number exactly when the number is a u128. */
  lemma ParseShow(n: nat)
    ensures ParseU128(Show(n)) == if n < U128_LIMIT then Some(n) else None
  {
    ValueShow(n);
    assert Show(n)[0] != '+';
  }
}
