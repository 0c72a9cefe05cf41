/** `strconv.Atoi` on a 64-bit platform, and the decimal text
    `database/sql` produces when it scans an integer column into a string. */
module Decimal {
  import opened Wrappers

  const MinInt64: int := -0x8000_0000_0000_0000
  const MaxInt64: int := 0x7FFF_FFFF_FFFF_FFFF

  predicate IsDigit(c: char) {
    '0' <= c <= '9'
  }

  predicate AllDigits(s: string) {
    forall i | 0 <= i < |s| :: IsDigit(s[i])
  }

  /** The value of a run of decimal digits, most significant first. */
  function DigitsValue(s: string): nat
    requires AllDigits(s)
  {
    if s == [] then 0 else DigitsValue(s[..|s| - 1]) * 10 + ((s[|s| - 1] as int) - ('0' as int))
  }

  /** `strconv.Atoi`: an optional `+` or `-`, then at least one decimal digit
      (leading zeros allowed, no underscores), with a value that fits in a
      64-bit signed integer. Anything else is an error. */
  function Atoi(s: string): (r: Option<int>)
    ensures r.Some? ==> MinInt64 <= r.value <= MaxInt64
  {
    var signed := |s| > 0 && (s[0] == '-' || s[0] == '+');
    var digits := if signed then s[1..] else s;
    if digits == [] || !AllDigits(digits) then None
    else
      var v: int := if |s| > 0 && s[0] == '-' then 0 - (DigitsValue(digits) as int) else DigitsValue(digits);
      if MinInt64 <= v <= MaxInt64 then Some(v) else None
  }

  function DigitChar(d: nat): char
    requires d < 10
  {
    (('0' as int) + d) as char
  }

  /** Base-10 text of a natural number, without leading zeros. */
  function FormatNat(n: nat): string {
    if n < 10 then [DigitChar(n)] else FormatNat(n / 10) + [DigitChar(n % 10)]
  }

  /** `strconv.FormatInt(n, 10)`, the text of an integer column scanned into a
      Go string. */
  function FormatInt(n: int): string {
    if n < 0 then "-" + FormatNat(-n) else FormatNat(n)
  }

  lemma {:induction false} FormatNatDigits(n: nat)
    ensures FormatNat(n) != []
    ensures AllDigits(FormatNat(n))
    ensures DigitsValue(FormatNat(n)) == n
  {
    if n >= 10 {
      FormatNatDigits(n / 10);
      var s := FormatNat(n);
      assert s[..|s| - 1] == FormatNat(n / 10);
    }
  }

  /** Round trip: parsing the text of any 64-bit integer gives it back. */
  lemma {:induction false} AtoiFormatInt(n: int)
    requires MinInt64 <= n <= MaxInt64
    ensures Atoi(FormatInt(n)) == Some(n)
  {
    if n < 0 {
      AtoiNegative(-n);
    } else {
      AtoiNatural(n);
    }
  }

  lemma {:induction false} AtoiNatural(n: nat)
    requires n <= MaxInt64
    ensures Atoi(FormatNat(n)) == Some(n)
  {
    var s := FormatNat(n);
    FormatNatDigits(n);
    assert IsDigit(s[0]);
    assert s[0] != '-' && s[0] != '+';
    assert DigitsValue(s) == n;
  }

  lemma {:induction false} AtoiNegative(m: nat)
    requires 0 < m <= -MinInt64
    ensures Atoi("-" + FormatNat(m)) == Some(0 - m)
  {
    var d := FormatNat(m);
    var s := "-" + d;
    FormatNatDigits(m);
    assert s[0] == '-';
    assert s[1..] == d;
    assert DigitsValue(d) == m;
  }
}
