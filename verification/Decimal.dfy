/** Decimal numbers as shell variables hold them. */
module Decimal {
  import opened Ascii
  import opened Option

  const USIZE_LIMIT: nat := 0x1_0000_0000_0000_0000

  function ToString(n: nat): (s: string)
    ensures s != "" && forall i :: 0 <= i < |s| ==> IsDigit(s[i])
  {
    if n < 10 then ['0' + n as char] else ToString(n / 10) + ['0' + (n % 10) as char]
  }

  function DigitsValue(s: string): nat
    requires forall i :: 0 <= i < |s| ==> IsDigit(s[i])
  {
    if s == "" then 0 else assert IsDigit(s[|s| - 1]); DigitsValue(s[..|s| - 1]) * 10 + (s[|s| - 1] as int - '0' as int)
  }

  /** `parse::<usize>`: an optional plus sign, then digits, in range. */
  function ParseUsize(s: string): Option<nat> {
    var digits := if s != "" && s[0] == '+' then s[1..] else s;
    if digits == "" || exists i :: 0 <= i < |digits| && !IsDigit(digits[i]) then None
    else if DigitsValue(digits) < USIZE_LIMIT then Some(DigitsValue(digits)) else None
  }

  lemma {:induction false} ValueOfToString(n: nat)
    ensures DigitsValue(ToString(n)) == n
  {
    if n < 10 {
      assert ToString(n)[..0] == "";
    } else {
      ValueOfToString(n / 10);
      assert ToString(n)[..|ToString(n)| - 1] == ToString(n / 10);
    }
  }

  /** A number written to a variable is read back. */
  lemma ParseToString(n: nat)
    requires n < USIZE_LIMIT
    ensures ParseUsize(ToString(n)) == Some(n)
  {
    ValueOfToString(n);
    assert IsDigit(ToString(n)[0]);
  }
}
