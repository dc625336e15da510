/** `std::to_string` on an `int`, which every weight-summary helper of the
    solvers returns: optional `-`, then the decimal digits without leading
    zeros. */
module Decimal {

  function DigitChar(d: int): char
    requires 0 <= d < 10
  {
    "0123456789"[d]
  }

  predicate IsDigit(c: char) {
    '0' <= c <= '9'
  }

  function DigitValue(c: char): int
    requires IsDigit(c)
  {
    c as int - '0' as int
  }

  /** The decimal digits of `n`, most significant first. */
  function NatToString(n: nat): (s: string)
    ensures |s| >= 1 && forall k | 0 <= k < |s| :: IsDigit(s[k])
    ensures s[0] == '0' ==> n == 0
    decreases n
  {
    if n < 10 then [DigitChar(n)] else NatToString(n / 10) + [DigitChar(n % 10)]
  }

  /** `std::to_string(i)`. */
  function IntToString(i: int): (s: string)
    ensures |s| >= 1
    ensures i < 0 <==> s[0] == '-'
  {
    if i < 0 then "-" + NatToString(-i) else NatToString(i)
  }

  /** The value a string of digits denotes. */
  function ParseNat(s: string): nat
    requires forall k | 0 <= k < |s| :: IsDigit(s[k])
  {
    if s == [] then 0 else 10 * ParseNat(s[..|s| - 1]) + DigitValue(s[|s| - 1])
  }

  /** The value a rendered `int` denotes. */
  function ParseInt(s: string): int
    requires |s| >= 1
    requires s[0] == '-' ==> forall k | 1 <= k < |s| :: IsDigit(s[k])
    requires s[0] != '-' ==> forall k | 0 <= k < |s| :: IsDigit(s[k])
  {
    if s[0] == '-' then -(ParseNat(s[1..]) as int) else ParseNat(s)
  }

  lemma DigitRoundTrip(d: int)
    requires 0 <= d < 10
    ensures IsDigit(DigitChar(d)) && DigitValue(DigitChar(d)) == d
  {
  }

  /** Reading the digits of `n` back gives `n`. */
  lemma {:induction false} NatRoundTrip(n: nat)
    ensures ParseNat(NatToString(n)) == n
    decreases n
  {
    var s := NatToString(n);
    if n < 10 {
      DigitRoundTrip(n);
      assert s[..0] == [];
    } else {
      DigitRoundTrip(n % 10);
      assert s[..|s| - 1] == NatToString(n / 10);
      NatRoundTrip(n / 10);
    }
  }

  /** Reading a rendered `int` back gives the `int`: the rendering loses
      nothing, so distinct values render differently. */
  lemma IntRoundTrip(i: int)
    ensures ParseInt(IntToString(i)) == i
  {
    if i < 0 {
      NegativeRoundTrip(i);
    } else {
      NatRoundTrip(i);
    }
  }

  /** A `-` followed by digits reads as the negated digits. */
  lemma ParseNegative(digits: string)
    requires forall k | 0 <= k < |digits| :: IsDigit(digits[k])
    ensures var s := "-" + digits;
            (forall k | 1 <= k < |s| :: IsDigit(s[k])) && ParseInt(s) == -(ParseNat(digits) as int)
  {
    var s := "-" + digits;
    assert s[1..] == digits;
    forall k | 1 <= k < |s|
      ensures IsDigit(s[k])
    {
      assert s[k] == digits[k - 1];
    }
  }

  lemma NegativeRoundTrip(i: int)
    requires i < 0
    ensures ParseInt(IntToString(i)) == i
  {
    NatRoundTrip(-i);
    ParseNegative(NatToString(-i));
  }

  lemma IntToStringInjective(i: int, j: int)
    requires IntToString(i) == IntToString(j)
    ensures i == j
  {
    IntRoundTrip(i);
    IntRoundTrip(j);
  }
}
