/** The pieces of java.lang the harness relies on: StringBuilder,
    String.contains and String.valueOf(int). */
module Text {

  /** A java.lang.StringBuilder restricted to append and toString. */
  class StringBuilder {
    var contents: string

    constructor ()
      ensures contents == ""
    {
      contents := "";
    }

    method Append(s: string)
      modifies this
      ensures contents == old(contents) + s
    {
      contents := contents + s;
    }
  }

  /** `sub` occurs in `s` at some position (String.contains; the empty string occurs everywhere). */
  predicate IsSubstring(sub: string, s: string) {
    exists i :: 0 <= i <= |s| && OccursAt(sub, s, i)
  }

  /** `sub` occurs in `s` starting at position `i`. */
  predicate OccursAt(sub: string, s: string, i: nat) {
    i + |sub| <= |s| && s[i..i + |sub|] == sub
  }

  /** String.contains: scans the start positions of `s` from left to right. */
  method ContainsSubstring(s: string, sub: string) returns (found: bool)
    ensures found <==> IsSubstring(sub, s)
  {
    if |sub| > |s| {
      return false;
    }
    var i := 0;
    while i <= |s| - |sub|
      invariant 0 <= i <= |s| - |sub| + 1
      invariant forall j :: 0 <= j < i ==> !OccursAt(sub, s, j)
    {
      if s[i..i + |sub|] == sub {
        assert OccursAt(sub, s, i);
        return true;
      }
      i := i + 1;
    }
    return false;
  }

  /** Java's 32-bit `int`. */
  newtype int32 = x: int | -0x8000_0000 <= x < 0x8000_0000

  predicate IsDigit(c: char) {
    '0' <= c <= '9'
  }

  predicate AllDigits(s: string) {
    forall i :: 0 <= i < |s| ==> IsDigit(s[i])
  }

  function DigitChar(d: nat): (c: char)
    requires d < 10
    ensures IsDigit(c)
  {
    ('0' as int + d) as char
  }

  function DigitValue(c: char): nat
    requires IsDigit(c)
  {
    c as int - '0' as int
  }

  /** The decimal numeral of a number read back from its digits. */
  function DecimalValue(s: string): nat
    requires AllDigits(s)
  {
    if s == [] then 0 else DecimalValue(s[..|s| - 1]) * 10 + DigitValue(s[|s| - 1])
  }

  /** The decimal numeral of `n`: digits only, with no leading zero. */
  function NatToDecimal(n: nat): (r: string)
    ensures |r| >= 1 && AllDigits(r)
    ensures r[0] == '0' ==> n == 0
  {
    if n < 10 then [DigitChar(n)] else NatToDecimal(n / 10) + [DigitChar(n % 10)]
  }

  /** String.valueOf(int): a minus sign for negative numbers, then the numeral of the magnitude. */
  function IntToDecimal(n: int): (r: string)
    ensures |r| >= 1 && (r[0] == '-' <==> n < 0)
    ensures var digits := if n < 0 then r[1..] else r;
            AllDigits(digits) && DecimalValue(digits) == if n < 0 then -n else n
    ensures var digits := if n < 0 then r[1..] else r;
            |digits| >= 1 && (digits[0] == '0' ==> n == 0)
    ensures n == 0 ==> r == "0"
  {
    if n < 0 then
      NatToDecimalValue(-n);
      assert ("-" + NatToDecimal(-n))[1..] == NatToDecimal(-n);
      "-" + NatToDecimal(-n)
    else
      NatToDecimalValue(n);
      NatToDecimal(n)
  }

  lemma {:induction false} NatToDecimalValue(n: nat)
    ensures DecimalValue(NatToDecimal(n)) == n
  {
    if n >= 10 {
      var r := NatToDecimal(n);
      assert r[..|r| - 1] == NatToDecimal(n / 10);
      NatToDecimalValue(n / 10);
    }
  }

  lemma NatToDecimalInjective(a: nat, b: nat)
    requires NatToDecimal(a) == NatToDecimal(b)
    ensures a == b
  {
    NatToDecimalValue(a);
    NatToDecimalValue(b);
  }

  /** Different numbers have different numerals, so distinct random ids give distinct strings. */
  lemma IntToDecimalInjective(a: int, b: int)
    requires IntToDecimal(a) == IntToDecimal(b)
    ensures a == b
  {
    if a < 0 && b < 0 {
      assert NatToDecimal(-a) == IntToDecimal(a)[1..];
      assert NatToDecimal(-b) == IntToDecimal(b)[1..];
      NatToDecimalInjective(-a, -b);
    } else if a >= 0 && b >= 0 {
      NatToDecimalInjective(a, b);
    }
  }
}
