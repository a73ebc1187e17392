/** Formatting of integers by `fmt.Sprintf("%v", n)`: an optional minus
    sign followed by the decimal digits, without leading zeros. */
module Decimal {
  import opened Bytes

  const Zero: byte := 0x30
  const Minus: byte := 0x2D

  predicate IsDigit(b: byte) {
    Zero <= b <= Zero + 9
  }

  predicate AllDigits(s: Str) {
    forall i | 0 <= i < |s| :: IsDigit(s[i])
  }

  /** The decimal digits of a natural number. */
  function Digits(n: nat): (s: Str)
    ensures |s| > 0 && AllDigits(s)
    ensures |s| > 1 ==> s[0] != Zero
  {
    if n < 10 then [Zero + n as byte]
    else Digits(n / 10) + [Zero + (n % 10) as byte]
  }

  /** The value of a string of decimal digits (the inverse of Digits). */
  function ValueOf(s: Str): nat
    requires AllDigits(s)
  {
    if s == [] then 0
    else ValueOf(s[..|s| - 1]) * 10 + (s[|s| - 1] - Zero) as int
  }

  /** Reading the digits back gives the number. */
  lemma {:induction false} ValueOfDigits(n: nat)
    ensures ValueOf(Digits(n)) == n
  {
    if n >= 10 {
      var s := Digits(n);
      assert s[..|s| - 1] == Digits(n / 10);
      ValueOfDigits(n / 10);
    }
  }

  /** `%v` applied to an `int`. */
  function Format(n: int): (s: Str)
    ensures |s| > 0
    ensures n >= 0 ==> AllDigits(s)
    ensures n < 0 ==> s[0] == Minus && AllDigits(s[1..])
  {
    if n < 0 then [Minus] + Digits(-n) else Digits(n)
  }

  /** The sign shows in the first byte. */
  lemma FormatSign(n: int)
    ensures Format(n)[0] == Minus <==> n < 0
  {
    if n >= 0 {
      assert IsDigit(Format(n)[0]);
    }
  }

  /** Distinct integers print differently, so a number embedded in an
      address can be recovered from it. */
  lemma FormatInjective(m: int, n: int)
    requires Format(m) == Format(n)
    ensures m == n
  {
    FormatSign(m);
    FormatSign(n);
    if m < 0 && n < 0 {
      DropCons(Minus, Digits(-m));
      DropCons(Minus, Digits(-n));
      ValueOfDigits(-m);
      ValueOfDigits(-n);
    } else if m >= 0 && n >= 0 {
      ValueOfDigits(m);
      ValueOfDigits(n);
    }
  }
}
