/** Python's `hex(n)` and `str(n)` for natural numbers, with the parse-back
    that shows the text loses nothing of the number. */
module Numerals {
  import opened Wrappers

  /** `c` is one of the sixteen digits as Python writes them: `0`-`9`, then
      lower-case `a`-`f`. */
  predicate IsHexDigit(c: char) {
    '0' <= c <= '9' || 'a' <= c <= 'f'
  }

  /** The numeric value of a digit character. */
  function DigitValue(c: char): nat
    requires IsHexDigit(c)
  {
    if '0' <= c <= '9' then c as int - 48 else c as int - 87
  }

  /** `c` is a digit of `base`. */
  predicate IsDigitChar(c: char, base: nat) {
    IsHexDigit(c) && DigitValue(c) < base
  }

  /** Euclidean division by a base, as the digit functions use it. */
  lemma DivStep(n: nat, base: nat)
    requires 2 <= base <= n
    ensures 0 < n / base < n && n % base < base
    ensures n == (n / base) * base + n % base
  {
  }

  /** The character Python prints for the digit `d`. */
  function DigitChar(d: nat): (c: char)
    requires d < 16
    ensures IsDigitChar(c, d + 1) && DigitValue(c) == d
    ensures c == '0' <==> d == 0
  {
    if d < 10 then (48 + d) as char else (87 + d) as char
  }

  /** The digits of `n` in `base`, most significant first, without leading zeros. */
  function Digits(n: nat, base: nat): (r: string)
    requires 2 <= base <= 16
    ensures |r| >= 1
    ensures forall i :: 0 <= i < |r| ==> IsDigitChar(r[i], base)
    ensures r[0] == '0' <==> n == 0
    ensures n == 0 ==> r == "0"
    decreases n
  {
    if n < base then [DigitChar(n)]
    else
      DivStep(n, base);
      Digits(n / base, base) + [DigitChar(n % base)]
  }

  /** The number a string of digits denotes in `base`. */
  function Value(s: string, base: nat): nat
    requires 2 <= base <= 16
    requires forall i :: 0 <= i < |s| ==> IsDigitChar(s[i], base)
  {
    if |s| == 0 then 0
    else
      assert IsDigitChar(s[|s| - 1], base);
      Value(s[..|s| - 1], base) * base + DigitValue(s[|s| - 1])
  }

  /** Reading the digits of `n` back gives `n`. */
  lemma {:induction false} ValueOfDigits(n: nat, base: nat)
    requires 2 <= base <= 16
    ensures Value(Digits(n, base), base) == n
    decreases n
  {
    if n >= base {
      var d := Digits(n / base, base);
      var r := d + [DigitChar(n % base)];
      DivStep(n, base);
      ValueOfDigits(n / base, base);
      assert r[..|r| - 1] == d;
      assert Value(r, base) == (n / base) * base + n % base;
    }
  }

  /** Python's `hex(n)` for `n >= 0`. */
  function Hex(n: nat): string {
    "0x" + Digits(n, 16)
  }

  /** Python's `str(n)` for `n >= 0`. */
  function Decimal(n: nat): string {
    Digits(n, 10)
  }

  /** Reading a `0x`-prefixed hexadecimal literal; `None` for anything else. */
  function ParseHex(s: string): Option<nat> {
    if |s| > 2 && s[..2] == "0x" && forall i :: 2 <= i < |s| ==> IsDigitChar(s[i], 16)
    then Some(Value(s[2..], 16))
    else None
  }

  /** `hex(n)` is `0x` followed by lower-case digits with no leading zero
      (unless `n` is zero), and reading it back gives `n`. */
  lemma HexRoundTrip(n: nat)
    ensures |Hex(n)| > 2 && Hex(n)[..2] == "0x"
    ensures forall i :: 2 <= i < |Hex(n)| ==> IsDigitChar(Hex(n)[i], 16) && !('A' <= Hex(n)[i] <= 'Z')
    ensures Hex(n)[2] == '0' <==> n == 0
    ensures ParseHex(Hex(n)) == Some(n)
  {
    var h := Hex(n);
    assert h[2..] == Digits(n, 16);
    ValueOfDigits(n, 16);
  }

  /** `str(n)` is a string of decimal digits with no leading zero (unless `n`
      is zero), and reading it back gives `n`. */
  lemma DecimalRoundTrip(n: nat)
    ensures |Decimal(n)| >= 1 && (Decimal(n)[0] == '0' <==> n == 0)
    ensures forall i :: 0 <= i < |Decimal(n)| ==> '0' <= Decimal(n)[i] <= '9'
    ensures Value(Decimal(n), 10) == n
  {
    ValueOfDigits(n, 10);
  }
}
