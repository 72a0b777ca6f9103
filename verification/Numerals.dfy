/** Positional numerals in the two bases the system prints (10 and 16). */
module Numerals {
  import opened Word32

  ghost predicate IsBase(base: int) {
    base == 10 || base == 16
  }

  function DigitChar(d: nat, upper: bool): char
    requires d < 16
  {
    if d < 10 then '0' + d as char else (if upper then 'A' else 'a') + (d - 10) as char
  }

  /** `hex_char_to_val`: 0 for anything that is not a hexadecimal digit. */
  function HexValue(c: char): (v: nat)
    ensures v < 16
  {
    if '0' <= c <= '9' then c as int - '0' as int
    else if 'a' <= c <= 'f' then c as int - 'a' as int + 10
    else if 'A' <= c <= 'F' then c as int - 'A' as int + 10
    else 0
  }

  predicate IsDigit(c: char) {
    '0' <= c <= '9'
  }

  predicate AllDigits(s: string) {
    forall i :: 0 <= i < |s| ==> IsDigit(s[i])
  }

  // Division by a base that is one of two literals keeps the arithmetic linear.
  function Quotient(n: nat, base: nat): nat
    requires IsBase(base)
  {
    if base == 10 then n / 10 else n / 16
  }

  function Remainder(n: nat, base: nat): (r: nat)
    requires IsBase(base)
    ensures r < base
  {
    if base == 10 then n % 10 else n % 16
  }

  function Scale(n: nat, base: nat): nat
    requires IsBase(base)
  {
    if base == 10 then 10 * n else 16 * n
  }

  /** The digits of `n`, none for zero. */
  function Digits(n: nat, base: nat, upper: bool): string
    requires IsBase(base)
  {
    if n == 0 then "" else Digits(Quotient(n, base), base, upper) + [DigitChar(Remainder(n, base), upper)]
  }

  function Numeral(n: nat, base: nat, upper: bool): string
    requires IsBase(base)
  {
    if n == 0 then "0" else Digits(n, base, upper)
  }

  /** Decimal text of a signed integer. */
  function SignedText(v: int): string {
    if v < 0 then "-" + Numeral(-v, 10, false) else Numeral(v, 10, false)
  }

  /** Horner value of a string of digits. */
  function Value(s: string, base: nat): nat
    requires IsBase(base)
  {
    if s == "" then 0 else Scale(Value(s[..|s| - 1], base), base) + HexValue(s[|s| - 1])
  }

  function Power(base: nat, k: nat): nat
    requires IsBase(base)
  {
    if k == 0 then 1 else Scale(Power(base, k - 1), base)
  }

  lemma DigitCharValue(d: nat, upper: bool)
    requires d < 16
    ensures HexValue(DigitChar(d, upper)) == d
    ensures d < 10 <==> IsDigit(DigitChar(d, upper))
    ensures d == 0 <==> DigitChar(d, upper) == '0'
    ensures DigitChar(d, upper) != '\0'
  {
  }

  const LOWER_DIGITS := "0123456789abcdef"
  const UPPER_DIGITS := "0123456789ABCDEF"

  /** The characters themselves: letters in the case asked for, read back in either, and nothing else has a value. */
  lemma HexDigits(d: nat, c: char)
    requires d < 16
    ensures DigitChar(d, true) == UPPER_DIGITS[d] && DigitChar(d, false) == LOWER_DIGITS[d]
    ensures HexValue(UPPER_DIGITS[d]) == HexValue(LOWER_DIGITS[d]) == d
    ensures c !in UPPER_DIGITS && c !in LOWER_DIGITS ==> HexValue(c) == 0
  {
    assert forall i :: 0 <= i < 10 ==> UPPER_DIGITS[i] == LOWER_DIGITS[i] == '0' + i as char;
    assert forall i :: 10 <= i < 16 ==> UPPER_DIGITS[i] == 'A' + (i - 10) as char;
    assert forall i :: 10 <= i < 16 ==> LOWER_DIGITS[i] == 'a' + (i - 10) as char;
    assert HexValue(c) != 0 ==> c == UPPER_DIGITS[HexValue(c)] || c == LOWER_DIGITS[HexValue(c)];
  }

  lemma {:induction false} DigitsCase(n: nat, base: nat, upper: bool)
    requires IsBase(base)
    ensures forall c <- Digits(n, base, upper) :: c in (if upper then UPPER_DIGITS else LOWER_DIGITS)
  {
    if n > 0 {
      var d := Remainder(n, base);
      HexDigits(d, 'x');
      DigitsCase(Quotient(n, base), base, upper);
      var s := Digits(Quotient(n, base), base, upper);
      var alphabet := if upper then UPPER_DIGITS else LOWER_DIGITS;
      assert DigitChar(d, upper) == alphabet[d];
      hide *;
      assert forall c <- s + [DigitChar(d, upper)] :: c in alphabet;
    }
  }

  /** A numeral uses the letters of its own case only. */
  lemma NumeralCase(n: nat, base: nat, upper: bool)
    requires IsBase(base)
    ensures forall c <- Numeral(n, base, upper) :: c in (if upper then UPPER_DIGITS else LOWER_DIGITS)
  {
    DigitsCase(n, base, upper);
    assert UPPER_DIGITS[0] == LOWER_DIGITS[0] == '0';
  }

  lemma {:induction false} DigitsRoundTrip(n: nat, base: nat, upper: bool)
    requires IsBase(base)
    ensures Value(Digits(n, base, upper), base) == n
    ensures n == 0 <==> Digits(n, base, upper) == ""
    ensures n > 0 ==> Digits(n, base, upper)[0] != '0'
    ensures base == 10 ==> AllDigits(Digits(n, base, upper))
  {
    if n > 0 {
      var q, r := Quotient(n, base), Remainder(n, base);
      DigitsRoundTrip(q, base, upper);
      DigitCharValue(r, upper);
      var s := Digits(q, base, upper);
      assert (s + [DigitChar(r, upper)])[..|s|] == s;
    }
  }

  /** Reading back a printed number gives the number; printed numbers have no leading zero. */
  lemma NumeralRoundTrip(n: nat, base: nat, upper: bool)
    requires IsBase(base)
    ensures Value(Numeral(n, base, upper), base) == n
    ensures Numeral(n, base, upper) != ""
    ensures n > 0 ==> Numeral(n, base, upper)[0] != '0'
    ensures base == 10 ==> AllDigits(Numeral(n, base, upper))
  {
    DigitsRoundTrip(n, base, upper);
    if n == 0 {
      assert "0"[..0] == "";
    }
  }

  lemma {:induction false} DigitsLength(n: nat, base: nat, upper: bool, k: nat)
    requires IsBase(base) && n < Power(base, k)
    ensures |Digits(n, base, upper)| <= k
  {
    if n > 0 {
      DigitsLength(Quotient(n, base), base, upper, k - 1);
    }
  }

  /** Thirty-two bits need at most ten decimal or eight hexadecimal digits. */
  lemma NumeralWidth(v: u32, base: nat, upper: bool)
    requires IsBase(base)
    ensures 1 <= |Numeral(v, base, upper)| <= 10
    ensures base == 16 ==> |Numeral(v, base, upper)| <= 8
    ensures |Digits(v, base, upper)| <= 10
  {
    NumeralRoundTrip(v, base, upper);
    assert Power(16, 8) == MODULUS;
    assert Power(10, 10) == 10_000_000_000;
    DigitsLength(v, base, upper, if base == 10 then 10 else 8);
  }

  /** Different cells print differently. */
  lemma SignedTextInjective(v: int, w: int)
    requires SignedText(v) == SignedText(w)
    ensures v == w
  {
    NumeralRoundTrip(Abs(v), 10, false);
    NumeralRoundTrip(Abs(w), 10, false);
    assert IsDigit(Numeral(Abs(v), 10, false)[0]) && IsDigit(Numeral(Abs(w), 10, false)[0]);
    assert v < 0 ==> SignedText(v)[1..] == Numeral(-v, 10, false);
    assert w < 0 ==> SignedText(w)[1..] == Numeral(-w, 10, false);
  }

  // ----- Digit buffers are filled backwards -----

  function Reversed(s: string): (r: string)
    ensures |r| == |s|
  {
    if s == "" then "" else [s[|s| - 1]] + Reversed(s[..|s| - 1])
  }

  lemma ReversedSnoc(s: string, c: char)
    ensures Reversed(s + [c]) == [c] + Reversed(s)
  {
  }

  lemma Assoc(a: string, b: string, c: string)
    ensures a + b + c == a + (b + c)
  {
  }

  /** One turn of a digit loop: peeling the low digit of `u` into the buffer keeps the text. */
  lemma DigitStep(u: nat, base: nat, upper: bool, buffered: string)
    requires IsBase(base) && u > 0
    ensures Digits(u, base, upper) + Reversed(buffered)
         == Digits(Quotient(u, base), base, upper) + Reversed(buffered + [DigitChar(Remainder(u, base), upper)])
    ensures |Digits(u, base, upper)| == |Digits(Quotient(u, base), base, upper)| + 1
  {
    hide Reversed, DigitChar, Quotient, Remainder;
    var c, d := DigitChar(Remainder(u, base), upper), Digits(Quotient(u, base), base, upper);
    ReversedSnoc(buffered, c);
    assert Digits(u, base, upper) == d + [c];
    hide Digits;
    Assoc(d, [c], Reversed(buffered));
  }

  /** The digit loop of `print_int`, `sink_put_uint` and `fmt_put_uint`: low digit first, no digit for zero. */
  method FillDigits(value: u32, base: nat, upper: bool, buffer: array<char>) returns (n: nat)
    requires IsBase(base) && buffer.Length >= 12
    modifies buffer
    ensures n == |Digits(value, base, upper)| <= 10
    ensures Reversed(buffer[..n]) == Digits(value, base, upper)
  {
    hide Digits, Reversed, Quotient, Remainder, DigitChar;
    var u: int := value;
    n := 0;
    assert buffer[..0] == "";
    NumeralWidth(u, base, upper);
    DigitsEnd(base, upper, "");
    while u > 0
      invariant 0 <= u && n + |Digits(u, base, upper)| == |Digits(value, base, upper)|
      invariant Digits(value, base, upper) == Digits(u, base, upper) + Reversed(buffer[..n])
      decreases u
    {
      DigitStep(u, base, upper, buffer[..n]);
      buffer[n] := DigitChar(Remainder(u, base), upper);
      n := n + 1;
      assert buffer[..n] == buffer[..n - 1] + [DigitChar(Remainder(u, base), upper)];
      QuotientSmaller(u, base);
      u := Quotient(u, base);
    }
    DigitsEnd(base, upper, Reversed(buffer[..n]));
    DigitsEnd(base, upper, "");
    assert |Digits(u, base, upper) + ""| == 0;
  }

  lemma QuotientSmaller(u: nat, base: nat)
    requires IsBase(base) && u > 0
    ensures Quotient(u, base) < u
  {
  }

  /** The characters `print_int` and `fmt_put_uint` buffer: one zero for the number zero. */
  method FillNumeral(value: u32, base: nat, upper: bool, buffer: array<char>) returns (n: nat)
    requires IsBase(base) && buffer.Length >= 12
    modifies buffer
    ensures n == |Numeral(value, base, upper)| <= 10
    ensures Reversed(buffer[..n]) == Numeral(value, base, upper)
  {
    n := 0;
    if value == 0 {
      buffer[0] := '0';
      n := 1;
      assert buffer[..1] == "0" && "0"[..0] == "";
    } else {
      n := FillDigits(value, base, upper, buffer);
    }
  }

  lemma DigitsEnd(base: nat, upper: bool, t: string)
    requires IsBase(base)
    ensures Digits(0, base, upper) + t == t
    ensures Reversed("") == ""
  {
  }
}
