/** The texts the two printf engines produce, and when they agree. */
module Format {
  import opened Word32
  import opened Numerals

  /** What a format string can reach: the argument words on the stack, and the strings at non-null addresses. */
  datatype Env = Env(words: nat -> u32, strings: u32 -> string)

  // ----- Pieces both engines share -----

  function StringAt(env: Env, address: u32): string {
    if address == 0 then "(null)" else env.strings(address)
  }

  function LowByte(w: u32): char {
    (w % 256) as char
  }

  // ----- format_vsnprintf -----

  predicate TakesArgument(d: char) {
    d == 'd' || d == 'u' || d == 'x' || d == 'X' || d == 'c' || d == 's'
  }

  /** The text of one directive; `w` is the next argument word. */
  function Directive(d: char, w: u32, env: Env): string {
    if d == 'd' then SignedText(Signed(w))
    else if d == 'u' then Numeral(w, 10, false)
    else if d == 'x' then Numeral(w, 16, false)
    else if d == 'X' then Numeral(w, 16, true)
    else if d == 'c' then [LowByte(w)]
    else if d == 's' then StringAt(env, w)
    else if d == '%' then "%"
    else "%" + [d]
  }

  /** The whole text, of any length, reading arguments from word `ap` on. */
  function FullText(fmt: string, ap: nat, env: Env): string
    decreases |fmt|
  {
    if fmt == "" then ""
    else if fmt[0] != '%' then [fmt[0]] + FullText(fmt[1..], ap, env)
    else if |fmt| == 1 then ""
    else Directive(fmt[1], env.words(ap), env)
         + FullText(fmt[2..], if TakesArgument(fmt[1]) then ap + 1 else ap, env)
  }

  // ----- format_string -----

  function Padding(n: int, zero: bool): (p: string)
    ensures |p| == if n > 0 then n else 0
    ensures forall i :: 0 <= i < |p| ==> p[i] == if zero then '0' else ' '
  {
    if n <= 0 then "" else [if zero then '0' else ' '] + Padding(n - 1, zero)
  }

  /** Right-aligned in a field; a wider number overflows it. */
  function Padded(t: string, width: int, zero: bool): string {
    Padding(width - |t|, zero) + t
  }

  /** The sign comes before the padding and takes one column of the field. */
  function PaddedInt(v: int, width: int, zero: bool): string {
    if v < 0 then "-" + Padded(Numeral(-v, 10, false), if width > 0 then width - 1 else 0, zero)
    else Padded(Numeral(v, 10, false), width, zero)
  }

  function WideDirective(d: char, width: int, zero: bool, w: u32, env: Env): string {
    if d == 'd' then PaddedInt(Signed(w), width, zero)
    else if d == 'u' then Padded(Numeral(w, 10, false), width, zero)
    else if d == 'x' then Padded(Numeral(w, 16, false), width, zero)
    else if d == 'X' then Padded(Numeral(w, 16, true), width, zero)
    else if d == 'p' then "0x" + Padded(Numeral(w, 16, false), 8, true)
    else if d == 's' then StringAt(env, w)
    else if d == 'c' then [LowByte(w)]
    else if d == '%' then "%"
    else "%" + [d]
  }

  /** Length of the digits at the start. */
  function DigitRun(s: string): (k: nat)
    ensures k <= |s| && AllDigits(s[..k])
    ensures k < |s| ==> !IsDigit(s[k])
  {
    if s == "" || !IsDigit(s[0]) then 0
    else
      assert forall i :: 0 < i < 1 + DigitRun(s[1..]) ==> s[i] == s[1..][..DigitRun(s[1..])][i - 1];
      1 + DigitRun(s[1..])
  }

  /** A directive without its `%`: zero flag, width, and what follows them. */
  function AfterZero(s: string): string {
    if s != "" && s[0] == '0' then s[1..] else s
  }

  function WideText(fmt: string, ap: nat, env: Env): string
    decreases |fmt|
  {
    if fmt == "" then ""
    else if fmt[0] != '%' then [fmt[0]] + WideText(fmt[1..], ap, env)
    else
      var field := AfterZero(fmt[1..]);
      var k := DigitRun(field);
      if k == |field| then ""
      else
        var d := field[k];
        WideDirective(d, Value(field[..k], 10), field != fmt[1..], env.words(ap), env)
        + WideText(field[k + 1..], if TakesArgument(d) || d == 'p' then ap + 1 else ap, env)
  }

  // ----- Agreement -----

  /** No directive is `%p` or starts with a digit. */
  predicate IsCommon(fmt: string)
    decreases |fmt|
  {
    if fmt == "" then true
    else if fmt[0] != '%' then IsCommon(fmt[1..])
    else |fmt| == 1 || (fmt[1] != 'p' && !IsDigit(fmt[1]) && IsCommon(fmt[2..]))
  }

  lemma ZeroWidthIsPlain(d: char, w: u32, env: Env)
    requires d != 'p'
    ensures WideDirective(d, 0, false, w, env) == Directive(d, w, env)
  {
  }

  /** On the directives both know, the engines produce the same text for every argument list. */
  lemma {:induction false} EnginesAgree(fmt: string, ap: nat, env: Env)
    requires IsCommon(fmt)
    ensures WideText(fmt, ap, env) == FullText(fmt, ap, env)
    decreases |fmt|
  {
    if fmt == "" {
    } else if fmt[0] != '%' {
      EnginesAgree(fmt[1..], ap, env);
    } else if |fmt| > 1 {
      hide WideDirective, Directive;
      var field := AfterZero(fmt[1..]);
      assert field == fmt[1..] && DigitRun(field) == 0 && field[..0] == "" && field[1..] == fmt[2..];
      ZeroWidthIsPlain(fmt[1], env.words(ap), env);
      EnginesAgree(fmt[2..], if TakesArgument(fmt[1]) then ap + 1 else ap, env);
    }
  }

  // ----- Fields -----

  lemma {:induction false} ZerosAreWorthless(n: int, t: string)
    ensures Value(Padding(n, true) + t, 10) == Value(t, 10)
    decreases |t|, n
  {
    if t != "" {
      var m := |t| - 1;
      assert (Padding(n, true) + t)[..|Padding(n, true)| + m] == Padding(n, true) + t[..m];
      ZerosAreWorthless(n, t[..m]);
    } else if n > 0 {
      var p := Padding(n, true);
      assert p + t == p && p[..n - 1] == Padding(n - 1, true);
      ZerosAreWorthless(n - 1, "");
      assert Padding(n - 1, true) + "" == Padding(n - 1, true);
    } else {
      assert Padding(n, true) + t == t;
    }
  }

  /** A number fills its field exactly unless it needs more, and zero padding does not change its value. */
  lemma FieldsKeepValue(v: int, width: nat)
    ensures |PaddedInt(v, width, true)| == (if |SignedText(v)| < width then width else |SignedText(v)|)
    ensures |PaddedInt(v, width, false)| == |PaddedInt(v, width, true)|
    ensures var t := PaddedInt(v, width, true);
            if v < 0 then t[0] == '-' && Value(t[1..], 10) == -v else Value(t, 10) == v
  {
    hide Numeral, Value;
    var n := Numeral(Abs(v), 10, false);
    NumeralRoundTrip(Abs(v), 10, false);
    var w: int := if v < 0 then (if width > 0 then width - 1 else 0) else width;
    ZerosAreWorthless(w - |n|, n);
    if v < 0 {
      assert PaddedInt(v, width, true)[1..] == Padded(n, w, true);
    }
  }
}
