/** What the directives of the two printf engines print. */
module FormatMeaning {
  import opened Word32
  import opened Numerals
  import opened Format
  import opened FormatAgreement

  // ----- Values -----

  /** The digits of `n` in decimal or, with letters in the case asked for, hexadecimal; a leading zero only for zero. */
  ghost predicate Shows(t: string, n: nat, base: nat, upper: bool)
    requires IsBase(base)
  {
    && t != "" && Value(t, base) == n && (t[0] == '0' ==> t == "0")
    && (forall c <- t :: c in (if upper then "0123456789ABCDEF" else "0123456789abcdef"))
    && (base == 10 ==> AllDigits(t))
  }

  lemma NumeralShows(n: nat, base: nat, upper: bool)
    requires IsBase(base)
    ensures Shows(Numeral(n, base, upper), n, base, upper)
  {
    NumeralRoundTrip(n, base, upper);
    NumeralCase(n, base, upper);
    hide Value, Digits;
    assert n == 0 ==> Numeral(n, base, upper) == "0";
  }

  /** A minus sign and the digits of the opposite, or the digits. */
  ghost predicate ShowsInt(t: string, v: int) {
    if v < 0 then t != "" && t[0] == '-' && Shows(t[1..], -v, 10, false) else Shows(t, v, 10, false)
  }

  lemma SignedTextShows(v: int)
    ensures ShowsInt(SignedText(v), v)
  {
    NumeralShows(Abs(v), 10, false);
    hide Shows, Numeral;
    if v < 0 {
      assert SignedText(v)[1..] == Numeral(-v, 10, false);
    }
  }

  /** What a directive prints for the argument word `w`, in either engine when it has no width. */
  ghost predicate Prints(t: string, d: char, w: u32, env: Env) {
    match d
    case 'd' => ShowsInt(t, if w < 0x8000_0000 then w else w - 0x1_0000_0000)
    case 'u' => Shows(t, w, 10, false)
    case 'x' => Shows(t, w, 16, false)
    case 'X' => Shows(t, w, 16, true)
    case 'c' => |t| == 1 && t[0] as int == w % 256
    case 's' => t == (if w == 0 then "(null)" else env.strings(w))
    case '%' => t == "%"
    case _ => t == ['%', d]
  }

  lemma DirectivePrints(d: char, w: u32, env: Env)
    ensures Prints(Directive(d, w, env), d, w, env)
  {
    SignedTextShows(Signed(w));
    NumeralShows(w, 10, false);
    NumeralShows(w, 16, false);
    NumeralShows(w, 16, true);
    hide Shows, ShowsInt, Numeral, SignedText;
  }

  // ----- The engine without fields -----

  /** Plain text is copied, and a `%` at the very end is dropped. */
  lemma {:induction false} PlainIsCopied(a: string, rest: string, ap: nat, env: Env)
    requires '%' !in a
    ensures FullText(a + rest, ap, env) == a + FullText(rest, ap, env)
    ensures FullText("%", ap, env) == FullText("", ap, env) == ""
    decreases |a|
  {
    if a == "" {
      assert a + rest == rest;
    } else {
      assert (a + rest)[0] == a[0] && (a + rest)[1..] == a[1..] + rest;
      PlainIsCopied(a[1..], rest, ap, env);
    }
  }

  /** A directive prints its argument, and the ones that take one use up one argument word. */
  lemma DirectiveMeans(d: char, rest: string, ap: nat, env: Env) returns (t: string)
    ensures FullText(['%', d] + rest, ap, env)
         == t + FullText(rest, if d in ['d', 'u', 'x', 'X', 'c', 's'] then ap + 1 else ap, env)
    ensures Prints(t, d, env.words(ap), env)
  {
    t := Directive(d, env.words(ap), env);
    DirectivePrints(d, env.words(ap), env);
    hide Directive, Prints;
    assert (['%', d] + rest)[2..] == rest;
  }

  // ----- The engine with fields -----

  /** A field: how a directive is written with a zero flag and a width, zero for none. */
  function Field(zero: bool, width: nat, d: char): string {
    (if zero then "0" else "") + (if width > 0 then Numeral(width, 10, false) else "") + [d]
  }

  /** Right-aligned to the width with blanks or zeros. */
  ghost predicate Fills(t: string, body: string, width: int, zero: bool) {
    && |t| == (if |body| < width then width else |body|)
    && t[|t| - |body|..] == body
    && forall i :: 0 <= i < |t| - |body| ==> t[i] == if zero then '0' else ' '
  }

  lemma PaddedFills(body: string, width: int, zero: bool)
    ensures Fills(Padded(body, width, zero), body, width, zero)
  {
    var pad := Padding(width - |body|, zero);
    assert (pad + body)[|pad|..] == body;
  }

  /** The numeral of `n` in such a field. */
  ghost predicate NumberField(t: string, n: nat, base: nat, upper: bool, width: int, zero: bool)
    requires IsBase(base)
  {
    exists body :: Shows(body, n, base, upper) && Fills(t, body, width, zero)
  }

  lemma PaddedNumeral(n: nat, base: nat, upper: bool, width: int, zero: bool)
    requires IsBase(base)
    ensures NumberField(Padded(Numeral(n, base, upper), width, zero), n, base, upper, width, zero)
  {
    NumeralShows(n, base, upper);
    PaddedFills(Numeral(n, base, upper), width, zero);
    hide Shows, Fills, Padded, Numeral;
  }

  /** What a field prints: numbers fill it, a minus sign standing before the padding; nothing else has a width. */
  ghost predicate FieldPrints(t: string, d: char, width: nat, zero: bool, w: u32, env: Env) {
    match d
    case 'd' =>
      if w < 0x8000_0000 then NumberField(t, w, 10, false, width, zero)
      else t != "" && t[0] == '-' && NumberField(t[1..], 0x1_0000_0000 - w, 10, false, width - 1, zero)
    case 'u' => NumberField(t, w, 10, false, width, zero)
    case 'x' => NumberField(t, w, 16, false, width, zero)
    case 'X' => NumberField(t, w, 16, true, width, zero)
    case 'p' => t != "" && t[0] == '0' && t[1..] != "" && t[1] == 'x' && NumberField(t[2..], w, 16, false, 8, true)
    case _ => Prints(t, d, w, env)
  }

  lemma WideDirectivePrints(d: char, width: nat, zero: bool, w: u32, env: Env)
    ensures FieldPrints(WideDirective(d, width, zero, w, env), d, width, zero, w, env)
  {
    hide NumberField, Padded, Prints, Numeral;
    if d == 'd' {
      IntFieldPrints(width, zero, w, env);
    } else if d == 'p' {
      PaddedNumeral(w, 16, false, 8, true);
      var body := Padded(Numeral(w, 16, false), 8, true);
      assert ("0x" + body)[2..] == body;
    } else if d in ['u', 'x', 'X'] {
      PaddedNumeral(w, if d == 'u' then 10 else 16, d == 'X', width, zero);
    } else {
      DirectivePrints(d, w, env);
      ZeroWidthIsPlain(d, w, env);
    }
  }

  lemma IntFieldPrints(width: nat, zero: bool, w: u32, env: Env)
    ensures FieldPrints(PaddedInt(Signed(w), width, zero), 'd', width, zero, w, env)
  {
    hide NumberField, Padded, Numeral;
    if Signed(w) < 0 {
      var inner := if width > 0 then width - 1 else 0;
      PaddedNumeral(0x1_0000_0000 - w, 10, false, inner, zero);
      NoRoom(Padded(Numeral(0x1_0000_0000 - w, 10, false), inner, zero), 0x1_0000_0000 - w, zero);
      assert PaddedInt(Signed(w), width, zero)[1..] == Padded(Numeral(0x1_0000_0000 - w, 10, false), inner, zero);
    } else {
      PaddedNumeral(w, 10, false, width, zero);
    }
  }

  /** A field too small for anything is as good as none. */
  lemma NoRoom(t: string, n: nat, zero: bool)
    ensures NumberField(t, n, 10, false, 0, zero) ==> NumberField(t, n, 10, false, -1, zero)
  {
    hide Shows;
    if NumberField(t, n, 10, false, 0, zero) {
      var body :| Shows(body, n, 10, false) && Fills(t, body, 0, zero);
      assert Fills(t, body, -1, zero);
    }
  }

  lemma {:induction false} RunEnds(digits: string, d: char, rest: string)
    requires AllDigits(digits) && !IsDigit(d)
    ensures DigitRun(digits + ([d] + rest)) == |digits|
    decreases |digits|
  {
    var s := digits + ([d] + rest);
    if digits == "" {
      assert s[0] == d;
    } else {
      assert s[0] == digits[0] && s[1..] == digits[1..] + ([d] + rest);
      RunEnds(digits[1..], d, rest);
    }
  }

  lemma RunParts(digits: string, d: char, rest: string)
    requires AllDigits(digits) && !IsDigit(d) && (digits != "" ==> digits[0] != '0')
    ensures var tail := digits + ([d] + rest);
            && DigitRun(tail) == |digits| < |tail|
            && tail[..|digits|] == digits && tail[|digits|] == d && tail[|digits| + 1..] == rest
            && AfterZero(tail) == tail && AfterZero("0" + tail) == tail
  {
    RunEnds(digits, d, rest);
    hide DigitRun;
    var tail := digits + ([d] + rest);
    assert tail[0] != '0';
    assert ("0" + tail)[1..] == tail;
  }

  lemma WidthDigits(width: nat)
    ensures var digits := if width > 0 then Numeral(width, 10, false) else "";
            && AllDigits(digits) && (digits != "" ==> digits[0] != '0') && Value(digits, 10) == width
  {
    NumeralRoundTrip(width, 10, false);
    hide Numeral;
  }

  lemma FieldText(zero: bool, digits: string, d: char, rest: string)
    ensures (if zero then "0" else "") + digits + [d] + rest
         == if zero then "0" + (digits + ([d] + rest)) else digits + ([d] + rest)
  {
    if !zero {
      assert "" + digits + [d] + rest == digits + ([d] + rest);
    } else {
      assert "0" + digits + [d] + rest == "0" + (digits + ([d] + rest));
    }
  }

  /** The text after a `%` taken apart: its zero flag, the digits of its width, and the directive. */
  lemma FieldIsRead(zero: bool, width: nat, d: char, rest: string)
    requires !IsDigit(d)
    ensures var s := Field(zero, width, d) + rest;
            var field := AfterZero(s);
            var k := DigitRun(field);
            && (field != s <==> zero) && k < |field| && field[k] == d && field[k + 1..] == rest
            && Value(field[..k], 10) == width
  {
    var digits := if width > 0 then Numeral(width, 10, false) else "";
    WidthDigits(width);
    RunParts(digits, d, rest);
    FieldText(zero, digits, d, rest);
    hide Numeral, AfterZero, DigitRun, Value;
    var tail := digits + ([d] + rest);
    assert |"0" + tail| != |tail|;
  }

  /** A field prints its argument as above, and the ones that take one use up one argument word. */
  lemma FieldMeans(zero: bool, width: nat, d: char, rest: string, ap: nat, env: Env) returns (t: string)
    requires !('0' <= d <= '9')
    ensures WideText("%" + (Field(zero, width, d) + rest), ap, env)
         == t + WideText(rest, if d in ['d', 'u', 'x', 'X', 'c', 's', 'p'] then ap + 1 else ap, env)
    ensures FieldPrints(t, d, width, zero, env.words(ap), env)
  {
    t := WideDirective(d, width, zero, env.words(ap), env);
    WideDirectivePrints(d, width, zero, env.words(ap), env);
    TakersWithPointer(d);
    var s := Field(zero, width, d) + rest;
    FieldIsRead(zero, width, d, rest);
    hide *;
    WideStep(s, ap, env);
  }

  lemma TakersWithPointer(d: char)
    ensures TakesArgument(d) || d == 'p' <==> d in ['d', 'u', 'x', 'X', 'c', 's', 'p']
  {
  }

  /** Plain text is copied. */
  lemma {:induction false} PlainIsCopiedToo(a: string, rest: string, ap: nat, env: Env)
    requires '%' !in a
    ensures WideText(a + rest, ap, env) == a + WideText(rest, ap, env)
    decreases |a|
  {
    if a == "" {
      assert a + rest == rest;
    } else {
      WidePlain(a[0], a[1..] + rest, ap, env);
      PlainIsCopiedToo(a[1..], rest, ap, env);
      hide WideText;
      assert a == [a[0]] + a[1..];
      Assoc([a[0]], a[1..], rest);
      Assoc([a[0]], a[1..], WideText(rest, ap, env));
    }
  }

  lemma WidePlain(c: char, rest: string, ap: nat, env: Env)
    requires c != '%'
    ensures WideText([c] + rest, ap, env) == [c] + WideText(rest, ap, env)
  {
    hide WideDirective, DigitRun;
    assert ([c] + rest)[1..] == rest;
  }

  /** A field that the end of the format cuts off prints nothing. */
  lemma UnfinishedField(digits: string, ap: nat, env: Env)
    requires AllDigits(digits)
    ensures WideText("%" + digits, ap, env) == ""
  {
    hide WideText;
    var _, _, _ := WideField(digits, ap, env);
    AllRun(digits);
  }

  lemma {:induction false} AllRun(digits: string)
    requires AllDigits(digits)
    ensures DigitRun(digits) == |digits|
    decreases |digits|
  {
    if digits != "" {
      AllRun(digits[1..]);
    }
  }
}
