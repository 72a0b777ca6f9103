/** Both printf engines as they run, one byte at a time into a bounded buffer. */
module FormatMachine {
  import opened Word32
  import opened Numerals
  import opened CStrings
  import opened Format

  /** The last byte of the buffer is kept for the NUL. */
  function Kept(length: nat, size: int): (m: nat)
    ensures m <= length
  {
    if size <= 0 then 0 else if length < size then length else size - 1
  }

  /** A buffer that held `initial` once `text` has been sent to it. */
  function Stored(initial: seq<char>, text: string, size: int): (s: seq<char>)
    requires size <= |initial|
    ensures |s| == |initial|
  {
    var m := Kept(|text|, size);
    text[..m] + initial[m..]
  }

  /** The same after the final NUL, which goes in unless the buffer has no room at all. */
  function Printed(initial: seq<char>, text: string, size: int): (s: seq<char>)
    requires size <= |initial|
    ensures |s| == |initial|
  {
    if size <= 0 then initial else Stored(initial, text, size)[Kept(|text|, size) := '\0']
  }

  /** The snprintf contract: as much of the text as leaves room for a NUL, the NUL, and nothing else touched. */
  lemma PrintedContract(initial: seq<char>, text: string, size: int)
    requires size <= |initial|
    ensures var p := Printed(initial, text, size);
            var m := if |text| < size then |text| else size - 1;
            if size <= 0 then p == initial
            else p[..m] == text[..m] && p[m] == '\0' && p[m + 1..] == initial[m + 1..]
  {
  }

  lemma StoredSnoc(initial: seq<char>, text: string, size: int, c: char)
    requires size <= |initial|
    ensures Stored(initial, text + [c], size)
         == if |text| + 1 < size then Stored(initial, text, size)[|text| := c] else Stored(initial, text, size)
  {
  }

  // ----- format_vsnprintf: counts everything, stores what fits -----

  class Sink {
    const buf: array?<char>
    const size: nat
    var written: nat
    ghost var text: string
    ghost const initial: seq<char>

    ghost predicate Valid()
      reads this, buf
    {
      && written == |text|
      && (buf != null ==> size <= buf.Length == |initial| && buf[..] == Stored(initial, text, size))
    }

    constructor (buf: array?<char>, size: nat)
      requires buf != null ==> size <= buf.Length
      ensures Valid() && this.buf == buf && this.size == size && text == ""
      ensures buf != null ==> initial == buf[..]
    {
      this.buf, this.size := buf, size;
      written, text := 0, "";
      initial := if buf == null then [] else buf[..];
    }

    method Putc(c: char)
      requires Valid()
      modifies this, buf
      ensures Valid() && text == old(text) + [c]
    {
      if buf != null {
        StoredSnoc(initial, text, size, c);
      }
      if buf != null && written + 1 < size {
        buf[written] := c;
      }
      written := written + 1;
      text := text + [c];
    }

    method Puts(s: string)
      requires Valid()
      modifies this, buf
      ensures Valid() && text == old(text) + s
    {
      hide Valid;
      var i := 0;
      while i < |s|
        invariant Valid() && 0 <= i <= |s| && text == old(text) + s[..i]
      {
        Putc(s[i]);
        i := i + 1;
      }
    }

    method PutUint(value: u32, base: nat, upper: bool)
      requires Valid() && IsBase(base)
      modifies this, buf
      ensures Valid() && text == old(text) + Numeral(value, base, upper)
    {
      if value == 0 {
        Putc('0');
        return;
      }
      hide Digits, Reversed, Valid;
      var digits := new char[32];
      var idx := FillDigits(value, base, upper, digits);
      Drain(digits, idx);
    }

    method Drain(digits: array<char>, length: nat)
      requires Valid() && length <= digits.Length && digits != buf
      modifies this, buf
      ensures Valid() && text == old(text) + Reversed(digits[..length])
    {
      hide Reversed, Valid;
      ghost var all := Reversed(digits[..length]);
      var idx := length;
      while idx > 0
        invariant Valid() && 0 <= idx <= length
        invariant digits[..] == old(digits[..])
        invariant text + Reversed(digits[..idx]) == old(text) + all
      {
        idx := idx - 1;
        assert digits[..idx + 1] == digits[..idx] + [digits[idx]];
        ReversedSnoc(digits[..idx], digits[idx]);
        Putc(digits[idx]);
      }
      assert digits[..0] == "";
      DigitsEnd(10, false, "");
    }

    method PutInt(value: int)
      requires Valid() && -SIGN_BIT <= value < SIGN_BIT
      modifies this, buf
      ensures Valid() && text == old(text) + SignedText(value)
    {
      hide Valid, Numeral;
      if value < 0 {
        Putc('-');
        PutUint(-(value + 1) + 1, 10, false);
        return;
      }
      PutUint(value, 10, false);
    }

    /** The switch of `format_vsnprintf`. */
    method PutDirective(d: char, ap: nat, env: Env) returns (next: nat)
      requires Valid()
      modifies this, buf
      ensures Valid() && text == old(text) + Directive(d, env.words(ap), env)
      ensures next == if TakesArgument(d) then ap + 1 else ap
    {
      hide Valid, Numeral, SignedText;
      var w: u32 := env.words(ap);
      next := ap + 1;
      if d == 'd' {
        SignedWrap(w);
        PutInt(Signed(w));
      } else if d == 'u' {
        PutUint(w, 10, false);
      } else if d == 'x' {
        PutUint(w, 16, false);
      } else if d == 'X' {
        PutUint(w, 16, true);
      } else if d == 'c' {
        Putc(LowByte(w));
      } else if d == 's' {
        if w == 0 {
          Puts("(null)");
        } else {
          Puts(env.strings(w));
        }
      } else if d == '%' {
        Putc('%');
        next := ap;
      } else {
        Putc('%');
        Putc(d);
        next := ap;
      }
    }

    method Finish() returns (r: int)
      requires Valid()
      modifies this, buf
      ensures r == |text| == |old(text)|
      ensures buf != null ==> buf[..] == Printed(initial, old(text), size)
    {
      if buf != null && size > 0 {
        var term := if written < size then written else size - 1;
        buf[term] := '\0';
      }
      r := written;
    }
  }

  lemma TextStep(fmt: string, i: nat, ap: nat, env: Env)
    requires i < |fmt|
    ensures fmt[i] != '%' ==> FullText(fmt[i..], ap, env) == [fmt[i]] + FullText(fmt[i + 1..], ap, env)
    ensures fmt[i] == '%' && i + 1 == |fmt| ==> FullText(fmt[i..], ap, env) == ""
    ensures fmt[i] == '%' && i + 1 < |fmt| ==>
              FullText(fmt[i..], ap, env)
              == Directive(fmt[i + 1], env.words(ap), env)
                 + FullText(fmt[i + 2..], if TakesArgument(fmt[i + 1]) then ap + 1 else ap, env)
  {
  }

  /** The length does not depend on the buffer; the buffer holds as much as fits and a NUL. */
  method Vsnprintf(buf: array?<char>, size: nat, fmt: string, env: Env) returns (r: int)
    requires buf != null ==> size <= buf.Length
    modifies buf
    ensures r == |FullText(fmt, 0, env)|
    ensures buf != null ==> buf[..] == Printed(old(buf[..]), FullText(fmt, 0, env), size)
  {
    hide FullText, Directive, Stored, Printed;
    ghost var all := FullText(fmt, 0, env);
    var sink := new Sink(buf, size);
    var i, ap := 0, 0;
    assert fmt[0..] == fmt && "" + all == all;
    while i < |fmt|
      invariant 0 <= i <= |fmt| && sink.Valid() && fresh(sink)
      invariant all == sink.text + FullText(fmt[i..], ap, env)
    {
      TextStep(fmt, i, ap, env);
      ghost var before := sink.text;
      if fmt[i] != '%' {
        sink.Putc(fmt[i]);
        Assoc(before, [fmt[i]], FullText(fmt[i + 1..], ap, env));
        i := i + 1;
        continue;
      }
      i := i + 1;
      if i == |fmt| {
        assert all == sink.text + "" == sink.text;
        break;
      }
      var next := sink.PutDirective(fmt[i], ap, env);
      Assoc(before, Directive(fmt[i], env.words(ap), env), FullText(fmt[i + 1..], next, env));
      ap := next;
      i := i + 1;
    }
    TextEnd(fmt, i, ap, env, sink.text);
    r := sink.Finish();
  }

  lemma TextEnd(fmt: string, i: nat, ap: nat, env: Env, text: string)
    requires i == |fmt|
    ensures text + FullText(fmt[i..], ap, env) == text
  {
  }

  // ----- serial_print_port: measure, then print -----

  /** What the port is sent for a text: a carriage return before every newline. */
  function WithReturns(s: string): string {
    if s == "" then ""
    else WithReturns(s[..|s| - 1]) + if s[|s| - 1] == '\n' then "\r\n" else [s[|s| - 1]]
  }

  /** `serial_write_port`, with the port's output returned. */
  method SerialWrite(buf: array<char>) returns (sent: string)
    requires Terminated(buf[..])
    ensures sent == WithReturns(Text(buf[..]))
  {
    hide Text, WithReturns;
    ghost var text := Text(buf[..]);
    sent := "";
    var i := 0;
    ReturnsNothing();
    assert text[..0] == "";
    while buf[i] != '\0'
      invariant 0 <= i <= |text|
      invariant sent == WithReturns(text[..i])
      decreases |text| - i
    {
      assert text[..i + 1] == text[..i] + [buf[i]];
      ReturnsSnoc(text[..i], buf[i]);
      if buf[i] == '\n' {
        assert sent + "\r\n" == sent + ['\r'] + [buf[i]];
        sent := sent + ['\r'];
      }
      sent := sent + [buf[i]];
      i := i + 1;
    }
    assert text[..i] == text;
  }

  /** The second pass never truncates: all of the text goes out, up to a NUL that `%c` may have put in it. */
  method SerialPrint(fmt: string, env: Env) returns (sent: string)
    ensures sent == WithReturns(Text(FullText(fmt, 0, env)))
  {
    hide FullText, Printed, Text;
    var len := Vsnprintf(null, 0, fmt, env);
    ghost var text := FullText(fmt, 0, env);
    if len <= 0 {
      ReturnsNothing();
      return "";
    }
    var buf := new char[len + 1];
    ghost var initial := buf[..];
    var _ := Vsnprintf(buf, len + 1, fmt, env);
    WholeFits(initial, text);
    TextOfWhole(text);
    sent := SerialWrite(buf);
  }

  lemma ReturnsNothing()
    ensures Text("") == "" && WithReturns("") == ""
  {
  }

  lemma ReturnsSnoc(s: string, c: char)
    ensures WithReturns(s + [c]) == WithReturns(s) + if c == '\n' then "\r\n" else [c]
  {
  }

  /** Takes out the carriage return before each newline. */
  function WithoutReturns(sent: string): string {
    var n := |sent| - 1;
    if sent == "" then ""
    else if sent[n] == '\n' && n > 0 && sent[n - 1] == '\r' then WithoutReturns(sent[..n - 1]) + ['\n']
    else WithoutReturns(sent[..n]) + [sent[n]]
  }

  ghost predicate ReturnsFirst(sent: string) {
    forall i :: 0 <= i < |sent| && sent[i] == '\n' ==> i > 0 && sent[i - 1] == '\r'
  }

  lemma NewlineSent(sent: string)
    ensures ReturnsFirst(sent) ==> ReturnsFirst(sent + "\r\n")
    ensures WithoutReturns(sent + "\r\n") == WithoutReturns(sent) + ['\n']
  {
    var x, n := sent + "\r\n", |sent| + 1;
    assert |x| == n + 1 && x[n] == '\n' && x[n - 1] == '\r' && x[..n - 1] == sent;
    assert forall i :: 0 <= i < |sent| ==> x[i] == sent[i];
    hide WithoutReturns;
    assert ReturnsFirst(sent) ==> ReturnsFirst(x);
  }

  lemma OtherSent(sent: string, c: char)
    requires c != '\n'
    ensures ReturnsFirst(sent) ==> ReturnsFirst(sent + [c])
    ensures WithoutReturns(sent + [c]) == WithoutReturns(sent) + [c]
  {
    var x := sent + [c];
    assert x[|sent|] == c && x[..|sent|] == sent;
  }

  /** A carriage return stands before every newline sent, and without those the text is as it was. */
  lemma {:induction false} ReturnsBeforeNewlines(s: string)
    ensures ReturnsFirst(WithReturns(s)) && WithoutReturns(WithReturns(s)) == s
    decreases |s|
  {
    if s != "" {
      hide WithReturns, WithoutReturns, ReturnsFirst;
      var before, c := s[..|s| - 1], s[|s| - 1];
      assert s == before + [c];
      ReturnsBeforeNewlines(before);
      ReturnsSnoc(before, c);
      if c == '\n' {
        NewlineSent(WithReturns(before));
      } else {
        OtherSent(WithReturns(before), c);
      }
    }
  }

  /** A buffer of the measured length plus one holds the whole text. */
  lemma WholeFits(initial: seq<char>, text: string)
    requires |initial| == |text| + 1
    ensures Printed(initial, text, |text| + 1) == text + "\0"
  {
  }

  lemma {:induction false} TextOfWhole(text: string)
    ensures Terminated(text + "\0") && Text(text + "\0") == Text(text)
  {
    if text != "" && text[0] != '\0' {
      assert (text + "\0")[1..] == text[1..] + "\0";
      TextOfWhole(text[1..]);
    }
  }

  // ----- format_string: counts only what it stores -----

  class Out {
    const buf: array<char>
    const maxLen: int
    var idx: int
    ghost var text: string
    ghost const initial: seq<char>

    ghost predicate Valid()
      reads this, buf
    {
      && idx == Kept(|text|, maxLen) && maxLen <= buf.Length == |initial|
      && buf[..] == Stored(initial, text, maxLen)
    }

    constructor (buf: array<char>, maxLen: int)
      requires maxLen <= buf.Length
      ensures Valid() && this.buf == buf && this.maxLen == maxLen && text == "" && initial == buf[..]
    {
      this.buf, this.maxLen := buf, maxLen;
      idx, text := 0, "";
      initial := buf[..];
    }

    method Putc(c: char)
      requires Valid()
      modifies this, buf
      ensures Valid() && text == old(text) + [c]
    {
      StoredSnoc(initial, text, maxLen, c);
      if idx < maxLen - 1 {
        buf[idx] := c;
        idx := idx + 1;
      }
      text := text + [c];
    }

    method Puts(s: string)
      requires Valid()
      modifies this, buf
      ensures Valid() && text == old(text) + s
    {
      hide Valid;
      var i := 0;
      while i < |s|
        invariant Valid() && 0 <= i <= |s| && text == old(text) + s[..i]
      {
        Putc(s[i]);
        i := i + 1;
      }
    }

    method Pad(count: int, zero: bool)
      requires Valid()
      modifies this, buf
      ensures Valid() && text == old(text) + Padding(count, zero)
    {
      hide Valid;
      var pad := 0;
      while pad < count
        invariant Valid() && 0 <= pad && (count >= 0 ==> pad <= count) && (count < 0 ==> pad == 0)
        invariant text + Padding(count - pad, zero) == old(text) + Padding(count, zero)
      {
        Putc(if zero then '0' else ' ');
        pad := pad + 1;
      }
    }

    method PutUint(value: u32, base: nat, upper: bool, width: int, zero: bool)
      requires Valid() && IsBase(base)
      modifies this, buf
      ensures Valid() && text == old(text) + Padded(Numeral(value, base, upper), width, zero)
    {
      hide Numeral, Reversed, Valid, Padding;
      var tmp := new char[32];
      var n := FillNumeral(value, base, upper, tmp);
      Pad(width - n, zero);
      Drain(tmp, n);
    }

    method Drain(tmp: array<char>, length: nat)
      requires Valid() && length <= tmp.Length && tmp != buf
      modifies this, buf
      ensures Valid() && text == old(text) + Reversed(tmp[..length])
    {
      hide Reversed, Valid;
      ghost var all := Reversed(tmp[..length]);
      var n := length;
      while n > 0
        invariant Valid() && 0 <= n <= length
        invariant tmp[..] == old(tmp[..])
        invariant text + Reversed(tmp[..n]) == old(text) + all
      {
        n := n - 1;
        assert tmp[..n + 1] == tmp[..n] + [tmp[n]];
        ReversedSnoc(tmp[..n], tmp[n]);
        Putc(tmp[n]);
      }
      assert tmp[..0] == "";
      DigitsEnd(10, false, "");
    }

    method PutInt(value: int, width: int, zero: bool)
      requires Valid() && -SIGN_BIT <= value < SIGN_BIT
      modifies this, buf
      ensures Valid() && text == old(text) + PaddedInt(value, width, zero)
    {
      hide Valid, Numeral, Padded;
      if value < 0 {
        Putc('-');
        PutUint(-value, 10, false, if width > 0 then width - 1 else 0, zero);
      } else {
        PutUint(value, 10, false, width, zero);
      }
    }

    /** The switch of `format_string`. */
    method PutDirective(d: char, width: int, zero: bool, ap: nat, env: Env) returns (next: nat)
      requires Valid()
      modifies this, buf
      ensures Valid() && text == old(text) + WideDirective(d, width, zero, env.words(ap), env)
      ensures next == if TakesArgument(d) || d == 'p' then ap + 1 else ap
    {
      hide Valid, Numeral, Padded, PaddedInt;
      var w: u32 := env.words(ap);
      next := ap + 1;
      if d == 'd' {
        SignedWrap(w);
        PutInt(Signed(w), width, zero);
      } else if d == 'u' {
        PutUint(w, 10, false, width, zero);
      } else if d == 'x' {
        PutUint(w, 16, false, width, zero);
      } else if d == 'X' {
        PutUint(w, 16, true, width, zero);
      } else if d == 'p' {
        Puts("0x");
        PutUint(w, 16, false, 8, true);
      } else if d == 's' {
        Puts(StringAt(env, w));
      } else if d == 'c' {
        Putc(LowByte(w));
      } else if d == '%' {
        Putc('%');
        next := ap;
      } else {
        Putc('%');
        Putc(d);
        next := ap;
      }
    }

    method Finish() returns (r: int)
      requires Valid()
      modifies this, buf
      ensures r == Kept(|old(text)|, maxLen)
      ensures buf[..] == Printed(initial, old(text), maxLen)
    {
      if maxLen > 0 {
        buf[idx] := '\0';
      }
      r := idx;
    }
  }

  /** The field of a directive at `i`: where it ends and its width. */
  method ReadWidth(fmt: string, i: nat) returns (j: nat, width: nat)
    requires i <= |fmt|
    ensures j == i + DigitRun(fmt[i..]) <= |fmt|
    ensures width == Value(fmt[i..][..j - i], 10)
  {
    ghost var field := fmt[i..];
    j, width := i, 0;
    assert field[0..] == field;
    while At(fmt, j) >= '0' && At(fmt, j) <= '9'
      invariant i <= j <= |fmt|
      invariant DigitRun(field) == j - i + DigitRun(field[j - i..])
      invariant width == Value(field[..j - i], 10)
      decreases |fmt| - j
    {
      DigitRunStep(field, j - i);
      width := width * 10 + (At(fmt, j) as int - '0' as int);
      j := j + 1;
    }
  }

  lemma DigitRunStep(field: string, k: nat)
    requires k < |field| && IsDigit(field[k])
    ensures DigitRun(field[k..]) == 1 + DigitRun(field[k + 1..])
    ensures Value(field[..k + 1], 10) == 10 * Value(field[..k], 10) + (field[k] as int - '0' as int)
  {
    assert field[k..][1..] == field[k + 1..];
    assert field[..k + 1][..k] == field[..k];
  }

  /** Where the width of the directive at `i` starts. */
  function FieldStart(fmt: string, i: nat): nat
    requires i < |fmt|
  {
    if At(fmt, i + 1) == '0' then i + 2 else i + 1
  }

  lemma FieldIs(fmt: string, i: nat)
    requires i < |fmt|
    ensures FieldStart(fmt, i) <= |fmt| && fmt[i..][1..] == fmt[i + 1..]
    ensures AfterZero(fmt[i + 1..]) == fmt[FieldStart(fmt, i)..]
    ensures AfterZero(fmt[i + 1..]) != fmt[i + 1..] <==> At(fmt, i + 1) == '0'
  {
  }

  lemma WideStep(fmt: string, i: nat, ap: nat, env: Env)
    requires i < |fmt|
    ensures FieldStart(fmt, i) <= |fmt|
    ensures fmt[i] != '%' ==> WideText(fmt[i..], ap, env) == [fmt[i]] + WideText(fmt[i + 1..], ap, env)
    ensures fmt[i] == '%' ==>
              var j := FieldStart(fmt, i);
              var k := j + DigitRun(fmt[j..]);
              WideText(fmt[i..], ap, env)
              == if k == |fmt| then ""
                 else WideDirective(fmt[k], Value(fmt[j..][..k - j], 10), At(fmt, i + 1) == '0', env.words(ap), env)
                      + WideText(fmt[k + 1..], if TakesArgument(fmt[k]) || fmt[k] == 'p' then ap + 1 else ap, env)
  {
    hide WideDirective, DigitRun, Value, FieldStart, AfterZero, TakesArgument;
    FieldIs(fmt, i);
    if fmt[i] == '%' {
      var j := FieldStart(fmt, i);
      var k := DigitRun(fmt[j..]);
      assert j + k < |fmt| ==> fmt[j..][k + 1..] == fmt[j + k + 1..];
    }
  }

  lemma WideEnd(fmt: string, i: nat, ap: nat, env: Env, text: string)
    requires i == |fmt|
    ensures text + WideText(fmt[i..], ap, env) == text
  {
  }

  /** Stores the same text as far as it fits, and returns how much that was. */
  method FormatString(buf: array<char>, maxLen: int, fmt: string, env: Env) returns (r: int)
    requires maxLen <= buf.Length
    modifies buf
    ensures r == Kept(|WideText(fmt, 0, env)|, maxLen)
    ensures buf[..] == Printed(old(buf[..]), WideText(fmt, 0, env), maxLen)
  {
    hide WideText, WideDirective, Stored, Printed, DigitRun, Value, Kept;
    ghost var all := WideText(fmt, 0, env);
    var out := new Out(buf, maxLen);
    var i, ap := 0, 0;
    assert fmt[0..] == fmt && "" + all == all;
    while i < |fmt|
      invariant 0 <= i <= |fmt| && out.Valid() && fresh(out)
      invariant all == out.text + WideText(fmt[i..], ap, env)
    {
      WideStep(fmt, i, ap, env);
      ghost var before := out.text;
      if fmt[i] != '%' {
        out.Putc(fmt[i]);
        Assoc(before, [fmt[i]], WideText(fmt[i + 1..], ap, env));
        i := i + 1;
        continue;
      }
      i, ap := PutField(out, fmt, i, ap, env);
    }
    WideEnd(fmt, |fmt|, ap, env, out.text);
    r := out.Finish();
  }

  /** The directive at `i`, from its zero flag and width on. */
  method PutField(out: Out, fmt: string, i: nat, ap: nat, env: Env) returns (j: nat, next: nat)
    requires out.Valid() && i < |fmt| && fmt[i] == '%'
    modifies out, out.buf
    ensures out.Valid() && i < j <= |fmt|
    ensures out.text + WideText(fmt[j..], next, env) == old(out.text) + WideText(fmt[i..], ap, env)
  {
    hide WideText, WideDirective, Stored, DigitRun, Value, Kept;
    WideStep(fmt, i, ap, env);
    j, next := i + 1, ap;
    var zero := At(fmt, j) == '0';
    if zero {
      j := j + 1;
    }
    var width: nat;
    j, width := ReadWidth(fmt, j);
    if j == |fmt| {
      WideEnd(fmt, j, next, env, out.text);
      return;
    }
    next := out.PutDirective(fmt[j], width, zero, ap, env);
    Assoc(old(out.text), WideDirective(fmt[j], width, zero, env.words(ap), env), WideText(fmt[j + 1..], next, env));
    j := j + 1;
  }

  /** On common directives and a real buffer, the bounded engine keeps exactly what fits of the other's text. */
  lemma BoundedEngineKeepsPrefix(fmt: string, env: Env, initial: seq<char>, maxLen: int)
    requires IsCommon(fmt) && 1 <= maxLen <= |initial|
    ensures var text := FullText(fmt, 0, env);
            && Kept(|WideText(fmt, 0, env)|, maxLen) == (if |text| < maxLen then |text| else maxLen - 1)
            && Printed(initial, WideText(fmt, 0, env), maxLen) == Printed(initial, text, maxLen)
  {
    EnginesAgree(fmt, 0, env);
  }
}
