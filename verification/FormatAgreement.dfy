/** The two printf engines agree on a format for all arguments exactly if it is common to both. */
module FormatAgreement {
  import opened Numerals
  import opened Format

  // ----- One sample argument list tells the engines apart -----

  /** Every argument word is 1, and every string is "a". */
  function Sample(): Env {
    Env(_ => 1, _ => "a")
  }

  function Percents(s: string): nat {
    multiset(s)['%']
  }

  lemma PercentsConcat(s: string, t: string)
    ensures Percents(s + t) == Percents(s) + Percents(t)
  {
  }

  lemma NoPercents(s: string)
    requires '%' !in s
    ensures Percents(s) == 0
  {
  }

  lemma OneIsOne(base: nat, upper: bool)
    requires IsBase(base)
    ensures Numeral(1, base, upper) == "1"
  {
    assert Quotient(1, base) == 0 && Remainder(1, base) == 1;
    assert Digits(0, base, upper) == "";
  }

  /** On the sample, a directive that takes an argument shows no `%`; every other one starts with its own. */
  lemma SampleDirective(d: char, width: nat, zero: bool)
    ensures var t := WideDirective(d, width, zero, 1, Sample());
            if TakesArgument(d) || d == 'p' then t != "" && '%' !in t
            else if d == '%' then t == "%"
            else t == "%" + [d]
  {
    OneIsOne(10, false);
    OneIsOne(16, false);
    OneIsOne(16, true);
    hide Numeral;
  }

  lemma ZeroIsOneDigit(s: string)
    ensures var field := AfterZero(s);
            && DigitRun(s) == DigitRun(field) + |s| - |field|
            && (field != s ==> DigitRun(s) > 0)
  {
  }

  lemma WideStep(s: string, ap: nat, env: Env)
    ensures var field := AfterZero(s);
            var k := DigitRun(field);
            WideText("%" + s, ap, env)
            == if k == |field| then ""
               else
                 var d := field[k];
                 WideDirective(d, Value(field[..k], 10), field != s, env.words(ap), env)
                 + WideText(field[k + 1..], if TakesArgument(d) || d == 'p' then ap + 1 else ap, env)
  {
    hide WideDirective, DigitRun, AfterZero, TakesArgument, Value;
    assert ("%" + s)[1..] == s;
  }

  /** What follows a `%`, in the engine that reads fields. */
  lemma WideField(s: string, ap: nat, env: Env) returns (width: nat, zero: bool, aq: nat)
    ensures var n := DigitRun(s);
            && (n == |s| ==> WideText("%" + s, ap, env) == "")
            && (n < |s| ==>
                 WideText("%" + s, ap, env)
                 == WideDirective(s[n], width, zero, env.words(ap), env) + WideText(s[n + 1..], aq, env))
            && (n == 0 ==> width == 0 && !zero)
  {
    hide WideDirective, DigitRun, WideText;
    var field := AfterZero(s);
    WideStep(s, ap, env);
    ZeroIsOneDigit(s);
    var k := DigitRun(field);
    width, zero, aq := 0, field != s, ap;
    if k < |field| {
      width := Value(field[..k], 10);
      aq := if TakesArgument(field[k]) || field[k] == 'p' then ap + 1 else ap;
      assert field[k] == s[DigitRun(s)] && field[k + 1..] == s[DigitRun(s) + 1..];
    }
  }

  /** Digits are plain text to the other engine. */
  lemma {:induction false} FullCopiesDigits(s: string, n: nat, ap: nat, env: Env)
    requires n <= |s| && AllDigits(s[..n])
    ensures FullText(s, ap, env) == s[..n] + FullText(s[n..], ap, env)
  {
    if n > 0 {
      assert s[0] == s[..n][0] && s[1..][..n - 1] == s[..n][1..];
      assert FullText(s, ap, env) == [s[0]] + FullText(s[1..], ap, env);
      hide FullText;
      FullCopiesDigits(s[1..], n - 1, ap, env);
      assert s[1..][n - 1..] == s[n..] && s[..n] == [s[0]] + s[1..][..n - 1];
      Assoc([s[0]], s[1..][..n - 1], FullText(s[n..], ap, env));
    } else {
      assert s[..0] == "" && s[0..] == s;
    }
  }

  lemma PercentsFullDigits(s: string, bp: nat)
    ensures Percents(FullText(s, bp, Sample())) == Percents(FullText(s[DigitRun(s)..], bp, Sample()))
  {
    var n := DigitRun(s);
    FullCopiesDigits(s, n, bp, Sample());
    NoPercents(s[..n]);
    PercentsConcat(s[..n], FullText(s[n..], bp, Sample()));
  }

  // ----- The engine that reads fields never shows more percent signs -----

  ghost predicate FewerPercents(r: string) {
    forall ap: nat, bp: nat :: Percents(WideText(r, ap, Sample())) <= Percents(FullText(r, bp, Sample()))
  }

  /** The same when a `%` is put in front for the other engine; one fewer if the text starts with a digit. */
  ghost predicate FewerThanEscaped(r: string) {
    forall ap: nat, bp: nat ::
      var wide, full := WideText(r, ap, Sample()), FullText("%" + r, bp, Sample());
      && Percents(wide) <= Percents(full)
      && (wide != "" && IsDigit(wide[0]) ==> Percents(wide) < Percents(full))
  }

  ghost predicate TailsBounded(s: string) {
    forall i :: 0 <= i <= |s| ==> FewerPercents(s[i..]) && FewerThanEscaped(s[i..])
  }

  lemma FrontPercents(t: string, rest: string)
    ensures Percents(t + rest) == Percents(t) + Percents(rest)
    ensures '%' !in t ==> Percents(t + rest) == Percents(rest)
    ensures t != "" ==> (t + rest)[0] == t[0]
  {
  }

  /** A directive of the one against the bare text after its `%` in the other. */
  lemma DirectivePercents(s: string, ap: nat, bp: nat)
    requires TailsBounded(s)
    ensures var wide, full := WideText("%" + s, ap, Sample()), FullText(s, bp, Sample());
            && Percents(wide) <= 1 + Percents(full)
            && (wide != "" && IsDigit(wide[0]) ==> Percents(wide) <= Percents(full))
  {
    hide WideText, FullText, WideDirective, FewerPercents, FewerThanEscaped, Percents;
    var n := DigitRun(s);
    PercentsFullDigits(s, bp);
    NoPercents("");
    var width, zero, aq := WideField(s, ap, Sample());
    if n < |s| {
      var d, rest := s[n], s[n + 1..];
      assert s[n..] == [d] + rest;
      assert FewerPercents(rest) && FewerThanEscaped(rest);
      hide DigitRun, TailsBounded;
      FieldPercents(d, width, zero, rest, aq, bp);
    }
  }

  lemma FieldPercents(d: char, width: nat, zero: bool, rest: string, aq: nat, bp: nat)
    requires FewerPercents(rest) && FewerThanEscaped(rest)
    ensures var wide := WideDirective(d, width, zero, 1, Sample()) + WideText(rest, aq, Sample());
            var full := FullText([d] + rest, bp, Sample());
            && Percents(wide) <= 1 + Percents(full)
            && (wide != "" && IsDigit(wide[0]) ==> Percents(wide) <= Percents(full))
  {
    SampleDirective(d, width, zero);
    var t := WideDirective(d, width, zero, 1, Sample());
    hide WideDirective;
    FrontPercents(t, WideText(rest, aq, Sample()));
    if d != '%' {
      FullPlain(d, rest, bp);
      FrontPercents([d], FullText(rest, bp, Sample()));
      hide FullText, WideText;
    }
  }

  lemma FullPlain(c: char, rest: string, bp: nat)
    requires c != '%'
    ensures FullText([c] + rest, bp, Sample()) == [c] + FullText(rest, bp, Sample())
    ensures forall ap: nat :: WideText([c] + rest, ap, Sample()) == [c] + WideText(rest, ap, Sample())
  {
    assert ([c] + rest)[1..] == rest;
  }

  /** A directive of the engine without fields. */
  lemma FullField(s: string, bp: nat, env: Env) returns (bq: nat)
    requires s != ""
    ensures FullText("%" + s, bp, env) == Directive(s[0], env.words(bp), env) + FullText(s[1..], bq, env)
    ensures bq == if TakesArgument(s[0]) then bp + 1 else bp
  {
    assert ("%" + s)[2..] == s[1..];
    bq := if TakesArgument(s[0]) then bp + 1 else bp;
  }

  lemma {:induction false} Bounds(r: string)
    ensures FewerPercents(r) && FewerThanEscaped(r)
    decreases |r|
  {
    if r == "" {
      assert FullText("%", 0, Sample()) == "";
    } else {
      var c, s := r[0], r[1..];
      hide FewerPercents, FewerThanEscaped, WideText, FullText;
      forall i | 0 <= i <= |s| ensures FewerPercents(s[i..]) && FewerThanEscaped(s[i..]) {
        Bounds(s[i..]);
      }
      assert s[0..] == s && r == [c] + s;
      if c == '%' {
        PercentBounds(s);
      } else {
        PlainBounds(c, s);
      }
    }
  }

  lemma PlainBounds(c: char, s: string)
    requires c != '%' && FewerPercents(s)
    ensures FewerPercents([c] + s) && FewerThanEscaped([c] + s)
  {
    forall ap: nat, bp: nat
      ensures Percents(WideText([c] + s, ap, Sample())) <= Percents(FullText([c] + s, bp, Sample()))
    {
      PlainBound(c, s, ap, bp);
    }
    forall ap: nat, bp: nat
      ensures var wide, full := WideText([c] + s, ap, Sample()), FullText("%" + ([c] + s), bp, Sample());
              && Percents(wide) <= Percents(full)
              && (wide != "" && IsDigit(wide[0]) ==> Percents(wide) < Percents(full))
    {
      PlainBound(c, s, ap, bp);
    }
  }

  lemma PlainBound(c: char, s: string, ap: nat, bp: nat)
    requires c != '%' && FewerPercents(s)
    ensures var wide := WideText([c] + s, ap, Sample());
            var full, escaped := FullText([c] + s, bp, Sample()), FullText("%" + ([c] + s), bp, Sample());
            && Percents(wide) <= Percents(full) && Percents(wide) <= Percents(escaped)
            && (wide != "" && IsDigit(wide[0]) ==> Percents(wide) < Percents(escaped))
  {
    FullPlain(c, s, bp);
    FrontPercents([c], WideText(s, ap, Sample()));
    FrontPercents([c], FullText(s, bp, Sample()));
    var bq := FullField([c] + s, bp, Sample());
    var t := Directive(c, 1, Sample());
    assert ([c] + s)[1..] == s;
    FrontPercents(t, FullText(s, bq, Sample()));
    hide WideText, FullText;
    if IsDigit(c) {
      assert t == "%" + [c];
    }
    hide Directive;
  }

  lemma PercentBounds(s: string)
    requires TailsBounded(s)
    ensures FewerPercents("%" + s) && FewerThanEscaped("%" + s)
  {
    hide TailsBounded, WideText, FullText, Percents, IsDigit;
    forall ap: nat, bp: nat
      ensures Percents(WideText("%" + s, ap, Sample())) <= Percents(FullText("%" + s, bp, Sample()))
    {
      PercentBound(s, ap, bp);
    }
    forall ap: nat, bp: nat
      ensures var wide, full := WideText("%" + s, ap, Sample()), FullText("%" + ("%" + s), bp, Sample());
              && Percents(wide) <= Percents(full)
              && (wide != "" && IsDigit(wide[0]) ==> Percents(wide) < Percents(full))
    {
      DirectivePercents(s, ap, bp);
      EscapedPercent(s, bp);
    }
  }

  lemma EscapedPercent(s: string, bp: nat)
    ensures Percents(FullText("%" + ("%" + s), bp, Sample())) == 1 + Percents(FullText(s, bp, Sample()))
  {
    var bq := FullField("%" + s, bp, Sample());
    assert ("%" + s)[1..] == s;
    hide FullText;
    FrontPercents("%", FullText(s, bp, Sample()));
  }

  lemma PercentBound(s: string, ap: nat, bp: nat)
    requires TailsBounded(s)
    ensures Percents(WideText("%" + s, ap, Sample())) <= Percents(FullText("%" + s, bp, Sample()))
  {
    hide WideText, FullText, FewerThanEscaped;
    var n := DigitRun(s);
    var width, zero, aq := WideField(s, ap, Sample());
    if n == |s| {
      NoPercents("");
    } else {
      var bq := FullField(s, bp, Sample());
      if n == 0 {
        SamePercents(s[0], s[1..], aq, bq);
      } else {
        hide FewerPercents;
        DirectivePercents(s, ap, bp);
        assert IsDigit(s[..n][0]);
        DigitIsPercent(s, bp);
      }
    }
  }

  lemma SamePercents(d: char, rest: string, aq: nat, bq: nat)
    requires FewerPercents(rest)
    ensures Percents(WideDirective(d, 0, false, 1, Sample()) + WideText(rest, aq, Sample()))
         <= Percents(Directive(d, 1, Sample()) + FullText(rest, bq, Sample()))
  {
    hide WideText, FullText;
    FrontPercents(WideDirective(d, 0, false, 1, Sample()), WideText(rest, aq, Sample()));
    FrontPercents(Directive(d, 1, Sample()), FullText(rest, bq, Sample()));
    SampleDirective(d, 0, false);
    if d != 'p' {
      ZeroWidthIsPlain(d, 1, Sample());
    }
    hide WideDirective, Directive;
  }

  lemma DigitIsPercent(s: string, bp: nat)
    requires s != "" && IsDigit(s[0])
    ensures Percents(Directive(s[0], 1, Sample()) + FullText(s[1..], bp, Sample()))
         == 1 + Percents(FullText(s, bp, Sample()))
  {
    var c, rest := s[0], s[1..];
    assert s == [c] + rest && Directive(c, 1, Sample()) == "%" + [c];
    FullPlain(c, rest, bp);
    hide FullText, Directive;
    FrontPercents("%" + [c], FullText(rest, bp, Sample()));
    FrontPercents([c], FullText(rest, bp, Sample()));
    FrontPercents("%", [c]);
  }

  // ----- Every other format is told apart -----

  /** On the sample the texts of an uncommon format differ, wherever the arguments start. */
  lemma {:induction false} UncommonDiffers(fmt: string, ap: nat, bp: nat)
    requires !IsCommon(fmt)
    ensures WideText(fmt, ap, Sample()) != FullText(fmt, bp, Sample())
    decreases |fmt|
  {
    var c, s := fmt[0], fmt[1..];
    assert fmt == [c] + s;
    if c != '%' {
      UncommonDiffers(s, ap, bp);
      FullPlain(c, s, bp);
      FrontCancels([c], WideText(s, ap, Sample()), FullText(s, bp, Sample()));
    } else {
      hide WideText, FullText, DigitRun, WideDirective, Directive;
      var width, zero, aq := WideField(s, ap, Sample());
      var bq := FullField(s, bp, Sample());
      RunStarts(s);
      if IsDigit(s[0]) {
        WidthDiffers(s, width, zero, aq, bp);
      } else if s[0] == 'p' {
        SampleDirective('p', 0, false);
        assert Directive('p', 1, Sample()) == "%p";
        StartsDiffer(WideDirective('p', 0, false, 1, Sample()), WideText(s[1..], aq, Sample()),
                     "%p", FullText(s[1..], bq, Sample()));
      } else {
        assert s[1..] == fmt[2..];
        UncommonDiffers(s[1..], aq, bq);
        ZeroWidthIsPlain(s[0], 1, Sample());
        FrontCancels(Directive(s[0], 1, Sample()), WideText(s[1..], aq, Sample()), FullText(s[1..], bq, Sample()));
      }
    }
  }

  lemma FrontCancels(t: string, a: string, b: string)
    ensures t + a == t + b <==> a == b
  {
    assert a == (t + a)[|t|..];
    assert b == (t + b)[|t|..];
  }

  lemma StartsDiffer(t: string, a: string, u: string, b: string)
    requires t != "" && u != "" && t[0] != u[0]
    ensures t + a != u + b
  {
    assert (t + a)[0] == t[0] && (u + b)[0] == u[0];
  }

  lemma RunStarts(s: string)
    requires s != ""
    ensures DigitRun(s) > 0 <==> IsDigit(s[0])
    ensures DigitRun(s) < |s| ==> !IsDigit(s[DigitRun(s)])
  {
  }

  lemma EscapedNeverEqual(rest: string, full: string, aq: nat, bp: nat)
    requires FewerThanEscaped(rest) && full != "" && IsDigit(full[0])
    requires Percents(full) == Percents(FullText("%" + rest, bp, Sample()))
    ensures WideText(rest, aq, Sample()) != full
  {
    hide WideText, FullText, Percents;
  }

  /** Were the texts of `%<width>%` equal, the rest would print its own width before an escaped copy of itself. */
  lemma EscapedWidthDiffers(s: string, aq: nat, bp: nat)
    requires s != "" && IsDigit(s[0]) && DigitRun(s) < |s| && s[DigitRun(s)] == '%'
    ensures WideText(s[DigitRun(s) + 1..], aq, Sample()) != FullText(s, bp, Sample())
  {
    hide WideText, FullText, DigitRun, FewerThanEscaped, FewerPercents, Percents, Sample;
    var n := DigitRun(s);
    var rest := s[n + 1..];
    assert s[n..] == "%" + rest;
    PercentsFullDigits(s, bp);
    FullPlain(s[0], s[1..], bp);
    assert s == [s[0]] + s[1..];
    Bounds(rest);
    EscapedNeverEqual(rest, FullText(s, bp, Sample()), aq, bp);
  }

  /** A directive with a width: the other engine prints the width. */
  lemma WidthDiffers(s: string, width: nat, zero: bool, aq: nat, bp: nat)
    requires s != "" && IsDigit(s[0])
    ensures var n := DigitRun(s);
            var full := Directive(s[0], 1, Sample()) + FullText(s[1..], bp, Sample());
            && full != ""
            && (n < |s| ==> WideDirective(s[n], width, zero, 1, Sample()) + WideText(s[n + 1..], aq, Sample()) != full)
  {
    var n := DigitRun(s);
    var c, more := s[0], FullText(s[1..], bp, Sample());
    assert Directive(c, 1, Sample()) == "%" + [c];
    if n < |s| {
      var d, rest := s[n], WideText(s[n + 1..], aq, Sample());
      RunStarts(s);
      SampleDirective(d, width, zero);
      if TakesArgument(d) || d == 'p' {
        hide WideDirective;
        StartsDiffer(WideDirective(d, width, zero, 1, Sample()), rest, "%" + [c], more);
      } else if d == '%' {
        EscapedWidthDiffers(s, aq, bp);
        FullPlain(c, s[1..], bp);
        assert s == [c] + s[1..];
        hide *;
        assert "%" + [c] + more == "%" + ([c] + more);
        FrontCancels("%", rest, [c] + more);
      } else {
        hide *;
        assert ("%" + [d] + rest)[1] == d && ("%" + [c] + more)[1] == c;
      }
    }
  }

  /** The engines agree on a format for all arguments exactly if it is common, and one argument list shows it. */
  lemma EnginesAgreeExactly(fmt: string)
    ensures IsCommon(fmt) <==> forall ap: nat, env: Env :: WideText(fmt, ap, env) == FullText(fmt, ap, env)
    ensures IsCommon(fmt) <==> WideText(fmt, 0, Sample()) == FullText(fmt, 0, Sample())
  {
    if IsCommon(fmt) {
      forall ap: nat, env: Env ensures WideText(fmt, ap, env) == FullText(fmt, ap, env) {
        EnginesAgree(fmt, ap, env);
      }
    } else {
      UncommonDiffers(fmt, 0, 0);
    }
  }
}
