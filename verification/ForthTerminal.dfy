/** The interpreter at its terminal: scancodes in, lines run, output on the screen. */
module ForthTerminal {
  import opened Word32
  import opened Numerals
  import opened CStrings
  import opened Screen
  import opened Console
  import opened Keyboard
  import opened LineEditor
  import opened LineInput
  import opened LineTransport
  import Forth = ForthSpec
  import opened ForthSession
  import Compiler = ForthCompiler
  import Calculator = ForthCalculator
  import opened ForthMachine

  // ----- Lines of a stream of keys -----

  function EmptyEditor(): (e: Editor)
    ensures Valid(e.view)
  {
    Editor(View(Blanks(CELLS), 0, 0), "")
  }

  /** The text, the keys left over and the end of the edit do not depend on where on the screen it happens. */
  lemma {:induction false} EditIgnoresScreen(d: Editor, e: Editor, keys: string, max: int)
    requires Valid(d.view) && Valid(e.view) && d.text == e.text
    ensures var r, u := EditLine(d, keys, max), EditLine(e, keys, max);
            r.editor.text == u.editor.text && r.rest == u.rest && r.done == u.done && r.entered == u.entered
    decreases |keys|
  {
    if |e.text| >= max - 1 || keys == "" || keys[0] == '\n' {
    } else {
      assert Press(d, keys[0]).text == Press(e, keys[0]).text;
      hide Press;
      EditIgnoresScreen(Press(d, keys[0]), Press(e, keys[0]), keys[1..], max);
    }
  }

  lemma EditProgress(keys: string, max: int)
    requires max >= 2 && EditLine(EmptyEditor(), keys, max).done
    ensures |EditLine(EmptyEditor(), keys, max).rest| < |keys|
  {
    hide Press;
  }

  /** Every line a stream of keys completes in a buffer of this size, by Enter or by filling it. */
  function LinesOf(keys: string, max: int): seq<string>
    requires max >= 2
    decreases |keys|
  {
    var r := EditLine(EmptyEditor(), keys, max);
    if !r.done then []
    else
      EditProgress(keys, max);
      [r.editor.text] + LinesOf(r.rest, max)
  }

  lemma {:induction false} EditToEnter(e: Editor, a: string, max: int)
    requires Valid(e.view) && '\n' !in a && |e.text| + |a| < max - 1
    ensures var r := EditLine(e, a + "\n", max);
            r.done && r.entered && r.rest == ""
    decreases |a|
  {
    var keys := a + "\n";
    if a == "" {
      assert keys[0] == '\n' && keys[1..] == "";
    } else {
      assert keys[0] == a[0] && keys[1..] == a[1..] + "\n" && a[0] in a;
      assert |Press(e, a[0]).text| <= |e.text| + 1;
      hide Press;
      EditToEnter(Press(e, a[0]), a[1..], max);
    }
  }

  /** Keys that fit the buffer and Enter are the line they edit to; the lines of the rest follow. */
  lemma EnterEndsLine(a: string, b: string, max: int)
    requires '\n' !in a && |a| < max - 1
    ensures LinesOf(a + "\n" + b, max) == [TypedLine(a)] + LinesOf(b, max)
    ensures LinesOf("", max) == []
  {
    EditToEnter(EmptyEditor(), a, max);
    TextIsTyped(EmptyEditor().view, a + "\n", max);
    hide EditLine, TypedLine;
    assert EditKeys(a + "\n", EditLine(EmptyEditor(), a + "\n", max)) == a;
    FirstLine(a + "\n", b, max);
    NoKeysNoLines(max);
  }

  lemma NoKeysNoLines(max: int)
    requires max >= 2
    ensures LinesOf("", max) == []
  {
  }

  // ----- Reads one after another -----

  /** What a read gets from the driver. */
  function DeliveredChars(w: World, l: Layout, bursts: seq<Burst>): string
    requires IsLayout(l) && Consistent(w) && w.consumer == Idle
  {
    var u := PollAll(w, l, bursts);
    if |w.delivered| <= |u.delivered| then u.delivered[|w.delivered|..] else ""
  }

  lemma DeliveredSplits(w: World, l: Layout, bursts: seq<Burst>)
    requires IsLayout(l) && Consistent(w) && w.consumer == Idle
    ensures PollAll(w, l, bursts).delivered == w.delivered + DeliveredChars(w, l, bursts)
  {
    hide PollAll, Consistent;
    DeliveredGrows(w, l, bursts);
  }

  lemma {:induction false} DeliveredGrows(w: World, l: Layout, bursts: seq<Burst>)
    requires IsLayout(l) && Consistent(w) && w.consumer == Idle
    ensures w.delivered <= PollAll(w, l, bursts).delivered
  {
    if bursts != [] {
      var before := bursts[..|bursts| - 1];
      DeliveredGrows(w, l, before);
      PolledDelivers(PollAll(w, l, before), l, bursts[|bursts| - 1]);
      hide Polled, Consistent, PolledChar, HandleAll;
    }
  }

  /** The driver after some turns, each a read with its bursts; interrupts between reads come first in the next. */
  function AfterReads(w: World, l: Layout, turns: seq<seq<Burst>>): (u: World)
    requires IsLayout(l) && Consistent(w) && w.consumer == Idle
    ensures Consistent(u) && u.consumer == Idle
    decreases |turns|
  {
    if turns == [] then w else AfterReads(PollAll(w, l, turns[0]), l, turns[1..])
  }

  /** The characters the ring accepted meanwhile. */
  function AcceptedMeanwhile(w: World, l: Layout, turns: seq<seq<Burst>>): string
    requires IsLayout(l) && Consistent(w) && w.consumer == Idle
    decreases |turns|
  {
    if turns == [] then ""
    else AcceptedChars(w, l, turns[0]) + AcceptedMeanwhile(PollAll(w, l, turns[0]), l, turns[1..])
  }

  /** Every read returns, and polls no further once its line is complete. */
  ghost predicate AllReturn(w: World, l: Layout, turns: seq<seq<Burst>>, max: int)
    requires IsLayout(l) && Consistent(w) && w.consumer == Idle
    decreases |turns|
  {
    turns != [] ==>
      var r := EditLine(EmptyEditor(), DeliveredChars(w, l, turns[0]), max);
      r.done && r.rest == "" && AllReturn(PollAll(w, l, turns[0]), l, turns[1..], max)
  }

  /** The line each read leaves. */
  function LinesRead(w: World, l: Layout, turns: seq<seq<Burst>>, max: int): (lines: seq<string>)
    requires IsLayout(l) && Consistent(w) && w.consumer == Idle
    ensures |lines| == |turns|
    decreases |turns|
  {
    if turns == [] then []
    else
      [EditLine(EmptyEditor(), DeliveredChars(w, l, turns[0]), max).editor.text]
      + LinesRead(PollAll(w, l, turns[0]), l, turns[1..], max)
  }

  /** Line `i` is the edit of what read `i` got, after the reads before it. */
  lemma {:induction false} LinesReadAt(w: World, l: Layout, turns: seq<seq<Burst>>, max: int, i: nat)
    requires IsLayout(l) && Consistent(w) && w.consumer == Idle && i < |turns|
    ensures LinesRead(w, l, turns, max)[i]
         == EditLine(EmptyEditor(), DeliveredChars(AfterReads(w, l, turns[..i]), l, turns[i]), max).editor.text
    decreases |turns|
  {
    hide PollAll, DeliveredChars, EditLine, Consistent;
    if i == 0 {
      assert turns[..0] == [];
    } else {
      assert turns[..i][0] == turns[0] && turns[..i][1..] == turns[1..][..i - 1];
      LinesReadAt(PollAll(w, l, turns[0]), l, turns[1..], max, i - 1);
    }
  }

  lemma Regrouped(waiting: string, accepted: string, later: string, keys: string, left: string)
    requires waiting + accepted == keys + left
    ensures waiting + (accepted + later) == keys + (left + later)
  {
    assert waiting + (accepted + later) == waiting + accepted + later;
    assert keys + (left + later) == keys + left + later;
  }

  lemma FirstTurn(w: World, l: Layout, turns: seq<seq<Burst>>, max: int)
    requires IsLayout(l) && Consistent(w) && w.consumer == Idle && turns != []
    requires AllReturn(w, l, turns, max)
    ensures var u, rest := PollAll(w, l, turns[0]), turns[1..];
            var r := EditLine(EmptyEditor(), DeliveredChars(w, l, turns[0]), max);
            && r.done && r.rest == "" && AllReturn(u, l, rest, max)
            && LinesRead(w, l, turns, max) == [r.editor.text] + LinesRead(u, l, rest, max)
            && AfterReads(w, l, turns) == AfterReads(u, l, rest)
            && AcceptedMeanwhile(w, l, turns) == AcceptedChars(w, l, turns[0]) + AcceptedMeanwhile(u, l, rest)
  {
    hide PollAll, DeliveredChars, AcceptedChars, EditLine, Consistent;
  }

  lemma AppendLines(first: string, some: seq<string>, more: seq<string>)
    ensures [first] + (some + more) == [first] + some + more
  {
  }

  /**
    Whatever is typed ahead and whenever, the reads of a session cut one stream: the lines they leave and the lines
    still to come from the ring are the lines of all that was waiting and accepted.
   */
  lemma {:induction false} ReadsCutTheStream(w: World, l: Layout, turns: seq<seq<Burst>>, max: int)
    requires IsLayout(l) && Consistent(w) && w.consumer == Idle && max >= 2
    requires AllReturn(w, l, turns, max)
    ensures LinesOf(Waiting(w.ring) + AcceptedMeanwhile(w, l, turns), max)
         == LinesRead(w, l, turns, max) + LinesOf(Waiting(AfterReads(w, l, turns).ring), max)
    decreases |turns|
  {
    hide PollAll, DeliveredChars, AcceptedChars, Waiting, EditLine, LinesOf, Consistent, IsRing;
    HasRing(w);
    HasRing(AfterReads(w, l, turns));
    if turns == [] {
      assert Waiting(w.ring) + "" == Waiting(w.ring);
    } else {
      FirstTurn(w, l, turns, max);
      hide AcceptedMeanwhile, LinesRead, AfterReads, AllReturn;
      var u, rest := PollAll(w, l, turns[0]), turns[1..];
      var keys, later := DeliveredChars(w, l, turns[0]), AcceptedMeanwhile(u, l, rest);
      HasRing(u);
      DeliveredSplits(w, l, turns[0]);
      DeliveredIsAccepted(w, l, turns[0], keys);
      Regrouped(Waiting(w.ring), AcceptedChars(w, l, turns[0]), later, keys, Waiting(u.ring));
      FirstLine(keys, Waiting(u.ring) + later, max);
      ReadsCutTheStream(u, l, rest, max);
      AppendLines(EditLine(EmptyEditor(), keys, max).editor.text, LinesRead(u, l, rest, max),
                  LinesOf(Waiting(AfterReads(u, l, rest).ring), max));
    }
  }

  lemma FirstLine(keys: string, more: string, max: int)
    requires max >= 2
    requires var r := EditLine(EmptyEditor(), keys, max); r.done && r.rest == ""
    ensures LinesOf(keys + more, max) == [EditLine(EmptyEditor(), keys, max).editor.text] + LinesOf(more, max)
  {
    FinishedIgnoresMore(EmptyEditor(), keys, more, max);
    hide EditLine;
    assert "" + more == more;
  }

  // ----- What the interpreter is given -----

  /** The line `read_line` leaves is that of the characters delivered, wherever on the screen it was typed. */
  lemma ReadLeavesLine(w: World, l: Layout, bursts: seq<Burst>, keys: string, cells: seq<Cell>, cursor: int, len: int)
    requires IsLayout(l) && Consistent(w) && w.consumer == Idle
    requires PollAll(w, l, bursts).delivered == w.delivered + keys
    requires |cells| == CELLS && 0 <= cursor < CELLS
    ensures keys == DeliveredChars(w, l, bursts)
    ensures var r, u := ReadEdit(cells, cursor, keys, len), EditLine(EmptyEditor(), keys, Min(len, READ_MAX));
            && ReadText(cells, cursor, keys, len) == u.editor.text
            && r.done == u.done && r.rest == u.rest && r.entered == u.entered
  {
    EditIgnoresScreen(Editor(AtCursor(cells, cursor), ""), EmptyEditor(), keys, Min(len, READ_MAX));
    hide EditLine, PollAll, Consistent;
    DeliveredSplits(w, l, bursts);
    CancelFront(w.delivered, keys, DeliveredChars(w, l, bursts));
  }

  lemma DeliveredNoNul(w: World, l: Layout, bursts: seq<Burst>)
    requires IsLayout(l) && Consistent(w) && w.consumer == Idle
    ensures NoNul(DeliveredChars(w, l, bursts))
  {
    DeliveredSplits(w, l, bursts);
    var u := PollAll(w, l, bursts);
    assert u.delivered <= u.accepted;
    hide PollAll, DeliveredChars, Waiting;
    forall c | c in DeliveredChars(w, l, bursts) ensures c in u.accepted {
      assert c in u.delivered;
    }
  }

  /** Lines the interpreter may be given: terminated within its buffer. */
  ghost predicate FitBuffer(lines: seq<string>) {
    AreLines(lines) && forall i :: 0 <= i < |lines| ==> |lines[i]| < LINE_MAX
  }

  lemma {:induction false} LinesReadFit(w: World, l: Layout, turns: seq<seq<Burst>>)
    requires IsLayout(l) && Consistent(w) && w.consumer == Idle
    ensures FitBuffer(LinesRead(w, l, turns, LINE_MAX))
    decreases |turns|
  {
    hide PollAll, DeliveredChars, EditLine, Consistent;
    if turns != [] {
      var keys := DeliveredChars(w, l, turns[0]);
      DeliveredNoNul(w, l, turns[0]);
      ReadTextFits(EmptyEditor().view.cells, 0, keys, LINE_MAX);
      ReadEditIs(EmptyEditor().view.cells, 0, keys, LINE_MAX);
      assert AtCursor(EmptyEditor().view.cells, 0) == EmptyEditor().view;
      LinesReadFit(PollAll(w, l, turns[0]), l, turns[1..]);
    }
  }

  /** A whole run of `main` on the lines read is its run on the first lines of what was waiting and accepted. */
  lemma RunsWhatWasAccepted(s: Forth.State, w: World, l: Layout, turns: seq<seq<Burst>>)
    requires Forth.Ok(s) && IsLayout(l) && Consistent(w) && w.consumer == Idle && AllReturn(w, l, turns, 128)
    ensures var stream := Waiting(w.ring) + AcceptedMeanwhile(w, l, turns);
            var lines := LinesRead(w, l, turns, 128);
            && FitBuffer(lines) && lines <= LinesOf(stream, 128)
            && WholeRun(s, lines) == WholeRun(s, LinesOf(stream, 128)[..|turns|])
  {
    LinesReadFit(w, l, turns);
    ReadsCutTheStream(w, l, turns, LINE_MAX);
    hide LinesOf, LinesRead, AcceptedMeanwhile, AllReturn, WholeRun, Waiting;
  }

  // ----- What the screen shows -----

  /** What a line prints, in whatever pieces it is sent, moves the screen from the old output to the new. */
  lemma OutputShows(v: View, s: Forth.State, line: string, pieces: seq<string>)
    requires Valid(v) && Forth.Ok(s) && NoNul(line)
    requires s.out + Joined(pieces) == Forth.RunLine(s, line).out
    ensures EchoPieces(EchoAll(v, s.out), pieces) == EchoAll(v, Forth.RunLine(s, line).out)
  {
    GranularityIsInvisible(EchoAll(v, s.out), pieces);
    EchoConcat(v, s.out, Joined(pieces));
  }

  lemma NumbersArePlain(v: u32)
    ensures IsPlain(SignedText(Signed(v))) && 1 <= |SignedText(Signed(v))| <= 11
  {
    var n := Abs(Signed(v));
    NumeralRoundTrip(n, 10, false);
    NumeralWidth(n, 10, false);
    var t := Numeral(n, 10, false);
    assert forall i :: 0 <= i < |t| ==> IsDigit(t[i]);
    hide Numeral, Value, Digits;
    assert SignedText(Signed(v)) == t || SignedText(Signed(v)) == "-" + t;
  }

  /** A number and a newline, in any pieces, from the start of a row. */
  lemma NumberShows(v: View, n: u32, pieces: seq<string>)
    requires Valid(v) && v.column == 0 && Joined(pieces) == SignedText(Signed(n)) + "\n"
    ensures |SignedText(Signed(n))| < VGA_WIDTH
    ensures EchoPieces(v, pieces) == Newline(Overwritten(v, SignedText(Signed(n))))
  {
    var t := SignedText(Signed(n));
    NumbersArePlain(n);
    hide SignedText, Echo, Newline, Overwritten;
    GranularityIsInvisible(v, pieces);
    EchoConcat(v, t, "\n");
    ShortTextShows(v, t);
    EchoNewline(Overwritten(v, t));
  }

  /** The keys of a read that Enter ended come, whenever they were struck, from a line of keys that edits to `text`. */
  ghost predicate TypedAs(w: World, l: Layout, bursts: seq<Burst>, keys: string, r: Edited, text: string)
    requires IsLayout(l) && Consistent(w) && w.consumer == Idle
  {
    var line := Waiting(w.ring) + AcceptedChars(w, l, bursts);
    && PollAll(w, l, bursts).delivered == w.delivered + keys
    && r.entered && TypedLine(line[..IndexOf(line, '\n')]) == text
  }

  lemma TypedIsRead(w: World, l: Layout, bursts: seq<Burst>, keys: string, cells: seq<Cell>, cursor: int, text: string)
    requires IsLayout(l) && Consistent(w) && w.consumer == Idle && |cells| == CELLS && 0 <= cursor < CELLS
    requires TypedAs(w, l, bursts, keys, ReadEdit(cells, cursor, keys, LINE_MAX), text)
    ensures ReadText(cells, cursor, keys, LINE_MAX) == text
  {
    hide EditLine, PollAll, Consistent, TypedLine, IndexOf, Waiting, AcceptedChars;
    LineIsWhatWasAccepted(w, l, bursts, keys, cells, cursor, LINE_MAX);
    ReadEditIs(cells, cursor, keys, LINE_MAX);
  }

  /**
    Typed with any corrections, at any pace, an expression and `.` show its meaning at the start of the row where the
    edit left the cursor, in however many writes, and leave the stack as it was.
   */
  lemma TypedExpressionShows(s: Forth.State, e: Compiler.Expr, w: World, l: Layout, bursts: seq<Burst>, keys: string,
                             cells: seq<Cell>, cursor: int, pieces: seq<string>)
    requires Forth.Ok(s) && s.mode == Forth.Running && Compiler.Compilable(e, s.names)
    requires |s.stack| + Compiler.Need(e) <= Forth.STACK_MAX && Calculator.Meaning(e, s.names, s.cells).Exactly?
    requires IsLayout(l) && Consistent(w) && w.consumer == Idle && |cells| == CELLS && 0 <= cursor < CELLS
    requires TypedAs(w, l, bursts, keys, ReadEdit(cells, cursor, keys, LINE_MAX), Compiler.Render(e) + [' '] + ".")
    requires Joined(pieces) == SignedText(Calculator.Reduced(Calculator.Meaning(e, s.names, s.cells).value)) + "\n"
    ensures var value := SignedText(Calculator.Reduced(Calculator.Meaning(e, s.names, s.cells).value));
            var typed := ReadText(cells, cursor, keys, LINE_MAX);
            var start := ReadEdit(cells, cursor, keys, LINE_MAX).editor.view.(column := 0);
            && NoNul(typed) && Forth.RunLine(s, typed) == Forth.Say(s, Joined(pieces))
            && |value| < VGA_WIDTH && EchoPieces(start, pieces) == Newline(Overwritten(start, value))
  {
    hide ReadEdit, ReadText, TypedAs, Consistent, SignedText, Wrap, Signed;
    hide Calculator.Meaning, Calculator.Reduced, Compiler.Render, Newline, Overwritten;
    var x := Calculator.Meaning(e, s.names, s.cells).value;
    TypedIsRead(w, l, bursts, keys, cells, cursor, Compiler.Render(e) + [' '] + ".");
    Calculator.ExpressionsPrintMeaning(s, e);
    Calculator.ReducedIsSigned(x);
    NumberShows(ReadEdit(cells, cursor, keys, LINE_MAX).editor.view.(column := 0), Wrap(x), pieces);
  }
}
