/** The keyboard line editor: its buffer and the screen it echoes to always agree. */
module LineEditor {
  import opened Screen
  import opened Scrollback

  // ----- Keys on a screen -----

  datatype Editor = Editor(view: View, text: string)

  /** One cell back, onto the end of the line above if need be; the top left corner stays put. */
  function StepBack(v: View): (r: View)
    requires Valid(v)
    ensures Valid(r)
  {
    if v.column > 0 then v.(column := v.column - 1)
    else if v.line > 0 then v.(line := v.line - 1, column := VGA_WIDTH - 1)
    else v
  }

  /** Any key but Enter. */
  function Press(e: Editor, c: char): (r: Editor)
    requires Valid(e.view)
    ensures Valid(r.view)
  {
    if c == BACKSPACE then
      if e.text == "" then e
      else Editor(PutAt(StepBack(e.view), BLANK), e.text[..|e.text| - 1])
    else Editor(PutCell(e.view, Cell(c, WHITE_ON_BLACK)), e.text + [c])
  }

  /** The editor after some keys, the keys it has left alone, and whether it has returned. */
  datatype Edited = Edited(editor: Editor, rest: string, done: bool, entered: bool)

  function EditLine(e: Editor, keys: string, max: int): (r: Edited)
    requires Valid(e.view)
    ensures Valid(r.editor.view) && |r.rest| <= |keys|
    ensures r.entered ==> |r.rest| < |keys| && keys[|keys| - |r.rest| - 1] == '\n'
    decreases |keys|
  {
    if |e.text| >= max - 1 then Edited(e, keys, true, false)
    else if keys == "" then Edited(e, "", false, false)
    else if keys[0] == '\n' then Edited(Editor(Newline(e.view), e.text), keys[1..], true, true)
    else EditLine(Press(e, keys[0]), keys[1..], max)
  }

  // ----- The text is a fold of the keys -----

  /** Characters append, backspace drops the last one. */
  function TypedLine(keys: string): string {
    if keys == "" then ""
    else
      var before, c := TypedLine(keys[..|keys| - 1]), keys[|keys| - 1];
      if c != BACKSPACE then before + [c]
      else if before == "" then "" else before[..|before| - 1]
  }

  /** A backspace takes back the key before it, wherever the two come, and does nothing on an empty line. */
  lemma {:induction false} BackspaceUndoes(a: string, c: char, b: string)
    requires c != BACKSPACE
    ensures TypedLine(a + [c, BACKSPACE] + b) == TypedLine(a + b)
    ensures TypedLine([BACKSPACE] + b) == TypedLine(b)
    ensures BACKSPACE !in b ==> TypedLine(b) == b
    decreases |b|
  {
    if b == "" {
      BackspaceLast(a, c);
    } else {
      var n := |b| - 1;
      BackspaceUndoes(a, c, b[..n]);
      assert a + [c, BACKSPACE] + b == a + [c, BACKSPACE] + b[..n] + [b[n]];
      assert a + b == a + b[..n] + [b[n]];
      assert [BACKSPACE] + b == [BACKSPACE] + b[..n] + [b[n]];
      assert b == b[..n] + [b[n]];
      TypedSnoc(a + [c, BACKSPACE] + b[..n], b[n]);
      TypedSnoc(a + b[..n], b[n]);
      TypedSnoc([BACKSPACE] + b[..n], b[n]);
      hide TypedLine;
    }
  }

  lemma BackspaceLast(a: string, c: char)
    requires c != BACKSPACE
    ensures TypedLine(a + [c, BACKSPACE] + "") == TypedLine(a + "")
    ensures TypedLine([BACKSPACE] + "") == TypedLine("") == ""
  {
    assert a + [c, BACKSPACE] + "" == a + [c] + [BACKSPACE] && a + "" == a;
    TypedSnoc(a, c);
    TypedSnoc(a + [c], BACKSPACE);
    assert [BACKSPACE] + "" == "" + [BACKSPACE];
    TypedSnoc("", BACKSPACE);
    hide *;
    assert (TypedLine(a) + [c])[..|TypedLine(a)|] == TypedLine(a);
  }

  /** The keys edited with: those consumed, without the Enter that ended the line. */
  function EditKeys(keys: string, r: Edited): string
    requires |r.rest| <= |keys| && (r.entered ==> |r.rest| < |keys|)
  {
    keys[..|keys| - |r.rest| - if r.entered then 1 else 0]
  }

  lemma EditStep(e: Editor, keys: string, max: int)
    requires Valid(e.view) && |e.text| < max - 1 && keys != "" && keys[0] != '\n'
    ensures var r := EditLine(e, keys, max);
            && r == EditLine(Press(e, keys[0]), keys[1..], max)
            && EditKeys(keys, r) == [keys[0]] + EditKeys(keys[1..], r)
  {
    hide Press;
  }

  lemma Regroup(done: string, c: char, more: string)
    ensures done + [c] + more == done + ([c] + more)
  {
  }

  lemma {:induction false} EditLineFolds(done: string, e: Editor, keys: string, max: int)
    requires Valid(e.view) && e.text == TypedLine(done)
    ensures var r := EditLine(e, keys, max);
            r.editor.text == TypedLine(done + EditKeys(keys, r))
    decreases |keys|
  {
    if |e.text| >= max - 1 || keys == "" || keys[0] == '\n' {
      assert done + "" == done;
    } else {
      var c := keys[0];
      hide TypedLine, EditLine, EditKeys, Press;
      PressTyped(done, e, c);
      EditLineFolds(done + [c], Press(e, c), keys[1..], max);
      EditStep(e, keys, max);
      Regroup(done, c, EditKeys(keys[1..], EditLine(e, keys, max)));
    }
  }

  lemma TypedSnoc(done: string, c: char)
    ensures TypedLine(done + [c])
         == if c != BACKSPACE then TypedLine(done) + [c]
            else if TypedLine(done) == "" then "" else TypedLine(done)[..|TypedLine(done)| - 1]
  {
  }

  lemma PressTyped(done: string, e: Editor, c: char)
    requires Valid(e.view) && e.text == TypedLine(done)
    ensures Press(e, c).text == TypedLine(done + [c])
  {
    hide TypedLine, PutCell, PutAt, StepBack;
    TypedSnoc(done, c);
  }

  /** The longest line that leaves room for its NUL. */
  function Room(max: int): nat {
    if max > 0 then max - 1 else 0
  }

  lemma {:induction false} EditLineEnds(e: Editor, keys: string, max: int)
    requires Valid(e.view) && |e.text| <= Room(max)
    ensures var r := EditLine(e, keys, max);
            && '\n' !in EditKeys(keys, r)
            && |r.editor.text| <= Room(max)
            && (r.done <==> r.entered || |r.editor.text| == Room(max))
            && (!r.done ==> r.rest == "")
    decreases |keys|
  {
    if |e.text| >= max - 1 || keys == "" || keys[0] == '\n' {
    } else {
      EditStep(e, keys, max);
      assert |Press(e, keys[0]).text| <= Room(max);
      hide Press, EditLine, EditKeys;
      EditLineEnds(Press(e, keys[0]), keys[1..], max);
    }
  }

  /** From an empty buffer the text is the fold of the keys before Enter or the full buffer. */
  lemma TextIsTyped(v: View, keys: string, max: int)
    requires Valid(v)
    ensures var r := EditLine(Editor(v, ""), keys, max);
            && r.editor.text == TypedLine(EditKeys(keys, r))
            && '\n' !in EditKeys(keys, r)
            && |r.editor.text| <= Room(max)
            && (r.done <==> r.entered || |r.editor.text| == Room(max))
  {
    hide EditLine, EditKeys;
    assert TypedLine("") == "";
    EditLineFolds("", Editor(v, ""), keys, max);
    EditLineEnds(Editor(v, ""), keys, max);
    var r := EditLine(Editor(v, ""), keys, max);
    assert "" + EditKeys(keys, r) == EditKeys(keys, r);
  }

  /** Once the editor has returned, further keys are left alone. */
  lemma {:induction false} FinishedIgnoresMore(e: Editor, keys: string, more: string, max: int)
    requires Valid(e.view) && EditLine(e, keys, max).done
    ensures var r := EditLine(e, keys, max);
            EditLine(e, keys + more, max) == r.(rest := r.rest + more)
    decreases |keys|
  {
    hide Press, Newline;
    if keys != "" {
      assert (keys + more)[0] == keys[0] && (keys + more)[1..] == keys[1..] + more;
      if |e.text| < max - 1 && keys[0] != '\n' {
        FinishedIgnoresMore(Press(e, keys[0]), keys[1..], more, max);
      }
    }
  }

  // ----- Keys on the unbounded terminal -----

  /** Backspace there: it sticks only if the start of the input has scrolled off the screen. */
  function RubOut(t: Terminal): (r: Terminal)
    requires Sound(t)
    ensures Sound(r)
  {
    if t.pos > |t.grid| - CELLS then Erased(t) else t.(grid := t.grid[t.pos := BLANK])
  }

  datatype TerminalEditor = TerminalEditor(terminal: Terminal, text: string)

  function PressOn(e: TerminalEditor, c: char): (r: TerminalEditor)
    requires Sound(e.terminal)
    ensures Sound(r.terminal)
  {
    if c == BACKSPACE then
      if e.text == "" then e
      else TerminalEditor(RubOut(e.terminal), e.text[..|e.text| - 1])
    else TerminalEditor(Typed(e.terminal, Cell(c, WHITE_ON_BLACK)), e.text + [c])
  }

  /** The terminal after the same keys, before Enter moves to the next line. */
  function EditOn(e: TerminalEditor, keys: string, max: int): (r: TerminalEditor)
    requires Sound(e.terminal)
    ensures Sound(r.terminal)
    decreases |keys|
  {
    if |e.text| >= max - 1 || keys == "" || keys[0] == '\n' then e
    else EditOn(PressOn(e, keys[0]), keys[1..], max)
  }

  lemma StepBackPosition(v: View)
    requires Valid(v)
    ensures Position(StepBack(v)) == if Position(v) > 0 then Position(v) - 1 else 0
    ensures StepBack(v).cells == v.cells
  {
  }

  lemma SameView(v: View, w: View)
    requires Valid(v) && Valid(w) && v.cells == w.cells && Position(v) == Position(w)
    ensures v == w
  {
  }

  lemma WindowRubOut(t: Terminal)
    requires Sound(t)
    ensures Window(RubOut(t)) == PutAt(StepBack(Window(t)), BLANK)
  {
    WindowOf(t);
    WindowOf(RubOut(t));
    StepBackPosition(Window(t));
    var top, back := |t.grid| - CELLS, PutAt(StepBack(Window(t)), BLANK);
    assert Position(back) == Position(StepBack(Window(t)));
    WindowUpdate(t.grid, top, if t.pos > top then t.pos - 1 else t.pos, BLANK);
    hide Window, StepBack, Position;
    SameView(Window(RubOut(t)), back);
  }

  /** The screen always shows the window of the terminal, for every buffer size and start. */
  lemma {:induction false} EditorIsWindow(e: TerminalEditor, keys: string, max: int)
    requires Sound(e.terminal)
    ensures var r := EditLine(Editor(Window(e.terminal), e.text), keys, max);
            var u := EditOn(e, keys, max);
            && r.editor.text == u.text
            && r.editor.view == if r.entered then Newline(Window(u.terminal)) else Window(u.terminal)
    decreases |keys|
  {
    if |e.text| >= max - 1 || keys == "" || keys[0] == '\n' {
    } else {
      hide Window, RubOut, PutCell, Typed, PutAt, StepBack, Newline;
      WindowRubOut(e.terminal);
      WindowTyped(e.terminal, Cell(keys[0], WHITE_ON_BLACK));
      assert Press(Editor(Window(e.terminal), e.text), keys[0])
          == Editor(Window(PressOn(e, keys[0]).terminal), PressOn(e, keys[0]).text);
      hide Press, PressOn;
      EditorIsWindow(PressOn(e, keys[0]), keys[1..], max);
    }
  }

  /** Text typed from `s` on, of which at most `high` characters ever stood there at once. */
  ghost predicate Shows(s: Terminal, high: nat, e: TerminalEditor) {
    var t, n := e.terminal, |e.text|;
    && n <= high
    && t.pos == s.pos + n
    && |t.grid| == (if s.pos + high < |s.grid| then |s.grid| else RowStart(s.pos + high) + VGA_WIDTH)
    && forall i :: 0 <= i < |t.grid| ==>
         t.grid[i] == if s.pos <= i < s.pos + n then Cell(e.text[i - s.pos], WHITE_ON_BLACK)
                      else if s.pos + n <= i < s.pos + high then BLANK
                      else CellAt(s.grid, i)
  }

  /** Would the start of the input still be on the screen with `n` characters after it? */
  predicate StartStays(s: Terminal, n: int) {
    s.pos % VGA_WIDTH + n < CELLS
  }

  lemma ShowsStart(s: Terminal, high: nat, e: TerminalEditor)
    requires Sound(s) && Sound(e.terminal) && Shows(s, high, e) && StartStays(s, high)
    ensures |e.terminal.grid| - CELLS <= s.pos
  {
  }

  lemma PressShows(s: Terminal, high: nat, e: TerminalEditor, c: char)
    requires Sound(s) && Sound(e.terminal) && Shows(s, high, e) && StartStays(s, high)
    ensures var f := PressOn(e, c);
            Shows(s, if |f.text| > high then |f.text| else high, f)
  {
    hide Shows, RubOut, Typed;
    if c != BACKSPACE {
      TypedShows(s, high, e, c);
    } else if e.text != "" {
      RubOutShows(s, high, e);
    }
    assert |e.text| <= high by {
      ShowsFits(s, high, e);
    }
  }

  lemma ShowsFits(s: Terminal, high: nat, e: TerminalEditor)
    requires Shows(s, high, e)
    ensures |e.text| <= high
  {
  }

  lemma RubOutShows(s: Terminal, high: nat, e: TerminalEditor)
    requires Sound(s) && Sound(e.terminal) && Shows(s, high, e) && StartStays(s, high) && e.text != ""
    ensures Shows(s, high, TerminalEditor(RubOut(e.terminal), e.text[..|e.text| - 1]))
  {
    ShowsStart(s, high, e);
  }

  lemma TypedShows(s: Terminal, high: nat, e: TerminalEditor, c: char)
    requires Sound(s) && Sound(e.terminal) && Shows(s, high, e)
    ensures Shows(s, if |e.text| + 1 > high then |e.text| + 1 else high,
                  TerminalEditor(Typed(e.terminal, Cell(c, WHITE_ON_BLACK)), e.text + [c]))
  {
    GrownTo(s, high, e);
  }

  /** One more character needs a new row exactly when it ends the last one. */
  lemma GrownTo(s: Terminal, high: nat, e: TerminalEditor)
    requires Sound(s) && Sound(e.terminal) && Shows(s, high, e)
    ensures var t := Typed(e.terminal, BLANK);
            var next := if |e.text| + 1 > high then |e.text| + 1 else high;
            |t.grid| == if s.pos + next < |s.grid| then |s.grid| else RowStart(s.pos + next) + VGA_WIDTH
  {
  }

  lemma {:induction false} EditShows(s: Terminal, high: nat, e: TerminalEditor, keys: string, max: int)
    requires Sound(s) && Sound(e.terminal) && Shows(s, high, e)
    requires StartStays(s, high) && StartStays(s, max - 1)
    ensures exists h: nat {:trigger StartStays(s, h)} ::
              StartStays(s, h) && Shows(s, h, EditOn(e, keys, max))
    decreases |keys|
  {
    if |e.text| >= max - 1 || keys == "" || keys[0] == '\n' {
    } else {
      PressShows(s, high, e, keys[0]);
      var f := PressOn(e, keys[0]);
      hide Shows, PressOn;
      EditShows(s, if |f.text| > high then |f.text| else high, f, keys[1..], max);
    }
  }

  /** Lines scrolled off the screen on the way from `s` to `t`. */
  function Scrolls(s: Terminal, t: Terminal): int {
    (|t.grid| - |s.grid|) / VGA_WIDTH
  }

  /** The text is on the screen from `start` on, and the cursor just after it. */
  ghost predicate ShownAt(v: View, start: int, text: string)
    requires Valid(v)
  {
    && 0 <= start && start + |text| < CELLS
    && Position(v) == start + |text|
    && forall i :: 0 <= i < |text| ==> v.cells[start + i] == Cell(text[i], WHITE_ON_BLACK)
  }

  /** After any keys the text stands where it was begun, up by the lines scrolled, and the cursor after it. */
  lemma LineAndScreenAgree(s: Terminal, keys: string, max: int)
    requires Sound(s) && StartStays(s, max - 1) && max >= 1
    ensures var r := EditLine(Editor(Window(s), ""), keys, max);
            var u := EditOn(TerminalEditor(s, ""), keys, max);
            && u.text == r.editor.text
            && r.editor.view == (if r.entered then Newline(Window(u.terminal)) else Window(u.terminal))
            && ShownAt(Window(u.terminal), Position(Window(s)) - VGA_WIDTH * Scrolls(s, u.terminal), u.text)
  {
    EditorIsWindow(TerminalEditor(s, ""), keys, max);
    EditShows(s, 0, TerminalEditor(s, ""), keys, max);
    var u := EditOn(TerminalEditor(s, ""), keys, max);
    hide EditOn, EditLine, Newline, Shows, Window, Position;
    var h: nat :| StartStays(s, h) && Shows(s, h, u);
    ShowsOnScreen(s, h, u);
  }

  lemma ShowsOnScreen(s: Terminal, h: nat, u: TerminalEditor)
    requires Sound(s) && Sound(u.terminal) && StartStays(s, h) && Shows(s, h, u)
    ensures ShownAt(Window(u.terminal), Position(Window(s)) - VGA_WIDTH * Scrolls(s, u.terminal), u.text)
  {
    hide Window, Position, Scrolls;
    ShowsStart(s, h, u);
    ShowsRun(s, h, u);
    hide Shows, StartStays;
    WindowOf(s);
    WindowOf(u.terminal);
    WholeRows(s, u.terminal);
    var top := |u.terminal.grid| - CELLS;
    forall i | 0 <= i < |u.text|
      ensures Window(u.terminal).cells[s.pos - top + i] == Cell(u.text[i], WHITE_ON_BLACK)
    {
    }
  }

  lemma ShowsRun(s: Terminal, h: nat, u: TerminalEditor)
    requires Sound(s) && Sound(u.terminal) && Shows(s, h, u)
    ensures u.terminal.pos == s.pos + |u.text| && |s.grid| <= |u.terminal.grid|
    ensures forall i :: 0 <= i < |u.text| ==> u.terminal.grid[s.pos + i] == Cell(u.text[i], WHITE_ON_BLACK)
  {
  }

  lemma WholeRows(s: Terminal, t: Terminal)
    requires Sound(s) && Sound(t)
    ensures |t.grid| == |s.grid| + VGA_WIDTH * Scrolls(s, t)
  {
  }

  /** Does the start of the input stay on the screen whatever is typed into a buffer of this size? */
  ghost predicate StartAlwaysStays(s: Terminal, max: int)
    requires Sound(s)
  {
    forall keys: string :: |EditOn(TerminalEditor(s, ""), keys, max).terminal.grid| - CELLS <= s.pos
  }

  /** Exactly when the column it starts in and the longest line leave it there; 1921 is enough anywhere. */
  lemma WhenStartStays(s: Terminal, max: int)
    requires Sound(s) && max >= 1
    ensures StartAlwaysStays(s, max) <==> StartStays(s, max - 1)
    ensures max <= 1921 ==> StartStays(s, max - 1)
  {
    if StartStays(s, max - 1) {
      forall keys: string
        ensures |EditOn(TerminalEditor(s, ""), keys, max).terminal.grid| - CELLS <= s.pos
      {
        EditShows(s, 0, TerminalEditor(s, ""), keys, max);
        var u := EditOn(TerminalEditor(s, ""), keys, max);
        hide EditOn;
        var h: nat :| StartStays(s, h) && Shows(s, h, u);
        ShowsStart(s, h, u);
      }
    } else {
      var keys := seq(max - 1, _ => 'a');
      EditPlain(s, TerminalEditor(s, ""), keys, max);
      var u := EditOn(TerminalEditor(s, ""), keys, max);
      hide EditOn;
      assert |u.terminal.grid| - CELLS > s.pos;
    }
  }

  /** Plain keys up to the full buffer are laid on the terminal one after another. */
  lemma {:induction false} EditPlain(s: Terminal, e: TerminalEditor, keys: string, max: int)
    requires Sound(s) && Sound(e.terminal) && |e.text| + |keys| == max - 1
    requires forall i :: 0 <= i < |keys| ==> keys[i] == 'a'
    requires e.terminal.pos == s.pos + |e.text|
    ensures EditOn(e, keys, max).terminal.pos == s.pos + max - 1
    decreases |keys|
  {
    if keys != "" {
      EditPlain(s, PressOn(e, keys[0]), keys[1..], max);
    }
  }
}
