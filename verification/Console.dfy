/** The text console: `console_write` and `print_line` on the screen, seen as a window on a scrollback. */
module Console {
  import opened Numerals
  import opened CStrings
  import opened Screen
  import opened Scrollback

  // ----- console_write -----

  /** One byte of console output on the screen. */
  function Echo(v: View, c: char): (r: View)
    requires Valid(v)
    ensures Valid(r)
  {
    if c == '\n' then Newline(v)
    else if c == '\r' then v.(column := 0)
    else if c == BACKSPACE then if v.column > 0 then PutAt(v.(column := v.column - 1), BLANK) else v
    else PutCell(v, Cell(c, WHITE_ON_BLACK))
  }

  function EchoAll(v: View, text: string): (r: View)
    requires Valid(v)
    ensures Valid(r)
    decreases |text|
  {
    if text == "" then v else EchoAll(Echo(v, text[0]), text[1..])
  }

  /** The same byte on the unbounded terminal. */
  function TypeChar(t: Terminal, c: char): (r: Terminal)
    requires Sound(t)
    ensures Sound(r)
  {
    if c == '\n' then NextRow(t)
    else if c == '\r' then t.(pos := RowStart(t.pos))
    else if c == BACKSPACE then if t.pos % VGA_WIDTH > 0 then Erased(t) else t
    else Typed(t, Cell(c, WHITE_ON_BLACK))
  }

  function TypeAll(t: Terminal, text: string): (r: Terminal)
    requires Sound(t)
    ensures Sound(r)
    decreases |text|
  {
    if text == "" then t else TypeAll(TypeChar(t, text[0]), text[1..])
  }

  lemma WindowTypeChar(t: Terminal, c: char)
    requires Sound(t)
    ensures Window(TypeChar(t, c)) == Echo(Window(t), c)
  {
    hide Typed, PutCell, NextRow, Newline;
    if c == '\n' {
      WindowNextRow(t);
    } else if c == '\r' {
    } else if c == BACKSPACE {
      if t.pos % VGA_WIDTH > 0 {
        WindowErased(t);
      }
    } else {
      WindowTyped(t, Cell(c, WHITE_ON_BLACK));
    }
  }

  /** Whatever is written, the screen shows the last 25 rows of the terminal, cursor included. */
  lemma {:induction false} ScreenIsWindow(t: Terminal, text: string)
    requires Sound(t)
    ensures EchoAll(Window(t), text) == Window(TypeAll(t, text))
    decreases |text|
  {
    if text != "" {
      hide TypeChar, Echo;
      WindowTypeChar(t, text[0]);
      ScreenIsWindow(TypeChar(t, text[0]), text[1..]);
    }
  }

  /** `u` comes later than `t`: what was above the cursor's row is untouched. */
  ghost predicate Follows(t: Terminal, u: Terminal) {
    && 0 <= RowStart(t.pos) <= RowStart(u.pos) && RowStart(t.pos) <= |t.grid| <= |u.grid|
    && u.grid[..RowStart(t.pos)] == t.grid[..RowStart(t.pos)]
  }

  lemma FollowsTransitive(t: Terminal, u: Terminal, w: Terminal)
    requires Follows(t, u) && Follows(u, w)
    ensures Follows(t, w)
  {
  }

  lemma TypeCharFollows(t: Terminal, c: char)
    requires Sound(t)
    ensures Follows(t, TypeChar(t, c))
  {
  }

  /** Rows above the cursor's never change again, and the cursor never goes back above them. */
  lemma {:induction false} HistoryIsFrozen(t: Terminal, text: string)
    requires Sound(t)
    ensures Follows(t, TypeAll(t, text))
    decreases |text|
  {
    hide TypeChar;
    if text != "" {
      hide Follows;
      TypeCharFollows(t, text[0]);
      HistoryIsFrozen(TypeChar(t, text[0]), text[1..]);
      FollowsTransitive(t, TypeChar(t, text[0]), TypeAll(t, text));
    }
  }

  ghost predicate IsPlain(text: string) {
    forall i :: 0 <= i < |text| ==> text[i] != '\n' && text[i] != '\r' && text[i] != BACKSPACE
  }

  /** The cells that show a text in one colour. */
  function Painted(text: string, color: nat): (r: seq<Cell>)
    ensures |r| == |text|
    ensures forall i :: 0 <= i < |text| ==> r[i] == Cell(text[i], color)
  {
    seq(|text|, i requires 0 <= i < |text| => Cell(text[i], color))
  }

  /** Text without control characters lies on the terminal as one run from the cursor, wrapped or not. */
  lemma PlainTextIsLaid(t: Terminal, text: string)
    requires Sound(t) && IsPlain(text)
    ensures Laid(t, Painted(text, WHITE_ON_BLACK), TypeAll(t, text))
  {
    TypeAllLaid(t, "", t, text);
    assert "" + text == text;
  }

  lemma {:induction false} TypeAllLaid(s: Terminal, done: string, t: Terminal, text: string)
    requires Sound(s) && Sound(t) && IsPlain(text)
    requires Laid(s, Painted(done, WHITE_ON_BLACK), t)
    ensures Laid(s, Painted(done + text, WHITE_ON_BLACK), TypeAll(t, text))
    decreases |text|
  {
    if text == "" {
      assert done + text == done;
    } else {
      var cell := Cell(text[0], WHITE_ON_BLACK);
      hide Laid, Typed;
      assert Painted(done + [text[0]], WHITE_ON_BLACK) == Painted(done, WHITE_ON_BLACK) + [cell];
      LaidTyped(s, Painted(done, WHITE_ON_BLACK), t, cell);
      TypeAllLaid(s, done + [text[0]], Typed(t, cell), text[1..]);
      assert done + [text[0]] + text[1..] == done + text;
    }
  }

  /** Where output is split into writes does not matter. */
  lemma {:induction false} EchoConcat(v: View, a: string, b: string)
    requires Valid(v)
    ensures EchoAll(v, a + b) == EchoAll(EchoAll(v, a), b)
    decreases |a|
  {
    if a == "" {
      assert a + b == b;
    } else {
      hide Echo;
      assert (a + b)[0] == a[0] && (a + b)[1..] == a[1..] + b;
      EchoConcat(Echo(v, a[0]), a[1..], b);
    }
  }

  /** `console_write` draws white on black only: what is in another colour was there before. */
  lemma {:induction false} EchoIsWhite(v: View, text: string)
    requires Valid(v)
    ensures forall cell <- EchoAll(v, text).cells :: cell.color == 15 || cell in v.cells
    decreases |text|
  {
    if text != "" {
      EchoCharIsWhite(v, text[0]);
      hide Echo;
      EchoIsWhite(Echo(v, text[0]), text[1..]);
    }
  }

  lemma EchoCharIsWhite(v: View, c: char)
    requires Valid(v)
    ensures forall cell <- Echo(v, c).cells :: cell.color == 15 || cell in v.cells
  {
  }

  function Joined(pieces: seq<string>): string {
    if pieces == [] then "" else pieces[0] + Joined(pieces[1..])
  }

  /** One write after another. */
  function EchoPieces(v: View, pieces: seq<string>): (r: View)
    requires Valid(v)
    ensures Valid(r)
    decreases |pieces|
  {
    if pieces == [] then v else EchoPieces(EchoAll(v, pieces[0]), pieces[1..])
  }

  /** However a text is cut into writes, even character by character, the screen is that of one write. */
  lemma {:induction false} GranularityIsInvisible(v: View, pieces: seq<string>)
    requires Valid(v)
    ensures EchoPieces(v, pieces) == EchoAll(v, Joined(pieces))
    decreases |pieces|
  {
    if pieces != [] {
      hide EchoAll;
      GranularityIsInvisible(EchoAll(v, pieces[0]), pieces[1..]);
      EchoConcat(v, pieces[0], Joined(pieces[1..]));
    }
  }

  /** The screen with a text on it from the cursor on, the cursor after it. */
  function Overwritten(v: View, text: string): (r: View)
    requires Valid(v) && v.column + |text| < VGA_WIDTH
    ensures Valid(r)
  {
    var p := Position(v);
    View(v.cells[..p] + Painted(text, WHITE_ON_BLACK) + v.cells[p + |text|..], v.line, v.column + |text|)
  }

  lemma {:induction false} ShortTextShows(v: View, text: string)
    requires Valid(v) && v.column + |text| < VGA_WIDTH && IsPlain(text)
    ensures EchoAll(v, text) == Overwritten(v, text)
    decreases |text|
  {
    if text == "" {
      assert Overwritten(v, "").cells == v.cells;
    } else {
      var u := v.(cells := v.cells[Position(v) := Cell(text[0], WHITE_ON_BLACK)], column := v.column + 1);
      assert Echo(v, text[0]) == u;
      hide Echo;
      OverwrittenFirst(v, text);
      ShortTextShows(u, text[1..]);
    }
  }

  lemma OverwrittenFirst(v: View, text: string)
    requires Valid(v) && v.column + |text| < VGA_WIDTH && text != ""
    ensures var u := v.(cells := v.cells[Position(v) := Cell(text[0], WHITE_ON_BLACK)], column := v.column + 1);
            Overwritten(u, text[1..]) == Overwritten(v, text)
  {
    var u := v.(cells := v.cells[Position(v) := Cell(text[0], WHITE_ON_BLACK)], column := v.column + 1);
    assert Overwritten(u, text[1..]).cells == Overwritten(v, text).cells;
  }

  /** A backspace takes back the character before it on its row, a return goes back to the start to write over it. */
  lemma ControlsGoBack(v: View, c: char, a: string, b: string)
    requires Valid(v) && IsPlain([c]) && IsPlain(a) && IsPlain(b)
    ensures v.column + 1 < VGA_WIDTH ==>
              EchoAll(v, [c, BACKSPACE]) == v.(cells := v.cells[Position(v) := Cell(' ', 15)])
    ensures v.column == 0 ==> EchoAll(v, [BACKSPACE]) == v
    ensures v.column == 0 && |a| < VGA_WIDTH && |b| < VGA_WIDTH ==>
              EchoAll(v, a + "\r" + b) == Overwritten(Overwritten(v, a).(column := 0), b)
  {
    EchoOne(v, BACKSPACE);
    if v.column + 1 < VGA_WIDTH {
      BackspaceErases(v, c);
    }
    if v.column == 0 && |a| < VGA_WIDTH && |b| < VGA_WIDTH {
      hide Echo, Overwritten;
      EchoConcat(v, a + "\r", b);
      EchoConcat(v, a, "\r");
      ShortTextShows(v, a);
      EchoReturn(Overwritten(v, a));
      ShortTextShows(Overwritten(v, a).(column := 0), b);
    }
  }

  lemma EchoReturn(v: View)
    requires Valid(v)
    ensures EchoAll(v, "\r") == v.(column := 0)
  {
  }

  lemma BackspaceErases(v: View, c: char)
    requires Valid(v) && v.column + 1 < VGA_WIDTH && IsPlain([c])
    ensures EchoAll(v, [c, BACKSPACE]) == v.(cells := v.cells[Position(v) := Cell(' ', 15)])
  {
    assert c == [c][0];
    EchoThenBackspace(v, c);
    EchoOne(v, c);
    EchoOne(Echo(v, c), BACKSPACE);
    hide Echo, EchoAll;
    EchoConcat(v, [c], [BACKSPACE]);
    assert [c, BACKSPACE] == [c] + [BACKSPACE];
  }

  lemma EchoOne(v: View, c: char)
    requires Valid(v)
    ensures EchoAll(v, [c]) == Echo(v, c)
  {
  }

  lemma EchoThenBackspace(v: View, c: char)
    requires Valid(v) && v.column + 1 < VGA_WIDTH && c != '\n' && c != '\r' && c != BACKSPACE
    ensures Echo(Echo(v, c), BACKSPACE) == v.(cells := v.cells[Position(v) := Cell(' ', 15)])
  {
    assert Echo(v, c) == v.(cells := v.cells[Position(v) := Cell(c, 15)], column := v.column + 1);
  }

  // ----- print_line -----

  const TAG_BUF_SIZE: int := 16

  /** What fits of a tag in its buffer. */
  function TagCut(tag: string): string {
    if |tag| < TAG_BUF_SIZE then tag else tag[..TAG_BUF_SIZE - 1]
  }

  /** "b,f" or "bf" in hexadecimal; a missing half is black or white. */
  function TagColor(tag: string): (color: nat)
    ensures color < 256
  {
    var k := IndexOf(tag, ',');
    if k < |tag| then
      EntryColor(if k + 1 < |tag| then HexValue(tag[k + 1]) else WHITE, if k > 0 then HexValue(tag[0]) else BLACK)
    else if |tag| >= 2 then EntryColor(HexValue(tag[1]), HexValue(tag[0]))
    else EntryColor(WHITE, BLACK)
  }

  /** A colour whose low nibble, the foreground, is `fg` and whose high nibble, the background, is `bg`. */
  ghost predicate Colors(color: nat, fg: nat, bg: nat) {
    color % 16 == fg && color / 16 == bg
  }

  /** The first comma parts background from foreground; without one they are the first two characters. */
  lemma TagForms(bg: string, fg: string)
    requires ',' !in bg
    ensures Colors(TagColor(bg + "," + fg), if fg != "" then HexValue(fg[0]) else 15,
                   if bg != "" then HexValue(bg[0]) else 0)
    ensures |bg| >= 2 ==> Colors(TagColor(bg), HexValue(bg[1]), HexValue(bg[0]))
    ensures |bg| < 2 ==> Colors(TagColor(bg), 15, 0)
  {
    var tag := bg + "," + fg;
    assert tag[|bg|] == ',' && forall i :: 0 <= i < |bg| ==> tag[i] == bg[i];
    assert IndexOf(tag, ',') == |bg| && IndexOf(bg, ',') == |bg|;
    var low, high := if fg != "" then HexValue(fg[0]) else WHITE, if bg != "" then HexValue(bg[0]) else BLACK;
    assert TagColor(tag) == EntryColor(low, high);
    ColorNibbles(low, high);
    ColorNibbles(WHITE, BLACK);
    if |bg| >= 2 {
      ColorNibbles(HexValue(bg[1]), HexValue(bg[0]));
    }
    hide HexValue, EntryColor, IndexOf;
  }

  /** The visible characters of a message, each in the colour of the last tag closed before it. */
  function Styled(msg: string, color: nat): seq<Cell>
    decreases |msg|
  {
    if msg == "" then []
    else if msg[0] == '{' then Tagged("", msg[1..], color)
    else [Cell(msg[0], color)] + Styled(msg[1..], color)
  }

  /** Inside a tag of which `tag` has been read; an unclosed tag hides the rest. */
  function Tagged(tag: string, rest: string, color: nat): seq<Cell>
    decreases |rest|
  {
    var k := IndexOf(rest, '}');
    if k == |rest| then [] else Styled(rest[k + 1..], TagColor(TagCut(tag + rest[..k])))
  }

  /** The message without its tags. */
  function Visible(msg: string): string
    decreases |msg|
  {
    if msg == "" then ""
    else if msg[0] == '{' then
      var rest := msg[1..];
      var k := IndexOf(rest, '}');
      if k == |rest| then "" else Visible(rest[k + 1..])
    else [msg[0]] + Visible(msg[1..])
  }

  function PrintCell(v: View, cell: Cell): (r: View)
    requires Valid(v)
    ensures Valid(r)
  {
    if cell.glyph == '\n' then Newline(v) else PutCell(v, cell)
  }

  function PrintCells(v: View, cells: seq<Cell>): (r: View)
    requires Valid(v)
    ensures Valid(r)
    decreases |cells|
  {
    if cells == [] then v else PrintCells(PrintCell(v, cells[0]), cells[1..])
  }

  function FreshLine(v: View): (r: View)
    requires Valid(v)
    ensures Valid(r)
  {
    if v.column != 0 then Newline(v) else v
  }

  function PrintLine(v: View, msg: string): (r: View)
    requires Valid(v)
    ensures Valid(r)
  {
    Newline(PrintCells(FreshLine(v), Styled(msg, WHITE_ON_BLACK)))
  }

  /** The hardware cursor stays on the last character drawn: `print_line` does not move it to the new line. */
  function CursorAfter(v: View, cells: seq<Cell>, cursor: int): int
    requires Valid(v)
    decreases |cells|
  {
    if cells == [] then cursor
    else CursorAfter(PrintCell(v, cells[0]), cells[1..], if cells[0].glyph == '\n' then cursor else Position(v))
  }

  /** Cells one after another on the terminal. */
  function TypeCells(t: Terminal, cells: seq<Cell>): (r: Terminal)
    requires Sound(t)
    ensures Sound(r)
    decreases |cells|
  {
    if cells == [] then t else TypeCells(Typed(t, cells[0]), cells[1..])
  }

  lemma {:induction false} TypeCellsLaid(s: Terminal, done: seq<Cell>, t: Terminal, cells: seq<Cell>)
    requires Sound(s) && Sound(t) && Laid(s, done, t)
    ensures Laid(s, done + cells, TypeCells(t, cells))
    decreases |cells|
  {
    if cells == [] {
      assert done + cells == done;
    } else {
      hide Laid, Typed;
      LaidTyped(s, done, t, cells[0]);
      TypeCellsLaid(s, done + [cells[0]], Typed(t, cells[0]), cells[1..]);
      assert done + [cells[0]] + cells[1..] == done + cells;
    }
  }

  lemma {:induction false} PrintCellsOnTerminal(t: Terminal, cells: seq<Cell>)
    requires Sound(t) && forall i :: 0 <= i < |cells| ==> cells[i].glyph != '\n'
    ensures PrintCells(Window(t), cells) == Window(TypeCells(t, cells))
    decreases |cells|
  {
    if cells != [] {
      hide Typed, PutCell;
      WindowTyped(t, cells[0]);
      PrintCellsOnTerminal(Typed(t, cells[0]), cells[1..]);
    }
  }

  /** Between newlines `print_line` lays every cell, in its own colour and controls included, from the cursor on. */
  lemma StyledCellsAreLaid(t: Terminal, cells: seq<Cell>)
    requires Sound(t) && forall i :: 0 <= i < |cells| ==> cells[i].glyph != '\n'
    ensures PrintCells(Window(t), cells) == Window(TypeCells(t, cells)) && Laid(t, cells, TypeCells(t, cells))
  {
    PrintCellsOnTerminal(t, cells);
    TypeCellsLaid(t, [], t, cells);
    assert [] + cells == cells;
  }

  /** After a plain message that fits its row, the hardware cursor is on its last character, not after it. */
  lemma {:induction false} CursorOnLast(v: View, cells: seq<Cell>, cursor: int)
    requires Valid(v) && cells != [] && v.column + |cells| < VGA_WIDTH
    requires forall i :: 0 <= i < |cells| ==> cells[i].glyph != '\n'
    ensures CursorAfter(v, cells, cursor) == Position(v) + |cells| - 1
    decreases |cells|
  {
    assert PrintCell(v, cells[0]).column == v.column + 1 && PrintCell(v, cells[0]).line == v.line;
    if |cells| > 1 {
      hide PrintCell;
      CursorOnLast(PrintCell(v, cells[0]), cells[1..], Position(v));
    }
  }

  function Glyphs(cells: seq<Cell>): (r: string)
    ensures |r| == |cells|
    ensures forall i :: 0 <= i < |cells| ==> r[i] == cells[i].glyph
  {
    seq(|cells|, i requires 0 <= i < |cells| => cells[i].glyph)
  }

  /** Same characters, line and column; colours may differ. */
  ghost predicate SameText(v: View, w: View) {
    Glyphs(v.cells) == Glyphs(w.cells) && v.line == w.line && v.column == w.column
  }

  /** Text before any tag keeps the colour; a closed tag, cut to 15, sets it for the rest; an unclosed one hides it. */
  lemma StyledByTags(a: string, tag: string, b: string, color: nat)
    requires forall i :: 0 <= i < |a| ==> a[i] != '{'
    requires forall i :: 0 <= i < |tag| ==> tag[i] != '}'
    ensures Styled(a + ("{" + tag), color) == Painted(a, color)
    ensures Styled(a + ("{" + tag + "}" + b), color)
         == Painted(a, color) + Styled(b, TagColor(if |tag| <= 15 then tag else tag[..15]))
  {
    hide Styled, TagColor;
    StyledPrefix(a, "{" + tag, color);
    StyledPrefix(a, "{" + tag + "}" + b, color);
    StyledAtTag(tag, b, color);
    assert Painted(a, color) + [] == Painted(a, color);
  }

  lemma {:induction false} StyledPrefix(a: string, rest: string, color: nat)
    requires forall i :: 0 <= i < |a| ==> a[i] != '{'
    ensures Styled(a + rest, color) == Painted(a, color) + Styled(rest, color)
    decreases |a|
  {
    if a == "" {
      assert a + rest == rest && Painted(a, color) + Styled(rest, color) == Styled(rest, color);
    } else {
      StyledFirst(a, rest, color);
      hide Styled;
      StyledPrefix(a[1..], rest, color);
      assert Painted(a, color) == [Cell(a[0], color)] + Painted(a[1..], color);
    }
  }

  lemma StyledFirst(a: string, rest: string, color: nat)
    requires a != "" && a[0] != '{'
    ensures Styled(a + rest, color) == [Cell(a[0], color)] + Styled(a[1..] + rest, color)
  {
    assert (a + rest)[1..] == a[1..] + rest;
  }

  lemma StyledAtTag(tag: string, b: string, color: nat)
    requires forall i :: 0 <= i < |tag| ==> tag[i] != '}'
    ensures Styled("{" + tag, color) == []
    ensures Styled("{" + tag + "}" + b, color) == Styled(b, TagColor(TagCut(tag)))
  {
    hide TagColor, TagCut;
    var rest := tag + "}" + b;
    assert ("{" + tag)[1..] == tag && ("{" + tag + "}" + b)[1..] == rest;
    IndexOfFirst(tag, "}" + b);
    assert rest == tag + ("}" + b);
    hide IndexOf;
    assert rest[..|tag|] == tag && rest[|tag| + 1..] == b && "" + tag == tag;
  }

  lemma IndexOfFirst(a: string, rest: string)
    requires forall i :: 0 <= i < |a| ==> a[i] != '}'
    requires rest != "" && rest[0] == '}'
    ensures IndexOf(a + rest, '}') == |a| == IndexOf(a, '}')
  {
    assert (a + rest)[|a|] == rest[0];
  }

  lemma {:induction false} StyledShowsVisible(msg: string, color: nat)
    ensures Glyphs(Styled(msg, color)) == Visible(msg)
    decreases |msg|
  {
    hide TagColor, TagCut, IndexOf;
    if msg == "" {
    } else if msg[0] == '{' {
      var rest := msg[1..];
      var k := IndexOf(rest, '}');
      if k < |rest| {
        StyledShowsVisible(rest[k + 1..], TagColor(TagCut("" + rest[..k])));
      }
    } else {
      StyledShowsVisible(msg[1..], color);
    }
  }

  lemma EchoSameText(v: View, w: View, cell: Cell)
    requires Valid(v) && Valid(w) && SameText(v, w) && cell.glyph != '\r' && cell.glyph != BACKSPACE
    ensures SameText(PrintCell(v, cell), Echo(w, cell.glyph))
  {
  }

  lemma NewlineSameText(v: View, w: View)
    requires Valid(v) && Valid(w) && SameText(v, w)
    ensures SameText(Newline(v), Newline(w))
  {
  }

  lemma {:induction false} PrintCellsSameText(v: View, w: View, cells: seq<Cell>)
    requires Valid(v) && Valid(w) && SameText(v, w)
    requires forall i :: 0 <= i < |cells| ==> cells[i].glyph != '\r' && cells[i].glyph != BACKSPACE
    ensures SameText(PrintCells(v, cells), EchoAll(w, Glyphs(cells)))
    decreases |cells|
  {
    if cells != [] {
      hide PrintCell, Echo, SameText;
      EchoSameText(v, w, cells[0]);
      assert Glyphs(cells)[1..] == Glyphs(cells[1..]);
      PrintCellsSameText(PrintCell(v, cells[0]), Echo(w, cells[0].glyph), cells[1..]);
    }
  }

  /** A message shows the text `console_write` shows for its visible characters on lines of their own. */
  lemma PrintLineShowsText(v: View, msg: string)
    requires Valid(v)
    requires forall i :: 0 <= i < |Visible(msg)| ==> Visible(msg)[i] != '\r' && Visible(msg)[i] != BACKSPACE
    ensures SameText(PrintLine(v, msg), EchoAll(v, (if v.column != 0 then "\n" else "") + Visible(msg) + "\n"))
  {
    hide Echo, Newline, SameText, Visible;
    var lead := if v.column != 0 then "\n" else "";
    var cells := Styled(msg, WHITE_ON_BLACK);
    hide Styled;
    StyledShowsVisible(msg, WHITE_ON_BLACK);
    EchoConcat(v, lead + Visible(msg), "\n");
    EchoConcat(v, lead, Visible(msg));
    EchoNewline(v);
    assert EchoAll(v, lead) == FreshLine(v);
    assert forall i :: 0 <= i < |cells| ==> cells[i].glyph == Visible(msg)[i];
    SameTextRefl(FreshLine(v));
    PrintCellsSameText(FreshLine(v), FreshLine(v), cells);
    EchoNewline(EchoAll(FreshLine(v), Visible(msg)));
    NewlineSameText(PrintCells(FreshLine(v), cells), EchoAll(FreshLine(v), Visible(msg)));
  }

  lemma EchoNewline(v: View)
    requires Valid(v)
    ensures EchoAll(v, "\n") == Newline(v)
  {
  }

  lemma SameTextRefl(v: View)
    ensures SameText(v, v)
  {
  }

  // ----- The console as it runs -----

  /** The loop of `parse_color_tag`. */
  method ParseColorTag(buf: array<char>, len: nat) returns (color: nat)
    requires len <= buf.Length
    ensures color == TagColor(buf[..len])
  {
    ghost var tag := buf[..len];
    var bg, fg := BLACK, WHITE;
    var commaPos := -1;
    var i := 0;
    while i < len
      invariant 0 <= i <= len && commaPos == -1
      invariant forall j :: 0 <= j < i ==> tag[j] != ','
    {
      if buf[i] == ',' {
        commaPos := i;
        break;
      }
      i := i + 1;
    }
    assert commaPos == if IndexOf(tag, ',') < len then IndexOf(tag, ',') else -1;
    if commaPos != -1 {
      if commaPos > 0 {
        bg := HexValue(buf[0]);
      }
      if commaPos + 1 < len {
        fg := HexValue(buf[commaPos + 1]);
      }
    } else if len >= 2 {
      bg := HexValue(buf[0]);
      fg := HexValue(buf[1]);
    }
    color := EntryColor(fg, bg);
  }

  class Console {
    const vga: Vga
    var line: int
    var cursorColumn: int

    ghost function Repr(): set<object> {
      {this, vga, vga.buffer}
    }

    ghost predicate Good()
      reads this, vga
    {
      vga.Valid() && 0 <= line < VGA_HEIGHT && 0 <= cursorColumn < VGA_WIDTH
    }

    ghost function Now(): (v: View)
      requires Good()
      reads this, vga, vga.buffer
      ensures Valid(v)
    {
      At(line, cursorColumn)
    }

    /** The screen with a line and column held in local variables. */
    ghost function At(currentLine: int, column: int): View
      reads vga.buffer
    {
      View(vga.buffer[..], currentLine, column)
    }

    constructor (vga: Vga)
      requires vga.Valid()
      ensures this.vga == vga && Good() && Now() == View(vga.buffer[..], 0, 0)
    {
      this.vga := vga;
      line, cursorColumn := 0, 0;
    }

    method IoNewline(column: int, currentLine: int) returns (c: int, l: int)
      requires vga.Valid() && Valid(At(currentLine, column))
      modifies vga.buffer
      ensures At(l, c) == Newline(old(At(currentLine, column)))
    {
      c := 0;
      l := currentLine + 1;
      if l >= VGA_HEIGHT {
        vga.Scroll();
        l := VGA_HEIGHT - 1;
      }
    }

    method IoAdvance(column: int, currentLine: int) returns (c: int, l: int)
      requires vga.Valid() && Valid(At(currentLine, column))
      modifies vga.buffer
      ensures At(l, c) == Advance(old(At(currentLine, column)))
    {
      c, l := column + 1, currentLine;
      if c >= VGA_WIDTH {
        c, l := IoNewline(column, currentLine);
      }
    }

    /** `vga_put_char` and `io_advance` for one visible character. */
    method Draw(glyph: char, color: nat, column: int, currentLine: int) returns (c: int, l: int)
      requires vga.Valid() && Valid(At(currentLine, column))
      modifies vga, vga.buffer
      ensures vga.Valid() && At(l, c) == PutCell(old(At(currentLine, column)), Cell(glyph, color))
      ensures vga.Cursor() == Position(old(At(currentLine, column)))
    {
      ghost var v := At(currentLine, column);
      vga.PutChar(glyph, color, column, currentLine);
      assert At(currentLine, column) == PutAt(v, Cell(glyph, color));
      c, l := IoAdvance(column, currentLine);
    }

    /** One byte of `console_write`. */
    method WriteChar(ch: char, column: int, currentLine: int) returns (c: int, l: int)
      requires vga.Valid() && Valid(At(currentLine, column))
      modifies vga, vga.buffer
      ensures vga.Valid() && At(l, c) == Echo(old(At(currentLine, column)), ch)
    {
      hide Newline, PutCell;
      c, l := column, currentLine;
      if ch == '\n' {
        c, l := IoNewline(column, currentLine);
      } else if ch == '\r' {
        c := 0;
      } else if ch == BACKSPACE {
        if c > 0 {
          c := c - 1;
          vga.PutChar(' ', WHITE_ON_BLACK, c, l);
        }
      } else {
        c, l := Draw(ch, WHITE_ON_BLACK, column, currentLine);
      }
    }

    /** The screen after a write is the fold of its bytes, and the hardware cursor is where the next one goes. */
    method Write(buf: string)
      requires Good()
      modifies Repr()
      ensures Good() && Now() == EchoAll(old(Now()), buf)
      ensures vga.Cursor() == Position(Now()) && AtCursor(vga.buffer[..], vga.Cursor()) == Now()
    {
      hide Echo;
      var column, currentLine := cursorColumn, line;
      var i := 0;
      assert buf[0..] == buf;
      while i < |buf|
        invariant 0 <= i <= |buf| && vga.Valid() && Valid(At(currentLine, column))
        invariant EchoAll(old(Now()), buf) == EchoAll(At(currentLine, column), buf[i..])
      {
        assert buf[i..][0] == buf[i] && buf[i..][1..] == buf[i + 1..];
        column, currentLine := WriteChar(buf[i], column, currentLine);
        i := i + 1;
      }
      line := currentLine;
      cursorColumn := column;
      vga.UpdateCursor(column, currentLine);
    }

    /** The message on fresh lines of its own; the hardware cursor is left behind on its last character. */
    method PrintMessage(msg: string)
      requires Good() && NoNul(msg)
      modifies Repr()
      ensures Good() && Now() == PrintLine(old(Now()), msg)
      ensures vga.Cursor() == CursorAfter(FreshLine(old(Now())), Styled(msg, WHITE_ON_BLACK), old(vga.Cursor()))
    {
      hide Newline, PutCell, TagColor, Styled, Tagged, CursorAfter, PrintCells;
      ghost var cells := Styled(msg, WHITE_ON_BLACK);
      var color := WHITE_ON_BLACK;
      var column, currentLine := 0, line;
      if cursorColumn != 0 {
        column, currentLine := IoNewline(cursorColumn, currentLine);
      }
      ghost var fresh0 := At(currentLine, column);
      var tagBuf := new char[TAG_BUF_SIZE];
      var tagIdx := 0;
      var inTag := false;
      ghost var tag := "";
      var i := 0;
      assert msg[0..] == msg;
      while i < |msg|
        invariant 0 <= i <= |msg| && vga.Valid() && Valid(At(currentLine, column))
        invariant 0 <= tagIdx < TAG_BUF_SIZE && (inTag ==> tagBuf[..tagIdx] == TagCut(tag))
        invariant PrintCells(fresh0, cells) == PrintCells(At(currentLine, column), Pending(inTag, tag, msg[i..], color))
        invariant CursorAfter(fresh0, cells, old(vga.Cursor()))
               == CursorAfter(At(currentLine, column), Pending(inTag, tag, msg[i..], color), vga.Cursor())
      {
        assert msg[i..][0] == msg[i] && msg[i..][1..] == msg[i + 1..];
        PendingStep(inTag, tag, msg[i..], color);
        if !inTag && msg[i] == '{' {
          inTag := true;
          tagIdx := 0;
          tag := "";
        } else if inTag {
          if msg[i] == '}' {
            tagBuf[tagIdx] := '\0';
            color := ParseColorTag(tagBuf, tagIdx);
            inTag := false;
          } else {
            if tagIdx < TAG_BUF_SIZE - 1 {
              tagBuf[tagIdx] := msg[i];
              tagIdx := tagIdx + 1;
            }
            tag := tag + [msg[i]];
          }
        } else {
          PrintCellsStep(At(currentLine, column), Cell(msg[i], color), Styled(msg[i + 1..], color), vga.Cursor());
          if msg[i] == '\n' {
            column, currentLine := IoNewline(column, currentLine);
          } else {
            column, currentLine := Draw(msg[i], color, column, currentLine);
          }
        }
        i := i + 1;
      }
      assert msg[i..] == "";
      PendingEnd(inTag, tag, color);
      PrintCellsEnd(At(currentLine, column), vga.Cursor());
      assert fresh0 == FreshLine(old(Now()));
      assert At(currentLine, column) == PrintCells(fresh0, cells);
      column, currentLine := IoNewline(column, currentLine);
      assert At(currentLine, 0) == PrintLine(old(Now()), msg);
      line := currentLine;
      cursorColumn := 0;
    }
  }

  /** What is still to be drawn, depending on whether a tag is being read. */
  function Pending(inTag: bool, tag: string, rest: string, color: nat): seq<Cell> {
    if inTag then Tagged(tag, rest, color) else Styled(rest, color)
  }

  lemma PendingStep(inTag: bool, tag: string, rest: string, color: nat)
    requires rest != ""
    ensures !inTag && rest[0] == '{' ==> Pending(inTag, tag, rest, color) == Tagged("", rest[1..], color)
    ensures !inTag && rest[0] != '{' ==>
              Pending(inTag, tag, rest, color) == [Cell(rest[0], color)] + Styled(rest[1..], color)
    ensures inTag && rest[0] == '}' ==>
              Pending(inTag, tag, rest, color) == Styled(rest[1..], TagColor(TagCut(tag)))
    ensures inTag && rest[0] != '}' ==>
              Pending(inTag, tag, rest, color) == Tagged(tag + [rest[0]], rest[1..], color)
  {
    hide TagColor, TagCut;
    if inTag {
      if rest[0] == '}' {
        assert tag + rest[..0] == tag;
      } else {
        var k := IndexOf(rest[1..], '}');
        assert tag + rest[..k + 1] == tag + [rest[0]] + rest[1..][..k];
        assert k < |rest| - 1 ==> rest[1..][k + 1..] == rest[k + 2..];
      }
    }
  }

  lemma PendingEnd(inTag: bool, tag: string, color: nat)
    ensures Pending(inTag, tag, "", color) == []
  {
  }

  lemma PrintCellsEnd(v: View, cursor: int)
    requires Valid(v)
    ensures PrintCells(v, []) == v && CursorAfter(v, [], cursor) == cursor
  {
  }

  lemma PrintCellsStep(v: View, cell: Cell, rest: seq<Cell>, cursor: int)
    requires Valid(v)
    ensures PrintCells(v, [cell] + rest) == PrintCells(PrintCell(v, cell), rest)
    ensures CursorAfter(v, [cell] + rest, cursor)
         == CursorAfter(PrintCell(v, cell), rest, if cell.glyph == '\n' then cursor else Position(v))
  {
  }
}
