/** An unbounded terminal: rows are only ever added, and the screen is a window on the last 25. */
module Scrollback {
  import opened Screen

  /** Rows one after another, and the linear position of the cursor in them. */
  datatype Terminal = Terminal(grid: seq<Cell>, pos: int)

  ghost predicate Sound(t: Terminal) {
    && |t.grid| % VGA_WIDTH == 0 && |t.grid| >= CELLS
    && |t.grid| - CELLS <= t.pos < |t.grid|
  }

  function Window(t: Terminal): (v: View)
    requires Sound(t)
    ensures Valid(v)
  {
    var top := |t.grid| - CELLS;
    View(t.grid[top..], (t.pos - top) / VGA_WIDTH, t.pos % VGA_WIDTH)
  }

  /** The terminal that has only ever shown this screen. */
  function FromView(v: View): (t: Terminal)
    requires Valid(v)
    ensures Sound(t) && Window(t) == v
  {
    Terminal(v.cells, Position(v))
  }

  function RowStart(pos: int): int {
    pos - pos % VGA_WIDTH
  }

  /** A cursor past the last row adds a blank one. */
  function Grown(t: Terminal): Terminal {
    if t.pos < |t.grid| then t else t.(grid := t.grid + Blanks(VGA_WIDTH))
  }

  function Typed(t: Terminal, cell: Cell): (r: Terminal)
    requires Sound(t)
    ensures Sound(r)
  {
    Grown(Terminal(t.grid[t.pos := cell], t.pos + 1))
  }

  function NextRow(t: Terminal): (r: Terminal)
    requires Sound(t)
    ensures Sound(r)
  {
    Grown(t.(pos := RowStart(t.pos) + VGA_WIDTH))
  }

  function Erased(t: Terminal): (r: Terminal)
    requires Sound(t) && t.pos > |t.grid| - CELLS
    ensures Sound(r)
  {
    Terminal(t.grid[t.pos - 1 := BLANK], t.pos - 1)
  }

  lemma WindowOf(t: Terminal)
    requires Sound(t)
    ensures Position(Window(t)) == t.pos - (|t.grid| - CELLS)
    ensures Window(t).cells == t.grid[|t.grid| - CELLS..]
    ensures Window(t).column == t.pos % VGA_WIDTH
  {
  }

  // ----- Each screen operation is the terminal operation seen through the window -----

  lemma WindowUpdate(grid: seq<Cell>, top: nat, i: int, cell: Cell)
    requires top <= i < |grid|
    ensures grid[i := cell][top..] == grid[top..][i - top := cell]
  {
  }

  lemma WindowGrown(grid: seq<Cell>, top: nat)
    requires |grid| == top + CELLS
    ensures (grid + Blanks(VGA_WIDTH))[top + VGA_WIDTH..] == Scrolled(grid[top..])
  {
  }

  lemma WindowPut(t: Terminal, cell: Cell)
    requires Sound(t)
    ensures Window(t.(grid := t.grid[t.pos := cell])) == PutAt(Window(t), cell)
  {
    WindowOf(t);
    WindowUpdate(t.grid, |t.grid| - CELLS, t.pos, cell);
  }

  /** One column to the right, short of the last. */
  lemma SameRow(pos: int, end: int)
    requires end % VGA_WIDTH == 0 && end - CELLS <= pos < end && pos % VGA_WIDTH != VGA_WIDTH - 1
    ensures pos + 1 < end && (pos + 1) % VGA_WIDTH == pos % VGA_WIDTH + 1
    ensures (pos + 1 - (end - CELLS)) / VGA_WIDTH == (pos - (end - CELLS)) / VGA_WIDTH
  {
  }

  lemma WindowAdvances(t: Terminal)
    requires Sound(t)
    ensures Sound(Grown(t.(pos := t.pos + 1)))
    ensures Window(Grown(t.(pos := t.pos + 1))) == Advance(Window(t))
  {
    if t.pos % VGA_WIDTH == VGA_WIDTH - 1 {
      WindowOf(t);
      WindowNextRow(t);
      assert NextRow(t) == Grown(t.(pos := t.pos + 1));
      hide Window, Newline, Grown, NextRow, Position;
    } else {
      hide Newline;
      SameRow(t.pos, |t.grid|);
    }
  }

  lemma WindowTyped(t: Terminal, cell: Cell)
    requires Sound(t)
    ensures Window(Typed(t, cell)) == PutCell(Window(t), cell)
  {
    hide Window, Grown, Advance, PutAt;
    WindowPut(t, cell);
    WindowAdvances(t.(grid := t.grid[t.pos := cell]));
  }

  /** The row below, counted on the terminal and on the screen. */
  lemma RowBelow(pos: int, end: int)
    requires end % VGA_WIDTH == 0 && end - CELLS <= pos < end
    ensures var next, line := RowStart(pos) + VGA_WIDTH, (pos - (end - CELLS)) / VGA_WIDTH;
            && next % VGA_WIDTH == 0 && 0 <= line < VGA_HEIGHT && next <= end && pos < next
            && next == end - CELLS + VGA_WIDTH * (line + 1)
            && (next == end <==> line == VGA_HEIGHT - 1)
  {
    var line := (pos - (end - CELLS)) / VGA_WIDTH;
    assert RowStart(pos) == end - CELLS + VGA_WIDTH * line;
  }

  lemma WindowNextRow(t: Terminal)
    requires Sound(t)
    ensures Window(NextRow(t)) == Newline(Window(t))
  {
    RowBelow(t.pos, |t.grid|);
    hide Scrolled, Blanks, RowStart;
    WindowGrown(t.grid, |t.grid| - CELLS);
  }

  lemma WindowErased(t: Terminal)
    requires Sound(t) && t.pos > |t.grid| - CELLS
    ensures Position(Window(Erased(t))) == Position(Window(t)) - 1
    ensures Window(Erased(t)).cells == Window(t).cells[Position(Window(t)) - 1 := BLANK]
  {
    hide Window, Position;
    WindowOf(t);
    WindowOf(Erased(t));
    WindowUpdate(t.grid, |t.grid| - CELLS, t.pos - 1, BLANK);
  }

  // ----- Laying out text -----

  function CellAt(grid: seq<Cell>, i: int): Cell {
    if 0 <= i < |grid| then grid[i] else BLANK
  }

  /** `t` is `s` with the cells `run` laid down from the cursor on, everything else as it was or blank. */
  ghost predicate Laid(s: Terminal, run: seq<Cell>, t: Terminal) {
    && t.pos == s.pos + |run|
    && |s.grid| <= |t.grid|
    && (|t.grid| > |s.grid| ==> |t.grid| - VGA_WIDTH <= t.pos)
    && forall i :: 0 <= i < |t.grid| ==>
         t.grid[i] == if s.pos <= i < s.pos + |run| then run[i - s.pos] else CellAt(s.grid, i)
  }

  lemma LaidTyped(s: Terminal, run: seq<Cell>, t: Terminal, cell: Cell)
    requires Sound(s) && Sound(t) && Laid(s, run, t)
    ensures Laid(s, run + [cell], Typed(t, cell))
  {
  }
}
