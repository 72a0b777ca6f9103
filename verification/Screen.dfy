/** The 25x80 text screen: what its operations do to the cells, and the memory-mapped buffer they update. */
module Screen {
  const VGA_WIDTH: int := 80
  const VGA_HEIGHT: int := 25
  const CELLS: int := 2000

  const BACKSPACE: char := '\U{8}'

  const BLACK: nat := 0
  const WHITE: nat := 15

  /** The character and colour that `vga_entry` packs into one 16-bit word. */
  datatype Cell = Cell(glyph: char, color: nat)

  /** Foreground in the low four bits, background above. */
  function EntryColor(fg: nat, bg: nat): nat {
    fg + 16 * bg
  }

  /** The two nibbles of an attribute byte are the two colours. */
  lemma ColorNibbles(fg: nat, bg: nat)
    requires fg < 16 && bg < 16
    ensures EntryColor(fg, bg) % 16 == fg && EntryColor(fg, bg) / 16 == bg
  {
  }

  const WHITE_ON_BLACK: nat := EntryColor(WHITE, BLACK)
  const BLANK := Cell(' ', WHITE_ON_BLACK)

  function Blanks(n: nat): (r: seq<Cell>)
    ensures |r| == n && forall i :: 0 <= i < n ==> r[i] == BLANK
  {
    seq(n, _ => BLANK)
  }

  /** The screen with the line and column the console writes at. */
  datatype View = View(cells: seq<Cell>, line: int, column: int)

  ghost predicate Valid(v: View) {
    |v.cells| == CELLS && 0 <= v.line < VGA_HEIGHT && 0 <= v.column < VGA_WIDTH
  }

  function Position(v: View): int {
    v.line * VGA_WIDTH + v.column
  }

  /** The screen with the column and line that the hardware cursor points at. */
  function AtCursor(cells: seq<Cell>, pos: int): (v: View)
    requires |cells| == CELLS && 0 <= pos < CELLS
    ensures Valid(v) && Position(v) == pos
  {
    View(cells, pos / VGA_WIDTH, pos % VGA_WIDTH)
  }

  function Scrolled(cells: seq<Cell>): (r: seq<Cell>)
    requires |cells| == CELLS
    ensures |r| == CELLS
  {
    cells[VGA_WIDTH..] + Blanks(VGA_WIDTH)
  }

  /** Column 0 of the next line, scrolling at the bottom. */
  function Newline(v: View): (r: View)
    requires Valid(v)
    ensures Valid(r) && r.column == 0
  {
    if v.line + 1 < VGA_HEIGHT then v.(line := v.line + 1, column := 0)
    else v.(cells := Scrolled(v.cells), column := 0)
  }

  function PutAt(v: View, cell: Cell): (r: View)
    requires Valid(v)
    ensures Valid(r)
  {
    v.(cells := v.cells[Position(v) := cell])
  }

  function Advance(v: View): (r: View)
    requires Valid(v)
    ensures Valid(r)
  {
    if v.column + 1 < VGA_WIDTH then v.(column := v.column + 1) else Newline(v)
  }

  function PutCell(v: View, cell: Cell): (r: View)
    requires Valid(v)
    ensures Valid(r)
  {
    Advance(PutAt(v, cell))
  }

  /** The VGA buffer and the cursor registers. */
  class Vga {
    const buffer: array<Cell>
    var cursorLow: int
    var cursorHigh: int

    ghost predicate Valid()
      reads this
    {
      buffer.Length == CELLS && 0 <= cursorLow < 256 && 0 <= cursorHigh < 256
    }

    ghost function Cursor(): int
      reads this
    {
      cursorLow + 256 * cursorHigh
    }

    constructor ()
      ensures Valid() && fresh(this) && fresh(buffer)
      ensures buffer[..] == Blanks(CELLS) && Cursor() == 0
    {
      buffer := new Cell[CELLS](_ => BLANK);
      cursorLow, cursorHigh := 0, 0;
    }

    method UpdateCursor(x: int, y: int)
      requires Valid() && 0 <= y * VGA_WIDTH + x < 0x1_0000
      modifies this
      ensures Valid() && Cursor() == 80 * y + x
      ensures cursorLow == Cursor() % 256 && cursorHigh == Cursor() / 256
    {
      var pos := y * VGA_WIDTH + x;
      cursorLow := pos % 256;
      cursorHigh := pos / 256 % 256;
    }

    method GetCursorPosition() returns (pos: int)
      requires Valid()
      ensures pos == Cursor()
    {
      pos := 0 + cursorLow;
      pos := pos + 256 * cursorHigh;
    }

    /** Every write is inside the buffer: the coordinates are on the screen. */
    method PutChar(c: char, color: nat, x: int, y: int)
      requires Valid() && 0 <= x < VGA_WIDTH && 0 <= y < VGA_HEIGHT
      modifies this, buffer
      ensures Valid() && Cursor() == y * VGA_WIDTH + x
      ensures buffer[..] == old(buffer[..])[y * VGA_WIDTH + x := Cell(c, color)]
    {
      var index := y * VGA_WIDTH + x;
      UpdateCursor(x, y);
      buffer[index] := Cell(c, color);
    }

    method Scroll()
      requires Valid()
      modifies buffer
      ensures buffer[..] == Scrolled(old(buffer[..]))
    {
      ghost var before := buffer[..];
      var y := 0;
      while y < VGA_HEIGHT - 1
        invariant 0 <= y <= VGA_HEIGHT - 1
        invariant forall k :: 0 <= k < y * VGA_WIDTH ==> buffer[k] == before[k + VGA_WIDTH]
        invariant forall k :: y * VGA_WIDTH <= k < CELLS ==> buffer[k] == before[k]
      {
        CopyRowUp(y);
        y := y + 1;
      }
      var x := 0;
      while x < VGA_WIDTH
        invariant 0 <= x <= VGA_WIDTH
        invariant forall k :: 0 <= k < CELLS - VGA_WIDTH ==> buffer[k] == before[k + VGA_WIDTH]
        invariant forall k :: CELLS - VGA_WIDTH <= k < CELLS - VGA_WIDTH + x ==> buffer[k] == BLANK
      {
        buffer[(VGA_HEIGHT - 1) * VGA_WIDTH + x] := BLANK;
        x := x + 1;
      }
    }

    /** The inner loop of `vga_scroll`. */
    method CopyRowUp(y: int)
      requires Valid() && 0 <= y < VGA_HEIGHT - 1
      modifies buffer
      ensures forall k :: 0 <= k < CELLS ==>
                buffer[k] == old(buffer[if y * VGA_WIDTH <= k < (y + 1) * VGA_WIDTH then k + VGA_WIDTH else k])
    {
      var x := 0;
      while x < VGA_WIDTH
        invariant 0 <= x <= VGA_WIDTH
        invariant forall k :: 0 <= k < CELLS ==>
                    buffer[k] == old(buffer[if y * VGA_WIDTH <= k < y * VGA_WIDTH + x then k + VGA_WIDTH else k])
      {
        buffer[y * VGA_WIDTH + x] := buffer[(y + 1) * VGA_WIDTH + x];
        x := x + 1;
      }
    }

    /** Blanks every cell, leaving the cursor on the last one. */
    method CleanScreen()
      requires Valid()
      modifies this, buffer
      ensures Valid() && Cursor() == CELLS - 1
      ensures buffer[..] == Blanks(CELLS)
    {
      var y := 0;
      while y < VGA_HEIGHT
        invariant Valid() && 0 <= y <= VGA_HEIGHT
        invariant forall k :: 0 <= k < y * VGA_WIDTH ==> buffer[k] == BLANK
        invariant y > 0 ==> Cursor() == y * VGA_WIDTH - 1
      {
        var x := 0;
        while x < VGA_WIDTH
          invariant Valid() && 0 <= x <= VGA_WIDTH
          invariant forall k :: 0 <= k < y * VGA_WIDTH + x ==> buffer[k] == BLANK
          invariant x > 0 ==> Cursor() == y * VGA_WIDTH + x - 1
        {
          ghost var before := buffer[..];
          PutChar(' ', WHITE_ON_BLACK, x, y);
          assert forall k :: 0 <= k < y * VGA_WIDTH + x ==> buffer[k] == buffer[..][k] == before[k];
          x := x + 1;
        }
        y := y + 1;
      }
    }
  }
}
