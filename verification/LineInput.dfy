/** `kbd_gets` and `input_get`: the editing loop on the real ring, buffer, screen and cursor. */
module LineInput {
  import opened CStrings
  import opened Screen
  import opened Console
  import opened Keyboard
  import opened KeyboardDriver
  import opened LineEditor

  /** The driver after a sequence of reader calls, each among its own interrupts. */
  function PollAll(w: World, l: Layout, bursts: seq<Burst>): (u: World)
    requires IsLayout(l) && Consistent(w) && w.consumer == Idle
    ensures Consistent(u) && u.consumer == Idle
  {
    if bursts == [] then w else Polled(PollAll(w, l, bursts[..|bursts| - 1]), l, bursts[|bursts| - 1])
  }

  /** An editor that is still waiting treats the next key as if it had just begun. */
  lemma {:induction false} EditLineSnoc(e: Editor, keys: string, c: char, max: int)
    requires Valid(e.view) && !EditLine(e, keys, max).done
    ensures EditLine(e, keys + [c], max) == EditLine(EditLine(e, keys, max).editor, [c], max)
    decreases |keys|
  {
    if keys == "" {
      assert keys + [c] == [c];
    } else {
      hide Press;
      assert (keys + [c])[0] == keys[0] && (keys + [c])[1..] == keys[1..] + [c];
      EditLineSnoc(Press(e, keys[0]), keys[1..], c, max);
    }
  }

  lemma EditOneKey(e: Editor, c: char, max: int)
    requires Valid(e.view) && |e.text| < max - 1
    ensures c == '\n' ==> EditLine(e, [c], max) == Edited(Editor(Newline(e.view), e.text), "", true, true)
    ensures c != '\n' ==>
              EditLine(e, [c], max) == Edited(Press(e, c), "", |Press(e, c).text| >= max - 1, false)
  {
  }

  ghost function Seen(vga: Vga, y: int, x: int): View
    reads vga.buffer
  {
    View(vga.buffer[..], y, x)
  }

  ghost predicate Synced(vga: Vga, y: int, x: int)
    reads vga, vga.buffer
  {
    vga.Valid() && Valid(Seen(vga, y, x)) && vga.Cursor() == Position(Seen(vga, y, x))
  }

  /** A visible key: draw it, move on, scroll at the bottom. */
  method EchoKey(vga: Vga, c: char, x0: int, y0: int) returns (x: int, y: int)
    requires Synced(vga, y0, x0)
    modifies vga, vga.buffer
    ensures Synced(vga, y, x)
    ensures Seen(vga, y, x) == PutCell(old(Seen(vga, y0, x0)), Cell(c, WHITE_ON_BLACK))
  {
    ghost var put := PutAt(Seen(vga, y0, x0), Cell(c, WHITE_ON_BLACK));
    vga.PutChar(c, WHITE_ON_BLACK, x0, y0);
    assert Seen(vga, y0, x0) == put;
    x, y := x0 + 1, y0;
    if x >= VGA_WIDTH {
      x := 0;
      y := y + 1;
      if y >= VGA_HEIGHT {
        vga.Scroll();
        y := VGA_HEIGHT - 1;
      }
    }
    assert Seen(vga, y, x) == Advance(put);
    vga.UpdateCursor(x, y);
  }

  method RubOutKey(vga: Vga, x0: int, y0: int) returns (x: int, y: int)
    requires Synced(vga, y0, x0)
    modifies vga, vga.buffer
    ensures Synced(vga, y, x)
    ensures Seen(vga, y, x) == PutAt(StepBack(old(Seen(vga, y0, x0))), BLANK)
  {
    x, y := x0, y0;
    if x > 0 {
      x := x - 1;
    } else if y > 0 {
      y := y - 1;
      x := VGA_WIDTH - 1;
    }
    vga.PutChar(' ', WHITE_ON_BLACK, x, y);
    vga.UpdateCursor(x, y);
  }

  method EnterKey(vga: Vga, x0: int, y0: int) returns (x: int, y: int)
    requires Synced(vga, y0, x0)
    modifies vga, vga.buffer
    ensures Synced(vga, y, x)
    ensures Seen(vga, y, x) == Newline(old(Seen(vga, y0, x0)))
  {
    x, y := 0, y0 + 1;
    if y >= VGA_HEIGHT {
      vga.Scroll();
      y := VGA_HEIGHT - 1;
    }
    vga.UpdateCursor(x, y);
  }

  /** What the editing loop has done with the keys delivered so far. */
  ghost predicate Mirrors(vga: Vga, y: int, x: int, buffered: seq<char>, r: Edited)
    reads vga, vga.buffer
  {
    Synced(vga, y, x) && r.rest == "" && r.editor == Editor(Seen(vga, y, x), buffered)
  }

  /** Edits a line from the keys the driver delivers; `done` is false while it waits for more than `arrivals`. */
  method KbdGets(kb: Driver, vga: Vga, dest: array<char>, maxLen: int, x0: int, y0: int, arrivals: seq<Burst>)
    returns (x: int, y: int, done: bool, ghost keys: string, ghost used: nat)
    requires kb.Valid() && Synced(vga, y0, x0)
    requires 1 <= maxLen <= dest.Length && dest != kb.buffer
    modifies kb, kb.buffer, vga, vga.buffer, dest
    ensures kb.Valid() && used <= |arrivals| && (!done ==> used == |arrivals|)
    ensures kb.At(Idle) == PollAll(old(kb.At(Idle)), kb.layout, arrivals[..used])
    ensures kb.delivered == old(kb.delivered) + keys && NoNul(keys)
    ensures var r := EditLine(Editor(old(Seen(vga, y0, x0)), ""), keys, maxLen);
            && r.done == done && |r.editor.text| < maxLen
            && Mirrors(vga, y, x, dest[..|r.editor.text|], r)
            && (done ==> dest[|r.editor.text|] == '\0')
  {
    hide EditLine, Press, Newline, PutCell, Consistent, Polled, PolledChar;
    ghost var e0 := Editor(Seen(vga, y0, x0), "");
    var i := 0;
    x, y, keys, used := x0, y0, "", 0;
    done := false;
    var k := 0;
    EditStart(e0, maxLen);
    assert arrivals[..0] == [] && dest[..0] == "";
    while i < maxLen - 1
      invariant 0 <= i <= maxLen - 1 && used == k <= |arrivals|
      invariant kb.Valid() && kb.At(Idle) == PollAll(old(kb.At(Idle)), kb.layout, arrivals[..k])
      invariant kb.delivered == old(kb.delivered) + keys && NoNul(keys)
      invariant Mirrors(vga, y, x, dest[..i], EditLine(e0, keys, maxLen))
      invariant EditLine(e0, keys, maxLen).done == (i == maxLen - 1)
      decreases |arrivals| - k
    {
      if k == |arrivals| {
        return;
      }
      ghost var w := kb.At(Idle);
      PolledDelivers(w, kb.layout, arrivals[k]);
      assert arrivals[..k + 1][..k] == arrivals[..k];
      var c := kb.Getc(arrivals[k]);
      k := k + 1;
      used := k;
      if c == '\0' {
        continue;
      }
      i, x, y := OneKey(vga, dest, i, c, x, y, e0, keys, maxLen);
      keys := keys + [c];
      if c == '\n' {
        done := true;
        return;
      }
    }
    dest[i] := '\0';
    done := true;
  }

  /** The key the loop has just received. */
  method OneKey(vga: Vga, dest: array<char>, i0: nat, c: char, x0: int, y0: int,
                ghost e0: Editor, ghost keys: string, maxLen: int)
    returns (i: nat, x: int, y: int)
    requires Valid(e0.view) && Synced(vga, y0, x0) && i0 < maxLen - 1 < dest.Length
    requires Mirrors(vga, y0, x0, dest[..i0], EditLine(e0, keys, maxLen)) && !EditLine(e0, keys, maxLen).done
    modifies vga, vga.buffer, dest
    ensures i <= maxLen - 1 && Mirrors(vga, y, x, dest[..i], EditLine(e0, keys + [c], maxLen))
    ensures EditLine(e0, keys + [c], maxLen).done == (c == '\n' || i == maxLen - 1)
    ensures c == '\n' ==> dest[i] == '\0'
  {
    hide EditLine, Press, Newline;
    ghost var e := EditLine(e0, keys, maxLen).editor;
    EditLineSnoc(e0, keys, c, maxLen);
    EditOneKey(e, c, maxLen);
    if c == '\n' {
      i := i0;
      dest[i] := '\0';
      x, y := EnterKey(vga, x0, y0);
    } else {
      i, x, y := KeyIntoBuffer(vga, dest, i0, c, x0, y0, e);
    }
  }

  lemma EditStart(e: Editor, max: int)
    requires Valid(e.view)
    ensures EditLine(e, "", max) == Edited(e, "", |e.text| >= max - 1, false)
  {
  }

  /** Backspace or a visible key, on the buffer and on the screen. */
  method KeyIntoBuffer(vga: Vga, dest: array<char>, i0: nat, c: char, x0: int, y0: int, ghost e: Editor)
    returns (i: nat, x: int, y: int)
    requires Synced(vga, y0, x0) && i0 < dest.Length
    requires e == Editor(Seen(vga, y0, x0), dest[..i0])
    modifies vga, vga.buffer, dest
    ensures Synced(vga, y, x) && i <= i0 + 1 && i <= dest.Length
    ensures Press(e, c) == Editor(Seen(vga, y, x), dest[..i])
  {
    i, x, y := i0, x0, y0;
    if c == BACKSPACE {
      if i > 0 {
        i := i - 1;
        x, y := RubOutKey(vga, x, y);
      }
      return;
    }
    dest[i] := c;
    i := i + 1;
    x, y := EchoKey(vga, c, x, y);
  }

  /** `input_get` without a prompt: the line starts at the hardware cursor; the column is forgotten afterwards. */
  method InputGet(console: Console, kb: Driver, dest: array<char>, maxLen: int, arrivals: seq<Burst>)
    returns (done: bool, ghost keys: string, ghost used: nat)
    requires kb.Valid() && console.Good() && console.vga.Cursor() < CELLS
    requires 1 <= maxLen <= dest.Length && dest != kb.buffer
    modifies kb, kb.buffer, console, console.vga, console.vga.buffer, dest
    ensures kb.Valid() && used <= |arrivals| && (!done ==> used == |arrivals|)
    ensures kb.At(Idle) == PollAll(old(kb.At(Idle)), kb.layout, arrivals[..used])
    ensures kb.delivered == old(kb.delivered) + keys && NoNul(keys)
    ensures var v := AtCursor(old(console.vga.buffer[..]), old(console.vga.Cursor()));
            var r := EditLine(Editor(v, ""), keys, maxLen);
            && r.done == done && r.rest == "" && |r.editor.text| < maxLen
            && dest[..|r.editor.text|] == r.editor.text
            && (done ==> dest[|r.editor.text|] == '\0')
            && (done ==> console.Good() && console.Now() == r.editor.view.(column := 0))
            && console.vga.Valid() && console.vga.Cursor() == Position(r.editor.view)
  {
    hide EditLine, PollAll;
    var pos := console.vga.GetCursorPosition();
    var x, y := pos % VGA_WIDTH, pos / VGA_WIDTH;
    assert Seen(console.vga, y, x) == AtCursor(console.vga.buffer[..], pos);
    x, y, done, keys, used := KbdGets(kb, console.vga, dest, maxLen, x, y, arrivals);
    if done {
      console.line := y;
      console.cursorColumn := 0;
    }
  }
}
