/** From scancodes to the line a user program sees: SYS_READ, SYS_WRITE and `read_line`. */
module LineTransport {
  import opened Word32
  import opened CStrings
  import opened Screen
  import opened Console
  import opened Keyboard
  import opened KeyboardDriver
  import opened LineEditor
  import opened LineInput
  import opened Paging

  const READ_MAX: int := 256
  const FAILED: u32 := 0xFFFF_FFFF

  lemma {:induction false} TypedNoNul(keys: string)
    requires NoNul(keys)
    ensures NoNul(TypedLine(keys))
  {
    if keys != "" {
      TypedNoNul(keys[..|keys| - 1]);
    }
  }

  /** The edit that a read of at most `len` bytes makes of some keys, starting at the hardware cursor. */
  function ReadEdit(cells: seq<Cell>, cursor: int, keys: string, len: int): (r: Edited)
    requires |cells| == CELLS && 0 <= cursor < CELLS
    ensures Valid(r.editor.view)
  {
    EditLine(Editor(AtCursor(cells, cursor), ""), keys, Min(len, READ_MAX))
  }

  function ReadText(cells: seq<Cell>, cursor: int, keys: string, len: int): string
    requires |cells| == CELLS && 0 <= cursor < CELLS
  {
    ReadEdit(cells, cursor, keys, len).editor.text
  }

  lemma ReadTextFits(cells: seq<Cell>, cursor: int, keys: string, len: int)
    requires |cells| == CELLS && 0 <= cursor < CELLS && NoNul(keys) && len >= 1
    ensures NoNul(ReadText(cells, cursor, keys, len))
    ensures |ReadText(cells, cursor, keys, len)| < Min(len, READ_MAX)
  {
    hide EditLine, EditKeys, TypedLine;
    var max := Min(len, READ_MAX);
    TextIsTyped(AtCursor(cells, cursor), keys, max);
    var r := EditLine(Editor(AtCursor(cells, cursor), ""), keys, max);
    EditKeysArePrefix(keys, r);
    TypedNoNul(EditKeys(keys, r));
  }

  lemma EditKeysArePrefix(keys: string, r: Edited)
    requires |r.rest| <= |keys| && (r.entered ==> |r.rest| < |keys|) && NoNul(keys)
    ensures EditKeys(keys, r) <= keys && NoNul(EditKeys(keys, r))
  {
  }

  /** `old` with `text` written from index `a` on. */
  function Written(old': seq<char>, a: nat, text: string): seq<char>
    requires a + |text| <= |old'|
  {
    old'[..a] + text + old'[a + |text|..]
  }

  lemma WrittenIs(old': seq<char>, new': seq<char>, a: nat, text: string)
    requires a + |text| <= |old'| == |new'|
    requires new'[..a] == old'[..a] && new'[a..a + |text|] == text
    requires new'[a + |text|..] == old'[a + |text|..]
    ensures new' == Written(old', a, text)
  {
  }

  lemma WrittenParts(old': seq<char>, a: nat, text: string)
    requires a + |text| <= |old'|
    ensures var w := Written(old', a, text);
            |w| == |old'| && w[..a] == old'[..a] && w[a..a + |text|] == text && w[a + |text|..] == old'[a + |text|..]
  {
  }

  /** Turning the newline into a NUL is writing the NUL in the first place. */
  lemma WrittenTerminated(old': seq<char>, a: nat, text: string)
    requires a + |text| < |old'|
    ensures |Written(old', a, text + "\n")| == |old'|
    ensures Written(old', a, text + "\n")[a + |text| := '\0'] == Written(old', a, text + "\0")
  {
  }

  lemma WrittenText(old': seq<char>, a: nat, text: string)
    requires a + |text| < |old'| && NoNul(text)
    ensures var w := Written(old', a, text + "\0");
            |w| == |old'| && Terminated(w[a..]) && Text(w[a..]) == text
  {
    var s := Written(old', a, text + "\0")[a..];
    assert s[..|text|] == text;
    TextIs(s, |text|);
  }

  /** The two ways SYS_READ ends, as `read_line` sees them. */
  lemma CountSeen(buf: u32, max: int, eax: u32)
    requires InUserRegion(buf) && -SIGN_BIT <= max < SIGN_BIT
    ensures Wrap(max) == 0 || !UserRangeOk(buf, Wrap(max)) <==> max <= 0 || !UserRangeOk(buf, max)
    ensures max > 0 ==> Wrap(max) == max
    ensures 1 <= eax <= READ_MAX ==> Signed(eax) == eax
  {
    if max < 0 {
      RangeOkIsContainment(buf, Wrap(max));
    }
  }

  class Kernel {
    const console: Console
    const kb: Driver
    const user: array<char>  // the user region, from USER_BASE on

    ghost function Repr(): set<object> {
      {console, console.vga, console.vga.buffer, kb, kb.buffer, user}
    }

    ghost predicate Valid()
      reads Repr(), console
    {
      && kb.Valid() && console.vga.Valid() && console.vga.Cursor() < CELLS
      && user.Length == USER_REGION_SIZE && user != kb.buffer
    }

    constructor (console: Console, kb: Driver, user: array<char>)
      requires kb.Valid() && console.vga.Valid() && console.vga.Cursor() < CELLS
      requires user.Length == USER_REGION_SIZE && user != kb.buffer
      ensures Valid()
    {
      this.console, this.kb, this.user := console, kb, user;
    }

    /** The read took exactly the keys that complete its line, and the console goes on where the edit ended. */
    ghost predicate Completed(cells: seq<Cell>, cursor: int, keys: string, len: int)
      reads console, console.vga, console.vga.buffer
      requires |cells| == CELLS && 0 <= cursor < CELLS
    {
      var r := ReadEdit(cells, cursor, keys, len);
      r.done && r.rest == "" && console.Good() && console.Now() == r.editor.view.(column := 0)
    }

    /** SYS_WRITE: the bytes of an accepted range go to the console; a refused one changes nothing. */
    method SysWrite(addr: u32, len: u32) returns (eax: u32)
      requires Valid() && console.Good()
      modifies console, console.vga, console.vga.buffer
      ensures Valid() && console.Good()
      ensures !UserRangeOk(addr, len) ==> Signed(eax) == -1 && console.Now() == old(console.Now())
      ensures UserRangeOk(addr, len) ==>
                var a := addr - USER_BASE;
                && eax == len && console.Now() == EchoAll(old(console.Now()), user[a..a + len])
                && AtCursor(console.vga.buffer[..], console.vga.Cursor()) == console.Now()
    {
      hide EchoAll, Consistent, UserRangeOk;
      if !UserRangeOk(addr, len) {
        return FAILED;
      }
      RangeOkIsContainment(addr, len);
      var a := addr - USER_BASE;
      console.Write(user[a..a + len]);
      eax := len;
    }

    /** SYS_READ; `done` is false while it waits for more keys than `arrivals` brings. */
    method SysRead(addr: u32, len: u32, arrivals: seq<Burst>)
      returns (eax: u32, done: bool, ghost keys: string, ghost used: nat)
      requires Valid() && console.Good()
      modifies Repr()
      ensures Valid() && used <= |arrivals| && (!done ==> used == |arrivals|)
      ensures kb.At(Idle) == PollAll(old(kb.At(Idle)), kb.layout, arrivals[..used])
      ensures kb.delivered == old(kb.delivered) + keys && NoNul(keys)
      ensures len == 0 || !UserRangeOk(addr, len) ==>
                done && Signed(eax) == -1 && used == 0 && user[..] == old(user[..])
      ensures len != 0 && UserRangeOk(addr, len) && done ==>
                var a := addr - USER_BASE;
                var text := ReadText(old(console.vga.buffer[..]), old(console.vga.Cursor()), keys, len);
                && eax == |text| + 1 <= Min(len, READ_MAX)
                && Completed(old(console.vga.buffer[..]), old(console.vga.Cursor()), keys, len)
                && a + eax <= a + len <= |user[..]|
                && user[..] == Written(old(user[..]), a, text + "\n")
    {
      hide EditLine, PollAll, ReadText, ReadEdit, Written, Newline, AtCursor;
      keys, used := "", 0;
      assert arrivals[..0] == [];
      PollNone(kb.At(Idle), kb.layout);
      if len == 0 || !UserRangeOk(addr, len) {
        return FAILED, true, keys, used;
      }
      RangeOkIsContainment(addr, len);
      var max := if len > READ_MAX then READ_MAX else len;
      var kbuf := new char[READ_MAX];
      ghost var cells, cursor := console.vga.buffer[..], console.vga.Cursor();
      done, keys, used := InputGet(console, kb, kbuf, max, arrivals);
      eax := 0;
      if done {
        ghost var text := ReadText(cells, cursor, keys, len);
        ReadEditIs(cells, cursor, keys, len);
        ReadTextFits(cells, cursor, keys, len);
        var n := CopyOut(kbuf, addr - USER_BASE, max, text);
        eax := n;
      }
    }

    /** Measures the line in the kernel buffer and copies it out with a newline. */
    method CopyOut(kbuf: array<char>, a: nat, max: int, ghost text: string) returns (n: nat)
      requires 1 <= max <= kbuf.Length && a + max <= user.Length && kbuf != user
      requires |text| < max && NoNul(text) && kbuf[..|text|] == text && kbuf[|text|] == '\0'
      modifies user
      ensures n == |text| + 1 && user[..] == Written(old(user[..]), a, text + "\n")
    {
      hide Written, Text;
      n := 0;
      while n < max - 1 && kbuf[n] != '\0'
        invariant 0 <= n <= |text|
      {
        n := n + 1;
      }
      EndOfText(kbuf[..], text, n);
      CopyBytes(kbuf, a, n);
      user[a + n] := '\n';
      n := n + 1;
      assert user[a..a + n] == text + "\n";
      WrittenIs(old(user[..]), user[..], a, text + "\n");
    }

    method CopyBytes(kbuf: array<char>, a: nat, n: nat)
      requires n <= kbuf.Length && a + n <= user.Length && kbuf != user
      modifies user
      ensures user[a..a + n] == kbuf[..n]
      ensures user[..a] == old(user[..a]) && user[a + n..] == old(user[a + n..])
    {
      var i := 0;
      while i < n
        invariant 0 <= i <= n
        invariant user[a..a + i] == kbuf[..i]
        invariant user[..a] == old(user[..a]) && user[a + i..] == old(user[a + i..])
      {
        user[a + i] := kbuf[i];
        i := i + 1;
      }
    }

    /** `read_line` of the user library: the newline becomes the NUL, and nothing is ever cut off. */
    method ReadLine(buf: u32, max: int, arrivals: seq<Burst>)
      returns (n: int, done: bool, ghost clamped: bool, ghost keys: string, ghost used: nat)
      requires Valid() && console.Good() && InUserRegion(buf) && -SIGN_BIT <= max < SIGN_BIT
      modifies Repr()
      ensures Valid() && used <= |arrivals| && (!done ==> used == |arrivals|)
      ensures kb.At(Idle) == PollAll(old(kb.At(Idle)), kb.layout, arrivals[..used])
      ensures kb.delivered == old(kb.delivered) + keys && NoNul(keys)
      ensures max <= 0 || !UserRangeOk(buf, max) ==>
                done && n == 0 && user[..] == Written(old(user[..]), buf - USER_BASE, "\0")
      ensures max > 0 && UserRangeOk(buf, max) && done ==>
                var a := buf - USER_BASE;
                var text := ReadText(old(console.vga.buffer[..]), old(console.vga.Cursor()), keys, max);
                && !clamped && n == |text| < Min(max, READ_MAX) && NoNul(text)
                && Completed(old(console.vga.buffer[..]), old(console.vga.Cursor()), keys, max)
                && a + n + 1 <= |user[..]|
                && user[..] == Written(old(user[..]), a, text + "\0")
                && Terminated(user[..][a..]) && Text(user[..][a..]) == text
    {
      hide ReadText, ReadEdit, PollAll, Written, EchoAll, UserRangeOk, Consistent, Wrap, Signed, Text;
      var a := buf - USER_BASE;
      var eax: u32;
      ghost var cells, cursor := console.vga.buffer[..], console.vga.Cursor();
      ghost var before := user[..];
      eax, done, keys, used := SysRead(buf, Wrap(max), arrivals);
      n, clamped := 0, false;
      CountSeen(buf, max, eax);
      if done {
        n := Signed(eax);
        if n <= 0 {
          EmptyLine(a);
          n := 0;
        } else {
          RangeOkIsContainment(buf, max);
          ghost var text := ReadText(cells, cursor, keys, max);
          ReadTextFits(cells, cursor, keys, max);
          n, clamped := EndLine(a, n, max, before, text);
          WrittenText(before, a, text);
        }
      }
    }

    /** The line when SYS_READ brought nothing. */
    method EmptyLine(a: nat)
      requires a < user.Length
      modifies user
      ensures user[..] == Written(old(user[..]), a, "\0")
    {
      user[a] := '\0';
    }

    /** The end of `read_line`, on a line of `count` bytes ending in a newline. */
    method EndLine(a: nat, count: int, max: int, ghost before: seq<char>, ghost text: string)
      returns (n: int, ghost clamped: bool)
      requires count == |text| + 1 <= max && a + count <= |before| == user.Length
      requires user[..] == Written(before, a, text + "\n")
      modifies user
      ensures n == |text| && !clamped
      ensures user[..] == Written(before, a, text + "\0")
    {
      hide Written;
      n, clamped := count, false;
      WrittenParts(before, a, text + "\n");
      assert user[a + n - 1] == user[..][a..a + n][n - 1];
      if user[a + n - 1] == '\n' {
        n := n - 1;
      }
      if n >= max {
        clamped := true;
        n := max - 1;
      }
      WrittenTerminated(before, a, text);
      user[a + n] := '\0';
    }
  }

  lemma EndOfText(s: seq<char>, text: string, n: nat)
    requires n <= |text| < |s| && s[..|text|] == text && NoNul(text)
    requires n == |text| || s[n] == '\0'
    ensures n == |text|
  {
  }

  lemma PollNone(w: World, l: Layout)
    requires IsLayout(l) && Consistent(w) && w.consumer == Idle
    ensures PollAll(w, l, []) == w
  {
  }

  lemma ReadEditIs(cells: seq<Cell>, cursor: int, keys: string, len: int)
    requires |cells| == CELLS && 0 <= cursor < CELLS
    ensures ReadEdit(cells, cursor, keys, len)
         == EditLine(Editor(AtCursor(cells, cursor), ""), keys, Min(len, READ_MAX))
    ensures ReadText(cells, cursor, keys, len) == ReadEdit(cells, cursor, keys, len).editor.text
  {
  }

  // ----- End to end -----

  /** Every interrupt and consumer step that a sequence of reader calls goes through. */
  function AllSteps(w: World, l: Layout, bursts: seq<Burst>): seq<Step>
    requires IsLayout(l) && Consistent(w) && w.consumer == Idle
  {
    if bursts == [] then []
    else
      var before := bursts[..|bursts| - 1];
      AllSteps(w, l, before) + PollSteps(PollAll(w, l, before), l, bursts[|bursts| - 1])
  }

  lemma {:induction false} PollAllRuns(w: World, l: Layout, bursts: seq<Burst>)
    requires IsLayout(l) && Consistent(w) && w.consumer == Idle
    ensures PollAll(w, l, bursts) == Run(w, l, AllSteps(w, l, bursts))
  {
    if bursts == [] {
      RunNothing(w, l);
    } else {
      hide Polled, PollSteps, Run, Consistent;
      var before, last := bursts[..|bursts| - 1], bursts[|bursts| - 1];
      PollAllRuns(w, l, before);
      PolledIsRun(PollAll(w, l, before), l, last);
      RunBoth(w, l, AllSteps(w, l, before), PollSteps(PollAll(w, l, before), l, last));
    }
  }

  /** The characters the scancodes of these calls stand for. */
  function TypedChars(w: World, l: Layout, bursts: seq<Burst>): string
    requires IsLayout(l) && Consistent(w) && w.consumer == Idle
  {
    DecodeAll(w.decoder, l, CodesOf(AllSteps(w, l, bursts)))
  }

  /** The characters the ring accepted during these calls. */
  function AcceptedChars(w: World, l: Layout, bursts: seq<Burst>): string
    requires IsLayout(l) && Consistent(w) && w.consumer == Idle
  {
    var u := PollAll(w, l, bursts);
    if |w.accepted| <= |u.accepted| then u.accepted[|w.accepted|..] else ""
  }

  lemma {:induction false} AcceptedGrows(w: World, l: Layout, bursts: seq<Burst>)
    requires IsLayout(l) && Consistent(w) && w.consumer == Idle
    ensures w.accepted <= PollAll(w, l, bursts).accepted
  {
    if bursts != [] {
      hide Consistent, HandleAll;
      AcceptedGrows(w, l, bursts[..|bursts| - 1]);
    }
  }

  lemma AcceptedSplits(w: World, l: Layout, bursts: seq<Burst>)
    requires IsLayout(l) && Consistent(w) && w.consumer == Idle
    ensures PollAll(w, l, bursts).accepted == w.accepted + AcceptedChars(w, l, bursts)
  {
    hide Consistent, PollAll;
    AcceptedGrows(w, l, bursts);
  }

  lemma CancelFront(front: string, a: string, b: string)
    requires front + a == front + b
    ensures a == b
  {
    assert a == (front + a)[|front|..];
    assert b == (front + b)[|front|..];
  }

  lemma CancelRegrouped(front: string, a: string, b: string, c: string, d: string)
    requires front + a + b == front + c + d
    ensures a + b == c + d
  {
    assert front + (a + b) == front + a + b;
    assert front + (c + d) == front + c + d;
    CancelFront(front, a + b, c + d);
  }

  /**
    Nothing is lost between reads: what was waiting and what is accepted during these calls is what they deliver and
    what they leave waiting.
   */
  lemma DeliveredIsAccepted(w: World, l: Layout, bursts: seq<Burst>, keys: string)
    requires IsLayout(l) && Consistent(w) && w.consumer == Idle
    requires PollAll(w, l, bursts).delivered == w.delivered + keys
    ensures Waiting(w.ring) + AcceptedChars(w, l, bursts) == keys + Waiting(PollAll(w, l, bursts).ring)
  {
    AcceptedSplits(w, l, bursts);
    var u, a := PollAll(w, l, bursts), AcceptedChars(w, l, bursts);
    assert w.accepted == w.delivered + Waiting(w.ring) && u.accepted == u.delivered + Waiting(u.ring);
    hide *;
    CancelRegrouped(w.delivered, Waiting(w.ring), a, keys, Waiting(u.ring));
  }

  /** Everything typed is accepted exactly when no interrupt with a character finds the ring full. */
  lemma AcceptedIsTyped(w: World, l: Layout, bursts: seq<Burst>)
    requires IsLayout(l) && Consistent(w) && w.consumer == Idle
    ensures AcceptedChars(w, l, bursts) == TypedChars(w, l, bursts) <==> NoneDropped(w, l, AllSteps(w, l, bursts))
  {
    AcceptedSplits(w, l, bursts);
    hide AllSteps, PollAll, DecodeAll, Decoded, NextDecoder, AcceptedChars, NoneDropped, Run, Consistent;
    PollAllRuns(w, l, bursts);
    AllAcceptedIffNoneDropped(w, l, AllSteps(w, l, bursts));
    if w.accepted + AcceptedChars(w, l, bursts) == w.accepted + TypedChars(w, l, bursts) {
      CancelFront(w.accepted, AcceptedChars(w, l, bursts), TypedChars(w, l, bursts));
    }
  }

  /** So it is whenever what is waiting and what is typed fit in the ring together. */
  lemma ShortTypingIsAccepted(w: World, l: Layout, bursts: seq<Burst>)
    requires IsLayout(l) && Consistent(w) && w.consumer == Idle
    requires |Waiting(w.ring)| + |TypedChars(w, l, bursts)| < KBD_BUFFER_SIZE
    ensures AcceptedChars(w, l, bursts) == TypedChars(w, l, bursts)
  {
    hide AllSteps, PollAll, DecodeAll, Decoded, NextDecoder, AcceptedChars, NoneDropped, Run, Consistent;
    NothingDropped(w, l, AllSteps(w, l, bursts));
    AcceptedIsTyped(w, l, bursts);
  }

  /**
    End to end, in the terms of `ReadLine`: whatever was waiting and whenever the scancodes come, a read that finishes
    edits the characters waiting and accepted, up to the first Enter or the full buffer, and leaves the rest waiting.
   */
  lemma LineIsWhatWasAccepted(w: World, l: Layout, bursts: seq<Burst>, keys: string,
                              cells: seq<Cell>, cursor: int, len: int)
    requires IsLayout(l) && Consistent(w) && w.consumer == Idle
    requires PollAll(w, l, bursts).delivered == w.delivered + keys
    requires |cells| == CELLS && 0 <= cursor < CELLS && len >= 1
    ensures var line := Waiting(w.ring) + AcceptedChars(w, l, bursts);
            var start, max := Editor(AtCursor(cells, cursor), ""), Min(len, READ_MAX);
            var r := EditLine(start, keys, max);
            && ReadText(cells, cursor, keys, len) == TypedLine(EditKeys(keys, r))
            && EditKeys(keys, r) <= line
            && (r.entered ==> EditKeys(keys, r) == line[..IndexOf(line, '\n')])
            && (r.done && !r.entered ==>
                 |ReadText(cells, cursor, keys, len)| == (if len < 256 then len else 256) - 1)
            && (r.done ==>
                 && ReadText(cells, cursor, keys, len) == ReadText(cells, cursor, line, len)
                 && EditLine(start, line, max).rest == r.rest + Waiting(PollAll(w, l, bursts).ring))
  {
    DeliveredIsAccepted(w, l, bursts, keys);
    var line := Waiting(w.ring) + AcceptedChars(w, l, bursts);
    hide AcceptedChars, TypedLine, EditLine, PollAll, Waiting, Consistent;
    var v, max := AtCursor(cells, cursor), Min(len, READ_MAX);
    TextIsTyped(v, keys, max);
    var r := EditLine(Editor(v, ""), keys, max);
    KeysBeforeEnter(line, keys, r);
    if r.done {
      FinishedIgnoresMore(Editor(v, ""), keys, Waiting(PollAll(w, l, bursts).ring), max);
    }
    hide EditKeys, IndexOf;
  }

  lemma KeysBeforeEnter(line: string, keys: string, r: Edited)
    requires |r.rest| <= |keys|
    requires r.entered ==> |r.rest| < |keys| && keys[|keys| - |r.rest| - 1] == '\n'
    requires keys <= line && '\n' !in EditKeys(keys, r)
    ensures EditKeys(keys, r) <= line
    ensures r.entered ==> EditKeys(keys, r) == line[..IndexOf(line, '\n')]
  {
  }
}
