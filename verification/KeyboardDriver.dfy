/** The driver's globals, updated in place by the interrupt handler and by the reader. */
module KeyboardDriver {
  import opened Keyboard

  class Driver {
    const layout: Layout
    var shiftPressed: bool
    var extendedPrefix: bool
    const buffer: array<char>
    var bufferHead: int
    var bufferTail: int
    ghost var accepted: seq<char>
    ghost var delivered: seq<char>

    /** The state between two steps of a reader that has got as far as `consumer`. */
    ghost function At(consumer: Consumer): World
      reads this, buffer
    {
      World(Decoder(shiftPressed, extendedPrefix), Ring(buffer[..], bufferHead, bufferTail), consumer,
            accepted, delivered)
    }

    ghost predicate Valid()
      reads this, buffer
    {
      IsLayout(layout) && Consistent(At(Idle))
    }

    constructor (layout: Layout)
      requires IsLayout(layout)
      ensures Valid() && this.layout == layout && fresh(buffer)
      ensures accepted == [] && delivered == [] && Waiting(At(Idle).ring) == []
    {
      this.layout := layout;
      buffer := new char[KBD_BUFFER_SIZE];
      bufferHead, bufferTail, shiftPressed, extendedPrefix := 0, 0, false, false;
      accepted, delivered := [], [];
    }

    method BufferPush(c: char)
      requires IsLayout(layout) && IsRing(At(Idle).ring)
      modifies this`bufferHead, this`accepted, buffer
      ensures At(Idle).ring == Put(old(At(Idle).ring), c)
      ensures accepted == old(accepted) + if Full(old(At(Idle).ring)) then [] else [c]
    {
      var next := (bufferHead + 1) % KBD_BUFFER_SIZE;
      if next != bufferTail {
        buffer[bufferHead] := c;
        bufferHead := next;
        accepted := accepted + [c];
      }
    }

    method ScancodeToAscii(scancode: u8) returns (c: char)
      requires IsLayout(layout)
      modifies this`shiftPressed, this`extendedPrefix
      ensures c == Decoded(old(At(Idle).decoder), layout, scancode)
      ensures At(Idle).decoder == NextDecoder(old(At(Idle).decoder), scancode)
    {
      if scancode == EXTENDED_PREFIX {
        extendedPrefix := true;
        return '\0';
      }
      if extendedPrefix {
        extendedPrefix := false;
        return '\0';
      }
      if scancode >= RELEASE_MASK {
        var released := scancode - RELEASE_MASK;
        if released == LSHIFT || released == RSHIFT {
          shiftPressed := false;
        }
        return '\0';
      }
      if scancode == LSHIFT || scancode == RSHIFT {
        shiftPressed := true;
        return '\0';
      }
      var currentMap := if shiftPressed then layout.shift else layout.normal;
      return currentMap[scancode];
    }

    /** The interrupt handler for one scancode from the data port. */
    method KeyboardHandler(scancode: u8, ghost consumer: Consumer)
      requires IsLayout(layout) && Consistent(At(consumer))
      modifies this`shiftPressed, this`extendedPrefix, this`bufferHead, this`accepted, buffer
      ensures At(consumer) == Handle(old(At(consumer)), layout, scancode)
    {
      var c := ScancodeToAscii(scancode);
      if c != '\0' {
        BufferPush(c);
      }
    }

    method Interrupted(codes: seq<u8>, ghost consumer: Consumer)
      requires IsLayout(layout) && Consistent(At(consumer))
      modifies this`shiftPressed, this`extendedPrefix, this`bufferHead, this`accepted, buffer
      ensures At(consumer) == HandleAll(old(At(consumer)), layout, codes)
    {
      hide Handle, Consistent;
      var i := 0;
      assert codes[0..] == codes;
      while i < |codes|
        invariant 0 <= i <= |codes| && Consistent(At(consumer))
        invariant HandleAll(old(At(consumer)), layout, codes) == HandleAll(At(consumer), layout, codes[i..])
      {
        assert codes[i..][0] == codes[i] && codes[i..][1..] == codes[i + 1..];
        HandleConsistent(At(consumer), layout, codes[i]);
        KeyboardHandler(codes[i], consumer);
        i := i + 1;
      }
    }

    /** `kbd_getc_nonblocking` with interrupts arriving between its steps. */
    method Getc(b: Burst) returns (c: char)
      requires Valid()
      modifies this, buffer
      ensures Valid()
      ensures At(Idle) == Polled(old(At(Idle)), layout, b)
      ensures c == PolledChar(old(At(Idle)), layout, b)
    {
      hide HandleAll, Waiting, Consistent;
      Interrupted(b.beforeTest, Idle);
      if bufferHead == bufferTail {
        return '\0';
      }
      NextConsistent(At(Idle), layout, Consume);
      HandleAllKeepsFront(At(Tested), layout, b.beforeRead);
      Interrupted(b.beforeRead, Tested);
      NextConsistent(At(Tested), layout, Consume);
      HasRing(At(Tested));
      c := buffer[bufferTail];
      Interrupted(b.beforeAdvance, Holding(c));
      NextConsistent(At(Holding(c)), layout, Consume);
      bufferTail := (bufferTail + 1) % KBD_BUFFER_SIZE;
      delivered := delivered + [c];
    }
  }
}
