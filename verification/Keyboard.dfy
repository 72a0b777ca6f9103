/** The keyboard driver: scancode decoder, and a ring filled by interrupts while the main line drains it. */
module Keyboard {
  const KBD_BUFFER_SIZE: int := 256

  const EXTENDED_PREFIX: int := 0xE0
  const RELEASE_MASK: int := 0x80
  const LSHIFT: int := 0x2A
  const RSHIFT: int := 0x36

  type u8 = x: int | 0 <= x < 256

  // ----- Decoder -----

  /** Two tables of 128 characters; NUL where a key has none. */
  datatype Layout = Layout(normal: seq<char>, shift: seq<char>)

  ghost predicate IsLayout(l: Layout) {
    |l.normal| == 128 && |l.shift| == 128
  }

  datatype Decoder = Decoder(shift: bool, extended: bool)

  predicate IsShift(code: int) {
    code == LSHIFT || code == RSHIFT
  }

  function NextDecoder(d: Decoder, code: u8): Decoder {
    if code == EXTENDED_PREFIX then d.(extended := true)
    else if d.extended then d.(extended := false)
    else if code >= RELEASE_MASK then if IsShift(code - RELEASE_MASK) then d.(shift := false) else d
    else if IsShift(code) then d.(shift := true)
    else d
  }

  /** The character a scancode stands for, or NUL. */
  function Decoded(d: Decoder, l: Layout, code: u8): char
    requires IsLayout(l)
  {
    if code == EXTENDED_PREFIX || d.extended || code >= RELEASE_MASK || IsShift(code) then '\0'
    else (if d.shift then l.shift else l.normal)[code]
  }

  function AfterCodes(d: Decoder, codes: seq<u8>): Decoder
    decreases |codes|
  {
    if codes == [] then d else AfterCodes(NextDecoder(d, codes[0]), codes[1..])
  }

  /** Scancodes without the two-byte ones: a prefix, or several, and the byte after it. */
  function WithoutExtended(codes: seq<u8>, extended: bool): seq<u8>
    decreases |codes|
  {
    if codes == [] then []
    else if codes[0] == EXTENDED_PREFIX then WithoutExtended(codes[1..], true)
    else if extended then WithoutExtended(codes[1..], false)
    else [codes[0]] + WithoutExtended(codes[1..], false)
  }

  /** Was the last press or release of a shift key a press? */
  function ShiftHeld(plain: seq<u8>, before: bool): bool
    decreases |plain|
  {
    if plain == [] then before
    else
      var last := plain[|plain| - 1];
      if IsShift(last) then true
      else if last >= RELEASE_MASK && IsShift(last - RELEASE_MASK) then false
      else ShiftHeld(plain[..|plain| - 1], before)
  }

  lemma {:induction false} ShiftHeldFirst(code: u8, rest: seq<u8>, before: bool)
    ensures ShiftHeld([code] + rest, before) == ShiftHeld(rest, ShiftHeld([code], before))
    decreases |rest|
  {
    if rest == [] {
      assert [code] + rest == [code];
    } else {
      var n := |rest| - 1;
      assert ([code] + rest)[..n + 1] == [code] + rest[..n];
      ShiftHeldFirst(code, rest[..n], before);
    }
  }

  /** The decoder's shift is the last shift key event that is not part of an extended scancode. */
  lemma {:induction false} DecoderTracksShift(d: Decoder, codes: seq<u8>)
    ensures AfterCodes(d, codes).shift == ShiftHeld(WithoutExtended(codes, d.extended), d.shift)
    decreases |codes|
  {
    if codes != [] {
      DecoderTracksShift(NextDecoder(d, codes[0]), codes[1..]);
      ShiftHeldFirst(codes[0], WithoutExtended(codes[1..], false), d.shift);
      assert [codes[0]][..0] == [];
    }
  }

  // ----- Ring -----

  datatype Ring = Ring(buffer: seq<char>, head: int, tail: int)

  ghost predicate IsRing(r: Ring) {
    |r.buffer| == KBD_BUFFER_SIZE && 0 <= r.head < KBD_BUFFER_SIZE && 0 <= r.tail < KBD_BUFFER_SIZE
  }

  /** The characters waiting, oldest first. */
  function Waiting(r: Ring): (s: seq<char>)
    requires IsRing(r)
  {
    if r.tail <= r.head then r.buffer[r.tail..r.head] else r.buffer[r.tail..] + r.buffer[..r.head]
  }

  /** The slot after the head is the tail: one slot always stays free. */
  predicate Full(r: Ring)
    requires IsRing(r)
  {
    (r.head + 1) % KBD_BUFFER_SIZE == r.tail
  }

  function Put(r: Ring, c: char): Ring
    requires IsRing(r)
  {
    if Full(r) then r else r.(buffer := r.buffer[r.head := c], head := (r.head + 1) % KBD_BUFFER_SIZE)
  }

  function TakeFront(r: Ring): Ring
    requires IsRing(r)
  {
    r.(tail := (r.tail + 1) % KBD_BUFFER_SIZE)
  }

  lemma FullWaiting(r: Ring)
    requires IsRing(r)
    ensures |Waiting(r)| <= 255 && (Full(r) <==> |Waiting(r)| == 255)
  {
  }

  /** A character is dropped exactly when 255 are waiting; otherwise it goes last. */
  lemma PutWaiting(r: Ring, c: char)
    requires IsRing(r)
    ensures IsRing(Put(r, c)) && |Waiting(r)| <= 255
    ensures Full(r) <==> |Waiting(r)| == 255
    ensures Waiting(Put(r, c)) == if Full(r) then Waiting(r) else Waiting(r) + [c]
  {
    FullWaiting(r);
    if !Full(r) {
      PutLast(r, c);
    }
    hide Waiting;
  }

  lemma PutLast(r: Ring, c: char)
    requires IsRing(r) && !Full(r)
    ensures Waiting(Put(r, c)) == Waiting(r) + [c]
  {
    if r.tail > r.head {
      assert r.buffer[r.head := c][..r.head + 1] == r.buffer[..r.head] + [c];
    }
  }

  lemma SplitFirst(s: seq<char>, i: nat, rest: seq<char>)
    requires i < |s|
    ensures s[i..] + rest == [s[i]] + (s[i + 1..] + rest)
  {
  }

  lemma TakeFrontWaiting(r: Ring)
    requires IsRing(r) && r.head != r.tail
    ensures IsRing(TakeFront(r)) && Waiting(r) == [r.buffer[r.tail]] + Waiting(TakeFront(r))
  {
    if r.tail < r.head {
      assert TakeFront(r).tail == r.tail + 1;
    } else if r.tail < KBD_BUFFER_SIZE - 1 {
      assert TakeFront(r).tail == r.tail + 1;
      SplitFirst(r.buffer, r.tail, r.buffer[..r.head]);
    } else {
      assert TakeFront(r).tail == 0;
      SplitFirst(r.buffer, r.tail, r.buffer[..r.head]);
      assert r.buffer[r.tail + 1..] + r.buffer[..r.head] == r.buffer[0..r.head];
    }
  }

  lemma EmptyIffEqual(r: Ring)
    requires IsRing(r)
    ensures Waiting(r) == [] <==> r.head == r.tail
  {
  }

  // ----- Interleaving -----

  /** Where the consumer is inside `kbd_getc_nonblocking`: outside, past the test, or past the read. */
  datatype Consumer = Idle | Tested | Holding(c: char)

  /** Driver state, with every character accepted into the ring and every one delivered so far. */
  datatype World = World(
    decoder: Decoder, ring: Ring, consumer: Consumer, accepted: seq<char>, delivered: seq<char>)

  datatype Step = Interrupt(code: u8) | Consume

  /** The whole interrupt handler runs between two consumer steps. */
  function Handle(w: World, l: Layout, code: u8): World
    requires IsLayout(l) && IsRing(w.ring)
  {
    var c := Decoded(w.decoder, l, code);
    var w1 := w.(decoder := NextDecoder(w.decoder, code));
    if c == '\0' || Full(w.ring) then w1
    else w1.(ring := Put(w.ring, c), accepted := w.accepted + [c])
  }

  /** One of the consumer's three steps: test, read, advance. */
  function Consumed(w: World): World
    requires IsRing(w.ring)
  {
    match w.consumer
    case Idle => if w.ring.head == w.ring.tail then w else w.(consumer := Tested)
    case Tested => w.(consumer := Holding(w.ring.buffer[w.ring.tail]))
    case Holding(c) => w.(ring := TakeFront(w.ring), consumer := Idle, delivered := w.delivered + [c])
  }

  function Next(w: World, l: Layout, step: Step): World
    requires IsLayout(l) && IsRing(w.ring)
  {
    match step
    case Interrupt(code) => Handle(w, l, code)
    case Consume => Consumed(w)
  }

  /** Nothing lost, repeated or reordered between acceptance and delivery. */
  ghost predicate Consistent(w: World) {
    && IsRing(w.ring)
    && w.accepted == w.delivered + Waiting(w.ring)
    && '\0' !in w.accepted
    && (w.consumer != Idle ==> w.ring.head != w.ring.tail)
    && (w.consumer.Holding? ==> w.consumer.c == w.ring.buffer[w.ring.tail])
  }

  lemma HasRing(w: World)
    requires Consistent(w)
    ensures IsRing(w.ring)
  {
  }

  lemma NextConsistent(w: World, l: Layout, step: Step)
    requires IsLayout(l) && Consistent(w)
    ensures Consistent(Next(w, l, step))
  {
    match step
    case Interrupt(code) => HandleConsistent(w, l, code);
    case Consume =>
      if w.consumer.Holding? {
        TakeFrontWaiting(w.ring);
        assert w.delivered + ([w.consumer.c] + Waiting(TakeFront(w.ring)))
            == w.delivered + [w.consumer.c] + Waiting(TakeFront(w.ring));
      }
  }

  lemma HandleConsistent(w: World, l: Layout, code: u8)
    requires IsLayout(l) && Consistent(w)
    ensures Consistent(Handle(w, l, code))
    ensures Handle(w, l, code).accepted
         == w.accepted + if |Waiting(w.ring)| < KBD_BUFFER_SIZE - 1 then CharOf(Decoded(w.decoder, l, code)) else []
    ensures |Waiting(Handle(w, l, code).ring)| <= |Waiting(w.ring)| + |CharOf(Decoded(w.decoder, l, code))|
  {
    var c := Decoded(w.decoder, l, code);
    PutWaiting(w.ring, c);
    hide Waiting, Decoded;
    assert w.delivered + (Waiting(w.ring) + [c]) == w.delivered + Waiting(w.ring) + [c];
  }

  /** The interrupt handler queues nothing for NUL. */
  function CharOf(c: char): seq<char> {
    if c == '\0' then [] else [c]
  }

  function Run(w: World, l: Layout, steps: seq<Step>): (u: World)
    requires IsLayout(l) && Consistent(w)
    ensures Consistent(u)
    decreases |steps|
  {
    if steps == [] then w
    else
      NextConsistent(w, l, steps[0]);
      Run(Next(w, l, steps[0]), l, steps[1..])
  }

  /** Under every interleaving, what is delivered is a prefix of what was accepted, at most 255 characters behind. */
  lemma DeliveredIsPrefix(w: World, l: Layout, steps: seq<Step>)
    requires IsLayout(l) && Consistent(w)
    ensures var u := Run(w, l, steps);
            && u.delivered <= u.accepted
            && |u.accepted| - |u.delivered| < KBD_BUFFER_SIZE
            && '\0' !in u.delivered
  {
  }

  // ----- What the codes of a run decode to -----

  function CodesOf(steps: seq<Step>): seq<u8>
    decreases |steps|
  {
    if steps == [] then []
    else (if steps[0].Interrupt? then [steps[0].code] else []) + CodesOf(steps[1..])
  }

  function DecodeAll(d: Decoder, l: Layout, codes: seq<u8>): seq<char>
    requires IsLayout(l)
    decreases |codes|
  {
    if codes == [] then []
    else CharOf(Decoded(d, l, codes[0])) + DecodeAll(NextDecoder(d, codes[0]), l, codes[1..])
  }

  lemma {:induction false} DecodeLast(d: Decoder, l: Layout, codes: seq<u8>, code: u8)
    requires IsLayout(l)
    ensures DecodeAll(d, l, codes + [code]) == DecodeAll(d, l, codes) + CharOf(Decoded(AfterCodes(d, codes), l, code))
    decreases |codes|
  {
    hide Decoded, NextDecoder, CharOf;
    if codes == [] {
      assert codes + [code] == [code] && [code][1..] == [];
    } else {
      var d1 := NextDecoder(d, codes[0]);
      assert (codes + [code])[0] == codes[0] && (codes + [code])[1..] == codes[1..] + [code];
      DecodeLast(d1, l, codes[1..], code);
      var first, last := CharOf(Decoded(d, l, codes[0])), CharOf(Decoded(AfterCodes(d1, codes[1..]), l, code));
      assert first + (DecodeAll(d1, l, codes[1..]) + last) == first + DecodeAll(d1, l, codes[1..]) + last;
    }
  }

  /** Does the next code belong to an extended one? */
  predicate EndsInPrefix(codes: seq<u8>, before: bool) {
    if codes == [] then before else codes[|codes| - 1] == 0xE0
  }

  lemma {:induction false} DecoderTracksPrefix(d: Decoder, codes: seq<u8>)
    ensures AfterCodes(d, codes).extended == EndsInPrefix(codes, d.extended)
    decreases |codes|
  {
    if codes != [] {
      DecoderTracksPrefix(NextDecoder(d, codes[0]), codes[1..]);
      assert NextDecoder(d, codes[0]).extended == (codes[0] == 0xE0);
    }
  }

  /**
    What a code types after any others: the character of its key in the table that the last shift event chose; releases,
    shift keys and extended codes type nothing.
   */
  lemma KeyTypes(d: Decoder, l: Layout, codes: seq<u8>, code: u8)
    requires IsLayout(l)
    ensures var silent := EndsInPrefix(codes, d.extended) || code >= 0x80 || code == 0x2A || code == 0x36;
            var held := ShiftHeld(WithoutExtended(codes, d.extended), d.shift);
            DecodeAll(d, l, codes + [code]) == DecodeAll(d, l, codes)
              + if silent then [] else CharOf(if held then l.shift[code] else l.normal[code])
  {
    DecodeLast(d, l, codes, code);
    DecoderTracksShift(d, codes);
    DecoderTracksPrefix(d, codes);
    hide DecodeAll, AfterCodes, ShiftHeld, WithoutExtended, EndsInPrefix;
  }

  /** The character a step brings, if any. */
  function CharOfStep(w: World, l: Layout, step: Step): seq<char>
    requires IsLayout(l)
  {
    if step.Interrupt? then CharOf(Decoded(w.decoder, l, step.code)) else []
  }

  /** No interrupt that brings a character finds the ring full. */
  ghost predicate NoneDropped(w: World, l: Layout, steps: seq<Step>)
    requires IsLayout(l) && Consistent(w)
    decreases |steps|
  {
    if steps == [] then true
    else
      NextConsistent(w, l, steps[0]);
      (CharOfStep(w, l, steps[0]) == [] || !Full(w.ring)) && NoneDropped(Next(w, l, steps[0]), l, steps[1..])
  }

  lemma StepDecodes(w: World, l: Layout, steps: seq<Step>)
    requires IsLayout(l) && Consistent(w) && steps != []
    ensures var c, w1 := CharOfStep(w, l, steps[0]), Next(w, l, steps[0]);
            && DecodeAll(w.decoder, l, CodesOf(steps)) == c + DecodeAll(w1.decoder, l, CodesOf(steps[1..]))
            && w1.accepted == w.accepted + (if Full(w.ring) then [] else c)
            && |Waiting(w1.ring)| <= |Waiting(w.ring)| + |c|
  {
    hide Decoded, NextDecoder, Waiting;
    match steps[0]
    case Interrupt(code) =>
      assert CodesOf(steps) == [code] + CodesOf(steps[1..]) && CodesOf(steps)[1..] == CodesOf(steps[1..]);
      HandleConsistent(w, l, code);
      PutWaiting(w.ring, 'x');
      hide Full, Consistent, CodesOf;
    case Consume =>
      assert CodesOf(steps) == CodesOf(steps[1..]);
      if w.consumer.Holding? {
        TakeFrontWaiting(w.ring);
      }
      hide DecodeAll, CodesOf;
  }

  /** Never more characters are accepted than typed. */
  lemma {:induction false} AcceptedAtMostTyped(w: World, l: Layout, steps: seq<Step>)
    requires IsLayout(l) && Consistent(w)
    ensures |Run(w, l, steps).accepted| <= |w.accepted| + |DecodeAll(w.decoder, l, CodesOf(steps))|
    decreases |steps|
  {
    if steps != [] {
      StepDecodes(w, l, steps);
      NextConsistent(w, l, steps[0]);
      hide Next, DecodeAll, CodesOf, Decoded;
      AcceptedAtMostTyped(Next(w, l, steps[0]), l, steps[1..]);
    }
  }

  /** A character that is accepted or dropped at the front of what is typed. */
  lemma FrontAccepted(w: string, c: string, rest: string, result: string, dropped: bool)
    requires !dropped || |result| <= |w| + |rest|
    ensures result == w + (c + rest) <==> result == w + c + rest
    ensures dropped && c != [] ==> result != w + (c + rest)
  {
    assert w + (c + rest) == w + c + rest;
  }

  lemma RunStep(w: World, l: Layout, steps: seq<Step>)
    requires IsLayout(l) && Consistent(w) && steps != []
    ensures Consistent(Next(w, l, steps[0]))
    ensures Run(w, l, steps) == Run(Next(w, l, steps[0]), l, steps[1..])
    ensures NoneDropped(w, l, steps)
        <==> (CharOfStep(w, l, steps[0]) == [] || !Full(w.ring)) && NoneDropped(Next(w, l, steps[0]), l, steps[1..])
  {
    NextConsistent(w, l, steps[0]);
  }

  /** Everything typed is accepted exactly when no character meets a full ring, however reader and typist race. */
  lemma {:induction false} AllAcceptedIffNoneDropped(w: World, l: Layout, steps: seq<Step>)
    requires IsLayout(l) && Consistent(w)
    ensures Run(w, l, steps).accepted == w.accepted + DecodeAll(w.decoder, l, CodesOf(steps))
            <==> NoneDropped(w, l, steps)
    decreases |steps|
  {
    if steps == [] {
      assert w.accepted + [] == w.accepted;
    } else {
      RunStep(w, l, steps);
      hide Run, NoneDropped, Next, DecodeAll, CodesOf, Full, Waiting, CharOfStep, Consistent;
      StepDecodes(w, l, steps);
      var w1, c := Next(w, l, steps[0]), CharOfStep(w, l, steps[0]);
      var rest := DecodeAll(w1.decoder, l, CodesOf(steps[1..]));
      AllAcceptedIffNoneDropped(w1, l, steps[1..]);
      AcceptedAtMostTyped(w1, l, steps[1..]);
      FrontAccepted(w.accepted, c, rest, Run(w, l, steps).accepted, Full(w.ring));
    }
  }

  lemma {:induction false} ShortRunsDropNothing(w: World, l: Layout, steps: seq<Step>)
    requires IsLayout(l) && Consistent(w)
    requires |Waiting(w.ring)| + |DecodeAll(w.decoder, l, CodesOf(steps))| < KBD_BUFFER_SIZE
    ensures NoneDropped(w, l, steps)
    decreases |steps|
  {
    if steps != [] {
      StepDecodes(w, l, steps);
      NextConsistent(w, l, steps[0]);
      PutWaiting(w.ring, 'x');
      hide Next, DecodeAll, CodesOf, Decoded, Waiting, Full;
      ShortRunsDropNothing(Next(w, l, steps[0]), l, steps[1..]);
    }
  }

  /** So it is when what is waiting and what is typed fit in the ring together. */
  lemma NothingDropped(w: World, l: Layout, steps: seq<Step>)
    requires IsLayout(l) && Consistent(w)
    requires |Waiting(w.ring)| + |DecodeAll(w.decoder, l, CodesOf(steps))| < KBD_BUFFER_SIZE
    ensures NoneDropped(w, l, steps)
    ensures Run(w, l, steps).accepted == w.accepted + DecodeAll(w.decoder, l, CodesOf(steps))
  {
    ShortRunsDropNothing(w, l, steps);
    AllAcceptedIffNoneDropped(w, l, steps);
    hide *;
  }

  lemma {:induction false} RunBoth(w: World, l: Layout, a: seq<Step>, b: seq<Step>)
    requires IsLayout(l) && Consistent(w)
    ensures Run(w, l, a + b) == Run(Run(w, l, a), l, b)
    decreases |a|
  {
    if a == [] {
      assert a + b == b;
    } else {
      hide Next;
      assert (a + b)[0] == a[0] && (a + b)[1..] == a[1..] + b;
      NextConsistent(w, l, a[0]);
      RunBoth(Next(w, l, a[0]), l, a[1..], b);
    }
  }

  // ----- One call of kbd_getc_nonblocking among interrupts -----

  /** The scancodes that arrive around the steps of one call. */
  datatype Burst = Burst(beforeTest: seq<u8>, beforeRead: seq<u8>, beforeAdvance: seq<u8>)

  function Interrupts(codes: seq<u8>): seq<Step>
    decreases |codes|
  {
    if codes == [] then [] else [Interrupt(codes[0])] + Interrupts(codes[1..])
  }

  function HandleAll(w: World, l: Layout, codes: seq<u8>): (u: World)
    requires IsLayout(l) && Consistent(w)
    ensures Consistent(u) && u.consumer == w.consumer && u.delivered == w.delivered && w.accepted <= u.accepted
    ensures w.ring.head != w.ring.tail ==> u.ring.tail == w.ring.tail && u.ring.head != u.ring.tail
    decreases |codes|
  {
    if codes == [] then w
    else
      HandleConsistent(w, l, codes[0]);
      HandleAll(Handle(w, l, codes[0]), l, codes[1..])
  }

  /** The call as a whole: up to three consumer steps with a burst of interrupts before each. */
  function Polled(w: World, l: Layout, b: Burst): (u: World)
    requires IsLayout(l) && Consistent(w) && w.consumer == Idle
    ensures Consistent(u) && u.consumer == Idle
  {
    var w1 := HandleAll(w, l, b.beforeTest);
    if w1.ring.head == w1.ring.tail then w1
    else
      NextConsistent(w1, l, Consume);
      var w2 := HandleAll(Consumed(w1), l, b.beforeRead);
      NextConsistent(w2, l, Consume);
      var w3 := HandleAll(Consumed(w2), l, b.beforeAdvance);
      NextConsistent(w3, l, Consume);
      Consumed(w3)
  }

  /** The character the call returns: NUL if nothing was waiting at the test. */
  function PolledChar(w: World, l: Layout, b: Burst): char
    requires IsLayout(l) && Consistent(w) && w.consumer == Idle
  {
    var w1 := HandleAll(w, l, b.beforeTest);
    if w1.ring.head == w1.ring.tail then '\0' else w1.ring.buffer[w1.ring.tail]
  }

  lemma {:induction false} HandleAllRuns(w: World, l: Layout, codes: seq<u8>)
    requires IsLayout(l) && Consistent(w)
    ensures HandleAll(w, l, codes) == Run(w, l, Interrupts(codes))
    decreases |codes|
  {
    if codes != [] {
      HandleConsistent(w, l, codes[0]);
      hide Handle;
      assert Interrupts(codes)[1..] == Interrupts(codes[1..]);
      HandleAllRuns(Handle(w, l, codes[0]), l, codes[1..]);
    }
  }

  /** Interrupts never overwrite a character that is waiting. */
  lemma {:induction false} HandleAllKeepsFront(w: World, l: Layout, codes: seq<u8>)
    requires IsLayout(l) && Consistent(w) && w.ring.head != w.ring.tail
    ensures HandleAll(w, l, codes).ring.buffer[w.ring.tail] == w.ring.buffer[w.ring.tail]
    decreases |codes|
  {
    if codes != [] {
      HandleConsistent(w, l, codes[0]);
      HandleAllKeepsFront(Handle(w, l, codes[0]), l, codes[1..]);
    }
  }

  /** A call returns NUL exactly when it delivers nothing, and otherwise the character it delivers. */
  lemma PolledDelivers(w: World, l: Layout, b: Burst)
    requires IsLayout(l) && Consistent(w) && w.consumer == Idle
    ensures Polled(w, l, b).delivered == w.delivered + CharOf(PolledChar(w, l, b))
    ensures PolledChar(w, l, b) == '\0' <==> Waiting(HandleAll(w, l, b.beforeTest).ring) == []
  {
    var w1 := HandleAll(w, l, b.beforeTest);
    EmptyIffEqual(w1.ring);
    hide HandleAll, Waiting;
    if w1.ring.head != w1.ring.tail {
      var c := w1.ring.buffer[w1.ring.tail];
      FrontIsNotNul(w1);
      NextConsistent(w1, l, Consume);
      HandleAllKeepsFront(Consumed(w1), l, b.beforeRead);
      var w2 := HandleAll(Consumed(w1), l, b.beforeRead);
      NextConsistent(w2, l, Consume);
      HandleAllKeepsFront(Consumed(w2), l, b.beforeAdvance);
    } else {
      assert w.delivered + [] == w.delivered;
    }
  }

  function PollSteps(w: World, l: Layout, b: Burst): seq<Step>
    requires IsLayout(l) && Consistent(w)
  {
    var w1 := HandleAll(w, l, b.beforeTest);
    Interrupts(b.beforeTest) + ([Consume] +
      if w1.ring.head == w1.ring.tail then []
      else Interrupts(b.beforeRead) + ([Consume] + (Interrupts(b.beforeAdvance) + [Consume])))
  }

  /** The call is one of the interleavings `DeliveredIsPrefix` speaks of. */
  lemma PolledIsRun(w: World, l: Layout, b: Burst)
    requires IsLayout(l) && Consistent(w) && w.consumer == Idle
    ensures Polled(w, l, b) == Run(w, l, PollSteps(w, l, b))
  {
    hide HandleAll, Interrupts, Waiting;
    var w1 := HandleAll(w, l, b.beforeTest);
    HandleAllRuns(w, l, b.beforeTest);
    if w1.ring.head == w1.ring.tail {
      RunBoth(w, l, Interrupts(b.beforeTest), [Consume] + []);
      RunConsume(w1, l, []);
      RunNothing(w1, l);
    } else {
      var last := Interrupts(b.beforeAdvance) + [Consume];
      var more := Interrupts(b.beforeRead) + ([Consume] + last);
      RunBoth(w, l, Interrupts(b.beforeTest), [Consume] + more);
      RunConsume(w1, l, more);
      var w2 := HandleAll(Consumed(w1), l, b.beforeRead);
      HandleAllRuns(Consumed(w1), l, b.beforeRead);
      RunBoth(Consumed(w1), l, Interrupts(b.beforeRead), [Consume] + last);
      RunConsume(w2, l, last);
      var w3 := HandleAll(Consumed(w2), l, b.beforeAdvance);
      HandleAllRuns(Consumed(w2), l, b.beforeAdvance);
      RunBoth(Consumed(w2), l, Interrupts(b.beforeAdvance), [Consume]);
      RunConsume(w3, l, []);
      RunNothing(Consumed(w3), l);
      assert [Consume] + [] == [Consume];
    }
  }

  lemma RunNothing(w: World, l: Layout)
    requires IsLayout(l) && Consistent(w)
    ensures Run(w, l, []) == w
  {
  }

  lemma RunConsume(w: World, l: Layout, rest: seq<Step>)
    requires IsLayout(l) && Consistent(w)
    ensures Consistent(Consumed(w)) && Run(w, l, [Consume] + rest) == Run(Consumed(w), l, rest)
  {
    NextConsistent(w, l, Consume);
    assert ([Consume] + rest)[1..] == rest;
  }

  lemma FrontIsNotNul(w: World)
    requires Consistent(w) && w.ring.head != w.ring.tail
    ensures w.ring.buffer[w.ring.tail] != '\0'
  {
  }
}
