/** What holds over whole sessions: nothing declared, stored in the pool or printed is ever taken back. */
module ForthSession {
  import opened Word32
  import opened Numerals
  import opened CStrings
  import opened ForthSpec
  import opened ForthScanner

  ghost predicate AreLines(lines: seq<string>) {
    forall i :: 0 <= i < |lines| ==> NoNul(lines[i])
  }

  /** The prompt loop of `main` on the lines typed so far, ending at BYE, a trap, or the prompt still waiting. */
  function Session(s: State, lines: seq<string>): (t: State)
    requires Ok(s) && AreLines(lines)
    ensures Ok(t)
    decreases |lines|
  {
    if s.mode != Running then s
    else if lines == [] then Say(s, "> ")
    else
      Session(RunLine(Say(s, "> "), lines[0]), lines[1..])
  }

  lemma SessionEnds(s: State, lines: seq<string>)
    requires Ok(s) && AreLines(lines) && s.mode != Running
    ensures Session(s, lines) == s
  {
  }

  lemma SessionTurn(s: State, lines: seq<string>, k: nat)
    requires Ok(s) && AreLines(lines) && s.mode == Running && k <= |lines|
    ensures Session(s, lines[k..])
         == if k == |lines| then Say(s, "> ") else Session(RunLine(Say(s, "> "), lines[k]), lines[k + 1..])
  {
  }

  function VariableLine(name: string, value: u32): string {
    name + " : " + SignedText(Signed(value)) + "\n"
  }

  /** One line per variable, in order of declaration. */
  function Checkout(names: seq<string>, cells: seq<u32>): string
    requires |names| == |cells|
  {
    if names == [] then ""
    else
      var last := |names| - 1;
      Checkout(names[..last], cells[..last]) + VariableLine(names[last], cells[last])
  }

  /** `main`: the banner, the session and, once BYE ends it, the list of variables. */
  function WholeRun(s: State, lines: seq<string>): State
    requires Ok(s) && AreLines(lines)
  {
    var t := Session(Say(s, "FORTH INTERPRETER\n"), lines);
    if t.mode != Bye then t else Say(t, "== Variable Checkout ==\n" + Checkout(t.names, t.cells))
  }

  /** The rest of the line `p`, then more lines. */
  function Later(s: State, p: string, declaring: bool, lines: seq<string>): (t: State)
    requires Ok(s) && NoNul(p) && AreLines(lines)
    ensures Ok(t)
  {
    ScanOk(s, p, declaring);
    Session(Scan(s, p, declaring).state, lines)
  }

  // ----- Growth -----

  /** `t` adds to the names, the pool and the output of `s` without changing what was there. */
  ghost predicate Extends(s: State, t: State) {
    && Ok(t)
    && s.names <= t.names && |s.cells| <= |t.cells|
    && s.pool <= t.pool
    && s.out <= t.out
    && (s.mode != Running ==> t == s)
  }

  lemma WordsExtend(s: State)
    requires Ok(s) && s.mode == Running
    ensures Extends(s, TypeString(s)) && Extends(s, PrintTop(s)) && Extends(s, Store(s))
    ensures Extends(s, Fetch(s)) && Extends(s, PrintTop(Fetch(s)))
  {
    hide SignedText, Signed, Ok;
    WordsOk(s);
  }

  lemma BinaryExtends(s: State, op: Op)
    requires Ok(s) && s.mode == Running
    ensures Extends(s, Binary(s, op))
  {
    hide Apply, Ok;
    BinaryOk(s, op);
  }

  lemma ExecuteExtends(s: State, w: string, declaring: bool)
    requires Ok(s) && s.mode == Running && IsName(w)
    ensures Extends(s, Execute(s, w, declaring).state)
  {
    hide TypeString, PrintTop, Store, Binary, Fetch, WordIs, ParseNumber, Find;
    WordsExtend(s);
    BinaryExtends(s, if OpOf(w).AnOp? then OpOf(w).op else Plus);
  }

  lemma ReadStringExtends(s: State, p: string)
    requires Ok(s) && s.mode == Running && NoNul(p)
    ensures Extends(s, ReadString(s, p).state)
  {
    ReadStringOk(s, p);
    CopyStringPool(s, p);
  }

  lemma {:induction false} ScanExtends(s: State, p: string, declaring: bool)
    requires Ok(s) && NoNul(p)
    ensures Extends(s, Scan(s, p, declaring).state)
    decreases |p|
  {
    hide Execute, ReadString;
    if s.mode != Running || p == "" {
    } else if IsBlank(p[0]) {
      ScanExtends(s, p[1..], declaring);
    } else if p[0] == '"' {
      ReadStringOk(s, p[1..]);
      ReadStringExtends(s, p[1..]);
      var r := ReadString(s, p[1..]);
      if r.rest != "" {
        ScanExtends(r.state, AfterQuote(r.rest), declaring);
      }
    } else {
      var n := WordLength(p);
      ExecuteExtends(s, Cut(p[..n]), declaring);
      var e := Execute(s, Cut(p[..n]), declaring);
      ScanExtends(e.state, p[n..], e.declaring);
    }
  }

  /** The interpreter invariant and growth hold after every session, from any good state. */
  lemma {:induction false} SessionExtends(s: State, lines: seq<string>)
    requires Ok(s) && AreLines(lines)
    ensures Extends(s, Session(s, lines))
    decreases |lines|
  {
    if s.mode == Running && lines != [] {
      hide Scan;
      ScanExtends(Say(s, "> "), lines[0], false);
      SessionExtends(RunLine(Say(s, "> "), lines[0]), lines[1..]);
    }
  }

  lemma LaterExtends(s: State, p: string, declaring: bool, lines: seq<string>)
    requires Ok(s) && NoNul(p) && AreLines(lines)
    ensures Extends(s, Later(s, p, declaring, lines))
  {
    ScanExtends(s, p, declaring);
    SessionExtends(Scan(s, p, declaring).state, lines);
  }

  // ----- Names -----

  lemma FindInLonger(names: seq<string>, more: seq<string>, w: string)
    requires names <= more && Find(names, w) >= 0
    ensures Find(more, w) == Find(names, w)
  {
  }

  lemma {:induction false} FindInExtended(names: seq<string>, w: string)
    ensures Find(names + [w], w) == if Find(names, w) >= 0 then Find(names, w) else |names|
  {
    if names == [] {
    } else {
      assert (names + [w])[1..] == names[1..] + [w];
      FindInExtended(names[1..], w);
    }
  }

  /** Declaring makes a name known, at a fresh zero cell unless the name had one already. */
  lemma DeclaredNameIsFound(s: State, w: string)
    requires Ok(s) && |s.names| < VAR_MAX
    ensures var t := Declare(s, w);
            var addr := Find(t.names, w);
            if Find(s.names, w) >= 0 then addr == Find(s.names, w) && t.cells[addr] == s.cells[addr]
            else addr == |s.names| && t.cells[addr] == 0
  {
    FindInExtended(s.names, w);
  }

  /** A declared name keeps its address for good; redeclaring it does not shadow it. */
  lemma NamesAreStable(s: State, w: string, p: string, declaring: bool, lines: seq<string>)
    requires Ok(s) && NoNul(p) && AreLines(lines)
    requires Find(s.names, w) >= 0
    ensures Find(Later(s, p, declaring, lines).names, w) == Find(s.names, w)
  {
    LaterExtends(s, p, declaring, lines);
    FindInLonger(s.names, Later(s, p, declaring, lines).names, w);
  }

  // ----- String literals -----

  /** A literal whose two cells were both pushed can be typed in every later state, and prints what was read. */
  lemma LiteralsLiveForever(s: State, p: string, base: seq<u32>,
                            rest: string, declaring: bool, lines: seq<string>)
    requires Ok(s) && s.mode == Running && NoNul(p) && |s.stack| <= STACK_MAX - 2
    requires NoNul(rest) && AreLines(lines)
    ensures Ok(ReadString(s, p).state)
    ensures var k := Taken(|s.pool|, p);
            var r := ReadString(s, p).state;
            var t := Later(r, rest, declaring, lines);
            && r.stack == s.stack + [|s.pool|, k]
            && TypeString(t.(stack := base + [|s.pool|, k])) == Say(t.(stack := base), p[..k])
  {
    ReadStringOk(s, p);
    ReadPushes(s, p);
    var k := Taken(|s.pool|, p);
    var r := ReadString(s, p).state;
    hide ReadString, Taken, Later, TypeString;
    LaterExtends(r, rest, declaring, lines);
    var t := Later(r, rest, declaring, lines);
    TypeOnTop(t.(stack := base + [|s.pool|, k]), base, |s.pool|, k);
    assert t.pool[|s.pool|..|s.pool| + k] == r.pool[|s.pool|..];
  }

  lemma ReadPushes(s: State, p: string)
    requires Ok(s) && |s.stack| <= STACK_MAX - 2
    ensures var k := Taken(|s.pool|, p);
            var r := ReadString(s, p).state;
            r.pool == s.pool + p[..k] && r.stack == s.stack + [|s.pool|, k]
  {
    hide CopyString;
    CopyExact(s, p);
  }

  lemma TypeOnTop(s: State, base: seq<u32>, start: u32, len: u32)
    requires s.stack == base + [start, len] && start + len <= |s.pool|
    ensures TypeString(s) == Say(s.(stack := base), s.pool[start..start + len])
  {
  }

  // ----- Cells -----

  datatype StoreEvent = StoreEvent(addr: nat, value: u32)

  /** The store a word performs, if it is a successful `!`. */
  function StoreOf(s: State, w: string, declaring: bool): seq<StoreEvent> {
    if declaring || w != "!" then []
    else match Pop2(s)
      case Underflow2(_) => []
      case Top2(_, value, addr) => if addr < |s.cells| then [StoreEvent(addr, value)] else []
  }

  function LineStores(s: State, p: string, declaring: bool): seq<StoreEvent>
    requires Ok(s) && NoNul(p)
    decreases |p|
  {
    if s.mode != Running || p == "" then []
    else if IsBlank(p[0]) then LineStores(s, p[1..], declaring)
    else if p[0] == '"' then
      ReadStringOk(s, p[1..]);
      var r := ReadString(s, p[1..]);
      LineStores(r.state, AfterQuote(r.rest), declaring)
    else
      var n := WordLength(p);
      ExecuteOk(s, Cut(p[..n]), declaring);
      var e := Execute(s, Cut(p[..n]), declaring);
      StoreOf(s, Cut(p[..n]), declaring) + LineStores(e.state, p[n..], e.declaring)
  }

  function SessionStores(s: State, lines: seq<string>): seq<StoreEvent>
    requires Ok(s) && AreLines(lines)
    decreases |lines|
  {
    if s.mode != Running || lines == [] then []
    else
      LineStores(Say(s, "> "), lines[0], false) + SessionStores(RunLine(Say(s, "> "), lines[0]), lines[1..])
  }

  /** The value of the last event at `addr`. */
  function LastStore(events: seq<StoreEvent>, addr: nat, none: u32): u32 {
    if events == [] then none
    else if events[|events| - 1].addr == addr then events[|events| - 1].value
    else LastStore(events[..|events| - 1], addr, none)
  }

  function CellOrZero(s: State, addr: nat): u32 {
    if addr < |s.cells| then s.cells[addr] else 0
  }

  /** The events account for how every cell got from `s` to `t`. */
  ghost predicate Explains(events: seq<StoreEvent>, s: State, t: State) {
    && |s.cells| <= |t.cells|
    && forall addr: nat :: LastStore(events, addr, CellOrZero(s, addr)) == CellOrZero(t, addr)
  }

  lemma {:induction false} LastStoreOfBoth(first: seq<StoreEvent>, second: seq<StoreEvent>, addr: nat, none: u32)
    ensures LastStore(first + second, addr, none) == LastStore(second, addr, LastStore(first, addr, none))
    decreases |second|
  {
    var n := |second| - 1;
    if second == [] {
      assert first + second == first;
    } else {
      assert (first + second)[..|first| + n] == first + second[..n];
      LastStoreOfBoth(first, second[..n], addr, none);
    }
  }

  lemma ExplainsBoth(first: seq<StoreEvent>, second: seq<StoreEvent>, s: State, t: State, u: State)
    requires Explains(first, s, t) && Explains(second, t, u)
    ensures Explains(first + second, s, u)
  {
    forall addr: nat
      ensures LastStore(first + second, addr, CellOrZero(s, addr)) == CellOrZero(u, addr)
    {
      LastStoreOfBoth(first, second, addr, CellOrZero(s, addr));
    }
  }

  lemma OthersKeepCells(s: State, w: string)
    requires w != "!"
    ensures Execute(s, w, false).state.cells == s.cells
  {
    hide WordIs, ParseNumber, Find, SignedText, Apply;
  }

  lemma StoreOfExplains(s: State, w: string, declaring: bool)
    requires Ok(s)
    ensures Explains(StoreOf(s, w, declaring), s, Execute(s, w, declaring).state)
  {
    if !declaring && w != "!" {
      hide Execute;
      OthersKeepCells(s, w);
    } else if declaring {
    } else {
      hide WordIs, Fetch, PrintTop, TypeString, Binary, VariableOrNumber;
      BuiltinsDiffer(w);
      assert Execute(s, w, declaring).state == Store(s);
      forall addr: nat
        ensures LastStore(StoreOf(s, w, false), addr, CellOrZero(s, addr)) == CellOrZero(Store(s), addr)
      {
        var events := StoreOf(s, w, false);
        assert events != [] ==> events[..0] == [];
      }
    }
  }

  lemma {:induction false} LineStoresExplain(s: State, p: string, declaring: bool)
    requires Ok(s) && NoNul(p)
    ensures Explains(LineStores(s, p, declaring), s, Scan(s, p, declaring).state)
    decreases |p|
  {
    hide Execute, ReadString, StoreOf;
    if s.mode != Running || p == "" {
    } else if IsBlank(p[0]) {
      LineStoresExplain(s, p[1..], declaring);
    } else if p[0] == '"' {
      ReadStringOk(s, p[1..]);
      ReadStringKeepsCells(s, p[1..]);
      var r := ReadString(s, p[1..]);
      LineStoresExplain(r.state, AfterQuote(r.rest), declaring);
    } else {
      var n := WordLength(p);
      ExecuteOk(s, Cut(p[..n]), declaring);
      StoreOfExplains(s, Cut(p[..n]), declaring);
      var e := Execute(s, Cut(p[..n]), declaring);
      LineStoresExplain(e.state, p[n..], e.declaring);
      ExplainsBoth(StoreOf(s, Cut(p[..n]), declaring), LineStores(e.state, p[n..], e.declaring),
                   s, e.state, Scan(e.state, p[n..], e.declaring).state);
    }
  }

  lemma ReadStringKeepsCells(s: State, p: string)
    requires Ok(s)
    ensures ReadString(s, p).state.cells == s.cells
  {
    CopyStringPool(s, p);
  }

  lemma {:induction false} SessionStoresExplain(s: State, lines: seq<string>)
    requires Ok(s) && AreLines(lines)
    ensures Explains(SessionStores(s, lines), s, Session(s, lines))
    decreases |lines|
  {
    if s.mode == Running && lines != [] {
      hide Scan, LineStores;
      var s1 := Say(s, "> ");
      ScanOk(s1, lines[0], false);
      LineStoresExplain(s1, lines[0], false);
      var t := RunLine(s1, lines[0]);
      SessionStoresExplain(t, lines[1..]);
      ExplainsBoth(LineStores(s1, lines[0], false), SessionStores(t, lines[1..]), s1, t, Session(t, lines[1..]));
    }
  }

  /** After any session, `@` on a declared address gives the last value stored there, 0 if there is none. */
  lemma FetchReadsLastStore(lines: seq<string>, base: seq<u32>, addr: u32)
    requires AreLines(lines) && |base| < STACK_MAX
    requires addr < |Session(INITIAL, lines).cells|
    ensures Fetch(Session(INITIAL, lines).(stack := base + [addr]))
         == Session(INITIAL, lines).(stack := base + [LastStore(SessionStores(INITIAL, lines), addr, 0)])
  {
    SessionStoresExplain(INITIAL, lines);
    var t := Session(INITIAL, lines);
    assert CellOrZero(t, addr) == LastStore(SessionStores(INITIAL, lines), addr, CellOrZero(INITIAL, addr));
    assert (base + [addr])[..|base|] == base;
  }
}
