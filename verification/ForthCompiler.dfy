/** Postfix compilation of expressions and assignments to interpreter text preserves their meaning. */
module ForthCompiler {
  import opened Word32
  import opened Numerals
  import opened CStrings
  import opened ForthSpec
  import opened ForthScanner
  import opened ForthSession

  // ----- Source language -----

  datatype Expr = Literal(value: u32) | Read(name: string) | Bin(op: Op, left: Expr, right: Expr)

  datatype Assignment = Assign(name: string, value: Expr)

  /** Value of an expression over named cells, or the reason it has none. */
  function Eval(e: Expr, names: seq<string>, cells: seq<u32>): Arith
    requires |names| == |cells| && Compilable(e, names)
  {
    match e
    case Literal(v) => Result(v)
    case Read(name) => Result(cells[Find(names, name)])
    case Bin(op, l, r) =>
      var a := Eval(l, names, cells);
      var b := Eval(r, names, cells);
      if !a.Result? then a else if !b.Result? then b else Apply(op, a.value, b.value)
  }

  datatype Ran = Ran(cells: seq<u32>) | Failed

  /** Assignments run in order. */
  function RunProgram(p: seq<Assignment>, names: seq<string>, cells: seq<u32>): (r: Ran)
    requires |names| == |cells| && forall i :: 0 <= i < |p| ==> CompilableAssignment(p[i], names)
    ensures r.Ran? ==> |r.cells| == |cells|
    decreases |p|
  {
    if p == [] then Ran(cells)
    else
      assert CompilableAssignment(p[0], names);
      var v := Eval(p[0].value, names, cells);
      if v.Result? then RunProgram(p[1..], names, cells[Find(names, p[0].name) := v.value]) else Failed
  }

  // ----- Rendering -----

  function Render(e: Expr): string {
    match e
    case Literal(v) => SignedText(Signed(v))
    case Read(name) => name + [' '] + "@"
    case Bin(op, l, r) => Render(l) + [' '] + (Render(r) + [' '] + [op.Symbol()])
  }

  function RenderAssignment(a: Assignment): string {
    Render(a.value) + [' '] + (a.name + [' '] + "!")
  }

  function RenderProgram(p: seq<Assignment>): string {
    if p == [] then "" else RenderAssignment(p[0]) + [' '] + RenderProgram(p[1..])
  }

  // ----- Side conditions -----

  predicate IsBuiltin(w: string) {
    || WordIs(w, "TYPE") || WordIs(w, "VARIABLE") || WordIs(w, "BYE")
    || w == "." || w == "@" || w == "!" || w == "?" || OpOf(w).AnOp?
  }

  /** A declared name that the dispatcher reaches: built-in words come first. */
  ghost predicate IsVariable(w: string, names: seq<string>) {
    IsWord(w) && !IsBuiltin(w) && Find(names, w) >= 0
  }

  /** No literal is shadowed by a variable of the same spelling, and every name read is a variable. */
  ghost predicate Compilable(e: Expr, names: seq<string>) {
    match e
    case Literal(v) => Find(names, SignedText(Signed(v))) < 0
    case Read(name) => IsVariable(name, names)
    case Bin(_, l, r) => Compilable(l, names) && Compilable(r, names)
  }

  ghost predicate CompilableAssignment(a: Assignment, names: seq<string>) {
    Compilable(a.value, names) && IsVariable(a.name, names)
  }

  function Max(a: nat, b: nat): nat {
    if a < b then b else a
  }

  /** Stack cells in use at the peak. */
  function Need(e: Expr): nat {
    match e
    case Literal(_) => 1
    case Read(_) => 1
    case Bin(_, l, r) => Max(Need(l), 1 + Need(r))
  }

  // ----- Words -----

  /** Printing a cell and parsing the text gives the cell back, 0x80000000 included. */
  lemma DecimalRoundTrip(v: u32)
    ensures ParseNumber(SignedText(Signed(v))) == Number(v)
    ensures 1 <= |SignedText(Signed(v))| <= 11
  {
    hide Value, Numeral, Wrap, Signed;
    SignedWrap(v);
    var n := Abs(Signed(v));
    NumeralRoundTrip(n, 10, false);
    NumeralWidth(n, 10, false);
    var t := SignedText(Signed(v));
    if Signed(v) < 0 {
      assert t[1..] == Numeral(n, 10, false);
    } else {
      assert IsDigit(t[0]);
    }
  }

  /** A number is digits, one at least and any number of them, or a minus sign and such; its value is modulo 2^32. */
  lemma NumberSyntax(w: string, digits: string)
    ensures digits != "" && AllDigits(digits) ==>
              && ParseNumber(digits) == Number(Value(digits, 10) % 0x1_0000_0000)
              && ParseNumber("-" + digits) == Number((0 - Value(digits, 10)) % 0x1_0000_0000)
    ensures ParseNumber(w).Number? <==>
              w != "" && ((w != "-" && w[0] == '-' && AllDigits(w[1..])) || AllDigits(w))
  {
    hide Value;
    assert ("-" + digits)[1..] == digits;
    if w != "" && w[0] == '-' {
      assert w == "-" <==> w[1..] == "";
    }
    if digits != "" && AllDigits(digits) {
      assert IsDigit(digits[0]);
    }
  }

  lemma NumeralIsPlain(v: u32)
    ensures var t := SignedText(Signed(v));
            && IsWord(t) && !IsBuiltin(t)
            && forall i :: 0 <= i < |t| ==> t[i] == '-' || IsDigit(t[i])
  {
    hide Numeral, Signed, ParseNumber;
    SignedWrap(v);
    NumeralRoundTrip(Abs(Signed(v)), 10, false);
    DecimalRoundTrip(v);
    var t := SignedText(Signed(v));
    assert forall i :: 0 <= i < |t| ==> t[i] == '-' || IsDigit(t[i]);
    assert t[0] == '-' ==> t != "-";
  }

  lemma ExecuteLiteral(s: State, v: u32)
    requires Ok(s) && Find(s.names, SignedText(Signed(v))) < 0
    ensures Execute(s, SignedText(Signed(v)), false) == Executed(Push(s, v), false)
  {
    NumeralIsPlain(v);
    DecimalRoundTrip(v);
  }

  lemma ExecuteVariable(s: State, name: string)
    requires Ok(s) && IsVariable(name, s.names)
    ensures Execute(s, name, false) == Executed(Push(s, Find(s.names, name)), false)
  {
  }

  lemma ExecuteSymbol(s: State, op: Op)
    ensures Execute(s, [op.Symbol()], false) == Executed(Binary(s, op), false)
  {
  }

  /** A word pushes, an operation replaces its two operands: no message when the cells are there. */
  lemma BinaryOnTop(s: State, base: seq<u32>, op: Op, a: u32, b: u32)
    requires s.stack == base + [a] + [b] && |base| < STACK_MAX
    requires Apply(op, a, b).Result?
    ensures Binary(s, op) == s.(stack := base + [Apply(op, a, b).value])
  {
  }

  lemma FetchOnTop(s: State, base: seq<u32>, addr: u32)
    requires s.stack == base + [addr] && |base| < STACK_MAX && addr < |s.cells|
    ensures Fetch(s) == s.(stack := base + [s.cells[addr]])
  {
  }

  lemma StoreOnTop(s: State, base: seq<u32>, value: u32, addr: u32)
    requires s.stack == base + [value] + [addr] && addr < |s.cells|
    ensures Store(s) == s.(stack := base, cells := s.cells[addr := value])
  {
  }

  // ----- Correctness -----

  /** Two words with a blank between them: the second runs in the state the first leaves. */
  lemma TwoWords(s: State, v: string, w: string)
    requires Ok(s) && s.mode == Running && IsWord(v) && IsWord(w)
    requires var e := Execute(s, v, false); e.state.mode == Running && !e.declaring
    ensures NoNul(v + [' '] + w) && Ok(Execute(s, v, false).state)
    ensures var e := Execute(Execute(s, v, false).state, w, false);
            Scan(s, v + [' '] + w, false) == Outcome(e.state, e.declaring, false)
  {
    hide Scan, Execute;
    ExecuteOk(s, v, false);
    ScanOneWord(s, v, false);
    ScanConcat(s, v, ' ', w, false);
    ScanOneWord(Execute(s, v, false).state, w, false);
  }

  /** The text of an expression pushes exactly its value and changes nothing else. */
  lemma {:induction false} ExpressionsCompile(s: State, e: Expr)
    requires Ok(s) && s.mode == Running && Compilable(e, s.names)
    requires |s.stack| + Need(e) <= STACK_MAX
    requires Eval(e, s.names, s.cells).Result?
    ensures NoNul(Render(e))
    ensures Scan(s, Render(e), false)
         == Outcome(s.(stack := s.stack + [Eval(e, s.names, s.cells).value]), false, false)
    decreases e
  {
    hide Scan, Execute;
    match e
    case Literal(v) =>
      NumeralIsPlain(v);
      ExecuteLiteral(s, v);
      ScanOneWord(s, Render(e), false);
    case Read(name) =>
      var addr := Find(s.names, name);
      var s1 := s.(stack := s.stack + [addr]);
      ExecuteVariable(s, name);
      TwoWords(s, name, "@");
      FetchOnTop(s1, s.stack, addr);
      ExecuteFetch(s1);
    case Bin(op, l, r) =>
      var a, b := Eval(l, s.names, s.cells).value, Eval(r, s.names, s.cells).value;
      var s1 := s.(stack := s.stack + [a]);
      var s2 := s1.(stack := s1.stack + [b]);
      var w := [op.Symbol()];
      ExpressionsCompile(s, l);
      ExpressionsCompile(s1, r);
      ScanConcat(s1, Render(r), ' ', w, false);
      ScanConcat(s, Render(l), ' ', Render(r) + [' '] + w, false);
      ScanOneWord(s2, w, false);
      ExecuteSymbol(s2, op);
      BinaryOnTop(s2, s.stack, op, a, b);
  }

  lemma ExecuteFetch(s: State)
    ensures Execute(s, "@", false) == Executed(Fetch(s), false)
  {
  }

  lemma ExecuteStore(s: State)
    ensures Execute(s, "!", false) == Executed(Store(s), false)
  {
  }

  /** The text of an assignment updates the named cell and changes nothing else. */
  lemma AssignmentsCompile(s: State, a: Assignment)
    requires Ok(s) && s.mode == Running && CompilableAssignment(a, s.names)
    requires |s.stack| + Max(Need(a.value), 2) <= STACK_MAX
    requires Eval(a.value, s.names, s.cells).Result?
    ensures NoNul(RenderAssignment(a))
    ensures Scan(s, RenderAssignment(a), false)
         == Outcome(s.(cells := s.cells[Find(s.names, a.name) := Eval(a.value, s.names, s.cells).value]), false, false)
  {
    hide Scan, Execute;
    var v, addr := Eval(a.value, s.names, s.cells).value, Find(s.names, a.name);
    var s1 := s.(stack := s.stack + [v]);
    var s2 := s1.(stack := s1.stack + [addr]);
    ExpressionsCompile(s, a.value);
    ExecuteVariable(s1, a.name);
    TwoWords(s1, a.name, "!");
    ExecuteStore(s2);
    StoreOnTop(s2, s.stack, v, addr);
    ScanConcat(s, Render(a.value), ' ', a.name + [' '] + "!", false);
  }

  ghost predicate StackFits(s: State, p: seq<Assignment>) {
    forall i :: 0 <= i < |p| ==> |s.stack| + Max(Need(p[i].value), 2) <= STACK_MAX
  }

  /** A line of assignments leaves the cells that running the assignments gives, and nothing else changes. */
  lemma {:induction false} ProgramsCompile(s: State, p: seq<Assignment>)
    requires Ok(s) && s.mode == Running && StackFits(s, p)
    requires forall i :: 0 <= i < |p| ==> CompilableAssignment(p[i], s.names)
    requires RunProgram(p, s.names, s.cells).Ran?
    ensures NoNul(RenderProgram(p))
    ensures Scan(s, RenderProgram(p), false)
         == Outcome(s.(cells := RunProgram(p, s.names, s.cells).cells), false, false)
    decreases |p|
  {
    if p == [] {
    } else {
      hide Scan, Execute, Render;
      AssignmentsCompile(s, p[0]);
      var v := Eval(p[0].value, s.names, s.cells).value;
      var s1 := s.(cells := s.cells[Find(s.names, p[0].name) := v]);
      ProgramsCompile(s1, p[1..]);
      ScanConcat(s, RenderAssignment(p[0]), ' ', RenderProgram(p[1..]), false);
    }
  }

  /** `e .` on a line prints the signed decimal text of the value of `e` and leaves the stack as it was. */
  lemma ExpressionsPrint(s: State, e: Expr)
    requires Ok(s) && s.mode == Running && Compilable(e, s.names)
    requires |s.stack| + Need(e) <= STACK_MAX
    requires Eval(e, s.names, s.cells).Result?
    ensures NoNul(Render(e) + [' '] + ".")
    ensures RunLine(s, Render(e) + [' '] + ".")
         == Say(s, SignedText(Signed(Eval(e, s.names, s.cells).value)) + "\n")
  {
    hide Scan, Execute;
    var v := Eval(e, s.names, s.cells).value;
    var s1 := s.(stack := s.stack + [v]);
    ExpressionsCompile(s, e);
    ScanConcat(s, Render(e), ' ', ".", false);
    ScanOneWord(s1, ".", false);
    ExecuteDot(s1);
    assert s1.stack[..|s.stack|] == s.stack;
  }

  lemma ExecuteDot(s: State)
    ensures Execute(s, ".", false) == Executed(PrintTop(s), false)
  {
  }

  // ----- Variables and literals at the prompt -----

  lemma ExecuteQuery(s: State)
    ensures Execute(s, "?", false) == Executed(PrintTop(Fetch(s)), false)
  {
  }

  lemma ExecuteType(s: State, w: string)
    requires WordIs(w, "TYPE")
    ensures Execute(s, w, false) == Executed(TypeString(s), false)
  {
  }

  /** `name ?` prints the value of the variable and changes nothing else. */
  lemma QueryPrintsCell(s: State, name: string)
    requires Ok(s) && s.mode == Running && IsVariable(name, s.names) && |s.stack| < STACK_MAX
    ensures NoNul(name + [' '] + "?")
    ensures RunLine(s, name + [' '] + "?")
         == Say(s, SignedText(Signed(s.cells[Find(s.names, name)])) + "\n")
  {
    hide Scan, Execute;
    var addr := Find(s.names, name);
    var s1 := s.(stack := s.stack + [addr]);
    ExecuteVariable(s, name);
    TwoWords(s, name, "?");
    ExecuteQuery(s1);
    FetchOnTop(s1, s.stack, addr);
    assert (s.stack + [s.cells[addr]])[..|s.stack|] == s.stack;
  }

  lemma QuoteEndAt(body: string, after: string)
    requires '"' !in body
    ensures IndexOf(body + (['"'] + after), '"') == |body|
  {
    var rest := body + (['"'] + after);
    assert rest[|body|] == '"';
    assert forall i :: 0 <= i < |body| ==> rest[i] in body;
  }

  /** A literal that fits pushes its two cells, and the scanner goes on after its closing quote. */
  lemma ScanLiteral(s: State, body: string, after: string)
    requires Ok(s) && s.mode == Running && |s.pool| + |body| <= POOL_MAX
    requires NoNul(body) && '"' !in body && NoNul(after)
    ensures Ok(PushLiteral(s, body)) && NoNul(['"'] + (body + (['"'] + after)))
    ensures after != "" ==>
              Scan(s, ['"'] + (body + (['"'] + after)), false) == Scan(PushLiteral(s, body), after, false)
  {
    hide Scan, PushLiteral, ReadString, IndexOf;
    var tail := ['"'] + after;
    var rest := body + tail;
    var line := ['"'] + rest;
    assert line[1..] == rest && rest[..|body|] == body && rest[|body|..] == tail && tail[1..] == after;
    QuoteEndAt(body, after);
    ReadWhole(s, rest);
    ScanQuoted(s, line, false);
  }

  /** A quoted literal and TYPE in either case print the literal, keep it in the pool and leave the stack as it was. */
  lemma LiteralTypes(s: State, body: string, w: string)
    requires Ok(s) && s.mode == Running && |s.stack| <= STACK_MAX - 2 && Spells(w, "TYPE")
    requires NoNul(body) && '"' !in body && |s.pool| + |body| <= POOL_MAX
    ensures NoNul(['"'] + (body + (['"'] + ([' '] + w))))
    ensures RunLine(s, ['"'] + (body + (['"'] + ([' '] + w)))) == Say(s.(pool := s.pool + body), body)
  {
    var s1 := PushLiteral(s, body);
    LiteralPushes(s, body);
    LiteralIsThere(s.pool, body);
    SpelledIsWord(w, "TYPE");
    hide Scan, PushLiteral, WordIs, Spells, IsWord;
    ScanLiteral(s, body, [' '] + w);
    TypeRuns(s1, s.stack, |s.pool|, |body|, w);
  }

  lemma LiteralIsThere(pool: string, body: string)
    ensures (pool + body)[|pool|..|pool| + |body|] == body
  {
  }

  lemma TypeRuns(s: State, base: seq<u32>, start: u32, len: u32, w: string)
    requires Ok(s) && s.mode == Running && IsWord(w) && WordIs(w, "TYPE")
    requires s.stack == base + [start, len] && start + len <= |s.pool|
    ensures Scan(s, [' '] + w, false) == Outcome(Say(s.(stack := base), s.pool[start..start + len]), false, false)
  {
    hide Scan, Execute, TypeString;
    assert ([' '] + w)[1..] == w;
    ScanSkips(s, [' '] + w, false);
    ScanOneWord(s, w, false);
    ExecuteType(s, w);
    TypeOnTop(s, base, start, len);
  }

  lemma LiteralPushes(s: State, body: string)
    requires Ok(s) && |s.stack| <= STACK_MAX - 2 && |s.pool| + |body| <= POOL_MAX
    ensures PushLiteral(s, body) == s.(pool := s.pool + body, stack := s.stack + [|s.pool|, |body|])
  {
  }

  /** A word short of operands keeps nothing of what it popped. */
  lemma UnderflowLosesOperands(s: State, op: Op)
    requires |s.stack| <= 1
    ensures Binary(s, op) == Store(s) == TypeString(s) == Say(s.(stack := []), "stack underflow\n")
  {
  }

  /** With one free stack cell a literal pushes its start but not its length. */
  lemma LiteralNeedsTwoCells(s: State, body: string)
    requires Ok(s) && |s.pool| + |body| <= POOL_MAX && |s.stack| == STACK_MAX - 1
    ensures PushLiteral(s, body)
         == Say(s.(pool := s.pool + body, stack := s.stack + [|s.pool|]), "stack overflow\n")
  {
  }
}
