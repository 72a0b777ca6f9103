/** The interpreter against plain integer arithmetic: what lines of words compute, print and complain about. */
module ForthCalculator {
  import opened Word32
  import opened Numerals
  import opened CStrings
  import opened ForthSpec
  import opened ForthScanner
  import opened ForthCompiler

  // ----- Arithmetic on cells is arithmetic on integers -----

  /** Does `x` fit a C int? */
  predicate IsInt(x: int) {
    -0x8000_0000 <= x < 0x8000_0000
  }

  /** The int that differs from `x` by a multiple of 2^32. */
  function Reduced(x: int): (r: int)
    ensures IsInt(r) && (r - x) % 0x1_0000_0000 == 0
    ensures IsInt(x) ==> r == x
  {
    var low := x % 0x1_0000_0000;
    if low < 0x8000_0000 then low else low - 0x1_0000_0000
  }

  lemma ReducedIsSigned(x: int)
    ensures Signed(Wrap(x)) == Reduced(x)
  {
  }

  lemma SignedIsCongruent(v: u32)
    ensures Wrap(Signed(v)) == v && Reduced(v) == Signed(v)
  {
  }

  /** A value of an operation on integers, or none. */
  datatype Maths = Exactly(value: int) | NoValue

  /** The operation on integers; a quotient is that of the two ints the operands reduce to. */
  function Calculate(op: Op, x: int, y: int): Maths {
    match op
    case Plus => Exactly(x + y)
    case Minus => Exactly(x - y)
    case Times => Exactly(x * y)
    case Slash =>
      var p, q := Reduced(x), Reduced(y);
      if q == 0 || (p == -0x8000_0000 && q == -1) then NoValue else Exactly(TruncDiv(p, q))
  }

  lemma WrapSum(x: int, y: int)
    ensures Wrap(Wrap(x) + Wrap(y)) == Wrap(x + y)
    ensures Wrap(Wrap(x) - Wrap(y)) == Wrap(x - y)
  {
    WrapAbsorbs(x, Wrap(y), 1);
    WrapAbsorbs(y, x, 1);
    WrapAbsorbs(x, 0 - Wrap(y), 1);
    WrapAbsorbs(y, x, -1);
  }

  lemma WrapProduct(x: int, y: int)
    ensures Wrap(Wrap(x) * Wrap(y)) == Wrap(x * y)
  {
    WrapAbsorbs(x, 0, Wrap(y));
    WrapAbsorbs(y, 0, x);
    assert Wrap(y) * Wrap(x) + 0 == Wrap(x) * Wrap(y);
    assert Wrap(y) * x + 0 == x * Wrap(y) + 0;
    assert x * y + 0 == x * y;
  }

  /** Every operation on cells is the one on the integers they stand for, however far those are out of range. */
  lemma ApplyCalculates(op: Op, x: int, y: int)
    ensures var r, m := Apply(op, Wrap(x), Wrap(y)), Calculate(op, x, y);
            && (r.Result? <==> m.Exactly?)
            && (r.Result? ==> r.value == Wrap(m.value))
            && (r.ByZero? <==> op == Slash && Reduced(y) == 0)
  {
    match op
    case Plus => WrapSum(x, y);
    case Minus => WrapSum(x, y);
    case Times => WrapProduct(x, y);
    case Slash =>
      hide TruncDiv;
      ReducedIsSigned(x);
      ReducedIsSigned(y);
  }

  /** Addition and subtraction undo each other, and give the sum and difference of ints where those are ints. */
  lemma SumLaws(a: u32, b: u32)
    ensures Apply(Plus, a, b).Result? && Apply(Minus, a, b).Result?
    ensures Apply(Minus, Apply(Plus, a, b).value, b) == Result(a) == Apply(Plus, Apply(Minus, a, b).value, b)
    ensures IsInt(Signed(a) + Signed(b)) ==> Signed(Apply(Plus, a, b).value) == Signed(a) + Signed(b)
    ensures IsInt(Signed(a) - Signed(b)) ==> Signed(Apply(Minus, a, b).value) == Signed(a) - Signed(b)
  {
    SumUndone(a, b);
    SignedIsCongruent(a);
    SignedIsCongruent(b);
    var x, y := Signed(a), Signed(b);
    WrapSum(x, y);
    ReducedIsSigned(x + y);
    ReducedIsSigned(x - y);
    hide Signed, Wrap;
  }

  lemma SumUndone(a: u32, b: u32)
    ensures Wrap(Wrap(a + b) - b) == a && Wrap(Wrap(a - b) + b) == a
  {
    WrapAbsorbs(a + b, 0 - b, 1);
    WrapAbsorbs(a - b, b, 1);
  }

  /** Multiplication is addition repeated. */
  lemma ProductLaws(a: u32, b: u32)
    ensures Apply(Times, a, 0) == Result(0) && Apply(Times, a, b).Result?
    ensures b + 1 < 0x1_0000_0000 ==> Apply(Times, a, b + 1) == Apply(Plus, Apply(Times, a, b).value, a)
  {
    WrapAbsorbs(a * b, a, 1);
    assert a * (b + 1) == 1 * (a * b) + a;
  }

  /** Division truncates: the remainder is smaller than the divisor and has the dividend's sign. */
  lemma QuotientLaws(a: u32, b: u32)
    ensures Apply(Slash, a, b) == ByZero <==> b == 0
    ensures Apply(Slash, a, b) == Overflow <==> a == 0x8000_0000 && b == 0xFFFF_FFFF
    ensures Apply(Slash, a, b).Result? ==>
              var r := Signed(a) - Signed(b) * Signed(Apply(Slash, a, b).value);
              Abs(r) < Abs(Signed(b)) && (r == 0 || (r < 0) == (Signed(a) < 0))
  {
    if b != 0 {
      QuotientIsInt(a, b);
    }
    hide TruncDiv, Abs, Signed, Wrap;
  }

  lemma QuotientIsInt(a: u32, b: u32)
    requires b != 0
    ensures !(a == SIGN_BIT && b == MODULUS - 1) ==>
              Signed(Wrap(TruncDiv(Signed(a), Signed(b)))) == TruncDiv(Signed(a), Signed(b))
    ensures var r := Signed(a) - Signed(b) * TruncDiv(Signed(a), Signed(b));
            Abs(r) < Abs(Signed(b)) && (r == 0 || (r < 0) == (Signed(a) < 0))
  {
    QuotientOverflow(a, b);
    TruncDivRemainder(Signed(a), Signed(b));
  }

  // ----- Expressions mean what they say -----

  /** The integer an expression stands for, with no bound on what the operations yield. */
  function Meaning(e: Expr, names: seq<string>, cells: seq<u32>): Maths
    requires |names| == |cells| && Compilable(e, names)
  {
    match e
    case Literal(v) => Exactly(Signed(v))
    case Read(name) => Exactly(Signed(cells[Find(names, name)]))
    case Bin(op, l, r) =>
      var x := Meaning(l, names, cells);
      var y := Meaning(r, names, cells);
      if x.NoValue? || y.NoValue? then NoValue else Calculate(op, x.value, y.value)
  }

  lemma {:induction false} EvalIsMeaning(e: Expr, names: seq<string>, cells: seq<u32>)
    requires |names| == |cells| && Compilable(e, names)
    ensures var v, m := Eval(e, names, cells), Meaning(e, names, cells);
            (v.Result? <==> m.Exactly?) && (v.Result? ==> v.value == Wrap(m.value))
    decreases e
  {
    match e
    case Literal(v) => SignedWrap(v);
    case Read(name) => SignedWrap(cells[Find(names, name)]);
    case Bin(op, l, r) =>
      EvalIsMeaning(l, names, cells);
      EvalIsMeaning(r, names, cells);
      var x, y := Meaning(l, names, cells), Meaning(r, names, cells);
      if x.Exactly? && y.Exactly? {
        ApplyCalculates(op, x.value, y.value);
      }
      hide Apply, Calculate, Wrap;
  }

  /** `e .` prints the integer that `e` stands for, reduced to an int by multiples of 2^32. */
  lemma ExpressionsPrintMeaning(s: State, e: Expr)
    requires Ok(s) && s.mode == Running && Compilable(e, s.names)
    requires |s.stack| + Need(e) <= STACK_MAX && Meaning(e, s.names, s.cells).Exactly?
    ensures NoNul(Render(e) + [' '] + ".")
    ensures RunLine(s, Render(e) + [' '] + ".")
         == Say(s, SignedText(Reduced(Meaning(e, s.names, s.cells).value)) + "\n")
  {
    EvalIsMeaning(e, s.names, s.cells);
    ReducedIsSigned(Meaning(e, s.names, s.cells).value);
    hide RunLine, SignedText, Eval, Meaning, Render, Reduced, Signed, Wrap;
    ExpressionsPrint(s, e);
  }

  // ----- Lines of words -----

  /** Words with one blank between any two. */
  function Spaced(words: seq<string>, blank: char): string {
    if words == [] then ""
    else if |words| == 1 then words[0]
    else words[0] + [blank] + Spaced(words[1..], blank)
  }

  /** One word after another while the interpreter runs. */
  function Perform(s: State, words: seq<string>, declaring: bool): Executed
    decreases |words|
  {
    if s.mode != Running || words == [] then Executed(s, declaring)
    else
      var e := Execute(s, words[0], declaring);
      Perform(e.state, words[1..], e.declaring)
  }

  ghost predicate AreWords(words: seq<string>) {
    forall i :: 0 <= i < |words| ==> IsWord(words[i])
  }

  /** Words separated by blanks or tabs run one after another. */
  lemma {:induction false} SpacedPerforms(s: State, words: seq<string>, blank: char, declaring: bool)
    requires Ok(s) && AreWords(words) && (blank == ' ' || blank == '\t')
    ensures NoNul(Spaced(words, blank))
    ensures var e := Perform(s, words, declaring);
            Scan(s, Spaced(words, blank), declaring) == Outcome(e.state, e.declaring, false)
    decreases |words|
  {
    hide Scan, Execute, Ok, IsWord;
    SpacedNoNul(words, blank);
    if s.mode != Running || words == [] {
      ScanStops(s, Spaced(words, blank), declaring);
    } else {
      var e := Execute(s, words[0], declaring);
      WordOk(s, words[0], declaring);
      ScanOneWord(s, words[0], declaring);
      if |words| == 1 {
        assert Perform(s, words, declaring) == Perform(e.state, [], e.declaring);
      } else {
        SpacedPerforms(e.state, words[1..], blank, e.declaring);
        ScanConcat(s, words[0], blank, Spaced(words[1..], blank), declaring);
      }
    }
  }

  lemma WordOk(s: State, w: string, declaring: bool)
    requires Ok(s) && IsWord(w)
    ensures Ok(Execute(s, w, declaring).state)
  {
    ExecuteOk(s, w, declaring);
  }

  lemma {:induction false} SpacedNoNul(words: seq<string>, blank: char)
    requires AreWords(words) && blank != '\0'
    ensures NoNul(Spaced(words, blank))
    decreases |words|
  {
    if |words| > 1 {
      SpacedNoNul(words[1..], blank);
    }
  }

  lemma LinePerforms(s: State, words: seq<string>, blank: char)
    requires Ok(s) && AreWords(words) && (blank == ' ' || blank == '\t')
    ensures NoNul(Spaced(words, blank)) && RunLine(s, Spaced(words, blank)) == Perform(s, words, false).state
  {
    hide Scan, Perform, Spaced;
    SpacedPerforms(s, words, blank, false);
  }

  /** The first of several words, when it declares nothing. */
  lemma PerformFirst(s: State, w: string, t: State, rest: seq<string>)
    requires s.mode == Running && Execute(s, w, false) == Executed(t, false)
    ensures Perform(s, [w] + rest, false) == Perform(t, rest, false)
  {
    hide Execute;
    assert ([w] + rest)[1..] == rest;
  }

  lemma PerformNone(s: State)
    ensures Perform(s, [], false) == Executed(s, false)
  {
  }

  ghost predicate Leads(s: State, w: string, t: State) {
    s.mode == Running && Execute(s, w, false) == Executed(t, false)
  }

  lemma PerformThree(s: State, u: string, s1: State, v: string, s2: State, w: string, t: State)
    requires Leads(s, u, s1) && Leads(s1, v, s2) && Leads(s2, w, t)
    ensures Perform(s, [u, v, w], false) == Executed(t, false)
  {
    assert [u, v, w] == [u] + ([v] + ([w] + []));
    PerformFirst(s, u, s1, [v] + ([w] + []));
    PerformFirst(s1, v, s2, [w] + []);
    PerformFirst(s2, w, t, []);
    PerformNone(t);
  }

  /** An int as it is typed, when no variable has that name. */
  ghost predicate IsTypedInt(s: State, x: int) {
    IsInt(x) && Find(s.names, SignedText(x)) < 0
  }

  lemma TypedIntPushes(s: State, x: int)
    requires Ok(s) && IsTypedInt(s, x) && |s.stack| < STACK_MAX
    ensures IsWord(SignedText(x))
    ensures Execute(s, SignedText(x), false) == Executed(s.(stack := s.stack + [Wrap(x)]), false)
  {
    ReducedIsSigned(x);
    hide Execute, SignedText, Wrap, Signed;
    NumeralIsPlain(Wrap(x));
    ExecuteLiteral(s, Wrap(x));
  }

  /** What the four symbols mean on ints, where the result is an int. */
  ghost predicate Computes(x: int, symbol: char, y: int, z: int) {
    && IsInt(z)
    && match symbol
       case '+' => z == x + y
       case '-' => z == x - y
       case '*' => z == x * y
       case '/' => y != 0 && z == TruncDiv(x, y)
       case _ => false
  }

  /** `x y + .` on a line, with blanks or tabs, prints x + y, and likewise -, * and / with x first. */
  lemma CalculatorLine(s: State, x: int, y: int, symbol: char, z: int, blank: char)
    requires Ok(s) && s.mode == Running && |s.stack| + 2 <= STACK_MAX && (blank == ' ' || blank == '\t')
    requires IsTypedInt(s, x) && IsTypedInt(s, y) && Computes(x, symbol, y, z)
    ensures var line := Spaced([SignedText(x), SignedText(y), [symbol], "."], blank);
            NoNul(line) && RunLine(s, line) == Say(s, SignedText(z) + "\n")
  {
    hide *;
    var s1, s2 := Pushed(s, x), Pushed(Pushed(s, x), y);
    TypedIntLeads(s, x);
    PushedOk(s, x, y);
    TypedIntLeads(s1, y);
    SymbolLeads(s, x, symbol, y, z);
    PrintLeads(s, z);
    LineOfFour(s, SignedText(x), s1, SignedText(y), s2, [symbol], Pushed(s, z),
               ".", Say(s, SignedText(z) + "\n"), blank);
  }

  function Pushed(s: State, x: int): State {
    s.(stack := s.stack + [Wrap(x)])
  }

  lemma PushedOk(s: State, x: int, y: int)
    requires Ok(s) && s.mode == Running && |s.stack| + 2 <= STACK_MAX && IsTypedInt(s, y)
    ensures var t := Pushed(s, x);
            Ok(t) && t.mode == Running && |t.stack| < STACK_MAX && IsTypedInt(t, y)
    ensures |s.stack| < STACK_MAX
  {
  }

  lemma TypedIntLeads(s: State, x: int)
    requires Ok(s) && s.mode == Running && IsTypedInt(s, x) && |s.stack| < STACK_MAX
    ensures IsWord(SignedText(x)) && Leads(s, SignedText(x), Pushed(s, x))
  {
    hide Execute, SignedText, IsWord, Wrap;
    TypedIntPushes(s, x);
  }

  lemma SymbolLeads(s: State, x: int, symbol: char, y: int, z: int)
    requires s.mode == Running && |s.stack| + 2 <= STACK_MAX
    requires IsTypedInt(s, x) && IsTypedInt(s, y) && Computes(x, symbol, y, z)
    ensures IsInt(z) && IsWord([symbol]) && Leads(Pushed(Pushed(s, x), y), [symbol], Pushed(s, z))
  {
    var op := SymbolComputes(x, symbol, y, z);
    hide Execute, Computes, Apply, Wrap;
    SymbolsAreWords();
    ExecuteSymbol(Pushed(Pushed(s, x), y), op);
    BinaryOnTop(Pushed(Pushed(s, x), y), s.stack, op, Wrap(x), Wrap(y));
  }

  lemma PrintLeads(s: State, z: int)
    requires IsInt(z) && s.mode == Running
    ensures IsWord(".") && Leads(Pushed(s, z), ".", Say(s, SignedText(z) + "\n"))
  {
    hide Execute, SignedText, Wrap;
    SymbolsAreWords();
    PrintsInt(s, z);
  }

  lemma LineOfFour(s: State, t: string, s1: State, u: string, s2: State, v: string, s3: State, w: string, s4: State,
                   blank: char)
    requires Ok(s) && IsWord(t) && IsWord(u) && IsWord(v) && IsWord(w) && (blank == ' ' || blank == '\t')
    requires Leads(s, t, s1) && Leads(s1, u, s2) && Leads(s2, v, s3) && Leads(s3, w, s4)
    ensures NoNul(Spaced([t, u, v, w], blank)) && RunLine(s, Spaced([t, u, v, w], blank)) == s4
  {
    hide Ok, IsWord, Execute;
    LinePerforms(s, [t, u, v, w], blank);
    assert [t, u, v, w] == [t] + [u, v, w];
    PerformThree(s1, u, s2, v, s3, w, s4);
    PerformFirst(s, t, s1, [u, v, w]);
  }

  lemma SymbolComputes(x: int, symbol: char, y: int, z: int) returns (op: Op)
    requires IsInt(x) && IsInt(y) && Computes(x, symbol, y, z)
    ensures op.Symbol() == symbol && Apply(op, Wrap(x), Wrap(y)) == Result(Wrap(z))
  {
    op := if symbol == '+' then Plus else if symbol == '-' then Minus else if symbol == '*' then Times else Slash;
    hide TruncDiv;
    ApplyCalculates(op, x, y);
    hide Apply;
    if op == Slash {
      TruncatesOut(x, y);
    }
  }

  /** The one quotient of ints that is none. */
  lemma TruncatesOut(x: int, y: int)
    requires IsInt(x) && IsInt(y) && y != 0 && IsInt(TruncDiv(x, y))
    ensures !(x == -0x8000_0000 && y == -1)
  {
  }

  lemma PrintsInt(s: State, z: int)
    requires IsInt(z)
    ensures Execute(s.(stack := s.stack + [Wrap(z)]), ".", false) == Executed(Say(s, SignedText(z) + "\n"), false)
  {
    ReducedIsSigned(z);
    hide SignedText, Signed, Wrap;
    var t := s.(stack := s.stack + [Wrap(z)]);
    assert t.stack[..|s.stack|] == s.stack;
    ExecuteDot(t);
  }

  lemma SymbolsAreWords()
    ensures IsWord("+") && IsWord("-") && IsWord("*") && IsWord("/")
    ensures IsWord(".") && IsWord("@") && IsWord("!") && IsWord("?")
  {
  }

  /** `x name !` and then `name @ .`, on one line or two, store x and print it back. */
  lemma StoredIsPrinted(s: State, x: int, name: string, blank: char)
    requires Ok(s) && s.mode == Running && |s.stack| + 2 <= STACK_MAX && (blank == ' ' || blank == '\t')
    requires IsTypedInt(s, x) && IsVariable(name, s.names)
    ensures var t := s.(cells := s.cells[Find(s.names, name) := Wrap(x)]);
            && NoNul(Spaced([SignedText(x), name, "!"], blank)) && NoNul(Spaced([name, "@", "."], blank))
            && Ok(t) && RunLine(s, Spaced([SignedText(x), name, "!"], blank)) == t
            && RunLine(t, Spaced([name, "@", "."], blank)) == Say(t, SignedText(x) + "\n")
  {
    hide SignedText, Wrap;
    StoresInt(s, x, name, blank);
    PrintsCell(s.(cells := s.cells[Find(s.names, name) := Wrap(x)]), x, name, blank);
  }

  lemma StoresInt(s: State, x: int, name: string, blank: char)
    requires Ok(s) && s.mode == Running && |s.stack| + 2 <= STACK_MAX && (blank == ' ' || blank == '\t')
    requires IsTypedInt(s, x) && IsVariable(name, s.names)
    ensures var t := s.(cells := s.cells[Find(s.names, name) := Wrap(x)]);
            && NoNul(Spaced([SignedText(x), name, "!"], blank))
            && RunLine(s, Spaced([SignedText(x), name, "!"], blank)) == t
  {
    hide Execute, SignedText, Wrap, IsWord;
    var addr := Find(s.names, name);
    var t := s.(cells := s.cells[addr := Wrap(x)]);
    var s1 := s.(stack := s.stack + [Wrap(x)]);
    var s2 := s1.(stack := s1.stack + [addr]);
    TypedIntPushes(s, x);
    ExecuteVariable(s1, name);
    ExecuteStore(s2);
    StoreOnTop(s2, s.stack, Wrap(x), addr);
    SymbolsAreWords();
    var words := [SignedText(x), name, "!"];
    LinePerforms(s, words, blank);
    PerformThree(s, SignedText(x), s1, name, s2, "!", t);
  }

  lemma PrintsCell(s: State, x: int, name: string, blank: char)
    requires Ok(s) && s.mode == Running && |s.stack| < STACK_MAX && (blank == ' ' || blank == '\t')
    requires IsVariable(name, s.names) && s.cells[Find(s.names, name)] == Wrap(x) && IsInt(x)
    ensures NoNul(Spaced([name, "@", "."], blank))
    ensures RunLine(s, Spaced([name, "@", "."], blank)) == Say(s, SignedText(x) + "\n")
  {
    hide Execute, SignedText, Wrap, IsWord;
    var addr := Find(s.names, name);
    var s1 := s.(stack := s.stack + [addr]);
    var s2 := s.(stack := s.stack + [Wrap(x)]);
    var t := Say(s, SignedText(x) + "\n");
    ExecuteVariable(s, name);
    ExecuteFetch(s1);
    FetchOnTop(s1, s.stack, addr);
    PrintsInt(s, x);
    SymbolsAreWords();
    var words := [name, "@", "."];
    LinePerforms(s, words, blank);
    PerformThree(s, name, s1, "@", s2, ".", t);
  }

  // ----- Complaints -----

  lemma OneWordLine(s: State, w: string)
    requires Ok(s) && s.mode == Running && IsWord(w)
    ensures RunLine(s, w) == Execute(s, w, false).state
  {
    ScanOneWord(s, w, false);
    hide Scan, Execute;
  }

  /** A line of one word that is neither built in, nor declared, nor a number, is repeated in the message. */
  lemma UnknownWordIsReported(s: State, w: string)
    requires Ok(s) && s.mode == Running && w != "" && |w| < 32 && w[0] != '"'
    requires forall c <- w :: c != '\0' && c != ' ' && c != '\t'
    requires !IsBuiltin(w) && w !in s.names && ParseNumber(w) == NotANumber
    ensures NoNul(w) && RunLine(s, w) == Say(s, "unknown word: " + w + "\n")
  {
    assert forall i :: 0 <= i < |w| ==> w[i] in w;
    assert IsWord(w);
    OneWordLine(s, w);
    hide RunLine;
  }

  /** With no operands every word complains, `?` twice. */
  lemma UnderflowIsReported(s: State, w: string)
    requires Ok(s) && s.mode == Running && IsWord(w) && s.stack == []
    ensures w == "." || w == "@" ==> RunLine(s, w) == Say(s, "stack underflow\n")
    ensures w == "?" ==> RunLine(s, w) == Say(s, "stack underflow\n" + "stack underflow\n")
  {
    OneWordLine(s, w);
    hide RunLine, SignedText, VariableOrNumber, Binary, TypeString, Store, Ok, IsWord;
    BuiltinsDiffer(w);
    hide WordIs;
  }

  /** One operand does not help the words that want two, and is lost. */
  lemma OneOperandIsLost(s: State, w: string)
    requires Ok(s) && s.mode == Running && IsWord(w) && |s.stack| <= 1
    requires w in ["+", "-", "*", "/", "!"] || Spells(w, "TYPE")
    ensures RunLine(s, w) == Say(s.(stack := []), "stack underflow\n")
  {
    OneWordLine(s, w);
    var op := if w == "+" then Plus else if w == "-" then Minus else if w == "*" then Times else Slash;
    UnderflowLosesOperands(s, op);
    if Spells(w, "TYPE") {
      NamesInEitherCase(w, "TYPE");
      ExecuteType(s, w);
    } else if w == "!" {
      ExecuteStore(s);
    } else {
      assert w == [op.Symbol()];
      ExecuteSymbol(s, op);
    }
    hide *;
  }

  /** A number or variable adds one cell up to 256, and is refused beyond. */
  lemma OverflowIsReported(s: State, w: string)
    requires Ok(s) && s.mode == Running && IsWord(w)
    requires (ParseNumber(w).Number? && w !in s.names) || IsVariable(w, s.names)
    ensures |s.stack| < 256 ==> RunLine(s, w) == s.(stack := RunLine(s, w).stack)
    ensures |s.stack| < 256 ==> s.stack < RunLine(s, w).stack && |RunLine(s, w).stack| == |s.stack| + 1
    ensures |s.stack| == 256 ==> RunLine(s, w) == Say(s, "stack overflow\n")
    ensures |s.stack| <= 256
  {
    OneWordLine(s, w);
    NumberOrVariable(s, w);
    hide RunLine, Execute, ParseNumber, IsVariable;
  }

  lemma NumberOrVariable(s: State, w: string)
    requires Ok(s) && ((ParseNumber(w).Number? && w !in s.names) || IsVariable(w, s.names))
    ensures exists v: u32 :: Execute(s, w, false).state == Push(s, v)
  {
    if IsVariable(w, s.names) {
      ExecuteVariable(s, w);
    } else {
      assert Execute(s, w, false).state == Push(s, ParseNumber(w).value);
    }
  }

  /** `@` and `!` refuse addresses that are not declared. */
  lemma BadAddressesAreReported(s: State, base: seq<u32>, x: u32, addr: u32)
    requires Ok(s) && s.mode == Running && addr >= |s.names|
    ensures NoNul("@") && NoNul("!")
    ensures s.stack == base + [addr] ==> RunLine(s, "@") == Say(s.(stack := base), "bad address\n")
    ensures s.stack == base + [x, addr] ==> RunLine(s, "!") == Say(s.(stack := base), "bad address\n")
  {
    SymbolsAreWords();
    OneWordLine(s, "@");
    OneWordLine(s, "!");
    ExecuteFetch(s);
    ExecuteStore(s);
    hide RunLine, Execute;
    TopTwo(s, base, x, addr);
  }

  lemma TopTwo(s: State, base: seq<u32>, x: u32, y: u32)
    ensures s.stack == base + [x, y] ==> Pop2(s) == Top2(s.(stack := base), x, y)
  {
    if s.stack == base + [x, y] {
      assert s.stack[..|base| + 1] == base + [x] && (base + [x])[..|base|] == base;
    }
  }

  /** TYPE refuses ranges outside the pool. */
  lemma BadStringsAreReported(s: State, w: string, base: seq<u32>, start: u32, len: u32)
    requires Ok(s) && s.mode == Running && IsWord(w) && Spells(w, "TYPE")
    requires s.stack == base + [start, len] && start + len > |s.pool|
    ensures RunLine(s, w) == Say(s.(stack := base), "bad string\n")
  {
    NamesInEitherCase(w, "TYPE");
    OneWordLine(s, w);
    ExecuteType(s, w);
    hide RunLine, Execute, WordIs, Spells;
    TopTwo(s, base, start, len);
    hide Pop2;
  }

  /** `/` complains about a divisor of zero, and the one quotient that is no int ends the program. */
  lemma BadDivisorsAreReported(s: State, base: seq<u32>, x: u32, y: u32)
    requires Ok(s) && s.mode == Running && s.stack == base + [x, y]
    ensures NoNul("/")
    ensures y == 0 ==> RunLine(s, "/") == Say(s.(stack := base), "division by zero\n")
    ensures x == 0x8000_0000 && y == 0xFFFF_FFFF ==> RunLine(s, "/") == s.(stack := base, mode := Trapped)
  {
    SymbolsAreWords();
    OneWordLine(s, "/");
    ExecuteSymbol(s, Slash);
    TopTwo(s, base, x, y);
    hide RunLine, Execute, TruncDiv, Pop2;
  }
}
