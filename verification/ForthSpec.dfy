/** What each word of the Forth interpreter (user/forth.c) does to its globals, as functions on values. */
module ForthSpec {
  import opened Word32
  import opened Numerals
  import opened CStrings

  const STACK_MAX: int := 256
  const VAR_MAX: int := 64
  const NAME_MAX: int := 32
  const POOL_MAX: int := 4096

  /** Bye is `running == 0`; Trapped is the CPU exception raised by INT_MIN / -1, after which no code runs. */
  datatype Mode = Running | Bye | Trapped

  /** The globals: the used part of every array, and the text sent to the console so far. */
  datatype State = State(
    stack: seq<u32>, names: seq<string>, cells: seq<u32>, pool: string, mode: Mode, out: string)

  const INITIAL := State([], [], [], "", Running, "")

  ghost predicate IsName(name: string) {
    |name| < NAME_MAX && NoNul(name)
  }

  ghost predicate Ok(s: State) {
    && |s.stack| <= STACK_MAX
    && |s.names| == |s.cells| <= VAR_MAX
    && |s.pool| <= POOL_MAX
    && forall i :: 0 <= i < |s.names| ==> IsName(s.names[i])
  }

  function Say(s: State, message: string): State {
    s.(out := s.out + message)
  }

  // ----- Stack -----

  function Push(s: State, v: u32): State {
    if |s.stack| >= STACK_MAX then Say(s, "stack overflow\n") else s.(stack := s.stack + [v])
  }

  datatype Popped = Underflow(rest: State) | Top(rest: State, value: u32)

  function Pop(s: State): Popped {
    if s.stack == [] then Underflow(Say(s, "stack underflow\n"))
    else Top(s.(stack := s.stack[..|s.stack| - 1]), s.stack[|s.stack| - 1])
  }

  /** Two pops, the first one on the right; if the second fails the first stays popped. */
  datatype Popped2 = Underflow2(rest: State) | Top2(rest: State, under: u32, top: u32)

  function Pop2(s: State): Popped2 {
    var first := Pop(s);
    if first.Underflow? then Underflow2(first.rest)
    else
      var second := Pop(first.rest);
      if second.Underflow? then Underflow2(second.rest) else Top2(second.rest, second.value, first.value)
  }

  // ----- Words -----

  function Upper(c: char): char {
    if 'a' <= c <= 'z' then c - 32 as char else c
  }

  predicate WordIs(w: string, name: string) {
    |w| == |name| && forall i :: 0 <= i < |w| ==> Upper(w[i]) == name[i]
  }

  ghost predicate AreCapitals(name: string) {
    forall i :: 0 <= i < |name| ==> 'A' <= name[i] <= 'Z'
  }

  /** Each letter of the name, or the small letter 32 codes above it. */
  ghost predicate Spells(w: string, name: string) {
    |w| == |name| && forall i :: 0 <= i < |w| ==> w[i] == name[i] || w[i] as int == name[i] as int + 32
  }

  /** A built-in name matches in either case, letter by letter, and matches nothing else. */
  lemma NamesInEitherCase(w: string, name: string)
    requires AreCapitals(name)
    ensures WordIs(w, name) <==> Spells(w, name)
  {
  }

  lemma BuiltinsDiffer(w: string)
    ensures !(WordIs(w, "TYPE") && WordIs(w, "VARIABLE"))
    ensures |w| == 1 ==> !WordIs(w, "TYPE") && !WordIs(w, "VARIABLE") && !WordIs(w, "BYE")
  {
  }

  /** Index of the first variable called `name`, or -1. */
  function Find(names: seq<string>, name: string): (i: int)
    ensures -1 <= i < |names|
    ensures i >= 0 ==> names[i] == name
    ensures forall j :: 0 <= j < (if i < 0 then |names| else i) ==> names[j] != name
  {
    if names == [] then -1
    else if names[0] == name then 0
    else
      var i := Find(names[1..], name);
      if i < 0 then -1 else i + 1
  }

  datatype Parsed = NotANumber | Number(value: u32)

  /** An optional minus and at least one digit; the signed value modulo 2^32. */
  function ParseNumber(w: string): Parsed {
    var negative := w != "" && w[0] == '-';
    var body := if negative then w[1..] else w;
    if body == "" || !AllDigits(body) then NotANumber
    else Number(Wrap(if negative then 0 - Value(body, 10) else Value(body, 10)))
  }

  function Declare(s: State, name: string): State {
    if |s.names| >= VAR_MAX then Say(s, "too many variables\n")
    else s.(names := s.names + [name], cells := s.cells + [0])
  }

  function PrintTop(s: State): State {
    match Pop(s)
    case Underflow(r) => r
    case Top(r, v) => Say(r, SignedText(Signed(v)) + "\n")
  }

  function TypeString(s: State): State {
    match Pop2(s)
    case Underflow2(r) => r
    case Top2(r, idx, len) =>
      if idx > |r.pool| || len > |r.pool| - idx then Say(r, "bad string\n")
      else Say(r, r.pool[idx..idx + len])
  }

  function Fetch(s: State): State {
    match Pop(s)
    case Underflow(r) => r
    case Top(r, addr) => if addr >= |r.cells| then Say(r, "bad address\n") else Push(r, r.cells[addr])
  }

  function Store(s: State): State {
    match Pop2(s)
    case Underflow2(r) => r
    case Top2(r, value, addr) =>
      if addr >= |r.cells| then Say(r, "bad address\n") else r.(cells := r.cells[addr := value])
  }

  datatype Op = Plus | Minus | Times | Slash {
    function Symbol(): char {
      match this
      case Plus => '+'
      case Minus => '-'
      case Times => '*'
      case Slash => '/'
    }
  }

  /** Why an operation gives no value: the message of a zero divisor, or the CPU exception of INT_MIN / -1. */
  datatype Arith = Result(value: u32) | ByZero | Overflow

  function Apply(op: Op, a: u32, b: u32): Arith {
    match op
    case Plus => Result(Wrap(a + b))
    case Minus => Result(Wrap(a - b))
    case Times => Result(Wrap(a * b))
    case Slash =>
      if b == 0 then ByZero
      else if a == SIGN_BIT && b == MODULUS - 1 then Overflow
      else Result(Wrap(TruncDiv(Signed(a), Signed(b))))
  }

  function Binary(s: State, op: Op): State {
    match Pop2(s)
    case Underflow2(r) => r
    case Top2(r, a, b) =>
      match Apply(op, a, b)
      case Result(v) => Push(r, v)
      case ByZero => Say(r, "division by zero\n")
      case Overflow => r.(mode := Trapped)
  }

  datatype MaybeOp = NoOp | AnOp(op: Op)

  function OpOf(w: string): MaybeOp {
    if w == "+" then AnOp(Plus)
    else if w == "-" then AnOp(Minus)
    else if w == "*" then AnOp(Times)
    else if w == "/" then AnOp(Slash)
    else NoOp
  }

  datatype Executed = Executed(state: State, declaring: bool)

  function Execute(s: State, w: string, declaring: bool): Executed {
    if declaring then Executed(Declare(s, w), false)
    else if WordIs(w, "VARIABLE") then Executed(s, true)
    else Executed(ExecutePlain(s, w), false)
  }

  /** Every word but VARIABLE and the name that follows it. */
  function ExecutePlain(s: State, w: string): State {
    if WordIs(w, "TYPE") then TypeString(s)
    else if WordIs(w, "BYE") then s.(mode := Bye)
    else if w == "." then PrintTop(s)
    else if w == "@" then Fetch(s)
    else if w == "!" then Store(s)
    else if w == "?" then PrintTop(Fetch(s))
    else if OpOf(w).AnOp? then Binary(s, OpOf(w).op)
    else VariableOrNumber(s, w)
  }

  /** Variables come before numbers, so a variable may be named like one. */
  function VariableOrNumber(s: State, w: string): State {
    if Find(s.names, w) >= 0 then Push(s, Wrap(Find(s.names, w)))
    else match ParseNumber(w)
      case Number(n) => Push(s, n)
      case NotANumber => Say(s, "unknown word: " + w + "\n")
  }

  // ----- Scanner -----

  predicate IsBlank(c: char) {
    c == ' ' || c == '\t'
  }

  /** Length of the word at the start of `p`. */
  function WordLength(p: string): (n: nat)
    ensures n <= |p|
    ensures forall i :: 0 <= i < n ==> !IsBlank(p[i])
    ensures n < |p| ==> IsBlank(p[n])
  {
    if p == "" || IsBlank(p[0]) then 0 else 1 + WordLength(p[1..])
  }

  /** A word longer than the buffer loses its end. */
  function Cut(w: string): string {
    if |w| < NAME_MAX then w else w[..NAME_MAX - 1]
  }

  datatype Copied = Copied(state: State, rest: string)

  /** Copies characters into the pool up to a quote, the end of the line or a full pool. */
  function CopyString(s: State, p: string): (r: Copied)
    ensures |r.rest| <= |p|
    decreases |p|
  {
    if p == "" || p[0] == '"' then Copied(s, p)
    else if |s.pool| >= POOL_MAX then Copied(Say(s, "string pool full\n"), p)
    else CopyString(s.(pool := s.pool + [p[0]]), p[1..])
  }

  function AfterQuote(p: string): string {
    if p != "" && p[0] == '"' then p[1..] else p
  }

  /** Pushes the place and length of what was added to the pool since it had `start` characters. */
  function PushRange(s: State, start: nat): State
    requires start <= |s.pool| <= POOL_MAX
  {
    Push(Push(s, start), |s.pool| - start)
  }

  lemma {:induction false} CopyStringPool(s: State, p: string)
    ensures var t := CopyString(s, p).state;
            && s.pool <= t.pool && s.out <= t.out
            && t == s.(pool := t.pool, out := t.out)
            && (|s.pool| <= POOL_MAX ==> |t.pool| <= POOL_MAX)
    decreases |p|
  {
    if p != "" && p[0] != '"' && |s.pool| < POOL_MAX {
      CopyStringPool(s.(pool := s.pool + [p[0]]), p[1..]);
    }
  }

  /** The literal at the start of `p`, just after its opening quote. */
  function ReadString(s: State, p: string): (r: Copied)
    requires Ok(s)
    ensures |r.rest| <= |p|
  {
    CopyStringPool(s, p);
    var c := CopyString(s, p);
    Copied(PushRange(c.state, |s.pool|), c.rest)
  }

  /** After a line or part of one: is the next word a name to declare, and did it end inside a string? */
  datatype Outcome = Outcome(state: State, declaring: bool, open: bool)

  /** `run_line` on the rest `p` of the line. */
  function Scan(s: State, p: string, declaring: bool): Outcome
    requires Ok(s) && NoNul(p)
    decreases |p|
  {
    if s.mode != Running || p == "" then Outcome(s, declaring, false)
    else if IsBlank(p[0]) then Scan(s, p[1..], declaring)
    else if p[0] == '"' then
      ReadStringOk(s, p[1..]);
      var r := ReadString(s, p[1..]);
      if r.rest == "" then Outcome(r.state, declaring, true)
      else Scan(r.state, AfterQuote(r.rest), declaring)
    else
      var n := WordLength(p);
      ExecuteOk(s, Cut(p[..n]), declaring);
      var e := Execute(s, Cut(p[..n]), declaring);
      Scan(e.state, p[n..], e.declaring)
  }

  function RunLine(s: State, text: string): (t: State)
    requires Ok(s) && NoNul(text)
    ensures Ok(t)
  {
    ScanOk(s, text, false);
    Scan(s, text, false).state
  }

  // ----- The interpreter invariant, word by word -----

  lemma ExecuteOk(s: State, w: string, declaring: bool)
    requires Ok(s) && IsName(w)
    ensures Ok(Execute(s, w, declaring).state)
  {
    hide TypeString, PrintTop, Store, Binary, Fetch, WordIs, ParseNumber, Find;
    WordsOk(s);
    BinaryOk(s, if OpOf(w).AnOp? then OpOf(w).op else Plus);
  }

  lemma WordsOk(s: State)
    requires Ok(s)
    ensures Ok(TypeString(s)) && Ok(PrintTop(s)) && Ok(Store(s)) && Ok(Fetch(s)) && Ok(PrintTop(Fetch(s)))
  {
    hide SignedText, Signed;
  }

  lemma BinaryOk(s: State, op: Op)
    requires Ok(s)
    ensures Ok(Binary(s, op))
  {
  }

  lemma {:induction false} CopyRest(s: State, p: string)
    requires NoNul(p)
    ensures NoNul(CopyString(s, p).rest)
    decreases |p|
  {
    if p != "" && p[0] != '"' && |s.pool| < POOL_MAX {
      CopyRest(s.(pool := s.pool + [p[0]]), p[1..]);
    }
  }

  lemma ReadStringOk(s: State, p: string)
    requires Ok(s) && NoNul(p)
    ensures Ok(ReadString(s, p).state) && NoNul(ReadString(s, p).rest)
  {
    CopyStringPool(s, p);
    CopyRest(s, p);
  }

  lemma {:induction false} ScanOk(s: State, p: string, declaring: bool)
    requires Ok(s) && NoNul(p)
    ensures Ok(Scan(s, p, declaring).state)
    decreases |p|
  {
    if s.mode != Running || p == "" {
    } else if IsBlank(p[0]) {
      ScanOk(s, p[1..], declaring);
    } else if p[0] == '"' {
      ReadStringOk(s, p[1..]);
      var r := ReadString(s, p[1..]);
      if r.rest != "" {
        ScanOk(r.state, AfterQuote(r.rest), declaring);
      }
    } else {
      var n := WordLength(p);
      ExecuteOk(s, Cut(p[..n]), declaring);
      var e := Execute(s, Cut(p[..n]), declaring);
      ScanOk(e.state, p[n..], e.declaring);
    }
  }
}
