/** The interpreter as it runs: arrays, indices and buffers updated in place, refining the word functions. */
module ForthMachine {
  import opened Word32
  import opened Numerals
  import opened CStrings
  import opened ForthSpec
  import opened ForthScanner
  import opened ForthSession

  const LINE_MAX: int := 128

  /** The value `strcmp` returns. */
  function Compare(a: string, b: string): int {
    if a == "" || b == "" || a[0] != b[0] then At(a, 0) as int - At(b, 0) as int
    else Compare(a[1..], b[1..])
  }

  lemma {:induction false} CompareIsZeroOnEqual(a: string, b: string)
    requires NoNul(a) && NoNul(b)
    ensures Compare(a, b) == 0 <==> a == b
  {
    if a != "" && b != "" && a[0] == b[0] {
      CompareIsZeroOnEqual(a[1..], b[1..]);
      assert a == [a[0]] + a[1..] && b == [b[0]] + b[1..];
    }
  }

  lemma CompareStep(a: string, b: string, k: nat)
    requires k < |a| && k < |b| && a[k] == b[k]
    ensures Compare(a[k..], b[k..]) == Compare(a[k + 1..], b[k + 1..])
  {
  }

  lemma CompareStop(a: string, b: string, k: nat)
    requires k <= |a| && k <= |b| && (At(a, k) == '\0' || At(a, k) != At(b, k)) && NoNul(a) && NoNul(b)
    ensures Compare(a[k..], b[k..]) == At(a, k) as int - At(b, k) as int
  {
  }

  method Strcmp(a: array<char>, aStart: nat, b: array<char>, bStart: nat) returns (r: int)
    requires aStart <= a.Length && Terminated(a[aStart..])
    requires bStart <= b.Length && Terminated(b[bStart..])
    ensures r == Compare(Text(a[aStart..]), Text(b[bStart..]))
  {
    hide Text, Compare;
    ghost var s, t := Text(a[aStart..]), Text(b[bStart..]);
    assert s[0..] == s && t[0..] == t;
    var k := 0;
    while a[aStart + k] != '\0' && a[aStart + k] == b[bStart + k]
      invariant 0 <= k <= |s| && k <= |t|
      invariant Compare(s, t) == Compare(s[k..], t[k..])
      decreases |s| - k
    {
      assert a[aStart..][k] == a[aStart + k] && b[bStart..][k] == b[bStart + k];
      CompareStep(s, t, k);
      k := k + 1;
    }
    assert a[aStart..][k] == a[aStart + k] && b[bStart..][k] == b[bStart + k];
    CompareStop(s, t, k);
    r := a[aStart + k] as int - b[bStart + k] as int;
  }

  /** Case-insensitive comparison with a built-in name. */
  method MatchesBuiltin(w: array<char>, name: string) returns (r: bool)
    requires Terminated(w[..]) && NoNul(name)
    ensures r == WordIs(Text(w[..]), name)
    ensures AreCapitals(name) ==> r == Spells(Text(w[..]), name)
  {
    ghost var t := Text(w[..]);
    var i := 0;
    while w[i] != '\0' && At(name, i) != '\0' && Upper(w[i]) == At(name, i)
      invariant 0 <= i <= |t| && i <= |name|
      invariant forall j :: 0 <= j < i ==> Upper(t[j]) == name[j]
      decreases |t| - i
    {
      i := i + 1;
    }
    r := Upper(w[i]) == At(name, i);
    if AreCapitals(name) {
      NamesInEitherCase(t, name);
    }
  }

  lemma ValueStep(body: string, k: nat)
    requires k < |body| && AllDigits(body[..k]) && IsDigit(body[k])
    ensures AllDigits(body[..k + 1])
    ensures Value(body[..k + 1], 10) == 10 * Value(body[..k], 10) + (body[k] as int - '0' as int)
  {
    assert body[..k + 1] == body[..k] + [body[k]];
    assert body[..k + 1][..k] == body[..k];
  }

  /** The digits from `start` to the end of the word, with 32-bit wraparound. */
  method ReadDigits(w: array<char>, start: nat) returns (ok: bool, value: u32)
    requires Terminated(w[..]) && start <= |Text(w[..])|
    ensures ok == AllDigits(Text(w[..])[start..])
    ensures ok ==> value == Wrap(Value(Text(w[..])[start..], 10))
  {
    ghost var body := Text(w[..])[start..];
    value := 0;
    var k := 0;
    while w[start + k] != '\0'
      invariant 0 <= k <= |body|
      invariant AllDigits(body[..k]) && value == Wrap(Value(body[..k], 10))
      decreases |body| - k
    {
      hide Text, Wrap, Value;
      if w[start + k] < '0' || w[start + k] > '9' {
        return false, 0;
      }
      ValueStep(body, k);
      WrapAbsorbs(Value(body[..k], 10), w[start + k] as int - '0' as int, 10);
      value := Wrap(value * 10 + (w[start + k] as int - '0' as int));
      k := k + 1;
    }
    assert body[..k] == body;
    ok := true;
  }

  /** An optional minus, then digits. */
  method ReadNumber(w: array<char>) returns (ok: bool, n: u32)
    requires Terminated(w[..])
    ensures ok == ParseNumber(Text(w[..])).Number?
    ensures ok ==> n == ParseNumber(Text(w[..])).value
  {
    hide Text, Value;
    ghost var t := Text(w[..]);
    assert t[0..] == t;
    var negative := w[0] == '-';
    var start := if negative then 1 else 0;
    if w[start] == '\0' {
      return false, 0;
    }
    ok, n := ReadDigits(w, start);
    if ok && negative {
      WrapAbsorbs(Value(t[1..], 10), 0, -1);
      n := Wrap(0 - n);
    }
  }

  class Interpreter {
    const stack: array<u32>
    var sp: int
    const cells: array<u32>
    const varNames: array<char>  // VAR_MAX rows of NAME_MAX characters
    var varCount: int
    const pool: array<char>
    var poolUsed: int
    var mode: Mode
    var out: string
    ghost var names: seq<string>

    ghost function Repr(): set<object> {
      {this, stack, cells, varNames, pool}
    }

    ghost function Row(i: int): seq<char>
      requires 0 <= i < VAR_MAX && varNames.Length == VAR_MAX * NAME_MAX
      reads varNames
    {
      varNames[NAME_MAX * i..NAME_MAX * i + NAME_MAX]
    }

    ghost predicate Valid()
      reads Repr()
    {
      && stack.Length == STACK_MAX && cells.Length == VAR_MAX && stack != cells
      && varNames.Length == VAR_MAX * NAME_MAX && pool.Length == POOL_MAX && pool != varNames
      && 0 <= sp <= STACK_MAX && 0 <= varCount <= VAR_MAX && 0 <= poolUsed <= POOL_MAX
      && |names| == varCount
      && forall i :: 0 <= i < varCount ==> Terminated(Row(i)) && Text(Row(i)) == names[i]
    }

    ghost function Abs(): State
      requires Valid()
      reads Repr()
    {
      State(stack[..sp], names, cells[..varCount], pool[..poolUsed], mode, out)
    }

    lemma AbsOk()
      requires Valid()
      ensures Ok(Abs())
    {
    }

    constructor ()
      ensures Valid() && fresh(Repr())
      ensures Abs() == INITIAL
    {
      stack := new u32[STACK_MAX];
      cells := new u32[VAR_MAX];
      varNames := new char[VAR_MAX * NAME_MAX];
      pool := new char[POOL_MAX];
      sp, varCount, poolUsed, mode, out, names := 0, 0, 0, Running, "", [];
    }

    // ----- Output -----

    method Print(s: string)
      requires Valid()
      modifies this`out
      ensures Valid() && Abs() == Say(old(Abs()), s)
    {
      out := out + s;
    }

    method PrintBuffer(s: array<char>)
      requires Valid() && Terminated(s[..])
      modifies this`out
      ensures Valid() && Abs() == Say(old(Abs()), Text(s[..]))
    {
      hide Text;
      var n := StringLength(s);
      assert s[..n] == Text(s[..]);
      Print(s[..n]);
    }

    /** The draining loop of `print_int`. */
    method PrintReversed(buffer: array<char>, length: nat)
      requires Valid() && length <= buffer.Length && buffer !in Repr()
      modifies this`out
      ensures Valid() && Abs() == Say(old(Abs()), Reversed(buffer[..length]))
    {
      hide Reversed, Valid, Abs;
      ghost var s := Abs();
      ReversedSnoc("", '0');
      var n := length;
      while n > 0
        invariant 0 <= n <= length
        invariant Valid() && Abs() == s.(out := Abs().out)
        invariant Abs().out + Reversed(buffer[..n]) == s.out + Reversed(buffer[..length])
      {
        n := n - 1;
        assert buffer[..n + 1] == buffer[..n] + [buffer[n]];
        ReversedSnoc(buffer[..n], buffer[n]);
        Print([buffer[n]]);
      }
      assert buffer[..n] == "";
      DigitsEnd(10, false, "");
    }

    method PrintInt(value: int)
      requires Valid() && -SIGN_BIT <= value < SIGN_BIT
      modifies this`out
      ensures Valid() && Abs() == Say(old(Abs()), SignedText(value))
    {
      hide Numeral, Reversed;
      var tmp := new char[12];
      var u: u32 := Word32.Abs(value);
      if value < 0 {
        Print("-");
      }
      var n := FillNumeral(u, 10, false, tmp);
      PrintReversed(tmp, n);
      assert value < 0 ==> old(out) + "-" + Numeral(u, 10, false) == old(out) + SignedText(value);
    }

    // ----- Stack -----

    method Push(v: u32)
      requires Valid()
      modifies this`sp, this`out, stack
      ensures Valid() && Abs() == ForthSpec.Push(old(Abs()), v)
    {
      if sp >= STACK_MAX {
        Print("stack overflow\n");
      } else {
        stack[sp] := v;
        sp := sp + 1;
      }
    }

    method Pop() returns (ok: bool, v: u32)
      requires Valid()
      modifies this`sp, this`out
      ensures Valid() && Abs() == ForthSpec.Pop(old(Abs())).rest
      ensures ok == ForthSpec.Pop(old(Abs())).Top?
      ensures ok ==> v == ForthSpec.Pop(old(Abs())).value
    {
      if sp <= 0 {
        Print("stack underflow\n");
        return false, 0;
      }
      sp := sp - 1;
      return true, stack[sp];
    }

    /** `pop` the top and, if that works, the cell under it. */
    method PopBoth() returns (ok: bool, under: u32, top: u32)
      requires Valid()
      modifies this`sp, this`out
      ensures Valid() && Abs() == Pop2(old(Abs())).rest
      ensures ok == Pop2(old(Abs())).Top2?
      ensures ok ==> under == Pop2(old(Abs())).under && top == Pop2(old(Abs())).top
    {
      under := 0;
      ok, top := Pop();
      if ok {
        ok, under := Pop();
      }
    }

    // ----- Words -----

    method PrintTop()
      requires Valid()
      modifies this`sp, this`out
      ensures Valid() && Abs() == ForthSpec.PrintTop(old(Abs()))
    {
      var ok, v := Pop();
      if ok {
        PrintInt(Signed(v));
        Print("\n");
      }
    }

    method TypeString()
      requires Valid()
      modifies this`sp, this`out
      ensures Valid() && Abs() == ForthSpec.TypeString(old(Abs()))
    {
      var ok, idx, len := PopBoth();
      if !ok {
        return;
      }
      if idx > poolUsed || len > poolUsed - idx {
        Print("bad string\n");
        return;
      }
      Slice(pool[..], poolUsed, idx, len);
      Print(pool[idx..idx + len]);
    }

    method Fetch()
      requires Valid()
      modifies this`sp, this`out, stack
      ensures Valid() && Abs() == ForthSpec.Fetch(old(Abs()))
    {
      var ok, addr := Pop();
      if !ok {
        return;
      }
      if addr >= varCount {
        Print("bad address\n");
        return;
      }
      Push(cells[addr]);
    }

    method Store()
      requires Valid()
      modifies this`sp, this`out, cells
      ensures Valid() && Abs() == ForthSpec.Store(old(Abs()))
    {
      var ok, value, addr := PopBoth();
      if !ok {
        return;
      }
      if addr >= varCount {
        Print("bad address\n");
        return;
      }
      ghost var before := cells[..varCount];
      cells[addr] := value;
      assert cells[..varCount] == before[addr := value];
    }

    /** Division of INT_MIN by -1 raises the CPU's divide exception, which ends the program. */
    method Binary(op: Op)
      requires Valid()
      modifies this`sp, this`out, this`mode, stack
      ensures Valid() && Abs() == ForthSpec.Binary(old(Abs()), op)
    {
      hide Text, Terminated, Wrap, TruncDiv, Pop2, ForthSpec.Pop, ForthSpec.Push;
      var ok, a: u32, b: u32 := PopBoth();
      if !ok {
        return;
      }
      match op {
        case Plus => Push(Wrap(a + b));
        case Minus => Push(Wrap(a - b));
        case Times => Push(Wrap(a * b));
        case Slash =>
          if b == 0 {
            Print("division by zero\n");
            return;
          }
          if a == SIGN_BIT && b == MODULUS - 1 {
            mode := Trapped;
            return;
          }
          Push(Wrap(TruncDiv(Signed(a), Signed(b))));
      }
    }

    /** A C string in a row equals the text up to the end of the whole array. */
    lemma RowText(i: int)
      requires Valid() && 0 <= i < varCount
      ensures Terminated(varNames[NAME_MAX * i..]) && Text(varNames[NAME_MAX * i..]) == names[i]
    {
      var whole := varNames[NAME_MAX * i..];
      assert Row(i) == whole[..NAME_MAX];
      TextOfPrefix(whole, NAME_MAX);
    }

    method FindVar(name: array<char>) returns (v: int)
      requires Valid() && Terminated(name[..])
      ensures v == Find(Abs().names, Text(name[..]))
    {
      AbsCount();
      hide Text, Terminated, Find, Valid, Abs;
      ghost var w := Text(name[..]);
      var i := 0;
      while i < varCount
        invariant 0 <= i <= varCount
        invariant forall j :: 0 <= j < i ==> Abs().names[j] != w
      {
        var found := IsRow(i, name);
        if found {
          FoundAt(Abs().names, w, i);
          return i;
        }
        i := i + 1;
      }
      FoundAt(Abs().names, w, i);
      v := -1;
    }

    method IsRow(i: nat, name: array<char>) returns (same: bool)
      requires Valid() && i < |Abs().names| && Terminated(name[..])
      ensures same == (Abs().names[i] == Text(name[..]))
    {
      AbsVariable(i);
      hide Text, Terminated, Valid, Abs, Compare;
      assert name[0..] == name[..];
      CompareIsZeroOnEqual(Abs().names[i], Text(name[..]));
      var r := Strcmp(varNames, NAME_MAX * i, name, 0);
      same := r == 0;
    }

    /** Copies a name, cut to 31 characters, into row `i` and terminates it. */
    method CopyName(i: nat, name: array<char>)
      requires varNames.Length == VAR_MAX * NAME_MAX && i < VAR_MAX
      requires Terminated(name[..]) && name != varNames
      modifies varNames
      ensures Terminated(Row(i)) && Text(Row(i)) == Cut(Text(name[..]))
      ensures forall j :: 0 <= j < VAR_MAX && j != i ==> Row(j) == old(Row(j))
    {
      hide Text, Cut;
      ghost var w := Text(name[..]);
      CutLength(w);
      var base := NAME_MAX * i;
      var k := 0;
      while name[k] != '\0' && k < NAME_MAX - 1
        invariant 0 <= k <= |w| && k < NAME_MAX
        invariant varNames[base..base + k] == w[..k]
        invariant forall m :: 0 <= m < varNames.Length && !(base <= m < base + NAME_MAX) ==>
                    varNames[m] == old(varNames[m])
        decreases |w| - k
      {
        varNames[base + k] := name[k];
        k := k + 1;
      }
      varNames[base + k] := '\0';
      assert Row(i)[..k] == w[..k] && Row(i)[k] == '\0';
      TextIs(Row(i), k);
      assert forall j :: 0 <= j < VAR_MAX && j != i ==> Row(j) == old(Row(j));
    }

    method DeclareVariable(name: array<char>)
      requires Valid() && Terminated(name[..])
      requires name !in Repr()
      modifies this`varCount, this`names, this`out, varNames, cells
      ensures Valid() && Abs() == Declare(old(Abs()), Cut(Text(name[..])))
    {
      hide Text;
      if varCount >= VAR_MAX {
        Print("too many variables\n");
        return;
      }
      CopyName(varCount, name);
      cells[varCount] := 0;
      names := names + [Cut(Text(name[..]))];
      varCount := varCount + 1;
      assert cells[..varCount] == old(cells[..varCount]) + [0];
    }

    // ----- Scanner -----

    /** The loop of `read_string`. */
    method CopyToPool(line: array<char>, start: nat) returns (p: nat)
      requires Valid() && Terminated(line[..]) && line !in Repr()
      requires start <= |Text(line[..])|
      modifies this`poolUsed, this`out, pool
      ensures Valid() && start <= p <= |Text(line[..])|
      ensures CopyString(old(Abs()), Text(line[..])[start..]) == Copied(Abs(), Text(line[..])[p..])
      ensures sp == old(sp) && poolUsed >= old(poolUsed)
    {
      hide Text;
      ghost var text := Text(line[..]);
      p := start;
      while line[p] != '\0' && line[p] != '"'
        invariant start <= p <= |text| && line[..] == old(line[..])
        invariant Valid() && poolUsed >= old(poolUsed)
        invariant CopyString(old(Abs()), text[start..]) == CopyString(Abs(), text[p..])
        decreases |text| - p
      {
        assert text[p..][0] == line[p] && text[p..][1..] == text[p + 1..];
        if poolUsed >= POOL_MAX {
          Print("string pool full\n");
          return;
        }
        PoolPut(line[p]);
        p := p + 1;
      }
      assert p < |text| ==> text[p..][0] == line[p];
    }

    method PoolPut(c: char)
      requires Valid() && poolUsed < POOL_MAX
      modifies this`poolUsed, pool
      ensures Valid() && poolUsed == old(poolUsed) + 1
      ensures Abs() == old(Abs()).(pool := old(Abs()).pool + [c])
    {
      pool[poolUsed] := c;
      poolUsed := poolUsed + 1;
    }

    /** Reads the literal whose opening quote is at `start`. */
    method ReadString(line: array<char>, start: nat) returns (p: nat)
      requires Valid() && Terminated(line[..]) && line !in Repr()
      requires start < |Text(line[..])|
      modifies this`sp, this`poolUsed, this`out, stack, pool
      ensures Valid() && start < p <= |Text(line[..])|
      ensures Ok(old(Abs()))
      ensures var r := ForthSpec.ReadString(old(Abs()), Text(line[..])[start + 1..]);
              Abs() == r.state && Text(line[..])[p..] == AfterQuote(r.rest)
    {
      hide Text, CopyString, ForthSpec.Push;
      AbsOk();
      ghost var text := Text(line[..]);
      var first := poolUsed;
      p := CopyToPool(line, start + 1);
      assert line[..] == old(line[..]);
      assert AfterQuote(text[p..]) == if line[p] == '"' then text[p + 1..] else text[p..];
      if line[p] == '"' {
        p := p + 1;
      }
      Push(first);
      Push(poolUsed - first);
    }

    /** `running = 0`. */
    method Stop()
      requires Valid()
      modifies this`mode
      ensures Valid() && Abs() == old(Abs()).(mode := Bye)
    {
      mode := Bye;
    }

    method Execute(w: array<char>, declaring: bool) returns (d: bool)
      requires Valid() && Terminated(w[..]) && w !in Repr()
      requires 1 <= |Text(w[..])| < NAME_MAX
      modifies Repr()
      ensures Valid()
      ensures Executed(Abs(), d) == ForthSpec.Execute(old(Abs()), Text(w[..]), declaring)
    {
      hide Text, WordIs, ForthSpec.TypeString, ForthSpec.PrintTop, ForthSpec.Fetch, ForthSpec.Store,
        ForthSpec.Binary, VariableOrNumber, Declare, AreCapitals, Spells, Abs, Valid;
      ghost var t := Text(w[..]);
      BuiltinsDiffer(t);
      d := false;
      if declaring {
        DeclareVariable(w);
        return;
      }
      var isType := MatchesBuiltin(w, "TYPE");
      if isType {
        TypeString();
        return;
      }
      var isVariable := MatchesBuiltin(w, "VARIABLE");
      if isVariable {
        return true;
      }
      var isBye := MatchesBuiltin(w, "BYE");
      if isBye {
        Stop();
        return;
      }
      assert w[1] == '\0' <==> t == [w[0]];
      if w[0] == '.' && w[1] == '\0' {
        PrintTop();
      } else if w[0] == '@' && w[1] == '\0' {
        Fetch();
      } else if w[0] == '!' && w[1] == '\0' {
        Store();
      } else if w[0] == '?' && w[1] == '\0' {
        Fetch();
        PrintTop();
      } else if w[1] == '\0' && (w[0] == '+' || w[0] == '-' || w[0] == '*' || w[0] == '/') {
        Binary(OpOf([w[0]]).op);
      } else {
        ExecuteOther(w);
      }
    }

    /** The last three arms of `execute`: a variable, a number, or neither. */
    method ExecuteOther(w: array<char>)
      requires Valid() && Terminated(w[..]) && w !in Repr()
      modifies this`sp, this`out, stack
      ensures Valid()
      ensures Abs() == VariableOrNumber(old(Abs()), Text(w[..]))
    {
      hide Text, ParseNumber, Find, ForthSpec.Push, Valid, Abs, Say, Terminated;
      ghost var t := Text(w[..]);
      var v := FindVar(w);
      if v >= 0 {
        Push(Wrap(v));
        return;
      }
      var ok, number := ReadNumber(w);
      if ok {
        Push(number);
      } else {
        Print("unknown word: ");
        PrintBuffer(w);
        Print("\n");
        SayThree(old(Abs()), "unknown word: ", t, "\n");
      }
    }

    method RunLine(line: array<char>)
      requires Valid() && Terminated(line[..]) && line !in Repr()
      modifies Repr()
      ensures Valid() && Ok(old(Abs())) && Abs() == ForthSpec.RunLine(old(Abs()), Text(line[..]))
    {
      hide Text, ForthSpec.Execute, ForthSpec.ReadString, WordLength, Cut, Abs, Valid, Scan, Ok;
      AbsOk();
      AbsMode();
      ghost var text := Text(line[..]);
      ghost var s0 := Abs();
      var word := new char[NAME_MAX];
      var declaring := false;
      var p := 0;
      assert text[0..] == text;
      while mode == Running
        invariant Valid() && 0 <= p <= |text| && line[..] == old(line[..])
        invariant Ok(s0) && Ok(Abs()) && Abs().mode == mode
        invariant Scan(s0, text, false).state == Scan(Abs(), text[p..], declaring).state
        invariant word !in Repr() && fresh(word)
        decreases |text| - p, mode == Running
      {
        p := SkipBlanks(line, p, Abs(), declaring);
        if line[p] == '\0' {
          break;
        }
        if line[p] == '"' {
          ghost var rest := text[p..];
          assert rest[0] == line[p] && rest[1..] == text[p + 1..];
          ScanQuoted(Abs(), rest, declaring);
          p := ReadString(line, p);
          ScanStops(Abs(), "", declaring);
        } else {
          p, declaring := RunWord(line, p, word, declaring);
        }
        AbsMode();
      }
      ScanStops(Abs(), text[p..], declaring);
    }

    /** Copies the word at `start` into the word buffer and executes it. */
    method RunWord(line: array<char>, start: nat, word: array<char>, declaring: bool) returns (p: nat, d: bool)
      requires Valid() && Abs().mode == Running
      requires Terminated(line[..]) && line !in Repr()
      requires word.Length == NAME_MAX && word != line && word !in Repr()
      requires start < |Text(line[..])| && !IsBlank(line[start]) && line[start] != '"'
      modifies Repr(), word
      ensures Valid() && Ok(old(Abs())) && Ok(Abs())
      ensures line[..] == old(line[..]) && start < p <= |Text(line[..])|
      ensures Scan(old(Abs()), Text(line[..])[start..], declaring) == Scan(Abs(), Text(line[..])[p..], d)
    {
      hide Text, ForthSpec.Execute, WordLength, Cut, Abs, Valid, Scan, Ok;
      AbsOk();
      ghost var text := Text(line[..]);
      ghost var rest := text[start..];
      ScanWord(Abs(), rest, declaring);
      p := CopyWord(line, start, word);
      assert rest[..p - start] == text[start..p] && rest[p - start..] == text[p..];
      CutLength(text[start..p]);
      d := Execute(word, declaring);
    }

    /** `main` on the lines typed; it stops at BYE, at a trap, or when it waits for a line that never comes. */
    method Repl(lines: seq<string>)
      requires Valid() && AreLines(lines)
      requires forall i :: 0 <= i < |lines| ==> |lines[i]| < LINE_MAX
      modifies Repr()
      ensures Valid() && Ok(old(Abs())) && Abs() == WholeRun(old(Abs()), lines)
    {
      hide Abs, Valid, Ok, Session, Say, Checkout;
      AbsOk();
      SayOk(Abs(), "FORTH INTERPRETER\n");
      Print("FORTH INTERPRETER\n");
      Prompt(lines);
      AbsMode();
      if mode == Bye {
        PrintCheckout();
      }
    }

    /** The prompt loop of `main`. */
    method Prompt(lines: seq<string>)
      requires Valid() && AreLines(lines)
      requires forall i :: 0 <= i < |lines| ==> |lines[i]| < LINE_MAX
      modifies Repr()
      ensures Valid() && Ok(old(Abs())) && Abs() == Session(old(Abs()), lines)
    {
      hide Abs, Valid, Ok, Session, ForthSpec.RunLine, Say, Text;
      AbsOk();
      AbsMode();
      ghost var target := Session(Abs(), lines);
      var line := new char[LINE_MAX];
      var k := 0;
      assert lines[0..] == lines;
      while mode == Running
        invariant Valid() && Ok(Abs()) && Abs().mode == mode && 0 <= k <= |lines|
        invariant line !in Repr() && fresh(line)
        invariant target == Session(Abs(), lines[k..])
        decreases |lines| - k, mode == Running
      {
        SayOk(Abs(), "> ");
        SessionTurn(Abs(), lines, k);
        Print("> ");
        if k == |lines| {
          return;
        }
        FillLine(line, lines[k]);
        RunLine(line);
        AbsMode();
        k := k + 1;
      }
      SessionEnds(Abs(), lines[k..]);
    }

    method PrintCheckout()
      requires Valid()
      modifies this`out
      ensures Valid() && |old(Abs()).names| == |old(Abs()).cells|
      ensures Abs() == Say(old(Abs()), "== Variable Checkout ==\n" + Checkout(old(Abs()).names, old(Abs()).cells))
    {
      hide Abs, Valid, Checkout, VariableLine;
      AbsCount();
      ghost var s := Abs();
      ghost var banner := "== Variable Checkout ==\n";
      Print("== Variable Checkout ==\n");
      var i := 0;
      CheckoutStart(s.names, s.cells);
      assert banner + "" == banner;
      while i < varCount
        invariant Valid() && 0 <= i <= varCount == |s.names|
        invariant Abs() == Say(s, banner + Checkout(s.names[..i], s.cells[..i]))
      {
        PrintVariable(i);
        CheckoutStep(s.names, s.cells, i);
        SayTwice(s, banner, Checkout(s.names[..i], s.cells[..i]), VariableLine(s.names[i], s.cells[i]));
        i := i + 1;
      }
      assert s.names[..i] == s.names && s.cells[..i] == s.cells;
    }

    lemma AbsCount()
      requires Valid()
      ensures |Abs().names| == |Abs().cells| == varCount
    {
    }

    method PrintVariable(i: nat)
      requires Valid() && i < |Abs().names| == |Abs().cells|
      modifies this`out
      ensures Valid() && Abs() == Say(old(Abs()), VariableLine(old(Abs()).names[i], old(Abs()).cells[i]))
    {
      hide SignedText, Signed, Abs, Valid, Text;
      ghost var s := Abs();
      AbsVariable(i);
      SignedWrap(cells[i]);
      PrintRow(NAME_MAX * i);
      Print(" : ");
      PrintInt(Signed(cells[i]));
      Print("\n");
      SayFour(s, s.names[i], " : ", SignedText(Signed(s.cells[i])), "\n");
    }

    lemma AbsVariable(i: nat)
      requires Valid() && i < |Abs().names|
      ensures i < |Abs().cells| && i < cells.Length && Abs().cells[i] == cells[i]
      ensures NAME_MAX * i <= varNames.Length && Terminated(varNames[NAME_MAX * i..])
      ensures Text(varNames[NAME_MAX * i..]) == Abs().names[i]
    {
      RowText(i);
    }

    method PrintRow(start: nat)
      requires Valid() && start <= varNames.Length && Terminated(varNames[start..])
      modifies this`out
      ensures Valid() && Abs() == Say(old(Abs()), Text(varNames[start..]))
    {
      hide Text;
      ghost var t := Text(varNames[start..]);
      var n := 0;
      while varNames[start + n] != '\0'
        invariant n <= |t|
        decreases varNames.Length - n
      {
        n := n + 1;
      }
      assert varNames[start..start + n] == t;
      Print(varNames[start..start + n]);
    }

    lemma AbsMode()
      requires Valid()
      ensures Abs().mode == mode
    {
    }

    method SkipBlanks(line: array<char>, start: nat, ghost s: State, declaring: bool) returns (p: nat)
      requires Terminated(line[..]) && start <= |Text(line[..])|
      requires Ok(s)
      ensures start <= p <= |Text(line[..])| && !IsBlank(line[p])
      ensures Scan(s, Text(line[..])[start..], declaring) == Scan(s, Text(line[..])[p..], declaring)
    {
      hide Text, Scan;
      ghost var text := Text(line[..]);
      p := start;
      while line[p] == ' ' || line[p] == '\t'
        invariant start <= p <= |text|
        invariant Scan(s, text[start..], declaring) == Scan(s, text[p..], declaring)
        decreases |text| - p
      {
        ScanSkips(s, text[p..], declaring);
        assert text[p..][0] == line[p] && text[p..][1..] == text[p + 1..];
        p := p + 1;
      }
    }

    /** Copies the word at `p` into the word buffer, dropping what does not fit. */
    method CopyWord(line: array<char>, p: nat, word: array<char>) returns (q: nat)
      requires Terminated(line[..]) && p < |Text(line[..])| && !IsBlank(line[p])
      requires word.Length == NAME_MAX && word != line
      modifies word
      ensures q == p + WordLength(Text(line[..])[p..]) && p < q <= |Text(line[..])|
      ensures Terminated(word[..]) && Text(word[..]) == Cut(Text(line[..])[p..q]) != ""
    {
      hide Text, WordLength, Cut;
      ghost var text := Text(line[..]);
      q := p;
      var len := 0;
      CutLength(text[p..q]);
      while line[q] != '\0' && line[q] != ' ' && line[q] != '\t'
        invariant p <= q <= |text| && line[..] == old(line[..])
        invariant forall i :: p <= i < q ==> !IsBlank(text[i])
        invariant 0 <= len < NAME_MAX && word[..len] == Cut(text[p..q])
        decreases |text| - q
      {
        assert text[p..q + 1] == text[p..q] + [line[q]];
        len := KeepChar(word, len, line[q], text[p..q]);
        q := q + 1;
      }
      WordEnds(text, p, q);
      EndWord(word, len, text[p..q]);
    }

    /** Adds a character to the word buffer unless it is full. */
    method KeepChar(word: array<char>, len: nat, c: char, ghost w: string) returns (r: nat)
      requires word.Length == NAME_MAX && len < NAME_MAX && word[..len] == Cut(w)
      modifies word
      ensures r < NAME_MAX && word[..r] == Cut(w + [c])
    {
      CutSnoc(w, c);
      CutLength(w);
      hide Cut;
      r := len;
      if len < NAME_MAX - 1 {
        word[len] := c;
        r := len + 1;
      }
    }

    method EndWord(word: array<char>, len: nat, ghost w: string)
      requires word.Length == NAME_MAX && len < NAME_MAX && word[..len] == Cut(w) && NoNul(w) && w != ""
      modifies word
      ensures Terminated(word[..]) && Text(word[..]) == Cut(w) != ""
    {
      hide Text;
      CutLength(w);
      word[len] := '\0';
      assert word[..][..len] == Cut(w);
      TextIs(word[..], len);
    }
  }

  lemma FoundAt(names: seq<string>, w: string, i: nat)
    requires i <= |names| && (i < |names| ==> names[i] == w)
    requires forall j :: 0 <= j < i ==> names[j] != w
    ensures Find(names, w) == if i < |names| then i else -1
  {
  }

  lemma WordEnds(text: string, p: nat, q: nat)
    requires p <= q <= |text| && (q < |text| ==> IsBlank(text[q]))
    requires forall i :: p <= i < q ==> !IsBlank(text[i])
    ensures WordLength(text[p..]) == q - p
  {
  }

  lemma CutSnoc(w: string, c: char)
    ensures Cut(w + [c]) == if |w| < NAME_MAX - 1 then Cut(w) + [c] else Cut(w)
  {
  }

  lemma CutLength(w: string)
    ensures |Cut(w)| == Min(|w|, NAME_MAX - 1) && Cut(w) <= w
  {
  }

  lemma Slice(s: seq<char>, used: int, idx: int, len: int)
    requires 0 <= idx && 0 <= len && idx + len <= used <= |s|
    ensures s[..used][idx..idx + len] == s[idx..idx + len]
  {
  }

  lemma SayOk(s: State, message: string)
    requires Ok(s)
    ensures Ok(Say(s, message)) && Say(s, message).mode == s.mode
  {
  }

  lemma SayTwice(s: State, a: string, b: string, c: string)
    ensures Say(Say(s, a + b), c) == Say(s, a + (b + c))
  {
  }

  lemma CheckoutStart(names: seq<string>, cells: seq<u32>)
    requires |names| == |cells|
    ensures Checkout(names[..0], cells[..0]) == ""
  {
  }

  lemma CheckoutStep(names: seq<string>, cells: seq<u32>, i: nat)
    requires |names| == |cells| && i < |names|
    ensures Checkout(names[..i + 1], cells[..i + 1])
         == Checkout(names[..i], cells[..i]) + VariableLine(names[i], cells[i])
  {
    assert names[..i + 1][..i] == names[..i] && cells[..i + 1][..i] == cells[..i];
  }

  /** A line as `read_line` leaves it in the buffer. */
  method FillLine(line: array<char>, text: string)
    requires NoNul(text) && |text| < line.Length
    modifies line
    ensures Terminated(line[..]) && Text(line[..]) == text
  {
    for i := 0 to |text|
      invariant line[..i] == text[..i]
    {
      line[i] := text[i];
    }
    line[|text|] := '\0';
    assert line[..][..|text|] == text;
    TextIs(line[..], |text|);
  }

  lemma SayFour(s: State, a: string, b: string, c: string, d: string)
    ensures Say(Say(Say(Say(s, a), b), c), d) == Say(s, a + b + c + d)
  {
    assert s.out + a + b + c + d == s.out + (a + b + c + d);
  }

  lemma SayThree(s: State, a: string, b: string, c: string)
    ensures Say(Say(Say(s, a), b), c) == Say(s, a + b + c)
  {
  }

  lemma TextOfPrefix(s: seq<char>, n: nat)
    requires n <= |s| && Terminated(s[..n])
    ensures Terminated(s) && Text(s) == Text(s[..n])
  {
    var k := |Text(s[..n])|;
    assert s[k] == '\0';
    assert forall i :: 0 <= i < k ==> s[i] == s[..n][i] != '\0';
  }

  /** The characters `print` sends: `strlen` of them. */
  method StringLength(w: array<char>) returns (n: nat)
    requires Terminated(w[..])
    ensures n == |Text(w[..])|
  {
    n := 0;
    while w[n] != '\0'
      invariant n <= |Text(w[..])|
      decreases w.Length - n
    {
      n := n + 1;
    }
  }
}
