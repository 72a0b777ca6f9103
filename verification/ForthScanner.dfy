/** The in-place scanner refines a token-level semantics, and lines compose. */
module ForthScanner {
  import opened Word32
  import opened Numerals
  import opened CStrings
  import opened ForthSpec

  datatype Token = Quote(body: string) | Word(text: string)

  /** A line as quoted strings and words cut to 31 characters. */
  function Tokenize(p: string): seq<Token>
    decreases |p|
  {
    if p == "" then []
    else if IsBlank(p[0]) then Tokenize(p[1..])
    else if p[0] == '"' then
      var k := IndexOf(p[1..], '"');
      [Quote(p[1..][..k])] + Tokenize(AfterQuote(p[1..][k..]))
    else
      var n := WordLength(p);
      [Word(Cut(p[..n]))] + Tokenize(p[n..])
  }

  /** Does the line end inside a string? */
  predicate EndsOpen(p: string)
    decreases |p|
  {
    if p == "" then false
    else if IsBlank(p[0]) then EndsOpen(p[1..])
    else if p[0] == '"' then
      var k := IndexOf(p[1..], '"');
      k == |p[1..]| || EndsOpen(AfterQuote(p[1..][k..]))
    else EndsOpen(p[WordLength(p)..])
  }

  /** Pool characters the quoted strings of a line take. */
  function PoolNeed(tokens: seq<Token>): nat {
    if tokens == [] then 0
    else (if tokens[0].Quote? then |tokens[0].body| else 0) + PoolNeed(tokens[1..])
  }

  ghost predicate Fits(s: State, tokens: seq<Token>) {
    |s.pool| + PoolNeed(tokens) <= POOL_MAX
  }

  function PushLiteral(s: State, body: string): State
    requires |s.pool| + |body| <= POOL_MAX
  {
    Push(Push(s.(pool := s.pool + body), |s.pool|), |body|)
  }

  /** One token after another until BYE. */
  function RunTokens(s: State, tokens: seq<Token>, declaring: bool): Executed
    requires Fits(s, tokens)
    decreases |tokens|
  {
    if s.mode != Running || tokens == [] then Executed(s, declaring)
    else match tokens[0]
      case Quote(body) => RunTokens(PushLiteral(s, body), tokens[1..], declaring)
      case Word(w) =>
        var e := Execute(s, w, declaring);
        RunTokens(e.state, tokens[1..], e.declaring)
  }

  /** How much of the literal at `p` a pool with `used` characters takes. */
  function Taken(used: nat, p: string): (k: nat)
    requires used <= POOL_MAX
    ensures k <= IndexOf(p, '"')
  {
    Min(IndexOf(p, '"'), POOL_MAX - used)
  }

  /** The pool gains the longest part of the literal that fits; the rest stays unread after a message. */
  lemma {:induction false} CopyExact(s: State, p: string)
    requires |s.pool| <= POOL_MAX
    ensures var k := Taken(|s.pool|, p);
            var t := s.(pool := s.pool + p[..k]);
            CopyString(s, p)
            == Copied(if |s.pool| + IndexOf(p, '"') > 4096 then Say(t, "string pool full\n") else t, p[k..])
    decreases |p|
  {
    var k := Taken(|s.pool|, p);
    if k == 0 {
      assert s.pool + p[..0] == s.pool;
      assert p[0..] == p;
    } else {
      var s1 := s.(pool := s.pool + [p[0]]);
      assert Taken(|s1.pool|, p[1..]) == k - 1;
      CopyExact(s1, p[1..]);
      assert s1.pool + p[1..][..k - 1] == s.pool + p[..k];
      assert p[1..][k - 1..] == p[k..];
    }
  }

  lemma ReadWhole(s: State, p: string)
    requires Ok(s) && |s.pool| + IndexOf(p, '"') <= POOL_MAX
    ensures ReadString(s, p) == Copied(PushLiteral(s, p[..IndexOf(p, '"')]), p[IndexOf(p, '"')..])
  {
    CopyExact(s, p);
  }

  lemma ExecuteKeepsPool(s: State, w: string, declaring: bool)
    ensures Execute(s, w, declaring).state.pool == s.pool
  {
    hide WordIs, ParseNumber, Find, SignedText, Apply;
  }

  /** When its strings fit in the pool, scanning the characters of a line runs its tokens. */
  lemma {:induction false} ScanRunsTokens(s: State, p: string, declaring: bool)
    requires Ok(s) && NoNul(p)
    requires Fits(s, Tokenize(p))
    ensures var o := Scan(s, p, declaring);
            && RunTokens(s, Tokenize(p), declaring) == Executed(o.state, o.declaring)
            && (o.open ==> EndsOpen(p))
            && (o.state.mode == Running ==> (o.open <==> EndsOpen(p)))
    decreases |p|
  {
    hide Execute, ReadString;
    if p == "" {
    } else if IsBlank(p[0]) {
      ScanRunsTokens(s, p[1..], declaring);
    } else if s.mode != Running {
    } else if p[0] == '"' {
      var k := IndexOf(p[1..], '"');
      var body := p[1..][..k];
      var rest := p[1..][k..];
      var tokens := Tokenize(p);
      assert tokens[0] == Quote(body) && tokens[1..] == Tokenize(AfterQuote(rest));
      ReadWhole(s, p[1..]);
      ReadStringOk(s, p[1..]);
      if rest != "" {
        ScanRunsTokens(PushLiteral(s, body), AfterQuote(rest), declaring);
      }
    } else {
      var n := WordLength(p);
      var tokens := Tokenize(p);
      assert tokens[0] == Word(Cut(p[..n])) && tokens[1..] == Tokenize(p[n..]);
      ExecuteOk(s, Cut(p[..n]), declaring);
      ExecuteKeepsPool(s, Cut(p[..n]), declaring);
      var e := Execute(s, Cut(p[..n]), declaring);
      ScanRunsTokens(e.state, p[n..], e.declaring);
    }
  }

  // ----- One turn of the scanner -----

  lemma ScanStops(s: State, p: string, declaring: bool)
    requires Ok(s) && NoNul(p) && (s.mode != Running || p == "")
    ensures Scan(s, p, declaring) == Outcome(s, declaring, false)
  {
  }

  lemma ScanSkips(s: State, p: string, declaring: bool)
    requires Ok(s) && NoNul(p) && p != "" && IsBlank(p[0])
    ensures Scan(s, p, declaring) == Scan(s, p[1..], declaring)
  {
  }

  lemma ScanQuoted(s: State, p: string, declaring: bool)
    requires Ok(s) && NoNul(p) && s.mode == Running && p != "" && p[0] == '"'
    ensures var r := ReadString(s, p[1..]);
            && Ok(r.state) && NoNul(AfterQuote(r.rest)) && |AfterQuote(r.rest)| < |p|
            && Scan(s, p, declaring)
               == if r.rest == "" then Outcome(r.state, declaring, true)
                  else Scan(r.state, AfterQuote(r.rest), declaring)
  {
    hide ReadString;
    ReadStringOk(s, p[1..]);
  }

  lemma ScanWord(s: State, p: string, declaring: bool)
    requires Ok(s) && NoNul(p) && s.mode == Running && p != "" && !IsBlank(p[0]) && p[0] != '"'
    ensures var n := WordLength(p);
            var e := Execute(s, Cut(p[..n]), declaring);
            0 < n && Ok(e.state) && Scan(s, p, declaring) == Scan(e.state, p[n..], e.declaring)
  {
    hide Execute;
    ExecuteOk(s, Cut(p[..WordLength(p)]), declaring);
  }

  // ----- Composition -----

  lemma {:induction false} WordBeforeBlank(a: string, rest: string)
    requires rest != "" && IsBlank(rest[0])
    ensures WordLength(a + rest) == WordLength(a)
    decreases |a|
  {
    if a == "" {
      assert a + rest == rest;
    } else if !IsBlank(a[0]) {
      assert (a + rest)[1..] == a[1..] + rest;
      WordBeforeBlank(a[1..], rest);
    }
  }

  lemma {:induction false} CopyBefore(s: State, a: string, rest: string)
    requires CopyString(s, a).rest != ""
    ensures CopyString(s, a + rest) == Copied(CopyString(s, a).state, CopyString(s, a).rest + rest)
    decreases |a|
  {
    assert (a + rest)[0] == a[0];
    if a[0] != '"' && |s.pool| < POOL_MAX {
      assert (a + rest)[1..] == a[1..] + rest;
      CopyBefore(s.(pool := s.pool + [a[0]]), a[1..], rest);
    }
  }

  lemma ReadBefore(s: State, a: string, rest: string)
    requires Ok(s) && ReadString(s, a).rest != ""
    ensures ReadString(s, a + rest) == Copied(ReadString(s, a).state, ReadString(s, a).rest + rest)
  {
    CopyBefore(s, a, rest);
  }

  /** `a`, a blank and `b` on one line act as `a` and then `b`, unless `a` ends inside a string. */
  lemma {:induction false} ScanConcat(s: State, a: string, blank: char, b: string, declaring: bool)
    requires Ok(s) && NoNul(a) && NoNul(b) && IsBlank(blank)
    requires !Scan(s, a, declaring).open
    ensures NoNul(a + [blank] + b) && Ok(Scan(s, a, declaring).state)
    ensures var o := Scan(s, a, declaring);
            Scan(s, a + [blank] + b, declaring) == Scan(o.state, b, o.declaring)
    decreases |a|
  {
    hide Scan, Execute, ReadString, WordLength, Cut, Ok;
    ScanOk(s, a, declaring);
    var tail := [blank] + b;
    var p := a + tail;
    assert a + [blank] + b == p;
    if s.mode != Running {
      ScanStops(s, a, declaring);
      ScanStops(s, p, declaring);
      ScanStops(s, b, declaring);
    } else if a == "" {
      ScanStops(s, a, declaring);
      ScanSkips(s, p, declaring);
      assert p == tail && tail[1..] == b;
    } else if IsBlank(a[0]) {
      assert p[1..] == a[1..] + [blank] + b;
      ScanSkips(s, a, declaring);
      ScanSkips(s, p, declaring);
      ScanConcat(s, a[1..], blank, b, declaring);
    } else if a[0] == '"' {
      ScanQuoted(s, a, declaring);
      ScanQuoted(s, p, declaring);
      var r := ReadString(s, a[1..]);
      assert p[1..] == a[1..] + tail;
      ReadBefore(s, a[1..], tail);
      assert AfterQuote(r.rest + tail) == AfterQuote(r.rest) + [blank] + b;
      ScanConcat(r.state, AfterQuote(r.rest), blank, b, declaring);
    } else {
      var n := WordLength(a);
      WordBeforeBlank(a, tail);
      assert p[..n] == a[..n] && p[n..] == a[n..] + [blank] + b;
      ScanWord(s, a, declaring);
      ScanWord(s, p, declaring);
      var e := Execute(s, Cut(a[..n]), declaring);
      ScanConcat(e.state, a[n..], blank, b, e.declaring);
    }
  }

  /** One line holding `a`, a blank and `b` is two lines, unless `a` ends in a string or with VARIABLE. */
  lemma LinesCompose(s: State, a: string, blank: char, b: string)
    requires Ok(s) && NoNul(a) && NoNul(b) && IsBlank(blank)
    requires var o := Scan(s, a, false); !o.open && !o.declaring
    ensures NoNul(a + [blank] + b)
    ensures RunLine(s, a + [blank] + b) == RunLine(RunLine(s, a), b)
  {
    ScanConcat(s, a, blank, b, false);
  }

  // ----- Lines of one and two words -----

  /** Text the scanner takes as one whole word. */
  ghost predicate IsWord(w: string) {
    IsName(w) && w != "" && w[0] != '"' && forall i :: 0 <= i < |w| ==> !IsBlank(w[i])
  }

  lemma ScanOneWord(s: State, w: string, declaring: bool)
    requires Ok(s) && s.mode == Running && IsWord(w)
    ensures var e := Execute(s, w, declaring);
            Scan(s, w, declaring) == Outcome(e.state, e.declaring, false)
  {
    hide Execute, ReadString;
    assert WordLength(w) == |w|;
    assert w[..|w|] == w && w[|w|..] == "";
    ExecuteOk(s, w, declaring);
  }

  /** A word of 32 characters or more is its first 31. */
  lemma LongWordsAreCut(s: State, w: string)
    requires Ok(s) && s.mode == Running && NoNul(w) && |w| >= 32 && w[0] != '"'
    requires forall i :: 0 <= i < |w| ==> !IsBlank(w[i])
    ensures NoNul(w[..31]) && RunLine(s, w) == RunLine(s, w[..31])
  {
    assert WordLength(w) == |w| && w[..|w|] == w && w[|w|..] == "";
    ScanWord(s, w, false);
    hide Scan, Execute, WordLength;
    var e := Execute(s, w[..31], false);
    ScanStops(e.state, "", e.declaring);
    ScanOneWord(s, w[..31], false);
  }

  lemma SpelledIsWord(w: string, name: string)
    requires AreCapitals(name) && name != "" && |name| < NAME_MAX && Spells(w, name)
    ensures IsWord(w) && WordIs(w, name)
  {
    NamesInEitherCase(w, name);
  }

  /** VARIABLE, in either case, declares the next word of its line; at the end of the line it is forgotten. */
  lemma VariableTakesNextWord(s: State, v: string, w: string)
    requires Ok(s) && s.mode == Running && Spells(v, "VARIABLE") && IsWord(w)
    ensures NoNul(v) && RunLine(s, v) == s
    ensures NoNul(v + [' '] + w)
    ensures RunLine(s, v + [' '] + w)
         == if |s.names| < 64 then s.(names := s.names + [w], cells := s.cells + [0])
            else Say(s, "too many variables\n")
  {
    SpelledIsWord(v, "VARIABLE");
    hide Scan, ExecutePlain, Spells, WordIs;
    ScanOneWord(s, v, false);
    ScanConcat(s, v, ' ', w, false);
    ScanOneWord(s, w, true);
  }

  lemma OnlyByeStops(s: State, w: string)
    requires s.mode == Running
    ensures WordIs(w, "BYE") ==> Execute(s, w, false).state == s.(mode := Bye)
    ensures Execute(s, w, false).state.mode == Bye <==> WordIs(w, "BYE")
  {
    hide ParseNumber, Find, SignedText, Apply;
  }

  /** A word ends the session exactly if it spells BYE in any mixture of cases, and then does only that. */
  lemma ByeStops(s: State, w: string)
    requires Ok(s) && s.mode == Running && IsWord(w)
    ensures RunLine(s, w).mode == Bye <==> Spells(w, "BYE")
    ensures Spells(w, "BYE") ==> RunLine(s, w) == s.(mode := Bye)
  {
    NamesInEitherCase(w, "BYE");
    OnlyByeStops(s, w);
    hide Scan, Execute, WordIs, Spells;
    ScanOneWord(s, w, false);
  }

  // ----- Exactly when lines compose -----

  ghost predicate SplitsAt(s: State, a: string, blank: char, b: string)
    requires Ok(s) && NoNul(a) && IsBlank(blank) && NoNul(b)
  {
    RunLine(s, a + [blank] + b) == RunLine(RunLine(s, a), b)
  }

  /** Whatever follows `a` and a blank may as well come on a line of its own. */
  ghost predicate LineSplits(s: State, a: string, blank: char)
    requires Ok(s) && NoNul(a) && IsBlank(blank)
  {
    forall b | NoNul(b) :: SplitsAt(s, a, blank, b)
  }

  /** Only a scanner that is still running ends inside a string or waiting for a name. */
  lemma {:induction false} PendingRuns(s: State, p: string, declaring: bool)
    requires Ok(s) && NoNul(p) && (declaring ==> s.mode == Running)
    ensures var o := Scan(s, p, declaring);
            o.open || o.declaring ==> o.state.mode == Running
    decreases |p|
  {
    hide Scan, ReadString, ExecutePlain, WordLength, Cut;
    if s.mode != Running || p == "" {
      ScanStops(s, p, declaring);
    } else if IsBlank(p[0]) {
      ScanSkips(s, p, declaring);
      PendingRuns(s, p[1..], declaring);
    } else if p[0] == '"' {
      ScanQuoted(s, p, declaring);
      ReadKeepsMode(s, p[1..]);
      var r := ReadString(s, p[1..]);
      if r.rest != "" {
        PendingRuns(r.state, AfterQuote(r.rest), declaring);
      }
    } else {
      ScanWord(s, p, declaring);
      var n := WordLength(p);
      var e := Execute(s, Cut(p[..n]), declaring);
      PendingRuns(e.state, p[n..], e.declaring);
    }
  }

  lemma ReadKeepsMode(s: State, p: string)
    requires Ok(s)
    ensures ReadString(s, p).state.mode == s.mode
  {
    CopyStringPool(s, p);
  }

  lemma {:induction false} NoQuoteAhead(p: string, c: char)
    requires IndexOf(p, '"') == |p| && c != '"'
    ensures IndexOf(p + [c], '"') == |p| + 1
    decreases |p|
  {
    if p != "" {
      assert (p + [c])[1..] == p[1..] + [c];
      NoQuoteAhead(p[1..], c);
    }
  }

  lemma PushRangeShows(s: State, t: State, i: nat)
    requires s.stack == t.stack && i <= |s.pool| <= POOL_MAX && i <= |t.pool| <= POOL_MAX
    ensures PushRange(s, i).pool == s.pool && PushRange(t, i).pool == t.pool
    ensures |PushRange(s, i).out| - |s.out| == |PushRange(t, i).out| - |t.out|
  {
  }

  /** One more blank inside an open string shows: in the pool, or as the message that the pool is full. */
  lemma OpenStringGrows(s: State, p: string, blank: char)
    requires Ok(s) && NoNul(p) && ReadString(s, p).rest == "" && IsBlank(blank)
    ensures var r := ReadString(s, p + [blank]);
            && (r.rest == "" || r.rest == [blank])
            && r.state != ReadString(s, p).state
  {
    CopyExact(s, p);
    CopyExact(s, p + [blank]);
    var r, t := CopyString(s, p), CopyString(s, p + [blank]);
    hide CopyString;
    assert Taken(|s.pool|, p) == |p|;
    NoQuoteAhead(p, blank);
    hide IndexOf;
    assert (p + [blank])[|p|..] == [blank] && (p + [blank])[..|p|] == p[..|p|];
    CopyStringPool(s, p);
    CopyStringPool(s, p + [blank]);
    PushRangeShows(r.state, t.state, |s.pool|);
    assert |r.state.pool| + |r.state.out| < |t.state.pool| + |t.state.out|;
    hide PushRange;
  }

  /** A line that ends inside a string notices even a blank at its end. */
  lemma {:induction false} OpenLineGrows(s: State, a: string, blank: char, declaring: bool)
    requires Ok(s) && NoNul(a) && IsBlank(blank) && Scan(s, a, declaring).open
    ensures NoNul(a + [blank]) && Scan(s, a + [blank], declaring).state != Scan(s, a, declaring).state
    decreases |a|
  {
    hide Scan, Execute, ReadString, WordLength, Cut, Ok;
    var p := a + [blank];
    if s.mode != Running || a == "" {
      ScanStops(s, a, declaring);
    } else if IsBlank(a[0]) {
      assert p[1..] == a[1..] + [blank];
      ScanSkips(s, a, declaring);
      ScanSkips(s, p, declaring);
      OpenLineGrows(s, a[1..], blank, declaring);
    } else if a[0] == '"' {
      assert p[1..] == a[1..] + [blank];
      ScanQuoted(s, a, declaring);
      ScanQuoted(s, p, declaring);
      var r := ReadString(s, a[1..]);
      if r.rest == "" {
        OpenStringGrows(s, a[1..], blank);
        var t := ReadString(s, a[1..] + [blank]);
        if t.rest != "" {
          assert AfterQuote(t.rest) == [blank];
          ScanBlank(t.state, blank, declaring);
        }
      } else {
        ReadBefore(s, a[1..], [blank]);
        assert AfterQuote(r.rest + [blank]) == AfterQuote(r.rest) + [blank];
        OpenLineGrows(r.state, AfterQuote(r.rest), blank, declaring);
      }
    } else {
      var n := WordLength(a);
      WordBeforeBlank(a, [blank]);
      assert p[..n] == a[..n] && p[n..] == a[n..] + [blank];
      ScanWord(s, a, declaring);
      ScanWord(s, p, declaring);
      var e := Execute(s, Cut(a[..n]), declaring);
      OpenLineGrows(e.state, a[n..], blank, e.declaring);
    }
  }

  lemma ScanBlank(s: State, blank: char, declaring: bool)
    requires Ok(s) && IsBlank(blank)
    ensures Scan(s, [blank], declaring) == Outcome(s, declaring, false)
  {
    if s.mode == Running {
      assert [blank][1..] == "";
    }
  }

  /** `a` may stand on a line of its own exactly if it ends neither inside a string nor waiting for a name. */
  lemma LinesComposeExactly(s: State, a: string, blank: char)
    requires Ok(s) && NoNul(a) && IsBlank(blank)
    ensures var o := Scan(s, a, false);
            LineSplits(s, a, blank) <==> !o.open && !o.declaring
  {
    var o := Scan(s, a, false);
    hide Scan;
    if o.open {
      OpenLineDiffers(s, a, blank);
    } else if o.declaring {
      PendingNameDiffers(s, a, blank);
    } else {
      forall b | NoNul(b) ensures SplitsAt(s, a, blank, b) {
        LinesCompose(s, a, blank, b);
      }
    }
  }

  lemma OpenLineDiffers(s: State, a: string, blank: char)
    requires Ok(s) && NoNul(a) && IsBlank(blank) && Scan(s, a, false).open
    ensures !LineSplits(s, a, blank)
  {
    OpenLineGrows(s, a, blank, false);
    assert a + [blank] + "" == a + [blank];
    var t := RunLine(s, a);
    assert RunLine(t, "") == t;
    hide Scan;
    assert !SplitsAt(s, a, blank, "");
  }

  lemma PendingNameDiffers(s: State, a: string, blank: char)
    requires Ok(s) && NoNul(a) && IsBlank(blank)
    requires !Scan(s, a, false).open && Scan(s, a, false).declaring
    ensures !LineSplits(s, a, blank)
  {
    PendingRuns(s, a, false);
    ScanConcat(s, a, blank, "BYE", false);
    var t := Scan(s, a, false).state;
    ScanOneWord(t, "BYE", true);
    ScanOneWord(t, "BYE", false);
    hide Scan;
    assert RunLine(s, a + [blank] + "BYE").mode == Running && RunLine(t, "BYE").mode == Bye;
    assert !SplitsAt(s, a, blank, "BYE");
  }

  // ----- The same, read off the text -----

  /** Is the last word of the line a VARIABLE that still wants its name? */
  predicate WantsName(tokens: seq<Token>, declaring: bool) {
    if tokens == [] then declaring
    else match tokens[0]
      case Quote(_) => WantsName(tokens[1..], declaring)
      case Word(w) => WantsName(tokens[1..], !declaring && WordIs(w, "VARIABLE"))
  }

  lemma {:induction false} RunTokensWantsName(s: State, tokens: seq<Token>, declaring: bool)
    requires Fits(s, tokens)
    ensures var e := RunTokens(s, tokens, declaring);
            e.state.mode == Running ==> (e.declaring <==> WantsName(tokens, declaring))
    decreases |tokens|
  {
    hide ExecutePlain, WordIs;
    if s.mode == Running && tokens != [] {
      match tokens[0]
      case Quote(body) => RunTokensWantsName(PushLiteral(s, body), tokens[1..], declaring);
      case Word(w) =>
        ExecuteKeepsPool(s, w, declaring);
        var e := Execute(s, w, declaring);
        RunTokensWantsName(e.state, tokens[1..], e.declaring);
    }
  }

  /**
    When its strings fit in the pool, a line splits exactly if it ended the session, or its text neither ends inside a
    string nor with a VARIABLE that lacks its name.
   */
  lemma LinesComposeByText(s: State, a: string, blank: char)
    requires Ok(s) && NoNul(a) && IsBlank(blank) && Fits(s, Tokenize(a))
    ensures LineSplits(s, a, blank)
        <==> RunLine(s, a).mode != Running || (!EndsOpen(a) && !WantsName(Tokenize(a), false))
  {
    LinesComposeExactly(s, a, blank);
    PendingRuns(s, a, false);
    ScanRunsTokens(s, a, false);
    RunTokensWantsName(s, Tokenize(a), false);
    hide Scan, LineSplits, RunTokens, Tokenize, WantsName;
  }
}
