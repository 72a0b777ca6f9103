/** What a run of the interpreter prints, from its banner to the list of variables. */
module ForthTranscript {
  import opened Word32
  import opened Numerals
  import opened CStrings
  import opened ForthSpec
  import opened ForthScanner
  import opened ForthSession
  import opened ForthCompiler

  // ----- The dialogue -----

  /** While it waits, the interpreter has just shown its prompt; the next line adds what it prints and a new prompt. */
  lemma {:induction false} NextLine(s: State, lines: seq<string>, line: string)
    requires Ok(s) && s.mode == Running && AreLines(lines) && NoNul(line)
    ensures Session(s, []) == Say(s, "> ")
    ensures var t := Session(s, lines);
            if t.mode != Running then Session(s, lines + [line]) == t
            else
              var u := RunLine(t, line);
              Session(s, lines + [line]) == if u.mode == Running then Say(u, "> ") else u
    decreases |lines|
  {
    hide RunLine;
    if lines == [] {
      assert lines + [line] == [line];
      SayRuns(s);
    } else {
      assert (lines + [line])[0] == lines[0] && (lines + [line])[1..] == lines[1..] + [line];
      SayRuns(s);
      var u := RunLine(Say(s, "> "), lines[0]);
      if u.mode == Running {
        NextLine(u, lines[1..], line);
      }
    }
  }

  lemma SayRuns(s: State)
    requires Ok(s)
    ensures Ok(Say(s, "> ")) && Say(s, "> ").mode == s.mode
  {
  }

  // ----- The list of variables -----

  function Entry(name: string, number: string): string {
    name + " : " + number + "\n"
  }

  /** Does the text give the name and, in decimal, the value? */
  ghost predicate IsEntry(text: string, name: string, value: u32) {
    exists number :: text == Entry(name, number) && ParseNumber(number) == Number(value) && |number| <= 11
  }

  /** A line for each variable in order: its name, a number that reads back as its cell, and a newline. */
  ghost predicate IsListing(text: string, names: seq<string>, cells: seq<u32>)
    requires |names| == |cells|
    decreases |names|
  {
    if names == [] then text == ""
    else exists first: string, rest: string ::
      text == first + rest && IsEntry(first, names[0], cells[0]) && IsListing(rest, names[1..], cells[1..])
  }

  lemma ListingFirst(first: string, rest: string, names: seq<string>, cells: seq<u32>)
    requires |names| == |cells| > 0
    requires IsEntry(first, names[0], cells[0]) && IsListing(rest, names[1..], cells[1..])
    ensures IsListing(first + rest, names, cells)
  {
  }

  lemma ListingSplit(text: string, names: seq<string>, cells: seq<u32>) returns (first: string, rest: string)
    requires |names| == |cells| > 0 && IsListing(text, names, cells)
    ensures text == first + rest && IsEntry(first, names[0], cells[0]) && IsListing(rest, names[1..], cells[1..])
  {
    hide IsEntry;
    first, rest :|
      text == first + rest && IsEntry(first, names[0], cells[0]) && IsListing(rest, names[1..], cells[1..]);
  }

  lemma ListingEnds()
    ensures IsListing("", [], [])
  {
  }

  lemma {:induction false} ListingSnoc(text: string, names: seq<string>, cells: seq<u32>,
                                       line: string, name: string, value: u32)
    requires |names| == |cells| && IsListing(text, names, cells) && IsEntry(line, name, value)
    ensures IsListing(text + line, names + [name], cells + [value])
    decreases |names|
  {
    hide IsEntry;
    var more, values := names + [name], cells + [value];
    if names == [] {
      assert more[1..] == [] && values[1..] == [] && more[0] == name && values[0] == value;
      assert text + line == line + "";
      ListingEnds();
      hide IsListing;
      ListingFirst(line, "", more, values);
    } else {
      var first, rest := ListingSplit(text, names, cells);
      hide IsListing;
      ListingSnoc(rest, names[1..], cells[1..], line, name, value);
      assert more[1..] == names[1..] + [name] && values[1..] == cells[1..] + [value];
      assert text + line == first + (rest + line);
      ListingFirst(first, rest + line, more, values);
    }
  }

  lemma LineIsEntry(name: string, value: u32)
    ensures IsEntry(VariableLine(name, value), name, value)
  {
    DecimalRoundTrip(value);
    hide ParseNumber, Signed, SignedText;
    assert VariableLine(name, value) == Entry(name, SignedText(Signed(value)));
  }

  lemma CheckoutLast(names: seq<string>, cells: seq<u32>)
    requires |names| == |cells| > 0
    ensures var n := |names| - 1;
            Checkout(names, cells) == Checkout(names[..n], cells[..n]) + VariableLine(names[n], cells[n])
  {
    hide VariableLine;
  }

  lemma ListingLast(text: string, names: seq<string>, cells: seq<u32>, line: string)
    requires |names| == |cells| > 0
    requires var n := |names| - 1;
             IsListing(text, names[..n], cells[..n]) && IsEntry(line, names[n], cells[n])
    ensures IsListing(text + line, names, cells)
  {
    hide IsEntry, IsListing;
    var n := |names| - 1;
    ListingSnoc(text, names[..n], cells[..n], line, names[n], cells[n]);
    assert names[..n] + [names[n]] == names && cells[..n] + [cells[n]] == cells;
  }

  lemma {:induction false} CheckoutIsListing(names: seq<string>, cells: seq<u32>)
    requires |names| == |cells|
    ensures IsListing(Checkout(names, cells), names, cells)
    decreases |names|
  {
    if names == [] {
      ListingEnds();
    } else {
      var n := |names| - 1;
      CheckoutIsListing(names[..n], cells[..n]);
      hide *;
      CheckoutLast(names, cells);
      LineIsEntry(names[n], cells[n]);
      ListingLast(Checkout(names[..n], cells[..n]), names, cells, VariableLine(names[n], cells[n]));
    }
  }

  // ----- A whole run -----

  ghost predicate EndsWith(text: string, end: string) {
    |end| <= |text| && text[|text| - |end|..] == end
  }

  /** A session still running waits at a prompt. */
  lemma {:induction false} RunningEndsAtPrompt(s: State, lines: seq<string>)
    requires Ok(s) && AreLines(lines)
    ensures Session(s, lines).mode == Running ==> EndsWith(Session(s, lines).out, "> ")
    decreases |lines|
  {
    hide RunLine;
    if s.mode == Running && lines != [] {
      SayRuns(s);
      RunningEndsAtPrompt(RunLine(Say(s, "> "), lines[0]), lines[1..]);
    }
  }

  /**
    Every run prints its banner and first prompt. Still running, it ends at a prompt; ended by BYE, it prints the
    heading and the list of all variables with their values after the dialogue; trapped, it prints nothing more.
   */
  lemma WholeRunPrints(s: State, lines: seq<string>)
    requires Ok(s) && s.mode == Running && AreLines(lines)
    ensures var t, u := WholeRun(s, lines), Session(Say(s, "FORTH INTERPRETER\n"), lines);
            && t == u.(out := t.out)
            && s.out + "FORTH INTERPRETER\n> " <= u.out <= t.out
            && (t.mode == Running ==> EndsWith(t.out, "> "))
            && (t.mode != Bye ==> t.out == u.out)
            && (t.mode == Bye ==>
                 |t.names| == |t.cells| && exists list ::
                   t.out == u.out + "== Variable Checkout ==\n" + list && IsListing(list, t.names, t.cells))
  {
    hide RunLine, IsListing, Checkout;
    var s0 := Say(s, "FORTH INTERPRETER\n");
    var u := Session(s0, lines);
    RunningEndsAtPrompt(s0, lines);
    FirstPrompt(s0, lines);
    assert s.out + "FORTH INTERPRETER\n> " == s0.out + "> ";
    CheckoutIsListing(u.names, u.cells);
    hide Session;
    assert u.out + ("== Variable Checkout ==\n" + Checkout(u.names, u.cells))
        == u.out + "== Variable Checkout ==\n" + Checkout(u.names, u.cells);
  }

  lemma FirstPrompt(s: State, lines: seq<string>)
    requires Ok(s) && s.mode == Running && AreLines(lines)
    ensures s.out + "> " <= Session(s, lines).out
  {
    if lines != [] {
      SayRuns(s);
      ScanExtends(Say(s, "> "), lines[0], false);
      SessionExtends(RunLine(Say(s, "> "), lines[0]), lines[1..]);
      hide Scan, Session;
    }
  }

  lemma ByeSession(s: State, w: string)
    requires Ok(s) && s.mode == Running && Spells(w, "BYE")
    ensures IsWord(w) && AreLines([w])
    ensures Session(s, [w]) == Say(s, "> ").(mode := Bye)
  {
    SpelledIsWord(w, "BYE");
    SayRuns(s);
    ByeStops(Say(s, "> "), w);
    assert [w][1..] == [];
    hide RunLine, Spells;
  }

  /** BYE at the first prompt, in either case: the banner, the prompt, the heading and the list. */
  lemma ByePrintsList(s: State, w: string)
    requires Ok(s) && s.mode == Running && Spells(w, "BYE")
    ensures AreLines([w]) && |s.names| == |s.cells|
    ensures exists list ::
              && WholeRun(s, [w]).out == s.out + "FORTH INTERPRETER\n" + "> " + ("== Variable Checkout ==\n" + list)
              && IsListing(list, s.names, s.cells)
  {
    ByeSession(Say(s, "FORTH INTERPRETER\n"), w);
    CheckoutIsListing(s.names, s.cells);
    hide Session, IsListing, Checkout, Spells;
  }
}
