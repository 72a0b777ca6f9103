# A verified model of the Forth operating system

This project models, in Dafny, the three parts of the system that carry its behaviour, and proves what they
promise: the Forth interpreter that runs in user mode, the text console with the keyboard line path, and the
printf engines and page tables of the kernel.

Code that updates globals in place is a class whose methods and loops follow the C code. Each method is proved
against a function on values, and the theorems are about those functions.

- **Forth.** `ForthSpec` says what each word does to the interpreter's globals; `ForthMachine.Interpreter` is the
  interpreter on its arrays, pointers and buffers. `ForthScanner` shows that the in-place scanner runs the tokens of
  a line, and exactly when lines compose. `ForthCompiler` compiles expressions and assignments to interpreter text and
  proves that the text does what they mean, down to the characters. `ForthCalculator` holds that text against plain
  integer arithmetic, and says when each message comes. `ForthSession` holds for whole sessions: literals and names
  live forever, and a fetch reads the last store; `ForthTranscript` says what a run prints. `Word32`, `Numerals` and
  `CStrings` are the C arithmetic, positional numerals and NUL-terminated strings underneath.
- **Console and keyboard.** `Screen` is the VGA text screen and its cursor registers. `Scrollback` is an unbounded
  terminal of which the screen is a window, and `Console` has `console_write` and `print_line`. `Keyboard` is the
  scancode decoder and the ring, with the reader's steps interleaved with interrupts; `KeyboardDriver` is the driver's
  globals. `LineEditor` and `LineInput` are the editing loop, on values and as it runs. `LineTransport` is the path
  through SYS_READ and `read_line` to a user buffer, and SYS_WRITE. `ForthTerminal` joins the two ends: the lines the
  interpreter runs are cut from the stream of accepted keys, and what it prints is on the screen.
- **Formatters and paging.** `Format` gives the texts the two printf engines stand for, `FormatMeaning` what each
  directive prints, and `FormatAgreement` exactly when the two agree; `FormatMachine` has both engines writing byte by
  byte, and the serial port's two passes. `Paging` relates the two-level tables to a flat page map, and `user_range_ok`
  to plain containment.

Conventions. A character is a Dafny `char`; only the 256 codes of a C `char` occur. A C string is either a buffer with
its terminator (`CStrings.Text` is what comes before it) or, where the code only reads it, the characters before the
NUL. The stack effects are those of section 6.1 of Forth 2012, with variable indices as addresses. The bounded printf
follows sections 7.21.6.5 and 7.21.6.12 of ISO/IEC 9899:2011. The page walk follows sections 4.3 and 4.6 of the Intel
SDM, volume 3A. `printf` arguments are the successive words of the stack, and a string argument is the text at its
address. Input arrives as bursts of scancodes placed anywhere between the reader's steps.

`INT_MIN / -1` has no result in C (section 6.5.5 of ISO/IEC 9899:2011); on this machine it raises the divide
exception, which ends the program, so it is the mode `Trapped`.

## Model

| member | source | states |
|---|---|---|
| Word32.TruncDivRemainder | user/forth.c:225 | `/` truncates: the remainder is smaller than the divisor and has the dividend's sign |
| Word32.QuotientOverflow | user/forth.c:225 | the quotient of two cells fits an int except for INT_MIN / -1, and only then |
| Numerals.NumeralRoundTrip | user/ulib.c:87-97 | the printed digits read back as the number, with no leading zero, in base 10 and 16 |
| Numerals.NumeralWidth | user/ulib.c:68 | a 32-bit number needs at most ten decimal digits, so the 12-byte buffer suffices |
| Numerals.SignedTextInjective | user/ulib.c:66-98 | different values never print alike |
| Numerals.HexDigits | kernel/utilities/format.c:42-51 | each of the sixteen digits is the right character in the case asked for, reads back in either, and no other character has a value |
| Numerals.NumeralCase | kernel/utilities/format.c:40-54 | a numeral has letters of its own case only |
| Numerals.FillDigits | kernel/utilities/format.c:40-54 | the digit loop leaves the digits of the number, reversed, in the buffer |
| ForthCompiler.DecimalRoundTrip | user/forth.c:76-105 | for every cell, 0x80000000 included, `parse_number` of what `print_int` prints is the cell, in at most 11 characters |
| ForthCompiler.NumberSyntax | user/forth.c:76-105 | the words that are numbers are exactly digits with or without a minus, of any length, and their value is taken modulo 2^32 |
| ForthMachine.ReadDigits | user/forth.c:92-101 | the loop accepts exactly the digit strings, of any length, and yields the value modulo 2^32 |
| ForthMachine.ReadNumber | user/forth.c:76-105 | accepts exactly an optional minus and at least one digit, with the signed value modulo 2^32 |
| ForthMachine.Strcmp | user/ulib.c:15-24 | the difference of the first bytes that differ |
| ForthMachine.CompareIsZeroOnEqual | user/ulib.c:15-24 | `strcmp` is zero exactly on equal strings |
| ForthMachine.MatchesBuiltin | user/forth.c:28-37 | for a name in capitals, holds exactly for its letters, each as it is or 32 codes above |
| ForthSpec.NamesInEitherCase | user/forth.c:18-37 | a built-in name matches letter by letter in either case, and nothing else |
| ForthMachine.Interpreter.constructor | user/forth.c:9-16 | the initial globals: everything empty, running |
| ForthMachine.Interpreter.Push | user/forth.c:39-49 | refines the stack push with its overflow message |
| ForthMachine.Interpreter.Pop | user/forth.c:51-61 | refines the stack pop with its underflow message |
| ForthMachine.Interpreter.PopBoth | user/forth.c:200-203 | two pops in order, the first one lost if the second fails |
| ForthMachine.Interpreter.FindVar | user/forth.c:63-74 | the first variable of that name, or -1, comparing terminated rows |
| ForthMachine.Interpreter.CopyName | user/forth.c:115-123 | the row ends up NUL-terminated within 32 bytes and holds the cut name; no other row changes |
| ForthMachine.Interpreter.DeclareVariable | user/forth.c:107-126 | a zero cell under a new name, or the message when 64 exist |
| ForthMachine.Interpreter.PrintInt | user/ulib.c:66-98 | sends the signed decimal text of any int, in bounds of its buffer |
| ForthMachine.Interpreter.PrintTop | user/forth.c:128-137 | pops and prints with a newline |
| ForthMachine.Interpreter.TypeString | user/forth.c:139-156 | prints pool bytes, refusing any range outside the used pool |
| ForthMachine.Interpreter.Fetch | user/forth.c:158-174 | refines `@`, refusing undeclared addresses |
| ForthMachine.Interpreter.Store | user/forth.c:176-193 | refines `!`, refusing undeclared addresses |
| ForthMachine.Interpreter.Binary | user/forth.c:195-227 | refines + - * / with wraparound, the zero message and the trap |
| ForthMachine.Interpreter.CopyToPool | user/forth.c:236-246 | the copying loop of `read_string`, full pool included |
| ForthMachine.Interpreter.ReadString | user/forth.c:229-256 | refines the literal reader: pool, two pushes and the place the scanner goes on from |
| ForthMachine.Interpreter.CopyWord | user/forth.c:341-353 | the word up to the next blank, cut to 31 characters, terminated in its buffer |
| ForthMachine.Interpreter.Execute | user/forth.c:258-315 | refines the dispatcher in its order of precedence |
| ForthMachine.Interpreter.RunLine | user/forth.c:317-356 | the pointer-advancing loop, on any terminated line, ends in the state of the scanner on values |
| ForthMachine.Interpreter.Repl | user/forth.c:358-382 | a run of `main`: banner, prompts, every line, and the variable list after BYE only |
| ForthMachine.Interpreter.PrintCheckout | user/forth.c:371-379 | every variable in order of declaration with its signed value |
| ForthSpec.ScanOk | user/forth.c:39-256 | every line keeps at most 256 stack cells, 64 variables with terminated names, and 4096 pool bytes |
| ForthScanner.CopyExact | user/forth.c:236-246 | a literal adds its longest part that fits, and the message appears exactly when something did not |
| ForthScanner.ScanRunsTokens | user/forth.c:229-256 | when its strings fit in the pool, scanning a line is running its quoted strings and cut words in turn until BYE |
| ForthScanner.ScanConcat | user/forth.c:317-356 | `a`, a blank and `b` act as `a` then `b`, unless `a` ends inside a string; a full pool included |
| ForthScanner.LinesCompose | user/forth.c:317-356 | then one line is two lines, unless `a` ends inside a string or waiting for a name |
| ForthScanner.LinesComposeExactly | user/forth.c:317-356 | and only then: for every state and line, everything after `a` may go on a line of its own if and only if `a` ends in neither way |
| ForthScanner.LinesComposeByText | user/forth.c:317-356 | the same condition read off the text of a line whose strings fit: it ended the session, or neither its last quote is open nor its last word a VARIABLE without a name |
| ForthScanner.VariableTakesNextWord | user/forth.c:107-126 | VARIABLE in either case adds the next word of its line with a zero cell, or complains at 64, and does nothing at the end of a line |
| ForthScanner.ByeStops | user/forth.c:276-279 | a word ends the session if and only if it spells BYE in either case, and then it does nothing else |
| ForthScanner.LongWordsAreCut | user/forth.c:341-353 | a longer word acts as its first 31 characters |
| ForthCompiler.ExecuteLiteral | user/forth.c:305-308 | printed numbers reach the number arm: no other arm of the dispatcher takes them |
| ForthCompiler.ExpressionsCompile | user/forth.c:258-356 | the postfix text of any expression tree over literals and variables pushes exactly its value and changes nothing else, given room for its peak, no shadowed literal and no division without a value |
| ForthCompiler.AssignmentsCompile | user/forth.c:258-356 | the text of an assignment updates the named cell and changes nothing else |
| ForthCompiler.ProgramsCompile | user/forth.c:317-356 | a line of assignments leaves the cells that running them in order gives |
| ForthCompiler.ExpressionsPrint | user/forth.c:128-137 | an expression and `.` print the decimal text of its value |
| ForthCompiler.QueryPrintsCell | user/forth.c:292-296 | `name ?` prints the variable's value |
| ForthCompiler.LiteralTypes | user/forth.c:229-256 | a literal and TYPE in either case print the literal and leave the stack as it was |
| ForthCalculator.SumLaws | user/forth.c:209-212 | + and - undo each other, and give the sum and difference of the ints wherever those are ints |
| ForthCalculator.ProductLaws | user/forth.c:213-214 | * is + repeated |
| ForthCalculator.QuotientLaws | user/forth.c:215-226 | / leaves a remainder smaller than the divisor with the first operand's sign, refuses exactly 0, and traps exactly on INT_MIN / -1 |
| ForthCalculator.ApplyCalculates | user/forth.c:205-226 | an operation on cells is that on the unbounded integers they stand for, modulo 2^32 |
| ForthCalculator.ExpressionsPrintMeaning | user/forth.c:195-227 | the text of any expression tree and `.` print what it is in unbounded integers, reduced to an int |
| ForthCalculator.SpacedPerforms | user/forth.c:317-356 | words separated by blanks or tabs run one after another |
| ForthCalculator.CalculatorLine | user/forth.c:195-227 | `x y - .` prints x - y, and so on for the four symbols, wherever the result is an int |
| ForthCalculator.StoredIsPrinted | user/forth.c:158-193 | `x name !` and then `name @ .` print x |
| ForthCalculator.UnknownWordIsReported | user/forth.c:309-314 | a word that is not built in, declared or a number is repeated in the message |
| ForthCalculator.UnderflowIsReported | user/forth.c:51-61 | `.`, `@` and `?` on an empty stack give the message, `?` twice |
| ForthCalculator.OneOperandIsLost | user/forth.c:181-203 | the words that take two operands give it on one and lose that one |
| ForthCalculator.OverflowIsReported | user/forth.c:39-49 | numbers and variables are pushed up to 256 cells and refused beyond |
| ForthCalculator.BadAddressesAreReported | user/forth.c:158-193 | `@` and `!` refuse every address that is not declared |
| ForthCalculator.BadStringsAreReported | user/forth.c:139-156 | TYPE refuses every range that passes the end of the pool |
| ForthCalculator.BadDivisorsAreReported | user/forth.c:215-226 | `/` gives its message for 0 and traps on INT_MIN / -1, the operands gone |
| ForthSession.SessionExtends | user/forth.c:358-369 | over any session the invariant holds, and names, pool and output only grow |
| ForthSession.DeclaredNameIsFound | user/forth.c:107-126 | a declared name is found at a fresh zero cell, or where it already was |
| ForthSession.NamesAreStable | user/forth.c:63-74 | a declared name keeps its address for good, redeclared or not |
| ForthSession.LiteralsLiveForever | user/forth.c:139-156 | the two cells of a literal are accepted by TYPE in every later state and print the bytes read |
| ForthSession.LineStoresExplain | user/forth.c:176-193 | every cell after a line is the last value stored in it, or what it was, or 0 if new |
| ForthSession.SessionStoresExplain | user/forth.c:158-193 | the same over a session |
| ForthSession.FetchReadsLastStore | user/forth.c:158-174 | after any session `@` gives the last value stored, 0 if none since the declaration |
| ForthTranscript.NextLine | user/forth.c:364-369 | the prompt comes before every line, and each line adds to the session what it prints and the next prompt |
| ForthTranscript.CheckoutIsListing | user/forth.c:373-379 | the list has a line for each variable in order: its name, ` : ` and a number that reads back as its cell |
| ForthTranscript.WholeRunPrints | user/forth.c:358-382 | a run prints banner and prompt first, ends at a prompt while running, with heading and list after BYE, and with neither when trapped |
| ForthTranscript.ByePrintsList | user/forth.c:358-382 | BYE as the first line, in either case, gives banner, prompt, heading and list |
| Screen.Vga.UpdateCursor | kernel/drivers/vga.c:122-130 | the two cursor registers hold the linear position |
| Screen.Vga.GetCursorPosition | kernel/drivers/vga.c:132-140 | reads that position back |
| Screen.Vga.PutChar | kernel/drivers/vga.c:19-24 | one cell inside the buffer changes, and the cursor goes there |
| Screen.Vga.Scroll | kernel/drivers/vga.c:87-102 | the nested loops move every row up one and blank the last |
| Screen.Vga.CleanScreen | kernel/drivers/vga.c:26-37 | every cell is blank and the cursor is on the last one |
| Screen.ColorNibbles | kernel/drivers/vga.c:9-12 | the low four bits of an attribute are the foreground, the high four the background |
| Scrollback.FromView | kernel/utilities/iolayer.c:19-20 | every screen, line and column is the window of some terminal, so what holds of windows holds of screens |
| Scrollback.WindowTyped | kernel/utilities/iolayer.c:85-92 | writing a character, wrap and scroll included, is one more character on the unbounded terminal |
| Scrollback.WindowNextRow | kernel/utilities/iolayer.c:74-83 | a newline is the next row of the terminal |
| Scrollback.WindowErased | kernel/drivers/ps2kbd.c:150-163 | stepping back, across rows too, erases the terminal's last cell |
| Console.ScreenIsWindow | kernel/utilities/iolayer.c:104-143 | for every byte sequence the screen is the last 25 rows of the terminal, with the cursor at the matching place |
| Console.HistoryIsFrozen | kernel/utilities/iolayer.c:104-143 | rows above the cursor's never change again |
| Console.PlainTextIsLaid | kernel/utilities/iolayer.c:136-137 | plain text lies cell by cell from the cursor on, and nothing else changes |
| Console.EchoIsWhite | kernel/utilities/iolayer.c:104-143 | `console_write` draws in attribute 15, white on black, only |
| Console.ControlsGoBack | kernel/utilities/iolayer.c:113-134 | \b takes back the character before it but stops at column 0, and after \r the row is written over |
| Console.EchoConcat | kernel/utilities/iolayer.c:104-143 | two writes are one write of both texts |
| Console.GranularityIsInvisible | user/ulib.c:51-98 | however output is cut into writes, the screen is that of one write |
| Console.TagForms | kernel/utilities/iolayer.c:39-72 | the characters next to the first comma, or else the first two, are background and foreground; a missing one is black or white |
| Console.StyledByTags | kernel/utilities/iolayer.c:159-181 | text keeps its colour up to a tag, a closed tag sets it, an unclosed one hides the rest |
| Console.StyledCellsAreLaid | kernel/utilities/iolayer.c:184-190 | every visible cell lies on the terminal in its own colour, from the cursor on |
| Console.CursorOnLast | kernel/utilities/iolayer.c:184-190 | `print_line` leaves the hardware cursor on the last character it drew |
| Console.PrintLineShowsText | kernel/utilities/iolayer.c:145-196 | `print_line` shows what `console_write` shows for the message without tags, on lines of its own, if no \r or \b is visible |
| Console.ParseColorTag | kernel/utilities/iolayer.c:39-72 | the loop finds the first comma, and the colour is that of the tag |
| Console.Console.Write | kernel/utilities/iolayer.c:104-143 | the loop folds the bytes, and the hardware cursor ends where the console left off, which is where an input line starts |
| Console.Console.PrintMessage | kernel/utilities/iolayer.c:145-196 | the tag state machine draws the styled message, and the hardware cursor stays on its last character |
| Keyboard.DecoderTracksShift | kernel/drivers/ps2kbd.c:69-106 | shift is on exactly if the last shift event outside extended scancodes was a press |
| Keyboard.KeyTypes | kernel/drivers/ps2kbd.c:69-106 | after any codes, a key types its character in the table the last shift event chose; releases, shifts and extended codes type nothing |
| Keyboard.PutWaiting | kernel/drivers/ps2kbd.c:48-56 | a character is dropped exactly when 255 are waiting, and otherwise goes last |
| Keyboard.TakeFrontWaiting | kernel/drivers/ps2kbd.c:64-65 | advancing removes the oldest character |
| Keyboard.NextConsistent | kernel/drivers/ps2kbd.c:48-67 | every single step of reader or interrupt keeps accepted = delivered ++ waiting |
| Keyboard.DeliveredIsPrefix | kernel/drivers/ps2kbd.c:58-67 | under every interleaving, delivery is a prefix of acceptance, in order and once, at most 255 behind |
| Keyboard.AllAcceptedIffNoneDropped | kernel/drivers/ps2kbd.c:48-67 | under every interleaving, everything typed is accepted if and only if no interrupt with a character finds the ring full |
| Keyboard.NothingDropped | kernel/drivers/ps2kbd.c:48-56 | none does while what is waiting and what is typed number fewer than 256 characters |
| Keyboard.HandleAllKeepsFront | kernel/drivers/ps2kbd.c:64 | interrupts never overwrite a waiting character |
| Keyboard.PolledDelivers | kernel/drivers/ps2kbd.c:58-67 | a call returns 0 exactly when it found the ring empty, else the character it delivers |
| Keyboard.PolledIsRun | kernel/drivers/ps2kbd.c:58-67 | a call with interrupts between its steps is one of those interleavings |
| KeyboardDriver.Driver.BufferPush | kernel/drivers/ps2kbd.c:48-56 | refines the ring push in place |
| KeyboardDriver.Driver.ScancodeToAscii | kernel/drivers/ps2kbd.c:69-106 | refines the decoder |
| KeyboardDriver.Driver.KeyboardHandler | kernel/drivers/ps2kbd.c:108-119 | refines the interrupt handler, NUL never pushed |
| KeyboardDriver.Driver.Getc | kernel/drivers/ps2kbd.c:58-67 | refines the reader with interrupts between any two of its steps |
| LineEditor.TextIsTyped | kernel/drivers/ps2kbd.c:121-186 | the buffer is the fold of append and delete-last over the keys, and a line ends at Enter or when full |
| LineEditor.BackspaceUndoes | kernel/drivers/ps2kbd.c:148-166 | a backspace takes back the key before it anywhere in a line and does nothing at the start of one |
| LineEditor.FinishedIgnoresMore | kernel/drivers/ps2kbd.c:121-186 | once the line has ended, further keys change nothing and are left over, all of them |
| LineEditor.EditorIsWindow | kernel/drivers/ps2kbd.c:121-186 | the editor's screen is the window of a terminal edited with the same keys, for every start and buffer size |
| LineEditor.LineAndScreenAgree | kernel/drivers/ps2kbd.c:148-182 | after any keys the screen shows exactly the buffer from the start of the input, up by the lines scrolled, and the cursor just after it |
| LineEditor.WhenStartStays | kernel/drivers/ps2kbd.c:153-161 | the start never scrolls off exactly if its column plus the longest line is below 2000; a buffer of 1921 always is |
| LineInput.KbdGets | kernel/drivers/ps2kbd.c:121-186 | the loop on ring, buffer, screen and cursor ends in the editor's state on the keys delivered |
| LineInput.InputGet | kernel/utilities/iolayer.c:198-213 | the line starts at the hardware cursor, and the console's column is reset afterwards |
| LineTransport.Kernel.SysWrite | kernel/arch/x86/syscall.c:39-53 | the bytes of an accepted range are echoed, cursor included; a refused one changes nothing |
| LineTransport.Kernel.SysRead | kernel/arch/x86/syscall.c:54-92 | the line and a newline land in the accepted range, no other byte changes, the count says how many, and the console goes on where the edit ended |
| LineTransport.Kernel.ReadLine | user/ulib.c:100-122 | the user buffer holds the line as a C string, no other byte changes, and the clamp is never taken |
| LineTransport.ReadTextFits | kernel/arch/x86/syscall.c:66-79 | the line has at most min(len, 256) - 1 characters and no NUL |
| LineTransport.DeliveredIsAccepted | kernel/drivers/ps2kbd.c:58-67 | whatever was waiting before a read: waiting then accepted is delivered then still waiting, so nothing is lost between reads |
| LineTransport.LineIsWhatWasAccepted | kernel/drivers/ps2kbd.c:48-186 | for every scancode stream and type-ahead, the line a read leaves is the edit of all that was waiting and accepted, up to its first Enter or the full buffer, and the rest stays in the ring |
| LineTransport.AcceptedIsTyped | kernel/drivers/ps2kbd.c:48-119 | that is everything typed if and only if no interrupt with a character finds the ring full |
| LineTransport.ShortTypingIsAccepted | kernel/drivers/ps2kbd.c:48-119 | as when fewer than 256 characters are waiting or typed |
| ForthTerminal.EditIgnoresScreen | kernel/drivers/ps2kbd.c:121-186 | the line, the keys left over and the end of an edit do not depend on the screen |
| ForthTerminal.EnterEndsLine | kernel/drivers/ps2kbd.c:121-186 | keys that fit the buffer and an Enter are the line they edit to, and the rest of the stream is cut the same way |
| ForthTerminal.LinesReadAt | user/ulib.c:100-122 | each line read is the edit of what that read got, after the reads before it |
| ForthTerminal.ReadsCutTheStream | kernel/drivers/ps2kbd.c:48-186 | over any sequence of reads, the lines read and those still to come from the ring are the lines of the one stream waiting and accepted |
| ForthTerminal.ReadLeavesLine | user/ulib.c:100-122 | the line `read_line` leaves is the one of that stream, wherever the cursor was |
| ForthTerminal.RunsWhatWasAccepted | user/forth.c:358-382 | the lines read always fit the interpreter's buffer, and a run of `main` on them is its run on the first lines of the stream |
| ForthTerminal.OutputShows | user/ulib.c:51-98 | what a line prints, in any pieces, takes the screen of the old output to that of the new |
| ForthTerminal.TypedExpressionShows | user/forth.c:358-369 | scancodes whose edit is an expression and `.` put what it is in integers at the start of the row where Enter left the cursor, in however many writes, at any typing pace |
| Format.EnginesAgree | kernel/utilities/format.c:73-160 | both engines stand for the same text on formats with no `%p` and no width |
| FormatAgreement.EnginesAgreeExactly | kernel/utilities/iolayer.c:288-380 | and on no other: a format has the same text in both for all arguments if and only if no directive is `%p` or starts with a digit, and one argument list decides it |
| Format.FieldsKeepValue | kernel/utilities/iolayer.c:275-286 | a number fills its field exactly unless it needs more, and zero padding keeps its value and sign |
| FormatMeaning.DirectiveMeans | kernel/utilities/format.c:94-150 | each directive prints its argument in its base and case, and exactly those that take an argument use one up |
| FormatMeaning.PlainIsCopied | kernel/utilities/format.c:82-93 | other text is copied, and a `%` at the end is dropped |
| FormatMeaning.FieldMeans | kernel/utilities/iolayer.c:302-372 | a field of any width, with or without the zero flag, right-aligns its number with blanks or zeros after the sign; `%p` is `0x` and eight digits |
| FormatMeaning.UnfinishedField | kernel/utilities/iolayer.c:317-320 | a field cut off by the end of the format prints nothing |
| FormatMachine.Vsnprintf | kernel/utilities/format.c:73-160 | returns the untruncated length whatever the buffer, and stores the first min(len, size-1) bytes and a NUL, nothing if size is 0 |
| FormatMachine.PrintedContract | kernel/utilities/format.c:12-19 | that is: a prefix of the text, the NUL, and every other byte as it was |
| FormatMachine.Sink.PutUint | kernel/utilities/format.c:29-60 | sends the numeral of the value |
| FormatMachine.Sink.PutInt | kernel/utilities/format.c:62-71 | sends the signed decimal text, INT_MIN included |
| FormatMachine.Sink.PutDirective | kernel/utilities/format.c:94-150 | refines the directive switch and its argument use |
| FormatMachine.SerialPrint | kernel/drivers/serial.c:52-69 | measuring then printing never truncates: the port gets the whole text up to its first NUL |
| FormatMachine.ReturnsBeforeNewlines | kernel/drivers/serial.c:35-50 | every newline sent has a carriage return before it, and without those the text is as it was |
| FormatMachine.FormatString | kernel/utilities/iolayer.c:288-380 | stores and counts exactly the part of its text that fits |
| FormatMachine.Out.PutInt | kernel/utilities/iolayer.c:275-286 | refines the signed field |
| FormatMachine.ReadWidth | kernel/utilities/iolayer.c:311-315 | the loop reads the value of all the digits |
| FormatMachine.BoundedEngineKeepsPrefix | kernel/utilities/iolayer.c:215-221 | on common formats it keeps the first min(len, max-1) bytes of the other engine's text |
| Paging.EntryParts | kernel/arch/x86/paging.c:48 | flags do not disturb the frame of an entry, nor the frame its flags |
| Paging.InitialWords | kernel/arch/x86/paging.c:29-58 | the exact words in all four tables and the directory after `paging_init` |
| Paging.InitialWalk | kernel/arch/x86/paging.c:29-58 | every address below 16 MB is then itself and writable, user-accessible exactly from 8 MB to 12 MB |
| Paging.WalkReadsEntry | kernel/arch/x86/paging.c:29-58 | a walk depends on one entry and its table's rights, and nothing at or above 16 MB is present |
| Paging.WalkRefinesFlatMap | kernel/arch/x86/paging.c:70-83 | after `paging_init` and any mappings, a walk gives the last frame mapped to the page, else the identity |
| Paging.UserStaysInRegion | kernel/arch/x86/paging.c:39-54 | a user-mode walk succeeds only in [8 MB, 12 MB), whatever flags were passed |
| Paging.RangeOkIsContainment | kernel/arch/x86/syscall.c:14-27 | a range is accepted exactly if it lies in the user region, with no wraparound |
| Paging.AcceptedRangeIsWritable | kernel/arch/x86/syscall.c:14-27 | after any mappings, a byte of an accepted range is user-writable if and only if its page was never mapped, or last with the user and write flags |
| Paging.PageTables.Init | kernel/arch/x86/paging.c:29-58 | the nested loops fill the directory and the four tables |
| Paging.PageTables.MapPage | kernel/arch/x86/paging.c:70-83 | one entry changes, or none and -1 beyond 16 MB |

## Left out

- Port I/O, `hlt`, `invlpg`, control registers and the assembly files; ports are the cursor registers and the incoming scancodes.
- The busy wait of `kbd_gets`: an empty ring is a reader call that returns 0, and waiting for ever is `done == false`.
- Compiler reordering and weak memory in the ring: program order, with the handler atomic as its gate makes it.
- The clock the timer draws over row 0, and any other writer to the screen.
- SYS_EXIT, SYS_CLEAN with `set_line`, `vga_put_chars`, `print_fmt` and prompts of `input_get`: compositions of modelled parts.
- The packing of a character and a colour into 16 bits by `vga_entry`: a cell is the pair.
- The contents of the keyboard layouts: any two tables of 128 characters; the layout pointer is never null.
- Where the interpreter's buffers lie in user memory: its output is the text it sends, its input the lines it reads.
- Lengths and directive widths beyond 2^31 in the formatters.
- Supervisor rights, accessed and dirty bits, and the translation cache in the page walk; memory outside the four tables reads as not present.
- The page fault and exception handlers, descriptor tables, interrupt controller, timer, clock, speaker, disk, splash screen and serial set-up.
