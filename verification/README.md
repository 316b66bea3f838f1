# Verified model of hterm's terminal core

hterm is a terminal emulator in JavaScript. Under its DOM calls there are lists, cursors, counters and a
resumable parser. This project models that logic in Dafny, in the form the program has (classes whose
methods update fields, loops over rows and nodes), and proves each method against a simpler account of
what it is for.

| file | models | proved against |
|---|---|---|
| `Common.dfy` | an option type, a minimum | |
| `VtAutomaton.dfy`, `VtTheory.dfy`, `Vt.dfy` | `hterm.VT`: parse state, parse functions, `interpret` | an automaton that takes one code unit at a time |
| `VtSequences.dfy` | the sequences that `hterm.VT` knows, as they are written | what the automaton delivers for each |
| `TextAttributes.dfy` | `hterm.wc` widths, `hterm.TextAttributes`, the nodes of a row | |
| `Cells.dfy`, `RowEditing.dfy`, `Screen.dfy` | `hterm.Screen`: a row is a list of styled nodes, the cursor a node and an offset | one flat array of cells per row |
| `Positions.dfy` | `hterm.Screen`: columns of a line to text nodes and back | round trips |
| `Grid.dfy`, `GridTheory.dfy`, `GridRuns.dfy` | what a terminal is expected to do, on a grid of cells | laws over any input and any run |
| `TerminalRows.dfy`, `Terminal.dfy` | `hterm.Terminal`: two screens, scrollback, regions, `print`, erasing, resizing | the grid operations |
| `TerminalRuns.dfy` | any run of terminal commands, and any session with resizes and screen swaps | runs of the grid |
| `Siblings.dfy`, `ScrollPort.dfy` | `hterm.ScrollPort`: a redraw rewrites a child list around pinned rows | the target list |
| `FindBar.dfy` | `hterm.FindBar`: incremental counts, index and ordinal | a search from scratch |
| `Witnesses.dfy` | inputs for which the program falls short | |

## How the parts fit

*Interpreter.* `VtAutomaton.Feed` takes one unit; `Run` folds it. The class `Vt.Interpreter` has the
program's fields and its searches for the next control, string terminator or tmux terminator. Every parse
function keeps `Whole()`, the log so far together with what the automaton makes of the unread input, and
makes a lexicographic measure smaller. So `Interpret` ends, its error "did not alter the state" cannot
occur, and it computes the automaton's fold for every buffer. What the fold delivers is stated apart from the
automaton's steps, for control sequences, device control strings, OSCs and escapes as they are written, with
all their parameters (`VtSequences`). The automaton does not care how its input is
cut; the interpreter forgets `ESC % /` at the end of a buffer, and that is its only dependence on chunks. Tmux
mode delivers the CR LF lines of the whole stream up to the first `ESC \`.

*Rows.* `Screens.Screen` edits lists of nodes: padding, merging to the left or right, splitting, new nodes,
halves of wide glyphs, a cursor node that is emptied. `CursorLine()` flattens the cursor row to cells, and
every editing method is an array edit on it (`Insert`, `Delete`, `Clip`). `Valid()` says that the cursor
cache is right: node start plus offset is the column, and the offset passes the node's end only on the last
node. Wide glyphs are included; they live one to a span.

*Terminal.* `Terminals.Terminal` holds rows with identities and `rowIndex`. `Grid()` forgets nodes and
keeps, for every line, its identity and its cells, wide glyphs included. Every command equals a grid command,
`Valid()` says that each row element is in one place and knows its position, and the grid module proves what
the commands mean, cell by cell, and what any run of them keeps. `TerminalRuns.DoAll` carries that over to runs
of the terminal itself.

*Viewport and search.* `ScrollPorts.ScrollPort.Redraw` ends with one child list whatever the old one was;
a ghost set records every child that was removed, moved or inserted. `FindBars.FindBar` ties its counters to
the texts last searched, so changed rows may be pending in any number.

## What the program does not keep

Each of these is the exact condition under which the expected property holds.

- `insertString` with the cursor between the columns of a wide glyph puts the text at the end of the row and
  leaves the cursor cache wrong; otherwise it is exact (`Screens.Screen.InsertString`).
- `deleteChars` with the cursor beyond a wide span that the margin has emptied leaves the cursor cache wrong;
  otherwise it is exact (`Screens.Screen.DeleteChars`).
- `insertLines` with the cursor below the scroll region moves the cursor row into the region and the cursor
  loses its row (`Terminals.Terminal.InsertLines`). Its count is also clamped so that one line stays.
- `eraseToRight` tests the background alone before it cuts a line off; the result shows what spaces would
  show exactly if underline, strikethrough and tile are off as well (`GridRuns.EraseToRightShows`).
- `interpret` is independent of a cut exactly if the text in front of it does not end in `ESC % /` with the ESC
  in a state that starts an escape sequence (`VtTheory.ChunkIndependence`). A text whose last three units are
  not these can be cut off anywhere (`VtTheory.ChunkIndependentText`).
- Growing a screen, the empty alternate screen included, takes scrollback rows exactly if the scrollback has
  all the rows that are missing (`Terminals.Terminal.RealizeHeight`, `Terminals.Terminal.SetAlternateMode`).
- A redraw disturbs a selected row exactly if it lies in the window but beyond the provider's last row
  (`ScrollPorts.ScrollPort.Redraw`).
- A new search keeps the selected index of the search before. If a visible row matches, the selection is
  right exactly if that index was 0 and known, and an index too large for the first matching row makes the
  search fail before its first batch; the batches change neither (`FindBars.FindBar.StartSearch`,
  `FindBars.FindBar.SyncResults`).
- Column 0 of a line leads to no node exactly if the row starts with a span without text in it
  (`Positions.PositionRoundTrip`).
- Invisible text can be read exactly if its background is the default: its letters then get the default colour,
  which for letters is the foreground (`TextAttributes.InvisibleHides`).

Where code and comments differ the model follows the code. `hterm/js/hterm_scrollport.js:1504-1507` ends the
drawing when a row is missing, but `cacheRowNode_` (line 1628) would already have failed, so the rows of a
window are required to be fetchable. The comments at `hterm/js/hterm_terminal.js:2672` and `:2696` say that
scrolled-in rows are not filled with the current attributes; `clearCursorRow`
(`hterm/js/hterm_screen.js:266-292`) fills them, inverse colours aside.
`insertString` first tries to make missing blanks part of the new text (`hterm/js/hterm_screen.js:517-525`);
the guard asks for a background that is falsy, and every colour is a symbol or a text, so that never happens and
the model has the other two ways only.

## Model

| member | source | states |
|---|---|---|
| VtTheory.RunAppend | hterm/js/hterm_vt.js:554-569 | the automaton's result on a concatenation is that on the two parts, events included |
| VtTheory.RunPlain | hterm/js/hterm_vt.js:620-650 | text without controls is printed unit by unit, as the bulk search does |
| VtTheory.FeedKeepsWf | hterm/js/hterm_vt.js:740-948 | the saved text of a string holds no BEL and ESC only as its last unit; saved tmux text holds no full terminator; the first DCS argument is digits: kept by every unit, aborts included |
| VtTheory.RunKeepsWf | hterm/js/hterm_vt.js:740-948 | the same over every run |
| VtTheory.StringClosedByBell | hterm/js/hterm_vt.js:874-948 | a string closed by BEL delivers exactly what was saved and what stands in front of the BEL |
| VtTheory.StringClosedByTerminator | hterm/js/hterm_vt.js:874-948 | the same for ESC \ |
| VtTheory.StringAborted | hterm/js/hterm_vt.js:874-948 | a stray ESC hands all the saved text and the rest of the input to ordinary parsing, unchanged |
| VtTheory.StringKept | hterm/js/hterm_vt.js:874-948 | without a terminator, or with ESC as the last unit, the text is only saved |
| VtTheory.StringResumed | hterm/js/hterm_vt.js:874-948 | taking a saved ESC back and reading it again changes nothing |
| VtTheory.RunTmuxFree | hterm/js/hterm_vt.js:820-858 | input that completes no terminator is only saved |
| VtTheory.TmuxDelivery | hterm/js/hterm_vt.js:820-858 | one terminator: the stream is cut there wherever the chunk boundary was, and the search index leaves at least one new unit to consume |
| VtTheory.TmuxStream | hterm/js/hterm_vt.js:820-858 | the whole stream: the lines delivered are the CR LF split of everything up to the first ESC \, however much of it was saved before |
| VtTheory.LinesMean | hterm/js/hterm_vt.js:820-858 | that split: no line holds CR LF, and joined with CR LF the lines are the text |
| VtTheory.RunMeasure | hterm/js/hterm_vt.js:554-569 | saved text that grows by the whole input does not raise the rank: why replays end |
| VtTheory.ChunkIndependence | hterm/js/hterm_vt.js:554-569 | two calls equal one for every continuation if and only if the first does not end in ESC % / with the ESC read as the start of an escape sequence |
| VtTheory.CutsMeans | hterm/js/hterm_vt.js:1688-1741 | the automaton is behind ESC % / exactly if the text ends so and the state before took the ESC, aborted strings included |
| VtTheory.ChunkIndependentText | hterm/js/hterm_vt.js:554-569 | a text of three units or more that does not end in ESC % / may be cut off in any state, before any continuation |
| VtTheory.ChunkDependentText | hterm/js/hterm_vt.js:1688-1741 | in the ground state, plain text and ESC % / is a text that must not be cut off |
| VtTheory.ChunksIndependent | hterm/js/hterm_vt.js:554-569 | any list of chunks interpreted one after the other equals one call with all of it, if no cut falls so |
| VtTheory.ChunkCounterexample | hterm/js/hterm_vt.js:1688-1741 | ESC % / then G in a second call prints the G; in one call it locks UTF-8 |
| VtSequences.CsiDelivers | hterm/js/hterm_vt.js:659-731 | ESC [, markers, any parameters of digits and colons joined by semicolons, intermediates, a final: exactly these parameters in this order, this code, and the set of parameters with colons are delivered, back in the ground state; nothing exactly if there are colons and the final is not a bare `m`; no parameters and one empty parameter are the same |
| VtSequences.CsiAbandoned | hterm/js/hterm_vt.js:659-731 | a digit, colon or semicolon behind an intermediate ends the sequence and nothing is delivered |
| VtSequences.DcsDelivers | hterm/js/hterm_vt.js:740-812 | the header of a device control string delivers exactly its parameters and code; `1000p` and nothing else enters tmux mode |
| VtSequences.DcsSkipped | hterm/js/hterm_vt.js:740-812 | the text of any other device control string is skipped up to its terminator |
| VtSequences.OscDelivers | hterm/js/hterm_vt.js:1573-1611 | an OSC delivers its number and its data without the semicolon, for all digits and all data of one line; data of more lines is not delivered |
| VtSequences.OscIgnored | hterm/js/hterm_vt.js:1573-1611 | an OSC without a number delivers nothing |
| VtSequences.StringsMean | hterm/js/hterm_vt.js:1617-1887 | ESC k delivers exactly its text as a window name; PM and APC deliver nothing |
| VtSequences.EscapeDelivers | hterm/js/hterm_vt.js:1392-1408 | every unit behind ESC that introduces nothing longer is delivered as an escape of its own |
| VtSequences.LongEscapesMean | hterm/js/hterm_vt.js:1653-1791 | the escapes of three and four units: alignment test, charset designation, coding system with its lock |
| VtSequences.EscapeAgain | hterm/js/hterm_vt.js:1392-1408 | an ESC behind an ESC, or in place of a character set, starts the escape anew |
| VtSequences.EightBitForms | hterm/js/hterm_vt.js:985-995 | an 8-bit introducer is its ESC form if 8-bit controls are enabled, and nothing otherwise |
| VtSequences.EightBitControls | hterm/js/hterm_vt.js:985-995 | the same for the other 8-bit controls |
| VtSequences.ControlsMean | hterm/js/hterm_vt.js:1369-1408 | in the ground state and inside a sequence: CAN and SUB end it and print a question mark, ESC starts again, other controls are obeyed and the sequence goes on |
| VtSequences.StrayUnits | hterm/js/hterm_vt.js:659-812 | behind a subparameter controls are skipped; a unit that is no part of a sequence ends it |
| VtSequences.UnitClasses | hterm/js/hterm_vt.js:1237-1631 | digits, parameters and intermediates, finals, charset slots, line ends and one-byte controls, character by character |
| Vt.NextControl | hterm/js/hterm_vt.js:620-650 | the search finds the first control at or after the position, UTF-8 hiding the 8-bit ones |
| Vt.NextTerminator | hterm/js/hterm_vt.js:874-948 | the first ESC or BEL |
| Vt.NextTmuxStop | hterm/js/hterm_vt.js:820-858 | the first CR LF or ESC \ |
| Vt.ParseState.constructor | hterm/js/hterm_vt.js:196-206 | a parse state without input, in the ground function |
| Vt.ParseState.ResetParseFunction | hterm/js/hterm_vt.js:222-224 | back to the ground function, nothing else changed |
| Vt.ParseState.ResetBuf | hterm/js/hterm_vt.js:231-234 | a new buffer from its start |
| Vt.ParseState.ResetArguments | hterm/js/hterm_vt.js:246-251 | no arguments |
| Vt.ParseState.Reset | hterm/js/hterm_vt.js:213-217 | ground function, new buffer, no arguments; subarguments stay |
| Vt.ParseState.Advance | hterm/js/hterm_vt.js:317-319 | the unread part loses its first units |
| Vt.ParseState.ConsumeChar | hterm/js/hterm_vt.js:347-349 | the first unread unit, or nothing past the end; the position moves either way |
| Vt.Interpreter.constructor | hterm/js/hterm_vt.js:23-142 | the automaton's start state, an empty log |
| Vt.Interpreter.StartDcs | hterm/js/hterm_vt.js:1494-1500 | an empty header of a device control string |
| Vt.Interpreter.StartCsi | hterm/js/hterm_vt.js:1546-1552 | an empty control sequence |
| Vt.Interpreter.DispatchControl | hterm/js/hterm_vt.js:957-995 | a one-byte control has the automaton's effect |
| Vt.Interpreter.PrintThenControl | hterm/js/hterm_vt.js:620-650 | text and the control behind it equal as many automaton steps |
| Vt.Interpreter.RunUnknown | hterm/js/hterm_vt.js:620-650 | the bulk print and the control behind it equal that many automaton steps |
| Vt.Interpreter.StartParameter | hterm/js/hterm_vt.js:679-692 | a separator starts the next parameter, after a missing first one |
| Vt.Interpreter.AddToParameter | hterm/js/hterm_vt.js:694-706 | a digit or colon goes to the end of the last parameter, or starts the first; what the list is in the end is `VtSequences.CsiDelivers` |
| Vt.Interpreter.RunCsi | hterm/js/hterm_vt.js:659-731 | one unit of a control sequence: parameters, subparameters, modifiers, final, abort; what whole sequences deliver is `VtSequences.CsiDelivers` and `VtSequences.CsiAbandoned` |
| Vt.Interpreter.FinishCsi | hterm/js/hterm_vt.js:659-731 | arguments and subarguments are gone once a sequence ends |
| Vt.Interpreter.DispatchDcs | hterm/js/hterm_vt.js:740-812 | the header is dispatched; only `p` with the argument 1000 enters tmux mode |
| Vt.Interpreter.RunDcs | hterm/js/hterm_vt.js:740-812 | one unit of a device control string header; what whole headers deliver is `VtSequences.DcsDelivers` |
| Vt.Interpreter.RunEscape | hterm/js/hterm_vt.js:1392-1408 | one unit after ESC |
| Vt.Interpreter.RunSpace | hterm/js/hterm_vt.js:1653-1661 | one unit after ESC SP |
| Vt.Interpreter.RunHash | hterm/js/hterm_vt.js:1669-1680 | one unit after ESC # |
| Vt.Interpreter.RunCodingSystem | hterm/js/hterm_vt.js:1688-1741 | one unit after ESC %, or two for ESC % /; at the end of the buffer the second is read as missing |
| Vt.Interpreter.RunCharset | hterm/js/hterm_vt.js:1760-1791 | one unit after a designator |
| Vt.Interpreter.RunTmux | hterm/js/hterm_vt.js:820-858 | one line, or the rest of the buffer, with the future of the whole input kept |
| Vt.Interpreter.SaveTmuxLine | hterm/js/hterm_vt.js:820-858 | a buffer without a terminator is saved, the future kept |
| Vt.Interpreter.CutTmuxLine | hterm/js/hterm_vt.js:820-858 | the inner loop makes the unread text shorter and keeps the future |
| Vt.Interpreter.TakeBackEscape | hterm/js/hterm_vt.js:874-895 | a saved ESC taken back into the search buffer leaves the meaning of the input alone |
| Vt.Interpreter.KeepString | hterm/js/hterm_vt.js:910-938 | an unfinished string keeps all of the buffer |
| Vt.Interpreter.AbortString | hterm/js/hterm_vt.js:910-933 | pushing the saved text back gives the automaton's replay |
| Vt.Interpreter.CloseString | hterm/js/hterm_vt.js:939-947 | the string ends with exactly the text in front of the terminator |
| Vt.Interpreter.RunUntilStringTerminator | hterm/js/hterm_vt.js:874-948 | each outcome (ongoing, aborted, closed) leaves the future of the input as the automaton has it |
| Vt.Interpreter.RunOsc | hterm/js/hterm_vt.js:1573-1611 | an OSC is dispatched with its digits and its data, or ignored |
| Vt.Interpreter.RunWindowName | hterm/js/hterm_vt.js:1869-1887 | ESC k names the window with exactly its text |
| Vt.Interpreter.RunIgnoredString | hterm/js/hterm_vt.js:1617-1640 | PM and APC consume their text and do nothing |
| Vt.Interpreter.CallParseFunction | hterm/js/hterm_vt.js:554-569 | every call alters function, buffer or position, lowers the measure, keeps the future |
| Vt.Interpreter.Interpret | hterm/js/hterm_vt.js:554-569 | never stuck; state and log equal the automaton's fold over the buffer, whose events for every kind of sequence `VtSequences` states |
| Vt.InterpretAll | hterm/js/hterm_vt.js:554-569 | the same for calls of the program: state and log after any list of buffers are those of one buffer |
| TextAttributes.MatchingMeansSameStyle | hterm/js/hterm_text_attributes.js:313-340 | a container that matches shows what a new container would show, and is not a wide span |
| TextAttributes.MatchesOwnContainer | hterm/js/hterm_text_attributes.js:200-340 | a new container takes more of the same text exactly if it is not a wide span or a tile and has no colour of its own |
| TextAttributes.DecorationShows | hterm/js/hterm_text_attributes.js:200-300 | weight, slant, blink, lines, tile and link show as set; lines are drawn in the colour set for them |
| TextAttributes.PlainColors | hterm/js/hterm_text_attributes.js:346-402 | without inverse and invisible the colours are those set, faint text faded |
| TextAttributes.InverseSwaps | hterm/js/hterm_text_attributes.js:404-410 | inverse text has the two drawn colours of plain text swapped, defaults expanded, and nothing else changed |
| TextAttributes.InvisibleHides | hterm/js/hterm_text_attributes.js:412-415 | invisible text keeps its background, and its letters cannot be seen if and only if that is not the default background |
| TextAttributes.NarrowNode | hterm/js/hterm_text_attributes.js:476-518 | in a node of narrow glyphs columns are indices, marked ASCII or not |
| TextAttributes.SplitWidecharString | hterm/js/hterm_text_attributes.js:532-579 | the runs join to the text, each is one wide glyph or all narrow with the right width and ASCII mark, no two narrow runs are neighbours; narrow text is one run |
| Cells.LocateFrom | hterm/js/hterm_screen.js:316-373 | resuming the walk at any node that starts no later finds the same node and offset |
| Cells.LocateIsCursor | hterm/js/hterm_screen.js:316-373 | what the walk finds is a valid cursor cache for the column, and the only one inside its node |
| Cells.BlanksUnseen | hterm/js/hterm_screen.js:526-535 | blanks go into the last node exactly if they cannot be seen there, and it is not a wide span or marked as not ASCII |
| Cells.RowCellsPaired | hterm/js/hterm_screen.js:406-419 | every row shows whole glyphs: each half of a wide glyph next to the other |
| Screens.Screen.constructor | hterm/js/hterm_screen.js:50-87 | no rows, the cursor at the origin without a row |
| RowEditing.SplitAround | hterm/js/hterm_screen.js:406-419 | splitting a node around a new one is inserting its cells |
| RowEditing.EraseNodeCells | hterm/js/hterm_screen.js:663-737 | one turn of the delete loop removes exactly its columns, a half wide glyph becoming a space |
| RowEditing.EraseCursorNode | hterm/js/hterm_screen.js:663-737 | and leaves the cursor node usable as a cache |
| RowEditing.TurnKeepsOutlook | hterm/js/hterm_screen.js:663-737 | what is still to be deleted, seen as cells, is the same after every turn |
| Screens.Screen.Walk | hterm/js/hterm_screen.js:350-372 | the loop finds the spot of the walk from the first node |
| Screens.Screen.SetCursorPosition | hterm/js/hterm_screen.js:316-373 | clamped position, overflow off, cache equal to a walk from the first child, cached start or not |
| Screens.Screen.PadCursor | hterm/js/hterm_screen.js:485-546 | a cursor beyond the line: blanks up to the column in the last node or a new node, the cache right; otherwise nothing |
| Screens.Screen.AppendBlanks | hterm/js/hterm_screen.js:526-543 | blanks up to the cursor in the last node or a new one: the padded line, the cache right |
| Screens.Screen.PlaceInCursorNode | hterm/js/hterm_screen.js:548-562 | text that matches the cursor node goes into it |
| Screens.Screen.PlaceBefore | hterm/js/hterm_screen.js:568-585 | at the start of a node: merged to the left or put in front |
| Screens.Screen.AppendToPrevious | hterm/js/hterm_screen.js:569-577 | text merged into the node on the left |
| Screens.Screen.PlaceAfter | hterm/js/hterm_screen.js:587-606 | at the end of a node: merged to the right or put behind |
| Screens.Screen.PrependToNext | hterm/js/hterm_screen.js:587-596 | text merged into the node on the right |
| Screens.Screen.PlaceInside | hterm/js/hterm_screen.js:608-614 | in the middle: the node is split |
| Screens.Screen.InsertString | hterm/js/hterm_screen.js:485-614 | the cells of the row are the array insertion at the column and the cache is right, if and only if the cursor is not inside a wide glyph; no styled node is left empty |
| Screens.Screen.CursorInsideMeans | hterm/js/hterm_screen.js:608-614 | the cursor is inside a wide glyph, by node and offset, exactly if its cell is a right half |
| Screens.Screen.PastEmptySpanIsBeyond | hterm/js/hterm_screen.js:663-737 | a cursor past an emptied span is beyond the end of the line |
| Screens.Screen.SingleWidthIsEasy | hterm/js/hterm_screen.js:485-737 | in a row of single-width text the cursor is in neither of the two awkward places |
| Screens.Screen.EraseLoop | hterm/js/hterm_screen.js:663-737 | the whole loop deletes exactly the columns and never more |
| Screens.Screen.EraseCursor | hterm/js/hterm_screen.js:663-737 | the first turn, on the cursor node: what is left to delete, and where |
| Screens.Screen.EraseNext | hterm/js/hterm_screen.js:663-737 | a later turn, on the node behind: emptied, shortened or taken out |
| Screens.Screen.LeaveEmptySpan | hterm/js/hterm_screen.js:663-737 | the cursor leaves an emptied span for a neighbour, or an empty text node, at the same column |
| Screens.Screen.DeleteChars | hterm/js/hterm_screen.js:663-737 | the cells are the array deletion up to the margin, orphaned halves become spaces; the cache survives if and only if the cursor was not past an emptied span |
| Screens.Screen.CutAfterCursor | hterm/js/hterm_screen.js:443-458 | everything behind the last column goes |
| Screens.Screen.MaybeClipCurrentRow | hterm/js/hterm_screen.js:424-468 | the cells are cut at the column count; a cursor over the margin is put on the last column with overflow set |
| Screens.Screen.OverwriteString | hterm/js/hterm_screen.js:630-651 | delete then insert on the cells, up to the margin, for rows of any width; a text that is already shown leaves the cells alone even beyond the margin |
| Screens.Screen.ClearCursorRow | hterm/js/hterm_screen.js:266-292 | a blank row, or one filled with the current background; the cursor at its start |
| Screens.Screen.CommitLineOverflow | hterm/js/hterm_screen.js:306-308 | the cursor row is marked as continued |
| Positions.GetNodeAndOffsetWithinRow | hterm/js/hterm_screen.js:879-894 | the first node that reaches up to the column, drilled down to text |
| Positions.GetPositionWithinRow | hterm/js/hterm_screen.js:830-849 | the widths in front of the node at every level of nesting, plus the offset |
| Positions.GetNodeAndOffsetWithOverflow | hterm/js/hterm_screen.js:859-869 | the same over the rows of a line |
| Positions.GetPositionWithOverflow | hterm/js/hterm_screen.js:801-819 | widths of the rows in front, or -1 for a row outside the line |
| Positions.ColumnRoundTrip | hterm/js/hterm_screen.js:830-894 | every column of a row leads to a text node and back to itself; column 0 if and only if the row starts with text |
| Positions.PlaceRoundTrip | hterm/js/hterm_screen.js:830-894 | every text node and offset above 0 comes back as itself |
| Positions.PositionRoundTrip | hterm/js/hterm_screen.js:801-894 | the round trip for every position up to the width of a line over several rows |
| GridTheory.PutAllAppend | hterm/js/hterm_terminal.js:2183-2247 | printing in two pieces equals printing at once: cells, scrollback, cursor, overflow, in all modes |
| GridTheory.PutRun | hterm/js/hterm_terminal.js:2183-2247 | text that fits may be written as a whole |
| GridTheory.PutPiece | hterm/js/hterm_terminal.js:2204-2222 | as much of a text as fits, then the rest of it, which starts with a wrap |
| GridTheory.PutClipped | hterm/js/hterm_terminal.js:2213-2219 | without wraparound a long text is its start and its last character at the margin |
| GridTheory.PutAfterWrap | hterm/js/hterm_terminal.js:2199-2202 | the pending wrap may be made first |
| GridTheory.DeleteInsertIsOverwrite | hterm/js/hterm_screen.js:630-651 | deleting as many columns as are inserted is writing over them, halves of wide glyphs on both sides becoming spaces |
| GridTheory.AsciiIsInvisible | hterm/js/hterm_terminal.js:2224-2236 | the ASCII mark of a container cannot be seen |
| GridTheory.DroppableMeans | hterm/js/hterm_terminal.js:1399-1413 | the dropped lines are empty, below the cursor, and as many as possible |
| GridTheory.ResizeConserves | hterm/js/hterm_terminal.js:1383-1440 | for any grid, the empty alternate screen included: a height change keeps all lines, adds blank ones, or drops empty ones below the cursor, with exactly the new height; a line becomes scrollback only when no empty line below the cursor is left to drop; a higher screen takes lines back if there are enough and otherwise leaves the scrollback alone; the cursor keeps its line unless that became scrollback |
| GridRuns.EraseToLeftShows | hterm/js/hterm_terminal.js:2393-2401 | cell by cell: spaces up to the cursor, and in place of a half glyph right behind it; nothing else changes |
| GridRuns.EraseToRightShows | hterm/js/hterm_terminal.js:2420-2446 | the cut and the overwrite show the same cells, half glyphs on both sides included, if and only if the attributes draw nothing on a space |
| GridRuns.EraseToRightAt | hterm/js/hterm_terminal.js:2420-2446 | cell by cell, for every count: what the cut shows and what the overwrite shows, and where which is taken |
| GridRuns.EraseLineShows | hterm/js/hterm_terminal.js:2453-2458 | every column shows a space in the current attributes, inverse off |
| GridRuns.InsertSpaceShows | hterm/js/hterm_terminal.js:2635-2646 | cell by cell: spaces at the cursor, the rest moved right, a wide glyph that straddles the margin dropped |
| GridRuns.DeleteCharsShows | hterm/js/hterm_terminal.js:2654-2666 | cell by cell: the rest moved left, spaces in the current attributes at the margin and in place of half glyphs |
| GridRuns.CharactersEditLine | hterm/js/hterm_terminal.js:2393-2666 | erasing, inserting and deleting characters edit the cursor line and no other, keep its element and the cursor column; which of them end a pending wrap |
| GridRuns.PutShows | hterm/js/hterm_terminal.js:2183-2247 | one character: what every column shows in insert and overwrite mode, half glyphs included; all other lines, and where the cursor is then |
| GridRuns.EraseAboveShows | hterm/js/hterm_terminal.js:2466-2478 | line by line and cell by cell: lines above erased, the cursor line up to the cursor, all others as they were, scrollback included |
| GridRuns.EraseBelowShows | hterm/js/hterm_terminal.js:2486-2499 | the same for the lines below and the rest of the cursor line |
| GridRuns.DeleteLinesMoves | hterm/js/hterm_terminal.js:2605-2626 | lines outside the region stay, survivors move up by the clamped count, exactly the vacated lines are cleared, with the removed identities |
| GridRuns.InsertLinesMoves | hterm/js/hterm_terminal.js:2578-2595 | the same downwards, clamped to bottom minus cursor row |
| GridRuns.LinesKeepCursor | hterm/js/hterm_terminal.js:2578-2626 | what deleting and inserting lines does to the cursor; below the region no line changes |
| GridRuns.ScrollUpMoves | hterm/js/hterm_terminal.js:2681-2688 | lines outside the region stay, the others move up by the clamped count from its top on, exactly the vacated lines are cleared; cursor, scrollback and pending wrap as before |
| GridRuns.ScrollDownMoves | hterm/js/hterm_terminal.js:2703-2710 | the same downwards, clamped so that one line stays |
| GridRuns.ScrollRegion | hterm/js/hterm_terminal.js:2265-2313 | lines outside the margins that are set stay; without margins the whole screen scrolls |
| GridRuns.DeleteThenInsert | hterm/js/hterm_terminal.js:2578-2626 | inserting as many lines as were deleted restores every other line |
| GridRuns.InsertThenDelete | hterm/js/hterm_terminal.js:2578-2626 | and the other way round |
| GridRuns.NewLineMeans | hterm/js/hterm_terminal.js:2322-2347 | with a top margin at the region's bottom nothing is added; without one exactly one blank line comes in right after the cursor line and one line becomes scrollback; elsewhere only the cursor moves |
| GridRuns.NewLineScrolls | hterm/js/hterm_terminal.js:2333-2336 | with a top margin at the region's bottom: every line of the screen, row by row |
| GridRuns.StepKeeps | hterm/js/hterm_terminal.js:2183-2710 | every command keeps the grid in order, the height, the scrollback as a prefix, and all row identities |
| GridRuns.RunKeeps | hterm/js/hterm_terminal.js:2183-2710 | the same for any run of print, new line, line, scroll and erase commands, as far as each applies |
| Terminals.Terminal.constructor | hterm/js/hterm_terminal.js:35-205 | blank lines of the given size, an unused alternate screen, no scrollback |
| Terminals.Terminal.SetAbsoluteCursorPosition | hterm/js/hterm_terminal.js:2763-2767 | the clamped position with a right cursor cache, overflow off |
| Terminals.Terminal.RestoreCursor | hterm/js/hterm_terminal.js:1161-1169 | the saved position, clamped; overflow if it was set or had to be clamped |
| Terminals.Terminal.ClearCursorOverflow | hterm/js/hterm_terminal.js:1174-1176 | overflow off, nothing else |
| Terminals.Terminal.AppendRows | hterm/js/hterm_terminal.js:2064-2088 | blank rows at the end, the overflow becomes scrollback, all indices right |
| Terminals.Terminal.RenumberRows | hterm/js/hterm_terminal.js:2159-2169 | exactly the rows of the range get their global index, contents untouched |
| Terminals.Terminal.MoveRows | hterm/js/hterm_terminal.js:2130-2145 | the same rows in the moved order, each with its right index |
| Terminals.Terminal.InsertRow | hterm/js/hterm_terminal.js:2098-2113 | a blank line right after the cursor line of the grid, the top line to scrollback |
| Terminals.Terminal.NewLine | hterm/js/hterm_terminal.js:2322-2347 | equals the grid's new line |
| Terminals.Terminal.DeleteLines | hterm/js/hterm_terminal.js:2605-2626 | equals the grid's, cursor restored |
| Terminals.Terminal.InsertLines | hterm/js/hterm_terminal.js:2578-2595 | equals the grid's, if and only if the cursor is not below the region |
| Terminals.Terminal.VtScrollUp | hterm/js/hterm_terminal.js:2681-2688 | equals the grid's (`GridRuns.ScrollUpMoves`), cursor restored |
| Terminals.Terminal.VtScrollDown | hterm/js/hterm_terminal.js:2703-2710 | equals the grid's (`GridRuns.ScrollDownMoves`), cursor restored |
| Terminals.Terminal.PrintToken | hterm/js/hterm_terminal.js:2224-2238 | one token with clipping equals writing its cells on the grid, wide glyphs around it included; the cursor is then in a place to print on |
| Terminals.Terminal.PrintOnLine | hterm/js/hterm_terminal.js:2204-2241 | one turn of the loop leaves the grid where the one-character terminal is, for the rest of the text |
| Terminals.Terminal.Print | hterm/js/hterm_terminal.js:2183-2247 | equals the grid terminal that takes one character at a time, in insert and overwrite mode, with and without wraparound, whatever the region, over lines with wide glyphs; and more text can be printed |
| Terminals.Terminal.SetVTScrollRegion | hterm/js/hterm_terminal.js:2265-2274 | a full-height region is no region; the terminal stays in order if and only if the region is not empty and within the screen |
| Terminals.Terminal.Placement | hterm/js/hterm_terminal.js:1980-1987 | every row element is in one place, `getRowNode(g).rowIndex == g`, and the first row of the inactive screen tells whether its indices are stale |
| Terminals.Terminal.DropEmptyRows | hterm/js/hterm_terminal.js:1399-1413 | the loop drops exactly the droppable rows |
| Terminals.Terminal.ShrinkScreen | hterm/js/hterm_terminal.js:1398-1420 | rows, scrollback and cursor row are those of the resized grid, in which `GridTheory.ResizeConserves` says which rows go and which become scrollback |
| Terminals.Terminal.GrowScreen | hterm/js/hterm_terminal.js:1421-1436 | the same when the screen gets higher |
| Terminals.Terminal.RealizeHeight | hterm/js/hterm_terminal.js:1383-1440 | equals the grid's resize, ends the scroll region, keeps every index right; growing takes scrollback if and only if there is enough of it for all missing rows |
| Terminals.Terminal.FitScreen | hterm/js/hterm_terminal.js:1383-1440 | rows, scrollback and the row for the cursor are those of the resized grid, before the cursor is set |
| Terminals.Terminal.RenumberIfStale | hterm/js/hterm_terminal.js:3093-3102 | testing the first row is enough to have all indices right |
| Terminals.Terminal.RealizeWidth | hterm/js/hterm_terminal.js:1339-1368 | the screen has the terminal's width |
| Terminals.Terminal.SetAlternateMode | hterm/js/hterm_terminal.js:3077-3116 | the other screen comes back resized, the leaving screen keeps its rows, the cursor stays; the scrollback gets shorter if and only if it has all the rows the other screen is short of |
| Terminals.Terminal.ClearScrollback | hterm/js/hterm_terminal.js:1501-1516 | only the scrollback is lost, both screens are renumbered from 0 |
| Terminals.Terminal.EraseToLeft | hterm/js/hterm_terminal.js:2393-2401 | equals the grid's, cursor restored |
| Terminals.Terminal.EraseToRight | hterm/js/hterm_terminal.js:2420-2446 | equals the grid's, shortcut, overflow case and half glyphs included |
| Terminals.Terminal.EraseLine | hterm/js/hterm_terminal.js:2453-2458 | equals the grid's |
| Terminals.Terminal.EraseAbove | hterm/js/hterm_terminal.js:2466-2478 | equals the grid's (`GridRuns.EraseAboveShows`): the cursor line up to the cursor and all lines above |
| Terminals.Terminal.EraseBelow | hterm/js/hterm_terminal.js:2486-2499 | equals the grid's (`GridRuns.EraseBelowShows`): the cursor line from the cursor on and all lines below |
| Terminals.Terminal.InsertSpace | hterm/js/hterm_terminal.js:2635-2646 | equals the grid's, the row within the margin, lines with wide glyphs included |
| Terminals.Terminal.DeleteChars | hterm/js/hterm_terminal.js:2654-2666 | equals the grid's, the row within the margin, halves of wide glyphs becoming spaces |
| TerminalRuns.Do | hterm/js/hterm_terminal.js:2183-2710 | each terminal command that can be carried out is the grid command |
| TerminalRuns.DoAll | hterm/js/hterm_terminal.js:2183-2710 | any list of commands: the terminal is where the run of the grid is, up to the first command that cannot be carried out; height and scrollback kept, no row element lost |
| TerminalRuns.HandleAll | hterm/js/hterm_terminal.js:1383-1440 | any session of edits, resizes, regions, modes, screen swaps and cleared scrollbacks keeps every row in one place, with `getRowNode(g).rowIndex == g` |
| ScrollPorts.ScrollPort.constructor | hterm/js/hterm_scrollport.js:793-805 | two folds, nothing selected: a good start for a redraw |
| ScrollPorts.ScrollPort.TrimFront | hterm/js/hterm_scrollport.js:1392-1394 | exactly the children in front of the target are removed |
| ScrollPorts.ScrollPort.TrimBetween | hterm/js/hterm_scrollport.js:1386-1389 | exactly the children between two rows are removed |
| ScrollPorts.ScrollPort.TrimBack | hterm/js/hterm_scrollport.js:1445-1447 | exactly the children behind the target are removed |
| ScrollPorts.ScrollPort.TopFoldFirst | hterm/js/hterm_scrollport.js:1360-1368 | the fold first, the other children in order |
| ScrollPorts.ScrollPort.TopFoldAfterStart | hterm/js/hterm_scrollport.js:1371-1377 | the first selected row, the fold, what was behind that row |
| ScrollPorts.ScrollPort.TopFoldAfterEnd | hterm/js/hterm_scrollport.js:1378-1394 | both selected rows, the fold, what was behind them |
| ScrollPorts.ScrollPort.DrawTopFold | hterm/js/hterm_scrollport.js:1359-1395 | above the top fold are exactly the selected rows that belong there; no selected row touched; no child at all if the fold is in its place already |
| ScrollPorts.ScrollPort.BottomFoldLast | hterm/js/hterm_scrollport.js:1413-1421 | the fold last, attached before or not |
| ScrollPorts.ScrollPort.BottomFoldBeforeEnd | hterm/js/hterm_scrollport.js:1424-1430 | the fold and the last selected row end the list |
| ScrollPorts.ScrollPort.BottomFoldBeforeStart | hterm/js/hterm_scrollport.js:1431-1447 | the fold and both selected rows end the list |
| ScrollPorts.ScrollPort.DrawBottomFold | hterm/js/hterm_scrollport.js:1412-1448 | the same below, the bottom fold put back if it had been trimmed |
| ScrollPorts.ScrollPort.DrawFolds | hterm/js/hterm_scrollport.js:1328-1329 | the rows between the folds are children from before; nothing is touched if the window is drawn already |
| ScrollPorts.ScrollPort.FetchRowNode | hterm/js/hterm_scrollport.js:1642-1656 | the row with the index asked for, kept in the current cache |
| ScrollPorts.ScrollPort.DrawTurn | hterm/js/hterm_scrollport.js:1497-1564 | one turn: the row placed is the node in turn, a selected row, or the row fetched from the cache or the provider; rows drawn so far keep their source |
| ScrollPorts.ScrollPort.RemoveUntilNode | hterm/js/hterm_scrollport.js:1471-1485 | exactly the children up to the target are removed; neither error is raised |
| ScrollPorts.ScrollPort.KeepNode | hterm/js/hterm_scrollport.js:1513-1517 | a row in the right place stays |
| ScrollPorts.ScrollPort.TakeSelected | hterm/js/hterm_scrollport.js:1519-1533 | a selected row whose turn it is stays, what was in front of it goes |
| ScrollPorts.ScrollPort.InsertRow | hterm/js/hterm_scrollport.js:1535-1546 | the row comes in front of the node in turn, from wherever it was attached |
| ScrollPorts.ScrollPort.RemoveNode | hterm/js/hterm_scrollport.js:1561-1563 | a node in the way goes, the row drawn stays |
| ScrollPorts.ScrollPort.DrawRow | hterm/js/hterm_scrollport.js:1497-1564 | each turn draws the next row: the element that is there already, or the one fetched from the cache or the provider, never another; a row already in its place is not touched; selected rows stay where they are |
| ScrollPorts.ScrollPort.DrawVisibleRows | hterm/js/hterm_scrollport.js:1467-1569 | between the folds exactly the rows of the window in order, each an element that was a child before or the one fetched; nothing is touched if they are there already; which selected rows are disturbed, if and only if |
| ScrollPorts.ScrollPort.Redraw | hterm/js/hterm_scrollport.js:1317-1342 | the final child list from any earlier one and any scroll distance; every row drawn is an element that was a child before, or the one the cache of the redraw before or the provider has for its index, and the new cache holds rows of the window only; a window that is drawn already is not touched; no selected row removed, moved or inserted again unless beyond the provider's rows; with selection and window on the provider's rows nothing selected is touched and the children are a good start again |
| ScrollPorts.ScrollPort.ReadyAgain | hterm/js/hterm_scrollport.js:1317-1342 | the result is a well-formed start for the next redraw |
| FindBars.MatchesApart | hterm/js/hterm_find_bar.js:352-361 | matches are occurrences and do not overlap |
| FindBars.MatchesCover | hterm/js/hterm_find_bar.js:352-361 | every occurrence overlaps a match that starts no later |
| FindBars.OrdinalUnique | hterm/js/hterm_find_bar.js:155-161 | an ordinal stands for one result |
| FindBars.IndexOfRow | hterm/js/hterm_find_bar.js:605-619 | the binary search finds the last value no greater than the given one |
| FindBars.FindBar.constructor | hterm/js/hterm_find_bar.js:17-190 | nothing searched, nothing selected |
| FindBars.FindBar.FindMatches | hterm/js/hterm_find_bar.js:352-361 | the loop finds the left-to-right matches |
| FindBars.FindBar.FindInRow | hterm/js/hterm_find_bar.js:342-384 | results, count and ordinal after one row, first result selected |
| FindBars.FindBar.UpdateCounterLabel | hterm/js/hterm_find_bar.js:577-596 | without results the selection is reset and the buttons are off; otherwise nothing changes |
| FindBars.FindBar.RowChanged | hterm/js/hterm_find_bar.js:775-787 | a changed row is pending, the state stays right about the texts seen |
| FindBars.FindBar.NotifyRow | hterm/js/hterm_find_bar.js:793-813 | one changed row keeps count, index and ordinal right; the selected row stays selected, its first result if it is the one that changed, and the selection moves to the row only if there was no result |
| FindBars.SelectionStep | hterm/js/hterm_find_bar.js:793-802 | one more changed row searched again: the selection is where the rule for all changed rows puts it |
| FindBars.FindBar.NotifyNext | hterm/js/hterm_find_bar.js:793-813 | one turn of the loop over the changed rows keeps that rule |
| FindBars.FindBar.SelectionStays | hterm/js/hterm_find_bar.js:793-802 | as long as the selected result is in an unchanged row, the results do not all vanish |
| FindBars.FindBar.NotifyChanges | hterm/js/hterm_find_bar.js:792-819 | after all changes the state is that of the present texts; which row is selected then, and which of its results: a known selection in an unchanged row stays, a changed selected row gets its first result, and only if all results vanish on the way the first changed row that matches is selected |
| FindBars.FindBar.NextRow | hterm/js/hterm_find_bar.js:655-700 | the neighbour in the index, across the wrap-around, has the ordinal that is computed without it |
| FindBars.FindBar.SelectNext | hterm/js/hterm_find_bar.js:655-712 | the ordinal moves by one around the circle; from a result that is gone, a step down keeps it |
| FindBars.FindBar.OnNext | hterm/js/hterm_find_bar.js:717-722 | one step down if there are results, nothing otherwise |
| FindBars.FindBar.OnPrevious | hterm/js/hterm_find_bar.js:727-732 | one step up if there are results, nothing otherwise |
| FindBars.FindBar.Agreement | hterm/js/hterm_find_bar.js:342-384 | count, sorted index and selected ordinal equal those of a search from scratch |
| FindBars.FindBar.Redraw | hterm/js/hterm_find_bar.js:490-543 | after a redraw during a search every visible row that matches is among the results, and no other row has been added; what the search keeps is kept, the selection included; the first result of all is selected if there was none |
| FindBars.FindBar.SearchRow | hterm/js/hterm_find_bar.js:342-384 | a row no batch has come to: selection and index stay right |
| FindBars.FindBar.SearchWindow | hterm/js/hterm_find_bar.js:490-508 | the first visible row that matches is selected |
| FindBars.FindBar.SearchNextRow | hterm/js/hterm_find_bar.js:315-321 | the index grows by the row if it matches; the selection moves there only if there was no result |
| FindBars.FindBar.RunNextBatch | hterm/js/hterm_find_bar.js:313-330 | a batch keeps what a search keeps, and the selection; if there was none the first result of all is selected; a selection of a matching row is right after it if and only if it was before, and the last batch completes a right search |
| FindBars.FindBar.StartSearch | hterm/js/hterm_find_bar.js:298-311 | when the start of a search leaves the selection right, and when it fails, if and only if; the first visible row that matches is the selected one |
| FindBars.FindBar.SyncResults | hterm/js/hterm_find_bar.js:298-332 | from any earlier selection: when the search fails, and when it leaves the new selection right, if and only if; which result is selected; a right one that fits one batch is completed |
| Witnesses.InsertIntoWideGlyph | hterm/js/hterm_screen.js:608-614 | a letter inserted at the second column of a wide glyph breaks the cache |
| Witnesses.DeleteBehindEmptiedSpan | hterm/js/hterm_screen.js:663-737 | deleting beyond an emptied wide span breaks the cache |
| Witnesses.InsertLinesBelowRegion | hterm/js/hterm_terminal.js:2578-2595 | two rows, a region of one: inserting a line below it takes the cursor off its row |
| Witnesses.AlternateTakesScrollback | hterm/js/hterm_terminal.js:1420-1436 | one line of scrollback: the empty alternate screen takes it |
| Witnesses.RedrawBeyondProvider | hterm/js/hterm_scrollport.js:1467-1569 | a selected row that the provider has lost is removed by the next redraw |
| Witnesses.EraseUnderlined | hterm/js/hterm_terminal.js:2420-2446 | with underline the cut shows no underlined spaces |
| Witnesses.InvisibleShows | hterm/js/hterm_text_attributes.js:412-415 | invisible with nothing else set: letters in the terminal's foreground on its background |
| Witnesses.FirstColumnLost | hterm/js/hterm_screen.js:879-894 | column 0 in front of an emptied span leads to no node |
| Witnesses.SearchAgain | hterm/js/hterm_find_bar.js:298-311 | a second search fails after the second match of a row was selected |

## Left out

- Terminals.Terminal.Print: single-width text only; where a wide glyph at the last column goes depends on segmentation code that is not part of this model. The lines it is printed on may hold wide glyphs. Not with the cursor inside a wide glyph in insert mode, or beyond an emptied wide span in overwrite mode: there the screen's cursor cache breaks, as `Screens.Screen.InsertString` and `Screens.Screen.DeleteChars` say exactly. What the program does from a broken cache on is not modelled.
- Terminals.Terminal.PrintToken: the same two places.
- Terminals.Terminal.InsertSpace: not with the cursor inside a wide glyph, for the same reason.
- Terminals.Terminal.DeleteChars: not beyond an emptied wide span, for the same reason.
- Terminals.Terminal.EraseToRight: not beyond an emptied wide span, unless the overflow bit is set.
- Terminals.Terminal.EraseBelow: the same.
- Screens.Screen.OverwriteString: not beyond an emptied wide span, where its deletion breaks the cache and the insertion then starts from it.
- Zero-width and combining characters, and surrogate pairs: a glyph is a printable code point of width 1 or 2.
- The DOM: a row is a value with an identity, and its nodes are values in a list, so two references to one node are not modelled; the cursor node is an index.
- Vt.Interpreter.RunUntilStringTerminator: without the time limit on strings, which reads the clock.
- Vt.Interpreter.RunOsc: without OSC 1337, which calls the interpreter again.
- What the handlers do: the log records every dispatch that passes the gates (known control, 8-bit controls enabled, subparameters allowed), not the effect of the handler on the terminal.
- Terminals.Terminal.RealizeWidth: the width is fixed; rows wider than a new, smaller width are not modelled.
- Screens.Screen.CommitLineOverflow and the `line-overflow` mark after printing: the mark is kept by the screen but is not part of the grid, because the unchanged-text shortcut skips clearing it depending on how text is cut.
- TextAttributes.SplitWidecharString: a grapheme is one glyph; the segmenter is not part of this model.
- The text attributes are a value: their computed colours are functions of the sources, so attributes that are out of date with `syncColors` are not modelled.
- Cells.Paint: a space that draws nothing is the blank cell whether or not it is bold, coloured or linked; these differ only in a copied selection or under the mouse.
- Screens.Screen.SplitNode: the second part keeps the `ascii` and `wc` marks, which `cloneNode` drops, so that later text may get a node of its own where the model merges it; the cells are the same.
- Style: hyperlink titles, the blink of the cursor, and the palette's bold-as-bright; faint, inverse and invisible are resolved as `syncColors` does.
- FindBars.FindBar.SelectNext: only after a completed search; the brute force over visible rows during a search is not modelled. Texts are already in lower case, and rows added after a search began are not modelled.
- FindBars.FindBar.NotifyRow: the row number that a change stands for is taken as given, without the offset added at `hterm/js/hterm_find_bar.js:794`.
- FindBars.FindBar.NotifyChanges: the same.
- ScrollPorts.ScrollPort.Redraw: `invalidate`, `selectAll`, the select bags and `aria-hidden`; the position of the scroll bar is a parameter.
- Screens.Screen.SetCursorPosition: `expandSelection` and its regular expressions, saved cursors and the selection caret.
- Mouse reports, colours from SGR, character maps, tab stops, key bindings, the IO stack and `lib.codec`: true but easy members.
- UI and I/O: rendering, events, clipboard, images, audio, notifications, timers, preferences.
