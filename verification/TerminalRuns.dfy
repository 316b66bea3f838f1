/**
 Runs of a terminal: any number of commands, one after the other.
 */
module TerminalRuns {
  import opened Common
  import opened TextAttributes
  import opened Cells
  import opened Screens
  import opened Grids
  import opened TerminalRows
  import opened Terminals
  import GridRuns

  /** The terminal can carry out a command and keep its cursor cache. */
  predicate CanDo(t: Terminal, c: GridRuns.Command)
    requires t.Valid()
    reads t, t.primaryScreen, t.alternateScreen
  {
    match c
    case PutText(text) => AllNarrow(text) && (text != [] ==> t.Ready())
    case InsertSome(_) => t.screen.cursorRow <= t.GetVTScrollBottom()
    case ClearRight(_) => t.screen.cursorOverflow || !t.screen.CursorPastEmptySpan()
    case ClearBelow => t.screen.cursorOverflow || !t.screen.CursorPastEmptySpan()
    case Shift(_) => !t.screen.CursorInsideWide()
    case Close(count) => count > 0 ==> !t.screen.CursorPastEmptySpan()
    case MoveTo(row, column) => 0 <= row < t.screenHeight && 0 <= column < t.screenWidth
    case _ => true
  }

  lemma CanDoApplies(t: Terminal, c: GridRuns.Command)
    requires t.Valid() && CanDo(t, c)
    ensures GridOk(t.Grid(), t.CurrentModes()) && GridRuns.Applies(t.Grid(), t.CurrentModes(), c)
  {
    hide Store, View, RowCells, CursorAt, Cached, InsideWide, Puttable;
    t.CursorRowFits();
    t.ReadyMeans();
  }

  /** Each command of the terminal is the command of the grid. */
  method Do(t: Terminal, c: GridRuns.Command)
    requires t.Valid() && CanDo(t, c)
    modifies t`scrollbackRows, t`nextId, t.screen
    ensures t.Valid() && t.CurrentModes() == old(t.CurrentModes())
    ensures GridOk(old(t.Grid()), t.CurrentModes()) && GridRuns.Applies(old(t.Grid()), t.CurrentModes(), c)
    ensures t.Grid() == GridRuns.Step(old(t.Grid()), t.CurrentModes(), c)
  {
    hide Store, View, RowCells, CursorAt, Cached, GridOk, Puttable, PutAll, Terminal.Settled;
    hide Grids.NewLine, Grids.DeleteLines, Grids.InsertLines, ScrollUp, ScrollDown, Grids.EraseToLeft;
    hide Grids.EraseToRight;
    hide Grids.EraseLine, Grids.EraseAbove, Grids.EraseBelow, Grids.InsertSpace, Grids.DeleteChars;
    CanDoApplies(t, c);
    match c {
      case PutText(text) => t.Print(text);
      case NextLine => t.NewLine();
      case DeleteSome(count) => t.DeleteLines(count);
      case InsertSome(count) => t.InsertLines(count);
      case Up(count) => t.VtScrollUp(count);
      case Down(count) => t.VtScrollDown(count);
      case ClearLeft => t.EraseToLeft();
      case ClearRight(count) => t.EraseToRight(count);
      case ClearLine => t.EraseLine();
      case ClearAbove => t.EraseAbove();
      case ClearBelow => t.EraseBelow();
      case Shift(count) => t.InsertSpace(count);
      case Close(count) => t.DeleteChars(count);
      case MoveTo(row, column) => t.SetAbsoluteCursorPosition(row, column);
    }
  }

  /**
   Any list of commands, as far as they can be carried out: the terminal goes where the grid goes, keeps
   its height and its scrollback, and loses no row element.
   */
  method DoAll(t: Terminal, commands: seq<GridRuns.Command>) returns (done: nat)
    requires t.Valid()
    modifies t`scrollbackRows, t`nextId, t.screen
    ensures t.Valid() && t.CurrentModes() == old(t.CurrentModes()) && done <= |commands|
    ensures done < |commands| ==> !CanDo(t, commands[done])
    ensures GridOk(old(t.Grid()), t.CurrentModes()) &&
      GridRuns.AllApply(old(t.Grid()), t.CurrentModes(), commands[..done])
    ensures t.Grid() == GridRuns.Run(old(t.Grid()), t.CurrentModes(), commands[..done])
    ensures GridRuns.Keeps(old(t.Grid()), t.Grid())
  {
    hide GridOk, GridRuns.Applies, GridRuns.Step, GridRuns.Keeps, CanDo;
    hide Store, View, RowCells, CursorAt, Cached, Terminal.Settled;
    ghost var g, m := t.Grid(), t.CurrentModes();
    t.ValidGrid();
    done := 0;
    while done < |commands|
      invariant t.Valid() && t.CurrentModes() == m && done <= |commands|
      invariant GridRuns.AllApply(g, m, commands[..done]) && t.Grid() == GridRuns.Run(g, m, commands[..done])
    {
      if !CanDo(t, commands[done]) {
        break;
      }
      CanDoApplies(t, commands[done]);
      GridRuns.RunMore(g, m, commands[..done], commands[done]);
      assert commands[..done] + [commands[done]] == commands[..done + 1];
      Do(t, commands[done]);
      done := done + 1;
    }
    GridRuns.RunKeeps(g, m, commands[..done]);
  }

  // ---------------------------------------------------------------- sessions

  datatype Event =
    | Edit(command: GridRuns.Command)
    | SetHeight(rowCount: nat)
    | Alternate(state: bool)
    | DropScrollback
    | Region(scrollTop: Option<nat>, scrollBottom: Option<nat>)
    | SetModes(insertMode: bool, wraparound: bool)

  predicate CanHandle(t: Terminal, e: Event)
    requires t.Valid()
    reads t, t.primaryScreen, t.alternateScreen
  {
    match e
    case Edit(command) => CanDo(t, command)
    case SetHeight(rowCount) => rowCount > 0
    case Region(scrollTop, scrollBottom) =>
      (if scrollTop.Some? then scrollTop.value else 0) <=
      (if scrollBottom.Some? then scrollBottom.value else t.screenHeight - 1) < t.screenHeight
    case _ => true
  }

  method Handle(t: Terminal, e: Event)
    requires t.Valid() && CanHandle(t, e)
    modifies t, t.primaryScreen, t.alternateScreen
    ensures t.Valid()
  {
    hide Store, View, RowCells, CursorAt, Cached, GridOk, Terminal.Settled, CanDo;
    hide Resize, Grids.ClearScrollback, GridRuns.Step, GridRuns.Applies;
    match e {
      case Edit(command) => Do(t, command);
      case SetHeight(rowCount) =>
        Terminal.SettledMeans(t.screen, t.screenWidth);
        t.RealizeHeight(rowCount);
      case Alternate(state) => t.SetAlternateMode(state);
      case DropScrollback => t.ClearScrollback();
      case Region(scrollTop, scrollBottom) => t.SetVTScrollRegion(scrollTop, scrollBottom);
      case SetModes(insertMode, wraparound) => t.insertMode, t.wraparound := insertMode, wraparound;
    }
  }

  /**
   Edits, resizes, screen swaps and cleared scrollbacks in any order: every row element is in one place,
   the row at a global index carries that index, and the first row of the inactive screen tells whether
   its rows are out of date.
   */
  method HandleAll(t: Terminal, events: seq<Event>) returns (handled: nat)
    requires t.Valid()
    modifies t, t.primaryScreen, t.alternateScreen
    ensures t.Valid() && handled <= |events| && (handled < |events| ==> !CanHandle(t, events[handled]))
    ensures DistinctIds(t.scrollbackRows + t.screen.rowsArray + t.Other().rowsArray)
    ensures forall i: nat :: i < |t.All()| ==> t.GetRowNode(i).rowIndex == i
    ensures var other := t.Other().rowsArray;
            other != [] ==> (Indexed(other, |t.scrollbackRows|) <==> other[0].rowIndex == |t.scrollbackRows|)
  {
    hide Terminal.Valid, CanHandle, DistinctIds, Indexed;
    handled := 0;
    while handled < |events|
      invariant t.Valid() && handled <= |events|
    {
      if !CanHandle(t, events[handled]) {
        break;
      }
      Handle(t, events[handled]);
      handled := handled + 1;
    }
    t.Placement();
  }
}
