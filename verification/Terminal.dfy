/**
 `hterm.Terminal`: two screens, a scrollback shared between them, and the commands that move rows
 among them or print on the active screen.  Every command is proved against the grid operation of the
 same purpose.
 */
module Terminals {
  import opened Common
  import opened TextAttributes
  import opened Cells
  import opened Screens
  import opened Grids
  import opened GridTheory
  import opened TerminalRows

  datatype RowCol = RowCol(row: int, column: int, overflow: bool)

  class Terminal {
    const primaryScreen: Screen
    const alternateScreen: Screen
    var screen: Screen
    var scrollbackRows: seq<Row>
    var screenWidth: nat
    var screenHeight: nat
    var vtScrollTop: Option<nat>
    var vtScrollBottom: Option<nat>
    var insertMode: bool
    var wraparound: bool
    /** The supply of identities for new row elements. */
    var nextId: nat

    /** The rows of the terminal by their global index: scrollback, then the active screen. */
    ghost function All(): seq<Row>
      reads this`scrollbackRows, this`screen, screen`rowsArray
    {
      scrollbackRows + screen.rowsArray
    }

    ghost function Other(): Screen
      reads this`screen
    {
      if screen == primaryScreen then alternateScreen else primaryScreen
    }

    function CurrentModes(): Modes
      reads this, screen
    {
      Modes(screenWidth, screenHeight, insertMode, wraparound, vtScrollTop, vtScrollBottom, screen.textAttributes)
    }

    /** The terminal as a grid. */
    ghost function Grid(): Grid
      reads this, screen
    {
      Grids.Grid(View(All()), |scrollbackRows|, screen.cursorRow, screen.cursorColumn, screen.cursorOverflow, nextId)
    }

    static ghost predicate PlainAttributes(s: Screen)
      reads s`textAttributes
    {
      !s.textAttributes.wcNode && s.textAttributes.asciiNode
    }

    /** An inactive screen: never used, or left with its cursor in place, its rows a consecutive run. */
    static ghost predicate Inactive(s: Screen, width: nat, nextId: nat)
      reads s
    {
      PlainAttributes(s) && (s.columnCount == width || s.rowsArray == []) && Settled(s, width) &&
      (s.rowsArray != [] ==> Indexed(s.rowsArray, s.rowsArray[0].rowIndex)) &&
      (s.cursorRowNode.Some? ==> s.cursorRowNode.value < nextId)
    }

    static lemma InactiveMore(s: Screen, width: nat, nextId: nat, nextId': nat)
      requires Inactive(s, width, nextId) && nextId <= nextId'
      ensures Inactive(s, width, nextId')
    {
      hide Settled, PlainAttributes, Indexed;
    }

    ghost predicate OtherOk()
      reads this`screen, this`screenWidth, this`nextId, primaryScreen, alternateScreen
    {
      Inactive(Other(), screenWidth, nextId)
    }

    /** A screen that was never used, or whose cursor is in place. */
    static ghost predicate Settled(s: Screen, width: nat)
      reads s
    {
      (s.cursorOverflow ==> s.cursorColumn == width - 1) &&
      if s.rowsArray == [] then s.cursorRowNode == None && s.cursorRow == 0 && s.cursorColumn == 0
      else s.Valid() && 0 <= s.cursorColumn < width
    }

    /** All that does not concern the cursor of the active screen, whatever its height. */
    ghost predicate Core()
      reads this, primaryScreen, alternateScreen
    {
      primaryScreen != alternateScreen && (screen == primaryScreen || screen == alternateScreen) &&
      CurrentModes().Ok() && screen.columnCount == screenWidth && PlainAttributes(screen) && OtherOk() &&
      Store(All(), Other().rowsArray, screenWidth, nextId) && Indexed(All(), 0) &&
      Cached(All(), screen.cursorRowNode, screen.cursorNode, screen.cursorOffset, screen.cursorColumn) &&
      (screen.cursorRowNode.Some? ==> screen.cursorRowNode.value < nextId)
    }

    ghost predicate Steady()
      reads this, primaryScreen, alternateScreen
    {
      Core() && |screen.rowsArray| == screenHeight
    }

    ghost predicate Valid()
      reads this, primaryScreen, alternateScreen
    {
      Steady() && screen.Valid() &&
      0 <= screen.cursorColumn < screenWidth && (screen.cursorOverflow ==> screen.cursorColumn == screenWidth - 1)
    }

    lemma ValidGrid()
      requires Valid()
      ensures GridOk(Grid(), CurrentModes())
    {
      hide Inactive, Store, View;
      StoreView(All(), Other().rowsArray, screenWidth, nextId);
    }

    function SaveCursor(): RowCol
      reads this, screen
    {
      RowCol(screen.cursorRow, screen.cursorColumn, screen.cursorOverflow)
    }

    /** A terminal of the given size, with a blank primary screen and an unused alternate screen. */
    constructor (width: nat, height: nat, attributes: Attributes)
      requires width > 0 && height > 0 && !attributes.wcNode && attributes.asciiNode
      ensures Valid() && fresh(primaryScreen) && fresh(alternateScreen) && screen == primaryScreen
      ensures Grid() == Grids.Grid(BlankEntries(0, height), 0, 0, 0, false, height)
      ensures CurrentModes() == Modes(width, height, false, true, None, None, attributes) && Other().rowsArray == []
    {
      primaryScreen := new Screen(width, attributes);
      alternateScreen := new Screen(0, attributes);
      scrollbackRows := [];
      screenWidth, screenHeight := width, height;
      vtScrollTop, vtScrollBottom := None, None;
      insertMode, wraparound := false, true;
      nextId := 0;
      screen := primaryScreen;
      new;
      assert All() == [];
      AppendRows(height);
      NewRowsView(0, 0, height);
      assert [] + NewRows(0, 0, height) == NewRows(0, 0, height);
    }

    method SetAbsoluteCursorPosition(row: int, column: int)
      requires Steady()
      modifies screen`cursorRow, screen`cursorColumn, screen`cursorOverflow, screen`cursorRowNode, screen`cursorNode
      modifies screen`cursorOffset
      ensures Valid() && !screen.cursorOverflow
      ensures screen.cursorRow == Clamp(row, 0, screenHeight - 1) &&
        screen.cursorColumn == Clamp(column, 0, screenWidth - 1)
    {
      hide Inactive, Store, View, CursorAt;
      ScreenRows(scrollbackRows, screen.rowsArray, Other().rowsArray, screenWidth, nextId);
      screen.SetCursorPosition(Clamp(row, 0, screenHeight - 1), Clamp(column, 0, screenWidth - 1));
      StoreFacts(All(), Other().rowsArray, screenWidth, nextId);
      CachedOnScreen(scrollbackRows, screen.rowsArray, screen.cursorRow,
                     screen.cursorNode, screen.cursorOffset, screen.cursorColumn);
    }

    method PushNewRows(count: nat)
      modifies this`nextId, screen`rowsArray
      ensures screen.rowsArray
        == old(screen.rowsArray) + NewRows(old(nextId), |scrollbackRows| + |old(screen.rowsArray)|, count)
      ensures nextId == old(nextId) + count
    {
      var offset := |scrollbackRows| + |screen.rowsArray|;
      for i := 0 to count
        invariant screen.rowsArray == old(screen.rowsArray) + NewRows(old(nextId), offset, i) &&
          nextId == old(nextId) + i
      {
        screen.rowsArray := screen.rowsArray + [NewRow(nextId, offset + i)];
        nextId := nextId + 1;
      }
    }

    /** `appendRows_`: new rows at the end; what no longer fits on the screen becomes scrollback. */
    method AppendRows(count: nat)
      requires Core() && |screen.rowsArray| <= screenHeight <= |screen.rowsArray| + count
      modifies this`scrollbackRows, this`nextId, screen
      ensures Valid() && CurrentModes() == old(CurrentModes())
      ensures All() == old(All()) + NewRows(old(nextId), |old(All())|, count) && nextId == old(nextId) + count
      ensures View(All()) == old(View(All())) + BlankEntries(old(nextId), count)
      ensures |scrollbackRows| == |old(All())| + count - screenHeight
      ensures screen.cursorRow == Min(|old(screen.rowsArray)|, screenHeight - 1) && screen.cursorColumn == 0 &&
        !screen.cursorOverflow
    {
      hide Inactive, Store, View, RowFits, CursorAt, Cached, Settled, RowCells;
      var cursorRow := |screen.rowsArray|;
      ghost var all, id := All(), nextId;
      StoreAppend(All(), Other().rowsArray, screenWidth, nextId, count);
      CachedAppend(All(), nextId, count, screen.cursorRowNode, screen.cursorNode, screen.cursorOffset,
                   screen.cursorColumn);
      InactiveMore(Other(), screenWidth, nextId, nextId + count);
      PushNewRows(count);
      var extraRows := |screen.rowsArray| - screenHeight;
      if extraRows > 0 {
        scrollbackRows := scrollbackRows + screen.rowsArray[..extraRows];
        screen.rowsArray := screen.rowsArray[extraRows..];
      }
      assert All() == all + NewRows(id, |all|, count);
      if cursorRow >= |screen.rowsArray| {
        cursorRow := |screen.rowsArray| - 1;
      }
      SetAbsoluteCursorPosition(cursorRow, 0);
    }

    /** `renumberRows_`. */
    method RenumberRows(start: nat, end: nat, s: Screen)
      requires start <= end <= |s.rowsArray|
      modifies s`rowsArray
      ensures SameButIndex(old(s.rowsArray), s.rowsArray)
      ensures forall i :: 0 <= i < |s.rowsArray| ==>
        s.rowsArray[i].rowIndex == if start <= i < end then |scrollbackRows| + i else old(s.rowsArray)[i].rowIndex
    {
      var offset := |scrollbackRows|;
      for i := start to end
        invariant SameButIndex(old(s.rowsArray), s.rowsArray)
        invariant forall k :: 0 <= k < |s.rowsArray| ==>
          s.rowsArray[k].rowIndex == if start <= k < i then offset + k else old(s.rowsArray)[k].rowIndex
      {
        s.rowsArray := s.rowsArray[i := s.rowsArray[i].(rowIndex := offset + i)];
      }
    }

    /** `moveRows_`: recycle rows within the screen; their indices are set right. */
    method MoveRows(from: nat, count: nat, to: nat)
      requires Steady() && from + count <= screenHeight && to + count <= screenHeight
      modifies screen`rowsArray
      ensures Steady() && SameButIndex(Moved(old(screen.rowsArray), from, count, to), screen.rowsArray)
    {
      hide Inactive, Store, RowFits, CursorAt, Moved;
      ghost var rows, other := screen.rowsArray, Other().rowsArray;
      var ary := screen.rowsArray[from..from + count];
      screen.rowsArray := screen.rowsArray[..from] + screen.rowsArray[from + count..];
      screen.rowsArray := screen.rowsArray[..to] + ary + screen.rowsArray[to..];
      MovedIs(rows, from, count, to, screen.rowsArray);
      var start, end := if from < to then from else to, if from < to then to + count else from + count;
      RenumberRows(start, end, screen);
      MovedIndexed(scrollbackRows, rows, from, count, to, screen.rowsArray, start, end);
      StoreMoved(scrollbackRows, rows, other, screenWidth, nextId, from, count, to, screen.rowsArray);
      CachedMoved(scrollbackRows, rows, from, count, to, screen.rowsArray,
                  screen.cursorRowNode, screen.cursorNode, screen.cursorOffset, screen.cursorColumn);
    }

    /** After an edit of the cursor row that respects the margin, only that line of the grid differs. */
    twostate lemma RowEdited()
      requires old(Valid()) && screen == old(screen) && screen.OnlyCursorRow() && screen.Valid()
      requires unchanged(this) && screen.textAttributes == old(screen.textAttributes) &&
        screen.columnCount == old(screen.columnCount)
      requires Other().rowsArray == old(Other().rowsArray) && OtherOk()
      requires |screen.CursorLine()| <= screenWidth
      ensures Steady() && CurrentModes() == old(CurrentModes())
      ensures View(All()) == old(View(All()))[|scrollbackRows| + screen.cursorRow :=
                Entry(old(View(All()))[|scrollbackRows| + screen.cursorRow].id, screen.CursorLine())]
    {
      hide Inactive, Store, RowCells, NoWide, CursorAt;
      var k := |scrollbackRows| + screen.cursorRow;
      var row := screen.rowsArray[screen.cursorRow];
      var all, other := old(All()), old(Other().rowsArray);
      assert All() == all[k := row];
      EditedFits(row, screenWidth);
      StoreEdited(all, other, screenWidth, nextId, k, row);
      StoreFacts(All(), other, screenWidth, nextId);
      CachedOne(All(), k, screen.cursorNode, screen.cursorOffset, screen.cursorColumn);
    }

    /** Put the cursor on a row and erase it, as the loops over vacated rows do. */
    method ClearRow(row: int)
      requires Steady() && 0 <= row < screenHeight
      modifies screen
      ensures Valid() && CurrentModes() == old(CurrentModes()) && |screen.rowsArray| == |old(screen.rowsArray)|
      ensures screen.cursorRow == row && screen.cursorColumn == 0 && !screen.cursorOverflow
      ensures var k := |scrollbackRows| + row;
              View(All()) == old(View(All()))[k := Entry(old(View(All()))[k].id, CurrentModes().Cleared())]
    {
      hide Inactive, Store, View, RowCells, NoWide, RowFits, CursorAt, Cached;
      SetAbsoluteCursorPosition(row, 0);
      label positioned:
      ClearedIsNarrow(CurrentModes());
      screen.ClearCursorRow();
      RowEdited@positioned();
    }

    function GetVTScrollTop(): nat
      reads this
    {
      if vtScrollTop.Some? then vtScrollTop.value else 0
    }

    function GetVTScrollBottom(): int
      reads this
    {
      if vtScrollBottom.Some? then vtScrollBottom.value else screenHeight - 1
    }

    method RestoreCursor(cursor: RowCol)
      requires Steady() && (cursor.overflow ==> cursor.column >= screenWidth - 1)
      modifies screen`cursorRow, screen`cursorColumn, screen`cursorOverflow, screen`cursorRowNode, screen`cursorNode
      modifies screen`cursorOffset
      ensures Valid()
      ensures screen.cursorRow == Clamp(cursor.row, 0, screenHeight - 1) &&
        screen.cursorColumn == Clamp(cursor.column, 0, screenWidth - 1)
      ensures screen.cursorOverflow
        == (cursor.column > screen.cursorColumn || (cursor.column == screen.cursorColumn && cursor.overflow))
    {
      hide Inactive, Store, View, RowCells, CursorAt, Cached;
      SetAbsoluteCursorPosition(cursor.row, cursor.column);
      if cursor.column > screen.cursorColumn || (cursor.column == screen.cursorColumn && cursor.overflow) {
        screen.cursorOverflow := true;
      }
    }

    method ClearCursorOverflow()
      requires Valid()
      modifies screen`cursorOverflow
      ensures Valid() && !screen.cursorOverflow
    {
      hide Inactive, Store, View, RowCells, CursorAt, Cached;
      screen.cursorOverflow := false;
    }

    /** Clear rows from the first to the last. */
    method ClearRowsUpward(start: nat, count: nat)
      requires Steady() && start + count <= screenHeight
      modifies screen
      ensures Steady() && (count > 0 ==> Valid()) && CurrentModes() == old(CurrentModes()) &&
        |screen.rowsArray| == |old(screen.rowsArray)|
      ensures View(All()) == ClearedRange(old(View(All())), |scrollbackRows| + start, count, CurrentModes().Cleared())
    {
      hide Inactive, Store, View, RowCells, CursorAt, Cached, ClearedRange;
      ghost var base, from, cleared := View(All()), |scrollbackRows| + start, CurrentModes().Cleared();
      ClearedNone(base, from, cleared);
      for i := 0 to count
        invariant Steady() && (i > 0 ==> Valid()) && CurrentModes() == old(CurrentModes()) &&
          |screen.rowsArray| == |old(screen.rowsArray)|
        invariant View(All()) == ClearedRange(base, from, i, cleared)
      {
        ClearedMore(base, from, i, cleared);
        ClearRow(start + i);
      }
    }

    /** Clear rows from the last to the first, which leaves the cursor on the first. */
    method ClearRowsDownward(start: nat, count: nat)
      requires Steady() && start + count <= screenHeight
      modifies screen
      ensures Steady() && (count > 0 ==> Valid()) && CurrentModes() == old(CurrentModes()) &&
        |screen.rowsArray| == |old(screen.rowsArray)|
      ensures View(All()) == ClearedRange(old(View(All())), |scrollbackRows| + start, count, CurrentModes().Cleared())
      ensures if count == 0 then SaveCursor() == old(SaveCursor()) else SaveCursor() == RowCol(start, 0, false)
    {
      hide Inactive, Store, View, RowCells, CursorAt, Cached, ClearedRange;
      ghost var base, from, cleared := View(All()), |scrollbackRows| + start, CurrentModes().Cleared();
      ClearedNone(base, from + count, cleared);
      for i := count downto 0
        invariant Steady() && (i < count ==> Valid()) && CurrentModes() == old(CurrentModes()) &&
          |screen.rowsArray| == |old(screen.rowsArray)|
        invariant View(All()) == ClearedRange(base, from + i, count - i, cleared)
        invariant if i == count then SaveCursor() == old(SaveCursor()) else SaveCursor() == RowCol(start + i, 0, false)
      {
        ClearedLess(base, from + i + 1, count - i - 1, cleared);
        ClearRow(start + i);
      }
    }

    /** Recycle the first `n` rows from `top` to `bottom` as blank rows at the bottom. */
    method RotateRowsUp(top: nat, bottom: nat, n: nat)
      requires Valid() && top + n <= bottom + 1 <= screenHeight
      modifies screen
      ensures Steady() && CurrentModes() == old(CurrentModes())
      ensures View(All())
        == RotateUp(old(View(All())), |scrollbackRows| + top, |scrollbackRows| + bottom + 1, n,
                    CurrentModes().Cleared())
    {
      hide Inactive, Store, View, RowCells, CursorAt, Cached, ClearedRange, RotateUp, Moved;
      ghost var rows := screen.rowsArray;
      var moveStart := bottom - n + 1;
      if n != bottom - top + 1 {
        MoveRows(top, n, moveStart);
      } else {
        MovedNothing(rows, top, n);
      }
      DeletedView(scrollbackRows, rows, screen.rowsArray, top, bottom + 1, n, CurrentModes().Cleared());
      ClearRowsUpward(moveStart, n);
    }

    /** `deleteLines`. */
    method DeleteLines(count: nat)
      requires Valid()
      modifies screen
      ensures Valid() && CurrentModes() == old(CurrentModes())
      ensures GridOk(old(Grid()), CurrentModes()) && Grid() == Grids.DeleteLines(old(Grid()), CurrentModes(), count)
    {
      hide Inactive, Store, View, RowCells, CursorAt, Cached, RotateUp, GridOk;
      ValidGrid();
      var cursor := SaveCursor();
      var top, bottom := cursor.row, GetVTScrollBottom();
      var n := Min(count, bottom - top + 1);
      if top <= bottom {
        RotateRowsUp(top, bottom, n);
      }
      RestoreCursor(cursor);
      ClearCursorOverflow();
    }

    /** Make room for `n` rows at `top`.  Without any room to make, nothing moves. */
    method ShiftRowsDown(top: nat, bottom: nat, n: nat)
      requires Valid() && top + n <= bottom < screenHeight
      modifies screen`rowsArray
      ensures Steady() &&
        SameButIndex(Moved(old(screen.rowsArray), top, bottom - top - n + 1, top + n), screen.rowsArray)
      ensures n == 0 ==> Valid()
    {
      hide Inactive, Store, View, RowCells, CursorAt, Cached, Moved;
      ghost var rows := screen.rowsArray;
      var moveCount := bottom - top - n + 1;
      MoveRows(top, moveCount, top + n);
      if n == 0 {
        MovedNothing(rows, top, moveCount);
        MovedMeans(rows, top, moveCount, screen.rowsArray);
        ScreenRows(scrollbackRows, screen.rowsArray, Other().rowsArray, screenWidth, nextId);
        SameRowsSameCursor(rows, screen.rowsArray, screen.cursorRow);
      }
    }

    /** Recycle the last `n` rows from `top` to `bottom` as blank rows at the top. */
    method RotateRowsDown(top: nat, bottom: nat, n: nat)
      requires Valid() && top + n <= bottom < screenHeight
      modifies screen
      ensures Valid() && CurrentModes() == old(CurrentModes())
      ensures View(All())
        == RotateDown(old(View(All())), |scrollbackRows| + top, |scrollbackRows| + bottom + 1, n,
                      CurrentModes().Cleared())
      ensures if n == 0 then SaveCursor() == old(SaveCursor()) else SaveCursor() == RowCol(top, 0, false)
    {
      hide Inactive, Store, View, RowCells, CursorAt, Cached, ClearedRange, RotateDown, Moved, SameButIndex;
      ghost var rows := screen.rowsArray;
      ShiftRowsDown(top, bottom, n);
      InsertedView(scrollbackRows, rows, screen.rowsArray, top, bottom + 1, n, CurrentModes().Cleared());
      if n == 0 {
        ClearedNone(View(All()), |scrollbackRows| + top, CurrentModes().Cleared());
      } else {
        ClearRowsDownward(top, n);
      }
    }

    /**
     `insertLines`.  With the cursor in or above the region it shifts lines down.  Below the region
     it moves the cursor row up to the region's bottom instead, and the cursor loses its row.
     */
    method InsertLines(count: nat)
      requires Valid()
      modifies screen
      ensures Steady() && CurrentModes() == old(CurrentModes())
      ensures Valid() <==> old(screen.cursorRow) <= GetVTScrollBottom()
      ensures Valid() ==>
        GridOk(old(Grid()), CurrentModes()) &&
        Grid() == Grids.InsertLines(old(Grid()), CurrentModes(), count)
      ensures !Valid() ==>
        SameButIndex(Moved(old(screen.rowsArray), old(screen.cursorRow), 1, GetVTScrollBottom()), screen.rowsArray)
    {
      hide Inactive, Store, View, RowCells, CursorAt, Cached, RotateDown, GridOk, Moved;
      ValidGrid();
      var cursorRow, bottom := screen.cursorRow, GetVTScrollBottom();
      var n := Min(count, bottom - cursorRow);
      if cursorRow <= bottom {
        RotateRowsDown(cursorRow, bottom, n);
      } else {
        ghost var rows := screen.rowsArray;
        ScreenRows(scrollbackRows, rows, Other().rowsArray, screenWidth, nextId);
        MovedAt(rows, cursorRow, 1, bottom, cursorRow);
        MoveRows(cursorRow, bottom - cursorRow - n + 1, cursorRow + n);
      }
    }

    /** `vtScrollUp`. */
    method VtScrollUp(count: nat)
      requires Valid()
      modifies screen
      ensures Valid() && CurrentModes() == old(CurrentModes())
      ensures GridOk(old(Grid()), CurrentModes()) && Grid() == ScrollUp(old(Grid()), CurrentModes(), count)
    {
      hide Inactive, Store, View, RowCells, CursorAt, Cached, RotateUp, GridOk;
      ValidGrid();
      var cursor := SaveCursor();
      SetAbsoluteCursorPosition(GetVTScrollTop(), screen.cursorColumn);
      DeleteLines(count);
      RestoreCursor(cursor);
    }

    /** `vtScrollDown`. */
    method VtScrollDown(count: nat)
      requires Valid()
      modifies screen
      ensures Valid() && CurrentModes() == old(CurrentModes())
      ensures GridOk(old(Grid()), CurrentModes()) && Grid() == ScrollDown(old(Grid()), CurrentModes(), count)
    {
      hide Inactive, Store, View, RowCells, CursorAt, Cached, RotateDown, GridOk;
      ValidGrid();
      var cursor := SaveCursor();
      SetAbsoluteCursorPosition(GetVTScrollTop(), 0);
      InsertLines(count);
      RestoreCursor(cursor);
    }

    /** The top row goes to scrollback, and makes room for a row at `k`. */
    method PushDown(k: nat, row: Row)
      requires k < |screen.rowsArray|
      modifies this`scrollbackRows, screen`rowsArray
      ensures |scrollbackRows| == |old(scrollbackRows)| + 1 && |screen.rowsArray| == |old(screen.rowsArray)|
      ensures var at := |old(scrollbackRows)| + k + 1;
              All() == old(All())[..at] + [row] + old(All())[at..] && All()[..|scrollbackRows|] == scrollbackRows
    {
      InsertedRowPlace(scrollbackRows, screen.rowsArray, k, row);
      scrollbackRows := scrollbackRows + [screen.rowsArray[0]];
      screen.rowsArray := screen.rowsArray[1..];
      screen.rowsArray := screen.rowsArray[..k] + [row] + screen.rowsArray[k..];
    }

    /** `insertRow_`: the top row goes to scrollback, a blank row comes in at the cursor. */
    method InsertRow()
      requires Valid() && screen.cursorRow < screenHeight - 1
      modifies this`scrollbackRows, this`nextId, screen
      ensures Valid() && CurrentModes() == old(CurrentModes())
      ensures GridOk(old(Grid()), CurrentModes()) && Grid() == InsertLineAfter(old(Grid()), CurrentModes())
    {
      hide Inactive, Store, View, RowFits, CursorAt, Cached, Settled, RowCells, GridOk, SameButIndex, Indexed, RowsOk;
      hide DistinctIds;
      ValidGrid();
      ghost var all, rows, k := All(), screen.rowsArray, |scrollbackRows|;
      InactiveMore(Other(), screenWidth, nextId, nextId + 1);
      var cursorRow := screen.cursorRow;
      var row := NewRow(nextId, 0);
      nextId := nextId + 1;
      PushDown(cursorRow, row);
      ghost var mid := All();
      RenumberRows(cursorRow, |screen.rowsArray|, screen);
      ReindexedTail(scrollbackRows, all, k + cursorRow + 1, row, screen.rowsArray, mid, cursorRow);
      StoreInserted(all, Other().rowsArray, screenWidth, old(nextId), k + cursorRow + 1, 0, All(),
                    screen.cursorRowNode, screen.cursorNode, screen.cursorOffset, screen.cursorColumn);
      SetAbsoluteCursorPosition(cursorRow, 0);
    }

    /** `newLine`. */
    method NewLine()
      requires Valid()
      modifies this`scrollbackRows, this`nextId, screen
      ensures Valid() && CurrentModes() == old(CurrentModes())
      ensures GridOk(old(Grid()), CurrentModes()) && Grid() == Grids.NewLine(old(Grid()), CurrentModes())
    {
      hide Inactive, Store, View, RowCells, CursorAt, Cached, GridOk, RotateUp;
      ValidGrid();
      var cursorAtEndOfScreen := screen.cursorRow == |screen.rowsArray| - 1;
      var cursorAtEndOfVTRegion := screen.cursorRow == GetVTScrollBottom();
      if vtScrollTop.Some? && cursorAtEndOfVTRegion {
        VtScrollUp(1);
        SetAbsoluteCursorPosition(screen.cursorRow, 0);
      } else if cursorAtEndOfScreen {
        AppendRows(1);
      } else if cursorAtEndOfVTRegion {
        InsertRow();
      } else {
        SetAbsoluteCursorPosition(screen.cursorRow + 1, 0);
      }
    }

    /** The cursor row of a valid terminal, by its own account. */
    lemma CursorRowFits()
      requires Valid()
      ensures |screen.CursorLine()| <= screenWidth && Paired(screen.CursorLine())
      ensures screen.CursorInsideWide() <==> InsideWide(screen.CursorLine(), screen.cursorColumn)
      ensures GridOk(Grid(), CurrentModes()) && LineAt(Grid()) == screen.CursorLine()
    {
      hide RowCells, Cached, StartColumn, Paired, InsideWide;
      ValidGrid();
      assert All()[|scrollbackRows| + screen.cursorRow] == screen.rowsArray[screen.cursorRow];
      assert RowFits(screen.rowsArray[screen.cursorRow], screenWidth);
      RowCellsPaired(screen.Nodes());
      screen.CursorInsideMeans();
    }

    /** Text is inserted only where no wide glyph is split, and written over others only from a sound cache. */
    predicate InPlace()
      requires screen.Valid()
      reads this, screen
    {
      if insertMode then !screen.CursorInsideWide() else !screen.CursorPastEmptySpan()
    }

    /** Text can be printed: a pending wrap comes first, and moves the cursor to the start of a line. */
    predicate Ready()
      requires screen.Valid()
      reads this, screen
    {
      (wraparound && screen.cursorOverflow) || InPlace()
    }

    lemma ReadyMeans()
      requires Valid()
      ensures GridOk(Grid(), CurrentModes()) && (Ready() ==> Puttable(Grid(), CurrentModes()))
      ensures insertMode && Puttable(Grid(), CurrentModes()) ==> Ready()
      ensures screen.Valid() && 0 <= screen.cursorColumn < screenWidth
      ensures wraparound && screen.cursorOverflow ==> Ready()
      ensures screen.cursorColumn == 0 ==> InPlace()
    {
      hide Store, View, RowCells, CursorAt, Cached, Paired, InsideWide;
      CursorRowFits();
      if screen.cursorColumn == 0 {
        screen.FirstColumnIsEasy();
      }
    }

    /** What takes the place of half a wide glyph is the same, whatever kind of text is printed. */
    static lemma SameMark(m: Modes, ascii: bool)
      requires !m.attributes.wcNode && m.attributes.asciiNode
      ensures TextCells([SPACE], m.attributes.(asciiNode := ascii).ContainerStyle()) == m.Mark()
      ensures TextCells([SPACE], m.attributes.ContainerStyle()) == m.Mark() && |m.Mark()| == 1
    {
      assert Spaces(1) == [SPACE];
      AsciiIsInvisible(m.attributes, ascii, [SPACE]);
      SpacesAreCells(m, 1);
    }

    /** The edit that prints one token, with the attributes set for its kind of text. */
    method EditForToken(token: Text)
      requires Valid() && InPlace() && AllNarrow(token) && token != [] && screen.cursorColumn + |token| <= screenWidth
      modifies screen
      ensures screen.OnlyCursorRow() && screen.Valid()
      ensures screen.textAttributes == old(screen.textAttributes) && screen.columnCount == old(screen.columnCount)
      ensures screen.cursorOverflow == old(screen.cursorOverflow) &&
        screen.cursorColumn == old(screen.cursorColumn) + |token|
      ensures var line, cells := old(screen.CursorLine()), CellsOf(CurrentModes(), token);
              screen.CursorLine() == if insertMode then Insert(line, old(screen.cursorColumn), cells)
                                     else Overwrite(line, old(screen.cursorColumn), cells, CurrentModes().Mark())
    {
      hide Inactive, Store, View, RowCells, TextCells, CursorAt, Cached, GridOk, Insert, Delete, Overwrite, Paired;
      hide SpaceCells;
      CursorRowFits();
      var attributes := screen.textAttributes;
      var tokens := SplitWidecharString(token);
      var ascii := tokens[0].asciiNode;
      AsciiIsInvisible(attributes, ascii, token);
      SameMark(CurrentModes(), ascii);
      NarrowWidth(token);
      CellsOfNarrow(CurrentModes(), token);
      ghost var line, column, cells := screen.CursorLine(), screen.cursorColumn, CellsOf(CurrentModes(), token);
      DeleteInsertIsOverwrite(line, column, cells, CurrentModes().Mark());
      screen.textAttributes := attributes.(asciiNode := ascii);
      if insertMode {
        screen.InsertString(token);
      } else {
        screen.OverwriteString(token);
      }
      screen.textAttributes := attributes;
    }

    /** One token of single-width text, that fits between the cursor and the margin. */
    method PrintToken(token: Text)
      requires Valid() && InPlace() && AllNarrow(token) && token != [] && screen.cursorColumn + |token| <= screenWidth
      modifies screen
      ensures Valid() && CurrentModes() == old(CurrentModes())
      ensures GridOk(old(Grid()), CurrentModes()) &&
        Grid() == Write(old(Grid()), CurrentModes(), CellsOf(CurrentModes(), token))
      ensures insertMode || InPlace()
    {
      hide Inactive, Store, View, RowCells, TextCells, CursorAt, Cached, GridOk, Insert, Delete, Overwrite, Clip;
      hide CellsOf;
      CursorRowFits();
      CellsOfNarrow(CurrentModes(), token);
      ClipWidth(screen.CursorLine(), screen.cursorColumn, CellsOf(CurrentModes(), token), CurrentModes());
      EditForToken(token);
      screen.MaybeClipCurrentRow();
      RowEdited();
      if screen.CursorPastEmptySpan() {
        screen.PastEmptySpanIsBeyond();
      }
    }

    /** The wrap that a cursor in the overflow state makes before the next character. */
    method Wrap()
      requires Valid()
      modifies this`scrollbackRows, this`nextId, screen
      ensures Valid() && CurrentModes() == old(CurrentModes())
      ensures GridOk(old(Grid()), CurrentModes()) && Grid() == Grids.NewLine(old(Grid()), CurrentModes())
    {
      hide Inactive, Store, View, RowCells, CursorAt, Cached, GridOk, Grids.NewLine;
      CursorRowFits();
      ghost var k, entries := |scrollbackRows| + screen.cursorRow, View(All());
      assert Entry(entries[k].id, entries[k].line) == entries[k];
      screen.CommitLineOverflow();
      RowEdited();
      assert View(All()) == entries;
      NewLine();
    }

    /**
     One turn of the loop of `print`, after the wrap: as much as fits on the line, and without wraparound all
     of it.
     */
    method PrintOnLine(str: Text, startOffset: nat, strWidth: nat) returns (count: nat)
      requires Valid() && InPlace() && !(wraparound && screen.cursorOverflow)
      requires AllNarrow(str) && startOffset < |str| == strWidth
      modifies screen
      ensures Valid() && screen.Valid() && CurrentModes() == old(CurrentModes()) && Ready()
      ensures 0 < count && startOffset + count <= |str|
      ensures var m := CurrentModes();
              GridOk(old(Grid()), m) && Puttable(old(Grid()), m) && GridOk(Grid(), m) && Puttable(Grid(), m) &&
              PutAll(Grid(), m, str[startOffset + count..]) == PutAll(old(Grid()), m, str[startOffset..]) &&
              (startOffset + count < |str| ==> wraparound && screen.cursorOverflow)
    {
      hide Inactive, Store, View, RowCells, TextCells, CursorAt, Cached, GridOk, Write, CellsOf, PutAll, Put, Core;
      hide Settled;
      hide InPlace, Puttable, RowsOk, DistinctIds;
      ReadyMeans();
      ghost var m, rest := CurrentModes(), str[startOffset..];
      RestOfText(str, startOffset, 0);
      count := strWidth - startOffset;
      var didOverflow := false;
      var substr;
      if screen.cursorColumn + count >= screenWidth {
        didOverflow := true;
        count := screenWidth - screen.cursorColumn;
      }
      if didOverflow && !wraparound {
        substr := str[startOffset..startOffset + count - 1] + str[strWidth - 1..];
        ClippedText(str, startOffset, count);
        PutClipped(Grid(), m, rest);
        count := strWidth - startOffset;
      } else {
        substr := str[startOffset..startOffset + count];
        RestOfText(str, startOffset, count);
        PutPiece(Grid(), m, rest, count);
      }
      PrintToken(substr);
      ReadyMeans();
      RestOfText(str, startOffset, count);
      PutNothing(Grid(), m, []);
    }

    /**
     `print`, for single-width text: whatever the modes, the scroll region and the length of the text,
     the result is that of a terminal that takes one character at a time.
     */
    method Print(str: Text)
      requires Valid() && AllNarrow(str) && (str != [] ==> Ready())
      modifies this`scrollbackRows, this`nextId, screen
      ensures Valid() && CurrentModes() == old(CurrentModes())
      ensures GridOk(old(Grid()), CurrentModes()) && (str != [] ==> Puttable(old(Grid()), CurrentModes()))
      ensures Grid() == PutAll(old(Grid()), CurrentModes(), str) && (str != [] ==> Ready())
    {
      hide Inactive, Store, View, RowCells, TextCells, CursorAt, Cached, GridOk, Grids.NewLine, Write, PutAll, Put;
      hide Core, Settled;
      hide InPlace, Puttable, RowsOk, DistinctIds, Valid, Screen.Valid;
      ReadyMeans();
      ghost var m, target := CurrentModes(), PutAll(Grid(), CurrentModes(), str);
      var startOffset := 0;
      NarrowWidth(str);
      var strWidth := StrWidth(str);
      RestOfText(str, 0, 0);
      while startOffset < strWidth
        invariant 0 <= startOffset <= |str| == strWidth
        invariant Valid() && screen.Valid() && CurrentModes() == m && GridOk(Grid(), m)
        invariant str != [] ==> Ready()
        invariant startOffset < strWidth ==> Puttable(Grid(), m)
        invariant PutAll(Grid(), m, str[startOffset..]) == target
      {
        if wraparound && screen.cursorOverflow {
          PutAfterWrap(Grid(), m, str[startOffset..]);
          NewLineColumn(Grid(), m);
          Wrap();
          ReadyMeans();
        }
        var count := PrintOnLine(str, startOffset, strWidth);
        startOffset := startOffset + count;
      }
      RestOfText(str, startOffset, 0);
      PutNothing(Grid(), m, []);
    }

    /** `setVTScrollRegion`: the full height is no region at all. */
    method SetVTScrollRegion(scrollTop: Option<nat>, scrollBottom: Option<nat>)
      modifies this`vtScrollTop, this`vtScrollBottom
      ensures vtScrollBottom == if scrollBottom == Some(screenHeight - 1) then None else scrollBottom
      ensures vtScrollTop == if scrollBottom == Some(screenHeight - 1) && scrollTop == Some(0) then None else scrollTop
      ensures old(Valid()) ==> (Valid() <==> GetVTScrollTop() <= GetVTScrollBottom() < screenHeight)
    {
      hide Inactive, Store, View, RowCells, CursorAt, Cached;
      vtScrollTop, vtScrollBottom := scrollTop, scrollBottom;
      if scrollBottom == Some(screenHeight - 1) {
        vtScrollBottom := None;
        if scrollTop == Some(0) {
          vtScrollTop := None;
        }
      }
    }

    /** The row with the given global index. */
    function GetRowNode(index: nat): Row
      requires index < |scrollbackRows| + |screen.rowsArray|
      reads this, screen
    {
      if index < |scrollbackRows| then scrollbackRows[index] else screen.rowsArray[index - |scrollbackRows|]
    }

    /**
     Every row element is in exactly one place; the row found at a global index carries that index; and
     the rows of the inactive screen are numbered consecutively, so that its first row alone tells
     whether they are out of date.
     */
    lemma Placement()
      requires Valid()
      ensures DistinctIds(scrollbackRows + screen.rowsArray + Other().rowsArray)
      ensures forall i: nat :: i < |All()| ==> GetRowNode(i).rowIndex == i
      ensures Other().rowsArray != [] ==>
        (Indexed(Other().rowsArray, |scrollbackRows|) <==> Other().rowsArray[0].rowIndex == |scrollbackRows|)
    {
      hide RowFits, CursorAt, Cached, View;
      var all, other := All(), Other().rowsArray;
      assert scrollbackRows + screen.rowsArray + other == all + other;
      forall i: nat | i < |all| ensures GetRowNode(i).rowIndex == i {
        assert GetRowNode(i) == all[i];
      }
    }

    /** The loop of `realizeHeight_` that drops empty rows from the bottom of the screen. */
    method DropEmptyRows(cursorRow: int, limit: nat) returns (left: nat)
      requires 0 <= cursorRow < |screen.rowsArray|
      modifies screen`rowsArray
      ensures left <= limit && limit - left == Droppable(old(View(All())), |scrollbackRows| + cursorRow, limit)
      ensures All() == old(All())[..|old(All())| - (limit - left)] && cursorRow < |screen.rowsArray|
      ensures screen.rowsArray == old(screen.rowsArray)[..|screen.rowsArray|]
    {
      hide View, RowCells, RowFits, Store, RowText, Droppable;
      ghost var all, cursor := All(), |scrollbackRows| + cursorRow;
      left := limit;
      assert all[..|all|] == all;
      while left > 0
        invariant left <= limit && cursorRow < |screen.rowsArray| <= |old(screen.rowsArray)|
        invariant screen.rowsArray == old(screen.rowsArray)[..|screen.rowsArray|]
        invariant limit - left <= |all| && All() == all[..|all| - (limit - left)]
        invariant Droppable(View(all), cursor, limit) == limit - left + Droppable(View(All()), cursor, left)
      {
        var lastRow := |scrollbackRows| + |screen.rowsArray| - 1;
        DropStep(All(), cursor, left);
        if lastRow - |scrollbackRows| == cursorRow {
          break;
        }
        if RowText(GetRowNode(lastRow).nodes) != [] {
          break;
        }
        ghost var before := All();
        screen.rowsArray := screen.rowsArray[..|screen.rowsArray| - 1];
        assert All() == before[..|before| - 1];
        left := left - 1;
      }
      DropNothing(View(All()), cursor, left);
    }

    /** The rows that a lower screen gives up: empty ones at the bottom are dropped, others become scrollback. */
    method ShrinkScreen(rowCount: nat, cursorRow: int) returns (row: int)
      requires Store(All(), Other().rowsArray, screenWidth, nextId) && Indexed(All(), 0)
      requires Cached(All(), screen.cursorRowNode, screen.cursorNode, screen.cursorOffset, screen.cursorColumn)
      requires 0 <= cursorRow == screen.cursorRow < |screen.rowsArray| && 0 < rowCount < |screen.rowsArray|
      requires primaryScreen != alternateScreen && (screen == primaryScreen || screen == alternateScreen)
      modifies this`scrollbackRows, screen`rowsArray
      ensures Store(All(), Other().rowsArray, screenWidth, nextId) && Indexed(All(), 0)
      ensures Cached(All(), screen.cursorRowNode, screen.cursorNode, screen.cursorOffset, screen.cursorColumn)
      ensures |screen.rowsArray| == rowCount
      ensures Resized(old(Grid()), rowCount, row)
    {
      hide View, RowCells, RowFits, Store, CursorAt, Cached, Indexed;
      ghost var all, other, g := All(), Other().rowsArray, Grid();
      var deltaRows := |screen.rowsArray| - rowCount;
      ViewLength(all);
      var shifted := DropEmptyRows(cursorRow, deltaRows);
      ghost var kept := |all| - (deltaRows - shifted);
      scrollbackRows := scrollbackRows + screen.rowsArray[..shifted];
      screen.rowsArray := screen.rowsArray[shifted..];
      assert All() == all[0..kept];
      Kept(all, other, screenWidth, nextId, kept, screen.cursorRowNode, screen.cursorNode, screen.cursorOffset,
           screen.cursorColumn);
      row := if cursorRow >= shifted then cursorRow - shifted else 0;
    }

    /** The rows, and the row for the cursor, are those of the resized grid. */
    ghost predicate Resized(g: Grid, rowCount: nat, row: int)
      requires g.top <= |g.entries|
      reads this, screen
    {
      var g' := Resize(g, rowCount);
      View(All()) == g'.entries && |scrollbackRows| == g'.top && row == g'.row && nextId == g'.nextId
    }

    /** The rows that a higher screen gets: scrollback if there is enough of it, blank rows otherwise. */
    method GrowScreen(rowCount: nat, cursorRow: int) returns (row: int)
      requires Core() && |screen.rowsArray| < rowCount == screenHeight && cursorRow == screen.cursorRow
      modifies this`scrollbackRows, this`nextId, screen
      ensures Steady() && CurrentModes() == old(CurrentModes())
      ensures old(|scrollbackRows| <= |View(All())|) && Resized(old(Grid()), rowCount, row)
    {
      hide Inactive, Store, View, RowCells, CursorAt, Cached, Settled;
      ViewLength(All());
      var deltaRows := rowCount - |screen.rowsArray|;
      row := cursorRow;
      if deltaRows <= |scrollbackRows| {
        ghost var all := All();
        var scrollbackCount := Min(deltaRows, |scrollbackRows|);
        var at := |scrollbackRows| - scrollbackCount;
        screen.rowsArray := scrollbackRows[at..] + screen.rowsArray;
        scrollbackRows := scrollbackRows[..at];
        assert All() == all;
        deltaRows := deltaRows - scrollbackCount;
        row := row + scrollbackCount;
      }
      if deltaRows > 0 {
        AppendRows(deltaRows);
      }
    }

    /** `realizeHeight_`: a change of height ends the scroll region, and conserves the content of the grid. */
    method RealizeHeight(rowCount: nat)
      requires Core() && Settled(screen, screenWidth) && rowCount > 0
      requires |screen.rowsArray| == screenHeight || rowCount == screenHeight
      modifies this`screenHeight, this`scrollbackRows, this`nextId, this`vtScrollTop, this`vtScrollBottom, screen
      ensures Valid() && screenHeight == rowCount
      ensures CurrentModes() == if rowCount == |old(screen.rowsArray)| then old(CurrentModes())
                                else old(CurrentModes()).(height := rowCount, regionTop := None, regionBottom := None)
      ensures var g := Resize(old(Grid()), rowCount);
              Grid() == g.(row := Min(g.row, rowCount - 1))
      ensures rowCount > |old(screen.rowsArray)| ==>
        (|scrollbackRows| < |old(scrollbackRows)| <==> rowCount - |old(screen.rowsArray)| <= |old(scrollbackRows)|)
    {
      hide Inactive, Store, View, RowCells, CursorAt, Cached, Droppable;
      ViewLength(All());
      var deltaRows := rowCount - |screen.rowsArray|;
      if deltaRows == 0 {
        return;
      }
      ChangeHeight(rowCount, deltaRows);
    }

    /** Give the screen its new height, and end the scroll region; `row` is where the cursor belongs. */
    method FitScreen(rowCount: nat, delta: int) returns (row: int)
      requires Core() && Settled(screen, screenWidth) && rowCount > 0 && delta == rowCount - |screen.rowsArray| != 0
      requires delta > 0 ==> screenHeight <= rowCount
      modifies this`screenHeight, this`scrollbackRows, this`nextId, this`vtScrollTop, this`vtScrollBottom, screen
      ensures Steady() && screenHeight == rowCount
      ensures CurrentModes() == old(CurrentModes()).(height := rowCount, regionTop := None, regionBottom := None)
      ensures old(|scrollbackRows| <= |View(All())|) && Resized(old(Grid()), rowCount, row)
    {
      hide Inactive, Store, View, RowCells, CursorAt, Cached, Indexed, Resize, NodeOk, RowsOk;
      SettledCursor(screen, screenWidth);
      ViewLength(All());
      screenHeight := rowCount;
      if delta < 0 {
        row := ShrinkScreen(rowCount, screen.cursorRow);
      } else {
        row := GrowScreen(rowCount, screen.cursorRow);
      }
      SetVTScrollRegion(None, None);
    }

    method ChangeHeight(rowCount: nat, delta: int)
      requires Core() && Settled(screen, screenWidth) && rowCount > 0 && delta == rowCount - |screen.rowsArray| != 0
      requires delta > 0 ==> screenHeight <= rowCount
      modifies this`screenHeight, this`scrollbackRows, this`nextId, this`vtScrollTop, this`vtScrollBottom, screen
      ensures Valid() && screenHeight == rowCount
      ensures CurrentModes() == old(CurrentModes()).(height := rowCount, regionTop := None, regionBottom := None)
      ensures var g := Resize(old(Grid()), rowCount);
              Grid() == g.(row := Min(g.row, rowCount - 1))
    {
      hide Inactive, Store, View, RowCells, CursorAt, Cached, Indexed, Settled, Resize, NodeOk, RowsOk, OtherOk;
      SettledCursor(screen, screenWidth);
      ViewLength(All());
      ResizeKeepsColumn(Grid(), rowCount);
      var cursor := SaveCursor();
      var row := FitScreen(rowCount, delta);
      RestoreCursor(cursor.(row := row));
    }

    /** What makes a screen a settled one, apart from the indices of its rows. */
    static ghost predicate SettledOn(s: Screen, rows: seq<Row>, width: nat)
      reads s`cursorRow, s`cursorColumn, s`cursorOverflow, s`cursorRowNode, s`cursorNode, s`cursorOffset, s`columnCount
    {
      (s.cursorOverflow ==> s.cursorColumn == width - 1) &&
      if rows == [] then s.cursorRowNode == None && s.cursorRow == 0 && s.cursorColumn == 0
      else
        s.columnCount > 0 && RowsOk(rows) && DistinctIds(rows) && 0 <= s.cursorRow < |rows| &&
        Some(rows[s.cursorRow].id) == s.cursorRowNode && 0 <= s.cursorColumn < width &&
        CursorAt(rows[s.cursorRow].nodes, s.cursorNode, s.cursorOffset, s.cursorColumn)
    }

    static lemma SettledMeans(s: Screen, width: nat)
      ensures Settled(s, width) <==> SettledOn(s, s.rowsArray, width)
      ensures s.rowsArray != [] ==>
        (Settled(s, width) <==>
         s.Valid() && 0 <= s.cursorColumn < width &&
         (s.cursorOverflow ==> s.cursorColumn == width - 1))
    {
      hide CursorAt, RowsOk, DistinctIds;
    }

    static lemma SettledReindexed(s: Screen, rows: seq<Row>, width: nat)
      requires SettledOn(s, rows, width) && SameButIndex(rows, s.rowsArray)
      ensures Settled(s, width) && |s.rowsArray| == |rows|
    {
      hide SameButIndex, CursorAt, RowsOk, DistinctIds;
      SameRows(rows, s.rowsArray);
    }

    static lemma SettledCursor(s: Screen, width: nat)
      requires Settled(s, width) && width > 0
      ensures 0 <= s.cursorColumn < width && (s.cursorOverflow ==> s.cursorColumn == width - 1)
      ensures if s.rowsArray == [] then s.cursorRow == 0 else 0 <= s.cursorRow < |s.rowsArray|
    {
    }

    /** `realizeWidth_`, for the width that the terminal has. */
    method RealizeWidth(columnCount: nat)
      requires columnCount == screenWidth && screen.cursorColumn < columnCount
      modifies screen`columnCount
      ensures screen.columnCount == screenWidth
    {
      if screen.columnCount != columnCount {
        screen.columnCount := columnCount;
      }
    }

    /** The rows of a screen that comes back are renumbered if the first of them is out of place. */
    method RenumberIfStale()
      requires screen.rowsArray != [] ==> Indexed(screen.rowsArray, screen.rowsArray[0].rowIndex)
      modifies screen`rowsArray
      ensures SameButIndex(old(screen.rowsArray), screen.rowsArray) && Indexed(screen.rowsArray, |scrollbackRows|)
    {
      if screen.rowsArray != [] && screen.rowsArray[0].rowIndex != |scrollbackRows| {
        RenumberRows(0, |screen.rowsArray|, screen);
      }
    }

    /**
     `setAlternateMode`.  The other screen comes back with the rows it had, resized to the current
     height; the screen that leaves keeps its rows; the cursor stays where it is.
     */
    method SetAlternateMode(state: bool)
      requires Valid()
      modifies this, primaryScreen, alternateScreen
      ensures Valid() && screen == (if state then alternateScreen else primaryScreen)
      ensures screen == old(screen) ==> unchanged(this) && unchanged(primaryScreen) && unchanged(alternateScreen)
      ensures screen != old(screen) ==>
        var m, g := old(CurrentModes()), old(Grid());
        Other() == old(screen) && Other().rowsArray == old(screen.rowsArray) &&
        Grid() == Resize(old(OtherGrid()), m.height).(row := g.row, column := g.column, overflow := g.overflow) &&
        CurrentModes()
          == (if |old(Other().rowsArray)| == m.height then m else m.(regionTop := None, regionBottom := None))
                            .(attributes := old(Other().textAttributes))
      ensures screen != old(screen) && |old(Other().rowsArray)| < screenHeight ==>
        (|scrollbackRows| < |old(scrollbackRows)| <==> screenHeight - |old(Other().rowsArray)| <= |old(scrollbackRows)|)
    {
      hide Inactive, Store, View, RowCells, CursorAt, Cached, Resize, Indexed, Settled, RowsOk, DistinctIds, OtherOk;
      if state == (screen == alternateScreen) {
        return;
      }
      var cursor := SaveCursor();
      SwapScreens(state);
      RealizeHeight(screenHeight);
      RestoreCursor(cursor);
    }

    /** What the grid would be with the other screen in place, whatever its height. */
    ghost function OtherGrid(): Grid
      reads this, primaryScreen, alternateScreen
    {
      var s := Other();
      Grids.Grid(View(scrollbackRows + s.rowsArray), |scrollbackRows|, s.cursorRow, s.cursorColumn, s.cursorOverflow,
                 nextId)
    }

    method SwapScreens(state: bool)
      requires Valid() && state != (screen == alternateScreen)
      modifies this`screen, primaryScreen`rowsArray, primaryScreen`columnCount, alternateScreen`rowsArray
      modifies alternateScreen`columnCount
      ensures screen == old(Other()) && Other() == old(screen) && unchanged(Other())
      ensures Core() && Settled(screen, screenWidth) && |screen.rowsArray| == |old(Other().rowsArray)| &&
        Grid() == old(OtherGrid())
      ensures CurrentModes() == old(CurrentModes()).(attributes := old(Other().textAttributes))
    {
      hide Store, View, RowCells, CursorAt, Cached, Indexed;
      TakeScreen(state);
      RealizeWidth(screenWidth);
    }

    method TakeScreen(state: bool)
      requires Valid() && state != (screen == alternateScreen)
      modifies this`screen, primaryScreen`rowsArray, alternateScreen`rowsArray
      ensures screen == old(Other()) && Other() == old(screen) && unchanged(Other())
      ensures OtherOk() && Settled(screen, screenWidth) && PlainAttributes(screen) &&
        (screen.columnCount == screenWidth || screen.rowsArray == [])
      ensures Store(All(), Other().rowsArray, screenWidth, nextId) && Indexed(All(), 0)
      ensures Cached(All(), screen.cursorRowNode, screen.cursorNode, screen.cursorOffset, screen.cursorColumn)
      ensures |screen.rowsArray| == |old(Other().rowsArray)| && Grid() == old(OtherGrid())
    {
      hide Store, View, RowCells, CursorAt, Cached, Settled, SettledOn, SameButIndex, Indexed;
      ghost var all, leaving, coming := All(), screen, Other();
      ghost var rows, other := coming.rowsArray, leaving.rowsArray;
      StoreSwap(all, rows, screenWidth, nextId, |scrollbackRows|);
      SettledMeans(leaving, screenWidth);
      SettledMeans(coming, screenWidth);
      ScreenIndexed(scrollbackRows, other);
      screen := if state then alternateScreen else primaryScreen;
      RenumberIfStale();
      SettledReindexed(coming, rows, screenWidth);
      assert all[..|scrollbackRows|] == scrollbackRows && all[|scrollbackRows|..] == other;
      ReindexedScreen(scrollbackRows, rows, coming.rowsArray, other, screenWidth, nextId);
      StoreFacts(All(), other, screenWidth, nextId);
      CachedBySettled(coming, scrollbackRows, screenWidth);
    }

    /** The cursor cache of a settled screen is right about the rows behind any scrollback. */
    static lemma CachedBySettled(s: Screen, scrollback: seq<Row>, width: nat)
      requires Settled(s, width) && DistinctIds(scrollback + s.rowsArray)
      ensures Cached(scrollback + s.rowsArray, s.cursorRowNode, s.cursorNode, s.cursorOffset, s.cursorColumn)
    {
      hide CursorAt, Cached, RowsOk;
      var all := scrollback + s.rowsArray;
      if s.rowsArray == [] {
        CachedNone(all, s.cursorNode, s.cursorOffset, s.cursorColumn);
      } else {
        CachedOne(all, |scrollback| + s.cursorRow, s.cursorNode, s.cursorOffset, s.cursorColumn);
      }
    }

    /** `clearScrollback`: only the scrollback is lost, and the rows of both screens are renumbered. */
    method ClearScrollback()
      requires Valid()
      modifies this`scrollbackRows, primaryScreen`rowsArray, alternateScreen`rowsArray
      ensures Valid() && CurrentModes() == old(CurrentModes())
      ensures GridOk(old(Grid()), CurrentModes()) && Grid() == Grids.ClearScrollback(old(Grid()))
      ensures scrollbackRows == [] && SameButIndex(old(screen.rowsArray), screen.rowsArray)
      ensures SameButIndex(old(Other().rowsArray), Other().rowsArray) && Indexed(Other().rowsArray, 0)
    {
      hide Store, View, RowCells, CursorAt, Cached, SameButIndex, RowsOk, DistinctIds, GridOk, Indexed, Settled;
      hide SettledOn, Screen.Valid;
      ValidGrid();
      ghost var active, inactive, n := screen, Other(), |scrollbackRows|;
      ghost var all, rows, other := All(), active.rowsArray, inactive.rowsArray;
      SettledMeans(active, screenWidth);
      SettledMeans(inactive, screenWidth);
      assert all[n..|all|] == rows;
      scrollbackRows := [];
      RenumberScreens();
      assert All() == active.rowsArray;
      ReindexedBoth(all, other, screenWidth, nextId, n, All(), inactive.rowsArray,
                    active.cursorRowNode, active.cursorNode, active.cursorOffset, active.cursorColumn);
      SettledReindexed(active, rows, screenWidth);
      SettledReindexed(inactive, other, screenWidth);
      SettledMeans(active, screenWidth);
      IndexedStart(inactive.rowsArray);
    }

    method RenumberScreens()
      requires scrollbackRows == [] && primaryScreen != alternateScreen &&
        (screen == primaryScreen || screen == alternateScreen)
      modifies primaryScreen`rowsArray, alternateScreen`rowsArray
      ensures SameButIndex(old(screen.rowsArray), screen.rowsArray) && Indexed(screen.rowsArray, 0)
      ensures SameButIndex(old(Other().rowsArray), Other().rowsArray) && Indexed(Other().rowsArray, 0)
    {
      RenumberRows(0, |primaryScreen.rowsArray|, primaryScreen);
      RenumberRows(0, |alternateScreen.rowsArray|, alternateScreen);
    }

    // ---------------------------------------------------------------- erasing

    /** Spaces over the cells at the cursor. */
    method OverwriteSpaces(count: nat)
      requires Valid() && 0 < count <= screenWidth - screen.cursorColumn && !screen.CursorPastEmptySpan()
      modifies screen
      ensures Steady() && CurrentModes() == old(CurrentModes()) && screen.cursorRow == old(screen.cursorRow)
      ensures GridOk(old(Grid()), CurrentModes())
      ensures var m, g, column := CurrentModes(), old(Grid()), old(screen.cursorColumn);
              View(All()) == SetLine(g, Overwrite(LineAt(g), column, SpaceCells(m, count), m.Mark())).entries
    {
      hide Inactive, Store, View, RowCells, TextCells, CursorAt, Cached, GridOk, Insert, Delete, Overwrite, Paired;
      hide SpaceCells;
      CursorRowFits();
      ghost var line, column, cells, mark :=
        screen.CursorLine(), screen.cursorColumn, SpaceCells(CurrentModes(), count), CurrentModes().Mark();
      NarrowWidth(Spaces(count));
      SpacesAreCells(CurrentModes(), count);
      SpacesAreCells(CurrentModes(), 1);
      SameMark(CurrentModes(), true);
      DeleteInsertIsOverwrite(line, column, cells, mark);
      OverwritePaired(line, column, cells, mark);
      SpaceCellsMean(CurrentModes(), count);
      screen.OverwriteString(Spaces(count));
      RowEdited();
    }

    /** Remove cells at the cursor. */
    method DeleteCells(count: nat) returns (deleted: nat)
      requires Valid() && (count > 0 ==> !screen.CursorPastEmptySpan())
      modifies screen
      ensures Steady() && screen.Valid() && CurrentModes() == old(CurrentModes()) && SaveCursor() == old(SaveCursor())
      ensures GridOk(old(Grid()), CurrentModes())
      ensures deleted == Min(count, screenWidth - screen.cursorColumn)
      ensures var m, g := CurrentModes(), old(Grid());
              View(All()) == SetLine(g, Delete(LineAt(g), screen.cursorColumn, deleted, m.Mark())).entries
    {
      hide Inactive, Store, View, RowCells, TextCells, CursorAt, Cached, GridOk, Delete, Paired, SpaceCells;
      CursorRowFits();
      SameMark(CurrentModes(), true);
      SpacesAreCells(CurrentModes(), 1);
      DeletePaired(screen.CursorLine(), screen.cursorColumn, Min(count, screenWidth - screen.cursorColumn),
                   CurrentModes().Mark());
      deleted := screen.DeleteChars(count);
      RowEdited();
    }

    /** `eraseToLeft`. */
    method EraseToLeft()
      requires Valid()
      modifies screen
      ensures Valid() && CurrentModes() == old(CurrentModes())
      ensures GridOk(old(Grid()), CurrentModes()) && Grid() == Grids.EraseToLeft(old(Grid()), CurrentModes())
    {
      hide Inactive, Store, View, RowCells, CursorAt, Cached, GridOk, Overwrite, SpaceCells;
      ValidGrid();
      var cursor := SaveCursor();
      SetAbsoluteCursorPosition(screen.cursorRow, 0);
      screen.FirstColumnIsEasy();
      OverwriteSpaces(cursor.column + 1);
      RestoreCursor(cursor);
    }

    /** `eraseToRight`; a count of zero stands for no count. */
    method EraseToRight(count: nat)
      requires Valid() && (screen.cursorOverflow || !screen.CursorPastEmptySpan())
      modifies screen
      ensures Valid() && CurrentModes() == old(CurrentModes())
      ensures GridOk(old(Grid()), CurrentModes()) && Grid() == Grids.EraseToRight(old(Grid()), CurrentModes(), count)
    {
      hide Inactive, Store, View, RowCells, CursorAt, Cached, GridOk, Overwrite, SpaceCells, Delete;
      hide Core, RowsOk, DistinctIds;
      CursorRowFits();
      if screen.cursorOverflow {
        return;
      }
      var maxCount := screenWidth - screen.cursorColumn;
      var n := if count == 0 then maxCount else Min(count, maxCount);
      if screen.textAttributes.Background() == DefaultColor {
        RowTextWidth(screen.Nodes());
        if StrWidth(RowText(screen.Nodes())) <= screen.cursorColumn + n {
          var _ := DeleteCells(n);
          ClearCursorOverflow();
          return;
        }
      }
      var cursor := SaveCursor();
      OverwriteSpaces(n);
      RestoreCursor(cursor);
      ClearCursorOverflow();
    }

    /** `eraseLine`. */
    method EraseLine()
      requires Valid()
      modifies screen
      ensures Valid() && CurrentModes() == old(CurrentModes())
      ensures GridOk(old(Grid()), CurrentModes()) && Grid() == Grids.EraseLine(old(Grid()), CurrentModes())
    {
      hide Inactive, Store, View, RowCells, CursorAt, Cached, GridOk;
      ValidGrid();
      var cursor := SaveCursor();
      ClearedIsNarrow(CurrentModes());
      screen.ClearCursorRow();
      RowEdited();
      RestoreCursor(cursor);
      ClearCursorOverflow();
    }

    /** `eraseAbove`. */
    method EraseAbove()
      requires Valid()
      modifies screen
      ensures Valid() && CurrentModes() == old(CurrentModes())
      ensures GridOk(old(Grid()), CurrentModes()) && Grid() == Grids.EraseAbove(old(Grid()), CurrentModes())
    {
      hide Inactive, Store, View, RowCells, CursorAt, Cached, GridOk, Grids.EraseToLeft, ClearedRange;
      ValidGrid();
      var cursor := SaveCursor();
      ErasedKeeps(Grid(), CurrentModes(), 0);
      EraseToLeft();
      ClearRowsUpward(0, cursor.row);
      RestoreCursor(cursor);
      ClearCursorOverflow();
    }

    /** `eraseBelow`. */
    method EraseBelow()
      requires Valid() && (screen.cursorOverflow || !screen.CursorPastEmptySpan())
      modifies screen
      ensures Valid() && CurrentModes() == old(CurrentModes())
      ensures GridOk(old(Grid()), CurrentModes()) && Grid() == Grids.EraseBelow(old(Grid()), CurrentModes())
    {
      hide Inactive, Store, View, RowCells, CursorAt, Cached, GridOk, Grids.EraseToRight, ClearedRange;
      hide Core, RowsOk, DistinctIds;
      ValidGrid();
      var cursor := SaveCursor();
      ErasedKeeps(Grid(), CurrentModes(), 0);
      EraseToRight(0);
      ClearRowsUpward(cursor.row + 1, screenHeight - cursor.row - 1);
      RestoreCursor(cursor);
      ClearCursorOverflow();
    }

    /** Spaces in front of the cell at the cursor. */
    method InsertSpaces(count: nat)
      requires Valid() && count > 0 && !screen.CursorInsideWide()
      modifies screen
      ensures Steady() && CurrentModes() == old(CurrentModes()) && screen.cursorRow == old(screen.cursorRow)
      ensures GridOk(old(Grid()), CurrentModes())
      ensures var m, g, column := CurrentModes(), old(Grid()), old(screen.cursorColumn);
              View(All()) == SetLine(g, Clip(Insert(LineAt(g), column, SpaceCells(m, count)), m.width)).entries
    {
      hide Inactive, Store, View, RowCells, TextCells, CursorAt, Cached, GridOk, Insert, Clip, RowsOk, DistinctIds;
      CursorRowFits();
      ClipFits(Insert(screen.CursorLine(), screen.cursorColumn, SpaceCells(CurrentModes(), count)), screenWidth);
      screen.InsertString(Spaces(count));
      screen.MaybeClipCurrentRow();
      RowEdited();
    }

    /** `insertSpace`; a count of zero stands for one. */
    method InsertSpace(count: nat)
      requires Valid() && !screen.CursorInsideWide()
      modifies screen
      ensures Valid() && CurrentModes() == old(CurrentModes())
      ensures GridOk(old(Grid()), CurrentModes()) && Grid() == Grids.InsertSpace(old(Grid()), CurrentModes(), count)
    {
      hide Inactive, Store, View, RowCells, TextCells, CursorAt, Cached, GridOk, Insert, Clip, Core, RowsOk;
      hide DistinctIds;
      ValidGrid();
      var cursor := SaveCursor();
      InsertSpaces(if count == 0 then 1 else count);
      RestoreCursor(cursor);
      ClearCursorOverflow();
    }

    /** Spaces in the last columns of a line that does not reach them. */
    method FillAtMargin(count: nat)
      requires Valid() && 0 < count <= screenWidth && |screen.CursorLine()| <= screenWidth - count
      modifies screen
      ensures Steady() && CurrentModes() == old(CurrentModes()) && screen.cursorRow == old(screen.cursorRow)
      ensures GridOk(old(Grid()), CurrentModes())
      ensures View(All())
        == SetLine(old(Grid()),
                   Insert(LineAt(old(Grid())), screenWidth - count, SpaceCells(CurrentModes(), count))).entries
    {
      hide Inactive, Store, View, RowCells, TextCells, CursorAt, Cached, GridOk, Insert, RowsOk, DistinctIds;
      ValidGrid();
      SetAbsoluteCursorPosition(screen.cursorRow, screenWidth - count);
      label positioned:
      CursorRowFits();
      CellsOfNarrow(CurrentModes(), Spaces(count));
      InsertWidth(screen.CursorLine(), screenWidth - count, SpaceCells(CurrentModes(), count));
      screen.InsertString(Spaces(count));
      RowEdited@positioned();
    }

    /** `deleteChars`. */
    method DeleteChars(count: nat)
      requires Valid() && (count > 0 ==> !screen.CursorPastEmptySpan())
      modifies screen
      ensures Valid() && CurrentModes() == old(CurrentModes())
      ensures GridOk(old(Grid()), CurrentModes()) && Grid() == Grids.DeleteChars(old(Grid()), CurrentModes(), count)
    {
      hide Inactive, Store, View, RowCells, TextCells, CursorAt, Cached, GridOk, Insert, Delete, PlainAttributes, Core;
      hide SpaceCells;
      hide RowsOk, DistinctIds;
      CursorRowFits();
      var deleted := DeleteCells(count);
      SpacesAreCells(CurrentModes(), 1);
      DeleteRoom(LineAt(old(Grid())), screen.cursorColumn, deleted, CurrentModes().Mark(), screenWidth);
      CursorRowFits();
      if deleted > 0 && !screen.textAttributes.IsDefault() {
        var cursor := SaveCursor();
        FillAtMargin(deleted);
        RestoreCursor(cursor);
      }
      ClearCursorOverflow();
    }

  }

  lemma ViewLast(rows: seq<Row>)
    requires rows != []
    ensures View(rows) != [] && |View(rows)| == |rows|
    ensures View(rows)[|rows| - 1].line == [] <==> RowText(rows[|rows| - 1].nodes) == []
  {
    var nodes := rows[|rows| - 1].nodes;
    RowTextWidth(nodes);
    EmptyText(RowText(nodes));
  }

  /** One turn of the loop that drops empty rows. */
  lemma DropStep(rows: seq<Row>, cursor: int, left: nat)
    requires rows != [] && left > 0
    ensures var stop := |rows| - 1 == cursor || RowText(rows[|rows| - 1].nodes) != [];
            Droppable(View(rows), cursor, left)
            == if stop then 0 else 1 + Droppable(View(rows[..|rows| - 1]), cursor, left - 1)
  {
    hide View, RowText;
    ViewLast(rows);
    ViewSlice(rows, 0, |rows| - 1);
    assert rows[0..|rows| - 1] == rows[..|rows| - 1];
    assert View(rows)[0..|rows| - 1] == View(rows)[..|View(rows)| - 1];
  }

  lemma DropNothing(entries: seq<Entry>, cursor: int, left: nat)
    ensures left == 0 ==> Droppable(entries, cursor, left) == 0
  {
  }

  lemma EmptyText(text: Text)
    ensures text == [] <==> StrWidth(text) == 0
  {
    if text != [] {
      assert text[0].Wide? || text[0].Narrow?;
    }
  }

  /** The first rows of a list, without the rest. */
  lemma Kept(all: seq<Row>, other: seq<Row>, width: nat, nextId: nat, kept: nat,
             cursorRowNode: Option<nat>, node: int, offset: int, column: int)
    requires Store(all, other, width, nextId) && Indexed(all, 0) && kept <= |all|
    requires Cached(all, cursorRowNode, node, offset, column)
    ensures Store(all[0..kept], other, width, nextId) && Indexed(all[0..kept], 0)
    ensures Cached(all[0..kept], cursorRowNode, node, offset, column)
    ensures kept <= |View(all)| && View(all[0..kept]) == View(all)[..kept]
  {
    hide Store, View, Cached;
    StoreSlice(all, other, width, nextId, 0, kept);
    CachedSlice(all, kept, cursorRowNode, node, offset, column);
    ViewSlice(all, 0, kept);
    ViewLength(all);
  }

  /** The rows of a screen with new indices, behind the scrollback. */
  lemma ReindexedScreen(scrollback: seq<Row>, rows: seq<Row>, rows': seq<Row>, other: seq<Row>, width: nat, nextId: nat)
    requires Store(scrollback + rows, other, width, nextId) && SameButIndex(rows, rows')
    requires Indexed(scrollback, 0) && Indexed(rows', |scrollback|)
    ensures Store(scrollback + rows', other, width, nextId) && Indexed(scrollback + rows', 0)
    ensures View(scrollback + rows') == View(scrollback + rows)
  {
    hide Store, View;
    StoreReindexed(scrollback + rows, other, width, nextId, scrollback + rows');
    SameView(scrollback + rows, scrollback + rows');
  }

  lemma ScreenIndexed(scrollback: seq<Row>, rows: seq<Row>)
    requires Indexed(scrollback + rows, 0)
    ensures Indexed(scrollback, 0) && Indexed(rows, |scrollback|) && (rows != [] ==> rows[0].rowIndex == |scrollback|)
  {
    forall i | 0 <= i < |scrollback| ensures scrollback[i].rowIndex == i {
      assert (scrollback + rows)[i] == scrollback[i];
    }
    forall i | 0 <= i < |rows| ensures rows[i].rowIndex == |scrollback| + i {
      assert (scrollback + rows)[|scrollback| + i] == rows[i];
    }
  }

  lemma IndexedStart(rows: seq<Row>)
    requires Indexed(rows, 0)
    ensures rows != [] ==> rows[0].rowIndex == 0
  {
  }

  lemma SpaceCellsMean(m: Modes, count: nat)
    ensures SpaceCells(m, count) == TextCells(Spaces(count), m.attributes.ContainerStyle())
  {
  }

  lemma RestOfText(str: Text, start: nat, count: nat)
    requires start + count <= |str|
    ensures str[start..start + count] == str[start..][..count] && str[start + count..] == str[start..][count..]
    ensures start == 0 ==> str[start..] == str
    ensures start + count == |str| ==> str[start + count..] == []
    ensures |str[start..]| == |str| - start
  {
  }

  lemma ClippedText(str: Text, start: nat, count: nat)
    requires 0 < count && start + count <= |str|
    ensures var rest := str[start..];
            str[start..start + count - 1] + str[|str| - 1..] == rest[..count - 1] + [rest[|rest| - 1]]
  {
  }

  lemma PutNothing(g: Grid, m: Modes, text: Text)
    requires GridOk(g, m) && text == []
    ensures PutAll(g, m, text) == g
  {
  }

  lemma NewLineColumn(g: Grid, m: Modes)
    requires GridOk(g, m)
    ensures Grids.NewLine(g, m).column == 0 && !Grids.NewLine(g, m).overflow
  {
  }

  lemma ClipWidth(line: Line, column: nat, cells: Line, m: Modes)
    ensures Min(column + |cells|, m.width - 1) <= |PutCells(line, column, cells, m)| <= m.width
  {
  }

  /** Taking the top row off the screen and putting a row in at `k` is inserting it in the global list. */
  lemma InsertedRowPlace(scrollback: seq<Row>, rows: seq<Row>, k: nat, row: Row)
    requires k < |rows|
    ensures var all := scrollback + rows;
            var at := |scrollback| + k + 1;
            scrollback + [rows[0]] + (rows[1..][..k] + [row] + rows[1..][k..]) == all[..at] + [row] + all[at..]
  {
  }

  /** After renumbering from the new row on, every row of the global list knows its position. */
  lemma ReindexedTail(scrollback: seq<Row>, all: seq<Row>, at: nat, row: Row, rows: seq<Row>, mid: seq<Row>, k: nat)
    requires Indexed(all, 0) && at <= |all| && at == |scrollback| + k
    requires mid == all[..at] + [row] + all[at..] && |mid| == |scrollback + rows| && mid[..|scrollback|] == scrollback
    requires SameButIndex(mid[|scrollback|..], rows)
    requires forall i :: 0 <= i < |rows| ==>
      rows[i].rowIndex == if k <= i then |scrollback| + i else mid[|scrollback| + i].rowIndex
    ensures Indexed(scrollback + rows, 0) && SameButIndex(mid, scrollback + rows)
  {
    var all' := scrollback + rows;
    forall i | 0 <= i < |all'| ensures all'[i].rowIndex == i && all'[i] == mid[i].(rowIndex := all'[i].rowIndex) {
      if i < |scrollback| {
        assert scrollback[i] == mid[i] == all[i];
      } else {
        assert all'[i] == rows[i - |scrollback|];
        assert mid[|scrollback|..][i - |scrollback|] == mid[i];
        if i < at { assert mid[i] == all[i]; }
      }
    }
  }

  lemma MovedMeans(rows: seq<Row>, from: nat, n: nat, rows': seq<Row>)
    requires from + n <= |rows|
    requires SameButIndex(Moved(rows, from, n, from), rows) && SameButIndex(Moved(rows, from, n, from), rows')
    ensures SameButIndex(rows, rows')
  {
    hide Moved;
    forall i | 0 <= i < |rows| ensures rows'[i] == rows[i].(rowIndex := rows'[i].rowIndex) {
      assert rows[i] == Moved(rows, from, n, from)[i].(rowIndex := rows[i].rowIndex);
    }
  }

  lemma SameRowsSameCursor(rows: seq<Row>, rows': seq<Row>, k: int)
    requires SameButIndex(rows, rows') && 0 <= k < |rows|
    ensures rows'[k].id == rows[k].id && rows'[k].nodes == rows[k].nodes
  {
  }

  lemma MovedNothing(rows: seq<Row>, from: nat, n: nat)
    requires from + n <= |rows|
    ensures SameButIndex(Moved(rows, from, n, from), rows)
  {
    forall i | 0 <= i < |rows| ensures Moved(rows, from, n, from)[i] == rows[i] {
      MovedAt(rows, from, n, from, i);
    }
  }

  lemma EditedFits(row: Row, width: nat)
    requires RowOk(row.nodes) && row.nodes != [] && |RowCells(row.nodes)| <= width
    ensures RowFits(row, width)
  {
  }

  lemma MovedIs(rows: seq<Row>, from: nat, count: nat, to: nat, rows': seq<Row>)
    requires from + count <= |rows| && to + count <= |rows|
    requires var rest := rows[..from] + rows[from + count..];
             rows' == rest[..to] + rows[from..from + count] + rest[to..]
    ensures rows' == Moved(rows, from, count, to)
  {
  }

  lemma MovedIndexed(scrollback: seq<Row>, rows: seq<Row>, from: nat, count: nat, to: nat, rows': seq<Row>, start: nat,
                     end: nat)
    requires from + count <= |rows| && to + count <= |rows| && |rows'| == |rows|
    requires start == (if from < to then from else to) && end == (if from < to then to else from) + count
    requires Indexed(scrollback + rows, 0)
    requires forall i :: 0 <= i < |rows'| ==>
      rows'[i].rowIndex == if start <= i < end then |scrollback| + i else Moved(rows, from, count, to)[i].rowIndex
    ensures Indexed(scrollback + rows', 0)
  {
    hide Moved;
    forall i | 0 <= i < |rows'| ensures rows'[i].rowIndex == |scrollback| + i {
      MovedAt(rows, from, count, to, i);
      assert (scrollback + rows)[|scrollback| + i].rowIndex == |scrollback| + i;
    }
    forall i | 0 <= i < |scrollback| ensures scrollback[i].rowIndex == i {
      assert (scrollback + rows)[i].rowIndex == i;
    }
  }

  lemma ScreenRows(scrollback: seq<Row>, rows: seq<Row>, other: seq<Row>, width: nat, nextId: nat)
    requires Store(scrollback + rows, other, width, nextId)
    ensures DistinctIds(rows) && RowsOk(rows)
    ensures forall i :: 0 <= i < |rows| ==> rows[i] == (scrollback + rows)[|scrollback| + i]
  {
    hide RowCells;
    forall i | 0 <= i < |rows| ensures RowOk(rows[i].nodes) && rows[i].nodes != [] {
      assert RowFits((scrollback + rows)[|scrollback| + i], width);
    }
    forall i, j | 0 <= i < j < |rows| ensures rows[i].id != rows[j].id {
      assert (scrollback + rows)[|scrollback| + i].id != (scrollback + rows)[|scrollback| + j].id;
    }
  }
}
