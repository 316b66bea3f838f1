/**
 What the grid terminal keeps over any run of commands, and what its line and erase commands mean line
 by line and cell by cell.
 */
module GridRuns {
  import opened Common
  import opened TextAttributes
  import opened Cells
  import opened Grids
  import opened GridTheory

  // ---------------------------------------------------------------- cells

  /** The cell shown at a column.  A line that stops short shows blanks. */
  function At(line: Line, column: nat): Cell {
    if column < |line| then line[column] else BLANK
  }

  /** A space in the current attributes. */
  function SpaceCell(m: Modes): Cell {
    Paint(SPACE, m.attributes.ContainerStyle())[0]
  }

  lemma {:induction false} SpacesAre(count: nat, style: Style)
    ensures |TextCells(Spaces(count), style)| == count
    ensures forall i :: 0 <= i < count ==> TextCells(Spaces(count), style)[i] == Paint(SPACE, style)[0]
  {
    if count > 0 {
      assert Spaces(count)[1..] == Spaces(count - 1);
      SpacesAre(count - 1, style);
    }
  }

  /** The columns from `from` up to `to` go: does the cell at a column lose the other half of its glyph? */
  predicate LosesHalf(line: Line, from: nat, to: nat, column: nat) {
    (column + 1 == from && At(line, column).half.LeftHalf?) || (column == to && At(line, column).half.RightHalf?)
  }

  lemma OverwriteAt(line: Line, column: nat, cells: Line, mark: Line, i: nat)
    requires |mark| == 1 && cells != []
    ensures At(Overwrite(line, column, cells, mark), i)
         == if column <= i < column + |cells| then cells[i - column]
            else if LosesHalf(line, column, column + |cells|, i) then mark[0] else At(line, i)
  {
    hide MendEnd, MendStart, Behind, Pad;
    var head, tail := MendEnd(Pad(line, column)[..column], mark), MendStart(Behind(line, column + |cells|), mark);
    HeadLength(line, column, mark);
    HeadAt(line, column, mark, i);
    if i >= column + |cells| {
      TailAt(line, column + |cells|, mark, i - column - |cells|);
      assert i < |head + cells + tail| ==> (head + cells + tail)[i] == tail[i - column - |cells|];
    }
  }

  lemma HeadAt(line: Line, column: nat, mark: Line, i: nat)
    requires |mark| == 1
    ensures |Pad(line, column)| >= column
    ensures var mended := MendEnd(Pad(line, column)[..column], mark);
            i < column ==>
              At(mended, i) == if i + 1 == column && At(line, i).half.LeftHalf? then mark[0] else At(line, i)
  {
  }

  lemma TailAt(line: Line, column: nat, mark: Line, i: nat)
    requires |mark| == 1
    ensures At(MendStart(Behind(line, column), mark), i)
         == if i == 0 && At(line, column).half.RightHalf? then mark[0] else At(line, column + i)
  {
  }

  /** The mark is one space. */
  lemma MarkIsSpace(m: Modes)
    ensures m.Mark() == [SpaceCell(m)]
  {
    SpacesAre(1, m.attributes.ContainerStyle());
  }

  lemma EraseToLeftShows(g: Grid, m: Modes, i: nat)
    requires GridOk(g, m)
    ensures At(LineAt(EraseToLeft(g, m)), i)
         == if i <= g.column || LosesHalf(LineAt(g), 0, g.column + 1, i) then SpaceCell(m) else At(LineAt(g), i)
  {
    hide Overwrite, SpaceCell;
    var cells := SpaceCells(m, g.column + 1);
    SpaceCellsAre(m, g.column + 1);
    MarkIsSpace(m);
    OverwriteAt(LineAt(g), 0, cells, m.Mark(), i);
  }

  /** Where erasing to the right ends: without a count, or with one that is too large, at the margin. */
  function EraseEnd(g: Grid, m: Modes, count: nat): int {
    if count == 0 then m.width else Min(g.column + count, m.width)
  }

  /** With the default background a line that is erased up to its end is cut off, so that blanks show. */
  predicate CutsOff(g: Grid, m: Modes, count: nat)
    requires GridOk(g, m)
  {
    m.attributes.Background() == DefaultColor && |LineAt(g)| <= EraseEnd(g, m, count)
  }

  /** What erasing to the right shows at a column. */
  lemma EraseToRightAt(g: Grid, m: Modes, count: nat, i: nat)
    requires GridOk(g, m) && !g.overflow
    ensures At(LineAt(EraseToRight(g, m, count)), i)
         == if g.column <= i < EraseEnd(g, m, count) then if CutsOff(g, m, count) then BLANK else SpaceCell(m)
            else if LosesHalf(LineAt(g), g.column, EraseEnd(g, m, count), i) then SpaceCell(m)
            else At(LineAt(g), i)
  {
    hide Overwrite, Delete, SpaceCells, LosesHalf, At;
    var line, n := LineAt(g), EraseCount(g, m, count);
    assert g.column + n == EraseEnd(g, m, count) && n > 0;
    MarkIsSpace(m);
    if CutsLine(g, m, count) {
      CutAt(line, g.column, n, m.Mark(), i);
    } else {
      SpaceCellsAre(m, n);
      OverwriteAt(line, g.column, SpaceCells(m, n), m.Mark(), i);
    }
  }

  /**
   Exactly the columns from the cursor up to `EraseEnd` show a space in the current attributes, and so
   does what is left of a wide glyph that loses a half.
   */
  ghost predicate ErasesRight(g: Grid, m: Modes, count: nat)
    requires GridOk(g, m)
  {
    var end := EraseEnd(g, m, count);
    forall i: nat :: At(LineAt(EraseToRight(g, m, count)), i)
                  == if g.column <= i < end || LosesHalf(LineAt(g), g.column, end, i) then SpaceCell(m)
                     else At(LineAt(g), i)
  }

  /**
   Cutting the line off instead of writing spaces over its end shows the same, exactly if the current
   attributes draw nothing on a space: the guard of the shortcut looks at the background alone.
   */
  lemma EraseToRightShows(g: Grid, m: Modes, count: nat)
    requires GridOk(g, m) && !g.overflow
    ensures ErasesRight(g, m, count) <==>
      !CutsOff(g, m, count) ||
      (m.attributes.underline == 0 && !m.attributes.strikethrough && m.attributes.tileData == None)
  {
    hide At, LosesHalf, EraseToRight, SpaceCell;
    CharactersEditLine(g, m, count);
    forall i: nat
      ensures At(LineAt(EraseToRight(g, m, count)), i)
           == if g.column <= i < EraseEnd(g, m, count) then if CutsOff(g, m, count) then BLANK else SpaceCell(m)
              else if LosesHalf(LineAt(g), g.column, EraseEnd(g, m, count), i) then SpaceCell(m)
              else At(LineAt(g), i)
    {
      EraseToRightAt(g, m, count, i);
    }
    BlankSpace(m);
    assert g.column < EraseEnd(g, m, count);
    if CutsOff(g, m, count) && SpaceCell(m) != BLANK {
      EraseToRightAt(g, m, count, g.column);
    }
  }

  /** A space in the current attributes on the default background is blank, if no line and no tile is drawn on it. */
  lemma BlankSpace(m: Modes)
    ensures m.attributes.Background() == DefaultColor ==>
      (SpaceCell(m) == BLANK <==>
       m.attributes.underline == 0 && !m.attributes.strikethrough && m.attributes.tileData == None)
  {
  }

  /** What is shown when the end of a line is cut off. */
  lemma CutAt(line: Line, column: nat, n: nat, mark: Line, i: nat)
    requires Paired(line) && |line| <= column + n && n > 0 && |mark| == 1
    ensures At(Delete(line, column, n, mark), i)
         == if column <= i < column + n then BLANK
            else if LosesHalf(line, column, column + n, i) then mark[0] else At(line, i)
  {
    hide Delete;
    DeleteAt(line, column, n, mark, i);
  }

  /** What is shown when columns are deleted. */
  lemma DeleteAt(line: Line, column: nat, n: nat, mark: Line, i: nat)
    requires Paired(line) && |mark| == 1 && n > 0
    ensures var source := if i < column then i else i + n;
            At(Delete(line, column, n, mark), i)
            == if LosesHalf(line, column, column + n, source) then mark[0] else At(line, source)
  {
    hide MendEnd, MendStart, Behind, Pad, Paired;
    if column < |line| {
      HeadLength(line, column, mark);
      PadNothing(line, column);
      assert line[|line|..] == [];
      BehindIs(line, column + n);
      HeadAt(line, column, mark, i);
      var head, tail := MendEnd(line[..column], mark), MendStart(Behind(line, column + n), mark);
      if i >= column {
        TailAt(line, column + n, mark, i - column);
        assert i < |head + tail| ==> (head + tail)[i] == tail[i - column];
      }
    } else {
      PairedIsWhole(line);
    }
  }

  lemma BehindIs(line: Line, column: nat)
    ensures Behind(line, column) == if column < |line| then line[column..] else []
  {
  }

  lemma EraseLineShows(g: Grid, m: Modes, i: nat)
    requires GridOk(g, m) && i < m.width
    ensures [At(LineAt(EraseLine(g, m)), i)] == Paint(SPACE, m.attributes.(inverse := false).ContainerStyle())
  {
    SpacesAre(m.width, m.attributes.(inverse := false).ContainerStyle());
  }

  /** Cells move to the right; a wide glyph that would straddle the margin is dropped. */
  lemma InsertSpaceShows(g: Grid, m: Modes, count: nat, i: nat)
    requires GridOk(g, m) && i < m.width && !InsideWide(LineAt(g), g.column)
    ensures var n := if count == 0 then 1 else count;
            At(LineAt(InsertSpace(g, m, count)), i)
            == if i < g.column then At(LineAt(g), i)
               else if i < g.column + n then SpaceCell(m)
               else if i == m.width - 1 && At(LineAt(g), i - n).half.LeftHalf? then BLANK
               else At(LineAt(g), i - n)
  {
    hide Clip, Insert, SpaceCells, SpaceCell, At;
    var n := if count == 0 then 1 else count;
    var line, cells := LineAt(g), SpaceCells(m, n);
    SpaceCellsAre(m, n);
    InsertPaired(line, g.column, cells);
    ClipAt(Insert(line, g.column, cells), m.width, i);
    InsertAt(line, g.column, cells, i);
    SpaceIsSingle(m);
  }

  lemma SpaceIsSingle(m: Modes)
    ensures SpaceCell(m).half.Single?
  {
  }

  lemma InsertAt(line: Line, column: nat, cells: Line, i: nat)
    ensures At(Insert(line, column, cells), i)
         == if i < column then At(line, i)
            else if i < column + |cells| then cells[i - column]
            else At(line, i - |cells|)
  {
    hide Insert;
    InsertParts(line, column, cells);
  }

  lemma ClipAt(line: Line, width: nat, i: nat)
    requires Paired(line) && i < width
    ensures At(Clip(line, width), i) == if i == width - 1 && At(line, i).half.LeftHalf? then BLANK else At(line, i)
  {
    if i == width - 1 && i < |line| {
      assert PairedAt(line, i);
    }
  }

  lemma SpaceCellsAre(m: Modes, n: nat)
    ensures |SpaceCells(m, n)| == n && NarrowLine(SpaceCells(m, n))
    ensures forall i :: 0 <= i < n ==> SpaceCells(m, n)[i] == SpaceCell(m)
  {
    SpacesAre(n, m.attributes.ContainerStyle());
  }

  /**
   The cells behind the deleted ones move up, spaces in the current attributes come in at the margin,
   and take the place of a half wide glyph that is left over.
   */
  lemma DeleteCharsShows(g: Grid, m: Modes, count: nat, i: nat)
    requires GridOk(g, m) && i < m.width
    ensures var n := Min(count, m.width - g.column);
            var source := if i < g.column then i else i + n;
            At(LineAt(DeleteChars(g, m, count)), i)
            == if source >= m.width || (n > 0 && LosesHalf(LineAt(g), g.column, g.column + n, source)) then SpaceCell(m)
               else At(LineAt(g), source)
  {
    hide Insert, Delete, SpaceCells, SpaceCell, LosesHalf, Paired;
    var line, n := LineAt(g), Min(count, m.width - g.column);
    var rest := Delete(line, g.column, n, m.Mark());
    MarkIsSpace(m);
    DefaultSpace(m);
    if n > 0 {
      DeleteAt(line, g.column, n, m.Mark(), i);
      DeleteRoom(line, g.column, n, m.Mark(), m.width);
      SpaceCellsAre(m, n);
      InsertAt(rest, m.width - n, SpaceCells(m, n), i);
    } else {
      DeleteNone(line, g.column, m.Mark());
    }
  }

  lemma DeleteNone(line: Line, column: nat, mark: Line)
    ensures Delete(line, column, 0, mark) == line
  {
  }

  lemma DefaultSpace(m: Modes)
    ensures m.attributes.IsDefault() ==> SpaceCell(m) == BLANK
  {
  }

  /** Only the cursor line is another one, and its row element stays. */
  predicate EditsLine(g: Grid, g': Grid) {
    0 <= g.row && g.top + g.row < |g.entries| == |g'.entries| &&
    g'.top == g.top && g'.row == g.row && g'.nextId == g.nextId &&
    forall k :: 0 <= k < |g.entries| ==>
      g'.entries[k] == if k == g.top + g.row then Entry(g.entries[k].id, g'.entries[k].line) else g.entries[k]
  }

  /** Erasing, inserting and deleting characters edit the cursor line; the cursor stays. */
  lemma CharactersEditLine(g: Grid, m: Modes, count: nat)
    requires GridOk(g, m)
    ensures EditsLine(g, EraseToLeft(g, m)) && EditsLine(g, EraseToRight(g, m, count)) && EditsLine(g, EraseLine(g, m))
    ensures EditsLine(g, InsertSpace(g, m, count)) && EditsLine(g, DeleteChars(g, m, count))
    ensures var left, right := EraseToLeft(g, m), EraseToRight(g, m, count);
            left.column == right.column == g.column && left.overflow == right.overflow == g.overflow &&
            (g.overflow ==> right == g)
    ensures var line, space, gone := EraseLine(g, m), InsertSpace(g, m, count), DeleteChars(g, m, count);
            line.column == space.column == gone.column == g.column && !line.overflow && !space.overflow &&
            !gone.overflow
  {
    hide Overwrite, Insert, Delete, Clip, SpaceCells, ClearedLine;
  }

  /**
   A character takes its column: in insert mode the cells from there on move to the right, otherwise it
   is written over what was there.  The cursor moves on, or waits at the margin with the wrap pending.
   */
  lemma PutShows(g: Grid, m: Modes, c: Glyph, i: nat)
    requires GridOk(g, m) && Puttable(g, m) && c.Narrow? && !(m.wraparound && g.overflow) && i < m.width
    ensures var g' := PutAll(g, m, [c]);
            EditsLine(g, g') &&
            (if g.column + 1 < m.width then g'.column == g.column + 1 && !g'.overflow
             else g'.column == g.column && g'.overflow)
    ensures var line, line' := LineAt(g), LineAt(PutAll(g, m, [c]));
            if i == g.column then [At(line', i)] == Paint(c, m.attributes.ContainerStyle())
            else if i < g.column || !m.insertMode then
              At(line', i) == if !m.insertMode && LosesHalf(line, g.column, g.column + 1, i) then SpaceCell(m)
                              else At(line, i)
            else At(line', i) == if i == m.width - 1 && At(line, i - 1).half.LeftHalf? then BLANK else At(line, i - 1)
  {
    hide PutCells, LosesHalf, SpaceCell, At;
    assert [c][1..] == [];
    assert PutAll(g, m, [c]) == Put(g, m, c);
    PutCellShows(LineAt(g), g.column, CellOf(m, c), m, i);
  }

  lemma PutCellShows(line: Line, column: nat, cells: Line, m: Modes, i: nat)
    requires Paired(line) && |line| <= m.width && column < m.width && |cells| == 1 && NarrowLine(cells) && i < m.width
    requires m.insertMode ==> !InsideWide(line, column)
    ensures At(PutCells(line, column, cells, m), i)
         == if i == column then cells[0]
            else if i < column || !m.insertMode then
              if !m.insertMode && LosesHalf(line, column, column + 1, i) then SpaceCell(m) else At(line, i)
            else if i == m.width - 1 && At(line, i - 1).half.LeftHalf? then BLANK else At(line, i - 1)
  {
    hide Insert, Overwrite, Clip, LosesHalf, SpaceCell, Paired;
    SpacesAreCells(m, 1);
    MarkIsSpace(m);
    var put := if m.insertMode then Insert(line, column, cells) else Overwrite(line, column, cells, m.Mark());
    if m.insertMode {
      InsertPaired(line, column, cells);
      ClipAt(put, m.width, i);
      InsertAt(line, column, cells, i);
    } else {
      OverwritePaired(line, column, cells, m.Mark());
      ClipWithin(put, m.width);
      OverwriteAt(line, column, cells, m.Mark(), i);
    }
  }

  // ---------------------------------------------------------------- lines

  /** What an erased line shows: spaces in the current attributes, inverse off. */
  predicate ShowsErased(m: Modes, line: Line, i: nat) {
    [At(line, i)] == Paint(SPACE, m.attributes.(inverse := false).ContainerStyle())
  }

  lemma ClearedShows(m: Modes, i: nat)
    requires i < m.width
    ensures ShowsErased(m, m.Cleared(), i)
  {
    SpacesAre(m.width, m.attributes.(inverse := false).ContainerStyle());
  }

  /** The lines above the cursor, and the cursor line up to the cursor. */
  lemma EraseAboveShows(g: Grid, m: Modes, row: int, i: nat)
    requires GridOk(g, m) && 0 <= g.top + row && row < m.height && i < m.width
    ensures var g' := EraseAbove(g, m);
            var e, e' := g.entries[g.top + row], g'.entries[g.top + row];
            g' == g.(entries := g'.entries, overflow := false) && e'.id == e.id &&
            (row < 0 || row > g.row ==> e' == e) &&
            (0 <= row < g.row ==> ShowsErased(m, e'.line, i)) &&
            (row == g.row ==>
               At(e'.line, i) == if i <= g.column || LosesHalf(e.line, 0, g.column + 1, i) then SpaceCell(m)
                                 else At(e.line, i))
  {
    hide EraseAbove, EraseToLeft, ShowsErased, LosesHalf, SpaceCell, At, ClearedLine, GridOk;
    EraseAboveLine(g, m, row);
    EraseToLeftShows(g, m, i);
    if 0 <= row < g.row {
      ClearedShows(m, i);
    }
  }

  lemma EraseAboveLine(g: Grid, m: Modes, row: int)
    requires GridOk(g, m) && 0 <= g.top + row && row < m.height
    ensures var g' := EraseAbove(g, m);
            |g'.entries| == |g.entries| == g.top + m.height && g' == g.(entries := g'.entries, overflow := false) &&
            g.top + g.row < |g.entries| && 0 <= g.row &&
            g'.entries[g.top + row]
            == var e := g.entries[g.top + row];
               if row < 0 || row > g.row then e
               else Entry(e.id, if row < g.row then m.Cleared() else LineAt(EraseToLeft(g, m)))
  {
    hide EraseToLeft, ClearedLine, ClearedRange;
    CharactersEditLine(g, m, 0);
    ClearedRangeAt(EraseToLeft(g, m).entries, g.top, g.row, m.Cleared(), g.top + row);
  }

  lemma ClearedRangeAt(entries: seq<Entry>, from: nat, n: nat, cleared: Line, i: nat)
    requires from + n <= |entries| && i < |entries|
    ensures var result := ClearedRange(entries, from, n, cleared);
            |result| == |entries| && result[i] == if from <= i < from + n then Entry(entries[i].id, cleared)
                                                  else entries[i]
  {
  }

  /**
   The lines below the cursor, and the cursor line from the cursor on unless a wrap is pending.  With the
   default background the rest of that line is cut off, so that it shows blanks.
   */
  lemma EraseBelowShows(g: Grid, m: Modes, row: int, i: nat)
    requires GridOk(g, m) && 0 <= g.top + row && row < m.height && i < m.width
    ensures var g' := EraseBelow(g, m);
            var e, e' := g.entries[g.top + row], g'.entries[g.top + row];
            g' == g.(entries := g'.entries, overflow := false) && e'.id == e.id &&
            (row < g.row || (row == g.row && g.overflow) ==> e' == e) &&
            (row > g.row ==> ShowsErased(m, e'.line, i)) &&
            (row == g.row && !g.overflow ==>
               At(e'.line, i)
               == if i >= g.column then if m.attributes.Background() == DefaultColor then BLANK else SpaceCell(m)
                  else if LosesHalf(e.line, g.column, m.width, i) then SpaceCell(m) else At(e.line, i))
  {
    hide EraseBelow, EraseToRight, ShowsErased, LosesHalf, SpaceCell, At, ClearedLine, GridOk;
    EraseBelowLine(g, m, row);
    assert |LineAt(g)| <= m.width by { LineWithin(g, m); }
    ClearedShows(m, i);
    if !g.overflow {
      EraseToRightAt(g, m, 0, i);
    }
  }

  lemma LineWithin(g: Grid, m: Modes)
    requires GridOk(g, m)
    ensures |LineAt(g)| <= m.width
  {
  }

  lemma EraseBelowLine(g: Grid, m: Modes, row: int)
    requires GridOk(g, m) && 0 <= g.top + row && row < m.height
    ensures var g' := EraseBelow(g, m);
            |g'.entries| == |g.entries| == g.top + m.height && g' == g.(entries := g'.entries, overflow := false) &&
            g.top + g.row < |g.entries| && 0 <= g.row &&
            g'.entries[g.top + row]
            == var e := g.entries[g.top + row];
               if row < g.row || (row == g.row && g.overflow) then e
               else Entry(e.id, if row > g.row then m.Cleared() else LineAt(EraseToRight(g, m, 0)))
  {
    hide EraseToRight, ClearedLine, ClearedRange;
    CharactersEditLine(g, m, 0);
    ClearedRangeAt(EraseToRight(g, m, 0).entries, g.top + g.row + 1, m.height - g.row - 1, m.Cleared(), g.top + row);
  }

  /**
   Delete lines: nothing outside the lines from the cursor to the bottom of the region changes, the
   lines that stay move up by the clamped count, and exactly the lines vacated are cleared.
   */
  lemma DeleteLinesMoves(g: Grid, m: Modes, count: nat, row: int)
    requires GridOk(g, m) && g.row <= m.Bottom() && 0 <= g.top + row && row < m.height
    ensures var n := Min(count, m.Bottom() - g.row + 1);
            DeleteLines(g, m, count).entries[g.top + row]
            == if !(g.row <= row <= m.Bottom()) then g.entries[g.top + row]
               else if row + n <= m.Bottom() then g.entries[g.top + row + n]
               else Entry(g.entries[g.top + row + n - (m.Bottom() - g.row + 1)].id, m.Cleared())
  {
    hide RotateUp;
    RotateUpAt(g.entries, g.top + g.row, g.top + m.Bottom() + 1, Min(count, m.Bottom() - g.row + 1), m.Cleared(),
               g.top + row);
  }

  /** Insert lines: the same the other way, with the count clamped so that one line of the region stays. */
  lemma InsertLinesMoves(g: Grid, m: Modes, count: nat, row: int)
    requires GridOk(g, m) && g.row <= m.Bottom() && 0 <= g.top + row && row < m.height
    ensures var n := Min(count, m.Bottom() - g.row);
            InsertLines(g, m, count).entries[g.top + row]
            == if !(g.row <= row <= m.Bottom()) then g.entries[g.top + row]
               else if g.row + n <= row then g.entries[g.top + row - n]
               else Entry(g.entries[g.top + row - n + (m.Bottom() - g.row + 1)].id, m.Cleared())
  {
    hide RotateDown;
    RotateDownAt(g.entries, g.top + g.row, g.top + m.Bottom() + 1, Min(count, m.Bottom() - g.row), m.Cleared(),
                 g.top + row);
  }

  /** Scrolling moves the lines of the whole region, wherever the cursor is, and leaves the cursor alone. */
  lemma ScrollUpMoves(g: Grid, m: Modes, count: nat, row: int)
    requires GridOk(g, m) && 0 <= g.top + row && row < m.height
    ensures var g' := ScrollUp(g, m, count);
            var n := Min(count, m.Bottom() - m.Top() + 1);
            g' == g.(entries := g'.entries) && |g'.entries| == |g.entries| &&
            g'.entries[g.top + row]
            == if !(m.Top() <= row <= m.Bottom()) then g.entries[g.top + row]
               else if row + n <= m.Bottom() then g.entries[g.top + row + n]
               else Entry(g.entries[g.top + row + n - (m.Bottom() - m.Top() + 1)].id, m.Cleared())
  {
    hide DeleteLines, InsertLines, ClearedLine, Min;
    var from := g.(row := m.Top(), overflow := false);
    DeleteLinesMoves(from, m, count, row);
    LinesKeepCursor(from, m, count);
  }

  lemma ScrollDownMoves(g: Grid, m: Modes, count: nat, row: int)
    requires GridOk(g, m) && 0 <= g.top + row && row < m.height
    ensures var g' := ScrollDown(g, m, count);
            var n := Min(count, m.Bottom() - m.Top());
            g' == g.(entries := g'.entries) && |g'.entries| == |g.entries| &&
            g'.entries[g.top + row]
            == if !(m.Top() <= row <= m.Bottom()) then g.entries[g.top + row]
               else if m.Top() + n <= row then g.entries[g.top + row - n]
               else Entry(g.entries[g.top + row - n + (m.Bottom() - m.Top() + 1)].id, m.Cleared())
  {
    hide DeleteLines, InsertLines, ClearedLine, Min;
    var from := g.(row := m.Top(), column := 0, overflow := false);
    InsertLinesMoves(from, m, count, row);
    LinesKeepCursor(from, m, count);
  }

  /**
   Scrolling leaves lines above a top margin and below a bottom margin alone; without margins the whole screen
   moves.
   */
  lemma ScrollRegion(g: Grid, m: Modes, count: nat, row: int)
    requires GridOk(g, m) && 0 <= g.top + row && row < m.height
    ensures var up, down := ScrollUp(g, m, count), ScrollDown(g, m, count);
            row < 0 || (m.regionTop.Some? && row < m.regionTop.value) ||
            (m.regionBottom.Some? && row > m.regionBottom.value) ==>
              up.entries[g.top + row] == down.entries[g.top + row] == g.entries[g.top + row]
    ensures var up, down := ScrollUp(g, m, count), ScrollDown(g, m, count);
            m.regionTop.None? && m.regionBottom.None? && row >= 0 ==>
              (row + count < m.height ==> up.entries[g.top + row] == g.entries[g.top + row + count]) &&
              (row >= count ==> down.entries[g.top + row] == g.entries[g.top + row - count])
  {
    hide ScrollUp, ScrollDown, ClearedLine;
    ScrollUpMoves(g, m, count, row);
    ScrollDownMoves(g, m, count, row);
  }

  /**
   What deleting and inserting lines does besides: a pending wrap is forgotten, the cursor goes to the
   first column if lines came in, and below the region nothing else happens.
   */
  lemma LinesKeepCursor(g: Grid, m: Modes, count: nat)
    requires GridOk(g, m)
    ensures var g' := DeleteLines(g, m, count);
            |g'.entries| == |g.entries| && g' == g.(entries := g'.entries, overflow := false) &&
            (g.row > m.Bottom() ==> g'.entries == g.entries)
    ensures g.row <= m.Bottom() ==>
      var g' := InsertLines(g, m, count);
      |g'.entries| == |g.entries| &&
      if count == 0 || g.row == m.Bottom() then g' == g
      else g' == g.(entries := g'.entries, column := 0, overflow := false)
  {
    hide RotateUp;
    var at := g.top + g.row;
    if g.row <= m.Bottom() {
      assert RotateDown(g.entries, at, g.top + m.Bottom() + 1, 0, m.Cleared()) == g.entries;
    }
  }

  /** A new line at the bottom of a region with a top margin: the lines of the region move up by one. */
  lemma NewLineScrolls(g: Grid, m: Modes, row: int)
    requires GridOk(g, m) && 0 <= g.top + row && row < m.height && m.regionTop.Some? && g.row == m.Bottom()
    ensures var g' := NewLine(g, m);
            g' == g.(entries := g'.entries, column := 0, overflow := false) && |g'.entries| == |g.entries| &&
            g'.entries[g.top + row]
            == if !(m.Top() <= row <= m.Bottom()) then g.entries[g.top + row]
               else if row < m.Bottom() then g.entries[g.top + row + 1]
               else Entry(g.entries[g.top + m.Top()].id, m.Cleared())
  {
    hide ScrollUp;
    ScrollUpMoves(g, m, 1, row);
  }

  /** Inserting as many lines as were deleted brings every other line back to its place. */
  lemma DeleteThenInsert(g: Grid, m: Modes, count: nat)
    requires GridOk(g, m) && g.row <= m.Bottom() && count <= m.Bottom() - g.row
    ensures GridOk(DeleteLines(g, m, count), m)
    ensures InsertLines(DeleteLines(g, m, count), m, count).entries
      == ClearedRange(g.entries, g.top + g.row, count, m.Cleared())
  {
    hide RotateUp, RotateDown;
    DeleteLinesKeepsOk(g, m, count);
    var from, to, cleared := g.top + g.row, g.top + m.Bottom() + 1, m.Cleared();
    var up := RotateUp(g.entries, from, to, count, cleared);
    var down := RotateDown(up, from, to, count, cleared);
    forall i | 0 <= i < |down| ensures down[i] == ClearedRange(g.entries, from, count, cleared)[i] {
      RotateDownAt(up, from, to, count, cleared, i);
      RotateUpAt(g.entries, from, to, count, cleared, DownSource(from, to, count, i));
    }
  }

  /** And the other way round. */
  lemma InsertThenDelete(g: Grid, m: Modes, count: nat)
    requires GridOk(g, m) && g.row <= m.Bottom() && count <= m.Bottom() - g.row
    ensures GridOk(InsertLines(g, m, count), m)
    ensures DeleteLines(InsertLines(g, m, count), m, count).entries
         == ClearedRange(g.entries, g.top + m.Bottom() + 1 - count, count, m.Cleared())
  {
    hide RotateUp, RotateDown;
    InsertLinesKeepsOk(g, m, count);
    var from, to, cleared := g.top + g.row, g.top + m.Bottom() + 1, m.Cleared();
    var down := RotateDown(g.entries, from, to, count, cleared);
    var up := RotateUp(down, from, to, count, cleared);
    forall i | 0 <= i < |up| ensures up[i] == ClearedRange(g.entries, to - count, count, cleared)[i] {
      RotateUpAt(down, from, to, count, cleared, i);
      RotateDownAt(g.entries, from, to, count, cleared, UpSource(from, to, count, i));
    }
  }

  lemma RotatedDownOk(g: Grid, m: Modes, from: nat, to: nat, n: nat)
    requires GridOk(g, m) && from + n <= to <= |g.entries|
    ensures GridOk(g.(entries := RotateDown(g.entries, from, to, n, m.Cleared())), m)
  {
    hide RotateDown, GridOk, ClearedLine;
    forall i | 0 <= i < |g.entries|
      ensures DownSource(from, to, n, i) < |g.entries|
      ensures RotateDown(g.entries, from, to, n, m.Cleared())[i]
           == var e := g.entries[DownSource(from, to, n, i)];
              if from <= i < from + n then Entry(e.id, m.Cleared()) else e
    {
      RotateDownAt(g.entries, from, to, n, m.Cleared(), i);
    }
    RearrangedKeepsOk(g, m, RotateDown(g.entries, from, to, n, m.Cleared()),
                      i => if i >= 0 then DownSource(from, to, n, i) else 0);
  }

  lemma InsertLinesKeepsOk(g: Grid, m: Modes, count: nat)
    requires GridOk(g, m) && g.row <= m.Bottom()
    ensures GridOk(InsertLines(g, m, count), m)
  {
    hide RotateDown;
    RotatedDownOk(g, m, g.top + g.row, g.top + m.Bottom() + 1, Min(count, m.Bottom() - g.row));
  }

  // ---------------------------------------------------------------- new lines

  /**
   What a new line does.  With a top margin, at the bottom of the region, no line is added.  Without
   one, at the bottom of the region or of the screen, exactly one blank line comes in right after the
   cursor line and the first line of the screen becomes scrollback.  Elsewhere only the cursor moves.
   */
  lemma NewLineMeans(g: Grid, m: Modes)
    requires GridOk(g, m)
    ensures var g' := NewLine(g, m);
            var at := g.top + g.row + 1;
            g'.column == 0 && !g'.overflow &&
            if m.regionTop.Some? && g.row == m.Bottom() then
              g'.top == g.top && |g'.entries| == |g.entries| && g'.nextId == g.nextId && g'.row == g.row
            else if g.row == m.Bottom() || g.row == m.height - 1 then
              g'.top == g.top + 1 && g'.row == g.row && g'.nextId == g.nextId + 1 &&
              g'.entries == g.entries[..at] + [Entry(g.nextId, [])] + g.entries[at..]
            else g' == g.(row := g.row + 1, column := 0, overflow := false)
  {
    hide RotateUp;
    assert BlankEntries(g.nextId, 1) == [Entry(g.nextId, [])];
  }

  // ---------------------------------------------------------------- runs

  datatype Command =
    | PutText(text: Text)
    | NextLine
    | DeleteSome(count: nat)
    | InsertSome(count: nat)
    | Up(count: nat)
    | Down(count: nat)
    | ClearLeft
    | ClearRight(count: nat)
    | ClearLine
    | ClearAbove
    | ClearBelow
    | Shift(count: nat)
    | Close(count: nat)
    | MoveTo(row: int, column: int)

  /**
   Inserting lines has no grid meaning with the cursor below the region, and inserting text or spaces
   has none with the cursor inside a wide glyph.
   */
  predicate Applies(g: Grid, m: Modes, c: Command)
    requires GridOk(g, m)
  {
    match c
    case PutText(text) => AllNarrow(text) && (text != [] ==> Puttable(g, m))
    case Shift(_) => !InsideWide(LineAt(g), g.column)
    case InsertSome(_) => g.row <= m.Bottom()
    case MoveTo(row, column) => 0 <= row < m.height && 0 <= column < m.width
    case _ => true
  }

  function Step(g: Grid, m: Modes, c: Command): Grid
    requires GridOk(g, m) && Applies(g, m, c)
  {
    match c
    case PutText(text) => PutAll(g, m, text)
    case NextLine => NewLine(g, m)
    case DeleteSome(count) => DeleteLines(g, m, count)
    case InsertSome(count) => InsertLines(g, m, count)
    case Up(count) => ScrollUp(g, m, count)
    case Down(count) => ScrollDown(g, m, count)
    case ClearLeft => EraseToLeft(g, m)
    case ClearRight(count) => EraseToRight(g, m, count)
    case ClearLine => EraseLine(g, m)
    case ClearAbove => EraseAbove(g, m)
    case ClearBelow => EraseBelow(g, m)
    case Shift(count) => InsertSpace(g, m, count)
    case Close(count) => DeleteChars(g, m, count)
    case MoveTo(row, column) => g.(row := row, column := column, overflow := false)
  }

  /** A run of commands, up to the first that does not apply. */
  function Run(g: Grid, m: Modes, commands: seq<Command>): (result: Grid)
    requires GridOk(g, m)
    ensures GridOk(result, m)
    decreases |commands|
  {
    if commands == [] || !Applies(g, m, commands[0]) then g
    else
      StepKeeps(g, m, commands[0]);
      Run(Step(g, m, commands[0]), m, commands[1..])
  }

  /** Every command of a run applies when its turn comes. */
  predicate AllApply(g: Grid, m: Modes, commands: seq<Command>)
    requires GridOk(g, m)
    decreases |commands|
  {
    commands == [] ||
    (Applies(g, m, commands[0]) &&
     (StepKeeps(g, m, commands[0]); AllApply(Step(g, m, commands[0]), m, commands[1..])))
  }

  /** One command more. */
  lemma {:induction false} RunMore(g: Grid, m: Modes, commands: seq<Command>, c: Command)
    requires GridOk(g, m) && AllApply(g, m, commands) && Applies(Run(g, m, commands), m, c)
    ensures AllApply(g, m, commands + [c]) && Run(g, m, commands + [c]) == Step(Run(g, m, commands), m, c)
    decreases |commands|
  {
    hide GridOk, Step, Applies;
    if commands == [] {
      assert [c][1..] == [];
    } else {
      StepKeeps(g, m, commands[0]);
      RunMore(Step(g, m, commands[0]), m, commands[1..], c);
      assert (commands + [c])[1..] == commands[1..] + [c];
    }
  }

  ghost predicate Has(entries: seq<Entry>, id: nat) {
    exists i :: 0 <= i < |entries| && entries[i].id == id
  }

  /** The height stays, the scrollback only grows, and no row element gets lost: all others are fresh. */
  ghost predicate Keeps(g: Grid, g': Grid) {
    g.top <= |g.entries| && g.top <= g'.top <= |g'.entries| && g.nextId <= g'.nextId &&
    |g'.entries| - g'.top == |g.entries| - g.top &&
    g.entries[..g.top] <= g'.entries &&
    forall id: nat :: Has(g'.entries, id) <==> Has(g.entries, id) || g.nextId <= id < g'.nextId
  }

  lemma KeepsTransitive(a: Grid, b: Grid, c: Grid)
    requires Keeps(a, b) && Keeps(b, c)
    ensures Keeps(a, c)
  {
    hide Has;
    assert a.entries[..a.top] <= b.entries[..b.top];
  }

  /** Lines edited in place, below the scrollback. */
  lemma EditKeeps(g: Grid, g': Grid)
    requires g.top <= |g.entries| == |g'.entries| && g'.top == g.top && g'.nextId == g.nextId
    requires forall i :: 0 <= i < |g.entries| ==>
      g'.entries[i].id == g.entries[i].id &&
      (i < g.top ==> g'.entries[i] == g.entries[i])
    ensures Keeps(g, g')
  {
    forall id: nat | Has(g.entries, id) ensures Has(g'.entries, id) {
      var i :| 0 <= i < |g.entries| && g.entries[i].id == id;
      assert g'.entries[i].id == id;
    }
  }

  /** Lines in another order, below the scrollback. */
  lemma PermutationKeeps(g: Grid, g': Grid, source: int -> int, target: int -> int)
    requires g.top <= |g.entries| == |g'.entries| && g'.top == g.top && g'.nextId == g.nextId
    requires forall i :: 0 <= i < |g.entries| ==>
      0 <= source(i) < |g.entries| &&
      g'.entries[i].id == g.entries[source(i)].id
    requires forall i :: 0 <= i < |g.entries| ==> 0 <= target(i) < |g.entries| && source(target(i)) == i
    requires forall i :: 0 <= i < g.top ==> g'.entries[i] == g.entries[i]
    ensures Keeps(g, g')
  {
    forall id: nat | Has(g.entries, id) ensures Has(g'.entries, id) {
      var i :| 0 <= i < |g.entries| && g.entries[i].id == id;
      assert g'.entries[target(i)].id == id;
    }
  }

  lemma UpDown(from: nat, to: nat, n: nat, i: nat)
    requires from + n <= to
    ensures UpSource(from, to, n, DownSource(from, to, n, i)) == i &&
      DownSource(from, to, n, UpSource(from, to, n, i)) == i
  {
  }

  lemma RotationKeeps(g: Grid, from: nat, to: nat, n: nat, cleared: Line)
    requires g.top <= from && from + n <= to <= |g.entries|
    ensures Keeps(g, g.(entries := RotateUp(g.entries, from, to, n, cleared)))
    ensures Keeps(g, g.(entries := RotateDown(g.entries, from, to, n, cleared)))
  {
    hide RotateUp, RotateDown, UpSource, DownSource, Keeps;
    var up, down := RotateUp(g.entries, from, to, n, cleared), RotateDown(g.entries, from, to, n, cleared);
    var upward: int -> int := i => if i >= 0 then UpSource(from, to, n, i) else 0;
    var downward: int -> int := i => if i >= 0 then DownSource(from, to, n, i) else 0;
    forall i | 0 <= i < |g.entries|
      ensures 0 <= upward(i) < |g.entries| && up[i].id == g.entries[upward(i)].id &&
        (i < g.top ==> up[i] == g.entries[i])
      ensures 0 <= downward(i) < |g.entries| && down[i].id == g.entries[downward(i)].id &&
        (i < g.top ==> down[i] == g.entries[i])
      ensures upward(downward(i)) == i == downward(upward(i))
    {
      RotateUpAt(g.entries, from, to, n, cleared, i);
      RotateDownAt(g.entries, from, to, n, cleared, i);
      UpDown(from, to, n, i);
      OutsideStays(from, to, n, i);
    }
    PermutationKeeps(g, g.(entries := up), upward, downward);
    PermutationKeeps(g, g.(entries := down), downward, upward);
  }

  lemma OutsideStays(from: nat, to: nat, n: nat, i: nat)
    requires from + n <= to
    ensures i < from ==>
      UpSource(from, to, n, i) == i && DownSource(from, to, n, i) == i && !(to - n <= i < to) &&
      !(from <= i < from + n)
  {
  }

  lemma DeleteLinesKeeps(g: Grid, m: Modes, count: nat)
    requires GridOk(g, m)
    ensures GridOk(DeleteLines(g, m, count), m) && Keeps(g, DeleteLines(g, m, count))
  {
    hide RotateUp, RotateDown, Keeps;
    DeleteLinesKeepsOk(g, m, count);
    if g.row <= m.Bottom() {
      var n := Min(count, m.Bottom() - g.row + 1);
      RotationKeeps(g, g.top + g.row, g.top + m.Bottom() + 1, n, m.Cleared());
      CursorIsFree(g, g.(entries := RotateUp(g.entries, g.top + g.row, g.top + m.Bottom() + 1, n, m.Cleared())),
                   DeleteLines(g, m, count));
    } else {
      EditKeeps(g, DeleteLines(g, m, count));
    }
  }

  lemma InsertLinesKeeps(g: Grid, m: Modes, count: nat)
    requires GridOk(g, m) && g.row <= m.Bottom()
    ensures GridOk(InsertLines(g, m, count), m) && Keeps(g, InsertLines(g, m, count))
  {
    hide RotateUp, RotateDown, Keeps;
    InsertLinesKeepsOk(g, m, count);
    var n := Min(count, m.Bottom() - g.row);
    RotationKeeps(g, g.top + g.row, g.top + m.Bottom() + 1, n, m.Cleared());
    CursorIsFree(g, g.(entries := RotateDown(g.entries, g.top + g.row, g.top + m.Bottom() + 1, n, m.Cleared())),
                 InsertLines(g, m, count));
  }

  /** The cursor does not matter for what is kept. */
  lemma CursorIsFree(g: Grid, a: Grid, b: Grid)
    requires Keeps(g, a) && b == a.(row := b.row, column := b.column, overflow := b.overflow)
    ensures Keeps(g, b)
  {
  }

  lemma ScrollKeeps(g: Grid, m: Modes, count: nat)
    requires GridOk(g, m)
    ensures GridOk(ScrollUp(g, m, count), m) && Keeps(g, ScrollUp(g, m, count))
    ensures GridOk(ScrollDown(g, m, count), m) && Keeps(g, ScrollDown(g, m, count))
  {
    hide RotateUp, RotateDown, Keeps;
    var a, b := g.(row := m.Top(), overflow := false), g.(row := m.Top(), column := 0, overflow := false);
    DeleteLinesKeeps(a, m, count);
    InsertLinesKeeps(b, m, count);
    EditKeeps(g, a);
    EditKeeps(g, b);
    KeepsTransitive(g, a, DeleteLines(a, m, count));
    KeepsTransitive(g, b, InsertLines(b, m, count));
    CursorIsFree(g, DeleteLines(a, m, count), ScrollUp(g, m, count));
    CursorIsFree(g, InsertLines(b, m, count), ScrollDown(g, m, count));
  }

  /** A blank line comes in below the scrollback. */
  lemma FreshLineKeeps(g: Grid, at: nat, g': Grid)
    requires g.top < at <= |g.entries| && g'.top == g.top + 1 && g'.nextId == g.nextId + 1
    requires g'.entries == g.entries[..at] + [Entry(g.nextId, [])] + g.entries[at..]
    ensures Keeps(g, g')
  {
    assert g'.entries[at].id == g.nextId;
    forall id: nat | Has(g.entries, id) ensures Has(g'.entries, id) {
      var i :| 0 <= i < |g.entries| && g.entries[i].id == id;
      assert g'.entries[if i < at then i else i + 1].id == id;
    }
  }

  lemma NewLineKeeps(g: Grid, m: Modes)
    requires GridOk(g, m)
    ensures GridOk(NewLine(g, m), m) && Keeps(g, NewLine(g, m))
  {
    hide ScrollUp, Keeps;
    NewLineKeepsOk(g, m);
    NewLineMeans(g, m);
    if m.regionTop.Some? && g.row == m.Bottom() {
      ScrollKeeps(g, m, 1);
      CursorIsFree(g, ScrollUp(g, m, 1), NewLine(g, m));
    } else if g.row == m.Bottom() || g.row == m.height - 1 {
      FreshLineKeeps(g, g.top + g.row + 1, NewLine(g, m));
    } else {
      EditKeeps(g, NewLine(g, m));
    }
  }

  /** The cursor line edited within the margin. */
  lemma LineKeeps(g: Grid, m: Modes, line: Line)
    requires GridOk(g, m) && Paired(line) && |line| <= m.width
    ensures GridOk(SetLine(g, line), m) && Keeps(g, SetLine(g, line))
  {
    hide Keeps;
    EditKeeps(g, SetLine(g, line));
  }

  lemma WriteKeeps(g: Grid, m: Modes, cells: Line)
    requires GridOk(g, m) && NarrowLine(cells) && cells != [] && (m.insertMode ==> !InsideWide(LineAt(g), g.column))
    ensures GridOk(Write(g, m, cells), m) && Keeps(g, Write(g, m, cells))
  {
    hide Keeps, PutCells, Paired, InsideWide, NarrowLine, Fits, DistinctEntries;
    WriteKeepsOk(g, m, cells);
    EditKeeps(g, Write(g, m, cells));
  }

  lemma SameKeeps(g: Grid, m: Modes)
    requires GridOk(g, m)
    ensures Keeps(g, g)
  {
    hide Keeps;
    EditKeeps(g, g);
  }

  lemma PutKeeps(g: Grid, m: Modes, c: Glyph)
    requires GridOk(g, m) && Puttable(g, m) && c.Narrow?
    ensures Keeps(g, Put(g, m, c))
  {
    hide Keeps, NewLine, Write, GridOk, InsideWide;
    var cells := CellOf(m, c);
    if m.wraparound && g.overflow {
      NewLineKeeps(g, m);
      NewLineMeans(g, m);
      FirstColumnOutside(NewLine(g, m), m);
      WriteKeeps(NewLine(g, m), m, cells);
      KeepsTransitive(g, NewLine(g, m), Write(NewLine(g, m), m, cells));
    } else {
      WriteKeeps(g, m, cells);
    }
  }

  lemma {:induction false} PutAllKeeps(g: Grid, m: Modes, text: Text)
    requires GridOk(g, m) && AllNarrow(text) && (text != [] ==> Puttable(g, m))
    ensures Keeps(g, PutAll(g, m, text))
    decreases |text|
  {
    hide Keeps, NewLine, Write, GridOk, Puttable, Put;
    if text == [] {
      SameKeeps(g, m);
    } else {
      PutKeeps(g, m, text[0]);
      PutAllKeeps(Put(g, m, text[0]), m, text[1..]);
      KeepsTransitive(g, Put(g, m, text[0]), PutAll(g, m, text));
    }
  }

  // ---------------------------------------------------------------- every command

  lemma EraseLeftKeeps(g: Grid, m: Modes)
    requires GridOk(g, m)
    ensures GridOk(EraseToLeft(g, m), m) && Keeps(g, EraseToLeft(g, m))
  {
    hide Keeps, SpaceCells, Overwrite;
    SpacesAreCells(m, g.column + 1);
    OverwriteKeeps(g, m, 0, SpaceCells(m, g.column + 1));
  }

  /** Cells written over the cursor line, up to the margin. */
  lemma OverwriteKeeps(g: Grid, m: Modes, column: nat, cells: Line)
    requires GridOk(g, m) && NarrowLine(cells) && column + |cells| <= m.width
    ensures var g' := SetLine(g, Overwrite(LineAt(g), column, cells, m.Mark())); GridOk(g', m) && Keeps(g, g')
  {
    hide Keeps, Overwrite;
    SpacesAreCells(m, 1);
    OverwritePaired(LineAt(g), column, cells, m.Mark());
    LineKeeps(g, m, Overwrite(LineAt(g), column, cells, m.Mark()));
  }

  lemma EraseRightKeeps(g: Grid, m: Modes, count: nat)
    requires GridOk(g, m)
    ensures GridOk(EraseToRight(g, m, count), m) && Keeps(g, EraseToRight(g, m, count))
  {
    hide Keeps, SpaceCells, Overwrite, Delete;
    var line, n := LineAt(g), EraseCount(g, m, count);
    SpacesAreCells(m, 1);
    SpacesAreCells(m, n);
    if g.overflow {
      SameKeeps(g, m);
    } else if CutsLine(g, m, count) {
      DeletePaired(line, g.column, n, m.Mark());
      LineKeeps(g, m, Delete(line, g.column, n, m.Mark()));
    } else {
      OverwriteKeeps(g, m, g.column, SpaceCells(m, n));
    }
  }

  lemma EraseLineKeeps(g: Grid, m: Modes)
    requires GridOk(g, m)
    ensures GridOk(EraseLine(g, m), m) && Keeps(g, EraseLine(g, m))
  {
    hide Keeps;
    ClearedIsNarrow(m);
    LineKeeps(g, m, m.Cleared());
    CursorIsFree(g, SetLine(g, m.Cleared()), EraseLine(g, m));
  }

  /** Some lines of the screen cleared. */
  lemma ClearRangeKeeps(g: Grid, m: Modes, from: nat, n: nat)
    requires GridOk(g, m) && g.top <= from && from + n <= |g.entries|
    ensures var g' := g.(entries := ClearedRange(g.entries, from, n, m.Cleared()), overflow := false);
            GridOk(g', m) && Keeps(g, g')
  {
    hide Keeps;
    ClearedIsNarrow(m);
    EditKeeps(g, g.(entries := ClearedRange(g.entries, from, n, m.Cleared()), overflow := false));
  }

  lemma EraseScreenKeeps(g: Grid, m: Modes)
    requires GridOk(g, m)
    ensures GridOk(EraseAbove(g, m), m) && Keeps(g, EraseAbove(g, m))
    ensures GridOk(EraseBelow(g, m), m) && Keeps(g, EraseBelow(g, m))
  {
    hide Keeps, EraseToLeft, EraseToRight, ClearedRange;
    ErasedKeeps(g, m, 0);
    EraseLeftKeeps(g, m);
    EraseRightKeeps(g, m, 0);
    var a, b := EraseToLeft(g, m), EraseToRight(g, m, 0);
    ClearRangeKeeps(a, m, g.top, g.row);
    ClearRangeKeeps(b, m, g.top + g.row + 1, m.height - g.row - 1);
    KeepsTransitive(g, a, EraseAbove(g, m));
    KeepsTransitive(g, b, EraseBelow(g, m));
  }

  lemma InsertSpaceKeeps(g: Grid, m: Modes, count: nat)
    requires GridOk(g, m) && !InsideWide(LineAt(g), g.column)
    ensures GridOk(InsertSpace(g, m, count), m) && Keeps(g, InsertSpace(g, m, count))
  {
    hide Keeps, SpaceCells, Insert, Clip;
    var n := if count == 0 then 1 else count;
    var line := Insert(LineAt(g), g.column, SpaceCells(m, n));
    SpacesAreCells(m, n);
    InsertPaired(LineAt(g), g.column, SpaceCells(m, n));
    ClipPaired(line, m.width);
    LineKeeps(g, m, Clip(line, m.width));
    CursorIsFree(g, SetLine(g, Clip(line, m.width)), InsertSpace(g, m, count));
  }

  lemma DeleteCharsKeeps(g: Grid, m: Modes, count: nat)
    requires GridOk(g, m)
    ensures GridOk(DeleteChars(g, m, count), m) && Keeps(g, DeleteChars(g, m, count))
  {
    hide Keeps, SpaceCells, Insert, Delete;
    var line, n := LineAt(g), Min(count, m.width - g.column);
    var rest := Delete(line, g.column, n, m.Mark());
    SpacesAreCells(m, 1);
    DeletePaired(line, g.column, n, m.Mark());
    var result := if n > 0 && !m.attributes.IsDefault() then Insert(rest, m.width - n, SpaceCells(m, n)) else rest;
    if n > 0 {
      SpacesAreCells(m, n);
      DeleteRoom(line, g.column, n, m.Mark(), m.width);
      InsertWidth(rest, m.width - n, SpaceCells(m, n));
      InsertPaired(rest, m.width - n, SpaceCells(m, n));
    }
    LineKeeps(g, m, result);
    CursorIsFree(g, SetLine(g, result), DeleteChars(g, m, count));
  }

  /** Every command keeps the grid in order, the height and the scrollback, and loses no row element. */
  lemma StepKeeps(g: Grid, m: Modes, c: Command)
    requires GridOk(g, m) && Applies(g, m, c)
    ensures GridOk(Step(g, m, c), m) && Keeps(g, Step(g, m, c))
  {
    hide Keeps, DeleteLines, InsertLines, ScrollUp, ScrollDown, NewLine, PutAll, EraseToLeft, EraseToRight, EraseLine;
    hide EraseAbove, EraseBelow, InsertSpace, DeleteChars;
    match c
    case PutText(text) => PutAllKeeps(g, m, text);
    case NextLine => NewLineKeeps(g, m);
    case DeleteSome(count) => DeleteLinesKeeps(g, m, count);
    case InsertSome(count) => InsertLinesKeeps(g, m, count);
    case Up(count) => ScrollKeeps(g, m, count);
    case Down(count) => ScrollKeeps(g, m, count);
    case ClearLeft => EraseLeftKeeps(g, m);
    case ClearRight(count) => EraseRightKeeps(g, m, count);
    case ClearLine => EraseLineKeeps(g, m);
    case ClearAbove => EraseScreenKeeps(g, m);
    case ClearBelow => EraseScreenKeeps(g, m);
    case Shift(count) => InsertSpaceKeeps(g, m, count);
    case Close(count) => DeleteCharsKeeps(g, m, count);
    case MoveTo(row, column) =>
      SameKeeps(g, m);
      CursorIsFree(g, g, Step(g, m, c));
  }

  /** And so does every run. */
  lemma {:induction false} RunKeeps(g: Grid, m: Modes, commands: seq<Command>)
    requires GridOk(g, m)
    ensures Keeps(g, Run(g, m, commands))
    decreases |commands|
  {
    hide Keeps, Step, GridOk;
    if commands == [] || !Applies(g, m, commands[0]) {
      SameKeeps(g, m);
    } else {
      StepKeeps(g, m, commands[0]);
      RunKeeps(Step(g, m, commands[0]), m, commands[1..]);
      KeepsTransitive(g, Step(g, m, commands[0]), Run(g, m, commands));
    }
  }
}
