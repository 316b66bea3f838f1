/**
 The terminal as a grid of cells: one list of lines, the first `top` of which are scrollback, and a
 cursor.  Every line carries the identity of the row element that shows it.  The operations here are
 what a terminal is expected to do, one character or one line at a time; module `Terminals` proves
 that the row-based code computes them.
 */
module Grids {
  import opened Common
  import opened TextAttributes
  import opened Cells

  datatype Entry = Entry(id: nat, line: Line)

  datatype Grid = Grid(entries: seq<Entry>, top: nat, row: int, column: int, overflow: bool, nextId: nat)

  /** The size, the modes, the scroll region and the attributes that are in force. */
  datatype Modes = Modes(
    width: nat, height: nat, insertMode: bool, wraparound: bool,
    regionTop: Option<nat>, regionBottom: Option<nat>, attributes: Attributes)
  {
    function Top(): nat {
      if regionTop.Some? then regionTop.value else 0
    }

    function Bottom(): int {
      if regionBottom.Some? then regionBottom.value else height - 1
    }

    predicate Ok() {
      width > 0 && height > 0 && Top() <= Bottom() < height && !attributes.wcNode && attributes.asciiNode
    }

    /** What takes the place of half a wide glyph: a space in the current attributes. */
    function Mark(): Line {
      SpaceCells(this, 1)
    }

    /** A line erased with the current attributes. */
    function Cleared(): Line {
      ClearedLine(attributes, width)
    }
  }

  /** Lines of whole glyphs within the margin. */
  predicate Fits(entries: seq<Entry>, width: nat) {
    forall i :: 0 <= i < |entries| ==> Paired(entries[i].line) && |entries[i].line| <= width
  }

  predicate DistinctEntries(entries: seq<Entry>) {
    forall i, j :: 0 <= i < j < |entries| ==> entries[i].id != entries[j].id
  }

  predicate GridOk(g: Grid, m: Modes) {
    m.Ok() && |g.entries| == g.top + m.height &&
    0 <= g.row < m.height && 0 <= g.column < m.width && (g.overflow ==> g.column == m.width - 1) &&
    Fits(g.entries, m.width) && DistinctEntries(g.entries) &&
    forall i :: 0 <= i < |g.entries| ==> g.entries[i].id < g.nextId
  }

  // ---------------------------------------------------------------- lines of the screen

  function WithLine(e: Entry, line: Line): Entry {
    e.(line := line)
  }

  function ClearEntries(entries: seq<Entry>, cleared: Line): (result: seq<Entry>)
    ensures |result| == |entries|
    ensures forall i :: 0 <= i < |entries| ==> result[i] == Entry(entries[i].id, cleared)
  {
    seq(|entries|, i requires 0 <= i < |entries| => Entry(entries[i].id, cleared))
  }

  /** Some consecutive lines cleared. */
  function ClearedRange(entries: seq<Entry>, from: nat, n: nat, cleared: Line): seq<Entry>
    requires from + n <= |entries|
  {
    entries[..from] + ClearEntries(entries[from..from + n], cleared) + entries[from + n..]
  }

  /** The first `n` of the lines `from..to` go to the end of that stretch and are cleared. */
  function RotateUp(entries: seq<Entry>, from: nat, to: nat, n: nat, cleared: Line): (result: seq<Entry>)
    requires from + n <= to <= |entries|
    ensures |result| == |entries|
  {
    entries[..from] + entries[from + n..to] + ClearEntries(entries[from..from + n], cleared) + entries[to..]
  }

  /** The last `n` of the lines `from..to` go to the start of that stretch and are cleared. */
  function RotateDown(entries: seq<Entry>, from: nat, to: nat, n: nat, cleared: Line): (result: seq<Entry>)
    requires from + n <= to <= |entries|
    ensures |result| == |entries|
  {
    entries[..from] + ClearEntries(entries[to - n..to], cleared) + entries[from..to - n] + entries[to..]
  }

  /** Delete lines at the cursor: nothing happens below the region. */
  function DeleteLines(g: Grid, m: Modes, count: nat): Grid
    requires GridOk(g, m)
  {
    if g.row > m.Bottom() then g.(overflow := false)
    else
      var n := Min(count, m.Bottom() - g.row + 1);
      g.(entries := RotateUp(g.entries, g.top + g.row, g.top + m.Bottom() + 1, n, m.Cleared()), overflow := false)
  }

  /** Insert lines at the cursor.  The count is clamped so that at least one line of the region stays. */
  function InsertLines(g: Grid, m: Modes, count: nat): Grid
    requires GridOk(g, m) && g.row <= m.Bottom()
  {
    var n := Min(count, m.Bottom() - g.row);
    var entries := RotateDown(g.entries, g.top + g.row, g.top + m.Bottom() + 1, n, m.Cleared());
    if n == 0 then g.(entries := entries) else g.(entries := entries, column := 0, overflow := false)
  }

  function ScrollUp(g: Grid, m: Modes, count: nat): Grid
    requires GridOk(g, m)
  {
    DeleteLines(g.(row := m.Top(), overflow := false), m, count).(row := g.row, overflow := g.overflow)
  }

  function ScrollDown(g: Grid, m: Modes, count: nat): Grid
    requires GridOk(g, m)
  {
    var top := g.(row := m.Top(), column := 0, overflow := false);
    InsertLines(top, m, count).(row := g.row, column := g.column, overflow := g.overflow)
  }

  /** Fresh blank lines. */
  function BlankEntries(id: nat, count: nat): (entries: seq<Entry>)
    ensures |entries| == count
    ensures forall i :: 0 <= i < count ==> entries[i] == Entry(id + i, [])
  {
    seq(count, i requires 0 <= i < count => Entry(id + i, []))
  }

  /** One line more at the end; the first line of the screen becomes scrollback. */
  function AppendLine(g: Grid, m: Modes): Grid {
    Grid(g.entries + BlankEntries(g.nextId, 1), g.top + 1, m.height - 1, 0, false, g.nextId + 1)
  }

  /** A blank line right after the cursor line; the first line of the screen becomes scrollback. */
  function InsertLineAfter(g: Grid, m: Modes): Grid
    requires GridOk(g, m)
  {
    var at := g.top + g.row + 1;
    Grid(g.entries[..at] + BlankEntries(g.nextId, 1) + g.entries[at..], g.top + 1, g.row, 0, false, g.nextId + 1)
  }

  /** The next line, scrolling when the cursor is at the bottom. */
  function NewLine(g: Grid, m: Modes): Grid
    requires GridOk(g, m)
  {
    if m.regionTop.Some? && g.row == m.Bottom() then ScrollUp(g, m, 1).(column := 0, overflow := false)
    else if g.row == m.height - 1 then AppendLine(g, m)
    else if g.row == m.Bottom() then InsertLineAfter(g, m)
    else g.(row := g.row + 1, column := 0, overflow := false)
  }

  // ---------------------------------------------------------------- height

  /** How many empty lines at the end, strictly below the line `cursor`, may go; at most `limit`. */
  function Droppable(entries: seq<Entry>, cursor: int, limit: nat): (n: nat)
    ensures n <= limit && n <= |entries|
    decreases limit
  {
    if limit == 0 || |entries| == 0 || |entries| - 1 == cursor || entries[|entries| - 1].line != [] then 0
    else 1 + Droppable(entries[..|entries| - 1], cursor, limit - 1)
  }

  /**
   Show `rowCount` lines.  A lower screen first loses empty lines below the cursor, then gives lines to
   the scrollback; a higher one takes lines back from the scrollback if it has enough of them, and
   otherwise gets blank lines.
   */
  function Resize(g: Grid, rowCount: nat): Grid
    requires g.top <= |g.entries|
  {
    var height := |g.entries| - g.top;
    if rowCount == height then g
    else if rowCount < height then
      var dropped := Droppable(g.entries, g.top + g.row, height - rowCount);
      var shifted := height - rowCount - dropped;
      g.(entries := g.entries[..|g.entries| - dropped], top := g.top + shifted,
         row := if g.row >= shifted then g.row - shifted else 0)
    else
      var missing := rowCount - height;
      if missing <= g.top then g.(top := g.top - missing, row := g.row + missing)
      else g.(entries := g.entries + BlankEntries(g.nextId, missing), nextId := g.nextId + missing)
  }

  function ClearScrollback(g: Grid): Grid
    requires g.top <= |g.entries|
  {
    g.(entries := g.entries[g.top..], top := 0)
  }

  // ---------------------------------------------------------------- characters

  /** What a line shows from a column on. */
  function Behind(line: Line, column: nat): Line {
    if column < |line| then line[column..] else []
  }

  /** Cells put over a line at a column.  A wide glyph that loses one half leaves a mark in the place of the other. */
  function Overwrite(line: Line, column: nat, cells: Line, mark: Line): Line {
    MendEnd(Pad(line, column)[..column], mark) + cells + MendStart(Behind(line, column + |cells|), mark)
  }

  function PutCells(line: Line, column: nat, cells: Line, m: Modes): Line {
    Clip(if m.insertMode then Insert(line, column, cells) else Overwrite(line, column, cells, m.Mark()), m.width)
  }

  function LineAt(g: Grid): Line
    requires 0 <= g.row && g.top + g.row < |g.entries|
  {
    g.entries[g.top + g.row].line
  }

  function SetLine(g: Grid, line: Line): Grid
    requires 0 <= g.row && g.top + g.row < |g.entries|
  {
    g.(entries := g.entries[g.top + g.row := WithLine(g.entries[g.top + g.row], line)])
  }

  /** Put cells at the cursor and advance it; at the right margin it stays, in the overflow state. */
  function Write(g: Grid, m: Modes, cells: Line): Grid
    requires GridOk(g, m)
  {
    var line := PutCells(LineAt(g), g.column, cells, m);
    var column := g.column + |cells|;
    SetLine(g, line).(column := Min(column, m.width - 1), overflow := column >= m.width)
  }

  /** The cell of one character in the current attributes. */
  function CellOf(m: Modes, c: Glyph): Line {
    Paint(c, m.attributes.ContainerStyle())
  }

  /** Text that is inserted must not split a wide glyph; a pending wrap moves the cursor to a new line first. */
  predicate Puttable(g: Grid, m: Modes)
    requires GridOk(g, m)
  {
    m.insertMode ==> (m.wraparound && g.overflow) || !InsideWide(LineAt(g), g.column)
  }

  /** Wrap if the cursor is in the overflow state, then put one character. */
  function Put(g: Grid, m: Modes, c: Glyph): (result: Grid)
    requires GridOk(g, m) && Puttable(g, m) && c.Narrow?
    ensures GridOk(result, m) && Puttable(result, m)
  {
    if m.wraparound && g.overflow then
      NewLineKeepsOk(g, m);
      FirstColumnOutside(NewLine(g, m), m);
      WriteKeepsOk(NewLine(g, m), m, CellOf(m, c));
      Write(NewLine(g, m), m, CellOf(m, c))
    else
      WriteKeepsOk(g, m, CellOf(m, c));
      Write(g, m, CellOf(m, c))
  }

  /** A text, one character at a time. */
  function PutAll(g: Grid, m: Modes, text: Text): (result: Grid)
    requires GridOk(g, m) && (text != [] ==> Puttable(g, m)) && AllNarrow(text)
    ensures GridOk(result, m)
    ensures Puttable(g, m) ==> Puttable(result, m)
    decreases |text|
  {
    if text == [] then g else PutAll(Put(g, m, text[0]), m, text[1..])
  }

  // ---------------------------------------------------------------- erasing

  /** Spaces in the current attributes. */
  function SpaceCells(m: Modes, count: nat): Line {
    TextCells(Spaces(count), m.attributes.ContainerStyle())
  }

  /** The columns up to the cursor, which they include. */
  function EraseToLeft(g: Grid, m: Modes): Grid
    requires GridOk(g, m)
  {
    SetLine(g, Overwrite(LineAt(g), 0, SpaceCells(m, g.column + 1), m.Mark()))
  }

  /** How many columns `count` stands for; none given, or too many, is all of them up to the margin. */
  function EraseCount(g: Grid, m: Modes, count: nat): nat
    requires GridOk(g, m)
  {
    if count == 0 || count > m.width - g.column then m.width - g.column else count
  }

  /** With the default background the end of a line is cut off, instead of being written over with spaces. */
  predicate CutsLine(g: Grid, m: Modes, count: nat)
    requires GridOk(g, m)
  {
    m.attributes.Background() == DefaultColor && |LineAt(g)| <= g.column + EraseCount(g, m, count)
  }

  function EraseToRight(g: Grid, m: Modes, count: nat): Grid
    requires GridOk(g, m)
  {
    var line, n := LineAt(g), EraseCount(g, m, count);
    if g.overflow then g
    else if CutsLine(g, m, count) then SetLine(g, Delete(line, g.column, n, m.Mark()))
    else SetLine(g, Overwrite(line, g.column, SpaceCells(m, n), m.Mark()))
  }

  function EraseLine(g: Grid, m: Modes): Grid
    requires GridOk(g, m)
  {
    SetLine(g, m.Cleared()).(overflow := false)
  }

  function EraseAbove(g: Grid, m: Modes): Grid
    requires GridOk(g, m)
  {
    var g' := EraseToLeft(g, m);
    g'.(entries := ClearedRange(g'.entries, g.top, g.row, m.Cleared()), overflow := false)
  }

  function EraseBelow(g: Grid, m: Modes): Grid
    requires GridOk(g, m)
  {
    var g' := EraseToRight(g, m, 0);
    g'.(entries := ClearedRange(g'.entries, g.top + g.row + 1, m.height - g.row - 1, m.Cleared()), overflow := false)
  }

  function InsertSpace(g: Grid, m: Modes, count: nat): Grid
    requires GridOk(g, m)
  {
    var n := if count == 0 then 1 else count;
    SetLine(g, Clip(Insert(LineAt(g), g.column, SpaceCells(m, n)), m.width)).(overflow := false)
  }

  /** Delete cells at the cursor; with attributes set, as many spaces come in at the margin. */
  function DeleteChars(g: Grid, m: Modes, count: nat): Grid
    requires GridOk(g, m)
  {
    var line, n := LineAt(g), Min(count, m.width - g.column);
    var rest := Delete(line, g.column, n, m.Mark());
    var filled := if n > 0 && !m.attributes.IsDefault() then Insert(rest, m.width - n, SpaceCells(m, n)) else rest;
    SetLine(g, filled).(overflow := false)
  }

  // ---------------------------------------------------------------- every operation keeps the grid in order

  lemma ClearedIsNarrow(m: Modes)
    ensures NarrowLine(m.Cleared()) && Paired(m.Cleared()) && |m.Cleared()| <= m.width
  {
    if !m.attributes.IsDefault() {
      NarrowSingle(Spaces(m.width), m.attributes.(inverse := false).ContainerStyle());
    }
    NarrowIsPaired(m.Cleared());
  }

  /** Where each line of the result of a rotation comes from. */
  function UpSource(from: nat, to: nat, n: nat, i: nat): nat
    requires from + n <= to
  {
    if i < from || i >= to then i else if i < to - n then i + n else i - (to - n) + from
  }

  function DownSource(from: nat, to: nat, n: nat, i: nat): nat
    requires from + n <= to
  {
    if i < from || i >= to then i else if i < from + n then i - from + to - n else i - n
  }

  lemma RotateUpAt(entries: seq<Entry>, from: nat, to: nat, n: nat, cleared: Line, i: nat)
    requires from + n <= to <= |entries| && i < |entries|
    ensures UpSource(from, to, n, i) < |entries|
    ensures RotateUp(entries, from, to, n, cleared)[i]
         == var e := entries[UpSource(from, to, n, i)];
            if to - n <= i < to then Entry(e.id, cleared) else e
  {
  }

  lemma RotateDownAt(entries: seq<Entry>, from: nat, to: nat, n: nat, cleared: Line, i: nat)
    requires from + n <= to <= |entries| && i < |entries|
    ensures DownSource(from, to, n, i) < |entries|
    ensures RotateDown(entries, from, to, n, cleared)[i]
         == var e := entries[DownSource(from, to, n, i)];
            if from <= i < from + n then Entry(e.id, cleared) else e
  {
  }

  /** `entries'` shows the lines of `entries` in a new order, some of them cleared. */
  predicate Rearranged(entries: seq<Entry>, entries': seq<Entry>, source: int -> int, cleared: Line) {
    |entries'| == |entries| &&
    (forall i :: 0 <= i < |entries| ==> 0 <= source(i) < |entries| && entries'[i].id == entries[source(i)].id) &&
    (forall i :: 0 <= i < |entries| ==> entries'[i].line == entries[source(i)].line || entries'[i].line == cleared) &&
    (forall i, j :: 0 <= i < j < |entries| ==> source(i) != source(j))
  }

  lemma RearrangedKeepsOk(g: Grid, m: Modes, entries: seq<Entry>, source: int -> int)
    requires GridOk(g, m) && Rearranged(g.entries, entries, source, m.Cleared())
    ensures GridOk(g.(entries := entries), m)
  {
    ClearedIsNarrow(m);
    forall i, j | 0 <= i < j < |entries| ensures entries[i].id != entries[j].id {
      assert source(i) != source(j);
    }
  }

  lemma RotatedUpOk(g: Grid, m: Modes, from: nat, to: nat, n: nat)
    requires GridOk(g, m) && from + n <= to <= |g.entries|
    ensures GridOk(g.(entries := RotateUp(g.entries, from, to, n, m.Cleared())), m)
  {
    hide RotateUp, GridOk, ClearedLine;
    forall i | 0 <= i < |g.entries|
      ensures UpSource(from, to, n, i) < |g.entries|
      ensures RotateUp(g.entries, from, to, n, m.Cleared())[i]
           == var e := g.entries[UpSource(from, to, n, i)];
              if to - n <= i < to then Entry(e.id, m.Cleared()) else e
    {
      RotateUpAt(g.entries, from, to, n, m.Cleared(), i);
    }
    RearrangedKeepsOk(g, m, RotateUp(g.entries, from, to, n, m.Cleared()),
                      i => if i >= 0 then UpSource(from, to, n, i) else 0);
  }

  lemma DeleteLinesKeepsOk(g: Grid, m: Modes, count: nat)
    requires GridOk(g, m)
    ensures GridOk(DeleteLines(g, m, count), m)
  {
    hide RotateUp;
    if g.row <= m.Bottom() {
      RotatedUpOk(g, m, g.top + g.row, g.top + m.Bottom() + 1, Min(count, m.Bottom() - g.row + 1));
    }
  }

  lemma InsertedKeepsOk(g: Grid, m: Modes, at: nat, row: int)
    requires GridOk(g, m) && at <= |g.entries| && 0 <= row < m.height
    ensures var entries := g.entries[..at] + BlankEntries(g.nextId, 1) + g.entries[at..];
            GridOk(Grid(entries, g.top + 1, row, 0, false, g.nextId + 1), m)
  {
    var entries := g.entries[..at] + BlankEntries(g.nextId, 1) + g.entries[at..];
    assert forall i :: 0 <= i < |entries| ==>
      entries[i] == if i < at then g.entries[i] else if i == at then Entry(g.nextId, []) else g.entries[i - 1];
  }

  lemma NewLineKeepsOk(g: Grid, m: Modes)
    requires GridOk(g, m)
    ensures GridOk(NewLine(g, m), m)
  {
    if m.regionTop.Some? && g.row == m.Bottom() {
      DeleteLinesKeepsOk(g.(row := m.Top(), overflow := false), m, 1);
    } else if g.row == m.height - 1 {
      InsertedKeepsOk(g, m, |g.entries|, m.height - 1);
      assert g.entries[..|g.entries|] + BlankEntries(g.nextId, 1) + g.entries[|g.entries|..]
        == g.entries + BlankEntries(g.nextId, 1);
    } else if g.row == m.Bottom() {
      InsertedKeepsOk(g, m, g.top + g.row + 1, g.row);
    }
  }

  /** No glyph starts in front of the first column. */
  lemma FirstColumnOutside(g: Grid, m: Modes)
    requires GridOk(g, m)
    ensures !InsideWide(LineAt(g), 0)
  {
    if LineAt(g) != [] {
      assert PairedAt(LineAt(g), 0);
    }
  }

  lemma SpacesAreCells(m: Modes, n: nat)
    ensures |SpaceCells(m, n)| == n && NarrowLine(SpaceCells(m, n))
  {
    NarrowSingle(Spaces(n), m.attributes.ContainerStyle());
  }

  lemma OverwritePaired(line: Line, column: nat, cells: Line, mark: Line)
    requires Paired(line) && NarrowLine(cells) && |mark| == 1 && NarrowLine(mark)
    ensures Paired(Overwrite(line, column, cells, mark))
    ensures |Overwrite(line, column, cells, mark)| == if column + |cells| < |line| then |line| else column + |cells|
    ensures !InsideWide(Overwrite(line, column, cells, mark), column + |cells|)
  {
    hide MendEnd, MendStart;
    var padded := Pad(line, column);
    PadPaired(line, column);
    MendedParts(padded, column, mark);
    var rest := if column + |cells| < |line| then line[column + |cells|..] else [];
    if column + |cells| < |line| {
      MendedParts(line, column + |cells|, mark);
    } else {
      MendedParts(line, |line|, mark);
      assert line[|line|..] == [];
    }
    PairedIsWhole(MendStart(rest, mark));
    NarrowIsPaired(cells);
    PairedJoined(MendEnd(padded[..column], mark), cells);
    PairedJoined(MendEnd(padded[..column], mark) + cells, MendStart(rest, mark));
  }

  /** Cells put at a column leave whole glyphs, and the column behind them does not cut one. */
  lemma PutCellsPaired(line: Line, column: nat, cells: Line, m: Modes)
    requires Paired(line) && NarrowLine(cells) && (m.insertMode ==> !InsideWide(line, column))
    ensures Paired(PutCells(line, column, cells, m)) && |PutCells(line, column, cells, m)| <= m.width
    ensures !InsideWide(PutCells(line, column, cells, m), column + |cells|)
  {
    hide Insert, Overwrite, Clip;
    SpacesAreCells(m, 1);
    InsertOrOverwritePaired(line, column, cells, m);
    var put := if m.insertMode then Insert(line, column, cells) else Overwrite(line, column, cells, m.Mark());
    ClipPaired(put, m.width);
    ClipKeepsOutside(put, m.width, column + |cells|);
  }

  lemma InsertOrOverwritePaired(line: Line, column: nat, cells: Line, m: Modes)
    requires Paired(line) && NarrowLine(cells) && (m.insertMode ==> !InsideWide(line, column))
    ensures var put := if m.insertMode then Insert(line, column, cells) else Overwrite(line, column, cells, m.Mark());
            Paired(put) && !InsideWide(put, column + |cells|)
  {
    hide Insert, Overwrite;
    SpacesAreCells(m, 1);
    if m.insertMode {
      InsertPaired(line, column, cells);
    } else {
      OverwritePaired(line, column, cells, m.Mark());
    }
  }

  lemma ClipKeepsOutside(line: Line, width: nat, column: nat)
    requires !InsideWide(line, column)
    ensures !InsideWide(Clip(line, width), column)
  {
  }

  lemma WriteKeepsOk(g: Grid, m: Modes, cells: Line)
    requires GridOk(g, m) && NarrowLine(cells) && cells != []
    requires m.insertMode ==> !InsideWide(LineAt(g), g.column)
    ensures GridOk(Write(g, m, cells), m) && Puttable(Write(g, m, cells), m)
  {
    hide PutCells;
    PutCellsPaired(LineAt(g), g.column, cells, m);
    if m.insertMode && g.column + |cells| > m.width - 1 {
      MarginIsNarrow(LineAt(g), g.column, cells, m);
    }
  }

  /** Cells that reach the margin leave a narrow glyph there. */
  lemma MarginIsNarrow(line: Line, column: nat, cells: Line, m: Modes)
    requires NarrowLine(cells) && column < m.width <= column + |cells| && m.insertMode
    ensures !InsideWide(PutCells(line, column, cells, m), m.width - 1)
  {
    var put := Insert(line, column, cells);
    assert put[m.width - 1] == cells[m.width - 1 - column];
  }
}
