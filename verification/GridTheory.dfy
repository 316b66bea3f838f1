/**
 Facts about the grid terminal: printing in pieces, printing in bulk, and what line operations and
 height changes keep.
 */
module GridTheory {
  import opened Common
  import opened TextAttributes
  import opened Cells
  import opened Grids

  // ---------------------------------------------------------------- printing

  /** Printing a text in two pieces is printing it as a whole. */
  lemma {:induction false} PutAllAppend(g: Grid, m: Modes, a: Text, b: Text)
    requires GridOk(g, m) && AllNarrow(a) && AllNarrow(b) && (a + b != [] ==> Puttable(g, m))
    ensures PutAll(g, m, a + b) == PutAll(PutAll(g, m, a), m, b)
    decreases |a|
  {
    hide GridOk, Put, Puttable;
    if a == [] {
      assert a + b == b;
    } else {
      assert (a + b)[0] == a[0] && (a + b)[1..] == a[1..] + b;
      PutAllAppend(Put(g, m, a[0]), m, a[1..], b);
    }
  }

  /** Putting cells over a line in two steps. */
  lemma OverwriteTwice(line: Line, column: nat, a: Line, b: Line, mark: Line)
    requires NarrowLine(a) && a != [] && |mark| == 1 && NarrowLine(mark)
    ensures Overwrite(Overwrite(line, column, a, mark), column + |a|, b, mark) == Overwrite(line, column, a + b, mark)
  {
    hide Overwrite, MendEnd, MendStart, Pad;
    var head := MendEnd(Pad(line, column)[..column], mark);
    var rest := Behind(line, column + |a|);
    OverwriteParts(line, column, a, mark);
    OverwriteParts(line, column, a + b, mark);
    LastJoined(head, a);
    JoinedOverwrite(head + a, MendStart(rest, mark), b, mark);
    Associative(head, a, b);
    MendedRest(rest, |b|, mark);
    BehindTwice(line, column + |a|, |b|);
    HeadLength(line, column, mark);
  }

  lemma BehindTwice(line: Line, column: nat, n: nat)
    ensures Behind(Behind(line, column), n) == Behind(line, column + n)
  {
  }

  lemma HeadLength(line: Line, column: nat, mark: Line)
    requires |mark| == 1
    ensures |Pad(line, column)| >= column && |MendEnd(Pad(line, column)[..column], mark)| == column
  {
  }

  lemma OverwriteParts(line: Line, column: nat, cells: Line, mark: Line)
    ensures |Pad(line, column)| >= column
    ensures Overwrite(line, column, cells, mark)
         == MendEnd(Pad(line, column)[..column], mark) + cells + MendStart(Behind(line, column + |cells|), mark)
  {
  }

  /** Cells put over the end of a line whose first part ends in a narrow glyph. */
  lemma JoinedOverwrite(head: Line, tail: Line, cells: Line, mark: Line)
    requires head != [] ==> !head[|head| - 1].half.LeftHalf?
    ensures Overwrite(head + tail, |head|, cells, mark)
         == head + cells + MendStart(Behind(tail, |cells|), mark)
  {
    assert Pad(head + tail, |head|)[..|head|] == head;
    if |cells| < |tail| {
      assert (head + tail)[|head| + |cells|..] == tail[|cells|..];
    }
  }

  lemma MendedRest(rest: Line, n: nat, mark: Line)
    requires |mark| == 1 && NarrowLine(mark)
    ensures var rest' := MendStart(rest, mark);
            MendStart(Behind(rest', n), mark) == MendStart(Behind(rest, n), mark)
  {
    if 0 < n < |rest| {
      assert MendStart(rest, mark)[n..] == rest[n..];
    }
  }

  /** Splicing cells into a line in two steps, cutting at the margin after each. */
  lemma InsertTwice(line: Line, column: nat, a: Line, b: Line, width: nat)
    requires Paired(line) && !InsideWide(line, column) && NarrowLine(a) && NarrowLine(b) && a != [] &&
      column + |a| + |b| <= width
    ensures Clip(Insert(Clip(Insert(line, column, a), width), column + |a|, b), width)
      == Clip(Insert(line, column, a + b), width)
  {
    hide Clip, Insert, Pad, Paired;
    var head, tail := Pad(line, column)[..column], Pad(line, column)[column..];
    var k := width - column - |a|;
    SplitAt(line, column);
    InsertParts(line, column, a);
    InsertParts(line, column, a + b);
    ClipParts(head, a, tail, width);
    SplicedParts(head + a, Clip(tail, k), b);
    assert head + a + b == head + (a + b);
    ClipParts(head, a + b, Clip(tail, k), width);
    ClipParts(head, a + b, tail, width);
    ClipTwice(tail, k, k - |b|);
  }

  /** What is in front of a column, and what is behind. */
  lemma SplitAt(line: Line, column: nat)
    requires Paired(line) && !InsideWide(line, column)
    ensures |Pad(line, column)| >= column
    ensures Paired(Pad(line, column)[..column]) && Paired(Pad(line, column)[column..])
  {
    PadPaired(line, column);
    PairedParts(Pad(line, column), column);
  }

  lemma ClipTwice(line: Line, k: nat, n: nat)
    requires Paired(line) && n <= k
    ensures Clip(Clip(line, k), n) == Clip(line, n)
  {
    if n > 0 && n < |line| {
      assert PairedAt(line, n - 1) && PairedAt(line, n);
    }
  }

  lemma ClipParts(head: Line, cells: Line, tail: Line, width: nat)
    requires NarrowLine(cells) && cells != [] && |head| + |cells| <= width
    ensures Clip(head + cells + tail, width) == head + cells + Clip(tail, width - |head| - |cells|)
  {
    var k := width - |head| - |cells|;
    if |tail| > k {
      if k == 0 {
        assert (head + cells + tail)[width - 1] == cells[|cells| - 1];
      } else {
        assert (head + cells + tail)[width - 1] == tail[k - 1];
      }
    }
  }

  lemma InsertParts(line: Line, column: nat, cells: Line)
    ensures Insert(line, column, cells) == Pad(line, column)[..column] + cells + Pad(line, column)[column..]
  {
  }

  lemma SplicedParts(head: Line, tail: Line, cells: Line)
    ensures Insert(head + tail, |head|, cells) == head + cells + tail
  {
  }

  lemma PutCellsTwice(line: Line, column: nat, a: Line, b: Line, m: Modes)
    requires Paired(line) && |line| <= m.width && (m.insertMode ==> !InsideWide(line, column))
    requires NarrowLine(a) && NarrowLine(b) && a != [] && column + |a| + |b| <= m.width
    ensures PutCells(PutCells(line, column, a, m), column + |a|, b, m) == PutCells(line, column, a + b, m)
  {
    hide Insert, Overwrite, Clip;
    SpacesAreCells(m, 1);
    if m.insertMode {
      InsertTwice(line, column, a, b, m.width);
    } else {
      OverwriteTwice(line, column, a, b, m.Mark());
      OverwritePaired(line, column, a, m.Mark());
      ClipWithin(Overwrite(line, column, a, m.Mark()), m.width);
    }
  }

  lemma ClipWithin(line: Line, width: nat)
    requires |line| <= width
    ensures Clip(line, width) == line
  {
  }

  /** On the last column only the last cell counts. */
  lemma PutCellsAtMargin(line: Line, a: Line, b: Line, m: Modes)
    requires Paired(line) && |line| <= m.width && m.width > 0 && (m.insertMode ==> !InsideWide(line, m.width - 1))
    requires NarrowLine(a) && NarrowLine(b) && |a| == |b| == 1
    ensures PutCells(PutCells(line, m.width - 1, a, m), m.width - 1, b, m) == PutCells(line, m.width - 1, b, m)
  {
    hide PutCells;
    var put := PutCells(line, m.width - 1, a, m);
    var head := MendEnd(Pad(line, m.width - 1)[..m.width - 1], m.Mark());
    SpacesAreCells(m, 1);
    MarginCells(line, a, m);
    MarginCells(line, b, m);
    PutCellsPaired(line, m.width - 1, a, m);
    assert put[m.width - 1] == a[0];
    MarginCells(put, b, m);
    assert Pad(put, m.width - 1)[..m.width - 1] == head;
  }

  lemma MarginCells(line: Line, a: Line, m: Modes)
    requires Paired(line) && |line| <= m.width && m.width > 0 && (m.insertMode ==> !InsideWide(line, m.width - 1))
    requires NarrowLine(a) && |a| == 1
    ensures PutCells(line, m.width - 1, a, m) == MendEnd(Pad(line, m.width - 1)[..m.width - 1], m.Mark()) + a
    ensures |MendEnd(Pad(line, m.width - 1)[..m.width - 1], m.Mark())| == m.width - 1
  {
    hide Clip, Insert, Paired;
    var column := m.width - 1;
    var head, tail := Pad(line, column)[..column], Pad(line, column)[column..];
    SpacesAreCells(m, 1);
    if m.insertMode {
      SplitAt(line, column);
      PairedIsWhole(head);
      InsertParts(line, column, a);
      ClipParts(head, a, tail, m.width);
      ClipNothing(tail);
      assert MendEnd(head, m.Mark()) == head;
    } else {
      OverwriteParts(line, column, a, m.Mark());
      MendNothing(Behind(line, column + 1), m.Mark());
      assert MendEnd(head, m.Mark()) + a + [] == MendEnd(head, m.Mark()) + a;
      ClipWithin(MendEnd(head, m.Mark()) + a, m.width);
    }
  }

  lemma ClipNothing(line: Line)
    ensures Clip(line, 0) == []
  {
  }

  lemma WriteTwice(g: Grid, m: Modes, a: Line, b: Line)
    requires GridOk(g, m) && (m.insertMode ==> !InsideWide(LineAt(g), g.column))
    requires NarrowLine(a) && NarrowLine(b) && a != [] && g.column + |a| < m.width && g.column + |a| + |b| <= m.width
    ensures GridOk(Write(g, m, a), m)
    ensures Write(Write(g, m, a), m, b) == Write(g, m, a + b)
  {
    hide PutCells;
    WriteKeepsOk(g, m, a);
    PutCellsTwice(LineAt(g), g.column, a, b, m);
  }

  lemma WriteAtMargin(g: Grid, m: Modes, a: Line, b: Line)
    requires GridOk(g, m) && (m.insertMode ==> !InsideWide(LineAt(g), g.column))
    requires NarrowLine(a) && NarrowLine(b) && |a| == |b| == 1 && g.column == m.width - 1
    ensures GridOk(Write(g, m, a), m)
    ensures Write(Write(g, m, a), m, b) == Write(g, m, b)
  {
    hide PutCells;
    WriteKeepsOk(g, m, a);
    PutCellsAtMargin(LineAt(g), a, b, m);
  }

  /** The cells of a text in the current attributes. */
  function CellsOf(m: Modes, text: Text): Line {
    TextCells(text, m.attributes.ContainerStyle())
  }

  lemma CellsOfNarrow(m: Modes, text: Text)
    requires AllNarrow(text)
    ensures NarrowLine(CellsOf(m, text)) && |CellsOf(m, text)| == |text|
    ensures |text| == 1 ==> CellsOf(m, text) == CellOf(m, text[0])
    ensures text != [] ==> CellsOf(m, text) == CellOf(m, text[0]) + CellsOf(m, text[1..])
  {
    NarrowSingle(text, m.attributes.ContainerStyle());
    if |text| == 1 {
      WideCells(text, m.attributes.ContainerStyle());
    }
  }

  /** A text that fits on the line may be put as a whole. */
  lemma {:induction false} PutRun(g: Grid, m: Modes, text: Text)
    requires GridOk(g, m) && Puttable(g, m) && AllNarrow(text) && text != []
    requires g.column + |text| <= m.width && !(m.wraparound && g.overflow)
    ensures PutAll(g, m, text) == Write(g, m, CellsOf(m, text))
    decreases |text|
  {
    hide GridOk, Write, CellsOf, CellOf, NewLine, InsideWide;
    CellsOfNarrow(m, text);
    var first := CellOf(m, text[0]);
    PutPlain(g, m, text[0]);
    if |text| > 1 {
      CellsOfNarrow(m, text[1..]);
      PutRun(Put(g, m, text[0]), m, text[1..]);
      WriteTwice(g, m, first, CellsOf(m, text[1..]));
    }
  }

  lemma PutPlain(g: Grid, m: Modes, c: Glyph)
    requires GridOk(g, m) && Puttable(g, m) && c.Narrow? && !(m.wraparound && g.overflow)
    ensures Put(g, m, c) == Write(g, m, CellOf(m, c)) && NarrowLine(CellOf(m, c)) && |CellOf(m, c)| == 1
    ensures Put(g, m, c).column == Min(g.column + 1, m.width - 1)
    ensures Put(g, m, c).overflow <==> g.column + 1 >= m.width
  {
  }

  /** Without wraparound, everything that is put on the last column replaces what was there. */
  lemma {:induction false} PutAtMargin(g: Grid, m: Modes, text: Text)
    requires GridOk(g, m) && Puttable(g, m) && AllNarrow(text) && text != [] && g.column == m.width - 1 && !m.wraparound
    ensures PutAll(g, m, text) == Write(g, m, CellOf(m, text[|text| - 1]))
    decreases |text|
  {
    hide GridOk, Write, CellOf, NewLine, InsideWide;
    PutPlain(g, m, text[0]);
    var next := Put(g, m, text[0]);
    if |text| > 1 {
      MarginStays(g, m);
      PutAtMargin(next, m, text[1..]);
      var last := text[|text| - 1];
      PutPlain(g, m, last);
      WriteAtMargin(g, m, CellOf(m, text[0]), CellOf(m, last));
    }
  }

  lemma MarginStays(g: Grid, m: Modes)
    requires GridOk(g, m) && g.column == m.width - 1
    ensures Min(g.column + 1, m.width - 1) == m.width - 1
  {
  }

  /** A text too long for its line, without wraparound: its start, and its last character at the margin. */
  lemma PutClipped(g: Grid, m: Modes, text: Text)
    requires GridOk(g, m) && Puttable(g, m) && AllNarrow(text) && g.column + |text| >= m.width && !m.wraparound
    ensures 0 < m.width - g.column <= |text|
    ensures PutAll(g, m, text)
         == Write(g, m, CellsOf(m, text[..m.width - g.column - 1] + [text[|text| - 1]]))
  {
    hide Write, CellsOf, CellOf, NewLine, PutAll, InsideWide;
    var k := m.width - g.column - 1;
    var head, tail, last := text[..k], text[k..], text[|text| - 1];
    CellsOfNarrow(m, [last]);
    if k == 0 {
      FromStart(text, [last]);
      PutAtMargin(g, m, text);
    } else {
      SliceJoin(text, k, k);
      PutAllAppend(g, m, head, tail);
      PutRun(g, m, head);
      CellsOfNarrow(m, head);
      WriteTwice(g, m, CellsOf(m, head), CellsOf(m, [last]));
      WriteColumn(g, m, CellsOf(m, head));
      PutAtMargin(PutAll(g, m, head), m, tail);
      TextCellsAppend(head, [last], m.attributes.ContainerStyle());
      CellsOfAppend(m, head, [last]);
    }
  }

  lemma FromStart<T>(s: seq<T>, t: seq<T>)
    ensures s[0..] == s && s[..0] + t == t
  {
  }

  /** As much of a text as fits on the line, and then the rest of it. */
  lemma PutPiece(g: Grid, m: Modes, text: Text, count: nat)
    requires GridOk(g, m) && Puttable(g, m) && AllNarrow(text) && text != [] && !(m.wraparound && g.overflow)
    requires count == Min(|text|, m.width - g.column)
    ensures var written := Write(g, m, CellsOf(m, text[..count]));
            GridOk(written, m) && Puttable(written, m) && PutAll(written, m, text[count..]) == PutAll(g, m, text) &&
            (count < |text| ==> written.overflow)
  {
    hide Write, CellsOf, NewLine, PutAll, Puttable;
    assert text == text[..count] + text[count..];
    PutAllAppend(g, m, text[..count], text[count..]);
    PutRun(g, m, text[..count]);
    CellsOfNarrow(m, text[..count]);
    WriteColumn(g, m, CellsOf(m, text[..count]));
  }

  lemma WriteColumn(g: Grid, m: Modes, cells: Line)
    requires GridOk(g, m)
    ensures g.column + |cells| < m.width ==> Write(g, m, cells).column == g.column + |cells|
    ensures Write(g, m, cells).overflow <==> g.column + |cells| >= m.width
  {
  }

  lemma CellsOfAppend(m: Modes, a: Text, b: Text)
    ensures CellsOf(m, a + b) == CellsOf(m, a) + CellsOf(m, b)
  {
    TextCellsAppend(a, b, m.attributes.ContainerStyle());
  }

  /** The wrap that is pending may be made first. */
  lemma PutAfterWrap(g: Grid, m: Modes, text: Text)
    requires GridOk(g, m) && AllNarrow(text) && text != [] && m.wraparound && g.overflow
    ensures GridOk(NewLine(g, m), m) && Puttable(NewLine(g, m), m) && !NewLine(g, m).overflow
    ensures PutAll(NewLine(g, m), m, text) == PutAll(g, m, text)
  {
    hide GridOk, Write;
    NewLineKeepsOk(g, m);
    FirstColumnOutside(NewLine(g, m), m);
  }

  /** Deleting as many columns as are then inserted is putting the cells over the line. */
  lemma DeleteInsertIsOverwrite(line: Line, column: nat, cells: Line, mark: Line)
    requires Paired(line) && cells != [] && |mark| == 1
    ensures Insert(Delete(line, column, |cells|, mark), column, cells) == Overwrite(line, column, cells, mark)
  {
    hide Paired, MendEnd, MendStart, Insert, Overwrite, Pad;
    OverwriteParts(line, column, cells, mark);
    if column < |line| {
      HeadLength(line, column, mark);
      PadNothing(line, column);
      assert line[|line|..] == [];
      SplicedParts(MendEnd(line[..column], mark), MendStart(Behind(line, column + |cells|), mark), cells);
    } else {
      SplitAt(line, column);
      InsertParts(line, column, cells);
      WholeStays(Pad(line, column)[..column], mark);
      MendNothing(Behind(line, column + |cells|), mark);
    }
  }

  lemma PadNothing(line: Line, column: nat)
    requires column <= |line|
    ensures Pad(line, column) == line
  {
  }

  lemma WholeStays(line: Line, mark: Line)
    requires Paired(line)
    ensures MendEnd(line, mark) == line
  {
    PairedIsWhole(line);
  }

  lemma MendNothing(line: Line, mark: Line)
    requires line == []
    ensures MendStart(line, mark) == MendStart([], mark) == []
  {
  }

  /** Whether a container is marked ASCII cannot be seen. */
  lemma {:induction false} AsciiIsInvisible(attributes: Attributes, ascii: bool, text: Text)
    requires !attributes.wcNode && attributes.asciiNode
    ensures TextCells(text, attributes.(asciiNode := ascii).ContainerStyle())
      == TextCells(text, attributes.ContainerStyle())
  {
    if text != [] {
      AsciiIsInvisible(attributes, ascii, text[1..]);
      var a, b := attributes.(asciiNode := ascii).ContainerStyle(), attributes.ContainerStyle();
      assert Seen(a) == Seen(b);
    }
  }

  // ---------------------------------------------------------------- erasing

  /** A deletion leaves as much room at the margin as it took columns. */
  lemma DeleteRoom(line: Line, column: nat, n: nat, mark: Line, width: nat)
    requires |line| <= width && column + n <= width && |mark| == 1
    ensures |Delete(line, column, n, mark)| <= width - n
  {
  }

  lemma InsertWidth(line: Line, column: nat, cells: Line)
    requires |line| <= column
    ensures |Insert(line, column, cells)| == column + |cells|
  {
  }

  lemma ClipFits(line: Line, width: nat)
    ensures |Clip(line, width)| <= width
  {
  }

  lemma ErasedKeeps(g: Grid, m: Modes, count: nat)
    requires GridOk(g, m)
    ensures var g' := EraseToLeft(g, m);
            |g'.entries| == |g.entries| && g' == g.(entries := g'.entries)
    ensures var g' := EraseToRight(g, m, count);
            |g'.entries| == |g.entries| && g' == g.(entries := g'.entries)
  {
    hide Overwrite, SpaceCells;
  }

  // ---------------------------------------------------------------- height

  lemma {:induction false} DroppableMeans(entries: seq<Entry>, cursor: int, limit: nat)
    requires cursor < |entries|
    ensures var n := Droppable(entries, cursor, limit);
            |entries| - n > cursor &&
            (forall i :: |entries| - n <= i < |entries| ==> entries[i].line == []) &&
            (n < limit && |entries| - n > 0 ==> |entries| - n - 1 == cursor || entries[|entries| - n - 1].line != [])
    decreases limit
  {
    if limit > 0 && |entries| > 0 && |entries| - 1 != cursor && entries[|entries| - 1].line == [] {
      DroppableMeans(entries[..|entries| - 1], cursor, limit - 1);
    }
  }

  /**
   A height change conserves content.  The lines stay as they are, or gain blank lines at the end, or
   lose empty lines strictly below the cursor; the screen has exactly the new height; and the cursor
   keeps its line unless that line went to the scrollback.  A lower screen gives lines to the scrollback
   only when no empty line below the cursor is left to drop; a higher one takes lines back if there are
   enough of them, and otherwise leaves the scrollback alone.
   */
  lemma ResizeConserves(g: Grid, rowCount: nat)
    requires g.top <= |g.entries| && 0 <= g.row && rowCount > 0
    requires rowCount < |g.entries| - g.top ==> g.top + g.row < |g.entries|
    ensures var g' := Resize(g, rowCount);
            |g'.entries| == g'.top + rowCount && 0 <= g'.row && (g.top + g.row < |g.entries| ==> g'.row < rowCount) &&
            (g'.entries <= g.entries || g.entries <= g'.entries) &&
            (forall i :: |g'.entries| <= i < |g.entries| ==> g.entries[i].line == [] && i > g.top + g.row) &&
            (forall i :: |g.entries| <= i < |g'.entries| ==> g'.entries[i] == Entry(g.nextId + i - |g.entries|, [])) &&
            g'.top + g'.row == (if g.top + g.row >= g'.top then g.top + g.row else g'.top)
    ensures var g', last := Resize(g, rowCount), |Resize(g, rowCount).entries| - 1;
            if rowCount < |g.entries| - g.top then
              g.top <= g'.top && last < |g.entries| &&
              (g.top < g'.top ==> last == g.top + g.row || g'.entries[last].line != [])
            else if rowCount - (|g.entries| - g.top) <= g.top then g'.entries == g.entries
            else g'.top == g.top
  {
    var height := |g.entries| - g.top;
    if rowCount < height {
      DroppableMeans(g.entries, g.top + g.row, height - rowCount);
    }
  }

  lemma ResizeKeepsColumn(g: Grid, rowCount: nat)
    requires g.top <= |g.entries|
    ensures var g' := Resize(g, rowCount);
            g'.column == g.column && g'.overflow == g.overflow && (g.row >= 0 ==> g'.row >= 0)
  {
    hide Droppable;
  }
}
