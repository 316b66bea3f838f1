/**
 A row seen as an array of cells, one per column: the meaning of a list of styled nodes, and the
 array edits that the row-editing methods are proved against.
 */
module Cells {
  import opened Common
  import opened TextAttributes

  datatype Half = Single | LeftHalf | RightHalf

  datatype Cell = Cell(glyph: Glyph, half: Half, style: Style)

  /** A cell that shows nothing.  The colour of a glyph that is not there cannot be seen. */
  const BLANK := Cell(SPACE, Single, PLAIN)

  type Line = seq<Cell>

  /** A space in this style leaves no mark. */
  predicate PaintsNothing(style: Style) {
    style.backgroundColor == DefaultColor && style.underline == 0 && !style.strikethrough && style.tile == None
  }

  /** The colour of lines that are not drawn cannot be seen. */
  function Seen(style: Style): Style {
    if style.underline == 0 && !style.strikethrough then style.(underlineColor := DefaultColor) else style
  }

  function Paint(g: Glyph, style: Style): Line {
    if g.Wide? then [Cell(g, LeftHalf, Seen(style)), Cell(g, RightHalf, Seen(style))]
    else if g == SPACE && PaintsNothing(style) then [BLANK]
    else [Cell(g, Single, Seen(style))]
  }

  function TextCells(text: Text, style: Style): Line {
    if text == [] then [] else Paint(text[0], style) + TextCells(text[1..], style)
  }

  function NodeCells(node: Node): Line {
    TextCells(node.text, node.style)
  }

  function RowCells(nodes: seq<Node>): Line {
    if nodes == [] then [] else NodeCells(nodes[0]) + RowCells(nodes[1..])
  }

  function Blanks(n: nat): (line: Line)
    ensures |line| == n && forall i :: 0 <= i < n ==> line[i] == BLANK
  {
    seq(n, i => BLANK)
  }

  /** The line with blanks up to column `column`. */
  function Pad(line: Line, column: nat): (padded: Line)
    ensures |padded| == if |line| < column then column else |line|
    ensures padded[..|line|] == line
  {
    if |line| < column then line + Blanks(column - |line|) else line
  }

  /** Splice cells in at a column. */
  function Insert(line: Line, column: nat, cells: Line): Line {
    var padded := Pad(line, column);
    padded[..column] + cells + padded[column..]
  }

  /** A left half whose right half is gone becomes a space. */
  function MendEnd(line: Line, mark: Line): Line {
    if line != [] && line[|line| - 1].half.LeftHalf? then line[..|line| - 1] + mark else line
  }

  /** A right half whose left half is gone becomes a space. */
  function MendStart(line: Line, mark: Line): Line {
    if line != [] && line[0].half.RightHalf? then mark + line[1..] else line
  }

  /** Remove `count` columns from `column` on.  `mark` stands in for the halves that are left over. */
  function Delete(line: Line, column: nat, count: nat, mark: Line): Line {
    if column >= |line| || count == 0 then line
    else
      var end := if column + count < |line| then column + count else |line|;
      MendEnd(line[..column], mark) + MendStart(line[end..], mark)
  }

  /** Cut at the right margin; a wide glyph that does not fit is dropped. */
  function Clip(line: Line, width: nat): Line {
    if |line| <= width then line
    else if width > 0 && line[width - 1].half.LeftHalf? then line[..width - 1]
    else line[..width]
  }

  /** What `clearCursorRow` leaves of a line. */
  function ClearedLine(attributes: Attributes, columnCount: nat): Line {
    if attributes.IsDefault() then []
    else TextCells(Spaces(columnCount), attributes.(inverse := false).ContainerStyle())
  }

  /** The cursor is on the second column of a wide glyph. */
  predicate InsideWide(line: Line, column: nat) {
    column < |line| && line[column].half.RightHalf?
  }

  predicate NarrowLine(line: Line) {
    forall i :: 0 <= i < |line| ==> line[i].half.Single?
  }

  /** A half of a wide glyph stands next to its other half. */
  predicate PairedAt(line: Line, i: int)
    requires 0 <= i < |line|
  {
    (line[i].half.LeftHalf? ==> i + 1 < |line| && line[i + 1].half.RightHalf?) &&
    (line[i].half.RightHalf? ==> i > 0 && line[i - 1].half.LeftHalf?)
  }

  predicate Paired(line: Line) {
    forall i :: 0 <= i < |line| ==> PairedAt(line, i)
  }

  /**
   Blanks go into a node exactly if they cannot be seen there and it is not for one glyph or for text that is
   not ASCII.
   */
  lemma BlanksUnseen(node: Node)
    requires NodeShape(node)
    ensures node.HoldsBlanks() <==> PaintsNothing(node.style) && !node.wc && (node.ascii || node.isText)
  {
  }

  // ---------------------------------------------------------------- text and cells

  lemma {:induction false} TextCellsAppend(a: Text, b: Text, style: Style)
    ensures TextCells(a + b, style) == TextCells(a, style) + TextCells(b, style)
  {
    if a == [] {
      assert a + b == b;
    } else {
      assert (a + b)[1..] == a[1..] + b;
      TextCellsAppend(a[1..], b, style);
    }
  }

  lemma {:induction false} TextCellsWidth(text: Text, style: Style)
    ensures |TextCells(text, style)| == StrWidth(text)
  {
    if text != [] {
      TextCellsWidth(text[1..], style);
    }
  }

  lemma {:induction false} TextCellsNarrow(text: Text, style: Style, i: nat)
    requires AllNarrow(text) && i < |text|
    ensures |TextCells(text, style)| == |text|
    ensures [TextCells(text, style)[i]] == Paint(text[i], style)
  {
    TextCellsWidth(text, style);
    NarrowWidth(text);
    if i > 0 {
      TextCellsNarrow(text[1..], style, i - 1);
    }
  }

  lemma NarrowCut(text: Text, style: Style, i: nat)
    requires AllNarrow(text) && i <= |text|
    ensures |TextCells(text, style)| == |text|
    ensures TextCells(text[..i], style) == TextCells(text, style)[..i]
    ensures TextCells(text[i..], style) == TextCells(text, style)[i..]
  {
    assert text == text[..i] + text[i..];
    TextCellsAppend(text[..i], text[i..], style);
    TextCellsWidth(text[..i], style);
    NarrowWidth(text[..i]);
    TextCellsWidth(text, style);
    NarrowWidth(text);
  }

  lemma NarrowSingle(text: Text, style: Style)
    requires AllNarrow(text)
    ensures |TextCells(text, style)| == |text|
    ensures forall i :: 0 <= i < |text| ==> TextCells(text, style)[i].half.Single?
  {
    TextCellsWidth(text, style);
    NarrowWidth(text);
    forall i | 0 <= i < |text| ensures TextCells(text, style)[i].half.Single? {
      TextCellsNarrow(text, style, i);
    }
  }

  lemma WideCells(text: Text, style: Style)
    requires |text| == 1
    ensures TextCells(text, style) == Paint(text[0], style)
  {
    assert TextCells(text[1..], style) == [];
  }

  /** Blanks in a container that leaves no mark are blank cells, whatever else its style is. */
  lemma {:induction false} BlankCells(n: nat, style: Style)
    requires PaintsNothing(style)
    ensures TextCells(Spaces(n), style) == Blanks(n)
  {
    if n > 0 {
      assert Spaces(n)[1..] == Spaces(n - 1);
      BlankCells(n - 1, style);
    }
  }

  // ---------------------------------------------------------------- nodes and cells

  predicate RowOk(nodes: seq<Node>) {
    forall i :: 0 <= i < |nodes| ==> NodeOk(nodes[i])
  }

  /** No node is the span of a wide glyph, as in a row of single-width text. */
  predicate NoWide(nodes: seq<Node>) {
    forall i :: 0 <= i < |nodes| ==> !nodes[i].wc
  }

  lemma NodeCellsWidth(node: Node)
    requires NodeOk(node)
    ensures |NodeCells(node)| == NodeWidth(node)
  {
    TextCellsWidth(node.text, node.style);
    if node.ascii {
      NarrowWidth(node.text);
    }
  }

  lemma {:induction false} RowCellsAppend(a: seq<Node>, b: seq<Node>)
    ensures RowCells(a + b) == RowCells(a) + RowCells(b)
  {
    if a == [] {
      assert a + b == b;
    } else {
      assert (a + b)[1..] == a[1..] + b;
      RowCellsAppend(a[1..], b);
    }
  }

  lemma RowCellsOne(node: Node)
    ensures RowCells([node]) == NodeCells(node)
  {
    assert RowCells([node][1..]) == [];
  }

  lemma SliceJoin<T>(s: seq<T>, i: nat, j: nat)
    requires i <= j <= |s|
    ensures s[..i] + s[i..j] == s[..j]
    ensures s[..j] + s[j..] == s
  {
  }

  lemma RowCellsSplit(nodes: seq<Node>, i: nat)
    requires i <= |nodes|
    ensures RowCells(nodes) == RowCells(nodes[..i]) + RowCells(nodes[i..])
  {
    hide RowCells;
    SliceJoin(nodes, i, i);
    RowCellsAppend(nodes[..i], nodes[i..]);
  }

  /** A list of nodes around its nodes `i..j`. */
  lemma RowCellsAround(nodes: seq<Node>, i: nat, j: nat)
    requires i <= j <= |nodes|
    ensures RowCells(nodes) == RowCells(nodes[..i]) + RowCells(nodes[i..j]) + RowCells(nodes[j..])
  {
    hide RowCells;
    SliceJoin(nodes, i, j);
    RowCellsAppend(nodes[..i], nodes[i..j]);
    RowCellsAppend(nodes[..j], nodes[j..]);
  }

  lemma RowCellsAt(nodes: seq<Node>, i: nat)
    requires i < |nodes|
    ensures RowCells(nodes) == RowCells(nodes[..i]) + NodeCells(nodes[i]) + RowCells(nodes[i + 1..])
  {
    hide RowCells, NodeCells;
    RowCellsAround(nodes, i, i + 1);
    assert nodes[i..i + 1] == [nodes[i]];
    RowCellsOne(nodes[i]);
  }

  /** Replace the nodes `i..j`. */
  function Replaced(nodes: seq<Node>, i: nat, j: nat, with: seq<Node>): seq<Node>
    requires i <= j <= |nodes|
  {
    nodes[..i] + with + nodes[j..]
  }

  lemma RowCellsReplaced(nodes: seq<Node>, i: nat, j: nat, with: seq<Node>)
    requires i <= j <= |nodes|
    ensures RowCells(Replaced(nodes, i, j, with)) == RowCells(nodes[..i]) + RowCells(with) + RowCells(nodes[j..])
  {
    RowCellsAppend(nodes[..i] + with, nodes[j..]);
    RowCellsAppend(nodes[..i], with);
  }

  /** The column where node `i` starts. */
  function StartColumn(nodes: seq<Node>, i: nat): nat
    requires i <= |nodes|
  {
    |RowCells(nodes[..i])|
  }

  lemma StartColumnIs(nodes: seq<Node>, i: nat)
    requires i <= |nodes|
    ensures StartColumn(nodes, i) == |RowCells(nodes[..i])|
  {
  }

  lemma StartColumnNext(nodes: seq<Node>, i: nat)
    requires i < |nodes| && NodeOk(nodes[i])
    ensures StartColumn(nodes, i + 1) == StartColumn(nodes, i) + NodeWidth(nodes[i])
  {
    assert nodes[..i + 1] == nodes[..i] + [nodes[i]];
    RowCellsAppend(nodes[..i], [nodes[i]]);
    RowCellsOne(nodes[i]);
    NodeCellsWidth(nodes[i]);
  }

  /**
   The cursor cache of a row: node `i` and `offset` stand for `column`, and the offset may pass the
   end of the node only if it is the last node.
   */
  predicate CursorAt(nodes: seq<Node>, i: int, offset: int, column: int) {
    0 <= i < |nodes| && 0 <= offset && StartColumn(nodes, i) + offset == column &&
    (offset > NodeWidth(nodes[i]) ==> i == |nodes| - 1)
  }

  /** The walk from the first node that `setCursorPosition` would make without a cache. */
  function Locate(nodes: seq<Node>, column: nat): (spot: (nat, nat))
    requires nodes != []
  {
    if |nodes| == 1 || NodeWidth(nodes[0]) > column then (0, column)
    else
      var (i, offset) := Locate(nodes[1..], column - NodeWidth(nodes[0]));
      (i + 1, offset)
  }

  /** Resuming the walk at any node that starts at or before the column finds the same spot. */
  lemma {:induction false} LocateFrom(nodes: seq<Node>, i: nat, column: nat)
    requires i < |nodes| && RowOk(nodes) && StartColumn(nodes, i) <= column
    ensures var (k, offset) := Locate(nodes[i..], column - StartColumn(nodes, i));
            Locate(nodes, column) == (i + k, offset)
    decreases i
  {
    if i == 0 {
      assert nodes[0..] == nodes;
    } else {
      StartColumnNext(nodes, i - 1);
      LocateFrom(nodes, i - 1, column);
      assert nodes[i - 1..][1..] == nodes[i..];
    }
  }

  /**
   What the walk finds is a valid cache for the column, and the only one that is inside its node: the
   end of a node is the start of the next.
   */
  lemma {:induction false} LocateIsCursor(nodes: seq<Node>, column: nat)
    requires nodes != [] && RowOk(nodes)
    ensures CursorAt(nodes, Locate(nodes, column).0, Locate(nodes, column).1, column)
    ensures var (i, offset) := Locate(nodes, column); i < |nodes| - 1 ==> offset < NodeWidth(nodes[i])
    decreases |nodes|
  {
    if |nodes| == 1 || NodeWidth(nodes[0]) > column {
      assert nodes[..0] == [];
    } else {
      var rest := column - NodeWidth(nodes[0]);
      LocateIsCursor(nodes[1..], rest);
      var (i, offset) := Locate(nodes[1..], rest);
      assert nodes[..i + 1][1..] == nodes[1..][..i];
      NodeCellsWidth(nodes[0]);
    }
  }

  /** Inserting at a column inside, or at an edge of, the middle part of a line. */
  lemma InsertAround(pre: Line, mid: Line, post: Line, offset: nat, cells: Line)
    requires offset <= |mid|
    ensures Insert(pre + mid + post, |pre| + offset, cells) == pre + (mid[..offset] + cells + mid[offset..]) + post
  {
  }

  // ---------------------------------------------------------------- deletion

  /** Wide glyphs show both halves: a line of whole glyphs has no loose half at either end. */
  predicate Whole(line: Line) {
    line != [] ==> !line[0].half.RightHalf? && !line[|line| - 1].half.LeftHalf?
  }

  lemma {:induction false} TextCellsWhole(text: Text, style: Style)
    ensures Whole(TextCells(text, style))
  {
    if text != [] {
      TextCellsWhole(text[1..], style);
    }
  }

  lemma {:induction false} RowCellsWhole(nodes: seq<Node>)
    ensures Whole(RowCells(nodes))
  {
    if nodes != [] {
      TextCellsWhole(nodes[0].text, nodes[0].style);
      RowCellsWhole(nodes[1..]);
    }
  }

  /** Deletion by its three parts; `count` may reach beyond the end of the line. */
  lemma DeleteParts(head: Line, gone: Line, tail: Line, count: nat, mark: Line)
    requires gone != [] && (count == |gone| || (count > |gone| && tail == []))
    ensures Delete(head + gone + tail, |head|, count, mark) == MendEnd(head, mark) + MendStart(tail, mark)
  {
    hide MendEnd, MendStart;
    var line := head + gone + tail;
    assert line[..|head|] == head;
    assert line[|head| + |gone|..] == tail;
  }

  /** The same from the start of a line. */
  lemma DeleteFront(gone: Line, tail: Line, count: nat, mark: Line)
    requires count == |gone| || (count > |gone| && tail == [])
    requires Whole(gone + tail)
    ensures Delete(gone + tail, 0, count, mark) == MendStart(tail, mark)
  {
    if gone != [] {
      DeleteParts([], gone, tail, count, mark);
      assert [] + gone + tail == gone + tail;
      assert [] + MendStart(tail, mark) == MendStart(tail, mark);
    } else {
      assert gone + tail == tail;
    }
  }

  lemma MendEndAfter(pre: Line, head: Line, mark: Line)
    requires Whole(pre)
    ensures MendEnd(pre + head, mark) == pre + MendEnd(head, mark)
  {
    if head == [] {
      assert pre + head == pre;
    } else {
      var init := head[..|head| - 1];
      assert (pre + head)[|pre + head| - 1] == head[|head| - 1];
      assert (pre + head)[..|pre + head| - 1] == pre + init;
      assert (pre + init) + mark == pre + (init + mark);
    }
  }

  lemma ThreeParts<T>(pre: seq<T>, s: seq<T>, i: nat, j: nat)
    requires i <= j <= |s|
    ensures s == s[..i] + s[i..j] + s[j..]
    ensures pre + s == (pre + s[..i]) + s[i..j] + s[j..]
  {
  }

  lemma Associative<T>(a: seq<T>, b: seq<T>, c: seq<T>)
    ensures (a + b) + c == a + (b + c)
  {
  }

  lemma LastJoined<T>(a: seq<T>, b: seq<T>)
    requires b != []
    ensures (a + b)[|a + b| - 1] == b[|b| - 1]
  {
  }

  /** Whole glyphs in front of the deleted columns do not matter. */
  lemma DeleteAfter(pre: Line, line: Line, offset: nat, count: nat, mark: Line)
    requires Whole(pre)
    ensures Delete(pre + line, |pre| + offset, count, mark) == pre + Delete(line, offset, count, mark)
  {
    hide MendEnd, MendStart, Whole;
    if offset < |line| && count > 0 {
      var end := if offset + count < |line| then offset + count else |line|;
      var head, gone, tail := line[..offset], line[offset..end], line[end..];
      ThreeParts(pre, line, offset, end);
      DeleteParts(head, gone, tail, count, mark);
      DeleteParts(pre + head, gone, tail, count, mark);
      MendEndAfter(pre, head, mark);
      Associative(pre, MendEnd(head, mark), MendStart(tail, mark));
    }
  }

  /** A stretch of narrow cells lets the deletion run on into what follows it. */
  lemma DeleteNarrow(mid: Line, rest: Line, count: nat, mark: Line)
    requires (forall i :: 0 <= i < |mid| ==> mid[i].half.Single?) && Whole(rest)
    ensures Delete(mid + rest, 0, count, mark)
         == if count <= |mid| then mid[count..] + rest else Delete(rest, 0, count - |mid|, mark)
  {
    hide Delete;
    if count <= |mid| {
      assert mid + rest == mid[..count] + (mid[count..] + rest);
      DeleteFront(mid[..count], mid[count..] + rest, count, mark);
    } else {
      var left := count - |mid|;
      var end := if left < |rest| then left else |rest|;
      assert rest == rest[..end] + rest[end..];
      assert mid + rest == (mid + rest[..end]) + rest[end..];
      DeleteFront(mid + rest[..end], rest[end..], count, mark);
      DeleteFront(rest[..end], rest[end..], left, mark);
    }
  }

  /** A wide glyph that loses its first column becomes the mark; one that loses both lets the deletion run on. */
  lemma DeleteWideFront(mid: Line, rest: Line, count: nat, mark: Line)
    requires |mid| == 2 && mid[0].half.LeftHalf? && mid[1].half.RightHalf? && Whole(rest) && count > 0
    ensures Delete(mid + rest, 0, count, mark) == if count == 1 then mark + rest else Delete(rest, 0, count - 2, mark)
  {
    hide Delete;
    if count == 1 {
      assert mid + rest == [mid[0]] + ([mid[1]] + rest);
      DeleteFront([mid[0]], [mid[1]] + rest, 1, mark);
    } else {
      var left := count - 2;
      var end := if left < |rest| then left else |rest|;
      assert rest == rest[..end] + rest[end..];
      assert mid + rest == (mid + rest[..end]) + rest[end..];
      DeleteFront(mid + rest[..end], rest[end..], count, mark);
      DeleteFront(rest[..end], rest[end..], left, mark);
    }
  }

  /** A wide glyph that loses its second column becomes the mark. */
  lemma DeleteWideBack(mid: Line, rest: Line, count: nat, mark: Line)
    requires |mid| == 2 && mid[0].half.LeftHalf? && mid[1].half.RightHalf? && Whole(rest) && count > 0
    ensures Delete(mid + rest, 1, count, mark) == mark + Delete(rest, 0, count - 1, mark)
  {
    hide Delete;
    var left := count - 1;
    var end := if left < |rest| then left else |rest|;
    assert rest == rest[..end] + rest[end..];
    var gone := [mid[1]] + rest[..end];
    assert mid + rest == [mid[0]] + gone + rest[end..];
    DeleteParts([mid[0]], gone, rest[end..], count, mark);
    DeleteFront(rest[..end], rest[end..], left, mark);
    assert MendEnd([mid[0]], mark) == mark;
  }

  // ---------------------------------------------------------------- whole glyphs

  lemma NarrowIsPaired(line: Line)
    requires NarrowLine(line)
    ensures Paired(line)
  {
  }

  lemma PairedIsWhole(line: Line)
    requires Paired(line)
    ensures Whole(line)
  {
    if line != [] {
      assert PairedAt(line, 0) && PairedAt(line, |line| - 1);
    }
  }

  lemma PairedJoined(a: Line, b: Line)
    requires Paired(a) && Paired(b)
    ensures Paired(a + b)
  {
    var line := a + b;
    forall i | 0 <= i < |line| ensures PairedAt(line, i) {
      if i < |a| {
        assert PairedAt(a, i);
      } else {
        assert PairedAt(b, i - |a|);
      }
    }
  }

  lemma {:induction false} TextCellsPaired(text: Text, style: Style)
    ensures Paired(TextCells(text, style))
  {
    if text != [] {
      TextCellsPaired(text[1..], style);
      PairedJoined(Paint(text[0], style), TextCells(text[1..], style));
    }
  }

  /** Every row shows whole glyphs. */
  lemma {:induction false} RowCellsPaired(nodes: seq<Node>)
    ensures Paired(RowCells(nodes))
  {
    if nodes != [] {
      TextCellsPaired(nodes[0].text, nodes[0].style);
      RowCellsPaired(nodes[1..]);
      PairedJoined(NodeCells(nodes[0]), RowCells(nodes[1..]));
    }
  }

  lemma PadPaired(line: Line, column: nat)
    requires Paired(line)
    ensures Paired(Pad(line, column))
  {
    if |line| < column {
      PairedJoined(line, Blanks(column - |line|));
    }
  }

  /** What is in front of a column, and what is behind, if the column does not cut a glyph. */
  lemma PairedParts(line: Line, k: nat)
    requires Paired(line) && k <= |line| && !InsideWide(line, k)
    ensures Paired(line[..k]) && Paired(line[k..])
  {
    forall i | 0 <= i < k ensures PairedAt(line[..k], i) {
      assert PairedAt(line, i);
    }
    forall i | 0 <= i < |line| - k ensures PairedAt(line[k..], i) {
      assert PairedAt(line, k + i);
    }
  }

  /** A column that cuts a glyph leaves one half of it on either side; a mark takes its place. */
  lemma MendedParts(line: Line, k: nat, mark: Line)
    requires Paired(line) && k <= |line| && |mark| == 1 && NarrowLine(mark)
    ensures Paired(MendEnd(line[..k], mark)) && |MendEnd(line[..k], mark)| == k
    ensures Paired(MendStart(line[k..], mark)) && |MendStart(line[k..], mark)| == |line| - k
    ensures !InsideWide(line, k) ==> MendEnd(line[..k], mark) == line[..k] && MendStart(line[k..], mark) == line[k..]
  {
    if k < |line| {
      assert PairedAt(line, k);
    }
    if k > 0 {
      assert PairedAt(line, k - 1);
    }
    if InsideWide(line, k) {
      assert !InsideWide(line, k - 1) && !InsideWide(line, k + 1) by {
        if k + 1 < |line| { assert PairedAt(line, k + 1); }
      }
      PairedParts(line, k - 1);
      PairedParts(line, k + 1);
      PairedJoined(line[..k - 1], mark);
      PairedJoined(mark, line[k + 1..]);
      assert line[..k][..k - 1] == line[..k - 1];
      assert line[k..][1..] == line[k + 1..];
    } else {
      PairedParts(line, k);
    }
  }

  lemma InsertPaired(line: Line, column: nat, cells: Line)
    requires Paired(line) && NarrowLine(cells) && !InsideWide(line, column)
    ensures Paired(Insert(line, column, cells)) && !InsideWide(Insert(line, column, cells), column + |cells|)
  {
    var padded := Pad(line, column);
    PadPaired(line, column);
    assert !InsideWide(padded, column);
    PairedParts(padded, column);
    PairedJoined(padded[..column], cells);
    PairedJoined(padded[..column] + cells, padded[column..]);
    if column < |padded| {
      assert Insert(line, column, cells)[column + |cells|] == padded[column];
    }
  }

  lemma DeletePaired(line: Line, column: nat, count: nat, mark: Line)
    requires Paired(line) && |mark| == 1 && NarrowLine(mark)
    ensures Paired(Delete(line, column, count, mark)) && |Delete(line, column, count, mark)| <= |line|
    ensures count > 0 ==> !InsideWide(Delete(line, column, count, mark), column)
  {
    hide MendEnd, MendStart;
    if column < |line| && count > 0 {
      var end := if column + count < |line| then column + count else |line|;
      MendedParts(line, column, mark);
      MendedParts(line, end, mark);
      PairedJoined(MendEnd(line[..column], mark), MendStart(line[end..], mark));
      PairedIsWhole(MendStart(line[end..], mark));
    }
  }

  lemma ClipPaired(line: Line, width: nat)
    requires Paired(line)
    ensures Paired(Clip(line, width)) && |Clip(line, width)| <= width
  {
    if |line| > width > 0 {
      assert PairedAt(line, width - 1);
      assert PairedAt(line, width);
      if line[width - 1].half.LeftHalf? {
        PairedParts(line, width - 1);
      } else {
        PairedParts(line, width);
      }
    }
  }
}
