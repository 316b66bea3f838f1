/**
 `hterm.Screen`: the rows of a screen, the cursor, and the methods that edit the cursor row.

 A row is a value with an identity; the node under the cursor is cached as an index into the row's
 nodes together with an offset in columns.
 */
module Screens {
  import opened Common
  import opened TextAttributes
  import opened Cells
  import opened RowEditing

  /** `id` stands for the identity of the DOM element. */
  datatype Row = Row(id: nat, rowIndex: int, lineOverflow: bool, nodes: seq<Node>)

  predicate RowsOk(rows: seq<Row>) {
    forall i :: 0 <= i < |rows| ==> RowOk(rows[i].nodes) && rows[i].nodes != []
  }

  predicate DistinctIds(rows: seq<Row>) {
    forall i, j :: 0 <= i < j < |rows| ==> rows[i].id != rows[j].id
  }

  /** The text of a row, whose width is the width of the row element. */
  function RowText(nodes: seq<Node>): Text {
    if nodes == [] then [] else nodes[0].text + RowText(nodes[1..])
  }

  lemma {:induction false} StrWidthAppend(a: Text, b: Text)
    ensures StrWidth(a + b) == StrWidth(a) + StrWidth(b)
  {
    if a == [] {
      assert a + b == b;
    } else {
      assert (a + b)[1..] == a[1..] + b;
      StrWidthAppend(a[1..], b);
    }
  }

  lemma {:induction false} RowTextWidth(nodes: seq<Node>)
    ensures StrWidth(RowText(nodes)) == |RowCells(nodes)|
  {
    if nodes != [] {
      StrWidthAppend(nodes[0].text, RowText(nodes[1..]));
      TextCellsWidth(nodes[0].text, nodes[0].style);
      RowTextWidth(nodes[1..]);
    }
  }

  /** Blanks appended to a last node that leaves no mark. */
  lemma PadNode(nodes: seq<Node>, i: nat, n: nat)
    requires RowOk(nodes) && i == |nodes| - 1 && nodes[i].HoldsBlanks()
    ensures var nodes' := nodes[i := nodes[i].(text := nodes[i].text + Spaces(n))];
            RowOk(nodes') && StartColumn(nodes', i) == StartColumn(nodes, i) &&
            NodeWidth(nodes'[i]) == NodeWidth(nodes[i]) + n && AllNarrow(nodes'[i].text) &&
            RowCells(nodes') == Pad(RowCells(nodes), |RowCells(nodes)| + n)
  {
    hide RowCells, TextCells, NodeWidth;
    var node := nodes[i];
    assert WithText(node, |node.text|, Spaces(n)) == node.(text := node.text + Spaces(n));
    InsertIntoNode(nodes, i, |node.text|, Spaces(n));
    BlankCells(n, node.style);
    LineEnd(nodes, i);
    NarrowNode(node, 0, 0);
    InsertAtEnd(RowCells(nodes), Blanks(n));
  }

  /** Blanks in a text node of their own. */
  lemma PadRow(nodes: seq<Node>, n: nat)
    requires RowOk(nodes)
    ensures var nodes' := nodes + [BareTextNode(Spaces(n))];
            RowOk(nodes') && StartColumn(nodes', |nodes|) == |RowCells(nodes)| && NodeWidth(nodes'[|nodes|]) == n &&
            RowCells(nodes') == Pad(RowCells(nodes), |RowCells(nodes)| + n)
  {
    hide RowCells, TextCells;
    var node := BareTextNode(Spaces(n));
    InsertNode(nodes, |nodes|, node);
    assert nodes[..|nodes|] == nodes;
    assert nodes[..|nodes|] + [node] + nodes[|nodes|..] == nodes + [node];
    BlankCells(n, PLAIN);
    NarrowNode(node, 0, 0);
    InsertAtEnd(RowCells(nodes), Blanks(n));
  }

  /** Padding first changes nothing about an insertion. */
  lemma InsertPad(line: Line, column: nat, cells: Line)
    ensures Insert(Pad(line, column), column, cells) == Insert(line, column, cells)
  {
  }

  /** The two parts of a split node. */
  lemma SplitParts(node: Node, offset: nat)
    requires NodeOk(node) && 0 < offset < NodeWidth(node)
    ensures var (left, right) := Screen.SplitNode(node, offset);
            if |node.text| == 1 && node.text[0].Wide? then left == [] && right == [node] && offset == 1
            else !node.wc && offset < |node.text| &&
                 left == [node.(text := node.text[..offset])] && right == [node.(text := node.text[offset..])]
  {
    if node.wc {
      if node.text[0].Wide? {
        assert node.text[1..] == [];
        assert StrWidth(node.text) == 2;
        assert DropColumns(node.text, 0) == node.text;
      } else {
        NarrowNode(node, 0, 0);
      }
    } else {
      NarrowNode(node, 0, offset);
      NarrowDrop(node.text, offset);
    }
  }

  /** When the loop ends nothing remains to be deleted. */
  lemma OutlookDone(nodes: seq<Node>, k: nat, left: nat, mark: Line)
    requires k <= |nodes| && (k == |nodes| || left == 0)
    ensures Outlook(nodes, k, 0, left, mark) == RowCells(nodes)
  {
    if left == 0 {
      OutlookNothing(nodes, k, mark);
    } else {
      assert nodes[..k] == nodes && nodes[k..] == [];
      RowCellsNothing();
      DeleteNothing([], 0, left, mark);
    }
  }

  /** When the loop starts the outlook is the deletion at the cursor. */
  lemma OutlookStart(nodes: seq<Node>, c: nat, offset: nat, count: nat, mark: Line)
    requires c <= |nodes|
    ensures Outlook(nodes, c, offset, count, mark)
         == Delete(RowCells(nodes), StartColumn(nodes, c) + offset, count, mark)
  {
    hide RowCells, Delete, Outlook, StartColumn, Whole;
    RowCellsWhole(nodes[..c]);
    RowCellsSplit(nodes, c);
    DeleteAfter(RowCells(nodes[..c]), RowCells(nodes[c..]), offset, count, mark);
    OutlookIs(nodes, c, offset, count, mark);
    StartColumnIs(nodes, c);
  }

  lemma KeptByPrefix(before: seq<Node>, after: seq<Node>, c: nat)
    requires c < |before| && c < |after| && before[..c + 1] == after[..c + 1]
    ensures before[c] == after[c] && StartColumn(before, c) == StartColumn(after, c)
  {
    assert before[..c] == before[..c + 1][..c] == after[..c];
    assert before[c] == before[..c + 1][c];
  }

  lemma NotEmptySpanOk(node: Node)
    requires NodeShape(node) && (node.isText || node.text != [])
    ensures NodeOk(node)
  {
  }

  lemma EmptyTextRow()
    ensures RowOk([BareTextNode([])]) && RowCells([BareTextNode([])]) == [] && NodeWidth(BareTextNode([])) == 0
  {
    RowCellsOne(BareTextNode([]));
  }

  /** Taking an emptied span out of a row changes no cell. */
  lemma EmptySpanRemoved(nodes: seq<Node>, c: nat)
    requires c < |nodes| && EmptySpan(nodes[c])
    ensures RowCells(nodes[..c] + nodes[c + 1..]) == RowCells(nodes)
  {
    hide RowCells;
    RowCellsAt(nodes, c);
    RowCellsAppend(nodes[..c], nodes[c + 1..]);
    EmptyCells(nodes[c]);
    assert nodes[c].(text := []) == nodes[c];
  }

  /** What `maybeClipCurrentRow` leaves of the node under the last column. */
  function Cut(node: Node, offset: nat): Node {
    if offset < NodeWidth(node) - 1 then node.(text := NodeSubstr(node, 0, offset + 1)) else node
  }

  lemma CutWide(node: Node, offset: nat)
    requires NodeOk(node) && |node.text| == 1 && node.text[0].Wide? && offset < NodeWidth(node)
    ensures NodeOk(Cut(node, offset)) && |NodeCells(node)| == 2
    ensures NodeCells(node)[0].half.LeftHalf? && NodeCells(node)[1].half.RightHalf?
    ensures NodeCells(Cut(node, offset)) == if offset == 0 then [] else NodeCells(node)
  {
    WideNodeWidth(node);
    WideCells(node.text, node.style);
    assert DropColumns(node.text, 0) == node.text;
    assert TakeColumns(node.text, 1) == [];
  }

  lemma CutNarrow(node: Node, offset: nat)
    requires NodeOk(node) && AllNarrow(node.text) && offset < NodeWidth(node)
    ensures NodeOk(Cut(node, offset)) && |NodeCells(node)| == |node.text| == NodeWidth(node)
    ensures NodeCells(Cut(node, offset)) == NodeCells(node)[..offset + 1] && NarrowLine(NodeCells(node))
  {
    hide TextCells;
    NarrowNode(node, 0, offset + 1);
    NarrowSingle(node.text, node.style);
    NarrowCut(node.text, node.style, offset + 1);
    assert node.text[0..] == node.text;
    assert node.text[..|node.text|] == node.text;
  }

  /** The cells that stay. */
  lemma CutNode(node: Node, offset: nat)
    requires NodeOk(node) && offset < NodeWidth(node)
    ensures NodeOk(Cut(node, offset)) && |NodeCells(node)| == NodeWidth(node)
    ensures var cells := NodeCells(node);
            NodeCells(Cut(node, offset))
              == (if cells[offset].half.LeftHalf? then cells[..offset] else cells[..offset + 1])
  {
    hide Cut;
    NodeCellsWidth(node);
    if |node.text| == 1 && node.text[0].Wide? {
      CutWide(node, offset);
      assert NodeCells(node)[..2] == NodeCells(node);
    } else {
      CutNarrow(node, offset);
    }
  }

  /** Cutting the row behind the cursor node cuts the line at the right margin. */
  lemma CutRow(nodes: seq<Node>, c: nat, cut: Node, offset: nat)
    requires c < |nodes| && RowOk(nodes) && NodeOk(cut) && offset < |NodeCells(nodes[c])|
    requires NodeCells(cut) == (var cells := NodeCells(nodes[c]);
                                if cells[offset].half.LeftHalf? then cells[..offset] else cells[..offset + 1])
    requires |RowCells(nodes)| > StartColumn(nodes, c) + offset + 1
    ensures var nodes' := nodes[..c] + [cut];
            RowOk(nodes') && StartColumn(nodes', c) == StartColumn(nodes, c) &&
            RowCells(nodes') == Clip(RowCells(nodes), StartColumn(nodes, c) + offset + 1)
  {
    hide RowCells, TextCells, NodeOk;
    assert (nodes[..c] + [cut])[..c] == nodes[..c];
    RowCellsAppend(nodes[..c], [cut]);
    RowCellsOne(cut);
    RowCellsAt(nodes, c);
    ClipAround(RowCells(nodes[..c]), NodeCells(nodes[c]), RowCells(nodes[c + 1..]), offset);
  }

  lemma ClipAround(pre: Line, mid: Line, post: Line, offset: nat)
    requires offset < |mid| && |pre + mid + post| > |pre| + offset + 1
    ensures Clip(pre + mid + post, |pre| + offset + 1)
         == pre + (if mid[offset].half.LeftHalf? then mid[..offset] else mid[..offset + 1])
  {
    assert (pre + mid + post)[|pre| + offset] == mid[offset];
  }

  /** A column that the row has is found inside a node. */
  lemma {:induction false} LocateInside(nodes: seq<Node>, column: nat)
    requires nodes != [] && RowOk(nodes) && column < |RowCells(nodes)|
    ensures var (i, offset) := Locate(nodes, column);
            0 <= i < |nodes| && offset < NodeWidth(nodes[i])
    decreases |nodes|
  {
    NodeCellsWidth(nodes[0]);
    if |nodes| == 1 {
      RowCellsOne(nodes[0]);
      assert nodes == [nodes[0]];
    } else if NodeWidth(nodes[0]) <= column {
      LocateInside(nodes[1..], column - NodeWidth(nodes[0]));
    }
  }

  lemma TokenWidth(attributes: Attributes, str: Text)
    requires TokenOk(attributes, str)
    ensures StrWidth(str) > 0
  {
    assert str[0].Wide? || str[0].Narrow?;
  }

  /** Deleting cells and inserting the same cells again. */
  lemma OverwriteSame(pre: Line, cells: Line, post: Line, mark: Line)
    requires Whole(pre) && Whole(post) && cells != []
    ensures Insert(Delete(pre + cells + post, |pre|, |cells|, mark), |pre|, cells) == pre + cells + post
  {
    DeleteParts(pre, cells, post, |cells|, mark);
    assert MendEnd(pre, mark) == pre && MendStart(post, mark) == post;
    assert (pre + post)[..|pre|] == pre && (pre + post)[|pre|..] == post;
  }

  lemma WholeJoined(a: Line, b: Line)
    requires Whole(a) && Whole(b)
    ensures Whole(a + b)
  {
  }

  /** Text put at either end of a text, or inside it. */
  lemma SpliceText(text: Text, at: nat, padded: Text)
    requires at <= |text|
    ensures at == |text| ==> text + padded == text[..at] + padded + text[at..]
    ensures at == 0 ==> padded + text == text[..at] + padded + text[at..]
  {
  }

  /** The text at the end of the cursor node, overwritten with itself. */
  lemma OverwriteWithItself(nodes: seq<Node>, c: nat, offset: nat, mark: Line)
    requires RowOk(nodes) && c < |nodes| && AllNarrow(nodes[c].text) && offset < |nodes[c].text|
    ensures var str := nodes[c].text[offset..];
            StrWidth(str) == |str| && offset + |str| == NodeWidth(nodes[c]) &&
            StartColumn(nodes, c) + NodeWidth(nodes[c]) <= |RowCells(nodes)| &&
            Insert(Delete(RowCells(nodes), StartColumn(nodes, c) + offset, |str|, mark), StartColumn(nodes, c) + offset,
                   TextCells(str, nodes[c].style))
            == RowCells(nodes)
  {
    hide RowCells, TextCells, Insert, Delete, NodeOk;
    var node := nodes[c];
    var head, cells := TextCells(node.text[..offset], node.style), TextCells(node.text[offset..], node.style);
    var pre, post := RowCells(nodes[..c]), RowCells(nodes[c + 1..]);
    NarrowWidth(node.text[offset..]);
    NarrowNode(node, 0, 0);
    LineEnd(nodes, c);
    NarrowCut(node.text, node.style, offset);
    NarrowCut(node.text[..offset], node.style, 0);
    NarrowCut(node.text[offset..], node.style, 0);
    RowCellsAt(nodes, c);
    assert NodeCells(node) == head + cells;
    RowCellsWhole(nodes[..c]);
    RowCellsWhole(nodes[c + 1..]);
    TextCellsWhole(node.text[..offset], node.style);
    WholeJoined(pre, head);
    Associative(pre, head, cells);
    OverwriteSame(pre + head, cells, post, mark);
  }

  lemma ClearedNode(attributes: Attributes, columnCount: nat)
    requires columnCount > 0 && !attributes.wcNode
    ensures var text := if attributes.IsDefault() then [] else Spaces(columnCount);
            var node := attributes.(inverse := false).CreateContainer(text);
            NodeOk(node) && !node.wc && RowCells([node]) == ClearedLine(attributes, columnCount)
  {
    var text := if attributes.IsDefault() then [] else Spaces(columnCount);
    RowCellsOne(attributes.(inverse := false).CreateContainer(text));
  }

  lemma RightInPlace(nodes: seq<Node>, c: nat, right: seq<Node>)
    requires c < |nodes| && right == [nodes[c]]
    ensures nodes[..c] + right + nodes[c + 1..] == nodes
  {
  }

  /** A node at the end of the row does not start at the second column of a wide glyph. */
  lemma RowEnd(nodes: seq<Node>, c: nat, node: Node)
    requires RowOk(nodes) && c < |nodes| && NodeOk(node)
    ensures var nodes' := nodes + [node];
            RowOk(nodes') && RowCells(nodes') == RowCells(nodes) + NodeCells(node) &&
            StartColumn(nodes', |nodes|) == |RowCells(nodes)| >= StartColumn(nodes, c) + NodeWidth(nodes[c])
  {
    hide RowCells, TextCells;
    RowCellsAppend(nodes, [node]);
    RowCellsOne(node);
    LineEnd(nodes, c);
    assert (nodes + [node])[..|nodes|] == nodes;
  }

  /** Only the second cell of a wide glyph is a right half. */
  lemma NodeHalf(node: Node, offset: nat)
    requires NodeOk(node) && |NodeCells(node)| == NodeWidth(node) && offset < NodeWidth(node)
    ensures NodeCells(node)[offset].half.RightHalf? <==> |node.text| == 1 && node.text[0].Wide? && offset == 1
  {
    if |node.text| == 1 {
      WideCells(node.text, node.style);
    }
    if AllNarrow(node.text) {
      NarrowSingle(node.text, node.style);
    }
  }

  lemma EmptyWidth(node: Node)
    requires NodeOk(node) && node.text == []
    ensures NodeWidth(node) == 0
  {
  }

  lemma WholeStart(line: Line)
    requires Whole(line)
    ensures line != [] ==> !line[0].half.RightHalf?
  {
  }

  lemma NoWideInserted(nodes: seq<Node>, i: nat, node: Node)
    requires i <= |nodes|
    ensures NoWide(nodes) && !node.wc ==> NoWide(nodes[..i] + [node] + nodes[i..])
  {
  }

  lemma InsertAtEnd(line: Line, cells: Line)
    ensures Insert(line, |line|, cells) == line + cells
  {
  }

  lemma FirstStartsAtZero(nodes: seq<Node>)
    ensures StartColumn(nodes, 0) == 0
  {
  }

  function Clamp(value: int, low: int, high: int): int {
    if value >= high then high else if value < low then low else value
  }

  class Screen {
    var rowsArray: seq<Row>
    var columnCount: nat
    var textAttributes: Attributes
    var cursorRow: int
    var cursorColumn: int
    var cursorOverflow: bool
    var cursorRowNode: Option<nat>
    var cursorNode: int
    var cursorOffset: int

    constructor (columnCount: nat, textAttributes: Attributes)
      ensures rowsArray == [] && this.columnCount == columnCount && this.textAttributes == textAttributes
      ensures cursorRowNode == None && cursorRow == 0 && cursorColumn == 0 && !cursorOverflow
    {
      rowsArray := [];
      this.columnCount, this.textAttributes := columnCount, textAttributes;
      cursorRow, cursorColumn, cursorOverflow := 0, 0, false;
      cursorRowNode, cursorNode, cursorOffset := None, 0, 0;
    }

    /** The cache tells the truth about the row it was made for, if that row is on the screen. */
    ghost predicate CacheOk()
      reads this
    {
      RowsOk(rowsArray) &&
      forall i :: 0 <= i < |rowsArray| && Some(rowsArray[i].id) == cursorRowNode ==>
        CursorAt(rowsArray[i].nodes, cursorNode, cursorOffset, cursorColumn)
    }

    /** The cursor is on a row of the screen, and the cache is for that row. */
    ghost predicate Valid()
      reads this
    {
      columnCount > 0 && RowsOk(rowsArray) && DistinctIds(rowsArray) && 0 <= cursorRow < |rowsArray| &&
      Some(rowsArray[cursorRow].id) == cursorRowNode &&
      CursorAt(rowsArray[cursorRow].nodes, cursorNode, cursorOffset, cursorColumn)
    }

    function Nodes(): seq<Node>
      requires 0 <= cursorRow < |rowsArray|
      reads this
    {
      rowsArray[cursorRow].nodes
    }

    ghost function CursorLine(): Line
      requires 0 <= cursorRow < |rowsArray|
      reads this
    {
      RowCells(Nodes())
    }

    /** Only the nodes and the overflow mark of the cursor row were touched. */
    twostate predicate OnlyCursorRow()
      requires 0 <= old(cursorRow) < |old(rowsArray)|
      reads this
    {
      cursorRow == old(cursorRow) && cursorRowNode == old(cursorRowNode) && |rowsArray| == |old(rowsArray)| &&
      rowsArray == old(rowsArray)[cursorRow := old(rowsArray[cursorRow]).(
                                    nodes := rowsArray[cursorRow].nodes,
                                    lineOverflow := rowsArray[cursorRow].lineOverflow)]
    }

    method SetNodes(nodes: seq<Node>)
      requires 0 <= cursorRow < |rowsArray|
      modifies this`rowsArray
      ensures rowsArray == old(rowsArray)[cursorRow := old(rowsArray[cursorRow]).(nodes := nodes)]
    {
      rowsArray := rowsArray[cursorRow := rowsArray[cursorRow].(nodes := nodes)];
    }

    /** The loop of `setCursorPosition`, from a node that starts at `startColumn`. */
    static method Walk(nodes: seq<Node>, start: nat, startColumn: nat, column: nat) returns (node: nat, offset: nat)
      requires RowOk(nodes) && start < |nodes| && StartColumn(nodes, start) == startColumn <= column
      ensures (node, offset) == Locate(nodes, column)
    {
      hide RowCells, NodeOk, NodeWidth;
      LocateFrom(nodes, start, column);
      var currentColumn := startColumn;
      node := start;
      while true
        invariant 0 <= node < |nodes| && 0 <= currentColumn <= column
        invariant var (k, o) := Locate(nodes[node..], column - currentColumn);
                  Locate(nodes, column) == (node + k, o)
        decreases |nodes| - node
      {
        offset := column - currentColumn;
        var width := NodeWidth(nodes[node]);
        if node == |nodes| - 1 || width > offset {
          return;
        }
        assert nodes[node..][1..] == nodes[node + 1..];
        currentColumn := currentColumn + width;
        node := node + 1;
      }
    }

    /**
     `setCursorPosition`.  The walk starts at the cached node when that is possible; the result is
     always that of the walk from the first node.
     */
    method SetCursorPosition(row: int, column: int)
      requires columnCount > 0 && CacheOk() && DistinctIds(rowsArray)
      modifies this`cursorRow, this`cursorColumn, this`cursorOverflow, this`cursorRowNode, this`cursorNode
      modifies this`cursorOffset
      ensures rowsArray == [] ==> unchanged(this)
      ensures rowsArray != [] ==>
        Valid() && !cursorOverflow &&
        cursorRow == Clamp(row, 0, |rowsArray| - 1) && cursorColumn == Clamp(column, 0, columnCount - 1) &&
        (cursorNode, cursorOffset) == Locate(Nodes(), cursorColumn)
    {
      hide RowCells, NodeOk, NodeWidth, Locate;
      if rowsArray == [] {
        return;
      }
      var newRow := row;
      if row >= |rowsArray| {
        newRow := |rowsArray| - 1;
      } else if row < 0 {
        newRow := 0;
      }
      var newColumn := column;
      if column >= columnCount {
        newColumn := columnCount - 1;
      } else if column < 0 {
        newColumn := 0;
      }
      cursorOverflow := false;
      var nodes := rowsArray[newRow].nodes;
      var node, currentColumn := 0, 0;
      FirstStartsAtZero(nodes);
      if Some(rowsArray[newRow].id) == cursorRowNode {
        if newColumn >= cursorColumn - cursorOffset {
          node, currentColumn := cursorNode, cursorColumn - cursorOffset;
        }
      } else {
        cursorRowNode := Some(rowsArray[newRow].id);
      }
      cursorRow, cursorColumn := newRow, newColumn;
      cursorNode, cursorOffset := Walk(nodes, node, currentColumn, newColumn);
      LocateIsCursor(nodes, newColumn);
    }

    /** The cursor is between the two columns of a wide glyph. */
    predicate CursorInsideWide()
      requires Valid()
      reads this
    {
      var node := Nodes()[cursorNode];
      |node.text| == 1 && node.text[0].Wide? && cursorOffset == 1
    }

    /** Seen from the cells, the cursor is on a right half. */
    lemma CursorInsideMeans()
      requires Valid()
      ensures CursorInsideWide() <==> InsideWide(CursorLine(), cursorColumn)
    {
      hide RowCells, TextCells, Whole;
      var nodes, c := Nodes(), cursorNode;
      var cells, post := NodeCells(nodes[c]), RowCells(nodes[c + 1..]);
      RowCellsAt(nodes, c);
      RowCellsWhole(nodes[c + 1..]);
      NodeCellsWidth(nodes[c]);
      WholeStart(post);
      if cursorOffset < |cells| {
        assert CursorLine()[cursorColumn] == cells[cursorOffset];
        NodeHalf(nodes[c], cursorOffset);
      } else {
        WideNodeWidth(nodes[c]);
        LineEnd(nodes, c);
        if cursorColumn < |CursorLine()| {
          assert CursorLine()[cursorColumn] == post[0];
        }
      }
    }

    /** On the first column the cursor is never in an awkward place. */
    lemma FirstColumnIsEasy()
      requires Valid() && cursorColumn == 0
      ensures !CursorInsideWide() && !CursorPastEmptySpan()
    {
      hide RowCells;
    }

    /** Beyond an emptied span is beyond the end of the line. */
    lemma PastEmptySpanIsBeyond()
      requires Valid() && CursorPastEmptySpan()
      ensures cursorColumn > |CursorLine()|
    {
      hide RowCells;
      EmptyWidth(Nodes()[cursorNode]);
      LineEnd(Nodes(), cursorNode);
    }

    /** Nor is it in a row of single-width text. */
    lemma SingleWidthIsEasy()
      requires Valid() && NoWide(Nodes())
      ensures !CursorInsideWide() && !CursorPastEmptySpan()
    {
      hide RowCells;
    }

    /** Blanks up to the cursor: into the last node if they leave no mark there, otherwise into a new text node. */
    method AppendBlanks(count: nat)
      requires Valid() && cursorOffset == NodeWidth(Nodes()[cursorNode]) + count && count > 0
      modifies this`rowsArray, this`cursorNode, this`cursorOffset
      ensures Valid() && OnlyCursorRow() && rowsArray[cursorRow].lineOverflow == old(rowsArray[cursorRow].lineOverflow)
      ensures CursorLine() == Pad(old(CursorLine()), cursorColumn) && |CursorLine()| == cursorColumn
      ensures AllNarrow(Nodes()[cursorNode].text)
      ensures old(NoWide(Nodes())) ==> NoWide(Nodes())
    {
      hide RowCells, TextCells, NodeOk, NodeWidth, Locate, Blanks, Pad;
      var nodes := Nodes();
      var node := nodes[cursorNode];
      LineEnd(nodes, cursorNode);
      if node.HoldsBlanks() {
        PadNode(nodes, cursorNode, count);
        SetNodes(nodes[cursorNode := node.(text := node.text + Spaces(count))]);
      } else {
        PadRow(nodes, count);
        SetNodes(nodes + [BareTextNode(Spaces(count))]);
        cursorNode := cursorNode + 1;
        cursorOffset := count;
      }
      LineEnd(Nodes(), cursorNode);
    }

    /**
     The missing blanks of a line that stops short of the cursor.  They never become part of the new
     text: that needs a background that is falsy, and the default colour is a symbol.
     */
    method PadCursor()
      requires Valid()
      modifies this`rowsArray, this`cursorNode, this`cursorOffset
      ensures Valid() && OnlyCursorRow() && rowsArray[cursorRow].lineOverflow == old(rowsArray[cursorRow].lineOverflow)
      ensures CursorLine() == Pad(old(CursorLine()), cursorColumn) && cursorColumn <= |CursorLine()|
      ensures old(CursorInsideWide()) <==> CursorInsideWide()
      ensures old(CursorInsideWide()) ==> CursorLine() == old(CursorLine())
      ensures old(NoWide(Nodes())) ==> NoWide(Nodes())
    {
      hide RowCells, TextCells, NodeOk, NodeWidth, Locate, Blanks;
      var nodes := Nodes();
      var node := nodes[cursorNode];
      LineEnd(nodes, cursorNode);
      WideNodeWidth(node);
      var reverseOffset := NodeWidth(node) - cursorOffset;
      if reverseOffset < 0 {
        AppendBlanks(-reverseOffset);
      }
    }

    /** The text of a node with more text at an offset. */
    static method SpliceInto(node: Node, offset: nat, str: Text) returns (text: Text)
      requires AllNarrow(node.text) && offset <= |node.text|
      ensures node.(text := text) == WithText(node, offset, str)
    {
      NarrowNode(node, 0, offset);
      NarrowNode(node, offset, 0);
      SpliceText(node.text, offset, str);
      if offset == NodeWidth(node) {
        text := node.text + str;
      } else if offset == 0 {
        text := str + node.text;
      } else {
        text := NodeSubstr(node, 0, offset) + str + NodeSubstrFrom(node, offset);
      }
    }

    /** The text fits into the cursor node itself. */
    method PlaceInCursorNode(str: Text)
      requires Valid() && TokenOk(textAttributes, str) && cursorColumn <= |CursorLine()|
      requires textAttributes.MatchesContainer(Nodes()[cursorNode])
      modifies this`rowsArray
      ensures OnlyCursorRow() && rowsArray[cursorRow].lineOverflow == old(rowsArray[cursorRow].lineOverflow)
      ensures RowOk(Nodes()) &&
        CursorAt(Nodes(), cursorNode, cursorOffset + StrWidth(str), cursorColumn + StrWidth(str))
      ensures CursorLine() == Insert(old(CursorLine()), cursorColumn, TextCells(str, textAttributes.ContainerStyle()))
      ensures old(NoWide(Nodes())) && !textAttributes.wcNode ==> NoWide(Nodes())
    {
      hide RowCells, TextCells, Insert, NodeWidth;
      var nodes := Nodes();
      var node := nodes[cursorNode];
      MatchingMeansSameStyle(textAttributes, node);
      NarrowNode(node, 0, 0);
      LineEnd(nodes, cursorNode);
      NarrowWidth(str);
      var text := SpliceInto(node, cursorOffset, str);
      InsertIntoNode(nodes, cursorNode, cursorOffset, str);
      SetNodes(nodes[cursorNode := node.(text := text)]);
    }

    /** At the start of the cursor node, text that matches the node before it goes there. */
    method AppendToPrevious(str: Text)
      requires Valid() && TokenOk(textAttributes, str) && cursorOffset == 0
      requires cursorNode > 0 && textAttributes.MatchesContainer(Nodes()[cursorNode - 1])
      modifies this`rowsArray, this`cursorNode, this`cursorOffset
      ensures OnlyCursorRow() && rowsArray[cursorRow].lineOverflow == old(rowsArray[cursorRow].lineOverflow)
      ensures RowOk(Nodes()) && CursorAt(Nodes(), cursorNode, cursorOffset, cursorColumn + StrWidth(str))
      ensures |Nodes()| == old(|Nodes()|)
      ensures CursorLine() == Insert(old(CursorLine()), cursorColumn, TextCells(str, textAttributes.ContainerStyle()))
      ensures old(NoWide(Nodes())) ==> NoWide(Nodes())
    {
      hide RowCells, TextCells, Insert, NodeOk, NodeWidth, Replaced, StrWidth;
      var nodes := Nodes();
      var previous := nodes[cursorNode - 1];
      MatchingMeansSameStyle(textAttributes, previous);
      StartColumnNext(nodes, cursorNode - 1);
      NarrowNode(previous, 0, 0);
      assert WithText(previous, |previous.text|, str) == previous.(text := previous.text + str);
      InsertIntoNode(nodes, cursorNode - 1, |previous.text|, str);
      NarrowWidth(str);
      NarrowWidth(previous.text + str);
      cursorNode := cursorNode - 1;
      SetNodes(nodes[cursorNode := previous.(text := previous.text + str)]);
      cursorOffset := StrWidth(previous.text + str);
    }

    /** At the start of the cursor node: append to the node before it, or make a node in between. */
    method PlaceBefore(str: Text)
      requires Valid() && TokenOk(textAttributes, str) && cursorOffset == 0
      modifies this`rowsArray, this`cursorNode, this`cursorOffset
      ensures OnlyCursorRow() && rowsArray[cursorRow].lineOverflow == old(rowsArray[cursorRow].lineOverflow)
      ensures RowOk(Nodes()) && CursorAt(Nodes(), cursorNode, cursorOffset, cursorColumn + StrWidth(str))
      ensures |Nodes()| == old(|Nodes()|) +
        if old(cursorNode > 0 && textAttributes.MatchesContainer(Nodes()[cursorNode - 1])) then 0 else 1
      ensures CursorLine() == Insert(old(CursorLine()), cursorColumn, TextCells(str, textAttributes.ContainerStyle()))
      ensures old(NoWide(Nodes())) && !textAttributes.wcNode ==> NoWide(Nodes())
    {
      hide RowCells, TextCells, Insert, NodeOk, NodeWidth, StrWidth, Replaced;
      var nodes := Nodes();
      if cursorNode > 0 && textAttributes.MatchesContainer(nodes[cursorNode - 1]) {
        AppendToPrevious(str);
        return;
      }
      var newNode := textAttributes.CreateContainer(str);
      ContainerIsOk(textAttributes, str);
      InsertNode(nodes, cursorNode, newNode);
      NoWideInserted(nodes, cursorNode, newNode);
      SetNodes(nodes[..cursorNode] + [newNode] + nodes[cursorNode..]);
      cursorOffset := StrWidth(str);
    }

    /** At the end of the cursor node, text that matches the next node goes there. */
    method PrependToNext(str: Text)
      requires Valid() && TokenOk(textAttributes, str) && cursorNode + 1 < |Nodes()|
      requires cursorOffset == NodeWidth(Nodes()[cursorNode]) &&
        textAttributes.MatchesContainer(Nodes()[cursorNode + 1])
      modifies this`rowsArray, this`cursorNode, this`cursorOffset
      ensures OnlyCursorRow() && rowsArray[cursorRow].lineOverflow == old(rowsArray[cursorRow].lineOverflow)
      ensures RowOk(Nodes()) && CursorAt(Nodes(), cursorNode, cursorOffset, cursorColumn + StrWidth(str))
      ensures |Nodes()| == old(|Nodes()|)
      ensures CursorLine()
        == Insert(old(CursorLine()), cursorColumn, TextCells(str, textAttributes.ContainerStyle()))
      ensures old(NoWide(Nodes())) ==> NoWide(Nodes())
    {
      hide RowCells, TextCells, Insert, NodeOk, NodeWidth, Replaced, StrWidth;
      var nodes := Nodes();
      var next := nodes[cursorNode + 1];
      StartColumnNext(nodes, cursorNode);
      MatchingMeansSameStyle(textAttributes, next);
      LineEnd(nodes, cursorNode + 1);
      assert WithText(next, 0, str) == next.(text := str + next.text);
      InsertIntoNode(nodes, cursorNode + 1, 0, str);
      NarrowWidth(str);
      cursorNode := cursorNode + 1;
      SetNodes(nodes[cursorNode := next.(text := str + next.text)]);
      cursorOffset := StrWidth(str);
    }

    /** At or beyond the end of the cursor node: prepend to the next node, or make a node in between. */
    method PlaceAfter(str: Text)
      requires Valid() && TokenOk(textAttributes, str) && cursorColumn <= |CursorLine()|
      requires cursorOffset >= NodeWidth(Nodes()[cursorNode])
      modifies this`rowsArray, this`cursorNode, this`cursorOffset
      ensures OnlyCursorRow() && rowsArray[cursorRow].lineOverflow == old(rowsArray[cursorRow].lineOverflow)
      ensures RowOk(Nodes()) && CursorAt(Nodes(), cursorNode, cursorOffset, cursorColumn + StrWidth(str))
      ensures |Nodes()| == old(|Nodes()|) +
        if old(cursorNode + 1 < |Nodes()| && textAttributes.MatchesContainer(Nodes()[cursorNode + 1])) then 0 else 1
      ensures CursorLine() == Insert(old(CursorLine()), cursorColumn, TextCells(str, textAttributes.ContainerStyle()))
      ensures old(NoWide(Nodes())) && !textAttributes.wcNode ==> NoWide(Nodes())
    {
      hide RowCells, TextCells, Insert, NodeOk, NodeWidth, Replaced, StrWidth, NoWide;
      var nodes := Nodes();
      StartColumnNext(nodes, cursorNode);
      LineEnd(nodes, cursorNode);
      if cursorNode + 1 < |nodes| && textAttributes.MatchesContainer(nodes[cursorNode + 1]) {
        LineEnd(nodes, cursorNode + 1);
        PrependToNext(str);
        return;
      }
      var newNode := textAttributes.CreateContainer(str);
      ContainerIsOk(textAttributes, str);
      InsertNode(nodes, cursorNode + 1, newNode);
      NoWideInserted(nodes, cursorNode + 1, newNode);
      cursorNode := cursorNode + 1;
      SetNodes(nodes[..cursorNode] + [newNode] + nodes[cursorNode..]);
      cursorOffset := NodeWidth(newNode);
    }

    /**
     `splitNode_`, as a list of nodes that takes the place of the cursor node: an empty part is left
     out.  When the first part is left out, the cursor node is no longer in the row.
     */
    static function SplitNode(node: Node, offset: nat): (parts: (seq<Node>, seq<Node>)) {
      var left := node.(text := NodeSubstr(node, 0, offset));
      var right := node.(text := DropColumns(node.text, offset));
      (if left.text == [] then [] else [left], if right.text == [] then [] else [right])
    }

    /**
     In the middle of the cursor node: split it and put a new node in between.  A wide glyph has no
     middle to split at: its node is replaced by the second part, and the new node, which should follow
     the first part, ends up at the end of the row.
     */
    method PlaceInside(str: Text)
      requires Valid() && TokenOk(textAttributes, str) && 0 < cursorOffset < NodeWidth(Nodes()[cursorNode])
      modifies this`rowsArray, this`cursorNode, this`cursorOffset
      ensures OnlyCursorRow() && rowsArray[cursorRow].lineOverflow == old(rowsArray[cursorRow].lineOverflow)
      ensures RowOk(Nodes()) && Nodes() != []
      ensures CursorAt(Nodes(), cursorNode, cursorOffset, cursorColumn + StrWidth(str)) <==> !old(CursorInsideWide())
      ensures var cells := TextCells(str, textAttributes.ContainerStyle());
              CursorLine() == if old(CursorInsideWide()) then old(CursorLine()) + cells
                              else Insert(old(CursorLine()), cursorColumn, cells)
      ensures old(NoWide(Nodes())) && !textAttributes.wcNode ==> NoWide(Nodes())
    {
      hide RowCells, TextCells, Insert, NodeWidth, SplitNode;
      var nodes := Nodes();
      var (left, right) := SplitNode(nodes[cursorNode], cursorOffset);
      SplitParts(nodes[cursorNode], cursorOffset);
      var newNode := textAttributes.CreateContainer(str);
      ContainerIsOk(textAttributes, str);
      if left == [] {
        RightInPlace(nodes, cursorNode, right);
        RowEnd(nodes, cursorNode, newNode);
        SetNodes(nodes[..cursorNode] + right + nodes[cursorNode + 1..] + [newNode]);
        cursorNode := |nodes|;
      } else {
        SplitAround(nodes, cursorNode, cursorOffset, newNode);
        var nodes' := nodes[..cursorNode] + [left[0], newNode, right[0]] + nodes[cursorNode + 1..];
        StartColumnNext(nodes', cursorNode);
        SetNodes(nodes');
        cursorNode := cursorNode + 1;
      }
      cursorOffset := StrWidth(str);
    }

    /** The placing part of `insertString`: into the cursor node, a neighbour, or a new node. */
    method Place(str: Text)
      requires Valid() && TokenOk(textAttributes, str) && cursorColumn <= |CursorLine()|
      modifies this`rowsArray, this`cursorNode, this`cursorOffset
      ensures OnlyCursorRow() && rowsArray[cursorRow].lineOverflow == old(rowsArray[cursorRow].lineOverflow)
      ensures RowOk(Nodes()) && Nodes() != []
      ensures CursorAt(Nodes(), cursorNode, cursorOffset, cursorColumn + StrWidth(str)) <==> !old(CursorInsideWide())
      ensures var cells := TextCells(str, textAttributes.ContainerStyle());
              CursorLine() == if old(CursorInsideWide()) then old(CursorLine()) + cells
                              else Insert(old(CursorLine()), cursorColumn, cells)
      ensures old(NoWide(Nodes())) && !textAttributes.wcNode ==> NoWide(Nodes())
    {
      hide RowCells, TextCells, Insert, NodeOk, NodeWidth;
      WideNodeWidth(Nodes()[cursorNode]);
      LineEnd(Nodes(), cursorNode);
      if textAttributes.MatchesContainer(Nodes()[cursorNode]) {
        MatchingMeansSameStyle(textAttributes, Nodes()[cursorNode]);
        PlaceInCursorNode(str);
        cursorOffset := cursorOffset + StrWidth(str);
      } else if cursorOffset == 0 {
        PlaceBefore(str);
      } else if cursorOffset >= NodeWidth(Nodes()[cursorNode]) {
        PlaceAfter(str);
      } else {
        PlaceInside(str);
      }
    }

    /**
     `insertString`.  The cells of the row are spliced at the cursor, after blanks if the line is too
     short, and the cache follows, exactly when the cursor is not inside a wide glyph.
     */
    method InsertString(str: Text)
      requires Valid() && TokenOk(textAttributes, str)
      modifies this`rowsArray, this`cursorNode, this`cursorOffset, this`cursorColumn
      ensures OnlyCursorRow() && !rowsArray[cursorRow].lineOverflow && RowsOk(rowsArray)
      ensures cursorColumn == old(cursorColumn) + StrWidth(str)
      ensures Valid() <==> !old(CursorInsideWide())
      ensures var cells := TextCells(str, textAttributes.ContainerStyle());
              CursorLine() == if old(CursorInsideWide()) then old(CursorLine()) + cells
                              else Insert(old(CursorLine()), old(cursorColumn), cells)
      ensures old(NoWide(Nodes())) && !textAttributes.wcNode ==> NoWide(Nodes())
    {
      hide RowCells, TextCells, Insert, NodeOk, NodeWidth, Pad;
      rowsArray := rowsArray[cursorRow := rowsArray[cursorRow].(lineOverflow := false)];
      var wcwidth := StrWidth(str);
      PadCursor();
      InsertPad(old(CursorLine()), cursorColumn, TextCells(str, textAttributes.ContainerStyle()));
      Place(str);
      cursorColumn := cursorColumn + wcwidth;
    }

    /** The cursor is beyond a wide span that the right margin has emptied. */
    predicate CursorPastEmptySpan()
      requires Valid()
      reads this
    {
      EmptySpan(Nodes()[cursorNode]) && cursorOffset > 0
    }

    /** What takes the place of half a wide glyph. */
    function OrphanMark(): Line
      reads this
    {
      TextCells([SPACE], textAttributes.ContainerStyle())
    }

    /** Every node but the cursor node `c` is as it should be between edits. */
    static ghost predicate OkApartFrom(nodes: seq<Node>, c: int) {
      0 <= c < |nodes| && NodeShape(nodes[c]) && forall i :: 0 <= i < |nodes| && i != c ==> NodeOk(nodes[i])
    }

    /** The cursor still stands for `column`; a span that was emptied under it starts there. */
    static ghost predicate CursorKept(nodes: seq<Node>, c: int, offset: nat, column: nat)
      requires 0 <= c < |nodes|
    {
      if EmptySpan(nodes[c]) then StartColumn(nodes, c) == column
      else NodeOk(nodes[c]) && CursorAt(nodes, c, offset, column) &&
           !(offset == 1 && |nodes[c].text| == 1 && nodes[c].text[0].Wide?)
    }

    /** The first turn of the loop, on the cursor node. */
    method EraseCursor(nodes: seq<Node>, count: nat) returns (nodes': seq<Node>, c: nat, k: nat, left: nat)
      requires Valid() && nodes == Nodes() && count > 0
      ensures c < k <= |nodes'| && OkApartFrom(nodes', c) && left <= count
      ensures nodes'[c].isText == nodes[cursorNode].isText
      ensures if CursorPastEmptySpan() then nodes' == nodes && c == cursorNode
              else CursorKept(nodes', c, cursorOffset, cursorColumn)
      ensures Outlook(nodes', k, 0, left, OrphanMark()) == Outlook(nodes, cursorNode, cursorOffset, count, OrphanMark())
      ensures NoWide(Nodes()) && !textAttributes.wcNode ==> NoWide(nodes')
    {
      hide RowCells, TextCells, Delete, EraseNode, NodeShape, NodeWidth;
      var node := nodes[cursorNode];
      var e := EraseNode(textAttributes, node, true, cursorOffset, count);
      TurnKeepsOutlook(textAttributes, nodes, cursorNode, true, cursorOffset, count);
      ErasedNoWide(textAttributes, node, true, cursorOffset, count);
      EraseCursorNode(textAttributes, node, cursorOffset, count);
      nodes', c, k, left := AfterTurn(nodes, cursorNode, e), cursorNode + e.cursor, cursorNode + e.pending, e.count;
      ghost var pieces := e.pieces[..e.cursor];
      assert nodes'[..c] == nodes[..cursorNode] + pieces;
      RowCellsAppend(nodes[..cursorNode], pieces);
      if e.cursor == 0 {
        assert pieces == [];
        RowCellsNothing();
      }
      if CursorPastEmptySpan() {
        EraseEmptySpan(textAttributes, node, cursorOffset, count);
        assert nodes' == nodes;
      }
    }

    /** A later turn of the loop. */
    method EraseNext(nodes: seq<Node>, c: nat, k: nat, count: nat) returns (nodes': seq<Node>, k': nat, left: nat)
      requires c < k < |nodes| && OkApartFrom(nodes, c) && count > 0
      requires !EmptySpan(nodes[c]) ==> cursorOffset >= 0
      ensures c < k' <= |nodes'| && OkApartFrom(nodes', c) && nodes'[..c + 1] == nodes[..c + 1]
      ensures left < count || (left == count && |nodes'| - k' < |nodes| - k)
      ensures Outlook(nodes', k', 0, left, OrphanMark()) == Outlook(nodes, k, 0, count, OrphanMark())
      ensures NoWide(nodes) && !textAttributes.wcNode ==> NoWide(nodes')
    {
      hide RowCells, TextCells, Delete, NodeShape, NodeWidth, Outlook, RemainingText;
      var e := EraseNode(textAttributes, nodes[k], false, 0, count);
      TurnKeepsOutlook(textAttributes, nodes, k, false, 0, count);
      ErasedNoWide(textAttributes, nodes[k], false, 0, count);
      EraseOtherNode(textAttributes, nodes[k], count);
      nodes', k', left := AfterTurn(nodes, k, e), k + e.pending, e.count;
    }

    /** The loop of `deleteChars`. */
    method EraseLoop(count: nat) returns (nodes: seq<Node>, c: nat)
      requires Valid() && count > 0
      ensures OkApartFrom(nodes, c) && nodes[c].isText == Nodes()[cursorNode].isText
      ensures if CursorPastEmptySpan() then c == cursorNode && nodes[..c + 1] == Nodes()[..c + 1]
              else CursorKept(nodes, c, cursorOffset, cursorColumn)
      ensures RowCells(nodes) == Delete(CursorLine(), cursorColumn, count, OrphanMark())
      ensures NoWide(Nodes()) && !textAttributes.wcNode ==> NoWide(nodes)
    {
      hide RowCells, TextCells, Delete, NodeShape, NodeWidth, Outlook, EmptySpan;
      var k, left;
      nodes, c, k, left := EraseCursor(Nodes(), count);
      ghost var target := Outlook(Nodes(), cursorNode, cursorOffset, count, OrphanMark());
      ghost var first := nodes[..c + 1];
      assert CursorPastEmptySpan() ==> first == Nodes()[..c + 1];
      while k < |nodes| && left > 0
        invariant c < k <= |nodes| && OkApartFrom(nodes, c)
        invariant nodes[..c + 1] == first
        invariant nodes[c].isText == Nodes()[cursorNode].isText
        invariant NoWide(Nodes()) && !textAttributes.wcNode ==> NoWide(nodes)
        invariant !CursorPastEmptySpan() ==> CursorKept(nodes, c, cursorOffset, cursorColumn)
        invariant Outlook(nodes, k, 0, left, OrphanMark()) == target
        decreases left, |nodes| - k
      {
        ghost var before := nodes;
        nodes, k, left := EraseNext(nodes, c, k, left);
        KeptByPrefix(before, nodes, c);
      }
      OutlookDone(nodes, k, left, OrphanMark());
      OutlookStart(Nodes(), cursorNode, cursorOffset, count, OrphanMark());
    }

    /**
     The last part of `deleteChars`: when the span under the cursor has been emptied, move the cursor
     to a neighbour, or to a new text node, and take the span out of the row.
     */
    method LeaveEmptySpan(nodes: seq<Node>, c: nat)
      requires 0 <= cursorRow < |rowsArray| && OkApartFrom(nodes, c)
      modifies this`rowsArray, this`cursorNode, this`cursorOffset
      ensures cursorRow == old(cursorRow) && |rowsArray| == |old(rowsArray)|
      ensures rowsArray == old(rowsArray)[cursorRow := old(rowsArray[cursorRow]).(nodes := Nodes())]
      ensures RowCells(Nodes()) == RowCells(nodes) && RowOk(Nodes())
      ensures !EmptySpan(nodes[c]) ==> Nodes() == nodes && cursorNode == c && cursorOffset == old(cursorOffset)
      ensures EmptySpan(nodes[c]) ==>
        CursorAt(Nodes(), cursorNode, cursorOffset, StartColumn(nodes, c)) &&
        cursorOffset <= NodeWidth(Nodes()[cursorNode]) &&
        (cursorOffset == 0 || cursorOffset == NodeWidth(Nodes()[cursorNode]))
      ensures NoWide(nodes) ==> NoWide(Nodes())
    {
      hide RowCells, NodeShape, NodeWidth;
      if nodes[c].isText || nodes[c].text != [] {
        NotEmptySpanOk(nodes[c]);
        SetNodes(nodes);
        cursorNode := c;
        return;
      }
      var rest := nodes[..c] + nodes[c + 1..];
      EmptySpanRemoved(nodes, c);
      if c > 0 {
        StartColumnNext(nodes, c - 1);
        cursorNode := c - 1;
        cursorOffset := NodeWidth(nodes[c - 1]);
        SetNodes(rest);
        KeptByPrefix(nodes, rest, c - 1);
      } else if c + 1 < |nodes| {
        cursorNode := 0;
        cursorOffset := 0;
        SetNodes(rest);
      } else {
        cursorNode := 0;
        cursorOffset := 0;
        EmptyTextRow();
        RowCellsNothing();
        assert rest == [] && rest + [BareTextNode([])] == [BareTextNode([])];
        SetNodes(rest + [BareTextNode([])]);
      }
    }

    /**
     `deleteChars`.  Exactly the columns from the cursor on are removed, up to the right margin, and a
     half of a wide glyph that is left over becomes a space.  The cursor cache survives, except when
     the cursor was beyond an emptied wide span.
     */
    method DeleteChars(count: nat) returns (deleted: nat)
      requires Valid() && cursorColumn <= columnCount
      modifies this`rowsArray, this`cursorNode, this`cursorOffset
      ensures deleted == if count <= columnCount - cursorColumn then count else columnCount - cursorColumn
      ensures OnlyCursorRow() && RowsOk(rowsArray) &&
        rowsArray[cursorRow].lineOverflow == old(rowsArray[cursorRow].lineOverflow)
      ensures CursorLine() == Delete(old(CursorLine()), cursorColumn, deleted, OrphanMark())
      ensures Valid() <==> deleted == 0 || !old(CursorPastEmptySpan())
      ensures Valid() && deleted > 0 ==> !CursorInsideWide()
      ensures old(NoWide(Nodes())) && !textAttributes.wcNode ==> NoWide(Nodes())
    {
      hide RowCells, TextCells, Delete, NodeShape, NodeWidth, EmptySpan;
      deleted := if count <= columnCount - cursorColumn then count else columnCount - cursorColumn;
      if deleted == 0 {
        DeleteNothing(CursorLine(), cursorColumn, 0, OrphanMark());
        return;
      }
      var nodes, c := EraseLoop(deleted);
      ghost var before := Nodes();
      LeaveEmptySpan(nodes, c);
      if old(CursorPastEmptySpan()) {
        KeptByPrefix(before, nodes, c);
      }
      WideNodeWidth(Nodes()[cursorNode]);
    }

    /** What `maybeClipCurrentRow` does to a row that is too wide, with the cursor on the last column. */
    method CutAfterCursor()
      requires Valid() && cursorColumn == columnCount - 1 && |CursorLine()| > columnCount
      requires cursorOffset < NodeWidth(Nodes()[cursorNode])
      modifies this`rowsArray
      ensures OnlyCursorRow() && Valid() && rowsArray[cursorRow].lineOverflow == old(rowsArray[cursorRow].lineOverflow)
      ensures CursorLine() == Clip(old(CursorLine()), columnCount)
      ensures old(NoWide(Nodes())) ==> NoWide(Nodes())
    {
      hide RowCells, TextCells, NodeWidth, NodeOk;
      var nodes := Nodes();
      var node := nodes[cursorNode];
      LineEnd(nodes, cursorNode);
      var width := NodeWidth(node);
      var cut := node;
      if cursorOffset < width - 1 {
        cut := node.(text := NodeSubstr(node, 0, cursorOffset + 1));
      }
      CutNode(node, cursorOffset);
      CutRow(nodes, cursorNode, cut, cursorOffset);
      SetNodes(nodes[..cursorNode] + [cut]);
    }

    /**
     `maybeClipCurrentRow`: no cell is beyond the right margin afterwards, and a cursor that had run
     over the margin is on the last column with its overflow bit set.
     */
    method MaybeClipCurrentRow()
      requires Valid()
      modifies this
      ensures Valid() && OnlyCursorRow() && columnCount == old(columnCount) && textAttributes == old(textAttributes)
      ensures rowsArray[cursorRow].lineOverflow == old(rowsArray[cursorRow].lineOverflow)
      ensures CursorLine() == Clip(old(CursorLine()), columnCount)
      ensures cursorColumn == if old(cursorColumn) < columnCount then old(cursorColumn) else columnCount - 1
      ensures cursorOverflow == if old(cursorColumn) >= columnCount then true
                                else if |old(CursorLine())| > columnCount then false else old(cursorOverflow)
      ensures old(NoWide(Nodes())) ==> NoWide(Nodes())
    {
      hide RowCells, TextCells, NodeOk, NodeWidth, Locate;
      RowTextWidth(Nodes());
      var width := StrWidth(RowText(Nodes()));
      if width <= columnCount {
        if cursorColumn >= columnCount {
          SetCursorPosition(cursorRow, columnCount - 1);
          cursorOverflow := true;
        }
        return;
      }
      var currentColumn := cursorColumn;
      SetCursorPosition(cursorRow, columnCount - 1);
      LocateInside(Nodes(), columnCount - 1);
      CutAfterCursor();
      if currentColumn < columnCount {
        SetCursorPosition(cursorRow, currentColumn);
      } else {
        cursorOverflow := true;
      }
    }

    /** The row already shows the text behind the cursor, in the current style. */
    predicate AlreadyShown(str: Text)
      requires 0 <= cursorRow < |rowsArray| && 0 <= cursorNode < |Nodes()| && cursorOffset >= 0
      reads this
    {
      var node := Nodes()[cursorNode];
      textAttributes.MatchesContainer(node) && cursorOffset <= |node.text| && node.text[cursorOffset..] == str
    }

    /**
     `overwriteString`: the text takes the place of as many columns as it has, up to the margin.  A text
     that is already shown only moves the cursor, even if it reaches beyond the margin.
     */
    method OverwriteString(str: Text)
      requires Valid() && TokenOk(textAttributes, str) && cursorColumn <= columnCount
      requires cursorColumn < columnCount ==> !CursorPastEmptySpan()
      modifies this`rowsArray, this`cursorNode, this`cursorOffset, this`cursorColumn
      ensures OnlyCursorRow() && Valid()
      ensures rowsArray[cursorRow].lineOverflow ==> old(rowsArray[cursorRow].lineOverflow)
      ensures old(cursorColumn) == columnCount ==>
        CursorLine() == old(CursorLine()) && cursorColumn == old(cursorColumn)
      ensures old(cursorColumn) < columnCount ==>
        var width, room := StrWidth(str), columnCount - old(cursorColumn);
        var erased := if width <= room || old(AlreadyShown(str)) then width else room;
        cursorColumn == old(cursorColumn) + width &&
        CursorLine() == Insert(Delete(old(CursorLine()), old(cursorColumn), erased, OrphanMark()), old(cursorColumn),
                               TextCells(str, textAttributes.ContainerStyle()))
      ensures old(cursorColumn) < columnCount && old(AlreadyShown(str)) ==> CursorLine() == old(CursorLine())
      ensures old(NoWide(Nodes())) && !textAttributes.wcNode ==> NoWide(Nodes())
    {
      hide RowCells, TextCells, NodeOk, NodeWidth, Insert, Delete;
      var maxLength := columnCount - cursorColumn;
      if maxLength == 0 {
        return;
      }
      var wcwidth := StrWidth(str);
      TokenWidth(textAttributes, str);
      if AlreadyShown(str) {
        MatchingMeansSameStyle(textAttributes, Nodes()[cursorNode]);
        OverwriteWithItself(Nodes(), cursorNode, cursorOffset, OrphanMark());
        cursorOffset := cursorOffset + wcwidth;
        cursorColumn := cursorColumn + wcwidth;
        return;
      }
      var _ := DeleteChars(if wcwidth <= maxLength then wcwidth else maxLength);
      InsertString(str);
    }

    /** `clearCursorRow`: blank, or filled with the current background, inverse colours not honoured. */
    method ClearCursorRow()
      requires columnCount > 0 && 0 <= cursorRow < |rowsArray| && Some(rowsArray[cursorRow].id) == cursorRowNode
      requires RowsOk(rowsArray) && DistinctIds(rowsArray) && !textAttributes.wcNode
      modifies this`rowsArray, this`cursorNode, this`cursorOffset, this`cursorColumn, this`cursorOverflow
      ensures OnlyCursorRow() && Valid() && !rowsArray[cursorRow].lineOverflow
      ensures cursorColumn == 0 && !cursorOverflow
      ensures CursorLine() == ClearedLine(textAttributes, columnCount)
      ensures NoWide(Nodes())
    {
      hide RowCells, TextCells;
      cursorOffset := 0;
      cursorColumn := 0;
      cursorOverflow := false;
      var text := if textAttributes.IsDefault() then [] else Spaces(columnCount);
      var node := textAttributes.(inverse := false).CreateContainer(text);
      ClearedNode(textAttributes, columnCount);
      rowsArray := rowsArray[cursorRow := rowsArray[cursorRow].(lineOverflow := false, nodes := [node])];
      cursorNode := 0;
      assert [node][..0] == [];
      RowCellsNothing();
    }

    /** `commitLineOverflow`: the cursor row continues on the next row. */
    method CommitLineOverflow()
      requires 0 <= cursorRow < |rowsArray|
      modifies this`rowsArray
      ensures rowsArray == old(rowsArray)[cursorRow := old(rowsArray[cursorRow]).(lineOverflow := true)]
    {
      rowsArray := rowsArray[cursorRow := rowsArray[cursorRow].(lineOverflow := true)];
    }
  }
}
