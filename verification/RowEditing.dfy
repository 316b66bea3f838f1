/**
 The list edits behind the row-editing methods of `hterm.Screen`, each with its effect on the cells.
 */
module RowEditing {
  import opened TextAttributes
  import opened Cells

  lemma ReplacedKeeps(nodes: seq<Node>, i: nat, j: nat, with: seq<Node>)
    requires RowOk(nodes) && i <= j <= |nodes| && RowOk(with)
    ensures RowOk(Replaced(nodes, i, j, with))
    ensures StartColumn(Replaced(nodes, i, j, with), i) == StartColumn(nodes, i)
  {
    hide RowCells, NodeOk;
    assert Replaced(nodes, i, j, with)[..i] == nodes[..i];
  }

  /** Replace some nodes by nodes that show the same cells with `cells` spliced in. */
  lemma ReplacedInserts(nodes: seq<Node>, i: nat, j: nat, with: seq<Node>, offset: nat, cells: Line)
    requires i <= j <= |nodes|
    requires var mid := RowCells(nodes[i..j]);
             offset <= |mid| && RowCells(with) == mid[..offset] + cells + mid[offset..]
    ensures RowCells(Replaced(nodes, i, j, with)) == Insert(RowCells(nodes), StartColumn(nodes, i) + offset, cells)
  {
    hide RowCells, Insert, Replaced;
    RowCellsAround(nodes, i, j);
    RowCellsReplaced(nodes, i, j, with);
    InsertAround(RowCells(nodes[..i]), RowCells(nodes[i..j]), RowCells(nodes[j..]), offset, cells);
  }

  /** The node's text with `str` put in at `offset`. */
  function WithText(node: Node, offset: nat, str: Text): Node
    requires offset <= |node.text|
  {
    node.(text := node.text[..offset] + str + node.text[offset..])
  }

  lemma WithTextCells(node: Node, offset: nat, str: Text)
    requires NodeOk(node) && !node.wc && AllNarrow(str) && offset <= |node.text|
    ensures NodeOk(WithText(node, offset, str)) && NodeWidth(WithText(node, offset, str)) == NodeWidth(node) + |str|
    ensures |NodeCells(node)| == |node.text|
    ensures NodeCells(WithText(node, offset, str))
         == NodeCells(node)[..offset] + TextCells(str, node.style) + NodeCells(node)[offset..]
  {
    hide TextCells;
    var before, after := node.text[..offset], node.text[offset..];
    NarrowCut(node.text, node.style, offset);
    TextCellsAppend(before + str, after, node.style);
    TextCellsAppend(before, str, node.style);
    NarrowNode(node, 0, 0);
    NarrowNode(WithText(node, offset, str), 0, 0);
  }

  /** Text put into a node of its own style. */
  lemma InsertIntoNode(nodes: seq<Node>, i: nat, offset: nat, str: Text)
    requires RowOk(nodes) && i < |nodes| && !nodes[i].wc && AllNarrow(str) && offset <= |nodes[i].text|
    ensures var nodes' := nodes[i := WithText(nodes[i], offset, str)];
            RowOk(nodes') && StartColumn(nodes', i) == StartColumn(nodes, i) &&
            NodeWidth(nodes'[i]) == NodeWidth(nodes[i]) + |str| &&
            RowCells(nodes') == Insert(RowCells(nodes), StartColumn(nodes, i) + offset, TextCells(str, nodes[i].style))
  {
    hide RowCells, TextCells, Insert, NodeOk, NodeWidth;
    var node := WithText(nodes[i], offset, str);
    WithTextCells(nodes[i], offset, str);
    assert nodes[i := node] == Replaced(nodes, i, i + 1, [node]);
    assert nodes[i..i + 1] == [nodes[i]];
    RowCellsOne(nodes[i]);
    RowCellsOne(node);
    ReplacedKeeps(nodes, i, i + 1, [node]);
    ReplacedInserts(nodes, i, i + 1, [node], offset, TextCells(str, nodes[i].style));
  }

  /** A new node between two nodes. */
  lemma InsertNode(nodes: seq<Node>, i: nat, node: Node)
    requires RowOk(nodes) && i <= |nodes| && NodeOk(node)
    ensures var nodes' := nodes[..i] + [node] + nodes[i..];
            RowOk(nodes') && StartColumn(nodes', i) == StartColumn(nodes, i) &&
            RowCells(nodes') == Insert(RowCells(nodes), StartColumn(nodes, i), NodeCells(node))
  {
    hide RowCells, NodeCells, Insert, NodeOk, StartColumn;
    assert nodes[i..i] == [];
    RowCellsNothing();
    RowCellsOne(node);
    assert [] + NodeCells(node) + [] == NodeCells(node);
    ReplacedKeeps(nodes, i, i, [node]);
    ReplacedInserts(nodes, i, i, [node], 0, NodeCells(node));
  }

  lemma RowCellsNothing()
    ensures RowCells([]) == []
  {
  }

  lemma RowCellsThree(a: Node, b: Node, c: Node)
    ensures RowCells([a, b, c]) == NodeCells(a) + NodeCells(b) + NodeCells(c)
  {
    hide RowCells, NodeCells;
    assert [a, b, c] == [a] + [b] + [c];
    RowCellsAppend([a] + [b], [c]);
    RowCellsAppend([a], [b]);
    RowCellsOne(a);
    RowCellsOne(b);
    RowCellsOne(c);
  }

  /** A narrow node split in two around a new node. */
  lemma SplitAround(nodes: seq<Node>, i: nat, offset: nat, node: Node)
    requires RowOk(nodes) && i < |nodes| && !nodes[i].wc && NodeOk(node)
    requires 0 < offset < |nodes[i].text|
    ensures var left := nodes[i].(text := nodes[i].text[..offset]);
            var right := nodes[i].(text := nodes[i].text[offset..]);
            var nodes' := nodes[..i] + [left, node, right] + nodes[i + 1..];
            RowOk(nodes') && StartColumn(nodes', i) == StartColumn(nodes, i) && NodeWidth(left) == offset &&
            RowCells(nodes') == Insert(RowCells(nodes), StartColumn(nodes, i) + offset, NodeCells(node))
  {
    hide RowCells, TextCells, Insert;
    var left := nodes[i].(text := nodes[i].text[..offset]);
    var right := nodes[i].(text := nodes[i].text[offset..]);
    NarrowCut(nodes[i].text, nodes[i].style, offset);
    NarrowNode(left, 0, 0);
    assert nodes[i..i + 1] == [nodes[i]];
    RowCellsOne(nodes[i]);
    RowCellsThree(left, node, right);
    ReplacedKeeps(nodes, i, i + 1, [left, node, right]);
    ReplacedInserts(nodes, i, i + 1, [left, node, right], offset, NodeCells(node));
  }

  // ---------------------------------------------------------------- text at the cursor

  lemma ContainerIsOk(attributes: Attributes, str: Text)
    requires TokenOk(attributes, str)
    ensures NodeOk(attributes.CreateContainer(str))
    ensures NodeCells(attributes.CreateContainer(str)) == TextCells(str, attributes.ContainerStyle())
    ensures NodeWidth(attributes.CreateContainer(str)) == StrWidth(str)
  {
    NodeCellsWidth(attributes.CreateContainer(str));
    TextCellsWidth(str, attributes.ContainerStyle());
  }

  lemma LineEnd(nodes: seq<Node>, i: nat)
    requires i < |nodes| && NodeOk(nodes[i])
    ensures StartColumn(nodes, i) + NodeWidth(nodes[i]) <= |RowCells(nodes)|
    ensures i == |nodes| - 1 ==> StartColumn(nodes, i) + NodeWidth(nodes[i]) == |RowCells(nodes)|
  {
    StartColumnNext(nodes, i);
    RowCellsAround(nodes, 0, i + 1);
    assert nodes[..0] == [];
    if i == |nodes| - 1 { assert nodes[..i + 1] == nodes; }
  }

  // ---------------------------------------------------------------- deletion

  /** A styled span without text: deleted, or cut off at the right margin. */
  predicate EmptySpan(node: Node) {
    !node.isText && node.text == []
  }

  /** The text that is left of a node when `count` columns from `offset` on are deleted. */
  function RemainingText(node: Node, offset: nat, count: nat): Text {
    NodeSubstr(node, 0, offset) + NodeSubstrFrom(node, offset + count)
  }

  lemma RemainingNarrow(node: Node, offset: nat, count: nat)
    requires AllNarrow(node.text)
    ensures RemainingText(node, offset, count)
         == if offset >= |node.text| then node.text
            else if offset + count <= |node.text| then node.text[..offset] + node.text[offset + count..]
            else node.text[..offset]
  {
    NarrowNode(node, 0, offset);
    NarrowNode(node, offset + count, 0);
    assert node.text[0..] == node.text;
  }

  lemma WideNodeWidth(node: Node)
    ensures (NodeOk(node) || NodeShape(node)) && |node.text| == 1 && node.text[0].Wide? ==>
      NodeWidth(node) == 2 && node.wc
  {
    if |node.text| == 1 && node.text[0].Wide? {
      assert node.text[1..] == [];
      assert StrWidth(node.text) == 2;
    }
  }

  /** Deleting from a node of narrow glyphs. */
  lemma EraseNarrow(node: Node, rest: Line, offset: nat, count: nat, mark: Line)
    requires NodeShape(node) && AllNarrow(node.text) && Whole(rest) && (offset > NodeWidth(node) ==> rest == [])
    ensures var left := node.(text := RemainingText(node, offset, count));
            var erased := NodeWidth(node) - NodeWidth(left);
            NodeShape(left) && 0 <= erased <= count && (offset < NodeWidth(node) && count > 0 ==> erased > 0) &&
            (offset <= NodeWidth(node) ==> offset <= NodeWidth(left)) &&
            Delete(NodeCells(node) + rest, offset, count, mark)
              == NodeCells(left) + Delete(rest, 0, count - erased, mark)
  {
    hide TextCells, Delete, RemainingText;
    var left := node.(text := RemainingText(node, offset, count));
    RemainingNarrow(node, offset, count);
    NarrowNode(node, 0, 0);
    NarrowNode(left, 0, 0);
    EraseNarrowCells(node.text, node.style, rest, offset, count, mark);
  }

  lemma EraseNarrowCells(text: Text, style: Style, rest: Line, offset: nat, count: nat, mark: Line)
    requires AllNarrow(text) && Whole(rest) && (offset > |text| ==> rest == [])
    ensures Delete(TextCells(text, style) + rest, offset, count, mark)
         == if offset >= |text| then TextCells(text, style) + Delete(rest, 0, count, mark)
            else if offset + count <= |text| then TextCells(text[..offset] + text[offset + count..], style) + rest
            else TextCells(text[..offset], style) + Delete(rest, 0, offset + count - |text|, mark)
    ensures Delete(rest, 0, 0, mark) == rest
  {
    hide TextCells, Delete;
    var cells := TextCells(text, style);
    TextCellsWhole(text, style);
    NarrowSingle(text, style);
    DeleteNothing(rest, 0, 0, mark);
    if offset > |text| {
      assert cells + rest == cells;
      DeleteNothing(cells, offset, count, mark);
      DeleteNothing([], 0, count, mark);
    } else {
      NarrowCut(text, style, offset);
      var head, tail := cells[..offset], cells[offset..];
      assert cells + rest == head + (tail + rest);
      TextCellsWhole(text[..offset], style);
      EraseAfterHead(head, tail, rest, count, mark);
      if offset + count <= |text| {
        NarrowCut(text, style, offset + count);
        TextCellsAppend(text[..offset], text[offset + count..], style);
        assert tail[count..] == cells[offset + count..];
        assert head + (tail[count..] + rest) == (head + tail[count..]) + rest;
      } else if offset == |text| {
        assert tail == [] && head == cells;
      }
    }
  }

  lemma DeleteNothing(line: Line, column: nat, count: nat, mark: Line)
    requires column >= |line| || count == 0
    ensures Delete(line, column, count, mark) == line
  {
  }

  lemma EraseAfterHead(head: Line, tail: Line, rest: Line, count: nat, mark: Line)
    requires Whole(head) && (forall i :: 0 <= i < |tail| ==> tail[i].half.Single?) && Whole(rest)
    ensures Delete(head + (tail + rest), |head|, count, mark)
         == head + (if count <= |tail| then tail[count..] + rest else Delete(rest, 0, count - |tail|, mark))
  {
    hide Delete;
    DeleteAfter(head, tail + rest, 0, count, mark);
    DeleteNarrow(tail, rest, count, mark);
  }

  /** Deleting from the span of a wide glyph, without the spaces that replace a lost half. */
  lemma EraseWide(node: Node, rest: Line, offset: nat, count: nat, mark: Line)
    requires NodeShape(node) && |node.text| == 1 && node.text[0].Wide? && count > 0 && Whole(rest) &&
      (offset > 2 ==> rest == [])
    ensures NodeWidth(node) == 2
    ensures RemainingText(node, offset, count) == if offset >= 2 || (offset == 0 && count == 1) then node.text else []
    ensures Delete(NodeCells(node) + rest, offset, count, mark)
         == if offset >= 2 then NodeCells(node) + Delete(rest, 0, count, mark)
            else if offset == 1 then mark + Delete(rest, 0, count - 1, mark)
            else if count == 1 then mark + rest
            else Delete(rest, 0, count - 2, mark)
  {
    WideCells(node.text, node.style);
    assert node.text[1..] == [];
    assert StrWidth(node.text) == 2;
    assert DropColumns(node.text, 0) == node.text;
    assert TakeColumns(node.text, offset) == if offset >= 2 then node.text else [];
    assert DropColumns(node.text, offset + count) == if offset + count >= 2 then [] else node.text;
    var cells := NodeCells(node);
    if offset >= 2 {
      if offset == 2 {
        DeleteAfter(cells, rest, 0, count, mark);
      } else {
        assert cells + rest == cells;
      }
    } else if offset == 1 {
      DeleteWideBack(cells, rest, count, mark);
    } else {
      DeleteWideFront(cells, rest, count, mark);
    }
  }

  /** What one turn of the loop of `deleteChars` leaves of a node: the nodes, and the columns still to go. */
  datatype Erasure = Erasure(pieces: seq<Node>, cursor: nat, pending: nat, count: int)

  /**
   The body of that loop for one node.  `cursor` is where the node itself is among the pieces and
   `pending` how many of them the loop does not visit again.  A node other than the cursor node goes
   away when nothing is left of it.
   */
  function EraseNode(attributes: Attributes, node: Node, isCursorNode: bool, offset: nat, count: nat): Erasure {
    var startLength := NodeWidth(node);
    var left := node.(text := RemainingText(node, offset, count));
    var endLength := NodeWidth(left);
    if node.wc && offset < startLength &&
       ((endLength > 0 && startLength == endLength) || (endLength == 0 && offset == 1)) then
      var space, emptied := attributes.CreateContainer([SPACE]), node.(text := []);
      if !isCursorNode then Erasure([space], 0, if offset == 0 then 0 else 1, count - 1)
      else if offset == 0 then Erasure([emptied, space], 0, 1, count - 1)
      else Erasure([space, emptied], 1, 2, count - 1)
    else if endLength == 0 && !isCursorNode then Erasure([], 0, 0, count - (startLength - endLength))
    else Erasure([left], 0, 1, count - (startLength - endLength))
  }

  /** The cells of a turn: what is done, and the deletion that is still to be made in what follows. */
  lemma EraseNodeCells(attributes: Attributes, node: Node, isCursorNode: bool, rest: Line, offset: nat, count: nat)
    requires NodeShape(node) && Whole(rest) && count > 0 && (offset > NodeWidth(node) ==> rest == []) &&
      (!isCursorNode ==> offset == 0)
    ensures var mark := TextCells([SPACE], attributes.ContainerStyle());
            var e := EraseNode(attributes, node, isCursorNode, offset, count);
            0 <= e.count <= count && e.pending <= |e.pieces| && (e.pending < |e.pieces| ==> e.count == 0) &&
            Delete(NodeCells(node) + rest, offset, count, mark)
            == RowCells(e.pieces) + Delete(rest, 0, e.count, mark)
  {
    hide TextCells, Delete, RowCells, RemainingText;
    var mark := TextCells([SPACE], attributes.ContainerStyle());
    var left := node.(text := RemainingText(node, offset, count));
    var space, emptied := attributes.CreateContainer([SPACE]), node.(text := []);
    RowCellsNothing();
    RowCellsOne(left);
    RowCellsOne(space);
    RowCellsTwo(emptied, space);
    RowCellsTwo(space, emptied);
    EmptyCells(node);
    assert NodeCells(space) == mark;
    assert mark + [] == mark && [] + mark == mark;
    DeleteNothing(rest, 0, 0, mark);
    var e := EraseNode(attributes, node, isCursorNode, offset, count);
    WideNodeWidth(node);
    if |node.text| == 1 && node.text[0].Wide? {
      EraseWide(node, rest, offset, count, mark);
      if offset < 2 && left.text == [] {
        assert left == emptied;
        assert [] + Delete(rest, 0, e.count, mark) == Delete(rest, 0, e.count, mark);
      }
    } else {
      NarrowNode(node, 0, 0);
      EraseNarrow(node, rest, offset, count, mark);
      NarrowNode(left, 0, 0);
      if left.text == [] {
        assert left == emptied;
      }
      assert [] + Delete(rest, 0, e.count, mark) == Delete(rest, 0, e.count, mark);
    }
  }

  lemma SpaceCells(style: Style)
    ensures |TextCells([SPACE], style)| == 1
  {
    WideCells([SPACE], style);
  }

  lemma SpaceNodeIsOk(attributes: Attributes)
    ensures var node := attributes.CreateContainer([SPACE]);
            NodeOk(node) && NodeCells(node) == TextCells([SPACE], attributes.ContainerStyle())
  {
  }

  lemma EmptyCells(node: Node)
    ensures NodeCells(node.(text := [])) == [] && NodeWidth(node.(text := [])) == 0
  {
  }

  lemma RowCellsTwo(a: Node, b: Node)
    ensures RowCells([a, b]) == NodeCells(a) + NodeCells(b)
  {
    assert [a, b] == [a] + [b];
    RowCellsAppend([a], [b]);
    RowCellsOne(a);
    RowCellsOne(b);
  }

  /** What a turn must leave of the cursor node itself, at `offset`. */
  predicate CursorNodeLeft(node: Node, offset: nat, e: Erasure) {
    e.cursor < e.pending <= |e.pieces| && NodeShape(e.pieces[e.cursor]) &&
    (offset > NodeWidth(node) ==> |e.pieces| == 1) &&
    e.pieces[e.cursor].isText == node.isText &&
    (forall i :: 0 <= i < |e.pieces| && i != e.cursor ==> NodeOk(e.pieces[i])) &&
    (if EmptySpan(e.pieces[e.cursor]) then (EmptySpan(node) && offset > 0) || |RowCells(e.pieces[..e.cursor])| == offset
     else e.cursor == 0 && NodeOk(e.pieces[0]) && (offset <= NodeWidth(node) ==> offset <= NodeWidth(e.pieces[0])) &&
          !(offset == 1 && |e.pieces[0].text| == 1 && e.pieces[0].text[0].Wide?))
  }

  lemma EraseCursorWide(attributes: Attributes, node: Node, offset: nat, count: nat)
    requires NodeOk(node) && count > 0 && |node.text| == 1 && node.text[0].Wide?
    ensures CursorNodeLeft(node, offset, EraseNode(attributes, node, true, offset, count))
  {
    hide TextCells, RowCells, RemainingText, Delete;
    var e := EraseNode(attributes, node, true, offset, count);
    var space := attributes.CreateContainer([SPACE]);
    WideNodeWidth(node);
    EmptyCells(node);
    SpaceNodeIsOk(attributes);
    RowCellsNothing();
    EraseWide(node, [], offset, count, []);
    if offset == 1 {
      assert e.pieces[..1] == [space];
      RowCellsOne(space);
      SpaceCells(attributes.ContainerStyle());
    } else {
      assert e.pieces[..0] == [];
    }
  }

  lemma EraseCursorNarrow(attributes: Attributes, node: Node, offset: nat, count: nat)
    requires NodeOk(node) && count > 0 && AllNarrow(node.text)
    ensures CursorNodeLeft(node, offset, EraseNode(attributes, node, true, offset, count))
  {
    hide TextCells, RowCells, RemainingText, Delete, NodeWidth;
    var e := EraseNode(attributes, node, true, offset, count);
    var left := node.(text := RemainingText(node, offset, count));
    RemainingNarrow(node, offset, count);
    NarrowNode(node, 0, 0);
    NarrowNode(left, 0, 0);
    RowCellsNothing();
    assert e.pieces[..0] == [];
    assert !(node.wc && offset < |node.text| && |left.text| == |node.text|);
  }

  lemma EraseCursorNode(attributes: Attributes, node: Node, offset: nat, count: nat)
    requires NodeOk(node) && count > 0
    ensures CursorNodeLeft(node, offset, EraseNode(attributes, node, true, offset, count))
  {
    hide CursorNodeLeft, EraseNode;
    if |node.text| == 1 && node.text[0].Wide? {
      EraseCursorWide(attributes, node, offset, count);
    } else {
      EraseCursorNarrow(attributes, node, offset, count);
    }
  }

  /** The cells that will be left when the deletion has gone through the nodes from `k` on. */
  function Outlook(nodes: seq<Node>, k: nat, offset: nat, count: nat, mark: Line): Line
    requires k <= |nodes|
  {
    RowCells(nodes[..k]) + Delete(RowCells(nodes[k..]), offset, count, mark)
  }

  lemma OutlookIs(nodes: seq<Node>, k: nat, offset: nat, count: nat, mark: Line)
    requires k <= |nodes|
    ensures Outlook(nodes, k, offset, count, mark)
      == RowCells(nodes[..k]) + Delete(RowCells(nodes[k..]), offset, count, mark)
  {
  }

  function AfterTurn(nodes: seq<Node>, k: nat, e: Erasure): seq<Node>
    requires k < |nodes|
  {
    nodes[..k] + e.pieces + nodes[k + 1..]
  }

  /** A turn of the loop changes the nodes but not the outlook. */
  lemma TurnKeepsOutlook(attributes: Attributes, nodes: seq<Node>, k: nat, isCursorNode: bool, offset: nat, count: nat)
    requires k < |nodes| && NodeShape(nodes[k]) && count > 0 && (!isCursorNode ==> offset == 0)
    requires offset > NodeWidth(nodes[k]) ==> k == |nodes| - 1
    ensures var mark := TextCells([SPACE], attributes.ContainerStyle());
            var e := EraseNode(attributes, nodes[k], isCursorNode, offset, count);
            0 <= e.count <= count && e.pending <= |e.pieces| && (e.pending < |e.pieces| ==> e.count == 0) &&
            Outlook(AfterTurn(nodes, k, e), k + e.pending, 0, e.count, mark) == Outlook(nodes, k, offset, count, mark)
  {
    hide RowCells, TextCells, Delete, EraseNode, NodeShape, NodeWidth;
    var mark := TextCells([SPACE], attributes.ContainerStyle());
    var e := EraseNode(attributes, nodes[k], isCursorNode, offset, count);
    var pre, rest := nodes[..k], nodes[k + 1..];
    RowCellsNothing();
    RowCellsWhole(rest);
    EraseNodeCells(attributes, nodes[k], isCursorNode, RowCells(rest), offset, count);
    assert nodes[k..] == [nodes[k]] + rest;
    RowCellsAppend([nodes[k]], rest);
    RowCellsOne(nodes[k]);
    OutlookSplit(pre, e.pieces, rest, e.pending, e.count, mark);
  }

  lemma OutlookNothing(nodes: seq<Node>, k: nat, mark: Line)
    requires k <= |nodes|
    ensures Outlook(nodes, k, 0, 0, mark) == RowCells(nodes)
  {
    hide RowCells, Delete;
    DeleteNothing(RowCells(nodes[k..]), 0, 0, mark);
    RowCellsSplit(nodes, k);
  }

  lemma OutlookSplit(pre: seq<Node>, pieces: seq<Node>, rest: seq<Node>, pending: nat, count: nat, mark: Line)
    requires pending <= |pieces| && (pending < |pieces| ==> count == 0)
    ensures Outlook(pre + pieces + rest, |pre| + pending, 0, count, mark)
         == RowCells(pre) + (RowCells(pieces) + Delete(RowCells(rest), 0, count, mark))
  {
    hide RowCells, Delete;
    var all := pre + pieces + rest;
    var k := |pre| + pending;
    RowCellsAppend(pre, pieces);
    if pending == |pieces| {
      assert all[..k] == pre + pieces && all[k..] == rest;
      Associative(RowCells(pre), RowCells(pieces), Delete(RowCells(rest), 0, count, mark));
    } else {
      OutlookNothing(all, k, mark);
      RowCellsAppend(pre + pieces, rest);
      DeleteNothing(RowCells(rest), 0, 0, mark);
      Associative(RowCells(pre), RowCells(pieces), RowCells(rest));
    }
  }

  lemma EraseEmptySpan(attributes: Attributes, node: Node, offset: nat, count: nat)
    requires EmptySpan(node)
    ensures EraseNode(attributes, node, true, offset, count) == Erasure([node], 0, 1, count)
  {
    NarrowNode(node, 0, offset);
    RemainingNarrow(node, offset, count);
  }

  /** A node other than the cursor node leaves nodes in good order, or goes away. */
  lemma EraseOtherNode(attributes: Attributes, node: Node, count: nat)
    requires NodeOk(node) && count > 0
    ensures var e := EraseNode(attributes, node, false, 0, count);
            (forall i :: 0 <= i < |e.pieces| ==> NodeOk(e.pieces[i])) &&
            (e.count < count || |e.pieces| == e.pending)
  {
    hide TextCells, RowCells, Delete, RemainingText;
    var left := node.(text := RemainingText(node, 0, count));
    SpaceNodeIsOk(attributes);
    WideNodeWidth(node);
    if |node.text| == 1 && node.text[0].Wide? {
      EraseWide(node, [], 0, count, []);
    } else {
      EraseNarrow(node, [], 0, count, []);
      NarrowNode(node, 0, 0);
      NarrowNode(left, 0, 0);
    }
  }

  lemma ErasedNoWide(attributes: Attributes, node: Node, isCursorNode: bool, offset: nat, count: nat)
    ensures !node.wc && !attributes.wcNode ==> NoWide(EraseNode(attributes, node, isCursorNode, offset, count).pieces)
  {
  }
}
