/**
 Positions in a line: the conversions of `hterm.Screen` between a column of a line, which may run over
 several rows, and a text node with an offset.  A node is named by its path of child indices.
 */
module Positions {
  import opened Common
  import opened TextAttributes
  import opened Screens

  /** A node of a row: text, or a span around other nodes. */
  datatype Dom = TextLeaf(text: Text) | Span(ascii: bool, children: seq<Dom>)

  datatype RowDom = RowDom(children: seq<Dom>, lineOverflow: bool)

  datatype Place = Place(path: seq<nat>, offset: nat)

  datatype LinePlace = LinePlace(row: nat, place: Place)

  function TextContent(nodes: seq<Dom>): Text {
    if nodes == [] then [] else NodeText(nodes[0]) + TextContent(nodes[1..])
  }

  function NodeText(node: Dom): Text {
    match node
    case TextLeaf(text) => text
    case Span(_, children) => TextContent(children)
  }

  /** Only text of narrow glyphs is marked ASCII. */
  predicate DomOk(nodes: seq<Dom>) {
    forall i :: 0 <= i < |nodes| ==>
      nodes[i].Span? ==> DomOk(nodes[i].children) && (nodes[i].ascii ==> AllNarrow(NodeText(nodes[i])))
  }

  /** `nodeWidth`. */
  function Width(node: Dom): nat {
    if node.Span? && node.ascii then |NodeText(node)| else StrWidth(NodeText(node))
  }

  function RowWidth(nodes: seq<Dom>): nat {
    StrWidth(TextContent(nodes))
  }

  /** The columns in front of child `i`. */
  function WidthBefore(nodes: seq<Dom>, i: nat): nat
    requires i <= |nodes|
  {
    if i == 0 then 0 else WidthBefore(nodes, i - 1) + Width(nodes[i - 1])
  }

  lemma WidthOfNode(node: Dom)
    requires DomOk([node])
    ensures Width(node) == StrWidth(NodeText(node))
  {
    assert [node][0] == node;
    if node.Span? && node.ascii {
      NarrowWidth(NodeText(node));
    }
  }

  /** The width of a list of nodes is the sum of their widths. */
  lemma {:induction false} WidthAdds(nodes: seq<Dom>)
    requires DomOk(nodes)
    ensures WidthBefore(nodes, |nodes|) == RowWidth(nodes)
    decreases |nodes|
  {
    if nodes != [] {
      var init, last := nodes[..|nodes| - 1], nodes[|nodes| - 1];
      WidthAdds(init);
      assert DomOk([last]);
      WidthOfNode(last);
      TextContentSplit(init, last);
      assert init + [last] == nodes;
      WidthBeforeSame(nodes, init, |init|);
    }
  }

  lemma {:induction false} TextContentSplit(init: seq<Dom>, last: Dom)
    ensures TextContent(init + [last]) == TextContent(init) + NodeText(last)
    ensures RowWidth(init + [last]) == RowWidth(init) + StrWidth(NodeText(last))
    decreases |init|
  {
    if init == [] {
      assert TextContent([last][1..]) == [];
    } else {
      TextContentSplit(init[1..], last);
      assert (init + [last])[1..] == init[1..] + [last];
    }
    StrWidthAppend(TextContent(init), NodeText(last));
  }

  lemma {:induction false} WidthBeforeSame(a: seq<Dom>, b: seq<Dom>, i: nat)
    requires i <= |a| && i <= |b| && a[..i] == b[..i]
    ensures WidthBefore(a, i) == WidthBefore(b, i)
  {
    if i > 0 {
      assert a[i - 1] == a[..i][i - 1] == b[i - 1];
      assert a[..i - 1] == a[..i][..i - 1] == b[..i - 1];
      WidthBeforeSame(a, b, i - 1);
    }
  }

  // ---------------------------------------------------------------- paths

  /** The path leads to a text node. */
  predicate Leads(nodes: seq<Dom>, path: seq<nat>)
    decreases |path|
  {
    path != [] && path[0] < |nodes| &&
    if |path| == 1 then nodes[path[0]].TextLeaf? else nodes[path[0]].Span? && Leads(nodes[path[0]].children, path[1..])
  }

  function TextAt(nodes: seq<Dom>, path: seq<nat>): Text
    requires Leads(nodes, path)
    decreases |path|
  {
    if |path| == 1 then nodes[path[0]].text else TextAt(nodes[path[0]].children, path[1..])
  }

  /** The children of the node that a path leads to. */
  predicate Inside(nodes: seq<Dom>, path: seq<nat>)
    decreases |path|
  {
    path == [] || (path[0] < |nodes| && nodes[path[0]].Span? && Inside(nodes[path[0]].children, path[1..]))
  }

  function ChildrenAt(nodes: seq<Dom>, path: seq<nat>): seq<Dom>
    requires Inside(nodes, path)
    decreases |path|
  {
    if path == [] then nodes else ChildrenAt(nodes[path[0]].children, path[1..])
  }

  // ---------------------------------------------------------------- from a column to a node

  /** The first child that reaches up to the column. */
  function Reach(nodes: seq<Dom>, i: nat, position: int): (k: nat)
    requires i <= |nodes|
    ensures i <= k <= |nodes|
    decreases |nodes| - i
  {
    if i == |nodes| || position <= Width(nodes[i]) then i else Reach(nodes, i + 1, position - Width(nodes[i]))
  }

  /** Where a column of a row is: the text node and the offset in it. */
  function Locate(nodes: seq<Dom>, position: nat): Option<Place>
    decreases nodes
  {
    var k := Reach(nodes, 0, position);
    if k == |nodes| then None
    else
      ReachMeans(nodes, 0, k, position);
      var rest := position - WidthBefore(nodes, k);
      match nodes[k]
      case TextLeaf(_) => Some(Place([k], rest))
      case Span(_, children) =>
        match Locate(children, rest)
        case None => None
        case Some(place) => Some(Place([k] + place.path, place.offset))
  }

  lemma {:induction false} ReachMeans(nodes: seq<Dom>, i: nat, k: nat, position: int)
    requires i <= |nodes| && k == Reach(nodes, i, position - WidthBefore(nodes, i))
    requires position >= 0 && (i > 0 ==> position > WidthBefore(nodes, i))
    ensures i <= k <= |nodes|
    ensures WidthBefore(nodes, k) <= position && (k > 0 ==> i <= k && (k > i ==> WidthBefore(nodes, k) < position))
    ensures k < |nodes| ==> position <= WidthBefore(nodes, k) + Width(nodes[k])
    ensures k == |nodes| && k > i ==> position > WidthBefore(nodes, k)
    decreases |nodes| - i
  {
    if i < |nodes| && position - WidthBefore(nodes, i) > Width(nodes[i]) {
      assert WidthBefore(nodes, i + 1) == WidthBefore(nodes, i) + Width(nodes[i]);
      ReachMeans(nodes, i + 1, k, position);
    }
  }

  /** `getNodeAndOffsetWithinRow_`. */
  method GetNodeAndOffsetWithinRow(nodes: seq<Dom>, position: nat) returns (place: Option<Place>)
    ensures place == Locate(nodes, position)
    decreases nodes
  {
    var rest: int := position;
    var i := 0;
    while i < |nodes|
      invariant 0 <= i <= |nodes| && rest == position - WidthBefore(nodes, i) && rest >= 0
      invariant Reach(nodes, 0, position) == Reach(nodes, i, rest)
    {
      var node := nodes[i];
      var nodeTextWidth := Width(node);
      if rest <= nodeTextWidth {
        if node.Span? {
          // Drill down to the node inside the span.
          place := GetNodeAndOffsetWithinRow(node.children, rest);
          if place.Some? {
            place := Some(Place([i] + place.value.path, place.value.offset));
          }
          return;
        }
        return Some(Place([i], rest));
      }
      rest := rest - nodeTextWidth;
      i := i + 1;
    }
    place := None;
  }

  // ---------------------------------------------------------------- from a node to a column

  /** The column of an offset in the node at the end of a path. */
  function Column(nodes: seq<Dom>, path: seq<nat>, offset: nat): nat
    requires path != [] && Inside(nodes, path[..|path| - 1]) &&
      path[|path| - 1] < |ChildrenAt(nodes, path[..|path| - 1])|
    decreases |path|
  {
    var parent, i := path[..|path| - 1], path[|path| - 1];
    WidthBefore(ChildrenAt(nodes, parent), i) + offset +
    if parent == [] then 0
    else
      ParentInside(nodes, parent);
      Column(nodes, parent, 0)
  }

  lemma {:induction false} ParentInside(nodes: seq<Dom>, path: seq<nat>)
    requires path != [] && Inside(nodes, path)
    ensures var parent := path[..|path| - 1];
            Inside(nodes, parent) && path[|path| - 1] < |ChildrenAt(nodes, parent)|
    decreases |path|
  {
    if |path| > 1 {
      ParentInside(nodes[path[0]].children, path[1..]);
      assert path[1..][..|path| - 2] == path[..|path| - 1][1..];
    }
  }

  /** The same from the other end of the path. */
  lemma {:induction false} ColumnFromTop(nodes: seq<Dom>, path: seq<nat>, offset: nat)
    requires |path| > 1 && Inside(nodes, path[..|path| - 1]) &&
      path[|path| - 1] < |ChildrenAt(nodes, path[..|path| - 1])|
    ensures nodes[path[0]].Span? && Inside(nodes[path[0]].children, path[1..][..|path| - 2])
    ensures path[|path| - 1] < |ChildrenAt(nodes[path[0]].children, path[1..][..|path| - 2])|
    ensures Column(nodes, path, offset)
      == WidthBefore(nodes, path[0]) + Column(nodes[path[0]].children, path[1..], offset)
    decreases |path|
  {
    var parent := path[..|path| - 1];
    assert path[1..][..|path| - 2] == parent[1..];
    if |path| == 2 {
      assert parent == [path[0]] && parent[..0] == [];
    } else {
      ParentInside(nodes, parent);
      ColumnFromTop(nodes, parent, 0);
    }
  }

  /** `getPositionWithinRow_`. */
  method GetPositionWithinRow(nodes: seq<Dom>, path: seq<nat>, offset: nat) returns (position: nat)
    requires path != [] && Inside(nodes, path[..|path| - 1]) &&
      path[|path| - 1] < |ChildrenAt(nodes, path[..|path| - 1])|
    ensures position == Column(nodes, path, offset)
    decreases |path|
  {
    if |path| > 1 {
      var parent, last := path[..|path| - 1], [path[|path| - 1]];
      ParentInside(nodes, parent);
      assert last[..0] == [];
      var inner := GetPositionWithinRow(ChildrenAt(nodes, parent), last, offset);
      var outer := GetPositionWithinRow(nodes, parent, 0);
      return inner + outer;
    }
    assert path[..0] == [];
    position := 0;
    var i := 0;
    while i != path[0]
      invariant 0 <= i <= path[0] && position == WidthBefore(nodes, i)
    {
      position := position + Width(nodes[i]);
      i := i + 1;
    }
    position := position + offset;
  }

  // ---------------------------------------------------------------- round trips within a row

  /** The first node, or the first node inside the first span, and so on, is text. */
  predicate StartsWithText(nodes: seq<Dom>) {
    nodes != [] && (nodes[0].Span? ==> StartsWithText(nodes[0].children))
  }

  lemma {:induction false} LeadsInside(nodes: seq<Dom>, path: seq<nat>)
    requires Leads(nodes, path)
    ensures Inside(nodes, path[..|path| - 1]) && path[|path| - 1] < |ChildrenAt(nodes, path[..|path| - 1])|
    decreases |path|
  {
    if |path| > 1 {
      LeadsInside(nodes[path[0]].children, path[1..]);
      assert path[1..][..|path| - 2] == path[..|path| - 1][1..];
    } else {
      assert path[..0] == [];
    }
  }

  /** The place is a text node with an offset within it, and stands for the column. */
  ghost predicate StandsFor(nodes: seq<Dom>, place: Place, position: nat) {
    Leads(nodes, place.path) && place.offset <= StrWidth(TextAt(nodes, place.path)) &&
    Inside(nodes, place.path[..|place.path| - 1]) &&
    place.path[|place.path| - 1] < |ChildrenAt(nodes, place.path[..|place.path| - 1])| &&
    Column(nodes, place.path, place.offset) == position
  }

  lemma StandsInSpan(nodes: seq<Dom>, k: nat, place: Place, rest: nat)
    requires k < |nodes| && nodes[k].Span? && StandsFor(nodes[k].children, place, rest)
    ensures StandsFor(nodes, Place([k] + place.path, place.offset), WidthBefore(nodes, k) + rest)
  {
    var path := [k] + place.path;
    assert path[1..] == place.path;
    LeadsInside(nodes, path);
    ColumnFromTop(nodes, path, place.offset);
    assert path[1..][..|path| - 2] == place.path[..|place.path| - 1];
  }

  lemma StandsInRow(nodes: seq<Dom>, k: nat, offset: nat)
    requires k < |nodes| && nodes[k].TextLeaf? && offset <= StrWidth(nodes[k].text)
    ensures StandsFor(nodes, Place([k], offset), WidthBefore(nodes, k) + offset)
  {
    assert [k][..0] == [];
  }

  /**
   From a column to a node and back.  Every column of the row is found and leads back to itself, except
   column 0 of a row that starts with a span without text in it.
   */
  lemma {:induction false} ColumnRoundTrip(nodes: seq<Dom>, position: nat)
    requires DomOk(nodes) && position <= RowWidth(nodes)
    ensures Locate(nodes, position).Some? <==> position > 0 || StartsWithText(nodes)
    ensures Locate(nodes, position).Some? ==> StandsFor(nodes, Locate(nodes, position).value, position)
    decreases nodes
  {
      hide Column, Leads, StandsFor, Inside, ChildrenAt, TextContent;
    WidthAdds(nodes);
    var k := Reach(nodes, 0, position);
    ReachMeans(nodes, 0, k, position);
    if k < |nodes| {
      var rest := position - WidthBefore(nodes, k);
      if nodes[k].Span? {
        var children := nodes[k].children;
        assert DomOk([nodes[k]]);
        WidthOfNode(nodes[k]);
        ColumnRoundTrip(children, rest);
        if Locate(children, rest).Some? {
          StandsInSpan(nodes, k, Locate(children, rest).value, rest);
        }
      } else {
        StandsInRow(nodes, k, rest);
      }
    }
  }

  lemma {:induction false} ReachIs(nodes: seq<Dom>, i: nat, k: nat, position: int)
    requires i <= k < |nodes| && WidthBefore(nodes, k) < position <= WidthBefore(nodes, k + 1)
    ensures Reach(nodes, i, position - WidthBefore(nodes, i)) == k
    decreases k - i
  {
    if i < k {
      WidthGrows(nodes, i + 1, k);
      ReachIs(nodes, i + 1, k, position);
    }
  }

  lemma {:induction false} WidthGrows(nodes: seq<Dom>, i: nat, k: nat)
    requires i <= k <= |nodes|
    ensures WidthBefore(nodes, i) <= WidthBefore(nodes, k)
    decreases k
  {
    if i < k {
      WidthGrows(nodes, i, k - 1);
    }
  }

  /** A column that ends in child `k`. */
  lemma ReachesChild(nodes: seq<Dom>, k: nat, rest: nat)
    requires DomOk(nodes) && k < |nodes| && 0 < rest <= StrWidth(NodeText(nodes[k]))
    ensures Reach(nodes, 0, WidthBefore(nodes, k) + rest) == k && WidthBefore(nodes, k) + rest <= RowWidth(nodes)
  {
    hide Reach, RowWidth;
    assert DomOk([nodes[k]]);
    WidthOfNode(nodes[k]);
    WidthAdds(nodes);
    WidthGrows(nodes, k + 1, |nodes|);
    ReachIs(nodes, 0, k, WidthBefore(nodes, k) + rest);
  }

  lemma LocatesInSpan(nodes: seq<Dom>, k: nat, place: Place, rest: nat)
    requires DomOk(nodes) && k < |nodes| && nodes[k].Span? && 0 < rest <= RowWidth(nodes[k].children)
    requires Locate(nodes[k].children, rest) == Some(place)
    ensures Locate(nodes, WidthBefore(nodes, k) + rest) == Some(Place([k] + place.path, place.offset))
  {
    hide Reach;
    ReachesChild(nodes, k, rest);
  }

  /**
   From a node to a column and back: the same node and offset, unless the offset is 0 (a column between
   two nodes belongs to the end of the first).
   */
  lemma {:induction false} PlaceRoundTrip(nodes: seq<Dom>, path: seq<nat>, offset: nat)
    requires DomOk(nodes) && Leads(nodes, path) && 0 < offset <= StrWidth(TextAt(nodes, path))
    ensures Inside(nodes, path[..|path| - 1]) && path[|path| - 1] < |ChildrenAt(nodes, path[..|path| - 1])|
    ensures 0 < Column(nodes, path, offset) <= RowWidth(nodes)
    ensures Locate(nodes, Column(nodes, path, offset)) == Some(Place(path, offset))
    decreases |path|
  {
    hide Reach, RowWidth;
    LeadsInside(nodes, path);
    var k := path[0];
    if |path| == 1 {
      assert path == [k] && path[..0] == [];
      ReachesChild(nodes, k, offset);
    } else {
      hide Locate, Column;
      var place := Place(path[1..], offset);
      PlaceRoundTrip(nodes[k].children, path[1..], offset);
      ColumnFromTop(nodes, path, offset);
      SpanWidth(nodes[k]);
      ReachesChild(nodes, k, Column(nodes[k].children, path[1..], offset));
      LocatesInSpan(nodes, k, place, Column(nodes[k].children, path[1..], offset));
      assert [k] + path[1..] == path;
    }
  }

  lemma SpanWidth(node: Dom)
    requires node.Span?
    ensures RowWidth(node.children) == StrWidth(NodeText(node))
  {
  }

  // ---------------------------------------------------------------- lines over several rows

  /** The columns of the line that starts with the first row. */
  function LineWidth(rows: seq<RowDom>): nat
    requires rows != []
  {
    RowWidth(rows[0].children) + if rows[0].lineOverflow && |rows| > 1 then LineWidth(rows[1..]) else 0
  }

  function LocateInLine(rows: seq<RowDom>, position: nat): Option<LinePlace>
    requires rows != []
  {
    var width := RowWidth(rows[0].children);
    if position > width then
      if rows[0].lineOverflow && |rows| > 1 then
        match LocateInLine(rows[1..], position - width)
        case None => None
        case Some(p) => Some(LinePlace(p.row + 1, p.place))
      else None
    else
      match Locate(rows[0].children, position)
      case None => None
      case Some(place) => Some(LinePlace(0, place))
  }

  /** The row belongs to the line that starts with the first row. */
  predicate InLine(rows: seq<RowDom>, row: nat) {
    row < |rows| && forall i :: 0 <= i < row ==> rows[i].lineOverflow
  }

  function RowsBefore(rows: seq<RowDom>, row: nat): nat
    requires row <= |rows|
  {
    if row == 0 then 0 else RowWidth(rows[0].children) + RowsBefore(rows[1..], row - 1)
  }

  /** `getNodeAndOffsetWithOverflow_`. */
  method GetNodeAndOffsetWithOverflow(rows: seq<RowDom>, position: nat) returns (place: Option<LinePlace>)
    requires rows != []
    ensures place == LocateInLine(rows, position)
  {
    var row := 0;
    var rest: nat := position;
    while rest > RowWidth(rows[row].children)
      invariant 0 <= row < |rows|
      invariant LocateInLine(rows, position)
             == match LocateInLine(rows[row..], rest)
                case None => None
                case Some(p) => Some(LinePlace(p.row + row, p.place))
      decreases |rows| - row
    {
      assert rows[row..][1..] == rows[row + 1..];
      if rows[row].lineOverflow && row + 1 < |rows| {
        rest := rest - RowWidth(rows[row].children);
        row := row + 1;
      } else {
        return None;
      }
    }
    var found := GetNodeAndOffsetWithinRow(rows[row].children, rest);
    place := if found.Some? then Some(LinePlace(row, found.value)) else None;
  }

  /** `getPositionWithOverflow_`, for a node of the row `target`; -1 stands for a row that is not in the line. */
  method GetPositionWithOverflow(rows: seq<RowDom>, target: nat, path: seq<nat>, offset: nat) returns (position: int)
    requires rows != [] && target < |rows|
    requires var nodes := rows[target].children;
             path != [] && Inside(nodes, path[..|path| - 1]) &&
             path[|path| - 1] < |ChildrenAt(nodes, path[..|path| - 1])|
    ensures position
      == if InLine(rows, target) then RowsBefore(rows, target) + Column(rows[target].children, path, offset) else -1
  {
    position := 0;
    var row := 0;
    while row != target
      invariant 0 <= row <= target && InLine(rows, row) && position == RowsBefore(rows, row)
    {
      RowsBeforeNext(rows, row);
      position := position + RowWidth(rows[row].children);
      if rows[row].lineOverflow && row + 1 < |rows| {
        row := row + 1;
      } else {
        return -1;
      }
    }
    var within := GetPositionWithinRow(rows[row].children, path, offset);
    position := position + within;
  }

  lemma {:induction false} RowsBeforeNext(rows: seq<RowDom>, row: nat)
    requires row < |rows|
    ensures RowsBefore(rows, row + 1) == RowsBefore(rows, row) + RowWidth(rows[row].children)
    decreases row
  {
    if row > 0 {
      RowsBeforeNext(rows[1..], row - 1);
    }
  }

  /** The round trip of a position, across the rows of a line. */
  lemma {:induction false} PositionRoundTrip(rows: seq<RowDom>, position: nat)
    requires rows != [] && (forall i :: 0 <= i < |rows| ==> DomOk(rows[i].children)) && position <= LineWidth(rows)
    ensures LocateInLine(rows, position).Some? <==> position > 0 || StartsWithText(rows[0].children)
    ensures LocateInLine(rows, position).Some? ==>
      var p := LocateInLine(rows, position).value;
      InLine(rows, p.row) && RowsBefore(rows, p.row) <= position &&
      StandsFor(rows[p.row].children, p.place, position - RowsBefore(rows, p.row))
    decreases |rows|
  {
    hide StandsFor, RowWidth, StartsWithText;
    var width := RowWidth(rows[0].children);
    if position > width {
      PositionRoundTrip(rows[1..], position - width);
    } else {
      ColumnRoundTrip(rows[0].children, position);
    }
  }
}
