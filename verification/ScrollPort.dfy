/**
 `hterm.ScrollPort`: a redraw rewrites the list of children, so that it shows the target window between
 two folds, around the rows where the selection starts and ends.
 */
module ScrollPorts {
  import opened Common
  import opened Siblings

  /** A child of the row container.  A row element knows its position in the terminal. */
  datatype Child = TopFold | BottomFold | RowNode(id: nat, rowIndex: int)

  class ScrollPort {
    var rowNodes: seq<Child>
    var startRow: Option<Child>
    var endRow: Option<Child>
    var isMultiline: bool
    var visibleRowCount: nat
    /** The rows of the row provider. */
    var rows: seq<Child>
    var previousRowNodeCache: map<int, Child>
    var currentRowNodeCache: map<int, Child>
    /** The children that were removed, moved or inserted since the redraw started. */
    ghost var touched: set<Child>

    /** Nothing drawn yet, and nothing selected. */
    constructor (rows: seq<Child>, visibleRowCount: nat)
      ensures this.rows == rows && this.visibleRowCount == visibleRowCount && rowNodes == [TopFold, BottomFold]
      ensures startRow == None && endRow == None && !isMultiline && Attached()
      ensures RowsKnown() <==> forall i :: 0 <= i < |rows| ==> rows[i].RowNode? && rows[i].rowIndex == i
    {
      this.rows, this.visibleRowCount := rows, visibleRowCount;
      rowNodes, startRow, endRow, isMultiline := [TopFold, BottomFold], None, None, false;
      previousRowNodeCache, currentRowNodeCache, touched := map[], map[], {};
    }

    // ---------------------------------------------------------------- the DOM

    function NextSibling(node: Child): Option<Child>
      reads this`rowNodes
    {
      Next(rowNodes, node)
    }

    /** Put `newNode` between `a` and `b`, which are the other children; it may be attached elsewhere. */
    method InsertBefore(newNode: Child, ref: Option<Child>, ghost a: seq<Child>, ghost b: seq<Child>)
      requires Distinct(rowNodes) && Without(rowNodes, newNode) == a + b
      requires ref == if b == [] then None else Some(b[0])
      modifies this`rowNodes, this`touched
      ensures rowNodes == a + [newNode] + b && Distinct(rowNodes) && touched == old(touched) + {newNode}
    {
      InsertedAt(rowNodes, newNode, a, b);
      rowNodes := Inserted(rowNodes, newNode, ref);
      touched := touched + {newNode};
    }

    method RemoveChild(node: Child, ghost a: seq<Child>, ghost b: seq<Child>)
      requires Distinct(rowNodes) && rowNodes == a + [node] + b
      modifies this`rowNodes, this`touched
      ensures rowNodes == a + b && Distinct(rowNodes) && touched == old(touched) + {node}
    {
      DistinctAround(a, node, b);
      PositionAt(a, node, b);
      rowNodes := Without(rowNodes, node);
      touched := touched + {node};
    }

    // ---------------------------------------------------------------- the selection

    /** The rows where the selection starts and ends, in order. */
    ghost function Selected(): seq<Child>
      reads this`startRow, this`endRow, this`isMultiline
    {
      if startRow.None? || endRow.None? then []
      else if startRow == endRow then [startRow.value]
      else [startRow.value, endRow.value]
    }

    /** These rows are children, in this order. */
    static ghost predicate Holds(children: seq<Child>, selected: seq<Child>) {
      (|selected| == 1 ==> selected[0] in children) &&
      (|selected| == 2 ==> InOrder(children, selected[0], selected[1]))
    }

    /** No other child claims the position of a selected row. */
    static ghost predicate Unshared(children: seq<Child>, selected: seq<Child>) {
      forall c, s :: c in children && s in selected && c.RowNode? && s.RowNode? && c.rowIndex == s.rowIndex ==> c == s
    }

    /** The selection as `sync` leaves it. */
    ghost predicate SelectionOk()
      reads this`startRow, this`endRow, this`isMultiline
    {
      (startRow.Some? <==> endRow.Some?) &&
      (startRow.Some? ==>
         startRow.value.RowNode? && endRow.value.RowNode? && startRow.value.rowIndex <= endRow.value.rowIndex &&
         (startRow.value.rowIndex == endRow.value.rowIndex ==> startRow == endRow) &&
         isMultiline == (startRow.value.rowIndex != endRow.value.rowIndex))
    }

    /** How many of the selected rows are above a window that starts at `top`. */
    ghost function AboveCount(top: int): (n: nat)
      requires SelectionOk()
      reads this`startRow, this`endRow, this`isMultiline
      ensures n <= |Selected()|
    {
      if startRow.None? || startRow.value.rowIndex >= top then 0
      else if startRow == endRow || endRow.value.rowIndex >= top then 1
      else 2
    }

    /** How many are not below a window that ends at `bottom`. */
    ghost function NotBelowCount(bottom: int): (n: nat)
      requires SelectionOk()
      reads this`startRow, this`endRow, this`isMultiline
      ensures n <= |Selected()|
    {
      AboveCount(bottom + 1)
    }

    ghost function Above(top: int): seq<Child>
      requires SelectionOk()
      reads this`startRow, this`endRow, this`isMultiline
    {
      Selected()[..AboveCount(top)]
    }

    ghost function Below(bottom: int): seq<Child>
      requires SelectionOk()
      reads this`startRow, this`endRow, this`isMultiline
    {
      Selected()[NotBelowCount(bottom)..]
    }

    ghost function Visible(top: int, bottom: int): seq<Child>
      requires SelectionOk() && top <= bottom + 1
      reads this`startRow, this`endRow, this`isMultiline
    {
      Selected()[AboveCount(top)..NotBelowCount(bottom)]
    }

    /** A selected row is above the window if and only if it comes before the first that is not. */
    lemma AboveMeans(top: int)
      requires SelectionOk()
      ensures forall s :: s in Above(top) <==> s in Selected() && s.rowIndex < top
      ensures forall s :: s in Selected()[AboveCount(top)..] <==> s in Selected() && s.rowIndex >= top
    {
    }

    /** What the names say. */
    lemma SelectedParts(top: int, bottom: int)
      requires SelectionOk() && top <= bottom + 1
      ensures AboveCount(top) <= NotBelowCount(bottom)
      ensures Selected() == Above(top) + Visible(top, bottom) + Below(bottom)
      ensures forall s :: s in Above(top) <==> s in Selected() && s.rowIndex < top
      ensures forall s :: s in Visible(top, bottom) <==> s in Selected() && top <= s.rowIndex <= bottom
      ensures forall s :: s in Below(bottom) <==> s in Selected() && s.rowIndex > bottom
    {
      AboveMeans(top);
      AboveMeans(bottom + 1);
    }

    /** The children, and the selection among them, before a redraw. */
    ghost predicate Attached()
      reads this`startRow, this`endRow, this`isMultiline, this`rowNodes
    {
      SelectionOk() && Distinct(rowNodes) && TopFold in rowNodes && BottomFold in rowNodes &&
      Holds(rowNodes, Selected()) && Unshared(rowNodes, Selected())
    }

    /** No selected row has been touched. */
    ghost predicate Undisturbed()
      reads this`startRow, this`endRow, this`isMultiline, this`touched
      requires SelectionOk()
    {
      forall s :: s in Selected() ==> s !in touched
    }

    // ---------------------------------------------------------------- folds

    /** Remove the children in front of `target`. */
    method TrimFront(target: Child, ghost a: seq<Child>, ghost b: seq<Child>)
      requires Distinct(rowNodes) && rowNodes == a + [target] + b
      modifies this`rowNodes, this`touched
      ensures rowNodes == [target] + b && Distinct(rowNodes)
      ensures forall c :: c in touched <==> c in old(touched) || c in a
    {
      ghost var i := 0;
      DistinctAround(a, target, b);
      while rowNodes[0] != target
        invariant 0 <= i <= |a| && (i < |a| ==> a[i] != target) && rowNodes == a[i..] + [target] + b &&
          Distinct(rowNodes)
        invariant forall c :: c in touched <==> c in old(touched) || c in a[..i]
        decreases |a| - i
      {
        assert i < |a|;
        assert rowNodes == [] + [rowNodes[0]] + (a[i + 1..] + [target] + b);
        assert a[..i + 1] == a[..i] + [a[i]];
        RemoveChild(rowNodes[0], [], a[i + 1..] + [target] + b);
        assert rowNodes == a[i + 1..] + [target] + b;
        i := i + 1;
      }
    }

    /** Remove the children between `start` and `end`. */
    method TrimBetween(start: Child, end: Child, ghost a: seq<Child>, ghost m: seq<Child>, ghost b: seq<Child>)
      requires Distinct(rowNodes) && rowNodes == a + [start] + m + [end] + b
      modifies this`rowNodes, this`touched
      ensures rowNodes == a + [start] + [end] + b && Distinct(rowNodes)
      ensures forall c :: c in touched <==> c in old(touched) || c in m
    {
      ghost var i := 0;
      FirstAfter(rowNodes, a, start, m, end, b);
      while NextSibling(start) != Some(end)
        invariant 0 <= i <= |m| && rowNodes == a + [start] + m[i..] + [end] + b && Distinct(rowNodes)
        invariant NextSibling(start) == Some((m[i..] + [end])[0]) && (i < |m| ==> m[i] != end)
        invariant forall c :: c in touched <==> c in old(touched) || c in m[..i]
        decreases |m| - i
      {
        var node := NextSibling(start).value;
        ghost var rest := m[i + 1..] + [end] + b;
        assert rowNodes == (a + [start]) + [node] + rest;
        assert m[..i + 1] == m[..i] + [m[i]];
        RemoveChild(node, a + [start], rest);
        assert rowNodes == a + [start] + m[i + 1..] + [end] + b;
        i := i + 1;
        FirstAfter(rowNodes, a, start, m[i..], end, b);
      }
    }

    /** Remove the children behind `target`. */
    method TrimBack(target: Child, ghost a: seq<Child>, ghost b: seq<Child>)
      requires Distinct(rowNodes) && rowNodes == a + [target] + b
      modifies this`rowNodes, this`touched
      ensures rowNodes == a + [target] && Distinct(rowNodes)
      ensures forall c :: c in touched <==> c in old(touched) || c in b
    {
      ghost var i := |b|;
      DistinctAround(a, target, b);
      while rowNodes[|rowNodes| - 1] != target
        invariant 0 <= i <= |b| && (i > 0 ==> b[i - 1] != target) && rowNodes == a + [target] + b[..i] &&
          Distinct(rowNodes)
        invariant forall c :: c in touched <==> c in old(touched) || c in b[i..]
        decreases i
      {
        assert i > 0;
        var last := rowNodes[|rowNodes| - 1];
        assert rowNodes == (a + [target] + b[..i - 1]) + [last] + [];
        assert b[i - 1..] == [b[i - 1]] + b[i..];
        RemoveChild(last, a + [target] + b[..i - 1], []);
        i := i - 1;
        assert rowNodes == a + [target] + b[..i];
      }
    }

    /** Make sure that `fold` is right behind `node`. */
    method PlaceAfter(fold: Child, node: Child, ghost a: seq<Child>, ghost b: seq<Child>)
      requires Distinct(rowNodes) && Without(rowNodes, fold) == a + [node] + b && fold != node
      modifies this`rowNodes, this`touched
      ensures rowNodes == a + [node] + [fold] + b && Distinct(rowNodes) && touched <= old(touched) + {fold}
      ensures old(NextSibling(node)) == Some(fold) ==> rowNodes == old(rowNodes) && touched == old(touched)
    {
      PlaceFacts(rowNodes, fold, node, a, b);
      if NextSibling(node) != Some(fold) {
        InsertBefore(fold, NextSibling(node), a + [node], b);
      }
    }

    /** Make sure that `fold` is right in front of `node`. */
    method PlaceBefore(fold: Child, node: Child, ghost a: seq<Child>, ghost b: seq<Child>)
      requires Distinct(rowNodes) && Without(rowNodes, fold) == a + [node] + b && fold != node
      modifies this`rowNodes, this`touched
      ensures rowNodes == a + [fold] + [node] + b && Distinct(rowNodes) && touched <= old(touched) + {fold}
      ensures old(NextSibling(fold)) == Some(node) ==> rowNodes == old(rowNodes) && touched == old(touched)
    {
      PlaceFacts(rowNodes, fold, node, a, b);
      if NextSibling(fold) != Some(node) {
        assert a + [node] + b == a + ([node] + b);
        InsertBefore(fold, Some(node), a, [node] + b);
      }
    }

    /** Above the window are exactly the selected rows that belong there, then the top fold. */
    ghost predicate TopDrawn(top: int)
      requires SelectionOk()
      reads this
    {
      var n := AboveCount(top);
      n < |rowNodes| && Distinct(rowNodes) && Unshared(rowNodes, Selected()) &&
      rowNodes == Above(top) + [TopFold] + rowNodes[n + 1..] && Holds(rowNodes[n + 1..], Selected()[n..])
    }

    lemma AttachedMeans()
      requires Attached()
      ensures SelectionOk() && Distinct(rowNodes) && TopFold in rowNodes
      ensures Holds(rowNodes, Selected()) && Unshared(rowNodes, Selected())
    {
    }

    ghost predicate StartsWith(front: seq<Child>)
      reads this`rowNodes
    {
      front <= rowNodes
    }

    lemma StartsWithFold()
      ensures StartsWith([TopFold]) ==> rowNodes != [] && rowNodes[0] == TopFold
    {
    }

    ghost predicate EndsWith(back: seq<Child>)
      reads this`rowNodes
    {
      |back| <= |rowNodes| && rowNodes[|rowNodes| - |back|..] == back
    }

    /** No selected row is above the window: the top fold is the first child. */
    method TopFoldFirst() returns (ghost rest: seq<Child>)
      requires Attached()
      modifies this`rowNodes, this`touched
      ensures rowNodes == [TopFold] + rest && Distinct(rowNodes) && Holds(rest, Selected())
      ensures (forall c :: c in rest ==> c in old(rowNodes)) && touched <= old(touched) + {TopFold}
      ensures old(StartsWith([TopFold])) ==> rowNodes == old(rowNodes) && touched == old(touched)
    {
      hide Without, Position, InOrder, Distinct, Unshared, Holds, Attached, StartsWith;
      AttachedMeans();
      StartsWithFold();
      rest := Without(rowNodes, TopFold);
      FoldOut(rowNodes, TopFold, Selected());
      FirstStays(rowNodes, TopFold);
      if rowNodes[0] != TopFold {
        InsertBefore(TopFold, Some(rowNodes[0]), [], rest);
      }
    }

    /** Only the first selected row is above the window: the top fold goes right behind it. */
    method TopFoldAfterStart() returns (ghost rest: seq<Child>)
      requires Attached() && startRow.Some?
      modifies this`rowNodes, this`touched
      ensures rowNodes == [startRow.value] + [TopFold] + rest && Distinct(rowNodes) && Holds(rest, Selected()[1..])
      ensures old(StartsWith([startRow.value] + [TopFold])) ==> rowNodes == old(rowNodes) && touched == old(touched)
      ensures (forall c :: c in rest ==> c in old(rowNodes))
      ensures forall c :: c in touched && c in Selected() ==> c in old(touched)
    {
      hide Without, Position, InOrder, Distinct, Unshared;
      var start := startRow.value;
      ghost var w := Without(rowNodes, TopFold);
      FoldOut(rowNodes, TopFold, Selected());
      ghost var a;
      a, rest := AroundFirst(w, Selected());
      FoldIsBehind(rowNodes, [], start, TopFold, a, rest);
      PlaceAfter(TopFold, start, a, rest);
      TrimFront(start, a, [TopFold] + rest);
    }

    lemma BothSelected(children: seq<Child>)
      requires SelectionOk() && startRow.Some? && startRow != endRow && Holds(children, Selected())
      ensures endRow.Some? && Selected() == [startRow.value] + [endRow.value]
      ensures InOrder(children, startRow.value, endRow.value)
    {
    }

    lemma BothInFront(start: Child, end: Child, a: seq<Child>, m: seq<Child>, b: seq<Child>)
      requires Distinct(rowNodes) && Without(rowNodes, TopFold) == a + [start] + m + [end] + b && end != TopFold
      ensures StartsWith([start] + [end] + [TopFold]) ==> NextSibling(end) == Some(TopFold) && a == [] && m == []
    {
      hide Without, Position, Distinct;
      FoldIsBehind(rowNodes, [start], end, TopFold, a + [start] + m, b);
      StartIsFirst(a, start, m);
    }

    /** Both selected rows are above the window: they come to be neighbours in front of the top fold. */
    method TopFoldAfterEnd() returns (ghost rest: seq<Child>)
      requires Attached() && startRow.Some? && startRow != endRow
      modifies this`rowNodes, this`touched
      ensures rowNodes == Selected() + [TopFold] + rest && Distinct(rowNodes)
      ensures old(StartsWith(Selected() + [TopFold])) ==> rowNodes == old(rowNodes) && touched == old(touched)
      ensures (forall c :: c in rest ==> c in old(rowNodes))
      ensures forall c :: c in touched && c in Selected() ==> c in old(touched)
    {
      hide Without, Position, InOrder, Distinct, Unshared, Holds, Selected, Attached, StartsWith, NextSibling;
      AttachedMeans();
      BothSelected(rowNodes);
      var start, end := startRow.value, endRow.value;
      ghost var w := Without(rowNodes, TopFold);
      FoldOut(rowNodes, TopFold, Selected());
      BothSelected(w);
      ghost var a, m;
      a, m, rest := AroundBoth(w, start, end);
      ghost var b := rest;
      ghost var idle := StartsWith([start] + [end] + [TopFold]);
      BothInFront(start, end, a, m, b);
      PlaceAfter(TopFold, end, a + [start] + m, b);
      TrimBetween(start, end, a, m, [TopFold] + b);
      assert idle ==> touched == old(touched);
      TrimFront(start, a, [end] + [TopFold] + b);
      assert idle ==> touched == old(touched) && rowNodes == old(rowNodes);
    }

    /** The selected rows above the window, in the three cases of `drawTopFold_`, and the others. */
    lemma TopCases(top: int, rest: seq<Child>)
      requires SelectionOk()
      ensures AboveCount(top) <= |Selected()| && TopFold !in Selected()
      ensures if startRow.None? || startRow.value.rowIndex >= top then
                Above(top) == [] && (Holds(rest, Selected()) ==> Holds(rest, Selected()[AboveCount(top)..]))
              else if !isMultiline || endRow.value.rowIndex >= top then
                Above(top) == [startRow.value] &&
                (Holds(rest, Selected()[1..]) ==> Holds(rest, Selected()[AboveCount(top)..]))
              else startRow != endRow && Above(top) == Selected() && Holds(rest, Selected()[AboveCount(top)..])
    {
      hide Holds;
      NothingHeld(rest);
      assert Selected()[|Selected()|..] == [];
    }

    lemma TopIsDrawn(top: int, was: seq<Child>, rest: seq<Child>)
      requires SelectionOk() && Distinct(rowNodes)
      requires rowNodes == Above(top) + [TopFold] + rest && Holds(rest, Selected()[AboveCount(top)..])
      requires TopFold in was && Holds(was, Selected()) && Unshared(was, Selected()) && forall c :: c in rest ==>
        c in was
      ensures TopDrawn(top) && forall c :: c in rowNodes ==> c in was
    {
      hide Distinct, Unshared, Holds;
      assert rowNodes[AboveCount(top) + 1..] == rest;
      HeldAreIn(was, Selected());
      UnsharedPart(was, rowNodes, Selected());
    }

    /** `drawTopFold_`. */
    method DrawTopFold(topRowIndex: int)
      requires Attached()
      modifies this`rowNodes, this`touched
      ensures SelectionOk() && TopDrawn(topRowIndex)
      ensures old(StartsWith(Above(topRowIndex) + [TopFold])) ==> rowNodes == old(rowNodes) && touched == old(touched)
      ensures forall c :: c in rowNodes ==> c in old(rowNodes)
      ensures forall c :: c in Selected() && c in touched ==> c in old(touched)
    {
      hide Without, Position, InOrder, Distinct, Unshared, Holds, Above, AboveCount, Selected, TopDrawn, Attached;
      hide StartsWith;
      AttachedMeans();
      TopCases(topRowIndex, []);
      ghost var rest;
      if startRow.None? || startRow.value.rowIndex >= topRowIndex {
        assert [] + [TopFold] == [TopFold];
        rest := TopFoldFirst();
      } else if !isMultiline || endRow.value.rowIndex >= topRowIndex {
        rest := TopFoldAfterStart();
      } else {
        rest := TopFoldAfterEnd();
      }
      TopCases(topRowIndex, rest);
      TopIsDrawn(topRowIndex, old(rowNodes), rest);
    }

    /** The bottom fold is right in front of a node already, and `back` is all that follows. */
    lemma EndInPlace(node: Child, back: seq<Child>, a: seq<Child>, b: seq<Child>)
      requires Distinct(rowNodes) && Without(rowNodes, BottomFold) == a + [node] + b && node != BottomFold
      ensures EndsWith([BottomFold] + ([node] + back)) ==> NextSibling(BottomFold) == Some(node) && b == back
    {
      hide Without, Position, Distinct;
      FoldIsInFront(rowNodes, BottomFold, node, back, a, b);
    }

    /** No selected row is below the window: the bottom fold is the last child. */
    method BottomFoldLast(ghost head: seq<Child>, ghost rest: seq<Child>, ghost selected: seq<Child>)
      returns (ghost mid: seq<Child>)
      requires rowNodes == head + rest && head != [] && BottomFold !in head && BottomFold !in selected
      requires Distinct(rowNodes) && Holds(rest, selected)
      modifies this`rowNodes, this`touched
      ensures rowNodes == head + mid + [BottomFold] && Distinct(rowNodes) && Holds(mid, selected)
      ensures (forall c :: c in mid ==> c in rest) && touched <= old(touched) + {BottomFold}
      ensures old(EndsWith([BottomFold])) ==> rowNodes == old(rowNodes) && touched == old(touched)
    {
      hide Without, Position, InOrder, Distinct, Holds;
      mid := Without(rest, BottomFold);
      DistinctTail(head, rest);
      FoldOut(rest, BottomFold, selected);
      WithoutInTail(head, rest, BottomFold);
      LastStays(head + rest, BottomFold);
      if rowNodes[|rowNodes| - 1] != BottomFold {
        assert head + mid == (head + mid) + [];
        InsertBefore(BottomFold, None, head + mid, []);
      }
    }

    /** Only the last selected row is below the window: the bottom fold goes right in front of it. */
    method BottomFoldBeforeEnd(ghost head: seq<Child>, ghost rest: seq<Child>, ghost selected: seq<Child>)
      returns (ghost mid: seq<Child>)
      requires rowNodes == head + rest && BottomFold !in head && BottomFold !in selected
      requires Distinct(rowNodes) && Holds(rest, selected) && 1 <= |selected| <= 2
      requires endRow == Some(selected[|selected| - 1])
      modifies this`rowNodes, this`touched
      ensures rowNodes == head + mid + [BottomFold] + [endRow.value] && Distinct(rowNodes) &&
        Holds(mid, selected[..|selected| - 1])
      ensures old(EndsWith([BottomFold] + [endRow.value])) ==> rowNodes == old(rowNodes) && touched == old(touched)
      ensures forall c :: c in mid ==> c in rest
      ensures forall c :: c in touched && (c in selected || c in head) ==> c in old(touched)
    {
      hide Without, Position, InOrder, Distinct, Holds;
      DistinctTail(head, rest);
      FoldOut(rest, BottomFold, selected);
      WithoutInTail(head, rest, BottomFold);
      ghost var b;
      mid, b := AroundLast(Without(rest, BottomFold), selected);
      assert head + Without(rest, BottomFold) == (head + mid) + [endRow.value] + b;
      EndInPlace(endRow.value, [], head + mid, b);
      PlaceBefore(BottomFold, endRow.value, head + mid, b);
      assert rowNodes == (head + mid + [BottomFold]) + [endRow.value] + b;
      TrimBack(endRow.value, head + mid + [BottomFold], b);
    }

    /** Both selected rows are below the window: they come to be neighbours behind the bottom fold. */
    method BottomFoldBeforeStart(ghost head: seq<Child>, ghost rest: seq<Child>) returns (ghost mid: seq<Child>)
      requires rowNodes == head + rest && BottomFold !in head && startRow.Some? && endRow.Some?
      requires startRow.value.RowNode? && endRow.value.RowNode?
      requires Distinct(rowNodes) && InOrder(rest, startRow.value, endRow.value)
      modifies this`rowNodes, this`touched
      ensures rowNodes == head + mid + [BottomFold] + [startRow.value, endRow.value] && Distinct(rowNodes)
      ensures old(EndsWith([BottomFold] + [startRow.value, endRow.value])) ==>
        rowNodes == old(rowNodes) && touched == old(touched)
      ensures forall c :: c in mid ==> c in rest
      ensures forall c :: c in touched && (c == startRow.value || c == endRow.value || c in head) ==> c in old(touched)
    {
      hide Without, Position, InOrder, Distinct, Holds;
      var start, end := startRow.value, endRow.value;
      DistinctTail(head, rest);
      OrderWithout(rest, start, end, BottomFold);
      WithoutGone(rest, BottomFold);
      WithoutInTail(head, rest, BottomFold);
      ghost var m, b;
      mid, m, b := AroundBoth(Without(rest, BottomFold), start, end);
      assert head + Without(rest, BottomFold) == (head + mid) + [start] + (m + [end] + b);
      EndInPlace(start, [end], head + mid, m + [end] + b);
      StartIsFirst(m, end, b);
      PlaceBefore(BottomFold, start, head + mid, m + [end] + b);
      assert rowNodes == (head + mid + [BottomFold]) + [start] + m + [end] + b;
      TrimBetween(start, end, head + mid + [BottomFold], m, b);
      assert rowNodes == (head + mid + [BottomFold] + [start]) + [end] + b;
      TrimBack(end, head + mid + [BottomFold] + [start], b);
      assert [start] + [end] == [start, end];
    }

    /** The selected rows that belong outside the window are outside the folds, and no other child is. */
    ghost predicate FoldsDrawn(top: int, bottom: int, mid: seq<Child>)
      requires SelectionOk() && top <= bottom + 1
      reads this
    {
      rowNodes == Above(top) + [TopFold] + mid + [BottomFold] + Below(bottom) && Distinct(rowNodes) &&
      Unshared(rowNodes, Selected()) && Holds(mid, Visible(top, bottom))
    }

    /** The selected rows that are not above the window, in the three cases of `drawBottomFold_`. */
    lemma BottomCases(top: int, bottom: int, due: seq<Child>)
      requires SelectionOk() && top <= bottom + 1 && due == Selected()[AboveCount(top)..]
      ensures BottomFold !in due
      ensures endRow.None? || endRow.value.rowIndex <= bottom ==> Visible(top, bottom) == due && Below(bottom) == []
      ensures endRow.Some? && endRow.value.rowIndex > bottom && (!isMultiline || startRow.value.rowIndex <= bottom) ==>
        1 <= |due| <= 2 && endRow == Some(due[|due| - 1]) &&
        Visible(top, bottom) == due[..|due| - 1] && Below(bottom) == [endRow.value]
      ensures endRow.Some? && endRow.value.rowIndex > bottom && isMultiline && startRow.value.rowIndex > bottom ==>
        due == [startRow.value, endRow.value] && Visible(top, bottom) == [] && Below(bottom) == due
    {
    }

    lemma TopLength(top: int)
      requires SelectionOk() && TopDrawn(top)
      ensures AboveCount(top) < |rowNodes|
    {
      hide Distinct, Unshared, Holds, AboveCount, Above;
    }

    /** What the top fold leaves to the bottom fold. */
    lemma TopFacts(top: int, head: seq<Child>, rest: seq<Child>, due: seq<Child>)
      requires SelectionOk() && TopDrawn(top)
      requires head == Above(top) + [TopFold] && rest == rowNodes[AboveCount(top) + 1..] &&
        due == Selected()[AboveCount(top)..]
      ensures rowNodes == head + rest && head != [] && BottomFold !in head && |due| <= 2
      ensures Distinct(rowNodes) && Unshared(rowNodes, Selected()) && Holds(rest, due)
      ensures forall c :: c in Selected() ==> c in head || c in due
    {
      hide Distinct, Unshared, Holds;
    }

    /** `drawBottomFold_`. */
    method DrawBottomFold(bottomRowIndex: int, ghost topRowIndex: int) returns (ghost mid: seq<Child>)
      requires SelectionOk() && TopDrawn(topRowIndex) && topRowIndex <= bottomRowIndex + 1
      modifies this`rowNodes, this`touched
      ensures SelectionOk() && FoldsDrawn(topRowIndex, bottomRowIndex, mid)
      ensures old(EndsWith([BottomFold] + Below(bottomRowIndex))) ==>
        rowNodes == old(rowNodes) && touched == old(touched)
      ensures forall c :: c in mid ==> c in old(rowNodes)
      ensures forall c :: c in Selected() && c in touched ==> c in old(touched)
    {
      hide Without, Position, InOrder, Distinct, Unshared, Holds, Visible, Below, Above, Selected, AboveCount;
      hide NotBelowCount, EndsWith, TopDrawn;
      TopLength(topRowIndex);
      ghost var n := AboveCount(topRowIndex);
      ghost var above, due := Above(topRowIndex), Selected()[n..];
      ghost var head, rest := above + [TopFold], rowNodes[n + 1..];
      TopFacts(topRowIndex, head, rest, due);
      BottomCases(topRowIndex, bottomRowIndex, due);
      HeldAreIn(rest, due);
      if endRow.None? || endRow.value.rowIndex <= bottomRowIndex {
        assert [BottomFold] + [] == [BottomFold];
        mid := BottomFoldLast(head, rest, due);
        assert rowNodes == head + mid + [BottomFold] + [];
      } else if !isMultiline || startRow.value.rowIndex <= bottomRowIndex {
        mid := BottomFoldBeforeEnd(head, rest, due);
      } else {
        HeldInOrder(rest, startRow.value, endRow.value);
        mid := BottomFoldBeforeStart(head, rest);
        NothingHeld(mid);
      }
      UnsharedPart(old(rowNodes), rowNodes, Selected());
    }

    // ---------------------------------------------------------------- visible rows

    static ghost predicate CacheKnown(cache: map<int, Child>) {
      forall k :: k in cache ==> cache[k].RowNode? && cache[k].rowIndex == k
    }

    /** The provider and the cache know every row by its position. */
    ghost predicate RowsKnown()
      reads this`rows, this`previousRowNodeCache
    {
      (forall i :: 0 <= i < |rows| ==> rows[i].RowNode? && rows[i].rowIndex == i) &&
      CacheKnown(previousRowNodeCache)
    }

    predicate Fetchable(rowIndex: int)
      reads this`rows, this`previousRowNodeCache
    {
      rowIndex in previousRowNodeCache || 0 <= rowIndex < |rows|
    }

    /** The row that the previous redraw fetched for a position, or else the provider's. */
    function Fetched(rowIndex: int): Child
      requires Fetchable(rowIndex)
      reads this`rows, this`previousRowNodeCache
    {
      if rowIndex in previousRowNodeCache then previousRowNodeCache[rowIndex] else rows[rowIndex]
    }

    /** `fetchRowNode_`, during a redraw. */
    method FetchRowNode(rowIndex: int) returns (node: Child)
      requires RowsKnown() && Fetchable(rowIndex)
      modifies this`currentRowNodeCache
      ensures node.RowNode? && node.rowIndex == rowIndex
      ensures node == Fetched(rowIndex)
      ensures currentRowNodeCache == old(currentRowNodeCache)[rowIndex := node]
    {
      if rowIndex in previousRowNodeCache {
        node := previousRowNodeCache[rowIndex];
      } else {
        node := rows[rowIndex];
      }
      currentRowNodeCache := currentRowNodeCache[node.rowIndex := node];
    }

    /** Remove the children from `node` on, up to `target`. */
    method RemoveUntilNode(node: Child, target: Child, ghost head: seq<Child>, ghost gone: seq<Child>,
                           ghost tail: seq<Child>)
      requires Distinct(rowNodes) && rowNodes == head + gone + [target] + tail && node == (gone + [target])[0]
      modifies this`rowNodes, this`touched
      ensures rowNodes == head + [target] + tail && Distinct(rowNodes)
      ensures forall c :: c in touched <==> c in old(touched) || c in gone
    {
      var currentNode := node;
      ghost var i := 0;
      DistinctAround(head + gone, target, tail);
      while currentNode != target
        invariant 0 <= i <= |gone| && rowNodes == head + gone[i..] + [target] + tail && Distinct(rowNodes)
        invariant currentNode == (gone[i..] + [target])[0] && (i < |gone| ==> gone[i] != target)
        invariant forall c :: c in touched <==> c in old(touched) || c in gone[..i]
        decreases |gone| - i
      {
        ghost var rest := gone[i + 1..] + [target] + tail;
        assert rowNodes == head + [currentNode] + rest;
        assert gone[..i + 1] == gone[..i] + [gone[i]];
        DistinctAround(head, currentNode, rest);
        NextAt(head, currentNode, rest);
        var deadNode := currentNode;
        currentNode := NextSibling(currentNode).value;
        RemoveChild(deadNode, head, rest);
        assert rowNodes == head + gone[i + 1..] + [target] + tail;
        i := i + 1;
      }
    }

    /** The rows in front of `rowIndex` are drawn: they are in `head`.  Selected rows are in their places, or ahead. */
    ghost predicate Drawing(head: seq<Child>, rest: seq<Child>, tail: seq<Child>, rowIndex: int, bottom: int)
      reads this`startRow, this`endRow, this`isMultiline, this`rowNodes
    {
      SelectionOk() && rowNodes == head + rest + tail && Distinct(rowNodes) && Unshared(rowNodes, Selected()) &&
      rowIndex <= bottom + 1 && TopFold in head && tail != [] && tail[0] == BottomFold &&
      (forall c :: c in head && c.RowNode? ==> c.rowIndex < rowIndex) &&
      (forall c :: c in tail && c.RowNode? ==> c.rowIndex > bottom) &&
      (forall c :: c in Selected() && c.rowIndex < rowIndex ==> c in head) &&
      (forall c :: c in Selected() && c.rowIndex > bottom ==> c in tail) &&
      Holds(rest, Visible(rowIndex, bottom))
    }

    /** Advancing the window start passes the selected row that is there. */
    lemma VisibleNext(rowIndex: int, bottom: int)
      requires SelectionOk() && rowIndex <= bottom
      ensures forall c :: c in Selected() && c.rowIndex == rowIndex ==>
        Visible(rowIndex, bottom) == [c] + Visible(rowIndex + 1, bottom)
      ensures (forall c :: c in Selected() ==> c.rowIndex != rowIndex) ==>
        Visible(rowIndex, bottom) == Visible(rowIndex + 1, bottom)
    {
    }

    /** The node in turn is the row that should be here. */
    method KeepNode(node: Child, rowIndex: int, ghost head: seq<Child>, ghost rest: seq<Child>, ghost tail: seq<Child>,
                    ghost bottom: int)
      returns (next: Child)
      requires Drawing(head, rest, tail, rowIndex, bottom) && rowIndex <= bottom
      requires rest != [] && node == rest[0] && node.RowNode? && node.rowIndex == rowIndex
      ensures Drawing(head + [node], rest[1..], tail, rowIndex + 1, bottom) && next == (rest[1..] + tail)[0]
    {
      hide Position, InOrder, Without, Distinct, Holds, Unshared;
      VisibleNext(rowIndex, bottom);
      FirstOut(head, rest, tail);
      DistinctAround(head, node, rest[1..] + tail);
      NextAt(head, node, rest[1..] + tail);
      next := NextSibling(node).value;
      FirstPassed(head, rest, tail, Visible(rowIndex, bottom));
      SameIndexSameRow(rowNodes, Selected(), node);
    }

    /** A selected row is supposed to be here: whatever is in front of it goes. */
    method TakeSelected(node: Child, row: Child, ghost head: seq<Child>, ghost rest: seq<Child>,
                        ghost tail: seq<Child>, ghost bottom: int)
      returns (next: Child, ghost left: seq<Child>)
      requires row.RowNode? && row.rowIndex <= bottom && row in Selected()
      requires Drawing(head, rest, tail, row.rowIndex, bottom) && node == (rest + tail)[0]
      modifies this`rowNodes, this`touched
      ensures Drawing(head + [row], left, tail, row.rowIndex + 1, bottom) && next == (left + tail)[0]
      ensures row in rest && forall c :: c in left ==> c in rest
      ensures old(touched) <= touched && forall c :: c in Selected() && c in touched ==> c in old(touched)
    {
      hide Position, InOrder, Without, Distinct, Holds, Unshared;
      VisibleNext(row.rowIndex, bottom);
      DistinctPart(head, rest, tail);
      ghost var gone;
      gone, left := AroundFirst(rest, Visible(row.rowIndex, bottom));
      assert rowNodes == head + gone + [row] + (left + tail);
      assert rest + tail == (gone + [row]) + (left + tail);
      RemoveUntilNode(node, row, head, gone, left + tail);
      DistinctAround(head, row, left + tail);
      NextAt(head, row, left + tail);
      next := NextSibling(row).value;
      assert rowNodes == (head + [row]) + left + tail;
      assert [row] + Visible(row.rowIndex + 1, bottom) == Visible(row.rowIndex, bottom);
      assert Visible(row.rowIndex, bottom)[1..] == Visible(row.rowIndex + 1, bottom);
      UnsharedPart(old(rowNodes), rowNodes, Selected());
    }

    /** Insert the row that should be here in front of `node`. */
    method InsertRow(node: Child, newNode: Child, ghost head: seq<Child>, ghost rest: seq<Child>,
                     ghost tail: seq<Child>, ghost bottom: int)
      returns (ghost left: seq<Child>)
      requires newNode.RowNode? && newNode.rowIndex <= bottom
      requires forall c :: c in Selected() ==> c.RowNode? && c.rowIndex != newNode.rowIndex
      requires Drawing(head, rest, tail, newNode.rowIndex, bottom) && node == (rest + tail)[0]
      requires node.RowNode? ==> node.rowIndex != newNode.rowIndex
      modifies this`rowNodes, this`touched
      ensures Drawing(head + [newNode], left, tail, newNode.rowIndex + 1, bottom)
      ensures node == (left + tail)[0] && (rest != [] ==> left != [])
      ensures touched == old(touched) + {newNode} && forall c :: c in left ==> c in rest
    {
      hide Position, InOrder, Without, Distinct, Holds, Unshared, Selected;
      VisibleNext(newNode.rowIndex, bottom);
      DistinctPart(head, rest, tail);
      left := Without(rest, newNode);
      WithoutInMiddle(head, rest, tail, newNode);
      FirstKept(rest, newNode);
      FoldOut(rest, newNode, Visible(newNode.rowIndex, bottom));
      InsertBefore(newNode, Some(node), head, left + tail);
      assert rowNodes == (head + [newNode]) + left + tail;
      UnsharedMore(old(rowNodes), rowNodes, Selected(), newNode);
    }

    /** A node that is in the way goes. */
    method RemoveNode(node: Child, newNode: Child, rowIndex: int, ghost head: seq<Child>, ghost rest: seq<Child>,
                      ghost tail: seq<Child>, ghost bottom: int)
      returns (next: Child)
      requires Drawing(head + [newNode], rest, tail, rowIndex, bottom) && rest != [] && node == rest[0] &&
        node !in Selected()
      modifies this`rowNodes, this`touched
      ensures Drawing(head + [newNode], rest[1..], tail, rowIndex, bottom) && next == (rest[1..] + tail)[0]
      ensures touched == old(touched) + {node}
    {
      hide Position, InOrder, Without, Distinct, Holds, Unshared;
      FirstPassed(head + [newNode], rest, tail, Visible(rowIndex, bottom));
      FirstOut(head + [newNode], rest, tail);
      RemoveChild(node, head + [newNode], rest[1..] + tail);
      assert rowNodes == head + [newNode] + rest[1..] + tail;
      assert rowNodes == head + [newNode] + (rest[1..] + tail);
      DistinctAround(head, newNode, rest[1..] + tail);
      NextAt(head, newNode, rest[1..] + tail);
      next := NextSibling(newNode).value;
      UnsharedPart(old(rowNodes), rowNodes, Selected());
    }

    /** The node in turn is a row that is not drawn yet, or the bottom fold; selected rows that are due are ahead. */
    lemma NodeInTurn(node: Child, head: seq<Child>, rest: seq<Child>, tail: seq<Child>, rowIndex: int, bottom: int)
      requires Drawing(head, rest, tail, rowIndex, bottom) && node == (rest + tail)[0]
      ensures SelectionOk()
      ensures forall c :: c in Selected() && rowIndex <= c.rowIndex <= bottom ==> c in rest
      ensures if node == BottomFold then rest == [] else rest != [] && node == rest[0] && node.RowNode?
      ensures forall c :: c in Selected() ==> c.RowNode?
    {
      hide Position, InOrder, Distinct, Unshared;
      SelectedParts(rowIndex, bottom);
      HeldAreIn(rest, Visible(rowIndex, bottom));
      DistinctPart(head, rest, tail);
      if rest != [] {
        assert rest[0] in rest;
      }
    }

    /** One turn of the loop of `drawVisibleRows_`. */
    method DrawRow(node: Child, rowIndex: int, ghost head: seq<Child>, ghost rest: seq<Child>, ghost tail: seq<Child>,
                   ghost bottom: int)
      returns (next: Child, ghost row: Child, ghost left: seq<Child>)
      requires Drawing(head, rest, tail, rowIndex, bottom) && rowIndex <= bottom && node == (rest + tail)[0]
      requires RowsKnown() && Fetchable(rowIndex) && CacheKnown(currentRowNodeCache)
      modifies this`rowNodes, this`touched, this`currentRowNodeCache
      ensures CacheKnown(currentRowNodeCache)
      ensures row.RowNode? && row.rowIndex == rowIndex
      ensures node.RowNode? && node.rowIndex == rowIndex ==> row == node && left == rest[1..] && unchanged(this)
      ensures (row in rest && currentRowNodeCache == old(currentRowNodeCache)) ||
        (row == Fetched(rowIndex) && currentRowNodeCache == old(currentRowNodeCache)[rowIndex := row])
      ensures forall c :: c in left ==> c in rest
      ensures Drawing(head + [row], left, tail, rowIndex + 1, bottom) && next == (left + tail)[0]
      ensures old(touched) <= touched && forall c :: c in Selected() && c in touched ==> c in old(touched)
    {
      hide Position, InOrder, Without, Distinct, Holds, Unshared, Visible, Above, Below, Drawing;
      NodeInTurn(node, head, rest, tail, rowIndex, bottom);
      if node == BottomFold {
        var newNode := FetchRowNode(rowIndex);
        left := InsertRow(node, newNode, head, rest, tail, bottom);
        return node, newNode, left;
      }
      if node.rowIndex == rowIndex {
        next := KeepNode(node, rowIndex, head, rest, tail, bottom);
        return next, node, rest[1..];
      }
      if startRow.Some? && startRow.value.rowIndex == rowIndex {
        row := startRow.value;
        next, left := TakeSelected(node, startRow.value, head, rest, tail, bottom);
        return;
      }
      if endRow.Some? && endRow.value.rowIndex == rowIndex {
        row := endRow.value;
        next, left := TakeSelected(node, endRow.value, head, rest, tail, bottom);
        return;
      }
      var newNode := FetchRowNode(rowIndex);
      row := newNode;
      left := InsertRow(node, newNode, head, rest, tail, bottom);
      if Some(node) == startRow || Some(node) == endRow {
        // A selected row that is not wanted yet stays where it is.
        next := node;
        return;
      }
      next := RemoveNode(node, newNode, rowIndex + 1, head, left, tail, bottom);
      left := left[1..];
    }

    /** The rows of the window, in order. */
    static ghost predicate Window(placed: seq<Child>, top: int) {
      forall k :: 0 <= k < |placed| ==> placed[k].RowNode? && placed[k].rowIndex == top + k
    }

    /**
     Each row of the window was among the children `mid`, or was fetched.  The cache holds fetched rows of the
     window, in their places, and what was in it before.
     */
    ghost predicate Sources(placed: seq<Child>, top: int, mid: seq<Child>, cache: map<int, Child>,
                            before: map<int, Child>)
      reads this`rows, this`previousRowNodeCache
    {
      (forall k :: 0 <= k < |placed| ==>
         placed[k] in mid ||
         (Fetchable(top + k) && placed[k] == Fetched(top + k) && top + k in cache && cache[top + k] == placed[k])) &&
      (forall k :: k in cache ==>
         (k in before && cache[k] == before[k]) || (top <= k < top + |placed| && cache[k] == placed[k - top])) &&
      forall k :: k in before ==> k in cache
    }

    lemma SourcesMore(placed: seq<Child>, top: int, mid: seq<Child>, cache: map<int, Child>, before: map<int, Child>,
                      row: Child, cache': map<int, Child>)
      requires Sources(placed, top, mid, cache, before)
      requires (row in mid && cache' == cache) ||
        (Fetchable(top + |placed|) && row == Fetched(top + |placed|) && cache' == cache[top + |placed| := row])
      ensures Sources(placed + [row], top, mid, cache', before)
    {
      hide Fetchable, Fetched;
    }

    static lemma WindowAt(mid: seq<Child>, top: int, i: nat)
      requires Window(mid, top) && i < |mid|
      ensures mid[i..] != [] && mid[i..][0].RowNode? && mid[i..][0].rowIndex == top + i
      ensures mid[i..][1..] == mid[i + 1..] && mid[..i] + [mid[i..][0]] == mid[..i + 1]
    {
    }

    /** What the loop knows after some turns: the rows drawn, where they are from, and what was touched since. */
    ghost predicate Drawn(placed: seq<Child>, top: int, mid: seq<Child>, rest: seq<Child>, before: map<int, Child>,
                          past: set<Child>)
      reads this`rows, this`previousRowNodeCache, this`currentRowNodeCache, this`touched
      reads this`startRow, this`endRow, this`isMultiline
    {
      Window(placed, top) && Sources(placed, top, mid, currentRowNodeCache, before) &&
      CacheKnown(currentRowNodeCache) &&
      (forall c :: c in rest ==> c in mid) &&
      past <= touched && forall c :: c in Selected() && c in touched ==> c in past
    }

    lemma DrawnNone(top: int, mid: seq<Child>)
      requires CacheKnown(currentRowNodeCache)
      ensures Drawn([], top, mid, mid, currentRowNodeCache, touched)
    {
    }

    lemma DrawnMeans(placed: seq<Child>, top: int, mid: seq<Child>, rest: seq<Child>, before: map<int, Child>,
                     past: set<Child>)
      requires Drawn(placed, top, mid, rest, before, past)
      ensures Window(placed, top) && Sources(placed, top, mid, currentRowNodeCache, before)
      ensures CacheKnown(currentRowNodeCache)
      ensures past <= touched && forall c :: c in Selected() && c in touched ==> c in past
    {
    }

    /** One turn of the loop, and what it knows afterwards. */
    method DrawTurn(node: Child, rowIndex: int, ghost top: int, ghost above: seq<Child>, ghost placed: seq<Child>,
                    ghost mid: seq<Child>, ghost rest: seq<Child>, ghost tail: seq<Child>, ghost bottom: int,
                    ghost before: map<int, Child>, ghost past: set<Child>)
      returns (next: Child, ghost placed': seq<Child>, ghost left: seq<Child>)
      requires Drawing(above + placed, rest, tail, rowIndex, bottom) && rowIndex == top + |placed| <= bottom
      requires node == (rest + tail)[0] && RowsKnown() && Fetchable(rowIndex)
      requires Drawn(placed, top, mid, rest, before, past)
      modifies this`rowNodes, this`touched, this`currentRowNodeCache
      ensures Drawing(above + placed', left, tail, rowIndex + 1, bottom) && next == (left + tail)[0]
      ensures |placed'| == |placed| + 1 && Drawn(placed', top, mid, left, before, past)
      ensures node.RowNode? && node.rowIndex == rowIndex ==>
        placed' == placed + [node] && left == rest[1..] && unchanged(this)
    {
      hide Drawing, Sources, Fetched, Selected;
      ghost var cache, row := currentRowNodeCache, node;
      next, row, left := DrawRow(node, rowIndex, above + placed, rest, tail, bottom);
      placed' := placed + [row];
      assert above + placed + [row] == above + placed';
      SourcesMore(placed, top, mid, cache, before, row, currentRowNodeCache);
    }

    /** Before the first row is drawn. */
    lemma StartDrawing(top: int, bottom: int, mid: seq<Child>)
      requires SelectionOk() && top <= bottom + 1 && FoldsDrawn(top, bottom, mid)
      ensures Drawing(Above(top) + [TopFold], mid, [BottomFold] + Below(bottom), top, bottom)
      ensures NextSibling(TopFold) == Some((mid + ([BottomFold] + Below(bottom)))[0])
    {
      hide Unshared, Holds, Distinct, Next, Visible, Above, Below, Selected;
      SelectedParts(top, bottom);
      var above, tail := Above(top), [BottomFold] + Below(bottom);
      assert rowNodes == above + [TopFold] + (mid + tail);
      assert rowNodes == (above + [TopFold]) + mid + tail;
      DistinctAround(above, TopFold, mid + tail);
      NextAt(above, TopFold, mid + tail);
    }

    /** Which selected rows are left over when `rowIndex` is the first row that is not drawn. */
    lemma LeftOver(node: Child, head: seq<Child>, rest: seq<Child>, tail: seq<Child>, rowIndex: int, bottom: int)
      requires Drawing(head, rest, tail, rowIndex, bottom) && node == (rest + tail)[0]
      ensures SelectionOk() && rowNodes == head + rest + tail && Distinct(rowNodes)
      ensures node == BottomFold <==> rest == []
      ensures forall c :: c in Selected() ==> (c in rest <==> rowIndex <= c.rowIndex <= bottom)
      ensures forall c :: c in Selected() ==> (c in head || c in tail <==> !(rowIndex <= c.rowIndex <= bottom))
    {
      NodeInTurn(node, head, rest, tail, rowIndex, bottom);
      DistinctPart(head, rest, tail);
    }

    /**
     `drawVisibleRows_`.  Between the folds there are exactly the rows of the window, in order.  The
     selected rows that are disturbed are those below the last row that the provider has.
     */
    method DrawVisibleRows(topRowIndex: int, bottomRowIndex: int, ghost mid: seq<Child>)
      returns (ghost placed: seq<Child>)
      requires SelectionOk() && bottomRowIndex == topRowIndex + visibleRowCount - 1 &&
        FoldsDrawn(topRowIndex, bottomRowIndex, mid)
      requires RowsKnown() && CacheKnown(currentRowNodeCache)
      requires forall k :: topRowIndex <= k < topRowIndex + Min(visibleRowCount, |rows|) ==> Fetchable(k)
      modifies this`rowNodes, this`touched, this`currentRowNodeCache
      ensures rowNodes == Above(topRowIndex) + [TopFold] + placed + [BottomFold] + Below(bottomRowIndex) &&
        Distinct(rowNodes)
      ensures |placed| == Min(visibleRowCount, |rows|) && Window(placed, topRowIndex)
      ensures CacheKnown(currentRowNodeCache)
      ensures Sources(placed, topRowIndex, mid, currentRowNodeCache, old(currentRowNodeCache))
      ensures |mid| == |placed| && Window(mid, topRowIndex) ==> placed == mid && unchanged(this)
      ensures forall c :: c in Selected() ==>
        (c in touched <==> c in old(touched) || topRowIndex + |placed| <= c.rowIndex <= bottomRowIndex) &&
        (c in rowNodes <==> !(topRowIndex + |placed| <= c.rowIndex <= bottomRowIndex))
    {
      hide Without, Position, InOrder, Distinct, Unshared, Holds, Above, Below, Visible, Selected, Next, FoldsDrawn;
      hide Sources, Drawn, Window, Drawing;
      ghost var above, tail := Above(topRowIndex) + [TopFold], [BottomFold] + Below(bottomRowIndex);
      ghost var rest, before, past := mid, currentRowNodeCache, touched;
      StartDrawing(topRowIndex, bottomRowIndex, mid);
      DrawnNone(topRowIndex, mid);
      placed := [];
      assert above + placed == above && mid[0..] == mid && mid[..0] == [];
      var node := NextSibling(TopFold).value;
      var targetDrawCount := Min(visibleRowCount, |rows|);
      ghost var stays := |mid| == targetDrawCount && Window(mid, topRowIndex);
      for drawCount := 0 to targetDrawCount
        invariant |placed| == drawCount && node == (rest + tail)[0]
        invariant Drawing(above + placed, rest, tail, topRowIndex + drawCount, bottomRowIndex)
        invariant Drawn(placed, topRowIndex, mid, rest, before, past)
        invariant stays ==> rest == mid[drawCount..] && placed == mid[..drawCount] && unchanged(this)
      {
        if stays {
          WindowAt(mid, topRowIndex, drawCount);
        }
        node, placed, rest := DrawTurn(node, topRowIndex + drawCount, topRowIndex, above, placed, mid, rest, tail,
                                       bottomRowIndex, before, past);
      }
      assert stays ==> rest == [] && placed == mid;
      DrawnMeans(placed, topRowIndex, mid, rest, before, past);
      LeftOver(node, above + placed, rest, tail, topRowIndex + targetDrawCount, bottomRowIndex);
      assert rowNodes == above + placed + rest + [BottomFold] + Below(bottomRowIndex);
      if node != BottomFold {
        RemoveUntilNode(node, BottomFold, above + placed, rest, Below(bottomRowIndex));
      }
    }

    /** The window is drawn: the folds, the selected rows outside, and these rows in between. */
    ghost predicate Shows(top: int, placed: seq<Child>)
      requires SelectionOk()
      reads this`rowNodes, this`rows, this`visibleRowCount, this`startRow, this`endRow, this`isMultiline
    {
      rowNodes == Above(top) + [TopFold] + placed + [BottomFold] + Below(top + visibleRowCount - 1) &&
      |placed| == Min(visibleRowCount, |rows|) && Window(placed, top)
    }

    ghost predicate InPlace(top: int)
      requires SelectionOk()
      reads this`rowNodes, this`rows, this`visibleRowCount, this`startRow, this`endRow, this`isMultiline
    {
      exists placed :: Shows(top, placed)
    }

    lemma ShowsInPlace(top: int, placed: seq<Child>)
      requires SelectionOk() && Shows(top, placed)
      ensures InPlace(top)
    {
    }

    lemma DrawnBetween(top: int, bottom: int, mid: seq<Child>)
      requires SelectionOk() && top <= bottom + 1 && FoldsDrawn(top, bottom, mid)
      ensures rowNodes == Above(top) + [TopFold] + mid + [BottomFold] + Below(bottom)
    {
    }

    lemma InPlaceEdges(top: int)
      requires SelectionOk() && InPlace(top)
      ensures StartsWith(Above(top) + [TopFold]) && EndsWith([BottomFold] + Below(top + visibleRowCount - 1))
    {
      hide Above, Below, Window;
      var placed :| Shows(top, placed);
      var front, back := Above(top) + [TopFold], [BottomFold] + Below(top + visibleRowCount - 1);
      assert rowNodes == front + placed + back;
    }

    lemma InPlaceMiddle(top: int, mid: seq<Child>)
      requires SelectionOk() && InPlace(top)
      requires rowNodes == Above(top) + [TopFold] + mid + [BottomFold] + Below(top + visibleRowCount - 1)
      ensures |mid| == Min(visibleRowCount, |rows|) && Window(mid, top)
    {
      hide Above, Below, Window;
      var placed :| Shows(top, placed);
      var front, back := Above(top) + [TopFold], [BottomFold] + Below(top + visibleRowCount - 1);
      assert rowNodes == front + placed + back == front + mid + back;
      assert placed == rowNodes[|front|..|rowNodes| - |back|] == mid;
    }

    /** Both folds. */
    method DrawFolds(topRowIndex: int, bottomRowIndex: int) returns (ghost mid: seq<Child>)
      requires Attached() && bottomRowIndex == topRowIndex + visibleRowCount - 1
      modifies this`rowNodes, this`touched
      ensures SelectionOk() && FoldsDrawn(topRowIndex, bottomRowIndex, mid)
      ensures forall c :: c in mid ==> c in old(rowNodes)
      ensures forall c :: c in Selected() && c in touched ==> c in old(touched)
      ensures old(InPlace(topRowIndex)) ==>
        rowNodes == old(rowNodes) && touched == old(touched) && |mid| == Min(visibleRowCount, |rows|) &&
        Window(mid, topRowIndex)
    {
      hide Without, Position, InOrder, Distinct, Unshared, Holds, Above, Below, Visible, Selected, FoldsDrawn, TopDrawn;
      hide SelectionOk, Attached, StartsWith, EndsWith, InPlace, Window;
      AttachedMeans();
      ghost var idle := InPlace(topRowIndex);
      if idle {
        InPlaceEdges(topRowIndex);
      }
      DrawTopFold(topRowIndex);
      mid := DrawBottomFold(bottomRowIndex, topRowIndex);
      if idle {
        DrawnBetween(topRowIndex, bottomRowIndex, mid);
        InPlaceMiddle(topRowIndex, mid);
      }
    }

    /**
     `redraw_`, from its own list of children.  Whatever the children were, they become the selected
     rows above the window, the top fold, the rows of the window, the bottom fold and the selected rows
     below the window.  No selected row is removed, moved or inserted again, unless it is in the window
     but beyond the last row that the provider has.  So with the selection and the window on rows of the
     provider nothing selected is disturbed, and the children are a good start for the next redraw.  A
     window that is drawn already is left as it is.
     */
    method Redraw(topRowIndex: int) returns (ghost placed: seq<Child>)
      requires Attached() && RowsKnown()
      requires forall k :: topRowIndex <= k < topRowIndex + Min(visibleRowCount, |rows|) ==> Fetchable(k)
      modifies this`rowNodes, this`touched, this`currentRowNodeCache, this`previousRowNodeCache
      ensures SelectionOk() && var bottom := topRowIndex + visibleRowCount - 1;
              rowNodes == Above(topRowIndex) + [TopFold] + placed + [BottomFold] + Below(bottom) &&
              forall c :: c in Selected() ==>
                (c in touched <==> topRowIndex + |placed| <= c.rowIndex <= bottom) && (c in rowNodes <==> c !in touched)
      ensures |placed| == Min(visibleRowCount, |rows|) && Window(placed, topRowIndex)
      ensures forall k :: 0 <= k < |placed| ==>
        placed[k] in old(rowNodes) ||
        (placed[k] == old(Fetched(topRowIndex + k)) && topRowIndex + k in previousRowNodeCache)
      ensures forall k :: k in previousRowNodeCache ==>
        topRowIndex <= k < topRowIndex + |placed| && previousRowNodeCache[k] == placed[k - topRowIndex]
      ensures currentRowNodeCache == map[]
      ensures Distinct(rowNodes) && RowsKnown()
      ensures OnProvider(topRowIndex) ==> Undisturbed() && Attached()
      ensures InPlace(topRowIndex) && (old(InPlace(topRowIndex)) ==> rowNodes == old(rowNodes) && touched == {})
    {
      hide Without, Position, InOrder, Distinct, Unshared, Holds, Above, Below, Visible, Selected, FoldsDrawn, TopDrawn;
      hide SelectionOk, Attached, StartsWith, EndsWith, InPlace, OnProvider, Undisturbed, Window;
      touched := {};
      currentRowNodeCache := map[];
      var bottomRowIndex := topRowIndex + visibleRowCount - 1;
      ghost var mid := DrawFolds(topRowIndex, bottomRowIndex);
      placed := DrawVisibleRows(topRowIndex, bottomRowIndex, mid);
      ShowsInPlace(topRowIndex, placed);
      previousRowNodeCache := currentRowNodeCache;
      currentRowNodeCache := map[];
      if OnProvider(topRowIndex) {
        NothingDisturbed(topRowIndex, placed);
        ReadyAgain(topRowIndex, bottomRowIndex, placed);
      }
    }

    /** The selected rows are rows of the provider, and the window ends with its rows. */
    ghost predicate OnProvider(topRowIndex: int)
      requires SelectionOk()
      reads this`startRow, this`endRow, this`isMultiline, this`visibleRowCount, this`rows
    {
      (forall c :: c in Selected() ==> 0 <= c.rowIndex < |rows|) &&
      topRowIndex >= 0 && topRowIndex + Min(visibleRowCount, |rows|) <= |rows|
    }

    lemma NothingDisturbed(topRowIndex: int, placed: seq<Child>)
      requires SelectionOk() && OnProvider(topRowIndex) && |placed| == Min(visibleRowCount, |rows|)
      requires forall c :: c in Selected() ==>
        (c in touched <==> topRowIndex + |placed| <= c.rowIndex <= topRowIndex + visibleRowCount - 1) &&
        (c in rowNodes <==> c !in touched)
      ensures Undisturbed() && forall c :: c in Selected() ==> c in rowNodes
    {
    }

    /** What a redraw leaves is a good start for the next one, whatever the scroll distance. */
    lemma ReadyAgain(top: int, bottom: int, placed: seq<Child>)
      requires SelectionOk() && top + |placed| <= bottom + 1 && Window(placed, top)
      requires rowNodes == Above(top) + [TopFold] + placed + [BottomFold] + Below(bottom) && Distinct(rowNodes)
      requires forall c :: c in Selected() ==> c in rowNodes
      ensures Attached()
    {
      hide InOrder, Position, Distinct, Above, Below, ByIndex, Visible, Window;
      SelectedParts(top, bottom);
      OutsideByIndex(top, bottom);
      JoinedByIndex(Above(top), placed, Below(bottom), top, bottom);
      IndexMeans(rowNodes);
      assert rowNodes[|Above(top)|] == TopFold && rowNodes[|Above(top)| + 1 + |placed|] == BottomFold;
      if startRow.Some? && startRow != endRow {
        IndexOrder(rowNodes, startRow.value, endRow.value);
      }
    }

    lemma OutsideByIndex(top: int, bottom: int)
      requires SelectionOk() && top <= bottom + 1
      ensures ByIndex(Above(top)) && ByIndex(Below(bottom))
      ensures forall i :: 0 <= i < |Above(top)| ==> Above(top)[i].RowNode? && Above(top)[i].rowIndex < top
      ensures forall i :: 0 <= i < |Below(bottom)| ==> Below(bottom)[i].RowNode? && Below(bottom)[i].rowIndex > bottom
    {
    }
  }

  /** The rows are in the order of their indices. */
  predicate ByIndex(s: seq<Child>) {
    forall i, j :: 0 <= i < j < |s| && s[i].RowNode? && s[j].RowNode? ==> s[i].rowIndex < s[j].rowIndex
  }

  lemma JoinedByIndex(above: seq<Child>, placed: seq<Child>, below: seq<Child>, top: int, bottom: int)
    requires ScrollPort.Window(placed, top) && top + |placed| <= bottom + 1 && ByIndex(above) && ByIndex(below)
    requires forall i :: 0 <= i < |above| ==> above[i].RowNode? && above[i].rowIndex < top
    requires forall i :: 0 <= i < |below| ==> below[i].RowNode? && below[i].rowIndex > bottom
    ensures ByIndex(above + [TopFold] + placed + [BottomFold] + below)
  {
    assert ByIndex(placed);
    ByIndexTwo(above, [TopFold], top, top);
    ByIndexTwo(above + [TopFold], placed, top, top);
    ByIndexTwo(above + [TopFold] + placed, [BottomFold], bottom + 1, bottom + 1);
    ByIndexTwo(above + [TopFold] + placed + [BottomFold], below, bottom + 1, bottom + 1);
  }

  lemma ByIndexTwo(a: seq<Child>, b: seq<Child>, end: int, start: int)
    requires ByIndex(a) && ByIndex(b) && end <= start
    requires forall c :: c in a && c.RowNode? ==> c.rowIndex < end
    requires forall c :: c in b && c.RowNode? ==> c.rowIndex >= start
    ensures ByIndex(a + b)
  {
    var s := a + b;
    forall i, j | 0 <= i < j < |s| && s[i].RowNode? && s[j].RowNode? ensures s[i].rowIndex < s[j].rowIndex {
      assert if i < |a| then s[i] in a else s[i] in b;
      assert if j < |a| then s[j] in a else s[j] in b;
    }
  }

  /** Then no two rows have the same index. */
  lemma IndexMeans(s: seq<Child>)
    requires ByIndex(s)
    ensures forall x, y :: x in s && y in s && x.RowNode? && y.RowNode? && x.rowIndex == y.rowIndex ==> x == y
  {
  }

  /** Rows in the order of their indices. */
  lemma IndexOrder(s: seq<Child>, x: Child, y: Child)
    requires x in s && y in s && x.RowNode? && y.RowNode? && x.rowIndex < y.rowIndex
    requires ByIndex(s)
    ensures InOrder(s, x, y)
  {
  }

  lemma WithoutInFront(rest: seq<Child>, tail: seq<Child>, x: Child)
    requires x !in tail
    ensures Without(rest + tail, x) == Without(rest, x) + tail
  {
    hide Position;
    if x in rest {
      var a, b := rest[..Position(rest, x)], rest[Position(rest, x) + 1..];
      Split(rest, x);
      assert rest + tail == a + [x] + (b + tail);
      PositionAt(a, x, b + tail);
    }
  }

  lemma WithoutInMiddle(head: seq<Child>, rest: seq<Child>, tail: seq<Child>, x: Child)
    requires x !in head && x !in tail
    ensures Without(head + rest + tail, x) == head + (Without(rest, x) + tail)
  {
    hide Without;
    assert head + rest + tail == head + (rest + tail);
    WithoutInTail(head, rest + tail, x);
    WithoutInFront(rest, tail, x);
  }

  lemma FirstKept(rest: seq<Child>, x: Child)
    requires rest != [] ==> rest[0] != x
    ensures rest != [] ==> Without(rest, x) != [] && Without(rest, x)[0] == rest[0]
    ensures rest == [] ==> Without(rest, x) == []
  {
  }

  lemma UnsharedMore(s: seq<Child>, more: seq<Child>, selected: seq<Child>, x: Child)
    requires ScrollPort.Unshared(s, selected) && (forall c :: c in more ==> c in s || c == x)
    requires x.RowNode? && forall c :: c in selected ==> c.RowNode? && c.rowIndex != x.rowIndex
    ensures ScrollPort.Unshared(more, selected)
  {
  }

  /** Passing the first node, selected or not, leaves the others in place. */
  lemma FirstPassed(head: seq<Child>, rest: seq<Child>, tail: seq<Child>, selected: seq<Child>)
    requires Distinct(head + rest + tail) && rest != [] && ScrollPort.Holds(rest, selected) && |selected| <= 2
    ensures selected != [] && selected[0] == rest[0] ==> ScrollPort.Holds(rest[1..], selected[1..])
    ensures rest[0] !in selected ==> ScrollPort.Holds(rest[1..], selected)
  {
    DistinctPart(head, rest, tail);
    assert rest == [] + [rest[0]] + rest[1..];
    PositionAt([], rest[0], rest[1..]);
    assert [] + rest[1..] == rest[1..];
    if rest[0] !in selected {
      FoldOut(rest, rest[0], selected);
    } else if |selected| == 2 && selected[0] == rest[0] {
      WithoutKeeps(rest, rest[0], selected[1]);
    }
  }

  lemma SameIndexSameRow(s: seq<Child>, selected: seq<Child>, node: Child)
    requires ScrollPort.Unshared(s, selected) && node in s && node.RowNode?
    ensures forall c :: c in selected && c.RowNode? && c.rowIndex == node.rowIndex ==> c == node
  {
  }

  lemma NothingHeld(s: seq<Child>)
    ensures ScrollPort.Holds(s, [])
  {
  }

  /** The children around the first selected row. */
  lemma AroundFirst(w: seq<Child>, selected: seq<Child>) returns (a: seq<Child>, rest: seq<Child>)
    requires Distinct(w) && ScrollPort.Holds(w, selected) && 1 <= |selected| <= 2
    ensures w == a + [selected[0]] + rest && ScrollPort.Holds(rest, selected[1..])
    ensures forall c :: c in selected ==> c !in a
  {
    hide Position, InOrder, Distinct;
    if |selected| == 1 {
      a, rest := AroundOne(w, selected[0]);
    } else {
      var m, b;
      a, m, b := AroundBoth(w, selected[0], selected[1]);
      rest := m + [selected[1]] + b;
      assert selected[1] in rest;
    }
  }

  /** The children around the last selected row. */
  lemma AroundLast(w: seq<Child>, selected: seq<Child>) returns (a: seq<Child>, rest: seq<Child>)
    requires Distinct(w) && ScrollPort.Holds(w, selected) && 1 <= |selected| <= 2
    ensures w == a + [selected[|selected| - 1]] + rest && ScrollPort.Holds(a, selected[..|selected| - 1])
    ensures forall c :: c in selected ==> c !in rest
    ensures forall c :: c in a || c in rest ==> c in w
  {
    hide Position, InOrder, Distinct;
    if |selected| == 1 {
      a, rest := AroundOne(w, selected[0]);
    } else {
      var f, m;
      f, m, rest := AroundBoth(w, selected[0], selected[1]);
      a := f + [selected[0]] + m;
      assert selected[0] in a;
    }
  }

  lemma DistinctTail(head: seq<Child>, rest: seq<Child>)
    requires Distinct(head + rest)
    ensures Distinct(rest) && forall c :: c in rest ==> c !in head
  {
    assert head + rest + [] == head + rest;
    DistinctPart(head, rest, []);
  }

  lemma WithoutInTail(head: seq<Child>, rest: seq<Child>, x: Child)
    requires x !in head
    ensures Without(head + rest, x) == head + Without(rest, x)
  {
      hide Position;
    if x in rest {
      var a, b := rest[..Position(rest, x)], rest[Position(rest, x) + 1..];
      assert head + rest == (head + a) + [x] + b;
      PositionAt(head + a, x, b);
    }
  }

  lemma LastStays(s: seq<Child>, fold: Child)
    requires Distinct(s) && s != []
    ensures s[|s| - 1] == fold ==> s == Without(s, fold) + [fold]
  {
    if s[|s| - 1] == fold {
      assert s == s[..|s| - 1] + [fold] + [];
      DistinctAround(s[..|s| - 1], fold, []);
      PositionAt(s[..|s| - 1], fold, []);
    }
  }

  lemma AroundOne(w: seq<Child>, x: Child) returns (a: seq<Child>, rest: seq<Child>)
    requires Distinct(w) && x in w
    ensures w == a + [x] + rest && x !in a && x !in rest
  {
    a, rest := w[..Position(w, x)], w[Position(w, x) + 1..];
    Split(w, x);
    DistinctAround(a, x, rest);
  }

  /** The children around two selected rows. */
  lemma AroundBoth(w: seq<Child>, start: Child, end: Child) returns (a: seq<Child>, m: seq<Child>, b: seq<Child>)
    requires Distinct(w) && InOrder(w, start, end)
    ensures w == a + [start] + m + [end] + b
    ensures start !in a && start !in m && start !in b && end !in a && end !in m && end !in b
  {
      hide Distinct;
    OrderSplit(w, start, end);
    a, m, b := w[..Position(w, start)], w[Position(w, start) + 1..Position(w, end)], w[Position(w, end) + 1..];
    DistinctAround(a + [start] + m, end, b);
    Regroup(a, start, m, end, b);
    DistinctAround(a, start, m + [end] + b);
  }

  lemma HeldInOrder(s: seq<Child>, x: Child, y: Child)
    requires ScrollPort.Holds(s, [x, y])
    ensures InOrder(s, x, y)
  {
  }

  lemma HeldAreIn(s: seq<Child>, selected: seq<Child>)
    requires ScrollPort.Holds(s, selected) && |selected| <= 2
    ensures forall c :: c in selected ==> c in s
  {
  }

  /** Taking a fold out leaves the selected rows in place. */
  lemma FoldOut(s: seq<Child>, fold: Child, selected: seq<Child>)
    requires Distinct(s) && ScrollPort.Holds(s, selected) && fold !in selected
    ensures ScrollPort.Holds(Without(s, fold), selected) && Distinct(Without(s, fold)) && fold !in Without(s, fold)
    ensures forall c :: c in Without(s, fold) ==> c in s
  {
    WithoutGone(s, fold);
    if |selected| == 1 {
      WithoutKeeps(s, fold, selected[0]);
    } else if |selected| == 2 {
      OrderWithout(s, selected[0], selected[1], fold);
    }
  }

  lemma FirstStays(s: seq<Child>, fold: Child)
    requires fold in s && Distinct(s)
    ensures if s[0] == fold then s == [fold] + Without(s, fold)
            else Without(s, fold) != [] && Without(s, fold)[0] == s[0]
  {
  }

  lemma UnsharedPart(s: seq<Child>, part: seq<Child>, selected: seq<Child>)
    requires ScrollPort.Unshared(s, selected) && forall c :: c in part && c.RowNode? ==> c in s
    ensures ScrollPort.Unshared(part, selected)
  {
  }

  lemma FirstAfter(s: seq<Child>, a: seq<Child>, start: Child, m: seq<Child>, end: Child, b: seq<Child>)
    requires Distinct(s) && s == a + [start] + m + [end] + b
    ensures Next(s, start) == Some((m + [end])[0]) && (m != [] ==> m[0] != end)
  {
    assert s == a + [start] + (m + [end] + b);
    DistinctAround(a, start, m + [end] + b);
    NextAt(a, start, m + [end] + b);
    DistinctAround(a + [start] + m, end, b);
  }

  /** A fold that is right behind a node already. */
  lemma FoldIsBehind(s: seq<Child>, front: seq<Child>, node: Child, fold: Child, a: seq<Child>, b: seq<Child>)
    requires Distinct(s) && Without(s, fold) == a + [node] + b && fold != node
    ensures front + [node] + [fold] <= s ==> Next(s, node) == Some(fold) && a == front
  {
    if front + [node] + [fold] <= s {
      var rest := s[|front| + 2..];
      assert s == front + [node] + ([fold] + rest) == (front + [node]) + [fold] + rest;
      DistinctAround(front, node, [fold] + rest);
      DistinctAround(front + [node], fold, rest);
      NextAt(front, node, [fold] + rest);
      PositionAt(front + [node], fold, rest);
      SplitOnce(front, node, rest, a, b);
    }
  }

  /** A fold that is right in front of a node already. */
  lemma FoldIsInFront(s: seq<Child>, fold: Child, node: Child, back: seq<Child>, a: seq<Child>, b: seq<Child>)
    requires Distinct(s) && Without(s, fold) == a + [node] + b && fold != node
    ensures |back| + 2 <= |s| && s[|s| - |back| - 2..] == [fold] + ([node] + back) ==>
      Next(s, fold) == Some(node) && b == back
  {
    if |back| + 2 <= |s| && s[|s| - |back| - 2..] == [fold] + ([node] + back) {
      var front := s[..|s| - |back| - 2];
      assert s == front + [fold] + ([node] + back);
      DistinctAround(front, fold, [node] + back);
      NextAt(front, fold, [node] + back);
      PositionAt(front, fold, [node] + back);
      assert front + ([node] + back) == front + [node] + back;
      SplitOnce(front, node, back, a, b);
    }
  }

  lemma StartIsFirst(a: seq<Child>, start: Child, m: seq<Child>)
    ensures a + [start] + m == [start] ==> a == [] && m == []
  {
    if a + [start] + m == [start] {
      assert |a| + 1 + |m| == 1;
    }
  }

  /** What the siblings of a node and of a fold tell about the place of the fold. */
  lemma PlaceFacts(s: seq<Child>, fold: Child, node: Child, a: seq<Child>, b: seq<Child>)
    requires Distinct(s) && Without(s, fold) == a + [node] + b && fold != node
    ensures if Next(s, node) == Some(fold) then s == a + [node] + [fold] + b
            else Next(s, node) == if b == [] then None else Some(b[0])
    ensures Next(s, fold) == Some(node) ==> s == a + [fold] + [node] + b
  {
    hide Next, Distinct, Without, Position;
    var w := a + [node] + b;
    WithoutGone(s, fold);
    DistinctAround(a, node, b);
    PositionAt(a, node, b);
    if fold !in s {
      Unattached(s, fold);
      NextAt(a, node, b);
    } else {
      var k := Position(s, fold);
      WithoutSplit(s, fold);
      if k <= |a| {
        assert s == a[..k] + [fold] + (a[k..] + [node] + b);
        FoldInFront(a[..k], fold, a[k..], node, b);
        assert a[..k] + a[k..] == a;
      } else {
        var j := k - |a| - 1;
        assert s == a + [node] + (b[..j] + [fold] + b[j..]);
        FoldBehind(a, node, b[..j], fold, b[j..]);
        assert b[..j] + b[j..] == b;
      }
    }
  }

  lemma Unattached(s: seq<Child>, x: Child)
    requires x !in s
    ensures Without(s, x) == s && Next(s, x) == None
  {
  }

  lemma FoldInFront(a: seq<Child>, fold: Child, m: seq<Child>, node: Child, b: seq<Child>)
    requires Distinct(a + [fold] + (m + [node] + b))
    ensures var s := a + [fold] + (m + [node] + b);
            Next(s, node) == (if b == [] then None else Some(b[0])) && Next(s, node) != Some(fold) &&
            (Next(s, fold) == Some(node) ==> m == [])
  {
    var s := a + [fold] + (m + [node] + b);
    DistinctAround(a, fold, m + [node] + b);
    NextAt(a, fold, m + [node] + b);
    assert s == (a + [fold] + m) + [node] + b;
    DistinctAround(a + [fold] + m, node, b);
    NextAt(a + [fold] + m, node, b);
    assert b != [] ==> b[0] in m + [node] + b;
  }

  lemma FoldBehind(a: seq<Child>, node: Child, m: seq<Child>, fold: Child, b: seq<Child>)
    requires Distinct(a + [node] + (m + [fold] + b))
    ensures var s := a + [node] + (m + [fold] + b);
            (if Next(s, node) == Some(fold) then m == [] else m != [] && Next(s, node) == Some(m[0])) &&
            Next(s, fold) != Some(node)
  {
    var s := a + [node] + (m + [fold] + b);
    DistinctAround(a, node, m + [fold] + b);
    NextAt(a, node, m + [fold] + b);
    assert s == (a + [node] + m) + [fold] + b;
    DistinctAround(a + [node] + m, fold, b);
    NextAt(a + [node] + m, fold, b);
    assert b != [] ==> b[0] in m + [fold] + b;
  }
}
