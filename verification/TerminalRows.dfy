/**
 The row elements of a terminal: one global list (scrollback, then the active screen) and the rows of
 the inactive screen.  Facts about adding, moving and renumbering them.
 */
module TerminalRows {
  import opened Common
  import opened TextAttributes
  import opened Cells
  import opened Screens
  import opened Grids

  function EntryOf(row: Row): Entry {
    Entry(row.id, RowCells(row.nodes))
  }

  /** What a list of rows shows. */
  function View(rows: seq<Row>): (entries: seq<Entry>)
    ensures |entries| == |rows|
    ensures forall i :: 0 <= i < |rows| ==> entries[i] == EntryOf(rows[i])
  {
    seq(|rows|, i requires 0 <= i < |rows| => EntryOf(rows[i]))
  }

  /** A row that respects the right margin. */
  predicate RowFits(row: Row, width: nat) {
    RowOk(row.nodes) && row.nodes != [] && |RowCells(row.nodes)| <= width
  }

  predicate RowsFit(rows: seq<Row>, width: nat) {
    forall i :: 0 <= i < |rows| ==> RowFits(rows[i], width)
  }

  /** Every row knows its position. */
  predicate Indexed(rows: seq<Row>, offset: int) {
    forall i :: 0 <= i < |rows| ==> rows[i].rowIndex == offset + i
  }

  predicate IdsBelow(rows: seq<Row>, nextId: nat) {
    forall i :: 0 <= i < |rows| ==> rows[i].id < nextId
  }

  predicate Disjoint(a: seq<Row>, b: seq<Row>) {
    forall i, j :: 0 <= i < |a| && 0 <= j < |b| ==> a[i].id != b[j].id
  }

  /** Every row element is in exactly one place, and every row is in good order. */
  predicate Store(all: seq<Row>, other: seq<Row>, width: nat, nextId: nat) {
    RowsFit(all, width) && RowsFit(other, width) &&
    DistinctIds(all) && DistinctIds(other) && Disjoint(all, other) &&
    IdsBelow(all, nextId) && IdsBelow(other, nextId)
  }

  /** A fresh row, as `appendRows_` and `insertRow_` create it. */
  function NewRow(id: nat, rowIndex: int): Row {
    Row(id, rowIndex, false, [BareTextNode([])])
  }

  function NewRows(id: nat, rowIndex: int, count: nat): (rows: seq<Row>)
    ensures |rows| == count && forall i :: 0 <= i < count ==> rows[i] == NewRow(id + i, rowIndex + i)
  {
    seq(count, i requires 0 <= i < count => NewRow(id + i, rowIndex + i))
  }

  lemma NewRowsView(id: nat, rowIndex: int, count: nat)
    ensures View(NewRows(id, rowIndex, count)) == BlankEntries(id, count)
  {
    var rows := NewRows(id, rowIndex, count);
    forall i | 0 <= i < |rows| ensures EntryOf(rows[i]) == Entry(id + i, []) {
      NewRowFits(id + i, rowIndex + i, 0);
    }
  }

  /** Fresh rows at the end of the global list. */
  lemma StoreAppend(all: seq<Row>, other: seq<Row>, width: nat, nextId: nat, count: nat)
    requires Store(all, other, width, nextId) && Indexed(all, 0)
    ensures Store(all + NewRows(nextId, |all|, count), other, width, nextId + count)
    ensures Indexed(all + NewRows(nextId, |all|, count), 0)
    ensures View(all + NewRows(nextId, |all|, count)) == View(all) + BlankEntries(nextId, count)
  {
    hide RowFits, EntryOf;
    var added := NewRows(nextId, |all|, count);
    forall i | 0 <= i < count ensures RowFits(added[i], width) {
      NewRowFits(nextId + i, |all| + i, width);
    }
    NewRowsView(nextId, |all|, count);
    ViewAppend(all, added);
  }

  lemma NewRowFits(id: nat, rowIndex: int, width: nat)
    ensures RowFits(NewRow(id, rowIndex), width) && EntryOf(NewRow(id, rowIndex)) == Entry(id, [])
  {
    EmptyTextRow();
  }

  /** A fresh row anywhere in the global list. */
  lemma StoreInsert(all: seq<Row>, other: seq<Row>, width: nat, nextId: nat, at: nat, row: Row)
    requires Store(all, other, width, nextId) && at <= |all| && row.id == nextId && RowFits(row, width)
    ensures Store(all[..at] + [row] + all[at..], other, width, nextId + 1)
  {
    hide RowFits;
    var all' := all[..at] + [row] + all[at..];
    assert forall i :: 0 <= i < |all'| ==> all'[i] == if i < at then all[i] else if i == at then row else all[i - 1];
  }

  /** Rows whose order, indices and contents change, but not their identities as a whole. */
  lemma StoreRearranged(all: seq<Row>, other: seq<Row>, width: nat, nextId: nat, all': seq<Row>, source: int -> int)
    requires Store(all, other, width, nextId) && |all'| == |all| && RowsFit(all', width)
    requires forall i :: 0 <= i < |all| ==> 0 <= source(i) < |all| && all'[i].id == all[source(i)].id
    requires forall i, j :: 0 <= i < j < |all| ==> source(i) != source(j)
    ensures Store(all', other, width, nextId)
  {
    hide RowFits;
    forall i, j | 0 <= i < j < |all'| ensures all'[i].id != all'[j].id {
      assert source(i) != source(j);
    }
  }

  /** One row edited in place. */
  lemma StoreEdited(all: seq<Row>, other: seq<Row>, width: nat, nextId: nat, k: nat, row: Row)
    requires Store(all, other, width, nextId) && k < |all| && row.id == all[k].id && RowFits(row, width)
    ensures Store(all[k := row], other, width, nextId)
    ensures View(all[k := row]) == View(all)[k := EntryOf(row)]
  {
    hide RowFits;
  }

  /** Some rows leave. */
  lemma StoreSlice(all: seq<Row>, other: seq<Row>, width: nat, nextId: nat, from: nat, to: nat)
    requires Store(all, other, width, nextId) && from <= to <= |all|
    ensures Store(all[from..to], other, width, nextId)
  {
    hide RowFits;
  }

  lemma StoreSwap(all: seq<Row>, other: seq<Row>, width: nat, nextId: nat, at: nat)
    requires Store(all, other, width, nextId) && at <= |all|
    ensures Store(all[..at] + other, all[at..], width, nextId)
  {
    hide RowFits;
  }

  lemma CachedSlice(all: seq<Row>, kept: nat, cursorRowNode: Option<nat>, node: int, offset: int, column: int)
    requires Cached(all, cursorRowNode, node, offset, column) && kept <= |all|
    ensures Cached(all[0..kept], cursorRowNode, node, offset, column)
  {
    hide CursorAt;
  }

  lemma CachedNone(all: seq<Row>, node: int, offset: int, column: int)
    ensures Cached(all, None, node, offset, column)
  {
  }

  lemma ViewLength(rows: seq<Row>)
    ensures |View(rows)| == |rows|
  {
  }

  lemma ViewAppend(a: seq<Row>, b: seq<Row>)
    ensures View(a + b) == View(a) + View(b)
  {
    hide EntryOf;
  }

  lemma ViewSlice(rows: seq<Row>, from: nat, to: nat)
    requires from <= to <= |rows|
    ensures View(rows[from..to]) == View(rows)[from..to]
  {
    hide EntryOf;
  }

  /** What is stored looks like a grid in good order. */
  lemma StoreView(all: seq<Row>, other: seq<Row>, width: nat, nextId: nat)
    requires Store(all, other, width, nextId)
    ensures Fits(View(all), width) && DistinctEntries(View(all))
    ensures forall i :: 0 <= i < |all| ==> View(all)[i].id < nextId
  {
    hide Paired, RowCells;
    forall i | 0 <= i < |all| ensures Paired(View(all)[i].line) {
      RowCellsPaired(all[i].nodes);
    }
  }

  /** Rows given new indices show what they showed. */
  predicate SameButIndex(a: seq<Row>, b: seq<Row>) {
    |a| == |b| && forall i :: 0 <= i < |a| ==> b[i] == a[i].(rowIndex := b[i].rowIndex)
  }

  lemma SameView(a: seq<Row>, b: seq<Row>)
    requires SameButIndex(a, b)
    ensures View(a) == View(b)
  {
  }

  lemma SameRows(rows: seq<Row>, rows': seq<Row>)
    requires SameButIndex(rows, rows')
    ensures |rows'| == |rows| && forall i :: 0 <= i < |rows| ==>
      rows'[i].id == rows[i].id &&
      rows'[i].nodes == rows[i].nodes
    ensures (RowsOk(rows) ==> RowsOk(rows')) && (DistinctIds(rows) ==> DistinctIds(rows'))
  {
    hide RowOk;
  }

  /** A cursor cache tells the truth about the row it was made for, wherever that row is. */
  predicate Cached(rows: seq<Row>, cursorRowNode: Option<nat>, node: int, offset: int, column: int) {
    forall i :: 0 <= i < |rows| && Some(rows[i].id) == cursorRowNode ==> CursorAt(rows[i].nodes, node, offset, column)
  }

  /** Fresh rows are not the row of the cursor. */
  lemma CachedAppend(all: seq<Row>, nextId: nat, count: nat, cursorRowNode: Option<nat>, node: int, offset: int,
                     column: int)
    requires Cached(all, cursorRowNode, node, offset, column) && (cursorRowNode.Some? ==> cursorRowNode.value < nextId)
    ensures Cached(all + NewRows(nextId, |all|, count), cursorRowNode, node, offset, column)
  {
    hide CursorAt;
  }

  lemma CachedOne(all: seq<Row>, k: nat, node: int, offset: int, column: int)
    requires DistinctIds(all) && k < |all| && CursorAt(all[k].nodes, node, offset, column)
    ensures Cached(all, Some(all[k].id), node, offset, column)
  {
    hide CursorAt;
  }

  lemma CachedOnScreen(scrollback: seq<Row>, rows: seq<Row>, k: int, node: int, offset: int, column: int)
    requires DistinctIds(scrollback + rows) && 0 <= k < |rows| && CursorAt(rows[k].nodes, node, offset, column)
    ensures Cached(scrollback + rows, Some(rows[k].id), node, offset, column)
  {
    hide CursorAt;
    assert (scrollback + rows)[|scrollback| + k] == rows[k];
    CachedOne(scrollback + rows, |scrollback| + k, node, offset, column);
  }

  lemma StoreFacts(all: seq<Row>, other: seq<Row>, width: nat, nextId: nat)
    requires Store(all, other, width, nextId)
    ensures DistinctIds(all) && IdsBelow(all, nextId) && RowsFit(all, width)
  {
  }

  /** Take `count` rows out and put them back at `to`. */
  function Moved(rows: seq<Row>, from: nat, count: nat, to: nat): (moved: seq<Row>)
    requires from + count <= |rows| && to + count <= |rows|
    ensures |moved| == |rows|
  {
    var rest := rows[..from] + rows[from + count..];
    rest[..to] + rows[from..from + count] + rest[to..]
  }

  /** Where the row at `i` comes from. */
  function MovedSource(from: nat, count: nat, to: nat, i: int): int {
    if to <= i < to + count then i - to + from
    else if from <= i < to then i + count
    else if to + count <= i < from + count then i - count
    else i
  }

  lemma MovedAt(rows: seq<Row>, from: nat, count: nat, to: nat, i: nat)
    requires from + count <= |rows| && to + count <= |rows| && i < |rows|
    ensures 0 <= MovedSource(from, count, to, i) < |rows|
    ensures Moved(rows, from, count, to)[i] == rows[MovedSource(from, count, to, i)]
  {
  }

  lemma MovedSourceInjective(from: nat, count: nat, to: nat, i: int, j: int)
    requires i != j
    ensures MovedSource(from, count, to, i) != MovedSource(from, count, to, j)
  {
  }

  /** Moved rows, renumbered, are the same rows. */
  lemma StoreMoved(scrollback: seq<Row>, rows: seq<Row>, other: seq<Row>, width: nat, nextId: nat,
                   from: nat, count: nat, to: nat, rows': seq<Row>)
    requires Store(scrollback + rows, other, width, nextId)
    requires from + count <= |rows| && to + count <= |rows| && SameButIndex(Moved(rows, from, count, to), rows')
    ensures Store(scrollback + rows', other, width, nextId)
  {
    hide RowFits, Moved;
    var all, all' := scrollback + rows, scrollback + rows';
    var n := |scrollback|;
    var source := i => if i < n then i else n + MovedSource(from, count, to, i - n);
    forall i | 0 <= i < |all'|
      ensures 0 <= source(i) < |all| && all'[i] == all[source(i)].(rowIndex := all'[i].rowIndex)
    {
      if i >= n {
        MovedAt(rows, from, count, to, i - n);
      }
    }
    forall i, j | 0 <= i < j < |all| ensures source(i) != source(j) {
      if i >= n {
        MovedSourceInjective(from, count, to, i - n, j - n);
      } else if j >= n {
        MovedAt(rows, from, count, to, j - n);
      }
    }
    forall i | 0 <= i < |all'| ensures RowFits(all'[i], width) {
      FitsWithIndex(all[source(i)], all'[i].rowIndex, width);
    }
    StoreRearranged(all, other, width, nextId, all', source);
  }

  lemma FitsWithIndex(row: Row, rowIndex: int, width: nat)
    ensures RowFits(row, width) ==> RowFits(row.(rowIndex := rowIndex), width)
  {
  }

  lemma CachedMoved(scrollback: seq<Row>, rows: seq<Row>, from: nat, count: nat, to: nat, rows': seq<Row>,
                    cursorRowNode: Option<nat>, node: int, offset: int, column: int)
    requires from + count <= |rows| && to + count <= |rows| && SameButIndex(Moved(rows, from, count, to), rows')
    requires Cached(scrollback + rows, cursorRowNode, node, offset, column)
    ensures Cached(scrollback + rows', cursorRowNode, node, offset, column)
  {
    hide CursorAt;
    var all, all' := scrollback + rows, scrollback + rows';
    var n := |scrollback|;
    forall i | 0 <= i < |all'| && Some(all'[i].id) == cursorRowNode
      ensures CursorAt(all'[i].nodes, node, offset, column)
    {
      if i < n {
        assert all'[i] == all[i];
      } else {
        MovedAt(rows, from, count, to, i - n);
        assert all'[i].nodes == all[n + MovedSource(from, count, to, i - n)].nodes;
      }
    }
  }

  lemma ClearedNone(entries: seq<Entry>, from: nat, cleared: Line)
    requires from <= |entries|
    ensures ClearedRange(entries, from, 0, cleared) == entries
  {
  }

  /** One more line cleared at the end of the range. */
  lemma ClearedMore(entries: seq<Entry>, from: nat, n: nat, cleared: Line)
    requires from + n < |entries|
    ensures |ClearedRange(entries, from, n, cleared)| == |entries|
    ensures var before := ClearedRange(entries, from, n, cleared);
            before[from + n := Entry(before[from + n].id, cleared)] == ClearedRange(entries, from, n + 1, cleared)
  {
  }

  /** One more line cleared in front of the range. */
  lemma ClearedLess(entries: seq<Entry>, from: nat, n: nat, cleared: Line)
    requires 0 < from && from + n <= |entries|
    ensures |ClearedRange(entries, from, n, cleared)| == |entries|
    ensures var before := ClearedRange(entries, from, n, cleared);
            before[from - 1 := Entry(before[from - 1].id, cleared)] == ClearedRange(entries, from - 1, n + 1, cleared)
  {
  }

  /** The same in the global list. */
  function GlobalSource(top: nat, from: nat, count: nat, to: nat, i: int): int {
    if i < top then i else top + MovedSource(from, count, to, i - top)
  }

  /** What the moved rows show. */
  lemma MovedView(scrollback: seq<Row>, rows: seq<Row>, from: nat, count: nat, to: nat, rows': seq<Row>, i: nat)
    requires from + count <= |rows| && to + count <= |rows| && SameButIndex(Moved(rows, from, count, to), rows')
    requires i < |scrollback| + |rows|
    ensures 0 <= GlobalSource(|scrollback|, from, count, to, i) < |scrollback| + |rows|
    ensures View(scrollback + rows')[i] == View(scrollback + rows)[GlobalSource(|scrollback|, from, count, to, i)]
  {
    hide RowCells, Moved;
    if i >= |scrollback| {
      MovedAt(rows, from, count, to, i - |scrollback|);
    }
  }

  lemma ClearedRangeAt(entries: seq<Entry>, from: nat, n: nat, cleared: Line, i: nat)
    requires from + n <= |entries| && i < |entries|
    ensures |ClearedRange(entries, from, n, cleared)| == |entries|
    ensures ClearedRange(entries, from, n, cleared)[i]
         == if from <= i < from + n then Entry(entries[i].id, cleared) else entries[i]
  {
  }

  lemma UpFromMoved(a: seq<Entry>, b: seq<Entry>, from: nat, to: nat, n: nat, cleared: Line)
    requires |a| == |b| && from + n <= to <= |a|
    requires forall i :: 0 <= i < |a| ==> b[i] == a[UpSource(from, to, n, i)]
    ensures ClearedRange(b, to - n, n, cleared) == RotateUp(a, from, to, n, cleared)
  {
    hide ClearedRange, RotateUp;
    var left, right := ClearedRange(b, to - n, n, cleared), RotateUp(a, from, to, n, cleared);
    ClearedRangeLength(b, to - n, n, cleared);
    forall i | 0 <= i < |left| ensures left[i] == right[i] {
      ClearedRangeAt(b, to - n, n, cleared, i);
      RotateUpAt(a, from, to, n, cleared, i);
    }
  }

  lemma DownFromMoved(a: seq<Entry>, b: seq<Entry>, from: nat, to: nat, n: nat, cleared: Line)
    requires |a| == |b| && from + n <= to <= |a|
    requires forall i :: 0 <= i < |a| ==> b[i] == a[DownSource(from, to, n, i)]
    ensures ClearedRange(b, from, n, cleared) == RotateDown(a, from, to, n, cleared)
  {
    hide ClearedRange, RotateDown;
    var left, right := ClearedRange(b, from, n, cleared), RotateDown(a, from, to, n, cleared);
    ClearedRangeLength(b, from, n, cleared);
    forall i | 0 <= i < |left| ensures left[i] == right[i] {
      ClearedRangeAt(b, from, n, cleared, i);
      RotateDownAt(a, from, to, n, cleared, i);
    }
  }

  lemma ClearedRangeLength(entries: seq<Entry>, from: nat, n: nat, cleared: Line)
    requires from + n <= |entries|
    ensures |ClearedRange(entries, from, n, cleared)| == |entries|
  {
  }

  lemma SourceIsUp(top: nat, from: nat, to: nat, n: nat, i: nat)
    requires from + n <= to
    ensures UpSource(top + from, top + to, n, i) == GlobalSource(top, from, n, to - n, i)
  {
  }

  lemma SourceIsDown(top: nat, from: nat, to: nat, n: nat, i: nat)
    requires from + n <= to
    ensures DownSource(top + from, top + to, n, i) == GlobalSource(top, from, to - from - n, from + n, i)
  {
  }

  /** Moving the first rows of a stretch to its end and clearing them there rotates the stretch. */
  lemma DeletedView(scrollback: seq<Row>, rows: seq<Row>, rows': seq<Row>, from: nat, to: nat, n: nat, cleared: Line)
    requires from + n <= to <= |rows| && SameButIndex(Moved(rows, from, n, to - n), rows')
    ensures |scrollback| + to <= |View(scrollback + rows')|
    ensures ClearedRange(View(scrollback + rows'), |scrollback| + to - n, n, cleared)
         == RotateUp(View(scrollback + rows), |scrollback| + from, |scrollback| + to, n, cleared)
  {
    hide EntryOf, Moved, ClearedRange, RotateUp;
    var a, b := View(scrollback + rows), View(scrollback + rows');
    var s := |scrollback|;
    forall i | 0 <= i < |a| ensures b[i] == a[UpSource(s + from, s + to, n, i)] {
      MovedView(scrollback, rows, from, n, to - n, rows', i);
      SourceIsUp(s, from, to, n, i);
    }
    UpFromMoved(a, b, s + from, s + to, n, cleared);
  }

  /** Moving the other rows of a stretch down makes room at its start. */
  lemma InsertedView(scrollback: seq<Row>, rows: seq<Row>, rows': seq<Row>, from: nat, to: nat, n: nat, cleared: Line)
    requires from + n <= to <= |rows| && SameButIndex(Moved(rows, from, to - from - n, from + n), rows')
    ensures |scrollback| + to <= |View(scrollback + rows')|
    ensures ClearedRange(View(scrollback + rows'), |scrollback| + from, n, cleared)
         == RotateDown(View(scrollback + rows), |scrollback| + from, |scrollback| + to, n, cleared)
  {
    hide EntryOf, Moved, ClearedRange, RotateDown;
    var a, b := View(scrollback + rows), View(scrollback + rows');
    var s := |scrollback|;
    forall i | 0 <= i < |a| ensures b[i] == a[DownSource(s + from, s + to, n, i)] {
      MovedView(scrollback, rows, from, to - from - n, from + n, rows', i);
      SourceIsDown(s, from, to, n, i);
    }
    DownFromMoved(a, b, s + from, s + to, n, cleared);
  }

  lemma StoreReindexed(all: seq<Row>, other: seq<Row>, width: nat, nextId: nat, all': seq<Row>)
    requires Store(all, other, width, nextId) && SameButIndex(all, all')
    ensures Store(all', other, width, nextId)
  {
    hide RowFits;
    forall i | 0 <= i < |all'| ensures RowFits(all'[i], width) {
      FitsWithIndex(all[i], all'[i].rowIndex, width);
    }
  }

  lemma CachedReindexed(all: seq<Row>, all': seq<Row>, cursorRowNode: Option<nat>, node: int, offset: int, column: int)
    requires Cached(all, cursorRowNode, node, offset, column) && SameButIndex(all, all')
    ensures Cached(all', cursorRowNode, node, offset, column)
  {
    hide CursorAt;
  }

  /** A fresh row in the middle, with the rows behind it renumbered. */
  lemma StoreInserted(all: seq<Row>, other: seq<Row>, width: nat, nextId: nat, at: nat, rowIndex: int, all': seq<Row>,
                      cursorRowNode: Option<nat>, node: int, offset: int, column: int)
    requires Store(all, other, width, nextId) && at <= |all|
    requires SameButIndex(all[..at] + [NewRow(nextId, rowIndex)] + all[at..], all')
    requires Cached(all, cursorRowNode, node, offset, column) && (cursorRowNode.Some? ==> cursorRowNode.value < nextId)
    ensures Store(all', other, width, nextId + 1) && Cached(all', cursorRowNode, node, offset, column)
    ensures View(all') == View(all)[..at] + BlankEntries(nextId, 1) + View(all)[at..]
  {
    hide RowFits, EntryOf, CursorAt, NewRow;
    var row := NewRow(nextId, rowIndex);
    NewRowFits(nextId, rowIndex, width);
    NewRowId(nextId, rowIndex);
    StoreInsert(all, other, width, nextId, at, row);
    StoreReindexed(all[..at] + [row] + all[at..], other, width, nextId + 1, all');
    CachedInsert(all, at, row, cursorRowNode, node, offset, column);
    CachedReindexed(all[..at] + [row] + all[at..], all', cursorRowNode, node, offset, column);
    SameView(all[..at] + [row] + all[at..], all');
    ViewAppend(all[..at] + [row], all[at..]);
    ViewAppend(all[..at], [row]);
    ViewSlice(all, 0, at);
    ViewSlice(all, at, |all|);
    assert View([row]) == BlankEntries(nextId, 1);
  }

  /** The rows behind the first `n`, and those of the other screen, with new indices. */
  lemma ReindexedBoth(all: seq<Row>, other: seq<Row>, width: nat, nextId: nat, n: nat, rows': seq<Row>,
                      other': seq<Row>,
                      cursorRowNode: Option<nat>, node: int, offset: int, column: int)
    requires Store(all, other, width, nextId) && Cached(all, cursorRowNode, node, offset, column) && n <= |all|
    requires SameButIndex(all[n..|all|], rows') && SameButIndex(other, other')
    ensures Store(rows', other', width, nextId) && Cached(rows', cursorRowNode, node, offset, column)
    ensures n <= |View(all)| && View(rows') == View(all)[n..]
  {
    hide Store, View, Cached, SameButIndex;
    var rows := all[n..|all|];
    StoreSlice(all, other, width, nextId, n, |all|);
    StoreReindexed(rows, other, width, nextId, rows');
    StoreTurned(rows', other, width, nextId);
    StoreReindexed(other, rows', width, nextId, other');
    StoreTurned(other', rows', width, nextId);
    CachedTail(all, n, cursorRowNode, node, offset, column);
    CachedReindexed(rows, rows', cursorRowNode, node, offset, column);
    ViewSlice(all, n, |all|);
    ViewLength(all);
    SameView(rows, rows');
  }

  lemma StoreTurned(all: seq<Row>, other: seq<Row>, width: nat, nextId: nat)
    requires Store(all, other, width, nextId)
    ensures Store(other, all, width, nextId)
  {
    hide RowFits;
  }

  lemma CachedTail(all: seq<Row>, n: nat, cursorRowNode: Option<nat>, node: int, offset: int, column: int)
    requires Cached(all, cursorRowNode, node, offset, column) && n <= |all|
    ensures Cached(all[n..|all|], cursorRowNode, node, offset, column)
  {
    hide CursorAt;
  }

  lemma NewRowId(id: nat, rowIndex: int)
    ensures NewRow(id, rowIndex).id == id
  {
  }

  lemma CachedInsert(all: seq<Row>, at: nat, row: Row, cursorRowNode: Option<nat>, node: int, offset: int, column: int)
    requires Cached(all, cursorRowNode, node, offset, column) && at <= |all| && Some(row.id) != cursorRowNode
    ensures Cached(all[..at] + [row] + all[at..], cursorRowNode, node, offset, column)
  {
    hide CursorAt;
    var all' := all[..at] + [row] + all[at..];
    assert forall i :: 0 <= i < |all'| ==> all'[i] == if i < at then all[i] else if i == at then row else all[i - 1];
  }
}
