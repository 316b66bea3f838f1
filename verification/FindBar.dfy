/**
 `hterm.FindBar`: search results, their number, the sorted list of matching rows and the position of the
 selected result are kept up to date row by row.  They agree with a search from scratch.
 */
module FindBars {

  // ---------------------------------------------------------------- matches in a row

  predicate OccursAt(text: string, search: string, p: int) {
    0 <= p && p + |search| <= |text| && text[p..p + |search|] == search
  }

  /** `String.indexOf` for a text that is not empty. */
  function IndexOf(text: string, search: string, from: nat): (i: int)
    requires search != ""
    ensures i == -1 || (from <= i && OccursAt(text, search, i))
    ensures forall p :: from <= p && OccursAt(text, search, p) ==> 0 <= i <= p
    decreases |text| - from
  {
    if from + |search| > |text| then -1
    else if OccursAt(text, search, from) then from
    else IndexOf(text, search, from + 1)
  }

  /** The matches that a search from left to right finds, without overlaps. */
  function Matches(text: string, search: string, from: nat): (matches: seq<nat>)
    requires search != ""
    decreases |text| - from
  {
    var i := IndexOf(text, search, from);
    if i == -1 then [] else [i] + Matches(text, search, i + |search|)
  }

  /** Every match is an occurrence, and matches do not overlap. */
  lemma {:induction false} MatchesApart(text: string, search: string, from: nat, k: nat)
    requires search != "" && k < |Matches(text, search, from)|
    ensures var m := Matches(text, search, from)[k];
            from <= m && m + |search| <= |text| && text[m..m + |search|] == search
    ensures k > 0 ==> Matches(text, search, from)[k - 1] + |search| <= Matches(text, search, from)[k]
    decreases k
  {
    hide IndexOf;
    var i := IndexOf(text, search, from);
    var rest := Matches(text, search, i + |search|);
    assert Matches(text, search, from) == [i] + rest;
    if k > 0 {
      MatchesApart(text, search, i + |search|, k - 1);
    }
  }

  /** Every occurrence overlaps a match that starts no later: the search misses nothing. */
  lemma {:induction false} MatchesCover(text: string, search: string, from: nat, p: nat)
    requires search != "" && from <= p && p + |search| <= |text| && text[p..p + |search|] == search
    ensures exists k ::
      0 <= k < |Matches(text, search, from)| &&
      Matches(text, search, from)[k] <= p < Matches(text, search, from)[k] + |search|
    decreases |text| - from
  {
    assert OccursAt(text, search, p);
    var i := IndexOf(text, search, from);
    var ms := Matches(text, search, from);
    assert ms[0] == i;
    if p >= i + |search| {
      MatchesCover(text, search, i + |search|, p);
      var rest := Matches(text, search, i + |search|);
      var k :| 0 <= k < |rest| && rest[k] <= p < rest[k] + |search|;
      assert ms[k + 1] == rest[k];
    }
  }

  // ---------------------------------------------------------------- counting

  type Results = map<int, seq<nat>>

  function CountAt(results: Results, row: int): nat {
    if row in results then |results[row]| else 0
  }

  /** The number of results in the rows before `row`. */
  function Before(results: Results, row: int): nat
    decreases row
  {
    if row <= 0 then 0 else Before(results, row - 1) + CountAt(results, row - 1)
  }

  /** The same, counted from scratch. */
  function MatchesBefore(rows: seq<string>, search: string, row: nat): nat
    requires search != "" && row <= |rows|
  {
    if row == 0 then 0 else MatchesBefore(rows, search, row - 1) + |Matches(rows[row - 1], search, 0)|
  }

  /** New results for one row shift the count of everything behind it. */
  lemma {:induction false} BeforeUpdated(a: Results, b: Results, row: int, k: int)
    requires row >= 0 && forall r :: r != row ==> CountAt(b, r) == CountAt(a, r)
    ensures Before(b, k) == if row < k then Before(a, k) + CountAt(b, row) - CountAt(a, row) else Before(a, k)
    ensures row < k ==> CountAt(a, row) <= Before(a, k)
    decreases k
  {
    if k > 0 {
      BeforeUpdated(a, b, row, k - 1);
    }
  }

  /** The matches of one row, replaced or removed. */
  function Searched(results: Results, row: int, matches: seq<nat>): Results {
    if matches != [] then results[row := matches] else results - {row}
  }

  lemma SearchedCounts(results: Results, row: int, matches: seq<nat>, k: int)
    requires row >= 0
    ensures Before(Searched(results, row, matches), k)
         == if row < k then Before(results, k) + |matches| - CountAt(results, row) else Before(results, k)
  {
    hide Before;
    BeforeUpdated(results, Searched(results, row, matches), row, k);
  }

  /** Rows without results do not count. */
  lemma {:induction false} BeforeGap(results: Results, first: int, last: int)
    requires 0 <= first <= last && forall r :: first <= r < last ==> r !in results
    ensures Before(results, last) == Before(results, first)
    decreases last
  {
    if first < last {
      BeforeGap(results, first, last - 1);
    }
  }

  lemma {:induction false} BeforeGrows(results: Results, first: int, last: int)
    requires 0 <= first <= last
    ensures Before(results, first) <= Before(results, last)
    decreases last
  {
    if first < last {
      BeforeGrows(results, first, last - 1);
    }
  }

  /** A row and everything in front of it are part of what comes in front of a later row. */
  lemma BeforeHolds(results: Results, row: int, last: int)
    requires 0 <= row < last
    ensures Before(results, row) + CountAt(results, row) <= Before(results, last)
  {
    BeforeGrows(results, row + 1, last);
  }

  /** A result has one ordinal, and an ordinal stands for one result. */
  lemma OrdinalUnique(results: Results, r: int, k: nat, r': int, k': nat)
    requires 0 <= r && 0 <= r' && k < CountAt(results, r) && k' < CountAt(results, r')
    requires Before(results, r) + k == Before(results, r') + k'
    ensures r == r' && k == k'
  {
    if r < r' {
      BeforeHolds(results, r, r');
    } else if r' < r {
      BeforeHolds(results, r', r);
    }
  }

  lemma BeforeNothing(results: Results)
    ensures Before(results, 0) == 0
  {
  }

  // ---------------------------------------------------------------- changed rows

  predicate NoneMatch(texts: seq<string>, search: string)
    requires search != ""
  {
    forall r :: 0 <= r < |texts| ==> Matches(texts[r], search, 0) == []
  }

  /** The texts seen when some of the rows have been searched again. */
  function Partly(seen: seq<string>, rows: seq<string>, again: seq<int>): (texts: seq<string>)
    requires |seen| == |rows|
    ensures |texts| == |rows| && forall r :: 0 <= r < |rows| ==> texts[r] == if r in again then rows[r] else seen[r]
  {
    seq(|rows|, r requires 0 <= r < |rows| => if r in again then rows[r] else seen[r])
  }

  lemma PartlyNone(seen: seq<string>, rows: seq<string>)
    requires |seen| == |rows|
    ensures Partly(seen, rows, []) == seen
  {
  }

  lemma PartlyMore(seen: seq<string>, rows: seq<string>, done: seq<int>, next: int)
    requires |seen| == |rows| && 0 <= next < |rows|
    ensures Partly(seen, rows, done)[next := rows[next]] == Partly(seen, rows, done + [next])
  {
  }

  /** While the changed rows are searched again one by one, there is a moment without any result. */
  ghost predicate Vanishes(seen: seq<string>, rows: seq<string>, search: string, changed: seq<int>)
    requires |seen| == |rows| && search != ""
  {
    exists i :: 0 <= i <= |changed| && NoneMatch(Partly(seen, rows, changed[..i]), search)
  }

  predicate InRange(rows: seq<string>, changed: seq<int>) {
    forall k :: 0 <= k < |changed| ==> 0 <= changed[k] < |rows|
  }

  /** The first of the changed rows that matches as it is. */
  predicate FirstMatch(rows: seq<string>, search: string, changed: seq<int>, j: int)
    requires search != "" && InRange(rows, changed)
  {
    0 <= j < |changed| && Matches(rows[changed[j]], search, 0) != [] &&
    forall k :: 0 <= k < j ==> Matches(rows[changed[k]], search, 0) == []
  }

  /** Which row is the selected one after the changed rows have been searched again. */
  ghost predicate SelectedAfter(seen: seq<string>, rows: seq<string>, search: string, changed: seq<int>, was: int,
                                row: int)
    requires |seen| == |rows| && search != ""
  {
    InRange(rows, changed) &&
    if !Vanishes(seen, rows, search, changed) then row == was
    else NoneMatch(Partly(seen, rows, changed), search) ||
         exists j :: FirstMatch(rows, search, changed, j) && row == changed[j]
  }

  lemma SelectionKept(seen: seq<string>, rows: seq<string>, search: string, row: int)
    requires |seen| == |rows| && search != ""
    ensures SelectedAfter(seen, rows, search, [], row, row)
  {
    hide NoneMatch, Partly;
    if Vanishes(seen, rows, search, []) {
      var none: seq<int> := [];
      assert none[..0] == none;
    }
  }

  lemma VanishesMore(seen: seq<string>, rows: seq<string>, search: string, done: seq<int>, next: int)
    requires |seen| == |rows| && search != ""
    ensures Vanishes(seen, rows, search, done + [next]) <==>
      Vanishes(seen, rows, search, done) || NoneMatch(Partly(seen, rows, done + [next]), search)
    ensures NoneMatch(Partly(seen, rows, done), search) ==> Vanishes(seen, rows, search, done)
  {
    hide NoneMatch, Partly;
    var all := done + [next];
    assert done[..|done|] == done && all[..|all|] == all;
    forall i | 0 <= i <= |done| ensures all[..i] == done[..i] {
    }
  }

  /** One more row searched again: the selection moves there only if there was no result and the row matches. */
  lemma SelectionStep(seen: seq<string>, rows: seq<string>, search: string, done: seq<int>, next: int, was: int,
                      row: int, row': int)
    requires |seen| == |rows| && search != "" && 0 <= next < |rows|
    requires SelectedAfter(seen, rows, search, done, was, row)
    requires row' == if NoneMatch(Partly(seen, rows, done), search) && Matches(rows[next], search, 0) != [] then next
                     else row
    ensures SelectedAfter(seen, rows, search, done + [next], was, row')
  {
    hide Matches, Vanishes;
    VanishesMore(seen, rows, search, done, next);
    var all, now := done + [next], Partly(seen, rows, done);
    assert forall k :: 0 <= k < |done| ==> all[k] == done[k] && done[k] in done;
    if NoneMatch(now, search) && Matches(rows[next], search, 0) != [] {
      assert FirstMatch(rows, search, all, |done|);
    } else if Vanishes(seen, rows, search, done) && !NoneMatch(now, search) {
      var j :| FirstMatch(rows, search, done, j) && row == done[j];
      assert FirstMatch(rows, search, all, j);
    }
  }

  // ---------------------------------------------------------------- the row index

  predicate Sorted(a: seq<int>) {
    forall i, j :: 0 <= i < j < |a| ==> a[i] < a[j]
  }

  /** `indexOf`: the last position whose value is no greater than `value`. */
  method IndexOfRow(a: seq<int>, value: int) returns (index: int)
    requires Sorted(a)
    ensures -1 <= index < |a|
    ensures forall k :: 0 <= k < |a| ==> (a[k] <= value <==> k <= index)
  {
    index := -1;
    var low, high := 0, |a| - 1;
    while low <= high
      invariant 0 <= low <= high + 1 <= |a| && index == low - 1
      invariant forall k :: 0 <= k < low ==> a[k] <= value
      invariant forall k :: high < k < |a| ==> a[k] > value
    {
      var mid := (low + high) / 2;
      if a[mid] <= value {
        index := mid;
        low := mid + 1;
      } else {
        high := mid - 1;
      }
    }
  }

  /** The index lists the matching rows in front of `limit`. */
  ghost predicate Lists(a: seq<int>, results: Results, limit: int) {
    Sorted(a) && forall r :: r in a <==> 0 <= r < limit && r in results
  }

  /** The results in front of a row are those of the last matching row in front of it, and what is in front of that. */
  lemma BeforeInIndex(a: seq<int>, results: Results, limit: int, i: int, r: int)
    requires Lists(a, results, limit) && 0 <= r <= limit && -1 <= i < |a|
    requires forall k :: 0 <= k < |a| ==> (a[k] < r <==> k <= i)
    ensures Before(results, r) == if i == -1 then 0 else Before(results, a[i]) + CountAt(results, a[i])
  {
    var first := if i == -1 then 0 else a[i] + 1;
    if i != -1 {
      assert a[i] in a;
    }
    forall k | 0 <= k < |a| ensures a[k] < first || a[k] >= r {
      assert k <= i ==> a[k] <= a[i];
    }
    assert forall x :: first <= x < r ==> x !in a;
    BeforeGap(results, first, r);
  }

  lemma ListedAt(a: seq<int>, results: Results, limit: int, k: int)
    requires Lists(a, results, limit) && 0 <= k < |a|
    ensures 0 <= a[k] < limit && a[k] in results
    ensures forall j :: 0 <= j < |a| ==> (a[j] < a[k] <==> j <= k - 1)
  {
    assert a[k] in a;
  }

  /** The results in front of each matching row, and of all rows. */
  lemma IndexTotals(a: seq<int>, results: Results, limit: int)
    requires Lists(a, results, limit) && limit >= 0
    ensures forall k :: 0 <= k < |a| ==> 0 <= a[k] < limit && a[k] in results
    ensures forall k :: 0 < k < |a| ==> Before(results, a[k]) == Before(results, a[k - 1]) + CountAt(results, a[k - 1])
    ensures a != [] ==> Before(results, a[0]) == 0
    ensures Before(results, limit) == if a == [] then 0 else Before(results, a[|a| - 1]) + CountAt(results, a[|a| - 1])
  {
    hide Before, CountAt, Lists, Sorted;
    forall k | 0 <= k < |a| ensures 0 <= a[k] < limit && a[k] in results {
      ListedAt(a, results, limit, k);
    }
    forall k | 0 < k < |a| ensures Before(results, a[k]) == Before(results, a[k - 1]) + CountAt(results, a[k - 1]) {
      ListedAt(a, results, limit, k);
      BeforeInIndex(a, results, limit, k - 1, a[k]);
    }
    if a != [] {
      ListedAt(a, results, limit, 0);
      BeforeInIndex(a, results, limit, -1, a[0]);
    }
    BeforeInIndex(a, results, limit, |a| - 1, limit);
  }

  lemma ListsSame(a: seq<int>, results: Results, results': Results, limit: int)
    requires Lists(a, results, limit) && forall r :: r < limit ==> (r in results <==> r in results')
    ensures Lists(a, results', limit)
  {
  }

  lemma ListsMore(a: seq<int>, results: Results, limit: int)
    requires Lists(a, results, limit) && limit >= 0
    ensures if limit in results then Lists(a + [limit], results, limit + 1) else Lists(a, results, limit + 1)
  {
    forall k | 0 <= k < |a| ensures a[k] < limit {
      assert a[k] in a;
    }
  }

  lemma InsertListed(a: seq<int>, results: Results, results': Results, limit: int, i: int, row: int)
    requires Lists(a, results, limit) && 0 <= row < limit && row !in results && row in results'
    requires forall r :: r != row ==> (r in results' <==> r in results)
    requires -1 <= i < |a| && forall k :: 0 <= k < |a| ==> (a[k] <= row <==> k <= i)
    ensures Lists(a[..i + 1] + [row] + a[i + 1..], results', limit)
  {
    assert row !in a;
    var b := a[..i + 1] + [row] + a[i + 1..];
    forall r ensures r in b <==> r == row || r in a {
      assert a == a[..i + 1] + a[i + 1..];
    }
  }

  lemma WithoutOne(a: seq<int>, i: nat)
    requires Sorted(a) && i < |a|
    ensures Sorted(a[..i] + a[i + 1..])
    ensures forall r :: r in a[..i] + a[i + 1..] <==> r in a && r != a[i]
  {
    var b := a[..i] + a[i + 1..];
    assert forall k :: 0 <= k < |b| ==> b[k] == a[if k < i then k else k + 1];
    forall k | 0 <= k < |a| && k != i ensures a[k] in b {
      assert b[if k < i then k else k - 1] == a[k];
    }
  }

  lemma RemoveListed(a: seq<int>, results: Results, results': Results, limit: int, i: int, row: int)
    requires Lists(a, results, limit) && 0 <= row < limit && row in results && row !in results'
    requires forall r :: r != row ==> (r in results' <==> r in results)
    requires -1 <= i < |a| && forall k :: 0 <= k < |a| ==> (a[k] <= row <==> k <= i)
    ensures i >= 0 && a[i] == row && Lists(a[..i] + a[i + 1..], results', limit)
  {
    assert row in a;
    var j :| 0 <= j < |a| && a[j] == row;
    assert j <= i && a[i] <= row;
    assert j == i;
    WithoutOne(a, i);
    var b := a[..i] + a[i + 1..];
    forall r | r in b ensures 0 <= r < limit && r in results' {
      assert r in a && r != row;
    }
    forall r | 0 <= r < limit && r in results' ensures r in b {
      assert r in a && r != row;
    }
  }

  /** One step around a circle of `len` positions. */
  function CircularStep(i: int, s: int, len: nat): int
    requires len > 0
  {
    (i + s + len) % len
  }

  lemma CircularMeans(i: int, s: int, len: nat)
    requires len > 0 && -1 <= i + s <= len
    ensures CircularStep(i, s, len) == if i + s == -1 then len - 1 else if i + s == len then 0 else i + s
  {
  }

  class FindBar {
    /** The text of the rows of the terminal, in lower case. */
    var rows: seq<string>
    var searchText: string
    var results: Results
    var resultCount: int
    var matchingRowsIndex: seq<int>
    var selectedRowNum: int
    var selectedRowIndex: int
    var selectedOrdinal: int
    var selectedResultKnown: bool
    var batchRow: int
    var batchSize: nat
    /** The buttons for the next and the previous result. */
    var enabled: bool
    /** Rows that have changed and have not been searched again. */
    var changedRows: seq<int>
    /** The text of every row when it was last searched. */
    ghost var seen: seq<string>

    /** A find bar that has not been used. */
    constructor (rows: seq<string>, batchSize: nat)
      ensures this.rows == rows && this.batchSize == batchSize && changedRows == []
      ensures searchText == "" && results == map[] && resultCount == 0 && matchingRowsIndex == [] && batchRow == 0
      ensures selectedRowNum == 0 && selectedRowIndex == 0 && selectedOrdinal == -1 && selectedResultKnown && !enabled
    {
      this.rows, this.batchSize := rows, batchSize;
      searchText, results, resultCount, matchingRowsIndex, batchRow := "", map[], 0, [], 0;
      selectedRowNum, selectedRowIndex, selectedOrdinal, selectedResultKnown, enabled := 0, 0, -1, true, false;
      changedRows, seen := [], rows;
    }

    // ---------------------------------------------------------------- agreement

    /** The results are those of the texts seen, and their number is right. */
    ghost predicate Counted()
      reads this
    {
      |seen| == |rows| && searchText != "" &&
      (forall r :: r in results ==>
       0 <= r < |seen| && results[r] == Matches(seen[r], searchText, 0) &&
       results[r] != []) &&
      resultCount == Before(results, |seen|)
    }

    /** The rows in front of the next batch are searched, and the index lists those that match. */
    ghost predicate Listed()
      reads this
      requires Counted()
    {
      0 <= batchRow <= |seen| &&
      (forall r :: 0 <= r < batchRow && Matches(seen[r], searchText, 0) != [] ==> r in results) &&
      Lists(matchingRowsIndex, results, batchRow)
    }

    /** The selected result is where its row, its index and its ordinal say. */
    ghost predicate Placed()
      reads this
    {
      0 <= selectedRowIndex && (resultCount == 0 ==> selectedRowIndex == 0) &&
      (resultCount > 0 ==>
         0 <= selectedRowNum < |seen| && selectedOrdinal == Before(results, selectedRowNum) + selectedRowIndex &&
         if selectedResultKnown then selectedRowNum in results && selectedRowIndex < |results[selectedRowNum]|
         else selectedRowIndex == 0 && selectedRowNum !in results)
    }

    /** Without results the selection is reset, and the buttons are off. */
    ghost predicate Labelled()
      reads this
    {
      (enabled <==> resultCount != 0) &&
      (resultCount == 0 ==>
       selectedRowNum == 0 && selectedRowIndex == 0 && selectedOrdinal == -1 &&
       selectedResultKnown)
    }

    /** A search that has been completed. */
    ghost predicate Valid()
      reads this
    {
      Counted() && Listed() && Placed() && Labelled() && batchRow == |rows| &&
      (forall r :: r in changedRows ==> 0 <= r < |rows|) &&
      forall r :: 0 <= r < |rows| && r !in changedRows ==> seen[r] == rows[r]
    }

    /** The element of the selected result exists, as `highlightSelectedResult_` takes for granted. */
    predicate Highlightable()
      reads this
    {
      resultCount != 0 && selectedResultKnown ==>
        selectedRowNum in results && 0 <= selectedRowIndex < |results[selectedRowNum]|
    }

    // ---------------------------------------------------------------- one row

    /** The loop of `findInRow_`. */
    method FindMatches(rowText: string) returns (rowResult: seq<nat>)
      requires searchText != ""
      ensures rowResult == Matches(rowText, searchText, 0)
    {
      hide OccursAt;
      rowResult := [];
      var startIndex := 0;
      var i := IndexOf(rowText, searchText, startIndex);
      while i != -1
        invariant 0 <= startIndex && i == IndexOf(rowText, searchText, startIndex)
        invariant rowResult + Matches(rowText, searchText, startIndex) == Matches(rowText, searchText, 0)
        decreases |rowText| - startIndex
      {
        assert rowResult + ([i] + Matches(rowText, searchText, i + |searchText|))
          == (rowResult + [i]) + Matches(rowText, searchText, i + |searchText|);
        rowResult := rowResult + [i];
        startIndex := i + |searchText|;
        i := IndexOf(rowText, searchText, startIndex);
      }
    }

    /** `findInRow_`. */
    method FindInRow(rowNum: int, update: bool) returns (found: bool)
      requires searchText != "" ==> Counted() && 0 <= rowNum < |rows|
      modifies this`results, this`resultCount, this`selectedRowNum, this`selectedOrdinal, this`enabled, this`seen
      ensures searchText == "" ==> !found && unchanged(this)
      ensures searchText != "" ==> Counted() && (found <==> rowNum in results)
      ensures searchText != "" && rowNum in old(results) && !update ==> unchanged(this)
      ensures searchText != "" && !(rowNum in old(results) && !update) ==>
        seen == old(seen)[rowNum := rows[rowNum]] &&
        (forall r :: r != rowNum ==>
         (r in results <==> r in old(results)) &&
         (r in results ==> results[r] == old(results)[r])) &&
        (found <==> Matches(rows[rowNum], searchText, 0) != []) &&
        if found && old(resultCount) == 0 then selectedRowNum == rowNum && selectedOrdinal == 0 && enabled
        else selectedRowNum == old(selectedRowNum) && enabled == old(enabled) &&
             selectedOrdinal - Before(results, selectedRowNum)
             == old(selectedOrdinal) - Before(old(results), selectedRowNum)
    {
      hide Before, Matches, OccursAt;
      if searchText == "" {
        return false;
      }
      if rowNum in results && !update {
        return true;
      }
      ghost var before := results;
      var prevCount := if rowNum in results then |results[rowNum]| else 0;
      var rowResult := FindMatches(rows[rowNum]);
      if |rowResult| > 0 {
        results := results[rowNum := rowResult];
        if resultCount == 0 {
          selectedRowNum := rowNum;
          selectedOrdinal := 0;
          enabled := true;
        }
      } else {
        results := results - {rowNum};
      }
      seen := seen[rowNum := rows[rowNum]];
      SearchedCounts(before, rowNum, rowResult, |seen|);
      SearchedCounts(before, rowNum, rowResult, selectedRowNum);
      var diff := |rowResult| - prevCount;
      resultCount := resultCount + diff;
      if rowNum < selectedRowNum {
        selectedOrdinal := selectedOrdinal + diff;
      }
      return |rowResult| > 0;
    }

    /** `updateCounterLabel_`. */
    method UpdateCounterLabel()
      requires Highlightable() && (enabled || resultCount == 0)
      modifies this`selectedRowNum, this`selectedRowIndex, this`selectedOrdinal, this`selectedResultKnown, this`enabled
      ensures Labelled()
      ensures resultCount != 0 ==> unchanged(this)
    {
      if resultCount == 0 {
        selectedRowNum := 0;
        selectedRowIndex := 0;
        selectedOrdinal := -1;
        selectedResultKnown := true;
        enabled := false;
      }
      HighlightSelectedResult();
    }

    /** `highlightSelectedResult_` looks the result up; there it has to be. */
    method HighlightSelectedResult()
      requires Highlightable()
    {
      if resultCount != 0 && selectedResultKnown {
        var _ := results[selectedRowNum][selectedRowIndex];
      }
    }

    // ---------------------------------------------------------------- changes

    /** The terminal changes the text of a row, and says so. */
    method RowChanged(rowNum: int, text: string)
      requires Valid() && 0 <= rowNum < |rows|
      modifies this`rows, this`changedRows
      ensures Valid() && rows == old(rows)[rowNum := text] && rowNum in changedRows
    {
      rows := rows[rowNum := text];
      if rowNum !in changedRows {
        changedRows := changedRows + [rowNum];
      }
    }

    /**
     One changed row, as `notifyChanges_` treats it.  The selected row stays the selected row, unless
     there was no result at all; if it is the row that changed, its first result is selected.
     */
    method NotifyRow(rowNum: int)
      requires Counted() && Listed() && Placed() && batchRow == |rows| && 0 <= rowNum < |rows| &&
        (resultCount != 0 ==> enabled)
      modifies this`results, this`resultCount, this`matchingRowsIndex, this`selectedRowNum, this`selectedRowIndex
      modifies this`selectedOrdinal, this`selectedResultKnown, this`enabled, this`seen
      ensures Counted() && Listed() && Placed() && (resultCount != 0 ==> enabled)
      ensures seen == old(seen)[rowNum := rows[rowNum]]
      ensures selectedRowNum
           == if old(resultCount) == 0 && Matches(rows[rowNum], searchText, 0) != [] then rowNum
              else old(selectedRowNum)
      ensures if selectedRowNum == rowNum then
                selectedRowIndex == 0 && (selectedResultKnown <==> Matches(rows[rowNum], searchText, 0) != [])
              else selectedRowIndex == old(selectedRowIndex) && selectedResultKnown == old(selectedResultKnown)
    {
      hide Before, Matches, Lists;
      ghost var before := results;
      var prev := rowNum in results;
      var found := FindInRow(rowNum, true);
      BeforeUpdated(before, results, rowNum, |seen|);
      SomeResult(results);
      if selectedRowNum == rowNum {
        selectedOrdinal := selectedOrdinal - selectedRowIndex;
        selectedRowIndex := 0;
        selectedResultKnown := found;
      }
      UpdateIndex(rowNum, prev, found, before);
    }

    /** A row counts for the total, and the total for the rows in front of it. */
    lemma SomeResult(results: Results)
      ensures forall r :: 0 <= r < |seen| ==> Before(results, r) + CountAt(results, r) <= Before(results, |seen|)
    {
      forall r | 0 <= r < |seen| ensures Before(results, r) + CountAt(results, r) <= Before(results, |seen|) {
        BeforeHolds(results, r, |seen|);
      }
    }

    method UpdateIndex(rowNum: int, prev: bool, found: bool, ghost before: Results)
      requires Lists(matchingRowsIndex, before, batchRow) && 0 <= rowNum < batchRow
      requires (prev <==> rowNum in before) && (found <==> rowNum in results)
      requires forall r :: r != rowNum ==> (r in results <==> r in before)
      modifies this`matchingRowsIndex
      ensures Lists(matchingRowsIndex, results, batchRow)
    {
      if prev != found {
        var i := IndexOfRow(matchingRowsIndex, rowNum);
        if found {
          InsertListed(matchingRowsIndex, before, results, batchRow, i, rowNum);
          matchingRowsIndex := matchingRowsIndex[..i + 1] + [rowNum] + matchingRowsIndex[i + 1..];
        } else {
          RemoveListed(matchingRowsIndex, before, results, batchRow, i, rowNum);
          matchingRowsIndex := matchingRowsIndex[..i] + matchingRowsIndex[i + 1..];
        }
      }
    }

    /** Where the search has come by, there is no result exactly if no row matches. */
    lemma NoResult()
      requires Counted() && Listed() && batchRow == |rows|
      ensures resultCount == 0 <==> NoneMatch(seen, searchText)
    {
      hide Before, Matches, Lists;
      CountedFacts();
      SomeResult(results);
      if NoneMatch(seen, searchText) {
        assert forall r :: 0 <= r < |seen| ==> r !in results;
        BeforeGap(results, 0, |seen|);
        BeforeNothing(results);
      } else {
        var r :| 0 <= r < |seen| && Matches(seen[r], searchText, 0) != [];
        assert CountAt(results, r) > 0;
      }
    }

    /**
     The first `i` changed rows have been searched again; `was`, `row`, `index` and `known` tell what it was
     before.
     */
    ghost predicate Notified(i: int, was: seq<string>, row: int, index: int, known: bool)
      reads this
    {
      Counted() && Listed() && Placed() && batchRow == |rows| && (resultCount != 0 ==> enabled) &&
      0 <= i <= |changedRows| && InRange(rows, changedRows) && |was| == |rows| &&
      seen == Partly(was, rows, changedRows[..i]) &&
      SelectedAfter(was, rows, searchText, changedRows[..i], row, selectedRowNum) &&
      if selectedRowNum in changedRows[..i] then selectedRowIndex == 0
      else selectedRowIndex == index && selectedResultKnown == known
    }

    lemma NotifiedNone()
      requires Valid()
      ensures Notified(0, seen, selectedRowNum, selectedRowIndex, selectedResultKnown)
    {
      hide Lists, Matches, Before, NoneMatch, SelectedAfter, Partly;
      PartlyNone(seen, rows);
      SelectionKept(seen, rows, searchText, selectedRowNum);
      assert changedRows[..0] == [];
      assert forall k :: 0 <= k < |changedRows| ==> changedRows[k] in changedRows;
    }

    /** One turn of the loop of `notifyChanges_`. */
    method NotifyNext(i: int, ghost was: seq<string>, ghost row: int, ghost index: int, ghost known: bool)
      requires Notified(i, was, row, index, known) && i < |changedRows|
      modifies this`results, this`resultCount, this`matchingRowsIndex, this`selectedRowNum, this`selectedRowIndex
      modifies this`selectedOrdinal, this`selectedResultKnown, this`enabled, this`seen
      ensures Notified(i + 1, was, row, index, known)
    {
      hide Lists, Matches, Before, NoneMatch, SelectedAfter, Partly, Placed, Listed, Counted;
      ghost var done, next, selected := changedRows[..i], changedRows[i], selectedRowNum;
      assert changedRows[..i + 1] == done + [next];
      CountedIs();
      NoResult();
      NotifyRow(changedRows[i]);
      PartlyMore(was, rows, done, next);
      SelectionStep(was, rows, searchText, done, next, row, selected, selectedRowNum);
    }

    lemma CountedIs()
      requires Counted()
      ensures searchText != "" && resultCount >= 0
    {
    }

    /**
     `notifyChanges_`: afterwards every row is searched as it is.  The selected row stays selected, with
     its first result if it is among the changed rows and with the same result if it is not.  Only if
     all results vanish on the way does the selection go to the first changed row that matches.
     */
    method NotifyChanges()
      requires Valid()
      modifies this
      ensures Valid() && changedRows == [] && rows == old(rows) && searchText == old(searchText) && seen == rows
      ensures resultCount > 0 ==>
        SelectedAfter(old(seen), rows, searchText, old(changedRows), old(selectedRowNum), selectedRowNum)
      ensures resultCount > 0 ==>
        if selectedRowNum in old(changedRows) then
          selectedRowIndex == 0 && (selectedResultKnown <==> selectedRowNum in results)
        else selectedRowIndex == old(selectedRowIndex) && selectedResultKnown == old(selectedResultKnown)
      ensures old(resultCount > 0 && selectedResultKnown && selectedRowNum !in changedRows) ==>
        resultCount > 0 && selectedResultKnown && selectedRowNum == old(selectedRowNum) &&
        selectedRowIndex == old(selectedRowIndex)
    {
      hide Lists, Matches, Before, NoneMatch, SelectedAfter, Notified, Vanishes;
      var i := 0;
      NotifiedNone();
      SelectionStays();
      while i < |changedRows|
        invariant Notified(i, old(seen), old(selectedRowNum), old(selectedRowIndex), old(selectedResultKnown))
        invariant 0 <= i <= |changedRows| && changedRows == old(changedRows) && rows == old(rows) &&
          searchText == old(searchText)
      {
        NotifyNext(i, old(seen), old(selectedRowNum), old(selectedRowIndex), old(selectedResultKnown));
        i := i + 1;
      }
      NotifiedAll(old(seen), old(selectedRowNum), old(selectedRowIndex), old(selectedResultKnown));
      PlacedIsHighlightable();
      UpdateCounterLabel();
      changedRows := [];
    }

    /** As long as the selected result is there, not all results vanish. */
    lemma SelectionStays()
      requires Valid()
      ensures resultCount > 0 && selectedResultKnown && selectedRowNum !in changedRows ==>
        !Vanishes(seen, rows, searchText, changedRows)
    {
      hide Lists, Matches, Before, Listed, Labelled;
      if resultCount > 0 && selectedResultKnown && selectedRowNum !in changedRows {
        forall i | 0 <= i <= |changedRows| ensures !NoneMatch(Partly(seen, rows, changedRows[..i]), searchText) {
          assert Partly(seen, rows, changedRows[..i])[selectedRowNum] == seen[selectedRowNum];
        }
      }
    }

    lemma NotifiedAll(was: seq<string>, row: int, index: int, known: bool)
      requires Notified(|changedRows|, was, row, index, known)
      requires forall r :: 0 <= r < |rows| && r !in changedRows ==> was[r] == rows[r]
      ensures Counted() && Listed() && Placed() && batchRow == |rows| && (resultCount != 0 ==> enabled) && seen == rows
      ensures SelectedAfter(was, rows, searchText, changedRows, row, selectedRowNum)
      ensures if selectedRowNum in changedRows then selectedRowIndex == 0
              else selectedRowIndex == index && selectedResultKnown == known
      ensures !Vanishes(was, rows, searchText, changedRows) ==>
        selectedRowNum == row && resultCount > 0
    {
      hide Lists, Matches, Before, NoneMatch, Counted, Listed, Placed;
      assert changedRows[..|changedRows|] == changedRows;
      CountedIs();
      NoResult();
    }

    lemma PlacedIsHighlightable()
      requires Counted() && Placed()
      ensures Highlightable()
    {
    }

    // ---------------------------------------------------------------- moves

    /** The row of the next match when the selected row has none left in that direction. */
    method NextRow(step: int) returns (row: int)
      requires Valid() && resultCount != 0 && (step == 1 || step == -1)
      requires selectedResultKnown ==> selectedRowIndex == if step > 0 then |results[selectedRowNum]| - 1 else 0
      ensures row in results
      ensures var s := if !selectedResultKnown && step > 0 then 0 else step;
              0 <= selectedOrdinal <= resultCount && Before(results, row) + (if step > 0 then 0 else |results[row]| - 1)
              == CircularStep(selectedOrdinal, s, resultCount)
    {
      hide Before, Matches, Counted, CircularStep;
      CountedFacts();
      var index, current := matchingRowsIndex, selectedRowNum;
      var i := IndexOfRow(index, current);
      IndexFacts(i);
      if !selectedResultKnown && step < 0 {
        i := i + 1;
      }
      CircularMeans(i, step, |index|);
      var s := if !selectedResultKnown && step > 0 then 0 else step;
      CircularMeans(selectedOrdinal, s, resultCount);
      row := index[CircularStep(i, step, |index|)];
      assert row in index;
    }

    lemma CountedFacts()
      requires Counted()
      ensures resultCount == Before(results, |seen|) && |seen| == |rows|
      ensures forall r :: r in results ==> 0 <= r < |seen| && |results[r]| > 0
    {
    }

    /** The last row of the index that is not behind the selected row. */
    ghost predicate LastUpTo(i: int)
      reads this`matchingRowsIndex, this`selectedRowNum
    {
      -1 <= i < |matchingRowsIndex| &&
      forall k :: 0 <= k < |matchingRowsIndex| ==> (matchingRowsIndex[k] <= selectedRowNum <==> k <= i)
    }

    /** How the results of the rows in the index are counted. */
    lemma IndexCounts()
      requires Valid() && resultCount != 0
      ensures var a := matchingRowsIndex;
        a != [] && (forall k :: 0 <= k < |a| ==>
                    a[k] in results &&
                    Before(results, a[k]) + |results[a[k]]| <= resultCount) &&
        Before(results, a[0]) == 0 && Before(results, a[|a| - 1]) + |results[a[|a| - 1]]| == resultCount &&
        forall k :: 0 < k < |a| ==> Before(results, a[k]) == Before(results, a[k - 1]) + |results[a[k - 1]]|
    {
      hide Matches, Before, Lists, Placed, Labelled;
      IndexTotals(matchingRowsIndex, results, batchRow);
      SomeResult(results);
    }

    lemma KnownInIndex(i: int)
      requires Valid() && resultCount != 0 && LastUpTo(i) && selectedResultKnown
      ensures i >= 0 && matchingRowsIndex[i] == selectedRowNum &&
        Before(results, selectedRowNum) + |results[selectedRowNum]| <= resultCount
    {
      hide Matches, Before;
      assert selectedRowNum in matchingRowsIndex;
      SomeResult(results);
    }

    lemma UnknownInIndex(i: int)
      requires Valid() && resultCount != 0 && LastUpTo(i) && !selectedResultKnown
      ensures Before(results, selectedRowNum) <= resultCount
      ensures Before(results, selectedRowNum)
           == if i == -1 then 0 else Before(results, matchingRowsIndex[i]) + CountAt(results, matchingRowsIndex[i])
    {
      hide Matches, Before;
      assert selectedRowNum !in matchingRowsIndex;
      BeforeInIndex(matchingRowsIndex, results, batchRow, i, selectedRowNum);
      SomeResult(results);
    }

    /** The rows around the selected row: how their results are counted. */
    lemma IndexFacts(i: int)
      requires Valid() && resultCount != 0 && LastUpTo(i)
      ensures var a := matchingRowsIndex;
        a != [] && (forall k :: 0 <= k < |a| ==>
                    a[k] in results &&
                    Before(results, a[k]) + |results[a[k]]| <= resultCount) &&
        Before(results, a[0]) == 0 && Before(results, a[|a| - 1]) + |results[a[|a| - 1]]| == resultCount &&
        forall k :: 0 < k < |a| ==> Before(results, a[k]) == Before(results, a[k - 1]) + |results[a[k - 1]]|
      ensures selectedResultKnown ==>
        i >= 0 && matchingRowsIndex[i] == selectedRowNum &&
        Before(results, selectedRowNum) + |results[selectedRowNum]| <= resultCount
      ensures !selectedResultKnown ==>
        Before(results, selectedRowNum) <= resultCount &&
        Before(results, selectedRowNum)
        == if i == -1 then 0 else Before(results, matchingRowsIndex[i]) + |results[matchingRowsIndex[i]]|
    {
      hide Valid, Before;
      IndexCounts();
      if selectedResultKnown {
        KnownInIndex(i);
      } else {
        UnknownInIndex(i);
      }
    }

    /**
     `selectNext_`, after a completed search.  The ordinal moves by one around the circle of all results;
     only if the selected result is gone does a step down keep it.
     */
    method SelectNext(step: int)
      requires Valid() && resultCount != 0 && (step == 1 || step == -1)
      modifies this`selectedRowNum, this`selectedRowIndex, this`selectedOrdinal, this`selectedResultKnown, this`enabled
      ensures Valid() && selectedResultKnown
      ensures selectedOrdinal
           == CircularStep(old(selectedOrdinal), if !old(selectedResultKnown) && step > 0 then 0 else step, resultCount)
    {
      hide Before, Matches, Lists, CircularStep;
      SomeResult(results);
      CountedFacts();
      var s := if !selectedResultKnown && step > 0 then 0 else step;
      if selectedRowNum in results && 0 <= selectedRowIndex + step < |results[selectedRowNum]| {
        CircularMeans(selectedOrdinal, s, resultCount);
        selectedRowIndex := selectedRowIndex + step;
      } else {
        var row := NextRow(step);
        selectedRowNum := row;
        selectedRowIndex := if step > 0 then 0 else |results[row]| - 1;
      }
      selectedOrdinal := CircularStep(selectedOrdinal, s, resultCount);
      selectedResultKnown := true;
      UpdateCounterLabel();
    }

    /** `onNext_`. */
    method OnNext()
      requires Valid()
      modifies this`selectedRowNum, this`selectedRowIndex, this`selectedOrdinal, this`selectedResultKnown, this`enabled
      ensures Valid() && (!old(enabled) ==> unchanged(this))
      ensures old(enabled) ==>
        selectedResultKnown &&
        selectedOrdinal == CircularStep(old(selectedOrdinal), if old(selectedResultKnown) then 1 else 0, resultCount)
    {
      if !enabled {
        return;
      }
      SelectNext(1);
    }

    /** `onPrevious_`. */
    method OnPrevious()
      requires Valid()
      modifies this`selectedRowNum, this`selectedRowIndex, this`selectedOrdinal, this`selectedResultKnown, this`enabled
      ensures Valid() && (!old(enabled) ==> unchanged(this))
      ensures old(enabled) ==>
        selectedResultKnown &&
        selectedOrdinal == CircularStep(old(selectedOrdinal), -1, resultCount)
    {
      if !enabled {
        return;
      }
      SelectNext(-1);
    }

    // ---------------------------------------------------------------- recomputation

    /**
     With no change pending, the state is what a search from scratch would find: every row's matches,
     their total, the sorted rows that match, and the position of the selected result among all.
     */
    lemma Agreement()
      requires Valid() && changedRows == []
      ensures resultCount == MatchesBefore(rows, searchText, |rows|)
      ensures Sorted(matchingRowsIndex)
      ensures forall r :: r in matchingRowsIndex <==> 0 <= r < |rows| && Matches(rows[r], searchText, 0) != []
      ensures resultCount != 0 ==>
        0 <= selectedRowNum < |rows| &&
        selectedOrdinal == MatchesBefore(rows, searchText, selectedRowNum) + selectedRowIndex &&
        if selectedResultKnown then 0 <= selectedRowIndex < |Matches(rows[selectedRowNum], searchText, 0)|
        else selectedRowIndex == 0 && Matches(rows[selectedRowNum], searchText, 0) == []
    {
      hide Matches;
      assert seen == rows;
      BeforeFromScratch(|rows|);
      if resultCount != 0 {
        BeforeFromScratch(selectedRowNum);
      }
    }

    lemma {:induction false} BeforeFromScratch(row: nat)
      requires Valid() && row <= |seen|
      ensures Before(results, row) == MatchesBefore(seen, searchText, row)
      decreases row
    {
      hide Matches;
      if row > 0 {
        BeforeFromScratch(row - 1);
      }
    }

    // ---------------------------------------------------------------- the search itself

    /** What every search in progress keeps. */
    ghost predicate Counting()
      reads this
    {
      Counted() && Listed() && (resultCount != 0 ==> enabled) && 0 <= selectedRowIndex &&
      forall r :: r in changedRows ==> 0 <= r < |rows|
    }

    /** And what it keeps when it has started well. */
    ghost predicate Searching()
      reads this
    {
      Counting() && Highlightable() && (resultCount == 0 ==> selectedRowIndex == 0 && selectedResultKnown)
    }

    /** A row that matches is selected. */
    ghost predicate Selected()
      reads this
    {
      resultCount > 0 && selectedRowNum in results
    }

    /** The first result of all is selected. */
    ghost predicate AtFirst()
      reads this
    {
      selectedRowIndex == 0 && selectedResultKnown && selectedRowNum in results &&
      forall r :: r in results ==> selectedRowNum <= r
    }

    /** Search a row that no batch has come to yet. */
    method SearchRow(rowNum: int) returns (found: bool)
      requires Counting() && batchRow <= rowNum < |rows| && seen == rows
      modifies this`results, this`resultCount, this`selectedRowNum, this`selectedOrdinal, this`enabled, this`seen
      ensures Counting() && seen == rows
      ensures old(Searching()) ==> Searching() && (old(Placed()) && selectedResultKnown ==> Placed())
      ensures old(Searching() && Selected()) ==> Selected() && (Placed() <==> old(Placed()))
      ensures found <==> Matches(rows[rowNum], searchText, 0) != []
      ensures found <==> rowNum in results
      ensures forall r :: r != rowNum ==> (r in results <==> r in old(results))
      ensures if found && old(resultCount) == 0 then selectedRowNum == rowNum && selectedOrdinal == 0 &&
        Before(results, rowNum) == 0
              else selectedRowNum == old(selectedRowNum) && selectedOrdinal - Before(results, selectedRowNum)
                                                             == old(selectedOrdinal - Before(results, selectedRowNum))
      ensures resultCount >= old(resultCount) && (found ==> resultCount > 0) &&
        (!found && old(resultCount) == 0 ==> resultCount == 0)
    {
      hide Before, Matches, Lists;
      ghost var before := results;
      CountedFacts();
      found := FindInRow(rowNum, false);
      CountedFacts();
      BeforeUpdated(before, results, rowNum, rowNum);
      BeforeUpdated(before, results, rowNum, |seen|);
      SomeResult(before);
      SomeResult(results);
      ListsSame(matchingRowsIndex, before, results, batchRow);
    }

    /** Search the visible rows before the first batch; `first` is the first of them that matches, or -1. */
    method SearchWindow(topRowIndex: int, bottomRowIndex: int) returns (ghost first: int)
      requires Counting() && seen == rows && batchRow == 0 && resultCount == 0
      requires 0 <= topRowIndex <= bottomRowIndex + 1 <= |rows|
      modifies this`results, this`resultCount, this`selectedRowNum, this`selectedOrdinal, this`enabled, this`seen
      ensures Counting() && seen == rows
      ensures first == -1 || (topRowIndex <= first <= bottomRowIndex && Matches(rows[first], searchText, 0) != [])
      ensures forall r :: topRowIndex <= r <= bottomRowIndex && (first == -1 || r < first) ==>
        Matches(rows[r], searchText, 0) == []
      ensures if first == -1 then resultCount == 0
              else resultCount > 0 && first in results && selectedRowNum == first &&
                   selectedOrdinal == Before(results, first)
    {
      hide Before, Matches, Lists;
      first := -1;
      for rowNum := topRowIndex to bottomRowIndex + 1
        invariant Counting() && seen == rows
        invariant first == -1 || (topRowIndex <= first < rowNum && Matches(rows[first], searchText, 0) != [])
        invariant forall r :: topRowIndex <= r < rowNum && (first == -1 || r < first) ==>
          Matches(rows[r], searchText, 0) == []
        invariant if first == -1 then resultCount == 0
                  else resultCount > 0 && first in results && selectedRowNum == first &&
                       selectedOrdinal == Before(results, first)
      {
        var found := SearchRow(rowNum);
        if found && first == -1 {
          first := rowNum;
        }
      }
    }

    /** A new text, nothing found yet; the selection is left as it is. */
    method ResetSearch(text: string)
      requires forall r :: r in changedRows ==> 0 <= r < |rows|
      modifies this`searchText, this`batchRow, this`results, this`resultCount, this`matchingRowsIndex, this`seen
      ensures searchText == text && batchRow == 0 && results == map[] && resultCount == 0 && seen == rows
      ensures text != "" && 0 <= selectedRowIndex ==> Counting()
    {
      hide Matches;
      searchText := text;
      batchRow := 0;
      results := map[];
      resultCount := 0;
      matchingRowsIndex := [];
      seen := rows;
      NothingFound(|seen|);
    }

    /**
     `onInput_` and `syncResults_`, up to the first batch.  The index of the selected result in its row
     is left over from the search before.  If a visible row matches, the new selection is right exactly
     if that index was 0 and the selected result was known; and if the index is too large for the first
     row that matches, looking the selected result up fails and the search never runs.
     */
    method StartSearch(text: string, topRowIndex: int, bottomRowIndex: int) returns (thrown: bool, ghost first: int)
      requires 0 <= topRowIndex <= bottomRowIndex + 1 <= |rows| && 0 <= selectedRowIndex
      requires forall r :: r in changedRows ==> 0 <= r < |rows|
      modifies this
      ensures rows == old(rows) && changedRows == old(changedRows) && searchText == text &&
        batchSize == old(batchSize) && batchRow == 0
      ensures text == "" ==> !thrown && resultCount == 0 && Labelled()
      ensures old(selectedResultKnown) ==> selectedResultKnown
      ensures text != "" ==>
        (first == -1 || (topRowIndex <= first <= bottomRowIndex && Matches(rows[first], text, 0) != [])) &&
        (forall r :: topRowIndex <= r <= bottomRowIndex && (first == -1 || r < first) ==>
         Matches(rows[r], text, 0) == []) &&
        (thrown <==>
         first != -1 && old(selectedResultKnown) &&
         old(selectedRowIndex) >= |Matches(rows[first], text, 0)|)
      ensures text != "" && !thrown ==>
        Searching() && Labelled() && seen == rows &&
        (Placed() <==> first == -1 || (old(selectedRowIndex) == 0 && old(selectedResultKnown))) &&
        (first != -1 ==> Selected() && resultCount > 0) && (first == -1 ==> selectedResultKnown && resultCount == 0)
      ensures text != "" && !thrown && first != -1 ==>
        selectedRowNum == first && selectedRowIndex == old(selectedRowIndex) &&
        selectedResultKnown == old(selectedResultKnown)
    {
      hide Before, Matches, Lists;
      ResetSearch(text);
      first := -1;
      if searchText != "" {
        // Without a text to search for, `findInRow_` finds nothing.
        first := SearchWindow(topRowIndex, bottomRowIndex);
      }
      if !Highlightable() {
        return true, first;
      }
      UpdateCounterLabel();
      thrown := false;
    }

    /**
     `syncResults_`.  Whatever the selection was before, the search fails, or leaves the new selection
     right, under the same conditions as its start; the batch decides nothing.
     */
    method SyncResults(text: string, topRowIndex: int, bottomRowIndex: int) returns (thrown: bool, ghost first: int)
      requires 0 <= topRowIndex <= bottomRowIndex + 1 <= |rows| && 0 <= selectedRowIndex
      requires forall r :: r in changedRows ==> 0 <= r < |rows|
      modifies this
      ensures rows == old(rows) && changedRows == old(changedRows) && searchText == text && batchSize == old(batchSize)
      ensures text == "" ==> !thrown && resultCount == 0 && Labelled()
      ensures text != "" ==>
        (first == -1 || (topRowIndex <= first <= bottomRowIndex && Matches(rows[first], text, 0) != [])) &&
        (forall r :: topRowIndex <= r <= bottomRowIndex && (first == -1 || r < first) ==>
         Matches(rows[r], text, 0) == []) &&
        (thrown <==>
         first != -1 && old(selectedResultKnown) &&
         old(selectedRowIndex) >= |Matches(rows[first], text, 0)|)
      ensures text != "" && !thrown ==>
        Searching() && Labelled() && seen == rows &&
        (Placed() <==> first == -1 || (old(selectedRowIndex) == 0 && old(selectedResultKnown))) &&
        (|rows| <= batchSize && Placed() ==> Valid())
      ensures text != "" && !thrown && first != -1 ==>
        selectedRowNum == first && selectedRowIndex == old(selectedRowIndex) &&
        selectedResultKnown == old(selectedResultKnown)
      ensures text != "" && !thrown && first == -1 && resultCount > 0 ==> AtFirst()
    {
      hide Counted, Listed, Before, Placed, Matches, Selected, AtFirst;
      thrown, first := StartSearch(text, topRowIndex, bottomRowIndex);
      if thrown || text == "" {
        return;
      }
      RunNextBatch();
    }

    lemma NothingFound(row: nat)
      requires results == map[]
      ensures Before(results, row) == 0
    {
      if row > 0 {
        NothingFound(row - 1);
      }
    }

    /** `redraw_` looks for results in the visible rows that no batch has come to yet. */
    method Redraw(topRowIndex: int, bottomRowIndex: int)
      requires Searching() && 0 <= topRowIndex <= bottomRowIndex + 1 <= |rows| && (batchRow == |rows| || seen == rows)
      modifies this`results, this`resultCount, this`selectedRowNum, this`selectedOrdinal, this`enabled, this`seen
      ensures Searching() && (old(Placed()) && selectedResultKnown ==> Placed())
      ensures if batchRow == |rows| then unchanged(this) else seen == rows
      ensures forall r :: topRowIndex <= r <= bottomRowIndex && Matches(seen[r], searchText, 0) != [] ==> r in results
      ensures forall r :: r in results ==> r in old(results) || topRowIndex <= r <= bottomRowIndex
      ensures old(resultCount) > 0 ==> selectedRowNum == old(selectedRowNum) && resultCount > 0
      ensures old(resultCount) == 0 && resultCount > 0 ==> AtFirst()
    {
      hide Before, Matches, Lists, Counted, Placed;
      CountedIs();
      CountedFacts();
      CountedNone();
      for rowNum := topRowIndex to bottomRowIndex + 1
        invariant Searching() && (old(Placed()) && selectedResultKnown ==> Placed())
        invariant if batchRow == |rows| then unchanged(this) else seen == rows
        invariant |seen| == |rows| && searchText != ""
        invariant forall r :: topRowIndex <= r < rowNum && Matches(seen[r], searchText, 0) != [] ==> r in results
        invariant forall r :: r in results ==> r in old(results) || topRowIndex <= r < rowNum
        invariant old(resultCount) > 0 ==> selectedRowNum == old(selectedRowNum) && resultCount > 0
        invariant old(resultCount) == 0 ==>
          (forall r :: r in results ==> r < rowNum) && if resultCount > 0 then AtFirst() else results == map[]
      {
        if rowNum >= batchRow {
          var _ := SearchRow(rowNum);
          CountedNone();
        }
      }
      HighlightSelectedResult();
    }

    lemma CountedNone()
      requires Counted()
      ensures resultCount >= 0 && (resultCount == 0 ==> results == map[])
    {
      forall r | r in results ensures resultCount > 0 {
        CountedRow(r);
      }
    }

    lemma CountedRow(r: int)
      requires Counted() && r in results
      ensures resultCount > 0
    {
      SomeResult(results);
      assert CountAt(results, r) > 0;
    }

    /** One turn of the loop of a batch. */
    method SearchNextRow()
      requires Searching() && seen == rows && batchRow < |rows|
      modifies this`results, this`resultCount, this`selectedRowNum, this`selectedOrdinal, this`enabled, this`seen
      modifies this`matchingRowsIndex, this`batchRow
      ensures Searching() && seen == rows && batchRow == old(batchRow) + 1
      ensures old(Placed()) && selectedResultKnown ==> Placed()
      ensures old(Selected()) ==> Selected() && (Placed() <==> old(Placed()))
      ensures old(resultCount) > 0 ==> selectedRowNum == old(selectedRowNum) && resultCount > 0
      ensures old(resultCount) == 0 && resultCount > 0 ==> selectedRowNum == old(batchRow) && selectedRowNum in results
      ensures forall r :: r in results ==> r in old(results) || r == old(batchRow)
      ensures forall r :: r in old(results) ==> r in results
    {
      hide Before, Matches, Lists;
      var found := SearchRow(batchRow);
      ListsMore(matchingRowsIndex, results, batchRow);
      if found {
        matchingRowsIndex := matchingRowsIndex + [batchRow];
      }
      batchRow := batchRow + 1;
    }

    /** The next batch of the search. */
    method RunNextBatch()
      requires Searching() && seen == rows
      modifies this
      ensures Searching() && Labelled() && seen == rows && rows == old(rows) && searchText == old(searchText)
      ensures batchRow == if old(batchRow) + batchSize < |rows| then old(batchRow) + batchSize else |rows|
      ensures batchSize == old(batchSize) && changedRows == old(changedRows)
      ensures (old(selectedResultKnown) ==> selectedResultKnown) && (old(Placed()) && selectedResultKnown ==> Placed())
      ensures old(Selected()) ==> Selected() && (Placed() <==> old(Placed()))
      ensures batchRow == |rows| && Placed() ==> Valid()
      ensures old(resultCount) > 0 ==>
        resultCount > 0 && selectedRowNum == old(selectedRowNum) && selectedRowIndex == old(selectedRowIndex) &&
        selectedResultKnown == old(selectedResultKnown)
      ensures old(resultCount) == 0 && resultCount > 0 ==> AtFirst()
    {
      hide Before, Matches, Lists;
      CountedNone();
      var batchEnd := if batchRow + batchSize < |rows| then batchRow + batchSize else |rows|;
      while batchRow < batchEnd
        invariant batchRow <= batchEnd <= |rows| && Searching() && seen == rows &&
          (old(Placed()) && selectedResultKnown ==> Placed())
        invariant rows == old(rows) && searchText == old(searchText) && batchSize == old(batchSize) &&
          changedRows == old(changedRows)
        invariant selectedResultKnown == old(selectedResultKnown) && selectedRowIndex == old(selectedRowIndex)
        invariant old(resultCount) > 0 ==> selectedRowNum == old(selectedRowNum) && resultCount > 0
        invariant old(resultCount) == 0 ==>
          (forall r :: r in results ==> r < batchRow) && (resultCount > 0 ==> AtFirst())
        invariant old(Selected()) ==> Selected() && (Placed() <==> old(Placed()))
      {
        CountedNone();
        SearchNextRow();
      }
      UpdateCounterLabel();
    }
  }
}
