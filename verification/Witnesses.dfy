/**
 Concrete inputs for which the program does not do what one would expect of it.  The exact conditions
 are in the contracts of the methods called here.
 */
module Witnesses {
  import opened Common
  import opened TextAttributes
  import opened Cells
  import opened Screens
  import opened Grids
  import opened GridRuns
  import opened Terminals
  import FindBars
  import Siblings
  import Positions
  import ScrollPorts

  const DEFAULTS := Attributes(
    DefaultColor, DefaultColor, DefaultColor, false, false, false, false, 0, false, false, false, false, true, None,
    None, true)

  /** The attributes that `print` sets for a wide glyph. */
  const WIDE_TEXT := DEFAULTS.(wcNode := true, asciiNode := false)

  const WIDE := Wide(0x4E00)
  const LETTER := Narrow(0x61)

  /** A row that shows one wide glyph. */
  method WideRow() returns (s: Screen)
    ensures fresh(s) && s.Valid() && |s.rowsArray| == 1 &&
      s.CursorLine() == TextCells([WIDE], WIDE_TEXT.ContainerStyle())
  {
    hide RowCells, TextCells, Insert, CursorAt, NodeOk, Attributes.ContainerStyle;
    s := new Screen(10, WIDE_TEXT);
    s.rowsArray := [Row(0, 0, false, [BareTextNode([])])];
    EmptyTextRow();
    s.SetCursorPosition(0, 0);
    s.FirstColumnIsEasy();
    s.InsertString([WIDE]);
    InsertAtEnd([], TextCells([WIDE], WIDE_TEXT.ContainerStyle()));
    assert [] + TextCells([WIDE], WIDE_TEXT.ContainerStyle()) == TextCells([WIDE], WIDE_TEXT.ContainerStyle());
  }

  /** Text put between the two columns of a wide glyph lands behind it, and the cursor cache is wrong. */
  method InsertIntoWideGlyph() returns (s: Screen)
    ensures !s.Valid()
  {
    hide RowCells, TextCells, CursorAt, NodeOk, Screen.CursorInsideWide;
    s := WideRow();
    s.textAttributes, s.columnCount := DEFAULTS, 10;
    s.SetCursorPosition(0, 1);
    WideLine(WIDE_TEXT.ContainerStyle());
    s.CursorInsideMeans();
    s.InsertString([LETTER]);
  }

  lemma WideLine(style: Style)
    ensures InsideWide(TextCells([WIDE], style), 1)
  {
    WideCells([WIDE], style);
  }

  /** Deleting with the cursor beyond a wide span that the margin has emptied breaks the cursor cache. */
  method DeleteBehindEmptiedSpan() returns (s: Screen)
    ensures !s.Valid()
  {
    s := new Screen(10, DEFAULTS);
    s.rowsArray := [Row(0, 0, false, [Node(false, PLAIN, false, true, [])])];
    s.SetCursorPosition(0, 1);
    FirstColumn(s.Nodes(), s.cursorNode);
    var _ := s.DeleteChars(1);
  }

  /** Inserting lines with the cursor below the region takes the cursor off its row. */
  method InsertLinesBelowRegion() returns (t: Terminal)
    ensures !t.Valid() && t.Steady()
  {
    hide Terminal.Core, Terminal.Grid, Modes.Ok;
    t := new Terminal(1, 2, DEFAULTS);
    t.SetVTScrollRegion(Some(0), Some(0));
    t.SetAbsoluteCursorPosition(1, 0);
    t.InsertLines(1);
  }

  /** The alternate screen, empty at first, takes the only line of the scrollback. */
  method AlternateTakesScrollback() returns (t: Terminal)
    ensures t.Valid() && t.scrollbackRows == []
  {
    hide Terminal.Core, Modes.Ok;
    t := new Terminal(1, 1, DEFAULTS);
    t.NewLine();
    assert |t.scrollbackRows| == 1;
    t.SetAlternateMode(true);
  }

  lemma FoldsAround(above: seq<ScrollPorts.Child>, placed: seq<ScrollPorts.Child>, below: seq<ScrollPorts.Child>)
    requires above == [] && below == [] && |placed| == 1
    ensures above + [ScrollPorts.TopFold] + placed + [ScrollPorts.BottomFold] + below
         == [ScrollPorts.TopFold, placed[0], ScrollPorts.BottomFold]
  {
  }

  /** One row of a provider, drawn and not selected. */
  method DrawnRow() returns (p: ScrollPorts.ScrollPort)
    ensures fresh(p) && p.visibleRowCount == 1 && p.RowsKnown() && !p.isMultiline
    ensures |p.rowNodes| == 3 && p.rowNodes[1].RowNode? && p.rowNodes[1].rowIndex == 0
    ensures p.rowNodes == [ScrollPorts.TopFold, p.rowNodes[1], ScrollPorts.BottomFold]
  {
    hide ScrollPorts.ScrollPort.Attached, ScrollPorts.ScrollPort.Undisturbed, ScrollPorts.ScrollPort.OnProvider;
    hide Siblings.Distinct;
    p := new ScrollPorts.ScrollPort([ScrollPorts.RowNode(0, 0)], 1);
    assert p.Above(0) == [] && p.Below(0) == [];
    ghost var placed := p.Redraw(0);
    FoldsAround(p.Above(0), placed, p.Below(0));
  }

  /** A selected row that the provider has lost is removed by the next redraw. */
  method RedrawBeyondProvider() returns (p: ScrollPorts.ScrollPort, row: ScrollPorts.Child)
    ensures p.Selected() == [row] && row !in p.rowNodes
  {
    p := DrawnRow();
    row := p.rowNodes[1];
    p.startRow, p.endRow, p.rows := Some(row), Some(row), [];
    ghost var placed := p.Redraw(0);
  }

  lemma FirstColumn(nodes: seq<Node>, i: int)
    requires |nodes| == 1 && i == 0
    ensures StartColumn(nodes, i) == 0
  {
    assert nodes[..0] == [];
  }

  const UNDERLINED := Modes(2, 1, false, true, None, None, DEFAULTS.(underline := 1))
  const EMPTY_LINE := Grid([Entry(0, [])], 0, 0, 0, false, 1)

  lemma EmptyLineIsCut()
    ensures GridOk(EMPTY_LINE, UNDERLINED) && CutsOff(EMPTY_LINE, UNDERLINED, 0)
  {
  }

  /** With underline on, erasing the end of a line that is cut off shows no underlined spaces. */
  lemma EraseUnderlined()
    ensures GridOk(EMPTY_LINE, UNDERLINED) && !ErasesRight(EMPTY_LINE, UNDERLINED, 0)
  {
    hide GridOk, CutsOff, ErasesRight, EraseToRight;
    EmptyLineIsCut();
    EraseToRightShows(EMPTY_LINE, UNDERLINED, 0);
  }

  /** Invisible text with no other attribute set shows its letters in the terminal's foreground. */
  lemma InvisibleShows()
    ensures var style := DEFAULTS.(invisible := true).ContainerStyle();
            DrawnForeground(style) == TerminalForeground && DrawnBackground(style) == TerminalBackground
  {
    InvisibleHides(DEFAULTS.(invisible := true));
  }

  /** Column 0 of a row whose first span has lost its text leads to no node. */
  lemma FirstColumnLost()
    ensures var nodes := [Positions.Span(false, []), Positions.TextLeaf([LETTER])];
            Positions.RowWidth(nodes) == 1 && Positions.Locate(nodes, 0) == None && Positions.Locate(nodes, 1).Some?
  {
    var nodes := [Positions.Span(false, []), Positions.TextLeaf([LETTER])];
    assert nodes[1..] == [Positions.TextLeaf([LETTER])] && nodes[1..][1..] == [];
    assert Positions.TextContent(nodes[1..]) == [LETTER];
    assert Positions.TextContent(nodes) == [LETTER];
    assert StrWidth([LETTER][1..]) == 0;
    Positions.ColumnRoundTrip(nodes, 0);
    Positions.ColumnRoundTrip(nodes, 1);
  }

  /** The second match of a row is selected; a search for a text that the row holds once then fails. */
  method SearchAgain() returns (thrown: bool)
    ensures thrown
  {
    hide FindBars.Matches, FindBars.Before, FindBars.MatchesBefore;
    var f := new FindBars.FindBar(["aab"], 500);
    ghost var first;
    var failed;
    failed, first := f.SyncResults("a", 0, 0);
    SearchText();
    f.Agreement();
    if f.selectedOrdinal == 0 {
      f.SelectNext(1);
      f.Agreement();
    }
    thrown, first := f.StartSearch("b", 0, 0);
  }

  lemma SearchText()
    ensures FindBars.Matches("aab", "a", 0) == [0, 1] && FindBars.Matches("aab", "b", 0) == [2]
    ensures FindBars.MatchesBefore(["aab"], "a", 1) == 2 && FindBars.MatchesBefore(["aab"], "a", 0) == 0
  {
    assert "aab"[2..3][0] == 'b' && "aab"[1..2][0] == 'a' && "aab"[0..1][0] == 'a';
    assert FindBars.IndexOf("aab", "a", 3) == -1;
    assert FindBars.IndexOf("aab", "a", 2) == -1;
    assert FindBars.IndexOf("aab", "a", 1) == 1;
    assert FindBars.IndexOf("aab", "b", 2) == 2;
    assert FindBars.IndexOf("aab", "b", 1) == 2;
    assert FindBars.MatchesBefore(["aab"], "a", 0) == 0;
  }
}
