/**
 Text with column widths (`hterm.wc`), text attributes, and the DOM containers that hold a row's text
 (`hterm.TextAttributes`).  A glyph is a printable code point, one or two columns wide.
 */
module TextAttributes {
  import opened Common

  datatype Glyph = Narrow(code: nat) | Wide(code: nat)

  type Text = seq<Glyph>

  const SPACE: Glyph := Narrow(0x20)

  function CharWidth(g: Glyph): nat {
    if g.Wide? then 2 else 1
  }

  function StrWidth(text: Text): nat {
    if text == [] then 0 else CharWidth(text[0]) + StrWidth(text[1..])
  }

  /** The text from the first glyph that ends after column `start`. */
  function DropColumns(text: Text, start: nat): Text {
    if text == [] || CharWidth(text[0]) > start then text
    else DropColumns(text[1..], start - CharWidth(text[0]))
  }

  /** The leading glyphs that fit into `width` columns as a whole. */
  function TakeColumns(text: Text, width: nat): Text {
    if text == [] || CharWidth(text[0]) > width then []
    else [text[0]] + TakeColumns(text[1..], width - CharWidth(text[0]))
  }

  function Spaces(n: nat): (text: Text)
    ensures |text| == n && forall i :: 0 <= i < n ==> text[i] == SPACE
  {
    seq(n, i => SPACE)
  }

  /** Printable ASCII, as `splitWidecharString` tests for it. */
  predicate AllAscii(text: Text) {
    forall i :: 0 <= i < |text| ==> text[i].Narrow? && 0x20 <= text[i].code <= 0x7f
  }

  predicate AllNarrow(text: Text) {
    forall i :: 0 <= i < |text| ==> text[i].Narrow?
  }

  datatype Color =
    | DefaultColor
    | Palette(index: nat)
    | Rgb(value: nat)
    | Faded(color: Color)
    | TerminalForeground
    | TerminalBackground

  /** The current attributes of a screen.  Colours are kept as their sources. */
  datatype Attributes = Attributes(
    foregroundSource: Color, backgroundSource: Color, underlineSource: Color,
    bold: bool, faint: bool, italic: bool, blink: bool, underline: nat, strikethrough: bool,
    inverse: bool, invisible: bool, wcNode: bool, asciiNode: bool,
    tileData: Option<nat>, uri: Option<nat>, enableBold: bool)
  {
    /** The colours after `syncColors`: fade, then swap, then hide. */
    function Background(): Color {
      var fg := if faint then Faded(foregroundSource) else foregroundSource;
      if !inverse then backgroundSource else if fg == DefaultColor then TerminalForeground else fg
    }

    function Foreground(): Color {
      var fg := if faint then Faded(foregroundSource) else foregroundSource;
      if invisible then Background()
      else if !inverse then fg
      else if backgroundSource == DefaultColor then TerminalBackground
      else backgroundSource
    }

    predicate IsDefault() {
      foregroundSource == DefaultColor && backgroundSource == DefaultColor &&
      !bold && !faint && !italic && !blink && underline == 0 && !strikethrough && !inverse && !invisible &&
      !wcNode && asciiNode && tileData == None && uri == None
    }

    /** The style of the container that these attributes create. */
    function ContainerStyle(): Style {
      if IsDefault() then PLAIN
      else Style(Foreground(), Background(), underlineSource, enableBold && bold, italic, blink, underline,
                 strikethrough, tileData, uri)
    }

    function CreateContainer(text: Text): Node {
      if IsDefault() then TextNode(text)
      else Node(false, ContainerStyle(), asciiNode, wcNode, text)
    }

    /** Text with these attributes may be put into `node`. */
    predicate MatchesContainer(node: Node) {
      if node.isText then IsDefault()
      else
        !(wcNode || node.wc) &&
        asciiNode == node.ascii &&
        !(tileData != None || node.style.tile != None) &&
        uri == node.style.uri &&
        (Foreground() == DefaultColor && node.style.color == DefaultColor) &&
        (Background() == DefaultColor && node.style.backgroundColor == DefaultColor) &&
        (underlineSource == DefaultColor && node.style.underlineColor == DefaultColor) &&
        (enableBold && bold) == node.style.bold &&
        blink == node.style.blink &&
        italic == node.style.italic &&
        underline == node.style.underline &&
        strikethrough == node.style.strikethrough
    }
  }

  /** What can be seen of a container, apart from its text. */
  datatype Style = Style(
    color: Color, backgroundColor: Color, underlineColor: Color, bold: bool, italic: bool, blink: bool,
    underline: nat, strikethrough: bool, tile: Option<nat>, uri: Option<nat>)

  const PLAIN := Style(DefaultColor, DefaultColor, DefaultColor, false, false, false, 0, false, None, None)

  /** A child of a row: a text node, or a styled span.  `wc` marks the span of one wide glyph. */
  datatype Node = Node(isText: bool, style: Style, ascii: bool, wc: bool, text: Text)
  {
    /** Missing blanks may become part of this node's text. */
    predicate HoldsBlanks() {
      isText ||
      !(wc || !ascii || style.tile != None || style.underline != 0 || style.strikethrough ||
        style.backgroundColor != DefaultColor)
    }
  }

  /** A text node of the default container. */
  function TextNode(text: Text): Node {
    Node(true, PLAIN, true, false, text)
  }

  /** A text node straight from the document, without the ASCII mark. */
  function BareTextNode(text: Text): Node {
    Node(true, PLAIN, false, false, text)
  }

  function NodeWidth(node: Node): nat {
    if !node.ascii then StrWidth(node.text) else |node.text|
  }

  function NodeSubstr(node: Node, start: nat, width: nat): Text {
    if !node.ascii then TakeColumns(DropColumns(node.text, start), width)
    else if start >= |node.text| then []
    else if start + width >= |node.text| then node.text[start..]
    else node.text[start..start + width]
  }

  function NodeSubstrFrom(node: Node, start: nat): Text {
    if !node.ascii then DropColumns(node.text, start)
    else if start >= |node.text| then []
    else node.text[start..]
  }

  /**
   The shape of the nodes that the screen builds: wide glyphs live alone in a span of their own, and a
   node marked ASCII holds narrow glyphs only.  A wide span may be empty (the right margin cut it) or
   hold a blank (half of a wide glyph was deleted).
   */
  predicate NodeShape(node: Node) {
    (node.ascii ==> AllNarrow(node.text)) &&
    (node.isText ==> node.style == PLAIN && !node.wc) &&
    (if node.wc then |node.text| <= 1 else AllNarrow(node.text))
  }

  /** Between edits a styled span also holds text. */
  predicate NodeOk(node: Node) {
    NodeShape(node) && (!node.isText && !node.wc ==> node.text != [])
  }

  /** A piece of text as `splitWidecharString` produces it, together with the attributes set for it. */
  predicate TokenOk(attributes: Attributes, text: Text) {
    text != [] &&
    (attributes.asciiNode ==> AllNarrow(text)) &&
    (if attributes.wcNode then |text| == 1 && text[0].Wide? else AllNarrow(text))
  }

  /** A matching container shows exactly what a new container would show. */
  lemma MatchingMeansSameStyle(attributes: Attributes, node: Node)
    requires NodeOk(node) && attributes.MatchesContainer(node)
    ensures node.style == attributes.ContainerStyle()
    ensures !node.wc && !attributes.wcNode && AllNarrow(node.text)
  {
  }

  /** A new container takes more of the same text, unless it is a wide span, a tile, or has a colour of its own. */
  lemma MatchesOwnContainer(attributes: Attributes, text: Text)
    ensures attributes.MatchesContainer(attributes.CreateContainer(text)) <==>
      attributes.IsDefault() ||
      (!attributes.wcNode && attributes.tileData == None && attributes.Foreground() == DefaultColor &&
       attributes.Background() == DefaultColor && attributes.underlineSource == DefaultColor)
  {
  }

  // ---------------------------------------------------------------- what attributes look like

  /** The colours that are drawn: without one of its own, a container shows those of the terminal. */
  function DrawnForeground(style: Style): Color {
    if style.color == DefaultColor then TerminalForeground else style.color
  }

  function DrawnBackground(style: Style): Color {
    if style.backgroundColor == DefaultColor then TerminalBackground else style.backgroundColor
  }

  /** Everything but the colours shows as it is set; lines are drawn in the colour set for them. */
  lemma DecorationShows(attributes: Attributes)
    ensures var style := attributes.ContainerStyle();
            style.bold == (attributes.bold && attributes.enableBold) && style.italic == attributes.italic &&
            style.blink == attributes.blink && style.underline == attributes.underline &&
            style.strikethrough == attributes.strikethrough && style.tile == attributes.tileData &&
            style.uri == attributes.uri &&
            (style.underline != 0 || style.strikethrough ==> style.underlineColor == attributes.underlineSource)
  {
  }

  /** Without inverse and invisible the colours are those set; faint text is faded. */
  lemma PlainColors(attributes: Attributes)
    requires !attributes.inverse && !attributes.invisible
    ensures var style := attributes.ContainerStyle();
            style.backgroundColor == attributes.backgroundSource &&
            style.color
            == if attributes.faint then Faded(attributes.foregroundSource) else attributes.foregroundSource
  {
  }

  /** Inverse text draws its letters in the background that plain text has, on the colour that its letters have. */
  lemma InverseSwaps(attributes: Attributes)
    requires attributes.inverse && !attributes.invisible
    ensures var style, plain := attributes.ContainerStyle(), attributes.(inverse := false).ContainerStyle();
            style.color == DrawnBackground(plain) && style.backgroundColor == DrawnForeground(plain) &&
            style == plain.(color := style.color, backgroundColor := style.backgroundColor,
                            underlineColor := attributes.underlineSource)
  {
  }

  /**
   Invisible text has the background that it would have if it were visible, and its letters cannot be
   seen exactly if that background is a colour of its own: on the default background the letters get
   the default colour, which for letters is the terminal's foreground.
   */
  lemma InvisibleHides(attributes: Attributes)
    requires attributes.invisible
    ensures var style, visible := attributes.ContainerStyle(), attributes.(invisible := false).ContainerStyle();
            style.backgroundColor == visible.backgroundColor &&
            (DrawnForeground(style) == DrawnBackground(style) <==>
             style.backgroundColor != DefaultColor) &&
            (style.backgroundColor == DefaultColor <==>
             !attributes.inverse && attributes.backgroundSource == DefaultColor)
  {
  }

  lemma {:induction false} NarrowWidth(text: Text)
    requires AllNarrow(text)
    ensures StrWidth(text) == |text|
  {
    if text != [] {
      NarrowWidth(text[1..]);
    }
  }

  lemma {:induction false} NarrowDrop(text: Text, start: nat)
    requires AllNarrow(text)
    ensures DropColumns(text, start) == if start >= |text| then [] else text[start..]
  {
    if text != [] && start > 0 {
      NarrowDrop(text[1..], start - 1);
    }
  }

  lemma {:induction false} NarrowTake(text: Text, width: nat)
    requires AllNarrow(text)
    ensures TakeColumns(text, width) == if width >= |text| then text else text[..width]
  {
    if text != [] && width > 0 {
      NarrowTake(text[1..], width - 1);
    }
  }

  /** In a node of narrow glyphs columns are indices, marked ASCII or not. */
  lemma NarrowNode(node: Node, start: nat, width: nat)
    requires AllNarrow(node.text)
    ensures NodeWidth(node) == |node.text|
    ensures NodeSubstrFrom(node, start) == if start >= |node.text| then [] else node.text[start..]
    ensures NodeSubstr(node, start, width)
         == var rest := NodeSubstrFrom(node, start); if width >= |rest| then rest else rest[..width]
  {
    NarrowWidth(node.text);
    NarrowDrop(node.text, start);
    NarrowTake(NodeSubstrFrom(node, start), width);
  }

  // ---------------------------------------------------------------- runs of text

  /** A run of narrow glyphs, or one wide glyph. */
  datatype Token = Token(str: Text, wcNode: bool, asciiNode: bool, wcStrWidth: nat)

  predicate TokenFits(t: Token) {
    t.wcStrWidth == StrWidth(t.str) && (t.asciiNode <==> AllAscii(t.str)) &&
    if t.wcNode then |t.str| == 1 && t.str[0].Wide? else AllNarrow(t.str)
  }

  function Joined(tokens: seq<Token>): Text {
    if tokens == [] then [] else Joined(tokens[..|tokens| - 1]) + tokens[|tokens| - 1].str
  }

  lemma {:induction false} AsciiWidth(text: Text)
    requires AllAscii(text)
    ensures StrWidth(text) == |text|
  {
    NarrowWidth(text);
  }

  lemma {:induction false} WidthOfRun(text: Text, g: Glyph)
    ensures StrWidth(text + [g]) == StrWidth(text) + CharWidth(g)
    decreases |text|
  {
    if text == [] {
      assert StrWidth([g][1..]) == 0;
    } else {
      assert (text + [g])[1..] == text[1..] + [g];
      WidthOfRun(text[1..], g);
    }
  }

  /** The runs of a text: each is of its kind, and no two narrow runs are neighbours. */
  ghost predicate Runs(tokens: seq<Token>, text: Text) {
    Joined(tokens) == text &&
    (forall i :: 0 <= i < |tokens| ==> TokenFits(tokens[i]) && tokens[i].str != []) &&
    forall i :: 0 < i < |tokens| ==> tokens[i].wcNode || tokens[i - 1].wcNode
  }

  /** `splitWidecharString`, where every grapheme is one glyph. */
  method SplitWidecharString(str: Text) returns (tokens: seq<Token>)
    ensures str != [] ==> Runs(tokens, str)
    ensures AllNarrow(str) ==> tokens == [Token(str, false, AllAscii(str), |str|)]
  {
    hide Joined, StrWidth, Runs;
    if AllAscii(str) {
      AsciiWidth(str);
      OneRun(Token(str, false, true, |str|));
      return [Token(str, false, true, |str|)];
    }
    tokens := [];
    NoRuns();
    for k := 0 to |str|
      invariant Runs(tokens, str[..k]) && (k > 0 ==> tokens != [])
      invariant AllNarrow(str) ==> |tokens| <= 1 && (tokens != [] ==> !tokens[0].wcNode)
    {
      var grapheme := str[k];
      var isAscii := AllAscii([grapheme]);
      var isWideChar := grapheme.Wide?;
      var strWidth := if isAscii then 1 else CharWidth(grapheme);
      assert str[..k + 1] == str[..k] + [grapheme];
      if tokens != [] && !isWideChar && !tokens[|tokens| - 1].wcNode {
        var prev := tokens[|tokens| - 1];
        var longer := Token(prev.str + [grapheme], false, prev.asciiNode && isAscii, prev.wcStrWidth + strWidth);
        RunGrows(tokens, str[..k], longer, grapheme);
        tokens := tokens[..|tokens| - 1] + [longer];
      } else {
        RunAdded(tokens, str[..k], Token([grapheme], isWideChar, isAscii, strWidth), grapheme);
        tokens := tokens + [Token([grapheme], isWideChar, isAscii, strWidth)];
      }
    }
    assert str[..|str|] == str;
    if AllNarrow(str) {
      NarrowWidth(str);
      assert tokens == [tokens[0]];
      OnlyRun(tokens[0], str);
    }
  }

  lemma NoRuns()
    ensures Runs([], [])
  {
  }

  lemma {:induction false} OneRun(t: Token)
    ensures TokenFits(t) && t.str != [] ==> Runs([t], t.str)
  {
    assert [t][..0] == [];
    assert Joined([]) == [];
  }

  lemma {:induction false} OnlyRun(t: Token, text: Text)
    requires Runs([t], text)
    ensures t.str == text && TokenFits(t)
  {
    assert [t][..0] == [];
    assert Joined([]) == [];
    assert TokenFits([t][0]);
  }

  lemma AsciiGrows(text: Text, g: Glyph)
    ensures AllAscii(text + [g]) <==> AllAscii(text) && AllAscii([g])
  {
    assert (text + [g])[|text|] == g == [g][0];
    assert forall i :: 0 <= i < |text| ==> (text + [g])[i] == text[i];
  }

  lemma JoinedMore(init: seq<Token>, t: Token)
    ensures Joined(init + [t]) == Joined(init) + t.str
  {
    assert (init + [t])[..|init|] == init;
  }

  lemma {:induction false} RunGrows(tokens: seq<Token>, text: Text, longer: Token, g: Glyph)
    requires Runs(tokens, text) && tokens != [] && !tokens[|tokens| - 1].wcNode && g.Narrow?
    requires var prev := tokens[|tokens| - 1];
             longer == Token(prev.str + [g], false, prev.asciiNode && AllAscii([g]), prev.wcStrWidth + 1)
    ensures Runs(tokens[..|tokens| - 1] + [longer], text + [g])
  {
    hide Joined, StrWidth, AllAscii;
    var init, prev := tokens[..|tokens| - 1], tokens[|tokens| - 1];
    assert init + [prev] == tokens;
    JoinedMore(init, prev);
    JoinedMore(init, longer);
    WidthOfRun(prev.str, g);
    AsciiGrows(prev.str, g);
    assert TokenFits(prev) && TokenFits(longer);
  }

  lemma {:induction false} RunAdded(tokens: seq<Token>, text: Text, t: Token, g: Glyph)
    requires Runs(tokens, text) && (tokens == [] || g.Wide? || tokens[|tokens| - 1].wcNode)
    requires t == Token([g], g.Wide?, AllAscii([g]), CharWidth(g))
    ensures Runs(tokens + [t], text + [g])
  {
    assert (tokens + [t])[..|tokens|] == tokens;
    assert StrWidth([g][1..]) == 0;
    if AllAscii([g]) {
      assert [g][0].Narrow?;
    }
    assert TokenFits(t);
  }
}
