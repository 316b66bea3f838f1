/**
 The escape-sequence grammar of `hterm.VT` as an automaton that takes one code unit at a time.

 `Feed` consumes a single unit; `Run` folds it over a text.  The only place where the automaton
 looks back is a control string that meets a stray ESC: everything accumulated so far is then fed
 again as ordinary input.  Module `Vt` proves that the buffered, regex-driven interpreter computes
 exactly this fold.
 */
module VtAutomaton {

  /** A UTF-16 code unit, the element of a JavaScript string. */
  newtype Unit = u: int | 0 <= u < 0x1_0000

  type Text = seq<Unit>

  const BEL: Unit := 0x07
  const LF: Unit := 0x0a
  const CR: Unit := 0x0d
  const CAN: Unit := 0x18
  const SUB: Unit := 0x1a
  const ESC: Unit := 0x1b
  const SPACE: Unit := 0x20
  const HASH: Unit := 0x23
  const PERCENT: Unit := 0x25
  const SLASH: Unit := 0x2f
  const ZERO: Unit := 0x30
  const EIGHT: Unit := 0x38
  const NINE: Unit := 0x39
  const COLON: Unit := 0x3a
  const SEMICOLON: Unit := 0x3b
  const QUESTION: Unit := 0x3f
  const AT: Unit := 0x40
  const UPPER_G: Unit := 0x47
  const UPPER_I: Unit := 0x49
  const UPPER_P: Unit := 0x50
  const LEFT_BRACKET: Unit := 0x5b
  const BACKSLASH: Unit := 0x5c
  const RIGHT_BRACKET: Unit := 0x5d
  const CARET: Unit := 0x5e
  const UNDERSCORE: Unit := 0x5f
  const LOWER_K: Unit := 0x6b
  const LOWER_M: Unit := 0x6d
  const LOWER_P: Unit := 0x70
  const TILDE: Unit := 0x7e
  const DCS: Unit := 0x90
  const CSI: Unit := 0x9b
  const OSC: Unit := 0x9d
  const PM: Unit := 0x9e
  const APC: Unit := 0x9f

  /** The argument that turns the DCS `p` into tmux control mode: "1000". */
  const TMUX_ARGUMENT: Text := [0x31, 0x30, 0x30, 0x30]

  /** What the interpreter does to the world, in order.  Printed text is recorded unit by unit. */
  datatype Event =
    | Print(u: Unit)
    | Control(u: Unit)
    | Escape(u: Unit)
    | ControlSequence(code: Text, args: seq<Text>, subargs: set<nat>)
    | DeviceControl(code: Text, args: seq<Text>)
    | OperatingSystemCommand(code: Text, data: Text)
    | WindowName(name: Text)
    | TmuxLine(line: Text)
    | TmuxExit
    | ScreenAlignment
    | DesignateCharset(slot: Unit, charset: Unit)

  /** What happens to the text of a control string once its terminator arrives. */
  datatype StringKind = OscString | NameString | DiscardString

  datatype Mode =
    | Ground
    | EscapeSeen
    | SpaceSeen
    | HashSeen
    | CodingSystem
    | CodingSystemSlash
    | Charset(slot: Unit)
    | CsiParams(lead: Text, trail: Text, args: seq<Text>, subargs: set<nat>)
    | DcsParams(lead: Text, trail: Text, args: seq<Text>)
    | ControlString(kind: StringKind, saved: Text)
    | Tmux(saved: Text)

  /** `utf8` and `locked` are the coding system; `c1` says whether 8-bit controls are honoured. */
  datatype Machine = Machine(mode: Mode, utf8: bool, locked: bool, c1: bool)

  datatype Outcome = Outcome(machine: Machine, events: seq<Event>)

  /** The keys of the table of one-byte controls. */
  predicate IsControlKey(u: Unit) {
    u == 0x00 || u == 0x05 || 0x07 <= u <= 0x0f || u == 0x11 || u == 0x13 || u == CAN || u == SUB || u == ESC ||
    u == 0x7f || u == 0x84 || u == 0x85 || u == 0x88 || 0x8d <= u <= 0x90 || 0x96 <= u <= 0x98 || 0x9a <= u <= APC
  }

  /** Under UTF-8 the 8-bit controls are not controls at all. */
  predicate IsControl(u: Unit, utf8: bool) {
    IsControlKey(u) && (utf8 ==> u < 0x80)
  }

  predicate IsDigit(u: Unit) {
    ZERO <= u <= NINE
  }

  predicate IsFinal(u: Unit) {
    AT <= u <= TILDE
  }

  predicate IsParameterOrIntermediate(u: Unit) {
    SPACE <= u <= QUESTION
  }

  predicate IsCharsetSlot(u: Unit) {
    0x28 <= u <= 0x2b || 0x2d <= u <= SLASH
  }

  /** The text that an aborted string or an unfinished argument would hand back. */
  function Arg0(args: seq<Text>): Text {
    if args == [] then [] else args[0]
  }

  function Saved(mode: Mode): Text {
    match mode
    case DcsParams(_, _, args) => Arg0(args)
    case ControlString(_, saved) => saved
    case Tmux(saved) => saved
    case _ => []
  }

  /** A mode that may hand input on to the ground mode without consuming it ranks above it. */
  function Rank(mode: Mode): nat {
    if mode.ControlString? || mode.Charset? then 1 else 0
  }

  /** One unit makes the saved text longer by one at most, and then not that of a higher-ranking mode. */
  predicate SavesOne(before: Mode, after: Mode) {
    |Saved(after)| <= |Saved(before)| + 1 && (|Saved(after)| == |Saved(before)| + 1 ==> Rank(after) <= Rank(before))
  }

  /** Starting a parameter: a missing first parameter is supplied. */
  function NextParameter(args: seq<Text>): seq<Text> {
    if args == [] then [[], []] else args + [[]]
  }

  function ExtendParameter(args: seq<Text>, u: Unit): seq<Text> {
    if args == [] then [[u]] else args[|args| - 1 := args[|args| - 1] + [u]]
  }

  /** A one-byte control that passed the gate on subarguments. */
  function FeedControl(m: Machine, u: Unit): (o: Outcome)
    ensures SavesOne(m.mode, o.machine.mode)
  {
    if u > 0x7f && !m.c1 then Outcome(m, [])
    else if u == ESC then Outcome(m.(mode := EscapeSeen), [])
    else if u == CAN || u == SUB then Outcome(m.(mode := Ground), [Control(u), Print(QUESTION)])
    else if u == DCS then Outcome(m.(mode := DcsParams([], [], [])), [])
    else if u == CSI then Outcome(m.(mode := CsiParams([], [], [], {})), [])
    else if u == OSC then Outcome(m.(mode := ControlString(OscString, [])), [])
    else if u == PM || u == APC then Outcome(m.(mode := ControlString(DiscardString, [])), [])
    else Outcome(m, [Control(u)])
  }

  function FeedGround(m: Machine, u: Unit): (o: Outcome)
    ensures SavesOne(m.mode, o.machine.mode)
  {
    if IsControl(u, m.utf8) then FeedControl(m, u) else Outcome(m, [Print(u)])
  }

  function FeedEscape(m: Machine, u: Unit): (o: Outcome)
    ensures SavesOne(m.mode, o.machine.mode)
  {
    if u == ESC then Outcome(m, [])
    else if u == UPPER_P then Outcome(m.(mode := DcsParams([], [], [])), [])
    else if u == LEFT_BRACKET then Outcome(m.(mode := CsiParams([], [], [], {})), [])
    else if u == RIGHT_BRACKET then Outcome(m.(mode := ControlString(OscString, [])), [])
    else if u == CARET || u == UNDERSCORE then Outcome(m.(mode := ControlString(DiscardString, [])), [])
    else if u == LOWER_K then Outcome(m.(mode := ControlString(NameString, [])), [])
    else if u == SPACE then Outcome(m.(mode := SpaceSeen), [])
    else if u == HASH then Outcome(m.(mode := HashSeen), [])
    else if u == PERCENT then Outcome(m.(mode := CodingSystem), [])
    else if IsCharsetSlot(u) then Outcome(m.(mode := Charset(u)), [])
    else Outcome(m.(mode := Ground), [Escape(u)])
  }

  function FeedCodingSystem(m: Machine, u: Unit): Machine {
    if u == SLASH then m.(mode := CodingSystemSlash)
    else if !m.locked && u == AT then Machine(Ground, false, false, m.c1)
    else if !m.locked && u == UPPER_G then Machine(Ground, true, false, m.c1)
    else m.(mode := Ground)
  }

  function FeedCodingSystemSlash(m: Machine, u: Unit): Machine {
    if !m.locked && UPPER_G <= u <= UPPER_I then Machine(Ground, true, true, m.c1)
    else m.(mode := Ground)
  }

  /** Only `m` (SGR) accepts parameters with subparameters. */
  predicate CsiAccepted(code: Text, subargs: set<nat>) {
    subargs == {} || code == [LOWER_M]
  }

  function FeedCsi(m: Machine, u: Unit): (o: Outcome)
    requires m.mode.CsiParams?
    ensures SavesOne(m.mode, o.machine.mode)
  {
    var CsiParams(lead, trail, args, subargs) := m.mode;
    var ground := m.(mode := Ground);
    if IsFinal(u) then
      var code := lead + trail + [u];
      Outcome(ground, if CsiAccepted(code, subargs) then [ControlSequence(code, args, subargs)] else [])
    else if u == SEMICOLON then
      if trail != [] then Outcome(ground, [])
      else Outcome(m.(mode := CsiParams(lead, trail, NextParameter(args), subargs)), [])
    else if IsDigit(u) || u == COLON then
      if trail != [] then Outcome(ground, [])
      else
        var args' := ExtendParameter(args, u);
        var subargs' := if u == COLON then subargs + {|args'| - 1} else subargs;
        Outcome(m.(mode := CsiParams(lead, trail, args', subargs')), [])
    else if IsParameterOrIntermediate(u) then
      if args == [] then Outcome(m.(mode := CsiParams(lead + [u], trail, args, subargs)), [])
      else Outcome(m.(mode := CsiParams(lead, trail + [u], args, subargs)), [])
    else if IsControl(u, m.utf8) then
      if subargs != {} then Outcome(m, []) else FeedControl(m, u)
    else Outcome(ground, [])
  }

  function FeedDcs(m: Machine, u: Unit): (o: Outcome)
    requires m.mode.DcsParams?
    ensures SavesOne(m.mode, o.machine.mode)
  {
    var DcsParams(lead, trail, args) := m.mode;
    var ground := m.(mode := Ground);
    if IsFinal(u) then
      var code := lead + trail + [u];
      var next := if code == [LOWER_P] && args == [TMUX_ARGUMENT] then Tmux([])
                  else ControlString(DiscardString, Arg0(args));
      Outcome(m.(mode := next), [DeviceControl(code, args)])
    else if u == SEMICOLON then
      if trail != [] then Outcome(ground, [])
      else Outcome(m.(mode := DcsParams(lead, trail, NextParameter(args))), [])
    else if IsDigit(u) then
      if trail != [] then Outcome(ground, [])
      else Outcome(m.(mode := DcsParams(lead, trail, ExtendParameter(args, u))), [])
    else if IsParameterOrIntermediate(u) then
      if args == [] then Outcome(m.(mode := DcsParams(lead + [u], trail, args)), [])
      else Outcome(m.(mode := DcsParams(lead, trail + [u], args)), [])
    else if IsControl(u, m.utf8) then FeedControl(m, u)
    else Outcome(ground, [])
  }

  /** The number of leading digits. */
  function DigitCount(text: Text): (n: nat)
    ensures n <= |text|
    ensures forall i :: 0 <= i < n ==> IsDigit(text[i])
    ensures n < |text| ==> !IsDigit(text[n])
  {
    if text == [] || !IsDigit(text[0]) then 0 else 1 + DigitCount(text[1..])
  }

  /** The units that `.` does not match in a regular expression. */
  predicate IsLineTerminator(u: Unit) {
    u == LF || u == CR || u == 0x2028 || u == 0x2029
  }

  /** What a complete string does: an OSC is split at its number, a window name is delivered. */
  function Deliver(kind: StringKind, text: Text): seq<Event> {
    match kind
    case DiscardString => []
    case NameString => [WindowName(text)]
    case OscString =>
      var n := DigitCount(text);
      var data := if n < |text| && text[n] == SEMICOLON then text[n + 1..] else text[n..];
      if n == 0 || exists u :: u in data && IsLineTerminator(u) then []
      else [OperatingSystemCommand(text[..n], data)]
  }

  predicate EndsWith(text: Text, u: Unit) {
    text != [] && text[|text| - 1] == u
  }

  function FeedTmux(m: Machine, u: Unit): (o: Outcome)
    requires m.mode.Tmux?
    ensures SavesOne(m.mode, o.machine.mode)
  {
    var saved := m.mode.saved;
    if u == LF && EndsWith(saved, CR) then
      Outcome(m.(mode := Tmux([])), [TmuxLine(saved[..|saved| - 1])])
    else if u == BACKSLASH && EndsWith(saved, ESC) then
      Outcome(m.(mode := Ground), [TmuxExit])
    else
      Outcome(m.(mode := Tmux(saved + [u])), [])
  }

  /**
   One unit.  In a control string an ESC waits for the next unit: a backslash completes the string,
   anything else aborts it and replays the saved text together with that unit from the ground mode.
   */
  function Feed(m: Machine, u: Unit): (o: Outcome)
    ensures SavesOne(m.mode, o.machine.mode)
    decreases |Saved(m.mode)| + 1, Rank(m.mode), 1, 0
  {
    hide FeedGround, FeedEscape, FeedCsi, FeedDcs, FeedTmux, Deliver;
    match m.mode
    case Ground => FeedGround(m, u)
    case EscapeSeen => FeedEscape(m, u)
    case SpaceSeen => Outcome(m.(mode := Ground), [])
    case HashSeen => Outcome(m.(mode := Ground), if u == EIGHT then [ScreenAlignment] else [])
    case CodingSystem => Outcome(FeedCodingSystem(m, u), [])
    case CodingSystemSlash => Outcome(FeedCodingSystemSlash(m, u), [])
    case Charset(slot) =>
      if u == ESC then Outcome(m.(mode := EscapeSeen), [])
      else Outcome(m.(mode := Ground), [DesignateCharset(slot, u)])
    case CsiParams(_, _, _, _) => FeedCsi(m, u)
    case DcsParams(_, _, _) => FeedDcs(m, u)
    case Tmux(_) => FeedTmux(m, u)
    case ControlString(kind, saved) =>
      if EndsWith(saved, ESC) then
        if u == BACKSLASH then Outcome(m.(mode := Ground), Deliver(kind, saved[..|saved| - 1]))
        else Run(m.(mode := Ground), saved + [u])
      else if u == BEL then Outcome(m.(mode := Ground), Deliver(kind, saved))
      else Outcome(m.(mode := ControlString(kind, saved + [u])), [])
  }

  /** The automaton over a whole text. */
  function Run(m: Machine, text: Text): (o: Outcome)
    ensures |Saved(o.machine.mode)| <= |Saved(m.mode)| + |text|
    decreases |Saved(m.mode)| + |text|, Rank(m.mode), |text|, 1
  {
    if text == [] then Outcome(m, [])
    else
      var first := Feed(m, text[0]);
      var rest := Run(first.machine, text[1..]);
      Outcome(rest.machine, first.events + rest.events)
  }
}
