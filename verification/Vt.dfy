/**
 The resumable, buffered interpreter `hterm.VT`: a parse state whose fields every parse function
 updates, a loop that calls the current parse function, and regex searches over the rest of the
 buffer.  Each parse function is proved to preserve `Future()`, what the automaton would make of the
 current state and the unread input, so `Interpret` computes the automaton's fold, for any buffer.
 */
module Vt {
  import opened Common
  import opened VtAutomaton
  import opened VtTheory

  /** The parse functions that can be current. */
  datatype ParseFunction =
    | ParseUnknown
    | ParseEscape
    | ParseCsi
    | ParseDcs
    | ParseUntilStringTerminator
    | ParseOsc
    | ParseWindowName
    | ParseTmux
    | ParseSpace
    | ParseHash
    | ParseCodingSystem
    | ParseCharset(slot: Unit)

  /** The index of the first control at or after `from`, or the length of `buf`. */
  function NextControl(buf: Text, from: nat, utf8: bool): (n: nat)
    requires from <= |buf|
    ensures from <= n <= |buf|
    ensures n < |buf| ==> IsControl(buf[n], utf8)
    ensures forall j :: from <= j < n ==> !IsControl(buf[j], utf8)
    decreases |buf| - from
  {
    if from == |buf| || IsControl(buf[from], utf8) then from else NextControl(buf, from + 1, utf8)
  }

  /** The index of the first ESC or BEL at or after `from`, or the length of `buf`. */
  function NextTerminator(buf: Text, from: nat): (n: nat)
    requires from <= |buf|
    ensures from <= n <= |buf|
    ensures n < |buf| ==> buf[n] == ESC || buf[n] == BEL
    ensures forall j :: from <= j < n ==> buf[j] != ESC && buf[j] != BEL
    decreases |buf| - from
  {
    if from == |buf| || buf[from] == ESC || buf[from] == BEL then from else NextTerminator(buf, from + 1)
  }

  /** The index of the first tmux terminator at or after `from`, or the length of `buf`. */
  function NextTmuxStop(buf: Text, from: nat): (n: nat)
    requires from <= |buf|
    ensures from <= n <= |buf|
    ensures n < |buf| ==> TmuxStopAt(buf, n)
    ensures forall j :: from <= j < n ==> !TmuxStopAt(buf, j)
    ensures from == 0 && n == |buf| ==> TmuxFree(buf)
    decreases |buf| - from
  {
    if from == |buf| || TmuxStopAt(buf, from) then from else NextTmuxStop(buf, from + 1)
  }

  /** `StringClosed`, counted in the unread text instead of in the text with a taken-back ESC. */
  lemma StringClosedAt(m: Machine, buf: Text, rest: Text, bufInserted: nat, n: nat, count: nat)
    requires StringStop(m, buf, n) && bufInserted <= 1 && buf == (if bufInserted == 1 then [ESC] else []) + rest
    requires buf[n] == BEL || (buf[n] == ESC && n + 1 < |buf| && buf[n + 1] == BACKSLASH)
    requires count + bufInserted == n + (if buf[n] == ESC then 2 else 1)
    ensures 0 < count <= |rest|
    ensures Run(m, buf) == Then(Close(m, buf[..n]), rest[count..])
  {
    hide Run, Feed, Deliver;
    StringClosed(m, buf, n);
    assert buf[count + bufInserted..] == rest[count..];
  }

  lemma RestBehind(saved: Text, rest: Text, k: nat)
    requires |saved| <= k <= |saved + rest|
    ensures rest[k - |saved|..] == (saved + rest)[k..]
  {
  }

  /** The parse functions that take one unit each implement one branch of the automaton. */
  lemma FeedIs(m: Machine, u: Unit)
    ensures m.mode.EscapeSeen? ==> Feed(m, u) == FeedEscape(m, u)
    ensures m.mode.CsiParams? ==> Feed(m, u) == FeedCsi(m, u)
    ensures m.mode.DcsParams? ==> Feed(m, u) == FeedDcs(m, u)
  {
  }

  lemma CodingSystemPair(m: Machine, rest: Text)
    requires m.mode.CodingSystem? && |rest| > 1 && rest[0] == SLASH
    ensures Run(m, rest[..2]) == Outcome(FeedCodingSystemSlash(m, rest[1]), [])
  {
    var next := m.(mode := CodingSystemSlash);
    RunOne(next, rest[1]);
    assert rest[..2][1..] == [rest[1]];
    RunStep(m, rest[..2]);
  }

  lemma GroundControl(m: Machine, u: Unit)
    requires IsControl(u, m.utf8)
    ensures FeedGround(m, u) == FeedControl(m, u)
  {
  }

  lemma JoinEvents(a: seq<Event>, b: seq<Event>, c: seq<Event>)
    ensures (a + b) + c == a + (b + c)
  {
  }

  /** What the search for a terminator has passed over holds none. */
  lemma StopFound(m: Machine, buf: Text, n: nat)
    requires m.mode.ControlString? && !EndsWith(m.mode.saved, ESC) && n <= |buf|
    requires forall j :: 0 <= j < n ==> buf[j] != ESC && buf[j] != BEL
    ensures StopFree(buf[..n]) && (n < |buf| ==> StringStop(m, buf, n))
  {
    hide EndsWith;
  }

  lemma NoEvents(events: seq<Event>)
    ensures [] + events == events
  {
  }

  class ParseState {
    var func: ParseFunction
    var buf: Option<Text>
    var pos: nat
    var args: seq<Text>
    var subargs: set<nat>

    constructor ()
      ensures func == ParseUnknown && buf == None && pos == 0 && args == [] && subargs == {}
    {
      func, buf, pos, args, subargs := ParseUnknown, None, 0, [], {};
    }

    /** The unread part of the buffer; a position past the end leaves nothing. */
    function PeekRemainingBuf(): Text
      reads this
    {
      if buf.None? || |buf.value| <= pos then [] else buf.value[pos..]
    }

    /** The buffer is empty, or the position is past the end. */
    predicate IsComplete()
      reads this
    {
      buf.None? || |buf.value| <= pos
    }

    method ResetParseFunction()
      modifies this`func
      ensures func == ParseUnknown
    {
      func := ParseUnknown;
    }

    method ResetBuf(newBuf: Option<Text>)
      modifies this`buf, this`pos
      ensures buf == newBuf && pos == 0
    {
      buf, pos := newBuf, 0;
    }

    method ResetArguments()
      modifies this`args
      ensures args == []
    {
      args := [];
    }

    method Reset(newBuf: Text)
      modifies this`func, this`buf, this`pos, this`args
      ensures func == ParseUnknown && buf == Some(newBuf) && pos == 0 && args == []
    {
      ResetParseFunction();
      ResetBuf(Some(newBuf));
      ResetArguments();
    }

    method Advance(count: nat)
      modifies this`pos
      ensures pos == old(pos) + count
      ensures count <= |old(PeekRemainingBuf())| ==> PeekRemainingBuf() == old(PeekRemainingBuf())[count..]
    {
      pos := pos + count;
    }

    /** The next unit as a text of length one, or the empty text at the end of the buffer. */
    method ConsumeChar() returns (ch: Text)
      modifies this`pos
      ensures pos == old(pos) + 1
      ensures old(IsComplete()) ==> ch == [] && IsComplete()
      ensures !old(IsComplete()) ==>
        ch == [old(PeekRemainingBuf())[0]] &&
        PeekRemainingBuf() == old(PeekRemainingBuf())[1..]
    {
      ch := if IsComplete() then [] else [PeekRemainingBuf()[0]];
      pos := pos + 1;
    }
  }

  class Interpreter {
    const parseState: ParseState
    var leadingModifier: Text
    var trailingModifier: Text
    var codingSystemUtf8: bool
    var codingSystemLocked: bool
    var enable8BitControl: bool
    /** Everything asked of the terminal so far. */
    var log: seq<Event>

    constructor (enable8BitControl: bool)
      ensures fresh(parseState) && Valid() && log == []
      ensures State() == Machine(Ground, false, false, enable8BitControl)
    {
      parseState := new ParseState();
      leadingModifier, trailingModifier := [], [];
      codingSystemUtf8, codingSystemLocked := false, false;
      this.enable8BitControl := enable8BitControl;
      log := [];
    }

    ghost function Mode(): Mode
      reads this, parseState
    {
      var args := parseState.args;
      match parseState.func
      case ParseUnknown => Ground
      case ParseEscape => EscapeSeen
      case ParseCsi => CsiParams(leadingModifier, trailingModifier, args, parseState.subargs)
      case ParseDcs => DcsParams(leadingModifier, trailingModifier, args)
      case ParseUntilStringTerminator => ControlString(DiscardString, Arg0(args))
      case ParseOsc => ControlString(OscString, Arg0(args))
      case ParseWindowName => ControlString(NameString, Arg0(args))
      case ParseTmux => Tmux(Arg0(args))
      case ParseSpace => SpaceSeen
      case ParseHash => HashSeen
      case ParseCodingSystem => CodingSystem
      case ParseCharset(slot) => Charset(slot)
    }

    /** The automaton state this object stands for; stale fields are not part of it. */
    ghost function State(): Machine
      reads this, parseState
    {
      Machine(Mode(), codingSystemUtf8, codingSystemLocked, enable8BitControl)
    }

    ghost predicate Valid()
      reads this, parseState
    {
      Wf(Mode()) && (parseState.subargs != {} ==> parseState.func.ParseCsi?)
    }

    /** What the automaton makes of the unread input. */
    ghost function Ahead(): Outcome
      reads this, parseState
    {
      Run(State(), parseState.PeekRemainingBuf())
    }

    /** Where the automaton ends, with the complete log, once the unread input is consumed. */
    ghost function Whole(): Outcome
      reads this, parseState
    {
      Outcome(Ahead().machine, log + Ahead().events)
    }

    /** The same for this interpreter, which settles at the end of a buffer. */
    ghost function Future(): Outcome
      reads this, parseState
    {
      Outcome(Settle(Whole().machine), Whole().events)
    }

    /** What shrinks: saved plus unread text, then "is a control string", then unread text. */
    ghost function Measure(): (nat, nat, nat)
      reads this, parseState
    {
      var rest := parseState.PeekRemainingBuf();
      (|Saved(Mode())| + |rest|, Rank(Mode()), |rest|)
    }

    static ghost predicate Less(a: (nat, nat, nat), b: (nat, nat, nat)) {
      a.0 < b.0 || (a.0 == b.0 && (a.1 < b.1 || (a.1 == b.1 && a.2 < b.2)))
    }

    /** The test that `interpret` makes after every call; failing it would raise an error. */
    twostate predicate Altered()
      reads this, parseState
    {
      parseState.func != old(parseState.func) || parseState.pos != old(parseState.pos) ||
        parseState.buf != old(parseState.buf)
    }

    /** The first `k` units of the input were consumed, with the outcome `o`. */
    twostate predicate Took(k: nat, o: Outcome)
      requires 0 < k <= |old(parseState.PeekRemainingBuf())|
      reads this, parseState
    {
      State() == o.machine && log == old(log) + o.events &&
      parseState.PeekRemainingBuf() == old(parseState.PeekRemainingBuf())[k..] &&
      (parseState.subargs != {} ==> parseState.func.ParseCsi?) && Altered()
    }

    /** The unit that the parse function looks at. */
    ghost function Next(): Unit
      requires !parseState.IsComplete()
      reads this, parseState
    {
      parseState.PeekRemainingBuf()[0]
    }

    /** Consuming as the automaton does loses nothing, and gets closer to the end. */
    twostate lemma TookSteps(k: nat)
      requires 0 < k <= |old(parseState.PeekRemainingBuf())| && old(Valid())
      requires Took(k, Run(old(State()), old(parseState.PeekRemainingBuf())[..k]))
      ensures Whole() == old(Whole()) && Valid() && Less(Measure(), old(Measure()))
    {
      hide Run, Feed, Wf;
      var m, rest := old(State()), old(parseState.PeekRemainingBuf());
      RunKeepsWf(m, rest[..k]);
      RunMeasure(m, rest[..k]);
      assert rest == rest[..k] + rest[k..];
      RunAppend(m, rest[..k], rest[k..]);
      ThenAfter(old(log), Run(m, rest[..k]), rest[k..]);
    }

    twostate lemma TookStep()
      requires !old(parseState.IsComplete()) && old(Valid())
      requires Took(1, Feed(old(State()), old(Next())))
      ensures Whole() == old(Whole()) && Valid() && Less(Measure(), old(Measure()))
    {
      hide Run, Feed, Wf;
      RunOne(old(State()), old(Next()));
      assert old(parseState.PeekRemainingBuf())[..1] == [old(Next())];
      TookSteps(1);
    }

    /** Record what the terminal is asked to do. */
    method Emit(events: seq<Event>)
      modifies this`log
      ensures log == old(log) + events
    {
      log := log + events;
    }

    method StartDcs()
      modifies this`leadingModifier, this`trailingModifier, parseState`func, parseState`args
      ensures parseState.func == ParseDcs && parseState.args == [] && leadingModifier == [] && trailingModifier == []
    {
      parseState.ResetArguments();
      leadingModifier, trailingModifier := [], [];
      parseState.func := ParseDcs;
    }

    method StartCsi()
      modifies this`leadingModifier, this`trailingModifier, parseState`func, parseState`args
      ensures parseState.func == ParseCsi && parseState.args == [] && leadingModifier == [] && trailingModifier == []
    {
      parseState.ResetArguments();
      leadingModifier, trailingModifier := [], [];
      parseState.func := ParseCsi;
    }

    method StartString(func: ParseFunction)
      modifies parseState`func, parseState`args
      ensures parseState.func == func && parseState.args == []
    {
      parseState.ResetArguments();
      parseState.func := func;
    }

    /** `dispatch('CC1', u)`: the gates on subarguments and on 8-bit controls, then the handler. */
    method DispatchControl(u: Unit)
      requires parseState.func.ParseUnknown? || parseState.func.ParseCsi? || parseState.func.ParseDcs?
      modifies this`leadingModifier, this`trailingModifier, this`log, parseState`func, parseState`args
      ensures var m := old(State());
              var o := if parseState.subargs != {} then Outcome(m, []) else FeedControl(m, u);
              State() == o.machine && log == old(log) + o.events
    {
      if parseState.subargs != {} {
        return;
      }
      if u > 0x7f && !enable8BitControl {
        return;
      }
      if u == ESC {
        parseState.func := ParseEscape;
      } else if u == CAN || u == SUB {
        parseState.ResetParseFunction();
        Emit([Control(u), Print(QUESTION)]);
      } else if u == DCS {
        StartDcs();
      } else if u == CSI {
        StartCsi();
      } else if u == OSC {
        StartString(ParseOsc);
      } else if u == PM || u == APC {
        StartString(ParseUntilStringTerminator);
      } else {
        Emit([Control(u)]);
      }
    }

    /** Text up to a control is printed, then the control is dispatched. */
    method PrintThenControl(buf: Text, nextControl: nat)
      requires parseState.subargs == {} && parseState.func.ParseUnknown? && buf == parseState.PeekRemainingBuf()
      requires nextControl < |buf| && IsControl(buf[nextControl], codingSystemUtf8) &&
        Plain(buf[..nextControl], codingSystemUtf8)
      modifies this, parseState
      ensures Took(nextControl + 1, Run(old(State()), buf[..nextControl + 1]))
    {
      hide Run, FeedControl, FeedGround, Plain, IsControl, Printed;
      ghost var m := State();
      var plain := buf[..nextControl];
      PlainThen(m, plain, buf[nextControl]);
      GroundControl(m, buf[nextControl]);
      assert plain + [buf[nextControl]] == buf[..nextControl + 1];
      if nextControl != 0 {
        Emit(Printed(plain));
      }
      DispatchControl(buf[nextControl]);
      parseState.Advance(nextControl + 1);
    }

    /** `parseUnknown_`: print everything up to the next control, then dispatch it. */
    method RunUnknown() returns (ghost taken: nat)
      requires parseState.subargs == {} && parseState.func.ParseUnknown? && !parseState.IsComplete()
      modifies this, parseState
      ensures 0 < taken <= |old(parseState.PeekRemainingBuf())|
      ensures Took(taken, Run(old(State()), old(parseState.PeekRemainingBuf())[..taken]))
    {
      hide Run, FeedControl, FeedGround;
      var buf := parseState.PeekRemainingBuf();
      var nextControl := NextControl(buf, 0, codingSystemUtf8);
      if nextControl == |buf| {
        assert buf[..nextControl] == buf;
        RunPlain(State(), buf);
        Emit(Printed(buf));
        parseState.Reset([]);
        return |buf|;
      }
      PrintThenControl(buf, nextControl);
      return nextControl + 1;
    }


    /** The closing part of `parseCSI_`. */
    method FinishCsi()
      modifies parseState`func, parseState`args, parseState`subargs
      ensures parseState.func == ParseUnknown && parseState.args == [] && parseState.subargs == {}
    {
      parseState.ResetArguments();
      parseState.subargs := {};
      parseState.ResetParseFunction();
    }

    /** A separator: the next parameter starts, after a missing first one if there was none. */
    method StartParameter()
      modifies parseState`args
      ensures parseState.args == NextParameter(old(parseState.args))
    {
      if parseState.args == [] {
        parseState.args := parseState.args + [[]];
      }
      parseState.args := parseState.args + [[]];
    }

    method AddToParameter(ch: Unit)
      modifies parseState`args
      ensures parseState.args != [] && parseState.args == ExtendParameter(old(parseState.args), ch)
    {
      var args := parseState.args;
      if args == [] {
        parseState.args := [[ch]];
      } else {
        parseState.args := args[|args| - 1 := args[|args| - 1] + [ch]];
      }
    }

    /** `parseCSI_`: one unit of a control sequence. */
    method RunCsi()
      requires parseState.func.ParseCsi? && !parseState.IsComplete()
      modifies this, parseState
      ensures Took(1, FeedCsi(old(State()), old(Next())))
    {
      hide FeedControl, NextParameter, ExtendParameter, SavesOne;
      var ch := parseState.PeekRemainingBuf()[0];
      var args := parseState.args;
      if IsFinal(ch) {
        var code := leadingModifier + trailingModifier + [ch];
        if CsiAccepted(code, parseState.subargs) {
          Emit([ControlSequence(code, args, parseState.subargs)]);
        }
        FinishCsi();
      } else if ch == SEMICOLON {
        if trailingModifier != [] {
          FinishCsi();
        } else {
          StartParameter();
        }
      } else if IsDigit(ch) || ch == COLON {
        if trailingModifier != [] {
          FinishCsi();
        } else {
          AddToParameter(ch);
          if ch == COLON {
            parseState.subargs := parseState.subargs + {|parseState.args| - 1};
          }
        }
      } else if IsParameterOrIntermediate(ch) {
        if args == [] {
          leadingModifier := leadingModifier + [ch];
        } else {
          trailingModifier := trailingModifier + [ch];
        }
      } else if IsControl(ch, codingSystemUtf8) {
        DispatchControl(ch);
      } else {
        FinishCsi();
      }
      parseState.Advance(1);
    }

    method FinishDcs()
      modifies parseState`func, parseState`args
      ensures parseState.func == ParseUnknown && parseState.args == []
    {
      parseState.ResetArguments();
      parseState.ResetParseFunction();
    }

    /** `dispatch('DCS', code)`: only `p` with the argument 1000 takes over the parser. */
    method DispatchDcs(code: Text)
      modifies this`log, parseState`func, parseState`args
      ensures log == old(log) + [DeviceControl(code, old(parseState.args))]
      ensures if code == [LOWER_P] && old(parseState.args) == [TMUX_ARGUMENT]
              then parseState.func == ParseTmux && parseState.args == []
              else parseState.func == old(parseState.func) && parseState.args == old(parseState.args)
    {
      Emit([DeviceControl(code, parseState.args)]);
      if code == [LOWER_P] && parseState.args == [TMUX_ARGUMENT] {
        parseState.ResetArguments();
        parseState.func := ParseTmux;
      }
    }

    /** `parseDCS_`: one unit of a device control introducer. */
    method RunDcs()
      requires parseState.subargs == {} && parseState.func.ParseDcs? && !parseState.IsComplete()
      modifies this, parseState
      ensures Took(1, FeedDcs(old(State()), old(Next())))
    {
      hide FeedControl, NextParameter, ExtendParameter, SavesOne;
      var ch := parseState.PeekRemainingBuf()[0];
      var args := parseState.args;
      if IsFinal(ch) {
        parseState.Advance(1);
        DispatchDcs(leadingModifier + trailingModifier + [ch]);
        if parseState.func == ParseDcs {
          parseState.func := ParseUntilStringTerminator;
        }
        return;
      } else if ch == SEMICOLON {
        if trailingModifier != [] {
          FinishDcs();
        } else {
          StartParameter();
        }
      } else if IsDigit(ch) {
        if trailingModifier != [] {
          FinishDcs();
        } else {
          AddToParameter(ch);
        }
      } else if IsParameterOrIntermediate(ch) {
        if args == [] {
          leadingModifier := leadingModifier + [ch];
        } else {
          trailingModifier := trailingModifier + [ch];
        }
      } else if IsControl(ch, codingSystemUtf8) {
        DispatchControl(ch);
      } else {
        FinishDcs();
      }
      parseState.Advance(1);
    }

    /** The ESC handler's parse function, with the dispatch of the two-unit sequences. */
    method RunEscape()
      requires parseState.subargs == {} && parseState.func.ParseEscape? && !parseState.IsComplete()
      modifies this, parseState
      ensures Took(1, FeedEscape(old(State()), old(Next())))
    {
      hide SavesOne;
      var consumed := parseState.ConsumeChar();
      var ch := consumed[0];
      if ch == ESC {
        return;
      }
      if ch == UPPER_P {
        StartDcs();
      } else if ch == LEFT_BRACKET {
        StartCsi();
      } else if ch == RIGHT_BRACKET {
        StartString(ParseOsc);
      } else if ch == CARET || ch == UNDERSCORE {
        StartString(ParseUntilStringTerminator);
      } else if ch == LOWER_K {
        StartString(ParseWindowName);
      } else if ch == SPACE {
        parseState.func := ParseSpace;
      } else if ch == HASH {
        parseState.func := ParseHash;
      } else if ch == PERCENT {
        parseState.func := ParseCodingSystem;
      } else if IsCharsetSlot(ch) {
        parseState.func := ParseCharset(ch);
      } else {
        Emit([Escape(ch)]);
      }
      if parseState.func == ParseEscape {
        parseState.ResetParseFunction();
      }
    }

    /** `ESC SP x`: swallowed. */
    method RunSpace()
      requires parseState.subargs == {} && parseState.func.ParseSpace? && !parseState.IsComplete()
      modifies this, parseState
      ensures Took(1, Feed(old(State()), old(Next())))
    {
      var _ := parseState.ConsumeChar();
      parseState.ResetParseFunction();
    }

    /** `ESC # x`: only 8 means something. */
    method RunHash()
      requires parseState.subargs == {} && parseState.func.ParseHash? && !parseState.IsComplete()
      modifies this, parseState
      ensures Took(1, Feed(old(State()), old(Next())))
    {
      var ch := parseState.ConsumeChar();
      if ch == [EIGHT] {
        Emit([ScreenAlignment]);
      }
      parseState.ResetParseFunction();
    }

    /** `ESC ( x` and its kin.  An ESC is left in the buffer for the ground parser. */
    method RunCharset() returns (ghost taken: nat)
      requires parseState.subargs == {} && parseState.func.ParseCharset? && !parseState.IsComplete()
      modifies this, parseState
      ensures taken <= 1 && (taken == 1 ==> Took(1, Feed(old(State()), old(Next()))))
      ensures taken == 0 ==>
        State() == old(State()).(mode := Ground) && log == old(log) && parseState.subargs == {} && Altered() &&
        parseState.PeekRemainingBuf() == old(parseState.PeekRemainingBuf()) && parseState.PeekRemainingBuf()[0] == ESC
    {
      if parseState.PeekRemainingBuf()[0] == ESC {
        parseState.ResetParseFunction();
        return 0;
      }
      var slot := parseState.func.slot;
      var ch := parseState.ConsumeChar();
      Emit([DesignateCharset(slot, ch[0])]);
      parseState.ResetParseFunction();
      return 1;
    }

    /** `ESC % x` and `ESC % / x`: the third unit of the long form is read in the same call. */
    method RunCodingSystem()
      requires parseState.subargs == {} && parseState.func.ParseCodingSystem? && !parseState.IsComplete()
      modifies this, parseState
      ensures old(Next()) != SLASH ==> Took(1, Feed(old(State()), old(Next())))
      ensures var rest := old(parseState.PeekRemainingBuf());
              rest[0] == SLASH && |rest| > 1 ==> Took(2, Outcome(FeedCodingSystemSlash(old(State()), rest[1]), []))
      ensures var rest := old(parseState.PeekRemainingBuf());
              rest == [SLASH] ==> Took(1, Outcome(old(State()).(mode := Ground), []))
    {
      var ch := parseState.ConsumeChar();
      if codingSystemLocked {
        if ch == [SLASH] {
          var _ := parseState.ConsumeChar();
        }
        parseState.ResetParseFunction();
        return;
      }
      if ch == [AT] {
        codingSystemUtf8, codingSystemLocked := false, false;
      } else if ch == [UPPER_G] {
        codingSystemUtf8, codingSystemLocked := true, false;
      } else if ch == [SLASH] {
        ch := parseState.ConsumeChar();
        if ch != [] && UPPER_G <= ch[0] <= UPPER_I {
          codingSystemUtf8, codingSystemLocked := true, true;
        }
      }
      parseState.ResetParseFunction();
    }

    /** The unit that the automaton would remember at the end of the buffer is settled right away. */
    method StepCodingSystem()
      requires Valid() && parseState.func.ParseCodingSystem? && !parseState.IsComplete()
      modifies this, parseState
      ensures Valid() && Future() == old(Future())
      ensures Less(Measure(), old(Measure())) && Altered()
    {
      hide Run;
      ghost var m, rest := State(), parseState.PeekRemainingBuf();
      RunCodingSystem();
      if rest[0] != SLASH {
        TookStep();
      } else if |rest| > 1 {
        CodingSystemPair(m, rest);
        TookSteps(2);
      } else {
        assert rest == [SLASH];
        RunOne(m, SLASH);
        RunNothing(State());
      }
    }

    /** An ESC that is left in the buffer is what the automaton feeds to the ground mode. */
    method StepCharset()
      requires Valid() && parseState.func.ParseCharset? && !parseState.IsComplete()
      modifies this, parseState
      ensures Valid() && Whole() == old(Whole())
      ensures Less(Measure(), old(Measure())) && Altered()
    {
      hide Run;
      ghost var m, rest := State(), parseState.PeekRemainingBuf();
      ghost var taken := RunCharset();
      if taken == 1 {
        TookStep();
      } else {
        RunStep(m, rest);
        RunStep(State(), rest);
      }
    }

    ghost predicate InTmux()
      reads this, parseState
    {
      parseState.func.ParseTmux? && parseState.subargs == {} && parseState.args != [] && TmuxFree(parseState.args[0])
    }

    /** No terminator in `buf`: save it as an unfinished line. */
    method SaveTmuxLine(buf: Text)
      requires InTmux() && buf == parseState.args[0] + parseState.PeekRemainingBuf() && TmuxFree(buf)
      modifies parseState
      ensures InTmux() && parseState.buf == None
      ensures Ahead() == old(Ahead())
      ensures Measure().0 == old(Measure().0)
    {
      hide Run, Feed;
      RunTmuxFree(State(), parseState.PeekRemainingBuf());
      parseState.args := parseState.args[0 := buf];
      parseState.ResetBuf(None);
      RunNothing(State());
    }

    /** The terminator at `index` of `buf`: deliver the line, or leave the mode. */
    method CutTmuxLine(buf: Text, index: nat) returns (more: bool)
      requires InTmux() && buf == parseState.args[0] + parseState.PeekRemainingBuf()
      requires TmuxStopAt(buf, index) && forall j :: 0 <= j < index ==> !TmuxStopAt(buf, j)
      modifies this, parseState
      ensures Whole() == old(Whole()) && parseState.subargs == {}
      ensures if more then InTmux() else parseState.func.ParseUnknown?
      ensures |parseState.PeekRemainingBuf()| < |old(parseState.PeekRemainingBuf())|
      ensures Measure().0 < old(Measure().0)
    {
      hide Run, Feed, Then;
      var rest := parseState.PeekRemainingBuf();
      var args0InitialLength := |parseState.args[0]|;
      TmuxDelivery(State(), rest, index);
      ThenAfter(log, TmuxStop(State(), buf, index), buf[index + 2..]);
      RestBehind(parseState.args[0], rest, index + 2);
      parseState.args := parseState.args[0 := []];
      parseState.Advance(index + 2 - args0InitialLength);
      if buf[index] == ESC {
        Emit([TmuxExit]);
        parseState.ResetArguments();
        parseState.ResetParseFunction();
        return false;
      }
      Emit([TmuxLine(buf[..index])]);
      return true;
    }

    /** `parseTmuxControlModeData_`: deliver as many complete lines as the buffer holds. */
    method RunTmux()
      requires Valid() && parseState.func.ParseTmux? && !parseState.IsComplete()
      modifies this, parseState
      ensures Whole() == old(Whole()) && Altered() && Less(Measure(), old(Measure())) && Valid()
    {
      hide Run, Feed;
      if parseState.args == [] {
        parseState.args := [[]];
      }
      var more := true;
      while more
        invariant Whole() == old(Whole()) && parseState.subargs == {}
        invariant if parseState.func.ParseTmux? then InTmux() else !more && parseState.func.ParseUnknown?
        invariant !more ==>
          parseState.buf == None ||
          |parseState.PeekRemainingBuf()| < |old(parseState.PeekRemainingBuf())|
        invariant |parseState.PeekRemainingBuf()| <= |old(parseState.PeekRemainingBuf())|
        invariant Measure().0 <= old(Measure().0)
        decreases more, |parseState.PeekRemainingBuf()|
      {
        var buf := parseState.args[0] + parseState.PeekRemainingBuf();
        var index := NextTmuxStop(buf, 0);
        if index == |buf| {
          SaveTmuxLine(buf);
          more := false;
        } else {
          more := CutTmuxLine(buf, index);
        }
      }
    }

    ghost predicate InString()
      reads this, parseState
    {
      Mode().ControlString?
    }

    /** A saved text that ends with an ESC gives it back, so that it is looked at again. */
    method TakeBackEscape() returns (buf: Text, bufInserted: nat)
      requires Valid() && InString() && !parseState.IsComplete()
      modifies parseState`args
      ensures Wf(Mode()) && InString() && Mode().kind == old(Mode()).kind && parseState.args != [] &&
        !EndsWith(parseState.args[0], ESC)
      ensures bufInserted <= 1 && buf == (if bufInserted == 1 then [ESC] else []) + parseState.PeekRemainingBuf()
      ensures Run(State(), buf) == old(Ahead())
      ensures |parseState.args[0]| + |buf| == old(Measure().0)
    {
      hide Run, Feed;
      buf := parseState.PeekRemainingBuf();
      bufInserted := 0;
      if parseState.args == [] {
        parseState.args := [[]];
      } else if EndsWith(parseState.args[0], ESC) {
        StringResumed(State(), buf);
        parseState.args := parseState.args[0 := parseState.args[0][..|parseState.args[0]| - 1]];
        buf := [ESC] + buf;
        bufInserted := 1;
      }
    }

    /** What `buf` is, once a saved ESC has been taken back. */
    ghost predicate Scanned(buf: Text, bufInserted: nat)
      reads this, parseState
    {
      InString() && parseState.args != [] && !EndsWith(parseState.args[0], ESC) &&
      bufInserted <= 1 && buf == (if bufInserted == 1 then [ESC] else []) + parseState.PeekRemainingBuf()
    }

    /** No terminator yet: keep everything and wait for the next buffer. */
    method KeepString(buf: Text, bufInserted: nat, ghost n: nat)
      requires Wf(Mode()) && Scanned(buf, bufInserted) && bufInserted < |buf| && n <= |buf| && StopFree(buf[..n])
      requires n == |buf| || (n + 1 == |buf| && buf[n] == ESC)
      modifies parseState`args, parseState`pos
      ensures Wf(Mode()) && InString() && parseState.IsComplete() && parseState.pos > old(parseState.pos)
      ensures Ahead() == Run(old(State()), buf)
      ensures Measure().0 == |old(parseState.args[0])| + |buf|
    {
      hide Run, Feed;
      StringKept(State(), buf, n);
      RunKeepsWf(State(), buf);
      parseState.args := parseState.args[0 := parseState.args[0] + buf];
      parseState.Advance(|buf| - bufInserted);
      RunNothing(State());
    }

    /** An embedded ESC: put everything back into the buffer, for the ground parser. */
    method AbortString(buf: Text, bufInserted: nat, ghost n: nat)
      requires Scanned(buf, bufInserted) && StringStop(State(), buf, n)
      requires n + 1 < |buf| && buf[n] == ESC && buf[n + 1] != BACKSLASH
      modifies parseState
      ensures parseState.func.ParseUnknown? && parseState.subargs == old(parseState.subargs)
      ensures Ahead() == Run(old(State()), buf)
      ensures Measure().0 == |old(parseState.args[0])| + |buf|
    {
      hide Run, Feed, Wf, StopFree, StringStop, EndsWith;
      StringAborted(State(), buf, n);
      parseState.args := parseState.args[0 := parseState.args[0] + buf];
      parseState.Reset(parseState.args[0]);
    }

    /** The terminator is there: leave the text in `args[0]`. */
    method CloseString(buf: Text, bufInserted: nat, n: nat)
      requires Scanned(buf, bufInserted) && StringStop(State(), buf, n) && n < |buf|
      requires buf[n] == BEL || (buf[n] == ESC && n + 1 < |buf| && buf[n + 1] == BACKSLASH)
      modifies parseState`args, parseState`func, parseState`pos
      ensures parseState.func.ParseUnknown?
      ensures Outcome(Ahead().machine, Deliver(old(Mode()).kind, Arg0(parseState.args)) + Ahead().events)
        == Run(old(State()), buf)
      ensures Measure().0 < |old(parseState.args[0])| + |buf|
    {
      hide Run, Feed, Deliver, StopFree, EndsWith, StringStop, Wf, Digits, StringSafe;
      var count := n + (if buf[n] == ESC then 2 else 1) - bufInserted;
      ghost var m, rest := State(), parseState.PeekRemainingBuf();
      StringClosedAt(m, buf, rest, bufInserted, n, count);
      parseState.args := parseState.args[0 := parseState.args[0] + buf[..n]];
      parseState.ResetParseFunction();
      parseState.Advance(count);
      assert State() == m.(mode := Ground) && parseState.PeekRemainingBuf() == rest[count..];
      assert Arg0(parseState.args) == m.mode.saved + buf[..n];
    }

    /**
     `parseUntilStringTerminator_`.  Returns false when the string was aborted and its text put back
     into the buffer.  A finished string leaves the ground function current and its text in `args[0]`.
     */
    method RunUntilStringTerminator() returns (ongoing: bool)
      requires Valid() && InString() && !parseState.IsComplete()
      modifies parseState
      ensures Valid() && Altered()
      ensures parseState.func == old(parseState.func) || parseState.func.ParseUnknown?
      ensures parseState.func == old(parseState.func) ==> ongoing && parseState.IsComplete()
      ensures parseState.func == old(parseState.func) || !ongoing ==>
        Ahead() == old(Ahead()) &&
        Measure().0 == old(Measure().0)
      ensures parseState.func != old(parseState.func) && ongoing ==>
        Measure().0 < old(Measure().0) &&
        Outcome(Ahead().machine, Deliver(old(Mode()).kind, Arg0(parseState.args)) + Ahead().events) == old(Ahead())
    {
      hide Run, Feed, Deliver, Saved, Rank, EndsWith, StringStop, StopFree;
      var buf, bufInserted := TakeBackEscape();
      var n := NextTerminator(buf, 0);
      StopFound(State(), buf, n);
      if n == |buf| || (buf[n] == ESC && !(n + 1 < |buf| && buf[n + 1] == BACKSLASH)) {
        if n < |buf| - 1 {
          AbortString(buf, bufInserted, n);
          return false;
        }
        KeepString(buf, bufInserted, n);
        return true;
      }
      CloseString(buf, bufInserted, n);
      return true;
    }

    /** The parse function of OSC: once the string is complete, dispatch on its number. */
    method RunOsc()
      requires Valid() && parseState.func.ParseOsc? && !parseState.IsComplete()
      modifies this, parseState
      ensures Whole() == old(Whole()) && Altered() && Less(Measure(), old(Measure())) && Valid()
    {
      hide Run, Feed, Then, Deliver, Settle, EndsWith, StringSafe, Wf;
      var ongoing := RunUntilStringTerminator();
      if !ongoing || parseState.func.ParseOsc? {
        return;
      }
      ghost var delivered := Deliver(OscString, Arg0(parseState.args));
      JoinEvents(log, delivered, Ahead().events);
      Emit(Deliver(OscString, Arg0(parseState.args)));
      parseState.ResetArguments();
    }

    /** The parse function of `ESC k`: once the string is complete, it names the window. */
    method RunWindowName()
      requires Valid() && parseState.func.ParseWindowName? && !parseState.IsComplete()
      modifies this, parseState
      ensures Whole() == old(Whole()) && Altered() && Less(Measure(), old(Measure())) && Valid()
    {
      hide Run, Feed, Then, Wf;
      var ongoing := RunUntilStringTerminator();
      if !ongoing || parseState.func.ParseWindowName? {
        return;
      }
      JoinEvents(log, [WindowName(Arg0(parseState.args))], Ahead().events);
      Emit([WindowName(Arg0(parseState.args))]);
      parseState.ResetArguments();
    }

    /** PM, APC and unclaimed device control strings use the string parser as it is. */
    method RunIgnoredString()
      requires Valid() && parseState.func.ParseUntilStringTerminator? && !parseState.IsComplete()
      modifies this, parseState
      ensures Whole() == old(Whole()) && Altered() && Less(Measure(), old(Measure())) && Valid()
    {
      hide Run, Feed, Then, Wf;
      var _ := RunUntilStringTerminator();
      NoEvents(Ahead().events);
    }

    /** `parseState.func.call(...)`. */
    method CallParseFunction()
      requires Valid() && !parseState.IsComplete()
      modifies this, parseState
      ensures Valid() && Future() == old(Future())
      ensures Less(Measure(), old(Measure())) && Altered()
    {
      hide Run, Feed, Wf, Settle;
      match parseState.func
      case ParseUnknown =>
        ghost var taken := RunUnknown();
        TookSteps(taken);
      case ParseEscape =>
        FeedIs(State(), Next());
        RunEscape();
        TookStep();
      case ParseCsi =>
        FeedIs(State(), Next());
        RunCsi();
        TookStep();
      case ParseDcs =>
        FeedIs(State(), Next());
        RunDcs();
        TookStep();
      case ParseUntilStringTerminator =>
        RunIgnoredString();
      case ParseOsc =>
        RunOsc();
      case ParseWindowName =>
        RunWindowName();
      case ParseTmux =>
        RunTmux();
      case ParseSpace =>
        RunSpace();
        TookStep();
      case ParseHash =>
        RunHash();
        TookStep();
      case ParseCodingSystem =>
        StepCodingSystem();
      case ParseCharset(_) =>
        StepCharset();
    }

    /**
     `interpret`: whatever the state and the buffer, the loop ends, the test for a parser that did
     not move never fails, and the result is what the automaton makes of the whole buffer.
     */
    method Interpret(buf: Text) returns (stuck: bool)
      requires Valid()
      modifies this, parseState
      ensures !stuck
      ensures Valid() && parseState.IsComplete()
      ensures State() == Interpreted(old(State()), buf).machine
      ensures log == old(log) + Interpreted(old(State()), buf).events
    {
      hide Run, Feed, Wf;
      parseState.ResetBuf(Some(buf));
      ghost var future := Future();
      while !parseState.IsComplete()
        invariant Valid() && Future() == future
        decreases Measure().0, Measure().1, Measure().2
      {
        var func, pos, before := parseState.func, parseState.pos, parseState.buf;
        CallParseFunction();
        if parseState.func == func && parseState.pos == pos && parseState.buf == before {
          return true;
        }
      }
      RunNothing(State());
      return false;
    }
  }

  /** Input in any number of calls: the log is that of one call with all of it, if no cut falls behind an `ESC % /`. */
  method InterpretAll(vt: Interpreter, chunks: seq<Text>)
    requires vt.Valid()
    modifies vt, vt.parseState
    ensures vt.Valid()
    ensures Outcome(vt.State(), vt.log) == Logged(old(vt.log), InterpretedAll(old(vt.State()), chunks))
    ensures CutsWell(old(vt.State()), chunks) ==>
      Outcome(vt.State(), vt.log) == Logged(old(vt.log), Interpreted(old(vt.State()), Joined(chunks)))
  {
    hide Run, Wf, Interpreted, InterpretedAll, CutsWell, Joined;
    ghost var start, log := vt.State(), vt.log;
    InterpretedNone(start, log);
    for i := 0 to |chunks|
      invariant vt.Valid() && Outcome(vt.State(), vt.log) == Logged(log, InterpretedAll(start, chunks[..i]))
    {
      InterpretedMore(start, chunks[..i], chunks[i]);
      assert chunks[..i] + [chunks[i]] == chunks[..i + 1];
      var _ := vt.Interpret(chunks[i]);
    }
    assert chunks[..|chunks|] == chunks;
    if CutsWell(start, chunks) {
      ChunksIndependent(start, chunks);
    }
  }

  ghost function Logged(log: seq<Event>, o: Outcome): Outcome {
    Outcome(o.machine, log + o.events)
  }

  lemma InterpretedNone(m: Machine, log: seq<Event>)
    ensures Logged(log, InterpretedAll(m, [])) == Outcome(m, log)
  {
    assert log + [] == log;
  }
}
