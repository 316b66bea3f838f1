/**
 Facts about the automaton: feeding in pieces, the shape of saved text, and what a control string
 or the tmux mode delivers.  The first two carry the proof of the buffered interpreter in `Vt`.
 */
module VtTheory {
  import opened VtAutomaton

  /** Run one outcome after another. */
  function Then(o: Outcome, text: Text): Outcome {
    var next := Run(o.machine, text);
    Outcome(next.machine, o.events + next.events)
  }

  /** The automaton does not care how its input is cut. */
  lemma {:induction false} RunAppend(m: Machine, a: Text, b: Text)
    ensures Run(m, a + b) == Then(Run(m, a), b)
    decreases |a|
  {
    hide Feed;
    if a == [] {
      assert a + b == b;
      assert [] + Run(m, b).events == Run(m, b).events;
    } else {
      assert (a + b)[0] == a[0] && (a + b)[1..] == a[1..] + b;
      var first := Feed(m, a[0]);
      RunAppend(first.machine, a[1..], b);
      var rest := Run(first.machine, a[1..]);
      assert first.events + (rest.events + Run(rest.machine, b).events)
          == (first.events + rest.events) + Run(rest.machine, b).events;
    }
  }

  lemma RunNothing(m: Machine)
    ensures Run(m, []) == Outcome(m, [])
  {
  }

  lemma RunOne(m: Machine, u: Unit)
    ensures Run(m, [u]) == Feed(m, u)
  {
    var first := Feed(m, u);
    assert Run(first.machine, []) == Outcome(first.machine, []);
    assert first.events + [] == first.events;
  }

  lemma RunStep(m: Machine, text: Text)
    requires text != []
    ensures Run(m, text) == Then(Feed(m, text[0]), text[1..])
  {
  }

  /** Text that only accumulates, then the unit that matters, then the rest. */
  lemma RunThrough(m: Machine, before: Text, mid: Machine, u: Unit, rest: Text)
    requires Run(m, before) == Outcome(mid, [])
    ensures Run(m, before + [u] + rest) == Then(Feed(mid, u), rest)
  {
    assert before + [u] + rest == before + ([u] + rest);
    RunAppend(m, before, [u] + rest);
    RunStep(mid, [u] + rest);
    assert ([u] + rest)[1..] == rest;
    var o := Then(Feed(mid, u), rest);
    assert [] + o.events == o.events;
  }

  lemma ThenAfter(log: seq<Event>, o: Outcome, text: Text)
    ensures log + Then(o, text).events == (log + o.events) + Run(o.machine, text).events
    ensures Then(o, text).machine == Run(o.machine, text).machine
  {
  }

  lemma ThenNothing(o: Outcome)
    ensures Then(o, []) == o
  {
    assert o.events + [] == o.events;
  }

  /** The record of printing a text. */
  function Printed(text: Text): (events: seq<Event>)
    ensures |events| == |text|
  {
    seq(|text|, i requires 0 <= i < |text| => Print(text[i]))
  }

  predicate Plain(text: Text, utf8: bool) {
    forall i :: 0 <= i < |text| ==> !IsControl(text[i], utf8)
  }

  /** Text without controls is printed as it stands. */
  lemma {:induction false} RunPlain(m: Machine, text: Text)
    requires m.mode.Ground? && Plain(text, m.utf8)
    ensures Run(m, text) == Outcome(m, Printed(text))
    decreases |text|
  {
    if text == [] {
    } else {
      RunPlain(m, text[1..]);
      assert Printed(text) == [Print(text[0])] + Printed(text[1..]);
    }
  }

  predicate StopFree(text: Text) {
    forall i :: 0 <= i < |text| ==> text[i] != BEL && text[i] != ESC
  }

  /** The saved text of a control string holds no BEL, and holds ESC at most as its last unit. */
  predicate StringSafe(saved: Text) {
    StopFree(saved) || (saved != [] && StopFree(saved[..|saved| - 1]) && saved[|saved| - 1] == ESC)
  }

  /** A tmux terminator starts at `i`: CR LF ends a line, ESC \ ends the mode. */
  predicate TmuxStopAt(text: Text, i: int) {
    0 <= i && i + 1 < |text| &&
    ((text[i] == CR && text[i + 1] == LF) || (text[i] == ESC && text[i + 1] == BACKSLASH))
  }

  predicate TmuxFree(text: Text) {
    forall i :: 0 <= i < |text| ==> !TmuxStopAt(text, i)
  }

  predicate Digits(text: Text) {
    forall i :: 0 <= i < |text| ==> IsDigit(text[i])
  }

  predicate Wf(mode: Mode) {
    match mode
    case DcsParams(_, _, args) => Digits(Arg0(args))
    case ControlString(_, saved) => StringSafe(saved)
    case Tmux(saved) => TmuxFree(saved)
    case _ => true
  }

  lemma FeedDcsKeepsWf(m: Machine, u: Unit)
    requires m.mode.DcsParams? && Wf(m.mode)
    ensures Wf(FeedDcs(m, u).machine.mode)
  {
    var args := m.mode.args;
    assert Digits(Arg0(args));
    assert StopFree(Arg0(args));
    if IsDigit(u) {
      assert Digits(Arg0(ExtendParameter(args, u)));
    }
  }

  lemma FeedTmuxKeepsWf(m: Machine, u: Unit)
    requires m.mode.Tmux? && Wf(m.mode)
    ensures Wf(FeedTmux(m, u).machine.mode)
  {
    var saved := m.mode.saved;
    var longer := saved + [u];
    forall i | 0 <= i < |longer| && TmuxStopAt(longer, i)
      ensures i + 1 == |saved|
    {
      if i + 1 < |saved| { assert TmuxStopAt(saved, i); }
    }
  }

  lemma SaveKeepsSafe(saved: Text, u: Unit)
    requires StringSafe(saved) && !EndsWith(saved, ESC) && u != BEL
    ensures StringSafe(saved + [u])
  {
    assert StopFree(saved);
    assert (saved + [u])[..|saved|] == saved;
  }

  /** The shape of saved text is kept by every unit, including one that aborts a string. */
  lemma {:induction false} FeedKeepsWf(m: Machine, u: Unit)
    requires Wf(m.mode)
    ensures Wf(Feed(m, u).machine.mode)
    decreases |Saved(m.mode)| + 1, Rank(m.mode), 1, 0
  {
    match m.mode
    case ControlString(kind, saved) =>
      if EndsWith(saved, ESC) {
        if u != BACKSLASH {
          RunKeepsWf(m.(mode := Ground), saved + [u]);
        }
      } else if u != BEL {
        SaveKeepsSafe(saved, u);
      }
    case Tmux(saved) => FeedTmuxKeepsWf(m, u);
    case DcsParams(lead, trail, args) => FeedDcsKeepsWf(m, u);
    case _ =>
  }

  lemma {:induction false} RunKeepsWf(m: Machine, text: Text)
    requires Wf(m.mode)
    ensures Wf(Run(m, text).machine.mode)
    decreases |Saved(m.mode)| + |text|, Rank(m.mode), |text|, 1
  {
    if text != [] {
      FeedKeepsWf(m, text[0]);
      RunKeepsWf(Feed(m, text[0]).machine, text[1..]);
    }
  }

  /** Text without a terminator is only accumulated. */
  lemma {:induction false} RunString(m: Machine, text: Text)
    requires m.mode.ControlString? && !EndsWith(m.mode.saved, ESC) && StopFree(text)
    ensures Run(m, text) == Outcome(m.(mode := ControlString(m.mode.kind, m.mode.saved + text)), [])
    decreases |text|
  {
    if text == [] {
      assert m.mode.saved + text == m.mode.saved;
    } else {
      assert Feed(m, text[0]) == Outcome(m.(mode := ControlString(m.mode.kind, m.mode.saved + [text[0]])), []);
      RunString(Feed(m, text[0]).machine, text[1..]);
      assert m.mode.saved + [text[0]] + text[1..] == m.mode.saved + text;
    }
  }

  /** What a string does with the unit that follows an ESC. */
  lemma FeedPending(m: Machine, text: Text, u: Unit)
    requires m.mode.ControlString? && m.mode.saved == text + [ESC]
    ensures Feed(m, u) == if u == BACKSLASH then Outcome(m.(mode := Ground), Deliver(m.mode.kind, text))
                          else Run(m.(mode := Ground), text + [ESC, u])
  {
    assert (text + [ESC])[..|text|] == text;
    assert text + [ESC] + [u] == text + [ESC, u];
  }

  /** The next ESC or BEL of `buf`, as seen from a string that is not waiting for a backslash. */
  predicate StringStop(m: Machine, buf: Text, n: nat) {
    m.mode.ControlString? && !EndsWith(m.mode.saved, ESC) && n < |buf| && StopFree(buf[..n])
  }

  function Append(m: Machine, text: Text): Machine
    requires m.mode.ControlString?
  {
    m.(mode := ControlString(m.mode.kind, m.mode.saved + text))
  }

  function Close(m: Machine, text: Text): Outcome
    requires m.mode.ControlString?
  {
    Outcome(m.(mode := Ground), Deliver(m.mode.kind, m.mode.saved + text))
  }

  lemma FeedString(m: Machine, u: Unit)
    requires m.mode.ControlString? && !EndsWith(m.mode.saved, ESC)
    ensures Feed(m, u) == if u == BEL then Close(m, []) else Outcome(Append(m, [u]), [])
  {
    assert m.mode.saved + [] == m.mode.saved;
  }

  /** A string closed by BEL delivers exactly the text in front of it. */
  lemma StringClosedByBell(m: Machine, buf: Text, n: nat)
    requires StringStop(m, buf, n) && buf[n] == BEL
    ensures Run(m, buf) == Then(Close(m, buf[..n]), buf[n + 1..])
  {
    hide Run, Feed, Deliver;
    RunString(m, buf[..n]);
    FeedString(Append(m, buf[..n]), BEL);
    RunThrough(m, buf[..n], Append(m, buf[..n]), BEL, buf[n + 1..]);
    assert m.mode.saved + buf[..n] + [] == m.mode.saved + buf[..n];
    assert buf[..n] + [BEL] + buf[n + 1..] == buf;
  }

  /** An ESC in a string is only kept. */
  lemma StringEscape(m: Machine, buf: Text, n: nat)
    requires StringStop(m, buf, n) && buf[n] == ESC
    ensures Run(m, buf[..n + 1]) == Outcome(Append(m, buf[..n + 1]), [])
  {
    hide Run, Feed, Deliver;
    RunString(m, buf[..n]);
    FeedString(Append(m, buf[..n]), ESC);
    var reached := Append(m, buf[..n]);
    RunThrough(m, buf[..n], reached, ESC, []);
    ThenNothing(Feed(reached, ESC));
    assert buf[..n] + [ESC] + [] == buf[..n + 1];
    assert m.mode.saved + buf[..n] + [ESC] == m.mode.saved + buf[..n + 1];
  }

  /** A string closed by ESC \ delivers exactly the text in front of it. */
  lemma StringClosedByTerminator(m: Machine, buf: Text, n: nat)
    requires StringStop(m, buf, n) && n + 1 < |buf| && buf[n] == ESC && buf[n + 1] == BACKSLASH
    ensures Run(m, buf) == Then(Close(m, buf[..n]), buf[n + 2..])
  {
    hide Run, Feed, Deliver;
    StringEscape(m, buf, n);
    var pending := Append(m, buf[..n + 1]);
    RunThrough(m, buf[..n + 1], pending, BACKSLASH, buf[n + 2..]);
    assert buf[..n + 1] + [BACKSLASH] + buf[n + 2..] == buf;
    assert m.mode.saved + buf[..n] + [ESC] == m.mode.saved + buf[..n + 1];
    FeedPending(pending, m.mode.saved + buf[..n], BACKSLASH);
  }

  lemma AbortParts(before: Text, buf: Text, n: nat)
    requires n + 1 < |buf| && buf[n] == ESC
    ensures buf[..n + 1] + [buf[n + 1]] + buf[n + 2..] == buf
    ensures before + buf[..n] + [ESC] == before + buf[..n + 1]
    ensures before + buf[..n] + [ESC, buf[n + 1]] + buf[n + 2..] == before + buf
  {
  }

  /** A stray ESC hands back all the accumulated text, unchanged, for ordinary parsing. */
  lemma StringAborted(m: Machine, buf: Text, n: nat)
    requires StringStop(m, buf, n) && n + 1 < |buf| && buf[n] == ESC && buf[n + 1] != BACKSLASH
    ensures Run(m, buf) == Run(m.(mode := Ground), m.mode.saved + buf)
  {
    hide Run, Feed, Deliver;
    StringEscape(m, buf, n);
    var saved, u, rest := m.mode.saved + buf[..n], buf[n + 1], buf[n + 2..];
    var pending := Append(m, buf[..n + 1]);
    AbortParts(m.mode.saved, buf, n);
    RunThrough(m, buf[..n + 1], pending, u, rest);
    FeedPending(pending, saved, u);
    RunAppend(m.(mode := Ground), saved + [ESC, u], rest);
    var o := Run(m.(mode := Ground), m.mode.saved + buf);
    assert [] + o.events == o.events;
  }

  /** Nothing to decide yet: the input holds no terminator, or an ESC as its last unit. */
  lemma StringKept(m: Machine, buf: Text, n: nat)
    requires m.mode.ControlString? && !EndsWith(m.mode.saved, ESC) && n <= |buf| && StopFree(buf[..n])
    requires n == |buf| || (n + 1 == |buf| && buf[n] == ESC)
    ensures Run(m, buf) == Outcome(Append(m, buf), [])
  {
    hide Run, Feed;
    if n == |buf| {
      assert buf[..n] == buf;
      RunString(m, buf);
    } else {
      assert buf[..n + 1] == buf;
      StringEscape(m, buf, n);
    }
  }

  lemma StringClosed(m: Machine, buf: Text, n: nat)
    requires StringStop(m, buf, n) && (buf[n] == BEL || (buf[n] == ESC && n + 1 < |buf| && buf[n + 1] == BACKSLASH))
    ensures Run(m, buf) == Then(Close(m, buf[..n]), buf[if buf[n] == BEL then n + 1 else n + 2..])
  {
    hide Run, Feed, Deliver;
    if buf[n] == BEL {
      StringClosedByBell(m, buf, n);
    } else {
      StringClosedByTerminator(m, buf, n);
    }
  }

  /** The string state in front of a kept ESC is the state that has not seen that ESC yet. */
  lemma StringResumed(m: Machine, rest: Text)
    requires m.mode.ControlString? && EndsWith(m.mode.saved, ESC) && StringSafe(m.mode.saved)
    ensures var saved := m.mode.saved;
            var before := m.(mode := ControlString(m.mode.kind, saved[..|saved| - 1]));
            Run(m, rest) == Run(before, [ESC] + rest)
  {
    var saved := m.mode.saved;
    var base := saved[..|saved| - 1];
    var before := m.(mode := ControlString(m.mode.kind, base));
    assert StopFree(base);
    assert base + [ESC] == saved;
    assert Feed(before, ESC) == Outcome(m, []);
    RunStep(before, [ESC] + rest);
    assert ([ESC] + rest)[1..] == rest;
    assert [] + Run(m, rest).events == Run(m, rest).events;
  }

  /** While no terminator is complete the tmux mode only accumulates. */
  lemma {:induction false} RunTmuxFree(m: Machine, text: Text)
    requires m.mode.Tmux? && TmuxFree(m.mode.saved + text)
    ensures Run(m, text) == Outcome(m.(mode := Tmux(m.mode.saved + text)), [])
    decreases |text|
  {
    var saved := m.mode.saved;
    if text == [] {
      assert saved + text == saved;
    } else {
      assert !TmuxStopAt(saved + text, |saved| - 1);
      assert Feed(m, text[0]) == Outcome(m.(mode := Tmux(saved + [text[0]])), []);
      assert saved + [text[0]] + text[1..] == saved + text;
      RunTmuxFree(Feed(m, text[0]).machine, text[1..]);
    }
  }

  /**
   Tmux mode cuts the stream at the first terminator, wherever the chunk boundary `|saved|` fell:
   the line in front of CR LF is delivered, or the mode ends, and the rest is handled afresh.
   */
  lemma TmuxDelivery(m: Machine, text: Text, i: nat)
    requires m.mode.Tmux? && TmuxFree(m.mode.saved)
    requires TmuxStopAt(m.mode.saved + text, i)
    requires forall j :: 0 <= j < i ==> !TmuxStopAt(m.mode.saved + text, j)
    ensures i + 2 > |m.mode.saved|
    ensures var all := m.mode.saved + text;
            Run(m, text) == Then(TmuxStop(m, all, i), all[i + 2..])
  {
    hide Run, Feed;
    var saved := m.mode.saved;
    var all := saved + text;
    if i < |saved| {
      assert !TmuxStopAt(saved, i);
    }
    TmuxFreeBefore(all, i);
    var before := text[..i + 1 - |saved|];
    assert saved + before == all[..i + 1];
    RunTmuxFree(m, before);
    var reached := m.(mode := Tmux(all[..i + 1]));
    RunThrough(m, before, reached, all[i + 1], all[i + 2..]);
    assert before + [all[i + 1]] + all[i + 2..] == text;
    FeedTmuxStop(m, all, i);
  }

  lemma TmuxFreeBefore(all: Text, i: nat)
    requires i < |all|
    requires forall j :: 0 <= j < i ==> !TmuxStopAt(all, j)
    ensures TmuxFree(all[..i + 1])
  {
    var line := all[..i + 1];
    forall j | 0 <= j < |line| ensures !TmuxStopAt(line, j) {
      if j < i { assert !TmuxStopAt(all, j); }
    }
  }

  lemma FeedTmuxStop(m: Machine, all: Text, i: nat)
    requires m.mode.Tmux? && TmuxStopAt(all, i)
    ensures Feed(m.(mode := Tmux(all[..i + 1])), all[i + 1]) == TmuxStop(m, all, i)
  {
    assert all[..i + 1][..i] == all[..i];
  }

  /** The effect of the terminator at `i`. */
  function TmuxStop(m: Machine, all: Text, i: nat): Outcome
    requires TmuxStopAt(all, i)
  {
    if all[i] == CR then Outcome(m.(mode := Tmux([])), [TmuxLine(all[..i])])
    else Outcome(m.(mode := Ground), [TmuxExit])
  }

  // ---------------------------------------------------------------- the whole tmux stream

  /** The first terminator that starts with this unit: CR for a line, ESC for the end of the mode. */
  function FirstStop(text: Text, u: Unit): (n: nat)
    ensures n <= |text| && (n < |text| ==> TmuxStopAt(text, n) && text[n] == u)
    ensures forall i :: 0 <= i < n ==> !(TmuxStopAt(text, i) && text[i] == u)
  {
    if text == [] then 0
    else if TmuxStopAt(text, 0) && text[0] == u then 0
    else
      var n := FirstStop(text[1..], u);
      assert forall i :: 0 < i < n + 1 ==> (TmuxStopAt(text, i) <==> TmuxStopAt(text[1..], i - 1));
      n + 1
  }

  /** The text cut at every CR LF. */
  function Lines(text: Text): (lines: seq<Text>)
    ensures lines != []
    decreases |text|
  {
    var n := FirstStop(text, CR);
    if n == |text| then [text] else [text[..n]] + Lines(text[n + 2..])
  }

  function JoinLines(lines: seq<Text>): Text
    requires lines != []
  {
    if |lines| == 1 then lines[0] else lines[0] + [CR, LF] + JoinLines(lines[1..])
  }

  /** The lines hold no CR LF, and with one between any two of them they are the text. */
  lemma {:induction false} LinesMean(text: Text)
    ensures JoinLines(Lines(text)) == text
    ensures forall k :: 0 <= k < |Lines(text)| ==> FirstStop(Lines(text)[k], CR) == |Lines(text)[k]|
    decreases |text|
  {
    var n := FirstStop(text, CR);
    if n < |text| {
      LinesMean(text[n + 2..]);
      FirstInPrefix(text, CR, n);
      assert text == text[..n] + [CR, LF] + text[n + 2..];
    }
  }

  /** A prefix has the terminators that end within it. */
  lemma FirstInPrefix(text: Text, u: Unit, k: nat)
    requires k <= |text| && u != LF && u != BACKSLASH
    ensures FirstStop(text[..k], u) == if FirstStop(text, u) + 1 < k then FirstStop(text, u) else k
  {
    var n, prefix := FirstStop(text, u), text[..k];
    forall i | 0 <= i < k ensures TmuxStopAt(prefix, i) <==> TmuxStopAt(text, i) && i + 1 < k {
    }
    if n + 1 < k {
      assert TmuxStopAt(prefix, n) && prefix[n] == u;
    }
  }

  /** Behind a column that no terminator has started before. */
  lemma FirstInRest(text: Text, u: Unit, k: nat)
    requires k <= FirstStop(text, u)
    ensures FirstStop(text[k..], u) == FirstStop(text, u) - k
  {
    var n, rest := FirstStop(text, u), text[k..];
    forall i | 0 <= i < |rest| ensures TmuxStopAt(rest, i) <==> TmuxStopAt(text, k + i) {
    }
    if n < |text| {
      assert TmuxStopAt(rest, n - k) && rest[n - k] == u;
    }
    if FirstStop(rest, u) < |rest| {
      assert TmuxStopAt(text, k + FirstStop(rest, u));
    }
  }

  function LineEvents(lines: seq<Text>): (events: seq<Event>)
    ensures |events| == |lines|
  {
    seq(|lines|, i requires 0 <= i < |lines| => TmuxLine(lines[i]))
  }

  /** All lines but the last are delivered; that waits for its end, or goes when the mode ends in front of `rest`. */
  function DeliveredLines(m: Machine, lines: seq<Text>, ended: bool, rest: Text): Outcome
    requires lines != []
  {
    var last := |lines| - 1;
    if ended then Then(Outcome(m.(mode := Ground), LineEvents(lines[..last]) + [TmuxExit]), rest)
    else Outcome(m.(mode := Tmux(lines[last])), LineEvents(lines[..last]))
  }

  /** The stream is delivered line by line up to the first ESC \. */
  function Delivered(m: Machine, all: Text): Outcome {
    var e := FirstStop(all, ESC);
    DeliveredLines(m, Lines(all[..e]), e < |all|, if e < |all| then all[e + 2..] else [])
  }

  /** Tmux mode delivers exactly the lines of the whole stream, wherever the chunk boundaries fell. */
  lemma {:induction false} TmuxStream(m: Machine, text: Text)
    requires m.mode.Tmux? && TmuxFree(m.mode.saved)
    ensures Run(m, text) == Delivered(m, m.mode.saved + text)
    decreases |m.mode.saved| + |text|
  {
    hide Run, FirstStop, Lines, Delivered;
    var all := m.mode.saved + text;
    var c, e := FirstStop(all, CR), FirstStop(all, ESC);
    if c == |all| && e == |all| {
      assert TmuxFree(all);
      RunTmuxFree(m, text);
      NoStop(m, all);
    } else if e < c {
      TmuxDelivery(m, text, e);
      ExitFirst(m, all);
    } else {
      TmuxDelivery(m, text, c);
      var next, rest := m.(mode := Tmux([])), all[c + 2..];
      assert [] + rest == rest;
      TmuxStream(next, rest);
      LineFirst(m, all);
    }
  }

  lemma NoStop(m: Machine, all: Text)
    requires FirstStop(all, CR) == |all| && FirstStop(all, ESC) == |all|
    ensures Delivered(m, all) == Outcome(m.(mode := Tmux(all)), [])
  {
    hide FirstStop;
    assert all[..|all|] == all;
  }

  lemma ExitFirst(m: Machine, all: Text)
    requires FirstStop(all, ESC) < FirstStop(all, CR)
    ensures Delivered(m, all) == Then(Outcome(m.(mode := Ground), [TmuxExit]), all[FirstStop(all, ESC) + 2..])
  {
    hide FirstStop, Run;
    var e := FirstStop(all, ESC);
    FirstInPrefix(all, CR, e);
    assert Lines(all[..e]) == [all[..e]];
    assert LineEvents([]) + [TmuxExit] == [TmuxExit];
  }

  lemma LineFirst(m: Machine, all: Text)
    requires FirstStop(all, CR) < FirstStop(all, ESC)
    ensures var c := FirstStop(all, CR);
            var rest := Delivered(m.(mode := Tmux([])), all[c + 2..]);
            Delivered(m, all) == Outcome(rest.machine, [TmuxLine(all[..c])] + rest.events)
  {
    hide FirstStop, Run, Lines, DeliveredLines;
    var c, e := FirstStop(all, CR), FirstStop(all, ESC);
    FirstLineOf(all);
    var rest := if e < |all| then all[e + 2..] else [];
    if e < |all| {
      assert all[c + 2..][e - c..] == rest;
    }
    MoreLines(m, all[..c], Lines(all[c + 2..][..e - c - 2]), e < |all|, rest);
  }

  lemma FirstLineOf(all: Text)
    requires FirstStop(all, CR) < FirstStop(all, ESC)
    ensures var c, e := FirstStop(all, CR), FirstStop(all, ESC);
            c + 2 <= e && FirstStop(all[c + 2..], ESC) == e - c - 2 &&
            Lines(all[..e]) == [all[..c]] + Lines(all[c + 2..][..e - c - 2])
  {
    hide FirstStop, Lines;
    var c, e := FirstStop(all, CR), FirstStop(all, ESC);
    assert all[c + 1] == LF;
    FirstInPrefix(all, CR, e);
    FirstInRest(all, ESC, c + 2);
    CutTwice(all, c, e);
    LinesStep(all[..e]);
  }

  lemma LinesStep(text: Text)
    requires FirstStop(text, CR) < |text|
    ensures Lines(text) == [text[..FirstStop(text, CR)]] + Lines(text[FirstStop(text, CR) + 2..])
  {
    hide FirstStop;
  }

  lemma CutTwice(text: Text, c: nat, e: nat)
    requires c + 2 <= e <= |text|
    ensures text[..e][..c] == text[..c] && text[..e][c + 2..] == text[c + 2..][..e - c - 2]
  {
  }

  lemma MoreLines(m: Machine, first: Text, lines: seq<Text>, ended: bool, rest: Text)
    requires lines != []
    ensures var o := DeliveredLines(m.(mode := Tmux([])), lines, ended, rest);
            DeliveredLines(m, [first] + lines, ended, rest) == Outcome(o.machine, [TmuxLine(first)] + o.events)
  {
    hide Run;
    FirstLine(first, lines);
    if ended {
      var events, tail := LineEvents(lines[..|lines| - 1]), Run(m.(mode := Ground), rest).events;
      assert ([TmuxLine(first)] + events + [TmuxExit]) + tail == [TmuxLine(first)] + ((events + [TmuxExit]) + tail);
    }
  }

  lemma FirstLine(first: Text, lines: seq<Text>)
    requires lines != []
    ensures var all := [first] + lines;
            LineEvents(all[..|all| - 1]) == [TmuxLine(first)] + LineEvents(lines[..|lines| - 1]) &&
            all[|all| - 1] == lines[|lines| - 1]
  {
  }

  /**
   A buffered interpreter cannot remember `ESC % /`: at the end of a buffer it reads the missing
   third unit as empty and goes back to the ground mode.
   */
  function Settle(m: Machine): Machine {
    if m.mode.CodingSystemSlash? then m.(mode := Ground) else m
  }

  /** What one call of `interpret` does to the machine, and the events it causes. */
  function Interpreted(m: Machine, buf: Text): Outcome {
    var o := Run(m, buf);
    Outcome(Settle(o.machine), o.events)
  }

  /** A run of plain text followed by one unit. */
  lemma PlainThen(m: Machine, plain: Text, u: Unit)
    requires m.mode.Ground? && Plain(plain, m.utf8)
    ensures Run(m, plain + [u]) == Outcome(FeedGround(m, u).machine, Printed(plain) + FeedGround(m, u).events)
  {
    RunPlain(m, plain);
    RunAppend(m, plain, [u]);
    RunOne(m, u);
  }

  /** The size of the saved text cannot grow by the whole input while the rank grows as well. */
  lemma {:induction false} RunMeasure(m: Machine, text: Text)
    ensures |Saved(Run(m, text).machine.mode)| == |Saved(m.mode)| + |text| ==>
      Rank(Run(m, text).machine.mode) <= Rank(m.mode)
    decreases |text|
  {
    if text != [] {
      RunMeasure(Feed(m, text[0]).machine, text[1..]);
    }
  }

  /** Two calls, one after the other. */
  function InterpretedTwice(m: Machine, a: Text, b: Text): Outcome {
    var first := Interpreted(m, a);
    var second := Interpreted(first.machine, b);
    Outcome(second.machine, first.events + second.events)
  }

  // ---------------------------------------------------------------- chunks

  /** The state behind a text and one unit more. */
  lemma RunLast(m: Machine, text: Text, u: Unit)
    ensures Run(m, text + [u]).machine == Feed(Run(m, text).machine, u).machine
  {
    hide Feed;
    RunAppend(m, text, [u]);
    RunOne(Run(m, text).machine, u);
  }

  /** A string that is replayed leaves less to be saved, or no string at all. */
  lemma ReplayMeasure(m: Machine)
    requires m.mode.ControlString?
    ensures var o := Run(m.(mode := Ground), m.mode.saved);
            |Saved(o.machine.mode)| < |m.mode.saved| ||
              (|Saved(o.machine.mode)| == |m.mode.saved| && Rank(o.machine.mode) == 0)
  {
    RunMeasure(m.(mode := Ground), m.mode.saved);
  }

  /**
   An ESC in this state starts an escape sequence, at once or when it aborts a control string.  Elsewhere
   it is a parameter, a character that is skipped, or tmux text.
   */
  predicate TakesEscape(m: Machine)
    decreases |Saved(m.mode)|, Rank(m.mode)
  {
    match m.mode
    case Ground | EscapeSeen | Charset(_) | DcsParams(_, _, _) => true
    case CsiParams(_, _, _, subargs) => subargs == {}
    case ControlString(_, saved) => ReplayMeasure(m); TakesEscape(Run(m.(mode := Ground), saved).machine)
    case _ => false
  }

  /** A string that waits for a backslash. */
  predicate Waiting(mode: Mode) {
    mode.ControlString? && EndsWith(mode.saved, ESC)
  }

  /** Such an ESC was the last unit. */
  predicate AfterEscape(m: Machine) {
    m.mode.EscapeSeen? ||
    (Waiting(m.mode) && TakesEscape(Run(m.(mode := Ground), m.mode.saved[..|m.mode.saved| - 1]).machine))
  }

  /** Without a backslash, the text of a string that waits for one is replayed. */
  lemma FeedReplays(m: Machine, u: Unit)
    requires Waiting(m.mode) && u != BACKSLASH
    ensures Feed(m, u).machine == Feed(Run(m.(mode := Ground), m.mode.saved).machine, u).machine
  {
    hide Run;
    RunLast(m.(mode := Ground), m.mode.saved, u);
  }

  /** The replayed text ends with an ESC as well. */
  lemma ReplayEnds(m: Machine)
    requires Waiting(m.mode)
    ensures var before := Run(m.(mode := Ground), m.mode.saved[..|m.mode.saved| - 1]).machine;
            Run(m.(mode := Ground), m.mode.saved).machine == Feed(before, ESC).machine &&
            (AfterEscape(m) <==> TakesEscape(before))
  {
    hide Run, Feed, TakesEscape;
    var before := m.mode.saved[..|m.mode.saved| - 1];
    assert before + [ESC] == m.mode.saved;
    RunLast(m.(mode := Ground), before, ESC);
  }

  lemma {:induction false} EscapeTaken(m: Machine)
    ensures AfterEscape(Feed(m, ESC).machine) <==> TakesEscape(m)
    decreases |Saved(m.mode)|, Rank(m.mode)
  {
    hide Run;
    if Waiting(m.mode) {
      ReplayMeasure(m);
      FeedReplays(m, ESC);
      EscapeTaken(Run(m.(mode := Ground), m.mode.saved).machine);
    } else if m.mode.ControlString? {
      assert (m.mode.saved + [ESC])[..|m.mode.saved|] == m.mode.saved;
    }
  }

  lemma {:induction false} PendingIsEscape(m: Machine, u: Unit)
    requires Wf(m.mode) && Pending(Feed(m, u).machine.mode)
    ensures u == ESC
    decreases |Saved(m.mode)|, Rank(m.mode)
  {
    hide Run, Feed;
    if Waiting(m.mode) && u != BACKSLASH {
      ReplayMeasure(m);
      FeedReplays(m, u);
      RunKeepsWf(m.(mode := Ground), m.mode.saved);
      PendingIsEscape(Run(m.(mode := Ground), m.mode.saved).machine, u);
    } else {
      PendingAtOnce(m, u);
    }
  }

  /** An ESC was seen and not acted on. */
  predicate Pending(mode: Mode) {
    mode.EscapeSeen? || Waiting(mode)
  }

  lemma ControlPending(m: Machine, u: Unit)
    requires !Pending(m.mode)
    ensures Pending(FeedControl(m, u).machine.mode) ==> u == ESC
  {
  }

  lemma SequencePending(m: Machine, u: Unit)
    requires (m.mode.CsiParams? || m.mode.DcsParams?) && Wf(m.mode)
    ensures m.mode.CsiParams? && Pending(FeedCsi(m, u).machine.mode) ==> u == ESC
    ensures m.mode.DcsParams? && Pending(FeedDcs(m, u).machine.mode) ==> u == ESC
  {
    hide FeedControl, IsControl, CsiAccepted, NextParameter, ExtendParameter;
    ControlPending(m, u);
    if m.mode.DcsParams? {
      assert Digits(Arg0(m.mode.args));
    }
  }

  lemma EscapePending(m: Machine, u: Unit)
    requires m.mode.EscapeSeen?
    ensures Pending(FeedEscape(m, u).machine.mode) ==> u == ESC
  {
  }

  lemma StringPending(m: Machine, u: Unit)
    requires m.mode.ControlString? || m.mode.Tmux? || m.mode.Ground?
    requires Waiting(m.mode) ==> u == BACKSLASH
    ensures Pending(Feed(m, u).machine.mode) ==> u == ESC
  {
    hide FeedControl, IsControl, Deliver, Run;
    if m.mode.Ground? {
      ControlPending(m, u);
    }
  }

  lemma PendingAtOnce(m: Machine, u: Unit)
    requires Wf(m.mode) && (Waiting(m.mode) ==> u == BACKSLASH)
    ensures Pending(Feed(m, u).machine.mode) ==> u == ESC
  {
    hide FeedEscape, FeedCsi, FeedDcs, FeedGround, FeedTmux, Run, Wf;
    match m.mode
    case EscapeSeen => EscapePending(m, u);
    case CsiParams(_, _, _, _) => SequencePending(m, u);
    case DcsParams(_, _, _) => SequencePending(m, u);
    case Ground => StringPending(m, u);
    case Tmux(_) => StringPending(m, u);
    case ControlString(_, _) => StringPending(m, u);
    case _ =>
  }

  /** `ESC %` is seen exactly so. */
  lemma {:induction false} PercentTaken(m: Machine, u: Unit)
    ensures Feed(m, u).machine.mode.CodingSystem? <==> u == PERCENT && AfterEscape(m)
    decreases |Saved(m.mode)|, Rank(m.mode)
  {
    hide Run, Feed, TakesEscape, AfterEscape;
    if Waiting(m.mode) && u != BACKSLASH {
      ReplayMeasure(m);
      FeedReplays(m, u);
      ReplayEnds(m);
      PercentTaken(Run(m.(mode := Ground), m.mode.saved).machine, u);
      EscapeTaken(Run(m.(mode := Ground), m.mode.saved[..|m.mode.saved| - 1]).machine);
    } else {
      CodingAtOnce(m, u);
      AfterEscapeWaits(m);
    }
  }

  predicate AboutCoding(mode: Mode) {
    mode.CodingSystem? || mode.CodingSystemSlash?
  }

  lemma ControlNeverCoding(m: Machine, u: Unit)
    requires !AboutCoding(m.mode)
    ensures !AboutCoding(FeedControl(m, u).machine.mode)
  {
  }

  lemma SequenceNeverCoding(m: Machine, u: Unit)
    requires m.mode.CsiParams? || m.mode.DcsParams?
    ensures m.mode.CsiParams? ==> !AboutCoding(FeedCsi(m, u).machine.mode)
    ensures m.mode.DcsParams? ==> !AboutCoding(FeedDcs(m, u).machine.mode)
  {
    hide FeedControl, IsControl, CsiAccepted, NextParameter, ExtendParameter;
    ControlNeverCoding(m, u);
  }

  lemma EscapeCoding(m: Machine, u: Unit)
    requires !AboutCoding(m.mode)
    ensures AboutCoding(FeedEscape(m, u).machine.mode) <==> u == PERCENT
    ensures !FeedEscape(m, u).machine.mode.CodingSystemSlash?
  {
  }

  lemma StringNeverCoding(m: Machine, u: Unit)
    requires m.mode.ControlString? || m.mode.Tmux? || m.mode.Ground?
    requires Waiting(m.mode) ==> u == BACKSLASH
    ensures !AboutCoding(Feed(m, u).machine.mode)
  {
    hide FeedControl, IsControl, Deliver, Run;
    if m.mode.Ground? {
      ControlNeverCoding(m, u);
    }
  }

  lemma CodingAtOnce(m: Machine, u: Unit)
    requires Waiting(m.mode) ==> u == BACKSLASH
    ensures Feed(m, u).machine.mode.CodingSystem? <==> u == PERCENT && m.mode.EscapeSeen?
    ensures Feed(m, u).machine.mode.CodingSystemSlash? <==> u == SLASH && m.mode.CodingSystem?
  {
    hide FeedEscape, FeedCsi, FeedDcs, FeedGround, FeedTmux, Run;
    match m.mode
    case EscapeSeen => EscapeCoding(m, u);
    case CsiParams(_, _, _, _) => SequenceNeverCoding(m, u);
    case DcsParams(_, _, _) => SequenceNeverCoding(m, u);
    case Ground => StringNeverCoding(m, u);
    case Tmux(_) => StringNeverCoding(m, u);
    case ControlString(_, _) => StringNeverCoding(m, u);
    case _ =>
  }

  lemma AfterEscapeWaits(m: Machine)
    ensures AfterEscape(m) && !Waiting(m.mode) ==> m.mode.EscapeSeen?
    ensures m.mode.EscapeSeen? ==> AfterEscape(m)
  {
    hide TakesEscape, Run;
  }

  lemma {:induction false} SlashTaken(m: Machine, u: Unit)
    ensures Feed(m, u).machine.mode.CodingSystemSlash? <==> u == SLASH && m.mode.CodingSystem?
    decreases |Saved(m.mode)|, Rank(m.mode)
  {
    hide Run, Feed, TakesEscape, AfterEscape;
    if Waiting(m.mode) && u != BACKSLASH {
      ReplayMeasure(m);
      FeedReplays(m, u);
      ReplayEnds(m);
      SlashTaken(Run(m.(mode := Ground), m.mode.saved).machine, u);
      PercentTaken(Run(m.(mode := Ground), m.mode.saved[..|m.mode.saved| - 1]).machine, ESC);
    } else {
      CodingAtOnce(m, u);
    }
  }

  /**
   A text that ends right after `ESC % /`, the ESC being taken for the start of an escape sequence.  The
   first of the three units may have come earlier.
   */
  predicate CutsCodingSystem(m: Machine, a: Text) {
    if a == [] then m.mode.CodingSystemSlash?
    else if |a| == 1 then a == [SLASH] && m.mode.CodingSystem?
    else if |a| == 2 then a == [PERCENT, SLASH] && AfterEscape(m)
    else a[|a| - 3..] == [ESC, PERCENT, SLASH] && TakesEscape(Run(m, a[..|a| - 3]).machine)
  }

  lemma CutsMeans(m: Machine, a: Text)
    requires Wf(m.mode)
    ensures CutsCodingSystem(m, a) <==> Run(m, a).machine.mode.CodingSystemSlash?
  {
    hide Feed, Run, TakesEscape, AfterEscape, Wf;
    if a == [] {
      RunNothing(m);
    } else {
      var k := |a| - 1;
      assert a == a[..k] + [a[k]];
      RunLast(m, a[..k], a[k]);
      SlashTaken(Run(m, a[..k]).machine, a[k]);
      if k == 0 {
        RunNothing(m);
      } else {
        CutsPercent(m, a[..k]);
        assert k > 1 ==> a[..k][..k - 2] == a[..k - 2];
        assert k > 1 ==> (a[k - 2..] == [ESC, PERCENT, SLASH] <==>
                          a[k - 2] == ESC && a[k - 1] == PERCENT &&
                          a[k] == SLASH);
      }
    }
  }

  lemma CutsPercent(m: Machine, a: Text)
    requires Wf(m.mode) && a != []
    ensures Run(m, a).machine.mode.CodingSystem? <==>
      a[|a| - 1] == PERCENT &&
      (if |a| == 1 then AfterEscape(m) else a[|a| - 2] == ESC && TakesEscape(Run(m, a[..|a| - 2]).machine))
  {
    hide Feed, Run, TakesEscape, Wf;
    var k := |a| - 1;
    assert a == a[..k] + [a[k]];
    RunLast(m, a[..k], a[k]);
    PercentTaken(Run(m, a[..k]).machine, a[k]);
    if k == 0 {
      RunNothing(m);
    } else {
      var before := Run(m, a[..k - 1]).machine;
      assert a[..k] == a[..k - 1] + [a[k - 1]];
      RunLast(m, a[..k - 1], a[k - 1]);
      RunKeepsWf(m, a[..k - 1]);
      EscapeTaken(before);
      if AfterEscape(Feed(before, a[k - 1]).machine) {
        PendingIsEscape(before, a[k - 1]);
      }
    }
  }

  /** Two calls agree with one whenever the first leaves nothing behind that the program cannot remember. */
  lemma CutIsInvisible(m: Machine, a: Text, b: Text)
    requires !Run(m, a).machine.mode.CodingSystemSlash?
    ensures InterpretedTwice(m, a, b) == Interpreted(m, a + b)
  {
    hide Run;
    RunAppend(m, a, b);
  }

  /** A printable unit is swallowed by the pending sequence but printed by the ground mode. */
  lemma CutIsVisible(m: Machine, a: Text)
    requires Run(m, a).machine.mode.CodingSystemSlash?
    ensures InterpretedTwice(m, a, [AT]) != Interpreted(m, a + [AT])
  {
    hide Run;
    var mid := Run(m, a).machine;
    RunAppend(m, a, [AT]);
    RunOne(mid, AT);
    RunOne(Settle(mid), AT);
    assert Feed(Settle(mid), AT).events == [Print(AT)];
  }

  /**
   Chunk independence.  Cutting after `a` is invisible for every continuation exactly when `a` does not
   end right after an `ESC % /` whose ESC is taken.
   */
  lemma ChunkIndependence(m: Machine, a: Text)
    requires Wf(m.mode)
    ensures (forall b: Text :: InterpretedTwice(m, a, b) == Interpreted(m, a + b)) <==> !CutsCodingSystem(m, a)
  {
    hide Run, Interpreted, InterpretedTwice, CutsCodingSystem, Wf;
    CutsMeans(m, a);
    if CutsCodingSystem(m, a) {
      CutIsVisible(m, a);
    } else {
      forall b: Text ensures InterpretedTwice(m, a, b) == Interpreted(m, a + b) {
        CutIsInvisible(m, a, b);
      }
    }
  }

  /** So the last three units are enough to tell that a cut does no harm. */
  lemma ChunkIndependentText(m: Machine, a: Text, b: Text)
    requires Wf(m.mode) && |a| >= 3 && a[|a| - 3..] != [ESC, PERCENT, SLASH]
    ensures InterpretedTwice(m, a, b) == Interpreted(m, a + b)
  {
    hide Run, Interpreted, InterpretedTwice, Wf;
    ChunkIndependence(m, a);
  }

  /** Between sequences they are also enough to tell that it does. */
  lemma ChunkDependentText(m: Machine, plain: Text)
    requires m.mode.Ground? && Plain(plain, m.utf8)
    ensures CutsCodingSystem(m, plain + [ESC, PERCENT, SLASH])
  {
    hide Run;
    var a := plain + [ESC, PERCENT, SLASH];
    assert a[|a| - 3..] == [ESC, PERCENT, SLASH] && a[..|a| - 3] == plain;
    RunPlain(m, plain);
  }

  // ---------------------------------------------------------------- any list of chunks

  function Joined(chunks: seq<Text>): Text {
    if chunks == [] then [] else chunks[0] + Joined(chunks[1..])
  }

  /** One call of `interpret` for each chunk. */
  function InterpretedAll(m: Machine, chunks: seq<Text>): Outcome
    decreases |chunks|
  {
    if chunks == [] then Outcome(m, [])
    else
      var first := Interpreted(m, chunks[0]);
      var rest := InterpretedAll(first.machine, chunks[1..]);
      Outcome(rest.machine, first.events + rest.events)
  }

  /** One call more. */
  lemma {:induction false} InterpretedMore(m: Machine, chunks: seq<Text>, chunk: Text)
    ensures var before := InterpretedAll(m, chunks);
            var o := Interpreted(before.machine, chunk);
            InterpretedAll(m, chunks + [chunk]) == Outcome(o.machine, before.events + o.events)
    decreases |chunks|
  {
    hide Interpreted;
    if chunks == [] {
      var o := Interpreted(m, chunk);
      assert [chunk][1..] == [] && o.events + [] == [] + o.events;
    } else {
      var first := Interpreted(m, chunks[0]);
      InterpretedMore(first.machine, chunks[1..], chunk);
      assert (chunks + [chunk])[1..] == chunks[1..] + [chunk];
      var before := InterpretedAll(first.machine, chunks[1..]);
      var o := Interpreted(before.machine, chunk);
      assert first.events + (before.events + o.events) == (first.events + before.events) + o.events;
    }
  }

  /** No cut between two chunks falls right behind an `ESC % /` that is taken. */
  predicate CutsWell(m: Machine, chunks: seq<Text>)
    decreases |chunks|
  {
    |chunks| > 1 ==> !CutsCodingSystem(m, chunks[0]) && CutsWell(Run(m, chunks[0]).machine, chunks[1..])
  }

  /** However a text is cut into chunks, interpreting them one after the other is interpreting the text. */
  lemma {:induction false} ChunksIndependent(m: Machine, chunks: seq<Text>)
    requires Wf(m.mode) && !m.mode.CodingSystemSlash? && CutsWell(m, chunks)
    ensures InterpretedAll(m, chunks) == Interpreted(m, Joined(chunks))
    decreases |chunks|
  {
    hide Run, CutsCodingSystem, Wf;
    if chunks == [] {
      RunNothing(m);
    } else if |chunks| == 1 {
      var first := Interpreted(m, chunks[0]);
      assert Joined(chunks[1..]) == [] && chunks[0] + [] == chunks[0];
      assert InterpretedAll(first.machine, chunks[1..]) == Outcome(first.machine, []);
      assert first.events + [] == first.events;
    } else {
      CutsMeans(m, chunks[0]);
      RunKeepsWf(m, chunks[0]);
      ChunksIndependent(Run(m, chunks[0]).machine, chunks[1..]);
      CutIsInvisible(m, chunks[0], Joined(chunks[1..]));
    }
  }

  /** The failing cut, concretely: `ESC % /` followed by `G` in two calls prints the `G`. */
  lemma ChunkCounterexample(m: Machine)
    requires m.mode.Ground? && !m.locked
    ensures var a := [ESC, PERCENT, SLASH];
            InterpretedTwice(m, a, [UPPER_G]) == Outcome(m, [Print(UPPER_G)]) &&
            Interpreted(m, a + [UPPER_G]) == Outcome(Machine(Ground, true, true, m.c1), [])
  {
    var a := [ESC, PERCENT, SLASH];
    RunStep(m, a);
    var m1 := m.(mode := EscapeSeen);
    assert a[1..] == [PERCENT, SLASH];
    RunStep(m1, [PERCENT, SLASH]);
    var m2 := m.(mode := CodingSystem);
    assert [PERCENT, SLASH][1..] == [SLASH];
    RunOne(m2, SLASH);
    var m3 := m.(mode := CodingSystemSlash);
    assert Run(m, a) == Outcome(m3, []);
    RunAppend(m, a, [UPPER_G]);
    RunOne(m3, UPPER_G);
    RunOne(m, UPPER_G);
  }
}
