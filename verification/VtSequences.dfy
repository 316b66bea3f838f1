/**
 What whole sequences mean to the automaton of `VtAutomaton`, from the texts alone: control sequences and
 device control strings with their parameters, operating system commands, strings and short escapes.
 */
module VtSequences {
  import opened VtAutomaton
  import opened VtTheory

  // ---------------------------------------------------------------- parameters

  /** Texts with a semicolon between any two of them. */
  function Separated(ps: seq<Text>): Text {
    if ps == [] then [] else if |ps| == 1 then ps[0] else ps[0] + [SEMICOLON] + Separated(ps[1..])
  }

  /** No parameters, and a single empty one, are written the same. */
  function Given(ps: seq<Text>): seq<Text> {
    if ps == [[]] then [] else ps
  }

  /** The parameters with subparameters. */
  function Colons(ps: seq<Text>): set<nat> {
    set i | 0 <= i < |ps| && COLON in ps[i]
  }

  predicate IsParameterUnit(u: Unit, colons: bool) {
    IsDigit(u) || (colons && u == COLON)
  }

  predicate ParameterText(p: Text, colons: bool) {
    forall u :: u in p ==> IsParameterUnit(u, colons)
  }

  predicate ParameterTexts(ps: seq<Text>, colons: bool) {
    forall p :: p in ps ==> ParameterText(p, colons)
  }

  /** Private markers and intermediates: what is neither a parameter nor a separator. */
  predicate IsModifier(u: Unit, colons: bool) {
    SPACE <= u <= QUESTION && u != SEMICOLON && !IsParameterUnit(u, colons)
  }

  predicate ModifierText(text: Text, colons: bool) {
    forall u :: u in text ==> IsModifier(u, colons)
  }

  lemma ModifierParts(text: Text, colons: bool)
    requires ModifierText(text, colons) && text != []
    ensures IsModifier(text[0], colons) && ModifierText(text[1..], colons) && [text[0]] + text[1..] == text
  {
    hide IsModifier;
    assert text[0] in text;
  }

  lemma ParameterParts(p: Text, colons: bool)
    requires ParameterText(p, colons) && p != []
    ensures IsParameterUnit(p[0], colons) && ParameterText(p[1..], colons) && [p[0]] + p[1..] == p
  {
    hide IsParameterUnit;
    assert p[0] in p;
  }

  lemma SeparatedParts(ps: seq<Text>, colons: bool)
    requires ParameterTexts(ps, colons) && ps != []
    ensures ParameterText(ps[0], colons) && ParameterTexts(ps[1..], colons) && [ps[0]] + ps[1..] == ps
    ensures Separated(ps) == if |ps| == 1 then ps[0] else ps[0] + ([SEMICOLON] + Separated(ps[1..]))
  {
    hide ParameterText;
    assert ps[0] in ps;
    if |ps| > 1 {
      Regrouped(ps[0], [SEMICOLON], Separated(ps[1..]));
    }
  }

  lemma Regrouped<T>(a: seq<T>, b: seq<T>, c: seq<T>)
    ensures (a + b) + c == a + (b + c)
  {
  }

  lemma ColonsMore(ps: seq<Text>, p: Text)
    ensures Colons(ps + [p]) == if COLON in p then Colons(ps) + {|ps|} else Colons(ps)
  {
    forall i: nat ensures i in Colons(ps + [p]) <==> i in Colons(ps) || (COLON in p && i == |ps|) {
      if i < |ps| {
        assert (ps + [p])[i] == ps[i];
      }
    }
  }

  /** Units that cause no event, one after the other. */
  lemma RunQuiet(m: Machine, u: Unit, rest: Text, mid: Machine)
    requires Feed(m, u) == Outcome(mid, [])
    ensures Run(m, [u] + rest) == Run(mid, rest)
  {
    hide Feed;
    assert ([u] + rest)[1..] == rest;
    var o := Run(mid, rest);
    assert [] + o.events == o.events;
  }

  lemma RunQuietly(m: Machine, text: Text, rest: Text, mid: Machine)
    requires Run(m, text) == Outcome(mid, [])
    ensures Run(m, text + rest) == Run(mid, rest)
  {
    hide Run;
    RunAppend(m, text, rest);
    var o := Run(mid, rest);
    assert [] + o.events == o.events;
  }

  // ---------------------------------------------------------------- control sequences

  function InCsi(m: Machine, lead: Text, trail: Text, args: seq<Text>): Machine {
    m.(mode := CsiParams(lead, trail, args, Colons(args)))
  }

  lemma FeedCsiModifier(m: Machine, lead: Text, trail: Text, args: seq<Text>, u: Unit)
    requires IsModifier(u, true) && (args == [] ==> trail == [])
    ensures Feed(InCsi(m, lead, trail, args), u)
         == Outcome(if args == [] then InCsi(m, lead + [u], trail, args) else InCsi(m, lead, trail + [u], args), [])
  {
  }

  lemma {:induction false} CsiLead(m: Machine, lead: Text, text: Text)
    requires ModifierText(text, true)
    ensures Run(InCsi(m, lead, [], []), text) == Outcome(InCsi(m, lead + text, [], []), [])
    decreases |text|
  {
    hide Feed, InCsi, ModifierText, IsModifier;
    if text == [] {
      assert lead + text == lead;
      RunNothing(InCsi(m, lead, [], []));
    } else {
      ModifierParts(text, true);
      FeedCsiModifier(m, lead, [], [], text[0]);
      RunQuiet(InCsi(m, lead, [], []), text[0], text[1..], InCsi(m, lead + [text[0]], [], []));
      CsiLead(m, lead + [text[0]], text[1..]);
      Regrouped(lead, [text[0]], text[1..]);
    }
  }

  lemma {:induction false} CsiTrail(m: Machine, lead: Text, trail: Text, args: seq<Text>, text: Text)
    requires ModifierText(text, true) && args != []
    ensures Run(InCsi(m, lead, trail, args), text) == Outcome(InCsi(m, lead, trail + text, args), [])
    decreases |text|
  {
    hide Feed, InCsi, ModifierText, IsModifier;
    if text == [] {
      assert trail + text == trail;
      RunNothing(InCsi(m, lead, trail, args));
    } else {
      ModifierParts(text, true);
      FeedCsiModifier(m, lead, trail, args, text[0]);
      RunQuiet(InCsi(m, lead, trail, args), text[0], text[1..], InCsi(m, lead, trail + [text[0]], args));
      CsiTrail(m, lead, trail + [text[0]], args, text[1..]);
      Regrouped(trail, [text[0]], text[1..]);
    }
  }

  /** One more unit of the last parameter. */
  lemma FeedCsiDigit(m: Machine, lead: Text, done: seq<Text>, p: Text, u: Unit)
    requires IsParameterUnit(u, true)
    ensures Feed(InCsi(m, lead, [], done + [p]), u) == Outcome(InCsi(m, lead, [], done + [p + [u]]), [])
    ensures done == [] && p == [] ==> Feed(InCsi(m, lead, [], []), u) == Outcome(InCsi(m, lead, [], [[u]]), [])
  {
    ColonsMore(done, p);
    ColonsMore(done, p + [u]);
    assert (done + [p])[|done| := p + [u]] == done + [p + [u]];
    ColonsMore([], [u]);
    assert [] + [[u]] == [[u]];
  }

  lemma {:induction false} CsiDigits(m: Machine, lead: Text, done: seq<Text>, p: Text, more: Text)
    requires ParameterText(more, true)
    ensures Run(InCsi(m, lead, [], done + [p]), more) == Outcome(InCsi(m, lead, [], done + [p + more]), [])
    decreases |more|
  {
    hide Feed, InCsi, ParameterText, IsParameterUnit;
    if more == [] {
      assert p + more == p;
      RunNothing(InCsi(m, lead, [], done + [p]));
    } else {
      ParameterParts(more, true);
      FeedCsiDigit(m, lead, done, p, more[0]);
      RunQuiet(InCsi(m, lead, [], done + [p]), more[0], more[1..], InCsi(m, lead, [], done + [p + [more[0]]]));
      CsiDigits(m, lead, done, p + [more[0]], more[1..]);
      Regrouped(p, [more[0]], more[1..]);
    }
  }

  /** A separator starts the next parameter; in front of it there is one, empty if nothing was given. */
  lemma FeedCsiSeparator(m: Machine, lead: Text, done: seq<Text>)
    requires done != []
    ensures Feed(InCsi(m, lead, [], Given(done)), SEMICOLON) == Outcome(InCsi(m, lead, [], done + [[]]), [])
  {
    ColonsMore(done, []);
  }

  lemma NextGiven(done: seq<Text>, p: Text)
    requires done != []
    ensures Given(done + [p]) == done + [p]
  {
  }

  /** Parameters behind a separator. */
  lemma {:induction false} CsiMore(m: Machine, lead: Text, done: seq<Text>, ps: seq<Text>)
    requires ParameterTexts(ps, true) && ps != [] && done != []
    ensures Run(InCsi(m, lead, [], done + [[]]), Separated(ps)) == Outcome(InCsi(m, lead, [], done + ps), [])
    decreases |ps|
  {
    hide Run, Feed, InCsi, ParameterTexts, ParameterText, Separated;
    SeparatedParts(ps, true);
    CsiDigits(m, lead, done, [], ps[0]);
    assert [] + ps[0] == ps[0];
    if |ps| == 1 {
      assert [ps[0]] == ps;
    } else {
      var next := done + [ps[0]];
      var rest := Separated(ps[1..]);
      NextGiven(done, ps[0]);
      FeedCsiSeparator(m, lead, next);
      RunQuietly(InCsi(m, lead, [], done + [[]]), ps[0], [SEMICOLON] + rest, InCsi(m, lead, [], next));
      RunQuiet(InCsi(m, lead, [], next), SEMICOLON, rest, InCsi(m, lead, [], next + [[]]));
      CsiMore(m, lead, next, ps[1..]);
      Regrouped(done, [ps[0]], ps[1..]);
    }
  }

  /** All the parameters of a sequence. */
  lemma CsiAll(m: Machine, lead: Text, ps: seq<Text>)
    requires ParameterTexts(ps, true)
    ensures Run(InCsi(m, lead, [], []), Separated(ps)) == Outcome(InCsi(m, lead, [], Given(ps)), [])
  {
    hide Run, Feed, InCsi, ParameterTexts, ParameterText;
    if ps == [] || ps == [[]] {
      RunNothing(InCsi(m, lead, [], []));
    } else {
      hide Separated;
      SeparatedParts(ps, true);
      CsiFirst(m, lead, ps[0]);
      if |ps| == 1 {
        assert [ps[0]] == ps;
      } else {
        var rest := Separated(ps[1..]);
        FeedCsiSeparator(m, lead, [ps[0]]);
        RunQuietly(InCsi(m, lead, [], []), ps[0], [SEMICOLON] + rest, InCsi(m, lead, [], Given([ps[0]])));
        RunQuiet(InCsi(m, lead, [], Given([ps[0]])), SEMICOLON, rest, InCsi(m, lead, [], [ps[0]] + [[]]));
        CsiMore(m, lead, [ps[0]], ps[1..]);
      }
    }
  }

  lemma CsiFirst(m: Machine, lead: Text, p: Text)
    requires ParameterText(p, true)
    ensures Run(InCsi(m, lead, [], []), p) == Outcome(InCsi(m, lead, [], Given([p])), [])
  {
    hide Feed, InCsi;
    if p == [] {
      RunNothing(InCsi(m, lead, [], []));
    } else {
      ParameterParts(p, true);
      FeedCsiDigit(m, lead, [], [], p[0]);
      RunQuiet(InCsi(m, lead, [], []), p[0], p[1..], InCsi(m, lead, [], [[p[0]]]));
      CsiDigits(m, lead, [], [p[0]], p[1..]);
      assert [] + [[p[0]]] == [[p[0]]] && [] + [p] == [p];
    }
  }

  /** What a complete control sequence causes: nothing, if it has subparameters and is not SGR. */
  function CsiEvents(code: Text, args: seq<Text>): seq<Event> {
    if Colons(args) == {} || code == [LOWER_M] then [ControlSequence(code, args, Colons(args))] else []
  }

  lemma FeedCsiFinal(m: Machine, lead: Text, trail: Text, args: seq<Text>, f: Unit)
    requires IsFinal(f)
    ensures Feed(InCsi(m, lead, trail, args), f)
         == Outcome(m.(mode := Ground), CsiEvents(lead + trail + [f], args))
  {
  }

  lemma CsiModifiers(m: Machine, lead: Text, args: seq<Text>, trail: Text)
    requires ModifierText(trail, true)
    ensures Run(InCsi(m, lead, [], args), trail)
         == Outcome(if args == [] then InCsi(m, lead + trail, [], []) else InCsi(m, lead, trail, args), [])
  {
    hide Run, InCsi;
    if args == [] {
      CsiLead(m, lead, trail);
    } else {
      CsiTrail(m, lead, [], args, trail);
      assert [] + trail == trail;
    }
  }

  lemma StartCsi(m: Machine)
    requires m.mode.Ground?
    ensures Run(m, [ESC, LEFT_BRACKET]) == Outcome(InCsi(m, [], [], []), [])
  {
    var seen := m.(mode := EscapeSeen);
    assert Feed(m, ESC) == Outcome(seen, []);
    RunQuiet(m, ESC, [LEFT_BRACKET], seen);
    assert [ESC] + [LEFT_BRACKET] == [ESC, LEFT_BRACKET];
    RunOne(seen, LEFT_BRACKET);
  }

  /**
   A control sequence delivers exactly its parameters, in their order and written as they came, with its
   private markers, intermediates and final as the code, and with the set of parameters that have
   subparameters.
   */
  lemma CsiDelivers(m: Machine, lead: Text, ps: seq<Text>, trail: Text, f: Unit)
    requires m.mode.Ground? && ModifierText(lead, true) && ModifierText(trail, true)
    requires ParameterTexts(ps, true) && IsFinal(f)
    ensures Run(m, [ESC, LEFT_BRACKET] + lead + Separated(ps) + trail + [f])
         == Outcome(m, CsiEvents(lead + trail + [f], Given(ps)))
  {
    hide Run, Feed, InCsi, CsiEvents, ModifierText;
    var args := Given(ps);
    StartCsi(m);
    CsiLead(m, [], lead);
    assert [] + lead == lead;
    RunQuietlyTwice(m, [ESC, LEFT_BRACKET], lead, InCsi(m, [], [], []), InCsi(m, lead, [], []));
    CsiAll(m, lead, ps);
    RunQuietlyTwice(m, [ESC, LEFT_BRACKET] + lead, Separated(ps), InCsi(m, lead, [], []), InCsi(m, lead, [], args));
    CsiModifiers(m, lead, args, trail);
    var end := if args == [] then InCsi(m, lead + trail, [], []) else InCsi(m, lead, trail, args);
    RunQuietlyTwice(m, [ESC, LEFT_BRACKET] + lead + Separated(ps), trail, InCsi(m, lead, [], args), end);
    RunQuietly(m, [ESC, LEFT_BRACKET] + lead + Separated(ps) + trail, [f], end);
    RunOne(end, f);
    FeedCsiFinal(m, lead + trail, [], [], f);
    FeedCsiFinal(m, lead, trail, args, f);
    assert lead + trail + [] + [f] == lead + trail + [f];
    assert m.(mode := Ground) == m;
  }

  lemma RunQuietlyTwice(m: Machine, a: Text, b: Text, mid: Machine, end: Machine)
    requires Run(m, a) == Outcome(mid, []) && Run(mid, b) == Outcome(end, [])
    ensures Run(m, a + b) == Outcome(end, [])
  {
    hide Run;
    RunQuietly(m, a, b, mid);
  }

  /** A parameter behind an intermediate ends the sequence, and nothing is delivered. */
  lemma CsiAbandoned(m: Machine, lead: Text, ps: seq<Text>, trail: Text, u: Unit)
    requires m.mode.Ground? && ModifierText(lead, true) && ModifierText(trail, true) && ParameterTexts(ps, true)
    requires Given(ps) != [] && trail != [] && (u == SEMICOLON || IsParameterUnit(u, true))
    ensures Run(m, [ESC, LEFT_BRACKET] + lead + Separated(ps) + trail + [u]) == Outcome(m, [])
  {
    hide Run, InCsi, ModifierText;
    var args := Given(ps);
    StartCsi(m);
    CsiLead(m, [], lead);
    assert [] + lead == lead;
    RunQuietlyTwice(m, [ESC, LEFT_BRACKET], lead, InCsi(m, [], [], []), InCsi(m, lead, [], []));
    CsiAll(m, lead, ps);
    RunQuietlyTwice(m, [ESC, LEFT_BRACKET] + lead, Separated(ps), InCsi(m, lead, [], []), InCsi(m, lead, [], args));
    CsiModifiers(m, lead, args, trail);
    RunQuietlyTwice(m, [ESC, LEFT_BRACKET] + lead + Separated(ps), trail, InCsi(m, lead, [], args),
                    InCsi(m, lead, trail, args));
    RunQuietly(m, [ESC, LEFT_BRACKET] + lead + Separated(ps) + trail, [u], InCsi(m, lead, trail, args));
    RunOne(InCsi(m, lead, trail, args), u);
    FeedCsiLate(m, lead, trail, args, u);
    assert m.(mode := Ground) == m;
  }

  lemma FeedCsiLate(m: Machine, lead: Text, trail: Text, args: seq<Text>, u: Unit)
    requires trail != [] && (u == SEMICOLON || IsParameterUnit(u, true))
    ensures Feed(InCsi(m, lead, trail, args), u) == Outcome(m.(mode := Ground), [])
  {
  }

  // ---------------------------------------------------------------- device control strings

  function InDcs(m: Machine, lead: Text, trail: Text, args: seq<Text>): Machine {
    m.(mode := DcsParams(lead, trail, args))
  }

  lemma FeedDcsModifier(m: Machine, lead: Text, trail: Text, args: seq<Text>, u: Unit)
    requires IsModifier(u, false) && (args == [] ==> trail == [])
    ensures Feed(InDcs(m, lead, trail, args), u)
         == Outcome(if args == [] then InDcs(m, lead + [u], trail, args) else InDcs(m, lead, trail + [u], args), [])
  {
  }

  lemma {:induction false} DcsLead(m: Machine, lead: Text, text: Text)
    requires ModifierText(text, false)
    ensures Run(InDcs(m, lead, [], []), text) == Outcome(InDcs(m, lead + text, [], []), [])
    decreases |text|
  {
    hide Feed, InDcs, ModifierText, IsModifier;
    if text == [] {
      assert lead + text == lead;
      RunNothing(InDcs(m, lead, [], []));
    } else {
      ModifierParts(text, false);
      FeedDcsModifier(m, lead, [], [], text[0]);
      RunQuiet(InDcs(m, lead, [], []), text[0], text[1..], InDcs(m, lead + [text[0]], [], []));
      DcsLead(m, lead + [text[0]], text[1..]);
      Regrouped(lead, [text[0]], text[1..]);
    }
  }

  lemma {:induction false} DcsTrail(m: Machine, lead: Text, trail: Text, args: seq<Text>, text: Text)
    requires ModifierText(text, false) && args != []
    ensures Run(InDcs(m, lead, trail, args), text) == Outcome(InDcs(m, lead, trail + text, args), [])
    decreases |text|
  {
    hide Feed, InDcs, ModifierText, IsModifier;
    if text == [] {
      assert trail + text == trail;
      RunNothing(InDcs(m, lead, trail, args));
    } else {
      ModifierParts(text, false);
      FeedDcsModifier(m, lead, trail, args, text[0]);
      RunQuiet(InDcs(m, lead, trail, args), text[0], text[1..], InDcs(m, lead, trail + [text[0]], args));
      DcsTrail(m, lead, trail + [text[0]], args, text[1..]);
      Regrouped(trail, [text[0]], text[1..]);
    }
  }

  lemma FeedDcsDigit(m: Machine, lead: Text, done: seq<Text>, p: Text, u: Unit)
    requires IsParameterUnit(u, false)
    ensures Feed(InDcs(m, lead, [], done + [p]), u) == Outcome(InDcs(m, lead, [], done + [p + [u]]), [])
    ensures done == [] && p == [] ==> Feed(InDcs(m, lead, [], []), u) == Outcome(InDcs(m, lead, [], [[u]]), [])
  {
    assert (done + [p])[|done| := p + [u]] == done + [p + [u]];
    assert [] + [[u]] == [[u]];
  }

  lemma {:induction false} DcsDigits(m: Machine, lead: Text, done: seq<Text>, p: Text, more: Text)
    requires ParameterText(more, false)
    ensures Run(InDcs(m, lead, [], done + [p]), more) == Outcome(InDcs(m, lead, [], done + [p + more]), [])
    decreases |more|
  {
    hide Feed, InDcs, ParameterText, IsParameterUnit;
    if more == [] {
      assert p + more == p;
      RunNothing(InDcs(m, lead, [], done + [p]));
    } else {
      ParameterParts(more, false);
      FeedDcsDigit(m, lead, done, p, more[0]);
      RunQuiet(InDcs(m, lead, [], done + [p]), more[0], more[1..], InDcs(m, lead, [], done + [p + [more[0]]]));
      DcsDigits(m, lead, done, p + [more[0]], more[1..]);
      Regrouped(p, [more[0]], more[1..]);
    }
  }

  lemma FeedDcsSeparator(m: Machine, lead: Text, done: seq<Text>)
    requires done != []
    ensures Feed(InDcs(m, lead, [], Given(done)), SEMICOLON) == Outcome(InDcs(m, lead, [], done + [[]]), [])
  {
  }

  lemma {:induction false} DcsMore(m: Machine, lead: Text, done: seq<Text>, ps: seq<Text>)
    requires ParameterTexts(ps, false) && ps != [] && done != []
    ensures Run(InDcs(m, lead, [], done + [[]]), Separated(ps)) == Outcome(InDcs(m, lead, [], done + ps), [])
    decreases |ps|
  {
    hide Run, Feed, InDcs, ParameterTexts, ParameterText, Separated;
    SeparatedParts(ps, false);
    DcsDigits(m, lead, done, [], ps[0]);
    assert [] + ps[0] == ps[0];
    if |ps| == 1 {
      assert [ps[0]] == ps;
    } else {
      var next := done + [ps[0]];
      var rest := Separated(ps[1..]);
      NextGiven(done, ps[0]);
      FeedDcsSeparator(m, lead, next);
      RunQuietly(InDcs(m, lead, [], done + [[]]), ps[0], [SEMICOLON] + rest, InDcs(m, lead, [], next));
      RunQuiet(InDcs(m, lead, [], next), SEMICOLON, rest, InDcs(m, lead, [], next + [[]]));
      DcsMore(m, lead, next, ps[1..]);
      Regrouped(done, [ps[0]], ps[1..]);
    }
  }

  /** All the parameters of a header. */
  lemma DcsAll(m: Machine, lead: Text, ps: seq<Text>)
    requires ParameterTexts(ps, false)
    ensures Run(InDcs(m, lead, [], []), Separated(ps)) == Outcome(InDcs(m, lead, [], Given(ps)), [])
  {
    hide Run, Feed, InDcs, ParameterTexts, ParameterText;
    if ps == [] || ps == [[]] {
      RunNothing(InDcs(m, lead, [], []));
    } else {
      hide Separated;
      SeparatedParts(ps, false);
      DcsFirst(m, lead, ps[0]);
      if |ps| == 1 {
        assert [ps[0]] == ps;
      } else {
        var rest := Separated(ps[1..]);
        FeedDcsSeparator(m, lead, [ps[0]]);
        RunQuietly(InDcs(m, lead, [], []), ps[0], [SEMICOLON] + rest, InDcs(m, lead, [], Given([ps[0]])));
        RunQuiet(InDcs(m, lead, [], Given([ps[0]])), SEMICOLON, rest, InDcs(m, lead, [], [ps[0]] + [[]]));
        DcsMore(m, lead, [ps[0]], ps[1..]);
      }
    }
  }

  lemma DcsFirst(m: Machine, lead: Text, p: Text)
    requires ParameterText(p, false)
    ensures Run(InDcs(m, lead, [], []), p) == Outcome(InDcs(m, lead, [], Given([p])), [])
  {
    hide Feed, InDcs;
    if p == [] {
      RunNothing(InDcs(m, lead, [], []));
    } else {
      ParameterParts(p, false);
      FeedDcsDigit(m, lead, [], [], p[0]);
      RunQuiet(InDcs(m, lead, [], []), p[0], p[1..], InDcs(m, lead, [], [[p[0]]]));
      DcsDigits(m, lead, [], [p[0]], p[1..]);
      assert [] + [[p[0]]] == [[p[0]]] && [] + [p] == [p];
    }
  }

  lemma DcsModifiers(m: Machine, lead: Text, args: seq<Text>, trail: Text)
    requires ModifierText(trail, false)
    ensures Run(InDcs(m, lead, [], args), trail)
         == Outcome(if args == [] then InDcs(m, lead + trail, [], []) else InDcs(m, lead, trail, args), [])
  {
    hide Run, InDcs;
    if args == [] {
      DcsLead(m, lead, trail);
    } else {
      DcsTrail(m, lead, [], args, trail);
      assert [] + trail == trail;
    }
  }

  /** What follows a header: tmux control mode, or a string that begins with the first parameter and is discarded. */
  function BehindHeader(code: Text, args: seq<Text>): Mode {
    if code == [LOWER_P] && args == [TMUX_ARGUMENT] then Tmux([])
    else ControlString(DiscardString, if args == [] then [] else args[0])
  }

  lemma FeedDcsFinal(m: Machine, lead: Text, trail: Text, args: seq<Text>, f: Unit)
    requires IsFinal(f)
    ensures Feed(InDcs(m, lead, trail, args), f)
         == Outcome(m.(mode := BehindHeader(lead + trail + [f], args)), [DeviceControl(lead + trail + [f], args)])
  {
  }

  lemma StartDcs(m: Machine)
    requires m.mode.Ground?
    ensures Run(m, [ESC, UPPER_P]) == Outcome(InDcs(m, [], [], []), [])
  {
    var seen := m.(mode := EscapeSeen);
    assert Feed(m, ESC) == Outcome(seen, []);
    RunQuiet(m, ESC, [UPPER_P], seen);
    assert [ESC] + [UPPER_P] == [ESC, UPPER_P];
    RunOne(seen, UPPER_P);
  }

  /** The header of a device control string delivers exactly its parameters and its code. */
  lemma DcsDelivers(m: Machine, lead: Text, ps: seq<Text>, trail: Text, f: Unit)
    requires m.mode.Ground? && ModifierText(lead, false) && ModifierText(trail, false)
    requires ParameterTexts(ps, false) && IsFinal(f)
    ensures var code := lead + trail + [f];
            Run(m, [ESC, UPPER_P] + lead + Separated(ps) + trail + [f])
            == Outcome(m.(mode := BehindHeader(code, Given(ps))), [DeviceControl(code, Given(ps))])
  {
    hide Run, Feed, InDcs, ModifierText, BehindHeader;
    var args := Given(ps);
    StartDcs(m);
    DcsLead(m, [], lead);
    assert [] + lead == lead;
    RunQuietlyTwice(m, [ESC, UPPER_P], lead, InDcs(m, [], [], []), InDcs(m, lead, [], []));
    DcsAll(m, lead, ps);
    RunQuietlyTwice(m, [ESC, UPPER_P] + lead, Separated(ps), InDcs(m, lead, [], []), InDcs(m, lead, [], args));
    DcsModifiers(m, lead, args, trail);
    var end := if args == [] then InDcs(m, lead + trail, [], []) else InDcs(m, lead, trail, args);
    RunQuietlyTwice(m, [ESC, UPPER_P] + lead + Separated(ps), trail, InDcs(m, lead, [], args), end);
    RunQuietly(m, [ESC, UPPER_P] + lead + Separated(ps) + trail, [f], end);
    RunOne(end, f);
    FeedDcsFinal(m, lead + trail, [], [], f);
    FeedDcsFinal(m, lead, trail, args, f);
    assert lead + trail + [] + [f] == lead + trail + [f];
  }

  // ---------------------------------------------------------------- strings

  /** The two ways to close a string. */
  predicate ClosesString(close: Text) {
    close == [BEL] || close == [ESC, BACKSLASH]
  }

  /** A string with its terminator delivers its text, and leaves the ground state. */
  lemma StringText(m: Machine, kind: StringKind, saved: Text, text: Text, close: Text)
    requires m.mode.Ground? && !EndsWith(saved, ESC) && StopFree(text) && ClosesString(close)
    ensures Run(m.(mode := ControlString(kind, saved)), text + close) == Outcome(m, Deliver(kind, saved + text))
  {
    hide Run, Deliver;
    var open, buf := m.(mode := ControlString(kind, saved)), text + close;
    assert buf[..|text|] == text;
    StringClosed(open, buf, |text|);
    assert buf[|text| + |close|..] == [];
    ThenNothing(Close(open, text));
    assert m.(mode := Ground) == m;
  }

  /** A string introduced by ESC and one unit. */
  lemma EscapeString(m: Machine, u: Unit, kind: StringKind, text: Text, close: Text)
    requires m.mode.Ground? && StopFree(text) && ClosesString(close)
    requires match kind
             case OscString => u == RIGHT_BRACKET
             case NameString => u == LOWER_K
             case DiscardString => u == CARET || u == UNDERSCORE
    ensures Run(m, [ESC, u] + text + close) == Outcome(m, Deliver(kind, text))
  {
    hide Run, Deliver;
    EscapeStarts(m, u, kind);
    Regrouped([ESC, u], text, close);
    RunQuietly(m, [ESC, u], text + close, m.(mode := ControlString(kind, [])));
    StringText(m, kind, [], text, close);
    assert [] + text == text;
  }

  lemma EscapeStarts(m: Machine, u: Unit, kind: StringKind)
    requires m.mode.Ground?
    requires match kind
             case OscString => u == RIGHT_BRACKET
             case NameString => u == LOWER_K
             case DiscardString => u == CARET || u == UNDERSCORE
    ensures Run(m, [ESC, u]) == Outcome(m.(mode := ControlString(kind, [])), [])
  {
    EscapeFirst(m, u);
  }

  lemma EscapeFirst(m: Machine, u: Unit)
    requires m.mode.Ground?
    ensures Run(m, [ESC, u]) == FeedEscape(m.(mode := EscapeSeen), u)
  {
    hide FeedEscape;
    var seen := m.(mode := EscapeSeen);
    assert Feed(m, ESC) == Outcome(seen, []);
    RunQuiet(m, ESC, [u], seen);
    assert [ESC] + [u] == [ESC, u];
    RunOne(seen, u);
  }

  predicate OneLine(data: Text) {
    forall u :: u in data ==> !IsLineTerminator(u)
  }

  /** The number at the start of a text. */
  lemma {:induction false} CountDigits(digits: Text, rest: Text)
    requires Digits(digits) && (rest == [] || !IsDigit(rest[0]))
    ensures DigitCount(digits + rest) == |digits|
    decreases |digits|
  {
    if digits == [] {
      assert digits + rest == rest;
    } else {
      assert (digits + rest)[0] == digits[0] && (digits + rest)[1..] == digits[1..] + rest;
      CountDigits(digits[1..], rest);
    }
  }

  /**
   An operating system command delivers its number and its data, without the semicolon between them.
   Data of more than one line is not delivered.
   */
  lemma OscDelivers(m: Machine, digits: Text, data: Text, close: Text)
    requires m.mode.Ground? && digits != [] && Digits(digits) && StopFree(data) && ClosesString(close)
    ensures Run(m, [ESC, RIGHT_BRACKET] + (digits + [SEMICOLON] + data) + close)
         == Outcome(m, if OneLine(data) then [OperatingSystemCommand(digits, data)] else [])
    ensures (data == [] || (data[0] != SEMICOLON && !IsDigit(data[0]))) ==>
      Run(m, [ESC, RIGHT_BRACKET] + (digits + data) + close)
      == Outcome(m, if OneLine(data) then [OperatingSystemCommand(digits, data)] else [])
  {
    hide Run, Deliver;
    var text := digits + [SEMICOLON] + data;
    assert StopFree(digits) && StopFree(text);
    EscapeString(m, RIGHT_BRACKET, OscString, text, close);
    DeliverOsc(digits, data);
    assert StopFree(digits + data);
    EscapeString(m, RIGHT_BRACKET, OscString, digits + data, close);
  }

  lemma DeliverOsc(digits: Text, data: Text)
    requires digits != [] && Digits(digits)
    ensures Deliver(OscString, digits + [SEMICOLON] + data)
         == if OneLine(data) then [OperatingSystemCommand(digits, data)] else []
    ensures (data == [] || (data[0] != SEMICOLON && !IsDigit(data[0]))) ==>
      Deliver(OscString, digits + data) == if OneLine(data) then [OperatingSystemCommand(digits, data)] else []
  {
    hide DigitCount, IsLineTerminator;
    Regrouped(digits, [SEMICOLON], data);
    CountDigits(digits, [SEMICOLON] + data);
    var text := digits + [SEMICOLON] + data;
    assert text[..|digits|] == digits && text[|digits|] == SEMICOLON && text[|digits| + 1..] == data;
    if data == [] || (data[0] != SEMICOLON && !IsDigit(data[0])) {
      CountDigits(digits, data);
      assert (digits + data)[..|digits|] == digits && (digits + data)[|digits|..] == data;
    }
  }

  /** Without a number nothing is delivered. */
  lemma OscIgnored(m: Machine, text: Text, close: Text)
    requires m.mode.Ground? && StopFree(text) && (text == [] || !IsDigit(text[0])) && ClosesString(close)
    ensures Run(m, [ESC, RIGHT_BRACKET] + text + close) == Outcome(m, [])
  {
    hide Run;
    EscapeString(m, RIGHT_BRACKET, OscString, text, close);
  }

  /** ESC k names the window; privacy messages and application commands are skipped. */
  lemma StringsMean(m: Machine, text: Text, close: Text)
    requires m.mode.Ground? && StopFree(text) && ClosesString(close)
    ensures Run(m, [ESC, LOWER_K] + text + close) == Outcome(m, [WindowName(text)])
    ensures Run(m, [ESC, CARET] + text + close) == Outcome(m, [])
    ensures Run(m, [ESC, UNDERSCORE] + text + close) == Outcome(m, [])
  {
    hide Run;
    EscapeString(m, LOWER_K, NameString, text, close);
    EscapeString(m, CARET, DiscardString, text, close);
    EscapeString(m, UNDERSCORE, DiscardString, text, close);
  }

  /** The text of a device control string other than tmux's is skipped. */
  lemma DcsSkipped(m: Machine, lead: Text, ps: seq<Text>, trail: Text, f: Unit, text: Text, close: Text)
    requires m.mode.Ground? && ModifierText(lead, false) && ModifierText(trail, false)
    requires ParameterTexts(ps, false) && IsFinal(f) && StopFree(text) && ClosesString(close)
    requires !(lead + trail + [f] == [LOWER_P] && ps == [TMUX_ARGUMENT])
    ensures Run(m, [ESC, UPPER_P] + lead + Separated(ps) + trail + [f] + (text + close))
         == Outcome(m, [DeviceControl(lead + trail + [f], Given(ps))])
  {
    hide Run, ModifierText, Deliver;
    var header, args := [ESC, UPPER_P] + lead + Separated(ps) + trail + [f], Given(ps);
    var saved := if args == [] then [] else args[0];
    DcsDelivers(m, lead, ps, trail, f);
    RunAppend(m, header, text + close);
    FirstIsDigits(ps);
    StringText(m, DiscardString, saved, text, close);
    NothingDiscarded(saved + text);
    var events := [DeviceControl(lead + trail + [f], args)];
    assert events + [] == events;
  }

  lemma NothingDiscarded(text: Text)
    ensures Deliver(DiscardString, text) == []
  {
  }

  lemma FirstIsDigits(ps: seq<Text>)
    requires ParameterTexts(ps, false)
    ensures ps != [] ==> !EndsWith(ps[0], ESC)
  {
    if ps != [] && ps[0] != [] {
      assert ps[0] in ps && ps[0][|ps[0]| - 1] in ps[0];
    }
  }

  // ---------------------------------------------------------------- short escapes and controls

  /** The units that start something longer behind an ESC. */
  predicate Introduces(u: Unit) {
    u in {ESC, UPPER_P, LEFT_BRACKET, RIGHT_BRACKET, CARET, UNDERSCORE, LOWER_K, SPACE, HASH, PERCENT} ||
    IsCharsetSlot(u)
  }

  /** Any other unit makes an escape of two units. */
  lemma EscapeDelivers(m: Machine, u: Unit)
    requires m.mode.Ground? && !Introduces(u)
    ensures Run(m, [ESC, u]) == Outcome(m, [Escape(u)])
  {
    hide Run;
    EscapeFirst(m, u);
    assert m.(mode := Ground) == m;
  }

  /** The escapes of three units, and of four for ESC % /. */
  lemma LongEscapesMean(m: Machine, u: Unit, slot: Unit)
    requires m.mode.Ground? && IsCharsetSlot(slot)
    ensures Run(m, [ESC, SPACE, u]) == Outcome(m, [])
    ensures Run(m, [ESC, HASH, u]) == Outcome(m, if u == EIGHT then [ScreenAlignment] else [])
    ensures u != ESC ==> Run(m, [ESC, slot, u]) == Outcome(m, [DesignateCharset(slot, u)])
    ensures u != SLASH ==>
      Run(m, [ESC, PERCENT, u])
      == Outcome(if m.locked then m
                 else m.(utf8 := if u == AT then false else if u == UPPER_G then true else m.utf8), [])
    ensures Run(m, [ESC, PERCENT, SLASH, u])
         == Outcome(if !m.locked && UPPER_G <= u <= UPPER_I then m.(utf8 := true, locked := true) else m, [])
  {
    hide Run;
    LongEscape(m, SPACE, SpaceSeen, u);
    LongEscape(m, HASH, HashSeen, u);
    LongEscape(m, slot, Charset(slot), u);
    LongEscape(m, PERCENT, CodingSystem, u);
    LongEscape(m, PERCENT, CodingSystem, SLASH);
    var slash := m.(mode := CodingSystemSlash);
    RunQuietly(m, [ESC, PERCENT, SLASH], [u], slash);
    assert [ESC, PERCENT, SLASH] + [u] == [ESC, PERCENT, SLASH, u];
    RunOne(slash, u);
    assert m.(mode := Ground) == m;
  }

  /** An ESC behind an ESC, or in place of a character set, starts the escape anew. */
  lemma EscapeAgain(m: Machine, slot: Unit)
    requires m.mode.Ground? && IsCharsetSlot(slot)
    ensures Run(m, [ESC]) == Outcome(m.(mode := EscapeSeen), [])
    ensures Run(m, [ESC, ESC]) == Run(m, [ESC]) == Run(m, [ESC, slot, ESC])
  {
    hide Run;
    RunOne(m, ESC);
    EscapeFirst(m, ESC);
    LongEscape(m, slot, Charset(slot), ESC);
  }

  lemma LongEscape(m: Machine, first: Unit, mode: Mode, u: Unit)
    requires m.mode.Ground? && FeedEscape(m.(mode := EscapeSeen), first) == Outcome(m.(mode := mode), [])
    ensures Run(m, [ESC, first, u]) == Feed(m.(mode := mode), u)
  {
    hide Run, Feed, FeedEscape;
    EscapeFirst(m, first);
    RunQuietly(m, [ESC, first], [u], m.(mode := mode));
    assert [ESC, first] + [u] == [ESC, first, u];
    RunOne(m.(mode := mode), u);
  }

  /** An 8-bit control is its ESC form in one unit; without UTF-8 it is obeyed if 8-bit controls are, else skipped. */
  lemma EightBitForms(m: Machine, u: Unit)
    requires m.mode.Ground? && !m.utf8 && u in {DCS, CSI, OSC, PM, APC}
    ensures Run(m, [u]) == if m.c1 then Run(m, [ESC, u - 0x40]) else Outcome(m, [])
  {
    hide Run;
    RunOne(m, u);
    EscapeFirst(m, u - 0x40);
  }

  /** The other 8-bit controls. */
  lemma EightBitControls(m: Machine, u: Unit)
    requires m.mode.Ground? && IsControl(u, m.utf8) && u > 0x7f && u !in {DCS, CSI, OSC, PM, APC}
    ensures Run(m, [u]) == Outcome(m, if m.c1 then [Control(u)] else [])
  {
    hide Run;
    RunOne(m, u);
  }

  /** CAN and SUB end a sequence and print a question mark; other controls are obeyed, and a sequence goes on. */
  lemma ControlsMean(m: Machine, u: Unit)
    requires m.mode.Ground? || m.mode.CsiParams? || m.mode.DcsParams?
    requires m.mode.CsiParams? ==> m.mode.subargs == {}
    requires IsControl(u, m.utf8) && u <= 0x7f
    ensures Run(m, [u]) == if u == ESC then Outcome(m.(mode := EscapeSeen), [])
                           else if u == CAN || u == SUB then Outcome(m.(mode := Ground), [Control(u), Print(QUESTION)])
                           else Outcome(m, [Control(u)])
  {
    hide Run;
    RunOne(m, u);
  }

  /** Behind a subparameter controls are skipped; a unit that is neither a control nor part of a sequence ends it. */
  lemma StrayUnits(m: Machine, u: Unit)
    requires m.mode.CsiParams? || m.mode.DcsParams?
    requires u < SPACE || u > TILDE
    ensures IsControl(u, m.utf8) && m.mode.CsiParams? && m.mode.subargs != {} ==> Run(m, [u]) == Outcome(m, [])
    ensures !IsControl(u, m.utf8) ==> Run(m, [u]) == Outcome(m.(mode := Ground), [])
  {
    hide Run;
    RunOne(m, u);
  }

  // ---------------------------------------------------------------- the classes of units

  /** The code points of a few characters. */
  predicate Among(u: Unit, characters: string) {
    exists i :: 0 <= i < |characters| && characters[i] as int == u as int
  }

  /** The units that the parsers tell apart, one by one. */
  lemma UnitClasses(u: Unit)
    ensures IsDigit(u) <==> Among(u, "0123456789")
    ensures IsParameterOrIntermediate(u) <==> Among(u, " !\"#$%&'()*+,-./0123456789:;<=>?")
    ensures IsFinal(u) <==> Among(u, "@ABCDEFGHIJKLMNOPQRSTUVWXYZ[\\]^_") || Among(u, "`abcdefghijklmnopqrstuvwxyz{|}~")
    ensures IsCharsetSlot(u) <==> Among(u, "()*+") || Among(u, "-./")
    ensures IsLineTerminator(u) <==> u in {0x0a, 0x0d, 0x2028, 0x2029}
    ensures IsControlKey(u) <==>
      u in {0x00, 0x05, 0x07, 0x08, 0x09, 0x0a, 0x0b, 0x0c, 0x0d, 0x0e, 0x0f, 0x11, 0x13, 0x18, 0x1a, 0x1b, 0x7f,
            0x84, 0x85, 0x88, 0x8d, 0x8e, 0x8f, 0x90, 0x96, 0x97, 0x98, 0x9a, 0x9b, 0x9c, 0x9d, 0x9e, 0x9f}
  {
    hide Among;
    Parameters(u);
    UpperFinals(u);
    LowerFinals(u);
    AmongRange(u, "0123456789");
    AmongRange(u, "()*+");
    AmongRange(u, "-./");
  }

  lemma Parameters(u: Unit)
    ensures Among(u, " !\"#$%&'()*+,-./0123456789:;<=>?") <==> SPACE <= u <= QUESTION
  {
    hide Among;
    AmongRange(u, " !\"#$%&'()*+,-./0123456789:;<=>?");
  }

  lemma UpperFinals(u: Unit)
    ensures Among(u, "@ABCDEFGHIJKLMNOPQRSTUVWXYZ[\\]^_") <==> AT <= u <= UNDERSCORE
  {
    hide Among;
    AmongRange(u, "@ABCDEFGHIJKLMNOPQRSTUVWXYZ[\\]^_");
  }

  lemma LowerFinals(u: Unit)
    ensures Among(u, "`abcdefghijklmnopqrstuvwxyz{|}~") <==> UNDERSCORE < u <= TILDE
  {
    hide Among;
    AmongRange(u, "`abcdefghijklmnopqrstuvwxyz{|}~");
  }

  /** Characters that follow each other in the code table. */
  lemma AmongRange(u: Unit, characters: string)
    requires characters != "" && forall i :: 0 <= i < |characters| ==> characters[i] as int == characters[0] as int + i
    ensures Among(u, characters) <==> characters[0] as int <= u as int < characters[0] as int + |characters|
  {
    var i := u as int - characters[0] as int;
    if 0 <= i < |characters| {
      assert characters[i] as int == u as int;
    }
  }
}
