/** The abstract console: three independent displays, one of them visible, one scheduled. */
module Screens {
  import opened Common
  import opened Strings
  import opened Displays

  datatype Screens = Screens(displays: seq<Display>, visible: nat, sched: nat) {

    ghost predicate Ok() {
      && |displays| == TERMINALS && visible < TERMINALS && sched < TERMINALS
      && displays[0].Ok() && displays[1].Ok() && displays[2].Ok()
    }

    ghost function With(t: nat, d: Display): Screens
      requires t < |displays|
    {
      this.(displays := displays[t := d])
    }
  }

  /** What happens to the console, one atomic step at a time. */
  datatype Event =
    | Key(code: byte)        // a byte from the keyboard
    | Tick                   // the PIT schedules the next terminal
    | Write(text: Bytes)     // output of the scheduled terminal
    | BeginRead              // terminal_read starts waiting
    | EndRead                // terminal_read takes the line
    | OpenTerm               // terminal_open or terminal_close

  /** Scan codes the handler returns from at once. */
  predicate Ignored(code: nat) { CAP_OFFSET <= code <= RELEASE || code >= CAP_OFFSET + RELEASE }

  /** A read starts with at most 127 pending characters, and takes a line that is finished. */
  ghost predicate Enabled(s: Screens, e: Event)
    requires s.Ok()
  {
    match e
    case BeginRead => s.displays[s.sched].term.index < BUF_LENGTH
    case EndRead => s.displays[s.sched].term.flag
    case _ => true
  }

  /** A step seen from one display. */
  datatype Local =
    | Down(code: nat)
    | Up(code: nat)
    | Out(text: Bytes)
    | Await
    | Forget
    | Nothing

  ghost predicate LocalOk(d: Display, l: Local)
    requires d.Ok()
  {
    match l
    case Down(code) => !SwitchKey(d.term, code)
    case Await => d.term.index < BUF_LENGTH
    case _ => true
  }

  ghost function LocalStep(d: Display, l: Local): (r: Display)
    requires d.Ok() && LocalOk(d, l)
    ensures r.Ok()
  {
    match l
    case Down(code) => KeyDown(d, code)
    case Up(code) => KeyUp(d, code)
    case Out(text) => PutAllOk(d, text); PutAll(d, text)
    case Await => d.(term := d.term.(flag := false))
    case Forget => d.(term := d.term.(index := 0))
    case Nothing => d
  }

  /** Which display a step addresses, and as what. */
  ghost function Addressed(s: Screens, e: Event): (nat, Local)
    requires s.Ok()
  {
    match e
    case Key(code) =>
      if Ignored(code) then (s.visible, Nothing)
      else if code >= RELEASE then (s.visible, Up(code))
      else if SwitchKey(s.displays[s.visible].term, code) then (s.visible, Nothing)
      else (s.visible, Down(code))
    case Tick => (s.sched, Nothing)
    case Write(text) => (s.sched, Out(text))
    case BeginRead => (s.sched, Await)
    case EndRead => (s.visible, Forget)
    case OpenTerm => (s.visible, Forget)
  }

  lemma AddressedOk(s: Screens, e: Event)
    requires s.Ok() && Enabled(s, e)
    ensures Addressed(s, e).0 < TERMINALS && LocalOk(s.displays[Addressed(s, e).0], Addressed(s, e).1)
  {
  }

  /** One step: the addressed display changes, and a tick or a switch key moves a pointer. */
  ghost function Step(s: Screens, e: Event): (r: Screens)
    requires s.Ok() && Enabled(s, e)
    ensures r.Ok()
  {
    AddressedOk(s, e);
    var (t, l) := Addressed(s, e);
    var r := s.With(t, LocalStep(s.displays[t], l));
    match e
    case Key(code) =>
      if !Ignored(code) && code < RELEASE && SwitchKey(s.displays[s.visible].term, code)
      then r.(visible := code - F1) else r
    case Tick => r.(sched := (s.sched + 1) % TERMINALS)
    case _ => r
  }

  // ----- who sees what -----

  /** Output goes to the scheduled terminal, visible or not, and to no other. */
  lemma WriteReaches(s: Screens, text: Bytes, t: nat)
    requires s.Ok() && t < TERMINALS
    ensures Step(s, Write(text)).displays[t] == if t == s.sched then PutAll(s.displays[t], text) else s.displays[t]
    ensures Step(s, Write(text)).visible == s.visible && Step(s, Write(text)).sched == s.sched
  {
    PutAllOk(s.displays[s.sched], text);
  }

  /** A key that switches no terminal edits the visible one and no other. */
  lemma KeyReaches(s: Screens, code: byte, t: nat)
    requires s.Ok() && t < TERMINALS
    requires code < 90 || 128 < code < 218
    requires code < 90 ==> !(s.displays[s.visible].term.alt && 59 <= code <= 61)
    ensures var r := Step(s, Key(code));
            && r.visible == s.visible && r.sched == s.sched
            && r.displays[t] == (if t != s.visible then s.displays[t]
                                 else if code < 90 then KeyDown(s.displays[t], code)
                                 else KeyUp(s.displays[t], code))
  {
    hide KeyDown, KeyUp;
  }

  /** The other codes do nothing. */
  lemma KeyDropped(s: Screens, code: byte)
    requires s.Ok() && (90 <= code <= 128 || code >= 218)
    ensures Step(s, Key(code)) == s
  {
    assert s.With(s.visible, s.displays[s.visible]) == s;
  }

  /** With Alt down, F1, F2 and F3 show terminals 0, 1 and 2 and change no screen. */
  lemma SwitchShows(s: Screens, code: byte)
    requires s.Ok() && 59 <= code <= 61 && s.displays[s.visible].term.alt
    ensures Step(s, Key(code)) == s.(visible := if code == 59 then 0 else if code == 60 then 1 else 2)
  {
    assert s.With(s.visible, s.displays[s.visible]) == s;
  }

  /** A tick schedules the next terminal and changes no screen. */
  lemma TickShows(s: Screens)
    requires s.Ok()
    ensures Step(s, Tick) == s.(sched := if s.sched == 2 then 0 else s.sched + 1)
  {
    assert s.With(s.sched, s.displays[s.sched]) == s;
  }

  /** A read that begins clears the line flag of the scheduled terminal; one that ends, and an open or
      close, drop the pending line of the visible one. */
  lemma ReadReaches(s: Screens, t: nat)
    requires s.Ok() && t < TERMINALS
    ensures var d := s.displays[t];
            && (Enabled(s, BeginRead) ==>
                  Step(s, BeginRead).displays[t] == if t == s.sched then d.(term := d.term.(flag := false)) else d)
            && (Enabled(s, EndRead) ==>
                  Step(s, EndRead).displays[t] == if t == s.visible then d.(term := d.term.(index := 0)) else d)
            && Step(s, OpenTerm).displays[t] == if t == s.visible then d.(term := d.term.(index := 0)) else d
  {
  }

  // ----- whole runs -----

  ghost predicate CanRun(s: Screens, es: seq<Event>)
    requires s.Ok()
    decreases |es|
  {
    es == [] || (Enabled(s, es[0]) && CanRun(Step(s, es[0]), es[1..]))
  }

  /** Every run keeps all cursors on the screen, all line editors within their buffers, and no
      editor ahead of its cursor. */
  ghost function Run(s: Screens, es: seq<Event>): (r: Screens)
    requires s.Ok() && CanRun(s, es)
    ensures r.Ok()
    decreases |es|
  {
    if es == [] then s else Run(Step(s, es[0]), es[1..])
  }

  /** The steps of a run that display t gets to see. */
  ghost function Seen(s: Screens, es: seq<Event>, t: nat): seq<Local>
    requires s.Ok() && CanRun(s, es)
    decreases |es|
  {
    if es == [] then []
    else [if Addressed(s, es[0]).0 == t then Addressed(s, es[0]).1 else Nothing] + Seen(Step(s, es[0]), es[1..], t)
  }

  ghost predicate CanPlay(d: Display, ls: seq<Local>)
    requires d.Ok()
    decreases |ls|
  {
    ls == [] || (LocalOk(d, ls[0]) && CanPlay(LocalStep(d, ls[0]), ls[1..]))
  }

  ghost function Play(d: Display, ls: seq<Local>): (r: Display)
    requires d.Ok() && CanPlay(d, ls)
    decreases |ls|
  {
    if ls == [] then d else Play(LocalStep(d, ls[0]), ls[1..])
  }

  /** Three independent displays: in any interleaving of ticks, keys, switches, output and reads,
      each display goes through exactly the steps addressed to it, as if the others were not there. */
  lemma {:induction false} Independent(s: Screens, es: seq<Event>, t: nat)
    requires s.Ok() && CanRun(s, es) && t < TERMINALS
    ensures CanPlay(s.displays[t], Seen(s, es, t))
    ensures Run(s, es).displays[t] == Play(s.displays[t], Seen(s, es, t))
    decreases |es|
  {
    hide KeyDown, KeyUp, PutAll, Display.Ok;
    if es != [] {
      AddressedOk(s, es[0]);
      Independent(Step(s, es[0]), es[1..], t);
      assert Seen(s, es, t)[1..] == Seen(Step(s, es[0]), es[1..], t);
    }
  }

  // ----- the condition on reads -----

  /** Where `print_scancode` stores the character, when it stores one. */
  function StoreIndex(t: Term, code: nat): int {
    if (t.index >= BUF_LENGTH - 1 && code != ENTER) || t.flag then -1 else t.index
  }

  /** It is where `print_scancode` stores: nothing happens when there is no such place, otherwise the
      character goes there and the index is the next one. */
  lemma StoredThere(d: Display, code: nat)
    requires d.Ok()
    ensures StoreIndex(d.term, code) == -1 <==> PrintScancode(d, code).term.index == d.term.index
    ensures StoreIndex(d.term, code) == -1 ==> PrintScancode(d, code) == d
    ensures var at := StoreIndex(d.term, code);
            at != -1 ==> 0 <= at < BUF_LENGTH && PrintScancode(d, code).term.index == at + 1
                         && PrintScancode(d, code).term.kb == d.term.kb[at := Kbdus(code)]
  {
    hide Kbdus, Put;
  }

  /** After a read has started, the next key cannot be stored outside the line buffer exactly when
      fewer than 128 characters were pending; then the display is well-formed, so that no later key
      can either. */
  lemma ReadSafeIff(d: Display)
    requires d.Ok()
    ensures d.term.index < BUF_LENGTH <==> forall code: nat :: StoreIndex(d.term.(flag := false), code) < BUF_LENGTH
    ensures d.term.index < BUF_LENGTH ==> d.(term := d.term.(flag := false)).Ok()
  {
    if d.term.index >= BUF_LENGTH {
      assert StoreIndex(d.term.(flag := false), ENTER) == BUF_LENGTH;
    }
  }

  /** The failing family: a full line, finished before the program asks for it, then a read and
      another Enter, which is stored one past the end of the 128-byte buffer. */
  lemma LateReadOverruns(d: Display, keys: seq<nat>)
    requires CanType(d, keys) && d.term.index + |keys| == BUF_LENGTH - 1
    ensures var full := KeyDown(Type(d, keys), ENTER);
            full.Ok() && full.term.flag && StoreIndex(full.term.(flag := false), ENTER) == BUF_LENGTH
  {
  }
}
