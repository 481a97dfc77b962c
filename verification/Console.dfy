/** The console as the kernel keeps it: one video page and three buffer pages, one of which is
    mapped at 0xB8000, the terminal structs, and the three terminal numbers. */
module Console {
  import opened Common
  import opened Strings
  import opened Displays
  import opened Screens

  /** All of it at one moment. Page 0 is the video page, page t+1 the buffer of terminal t. */
  datatype Snapshot = Snapshot(pages: seq<Page>, terms: seq<Term>,
                               mapped: nat, visible: nat, printing: nat, sched: nat) {

    ghost predicate Shape() {
      && |pages| == TERMINALS + 1 && |terms| == TERMINALS
      && |pages[0]| == |pages[1]| == |pages[2]| == |pages[3]| == PAGE_CELLS
      && mapped <= TERMINALS && visible < TERMINALS && printing < TERMINALS && sched < TERMINALS
    }

    /** The page and terminal that `putc` works on. */
    ghost function Shown(): Display
      requires Shape()
    {
      Display(pages[mapped], terms[printing])
    }

    ghost function Show(d: Display): Snapshot
      requires Shape()
    {
      this.(pages := pages[mapped := d.page], terms := terms[printing := d.term])
    }

    /** Terminal t's logical screen is the video page if t is visible, its buffer page otherwise. */
    ghost function Logical(t: nat): Display
      requires Shape() && t < TERMINALS
    {
      Display(if t == visible then pages[0] else pages[t + 1], terms[t])
    }

    ghost function Abs(): Screens
      requires Shape()
    {
      Screens([Logical(0), Logical(1), Logical(2)], visible, sched)
    }

    /** Output goes to terminal `printing`, wherever its logical screen is. */
    ghost predicate Aimed() { mapped == (if printing == visible then 0 else printing + 1) }

    /** Outside the handlers: output goes to the scheduled terminal. */
    ghost predicate Valid() { Shape() && Abs().Ok() && printing == sched && Aimed() }

    /** Inside the keyboard handler: output goes to the visible terminal on the video page. */
    ghost predicate InHandler() { Shape() && printing == visible && mapped == 0 }

    ghost function Switched(next: nat): Snapshot
      requires Shape() && next < TERMINALS
    {
      var saved := pages[visible + 1 := pages[0]];
      this.(pages := saved[0 := saved[next + 1]], visible := next)
    }
  }

  lemma ShowTwice(c: Snapshot, d: Display, e: Display)
    requires c.Shape() && |d.page| == |e.page| == PAGE_CELLS
    ensures c.Show(d).Shape() && c.Show(d).Shown() == d && c.Show(d).Show(e) == c.Show(e)
  {
  }

  /** Output aimed at a terminal changes that terminal's display only. */
  lemma ShowAddresses(c: Snapshot, d: Display)
    requires c.Shape() && c.Aimed() && |d.page| == PAGE_CELLS
    ensures c.Shown() == c.Abs().displays[c.printing]
    ensures c.Show(d).Shape() && c.Show(d).Aimed() && c.Show(d).Abs() == c.Abs().With(c.printing, d)
  {
  }

  /** A change of one terminal struct changes that terminal's display only. */
  lemma TermAddresses(c: Snapshot, t: nat, term: Term)
    requires c.Shape() && t < TERMINALS
    ensures var r := c.(terms := c.terms[t := term]);
            r.Shape() && r.Abs() == c.Abs().With(t, c.Abs().displays[t].(term := term))
            && c.Abs().displays[t].term == c.terms[t]
  {
  }

  /** `change_shell` changes no logical screen. */
  lemma SwitchedKeeps(c: Snapshot, next: nat)
    requires c.Shape() && next < TERMINALS
    ensures c.Switched(next).Shape() && c.Switched(next).Abs() == c.Abs().(visible := next)
  {
  }

  class Console {
    const video: array<Cell>       // physical text page
    const buffer0: array<Cell>
    const buffer1: array<Cell>
    const buffer2: array<Cell>
    const terminals: array<Term>
    var mapped: nat                // index of the page behind 0xB8000
    var curTerminal: nat           // on display
    var printTerminal: nat         // putc prints here
    var curSched: nat              // scheduled

    ghost predicate Parts()
      reads this
    {
      && terminals.Length == TERMINALS
      && video.Length == buffer0.Length == buffer1.Length == buffer2.Length == PAGE_CELLS
      && video != buffer0 && video != buffer1 && video != buffer2
      && buffer0 != buffer1 && buffer0 != buffer2 && buffer1 != buffer2
      && mapped <= TERMINALS && curTerminal < TERMINALS && printTerminal < TERMINALS && curSched < TERMINALS
    }

    /** The physical page behind 0xB8000 when page i is mapped there. */
    function PageAt(i: nat): array<Cell> {
      if i == 0 then video else if i == 1 then buffer0 else if i == 2 then buffer1 else buffer2
    }

    ghost function Locs(): set<object>
    {
      {this, terminals, video, buffer0, buffer1, buffer2}
    }

    ghost function View(): Snapshot
      reads Locs()
    {
      Snapshot([video[..], buffer0[..], buffer1[..], buffer2[..]], terminals[..],
               mapped, curTerminal, printTerminal, curSched)
    }

    ghost predicate Valid()
      reads Locs()
    {
      Parts() && View().Valid()
    }

    /** The video page has been cleared; the buffer pages hold whatever was in memory. */
    constructor ()
      ensures Valid() && fresh(Locs())
      ensures View().terms == [Fresh(), Fresh(), Fresh()] && View().visible == 0 && View().sched == 0
    {
      video := new Cell[PAGE_CELLS](_ => BLANK);
      buffer0 := new Cell[PAGE_CELLS];
      buffer1 := new Cell[PAGE_CELLS];
      buffer2 := new Cell[PAGE_CELLS];
      terminals := new Term[TERMINALS](_ => Fresh());
      mapped, curTerminal, printTerminal, curSched := 0, 0, 0, 0;
      new;
      assert terminals[..] == [Fresh(), Fresh(), Fresh()];
    }

    // ----- output -----

    method ScrollUp()
      requires Parts()
      modifies PageAt(mapped)
      ensures PageAt(mapped)[..] == Scroll(old(PageAt(mapped)[..]))
    {
      var page := PageAt(mapped);
      for i := 0 to CELLS - COLS
        invariant forall j :: 0 <= j < i ==> page[j] == Cell(old(page[j + COLS].ch), ATTRIB)
        invariant forall j :: i <= j < PAGE_CELLS ==> page[j] == old(page[j])
      {
        page[i] := Cell(page[i + COLS].ch, ATTRIB);
      }
      for i := CELLS - COLS to CELLS
        invariant forall j :: 0 <= j < CELLS - COLS ==> page[j] == Cell(old(page[j + COLS].ch), ATTRIB)
        invariant forall j :: CELLS - COLS <= j < i ==> page[j] == BLANK
        invariant forall j :: CELLS <= j < PAGE_CELLS ==> page[j] == old(page[j])
      {
        page[i] := BLANK;
      }
    }

    method Clear()
      requires Parts()
      modifies PageAt(mapped)
      ensures PageAt(mapped)[..] == Cleared(old(PageAt(mapped)[..]))
    {
      var page := PageAt(mapped);
      for i := 0 to CELLS
        invariant forall j :: 0 <= j < i ==> page[j] == BLANK
        invariant forall j :: i <= j < PAGE_CELLS ==> page[j] == old(page[j])
      {
        page[i] := BLANK;
      }
    }

    method DoNewLine()
      requires Parts() && View().Shown().LineOk()
      modifies PageAt(mapped), terminals
      ensures View() == old(View()).Show(NewLine(old(View()).Shown()))
    {
      hide Scroll;
      var t := terminals[printTerminal];
      assert View().Shown() == Display(PageAt(mapped)[..], t);
      if t.y == ROWS - 1 {
        ScrollUp();
        terminals[printTerminal] := t.(x := 0);
      } else {
        terminals[printTerminal] := t.(y := t.y + 1, x := 0);
      }
      Settled(old(View()));
    }

    method Putc(c: byte)
      requires Parts() && View().Shown().CursorOk()
      modifies PageAt(mapped), terminals
      ensures View() == old(View()).Show(Put(old(View()).Shown(), c))
    {
      hide Scroll, NewLine, Snapshot.Show;
      ghost var start := View();
      if c == NEWLINE || c == CARRIAGE {
        DoNewLine();
      } else {
        StoreChar(c);
        ghost var d := start.Shown();
        ghost var e := Display(d.page[d.Linear() := Cell(c, ATTRIB)], d.term.(x := d.term.x + 1));
        ShowTwice(start, e, NewLine(e));
        ShowTwice(start, NewLine(e), e);
        assert View().Shown() == e && e.term == terminals[printTerminal];
        if terminals[printTerminal].x == COLS {
          DoNewLine();
        }
        AdjustRow();
      }
    }

    /** The last statement of `putc`; with the cursor on the screen it changes nothing. */
    method AdjustRow()
      requires Parts() && View().Shown().CursorOk()
      modifies terminals
      ensures View() == old(View())
    {
      var u := terminals[printTerminal];
      assert u == View().Shown().term && u.x / COLS == 0;
      terminals[printTerminal] := u.(y := (u.y + u.x / COLS) % ROWS);
      assert terminals[..] == old(View()).terms;
    }

    /** The character and its attribute go to the cell under the cursor, which moves right. */
    method StoreChar(c: byte)
      requires Parts() && View().Shown().CursorOk()
      modifies PageAt(mapped), terminals
      ensures View() == old(View()).Show(
                Display(old(View()).Shown().page[old(View()).Shown().Linear() := Cell(c, ATTRIB)],
                        old(View()).Shown().term.(x := old(View()).Shown().term.x + 1)))
    {
      var t := terminals[printTerminal];
      PageAt(mapped)[COLS * t.y + t.x] := Cell(c, ATTRIB);
      terminals[printTerminal] := t.(x := t.x + 1);
      Settled(old(View()));
    }

    /** Writes a string, one `putc` after the other. */
    method Puts(text: Bytes)
      requires Parts() && View().Shown().CursorOk()
      modifies PageAt(mapped), terminals
      ensures View() == old(View()).Show(PutAll(old(View()).Shown(), text))
    {
      hide Put;
      for i := 0 to |text|
        invariant Parts() && View().Shown().CursorOk()
        invariant View() == old(View()).Show(View().Shown())
        invariant PutAll(View().Shown(), text[i..]) == PutAll(old(View()).Shown(), text)
      {
        assert text[i..][1..] == text[i + 1..];
        Putc(text[i]);
      }
    }

    // ----- keys, with the handler's mapping in place -----

    method DoBackSpace()
      requires Parts() && View().InHandler() && View().Shown().CursorOk() && View().Shown().Linear() > 0
      modifies PageAt(mapped), terminals
      ensures View() == old(View()).Show(BackSpace(old(View()).Shown()))
    {
      var t := terminals[curTerminal];
      t := t.(x := t.x - 1);
      if t.x < 0 {
        t := t.(x := COLS - 1, y := t.y - 1);
      }
      terminals[curTerminal] := t;
      var at := COLS * t.y + t.x;
      PageAt(mapped)[at] := PageAt(mapped)[at].(ch := SPACE);
      Settled(old(View()));
    }

    /** An update of the visible terminal's struct. */
    method SetTerm(t: Term)
      requires Parts() && View().InHandler()
      modifies terminals
      ensures View() == old(View()).Show(old(View()).Shown().(term := t))
    {
      terminals[curTerminal] := t;
      Settled(old(View()));
    }

    method DoPrintScancode(code: nat)
      requires Parts() && View().InHandler() && View().Shown().Ok()
      modifies PageAt(mapped), terminals
      ensures View() == old(View()).Show(PrintScancode(old(View()).Shown(), code))
    {
      hide Kbdus, Put;
      var t := terminals[curTerminal];
      if (t.index >= BUF_LENGTH - 1 && code != ENTER) || t.flag {
        return;
      }
      Putc(Kbdus(code));
      t := terminals[curTerminal];
      SetTerm(t.(kb := t.kb[t.index := Kbdus(code)], index := t.index + 1));
    }

    method DoRedraw()
      requires Parts() && View().InHandler() && View().Shown().Ok()
      modifies PageAt(mapped), terminals
      ensures View() == old(View()).Show(Redraw(old(View()).Shown()))
    {
      hide PutAll, Cleared;
      Clear();
      Settled(old(View()));
      SetTerm(terminals[curTerminal].(y := 0, x := 0));
      var t := terminals[curTerminal];
      Puts(t.kb[..t.index]);
    }

    method CopyPage(dst: array<Cell>, src: array<Cell>)
      requires dst.Length == src.Length && dst != src
      modifies dst
      ensures dst[..] == src[..]
    {
      for i := 0 to src.Length
        invariant dst[..i] == src[..i]
      {
        dst[i] := src[i];
      }
    }

    /** `change_shell`. */
    method ChangeShell(next: nat)
      requires Parts() && View().InHandler() && next < TERMINALS
      modifies this`curTerminal, video, buffer0, buffer1, buffer2
      ensures View() == old(View()).Switched(next)
    {
      CopyPage(PageAt(curTerminal + 1), video);
      curTerminal := next;
      CopyPage(video, PageAt(next + 1));
    }

    /** `recent_release_exec` for keys other than a terminal switch. */
    method DoKeyDown(sc: nat)
      requires Parts() && View().InHandler() && View().Shown().Ok() && !SwitchKey(View().Shown().term, sc)
      modifies PageAt(mapped), terminals
      ensures View() == old(View()).Show(KeyDown(old(View()).Shown(), sc))
    {
      hide PrintScancode, Redraw, BackSpace, CharCode;
      var t := terminals[curTerminal];
      assert t == View().Shown().term;
      if sc == CTRL {
        SetTerm(t.(ctrl := true));
      } else if sc == L_KEY && t.ctrl {
        DoRedraw();
      } else if sc == BACK_SPACE {
        if t.index <= 0 {
          return;
        }
        SetTerm(t.(index := t.index - 1));
        DoBackSpace();
      } else if sc == ALT {
        SetTerm(t.(alt := true));
      } else if sc == ENTER {
        DoPrintScancode(sc);
        SetTerm(terminals[curTerminal].(flag := true));
      } else if sc == LEFT_SHIFT || sc == RIGHT_SHIFT {
        SetTerm(t.(shift := true));
      } else if sc == CAPS_LOCK {
        SetTerm(t.(caps := !t.caps));
      } else {
        DoCharacter(sc);
      }
    }

    /** The last four branches of `recent_release_exec`: which entry of the key table is echoed. */
    method DoCharacter(sc: nat)
      requires Parts() && View().InHandler() && View().Shown().Ok()
      modifies PageAt(mapped), terminals
      ensures View() == old(View()).Show(PrintScancode(old(View()).Shown(), CharCode(old(View()).Shown().term, sc)))
    {
      hide PrintScancode;
      var t := terminals[curTerminal];
      assert t == View().Shown().term;
      if t.caps && t.shift && InCharRange(sc) {
        DoPrintScancode(sc);
      } else if t.caps && !t.shift && InCharRange(sc) {
        DoPrintScancode(sc + CAP_OFFSET);
      } else if t.shift {
        DoPrintScancode(sc + CAP_OFFSET);
      } else {
        DoPrintScancode(sc);
      }
    }

    /** `after_release_exec`. */
    method DoKeyUp(sc: nat)
      requires Parts() && View().InHandler() && View().Shown().Ok()
      modifies terminals
      ensures View() == old(View()).Show(KeyUp(old(View()).Shown(), sc))
    {
      var t := terminals[curTerminal];
      assert t == View().Shown().term;
      if sc == LEFT_SHIFT + RELEASE || sc == RIGHT_SHIFT + RELEASE {
        SetTerm(t.(shift := false));
      } else if sc == CTRL + RELEASE {
        SetTerm(t.(ctrl := false));
      } else if sc == ALT + RELEASE {
        SetTerm(t.(alt := false));
      }
    }

    // ----- the handlers, as steps of the abstract console -----

    /** Keyboard interrupt. */
    method KeyboardInterrupt(code: byte)
      requires Valid()
      modifies Locs()
      ensures Valid() && View().Abs() == Step(old(View()).Abs(), Key(code))
    {
      hide Step, Display.Ok;
      if (CAP_OFFSET <= code && code <= RELEASE) || code >= CAP_OFFSET + RELEASE {
        IgnoredStep(View().Abs(), code);
        return;
      }
      printTerminal := curTerminal;
      mapped := 0;
      assert View().Abs() == old(View()).Abs();
      HandleKey(code);
      ghost var c := View();
      if curSched != curTerminal {
        mapped := curSched + 1;
      }
      printTerminal := curSched;
      assert View().Abs() == c.Abs();
    }

    /** The body of the handler, with output aimed at the visible terminal. */
    method HandleKey(code: byte)
      requires Parts() && View().InHandler() && View().Abs().Ok() && !Ignored(code)
      modifies this`curTerminal, terminals, video, buffer0, buffer1, buffer2
      ensures Parts() && mapped == 0 && View().Abs() == Step(old(View()).Abs(), Key(code))
    {
      hide KeyDown, KeyUp, Display.Ok;
      ghost var c := View();
      assert c.Shown() == c.Abs().displays[c.visible] && c.Shown().Ok();
      var t := terminals[curTerminal];
      if code < RELEASE {
        if code != CTRL && t.alt && (code == F1 || code == F2 || code == F3) {
          SwitchedKeeps(c, code - F1);
          ChangeShell(code - F1);
        } else {
          OkCursor(KeyDown(c.Shown(), code));
          ShowAddresses(c, KeyDown(c.Shown(), code));
          DoKeyDown(code);
        }
      } else {
        OkCursor(KeyUp(c.Shown(), code));
        ShowAddresses(c, KeyUp(c.Shown(), code));
        DoKeyUp(code);
      }
    }

    /** PIT tick, as far as it concerns the console. */
    method Tick()
      requires Valid()
      modifies this
      ensures Valid() && View().Abs() == Step(old(View()).Abs(), Event.Tick)
    {
      hide Display.Ok;
      curSched := (curSched + 1) % TERMINALS;
      if curSched == curTerminal {
        mapped := 0;
      } else {
        mapped := curSched + 1;
      }
      printTerminal := curSched;
    }

    /** `terminal_write`. */
    method TerminalWrite(text: Bytes)
      requires Valid()
      modifies Locs()
      ensures Valid() && View().Abs() == Step(old(View()).Abs(), Write(text))
      ensures forall t: nat :: t < TERMINALS ==>
                View().Logical(t)
                == if t == curSched then PutAll(old(View().Logical(t)), text) else old(View().Logical(t))
    {
      hide PutAll, Display.Ok;
      ghost var d := View().Shown();
      assert d == View().Abs().displays[curSched] && d.Ok();
      PutAllOk(d, text);
      assert d.CursorOk() by { OkCursor(d); }
      ShowAddresses(View(), PutAll(d, text));
      Puts(text);
    }

    /** The start of `terminal_read`: the line flag of the reading terminal is cleared. */
    method ReadBegin()
      requires Valid() && Enabled(View().Abs(), BeginRead)
      modifies terminals
      ensures Valid() && View().Abs() == Step(old(View()).Abs(), BeginRead)
    {
      hide Display.LineOk;
      TermAddresses(View(), curSched, terminals[curSched].(flag := false));
      terminals[curSched] := terminals[curSched].(flag := false);
      assert View() == old(View()).(terms := old(View()).terms[curSched := terminals[curSched]]);
      assert View().Abs() == Step(old(View()).Abs(), BeginRead);
    }

    /** The end of `terminal_read`, once the flag is set, and `terminal_open` and `terminal_close`:
        the pending line of the visible terminal is dropped. */
    method Forget(e: Event)
      requires Valid() && (e == EndRead || e == OpenTerm) && Enabled(View().Abs(), e)
      modifies terminals
      ensures Valid() && View().Abs() == Step(old(View()).Abs(), e)
    {
      hide Display.LineOk;
      TermAddresses(View(), curTerminal, terminals[curTerminal].(index := 0));
      terminals[curTerminal] := terminals[curTerminal].(index := 0);
      assert View() == old(View()).(terms := old(View()).terms[curTerminal := terminals[curTerminal]]);
      assert View().Abs() == Step(old(View()).Abs(), e);
    }

    /** What a program does with its terminal. */
    method TerminalStep(e: Event)
      requires Valid() && !e.Key? && !e.Tick? && Enabled(View().Abs(), e)
      modifies Locs()
      ensures Valid() && View().Abs() == Step(old(View()).Abs(), e)
    {
      hide Display.Ok, Addressed, LocalStep;
      match e
      case Write(text) => TerminalWrite(text);
      case BeginRead => ReadBegin();
      case EndRead => Forget(EndRead);
      case OpenTerm => Forget(OpenTerm);
    }

    /** Any interleaving of events runs the three displays. */
    method RunEvents(es: seq<Event>)
      requires Valid() && CanRun(View().Abs(), es)
      modifies Locs()
      ensures Valid() && View().Abs() == Run(old(View()).Abs(), es)
    {
      hide Display.Ok, Addressed, LocalStep;
      for i := 0 to |es|
        invariant Valid() && CanRun(View().Abs(), es[i..])
        invariant Run(View().Abs(), es[i..]) == Run(old(View()).Abs(), es)
      {
        assert es[i..][1..] == es[i + 1..];
        match es[i]
        case Key(code) => KeyboardInterrupt(code);
        case Tick => Tick();
        case _ => TerminalStep(es[i]);
      }
    }

    /** Only the mapped page and the printing terminal have changed. */
    twostate lemma Settled(c: Snapshot)
      requires old(Parts()) && Parts() && c == old(View())
      requires mapped == old(mapped) && printTerminal == old(printTerminal)
      requires curTerminal == old(curTerminal) && curSched == old(curSched)
      requires forall i :: 0 <= i <= TERMINALS && i != mapped ==> PageAt(i)[..] == old(PageAt(i)[..])
      requires terminals[..] == old(terminals[..])[printTerminal := terminals[printTerminal]]
      ensures View() == c.Show(Display(PageAt(mapped)[..], terminals[printTerminal]))
    {
      assert PageAt(0) == video && PageAt(1) == buffer0 && PageAt(2) == buffer1 && PageAt(3) == buffer2;
    }
  }

  lemma IgnoredStep(s: Screens, code: byte)
    requires s.Ok() && Ignored(code)
    ensures Step(s, Key(code)) == s
  {
    assert s.With(s.visible, s.displays[s.visible]) == s;
  }

  lemma OkCursor(d: Display)
    requires d.Ok()
    ensures d.CursorOk() && |d.page| == PAGE_CELLS
  {
  }

  /** `init_shell`. */
  function Fresh(): Term { Term(0, 0, Zeros(BUF_LENGTH), false, 0, false, false, false, false) }
}
