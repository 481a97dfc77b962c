/** Kernel and console on one machine: the page the console calls mapped is the one the page walk of
    0xB8000 finds, in every run of calls, keys, ticks and terminal operations. */
module Machine {
  import opened Common
  import opened FileSystem
  import opened Options
  import opened Paging
  import opened Strings
  import P = Processes
  import S = Screens
  import K = Kernel
  import C = Console
  import D = Displays

  /** What happens, one atomic step at a time. */
  datatype Act =
    | Call(c: K.Call)              // a system call or an exception
    | Key(code: byte)              // a keyboard interrupt
    | Tick(esp: nat, ebp: int)     // a timer interrupt
    | Terminal(e: S.Event)         // output of a program, or the beginning or end of a read

  /** Processes and screens, as the abstract machines see them. */
  datatype State = State(w: P.World, s: S.Screens) {
    ghost predicate Ok() { w.Shape() && s.Ok() }
  }

  ghost predicate Enabled(img: Image, st: State, a: Act)
    requires WellFormed(img) && st.Ok()
  {
    match a
    case Call(c) => !c.Key? && !c.Tick? && P.Enabled(st.w, K.OpOf(img, c))
    case Key(_) => true
    case Tick(esp, ebp) => P.Enabled(st.w, P.Tick(esp, ebp, st.s.visible))
    case Terminal(e) => !e.Key? && !e.Tick? && S.Enabled(st.s, e)
  }

  ghost function Step(img: Image, st: State, a: Act): (r: State)
    requires WellFormed(img) && st.Ok() && Enabled(img, st, a)
    ensures r.Ok()
  {
    match a
    case Call(c) => st.(w := P.Step(st.w, K.OpOf(img, c)))
    case Key(code) => st.(s := S.Step(st.s, S.Event.Key(code)))
    case Tick(esp, ebp) => State(P.Step(st.w, P.Tick(esp, ebp, st.s.visible)), S.Step(st.s, S.Event.Tick))
    case Terminal(e) => st.(s := S.Step(st.s, e))
  }

  ghost predicate CanRun(img: Image, st: State, acts: seq<Act>)
    requires WellFormed(img) && st.Ok()
    decreases |acts|
  {
    acts == [] || (Enabled(img, st, acts[0]) && CanRun(img, Step(img, st, acts[0]), acts[1..]))
  }

  ghost function Run(img: Image, st: State, acts: seq<Act>): (r: State)
    requires WellFormed(img) && st.Ok() && CanRun(img, st, acts)
    ensures r.Ok()
    decreases |acts|
  {
    if acts == [] then st else Run(img, Step(img, st, acts[0]), acts[1..])
  }

  class Machine {
    const kernel: K.Kernel
    const console: C.Console

    /** Both parts are in order and agree on which terminal is scheduled; the kernel's page walk leads
        to the screen of the terminal that the console shows. */
    ghost predicate Valid()
      reads kernel, kernel.slots, kernel.sched, kernel.pages, kernel.pages.dir, kernel.pages.low, kernel.pages.user
      reads console.Locs()
    {
      && kernel.Locs() !! console.Locs() && kernel.pages !in console.Locs()
      && kernel.Valid() && console.Valid()
      && kernel.cur == console.curSched && kernel.Aimed(console.curTerminal)
    }

    ghost function View(): State
      requires kernel.Valid() && console.Valid()
      reads kernel, kernel.slots, kernel.sched, kernel.pages, kernel.pages.dir, kernel.pages.low, kernel.pages.user
      reads console.Locs()
    {
      State(kernel.w, console.View().Abs())
    }

    ghost function Locs(): set<object>
      reads kernel, kernel.pages
    {
      kernel.Locs() + console.Locs()
    }

    constructor (kernel: K.Kernel, console: C.Console)
      requires kernel.Locs() !! console.Locs() && kernel.pages !in console.Locs()
      requires kernel.Valid() && console.Valid()
      requires kernel.cur == console.curSched && kernel.Aimed(console.curTerminal)
      ensures Valid() && this.kernel == kernel && this.console == console
    {
      this.kernel, this.console := kernel, console;
    }

    /** The two notions of the page behind 0xB8000 are one. */
    lemma MappedIsWalk()
      requires Valid()
      ensures console.mapped <= 3
      ensures kernel.pages.View().Translate(VIDEO_MEM_ADDR, false) == Some(VideoPage(console.mapped))
    {
      hide K.KernelState.Represents, P.World.Inv, P.Placed, Tables.Translate, Tables.Layout, WellFormed, D.Display.Ok;
      assert console.View().Aimed();
    }

    /** A keyboard interrupt handles the key and moves the mapping in one handler; codes that are
        ignored touch neither. */
    method KeyInterrupt(code: byte)
      requires Valid()
      modifies Locs()
      ensures Valid() && View() == Step(kernel.img, old(View()), Key(code))
    {
      hide K.KernelState.Represents, P.World.Inv, P.Placed, Tables.Translate, Tables.Layout, WellFormed, D.Display.Ok;
      hide S.Step;
      console.KeyboardInterrupt(code);
      if S.Ignored(code) {
        KeyIgnored(old(console.View().Abs()), code);
      } else {
        kernel.KeyInterrupt(console.curTerminal);
      }
      KeyKeepsSchedule(old(console.View().Abs()), code);
    }

    method TimerInterrupt(esp: nat, ebp: int)
      requires Valid() && Enabled(kernel.img, View(), Tick(esp, ebp))
      modifies Locs()
      ensures Valid() && View() == Step(kernel.img, old(View()), Tick(esp, ebp))
    {
      hide K.KernelState.Represents, P.World.Inv, P.Placed, Tables.Translate, Tables.Layout, WellFormed, D.Display.Ok;
      hide P.Step, P.Outcome, P.InStack, S.Step;
      InvShape(kernel.w);
      P.StepSchedule(kernel.w, P.Tick(esp, ebp, console.curTerminal));
      TickSchedule(console.View().Abs());
      var e := kernel.Tick(esp, ebp, console.curTerminal);
      console.Tick();
    }

    /** A system call or an exception; the console is not part of it. */
    method SystemCall(c: K.Call)
      requires Valid() && Enabled(kernel.img, View(), Call(c))
      modifies Locs()
      ensures Valid() && View() == Step(kernel.img, old(View()), Call(c))
    {
      hide K.KernelState.Represents, P.World.Inv, P.Placed, Tables.Translate, Tables.Layout, WellFormed, D.Display.Ok;
      hide P.Step, P.Outcome, P.Enabled, K.OpOf;
      K.OpOfTick(kernel.img, c);
      InvShape(kernel.w);
      P.StepSchedule(kernel.w, K.OpOf(kernel.img, c));
      kernel.NextCall(c, console.curTerminal);
    }

    method TerminalStep(e: S.Event)
      requires Valid() && Enabled(kernel.img, View(), Terminal(e))
      modifies Locs()
      ensures Valid() && View() == Step(kernel.img, old(View()), Terminal(e))
    {
      hide K.KernelState.Represents, P.World.Inv, P.Placed, Tables.Translate, Tables.Layout, WellFormed, D.Display.Ok;
      hide S.Step, S.Enabled;
      TerminalKeeps(console.View().Abs(), e);
      console.TerminalStep(e);
    }

    /** In every run the two parts go through the steps of the two abstract machines, and stay joined. */
    method Perform(acts: seq<Act>)
      requires Valid() && CanRun(kernel.img, View(), acts)
      modifies Locs()
      ensures Valid() && View() == Run(kernel.img, old(View()), acts)
    {
      hide Step, Enabled;
      for i := 0 to |acts|
        invariant Valid() && CanRun(kernel.img, View(), acts[i..])
        invariant Run(kernel.img, View(), acts[i..]) == Run(kernel.img, old(View()), acts)
      {
        assert acts[i..][1..] == acts[i + 1..];
        match acts[i]
        case Call(c) => SystemCall(c);
        case Key(code) => KeyInterrupt(code);
        case Tick(esp, ebp) => TimerInterrupt(esp, ebp);
        case Terminal(e) => TerminalStep(e);
      }
    }
  }

  lemma InvShape(w: P.World)
    requires w.Inv()
    ensures w.Shape()
  {
  }

  lemma KeyIgnored(s: S.Screens, code: byte)
    requires s.Ok() && S.Ignored(code)
    ensures S.Step(s, S.Event.Key(code)) == s
  {
    C.IgnoredStep(s, code);
  }

  lemma TickSchedule(s: S.Screens)
    requires s.Ok()
    ensures var r := S.Step(s, S.Event.Tick);
            r.sched == (s.sched + 1) % TERMINALS && r.visible == s.visible
  {
  }

  lemma TerminalKeeps(s: S.Screens, e: S.Event)
    requires s.Ok() && S.Enabled(s, e) && !e.Key? && !e.Tick?
    ensures S.Step(s, e).sched == s.sched && S.Step(s, e).visible == s.visible
  {
  }

  lemma KeyKeepsSchedule(s: S.Screens, code: byte)
    requires s.Ok()
    ensures S.Step(s, S.Event.Key(code)).sched == s.sched
    ensures S.Ignored(code) ==> S.Step(s, S.Event.Key(code)).visible == s.visible
  {
    if S.Ignored(code) { KeyIgnored(s, code); }
  }
}
