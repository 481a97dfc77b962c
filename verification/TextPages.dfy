/** The user text page over whole runs: when a terminal's `vid_map` flag is set, where the page leads,
    and how a process that holds video memory can lose both to a child. */
module TextPages {
  import opened Commands
  import opened Common
  import opened Options
  import opened Processes
  import opened Strings

  /** The flag a step gives terminal t, if it writes it: a `vidmap` call sets it, the exit of a process
      that holds video memory clears it. */
  function FlagEvent(w: World, op: Op, t: nat): Option<bool>
    requires w.Shape() && Enabled(w, op)
  {
    if w.cur != t then None
    else match op
      case Vidmap(_, a) => if UserAddress(a) then Some(true) else None
      case Halt(_, _) => if |w.stacks[t]| > 1 && w.Running() in w.video.holders then Some(false) else None
      case Fault(_) => if w.Running() in w.video.holders then Some(false) else None
      case _ => None
  }

  ghost function LastFlagEvent(w: World, ops: seq<Op>, t: nat): Option<bool>
    requires w.Shape() && CanRun(w, ops)
    decreases ops
  {
    if ops == [] then None
    else match LastFlagEvent(Step(w, ops[0]), ops[1..], t)
      case Some(b) => Some(b)
      case None => FlagEvent(w, ops[0], t)
  }

  lemma {:induction false} FlagIs(w: World, ops: seq<Op>, t: nat)
    requires w.Shape() && CanRun(w, ops) && t < SHELLS
    ensures Run(w, ops).video.maps[t]
            == match LastFlagEvent(w, ops, t) case Some(b) => b case None => w.video.maps[t]
    decreases ops
  {
    if ops != [] { FlagIs(Step(w, ops[0]), ops[1..], t); }
  }

  /** In every run from launch the flag of a terminal is set if and only if the last of its `vidmap`
      calls and exits of processes that held video memory was a `vidmap` call. */
  lemma FlagSetIff(args: Args, inode: nat, ops: seq<Op>, t: nat)
    requires CanRun(Launched(args, inode), ops) && t < SHELLS
    ensures Run(Launched(args, inode), ops).video.maps[t]
            <==> LastFlagEvent(Launched(args, inode), ops, t) == Some(true)
  {
    hide World.Inv;
    FlagIs(Launched(args, inode), ops, t);
  }

  /** The text page a step points the user text page at, if it does. */
  function PageEvent(w: World, op: Op): Option<nat>
    requires w.Shape() && Enabled(w, op)
  {
    match op
    case Vidmap(_, a) => if UserAddress(a) then Some(0) else None
    case Tick(_, _, visible) =>
      var n := (w.cur + 1) % SHELLS;
      if w.video.maps[n] then Some(if n == visible then 0 else n + 1) else None
    case _ => None
  }

  ghost function LastPageEvent(w: World, ops: seq<Op>): Option<nat>
    requires w.Shape() && CanRun(w, ops)
    decreases ops
  {
    if ops == [] then None
    else match LastPageEvent(Step(w, ops[0]), ops[1..])
      case Some(k) => Some(k)
      case None => PageEvent(w, ops[0])
  }

  /** The user text page leads where the last `vidmap` call, or the last tick to a terminal with its flag
      set, pointed it; before the first of them it is not mapped. */
  lemma {:induction false} PageIs(w: World, ops: seq<Op>)
    requires w.Shape() && CanRun(w, ops)
    ensures Run(w, ops).video.page
            == match LastPageEvent(w, ops) case Some(k) => Some(k) case None => w.video.page
    decreases ops
  {
    if ops != [] { PageIs(Step(w, ops[0]), ops[1..]); }
  }

  /** Some process on the terminal's stack holds video memory. */
  ghost predicate Holding(w: World, t: nat) {
    exists i: nat :: Has(w.stacks, t, i) && w.stacks[t][i].pid in w.video.holders
  }

  /** A flag is set only while a process of its terminal holds video memory. */
  ghost predicate FlagsHeld(w: World)
    requires w.Shape()
  {
    forall t: nat :: t < SHELLS && w.video.maps[t] ==> Holding(w, t)
  }

  lemma StepHeld(w: World, op: Op)
    requires w.Inv() && Enabled(w, op) && FlagsHeld(w)
    ensures FlagsHeld(Step(w, op))
  {
    var v := Step(w, op);
    forall t: nat | t < SHELLS && v.video.maps[t]
      ensures Holding(v, t)
    {
      if op.Vidmap? && UserAddress(op.screenStart) && t == w.cur {
        assert Has(v.stacks, t, |v.stacks[t]| - 1);
      } else {
        var i: nat :| Has(w.stacks, t, i) && w.stacks[t][i].pid in w.video.holders;
        assert Has(w.stacks, w.cur, |w.stacks[w.cur]| - 1);
        assert Has(v.stacks, t, i) && v.stacks[t][i] == w.stacks[t][i];
      }
    }
  }

  lemma {:induction false} RunHeld(w: World, ops: seq<Op>)
    requires w.Inv() && CanRun(w, ops) && FlagsHeld(w)
    ensures FlagsHeld(Run(w, ops))
    decreases ops
  {
    hide FlagsHeld;
    if ops != [] {
      StepInv(w, ops[0]);
      StepHeld(w, ops[0]);
      RunHeld(Step(w, ops[0]), ops[1..]);
    }
  }

  // ----- the other direction fails -----

  /** A process calls `vidmap` and starts a child, which calls `vidmap` and halts. */
  function Nested(a: nat, p: nat, args: Args, ebp: int, esp: nat, childEsp: nat, status: byte): seq<Op> {
    [Vidmap(esp, a), Execute(Some(p), args, ebp), Vidmap(childEsp, a), Halt(childEsp, status)]
  }

  /** The failing family: wherever a process can start a child, that run leaves it with its video memory
      held and its terminal's flag cleared. */
  lemma NestedLosesFlag(w: World, a: nat, p: nat, args: Args, ebp: int, esp: nat, childEsp: nat, status: byte)
    requires w.Inv() && w.Total() < MAX_PROGS && UserAddress(a) && InStack(w.Running(), esp)
    requires LowestFree(w.Live(), 1).Some? && InStack(LowestFree(w.Live(), 1).value, childEsp)
    ensures var ops := Nested(a, p, args, ebp, esp, childEsp, status);
            && CanRun(w, ops)
            && var v := Run(w, ops);
               v.stacks == w.stacks && v.cur == w.cur && v.Running() in v.video.holders && !v.video.maps[v.cur]
  {
    hide Run, CanRun, Step, Enabled, InStack, LowestFree;
    CountLeavesSlot(w);
    RunningLive(w);
    var f := Frame(LowestFree(w.Live(), 1).value, ebp, args, p);
    hide World.Inv;
    var w1 := w.Mapped();
    var w2 := w1.Push(f);
    var w3 := w2.Mapped();
    var v := w3.Pop();
    NestedSteps(w, f, a, p, args, ebp, esp, childEsp, status);
    NestedEnd(w, f);
    RunOne(v);
    RunCons(w3, Halt(childEsp, status), []);
    RunCons(w2, Vidmap(childEsp, a), [Halt(childEsp, status)]);
    RunCons(w1, Execute(Some(p), args, ebp), [Vidmap(childEsp, a), Halt(childEsp, status)]);
    RunCons(w, Vidmap(esp, a), [Execute(Some(p), args, ebp), Vidmap(childEsp, a), Halt(childEsp, status)]);
    assert Nested(a, p, args, ebp, esp, childEsp, status)
        == [Vidmap(esp, a)] + [Execute(Some(p), args, ebp), Vidmap(childEsp, a), Halt(childEsp, status)];
    assert [Execute(Some(p), args, ebp)] + [Vidmap(childEsp, a), Halt(childEsp, status)]
        == [Execute(Some(p), args, ebp), Vidmap(childEsp, a), Halt(childEsp, status)];
    assert [Vidmap(childEsp, a)] + [Halt(childEsp, status)] == [Vidmap(childEsp, a), Halt(childEsp, status)];
    assert [Halt(childEsp, status)] + [] == [Halt(childEsp, status)];
  }

  lemma NestedSteps(w: World, f: Frame, a: nat, p: nat, args: Args, ebp: int, esp: nat, childEsp: nat, status: byte)
    requires w.Shape() && w.Total() < MAX_PROGS && UserAddress(a) && InStack(w.Running(), esp)
    requires LowestFree(w.Live(), 1) == Some(f.pid) && InStack(f.pid, childEsp)
    requires f == Frame(f.pid, ebp, args, p)
    ensures var w1 := w.Mapped();
            var w2 := w1.Push(f);
            var w3 := w2.Mapped();
            && Enabled(w, Vidmap(esp, a)) && Step(w, Vidmap(esp, a)) == w1
            && w1.Shape() && Enabled(w1, Execute(Some(p), args, ebp)) && Step(w1, Execute(Some(p), args, ebp)) == w2
            && w2.Shape() && Enabled(w2, Vidmap(childEsp, a)) && Step(w2, Vidmap(childEsp, a)) == w3
            && w3.Shape() && Enabled(w3, Halt(childEsp, status)) && Step(w3, Halt(childEsp, status)) == w3.Pop()
            && w3.Pop().Shape()
  {
    hide InStack, LowestFree;
  }

  lemma NestedEnd(w: World, f: Frame)
    requires w.Shape() && w.Running() != f.pid
    ensures var v := w.Mapped().Push(f).Mapped().Pop();
            && v.stacks == w.stacks && v.cur == w.cur
            && w.Running() in v.video.holders && !v.video.maps[v.cur]
  {
    assert w.Mapped().Push(f).Mapped().Pop().stacks[w.cur] == w.stacks[w.cur];
  }

  lemma RunOne(w: World)
    requires w.Shape()
    ensures CanRun(w, []) && Run(w, []) == w
  {
  }

  lemma RunCons(w: World, op: Op, ops: seq<Op>)
    requires w.Shape() && Enabled(w, op)
    ensures CanRun(Step(w, op), ops) ==> CanRun(w, [op] + ops) && Run(w, [op] + ops) == Run(Step(w, op), ops)
  {
    hide Step, Enabled;
    assert ([op] + ops)[1..] == ops;
  }

  lemma RunningLive(w: World)
    requires w.Inv()
    ensures w.Running() in w.Live()
  {
    assert Has(w.stacks, w.cur, |w.stacks[w.cur]| - 1);
  }

  /** From then on its page stays where another terminal's tick left it: after one round of ticks the
      process runs again, with its user text page on the screen of the next terminal. */
  lemma PageLeftBehind(w: World, a: Op, b: Op, c: Op)
    requires w.Shape() && a.Tick? && b.Tick? && c.Tick? && CanRun(w, [a, b, c])
    requires !w.video.maps[w.cur] && w.video.maps[(w.cur + 1) % SHELLS] && !w.video.maps[(w.cur + 2) % SHELLS]
    ensures var v, n := Run(w, [a, b, c]), (w.cur + 1) % SHELLS;
            && v.cur == w.cur && v.stacks == w.stacks && v.video.holders == w.video.holders
            && v.video.page == Some(if n == a.visible then 0 else n + 1)
  {
    hide Run, CanRun, InStack;
    assert [a] + [b, c] == [a, b, c] && [b] + [c] == [b, c] && [c] + [] == [c];
    FirstEnabled(w, a, [b, c]);
    var w1 := Step(w, a);
    FirstEnabled(w1, b, [c]);
    var w2 := Step(w1, b);
    FirstEnabled(w2, c, []);
    RunOne(Step(w2, c));
  }

  lemma FirstEnabled(w: World, op: Op, ops: seq<Op>)
    requires w.Shape() && CanRun(w, [op] + ops)
    ensures Enabled(w, op) && CanRun(Step(w, op), ops) && Run(w, [op] + ops) == Run(Step(w, op), ops)
  {
    hide Step, Enabled;
    assert ([op] + ops)[1..] == ops;
  }
}
