/** The abstract process machine: three stacks of processes, one per terminal, a round-robin
    pointer, and the context each terminal was last switched out with. `Kernel` refines it. */
module Processes {
  import opened Common
  import opened Options
  import opened Strings
  import opened Commands

  const SHELLS := 3
  const STACK_SIZE := 0x2000
  const STACKS_END := 0x80_0000

  // ----- kernel stacks -----

  /** The 8 KB kernel stack of a process ends here; its control block sits at the other end. */
  function StackTop(pid: nat): int {
    STACKS_END - (pid - 1) * STACK_SIZE
  }

  function PcbAddr(pid: nat): int {
    STACKS_END - pid * STACK_SIZE
  }

  predicate InStack(pid: nat, esp: int) { PcbAddr(pid) <= esp < StackTop(pid) }

  lemma StacksDisjoint(p: nat, q: nat, esp: int)
    requires 0 < p <= MAX_PROGS && 0 < q <= MAX_PROGS && p != q
    requires InStack(p, esp)
    ensures !InStack(q, esp) && 0x40_0000 <= esp < 0x80_0000
  {
  }

  // ----- the machine -----

  datatype Ctx = Ctx(esp: int, ebp: int)

  /** A process on a stack: the frame pointer its parent's `execute` is waiting with, its
      arguments, and the inode its program was loaded from. */
  datatype Frame = Frame(pid: nat, callerEbp: int, args: Args, inode: nat)

  type Stack = seq<Frame>

  datatype Place = Place(t: nat, i: nat)

  predicate Has(stacks: seq<Stack>, t: nat, i: nat) { t < |stacks| && i < |stacks[t]| }

  /** Every process on a stack is where `place` says, and `place` has no other entries. */
  ghost predicate Placed(stacks: seq<Stack>, place: map<nat, Place>) {
    && (forall t: nat, i: nat {:trigger Has(stacks, t, i)} :: Has(stacks, t, i) ==>
          0 < stacks[t][i].pid <= MAX_PROGS && stacks[t][i].pid in place && place[stacks[t][i].pid] == Place(t, i))
    && (forall p {:trigger place[p]} :: p in place ==>
          place[p].t < |stacks| && place[p].i < |stacks[place[p].t]| && stacks[place[p].t][place[p].i].pid == p)
  }

  /** The `vidmap` side: which terminals have their flag set, which processes hold video memory, and
      which of the four text pages the user text page shows, if it is mapped: 0 is the display,
      t + 1 the buffer of terminal t. */
  datatype Video = Video(maps: seq<bool>, holders: set<nat>, page: Option<nat>)

  /** `place` says where each live process sits: its terminal and its height on the stack. */
  datatype World = World(stacks: seq<Stack>, place: map<nat, Place>, cur: nat, saved: seq<Option<Ctx>>,
                         video: Video) {

    /** The live processes. */
    function Live(): set<nat> { place.Keys }

    function Total(): nat
      requires |stacks| == SHELLS
    {
      |stacks[0]| + |stacks[1]| + |stacks[2]|
    }

    predicate Shape() {
      && |stacks| == |saved| == |video.maps| == SHELLS && cur < SHELLS
      && |stacks[0]| > 0 && |stacks[1]| > 0 && |stacks[2]| > 0
    }

    /** The stack pointer a waiting terminal will be resumed with lies in the kernel stack of the
        process that is then running. */
    ghost predicate SavedInside()
      requires Shape()
    {
      forall t :: 0 <= t < SHELLS && t != cur && saved[t].Some? ==> InStack(Top(t).pid, saved[t].value.esp)
    }

    /** Stacks rest on their own base shell, no process occurs twice, and all pids are slots. */
    ghost predicate Inv() {
      && Shape()
      && stacks[0][0].pid == 1 && stacks[1][0].pid == 2 && stacks[2][0].pid == 3
      && Placed(stacks, place)
      && |place| == Total()
      && SavedInside()
      && (video.page.Some? ==> video.page.value <= SHELLS)
    }

    function Top(t: nat): Frame
      requires t < |stacks| && |stacks[t]| > 0
    {
      stacks[t][|stacks[t]| - 1]
    }

    /** The process that is running. */
    function Running(): nat
      requires cur < |stacks| && |stacks[cur]| > 0
    {
      Top(cur).pid
    }

    function Push(f: Frame): World
      requires cur < |stacks|
    {
      this.(stacks := stacks[cur := stacks[cur] + [f]], place := place[f.pid := Place(cur, |stacks[cur]|)],
            video := video.(holders := video.holders - {f.pid}))
    }

    /** A process that held video memory takes its terminal's flag with it. */
    function Pop(): World
      requires cur < |stacks| && |stacks[cur]| > 0 && |video.maps| == SHELLS && cur < SHELLS
    {
      var maps := if Running() in video.holders then video.maps[cur := false] else video.maps;
      this.(stacks := stacks[cur := stacks[cur][..|stacks[cur]| - 1]], place := place - {Running()},
            video := video.(maps := maps, holders := video.holders - {Running()}))
    }

    /** The user text page follows only to a terminal whose flag is set. */
    function Rotate(c: Ctx, visible: nat): World
      requires cur < |saved| == |video.maps| == SHELLS
    {
      var n := (cur + 1) % SHELLS;
      var page := if video.maps[n] then Some(if n == visible then 0 else n + 1) else video.page;
      this.(saved := saved[cur := Some(c)], cur := n, video := video.(page := page))
    }

    /** A `vidmap` of the running process. */
    function Mapped(): World
      requires cur < |stacks| && |stacks[cur]| > 0 && cur < |video.maps|
    {
      this.(video := Video(video.maps[cur := true], video.holders + {Running()}, Some(0)))
    }
  }

  /** The lowest pid from `p` on that is not in use. */
  function LowestFree(used: set<nat>, p: nat): (r: Option<nat>)
    requires 0 < p
    ensures r.Some? ==> p <= r.value <= MAX_PROGS && r.value !in used && forall q :: p <= q < r.value ==> q in used
    ensures r.None? ==> forall q :: p <= q <= MAX_PROGS ==> q in used
    decreases MAX_PROGS + 1 - p
  {
    if p > MAX_PROGS then None
    else if p !in used then Some(p)
    else LowestFree(used, p + 1)
  }

  // ----- steps -----

  /** One atomic step. `esp` is the stack pointer inside the handler, `ebp` its frame pointer;
      `program` is the inode of the executable a command names, if there is one. */
  datatype Op =
    | Execute(program: Option<nat>, args: Args, ebp: int)
    | Halt(esp: int, status: byte)
    | Fault(esp: int)
    | Tick(esp: int, ebp: int, visible: nat)
    | Vidmap(esp: int, screenStart: nat)

  /** What the step does to control flow. */
  datatype Event =
    | Failed                          // -1 to the caller
    | Done                            // 0 to the caller
    | Entered(pid: nat)               // user code of a new process
    | ShellRestarted                  // a base shell starts over
    | Returned(ebp: int, value: int)  // the parent's pending execute returns value
    | Resumed(ctx: Ctx)               // a terminal continues where it was switched out
    | FreshStart                      // a terminal's shell starts for the first time

  /** The hardware enters the kernel on the running process's stack; a fault of a base shell is
      not a step of the machine. */
  predicate Enabled(w: World, op: Op)
    requires w.Shape()
  {
    match op
    case Execute(_, _, _) => true
    case Halt(esp, _) => InStack(w.Running(), esp)
    case Fault(esp) => InStack(w.Running(), esp) && |w.stacks[w.cur]| > 1
    case Tick(esp, _, visible) => InStack(w.Running(), esp) && visible < SHELLS
    case Vidmap(esp, _) => InStack(w.Running(), esp)
  }

  /** The process an `execute` starts, if it succeeds: any program that loads, in the lowest free slot. */
  function Started(w: World, program: Option<nat>, args: Args, ebp: int): Option<Frame>
    requires |w.stacks| == SHELLS
  {
    if program.None? || w.Total() == MAX_PROGS then None
    else match LowestFree(w.Live(), 1)
      case None => None
      case Some(pid) => Some(Frame(pid, ebp, args, program.value))
  }

  function Step(w: World, op: Op): (v: World)
    requires w.Shape() && Enabled(w, op)
    ensures v.Shape()
  {
    match op
    case Execute(program, args, ebp) =>
      (match Started(w, program, args, ebp)
       case None => w
       case Some(f) => w.Push(f))
    case Halt(_, _) => if |w.stacks[w.cur]| == 1 then w else w.Pop()
    case Fault(_) => w.Pop()
    case Tick(esp, ebp, visible) => w.Rotate(Ctx(esp, ebp), visible)
    case Vidmap(_, a) => if UserAddress(a) then w.Mapped() else w
  }

  function Outcome(w: World, op: Op): Event
    requires w.Shape() && Enabled(w, op)
  {
    match op
    case Execute(program, args, ebp) =>
      (match Started(w, program, args, ebp)
       case None => Failed
       case Some(f) => Entered(f.pid))
    case Halt(_, status) =>
      if |w.stacks[w.cur]| == 1 then ShellRestarted else Returned(w.Top(w.cur).callerEbp, status)
    case Fault(_) => Returned(w.Top(w.cur).callerEbp, 256)
    case Tick(_, _, _) =>
      (match w.saved[(w.cur + 1) % SHELLS]
       case None => FreshStart
       case Some(c) => Resumed(c))
    case Vidmap(_, a) => if UserAddress(a) then Done else Failed
  }

  /** Right after `launch`: three shells, none switched out yet, terminal 0 running. Terminals 1
      and 2 have no context; terminal 0 gets one when it is first switched out. */
  ghost function Launched(args: Args, inode: nat): (w: World)
    ensures w.Inv() && w.Live() == {1, 2, 3}
  {
    var w := World([[Frame(1, 0, args, inode)], [Frame(2, 0, args, inode)], [Frame(3, 0, args, inode)]],
          map[1 := Place(0, 0), 2 := Place(1, 0), 3 := Place(2, 0)],
          0, [None, None, None], Video([false, false, false], {}, None));
    assert w.place.Keys == {1, 2, 3};
    w
  }

  // ----- slots -----

  const ALL_PIDS: set<nat> := {1, 2, 3, 4, 5, 6}

  lemma LiveArePids(w: World)
    requires w.Inv()
    ensures w.Live() <= ALL_PIDS && |w.Live()| == w.Total() <= MAX_PROGS
  {
    forall p | p in w.Live()
      ensures p in ALL_PIDS
    {
      assert Has(w.stacks, w.place[p].t, w.place[p].i);
    }
    assert |w.place| == |w.place.Keys|;
    SubsetSize(w.Live(), ALL_PIDS);
  }

  /** A count below six leaves a slot, and the slot is never one of the base shells. */
  lemma CountLeavesSlot(w: World)
    requires w.Inv()
    ensures w.Total() < MAX_PROGS <==> LowestFree(w.Live(), 1).Some?
    ensures LowestFree(w.Live(), 1).Some? ==> LowestFree(w.Live(), 1).value > SHELLS
  {
    LiveArePids(w);
    ShellsLive(w);
    hide Placed, World.Inv, LowestFree;
    NoneFree(w.Live());
    AboveThree(w.Live());
  }

  lemma NoneFree(used: set<nat>)
    requires used <= ALL_PIDS
    ensures |used| < MAX_PROGS <==> LowestFree(used, 1).Some?
  {
    hide LowestFree;
    SubsetSize(used, ALL_PIDS);
    if LowestFree(used, 1).None? {
      assert used == ALL_PIDS;
    } else {
      assert LowestFree(used, 1).value in ALL_PIDS;
    }
  }

  lemma AboveThree(used: set<nat>)
    requires {1, 2, 3} <= used
    ensures LowestFree(used, 1).Some? ==> LowestFree(used, 1).value > SHELLS
  {
    hide LowestFree;
  }

  // ----- every step keeps the invariant -----

  lemma PushPlaced(s: seq<Stack>, place: map<nat, Place>, t: nat, f: Frame)
    requires Placed(s, place) && t < |s| && 0 < f.pid <= MAX_PROGS && f.pid !in place
    ensures Placed(s[t := s[t] + [f]], place[f.pid := Place(t, |s[t]|)])
  {
    var s' := s[t := s[t] + [f]];
    forall u: nat, i: nat {:trigger Has(s', u, i)} | Has(s', u, i) && !(u == t && i == |s[t]|)
      ensures Has(s, u, i) && s'[u][i] == s[u][i]
    {
    }
  }

  lemma PopPlaced(s: seq<Stack>, place: map<nat, Place>, t: nat)
    requires Placed(s, place) && t < |s| && |s[t]| > 0
    ensures s[t][|s[t]| - 1].pid in place
    ensures Placed(s[t := s[t][..|s[t]| - 1]], place - {s[t][|s[t]| - 1].pid})
  {
    var s' := s[t := s[t][..|s[t]| - 1]];
    assert Has(s, t, |s[t]| - 1);
    forall u: nat, i: nat {:trigger Has(s', u, i)} | Has(s', u, i)
      ensures Has(s, u, i) && s'[u][i] == s[u][i]
    {
    }
  }

  lemma PushInv(w: World, f: Frame)
    requires w.Inv() && 0 < f.pid <= MAX_PROGS && f.pid !in w.Live()
    ensures w.Push(f).Inv() && w.Push(f).Running() == f.pid && w.Push(f).Live() == w.Live() + {f.pid}
  {
    PushPlaced(w.stacks, w.place, w.cur, f);
  }

  lemma PopInv(w: World)
    requires w.Inv() && |w.stacks[w.cur]| > 1
    ensures w.Pop().Inv() && w.Pop().Live() == w.Live() - {w.Running()} && w.Running() > SHELLS
  {
    hide Placed;
    PopPlaced(w.stacks, w.place, w.cur);
    AboveShells(w);
    var gone := w.place - {w.Running()};
    assert gone.Keys == w.place.Keys - {w.Running()};
    assert |gone| == |gone.Keys| && |w.place| == |w.place.Keys|;
  }

  /** A process that is not at the bottom of its stack is none of the base shells. */
  lemma AboveShells(w: World)
    requires w.Inv() && |w.stacks[w.cur]| > 1
    ensures w.Running() > SHELLS
  {
    assert Has(w.stacks, w.cur, |w.stacks[w.cur]| - 1);
    ShellsLive(w);
  }

  /** The base shells are live, each at the bottom of its stack. */
  lemma ShellsLive(w: World)
    requires w.Inv()
    ensures {1, 2, 3} <= w.Live() && forall p :: 1 <= p <= 3 ==> w.place[p] == Place(p - 1, 0)
  {
    assert Has(w.stacks, 0, 0) && Has(w.stacks, 1, 0) && Has(w.stacks, 2, 0);
  }

  lemma RotateInv(w: World, c: Ctx, visible: nat)
    requires w.Inv() && InStack(w.Running(), c.esp) && visible < SHELLS
    ensures w.Rotate(c, visible).Inv()
  {
    hide Placed;
  }

  lemma StepInv(w: World, op: Op)
    requires w.Inv() && Enabled(w, op)
    ensures Step(w, op).Inv()
  {
    match op
    case Execute(program, args, ebp) =>
      match Started(w, program, args, ebp) {
        case None =>
        case Some(f) => PushInv(w, f);
      }
    case Halt(_, _) => if |w.stacks[w.cur]| > 1 { PopInv(w); }
    case Fault(_) => PopInv(w);
    case Tick(esp, ebp, visible) => RotateInv(w, Ctx(esp, ebp), visible);
    case Vidmap(_, _) =>
  }

  /** What a step does to the schedule. */
  lemma StepSchedule(w: World, op: Op)
    requires w.Shape() && Enabled(w, op)
    ensures var v := Step(w, op);
            v.cur == (if op.Tick? then (w.cur + 1) % SHELLS else w.cur) &&
            v.saved == (if op.Tick? then w.saved[w.cur := Some(Ctx(op.esp, op.ebp))] else w.saved)
  {
  }

  /** What a step does to the stacks: another terminal's stack never changes. */
  lemma StepStacks(w: World, op: Op, t: nat)
    requires w.Shape() && Enabled(w, op) && t < SHELLS
    ensures var v := Step(w, op);
            && |v.stacks| == SHELLS
            && (t != w.cur ==> v.stacks[t] == w.stacks[t])
            && (w.stacks[t] <= v.stacks[t] || v.stacks[t] <= w.stacks[t])
  {
  }

  /** A base shell's halt restarts it. */
  lemma ShellHalts(w: World, esp: int, status: byte)
    requires w.Shape() && InStack(w.Running(), esp) && |w.stacks[w.cur]| == 1
    ensures Outcome(w, Halt(esp, status)) == ShellRestarted && Step(w, Halt(esp, status)) == w
  {
  }

  // ----- whole runs -----

  ghost predicate CanRun(w: World, ops: seq<Op>)
    requires w.Shape()
    decreases ops
  {
    ops == [] || (Enabled(w, ops[0]) && (CanRun(Step(w, ops[0]), ops[1..])))
  }

  ghost function Run(w: World, ops: seq<Op>): (v: World)
    requires w.Shape() && CanRun(w, ops)
    ensures v.Shape()
    decreases ops
  {
    if ops == [] then w
    else Run(Step(w, ops[0]), ops[1..])
  }

  /** Every run keeps the invariant. */
  lemma {:induction false} RunInv(w: World, ops: seq<Op>)
    requires w.Inv() && CanRun(w, ops)
    ensures Run(w, ops).Inv()
    decreases ops
  {
    if ops != [] {
      StepInv(w, ops[0]);
      RunInv(Step(w, ops[0]), ops[1..]);
    }
  }

  function Ticks(ops: seq<Op>): nat {
    if ops == [] then 0 else (if ops[0].Tick? then 1 else 0) + Ticks(ops[1..])
  }

  /** The context terminal t was last switched out with during a run, if it was. */
  function LastSaved(cur: nat, ops: seq<Op>, t: nat): Option<Ctx>
    requires cur < SHELLS
    decreases ops
  {
    if ops == [] then None
    else
      var next := if ops[0].Tick? then (cur + 1) % SHELLS else cur;
      match LastSaved(next, ops[1..], t)
      case Some(c) => Some(c)
      case None => if ops[0].Tick? && cur == t then Some(Ctx(ops[0].esp, ops[0].ebp)) else None
  }

  /** Round robin: the scheduled terminal is the tick count modulo three, whatever the processes
      do in between, and each terminal's saved context is that of its last switch-out. */
  lemma {:induction false} RunSchedule(w: World, ops: seq<Op>, t: nat)
    requires w.Shape() && CanRun(w, ops) && t < SHELLS
    ensures Run(w, ops).cur == (w.cur + Ticks(ops)) % SHELLS
    ensures Run(w, ops).saved[t]
            == match LastSaved(w.cur, ops, t) case Some(c) => Some(c) case None => w.saved[t]
    decreases ops
  {
    hide World.Inv, Placed, Step, Enabled;
    if ops != [] {
      StepSchedule(w, ops[0]);
      NextMod(w.cur, Ticks(ops[1..]));
      RunSchedule(Step(w, ops[0]), ops[1..], t);
    }
  }

  /** Terminal t is not scheduled when any of the steps is taken. */
  ghost predicate Unscheduled(w: World, ops: seq<Op>, t: nat)
    requires w.Shape() && CanRun(w, ops)
    decreases ops
  {
    ops == [] || (w.cur != t && Unscheduled(Step(w, ops[0]), ops[1..], t))
  }

  lemma UnscheduledHead(w: World, ops: seq<Op>, t: nat)
    requires w.Shape() && CanRun(w, ops) && ops != [] && Unscheduled(w, ops, t)
    ensures w.cur != t && Enabled(w, ops[0]) && Unscheduled(Step(w, ops[0]), ops[1..], t)
  {
  }

  /** While a terminal is not scheduled its stack, its saved context and its `vidmap` flag stay. */
  lemma {:induction false} Untouched(w: World, ops: seq<Op>, t: nat)
    requires w.Shape() && CanRun(w, ops) && t < SHELLS && Unscheduled(w, ops, t)
    ensures var v := Run(w, ops);
            v.stacks[t] == w.stacks[t] && v.saved[t] == w.saved[t] && v.video.maps[t] == w.video.maps[t]
    decreases ops
  {
    if ops != [] {
      StepStacks(w, ops[0], t);
      StepSchedule(w, ops[0]);
      StepMaps(w, ops[0], t);
      Untouched(Step(w, ops[0]), ops[1..], t);
    }
  }

  lemma StepMaps(w: World, op: Op, t: nat)
    requires w.Shape() && Enabled(w, op) && t < SHELLS && t != w.cur
    ensures Step(w, op).video.maps[t] == w.video.maps[t]
  {
  }

  /** Any three consecutive ticks schedule each terminal exactly once: three prefixes of a run that
      end after its n-th, (n+1)-th and (n+2)-th tick leave the three terminals scheduled. */
  lemma ThreeTicks(w: World, a: seq<Op>, b: seq<Op>, c: seq<Op>)
    requires w.Shape() && CanRun(w, a) && CanRun(w, b) && CanRun(w, c)
    requires Ticks(b) == Ticks(a) + 1 && Ticks(c) == Ticks(a) + 2
    ensures {Run(w, a).cur, Run(w, b).cur, Run(w, c).cur} == {0, 1, 2}
  {
    hide Run, CanRun, Ticks, LastSaved, World.Inv, Placed;
    RunSchedule(w, a, 0);
    RunSchedule(w, b, 0);
    RunSchedule(w, c, 0);
    Residues(w.cur + Ticks(a));
  }

  lemma Residues(n: nat)
    ensures {n % 3, (n + 1) % 3, (n + 2) % 3} == {0, 1, 2}
  {
    var r := n % 3;
    assert n == 3 * (n / 3) + r;
    assert (n + 1) % 3 == (r + 1) % 3 && (n + 2) % 3 == (r + 2) % 3;
  }

  lemma NextMod(c: nat, n: nat)
    ensures ((c + 1) % 3 + n) % 3 == (c + (1 + n)) % 3
    ensures (c % 3 + 1) % 3 == (c + 1) % 3
  {
    AddMod(c + 1, n);
    AddMod(c, 1);
  }

  lemma AddMod(a: nat, b: nat)
    ensures (a % 3 + b) % 3 == (a + b) % 3
  {
    var q, r := (a % 3 + b) / 3, (a % 3 + b) % 3;
    assert a + b == 3 * (a / 3 + q) + r;
  }

  /** Context integrity: after any run from launch, a tick resumes the next terminal with exactly
      the context it was last switched out with, and starts it fresh if and only if it never was. */
  lemma ResumesLastSaved(args: Args, inode: nat, ops: seq<Op>, tick: Op)
    requires CanRun(Launched(args, inode), ops)
    requires tick.Tick? && Enabled(Run(Launched(args, inode), ops), tick)
    ensures Outcome(Run(Launched(args, inode), ops), tick)
            == match LastSaved(0, ops, (Ticks(ops) + 1) % SHELLS)
               case None => FreshStart
               case Some(c) => Resumed(c)
  {
    hide Run, CanRun, Enabled, LastSaved, Ticks, World.Inv, Placed;
    var w := Launched(args, inode);
    var t := (Ticks(ops) + 1) % SHELLS;
    RunSchedule(w, ops, t);
    NextMod(Ticks(ops), 0);
    assert (Run(w, ops).cur + 1) % SHELLS == t;
  }

  /** From launch, terminal t has been switched out exactly when more than t ticks have passed; so
      the only fresh starts are those of terminals 1 and 2 at the first and the second tick. */
  lemma {:induction false} SwitchedOutIff(ops: seq<Op>, cur: nat, t: nat)
    requires cur < SHELLS && t < SHELLS
    ensures LastSaved(cur, ops, t).None? <==> Ticks(ops) <= (t - cur) % SHELLS
    decreases ops
  {
    if ops != [] {
      var next := if ops[0].Tick? then (cur + 1) % SHELLS else cur;
      SwitchedOutIff(ops[1..], next, t);
    }
  }

  /** So a tick takes the fresh-start path exactly when it is the first or the second one. */
  lemma FreshStartIff(args: Args, inode: nat, ops: seq<Op>, tick: Op)
    requires CanRun(Launched(args, inode), ops)
    requires tick.Tick? && Enabled(Run(Launched(args, inode), ops), tick)
    ensures Outcome(Run(Launched(args, inode), ops), tick) == FreshStart <==> Ticks(ops) < 2
  {
    hide Run, CanRun, Enabled, LastSaved, Ticks, Outcome, World.Inv;
    ResumesLastSaved(args, inode, ops, tick);
    SwitchedOutIff(ops, 0, (Ticks(ops) + 1) % SHELLS);
  }

  /** What a tick resumes, it resumes on the kernel stack of the process that is running then. */
  lemma ResumedInside(w: World, tick: Op)
    requires w.Inv() && tick.Tick? && Enabled(w, tick)
    ensures match Outcome(w, tick)
            case Resumed(c) => InStack(Step(w, tick).Running(), c.esp)
            case _ => true
  {
    hide Placed;
  }

  ghost predicate StaysAbove(w: World, ops: seq<Op>, t: nat, h: nat)
    requires w.Shape() && CanRun(w, ops) && t < SHELLS
    decreases ops
  {
    h <= |w.stacks[t]| &&
    (ops == [] || (StaysAbove(Step(w, ops[0]), ops[1..], t, h)))
  }

  /** Stack discipline: whatever runs above height h of a terminal's stack leaves the processes
      below untouched, so their parents, arguments and pending `execute` frames are as before. */
  lemma {:induction false} LowerStackKept(w: World, ops: seq<Op>, t: nat, h: nat)
    requires w.Shape() && CanRun(w, ops) && t < SHELLS
    requires StaysAbove(w, ops, t, h)
    ensures var v := Run(w, ops); h <= |v.stacks[t]| && v.stacks[t][..h] == w.stacks[t][..h]
    decreases ops
  {
    if ops != [] {
      StepStacks(w, ops[0], t);
      LowerStackKept(Step(w, ops[0]), ops[1..], t, h);
    }
  }

  /** An `execute` returns: whatever the new process, its children and the other terminals do, when the
      process is on top again and halts, the parent's call returns its status; if it faults, 256. The
      parent runs on, with everything below it as it was. */
  lemma CallReturns(w: World, p: nat, args: Args, ebp: int, ops: seq<Op>, esp: int, status: byte)
    requires w.Shape() && Started(w, Some(p), args, ebp).Some?
    requires CanRun(Step(w, Execute(Some(p), args, ebp)), ops)
    requires StaysAbove(Step(w, Execute(Some(p), args, ebp)), ops, w.cur, |w.stacks[w.cur]| + 1)
    requires var v := Run(Step(w, Execute(Some(p), args, ebp)), ops);
             v.cur == w.cur && |v.stacks[w.cur]| == |w.stacks[w.cur]| + 1 && InStack(v.Running(), esp)
    ensures var v := Run(Step(w, Execute(Some(p), args, ebp)), ops);
            && Outcome(v, Halt(esp, status)) == Returned(ebp, status)
            && Outcome(v, Fault(esp)) == Returned(ebp, 256)
            && Step(v, Halt(esp, status)) == Step(v, Fault(esp))
            && Step(v, Halt(esp, status)).cur == w.cur
            && Step(v, Halt(esp, status)).stacks[w.cur] == w.stacks[w.cur]
  {
    hide Run, CanRun, StaysAbove, InStack, LowestFree;
    var t, h := w.cur, |w.stacks[w.cur]|;
    var w1 := Step(w, Execute(Some(p), args, ebp));
    LowerStackKept(w1, ops, t, h + 1);
    var v := Run(w1, ops);
    assert v.stacks[t] == v.stacks[t][..h + 1] == w1.stacks[t];
    assert v.stacks[t][..h] == w.stacks[t];
  }
}
