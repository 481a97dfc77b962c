/** How the kernel's tables represent the three process stacks, and why each update of the tables
    keeps representing the machine after the corresponding step. */
module KernelState {
  import opened Common
  import opened Options
  import opened Bits
  import opened Strings
  import opened FileSystem
  import opened Commands
  import opened FileTable
  import opened Paging
  import opened Processes
  import opened Loader

  datatype SchedNode = SchedNode(processNum: nat, videoBuffer: nat, vidMap: int, esp: int, ebp: int)

  datatype Pcb = Pcb(pid: nat, parentPid: nat, parentEsp: int, parentEbp: int,
                     fdt: seq<FileDesc>, args: Bytes, vidmem: int)

  /** Control blocks in the kernel page, by address. */
  type Memory = map<int, Pcb>

  /** Programs in physical memory, by the address of their 4 MB frame. */
  type Frames = map<int, Bytes>

  /** All the tables at one moment. */
  datatype KState = KState(slots: seq<int>, sched: seq<SchedNode>, tables: Tables,
                           count: int, memory: Memory, frames: Frames, esp0: int, cur: nat)

  // ----- the representation -----

  ghost predicate SlotsOk(slots: seq<int>, live: set<nat>) {
    && |slots| == MAX_PROGS
    && forall p :: 0 <= p < MAX_PROGS ==> slots[p] == (if p + 1 in live then 1 else -1)
  }

  /** The control block of the i-th process on a stack names its predecessor as parent. */
  ghost predicate PcbFits(memory: Memory, s: Stack, i: nat)
    requires i < |s|
  {
    PcbAddr(s[i].pid) in memory &&
    var b := memory[PcbAddr(s[i].pid)];
    && b.pid == s[i].pid
    && b.parentPid == (if i == 0 then 0 else s[i - 1].pid)
    && (i > 0 ==> b.parentEsp == StackTop(s[i - 1].pid) && b.parentEbp == s[i].callerEbp)
    && b.args == Padded(s[i].args, BUF_LENGTH)
    && |b.fdt| == MAX_FD_NUM + 1
  }

  ghost predicate PcbsOk(memory: Memory, stacks: seq<Stack>) {
    forall t: nat, i: nat {:trigger Has(stacks, t, i)} :: Has(stacks, t, i) ==> PcbFits(memory, stacks[t], i)
  }

  /** User frames hold the program each live process was started from. */
  ghost predicate FramesOk(img: Image, frames: Frames, stacks: seq<Stack>)
    requires WellFormed(img)
  {
    forall t: nat, i: nat {:trigger Has(stacks, t, i)} :: Has(stacks, t, i) ==> FrameFits(img, frames, stacks[t][i])
  }

  ghost predicate FrameFits(img: Image, frames: Frames, f: Frame)
    requires WellFormed(img)
  {
    f.pid > 0 && UserFrame(f.pid) in frames && Program(img, f.inode) == Some(frames[UserFrame(f.pid)])
  }

  function Flag(b: bool): int { if b then 1 else 0 }

  /** The control blocks of the live processes record which of them hold video memory. */
  ghost predicate VidmemOk(memory: Memory, live: set<nat>, holders: set<nat>) {
    forall p {:trigger p in live} :: p in live ==>
      PcbAddr(p) in memory && memory[PcbAddr(p)].vidmem == Flag(p in holders)
  }

  /** Where the user text page leads. */
  ghost predicate UserPageOk(t: Tables, page: Option<nat>) {
    && |t.user| == ENTRIES
    && match page
       case None => !Present(t.user[256])
       case Some(k) => k <= 3 && t.user[256] == VideoPage(k) + USER_MODE
  }

  ghost predicate NodeOk(n: SchedNode, w: World, t: nat)
    requires w.Shape() && t < SHELLS
  {
    && n.processNum == w.Top(t).pid && n.videoBuffer == BufferAddr(t)
    && (t != w.cur ==> match w.saved[t]
                       case None => n.esp == -1 && n.ebp == -1
                       case Some(c) => c.esp != -1 && n.esp == c.esp && n.ebp == c.ebp)
    && n.vidMap == Flag(w.video.maps[t])
  }

  ghost predicate SchedOk(sched: seq<SchedNode>, w: World)
    requires w.Shape()
  {
    |sched| == SHELLS && NodeOk(sched[0], w, 0) && NodeOk(sched[1], w, 1) && NodeOk(sched[2], w, 2)
  }

  ghost predicate Represents(img: Image, k: KState, w: World)
    requires WellFormed(img) && w.Inv()
  {
    && k.cur == w.cur && k.count == w.Total()
    && SlotsOk(k.slots, w.Live())
    && PcbsOk(k.memory, w.stacks)
    && FramesOk(img, k.frames, w.stacks)
    && SchedOk(k.sched, w)
    && k.esp0 == StackTop(w.Running())
    && k.tables.Layout(w.Running())
    && VidmemOk(k.memory, w.Live(), w.video.holders)
    && UserPageOk(k.tables, w.video.page)
  }

  /** What is known about the running process, its node and its parent. */
  lemma Facts(img: Image, k: KState, w: World)
    requires WellFormed(img) && w.Inv() && Represents(img, k, w)
    ensures k.count == w.Total() <= MAX_PROGS && |k.sched| == SHELLS && |k.slots| == MAX_PROGS
    ensures SlotsOk(k.slots, w.Live()) && k.tables.Layout(w.Running())
    ensures 0 < w.Running() <= MAX_PROGS && k.sched[w.cur].processNum == w.Running()
    ensures k.sched[w.cur].videoBuffer == BufferAddr(w.cur)
    ensures PcbFits(k.memory, w.stacks[w.cur], |w.stacks[w.cur]| - 1)
    ensures |w.stacks[w.cur]| > 1 ==> 0 < w.stacks[w.cur][|w.stacks[w.cur]| - 2].pid <= MAX_PROGS
    ensures k.sched[w.cur].vidMap == Flag(w.video.maps[w.cur])
    ensures k.memory[PcbAddr(w.Running())].vidmem == Flag(w.Running() in w.video.holders)
  {
    hide FramesOk, Program, Tables.Layout, WellFormed, UserPageOk;
    LiveArePids(w);
    assert Has(w.stacks, w.cur, |w.stacks[w.cur]| - 1);
    if |w.stacks[w.cur]| > 1 {
      assert Has(w.stacks, w.cur, |w.stacks[w.cur]| - 2);
    }
  }

  // ----- the machine's steps on the tables -----

  /** An observed step of the abstract machine. */
  ghost predicate Follows(w: World, v: World, op: Op, e: Event) {
    w.Shape() && Enabled(w, op) && v == Step(w, op) && e == Outcome(w, op)
  }

  /** The step a command stands for: the executable it names, if any, and its arguments. */
  ghost function ExecuteOp(img: Image, command: Bytes, ebp: int, junk: Bytes): Op
    requires WellFormed(img) && |junk| == NAME_LENGTH
  {
    var text := CStr(command, |command|);
    Op.Execute(Loadable(img, ProgramName(text), junk), CommandArgs(command), ebp)
  }

  /** Name, one or more spaces and arguments, whatever follows the NUL, run the executable of that
      name with those arguments. */
  lemma ExecuteNames(img: Image, name: Bytes, gap: nat, args: Args, behind: Bytes, ebp: int, junk: Bytes)
    requires WellFormed(img) && |junk| == NAME_LENGTH
    requires NulFree(name) && SPACE !in name && |name| <= NAME_LENGTH && gap > 0
    requires args != [] ==> args[0] != SPACE
    ensures ExecuteOp(img, name + Spaces(gap) + args + [NUL] + behind, ebp, junk)
            == Op.Execute(Loadable(img, name, junk), args, ebp)
  {
    hide Loadable, CStr, ProgramName, Arguments;
    var text := name + Spaces(gap) + args;
    var command := text + [NUL] + behind;
    CommandRoundTrip(name, gap, args);
    assert NulFree(text);
    Terminated(text, behind);
  }

  lemma Terminated(text: Bytes, behind: Bytes)
    requires NulFree(text)
    ensures CStr(text + [NUL] + behind, |text + [NUL] + behind|) == text
  {
    var command := text + [NUL] + behind;
    assert command[..|text|] == text && command[|text|] == NUL;
    CStrIs(command, |command|, |text|);
  }

  /** A name alone, and a name with spaces behind it, run it without arguments. */
  lemma ExecuteNameAlone(img: Image, name: Bytes, gap: nat, behind: Bytes, ebp: int, junk: Bytes)
    requires WellFormed(img) && |junk| == NAME_LENGTH
    requires NulFree(name) && SPACE !in name && |name| <= NAME_LENGTH
    ensures ExecuteOp(img, name + Spaces(gap) + [NUL] + behind, ebp, junk)
            == Op.Execute(Loadable(img, name, junk), [], ebp)
  {
    hide Loadable, CStr, ProgramName, Arguments;
    if gap > 0 {
      ExecuteNames(img, name, gap, [], behind, ebp, junk);
      assert name + Spaces(gap) + [] == name + Spaces(gap);
    } else {
      assert name + Spaces(0) == name;
      NameAlone(name);
      Terminated(name, behind);
    }
  }

  function AfterStart(k: KState, b: Pcb, frames: Frames): KState
    requires 0 < b.pid <= MAX_PROGS == |k.slots| && k.cur < |k.sched| && |k.tables.dir| == ENTRIES
  {
    k.(slots := k.slots[b.pid - 1 := 1],
       sched := k.sched[k.cur := k.sched[k.cur].(processNum := b.pid)],
       tables := MapFrame(k.tables, b.pid),
       count := k.count + 1,
       memory := k.memory[PcbAddr(b.pid) := b],
       frames := frames,
       esp0 := StackTop(b.pid))
  }

  lemma StartOk(img: Image, k: KState, w: World, f: Frame, b: Pcb, program: Bytes)
    requires WellFormed(img) && w.Inv() && Represents(img, k, w)
    requires LowestFree(w.Live(), 1) == Some(f.pid)
    requires b.pid == f.pid && b.parentPid == w.Running() && b.parentEsp == StackTop(b.parentPid)
    requires b.parentEbp == f.callerEbp && b.args == Padded(f.args, BUF_LENGTH) && |b.fdt| == MAX_FD_NUM + 1
    requires b.vidmem == 0 && Program(img, f.inode) == Some(program)
    ensures |k.slots| == MAX_PROGS && k.cur < |k.sched| && |k.tables.dir| == ENTRIES
    ensures w.Push(f).Inv()
    ensures Represents(img, AfterStart(k, b, k.frames[UserFrame(f.pid) := program]), w.Push(f))
  {
    hide Placed, PcbsOk, FramesOk, Program, Tables.Layout, NodeOk, WellFormed, VidmemOk, UserPageOk;
    hide StackTop, PcbAddr;
    Facts(img, k, w);
    PushInv(w, f);
    PushVidmem(k.memory, w, f, b);
    WriteDir(k.tables, w.Running(), f.pid);
    SamePage(k.tables, MapFrame(k.tables, f.pid), w.video.page);
    PushFits(img, k.memory, k.frames, w, f, b, program);
    hide World.Inv, UserFrame, Padded;
    NodeKeeps(k.sched, w, w.Push(f), k.sched[k.cur].(processNum := b.pid));
  }

  lemma PushFits(img: Image, memory: Memory, frames: Frames, w: World, f: Frame, b: Pcb, program: Bytes)
    requires WellFormed(img) && w.Inv() && PcbsOk(memory, w.stacks) && FramesOk(img, frames, w.stacks)
    requires 0 < f.pid <= MAX_PROGS && f.pid !in w.Live()
    requires b.pid == f.pid && b.parentPid == w.Running() && b.parentEsp == StackTop(b.parentPid)
    requires b.parentEbp == f.callerEbp && b.args == Padded(f.args, BUF_LENGTH) && |b.fdt| == MAX_FD_NUM + 1
    requires Program(img, f.inode) == Some(program)
    ensures PcbsOk(memory[PcbAddr(f.pid) := b], w.Push(f).stacks)
    ensures FramesOk(img, frames[UserFrame(f.pid) := program], w.Push(f).stacks)
  {
    hide Program;
    var s := w.Push(f).stacks;
    forall t: nat, i: nat {:trigger Has(s, t, i)} | Has(s, t, i) && !(t == w.cur && i == |w.stacks[t]|)
      ensures Has(w.stacks, t, i) && s[t][i] == w.stacks[t][i] && s[t][i].pid != f.pid
      ensures i > 0 ==> s[t][i - 1] == w.stacks[t][i - 1]
    {
      assert Has(w.stacks, t, i);
    }
  }

  /** A new process holds no video memory. */
  lemma PushVidmem(memory: Memory, w: World, f: Frame, b: Pcb)
    requires w.Inv() && VidmemOk(memory, w.Live(), w.video.holders) && f.pid !in w.Live() && b.vidmem == 0
    ensures VidmemOk(memory[PcbAddr(f.pid) := b], w.Push(f).Live(), w.Push(f).video.holders)
  {
  }

  lemma PopVidmem(memory: Memory, w: World, b: Pcb)
    requires w.Inv() && VidmemOk(memory, w.Live(), w.video.holders)
    ensures VidmemOk(memory[PcbAddr(w.Running()) := b], w.Pop().Live(), w.Pop().video.holders)
  {
  }

  lemma SamePage(t: Tables, u: Tables, page: Option<nat>)
    requires UserPageOk(t, page) && u.user == t.user
    ensures UserPageOk(u, page)
  {
  }

  /** A change of the scheduled terminal's top process needs a change of its own node only. */
  lemma NodeKeeps(sched: seq<SchedNode>, w: World, v: World, n: SchedNode)
    requires w.Shape() && v.Shape() && SchedOk(sched, w) && v.cur == w.cur && v.saved == w.saved
    requires forall t :: 0 <= t < SHELLS && t != w.cur ==>
               v.stacks[t] == w.stacks[t] && v.video.maps[t] == w.video.maps[t]
    requires n.processNum == v.Running() && n.videoBuffer == BufferAddr(w.cur)
    requires n.vidMap == Flag(v.video.maps[w.cur])
    ensures SchedOk(sched[w.cur := n], v)
  {
  }

  ghost predicate AllClosed(before: seq<FileDesc>, after: seq<FileDesc>) {
    && |before| == |after| == MAX_FD_NUM + 1
    && after[0] == before[0] && after[1] == before[1]
    && forall i :: 2 <= i <= MAX_FD_NUM ==> after[i] == ClosedDesc(before[i])
  }

  function ClosedDesc(d: FileDesc): FileDesc { if d.flags == IN_USE then d.(flags := FREE) else d }

  /** The control block a process leaves behind has its files closed. */
  ghost predicate DiesClosed(before: Memory, after: Memory, pid: nat) {
    PcbAddr(pid) in before && PcbAddr(pid) in after && AllClosed(before[PcbAddr(pid)].fdt, after[PcbAddr(pid)].fdt)
  }

  function AfterLeave(k: KState, b: Pcb): KState
    requires 0 < b.pid <= MAX_PROGS == |k.slots| && k.cur < |k.sched| && |k.tables.dir| == ENTRIES && b.parentPid > 0
  {
    var n := k.sched[k.cur].(processNum := b.parentPid, esp := b.parentEsp, ebp := b.parentEbp);
    k.(slots := k.slots[b.pid - 1 := -1],
       sched := k.sched[k.cur := if b.vidmem != 0 then n.(vidMap := 0) else n],
       tables := MapFrame(k.tables, b.parentPid),
       count := k.count - 1,
       memory := k.memory[PcbAddr(b.pid) := b],
       esp0 := b.parentEsp)
  }

  lemma LeaveOk(img: Image, k: KState, w: World, b: Pcb)
    requires WellFormed(img) && w.Inv() && Represents(img, k, w) && |w.stacks[w.cur]| > 1
    requires PcbAddr(w.Running()) in k.memory && b == k.memory[PcbAddr(w.Running())].(fdt := b.fdt)
    ensures |k.slots| == MAX_PROGS && k.cur < |k.sched| && |k.tables.dir| == ENTRIES
    ensures 0 < b.pid <= MAX_PROGS && 0 < b.parentPid <= MAX_PROGS && w.Pop().Inv()
    ensures Represents(img, AfterLeave(k, b), w.Pop())
  {
    hide Placed, PcbsOk, FramesOk, Program, Tables.Layout, NodeOk, WellFormed, VidmemOk, UserPageOk;
    Facts(img, k, w);
    PopInv(w);
    PopVidmem(k.memory, w, b);
    WriteDir(k.tables, w.Running(), b.parentPid);
    SamePage(k.tables, MapFrame(k.tables, b.parentPid), w.video.page);
    PopFits(img, k.memory, k.frames, w, b);
    hide World.Inv, UserFrame;
    NodeKeeps(k.sched, w, w.Pop(), AfterLeave(k, b).sched[k.cur]);
  }

  lemma PopFits(img: Image, memory: Memory, frames: Frames, w: World, b: Pcb)
    requires WellFormed(img) && w.Inv() && PcbsOk(memory, w.stacks) && FramesOk(img, frames, w.stacks)
    requires |w.stacks[w.cur]| > 1
    ensures PcbsOk(memory[PcbAddr(w.Running()) := b], w.Pop().stacks)
    ensures FramesOk(img, frames, w.Pop().stacks)
  {
    hide Program;
    var s := w.Pop().stacks;
    var h := |w.stacks[w.cur]|;
    assert Has(w.stacks, w.cur, h - 1);
    forall t: nat, i: nat {:trigger Has(s, t, i)} | Has(s, t, i)
      ensures Has(w.stacks, t, i) && s[t][i] == w.stacks[t][i] && s[t][i].pid != w.Running()
      ensures i > 0 ==> s[t][i - 1] == w.stacks[t][i - 1]
    {
      assert Has(w.stacks, t, i);
    }
  }

  /** A process runs directly on a base shell's place exactly when its pid is 1, 2 or 3. */
  lemma BaseIsShell(w: World)
    requires w.Inv()
    ensures w.Running() <= SHELLS <==> |w.stacks[w.cur]| == 1
  {
    if |w.stacks[w.cur]| > 1 { PopInv(w); }
  }

  /** What is known about the terminal that is scheduled next. */
  lemma NextFacts(img: Image, k: KState, w: World)
    requires WellFormed(img) && w.Inv() && Represents(img, k, w)
    ensures var n := (w.cur + 1) % SHELLS;
            && n < |k.sched| && n != w.cur && 0 < k.sched[n].processNum <= MAX_PROGS
            && k.sched[n].processNum == w.Top(n).pid && k.sched[n].videoBuffer == BufferAddr(n)
            && match w.saved[n]
               case None => k.sched[n].esp == -1
               case Some(c) => c.esp != -1 && k.sched[n].esp == c.esp && k.sched[n].ebp == c.ebp
    ensures k.sched[(w.cur + 1) % SHELLS].vidMap == Flag(w.video.maps[(w.cur + 1) % SHELLS])
  {
    hide VidmemOk, UserPageOk, PcbsOk, FramesOk, Program, Tables.Layout, SlotsOk, WellFormed;
    var n := (w.cur + 1) % SHELLS;
    assert Has(w.stacks, n, |w.stacks[n]| - 1);
  }

  function AfterSwitch(k: KState, c: Ctx, target: nat): KState
    requires k.cur < SHELLS == |k.sched| && |k.tables.dir| == |k.tables.low| == |k.tables.user| == ENTRIES
    requires k.sched[(k.cur + 1) % SHELLS].processNum > 0
  {
    var n := (k.cur + 1) % SHELLS;
    k.(sched := k.sched[k.cur := k.sched[k.cur].(esp := c.esp, ebp := c.ebp)],
       tables := Remapped(k.tables, k.sched[n].processNum, k.sched[n].vidMap == 1, target),
       esp0 := StackTop(k.sched[n].processNum),
       cur := n)
  }

  lemma SwitchOk(img: Image, k: KState, w: World, c: Ctx, visible: nat)
    requires WellFormed(img) && w.Inv() && Represents(img, k, w) && InStack(w.Running(), c.esp) && visible < SHELLS
    ensures k.cur < SHELLS == |k.sched| && |k.tables.dir| == |k.tables.low| == |k.tables.user| == ENTRIES
    ensures k.sched[(k.cur + 1) % SHELLS].processNum > 0
    ensures w.Rotate(c, visible).Inv()
    ensures var n := (k.cur + 1) % SHELLS;
            var page := if n == visible then 0 else n + 1;
            var k' := AfterSwitch(k, c, VideoPage(page));
            Represents(img, k', w.Rotate(c, visible))
            && |k'.tables.dir| == |k'.tables.low| == |k'.tables.user| == ENTRIES
            && k'.tables.Translate(VIDEO_MEM_ADDR, false) == Some(VideoPage(page))
            && (k.sched[k'.cur].vidMap == 1 ==> k'.tables.Translate(USER_VIDEO_MEM, true) == Some(VideoPage(page)))
  {
    hide Placed, PcbsOk, FramesOk, Program, Tables.Layout, Tables.Translate, Remapped, SlotsOk, WellFormed, NodeOk;
    hide VidmemOk, UserPageOk;
    Facts(img, k, w);
    NextFacts(img, k, w);
    RotateInv(w, c, visible);
    hide World.Inv, VideoPage;
    var n := (k.cur + 1) % SHELLS;
    var node, page := k.sched[n], if n == visible then 0 else n + 1;
    RemappedOk(k.tables, w.Running(), node.processNum, node.vidMap == 1, page);
    RemappedPage(k.tables, w.Running(), node.processNum, node.vidMap == 1, page, w.video.page);
    RotateNodes(k.sched, w, c, visible);
  }

  lemma RemappedPage(t: Tables, top: nat, pid: nat, userVideo: bool, page: nat, was: Option<nat>)
    requires t.Layout(top) && pid > 0 && page <= 3 && UserPageOk(t, was)
    ensures |t.dir| == |t.low| == |t.user| == ENTRIES
    ensures UserPageOk(Remapped(t, pid, userVideo, VideoPage(page)), if userVideo then Some(page) else was)
  {
  }

  /** A tick changes only the node of the terminal it switches out. */
  lemma RotateNodes(sched: seq<SchedNode>, w: World, c: Ctx, visible: nat)
    requires w.Shape() && SchedOk(sched, w) && c.esp != -1
    ensures w.Rotate(c, visible).Shape()
    ensures SchedOk(sched[w.cur := sched[w.cur].(esp := c.esp, ebp := c.ebp)], w.Rotate(c, visible))
  {
  }

  /** Pointing 0xB8000 at one of the four text pages keeps the representation. */
  lemma AimOk(img: Image, k: KState, w: World, page: nat)
    requires WellFormed(img) && w.Inv() && Represents(img, k, w) && page <= 3
    ensures |k.tables.dir| == |k.tables.low| == |k.tables.user| == ENTRIES
    ensures var k' := k.(tables := k.tables.(low := k.tables.low[0xB8 := VideoPage(page) + USER_MODE]));
            Represents(img, k', w) && k'.tables.Translate(VIDEO_MEM_ADDR, false) == Some(VideoPage(page))
  {
    hide Placed, PcbsOk, FramesOk, Program, Tables.Layout, Tables.Translate, NodeOk, SlotsOk, WellFormed, VidmemOk;
    Facts(img, k, w);
    WriteLow(k.tables, w.Running(), VideoPage(page) + USER_MODE);
    VideoWalk(k.tables.(low := k.tables.low[0xB8 := VideoPage(page) + USER_MODE]), w.Running(), page);
  }

  function AfterVidmap(k: KState, pid: nat): KState
    requires PcbAddr(pid) in k.memory && k.cur < |k.sched| && |k.tables.user| == ENTRIES
  {
    k.(memory := k.memory[PcbAddr(pid) := k.memory[PcbAddr(pid)].(vidmem := 1)],
       sched := k.sched[k.cur := k.sched[k.cur].(vidMap := 1)],
       tables := k.tables.(user := k.tables.user[256 := VIDEO_MEM_ADDR + USER_MODE]))
  }

  lemma VidmapOk(img: Image, k: KState, w: World)
    requires WellFormed(img) && w.Inv() && Represents(img, k, w)
    ensures PcbAddr(w.Running()) in k.memory && k.cur < |k.sched| && |k.tables.user| == ENTRIES
    ensures w.Mapped().Inv()
    ensures var k' := AfterVidmap(k, w.Running());
            && Represents(img, k', w.Mapped()) && |k'.tables.dir| == |k'.tables.low| == |k'.tables.user| == ENTRIES
            && k'.tables.Translate(USER_VIDEO_MEM, true) == Some(VIDEO_MEM_ADDR)
  {
    hide Placed, PcbsOk, FramesOk, Program, Tables.Layout, Tables.Translate, NodeOk, WellFormed, VidmemOk;
    Facts(img, k, w);
    WriteUser(k.tables, w.Running(), 0);
    VideoWalk(AfterVidmap(k, w.Running()).tables, w.Running(), 0);
    NodeKeeps(k.sched, w, w.Mapped(), k.sched[k.cur].(vidMap := 1));
    VidmemFits(k.memory, w);
    MappedVidmem(k.memory, w);
  }

  lemma MappedVidmem(memory: Memory, w: World)
    requires w.Inv() && VidmemOk(memory, w.Live(), w.video.holders) && PcbAddr(w.Running()) in memory
    ensures VidmemOk(memory[PcbAddr(w.Running()) := memory[PcbAddr(w.Running())].(vidmem := 1)],
                     w.Mapped().Live(), w.Mapped().video.holders)
  {
  }

  lemma VidmemFits(memory: Memory, w: World)
    requires w.Inv() && PcbsOk(memory, w.stacks) && PcbAddr(w.Running()) in memory
    ensures PcbsOk(memory[PcbAddr(w.Running()) := memory[PcbAddr(w.Running())].(vidmem := 1)], w.stacks)
  {
    forall t: nat, i: nat {:trigger Has(w.stacks, t, i)} | Has(w.stacks, t, i)
      ensures PcbFits(memory[PcbAddr(w.Running()) := memory[PcbAddr(w.Running())].(vidmem := 1)], w.stacks[t], i)
    {
      assert PcbFits(memory, w.stacks[t], i);
    }
  }

  // ----- launch -----

  function BootNodes(): seq<SchedNode> {
    [SchedNode(1, BufferAddr(0), 0, STACKS_END, STACKS_END),
     SchedNode(2, BufferAddr(1), 0, -1, -1),
     SchedNode(3, BufferAddr(2), 0, -1, -1)]
  }

  ghost predicate ShellPcbs(memory: Memory, junkFds: seq<FileDesc>, junkEsp: int, junkEbp: int)
    requires |junkFds| == MAX_FD_NUM + 1
  {
    forall p :: 0 < p <= SHELLS ==>
      PcbAddr(p) in memory && memory[PcbAddr(p)]
        == Pcb(p, 0, junkEsp, junkEbp, NewTable(junkFds), Padded([], BUF_LENGTH), 0)
  }

  ghost predicate ShellFrames(frames: Frames, code: Bytes) {
    forall p :: 0 < p <= SHELLS ==> UserFrame(p) in frames && frames[UserFrame(p)] == code
  }

  lemma LaunchedOk(img: Image, k: KState, junkFds: seq<FileDesc>, junkEsp: int, junkEbp: int, inode: nat)
    requires WellFormed(img) && |junkFds| == MAX_FD_NUM + 1
    requires k.slots == [1, 1, 1, -1, -1, -1] && k.sched == BootNodes() && k.tables.Layout(1)
    requires k.count == SHELLS && k.cur == 0 && k.esp0 == STACKS_END
    requires ShellPcbs(k.memory, junkFds, junkEsp, junkEbp) && UserPageOk(k.tables, None)
    requires Program(img, inode).Some? && ShellFrames(k.frames, Program(img, inode).value)
    ensures Represents(img, k, Launched([], inode))
  {
    hide Program, Placed, PcbsOk, FramesOk, ShellPcbs, ShellFrames, Tables.Layout, VidmemOk, UserPageOk;
    LaunchedVidmem(k.memory, junkFds, junkEsp, junkEbp, inode);
    LaunchedFits(img, k.memory, k.frames, junkFds, junkEsp, junkEbp, inode);
  }

  lemma LaunchedVidmem(memory: Memory, junkFds: seq<FileDesc>, junkEsp: int, junkEbp: int, inode: nat)
    requires |junkFds| == MAX_FD_NUM + 1 && ShellPcbs(memory, junkFds, junkEsp, junkEbp)
    ensures VidmemOk(memory, Launched([], inode).Live(), Launched([], inode).video.holders)
  {
    forall p | p in Launched([], inode).Live()
      ensures PcbAddr(p) in memory && memory[PcbAddr(p)].vidmem == 0
    {
      assert p in {1, 2, 3};
    }
  }

  lemma LaunchedFits(img: Image, memory: Memory, frames: Frames, junkFds: seq<FileDesc>,
                     junkEsp: int, junkEbp: int, inode: nat)
    requires WellFormed(img) && |junkFds| == MAX_FD_NUM + 1 && ShellPcbs(memory, junkFds, junkEsp, junkEbp)
    requires Program(img, inode).Some? && ShellFrames(frames, Program(img, inode).value)
    ensures PcbsOk(memory, Launched([], inode).stacks) && FramesOk(img, frames, Launched([], inode).stacks)
  {
    hide Program, Placed;
    var s := Launched([], inode).stacks;
    forall t: nat, i: nat {:trigger Has(s, t, i)} | Has(s, t, i)
      ensures i == 0 && t < SHELLS && s[t][i] == Frame(t + 1, 0, [], inode)
    {
    }
  }

  /** The addresses: kernel stacks and control blocks grow down from 8 MB, 8 KB each; user frames go up
      from there, 4 MB each; the text pages follow the display at 0xB8000. */
  lemma Addresses(pid: nat, t: nat)
    requires pid > 0
    ensures StackTop(pid) == 0x80_0000 - (pid - 1) * 0x2000 && PcbAddr(pid) == 0x80_0000 - pid * 0x2000
    ensures UserFrame(pid) == 0x80_0000 + (pid - 1) * 0x40_0000
    ensures BufferAddr(t) == 0xB_9000 + t * 0x1000 && VideoPage(0) == 0xB_8000 && VideoPage(t + 1) == BufferAddr(t)
    ensures forall a: nat :: UserAddress(a) <==> 0x800_0000 <= a < 0x840_0000
  {
  }

  // ----- parents -----

  /** Masking any stack pointer inside a process's 8 KB stack gives its control block. */
  lemma MaskFindsPcb(pid: nat, esp: nat)
    requires 0 < pid <= MAX_PROGS && InStack(pid, esp)
    ensures And(esp, STACKS_END - STACK_SIZE) == PcbAddr(pid)
  {
    AndStackMask(esp, STACKS_END - STACK_SIZE);
    assert esp / 0x2000 == 0x400 - pid;
  }

  /** Follows `parent_pid` n times. */
  function Follow(memory: Memory, pid: nat, n: nat): nat
    decreases n
  {
    if n == 0 then pid
    else if PcbAddr(pid) !in memory then 0
    else Follow(memory, memory[PcbAddr(pid)].parentPid, n - 1)
  }

  /** From the i-th process of a stack, k parent links lead to the (i-k)-th. */
  lemma {:induction false} FollowDown(memory: Memory, stacks: seq<Stack>, t: nat, i: nat, k: nat)
    requires PcbsOk(memory, stacks) && t < |stacks| && k <= i < |stacks[t]|
    ensures Follow(memory, stacks[t][i].pid, k) == stacks[t][i - k].pid
    decreases k
  {
    if k > 0 {
      assert Has(stacks, t, i);
      FollowDown(memory, stacks, t, i - 1, k - 1);
    }
  }

  /** The process n parent links above terminal t's scheduled process, read off the tables. */
  ghost function Ancestor(k: KState, t: nat, n: nat): nat
    requires t < |k.sched|
  {
    Follow(k.memory, k.sched[t].processNum, n)
  }

  lemma AncestorIs(img: Image, k: KState, w: World, t: nat, n: nat)
    requires WellFormed(img) && w.Inv() && Represents(img, k, w) && t < SHELLS && n < |w.stacks[t]|
    ensures |k.sched| == SHELLS && Ancestor(k, t, n) == w.stacks[t][|w.stacks[t]| - 1 - n].pid
  {
    hide Program, Tables.Layout, SlotsOk, WellFormed, Placed;
    FollowDown(k.memory, w.stacks, t, |w.stacks[t]| - 1, n);
  }

  /** Following `parent_pid` from a terminal's scheduled process ends at its base shell, after
      which there is no parent. */
  lemma ChainEndsAtBase(img: Image, k: KState, w: World, t: nat)
    requires WellFormed(img) && w.Inv() && Represents(img, k, w) && t < SHELLS
    ensures |k.sched| == SHELLS && Ancestor(k, t, |w.stacks[t]| - 1) == t + 1
    ensures PcbAddr(t + 1) in k.memory && k.memory[PcbAddr(t + 1)].parentPid == 0
  {
    AncestorIs(img, k, w, t, |w.stacks[t]| - 1);
    assert Has(w.stacks, t, 0);
  }

  /** The three chains are disjoint and acyclic. */
  lemma ChainsDisjoint(img: Image, k: KState, w: World, t: nat, n: nat, u: nat, m: nat)
    requires WellFormed(img) && w.Inv() && Represents(img, k, w)
    requires t < SHELLS && n < |w.stacks[t]| && u < SHELLS && m < |w.stacks[u]| && (t != u || n != m)
    ensures |k.sched| == SHELLS && Ancestor(k, t, n) != Ancestor(k, u, m)
  {
    AncestorIs(img, k, w, t, n);
    AncestorIs(img, k, w, u, m);
    assert Has(w.stacks, t, |w.stacks[t]| - 1 - n) && Has(w.stacks, u, |w.stacks[u]| - 1 - m);
  }

  /** Together the chains are exactly the used slots, and the count is their total size. */
  lemma ChainsAreSlots(img: Image, k: KState, w: World, p: nat)
    requires WellFormed(img) && w.Inv() && Represents(img, k, w) && 0 < p <= MAX_PROGS
    ensures |k.slots| == MAX_PROGS && |k.sched| == SHELLS
    ensures k.slots[p - 1] == 1 <==> exists t, n :: 0 <= t < SHELLS && 0 <= n < |w.stacks[t]| && Ancestor(k, t, n) == p
    ensures k.count == |w.stacks[0]| + |w.stacks[1]| + |w.stacks[2]| <= MAX_PROGS
  {
    hide Program, Tables.Layout, WellFormed, PcbsOk, FramesOk, Follow;
    LiveArePids(w);
    if p in w.Live() {
      var t, i := w.place[p].t, w.place[p].i;
      AncestorIs(img, k, w, t, |w.stacks[t]| - 1 - i);
    } else {
      forall t, n | 0 <= t < SHELLS && 0 <= n < |w.stacks[t]|
        ensures Ancestor(k, t, n) != p
      {
        AncestorIs(img, k, w, t, n);
        assert Has(w.stacks, t, |w.stacks[t]| - 1 - n);
      }
    }
  }

  /** Agreement: `tss.esp0`, the masked stack pointer and the page walk all pick out the scheduled
      terminal's top process; its program is the one that is mapped. */
  lemma Agreement(img: Image, k: KState, w: World, esp: nat, vaddr: nat, userMode: bool)
    requires WellFormed(img) && w.Inv() && Represents(img, k, w)
    ensures k.cur < |k.sched| && |k.tables.dir| == |k.tables.low| == |k.tables.user| == ENTRIES
    ensures var p := k.sched[k.cur].processNum;
            && 0 < p <= MAX_PROGS && k.esp0 == StackTop(p)
            && (InStack(p, esp) ==> And(esp, STACKS_END - STACK_SIZE) in k.memory
                                    && k.memory[And(esp, STACKS_END - STACK_SIZE)].pid == p)
            && (USER_PROG <= vaddr < USER_PROG + FOUR_MB ==>
                  k.tables.Translate(vaddr, userMode) == Some(UserFrame(p) + (vaddr - USER_PROG)))
            && (KERNEL_ADDR <= vaddr < KERNEL_ADDR + FOUR_MB ==> k.tables.Translate(vaddr, false) == Some(vaddr))
            && UserFrame(p) in k.frames && Program(img, w.Top(w.cur).inode) == Some(k.frames[UserFrame(p)])
  {
    hide Program, Tables.Layout, Tables.Translate, SlotsOk, WellFormed, Placed;
    Facts(img, k, w);
    var p := w.Running();
    if InStack(p, esp) { MaskFindsPcb(p, esp); }
    WriteDir(k.tables, p, p);
    WalkFindsProcess(k.tables, p, vaddr, userMode);
    assert Has(w.stacks, w.cur, |w.stacks[w.cur]| - 1);
  }

  /** Isolation: no 32-bit address lets user code reach the kernel page or the frame of another
      live process. */
  lemma Isolation(img: Image, k: KState, w: World, vaddr: nat, q: nat)
    requires WellFormed(img) && w.Inv() && Represents(img, k, w)
    requires vaddr < 0x1_0000_0000 && q in w.Live() && q != w.Running()
    ensures |k.tables.dir| == |k.tables.low| == |k.tables.user| == ENTRIES && q > 0
    ensures match k.tables.Translate(vaddr, true)
            case None => true
            case Some(a) => !(UserFrame(q) <= a < UserFrame(q) + FOUR_MB) && !(KERNEL_ADDR <= a < KERNEL_ADDR + FOUR_MB)
  {
    hide Program, Tables.Layout, Tables.Translate, SlotsOk, WellFormed, Placed, PcbsOk, FramesOk;
    Facts(img, k, w);
    LiveArePids(w);
    assert q in ALL_PIDS;
    WriteDir(k.tables, w.Running(), w.Running());
    UserReach(k.tables, w.Running(), vaddr);
  }
}
