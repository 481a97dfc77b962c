/** The process table, scheduler and address space as the kernel keeps them: `launch`, `execute`,
    `halt`, exception exit, `vidmap` and the PIT tick. Each call refines one step of `Processes`. */
module Kernel {
  import opened Common
  import opened Options
  import opened Bits
  import opened Strings
  import opened FileSystem
  import opened Commands
  import opened FileTable
  import opened Paging
  import opened Processes
  import opened Loader
  import opened KernelState

  class Kernel {
    const img: Image
    const slots: array<int>        // process_array
    const sched: array<SchedNode>  // sched_arr
    const pages: PageTables
    var count: int                 // process_num
    var memory: Memory
    var frames: Frames
    var esp0: int
    var prev: int                  // prev_sched_term
    var cur: nat                   // cur_sched_term
    ghost var w: World

    ghost predicate Parts()
      reads this, pages
    {
      && WellFormed(img) && slots.Length == MAX_PROGS && sched.Length == SHELLS && pages.Valid()
      && slots != pages.dir as object && slots != pages.low as object && slots != pages.user as object
    }

    ghost function View(): KState
      reads this, slots, sched, pages, pages.dir, pages.low, pages.user
    {
      KState(slots[..], sched[..], pages.View(), count, memory, frames, esp0, cur)
    }

    /** State after `pit_init` and `init_paging`, before `launch`: ticks are still ignored. */
    ghost predicate Booted()
      reads this, slots, sched, pages, pages.dir, pages.low, pages.user
    {
      Parts() && prev == -1 && cur == 0 && sched[..] == BootNodes() && pages.View().Layout(0) && Aimed(0)
      && UserPageOk(pages.View(), None)
    }

    /** 0xB8000 leads to the screen of the scheduled terminal: the display if that terminal is
        visible, its own buffer if not. */
    ghost predicate Aimed(visible: nat)
      requires Parts()
      reads this, pages, pages.dir, pages.low, pages.user
    {
      pages.View().Translate(VIDEO_MEM_ADDR, false) == Some(if cur == visible then VIDEO_MEM_ADDR else BufferAddr(cur))
    }

    /** If the scheduled terminal uses `vidmap`, the user text page leads to its screen too. */
    ghost predicate UserAimed(visible: nat)
      requires Parts()
      reads this, sched, pages, pages.dir, pages.low, pages.user
    {
      cur < SHELLS && sched[cur].vidMap == 1 ==>
        pages.View().Translate(USER_VIDEO_MEM, true) == Some(if cur == visible then VIDEO_MEM_ADDR else BufferAddr(cur))
    }

    /** The concrete tables represent the abstract machine `w`. */
    ghost predicate Valid()
      reads this, slots, sched, pages, pages.dir, pages.low, pages.user
    {
      Parts() && 0 <= prev < SHELLS && w.Inv() && cur == w.cur && Represents(img, View(), w)
    }

    ghost function Locs(): set<object>
      reads this, pages
    {
      {this, slots, sched, pages.dir, pages.low, pages.user}
    }

    constructor (img: Image, lowAt: nat, userAt: nat)
      requires WellFormed(img)
      requires lowAt % PAGE_SIZE == 0 && userAt % PAGE_SIZE == 0 && lowAt != userAt
      ensures Booted() && this.img == img
      ensures fresh(slots) && fresh(sched) && fresh(pages) && fresh(pages.dir) && fresh(pages.low) && fresh(pages.user)
    {
      hide Tables.Layout, Tables.Translate, WellFormed;
      this.img := img;
      slots := new int[MAX_PROGS];
      sched := new SchedNode[SHELLS](_ => SchedNode(0, 0, 0, 0, 0));
      pages := new PageTables(lowAt, userAt);
      count, memory, frames, esp0, prev, cur := 0, map[], map[], STACKS_END, -1, 0;
      w := World([], map[], 0, [], Video([], {}, None));
      new;
      sched[0] := SchedNode(1, BufferAddr(0), 0, STACKS_END, STACKS_END);
      sched[1] := SchedNode(2, BufferAddr(1), 0, -1, -1);
      sched[2] := SchedNode(3, BufferAddr(2), 0, -1, -1);
    }

    // ----- pieces -----

    /** `get_pcb_add` finds the running process, wherever in its kernel stack esp is. */
    method GetPcb(esp: nat) returns (a: int)
      requires Valid() && InStack(w.Running(), esp)
      ensures 0 < w.Running() <= MAX_PROGS && a == PcbAddr(w.Running())
      ensures PcbFits(memory, w.stacks[w.cur], |w.stacks[w.cur]| - 1)
    {
      hide Represents;
      Facts(img, View(), w);
      MaskFindsPcb(w.Running(), esp);
      a := And(esp, STACKS_END - STACK_SIZE);
    }

    /** Maps the frame of `pid` and copies the program to 128 MB, that is, through the mapping. */
    method MapAndLoad(pid: nat, inode: nat, ghost top: nat) returns (ok: bool)
      requires Parts() && 0 < pid <= MAX_PROGS && pages.View().Layout(top)
      modifies this`frames, pages.dir
      ensures pages.View() == MapFrame(old(pages.View()), pid) && pages.View().Layout(pid)
      ensures ok == (inode < NumInodes(img))
      ensures ok ==> Program(img, inode).Some? && frames == old(frames)[UserFrame(pid) := Program(img, inode).value]
    {
      hide Tables.Layout;
      WriteDir(pages.View(), top, pid);
      pages.SetDirEntry(USER_PROG, EIGHT_MB + (pid - 1) * FOUR_MB);
      var program := ReadProgram(img, inode);
      if program.None? {
        return false;
      }
      assert pages.dir[32] == pages.View().dir[32];
      frames := frames[BigFrame(pages.dir[USER_PROG / FOUR_MB]) := program.value];
      return true;
    }

    /** Finds and marks the first free slot. */
    method TakeSlot(ghost live: set<nat>) returns (pid: nat)
      requires SlotsOk(slots[..], live) && LowestFree(live, 1).Some?
      modifies slots
      ensures pid == LowestFree(live, 1).value && 0 < pid <= MAX_PROGS
      ensures slots[..] == old(slots[..])[pid - 1 := 1]
    {
      var i := 0;
      while slots[i] != -1
        invariant i < MAX_PROGS && LowestFree(live, 1) == LowestFree(live, i + 1)
        decreases MAX_PROGS - i
      {
        assert slots[..][i] == slots[i];
        i := i + 1;
      }
      assert slots[..][i] == slots[i];
      slots[i] := 1;
      return i + 1;
    }

    /** Closes every descriptor of the process whose control block is at `a`, as `halt` does. */
    method CloseAll(a: int)
      requires a in memory && |memory[a].fdt| == MAX_FD_NUM + 1
      modifies this`memory
      ensures a in memory && memory == old(memory)[a := old(memory)[a].(fdt := memory[a].fdt)]
      ensures AllClosed(old(memory)[a].fdt, memory[a].fdt)
    {
      ghost var b0 := memory[a];
      for i := 0 to MAX_FD_NUM + 1
        invariant a in memory && memory == old(memory)[a := b0.(fdt := memory[a].fdt)]
        invariant |memory[a].fdt| == MAX_FD_NUM + 1
        invariant forall j :: 0 <= j <= MAX_FD_NUM && (j < 2 || i <= j) ==> memory[a].fdt[j] == b0.fdt[j]
        invariant forall j :: 2 <= j < i ==> memory[a].fdt[j] == ClosedDesc(b0.fdt[j])
      {
        if 2 <= i && memory[a].fdt[i].flags == IN_USE {
          var b := memory[a];
          memory := memory[a := b.(fdt := b.fdt[i := b.fdt[i].(flags := FREE)])];
        }
      }
    }

    // ----- launch -----

    method FreeSlots()
      requires Booted()
      modifies slots
      ensures Booted() && slots[..] == [-1, -1, -1, -1, -1, -1]
    {
      for i := 0 to MAX_PROGS
        invariant Booted() && forall j :: 0 <= j < i ==> slots[j] == -1
      {
        slots[i] := -1;
      }
    }

    /** Maps and loads the shell for pids 3, 2, 1, in this order. */
    method LoadShells(inode: nat)
      requires Parts() && inode < NumInodes(img) && pages.View().Layout(0)
      requires slots[..] == [-1, -1, -1, -1, -1, -1]
      modifies this`frames, slots, pages.dir
      ensures pages.View().Layout(1)
      ensures slots[..] == [1, 1, 1, -1, -1, -1]
      ensures Program(img, inode).Some? && ShellFrames(frames, Program(img, inode).value)
    {
      hide Tables.Layout;
      assert forall j :: 0 <= j < MAX_PROGS ==> slots[j] == slots[..][j];
      for i := SHELLS downto 0
        invariant Parts()
        invariant pages.View().Layout(if i == SHELLS then 0 else i + 1)
        invariant forall j :: 0 <= j < MAX_PROGS ==> slots[j] == (if i <= j < SHELLS then 1 else -1)
        invariant i < SHELLS ==> Program(img, inode).Some?
        invariant forall p :: i < p <= SHELLS ==>
                    UserFrame(p) in frames && frames[UserFrame(p)] == Program(img, inode).value
      {
        var ok := MapAndLoad(i + 1, inode, if i + 1 == SHELLS then 0 else i + 2);
        if !ok {
          assert false;
        }
        slots[i] := 1;
      }
    }

    /** Three control blocks that differ in their pid only; where a shell's parent would return to
        is never written. */
    method WritePcbs(junkFds: seq<FileDesc>, junkEsp: int, junkEbp: int)
      requires |junkFds| == MAX_FD_NUM + 1
      modifies this`memory
      ensures ShellPcbs(memory, junkFds, junkEsp, junkEbp)
    {
      var pcb := Pcb(0, 0, junkEsp, junkEbp, NewTable(junkFds), Padded([], BUF_LENGTH), 0);
      for i := 0 to SHELLS
        invariant forall p :: 0 < p <= i ==> PcbAddr(p) in memory && memory[PcbAddr(p)] == pcb.(pid := p)
      {
        memory := memory[STACKS_END - (i + 1) * STACK_SIZE := pcb.(pid := i + 1)];
      }
    }

    /** `launch`: fails, with no process started, exactly when there is no executable called
        "shell"; otherwise leaves three shells with terminal 0 running. */
    method Launch(junk: Bytes, junkFds: seq<FileDesc>, junkEsp: int, junkEbp: int) returns (r: int)
      requires Booted() && |junk| == NAME_LENGTH && |junkFds| == MAX_FD_NUM + 1
      modifies Locs()
      ensures r == 0 <==> Loadable(img, SHELL_NAME, junk).Some?
      ensures r == 0 ==> Valid() && w == Launched([], Loadable(img, SHELL_NAME, junk).value)
                         && ShellPcbs(memory, junkFds, junkEsp, junkEbp)
      ensures r == 0 ==> Aimed(0)
      ensures r != 0 ==> r == -1 && Booted()
    {
      hide Tables.Layout, Tables.Translate, Loadable, Represents;
      ghost var t := pages.View();
      FreeSlots();
      ShellNameString();
      var program := Load(img, SHELL_NAME + [NUL], junk);
      if program.None? {
        return -1;
      }
      LoadShells(program.value);
      SameLow(t, pages.View(), 0, 1);
      count := SHELLS;
      WritePcbs(junkFds, junkEsp, junkEbp);
      esp0 := STACKS_END;
      prev := 0;
      w := Launched([], program.value);
      LaunchedOk(img, View(), junkFds, junkEsp, junkEbp, program.value);
      return 0;
    }

    // ----- system calls and interrupts -----

    /** `execute`. Either it fails and changes nothing, or it starts the program the command names,
        in the lowest free slot, on top of the scheduled terminal's stack. */
    method Execute(command: Bytes, ebp: int, junk: Bytes, junkFds: seq<FileDesc>) returns (e: Event)
      requires Valid() && NUL in command && |junk| == NAME_LENGTH && |junkFds| == MAX_FD_NUM + 1
      modifies Locs()
      ensures Valid() && prev == old(prev)
      ensures Follows(old(w), w, ExecuteOp(img, command, ebp, junk), e)
      ensures pages.low[..] == old(pages.low[..])
      ensures forall t :: 0 <= t < SHELLS && t != cur ==> sched[t] == old(sched[t])
      ensures e == Failed ==> View() == old(View())
      ensures e == Failed <==> old(count) == MAX_PROGS ||
                               Loadable(img, ProgramName(CStr(command, |command|)), junk).None?
      ensures e.Entered? ==> w.Top(w.cur).pid == e.pid && w.Top(w.cur).args == CommandArgs(command)
                             && Loadable(img, ProgramName(CStr(command, |command|)), junk) == Some(w.Top(w.cur).inode)
      ensures e.Entered? ==> PcbAddr(e.pid) in memory && memory[PcbAddr(e.pid)].fdt == NewTable(junkFds)
                             && memory[PcbAddr(e.pid)].vidmem == 0
    {
      hide Represents, Loadable, Placed;
      Facts(img, View(), w);
      if count >= MAX_PROGS {
        return Failed;
      }
      var filename, i := SplitName(command);
      NameString(filename[..], i);
      var program := Load(img, filename[..], junk);
      if program.None? {
        return Failed;
      }
      var args := SplitArgs(command, i);
      CountLeavesSlot(w);
      e := StartProcess(program.value, args, ebp, junkFds,
                        Frame(LowestFree(w.Live(), 1).value, ebp, CommandArgs(command), program.value));
    }

    /** The rest of `execute`, once the command is known to name an executable. */
    method StartProcess(inode: nat, args: Bytes, ebp: int, junkFds: seq<FileDesc>, ghost f: Frame) returns (e: Event)
      requires Valid() && inode < NumInodes(img) && |junkFds| == MAX_FD_NUM + 1
      requires LowestFree(w.Live(), 1) == Some(f.pid)
      requires args == Padded(f.args, BUF_LENGTH) && f.inode == inode && f.callerEbp == ebp
      modifies Locs()
      ensures Valid() && prev == old(prev)
      ensures pages.low[..] == old(pages.low[..])
      ensures forall t :: 0 <= t < SHELLS && t != cur ==> sched[t] == old(sched[t])
      ensures e == Entered(f.pid) && w == old(w).Push(f)
      ensures PcbAddr(e.pid) in memory && memory[PcbAddr(e.pid)].fdt == NewTable(junkFds)
                             && memory[PcbAddr(e.pid)].vidmem == 0
    {
      hide Represents, Tables.Layout, Placed, Program, WellFormed;
      Facts(img, View(), w);
      ghost var k := View();
      var pid := TakeSlot(w.Live());
      var ok := MapAndLoad(pid, inode, w.Running());
      if !ok {
        assert false;
      }
      WritePcb(pid, ebp, args, junkFds, k, f);
      return Entered(pid);
    }

    /** The end of `execute`: the control block and the bookkeeping of the new process. */
    method WritePcb(pid: nat, ebp: int, args: Bytes, junkFds: seq<FileDesc>, ghost k: KState, ghost f: Frame)
      requires Parts() && 0 <= prev < SHELLS && w.Inv() && cur == w.cur && Represents(img, k, w)
      requires LowestFree(w.Live(), 1) == Some(f.pid) && pid == f.pid
      requires |k.tables.dir| == ENTRIES && |k.slots| == MAX_PROGS
      requires View() == k.(slots := k.slots[pid - 1 := 1], tables := MapFrame(k.tables, pid), frames := frames)
      requires Program(img, f.inode).Some? && frames == k.frames[UserFrame(pid) := Program(img, f.inode).value]
      requires args == Padded(f.args, BUF_LENGTH) && f.callerEbp == ebp && |junkFds| == MAX_FD_NUM + 1
      modifies this, sched
      ensures Valid() && prev == old(prev) && w == old(w).Push(f)
      ensures forall t :: 0 <= t < SHELLS && t != cur ==> sched[t] == old(sched[t])
      ensures PcbAddr(pid) in memory && memory[PcbAddr(pid)].fdt == NewTable(junkFds)
              && memory[PcbAddr(pid)].vidmem == 0
    {
      hide Represents, Tables.Layout, Placed, Program, WellFormed, SlotsOk, PcbFits;
      Facts(img, k, w);
      var parent := sched[cur].processNum;
      assert parent == View().sched[cur].processNum;
      var pcb := Pcb(pid, parent, STACKS_END - (parent - 1) * STACK_SIZE, ebp, NewTable(junkFds), args, 0);
      count := count + 1;
      sched[cur] := sched[cur].(processNum := pid);
      memory := memory[STACKS_END - pid * STACK_SIZE := pcb];
      esp0 := STACKS_END - (pid - 1) * STACK_SIZE;
      StartOk(img, k, w, f, pcb, Program(img, f.inode).value);
      w := w.Push(f);
      assert sched[..] == k.sched[k.cur := k.sched[k.cur].(processNum := pid)];
      assert View() == AfterStart(k, pcb, frames);
    }

    /** Unlinks the running process, whose control block is at `a`, in favour of its parent: the
        common effect of `halt` and of an exception. */
    method Leave(a: int)
      requires Valid() && |w.stacks[w.cur]| > 1 && a == PcbAddr(w.Running())
      modifies Locs()
      ensures Valid() && w == old(w).Pop() && prev == old(prev)
      ensures pages.low[..] == old(pages.low[..])
      ensures forall t :: 0 <= t < SHELLS && t != cur ==> sched[t] == old(sched[t])
      ensures a in old(memory) && sched[cur].vidMap == if old(memory)[a].vidmem != 0 then 0 else old(sched[cur]).vidMap
      ensures a in memory && memory[a].parentEbp == old(w).Top(old(w).cur).callerEbp
      ensures a in old(memory) && AllClosed(old(memory)[a].fdt, memory[a].fdt)
    {
      hide Represents, Tables.Layout, Placed;
      Facts(img, View(), w);
      ghost var k := View();
      CloseAll(a);
      Unlink(memory[a], k);
      LeaveOk(img, k, w, memory[a]);
      w := w.Pop();
    }

    /** Takes the process with control block `b` out of the tables. */
    method Unlink(b: Pcb, ghost k: KState)
      requires Parts() && 0 < b.pid <= MAX_PROGS && 0 < b.parentPid <= MAX_PROGS && cur < SHELLS
      requires View() == k.(memory := k.memory[PcbAddr(b.pid) := b])
      modifies this`count, this`esp0, slots, sched, pages.dir
      ensures |k.slots| == MAX_PROGS && |k.sched| == SHELLS && |k.tables.dir| == ENTRIES
      ensures View() == AfterLeave(k, b)
    {
      hide WellFormed;
      assert |View().tables.dir| == ENTRIES;
      count := count - 1;
      slots[b.pid - 1] := -1;
      esp0 := b.parentEsp;
      sched[cur] := sched[cur].(processNum := b.parentPid, esp := b.parentEsp, ebp := b.parentEbp);
      pages.SetDirEntry(USER_PROG, EIGHT_MB + (b.parentPid - 1) * FOUR_MB);
      if b.vidmem != 0 {
        sched[cur] := sched[cur].(vidMap := 0);
      }
      assert slots[..] == k.slots[b.pid - 1 := -1];
      assert sched[..] == AfterLeave(k, b).sched;
    }

    /** `halt`: a base shell starts over with nothing changed; any other process gives way to its
        parent, whose pending `execute` returns the status. */
    method Halt(esp: nat, status: byte) returns (e: Event)
      requires Valid() && InStack(w.Running(), esp)
      modifies Locs()
      ensures Valid() && prev == old(prev)
      ensures Follows(old(w), w, Op.Halt(esp, status), e)
      ensures pages.low[..] == old(pages.low[..])
      ensures forall t :: 0 <= t < SHELLS && t != cur ==> sched[t] == old(sched[t])
      ensures e == ShellRestarted ==> View() == old(View())
      ensures e != ShellRestarted ==> DiesClosed(old(memory), memory, old(w).Running())
    {
      hide Represents, Placed;
      var a := GetPcb(esp);
      BaseIsShell(w);
      if memory[a].pid == 1 || memory[a].pid == 2 || memory[a].pid == 3 {
        return ShellRestarted;
      }
      Leave(a);
      return Returned(memory[a].parentEbp, status as int);
    }

    /** Exception exit of a process with a parent. */
    method Fault(esp: nat) returns (e: Event)
      requires Valid() && Enabled(w, Op.Fault(esp))
      modifies Locs()
      ensures Valid() && prev == old(prev)
      ensures Follows(old(w), w, Op.Fault(esp), e)
      ensures pages.low[..] == old(pages.low[..])
      ensures forall t :: 0 <= t < SHELLS && t != cur ==> sched[t] == old(sched[t])
      ensures DiesClosed(old(memory), memory, old(w).Running())
    {
      hide Represents, Placed;
      var a := GetPcb(esp);
      Leave(a);
      return Returned(memory[a].parentEbp, 256);
    }

    /** The PIT tick, with `visible` the terminal on display; ignored before `launch`. */
    method Tick(esp: nat, ebp: int, visible: nat) returns (e: Event)
      requires Booted() || (Valid() && Enabled(w, Op.Tick(esp, ebp, visible)))
      modifies Locs()
      ensures old(prev == -1) ==> Booted() && View() == old(View()) && e == Done
      ensures old(prev != -1) ==> Valid() && Follows(old(w), w, Op.Tick(esp, ebp, visible), e) && prev == old(cur)
      ensures old(prev != -1) ==> sched[..] == old(sched[..])[old(cur) := old(sched[cur]).(esp := esp, ebp := ebp)]
      ensures old(prev != -1) && sched[cur].vidMap != 1 ==> pages.user[..] == old(pages.user[..])
      ensures old(prev != -1) ==> Aimed(visible) && UserAimed(visible)
      ensures old(prev != -1) && e.Resumed? ==> InStack(w.Running(), e.ctx.esp)
    {
      hide Represents, Placed, Tables.Layout;
      if prev == -1 {
        return Done;
      }
      prev := cur;
      cur := (cur + 1) % SHELLS;
      e := SwitchProcess(esp, ebp, visible);
    }

    method SwitchProcess(esp: nat, ebp: int, visible: nat) returns (e: Event)
      requires Parts() && w.Inv() && Enabled(w, Op.Tick(esp, ebp, visible))
      requires prev == w.cur && cur == (w.cur + 1) % SHELLS && Represents(img, View().(cur := w.cur), w)
      modifies Locs()
      ensures Valid() && prev == old(prev)
      ensures Follows(old(w), w, Op.Tick(esp, ebp, visible), e)
      ensures sched[..] == old(sched[..])[prev := old(sched[prev]).(esp := esp, ebp := ebp)]
      ensures sched[cur].vidMap != 1 ==> pages.user[..] == old(pages.user[..])
      ensures Aimed(visible) && UserAimed(visible)
    {
      hide Represents, Placed, Tables.Layout, Tables.Translate, WellFormed, AfterSwitch;
      ghost var k := View().(cur := w.cur);
      Facts(img, k, w);
      NextFacts(img, k, w);
      SwitchOk(img, k, w, Ctx(esp, ebp), visible);
      assert sched[cur] == k.sched[cur];
      SwitchOut(esp, ebp, visible, k);
      w := w.Rotate(Ctx(esp, ebp), visible);
      if sched[cur].esp == -1 {
        return FreshStart;
      }
      return Resumed(Ctx(sched[cur].esp, sched[cur].ebp));
    }

    /** The mappings for the next process, and the context of the previous one into its node. */
    method SwitchOut(esp: nat, ebp: int, visible: nat, ghost k: KState)
      requires Parts() && View() == k.(cur := cur) && prev == k.cur < SHELLS && cur == (k.cur + 1) % SHELLS
      requires 0 < k.sched[cur].processNum <= MAX_PROGS && k.sched[cur].videoBuffer == BufferAddr(cur)
      modifies this`esp0, sched, pages.dir, pages.low, pages.user
      ensures View() == AfterSwitch(k, Ctx(esp, ebp), VideoPage(if cur == visible then 0 else cur + 1))
      ensures sched[..] == old(sched[..])[prev := old(sched[prev]).(esp := esp, ebp := ebp)]
      ensures sched[cur] == old(sched[cur]) && (sched[cur].vidMap != 1 ==> pages.user[..] == old(pages.user[..]))
    {
      assert sched[cur] == k.sched[cur];
      SwitchMaps(if cur == visible then VIDEO_MEM_ADDR else sched[cur].videoBuffer, k, Ctx(esp, ebp));
      sched[prev] := sched[prev].(esp := esp, ebp := ebp);
      assert sched[..] == k.sched[k.cur := k.sched[k.cur].(esp := esp, ebp := ebp)];
    }

    /** The first half of `switch_process`: the stack pointer for the next process and all three
        mappings, with `target` the page its screen output goes to. */
    method SwitchMaps(target: nat, ghost k: KState, ghost c: Ctx)
      requires Parts() && cur == (k.cur + 1) % SHELLS && View() == k.(cur := cur) && target % PAGE_SIZE == 0
      requires k.cur < SHELLS && 0 < k.sched[cur].processNum <= MAX_PROGS
      modifies this`esp0, pages.dir, pages.low, pages.user
      ensures View() == AfterSwitch(k, c, target).(sched := k.sched)
    {
      var next := sched[cur];
      assert next == View().sched[cur];
      esp0 := STACKS_END - (next.processNum - 1) * STACK_SIZE;
      Remap(pages, next.processNum, next.vidMap == 1, target);
    }

    /** The mappings of a keyboard interrupt: the display while the key is handled, then the
        scheduled terminal's page again, with `visible` the terminal on display by then. */
    method KeyInterrupt(visible: nat)
      requires Valid() && visible < SHELLS
      modifies pages.low
      ensures Valid() && View() == old(View()).(tables := View().tables)
      ensures Aimed(visible)
    {
      hide Represents, Placed, Tables.Layout, Tables.Translate, WellFormed;
      ghost var k := View();
      Facts(img, k, w);
      AimOk(img, k, w, if cur == visible then 0 else cur + 1);
      pages.SetTable1Entry(VIDEO_MEM_ADDR, VIDEO_MEM_ADDR);
      if cur != visible {
        assert sched[cur] == k.sched[cur];
        pages.SetTable1Entry(VIDEO_MEM_ADDR, sched[cur].videoBuffer);
      }
      ghost var page := if cur == visible then 0 else cur + 1;
      assert View() == k.(tables := k.tables.(low := k.tables.low[0xB8 := VideoPage(page) + USER_MODE]));
    }

    /** `vidmap`: maps the user video page and records it for the scheduled terminal only. */
    method Vidmap(esp: nat, screenStart: nat) returns (e: Event)
      requires Valid() && InStack(w.Running(), esp)
      modifies Locs()
      ensures Valid() && prev == old(prev)
      ensures Follows(old(w), w, Op.Vidmap(esp, screenStart), e)
      ensures pages.low[..] == old(pages.low[..])
      ensures e == Failed ==> View() == old(View())
      ensures e == Done ==> pages.View().Translate(USER_VIDEO_MEM, true) == Some(VIDEO_MEM_ADDR)
      ensures e == Done ==> sched[cur] == old(sched[cur]).(vidMap := 1)
      ensures e == Done ==> PcbAddr(w.Running()) in memory && memory[PcbAddr(w.Running())].vidmem == 1
      ensures forall t :: 0 <= t < SHELLS && t != cur ==> sched[t] == old(sched[t])
    {
      hide Represents, Placed, Tables.Layout, Tables.Translate, WellFormed;
      if screenStart == 0 || screenStart < USER_PROG || screenStart >= USER_PROG_END {
        return Failed;
      }
      Facts(img, View(), w);
      var a := GetPcb(esp);
      VidmapOk(img, View(), w);
      RecordVidmap(a, w.Running());
      w := w.Mapped();
      return Done;
    }

    /** The three writes of `vidmap`. */
    method RecordVidmap(a: int, ghost pid: nat)
      requires Parts() && a in memory && a == PcbAddr(pid) && cur < SHELLS
      modifies this`memory, sched, pages.user
      ensures a in old(View()).memory && old(View()).cur < |old(View()).sched| && |old(View()).tables.user| == ENTRIES
      ensures View() == AfterVidmap(old(View()), pid)
      ensures sched[..] == old(sched[..])[cur := old(sched[cur]).(vidMap := 1)]
    {
      hide WellFormed;
      memory := memory[a := memory[a].(vidmem := 1)];
      sched[cur] := sched[cur].(vidMap := 1);
      pages.SetTable2Entry(USER_VIDEO_MEM, VIDEO_MEM_ADDR);
    }

    /** `getargs` of the running process hands back exactly what its `execute` was given. */
    method GetArgs(esp: nat, buf: array<byte>, bufAddr: nat, nbytes: int) returns (r: int)
      requires Valid() && InStack(w.Running(), esp) && Int32(nbytes)
      requires GetArgsPasses(w.Top(w.cur).args, bufAddr, nbytes) ==> 0 <= nbytes <= buf.Length
      modifies buf
      ensures var a := w.Top(w.cur).args;
              if GetArgsPasses(a, bufAddr, nbytes) then
                r == 0 && buf[..] == Padded(a, nbytes) + old(buf[nbytes..])
              else r == -1 && buf[..] == old(buf[..])
    {
      hide Represents, Padded, CStr;
      var a := GetPcb(esp);
      HasNul(w.Top(w.cur).args);
      CStrPadded(w.Top(w.cur).args, BUF_LENGTH);
      r := Commands.GetArgs(memory[a].args, buf, bufAddr, nbytes);
    }

    // ----- whole runs -----

    /** Any sequence of system calls, exceptions, ticks and key interrupts from a valid state keeps
        the tables representing the machine, which runs the corresponding steps, keeps 0xB8000 on
        the screen of the scheduled terminal, and never writes the node of a terminal that is not
        scheduled. */
    method RunCalls(calls: seq<Call>, ghost visible: nat)
      requires Valid() && CanRun(w, Ops(img, calls)) && Aimed(visible)
      modifies Locs()
      ensures Valid() && w == Run(old(w), Ops(img, calls)) && Aimed(Visible(calls, visible))
      ensures forall t: nat :: t < SHELLS && Unscheduled(old(w), Ops(img, calls), t) ==> sched[t] == old(sched[t])
    {
      hide Unscheduled;
      hide Represents, Placed, Loadable, Tables.Translate, Tables.Layout, Ops, OpOf, Visible, Step, Enabled;
      NoCalls(img, visible);
      ghost var v := visible;
      for i := 0 to |calls|
        invariant Valid() && CanRun(w, Ops(img, calls[i..])) && Aimed(v)
        invariant Run(w, Ops(img, calls[i..])) == Run(old(w), Ops(img, calls))
        invariant Visible(calls[i..], v) == Visible(calls, visible)
        invariant forall t: nat :: t < SHELLS && Unscheduled(old(w), Ops(img, calls), t) ==>
                    sched[t] == old(sched[t]) && Unscheduled(w, Ops(img, calls[i..]), t)
      {
        ghost var w0, ops := w, Ops(img, calls[i..]);
        assert calls[i..][1..] == calls[i + 1..];
        FirstCall(img, calls[i..], v);
        if calls[i].Key? {
          KeyInterrupt(calls[i].visible);
        } else {
          NextCall(calls[i], v);
          forall t: nat | t < SHELLS && Unscheduled(old(w), Ops(img, calls), t)
            ensures t != w0.cur && Unscheduled(w, Ops(img, calls[i + 1..]), t)
          {
            UnscheduledHead(w0, ops, t);
          }
        }
        v := Visible([calls[i]], v);
      }
      assert calls[|calls|..] == [] && calls[0..] == calls;
    }

    /** One call; where 0xB8000 leads depends on neither the new directory entry nor the user table. */
    method NextCall(c: Call, ghost visible: nat)
      requires Valid() && !c.Key? && Enabled(w, OpOf(img, c)) && Aimed(visible)
      modifies Locs()
      ensures Valid() && w == Step(old(w), OpOf(img, c)) && Aimed(if c.Tick? then c.visible else visible)
      ensures forall t :: 0 <= t < SHELLS && t != old(cur) ==> sched[t] == old(sched[t])
    {
      hide Represents, Placed, OpOf, Step, Outcome, Enabled, Tables.Translate, Tables.Layout;
      Facts(img, View(), w);
      ghost var t, v := pages.View(), w;
      var e := PerformCall(c);
      if !c.Tick? {
        Facts(img, View(), w);
        SameLow(t, pages.View(), v.Running(), w.Running());
        OpOfTick(img, c);
        StepSchedule(v, OpOf(img, c));
      }
    }

    method PerformCall(c: Call) returns (e: Event)
      requires Valid() && !c.Key? && Enabled(w, OpOf(img, c))
      modifies Locs()
      ensures Valid() && Follows(old(w), w, OpOf(img, c), e)
      ensures if c.Tick? then Aimed(c.visible) else pages.low[..] == old(pages.low[..])
      ensures forall t :: 0 <= t < SHELLS && t != old(cur) ==> sched[t] == old(sched[t])
    {
      hide Represents, Placed, Loadable, Tables.Translate, Tables.Layout;
      match c
      case Execute(command, ebp, junk, junkFds) => e := Execute(command, ebp, junk, junkFds);
      case Halt(esp, status) => e := Halt(esp, status);
      case Fault(esp) => e := Fault(esp);
      case Tick(esp, ebp, visible) => e := Tick(esp, ebp, visible);
      case Vidmap(esp, screenStart) => e := Vidmap(esp, screenStart);
    }
  }

  /** A call with everything it takes from its surroundings. */
  datatype CallRaw =
    | Execute(command: Bytes, ebp: int, junk: Bytes, junkFds: seq<FileDesc>)
    | Halt(esp: nat, status: byte)
    | Fault(esp: nat)
    | Tick(esp: nat, ebp: int, visible: nat)
    | Vidmap(esp: nat, screenStart: nat)
    | Key(visible: nat)  // a key interrupt that leaves this terminal on display

  type Call = c: CallRaw |
    && (c.Execute? ==> NUL in c.command && |c.junk| == NAME_LENGTH && |c.junkFds| == MAX_FD_NUM + 1)
    && (c.Key? ==> c.visible < SHELLS)
    witness CallRaw.Fault(0)

  /** The terminal on display after some calls. */
  function Visible(calls: seq<Call>, visible: nat): nat {
    if calls == [] then visible
    else Visible(calls[1..], if calls[0].Tick? || calls[0].Key? then calls[0].visible else visible)
  }

  ghost function OpOf(img: Image, c: Call): Op
    requires WellFormed(img) && !c.Key?
  {
    match c
    case Execute(command, ebp, junk, _) => ExecuteOp(img, command, ebp, junk)
    case Halt(esp, status) => Op.Halt(esp, status)
    case Fault(esp) => Op.Fault(esp)
    case Tick(esp, ebp, visible) => Op.Tick(esp, ebp, visible)
    case Vidmap(esp, screenStart) => Op.Vidmap(esp, screenStart)
  }

  ghost function Ops(img: Image, calls: seq<Call>): seq<Op>
    requires WellFormed(img)
  {
    if calls == [] then []
    else (if calls[0].Key? then [] else [OpOf(img, calls[0])]) + Ops(img, calls[1..])
  }

  lemma NoCalls(img: Image, visible: nat)
    requires WellFormed(img)
    ensures Ops(img, []) == [] && forall v :: Visible([], v) == v
  {
  }

  lemma OpOfTick(img: Image, c: Call)
    requires WellFormed(img) && !c.Key?
    ensures OpOf(img, c).Tick? <==> c.Tick?
  {
  }

  lemma FirstCall(img: Image, calls: seq<Call>, visible: nat)
    requires WellFormed(img) && calls != []
    ensures var rest := Ops(img, calls[1..]);
            if calls[0].Key? then Ops(img, calls) == rest
            else Ops(img, calls) != [] && Ops(img, calls)[0] == OpOf(img, calls[0]) && Ops(img, calls)[1..] == rest
    ensures Visible([calls[0]], visible) == if calls[0].Tick? || calls[0].Key? then calls[0].visible else visible
    ensures Visible(calls, visible) == Visible(calls[1..], Visible([calls[0]], visible))
  {
    hide OpOf;
    assert [calls[0]][1..] == [];
  }
}
