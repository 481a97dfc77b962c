/** The page directory and the two page tables, and the hardware walk through them
    (section 4.3, 32-Bit Paging, of the Intel SDM Volume 3A). */
module Paging {
  import opened Bits
  import opened Common
  import opened Options

  const ENTRIES := 1024
  const PAGE_SIZE := 0x1000
  const EIGHT_MB := 0x80_0000
  const KERNEL_ADDR := 0x40_0000
  const VIDEO_MEM_ADDR := 0xB_8000
  const USER_VIDEO_MEM := 0x450_0000

  const RW_NOT_PRESENT := 0x02
  const RW_PRESENT := 0x03
  const USER_MODE := 0x07
  const KERNEL_FLAGS := 0x83
  const PROG_FLAGS := 0x87

  /** Physical page of terminal t's background screen buffer. */
  function BufferAddr(t: nat): nat { VIDEO_MEM_ADDR + (t + 1) * PAGE_SIZE }

  /** 4 MB user frame of process `pid`. */
  function UserFrame(pid: nat): nat
    requires pid > 0
  {
    EIGHT_MB + (pid - 1) * FOUR_MB
  }

  // ----- what the hardware does with an entry -----

  predicate Present(entry: nat) { entry % 2 == 1 }

  predicate UserAllowed(entry: nat) { entry / 4 % 2 == 1 }

  predicate BigPage(entry: nat) { entry / 0x80 % 2 == 1 }

  function BigFrame(entry: nat): nat { entry / FOUR_MB * FOUR_MB }

  function SmallFrame(entry: nat): nat { entry / PAGE_SIZE * PAGE_SIZE }

  /** Contents of the three static arrays together with the physical addresses of the tables. */
  datatype Tables = Tables(dir: seq<nat>, low: seq<nat>, user: seq<nat>, lowAt: nat, userAt: nat) {

    ghost predicate Shape() {
      && |dir| == |low| == |user| == ENTRIES
      && lowAt % PAGE_SIZE == 0 && userAt % PAGE_SIZE == 0 && lowAt != userAt
    }

    /** Two-level walk of a 32-bit virtual address. */
    function Translate(vaddr: nat, userMode: bool): Option<nat>
      requires |dir| == |low| == |user| == ENTRIES
      requires vaddr < 0x1_0000_0000
    {
      var pde := dir[vaddr / FOUR_MB];
      if !Present(pde) || (userMode && !UserAllowed(pde)) then None
      else if BigPage(pde) then Some(BigFrame(pde) + vaddr % FOUR_MB)
      else if SmallFrame(pde) == lowAt then TranslateSmall(low, vaddr, userMode)
      else if SmallFrame(pde) == userAt then TranslateSmall(user, vaddr, userMode)
      else None
    }

    static function TranslateSmall(table: seq<nat>, vaddr: nat, userMode: bool): Option<nat>
      requires |table| == ENTRIES
    {
      var pte := table[vaddr / PAGE_SIZE % ENTRIES];
      if !Present(pte) || (userMode && !UserAllowed(pte)) then None
      else Some(SmallFrame(pte) + vaddr % PAGE_SIZE)
    }

    /** The entries the kernel ever writes, with `top` the process whose program is mapped
        (0 before the first program is mapped). */
    ghost predicate Layout(top: nat) {
      && Shape()
      && dir[0] == lowAt + RW_PRESENT
      && dir[1] == KERNEL_ADDR + KERNEL_FLAGS
      && dir[17] == userAt + USER_MODE
      && dir[32] == (if top == 0 then RW_NOT_PRESENT else UserFrame(top) + PROG_FLAGS)
      && (forall i :: 0 <= i < ENTRIES && i !in {0, 1, 17, 32} ==> dir[i] == RW_NOT_PRESENT)
      && (forall i :: 0 <= i < ENTRIES && i != 256 ==> !Present(user[i]))
      && (Present(user[256]) ==> exists k :: 0 <= k <= 3 && user[256] == VIDEO_MEM_ADDR + k * PAGE_SIZE + USER_MODE)
    }
  }

  /** What the walk makes of an entry that points to a table or to a 4 KB page. */
  lemma SmallEntry(at: nat, flags: nat)
    requires at % PAGE_SIZE == 0 && flags in {RW_PRESENT, USER_MODE}
    ensures Present(at + flags) && !BigPage(at + flags) && SmallFrame(at + flags) == at
    ensures UserAllowed(at + flags) <==> flags == USER_MODE
  {
    SmallEntryAt(at / PAGE_SIZE, at, flags);
  }

  lemma SmallEntryAt(q: nat, at: nat, flags: nat)
    requires at == PAGE_SIZE * q && flags in {RW_PRESENT, USER_MODE}
    ensures Present(at + flags) && !BigPage(at + flags) && SmallFrame(at + flags) == at
    ensures UserAllowed(at + flags) <==> flags == USER_MODE
  {
    if flags == USER_MODE { Parts(q, 7, 1); } else { Parts(q, 3, 0); }
  }

  lemma Parts(q: nat, flags: nat, rest: nat)
    requires flags == 4 * rest + 3 && rest < 8
    ensures var e := 0x1000 * q + flags;
            e / 0x1000 == q && e / 0x80 % 2 == 0 && e / 4 % 2 == rest % 2 && e % 2 == 1
  {
    var e := 0x1000 * q + flags;
    By4096(e, q, flags);
    By128(e, 32 * q, flags);
    By2(32 * q, 16 * q, 0);
    By4(e, 1024 * q + rest, 3);
    By2(1024 * q + rest, 512 * q + rest / 2, rest % 2);
    By2(e, 2048 * q + 2 * rest + 1, 1);
  }

  lemma AbsentEntry(i: nat)
    ensures !Present(i * PAGE_SIZE + RW_NOT_PRESENT)
  {
    assert i * PAGE_SIZE + RW_NOT_PRESENT == 2 * (i * 0x800 + 1);
  }

  /** What it makes of the other entries the kernel writes. */
  lemma OtherEntries(pid: nat)
    ensures !Present(RW_NOT_PRESENT)
    ensures var e := KERNEL_ADDR + KERNEL_FLAGS;
            Present(e) && BigPage(e) && !UserAllowed(e) && BigFrame(e) == KERNEL_ADDR
    ensures 0 < pid <= MAX_PROGS ==> var e := UserFrame(pid) + PROG_FLAGS;
            Present(e) && BigPage(e) && UserAllowed(e) && BigFrame(e) == UserFrame(pid)
  {
    if 0 < pid <= MAX_PROGS {
      assert UserFrame(pid) + PROG_FLAGS == (pid + 1) * FOUR_MB + PROG_FLAGS;
    }
  }

  /** Every kernel-mode access to the kernel page is the identity, and every access to the
      program region, in either mode, lands in the frame of the mapped process. */
  lemma WalkFindsProcess(t: Tables, pid: nat, vaddr: nat, userMode: bool)
    requires t.Layout(pid) && 0 < pid <= MAX_PROGS
    ensures KERNEL_ADDR <= vaddr < KERNEL_ADDR + FOUR_MB ==>
              t.Translate(vaddr, false) == Some(vaddr) && t.Translate(vaddr, true) == None
    ensures USER_PROG <= vaddr < USER_PROG + FOUR_MB ==>
              t.Translate(vaddr, userMode) == Some(UserFrame(pid) + (vaddr - USER_PROG))
  {
    hide Present, BigPage, UserAllowed, BigFrame, SmallFrame, UserFrame;
    OtherEntries(pid);
    if KERNEL_ADDR <= vaddr < KERNEL_ADDR + FOUR_MB {
      assert vaddr / FOUR_MB == 1;
    }
    if USER_PROG <= vaddr < USER_PROG + FOUR_MB {
      assert vaddr / FOUR_MB == 32;
    }
  }

  /** The first and the eighteenth 4 MB go through the two page tables. */
  lemma WalkSmall(t: Tables, top: nat, vaddr: nat, userMode: bool)
    requires t.Layout(top) && vaddr < 0x1_0000_0000
    ensures vaddr / FOUR_MB == 0 ==>
              t.Translate(vaddr, userMode) == if userMode then None else Tables.TranslateSmall(t.low, vaddr, false)
    ensures vaddr / FOUR_MB == 17 ==> t.Translate(vaddr, userMode) == Tables.TranslateSmall(t.user, vaddr, userMode)
  {
    hide Present, BigPage, UserAllowed, BigFrame, SmallFrame, UserFrame, Tables.TranslateSmall;
    SmallEntry(t.lowAt, RW_PRESENT);
    SmallEntry(t.userAt, USER_MODE);
  }

  /** Isolation: whatever 32-bit address user code uses, it faults, or reaches its own
      frame through the program region, or reaches a text page through the vidmap page. */
  lemma UserReach(t: Tables, pid: nat, vaddr: nat)
    requires t.Layout(pid) && 0 < pid <= MAX_PROGS
    requires vaddr < 0x1_0000_0000
    ensures match t.Translate(vaddr, true)
            case None => true
            case Some(p) =>
              || (USER_PROG <= vaddr < USER_PROG + FOUR_MB && UserFrame(pid) <= p < UserFrame(pid) + FOUR_MB)
              || (USER_VIDEO_MEM <= vaddr < USER_VIDEO_MEM + PAGE_SIZE
                  && VIDEO_MEM_ADDR <= p < VIDEO_MEM_ADDR + 4 * PAGE_SIZE)
  {
    hide Present, BigPage, UserAllowed, BigFrame, SmallFrame;
    var i := vaddr / FOUR_MB;
    OtherEntries(pid);
    WalkSmall(t, pid, vaddr, true);
    if i == 32 {
      WalkFindsProcess(t, pid, vaddr, true);
    } else if i == 17 && vaddr / PAGE_SIZE % ENTRIES == 256 && Present(t.user[256]) {
      assert vaddr / PAGE_SIZE == 17 * ENTRIES + 256;
      var k :| 0 <= k <= 3 && t.user[256] == VIDEO_MEM_ADDR + k * PAGE_SIZE + USER_MODE;
      SmallEntry(VIDEO_MEM_ADDR + k * PAGE_SIZE, USER_MODE);
    }
  }

  /** The tables with the frame of `pid` mapped at 128 MB. */
  function MapFrame(t: Tables, pid: nat): Tables
    requires |t.dir| == ENTRIES && pid > 0
  {
    t.(dir := t.dir[32 := UserFrame(pid) + PROG_FLAGS])
  }

  /** The tables after a switch: frame, user text page if in use, and kernel text page. */
  function Remapped(t: Tables, pid: nat, userVideo: bool, target: nat): Tables
    requires |t.dir| == |t.low| == |t.user| == ENTRIES && pid > 0
  {
    MapFrame(t, pid).(user := if userVideo then t.user[256 := target + USER_MODE] else t.user,
                      low := t.low[0xB8 := target + USER_MODE])
  }

  /** The three writes the kernel makes keep the layout. */
  lemma WriteDir(t: Tables, top: nat, pid: nat)
    requires t.Layout(top) && 0 < pid <= MAX_PROGS
    ensures |t.dir| == |t.low| == |t.user| == ENTRIES
    ensures t.(dir := t.dir[32 := UserFrame(pid) + PROG_FLAGS]).Layout(pid)
    ensures BigFrame(UserFrame(pid) + PROG_FLAGS) == UserFrame(pid)
  {
    assert UserFrame(pid) + PROG_FLAGS == (pid + 1) * FOUR_MB + PROG_FLAGS;
  }

  lemma WriteLow(t: Tables, top: nat, entry: nat)
    requires t.Layout(top)
    ensures |t.dir| == |t.low| == |t.user| == ENTRIES
    ensures t.(low := t.low[0xB8 := entry]).Layout(top)
  {
  }

  lemma WriteUser(t: Tables, top: nat, k: nat)
    requires t.Layout(top) && k <= 3
    ensures |t.dir| == |t.low| == |t.user| == ENTRIES
    ensures t.(user := t.user[256 := VideoPage(k) + USER_MODE]).Layout(top)
  {
  }

  /** The k-th of the four text pages: the display itself, then the three buffers. */
  function VideoPage(k: nat): nat { VIDEO_MEM_ADDR + k * PAGE_SIZE }

  /** The entries for kernel and user text memory decide where those pages lead. */
  lemma VideoWalk(t: Tables, top: nat, k: nat)
    requires t.Layout(top) && k <= 3
    ensures t.low[0xB8] == VideoPage(k) + USER_MODE ==> t.Translate(VIDEO_MEM_ADDR, false) == Some(VideoPage(k))
    ensures t.user[256] == VideoPage(k) + USER_MODE ==> t.Translate(USER_VIDEO_MEM, true) == Some(VideoPage(k))
  {
    hide Present, BigPage, UserAllowed, BigFrame, SmallFrame;
    SmallEntry(VideoPage(k), USER_MODE);
    WalkSmall(t, top, VIDEO_MEM_ADDR, false);
    WalkSmall(t, top, USER_VIDEO_MEM, true);
  }

  /** After a switch the program region belongs to the next process, and 0xB8000, and the user text
      page if its terminal uses it, lead to its screen. */
  lemma RemappedOk(t: Tables, top: nat, pid: nat, userVideo: bool, page: nat)
    requires t.Layout(top) && 0 < pid <= MAX_PROGS && page <= 3
    ensures |t.dir| == |t.low| == |t.user| == ENTRIES
    ensures var u := Remapped(t, pid, userVideo, VideoPage(page));
            && |u.dir| == |u.low| == |u.user| == ENTRIES && u.Layout(pid)
            && u.Translate(VIDEO_MEM_ADDR, false) == Some(VideoPage(page))
            && (userVideo ==> u.Translate(USER_VIDEO_MEM, true) == Some(VideoPage(page)))
  {
    hide Tables.Layout, Tables.Translate;
    WriteDir(t, top, pid);
    var m := MapFrame(t, pid);
    WriteUser(m, pid, page);
    var v := if userVideo then m.(user := m.user[256 := VideoPage(page) + USER_MODE]) else m;
    WriteLow(v, pid, VideoPage(page) + USER_MODE);
    var u := v.(low := v.low[0xB8 := VideoPage(page) + USER_MODE]);
    assert u == Remapped(t, pid, userVideo, VideoPage(page));
    VideoWalk(u, pid, page);
  }

  /** Where 0xB8000 leads depends on the kernel table only. */
  lemma SameLow(t: Tables, u: Tables, p: nat, q: nat)
    requires t.Layout(p) && u.Layout(q) && t.low == u.low && t.lowAt == u.lowAt
    ensures t.Translate(VIDEO_MEM_ADDR, false) == u.Translate(VIDEO_MEM_ADDR, false)
  {
    hide Tables.Translate, Tables.TranslateSmall;
    WalkSmall(t, p, VIDEO_MEM_ADDR, false);
    WalkSmall(u, q, VIDEO_MEM_ADDR, false);
  }

  /** Before any terminal is scheduled each text page leads to itself. */
  lemma InitialWalk(t: Tables, k: nat)
    requires t.Layout(0) && k <= 3 && t.low[0xB8 + k] == VideoPage(k) + RW_PRESENT
    ensures t.Translate(VideoPage(k), false) == Some(VideoPage(k))
  {
    hide Present, BigPage, UserAllowed, BigFrame, SmallFrame;
    SmallEntry(VideoPage(k), RW_PRESENT);
    WalkSmall(t, 0, VideoPage(k), false);
    assert VideoPage(k) == (0xB8 + k) * PAGE_SIZE;
  }

  lemma InitialTables(t: Tables)
    requires t.Shape()
    requires t.dir[0] == t.lowAt + RW_PRESENT && t.dir[1] == KERNEL_ADDR + KERNEL_FLAGS
    requires t.dir[17] == t.userAt + USER_MODE
    requires forall i :: 0 <= i < ENTRIES && i !in {0, 1, 17} ==> t.dir[i] == RW_NOT_PRESENT
    requires forall i :: 0 <= i < ENTRIES ==> t.user[i] == i * PAGE_SIZE + RW_NOT_PRESENT
    requires forall k :: 0 <= k <= 3 ==> t.low[0xB8 + k] == VideoPage(k) + RW_PRESENT
    ensures t.Layout(0) && !Present(t.user[256])
    ensures forall k :: 0 <= k <= 3 ==> t.Translate(VideoPage(k), false) == Some(VideoPage(k))
  {
    hide Present, BigPage, UserAllowed, BigFrame, SmallFrame, Tables.Translate;
    forall i | 0 <= i < ENTRIES
      ensures !Present(t.user[i])
    {
      AbsentEntry(i);
    }
    forall k | 0 <= k <= 3
      ensures t.Translate(VideoPage(k), false) == Some(VideoPage(k))
    {
      InitialWalk(t, k);
    }
  }

  /** Distinct processes own disjoint user frames, above the kernel page. */
  lemma FramesDisjoint(p: nat, q: nat, a: nat, b: nat)
    requires 0 < p && 0 < q && p != q
    requires UserFrame(p) <= a < UserFrame(p) + FOUR_MB
    requires UserFrame(q) <= b < UserFrame(q) + FOUR_MB
    ensures a != b && a >= KERNEL_ADDR + FOUR_MB
  {
  }

  class PageTables {
    const dir: array<nat>
    const low: array<nat>
    const user: array<nat>
    const lowAt: nat
    const userAt: nat

    ghost predicate Valid()
      reads this
    {
      && dir.Length == low.Length == user.Length == ENTRIES
      && dir != low && dir != user && low != user
      && lowAt % PAGE_SIZE == 0 && userAt % PAGE_SIZE == 0 && lowAt != userAt
    }

    ghost function View(): Tables
      reads this, dir, low, user
    {
      Tables(dir[..], low[..], user[..], lowAt, userAt)
    }

    /** init_paging: the linker places the two tables at page-aligned addresses. */
    constructor (lowAt: nat, userAt: nat)
      requires lowAt % PAGE_SIZE == 0 && userAt % PAGE_SIZE == 0 && lowAt != userAt
      ensures Valid() && fresh(dir) && fresh(low) && fresh(user)
      ensures View().Layout(0)
      ensures forall k :: 0 <= k <= 3 ==> View().Translate(VideoPage(k), false) == Some(VideoPage(k))
      ensures View().Translate(VIDEO_MEM_ADDR, false) == Some(VIDEO_MEM_ADDR)
      ensures !Present(user[256])
    {
      this.lowAt, this.userAt := lowAt, userAt;
      dir := new nat[ENTRIES];
      low := new nat[ENTRIES];
      user := new nat[ENTRIES];
      new;
      InitDirectory();
      InitTables();
      InitialTables(View());
      assert VideoPage(0) == VIDEO_MEM_ADDR;
    }

    method InitDirectory()
      requires Valid()
      modifies dir
      ensures dir[0] == lowAt + RW_PRESENT
      ensures dir[1] == KERNEL_ADDR + KERNEL_FLAGS
      ensures dir[17] == userAt + USER_MODE
      ensures forall i :: 0 <= i < ENTRIES && i !in {0, 1, 17} ==> dir[i] == RW_NOT_PRESENT
    {
      for i := 0 to ENTRIES
        invariant forall j :: 0 <= j < i ==> dir[j] == RW_NOT_PRESENT
      {
        dir[i] := RW_NOT_PRESENT;
      }
      OrPage(lowAt, RW_PRESENT);
      OrPage(KERNEL_ADDR, KERNEL_FLAGS);
      OrPage(userAt, USER_MODE);
      dir[0] := Or(lowAt, RW_PRESENT);
      dir[KERNEL_ADDR / FOUR_MB] := Or(KERNEL_ADDR, KERNEL_FLAGS);
      dir[USER_VIDEO_MEM / FOUR_MB] := Or(userAt, USER_MODE);
    }

    method InitTables()
      requires Valid()
      modifies low, user
      ensures forall i :: 0 <= i < ENTRIES ==>
                user[i] == i * PAGE_SIZE + RW_NOT_PRESENT
      ensures forall i :: 0 <= i < ENTRIES ==>
                low[i] == i * PAGE_SIZE + (if 0xB8 <= i <= 0xBB then RW_PRESENT else RW_NOT_PRESENT)
    {
      for i := 0 to ENTRIES
        invariant forall j :: 0 <= j < i ==> low[j] == user[j] == j * PAGE_SIZE + RW_NOT_PRESENT
      {
        OrPage(i * PAGE_SIZE, RW_NOT_PRESENT);
        low[i] := Or(i * PAGE_SIZE, RW_NOT_PRESENT);
        user[i] := Or(i * PAGE_SIZE, RW_NOT_PRESENT);
      }
      SetPresent(VIDEO_MEM_ADDR);
      SetPresent(BufferAddr(0));
      SetPresent(BufferAddr(1));
      SetPresent(BufferAddr(2));
    }

    /** `first_page_table[addr >> PT_OFFSET] |= RW_PRESENT` */
    method SetPresent(addr: nat)
      requires Valid() && addr / PAGE_SIZE < ENTRIES
      requires low[addr / PAGE_SIZE] == addr / PAGE_SIZE * PAGE_SIZE + RW_NOT_PRESENT
      modifies low
      ensures low[..] == old(low[..])[addr / PAGE_SIZE := addr / PAGE_SIZE * PAGE_SIZE + RW_PRESENT]
    {
      var i := addr / PAGE_SIZE;
      OrFlags(i);
      low[i] := Or(low[i], RW_PRESENT);
    }

    method SetDirEntry(virt: nat, phys: nat)
      requires Valid() && virt / FOUR_MB < ENTRIES && phys % PAGE_SIZE == 0
      modifies dir
      ensures View() == old(View()).(dir := old(View()).dir[virt / FOUR_MB := phys + PROG_FLAGS])
    {
      OrPage(phys, PROG_FLAGS);
      dir[virt / FOUR_MB] := Or(phys, PROG_FLAGS);
    }

    method SetTable1Entry(virt: nat, phys: nat)
      requires Valid() && phys % PAGE_SIZE == 0
      modifies low
      ensures View() == old(View()).(low := old(View()).low[virt / PAGE_SIZE % ENTRIES := phys + USER_MODE])
    {
      OrPage(phys, USER_MODE);
      low[virt / PAGE_SIZE % ENTRIES] := Or(phys, USER_MODE);
    }

    method SetTable2Entry(virt: nat, phys: nat)
      requires Valid() && phys % PAGE_SIZE == 0
      modifies user
      ensures View() == old(View()).(user := old(View()).user[virt / PAGE_SIZE % ENTRIES := phys + USER_MODE])
    {
      OrPage(phys, USER_MODE);
      user[virt / PAGE_SIZE % ENTRIES] := Or(phys, USER_MODE);
    }
  }

  /** The mappings of a process switch. */
  method Remap(pages: PageTables, pid: nat, userVideo: bool, target: nat)
    requires pages.Valid() && 0 < pid <= MAX_PROGS && target % PAGE_SIZE == 0
    modifies pages.dir, pages.low, pages.user
    ensures pages.View() == Remapped(old(pages.View()), pid, userVideo, target)
  {
    pages.SetDirEntry(USER_PROG, EIGHT_MB + (pid - 1) * FOUR_MB);
    if userVideo {
      pages.SetTable2Entry(USER_VIDEO_MEM, target);
    }
    pages.SetTable1Entry(VIDEO_MEM_ADDR, target);
  }

  /** Flag bits of a page-aligned entry. */
  lemma OrPage(phys: nat, flags: nat)
    requires phys % PAGE_SIZE == 0 && flags < PAGE_SIZE
    ensures Or(phys, flags) == phys + flags
  {
    hide Or;
    OrPageAt(phys / PAGE_SIZE, flags);
    assert phys == phys / PAGE_SIZE * PAGE_SIZE;
  }

  lemma OrPageAt(q: nat, flags: nat)
    requires flags < PAGE_SIZE
    ensures Or(q * PAGE_SIZE, flags) == q * PAGE_SIZE + flags
  {
    hide Or, Shl;
    ShlBy12(q);
    ShlBy12(1);
    OrAligned(q, 12, 0, flags);
    OrZero(flags);
  }

  lemma OrFlags(i: nat)
    ensures Or(i * PAGE_SIZE + RW_NOT_PRESENT, RW_PRESENT) == i * PAGE_SIZE + RW_PRESENT
  {
    ShlBy12(i);
    ShlBy12(1);
    OrAligned(i, 12, RW_NOT_PRESENT, RW_PRESENT);
    assert Or(2, 3) == 3;
  }
}
