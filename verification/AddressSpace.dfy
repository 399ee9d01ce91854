/** The kernel's paging and its answers in addresses and numbers: what the processor makes
    of a virtual address, what a request is answered, what each step leaves alone. */
module AddressSpace {
  import opened Layout
  import opened Processes
  import opened KernelInv
  import opened KernelSteps
  import opened KernelRuns

  // -- How the processor translates --

  /** Entry `e` of a directory is about the four megabytes that hold `a`. */
  predicate InPage(a: nat, e: nat) {
    e * 0x40_0000 <= a < (e + 1) * 0x40_0000
  }

  ghost predicate SamePage(a: nat, b: nat) {
    exists e: nat :: InPage(a, e) && InPage(b, e)
  }

  /** Under this directory address `a` is physical address `p`, writable. */
  ghost predicate MapsTo(dir: PageDir, a: uint32, p: nat, user: bool) {
    exists e :: 0 <= e < 1024 && InPage(a, e) && dir[e] == PDE(true, true, user, true, dir[e].frame)
                && p == dir[e].frame * 0x40_0000 + (a - e * 0x40_0000)
  }

  ghost predicate Unmapped(dir: PageDir, a: uint32) {
    forall e :: 0 <= e < 1024 && InPage(a, e) ==> !dir[e].present
  }

  /** Where `a` lies within its four megabytes. */
  function Offset(a: nat): nat {
    a % 0x40_0000
  }

  /** The entry the kernel writes for an address is the one the processor reads for it, and
      no other entry is about that address. */
  lemma PageIndexIs(a: uint32)
    ensures PageIndex(a) < 1024 && PageIndex(a) * 0x40_0000 <= a < (PageIndex(a) + 1) * 0x40_0000
    ensures forall e: nat :: InPage(a, e) ==> e == PageIndex(a)
  {
  }

  lemma SamePageIff(a: uint32, b: uint32)
    ensures SamePage(a, b) <==> PageIndex(a) == PageIndex(b)
  {
    hide PageIndex;
    PageIndexIs(a);
    PageIndexIs(b);
    assert InPage(a, PageIndex(a)) && InPage(b, PageIndex(b));
  }

  lemma EntryMaps(dir: PageDir, a: uint32, frame: nat, user: bool)
    requires dir[PageIndex(a)] == PDE(true, true, user, true, frame)
    ensures MapsTo(dir, a, frame * 0x40_0000 + Offset(a), user)
  {
    hide PageIndex;
    PageIndexIs(a);
    OffsetIs(a, PageIndex(a));
    assert InPage(a, PageIndex(a));
  }

  lemma OffsetIs(a: nat, e: nat)
    requires InPage(a, e)
    ensures Offset(a) == a - e * 0x40_0000
  {
  }

  lemma EntryUnmapped(dir: PageDir, a: uint32)
    requires !dir[PageIndex(a)].present
    ensures Unmapped(dir, a)
  {
    hide PageIndex;
    PageIndexIs(a);
  }

  // -- Taking and giving back one page --

  /** An allocation maps the whole page of the address to the lowest free frame, for the
      user to write, and no other page of any directory changes. */
  lemma AllocMaps(k: Sys, d: nat, vaddr: uint32, a: uint32)
    requires k.Shaped() && d <= KERNEL_DIR && FirstFalse(k.frames) < PAGE_FRAME_MAX_COUNT && k.free > 0
    ensures var r, f := AllocFrame(k, d, vaddr), FirstFalse(k.frames);
            && !k.frames[f] && r.frames == k.frames[f := true] && r.free == k.free - 1
            && (SamePage(a, vaddr) ==> MapsTo(DirNo(r, d), a, f * 0x40_0000 + Offset(a), true))
            && forall x, e :: 0 <= x <= KERNEL_DIR && 0 <= e < 1024 && !(x == d && InPage(vaddr, e)) ==>
                 DirNo(r, x)[e] == DirNo(k, x)[e]
  {
    hide PageIndex, FirstFalse;
    PageIndexIs(vaddr);
    SamePageIff(a, vaddr);
    FirstIsFalse(k.frames);
    var r := AllocFrame(k, d, vaddr);
    assert InPage(vaddr, PageIndex(vaddr));
    if SamePage(a, vaddr) { EntryMaps(DirNo(r, d), a, FirstFalse(k.frames), true); }
  }

  /** Giving a page back unmaps the whole page of the address, frees the frame it went to,
      and changes no other page of any directory. */
  lemma FreeUnmaps(k: Sys, d: nat, vaddr: uint32, a: uint32, f: nat)
    requires k.Shaped() && d <= KERNEL_DIR && f < PAGE_FRAME_MAX_COUNT
    requires MapsTo(DirNo(k, d), vaddr, f * 0x40_0000 + Offset(vaddr), true)
    ensures DirNo(k, d)[PageIndex(vaddr)].frame == f
    ensures var r := FreeFrame(k, d, vaddr);
            && r.frames == k.frames[f := false] && r.free == k.free + 1
            && (SamePage(a, vaddr) ==> Unmapped(DirNo(r, d), a))
            && forall x, e :: 0 <= x <= KERNEL_DIR && 0 <= e < 1024 && !(x == d && InPage(vaddr, e)) ==>
                 DirNo(r, x)[e] == DirNo(k, x)[e]
  {
    hide PageIndex;
    PageIndexIs(vaddr);
    SamePageIff(a, vaddr);
    OffsetIs(vaddr, PageIndex(vaddr));
    assert InPage(vaddr, PageIndex(vaddr));
    AbsentIs();
    if SamePage(a, vaddr) { EntryUnmapped(DirNo(FreeFrame(k, d, vaddr), d), a); }
  }

  lemma AbsentIs()
    ensures ABSENT == PDE(false, false, false, false, 0)
  {
  }

  // -- A process's address space --

  /** All of a directory built for a process: its top user page is the stack's frame, the
      page of its entry point the code's, the kernel's four megabytes are mapped to the
      first frame and closed to the user, and nothing else is mapped. */
  ghost predicate SpaceOf(dir: PageDir, entry: uint32, code: nat, stack: nat) {
    forall a: uint32 :: SpaceAt(dir, entry, code, stack, a)
  }

  ghost predicate SpaceAt(dir: PageDir, entry: uint32, code: nat, stack: nat, a: uint32) {
    if 0xBFC0_0000 <= a < 0xC000_0000 then MapsTo(dir, a, stack * 0x40_0000 + (a - 0xBFC0_0000), true)
    else if SamePage(a, entry) then MapsTo(dir, a, code * 0x40_0000 + Offset(a), true)
    else if 0xC000_0000 <= a < 0xC040_0000 then MapsTo(dir, a, a - 0xC000_0000, false)
    else Unmapped(dir, a)
  }

  lemma StackPage(a: uint32)
    ensures PageIndex(a) == PageIndex(USER_STACK) <==> 0xBFC0_0000 <= a < 0xC000_0000
    ensures PageIndex(a) == KERNEL_ENTRY <==> 0xC000_0000 <= a < 0xC040_0000
    ensures 0xBFC0_0000 <= a < 0xC000_0000 ==> Offset(a) == a - 0xBFC0_0000
    ensures 0xC000_0000 <= a < 0xC040_0000 ==> Offset(a) == a - 0xC000_0000
  {
  }

  lemma BuiltSpace(k: Sys, own: map<nat, Mapping>, entry: uint32)
    requires k.Shaped() && CountFalse(k.frames) >= 2 && k.free >= 2 && FirstFalse(k.used) < |k.used|
    requires entry < 0xC000_0000 && PagingInv(k, own)
    ensures FirstFalse(k.frames) < 32 && FirstFalse(TakeFrame(k.frames)) < 32
    ensures var f, g := FirstFalse(k.frames), FirstFalse(TakeFrame(k.frames));
            && f != g && !k.frames[f] && !k.frames[g] && BuildSpace(k, entry).frames == k.frames[f := true][g := true]
            && SpaceOf(BuildSpace(k, entry).pool[FirstFalse(k.used)], entry, f, g)
  {
    hide PageIndex, FirstFalse, CountFalse, EmptyDir, PagingInv, BuildSpace, SpaceAt;
    BuiltDir(k, own, entry);
    TakeTwice(k.frames);
    var f, g := FirstFalse(k.frames), FirstFalse(TakeFrame(k.frames));
    var dir := BuildSpace(k, entry).pool[FirstFalse(k.used)];
    UserPages(entry);
    forall a: uint32 ensures SpaceAt(dir, entry, f, g, a) { EntriesMakeSpace(dir, entry, f, g, a); }
  }

  lemma EntriesMakeSpace(dir: PageDir, entry: uint32, code: nat, stack: nat, a: uint32)
    requires PageIndex(entry) < KERNEL_ENTRY && PageIndex(USER_STACK) < KERNEL_ENTRY
    requires dir == EmptyDir()[KERNEL_ENTRY := KERNEL_PDE][PageIndex(entry) := UserPDE(code)]
                              [PageIndex(USER_STACK) := UserPDE(stack)]
    ensures SpaceAt(dir, entry, code, stack, a)
  {
    hide PageIndex, EmptyDir, MapsTo, Unmapped, Offset, SamePage;
    StackPage(a);
    SamePageIff(a, entry);
    PageIndexIs(a);
    if PageIndex(a) == PageIndex(USER_STACK) {
      EntryMaps(dir, a, stack, true);
    } else if PageIndex(a) == PageIndex(entry) {
      EntryMaps(dir, a, code, true);
    } else if PageIndex(a) == KERNEL_ENTRY {
      EntryMaps(dir, a, 0, false);
    } else {
      EntryUnmapped(dir, a);
    }
  }

  /** Pool directories lie a page of 4096 bytes apart, from the pool's base on. */
  lemma DirectoriesApart(k: Sys, i: nat, j: nat)
    requires k.Shaped() && i < j < 32
    ensures k.PoolAddr(i) + 4096 <= k.PoolAddr(j) && k.PoolAddr(j) + 4096 <= 0x1_0000_0000
    ensures k.PoolAddr(0) == k.poolBase && k.PoolAddr(i) % 4096 == k.poolBase % 4096
    ensures k.PoolAddr(i) - k.poolBase == 4096 * i
  {
  }

  /** While a process runs, CR3 holds the physical address of its directory, which is its
      virtual one less 0xC0000000. */
  lemma RunningCr3(k: Sys, i: nat)
    requires Sound(k) && i < PROCESS_COUNT_MAX && k.procs[i].state.Running?
    ensures k.cr3 + 0xC000_0000 == k.procs[i].context.pageDir
    ensures exists j :: 0 <= j < 32 && k.used[j] && k.procs[i].context.pageDir == k.poolBase + 4096 * j
  {
    hide PagingInv, CountFalse, LiveCount, DirAtAddr;
    var own :| KInv(k, own);
    SlotAt(k, i);
    assert k.PoolAddr(DirAtAddr(k, k.procs[i].context.pageDir)) == k.procs[i].context.pageDir;
  }

  // -- What creation answers and does --

  /** The answer to a request, in numbers: sizes above 28 megabytes are too large, but for
      those of the last four megabytes, which wrap around. */
  function AnswerTo(active: nat, free: nat, buf: uint32, bufferSize: uint32): int {
    if active >= 16 then 1
    else if buf >= 0xC000_0000 then 2
    else if 0x1C0_0000 < bufferSize < 0xFFC0_0000 || (free == 0 && bufferSize != 0xFFC0_0000) then 3
    else 0
  }

  lemma FramesNeededIs(bufferSize: uint32)
    ensures FramesNeeded(bufferSize) > 8 <==> 0x1C0_0000 < bufferSize < 0xFFC0_0000
    ensures FramesNeeded(bufferSize) == 0 <==> bufferSize == 0xFFC0_0000
    ensures FramesNeeded(bufferSize) <= 1024
  {
  }

  lemma CreateAnswers(k: Sys, q: ExecRequest)
    requires k.Shaped() && CreateReady(k, q)
    ensures Create(k, q).code == AnswerTo(k.active, k.free, q.buf, q.bufferSize)
    ensures Create(k, q).code != 0 ==> Create(k, q).sys == k
  {
    hide FramesNeeded;
    FramesNeededIs(q.bufferSize);
  }

  /** An admitted creation gives its process a slot, a context, and a directory under which
      its instruction and stack pointers reach frames that were free, each its own; no other
      slot and no other directory changes, nor does CR3. */
  lemma CreatedProcess(k: Sys, own: map<nat, Mapping>, q: ExecRequest)
    requires KInv(k, own) && CreateReady(k, q) && AnswerTo(k.active, k.free, q.buf, q.bufferSize) == 0
    ensures k.active < 16 && FirstFalse(k.used) < 32
    ensures var r, i := Create(k, q).sys, FirstFalse(k.used);
            && r.active == k.active + 1 && r.cr3 == k.cr3 && r.free == k.free - 2 && !k.used[i]
            && r.procs == k.procs[k.active := r.procs[k.active]] && r.used == k.used[i := true]
            && r.kernelDir == k.kernelDir && (forall j :: 0 <= j < 32 && j != i ==> r.pool[j] == k.pool[j])
            && var p := r.procs[k.active];
               && p.pid == k.active && p.name == q.name && p.state.Ready?
               && p.context.eip == q.buf && p.context.cpu.esp == p.context.cpu.ebp == 0xBFFF_FFFC
               && p.context.pageDir == k.poolBase + 4096 * i
               && var f := FirstFalse(k.frames);
                  && f < 32 && !k.frames[f]
                  && var g := FirstFalse(k.frames[f := true]);
                     && g < 32 && !k.frames[g] && f != g
                     && r.frames == k.frames[f := true][g := true] && SpaceOf(r.pool[i], q.buf, f, g)
  {
    hide PageIndex, FirstFalse, CountFalse, EmptyDir, LiveCount, BuildSpace, SpaceOf, Admit, SlotOk, CreateReady;
    CreateAnswers(k, q);
    NotRefused(k, q);
    AdmitFacts(k, q);
    CreateProcs(k, q);
    BuiltDir(k, own, q.buf);
    BuiltSpace(k, own, q.buf);
    CreatedPaging(k, q);
  }

  lemma NotRefused(k: Sys, q: ExecRequest)
    requires k.Shaped() && CreateReady(k, q)
    ensures Create(k, q).code == 0 <==> Admit(k, q) == SUCCESS
  {
  }

  lemma CreatedPaging(k: Sys, q: ExecRequest)
    requires k.Shaped() && CreateReady(k, q) && Admit(k, q) == SUCCESS
    ensures FirstFalse(k.used) < |k.used| && CountFalse(k.frames) >= 2 && k.free >= 2
    ensures var r, b := Create(k, q).sys, BuildSpace(k, q.buf);
            r.pool == b.pool && r.frames == b.frames && r.free == b.free && r.kernelDir == b.kernelDir
  {
    hide BuildSpace, FirstFalse, CountFalse;
  }

  // -- What the other steps do, and leave alone --

  /** A kill clears one slot, gives that process's directory back, emptied, and keeps its
      frames; nothing else changes. */
  lemma KilledProcess(k: Sys, own: map<nat, Mapping>, pid: uint32)
    requires KInv(k, own) && 0 < pid < 16 && Alive(k.procs[pid])
    ensures DestroyReady(k, pid)
    ensures var r, i := Destroy(k, pid), DirAtAddr(k, k.procs[pid].context.pageDir);
            && r.procs == k.procs[pid := ZERO_PCB] && r.active == k.active - 1
            && i < 32 && k.poolBase + 4096 * i == k.procs[pid].context.pageDir
            && r.used == k.used[i := false] && (forall j :: 0 <= j < 32 && j != i ==> r.pool[j] == k.pool[j])
            && (forall e :: 0 <= e < 1024 ==> !r.pool[i][e].present)
            && r.frames == k.frames && r.free == k.free && r.kernelDir == k.kernelDir && r.cr3 == k.cr3
  {
    hide PagingInv, CountFalse, LiveCount, FirstPid;
    PidIsSlot(k, pid);
    SlotAt(k, pid);
  }

  /** A tick touches no frame, no directory and no count, and in the table only states and
      the interrupted context. */
  lemma TickLeaves(k: Sys, own: map<nat, Mapping>, cpu: Registers, eip: uint32, eflags: bv32)
    requires KInv(k, own) && Alive(k.procs[0])
    ensures var r := Tick(k, cpu, eip, eflags);
            && r.frames == k.frames && r.free == k.free && r.pool == k.pool && r.used == k.used
            && r.kernelDir == k.kernelDir && r.active == k.active && r.poolBase == k.poolBase
            && forall i :: 0 <= i < 16 ==> r.procs[i].pid == k.procs[i].pid && r.procs[i].name == k.procs[i].name
                                           && (Alive(r.procs[i]) <==> Alive(k.procs[i]))
  {
    hide PagingInv, CountFalse, LiveCount, NextReady, Chosen, Leaving, SlotOk;
    SaveKeeps(k, own, cpu, eip, eflags);
    ChosenAlive(Save(k, Interrupted(k, cpu, eip, eflags)));
  }

  lemma LoadedFrames(poolBase: uint32, kernelAddr: uint32)
    requires AddressesOk(poolBase, kernelAddr)
    ensures var k := Loaded(poolBase, kernelAddr);
            && k.free > 0 && FirstFalse(k.frames) == 1
            && var a := AllocInKernel(k, 0);
               && FirstFalse(a.frames) == 2 && FirstFalse(a.frames[2 := true]) == 3 && FirstFalse(a.used) == 0
               && (forall f :: 0 <= f < 32 ==> (a.frames[f] <==> f < 2)) && a.free == 30 && a.active == 0
               && MapsTo(a.kernelDir, 0, 0x40_0000, true) && MapsTo(a.kernelDir, 0xC000_0000, 0, false)
               && a.procs[0].context.cpu.eax == 0 && a.poolBase == poolBase
  {
    hide PageIndex, MapsTo, EmptyDir;
    var k := Loaded(poolBase, kernelAddr);
    assert k.frames[0] && !k.frames[1];
    assert FirstFalse(k.frames, 1) == 1;
    var a := AllocInKernel(k, 0);
    assert FirstFalse(a.frames, 2) == 2;
    assert FirstFalse(a.frames, 1) == 2;
    var b := a.frames[2 := true];
    assert FirstFalse(b, 3) == 3;
    assert FirstFalse(b, 2) == 3;
    assert FirstFalse(b, 1) == 3;
    StackPage(0);
    StackPage(0xC000_0000);
    EntryMaps(a.kernelDir, 0, 1, true);
    EntryMaps(a.kernelDir, 0xC000_0000, 0, false);
  }

  /** After start-up the shell's code is in the third frame and its stack in the fourth, and
      the kernel's directory has the second at address 0. */
  lemma BootedSpace(poolBase: uint32, kernelAddr: uint32, shell: ExecRequest)
    requires AddressesOk(poolBase, kernelAddr) && shell.buf == 0 && shell.bufferSize == 0x10_0000
    ensures var k := Booted(poolBase, kernelAddr, shell);
            && k.cr3 == poolBase - 0xC000_0000 && k.procs[0].context.pageDir == poolBase
            && k.procs[0].name == shell.name
            && SpaceOf(k.pool[0], 0, 2, 3) && MapsTo(k.kernelDir, 0, 0x40_0000, true)
            && MapsTo(k.kernelDir, 0xC000_0000, 0, false)
            && forall f :: 0 <= f < 32 ==> (k.frames[f] <==> f < 4)
  {
    hide CountFalse, LiveCount, EmptyDir, Admit, CreateReady, PageIndex, SpaceOf, MapsTo, KInv, Create, InitialContext,
      FirstFalse, AllocInKernel, Chosen, Leaving;
    LoadedReady(poolBase, kernelAddr, shell);
    LoadedKeeps(poolBase, kernelAddr, shell);
    LoadedFrames(poolBase, kernelAddr);
    var k := AllocInKernel(Loaded(poolBase, kernelAddr), 0);
    CreatedProcess(k, map[1 := (KERNEL_DIR, 0)], shell);
    var made := Create(k, shell).sys;
    NoneAliveYet(poolBase, kernelAddr);
    OnlyOne(made.procs);
  }

  lemma NoneAliveYet(poolBase: uint32, kernelAddr: uint32)
    requires AddressesOk(poolBase, kernelAddr)
    ensures var k := Loaded(poolBase, kernelAddr);
            && k.free > 0 && FirstFalse(k.frames) < 32
            && forall i :: 0 <= i < 16 ==> !Alive(AllocInKernel(k, 0).procs[i])
  {
    LoadedFrames(poolBase, kernelAddr);
  }
}
