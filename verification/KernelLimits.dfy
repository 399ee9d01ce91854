/** Where the kernel falls short of what callers may expect, exactly when, and by which runs
    from start-up: CR3 may be left on a directory that was given back, and the guard of
    process creation lets one request through with no frame left. */
module KernelLimits {
  import opened Layout
  import opened Processes
  import opened KernelInv
  import opened KernelSteps
  import opened KernelRuns

  // -- The directory CR3 names --

  ghost predicate InPool(k: Sys) {
    k.Shaped() && DirAtAddr(k, CurrentDir(k)) < PAGING_DIRECTORY_TABLE_MAX_COUNT
  }

  /** The directory CR3 names is in use and maps the kernel. */
  ghost predicate Backed(k: Sys) {
    && InPool(k)
    && var i := DirAtAddr(k, CurrentDir(k)); k.used[i] && k.pool[i][KERNEL_ENTRY] == KERNEL_PDE
  }

  /** A directory in the pool maps the kernel or is empty, as it is in use or not. */
  lemma UsedOrEmpty(k: Sys, i: nat)
    requires Sound(k) && i < PAGING_DIRECTORY_TABLE_MAX_COUNT
    ensures k.Shaped()
    ensures if k.used[i] then k.pool[i][KERNEL_ENTRY] == KERNEL_PDE else k.pool[i] == EmptyDir()
  {
    hide CountFalse, LiveCount, ProcInv, EmptyDir;
    var own :| KInv(k, own);
    assert DirOk(k, own, i);
  }

  lemma BackedIsUsed(k: Sys)
    requires Sound(k) && InPool(k)
    ensures Backed(k) <==> k.used[DirAtAddr(k, CurrentDir(k))]
    ensures !Backed(k) ==> k.pool[DirAtAddr(k, CurrentDir(k))] == EmptyDir()
  {
    hide Sound, EmptyDir, DirAtAddr;
    UsedOrEmpty(k, DirAtAddr(k, CurrentDir(k)));
  }

  /** A tick puts CR3 on the directory of a live process. */
  lemma TickBacks(k: Sys, cpu: Registers, eip: uint32, eflags: bv32)
    requires Sound(k)
    ensures var r := Tick(k, cpu, eip, eflags);
            && Sound(r) && Backed(r) && Apart(r)
  {
    hide PagingInv, CountFalse, LiveCount, DirAtAddr, Tick, SlotOk, EmptyDir;
    var own :| KInv(k, own);
    TickKeeps(k, own, cpu, eip, eflags);
    var r := Tick(k, cpu, eip, eflags);
    var i := FirstRunning(r.procs);
    SlotInUse(r, i);
    BackedIsUsed(r);
  }

  lemma SlotInUse(k: Sys, i: nat)
    requires ProcInv(k) && i < PROCESS_COUNT_MAX && Alive(k.procs[i])
    ensures DirAtAddr(k, k.procs[i].context.pageDir) < PAGING_DIRECTORY_TABLE_MAX_COUNT
    ensures k.used[DirAtAddr(k, k.procs[i].context.pageDir)]
  {
    hide LiveCount, DirAtAddr;
    SlotAt(k, i);
  }

  /** A tick puts CR3 right, a kill takes its directory away, and a creation that happens to
      be given that very directory brings it back. */
  ghost predicate Backs(k: Sys, ev: Event)
    requires k.Shaped()
  {
    match ev
    case Timer(_, _, _) => true
    case Spawn(q) =>
      Backed(k) || (Admit(k, q) == SUCCESS && FirstFalse(k.used) == DirAtAddr(k, CurrentDir(k)))
    case Kill(pid) =>
      Backed(k) && (pid >= PROCESS_COUNT_MAX || k.procs[pid].context.pageDir != CurrentDir(k))
  }

  /** Exactly when CR3's directory is in use, with the kernel's entry, after an event. */
  lemma BackedAfterIff(k: Sys, ev: Event)
    requires Sound(k) && Allowed(k, ev) && InPool(k)
    ensures EventReady(k, ev) && InPool(Step(k, ev))
    ensures Backed(Step(k, ev)) <==> Backs(k, ev)
  {
    hide Sound, Backed, Create, Tick, Destroy, Admit, CreateReady, DestroyReady, FirstFalse, CountFalse, LiveCount,
      DirAtAddr;
    StepKeeps(k, ev);
    BackedIsUsed(k);
    match ev {
      case Timer(cpu, eip, eflags) =>
        TickBacks(k, cpu, eip, eflags);
        BackedInPool(Tick(k, cpu, eip, eflags));
      case Spawn(q) =>
        SpawnUses(k, q);
        SamePool(k, Create(k, q).sys, CurrentDir(k));
        BackedIsUsed(Create(k, q).sys);
      case Kill(pid) =>
        KillUses(k, pid);
        SamePool(k, Destroy(k, pid), CurrentDir(k));
        BackedIsUsed(Destroy(k, pid));
    }
  }

  lemma SpawnUses(k: Sys, q: ExecRequest)
    requires Sound(k) && k.Shaped() && CreateReady(k, q)
    ensures var r := Create(k, q).sys;
            && r.cr3 == k.cr3 && r.poolBase == k.poolBase
            && r.used == if Admit(k, q) == SUCCESS && FirstFalse(k.used) < |k.used|
                         then k.used[FirstFalse(k.used) := true] else k.used
  {
    hide PagingInv, CountFalse, LiveCount, CreateReady, FirstFalse, Admit, InitialContext, SlotOk;
    var own :| KInv(k, own);
    if Admit(k, q) == SUCCESS { CreateProcs(k, q); }
  }

  lemma KillUses(k: Sys, pid: uint32)
    requires Sound(k) && k.Shaped() && Allowed(k, Kill(pid)) && DestroyReady(k, pid)
    ensures var r := Destroy(k, pid);
            && r.cr3 == k.cr3 && r.poolBase == k.poolBase
            && if pid >= PROCESS_COUNT_MAX then r == k
               else
                 var i := DirAtAddr(k, k.procs[pid].context.pageDir);
                 && i < PAGING_DIRECTORY_TABLE_MAX_COUNT && r.used == k.used[i := false]
                 && k.PoolAddr(i) == k.procs[pid].context.pageDir
  {
    hide PagingInv, CountFalse, LiveCount, FirstPid;
    var own :| KInv(k, own);
    if pid < PROCESS_COUNT_MAX {
      PidIsSlot(k, pid);
      SlotAt(k, pid);
    }
  }

  /** Only the running process has the directory CR3 names. */
  ghost predicate Apart(k: Sys)
    requires k.Shaped()
  {
    forall i :: 0 <= i < PROCESS_COUNT_MAX && Alive(k.procs[i]) && !k.procs[i].state.Running? ==>
      k.procs[i].context.pageDir != CurrentDir(k)
  }

  predicate KillsRunning(k: Sys, ev: Event)
    requires k.Shaped()
  {
    ev.Kill? && ev.pid < PROCESS_COUNT_MAX && k.procs[ev.pid].state.Running?
  }

  /** In a state as start-up and every tick leave it, the kill of the running process, and
      no other event, leaves CR3 on a directory that is given back. */
  lemma BackedUnlessKilledIff(k: Sys, ev: Event)
    requires Sound(k) && Allowed(k, ev) && Backed(k) && Apart(k)
    ensures EventReady(k, ev)
    ensures Backed(Step(k, ev)) <==> !KillsRunning(k, ev)
    ensures Backed(Step(k, ev)) ==> Apart(Step(k, ev))
  {
    hide Sound, Backed, Create, Tick, Destroy, Admit, CreateReady, DestroyReady, FirstFalse, CountFalse, LiveCount,
      DirAtAddr, InPool, KInv;
    BackedInPool(k);
    BackedAfterIff(k, ev);
    match ev {
      case Timer(cpu, eip, eflags) => TickBacks(k, cpu, eip, eflags);
      case Spawn(q) => SpawnApart(k, q);
      case Kill(pid) => KillApart(k, pid);
    }
  }

  lemma BackedInPool(k: Sys)
    requires Backed(k)
    ensures InPool(k) && k.Shaped()
  {
  }

  lemma SpawnApart(k: Sys, q: ExecRequest)
    requires Sound(k) && Backed(k) && Apart(k) && CreateReady(k, q)
    ensures Apart(Create(k, q).sys)
  {
    hide PagingInv, CountFalse, LiveCount, CreateReady, FirstFalse, Admit, InitialContext, SlotOk, Create, DirAtAddr;
    var own :| KInv(k, own);
    if Admit(k, q) == SUCCESS {
      CreateProcs(k, q);
      PoolAddrFound(k, FirstFalse(k.used));
      InitialDir(k.procs[k.active].context, q.buf, k.PoolAddr(FirstFalse(k.used)));
    } else {
      assert Create(k, q).sys == k by { NotAdmitted(k, q); }
    }
  }

  lemma NotAdmitted(k: Sys, q: ExecRequest)
    requires k.Shaped() && CreateReady(k, q) && Admit(k, q) != SUCCESS
    ensures Create(k, q).sys == k
  {
  }

  lemma KillApart(k: Sys, pid: uint32)
    requires Sound(k) && Allowed(k, Kill(pid)) && Backed(k) && Apart(k) && DestroyReady(k, pid)
    ensures Apart(Destroy(k, pid))
    ensures KillsRunning(k, Kill(pid)) <==>
            pid < PROCESS_COUNT_MAX && k.procs[pid].context.pageDir == CurrentDir(k)
  {
    hide PagingInv, CountFalse, LiveCount, FirstPid, SlotOk, DirAtAddr;
    var own :| KInv(k, own);
  }

  ghost predicate NoneKillsRunning(k: Sys, evs: seq<Event>)
    requires k.Shaped() && AllAllowed(k, evs)
    decreases |evs|
  {
    evs == [] || (!KillsRunning(k, evs[0]) && NoneKillsRunning(Step(k, evs[0]), evs[1..]))
  }

  lemma {:induction false} RunStaysBacked(k: Sys, evs: seq<Event>)
    requires Sound(k) && Backed(k) && Apart(k) && AllAllowed(k, evs) && NoneKillsRunning(k, evs)
    ensures Backed(Run(k, evs)) && Apart(Run(k, evs))
    decreases |evs|
  {
    hide Sound, Step, EventReady, Allowed, Backed, Apart, KillsRunning;
    if evs != [] {
      SoundShaped(k);
      StepKeeps(k, evs[0]);
      BackedUnlessKilledIff(k, evs[0]);
      RunStaysBacked(Step(k, evs[0]), evs[1..]);
    }
  }

  // -- Runs from start-up --

  /** Over every run from start-up that never kills the process that runs, the directory CR3
      names is in use and maps the kernel. */
  lemma ReachableBacked(poolBase: uint32, kernelAddr: uint32, shell: ExecRequest, evs: seq<Event>)
    requires AddressesOk(poolBase, kernelAddr) && shell.buf == 0 && shell.bufferSize == 0x10_0000
    requires AllAllowed(Booted(poolBase, kernelAddr, shell), evs)
    requires NoneKillsRunning(Booted(poolBase, kernelAddr, shell), evs)
    ensures Backed(Run(Booted(poolBase, kernelAddr, shell), evs))
  {
    hide KInv, Booted, Run, AllAllowed, NoneKillsRunning, Backed, Apart;
    BootedBacked(poolBase, kernelAddr, shell);
    RunStaysBacked(Booted(poolBase, kernelAddr, shell), evs);
  }

  lemma BootedBacked(poolBase: uint32, kernelAddr: uint32, shell: ExecRequest)
    requires AddressesOk(poolBase, kernelAddr) && shell.buf == 0 && shell.bufferSize == 0x10_0000
    ensures var k := Booted(poolBase, kernelAddr, shell);
            && Sound(k) && Backed(k) && Apart(k) && k.active == 1 && k.free == 28 && k.procs[0].state.Running?
            && forall i :: 1 <= i < PROCESS_COUNT_MAX ==> !Alive(k.procs[i])
  {
    hide PagingInv, CountFalse, LiveCount, DirAtAddr, Booted, SlotOk, EmptyDir;
    var own := BootedKeeps(poolBase, kernelAddr, shell);
    var k := Booted(poolBase, kernelAddr, shell);
    SlotInUse(k, 0);
    BackedIsUsed(k);
  }

  /** A request that the guard lets through whenever a slot and a frame are free. */
  predicate Modest(q: ExecRequest) {
    q.buf < KERNEL_VIRTUAL_ADDRESS_BASE && 0 < FramesNeeded(q.bufferSize) <= PROCESS_PAGE_FRAME_COUNT_MAX
  }

  lemma ModestAdmitted(k: Sys, q: ExecRequest)
    requires Modest(q) && k.active < PROCESS_COUNT_MAX && k.free > 0
    ensures Admit(k, q) == SUCCESS && q.bufferSize != 0xFFC0_0000
  {
    assert FramesNeeded(0xFFC0_0000) == 0;
    assert CeilDiv(FramesNeeded(q.bufferSize), PAGE_FRAME_SIZE) <= 1;
  }

  /** Start the shell, spawn a process, let a tick run it, and kill it: CR3 is left on an
      empty directory that is not in use. */
  lemma KilledWhileRunning(poolBase: uint32, kernelAddr: uint32, shell: ExecRequest, q: ExecRequest,
                           cpu: Registers, eip: uint32, eflags: bv32)
    requires AddressesOk(poolBase, kernelAddr) && shell.buf == 0 && shell.bufferSize == 0x10_0000 && Modest(q)
    ensures var k, evs := Booted(poolBase, kernelAddr, shell), [Spawn(q), Timer(cpu, eip, eflags), Kill(1)];
            && AllAllowed(k, evs)
            && var r := Run(k, evs);
               Sound(r) && InPool(r) && !Backed(r) && r.pool[DirAtAddr(r, CurrentDir(r))] == EmptyDir()
  {
    hide KInv, CountFalse, LiveCount, DirAtAddr, Booted, Sound, Backed, Apart, Create, Tick, Destroy, Admit, EmptyDir,
      InitialContext, CreateReady, DestroyReady, Modest, InPool, FirstFalse;
    BootedBacked(poolBase, kernelAddr, shell);
    var k0 := Booted(poolBase, kernelAddr, shell);
    ModestAdmitted(k0, q);
    BackedUnlessKilledIff(k0, Spawn(q));
    StepKeeps(k0, Spawn(q));
    var k1 := Create(k0, q).sys;
    SecondMade(k0, q);
    StepKeeps(k1, Timer(cpu, eip, eflags));
    TickBacks(k1, cpu, eip, eflags);
    var k2 := Tick(k1, cpu, eip, eflags);
    SecondRuns(k1, cpu, eip, eflags);
    BackedUnlessKilledIff(k2, Kill(1));
    StepKeeps(k2, Kill(1));
    BackedInPool(k2);
    BackedAfterIff(k2, Kill(1));
    var k3 := Destroy(k2, 1);
    BackedIsUsed(k3);
    RunOfThree(k0, Spawn(q), Timer(cpu, eip, eflags), Kill(1));
  }

  lemma RunOfThree(k: Sys, a: Event, b: Event, c: Event)
    requires k.Shaped() && Allowed(k, a) && EventReady(k, a)
    requires Allowed(Step(k, a), b) && EventReady(Step(k, a), b)
    requires Allowed(Step(Step(k, a), b), c) && EventReady(Step(Step(k, a), b), c)
    ensures AllAllowed(k, [a, b, c]) && Run(k, [a, b, c]) == Step(Step(Step(k, a), b), c)
  {
    hide Allowed, EventReady, Step;
    var j, i := Step(k, a), Step(Step(k, a), b);
    assert [a, b, c][1..] == [b, c] && [b, c][1..] == [c] && [c][1..] == [];
    assert Run(Step(i, c), []) == Step(i, c);
    assert AllAllowed(i, [c]) && Run(i, [c]) == Run(Step(i, c), [c][1..]);
    assert AllAllowed(j, [b, c]) && Run(j, [b, c]) == Step(i, c);
  }

  lemma SecondMade(k: Sys, q: ExecRequest)
    requires Sound(k) && k.active == 1 && k.procs[0].state.Running? && CreateReady(k, q) && Admit(k, q) == SUCCESS
    ensures var r := Create(k, q).sys; r.procs[0].state.Running? && r.procs[1].state.Ready?
  {
    hide PagingInv, CountFalse, LiveCount, CreateReady, FirstFalse, Admit, InitialContext, SlotOk, Create, DirAtAddr;
    var own :| KInv(k, own);
    CreateProcs(k, q);
  }

  lemma SecondRuns(k: Sys, cpu: Registers, eip: uint32, eflags: bv32)
    requires k.Shaped() && k.procs[0].state.Running? && k.procs[1].state.Ready?
    ensures Tick(k, cpu, eip, eflags).procs[1].state.Running?
  {
    hide DirAtAddr;
    assert FirstRunning(k.procs) == 0;
    var saved := Save(k, Interrupted(k, cpu, eip, eflags));
    assert FirstRunning(saved.procs) == 0;
    assert Chosen(saved.procs) == 1;
  }

  // -- No frame left --

  /** `n` processes spawned one after the other. */
  function Spawns(q: ExecRequest, n: nat): seq<Event> {
    if n == 0 then [] else [Spawn(q)] + Spawns(q, n - 1)
  }

  lemma {:induction false} SpawnsFit(k: Sys, q: ExecRequest, n: nat)
    requires Sound(k) && Modest(q) && k.active + n <= PROCESS_COUNT_MAX && 2 * n <= k.free
    ensures AllAllowed(k, Spawns(q, n))
    ensures var r := Run(k, Spawns(q, n)); Sound(r) && r.free == k.free - 2 * n && r.active == k.active + n
    decreases n
  {
    hide Sound, Create, CreateReady, Admit, Modest;
    SoundShaped(k);
    if n > 0 {
      ModestAdmitted(k, q);
      StepKeeps(k, Spawn(q));
      SpawnCounts(k, q);
      SpawnsFit(Create(k, q).sys, q, n - 1);
      assert Spawns(q, n)[1..] == Spawns(q, n - 1);
    }
  }

  lemma SpawnCounts(k: Sys, q: ExecRequest)
    requires Sound(k) && CreateReady(k, q) && Admit(k, q) == SUCCESS
    ensures var r := Create(k, q).sys; r.free == k.free - 2 && r.active == k.active + 1
  {
    hide PagingInv, CountFalse, LiveCount, CreateReady, FirstFalse, Admit, InitialContext, SlotOk, BuildSpace;
    var own :| KInv(k, own);
    CreateProcs(k, q);
    AdmitFacts(k, q);
    BuiltDir(k, own, q.buf);
  }

  /** Fourteen processes besides the shell take all frames. A request of 0xFFC00000 bytes is
      then let through, its size and a page adding up to zero, and finds no frame. */
  lemma WrappedRequestAdmitted(poolBase: uint32, kernelAddr: uint32, shell: ExecRequest, q: ExecRequest, r: ExecRequest)
    requires AddressesOk(poolBase, kernelAddr) && shell.buf == 0 && shell.bufferSize == 0x10_0000 && Modest(q)
    requires r.buf < KERNEL_VIRTUAL_ADDRESS_BASE && r.bufferSize == 0xFFC0_0000
    ensures var k := Booted(poolBase, kernelAddr, shell);
            && AllAllowed(k, Spawns(q, 14))
            && var full := Run(k, Spawns(q, 14));
               && Sound(full) && full.free == 0 && CountFalse(full.frames) == 0
               && Admit(full, r) == SUCCESS && !CreateReady(full, r)
  {
    hide PagingInv, ProcInv, CountFalse, LiveCount, Booted, Modest, CreateReady, Run, AllAllowed, Spawns;
    BootedBacked(poolBase, kernelAddr, shell);
    SpawnsFit(Booted(poolBase, kernelAddr, shell), q, 14);
    var full := Run(Booted(poolBase, kernelAddr, shell), Spawns(q, 14));
    var own :| KInv(full, own);
    GuardSufficesIff(full, own, r);
    NoneFree(full, own);
    assert FramesNeeded(0xFFC0_0000) == 0;
  }

  lemma NoneFree(k: Sys, own: map<nat, Mapping>)
    requires PagingInv(k, own)
    ensures CountFalse(k.frames) == k.free
  {
    hide CountFalse;
  }
}
