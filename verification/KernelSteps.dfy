/** Every kernel step keeps the invariant, from start-up on. */
module KernelSteps {
  import opened Layout
  import opened Processes
  import opened KernelInv

  /** `j` uses the directories of `k`: addresses are the same. */
  lemma SamePool(k: Sys, j: Sys, addr: uint32)
    requires k.Shaped() && j.Shaped() && j.poolBase == k.poolBase
    ensures DirAtAddr(j, addr) == DirAtAddr(k, addr)
  {
    var a, b := DirAtAddr(k, addr), DirAtAddr(j, addr);
    assert a < b ==> j.PoolAddr(a) != addr;
    assert b < a ==> k.PoolAddr(b) != addr;
  }

  lemma PoolAddrFound(k: Sys, i: nat)
    requires k.Shaped() && i < PAGING_DIRECTORY_TABLE_MAX_COUNT
    ensures DirAtAddr(k, k.PoolAddr(i)) == i
    ensures KERNEL_VIRTUAL_ADDRESS_BASE < k.PoolAddr(i)
  {
  }

  lemma SlotAt(k: Sys, i: nat)
    requires ProcInv(k) && i < PROCESS_COUNT_MAX
    ensures SlotOk(k, i)
  {
  }

  /** Switching to a directory and back gives CR3 back. */
  lemma ReturnRestores(k: Sys, dir: uint32)
    requires k.Shaped() && 0 < k.cr3 < WORD - KERNEL_VIRTUAL_ADDRESS_BASE
    ensures UseDir(UseDir(k, dir), CurrentDir(k)) == k
  {
  }

  // -- Create --

  lemma CreateProcs(k: Sys, q: ExecRequest)
    requires ProcInv(k) && CreateReady(k, q) && Admit(k, q) == SUCCESS
    ensures k.active < PROCESS_COUNT_MAX && FirstFalse(k.used) < |k.used|
    ensures var r, i := Create(k, q).sys, FirstFalse(k.used);
            && Create(k, q).code == SUCCESS
            && r.cr3 == k.cr3 && r.active == k.active + 1 && r.used == k.used[i := true] && r.poolBase == k.poolBase
            && r.procs == k.procs[k.active := PCB(k.active, q.name, Ready,
                                                  InitialContext(k.procs[k.active].context, q.buf, k.PoolAddr(i)))]
            && !k.used[i]
  {
    hide CountFalse, FirstFalse, TakeFrame, MapFrame, SlotOk, LiveCount, InitialContext, Admit;
    AdmitFacts(k, q);
    ReturnRestores(BuildSpace(k, q.buf), k.PoolAddr(FirstFalse(k.used)));
    FirstIsFalse(k.used);
  }

  lemma CreateKeepsProcs(k: Sys, q: ExecRequest)
    requires ProcInv(k) && CreateReady(k, q) && Admit(k, q) == SUCCESS
    ensures ProcInv(Create(k, q).sys)
  {
    hide CountFalse, FirstFalse, LiveCount, InitialContext, Admit, Create, DirAtAddr;
    CreateProcs(k, q);
    var r, i, p := Create(k, q).sys, FirstFalse(k.used), k.active;
    PoolAddrFound(k, i);
    LiveUpdate(k.procs, p, r.procs[p]);
    InitialDir(k.procs[p].context, q.buf, k.PoolAddr(i));
    forall j | 0 <= j < PROCESS_COUNT_MAX
      ensures SlotOk(r, j)
      ensures j != p && Alive(k.procs[j]) ==> k.procs[j].context.pageDir != k.PoolAddr(i)
    {
      SlotAt(k, j);
      SamePool(k, r, r.procs[j].context.pageDir);
    }
  }

  lemma InitialDir(c: Context, entry: uint32, dir: uint32)
    ensures InitialContext(c, entry, dir).pageDir == dir
  {
  }

  /** Creation, admitted or not, keeps the invariant. */
  lemma CreateKeeps(k: Sys, own: map<nat, Mapping>, q: ExecRequest) returns (own': map<nat, Mapping>)
    requires KInv(k, own) && CreateReady(k, q)
    ensures KInv(Create(k, q).sys, own')
  {
    own' := own;
    if Admit(k, q) == SUCCESS {
      hide CountFalse, FirstFalse, ProcInv, PagingInv, BuildSpace, InitialContext, Admit;
      AdmitFacts(k, q);
      BuildKeepsPaging(k, own, q);
      own' := OwnAfterCreate(k, own, q);
      CreateKeepsProcs(k, q);
      SamePaging(BuildSpace(k, q.buf), Create(k, q).sys, own');
    }
  }

  /** Paging does not look at the process table or CR3. */
  lemma SamePaging(k: Sys, j: Sys, own: map<nat, Mapping>)
    requires PagingInv(k, own) && j.Shaped()
    requires j.frames == k.frames && j.free == k.free && j.pool == k.pool && j.used == k.used
    requires j.kernelDir == k.kernelDir
    ensures PagingInv(j, own)
  {
    forall d | 0 <= d <= KERNEL_DIR ensures DirOk(j, own, d) {
      assert DirOk(k, own, d);
      forall e | 0 <= e < PAGE_ENTRY_COUNT && e != KERNEL_ENTRY && DirNo(j, d)[e].present
        ensures MappingOk(j, own, d, e)
      {
        assert MappingOk(k, own, d, e);
      }
    }
  }

  // -- Destroy --

  lemma PidIsSlot(k: Sys, pid: uint32)
    requires ProcInv(k) && 0 < pid < PROCESS_COUNT_MAX && Alive(k.procs[pid])
    ensures FirstPid(k.procs, pid) == pid && DestroyReady(k, pid)
  {
    hide LiveCount;
    SlotAt(k, pid);
    var i := FirstPid(k.procs, pid);
    SlotAt(k, i) by { assert i <= pid; }
    LiveSome(k.procs, pid);
  }

  lemma FreeKeepsPaging(k: Sys, own: map<nat, Mapping>, addr: uint32)
    requires PagingInv(k, own) && DirAtAddr(k, addr) < PAGING_DIRECTORY_TABLE_MAX_COUNT && k.used[DirAtAddr(k, addr)]
    ensures PagingInv(FreeDir(k, addr), own)
  {
    hide CountFalse, DirAtAddr;
    var i := DirAtAddr(k, addr);
    CountUpdate(k.used, i, false);
    forall d | 0 <= d <= KERNEL_DIR ensures DirOk(FreeDir(k, addr), own, d) {
      assert DirOk(k, own, d);
      forall e | 0 <= e < PAGE_ENTRY_COUNT && e != KERNEL_ENTRY && DirNo(FreeDir(k, addr), d)[e].present
        ensures MappingOk(FreeDir(k, addr), own, d, e)
      {
        assert d != i && MappingOk(k, own, d, e);
      }
    }
  }

  /** Destroying a live process other than the first keeps the invariant. */
  lemma DestroyKeeps(k: Sys, own: map<nat, Mapping>, pid: uint32)
    requires KInv(k, own) && 0 < pid < PROCESS_COUNT_MAX && Alive(k.procs[pid])
    ensures DestroyReady(k, pid) && KInv(Destroy(k, pid), own)
  {
    hide CountFalse, LiveCount, PagingInv, FirstPid;
    PidIsSlot(k, pid);
    SlotAt(k, pid);
    var r := Destroy(k, pid);
    var addr := k.procs[pid].context.pageDir;
    FreeKeepsPaging(k, own, addr);
    SamePaging(FreeDir(k, addr), r, own);
    LiveUpdate(k.procs, pid, ZERO_PCB);
    forall j | 0 <= j < PROCESS_COUNT_MAX ensures SlotOk(r, j) {
      SlotAt(k, j);
      SamePool(k, r, r.procs[j].context.pageDir);
    }
  }

  // -- Tick --

  /** The process a tick may resume. */
  lemma ChosenAlive(k: Sys)
    requires ProcInv(k) && Alive(k.procs[0])
    ensures Alive(k.procs[Chosen(k.procs)]) && Alive(k.procs[Leaving(k.procs)])
    ensures k.procs[Chosen(k.procs)].state.Ready? || Chosen(k.procs) == Leaving(k.procs)
  {
  }

  lemma SwitchKeeps(k: Sys, own: map<nat, Mapping>)
    requires KInv(k, own) && Alive(k.procs[0])
    ensures KInv(Switch(k), own)
    ensures forall i :: 0 <= i < PROCESS_COUNT_MAX ==>
              (Switch(k).procs[i].state.Running? <==> i == Chosen(k.procs))
  {
    hide CountFalse, LiveCount, PagingInv, NextReady, Chosen, Leaving, DirAtAddr, SlotOk;
    ChosenAlive(k);
    var r, a, n := Switch(k), Leaving(k.procs), Chosen(k.procs);
    SamePaging(k, r, own);
    LeavesRunning(k.procs);
    SwitchedCount(k.procs, a, n);
    LiveDir(k, n);
    forall j | 0 <= j < PROCESS_COUNT_MAX ensures SlotOk(r, j) { SwitchedSlot(k, j); }
  }

  lemma LiveDir(k: Sys, n: nat)
    requires ProcInv(k) && n < PROCESS_COUNT_MAX && Alive(k.procs[n])
    ensures KERNEL_VIRTUAL_ADDRESS_BASE < k.procs[n].context.pageDir
  {
    hide LiveCount, DirAtAddr;
    SlotAt(k, n);
  }

  lemma SwitchedSlot(k: Sys, j: nat)
    requires ProcInv(k) && Alive(k.procs[0]) && j < PROCESS_COUNT_MAX
    ensures SlotOk(Switch(k), j)
  {
    hide LiveCount, DirAtAddr, Chosen, Leaving;
    ChosenAlive(k);
    SlotAt(k, j);
    SamePool(k, Switch(k), k.procs[j].context.pageDir);
  }

  lemma LeavesRunning(procs: seq<PCB>)
    requires |procs| == PROCESS_COUNT_MAX
    requires forall i, j :: 0 <= i < j < PROCESS_COUNT_MAX && procs[i].state.Running? ==> !procs[j].state.Running?
    ensures forall i :: 0 <= i < PROCESS_COUNT_MAX && procs[i].state.Running? ==> i == Leaving(procs)
  {
  }

  lemma SwitchedCount(procs: seq<PCB>, a: nat, n: nat)
    requires a < |procs| && n < |procs| && Alive(procs[a]) && Alive(procs[n])
    ensures LiveCount(SetTo(SetTo(procs, a, Ready), n, Running)) == LiveCount(procs)
  {
    hide LiveCount;
    LiveUpdate(procs, a, procs[a].(state := Ready));
    var left := SetTo(procs, a, Ready);
    LiveUpdate(left, n, left[n].(state := Running));
  }

  /** The context saved keeps the process's own directory, so saving keeps the invariant. */
  lemma SaveKeeps(k: Sys, own: map<nat, Mapping>, cpu: Registers, eip: uint32, eflags: bv32)
    requires KInv(k, own)
    ensures KInv(Save(k, Interrupted(k, cpu, eip, eflags)), own)
  {
    hide CountFalse, LiveCount, PagingInv, DirAtAddr;
    var c := Interrupted(k, cpu, eip, eflags);
    var r, i := Save(k, c), FirstRunning(k.procs);
    SamePaging(k, r, own);
    if i < |k.procs| {
      assert c.pageDir == k.procs[i].context.pageDir;
      LiveUpdate(k.procs, i, k.procs[i].(context := c));
    }
    forall j | 0 <= j < PROCESS_COUNT_MAX ensures SlotOk(r, j) {
      SlotAt(k, j);
      SamePool(k, r, r.procs[j].context.pageDir);
    }
  }

  /** A tick keeps the invariant and leaves exactly one process running, with CR3 its own. */
  lemma TickKeeps(k: Sys, own: map<nat, Mapping>, cpu: Registers, eip: uint32, eflags: bv32)
    requires KInv(k, own) && Alive(k.procs[0])
    ensures var r := Tick(k, cpu, eip, eflags);
            && KInv(r, own) && Alive(r.procs[0])
            && FirstRunning(r.procs) < PROCESS_COUNT_MAX
            && r.procs[FirstRunning(r.procs)].context.pageDir == CurrentDir(r)
            && forall i :: 0 <= i < PROCESS_COUNT_MAX && r.procs[i].state.Running? ==> i == FirstRunning(r.procs)
  {
    hide CountFalse, LiveCount, PagingInv, DirAtAddr, NextReady, Chosen, Leaving, SlotOk;
    SaveKeeps(k, own, cpu, eip, eflags);
    var saved := Save(k, Interrupted(k, cpu, eip, eflags));
    SwitchKeeps(saved, own);
    assert Switch(saved).procs[Chosen(saved.procs)].state.Running?;
  }

  // -- Start-up --

  lemma LoadedKeeps(poolBase: uint32, kernelAddr: uint32, shell: ExecRequest)
    requires AddressesOk(poolBase, kernelAddr) && shell.buf == 0 && shell.bufferSize == 0x10_0000
    ensures var k := Loaded(poolBase, kernelAddr);
            && k.free > 0 && FirstFalse(k.frames) < PAGE_FRAME_MAX_COUNT
            && KInv(AllocInKernel(k, 0), map[1 := (KERNEL_DIR, 0)])
  {
    hide CountFalse, LiveCount;
    LoadedReady(poolBase, kernelAddr, shell);
    var k := AllocInKernel(Loaded(poolBase, kernelAddr), 0);
    var l := Loaded(poolBase, kernelAddr);
    assert FirstFalse(l.frames) == 1 by { assert l.frames[0] && !l.frames[1]; }
    NoneUsed(k.used, |k.used|);
    assert k.used[..|k.used|] == k.used;
    NoneAlive(k.procs, |k.procs|);
    assert k.procs[..|k.procs|] == k.procs;
  }

  lemma {:induction false} NoneUsed(used: seq<bool>, n: nat)
    requires n <= |used| && forall i :: 0 <= i < |used| ==> !used[i]
    ensures CountFalse(used[..n]) == n
  {
    if n > 0 {
      NoneUsed(used, n - 1);
      assert used[..n][..n - 1] == used[..n - 1];
    }
  }

  lemma {:induction false} NoneAlive(procs: seq<PCB>, n: nat)
    requires n <= |procs| && forall i :: 0 <= i < |procs| ==> !Alive(procs[i])
    ensures LiveCount(procs[..n]) == 0
  {
    if n > 0 {
      NoneAlive(procs, n - 1);
      assert procs[..n][..n - 1] == procs[..n - 1];
    }
  }

  /** Start-up establishes the invariant, with the shell alone, running. */
  lemma BootedKeeps(poolBase: uint32, kernelAddr: uint32, shell: ExecRequest) returns (own: map<nat, Mapping>)
    requires AddressesOk(poolBase, kernelAddr) && shell.buf == 0 && shell.bufferSize == 0x10_0000
    ensures var k := Booted(poolBase, kernelAddr, shell);
            && KInv(k, own) && Compact(k) && k.active == 1 && k.procs[0].state.Running? && k.free == 28
  {
    hide CountFalse, LiveCount, KInv, BuildSpace, Admit, Chosen, Leaving, CreateReady;
    LoadedReady(poolBase, kernelAddr, shell);
    LoadedKeeps(poolBase, kernelAddr, shell);
    var k := AllocInKernel(Loaded(poolBase, kernelAddr), 0);
    own := CreateKeeps(k, map[1 := (KERNEL_DIR, 0)], shell);
    var made := Create(k, shell).sys;
    ShellMade(k, shell, map[1 := (KERNEL_DIR, 0)]);
    SwitchKeeps(made, own);
    OnlyOne(made.procs);
  }

  lemma ShellMade(k: Sys, shell: ExecRequest, own: map<nat, Mapping>)
    requires KInv(k, own) && CreateReady(k, shell) && Admit(k, shell) == SUCCESS && k.active == 0 && k.free == 30
    requires forall i :: 0 <= i < PROCESS_COUNT_MAX ==> !Alive(k.procs[i])
    ensures var r := Create(k, shell).sys;
            && r.active == 1 && r.free == 28 && r.procs[0].state.Ready?
            && forall i :: 1 <= i < PROCESS_COUNT_MAX ==> !Alive(r.procs[i])
  {
    hide CountFalse, LiveCount, FirstFalse, SlotOk, InitialContext;
    CreateProcs(k, shell);
    BuiltDir(k, own, shell.buf);
  }

  lemma OnlyOne(procs: seq<PCB>)
    requires |procs| == PROCESS_COUNT_MAX && procs[0].state.Ready?
    requires forall i :: 1 <= i < PROCESS_COUNT_MAX ==> !Alive(procs[i])
    ensures Chosen(procs) == 0 == Leaving(procs)
  {
  }

  // -- The shape of the table --

  /** Live slots are exactly those below the count. */
  ghost predicate Compact(k: Sys) {
    && k.Shaped() && k.active <= PROCESS_COUNT_MAX
    && forall i :: 0 <= i < PROCESS_COUNT_MAX ==> (Alive(k.procs[i]) <==> i < k.active)
  }
}
