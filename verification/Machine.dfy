/** The kernel's process and paging state, changed in place by arrays and fields, each
    operation computing what `Processes` says. */
module Machine {
  import opened Layout
  import opened Processes
  import opened AddressSpace

  class Kernel {
    const processList: array<PCB>
    const listOfProcess: array<bool>
    var activeProcessCount: nat
    const pageFrameMap: array<bool>
    var freePageFrameCount: nat
    const pageDirectoryList: array<PageDir>
    const pageDirectoryUsed: array<bool>
    var kernelPageDirectory: PageDir
    var cr3: uint32
    const poolBase: uint32
    const kernelAddr: uint32

    ghost predicate Valid()
      reads this, listOfProcess
    {
      && processList.Length == listOfProcess.Length == PROCESS_COUNT_MAX
      && pageFrameMap.Length == PAGE_FRAME_MAX_COUNT
      && pageDirectoryList.Length == pageDirectoryUsed.Length == PAGING_DIRECTORY_TABLE_MAX_COUNT
      && listOfProcess != pageFrameMap && listOfProcess != pageDirectoryUsed && pageFrameMap != pageDirectoryUsed
      && AddressesOk(poolBase, kernelAddr)
      // The kernel never sets these flags, so `process_destroy` never stops at one.
      && forall i :: 0 <= i < listOfProcess.Length ==> !listOfProcess[i]
    }

    ghost function Footprint(): set<object>
    {
      {this, processList, listOfProcess, pageFrameMap, pageDirectoryList, pageDirectoryUsed}
    }

    ghost function View(): (k: Sys)
      requires Valid()
      reads this, processList, listOfProcess, pageFrameMap, pageDirectoryList, pageDirectoryUsed
      ensures k.Shaped()
    {
      Sys(processList[..], activeProcessCount, pageFrameMap[..], freePageFrameCount, pageDirectoryList[..],
              pageDirectoryUsed[..], kernelPageDirectory, cr3, poolBase, kernelAddr)
    }

    /** The state the loader hands over. */
    constructor (poolBase: uint32, kernelAddr: uint32)
      requires AddressesOk(poolBase, kernelAddr)
      ensures Valid() && View() == Loaded(poolBase, kernelAddr)
      ensures fresh(Footprint())
    {
      this.poolBase := poolBase;
      this.kernelAddr := kernelAddr;
      processList := new PCB[PROCESS_COUNT_MAX](_ => ZERO_PCB);
      listOfProcess := new bool[PROCESS_COUNT_MAX](_ => false);
      activeProcessCount := 0;
      pageFrameMap := new bool[PAGE_FRAME_MAX_COUNT](i => i == 0);
      freePageFrameCount := PAGE_FRAME_MAX_COUNT - 1;
      pageDirectoryList := new PageDir[PAGING_DIRECTORY_TABLE_MAX_COUNT](_ => EmptyDir());
      pageDirectoryUsed := new bool[PAGING_DIRECTORY_TABLE_MAX_COUNT](_ => false);
      kernelPageDirectory := EmptyDir()[KERNEL_ENTRY := KERNEL_PDE];
      cr3 := kernelAddr - KERNEL_VIRTUAL_ADDRESS_BASE;
    }

    // -- Paging --

    method UsePageDirectory(addr: uint32)
      requires Valid()
      modifies `cr3
      ensures Valid() && View() == UseDir(old(View()), addr)
    {
      var physical := addr;
      if addr > KERNEL_VIRTUAL_ADDRESS_BASE {
        physical := physical - KERNEL_VIRTUAL_ADDRESS_BASE;
      }
      cr3 := physical;
    }

    method CurrentPageDirectory() returns (addr: uint32)
      requires Valid()
      ensures addr == CurrentDir(View())
    {
      addr := (cr3 + KERNEL_VIRTUAL_ADDRESS_BASE) % WORD;
    }

    /** An unused directory of the pool with the kernel's entry; NULL when there is none. */
    method CreatePageDirectory() returns (i: nat, addr: uint32)
      requires Valid()
      modifies pageDirectoryList, pageDirectoryUsed
      ensures Valid() && i == FirstFalse(old(View()).used)
      ensures i < PAGING_DIRECTORY_TABLE_MAX_COUNT ==> View() == TakeDir(old(View())) && addr == old(View()).PoolAddr(i)
      ensures i == PAGING_DIRECTORY_TABLE_MAX_COUNT ==> View() == old(View()) && addr == 0
    {
      ghost var k := View();
      i := 0;
      while i < PAGING_DIRECTORY_TABLE_MAX_COUNT
        invariant i <= PAGING_DIRECTORY_TABLE_MAX_COUNT && Valid() && View() == k
        invariant FirstFalse(k.used) == FirstFalse(k.used, i)
      {
        if !pageDirectoryUsed[i] {
          pageDirectoryUsed[i] := true;
          pageDirectoryList[i] := pageDirectoryList[i][KERNEL_ENTRY := KERNEL_PDE];
          return i, poolBase + 0x1000 * i;
        }
        i := i + 1;
      }
      addr := 0;
    }

    method FreePageDirectory(addr: uint32) returns (freed: bool)
      requires Valid()
      modifies pageDirectoryList, pageDirectoryUsed
      ensures Valid() && View() == FreeDir(old(View()), addr)
      ensures freed <==> DirAtAddr(old(View()), addr) < PAGING_DIRECTORY_TABLE_MAX_COUNT
    {
      ghost var k := View();
      for i := 0 to PAGING_DIRECTORY_TABLE_MAX_COUNT
        invariant Valid() && View() == k
        invariant DirAtAddr(k, addr) == DirAtAddr(k, addr, i)
      {
        if poolBase + 0x1000 * i == addr {
          pageDirectoryUsed[i] := false;
          for j := 0 to PAGE_ENTRY_COUNT
            invariant Valid() && pageDirectoryUsed[..] == k.used[i := false] && pageDirectoryList.Length == |k.pool|
            invariant forall x :: 0 <= x < |k.pool| && x != i ==> pageDirectoryList[x] == k.pool[x]
            invariant forall x :: 0 <= x < j ==> pageDirectoryList[i][x] == ABSENT
          {
            pageDirectoryList[i] := pageDirectoryList[i][j := ABSENT];
          }
          assert pageDirectoryList[i] == EmptyDir();
          assert pageDirectoryList[..] == k.pool[i := EmptyDir()];
          return true;
        }
      }
      return false;
    }

    /** The lowest free frame, marked used and uncounted. */
    method ClaimFrame() returns (idx: nat)
      requires Valid() && FirstFalse(View().frames) < PAGE_FRAME_MAX_COUNT && freePageFrameCount > 0
      modifies pageFrameMap, `freePageFrameCount
      ensures Valid() && idx == FirstFalse(old(View()).frames)
      ensures View() == old(View()).(frames := TakeFrame(old(View()).frames), free := old(View()).free - 1)
    {
      ghost var k := View();
      idx := 0;
      while pageFrameMap[idx]
        invariant idx < PAGE_FRAME_MAX_COUNT && FirstFalse(k.frames) == FirstFalse(k.frames, idx)
        decreases PAGE_FRAME_MAX_COUNT - idx
      {
        idx := idx + 1;
      }
      pageFrameMap[idx] := true;
      freePageFrameCount := freePageFrameCount - 1;
    }

    method AllocateInPool(i: nat, vaddr: uint32)
      requires Valid() && i < PAGING_DIRECTORY_TABLE_MAX_COUNT
      requires FirstFalse(View().frames) < PAGE_FRAME_MAX_COUNT && freePageFrameCount > 0
      modifies pageFrameMap, `freePageFrameCount, pageDirectoryList
      ensures Valid() && View() == AllocInPool(old(View()), i, vaddr)
    {
      var idx := ClaimFrame();
      pageDirectoryList[i] := pageDirectoryList[i][PageIndex(vaddr) := UserPDE(idx)];
    }

    method AllocateInKernel(vaddr: uint32)
      requires Valid()
      requires FirstFalse(View().frames) < PAGE_FRAME_MAX_COUNT && freePageFrameCount > 0
      modifies pageFrameMap, `freePageFrameCount, `kernelPageDirectory
      ensures Valid() && View() == AllocInKernel(old(View()), vaddr)
    {
      var idx := ClaimFrame();
      kernelPageDirectory := kernelPageDirectory[PageIndex(vaddr) := UserPDE(idx)];
    }

    method FreeUserPageFrame(d: nat, vaddr: uint32)
      requires Valid() && d <= KERNEL_DIR && DirNo(View(), d)[PageIndex(vaddr)].frame < PAGE_FRAME_MAX_COUNT
      modifies pageFrameMap, `freePageFrameCount, pageDirectoryList, `kernelPageDirectory
      ensures Valid() && View() == FreeFrame(old(View()), d, vaddr)
    {
      var dir := if d < KERNEL_DIR then pageDirectoryList[d] else kernelPageDirectory;
      var physAddress := dir[PageIndex(vaddr)].frame;
      pageFrameMap[physAddress] := false;
      freePageFrameCount := freePageFrameCount + 1;
      if d < KERNEL_DIR {
        pageDirectoryList[d] := dir[PageIndex(vaddr) := ABSENT];
      } else {
        kernelPageDirectory := dir[PageIndex(vaddr) := ABSENT];
      }
    }

    // -- Processes --

    method CurrentRunning() returns (r: nat)
      requires Valid()
      ensures r == FirstRunning(View().procs)
    {
      r := 0;
      while r < PROCESS_COUNT_MAX && !processList[r].state.Running?
        invariant r <= PROCESS_COUNT_MAX && FirstRunning(View().procs) == FirstRunning(View().procs, r)
      {
        r := r + 1;
      }
    }

    method CreateUserProcess(q: ExecRequest) returns (code: int)
      requires Valid() && CreateReady(View(), q)
      modifies Footprint() - {listOfProcess}
      ensures Valid() && Create(old(View()), q) == Created(View(), code)
      ensures code == if old(activeProcessCount) >= 16 then 1
                      else if q.buf >= 0xC000_0000 then 2
                      else if 0x1C0_0000 < q.bufferSize < 0xFFC0_0000
                              || (old(freePageFrameCount) == 0 && q.bufferSize != 0xFFC0_0000) then 3
                      else 0
      ensures code != 0 ==> View() == old(View())
    {
      CreateAnswers(View(), q);
      if activeProcessCount >= PROCESS_COUNT_MAX {
        return FAIL_MAX_PROCESS_EXCEEDED;
      }
      if q.buf >= KERNEL_VIRTUAL_ADDRESS_BASE {
        return FAIL_INVALID_ENTRYPOINT;
      }
      var needed := CeilDiv((q.bufferSize + PAGE_FRAME_SIZE) % WORD, PAGE_FRAME_SIZE);
      if freePageFrameCount < CeilDiv(needed, PAGE_FRAME_SIZE) || needed > PROCESS_PAGE_FRAME_COUNT_MAX {
        return FAIL_NOT_ENOUGH_MEMORY;
      }
      SpawnProcess(q);
      return SUCCESS;
    }

    /** A new address space, current when this returns. */
    method LoadSpace(entry: uint32) returns (dir: uint32)
      requires Valid() && FirstFalse(View().used) < PAGING_DIRECTORY_TABLE_MAX_COUNT
      requires CountFalse(View().frames) >= 2 && freePageFrameCount >= 2
      modifies pageFrameMap, pageDirectoryList, pageDirectoryUsed, `freePageFrameCount, `cr3
      ensures Valid() && dir == old(View()).PoolAddr(FirstFalse(old(View()).used))
      ensures View() == UseDir(BuildSpace(old(View()), entry), dir)
    {
      hide CountFalse, FirstFalse, MapFrame, TakeFrame;
      ghost var k := View();
      var i;
      i, dir := CreatePageDirectory();
      UsePageDirectory(dir);
      TwoFrames(k.frames);
      AllocateInPool(i, entry);
      AllocateInPool(i, USER_STACK);
    }

    /** Creation once admitted. */
    method SpawnProcess(q: ExecRequest)
      requires Valid() && CreateReady(View(), q) && Admit(View(), q) == SUCCESS
      modifies Footprint() - {listOfProcess}
      ensures Valid() && Create(old(View()), q) == Created(View(), SUCCESS)
    {
      hide CountFalse, FirstFalse, BuildSpace, Admit, InitialContext;
      AdmitFacts(View(), q);
      var p := activeProcessCount;
      var oldDir := CurrentPageDirectory();
      var dir := LoadSpace(q.buf);
      UsePageDirectory(oldDir);
      processList[p] := PCB(p, q.name, Ready, InitialContext(processList[p].context, q.buf, dir));
      activeProcessCount := p + 1;
    }

    method DestroyProcess(pid: uint32) returns (done: bool)
      requires Valid() && DestroyReady(View(), pid)
      modifies Footprint() - {pageFrameMap}
      ensures Valid() && View() == Destroy(old(View()), pid) && (done <==> pid < PROCESS_COUNT_MAX)
    {
      if pid >= PROCESS_COUNT_MAX {
        return false;
      }
      if listOfProcess[pid] {
        return false;
      }
      var i := 0;
      while processList[i].pid != pid
        invariant i < PROCESS_COUNT_MAX && FirstPid(View().procs, pid) == FirstPid(View().procs, pid, i)
        decreases PROCESS_COUNT_MAX - i
      {
        i := i + 1;
      }
      var freed := FreePageDirectory(processList[i].context.pageDir);
      listOfProcess[pid] := false;
      processList[pid] := ZERO_PCB;
      activeProcessCount := activeProcessCount - 1;
      return true;
    }

    // -- The scheduler --

    method SaveContext(c: Context)
      requires Valid()
      modifies processList
      ensures Valid() && View() == Save(old(View()), c)
    {
      var r := CurrentRunning();
      if r < PROCESS_COUNT_MAX {
        processList[r] := processList[r].(context := c);
      }
    }

    /** The cyclic search for a ready process after slot `run`. */
    method PickNext(run: nat) returns (next: nat)
      requires Valid() && run < PROCESS_COUNT_MAX
      ensures next == NextReady(View().procs, After(run), run) < PROCESS_COUNT_MAX
    {
      next := if run + 1 < PROCESS_COUNT_MAX then run + 1 else 0;
      while !processList[next].state.Ready? && next != run
        invariant next < PROCESS_COUNT_MAX
        invariant NextReady(View().procs, After(run), run) == NextReady(View().procs, next, run)
        decreases if next <= run then run - next else run + PROCESS_COUNT_MAX - next
      {
        next := if next + 1 < PROCESS_COUNT_MAX then next + 1 else 0;
      }
    }

    method SetState(i: nat, state: State)
      requires Valid() && i < PROCESS_COUNT_MAX
      modifies processList
      ensures Valid() && View() == old(View()).(procs := SetTo(old(View()).procs, i, state))
    {
      processList[i] := processList[i].(state := state);
    }

    /** Picks the next process and hands its context to the switch, which does not return. */
    method SwitchToNextProcess() returns (resumed: Context)
      requires Valid()
      modifies processList, `cr3
      ensures Valid() && View() == Switch(old(View()))
      ensures resumed == old(View()).procs[Chosen(old(View()).procs)].context
    {
      hide NextReady, FirstRunning, SetTo;
      ghost var k := View();
      var run := CurrentRunning();
      if run == PROCESS_COUNT_MAX {
        run := 0;
        SetState(0, Running);
      }
      SwitchSteps(k.procs);
      var next := PickNext(run);
      SetState(run, Ready);
      SetState(next, Running);
      UsePageDirectory(processList[next].context.pageDir);
      resumed := processList[next].context;
    }

    /** The timer branch of the interrupt handler. */
    method TimerInterrupt(cpu: Registers, eip: uint32, eflags: bv32) returns (resumed: Context)
      requires Valid()
      modifies processList, `cr3
      ensures Valid() && View() == Tick(old(View()), cpu, eip, eflags)
      ensures resumed == Resumed(old(View()), cpu, eip, eflags)
    {
      var dir := CurrentPageDirectory();
      SaveContext(Context(cpu, eip, eflags, dir));
      resumed := SwitchToNextProcess();
    }

    /** Kernel start-up: a frame for the kernel, the shell's process, the first switch. */
    method Boot(shell: ExecRequest) returns (resumed: Context)
      requires Valid() && View() == Loaded(poolBase, kernelAddr) && shell.buf == 0 && shell.bufferSize == 0x10_0000
      modifies Footprint() - {listOfProcess}
      ensures Valid() && View() == Booted(poolBase, kernelAddr, shell)
      ensures resumed == InitialContext(ZERO_PCB.context, shell.buf, poolBase)
    {
      LoadedReady(poolBase, kernelAddr, shell);
      AllocateInKernel(0);
      var code := CreateUserProcess(shell);
      resumed := SwitchToNextProcess();
    }
  }
}
