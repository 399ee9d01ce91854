/** The process table, the page frames, the pool of page directories and CR3, with what
    each kernel operation does to them as a function. `Machine.Kernel` is proved to
    compute these in place. */
module Processes {
  import opened Layout

  const PROCESS_COUNT_MAX := 16
  const PAGE_FRAME_MAX_COUNT := 32
  const PAGING_DIRECTORY_TABLE_MAX_COUNT := 32
  const PAGE_ENTRY_COUNT := 1024
  const PAGE_FRAME_SIZE := 0x40_0000
  const PROCESS_PAGE_FRAME_COUNT_MAX := 8
  const KERNEL_VIRTUAL_ADDRESS_BASE := 0xC000_0000
  const KERNEL_ENTRY := 0x300
  const KERNEL_DIR := PAGING_DIRECTORY_TABLE_MAX_COUNT
  const USER_STACK: uint32 := 0xBFFF_FFFC
  const USER_DATA_SEGMENT: uint32 := 0x23
  const EFLAGS_INITIAL: bv32 := 0x202
  const WORD := 0x1_0000_0000

  // -- Paging structures --

  /** The fields of a page directory entry the kernel sets; `frame` is its lower address. */
  datatype PDE = PDE(present: bool, write: bool, user: bool, pageSize: bool, frame: nat)

  const ABSENT := PDE(false, false, false, false, 0)
  const KERNEL_PDE := PDE(true, true, false, true, 0)

  type PageDir = d: seq<PDE> | |d| == PAGE_ENTRY_COUNT witness seq(PAGE_ENTRY_COUNT, _ => ABSENT)

  function EmptyDir(): (d: PageDir)
    ensures forall i :: 0 <= i < |d| ==> d[i] == ABSENT
  {
    seq(PAGE_ENTRY_COUNT, _ => ABSENT)
  }

  function UserPDE(frame: nat): PDE {
    PDE(true, true, true, true, frame)
  }

  /** The directory entry that translates a virtual address. */
  function PageIndex(vaddr: uint32): (i: nat)
    ensures i < PAGE_ENTRY_COUNT
  {
    vaddr / PAGE_FRAME_SIZE % PAGE_ENTRY_COUNT
  }

  // -- Processes --

  datatype Registers = Registers(edi: uint32, esi: uint32, ebp: uint32, esp: uint32, ebx: uint32,
                                 edx: uint32, ecx: uint32,
                                 eax: uint32, gs: uint32, fs: uint32, es: uint32, ds: uint32)
  datatype Context = Context(cpu: Registers, eip: uint32, eflags: bv32, pageDir: uint32)
  datatype State = NoProcess | Ready | Running | Blocked
  datatype PCB = PCB(pid: uint32, name: Name, state: State, context: Context)

  const ZERO_PCB :=
    PCB(0, NO_NAME, NoProcess, Context(Registers(0, 0, 0, 0, 0, 0, 0, 0, 0, 0, 0, 0), 0, 0, 0))

  /** `poolBase` and `kernelAddr` are the virtual addresses where the pool of page
      directories and the kernel's own one were linked. */
  datatype Sys = Sys(procs: seq<PCB>, active: nat, frames: seq<bool>, free: nat, pool: seq<PageDir>, used: seq<bool>,
                     kernelDir: PageDir, cr3: uint32, poolBase: uint32, kernelAddr: uint32)
  {
    ghost predicate Shaped() {
      && |procs| == PROCESS_COUNT_MAX
      && |frames| == PAGE_FRAME_MAX_COUNT
      && |pool| == |used| == PAGING_DIRECTORY_TABLE_MAX_COUNT
      && AddressesOk(poolBase, kernelAddr)
    }

    /** Where directory `i` of the pool lies. */
    function PoolAddr(i: nat): uint32
      requires Shaped() && i < PAGING_DIRECTORY_TABLE_MAX_COUNT
    {
      poolBase + 0x1000 * i
    }
  }

  // -- Searches --

  function FirstFalse(flags: seq<bool>, from: nat := 0): (i: nat)
    requires from <= |flags|
    ensures from <= i <= |flags|
    ensures forall k :: from <= k < i ==> flags[k]
    ensures i < |flags| ==> !flags[i]
    decreases |flags| - from
  {
    if from == |flags| || !flags[from] then from else FirstFalse(flags, from + 1)
  }

  /** The running process, or the table's length when there is none. */
  function FirstRunning(procs: seq<PCB>, from: nat := 0): (i: nat)
    requires from <= |procs|
    ensures from <= i <= |procs|
    ensures forall k :: from <= k < i ==> !procs[k].state.Running?
    ensures i < |procs| ==> procs[i].state.Running?
    decreases |procs| - from
  {
    if from == |procs| || procs[from].state.Running? then from else FirstRunning(procs, from + 1)
  }

  function FirstPid(procs: seq<PCB>, pid: uint32, from: nat := 0): (i: nat)
    requires from <= |procs|
    ensures from <= i <= |procs|
    ensures forall k :: from <= k < i ==> procs[k].pid != pid
    ensures i < |procs| ==> procs[i].pid == pid
    decreases |procs| - from
  {
    if from == |procs| || procs[from].pid == pid then from else FirstPid(procs, pid, from + 1)
  }

  function After(i: nat): (j: nat)
    requires i < PROCESS_COUNT_MAX
    ensures j < PROCESS_COUNT_MAX
  {
    if i + 1 < PROCESS_COUNT_MAX then i + 1 else 0
  }

  /** The slot the cyclic search stops at: ready, or back where it began. `left` slots
      separate `i` from `start`. */
  function NextReady(procs: seq<PCB>, i: nat, start: nat): (j: nat)
    requires |procs| == PROCESS_COUNT_MAX && i < |procs| && start < |procs|
    ensures j < |procs| && (procs[j].state.Ready? || j == start)
    decreases if i <= start then start - i else start + PROCESS_COUNT_MAX - i
  {
    if procs[i].state.Ready? || i == start then i else NextReady(procs, After(i), start)
  }

  // -- Paging operations --

  function UseDir(k: Sys, addr: uint32): Sys {
    k.(cr3 := if addr > KERNEL_VIRTUAL_ADDRESS_BASE then addr - KERNEL_VIRTUAL_ADDRESS_BASE else addr)
  }

  function CurrentDir(k: Sys): uint32 {
    (k.cr3 + KERNEL_VIRTUAL_ADDRESS_BASE) % WORD
  }

  /** Directory `i` of the pool taken and given the kernel's entry. */
  function TakeDir(k: Sys): (r: Sys)
    requires k.Shaped() && FirstFalse(k.used) < |k.used|
    ensures r.Shaped()
  {
    var i := FirstFalse(k.used);
    k.(used := k.used[i := true], pool := k.pool[i := k.pool[i][KERNEL_ENTRY := KERNEL_PDE]])
  }

  /** The pool directory at `addr`, or the pool's size when none lies there. */
  function DirAtAddr(k: Sys, addr: uint32, from: nat := 0): (i: nat)
    requires k.Shaped() && from <= PAGING_DIRECTORY_TABLE_MAX_COUNT
    ensures from <= i <= PAGING_DIRECTORY_TABLE_MAX_COUNT
    ensures i < PAGING_DIRECTORY_TABLE_MAX_COUNT ==> k.PoolAddr(i) == addr
    ensures forall j :: from <= j < i ==> k.PoolAddr(j) != addr
    decreases PAGING_DIRECTORY_TABLE_MAX_COUNT - from
  {
    if from == PAGING_DIRECTORY_TABLE_MAX_COUNT || k.PoolAddr(from) == addr then from else DirAtAddr(k, addr, from + 1)
  }

  /** The directory at `addr` cleared and given back; nothing when no pool directory is there. */
  function FreeDir(k: Sys, addr: uint32): (r: Sys)
    requires k.Shaped()
    ensures r.Shaped()
  {
    var i := DirAtAddr(k, addr);
    if i == PAGING_DIRECTORY_TABLE_MAX_COUNT then k
    else k.(used := k.used[i := false], pool := k.pool[i := EmptyDir()])
  }

  /** The lowest free frame marked and mapped at `vaddr` in a directory. */
  function MapFrame(dir: PageDir, frames: seq<bool>, vaddr: uint32): (r: PageDir)
    requires FirstFalse(frames) < |frames|
  {
    dir[PageIndex(vaddr) := UserPDE(FirstFalse(frames))]
  }

  function TakeFrame(frames: seq<bool>): (r: seq<bool>)
    requires FirstFalse(frames) < |frames|
    ensures |r| == |frames|
  {
    frames[FirstFalse(frames) := true]
  }

  function AllocInPool(k: Sys, i: nat, vaddr: uint32): (r: Sys)
    requires k.Shaped() && i < PAGING_DIRECTORY_TABLE_MAX_COUNT && FirstFalse(k.frames) < PAGE_FRAME_MAX_COUNT
    requires k.free > 0
    ensures r.Shaped()
  {
    k.(pool := k.pool[i := MapFrame(k.pool[i], k.frames, vaddr)], frames := TakeFrame(k.frames), free := k.free - 1)
  }

  function AllocInKernel(k: Sys, vaddr: uint32): (r: Sys)
    requires k.Shaped() && FirstFalse(k.frames) < PAGE_FRAME_MAX_COUNT && k.free > 0
    ensures r.Shaped()
  {
    k.(kernelDir := MapFrame(k.kernelDir, k.frames, vaddr), frames := TakeFrame(k.frames), free := k.free - 1)
  }

  /** Directory `d` of the pool, or the kernel's own as number 32. */
  function DirNo(k: Sys, d: nat): PageDir
    requires k.Shaped() && d <= KERNEL_DIR
  {
    if d < KERNEL_DIR then k.pool[d] else k.kernelDir
  }

  function WithDir(k: Sys, d: nat, dir: PageDir): (r: Sys)
    requires k.Shaped() && d <= KERNEL_DIR
    ensures r.Shaped() && DirNo(r, d) == dir && r.frames == k.frames && r.free == k.free
    ensures forall x :: 0 <= x <= KERNEL_DIR && x != d ==> DirNo(r, x) == DirNo(k, x)
  {
    if d < KERNEL_DIR then k.(pool := k.pool[d := dir]) else k.(kernelDir := dir)
  }

  /** The lowest free frame mapped at `vaddr` in directory `d`. */
  function AllocFrame(k: Sys, d: nat, vaddr: uint32): (r: Sys)
    requires k.Shaped() && d <= KERNEL_DIR && FirstFalse(k.frames) < PAGE_FRAME_MAX_COUNT && k.free > 0
    ensures r.Shaped()
  {
    if d < KERNEL_DIR then AllocInPool(k, d, vaddr) else AllocInKernel(k, vaddr)
  }

  /** What is mapped at `vaddr` taken out of directory `d` and its frame given back. */
  function FreeFrame(k: Sys, d: nat, vaddr: uint32): (r: Sys)
    requires k.Shaped() && d <= KERNEL_DIR && DirNo(k, d)[PageIndex(vaddr)].frame < PAGE_FRAME_MAX_COUNT
    ensures r.Shaped()
  {
    WithDir(k, d, DirNo(k, d)[PageIndex(vaddr) := ABSENT])
    .(frames := k.frames[DirNo(k, d)[PageIndex(vaddr)].frame := false], free := k.free + 1)
  }

  // -- Processes --

  datatype ExecRequest = ExecRequest(name: Name, buf: uint32, bufferSize: uint32)

  const SUCCESS := 0
  const FAIL_MAX_PROCESS_EXCEEDED := 1
  const FAIL_INVALID_ENTRYPOINT := 2
  const FAIL_NOT_ENOUGH_MEMORY := 3

  function CeilDiv(a: nat, b: nat): nat
    requires b > 0
  {
    (a + b - 1) / b
  }

  /** Frames the executable and its stack need; the sum wraps at 32 bits. */
  function FramesNeeded(bufferSize: uint32): nat {
    CeilDiv((bufferSize + PAGE_FRAME_SIZE) % WORD, PAGE_FRAME_SIZE)
  }

  /** The guard before creation: it counts bytes where it is given frames. */
  function Admit(k: Sys, q: ExecRequest): (code: int) {
    if k.active >= PROCESS_COUNT_MAX then FAIL_MAX_PROCESS_EXCEEDED
    else if q.buf >= KERNEL_VIRTUAL_ADDRESS_BASE then FAIL_INVALID_ENTRYPOINT
    else if k.free < CeilDiv(FramesNeeded(q.bufferSize), PAGE_FRAME_SIZE)
            || FramesNeeded(q.bufferSize) > PROCESS_PAGE_FRAME_COUNT_MAX then FAIL_NOT_ENOUGH_MEMORY
    else SUCCESS
  }

  function CountFalse(flags: seq<bool>): (n: nat)
    ensures n <= |flags|
  {
    if flags == [] then 0 else CountFalse(flags[..|flags| - 1]) + if flags[|flags| - 1] then 0 else 1
  }

  /** What creation takes for granted once admitted: two free frames by the bitmap and by
      the counter, and a directory. */
  ghost predicate CreateReady(k: Sys, q: ExecRequest) {
    Admit(k, q) == SUCCESS ==> CountFalse(k.frames) >= 2 && k.free >= 2 && FirstFalse(k.used) < |k.used|
  }

  lemma AdmitFacts(k: Sys, q: ExecRequest)
    requires k.Shaped() && CreateReady(k, q) && Admit(k, q) == SUCCESS
    ensures k.active < PROCESS_COUNT_MAX && q.buf < KERNEL_VIRTUAL_ADDRESS_BASE
    ensures CountFalse(k.frames) >= 2 && k.free >= 2 && FirstFalse(k.used) < |k.used|
  {
  }

  function InitialContext(before: Context, entry: uint32, dir: uint32): Context {
    Context(before.cpu.(ds := USER_DATA_SEGMENT, es := USER_DATA_SEGMENT,
                        fs := USER_DATA_SEGMENT, gs := USER_DATA_SEGMENT,
                      ebp := USER_STACK, esp := USER_STACK),
            entry, before.eflags | EFLAGS_INITIAL, dir)
  }

  lemma TwoFrames(frames: seq<bool>)
    requires CountFalse(frames) >= 2
    ensures FirstFalse(frames) < |frames|
    ensures FirstFalse(TakeFrame(frames)) < |frames|
    ensures FirstFalse(frames) < FirstFalse(TakeFrame(frames))
  {
    AllTrueNone(frames);
    TakeCount(frames);
    AllTrueNone(TakeFrame(frames));
  }

  lemma {:induction false} AllTrueNone(flags: seq<bool>)
    ensures CountFalse(flags) == 0 <==> FirstFalse(flags) == |flags|
  {
    if flags != [] {
      var n := |flags| - 1;
      AllTrueNone(flags[..n]);
      var i := FirstFalse(flags[..n]);
      assert i < n ==> !flags[i];
    }
  }

  lemma {:induction false} CountUpdate(flags: seq<bool>, i: nat, b: bool)
    requires i < |flags|
    ensures CountFalse(flags[i := b]) == CountFalse(flags) + (if flags[i] then 0 else -1) + (if b then 0 else 1)
    decreases |flags|
  {
    var n := |flags| - 1;
    if i < n {
      CountUpdate(flags[..n], i, b);
      assert flags[i := b][..n] == flags[..n][i := b];
    } else {
      assert flags[i := b][..n] == flags[..n];
    }
  }

  lemma TakeCount(frames: seq<bool>)
    requires FirstFalse(frames) < |frames|
    ensures CountFalse(TakeFrame(frames)) == CountFalse(frames) - 1
  {
    CountUpdate(frames, FirstFalse(frames), true);
  }

  /** A process's address space: a directory from the pool, a page for its code, a page
      for its stack. */
  function BuildSpace(k: Sys, entry: uint32): (r: Sys)
    requires k.Shaped() && FirstFalse(k.used) < |k.used| && CountFalse(k.frames) >= 2 && k.free >= 2
    ensures r.Shaped() && r.procs == k.procs && r.active == k.active && r.cr3 == k.cr3
    ensures r.poolBase == k.poolBase && r.kernelAddr == k.kernelAddr
  {
    TwoFrames(k.frames);
    var i := FirstFalse(k.used);
    AllocInPool(AllocInPool(TakeDir(k), i, entry), i, USER_STACK)
  }

  datatype Created = Created(sys: Sys, code: int)

  function Create(k: Sys, q: ExecRequest): (r: Created)
    requires k.Shaped() && CreateReady(k, q)
    ensures r.sys.Shaped()
  {
    if Admit(k, q) != SUCCESS then Created(k, Admit(k, q))
    else
      var p := k.active;
      var dir := k.PoolAddr(FirstFalse(k.used));
      var built := BuildSpace(k, q.buf);
      var restored := UseDir(UseDir(built, dir), CurrentDir(k));
      var pcb := PCB(p, q.name, Ready, InitialContext(k.procs[p].context, q.buf, dir));
      Created(restored.(procs := k.procs[p := pcb], active := p + 1), SUCCESS)
  }

  /** Destroying needs the pid to be some slot's. */
  predicate DestroyReady(k: Sys, pid: uint32) {
    |k.procs| == PROCESS_COUNT_MAX && (pid < PROCESS_COUNT_MAX ==> FirstPid(k.procs, pid) < |k.procs| && k.active > 0)
  }

  function Destroy(k: Sys, pid: uint32): (r: Sys)
    requires k.Shaped() && DestroyReady(k, pid)
    ensures r.Shaped()
  {
    if pid >= PROCESS_COUNT_MAX then k
    else
      FreeDir(k, k.procs[FirstPid(k.procs, pid)].context.pageDir)
      .(procs := k.procs[pid := ZERO_PCB], active := k.active - 1)
  }

  // -- The timer --

  /** The interrupted context goes to the running process, if there is one. */
  function Save(k: Sys, c: Context): (r: Sys)
    requires k.Shaped()
    ensures r.Shaped()
  {
    var r := FirstRunning(k.procs);
    if r < |k.procs| then k.(procs := k.procs[r := k.procs[r].(context := c)]) else k
  }

  /** The slot the scheduler leaves: slot 0 when none is running. */
  function Leaving(procs: seq<PCB>): (r: nat)
    requires |procs| == PROCESS_COUNT_MAX
    ensures r < |procs|
  {
    if FirstRunning(procs) < |procs| then FirstRunning(procs) else 0
  }

  function SetTo(procs: seq<PCB>, i: nat, state: State): (r: seq<PCB>)
    requires i < |procs|
    ensures |r| == |procs|
  {
    procs[i := procs[i].(state := state)]
  }

  /** The slot it switches to. */
  function Chosen(procs: seq<PCB>): (n: nat)
    requires |procs| == PROCESS_COUNT_MAX
    ensures n < |procs|
  {
    var r := Leaving(procs);
    NextReady(SetTo(procs, r, Running), After(r), r)
  }

  function Switch(k: Sys): (r: Sys)
    requires k.Shaped()
    ensures r.Shaped()
  {
    var r, n := Leaving(k.procs), Chosen(k.procs);
    UseDir(k.(procs := SetTo(SetTo(k.procs, r, Ready), n, Running)), k.procs[n].context.pageDir)
  }

  /** Marking the slot to leave as running changes nothing that is kept. */
  lemma SwitchSteps(procs: seq<PCB>)
    requires |procs| == PROCESS_COUNT_MAX
    ensures FirstRunning(procs) < |procs| ==> SetTo(procs, Leaving(procs), Running) == procs
    ensures SetTo(SetTo(procs, Leaving(procs), Running), Leaving(procs), Ready) == SetTo(procs, Leaving(procs), Ready)
    ensures SetTo(SetTo(procs, Leaving(procs), Ready), Chosen(procs), Running)[Chosen(procs)].context
            == procs[Chosen(procs)].context
  {
  }

  /** What the timer interrupt saves: the registers it found and the directory CR3 names. */
  function Interrupted(k: Sys, cpu: Registers, eip: uint32, eflags: bv32): Context {
    Context(cpu, eip, eflags, CurrentDir(k))
  }

  function Tick(k: Sys, cpu: Registers, eip: uint32, eflags: bv32): (r: Sys)
    requires k.Shaped()
    ensures r.Shaped()
  {
    Switch(Save(k, Interrupted(k, cpu, eip, eflags)))
  }

  /** The context the switch is given at a tick. */
  function Resumed(k: Sys, cpu: Registers, eip: uint32, eflags: bv32): Context
    requires k.Shaped()
  {
    var saved := Save(k, Interrupted(k, cpu, eip, eflags));
    saved.procs[Chosen(saved.procs)].context
  }

  // -- Start-up --

  predicate AddressesOk(poolBase: uint32, kernelAddr: uint32) {
    && KERNEL_VIRTUAL_ADDRESS_BASE < poolBase && poolBase + 0x1000 * PAGING_DIRECTORY_TABLE_MAX_COUNT <= WORD
    && KERNEL_VIRTUAL_ADDRESS_BASE < kernelAddr
    && (kernelAddr + 0x1000 <= poolBase || poolBase + 0x1000 * PAGING_DIRECTORY_TABLE_MAX_COUNT <= kernelAddr)
  }

  /** Nothing runs; frame 0 is the kernel's; the identity mapping is gone. */
  function Loaded(poolBase: uint32, kernelAddr: uint32): (k: Sys)
    requires AddressesOk(poolBase, kernelAddr)
    ensures k.Shaped()
  {
    Sys(seq(PROCESS_COUNT_MAX, _ => ZERO_PCB), 0, seq(PAGE_FRAME_MAX_COUNT, i => i == 0), PAGE_FRAME_MAX_COUNT - 1,
        seq(PAGING_DIRECTORY_TABLE_MAX_COUNT, _ => EmptyDir()), seq(PAGING_DIRECTORY_TABLE_MAX_COUNT, _ => false),
        EmptyDir()[KERNEL_ENTRY := KERNEL_PDE], kernelAddr - KERNEL_VIRTUAL_ADDRESS_BASE, poolBase, kernelAddr)
  }

  lemma {:induction false} CountFalseTail(flags: seq<bool>, n: nat)
    requires 0 < n <= |flags| && flags[0] && forall i :: 1 <= i < |flags| ==> !flags[i]
    ensures CountFalse(flags[..n]) == n - 1
  {
    if n > 1 {
      CountFalseTail(flags, n - 1);
      assert flags[..n][..n - 1] == flags[..n - 1];
    }
  }

  lemma LoadedReady(poolBase: uint32, kernelAddr: uint32, shell: ExecRequest)
    requires AddressesOk(poolBase, kernelAddr) && shell.buf == 0 && shell.bufferSize == 0x10_0000
    ensures var k := Loaded(poolBase, kernelAddr);
            && CountFalse(k.frames) == 31 == k.free
            && FirstFalse(k.frames) < PAGE_FRAME_MAX_COUNT
            && var a := AllocInKernel(k, 0);
               CountFalse(a.frames) == 30 == a.free && CreateReady(a, shell) && Admit(a, shell) == SUCCESS
  {
    var k := Loaded(poolBase, kernelAddr);
    CountFalseTail(k.frames, PAGE_FRAME_MAX_COUNT);
    assert k.frames[..PAGE_FRAME_MAX_COUNT] == k.frames;
    AllTrueNone(k.frames);
    TakeCount(k.frames);
    assert !k.used[0];
  }

  /** After start-up the shell runs. */
  function Booted(poolBase: uint32, kernelAddr: uint32, shell: ExecRequest): (k: Sys)
    requires AddressesOk(poolBase, kernelAddr) && shell.buf == 0 && shell.bufferSize == 0x10_0000
    ensures k.Shaped()
  {
    LoadedReady(poolBase, kernelAddr, shell);
    Switch(Create(AllocInKernel(Loaded(poolBase, kernelAddr), 0), shell).sys)
  }
}
