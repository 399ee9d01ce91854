/** Whole runs of the kernel from start-up: timer interrupts, creations and kills. */
module KernelRuns {
  import opened Layout
  import opened Processes
  import opened KernelInv
  import opened KernelSteps

  datatype Event =
    | Timer(cpu: Registers, eip: uint32, eflags: bv32)
    | Spawn(q: ExecRequest)
    | Kill(pid: uint32)

  /** The kernel is up and in order. */
  ghost predicate Sound(k: Sys) {
    (exists own :: KInv(k, own)) && k.Shaped() && Alive(k.procs[0])
  }

  /** What callers owe: with no frame left, no request whose size wraps to nothing; no kill of the first
      process or of an absent one. */
  predicate Allowed(k: Sys, ev: Event) {
    |k.procs| == PROCESS_COUNT_MAX
    && match ev
       case Timer(_, _, _) => true
       case Spawn(q) => k.free > 0 || q.bufferSize != 0xFFC0_0000
       case Kill(pid) => pid >= PROCESS_COUNT_MAX || (pid > 0 && Alive(k.procs[pid]))
  }

  ghost predicate EventReady(k: Sys, ev: Event) {
    match ev
    case Timer(_, _, _) => true
    case Spawn(q) => CreateReady(k, q)
    case Kill(pid) => DestroyReady(k, pid)
  }

  ghost function Step(k: Sys, ev: Event): (r: Sys)
    requires k.Shaped() && EventReady(k, ev)
    ensures r.Shaped()
  {
    match ev
    case Timer(cpu, eip, eflags) => Tick(k, cpu, eip, eflags)
    case Spawn(q) => Create(k, q).sys
    case Kill(pid) => Destroy(k, pid)
  }

  /** One event keeps the kernel in order, and the code it runs never finds the frame map,
      the directory pool or the process table without what it takes for granted. */
  lemma StepKeeps(k: Sys, ev: Event)
    requires Sound(k) && Allowed(k, ev)
    ensures EventReady(k, ev) && Sound(Step(k, ev))
  {
    hide KInv, CreateReady, DestroyReady, Create, Tick, Admit, FreeDir, FirstPid;
    var own :| KInv(k, own);
    match ev {
      case Timer(cpu, eip, eflags) => TickKeeps(k, own, cpu, eip, eflags);
      case Spawn(q) =>
        GuardSufficesIff(k, own, q);
        var own' := CreateKeeps(k, own, q);
        FirstStays(k, own, q);
      case Kill(pid) =>
        if pid < PROCESS_COUNT_MAX { DestroyKeeps(k, own, pid); }
        KillLeavesFirst(k, pid);
    }
  }

  lemma FirstStays(k: Sys, own: map<nat, Mapping>, q: ExecRequest)
    requires KInv(k, own) && CreateReady(k, q) && Alive(k.procs[0])
    ensures Alive(Create(k, q).sys.procs[0])
  {
    hide PagingInv, CountFalse, LiveCount, CreateReady, Admit, InitialContext;
    if Admit(k, q) == SUCCESS { CreateProcs(k, q); }
  }

  lemma KillLeavesFirst(k: Sys, pid: uint32)
    requires k.Shaped() && Alive(k.procs[0]) && Allowed(k, Kill(pid))
    requires (pid < PROCESS_COUNT_MAX ==> DestroyReady(k, pid))
    ensures DestroyReady(k, pid) && Alive(Destroy(k, pid).procs[0])
  {
  }

  ghost predicate AllAllowed(k: Sys, evs: seq<Event>)
    requires k.Shaped()
    decreases |evs|
  {
    evs == [] || (Allowed(k, evs[0]) && EventReady(k, evs[0]) && AllAllowed(Step(k, evs[0]), evs[1..]))
  }

  /** The same of what callers owe alone. */
  ghost predicate EachAllowed(k: Sys, evs: seq<Event>)
    requires k.Shaped()
    decreases |evs|
  {
    evs == [] || (Allowed(k, evs[0]) && (EventReady(k, evs[0]) ==> EachAllowed(Step(k, evs[0]), evs[1..])))
  }

  /** Callers who give what they owe are enough: along the whole run creation finds its two
      frames, its directory and its slot, and a kill its process. */
  lemma {:induction false} AllowedSuffices(k: Sys, evs: seq<Event>)
    requires Sound(k)
    ensures k.Shaped() && (EachAllowed(k, evs) <==> AllAllowed(k, evs))
    decreases |evs|
  {
    hide Sound, Step, EventReady, Allowed;
    SoundShaped(k);
    if evs != [] && Allowed(k, evs[0]) {
      StepKeeps(k, evs[0]);
      AllowedSuffices(Step(k, evs[0]), evs[1..]);
    }
  }

  ghost function Run(k: Sys, evs: seq<Event>): (r: Sys)
    requires k.Shaped() && AllAllowed(k, evs)
    ensures r.Shaped()
    decreases |evs|
  {
    if evs == [] then k else Run(Step(k, evs[0]), evs[1..])
  }

  /** In every state reached from start-up: no frame is shared and the counter is right,
      every live process has a directory of its own, unused directories are empty, at most
      one process runs, and CR3 is its directory. */
  lemma ReachableSound(poolBase: uint32, kernelAddr: uint32, shell: ExecRequest, evs: seq<Event>)
    requires AddressesOk(poolBase, kernelAddr) && shell.buf == 0 && shell.bufferSize == 0x10_0000
    requires AllAllowed(Booted(poolBase, kernelAddr, shell), evs)
    ensures Sound(Run(Booted(poolBase, kernelAddr, shell), evs))
  {
    hide KInv, Booted, Run, AllAllowed;
    var own := BootedKeeps(poolBase, kernelAddr, shell);
    RunSound(Booted(poolBase, kernelAddr, shell), evs);
  }

  lemma {:induction false} RunSound(k: Sys, evs: seq<Event>)
    requires Sound(k) && AllAllowed(k, evs)
    ensures Sound(Run(k, evs))
    decreases |evs|
  {
    hide Sound, Step, EventReady, Allowed;
    if evs != [] {
      SoundShaped(k);
      StepKeeps(k, evs[0]);
      RunSound(Step(k, evs[0]), evs[1..]);
    }
  }

  lemma SoundShaped(k: Sys)
    requires Sound(k)
    ensures k.Shaped()
  {
  }

  // -- The shape of the table --

  /** Kills of the highest live process only. */
  predicate Highest(k: Sys, ev: Event) {
    ev.Kill? ==> ev.pid >= PROCESS_COUNT_MAX || ev.pid + 1 == k.active
  }

  /** When only the highest is ever killed, live slots are exactly those below the count,
      and creation never lands on a live process. */
  lemma StepKeepsCompact(k: Sys, ev: Event)
    requires Sound(k) && Allowed(k, ev) && Compact(k) && Highest(k, ev)
    ensures EventReady(k, ev) && Compact(Step(k, ev))
    ensures ev.Spawn? && Admit(k, ev.q) == SUCCESS ==> !Alive(k.procs[k.active])
  {
    hide PagingInv, CountFalse, LiveCount, CreateReady, DestroyReady, Admit, InitialContext, Tick, SlotOk;
    StepKeeps(k, ev);
    var own :| KInv(k, own);
    match ev {
      case Timer(cpu, eip, eflags) =>
        TickKeepsCompact(k, own, cpu, eip, eflags);
      case Spawn(q) => if Admit(k, q) == SUCCESS { CreateProcs(k, q); }
      case Kill(pid) =>
    }
  }

  lemma TickKeepsCompact(k: Sys, own: map<nat, Mapping>, cpu: Registers, eip: uint32, eflags: bv32)
    requires KInv(k, own) && Compact(k) && Alive(k.procs[0])
    ensures Compact(Tick(k, cpu, eip, eflags))
  {
    hide PagingInv, CountFalse, LiveCount, Chosen, Leaving, SlotOk;
    SaveKeeps(k, own, cpu, eip, eflags);
    ChosenAlive(Save(k, Interrupted(k, cpu, eip, eflags)));
  }

  lemma {:induction false} RunKeepsCompact(k: Sys, evs: seq<Event>)
    requires Sound(k) && AllAllowed(k, evs) && Compact(k) && AllHighest(k, evs)
    ensures Compact(Run(k, evs))
    decreases |evs|
  {
    hide Sound, Step, EventReady, Allowed, Compact, Highest;
    if evs != [] {
      SoundShaped(k);
      StepKeeps(k, evs[0]);
      StepKeepsCompact(k, evs[0]);
      RunKeepsCompact(Step(k, evs[0]), evs[1..]);
    }
  }

  ghost predicate AllHighest(k: Sys, evs: seq<Event>)
    requires k.Shaped() && AllAllowed(k, evs)
    decreases |evs|
  {
    evs == [] || (Highest(k, evs[0]) && AllHighest(Step(k, evs[0]), evs[1..]))
  }

  /** An admitted creation leaves every live process as it was exactly when the slot at
      the count is not live. */
  lemma CreateSparesIff(k: Sys, q: ExecRequest)
    requires Sound(k) && CreateReady(k, q) && Admit(k, q) == SUCCESS
    ensures k.active < PROCESS_COUNT_MAX
    ensures (forall i :: 0 <= i < PROCESS_COUNT_MAX && Alive(k.procs[i]) ==> Create(k, q).sys.procs[i] == k.procs[i])
            <==> !Alive(k.procs[k.active])
  {
    hide PagingInv, CountFalse, LiveCount, CreateReady, Admit, Create, DirAtAddr;
    CreateProcs(k, q);
    SlotAt(k, k.active);
    PoolAddrFound(k, FirstFalse(k.used));
    InitialDir(k.procs[k.active].context, q.buf, k.PoolAddr(FirstFalse(k.used)));
  }

  /** With the table compact, killing a process below the highest makes the next creation
      land on the highest, which was still live. */
  lemma LowKillThenCreateOverwrites(k: Sys, pid: uint32, q: ExecRequest)
    requires Sound(k) && Compact(k) && 0 < pid && pid + 1 < k.active && DestroyReady(k, pid)
    requires CreateReady(Destroy(k, pid), q) && Admit(Destroy(k, pid), q) == SUCCESS
    ensures var d, top := Destroy(k, pid), k.active - 1;
            && Alive(d.procs[top]) && d.procs[top] == k.procs[top]
            && Create(d, q).sys.procs[top] != d.procs[top] && Create(d, q).sys.procs[top].name == q.name
  {
    hide PagingInv, CountFalse, LiveCount, CreateReady, Admit, Create, DirAtAddr, InitialContext;
    var own :| KInv(k, own);
    DestroyKeeps(k, own, pid);
    var d := Destroy(k, pid);
    CreateProcs(d, q);
    SlotAt(d, d.active);
    PoolAddrFound(d, FirstFalse(d.used));
    InitialDir(d.procs[d.active].context, q.buf, d.PoolAddr(FirstFalse(d.used)));
  }

  // -- Preemption --

  /** A timer interrupt touches only the interrupted process's context. */
  lemma TickContexts(k: Sys, cpu: Registers, eip: uint32, eflags: bv32, p: nat)
    requires Sound(k) && p < PROCESS_COUNT_MAX
    ensures Tick(k, cpu, eip, eflags).procs[p].context ==
            if k.procs[p].state.Running? then Context(cpu, eip, eflags, k.procs[p].context.pageDir)
            else k.procs[p].context
  {
    hide PagingInv, CountFalse, LiveCount, NextReady, Chosen, Leaving, SlotOk;
    var own :| KInv(k, own);
  }

  /** A process that is not running keeps its context over any event that neither kills it
      nor creates a process in its slot. */
  lemma StepKeepsContext(k: Sys, ev: Event, p: nat)
    requires Sound(k) && Allowed(k, ev) && p < PROCESS_COUNT_MAX && !k.procs[p].state.Running?
    requires ev != Kill(p) && !(ev.Spawn? && k.active == p)
    ensures EventReady(k, ev) && Step(k, ev).procs[p].context == k.procs[p].context
  {
    hide KInv, CountFalse, CreateReady, DestroyReady, Admit, InitialContext, Tick;
    StepKeeps(k, ev);
    match ev {
      case Timer(cpu, eip, eflags) => TickContexts(k, cpu, eip, eflags, p);
      case Spawn(q) =>
        if Admit(k, q) == SUCCESS {
          assert ProcInv(k) by { var own :| KInv(k, own); OfProcs(k, own); }
          CreateProcs(k, q);
        }
      case Kill(pid) =>
    }
  }

  lemma OfProcs(k: Sys, own: map<nat, Mapping>)
    requires KInv(k, own)
    ensures ProcInv(k)
  {
  }

  /** Slot `p` is neither run, killed nor taken along the run. */
  ghost predicate Waiting(k: Sys, evs: seq<Event>, p: nat)
    requires k.Shaped() && AllAllowed(k, evs) && p < PROCESS_COUNT_MAX
    decreases |evs|
  {
    && !k.procs[p].state.Running?
    && (evs != [] ==>
          && evs[0] != Kill(p) && !(evs[0].Spawn? && k.active == p)
          && Waiting(Step(k, evs[0]), evs[1..], p))
  }

  lemma {:induction false} WaitingKeepsContext(k: Sys, evs: seq<Event>, p: nat)
    requires Sound(k) && AllAllowed(k, evs) && p < PROCESS_COUNT_MAX && Waiting(k, evs, p)
    ensures Run(k, evs).procs[p].context == k.procs[p].context && !Run(k, evs).procs[p].state.Running?
    decreases |evs|
  {
    hide Step, EventReady, Allowed, KInv;
    if evs != [] {
      StepKeeps(k, evs[0]);
      StepKeepsContext(k, evs[0], p);
      WaitingKeepsContext(Step(k, evs[0]), evs[1..], p);
    }
  }

  /** What the switch is handed for a process that was not running is the context in its slot. */
  lemma ResumedFromSlot(k: Sys, cpu: Registers, eip: uint32, eflags: bv32, p: nat)
    requires Sound(k) && p < PROCESS_COUNT_MAX && !k.procs[p].state.Running?
    requires Tick(k, cpu, eip, eflags).procs[p].state.Running?
    ensures Resumed(k, cpu, eip, eflags) == k.procs[p].context
  {
    hide CountFalse, LiveCount, PagingInv, NextReady, Chosen, Leaving, SlotOk;
    var own :| KInv(k, own);
    SaveKeeps(k, own, cpu, eip, eflags);
    SwitchKeeps(Save(k, Interrupted(k, cpu, eip, eflags)), own);
  }

  /** A tick may resume the process it interrupts, as when there is no other: it is handed
      back just what was saved. */
  lemma ResumedAtOnce(k: Sys, cpu: Registers, eip: uint32, eflags: bv32, p: nat)
    requires Sound(k) && p < PROCESS_COUNT_MAX && k.procs[p].state.Running?
    requires Tick(k, cpu, eip, eflags).procs[p].state.Running?
    ensures Resumed(k, cpu, eip, eflags) == Context(cpu, eip, eflags, k.procs[p].context.pageDir)
  {
    hide CountFalse, LiveCount, PagingInv, NextReady, Chosen, Leaving, SlotOk;
    var own :| KInv(k, own);
    SaveKeeps(k, own, cpu, eip, eflags);
    SwitchKeeps(Save(k, Interrupted(k, cpu, eip, eflags)), own);
  }

  /** Once interrupted and not resumed at once, a process is resumed later as it was saved. */
  lemma ResumedLater(k: Sys, first: Event, evs: seq<Event>, last: Event, p: nat)
    requires Sound(k) && first.Timer? && last.Timer? && p < PROCESS_COUNT_MAX && k.procs[p].state.Running?
    requires var k1 := Tick(k, first.cpu, first.eip, first.eflags);
             AllAllowed(k1, evs) && Waiting(k1, evs, p)
             && Tick(Run(k1, evs), last.cpu, last.eip, last.eflags).procs[p].state.Running?
    ensures Resumed(Run(Tick(k, first.cpu, first.eip, first.eflags), evs), last.cpu, last.eip, last.eflags)
            == Context(first.cpu, first.eip, first.eflags, k.procs[p].context.pageDir)
  {
    hide Tick, Resumed, Waiting, AllAllowed, Run, KInv;
    StepKeeps(k, first);
    TickContexts(k, first.cpu, first.eip, first.eflags, p);
    var k1 := Tick(k, first.cpu, first.eip, first.eflags);
    StillWaiting(k1, evs, p);
    WaitingKeepsContext(k1, evs, p);
    RunSound(k1, evs);
    ResumedFromSlot(Run(k1, evs), last.cpu, last.eip, last.eflags, p);
  }

  /** The tick `last` after the events `evs` is the first to resume slot `p` since tick
      `first`, and nobody killed or took the slot in between. */
  ghost predicate NextTurnOf(k: Sys, first: Event, evs: seq<Event>, last: Event, p: nat)
    requires k.Shaped() && first.Timer? && last.Timer? && p < PROCESS_COUNT_MAX
  {
    var k1 := Tick(k, first.cpu, first.eip, first.eflags);
    && AllAllowed(k1, evs) && Waiting(k1, evs, p)
    && Tick(Run(k1, evs), last.cpu, last.eip, last.eflags).procs[p].state.Running?
  }

  /** Preemption is transparent: a process interrupted by the timer is given back the
      registers, the instruction pointer, the flags and the directory it was interrupted
      with, be it by the same tick or by a later one, whatever ran, was created or was
      killed in between. */
  lemma ResumedAsInterrupted(k: Sys, first: Event, evs: seq<Event>, last: Event, p: nat)
    requires Sound(k) && first.Timer? && last.Timer? && p < PROCESS_COUNT_MAX && k.procs[p].state.Running?
    ensures var k1, c := Tick(k, first.cpu, first.eip, first.eflags),
                         Context(first.cpu, first.eip, first.eflags, k.procs[p].context.pageDir);
            && (k1.procs[p].state.Running? ==> Resumed(k, first.cpu, first.eip, first.eflags) == c)
            && (NextTurnOf(k, first, evs, last, p) ==> Resumed(Run(k1, evs), last.cpu, last.eip, last.eflags) == c)
  {
    hide Tick, Resumed, Waiting, AllAllowed, Run, Sound;
    SoundShaped(k);
    if Tick(k, first.cpu, first.eip, first.eflags).procs[p].state.Running? {
      ResumedAtOnce(k, first.cpu, first.eip, first.eflags, p);
    }
    if NextTurnOf(k, first, evs, last, p) {
      ResumedLater(k, first, evs, last, p);
    }
  }

  lemma StillWaiting(k: Sys, evs: seq<Event>, p: nat)
    requires k.Shaped() && AllAllowed(k, evs) && p < PROCESS_COUNT_MAX && Waiting(k, evs, p)
    ensures !k.procs[p].state.Running?
  {
  }

  /** A new process starts from its initial context: its entry point, its stack, the user
      data segment in every data segment register, interrupts on, its own directory. */
  lemma StartsFromInitial(k: Sys, q: ExecRequest, evs: seq<Event>, last: Event)
    requires Sound(k) && Allowed(k, Spawn(q)) && CreateReady(k, q) && Admit(k, q) == SUCCESS && last.Timer?
    requires k.active < PROCESS_COUNT_MAX
    requires var k1 := Create(k, q).sys;
             AllAllowed(k1, evs) && Waiting(k1, evs, k.active)
             && Tick(Run(k1, evs), last.cpu, last.eip, last.eflags).procs[k.active].state.Running?
    ensures FirstFalse(k.used) < |k.used|
    ensures Resumed(Run(Create(k, q).sys, evs), last.cpu, last.eip, last.eflags)
            == InitialContext(k.procs[k.active].context, q.buf, k.PoolAddr(FirstFalse(k.used)))
  {
    hide Tick, Resumed, Waiting, AllAllowed, Run, KInv, Create, CreateReady, Admit, InitialContext;
    StepKeeps(k, Spawn(q));
    assert ProcInv(k) by { var own :| KInv(k, own); OfProcs(k, own); }
    CreateProcs(k, q);
    var k1 := Create(k, q).sys;
    WaitingKeepsContext(k1, evs, k.active);
    RunSound(k1, evs);
    ResumedFromSlot(Run(k1, evs), last.cpu, last.eip, last.eflags, k.active);
  }

  /** What the source sets in it, register by register; the rest is left from before. */
  lemma InitialContextIs(before: Context, entry: uint32, dir: uint32)
    ensures var c := InitialContext(before, entry, dir);
            && c.eip == entry && c.pageDir == dir && c.cpu.esp == c.cpu.ebp == 0xBFFF_FFFC
            && c.cpu.ds == c.cpu.es == c.cpu.fs == c.cpu.gs == 0x23
            && c.eflags & 0x200 != 0 && c.eflags & 0x2 != 0 && c.eflags & !0x202 == before.eflags & !0x202
            && c.cpu.eax == before.cpu.eax && c.cpu.ebx == before.cpu.ebx && c.cpu.ecx == before.cpu.ecx
            && c.cpu.edx == before.cpu.edx && c.cpu.esi == before.cpu.esi && c.cpu.edi == before.cpu.edi
  {
  }
}
