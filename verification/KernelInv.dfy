/** What every kernel operation keeps: frames, directories, process slots and CR3 agree. */
module KernelInv {
  import opened Layout
  import opened Processes

  // -- Paging --

  type Mapping = (nat, nat)

  /** The user mapping at entry `e` of directory `d` has a used frame of its own, never frame 0. */
  ghost predicate MappingOk(k: Sys, own: map<nat, Mapping>, d: nat, e: nat)
    requires k.Shaped() && d <= KERNEL_DIR && e < PAGE_ENTRY_COUNT
  {
    var p := DirNo(k, d)[e];
    && p == UserPDE(p.frame) && 0 < p.frame < PAGE_FRAME_MAX_COUNT && k.frames[p.frame]
    && p.frame in own && own[p.frame] == (d, e)
  }

  ghost predicate DirOk(k: Sys, own: map<nat, Mapping>, d: nat)
    requires k.Shaped() && d <= KERNEL_DIR
  {
    && (d < KERNEL_DIR && !k.used[d] ==> k.pool[d] == EmptyDir())
    && (d == KERNEL_DIR || k.used[d] ==> DirNo(k, d)[KERNEL_ENTRY] == KERNEL_PDE)
    && forall e :: 0 <= e < PAGE_ENTRY_COUNT && e != KERNEL_ENTRY && DirNo(k, d)[e].present ==> MappingOk(k, own, d, e)
  }

  /** Frames are counted right and in pairs; directories in use never outnumber the pairs
      given out since start-up. */
  ghost predicate Counted(k: Sys)
    requires k.Shaped()
  {
    && k.frames[0]
    && CountFalse(k.frames) == k.free && k.free % 2 == 0
    && 2 * (PAGING_DIRECTORY_TABLE_MAX_COUNT - CountFalse(k.used)) + k.free <= 30
  }

  ghost predicate PagingInv(k: Sys, own: map<nat, Mapping>) {
    k.Shaped() && Counted(k) && forall d :: 0 <= d <= KERNEL_DIR ==> DirOk(k, own, d)
  }

  /** No frame is shared: two different user mappings, in whatever directories, go to
      different frames, and never to frame 0. */
  lemma NoFrameShared(k: Sys, own: map<nat, Mapping>, d1: nat, e1: nat, d2: nat, e2: nat)
    requires PagingInv(k, own) && d1 <= KERNEL_DIR && d2 <= KERNEL_DIR
    requires e1 < PAGE_ENTRY_COUNT && e2 < PAGE_ENTRY_COUNT && (d1, e1) != (d2, e2)
    requires DirNo(k, d1)[e1].present && DirNo(k, d1)[e1].user && DirNo(k, d2)[e2].present && DirNo(k, d2)[e2].user
    ensures DirNo(k, d1)[e1].frame != DirNo(k, d2)[e2].frame
    ensures 0 < DirNo(k, d1)[e1].frame < PAGE_FRAME_MAX_COUNT && k.frames[DirNo(k, d1)[e1].frame]
  {
    assert DirOk(k, own, d1) && DirOk(k, own, d2);
    assert MappingOk(k, own, d1, e1) && MappingOk(k, own, d2, e2);
  }

  // -- Processes --

  predicate Alive(p: PCB) {
    !p.state.NoProcess?
  }

  ghost predicate SlotOk(k: Sys, i: nat)
    requires k.Shaped() && i < PROCESS_COUNT_MAX
  {
    var p := k.procs[i];
    if Alive(p) then
      && (p.state.Ready? || p.state.Running?) && p.pid == i
      && var d := DirAtAddr(k, p.context.pageDir);
      d < PAGING_DIRECTORY_TABLE_MAX_COUNT && k.used[d]
    else p == ZERO_PCB
  }

  function LiveCount(procs: seq<PCB>): (n: nat)
    ensures n <= |procs|
  {
    if procs == [] then 0 else LiveCount(procs[..|procs| - 1]) + if Alive(procs[|procs| - 1]) then 1 else 0
  }

  /** Slots are in order, live processes have directories of their own, at most one runs,
      and CR3 is that one's. */
  ghost predicate ProcInv(k: Sys) {
    && k.Shaped()
    && (forall i :: 0 <= i < PROCESS_COUNT_MAX ==> SlotOk(k, i))
    && (forall i, j :: 0 <= i < j < PROCESS_COUNT_MAX && Alive(k.procs[i]) && Alive(k.procs[j]) ==>
          k.procs[i].context.pageDir != k.procs[j].context.pageDir)
    && (forall i, j :: 0 <= i < j < PROCESS_COUNT_MAX && k.procs[i].state.Running? ==> !k.procs[j].state.Running?)
    && LiveCount(k.procs) <= k.active <= PROCESS_COUNT_MAX
    && 0 < k.cr3 < WORD - KERNEL_VIRTUAL_ADDRESS_BASE
    && (forall i :: 0 <= i < PROCESS_COUNT_MAX && k.procs[i].state.Running? ==>
          k.procs[i].context.pageDir == CurrentDir(k))
  }

  ghost predicate KInv(k: Sys, own: map<nat, Mapping>) {
    PagingInv(k, own) && ProcInv(k)
  }

  // -- Live counts --

  lemma {:induction false} LiveUpdate(procs: seq<PCB>, i: nat, p: PCB)
    requires i < |procs|
    ensures LiveCount(procs[i := p])
            == LiveCount(procs) - (if Alive(procs[i]) then 1 else 0) + (if Alive(p) then 1 else 0)
    decreases |procs|
  {
    var n := |procs| - 1;
    if i < n {
      LiveUpdate(procs[..n], i, p);
      assert procs[i := p][..n] == procs[..n][i := p];
    } else {
      assert procs[i := p][..n] == procs[..n];
    }
  }

  lemma {:induction false} LiveSome(procs: seq<PCB>, i: nat)
    requires i < |procs| && Alive(procs[i])
    ensures LiveCount(procs) >= 1
  {
    if i < |procs| - 1 {
      LiveSome(procs[..|procs| - 1], i);
    }
  }

  // -- Creation --

  /** The guard asks for one frame where creation takes two, and it suffices: frames go in
      pairs, so one left means two, and directories outlast them. The one request that
      slips through with none left is the size whose sum with a page wraps to zero. */
  lemma GuardSufficesIff(k: Sys, own: map<nat, Mapping>, q: ExecRequest)
    requires KInv(k, own)
    ensures CreateReady(k, q) <==>
            (k.free > 0 || q.bufferSize != 0xFFC0_0000 || k.active >= PROCESS_COUNT_MAX
             || q.buf >= KERNEL_VIRTUAL_ADDRESS_BASE)
  {
    hide FirstFalse, CountFalse, DirOk, ProcInv;
    AllTrueNone(k.used);
    if k.free == 0 {
      assert FramesNeeded(0xFFC0_0000) == 0;
    }
  }

  function OwnAfterCreate(k: Sys, own: map<nat, Mapping>, q: ExecRequest): map<nat, Mapping>
    requires k.Shaped() && CountFalse(k.frames) >= 2
  {
    TwoFrames(k.frames);
    var i, f, g := FirstFalse(k.used), FirstFalse(k.frames), FirstFalse(TakeFrame(k.frames));
    own[f := (i, PageIndex(q.buf))][g := (i, PageIndex(USER_STACK))]
  }

  /** The directory built for a process: the kernel's entry, its code page, its stack
      page, and nothing else. When both pages fall on one entry the stack's frame is mapped. */
  lemma BuiltDir(k: Sys, own: map<nat, Mapping>, entry: uint32)
    requires PagingInv(k, own) && CountFalse(k.frames) >= 2 && k.free >= 2 && FirstFalse(k.used) < |k.used|
    requires entry < KERNEL_VIRTUAL_ADDRESS_BASE
    ensures FirstFalse(k.frames) < |k.frames| && FirstFalse(TakeFrame(k.frames)) < |k.frames|
    ensures PageIndex(entry) < KERNEL_ENTRY && PageIndex(USER_STACK) < KERNEL_ENTRY
    ensures var b, i := BuildSpace(k, entry), FirstFalse(k.used);
            && b.used == k.used[i := true] && b.kernelDir == k.kernelDir && b.free == k.free - 2
            && b.frames == TakeFrame(TakeFrame(k.frames))
            && b.pool == k.pool[i := EmptyDir()[KERNEL_ENTRY := KERNEL_PDE]
                                      [PageIndex(entry) := UserPDE(FirstFalse(k.frames))]
                                      [PageIndex(USER_STACK) := UserPDE(FirstFalse(TakeFrame(k.frames)))]]
  {
    hide CountFalse, FirstFalse, TakeFrame, EmptyDir, PageIndex, MappingOk;
    TwoFrames(k.frames);
    assert DirOk(k, own, FirstFalse(k.used));
    UserPages(entry);
  }

  lemma UserPages(entry: uint32)
    requires entry < KERNEL_VIRTUAL_ADDRESS_BASE
    ensures PageIndex(entry) < KERNEL_ENTRY && PageIndex(USER_STACK) < KERNEL_ENTRY
  {
  }

  lemma TakeTwice(frames: seq<bool>)
    requires CountFalse(frames) >= 2
    ensures FirstFalse(frames) < |frames| && FirstFalse(TakeFrame(frames)) < |frames|
    ensures var r := TakeFrame(TakeFrame(frames));
            && CountFalse(r) == CountFalse(frames) - 2 && |r| == |frames|
            && !frames[FirstFalse(frames)] && !frames[FirstFalse(TakeFrame(frames))]
            && FirstFalse(frames) != FirstFalse(TakeFrame(frames))
            && r[FirstFalse(frames)] && r[FirstFalse(TakeFrame(frames))]
            && forall f :: 0 <= f < |frames| && frames[f] ==> r[f]
  {
    hide CountFalse, FirstFalse;
    TwoFrames(frames);
    TakeCount(frames);
    TakeCount(TakeFrame(frames));
  }

  /** Building an address space keeps the paging invariant. */
  lemma BuildKeepsPaging(k: Sys, own: map<nat, Mapping>, q: ExecRequest)
    requires PagingInv(k, own) && CountFalse(k.frames) >= 2 && k.free >= 2 && FirstFalse(k.used) < |k.used|
    requires q.buf < KERNEL_VIRTUAL_ADDRESS_BASE
    ensures PagingInv(BuildSpace(k, q.buf), OwnAfterCreate(k, own, q))
  {
    hide CountFalse, FirstFalse, TakeFrame, EmptyDir, PageIndex, BuildSpace, DirOk;
    var b, own' := BuildSpace(k, q.buf), OwnAfterCreate(k, own, q);
    BuiltDir(k, own, q.buf);
    TakeTwice(k.frames);
    CountUpdate(k.used, FirstFalse(k.used), true);
    FirstIsFalse(k.frames);
    FirstIsFalse(k.used);
    forall d | 0 <= d <= KERNEL_DIR ensures DirOk(b, own', d) {
      assert DirOk(k, own, d);
      if d == FirstFalse(k.used) { NewDirOk(k, own, q, d); } else { OldDirOk(k, own, q, d); }
    }
  }

  lemma FirstIsFalse(flags: seq<bool>)
    requires FirstFalse(flags) < |flags|
    ensures !flags[FirstFalse(flags)]
  {
  }

  lemma NewDirOk(k: Sys, own: map<nat, Mapping>, q: ExecRequest, d: nat)
    requires PagingInv(k, own) && CountFalse(k.frames) >= 2 && k.free >= 2 && FirstFalse(k.used) < |k.used|
    requires q.buf < KERNEL_VIRTUAL_ADDRESS_BASE && d == FirstFalse(k.used)
    ensures DirOk(BuildSpace(k, q.buf), OwnAfterCreate(k, own, q), d)
  {
    hide CountFalse, FirstFalse, TakeFrame, PageIndex, BuildSpace, PagingInv;
    BuiltDir(k, own, q.buf);
    TakeTwice(k.frames);
    FrameZeroUsed(k, own);
  }

  lemma FrameZeroUsed(k: Sys, own: map<nat, Mapping>)
    requires PagingInv(k, own)
    ensures k.Shaped() && k.frames[0]
  {
  }

  lemma OldDirOk(k: Sys, own: map<nat, Mapping>, q: ExecRequest, d: nat)
    requires PagingInv(k, own) && CountFalse(k.frames) >= 2 && k.free >= 2 && FirstFalse(k.used) < |k.used|
    requires q.buf < KERNEL_VIRTUAL_ADDRESS_BASE && d <= KERNEL_DIR && d != FirstFalse(k.used)
    ensures DirOk(BuildSpace(k, q.buf), OwnAfterCreate(k, own, q), d)
  {
    hide CountFalse, FirstFalse, TakeFrame, PageIndex, BuildSpace, EmptyDir, Counted;
    BuiltDir(k, own, q.buf);
    TakeTwice(k.frames);
    assert DirOk(k, own, d);
    forall e | 0 <= e < PAGE_ENTRY_COUNT && e != KERNEL_ENTRY && DirNo(k, d)[e].present
      ensures MappingOk(BuildSpace(k, q.buf), OwnAfterCreate(k, own, q), d, e)
    {
      assert MappingOk(k, own, d, e);
    }
  }
}
