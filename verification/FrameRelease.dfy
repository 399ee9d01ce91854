/** Giving a page frame back: when it undoes an allocation, and what it keeps. The kernel
    itself never does; destroying a process leaves its frames taken. */
module FrameRelease {
  import opened Layout
  import opened Processes
  import opened KernelInv

  /** Freeing undoes an allocation exactly when nothing was mapped at the address before:
      an allocation writes over what is there and its frame is not given back. */
  lemma FreeUndoesAllocIff(k: Sys, d: nat, vaddr: uint32)
    requires k.Shaped() && d <= KERNEL_DIR && FirstFalse(k.frames) < PAGE_FRAME_MAX_COUNT && k.free > 0
    ensures FreeFrame(AllocFrame(k, d, vaddr), d, vaddr) == k <==> DirNo(k, d)[PageIndex(vaddr)] == ABSENT
  {
    hide PageIndex;
    var e, f := PageIndex(vaddr), FreeFrame(AllocFrame(k, d, vaddr), d, vaddr);
    assert f.frames == k.frames;
    assert DirNo(f, d) == DirNo(k, d)[e := ABSENT];
    if DirNo(k, d)[e] == ABSENT {
      assert DirNo(f, d) == DirNo(k, d);
      SameDirs(f, k);
    }
  }

  lemma SameDirs(j: Sys, k: Sys)
    requires j.Shaped() && k.Shaped() && forall x :: 0 <= x <= KERNEL_DIR ==> DirNo(j, x) == DirNo(k, x)
    ensures j.pool == k.pool && j.kernelDir == k.kernelDir
  {
    forall x | 0 <= x < KERNEL_DIR ensures j.pool[x] == k.pool[x] { assert DirNo(j, x) == DirNo(k, x); }
    assert DirNo(j, KERNEL_DIR) == DirNo(k, KERNEL_DIR);
  }

  /** An allocation at the same address undoes a freeing exactly when the mapping was a
      user page on a used frame and no lower frame is free. */
  lemma AllocUndoesFreeIff(k: Sys, d: nat, vaddr: uint32)
    requires k.Shaped() && d <= KERNEL_DIR && DirNo(k, d)[PageIndex(vaddr)].frame < PAGE_FRAME_MAX_COUNT
    ensures var p, f := DirNo(k, d)[PageIndex(vaddr)], FreeFrame(k, d, vaddr);
            && FirstFalse(f.frames) < PAGE_FRAME_MAX_COUNT && f.free > 0
            && (AllocFrame(f, d, vaddr) == k <==>
                  p == UserPDE(p.frame) && k.frames[p.frame] && p.frame < FirstFalse(k.frames))
  {
    hide PageIndex;
    var p, f, e := DirNo(k, d)[PageIndex(vaddr)], FreeFrame(k, d, vaddr), PageIndex(vaddr);
    assert !f.frames[p.frame];
    var a, j := AllocFrame(f, d, vaddr), FirstFalse(f.frames);
    assert DirNo(a, d)[e] == UserPDE(j) && a.frames == f.frames[j := true];
    if a == k {
      assert DirNo(k, d)[e] == UserPDE(j);
      assert forall x :: 0 <= x <= j ==> k.frames[x];
    }
    if p == UserPDE(p.frame) && k.frames[p.frame] && p.frame < FirstFalse(k.frames) {
      assert j == p.frame;
      assert DirNo(a, d) == DirNo(k, d) && a.frames == k.frames;
      SameDirs(a, k);
    }
  }

  /** The counter stays the number of free frames exactly when the frame given back was
      in use. */
  lemma FreeKeepsCountIff(k: Sys, d: nat, vaddr: uint32)
    requires k.Shaped() && d <= KERNEL_DIR && DirNo(k, d)[PageIndex(vaddr)].frame < PAGE_FRAME_MAX_COUNT
    requires CountFalse(k.frames) == k.free
    ensures var f := FreeFrame(k, d, vaddr);
            CountFalse(f.frames) == f.free <==> k.frames[DirNo(k, d)[PageIndex(vaddr)].frame]
  {
    hide PageIndex;
    CountUpdate(k.frames, DirNo(k, d)[PageIndex(vaddr)].frame, false);
  }

  /** Giving back a user page leaves every other mapping on a used frame of its own. */
  lemma FreeKeepsFramesApart(k: Sys, own: map<nat, Mapping>, i: nat, vaddr: uint32, d: nat)
    requires k.Shaped() && (forall x :: 0 <= x <= KERNEL_DIR ==> DirOk(k, own, x))
    requires i <= KERNEL_DIR && PageIndex(vaddr) != KERNEL_ENTRY && DirNo(k, i)[PageIndex(vaddr)].present
    requires d <= KERNEL_DIR
    ensures DirNo(k, i)[PageIndex(vaddr)].frame < PAGE_FRAME_MAX_COUNT
    ensures DirOk(FreeFrame(k, i, vaddr), own, d)
  {
    hide PageIndex;
    var e := PageIndex(vaddr);
    assert DirOk(k, own, i) && MappingOk(k, own, i, e);
    var f := FreeFrame(k, i, vaddr);
    assert DirOk(k, own, d);
    forall x | 0 <= x < PAGE_ENTRY_COUNT && x != KERNEL_ENTRY && DirNo(f, d)[x].present
      ensures MappingOk(f, own, d, x)
    {
      assert DirNo(f, d)[x] == DirNo(k, d)[x];
      assert MappingOk(k, own, d, x);
    }
  }
}
