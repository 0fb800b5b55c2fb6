/**
 * lib/fork.c as the library runs it: straight-line code and nested loops
 * that issue syscalls, one after another, against the kernel object of
 * module Kern. A panic ends the run; each method reports it in `panicked`
 * and, when it did not panic, leaves the kernel in the state the matching
 * transition function of module ForkSpec gives, so everything proved there
 * holds of these methods.
 */
module LibFork {
  import opened Mmu
  import opened Pmap
  import opened Syscall
  import opened Kern
  import ForkSpec
  import ForkProps

  /** memmove(dstva, srcva, PGSIZE) between two mapped pages of the running environment. */
  method MovePage(k: Kernel, dstva: int, srcva: int)
    requires Running(k.State())
    requires dstva in k.envs[k.curenv].pgdir.ptes && srcva in k.envs[k.curenv].pgdir.ptes
    modifies k
    ensures k.State() == ForkSpec.UserCopyPage(old(k.State()), dstva, srcva)
  {
    var d := k.envs[k.curenv].pgdir.ptes;
    var data := Contents(k.State(), PteFrame(d[srcva]));
    k.mem := k.mem[PteFrame(d[dstva]) as int := data];
  }

  /**
   * pgfault(utf): the three checks on the fault, then sys_page_alloc at
   * PFTEMP, the copy, sys_page_map over the faulting page and
   * sys_page_unmap of PFTEMP, panicking on the first failure.
   */
  method PgFault(k: Kernel, faultVa: u32, err: Word) returns (panicked: bool)
    requires Running(k.State())
    modifies k
    ensures var run := ForkSpec.PgFault(old(k.State()), faultVa, err);
      panicked == run.Panic? && (!panicked ==> k.State() == run.state)
  {
    var pte := Uvpt(k.State(), faultVa / PGSIZE);
    if err & FEC_WR == 0 {
      return true;
    }
    if pte & (PTE_U | PTE_P) != PTE_U | PTE_P {
      return true;
    }
    if pte & PTE_COW == 0 {
      return true;
    }
    var va := RoundDown(faultVa);
    assert faultVa / PGSIZE * PGSIZE == va;
    var r := k.SysPageAlloc(0, PFTEMP, PTE_U | PTE_P | PTE_W);
    if r < 0 {
      return true;
    }
    MovePage(k, PFTEMP, va);
    r := k.SysPageMap(0, PFTEMP, 0, va, PTE_U | PTE_P | PTE_W);
    if r < 0 {
      return true;
    }
    r := k.SysPageUnmap(0, PFTEMP);
    if r < 0 {
      return true;
    }
    return false;
  }

  /**
   * duppage(envid, pn): -E_INVAL for a page that is not user-present; a
   * shared or read-only page mapped into the child as it is; any other page
   * mapped copy-on-write into the child, then remapped copy-on-write in the
   * parent. A failing sys_page_map panics.
   */
  method DupPage(k: Kernel, envid: int, pn: int) returns (panicked: bool, r: int)
    requires Running(k.State()) && 0 <= pn < UTOP_PAGES
    modifies k
    ensures var run := ForkSpec.DupPage(old(k.State()), envid, pn);
      panicked == run.Panic? && (!panicked ==> r == run.ret && k.State() == run.state)
  {
    var pte := Uvpt(k.State(), pn);
    var addr := pn * PGSIZE;
    if pte & (PTE_U | PTE_P) != PTE_U | PTE_P {
      return false, -E_INVAL;
    }
    if ForkSpec.SharesAsIs(pte) {
      r := k.SysPageMap(0, addr, envid, addr, ForkSpec.ChildPerm(pte));
      return r < 0, r;
    }
    r := k.SysPageMap(0, addr, envid, addr, ForkSpec.ChildPerm(pte));
    if r < 0 {
      return true, r;
    }
    r := k.SysPageMap(0, addr, 0, addr, ForkSpec.ParentRemapPerm(pte));
    if r < 0 {
      return true, r;
    }
    return false, 0;
  }

  /**
   * A page table that is absent: the loop moves past all of its pages at
   * once, as fork's outer loop does when uvpd[i] is not present.
   */
  lemma {:induction false} SkipTable(s: KState, child: int, i: int, j: int)
    requires Running(s) && 0 <= i < ForkSpec.UTOP_TABLES && 0 <= j <= NPTENTRIES
    requires !PdePresent(s, i)
    ensures ForkSpec.ForkLoop(s, child, i * NPTENTRIES + j) == ForkSpec.ForkLoop(s, child, (i + 1) * NPTENTRIES)
    decreases NPTENTRIES - j
  {
    if j < NPTENTRIES {
      var pn := i * NPTENTRIES + j;
      assert pn / NPTENTRIES == i;
      ForkProps.ForkLoopDupsSkip(s, child, pn);
      SkipTable(s, child, i, j + 1);
    }
  }

  /**
   * One page of fork's inner loop, in the present page table i, whose PTE
   * is present and which is not the exception stack page: the loop
   * continues from the state duppage leaves, with page table i still
   * present, or panics when duppage panics or returns a negative value.
   */
  lemma DupStep(s: KState, child: int, i: int, j: int)
    requires Running(s) && 0 <= i < ForkSpec.UTOP_TABLES && 0 <= j < NPTENTRIES && PdePresent(s, i)
    requires Uvpt(s, i * NPTENTRIES + j) & PTE_P != 0 && i * NPTENTRIES + j != UXSTACK_PN
    ensures var pn := i * NPTENTRIES + j;
      var d := ForkSpec.DupPage(s, child, pn);
      && (d.Panic? || d.ret < 0 ==> ForkSpec.ForkLoop(s, child, pn) == ForkSpec.Panic)
      && (d.Ret? && d.ret >= 0 ==>
            && Running(d.state) && PdePresent(d.state, i)
            && ForkSpec.ForkLoop(s, child, pn) == ForkSpec.ForkLoop(d.state, child, pn + 1))
  {
    var pn := i * NPTENTRIES + j;
    assert pn / NPTENTRIES == i;
    assert ForkSpec.Qualifies(s, pn);
    ForkProps.ForkLoopTakeStep(s, child, pn);
    ForkProps.DupOrPanicKeepsQualifies(s, child, pn);
    ForkProps.DupOrPanicIsDupPage(s, child, pn);
    var d := ForkSpec.DupOrPanic(s, child, pn);
    if d.Ret? {
      assert ForkSpec.Qualifies(d.state, pn);
    }
  }

  /**
   * fork's call split at its loop: when sys_exofork hands out a child, fork
   * panics if the page walk panics, and otherwise finishes the child from
   * the state the walk leaves.
   */
  lemma ForkCallSplit(s: KState)
    requires Running(s)
    ensures var ex := SysExofork(s);
      ex.ret > 0 ==>
        var l := ForkSpec.ForkLoop(ex.state, ex.ret, 0);
        ForkSpec.ForkCall(s) == if l.Panic? then ForkSpec.Panic else ForkSpec.ForkFinish(l.state, ex.ret)
  {
  }

  /**
   * The end of fork: the parent's upcall for the child, a fresh exception
   * stack page for it, and RUNNABLE; any failing syscall panics.
   */
  method ForkFinish(k: Kernel, envId: int) returns (panicked: bool)
    requires Running(k.State())
    modifies k
    ensures var run := ForkSpec.ForkFinish(old(k.State()), envId);
      panicked == run.Panic? && (!panicked ==> k.State() == run.state)
  {
    var r := k.SysEnvSetPgfaultUpcall(envId, k.envs[k.curenv].pgfaultUpcall);
    if r < 0 {
      return true;
    }
    r := k.SysPageAlloc(envId, ForkSpec.UXSTACK_VA, PTE_P | PTE_U | PTE_W);
    if r < 0 {
      return true;
    }
    r := k.SysEnvSetStatus(envId, ENV_RUNNABLE);
    return r < 0;
  }

  /**
   * fork's inner loop over the pages of the present page table i: each page
   * whose PTE is present and that is not the exception stack page goes to
   * duppage, and a negative result panics. What the page walk does from
   * the first page of table i on is what it does from the first page of
   * table i + 1 on, in the state this loop leaves, unless it panicked.
   */
  method DupTable(k: Kernel, envId: int, i: int) returns (panicked: bool, r: int)
    requires Running(k.State()) && 0 <= i < ForkSpec.UTOP_TABLES && PdePresent(k.State(), i)
    modifies k
    ensures panicked ==> ForkSpec.ForkLoop(old(k.State()), envId, i * NPTENTRIES) == ForkSpec.Panic
    ensures !panicked ==>
      && Running(k.State())
      && ForkSpec.ForkLoop(old(k.State()), envId, i * NPTENTRIES) == ForkSpec.ForkLoop(k.State(), envId, (i + 1) * NPTENTRIES)
  {
    ghost var loop := ForkSpec.ForkLoop(k.State(), envId, i * NPTENTRIES);
    var j := 0;
    while j < NPTENTRIES
      invariant 0 <= j <= NPTENTRIES
      invariant Running(k.State()) && PdePresent(k.State(), i)
      invariant loop == ForkSpec.ForkLoop(k.State(), envId, i * NPTENTRIES + j)
    {
      var pn := i * NPTENTRIES + j;
      var pte := Uvpt(k.State(), pn);
      if pte & PTE_P == 0 || pn == UXSTACK_PN {
        ForkProps.ForkLoopDupsSkip(k.State(), envId, pn);
        j := j + 1;
        continue;
      }
      ghost var before := k.State();
      DupStep(before, envId, i, j);
      var p;
      p, r := DupPage(k, envId, pn);
      if p || r < 0 {
        return true, r;
      }
      j := j + 1;
    }
    return false, 0;
  }

  /**
   * fork's page walk: the outer loop over the page tables below UTOP,
   * skipping absent ones and running the inner loop over present ones. It
   * does what ForkLoop from page 0 does: panics, or returns with the state
   * the page walk leaves.
   */
  method DupPages(k: Kernel, envId: int) returns (panicked: bool)
    requires Running(k.State())
    modifies k
    ensures var run := ForkSpec.ForkLoop(old(k.State()), envId, 0);
      panicked == run.Panic? && (!panicked ==> k.State() == run.state)
  {
    ghost var loop := ForkSpec.ForkLoop(k.State(), envId, 0);
    var i := 0;
    while i < ForkSpec.UTOP_TABLES
      invariant 0 <= i <= ForkSpec.UTOP_TABLES
      invariant Running(k.State())
      invariant loop == ForkSpec.ForkLoop(k.State(), envId, i * NPTENTRIES)
    {
      if !PdePresent(k.State(), i) {
        SkipTable(k.State(), envId, i, 0);
        i := i + 1;
        continue;
      }
      var p, r := DupTable(k, envId, i);
      if p {
        return true;
      }
      i := i + 1;
    }
    assert loop == ForkSpec.Ret(0, k.State());
    return false;
  }

  /**
   * fork(): sys_exofork (panic if negative; the child, which sees 0,
   * returns 0), the page walk, then the upcall, the exception stack page
   * and RUNNABLE for the child, whose envid is returned.
   */
  method Fork(k: Kernel) returns (panicked: bool, envId: int)
    requires Running(k.State())
    modifies k
    ensures var run := ForkSpec.ForkCall(old(k.State()));
      panicked == run.Panic? && (!panicked ==> envId == run.ret && k.State() == run.state)
  {
    ForkCallSplit(k.State());
    envId := k.SysExofork();
    if envId < 0 {
      return true, envId;
    }
    if envId == 0 {
      return false, 0;
    }
    panicked := DupPages(k, envId);
    if panicked {
      return;
    }
    panicked := ForkFinish(k, envId);
  }
}
