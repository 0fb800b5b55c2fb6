/**
 * User-level copy-on-write fork (lib/fork.c) as transition functions over the
 * kernel state: the running environment is the one executing the library
 * code, uvpt[pn] and uvpd[i] read its own page tables, and every kernel
 * service is the matching syscall function of module Syscall. A panic ends
 * the run; module LibFork performs the same steps through a Kernel object.
 */
module ForkSpec {
  import opened Mmu
  import opened Pmap
  import opened Syscall

  /** How a piece of user code ends: a panic, or a return value and the state left. */
  datatype Run = Panic | Ret(ret: int, state: KState)

  /** A syscall whose negative result the caller answers with panic. */
  function OrPanic(r: SysResult): (run: Run)
    ensures run.Panic? <==> r.ret < 0
    ensures run.Ret? ==> run == Ret(r.ret, r.state)
  {
    if r.ret < 0 then Panic else Ret(r.ret, r.state)
  }

  // ---------------------------------------------------------------------
  // duppage.
  // ---------------------------------------------------------------------

  /**
   * The pages duppage maps as they are: read-only ones and PTE_SHARE ones.
   * A PTE_SHARE page is always one, even when writable; any other page is
   * one exactly when it is neither writable nor copy-on-write.
   */
  predicate SharesAsIs(pte: Word): (asIs: bool)
    ensures pte & PTE_SHARE != 0 ==> asIs
    ensures pte & PTE_SHARE == 0 ==> (asIs <==> pte & PTE_W == 0 && pte & PTE_COW == 0)
  {
    pte & (PTE_W | PTE_COW) == 0 || pte & PTE_SHARE != 0
  }

  /**
   * The permission duppage gives the child's mapping: the page's own
   * syscall-settable bits for a shared or read-only page, and otherwise the
   * same bits made copy-on-write and read-only.
   */
  function ChildPerm(pte: Word): (perm: Word)
    ensures perm & !PTE_SYSCALL == 0
    ensures perm & (PTE_U | PTE_P) == pte & (PTE_U | PTE_P)
    ensures perm & PTE_W != 0 ==> pte & PTE_W != 0
    ensures SharesAsIs(pte) ==> perm & (PTE_COW | PTE_SHARE | PTE_W) == pte & (PTE_COW | PTE_SHARE | PTE_W)
    ensures !SharesAsIs(pte) ==> perm & PTE_W == 0 && perm & PTE_COW != 0 && perm & PTE_SHARE == 0
  {
    if SharesAsIs(pte) then pte & PTE_SYSCALL
    else ((pte & PTE_SYSCALL) | PTE_COW) & !PTE_W
  }

  /**
   * The permission duppage remaps the parent's own copy-on-write page with:
   * the whole entry, frame address included, with PTE_COW set and PTE_W
   * cleared.
   */
  function ParentRemapPerm(pte: Word): (perm: Word)
    ensures perm & !PTE_FLAGS == pte & !PTE_FLAGS
    ensures perm & (PTE_U | PTE_P) == pte & (PTE_U | PTE_P)
    ensures perm & PTE_W == 0 && perm & PTE_COW != 0
  {
    (pte | PTE_COW) & !PTE_W
  }

  /**
   * duppage(envid, pn): -E_INVAL for a page that is not user-present; a
   * shared or read-only page is mapped into the child as it is; any other
   * page is mapped copy-on-write into the child and then remapped
   * copy-on-write in the parent. A failing sys_page_map panics.
   */
  function DupPage(s: KState, envid: int, pn: int): (run: Run)
    requires Running(s) && 0 <= pn < UTOP_PAGES
    ensures run.Ret? ==> run.state.envs.Keys == s.envs.Keys && run.state.curenv == s.curenv
  {
    var pte := Uvpt(s, pn);
    var addr := pn * PGSIZE;
    if pte & (PTE_U | PTE_P) != PTE_U | PTE_P then Ret(-E_INVAL, s)
    else if SharesAsIs(pte) then OrPanic(SysPageMap(s, 0, addr, envid, addr, ChildPerm(pte)))
    else
      var r1 := SysPageMap(s, 0, addr, envid, addr, ChildPerm(pte));
      if r1.ret < 0 then Panic
      else
        var r2 := SysPageMap(r1.state, 0, addr, 0, addr, ParentRemapPerm(pte));
        if r2.ret < 0 then Panic else Ret(0, r2.state)
  }

  /** fork's loop body: duppage, with a negative result answered by panic. */
  function DupOrPanic(s: KState, envid: int, pn: int): (run: Run)
    requires Running(s) && 0 <= pn < UTOP_PAGES
    ensures run.Ret? ==> run.ret == 0 && run.state.envs.Keys == s.envs.Keys && run.state.curenv == s.curenv
  {
    match DupPage(s, envid, pn)
    case Panic => Panic
    case Ret(r, s1) => if r < 0 then Panic else Ret(0, s1)
  }

  // ---------------------------------------------------------------------
  // fork's page walk.
  // ---------------------------------------------------------------------

  /** The number of page-directory slots below UTOP: PDX(UTOP). */
  const UTOP_TABLES: int := UTOP / PTSIZE

  /**
   * Whether fork's loop hands page pn to duppage: its page table is present,
   * its PTE is present, and it is not the user exception stack page.
   */
  predicate Qualifies(s: KState, pn: int): (dup: bool)
    requires Running(s)
    ensures dup ==> && pn * PGSIZE in s.envs[s.curenv].pgdir.ptes
                    && s.envs[s.curenv].pgdir.ptes[pn * PGSIZE] & PTE_P != 0
                    && pn != UXSTACK_PN
  {
    PdePresent(s, pn / NPTENTRIES) && Uvpt(s, pn) & PTE_P != 0 && pn != UXSTACK_PN
  }

  /**
   * fork's nested loop from page number pn on, one page at a time in
   * increasing order; the directory entry of page pn is the one the outer
   * loop tests (uvpd[pn / NPTENTRIES]). A negative duppage panics.
   */
  function ForkLoop(s: KState, child: int, pn: int): (run: Run)
    requires Running(s) && 0 <= pn <= UTOP_PAGES
    ensures run.Ret? ==> run.ret == 0 && run.state.envs.Keys == s.envs.Keys && run.state.curenv == s.curenv
    decreases UTOP_PAGES - pn
  {
    if pn == UTOP_PAGES then Ret(0, s)
    else if !Qualifies(s, pn) then ForkLoop(s, child, pn + 1)
    else match DupOrPanic(s, child, pn)
      case Panic => Panic
      case Ret(_, s1) => ForkLoop(s1, child, pn + 1)
  }

  /** The user exception stack page: ROUNDDOWN(UXSTACKTOP - 1, PGSIZE). */
  const UXSTACK_VA: u32 := UXSTACKTOP - PGSIZE

  /**
   * The end of fork once the page walk is done: the parent's upcall copied to
   * the child, a fresh U|P|W exception stack page for the child, and the
   * child marked RUNNABLE; any failing syscall panics, and the child's id is
   * returned.
   */
  function ForkFinish(s: KState, child: int): (run: Run)
    requires Running(s)
    ensures run.Ret? ==> run.ret == child && run.state.envs.Keys == s.envs.Keys && run.state.curenv == s.curenv
  {
    var r1 := SysEnvSetPgfaultUpcall(s, child, s.envs[s.curenv].pgfaultUpcall);
    if r1.ret < 0 then Panic
    else
      var r2 := SysPageAlloc(r1.state, child, UXSTACK_VA, PTE_P | PTE_U | PTE_W);
      if r2.ret < 0 then Panic
      else
        var r3 := SysEnvSetStatus(r2.state, child, ENV_RUNNABLE);
        if r3.ret < 0 then Panic else Ret(child, r3.state)
  }

  /**
   * fork from the moment sys_exofork has returned envId in the environment
   * now running: a negative envId panics; 0 is what the child sees, and the
   * child returns 0 at once; the parent walks its pages and finishes the
   * child.
   */
  function ForkAfterExofork(s: KState, envId: int): (run: Run)
    requires Running(s)
    ensures envId == 0 ==> run == Ret(0, s)
    ensures envId < 0 ==> run.Panic?
    ensures run.Ret? && envId > 0 ==> run.ret == envId && run.state.envs.Keys == s.envs.Keys && run.state.curenv == s.curenv
  {
    if envId < 0 then Panic
    else if envId == 0 then Ret(0, s)
    else
      match ForkLoop(s, envId, 0)
      case Panic => Panic
      case Ret(_, s1) => ForkFinish(s1, envId)
  }

  /**
   * fork, as the parent calls it: sys_exofork, then the rest of fork on its
   * result. It returns only when sys_exofork found an envid and a frame, and
   * then with the envid handed out, in a table that has gained that entry.
   */
  function ForkCall(s: KState): (run: Run)
    requires Running(s)
    ensures run.Ret? ==>
      && |s.envPool| > 0 && |s.free| > 0
      && run.ret == s.envPool[0]
      && run.state.envs.Keys == s.envs.Keys + {run.ret} && run.state.curenv == s.curenv
  {
    var ex := SysExofork(s);
    ForkAfterExofork(ex.state, ex.ret)
  }

  // ---------------------------------------------------------------------
  // pgfault.
  // ---------------------------------------------------------------------

  /**
   * memmove(dstva, srcva, PGSIZE) between two mapped pages of the running
   * environment: the frame behind dstva takes the contents of the frame
   * behind srcva.
   */
  function UserCopyPage(s: KState, dstva: int, srcva: int): (s': KState)
    requires Running(s)
    requires dstva in s.envs[s.curenv].pgdir.ptes && srcva in s.envs[s.curenv].pgdir.ptes
    ensures s'.envs == s.envs && s'.curenv == s.curenv && s'.free == s.free && s'.envPool == s.envPool
    ensures var d := s.envs[s.curenv].pgdir.ptes;
      Contents(s', PteFrame(d[dstva])) == Contents(s, PteFrame(d[srcva]))
  {
    var d := s.envs[s.curenv].pgdir.ptes;
    s.(mem := s.mem[PteFrame(d[dstva]) as int := Contents(s, PteFrame(d[srcva]))])
  }

  /**
   * pgfault's repair of the page at va: allocate a page at PFTEMP, copy the
   * page at va into it, map it writable at va, and unmap PFTEMP. Any failing
   * syscall panics.
   */
  function PgFaultCopy(s: KState, va: u32): (run: Run)
    requires Running(s) && va in s.envs[s.curenv].pgdir.ptes
    ensures run.Ret? ==> run.ret == 0 && run.state.envs.Keys == s.envs.Keys && run.state.curenv == s.curenv
    ensures run.Ret? && va != PFTEMP ==>
      && va in run.state.envs[s.curenv].pgdir.ptes
      && run.state.envs[s.curenv].pgdir.ptes[va] & PTE_FLAGS == PTE_U | PTE_P | PTE_W
  {
    var r1 := SysPageAlloc(s, 0, PFTEMP, PTE_U | PTE_P | PTE_W);
    if r1.ret < 0 then Panic
    else
      var s2 := UserCopyPage(r1.state, PFTEMP, va);
      var r3 := SysPageMap(s2, 0, PFTEMP, 0, va, PTE_U | PTE_P | PTE_W);
      if r3.ret < 0 then Panic
      else OrPanic(SysPageUnmap(r3.state, 0, PFTEMP))
  }

  /**
   * pgfault(utf): panic unless the fault was a write to a user-present
   * copy-on-write page (the PTE is read through uvpt at the faulting
   * address's page number); then repair the page holding the faulting
   * address.
   */
  function PgFault(s: KState, faultVa: u32, err: Word): (run: Run)
    requires Running(s)
    ensures run.Ret? ==>
      && err & FEC_WR != 0
      && Uvpt(s, faultVa / PGSIZE) & (PTE_U | PTE_P) == PTE_U | PTE_P
      && Uvpt(s, faultVa / PGSIZE) & PTE_COW != 0
      && run.ret == 0 && run.state.envs.Keys == s.envs.Keys && run.state.curenv == s.curenv
    ensures run.Ret? && RoundDown(faultVa) != PFTEMP ==>
      && RoundDown(faultVa) in run.state.envs[s.curenv].pgdir.ptes
      && run.state.envs[s.curenv].pgdir.ptes[RoundDown(faultVa)] & PTE_FLAGS == PTE_U | PTE_P | PTE_W
  {
    var pte := Uvpt(s, faultVa / PGSIZE);
    if err & FEC_WR == 0 then Panic
    else if pte & (PTE_U | PTE_P) != PTE_U | PTE_P then Panic
    else if pte & PTE_COW == 0 then Panic
    else PgFaultCopy(s, RoundDown(faultVa))
  }
}
