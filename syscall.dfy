/**
 * The syscall layer of kern/syscall.c as transition functions: each takes
 * the kernel state and the caller's arguments and gives the value returned
 * to the caller with the state left behind. They follow the code as written,
 * check for check and in the same order; where the code departs from its
 * own comments the function follows the code, and SyscallProps states the
 * departure.
 *
 * The Kernel class in module Kern performs the same steps in place and is
 * proved to agree with these functions.
 */
module Syscall {
  import opened Mmu
  import opened Pmap

  /** The argument check shared by sys_page_alloc, sys_page_unmap and the rest. */
  predicate BadVa(va: int)
  {
    va >= UTOP || va % PGSIZE != 0
  }

  /** sys_page_alloc's permission check: PTE_U|PTE_P set, nothing outside PTE_SYSCALL. */
  predicate AllocPermOk(perm: Word)
  {
    perm & (PTE_U | PTE_P) == PTE_U | PTE_P && perm & !PTE_SYSCALL == 0
  }

  /** sys_ipc_try_send's permission check as written: reject only if U, P are both clear and some bit lies outside PTE_SYSCALL. */
  predicate IpcPermRejected(perm: Word)
  {
    perm & PTE_U == 0 && perm & PTE_P == 0 && perm & !PTE_SYSCALL != 0
  }

  /** Nothing but the free list and frame contents may differ. */
  predicate SameEnvs(s: KState, s': KState)
  {
    s'.envs == s.envs && s'.curenv == s.curenv && s'.envPool == s.envPool
  }

  /** sys_getenvid. */
  function SysGetenvid(s: KState): (r: int)
    requires Running(s)
    ensures r in s.envs
  {
    s.curenv
  }

  /**
   * sys_exofork: env_alloc (no envid left: -E_NO_FREE_ENV; no frame for the
   * page directory: -E_NO_MEM), then the child is made NOT_RUNNABLE with the
   * parent's registers and eax forced to 0.
   */
  function SysExofork(s: KState): (res: SysResult)
    requires Running(s)
    ensures |s.envPool| == 0 ==> res == SysResult(-E_NO_FREE_ENV, s)
    ensures |s.envPool| > 0 && |s.free| == 0 ==> res == SysResult(-E_NO_MEM, s)
    ensures |s.envPool| > 0 && |s.free| > 0 ==>
      && res.ret == s.envPool[0]
      && res.state.envs.Keys == s.envs.Keys + {res.ret}
      && res.state.curenv == s.curenv && res.state.mem == s.mem
      && res.state.free == s.free[1..] && res.state.envPool == s.envPool[1..]
  {
    if |s.envPool| == 0 then SysResult(-E_NO_FREE_ENV, s)
    else if |s.free| == 0 then SysResult(-E_NO_MEM, s)
    else
      var id := s.envPool[0];
      var child := Env(
        parent := s.curenv,
        status := EnvNotRunnable,
        tf := s.envs[s.curenv].tf.(eax := 0),
        pgfaultUpcall := 0,
        ipcRecving := false,
        ipcFrom := 0, ipcValue := 0, ipcDstva := 0, ipcPerm := 0,
        pgdir := PageDir({}, map[]));
      SysResult(id, s.(envs := s.envs[id := child], free := s.free[1..], envPool := s.envPool[1..]))
  }

  /**
   * sys_env_set_status: the envid2env failure first, then any status other
   * than ENV_RUNNABLE or ENV_NOT_RUNNABLE is -E_INVAL.
   */
  function SysEnvSetStatus(s: KState, envid: int, status: int): (res: SysResult)
    requires Running(s)
    ensures res.state.envs.Keys == s.envs.Keys && res.state.curenv == s.curenv
    ensures res.state.free == s.free && res.state.mem == s.mem && res.state.envPool == s.envPool
  {
    match EnvidToEnv(s, envid, true)
    case None => SysResult(-E_BAD_ENV, s)
    case Some(id) =>
      if status != ENV_RUNNABLE && status != ENV_NOT_RUNNABLE then SysResult(-E_INVAL, s)
      else
        var st := if status == ENV_RUNNABLE then EnvRunnable else EnvNotRunnable;
        SysResult(0, SetEnv(s, id, s.envs[id].(status := st)))
  }

  /**
   * sys_env_set_trapframe: an eip at or above UTOP is refused with -1; the
   * frame is installed with interrupts enabled and CPL 3.
   */
  function SysEnvSetTrapframe(s: KState, envid: int, tf: Trapframe): (res: SysResult)
    requires Running(s)
    ensures res.ret == 0 <==> EnvidToEnv(s, envid, true).Some? && tf.eip < UTOP_WORD
    ensures res.ret != 0 ==> res.state == s
    ensures res.state.envs.Keys == s.envs.Keys && res.state.curenv == s.curenv
    ensures res.state.free == s.free && res.state.mem == s.mem && res.state.envPool == s.envPool
  {
    match EnvidToEnv(s, envid, true)
    case None => SysResult(-E_BAD_ENV, s)
    case Some(id) =>
      if tf.eip >= UTOP_WORD then SysResult(-1, s)
      else SysResult(0, SetEnv(s, id, s.envs[id].(tf := UserMode(tf))))
  }

  /**
   * The adjustment sys_env_set_trapframe makes to a user-supplied frame:
   * interrupts enabled, code segment at privilege level 3, all else kept.
   */
  function UserMode(tf: Trapframe): (tf': Trapframe)
    ensures tf'.eflags & FL_IF == FL_IF && tf'.cs & 3 == 3
    ensures tf'.eflags & !FL_IF == tf.eflags & !FL_IF && tf'.cs & !3 == tf.cs & !3
    ensures tf'.eax == tf.eax && tf'.eip == tf.eip
  {
    tf.(eflags := tf.eflags | FL_IF, cs := tf.cs | 3)
  }

  /** sys_env_set_pgfault_upcall. */
  function SysEnvSetPgfaultUpcall(s: KState, envid: int, func: Word): (res: SysResult)
    requires Running(s)
    ensures res.ret == 0 || res.ret == -E_BAD_ENV
    ensures res.ret == 0 <==> EnvidToEnv(s, envid, true).Some?
    ensures res.ret < 0 ==> res.state == s
    ensures res.state.envs.Keys == s.envs.Keys && res.state.curenv == s.curenv
    ensures res.state.free == s.free && res.state.mem == s.mem && res.state.envPool == s.envPool
    ensures res.ret == 0 ==> forall j | j in s.envs :: res.state.envs[j].pgdir == s.envs[j].pgdir
  {
    match EnvidToEnv(s, envid, true)
    case None => SysResult(-E_BAD_ENV, s)
    case Some(id) => SysResult(0, SetEnv(s, id, s.envs[id].(pgfaultUpcall := func)))
  }

  /**
   * sys_page_alloc: envid2env, the address and permission checks, then a
   * zeroed frame from page_alloc mapped with page_insert; when page_insert
   * fails the frame goes back with page_free.
   */
  function SysPageAlloc(s: KState, envid: int, va: u32, perm: Word): (res: SysResult)
    requires Running(s)
    ensures res.state.envs.Keys == s.envs.Keys && res.state.curenv == s.curenv
    ensures res.state.envPool == s.envPool
    ensures res.ret != 0 ==> res.state.envs == s.envs && res.state.free == s.free
    ensures res.ret == 0 ==>
      && EnvidToEnv(s, envid, true).Some?
      && var id := EnvidToEnv(s, envid, true).value;
      && var used := if PDX(va) in s.envs[id].pgdir.tables then 1 else 2;
      && |s.free| >= used
      && (forall j | j in s.envs && j != id :: res.state.envs[j] == s.envs[j])
      && res.state.envs[id].pgdir.ptes == s.envs[id].pgdir.ptes[va := MkPte(s.free[0], perm)]
      && res.state.envs[id].pgdir.tables == s.envs[id].pgdir.tables + {PDX(va)}
      && res.state.envs[id] == s.envs[id].(pgdir := res.state.envs[id].pgdir)
      && res.state.mem == s.mem[s.free[0] as int := ZeroPage()]
      && res.state.free == s.free[used..]
  {
    match EnvidToEnv(s, envid, true)
    case None => SysResult(-E_BAD_ENV, s)
    case Some(id) =>
      if BadVa(va) then SysResult(-E_INVAL, s)
      else if perm & (PTE_U | PTE_P) != PTE_U | PTE_P then SysResult(-E_INVAL, s)
      else if perm & !PTE_SYSCALL != 0 then SysResult(-E_INVAL, s)
      else match PageAlloc(s)
        case None => SysResult(-E_NO_MEM, s)
        case Some(a) =>
          var ins := PageInsert(a.state, id, a.frame, va, perm);
          if ins.ret < 0 then SysResult(ins.ret, PageFree(ins.state, a.frame))
          else SysResult(0, ins.state)
  }

  /**
   * sys_page_map as written: the PTE_SYSCALL check is commented out, so
   * only PTE_U|PTE_P is required of perm.
   */
  function SysPageMap(s: KState, srcenvid: int, srcva: u32, dstenvid: int, dstva: u32, perm: Word): (res: SysResult)
    requires Running(s)
    ensures res.state.envs.Keys == s.envs.Keys && res.state.curenv == s.curenv
    ensures res.state.mem == s.mem && res.state.envPool == s.envPool
    ensures res.ret != 0 ==> res.state == s
    ensures res.ret == 0 ==>
      && EnvidToEnv(s, srcenvid, true).Some? && EnvidToEnv(s, dstenvid, true).Some?
      && var src := EnvidToEnv(s, srcenvid, true).value;
      && var dst := EnvidToEnv(s, dstenvid, true).value;
      && srcva in s.envs[src].pgdir.ptes
      && res == PageInsert(s, dst, PteFrame(s.envs[src].pgdir.ptes[srcva]), dstva, perm)
  {
    var se := EnvidToEnv(s, srcenvid, true);
    var de := EnvidToEnv(s, dstenvid, true);
    if se.None? || de.None? then SysResult(-E_BAD_ENV, s)
    else if BadVa(srcva) || BadVa(dstva) then SysResult(-E_INVAL, s)
    else if perm & (PTE_U | PTE_P) != PTE_U | PTE_P then SysResult(-E_INVAL, s)
    else match PageLookup(s.envs[se.value].pgdir, srcva)
      case None => SysResult(-E_INVAL, s)
      case Some(pte) =>
        if perm & PTE_W != 0 && pte & PTE_W == 0 then SysResult(-E_INVAL, s)
        else PageInsert(s, de.value, PteFrame(pte), dstva, perm)
  }

  /** sys_page_unmap: the checks, then page_remove; an unmapped va is no error. */
  function SysPageUnmap(s: KState, envid: int, va: u32): (res: SysResult)
    requires Running(s)
    ensures res.state.envs.Keys == s.envs.Keys && res.state.curenv == s.curenv
    ensures res.state.free == s.free && res.state.mem == s.mem && res.state.envPool == s.envPool
    ensures res.ret != 0 ==> res.state == s
    ensures res.ret == 0 ==> EnvidToEnv(s, envid, true).Some? && !BadVa(va)
  {
    match EnvidToEnv(s, envid, true)
    case None => SysResult(-E_BAD_ENV, s)
    case Some(id) =>
      if BadVa(va) then SysResult(-E_INVAL, s)
      else SysResult(0, PageRemove(s, id, va))
  }

  /**
   * The delivery half of sys_ipc_try_send: env_ipc_perm is written only when
   * a page went across (perm is Some), then from, value, recving, the
   * receiver's saved eax and its status. The receiver's other registers,
   * its mappings, dstva, parent and upcall stay, and nothing else changes.
   */
  function IpcDeliver(s: KState, id: int, value: Word, perm: Option<Word>): (s': KState)
    requires Running(s) && id in s.envs
    ensures s'.envs.Keys == s.envs.Keys && s'.curenv == s.curenv
    ensures s'.free == s.free && s'.mem == s.mem && s'.envPool == s.envPool
    ensures forall j | j in s.envs && j != id :: s'.envs[j] == s.envs[j]
    ensures var e := s'.envs[id];
      && e.ipcFrom == s.curenv && e.ipcValue == value && !e.ipcRecving
      && e.tf == s.envs[id].tf.(eax := 0) && e.status == EnvRunnable
      && e.ipcPerm == (if perm.Some? then perm.value else s.envs[id].ipcPerm)
      && e.pgdir == s.envs[id].pgdir && e.ipcDstva == s.envs[id].ipcDstva
      && e.parent == s.envs[id].parent && e.pgfaultUpcall == s.envs[id].pgfaultUpcall
  {
    var e := s.envs[id];
    var e' := e.(
      ipcPerm := if perm.Some? then perm.value else e.ipcPerm,
      ipcFrom := s.curenv,
      ipcValue := value,
      ipcRecving := false,
      tf := e.tf.(eax := 0),
      status := EnvRunnable);
    SetEnv(s, id, e')
  }

  /**
   * sys_ipc_try_send as written: envid2env without the permission check,
   * -E_IPC_NOT_RECV before anything about srcva, the weak perm check, and a
   * page_insert whose failure is ignored. On success, when srcva and the
   * receiver's dstva are both below UTOP and page_insert finds or gets a
   * page table, the receiver maps the sender's srcva frame at dstva with
   * perm; otherwise the receiver's mappings are untouched. No other
   * environment changes.
   */
  function SysIpcTrySend(s: KState, envid: int, value: Word, srcva: u32, perm: Word): (res: SysResult)
    requires Running(s)
    ensures res.state.envs.Keys == s.envs.Keys && res.state.curenv == s.curenv
    ensures res.state.mem == s.mem && res.state.envPool == s.envPool
    ensures res.ret != 0 ==> res.state == s
    ensures res.ret == 0 ==>
      && EnvidToEnv(s, envid, false).Some?
      && var id := EnvidToEnv(s, envid, false).value;
      && var dst := s.envs[id].ipcDstva;
      && s.envs[id].ipcRecving
      && (forall j | j in s.envs && j != id :: res.state.envs[j] == s.envs[j])
      && (srcva < UTOP && dst < UTOP && (PDX(dst) in s.envs[id].pgdir.tables || |s.free| > 0) ==>
            && srcva in s.envs[s.curenv].pgdir.ptes
            && res.state.envs[id].pgdir.ptes
               == s.envs[id].pgdir.ptes[dst := MkPte(PteFrame(s.envs[s.curenv].pgdir.ptes[srcva]), perm)])
      && (!(srcva < UTOP && dst < UTOP && (PDX(dst) in s.envs[id].pgdir.tables || |s.free| > 0)) ==>
            res.state.envs[id].pgdir == s.envs[id].pgdir && res.state.free == s.free)
  {
    match EnvidToEnv(s, envid, false)
    case None => SysResult(-E_BAD_ENV, s)
    case Some(id) =>
      var e := s.envs[id];
      if !e.ipcRecving then SysResult(-E_IPC_NOT_RECV, s)
      else if srcva < UTOP && srcva % PGSIZE != 0 then SysResult(-E_INVAL, s)
      else if srcva < UTOP && IpcPermRejected(perm) then SysResult(-E_INVAL, s)
      else if srcva < UTOP && e.ipcDstva < UTOP then
        match PageLookup(s.envs[s.curenv].pgdir, srcva)
        case None => SysResult(-E_INVAL, s)
        case Some(pte) =>
          var s1 := PageInsert(s, id, PteFrame(pte), e.ipcDstva, perm).state;
          SysResult(0, IpcDeliver(s1, id, value, Some(perm)))
      else SysResult(0, IpcDeliver(s, id, value, None))
  }

  /**
   * sys_ipc_recv: a dstva below UTOP must be aligned; then the caller
   * records dstva, clears perm, sets recving and blocks.
   */
  function SysIpcRecv(s: KState, dstva: u32): (res: SysResult)
    requires Running(s)
    ensures res.state.envs.Keys == s.envs.Keys && res.state.curenv == s.curenv
    ensures res.state.free == s.free && res.state.mem == s.mem && res.state.envPool == s.envPool
    ensures res.ret != 0 ==> res.state == s
  {
    if dstva < UTOP && dstva % PGSIZE != 0 then SysResult(-E_INVAL, s)
    else
      var e := s.envs[s.curenv];
      SysResult(0, SetEnv(s, s.curenv, e.(
        ipcDstva := dstva, ipcPerm := 0, ipcRecving := true, status := EnvNotRunnable)))
  }

  // ---------------------------------------------------------------------
  // The dispatcher.
  // ---------------------------------------------------------------------

  // Syscall numbers, in the order of the JOS syscall enumeration.
  const SYS_cputs: u32 := 0
  const SYS_cgetc: u32 := 1
  const SYS_getenvid: u32 := 2
  const SYS_env_destroy: u32 := 3
  const SYS_page_alloc: u32 := 4
  const SYS_page_map: u32 := 5
  const SYS_page_unmap: u32 := 6
  const SYS_exofork: u32 := 7
  const SYS_env_set_status: u32 := 8
  const SYS_env_set_trapframe: u32 := 9
  const SYS_env_set_pgfault_upcall: u32 := 10
  const SYS_yield: u32 := 11
  const SYS_ipc_try_send: u32 := 12
  const SYS_ipc_recv: u32 := 13
  const SYS_time_msec: u32 := 14
  const SYS_net_try_send: u32 := 15
  const SYS_net_try_receive: u32 := 16

  /**
   * The syscalls whose work lies outside the core: console output and
   * input, env teardown, the scheduler, the clock and the network.
   */
  predicate External(no: u32)
  {
    no == SYS_cputs || no == SYS_cgetc || no == SYS_env_destroy || no == SYS_yield
    || no == SYS_time_msec || no == SYS_net_try_send || no == SYS_net_try_receive
  }

  /**
   * syscall: dispatch on the number with the argument registers cast as the
   * source casts them. userTf is the Trapframe that a2 points to for
   * SYS_env_set_trapframe. An out-of-core syscall returns external (0 for
   * sys_cputs and sys_yield, which the switch breaks out of) and leaves
   * externalState, the state its own code (env_destroy, sched_yield,
   * user_mem_assert) produces.
   */
  function Dispatch(s: KState, no: u32, a1: u32, a2: u32, a3: u32, a4: u32, a5: u32,
                    userTf: Trapframe, external: int, externalState: KState): (res: SysResult)
    requires Running(s)
    ensures External(no) ==> res.state == externalState
    ensures !External(no) ==> res.state.curenv == s.curenv && s.envs.Keys <= res.state.envs.Keys
  {
    if External(no) then
      SysResult(if no == SYS_cputs || no == SYS_yield then 0 else external, externalState)
    else if no == SYS_getenvid then SysResult(SysGetenvid(s), s)
    else if no == SYS_exofork then SysExofork(s)
    else if no == SYS_page_alloc then SysPageAlloc(s, Signed(a1), a2, a3 as Word)
    else if no == SYS_page_map then SysPageMap(s, Signed(a1), a2, Signed(a3), a4, a5 as Word)
    else if no == SYS_page_unmap then SysPageUnmap(s, Signed(a1), a2)
    else if no == SYS_env_set_status then SysEnvSetStatus(s, Signed(a1), Signed(a2))
    else if no == SYS_env_set_pgfault_upcall then SysEnvSetPgfaultUpcall(s, Signed(a1), a2 as Word)
    else if no == SYS_ipc_try_send then SysIpcTrySend(s, Signed(a1), a2 as Word, a3, a4 as Word)
    else if no == SYS_ipc_recv then SysIpcRecv(s, a1)
    else if no == SYS_env_set_trapframe then SysEnvSetTrapframe(s, Signed(a1), userTf)
    else SysResult(-E_INVAL, s)
  }
}
