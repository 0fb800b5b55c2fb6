/**
 * What the syscall layer guarantees, proved of the transition functions of
 * module Syscall (and so of the Kernel methods that agree with them): the
 * argument checks, the absence of leaks, write-permission monotonicity of
 * sys_page_map, the one-sender rendezvous, that every syscall preserves the
 * kernel invariant, and the places where the code does less than its own
 * comments promise.
 */
module SyscallProps {
  import opened Mmu
  import opened Pmap
  import opened Syscall

  // ---------------------------------------------------------------------
  // The kernel invariant is preserved.
  // ---------------------------------------------------------------------

  /** Dropping frames from the head of the free list keeps the invariant. */
  lemma ValidAfterDrop(s: KState, k: nat)
    requires Valid(s) && k <= |s.free|
    ensures Valid(s.(free := s.free[k..]))
  {
  }

  /**
   * page_insert keeps the invariant when the frame it maps is not free and
   * the address is a user page.
   */
  lemma ValidAfterInsert(s: KState, id: int, pp: Frame, va: int, perm: Word)
    requires Valid(s) && id in s.envs && UserPage(va) && pp !in s.free
    ensures Valid(PageInsert(s, id, pp, va, perm).state)
  {
    var res := PageInsert(s, id, pp, va, perm);
    if res.ret == 0 && PDX(va) !in s.envs[id].pgdir.tables {
      ValidAfterDrop(s, 1);
    }
  }

  lemma ValidAfterExofork(s: KState)
    requires Valid(s)
    ensures Valid(SysExofork(s).state)
  {
    if |s.envPool| > 0 && |s.free| > 0 {
      var s' := SysExofork(s).state;
      ValidAfterDrop(s, 1);
      var id := s.envPool[0];
      forall i | 0 <= i < |s'.envPool|
        ensures s'.envPool[i] > 0 && s'.envPool[i] !in s'.envs
      {
        assert s'.envPool[i] == s.envPool[i + 1];
      }
    }
  }

  lemma ValidAfterSetStatus(s: KState, envid: int, status: int)
    requires Valid(s)
    ensures Valid(SysEnvSetStatus(s, envid, status).state)
  {
  }

  lemma ValidAfterSetTrapframe(s: KState, envid: int, tf: Trapframe)
    requires Valid(s)
    ensures Valid(SysEnvSetTrapframe(s, envid, tf).state)
  {
  }

  lemma ValidAfterSetPgfaultUpcall(s: KState, envid: int, func: Word)
    requires Valid(s)
    ensures Valid(SysEnvSetPgfaultUpcall(s, envid, func).state)
  {
  }

  lemma ValidAfterPageAlloc(s: KState, envid: int, va: u32, perm: Word)
    requires Valid(s)
    ensures Valid(SysPageAlloc(s, envid, va, perm).state)
  {
    var res := SysPageAlloc(s, envid, va, perm);
    if res.ret == 0 {
      var id := EnvidToEnv(s, envid, true).value;
      var a := PageAlloc(s).value;
      ValidAfterDrop(s, 1);
      assert Valid(a.state);
      assert a.frame !in a.state.free;
      ValidAfterInsert(a.state, id, a.frame, va, perm);
    }
  }

  lemma ValidAfterPageMap(s: KState, srcenvid: int, srcva: u32, dstenvid: int, dstva: u32, perm: Word)
    requires Valid(s)
    ensures Valid(SysPageMap(s, srcenvid, srcva, dstenvid, dstva, perm).state)
  {
    var res := SysPageMap(s, srcenvid, srcva, dstenvid, dstva, perm);
    if res.ret == 0 {
      var src := EnvidToEnv(s, srcenvid, true).value;
      var dst := EnvidToEnv(s, dstenvid, true).value;
      assert WfEnv(s.envs[src], s.free);
      ValidAfterInsert(s, dst, PteFrame(s.envs[src].pgdir.ptes[srcva]), dstva, perm);
    }
  }

  lemma ValidAfterPageUnmap(s: KState, envid: int, va: u32)
    requires Valid(s)
    ensures Valid(SysPageUnmap(s, envid, va).state)
  {
  }

  /** Delivering a message keeps the invariant: the receiver stops receiving. */
  lemma ValidAfterDeliver(s: KState, id: int, value: Word, perm: Option<Word>)
    requires Valid(s) && id in s.envs
    ensures Valid(IpcDeliver(s, id, value, perm))
  {
    var s' := IpcDeliver(s, id, value, perm);
    assert s'.envs[id].pgdir == s.envs[id].pgdir;
    assert WfEnv(s.envs[id], s.free);
  }

  lemma ValidAfterIpcTrySend(s: KState, envid: int, value: Word, srcva: u32, perm: Word)
    requires Valid(s)
    ensures Valid(SysIpcTrySend(s, envid, value, srcva, perm).state)
  {
    var res := SysIpcTrySend(s, envid, value, srcva, perm);
    var t := EnvidToEnv(s, envid, false);
    if res.ret == 0 && t.Some? {
      var id := t.value;
      if srcva < UTOP && s.envs[id].ipcDstva < UTOP {
        var pte := PageLookup(s.envs[s.curenv].pgdir, srcva).value;
        assert WfEnv(s.envs[s.curenv], s.free) && WfEnv(s.envs[id], s.free);
        var s1 := PageInsert(s, id, PteFrame(pte), s.envs[id].ipcDstva, perm).state;
        ValidAfterInsert(s, id, PteFrame(pte), s.envs[id].ipcDstva, perm);
        ValidAfterDeliver(s1, id, value, Some(perm));
      } else {
        ValidAfterDeliver(s, id, value, None);
      }
    }
  }

  lemma ValidAfterIpcRecv(s: KState, dstva: u32)
    requires Valid(s)
    ensures Valid(SysIpcRecv(s, dstva).state)
  {
  }

  /**
   * Every core syscall the dispatcher reaches keeps the kernel invariant;
   * the out-of-core ones leave whatever state their own code leaves.
   */
  lemma ValidAfterDispatch(s: KState, no: u32, a1: u32, a2: u32, a3: u32, a4: u32, a5: u32,
                           userTf: Trapframe, external: int, externalState: KState)
    requires Valid(s)
    ensures !External(no) ==> Valid(Dispatch(s, no, a1, a2, a3, a4, a5, userTf, external, externalState).state)
  {
    var res := Dispatch(s, no, a1, a2, a3, a4, a5, userTf, external, externalState);
    if External(no) {
    } else if no == SYS_exofork {
      assert res == SysExofork(s);
      ValidAfterExofork(s);
    } else if no == SYS_page_alloc {
      assert res == SysPageAlloc(s, Signed(a1), a2, a3 as Word);
      ValidAfterPageAlloc(s, Signed(a1), a2, a3 as Word);
    } else if no == SYS_page_map {
      assert res == SysPageMap(s, Signed(a1), a2, Signed(a3), a4, a5 as Word);
      ValidAfterPageMap(s, Signed(a1), a2, Signed(a3), a4, a5 as Word);
    } else if no == SYS_page_unmap {
      assert res == SysPageUnmap(s, Signed(a1), a2);
      ValidAfterPageUnmap(s, Signed(a1), a2);
    } else if no == SYS_env_set_status {
      assert res == SysEnvSetStatus(s, Signed(a1), Signed(a2));
      ValidAfterSetStatus(s, Signed(a1), Signed(a2));
    } else if no == SYS_env_set_pgfault_upcall {
      assert res == SysEnvSetPgfaultUpcall(s, Signed(a1), a2 as Word);
      ValidAfterSetPgfaultUpcall(s, Signed(a1), a2 as Word);
    } else if no == SYS_ipc_try_send {
      assert res == SysIpcTrySend(s, Signed(a1), a2 as Word, a3, a4 as Word);
      ValidAfterIpcTrySend(s, Signed(a1), a2 as Word, a3, a4 as Word);
    } else if no == SYS_ipc_recv {
      assert res == SysIpcRecv(s, a1);
      ValidAfterIpcRecv(s, a1);
    } else if no == SYS_env_set_trapframe {
      assert res == SysEnvSetTrapframe(s, Signed(a1), userTf);
      ValidAfterSetTrapframe(s, Signed(a1), userTf);
    } else {
      assert res.state == s;
    }
  }

  // ---------------------------------------------------------------------
  // The dispatcher.
  // ---------------------------------------------------------------------

  /** A number past the last syscall is -E_INVAL and changes nothing. */
  lemma DispatchUnknown(s: KState, no: u32, a1: u32, a2: u32, a3: u32, a4: u32, a5: u32,
                        userTf: Trapframe, external: int, externalState: KState)
    requires Running(s) && no > SYS_net_try_receive
    ensures Dispatch(s, no, a1, a2, a3, a4, a5, userTf, external, externalState) == SysResult(-E_INVAL, s)
  {
  }

  /** sys_getenvid returns the running environment's id and changes nothing. */
  lemma DispatchGetenvid(s: KState, a1: u32, a2: u32, a3: u32, a4: u32, a5: u32,
                         userTf: Trapframe, external: int, externalState: KState)
    requires Running(s)
    ensures Dispatch(s, SYS_getenvid, a1, a2, a3, a4, a5, userTf, external, externalState) == SysResult(s.curenv, s)
  {
  }

  // ---------------------------------------------------------------------
  // sys_exofork.
  // ---------------------------------------------------------------------

  /**
   * The child sys_exofork creates has a fresh positive id, the running
   * environment as parent, status NOT_RUNNABLE, the parent's registers with
   * eax 0 (so it sees 0 returned), no mappings, and is not receiving; every
   * existing environment is left as it was.
   */
  lemma ExoforkChild(s: KState)
    requires Valid(s) && |s.envPool| > 0 && |s.free| > 0
    ensures var res := SysExofork(s);
      && res.ret > 0 && res.ret !in s.envs
      && (forall j | j in s.envs :: res.state.envs[j] == s.envs[j])
      && var c := res.state.envs[res.ret];
      && c.parent == s.curenv && c.status == EnvNotRunnable
      && c.tf == s.envs[s.curenv].tf.(eax := 0)
      && c.pgdir.ptes == map[] && !c.ipcRecving && c.pgfaultUpcall == 0
  {
  }

  // ---------------------------------------------------------------------
  // sys_env_set_status and sys_env_set_trapframe.
  // ---------------------------------------------------------------------

  /**
   * sys_env_set_status resolves the envid before it looks at the status: a
   * bad envid is -E_BAD_ENV whatever the status; a nonzero envid that is
   * neither the caller nor its child is a bad envid; a status other than RUNNABLE
   * and NOT_RUNNABLE is -E_INVAL; otherwise only that status changes.
   */
  lemma SetStatusChecks(s: KState, envid: int, status: int)
    requires Running(s)
    ensures var res := SysEnvSetStatus(s, envid, status);
      && (EnvidToEnv(s, envid, true).None? ==> res == SysResult(-E_BAD_ENV, s))
      && (envid != 0 && envid in s.envs && envid != s.curenv && s.envs[envid].parent != s.curenv ==> res == SysResult(-E_BAD_ENV, s))
      && (EnvidToEnv(s, envid, true).Some? && status != ENV_RUNNABLE && status != ENV_NOT_RUNNABLE ==>
            res == SysResult(-E_INVAL, s))
      && (EnvidToEnv(s, envid, true).Some? && (status == ENV_RUNNABLE || status == ENV_NOT_RUNNABLE) ==>
            var id := EnvidToEnv(s, envid, true).value;
            && res.ret == 0
            && res.state == SetEnv(s, id, s.envs[id].(status := if status == ENV_RUNNABLE then EnvRunnable else EnvNotRunnable)))
  {
  }

  /**
   * sys_env_set_trapframe refuses an eip at or above UTOP with -1 (not an
   * E_ code); otherwise it replaces the target's frame by the user's frame
   * with CPL 3 and interrupts enabled, and changes nothing else: not the
   * target's other fields, not the other environments. The installed frame
   * keeps the given eip and eax.
   */
  lemma SetTrapframeChecks(s: KState, envid: int, tf: Trapframe)
    requires Running(s)
    ensures var res := SysEnvSetTrapframe(s, envid, tf);
      && (EnvidToEnv(s, envid, true).None? ==> res == SysResult(-E_BAD_ENV, s))
      && (EnvidToEnv(s, envid, true).Some? && tf.eip >= UTOP_WORD ==> res == SysResult(-1, s))
      && (EnvidToEnv(s, envid, true).Some? && tf.eip < UTOP_WORD ==>
            var id := EnvidToEnv(s, envid, true).value;
            var tf' := res.state.envs[id].tf;
            && res == SysResult(0, SetEnv(s, id, s.envs[id].(tf := UserMode(tf))))
            && tf'.eip == tf.eip && tf'.eax == tf.eax
            && tf'.cs & 3 == 3 && tf'.eflags & FL_IF == FL_IF)
  {
  }

  /**
   * sys_env_set_pgfault_upcall: -E_BAD_ENV with nothing changed when the
   * envid does not resolve to the caller or one of its children (envid 0
   * names the caller); otherwise the target's upcall becomes func and
   * nothing else changes.
   */
  lemma SetPgfaultUpcallChecks(s: KState, envid: int, func: Word)
    requires Running(s)
    ensures var res := SysEnvSetPgfaultUpcall(s, envid, func);
      && (EnvidToEnv(s, envid, true).None? ==> res == SysResult(-E_BAD_ENV, s))
      && (EnvidToEnv(s, envid, true).Some? ==>
            var id := EnvidToEnv(s, envid, true).value;
            && res == SysResult(0, SetEnv(s, id, s.envs[id].(pgfaultUpcall := func)))
            && res.state.envs[id].pgfaultUpcall == func)
    ensures var res := SysEnvSetPgfaultUpcall(s, 0, func);
      && res.ret == 0
      && res.state.envs[s.curenv].pgfaultUpcall == func
  {
  }

  // ---------------------------------------------------------------------
  // sys_page_alloc.
  // ---------------------------------------------------------------------

  /**
   * sys_page_alloc's errors: a bad envid first; then -E_INVAL exactly when
   * va is not a page-aligned address below UTOP or perm lacks PTE_U|PTE_P or
   * has a bit outside PTE_SYSCALL, and then nothing changes.
   */
  lemma PageAllocErrors(s: KState, envid: int, va: u32, perm: Word)
    requires Running(s)
    ensures var res := SysPageAlloc(s, envid, va, perm);
      && (EnvidToEnv(s, envid, true).None? ==> res == SysResult(-E_BAD_ENV, s))
      && (EnvidToEnv(s, envid, true).Some? ==>
            && (res.ret == -E_INVAL <==> BadVa(va) || !AllocPermOk(perm))
            && (res.ret == -E_INVAL ==> res.state == s))
  {
  }

  /**
   * Past the envid, address and permission checks, sys_page_alloc fails
   * only for want of memory, with -E_NO_MEM and no mapping or free frame
   * lost: it needs one free frame for the page, and a second for a page
   * table when va's slot has none.
   */
  lemma PageAllocOutOfMemory(s: KState, envid: int, va: u32, perm: Word)
    requires Running(s) && EnvidToEnv(s, envid, true).Some? && !BadVa(va) && AllocPermOk(perm)
    ensures var res := SysPageAlloc(s, envid, va, perm);
      var id := EnvidToEnv(s, envid, true).value;
      && (res.ret == 0 <==> |s.free| >= (if PDX(va) in s.envs[id].pgdir.tables then 1 else 2))
      && (res.ret != 0 ==> res.ret == -E_NO_MEM && res.state.envs == s.envs && res.state.free == s.free)
  {
  }

  /**
   * sys_page_alloc leaks no frame: on failure the free list and every
   * address space are as they were (the frame page_alloc took went back);
   * on success the frame at the head of the free list, which no address
   * space mapped, is now mapped at va with exactly perm, holds zeros, and is
   * off the free list.
   */
  lemma PageAllocNoLeak(s: KState, envid: int, va: u32, perm: Word)
    requires Valid(s)
    ensures var res := SysPageAlloc(s, envid, va, perm);
      && (res.ret != 0 ==> res.state.free == s.free && res.state.envs == s.envs)
      && (res.ret == 0 ==>
            var id := EnvidToEnv(s, envid, true).value;
            var f := s.free[0];
            && (forall j, v | j in s.envs && v in s.envs[j].pgdir.ptes :: PteFrame(s.envs[j].pgdir.ptes[v]) != f)
            && f !in res.state.free
            && PteFrame(res.state.envs[id].pgdir.ptes[va]) == f
            && res.state.envs[id].pgdir.ptes[va] & PTE_FLAGS == perm
            && Contents(res.state, f) == ZeroPage())
  {
    var res := SysPageAlloc(s, envid, va, perm);
    if res.ret == 0 {
      var f := s.free[0];
      forall j, v | j in s.envs && v in s.envs[j].pgdir.ptes
        ensures PteFrame(s.envs[j].pgdir.ptes[v]) != f
      {
        assert WfEnv(s.envs[j], s.free);
      }
      assert AllocPermOk(perm);
    }
  }

  // ---------------------------------------------------------------------
  // sys_page_map.
  // ---------------------------------------------------------------------

  /**
   * sys_page_map never grants write access the source lacks, and on
   * success the destination maps the very frame the source maps, with
   * perm|PTE_P as its flags.
   */
  lemma PageMapSameFrame(s: KState, srcenvid: int, srcva: u32, dstenvid: int, dstva: u32, perm: Word)
    requires Running(s)
    ensures var res := SysPageMap(s, srcenvid, srcva, dstenvid, dstva, perm);
      res.ret == 0 ==>
        var src := EnvidToEnv(s, srcenvid, true).value;
        var dst := EnvidToEnv(s, dstenvid, true).value;
        var spte := s.envs[src].pgdir.ptes[srcva];
        var dpte := res.state.envs[dst].pgdir.ptes[dstva];
        && PteFrame(dpte) == PteFrame(spte)
        && dpte & PTE_FLAGS == (perm | PTE_P) & PTE_FLAGS
        && (dpte & PTE_W != 0 ==> spte & PTE_W != 0)
  {
  }

  /**
   * sys_page_map's -E_INVAL cases: a bad address on either side, perm
   * without PTE_U|PTE_P, nothing mapped at srcva, or PTE_W asked of a
   * read-only source page.
   */
  lemma PageMapErrors(s: KState, srcenvid: int, srcva: u32, dstenvid: int, dstva: u32, perm: Word)
    requires Running(s)
    requires EnvidToEnv(s, srcenvid, true).Some? && EnvidToEnv(s, dstenvid, true).Some?
    ensures var res := SysPageMap(s, srcenvid, srcva, dstenvid, dstva, perm);
      var src := EnvidToEnv(s, srcenvid, true).value;
      var pte := PageLookup(s.envs[src].pgdir, srcva);
      res.ret == -E_INVAL <==>
        || BadVa(srcva) || BadVa(dstva)
        || perm & (PTE_U | PTE_P) != PTE_U | PTE_P
        || pte.None?
        || (perm & PTE_W != 0 && pte.value & PTE_W == 0)
  {
  }

  /**
   * The PTE_SYSCALL check of sys_page_map is commented out: a perm with
   * flag bits outside PTE_SYSCALL (PTE_PWT, PTE_PCD, PTE_A, PTE_D, PTE_PS,
   * PTE_G, the bits of PTE_FLAGS & !PTE_SYSCALL) is accepted, and those
   * bits reach the destination entry. Bits of perm above bit 11 lie outside
   * the model of page_insert (see MkPte).
   */
  lemma PageMapKeepsNonSyscallBits(s: KState, srcenvid: int, srcva: u32, dstenvid: int, dstva: u32, perm: Word)
    requires Running(s)
    requires EnvidToEnv(s, srcenvid, true).Some? && EnvidToEnv(s, dstenvid, true).Some?
    requires !BadVa(srcva) && !BadVa(dstva)
    requires perm & (PTE_U | PTE_P) == PTE_U | PTE_P && perm & PTE_W == 0
    requires PageLookup(s.envs[EnvidToEnv(s, srcenvid, true).value].pgdir, srcva).Some?
    requires PDX(dstva) in s.envs[EnvidToEnv(s, dstenvid, true).value].pgdir.tables
    ensures var res := SysPageMap(s, srcenvid, srcva, dstenvid, dstva, perm);
      && res.ret == 0
      && res.state.envs[EnvidToEnv(s, dstenvid, true).value].pgdir.ptes[dstva] & (PTE_FLAGS & !PTE_SYSCALL)
         == perm & (PTE_FLAGS & !PTE_SYSCALL)
  {
  }

  // ---------------------------------------------------------------------
  // sys_page_unmap.
  // ---------------------------------------------------------------------

  /**
   * sys_page_unmap removes the one mapping at va of the one environment
   * named, keeps its page tables and every other environment, and refuses a
   * bad va with -E_INVAL.
   */
  lemma PageUnmapOnlyThat(s: KState, envid: int, va: u32)
    requires Running(s) && EnvidToEnv(s, envid, true).Some?
    ensures var res := SysPageUnmap(s, envid, va);
      var id := EnvidToEnv(s, envid, true).value;
      && (BadVa(va) <==> res.ret == -E_INVAL)
      && (!BadVa(va) ==>
            && res.ret == 0
            && va !in res.state.envs[id].pgdir.ptes
            && (forall v | v in s.envs[id].pgdir.ptes && v != va ::
                  v in res.state.envs[id].pgdir.ptes && res.state.envs[id].pgdir.ptes[v] == s.envs[id].pgdir.ptes[v])
            && res.state.envs[id].pgdir.tables == s.envs[id].pgdir.tables
            && (forall j | j in s.envs && j != id :: res.state.envs[j] == s.envs[j]))
  {
  }

  /** Unmapping an address nothing is mapped at succeeds and changes nothing. */
  lemma PageUnmapUnmapped(s: KState, envid: int, va: u32)
    requires Running(s) && EnvidToEnv(s, envid, true).Some? && !BadVa(va)
    requires va !in s.envs[EnvidToEnv(s, envid, true).value].pgdir.ptes
    ensures SysPageUnmap(s, envid, va) == SysResult(0, s)
  {
    var id := EnvidToEnv(s, envid, true).value;
    var d := s.envs[id].pgdir;
    assert d.ptes - {va} == d.ptes;
    assert s.envs[id := s.envs[id].(pgdir := d.(ptes := d.ptes - {va}))] == s.envs;
  }

  /** sys_page_unmap is idempotent: a second identical call changes nothing more. */
  lemma PageUnmapIdempotent(s: KState, envid: int, va: u32)
    requires Running(s)
    ensures var r1 := SysPageUnmap(s, envid, va);
      SysPageUnmap(r1.state, envid, va) == r1
  {
    var r1 := SysPageUnmap(s, envid, va);
    if r1.ret == 0 {
      assert EnvidToEnv(r1.state, envid, true) == EnvidToEnv(s, envid, true);
      PageUnmapUnmapped(r1.state, envid, va);
    }
  }

  // ---------------------------------------------------------------------
  // sys_ipc_try_send and sys_ipc_recv.
  // ---------------------------------------------------------------------

  /**
   * A target that is not blocked in sys_ipc_recv gives -E_IPC_NOT_RECV and
   * no change, whatever srcva and perm are.
   */
  lemma TrySendNotRecv(s: KState, envid: int, value: Word, srcva: u32, perm: Word)
    requires Running(s) && EnvidToEnv(s, envid, false).Some?
    requires !s.envs[EnvidToEnv(s, envid, false).value].ipcRecving
    ensures SysIpcTrySend(s, envid, value, srcva, perm) == SysResult(-E_IPC_NOT_RECV, s)
  {
  }

  /**
   * sys_ipc_try_send resolves envid without the parent check: any live
   * environment can be sent to, never only the caller's children.
   */
  lemma TrySendAnyTarget(s: KState, envid: int, value: Word, srcva: u32, perm: Word)
    requires Running(s) && envid in s.envs && s.envs[envid].status != EnvFree
    ensures SysIpcTrySend(s, envid, value, srcva, perm).ret != -E_BAD_ENV
  {
  }

  /**
   * A successful send wakes the receiver: from is the sender, value is the
   * value, recving is cleared, its eax is 0, it is RUNNABLE; env_ipc_perm
   * becomes perm exactly when both srcva and the receiver's dstva are below
   * UTOP, and otherwise stays 0, the value sys_ipc_recv left.
   */
  lemma TrySendDelivers(s: KState, envid: int, value: Word, srcva: u32, perm: Word)
    requires Valid(s)
    ensures var res := SysIpcTrySend(s, envid, value, srcva, perm);
      res.ret == 0 ==>
        var id := EnvidToEnv(s, envid, false).value;
        var e := res.state.envs[id];
        && s.envs[id].ipcRecving
        && e.ipcFrom == s.curenv && e.ipcValue == value && !e.ipcRecving
        && e.tf == s.envs[id].tf.(eax := 0) && e.status == EnvRunnable
        && e.ipcPerm == (if srcva < UTOP && s.envs[id].ipcDstva < UTOP then perm else 0)
        && e.ipcDstva == s.envs[id].ipcDstva
        && e.parent == s.envs[id].parent && e.pgfaultUpcall == s.envs[id].pgfaultUpcall
  {
    var res := SysIpcTrySend(s, envid, value, srcva, perm);
    if res.ret == 0 {
      var id := EnvidToEnv(s, envid, false).value;
      assert WfEnv(s.envs[id], s.free);
    }
  }

  /**
   * At most one sender wins: once a send to an environment has succeeded,
   * any further send to it, from whichever environment runs next, is
   * -E_IPC_NOT_RECV and changes nothing.
   */
  lemma AtMostOneSender(s: KState, envid: int, value: Word, srcva: u32, perm: Word,
                        next: int, envid2: int, value2: Word, srcva2: u32, perm2: Word)
    requires Running(s)
    requires SysIpcTrySend(s, envid, value, srcva, perm).ret == 0
    requires next in s.envs
    requires var s2 := SysIpcTrySend(s, envid, value, srcva, perm).state.(curenv := next);
      EnvidToEnv(s2, envid2, false) == EnvidToEnv(s, envid, false)
    ensures var s2 := SysIpcTrySend(s, envid, value, srcva, perm).state.(curenv := next);
      SysIpcTrySend(s2, envid2, value2, srcva2, perm2) == SysResult(-E_IPC_NOT_RECV, s2)
  {
  }

  /**
   * sys_ipc_recv: an unaligned dstva below UTOP is -E_INVAL and changes
   * nothing; otherwise the caller blocks, receiving, with dstva recorded and
   * env_ipc_perm cleared, and nothing else changes.
   */
  lemma RecvBlocks(s: KState, dstva: u32)
    requires Running(s)
    ensures var res := SysIpcRecv(s, dstva);
      && (dstva < UTOP && dstva % PGSIZE != 0 <==> res.ret == -E_INVAL)
      && (res.ret == 0 || res.ret == -E_INVAL)
      && (res.ret == -E_INVAL ==> res.state == s)
      && (res.ret == 0 ==>
            res.state == SetEnv(s, s.curenv, s.envs[s.curenv].(ipcDstva := dstva, ipcPerm := 0,
                                  ipcRecving := true, status := EnvNotRunnable)))
  {
  }

  /**
   * The rendezvous without a page: an environment blocks in sys_ipc_recv;
   * another then sends it a value with srcva at UTOP; the receiver wakes
   * with that value, the sender's id, and env_ipc_perm 0.
   */
  lemma RecvThenSendValue(s: KState, dstva: u32, sender: int, value: Word)
    requires Running(s) && s.curenv != 0 && sender in s.envs
    requires dstva >= UTOP || dstva % PGSIZE == 0
    ensures var r1 := SysIpcRecv(s, dstva);
      var s2 := r1.state.(curenv := sender);
      var r2 := SysIpcTrySend(s2, s.curenv, value, UTOP, 0);
      var q := r2.state.envs[s.curenv];
      && r1.ret == 0 && r2.ret == 0
      && q.ipcFrom == sender && q.ipcValue == value && q.ipcPerm == 0
      && q.status == EnvRunnable && !q.ipcRecving && q.tf.eax == 0
  {
  }

  /**
   * The permission check of sys_ipc_try_send as written lets through a perm
   * that sys_page_alloc would refuse: perm 0 with a page to send maps the
   * page into the receiver without PTE_U, and env_ipc_perm reports 0.
   */
  lemma TrySendMapsWithoutUser(s: KState, envid: int, value: Word, srcva: u32)
    requires Running(s) && EnvidToEnv(s, envid, false).Some?
    requires var id := EnvidToEnv(s, envid, false).value;
      && s.envs[id].ipcRecving && UserPage(s.envs[id].ipcDstva)
      && PDX(s.envs[id].ipcDstva) in s.envs[id].pgdir.tables
    requires UserPage(srcva) && PageLookup(s.envs[s.curenv].pgdir, srcva).Some?
    ensures !AllocPermOk(0)
    ensures var res := SysIpcTrySend(s, envid, value, srcva, 0);
      var id := EnvidToEnv(s, envid, false).value;
      && res.ret == 0
      && res.state.envs[id].pgdir.ptes[s.envs[id].ipcDstva] & PTE_U == 0
      && res.state.envs[id].ipcPerm == 0
  {
  }

  /**
   * sys_ipc_try_send has no check that PTE_W in perm is backed by a
   * writable source page: a read-only page is handed over writable.
   */
  lemma TrySendNoWriteCheck(s: KState, envid: int, value: Word, srcva: u32)
    requires Running(s) && EnvidToEnv(s, envid, false).Some?
    requires var id := EnvidToEnv(s, envid, false).value;
      && s.envs[id].ipcRecving && UserPage(s.envs[id].ipcDstva)
      && PDX(s.envs[id].ipcDstva) in s.envs[id].pgdir.tables
    requires UserPage(srcva) && PageLookup(s.envs[s.curenv].pgdir, srcva).Some?
    requires s.envs[s.curenv].pgdir.ptes[srcva] & PTE_W == 0
    ensures var res := SysIpcTrySend(s, envid, value, srcva, PTE_U | PTE_P | PTE_W);
      var id := EnvidToEnv(s, envid, false).value;
      var dpte := res.state.envs[id].pgdir.ptes[s.envs[id].ipcDstva];
      && res.ret == 0
      && dpte & PTE_W != 0
      && PteFrame(dpte) == PteFrame(s.envs[s.curenv].pgdir.ptes[srcva])
  {
  }

  /**
   * A page_insert that fails in sys_ipc_try_send (no frame for the
   * receiver's page table) is not reported: the send returns 0 and the
   * receiver's page tables are left as they were, yet env_ipc_perm records
   * the permission of a page that was not mapped.
   */
  lemma TrySendIgnoresInsertFailure(s: KState, envid: int, value: Word, srcva: u32, perm: Word)
    requires Running(s) && EnvidToEnv(s, envid, false).Some?
    requires var id := EnvidToEnv(s, envid, false).value;
      && s.envs[id].ipcRecving && s.envs[id].ipcDstva < UTOP
      && PDX(s.envs[id].ipcDstva) !in s.envs[id].pgdir.tables
    requires |s.free| == 0
    requires UserPage(srcva) && PageLookup(s.envs[s.curenv].pgdir, srcva).Some?
    requires !IpcPermRejected(perm)
    ensures var res := SysIpcTrySend(s, envid, value, srcva, perm);
      var id := EnvidToEnv(s, envid, false).value;
      && res.ret == 0
      && res.state.envs[id].pgdir == s.envs[id].pgdir
      && res.state.envs[id].ipcPerm == perm
  {
  }
}
