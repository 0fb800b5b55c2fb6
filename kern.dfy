/**
 * The kernel as an object updated in place, as kern/syscall.c updates the
 * fields of struct Env. Every syscall method checks its arguments step by
 * step, returns early on the first failure, and otherwise rewrites the
 * fields of the environment it resolved; each is proved to leave the state
 * and return the value that the matching transition function of module
 * Syscall gives, so the properties proved there hold of these methods.
 */
module Kern {
  import opened Mmu
  import opened Pmap
  import Syscall

  class Kernel {
    var envs: map<int, Env>
    var curenv: int
    var free: seq<Frame>
    var mem: map<int, PageData>
    var envPool: seq<int>

    /** The abstract value of the kernel. */
    function State(): KState
      reads this
    {
      KState(envs, curenv, free, mem, envPool)
    }

    constructor (s: KState)
      ensures State() == s
    {
      envs, curenv, free, mem, envPool := s.envs, s.curenv, s.free, s.mem, s.envPool;
    }

    // -------------------------------------------------------------------
    // The collaborators from kern/pmap.c, each by its interface contract.
    // -------------------------------------------------------------------

    /** page_alloc(ALLOC_ZERO); ok is false when no frame is free. */
    method PageAlloc() returns (ok: bool, pp: Frame)
      modifies this
      ensures ok == Pmap.PageAlloc(old(State())).Some?
      ensures ok ==> pp == Pmap.PageAlloc(old(State())).value.frame
                     && State() == Pmap.PageAlloc(old(State())).value.state
      ensures !ok ==> State() == old(State())
    {
      if |free| == 0 {
        return false, 0;
      }
      pp := free[0];
      free := free[1..];
      mem := mem[pp as int := ZeroPage()];
      ok := true;
    }

    /** page_free. */
    method PageFree(pp: Frame)
      modifies this
      ensures State() == Pmap.PageFree(old(State()), pp)
    {
      free := [pp] + free;
    }

    /** page_insert. */
    method PageInsert(id: int, pp: Frame, va: int, perm: Word) returns (r: int)
      requires id in envs
      modifies this
      ensures SysResult(r, State()) == Pmap.PageInsert(old(State()), id, pp, va, perm)
    {
      var d := envs[id].pgdir;
      if PDX(va) !in d.tables {
        if |free| == 0 {
          return -E_NO_MEM;
        }
        free := free[1..];
      }
      envs := envs[id := envs[id].(pgdir := PageDir(d.tables + {PDX(va)}, d.ptes[va := MkPte(pp, perm)]))];
      r := 0;
    }

    /** page_remove. */
    method PageRemove(id: int, va: int)
      requires id in envs
      modifies this
      ensures State() == Pmap.PageRemove(old(State()), id, va)
    {
      var d := envs[id].pgdir;
      envs := envs[id := envs[id].(pgdir := d.(ptes := d.ptes - {va}))];
    }

    // -------------------------------------------------------------------
    // The syscalls.
    // -------------------------------------------------------------------

    method SysExofork() returns (r: int)
      requires Running(State())
      modifies this
      ensures SysResult(r, State()) == Syscall.SysExofork(old(State()))
    {
      if |envPool| == 0 {
        return -E_NO_FREE_ENV;
      }
      if |free| == 0 {
        return -E_NO_MEM;
      }
      var id := envPool[0];
      envPool := envPool[1..];
      free := free[1..];
      var parentTf := envs[curenv].tf;
      envs := envs[id := Env(
        parent := curenv,
        status := EnvNotRunnable,
        tf := parentTf.(eax := 0),
        pgfaultUpcall := 0,
        ipcRecving := false,
        ipcFrom := 0, ipcValue := 0, ipcDstva := 0, ipcPerm := 0,
        pgdir := PageDir({}, map[]))];
      r := id;
    }

    method SysEnvSetStatus(envid: int, status: int) returns (r: int)
      requires Running(State())
      modifies this
      ensures SysResult(r, State()) == Syscall.SysEnvSetStatus(old(State()), envid, status)
    {
      var e := EnvidToEnv(State(), envid, true);
      if e.None? {
        return -E_BAD_ENV;
      }
      if status != ENV_RUNNABLE && status != ENV_NOT_RUNNABLE {
        return -E_INVAL;
      }
      var id := e.value;
      envs := envs[id := envs[id].(status := if status == ENV_RUNNABLE then EnvRunnable else EnvNotRunnable)];
      r := 0;
    }

    method SysEnvSetTrapframe(envid: int, tf: Trapframe) returns (r: int)
      requires Running(State())
      modifies this
      ensures SysResult(r, State()) == Syscall.SysEnvSetTrapframe(old(State()), envid, tf)
    {
      var e := EnvidToEnv(State(), envid, true);
      if e.None? {
        return -E_BAD_ENV;
      }
      if tf.eip >= UTOP_WORD {
        return -1;
      }
      var id := e.value;
      envs := envs[id := envs[id].(tf := Syscall.UserMode(tf))];
      r := 0;
    }

    method SysEnvSetPgfaultUpcall(envid: int, func: Word) returns (r: int)
      requires Running(State())
      modifies this
      ensures SysResult(r, State()) == Syscall.SysEnvSetPgfaultUpcall(old(State()), envid, func)
    {
      var e := EnvidToEnv(State(), envid, true);
      if e.None? {
        return -E_BAD_ENV;
      }
      var id := e.value;
      envs := envs[id := envs[id].(pgfaultUpcall := func)];
      r := 0;
    }

    method SysPageAlloc(envid: int, va: u32, perm: Word) returns (r: int)
      requires Running(State())
      modifies this
      ensures SysResult(r, State()) == Syscall.SysPageAlloc(old(State()), envid, va, perm)
    {
      var e := EnvidToEnv(State(), envid, true);
      if e.None? {
        return -E_BAD_ENV;
      }
      if va >= UTOP || va % PGSIZE != 0 {
        return -E_INVAL;
      }
      if perm & (PTE_U | PTE_P) != PTE_U | PTE_P {
        return -E_INVAL;
      }
      if perm & !PTE_SYSCALL != 0 {
        return -E_INVAL;
      }
      var ok, pp := PageAlloc();
      if !ok {
        return -E_NO_MEM;
      }
      r := PageInsert(e.value, pp, va, perm);
      if r < 0 {
        PageFree(pp);
        return r;
      }
      r := 0;
    }

    method SysPageMap(srcenvid: int, srcva: u32, dstenvid: int, dstva: u32, perm: Word) returns (r: int)
      requires Running(State())
      modifies this
      ensures SysResult(r, State()) == Syscall.SysPageMap(old(State()), srcenvid, srcva, dstenvid, dstva, perm)
    {
      var se := EnvidToEnv(State(), srcenvid, true);
      var de := EnvidToEnv(State(), dstenvid, true);
      if se.None? || de.None? {
        return -E_BAD_ENV;
      }
      if srcva >= UTOP || dstva >= UTOP || srcva % PGSIZE != 0 || dstva % PGSIZE != 0 {
        return -E_INVAL;
      }
      if perm & (PTE_U | PTE_P) != PTE_U | PTE_P {
        return -E_INVAL;
      }
      var pte := PageLookup(envs[se.value].pgdir, srcva);
      if pte.None? {
        return -E_INVAL;
      }
      if perm & PTE_W != 0 && pte.value & PTE_W == 0 {
        return -E_INVAL;
      }
      r := PageInsert(de.value, PteFrame(pte.value), dstva, perm);
      if r < 0 {
        return r;
      }
      r := 0;
    }

    method SysPageUnmap(envid: int, va: u32) returns (r: int)
      requires Running(State())
      modifies this
      ensures SysResult(r, State()) == Syscall.SysPageUnmap(old(State()), envid, va)
    {
      var e := EnvidToEnv(State(), envid, true);
      if e.None? {
        return -E_BAD_ENV;
      }
      if va >= UTOP || va % PGSIZE != 0 {
        return -E_INVAL;
      }
      PageRemove(e.value, va);
      r := 0;
    }

    method SysIpcTrySend(envid: int, value: Word, srcva: u32, perm: Word) returns (r: int)
      requires Running(State())
      modifies this
      ensures SysResult(r, State()) == Syscall.SysIpcTrySend(old(State()), envid, value, srcva, perm)
    {
      var e := EnvidToEnv(State(), envid, false);
      if e.None? {
        return -E_BAD_ENV;
      }
      var id := e.value;
      if !envs[id].ipcRecving {
        return -E_IPC_NOT_RECV;
      }
      if srcva < UTOP && srcva % PGSIZE != 0 {
        return -E_INVAL;
      }
      if srcva < UTOP && perm & PTE_U == 0 && perm & PTE_P == 0 && perm & !PTE_SYSCALL != 0 {
        return -E_INVAL;
      }
      if srcva < UTOP && envs[id].ipcDstva < UTOP {
        var pte := PageLookup(envs[curenv].pgdir, srcva);
        if pte.None? {
          return -E_INVAL;
        }
        r := PageInsert(id, PteFrame(pte.value), envs[id].ipcDstva, perm);
        // A failed page_insert is only reported on the console.
        ghost var s1 := State();
        Deliver(id, value, Some(perm));
        assert State() == Syscall.IpcDeliver(s1, id, value, Some(perm));
      } else {
        Deliver(id, value, None);
      }
      r := 0;
    }

    /**
     * The receiver's side of a successful send: its ipc fields are set, it is
     * made runnable and its sys_ipc_recv returns 0; perm is recorded only
     * when a page was offered and wanted.
     */
    method Deliver(id: int, value: Word, perm: Option<Word>)
      requires Running(State()) && id in envs
      modifies this
      ensures State() == Syscall.IpcDeliver(old(State()), id, value, perm)
    {
      if perm.Some? {
        envs := envs[id := envs[id].(ipcPerm := perm.value)];
      }
      var target := envs[id];
      envs := envs[id := target.(
        ipcFrom := curenv,
        ipcValue := value,
        ipcRecving := false,
        tf := target.tf.(eax := 0),
        status := EnvRunnable)];
    }

    method SysIpcRecv(dstva: u32) returns (r: int)
      requires Running(State())
      modifies this
      ensures SysResult(r, State()) == Syscall.SysIpcRecv(old(State()), dstva)
    {
      if dstva < UTOP && dstva % PGSIZE != 0 {
        return -E_INVAL;
      }
      envs := envs[curenv := envs[curenv].(ipcDstva := dstva)];
      envs := envs[curenv := envs[curenv].(ipcPerm := 0)];
      envs := envs[curenv := envs[curenv].(ipcRecving := true)];
      envs := envs[curenv := envs[curenv].(status := EnvNotRunnable)];
      r := 0;
    }

    /**
     * syscall: the dispatch switch. An out-of-core syscall installs
     * externalState, the state its own code leaves.
     */
    method Dispatch(no: u32, a1: u32, a2: u32, a3: u32, a4: u32, a5: u32,
                    userTf: Trapframe, external: int, externalState: KState) returns (r: int)
      requires Running(State())
      modifies this
      ensures SysResult(r, State())
              == Syscall.Dispatch(old(State()), no, a1, a2, a3, a4, a5, userTf, external, externalState)
    {
      if Syscall.External(no) {
        r := if no == Syscall.SYS_cputs || no == Syscall.SYS_yield then 0 else external;
        envs, curenv, free := externalState.envs, externalState.curenv, externalState.free;
        mem, envPool := externalState.mem, externalState.envPool;
      } else if no == Syscall.SYS_getenvid {
        r := curenv;
      } else if no == Syscall.SYS_exofork {
        r := SysExofork();
      } else if no == Syscall.SYS_page_alloc {
        r := SysPageAlloc(Signed(a1), a2, a3 as Word);
      } else if no == Syscall.SYS_page_map {
        r := SysPageMap(Signed(a1), a2, Signed(a3), a4, a5 as Word);
      } else if no == Syscall.SYS_page_unmap {
        r := SysPageUnmap(Signed(a1), a2);
      } else if no == Syscall.SYS_env_set_status {
        r := SysEnvSetStatus(Signed(a1), Signed(a2));
      } else if no == Syscall.SYS_env_set_pgfault_upcall {
        r := SysEnvSetPgfaultUpcall(Signed(a1), a2 as Word);
      } else if no == Syscall.SYS_ipc_try_send {
        r := SysIpcTrySend(Signed(a1), a2 as Word, a3, a4 as Word);
      } else if no == Syscall.SYS_ipc_recv {
        r := SysIpcRecv(a1);
      } else if no == Syscall.SYS_env_set_trapframe {
        r := SysEnvSetTrapframe(Signed(a1), userTf);
      } else {
        r := -E_INVAL;
      }
    }
  }
}
