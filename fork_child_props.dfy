/**
 * What fork leaves behind when it returns in the parent: a fresh, RUNNABLE
 * child of the caller with the caller's registers (eax 0, which is what the
 * child's own fork returns), the caller's page-fault upcall, and an exception
 * stack page of its own, freshly zeroed and mapped user-writable; the caller
 * itself keeps its registers and status; and the kernel invariant holds.
 */
module ForkChildProps {
  import opened Mmu
  import opened Pmap
  import opened Syscall
  import opened ForkSpec
  import SyscallProps
  import ForkProps

  /** An environment the running one may manage by envid: a live direct child of it. */
  predicate ChildOfRunning(s: KState, child: int)
  {
    && child > 0 && child in s.envs && child != s.curenv
    && s.envs[child].parent == s.curenv && s.envs[child].status != EnvFree
  }

  /** The permission fork gives the child's exception stack page. */
  const UXSTACK_PERM: Word := PTE_P | PTE_U | PTE_W

  /**
   * Frame f is mapped in one place only: at va in environment id.
   */
  predicate OwnedOnlyAt(s: KState, f: Frame, id: int, va: int)
  {
    forall j, v | j in s.envs && v in s.envs[j].pgdir.ptes && PteFrame(s.envs[j].pgdir.ptes[v]) == f ::
      j == id && v == va
  }

  /**
   * The three syscalls at the end of fork, for a live child of the running
   * environment: setting the upcall succeeds and leaves the child live, so
   * only sys_page_alloc can fail, and once it has succeeded so does
   * sys_env_set_status.
   */
  lemma ForkFinishSteps(s: KState, child: int)
    requires Running(s) && ChildOfRunning(s, child)
    ensures var r1 := SysEnvSetPgfaultUpcall(s, child, s.envs[s.curenv].pgfaultUpcall);
      && r1.ret == 0 && ChildOfRunning(r1.state, child)
      && r1.state.free == s.free && r1.state.envs[child].pgdir == s.envs[child].pgdir
      && r1.state.envs[child] == s.envs[child].(pgfaultUpcall := s.envs[s.curenv].pgfaultUpcall)
      && (forall j | j in s.envs && j != child :: r1.state.envs[j] == s.envs[j])
      && var r2 := SysPageAlloc(r1.state, child, UXSTACK_VA, UXSTACK_PERM);
      && (r2.ret == 0 ==> ChildOfRunning(r2.state, child) && SysEnvSetStatus(r2.state, child, ENV_RUNNABLE).ret == 0)
      && ForkFinish(s, child) ==
           if r2.ret != 0 then Panic else Ret(child, SysEnvSetStatus(r2.state, child, ENV_RUNNABLE).state)
  {
    assert EnvidToEnv(s, child, true) == Some(child);
    var r1 := SysEnvSetPgfaultUpcall(s, child, s.envs[s.curenv].pgfaultUpcall);
    var r2 := SysPageAlloc(r1.state, child, UXSTACK_VA, UXSTACK_PERM);
    if r2.ret != 0 {
      assert AllocPermOk(UXSTACK_PERM);
      SyscallProps.PageAllocOutOfMemory(r1.state, child, UXSTACK_VA, UXSTACK_PERM);
    } else {
      SyscallProps.SetStatusChecks(r2.state, child, ENV_RUNNABLE);
    }
  }

  /**
   * The end of fork, for a live child of the running environment, panics
   * exactly when the free list cannot supply the exception stack page (and
   * a page table for it, if the child has none yet).
   */
  lemma ForkFinishPanics(s: KState, child: int)
    requires Running(s) && ChildOfRunning(s, child)
    ensures ForkFinish(s, child).Panic? <==>
      |s.free| < (if PDX(UXSTACK_VA) in s.envs[child].pgdir.tables then 1 else 2)
  {
    ForkFinishSteps(s, child);
    var r1 := SysEnvSetPgfaultUpcall(s, child, s.envs[s.curenv].pgfaultUpcall);
    assert AllocPermOk(UXSTACK_PERM);
    SyscallProps.PageAllocOutOfMemory(r1.state, child, UXSTACK_VA, UXSTACK_PERM);
  }

  /**
   * When the end of fork returns, the child, and only the child, has
   * changed: it runs the caller's upcall, is RUNNABLE, and has the frame at
   * the head of the free list, zeroed and mapped nowhere else, at the
   * exception stack page with U|P|W; the kernel invariant holds.
   */
  lemma ForkFinishResult(s: KState, child: int)
    requires Valid(s) && ChildOfRunning(s, child)
    ensures var run := ForkFinish(s, child);
      run.Ret? ==>
        var f := s.free[0];
        var e := s.envs[child];
        && run.state.envs[child] == e.(
             status := EnvRunnable,
             pgfaultUpcall := s.envs[s.curenv].pgfaultUpcall,
             pgdir := PageDir(e.pgdir.tables + {PDX(UXSTACK_VA)}, e.pgdir.ptes[UXSTACK_VA := MkPte(f, UXSTACK_PERM)]))
        && (forall j | j in s.envs && j != child :: run.state.envs[j] == s.envs[j])
        && OwnedOnlyAt(run.state, f, child, UXSTACK_VA)
        && Contents(run.state, f) == ZeroPage()
        && Valid(run.state)
  {
    ForkFinishSteps(s, child);
    var up := s.envs[s.curenv].pgfaultUpcall;
    var r1 := SysEnvSetPgfaultUpcall(s, child, up);
    var r2 := SysPageAlloc(r1.state, child, UXSTACK_VA, UXSTACK_PERM);
    if r2.ret == 0 {
      SyscallProps.ValidAfterSetPgfaultUpcall(s, child, up);
      FinishAfterAlloc(s, r1.state, r2.state, child);
    }
  }

  /** ForkFinishResult once the upcall is set (s1) and the stack page allocated (s2). */
  lemma FinishAfterAlloc(s: KState, s1: KState, s2: KState, child: int)
    requires Valid(s1) && ChildOfRunning(s, child) && s1.curenv == s.curenv
    requires s1.free == s.free && s1.envs.Keys == s.envs.Keys
    requires s1.envs[child] == s.envs[child].(pgfaultUpcall := s.envs[s.curenv].pgfaultUpcall)
    requires forall j | j in s.envs && j != child :: s1.envs[j] == s.envs[j]
    requires var r2 := SysPageAlloc(s1, child, UXSTACK_VA, UXSTACK_PERM); r2.ret == 0 && r2.state == s2
    requires ChildOfRunning(s2, child)
    ensures var s3 := SysEnvSetStatus(s2, child, ENV_RUNNABLE).state;
      var f := s.free[0];
      var e := s.envs[child];
      && s3.envs[child] == e.(
           status := EnvRunnable,
           pgfaultUpcall := s.envs[s.curenv].pgfaultUpcall,
           pgdir := PageDir(e.pgdir.tables + {PDX(UXSTACK_VA)}, e.pgdir.ptes[UXSTACK_VA := MkPte(f, UXSTACK_PERM)]))
      && (forall j | j in s.envs && j != child :: s3.envs[j] == s.envs[j])
      && OwnedOnlyAt(s3, f, child, UXSTACK_VA)
      && Contents(s3, f) == ZeroPage()
      && Valid(s3)
  {
    assert EnvidToEnv(s1, child, true) == Some(child);
    SyscallProps.PageAllocNoLeak(s1, child, UXSTACK_VA, UXSTACK_PERM);
    SyscallProps.ValidAfterPageAlloc(s1, child, UXSTACK_VA, UXSTACK_PERM);
    SyscallProps.SetStatusChecks(s2, child, ENV_RUNNABLE);
    SyscallProps.ValidAfterSetStatus(s2, child, ENV_RUNNABLE);
    OwnedAfterAlloc(s1, s2, SysEnvSetStatus(s2, child, ENV_RUNNABLE).state, child);
  }

  /**
   * A frame that no mapping of s used, mapped at UXSTACK_VA in child by s',
   * is owned there alone, also after a step that changes no address space.
   */
  lemma OwnedAfterAlloc(s: KState, s': KState, s'': KState, child: int)
    requires |s.free| > 0 && child in s.envs
    requires forall j, v | j in s.envs && v in s.envs[j].pgdir.ptes :: PteFrame(s.envs[j].pgdir.ptes[v]) != s.free[0]
    requires s'.envs.Keys == s.envs.Keys && s''.envs.Keys == s.envs.Keys
    requires forall j | j in s.envs && j != child :: s'.envs[j] == s.envs[j]
    requires s'.envs[child].pgdir.ptes == s.envs[child].pgdir.ptes[UXSTACK_VA := MkPte(s.free[0], UXSTACK_PERM)]
    requires forall j | j in s.envs :: s''.envs[j].pgdir == s'.envs[j].pgdir
    ensures OwnedOnlyAt(s'', s.free[0], child, UXSTACK_VA)
  {
    forall j, v | j in s''.envs && v in s''.envs[j].pgdir.ptes && PteFrame(s''.envs[j].pgdir.ptes[v]) == s.free[0]
      ensures j == child && v == UXSTACK_VA
    {
      assert s''.envs[j].pgdir == s'.envs[j].pgdir;
    }
  }

  /**
   * fork in the parent: it panics when sys_exofork fails (no envid or no
   * frame left). When it returns, the value is the envid sys_exofork handed
   * out, unused before; the table has gained exactly that child, which has
   * the caller as parent, is RUNNABLE, has the caller's registers with eax
   * 0 (what fork returns when the child runs), has the caller's upcall, and
   * owns a zeroed exception stack page mapped U|P|W that no other mapping
   * shares; the caller's registers and status are as they were, and the
   * kernel invariant holds.
   */
  lemma ForkResult(s: KState)
    requires Valid(s)
    ensures var run := ForkCall(s);
      && (|s.envPool| == 0 || |s.free| == 0 ==> run == Panic)
      && (run.Ret? ==>
            var child := run.ret;
            && child == s.envPool[0] && child > 0 && child !in s.envs
            && run.state.envs.Keys == s.envs.Keys + {child}
            && var c := run.state.envs[child];
            && c.parent == s.curenv && c.status == EnvRunnable
            && c.tf == s.envs[s.curenv].tf.(eax := 0)
            && c.pgfaultUpcall == s.envs[s.curenv].pgfaultUpcall
            && UXSTACK_VA in c.pgdir.ptes
            && c.pgdir.ptes[UXSTACK_VA] & PTE_FLAGS == UXSTACK_PERM
            && OwnedOnlyAt(run.state, PteFrame(c.pgdir.ptes[UXSTACK_VA]), child, UXSTACK_VA)
            && Contents(run.state, PteFrame(c.pgdir.ptes[UXSTACK_VA])) == ZeroPage()
            && run.state.curenv == s.curenv
            && run.state.envs[s.curenv].tf == s.envs[s.curenv].tf
            && run.state.envs[s.curenv].status == s.envs[s.curenv].status
            && (forall q | q in ForkProps.Qualifying(s, 0) :: ForkProps.Duplicated(run.state, child, q, Uvpt(s, q)))
            && Valid(run.state))
  {
    ForkDuplicates(s);
    if |s.envPool| > 0 && |s.free| > 0 {
      var ex := SysExofork(s);
      var child := ex.ret;
      SyscallProps.ExoforkChild(s);
      SyscallProps.ValidAfterExofork(s);
      ForkProps.ForkLoopFrame(ex.state, child, 0);
      ForkProps.ForkLoopValid(ex.state, child, 0);
      var l := ForkLoop(ex.state, child, 0);
      if l.Ret? {
        AfterLoop(s, ex.state, l.state, child);
      }
    }
  }

  /**
   * ForkResult once the page walk has returned: s0 is the state sys_exofork
   * left and s1 the one the walk left, which changed address spaces only
   * and kept every mapping at the exception stack page.
   */
  lemma AfterLoop(s: KState, s0: KState, s1: KState, child: int)
    requires Valid(s) && Valid(s1)
    requires child > 0 && child !in s.envs && child != s.curenv
    requires s0.envs.Keys == s.envs.Keys + {child} && s0.curenv == s.curenv
    requires forall j | j in s.envs :: s0.envs[j] == s.envs[j]
    requires var c := s0.envs[child];
      && c.parent == s.curenv && c.status == EnvNotRunnable
      && c.tf == s.envs[s.curenv].tf.(eax := 0)
      && c.pgdir.ptes == map[]
    requires ForkProps.OnlyPgdirs(s0, s1) && ForkProps.SameAt(s0, s1, UXSTACK_VA)
    ensures var run := ForkFinish(s1, child);
      run.Ret? ==>
        && run.state.envs.Keys == s.envs.Keys + {child}
        && var c := run.state.envs[child];
        && c.parent == s.curenv && c.status == EnvRunnable
        && c.tf == s.envs[s.curenv].tf.(eax := 0)
        && c.pgfaultUpcall == s.envs[s.curenv].pgfaultUpcall
        && UXSTACK_VA in c.pgdir.ptes
        && c.pgdir.ptes[UXSTACK_VA] & PTE_FLAGS == UXSTACK_PERM
        && OwnedOnlyAt(run.state, PteFrame(c.pgdir.ptes[UXSTACK_VA]), child, UXSTACK_VA)
        && Contents(run.state, PteFrame(c.pgdir.ptes[UXSTACK_VA])) == ZeroPage()
        && run.state.curenv == s.curenv
        && run.state.envs[s.curenv].tf == s.envs[s.curenv].tf
        && run.state.envs[s.curenv].status == s.envs[s.curenv].status
        && Valid(run.state)
  {
    assert s0.envs[s.curenv] == s.envs[s.curenv];
    assert s1.envs[child] == s0.envs[child].(pgdir := s1.envs[child].pgdir);
    assert s1.envs[s.curenv] == s.envs[s.curenv].(pgdir := s1.envs[s.curenv].pgdir);
    ForkFinishResult(s1, child);
  }

  /**
   * When fork returns in the parent, every page its walk handed to duppage
   * (a present user page below UTOP other than the exception stack page) is
   * duplicated into the child as ForkProps.Duplicated says: the child maps
   * the parent's frame at the same address; a read-only or PTE_SHARE page
   * keeps its PTE_SYSCALL bits in the child and its entry in the parent;
   * any other page is read-only and copy-on-write in both.
   */
  lemma ForkDuplicates(s: KState)
    requires Valid(s)
    ensures var run := ForkCall(s);
      run.Ret? ==> forall q | q in ForkProps.Qualifying(s, 0) :: ForkProps.Duplicated(run.state, run.ret, q, Uvpt(s, q))
  {
    var run := ForkCall(s);
    if run.Ret? && |s.envPool| > 0 && |s.free| > 0 {
      var ex := SysExofork(s);
      var child := ex.ret;
      SyscallProps.ExoforkChild(s);
      SyscallProps.ValidAfterExofork(s);
      assert ex.state.envs[s.curenv] == s.envs[s.curenv];
      assert EnvidToEnv(ex.state, child, true) == Some(child);
      forall q
        ensures Qualifies(ex.state, q) == Qualifies(s, q) && Uvpt(ex.state, q) == Uvpt(s, q)
      {
      }
      ForkProps.QualifyingSame(s, ex.state, 0);
      ForkProps.ForkLoopDuplicates(ex.state, child, 0);
      ForkProps.ForkLoopFrame(ex.state, child, 0);
      ForkProps.ForkLoopValid(ex.state, child, 0);
      var l := ForkLoop(ex.state, child, 0);
      assert l.state.envs[child] == ex.state.envs[child].(pgdir := l.state.envs[child].pgdir);
      DuplicatesAfterFinish(s, l.state, child);
    }
  }

  /** The end of fork changes no mapping other than the child's exception stack page. */
  lemma FinishKeepsOthers(s1: KState, child: int)
    requires Valid(s1) && ChildOfRunning(s1, child)
    ensures var run := ForkFinish(s1, child);
      run.Ret? ==> forall va | va != UXSTACK_VA :: ForkProps.SameAt(s1, run.state, va)
  {
    ForkFinishResult(s1, child);
  }

  /**
   * The end of fork changes the child only at the exception stack page, and
   * no other environment, so every duplicated page stays duplicated.
   */
  lemma DuplicatesAfterFinish(s: KState, s1: KState, child: int)
    requires Running(s) && Valid(s1) && s1.curenv == s.curenv && ChildOfRunning(s1, child)
    requires forall q | q in ForkProps.Qualifying(s, 0) :: ForkProps.Duplicated(s1, child, q, Uvpt(s, q))
    ensures var run := ForkFinish(s1, child);
      run.Ret? ==> forall q | q in ForkProps.Qualifying(s, 0) :: ForkProps.Duplicated(run.state, child, q, Uvpt(s, q))
  {
    var run := ForkFinish(s1, child);
    FinishKeepsOthers(s1, child);
    ForkProps.QualifyingMembers(s, 0);
    if run.Ret? {
      forall q | q in ForkProps.Qualifying(s, 0)
        ensures ForkProps.Duplicated(run.state, child, q, Uvpt(s, q))
      {
        assert q * PGSIZE != UXSTACK_VA;
        ForkProps.DuplicatedSameAt(s1, run.state, child, q, Uvpt(s, q));
      }
    }
  }
}
