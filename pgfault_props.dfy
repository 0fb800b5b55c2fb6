/**
 * What the user-level copy-on-write fault handler promises: it repairs only
 * write faults on user-present copy-on-write pages; the repair gives the
 * faulting page a fresh frame of its own, mapped U|P|W and holding the old
 * page's contents, while every other environment (and the old frame) is left
 * alone; it fails only for want of memory; and PFTEMP ends unmapped.
 */
module PgFaultProps {
  import opened Mmu
  import opened Pmap
  import opened Syscall
  import opened ForkSpec
  import SyscallProps

  /** The permission pgfault maps its fresh page with. */
  const COPY_PERM: Word := PTE_U | PTE_P | PTE_W

  /**
   * pgfault panics on a read fault, on a page that is not user-present and
   * on a page that is not copy-on-write; past those checks it repairs the
   * page holding the faulting address, which is then mapped.
   */
  lemma PgFaultOnlyCowWrites(s: KState, faultVa: u32, err: Word)
    requires Running(s)
    ensures var pte := Uvpt(s, faultVa / PGSIZE);
      && (err & FEC_WR == 0 || pte & (PTE_U | PTE_P) != PTE_U | PTE_P || pte & PTE_COW == 0 ==>
            PgFault(s, faultVa, err) == Panic)
      && (err & FEC_WR != 0 && pte & (PTE_U | PTE_P) == PTE_U | PTE_P && pte & PTE_COW != 0 ==>
            && RoundDown(faultVa) in s.envs[s.curenv].pgdir.ptes
            && s.envs[s.curenv].pgdir.ptes[RoundDown(faultVa)] == pte
            && PgFault(s, faultVa, err) == PgFaultCopy(s, RoundDown(faultVa)))
  {
    assert faultVa / PGSIZE * PGSIZE == RoundDown(faultVa);
  }

  /**
   * The syscalls of the repair of a mapped page va other than PFTEMP: only
   * sys_page_alloc can fail; after it, sys_page_map from PFTEMP to va and
   * sys_page_unmap of PFTEMP both succeed.
   */
  lemma PgFaultCopySteps(s: KState, va: u32)
    requires Valid(s) && va in s.envs[s.curenv].pgdir.ptes && va != PFTEMP
    ensures var r1 := SysPageAlloc(s, 0, PFTEMP, COPY_PERM);
      && (r1.ret == 0 ==>
            var s2 := UserCopyPage(r1.state, PFTEMP, va);
            var r3 := SysPageMap(s2, 0, PFTEMP, 0, va, COPY_PERM);
            && r3.ret == 0 && SysPageUnmap(r3.state, 0, PFTEMP).ret == 0
            && PgFaultCopy(s, va) == Ret(0, SysPageUnmap(r3.state, 0, PFTEMP).state))
      && (r1.ret != 0 ==> PgFaultCopy(s, va) == Panic)
  {
    var me := s.curenv;
    assert WfEnv(s.envs[me], s.free);
    var r1 := SysPageAlloc(s, 0, PFTEMP, COPY_PERM);
    if r1.ret == 0 {
      var s2 := UserCopyPage(r1.state, PFTEMP, va);
      assert PageLookup(s2.envs[me].pgdir, PFTEMP) == Some(MkPte(s.free[0], COPY_PERM));
      assert PDX(va) in s2.envs[me].pgdir.tables;
    } else {
      assert AllocPermOk(COPY_PERM);
      SyscallProps.PageAllocOutOfMemory(s, 0, PFTEMP, COPY_PERM);
    }
  }

  /**
   * The repair of a mapped page va other than PFTEMP fails exactly when the
   * free list cannot supply the new page (and a page table for PFTEMP, if
   * there is none yet).
   */
  lemma PgFaultCopyPanics(s: KState, va: u32)
    requires Valid(s) && va in s.envs[s.curenv].pgdir.ptes && va != PFTEMP
    ensures PgFaultCopy(s, va).Panic? <==>
      |s.free| < (if PDX(PFTEMP) in s.envs[s.curenv].pgdir.tables then 1 else 2)
  {
    PgFaultCopySteps(s, va);
    assert AllocPermOk(COPY_PERM);
    SyscallProps.PageAllocOutOfMemory(s, 0, PFTEMP, COPY_PERM);
  }

  /**
   * A successful repair of a mapped page va other than PFTEMP: va now maps
   * the frame at the head of the free list, which no address space mapped
   * before, with U|P|W; that frame holds what the old frame held, and no
   * other frame's contents changed, so whoever still maps the old frame sees
   * it as it was; PFTEMP is unmapped, nothing else of the running
   * environment and nothing of any other environment changed, and the
   * kernel invariant holds.
   */
  lemma PgFaultCopyResult(s: KState, va: u32)
    requires Valid(s) && va in s.envs[s.curenv].pgdir.ptes && va != PFTEMP
    ensures var run := PgFaultCopy(s, va);
      run.Ret? ==>
        var me := s.curenv;
        var d := s.envs[me].pgdir;
        var f := s.free[0];
        var g := PteFrame(d.ptes[va]);
        && run.ret == 0
        && (forall j, v | j in s.envs && v in s.envs[j].pgdir.ptes :: PteFrame(s.envs[j].pgdir.ptes[v]) != f)
        && run.state.envs[me] == s.envs[me].(pgdir := PageDir(d.tables + {PDX(PFTEMP)}, (d.ptes - {PFTEMP})[va := MkPte(f, COPY_PERM)]))
        && (forall j | j in s.envs && j != me :: run.state.envs[j] == s.envs[j])
        && run.state.mem == s.mem[f as int := Contents(s, g)]
        && Valid(run.state)
  {
    PgFaultCopySteps(s, va);
    var r1 := SysPageAlloc(s, 0, PFTEMP, COPY_PERM);
    if r1.ret == 0 {
      SyscallProps.PageAllocNoLeak(s, 0, PFTEMP, COPY_PERM);
      SyscallProps.ValidAfterPageAlloc(s, 0, PFTEMP, COPY_PERM);
      assert WfEnv(s.envs[s.curenv], s.free);
      CopyMapUnmap(s, r1.state, va);
    }
  }

  /**
   * PgFaultCopyResult from the state s1 that sys_page_alloc left: the copy
   * into the fresh frame, the map over va and the unmap of PFTEMP.
   */
  lemma CopyMapUnmap(s: KState, s1: KState, va: u32)
    requires Valid(s) && va in s.envs[s.curenv].pgdir.ptes && va != PFTEMP && |s.free| > 0
    requires Valid(s1) && s1.curenv == s.curenv && s1.envs.Keys == s.envs.Keys
    requires forall j | j in s.envs && j != s.curenv :: s1.envs[j] == s.envs[j]
    requires var d := s.envs[s.curenv].pgdir;
      s1.envs[s.curenv] == s.envs[s.curenv].(pgdir := PageDir(d.tables + {PDX(PFTEMP)}, d.ptes[PFTEMP := MkPte(s.free[0], COPY_PERM)]))
    requires s1.mem == s.mem[s.free[0] as int := ZeroPage()]
    requires PteFrame(s.envs[s.curenv].pgdir.ptes[va]) != s.free[0]
    ensures var me := s.curenv;
      var d := s.envs[me].pgdir;
      var f := s.free[0];
      var s2 := UserCopyPage(s1, PFTEMP, va);
      var r3 := SysPageMap(s2, 0, PFTEMP, 0, va, COPY_PERM);
      var s4 := SysPageUnmap(r3.state, 0, PFTEMP).state;
      && s4.envs[me] == s.envs[me].(pgdir := PageDir(d.tables + {PDX(PFTEMP)}, (d.ptes - {PFTEMP})[va := MkPte(f, COPY_PERM)]))
      && (forall j | j in s.envs && j != me :: s4.envs[j] == s.envs[j])
      && s4.mem == s.mem[f as int := Contents(s, PteFrame(d.ptes[va]))]
      && Valid(s4)
  {
    var me := s.curenv;
    var f := s.free[0];
    var d := s.envs[me].pgdir;
    var g := PteFrame(d.ptes[va]);
    FrameKeysDistinct(f, g);
    assert Contents(s1, g) == Contents(s, g);
    var s2 := UserCopyPage(s1, PFTEMP, va);
    assert Valid(s2);
    assert WfEnv(s.envs[me], s.free);
    MapOverVa(s2, va, f);
    var r3 := SysPageMap(s2, 0, PFTEMP, 0, va, COPY_PERM);
    SyscallProps.ValidAfterPageMap(s2, 0, PFTEMP, 0, va, COPY_PERM);
    SyscallProps.ValidAfterPageUnmap(r3.state, 0, PFTEMP);
    SetThenRemove(d.ptes, PFTEMP, va, MkPte(f, COPY_PERM), MkPte(f, COPY_PERM));
  }

  /**
   * sys_page_map(0, PFTEMP, 0, va, U|P|W), with PFTEMP mapping frame f
   * writable and va's page table present, succeeds and maps f at va.
   */
  lemma MapOverVa(s: KState, va: u32, f: Frame)
    requires Running(s) && !BadVa(va) && PDX(va) in s.envs[s.curenv].pgdir.tables
    requires PFTEMP in s.envs[s.curenv].pgdir.ptes && s.envs[s.curenv].pgdir.ptes[PFTEMP] == MkPte(f, COPY_PERM)
    ensures var e := s.envs[s.curenv];
      SysPageMap(s, 0, PFTEMP, 0, va, COPY_PERM)
        == SysResult(0, SetEnv(s, s.curenv, e.(pgdir := e.pgdir.(ptes := e.pgdir.ptes[va := MkPte(f, COPY_PERM)]))))
  {
    var e := s.envs[s.curenv];
    assert e.pgdir.tables + {PDX(va)} == e.pgdir.tables;
  }

  /** Setting a then b and removing a is removing a and setting b, for a != b. */
  lemma SetThenRemove<K, V>(m: map<K, V>, a: K, b: K, x: V, y: V)
    requires a != b
    ensures m[a := x][b := y] - {a} == (m - {a})[b := y]
  {
  }

  /**
   * Repairing a fault on the PFTEMP page itself, as written, leaves that
   * page unmapped: the fresh copy is mapped over PFTEMP and then PFTEMP is
   * unmapped.
   */
  lemma PgFaultAtPftemp(s: KState)
    requires Valid(s) && PFTEMP in s.envs[s.curenv].pgdir.ptes
    ensures var run := PgFaultCopy(s, PFTEMP);
      run.Ret? ==> PFTEMP !in run.state.envs[s.curenv].pgdir.ptes
  {
  }
}
