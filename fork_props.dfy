/**
 * What the user-level fork promises, proved of the transition functions of
 * module Fork: duppage's effect in each of its three cases, that fork's
 * nested loop calls duppage on exactly the qualifying pages, in order, that
 * the exception-stack page is never shared, what the child looks like when
 * fork returns, and what pgfault leaves behind.
 */
module ForkProps {
  import opened Mmu
  import opened Pmap
  import opened Syscall
  import opened ForkSpec
  import SyscallProps

  // ---------------------------------------------------------------------
  // Page arithmetic.
  // ---------------------------------------------------------------------

  /** The page table of page pn is slot pn / NPTENTRIES of the directory. */
  lemma PdxOfPage(pn: int)
    requires 0 <= pn
    ensures PDX(pn * PGSIZE) == pn / NPTENTRIES
  {
    var q, r := pn / NPTENTRIES, pn % NPTENTRIES;
    assert pn * PGSIZE == q * PTSIZE + r * PGSIZE;
    assert 0 <= r * PGSIZE < PTSIZE;
  }

  /** The entry page_insert writes has perm's PTE_W and PTE_COW bits. */
  lemma MkPteCow(pp: Frame, perm: Word)
    ensures MkPte(pp, perm) & PTE_W == perm & PTE_W
    ensures MkPte(pp, perm) & PTE_COW == perm & PTE_COW
  {
  }

  // ---------------------------------------------------------------------
  // What a step may change.
  // ---------------------------------------------------------------------

  /**
   * s' differs from s at most in the address spaces and the free list: the
   * same environments, each with its other fields unchanged.
   */
  predicate OnlyPgdirs(s: KState, s': KState)
  {
    && s'.envs.Keys == s.envs.Keys && s'.curenv == s.curenv
    && s'.mem == s.mem && s'.envPool == s.envPool
    && (forall j | j in s.envs :: s'.envs[j] == s.envs[j].(pgdir := s'.envs[j].pgdir))
  }

  /** Every environment has the same mapping (or none) at va in s and s'. */
  predicate SameAt(s: KState, s': KState, va: int)
  {
    forall j | j in s.envs ::
      && j in s'.envs
      && (va in s'.envs[j].pgdir.ptes <==> va in s.envs[j].pgdir.ptes)
      && (va in s.envs[j].pgdir.ptes ==> s'.envs[j].pgdir.ptes[va] == s.envs[j].pgdir.ptes[va])
  }

  lemma OnlyPgdirsTrans(a: KState, b: KState, c: KState)
    requires OnlyPgdirs(a, b) && OnlyPgdirs(b, c)
    ensures OnlyPgdirs(a, c)
  {
    forall j | j in a.envs
      ensures c.envs[j] == a.envs[j].(pgdir := c.envs[j].pgdir)
    {
      assert b.envs[j] == a.envs[j].(pgdir := b.envs[j].pgdir);
    }
  }

  /** OnlyPgdirs and SameAt at the exception stack, composed. */
  lemma FrameTrans(a: KState, b: KState, c: KState)
    requires OnlyPgdirs(a, b) && SameAt(a, b, UXSTACK_VA)
    requires OnlyPgdirs(b, c) && SameAt(b, c, UXSTACK_VA)
    ensures OnlyPgdirs(a, c) && SameAt(a, c, UXSTACK_VA)
  {
    OnlyPgdirsTrans(a, b, c);
    SameAtTrans(a, b, c, UXSTACK_VA);
  }

  lemma SameAtTrans(a: KState, b: KState, c: KState, va: int)
    requires SameAt(a, b, va) && SameAt(b, c, va)
    ensures SameAt(a, c, va)
  {
  }

  /**
   * A successful page_insert changes one mapping, at va in environment id,
   * adds at most va's page table, and touches nothing but address spaces
   * and the free list.
   */
  lemma PageInsertTouchesOnly(s: KState, id: int, pp: Frame, va: int, perm: Word)
    requires id in s.envs
    ensures var res := PageInsert(s, id, pp, va, perm);
      res.ret == 0 ==>
        && OnlyPgdirs(s, res.state)
        && (forall v | v != va :: SameAt(s, res.state, v))
        && (forall j | j in s.envs :: s.envs[j].pgdir.tables <= res.state.envs[j].pgdir.tables <= s.envs[j].pgdir.tables + {PDX(va)})
  {
    var res := PageInsert(s, id, pp, va, perm);
    if res.ret == 0 {
      var s' := res.state;
      forall j | j in s.envs
        ensures s'.envs[j] == s.envs[j].(pgdir := s'.envs[j].pgdir)
      {
      }
      forall v | v != va
        ensures SameAt(s, s', v)
      {
        assert s'.envs[id].pgdir.ptes == s.envs[id].pgdir.ptes[va := MkPte(pp, perm)];
      }
    }
  }

  /** The same of a successful sys_page_map, whose one change is at dstva. */
  lemma PageMapTouchesOnly(s: KState, srcenvid: int, srcva: u32, dstenvid: int, dstva: u32, perm: Word)
    requires Running(s)
    ensures var res := SysPageMap(s, srcenvid, srcva, dstenvid, dstva, perm);
      res.ret == 0 ==>
        && OnlyPgdirs(s, res.state)
        && (forall v | v != dstva :: SameAt(s, res.state, v))
        && (forall j | j in s.envs :: s.envs[j].pgdir.tables <= res.state.envs[j].pgdir.tables <= s.envs[j].pgdir.tables + {PDX(dstva)})
  {
    var res := SysPageMap(s, srcenvid, srcva, dstenvid, dstva, perm);
    if res.ret == 0 {
      var src := EnvidToEnv(s, srcenvid, true).value;
      var dst := EnvidToEnv(s, dstenvid, true).value;
      PageInsertTouchesOnly(s, dst, PteFrame(s.envs[src].pgdir.ptes[srcva]), dstva, perm);
    }
  }

  // ---------------------------------------------------------------------
  // duppage.
  // ---------------------------------------------------------------------

  /** duppage refuses a page that is not user-present, mapping nothing. */
  lemma DupPageRejects(s: KState, envid: int, pn: int)
    requires Running(s) && 0 <= pn < UTOP_PAGES
    requires Uvpt(s, pn) & (PTE_U | PTE_P) != PTE_U | PTE_P
    ensures DupPage(s, envid, pn) == Ret(-E_INVAL, s)
  {
  }

  /**
   * A successful duppage changes only the mappings at the page's own
   * address, and only address spaces and the free list; it adds no page
   * table other than the page's own.
   */
  lemma DupPageTouchesOnly(s: KState, envid: int, pn: int)
    requires Running(s) && 0 <= pn < UTOP_PAGES
    ensures var run := DupPage(s, envid, pn);
      run.Ret? ==>
        && OnlyPgdirs(s, run.state)
        && (forall va | va != pn * PGSIZE :: SameAt(s, run.state, va))
        && (forall j | j in s.envs :: s.envs[j].pgdir.tables <= run.state.envs[j].pgdir.tables <= s.envs[j].pgdir.tables + {PDX(pn * PGSIZE)})
  {
    var run := DupPage(s, envid, pn);
    var pte := Uvpt(s, pn);
    var addr := pn * PGSIZE;
    if run.Ret? && pte & (PTE_U | PTE_P) == PTE_U | PTE_P {
      var r1 := SysPageMap(s, 0, addr, envid, addr, ChildPerm(pte));
      PageMapTouchesOnly(s, 0, addr, envid, addr, ChildPerm(pte));
      assert r1.ret == 0;
      if SharesAsIs(pte) {
        assert run.state == r1.state;
      } else {
        var r2 := SysPageMap(r1.state, 0, addr, 0, addr, ParentRemapPerm(pte));
        assert run.state == r2.state && r2.ret == 0;
        PageMapTouchesOnly(r1.state, 0, addr, 0, addr, ParentRemapPerm(pte));
        OnlyPgdirsTrans(s, r1.state, r2.state);
        forall v | v != addr
          ensures SameAt(s, r2.state, v)
        {
          SameAtTrans(s, r1.state, r2.state, v);
        }
      }
    }
  }

  /** duppage leaves the page's own entry in the parent present. */
  lemma DupPageKeepsPresent(s: KState, envid: int, pn: int)
    requires Running(s) && 0 <= pn < UTOP_PAGES
    ensures var run := DupPage(s, envid, pn);
      run.Ret? ==> (Uvpt(run.state, pn) & PTE_P != 0 <==> Uvpt(s, pn) & PTE_P != 0)
  {
    var run := DupPage(s, envid, pn);
    var pte := Uvpt(s, pn);
    var addr := pn * PGSIZE;
    if run.Ret? && pte & (PTE_U | PTE_P) == PTE_U | PTE_P {
      var c := EnvidToEnv(s, envid, true).value;
      var r1 := SysPageMap(s, 0, addr, envid, addr, ChildPerm(pte));
      assert r1.ret == 0;
      assert r1 == PageInsert(s, c, PteFrame(pte), addr, ChildPerm(pte));
      if SharesAsIs(pte) {
        assert run.state == r1.state;
        if c != s.curenv {
          assert r1.state.envs[s.curenv] == s.envs[s.curenv];
        }
      } else {
        DupPageCowInserts(s, envid, pn);
      }
    }
  }

  /**
   * duppage of a read-only or PTE_SHARE page maps the same frame into the
   * child at the same address with the page's PTE_SYSCALL bits, and leaves
   * the parent's mapping as it was.
   */
  lemma DupPageShared(s: KState, envid: int, pn: int)
    requires Running(s) && 0 <= pn < UTOP_PAGES
    requires Uvpt(s, pn) & (PTE_U | PTE_P) == PTE_U | PTE_P && SharesAsIs(Uvpt(s, pn))
    requires EnvidToEnv(s, envid, true).Some? && EnvidToEnv(s, envid, true).value != s.curenv
    ensures var run := DupPage(s, envid, pn);
      run.Ret? ==>
        var c := EnvidToEnv(s, envid, true).value;
        pn * PGSIZE in run.state.envs[c].pgdir.ptes &&
        var cpte := run.state.envs[c].pgdir.ptes[pn * PGSIZE];
        && run.ret == 0
        && PteFrame(cpte) == PteFrame(Uvpt(s, pn))
        && cpte & PTE_FLAGS == Uvpt(s, pn) & PTE_SYSCALL
        && run.state.envs[s.curenv] == s.envs[s.curenv]
  {
  }

  /** The copy-on-write case of duppage, when it returns, is two successful sys_page_maps. */
  lemma DupPageCowMaps(s: KState, envid: int, pn: int)
    requires Running(s) && 0 <= pn < UTOP_PAGES
    requires Uvpt(s, pn) & (PTE_U | PTE_P) == PTE_U | PTE_P && !SharesAsIs(Uvpt(s, pn))
    ensures var run := DupPage(s, envid, pn);
      var pte := Uvpt(s, pn);
      var r1 := SysPageMap(s, 0, pn * PGSIZE, envid, pn * PGSIZE, ChildPerm(pte));
      run.Ret? ==>
        && r1.ret == 0
        && var r2 := SysPageMap(r1.state, 0, pn * PGSIZE, 0, pn * PGSIZE, ParentRemapPerm(pte));
        && r2.ret == 0
        && run == Ret(0, r2.state)
  {
  }

  /**
   * sys_page_map from the running environment's page at va, when it
   * succeeds, is a page_insert of that page's frame.
   */
  lemma PageMapFromSelf(s: KState, va: u32, dstenvid: int, dstva: u32, perm: Word)
    requires Running(s)
    ensures var res := SysPageMap(s, 0, va, dstenvid, dstva, perm);
      res.ret == 0 ==>
        && va as int in s.envs[s.curenv].pgdir.ptes
        && EnvidToEnv(s, dstenvid, true).Some?
        && res == PageInsert(s, EnvidToEnv(s, dstenvid, true).value,
                             PteFrame(s.envs[s.curenv].pgdir.ptes[va]), dstva, perm)
  {
  }

  /** A page_insert of frame f at va leaves any environment's mapping of f at va mapping f. */
  lemma InsertKeepsFrameAt(s: KState, c: int, f: Frame, va: int, perm: Word, id: int)
    requires c in s.envs && id in s.envs
    requires va in s.envs[id].pgdir.ptes && PteFrame(s.envs[id].pgdir.ptes[va]) == f
    ensures var r := PageInsert(s, c, f, va, perm);
      r.ret == 0 ==> va in r.state.envs[id].pgdir.ptes && PteFrame(r.state.envs[id].pgdir.ptes[va]) == f
  {
  }

  /**
   * The copy-on-write case of duppage, when it returns, is two page_inserts
   * of the page's frame: into the child with ChildPerm, then over the
   * parent's own entry with ParentRemapPerm.
   */
  lemma DupPageCowInserts(s: KState, envid: int, pn: int)
    requires Running(s) && 0 <= pn < UTOP_PAGES
    requires Uvpt(s, pn) & (PTE_U | PTE_P) == PTE_U | PTE_P && !SharesAsIs(Uvpt(s, pn))
    ensures var run := DupPage(s, envid, pn);
      run.Ret? ==>
        && EnvidToEnv(s, envid, true).Some?
        && var c := EnvidToEnv(s, envid, true).value;
        && var pte := Uvpt(s, pn);
        && var r1 := PageInsert(s, c, PteFrame(pte), pn * PGSIZE, ChildPerm(pte));
        && r1.ret == 0
        && var r2 := PageInsert(r1.state, s.curenv, PteFrame(pte), pn * PGSIZE, ParentRemapPerm(pte));
        && r2.ret == 0
        && run == Ret(0, r2.state)
  {
    var run := DupPage(s, envid, pn);
    if run.Ret? {
      var pte := Uvpt(s, pn);
      var addr: u32 := pn * PGSIZE;
      var f := PteFrame(pte);
      DupPageCowMaps(s, envid, pn);
      var r1 := SysPageMap(s, 0, addr, envid, addr, ChildPerm(pte));
      PageMapFromSelf(s, addr, envid, addr, ChildPerm(pte));
      var c := EnvidToEnv(s, envid, true).value;
      InsertKeepsFrameAt(s, c, f, addr, ChildPerm(pte), s.curenv);
      PageMapFromSelf(r1.state, addr, 0, addr, ParentRemapPerm(pte));
    }
  }

  /**
   * Two successful page_inserts of frame f at addr, into c and then into the
   * running environment, both with read-only copy-on-write permissions,
   * leave both mapping f read-only and copy-on-write.
   */
  lemma InsertTwiceCow(s: KState, c: int, f: Frame, addr: int, p1: Word, p2: Word)
    requires Running(s) && c in s.envs
    requires p1 & PTE_W == 0 && p1 & PTE_COW != 0 && p2 & PTE_W == 0 && p2 & PTE_COW != 0
    requires PageInsert(s, c, f, addr, p1).ret == 0
    requires PageInsert(PageInsert(s, c, f, addr, p1).state, s.curenv, f, addr, p2).ret == 0
    ensures var s' := PageInsert(PageInsert(s, c, f, addr, p1).state, s.curenv, f, addr, p2).state;
      && addr in s'.envs[c].pgdir.ptes && addr in s'.envs[s.curenv].pgdir.ptes
      && var cpte := s'.envs[c].pgdir.ptes[addr];
      && var ppte := s'.envs[s.curenv].pgdir.ptes[addr];
      && PteFrame(cpte) == f && PteFrame(ppte) == f
      && cpte & PTE_W == 0 && cpte & PTE_COW != 0
      && ppte & PTE_W == 0 && ppte & PTE_COW != 0
  {
    var r1 := PageInsert(s, c, f, addr, p1);
    var r2 := PageInsert(r1.state, s.curenv, f, addr, p2);
    MkPteCow(f, p1);
    MkPteCow(f, p2);
    assert r2.state.envs[s.curenv].pgdir.ptes[addr] == MkPte(f, p2);
    if c != s.curenv {
      assert r2.state.envs[c] == r1.state.envs[c];
      assert r1.state.envs[c].pgdir.ptes[addr] == MkPte(f, p1);
    }
  }

  /**
   * duppage of a writable or copy-on-write page that is not PTE_SHARE
   * leaves the child and the parent mapping the same frame, both read-only
   * and both copy-on-write.
   */
  lemma DupPageCopyOnWrite(s: KState, envid: int, pn: int)
    requires Running(s) && 0 <= pn < UTOP_PAGES
    requires Uvpt(s, pn) & (PTE_U | PTE_P) == PTE_U | PTE_P && !SharesAsIs(Uvpt(s, pn))
    ensures var run := DupPage(s, envid, pn);
      run.Ret? ==>
        && EnvidToEnv(s, envid, true).Some?
        && var c := EnvidToEnv(s, envid, true).value;
        && pn * PGSIZE in run.state.envs[c].pgdir.ptes
        && pn * PGSIZE in run.state.envs[s.curenv].pgdir.ptes
        && var cpte := run.state.envs[c].pgdir.ptes[pn * PGSIZE];
        && var ppte := run.state.envs[s.curenv].pgdir.ptes[pn * PGSIZE];
        && run.ret == 0
        && PteFrame(cpte) == PteFrame(Uvpt(s, pn)) && PteFrame(ppte) == PteFrame(Uvpt(s, pn))
        && cpte & PTE_W == 0 && cpte & PTE_COW != 0
        && ppte & PTE_W == 0 && ppte & PTE_COW != 0
  {
    var run := DupPage(s, envid, pn);
    if run.Ret? {
      DupPageCowInserts(s, envid, pn);
      var pte := Uvpt(s, pn);
      var c := EnvidToEnv(s, envid, true).value;
      InsertTwiceCow(s, c, PteFrame(pte), pn * PGSIZE, ChildPerm(pte), ParentRemapPerm(pte));
    }
  }

  /** duppage keeps the kernel invariant. */
  lemma DupPageValid(s: KState, envid: int, pn: int)
    requires Valid(s) && 0 <= pn < UTOP_PAGES
    ensures var run := DupPage(s, envid, pn);
      run.Ret? ==> Valid(run.state)
  {
    var run := DupPage(s, envid, pn);
    var pte := Uvpt(s, pn);
    var addr: u32 := pn * PGSIZE;
    if run.Ret? && pte & (PTE_U | PTE_P) == PTE_U | PTE_P {
      var r1 := SysPageMap(s, 0, addr, envid, addr, ChildPerm(pte));
      SyscallProps.ValidAfterPageMap(s, 0, addr, envid, addr, ChildPerm(pte));
      if SharesAsIs(pte) {
        assert run.state == r1.state;
      } else {
        DupPageCowMaps(s, envid, pn);
        SyscallProps.ValidAfterPageMap(r1.state, 0, addr, 0, addr, ParentRemapPerm(pte));
      }
    }
  }

  /**
   * A successful duppage on a page fork's loop would visit changes, for
   * every page, neither whether its page table is present nor whether its
   * PTE is present: which pages qualify is the same before and after.
   */
  lemma DupPageKeepsQualifies(s: KState, envid: int, pn: int)
    requires Running(s) && 0 <= pn < UTOP_PAGES && Qualifies(s, pn)
    ensures var run := DupPage(s, envid, pn);
      run.Ret? ==> forall q :: Qualifies(run.state, q) == Qualifies(s, q)
  {
    var run := DupPage(s, envid, pn);
    if run.Ret? {
      DupPageTouchesOnly(s, envid, pn);
      DupPageKeepsPresent(s, envid, pn);
      QualifiesAfterChangeAt(s, run.state, pn);
    }
  }

  /**
   * A step that changes only address spaces, only at page pn's address and
   * only by adding pn's page table, and keeps page pn present, keeps the
   * same pages qualifying as long as page pn qualified.
   */
  lemma QualifiesAfterChangeAt(s: KState, s': KState, pn: int)
    requires Running(s) && 0 <= pn < UTOP_PAGES && Qualifies(s, pn)
    requires OnlyPgdirs(s, s')
    requires forall va | va != pn * PGSIZE :: SameAt(s, s', va)
    requires forall j | j in s.envs :: s.envs[j].pgdir.tables <= s'.envs[j].pgdir.tables <= s.envs[j].pgdir.tables + {PDX(pn * PGSIZE)}
    requires Uvpt(s', pn) & PTE_P != 0 <==> Uvpt(s, pn) & PTE_P != 0
    ensures forall q :: Qualifies(s', q) == Qualifies(s, q)
  {
    PdxOfPage(pn);
    assert s'.envs[s.curenv].pgdir.tables == s.envs[s.curenv].pgdir.tables;
    UvptSameExcept(s, s', pn);
    QualifiesFromPtes(s, s', pn);
  }

  /** Mappings that agree everywhere but at page pn give the same uvpt elsewhere. */
  lemma UvptSameExcept(s: KState, s': KState, pn: int)
    requires Running(s) && Running(s') && s'.curenv == s.curenv
    requires forall va | va != pn * PGSIZE :: SameAt(s, s', va)
    ensures forall q | q != pn :: Uvpt(s', q) == Uvpt(s, q)
  {
    forall q | q != pn
      ensures Uvpt(s', q) == Uvpt(s, q)
    {
      assert SameAt(s, s', q * PGSIZE);
    }
  }

  /**
   * Which pages qualify depends only on the running environment's page
   * tables and PTEs: when those agree (page pn at least in being present),
   * the same pages qualify.
   */
  lemma QualifiesFromPtes(s: KState, s': KState, pn: int)
    requires Running(s) && Running(s') && s'.curenv == s.curenv
    requires s'.envs[s.curenv].pgdir.tables == s.envs[s.curenv].pgdir.tables
    requires forall q | q != pn :: Uvpt(s', q) == Uvpt(s, q)
    requires Uvpt(s', pn) & PTE_P != 0 <==> Uvpt(s, pn) & PTE_P != 0
    ensures forall q :: Qualifies(s', q) == Qualifies(s, q)
  {
    forall q
      ensures Qualifies(s', q) == Qualifies(s, q)
    {
      if q != pn {
        assert Uvpt(s', q) == Uvpt(s, q);
      }
    }
  }

  /** The loop body's successful step is a successful duppage. */
  lemma DupOrPanicIsDupPage(s: KState, envid: int, pn: int)
    requires Running(s) && 0 <= pn < UTOP_PAGES
    ensures var d := DupOrPanic(s, envid, pn);
      d.Ret? ==> DupPage(s, envid, pn).Ret? && DupPage(s, envid, pn).ret >= 0 && DupPage(s, envid, pn).state == d.state
  {
  }

  lemma DupOrPanicKeepsQualifies(s: KState, envid: int, pn: int)
    requires Running(s) && 0 <= pn < UTOP_PAGES && Qualifies(s, pn)
    ensures var d := DupOrPanic(s, envid, pn);
      d.Ret? ==> forall q :: Qualifies(d.state, q) == Qualifies(s, q)
  {
    DupOrPanicIsDupPage(s, envid, pn);
    DupPageKeepsQualifies(s, envid, pn);
  }

  lemma DupOrPanicTouchesOnly(s: KState, envid: int, pn: int)
    requires Running(s) && 0 <= pn < UTOP_PAGES && Qualifies(s, pn)
    ensures var d := DupOrPanic(s, envid, pn);
      d.Ret? ==> OnlyPgdirs(s, d.state) && SameAt(s, d.state, UXSTACK_VA)
  {
    var d := DupOrPanic(s, envid, pn);
    if d.Ret? {
      DupOrPanicIsDupPage(s, envid, pn);
      DupPageTouchesOnly(s, envid, pn);
      assert SameAt(s, d.state, UXSTACK_VA);
    }
  }

  // ---------------------------------------------------------------------
  // fork's loop.
  // ---------------------------------------------------------------------

  /** Every element of pns is a page number below UTOP. */
  predicate UserPages(pns: seq<int>)
  {
    forall i | 0 <= i < |pns| :: 0 <= pns[i] < UTOP_PAGES
  }

  /** Every element of pns is smaller than every later one. */
  predicate Increasing(pns: seq<int>)
  {
    forall i, k | 0 <= i < k < |pns| :: pns[i] < pns[k]
  }

  /**
   * The pages fork's loop should hand to duppage, from pn on: every page
   * number below PDX(UTOP) * NPTENTRIES that qualifies, in increasing order.
   */
  function Qualifying(s: KState, pn: int): (pns: seq<int>)
    requires Running(s) && 0 <= pn <= UTOP_PAGES
    ensures UserPages(pns)
    ensures forall i | 0 <= i < |pns| :: pn <= pns[i]
    decreases UTOP_PAGES - pn
  {
    if pn == UTOP_PAGES then []
    else if Qualifies(s, pn) then [pn] + Qualifying(s, pn + 1)
    else Qualifying(s, pn + 1)
  }

  /** Qualifying lists exactly the qualifying pages from pn on. */
  lemma {:induction false} QualifyingMembers(s: KState, pn: int)
    requires Running(s) && 0 <= pn <= UTOP_PAGES
    ensures forall q :: q in Qualifying(s, pn) <==> pn <= q < UTOP_PAGES && Qualifies(s, q)
    decreases UTOP_PAGES - pn
  {
    if pn < UTOP_PAGES {
      QualifyingMembers(s, pn + 1);
    }
  }

  /** Qualifying lists the pages in increasing order. */
  lemma {:induction false} QualifyingIncreasing(s: KState, pn: int)
    requires Running(s) && 0 <= pn <= UTOP_PAGES
    ensures Increasing(Qualifying(s, pn))
    decreases UTOP_PAGES - pn
  {
    if pn < UTOP_PAGES {
      QualifyingIncreasing(s, pn + 1);
      var rest := Qualifying(s, pn + 1);
      assert Increasing(rest);
      if Qualifies(s, pn) {
        var pns := [pn] + rest;
        assert Qualifying(s, pn) == pns;
        forall i, k | 0 <= i < k < |pns|
          ensures pns[i] < pns[k]
        {
          assert pns[k] == rest[k - 1] && pn + 1 <= rest[k - 1];
          if i > 0 {
            assert pns[i] == rest[i - 1];
          }
        }
      } else {
        assert Qualifying(s, pn) == rest;
      }
    }
  }

  /** duppage on each page of pns in turn, panicking on a negative result. */
  function DupAll(s: KState, child: int, pns: seq<int>): (run: Run)
    requires Running(s) && UserPages(pns)
    ensures run.Ret? ==> run.state.envs.Keys == s.envs.Keys && run.state.curenv == s.curenv
    decreases |pns|
  {
    if pns == [] then Ret(0, s)
    else match DupOrPanic(s, child, pns[0])
      case Panic => Panic
      case Ret(_, s1) => DupAll(s1, child, pns[1..])
  }

  lemma {:induction false} QualifyingSame(s: KState, s': KState, pn: int)
    requires Running(s) && Running(s') && 0 <= pn <= UTOP_PAGES
    requires forall q :: Qualifies(s', q) == Qualifies(s, q)
    ensures Qualifying(s', pn) == Qualifying(s, pn)
    decreases UTOP_PAGES - pn
  {
    if pn < UTOP_PAGES {
      QualifyingSame(s, s', pn + 1);
    }
  }

  /** A page that does not qualify: the loop and the list both move past it. */
  lemma ForkLoopDupsSkip(s: KState, child: int, pn: int)
    requires Running(s) && 0 <= pn < UTOP_PAGES && !Qualifies(s, pn)
    ensures ForkLoop(s, child, pn) == ForkLoop(s, child, pn + 1)
    ensures Qualifying(s, pn) == Qualifying(s, pn + 1)
  {
  }

  /** A qualifying page heads the list of the qualifying pages from it on. */
  lemma QualifyingAt(s: KState, pn: int)
    requires Running(s) && 0 <= pn < UTOP_PAGES && Qualifies(s, pn)
    ensures Qualifying(s, pn) == [pn] + Qualifying(s, pn + 1)
  {
  }

  /** DupAll on a list with head p: duppage p, then the rest from the state it leaves. */
  lemma DupAllCons(s: KState, child: int, p: int, rest: seq<int>)
    requires Running(s) && 0 <= p < UTOP_PAGES && UserPages(rest)
    ensures UserPages([p] + rest)
    ensures var d := DupOrPanic(s, child, p);
      DupAll(s, child, [p] + rest) == if d.Ret? then DupAll(d.state, child, rest) else Panic
  {
    var pns := [p] + rest;
    assert pns[0] == p && pns[1..] == rest;
    forall i | 0 <= i < |pns|
      ensures 0 <= pns[i] < UTOP_PAGES
    {
      if i > 0 {
        assert pns[i] == rest[i - 1];
      }
    }
  }

  /** After a successful loop step the pages left to visit qualify as before. */
  lemma DupOrPanicQualifying(s: KState, child: int, pn: int)
    requires Running(s) && 0 <= pn < UTOP_PAGES && Qualifies(s, pn)
    ensures var d := DupOrPanic(s, child, pn);
      d.Ret? ==> Qualifying(d.state, pn + 1) == Qualifying(s, pn + 1)
  {
    var d := DupOrPanic(s, child, pn);
    if d.Ret? {
      DupOrPanicKeepsQualifies(s, child, pn);
      QualifyingSame(s, d.state, pn + 1);
    }
  }

  /** A qualifying page: the loop goes on from the state duppage leaves, or panics. */
  lemma ForkLoopTakeStep(s: KState, child: int, pn: int)
    requires Running(s) && 0 <= pn < UTOP_PAGES && Qualifies(s, pn)
    ensures var d := DupOrPanic(s, child, pn);
      ForkLoop(s, child, pn) == if d.Ret? then ForkLoop(d.state, child, pn + 1) else Panic
  {
  }

  /**
   * At a qualifying page the loop and DupAll over the qualifying pages both
   * take the same duppage step, and go on from the state it leaves.
   */
  lemma ForkLoopDupAllStep(s: KState, child: int, pn: int)
    requires Running(s) && 0 <= pn < UTOP_PAGES && Qualifies(s, pn)
    ensures var d := DupOrPanic(s, child, pn);
      && ForkLoop(s, child, pn) == (if d.Ret? then ForkLoop(d.state, child, pn + 1) else Panic)
      && DupAll(s, child, Qualifying(s, pn)) == (if d.Ret? then DupAll(d.state, child, Qualifying(d.state, pn + 1)) else Panic)
  {
    QualifyingAt(s, pn);
    DupAllCons(s, child, pn, Qualifying(s, pn + 1));
    ForkLoopTakeStep(s, child, pn);
    DupOrPanicQualifying(s, child, pn);
  }

  /**
   * fork's loop calls duppage on exactly the qualifying pages (page table
   * present, PTE present, not the exception stack page), in increasing
   * order, judged on the address space as the loop finds it on entry.
   */
  lemma {:induction false} ForkLoopDupsExactly(s: KState, child: int, pn: int)
    requires Running(s) && 0 <= pn <= UTOP_PAGES
    ensures ForkLoop(s, child, pn) == DupAll(s, child, Qualifying(s, pn))
    decreases UTOP_PAGES - pn, 1
  {
    if pn == UTOP_PAGES {
      ForkLoopDupsEnd(s, child);
    } else if !Qualifies(s, pn) {
      ForkLoopDupsExactly(s, child, pn + 1);
      ForkLoopDupsSkip(s, child, pn);
    } else {
      ForkLoopDupsExactlyAt(s, child, pn);
    }
  }

  /** Past the last page below UTOP the walk returns 0 at once, and nothing is left to duplicate. */
  lemma ForkLoopDupsEnd(s: KState, child: int)
    requires Running(s)
    ensures ForkLoop(s, child, UTOP_PAGES) == Ret(0, s)
    ensures Qualifying(s, UTOP_PAGES) == [] && DupAll(s, child, []) == Ret(0, s)
  {
  }

  /**
   * ForkLoopDupsExactly at a qualifying page: the loop and DupAll both
   * begin with the same duppage, and go on from the state it leaves.
   */
  lemma {:induction false} ForkLoopDupsExactlyAt(s: KState, child: int, pn: int)
    requires Running(s) && 0 <= pn < UTOP_PAGES && Qualifies(s, pn)
    ensures ForkLoop(s, child, pn) == DupAll(s, child, Qualifying(s, pn))
    decreases UTOP_PAGES - pn, 0
  {
    ForkLoopDupAllStep(s, child, pn);
    var d := DupOrPanic(s, child, pn);
    if d.Ret? {
      ForkLoopDupsExactly(d.state, child, pn + 1);
    }
  }

  /** The exception stack page never qualifies, so fork never hands it to duppage. */
  lemma UxstackNeverDuplicated(s: KState)
    requires Running(s)
    ensures UXSTACK_PN !in Qualifying(s, 0)
    ensures UXSTACK_PN * PGSIZE == UXSTACK_VA
  {
    QualifyingMembers(s, 0);
  }

  /**
   * fork's loop changes only address spaces and the free list, and leaves
   * every mapping at the exception stack address as it was.
   */
  lemma {:induction false} ForkLoopFrame(s: KState, child: int, pn: int)
    requires Running(s) && 0 <= pn <= UTOP_PAGES
    ensures var run := ForkLoop(s, child, pn);
      run.Ret? ==> OnlyPgdirs(s, run.state) && SameAt(s, run.state, UXSTACK_VA)
    decreases UTOP_PAGES - pn, 1
  {
    if pn < UTOP_PAGES {
      if !Qualifies(s, pn) {
        ForkLoopDupsSkip(s, child, pn);
        ForkLoopFrame(s, child, pn + 1);
      } else {
        ForkLoopFrameAt(s, child, pn);
      }
    }
  }

  /** ForkLoopFrame at a qualifying page. */
  lemma {:induction false} ForkLoopFrameAt(s: KState, child: int, pn: int)
    requires Running(s) && 0 <= pn < UTOP_PAGES && Qualifies(s, pn)
    ensures var run := ForkLoop(s, child, pn);
      run.Ret? ==> OnlyPgdirs(s, run.state) && SameAt(s, run.state, UXSTACK_VA)
    decreases UTOP_PAGES - pn, 0
  {
    var d := DupOrPanic(s, child, pn);
    ForkLoopTakeStep(s, child, pn);
    if d.Ret? {
      var run := ForkLoop(d.state, child, pn + 1);
      ForkLoopFrame(d.state, child, pn + 1);
      DupOrPanicTouchesOnly(s, child, pn);
      if run.Ret? {
        FrameTrans(s, d.state, run.state);
      }
    }
  }

  /** fork's loop keeps the kernel invariant. */
  lemma {:induction false} ForkLoopValid(s: KState, child: int, pn: int)
    requires Valid(s) && 0 <= pn <= UTOP_PAGES
    ensures var run := ForkLoop(s, child, pn);
      run.Ret? ==> Valid(run.state)
    decreases UTOP_PAGES - pn, 1
  {
    if pn < UTOP_PAGES {
      if !Qualifies(s, pn) {
        ForkLoopDupsSkip(s, child, pn);
        ForkLoopValid(s, child, pn + 1);
      } else {
        ForkLoopValidAt(s, child, pn);
      }
    }
  }

  /** ForkLoopValid at a qualifying page. */
  lemma {:induction false} ForkLoopValidAt(s: KState, child: int, pn: int)
    requires Valid(s) && 0 <= pn < UTOP_PAGES && Qualifies(s, pn)
    ensures var run := ForkLoop(s, child, pn);
      run.Ret? ==> Valid(run.state)
    decreases UTOP_PAGES - pn, 0
  {
    var d := DupOrPanic(s, child, pn);
    ForkLoopTakeStep(s, child, pn);
    if d.Ret? {
      DupOrPanicIsDupPage(s, child, pn);
      DupPageValid(s, child, pn);
      ForkLoopValid(d.state, child, pn + 1);
    }
  }

  // ---------------------------------------------------------------------
  // What the walk leaves at each duplicated page.
  // ---------------------------------------------------------------------

  /**
   * The entries duppage leaves for a page whose entry was pte, cpte in the
   * child and ppte in the parent: both point at pte's frame. A read-only or
   * PTE_SHARE page is mapped in the child with pte's PTE_SYSCALL bits and
   * left as it was in the parent; any other page is read-only and
   * copy-on-write in both.
   */
  predicate DupEntries(cpte: Word, ppte: Word, pte: Word)
  {
    && PteFrame(cpte) == PteFrame(pte) && PteFrame(ppte) == PteFrame(pte)
    && (SharesAsIs(pte) ==> cpte & PTE_FLAGS == pte & PTE_SYSCALL && ppte == pte)
    && (!SharesAsIs(pte) ==> && cpte & PTE_W == 0 && cpte & PTE_COW != 0
                             && ppte & PTE_W == 0 && ppte & PTE_COW != 0)
  }

  /** Page pn after duppage of a page whose entry was pte: both map it, with DupEntries. */
  predicate Duplicated(s: KState, child: int, pn: int, pte: Word)
    requires Running(s)
  {
    var va := pn * PGSIZE;
    && child in s.envs && va in s.envs[child].pgdir.ptes && va in s.envs[s.curenv].pgdir.ptes
    && DupEntries(s.envs[child].pgdir.ptes[va], s.envs[s.curenv].pgdir.ptes[va], pte)
  }

  /** Duplicated depends only on the mappings at the page's address. */
  lemma DuplicatedSameAt(s: KState, s': KState, child: int, pn: int, pte: Word)
    requires Running(s) && Running(s') && s'.curenv == s.curenv
    requires SameAt(s, s', pn * PGSIZE) && Duplicated(s, child, pn, pte)
    ensures Duplicated(s', child, pn, pte)
  {
  }

  /** A live child of the running environment stays one across a step that changes only address spaces. */
  lemma ChildStays(s: KState, s': KState, child: int)
    requires Running(s) && Running(s') && OnlyPgdirs(s, s')
    requires EnvidToEnv(s, child, true) == Some(child) && child != 0
    ensures EnvidToEnv(s', child, true) == Some(child)
  {
    assert s'.envs[child] == s.envs[child].(pgdir := s'.envs[child].pgdir);
  }

  /** A successful loop step at a qualifying page duplicates that page into the child. */
  lemma DupOrPanicDuplicates(s: KState, child: int, pn: int)
    requires Running(s) && 0 <= pn < UTOP_PAGES && Qualifies(s, pn)
    requires EnvidToEnv(s, child, true) == Some(child) && child != 0 && child != s.curenv
    ensures var d := DupOrPanic(s, child, pn);
      d.Ret? ==> Duplicated(d.state, child, pn, Uvpt(s, pn))
  {
    var d := DupOrPanic(s, child, pn);
    var pte := Uvpt(s, pn);
    if d.Ret? {
      DupOrPanicIsDupPage(s, child, pn);
      if pte & (PTE_U | PTE_P) != PTE_U | PTE_P {
        DupPageRejects(s, child, pn);
        assert false;
      }
      if SharesAsIs(pte) {
        DupPageShared(s, child, pn);
      } else {
        DupPageCopyOnWrite(s, child, pn);
      }
    }
  }

  /** A successful loop step keeps every mapping away from its page, and the child live. */
  lemma DupOrPanicKeepsOthers(s: KState, child: int, pn: int)
    requires Running(s) && 0 <= pn < UTOP_PAGES && Qualifies(s, pn)
    requires EnvidToEnv(s, child, true) == Some(child) && child != 0
    ensures var d := DupOrPanic(s, child, pn);
      d.Ret? ==>
        && (forall va | va != pn * PGSIZE :: SameAt(s, d.state, va))
        && (forall q | q != pn :: Uvpt(d.state, q) == Uvpt(s, q))
        && EnvidToEnv(d.state, child, true) == Some(child)
  {
    var d := DupOrPanic(s, child, pn);
    if d.Ret? {
      DupOrPanicIsDupPage(s, child, pn);
      DupPageTouchesOnly(s, child, pn);
      UvptSameExcept(s, d.state, pn);
      ChildStays(s, d.state, child);
    }
  }

  /** Mappings kept away from page pn, then below page pn + 1, are kept below page pn. */
  lemma KeepsBelowStep(s: KState, d: KState, r: KState, pn: int)
    requires forall va | va != pn * PGSIZE :: SameAt(s, d, va)
    requires forall va | va < (pn + 1) * PGSIZE :: SameAt(d, r, va)
    ensures forall va | va < pn * PGSIZE :: SameAt(s, r, va)
  {
    forall va | va < pn * PGSIZE
      ensures SameAt(s, r, va)
    {
      SameAtTrans(s, d, r, va);
    }
  }

  /** fork's loop from page pn on leaves every mapping below page pn as it was. */
  lemma {:induction false} ForkLoopKeepsBelow(s: KState, child: int, pn: int)
    requires Running(s) && 0 <= pn <= UTOP_PAGES
    ensures var run := ForkLoop(s, child, pn);
      run.Ret? ==> forall va | va < pn * PGSIZE :: SameAt(s, run.state, va)
    decreases UTOP_PAGES - pn, 1
  {
    if pn < UTOP_PAGES {
      if !Qualifies(s, pn) {
        ForkLoopDupsSkip(s, child, pn);
        ForkLoopKeepsBelow(s, child, pn + 1);
      } else {
        ForkLoopKeepsBelowAt(s, child, pn);
      }
    }
  }

  /** ForkLoopKeepsBelow at a qualifying page. */
  lemma {:induction false} ForkLoopKeepsBelowAt(s: KState, child: int, pn: int)
    requires Running(s) && 0 <= pn < UTOP_PAGES && Qualifies(s, pn)
    ensures var run := ForkLoop(s, child, pn);
      run.Ret? ==> forall va | va < pn * PGSIZE :: SameAt(s, run.state, va)
    decreases UTOP_PAGES - pn, 0
  {
    var d := DupOrPanic(s, child, pn);
    ForkLoopTakeStep(s, child, pn);
    if d.Ret? {
      var run := ForkLoop(d.state, child, pn + 1);
      DupOrPanicIsDupPage(s, child, pn);
      DupPageTouchesOnly(s, child, pn);
      ForkLoopKeepsBelow(d.state, child, pn + 1);
      if run.Ret? {
        KeepsBelowStep(s, d.state, run.state, pn);
      }
    }
  }

  /**
   * The pages after pn duplicated from their entries in d, which differ from
   * those in s only at pn, and page pn duplicated from its entry in s: every
   * page of [pn] + rest is duplicated from its entry in s.
   */
  lemma DuplicatedCons(s: KState, d: KState, r: KState, child: int, pn: int, rest: seq<int>)
    requires Running(s) && Running(d) && Running(r) && pn !in rest
    requires forall q | q != pn :: Uvpt(d, q) == Uvpt(s, q)
    requires forall q | q in rest :: Duplicated(r, child, q, Uvpt(d, q))
    requires Duplicated(r, child, pn, Uvpt(s, pn))
    ensures forall q | q in [pn] + rest :: Duplicated(r, child, q, Uvpt(s, q))
  {
    forall q | q in [pn] + rest
      ensures Duplicated(r, child, q, Uvpt(s, q))
    {
      if q != pn {
        assert Uvpt(d, q) == Uvpt(s, q);
      }
    }
  }

  /**
   * When fork's loop from page pn on returns, every page it visited is
   * duplicated into the child, as Duplicated says, from the entry the page
   * had when the loop began.
   */
  lemma {:induction false} ForkLoopDuplicates(s: KState, child: int, pn: int)
    requires Running(s) && 0 <= pn <= UTOP_PAGES
    requires EnvidToEnv(s, child, true) == Some(child) && child != 0 && child != s.curenv
    ensures var run := ForkLoop(s, child, pn);
      run.Ret? ==> forall q | q in Qualifying(s, pn) :: Duplicated(run.state, child, q, Uvpt(s, q))
    decreases UTOP_PAGES - pn, 1
  {
    if pn < UTOP_PAGES {
      if !Qualifies(s, pn) {
        ForkLoopDupsSkip(s, child, pn);
        ForkLoopDuplicates(s, child, pn + 1);
      } else {
        ForkLoopDuplicatesAt(s, child, pn);
      }
    }
  }

  /**
   * One qualifying page of the walk, over abstract states: d is the state
   * the loop body left at pn and r the one the rest of the walk left.
   */
  lemma DuplicatesStep(s: KState, d: KState, r: KState, child: int, pn: int)
    requires Running(s) && Running(d) && Running(r) && r.curenv == d.curenv
    requires 0 <= pn < UTOP_PAGES && Qualifies(s, pn)
    requires Qualifying(d, pn + 1) == Qualifying(s, pn + 1)
    requires forall q | q != pn :: Uvpt(d, q) == Uvpt(s, q)
    requires forall q | q in Qualifying(d, pn + 1) :: Duplicated(r, child, q, Uvpt(d, q))
    requires SameAt(d, r, pn * PGSIZE) && Duplicated(d, child, pn, Uvpt(s, pn))
    ensures forall q | q in Qualifying(s, pn) :: Duplicated(r, child, q, Uvpt(s, q))
  {
    QualifyingAt(s, pn);
    assert pn !in Qualifying(s, pn + 1);
    DuplicatedSameAt(d, r, child, pn, Uvpt(s, pn));
    DuplicatedCons(s, d, r, child, pn, Qualifying(s, pn + 1));
  }

  /** ForkLoopDuplicates at a qualifying page. */
  lemma {:induction false} ForkLoopDuplicatesAt(s: KState, child: int, pn: int)
    requires Running(s) && 0 <= pn < UTOP_PAGES && Qualifies(s, pn)
    requires EnvidToEnv(s, child, true) == Some(child) && child != 0 && child != s.curenv
    ensures var run := ForkLoop(s, child, pn);
      run.Ret? ==> forall q | q in Qualifying(s, pn) :: Duplicated(run.state, child, q, Uvpt(s, q))
    decreases UTOP_PAGES - pn, 0
  {
    var d := DupOrPanic(s, child, pn);
    ForkLoopTakeStep(s, child, pn);
    if d.Ret? {
      var run := ForkLoop(d.state, child, pn + 1);
      DupOrPanicKeepsOthers(s, child, pn);
      DupOrPanicDuplicates(s, child, pn);
      DupOrPanicQualifying(s, child, pn);
      ForkLoopDuplicates(d.state, child, pn + 1);
      ForkLoopKeepsBelow(d.state, child, pn + 1);
      if run.Ret? {
        assert SameAt(d.state, run.state, pn * PGSIZE);
        DuplicatesStep(s, d.state, run.state, child, pn);
      }
    }
  }
}
