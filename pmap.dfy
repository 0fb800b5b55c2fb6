/**
 * The kernel state the syscall layer works on, and the collaborators it calls
 * but does not implement (envid2env, page_alloc, page_free, page_insert,
 * page_lookup, page_remove), each given by the contract of its interface.
 *
 * The environment table is a map from envid to an Env record; an envid that
 * is not a key (a stale generation, an unused slot) names no environment.
 * Each address space below UTOP is a PageDir: the page-directory slots that
 * have a page table, and a map from page-aligned virtual address to its
 * 32-bit PTE. Frames are handed out from the head of a free list, as
 * page_alloc does, and the contents of each frame are an abstract sequence
 * of bytes.
 */
module Pmap {
  import opened Mmu

  datatype Option<T> = None | Some(value: T)

  type PageData = seq<bv8>

  /** The contents page_alloc(ALLOC_ZERO) leaves in a frame. */
  function ZeroPage(): PageData { seq(PGSIZE, _ => 0) }

  /** The saved registers of an environment that the core reads or writes. */
  datatype Trapframe = Trapframe(eax: Word, eip: Word, eflags: Word, cs: Word)

  datatype EnvStatus = EnvFree | EnvDying | EnvRunnable | EnvRunning | EnvNotRunnable

  /** One address space below UTOP. */
  datatype PageDir = PageDir(tables: set<int>, ptes: map<int, Word>)

  /** struct Env, reduced to the fields the core reads and writes. */
  datatype Env = Env(
    parent: int,
    status: EnvStatus,
    tf: Trapframe,
    pgfaultUpcall: Word,
    ipcRecving: bool,
    ipcFrom: int,
    ipcValue: Word,
    ipcDstva: u32,
    ipcPerm: Word,
    pgdir: PageDir)

  /**
   * The kernel: the environment table, the running environment, the free
   * frame list, frame contents (keyed by frame number), and the envids
   * env_alloc will hand out next.
   */
  datatype KState = KState(
    envs: map<int, Env>,
    curenv: int,
    free: seq<Frame>,
    mem: map<int, PageData>,
    envPool: seq<int>)

  /** What a syscall returns to its caller, and the state it leaves. */
  datatype SysResult = SysResult(ret: int, state: KState)

  /** A frame page_alloc handed out, and the state it leaves. */
  datatype Alloc = Alloc(frame: Frame, state: KState)

  /** Syscalls run on behalf of an environment that is in the table. */
  predicate Running(s: KState) { s.curenv in s.envs }

  /** The contents of a frame; a frame never written reads as zeros. */
  function Contents(s: KState, f: Frame): PageData
  {
    if f as int in s.mem then s.mem[f as int] else ZeroPage()
  }

  /**
   * Distinct frames are distinct keys of the contents map, so writing one
   * frame's contents leaves every other frame's as it was.
   */
  lemma FrameKeysDistinct(f: Frame, g: Frame)
    requires f != g
    ensures f as int != g as int
  {
    assert (f as int) as bv32 == f && (g as int) as bv32 == g;
  }

  /** Replace environment id's record. */
  function SetEnv(s: KState, id: int, e: Env): (s': KState)
    ensures s'.envs == s.envs[id := e]
    ensures s'.curenv == s.curenv && s'.free == s.free && s'.mem == s.mem && s'.envPool == s.envPool
  {
    s.(envs := s.envs[id := e])
  }

  /**
   * envid2env: envid 0 names the running environment; any other envid must
   * be a live entry of the table, and with checkperm it must also be the
   * running environment itself or one of its direct children.
   */
  function EnvidToEnv(s: KState, envid: int, checkperm: bool): (r: Option<int>)
    requires Running(s)
    ensures r.Some? ==> r.value in s.envs
    ensures envid == 0 ==> r == Some(s.curenv)
    ensures envid != 0 ==> (r.Some? <==>
      && envid in s.envs
      && s.envs[envid].status != EnvFree
      && (checkperm ==> envid == s.curenv || s.envs[envid].parent == s.curenv))
    ensures envid != 0 && r.Some? ==> r.value == envid
  {
    if envid == 0 then Some(s.curenv)
    else if envid !in s.envs || s.envs[envid].status == EnvFree then None
    else if checkperm && envid != s.curenv && s.envs[envid].parent != s.curenv then None
    else Some(envid)
  }

  /**
   * page_alloc(ALLOC_ZERO): take the frame at the head of the free list and
   * zero it; None when the list is empty.
   */
  function PageAlloc(s: KState): (r: Option<Alloc>)
    ensures r.None? <==> |s.free| == 0
    ensures r.Some? ==> && r.value.frame == s.free[0]
                        && r.value.state == s.(free := s.free[1..], mem := s.mem[s.free[0] as int := ZeroPage()])
  {
    if |s.free| == 0 then None
    else Some(Alloc(s.free[0], s.(free := s.free[1..], mem := s.mem[s.free[0] as int := ZeroPage()])))
  }

  /** page_free: put a frame back at the head of the free list. */
  function PageFree(s: KState, pp: Frame): (s': KState)
    ensures s'.free == [pp] + s.free
    ensures s'.envs == s.envs && s'.mem == s.mem && s'.curenv == s.curenv && s'.envPool == s.envPool
  {
    s.(free := [pp] + s.free)
  }

  /**
   * page_lookup: the PTE mapping va, if a present one exists; the frame is
   * PteFrame of it.
   */
  function PageLookup(d: PageDir, va: int): (r: Option<Word>)
    ensures r.Some? <==> va in d.ptes && d.ptes[va] & PTE_P != 0
    ensures r.Some? ==> r.value == d.ptes[va]
  {
    if va in d.ptes && d.ptes[va] & PTE_P != 0 then Some(d.ptes[va]) else None
  }

  /**
   * page_insert: map frame pp at va in environment id with perm, replacing
   * whatever was mapped there. When va's page-directory slot has no page
   * table yet, one frame is taken from the free list for it; with the free
   * list empty the call fails with -E_NO_MEM and nothing changes.
   */
  function PageInsert(s: KState, id: int, pp: Frame, va: int, perm: Word): (res: SysResult)
    requires id in s.envs
    ensures res.ret == 0 || res.ret == -E_NO_MEM
    ensures res.ret == -E_NO_MEM <==> PDX(va) !in s.envs[id].pgdir.tables && |s.free| == 0
    ensures res.ret < 0 ==> res.state == s
    ensures res.ret == 0 ==>
      && res.state.envs.Keys == s.envs.Keys
      && (forall j | j in s.envs && j != id :: res.state.envs[j] == s.envs[j])
      && res.state.envs[id] == s.envs[id].(pgdir := PageDir(
           s.envs[id].pgdir.tables + {PDX(va)},
           s.envs[id].pgdir.ptes[va := MkPte(pp, perm)]))
      && res.state.free == (if PDX(va) in s.envs[id].pgdir.tables then s.free else s.free[1..])
      && res.state.curenv == s.curenv && res.state.mem == s.mem && res.state.envPool == s.envPool
  {
    var e := s.envs[id];
    var d := e.pgdir;
    var d' := PageDir(d.tables + {PDX(va)}, d.ptes[va := MkPte(pp, perm)]);
    if PDX(va) in d.tables then
      SysResult(0, SetEnv(s, id, e.(pgdir := d')))
    else if |s.free| == 0 then
      SysResult(-E_NO_MEM, s)
    else
      SysResult(0, SetEnv(s, id, e.(pgdir := d')).(free := s.free[1..]))
  }

  /** page_remove: drop whatever is mapped at va in environment id. */
  function PageRemove(s: KState, id: int, va: int): (s': KState)
    requires id in s.envs
    ensures s'.envs == s.envs[id := s.envs[id].(pgdir := s.envs[id].pgdir.(ptes := s.envs[id].pgdir.ptes - {va}))]
    ensures s'.curenv == s.curenv && s'.free == s.free && s'.mem == s.mem && s'.envPool == s.envPool
  {
    var e := s.envs[id];
    SetEnv(s, id, e.(pgdir := e.pgdir.(ptes := e.pgdir.ptes - {va})))
  }

  /** uvpt[pn]: the running environment's PTE for page pn, 0 if none. */
  function Uvpt(s: KState, pn: int): Word
    requires Running(s)
  {
    var d := s.envs[s.curenv].pgdir;
    if pn * PGSIZE in d.ptes then d.ptes[pn * PGSIZE] else 0
  }

  /** uvpd[i] & PTE_P: whether the running environment has page table i. */
  predicate PdePresent(s: KState, i: int)
    requires Running(s)
  {
    i in s.envs[s.curenv].pgdir.tables
  }

  // ---------------------------------------------------------------------
  // The kernel invariant.
  // ---------------------------------------------------------------------

  predicate NoDupFrames(fs: seq<Frame>)
  {
    forall i, j | 0 <= i < j < |fs| :: fs[i] != fs[j]
  }

  predicate NoDupIds(ids: seq<int>)
  {
    forall i, j | 0 <= i < j < |ids| :: ids[i] != ids[j]
  }

  /**
   * A page table is well formed when every entry is a present mapping of a
   * user page whose page table exists, and points at a frame that is not on
   * the free list.
   */
  ghost predicate WfPageDir(d: PageDir, free: seq<Frame>)
  {
    forall va | va in d.ptes ::
      && UserPage(va)
      && PDX(va) in d.tables
      && d.ptes[va] & PTE_P != 0
      && PteFrame(d.ptes[va]) !in free
  }

  ghost predicate WfEnv(e: Env, free: seq<Frame>)
  {
    && WfPageDir(e.pgdir, free)
    && (e.ipcRecving ==> e.ipcPerm == 0 && (e.ipcDstva < UTOP ==> e.ipcDstva % PGSIZE == 0))
  }

  /**
   * The kernel invariant: the running environment exists, every address
   * space is well formed (so no free frame is mapped anywhere), a receiver
   * waiting in sys_ipc_recv has env_ipc_perm 0 and a page-aligned dstva (when
   * it is below UTOP), and the envids still to be
   * handed out are positive, distinct and unused.
   */
  ghost predicate Valid(s: KState)
  {
    && Running(s)
    && NoDupFrames(s.free)
    && (forall id | id in s.envs :: WfEnv(s.envs[id], s.free))
    && NoDupIds(s.envPool)
    && (forall i | 0 <= i < |s.envPool| :: s.envPool[i] > 0 && s.envPool[i] !in s.envs)
  }
}
