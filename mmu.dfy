/**
 * Machine and kernel constants the core relies on: the x86 page geometry, the
 * page-table-entry bits, the user address-space layout, the error codes and
 * the environment status codes of the JOS headers, and the bit arithmetic that
 * packs a physical frame number and permission bits into one 32-bit PTE.
 */
module Mmu {

  /** A 32-bit machine word: registers, permission bits, page-table entries. */
  type Word = bv32

  /** An unsigned 32-bit value read as a number (user virtual addresses). */
  type u32 = x: int | 0 <= x < 0x1_0000_0000

  /** A physical page number; 20 bits, so that it fits above the 12 flag bits. */
  type Frame = f: Word | f < 0x10_0000

  // Page geometry.
  const PGSIZE: int := 4096
  const NPTENTRIES: int := 1024
  const PTSIZE: int := PGSIZE * NPTENTRIES
  const NENV: int := 1024

  // User address-space layout.
  const UTOP: int := 0xEEC0_0000
  /** UTOP as a 32-bit word, for comparisons against register values. */
  const UTOP_WORD: Word := 0xEEC0_0000
  const UXSTACKTOP: int := UTOP
  const UTEMP: int := PTSIZE
  const PFTEMP: int := UTEMP + PTSIZE - PGSIZE
  /** PDX(UTOP) * NPTENTRIES: the page numbers below UTOP. */
  const UTOP_PAGES: int := UTOP / PGSIZE
  /** PGNUM(UXSTACKTOP - PGSIZE): the user exception stack page. */
  const UXSTACK_PN: int := (UXSTACKTOP - PGSIZE) / PGSIZE

  // Page-table-entry bits.
  const PTE_P: Word := 0x001
  const PTE_W: Word := 0x002
  const PTE_U: Word := 0x004
  const PTE_AVAIL: Word := 0xE00
  const PTE_SYSCALL: Word := PTE_AVAIL | PTE_P | PTE_W | PTE_U
  const PTE_SHARE: Word := 0x400
  const PTE_COW: Word := 0x800
  /** The low 12 bits of a PTE: everything but the frame address. */
  const PTE_FLAGS: Word := 0xFFF

  // EFLAGS interrupt-enable bit.
  const FL_IF: Word := 0x200

  // Page-fault error-code bits.
  const FEC_PR: Word := 0x1
  const FEC_WR: Word := 0x2
  const FEC_U: Word := 0x4

  // Error codes; syscalls return their negation.
  const E_UNSPECIFIED: int := 1
  const E_BAD_ENV: int := 2
  const E_INVAL: int := 3
  const E_NO_MEM: int := 4
  const E_NO_FREE_ENV: int := 5
  const E_IPC_NOT_RECV: int := 7

  // Environment status codes as they travel through syscall arguments.
  const ENV_FREE: int := 0
  const ENV_DYING: int := 1
  const ENV_RUNNABLE: int := 2
  const ENV_RUNNING: int := 3
  const ENV_NOT_RUNNABLE: int := 4

  /** PDX: the page-directory index of a virtual address. */
  function PDX(va: int): int { va / PTSIZE }

  /** True of a user address that may name a page: below UTOP and page-aligned. */
  predicate UserPage(va: int) { 0 <= va < UTOP && va % PGSIZE == 0 }

  /** ROUNDDOWN(a, PGSIZE): the start of the page holding a. */
  function RoundDown(a: u32): (r: u32)
    ensures r % PGSIZE == 0 && r <= a < r + PGSIZE
  {
    a - a % PGSIZE
  }

  /** page2pa: the physical address of a frame. */
  function PageAddr(pp: Frame): Word { pp << 12 }

  /** PTE_ADDR(pte) >> PGSHIFT: the frame a page-table entry points at. */
  function PteFrame(pte: Word): Frame { pte >> 12 }

  /**
   * The entry page_insert writes for frame pp with permission perm: the
   * frame's address with perm|PTE_P in the low 12 bits. Only those 12 bits
   * of perm are taken, as page_insert's interface documents perm.
   */
  function MkPte(pp: Frame, perm: Word): (pte: Word)
    ensures PteFrame(pte) == pp
    ensures pte & PTE_FLAGS == (perm | PTE_P) & PTE_FLAGS
    ensures pte & PTE_P != 0
  {
    PageAddr(pp) | ((perm | PTE_P) & PTE_FLAGS)
  }

  /**
   * Re-inserting the frame an entry already points at, with the entry itself
   * as perm, reproduces the entry (up to PTE_P, which it already has).
   */
  lemma MkPteOwnEntry(pte: Word, perm: Word)
    requires perm & !PTE_FLAGS == pte & !PTE_FLAGS
    requires perm & PTE_P != 0
    ensures MkPte(PteFrame(pte), perm) == perm
  {
  }

  /** (envid_t) x: a syscall argument register read as a signed 32-bit id. */
  function Signed(x: u32): (v: int)
    ensures -0x8000_0000 <= v < 0x8000_0000
    ensures v % 0x1_0000_0000 == x
  {
    if x < 0x8000_0000 then x else x - 0x1_0000_0000
  }
}
