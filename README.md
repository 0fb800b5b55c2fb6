# JOS system calls and copy-on-write fork

A Dafny model of two parts of a JOS teaching kernel (MIT 6.828 labs):

- the kernel's system-call layer for address spaces and IPC
  (`kern/syscall.c`): `sys_exofork`, `sys_env_set_status`,
  `sys_env_set_trapframe`, `sys_env_set_pgfault_upcall`, `sys_page_alloc`,
  `sys_page_map`, `sys_page_unmap`, `sys_ipc_try_send`, `sys_ipc_recv`,
  `sys_getenvid` and the `syscall` dispatcher;
- the user-level copy-on-write `fork` library (`lib/fork.c`): the page
  fault handler `pgfault`, `duppage` and `fork`.

## Layout

| file | module | contents |
|---|---|---|
| `mmu.dfy` | `Mmu` | word types, constants (`PGSIZE`, `UTOP`, `PTE_*`, `E_*`, `ENV_*`), page-table entry layout, `ROUNDDOWN`, signed casts |
| `pmap.dfy` | `Pmap` | the kernel state `KState` (environment table, running environment, free frame list, frame contents, next envids), the interfaces of `envid2env`, `page_alloc`, `page_free`, `page_lookup`, `page_insert`, `page_remove`, reads through `uvpt`/`uvpd`, and the kernel invariant `Valid` |
| `syscall.dfy` | `Syscall` | one transition function per system call and the dispatcher |
| `kern.dfy` | `Kern` | class `Kernel`: the same system calls performed in place on its fields, each proved equal to its transition function |
| `syscall_props.dfy` | `SyscallProps` | what the system calls promise: error cases, invariant preservation, the IPC handshake, and the places where the code is weaker than its comments |
| `fork.dfy` | `ForkSpec` | `duppage`, the page walk of `fork`, the end of `fork`, and `pgfault`, as functions over the kernel state |
| `fork_props.dfy` | `ForkProps` | `duppage`'s effect on both address spaces, and the page walk: which pages it duplicates, what it leaves alone, and that it keeps the invariant |
| `fork_child_props.dfy` | `ForkChildProps` | what `fork` as a whole gives the child and leaves of the parent |
| `pgfault_props.dfy` | `PgFaultProps` | what the fault handler does |
| `libfork.dfy` | `LibFork` | `pgfault`, `duppage` and `fork` as the library runs them, loops included, through a `Kernel` object, each proved to agree with `ForkSpec` |

The state is one `KState` value: a map from envids to environments (the
fields of `struct Env` that the core touches, with the address space as a set
of present page tables and a map from page address to 32-bit PTE word), the
running environment, `page_free_list` as a sequence of frame numbers, frame
contents, and the envids `env_alloc` will hand out. A system call is a
function from a state and its arguments to a `SysResult` (the value returned
to the caller and the new state); user code that may panic is a function to a
`Run` (`Panic`, or a return value and the state).

Where the comments in the source (and the documented behaviour of JOS)
promise more than the code does, the model follows the code:
`sys_page_map` does not reject permission bits outside `PTE_SYSCALL` (the
check is commented out); `sys_ipc_try_send` rejects a permission only when
`PTE_U` and `PTE_P` are both clear and some bit outside `PTE_SYSCALL` is set,
never checks `PTE_W` against the source page, and ignores a failing
`page_insert` while still recording the permission; `sys_env_set_trapframe`
returns -1, not `-E_INVAL`, for an `eip` at or above `UTOP`. Lemmas in
`SyscallProps` state each of these outright. `fork` installs the
child's upcall before allocating its exception stack, the reverse of the
documented order of its steps. That is a departure from the description,
not a promise the code fails to keep; `ForkChildProps.ForkFinishSteps`
states the order as written.

## Model

| member | source | states |
|---|---|---|
| `Mmu.RoundDown` | lib/fork.c:57 | the result is page-aligned and is the start of the page holding the address |
| `Mmu.MkPte` | kern/syscall.c:249 | the entry `page_insert` writes points at the given frame, carries the low 12 bits of `perm` plus `PTE_P` in its flag bits and is present |
| `Mmu.MkPteOwnEntry` | lib/fork.c:109 | passing a whole PTE (frame address included) as the permission of a remap onto its own frame writes back exactly that word |
| `Mmu.Signed` | kern/syscall.c:554 | the `(envid_t)`/`(int)` casts of the dispatcher: the value lies in the signed 32-bit range and agrees with the register modulo 2^32 |
| `Pmap.SetEnv` | kern/syscall.c:130 | writing one environment's record changes that entry of the table and nothing else |
| `Pmap.EnvidToEnv` | kern/syscall.c:119-123 | envid 0 is the caller; any other envid resolves to itself exactly when it is in the table, not free, and (with the permission check) is the caller or the caller's child |
| `Pmap.PageAlloc` | kern/syscall.c:243-247 | fails exactly on an empty free list; otherwise hands out the head frame, removes it from the list and zeroes it |
| `Pmap.PageFree` | kern/syscall.c:250-251 | the frame goes back to the head of the free list and nothing else changes |
| `Pmap.PageLookup` | kern/syscall.c:317-321 | finds a PTE exactly when one is recorded at the address with `PTE_P` set, and returns that PTE |
| `Pmap.PageInsert` | kern/syscall.c:249 | fails with `-E_NO_MEM` (changing nothing) exactly when a page table is needed and the free list is empty; otherwise maps the frame at the address in that environment only, using one frame for a new page table |
| `Pmap.PageRemove` | kern/syscall.c:365 | removes the mapping at the address of one environment, and nothing else |
| `Syscall.SysGetenvid` | kern/syscall.c:43-46 | returns an envid that is in the table |
| `Syscall.SysExofork` | kern/syscall.c:77-96 | `-E_NO_FREE_ENV` or `-E_NO_MEM` with no change when `env_alloc` cannot proceed; otherwise returns the next envid, which joins the table, and uses one frame |
| `Syscall.SysEnvSetStatus` | kern/syscall.c:106-134 | never adds or removes an environment and never touches memory or the free list |
| `Syscall.SysEnvSetTrapframe` | kern/syscall.c:144-163 | returns 0 exactly when the envid resolves with permission and `eip` is below `UTOP`; a failure changes nothing; never adds or removes an environment and never touches memory or the free list; `SyscallProps.SetTrapframeChecks` gives the whole new state |
| `Syscall.UserMode` | kern/syscall.c:158-160 | the installed frame has interrupts enabled and CPL 3, and every other bit, `eip` and `eax` as the user gave them |
| `Syscall.SysEnvSetPgfaultUpcall` | kern/syscall.c:174-190 | returns 0 or `-E_BAD_ENV`, 0 exactly when the envid resolves with permission; a failure changes nothing; no address space changes; `SyscallProps.SetPgfaultUpcallChecks` gives the whole new state |
| `Syscall.SysPageAlloc` | kern/syscall.c:209-258 | a failure leaves the table and the free list as they were; a success means the target resolved, one or two free frames were available, the head frame is mapped at `va` with `perm` in the target only, and that frame is zeroed |
| `Syscall.SysPageMap` | kern/syscall.c:277-336 | a failure changes nothing; a success means both envids resolved, `srcva` is mapped, and the result is `page_insert` of the source frame into the destination |
| `Syscall.SysPageUnmap` | kern/syscall.c:346-369 | a failure changes nothing; a success means the envid resolved and `va` is a user page address; the free list and memory never change |
| `Syscall.IpcDeliver` | kern/syscall.c:450-462 | the receiver gets the sender as `from`, the value, `recving` cleared, `eax` 0 and RUNNABLE; its `ipc_perm` becomes `perm` only when a page went across; its other registers, mappings, `dstva`, parent and upcall stay; nothing else changes |
| `Syscall.SysIpcTrySend` | kern/syscall.c:410-466 | a failure changes nothing; no environment is added or removed and memory is untouched; a success needs a receiving target and changes no other environment; when `srcva` and the receiver's `dstva` are below `UTOP` and `page_insert` finds or gets a page table, the receiver maps the sender's `srcva` frame at `dstva` with `perm`, and otherwise its mappings and the free list are untouched |
| `Syscall.SysIpcRecv` | kern/syscall.c:480-495 | a failure changes nothing; no environment is added or removed |
| `Syscall.Dispatch` | kern/syscall.c:525-591 | an out-of-core syscall (`cputs`, `cgetc`, `env_destroy`, `yield`, `time_msec`, the network calls) leaves the state its own code leaves, given as a parameter; no core syscall removes an environment or switches the running one |
| `Kern.Kernel.PageAlloc` | kern/syscall.c:243-247 | performs `page_alloc` in place, as `Pmap.PageAlloc` specifies |
| `Kern.Kernel.PageFree` | kern/syscall.c:250-251 | performs `page_free` in place |
| `Kern.Kernel.PageInsert` | kern/syscall.c:249 | performs `page_insert` in place |
| `Kern.Kernel.PageRemove` | kern/syscall.c:365 | performs `page_remove` in place |
| `Kern.Kernel.SysExofork` | kern/syscall.c:77-96 | updates the kernel in place and returns what `Syscall.SysExofork` specifies |
| `Kern.Kernel.SysEnvSetStatus` | kern/syscall.c:106-134 | updates the kernel in place as `Syscall.SysEnvSetStatus` specifies |
| `Kern.Kernel.SysEnvSetTrapframe` | kern/syscall.c:144-163 | updates the kernel in place as `Syscall.SysEnvSetTrapframe` specifies: only the target's frame changes, to the user's frame at CPL 3 with interrupts on (`SyscallProps.SetTrapframeChecks`) |
| `Kern.Kernel.SysEnvSetPgfaultUpcall` | kern/syscall.c:174-190 | updates the kernel in place as `Syscall.SysEnvSetPgfaultUpcall` specifies: only the target's upcall changes, to `func` (`SyscallProps.SetPgfaultUpcallChecks`) |
| `Kern.Kernel.SysPageAlloc` | kern/syscall.c:209-258 | updates the kernel in place as `Syscall.SysPageAlloc` specifies, freeing the frame again when `page_insert` fails |
| `Kern.Kernel.SysPageMap` | kern/syscall.c:277-336 | updates the kernel in place as `Syscall.SysPageMap` specifies |
| `Kern.Kernel.SysPageUnmap` | kern/syscall.c:346-369 | updates the kernel in place as `Syscall.SysPageUnmap` specifies |
| `Kern.Kernel.SysIpcTrySend` | kern/syscall.c:410-466 | updates the kernel in place as `Syscall.SysIpcTrySend` specifies |
| `Kern.Kernel.Deliver` | kern/syscall.c:445-464 | writes the receiver's IPC fields, saved `eax` and status in place |
| `Kern.Kernel.SysIpcRecv` | kern/syscall.c:480-495 | updates the kernel in place as `Syscall.SysIpcRecv` specifies |
| `Kern.Kernel.Dispatch` | kern/syscall.c:525-591 | dispatches in place to the method for the syscall number, and for an out-of-core syscall installs the state its own code leaves, as `Syscall.Dispatch` specifies |
| `SyscallProps.ValidAfterDrop` | kern/syscall.c:243-247 | taking frames off the free list keeps the kernel invariant |
| `SyscallProps.ValidAfterInsert` | kern/syscall.c:249 | mapping a frame that is not on the free list keeps the kernel invariant (no mapped frame is free, no frame is listed twice) |
| `SyscallProps.ValidAfterExofork` | kern/syscall.c:77-96 | `sys_exofork` keeps the kernel invariant |
| `SyscallProps.ValidAfterSetStatus` | kern/syscall.c:106-134 | `sys_env_set_status` keeps the kernel invariant |
| `SyscallProps.ValidAfterSetTrapframe` | kern/syscall.c:144-163 | `sys_env_set_trapframe` keeps the kernel invariant |
| `SyscallProps.ValidAfterSetPgfaultUpcall` | kern/syscall.c:174-190 | `sys_env_set_pgfault_upcall` keeps the kernel invariant |
| `SyscallProps.ValidAfterPageAlloc` | kern/syscall.c:209-258 | `sys_page_alloc` keeps the kernel invariant, including on the path that frees the frame again |
| `SyscallProps.ValidAfterPageMap` | kern/syscall.c:277-336 | `sys_page_map` keeps the kernel invariant |
| `SyscallProps.ValidAfterPageUnmap` | kern/syscall.c:346-369 | `sys_page_unmap` keeps the kernel invariant |
| `SyscallProps.ValidAfterDeliver` | kern/syscall.c:445-464 | delivering a message keeps the kernel invariant |
| `SyscallProps.ValidAfterIpcTrySend` | kern/syscall.c:410-466 | `sys_ipc_try_send` keeps the kernel invariant |
| `SyscallProps.ValidAfterIpcRecv` | kern/syscall.c:480-495 | `sys_ipc_recv` keeps the kernel invariant |
| `SyscallProps.ValidAfterDispatch` | kern/syscall.c:525-591 | every core syscall the dispatcher reaches keeps the kernel invariant |
| `SyscallProps.DispatchUnknown` | kern/syscall.c:586-587 | a syscall number past the last one gets `-E_INVAL` and changes nothing |
| `SyscallProps.DispatchGetenvid` | kern/syscall.c:540-541 | `SYS_getenvid` returns the caller's envid and changes nothing |
| `SyscallProps.ExoforkChild` | kern/syscall.c:87-95 | the new environment is fresh, a child of the caller, NOT_RUNNABLE, with the caller's registers and `eax` 0, an empty address space, no upcall and not receiving; no existing environment changes |
| `SyscallProps.SetStatusChecks` | kern/syscall.c:119-131 | an unresolvable envid, or one that is neither the caller nor its child, gives `-E_BAD_ENV`; a status other than RUNNABLE/NOT_RUNNABLE gives `-E_INVAL`; otherwise it returns 0 and the new state is the old one with only the target's status set |
| `SyscallProps.SetTrapframeChecks` | kern/syscall.c:144-163 | `-E_BAD_ENV` with no change for an unresolvable envid, -1 with no change for an `eip` at or above `UTOP`; otherwise returns 0 and the new state is the old one with only the target's frame replaced by `UserMode` of the user's frame (`eip` and `eax` as given, CPL 3, interrupts on): the target's other fields and every other environment are kept |
| `SyscallProps.SetPgfaultUpcallChecks` | kern/syscall.c:174-190 | `-E_BAD_ENV` with no change when the envid does not resolve to the caller or a child of it; otherwise returns 0 and the new state is the old one with only the target's upcall set to `func`; envid 0 always sets the caller's own upcall |
| `SyscallProps.PageAllocErrors` | kern/syscall.c:222-241 | `-E_BAD_ENV` for an unresolvable envid; `-E_INVAL` (changing nothing) exactly for a bad address or a permission without `PTE_U` and `PTE_P` or with bits outside `PTE_SYSCALL` |
| `SyscallProps.PageAllocOutOfMemory` | kern/syscall.c:243-256 | with valid arguments, success exactly when the free list holds the page plus any page table needed; otherwise `-E_NO_MEM` with the table and free list unchanged |
| `SyscallProps.PageAllocNoLeak` | kern/syscall.c:243-256 | a failure returns every frame; a success maps at `va`, with exactly `perm`, a zeroed frame that no address space mapped before and that is off the free list |
| `SyscallProps.PageMapSameFrame` | kern/syscall.c:317-328 | a successful map makes the destination PTE point at the source frame with `perm` plus `PTE_P`, and never writable unless the source is writable |
| `SyscallProps.PageMapErrors` | kern/syscall.c:296-326 | with resolvable envids, `-E_INVAL` exactly for a bad address, a permission without `PTE_U` and `PTE_P`, an unmapped source, or a write permission on a read-only source |
| `SyscallProps.PageMapKeepsNonSyscallBits` | kern/syscall.c:309-314 | as written, a permission with flag bits outside `PTE_SYSCALL` (those of `PTE_FLAGS & !PTE_SYSCALL`) is accepted and those bits land in the destination PTE |
| `SyscallProps.PageUnmapOnlyThat` | kern/syscall.c:360-365 | `-E_INVAL` exactly for a bad address; otherwise `va` is unmapped, every other mapping and page table of the target is kept, and no other environment changes |
| `SyscallProps.PageUnmapUnmapped` | kern/syscall.c:365 | unmapping an address that is not mapped succeeds and changes nothing |
| `SyscallProps.PageUnmapIdempotent` | kern/syscall.c:346-369 | a second identical unmap returns what the first did and changes nothing more |
| `SyscallProps.TrySendNotRecv` | kern/syscall.c:420-422 | a receiver that is not waiting gives `-E_IPC_NOT_RECV` before any check on `srcva` or `perm`, and nothing changes |
| `SyscallProps.TrySendAnyTarget` | kern/syscall.c:416 | any live environment may be sent to: `-E_BAD_ENV` never comes back for it, parent or not |
| `SyscallProps.TrySendDelivers` | kern/syscall.c:438-464 | a successful send was to a waiting receiver, which now has the sender's envid and the value, is no longer waiting, is RUNNABLE with `eax` 0 and its other registers kept, and holds `perm` exactly when a page went across (0 otherwise); its `dstva`, parent and upcall stay |
| `SyscallProps.AtMostOneSender` | kern/syscall.c:420-422 | after one successful send, any later send to the same receiver, by any environment, gets `-E_IPC_NOT_RECV` and changes nothing |
| `SyscallProps.RecvBlocks` | kern/syscall.c:483-492 | `-E_INVAL` exactly for an unaligned `dstva` below `UTOP`; otherwise the caller is waiting, NOT_RUNNABLE, with `dstva` recorded and `perm` cleared; the new state is the old one with only those four fields of the caller changed, and `-E_INVAL` changes nothing |
| `SyscallProps.RecvThenSendValue` | kern/syscall.c:480-495 | a receive followed by a page-less send from another environment delivers that sender and value with `perm` 0 and wakes the receiver |
| `SyscallProps.TrySendMapsWithoutUser` | kern/syscall.c:429-435 | as written, a permission of 0 (which `sys_page_alloc` refuses) passes, and the page is mapped into the receiver without `PTE_U` |
| `SyscallProps.TrySendNoWriteCheck` | kern/syscall.c:438-445 | as written, a read-only page can be sent with `PTE_W` and lands writable in the receiver, on the same frame |
| `SyscallProps.TrySendIgnoresInsertFailure` | kern/syscall.c:445-450 | as written, when `page_insert` runs out of memory the send still returns 0, the receiver's address space is unchanged, and `perm` is recorded as if a page had arrived |
| `ForkSpec.OrPanic` | lib/fork.c:53-55 | a syscall result becomes a panic exactly when it is negative, and is passed on unchanged otherwise |
| `ForkSpec.SharesAsIs` | lib/fork.c:95 | a `PTE_SHARE` page is always mapped as it is; any other page exactly when it is neither writable nor copy-on-write |
| `ForkSpec.ChildPerm` | lib/fork.c:95-103 | the child's permission never has bits outside `PTE_SYSCALL`, keeps `PTE_U` and `PTE_P` of the PTE, is writable only if the page is; for a shared or read-only page it keeps the page's `PTE_W`, `PTE_COW`, `PTE_SHARE`; otherwise it is read-only copy-on-write and not shared |
| `ForkSpec.ParentRemapPerm` | lib/fork.c:109 | the parent's remap keeps the frame address and `PTE_U` and `PTE_P` of the PTE, clears `PTE_W` and sets `PTE_COW` |
| `ForkSpec.DupPage` | lib/fork.c:82-116 | when it returns, no environment was added or removed and the running environment is the same |
| `ForkSpec.DupOrPanic` | lib/fork.c:167-169 | when the loop body does not panic it returns 0 with the same environments |
| `ForkSpec.Qualifies` | lib/fork.c:155-165 | a page the walk selects is mapped and present in the caller and is not the exception stack page |
| `ForkSpec.ForkLoop` | lib/fork.c:155-171 | when the page walk does not panic it returns 0 with the same environments and the same running environment |
| `ForkSpec.ForkFinish` | lib/fork.c:173-185 | when the end of `fork` does not panic it returns the child's envid with the same environments |
| `ForkSpec.ForkAfterExofork` | lib/fork.c:140-185 | a negative `sys_exofork` result panics; the child (which sees 0) returns 0 at once with nothing changed; the parent returns the child's envid |
| `ForkSpec.ForkCall` | lib/fork.c:135-187 | `fork` returns only when `sys_exofork` found an envid and a frame, and then returns that envid with the table grown by exactly it and the same running environment |
| `ForkSpec.UserCopyPage` | lib/fork.c:57 | the frame behind the destination page now holds what the frame behind the source page held; page tables and the free list are unchanged |
| `ForkSpec.PgFaultCopy` | lib/fork.c:53-65 | when the repair returns, it returns 0 with the same environments and running environment, and the repaired page (unless it is `PFTEMP` itself) is mapped user, present and writable |
| `ForkSpec.PgFault` | lib/fork.c:15-68 | the handler returns only for a write fault on a user-present copy-on-write page; it then returns 0 with the same environments, and the faulting page (unless it is `PFTEMP`) is mapped user, present and writable |
| `ForkProps.PdxOfPage` | lib/fork.c:155-161 | page number `pn` lies in the page table the outer loop tests, `pn / NPTENTRIES` |
| `ForkProps.MkPteCow` | lib/fork.c:103-109 | the PTE written for a permission has that permission's `PTE_W` and `PTE_COW` bits |
| `ForkProps.OnlyPgdirsTrans` | lib/fork.c:155-171 | "only page tables changed" composes over successive steps |
| `ForkProps.FrameTrans` | lib/fork.c:155-171 | "only page tables changed, and the exception stack page did not" composes over successive steps |
| `ForkProps.SameAtTrans` | lib/fork.c:155-171 | "the mapping at an address did not change" composes over successive steps |
| `ForkProps.PageInsertTouchesOnly` | lib/fork.c:96 | a successful `page_insert` changes only page tables, only at its address, and adds at most that address's page table |
| `ForkProps.PageMapTouchesOnly` | lib/fork.c:96 | a successful `sys_page_map` changes only page tables, only at the destination address, and adds at most that address's page table |
| `ForkProps.DupPageRejects` | lib/fork.c:89-92 | a page that is not user-present gives `-E_INVAL` and changes nothing |
| `ForkProps.DupPageTouchesOnly` | lib/fork.c:82-116 | `duppage` changes only page tables, only at its page's address, and adds at most that address's page table |
| `ForkProps.DupPageKeepsPresent` | lib/fork.c:82-116 | `duppage` does not change whether the parent's PTE for the page is present |
| `ForkProps.DupPageShared` | lib/fork.c:95-101 | a shared or read-only page is mapped into the child on the same frame with the page's own syscall-settable bits, and the parent's environment is untouched |
| `ForkProps.DupPageCowMaps` | lib/fork.c:103-115 | for any other page, when `duppage` returns both `sys_page_map` calls succeeded and it returns 0 with the state the second leaves |
| `ForkProps.PageMapFromSelf` | lib/fork.c:96 | a successful map from the caller's own address is `page_insert` of the caller's frame at that address |
| `ForkProps.InsertKeepsFrameAt` | lib/fork.c:109 | remapping an address keeps pointing it at the same frame when the same frame is inserted |
| `ForkProps.DupPageCowInserts` | lib/fork.c:103-115 | the copy-on-write path is two successful `page_insert` calls of the page's frame: into the child, then over the parent's own mapping |
| `ForkProps.InsertTwiceCow` | lib/fork.c:103-115 | after the two inserts both the child and the parent map the frame at the address read-only and copy-on-write |
| `ForkProps.DupPageCopyOnWrite` | lib/fork.c:103-115 | after `duppage` of a writable or copy-on-write page that is not shared, child and parent map the same frame at the page, both without `PTE_W` and with `PTE_COW` |
| `ForkProps.DupPageValid` | lib/fork.c:82-116 | `duppage` keeps the kernel invariant |
| `ForkProps.DupPageKeepsQualifies` | lib/fork.c:155-165 | `duppage` does not change which pages the page walk will hand to `duppage` |
| `ForkProps.QualifiesAfterChangeAt` | lib/fork.c:155-165 | a change only at one page, keeping its page table and its presence, does not change which pages the page walk selects |
| `ForkProps.UvptSameExcept` | lib/fork.c:161 | a change only at one page leaves every other `uvpt` entry as it was |
| `ForkProps.QualifiesFromPtes` | lib/fork.c:155-165 | the same page tables and the same `uvpt` entries (presence at one page) give the same selected pages |
| `ForkProps.DupOrPanicIsDupPage` | lib/fork.c:167-169 | a loop body that does not panic is a `duppage` that returned a non-negative value |
| `ForkProps.DupOrPanicKeepsQualifies` | lib/fork.c:155-169 | the loop body does not change which pages the walk selects |
| `ForkProps.DupOrPanicTouchesOnly` | lib/fork.c:155-169 | the loop body changes only page tables and never the exception stack page |
| `ForkProps.Qualifying` | lib/fork.c:155-165 | the pages the walk selects from `pn` on are user pages from `pn` on |
| `ForkProps.QualifyingMembers` | lib/fork.c:155-165 | a page is selected exactly when it is at or after `pn`, below `UTOP`, its page table and PTE are present, and it is not the exception stack page |
| `ForkProps.QualifyingIncreasing` | lib/fork.c:155-159 | the walk visits the selected pages in strictly increasing order |
| `ForkProps.DupAll` | lib/fork.c:167-169 | duplicating a list of pages one by one keeps the environments and the running environment |
| `ForkProps.QualifyingSame` | lib/fork.c:155-165 | the same selection predicate gives the same list of selected pages |
| `ForkProps.ForkLoopDupsSkip` | lib/fork.c:156-165 | a page the walk does not select is skipped with no effect |
| `ForkProps.QualifyingAt` | lib/fork.c:155-165 | a selected page heads the list of selected pages from it on |
| `ForkProps.DupAllCons` | lib/fork.c:167-169 | duplicating a list is the loop body on its head, then the rest, or a panic |
| `ForkProps.DupOrPanicQualifying` | lib/fork.c:155-169 | the loop body leaves the list of pages still to visit unchanged |
| `ForkProps.ForkLoopTakeStep` | lib/fork.c:159-169 | at a selected page the walk runs the loop body and continues from its state, or panics |
| `ForkProps.ForkLoopDupAllStep` | lib/fork.c:159-169 | the walk and the list-wise duplication take the same step at a selected page |
| `ForkProps.ForkLoopDupsExactly` | lib/fork.c:155-171 | the nested page walk is exactly `duppage` with panic, applied in increasing order to the selected pages and nothing else |
| `ForkProps.ForkLoopDupsExactlyAt` | lib/fork.c:155-171 | the same, from a selected page |
| `ForkProps.ForkLoopDupsEnd` | lib/fork.c:155-171 | past the last page below `UTOP` the walk returns 0 with nothing changed, and no page is left to duplicate |
| `ForkProps.UxstackNeverDuplicated` | lib/fork.c:164-165 | the user exception stack page is never among the pages `fork` duplicates |
| `ForkProps.ForkLoopFrame` | lib/fork.c:155-171 | the page walk changes only page tables and never the exception stack mapping of any environment |
| `ForkProps.ForkLoopFrameAt` | lib/fork.c:155-171 | the same, from a selected page |
| `ForkProps.ForkLoopValid` | lib/fork.c:155-171 | the page walk keeps the kernel invariant |
| `ForkProps.ForkLoopValidAt` | lib/fork.c:155-171 | the same, from a selected page |
| `ForkProps.DuplicatedSameAt` | lib/fork.c:155-171 | what `duppage` left at a page survives any later step that keeps the mappings at that address |
| `ForkProps.ChildStays` | lib/fork.c:155-171 | a live child of the caller stays one across steps that change only page tables |
| `ForkProps.DupOrPanicDuplicates` | lib/fork.c:82-116 | a loop body that returns leaves the page duplicated: child and parent map the page's frame at its address; a shared or read-only page has its syscall bits in the child and its entry unchanged in the parent; any other page is read-only and copy-on-write in both |
| `ForkProps.DupOrPanicKeepsOthers` | lib/fork.c:155-169 | a loop body that returns changes no mapping away from its page and no other `uvpt` entry, and the child stays a live child of the caller |
| `ForkProps.KeepsBelowStep` | lib/fork.c:155-171 | mappings kept away from page `pn` by one step, and below page `pn + 1` by the rest of the walk, are kept below page `pn` |
| `ForkProps.ForkLoopKeepsBelow` | lib/fork.c:155-171 | the walk from page `pn` on changes no mapping below page `pn` |
| `ForkProps.ForkLoopKeepsBelowAt` | lib/fork.c:155-171 | the same, from a selected page |
| `ForkProps.DuplicatedCons` | lib/fork.c:155-171 | the page just visited, duplicated from its own entry, and the later pages, duplicated from entries that the visit did not change, are all duplicated from their entries before the visit |
| `ForkProps.DuplicatesStep` | lib/fork.c:159-171 | at a selected page: that page duplicated by the loop body and kept by the rest of the walk, with the later pages duplicated by the rest of the walk, gives every selected page duplicated |
| `ForkProps.ForkLoopDuplicates` | lib/fork.c:155-171 | when the walk returns, every page it selected is duplicated into the child, judged from the page's entry when the walk began |
| `ForkProps.ForkLoopDuplicatesAt` | lib/fork.c:155-171 | the same, from a selected page |
| `ForkChildProps.ForkFinishSteps` | lib/fork.c:173-183 | for a live child of the caller, the upcall copy always succeeds and changes only the child's upcall; after a successful exception stack allocation, marking the child RUNNABLE succeeds; so only the allocation can make the end of `fork` panic |
| `ForkChildProps.ForkFinishPanics` | lib/fork.c:173-183 | the end of `fork` panics exactly when the free list cannot supply the exception stack page and any page table it needs, counting `fork`'s system calls only |
| `ForkChildProps.ForkFinishResult` | lib/fork.c:173-185 | the child becomes RUNNABLE with the parent's upcall and a fresh zeroed user, present and writable exception stack page mapped nowhere else; no other environment changes; the invariant holds |
| `ForkChildProps.FinishAfterAlloc` | lib/fork.c:177-183 | from the state after the upcall copy, the allocation and RUNNABLE give the child exactly that record and keep the invariant |
| `ForkChildProps.OwnedAfterAlloc` | lib/fork.c:177 | a frame no address space mapped before, mapped at one address of the child, is mapped only there |
| `ForkChildProps.ForkResult` | lib/fork.c:135-187 | `fork` panics with no envid or no free frame; when it returns, the child is the next envid, new, a child of the caller, RUNNABLE, with the parent's registers, `eax` 0, the parent's upcall and a private zeroed writable exception stack page; every page the walk selected is duplicated (same frame in child and parent; shared or read-only pages keep their syscall bits, others are read-only copy-on-write in both); the parent's registers and status are unchanged; the invariant holds, counting `fork`'s system calls only |
| `ForkChildProps.AfterLoop` | lib/fork.c:155-185 | the child record after the page walk and the end of `fork`, from what `sys_exofork` created and a walk that changed only page tables |
| `ForkChildProps.ForkDuplicates` | lib/fork.c:135-187 | when `fork` returns, every present user page below `UTOP` other than the exception stack page is duplicated into the child: the child maps the parent's frame at the same address; a shared or read-only page keeps its syscall bits in the child and its entry in the parent; any other page is read-only and copy-on-write in both, counting `fork`'s system calls only |
| `ForkChildProps.FinishKeepsOthers` | lib/fork.c:173-185 | the end of `fork` changes no mapping other than at the exception stack page |
| `ForkChildProps.DuplicatesAfterFinish` | lib/fork.c:173-185 | the end of `fork` keeps every duplicated page duplicated |
| `PgFaultProps.PgFaultOnlyCowWrites` | lib/fork.c:29-44 | a read fault, a page not user-present or a page not copy-on-write panics; otherwise the handler repairs the mapped page holding the faulting address |
| `PgFaultProps.PgFaultCopySteps` | lib/fork.c:53-65 | only `sys_page_alloc` can fail; after it, `sys_page_map` and `sys_page_unmap` succeed |
| `PgFaultProps.PgFaultCopyPanics` | lib/fork.c:53-55 | the repair panics exactly when the free list cannot supply the page and any page table for `PFTEMP` |
| `PgFaultProps.PgFaultCopyResult` | lib/fork.c:53-65 | a repair maps a frame no address space mapped before at the faulting page with user, present and writable; that frame holds the old page's contents and no other frame changes; `PFTEMP` is unmapped; no other environment changes; the invariant holds |
| `PgFaultProps.CopyMapUnmap` | lib/fork.c:57-65 | from the state after `sys_page_alloc`, the copy, the map and the unmap give that result |
| `PgFaultProps.MapOverVa` | lib/fork.c:59 | mapping the `PFTEMP` frame over the faulting page succeeds and changes only that mapping |
| `PgFaultProps.PgFaultAtPftemp` | lib/fork.c:57-65 | a repair of the `PFTEMP` page itself leaves that page unmapped |
| `LibFork.MovePage` | lib/fork.c:57 | the `memmove` in place, as `ForkSpec.UserCopyPage` specifies |
| `LibFork.PgFault` | lib/fork.c:15-68 | the handler's syscalls in place; it panics exactly when `ForkSpec.PgFault` does and otherwise leaves its state |
| `LibFork.DupPage` | lib/fork.c:82-116 | `duppage`'s syscalls in place; it panics exactly when `ForkSpec.DupPage` does and otherwise returns its value and leaves its state |
| `LibFork.SkipTable` | lib/fork.c:156-157 | an absent page table is skipped whole: the walk from any of its pages equals the walk from the next table |
| `LibFork.DupStep` | lib/fork.c:159-169 | one page of the inner loop: a negative or panicking `duppage` makes the walk panic; otherwise the walk continues from the state `duppage` leaves and the page table is still present |
| `LibFork.ForkCallSplit` | lib/fork.c:140-185 | after a positive `sys_exofork`, `fork` is the page walk followed by its end |
| `LibFork.ForkFinish` | lib/fork.c:173-185 | the end of `fork` in place; it panics exactly when `ForkSpec.ForkFinish` does and otherwise leaves its state |
| `LibFork.DupTable` | lib/fork.c:159-170 | the inner loop over one present page table: it panics only when the walk does, and otherwise the walk from this table equals the walk from the next table in the state it leaves |
| `LibFork.DupPages` | lib/fork.c:155-171 | the nested loops in place; they panic exactly when `ForkSpec.ForkLoop` does and otherwise leave its state |
| `LibFork.Fork` | lib/fork.c:135-187 | `fork` in place; it panics exactly when `ForkSpec.ForkCall` does and otherwise returns its envid and leaves its state |

## Left out

- `sys_cputs`, `sys_cgetc`, `sys_yield`, `sys_env_destroy`, `sys_time_msec`,
  `sys_net_try_send`, `sys_net_try_receive`: console, scheduler, environment
  teardown, clock and network driver lie outside the core. The dispatcher
  returns 0 for `SYS_cputs` and `SYS_yield`, and a parameter for the rest.
- Syscall numbers: `inc/syscall.h` is not part of this model. The numbers
  follow the JOS enumeration, with the two network calls taken as 15 and 16.
- `user_mem_assert` in `sys_cputs` and the copy of the user's `Trapframe` in
  `sys_env_set_trapframe` are not modelled. The frame the user points at is a
  parameter of the dispatcher.
- Page reference counts are not modelled. `page_remove` and the replacement
  of an existing mapping never return a frame to the free list. The model
  may therefore leak frames that JOS would reclaim; it never reuses a frame
  that is still mapped.
- Kernel mappings above `UTOP`, the `uvpt` self-mapping and the TLB are not
  modelled. `uvpt[pn]` and `uvpd[i]` read the running environment's own page
  tables directly.
- The internals of `env_alloc` (`kern/env.c`, not part of this model) are
  reduced to two facts. The next envid comes from a sequence parameter, and
  one frame is used for the page directory. Envid generations are not
  modelled. The new environment's `env_ipc_from`, `env_ipc_value`,
  `env_ipc_dstva` and `env_ipc_perm` are zero in the model, whereas
  `env_alloc` leaves whatever the previous occupant of the slot had there;
  no property depends on them, since the new environment is not receiving.
- The parts of `struct Env` the core does not touch are not modelled, and
  neither are the trap-frame registers other than `eax`, `eip`, `eflags` and
  `cs`.
- `set_pgfault_handler` (`lib/pgfault.c`, not part of this model): `fork`
  starts from the state it leaves. Trap delivery of a page fault to the
  upcall is not modelled either: `pgfault` is called with the fault address
  and error code.
- `ForkChildProps.ForkResult`, `ForkChildProps.ForkDuplicates` and
  `ForkChildProps.ForkFinishPanics`: they describe `fork` as its system calls
  alone. In JOS the parent keeps running user code between those calls, and
  once `duppage` has remapped a page the parent writes (its stack, at the
  latest when it pushes the arguments of the next call) copy-on-write, that
  write faults and `pgfault` gives the parent a fresh private writable frame
  for the page before `fork` returns. For such a page the parent's entry is
  then not the shared read-only copy-on-write one these lemmas describe, and
  the frames those faults take from the free list are not counted in the
  condition under which the end of `fork` panics. `PgFaultProps` states what
  each such fault does on its own.
- The child's `thisenv = &envs[ENVX(sys_getenvid())]` in `fork`: it writes a
  user-space global that the model does not represent. The child's return
  of 0 is modelled.
- `sfork`: it only panics.
- `cprintf` diagnostics: they have no effect on the state.
- What a panic prints, and the state it leaves: a panic is `Panic`, with no
  state.
- Concurrency: each syscall is one atomic step, and there is one CPU.
- `Syscall.Dispatch`: for the out-of-core syscalls the state left behind is
  a parameter. What `env_destroy`, `sched_yield` and `user_mem_assert` do to
  it (remove an environment, switch the running one, destroy the caller) is
  not modelled, so the dispatcher's contract speaks of the core syscalls only.
- `SyscallProps.ValidAfterDispatch`: the invariant is proved for the core
  syscalls only; the out-of-core ones leave a state the model does not
  compute.
- `Mmu.MkPte`: `page_insert` is taken by its documented interface, in which
  `perm` holds flag bits only. Only the low 12 bits of `perm` reach the PTE;
  JOS would OR higher bits into the frame address as well.
- `SyscallProps.PageMapKeepsNonSyscallBits`: it shows only the flag bits of
  `PTE_FLAGS & !PTE_SYSCALL` reaching the PTE. Bits of `perm` above bit 11
  are dropped by `Mmu.MkPte`, so what they would do to the frame address is
  not shown.
- `SyscallProps.PageAllocOutOfMemory`: on `-E_NO_MEM` the lemma states that
  the environments and the free list are unchanged, not the whole state. The
  frame handed out and freed again stays zeroed in the frame contents.
