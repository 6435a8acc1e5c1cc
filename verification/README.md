# Verified models of JOS, its file system and the pipe sieve

This project models the parts of the operating-systems labs that keep linked state and make promises about
every run, and proves those promises. Section 4.3 (32-Bit Paging) of volume 3A of the Intel 64 and IA-32
Architectures Software Developer's Manual gives the layout of page tables. `dafny verify dfyconfig.toml` checks
everything.

| files | what they model |
|---|---|
| `Mmu`, `RefCount`, `PageInv`, `Kernel`, `AddressSpace`, `UserView` | physical pages, the free list, `pp_ref`, two-level page tables, environments and the system calls on them (class `Kernel` over arrays), what a walk of memory finds, and what user code can reach through it |
| `Envs` | environment ids, generations and `envid2env` |
| `Cow`, `Handlers`, `SharedCounts`, `Fork`, `ForkView` | `fork`, `fork_v0`, `pgfault` as user code over class `Kernel`, `page_fault_handler`, and the eager-copying view they refine |
| `Smp`, `SmpInv`, `Traps`, `Indiscipline`, `Sched`, `Fairness`, `Mail` | several processors, the big kernel lock, environment states, scheduling and messages as a step relation, with the scheduler's loops in place (class `Machine`) |
| `Syscalls` | the system calls of class `Kernel` as steps of the multiprocessor model |
| `Tlb`, `LargePages` | cached translations; `boot_map_region` with and without `TP1_PSE` |
| `Blocks`, `Volume`, `Crash`, `FileData`, `FsSteps`, `Touches`, `BlockCache`, `Fs` | disk blocks as bytes, the bitmap, block ownership, what survives a crash, file contents, the write-back cache and the calls of the file server (classes `BlockCache` and `Fs`) |
| `Format` | `fsformat`, whose image is where the file server starts |
| `Stabs`, `Numbers`, `Primes`, `Pipeline` | `stab_binsearch`; `printnum` and `strtol`; the prime sieve as processes joined by pipes |

How the models are built:

- Class `Kernel` has the fields of the kernel: `pageFreeList`, `ppLink`, `ppRef`, physical memory (each page both
  as 1024 entries, `mem`, and as bytes, `data`), `envFreeList`, `envLink`, `envPgdir`, `envs`, `curenv`. A ghost map
  `refs` records every reference to a page: the directory of a slot, a page table, a user mapping, and the one a
  kernel local may hold inside a call. `Agree` says that `refs` is exactly what a walk of memory finds, `Counts` that
  `pp_ref` is the number of references; both hold between any two steps, and `AddressSpace.ExactReferences` reads
  the result off memory alone. `Inserted`, `Walked` and `Without` are the effects of the calls on that map;
  `UserView` restates the system calls in terms of what the processor lets each environment reach (`View`), without it.
- `Forks.Run` takes any list of operations by any environments, runs the library code on class `Kernel`, and relates
  what every environment reads (`Seen`) to a world in which each fork copies all memory (`IdealRun`). `Ends` gives the
  outcome of each operation from the state before it. `Handled` says that every environment with a copy-on-write page
  has an upcall and an exception stack: the kernel destroys any other at its first store to such a page.
- In `Smp` a step is one processor's trap, exchange on the lock, collection of a DYING environment, dispatch, end of
  trap, rescheduling, release or reading of a message. A run is disciplined if `sys_env_set_status` on another
  environment never finds it RUNNING or DYING, RUNNABLE is never given to one that waits for a message, and no
  environment that is DYING on another processor is destroyed; `SmpInv.DispatchKeepsIff` shows that this is exactly
  what the invariant needs, and `Indiscipline` has a run from boot for each of the ways to violate it.
- A `Volume` lists where the File structures are. `Owned` is an exact correspondence: a map from blocks to the
  pointer slots that name them, and a bitmap that marks precisely the reserved blocks, the named ones and those
  just allocated, and the super block gives the number of blocks. Class `Fs` keeps it, and keeps `Consistent` for every state the disk has ever been in.

Where the code and its comments disagree, or the code does what a reader may not expect, the model follows the code:

- `sched_yield` starts its scan at the current slot, not just after it (kern/sched.c:18-19 and 37). With a current
  environment that has been made RUNNABLE no other environment would get a turn; hence `Fairness.YieldProgressIff`.
- `stab_binsearch` does not return left > right when every entry of the kind is above the address, except when the
  first such entry is the first of the region (kern/kdebug.c:41-43); `Stabs.Answer` states what it returns.
- An exact hit in `stab_binsearch` moves on to the next address, so that entries at both addresses can give the
  wrong one of the two; `Stabs.SearchAnswersIff` says exactly when.
- `env_free` leaves `env_ipc_recving` as it was, so a free slot may still have the flag.
- `fsformat` without files builds a root directory whose block is free in its own bitmap (`Formats.Format`).
- `file_block_walk` does not clear the block it takes as an indirect block (`Volumes.NewIndirectIff`), and
  `file_get_block` does not clear data blocks: holes read as whatever the block held.
- `fork_v0` shares the caller's copy-on-write pages with a child that has no page fault upcall, so that the child's
  first store to one destroys it (`Forks.InheritedPageDestroys`, and exactly when in `Handlers.EagerForkHandledIff`).
- `bc_pgfault` gives `sys_page_map` the address of the fault as it is (fs/bc.c:63), so that the first touch of a block
  off its start panics (`BlockCaches.BlockCache.Load`); the super block and the first block of the bitmap are mapped at
  start, and every later block of a transfer is touched first at its first byte.
- `user_mem_check` rounds its end up in 32 bits, so that a range ending in the last page is never looked at
  (`Kernels.WrappedRange`).
- `ipc_recv` and `sys_ipc_recv` without a page leave the old `env_ipc_dstva`, so a page can still arrive there.

## Model

| member | source | states |
|---|---|---|
| AddressSpace.ExactReferences | TP JOS/bilbao_vilardo-entrega_tp3/kern/pmap.c:374-419 | whenever the kernel invariant holds, pp_ref of every unreserved page is the number of references a walk of memory from every env_pgdir finds (directories, page tables, user mappings), and the page is on the free list exactly when there is none |
| AddressSpace.FoundIsReferred | TP JOS/bilbao_vilardo-entrega_tp3/kern/pmap.c:374-419 | the ghost record of references is exactly the set found by walking the paging structures in memory |
| AddressSpace.WalkIsFlat | TP JOS/bilbao_vilardo-entrega_tp3/kern/pmap.c:443-579 | the processor's two-level walk and the flat map of user mappings give every address below UTOP the same entry |
| AddressSpace.FreedExactly | TP JOS/bilbao_vilardo-entrega_tp3/kern/env.c:423-470 | after env_free a page is free exactly when every reference to it belonged to that environment; pages free before stay free |
| PageInv.PopFree | TP JOS/bilbao_vilardo-entrega_tp3/kern/pmap.c:374-389 | taking the head off pp_link leaves an acyclic list without duplicates that spells out the rest, and the page taken is unreserved and not on it |
| PageInv.PushFree | TP JOS/bilbao_vilardo-entrega_tp3/kern/pmap.c:395-408 | a page that is not on the free list has a null pp_link, and pushing it keeps the list acyclic and free of duplicates |
| PageInv.DoubleFreeDetectedIff | TP JOS/bilbao_vilardo-entrega_tp3/kern/pmap.c:401-407 | page_free's null test of pp_link catches a second free of a listed page exactly when the page is not the tail of the list |
| PageInv.InstallTable | TP JOS/bilbao_vilardo-entrega_tp3/kern/pmap.c:443-465 | storing a directory entry for a zeroed, unreferenced page adds one page-table reference and no mapping to what a walk finds |
| PageInv.StoreLeaf | TP JOS/bilbao_vilardo-entrega_tp3/kern/pmap.c:541-555 | storing a page table entry adds exactly that mapping to what a walk finds, in its own environment only |
| PageInv.ClearLeaf | TP JOS/bilbao_vilardo-entrega_tp3/kern/pmap.c:596-608 | clearing a page table entry removes exactly that mapping from what a walk finds |
| PageInv.ClearTable | TP JOS/bilbao_vilardo-entrega_tp3/kern/env.c:456-458 | clearing the directory entry of a page table that maps nothing removes exactly that reference |
| PageInv.InstallDir | TP JOS/bilbao_vilardo-entrega_tp3/kern/env.c:188-195 | a copy of kern_pgdir with UVPT redirected is a directory with an empty user half, for a slot that had none |
| PageInv.ClearDir | TP JOS/bilbao_vilardo-entrega_tp3/kern/env.c:461-464 | clearing env_pgdir once its user half is empty removes exactly that reference |
| PageInv.ScribbleUnreferenced | TP JOS/bilbao_vilardo-entrega_tp3/kern/pmap.c:374-389 | zeroing a page nobody references disturbs no paging structure |
| PageInv.TakeCounts | TP JOS/bilbao_vilardo-entrega_tp3/kern/pmap.c:541-555 | pp_ref++ before the entry is stored keeps all counts exact and inside 16 bits |
| PageInv.DropCounts | TP JOS/bilbao_vilardo-entrega_tp3/kern/pmap.c:414-419 | --pp_ref after the entry is cleared keeps all counts exact; the page becomes free to push exactly at 0 |
| PageInv.IncrementExactIff | TP JOS/bilbao_vilardo-entrega_tp3/kern/pmap.c:541-555 | the 16-bit pp_ref++ keeps the counts exact exactly if the page had fewer than 0xFFFF references; otherwise the count of a page with 2^16 references becomes 0 |
| Kernels.Kernel.constructor | TP JOS/bilbao_vilardo-entrega_tp3/kern/pmap.c:327-360 | page_init and env_init establish the whole invariant; the free pages are exactly pages 1 to 0x9F without page 7 and those from the end of the kernel on, and env_free_list is in the order of envs[] |
| Kernels.Kernel.PageInit | TP JOS/bilbao_vilardo-entrega_tp3/kern/pmap.c:312-360 | the free list is well formed and holds exactly the pages page_init is to make free |
| Kernels.Kernel.EnvInit | TP JOS/bilbao_vilardo-entrega_tp3/kern/env.c:114-129 | env_free_list is the chain of all slots in the order of envs[] |
| Kernels.Kernel.PageAlloc | TP JOS/bilbao_vilardo-entrega_tp3/kern/pmap.c:374-389 | returns the head of the free list, referenced by nobody, zeroed if asked; None exactly when the list is empty, and then nothing changes |
| Kernels.Kernel.PageFree | TP JOS/bilbao_vilardo-entrega_tp3/kern/pmap.c:395-408 | neither panic can happen for a page that is off the list without references; it becomes the head of the list |
| Kernels.Kernel.PageDecref | TP JOS/bilbao_vilardo-entrega_tp3/kern/pmap.c:414-419 | drops one reference, and frees the page exactly when no other is left |
| Kernels.Kernel.PgdirWalk | TP JOS/bilbao_vilardo-entrega_tp3/kern/pmap.c:443-465 | finds the entry of va; a missing page table is added below UTOP, in the first free page, only on request, under a directory entry that is present, for users, and writable; on failure nothing changes |
| Kernels.Kernel.PageLookup | TP JOS/bilbao_vilardo-entrega_tp3/kern/pmap.c:568-579 | finds a page exactly when the flat map has one at va, with the place of its entry, and changes nothing |
| Kernels.Kernel.PageRemove | TP JOS/bilbao_vilardo-entrega_tp3/kern/pmap.c:596-608 | removes the mapping of va, frees the page exactly on its last reference, and does nothing where nothing is mapped |
| Kernels.Kernel.PageInsert | TP JOS/bilbao_vilardo-entrega_tp3/kern/pmap.c:541-555 | maps the page at va, releasing what was there; safe for the same page at the same address; fails exactly when a page table is needed and no page is left, and then memory, counts and mappings are unchanged |
| Kernels.Kernel.UserMemCheck | TP JOS/bilbao_vilardo-entrega_tp3/kern/pmap.c:686-707 | for every address and length: 0 exactly when all pages from that of va up to the rounded end, computed in 32 bits, are below ULIM and mapped with all wanted bits; otherwise the address recorded is the least bad one, or va on its own page; no mapping, count or byte changes |
| Kernels.AcceptedRange | TP JOS/bilbao_vilardo-entrega_tp3/kern/pmap.c:686-707 | for a range that is not empty and ends below the last page, accepted means that every address in it is accessible |
| Kernels.WrappedRange | TP JOS/bilbao_vilardo-entrega_tp3/kern/pmap.c:688-693 | a range that reaches the last page or wraps around always has an inaccessible address, yet not all its pages are looked at; one that ends in the last page is accepted unseen |
| Kernels.Kernel.EnvSetupVm | TP JOS/bilbao_vilardo-entrega_tp3/kern/env.c:162-198 | a new directory in the first free page whose only reference is env_pgdir and whose user half is empty; -E_NO_MEM without effect when no page is free |
| Kernels.Kernel.EnvAlloc | TP JOS/bilbao_vilardo-entrega_tp3/kern/env.c:208-273 | takes the first free slot and the first free page; E_NO_FREE_ENV before E_NO_MEM, and neither has an effect |
| Kernels.Kernel.FreeSpace | TP JOS/bilbao_vilardo-entrega_tp3/kern/env.c:440-464 | the nested loop drops every reference the address space holds and no other |
| Kernels.Kernel.EnvFree | TP JOS/bilbao_vilardo-entrega_tp3/kern/env.c:423-470 | the invariant holds again with the slot free and its address space gone; all other references and all data stay |
| Kernels.Kernel.SysPageAlloc | TP JOS/bilbao_vilardo-entrega_tp3/kern/syscall.c:165-198 | the first applicable error decides the result and leaves no trace; otherwise a zeroed page that was free is mapped with perm or'ed with PTE_P or'ed with PTE_U in the target |
| Kernels.Kernel.PageMap | TP JOS/bilbao_vilardo-entrega_tp3/kern/syscall.c:209-247 | all checks in the code's order, no effect on error; otherwise the source's page, which must have room for one more reference, is mapped in the target, and the invariant is kept |
| Kernels.Kernel.SysPageMap | TP JOS/bilbao_vilardo-entrega_tp3/kern/syscall.c:265-277 | page_map with permission checks on both environments |
| Kernels.Kernel.SysPageUnmap | TP JOS/bilbao_vilardo-entrega_tp3/kern/syscall.c:286-302 | errors by address, then by environment; otherwise exactly the mapping of va in the target is gone |
| Kernels.Kernel.SysExofork | TP JOS/bilbao_vilardo-entrega_tp3/kern/syscall.c:78-97 | a not-runnable child of the caller, in a slot that had no directory, without mappings, and which the caller can name by its id |
| Kernels.Kernel.SysEnvSetStatus | TP JOS/bilbao_vilardo-entrega_tp3/kern/syscall.c:106-126 | any status but RUNNABLE and NOT_RUNNABLE is E_INVAL, then E_BAD_ENV; otherwise only the target's status changes |
| Kernels.Kernel.SysEnvSetPgfaultUpcall | TP JOS/bilbao_vilardo-entrega_tp3/kern/syscall.c:136-147 | only the target's upcall changes; the id is checked without permission |
| Kernels.Kernel.SysIpcTrySend | TP JOS/bilbao_vilardo-entrega_tp3/kern/syscall.c:342-371 | every branch: unknown target, target not receiving, failing page transfer (which still clears env_ipc_perm), and delivery with or without a page, each with its exact effect on mappings and envs[] |
| Kernels.Kernel.SysIpcRecv | TP JOS/bilbao_vilardo-entrega_tp3/kern/syscall.c:384-403 | a misaligned address below UTOP is E_INVAL without effect; otherwise the caller waits, and an unwanted page leaves the old env_ipc_dstva in place |
| Envs.Envid2Env | TP JOS/bilbao_vilardo-entrega_tp3/kern/env.c:72-106 | what is found is a live environment with that very id, and with checkperm the caller itself or its child |
| Envs.NthIdClosed | TP JOS/bilbao_vilardo-entrega_tp3/kern/env.c:222-227 | the n-th id of a slot, with 32-bit wrap-around and the reset to 1 << ENVGENSHIFT, is positive, carries the slot in its low bits, and runs through the 2^19 - 1 positive generations in order |
| Envs.StaleIdRejected | TP JOS/bilbao_vilardo-entrega_tp3/kern/env.c:72-106 | an id is accepted exactly while its slot is live under it or under the one 2^19 - 1 allocations later: a stale id is rejected until the slot has been reused that often |
| Envs.FreshId | TP JOS/bilbao_vilardo-entrega_tp3/kern/env.c:222-227 | env_alloc keeps ids well formed and never hands out 0 |
| Kernels.LiveId | TP JOS/bilbao_vilardo-entrega_tp3/kern/env.c:72-106 | a live environment is found by its id from its own slot and from its parent's |
| UserView.AccessIsFlat | TP JOS/bilbao_vilardo-entrega_tp3/kern/pmap.c:443-555 | in every state with the kernel's invariant, at every address below UTOP, the processor's two-level walk with the rights of both levels gives user code exactly the page and the rights of the entry in the flat map: no directory entry takes any away |
| UserView.UvptReadsTables | TP JOS/bilbao_vilardo-entrega_tp3/inc/memlayout.h:150-165 | at UVPT user code reads the pages of its own page tables, the directory among them, and can write none of them |
| UserView.PageAlloc | TP JOS/bilbao_vilardo-entrega_tp3/kern/syscall.c:165-198 | which error, from the arguments, the environments and memory alone; on success one page of the target, and no other of anybody, becomes a zeroed page that nobody reached before, writable exactly if asked |
| UserView.PageMap | TP JOS/bilbao_vilardo-entrega_tp3/kern/syscall.c:209-277 | which error, from the arguments, the environments and memory alone; on success one page of the target, and no other of anybody, becomes the page that the source environment reaches, and is writable only if the source may write it |
| UserView.PageUnmap | TP JOS/bilbao_vilardo-entrega_tp3/kern/syscall.c:286-302 | one page of the target is out of its reach, and nothing else changes for anybody |
| UserView.Exofork | TP JOS/bilbao_vilardo-entrega_tp3/kern/syscall.c:78-97 | the child reaches nothing, is not runnable, has no upcall, waits for nothing and is found by its parent; what others reach and their entries stay |
| UserView.Release | TP JOS/bilbao_vilardo-entrega_tp3/kern/env.c:423-470 | after env_free the environment reaches nothing; what all others reach, and every byte, stay |
| UserView.CheckedIsReached | TP JOS/bilbao_vilardo-entrega_tp3/kern/pmap.c:686-707 | a page below UTOP passes user_mem_check for reading or writing exactly if user code could read or write it itself |
| UserView.Send | TP JOS/bilbao_vilardo-entrega_tp3/kern/syscall.c:342-371 | a send to a waiting environment: which error, where the sender's page arrives and with which rights, that nothing else changes for anybody, and every field of the receiver |
| UserView.ReceiveThenSend | TP JOS/bilbao_vilardo-entrega_tp3/kern/syscall.c:342-403 | sys_ipc_recv and then sys_ipc_try_send: the sender's page arrives exactly at the address the receiver gave if that is below UTOP, else at the one it gave last, and nothing else becomes reachable; a failed send leaves the receiver waiting with that address |
| Forks.Run | TP JOS/bilbao_vilardo-entrega_tp3/lib/fork.c:14-186 | over every sequence of forks of both kinds, stores, allocations and unmaps by any environments, from every state in which no shared page is writable: as long as each operation is done, each environment reads below USTACKTOP what it would read had each fork copied all memory. The run ends early only at an operation whose outcome the state before it explains; if that was a store of an environment that cannot take its fault, the others still see what they would. If at first every environment with a copy-on-write page had a handler, that is still so there, unless a fork_v0 came before |
| Forks.Step | TP JOS/bilbao_vilardo-entrega_tp3/lib/fork.c:14-186 | one operation refines the ideal one or ends as the state before it says; it keeps a handler in every environment with copy-on-write pages exactly if it is not a fork_v0 by an environment that has such pages |
| Forks.PageFaultHandler | TP JOS/bilbao_vilardo-entrega_tp3/kern/trap.c:374-412 | the environment gets to its upcall exactly if it has set one and the processor lets user code write all 56 bytes below UXSTACKTOP, and nothing changes; any other is destroyed, and only its own memory goes |
| Handlers.FrameFits | TP JOS/bilbao_vilardo-entrega_tp3/kern/trap.c:379-387 | the kernel's user_mem_assert for the frame passes exactly if the exception stack is mapped user-writable |
| Forks.Store | TP JOS/bilbao_vilardo-entrega_tp3/lib/fork.c:14-48 | exactly how a store ends: done if the page is writable, or copy-on-write with a handler set and memory left; the library panics if there is a handler but no such page or no memory; the environment is destroyed exactly if the processor does not let it write there and it has no upcall or no exception stack that the processor lets it write. A store that is done is seen by its own environment alone, and a destruction takes away only that environment's memory |
| Forks.UpcallWithoutStack | TP JOS/bilbao_vilardo-entrega_tp3/user/faultnostack.c:7-12 | an upcall without a writable exception stack does not help: the store that faults destroys the environment |
| Forks.SeenIsRead | TP JOS/bilbao_vilardo-entrega_tp3/lib/fork.c:14-186 | what the runs say an environment sees is what the processor lets user code read there |
| Forks.ForkThenStore | TP JOS/bilbao_vilardo-entrega_tp3/lib/fork.c:148-186 | wherever the parent could store before fork, parent and child can store afterwards, unless at most one page is left |
| ForkViews.ForkReads | TP JOS/bilbao_vilardo-entrega_tp3/lib/fork.c:104-186 | after fork or fork_v0 the child reads at every address below USTACKTOP what the parent read, and everybody else what they read before, as the processor walks the page tables |
| ForkViews.StoreReads | TP JOS/bilbao_vilardo-entrega_tp3/lib/fork.c:14-48 | a store that is done, with or without a fault, changes one byte that its own environment reads and nothing else that anybody reads |
| Forks.HandledStore | TP JOS/bilbao_vilardo-entrega_tp3/kern/trap.c:374-412 | where every environment with copy-on-write pages has a handler, a store to such a page destroys nobody, and is done if there is memory left |
| Forks.Fork | TP JOS/bilbao_vilardo-entrega_tp3/lib/fork.c:148-186 | the child is the next free environment, runnable, and everybody sees what copying the parent would have given; parent and child then have the upcall and a writable exception stack, and nobody else's upcall, stack or mappings change; it fails only without a free slot or with at most one page left |
| Forks.ForkV0 | TP JOS/bilbao_vilardo-entrega_tp3/lib/fork.c:104-130 | the same visible effect as fork, and the same reasons to fail; but the child has no upcall: every environment with copy-on-write pages still has a handler if and only if the parent has no such page |
| Handlers.ForkHandled | TP JOS/bilbao_vilardo-entrega_tp3/lib/fork.c:148-186 | after fork, whoever has copy-on-write pages can take the faults, given that this was so before |
| Handlers.EagerForkHandledIff | TP JOS/bilbao_vilardo-entrega_tp3/lib/fork.c:86-130 | for all states: fork_v0 leaves no environment with copy-on-write pages without a handler if and only if the parent has none of them when it is called |
| Forks.InheritedPageDestroys | TP JOS/bilbao_vilardo-entrega_tp3/lib/fork.c:86-130 | the case in which it fails: an environment calls fork_v0 while a page of it is copy-on-write and read-only, and the child's first store to that page destroys the child |
| Forks.ForkThenForkV0 | TP JOS/bilbao_vilardo-entrega_tp3/lib/fork.c:61-130 | fork makes any writable page of its caller such a page, so that fork followed by fork_v0 gives a child that a store to it destroys |
| Forks.DupPage | TP JOS/bilbao_vilardo-entrega_tp3/lib/fork.c:61-84 | parent and child end with the same page under the same entry, read-only and copy-on-write if it was writable or copy-on-write |
| Forks.DupOrShare | TP JOS/bilbao_vilardo-entrega_tp3/lib/fork.c:86-102 | one step of fork_v0's loop: a page the parent cannot write is shared, a writable one gets a fresh copy in the child, filled through UTEMP |
| Forks.PgFault | TP JOS/bilbao_vilardo-entrega_tp3/lib/fork.c:14-48 | succeeds exactly for a write fault on a present copy-on-write page with memory left; nobody's visible contents change and the page is then writable and private |
| Forks.CopyMappings | TP JOS/bilbao_vilardo-entrega_tp3/lib/fork.c:117-124 | the whole loop of fork_v0 over the user pages refines copying |
| Forks.ShareMappings | TP JOS/bilbao_vilardo-entrega_tp3/lib/fork.c:163-172 | the whole loop of fork below USTACKTOP, with where it stopped when a page table could not be had |
| Forks.SetPgfaultHandler | TP JOS/bilbao_vilardo-entrega_tp3/lib/pgfault.c:25-40 | when it succeeds the environment has the upcall and a writable exception stack, and nothing anybody sees below USTACKTOP has changed |
| SharedCounts.ForkCount | TP JOS/bilbao_vilardo-entrega_tp3/lib/fork.c:163-172 | fork adds to the references of a page at most one for each of its mappings in the parent |
| SharedCounts.CopiedCount | TP JOS/bilbao_vilardo-entrega_tp3/lib/fork.c:117-124 | so does fork_v0 |
| Forks.CanShare | TP JOS/bilbao_vilardo-entrega_tp3/lib/fork.c:61-102 | decides exactly whether every page the caller maps can take that many more references |
| Cow.ForkedCow | TP JOS/bilbao_vilardo-entrega_tp3/lib/fork.c:61-84 | at every point of fork's loop, a physical page with two mappings or more is writable in none of them |
| Cow.ForkedVisible | TP JOS/bilbao_vilardo-entrega_tp3/lib/fork.c:163-172 | when the loop is done, what is visible is the eager copy of the parent |
| Cow.ForkStep | TP JOS/bilbao_vilardo-entrega_tp3/lib/fork.c:163-172 | one duppage advances the loop's invariant by one page, and a missing page changes nothing |
| Cow.CopiedVisible | TP JOS/bilbao_vilardo-entrega_tp3/lib/fork.c:117-124 | when fork_v0's loop is done the child sees a copy of everything its parent sees |
| Cow.PrivateCopy | TP JOS/bilbao_vilardo-entrega_tp3/lib/fork.c:38-47 | remapping a page to an exact private copy changes nothing anybody sees |
| Cow.StoreIsPrivate | TP JOS/bilbao_vilardo-entrega_tp3/lib/fork.c:14-48 | under the sharing invariant, a store through a writable mapping changes one byte of one environment's view |
| Cow.DupIsShared | TP JOS/bilbao_vilardo-entrega_tp3/lib/fork.c:65-67 | duppage's permission bits are accepted by sys_page_map, never writable, copy-on-write exactly if the page was writable or copy-on-write, and idempotent |
| SmpInv.OneEnvironmentOneProcessor | TP JOS/bilbao_vilardo-entrega_tp3/kern/trap.c:265-323 | in every disciplined run from boot, whenever the kernel lock is free each processor has no environment or a RUNNING or DYING one of its own, every such environment has exactly one processor, receivers are not runnable, and each kernel entry took and released the lock once; at most one processor is ever past lock_kernel |
| SmpInv.DispatchKeepsIff | TP JOS/bilbao_vilardo-entrega_tp3/kern/syscall.c:106-126 | a system call keeps the invariant exactly when it is used in the disciplined way, which excludes only sys_env_set_status on another environment that is RUNNING or DYING, RUNNABLE for a receiving one, and destroying an environment that is DYING elsewhere |
| SmpInv.IndisciplineBreaks | TP JOS/bilbao_vilardo-entrega_tp3/kern/env.c:477-494 | each undisciplined call breaks the invariant at once |
| Indiscipline.SetStatusOfRunning | TP JOS/bilbao_vilardo-entrega_tp3/kern/syscall.c:106-126 | a run from boot in which a parent may set the status of a child that runs on another processor |
| Indiscipline.DestroyTwice | TP JOS/bilbao_vilardo-entrega_tp3/kern/env.c:477-494 | a run from boot in which a parent may destroy a child that is DYING on another processor |
| Indiscipline.SetStatusOfDying | TP JOS/bilbao_vilardo-entrega_tp3/kern/syscall.c:106-126 | a run from boot in which a parent may set the status of a DYING child |
| Indiscipline.WakeReceiver | TP JOS/bilbao_vilardo-entrega_tp3/kern/syscall.c:106-126 | a run from boot in which a parent may make a child RUNNABLE that waits for a message |
| SmpInv.NextKeeps | TP JOS/bilbao_vilardo-entrega_tp3/kern/trap.c:265-323 | every step of every processor keeps the invariant |
| SmpInv.RunKeeps | TP JOS/bilbao_vilardo-entrega_tp3/kern/trap.c:265-323 | the invariant holds at every point of every disciplined run |
| SmpInv.NeverStuck | TP JOS/bilbao_vilardo-entrega_tp3/kern/trap.c:279-299 | no assertion on the trap path fails and a processor's next step is always enabled; one that spins on a held lock waits for another processor that is past lock_kernel, and on a free lock its next exchange gets it in |
| SmpInv.BootedInv | TP JOS/bilbao_vilardo-entrega_tp3/kern/init.c:25-82 | the state the boot processor leaves satisfies the invariant |
| SmpInv.XchgPasses | TP JOS/bilbao_vilardo-entrega_tp3/kern/spinlock.c:60-79 | an exchange on a held lock changes nothing, and the holder is another processor; on a free lock exactly this processor is then past lock_kernel |
| SmpInv.UnlockKeeps | TP JOS/bilbao_vilardo-entrega_tp3/kern/spinlock.c:82-116 | releasing the lock leaves nobody past lock_kernel |
| SmpInv.CollectFrees | TP JOS/bilbao_vilardo-entrega_tp3/kern/trap.c:293-299 | a DYING environment is freed by the processor it is current on, at its next trap from user mode, and is then current nowhere; otherwise nothing is freed |
| SmpInv.DestroyMarks | TP JOS/bilbao_vilardo-entrega_tp3/kern/env.c:477-494 | destroying an environment that runs elsewhere marks it DYING and leaves it current there; any other is freed and current nowhere; an unknown one has no effect |
| Traps.UserTraps | TP JOS/bilbao_vilardo-entrega_tp3/kern/trap.c:279-299 | a trap from user mode takes the lock and then either frees a DYING environment and goes to the scheduler, or has the call or fault of the current one handled |
| Traps.DispatchLeads | TP JOS/bilbao_vilardo-entrega_tp3/kern/trap.c:217-263 | where each call leads: yields to the scheduler, the end of the environment to the scheduler without it, anything else to the end of trap |
| Traps.FinishResumes | TP JOS/bilbao_vilardo-entrega_tp3/kern/trap.c:316-322 | an environment that is still RUNNING goes on in user mode with the lock released and the table unchanged; otherwise the scheduler is next |
| Traps.ReschedLeads | TP JOS/bilbao_vilardo-entrega_tp3/kern/sched.c:12-99 | the scheduler runs a RUNNABLE environment if there is one, else the current one if it still runs, else halts the processor; the monitor is for the case that no environment is RUNNABLE, RUNNING or DYING anywhere |
| Traps.HaltedWakes | TP JOS/bilbao_vilardo-entrega_tp3/kern/sched.c:58-99 | an interrupt takes a halted processor, with the lock, to the scheduler, without an environment |
| Syscalls.Syscall | TP JOS/bilbao_vilardo-entrega_tp3/kern/syscall.c:405-449 | run on class Kernel, every system call that touches envs[] keeps memory sound with exact reference counts, and does to the environment table and its free list exactly what the multiprocessor step for that call does; only a page that a message is about to carry must have room for one more reference |
| Syscalls.EnvDestroy | TP JOS/bilbao_vilardo-entrega_tp3/kern/env.c:477-494 | an environment running elsewhere only becomes DYING; any other is freed with its address space, and a current one leaves curenv null |
| Smp.PickNearest | TP JOS/bilbao_vilardo-entrega_tp3/kern/sched.c:37-45 | the two loops find none exactly when no environment is runnable, and otherwise the one at the least circular distance from the current slot, that slot itself first |
| Sched.Machine.SchedYield | TP JOS/bilbao_vilardo-entrega_tp3/kern/sched.c:12-52 | the two scans, the fallback to a still running current environment and the halt have exactly the effect of the model's scheduling step |
| Sched.Machine.SchedHalt | TP JOS/bilbao_vilardo-entrega_tp3/kern/sched.c:58-99 | the monitor is entered exactly when no environment is RUNNABLE, RUNNING or DYING |
| Sched.Machine.EnvRun | TP JOS/bilbao_vilardo-entrega_tp3/kern/env.c:527-558 | the current environment goes back to RUNNABLE only if it was RUNNING, and the new one is RUNNING and current |
| Sched.Machine.TryLock | TP JOS/bilbao_vilardo-entrega_tp3/kern/spinlock.c:60-79 | the exchange gets the lock exactly when it was free |
| Sched.Machine.UnlockKernel | TP JOS/bilbao_vilardo-entrega_tp3/kern/spinlock.c:82-116 | the lock is free and the processor is in user mode or halted |
| Sched.Machine.TrapReturn | TP JOS/bilbao_vilardo-entrega_tp3/kern/trap.c:316-322 | back to the current environment exactly if it is still running, otherwise the scheduler decides |
| Fairness.RoundRobin | TP JOS/bilbao_vilardo-entrega_tp3/kern/sched.c:33-48 | while an environment stays RUNNABLE and a processor's own environments neither exit nor make themselves runnable, that processor runs it after at most NENV - 1 passes through its scheduler (NENV if it had none), whatever all others do |
| Fairness.YieldLeadsToResched | TP JOS/bilbao_vilardo-entrega_tp3/kern/trap.c:236-240 | after sys_yield or a timer interrupt the processor can do nothing but enter the scheduler |
| Fairness.YieldHandsOver | TP JOS/bilbao_vilardo-entrega_tp3/kern/syscall.c:68-73 | sys_yield with another environment RUNNABLE makes the nearest one after the caller current and RUNNING and leaves the caller RUNNABLE; with no other the caller goes on |
| Fairness.RoundRobinYields | TP JOS/bilbao_vilardo-entrega_tp3/kern/syscall.c:68-73 | the round-robin bound in terms of the yields themselves: while an environment is passed over, the environments of a processor yield at most NENV - 1 times (NENV if it had none), and when they have done so as often as its rank says, it is what the processor runs next |
| Fairness.YieldApproaches | TP JOS/bilbao_vilardo-entrega_tp3/kern/sched.c:33-48 | each sched_yield runs the waiting environment or moves strictly closer to it in the circular order |
| Fairness.YieldProgressIff | TP JOS/bilbao_vilardo-entrega_tp3/kern/sched.c:33-48 | progress is made exactly when the current environment has not made itself RUNNABLE: the scan starts at its own slot |
| Mail.InOrderOnce | TP JOS/bilbao_vilardo-entrega_tp3/kern/syscall.c:342-403 | over every disciplined run the values received are the values sent, in order, each once, with at most the last one unread |
| Mail.NoSendBeforeNextReceive | TP JOS/bilbao_vilardo-entrega_tp3/kern/syscall.c:342-371 | between a delivery and the receiver's next sys_ipc_recv nothing more is delivered, and value, sender and permission stay |
| Mail.SendReachesReceiver | TP JOS/bilbao_vilardo-entrega_tp3/kern/syscall.c:342-371 | a send to a waiting receiver delivers exactly its value, sender and permission and makes it RUNNABLE; any other send delivers nothing and at most clears env_ipc_perm |
| Mail.NextKeepsMail | TP JOS/bilbao_vilardo-entrega_tp3/lib/ipc.c:22-45 | every step, ipc_recv's reading of the value included, keeps sent, received and unread in step |
| Tlbs.OneProcessorAgrees | TP JOS/bilbao_vilardo-entrega_tp3/kern/pmap.c:614-620 | on one processor no cached translation ever disagrees with the page tables of the directory in cr3 |
| Tlbs.ActorAgrees | TP JOS/bilbao_vilardo-entrega_tp3/kern/pmap.c:541-620 | a processor's own page_insert, page_remove, env_run, sched_halt and env_free leave its cache in agreement, whichever directory they edit |
| Tlbs.BystanderAgreesIff | TP JOS/bilbao_vilardo-entrega_tp3/kern/pmap.c:614-620 | another processor's cache still agrees exactly when the step changed no translation it holds: nothing is invalidated there |
| Tlbs.AgreesUntilEdited | TP JOS/bilbao_vilardo-entrega_tp3/kern/env.c:548-554 | on several processors a cache agrees until another processor edits a translation it holds |
| LargePages.BootMapRegion | TP JOS/bilbao_vilardo-entrega_tp3/kern/pmap.c:478-514 | with or without TP1_PSE, for all page-aligned regions of 32-bit addresses in which no entry is large yet: the loop ends, addresses inside translate to pa + (addr - va) with perm's rights and all others as before, and entries outside the region, large or not, are not touched; it gets to the end exactly if there are as many pages as entries that need a table and have none |
| LargePages.LargePagesPreserveMeaning | TP JOS/bilbao_vilardo-entrega_tp3/kern/pmap.c:478-514 | run from the same directory with and without TP1_PSE, boot_map_region gives every address the same translation and effective permissions, and with 4 MiB pages it succeeds whenever it does without |
| LargePages.FewerNeeded | TP JOS/bilbao_vilardo-entrega_tp3/kern/pmap.c:478-514 | the entries that need a table with 4 MiB pages are among those that need one without |
| LargePages.StacksBelowLarge | TP JOS/bilbao_vilardo-entrega_tp3/kern/pmap.c:273-298 | the regions of mem_init_mp, just below 4 MiB mappings of KERNBASE and up, have no large entry |
| FileSystems.Fs.constructor | TP JOS/bilbao_vilardo-entrega_tp4/fs/fs.c:114-133 | a server on a disk whose blocks are soundly owned is in its invariant exactly if the disk has at most 32768 blocks, so that fs_init's first look at the bitmap maps all of it |
| FileSystems.FsInit | TP JOS/bilbao_vilardo-entrega_tp4/fs/fs.c:14-133 | the number of blocks is read from the super block; the server starts exactly if check_super and check_bitmap pass |
| FileSystems.RebootPasses | TP JOS/bilbao_vilardo-entrega_tp4/fs/fs.c:14-105 | on every state that the disk is ever in, check_super and check_bitmap pass |
| FileSystems.Fs.NBlocks | TP JOS/bilbao_vilardo-entrega_tp4/fs/fs.c:32-40 | s_nblocks, read through the block cache, is the number of blocks throughout every run |
| FileSystems.Fs.Open | TP JOS/bilbao_vilardo-entrega_tp4/fs/fs.c:215-238 | reading a directory block from its start maps the struct Files in it, and changes nothing else |
| FileSystems.Fs.BlockIsFree | TP JOS/bilbao_vilardo-entrega_tp4/fs/fs.c:32-40 | free exactly if in range with its bit set; nothing changes |
| FileSystems.Fs.AllocBlock | TP JOS/bilbao_vilardo-entrega_tp4/fs/fs.c:60-86 | the lowest free block below s_nblocks, marked in use in memory and on disk, and no other bit; None exactly when no block is free, without effect |
| FileSystems.Fs.FileBlockWalk | TP JOS/bilbao_vilardo-entrega_tp4/fs/fs.c:151-179 | every branch: out of range, direct slot, existing, missing and newly allocated indirect block, each with its exact effect; the invariant holds afterwards if and only if no indirect block was taken that does not read as zeros, and then the pointers have no owner any more |
| FileSystems.Fs.FileGetBlock | TP JOS/bilbao_vilardo-entrega_tp4/fs/fs.c:189-208 | the block the file has, or else the lowest free one after that for an indirect block, which is to be blank and mapped or touched first at its start; all pointers, sizes and bytes elsewhere stay; NoDisk only when no block is free |
| FileSystems.Fs.FileFreeBlock | TP JOS/bilbao_vilardo-entrega_tp4/fs/fs.c:427-440 | exactly the pointer to that block is cleared and exactly its block freed |
| FileSystems.Fs.FileTruncateBlocks | TP JOS/bilbao_vilardo-entrega_tp4/fs/fs.c:451-467 | frees exactly the blocks a file of the new size does not need, the indirect block included when it is no longer needed, and clears exactly their pointers |
| FileSystems.Fs.FileSetSize | TP JOS/bilbao_vilardo-entrega_tp4/fs/fs.c:470-478 | the new size in memory and on disk; if the file was longer, exactly the bytes past the block of its new end are gone and their blocks, and an indirect block no longer needed, are free; no other byte or size changes; and the File is on disk before any other block is written |
| FileSystems.Fs.FileRead | TP JOS/bilbao_vilardo-entrega_tp4/fs/fs.c:372-394 | returns min(count, f_size - offset) bytes, the file's own at those positions, across blocks and the direct/indirect border; no byte or size changes; NoDisk only when no block is free. It asks for what the bytes within the file need: no stale indirect block, and no first touch of the first block off its start |
| FileSystems.Fs.FileWrite | TP JOS/bilbao_vilardo-entrega_tp4/fs/fs.c:401-423 | the file's bytes at offset.. become those of buf, all other bytes of this and all other files stay, and the size grows to offset + count exactly if it was less; on an error, a prefix of buf is in place and its end tells which error. It asks for the same as file_read |
| FileSystems.Fs.FileFlush | TP JOS/bilbao_vilardo-entrega_tp4/fs/fs.c:484-499 | afterwards disk and memory agree on the file's size and on every one of its bytes; memory is unchanged |
| FileSystems.Fs.FsSync | TP JOS/bilbao_vilardo-entrega_tp4/fs/fs.c:502-509 | every block from 1 on is on disk as in memory, and the disk alone is a sound volume |
| FileSystems.Fs.Serve | TP JOS/bilbao_vilardo-entrega_tp4/fs/fs.c:372-509 | every call keeps the invariant: exact block ownership and bitmap, pointers below the end of their file, and every state the disk has ever been in consistent for a reboot |
| FileSystems.Mount | TP JOS/bilbao_vilardo-entrega_tp4/fs/fsformat.c:218-243 | a formatted disk with at least one file starts the server in its invariant, with the given contents and number of blocks, and free are exactly the blocks from the first unused one on; it exists exactly if the files fit |
| FileSystems.FirstAlloc | TP JOS/bilbao_vilardo-entrega_tp4/fs/fsformat.c:92-132 | on a newly formatted disk alloc_block gives the first block that fsformat did not use |
| FileSystems.TruncateIndirect | TP JOS/bilbao_vilardo-entrega_tp4/fs/fs.c:458-466 | when the blocks past NDIRECT are gone the indirect block has no entries left, and freeing it completes the truncation |
| Volumes.NewIndirectIff | TP JOS/bilbao_vilardo-entrega_tp4/fs/fs.c:162-168 | taking a block as indirect block without clearing it keeps ownership exactly when it already reads as zeros |
| Volumes.StoreOwned | TP JOS/bilbao_vilardo-entrega_tp4/fs/fs.c:198-204 | storing an allocated block in an empty data slot keeps every block named at most once and the bitmap exact |
| Volumes.ClearOwned | TP JOS/bilbao_vilardo-entrega_tp4/fs/fs.c:427-440 | clearing a data pointer leaves its block, and only it, without an owner |
| Volumes.InstallOwned | TP JOS/bilbao_vilardo-entrega_tp4/fs/fs.c:162-168 | a blank block becomes the indirect block of a file that has none, with ownership kept |
| Volumes.RemoveOwned | TP JOS/bilbao_vilardo-entrega_tp4/fs/fs.c:458-466 | dropping an indirect block without entries keeps ownership |
| Volumes.MarkOwned | TP JOS/bilbao_vilardo-entrega_tp4/fs/fs.c:43-86 | allocating and freeing in the bitmap move exactly one block in or out of use and leave every pointer |
| Volumes.DataOwned | TP JOS/bilbao_vilardo-entrega_tp4/fs/fs.c:401-423 | writing the data of a regular file touches no pointer, size or bitmap bit |
| Volumes.ResizeOwned | TP JOS/bilbao_vilardo-entrega_tp4/fs/fs.c:470-478 | storing f_size changes that size and nothing else |
| Volumes.SlotsApart | TP JOS/bilbao_vilardo-entrega_tp4/inc/fs.h:29-46 | different pointer slots lie at different places of the volume |
| Crash.CrashSafe | TP JOS/bilbao_vilardo-entrega_tp4/fs/fs.c:60-86 | if File pointers on disk are 0 or as in memory and no block in use is free on disk, then every File pointer on disk names a block of its own that the disk's bitmap marks in use |
| Crash.FlushAlloc | TP JOS/bilbao_vilardo-entrega_tp4/fs/fs.c:76-80 | flushing the bitmap block with the allocation keeps every block in use marked on disk |
| Crash.FlushHome | TP JOS/bilbao_vilardo-entrega_tp4/fs/fs.c:470-478 | flushing the File brings its pointers on disk up to date after a truncation |
| Crash.FlushBlock | TP JOS/bilbao_vilardo-entrega_tp4/fs/bc.c:81-102 | writing back any block keeps the disk trustworthy |
| FsSteps.AllocStep | TP JOS/bilbao_vilardo-entrega_tp4/fs/fs.c:60-86 | alloc_block keeps memory sound and the disk no further ahead, and changes no file |
| FsSteps.FillStep | TP JOS/bilbao_vilardo-entrega_tp4/fs/fs.c:198-204 | giving a file its block changes that pointer and the bytes of that block alone |
| FsSteps.CutStep | TP JOS/bilbao_vilardo-entrega_tp4/fs/fs.c:427-440 | free_block and the cleared pointer keep memory sound; the disk may lag for that file only |
| FsSteps.RemoveStep | TP JOS/bilbao_vilardo-entrega_tp4/fs/fs.c:458-466 | freeing the indirect block changes no byte and no other pointer |
| FsSteps.DataStep | TP JOS/bilbao_vilardo-entrega_tp4/fs/fs.c:401-423 | writing a block gives the file exactly those bytes and leaves every pointer, size and other file |
| FileData.WriteBytes | TP JOS/bilbao_vilardo-entrega_tp4/fs/fs.c:401-423 | a file is a flat array: writing one block sets exactly its bytes |
| BlockCaches.BlockCache.Load | TP JOS/bilbao_vilardo-entrega_tp4/fs/bc.c:29-72 | a fault maps the block exactly if the address is page-aligned, and panics otherwise: the address goes to sys_page_map as it is; no block's logical content changes |
| BlockCaches.BlockCache.Touch | TP JOS/bilbao_vilardo-entrega_tp4/fs/bc.c:29-72 | an access to a block succeeds exactly if the block is mapped or its first byte is accessed first |
| BlockCaches.BlockCache.Write | TP JOS/bilbao_vilardo-entrega_tp4/fs/bc.c:29-72 | a store to a block that is mapped, or at its start, changes the logical content of that block alone and leaves the disk |
| BlockCaches.BlockCache.FlushBlock | TP JOS/bilbao_vilardo-entrega_tp4/fs/bc.c:81-102 | the disk block becomes the logical one, no logical content changes, and a page that is clean equals its disk block; at most one disk state is passed through |
| Touches.NextTouch | TP JOS/bilbao_vilardo-entrega_tp4/fs/fs.c:401-423 | once one block of a transfer has been had, the rest starts at the first byte of a block, through a mapped indirect block, and can never make bc_pgfault panic |
| Touches.TakenIs | TP JOS/bilbao_vilardo-entrega_tp4/fs/fs.c:189-208 | the block that file_get_block takes is the lowest free one, or the next one if an indirect block was taken first |
| Blocks.WordStored | TP JOS/bilbao_vilardo-entrega_tp4/inc/fs.h:29-46 | storing a 32-bit word in a block changes that word and no other |
| Blocks.LeastFirst | TP JOS/bilbao_vilardo-entrega_tp4/inc/fs.h:29-46 | words are stored least significant byte first |
| Blocks.BitCounts | TP JOS/bilbao_vilardo-entrega_tp4/fs/fs.c:36-49 | bit k of a bitmap word is the one that counts 2^k |
| Blocks.MarkedBit | TP JOS/bilbao_vilardo-entrega_tp4/fs/fs.c:36-49 | setting or clearing a bitmap bit changes whether that block is free and no other |
| Formats.Format | TP JOS/bilbao_vilardo-entrega_tp4/fs/fsformat.c:92-243 | an image is produced exactly if there are at most 128 files, each below 1034 * 4096 bytes, and the blocks suffice; its super block has the magic number and the number of blocks, the types of root and files are right, and free are exactly the blocks not handed out. With at least one file it is a soundly owned volume whose files read back as given, with zeros to the end of the last block, and with none it is not, whatever one takes for owners |
| Formats.BlocksTaken | TP JOS/bilbao_vilardo-entrega_tp4/fs/fsformat.c:134-148 | how many blocks a file takes: its length rounded up, and one for the indirect block from ten blocks on |
| Formats.Formatter.WriteFile | TP JOS/bilbao_vilardo-entrega_tp4/fs/fsformat.c:180-209 | succeeds exactly if the file, the directory and the disk have room, and then adds the file with its contents |
| Formats.Formatter.FinishFile | TP JOS/bilbao_vilardo-entrega_tp4/fs/fsformat.c:134-148 | direct and indirect pointers are exactly the consecutive blocks of the file; a file of exactly NDIRECT blocks gets an indirect block too |
| Formats.Formatter.FinishDir | TP JOS/bilbao_vilardo-entrega_tp4/fs/fsformat.c:169-178 | the entries become the data of the root directory; an empty directory points at a block that was never allocated |
| Formats.Formatter.FinishDisk | TP JOS/bilbao_vilardo-entrega_tp4/fs/fsformat.c:122-132 | exactly the blocks handed out are marked in use |
| Formats.FinishedEmpty | TP JOS/bilbao_vilardo-entrega_tp4/fs/fsformat.c:169-178 | with no file the root directory names a block that the bitmap has as free |
| Stabs.StabBinsearch | TP JOS/bilbao_vilardo-entrega_tp3/kern/kdebug.c:59-106 | ends on every table and address, and computes the search function below |
| Stabs.SearchAnswersIff | TP JOS/bilbao_vilardo-entrega_tp3/kern/kdebug.c:59-106 | on entries sorted by address the result is the last entry at or below addr and the index just before the next one, exactly unless the search, as it halves the region, hits an entry at addr while one at addr + 1 is still in its range; the next row but one gives a condition on the table alone that is enough |
| Stabs.SearchAnswers | TP JOS/bilbao_vilardo-entrega_tp3/kern/kdebug.c:59-106 | the right answer in every other case, entries at the last address included |
| Stabs.NoNeighbourNotMisled | TP JOS/bilbao_vilardo-entrega_tp3/kern/kdebug.c:86-92 | a table without entries at both addr and addr + 1, which can be read off it, never misleads the search |
| Stabs.NeighbourMisleads | TP JOS/bilbao_vilardo-entrega_tp3/kern/kdebug.c:86-92 | for every a, the table with entries at a and a + 1 gives the wrong one |
| Stabs.MisledFails | TP JOS/bilbao_vilardo-entrega_tp3/kern/kdebug.c:86-105 | once misled the result is past the right entry |
| Numbers.PrintNum | TP JOS/bilbao_vilardo-entrega_tp3/lib/printfmt.c:37-52 | appends the digits, padded on the left |
| Numbers.Strtol | TP JOS/bilbao_vilardo-entrega_tp3/lib/string.c:241-286 | blanks, sign, base prefix and digits as the code takes them, in 32-bit arithmetic |
| Numbers.StrtolMeans | TP JOS/bilbao_vilardo-entrega_tp3/lib/string.c:241-286 | for every numeral, that is blanks and tabs, an optional sign, a prefix that base 0 or 16 allows, digits of the base that follows and anything that is no digit: the end is just after the digits, and the value is the signed value of the digits in 32-bit arithmetic, exact below 2^31 |
| Numbers.DigitTable | TP JOS/bilbao_vilardo-entrega_tp3/lib/string.c:265-278 | digits and letters in either case have their values, and nothing else is a digit |
| Numbers.PrintedChars | TP JOS/bilbao_vilardo-entrega_tp3/lib/printfmt.c:37-52 | printnum puts out padding and lower-case digits only |
| Numbers.PrintParse | TP JOS/bilbao_vilardo-entrega_tp3/lib/printfmt.c:37-52 | strtol of what printnum puts out is the number and consumes all of it, for every number below 2^31, base 8, 10 or 16, width, and padding by zeros or blanks; the length is the larger of width and digits |
| Pipeline.EverySchedule | TP fork/primes.c:28-95 | for every n of 2 or more and every schedule: the output is at all times a beginning of the primes up to n in order; no run has more than a quadratic number of steps; when nothing can move, all primes are printed, with one stage each and one empty stage, and all have ended |
| Pipeline.StepKeeps | TP fork/primes.c:28-95 | every step of every process keeps each pipe equal to what its writer has let through |
| Pipeline.StreamMeans | TP fork/primes.c:42-60 | the stream of stage k is exactly the numbers up to n that no earlier stage's prime divides |
| Pipeline.QuietPrinted | TP fork/primes.c:62-95 | a state in which no process can move has printed exactly the primes, in order |
| Pipeline.OutIsPrefix | TP fork/primes.c:62-85 | whatever has been printed is a beginning of the primes in order |
| Primes.SieveOfRange | TP fork/primes.c:42-85 | the first numbers of the stages' streams are the primes from 2 to n |
| Primes.PrimesFromMeans | TP fork/primes.c:62-85 | the reference list is increasing and holds exactly the primes in its range |

## Left out

Kernel memory and fork:

- The kernel half of the page tables: class `Kernel` starts from a `kern_pgdir` that maps only itself at UVPT;
  `boot_map_region` is modelled on its own directory in `LargePages`. `user_mem_check` therefore meets no large page.
- A page has its words and its bytes side by side (`mem`, `data`); user stores through a mapping of a page table do
  not occur, because page tables are never mapped writable for users.
- `pp_ref` has 16 bits and the kernel does not check it. `sys_page_map` and message transfer ask for room for one more
  reference to the page they map, when they get so far (`Countable`); `PageInv.IncrementExactIff` shows that counts are
  exact no further. `Forks.Run` stops before a fork that might need more than the count of a page can hold
  (`Shareable`): one for each mapping in the parent, and one more while a page is remapped.
- Register state, trap frames, `env_type`, `env_runs`, `load_icode`, the console, and everything that panics: a panic
  ends the run.
- Kernels.Kernel.PgdirWalk: tables are created only below UTOP; the one caller above, `boot_map_region`, is modelled in `LargePages`.
- What the fault handler's frame holds, and faults inside the handler: `PageFaultHandler` is for a fault on the user's
  stack, and `pgfault` writes only to mapped pages.
- `sys_page_alloc` and `sys_page_map` by user programs inside `Forks.Run` are restricted to allocating and unmapping
  pages below USTACKTOP other than PFTEMP and UTEMP; programs do not build shared writable mappings themselves, and do
  not write to memory while fork's loop runs.
  Which environments have set `_pgfault_handler` at the start, and the address of the upcall, are parameters.

Processors and messages:

- Outcomes of page operations inside `sys_exofork` and `sys_ipc_try_send` are parameters of the steps in `Smp`;
  `Syscalls.Syscall` shows which of them class `Kernel` gives. The page system calls change no field of envs[].
- The retry loop of `ipc_send`: a run may contain any number of tries, and `Mail.SendReachesReceiver` says what each
  does; that the loop ever succeeds depends on the receiver.
- Nested faults, interrupts inside the kernel and spurious interrupts; `panicstr`.
- Runs outside the discipline, beyond the proof that the first undisciplined call breaks the invariant.
- Translation caches are modelled over flat maps, one per directory; nothing tells other processors to invalidate.

File system:

- Names, directory lookup and creation (`dir_lookup`, `dir_alloc_file`, `walk_path`, `file_create`, `file_open`), the
  server loop, and writing, resizing or truncating directories: the set of File structures is fixed during a run.
- FileSystems.Fs.FileGetBlock: requires a new indirect block to read as zeros (`IndirectReady`), since the code does not clear it; `FileSystems.Fs.FileBlockWalk` and `Volumes.NewIndirectIff` prove that block ownership is lost exactly otherwise.
- FileSystems.Fs.FileRead: requires the same, over the blocks of the bytes it returns.
- FileSystems.Fs.FileWrite: requires the same, over the blocks it writes.
- Sizes are at most 0x7FFFF000, so that rounding up to blocks stays inside `off_t`.
- Crash consistency is for pointers in File structures: entries of indirect blocks reach the disk only with
  `file_flush` or `fs_sync`, because `file_set_size` does not flush the indirect block.
- Running out of memory in `bc_pgfault`, which panics, and the self-test `check_bc`; block writes are atomic. On disks of
  more than 32768 blocks the later blocks of the bitmap are first touched wherever the first lookup falls.
- `fsformat` takes the files' contents as input, and 2 to 1024 blocks as its argument check demands; names are left out.

Small programs:

- `strtol` beyond 2^31 wraps around, as 32-bit arithmetic does in practice.
- SearchAnswersIff: assumes that no entry is at address 2^32 - 1, where addr++ would wrap around to 0; the direction that gives the right answer, and the end of the search, need no such assumption.
- Pipes in the sieve have no capacity, and `fork`, `pipe`, `read` and `write` do not fail; a printed prime is one event.

Not modelled at all: boot code, drivers, the monitor, the shell, and the user test programs, which would only add
members without hard properties.
