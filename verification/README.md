# Slab allocators of `node`, modelled in Dafny

This project models the two header-only, single-threaded allocators of the
`node` library:

- `src/node_stack_alloc.h` holds two classes.
  - `SlabManager<T>` is a pool. It keeps a LIFO free list of equally sized
    slabs, refills it from `malloc`, and trims it back to the system.
  - `ManagedStackAllocator<T>` bump-allocates `T`-sized cells along a chain
    of slabs that it borrows from a manager. It supports LIFO `pop` and two
    bulk teardowns, `release_mem` and `delete_mem`.
- `src/node_block_alloc.h` holds `BlockAllocator<T>`, a fixed-size chunk
  allocator. Its LIFO free list threads through slabs that it owns privately.

Slabs, cells and chunks are abstract identities. A linked list is a `seq` in
list order. The outcome of a `malloc` call is an input: `Malloc.Null`, or
`Malloc.Fresh(addr)`, which is a new slab identity. Whether that slab is owned
by nobody is a hypothesis of the lemmas that need it. Destructor calls are
recorded as an event log of cells, so that "exactly once" can be stated.

Modules:

- `Memory` (memory.dfy): `Option`, the `Malloc` outcome, the `Size` type
  (`>= 1`), and sequence helpers (`Distinct`, `Disjoint`, `Reverse`).
- `SlabManager` (slab_manager.dfy): the pool.
  - A `Pool` is the free list plus a `stale` link.
  - `stale` is the `next` pointer that `trim_to` leaves at the end of the
    list, still pointing at a released slab.
- `ManagedStackAllocator` (stack_allocator.dfy): the stack allocator.
  - A `Stack` is the chain `start .. stackhead` plus the cursor offset in
    `stackhead`.
  - A `World` pairs a stack with the pool it borrows from.
- `StackProperties` (stack_properties.dfy) proves several things:
  - the representation invariant `Inv`;
  - that `alloc` and `pop` act as a stack on `LiveCells`, the logical
    sequence of live cells;
  - what each teardown does with slabs and destructors.
- `BlockAllocator` (block_allocator.dfy): the chunk allocator.
- `BlockProperties` (block_properties.dfy) proves several things:
  - the ownership partition: each owned chunk is either live or free;
  - LIFO reuse;
  - that the slab count is the peak live count divided by the slab size,
    rounded up;
  - the behaviour of `clear`.

Facts about the code that the model keeps, and that the lemmas make explicit:

- The stack allocator takes its first slab in the constructor
  (src/node_stack_alloc.h:212), without a null check, so a successful first
  `get_slab` is required.
- `pop` hands a slab back only when the top slab is already empty, so an
  emptied top slab stays attached until the next `pop`. `alloc` followed by
  `pop` therefore restores the live cells, but when `alloc` had to append a
  slab it does not restore the state.
- `release_mem` keeps `start`, as its comment "Releases all but first block"
  says.
- `trim_to(n)` keeps `n + 1` slabs, where its comment promises that the
  manager "only holds n_keep slabs".
- `delete_mem` does not call all destructors, as its comment promises, when
  a middle slab sits above `stackhead` in memory. It never returns
  `stackhead` to the manager.

## Model

| member | source | states |
|---|---|---|
| SlabManager.NewPool | src/node_stack_alloc.h:118-122 | A new pool is empty and valid, and its slab size is at least one: 0 is coerced to 1 and any other size is kept |
| SlabManager.AllocSlab | src/node_stack_alloc.h:73-82 | `alloc_slab` yields null exactly when `malloc` fails, and otherwise the slab at the block `malloc` returned |
| SlabManager.GetSlab | src/node_stack_alloc.h:93-103 | `get_slab` on a non-empty list hands out the head and leaves the tail. On an empty pool with a null end it asks `malloc` and leaves the pool as it was. On a dangling end it hands out the released slab. A null result never changes the pool |
| SlabManager.ReturnSlab | src/node_stack_alloc.h:109-114 | `return_slab` pushes a slab on the head of the list. Null leaves the pool unchanged |
| SlabManager.ReturnAll | src/node_stack_alloc.h:245-250 | Returning the slabs of a chain one by one leaves them on the pool in reverse order, ahead of the slabs it already held |
| SlabManager.ReturnAllValid | src/node_stack_alloc.h:109-114 | Returning distinct slabs that the pool does not list keeps the pool duplicate-free, and adds exactly those slabs |
| SlabManager.TrimTo | src/node_stack_alloc.h:124-142 | `trim_to(n)` as written: the kept slabs followed by the released ones are the old list. It keeps `min(k, n + 1)` of `k` slabs, and the last kept slab still links to the first released one |
| SlabManager.TrimToFixed | src/node_stack_alloc.h:124-127 | Trimming as the comment describes: keep the first `min(k, n)` slabs, release the rest, and end the kept list in null |
| SlabManager.ReturnThenGet | src/node_stack_alloc.h:93-114 | LIFO reuse: after `return_slab(s)`, `get_slab` hands out `s` and leaves exactly the previous pool |
| SlabManager.GetFromEmpty | src/node_stack_alloc.h:93-96 | On an empty valid pool, `get_slab` fails exactly when `malloc` does, otherwise hands out the fresh slab, and the pool stays empty |
| SlabManager.GetSlabValid | src/node_stack_alloc.h:93-103 | `get_slab` keeps a valid pool valid, and the slab it hands out is no longer listed |
| SlabManager.TrimToKeepsOneMore | src/node_stack_alloc.h:124-142 | When the pool holds more than `n` slabs, `trim_to(n)` keeps `n + 1` of them where the comment promises `n` |
| SlabManager.TrimToLeavesDanglingLink | src/node_stack_alloc.h:134-142 | After `trim_to(0)` on two or more slabs, the second `get_slab` hands out a slab that was released to the system |
| SlabManager.TrimToFixedReleasesUnreachable | src/node_stack_alloc.h:124-127 | After the corrected trim, no released slab is listed, the list ends in null, and trimming to 0 releases the whole list |
| ManagedStackAllocator.New | src/node_stack_alloc.h:209-216 | The constructor takes the first slab from the manager, as both `start` and `stackhead`, with the cursor at its first cell and no live cell |
| ManagedStackAllocator.IncSlab | src/node_stack_alloc.h:184-195 | `inc_slab` either fails and changes nothing, or appends the slab that `get_slab` yields to the chain and hands out its cell 0, leaving the cursor at 1 |
| ManagedStackAllocator.Alloc | src/node_stack_alloc.h:219-224 | `alloc` fails, changing nothing, exactly when the cursor is at `slabend` and the manager yields null. Otherwise it pushes exactly the cell it hands out onto the live cells: the cell at the cursor, or cell 0 of one slab appended through `inc_slab` |
| ManagedStackAllocator.Pop | src/node_stack_alloc.h:227-241 | `pop` keeps `start` and the slab size. The pool changes only when the top slab is empty and is not `start` |
| ManagedStackAllocator.ReleaseMem | src/node_stack_alloc.h:244-255 | `release_mem` resets to `start` with the cursor at 0, and returns every later chain slab to the manager in chain order |
| ManagedStackAllocator.DtorSlab | src/node_stack_alloc.h:200-205 | `dtor_slab` destructs the first `count` cells of a slab once each, in address order |
| ManagedStackAllocator.BelowTop | src/node_stack_alloc.h:266-272 | `delete_mem`'s second loop visits the longest prefix of the chain after `start` whose addresses lie below `stackhead`'s |
| ManagedStackAllocator.DeleteMem | src/node_stack_alloc.h:258-278 | `delete_mem` as written always resets to `start` with the cursor at 0. With a single slab it is `release_mem` after destructing the used cells. With more slabs, the manager gets back exactly the slabs the address walk visits, in chain order |
| ManagedStackAllocator.DeleteMemFixed | src/node_stack_alloc.h:257-278 | Corrected `delete_mem`: it leaves what `release_mem` leaves and logs as many destructor calls as there are live cells |
| StackProperties.LiveCellsDistinct | src/node_stack_alloc.h:192-193 | Under the invariant, no live cell occurs twice in the logical stack |
| StackProperties.NewEstablishesInv | src/node_stack_alloc.h:209-216 | A new allocator on a valid pool, with a first slab owned by nobody, satisfies the invariant and has no live cell |
| StackProperties.AllocPushes | src/node_stack_alloc.h:184-195 | `alloc` fails exactly when the top slab is full and the manager yields null, and then changes nothing. Otherwise it appends exactly one cell to the live cells: the next cell of the top slab, or cell 0 of one newly appended slab |
| StackProperties.AllocPreservesInv | src/node_stack_alloc.h:219-224 | `alloc` keeps the invariant: no slab is twice in the chain or in both the chain and the pool |
| StackProperties.PopPops | src/node_stack_alloc.h:227-241 | `pop` removes exactly the last live cell, and is a no-op when there is none. A slab goes back to the pool exactly when the top slab was empty and was not `start` |
| StackProperties.PopFromEmptyTop | src/node_stack_alloc.h:228-236 | Popping from an empty top slab above `start` takes off the last cell of the slab below |
| StackProperties.PopPreservesInv | src/node_stack_alloc.h:227-241 | `pop` keeps the invariant, including the slab it hands back to the pool |
| StackProperties.AllocThenPop | src/node_stack_alloc.h:219-241 | `alloc` then `pop` restores the live cells. When the top slab had room it restores the whole state exactly. When `alloc` had to append a slab, that slab stays attached and the state differs from the starting one |
| StackProperties.ReleaseMemKeepsOwnership | src/node_stack_alloc.h:244-255 | `release_mem` keeps the invariant and empties the live cells. Chain and pool together own exactly the slabs they owned before |
| StackProperties.BelowTopWhole | src/node_stack_alloc.h:267 | When every slab before position `k` lies below slab `k`, the address walk stops exactly at `k` |
| StackProperties.DeleteMemLog | src/node_stack_alloc.h:259-272 | On two or more slabs, `delete_mem` logs the used cells of `stackhead`, then all of `start`, then every slab the walk visits |
| StackProperties.LogOfWholeMiddle | src/node_stack_alloc.h:259-272 | That log order covers exactly the live cells of a stack whose middle slabs are all visited |
| StackProperties.WalkStopsEarly | src/node_stack_alloc.h:266-272 | If a middle slab is at or above `stackhead` in memory, the walk stops at an unvisited middle slab that is neither `start` nor `stackhead` |
| StackProperties.WalkVisitsMiddle | src/node_stack_alloc.h:266-272 | If every middle slab lies below `stackhead`, the walk visits exactly the middle slabs |
| StackProperties.DeleteMemHandsBackMiddle | src/node_stack_alloc.h:266-272 | If every middle slab lies below `stackhead`, `delete_mem` returns exactly the middle slabs to the pool |
| StackProperties.LiveHasBelowTop | src/node_stack_alloc.h:192-193 | Cell 0 of every slab below the top is live |
| StackProperties.LogMissesUnvisited | src/node_stack_alloc.h:264-272 | A slab that is neither `start` nor `stackhead`, and that the walk skips, gets no destructor call |
| StackProperties.MissedCell | src/node_stack_alloc.h:258-273 | If the walk stops early, some live cell gets no destructor call |
| StackProperties.DeleteMemLogIsLive | src/node_stack_alloc.h:258-273 | If every middle slab lies below `stackhead`, the destructor log of `delete_mem` is exactly the live cells, as a multiset |
| StackProperties.DeleteMemExactlyOnceIff | src/node_stack_alloc.h:258-278 | `delete_mem` destructs every live cell exactly once if and only if every middle slab lies below `stackhead` in memory |
| StackProperties.DeleteMemAscending | src/node_stack_alloc.h:258-278 | With addresses ascending along the chain, `delete_mem` destructs each live cell exactly once and returns exactly the middle slabs |
| StackProperties.DeleteMemLeaksStackhead | src/node_stack_alloc.h:264-278 | On two or more slabs, `stackhead` ends up in neither the chain nor the pool |
| StackProperties.DeleteMemDropsHigherSlab | src/node_stack_alloc.h:266-275 | A middle slab at or above `stackhead` in memory is never visited by the walk. After `delete_mem` it is in neither the chain nor the manager, so it is leaked |
| StackProperties.DeleteMemSkipsHigherSlab | src/node_stack_alloc.h:264-272 | On a concrete three-slab chain whose middle slab sits above `stackhead`, a live cell is never destructed and the pool gets nothing back |
| StackProperties.DeleteMemFixedExactlyOnce | src/node_stack_alloc.h:257-278 | Corrected `delete_mem`: it destructs every live cell exactly once whatever the addresses, keeps the invariant, and returns `stackhead` to the pool |
| StackProperties.FourAllocsFillFirstSlab | src/node_stack_alloc.h:209-224 | Slab size 4: four `alloc`s after construction fill the first slab and ask `malloc` for nothing |
| StackProperties.FifthAllocAppendsSlab | src/node_stack_alloc.h:184-195 | Slab size 4: the fifth `alloc` appends a fresh slab and hands out its cell 0 |
| StackProperties.PopKeepsEmptySlab | src/node_stack_alloc.h:227-241 | Popping that cell leaves the second slab attached, and the pool stays empty |
| StackProperties.DeleteFullThenEmpty | src/node_stack_alloc.h:258-278 | `delete_mem` on a full first slab and an empty second slab destructs the first slab's four cells and returns no slab |
| StackProperties.FiveAllocsOnePopThenDelete | src/node_stack_alloc.h:209-278 | With slab size 4: construct, five `alloc`s, one `pop`, then `delete_mem`. The fifth cell is cell 0 of a second slab. After the `pop` that slab stays attached and the manager holds no slab. `delete_mem` then destructs exactly the four cells of the first slab, leaks the second slab, and leaves the manager empty |
| BlockAllocator.New | src/node_block_alloc.h:110-114 | A new allocator owns no slab, has an empty free list, and keeps the slab size it was given |
| BlockAllocator.LinkChunks | src/node_block_alloc.h:85-92 | The linking loop of `add_slab` queues chunks `1 .. slabsize-1` in index order, ahead of the old free list |
| BlockAllocator.AddSlab | src/node_block_alloc.h:78-94 | `add_slab` fails exactly when `malloc` does and then changes nothing. Otherwise it prepends the new slab, hands out its chunk 0, and queues its other chunks ahead of the free list |
| BlockAllocator.Alloc | src/node_block_alloc.h:118-125 | `alloc` pops the head of a non-empty free list and leaves the slabs alone, or calls `add_slab` on an empty one. It fails only when the free list is empty and `malloc` fails, and then changes nothing |
| BlockAllocator.Release | src/node_block_alloc.h:96-106 | `release` ignores null. Otherwise it adds exactly the chunk to the free list, at its head, and leaves the slabs alone. It runs one destructor, on that chunk, exactly when `do_dtor` is set |
| BlockAllocator.Free | src/node_block_alloc.h:127-130 | `free` pushes the chunk on the free list, runs no destructor, and ignores null |
| BlockAllocator.Destroy | src/node_block_alloc.h:132-135 | `destroy` runs the chunk's destructor once and leaves what `free` leaves, and ignores null |
| BlockAllocator.Clear | src/node_block_alloc.h:138-146 | `clear` as written empties both lists and hands no slab back to the system |
| BlockAllocator.ClearFixed | src/node_block_alloc.h:137-146 | Corrected `clear`: it empties both lists and hands every owned slab back to the system |
| BlockProperties.OwnedMembers | src/node_block_alloc.h:78-94 | A chunk is owned exactly when its slab is owned and its index is below the slab size |
| BlockProperties.OwnedDistinct | src/node_block_alloc.h:78-94 | Distinct slabs own distinct chunks |
| BlockProperties.PartitionExact | src/node_block_alloc.h:104-105 | Under the partition, each owned chunk is exactly one of live or free, unowned chunks are neither, and the free list has no duplicates |
| BlockProperties.PartitionCount | src/node_block_alloc.h:78-94 | Free chunks and live chunks together number exactly the owned slabs times the slab size |
| BlockProperties.NewPartition | src/node_block_alloc.h:110-114 | A new allocator satisfies the partition and the slab-count matching, with no live chunk |
| BlockProperties.PopFreeKeepsPartition | src/node_block_alloc.h:122-123 | Popping the free list moves its head to the live chunks and keeps the partition |
| BlockProperties.CarveKeepsPartition | src/node_block_alloc.h:83-93 | Carving a new slab makes chunk 0 live, puts the rest on the free list, and keeps the partition |
| BlockProperties.AllocKeepsPartition | src/node_block_alloc.h:118-125 | `alloc` moves exactly the chunk it hands out from free to live, and a failed `alloc` changes nothing |
| BlockProperties.FreeKeepsPartition | src/node_block_alloc.h:96-106 | `free` or `destroy` of a live chunk moves it from live to free and keeps the partition |
| BlockProperties.AllocKeepsSlabsDistinct | src/node_block_alloc.h:83-84 | A fresh slab keeps the slab list free of duplicates |
| BlockProperties.GrowsOnlyWhenAllLive | src/node_block_alloc.h:119-121 | `alloc` adds a slab only when every owned chunk is live, and then adds exactly one |
| BlockProperties.AllocKeepsCovered | src/node_block_alloc.h:118-125 | `alloc` keeps the slab count matched to the peak live count, with the peak raised when the live count passes it |
| BlockProperties.FreeKeepsCovered | src/node_block_alloc.h:127-135 | `free` and `destroy` of a live chunk keep the slab count matched to the peak |
| BlockProperties.CoveredSlabCount | src/node_block_alloc.h:78-94 | Under that matching, the owned-slab count is the peak live count divided by the slab size, rounded up |
| BlockProperties.FreeThenAlloc | src/node_block_alloc.h:104-105 | LIFO reuse: `free(p)` then `alloc()` hands out `p` and restores the allocator exactly |
| BlockProperties.DoubleFreeHandsOutTwice | src/node_block_alloc.h:96-125 | Freeing one chunk twice makes the next two `alloc`s both hand it out |
| BlockProperties.ClearLeaksSlabs | src/node_block_alloc.h:138-146 | `clear` as written leaves no owned slab listed and hands none back, so every slab is lost |
| BlockProperties.ClearFixedReleasesAll | src/node_block_alloc.h:137-146 | Corrected `clear`: it hands back every owned slab exactly once and leaves a freshly constructed allocator with the partition intact |

## Left out

- Byte layout is not modelled: `sizeof` arithmetic, header/data placement by casts, and the `chunk` union overlay. Slabs, cells and chunks are identities.
- `malloc` and the system `free` are not modelled as calls. A `malloc` outcome is an input. A slab handed back to the system is listed in a result, and the model does not track it further.
- Real addresses are not modelled. The pointer comparison in `delete_mem` uses a caller-supplied `addr` function on slabs.
- T's destructor has no modelled effect. Its calls are logged as events.
- The `likely`, `unlikely` and `noinline` macros are not modelled. They affect only performance.
- Concurrency is not modelled. The code has none.
- Several stack allocators can share one manager. The model pairs each allocator with the pool it draws from, so interleavings between allocators are not modelled.
- `free_slab` has no separate member. Its only caller is `trim_to`, whose result lists the released slabs.
- SlabManager.GetSlab: when it hands out a released slab through a dangling link, the `next` read from released memory is unspecified. The model takes it to be null.
- SlabManager.TrimTo: requires a list that ends in null. On a list that already dangles, the walk reads released memory, and that behaviour is undefined.
- ManagedStackAllocator.New: requires a successful first `get_slab`. The constructor dereferences the slab without a null check.
- BlockAllocator.New: requires a slab size of at least one. The constructor does not coerce 0, and for 0 the loop bound `slabsize - 1` wraps around and the loop writes past the slab, which is undefined behaviour.
- BlockAllocator.Clear: does not model the pushes of slab headers onto `first_open`, because `first_open = NULL` discards them.
- BlockProperties: the set of live chunks is the caller's knowledge. It enters the lemmas as a parameter, so freeing a chunk that is not live is outside the partition lemmas (`DoubleFreeHandsOutTwice` shows what goes wrong).
- There are no destructors of the allocator classes in these headers, so none is modelled.

## Findings

| source | as written | input that shows it | evidently intended | confidence | as-written member | corrected member |
|---|---|---|---|---|---|---|
| src/node_stack_alloc.h:127-141 | The first loop stops on the slab at position `n_keep`, which stays. Everything after it is freed, and its `next` link is not cleared | `trim_to(0)` on a pool of two slabs: one slab stays, and the second `get_slab` hands out the freed slab | Keep `n_keep` slabs and end the list in null | high, not executed | SlabManager.TrimTo, SlabManager.TrimToLeavesDanglingLink | SlabManager.TrimToFixed, SlabManager.TrimToFixedReleasesUnreachable |
| src/node_stack_alloc.h:266-272 | The middle slabs are walked while `curdel < stackhead` as addresses | Chain of three slabs whose middle slab is above `stackhead` in memory: the middle slab's cells are never destructed and the slab is not returned | Walk the chain up to `stackhead` by position | high, not executed | ManagedStackAllocator.DeleteMem, StackProperties.DeleteMemSkipsHigherSlab, StackProperties.DeleteMemDropsHigherSlab | ManagedStackAllocator.DeleteMemFixed, StackProperties.DeleteMemFixedExactlyOnce |
| src/node_stack_alloc.h:264-277 | `stackhead` is neither returned to the manager nor kept in the chain | Any chain of two slabs: after `delete_mem` the second slab is owned by nobody | Return every slab after `start` to the manager, as `release_mem` does | high, not executed | ManagedStackAllocator.DeleteMem, StackProperties.DeleteMemLeaksStackhead | ManagedStackAllocator.DeleteMemFixed, StackProperties.DeleteMemFixedExactlyOnce |
| src/node_block_alloc.h:142 | Inside the class, `free(del)` names the member `free`, which pushes the slab header onto the free list, and `first_open = NULL` then drops it | `clear()` on an allocator owning one slab: the slab is never handed back to the system | Call the system `free` (`::free(del)`) | high, not executed | BlockAllocator.Clear, BlockProperties.ClearLeaksSlabs | BlockAllocator.ClearFixed, BlockProperties.ClearFixedReleasesAll |
