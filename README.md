# A verified model of a first/next/best-fit heap allocator

This project models the allocator of `allocator.cpp`. The allocator keeps
every block it has ever taken from the operating system in one chain of
headers. The chain is ordered by address, and it has no gaps as long as
nothing but the allocator moves the program break. Each header
records the payload size, an in-use flag and a link to the next header.
The globals `heapStart`, `top`, `searchStart` and `searchMode` anchor the
chain.

- `alloc(n)` rounds `n` up to a whole word. It then asks the search of the
  current mode for a free block that is large enough: first fit, next fit
  or best fit. If the search finds nothing, `alloc` grows the heap by one
  header plus the rounded size and appends a used block at the break.
- `free(p)` goes from the payload back to its header by a fixed offset and
  clears the in-use flag.
- `resetHeap` and `init(mode)` drop the whole chain.

The model has five modules:

- `Layout` (layout.dfy) fixes the LP64 sizes. A word is 8 bytes.
  `sizeof(Block)` is 32 and `sizeof(data)` is 8, so a header costs 24
  bytes and the payload starts 24 bytes after its header. The module also
  holds `align`, `allocSize` and `getHeader`.
- `Chain` (chain.dfy) holds the chain as a sequence of `Block(size, used)`.
  Block `i` links to block `i + 1`, and position `|blocks|` stands for
  `nullptr`. The module states the three searches as functions of the
  chain and proves what each one picks.
- `HeapSpec` (heapspec.dfy) treats the globals as one `Heap` value and each
  public operation as a function from the old heap to the new one.
- `Allocator` (allocator.dfy) is the imperative allocator. It is a class
  whose fields are the globals plus the program break. Its methods walk
  the chain with the loops of the source and update it in place, with two
  exceptions. `BestFit` advances in the branch where the source does not
  (see Findings). `Free` finds the header by its address in the chain,
  where the source follows the pointer. `FirstFit` changes nothing and is
  proved to return what `Chain.FirstFitIn` picks. Every other method is
  proved to follow the matching `HeapSpec` function.
- `Scenarios` (scenarios.dfy) replays the assertions of
  `allocator_tests.cpp` against the model.

Addresses are natural numbers. The header of block `i` sits at the heap's
base address plus `allocSize` of every earlier block. The allocator's
results are payload addresses, as in the source.

Behaviour of the code that a reader of a first/next/best-fit allocator may
not expect, kept as written:

- `firstFit` never marks the block it finds as used, and `alloc` hands that
  block out as it is. Under first fit, a reused block therefore still reads
  free, and the next request of the same size gets the same block again
  (`HeapSpec.FirstFitHandsOutTwice`). `nextFit` and `bestFit` do mark their
  block.
- `bestFit` starts with `currentBestBlock = heapStart` and uses that value
  to mean "no candidate yet". A qualifying `heapStart` is therefore
  replaced by the next qualifying block, whatever that block's size
  (`Chain.BestFitNeverKeepsHeapStart`). The smallest-difference guarantee is
  proved only against blocks other than `heapStart`.
- `nextFit` with a null `searchStart` skips its first loop. Its second
  loop then runs to the end of the chain. Heap growth never moves
  `searchStart`.
- The code never splits or coalesces blocks, and it has no free-list or
  segregated-fit mode. The chain only grows at `top`, and only a reset
  drops it.

## Model

| member | source | states |
|---|---|---|
| `Layout.Align` | allocator.cpp:30-32 | the rounded size is a multiple of the word size, at least `n`, and less than `n + 8` |
| `Layout.AlignIsLeast` | allocator.cpp:30-32 | `align(n)` is at most every word multiple that is at least `n`; rounding twice changes nothing |
| `Layout.AllocSize` | allocator.cpp:34-36 | a block takes its payload plus the `offsetof(Block, data)` bytes of header before it from the heap |
| `Layout.PayloadOf` | allocator.cpp:196-198 | the payload address `block->data`; `getHeader` of it is the header again |
| `Layout.GetHeader` | allocator.cpp:196-198 | the header begins `offsetof(Block, data)` bytes before its payload |
| `Layout.HeaderPayloadInverse` | allocator.cpp:196-198 | `getHeader(block->data) == block`; payload and header are `allocSize(0)` bytes apart; `allocSize(s)` is `s` plus that distance |
| `Chain.OffsetIncreasing` | allocator.cpp:177-190 | each appended header lies past the whole of every earlier block, so headers are strictly increasing in chain order |
| `Chain.FirstFitIn` | allocator.cpp:56-69 | returns the first block of the range that is free and at least `size` bytes, with none such before it; returns nothing exactly when no block in the range qualifies |
| `Chain.NextFitPick` | allocator.cpp:71-106 | the result qualifies; nothing is found exactly when no block qualifies; no qualifying block comes before the result in the circular order that starts at `searchStart`, or at `heapStart` when `searchStart` is null |
| `Chain.BestScan` | allocator.cpp:112-141 | the best-fit loop with `block` advanced in every branch: a chosen block lies in the chain; it chooses nothing exactly when no candidate was held and no block from the current one on qualifies |
| `Chain.BestFitIn` | allocator.cpp:108-143 | the repaired scan from `heapStart`: it chooses nothing exactly when no block qualifies |
| `Chain.BestScanAsWritten` | allocator.cpp:112-141 | the best-fit loop as written: `Spins` where it re-enters the last branch forever; it reports nothing exactly when no candidate was held and no block from the current one on qualifies |
| `Chain.BestFitAsWritten` | allocator.cpp:108-143 | the source's `bestFit` from `heapStart`: it reports nothing exactly when no block qualifies |
| `Chain.BestFitChoice` | allocator.cpp:108-143 | nothing is chosen exactly when no block qualifies; the choice qualifies; if any block fits exactly, the choice is the first exact fit; no block other than `heapStart` fits more tightly, or as tightly and earlier |
| `Chain.BestScanAvoidsHeapStart` | allocator.cpp:110-141 | once the scan is past `heapStart`, it never answers `heapStart` when it already holds another candidate or a qualifying block lies ahead |
| `Chain.BestFitNeverKeepsHeapStart` | allocator.cpp:110-127 | for every chain, a qualifying `heapStart` that is not an exact fit is never chosen when a later block qualifies, however much more tightly `heapStart` fits, because `heapStart` is also the "no candidate" value |
| `Chain.BestFitSkipsHeapStart` | allocator.cpp:110-127 | on `[24 free, 8 used, 64 free]` with a 16-byte request, the 64-byte block is chosen over the tighter `heapStart` |
| `Chain.BestFitAsWrittenSpins` | allocator.cpp:128-133 | on `[8 used, 64 free, 32 free]` with a 16-byte request, the source's loop reaches its last branch at the 32-byte block and never ends |
| `Chain.BestScanRepairAgrees` | allocator.cpp:112-141 | whenever the source's loop returns, the repaired loop returns the same block, or null when the source does |
| `HeapSpec.NextFitStep` | allocator.cpp:71-106 | nothing found changes nothing; a found block qualifies, is marked used and becomes `searchStart`; no other block changes |
| `HeapSpec.BestFitStep` | allocator.cpp:108-143 | nothing found changes nothing; a found block qualifies and is marked used; `searchStart` and every other block are untouched |
| `HeapSpec.FindStep` | allocator.cpp:145-158 | `findBlock` finds nothing exactly when no free block is large enough, and then changes nothing; a found block qualifies; no size changes; no other block changes; next fit and best fit mark the block used and first fit does not; only next fit moves `searchStart`, to the found block |
| `HeapSpec.AllocStep` | allocator.cpp:170-193 | `alloc` keeps the heap well formed; it fails only when growth is refused and no block fits; a reused block is exactly what `findBlock` returns; growth appends exactly one block `Block(align(n), used)` after all the old ones and only when nothing fits; the block handed out holds at least `align(n)` bytes |
| `HeapSpec.AllocKeepsAddresses` | allocator.cpp:160-168 | `alloc` moves no existing header; a grown block starts at the old break; the break advances by exactly `allocSize(align(n))` |
| `HeapSpec.FreeStep` | allocator.cpp:200-203 | the freed block keeps its size and reads free; every other block, `searchStart` and the mode are untouched |
| `HeapSpec.FlagKeepsAddresses` | allocator.cpp:200-203 | setting or clearing a used flag moves no header and keeps the heap well formed |
| `HeapSpec.BlockOfPayload` | allocator.cpp:196-198 | `getHeader` applied to the payload address of block `i` leads back to block `i` |
| `HeapSpec.ResetStep` | allocator.cpp:38-48 | after `resetHeap` the chain is empty and `searchStart` is null, and the mode is kept; an empty heap is left as it was |
| `HeapSpec.InitStep` | allocator.cpp:50-53 | after `init(mode)` the heap is empty, `searchStart` is null and the mode is `mode` |
| `HeapSpec.AllocFreeAlloc` | allocator_tests.cpp:11-21 | in every mode, `alloc(n)`, then `free`, then `alloc(n)` returns the same block at the same address and does not grow the heap |
| `HeapSpec.FirstFitHandsOutTwice` | allocator.cpp:170-175 | under first fit, a reused block is returned still marked free, and the next `alloc` of the same size returns it again |
| `Allocator.Allocator.constructor` | allocator.cpp:22-28 | the program starts with no heap, a null `searchStart` and first fit |
| `Allocator.Allocator.FirstFit` | allocator.cpp:56-69 | the walk from `heapStart` returns what `Chain.FirstFitIn` picks over the whole chain and changes nothing |
| `Allocator.Allocator.NextFit` | allocator.cpp:71-106 | the two walks mark the block `Chain.NextFitPick` picks as used and make it `searchStart`; with nothing found, nothing changes |
| `Allocator.Allocator.BestFit` | allocator.cpp:108-143 | the walk marks the block `Chain.BestFitIn` picks as used and touches nothing else; with nothing found, nothing changes |
| `Allocator.Allocator.FindBlock` | allocator.cpp:145-158 | dispatches on the mode and ends in the state `HeapSpec.FindStep` describes |
| `Allocator.Allocator.Alloc` | allocator.cpp:170-193 | ends in the state `HeapSpec.AllocStep` describes, with the program break still at the end of the chain; returns the payload address of the block handed out |
| `Allocator.Allocator.Free` | allocator.cpp:200-203 | clears the used flag of the block whose payload was passed, and changes nothing else |
| `Allocator.Allocator.ResetHeap` | allocator.cpp:38-48 | ends in the state `HeapSpec.ResetStep` describes, with the break back at the heap's base |
| `Allocator.Allocator.Init` | allocator.cpp:50-53 | ends in the state `HeapSpec.InitStep` describes |
| `Scenarios.BasicAllocationFirstFit` | allocator_tests.cpp:6-21 | `alloc(3)` gets one word; `alloc(8)` gets 8 bytes; after `free` the block reads free; the next `alloc(8)` returns the same 8-byte header without growth |
| `Scenarios.NextFitSetup` | allocator_tests.cpp:56-66 | five growths under next fit leave `searchStart` null; freeing the two 16-byte blocks gives the heap both next-fit tests reuse from |
| `Scenarios.NextFitReusesFirstFreed` | allocator_tests.cpp:29-46 | the first 16-byte reuse takes the first freed block and makes it `searchStart` |
| `Scenarios.NextFitAdvancesCursor` | allocator_tests.cpp:68-85 | the second 16-byte reuse takes the second freed block and moves `searchStart` to it; 32-byte and 1000-byte requests then grow the heap with used blocks of `align(32)` and `align(1000)` bytes |
| `Scenarios.BestFitSetup` | allocator_tests.cpp:93-107 | allocating 8, 64, 8 and 16 bytes under best fit and freeing the 16 and the 64 gives the heap the best-fit test reuses from |
| `Scenarios.BestFitPrefersExact` | allocator_tests.cpp:109-119 | a 16-byte request takes the exact 16-byte block over the earlier 64-byte one; the next 16-byte request takes the 64-byte block, without growth |

## Findings

| source | as written | input that shows it | evidently intended | confidence | as-written member | corrected member |
|---|---|---|---|---|---|---|
| allocator.cpp:128-133 | the last branch of the best-fit loop neither advances `block` nor returns, so the loop examines the same block forever | a used 8-byte `heapStart` followed by free blocks of 64 and 32 bytes, and a 16-byte request | advance `block` in that branch as in the others | high; not executed | `Chain.BestFitAsWrittenSpins` | `Chain.BestFitChoice` |

`Chain.BestScanAsWritten` is the source's loop as written: it reports
`Spins` where the source would loop forever. `Chain.BestScan` is the
repaired loop, which `Allocator.Allocator.BestFit` runs. The only change is
the added advance. `Chain.BestScanRepairAgrees` proves that the two loops
agree wherever the source's loop ends.

## Left out

- `requestFromOS` and the `sbrk`/`brk` calls are not modelled as system
  calls. The class keeps the break as a field. A boolean `granted` decides
  whether the system allows a growth.
- The model assumes that the allocator is the only code that moves the
  program break. `requestFromOS` puts each new header wherever `sbrk(0)`
  reports (allocator.cpp:161), and `resetHeap` moves the break back with
  `brk(heapStart)` (allocator.cpp:43). Headers are therefore contiguous, as
  `Chain.Offset` lays them out, only when no other code calls `sbrk` or
  `brk` in between.
- `Allocator.Allocator.BestFit` advances `block` in the last branch of
  its loop, where the source loops forever (see Findings). The
  "no candidate" role of `heapStart` is kept as written.
- `Chain.BestFitChoice` proves the tightest-fit property only against
  blocks other than `heapStart`. The source uses `heapStart` as its
  "no candidate" value, so a tighter `heapStart` can lose.
  `Chain.BestFitNeverKeepsHeapStart` states that case for every chain.
- `Allocator.Allocator.Alloc`: when growth is refused, the source does not
  check for `nullptr` and writes through it. The model returns `None`
  instead and changes nothing. The outcome in the source is undefined.
- The uninitialised `next` field of a freshly grown block is not modelled.
  The link structure is implicit in chain order: a new block is always the
  tail, `top` is the last position, and `heapStart` is position 0.
- Struct padding and the `word_t data[1]` trick are not modelled. The LP64
  sizes are fixed as constants instead.
- `Layout.Align` works on unbounded naturals, so it does not model the
  `size_t` wrap-around of `(n + 7) & ~7` when `n` is within 7 of
  `SIZE_MAX`. The bit mask is stated as clearing the low three bits, that
  is `m - m % 8`.
- `Layout.AllocSize` works on unbounded naturals, so it does not model the
  `size_t` wrap-around of `size + sizeof(Block) - sizeof(data)` when the
  rounded size is within 24 of `SIZE_MAX`.
- `HeapSpec.AllocStep` does not model the signed `intptr_t` argument of
  `sbrk` (allocator.cpp:163). An `allocSize` above `INTPTR_MAX` becomes a
  negative increment in the source. With `granted` true, the model appends
  `Block(align(n), true)` for every `n`. For such sizes the model is
  faithful only when `granted` is false.
- `Allocator.Allocator.Free` requires that its argument be the payload
  address of a block of the chain, named by a ghost index. The source does
  not validate its argument, and freeing anything else is undefined. The
  model finds the header by its address in the chain, where the source
  reaches it through the pointer. Freeing an already free block is allowed
  and changes nothing.
- The `main` driver in allocator.cpp (lines 208-331), the test driver
  `main`, and all printing are left out. The assertions they make are
  replayed in `Scenarios`.
- The assertions at allocator_tests.cpp:121-129 expect `alloc` to split the
  64-byte block. The code never splits blocks, so those assertions are not
  stated as lemmas.
- Splitting, coalescing, the free-list index and segregated fit do not
  exist in this code and are not modelled.
- Concurrency is not modelled. The source uses its globals from a single
  thread.
