# static_allocator in Dafny

This project models the two fixed-arena pool allocators of `static_allocator`
and the typed adapters that expose them to containers:

- **The chunk-granular pool** of `lib/memmanagment.hpp`, `memmanagment::mem_pool<POOL_SIZE, CHUNK_SIZE>`.
  - Its arena is `chunks_cnt = ⌈POOL_SIZE / CHUNK_SIZE⌉` chunks, with one reservation flag per chunk.
  - `allocate(bytes, alignment)` is a first-fit scan over candidate chunks. Each candidate is aligned with `std::align`, then either satisfied inside the chunk or extended over the following free chunks.
  - `deallocate(ptr, bytes)` maps both ends of the request back to chunk indices and frees the flags between them.
  - The adapter `mem_allocator<T, MEM_POOL>` turns element counts into byte counts.
- **The byte-granular pool** of `main.cpp`, `mem_pool<POOL_SIZE>`.
  - It has one flag per byte.
  - `allocate` is `std::search_n` followed by `std::fill_n`.
  - `deallocate` is `std::fill_n`.
  - Its own `mem_allocator` sits on top.

Addresses are natural numbers. The arena starts at `base`, chunk `i` of the chunk-granular pool is at `base + i * chunkSize`, and offset `k` of the byte-granular pool is at `base + k`. A null pointer is `None`. A flag is `true` when reserved. `std::size_t` arithmetic in the adapters wraps modulo 2^64 (`Basics.MulSizeT`).

Each pool is a `class` whose flag table is an `array<bool>` changed in place, by the same loops the source runs:
- `std::find_if`, `std::all_of`, `std::search_n` and `std::fill` are in module `StdAlgorithms`.
- Every method is proved to return, and to leave in the table, exactly what a specification function computes. These functions are in `ChunkSpec` and `ByteSpec`.
- The lemmas about those functions state what the allocators guarantee.

Behaviour of the chunk-granular pool that the model reproduces as the code has it:

- Chunk 0 is always the first candidate, whatever its flag. Later candidates are the free chunks after the previous one (`lib/memmanagment.hpp:89-90`).
- On the single-chunk path the flag of the chosen chunk is set to `false`, so a request that fits in one chunk reserves nothing. Its address is handed out again by the next such request (`ChunkSpec.SmallRequestGetsChunkZero`).
- `std::all_of` checks only the chunks after the candidate, so a spanning request may start in a reserved chunk 0.
- `deallocate` frees the chunks from `get_chunk_index_by_ptr(ptr)` to `get_chunk_index_by_ptr(ptr + bytes)` inclusive.
  - When `ptr + bytes` lies on a chunk boundary, that frees one chunk that holds no byte of the request (`ChunkSpec.DeallocateFreesChunkPastRequest`).
  - When the aligned pointer is the last address of its candidate's window, the candidate's own flag stays reserved (`ChunkSpec.SpanRoundTrip`).

Three details of the library code are easy to misread, and the model follows the code in each:
- the single-chunk path writes `false` to the candidate's flag (lib/memmanagment.hpp:97), while the spanning path writes `true` (lib/memmanagment.hpp:108);
- `pool_mutex` (lib/memmanagment.hpp:57) is locked only in `deallocate` (lib/memmanagment.hpp:129); `allocate` takes no lock;
- the deallocation span is computed from both end pointers (lib/memmanagment.hpp:125-127), not with `bytes_cnt2chunks_cnt` (lib/memmanagment.hpp:59-62), which computes `⌈bytes / chunk_size⌉` and which nothing calls.

Modules:
- `Basics`: `SizeT`, `Option`, wrapping multiplication.
- `Arith`: linear facts about multiplication and division.
- `StdAlgorithms`: the standard algorithms over the flag table.
- `ChunkSpec` and `ChunkPool`: `lib/memmanagment.hpp`.
- `ByteSpec` and `BytePool`: `main.cpp`.

## Model

| member | source | states |
|---|---|---|
| Basics.MulSizeT | lib/memmanagment.hpp:158 | `n * sizeof(T)` in `std::size_t`: the product modulo 2^64, which is the true product exactly when that is below 2^64 |
| StdAlgorithms.Filled | lib/memmanagment.hpp:108 | the table after `std::fill`: length kept, flags in the range set to the value, all others unchanged |
| StdAlgorithms.FillThenClear | main.cpp:37-53 | filling a free range with `true` and then with `false` gives back the original table |
| StdAlgorithms.FindFree | lib/memmanagment.hpp:90 | `std::find_if(next(it), end, is_free)`: the first free flag at or after the start, or the end, with every flag skipped reserved |
| StdAlgorithms.AllOfFree | lib/memmanagment.hpp:107 | `std::all_of(..., is_free)` is true exactly when every flag in the range is free |
| StdAlgorithms.SearchN | main.cpp:32-33 | `std::search_n(begin, end, count, false)`: 0 for count 0; otherwise the lowest start of `count` free flags, or the end only when no such run exists |
| StdAlgorithms.FillRange | lib/memmanagment.hpp:131 | `std::fill` / `std::fill_n` on the array: the new table is the old one with the range overwritten |
| ChunkSpec.DivWithRound | lib/memmanagment.hpp:30-33 | `a / b + !!(a % b)` is the ceiling of a / b: the least r with a <= r * b |
| ChunkSpec.DivWithRoundSelf | lib/memmanagment.hpp:30-33 | `div_with_round(c, c)` is 1 |
| ChunkSpec.ChunksCnt | lib/memmanagment.hpp:48 | at least one chunk, and the fewest chunks of `CHUNK_SIZE` bytes that cover `POOL_SIZE` bytes |
| ChunkSpec.BytesCntToChunksCnt | lib/memmanagment.hpp:59-62 | the fewest chunks that hold `bytes` bytes |
| ChunkSpec.ChunkIndexByPtr | lib/memmanagment.hpp:64-70 | the index of the chunk whose address range holds `p` |
| ChunkSpec.ChunkAddrMonotone | lib/memmanagment.hpp:64-70 | chunk addresses order exactly as their indices do, one chunk size apart |
| ChunkSpec.ChunkIndexUnique | lib/memmanagment.hpp:64-70 | any chunk whose range holds `p` is the one `get_chunk_index_by_ptr` names |
| ChunkSpec.IndexInWindow | lib/memmanagment.hpp:64-70 | an address in chunk `i`'s window lies in chunk `i`, except the window's end, which lies in chunk `i + 1` |
| ChunkSpec.IndexAtEnd | lib/memmanagment.hpp:64-70 | the end of a request that finishes in chunk `e - 1` maps to `e - 1`, or to `e` when it is exactly chunk `e`'s address |
| ChunkSpec.Padding | lib/memmanagment.hpp:94 | the padding `std::align` adds is below the alignment, lands on a multiple of it, and no smaller padding does |
| ChunkSpec.Align | lib/memmanagment.hpp:94 | `std::align(alignment, 0, ptr, space)`: on success the lowest aligned address at or after `ptr`, with `ptr + space` preserved; it fails exactly when no aligned address lies in `[ptr, ptr + space]` |
| ChunkSpec.AlignOne | lib/memmanagment.hpp:94 | alignment 1 leaves pointer and space unchanged |
| ChunkSpec.IsCandidate | lib/memmanagment.hpp:89-90 | the loop visits chunk 0 whatever its flag; a chunk is skipped exactly when it is past chunk 0 and reserved |
| ChunkSpec.RangeChecks | lib/memmanagment.hpp:104-105 | the source's range check `AsWrittenRangeCheck` admits a range `[it, it + additional + 1)` ending at most one past the table, and every range ending inside it; the model's `RangeFits` admits only ranges ending inside the table, each of which the source's check admits too |
| ChunkSpec.TryChunk | lib/memmanagment.hpp:91-111 | the verdict on one candidate; a spanning verdict's range ends after the candidate and inside the table |
| ChunkSpec.TryChunkFacts | lib/memmanagment.hpp:91-111 | a fit's pointer is the lowest aligned address in the candidate's window; an in-chunk fit ends by the next chunk; a spanning fit covers exactly the chunks up to the request's last byte, all free after the candidate; any aligned address in the chunk that holds the request yields an in-chunk fit |
| ChunkSpec.FirstFit | lib/memmanagment.hpp:89-113 | the first candidate in ascending order whose verdict is a fit; every candidate before it is rejected |
| ChunkSpec.FirstFitSkip | lib/memmanagment.hpp:89-90 | skipping reserved chunks and rejected candidates does not change the first fit |
| ChunkSpec.FirstFitStep | lib/memmanagment.hpp:89-90 | one skipped chunk or rejected candidate does not change the first fit |
| ChunkSpec.AllocateResult | lib/memmanagment.hpp:77-116 | zero bytes return the arena base; a returned pointer is aligned; `nullptr` exactly when every candidate is rejected |
| ChunkSpec.Commit | lib/memmanagment.hpp:97-108 | the flags written for an accepted candidate: none for a rejection; only the candidate's own flag, set to free, on the single-chunk path; exactly `[it, range_end)` reserved on the spanning path |
| ChunkSpec.AllocateTable | lib/memmanagment.hpp:77-116 | the table keeps its length, and is unchanged when zero bytes are asked for or the allocation fails |
| ChunkSpec.AcceptCandidate | lib/memmanagment.hpp:96-110 | once the scan reaches a candidate that fits, allocation returns its pointer and commits its flags |
| ChunkSpec.AllocateSuccess | lib/memmanagment.hpp:89-110 | a success comes from the lowest fitting candidate `i`, lies in `[chunk_i, chunk_i + c]` and is aligned; the single-chunk path writes only flag `i`, to `false`, and reserves nothing; the spanning path reserves exactly `[i, rangeEnd)`, holds `[ptr, ptr + bytes)`, and those chunks after `i` were free |
| ChunkSpec.SmallRequestGetsChunkZero | lib/memmanagment.hpp:89-98 | with an aligned base, a request of at most one chunk always gets the base, clears flag 0, and the next such request gets the base again |
| ChunkSpec.AsWrittenClearEnd | lib/memmanagment.hpp:126-131 | where the source's `fill_n` stops: one past the chunk holding the address `ptr + bytes_cnt` |
| ChunkSpec.ClearEnd | lib/memmanagment.hpp:125-131 | the end of the cleared span: the source's end, cut at the end of the table and never beyond the source's end |
| ChunkSpec.DeallocateTable | lib/memmanagment.hpp:118-132 | no change for null or zero bytes; otherwise exactly the flags from the chunk of `ptr` to the chunk of `ptr + bytes`, inclusive, become free |
| ChunkSpec.DeallocateCoversRequest | lib/memmanagment.hpp:125-131 | every chunk that overlaps `[ptr, ptr + bytes)` is freed |
| ChunkSpec.DeallocateFreesChunkPastRequest | lib/memmanagment.hpp:126-127 | when `ptr + bytes` is the address of chunk `j`, chunk `j` is freed too |
| ChunkSpec.SpanRoundTrip | lib/memmanagment.hpp:101-131 | reserving a spanning range and then deallocating the request restores every flag except the candidate's (still reserved when the pointer is at its window's end) and the chunk just past the range (freed when the request ends on its boundary) |
| ChunkSpec.SpanningCommit | lib/memmanagment.hpp:101-110 | a spanning allocation returns the fit's pointer, which lies in the candidate's window; it reserves exactly `[i, rangeEnd)`, whose chunks after `i` were free and whose last chunk holds the request's last byte |
| ChunkSpec.SpanningRoundTrip | lib/memmanagment.hpp:101-131 | the same round trip for a spanning allocation that `allocate` actually returns |
| ChunkSpec.RejectedWhenNextTaken | lib/memmanagment.hpp:107 | a spanning request is rejected on a candidate whose next chunk is reserved |
| ChunkSpec.SpanningAccepted | lib/memmanagment.hpp:104-110 | a spanning request is accepted on a candidate whose following chunks are free and inside the table |
| ChunkSpec.AsWrittenRangeCheckOverruns | lib/memmanagment.hpp:104-105 | when `distance(it, end) == additional` the source's check passes with a range ending one past the table; the model rejects the candidate |
| ChunkSpec.RangeFitsRefinesAsWritten | lib/memmanagment.hpp:104-105 | the model's range check is the source's check minus exactly the overrunning case |
| ChunkSpec.AsWrittenRangeCheckExample | lib/memmanagment.hpp:104-105 | a table whose chunks 1 to n-2 are reserved and whose last chunk is free, with `allocate(2 * CHUNK_SIZE, 1)`, reaches the overrunning range; the model's allocation fails |
| ChunkSpec.AsWrittenDeallocateOverruns | lib/memmanagment.hpp:125-131 | a request ending at the end of the chunk storage makes the source clear up to index `chunks_cnt + 1`; the model clears to the table end and frees the request's chunks |
| ChunkSpec.AsWrittenDeallocateExample | lib/memmanagment.hpp:125-131 | on an empty two-chunk pool, `allocate(2 * CHUNK_SIZE, 1)` returns the base and its deallocation reaches past the table |
| ChunkPool.MemPool.constructor | lib/memmanagment.hpp:44-55 | `chunks_cnt` flags, all free |
| ChunkPool.MemPool.Examine | lib/memmanagment.hpp:91-111 | the loop body's verdict for candidate `it` is `TryChunk` |
| ChunkPool.MemPool.Allocate | lib/memmanagment.hpp:77-116 | returns `AllocateResult` and leaves `AllocateTable` |
| ChunkPool.MemPool.Deallocate | lib/memmanagment.hpp:118-132 | leaves `DeallocateTable` |
| ChunkPool.MemAllocator.constructor | lib/memmanagment.hpp:148-149 | binds the adapter to the given pool |
| ChunkPool.MemAllocator.Rebind | lib/memmanagment.hpp:151-153 | the converted adapter shares the other's pool and compares equal to it both ways |
| ChunkPool.MemAllocator.Allocate | lib/memmanagment.hpp:156-165 | asks for `n * sizeof(T)` bytes, wrapped in `std::size_t`, at `alignof(T)`; a null result terminates; the table is the pool's `AllocateTable` |
| ChunkPool.MemAllocator.Deallocate | lib/memmanagment.hpp:167-170 | gives back `n * sizeof(T)` bytes, wrapped in `std::size_t`, at the default alignment |
| ChunkPool.MemAllocator.Equals | lib/memmanagment.hpp:172-176 | true exactly when both adapters refer to the same pool object |
| ChunkPool.MemAllocator.NotEquals | lib/memmanagment.hpp:178-182 | the negation of `==` |
| ChunkPool.EqualsIsEquivalence | lib/memmanagment.hpp:172-182 | `==` is reflexive, symmetric and transitive, and `!=` is its negation read either way round |
| ByteSpec.LowestFreeRun | main.cpp:32-33 | the lowest start of `count` free flags, with no such run before it, or none |
| ByteSpec.LowestFreeRunIs | main.cpp:32-33 | a run with none below it is the lowest |
| ByteSpec.AllocateIndex | main.cpp:32-39 | offset 0 for zero bytes; otherwise a run of free flags inside the table with none lower; none exactly when no run exists |
| ByteSpec.AllocateResult | main.cpp:26-41 | the base for zero bytes; otherwise `base + i` for the lowest run `i` of free flags; `nullptr` exactly when there is none (alignment plays no part) |
| ByteSpec.AllocateTable | main.cpp:32-37 | exactly the handed-out run becomes reserved; nothing changes on failure or for zero bytes |
| ByteSpec.DeallocateAllowed | main.cpp:47-53 | a null or empty release is always allowed; any other must start inside the arena (and keep its run inside `is_reserved`) |
| ByteSpec.DeallocateTable | main.cpp:43-54 | no change for null or zero bytes; otherwise exactly `[ptr - base, ptr - base + bytes)` becomes free |
| ByteSpec.RoundTrip | main.cpp:37-53 | `allocate(n)` followed by `deallocate(p, n)` restores the table exactly |
| ByteSpec.AllocationAvoidsReserved | main.cpp:32-37 | a new allocation is disjoint from every range still reserved |
| ByteSpec.SuccessiveAllocationsDisjoint | main.cpp:32-37 | two allocations in a row hand out disjoint ranges |
| ByteSpec.AdapterDeallocateLeaks | main.cpp:78-88 | with elements of more than one byte, deallocating through the adapter frees only the first `n` flags; the rest of the range, free before, stays reserved |
| ByteSpec.AdapterByteRoundTrip | main.cpp:78-88 | with one-byte elements the adapter's round trip is exact |
| BytePool.MemPool.constructor | main.cpp:16-23 | `POOL_SIZE` flags, all free |
| BytePool.MemPool.Allocate | main.cpp:26-41 | returns `AllocateResult` and leaves `AllocateTable`, for every alignment |
| BytePool.MemPool.Deallocate | main.cpp:43-54 | leaves `DeallocateTable` |
| BytePool.MemAllocator.constructor | main.cpp:69-70 | binds the adapter to the given pool |
| BytePool.MemAllocator.Rebind | main.cpp:72-74 | the converted adapter shares the other's pool and compares equal to it both ways |
| BytePool.MemAllocator.Allocate | main.cpp:76-84 | asks for `n * sizeof(T)` bytes, wrapped in `std::size_t`; a null result is returned as it is |
| BytePool.MemAllocator.Deallocate | main.cpp:86-89 | forwards `sz` unmultiplied as the byte count |
| BytePool.MemAllocator.Equals | main.cpp:93-97 | true exactly when both adapters refer to the same pool object |
| BytePool.MemAllocator.NotEquals | main.cpp:99-103 | the negation of `==` |
| BytePool.EqualsIsEquivalence | main.cpp:93-103 | `==` is reflexive, symmetric and transitive, and `!=` is its negation read either way round |
| BytePool.StaticPool | main.cpp:57-59 | `static_pool`: `STATIC_POOL_SIZE` (100) free flags |

## Left out

- Mutexes (`std::mutex`, `std::lock_guard`): the model is sequential. In the library only `deallocate` takes the lock, and only around its `fill_n`; `allocate` takes none.
- Memory contents: the arena's bytes, `std::aligned_storage_t` and the `reinterpret_cast`s are not modelled. Addresses are base plus offset. `sizeof(pool.chunk[0])` is taken to be `CHUNK_SIZE`.
- `std::align` accepts only powers of two as alignments. The model accepts any positive alignment and requires one; an alignment of 0 is undefined in the source.
- Failure output: `std::cerr` with `exit(EXIT_FAILURE)` in the library adapter becomes the result `Terminated`. The `"ASSERT"` line main.cpp's adapter prints is not modelled; its null result is.
- The `rebind` member template, `value_type` and `allocator_traits`: type-level. Rebinding is modelled as an adapter built from another one that shares its pool.
- C++ access control and typing: `pool` is private in both adapters (lib/memmanagment.hpp:138-139, main.cpp:63-64).
  - The library's converting constructor and `==`/`!=` read `pool` of another `mem_allocator` specialization, so they compile only when both adapters have the same type.
  - main.cpp's converting constructor has the same limit.
  - main.cpp's `==` and `!=` (main.cpp:93-103) are non-member, non-friend templates reading that private member, so they compile for no `T` at all.
  - The model allows any two adapters in every case.
- Default arguments: `alignment = max_align` is the constant `Basics.MAX_ALIGN`. main.cpp's adapter passes it to both pool calls, where it is ignored. The library adapter's `deallocate` passes it too. The default `static_pool` argument of main.cpp's adapter is not a default in the model; callers pass the pool, which `BytePool.StaticPool` creates.
- Undefined behaviour the callers must avoid is stated as preconditions on the `deallocate` methods:
  - a pointer below the arena;
  - a first chunk past the table in the library;
  - a run past `is_reserved` in main.cpp.
- ByteSpec.AdapterDeallocateLeaks: stated only for products below 2^64; when `n * sizeof(T)` wraps, the adapter asks for a different number of bytes, which `Basics.MulSizeT` describes.
- ChunkSpec.TryChunk: arithmetic is on unbounded integers. At lib/memmanagment.hpp:101-102 the `std::size_t` quotient is stored in the signed `difference_type`. It becomes negative above `PTRDIFF_MAX`, which only a `CHUNK_SIZE` of 1 or 2 with a request of 2^63 bytes or more reaches. The check at :104 then passes and `std::next` moves backwards, which is undefined behaviour. The model rejects such a candidate as one whose range does not fit.
- ChunkSpec.DeallocateTable: `ptr + bytes_cnt` at lib/memmanagment.hpp:126 is computed in address width. It can wrap, or point beyond the arena, which is undefined behaviour. The model uses the unbounded sum and clamps the cleared span at the table end (`ChunkSpec.ClearEnd`).
- ChunkSpec.AllocateTable: its own contract gives only the length and the no-op cases; the flags written on success are stated by `ChunkSpec.AllocateSuccess`.
- The test suite, the demo `main()` and src/main.cpp: they drive containers and threads and print results.

## Findings

| source | as written | input that shows it | evidently intended | confidence | as-written member | corrected member |
|---|---|---|---|---|---|---|
| lib/memmanagment.hpp:104-105 | `distance(it, end) >= additional` admits `distance == additional`; `next(it, additional + 1)` is then one past the table, and `all_of` reads (and `fill` may write) that flag | a table of n >= 3 chunks with chunks 1 to n-2 reserved and chunk n-1 free, `allocate(2 * CHUNK_SIZE, 1)`: candidate n-1 passes the check with a range ending at n + 1 | accept a candidate only if its range ends inside the table (`it + additional + 1 <= chunks_cnt`) | not executed | ChunkSpec.AsWrittenRangeCheckExample | ChunkSpec.TryChunk |
| lib/memmanagment.hpp:126-131 | `fill_n` from the first chunk over `last - first + 1` flags, where `last` is the chunk of `ptr + bytes`, which is `chunks_cnt` when the request ends at the end of the chunk storage | an empty pool of two chunks, `allocate(2 * CHUNK_SIZE, 1)` returns the base, then `deallocate(base, 2 * CHUNK_SIZE)` writes flags 0, 1 and 2 | stop clearing at the end of the table | not executed | ChunkSpec.AsWrittenDeallocateExample | ChunkSpec.DeallocateTable |
