# Kernel core: allocator, page tables, lock, formatter, knode store

A Dafny model of the algorithmic core of the kernel, and proofs about it.

The main part is the two-level segregated-fit allocator of `sys/hive/mm/tlsf.c`.
`Tlsf.Control` is the allocator as the source has it: header words with status
bits in memory, a predecessor pointer overlaid on the last payload word, doubly
linked free lists ending at `block_null`, two bitmap levels and a table of list
heads, all updated in place. Beside them it keeps, as ghost state, the heap seen
from above (`HeapOps.State`): which blocks tile the pool, which are free, and the
order of every free list. Each method is proved to take the abstract heap one
step further and to keep memory, bitmaps and heads in agreement with it
(`Valid`). The abstract steps (`HeapOps`, `HeapCalls`, `HeapMemalign`,
`HeapRealloc`) carry the properties callers rely on: the invariant, what a call
hands out, round trips, and runs of any length.

How the files fit together:

| files | subject |
|---|---|
| Param, Errno, Arith, SizeClass, Words, Header | parameters and error numbers; powers and masks; size classes; bitmap words with ffs and fls; the size word |
| Heap, HeapOps, HeapCalls, HeapAlign, HeapMemalign, HeapRealloc | the abstract heap, its steps and its four calls |
| HeapWalk, HeapRoundTrip, HeapRuns, HeapContents, HeapPool | the pool as a whole; undoing an allocation; runs of calls; what owners find in their blocks; creation |
| HeapMemory, HeapCommit, FreeIndex, Bytes | how memory, bitmaps and heads represent the abstract heap |
| Tlsf, TlsfRuns | the allocator in place, and runs on it |
| Pmem, Pte, PageTable, Pmap, Vmem | physical frames, page-table entries, the hardware walk, mapping |
| OsPool | the locked pool under any interleaving of processors |
| Itoa, Printf | number printing and the bounded formatter |
| Objects, Paths, KnodeStore | tail queues, path components, the knode store |

Conventions of the model:

- Addresses and sizes are integers; where 64-bit `size_t` or 8-bit `uint8_t` wraps, the wrap is written out.
- A bitmap word is a vector of 32 truth values, and `&`, `|`, `~`, `<<` act on it position by position.
- Memory is a map from 8-aligned addresses to 64-bit words; physical memory in `Pmap` is a map from frame addresses to tables of 512 words.
- The memory of a `Tlsf.Control` is exactly what it owns: the words of its pool and the two link fields of `block_null` (`HeapCommit.Owns`, `HeapCommit.Mapped`, part of `Valid`). Every contract that promises `Valid` therefore also says that nothing else is written or becomes reachable, and `HeapPool.OutsideIsUntouched` says what that means for the memory the pool was cut from.
- Header fields, page-table entries and indices are read and written by arithmetic; `Header.SizeMask`, `Header.ClearingMasks`, `Header.ClearingMask2`, `Header.SettingMasks`, `Arith.MaskRoundsDown`, `Pte.TableEntryIsOr`, `Pte.LeafEntryIsOr`, `Pte.AddressIsMask`, `Pte.ProtToPteIsOr` and `PageTable.IndexIsMasked` show that this is what the source's masks and shifts do.
- NULL is address 0 in `Tlsf`, and a null reference in `KnodeStore`.
- A `tlsf_assert` that depends on the state or on an argument is an `assert` of the corresponding method, so it is proved never to fire. The power-of-two assertion of the alignment functions is asserted where the alignment is an argument; for the constant 8 it is the second clause of `HeapAlign.AlignmentTest`. `tlsf_remove_pool` and its assertions are not modelled.
- The allocator under `ob_knode_new` and `ob_dir_new` is a parameter that says whether there is room.

Facts about the source that the proofs brought out, each stated exactly:

- `align_up` wraps for the last seven `size_t` values, which are then answered with 24 bytes (`SizeClass.AdjustHonoursRequestIff`).
- `tlsf_add_pool` accepts a pool of exactly 2^32 bytes, which maps one row past the table of lists (`SizeClass.AcceptedPoolIsFiledIff`).
- `tlsf_realloc` has no branch for requests beyond `block_size_max`: they cut the block at zero bytes, and the heap stays well formed exactly when the request adjusts to a size or the block has fewer than 32 bytes (`HeapRealloc.ResizeKeepsInvIff`; a run of two calls gets there, `HeapRuns.OversizedReallocReachable`).
- `tlsf_malloc` may refuse a request of more than 256 bytes that a free block holds: a block is found exactly when it still holds the request after being cut down to a multiple of the class width, a sixty-fourth to a thirty-second part of the request (`SizeClass.SearchedClassIff`, `HeapRuns.StepRefusal`).
- `tlsf_memalign` asks for 24 bytes for the alignment 2^63, whatever the request (`HeapAlign.GapRequestHonouredIff`), and then hands out 2^63 if the block it finds happens to allow that, else the block where it stands (`HeapMemalign.TopAlignment`, which any fresh pool reaches, `HeapRuns.TopAlignmentReachable`). Every other power of two is honoured (`HeapMemalign.MemalignHonoursAlignmentIff`).
- `mm_pmem_alloc` of several frames goes on counting behind a taken frame, so that the range it answers may hold taken frames (`Pmem.RangeCanOverlap`). The range is clear exactly when the bitmap has that many clear frames in a row with the last one counted among them (`Pmem.RangeClearIff`, `Pmem.DrawnClearIff`); the scan has looked at all of it only when they start at the lowest clear frame (`Pmem.RangeSeenIff`).
- A clear frame 0 cannot be handed out: `mm_pmem_alloc` takes it for a failure, marks it and goes on (`Pmem.Allocated`).
- `vsnprintf` answers 0 instead of the length when a conversion, not a literal, fills the buffer (`Printf.AnswerIff`). A width given to any conversion but `%d` is still there for the next `%d` (`Printf.LeftoverWidth`), and a width with digits is the one written exactly when what was left, moved up by those digits, is a multiple of 256 (`Printf.WidthIsWrittenIff`).
- `%0Nd` of a negative number puts the zeros before the sign, so that the result is a numeral exactly when no zeros are needed (`Printf.PaddedDecimal`).
- A path ending in a slash, `/` included, asks for an empty name: it is found exactly when the rest of the path leads to a directory (the root, when there is no rest) with an entry of the empty name, which `ob_knode_new` accepts (`KnodeStore.Store.TrailingSlash`).

## Model

| member | source | states |
|---|---|---|
| Arith.MaskRoundsDown | sys/hive/mm/tlsf.c:472-482 | masking with the complement of 2^k - 1 takes off the remainder modulo 2^k, which is how align_up and align_down round |
| HeapAlign.AlignmentTest | sys/hive/mm/tlsf.c:472-492 | the power-of-two assertion of the alignment functions holds for every alignment used |
| Words.FlsGeneric | sys/hive/mm/tlsf.c:150-161 | the five halving steps give one more than the position of the highest set bit, 0 for the zero word |
| Words.FfsGeneric | sys/hive/mm/tlsf.c:165-168 | fls of word & (~word + 1) is the position of the lowest set bit, -1 for zero |
| Words.FlsIsLog2 | sys/hive/mm/tlsf.c:170-173 | on a non-zero word fls is the binary logarithm of the word's value |
| SizeClass.FlsSizeTIsLog2 | sys/hive/mm/tlsf.c:179-193 | the two-halves fls of a size_t is the binary logarithm of the size |
| SizeClass.AdjustedRequest | sys/hive/mm/tlsf.c:496-510 | a request that does not wrap is refused exactly when it is 0 or above 2^32 - 8, and otherwise becomes the least multiple of 8 that holds it, at least 24 |
| SizeClass.AdjustHonoursRequestIff | sys/hive/mm/tlsf.c:472-510 | a request is refused or met in full exactly when it is at most 2^64 - 8; the rest are answered with 24 bytes |
| SizeClass.MappingInsertIsClass | sys/hive/mm/tlsf.c:517-534 | mapping_insert names list 32 * fl + sl of the size's class, and stays inside the 25 x 32 table exactly for sizes below block_size_max |
| SizeClass.ClassIsInterval | sys/hive/mm/tlsf.c:517-534 | list (fl, sl) holds exactly the sizes of one interval: of width 8 in row 0, in row fl of width 2^(fl + 2), from 32 + sl times that on |
| SizeClass.ClassMonotone | sys/hive/mm/tlsf.c:517-534 | larger sizes never map to earlier lists |
| SizeClass.SearchedClassIff | sys/hive/mm/tlsf.c:537-545 | a size is filed at or after the list mapping_search names exactly when, cut down to a multiple of the class width of the request, it still holds the request (exactly when it holds it, below 256 bytes) |
| SizeClass.SearchedClassFits | sys/hive/mm/tlsf.c:537-545 | every block filed at or after the list mapping_search names is at least as large as the request |
| SizeClass.SearchedClassCovers | sys/hive/mm/tlsf.c:537-545 | every block of at least the request plus a thirty-second of it is filed at or after that list |
| SizeClass.AcceptedPoolIsFiledIff | sys/hive/mm/tlsf.c:984-1013 | of the pool sizes tlsf_add_pool accepts, exactly block_size_max falls outside the table |
| Header.StatusUpdates | sys/hive/mm/tlsf.c:390-413 | each status update changes the one bit it names and neither the other bit nor the size |
| Header.SizeUpdate | sys/hive/mm/tlsf.c:369-378 | block_set_size replaces the size and keeps both status bits |
| Header.ClearingMasks | sys/hive/mm/tlsf.c:369-398 | on 64-bit words & ~3 is block_size and & ~1 clears the free bit |
| Header.ClearingMask2 | sys/hive/mm/tlsf.c:410-413 | & ~2 clears the previous-free bit |
| Header.SizeMask | sys/hive/mm/tlsf.c:374-378 | size or-ed with the old status bits is block_set_size |
| Header.SettingMasks | sys/hive/mm/tlsf.c:390-408 | or-ing with 1 and 2 sets the two bits |
| FreeIndex.InsertIndexes | sys/hive/mm/tlsf.c:619-627 | the head and bitmap updates of insert_free_block keep every sl bit set exactly for non-empty lists and every fl bit exactly for non-zero rows |
| FreeIndex.RemoveIndexes | sys/hive/mm/tlsf.c:589-606 | so do those of remove_free_block, whether the head stays, moves on, or the list and its row become empty |
| FreeIndex.FoundInRow | sys/hive/mm/tlsf.c:556-577 | a bit left in the masked second-level word names the list a linear scan would find first |
| FreeIndex.FoundInLaterRow | sys/hive/mm/tlsf.c:556-577 | otherwise the first bit of the first later row does |
| FreeIndex.NotFound | sys/hive/mm/tlsf.c:556-566 | when both masked words are zero, no list at or after the position has a block |
| FreeIndex.IndexIsUnique | sys/hive/mm/tlsf.c:350-360 | the free lists determine both bitmap levels and all heads |
| HeapOps.TakeHolding | sys/hive/mm/tlsf.c:757-785 | the block block_locate_free takes is large enough, its successor is used, and only it leaves the lists |
| HeapOps.TrimFreeHolding | sys/hive/mm/tlsf.c:714-724 | trimming the block in hand keeps tiling, lists and coalescing |
| HeapOps.MergePrevHolding | sys/hive/mm/tlsf.c:683-695 | after merging backwards the block in hand has a used predecessor and everything else is kept |
| HeapOps.MergeNextHolding | sys/hive/mm/tlsf.c:698-711 | after merging forwards its successor is used |
| HeapCalls.MallocInv | sys/hive/mm/tlsf.c:1119-1125 | tlsf_malloc keeps the invariant, and changes nothing when it returns NULL |
| HeapCalls.MallocHandsOut | sys/hive/mm/tlsf.c:757-798 | the block returned was free, has exactly the adjusted size, or up to 24 bytes more where that is the whole of a block, and joins the live blocks without touching any other |
| HeapCalls.MallocRefusal | sys/hive/mm/tlsf.c:537-577 | malloc returns NULL exactly when the request adjusts to no size or no free block, cut down to a multiple of the class width of the request, holds it |
| HeapCalls.MallocGoodFit | sys/hive/mm/tlsf.c:547-577 | the block returned is the first of its list, and every other free block that malloc could have taken is in that list or a later one |
| HeapCalls.FreeInv | sys/hive/mm/tlsf.c:1184-1197 | tlsf_free keeps the invariant: tiling, no two free neighbours, every free block once in the list of its size |
| HeapCalls.FreeLive | sys/hive/mm/tlsf.c:1184-1197 | it takes exactly the given block out of the live blocks |
| HeapCalls.FreedIsFirst | sys/hive/mm/tlsf.c:1184-1197 | the free block that the freed one ends up in is the first of its list |
| HeapAlign.GapBounds | sys/hive/mm/tlsf.c:1154-1178 | the aligned address is a multiple of the alignment, and the gap before it is 0 or between 32 and align + 24 |
| HeapAlign.AlignedIsLowest | sys/hive/mm/tlsf.c:1154-1178 | the aligned address is the lowest multiple of the alignment at the payload itself or at least 32 bytes behind it |
| HeapAlign.GapRequestHonouredIff | sys/hive/mm/tlsf.c:1130-1148 | the size memalign searches for is refused or has room for block, alignment and leading block, exactly unless the alignment is 2^63 |
| HeapAlign.AlignedRequestIs | sys/hive/mm/tlsf.c:1130-1148 | below 2^63 memalign searches for the adjusted request, or above the alignment 8 for the least multiple of the alignment that holds it, the alignment and a leading block, if that is below 2^32 |
| HeapMemalign.LeadingFits | sys/hive/mm/tlsf.c:741-755 | for every alignment below 2^63, a block of the searched size can give up its leading part and still hold the whole request |
| HeapMemalign.MemalignInv | sys/hive/mm/tlsf.c:1127-1182 | for every power-of-two alignment, 2^63 included, tlsf_memalign keeps the invariant, and changes nothing when it returns NULL |
| HeapMemalign.MemalignJoins | sys/hive/mm/tlsf.c:1127-1182 | for every power-of-two alignment, the block returned is new to the live blocks and no other live block changes |
| HeapMemalign.MemalignHandsOut | sys/hive/mm/tlsf.c:1127-1182 | below 2^63, a non-NULL result is a multiple of the alignment, and its block has exactly the adjusted size, or up to 24 bytes more where that is the whole of a block |
| HeapMemalign.MemalignRefusal | sys/hive/mm/tlsf.c:1139-1148 | memalign returns NULL exactly when there is no size to search for or no free block, cut down to a multiple of the class width of that size, holds it |
| HeapMemalign.MemalignPlaces | sys/hive/mm/tlsf.c:1127-1182 | below 2^63, the result is the lowest aligned place, as above, in the first block of the first list of large enough blocks |
| HeapMemalign.TopAlignment | sys/hive/mm/tlsf.c:1139-1181 | at 2^63 the result is 2^63 exactly when the first block of at least 24 bytes starts its payload there or can be cut there, else that block's payload; and it holds the request exactly when there happens to be room |
| HeapMemalign.MemalignHonoursAlignmentIff | sys/hive/mm/tlsf.c:1127-1182 | a non-NULL result is a multiple of the alignment 2^k exactly unless k is 63 and that block does not reach 2^63 |
| HeapRealloc.ResizeInv | sys/hive/mm/tlsf.c:1227-1265 | tlsf_realloc of a live block keeps the invariant, and changes nothing on failure, unless an oversized request meets a block of 32 bytes or more |
| HeapRealloc.ResizeKeepsPointerIff | sys/hive/mm/tlsf.c:1241-1264 | it returns the same pointer exactly when the request fits the block, or the block with a free successor |
| HeapRealloc.ResizeRefusal | sys/hive/mm/tlsf.c:1241-1252 | it returns NULL exactly when the request fits neither and no free block that malloc would take holds it; when it moves the block, it is to one that malloc would take |
| HeapRealloc.ContentsKeptIs | sys/hive/mm/tlsf.c:1244-1250 | how many bytes tlsf_realloc preserves: as many as both the old block and the request have, not fewer |
| HeapRealloc.ResizeLive | sys/hive/mm/tlsf.c:1227-1265 | on success the caller owns one block instead of the old one, of exactly the adjusted size or up to 24 bytes more up to the end of a block of before, and every other block as before |
| HeapRealloc.ResizeKeepsInvIff | sys/hive/mm/tlsf.c:1234-1264 | tlsf_realloc keeps the heap well formed exactly when the request adjusts to a size or the block has fewer than 32 bytes; else the block is left with no bytes, under the same pointer |
| HeapWalk.PoolIsConserved | sys/hive/mm/tlsf.c:908-923 | the walk of the pool visits every block once in address order, and sizes plus headers add up to the distance from the first header to the sentinel |
| HeapWalk.PayloadsAreSafe | sys/hive/mm/tlsf.c:421-425 | live payloads are 8-aligned, at least 24 bytes, inside the pool, and share no byte |
| HeapWalk.PayloadAvoidsHeaders | sys/hive/mm/tlsf.c:296-337 | no payload byte is in a size word or in the links of a free block |
| HeapWalk.NothingLiveIsFresh | sys/hive/mm/tlsf.c:1184-1197 | when callers hold nothing, the heap is the one tlsf_add_pool made: one free block, alone in its list |
| HeapWalk.FreshPoolServes | sys/hive/mm/tlsf.c:757-798 | a fresh pool serves exactly the requests that its one block, cut down to a multiple of their class width, holds |
| HeapRoundTrip.FreeAfterMalloc | sys/hive/mm/tlsf.c:1119-1197 | freeing what malloc just returned restores the block sequence and every free list in its order |
| HeapRoundTrip.FreeAfterMemalign | sys/hive/mm/tlsf.c:1127-1197 | freeing what memalign just returned does too, after a leading cut, a trailing cut, both or none |
| HeapRuns.StepInv | sys/hive/mm/tlsf.c:1119-1268 | every call of the interface keeps the invariant |
| HeapRuns.StepLedger | sys/hive/mm/tlsf.c:1119-1268 | what callers own changes by the block named in the call and by the block returned, which is new, and by nothing else |
| HeapRuns.StepRefusal | sys/hive/mm/tlsf.c:1119-1268 | for every call of the interface, when exactly it returns NULL |
| HeapRuns.RunInv | sys/hive/mm/tlsf.c:1119-1268 | the invariant holds after every run of calls |
| HeapRuns.RunKeepsOthers | sys/hive/mm/tlsf.c:1119-1268 | a block that no call of a run frees or reallocates is live, in place and of the same length at the end |
| HeapRuns.RunBackToFresh | sys/hive/mm/tlsf.c:1119-1268 | a run from the fresh pool that ends with nothing live ends in the fresh pool |
| HeapRuns.ReachableIsSafe | sys/hive/mm/tlsf.c:1119-1268 | in every state a run from the fresh pool reaches, blocks account for every byte of the pool and live payloads are aligned, inside it and apart |
| HeapRuns.FreeAll | sys/hive/mm/tlsf.c:1184-1197 | freeing all live blocks, in any order, leaves one maximal free block |
| HeapRuns.OversizedReallocReachable | sys/hive/mm/tlsf.c:1212-1268 | in every fresh pool of 32 bytes or more, malloc(32) and an oversized realloc of it leave a state that is no heap |
| HeapRuns.TopAlignmentReachable | sys/hive/mm/tlsf.c:1127-1182 | every fresh pool answers the alignment 2^63 for every request that is not refused |
| HeapContents.CallBacked | sys/hive/mm/tlsf.c:1119-1268 | over any call, memory still holds every byte that owners know to be in their blocks, and after tlsf_realloc those of the first min(old, requested size) bytes at the new place |
| HeapContents.WriteBacked | sys/hive/mm/tlsf.c:421-425 | a word an owner writes is known from then on, byte by byte |
| HeapContents.KnownByWriting | sys/hive/mm/tlsf.c:421-425 | a write makes its eight bytes known, with their values, and changes nothing else of what is known |
| HeapContents.KnownStays | sys/hive/mm/tlsf.c:1119-1268 | no call takes anything off what is known of blocks that it does not name |
| HeapContents.KnownMoves | sys/hive/mm/tlsf.c:1227-1265 | after tlsf_realloc, what was known of the first min(old, requested size) bytes is known at the new place |
| HeapPool.TakenPoolFits | sys/hive/mm/tlsf.c:984-1013 | an accepted region has room for its block and the sentinel; one too small for the overhead wraps to a size that is refused |
| HeapPool.PoolFillsRegion | sys/hive/mm/tlsf.c:984-1031 | tlsf_add_pool takes exactly the aligned regions of 40 to 2^32 + 23 bytes, and the pool fills such a region from its first word to its last |
| HeapPool.PoolBehindControl | sys/hive/mm/tlsf.c:1101-1106 | a pool placed behind the control structure has a valid layout |
| HeapPool.OutsideIsUntouched | sys/hive/mm/tlsf.c:1080-1106 | whatever an allocator does to the words it owns, the rest of the memory its pool was cut from is as before |
| Tlsf.Control.constructor | sys/hive/mm/tlsf.c:801-816 | the control structure starts with all lists empty, both bitmap levels zero and block_null linked to itself |
| Tlsf.Control.AddPool | sys/hive/mm/tlsf.c:984-1031 | a pool is taken exactly when aligned and of accepted size, and is then one free block with its sentinel, indexed; otherwise nothing changes |
| Tlsf.Control.BlockMarkAsFree | sys/hive/mm/tlsf.c:457-463 | the free bit, the successor's previous-free bit and the back pointer change, and nothing else |
| Tlsf.Control.BlockSplit | sys/hive/mm/tlsf.c:651-670 | the block is cut in two words for word, the second part marked free and linked |
| Tlsf.Control.BlockAbsorb | sys/hive/mm/tlsf.c:673-680 | the predecessor reaches to the next block and keeps its status bits |
| Tlsf.Control.RemoveFreeBlock | sys/hive/mm/tlsf.c:580-606 | exactly the given block leaves its list, wherever it stands in it; links, heads and bitmaps follow, payloads stay |
| Tlsf.Control.InsertFreeBlock | sys/hive/mm/tlsf.c:609-627 | the block becomes the head of its list; links, head and bitmaps follow |
| Tlsf.Control.BlockTrimFree | sys/hive/mm/tlsf.c:714-724 | memory and index follow the abstract trim of a free block |
| Tlsf.Control.BlockTrimFreeLeading | sys/hive/mm/tlsf.c:741-755 | memory and index follow the abstract leading trim |
| Tlsf.Control.BlockMergePrev | sys/hive/mm/tlsf.c:683-695 | memory and index follow the abstract merge with a free predecessor |
| Tlsf.Control.BlockMergeNext | sys/hive/mm/tlsf.c:698-711 | memory and index follow the abstract merge with a free successor |
| Tlsf.Control.BlockTrimUsed | sys/hive/mm/tlsf.c:727-739 | memory and index follow the trim of a used block, whose kept payload is unchanged |
| Tlsf.Control.SearchSuitableBlock | sys/hive/mm/tlsf.c:547-577 | the bitmap search returns the head of the first non-empty list at or after (fl, sl), NULL when there is none |
| Tlsf.Control.BlockLocateFree | sys/hive/mm/tlsf.c:757-785 | takes the head of the first list of large enough blocks, or returns NULL and changes nothing |
| Tlsf.Control.BlockPrepareUsed | sys/hive/mm/tlsf.c:787-798 | trims and marks the block in hand, keeping all live payloads |
| Tlsf.Control.Malloc | sys/hive/mm/tlsf.c:1119-1125 | result and new state are those of HeapCalls.Malloc, no live payload word changes, and on NULL no word at all |
| Tlsf.Control.Memalign | sys/hive/mm/tlsf.c:1127-1182 | result and new state are those of HeapMemalign.Memalign, no live payload word changes, and on NULL no word at all |
| Tlsf.Control.Free | sys/hive/mm/tlsf.c:1184-1197 | the new state is that of HeapCalls.Free, and no other live payload word changes; NULL is ignored |
| Tlsf.Control.Realloc | sys/hive/mm/tlsf.c:1212-1268 | result and new state are those of HeapRealloc.Realloc; the first min(old size, requested size) bytes are preserved (as many as the new block has, for the seven requests that wrap), other payloads unchanged, and on failure all of memory |
| Tlsf.Control.Check | sys/hive/mm/tlsf.c:848-898 | tlsf_check terminates with 0 in every valid state, none of its assertions fires, and it visits exactly the free lists in order |
| Tlsf.Control.CheckPool | sys/hive/mm/tlsf.c:831-943 | tlsf_check_pool terminates with 0 in every valid state and visits exactly the blocks of the pool in order |
| Bytes.CopyBytes | sys/hive/mm/tlsf.c:1244-1250 | memcpy between disjoint payloads copies exactly the first n bytes: the other bytes of the last word, and all other words, are kept |
| Bytes.WordOfBytes | sys/hive/mm/tlsf.c:1244-1250 | the bytes in which contents are counted make up the words in memory, the lowest first |
| TlsfRuns.CreateWithPool | sys/hive/mm/tlsf.c:1080-1106 | a misaligned region gives NULL; otherwise the allocator starts with the pool as one free block, or with none when its size is refused |
| TlsfRuns.PerformAll | sys/hive/mm/tlsf.c:1119-1268 | a run of calls ends in the state of the abstract run, and from every moment of it on, no payload word of a block left alone from then on has changed, whether the run handed the block out or found it |
| TlsfRuns.PerformWithWrites | sys/hive/mm/tlsf.c:1119-1268 | in runs where clients also write to what they own, memory ends up holding every byte that owners know of, in blocks handed out in the run as well, the kept prefix taken along by every tlsf_realloc; and from every moment on, a word of a block not given up from then on holds what was last written there |
| TlsfRuns.MallocThenFree | sys/hive/mm/tlsf.c:1119-1197 | malloc and free restore blocks, lists, both bitmap levels and all heads, and leave live payloads alone |
| TlsfRuns.MemalignThenFree | sys/hive/mm/tlsf.c:1127-1197 | so do memalign and free |
| Pmem.FrameAllocator.SetRange | sys/hive/mm/pmem.c:74-88 | exactly the bits of the page-aligned range are set or cleared |
| Pmem.ScanOne | sys/hive/mm/pmem.c:181-205 | for one frame the scan finds the lowest clear bit, or none when all are set |
| Pmem.ScanFinds | sys/hive/mm/pmem.c:181-205 | for any count (none counting as one) the scan answers the start of the run of clear frames that holds the count-th clear one; with fewer clear frames, the start of the run that reaches the end, or none |
| Pmem.RangeClearIff | sys/hive/mm/pmem.c:181-211 | the range answered is clear, and inside usable memory, exactly when the bitmap has count clear frames in a row, the count-th clear one among them |
| Pmem.RangeSeenIff | sys/hive/mm/pmem.c:181-205 | the scan has looked at every frame of the range it answers exactly when count clear frames follow the lowest clear one, where the range then starts |
| Pmem.RangeCanOverlap | sys/hive/mm/pmem.c:181-211 | two frames asked of a bitmap with frames 0 and 2 clear give frames 2 and 3 |
| Pmem.FrameAllocator.PmemAlloc | sys/hive/mm/pmem.c:181-211 | the answer is the frame of the scan whose result ScanFinds gives, for any count, and exactly its range is marked |
| Pmem.FrameAllocator.Alloc | sys/hive/mm/pmem.c:213-227 | for any count, one scan and a second one when the first gave 0, with what both mark; for one frame: the lowest clear non-zero frame, never one still held, 0 only when none is clear, and a clear frame 0 is marked and lost |
| Pmem.DrawnClearIff | sys/hive/mm/pmem.c:213-227 | so is the range that mm_pmem_alloc hands out, by the bitmap its answering scan finds, where a first answer of frame 0 has been marked and lost |
| Pmem.DrawnNothingIff | sys/hive/mm/pmem.c:213-227 | nothing is handed out exactly when the scan that answers meets fewer clear frames than asked for and a taken one at the end; else exactly the range answered is marked |
| Pmem.GrantsFirstRun | sys/hive/mm/pmem.c:213-227 | when the lowest clear frame is not 0 and count clear ones follow it, exactly these are handed out and marked |
| Pmem.FrameAllocator.Free | sys/hive/mm/pmem.c:229-238 | exactly the bits of the range are cleared |
| Pmem.Drive | sys/hive/mm/pmem.c:181-238 | over any run of single-frame requests no frame is held twice, none is frame 0, and a bit is set exactly when it was at the start or its frame is held |
| Pte.LeafReads | sys/hive/arch/amd64/cpu/pmap.c:163-176 | an entry built from a page-aligned address and prot reads back as that address with exactly those rights |
| Pte.TableReads | sys/hive/arch/amd64/cpu/pmap.c:241-242 | a table entry reads back as its address with every right and no page-size bit |
| Pte.TableEntryIsOr | sys/hive/arch/amd64/cpu/pmap.c:241-242 | or-ing P, RW and US into a frame address adds them |
| Pte.LeafEntryIsOr | sys/hive/arch/amd64/cpu/pmap.c:268-270 | or-ing the flags, NX included, into a frame address adds them |
| Pte.AddressIsMask | sys/hive/arch/amd64/cpu/pmap.c:214-222 | masking an entry with PTE_ADDR_MASK gives its address |
| Pte.ProtToPteIsOr | sys/hive/arch/amd64/cpu/pmap.c:163-176 | the tests, ors and the and-not of prot_to_pte give the flags added up |
| PageTable.IndexOfRegion | sys/hive/arch/amd64/cpu/pmap.c:182-194 | the index of a level is the position of the address's region inside the region above it |
| PageTable.IndexIsMasked | sys/hive/arch/amd64/cpu/pmap.c:182-194 | shifting by 12, 21, 30 or 39 and masking with 0x1FF gives that index |
| PageTable.IndicesDeterminePage | sys/hive/arch/amd64/cpu/pmap.c:182-194 | two lower-half addresses have the same four indices exactly when they are in the same page |
| PageTable.NoSharing | sys/hive/arch/amd64/cpu/pmap.c:214-249 | no two entries of the tree lead to the same table |
| PageTable.WalkPassesThrough | sys/hive/arch/amd64/cpu/pmap.c:214-249 | the processor's walk of an address passes through the table that covers it and loses no right before it |
| PageTable.HangTable | sys/hive/arch/amd64/cpu/pmap.c:236-245 | hanging a zeroed frame under an absent entry keeps the tree |
| PageTable.HangKeepsWalks | sys/hive/arch/amd64/cpu/pmap.c:236-245 | and changes no translation of the lower half |
| PageTable.LeafKeepsWalks | sys/hive/arch/amd64/cpu/pmap.c:268-271 | setting a leaf changes no other page's translation |
| PageTable.LeafMapsPage | sys/hive/arch/amd64/cpu/pmap.c:251-273 | after the leaf is set, its page translates to the address with exactly the requested rights and every other page as before |
| Pmap.AddressSpace.LevelBase | sys/hive/arch/amd64/cpu/pmap.c:202-249 | returns the table of the level on the path, adding tables when allowed; translations stay; fails only when no frame is left or, without alloc, the address is unmapped |
| Pmap.AddressSpace.Map | sys/hive/arch/amd64/cpu/pmap.c:251-273 | success maps exactly the page, with exactly the rights asked for; any page size but 4K fails, and otherwise only a lack of frames does; failure changes no translation; only tables of the tree change, the upper half of the top level never |
| Pmap.AddressSpace.Init | sys/hive/arch/amd64/cpu/pmap.c:275-286 | clears the lower half, after which nothing there is mapped, and leaves the upper half of the top level |
| Pmap.MapAll | sys/hive/arch/amd64/cpu/pmap.c:163-286 | after any sequence of maps from a cleared lower half, every page has the address and rights of its latest successful map, and no other page is mapped |
| Vmem.MapRegion | sys/hive/mm/vmem.c:36-68 | success maps, for as many pages as the length comes to, the page i pages behind the one that vma lies in to the frame i frames behind the one that pma lies in, and nothing else; failure at page i has mapped exactly the first i pages |
| OsPool.ExclusiveStep | sys/hive/core/spinlock.c:34-63 | every atomic step keeps at most one processor between acquire and release, the lock word being 1 exactly then |
| OsPool.IrqsStep | sys/hive/core/spinlock.c:43-56 | interrupts are masked while spinning, and the processor's own setting is back in the critical section |
| OsPool.PoolStep | sys/hive/os/pool.c:46-63 | two allocator calls are never in progress at once, and a call completes as one step of the sequential allocator |
| OsPool.RememberedStep | sys/hive/os/pool.c:46-63 | no step takes a word from its owner: not the stores of a call in progress on another processor, nor the end of a call, nor what other owners write without the lock meanwhile |
| OsPool.NextInv | sys/hive/os/pool.c:46-63 | every step of every processor keeps the whole system invariant, held pointers staying live |
| OsPool.AnyInterleaving | sys/hive/os/pool.c:46-63 | for any number of processors and any interleaving, heap and answers are those of a sequential run in the order the lock admitted the callers; the calls of each processor in it are those it made, in order, and each is given the answer to its own; every pointer a processor holds is live, what owners have put into their blocks is there, and the heap is whole and well formed whenever the lock word is 0 |
| OsPool.AnsweredStep | sys/hive/os/pool.c:46-63 | what a caller is given is the answer logged for its call, and a pointer it is given is its own from then on |
| OsPool.RequestsKept | sys/hive/os/pool.c:46-63 | over any run, the calls a processor makes are those completed for it and the one pending, none lost, altered or reordered |
| OsPool.PutLasts | sys/hive/os/pool.c:46-63 | over any run, a word an owner writes without the lock is there until its block is freed or the word overwritten |
| OsPool.AloneSucceeds | sys/hive/os/pool.c:46-63 | when the lock is free, a call that nobody interrupts completes with the answer of the sequential allocator and the interrupt setting of before |
| Itoa.DecimalRoundTrip | sdk/string/itoa.c:36-77 | the base-10 numeral of every value parses back to it |
| Itoa.HexRoundTrip | sdk/string/itoa.c:79-123 | the base-16 numeral of every unsigned value parses back to it |
| Itoa.Lengths | sdk/string/itoa.c:36-123 | numerals have at most 20 and 18 characters |
| Itoa.NoZerosInFront | sdk/string/itoa.c:36-123 | numerals have no zeros in front, except that base 16 has two digits at least |
| Itoa.Unreverse | sdk/string/itoa.c:69-74 | the closing loop reverses the buffer up to the terminator |
| Itoa.ConvertBase10 | sdk/string/itoa.c:36-77 | leaves the decimal numeral with its terminator, within 21 bytes |
| Itoa.ConvertBase16 | sdk/string/itoa.c:79-123 | leaves the prefixed hexadecimal numeral, two digits at least, within 19 bytes |
| Itoa.Itoa | sdk/string/itoa.c:125-136 | base 10 prints the value, base 16 its 64-bit pattern, any other base writes nothing |
| Printf.PrintC | sdk/string/vsnprintf.c:35-42 | appends one character as far as it fits, with a NUL behind |
| Printf.PrintStr | sdk/string/vsnprintf.c:44-51 | appends a string as far as it fits, with a NUL behind |
| Printf.PrintDecimal | sdk/string/vsnprintf.c:103-114 | appends zeros up to the width and the numeral, sign after the zeros, and uses the width up |
| Printf.PrintPointer | sdk/string/vsnprintf.c:115-130 | appends 0x, zeros and the digits |
| Printf.PointerDigits | sdk/string/vsnprintf.c:115-130 | %p prints 18 characters that parse back to the value |
| Printf.HexDigits | sdk/string/vsnprintf.c:131-136 | %x prints digits alone that parse back to the value, two at least and no more zeros in front than that takes |
| Printf.PlainConversions | sdk/string/vsnprintf.c:94-142 | %c prints the character, %s the string, %% a percent sign, %d, %x and %p numerals of the value, any other character nothing |
| Printf.PaddedDecimal | sdk/string/vsnprintf.c:103-114 | %d prints at least the width, and prints a numeral, the value's own, exactly unless zeros precede a sign |
| Printf.PlainFormat | sdk/string/vsnprintf.c:74-80 | a format without directives prints itself |
| Printf.SkipWidth | sdk/string/vsnprintf.c:82-92 | the digits of %0N are skipped and added up in a byte that wraps and starts from what was left in it |
| Printf.WidthIsNumber | sdk/string/vsnprintf.c:82-92 | that byte is the number written in the digits, behind the digits of what was left, modulo 256 |
| Printf.WidthIsWrittenIff | sdk/string/vsnprintf.c:82-92 | it is the number written, modulo 256, exactly when what was left, moved up by as many decimal places, is a multiple of 256 |
| Printf.LeftoverWidth | sdk/string/vsnprintf.c:82-114 | after "%05d" the next %d is not padded; after "%05" and any other conversion, or none, it is padded to 5, and that conversion is not |
| Printf.WidthNeedsZero | sdk/string/vsnprintf.c:82-92 | "%5d" prints d: without the zero there is no width |
| Printf.PaddedFormat | sdk/string/vsnprintf.c:82-114 | %0Nd with N below 256 prints the value's numeral behind as many zeros as it is short of N |
| Printf.AnswerIff | sdk/string/vsnprintf.c:65-145 | the answer is the number of characters written exactly unless a conversion filled the buffer, and then 0 |
| Printf.Vsnprintf | sdk/string/vsnprintf.c:65-145 | writes exactly the first min(length, size - 1) characters of the unbounded expansion, a NUL behind them once anything is printed, nothing at or past size, and gives the answer of AnswerIff |
| Objects.Tailq.constructor | sdk/inc/sys/queue.h:96-100 | the queue is empty |
| Objects.Tailq.InsertHead | sdk/inc/sys/queue.h:102-111 | the element is put first; links both ways and nelem follow |
| Objects.Tailq.InsertTail | sdk/inc/sys/queue.h:113-119 | the element is put last; links both ways and nelem follow |
| Objects.Tailq.InsertAfter | sdk/inc/sys/queue.h:121-130 | the element is put behind the given one |
| Objects.Tailq.Remove | sdk/inc/sys/queue.h:140-150 | the element is taken out, wherever it stands |
| KnodeStore.FirstNamedAppend | sys/hive/ob/dir.c:99-101 | appending never hides an entry: the earlier one of a name wins |
| KnodeStore.LookupSays | sys/hive/ob/knode.c:38-72 | what a lookup finds, and with which code it fails: ENOTDIR below anything but a directory, ENOENT without an entry of the name |
| KnodeStore.Store.RootGet | sys/hive/ob/store.c:42-78 | finds the root by "/", else the first entry of the name, else fails with ENOENT |
| KnodeStore.Store.SubdirFind | sys/hive/ob/knode.c:38-72 | finds the first entry of the name; NULL, non-directories and missing names fail with their codes |
| KnodeStore.Store.Resolve | sys/hive/ob/knode.c:105-154 | answers the fold of first-match lookups over the components of the path, with the error of the first one that fails |
| KnodeStore.FoldFails | sys/hive/ob/knode.c:105-154 | a resolution that fails does so at its first component that is too long or is looked up in vain where those before it lead, with the code for that |
| Paths.ComponentsAreSplit | sys/hive/ob/knode.c:118-136 | the components are the non-empty pieces between slashes, and a trailing slash adds an empty one |
| Paths.ComponentsBelow | sys/hive/ob/knode.c:118-136 | appending a slash and a name to a path that does not end in one appends exactly that component |
| KnodeStore.Store.TrailingSlash | sys/hive/ob/knode.c:118-150 | a path ending in a slash is found exactly when the rest of it leads to a directory (the root, when there is no rest) with an entry of the empty name, and is that entry |
| KnodeStore.Store.Append | sys/hive/ob/dir.c:67-103 | the node becomes the last entry of the directory (the root for NULL) and no other directory changes; NULL nodes and non-directories fail with their codes |
| KnodeStore.Store.CountsAgree | sys/hive/ob/dir.c:99-101 | entry_count, nelem and the length of the list are one number |
| KnodeStore.FoldGrows | sys/hive/ob/knode.c:105-154 | what a path resolves to, it resolves to for good, whatever is made or appended |
| KnodeStore.Create | sys/hive/ob/dir.c:37-103 | resolving a path, making a node or a directory and appending it there: the first thing that goes wrong is answered; else the longer path resolves to the new node, or to the earlier entry of its name |
| KnodeStore.CreationErrorSays | sys/hive/ob/dir.c:37-103 | a creation succeeds exactly when its path leads to a directory or the root, its name fits and there is memory; otherwise the first that fails, in that order of calls, gives the code |
| KnodeStore.FoundInNewDirectory | sys/hive/ob/knode.c:105-154 | in a directory just made under a free name, a node made next is found as itself |
| KnodeStore.CreateAll | sys/hive/ob/dir.c:37-103 | over any run of creations at any depth, every path that resolved still does, to the same node, and the path of every node made leads to it or to the entry that had its name before |
| KnodeStore.KnodeNew | sys/hive/ob/knode.c:74-103 | names of 31 bytes or more and a lack of memory fail with their codes; otherwise a new node with one reference |
| KnodeStore.DirNew | sys/hive/ob/dir.c:37-65 | likewise for a directory node, whose list is empty |

## Left out

- HeapRuns.Legal: excludes tlsf_realloc of a block of 32 bytes or more with a request beyond block_size_max, after which there is no heap (HeapRealloc.ResizeKeepsInvIff); all other sizes and all power-of-two alignments are in.
- Tlsf.Control.AddPool: excludes a pool of exactly 2^32 bytes, which the source indexes past its table (SizeClass.AcceptedPoolIsFiledIff), and models one pool per control structure; tlsf_remove_pool is not modelled.
- HeapMemalign.MemalignHandsOut: promises size and alignment below 2^63 only; HeapMemalign.TopAlignment says what happens there.
- Tlsf.Control.CheckPool: the walk with the printing walker is not modelled; integrity_walker is.
- Pmem.FrameAllocator.Alloc: who holds what is followed for single frames only, because a range of several may hold taken frames (Pmem.RangeCanOverlap).
- Pmem.FrameAllocator.Valid: the bitmap covers usable_top, which is how boot-time sizing is represented; probing memory, placing the bitmap and filling it are not modelled.
- Pmap.AddressSpace.Map: four levels, lower half, page-aligned addresses below 2^52; five-level paging, large pages, the TLB and the control registers are left out, and so is a NULL address space.
- Pmap.AddressSpace.LevelBase: physical memory holds whole tables, and the direct map of the kernel (PHYS_TO_VIRT) is the identity.
- Vmem.MapRegion: ranges stay in the lower half; there the 64-bit sums cannot wrap.
- OsPool.Next: spin loop and locked sections are steps of a state machine, not methods, since a spin loop need not end; an allocator call is a start, any number of stores and an end, and takes effect at its end; a processor frees only what it holds, and a NULL lock is not modelled. Memory ordering is that of atomic steps. The stores of a call in progress are any that hit no live block but the one being freed, which is what the contracts of Tlsf say of calls as wholes; owners write words of what they hold between their own calls.
- OsPool.AnyInterleaving: safety only; that a spinning processor ever gets the lock is not promised, and the source does not arrange it.
- Itoa.ConvertBase10: excludes the minimum of int64_t, whose negation overflows.
- Printf.Vsnprintf: excludes size 0 (size - 1 wraps), a format that ends inside a directive, and arguments of another type than the directive asks for.
- KnodeStore.Store.Append: the node must not be on a list already, as for any intrusive queue, and a directory node must have been made by ob_dir_new, so that the EIO and ENOENT branches are not reached.
- KnodeStore.Store.Resolve: paths and names are strings without NUL; NULL paths and result pointers are left out.
- KnodeStore.DirNew: allocates the directory before the node rather than after it.
- ob_root_foreach and the list macros other than init, insert at head, tail and after, remove and foreach.
- os_pool_init, ACPI tables, the boot protocol, UART, descriptor tables, traps, timers, panic and console output.
- ELF loading and the initial ramdisk.
