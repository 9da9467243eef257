# Arena allocator, alignment helpers, growable array and string utilities

This project models the memory and string core of a small C utility
library in Dafny and proves what that core promises:

- **Growable arena** (`allocator.c`). An arena is a chain of blocks. Each
  block has a buffer, a write head and a capacity. `arena_alloc` pads the
  head of the first block that fits to pointer alignment, advances the
  head, zeroes the region and returns it. When no block fits, it appends
  a block of exactly the requested size. The arena also offers reset,
  pre-growing (`arena_ensure_capacity`), usage reporting
  (`arena_query_capacity`) and a raw rollback of the tail head
  (`arena_set_head`).
- **Temp arena** (`allocator.c`). One buffer with a bump head, whose
  allocation asserts that the request fits.
- **Bit helpers** (`allocator.h`). `is_power_of_two`, `next_power_of_two`
  and `align_forward` on 64-bit unsigned values.
- **`Array(T)`** (`allocator.h`). A length/capacity container that grows
  by doubling through the allocator's `realloc`.
- **String utilities** (`strings.h`). These work on length-delimited
  `String` views: length of a C string, equality, the case-insensitive
  comparison, counting, splitting at the first delimiter or at every
  delimiter, concatenation, path joining, UTF-16 narrowing, and the
  growable `StringArray`.

Files and modules:

- `wrappers.dfy` (`Wrappers`): the `Option` type, used for NULL results.
- `bits.dfy` (`Bits`): the 64-bit bit helpers. They are stated on naturals
  below 2^64, with the wrap-arounds that change a result written out
  modulo 2^64: `n - 1` at 0, and the top-up of `align_forward` for an
  unaligned address less than `align` below 2^64, which wraps to 0.
  `AlignUp` is the same rounding on addresses of any size; the arena
  aligns with it, and it agrees with `align_forward` whenever the aligned
  address stays below 2^64.
- `arena_spec.dfy` (`ArenaSpec`): the arena's blocks as a sequence of
  values and what each operation does to them.
  - A block keeps the address of its buffer (`base`), because alignment
    is decided on addresses.
  - A pointer into the arena is a block index and an offset.
  - Where the C code calls `malloc` for a new buffer, the address it
    returns is a parameter (`freshBase`).
- `arena_facts.dfy` (`ArenaFacts`): the arena's properties, proved about
  those functions. They cover:
  - first-fit choice, the exact head bump, zeroed regions and
    pairwise-disjoint allocations;
  - usage accounting, reset and reset determinism;
  - pre-growing, rollback, and a worked growth example.
- `arena.dfy` (`Arenas`): the `Arena` class with the C loops over the
  chain, each method proved to leave exactly the blocks the `ArenaSpec`
  function describes. Also the `TempArena` class.
- `dynarray.dfy` (`DynArrays`): the `Array(T)` macros as the class
  `DynArray<T>` over an `array<T>`.
- `strings.dfy` (`Strings`): the read-only string operations. C `char`
  is taken to be signed, so a character is an integer in -128..127.
- `string_buffers.dfy` (`StringBuffers`): the operations that allocate
  and fill buffers, and `StringArray`.

Allocator behaviour is a parameter wherever it matters:

- `allocFails`: whether an allocation the C code checks returns NULL.
- `copying`: whether the allocator's `realloc` keeps the old contents.
  The heap allocator's does. The arena's `arena_realloc` is a fresh
  allocation, so the old contents are not copied and the new region is
  zeroed.

Facts about the code that a reader might not expect, all kept in the
model:

- A block appended for a request has capacity exactly equal to the
  request.
  - So after a reset, with malloc's 8-aligned buffers, a request is served
    without growth exactly when some block's capacity is at least its
    size; requests up to the first block's capacity always are. A request
    as large as the sum of all capacities fits in no single block once
    the arena has grown.
- `arena_alloc` returns NULL when the block it appended cannot hold the
  padded request. A new block holds exactly `size` bytes, so this happens
  whenever malloc's address is not pointer-aligned (`freshBase % 8 != 0`).
- `temp_arena_alloc` checks `head + size <= capacity`. A full temp arena
  therefore still accepts requests of size 0.
- A request of size 0 is served like any other when some block fits it:
  the head moves past the padding and the aligned address is returned.

## Model

| member | source | states |
|---|---|---|
| Bits.IsPowerOfTwo | allocator.h:24-26 | `(n & (n-1)) == 0` with 64-bit wrap at 0 holds exactly when n has at most one set bit, i.e. n is 0 or a power of two |
| Bits.CountLeadingZeros64 | allocator.h:30 | `__builtin_clzll(n)` for 0 < n < 2^64 equals 64 minus the bit length of n, and is below 64 |
| Bits.NextPowerOfTwo | allocator.h:28-31 | returns n when n is 0 or a power of two; otherwise a power of two r with n < r < 2n (for n < 2^63, where the shift is defined) |
| Bits.NextPowerOfTwoIsLeast | allocator.h:28-31 | the result is below or equal to every power of two that is at least n: it is the least one |
| Bits.AlignForward | allocator.h:33-42 | on addresses below 2^64 with a power-of-two alignment, the result is AlignUp(ptr, align) reduced modulo 2^64: the next aligned address when that is below 2^64, and 0 when it would be 2^64 |
| Bits.AlignForwardWrapsAtTop | allocator.h:37-41 | an unaligned address less than `align` below 2^64 is topped up past the last 64-bit value and comes back as 0 |
| Bits.AlignForwardZeroAlign | allocator.h:24-42 | the assertion accepts align = 0 (`is_power_of_two(0)` holds) and then every non-zero address is mapped to 0, below the input |
| Bits.AlignUp | allocator.h:33-42 | with a non-zero power-of-two alignment, on addresses of any size: r >= ptr, r aligned, r - ptr < align, identity on aligned input, and r is the least aligned value at or above ptr |
| Bits.AlignUpIdempotent | allocator.h:37-41 | aligning twice is aligning once |
| Bits.DefaultAlignIsPowerOf2 | allocator.h:13 | DEFAULT_ALIGN (pointer width, 8) is a non-zero power of two, so the arena's alignment is always accepted |
| ArenaSpec.ZeroRange | allocator.c:89 | the `memset` zeroes exactly [off, off+size) and keeps every other byte |
| ArenaSpec.AlignedOffset | allocator.c:84-86 | the padded offset is at most DEFAULT_ALIGN-1 past the head and its address is aligned; with an aligned base the offset itself is aligned, and it equals an aligned head |
| ArenaSpec.FirstFitFrom | allocator.c:41-45 | the scan returns a fitting block such that no block before it fits, or none when no block fits |
| ArenaSpec.ChooseBlock | allocator.c:41-48 | the chosen index is a valid block of the resulting chain |
| ArenaSpec.ArenaAlloc | allocator.c:80-96 | the chain stays well-formed (every buffer holds exactly its capacity); success exactly when some block fits or the fresh buffer is aligned; on success the address is aligned, offset + size fits the block, and with an aligned base the offset is a multiple of DEFAULT_ALIGN |
| ArenaSpec.BumpBlock | allocator.c:84-92 | the request is served from the chosen block exactly when its first aligned offset plus the size is within capacity; the pointer is that offset and the block keeps its address and capacity |
| ArenaSpec.ResetHeads | allocator.c:110-114 | every block keeps everything but its head, which becomes 0 |
| ArenaFacts.FitsMonotone | allocator.c:31-39 | a block that fits a request fits every smaller one |
| ArenaFacts.FitsEmptyBlock | allocator.c:31-39 | an empty block at an aligned address fits exactly the requests up to its capacity, at offset 0 |
| ArenaFacts.AllocIsFirstFit | allocator.c:8-48 | first-fit: the first fitting block is used and nothing is appended; only if none fits is exactly one block appended, at the tail, with capacity exactly `size`, served at offset 0 with head `size` when its address is aligned |
| ArenaFacts.AllocBumpsOnlyChosenHead | allocator.c:83-91 | on success the chosen block's head becomes offset + size with padding below DEFAULT_ALIGN, its base and capacity stay, the region is zero, its other bytes stay, and every other block is unchanged; on failure no existing block changes |
| ArenaFacts.AllocOnlyGrows | allocator.c:80-96 | blocks are never removed or resized and heads never decrease; at most one block is appended |
| ArenaFacts.AllocKeepsRegionsDisjoint | allocator.c:87-88 | a new region is disjoint from every live region and all of them stay below their heads |
| ArenaFacts.Allocations | allocator.c:80-96 | successive allocations, size-0 ones included wherever a block fits them, keep the buffers well-formed and never shorten the chain |
| ArenaFacts.PositiveRequestsAdmissible | allocator.c:80-96 | every sequence of positive-size requests can be served from any arena |
| ArenaFacts.Step | allocator.c:80-96 | one allocation of any size ArenaAlloc serves, with its region recorded when it succeeds, keeps the blocks well-formed and keeps the live regions below the heads and pairwise disjoint |
| ArenaFacts.AllocationsAreDisjoint | allocator.c:80-96 | the regions returned by any admissible sequence of allocations (size 0 allowed wherever a block fits it) without reset or set_head are pairwise disjoint |
| ArenaFacts.AllocUsage | allocator.c:71-96 | a successful allocation raises the reported usage by exactly padding + size, whether it reused or appended a block |
| ArenaFacts.AllocKeepsHeadsInBounds | allocator.c:87-88 | no head ever passes its capacity through `arena_alloc` |
| ArenaFacts.ResetReleasesNothing | allocator.c:110-114 | after reset the usage is 0 and the chain, addresses, capacities and bytes are unchanged |
| ArenaFacts.ResetThenAllocReusesFirstBlock | allocator.c:110-114 | after reset a request up to the first block's capacity is served at block 0, offset 0, without growth |
| ArenaFacts.ResetThenAllocGrowsOnlyWhenNothingFits | allocator.c:110-114 | after a reset, with malloc's 8-aligned buffers, a request fits some block exactly when some capacity is at least its size, and then it is served at offset 0 without growth |
| ArenaFacts.FirstFitSameShape | allocator.c:41-45 | the fit scan depends only on the addresses, heads and capacities of the blocks it passes |
| ArenaFacts.AllocationsKeepShape | allocator.c:80-96 | allocations, size-0 ones included, never change a block's address or capacity |
| ArenaFacts.AllocSameShape | allocator.c:80-96 | one allocation (size 0 included when a block fits) on two chains of the same shape, where the second already holds (reset) the block the first appends, is served on both, returns the same pointer and keeps the shapes equal, with malloc's 8-aligned buffers |
| ArenaFacts.ReplayAgrees | allocator.c:80-96 | the same holds for whole admissible request sequences, and the sequence is admissible on the second chain too, with malloc's 8-aligned buffers |
| ArenaFacts.ResetDeterminism | allocator.c:110-114 | reset, run an admissible request sequence (size 0 allowed wherever a block fits), reset, run it again: the sequence is still admissible and the second run returns the same block indices and offsets as the first, with malloc's 8-aligned buffers |
| ArenaFacts.EnsureCapacityKeepsHeads | allocator.c:61-69 | pre-growing changes no head and no usage, appends only when nothing fits, and then an empty block of exactly the requested capacity |
| ArenaFacts.EnsureCapacityThenAllocDoesNotGrow | allocator.c:61-69 | after pre-growing (capacity 0 included when a block already fits) some block fits, so the next allocation of that size succeeds and appends nothing, with malloc's 8-aligned buffers |
| ArenaFacts.SetTailHeadOnlyTouchesTail | allocator.c:116-118 | on any chain, set_head changes only the tail's head and the usage moves by the difference; heads stay in bounds when they were and the value is within the tail's capacity |
| ArenaFacts.SetHeadRollsBackTailAllocation | allocator.c:116-118 | rolling the tail head back to its value before an allocation into the tail restores all heads, addresses, capacities and the usage |
| ArenaFacts.GrowthScenario | allocator.c:80-96 | from `arena_init(64)` at aligned addresses: 10 bytes go to block 0 at offset 0 (head 10, no growth); then 60 bytes go to a newly appended 60-byte block 1 at offset 0; usage 70 over two blocks |
| Arenas.Arena.Init | allocator.c:50-59 | `arena_init(c)` with c > 0 gives one empty, zero-filled block of capacity c |
| Arenas.Arena.NewAllocation | allocator.c:8-29 | appends one zero-filled block of exactly the given capacity at the tail and returns its index |
| Arenas.Arena.AllocationForSize | allocator.c:41-48 | the loop over the chain leaves exactly the block choice of ChooseBlock |
| Arenas.Arena.Alloc | allocator.c:80-96 | leaves exactly the blocks and pointer of ArenaAlloc |
| Arenas.Arena.Realloc | allocator.c:102-105 | same outcome as a fresh Alloc of the new size; the old region plays no part |
| Arenas.Arena.Free | allocator.c:107 | changes nothing |
| Arenas.Arena.Reset | allocator.c:110-114 | the loop leaves exactly ResetHeads of the old chain |
| Arenas.Arena.SetHead | allocator.c:116-118 | only the tail's head is overwritten, with any value |
| Arenas.Arena.EnsureCapacity | allocator.c:61-69 | the loop leaves exactly the chain described by ArenaSpec.EnsureCapacity |
| Arenas.Arena.QueryCapacity | allocator.c:71-78 | returns the sum of all heads |
| Arenas.TempArena.Init | allocator.c:130-141 | the buffer's address and capacity are kept, head 0, no live regions |
| Arenas.TempArena.Alloc | allocator.c:147-153 | requires head + size <= capacity; returns the address of the old head, data + head, advances the head by exactly size, and keeps the handed-out regions in order and non-overlapping below the head |
| Arenas.TempArena.Reset | allocator.c:155-157 | head 0, capacity unchanged, no live regions |
| DynArrays.DynArray.InitCapacity | allocator.h:126-130 | a buffer of the given capacity, length 0 |
| DynArrays.DynArray.Reserve | allocator.h:132-137 | nothing happens when the capacity is not larger; otherwise cap becomes the capacity, len stays, and the contents stay exactly when realloc copies (otherwise the buffer is all zero) |
| DynArrays.DynArray.Append | allocator.h:139-145 | with cap >= 1: len grows by one, cap doubles exactly when len + 1 > cap, the buffer stays put when there was room and is fresh otherwise, and the contents become the old contents plus the item (old contents zeroed if the buffer moved under a non-copying realloc) |
| DynArrays.DynArray.AppendMany | allocator.h:147-154 | with len + count <= 2 cap: len grows by count, cap doubles exactly when needed, the buffer stays put when the items fit and is fresh otherwise, and the new items follow the old contents |
| DynArrays.MemCopy | allocator.h:152 | `memcpy`: the destination holds the source at the offset, and every element outside the copied range is unchanged |
| DynArrays.DynArray.Resize | allocator.h:157-160 | len becomes size, cap becomes the larger of cap and size, the elements below both lengths are kept (when no reallocation happened or realloc copies) |
| DynArrays.DynArray.Last | allocator.h:162 | the element returned is the last element of the contents |
| DynArrays.DynArray.Pop | allocator.h:165 | len drops by one and the old contents are the new contents followed by the returned element |
| Strings.ToCChar | strings.h:60-65 | a byte becomes the char with the same value modulo 256 |
| Strings.ByteCharRoundTrip | strings.h:60-65 | byte to char and char to byte conversions are inverse |
| Strings.FromBytes | strings.h:60-65 | the view has `len` characters, each congruent to its byte modulo 256 |
| Strings.FromBytesRoundTrip | strings.h:60-65 | viewing bytes as a string loses nothing, and neither does the other direction |
| Strings.IndexOf | strings.h:242-255 | the index is the first occurrence of the character, or the length when it is absent |
| Strings.StringLen | strings.h:40-46 | the length is the index of the first NUL: a NUL sits there and none before it |
| Strings.FromCString | strings.h:52-58 | the view holds no NUL and is followed in memory by the NUL |
| Strings.Utf16Bom | strings.h:68-75 | 0xfffe gives Utf16Le (0), 0xfeff gives Utf16Be (1), every other unit gives Utf16None (-1) |
| StringBuffers.FromUtf16 | strings.h:77-99 | for an even size and byte order None, Le or Be: length size/2, the k-th character is the first byte of the k-th 16-bit unit, a NUL follows, in a buffer of size/2 + 1; any other byte order gives length 0 |
| StringBuffers.NarrowLittleEndian | strings.h:83-89 | narrowing little-endian units keeps each unit's low byte, so units below 256 come through unchanged |
| StringBuffers.NarrowBigEndian | strings.h:90-95 | narrowing big-endian units keeps each unit's high byte, so units below 256 become NULs |
| Strings.Match | strings.h:101-109 | true exactly when the strings are equal (lengths and every character) |
| Strings.MatchNoCase | strings.h:113-131 | true exactly when lengths agree and the sum of the per-position differences other than 0 and ±32 is 0 |
| Strings.NoCaseAsWrittenSymmetric | strings.h:113-131 | the comparison is symmetric and accepts equal strings |
| Strings.NoCaseAsWrittenAcceptsSwappedLetters | strings.h:113-131 | "ab" matches "ba" as written, though they differ in letters |
| Strings.NoCaseAsWrittenAcceptsNonLetters | strings.h:119-123 | "0" matches "P" as written: any two characters 32 apart are treated as one letter |
| Strings.FoldCaseMeaning | strings.h:111-112 | two characters fold to the same one exactly when they are equal or the two cases of one ASCII letter |
| Strings.MatchIgnoringCase | strings.h:111-131 | true exactly when lengths agree and every position is equal up to ASCII case |
| Strings.CaseFoldMatchImpliesAsWritten | strings.h:113-131 | every pair that is equal up to ASCII case is accepted by the code as written |
| Strings.CountOf | strings.h:232-240 | the count is the number of positions holding the character |
| Strings.SplitsRecompose | strings.h:242-270 | both splits succeed exactly when the delimiter occurs; the first part holds no delimiter, the second starts with it, and they concatenate back to the string |
| Strings.SplitUntil | strings.h:242-255 | the scan returns the part before the first delimiter, or the zero String when there is none |
| Strings.SplitAfter | strings.h:257-270 | the scan returns the part from the first delimiter on, or the zero String when there is none |
| StringBuffers.Flatten | strings.h:177-202 | the concatenation is as long as the sum of the lengths |
| StringBuffers.FlattenPlacesEach | strings.h:193-197 | the i-th string sits in the concatenation right after the strings before it |
| StringBuffers.Concat | strings.h:177-202 | on success: length is the sum of the lengths, content the strings in order, NUL after; on allocation failure the zero String |
| StringBuffers.CopyString | strings.h:193-197 | after copying string i, the output starts with strings 0..i one after another, and the write position stays within the computed size |
| StringBuffers.Join | strings.h:204-230 | joining n >= 1 strings gives the sum of their lengths plus n - 1 characters |
| StringBuffers.JoinCons | strings.h:217-225 | joining peels off from the front: first string, separator, join of the rest |
| StringBuffers.PathJoin | strings.h:204-230 | with at least one path: length is the sum of the lengths plus count - 1 (also returned on allocation failure), content the paths joined by '/', NUL after |
| StringBuffers.CopyPath | strings.h:217-225 | after copying path i, and a slash unless it is the last, the output starts with the paths so far joined by slashes, within the computed length |
| StringBuffers.StringArray.Zero | strings.h:273 | the zero StringArray: NULL entries, count and cap 0 |
| StringBuffers.StringArray.Append | strings.h:168-175 | with cap >= 1: count grows by one, cap doubles exactly when full, the buffer stays when there was room and is fresh otherwise, and the entries become the old entries plus the string (old entries zeroed if the buffer moved under a non-copying realloc) |
| StringBuffers.FromArray | strings.h:151-166 | on success a fresh buffer holding the given strings with count = cap = their number; on allocation failure the zero StringArray |
| StringBuffers.PiecesHaveNoDelimiter | strings.h:283-295 | no piece contains the delimiter |
| StringBuffers.PiecesCount | strings.h:272-298 | pieces = delimiters + (1 unless the string is empty or ends with the delimiter), hence at most delimiters + 1, the capacity allocated |
| StringBuffers.JoinPieces | strings.h:272-298 | joining the pieces with the delimiter gives back the string unless it ends with the delimiter |
| StringBuffers.PiecesOfJoin | strings.h:272-298 | pieces without the delimiter, the last one non-empty, come back unchanged from splitting their join |
| StringBuffers.PiecesStep | strings.h:283-295 | one round of the outer scan yields the piece up to the next delimiter and continues after it |
| StringBuffers.ScanToDelimiter | strings.h:285-289 | the scan stops at the first delimiter at or after its start, or at the end of the string, and passes no delimiter |
| StringBuffers.StoreNextPiece | strings.h:284-294 | one round stores the next piece and steps past its delimiter: the stored strings followed by the pieces of the rest are still all the pieces, and the array never needs to grow |
| StringBuffers.SplitDelim | strings.h:272-298 | cap is delimiters + 1; on success a fresh array holds exactly the pieces (none for an empty string); on allocation failure NULL entries and count 0 |

## Left out

- The heap allocator adapter (`heap_allocate`, `heap_realloc`, `heap_free`) is not modelled: it passes calls straight to libc. Its one relevant property, that realloc keeps contents, is the `copying` parameter.
- `page_size`, `arena_deinit` and `temp_arena_deinit` are not modelled: they only query the OS or free buffers.
- The allocator vtable (`Allocator` with function pointers) is not modelled. Calls are direct, and the allocator's behaviour enters as the `allocFails` and `copying` parameters.
- Failure of `malloc` in `_arena_new_allocation` is assumed not to happen. So are the unchecked failures of `realloc` in `array_reserve` and `string_array_append` and of the allocation in `string_from_utf16`.
- Machine-width arithmetic is not modelled outside `Bits`. Integers are unbounded, so 64-bit wrap-around of addresses, heads and the usage sum is left out (the arena aligns with `AlignUp`, which equals `align_forward` while the aligned address is below 2^64), and so is `int` overflow of `String` lengths, counts, the sizes summed in `string_concat` and `path_join`, and the difference sum in `string_match_no_case`.
- Bits.AlignForward: the C parameter `align` is an `int`. Only non-negative values below 2^64 are modelled.
- Arena pointer identity and in-place update are not captured.
  - The chain of `ArenaAllocation` nodes is a sequence of block values.
  - A pointer is a block index and an offset.
  - The `memset` of a region is a whole-value update of that block's bytes.
  - Aliasing between blocks, and writes through returned pointers, are not modelled.
- `String` results that view their input's memory are values: the aliasing between `string_split_until`, `string_split_after` or `string_split_delim` pieces and the input is not captured. The same goes for the `a.data == b.data` shortcut of `string_match`.
- Preconditions stand in for undefined or broken behaviour:
  - a size-0 `arena_alloc` or `arena_ensure_capacity` when no block fits;
  - `arena_init(0)`, which links a node but leaves `last` unset;
  - `array_append` and `string_array_append` with capacity 0;
  - `array_append_many` needing more than one doubling;
  - `array_last` and `array_pop` on an empty array;
  - `path_join` with no paths;
  - an odd `utf16_size`;
  - `string_len` on memory without a NUL.
- The `Utf16Le` branch reads each unit as a host `uint16_t`. A little-endian host is assumed.
- C `char` is assumed signed, as on x86-64. Where it is unsigned (AArch64 Linux, for one), characters from 0x80 up are 128..255 instead, which changes the differences `string_match_no_case` sums; that variant is not modelled.
- The temp arena's buffer bytes are not modelled: the temp arena never reads or writes them. Its NULL `realloc` and `free` bindings are not modelled.
- `string_array_from_cstrs`, `string_println`, `string_printfv`, `string_printf`, `STR_LIT`, the `each` and `array_last_ptr` macros, and `KB`, `MB` and `GB` are not modelled: they are printing, thin wrappers or syntax.
- A bound on the number of reallocations over a run of appends is not stated. Each `DynArray.Append` states its own capacity rule instead.

## Findings

| source | as written | input that shows it | evidently intended | confidence | as-written member | corrected member |
|---|---|---|---|---|---|---|
| allocator.h:24-42 | `align_forward` asserts `is_power_of_two(align)`, which is true for 0; the mask `align - 1` is then all ones and the result is 0 | any ptr with 0 < ptr < 2^64 and align = 0 gives 0, below ptr | reject alignment 0, so the result is the least aligned address at or above ptr | high; not executed | Bits.AlignForwardZeroAlign | Bits.AlignUp |
| strings.h:113-131 | `string_match_no_case` adds up differences over all positions, so opposite differences cancel | "ab" and "ba" match | compare position by position, equal up to ASCII case | high; not executed | Strings.NoCaseAsWrittenAcceptsSwappedLetters | Strings.MatchIgnoringCase |
| strings.h:119-123 | any difference of exactly 32 is skipped, whether or not the characters are letters | "0" and "P" match | skip only the two cases of one letter | high; not executed | Strings.NoCaseAsWrittenAcceptsNonLetters | Strings.MatchIgnoringCase |
