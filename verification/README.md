# Verified models of the Trusted Services core libraries

This project models the parts of Trusted Services with the most state and the
most branching, and proves what they are for:

* **The dlmalloc heap of a secure partition**, in the configuration that
  `malloc_wrapper.c` fixes: one heap array, `sbrk` as the only source of memory,
  no mmap, locks, footers or trimming. Memory is a map of 64-bit words, the
  allocator is the class `Allocator.Heap`, and its bins, tries, bit maps and
  boundary tags live in that memory as they do in the program. A ghost map of
  chunks, a ghost sequence per small bin and a ghost tree per tree bin say what
  the words mean.
* **The FF-A direct message routing extension** and the messaging calls around
  it, as a state machine against any script of replies of the supervisor.
* **FF-A memory transaction descriptors**, built in one byte buffer and parsed
  back.
* **Block volumes, TLV records, number parsing and printing, and CRC-32.**

The main results:

1. `Sessions.Run`: in any run of malloc, calloc, memalign, realloc, free and
   client writes, the heap behaves step by step like a map of independent arrays,
   and denies a request exactly if it refuses it (`Sessions.Serve`).
   Every other result about the heap is kept by every step: the chunks tile the
   segment, all boundary tags agree with their neighbours, no two free chunks
   are adjacent, every free chunk is in exactly one place, every bin map bit
   tells the truth, there is one segment, and no corruption or usage-error
   branch is reachable.
2. `Allocator.Heap.Malloc`, `Realloc`, `Memalign` and `Calloc` fail exactly when
   no chunk fits and the heap array has too little room left, and `Malloc` says
   which chunk it takes otherwise.
3. `TreeBins.InsertLarge`, `TreeUnlink.UnlinkLarge` and `Bins.SearchLarge`: the
   bitwise tries gain and lose exactly one chunk, also when an interior node is
   replaced by its rightmost leaf, and the walk with its 64-bit wrapped
   subtraction finds a best fit over all bins.
4. `RoutingChain.Transparent` and `RoutingChain.RemoteCalls`: any number of
   remote calls pass a chain of any length unchanged, from `sp_msg_send_rc_req` to
   the root and back, whatever other messages come in between.
   `RoutingEndpoint.RunCalls`: whatever the supervisor replies, every endpoint is
   quiescent between calls. `RoutingScripts.DenyExact` and `ForwardExact` give the
   outcome of both loops by the replies alone.
5. `Crc32.Crc32Sw`: the table-driven CRC is the complement of the remainder of a
   polynomial division over GF(2), and the only such word (`OnlyCrc`); differences
   within four bytes are always noticed (`BurstDiffers`).
6. `Numbers.StrtolParts` and `StrtoullParts`: the value and the end for every
   string, in terms of its white space, sign, prefix, digits and rest
   (`HasParts`); `PrintThenRead`.
7. `MemSharing.RoundTrip`, `BlockVolume.WriteThenRead`, `Tlv.RoundTrip`,
   `DecodeExact` and `FindExact`.

Four properties do not hold of the code as it is. Each is kept in the model,
with the exact condition:

* `internal_memalign` never returns for an alignment above 2^63: the doubling
  loop reaches 0 and stays there (`Aligning.NeverReached`); up to 2^63 it stops
  (`Aligning.NextPower`).
* `rc_req_post_hook` drops the result of the loop that denies other messages
  when the last message carries the error bit. A call can then succeed with a
  message that is not a remote-call message of the caller: one case, for every
  caller, is `RoutingEndpoint.UnexpectedAccepted`. `RoutingEndpoint.RcOutcomeExact`
  and `RcCallExact` give the condition on the replies: no message held before two
  calls in a row fail is the expected one, and the one held then has the error
  bit and the code for success.
* `parse_descriptors` on a transaction without memory regions reads the flags
  word of the header as the region count (`MemSharing.WrongCount` is a case). The
  count is right exactly if there are regions or the flags word is 0
  (`MemSharing.RoundTrip`).
* A forwarded request that ends with success can still hold a remote-call message
  (`RoutingEndpoint.WrongResponse` is a case). This happens exactly if one of the
  callee's answers is an error message whose code is the one for success
  (`RoutingScripts.ForwardOk`), so never when no reply brings such a message
  (`RoutingScripts.ForwardInnocent`). An endpoint that receives none sends one
  exactly for a 64-bit message of its partition that looks like it
  (`RoutingEndpoint.Perform`).

## How to read the heap proofs

`HeapState.Books` is the invariant: `Ground` (tiling), `Tagged` (boundary tags),
`Roles` (top, designated victim) and `Shelved` (bins). `loose` is the set of free
chunks on their way between places; it is empty between calls. What a call did
to its client is one of the relations `NewBlock`, `Allocated`, `Freed`,
`Resized` and `Moved`; each of them says that the invariant holds again, which
block came, went or changed, and that every word of every other block is as it
was.

| files | subject |
|---|---|
| Words, Bits, BinMaps, BinIndex, TrieBits | number types, bit operations, bin maps, bin indices, trie steering |
| Rings, Tiling, Tags, Macros | circular lists, chunk layout, boundary tags, header macros |
| Tries, TreeBins, TreeUnlink, TreeSearch, Bins | tree bins |
| SmallBins, Shelves | small bins, and what linking does to the invariant |
| HeapState, Retag, Steps, Freeing, Resizing, Moving, Growth, Aligning, Bytes | the invariant and the steps on it |
| Allocator, Conservation, Arrays, Sessions | the allocator and its whole runs |
| Routing, RoutingScripts, RoutingEndpoint, RoutingChain | FF-A messaging |
| Packed, MemDescriptors, MemSharing | little-endian fields, FF-A memory descriptors |
| BlockVolume, Numbers, Tlv, Crc32, Polynomials | the smaller libraries |

## Model

| member | source | states |
|---|---|---|
| `Sessions.Run` | components/common/dlmalloc/malloc.c:4550-5272 | after any script of requests the heap invariant holds, the footprint is within the heap array, the client's pointers are live and distinct, and the trace of array maps follows `Step` at every request |
| `Sessions.Serve` | components/common/dlmalloc/malloc.c:4550-5272 | one request is one step of the map of independent arrays: one array added with room for the bytes, zeroed for calloc, aligned for memalign, removed, replaced with every byte kept that was usable and is asked for, or one word written; all others stay; it is denied exactly if the heap refuses it |
| `Allocator.Heap.constructor` | components/common/dlmalloc/malloc_wrapper.c:17-18 | the zeroed state satisfies the invariant, with no blocks and no footprint |
| `Allocator.Heap.Malloc` | components/common/dlmalloc/malloc.c:4550-4684 | 0 exactly if the request is at least MAX_REQUEST or no chunk fits and growing by the shortage would pass the heap array; otherwise a new aligned block of nb to nb + 31 bytes, every other block untouched, all invariants kept; it comes from a smallest binned chunk that fits if one is preferred to the designated victim, else from the victim if that fits, else from the top; a failure changes nothing the client or the bins can see |
| `Allocator.Heap.MallocLarge` | components/common/dlmalloc/malloc.c:4637-4642 | the large path takes the best tree chunk if it is smaller than a victim that fits; if it yields, nothing changed and no binned chunk is preferred to the victim |
| `Allocator.Heap.FromRest` | components/common/dlmalloc/malloc.c:4644-4677 | the victim if it fits, else the top, which grows if it must and fails exactly for lack of room |
| `Allocator.Heap.MallocSmall` | components/common/dlmalloc/malloc.c:4585-4633 | a block from the smallest binned chunk that fits; if it yields, nothing changed, and either the designated victim fits or no binned chunk does, and then only the top can fit |
| `Allocator.Heap.FromSmallBin` | components/common/dlmalloc/malloc.c:4588-4599 | the remainderless fit takes a whole chunk of a marked bin, which is a smallest binned chunk that fits |
| `Allocator.Heap.FromLargerSmallBin` | components/common/dlmalloc/malloc.c:4602-4626 | a chunk of the lowest marked bin above, which is a smallest binned chunk that fits, becomes a block, whole or split with the rest as designated victim |
| `Allocator.Heap.TmallocSmall` | components/common/dlmalloc/malloc.c:4511-4546 | takes the smallest chunk of any tree bin and keeps the invariant; the error branch is unreachable |
| `Allocator.Heap.TmallocLarge` | components/common/dlmalloc/malloc.c:4440-4508 | takes a smallest tree chunk of at least nb bytes, and only if it fits better than the designated victim; gives 0 exactly to leave the request to a designated victim that fits at least as well, or when no tree chunk fits |
| `Allocator.Heap.TakeLarge` | components/common/dlmalloc/malloc.c:4490-4503 | the chosen tree chunk becomes a block of nb to nb + 31 bytes, the rest goes to a bin |
| `Allocator.Heap.FromDv` | components/common/dlmalloc/malloc.c:4644-4662 | a block split from, or using up, the designated victim |
| `Allocator.Heap.FromTop` | components/common/dlmalloc/malloc.c:4664-4674 | a block split from the top |
| `Allocator.Heap.Sbrk` | components/common/dlmalloc/malloc_wrapper.c:24-35 | the break moves and the old one is returned exactly if the new break is within the array; otherwise failure and no change |
| `Allocator.Heap.FirstCore` | components/common/dlmalloc/malloc.c:4095-4111 | the first contiguous request is longer by the gap to the next page boundary; it yields memory at the start of the array or fails exactly for lack of room; it ends on a page exactly if the rounded request is whole pages |
| `Allocator.Heap.ExtendCore` | components/common/dlmalloc/malloc.c:4112-4121 | a later contiguous request yields memory right behind the segment, or fails exactly for lack of room |
| `Allocator.Heap.AnyCore` | components/common/dlmalloc/malloc.c:4159-4175 | the noncontiguous request also yields memory right behind the segment |
| `Allocator.Heap.MoreCore` | components/common/dlmalloc/malloc.c:4089-4175 | memory comes exactly if the footprint and the shortage fit the array, in both modes; a failure switches the contiguous path off for good, a success behind the segment leaves it as it was; the branch for partial failures is unreachable |
| `Allocator.Heap.StartSegment` | components/common/dlmalloc/malloc.c:4179-4201 | the first segment is recorded, every small bin header points to itself, the top chunk and the word behind it are written, and no other word changes |
| `Allocator.Heap.AdoptFirst` | components/common/dlmalloc/malloc.c:4177-4201 | initialization establishes the invariant with one free top chunk |
| `Allocator.Heap.GrowSegment` | components/common/dlmalloc/malloc.c:4213-4214 | the segment and the top chunk grow by the new bytes |
| `Allocator.Heap.AdoptMore` | components/common/dlmalloc/malloc.c:4203-4233 | new bytes always extend the one segment; the branches for a prepended or an added segment are unreachable |
| `Allocator.Heap.SysAlloc` | components/common/dlmalloc/malloc.c:4043-4249 | a block exactly if the footprint and the shortage fit the array; after a successful extension the top always suffices; one segment with footprint up to the program break |
| `Allocator.Heap.TooMuch` | components/common/dlmalloc/malloc.c:4634-4635 | the size forced for too large requests can never be served |
| `Allocator.Heap.Free` | components/common/dlmalloc/malloc.c:4688-4795 | the block is gone, all other blocks keep their words, neighbours are coalesced, the invariant holds; null changes nothing; the usage-error branch is unreachable |
| `Allocator.Heap.Consolidate` | components/common/dlmalloc/malloc.c:4369-4435 | merges a block with its free neighbours and puts the result in its one place |
| `Allocator.Heap.ConsolidateForward` | components/common/dlmalloc/malloc.c:4398-4434 | the forward half, for a chunk already merged backward |
| `Allocator.Heap.JoinTop` | components/common/dlmalloc/malloc.c:4400-4409 | merging into the top, and giving up the designated victim if it was merged in |
| `Allocator.Heap.JoinVictim` | components/common/dlmalloc/malloc.c:4410-4415 | merging into the designated victim that follows |
| `Allocator.Heap.JoinNext` | components/common/dlmalloc/malloc.c:4416-4425 | merging the binned chunk that follows |
| `Allocator.Heap.Realloc` | components/common/dlmalloc/malloc.c:5191-5234 | every byte below the old usable size and below the request stays the same, at its new place, and so does every other block; in place exactly if the block and a free chunk after it suffice; 0 exactly if it cannot be extended and malloc refuses, and then nothing changed |
| `Allocator.Heap.TryRealloc` | components/common/dlmalloc/malloc.c:4817-4894 | succeeds exactly if the block has nb bytes or gets them with the free chunk after it; the result has nb to nb + 31 bytes and keeps its contents |
| `Allocator.Heap.ExtendIntoTop` | components/common/dlmalloc/malloc.c:4837-4848 | the block grows into the top and keeps its contents |
| `Allocator.Heap.ShrinkVictim` | components/common/dlmalloc/malloc.c:4851-4861 | the block grows into the designated victim, which keeps the rest |
| `Allocator.Heap.UseUpVictim` | components/common/dlmalloc/malloc.c:4862-4867 | the block takes the whole designated victim |
| `Allocator.Heap.ExtendIntoNext` | components/common/dlmalloc/malloc.c:4871-4888 | the block grows into the binned chunk after it |
| `Allocator.Heap.GiveBackTail` | components/common/dlmalloc/malloc.c:4829-4834 | the rest of a run is split off and freed, the block keeps its contents |
| `Allocator.Heap.MoveBlock` | components/common/dlmalloc/malloc.c:5223-5230 | malloc, memcpy and free move the block, with every byte below the old usable size and below the request, to a new place, or fail exactly when malloc refuses |
| `Allocator.Heap.Memalign` | components/common/dlmalloc/malloc.c:5267-5272 | a new block at a multiple of the least suitable power of two, which is the alignment itself if that is one, with room for the request and at most one chunk's worth more; fails exactly if the padded request is too large or malloc refuses it |
| `Allocator.Heap.InternalMemalign` | components/common/dlmalloc/malloc.c:4896-4968 | the same with the least suitable power of two for any alignment up to 2^63; leader and tail are given back |
| `Allocator.Heap.MoveUp` | components/common/dlmalloc/malloc.c:4918-4946 | an aligned place inside the block, with a leader of 0 or at least a whole chunk, always exists and leaves nb bytes |
| `Allocator.Heap.GiveBackLead` | components/common/dlmalloc/malloc.c:4940-4944 | the leader is freed, the rest is the new block |
| `Allocator.Heap.TrimTail` | components/common/dlmalloc/malloc.c:4949-4958 | spare room behind nb bytes is freed |
| `Allocator.Heap.Calloc` | components/common/dlmalloc/malloc.c:4797-4810 | fails exactly if malloc refuses the unbounded product; otherwise a new block whose n * elem bytes are zero |
| `Allocator.Heap.ClientWrite` | components/common/dlmalloc/malloc.c:2078-2098 | a client may write every word of its block, also the one shared with the next chunk, without touching the invariant or another block |
| `Allocator.Heap.InsertChunk` | components/common/dlmalloc/malloc.c:3795-3797 | a free chunk goes to the bin of its size, and only bins change |
| `Allocator.Heap.InsertTree` | components/common/dlmalloc/malloc.c:3654-3703 | the same for tree bins, with the bin's map bit |
| `Allocator.Heap.UnlinkChunk` | components/common/dlmalloc/malloc.c:3799-3801 | a binned chunk leaves its bin, and only bins change |
| `Allocator.Heap.UnlinkTree` | components/common/dlmalloc/malloc.c:3722-3791 | the same for tree bins, found through the chunk's index field |
| `Allocator.Heap.UnlinkFirst` | components/common/dlmalloc/malloc.c:3621-3636 | the first chunk of a small bin leaves it |
| `Allocator.Heap.ReplaceDv` | components/common/dlmalloc/malloc.c:3640-3649 | the new designated victim takes over and the old one goes to its small bin |
| `Allocator.Heap.BlocksDisjoint` | components/common/dlmalloc/malloc.c:3429-3457 | two live blocks never overlap and lie below the program break |
| `Allocator.Heap.FootprintConserved` | components/common/dlmalloc/malloc.c:3429-3457 | used bytes, free bytes and TOP_FOOT_SIZE add up to the footprint |
| `Allocator.Heap.OnePlace` | components/common/dlmalloc/malloc.c:3393-3457 | a chunk is free exactly if it is the top, the designated victim, in a small bin or in a tree bin, and it is in one of them only |
| `Allocator.YieldsToDv` | components/common/dlmalloc/malloc.c:4488-4489 | the wrapped comparison with the designated victim yields only if no tree chunk fits or the victim fits at least as well |
| `Allocator.BlocksApart` | components/common/dlmalloc/malloc.c:5226-5227 | a block and one allocated after it do not overlap, so the copy is sound |
| `Arrays.MallocArrays` | components/common/dlmalloc/malloc.c:4550-4684 | a new block is one new array, all others equal |
| `Arrays.FreeArrays` | components/common/dlmalloc/malloc.c:4688-4795 | freeing removes one array, all others equal |
| `Arrays.WriteArrays` | components/common/dlmalloc/malloc.c:2078-2098 | a write to a block changes one word of one array |
| `Arrays.MoveArrays` | components/common/dlmalloc/malloc.c:5191-5234 | realloc replaces one array by one that starts with the same bytes |
| `Conservation.Conserved` | components/common/dlmalloc/malloc.c:3429-3457 | the sizes of used and free chunks sum to the segment without its foot |
| `BinMaps.MarkClear` | components/common/dlmalloc/malloc.c:2927-2933 | marking and clearing change exactly one bit |
| `BinMaps.LowestSetPosition` | components/common/dlmalloc/malloc.c:2973-2984 | `compute_bit2idx` of `least_bit` of a non-zero map is its lowest set position |
| `BinMaps.LeftBitsAbove` | components/common/dlmalloc/malloc.c:2938-2939 | `left_bits` keeps exactly the bins above an index |
| `BinMaps.RemainderlessBits` | components/common/dlmalloc/malloc.c:4586-4590 | the shift-and-mask test holds exactly if one of the two bins is marked, and the correction picks the right one |
| `BinMaps.NextSmallBins` | components/common/dlmalloc/malloc.c:4606 | the masked map has exactly the marked bins above the index |
| `BinMaps.SmallBits` | components/common/dlmalloc/malloc.c:4586-4608 | a zero shifted map means no bin from the index on, a non-zero one leads to the lowest marked bin above it |
| `BinIndex.FloorLog` | components/common/dlmalloc/malloc.c:2886-2904 | the branch-free steps compute the floor of the base-two logarithm |
| `BinIndex.TreeIndexRange` | components/common/dlmalloc/malloc.c:2886-2918 | every size from 256 on lies between the minimum sizes of its bin and the next; the last bin is unbounded |
| `BinIndex.TreeIndexUnique` | components/common/dlmalloc/malloc.c:2886-2918 | no other bin's bounds hold the size |
| `TrieBits.FirstSteers` | components/common/dlmalloc/malloc.c:2910-2913 | the first shifted size steers within the whole range of its bin |
| `TrieBits.SteerStep` | components/common/dlmalloc/malloc.c:4459-4466 | the sign bit tells the half of the range that holds the size, and the shifted word steers in that half |
| `Rings.RingInsert` | components/common/dlmalloc/malloc.c:3588-3591 | linking a node behind the first one gives the ring with it |
| `Rings.RingRemove` | components/common/dlmalloc/malloc.c:3725-3731 | unlinking a node gives the ring without it |
| `Tags.Decode` | components/common/dlmalloc/malloc.c:2245-2275 | size and both flags read back from a head, and the flag macros change one flag |
| `Tags.FuseTagged` | components/common/dlmalloc/malloc.c:2288-2298 | heads and feet agree with the layout after a run becomes one chunk |
| `Tags.CarveTagged` | components/common/dlmalloc/malloc.c:3057-3071 | heads and feet agree with the layout after a run is cut in two |
| `Tags.FuseCoalesced` | components/common/dlmalloc/malloc.c:3270-3291 | merging keeps free chunks apart |
| `Tiling.FuseTiled` | components/common/dlmalloc/malloc.c:3429-3457 | merging a run keeps the tiling |
| `Tiling.CarveTiled` | components/common/dlmalloc/malloc.c:3429-3457 | cutting a run keeps the tiling |
| `Tries.SizedDistinct` | components/common/dlmalloc/malloc.c:3307-3355 | nodes of a trie have different sizes |
| `TreeBins.InsertLarge` | components/common/dlmalloc/malloc.c:3654-3703 | the trie invariant holds again, and the set of chunks grew by exactly the one, as a new leaf or on the ring of its size |
| `TreeUnlink.RightmostLeaf` | components/common/dlmalloc/malloc.c:3737-3744 | the descent ends at a leaf below the node, or gives 0 exactly if there is none, with the field that points to it |
| `TreeUnlink.UnlinkLarge` | components/common/dlmalloc/malloc.c:3722-3791 | the trie invariant holds again and the set of chunks lost exactly the one, for a ring member, a leaf, a root and an interior node; the error branches are unreachable |
| `TreeUnlink.Detach` | components/common/dlmalloc/malloc.c:3722-3751 | the first half: a ring member is out of its ring and replaced by its neighbour, a lone node by its rightmost leaf; the trie lost exactly the one once the parent and the children are told |
| `TreeSearch.WalkForFit` | components/common/dlmalloc/malloc.c:4446-4468 | everything in the bin that could be better than the best chunk met lies in the deepest right subtree not taken |
| `TreeSearch.LeastOnPath` | components/common/dlmalloc/malloc.c:4479-4486 | following leftmost children meets a chunk of least excess |
| `Bins.SearchLarge` | components/common/dlmalloc/malloc.c:4440-4486 | the chunk found is a smallest one of at least nb bytes over all tree bins, 0 if none fits; the wrap of the subtraction never picks one that is too small |
| `Bins.SearchSmall` | components/common/dlmalloc/malloc.c:4515-4526 | the chunk found is a smallest one over all tree bins |
| `SmallBins.InsertSmall` | components/common/dlmalloc/malloc.c:3576-3592 | the chunk is first in its ring, the bit is set, no other ring changed, stale headers of empty bins allowed |
| `SmallBins.UnlinkSmall` | components/common/dlmalloc/malloc.c:3595-3618 | the chunk is out of its ring wherever it was; the bit is cleared exactly if the ring is empty |
| `SmallBins.UnlinkFirstSmall` | components/common/dlmalloc/malloc.c:3621-3636 | the same for the first chunk |
| `Shelves.InsertSmallBooks` | components/common/dlmalloc/malloc.c:3576-3592 | linking into a small bin keeps the heap invariant and all words outside free chunks and bin headers |
| `Shelves.UnlinkSmallBooks` | components/common/dlmalloc/malloc.c:3595-3636 | the same for unlinking |
| `Shelves.InsertLargeBooks` | components/common/dlmalloc/malloc.c:3654-3703 | the same for linking into a tree bin |
| `Shelves.UnlinkLargeBooks` | components/common/dlmalloc/malloc.c:3722-3791 | the same for unlinking from one |
| `Retag.FuseBooks` | components/common/dlmalloc/malloc.c:2288-2298 | the tag writes that merge a run keep the heap invariant and every payload outside the run |
| `Retag.CarveBooks` | components/common/dlmalloc/malloc.c:3057-3071 | the tag writes that cut a run do |
| `Steps.TakeWhole` | components/common/dlmalloc/malloc.c:3065-3067 | a whole free chunk becomes a new block |
| `Steps.Split` | components/common/dlmalloc/malloc.c:4647-4652 | a free chunk becomes a new block and a free rest |
| `Steps.Release` | components/common/dlmalloc/malloc.c:4711-4783 | a block becomes part of one free chunk, and only that block goes |
| `Steps.ReadHead` | components/common/dlmalloc/malloc.c:2263-2275 | the head word in memory gives the chunk's size and flags |
| `Steps.ReadFoot` | components/common/dlmalloc/malloc.c:2283-2290 | a clear previous-in-use flag makes `prev_foot` lead to the free chunk before |
| `Steps.NoFitSmall` | components/common/dlmalloc/malloc.c:4586-4664 | when the small path finds no bits, no tree and no victim or top, no chunk of the heap fits |
| `Steps.NoFitLarge` | components/common/dlmalloc/malloc.c:4637-4664 | the same for the large path |
| `Steps.TightestSmall` | components/common/dlmalloc/malloc.c:4586-4608 | the first chunk of the lowest marked small bin from the request on is a smallest binned chunk that fits |
| `Steps.TightestTree` | components/common/dlmalloc/malloc.c:4628-4631 | without such a bin the best fit of the tree bins is, and without tree chunks nothing binned fits |
| `Steps.TightestLarge` | components/common/dlmalloc/malloc.c:4440-4508 | for a large request the best fit of the tree bins is a smallest binned chunk that fits |
| `Steps.NoExactFit` | components/common/dlmalloc/malloc.c:4586-4601 | with both bins of a remainderless fit empty no binned chunk is preferred to a victim that fits |
| `Steps.NoneLarge` | components/common/dlmalloc/malloc.c:4488-4508 | nor is one that tmalloc_large leaves |
| `Macros.TakeWritten` | components/common/dlmalloc/malloc.c:3065-3067 | `set_inuse_and_pinuse` writes the tags of a used chunk |
| `Macros.SplitWritten` | components/common/dlmalloc/malloc.c:2293-2294 | the macros for both parts write the tags of a split chunk, in either order |
| `Growth.NoWrap` | components/common/dlmalloc/malloc.c:4058-4060 | the rounded size exceeds the request exactly if nothing wrapped |
| `Growth.Padded` | components/common/dlmalloc/malloc.c:2233-2242 | a padded request is aligned, holds the request and a head, is the least chunk or less than 24 bytes more than the request, and is small exactly for small requests |
| `Growth.CallocExact` | components/common/dlmalloc/malloc.c:4797-4805 | the overflow test is exact: the request is the product, or the largest number if that needs more than 64 bits |
| `Growth.PageGap` | components/common/dlmalloc/malloc.c:4100-4101 | the gap to the page boundary is aligned, below a page and reaches the boundary, also where that wraps |
| `Growth.EndsAt` | components/common/dlmalloc/malloc.c:4100-4101 | a request behind the gap ends as far from a page boundary as it is from whole pages |
| `Growth.InitBins` | components/common/dlmalloc/malloc.c:3917-3925 | every small bin header points to itself, and nothing else changes |
| `Growth.InitTop` | components/common/dlmalloc/malloc.c:3902-3914 | the top chunk begins at the first aligned address, and exactly its head and the word behind it are written |
| `Growth.StartedBooks` | components/common/dlmalloc/malloc.c:4182-4201 | initialization establishes the invariant |
| `Growth.GrownBooks` | components/common/dlmalloc/malloc.c:4213-4214 | growing the top keeps the invariant and all blocks |
| `Freeing.EndFree` | components/common/dlmalloc/malloc.c:4427-4429 | ending with a used chunk behind frees exactly the block |
| `Freeing.EndMerged` | components/common/dlmalloc/malloc.c:4410-4425 | ending with a merged free chunk behind does |
| `Freeing.EndTop` | components/common/dlmalloc/malloc.c:4400-4409 | ending in the top does |
| `Resizing.Widen` | components/common/dlmalloc/malloc.c:4862-4879 | a block takes in the whole free chunk behind it and keeps its contents |
| `Resizing.Recut` | components/common/dlmalloc/malloc.c:4829-4885 | a block and the free chunk behind it are cut anew, the kept part of the contents stays |
| `Moving.ClientBooks` | components/common/dlmalloc/malloc.c:2078-2098 | whatever a client writes in its block keeps the invariant and the other blocks |
| `Moving.MovedAway` | components/common/dlmalloc/malloc.c:5224-5228 | malloc, memcpy and free together move exactly one block |
| `Bytes.MemCpy` | components/common/libc/src/memcpy.c:10-19 | the bytes are copied and no others change |
| `Bytes.MemSet` | components/common/libc/src/memset.c:11-51 | the byte loops and the loop over whole words fill exactly the range with the low byte of the value |
| `Aligning.PowerTest` | components/common/dlmalloc/malloc.c:4900 | x & (x - 1) is zero exactly for powers of two |
| `Aligning.NextPower` | components/common/dlmalloc/malloc.c:4901-4903 | the loop ends with the least power of two from 32 on that is not below the alignment, for alignments up to 2^63 |
| `Aligning.NeverReached` | components/common/dlmalloc/malloc.c:4901-4903 | above 2^63 no number of doublings reaches the alignment |
| `Aligning.Normalize` | components/common/dlmalloc/malloc.c:4898-4904 | the alignment used is the least suitable power of two |
| `Aligning.SpotFacts` | components/common/dlmalloc/malloc.c:4918-4933 | the mask arithmetic gives an aligned spot whose leader is at least a whole chunk and not too long |
| `Routing.DenyRequestsOk` | components/messaging/ffa/libsp/ffa_direct_msg_routing_extension.c:68-88 | OK only with a remote-call message from the caller |
| `RoutingScripts.EachGetsBusy` | components/messaging/ffa/libsp/ffa_direct_msg_routing_extension.c:68-88 | each message that the replies bring gets one BUSY error, in order, but for the expected one it ends with, and nothing else is sent |
| `RoutingScripts.StopIsFirst` | components/messaging/ffa/libsp/ffa_direct_msg_routing_extension.c:72-83 | the stop is the first place where two calls in a row fail |
| `RoutingScripts.DenyExact` | components/messaging/ffa/libsp/ffa_direct_msg_routing_extension.c:68-88 | `deny_unexpected_requests` ends with the first expected message that the replies bring, or at the stop with the second failure, with the message held and the replies taken |
| `RoutingScripts.RequestsLast` | components/messaging/ffa/libsp/ffa_direct_msg_routing_extension.c:68-88 | on success the message came with the last reply taken |
| `Routing.DenyResponsesOk` | components/messaging/ffa/libsp/ffa_direct_msg_routing_extension.c:55-66 | OK only with a message that is no remote-call message |
| `RoutingScripts.DenyResponsesExact` | components/messaging/ffa/libsp/ffa_direct_msg_routing_extension.c:55-66 | `deny_unexpected_rc_responses` ends with the first message held that has no remote-call bit, or with the first call that fails and its result; each message held before gets one DENIED error, addressed back to its sender, and nothing else is sent; the replies taken are counted |
| `RoutingScripts.ResponsesLast` | components/messaging/ffa/libsp/ffa_direct_msg_routing_extension.c:55-66 | on success the message came with the last reply taken |
| `Routing.ErrorRoundTrip` | components/messaging/ffa/libsp/ffa_direct_msg_routing_extension.c:22-53 | an error message is recognised as one and reads back as the code it was made from |
| `RoutingScripts.ForwardOk` | components/messaging/ffa/libsp/ffa_direct_msg_routing_extension.c:127-185 | a forwarded request succeeds with a remote-call message exactly if one of the callee's answers is an error message with the code for success |
| `RoutingScripts.ForwardExact` | components/messaging/ffa/libsp/ffa_direct_msg_routing_extension.c:127-185 | `req_post_hook` ends with the callee's last answer, and succeeds exactly if that is no remote-call message or is an error message with the code for success |
| `RoutingScripts.ForwardInnocent` | components/messaging/ffa/libsp/ffa_direct_msg_routing_extension.c:127-185 | if no reply brings such a message, success means that the last message is no remote-call message |
| `RoutingScripts.ForwardSends` | components/messaging/ffa/libsp/ffa_direct_msg_routing_extension.c:127-185 | and then the loop sends none either |
| `RoutingScripts.ForwardLast` | components/messaging/ffa/libsp/ffa_direct_msg_routing_extension.c:127-185 | on success the response came with the last reply taken |
| `RoutingChain.NoiseDenied` | components/messaging/ffa/libsp/ffa_direct_msg_routing_extension.c:68-88 | however many other messages come first, an endpoint that asks its caller gets the answer, has sent the request once and otherwise only BUSY errors |
| `RoutingChain.OneRound` | components/messaging/ffa/libsp/ffa_direct_msg_routing_extension.c:127-185 | a hop passes a request of its callee up and the caller's answer down, with its own ids and the same words, and goes on with what the callee says next |
| `RoutingChain.HopRounds` | components/messaging/ffa/libsp/ffa_direct_msg_routing_extension.c:127-185 | the same for any number of calls in one direct request: all requests and all answers pass in order, and the hop ends with the callee's response |
| `RoutingChain.UpUnchanged` | components/messaging/ffa/libsp/ffa_direct_msg_routing_extension.c:127-185 | at every hop of a chain each request still has the words of the far end |
| `RoutingChain.DownUnchanged` | components/messaging/ffa/libsp/ffa_direct_msg_routing_extension.c:127-185 | and each answer those of the root |
| `RoutingChain.Transparent` | components/messaging/ffa/libsp/ffa_direct_msg_routing_extension.c:127-185 | over a chain of any length, in any number of calls and with any other messages in between, the root gets each request and the far end each answer with the same words, each from the neighbour it expects, and every hop ends with success |
| `RoutingChain.ChainExists` | components/messaging/ffa/libsp/ffa_direct_msg_routing_extension.c:127-185 | such chains exist in every length and for every request and answer |
| `RoutingChain.RemoteCall` | components/messaging/ffa/libsp/sp_messaging.c:207-250 | one remote call of the far end: the request goes out once, and the words or the error of the caller's answer come back |
| `RoutingChain.RemoteCalls` | components/messaging/ffa/libsp/sp_messaging.c:207-250 | remote calls from end to end: the root gets each request with its words 1 to 4 and its word 0 with bit 31 set, and each call returns the words or the error of the root's answer |
| `RoutingEndpoint.Endpoint.constructor` | components/messaging/ffa/libsp/ffa_direct_msg_routing_extension.c:15-20 | an endpoint starts idle |
| `RoutingEndpoint.Endpoint.DenyUnexpectedRcResponses` | components/messaging/ffa/libsp/ffa_direct_msg_routing_extension.c:55-66 | the loop computes `DenyResponses` for any replies |
| `RoutingEndpoint.Endpoint.DenyUnexpectedRequests` | components/messaging/ffa/libsp/ffa_direct_msg_routing_extension.c:68-88 | the loop computes `DenyRequests` for any replies |
| `RoutingEndpoint.Endpoint.RequestReceived` | components/messaging/ffa/libsp/ffa_direct_msg_routing_extension.c:90-107 | an accepted request makes the endpoint a leaf of its sender and has its routing bits cleared; a failure keeps the state |
| `RoutingEndpoint.Endpoint.ReqPostHook` | components/messaging/ffa/libsp/ffa_direct_msg_routing_extension.c:127-185 | the loop computes `Forward`, own and caller id stay, and it ends as a leaf without a callee |
| `RoutingEndpoint.Endpoint.MsgWait` | components/messaging/ffa/libsp/sp_messaging.c:58-83 | quiescent afterwards; result, calls made and message for every script of replies; a message delivered has the ids and words of the last reply taken, with the two routing bits of a 32-bit message cleared |
| `RoutingEndpoint.Endpoint.SendDirectReq` | components/messaging/ffa/libsp/sp_messaging.c:90-146 | the same for requests: the first call has the ids and words of the request, a response those of the last reply taken; 32-bit requests with a routing bit are rejected before anything is sent; the ids of the endpoint stay |
| `RoutingEndpoint.Endpoint.SendDirectResp` | components/messaging/ffa/libsp/sp_messaging.c:148-204 | the same for responses and the next request; on failure the endpoint is idle |
| `RoutingEndpoint.Endpoint.SendRcReq` | components/messaging/ffa/libsp/sp_messaging.c:207-250 | the same for remote-call requests: the first call has the words of the request and bit 31, and a remote-call message of the caller that is returned has the words of the last reply taken |
| `RoutingEndpoint.RcOutcomeExact` | components/messaging/ffa/libsp/ffa_direct_msg_routing_extension.c:229-241 | a remote call succeeds without a remote-call message of the caller exactly if no message held before two calls in a row fail is one, and the message held then has the error bit and the code for success |
| `RoutingEndpoint.RcCallExact` | components/messaging/ffa/libsp/sp_messaging.c:207-250 | the same condition on the whole script of `sp_msg_send_rc_req` |
| `RoutingEndpoint.UnexpectedAccepted` | components/messaging/ffa/libsp/sp_messaging.c:207-250 | for every caller a remote call can succeed with a message that is no remote-call message |
| `RoutingEndpoint.WrongResponse` | components/messaging/ffa/libsp/sp_messaging.c:90-146 | a direct request can succeed with a remote-call message for a response |
| `RoutingEndpoint.Perform` | components/messaging/ffa/libsp/sp_messaging.c:58-250 | if no reply brings an error message with the code for success, a call sends one exactly if it is given a 64-bit message that looks like it |
| `RoutingEndpoint.RunCalls` | components/messaging/ffa/libsp/sp_messaging.c:58-250 | after any sequence of calls and any replies the endpoint is quiescent, and no 32-bit request delivered has a routing bit |
| `MemDescriptors.WriteHeader` | components/messaging/ffa/libsp/ffa_memory_descriptors.c:112-136 | the buffer holds an empty transaction with these fields |
| `MemDescriptors.Buffer.constructor` | components/messaging/ffa/libsp/ffa_memory_descriptors.c:104-136 | a new buffer holds an empty transaction |
| `MemDescriptors.Buffer.AccessCount` | components/messaging/ffa/libsp/ffa_memory_descriptors.c:234-242 | the count read from the bytes is the number of access descriptors |
| `MemDescriptors.Buffer.CompositeOffset` | components/messaging/ffa/libsp/ffa_memory_descriptors.c:37-51 | the offset read from the bytes is that of the composite descriptor, 0 without one |
| `MemDescriptors.Buffer.Reserve` | components/messaging/ffa/libsp/ffa_memory_descriptors.c:144-173 | room for the access descriptors is set aside, the transaction stays |
| `MemDescriptors.Buffer.AddAccess` | components/messaging/ffa/libsp/ffa_memory_descriptors.c:175-232 | exactly one access descriptor is added at the returned index, header, composite descriptor and regions stay, all offsets agree |
| `MemDescriptors.Buffer.NameComposite` | components/messaging/ffa/libsp/ffa_memory_descriptors.c:289-292 | all access descriptors get the one offset, and nothing outside them changes |
| `MemDescriptors.Buffer.AddComposite` | components/messaging/ffa/libsp/ffa_memory_descriptors.c:266-299 | an empty composite descriptor is added at the end of the used part, and all access descriptors name it |
| `MemDescriptors.Buffer.AddRegion` | components/messaging/ffa/libsp/ffa_memory_descriptors.c:250-318 | one region is added at the end, the total is the sum of the page counts modulo 2^32, the parts stay apart and within the used length |
| `MemDescriptors.AccessAdded` | components/messaging/ffa/libsp/ffa_memory_descriptors.c:175-232 | the bytes written for an access descriptor extend the transaction by it |
| `MemDescriptors.CompositeAdded` | components/messaging/ffa/libsp/ffa_memory_descriptors.c:266-299 | the bytes written for a composite descriptor extend the transaction by it |
| `MemDescriptors.RegionAdded` | components/messaging/ffa/libsp/ffa_memory_descriptors.c:304-317 | the bytes written for a region extend the transaction by it |
| `MemDescriptors.Layout` | components/messaging/ffa/libsp/ffa_memory_descriptors.c:104-318 | the offsets and sizes of all fields, in numbers |
| `Packed.LittleEndian` | components/messaging/ffa/libsp/ffa_memory_descriptors.c:104-318 | fields of 1, 2, 4 and 8 bytes have the low byte first |
| `MemSharing.FlagsRoundTrip` | components/messaging/ffa/libsp/sp_memory_management.c:160-211 | flags come back from the word they are packed in, and each is at its bits: 0, 1, 2, the type at 3 and 4, the hint at 5 to 8 with its valid bit 9 |
| `MemSharing.AccessRoundTrip` | components/messaging/ffa/libsp/sp_memory_management.c:130-158 | receiver and permissions come back from an access descriptor, data access in bits 0 and 1 and instruction access in bits 2 and 3 |
| `MemSharing.Setup` | components/messaging/ffa/libsp/sp_memory_management.c:213-249 | the buffer holds the descriptor, the receivers in order and the regions in order |
| `MemSharing.Parse` | components/messaging/ffa/libsp/sp_memory_management.c:251-303 | succeeds exactly if the tag is the expected one, the count read is within the capacity and that many regions fit the buffer; then it gives what a valid buffer with one receiver holds, and without a composite descriptor the flags word as the count |
| `MemSharing.RoundTrip` | components/messaging/ffa/libsp/sp_memory_management.c:213-303 | parsing what was set up for one receiver gives the same descriptor, receiver and permissions; the region count, and then the regions, exactly if there are regions or the flags word is 0; when parsing succeeds is stated exactly |
| `MemSharing.WrongCount` | components/messaging/ffa/libsp/sp_memory_management.c:213-303 | a transaction without regions and with one flag comes back with a region |
| `BlockVolume.Volume.Open` | components/media/volume/block_volume/block_volume.c:97-123 | fails exactly if the partition is not found or not opened; a found one gives the size and puts the cursor at 0, otherwise nothing changes |
| `BlockVolume.Volume.Close` | components/media/volume/block_volume/block_volume.c:125-140 | fails exactly if the store does, and then nothing changes; otherwise size and cursor are 0 |
| `BlockVolume.Volume.Seek` | components/media/volume/block_volume/block_volume.c:142-173 | the cursor moves exactly if the target, in unbounded arithmetic, is within the volume |
| `BlockVolume.Volume.Read` | components/media/volume/block_volume/block_volume.c:184-229 | in any case exactly the bytes between the old and the new cursor were put into the buffer; success delivers the min(length, size - position) bytes, whatever part of each request the store serves; failure reports none; requests stay within one block; a store that never fails makes it succeed |
| `BlockVolume.Volume.Write` | components/media/volume/block_volume/block_volume.c:231-276 | every byte between the old and the new cursor is the one given, and every other byte of the store is as before, also on failure; success writes as many bytes as were given or fit; a store that never fails makes it succeed |
| `BlockVolume.WriteThenRead` | components/media/volume/block_volume/block_volume.c:142-276 | seeking back and reading gives the bytes written |
| `Numbers.Scan` | components/common/libc/src/strtol.c:62-126 | the scanning loop finds sign, base, value and end, and the cutoff test reports overflow exactly when the value passes the limit |
| `Numbers.Strtol` | components/common/libc/src/strtol.c:49-134 | the exact value clamped to the range of long, and the first character not used |
| `Numbers.Strtoull` | components/common/libc/src/strtoull.c:49-113 | the exact value, the largest number on overflow, negated modulo 2^64 after a minus sign |
| `Numbers.PartsScan` | components/common/libc/src/strtol.c:62-109 | on a string of white space, sign, prefix, digits and rest, each told by its characters, the scan finds just these |
| `Numbers.HasParts` | components/common/libc/src/strtol.c:62-109 | every string has such parts |
| `Numbers.StrtolParts` | components/common/libc/src/strtol.c:49-134 | the digits as a number in the base that the prefix and the argument stand for, with the sign and clamped; the end is behind the digits, or at the start without any |
| `Numbers.StrtoullParts` | components/common/libc/src/strtoull.c:49-113 | the same for strtoull, with saturation and 64-bit negation |
| `Numbers.FitsBuffer` | components/common/libc/src/snprintf.c:46-47 | every 64-bit number has at most 20 digits in radix 10 and above |
| `Numbers.FillDigits` | components/common/libc/src/snprintf.c:59-70 | the buffer gets the digits, lowest first, and is never overrun |
| `Numbers.PutChar` | components/common/libc/src/snprintf.c:23-30 | the buffer holds the text as far as it fits, and the count is that of the whole text |
| `Numbers.UnsignedNumPrint` | components/common/libc/src/snprintf.c:41-80 | the padded digits are appended to the text, clipped to the buffer |
| `Numbers.ValueOfDigits` | components/common/libc/src/snprintf.c:59-68 | the digits printed spell the number |
| `Numbers.DigitsSpell` | components/common/libc/src/snprintf.c:59-70 | the characters printed stand for the digits of the number, without leading zeros and in the case asked for |
| `Numbers.FieldShape` | components/common/libc/src/snprintf.c:71-79 | the field is the digits with padding up to the width, in front for a positive and behind for a negative width |
| `Numbers.PrintThenRead` | components/common/libc/src/strtoull.c:49-113 | strtoull gives back every 64-bit number printed in radix 10 or 16, and uses all digits |
| `Tlv.Encoder.constructor` | components/common/tlv/tlv.c:15-25 | a new iterator has encoded nothing |
| `Tlv.Encoder.Encode` | components/common/tlv/tlv.c:36-57 | succeeds exactly if the record fits and its tag is not below the last one; the buffer then holds the records so far and this one: tag and length with the high byte first, then the value; nothing behind it changes |
| `Tlv.Decoder.Decode` | components/common/tlv/tlv.c:59-81 | on any bytes: finds a record exactly if the encoding of one starts at the position, then that one, and moves behind it; otherwise stays |
| `Tlv.DecodeExact` | components/common/tlv/tlv.c:59-81 | decoding is the inverse of encoding at every position of any bytes: the record found is encoded there, and the only one that is |
| `Tlv.Decoder.FindDecode` | components/common/tlv/tlv.c:83-102 | gives what `FindAt` finds, ends within the limit, and moves behind the record exactly if there is one |
| `Tlv.DecodeRecord` | components/common/tlv/tlv.c:59-81 | decoding where record k starts gives record k |
| `Tlv.RoundTrip` | components/common/tlv/tlv.c:36-81 | decoding an encoded sequence gives the same records in order |
| `Tlv.FindFirst` | components/common/tlv/tlv.c:83-102 | on an encoded sequence the search finds the first record with the tag, and fails exactly if none is left |
| `Tlv.FindExact` | components/common/tlv/tlv.c:83-102 | on any encoded sequence the search stops at the first record whose tag is not below the one sought, and succeeds exactly if that has the tag |
| `Tlv.NextFind` | components/common/tlv/tlv.c:83-102 | reading ascending tags one after the other finds the first record of each, whatever lies between |
| `Crc32.TableOk` | components/common/crc32/crc32.c:21-65 | each of the 256 table entries is the reflected division of its index |
| `Crc32.TableStep` | components/common/crc32/crc32.c:67-81 | one table step is eight steps of bitwise division |
| `Crc32.Crc32Sw` | components/common/crc32/crc32.c:67-81 | the complement of the result is the remainder, by the generator polynomial, of the message bits followed by 32 zeros, with the complement of the previous CRC added to the first 32 bits; 0 for the null buffer; this is the CRC-32 of section 8 of RFC 1952 |
| `Crc32.OnlyCrc` | components/common/crc32/crc32.c:67-81 | no other word is |
| `Crc32.FedRemainder` | components/common/crc32/crc32.c:67-81 | feeding bits into the register is long division by the generator |
| `Polynomials.RemainderUnique` | components/common/crc32/crc32.c:67-81 | a division leaves one remainder |
| `Crc32.CrcConcat` | components/common/crc32/crc32.c:67-81 | the CRC of a message continues from the CRC of its first part |
| `Crc32.BurstDiffers` | components/common/crc32/crc32.c:67-81 | messages whose difference lies within four bytes in a row have different CRCs |
| `Crc32.OneByteDiffers` | components/common/crc32/crc32.c:67-81 | in particular messages that differ in exactly one byte |

## Left out

- Realloc: legal calls only, a pointer that is null or live; so for Free and ClientWrite.
- Memalign: alignments above 2^63 are excluded because the code does not return for them (`Aligning.NeverReached`).
- Consolidate: `dispose_chunk` and the body of `dlfree` are the same steps but for their run-time checks and share one method; `release_checks` and the walk over further segments, which finds none with a single segment, are not modelled.
- StartSegment: `max_footprint`, `magic` and segment flags are not modelled.
- InitTop: the trim threshold is not modelled, and sizes below the alignment offset, which would wrap, are excluded.
- Heap addresses: memory is a map of 64-bit words, the tree bin table is a sequence beside it, and a heap array of at least 2^63 bytes is excluded.
- `prepend_alloc`, `add_segment` and the corruption and usage-error actions are shown to be unreachable and have no body in the model.
- dlmalloc's mspaces, mmap, locks, footers, trimming, mallopt, footprint limits, statistics, bulk functions, `realloc_in_place` and `posix_memalign`.
- SendDirectReq: interrupts and framework messages of the supervisor-call layer are not modelled; a reply is an error, an empty success or a delivered message. The same holds for MsgWait, SendDirectResp and SendRcReq, and their null-argument checks are not modelled.
- ForwardOk: 64-bit messages pass through the model, but the routing bits are defined for 32-bit messages only.
- Reserve: the layout is that of FF-A 1.1, and buffers of 4 GiB and more are excluded; assertions of the C code are preconditions, here and in AddAccess and AddRegion.
- Parse: buffers that `setup_descriptors` and the descriptor functions write, with one receiver; other bytes are not modelled.
- Setup: the packing of memory region attributes is passed through as one number.
- Open: whether the store finds, opens and closes the partition is a parameter, erasing is not modelled, and volumes of 2^63 bytes and more are excluded.
- Read: a store that reports success with 0 bytes would keep this loop and that of Write running for ever and is excluded.
- Strtol: bases outside 0 and 2 to 36, which the code does not check for, are excluded; `strtoll`, `strtoul` and `strtod` are not modelled.
- UnsignedNumPrint: radices below 10, which the code rejects with an assertion, are excluded, and the format language around it is not modelled.
- Crc32Sw: the hardware variant is not modelled.
- Decode: the output record that a failed decode leaves half filled is not modelled.
- The remaining services, deployments, tools and drivers of the repository.
