# Verified model of the riscy-os boot memory path

riscy-os boots by walking a flattened device tree, handing every usable piece of RAM to a
small free-list allocator, and serving allocations from it. This project models that path in
Dafny, together with the buffered formatter the kernel prints with, and proves what the code
promises for every input and every run.

`dafny verify dfyconfig.toml` checks everything.

## What is modelled

| file | component |
|---|---|
| Regions.dfy | address ranges, lists of them, 64-bit arithmetic |
| Alignment.dfy | padding and left-over sizes of `boot_alloc` |
| FreeSpec.dfy | `boot_alloc` and `boot_free` as steps on a list of free regions |
| FreeLinks.dfy, FreeList.dfy | the doubly linked list of headers in memory, and the class that owns it |
| AsWritten.dfy | `boot_free` read literally, and when it keeps its header's contract |
| Donations.dfy | sequences of donations: what they add up to, and when their order matters |
| Reserved.dfy | cutting the kernel, reservations and blob out of RAM, and donating the rest |
| DonationOrders.dfy | when every order of the pieces that C allows ends with the same free list |
| BootRun.dfy | whole runs of donations, allocations and blocks given back |
| BootSequence.dfy | `fdt_boot_mem_init`, then any requests, writes by owners and blocks given back, as one run |
| BootFromTree.dfy | the same with reservations and memory nodes read from the blob |
| Endian.dfy | byte swaps and host conversions |
| FdtBlob.dfy, FdtWalk.dfy, FdtProps.dfy, FdtSearch.dfy | the device tree walkers, on any readable blob |
| FdtTree.dfy, FdtSites.dfy, FdtMeaning.dfy, FdtDevices.dfy | device trees, their flattened form, and what the walkers mean on it |
| FdtNames.dfy | trees whose properties carry names, and the strings block that holds them |
| FdtReserve.dfy | the memory reservation block |
| FdtImage.dfy | whole blobs byte for byte: one for every tree and reservation list, and one that is no tree |
| FdtLiteral.dfy | one blob given as literal bytes, walked and searched to literal results |
| FdtExamples.dfy | blobs on which a search hangs, reports a wrong node, leaves memory, or is given no node |
| Printf.dfy | `formatted_print` and `pointer_print` |

Loops and state-changing code are methods with loops and fields; each is tied to a function of
its inputs or of the old state, and the promises are proved about that function. Memory holding
headers is a map from address to header in which a write destroys every header it overlaps, so
that the list surviving the writes of others is something to prove, and so is that others' memory
survives the writes of the list. The device tree is proved in two steps: each loop
against a function of the chain of tokens of *any* blob, malformed ones included, and that
function against the obvious recursive one on a tree whose serialisation (with NOPs wherever the
format allows them) fills the structure block.

## Preconditions

- Ends of regions and reservations do not wrap around 2^64, and the kernel end is above zero.
- Fewer than 2^63 bytes are free in all, and `size + 2^alignment` is below 2^63: the casts to
  `ssize_t` at kernel/mem/boot/free_list.c:62 and 72 need it. `Alignment.SignedTestExactlyWhen` says
  for every request when the scan's test, the greater of both ends, comes out right;
  `Alignment.HugeRequestAccepted`, `Alignment.WrappedRequestAccepted` and
  `Alignment.StartTestAccepts` are requests for which it does not. Signed overflow is taken
  to wrap around.
- A blob's blocks lie in memory, 12 readable bytes follow the structure block, and a NUL stands
  somewhere behind every string, the format of `formatted_print` included.
- `fdt_node_get_parents` needs that its array is not left: `FdtWalk.InRange`, which
  `FdtWalk.InRangeExactly` shows to be exactly that and every node of a flattened tree meets
  (`FdtMeaning.ParentsAreAncestors`).
- A block given to `boot_free` is nobody's property (include/kernel/mem/boot.h:15-18);
  `BootRun.DonationSafeExactly` shows that this is exactly what safety needs.

## Where the code departs from its own promises

- `boot_free` on a non-empty list (kernel/mem/boot/free_list.c:207-258): the end of a region is
  scaled by the header size, no branch of the loop advances, and the insertion writes through a
  null pointer. `FreeList.BootFreeList.BootFreeLiterally` and `AsWritten` keep all that;
  `AsWritten.LiteralAnswers` gives every answer,
  `AsWritten.LiteralExactlyWhen` the exact blocks for which the header's contract still
  holds (in essence: only double frees) and `AsWritten.LiteralStealsMemory` a block after which
  the list owns memory nobody donated. `FreeList.BootFreeList.BootFree`, on which the boot
  sequence builds, is the documented behaviour: the same branches with byte ends, an advancing
  loop, an insertion that copes with missing neighbours, and the size check wherever a header has
  to be written. Its refusal of a block that only touches the region above it is kept from the
  code, and is part of `FreeSpec.FreeAnswer`.
- The two recursive calls of `try_boot_free_region` may run in either order
  (kernel/of/fdt_mem.c:98-99, 118-119). Whether the order of two donations shows in the list is
  decided by `Donations.OrderMattersExactly`: never with a gap between the blocks, and for blocks
  that touch exactly under the stated conditions on their neighbours and sizes. So every order
  ends with the same list and total if no reservation that splits the region is empty
  (`Reserved.TryBootFreeRegion`). `DonationOrders.OrdersAgreeExactly` is the exact condition for
  any region and any reservations, `Reserved.EmptyCutExactly` what it comes to for one empty
  reservation, and `Reserved.EmptyReservationMatters` an example.
- `alloc_before_unalignment` yields a whole unit for an aligned start (kernel/mem/boot/free_list.c:53-54);
  kept, and every result holds with it.
- `fdt_boot_mem_init` reads register block 0 each time (kernel/of/fdt_mem.c:155); kept in
  `BootSequence.Readings`. `BootSequence.AllReadExactly`: if the nodes describe different memory, all
  of it is read iff no other block of a node reaches outside its block 0. `BootSequence.SecondBankLost` is a node
  where one does.
- `fdt_find_node_by_phandle` does not advance past a malformed phandle (kernel/of/fdt.c:570-572);
  `FdtSearch.HangsExactly` says exactly when that hangs, and `FdtExamples.EmptyPhandleHangs` gives
  a blob.
- `fdt_node_is_compatible` runs past a value without a final NUL (kernel/of/fdt.c:467-477), to a
  stray match or out of memory: `FdtSearch.OverrunExactly` says for which values,
  `FdtSearch.SearchOverrunsExactly` when a search comes to the latter, and
  `FdtExamples.UnterminatedStrays` gives a blob for both. Trees whose lists end in a NUL are safe
  (`FdtDevices.CompatibleInTree`).
- `fdt_node_get_parents` gives a node outside the tree the ancestors of the last node
  (kernel/of/fdt.c:376-393); kept in `FdtWalk.Target`, with `FdtWalk.TargetFoundExactly` for when
  the node itself is meant and `FdtExamples.OutsideNodeHasParents` for a blob. It indexes its array with a negative depth
  on a blob with surplus END_NODE tokens: `FdtImage.SurplusEndUnderflows` is such a blob, and
  `FdtWalk.InRangeExactly` the exact condition.
- `formatted_print` drops a lone `%` at the end although its comment promises it
  (libc/src/stdio/printf.c:107-110); `Printf.TrailingPercentDropped`, with an example in
  `Printf.LonePercentLost`. It steps over the
  terminator of an empty format (libc/src/stdio/printf.c:163-164) and prints what the bytes behind
  it say: `Printf.EmptyFormatExactly`, with an example in `Printf.EmptyFormatPrints`.

## Model

| member | source | states |
|---|---|---|
| Alignment.HighestBlock | kernel/mem/boot/free_list.c:39-46 | carving from the end with the computed padding gives an aligned block, and no aligned block of that size in the region lies higher |
| Alignment.AfterEnd | kernel/mem/boot/free_list.c:57-63 | the left-over size is non-negative iff the region holds some aligned block of that size, and then points at one |
| Alignment.BeforeStart | kernel/mem/boot/free_list.c:65-73 | a non-negative left-over size at the start means the padded start is an aligned block inside the region |
| Alignment.EndPadExactly | kernel/mem/boot/free_list.c:39-46 | the padding at the end is below one unit and leads down to an aligned place |
| Alignment.StartPadExactly | kernel/mem/boot/free_list.c:48-55 | the padding at the start is between one byte and a whole unit and leads up to an aligned place |
| Alignment.GreaterLeft | kernel/mem/boot/free_list.c:57-73 | what the scan compares is the region less the request and the smaller of the two paddings, the end winning ties |
| Alignment.ScanTestIsExact | kernel/mem/boot/free_list.c:158-162 | the scan's test decides exactly whether any aligned block fits |
| Alignment.FitsByPadding | kernel/mem/boot/free_list.c:39-46 | without any bound on the request, an aligned block fits iff size plus padding, not reduced to 64 bits, is at most the size of the region |
| Alignment.EndTestExactlyWhen | kernel/mem/boot/free_list.c:57-63 | for every size, the end-of-region test is right iff the 64-bit padded request exceeds the region by at most 2^63 and, if it wrapped around, does exceed it |
| Alignment.SignedTestExactlyWhen | kernel/mem/boot/free_list.c:57-73 | for every size, the scan's test is right iff a block fits or the 64-bit padded requests at both ends exceed the region, and that by at most 2^63 |
| Alignment.HugeRequestAccepted | kernel/mem/boot/free_list.c:58-63 | a concrete request of 2^64 - 8 bytes is accepted though nothing fits |
| Alignment.WrappedRequestAccepted | kernel/mem/boot/free_list.c:58-63 | a concrete request whose padding wraps around is accepted though nothing fits |
| Alignment.StartTestAccepts | kernel/mem/boot/free_list.c:66-73 | a concrete request for which the end-of-region test is right and the scan takes the region all the same |
| FreeLinks.BypassLinks | kernel/mem/boot/free_list.c:86-98 | after the two neighbour writes of a removal the remaining headers are a doubly linked list again |
| FreeLinks.AttachLinks | kernel/mem/boot/free_list.c:124-145 | writing a header in a gap and the neighbour pointers gives a doubly linked list, for a moved as for an inserted region |
| FreeLinks.ResizeLinks | kernel/mem/boot/free_list.c:83 | changing a region's size keeps every link |
| FreeList.BootFreeList.FindBest | kernel/mem/boot/free_list.c:149-174 | the scan returns the region left smallest among all that fit, lowest address on ties, with the end to carve from, or nothing iff none fits; `FreeSpec.AllocExactly` says what that comes to |
| FreeList.BootFreeList.AllocAfter | kernel/mem/boot/free_list.c:75-101 | the block at the end, the region shrunk or unlinked, the list linked again |
| FreeList.BootFreeList.AllocBefore | kernel/mem/boot/free_list.c:103-147 | the block at the start, the header moved or unlinked, the list linked again |
| FreeList.BootFreeList.BootAlloc | kernel/mem/boot/free_list.c:149-180 | keeps the list invariant, performs an allocation step, and writes nothing outside the memory that was free |
| FreeSpec.AllocFailsExactly | kernel/mem/boot/free_list.c:149-180 | NULL iff no free region contains an aligned block of the requested size |
| FreeSpec.AllocExactly | kernel/mem/boot/free_list.c:75-180 | otherwise the region with the least left after the smaller padding is used, the lowest such; the pointer is its start plus the padding there if that is strictly smaller, else its end less request and padding; the rest stays on the other side if it has 24 bytes, and all other regions stay |
| FreeSpec.StartIsCheaper | kernel/mem/boot/free_list.c:158-166 | a concrete region from whose start a page is carved, with 16 bytes of padding instead of 2048 |
| FreeSpec.SliverIsLost | kernel/mem/boot/free_list.c:84-98 | a concrete request that loses 23 bytes, the most the bound of `FreeSpec.AllocConserves` allows without padding |
| FreeSpec.AllocGrants | kernel/mem/boot/free_list.c:149-180 | the block is aligned, inside one formerly free region, free before and not free after; nothing becomes free |
| FreeSpec.AllocConserves | kernel/mem/boot/free_list.c:75-147 | the list stays well formed and free bytes drop by the request plus at most 2^alignment + 22 |
| FreeSpec.FreeAdds | include/kernel/mem/boot.h:38-50 | an accepted donation adds exactly the block's addresses and bytes, none of them free before; a refused one changes nothing; the list stays ordered |
| FreeSpec.FreeAnswer | kernel/mem/boot/free_list.c:182-259 | which answer a donation gets, for every list and block |
| FreeList.BootFreeList.BootFree | include/kernel/mem/boot.h:38-50 | keeps the list invariant, performs a documented donation step, and writes nothing outside the free memory and the block |
| FreeList.BootFreeList.MergeAbove | kernel/mem/boot/free_list.c:210-231 | merging with the region below, or both, or refusing an overlap with the next |
| FreeList.BootFreeList.BootFreeLiterally | kernel/mem/boot/free_list.c:182-259 | the code as written performs exactly the literal step |
| AsWritten.LiteralExactlyWhen | kernel/mem/boot/free_list.c:202-259 | the literal code keeps the header's contract on a non-empty list iff the stated condition on head region and block holds |
| AsWritten.LiteralAnswers | kernel/mem/boot/free_list.c:202-259 | the exact answers on a non-empty list: success iff the block starts at the scaled end of the head and does not reach into the next region, a write through NULL iff it starts below the scaled end and lies below the head with a gap, and otherwise it exists and the list is unchanged |
| AsWritten.LiteralMerges | kernel/mem/boot/free_list.c:209-228 | a success makes the head region longer by the block, and by the next region if the block ends there |
| AsWritten.LiteralFirst | kernel/mem/boot/free_list.c:190-200 | on an empty list a block of at least 24 bytes becomes the list, a smaller one is empty |
| AsWritten.SecondBankTurnedDown | kernel/mem/boot/free_list.c:232-242 | a concrete second bank of memory that is refused |
| AsWritten.LiteralOnEmptyList | kernel/mem/boot/free_list.c:190-200 | on an empty list it always does |
| AsWritten.LiteralStealsMemory | kernel/mem/boot/free_list.c:209-228 | a donation after which the list owns an address nobody donated |
| FreeList.BootFreeList.ClientWrite | kernel/mem/boot/free_list.c:14-23 | a write anywhere outside free memory leaves the list intact |
| Donations.StepIsDonate | kernel/mem/boot/free_list.c:202-259 | on an ordered list a donation has exactly one answer and one resulting list, the ones the scan computes |
| Donations.AnswerExactly | kernel/mem/boot/free_list.c:202-259 | the answer told from addresses alone: it exists iff a byte of the block is free, or the byte above it is and the one below is not; it is empty iff neither and none below and it has less than 24 bytes |
| Donations.GapCommutes | kernel/mem/boot/free_list.c:202-259 | two blocks with a gap between them get the same answers and leave the same list in either order, on any list |
| Donations.OrderMattersExactly | kernel/mem/boot/free_list.c:202-259 | two donations leave the same list in either order iff there is a gap between the blocks, or one meets a free region, or the lower one is too small to stand alone, or the lower one has a region right below it and the upper one stands alone |
| Donations.GapCommutesAll | kernel/of/fdt_mem.c:98-99 | two whole sequences of donations, each block of one below each of the other with a gap, may change places |
| Donations.DonationsGain | include/kernel/mem/boot.h:38-50 | any sequence of donations keeps the list well formed and adds exactly the accepted blocks, none of them free before |
| Donations.NothingLostExactly | kernel/mem/boot/free_list.c:182-259 | from an empty list nothing donated is ever lost iff each block, after the ones before it, is free already, or is not and either continues a free region upwards or can hold a header and touches no region above |
| Donations.FreeExactly | kernel/mem/boot/free_list.c:182-259 | from an empty list, an address is free after any donations iff a block that contains it met, when its turn came, a condition told from the earlier blocks alone |
| Donations.SeparateWelcome | kernel/mem/boot/free_list.c:182-259 | blocks that are large enough and pairwise equal or apart with a gap meet that condition in any order |
| Donations.StackedWelcome | kernel/mem/boot/free_list.c:209-231 | so do ascending blocks that may touch, each large enough or starting where the one before ends |
| Reserved.TrimOrSplit | kernel/of/fdt_mem.c:6-58 | the resulting ranges hold exactly the unreserved addresses; split iff something is left on both sides |
| Reserved.PiecesMakeUp | kernel/of/fdt_mem.c:60-134 | the pieces of a region are non-empty, disjoint, cover exactly region minus kernel, reservations and blob, and number at most the splitting reservations plus one |
| Reserved.PiecesAreRuns | kernel/of/fdt_mem.c:60-134 | unless an empty reservation splits the region, the pieces ascend with gaps, and the addresses right before and after a piece are not usable: they are the maximal usable runs |
| Reserved.EntriesSplitFirst | kernel/of/fdt_mem.c:86-134 | a region around a reserve entry and the blob above it is split at the entry first: exactly four orders of the three pieces are possible |
| Reserved.CountHalves | kernel/of/fdt_mem.c:43-52 | a reservation that has split a range splits neither half, and no other splits both |
| Reserved.ShrinkOrSplit | kernel/of/fdt_mem.c:86-127 | one pass over the entries and the blob leaves nothing, one piece, or two sides whose pieces are those of the region |
| Reserved.SidesCommute | kernel/of/fdt_mem.c:97-99 | around a reservation that is not empty, donating the pieces of either side first leaves the same list |
| Reserved.FreeBothSides | kernel/of/fdt_mem.c:94-120 | both recursive calls in an arbitrary order: an order of one side and then one of the other is donated, and unless an empty reservation is involved the list is the one of left before right; nothing else is written |
| Reserved.FreePiece | kernel/of/fdt_mem.c:128-133 | one donation: the list is the one after donating the piece, the result its size if accepted |
| Reserved.TryBootFreeRegion | kernel/of/fdt_mem.c:60-134 | one of the orders C allows of the pieces is donated one after the other, and nothing else happens to the list or to memory; the result is the accepted bytes, by which the free bytes grow; unless an empty reservation splits the region, every order ends with the list of the ascending one |
| Reserved.EmptyReservationMatters | kernel/of/fdt_mem.c:98-99 | a concrete region around an empty reservation whose halves merge left first, while right first the left one is refused |
| Reserved.EmptyCutExactly | kernel/of/fdt_mem.c:98-99 | for a region cut by one empty reservation only, both orders of its halves leave the same list iff the condition of `Donations.OrderMattersExactly` holds |
| DonationOrders.LooseSame | kernel/mem/boot/free_list.c:209-231 | a free list in which no region touches the next is determined by its addresses |
| DonationOrders.AfterLoose | kernel/mem/boot/free_list.c:209-231 | donations never leave two regions that touch |
| DonationOrders.SplitExactly | kernel/of/fdt_mem.c:97-99 | at a reservation, all orders end with the same list iff those of either side do, before and after the other, and the two pieces next to it may change places |
| DonationOrders.OrdersAgreeExactly | kernel/of/fdt_mem.c:60-134 | for any region, reservations and list built by donations, every order C allows ends with the same list iff that holds at every split |
| BootRun.DonationSafeExactly | include/kernel/mem/boot.h:15-18 | a donation of permitted memory keeps the state safe iff it is refused or nobody owns a byte of it |
| BootRun.AllocKeepsSafe | kernel/mem/boot/free_list.c:149-180 | an allocation keeps blocks disjoint from each other, from free memory and from forbidden memory |
| BootRun.RunIsSafe | kernel/mem/boot/free_list.c:75-259 | every state of every run of donations, allocations and blocks given back is safe, and bytes are conserved up to the waste bound |
| BootRun.DonationsRun | kernel/mem/boot/free_list.c:182-259 | donating permitted blocks one after the other is a run, with the answers the donations get |
| BootSequence.AllReadExactly | kernel/of/fdt_mem.c:151-155 | with nodes that describe different memory, all described memory is read iff every register block lies inside block 0 of its node |
| BootSequence.NodeReadExactly | kernel/of/fdt_mem.c:148-168 | of a node block 0 is read, as many times as there are register blocks, and so many bytes are counted |
| BootSequence.ReadingsConcat | kernel/of/fdt_mem.c:142-171 | nodes are read one after the other |
| BootSequence.SecondBankLost | kernel/of/fdt_mem.c:155 | a concrete node whose second register block is never read |
| BootSequence.BootFrees | kernel/of/fdt_mem.c:139-178 | from an empty list only permitted addresses that were read become free, exactly those of blocks that met the condition in their turn; all of them if the pieces keep apart and can hold a header, or if each is welcome after those before it |
| BootSequence.FdtBootMemInit | kernel/of/fdt_mem.c:139-178 | every reading in turn is donated in pieces, the list is the one after exactly those donations, the totals are the bytes read and the bytes free, and free is what was read and is permitted, all of it if no piece is lost; nothing is written outside the pieces |
| BootSequence.Perform | kernel/mem/boot/free_list.c:149-259 | one request, block given back or write by an owner is one step, truthfully answered; a write changes exactly its byte, and the others write only to free memory and the block given back |
| BootSequence.Serve | kernel/mem/boot/free_list.c:149-259 | any sequence of actions is a run with one event per action, matching the answer its caller gets, ending in the list and blocks at hand; nothing is written outside the memory that was free at the start |
| BootSequence.AnswersAreTrue | include/kernel/mem/boot.h:20-50 | every answer is true of the memory: a pointer is to aligned bytes that were free and nobody's, and are now owned and not free; NULL means nothing fits and changes nothing; a success on giving back frees exactly that block; everything else changes nothing |
| BootSequence.BootAndServe | kernel/of/fdt_mem.c:139-178 | from an empty list, the donations of boot and the actions after it are one run, of which every state is safe and in which bytes are conserved up to the waste bound; after boot only permitted memory that was read is free, and all of it if no piece is lost |
| BootFromTree.BootFromBlob | kernel/of/fdt_mem.c:86-178 | the same with the entries, the blob size and the memory nodes read from the blob; after boot an address is free only if it is permitted and lies in block 0 of some node the search by device type finds |
| BootFromTree.ImageBoots | kernel/of/fdt_mem.c:142-171 | on a flattened tree exactly its reservations and the blob are kept out, and the nodes read are exactly those of type memory, in pre-order, each with the register blocks of its own place |
| BootFromTree.NodesAreThere | kernel/of/fdt_mem.c:142-171 | node i has the register blocks at place i, so an address is read iff it lies in block 0 at one of the places |
| BootFromTree.ImageReads | kernel/of/fdt_mem.c:142-171 | on a flattened tree an address is read iff it lies in block 0 of a node of the tree of type memory |
| Endian.Be32OfLoad | include/kernel/endian.h:36-90 | on either host, converting a loaded word gives the big-endian value of its bytes |
| Endian.Be64OfLoad | include/kernel/endian.h:60-99 | the same for a doubleword |
| FdtBlob.NextToken | kernel/of/fdt.c:34-76 | on any block, the next token is NULL or strictly further on inside the block |
| FdtBlob.NextTokenExactly | kernel/of/fdt.c:34-76 | which position that is, from the bytes: past tag, name and NUL, or past tag, length, name offset and value, padded to four bytes, or past a bare END_NODE or NOP, if below the end of the block; no other |
| FdtBlob.HostReads | kernel/of/fdt.c:42-42 | the words the walkers see are the big-endian values of the bytes, on either host |
| FdtTree.TokenStep | kernel/of/fdt.c:34-76 | from a written token the walk goes to the byte after it, padding included |
| FdtTree.SerialReadsBack | kernel/of/fdt.c:34-76 | walking a serialised token list meets exactly its tokens, with their contents |
| FdtWalk.NodeBegin | kernel/of/fdt.c:215-227 | the first BEGIN_NODE of the chain |
| FdtWalk.NextNode | kernel/of/fdt.c:229-249 | the next entry of the walk, with the depth moved by the true difference and the ancestors that remain |
| FdtWalk.VisitAt | kernel/of/fdt.c:229-249 | the walk can be resumed at every node it meets |
| FdtWalk.WalkAscends | kernel/of/fdt.c:229-249 | positions strictly increase, so no node is met twice |
| FdtWalk.MaxDepth | kernel/of/fdt.c:130-143 | the greatest depth met |
| FdtWalk.InRangeExactly | kernel/of/fdt.c:370-391 | every access to the branch array is in range iff no node before the one asked for is at a negative depth, nor that node itself unless nothing is to be copied |
| FdtWalk.FindBranch | kernel/of/fdt.c:372-382 | under that condition every array access is in range, and the array holds the branch of the node |
| FdtWalk.CopyBranch | kernel/of/fdt.c:384-391 | the branch is copied closest first, as much as fits |
| FdtWalk.TargetFoundExactly | kernel/of/fdt.c:376-382 | the search for a node ends at that node iff the walk meets it |
| FdtWalk.SearchStopsAt | kernel/of/fdt.c:376-382 | the search stops at the first entry for the node, having passed exactly those in front of it |
| FdtWalk.SearchRunsOut | kernel/of/fdt.c:376-382 | without one it passes all entries and ends at the last |
| FdtExamples.OutsideNodeHasParents | kernel/of/fdt.c:376-393 | a concrete blob and a pointer that is no node, which gets a parent |
| FdtWalk.GetParents | kernel/of/fdt.c:354-394 | min(length, depth) ancestors, closest first, nothing else written |
| FdtImage.SurplusEndUnderflows | kernel/of/fdt.c:376-390 | a readable blob with a surplus END_NODE, on which a node is at depth -1 and asking for its parents leaves the array |
| FdtSites.ScanNode | kernel/of/fdt.c:229-249 | scanning a node's tokens reports it and its descendants in pre-order and goes on after it |
| FdtSites.WalkIsPreorder | kernel/of/fdt.c:215-249 | on a flattened tree the walk is its pre-order, each node once, with true depths and ancestors |
| FdtSites.TreesNeverUnderflow | kernel/of/fdt.c:229-249 | on a flattened tree no depth is ever negative |
| FdtMeaning.FlattenedIsEncoded | kernel/of/fdt.c:28-76 | a blob whose structure block is the bytes of a serialised tree is read back as that tree, on either host |
| FdtImage.ImageRoundTrip | kernel/of/fdt.c:28-195 | every tree and reservation list has a blob that reads back as that tree and that list, on either host |
| FdtNames.LookupByName | kernel/of/fdt.c:396-453 | on a flattened tree with a strings block holding its names, shared or not, every property of every node is found by its name |
| FdtNames.ValueIsFirst | kernel/of/fdt.c:432-453 | the value by name is that of the first property of the name, and there is none iff no property has it |
| FdtNames.NamedRoundTrip | kernel/of/fdt.c:28-453 | every tree with names has a blob that is walked as that tree and in which every property is found by its name |
| FdtLiteral.SearchedNames | kernel/of/fdt.c:456-571 | the names the searches look for, as text |
| FdtLiteral.ByteOrder | include/kernel/endian.h:36-99 | loads of known bytes on a host of either endianness |
| FdtLiteral.TokensDump | kernel/of/fdt.c:34-76 | the tokens of a tree with a memory node, a compatible node and a phandle, written, are these bytes |
| FdtLiteral.DumpReads | kernel/of/fdt.c:28-195 | a blob given as 223 literal bytes reads as that tree and one reservation, on either host |
| FdtLiteral.DumpWalked | kernel/of/fdt.c:215-394 | what the walk over it meets: four positions with depths and ancestors, and the reservation |
| FdtLiteral.DumpSearched | kernel/of/fdt.c:482-582 | what the searches by type, phandle and compatible string find in it |
| FdtProps.NextTokenAfterNode | kernel/of/fdt.c:78-110 | the token after everything opened from the node on is closed |
| FdtMeaning.AfterNodeLands | kernel/of/fdt.c:78-110 | on a flattened tree that is right after the END_NODE matching the node |
| FdtProps.SubnodeBegin | kernel/of/fdt.c:302-325 | the first node after only properties and NOPs |
| FdtProps.NextSubnode | kernel/of/fdt.c:327-352 | the same after the whole subnode |
| FdtMeaning.SubnodesAreChildren | kernel/of/fdt.c:302-352 | begin and next enumerate exactly the direct children, in order |
| FdtMeaning.ChildrenAreSites | kernel/of/fdt.c:302-352 | the places enumerated are those where the children stand in the tree, with the node on top of their ancestors |
| FdtProps.GetPropByName | kernel/of/fdt.c:432-453 | the first property of that name, after `start` if given |
| FdtProps.NameExactly | kernel/of/fdt.c:396-430 | the name of a property is the string at its offset up to the NUL, and none iff the offset is outside the strings block |
| FdtMeaning.PropIsLookup | kernel/of/fdt.c:251-300 | on a flattened tree that is the first such property of the tree node |
| FdtMeaning.LookupIsFirst | kernel/of/fdt.c:432-453 | the lookup is the place of the first property of the name, behind all before it, and nothing only if none has the name |
| FdtMeaning.SearchResumes | kernel/of/fdt.c:432-453 | a search that resumes at a property looks through exactly the properties behind it |
| FdtProps.DepthCountsAncestors | kernel/of/fdt.c:229-249 | on any chain of tokens, up to the first negative depth a depth is the number of open ancestors |
| FdtProps.PathToFits | kernel/of/fdt.c:600-602 | the ancestors of a node fit an array of the maximal depth, if no negative depth comes before it |
| FdtProps.GetInheritedProp | kernel/of/fdt.c:584-611 | the property of the first on the path from the node to the root that has it, nothing iff none has |
| FdtMeaning.ParentsAreAncestors | kernel/of/fdt.c:354-394 | on a flattened tree the reported parents are the true ancestors, and the branch array is never left |
| FdtMeaning.InheritedIsNearest | include/kernel/of/fdt.h:238-243 | on a flattened tree the inherited property is the nearest definition |
| FdtMeaning.NearestExactly | kernel/of/fdt.c:584-611 | the nearest definition is that of the first node on the path that has one, and nothing iff none has |
| FdtSearch.CompareLoop | kernel/of/fdt.c:464-479 | the string comparison loop on a byte count modulo 2^64, reading on behind the value once it has wrapped |
| FdtSearch.CompareIsMembership | kernel/of/fdt.c:455-480 | on NUL-terminated strings the loop decides membership |
| FdtSearch.OverrunExactly | kernel/of/fdt.c:464-479 | for any value: yes iff one of the strings starting in it is the one looked for; otherwise no iff the value is empty or ends in a NUL, and else a stray match iff such a string stands behind the value in memory |
| FdtSearch.OverrunReadsOn | kernel/of/fdt.c:467-477 | a concrete value without a NUL and a match behind it |
| FdtExamples.UnterminatedStrays | kernel/of/fdt.c:467-501 | a concrete blob on which the search for "" reports a node whose list lacks it, and the search for "b" leaves memory |
| FdtDevices.CompatibleExactly | kernel/of/fdt.c:455-480 | a tree node is compatible with exactly the strings in its list |
| FdtDevices.OfTypeExactly | kernel/of/fdt.c:516-525 | a tree node is of a device type iff its value is that string, with or without NUL |
| FdtDevices.TreesAreSound | kernel/of/fdt.c:197-213 | on a flattened tree no search reads a value outside memory |
| FdtDevices.TypedInTree | kernel/of/fdt.c:503-530 | on a flattened tree searching by device type finds exactly the nodes of that type, in pre-order |
| FdtDevices.CompatibleInTree | kernel/of/fdt.c:482-501 | on a flattened tree whose lists end in a NUL no comparison overruns, and the search finds exactly the nodes with that string in their list, in pre-order |
| FdtSearch.FindCompatibleNode | kernel/of/fdt.c:482-501 | the first node from the start on that is reported compatible, stray matches included, or at which memory is left, decides; resuming at a reported one finds the remaining ones |
| FdtSearch.FirstDecides | kernel/of/fdt.c:467-501 | the first value along the walk that is unterminated or holds the string decides the search: its node is the result, unless the string is nowhere from it to the end of memory |
| FdtSearch.SearchOverrunsExactly | kernel/of/fdt.c:467-501 | the search leaves memory iff the first such value is unterminated and the string is nowhere behind it |
| FdtSearch.SearchFindsFirst | kernel/of/fdt.c:482-501 | if no comparison leaves memory, the result is the first node reported compatible, nothing iff there is none |
| FdtSearch.FindNodeByType | kernel/of/fdt.c:503-530 | the first node of a device type from the start on; resuming at it finds the remaining ones |
| FdtSearch.MemoryNodes | kernel/of/fdt_mem.c:142-171 | resuming until nothing is left finds all memory nodes once, in pre-order |
| FdtSearch.FindNodeByPhandle | kernel/of/fdt.c:554-582 | from the first node or right after the start, the first node that has the phandle or a malformed one decides the search |
| FdtSearch.PhandleExactly | kernel/of/fdt.c:565-576 | a node has the phandle iff its "phandle" has a length of 4 to 7 bytes and the first four, big-endian, are the number; it is malformed iff the length is any other |
| FdtDevices.PhandleOfNode | kernel/of/fdt.c:565-576 | the same in terms of the property value of a tree node |
| FdtDevices.PhandleInTree | kernel/of/fdt.c:554-582 | on a flattened tree the search ends at the first node in pre-order that has the phandle or a malformed one |
| FdtSearch.FoundExactly | kernel/of/fdt.c:565-579 | a node is found iff it is the first with the phandle and none before it has a malformed one |
| FdtSearch.HangsExactly | kernel/of/fdt.c:565-579 | it hangs iff a malformed phandle comes before the one looked for |
| FdtExamples.EmptyPhandleHangs | kernel/of/fdt.c:569-573 | a concrete blob with an empty "phandle" on which every search by phandle hangs |
| FdtReserve.HostReads64 | kernel/of/fdt.c:177-195 | on either host the accessors give the big-endian value, and the raw zero test is a zero test |
| FdtReserve.ReserveEntries | kernel/of/fdt_mem.c:88-108 | the iteration yields the entries from the first pointer on |
| FdtReserve.NextEntryExactly | kernel/of/fdt.c:158-175 | the next entry is 16 bytes on, unless it reaches the structure block or its bytes are all zero |
| FdtReserve.ReservationsRoundTrip | kernel/of/fdt.c:145-195 | any list of entries other than (0, 0), written with its terminator, is what iterating yields |
| Printf.PointerPrint | libc/src/stdio/printf.c:40-74 | "0x" and the sixteen digits of the pointer, and their number |
| Printf.PointerRoundTrip | libc/src/stdio/printf.c:40-74 | the digits are upper-case hexadecimal and give the pointer back |
| Printf.Put | libc/src/stdio/printf.c:150-160 | a character is appended to what has been printed, whether or not the buffer is passed on |
| Printf.Convert | libc/src/stdio/printf.c:106-143 | each conversion passes on its own text and counts it |
| Printf.RenderConcat | libc/src/stdio/printf.c:100-165 | the rendering of two formats put together is that of the first and then, with the arguments left, that of the second; counts add up |
| Printf.RenderPlain | libc/src/stdio/printf.c:146-160 | text without `%` is printed as it is |
| Printf.RenderString | libc/src/stdio/printf.c:124-128 | `%s` prints the whole string |
| Printf.RenderCharacter | libc/src/stdio/printf.c:117-123 | `%c` prints the character, or nothing for NUL, and counts one |
| Printf.RenderPointer | libc/src/stdio/printf.c:130-134 | `%p` prints "0x" and sixteen digits that parse back to the pointer |
| Printf.RenderOther | libc/src/stdio/printf.c:107-143 | `%%` prints one `%`, and an unknown letter is printed with its `%` |
| Printf.FramedString | libc/src/stdio/printf.c:76-175 | a string between plain text is printed between that text, and all is counted |
| Printf.NodeNamePrinted | kernel/of/fdt_mem.c:159 | "(%s)" of "memory@80000000" prints "(memory@80000000)", 17 characters |
| Printf.FormattedPrint | libc/src/stdio/printf.c:76-175 | for every format, the empty one included, the strings passed to `puts`, put together, are the unbuffered rendering of the format the loop works through, and the result is its count |
| Printf.CountIsLength | libc/src/stdio/printf.c:117-123 | the count is the length of the output iff no `%c` prints a NUL |
| Printf.TrailingPercentDropped | libc/src/stdio/printf.c:107-116 | the output is the promised one iff the format does not end in a lone `%` |
| Printf.LonePercentLost | libc/src/stdio/printf.c:107-116 | the format "%" prints nothing where "%" is promised |
| Printf.BlankExactly | libc/src/stdio/printf.c:106-160 | a format prints nothing iff it holds only conversions of nothing and perhaps a lone `%` at the end |
| Printf.EmptyFormatExactly | libc/src/stdio/printf.c:91-164 | an empty format prints nothing, as it should, iff the bytes behind its terminator are such a format |
| Printf.EmptyFormatPrints | libc/src/stdio/printf.c:91-164 | a concrete empty format that prints "A" |

## Left out

- Boot glue, UART polling, linker scripts and assembly under arch/: the end of the kernel is a parameter.
- `fdt_node_get_register_block` and the cell counts of "reg" (kernel/of/fdt.c:613-763): `BootSequence.FdtBootMemInit` and `BootFromTree.BootFromBlob` take the register blocks of each memory node as given.
- `fdt_verify`, `fdt_dump`, `boot_mem_dump` and the `printk` tracing: single comparisons or output only.
- `fdt_find_node_by_unit_name`: the same search loop with a simpler test.
- The string functions of libc: `strlen` and `strcmp` appear as their specifications.
- drivers/, kernel/early_output.c, the build system and the 32-bit configuration.
- Alignment of the headers themselves: a header may be written at any address.
- Reserved.TryBootFreeRegion: calls the documented `boot_free`, because the literal one faults or refuses from the second donation on.
- Printf.FormattedPrint: does not model overflow of the `int` count.
- FdtSearch.FindNodeByPhandle: reports the endless loop as a result instead of looping.
- FdtSearch.FindCompatibleNode: reports a read behind the end of memory as a result, since what that does depends on the machine.
