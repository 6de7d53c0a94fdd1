# A verified model of the shim vector, its shared buffers, a frame converter and strstr

The project models three parts of a device tree for Android phones with the
ST-Ericsson U8500 chip and proves what they promise.

* **The copy-on-write vector** (`libshims/VectorImpl.cpp`, `VectorImpl.h`,
  `SharedBuffer.cpp`). `SharedBuffer` is a reference-counted block, `VectorImpl` a
  type-erased growable array that shares such a block with its copies until it is
  written to, and `SortedVectorImpl` a set-like vector with binary search and two
  merges. They are classes that work in place. A block is a row of slots, each dead
  (raw memory) or live; a class `Heap` counts in the vectors and their blocks, and its
  predicate `Valid` is the ownership invariant: the reference count of a block is the
  number of vectors that point at it, all of them have the same size, exactly the
  first `mCount` slots are live, a block is freed exactly when nobody is left, and, for
  element types whose items need code to be copied or destroyed, as many items have been
  built in a block as have been destroyed there and are there now.
  The allocator knows every block it has handed out and every temporary that has not come
  back; `NoneLost` says that the heap has all those blocks. Every public method keeps
  both, leaves no temporary behind (`Accounts`), and its contract says which sequence the
  vector then shows, what it returns, when it ends the process, and (`Kept`) that no other
  vector sees any change, whatever blocks they share. The hooks of the element type
  (`DoDestroy`, `DoCopy`, ...) demand a block that is not freed and the right kind of
  slot, and compute their byte offsets as the machine does, so a verified method never
  reads or destroys a dead slot, never builds over a live one, never drops one with its
  block and never leaves the block. Only blocks whose items may be copied as bytes can be
  reallocated or freed with live slots in them. `copied` counts the items the copy hook
  has copied.
* **The converter of decoder frames** (`convertSTEYUV420PackedSemiPlanarMB`, in
  `patches/frameworks/av/0001-ste-multimedia-patch.patch`): six nested loops of moving
  pointers turn 16 by 16 macroblocks into rows of RGB565 pixels. The proof follows the
  loops with a position in lexicographic order; the result is a closed form for each
  pixel, for all frame sizes.
* **`strstr`** (`libshims/libC/strstr.c`): two nested do-while loops.

The modules: `Machine` (32-bit arithmetic, aborts, an allocator whose answers are given
from outside), `Policy` (capacities), `SharedBuffers`, `Sequences`, `StableSort`,
`Vectors`, `Runs` (all runs of vector operations), `Appends` (cost of appending and removing),
`RefProtocol` (the reference count under threads), `SortedSequences` and
`SortedVectors`, `MbLayout` and `Converter`, `Strstr`.

Where the code and its comments disagree the model follows the code:

* A comment in `_shrink` (lines 469-473) says that the capacity is always reduced, so
  that the product `new_capacity * mItemSize` needs no guard. It is reduced exactly if
  the old capacity is greater than 4, and the product is exact exactly if the old
  capacity is at least 4 or four items fit the address space
  (`Policy.ShrinkReduces`, `Policy.ShrinkArithmetic`; `Policy.ShrinkCanWrap` is an
  input for which it wraps around). The result is still right, because nothing is left
  to store in that case.
* `removeItemsAt` reports success even if the allocator refused the smaller block and
  nothing was removed; `Vectors.VectorImpl.RemoveItemsAt` says so.
* The guard of `removeItemsAt` adds two sizes without a check. `Policy.RemovalGuard`
  says exactly when its answer is right, `RemovalGuardOpens` what a wrong answer leads to,
  and `RemovalGuardFails` gives an input for which the process does not end but an item
  outside the block is destroyed. `RemoveItemsAt` is specified for everything else.
* Inserting nothing at an index equal to the capacity reports `NO_MEMORY`, though
  nothing went wrong (`Vectors.VectorImpl.InsertArrayAt`).
* The shortcuts of the fast merge agree with the naive merge exactly if neither
  boundary is a tie (`SortedSequences.FastMergeIsMerge`; `TieKeepsBoth` is an input with
  a tie). With a tie the result is still ordered, but no longer a map.

## Model

| member | source | states |
|---|---|---|
| `Runs.Run` | libshims/VectorImpl.cpp:44-513 | every run of creation, copying, assignment, insertion (of items, copies of one item, constructed items, another vector or the vector itself), replacement (by an item from outside, from a vector or constructed), removal, resize, clear, pop, setCapacity, sort and finish_vector on any number of vectors that share blocks keeps the ownership invariant and shows what independent sequences show; the blocks ever allocated are those of the heap and no temporary is left; as many items have been built in them as have been destroyed and are alive; each refusal has a refused request of its own; without setCapacity every capacity is at most max(4, 2 * count + 1); with enough memory every operation takes effect |
| `Runs.Untouched` | libshims/VectorImpl.cpp:85-104 | while the operations of a run name other vectors, the sequence of this one, which by `Runs.Run` is what the vector shows, does not change |
| `Runs.StepAround` | libshims/VectorImpl.cpp:85-104 | one operation of any kind: every vector it does not name shows exactly what it showed before, whatever blocks they share |
| `Runs.EditIn` | libshims/VectorImpl.cpp:124-361 | every operation on one vector alone does to it what it does to a sequence, or nothing if one of its own requests was refused or it ends the process; which items it makes; that it takes effect if there is memory |
| `Runs.StepInsertVector` | libshims/VectorImpl.cpp:114-117 | inserting one vector of a run into another, also when they share a block, inserts the items the other one shows and leaves all others alone; inserting it into itself does so when its block is shared or has room and the items go to the end, and is refused otherwise |
| `Vectors.Heap.NothingLeaks` | libshims/VectorImpl.cpp:363-372 | in a valid heap whose vectors have all let go, every block has been freed and its count is zero; if none is lost, that is every block the allocator has ever handed out |
| `Vectors.Heap.LivesBalance` | libshims/VectorImpl.cpp:363-372 | over all blocks of the heap, which are all that were allocated if none is lost, as many items have been built and not destroyed as there are alive; once all vectors have let go every item that was built has been destroyed |
| `Vectors.Heap.TwoOwners` | libshims/VectorImpl.cpp:85-89 | a block with two vectors does not look solely owned to either of them |
| `Vectors.Heap.Inspect` | libshims/VectorImpl.cpp:106-112 | in a valid heap the count is the number of items and at most the capacity, a block in use is not freed and has exactly these items alive |
| `Vectors.VectorImpl.constructor` | libshims/VectorImpl.cpp:44-47 | a new vector is empty and has no storage |
| `Vectors.VectorImpl.Copy` | libshims/VectorImpl.cpp:49-56 | a copy shows the same items from the same block, and the heap stays valid |
| `Vectors.VectorImpl.Assign` | libshims/VectorImpl.cpp:67-83 | after assignment the vector shows what the other one shows; an unshared old block is freed with all its slots dead and every item built in it destroyed; different item sizes end the process |
| `Vectors.VectorImpl.EditArrayImpl` | libshims/VectorImpl.cpp:85-104 | afterwards the vector alone owns a block with the same items and room; a shared block is left intact for its other owners; the process ends exactly if a needed copy cannot be allocated |
| `Vectors.VectorImpl.Capacity` | libshims/VectorImpl.cpp:106-112 | the capacity is the number of slots of the block |
| `Vectors.VectorImpl.ItemLocation` | libshims/VectorImpl.cpp:316-329 | there is an address exactly for indices below the capacity, and it lies inside the block without overflow |
| `Vectors.VectorImpl.Offset` | libshims/VectorImpl.cpp:418-441 | the byte offset of a slot, or of the end of the slots, is an exact product and not behind the end of the block; every hook computes its addresses this way |
| `Vectors.VectorImpl.DoDestroy` | libshims/VectorImpl.cpp:526-531 | exactly the given range of live slots of a block that is not freed becomes dead, and each item in it is counted as destroyed |
| `Vectors.VectorImpl.DoCopy` | libshims/VectorImpl.cpp:533-540 | exactly the given range of dead slots of a block that is not freed gets the items of the source, and each of them is counted as built and as copied |
| `Vectors.VectorImpl.ReleaseStorage` | libshims/VectorImpl.cpp:363-372 | the reference is given up; the last owner destroys the live items, so that all slots are dead and every item built has been destroyed, and frees the block; otherwise nothing happens to the items |
| `Vectors.VectorImpl.GrowByResize` | libshims/VectorImpl.cpp:406-417 | for types that may be copied and dropped as bytes, and only for them: resizing the block opens the same gap as the other two ways |
| `Vectors.VectorImpl.GrowByCopy` | libshims/VectorImpl.cpp:418-433 | copying into a new block, around the gap, opens the same gap; each item is copied once; other owners keep the old block |
| `Vectors.VectorImpl.CopyGap` | libshims/VectorImpl.cpp:422-431 | the items in front of the gap and behind it are copied into the dead slots of the new block, each once and in order, and no other slot is built |
| `Vectors.VectorImpl.GrowInPlace` | libshims/VectorImpl.cpp:434-441 | editing the block and moving the tail up opens the same gap; items are copied only if the block was shared |
| `Vectors.VectorImpl.Grow` | libshims/VectorImpl.cpp:374-447 | exactly when growing aborts, fails or succeeds; on success there is a gap of dead slots at the index with the items around it in order, and the capacity is that of `Policy.GrownIsLeast`; how many items have been copied and how many requests made |
| `Vectors.VectorImpl.InsertArrayAt` | libshims/VectorImpl.cpp:124-133 | old[..i] + new + old[i..] from any source that survives the insertion, exact status codes and aborts, no change on failure, space bound kept; after growing, the capacity is the least of at least four that exceeds three halves of the items; how many items have been copied and how many requests made |
| `Vectors.VectorImpl.InsertAt` | libshims/VectorImpl.cpp:145-158 | the same with copies of one item or with constructed items; after growing, the capacity is the least of at least four that exceeds three halves of the items |
| `Vectors.VectorImpl.InsertVectorAt` | libshims/VectorImpl.cpp:114-117 | the same with the items of another vector, also one that shares this vector's block |
| `Vectors.VectorImpl.AppendVector` | libshims/VectorImpl.cpp:119-122 | the items of the other vector come last |
| `Vectors.VectorImpl.Add` | libshims/VectorImpl.cpp:234-247 | one item is appended |
| `Vectors.VectorImpl.Pop` | libshims/VectorImpl.cpp:223-227 | the last item goes, and nothing happens to an empty vector |
| `Vectors.VectorImpl.Resize` | libshims/VectorImpl.cpp:353-361 | items are added or removed at the end until the size is right, with the capacity, copies and requests of insertion and removal |
| `Vectors.VectorImpl.ShrinkByResize` | libshims/VectorImpl.cpp:474-484 | for types that may be copied and dropped as bytes, and only for them: cutting the block at the end leaves exactly the remaining items |
| `Vectors.VectorImpl.ShrinkByCopy` | libshims/VectorImpl.cpp:485-502 | copying the remaining items into a smaller block leaves exactly these |
| `Vectors.VectorImpl.ShrinkInPlace` | libshims/VectorImpl.cpp:503-511 | destroying the range and moving the tail down leaves exactly the remaining items |
| `Vectors.VectorImpl.Shrink` | libshims/VectorImpl.cpp:449-513 | all three ways give old[..i] + old[i+k..], or no change if the allocator refuses; when the process ends; how many items have been copied and how many requests made |
| `Vectors.VectorImpl.ShrinkNeverTooBig` | libshims/VectorImpl.cpp:464-487 | if four items fit the address space, shrinking ends the process only when a shared block cannot be copied |
| `Vectors.VectorImpl.RemoveItemsAt` | libshims/VectorImpl.cpp:277-287 | unless the guard lets through a sum that has wrapped around and items outside the block are destroyed: refused by the guard: BAD_VALUE and no change; in range: the items are gone, or an unchanged vector and a report of success when the allocator refuses; otherwise the process ends, or there was no block |
| `Vectors.VectorImpl.Clear` | libshims/VectorImpl.cpp:296-299 | removal of everything: exactly when the process ends, the smaller block of four slots that is asked for, and no change at all if the allocator refuses it |
| `Vectors.VectorImpl.SetCapacity` | libshims/VectorImpl.cpp:331-351 | the items stay; the capacity becomes the one asked for, exact status codes and aborts; each item is copied once and one request made, or nothing |
| `Vectors.VectorImpl.ReplaceAt` | libshims/VectorImpl.cpp:254-275 | exactly one item is replaced, by one that may come from this vector; other owners of the block keep theirs; an item that is to take its own place is not copied |
| `Vectors.VectorImpl.FinishVector` | libshims/VectorImpl.cpp:289-294 | the vector lets go of its block and is empty |
| `Vectors.VectorImpl.ShiftUp` | libshims/VectorImpl.cpp:199-210 | the destroy-and-copy rotation moves an item to its place, with one copy for each move; every slot is live again afterwards |
| `Vectors.VectorImpl.SortWith` | libshims/VectorImpl.cpp:185-218 | the temporary is built only over a dead slot, destroyed only when live, empty when it is freed, and given back to the allocator |
| `Vectors.VectorImpl.FirstDescent` | libshims/VectorImpl.cpp:179-183 | nothing is written before the first two neighbours in the wrong order |
| `Vectors.VectorImpl.SortBy` | libshims/VectorImpl.cpp:170-221 | the contents become the sorted sequence; an ordered vector is not written and keeps sharing its block; exact status codes and aborts; the number of item moves and the number of copies the copy hook makes |
| `StableSort.SortCharacterised` | libshims/VectorImpl.cpp:172-213 | the sorted sequence is the one and only ordered permutation in which items that compare equal keep their order |
| `StableSort.AscendingPairsOrdered` | libshims/VectorImpl.cpp:179-183 | comparing neighbours, as the loop does, tells exactly whether a sequence is ordered |
| `StableSort.MovesAreInversions` | libshims/VectorImpl.cpp:201-207 | the number of item moves is the number of pairs in the wrong order |
| `StableSort.CopiesOfDisorder` | libshims/VectorImpl.cpp:185-213 | the number of copies is the number of pairs in the wrong order, plus two for each item that has a greater one in front of it |
| `StableSort.CopiesOfMoves` | libshims/VectorImpl.cpp:185-213 | sorting copies at most three items for each move |
| `StableSort.TurnsAreSort` | libshims/VectorImpl.cpp:179-213 | the turns of the outer loop compute the sorted sequence and make that many moves and copies |
| `StableSort.SortOfOrdered` | libshims/VectorImpl.cpp:183-183 | sorting an ordered sequence changes nothing and moves nothing |
| `SharedBuffers.SharedBuffer.Alloc` | libshims/SharedBuffer.cpp:31-44 | one reference, the size asked for, and one more block on the account of the allocator; the process ends exactly if header and size do not fit |
| `SharedBuffers.SharedBuffer.Dealloc` | libshims/SharedBuffer.cpp:47-52 | the block is freed exactly if its count is zero; its items have to be destroyed by then, unless their type needs no code for it |
| `SharedBuffers.SharedBuffer.Edit` | libshims/SharedBuffer.cpp:54-65 | a block with the same bytes that only the caller refers to; a shared one loses one reference |
| `SharedBuffers.SharedBuffer.EditResize` | libshims/SharedBuffer.cpp:67-90 | the same in another size: the content up to the smaller size is kept, as bytes, so that items that need code to be copied or destroyed may not be in it; a second request is made exactly if realloc was refused, and the result is null exactly if all were |
| `SharedBuffers.SharedBuffer.AttemptEdit` | libshims/SharedBuffer.cpp:92-98 | succeeds exactly for the only reference |
| `SharedBuffers.SharedBuffer.Release` | libshims/SharedBuffer.cpp:114-124 | returns the count before the call, and frees the storage exactly for the last reference that does not keep it, which only a block without items that need destroying may do |
| `RefProtocol.InvInRun` | libshims/SharedBuffer.cpp:110-124 | in every state of every interleaving the count is the number of references held, and exactly one thread disposes of the block once it is zero |
| `RefProtocol.NothingAfterFree` | libshims/SharedBuffer.cpp:114-124 | no step of any thread comes after the storage has been freed |
| `RefProtocol.OneWinner` | libshims/SharedBuffer.cpp:114-124 | at most one release returns 1, none while references remain, and when all threads are done exactly one has and the storage was freed exactly once |
| `RefProtocol.FlagDecides` | libshims/SharedBuffer.cpp:114-124 | in every run: a thread frees the storage in release only if its release was without eKeepStorage, and destroys the items and deallocates the storage only if it was with it, in this order |
| `RefProtocol.DestroyedBefore` | libshims/VectorImpl.cpp:367-369 | a thread that deallocates has destroyed the items in an event of its own, after its release began |
| `RefProtocol.OneFlag` | libshims/SharedBuffer.cpp:119-121 | if every release of a run has the flag, release never frees; if none has it, nobody destroys items or deallocates |
| `RefProtocol.WinnerDisposes` | libshims/SharedBuffer.cpp:114-124 | a run that is over has cleared the count once: with the flag there was one destruction of the items, one deallocation and no free in release; without it one free and nothing else |
| `RefProtocol.BalanceInRun` | libshims/SharedBuffer.cpp:114-124 | in every state of every run, those who cleared the count with the flag have destroyed the items or are about to, those who destroyed them have deallocated the storage or are about to, and those without the flag have freed it or are about to |
| `RefProtocol.EditorIsAlone` | libshims/SharedBuffer.cpp:92-98 | a thread for which attemptEdit succeeded holds the only reference, and only it can take the next step |
| `RefProtocol.BothMayDecrement` | libshims/SharedBuffer.cpp:117-117 | a run in which two releasing threads both find that they are not alone, so that one decrement returns 1 |
| `RefProtocol.StepKeepsInv` | libshims/SharedBuffer.cpp:110-124 | every step of every thread keeps the invariant |
| `Policy.GrowthOverflow` | libshims/VectorImpl.cpp:383-403 | each overflow the guards look for is one of a request that is too big anyway |
| `Policy.ShrinkArithmetic` | libshims/VectorImpl.cpp:467-487 | exactly when the unguarded product is exact, and that the block is big enough even if it is not |
| `Policy.ShrinkReduces` | libshims/VectorImpl.cpp:467-473 | exactly when the capacity is not increased, and when it is reduced |
| `Policy.ShrinkCanWrap` | libshims/VectorImpl.cpp:467-473 | an input for which the capacity grows and the product wraps around to zero |
| `Policy.GrownWithinBound` | libshims/VectorImpl.cpp:386-399 | the grown capacity holds the items and is at most max(4, 2 * count + 1) |
| `Policy.GrownIsLeast` | libshims/VectorImpl.cpp:394-399 | the grown capacity is the least one of at least four that exceeds three halves of the items |
| `Policy.ShrunkIsLeast` | libshims/VectorImpl.cpp:464-467 | the capacity asked for when shrinking is the least one of at least four that is twice the items |
| `Policy.GrownIsSnug` | libshims/VectorImpl.cpp:394-399 | a room is the grown capacity exactly if it is at least four, exceeds three halves of the items, and one slot less would not do |
| `Policy.ShrunkWithinBound` | libshims/VectorImpl.cpp:464-467 | the room after shrinking is at most max(4, 2 * count + 1) |
| `Policy.ShrunkIsHalfFull` | libshims/VectorImpl.cpp:464-467 | a block that has been shrunk is half full, so that taking away one more item shrinks it again |
| `Policy.RemovalGuard` | libshims/VectorImpl.cpp:283-284 | the guard is right exactly if the sum does not wrap around or what is left of it is still too large |
| `Policy.RemovalGuardOpens` | libshims/VectorImpl.cpp:283-285 | whenever the guard is wrong, either the subtraction in _shrink ends the process or it goes through and the range to be destroyed does not end inside the block |
| `Policy.RemovalGuardFails` | libshims/VectorImpl.cpp:283-284 | an input for which the guard accepts a removal that is out of range, the subtraction goes through, and the first item to be destroyed lies outside the block |
| `Appends.AppendsAreCheap` | libshims/VectorImpl.cpp:386-433 | k appends, from any count and capacity, copy at most 3k items plus what is already owed (the numbers are those `Appends.AppendOne` ties to the counter of copies) |
| `Appends.FillingIsCheap` | libshims/VectorImpl.cpp:386-433 | k appends from nothing copy at most 3k items |
| `Appends.AppendOne` | libshims/VectorImpl.cpp:234-247 | one append raises the counter of copies made by the copy hook by exactly the number of items if the block is full and their type needs code to be copied, and not at all otherwise |
| `Appends.AppendAll` | libshims/VectorImpl.cpp:244-247 | a client that fills an empty vector until memory runs out: the items it then holds, its capacity, and the counter of copies made by the copy hook, which has gone up by at most three for each item |
| `Appends.RemoveFirst` | libshims/VectorImpl.cpp:464-502 | taking the first item from a half-full block copies all that remain into a new block, which is half full again |
| `Appends.RemoveAll` | libshims/VectorImpl.cpp:464-502 | k removals from the front of a half-full block of n items make k(2n - k - 1)/2 copies, by the counter of the copy hook: unlike appending, removing has no constant cost |
| `Appends.RemovalsAreQuadratic` | libshims/VectorImpl.cpp:464-502 | the sum of what each of these removals copies |
| `SortedVectors.SortedVectorImpl.Compare` | libshims/VectorImpl.cpp:607-608 | one comparison, at an address that lies inside the block |
| `SortedVectors.SortedVectorImpl.IndexOrderOf` | libshims/VectorImpl.cpp:596-620 | on an ordered vector, while the search stays within a signed index: the index of an equal item exactly if there is one, otherwise NAME_NOT_FOUND and the number of smaller items; on one of more than 2^31 items, nothing is found |
| `SortedVectors.SortedVectorImpl.IndexOf` | libshims/VectorImpl.cpp:584-587 | an equal item, or none exists |
| `SortedVectors.SortedVectorImpl.OrderOf` | libshims/VectorImpl.cpp:589-594 | the number of smaller items, or the index of an equal one |
| `SortedVectors.SortedVectorImpl.Add` | libshims/VectorImpl.cpp:622-632 | an equal item is replaced, otherwise the item is inserted where it belongs; the order is kept, also in a vector with equal items; no change on failure, and exactly when it fails or ends the process; on a vector of more than 2^31 items the item comes first |
| `SortedVectors.SortedVectorImpl.Remove` | libshims/VectorImpl.cpp:669-676 | an equal item is removed if there is one; the order is kept; exactly when the process ends; on a vector of more than 2^31 items nothing is removed |
| `SortedVectors.SortedVectorImpl.MergeVector` | libshims/VectorImpl.cpp:634-649 | the items of any vector in any order are added to an ordered vector one after the other, until a request is refused; this vector itself may be the other one, and if nobody shares its block the items are read as they are then |
| `SortedVectors.SortedVectorImpl.Merge` | libshims/VectorImpl.cpp:651-667 | the result is that of the shortcuts, and an ordered vector; two strictly ascending vectors give a strictly ascending one exactly if neither boundary is a tie; a vector may be merged with itself unless the shortcut would read items it has moved; a failure has a refused request as its cause; the answer is where the items of the other vector lie in a row if a shortcut was taken, and NO_ERROR otherwise |
| `SortedVectors.Run` | libshims/VectorImpl.cpp:622-676 | every run of add, remove and naive merge from an empty vector leaves a strictly ascending vector whose lookups are those of the map made by what the operations did; an operation that did not do all it should had one of its own requests refused or ended the process; with enough memory all do |
| `SortedSequences.OrderSettles` | libshims/VectorImpl.cpp:605-617 | in an ordered sequence, with or without equal items, the binary search ends at an item equal to x if there is one and otherwise at the place of x |
| `SortedSequences.AddIsUpdate` | libshims/VectorImpl.cpp:622-632 | add is map update |
| `SortedSequences.AddedIsOrdered` | libshims/VectorImpl.cpp:622-632 | adding keeps the order also among items that compare equal |
| `SortedSequences.DropIsDeletion` | libshims/VectorImpl.cpp:669-676 | remove is deletion from the map |
| `SortedSequences.MergeIsUnion` | libshims/VectorImpl.cpp:634-649 | the naive merge of any sequence is a union in which the last of equal items wins |
| `SortedSequences.MergeIsOrdered` | libshims/VectorImpl.cpp:634-649 | the naive merge of any sequence into an ordered one keeps the order, also among items that compare equal |
| `SortedSequences.MergeWithItself` | libshims/VectorImpl.cpp:634-649 | merging a strictly ascending sequence with itself changes nothing |
| `SortedSequences.MergedInPlaceKeeps` | libshims/VectorImpl.cpp:634-649 | merging an ordered sequence with itself in place leaves at each position an item equal to the one there, and changes nothing if no two are equal |
| `SortedSequences.MergedInPlaceLosesItems` | libshims/VectorImpl.cpp:634-649 | an input for which this is not the merge with a copy, because an item is overwritten before its turn comes |
| `SortedSequences.FastMergeIsMerge` | libshims/VectorImpl.cpp:651-667 | the fast merge is the naive one exactly if neither boundary is a tie; with a tie both items stay and the order is only weak |
| `SortedSequences.FastMergeIsOrdered` | libshims/VectorImpl.cpp:651-667 | the fast merge of ordered sequences is ordered, with ties or without |
| `SortedSequences.FastMergeIsStrict` | libshims/VectorImpl.cpp:651-667 | the fast merge of strictly ascending sequences is strictly ascending exactly if neither boundary is a tie |
| `SortedSequences.TieKeepsBoth` | libshims/VectorImpl.cpp:653-666 | an input with a tie: of two equal items the fast merge keeps both and the naive one the new one |
| `SortedSequences.SameLookupsSameItems` | libshims/VectorImpl.cpp:622-676 | two strictly ascending sequences that answer every lookup alike are equal |
| `SortedSequences.RunIsMap` | libshims/VectorImpl.cpp:622-676 | after any sequence of operations every lookup is that of the map they make |
| `SortedSequences.SameMapSameVector` | libshims/VectorImpl.cpp:622-676 | runs that make the same map end with the same vector, whatever their order |
| `SortedSequences.PlaceDivides` | libshims/VectorImpl.cpp:605-617 | in an ordered sequence exactly the items before the place of x are smaller than x |
| `Converter.Convert` | patches/frameworks/av/0001-ste-multimedia-patch.patch:299-431 | ERROR_UNSUPPORTED exactly for unsupported parameters, and then nothing is written; otherwise every pixel that frame and destination share is that of the frame, each word of these is stored once, and no other word changes |
| `Converter.LumaShows` | patches/frameworks/av/0001-ste-multimedia-patch.patch:299-431 | two pictures whose frames differ in one luma byte differ in its pixel only, which is no darker |
| `Converter.CbShows` | patches/frameworks/av/0001-ste-multimedia-patch.patch:299-431 | two pictures whose frames differ in one Cb byte differ in its four pixels only, which are no less blue, no more green and just as red |
| `Converter.CrShows` | patches/frameworks/av/0001-ste-multimedia-patch.patch:299-431 | two pictures whose frames differ in one Cr byte differ in its four pixels only, which are no less red, no more green and just as blue |
| `Converter.PictureNearStandard` | patches/frameworks/av/0001-ste-multimedia-patch.patch:299-431 | every colour of the picture is that of Recommendation ITU-R BT.601 for the sample of its pixel, to within two of 256 steps before low bits are dropped |
| `Converter.WriteBlock` | patches/frameworks/av/0001-ste-multimedia-patch.patch:331-424 | the loops over columns, halves, rows and words write exactly the words of one macroblock that are in the destination |
| `Converter.WriteStrip` | patches/frameworks/av/0001-ste-multimedia-patch.patch:347-420 | the loop over rows stops at the lower edge and reads each chroma word once for two rows |
| `Converter.ReadRow` | patches/frameworks/av/0001-ste-multimedia-patch.patch:353-358 | the words of a row are read inside the 96 words of each macroblock, also at the crop edges |
| `Converter.Cut` | patches/frameworks/av/0001-ste-multimedia-patch.patch:377-397 | a fixed-point value below zero becomes 0, one of 65536 or more becomes 255, and every other one its whole part |
| `Converter.DecodeRow` | patches/frameworks/av/0001-ste-multimedia-patch.patch:360-401 | the four colours of a row are those of its luma and chroma words, component by component with the three cases of the cut |
| `Converter.WriteWord` | patches/frameworks/av/0001-ste-multimedia-patch.patch:402-417 | two pixels are written, unless they lie to the right of the destination |
| `Converter.Store` | patches/frameworks/av/0001-ste-multimedia-patch.patch:410-416 | one word is stored, and the store is put on record |
| `Converter.WordAtPos` | patches/frameworks/av/0001-ste-multimedia-patch.patch:325-335 | each position of the loops has one word of the destination, and that word has no other position |
| `Converter.WordFrom` | patches/frameworks/av/0001-ste-multimedia-patch.patch:328-358 | the words read for a row hold the luma bytes and the chroma pairs of its four pixels |
| `Converter.CoveredIsShown` | patches/frameworks/av/0001-ste-multimedia-patch.patch:347-351 | the words written are those of pixels that both the frame and the destination have |
| `MbLayout.InsideFrame` | patches/frameworks/av/0001-ste-multimedia-patch.patch:310-317 | every pixel of the macroblocks has its luma byte and its chroma pair inside the frame |
| `MbLayout.LumaInverse` | patches/frameworks/av/0001-ste-multimedia-patch.patch:331-354 | no two pixels share a luma byte, by an explicit inverse |
| `MbLayout.LumaCovers` | patches/frameworks/av/0001-ste-multimedia-patch.patch:331-354 | every luma byte belongs to a pixel |
| `MbLayout.LumaSteps` | patches/frameworks/av/0001-ste-multimedia-patch.patch:325-354 | from one pixel to the next the luma byte steps by 1 along half a row, 8 down, 128 to the other half, 256 to the next macroblock and 256 for each macroblock of a row to the one below |
| `MbLayout.ChromaShared` | patches/frameworks/av/0001-ste-multimedia-patch.patch:353-358 | two pixels share a chroma pair exactly if they lie in the same square of two by two |
| `MbLayout.ChromaSteps` | patches/frameworks/av/0001-ste-multimedia-patch.patch:325-358 | the same for the chroma pairs of the squares: 2, 8, 64, 128 and 128 for each macroblock of a row |
| `MbLayout.OnlyTheFrame` | patches/frameworks/av/0001-ste-multimedia-patch.patch:310-358 | the picture depends only on the 96 words of each macroblock |
| `MbLayout.Unpacked` | patches/frameworks/av/0001-ste-multimedia-patch.patch:398-416 | packing a pixel into 16 bits loses nothing |
| `MbLayout.WordBytes` | patches/frameworks/av/0001-ste-multimedia-patch.patch:360-368 | a word is the sum of its four bytes, the lowest first |
| `MbLayout.MoreLuma` | patches/frameworks/av/0001-ste-multimedia-patch.patch:373-400 | more luma lowers no component |
| `MbLayout.MoreCb` | patches/frameworks/av/0001-ste-multimedia-patch.patch:373-400 | more Cb lowers no blue, raises no green and leaves red alone |
| `MbLayout.MoreCr` | patches/frameworks/av/0001-ste-multimedia-patch.patch:373-400 | more Cr lowers no red, raises no green and leaves blue alone |
| `MbLayout.BlackAndWhite` | patches/frameworks/av/0001-ste-multimedia-patch.patch:373-400 | without colour, luma up to 16 gives black and luma from 235 on gives white |
| `MbLayout.NearStandard` | patches/frameworks/av/0001-ste-multimedia-patch.patch:373-400 | every component of every sample is that of Recommendation ITU-R BT.601, cut to the range of a byte, to within two of 256 steps before its low bits are dropped |
| `MbLayout.LumaIsOnePixel` | patches/frameworks/av/0001-ste-multimedia-patch.patch:353-400 | raising one luma byte of a frame darkens no component of its pixel and changes no other pixel |
| `MbLayout.CbIsOneSquare` | patches/frameworks/av/0001-ste-multimedia-patch.patch:353-400 | raising one Cb byte makes the four pixels of its square no less blue and no more green, and changes nothing else |
| `MbLayout.CrIsOneSquare` | patches/frameworks/av/0001-ste-multimedia-patch.patch:353-400 | raising the byte behind it, Cr, makes them no less red and no more green, and changes nothing else |
| `Strstr.Find` | libshims/libC/strstr.c:42-72 | the smallest index at which the needle occurs, and null exactly if it occurs nowhere or an argument is null; nothing behind a terminator is read |
| `Strstr.Scan` | libshims/libC/strstr.c:64-67 | the inner loop stops right behind the next occurrence of the first byte, or behind the terminator |
| `Strstr.Strncmp` | libshims/libC/strstr.c:68-68 | zero exactly if the bytes of the needle follow |

## Left out

- Weak memory: the atomics are sequentially consistent steps; what other orderings allow is not modelled.
- Reference counts: they are unbounded numbers; a count that wraps around at 2^32 is not modelled.
- `SharedBuffer::reset`: nothing calls it here, and it is `alloc` followed by `release`.
- `onlyOwner`, `data`, `bufferFromData`, `safe_add`, `safe_sub`, `safe_mul`: their header is not part of this model; they are `mRefs == 1`, the address behind a header of 16 bytes and back, and exact sums, differences and products or an abort.
- Machine width: `size_t` has 32 bits, as on the device.
- SharedBuffers.SharedBuffer.EditResize: a block that `realloc` moves keeps its identity as an object, because the caller replaces the only pointer to it.
- Hooks: the element type is given by contracts on construct, destroy, copy, splat and move; that a particular type meets them is not modelled. A hook that the flags make do nothing is treated as ending or beginning the life of a slot all the same.
- Vectors.VectorImpl.InsertArrayAt: a source inside the vector's own block must be shared or lie in front of the gap in a block that stays; the code reads freed or moved memory otherwise.
- Vectors.VectorImpl.InsertVectorAt: inserting a vector into itself has the same condition.
- Vectors.VectorImpl.RemoveItemsAt: not specified if the sum of index and count wraps around, the guard lets it through, there is a block and count is at most the number of items: the code then destroys memory outside the block.
- SharedBuffers.SharedBuffer.Edit: it copies bytes and knows nothing of items; the copies it makes are not counted as items built, and no vector calls it.
- Vectors.VectorImpl.CopyGap: `copied` counts items, not calls of the hook; a block that is resized copies bytes, which are not counted.
- Vectors.VectorImpl.Assign: both vectors have the same element type and therefore the same flags.
- Vectors.VectorImpl.SortBy: for more than 2^31 - 1 items the signed count is negative and nothing is sorted; the contract says so, but the promise of order is only for shorter vectors.
- Runs.Run: removals whose index and count add up to more than the machine can hold are not in a run; inserting a vector into itself is refused where the code would read freed or moved memory, and is not promised to take effect; replacing by an item beyond the end of a vector has no effect.
- Destructors: a vector that is destroyed without `finish_vector` leaks its block; only `finish_vector` is modelled.
- SortedVectors.SortedVectorImpl.IndexOrderOf: when exactly 2^31 items of one byte are all smaller than the one looked for, the signed arithmetic of the search overflows, and only the bounds of the answer are promised; the comparator is a total preorder.
- SortedVectors.SortedVectorImpl.Add: in that case, and on a vector of more than 2^31 items, the item must not lie in the vector's own block, as it is moved before it is read.
- SortedVectors.SortedVectorImpl.MergeVector: with items of one byte both vectors together have at most 2^31 - 1.
- SortedVectors.SortedVectorImpl.Merge: a vector that nobody shares is not merged with itself if its first and last items compare equal, because the shortcut inserts it into itself and reads items that have moved; and the target is not empty unless the source is, because the code looks at its first item.
- SortedVectors.Run: no vector is merged with itself; with items of one byte all additions together are at most 2^31 - 1.
- Inheritance: a `SortedVectorImpl` has a `VectorImpl` as a constant field instead of being one.
- Converter.Convert: the sizes of frames and buffers are below the limits of `OMX_U32`; source and destination do not overlap; words are little-endian.
- Logging, assertions that only log, reserved virtual functions and the rest of the repository (recovery graphics, radio and location shims, scripts, configuration) are not part of this model.
