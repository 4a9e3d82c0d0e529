# Verified model of the johnbeauty-os cores

A Dafny model of the data structures, memory manager, timers, file-system cores and protocols of a small
SMP kernel, with machine-checked proofs about them. `dafny verify dfyconfig.toml` checks everything.

Each part pairs the code's own way of working with the simple thing it is meant to be:

- **Red-black tree** (`RbShape`, `RbStore`, `RbKeys`, `RbInsert`, `RbDelete`, `RbTree`): rotations, the two
  fix-up loops, insertion, removal and the walks, on node records with parent pointers and a shared nil. Its
  meaning is the in-order sequence of nodes. `VmaSpace` and `Hrtimer` are built on this same tree.
- **Timer wheel** (`TimerWheel`): five levels, cascades and a 32-bit clock. Its meaning is a map from timer to
  due tick over an unbounded clock.
- **Page frames** (`Buddy`, `PageFrames`): the buddy allocator with per-CPU caches, reference counts, freeing
  of arbitrary runs, and initialisation. Its meaning is an owner for every frame: a free block, a cache, or taken.
- **Copy-on-write** (`Cow`): fork, faults, stores and unmapping on shared frames. Its meaning is a machine in
  which every fork copies every page.
- **Translation tables** (`PteBits`, `PageTable`): four levels of 512-word tables of 64-bit descriptors. Their
  meaning is a finite map from virtual page to frame and protection. `LeafTable` says what unmapping does to the
  set of mapped pages; `Cow` and `VmaSpace` unmap in that way.
- **Areas of an address space** (`VmaList`, `VmaSpace`): removal of a range with in-place edits and splits while
  the tree is traversed, and the search for a gap. The meaning is an ordered list of disjoint areas.
- **FAT32** (`FatTable`, `FatVolume`, `LongNames`): allocation, growth and freeing of cluster chains in all copies
  of the table, and long file names. The meaning is one list of clusters per file, and the name itself.
- **Page cache** (`PageCache`): write-back caching with an idle list. Its meaning is the flat disk.
- **High-resolution timers** (`Hrtimer`), **work queues** (`Workqueue`), **exit and wait** (`ExitWait`),
  **heap sort, binary search and the exception table** (`HeapSort`, `ExTable`).

`Arithmetic` and `Collections` hold what several parts share.

Code that updates objects is a class whose methods do the same updates, each proved against a function or a
relation on the old state; interleaved protocols are state machines whose steps are the code's atomic
accesses and locked sections. Pointers to list and tree nodes are identities; a circular list is a sequence.
A null pointer result is `NIL`, `NULL`, an empty sequence or `None`. Memory and frames handed out by an
allocator, and the time, are parameters; running out of memory is one of the cases unless stated below.

Some properties turn out to hold only under a condition, which is proved to be exact:

- `PageTable.Context.Unmap` removes just one translation unless its leaf table holds 256, 257 or 512 live
  entries, because the count of live entries is one byte and its decrement stops at zero. Otherwise the other
  pages of the table are lost and their frames keep references that no entry accounts for. So `Cow.Memory.Run`
  follows the copying machine exactly when no unmap meets such a table, and `VmaSpace.Space.RemoveRange` keeps
  the pages outside its range exactly when no leaf table passes such a size on the way (`LeafTable.Safe`).
- `PageFrames.Allocator.AllocN` leaves the free-frame counter exact only for powers of two; otherwise the
  counter ends above the truth by the trimmed surplus.
- `ExitWait.NotifyWakes`: a parent asleep on a child is woken by the child's exit exactly when the pid table
  leads to the child. An exec takes the process out of the table and puts it back when it succeeds; an exec that
  fails exits in between, and its parent sleeps for ever.
- `ExitWait.ReapedOnce`: a child that is reaped is gone for good exactly when it has left its processor; before
  that the record stays, and the same wait reaps it again.
- `LongNames.CreateAndLookup`: a file just created under a long name, before the end of its directory, is found
  exactly when the name does not begin with byte 0xE5, which the generated short name carries into the place of
  the deletion mark.
- `LongNames.InsideExact`: copying an entry's part of the name stays inside the 256-byte buffer exactly when the
  entry is not number 20 with its terminator in the last four characters.

## Model

| member | source | states |
|---|---|---|
| `RbTree.Tree.constructor` | dsa/rbtree.c:170-177 | an initialised tree is valid and holds nothing |
| `RbTree.Tree.LeftRotate` | dsa/rbtree.c:8-25 | the pointer writes are exactly the rotation `Rotated` of the node records, and the root moves only if the rotated node was the root |
| `RbTree.Tree.RightRotate` | dsa/rbtree.c:27-44 | the mirror image of the left rotation |
| `RbStore.RotatedAt` | dsa/rbtree.c:8-44 | those pointer writes turn the represented tree into its rotation in the same surroundings, with every parent link right |
| `RbShape.RotInOrder` | dsa/rbtree.c:8-44 | a rotation keeps the in-order sequence |
| `RbInsert.PushUpRising` | dsa/rbtree.c:46-84 | red uncle: recolouring moves the one possible red-red pair two levels up and keeps black heights and order |
| `RbInsert.InnerRising` | dsa/rbtree.c:46-84 | inner grandchild: the first rotation keeps black heights, order and the single violation |
| `RbInsert.OuterRising` | dsa/rbtree.c:46-84 | outer grandchild: recolouring and rotating removes the violation and keeps black heights and order |
| `RbTree.Tree.InsertFixup` | dsa/rbtree.c:46-84 | from a tree with at most one red-red pair at the new node, the loop ends in a valid red-black tree with the same in-order sequence |
| `RbTree.Tree.Insert` | dsa/rbtree.c:179-203 | the node goes after every element that compares less or equal and before every greater one, the rest keep their order, the tree stays a valid red-black tree and stays sorted |
| `RbTree.Tree.Transplant` | dsa/rbtree.c:86-96 | one subtree is replaced by another at its parent, or at the root |
| `RbDelete.RedSibShape` | dsa/rbtree.c:98-152 | red sibling: rotating makes the sibling black and keeps the one missing black where it was |
| `RbDelete.BlackSibShape` | dsa/rbtree.c:98-152 | black sibling with black children: painting it red moves the missing black up |
| `RbDelete.NearRedShape` | dsa/rbtree.c:98-152 | red near nephew: rotating the sibling makes the far nephew red and keeps the deficit |
| `RbDelete.FarRedShape` | dsa/rbtree.c:98-152 | red far nephew: the last rotation makes the whole tree red-black again |
| `RbTree.Tree.DeleteFixup` | dsa/rbtree.c:98-152 | from a tree that lacks one black at one place, the loop terminates in a valid red-black tree with the same in-order sequence |
| `RbTree.Tree.Minimum` | dsa/rbtree.c:154-160 | the walk left ends at the leftmost node of the subtree |
| `RbDelete.RemoveOne` | dsa/rbtree.c:205-235 | a node with at most one child is replaced by it: the in-order sequence loses exactly that node, and the tree is red-black or lacks one black there |
| `RbDelete.RemoveTwoShape` | dsa/rbtree.c:205-235 | a node with two children is replaced by its successor in its own colour: red-black, or one black missing where the successor was |
| `RbDelete.RemoveTwoOrder` | dsa/rbtree.c:205-235 | replacing a node by its successor removes exactly that node from the in-order sequence |
| `RbTree.Tree.Remove` | dsa/rbtree.c:205-235 | the tree stays valid and the in-order sequence is the old one with exactly the given node deleted |
| `RbShape.HeightBound` | dsa/rbtree.c:46-152 | in every red-black tree of n nodes 2^height is at most (n+1)^2, that is height at most 2*log2(n+1) |
| `RbTree.Tree.First` | dsa/rbtree.c:268-274 | the first element of the in-order sequence, or nil for an empty tree |
| `RbTree.Tree.Next` | dsa/rbtree.c:284-298 | the element after the given one in the in-order sequence, or nil after the last; so first and next enumerate it |
| `RbTree.Tree.FindKeyLe` | dsa/rbtree.c:337-350 | the last element whose key is at most the given one, or nil if all are greater |
| `RbTree.Tree.FindKey` | dsa/rbtree.c:321-335 | an element with the given key exactly when there is one |
| `RbTree.Tree.NoRepeats` | dsa/rbtree.c:179-235 | no node occurs twice in a valid tree |
| `TimerWheel.Wheel.constructor` | dsa/timer_wheel.c:28-40 | an initialised wheel holds no timer |
| `TimerWheel.SlotPlaced` | dsa/timer_wheel.c:8-26 | for every expiry and every wrapped clock the chosen slot is one the clock reaches, or whose block it cascades, no later than the due tick |
| `TimerWheel.Wheel.Add` | dsa/timer_wheel.c:42-46 | the flat timer set gains the timer at its due tick: the expiry, or the current tick when overdue; in numbers: the current tick for an expiry behind the clock, else the one tick less than 2^31 ahead that reads as the expiry |
| `TimerWheel.Wheel.Del` | dsa/timer_wheel.c:48-51 | the flat timer set loses exactly that timer |
| `TimerWheel.CascadeSlot` | dsa/timer_wheel.c:63-92 | a slot is emptied only when the block of ticks it stands for begins |
| `TimerWheel.Wheel.Cascade` | dsa/timer_wheel.c:53-61 | every timer of the slot moves to a slot it now belongs in, and no due tick changes |
| `TimerWheel.Wheel.CascadeAll` | dsa/timer_wheel.c:66-81 | after the cascades of a tick every timer due in this tick is in the first-level slot of this tick |
| `TimerWheel.FireDone` | dsa/timer_wheel.c:83-88 | when the slot of the tick is empty, exactly the timers due at the tick have fired, each once |
| `TimerWheel.Wheel.Tick` | dsa/timer_wheel.c:65-89 | one tick fires exactly the timers due at it and keeps all others with their due ticks |
| `TimerWheel.Wheel.Advance` | dsa/timer_wheel.c:63-92 | for every target, across five levels and the 32-bit wrap: exactly the live timers due by the target fire, once each, in due order, each with the clock at its due tick; the wheel refines a flat timer set |
| `TimerWheel.Wheel.AddThenAdvance` | dsa/timer_wheel.c:8-92 | a timer added before an advance fires in it exactly when the clock moves and its expiry was behind the clock or is not past the target |
| `PageFrames.Allocator.constructor` | kernel/page_frame_allocator.c:196-289 | initialisation leaves every unreserved frame in a free block, blocks merged as far as they go, and the free counter exact |
| `PageFrames.Allocator.InsertSingles` | kernel/page_frame_allocator.c:261-266 | each unreserved frame becomes a free block of order 0 |
| `PageFrames.Allocator.MergeAll` | kernel/page_frame_allocator.c:268-279 | merging pairs order by order leaves no two free buddies and changes no frame from free to taken or back |
| `PageFrames.Allocator.CountFree` | kernel/page_frame_allocator.c:280-287 | summing over the lists gives the number of free frames |
| `Buddy.BuddyFacts` | kernel/page_frame_allocator.c:84-97 | a buddy is its buddy's buddy, and the lower of the two is aligned for the next order |
| `Buddy.InsertSound` | kernel/page_frame_allocator.c:99-135 | inserting an aligned block of unowned frames keeps the partition of the frames, the lists and the order bitmap |
| `Buddy.RemoveSound` | kernel/page_frame_allocator.c:137-165 | removing a free block keeps the partition of the frames, the lists and the order bitmap |
| `PageFrames.Allocator.BuddyInsert` | kernel/page_frame_allocator.c:99-135 | the frames of the block, and only those, become that free block; none of the sanity halts can be reached; no-two-free-buddies is kept when the buddy is not free |
| `PageFrames.Allocator.BuddyRemove` | kernel/page_frame_allocator.c:137-165 | the frames of the block, and only those, leave the free lists; none of the sanity halts can be reached |
| `PageFrames.Allocator.OrderSplit` | kernel/page_frame_allocator.c:167-174 | splitting returns the surplus halves to the lists and keeps the front part in hand |
| `PageFrames.Allocator.FreeBlock` | kernel/page_frame_allocator.c:291-302 | freeing with merging makes exactly the block's frames free, leaves no two free buddies, and counts them |
| `PageFrames.Allocator.Drain` | kernel/page_frame_allocator.c:304-320 | a batch of cached frames returns to the free lists, none is lost |
| `PageFrames.Allocator.Refill` | kernel/page_frame_allocator.c:322-344 | free frames move to the CPU's cache until the batch is full or no free block is left |
| `PageFrames.Allocator.Malloc` | kernel/page_frame_allocator.c:346-367 | one frame that was free or cached for this CPU becomes taken with count 1 and every other frame keeps its kind up to moving into this cache; it fails only when no frame is free or cached here; no other count changes, and no order is recorded |
| `PageFrames.Allocator.FreeRange` | kernel/page_frame_allocator.c:369-388 | a run of any start and length is cut into aligned blocks that free exactly its frames |
| `PageFrames.Allocator.DropRefs` | kernel/page_frame_allocator.c:407-431 | the counts of the run drop by one and exactly those reaching zero are collected; it halts exactly on a zero count or too many frames |
| `PageFrames.Allocator.FreeRuns` | kernel/page_frame_allocator.c:453-463 | the collected frames, and only those, become free, one maximal run at a time |
| `PageFrames.Allocator.FreeN` | kernel/page_frame_allocator.c:401-470 | exactly the frames of the run whose count was one become free; it halts exactly on a double free, too many frames, or more frames than the head block holds |
| `PageFrames.Allocator.RefInc` | kernel/page_frame_allocator.c:472-489 | the count rises by one, and the halt happens exactly when it is 0 or at its maximum |
| `PageFrames.Allocator.RefDec` | kernel/page_frame_allocator.c:491-526 | the count falls by one, the frame goes back to the CPU's cache exactly when it reaches zero, and the halt happens exactly on underflow; the cache is drained exactly when it would pass 16 frames |
| `PageFrames.Allocator.AllocN` | kernel/page_frame_allocator.c:604-635 | n contiguous free frames become taken with count 1, free capacity drops by exactly n also when the tail is trimmed, it fails exactly when no free block is large enough, and the counter ends above the truth by the trimmed surplus; the order of the smallest block that holds the run is recorded at its head |
| `PageFrames.NoSurplus` | kernel/page_frame_allocator.c:604-635 | that surplus is zero exactly when n is a power of two |
| `PageFrames.Allocator.AllocThenFree` | kernel/page_frame_allocator.c:401-635 | releasing the run just allocated gives every frame its old kind and count, and halts only when the run is longer than 1024 frames; releasing more frames than the smallest power of two not below it halts |
| `PageFrames.Allocator.MallocThenFree` | kernel/page_frame_allocator.c:346-526 | a frame allocated and given back: nothing halts, no count differs and the same frames are taken as before |
| `Cow.Memory.constructor` | kernel/vma.c:44-63 | no address space maps anything at first |
| `Cow.Memory.CowRange` | kernel/paging.c:128-155 | the pages of the range become shared read-only: each space still sees what it saw and the child what the parent sees; no count gains or loses against its mappers; the machine halts exactly when some page's count is at its maximum |
| `Cow.Memory.CloneUser` | kernel/vma.c:94-116 | fork: the areas are copied with the copy-on-write flag and the child sees the parent's pages in them, up to the area for which memory ran out |
| `Cow.Memory.ForkSpace` | kernel/vma.c:94-116 | the fork of the sharing machine is the fork of the copying machine |
| `Cow.Memory.DemandMap` | kernel/vma.c:244-269 | an absent page of an area becomes a private page that reads zero at every offset, writable exactly when the area is; it fails exactly without an area or a free frame |
| `Cow.Memory.WriteFault` | kernel/paging.c:222-256 | nobody's view changes, the page is writable afterwards, and it fails exactly when the page is shared and no frame is free |
| `Cow.Memory.HandleFault` | kernel/paging.c:180-269 | the handler resumes exactly when the page can be filled or made private, and otherwise changes nothing; a page it fills reads zero at every offset |
| `Cow.Memory.UserWrite` | kernel/paging.c:180-269 | a store with the faults it takes changes one byte of one space's view, or nothing; the byte reads back, the others as before or zero on a new page |
| `Cow.Memory.AddArea` | kernel/vma.c:134-151 | an area joins its space exactly when it is not empty and overlaps none, and no other area changes |
| `Cow.ForkSees` | kernel/vma.c:94-116 | after a fork the child sees exactly the pages of the parent in the areas copied, with the same bytes, and no other space sees a change |
| `Cow.Memory.UnmapPage` | arch/arm64/paging.c:306-333 | the page leaves its space, whoever else shares the frame; no other page leaves exactly when its leaf table does not hold 256, 257 or 512 pages, else all pages of that table leave that space and their frames keep references no entry accounts for |
| `Cow.Share` | kernel/paging.c:137-146 | sharing a page keeps every count at least the number of mappers and write permission exclusive |
| `Cow.Unshare` | kernel/paging.c:240-243 | giving one sharer a copy keeps them too |
| `Cow.Grant` | kernel/paging.c:229-234 | a frame with count at most one may be made writable |
| `Cow.Release` | arch/arm64/paging.c:306-333 | dropping one mapping keeps them, and the count was positive |
| `Cow.ReleaseLeaf` | arch/arm64/paging.c:306-333 | dropping a whole leaf table while releasing one of its frames keeps them too |
| `Cow.LeafLeaks` | arch/arm64/paging.c:306-333 | after that no frame's count is nearer to its mappers than before, and the frame of every other page of the table has more references that no entry accounts for |
| `Cow.SeenStore` | kernel/paging.c:222-256 | a store through a writable entry is seen by its own space only |
| `Cow.Memory.Run` | kernel/paging.c:62-256 | every run of forks, faults, stores and unmaps halts exactly at the first fork that would share a page whose count is at its maximum; up to there every state shows exactly what the machine that copies at every fork shows, if and only if no unmap meets a leaf table of 256, 257 or 512 pages; counts that start exact end exact under the same condition; a space that no step addresses sees no change in any case |
| `Cow.Isolated` | kernel/paging.c:62-256 | in every run of the sharing memory a space that no step addresses sees the same bytes throughout |
| `Cow.Simulates` | kernel/paging.c:62-256 | a run agrees with the copying machine in every state exactly when no unmap in it took more than its page |
| `Cow.Accounts` | kernel/paging.c:62-256 | unaccounted references never shrink over a run, and stay the same exactly when no unmap in it took more than its page |
| `Cow.LostMore` | arch/arm64/paging.c:306-333 | an unmap that meets such a table loses a page that the copying machine keeps |
| `PteBits.LeafRoundTrip` | arch/arm64/paging.c:180-196 | a leaf word is valid, is no block, and gives back its frame and its write, user and execute permission |
| `PteBits.LeafBits` | arch/arm64/paging.c:180-196 | each bit of a leaf word by its number: type, memory kind, user, read-only, shareable, accessed, non-global, the two execute-never bits and the address, and no other bit |
| `PteBits.ReadOnlyKeeps` | arch/arm64/paging.c:469-475 | withdrawing write permission keeps frame and other permissions, and every other bit of the word |
| `PteBits.TableRoundTrip` | arch/arm64/paging.c:224-237 | a table descriptor is recognised as one and gives back its table |
| `PageTable.PathsDiffer` | arch/arm64/paging.h:50-53 | two pages with the same four indices are the same page |
| `PageTable.Digits` | arch/arm64/paging.h:50-53 | the four indices are the base-512 digits of the page number, highest level first |
| `PageTable.Context.constructor` | kernel/paging.c:18-24 | an empty context translates nothing |
| `PageTable.Context.LevelTable` | arch/arm64/paging.c:244-251 | the table of a level on the way to a page, or null |
| `PageTable.Context.Translate` | arch/arm64/paging.c:401-409 | for 4 KB pages the walk answers exactly what the abstract map from page to frame and protection says |
| `PageTable.AddTable` | arch/arm64/paging.c:259-278 | linking a new zeroed table keeps the tree of tables and every translation |
| `PageTable.Context.LevelEnsure` | arch/arm64/paging.c:259-278 | an existing table, or a new one, or null for a block or without memory; no translation changes |
| `PageTable.Context.EnsurePath` | arch/arm64/paging.c:280-295 | the way down succeeds exactly when no block stands in it and there are frames for the missing tables; no translation changes |
| `PageTable.SetLeaf` | arch/arm64/paging.c:296-303 | writing a leaf word changes the translation of its own page and of no other |
| `PageTable.Context.Map` | arch/arm64/paging.c:280-304 | adds one binding exactly when the page is unmapped, no block is in the way and the tables can be had; otherwise the map is unchanged |
| `PageTable.Context.Replace` | arch/arm64/paging.c:477-485 | rewrites the binding of a mapped page and nothing else |
| `PageTable.DropTable` | arch/arm64/paging.c:306-333 | dropping a leaf table unmaps exactly the pages it serves |
| `PageTable.DropLoses` | arch/arm64/paging.c:306-333 | dropping the table of a page loses only that page exactly when it was the one live entry |
| `PageTable.Context.Unmap` | arch/arm64/paging.c:306-333 | removes exactly one binding if and only if the leaf table did not hold 256, 257 or 512 live entries; in those cases the byte count reads zero and every page of the table is lost; the set of mapped pages becomes `LeafTable.Removed` of the old one |
| `PageTable.LosePages` | kernel/page_frame_allocator.c:739-754 | a concrete run: mapping pages 0 to 255 and unmapping page 0 loses all 256 |
| `LeafTable.RemovedOne` | arch/arm64/paging.c:306-333 | on sets of mapped pages: only the page goes exactly when its table does not hold 256, 257 or 512 |
| `LeafTable.FullTable` | arch/arm64/paging.c:306-333 | a concrete input: of a leaf table with all 512 pages mapped, unmapping any one leaves none |
| `LeafTable.SweptAt` | arch/arm64/paging.c:306-333 | unmapping a range page by page loses a page outside it exactly when its leaf table has a page in the range and holds 512 pages, or at least 256 of which fewer than 257 lie outside the range |
| `LeafTable.SweptExact` | arch/arm64/paging.c:306-333 | unmapping a range removes exactly its pages if and only if no leaf table meets that condition |
| `LeafTable.SparseSafe` | arch/arm64/paging.c:306-333 | with fewer than 256 pages in every leaf table no range meets it |
| `FatVolume.Volume.constructor` | fs/fat32.c:1118-1132 | a mounted volume whose table is well formed starts with the chains that table holds |
| `FatVolume.Volume.GetNext` | fs/fat32.c:30-45 | the low 28 bits of the entry |
| `FatVolume.Volume.SetNext` | fs/fat32.c:135-154 | every copy of the table gets the new cluster number, keeps its upper four bits, and the copies agree |
| `FatVolume.Volume.Claim` | fs/fat32.c:156-164 | one entry becomes an end of chain and the hint moves past it |
| `FatVolume.Volume.Alloc` | fs/fat32.c:166-209 | the hinted cluster if it is free, else the lowest free one; it fails exactly when none is free; the hint moves to the cluster after it |
| `FatVolume.Volume.AllocFirst` | fs/fat32.c:899-905 | an empty file gets a one-cluster chain, no other chain changes |
| `FatVolume.Volume.Advance` | fs/fat32.c:231-246 | the next cluster of the chain, or a chain longer by one free cluster at its end, or failure exactly on a full volume |
| `FatVolume.Volume.Grow` | fs/fat32.c:888-912 | the old chain is a prefix of the new one, its clusters hold the bytes asked for and, when it grew, one fewer would not; every other chain is unchanged; failure means a full volume or a wrapped end |
| `FatVolume.NeededCovers` | fs/fat32.c:906-906 | the clusters asked for hold the bytes exactly when the 32-bit rounding does not wrap, and then one fewer would not |
| `FatVolume.Volume.FreeChain` | fs/fat32.c:211-228 | exactly the chain's clusters become free and the bounded walk always reaches the end |
| `FatVolume.Volume.Truncate` | fs/fat32.c:949-962 | a file with bytes comes to own nothing, every other chain as before; a file of size 0 keeps its clusters |
| `FatVolume.Volume.Disown` | fs/fat32.c:953-958 | exactly the file's clusters become free, every other chain and every other entry is as before |
| `FatVolume.Volume.GetBlock` | fs/fat32.c:47-68 | the sector of a block of the chain, inside the data area, failing exactly past its end |
| `FatTable.Claimed` | fs/fat32.c:156-164 | marking a free cluster touches no file |
| `FatTable.Appended` | fs/fat32.c:231-246 | linking it behind the last cluster extends that chain and keeps all chains finite, acyclic and disjoint |
| `FatTable.FreeingNext` | fs/fat32.c:211-228 | freeing one more cluster of a chain keeps every other chain |
| `FatTable.LengthBound` | fs/fat32.c:216-219 | a chain has at most as many clusters as the volume |
| `FatTable.Apart` | fs/fat32.c:135-246 | no cluster occurs twice, in one chain or in two |
| `FatTable.BlocksApart` | fs/fat32.c:47-68 | different blocks of any files are in different sectors |
| `FatTable.ClustersAdjoin` | fs/fat32.c:25-28 | cluster 2 begins the data area, the sectors of a cluster are consecutive, and the last sector of a cluster is followed by the first of the next |
| `FatTable.BlocksFollow` | fs/fat32.c:47-68 | the first block of a cluster is its first sector and the blocks of a cluster are consecutive sectors |
| `LongNames.Build` | fs/fat32.c:434-464 | the entries hold the name thirteen characters each, with terminator and filler, numbered, the last one marked |
| `LongNames.WithChar` | fs/fat32.c:286-308 | writing one character of an entry is read back at its place and nowhere else |
| `LongNames.Extract` | fs/fat32.c:310-332 | for every entry: the buffer, and the four bytes behind it, get the entry's part of the name at its place and the terminator where the name ends |
| `LongNames.InsideExact` | fs/fat32.c:310-332 | the bytes behind the 256-byte buffer are left alone, whatever they hold, if and only if the entry is not number 20 with its first terminator at characters 9 to 12 |
| `LongNames.StoresBehind` | fs/fat32.c:321-323 | a concrete entry whose terminator is stored behind the buffer |
| `LongNames.ExtractPart` | fs/fat32.c:310-332 | extracting one entry of a name extends the correct tail of the name by its part |
| `LongNames.FullEntry` | fs/fat32.c:310-332 | byte by byte: a full entry with sequence 1 to 19 fills its thirteen places, ends the name behind them exactly if it carries the last mark, and touches nothing else |
| `LongNames.Lookup` | fs/fat32.c:590-640 | the first live slot whose assembled long name, or short name, equals the name, unless the directory ends before |
| `LongNames.Create` | fs/fat32.c:1007-1022 | the entries are written last part first, then the short entry, and no other slot changes |
| `LongNames.RoundTrip` | fs/fat32.c:434-464 | every name of 1 to 255 nonzero bytes is read back exactly, also when its length is a multiple of thirteen, whatever precedes it in the directory or the buffer held |
| `LongNames.ShortName` | fs/fat32.c:403-432 | up to six upper-cased bytes before the last dot, `~1` and filler, and up to three bytes after it |
| `LongNames.ShortUpper` | fs/fat32.c:403-432 | the short name has no lower-case letter and copies the long one up to case |
| `LongNames.ShownIs` | fs/fat32.c:248-284 | a short name is shown without its padding, with a dot only before an extension |
| `LongNames.ChecksumTells` | fs/fat32.c:334-342 | the checksum differs for short names that differ in one byte |
| `LongNames.ChecksumOrder` | fs/fat32.c:334-342 | two concrete values: the order of the bytes matters |
| `LongNames.ShortFirst` | fs/fat32.c:403-432 | the generated first byte is never the end mark, and is the deletion mark exactly when the long name begins with byte 0xE5 |
| `LongNames.MatchesAgree` | fs/fat32.c:590-640 | what a scan finds does not depend on what the buffer held before it |
| `LongNames.CreateAndLookup` | fs/fat32.c:978-1022 | creating a name that is not in use and looking it up hits the new slot if and only if the name does not begin with byte 0xE5 and no slot before it ends the directory |
| `LongNames.NeverFound` | fs/fat32.c:556-575 | a concrete name of three bytes, the first 0xE5: its new slot reads as deleted and does not match |
| `PageCache.Cache.constructor` | fs/page_cache.c:40-46 | an empty cache shows the disk |
| `PageCache.Cache.Get` | fs/page_cache.c:217-258 | nobody's view changes, the page is held once more and off the idle list, and it fails exactly without memory or beyond the device |
| `PageCache.Cache.Put` | fs/page_cache.c:260-275 | nobody's view changes, held pages are untouched, an idle page joins the list at its end, and at most 512 idle pages remain, the longest idle evicted |
| `PageCache.Cache.Writeback` | fs/page_cache.c:117-153 | marked sectors go to the disk, the page is clean, the view is unchanged |
| `PageCache.Cache.Shrink` | fs/page_cache.c:305-327 | the longest idle pages go until 512 remain; held pages stay; the view is unchanged |
| `PageCache.Cache.WriteSector` | fs/page_cache.c:293-303 | a marked write changes the view at its sector and nowhere else |
| `PageCache.Cache.WritePage` | fs/page_cache.c:277-291 | a marked page write changes the view of its eight sectors and nowhere else |
| `PageCache.Cache.ReadSector` | fs/page_cache.c:217-275 | a read through the cache returns what the flat disk would; with memory it succeeds exactly for sectors of pages wholly on the device, without memory exactly for cached pages |
| `PageCache.Cache.UpdateSector` | fs/page_cache.c:217-303 | an update through the cache is an update of the flat disk; it succeeds in the same cases |
| `PageCache.Cache.SyncAll` | fs/page_cache.c:329-337 | the view is unchanged and afterwards the disk itself shows every sector not in a held page |
| `PageCache.SeenClean` | fs/page_cache.c:117-141 | writing a marked sector out shows nothing new |
| `PageCache.SeenDrop` | fs/page_cache.c:305-327 | dropping a clean page shows nothing new |
| `VmaSpace.Space.constructor` | kernel/vma.c:44-63 | a new address space has no areas and no pages |
| `VmaSpace.Space.Find` | kernel/vma.c:118-132 | the area holding the address, exactly when there is one |
| `VmaSpace.Space.MapPage` | kernel/vma.c:244-269 | a touched page becomes mapped exactly when an area covers it, memory can be had and it was not mapped |
| `VmaSpace.Space.Add` | kernel/vma.c:134-151 | a non-overlapping area joins the list at its place, and exactly the pages its range touches become covered with its flags and type |
| `VmaSpace.Space.CutNode` | kernel/vma.c:168-190 | one area is removed, edited in place at its start or end, or split with a new node, leaving exactly what is outside the range, the tree still in order |
| `VmaSpace.Space.UnmapPages` | kernel/vma.c:168-172 | the pages of a range are unmapped one by one, each as `PageTable.Context.Unmap` does |
| `VmaSpace.Space.RemoveFrom` | kernel/vma.c:161-193 | one area of the traversal: its pages in the range are unmapped and the next node is unaffected by the change of the tree |
| `VmaSpace.Space.RemoveRange` | kernel/vma.c:153-195 | an address keeps its flags and type exactly when it was covered and no address of the range lies in its page; no page touched by the range stays mapped and none appears; all other pages stay mapped if and only if no leaf table passes a crowded size on the way, which is so whenever each holds fewer than 256 pages; the areas stay when the range lies strictly inside one area and a split finds no memory; nothing changes when the end lies in the last page of the address space |
| `VmaList.CutExact` | kernel/vma.c:153-195 | cutting leaves exactly the old addresses minus the range, with flags and type pointwise as before |
| `VmaList.TouchedIs` | kernel/vma.c:158-159 | the pages between the rounded ends are exactly those that hold an address of the range |
| `VmaList.UpIs` | kernel/vma.c:158-159 | rounding up gives the next page boundary less than a page away, or 0 in the last page |
| `VmaList.CutOrdered` | kernel/vma.c:153-195 | the areas stay disjoint, page-aligned and in order |
| `VmaSpace.Space.FindFreeArea` | kernel/vma.c:271-317 | the hinted address if it starts a gap, else the lowest gap between base and limit, else 0; page-aligned for an aligned base, and within a page of the hint when the hint is taken |
| `VmaSpace.ZeroMeansNone` | kernel/vma.c:271-317 | a nonzero answer is a gap, and 0 means that none exists exactly when address 0 is not itself a gap from base |
| `Hrtimer.Base.constructor` | kernel/hrtimer.c:27-31 | no timer is active at first |
| `Hrtimer.Base.Init` | kernel/hrtimer.c:33-40 | an initialised timer is inactive |
| `Hrtimer.Base.Start` | kernel/hrtimer.c:42-54 | the timer is active at its new expiry whether or not it was active, the others unchanged |
| `Hrtimer.Base.Cancel` | kernel/hrtimer.c:56-64 | the timer is inactive, the others unchanged |
| `Hrtimer.Rearm` | kernel/hrtimer.c:84-87 | the next expiry is past now, at most one period ahead, on the old grid |
| `Hrtimer.Base.FireOne` | kernel/hrtimer.c:81-90 | a fired one-shot timer becomes inactive, a periodic one is active on its grid past now |
| `Hrtimer.Base.Interrupt` | kernel/hrtimer.c:71-101 | terminates; exactly the timers due by now fire, once each, in nondecreasing expiry order; the others are untouched; the programmed delta is the earliest remaining expiry minus now |
| `Workqueue.InvInit` | kernel/workqueue.c:88-101 | a new queue satisfies the invariant |
| `Workqueue.InvKept` | kernel/workqueue.c:17-86 | every step of queuers, workers and flushers keeps it |
| `Workqueue.RunInv` | kernel/workqueue.c:17-86 | so it holds in every interleaving |
| `Workqueue.OnePlace` | kernel/workqueue.c:55-69 | an item is with one queuer, on one list once, or just taken off it, never two of these |
| `Workqueue.StartsRequested` | kernel/workqueue.c:17-40 | an item starts at most as often as it was successfully queued |
| `Workqueue.RefusedStarts` | kernel/workqueue.c:60-62 | a refused request means a start of the item is still to come |
| `Workqueue.Lands` | kernel/workqueue.c:55-69 | an item successfully queued for a processor is put last on that processor's list, whatever happens in between |
| `Workqueue.NothingLost` | kernel/workqueue.c:17-69 | when no queuer is under way and all workers sleep, every successful request has been started and finished |
| `Workqueue.Moves` | kernel/workqueue.c:17-69 | in every other state some queuer or worker can move |
| `Workqueue.Falls` | kernel/workqueue.c:17-86 | a measure falls with every step that is no new request |
| `Workqueue.RunBound` | kernel/workqueue.c:17-86 | so a run without new requests has at most as many steps as the measure of its first state |
| `Workqueue.Rests` | kernel/workqueue.c:17-86 | and from every state some run without new requests leads to one in which only new requests are possible |
| `Workqueue.Settles` | kernel/workqueue.c:17-86 | from the start through any steps, then any run without new requests that cannot go on: every successful request was started exactly once and finished, nothing is pending and every flush has ended |
| `Workqueue.BarrierComplete` | kernel/workqueue.c:42-46 | a barrier is signalled only after everything listed before it on its processor finished |
| `Workqueue.FlushSpan` | kernel/workqueue.c:71-86 | from the start of a flush to its end, through any steps of anyone, everything listed on any processor at the start is finished |
| `Workqueue.FlushOutlasts` | kernel/workqueue.c:71-86 | a flush that begins while an item runs cannot end before that item finishes |
| `Workqueue.SelfFlush` | kernel/workqueue.c:17-86 | so a work function that flushes the queue it runs on never returns and its flush never ends, whatever anyone else does |
| `ExitWait.InvKept` | kernel/multitask.c:441-466 | every step of forking, executing, exiting and waiting keeps: a sleeping parent's child is there, is its child, and has not been through its exit section, unless it failed to execute a program |
| `ExitWait.NoLostWakeup` | kernel/multitask.c:922-967 | in every run whose execs all succeed, no parent with nonzero pid sleeps on a child that finished its exit section |
| `ExitWait.OnlyFailedExecs` | kernel/multitask.c:1265-1365 | in every run, a child on which its parent sleeps after the exit section is one that failed to execute a program |
| `ExitWait.NotifyWakes` | kernel/multitask.c:922-938 | in every reachable state the exit section wakes the sleeping parent if and only if the child is in the pid table, which is the case exactly when it did not fail to execute a program |
| `ExitWait.WokenReaps` | kernel/multitask.c:441-466 | a woken parent reaps the child with its exit code at the next try |
| `ExitWait.ReapedByParent` | kernel/multitask.c:441-466 | in every run only the process that spawned a child ever reaps it |
| `ExitWait.ReapedWithCode` | kernel/multitask.c:441-466 | and with the code the child exited with |
| `ExitWait.ReapedOnce` | kernel/multitask.c:449-462 | a reaped child is never found again if and only if it had left its processor; otherwise the same wait reaps it once more |
| `ExitWait.ReapedTwice` | kernel/multitask.c:315-322 | a concrete run in which a parent reaps its child twice |
| `ExitWait.AsleepForEver` | kernel/multitask.c:1265-1365 | a parent asleep on such a child stays asleep in every continuation |
| `ExitWait.FailedExecSleeps` | kernel/multitask.c:1272-1296 | a concrete run: fork, the parent waits, the child executes a file that is no program and exits out of the pid table, the parent sleeps on |
| `HeapSort.SiftDown` | dsa/sort.c:18-32 | the heap holds from the root on, the prefix has the same elements, the rest is untouched |
| `HeapSort.HeapMax` | dsa/sort.c:18-32 | the root of a heap is its greatest element |
| `HeapSort.Sort` | dsa/sort.c:34-47 | for every total preorder the table ends sorted and a permutation of itself |
| `ExTable.LowerBound` | dsa/search.c:18-33 | the first position the key is not above |
| `ExTable.BSearch` | dsa/search.c:8-16 | a position with an equal element exactly when there is one |
| `ExTable.SortTable` | kernel/exception_recover.c:24-27 | the exception table ends sorted by instruction, with the same entries |
| `ExTable.Lookup` | kernel/exception_recover.c:42-46 | for distinct instructions the answer equals a linear search of the table as first given: the fixup or 0 |

## Left out

- RbTree.Tree.FindKey: `find` and `find_le` on a node instead of a key, `last` and `prev` are left out; they are the same walks or their mirror images.
- RbKeys.Sorted: every comparison function of the kernel compares one unsigned field, so an order is a map from node to integer; arbitrary comparison functions are covered for sorting only.
- TimerWheel.Wheel.Advance: the callback does not touch the wheel while it runs.
- PageFrames.Allocator.FreeN: the insertion sort of the collected frames is left out because they are collected in ascending order; the count field of a per-CPU list is the length of the list.
- PageFrames.Allocator.Malloc: each public call is one step; the unlocked windows between CPUs are left out, as are the thin wrappers for orders, occupied ranges and statistics.
- Cow.Memory.Run: tables for new mappings are assumed to be available, translation caches to be flushed, and destroying a whole address space is left out; areas are added only where they overlap none.
- Cow.Memory.WriteFault: a write fault makes any present user page writable, also in a read-only area, as the code does; nothing is claimed about read-only areas.
- PageTable.Context.Map: the 2 MB block mappings, range mapping and the kernel half of the address space are left out; blocks that are present are respected.
- PageTable.Context.Translate: addresses inside 1 GB and 2 MB blocks are left out; the answer is for 4 KB pages.
- VmaSpace.Space.FindFreeArea: limits within a page of 2^64 are left out, where rounding up would wrap; `RemoveRange` models the wrap.
- VmaSpace.Space.Add: areas that overlap existing ones are left out, as the code relies on its callers for that; growing and shrinking the heap area are left out.
- FatVolume.Volume.GetBlock: sector numbers do not pass 32 bits.
- FatVolume.Volume.Alloc: the device does not fail; free counts in FSInfo, growth of directories and names that need no long entries are left out.
- LongNames.Lookup: what lies behind the 256-byte buffer is taken to be memory nobody else uses.
- LongNames.Create: the search for free slots is left out; the slots are given. Names that need no long entries are left out.
- PageCache.Cache.Get: file mappings, device failures and concurrent callers are left out; one device is modelled.
- PageCache.Cache.WriteSector: the store into the page and the call that marks it are one step.
- Hrtimer.Base.Interrupt: callbacks do not arm timers, and times do not overflow 64 bits.
- Workqueue.Settles: work functions return; one that flushes the queue it runs on does not, as `Workqueue.SelfFlush` states.
- Workqueue.InvKept: stopping and destroying a queue is left out; a semaphore with a single waiter is its count.
- ExitWait.InvKept: the two writes that mark a zombie are one step; a pid is not reused. `jlos_process_exec`, which nothing calls, is left out.
- HeapSort.Sort: elements are swapped whole, not byte by byte; insertion sort and upper bound are left out.
- The kernel heap and slab, bitmaps, pipes, the scheduler, the network stack, drivers, consoles, boot and interrupt plumbing.
