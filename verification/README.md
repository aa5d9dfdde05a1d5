# Proofs about the allocator, trees, file system driver, digests and shell

This project models the core of six programs and proves what they promise. Each part follows the source's own form:
a class for an object that is updated in place, loops where the source loops, the same branches and constants. Pure
functions describe what a state means, and lemmas carry the arguments that span operations.

**The allocator** (`malloc/mm.c` on `malloc/memlib.c`). `HeapLayout` describes a heap as one array of 32-bit words
tiled by blocks with equal header and footer, `FreeList` the doubly linked list of word offsets stored inside the free
blocks, and `Allocator.Heap` is the program: best fit with splitting, four-way coalescing and the four ways to
reallocate. `Heap.Valid` is what holds between any two calls: the tiling, 16-byte alignment, no two adjacent free
blocks, a list of exactly the free blocks, and the hint `maybe_max_fb` bounding all of them. `Heap.Payloads` is the
user's view, the contents of every live payload by address; every operation says exactly how it changes. `Driver`
replays traces as `malloc/mdriver.c` does and shows that none of its checks fires on a legal trace and that utilisation
is at most 1. `Traces` says operation by operation which traces are legal, `AllocatorRun` and `Traces.RunValid` are runs
with literal results.

**Trees** (`shell/include/tree.h`). The nodes are objects with child, parent and colour fields. `RbShape` describes a
tree with a hole as a value, so that the fix-up loops, which move up a path, are reasoned about as a focus that moves.
`RedBlack.RbTree` and `Splay.SplayTree` are the macros. `SplayCost` says by recursion on the tree what splaying does and
what it costs, `SplayRuns` what whole runs cost. The client's comparison function is a total order, given as integer
keys.

**The ext2 driver** (`ext2/ext2fs.c`). `Ext2Image` says what bitmaps, i-nodes and block maps mean as functions of the
image, `BlockPool` is the buffer pool as a value, `BlockCache.Cache` the program, in which a lookup re-enters the cache
to translate its own address, and `Ext2Sample` a literal image on which all of it is evaluated.

**MD5** (`ext2/md5c.c`). `Md5Spec` is sections 3.1 to 3.5 of RFC 1321, `Md5.Context` the streaming program, `MD5Transform`
line by line. `Md5Answers` proves known answers of appendix A.5 of the RFC.

**The Jenkins hash** (`shell/libcsapp/jenkins_hash.c`): the three ways to read a key, and the reversibility of the
mixers; `JenkinsAnswers` proves a known answer.

**Jobs, reader, tokenizer.** `Jobs` and `JobTable` are `shell/jobs.c` as a state machine whose environment is a list of
batches of child-status reports, one batch for each time the signal handler gets to run; `JobHistory` says what the
table and the user are told in terms of the reports alone, and `JobRun` is a run. `Rio` is `shell/libcsapp/rio.c`
over a file whose kernel answers are an arbitrary finite script of short transfers, interruptions and failures. `Lexer`
and `Tokenizer` are `shell/lexer.c` and the printer `mkcommand`. `RioRun` and `LexerAnswers` evaluate them on literal inputs.

`dafny verify dfyconfig.toml` checks everything with Dafny 4.11.

## Where the code and its own words differ

The model follows the code. Each of these is stated by a member of the model.

- `normalize_size` (`malloc/mm.c:89-92`) leaves room only while its additions do not wrap (`Allocator.NormalizeSizeRoom`);
  the allocator's operations ask for a size of at most SIZE_MAX - 23.
- `malloc/mm.c:419` and `malloc/mm.c:427` copy two words more than a payload, and `malloc/mm.c:486` reads the word at the
  break. What is copied never reaches another payload and means nothing to the user (`Allocator.MoveFits`,
  `Allocator.Heap.ShiftDown`), and no access leaves the mapping, since the break is never its end
  (`Allocator.Heap.InMapping`).
- When `mem_sbrk` fails `mm_malloc` writes through NULL (`malloc/mm.c:279`, `malloc/mm.c:288`, `malloc/mm.c:296`). The
  model stops there and says exactly when that happens (`Allocator.Heap.Malloc`, `Allocator.Heap.Realloc`).
- The third translation level (`ext2/ext2fs.c:338`) does not reduce its index, so only the first 256 * 256 blocks of that
  region are reached (`Ext2Image.TranslateExact`); beyond them it fails on a sound image that has the block
  (`Ext2Image.WitnessAstray`).
- The list described as least recently used is not kept in that order: a buffer that is found and released stays where
  it is on the list (`BlockPool.FoundStays`), and one that is reclaimed and released goes back to the head. Once all 64
  buffers are in use every miss therefore reclaims the same one, number 63, which was loaded latest; the other 63 keep
  their blocks for good and the list never changes again (`BlockCache.Cache.Lookups`, `BlockCache.SameList`). The
  buffer reclaimed is the least recently released one if and only if every other buffer was released after it was
  (`BlockPool.ReclaimExact`, `BlockCache.Cache.Alloc`); asking for blocks 1 to 65 in order, each once, is an input for
  which it is not (`BlockCache.AskInOrder`).
- A hit does not raise the reference count, which is harmless for fewer than 2^32 releases in one residency and not
  beyond, and every cached buffer can get there (`BlockPool.HeldPutExact`, `BlockPool.WornOut`).
- `ext2_block_used` answers EINVAL for an address out of range, which its caller takes for "in use"
  (`ext2/ext2fs.c:179`, `ext2/ext2fs.c:214-215`): `blk_get` hands out a block if and only if it is marked used or its
  address is out of range (`Ext2Image.CheckedExact`). For address 0 the bit number wraps around to 2^32 - 1, for which
  there is usually no group descriptor (`BlockCache.Cache.Ext2BlockUsed`). `ext2_inode_used` refuses the last i-node
  number, and answers wrongly only there (`Ext2Image.LastInode`).
- `ext2_inode_read` is documented to return ENOENT for a free i-node (`ext2/ext2fs.c:259`) and returns ENONET
  (`ext2/ext2fs.c:264`, `BlockCache.Cache.InodeRead`).
- `MD5Update` runs its index past 2^32 for some inputs longer than 2^32 - 64 bytes, and then never ends (`Md5.LoopExact`,
  `Md5.LoopForEver`).
- `SPLAY_REMOVE` returns its argument, which is the element it took out if and only if the argument is in the tree
  (`Splay.SplayTree.Remove`).
- The Balance Theorem quoted at `shell/include/tree.h:43-45` holds for runs of searches, insertions, removals, minima
  and maxima (`SplayRuns.Session`, `SplayRuns.Accesses`), and for the splaying that `SPLAY_NEXT` does
  (`Splay.SplayTree.Next`). But `SPLAY_NEXT` then walks down and leaves the path as it was, so calling it again and
  again can cost half the number of elements each time (`SplayRuns.NextAgain`), more than the theorem allows
  (`SplayRuns.NotBalanced`).
- A job's state is documented to change when its live processes agree (`shell/jobs.c:14`); the handler compares all of
  them, so a pipeline with a finished and a stopped process counts as running (`Jobs.StateExact`).
- `fg` is documented to monitor a stopped job (`shell/jobs.c:177-178`); the job still counts as stopped when monitoring
  starts, so it goes back to the background at once, and stopped jobs are the only ones that do (`Jobs.ForegroundExact`,
  `Jobs.StoppedGoesBack`).
- The tokenizer skips every white-space character between tokens, but only a space ends a word (`shell/lexer.c:23`,
  `shell/lexer.c:34`), so a word may contain tabs (`Lexer.CommandExact`).
- `rio_readlineb` stores no NUL when it meets the end of the file at once (`Rio.Reader.ReadLine`); after a failure
  `rio_readnb` and `rio_readlineb` have already consumed what they read before it.

## Model

| member | source | states |
|---|---|---|
| `HeapLayout.CoversExactly` | malloc/mm.c:65-80 | In a heap that is tiled by tagged blocks every word between the pad and the break lies in one block, and in only one. |
| `HeapLayout.PrevFromFooter` | malloc/mm.c:40-58 | The word below a block is the footer of its left neighbour: subtracting the size it holds leads to that neighbour's header, and its flag is that neighbour's flag. |
| `HeapLayout.JoinedTiling` | malloc/mm.c:337-366 | Making one block of any run of whole neighbouring blocks keeps the heap tiled. |
| `HeapLayout.SplitTiling` | malloc/mm.c:260-265 | Cutting a block in two, each part at least four words, keeps the heap tiled. |
| `HeapLayout.ExtendedTiling` | malloc/mm.c:277-283 | Appending a block at the break keeps the heap tiled. |
| `HeapLayout.LocalChange` | malloc/mm.c:69-75 | A change of memory and tiling confined to a stretch of words keeps header and footer of every block outside it, and the payload of every block in use there. |
| `HeapLayout.JoinTags` | malloc/mm.c:337-366 | Writing the two tags of the joined block makes all tags right again and leaves the payloads of all other live blocks as they were. |
| `HeapLayout.SplitTags` | malloc/mm.c:260-264 | So do the four tag writes of a split. |
| `HeapLayout.WriteInFree` | malloc/mm.c:131-138 | Link words written strictly inside a free block disturb no tag and no live payload. |
| `HeapLayout.KeepsLiveTrans` | malloc/mm.c:269-430 | Preservation of the live payloads composes over the steps of an operation. |
| `FreeList.Push` | malloc/mm.c:140-156 | `add_new_fb` on a free block that is not listed yields a list linked correctly in both directions with that block at its head, and changes no tag and no live payload. |
| `FreeList.Unlink` | malloc/mm.c:160-182 | The four cases of `remove_fb` yield a list without that block, the others in their old order, linked correctly in both directions. |
| `FreeList.WithoutFree` | malloc/mm.c:160-182 | What is left on the list are the free blocks other than the one removed. |
| `FreeList.RetagChained` | malloc/mm.c:294-296 | Retagging a block that is off the list keeps the list. |
| `FreeList.JoinChained` | malloc/mm.c:337-366 | Memory may change freely inside a run of unlisted blocks that becomes one block: list, tags and other payloads are kept. |
| `FreeList.SplitChained` | malloc/mm.c:260-264 | Cutting a block that is off the list keeps the list. |
| `FreeList.FreedTidy` | malloc/mm.c:315-366 | Joining a freed block with exactly its free neighbours leaves a 16-byte-aligned tiling without two adjacent free blocks, whose free blocks are exactly the listed ones. |
| `FreeList.SplitTidy` | malloc/mm.c:257-265 | So does handing out the left part of a free block and listing the rest. |
| `FreeList.UsedTidy` | malloc/mm.c:257-266 | So does handing out a whole free block. |
| `FreeList.ExtendedTidy` | malloc/mm.c:277-289 | So does appending a block in use at the break. |
| `FreeList.AbsorbedTidy` | malloc/mm.c:406-412 | So does letting a block in use absorb the free block beside it. |
| `FreeList.FreeCount` | malloc/mm.c:456-501 | A list of free blocks has as many elements as the tiling has free blocks if and only if it has all of them: what comparing the two counts of `mm_checkheap` decides. |
| `Allocator.NormalizeSizeRoom` | malloc/mm.c:89-92 | Rounding yields the least multiple of 16 with room for payload and tags if and only if the two 64-bit additions do not wrap, that is for sizes up to 2^64 - 24; for larger ones it yields at most 16. |
| `Allocator.MoveFits` | malloc/mm.c:398-427 | A block too small for a request is at least 16 bytes smaller than the new block, so copying all `size_bt` bytes on the move path stays inside the new payload. |
| `Allocator.SearchStep` | malloc/mm.c:229-253 | One turn of the search keeps the best block so far the first of the smallest that fit, and an exact fit is a best fit. |
| `Allocator.BoundsAfterRemove` | malloc/mm.c:188-190 | After `remove_fb` the hint, 2^64 - 1 or the old value, is still a bound on every free block. |
| `Allocator.BoundsJoined` | malloc/mm.c:367-369 | After `coalasce` has raised it the hint bounds the new block too. |
| `Allocator.BestOfAll` | malloc/mm.c:224-256 | A best fit among the listed blocks is a smallest free block of the whole heap that fits. |
| `Allocator.NoFit` | malloc/mm.c:220-223 | If no listed block is large enough then no free block of the heap is. |
| `Allocator.FitExact` | malloc/mm.c:219-267 | Some free block fits if and only if that many words in a row are unused anywhere below the break: coalescing leaves no room split up. |
| `Allocator.FitsInPlaceExact` | malloc/mm.c:396-423 | A block can be enlarged where it is if and only if it is large enough or enough words in a row beside it, on one side, are unused. |
| `Allocator.LiveElsewhere` | malloc/mm.c:269-430 | A step that keeps the blocks in use, except some, keeps the contents of all payloads except theirs. |
| `Allocator.LiveMoved` | malloc/mm.c:414-430 | When a payload is moved to another block the user sees the same payloads with one address replaced, the old contents being a prefix of the new. |
| `Allocator.PayloadAligned` | malloc/mm.c:78-80 | Every live payload is 16-byte aligned. |
| `Allocator.PayloadsApart` | malloc/mm.c:69-92 | Live payloads lie inside the heap, and two of them are separated by at least the two tags between them. |
| `Allocator.PayloadSize` | malloc/mm.c:89-92 | A live payload is 8 bytes short of a positive multiple of 16. |
| `Allocator.FitsInPlaceCases` | malloc/mm.c:404-423 | Once the right neighbour is ruled out the request can be served in place if and only if the left neighbour is free and large enough together with the block. |
| `Allocator.Heap.BtMake` | malloc/mm.c:69-75 | Header and footer get the tag and no other word changes. |
| `Allocator.Heap.AddNewFb` | malloc/mm.c:140-156 | The block becomes the head of a correctly linked list; the hint becomes the block's size if the list was empty and is left alone otherwise. |
| `Allocator.Heap.UnlinkFb` | malloc/mm.c:160-182 | The list words become those of the list without the block, and the head is updated. |
| `Allocator.Heap.Remove` | malloc/mm.c:160-191 | `remove_fb` takes exactly this block off the list and keeps the hint a bound. |
| `Allocator.Heap.SearchFit` | malloc/mm.c:224-256 | The loop ends; it finds nothing only if no listed block is large enough, and otherwise finds the first of the smallest that are. |
| `Allocator.Heap.FindFit` | malloc/mm.c:219-267 | Returns NULL exactly when no free block of the heap is large enough, changing nothing; otherwise a best fit, off the list and cut to size with at most 16 bytes left over, the rest listed, every live payload kept. |
| `Allocator.Heap.CutBlock` | malloc/mm.c:258-263 | The two tag writes turn one block into a used and a free one. |
| `Allocator.Heap.TakeFit` | malloc/mm.c:257-266 | The chosen block is handed out whole or split, and everything that holds between calls is kept but its own tag. |
| `Allocator.Heap.Morecore` | malloc/memlib.c:55-66 | `mem_sbrk` returns the old break and moves it by the amount asked for, or fails and changes nothing, exactly when the region is too small. |
| `Allocator.Heap.Grow` | malloc/mm.c:277-289 | A heap extended by one used block stays well formed and keeps every live payload; without room nothing changes. |
| `Allocator.Heap.Reuse` | malloc/mm.c:284-296 | Allocation from the list: a smallest free block that fits becomes a used block, or nothing changes, exactly when nothing fits. |
| `Allocator.Heap.Obtain` | malloc/mm.c:277-293 | A block is found exactly when some free block is large enough or there is room under the end of the region; it is a smallest fit, or the old break if nothing fits. |
| `Allocator.Heap.Malloc` | malloc/mm.c:269-300 | Adds one payload at an address not in use, at least as large as asked for, and changes no other; takes a smallest free block that fits; the break moves, by exactly the rounded size, if and only if there is none; size 0 does nothing and returns NULL. The program survives exactly unless nothing fits and the region has no room either. |
| `Allocator.Heap.CanServeExact` | malloc/mm.c:269-300 | `mm_malloc` succeeds if and only if the region has room for the rounded request or as many words in a row are vacant between the live payloads: no memory is lost. |
| `AllocatorRun.Run` | malloc/mm.c:269-380 | With literal results: one byte takes 16, a hundred take 112, and eight bytes go where one was freed. |
| `Allocator.Heap.LookAround` | malloc/mm.c:322-335 | Finds out which neighbours exist and are free, from the tags alone. |
| `Allocator.Heap.Detach` | malloc/mm.c:337-366 | In each of the four cases exactly the free neighbours leave the list and start and size of the new block are computed. |
| `Allocator.Heap.Coalesce` | malloc/mm.c:315-371 | The block and its free neighbours, no more and no less, become one free block at the head of the list; all other live payloads are kept and the heap is well formed. |
| `Allocator.Heap.Free` | malloc/mm.c:373-380 | Removes exactly this payload (none for NULL) and keeps all others. |
| `Allocator.Heap.GrowRight` | malloc/mm.c:404-413 | Absorbing the right neighbour leaves the payload in place with its contents, and all others. |
| `Allocator.Heap.MemCopy` | malloc/mm.c:419 | The upward copy of a stretch to a lower place that overlaps it delivers the old contents. |
| `Allocator.Heap.ShiftDown` | malloc/mm.c:418-421 | The overlapping copy into the left neighbour and the new tags keep the old contents, although the copy runs two words past the payload. |
| `Allocator.Heap.GrowLeft` | malloc/mm.c:414-423 | Absorbing the left neighbour moves the payload there with its contents and keeps all others. |
| `Allocator.Heap.LookLeft` | malloc/mm.c:414-415 | For the first block the zero pad leads back to the block itself, which is in use; otherwise to the left neighbour. |
| `Allocator.Heap.Move` | malloc/mm.c:425-429 | Allocate, copy, free: the payload moves to a fresh address with its old contents as a prefix; without memory for it nothing changes. |
| `Allocator.Heap.Enlarge` | malloc/mm.c:401-429 | Whichever of the three ways is taken, the old contents are a prefix of the new and all other payloads are kept; none is open exactly when no neighbour and no free block serves and there is no room. |
| `Allocator.Heap.Realloc` | malloc/mm.c:384-430 | All paths: the result holds the old contents as a prefix and is large enough; a payload that is large enough already is returned unchanged; NULL and size 0 mean malloc and free; it stays in place or moves down when a neighbour can be absorbed; the heap grows only when neither that nor any free block serves, and the program survives exactly unless it then has no room. |
| `Allocator.Heap.InPlaceExact` | malloc/mm.c:396-423 | A payload is enlarged without a new block if and only if there are enough vacant words on one side of it, in terms of the payloads alone. |
| `Allocator.Heap.CheckFreeList` | malloc/mm.c:456-481 | The walk over the list ends, counts its elements, and meets error 1 if and only if one of them is in use, and error 2 never. |
| `Allocator.Heap.CheckHeap` | malloc/mm.c:452-501 | On every heap whose tags and links lead from block to block: reports nothing if and only if the list has exactly the free blocks and no two free blocks are neighbours, so never on a heap the operations can produce; otherwise 4 if the counts differ, else 3 if two free blocks meet, else 1 if a listed block is in use. |
| `Allocator.Heap.InMapping` | malloc/memlib.c:25-34 | The break is never the end of the mapping, so that what the copies and the heap check read beyond a payload or at the break lies inside it. |
| `Allocator.Heap.Init` | malloc/mm.c:199-208 | After `mem_reset_brk` and `mm_init` the heap is well formed and empty. |
| `Allocator.Heap.constructor` | malloc/memlib.c:25-34 | A fresh region is a well-formed empty heap. |
| `Allocator.Heap.Load` | malloc/mm.c:78-80 | The user reads what the payload holds. |
| `Allocator.Heap.Store` | malloc/mm.c:78-80 | A write inside a payload changes that word of that payload only and cannot damage the heap. |
| `WordBytes.StoreByte` | malloc/mdriver.c:451-452 | Storing one byte of a payload changes that byte and no other. |
| `WordBytes.WordOfBytes` | malloc/mdriver.c:451-452 | The bytes of a word are those of its two's complement, the least significant one first. |
| `Driver.LiveBytesSet` | malloc/mdriver.c:762-766 | Recording a size for a new live id adds it to the total. |
| `Driver.LiveBytesUnset` | malloc/mdriver.c:785-797 | Dropping an id subtracts its size. |
| `Driver.HighWaterStep` | malloc/mdriver.c:804-806 | Taking the maximum with the present total keeps the mark the most that was requested at any time. |
| `Driver.ClearOfRanges` | malloc/mdriver.c:359-382 | A fresh payload passes the alignment and extent checks and the overlap test against every listed range, although the test looks at the two ends of the new range only. |
| `Driver.Highest` | malloc/mdriver.c:346-397 | Among finitely many live ids there is one whose payload lies highest. |
| `Driver.OwnedPlaced` | malloc/mdriver.c:664-665 | If every payload of the heap belongs to a live id, so it does after one was handed out or moved. |
| `Driver.OwnedDropped` | malloc/mdriver.c:705-716 | And after one was freed. |
| `Driver.PayloadsFit` | malloc/mdriver.c:739-813 | Payloads that lie apart below a bound hold no more requested bytes than there are below it. |
| `Driver.RequestedFits` | malloc/mdriver.c:739-813 | What is requested and not freed at any time fits the heap. |
| `Driver.PlacedTracks` | malloc/mdriver.c:664-665 | After a payload was handed out the driver's arrays still describe live payloads of at least the requested size. |
| `Driver.PlacedIntact` | malloc/mdriver.c:441-453 | Every other payload still holds the data the driver wrote, and so does the new one once it is filled. |
| `Driver.DelistedListed` | malloc/mdriver.c:402-413 | The range list without a range still describes live payloads. |
| `Driver.Checker.AddRange` | malloc/mdriver.c:346-397 | Accepts if and only if the payload is aligned, inside the heap and no end of it lies in a listed range; counts an error otherwise; records the range unless ranges are ignored. |
| `Driver.Checker.RemoveRange` | malloc/mdriver.c:402-413 | Drops the first range that starts at the payload, and nothing if there is none. |
| `Driver.Checker.CheckIndex` | malloc/mdriver.c:455-481 | Counts an error if and only if some byte of the payload is not the random byte at its offset, counted from the recorded one on modulo 65536. |
| `Driver.Checker.GarbledExact` | malloc/mdriver.c:455-481 | What counts as garbled: some byte of the payload is not the random byte written there. |
| `Driver.Checker.RandomizeBlock` | malloc/mdriver.c:441-453 | Afterwards each byte of the payload is the random byte at its offset, counted from the recorded one on modulo 65536, and no other payload changed. |
| `Driver.Checker.DoAlloc` | malloc/mdriver.c:648-669 | Fails only for a request of no bytes; otherwise the driver knows one more payload, of the size asked for, and the payloads of the heap are exactly those of live ids. Crashes exactly when no free block serves and there is no room. |
| `Driver.Checker.DoFree` | malloc/mdriver.c:705-716 | Counts an error if and only if the payload is garbled, which it never is while the invariant holds; the payload is gone from the heap, whose payloads are exactly those of the ids still live. |
| `Driver.Checker.DoReallocZero` | malloc/mdriver.c:671-703 | With size 0 the payload is freed, no error is counted unless it was garbled, and the id counts as having no bytes. |
| `Driver.Checker.MoveRegion` | malloc/mdriver.c:693-703 | The check of as much of the old data as fits counts an error if and only if that part was garbled before. |
| `Driver.Checker.DoRealloc` | malloc/mdriver.c:671-703 | The range check reports nothing, and the two data checks count an error each if and only if what they look at was garbled before; the size recorded is the new one. Crashes exactly when the request fits neither in place nor elsewhere. |
| `Driver.Checker.CheckEverything` | malloc/mdriver.c:635-645 | `mm_checkheap` reports nothing, and an error is counted for each listed payload that does not hold the data written to it, none while the invariant holds. |
| `Driver.Checker.DoOp` | malloc/mdriver.c:628-721 | One operation of a legal trace that finds the memory it needs: the errors counted are one for a request of no bytes and one for each check that meets garbled data, so none of the latter while the invariant holds. |
| `Driver.Checker.RoomServes` | malloc/mdriver.c:628-721 | Room for the rounded request is enough for an operation. |
| `Driver.Checker.EvalMmValid` | malloc/mdriver.c:615-725 | For every legal trace, if the driver gets to the end or to an error it accepts the allocator if and only if the trace has no allocation of size 0: no alignment, extent, overlap or data check ever fires. It does not get there only if it comes to an operation that finds neither a fit nor room, which cannot happen while all rounded requests together fit the region. At the end the ids, their sizes and the payloads of the heap are those the trace leaves. |
| `Driver.Checker.UtilOp` | malloc/mdriver.c:754-802 | One operation that finds its memory changes the running total by what the trace requests; the driver exits exactly at a request for no bytes. |
| `Driver.Checker.EvalMmUtil` | malloc/mdriver.c:739-813 | On every legal trace that finds its memory and has no request for no bytes the first result is the most that was requested and not freed at any time, the second the final heap size, and the first never exceeds the second. No payload is lost: those of the heap are exactly the ones the trace leaves. |
| `Traces.LegalTraceExact` | malloc/mdriver.c:542-573 | The traces these results are about, operation by operation: an id is not allocated while it is, an id that was freed is neither reallocated nor freed again, and sizes can be rounded up in 64 bits. |
| `Traces.SizeIs` | malloc/mdriver.c:762-782 | What the driver records for an id is the size it was last allocated or reallocated with. |
| `Traces.NeedIs` | malloc/mm.c:89-92 | An operation needs the least multiple of 16 bytes with room for the request and two tags, and nothing to free. |
| `Traces.RunValid` | malloc/mdriver.c:615-725 | A run of the driver on a literal trace of seven operations: it is accepted without an error. |
| `Traces.RunUtil` | malloc/mdriver.c:739-813 | On the same trace the most that was requested at a time are 240 bytes. |
| `Trees.RotatedLeft` | shell/include/tree.h:336-355 | A left rotation keeps the in-order sequence. |
| `Trees.RotatedRight` | shell/include/tree.h:357-376 | So does a right rotation. |
| `Trees.SeparateBoth` | shell/include/tree.h:336-376 | Before and after a rotation the parts share no node. |
| `Trees.SortedParts` | shell/include/tree.h:586-612 | Elements before one in a sorted sequence have smaller keys, those after it larger ones. |
| `RbShape.FillInOrder` | shell/include/tree.h:310-315 | The order of a tree is what lies before a position, what is at it, and what lies after it. |
| `RbShape.ProperFill` | shell/include/tree.h:310-315 | A tree has no node twice if and only if the two parts of a focus have none twice and share none. |
| `RbShape.Focus` | shell/include/tree.h:310-315 | The pointers represent a tree if and only if they represent the part below a position and the part around it. |
| `RbShape.FillOk` | shell/include/tree.h:47-56 | If the part below and the part around fit, the whole is a red-black tree. |
| `RbShape.OkHeight` | shell/include/tree.h:47-56 | The number of black nodes on a path does not depend on the path. |
| `RbShape.HeightBound` | shell/include/tree.h:47-56 | A red-black tree of n nodes has height at most 2 lg (n + 1): two to the height is at most (n + 1) squared. |
| `RedBlack.RecoloredOk` | shell/include/tree.h:410-415 | With a red uncle recolouring moves the only flaw two levels up. |
| `RedBlack.InLine` | shell/include/tree.h:416-421 | The first rotation brings the two red nodes in line without changing order or black heights. |
| `RedBlack.LiftedOk` | shell/include/tree.h:422-423 | The second rotation leaves no flaw. |
| `RedBlack.BlackenedOk` | shell/include/tree.h:442 | When the loop ends, blackening the root gives a red-black tree. |
| `RedBlack.LoweredOk` | shell/include/tree.h:452-456 | Rotating a red sibling up leaves the same shortage with a black sibling. |
| `RedBlack.SiblingRedOk` | shell/include/tree.h:457-463 | With two black nephews, reddening the sibling moves the shortage one level up. |
| `RedBlack.StraightenedOk` | shell/include/tree.h:465-473 | Rotating a red near nephew up gives a red far nephew and keeps order and black heights. |
| `RedBlack.SettledOk` | shell/include/tree.h:474-478 | The last rotation makes up for the shortage. |
| `RedBlack.FilledShort` | shell/include/tree.h:516-518 | When the loop ends, blackening the element settles the shortage. |
| `RedBlack.RemovedOk` | shell/include/tree.h:567-581 | Taking out a node with at most one subtree leaves a red-black tree or one black node too few at one place, depending on its colour. |
| `RedBlack.DepthBound` | shell/include/tree.h:47-56 | The length of the path to a position and the height of what is below it add up to at most the height of the tree. |
| `RedBlack.Place` | shell/include/tree.h:649-686 | The position of a node in order, and what precedes and follows it, from the path to it. |
| `RedBlack.RemovedOrder` | shell/include/tree.h:567-578 | Without a node that has one subtree the order is the old one without it. |
| `RedBlack.SuccessorOrder` | shell/include/tree.h:528-558 | The order once the successor has taken the place of a removed inner node is the old one without that node. |
| `RedBlack.PlugFill` | shell/include/tree.h:528-533 | Going down to the leftmost node of a right subtree keeps the tree in view and finds the next element. |
| `RedBlack.RebasedOk` | shell/include/tree.h:547-558 | Putting the successor in the removed node's place keeps colours and black heights right. |
| `RedBlack.RebasedDepth` | shell/include/tree.h:547-558 | Putting the successor in place does not change how deep the hole is. |
| `RedBlack.Descend` | shell/include/tree.h:591-600 | Going left or right by comparison keeps the place of the key in view. |
| `RedBlack.InsertedOrder` | shell/include/tree.h:601-609 | A new leaf at that place keeps the sequence sorted. |
| `RedBlack.Locate` | shell/include/tree.h:520-522 | Every member of the tree has a position in it. |
| `RedBlack.RbTree.RotateLeft` | shell/include/tree.h:336-355 | On the heap: all child and parent pointers and the root pointer are those of the rotated tree, for the node anywhere in the tree. |
| `RedBlack.RbTree.RotateRight` | shell/include/tree.h:357-376 | The same to the right. |
| `RedBlack.RbTree.Paint` | shell/include/tree.h:324-328 | A colour assignment changes the colour of this node only. |
| `RedBlack.RbTree.InsertColor` | shell/include/tree.h:403-443 | From one red node below a possibly red parent the loop ends with a red-black tree of the same elements in the same order, after no more turns than the node is deep. |
| `RedBlack.RbTree.InsertStepLeft` | shell/include/tree.h:408-423 | One turn for a parent on the left: flawless, or the flaw two levels up. |
| `RedBlack.RbTree.InsertStepRight` | shell/include/tree.h:424-440 | One turn for a parent on the right. |
| `RedBlack.RbTree.Insert` | shell/include/tree.h:586-612 | Inserts at the place that keeps the keys sorted, leaving a red-black tree with a black root; or changes nothing and returns the element that has the key. All loops together take at most twice as many turns as the tree was high. |
| `RedBlack.RbTree.RemoveStepLeft` | shell/include/tree.h:450-481 | One turn for a shortage on the left: settled, or one level up. |
| `RedBlack.RbTree.RemoveStepRight` | shell/include/tree.h:482-514 | One turn for a shortage on the right. |
| `RedBlack.RbTree.RemoveColor` | shell/include/tree.h:445-518 | From one missing black node the loop ends with a red-black tree of the same elements in the same order, after at most one turn more than the hole is deep. |
| `RedBlack.RbTree.Unlink` | shell/include/tree.h:567-578 | The subtree takes the place of the removed node, on the heap. |
| `RedBlack.RbTree.Replace` | shell/include/tree.h:547-558 | The successor takes over pointers, colour and neighbours of the removed node. |
| `RedBlack.RbTree.Successor` | shell/include/tree.h:528-531 | The walk ends at the next element in order. |
| `RedBlack.RbTree.WalkUp` | shell/include/tree.h:558-563 | The walk to the root takes as many turns as the path is long and changes nothing. |
| `RedBlack.RbTree.RemoveInner` | shell/include/tree.h:527-565 | Removal of an element with two subtrees, with its three loops: down to the successor, up to the root and up again to restore the colours; at most three times as many turns as the tree was high. |
| `RedBlack.RbTree.Remove` | shell/include/tree.h:520-583 | For any member of any red-black tree: exactly this element goes, the others keep their order and identity, the result is a red-black tree with correct parent links, and the element is returned, after at most three times as many turns as the tree was high. |
| `RedBlack.RbTree.Find` | shell/include/tree.h:615-628 | Returns the element with the key if and only if there is one, in at most as many turns as the tree is high. |
| `RedBlack.RbTree.NFind` | shell/include/tree.h:631-646 | Returns the least element that is not below the key, or NULL if all are below, in at most as many turns as the tree is high. |
| `RedBlack.RbTree.Next` | shell/include/tree.h:649-666 | Returns the next element in order, or NULL at the end, using parent pointers only, in at most as many turns as the tree is high. |
| `RedBlack.RbTree.Prev` | shell/include/tree.h:669-686 | Returns the previous element, or NULL at the start, in as many turns; so it undoes `RB_NEXT`. |
| `RedBlack.RbTree.MinMax` | shell/include/tree.h:688-699 | Returns the first or the last element, or NULL for the empty tree, in as many turns. |
| `RedBlack.RbTree.Foreach` | shell/include/tree.h:713-714 | Ends after visiting every element once in increasing order. |
| `RedBlack.RbTree.constructor` | shell/include/tree.h:295-298 | An initialised head is an empty tree. |
| `Splay.LinkedOrder` | shell/include/tree.h:97-109 | Hanging the root onto either spine keeps the order of the three pieces. |
| `Splay.LinkedLeft` | shell/include/tree.h:97-102 | What goes onto the left-hanging spine lies above the key. |
| `Splay.LinkedRight` | shell/include/tree.h:104-109 | What goes onto the other lies below it. |
| `Splay.AssembledOrder` | shell/include/tree.h:111-117 | Reassembling keeps the order. |
| `Splay.AssembledSettled` | shell/include/tree.h:209-233 | When the loop has ended the reassembled tree has the key, or its predecessor or successor, at the root. |
| `Splay.SettledFound` | shell/include/tree.h:128-136 | If the root of a splayed tree has another key the sought key is nowhere in the tree. |
| `Splay.SettledSplit` | shell/include/tree.h:168-176 | The elements of a splayed tree split beside the root into those below and those above an absent key. |
| `Splay.LastIsRoot` | shell/include/tree.h:191-196 | Splaying the left subtree for a key above all of it brings its last element, without right subtree, to the root. |
| `Splay.InsertedOrder` | shell/include/tree.h:168-179 | Putting a new element above the two halves keeps the sequence sorted. |
| `Splay.AssembledEnd` | shell/include/tree.h:238-268 | With an empty spine on one side the root is the first or the last element. |
| `Splay.SplayTree.RotateRight` | shell/include/tree.h:83-88 | The rotation on the heap keeps the pieces of the tree, their order and where they lie relative to the key. |
| `Splay.SplayTree.RotateLeft` | shell/include/tree.h:90-95 | The same to the left. |
| `Splay.SplayTree.LinkLeft` | shell/include/tree.h:97-102 | The root moves to the end of a spine, on the heap. |
| `Splay.SplayTree.LinkRight` | shell/include/tree.h:104-109 | The same on the other side. |
| `Splay.SplayTree.Assemble` | shell/include/tree.h:111-117 | The pieces become one tree again, the dummy node being unlinked. |
| `Splay.SplayTree.Splay` | shell/include/tree.h:202-233 | Ends with the same elements in the same order and the sought key, or else a neighbour of its place, at the root; the loop on two spines makes exactly the tree, in exactly the turns, of the recursive `Splayed`. |
| `Splay.SplayTree.Find` | shell/include/tree.h:128-136 | Returns the element with the key if and only if there is one; the elements are unchanged; the turns are paid by the potential. |
| `Splay.SplayTree.Insert` | shell/include/tree.h:161-181 | Set insertion: the element goes where its key belongs, or the existing one with the key is returned and nothing added; the turns are paid by the potential. |
| `Splay.SplayTree.Remove` | shell/include/tree.h:183-200 | Takes out exactly the element with the key, or nothing if there is none; what it returns is its argument, which is the element taken out if and only if it was in the tree; the turns are paid by the potential. |
| `Splay.SplayTree.MinMax` | shell/include/tree.h:238-268 | Brings the first or last element to the root; the turns are paid by the potential. |
| `Splay.SplayTree.Next` | shell/include/tree.h:138-149 | Returns the next element in order, or NULL; the walk is as long as the leftmost path below, and calling it on the root changes nothing. |
| `Splay.SplayTree.Foreach` | shell/include/tree.h:282-285 | Visits every element once in increasing order, and ends. |
| `Splay.TurnLeft` | shell/include/tree.h:210-219 | One turn of the loop, with or without a rotation, leaves what the recursion still has to do, or ends where it ends. |
| `Splay.TurnRight` | shell/include/tree.h:220-229 | The same to the right. |
| `SplayCost.SplitBound` | shell/include/tree.h:202-233 | The access lemma without logarithms: two to the number of turns, times the product of all subtree sizes after the cut, is at most twice the square of the size times that product before, and half of that if the first turn rotates. |
| `SplayCost.RotatesOn` | shell/include/tree.h:214-218 | A turn that rotates pays for itself twice. |
| `SplayCost.MovesTwice` | shell/include/tree.h:210-229 | Two turns in opposite directions that do not rotate pay for themselves together. |
| `SplayCost.SplayedBound` | shell/include/tree.h:202-233 | Splaying a tree of n elements costs at most the factor 2 * n^3 of potential. |
| `SplayCost.CrownedBound` | shell/include/tree.h:168-179 | A new root on top costs at most the factor n + 1. |
| `SplayCost.JoinedBound` | shell/include/tree.h:191-197 | Removing the root, with the second splay, costs at most twice the square of the size of the left subtree. |
| `SplayCost.SecondBound` | shell/include/tree.h:161-200 | A whole insertion or removal costs at most the factor 4 * (n + 1)^5. |
| `SplayCost.WeightBound` | shell/include/tree.h:43-45 | The potential of a tree of n elements is at most n^n. |
| `SplayRuns.Session` | shell/include/tree.h:43-45 | The Balance Theorem: in a run of m operations on a tree that starts empty, n of them insertions, two to the number of turns is at most (4 * (n + 1)^5)^m, so there are O(m lg n) turns; every operation answers, and the tree has the keys, as for a set of keys. |
| `SplayRuns.Run` | shell/include/tree.h:128-280 | A run of nine operations with literal answers. |
| `SplayRuns.Accesses` | shell/include/tree.h:43-45 | A sequence of m accesses to any tree of n elements answers each search and takes O(m lg n + n lg n) turns. |
| `SplayRuns.NextAgain` | shell/include/tree.h:138-149 | After n insertions and one search, which takes n / 2 turns, m calls of `SPLAY_NEXT` walk m * (n / 2 - 1) steps. |
| `SplayRuns.NotBalanced` | shell/include/tree.h:43-45 | For 256 elements and any m > 256 calls this exceeds what the theorem allows for all these operations. |
| `Ext2Image.WalkFlat` | ext2/ext2fs.c:316-341 | Following the digits of a position through the pointer blocks finds that element of the flat list of addresses, whatever is missing elsewhere. |
| `Ext2Image.WalkReaches` | ext2/ext2fs.c:316-341 | That is an address exactly when every pointer on the way lies in the image. |
| `Ext2Image.ConcatAt` | ext2/ext2fs.c:322-328 | An element of concatenated pointer blocks is found by quotient and remainder. |
| `Ext2Image.TranslateMapped` | ext2/ext2fs.c:289-344 | The translation follows the block map of the i-node everywhere outside one part of the triple-indirect region. |
| `Ext2Image.TranslateAstray` | ext2/ext2fs.c:331-341 | In that part, beyond its first 256 * 256 blocks, the second index runs past the end of its pointer block. |
| `Ext2Image.TranslateExact` | ext2/ext2fs.c:289-344 | For every block that the block map of its file has, the translation is right if and only if the index lies outside that part. |
| `Ext2Image.WitnessAstray` | ext2/ext2fs.c:331-341 | On one sound image of five blocks every block of that part is there and is translated wrongly. |
| `Ext2Image.CheckedExact` | ext2/ext2fs.c:177-180 | A block that the translation of a file names is marked as used, or else its address is out of the range that is checked; this is exactly when `blk_get` hands it out. |
| `Ext2Image.LastInode` | ext2/ext2fs.c:236-256 | For a valid i-node number `ext2_inode_used` answers as the bitmap says if and only if it is not the last one. |
| `Ext2Image.MappedFlat` | ext2/ext2fs.c:298-341 | The block map gives element k of one list, 12 direct pointers followed by what is below the single, the double and the triple indirect pointer; it is an address exactly when the pointers that lead to it are there. |
| `Ext2Image.TranslateFlat` | ext2/ext2fs.c:311-341 | On every file, with or without holes, the translation of block k is element k of that list, up to the first 65536 of the triple region; only the pointers that lead to it need to be there. |
| `BlockPool.NotExhausted` | ext2/ext2fs.c:125-150 | When no buffer is held and none is free, one can be reclaimed: the panic is unreachable. |
| `BlockPool.FreeTaken` | ext2/ext2fs.c:126-133 | Taking a buffer off the free list keeps the pool consistent. |
| `BlockPool.LruTaken` | ext2/ext2fs.c:137-147 | Taking one off the LRU list and out of its bucket keeps it consistent. |
| `BlockPool.LooseFilled` | ext2/ext2fs.c:182-194 | A loaded buffer put into the bucket of its key keeps it consistent if that key was not cached: no key is ever cached twice. |
| `BlockPool.StackedFull` | ext2/ext2fs.c:125-205 | With nothing held the LRU list holds the buffers in use in the order of their numbers, the highest first. |
| `BlockPool.StackedTaken` | ext2/ext2fs.c:125-150 | Taking a buffer keeps that order; once none is free the one taken is the last of the 64. |
| `BlockPool.StackedPut` | ext2/ext2fs.c:200-205 | Releasing one keeps it. |
| `BlockPool.FoundStays` | ext2/ext2fs.c:164-205 | In a full pool a buffer that is found and released does not move on the list: although it was released last it is not the one the next miss reclaims, unless it is the last of the 64, which every miss reclaims. |
| `BlockPool.MissAfterMiss` | ext2/ext2fs.c:125-205 | In a full pool a miss changes the last buffer only and leaves the list as it was, so the next miss reclaims the buffer released most recently. |
| `BlockPool.ReclaimExact` | ext2/ext2fs.c:137-147 | The buffer reclaimed in a full pool is the least recently released one if and only if every other was released after it. |
| `BlockPool.PutCount` | ext2/ext2fs.c:200-205 | The count after further releases of a buffer whose count had reached 0, in 32 bits. |
| `BlockPool.HeldPut` | ext2/ext2fs.c:200-205 | A release puts a buffer onto the LRU list once, although hits do not raise the reference count, as long as there were fewer than 2^32 releases. |
| `BlockPool.HeldPutExact` | ext2/ext2fs.c:200-205 | It keeps the pool consistent if and only if there were fewer than 2^32 releases. |
| `BlockPool.WornByPuts` | ext2/ext2fs.c:164-205 | Any number of finds and releases of one buffer keeps the pool consistent as long as they stay below 2^32, and each is counted. |
| `BlockPool.WornOut` | ext2/ext2fs.c:164-205 | From every state, finding and releasing any cached buffer often enough reaches the state in which one more release breaks the pool. |
| `BlockCache.Cache.constructor` | ext2/ext2fs.c:102-119 | The initial pool is consistent, every buffer free and never released. |
| `BlockCache.Cache.Alloc` | ext2/ext2fs.c:122-151 | Takes the first free buffer, or else the head of the LRU list out of that list and its bucket, which is always the last of the 64; never finds both empty, and keeps the pool consistent. What it reclaims is the least recently released buffer if and only if each other was released after it. |
| `BlockCache.Cache.BlkPut` | ext2/ext2fs.c:200-205 | The count goes down by one in 32 bits; when it reaches 0 the buffer goes to the head of the LRU list; the pool is consistent. |
| `BlockCache.Cache.Search` | ext2/ext2fs.c:164-170 | Finds the buffer of a key if and only if the key is cached. |
| `BlockCache.Cache.Load` | ext2/ext2fs.c:182-194 | The buffer taken, the next in order or the last, holds the image block at the address, filed under the key; past the end of the image the program stops. |
| `BlockCache.Cache.BlkGet` | ext2/ext2fs.c:157-195 | On a hit, a miss and through every re-entry the answer is the function of the image given by the translation, and a buffer returned holds exactly the image block it names. |
| `BlockCache.Cache.SomeWorn` | ext2/ext2fs.c:200-205 | When nothing is held the reference counts tell whether some buffer is close to its last release. |
| `BlockCache.Releases` | ext2/ext2fs.c:200-205 | The number of releases of a buffer can be read off its reference count. |
| `BlockCache.Cache.Lookups` | ext2/ext2fs.c:157-205 | Over any run of lookups, each block released before the next, in whatever order and however often: every answer is what the image holds, until the program stops or some buffer has had all but seven of its 2^32 releases in one residency; which cannot happen in fewer than 2^32 / 7 lookups from a new cache. Once no buffer is free, the LRU list and the blocks that the first 63 buffers hold stay the same. |
| `BlockCache.Cache.LookUp` | ext2/ext2fs.c:157-205 | One lookup with its release answers what the image holds, and re-entries included releases no buffer more than seven times. |
| `BlockCache.SameList` | ext2/ext2fs.c:125-205 | Between any two moments with nothing held a full pool has the same LRU list. |
| `BlockCache.Ask` | ext2/ext2fs.c:157-205 | Reading an uncached block and releasing it fills the next buffer in order, or the last when none is free. |
| `BlockCache.AskInOrder` | ext2/ext2fs.c:125-205 | The input: after blocks 1 to 65 were read and released in order, block 64 is gone, whose buffer was the last released before, and blocks 1 to 63 are still there. |
| `BlockCache.Cache.ReadBit` | ext2/ext2fs.c:222-229 | The bit of a bitmap block, as the image has it. |
| `BlockCache.Cache.Ext2BlockUsed` | ext2/ext2fs.c:213-232 | 1 or 0 as the bitmap in the image says, EINVAL outside the range; address 0 is answered from bit 2^32 - 1 of the bitmaps, and reads past the group descriptors if and only if they do not reach that far. |
| `BlockCache.Cache.Ext2InodeUsed` | ext2/ext2fs.c:236-256 | 1 or 0 as bit (n - 1) % 8 of the bitmap byte says (`Ext2Image.ByteIsBits` says what a bit is), EINVAL for 0 and from the number of i-nodes on, the last i-node included. |
| `BlockCache.Cache.InodeRead` | ext2/ext2fs.c:260-273 | Succeeds if and only if the i-node is allocated, and then returns its bytes of the image; otherwise the error is ENONET. |
| `BlockCache.Cache.BlkptrRead` | ext2/ext2fs.c:276-285 | The pointer as the image has it, through the cache. |
| `BlockCache.Cache.BlkaddrRead` | ext2/ext2fs.c:289-344 | Computes the translation of the image while re-entering the cache, which stays consistent with nothing held. |
| `BlockCache.Cache.MapRead` | ext2/ext2fs.c:311-343 | The part after the i-node was read. |
| `Ext2Image.InodePos` | ext2/ext2fs.c:266-270 | The i-node lies within one block of the image. |
| `Ext2Image.ByteIsBits` | ext2/ext2fs.c:223-248 | Each byte of a bitmap is the sum of its bits, the first of them the lowest. |
| `Ext2Sample.SampleBits` | ext2/ext2fs.c:213-256 | On a literal image of two groups whose bitmaps are not palindromes: which i-nodes and blocks are in use. |
| `Ext2Sample.SamplePointers` | ext2/ext2fs.c:289-310 | The fifteen pointers of the root i-node are the literal ones that its bytes spell. |
| `Ext2Sample.SampleBlocks` | ext2/ext2fs.c:298-316 | Where the first direct and single indirect blocks of the root are. |
| `Ext2Sample.SampleDoubles` | ext2/ext2fs.c:317-330 | The first and last blocks of the double indirect region, and those around them. |
| `Ext2Sample.SampleTriples` | ext2/ext2fs.c:331-344 | The triple indirect region up to the last block reached, and the panic and the failure past it. |
| `Ext2Sample.SampleOutcomes` | ext2/ext2fs.c:134-210 | What `blk_get` hands out, refuses and fails on. |
| `Ext2Sample.ReadSample` | ext2/ext2fs.c:134-287 | A run of the program on this image: three blocks of the root, an i-node in use and a free one, eight i-node and ten block queries, all as literals. |
| `Md5Spec.FoldConcat` | ext2/md5c.c:120-126 | Folding two pieces of whole blocks one after the other is folding their concatenation. |
| `Md5Spec.StepsJoin` | ext2/md5c.c:184-265 | Consecutive steps compose. |
| `Md5Spec.Padded` | ext2/md5c.c:140-154 | Padding gives whole blocks that begin with the message. |
| `Md5Spec.FTakesY` | ext2/md5c.c:50 | Wherever x has ones F selects y. |
| `Md5Spec.FTakesZ` | ext2/md5c.c:50 | Wherever x has zeros F selects z. |
| `Md5Spec.GTakesX` | ext2/md5c.c:51 | Wherever z has ones G selects x. |
| `Md5Spec.GTakesY` | ext2/md5c.c:51 | Wherever z has zeros G selects y. |
| `Md5Spec.HOdd` | ext2/md5c.c:52 | H is the parity: where x and y are both one it is z. |
| `Md5Spec.HFlips` | ext2/md5c.c:52 | Where exactly one of x and y is one it is the complement of z. |
| `Md5Spec.IFlips` | ext2/md5c.c:53 | Where x is one I is the complement of y. |
| `Md5Answers.DigestAbc` | ext2/md5c.c:161-170 | The digest of "abc" is the one in appendix A.5 of RFC 1321, as sixteen literal bytes. |
| `Md5Answers.DigestDigits` | ext2/md5c.c:161-170 | So is that of eighty digits, which takes two blocks. |
| `Md5.Round1` | ext2/md5c.c:179-199 | The 16 lines of round 1 are steps 1 to 16 of section 3.4 of RFC 1321. |
| `Md5.Round2` | ext2/md5c.c:201-221 | The same for steps 17 to 32. |
| `Md5.Round3` | ext2/md5c.c:223-243 | The same for steps 33 to 48. |
| `Md5.Round4` | ext2/md5c.c:245-265 | The same for steps 49 to 64. |
| `Md5.Context.Init` | ext2/md5c.c:89-97 | The context stands for the empty message. |
| `Md5.Context.Transform` | ext2/md5c.c:174-274 | The state becomes the compression of the state with the block. |
| `Md5.CountSum` | ext2/md5c.c:112-116 | The two words of the count are the bit count modulo 2^64, carry included. |
| `Md5.ShortEnough` | ext2/md5c.c:125 | On inputs of up to 2^32 - 64 bytes the index of the loop never wraps. |
| `Md5.GoesOn` | ext2/md5c.c:125 | If the index runs past 2^32 the guard holds after any number of turns. |
| `Md5.LoopExact` | ext2/md5c.c:125 | The loop ends if and only if the index does not run past 2^32. |
| `Md5.LoopForEver` | ext2/md5c.c:125 | For instance it never ends on 2^32 - 1 bytes that follow a single one. |
| `Md5.LastIndex` | ext2/md5c.c:125-126 | When it ends, it ends at the last index a whole number of blocks on. |
| `Md5.BlockFilled` | ext2/md5c.c:121-123 | Filling up the waiting block folds exactly the next bytes of the message. |
| `Md5.Context.Blocks` | ext2/md5c.c:125-126 | The loop folds all further whole blocks of the input. |
| `Md5.Context.Update` | ext2/md5c.c:105-134 | After an update the context stands for the message so far followed by the input: chaining value, waiting bytes and bit count. |
| `Md5.Context.Pad` | ext2/md5c.c:140-154 | Padding feeds in what sections 3.1 and 3.2 of RFC 1321 append, with the length from before. |
| `Md5.Context.Final` | ext2/md5c.c:161-170 | The digest is that of sections 3.1 to 3.5 of RFC 1321 for the message, which `Md5Answers` pins to the known answers of appendix A.5, and the context is zeroed. |
| `Md5.DigestChunks` | ext2/md5c.c:312-313 | However a message is cut into pieces of up to 2^32 - 64 bytes, the digest is that of the whole. |
| `Jenkins.XorBitsTwice` | shell/libcsapp/jenkins_hash.c:88 | Exclusive or undoes itself, bit by bit. |
| `Jenkins.XorIs` | shell/libcsapp/jenkins_hash.c:88 | Bit i of the exclusive or is set if and only if bit i of the operands differs. |
| `Jenkins.RotIs` | shell/libcsapp/jenkins_hash.c:39 | Rotating by k moves bit i to place i + k, modulo 32. |
| `JenkinsAnswers.KnownAnswer` | shell/libcsapp/jenkins_hash.c:228-431 | The hash of "Four score and seven years ago" with seed 0 is 0x17770551, that of the empty key 0xdeadbeef. |
| `Jenkins.MixInverse` | shell/libcsapp/jenkins_hash.c:85-105 | `mix` is a bijection on triples of 32-bit words, with an explicit inverse. |
| `Jenkins.FinalInverse` | shell/libcsapp/jenkins_hash.c:132-148 | So is `final`. |
| `Jenkins.MixLines` | shell/libcsapp/jenkins_hash.c:85-105 | The 18 lines of the macro compute that function. |
| `Jenkins.FinalLines` | shell/libcsapp/jenkins_hash.c:132-148 | The 14 lines of the other compute that one. |
| `Jenkins.FeedDiffers` | shell/libcsapp/jenkins_hash.c:244-246 | Adding different bytes to the same registers leaves different registers. |
| `Jenkins.RunInjective` | shell/libcsapp/jenkins_hash.c:243-250 | Running over the same bytes from different registers ends in different registers. |
| `Jenkins.RunDiffers` | shell/libcsapp/jenkins_hash.c:228-431 | Keys that differ in one 12-byte chunk leave different registers from the same start. |
| `Jenkins.OneChunk` | shell/libcsapp/jenkins_hash.c:228-431 | Keys of equal length that differ, but only inside one 12-byte chunk, finish in different (a, b, c), for every seed. |
| `Jenkins.HashAligned` | shell/libcsapp/jenkins_hash.c:239-314 | The path that reads whole words, the last of which may reach past the key, computes the hash of the key alone. |
| `Jenkins.HashEven` | shell/libcsapp/jenkins_hash.c:316-372 | The path that reads 16-bit halves computes the same hash. |
| `Jenkins.HashBytes` | shell/libcsapp/jenkins_hash.c:374-427 | So does the path that reads bytes. |
| `Jenkins.JenkinsHash` | shell/libcsapp/jenkins_hash.c:228-431 | The hash depends on key and seed, not on the address or on what follows the key, and is the function whose known answer `JenkinsAnswers` proves. |
| `Jenkins.Hash32` | shell/libcsapp/jenkins_hash.c:163-198 | `jenkins_hash32` on n words is `jenkins_hash` on their 4n bytes. |
| `Jobs.NotedJobOk` | shell/jobs.c:44-66 | A status change of one process keeps a job consistent: finished exactly when all its processes are, and in any state they all share. |
| `Jobs.StateExact` | shell/jobs.c:54-63 | The job's state departs from the rule in the comment on its field exactly when some but not all processes have finished and the live ones agree on a state that the job does not have. |
| `Jobs.StoppedPipeline` | shell/jobs.c:54-63 | For instance a pipeline whose first process has finished and whose last is stopped still counts as running. |
| `Jobs.NotedInv` | shell/jobs.c:44-67 | A status change keeps the whole table consistent. |
| `Jobs.OnePlace` | shell/jobs.c:23-306 | In a consistent table no process is in two slots, in a slot and a deleted job, or in two deleted jobs, and every process ever added is in one of them. |
| `Jobs.WithProcInv` | shell/jobs.c:136-147 | Adding a process of a new number keeps the table consistent. |
| `Jobs.MovedInv` | shell/jobs.c:120-124 | So does moving a job to a free slot. |
| `Jobs.BuriedInv` | shell/jobs.c:110-118 | So does deleting a finished job, whose processes are recorded as reported. |
| `Jobs.LaunchedIs` | shell/jobs.c:97-147 | A new job has one running process for each stage and the command text of all stages. |
| `Jobs.StoppedGoesBack` | shell/jobs.c:194-199 | A stopped job that `fg` gives up on goes straight back to the background, to the lowest free slot, and if none is lower the table is unchanged. |
| `Jobs.WatchedQuietly` | shell/jobs.c:228-266 | While no child changes its status, exactly the slots in use whose state is asked for are reported, in their order, and exactly the finished ones among them freed. |
| `Jobs.HeardAllSame` | shell/jobs.c:44-69 | Status changes neither free nor take a slot. |
| `Jobs.ForegroundExact` | shell/jobs.c:194-199 | Of the jobs that have not finished, `fg` gives up at once on exactly those that are stopped when it is called; on any other it waits until its state changes. |
| `JobHistory.LegalAllExact` | shell/jobs.c:44-50 | The arrivals of reports considered are all those in which nothing is reported about a process after its end. |
| `JobHistory.NotedTold` | shell/jobs.c:44-66 | Each process is recorded as the last report about it since it was started says. |
| `JobHistory.EndTold` | shell/jobs.c:44-53 | A process has finished if and only if its end was reported, and its status is the code or the signal in that report. |
| `JobHistory.JobEnded` | shell/jobs.c:54-63 | A job has finished if and only if the end of each of its processes was reported. |
| `JobHistory.CodeCarried` | shell/jobs.c:294-300 | Its code is the one that was reported about its last process, since the job was started or taken over. |
| `JobHistory.SaidTold` | shell/jobs.c:248-261 | What is printed about a job is what was reported about its processes. |
| `JobTable.Table.constructor` | shell/jobs.c:321 | The initial table is consistent. |
| `JobTable.Table.NoticeIn` | shell/jobs.c:45-66 | The two inner loops update the process, and the job's state exactly when all processes now agree. |
| `JobTable.Table.Notice` | shell/jobs.c:44-67 | Every slot is searched; the table is the old one with the change noted and is consistent. |
| `JobTable.Table.Handler` | shell/jobs.c:42-69 | All pending reports are applied in order and the table is consistent, for every sequence of reports. |
| `JobTable.Table.AllocJob` | shell/jobs.c:79-89 | Returns the lowest free background slot, or a new one when there is none. |
| `JobTable.Table.AddJob` | shell/jobs.c:97-108 | The slot holds a running job without processes; no other slot changes. |
| `JobTable.Table.AddProc` | shell/jobs.c:136-147 | The job has one more running process and its text one more stage. |
| `JobTable.Table.DelJob` | shell/jobs.c:110-118 | The assertion holds, the slot is free, and the job is recorded as reported. |
| `JobTable.Table.MoveJob` | shell/jobs.c:120-124 | The assertion holds and the job has moved, with its processes. |
| `JobTable.Table.JobState` | shell/jobs.c:151-169 | A finished job is deleted and the status returned, that of its last process, is a status that was received. |
| `JobTable.Table.MonitorJob` | shell/jobs.c:270-306 | For every way status changes arrive: waits exactly until the foreground job is no longer running. It is deleted if and only if the end of all its processes was reported, and the code returned is the exit code or the signal in the report about the last one among those that arrived meanwhile; a stopped job is moved to the background with code 0. |
| `JobTable.Table.Conclude` | shell/jobs.c:291-300 | The end of `monitorjob`: a stopped job goes to the background, a finished one gives its code. |
| `JobTable.Table.Launch` | shell/shell.c:122-129 | A job or pipeline is added with a process for each stage. In the foreground it is waited for: it is gone if and only if the end of every stage was reported meanwhile, and the code is the exit code or the signal reported about the last stage. |
| `JobTable.Table.ResumeJob` | shell/jobs.c:179-206 | Finds the job, or the highest unfinished one; in the foreground it is moved and waited for, otherwise the table is unchanged. |
| `JobTable.Table.Look` | shell/jobs.c:230-263 | One slot is reported, if in use and asked for, as the reports about its processes say, and then freed if finished. |
| `JobTable.Table.WatchJobs` | shell/jobs.c:228-266 | With the handler running between slots in any way, what is reported as finished is what is deleted, so each job is reported once; each code or signal printed is that of the report about the last process. |
| `JobTable.Table.Pause` | shell/shell.c:354-368 | At the prompt the handler applies as many batches of reports as arrive, in order; the table stays consistent and the foreground slot free. |
| `JobTable.Table.Session` | shell/shell.c:354-368 | Over any run of commands and any arrival of status changes, at the prompt, while waiting or while reporting, the table stays consistent, the processes it knows are exactly those the commands started and none of their records is lost, and the foreground slot is free whenever a command is read. |
| `JobRun.Run` | shell/jobs.c:228-306 | A run with literal results: a command that exits with 1, a pipeline whose first process is killed and whose last exits with 3, one that is suspended, and `jobs` after a kill in the background. |
| `Rio.File.Read` | shell/libcsapp/rio.c:11-17 | What `read` may do: part of what is asked for, an interruption, a failure, or nothing at the end of the file. |
| `Rio.File.Write` | shell/libcsapp/rio.c:38-43 | What `write` may do. |
| `Rio.ReadFully` | shell/libcsapp/rio.c:5-22 | However the kernel answers, exactly n bytes or all there are, in order; -1 only after a failure. |
| `Rio.WriteFully` | shell/libcsapp/rio.c:32-48 | All n bytes are written in order, or -1 after a failure or a write of nothing, with a prefix written. |
| `Rio.LineLength` | shell/libcsapp/rio.c:123-137 | The length of a line: no newline before its end, and ended by a newline, the limit or the end of the stream. |
| `Rio.LineLengthIs` | shell/libcsapp/rio.c:123-137 | Those facts determine the length. |
| `Rio.Reader.constructor` | shell/libcsapp/rio.c:95-99 | A new reader has the whole file pending. |
| `Rio.Reader.Refill` | shell/libcsapp/rio.c:66-75 | Refilling changes nothing of what is pending; it ends after finitely many interruptions. |
| `Rio.Reader.Read` | shell/libcsapp/rio.c:63-85 | Delivers the next bytes, at least one unless nothing is pending; a failure loses nothing. |
| `Rio.Reader.ReadN` | shell/libcsapp/rio.c:102-116 | Delivers exactly the next min(n, pending) bytes; after a failure the bytes already taken are gone. |
| `Rio.Reader.ReadLine` | shell/libcsapp/rio.c:119-140 | Delivers up to and including the first byte 10, or maxlen - 1 bytes, or all there is, with a NUL after it; no byte before the last delivered one is 10. At the end of the file it stores nothing. A limit of 0 counts as 1. |
| `Rio.ServedInOrder` | shell/libcsapp/rio.c:63-140 | What any mix of calls delivers are consecutive segments of the stream: nothing lost, repeated or reordered. |
| `Rio.Call` | shell/libcsapp/rio.c:102-140 | One call of either kind delivers its share of what is pending. |
| `Rio.Serve` | shell/libcsapp/rio.c:63-140 | For any mix of calls, what is delivered is a function of the stream and the calls alone, the kernel only decides whether a failure cuts it short; each part is as long as was asked for, or a line that ends with its only newline and leaves room for a NUL, or ends the stream. |
| `Rio.ShareFits` | shell/libcsapp/rio.c:102-140 | The share of a call meets these bounds. |
| `RioRun.ServeRun` | shell/libcsapp/rio.c:63-140 | A run with literal results: six calls on nine bytes with two newlines, for every kernel that does not fail but transfers as little as it likes and is interrupted with error 4. |
| `RioRun.WriteRun` | shell/libcsapp/rio.c:32-48 | The same for a write of three bytes. |
| `RioRun.ReadRun` | shell/libcsapp/rio.c:5-22 | And for an unbuffered read of two. |
| `Lexer.PiecesCut` | shell/lexer.c:21-71 | Every character of the line is in exactly one token or is a skipped space, and every token is as long as it can be. |
| `Lexer.PiecesExact` | shell/lexer.c:21-71 | There is only one such way to cut a line up, and it is the tokenizer's. |
| `Lexer.CutPieces` | shell/lexer.c:21-71 | Any text put together from proper pieces, none of which could be longer, is cut up into those pieces again. |
| `Lexer.StrApp` | shell/lexer.c:3-13 | Appends to the string, or copies it if there was none. |
| `Lexer.MkCommand` | shell/jobs.c:126-134 | The loop appends the words of one stage separated by spaces, after a pipe if it is not the first. |
| `Lexer.CommandPieces` | shell/jobs.c:126-134 | The text of a pipeline is cut up into its words with a pipe between the stages. |
| `Lexer.CommandExact` | shell/jobs.c:126-134 | Tokenizing what `mkcommand` printed gives back the words with T_PIPE between stages if and only if every word is nonempty, has no delimiter in it and does not begin with white space. |
| `LexerAnswers.CommandText` | shell/jobs.c:126-134 | The text of the pipeline `ls -l` and `wc`, as a literal. |
| `LexerAnswers.SpacesAre` | shell/lexer.c:23 | What is skipped between tokens are the bytes 32 and 9 to 13. |
| `LexerAnswers.WordsTokens` | shell/lexer.c:21-71 | The tokens of a literal line with a tab inside a word, and skipped space, tab and carriage return. |
| `LexerAnswers.DoubledTokens` | shell/lexer.c:43-57 | The longest operator is taken: three ampersands are T_AND and T_BGJOB, three bars T_OR and T_PIPE. |
| `LexerAnswers.SingleTokens` | shell/lexer.c:58-69 | The other operators, next to words and to each other. |
| `Tokenizer.CStringIs` | shell/lexer.c:36-37 | A pointer into the line denotes the characters up to the next NUL. |
| `Tokenizer.Overwritten` | shell/lexer.c:23-69 | Overwriting skipped or operator characters terminates the word before them and disturbs no other token. |
| `Tokenizer.Kept` | shell/lexer.c:34-38 | A word is left in place and its pointer denotes it once the next step has put a NUL behind it. |
| `Tokenizer.AllDenoted` | shell/lexer.c:73-75 | At the end of the line every element of the vector denotes its token. |
| `Tokenizer.StrCSpn` | shell/lexer.c:34 | The number of characters before the first delimiter. |
| `Tokenizer.Grow` | shell/lexer.c:29-32 | The larger vector keeps the tokens and has a slot for the terminator. |
| `Tokenizer.Operator` | shell/lexer.c:43-69 | The operator is recognised with one character of look-ahead and erased; the branch that would not advance is never taken. |
| `Tokenizer.Tokenize` | shell/lexer.c:15-76 | In place: the vector denotes exactly the tokens of the line, in order, followed by NULL, never past its capacity; what is left of the line are its words between NULs, and the loop ends. |
| `LexerAnswers.Run` | shell/lexer.c:15-76 | A run with literal results: what is left of the line, and what the vector points at. |

## Left out

- What `mm_malloc` does after `mem_sbrk` has failed, which C leaves undefined. The initial `mmap` and its addresses are
  not modelled; pointers of the allocator are word indices, NULL is index 0, which lies in the pad.
- Allocator.Heap.MemCopy: the two stretches of `malloc/mm.c:419` may overlap, for which C leaves `memcpy` undefined; the
  model assumes that it copies upwards, and preservation of the payload on that path rests on it.
- Allocator.Heap.SearchFit: a search that reaches the end of the list reads a tag through NULL (`malloc/mm.c:251-252`),
  which C leaves undefined; the value is not used, and the model assumes that the read has no effect.
- Allocator.Heap.Malloc: asks for a size of at most SIZE_MAX - 23, above which rounding wraps around and the block handed
  out would be too small; `Allocator.NormalizeSizeRoom` says that this is exactly when. The same goes for `Realloc`.
- Allocator.Heap.CheckHeap: asks that the tags lead from block to block and the links from one listed block to the next;
  with broken tags or links the walks of `mm_checkheap` may leave the heap.
- Time, statistics, random numbers and printing of the driver; random data and offsets are parameters. `mm_calloc`.
- `RB_AUGMENT`, which is empty here, and the reverse and removal-safe iteration macros.
- Splay.SplayTree.MinMax: for a comparison value of 0 the source's loop does not end; the value is taken to be nonzero.
- Splay.SplayTree.Foreach: how many turns a whole iteration takes.
- `ext2_mount` and the parsing of superblock and group descriptors: the geometry is a parameter, with the
  well-formedness `Ext2Image.Sound` asks for. Directories, links, `stat`, the FUSE binding and the listing programs.
- `ext2_read` is modelled only for i-nodes, which lie inside one block; its handling of holes and of a part of a last
  block is not.
- BlockCache.Cache.BlkGet: a panic, or a read through NULL or past a block, is the outcome `Halts`; what a C program
  does after such a read is not modelled.
- Writing the digest in hexadecimal (`MD5End`) and file handling (`MD5File`), except for the loop that feeds the pieces.
- Md5.Context.Update: asks that the loop index does not wrap, which holds for up to 2^32 - 64 bytes at a time; otherwise
  the loop does not end (`Md5.LoopExact`).
- Big-endian machines.
- Jenkins.HashAligned: the words in which an aligned key lies are readable to their end, as the source's comment says.
- Quality of the hash as opposed to its determinacy.
- Process creation, terminal modes, pipes, redirection and path search; the model has what these do to the job table.
  `kill` changes nothing in the table until the kernel reports the consequence.
- JobTable.Table.MonitorJob: whether a job ever finishes is up to the environment; when no further report comes the
  model says that the shell is still waiting. The same goes for `shutdownjobs`.
- JobTable.Table.AddProc: the kernel does not reuse the number of a process the table has known; table operations that
  run with `SIGCHLD` blocked are atomic.
- Rio.File.Read: the script of answers is finite, so that only finitely many calls are interrupted.
- Rio.Reader.ReadLine: the source counts in an `int` (`shell/libcsapp/rio.c:120`), so a line of 2^31 bytes or more with
  so large a limit overflows the count; the model counts in unbounded integers.
- Sockets, the wrappers that exit on failure, `safe_printf` and the bit strings of `libcsapp`.
- Tokenizer.Tokenize: characters outside ASCII count as not white space; exhaustion of memory is not modelled.
