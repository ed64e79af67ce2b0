# MyOS, verified

A Dafny model of the parts of MyOS in which a mistake would be hard to see, and proofs of what
they promise. MyOS is a small RISC-V Unix: an xv6-like kernel, its own C library, and ported
tools. `dafny verify dfyconfig.toml` checks everything.

Code that changes state in the C sources is written as methods over classes and arrays, with the
same loops and branches. Each such method is proved equal to a step of a specification, or to keep
an invariant over the whole state, and the lemmas say what that specification is worth.

| part | files | main results |
|---|---|---|
| Regular expressions of neatvi | `RegexTree`, `RegexCode`, `RegexMachine`, `RegexMatch`, `RegexCorrect`, `RegexEmit`, `RegexMoves`, `RegexExec` | the compiled program finds the first match in the order of choice, with its captures; it ends exactly when the search does; the exact condition for the program to fit its array; the truncated log of captures is as good as copying all of them |
| malloc, free, realloc | `Ints`, `Alloc`, `AllocHeap` | one address-ordered ring, no overlaps, no adjacent free blocks, free and live blocks partition the units from sbrk, at most one morecore for a malloc; exactly which requests break this |
| File system | `FsBlock`, `FsMap`, `FsFile`, `FsExtend`, `FsWrite`, `FsTrunc`, `FsInodes`, `FsOps` | a file is a byte sequence; no block has two owners; truncation frees exactly the file's blocks and reaches no panic |
| Buffer cache | `BufferCache` | a ring of all buffers in the order of release, one buffer for a block, the oldest is reused; through it a process on its own reads and writes the disk block by block; when a buffer can be trusted |
| mkfs | `Mkfs`, `MkfsOps` | the image read back through the kernel's index arithmetic is the host's file |
| Page tables (Sv39, section 4.4 of the RISC-V Privileged Architecture, version 20211203) | `PageTable`, `PageMap`, `PageRuns`, `PageWalk`, `PageOps`, `PageCases` | the three-level tree is a partial map; every operation changes exactly the pages it names; pages are conserved; a failed uvmalloc takes everything back |
| Line buffer of neatvi | `Lines`, `History`, `LbufOps` | the history is a zipper; undo and redo are inverse; an unmodified buffer is the saved text |
| Pipes | `Pipe`, `PipeOps` | bytes in order and none lost, and no lost wakeup, over all interleavings |
| virtio disk queue (section 2.4 of VIRTIO 1.0) | `Virtio`, `VirtioOps` | descriptors partition into free ones and chains, each request is finished once, over all interleavings and all orders of completion |
| ARM code generator of TinyCC (section A5.2.4 of DDI 0406C) | `ArmConst`, `ArmHarder`, `ArmJumps` | constants mean the same in every encoding chosen for them; jump lists are sound |
| build | `Build`, `BuildOps` | it ends on every graph and builds exactly what can be built |

`Counting` holds the pigeonhole principle that the ring of buffers and the free list of pages need.

How to read the contracts: a result that is `None`, `false` or `Panic` stands for a panic of the
kernel or the end of a program. A number that the C code keeps in 16, 32 or 64 bits is an `int`
that the model reduces where the code does (`WRAP`, `WORDS`, `WORD`), and a bit-vector in the ARM
part. Concurrent parts are step relations: on the one hart of MyOS a region between acquire and
release, or up to a sleep, is one step. The lemmas named `...Iff` give the exact condition where
the code falls short of what it is for.

Where the code falls short of its purpose:

- rnode_count does not allow for bounds that are reversed: `x{3,0}` emits three instructions into
  room for none. And it is an int: `(x{46341}){46341}` emits 2147580966 instructions into room for
  203899 (`RegexEmit.RoomSufficesIff`, `ReversedBoundsOverflow`, `LargeCountOverflows`).
- A repetition whose body can match the empty string may never end (`RegexMoves.StarDivergesIff`,
  `EmptyLoopDiverges`, `RegexCorrect.HaltsIff`).
- morecore passes the bytes it wants through a product that wraps around and an int, so a malloc of
  2^31 bytes or more links units that the process does not have (`AllocHeap.MorecoreKeepsIff`,
  `HugeRequests`); one of nearly 2^64 bytes returns a block without room (`UnitsSuffice`).
- bread marks a buffer valid before its bytes are there, so another process can be given the old
  ones (`BufferCache.TrustedIff`, `StaleRead`).
- ftruncate beyond the largest file fails, but only after the file has grown
  (`FsOps.OutgrownSameIff`, `OutgrownEmpty`).
- growproc by less than minus the size changes nothing and reports success
  (`PageOps.Paging.Growproc`).
- uvmcopy leaves its caller with the pages copied so far when memory runs out
  (`PageOps.NothingCopiedIff`, `PageCases.LeftBehind`).
- Lines without a newline at the end are not put back as they were by deleting and undoing
  (`Lines.SplitOfConcat`, `History.UndoRestoresIff`, `UndoJoinsLines`).
- An edit right after saving, without lbuf_tx in between, is not noticed by lbuf_modified
  (`History.EditSeenIff`, `EditAfterSaveUnseen`).
- A piperead that comes to an unmapped page behind bytes it has taken loses the writer's wakeup
  (`Pipe.StepKeepsIff`, `WakeupLost`).
- A second disk request for a buffer with one under way frees a chain that the device works on
  (`Virtio.SubmitKeepsIff`, `FreedInFlight`). Buffers have no lock of their own that would keep a
  caller from making one.
- The range check of encbranch lets branches of up to 64 MB pass, though the field reaches 32 MB
  (`ArmJumps.BranchRoundTripIff`, `FarBranchGoesAstray`).

## Model

| member | source | states |
|---|---|---|
| RegexTree.NumberIsPreorder | ports/neatvi/regex.c:539-549 | a numbering pass from num on gives the groups of any tree the consecutive numbers num, num + 1, ... in the order of their opening parentheses, so no two groups write one capture |
| RegexTree.NumberKeepsCount | ports/neatvi/regex.c:513-549 | numbering after counting leaves the counted instructions as they are, for every tree |
| RegexTree.CountIntIs | ports/neatvi/regex.c:513-537 | rnode_count, wrapped around to 32 bits at every node, is the unbounded count wrapped around once |
| RegexMatch.MatchWithin | ports/neatvi/regex.c:657-691 | every match in the priority-ordered list of a tree at p ends between p and the end of the text |
| RegexMatch.FirstOfBind | ports/neatvi/regex.c:559-573 | matching in two stages tries the same matches in the same order as trying, for each match of the first stage, the second stage and all that follows it |
| RegexMachine.StopsOnce | ports/neatvi/regex.c:657-691 | two runs of the machine from one state that both stop have the same outcome |
| RegexMachine.ApplyConcat | ports/neatvi/regex.c:149-159 | replaying a log is replaying its parts one after the other |
| RegexCorrect.Runs | ports/neatvi/regex.c:559-691 | for every tree, position and continuation, the code of the tree behaves as the first of its matches that what follows does not turn down; if the search comes to an iteration that did not move first, the code never stops |
| RegexCorrect.TailRuns | ports/neatvi/regex.c:599-691 | the same of the optional and the unbounded part of a repetition |
| RegexCorrect.KindRuns | ports/neatvi/regex.c:559-691 | the same of a node without its repetition |
| RegexCorrect.CopiesRun | ports/neatvi/regex.c:599-691 | the same of the mandatory copies |
| RegexCorrect.OptRuns | ports/neatvi/regex.c:601-691 | the same of the optional copies, each of which is left by one fork to the common end |
| RegexCorrect.StarRuns | ports/neatvi/regex.c:612-691 | the same of an unbounded repetition, also when its body can match the empty string |
| RegexCorrect.AltRuns | ports/neatvi/regex.c:562-691 | the same of an alternative: the right side only after every match of the left was turned down |
| RegexCorrect.CatRuns | ports/neatvi/regex.c:570-691 | the same of a sequence |
| RegexCorrect.GrpRuns | ports/neatvi/regex.c:574-691 | the same of a group, whose two marks belong to the match |
| RegexCorrect.ProgramCorrect | ports/neatvi/regex.c:621-691 | compiler correctness: on every tree, subject and start, the program ends with the position and captures of the tree's first match if there is one, fails if there is none, and runs forever if the search comes to a loop that does not move first |
| RegexCorrect.HaltsIff | ports/neatvi/regex.c:657-691 | re_rec comes to an end if and only if the search does not come to such a loop before a match or the end of the list |
| RegexCorrect.NeverLost | ports/neatvi/regex.c:587-691 | no run of a compiled program leaves it, whatever fork or jump it takes |
| RegexEmit.CountIsLenPlusSlack | ports/neatvi/regex.c:513-619 | for every tree the unbounded count is the number of instructions that rnode_emit emits plus Slack, a sum over the repetitions |
| RegexEmit.RoomSufficesIff | ports/neatvi/regex.c:513-644 | for every tree the array of regcomp, whose size is a 32-bit int, holds the program if and only if Slack makes up for the multiples of 2^32 that the size lost by wrapping around |
| RegexEmit.RoomOfSmall | ports/neatvi/regex.c:513-644 | as long as the count and the three instructions around it fit an int, the program fits if and only if Slack is not negative |
| RegexEmit.BoundsFitIsEnough | ports/neatvi/regex.c:513-619 | for every tree whose repetitions are unbounded or have min <= max, Slack is not negative, and the program fits if count + 3 is below 2^31 |
| RegexEmit.AtomFitsIff | ports/neatvi/regex.c:524-618 | for one repeated atom with any int bounds the room suffices if and only if count + 3 is below 2^31 and the repetition is unbounded or min <= 2 * max |
| RegexEmit.ReversedBoundsOverflow | ports/neatvi/regex.c:524-618 | the promise fails for reversed bounds: x{3,0} emits three instructions into room for none |
| RegexEmit.LargeCountOverflows | ports/neatvi/regex.c:513-644 | it fails for bounds in order, too: (x{46341}){46341} is a program of 2147580966 instructions in room for 203899 |
| RegexEmit.LargeCountMayFit | ports/neatvi/regex.c:513-644 | a count that wraps around may still be enough: (x{40000}){40000} fits |
| RegexEmit.Regex.Insert | ports/neatvi/regex.c:551-555 | one instruction is appended, and its index returned |
| RegexEmit.Regex.Patch | ports/neatvi/regex.c:566-617 | one emitted operand changes, and nothing else of the program |
| RegexEmit.Regex.EmitNoRep | ports/neatvi/regex.c:559-585 | what is appended is the code of the node without repetition, for every kind of node |
| RegexEmit.Regex.EmitAlt | ports/neatvi/regex.c:562-569 | fork, left side, jump and right side, with both operands patched to where they have to go |
| RegexEmit.Regex.EmitGrp | ports/neatvi/regex.c:574-580 | the code of the group between its two marks |
| RegexEmit.Regex.Emit | ports/neatvi/regex.c:587-619 | the program grows by exactly the code of the tree, at whatever place, and nothing before it changes |
| RegexEmit.Regex.EmitCopies | ports/neatvi/regex.c:599-600 | the mandatory copies |
| RegexEmit.Regex.EmitStar | ports/neatvi/regex.c:612-618 | fork, body and the jump back, with the fork patched to the end |
| RegexEmit.Regex.EmitOptional | ports/neatvi/regex.c:601-611 | the in-place list through the forks and its backpatching come to the same code as forks that go to the end |
| RegexEmit.Regex.SendToEnd | ports/neatvi/regex.c:607-611 | the second loop follows the list from the last fork to the first and patches each |
| RegexEmit.RegComp | ports/neatvi/regex.c:621-644 | from the parsed tree on: the program is mark 0, the code of the numbered tree, mark 1, match, in an array of as many places as the int says, for every tree for which these suffice |
| RegexMoves.MatchMoves | ports/neatvi/regex.c:587-691 | a tree that cannot match the empty string only has matches that move on |
| RegexMoves.LoopsThatMoveEnd | ports/neatvi/regex.c:587-691 | if the body of every unbounded repetition uses up text, the list of matches is finite at every position, so that with HaltsIff re_rec ends on every subject |
| RegexMoves.LoopsThatMoveReturn | ports/neatvi/regex.c:621-725 | so regexec returns for every such pattern, as regcomp numbers it, at every start of every subject |
| RegexMoves.StarDivergesIff | ports/neatvi/regex.c:612-691 | an unbounded repetition runs forever at a position if and only if the first choices of its body, iteration after iteration, come to one that does not move |
| RegexMoves.EmptyLoopDiverges | ports/neatvi/regex.c:612-691 | without that it may run forever: ()* does, at every position of every subject |
| RegexExec.RState.constructor | ports/neatvi/regex.c:75-87 | no updates, no choices, and room for 128 of each |
| RegexExec.RState.Push | ports/neatvi/regex.c:97-115 | the abstract stack grows by a choice that stands for the whole capture array, though only the length of the log is stored, also when the array is doubled |
| RegexExec.RState.Pop | ports/neatvi/regex.c:117-126 | cutting the log gives back the captures that a copy of the whole array would have given |
| RegexExec.RState.MarkHere | ports/neatvi/regex.c:128-147 | one capture is set, when the caller asked for it |
| RegexExec.RState.Turn | ports/neatvi/regex.c:660-689 | one turn of the loop is one step of the machine that copies all captures at each fork |
| RegexExec.RState.ReRec | ports/neatvi/regex.c:657-691 | a run of re_rec ends as the plain machine does, with the same position and captures |
| RegexExec.RState.RecMatch | ports/neatvi/regex.c:693-701 | a fresh run succeeds exactly when the tree has a match at the position, with the position and captures of the first |
| RegexExec.RState.Marks | ports/neatvi/regex.c:149-159 | replaying the log into an array yields the captures |
| RegexExec.RegExec | ports/neatvi/regex.c:703-725 | regexec reports the first start, from the left, where the pattern has a match, with the first match of it, and fails exactly when no start has one |
| RegexExec.TryStart | ports/neatvi/regex.c:714-722 | one start: reported if and only if the tree has a match there |
| RegexExec.Clear | ports/neatvi/regex.c:710-713 | all captures are -1 |
| RegexExec.StartsAll | ports/neatvi/regex.c:714-716 | without REG_EOLSTOP the starts are every character of a subject that is not empty, and the end of the text |
| Alloc.InsertKeeps | ports/myos/libc.c:1047-1066 | linking a block into its gap keeps the ring linked and address-ordered, and the other gaps open |
| Alloc.JoinKeeps | ports/myos/libc.c:1047-1061 | joining two touching neighbours keeps it, with the other gaps open |
| Alloc.FreeMemIsFreed | ports/myos/libc.c:1047-1065 | the two case distinctions of free write exactly what inserting and then joining on both sides writes |
| Alloc.FreedKeepsRing | ports/myos/libc.c:1041-1065 | so after free the list is one address-ordered ring through base without overlapping or adjacent blocks |
| Alloc.FreedKeepsOwned | ports/myos/libc.c:1041-1066 | and free and live blocks partition the same units as before, the freed block no longer live |
| Alloc.TakeKeeps | ports/myos/libc.c:1087-1100 | unlinking a block of exact size keeps ring and partition |
| Alloc.SplitKeeps | ports/myos/libc.c:1093-1100 | cutting the tail off a larger block keeps ring and partition, the tail being a new live block |
| Alloc.GrowKeepsRing | ports/myos/libc.c:1016-1022 | the units of a new sbrk lie behind the ring, so the new header does not disturb it |
| Alloc.GrowKeepsOwned | ports/myos/libc.c:1016-1022 | and become one live block of their own |
| AllocHeap.UnitsSuffice | ports/myos/libc.c:1075-1077 | the sum in malloc does not wrap, so that the units it looks for hold the request, if and only if nbytes is at most 2^64 - 16 |
| AllocHeap.IncrementIsIff | ports/myos/libc.c:1016 | the product wraps around at 64 bits and the kernel keeps 32 of them, so the break moves by the units asked for if and only if these are fewer than 2^31 bytes |
| AllocHeap.MorecoreKeepsIff | ports/myos/libc.c:1008-1024 | with the block that morecore links, free and live blocks still partition the units of the process if and only if the chunk is of fewer than 2^31 bytes |
| AllocHeap.HugeRequests | ports/myos/libc.c:1016-1022 | malloc(2^32) gets one unit for a block of 2^28 + 1, and malloc(2^64 - 16) gets none for one of 2^60 |
| AllocHeap.Heap.constructor | ports/myos/libc.c:1005-1006 | no block yet |
| AllocHeap.Heap.Sbrk | ports/myos/libc.c:1016-1018 | the break moves by what an int keeps of the bytes, also back; none exactly when memory is used up |
| AllocHeap.Heap.Init | ports/myos/libc.c:1034-1038 | base alone is a ring |
| AllocHeap.Heap.FindPlace | ports/myos/libc.c:1041-1045 | the search from the roving pointer ends, at the gap the block belongs in, for every live block |
| AllocHeap.Heap.Link | ports/myos/libc.c:1047-1065 | the header writes of free |
| AllocHeap.Heap.FreeBlock | ports/myos/libc.c:1040-1066 | exactly this block stops being live, and no live block loses a unit |
| AllocHeap.Heap.Free | ports/myos/libc.c:1026-1067 | the same from a pointer, a null pointer doing nothing |
| AllocHeap.Heap.Morecore | ports/myos/libc.c:1008-1024 | at least 1024 units join the heap and no live block changes; null exactly when sbrk has none; it links units that it was not given exactly for chunks of 2^31 bytes and more |
| AllocHeap.Heap.LinkFresh | ports/myos/libc.c:1020-1023 | units that are the process's own become one free block |
| AllocHeap.Heap.FindFit | ports/myos/libc.c:1085-1109 | one round finds a block that is large enough if and only if there is one |
| AllocHeap.Heap.Take | ports/myos/libc.c:1087-1100 | the block taken is new, of exactly the size, and everything else stays |
| AllocHeap.Heap.Malloc | ports/myos/libc.c:1069-1110 | for every request malloc ends with at most one morecore; it breaks the heap exactly if no block fits, sbrk succeeds and the chunk is of 2^31 bytes or more; else it returns null exactly if no block fits and sbrk has no more, and otherwise a block that was not live, of exactly the units, with all units from sbrk still partitioned |
| AllocHeap.Heap.Store | ports/myos/libc.c:1026-1110 | writing inside a live block, behind its header, harms no list |
| AllocHeap.Heap.Copy | ports/myos/libc.c:1143 | the new block begins with the contents of the old one |
| AllocHeap.Heap.Fetch | ports/myos/libc.c:1140-1143 | a new block with the old contents in it; null exactly as malloc, and an overrun exactly if the request wrapped and there was something to copy |
| AllocHeap.Heap.Move | ports/myos/libc.c:1140-1145 | the old contents move to the new block, and the old block is no longer live; null exactly as malloc |
| AllocHeap.Heap.Realloc | ports/myos/libc.c:1121-1146 | every case of realloc, for every request: the contents survive, exactly the one block is replaced, no other live block changes, the result has the room if the sum did not wrap; null and failure exactly as malloc and the copy |
| FsBlock.WordOfSetWord | kernel/fs/fs.c:95-101 | an index entry that was stored is read back, and no other entry of the block changes |
| FsBlock.BitOfFlip | kernel/fs/bio.c:212-220 | setting or clearing a bit changes that bit alone |
| FsMap.HeldOnce | kernel/fs/fs.c:65-150 | no block is held by two slots, of one file or of two |
| FsMap.UsedOfFlip | kernel/fs/bio.c:212-260 | the bit of one block changes, across all bitmap blocks |
| FsMap.PlugMapped | kernel/fs/fs.c:72-101 | putting a fresh zeroed block into an empty slot keeps the map: every held block has one slot, is a data block and has its bit set |
| FsMap.WriteMapped | kernel/fs/fs.c:244-262 | so does a write that leaves index blocks and bitmap alone |
| FsFile.DinodeOfSet | kernel/fs/fs.c:314-440 | an inode that was written is read back, and the other 15 of its block are not touched |
| FsFile.DataSlotOnce | kernel/fs/fs.c:65-150 | bmap's arithmetic sends different blocks of files to different slots |
| FsExtend.FillExtends | kernel/fs/fs.c:72-104 | allocating a block and putting it into a slot loses no block and changes no byte of any file |
| FsExtend.ExtendsContent | kernel/fs/fs.c:65-150 | after bmap every file with all its blocks has the contents it had |
| FsWrite.DataWrite | kernel/fs/fs.c:244-262 | writing a data block keeps the map |
| FsWrite.ProgressWrite | kernel/fs/fs.c:244-262 | one turn of the loop brings the next bytes of src to their place and touches no other byte of any file |
| FsWrite.WriteDone | kernel/fs/fs.c:244-274 | after the loop and the new size the file is the old one overwritten by src at off, and every other file is as it was |
| FsWrite.WrittenGap | kernel/fs/fs.c:228-242 | writing the zeros of a gap first and then src gives the file that writing src behind the end promises |
| FsWrite.MetaWrite | kernel/fs/fs.c:424-440 | a block in front of the bitmap may change without any file noticing |
| FsWrite.InodeSaved | kernel/fs/fs.c:424-440 | after iupdate the disk agrees with the inode |
| FsTrunc.TruncStep | kernel/fs/fs.c:357-405 | one turn of any of the loops of itrunc clears exactly one bit, if the slot holds a block |
| FsTrunc.NotYetFree | kernel/fs/fs.c:357-405 | the block whose turn it is still has its bit set, so bfree cannot come to its panic |
| FsTrunc.TruncDone | kernel/fs/fs.c:353-409 | at the end no slot of the file holds anything, and the map of all other files is as it was |
| FsTrunc.TruncFiles | kernel/fs/fs.c:353-409 | exactly the bits of the file's own blocks were cleared, and no other file has changed |
| FsInodes.FreeStaysEmpty | kernel/fs/fs.c:411-459 | writes, truncation and growth of a file whose inode is not free keep free inodes without blocks |
| FsInodes.RelabelledFiles | kernel/fs/fs.c:417-453 | changing type and links changes no map and no contents |
| FsInodes.NewInodeSaved | kernel/fs/fs.c:446-456 | the dinode that ialloc writes is the one its inode has in memory, and no file notices |
| FsOps.FileSystem.constructor | kernel/fs/fs.c:646-659 | a mounted image whose map is sound, with inodes as they are on disk |
| FsOps.FileSystem.Balloc | kernel/fs/bio.c:189-233 | the lowest clear bit below the size is set and its block zeroed; none exactly when every bit is set. The block was in no file |
| FsOps.FileSystem.Take | kernel/fs/bio.c:212-224 | the bit is set, the block is zero, and nothing else changes |
| FsOps.FileSystem.Bfree | kernel/fs/bio.c:243-266 | exactly one bit is cleared |
| FsOps.FileSystem.FillAddr | kernel/fs/fs.c:67-80 | an address of the inode is there afterwards, unchanged if it was, and no file lost a byte |
| FsOps.FileSystem.FillEntry | kernel/fs/fs.c:84-104 | the same of an entry of an index block, though it is written back from a copy made before balloc |
| FsOps.FileSystem.BmapIndirect | kernel/fs/fs.c:84-106 | the same through the indirect block |
| FsOps.FileSystem.BmapDouble | kernel/fs/fs.c:108-148 | the same through both levels |
| FsOps.FileSystem.Bmap | kernel/fs/fs.c:65-150 | bmap yields the one block in the slot of bn, allocates at most what is missing, changes nothing when the block is there, and gives up only with every bit set |
| FsOps.FileSystem.Readi | kernel/fs/fs.c:172-216 | readi changes nothing and stores the bytes of the file in [off, off + n) cut at its end, as far as the destination is there; it returns how many, or those of whole blocks when copyout fails; none behind the end and none when off + n wraps |
| FsOps.ToldStored | kernel/fs/fs.c:183-215 | readi returns no more than it has stored, and all bytes exactly if there was room for all |
| FsOps.FileSystem.ReadPiece | kernel/fs/fs.c:183-214 | the bytes of one turn are those of the file |
| FsOps.FileSystem.WritePiece | kernel/fs/fs.c:244-262 | one turn of the loop |
| FsOps.FileSystem.WriteRange | kernel/fs/fs.c:244-262 | the whole loop, with the size not yet written |
| FsOps.FileSystem.WriteTail | kernel/fs/fs.c:244-274 | a write that starts in the file or at its end |
| FsOps.FileSystem.SaveSize | kernel/fs/fs.c:264-272 | the new size reaches the disk |
| FsOps.FileSystem.FillGap | kernel/fs/fs.c:228-242 | the file grows to off with zeros |
| FsOps.FileSystem.Writei | kernel/fs/fs.c:218-275 | writei overwrites [off, off + n), zero-fills a gap above the old size, returns n or -1 exactly for a write that would pass the largest file, keeps every other file, and panics only with every bit set |
| FsOps.FileSystem.Iupdate | kernel/fs/fs.c:424-440 | all inodes in memory are on disk again, and no file has changed |
| FsOps.FileSystem.Ilock | kernel/fs/fs.c:312-344 | what is read from the disk is the inode that memory has; the panic exactly for a free one |
| FsOps.FileSystem.FreeSlot | kernel/fs/fs.c:357-405 | the block of one slot is freed if there is one |
| FsOps.FileSystem.FreeEntries | kernel/fs/fs.c:372-396 | the blocks of all entries of an index block are freed |
| FsOps.FileSystem.TruncDirect | kernel/fs/fs.c:358-365 | the direct blocks are freed and their addresses cleared |
| FsOps.FileSystem.TruncIndirect | kernel/fs/fs.c:367-380 | the blocks under the indirect block are freed, and then that block |
| FsOps.FileSystem.TruncSecond | kernel/fs/fs.c:387-399 | the blocks under one second-level index block, and then that block |
| FsOps.FileSystem.TruncDouble | kernel/fs/fs.c:382-405 | the blocks under the doubly indirect block, and then that block |
| FsOps.FileSystem.Itrunc | kernel/fs/fs.c:353-409 | the file is empty; exactly the bits of its blocks, index blocks included, are cleared; every other file is as it was, and the map of the other files is what is left |
| FsOps.FileSystem.Iput | kernel/fs/fs.c:411-422 | the last reference to a loaded inode without links gives back its blocks and its inode; otherwise nothing but the count changes |
| FsOps.FileSystem.Release | kernel/fs/fs.c:415-420 | the blocks are free, the inode is free and empty, in memory and on disk |
| FsOps.FileSystem.Ialloc | kernel/fs/fs.c:442-459 | the lowest free inode but 0 becomes an empty one of the type; the panics exactly when there is none or no slot in memory; no file changes |
| FsOps.ReleasedEmpty | kernel/fs/fs.c:411-422 | iput keeps free inodes without blocks |
| FsOps.FileSystem.Ftruncate | kernel/syscall/sysproc.c:1257-1306 | from the locked inode on: the file is cut or zero-extended to the length, the offset clipped; -1 exactly for other types, which stay as they are, and for lengths beyond the largest file, behind as many whole 128 zeros as it has room for |
| FsOps.FileSystem.Shrink | kernel/syscall/sysproc.c:1297-1301 | the file is cut, and its blocks stay mapped |
| FsOps.FileSystem.Extend | kernel/syscall/sysproc.c:1281-1296 | the file is extended by zeros, also over blocks left behind by a shrink; when the length is too large it keeps all whole parts of 128 |
| FsOps.OutgrownSameIff | kernel/syscall/sysproc.c:1281-1296 | a failed ftruncate leaves a file as it was if and only if less than 128 bytes are missing to the largest file |
| FsOps.OutgrownEmpty | kernel/syscall/sysproc.c:1281-1296 | a failed ftruncate of an empty file leaves the largest file |
| FsOps.ShrinkThenGrow | kernel/syscall/sysproc.c:1257-1306 | a file that shrank and grew again has its first bytes and then only zeros |
| PageTable.LoadOfSave | kernel/mm/vm.c:49-78 | an entry that was stored is read back, and no other entry of the page changes |
| PageTable.PteFields | kernel/mm/vm.c:108-118 | an entry made of a page number and flags gives both back, with the valid bit |
| PageTable.PxOnce | kernel/mm/vm.c:49-78 | the three indexes of a page below MAXVA determine it |
| PageTable.StoreWord | kernel/mm/vm.c:92-374 | storing an entry changes what is read at that place alone, in all trees |
| PageTable.StoreTree | kernel/mm/vm.c:92-374 | and leaves an unshared tree, if the new entry names no page that another names |
| PageMap.AllocKeeps | kernel/mm/kalloc.c:102-110 | taking the first page of the free list leaves it in hand, in no tree and not free |
| PageMap.FreeKeeps | kernel/mm/kalloc.c:70-90 | giving a page in hand back keeps trees and translations, and all pages are conserved |
| PageMap.TableStep | kernel/mm/vm.c:58-72 | hanging a zeroed page into an empty entry changes no translation |
| PageMap.LeafStep | kernel/mm/vm.c:108-372 | writing a leaf entry changes the one translation and no other |
| PageMap.LeafGone | kernel/mm/vm.c:350-372 | a page whose leaf entry was cleared is in no other place |
| PageMap.ShrunkPages | kernel/mm/vm.c:341-374 | pages freed by an unmapping are conserved |
| PageRuns.MapStep | kernel/mm/vm.c:92-122 | one turn of mappages adds one page to the mapped range |
| PageRuns.FreeStep | kernel/mm/vm.c:341-374 | one turn of uvmunmap with freeing removes one page and puts it on the free list |
| PageRuns.KeepStep | kernel/mm/vm.c:341-374 | one turn without freeing leaves the page to the caller |
| PageRuns.FillStep | kernel/mm/vm.c:489-522 | one turn of uvmalloc adds one zeroed page that no one else had |
| PageRuns.FillUndone | kernel/mm/vm.c:505-519 | unmapping what was mapped so far leaves every translation as before uvmalloc and every page of contents with kalloc again |
| PageRuns.CopyStep | kernel/mm/vm.c:238-282 | one turn of uvmcopy gives the child an own page with the same bytes and the same flags |
| PageWalk.WalkStep | kernel/mm/vm.c:379-402 | one turn of freewalk gives back the table of one branch |
| PageWalk.LastStep | kernel/mm/vm.c:379-402 | after the last the table is empty, and its subtree was these branches and itself |
| PageWalk.FreeTable | kernel/mm/vm.c:379-402 | it may be freed before the entry that names it is cleared |
| PageWalk.PokesRead | kernel/mm/vm.c:211-236 | through distinct pages all bytes of the source are read back at their addresses |
| PageWalk.PokesElse | kernel/mm/vm.c:211-236 | every byte that is not at such an address is as it was |
| PageWalk.PokesData | kernel/mm/vm.c:211-236 | no table and no free page is written |
| PageOps.Paging.Kinit | kernel/mm/kalloc.c:42-54 | every page from the first on is free, and on the list once |
| PageOps.Paging.Kalloc | kernel/mm/kalloc.c:102-110 | the head of the list, 0 exactly when it is empty |
| PageOps.Paging.Kfree | kernel/mm/kalloc.c:70-90 | the page is the new head; the panic exactly outside of kalloc's memory |
| PageOps.Paging.NewSpace | kernel/mm/vm.c:303-311 | a new root without translations, from the free list |
| PageOps.Paging.Walk | kernel/mm/vm.c:49-78 | walk finds the place of the page's entry, or that there is none; with alloc it takes at most two free pages, none if the tables are there, and gives up only when they run out; no translation changes; the panic exactly from MAXVA on |
| PageOps.Paging.Mappages | kernel/mm/vm.c:92-122 | exactly the pages of [va, va + size) are mapped to the pages from pa on with the flags, and all other translations stay; when the free pages run out, of which there were fewer than two a page, the first k are mapped; the panic only for size 0 or a page already mapped or beyond MAXVA |
| PageOps.Paging.Uvmunmap | kernel/mm/vm.c:341-374 | exactly n pages are unmapped and, if asked, freed; all else stays; the panic exactly if one of them is not mapped or va is not aligned |
| PageOps.Paging.Uvmdealloc | kernel/mm/vm.c:469-486 | exactly the pages between the two rounded sizes are unmapped and freed |
| PageOps.Paging.Uvmalloc | kernel/mm/vm.c:489-522 | exactly the pages between the two rounded sizes are mapped, to zeroed pages that were free; it fails only with fewer than three free pages for each, and then every translation is as before and every page of contents is free again |
| PageOps.Paging.Uvmcopy | kernel/mm/vm.c:238-282 | the new space gets copies, byte by byte, of exactly the mapped pages below k, with their flags, in pages that were free; it fails only at a mapped page, with no free page left or one and no table; with all tables there it takes one free page for each copy |
| PageOps.Paging.CopyPage | kernel/mm/vm.c:264-277 | the turn for one mapped page |
| PageOps.NothingCopiedIff | kernel/mm/vm.c:238-282 | a uvmcopy that fails at page k leaves the new space as it was if and only if the old one maps no page below k |
| PageOps.Paging.Copyout | kernel/mm/vm.c:211-236 | exactly the bytes up to the first address that the user may not reach are stored, and translations stay |
| PageOps.Paging.Freewalk | kernel/mm/vm.c:379-402 | all table pages below are freed, and no other; the panic exactly if a leaf is left |
| PageOps.Paging.Growproc | kernel/proc/proc.c:328-351 | the size grows or shrinks with the mapped pages, and stays after a failure, which takes fewer than three free pages a page; a shrink by more than the size changes nothing and is reported as a success |
| Lines.ConcatOfSplit | ports/neatvi/lbuf.c:130-188 | splitting a text into lines loses nothing |
| Lines.SplitOfConcat | ports/neatvi/lbuf.c:178-213 | lines copied out and split again are the same lines if and only if all but the last end with a newline |
| Lines.SpliceBackIff | ports/neatvi/lbuf.c:146-201 | lines put in place of others are undone by putting lines in their place if and only if these are the old ones |
| History.PastIsPlayed | ports/neatvi/lbuf.c:146-393 | the zipper: the text before each entry of the history is the base text with the entries below applied, and so the text is the base text with hist[0..hist_u) applied |
| History.EditKeepsIff | ports/neatvi/lbuf.c:216-273 | every edit, of any text, merged or not, keeps that and truncates what could be redone if and only if all but the last of the lines it deletes end with a newline, or it is merged |
| History.WholeRestorable | ports/neatvi/lbuf.c:216-273 | that is so for every edit of a buffer of whole lines, and inserted text that ends with a newline leaves it one |
| History.MergeKeeps | ports/neatvi/lbuf.c:225-236 | an edit merged into the last entry leads from before that entry to the new text |
| History.UndoRestoresIff | ports/neatvi/lbuf.c:146-379 | undoing an edit restores the text if and only if all but the last of the deleted lines end with a newline |
| History.UndoJoinsLines | ports/neatvi/lbuf.c:203-379 | a file without a final newline, a line appended to it, and both lines deleted: undo makes one line of them |
| History.UnendedLines | ports/neatvi/lbuf.c:146-188 | such a buffer comes of reading and appending |
| History.UndoKeeps | ports/neatvi/lbuf.c:365-379 | undo goes back to where the last change set begins, and its text |
| History.RedoKeeps | ports/neatvi/lbuf.c:381-393 | redo goes to where the next change set ends, and its text |
| History.RedoOfUndo | ports/neatvi/lbuf.c:365-393 | redo after undo is the same buffer but for marks |
| History.UndoOfRedo | ports/neatvi/lbuf.c:365-393 | undo after redo is the same buffer but for marks |
| History.SameSetEdit | ports/neatvi/lbuf.c:216-273 | an edit in a change set stays one change set with the edits before it |
| History.UndoOfSet | ports/neatvi/lbuf.c:216-379 | one undo after any number of edits in a new change set restores the text before them |
| History.UndoRestoresMarks | ports/neatvi/lbuf.c:191-377 | undoing an edit puts every mark that a user can set back, on deleted lines, too |
| History.MergeKeepsMarks | ports/neatvi/lbuf.c:225-377 | and undoing a merged edit does to marks what undoing the first did |
| History.MarkFollowsLine | ports/neatvi/lbuf.c:191-198 | a mark on a line that an edit does not replace stays on that line |
| History.StepKeeps | ports/neatvi/lbuf.c:146-425 | every edit that can be restored, undo, redo, save and new change set keeps the invariant |
| History.UnmodifiedIsSaved | ports/neatvi/lbuf.c:395-425 | after any run with lbuf_tx between saving and editing, a buffer that is not modified has the text that was saved last |
| History.EditSeenIff | ports/neatvi/lbuf.c:216-419 | an edit is seen by lbuf_modified if and only if its change set is not that of the saved state |
| History.EditAfterSaveUnseen | ports/neatvi/lbuf.c:216-419 | without lbuf_tx, an edit right after saving goes unnoticed |
| LbufOps.Lbuf.constructor | ports/neatvi/lbuf.c:39-48 | an empty buffer satisfies the invariant |
| LbufOps.Lbuf.LineCount | ports/neatvi/lbuf.c:136-143 | the number of lines a text is split into |
| LbufOps.Lbuf.ReplaceLines | ports/neatvi/lbuf.c:146-201 | exactly n_del lines at pos are replaced by the lines of s, in two arrays, and the marks move with them |
| LbufOps.Lbuf.MoveAll | ports/neatvi/lbuf.c:191-198 | the marks after a replacement |
| LbufOps.Lbuf.Copy | ports/neatvi/lbuf.c:203-213 | the recorded bytes of the lines, cut at the end of the buffer |
| LbufOps.Lbuf.SaveMarks | ports/neatvi/lbuf.c:58-260 | the marks on the deleted lines are kept |
| LbufOps.Lbuf.OptEdit | ports/neatvi/lbuf.c:216-261 | the history after recording: truncated, then merged or longer by one |
| LbufOps.Lbuf.EditRaw | ports/neatvi/lbuf.c:263-273 | lbuf_editraw, with both ends clipped, for any text; the buffer stays sound exactly if the edit can be restored |
| LbufOps.Lbuf.Undo | ports/neatvi/lbuf.c:365-379 | failure exactly at the begin of the history, and otherwise the undone buffer |
| LbufOps.Lbuf.LoadAll | ports/neatvi/lbuf.c:71-376 | the marks an entry has kept are back |
| LbufOps.Lbuf.Redo | ports/neatvi/lbuf.c:381-393 | failure exactly at the end of the history, and otherwise the redone buffer |
| LbufOps.Lbuf.Seq | ports/neatvi/lbuf.c:395-398 | the number of the change set the text is at |
| LbufOps.Lbuf.MarkSaved | ports/neatvi/lbuf.c:401-413 | the saved state is this one, with the history cleared if asked |
| LbufOps.Lbuf.IsModified | ports/neatvi/lbuf.c:416-419 | whether the text is at another change set than when saved |
| LbufOps.Lbuf.Tx | ports/neatvi/lbuf.c:422-425 | later edits belong to a new change set |
| Pipe.CountIs | kernel/syscall/sysfile.c:336-412 | the 32-bit difference of the counters is the number of bytes in the ring, also after they have wrapped |
| Pipe.StepRing | kernel/syscall/sysfile.c:311-447 | in every step bytes are delivered in the order of acceptance, none is lost, and at most 512 are in between |
| Pipe.WriteLogs | kernel/syscall/sysfile.c:311-359 | a writer's bytes are accepted in their order, before and after every sleep; a write that returns its length was accepted whole |
| Pipe.StepKeepsIff | kernel/syscall/sysfile.c:311-447 | whoever makes a step, and killing, closing and waking included, it leaves every sleeper justified if and only if it is not a read that fails on an unmapped page behind bytes it has taken |
| Pipe.ReadKeepsIff | kernel/syscall/sysfile.c:361-420 | the same of a read, as a condition on the ring and the reader's pages |
| Pipe.RunKeeps | kernel/syscall/sysfile.c:311-447 | so no interleaving of readers, writers, closers and kills with mapped destinations loses a wakeup or a byte |
| Pipe.StartInv | kernel/syscall/sysfile.c:311-447 | a new pipe satisfies the invariant |
| Pipe.NeverStuck | kernel/syscall/sysfile.c:311-447 | a reader and a writer never sleep on one pipe at the same time, and nobody sleeps on it when both ends are closed |
| Pipe.ZeroIsEnd | kernel/syscall/sysfile.c:361-420 | a read of at least one byte returns 0 only if the write end is closed and every accepted byte was delivered |
| Pipe.ReadDelivers | kernel/syscall/sysfile.c:361-420 | a read that does not fail returns min(n, bytes in the ring), and delivers exactly the next bytes in order |
| Pipe.WakeupLost | kernel/syscall/sysfile.c:401-405 | the lost wakeup: a full pipe, a writer asleep, and a reader whose second byte has no page |
| PipeOps.Kernel.constructor | kernel/syscall/sysfile.c:311-447 | a new pipe, with nobody asleep on it |
| PipeOps.Kernel.Wakeup | kernel/proc/proc.c:311-326 | exactly the others that sleep on the channel may run |
| PipeOps.Kernel.PipeWrite | kernel/syscall/sysfile.c:311-359 | the loop does what the step of the protocol does, from any byte on |
| PipeOps.Kernel.PipeRead | kernel/syscall/sysfile.c:361-420 | the loops do what the step of the protocol does, and the bytes delivered are those stored, from the first place of the destination on |
| PipeOps.Kernel.PipeClose | kernel/syscall/sysfile.c:422-447 | an end is closed and exactly the other side's sleepers are woken |
| PipeOps.Kernel.RunOn | kernel/syscall/sysfile.c:339-390 | what follows sleep: killed, or back into the loop |
| Virtio.StartInv | kernel/driver/virtio_disk.c:51-125 | the queue as initialised satisfies the invariant |
| Virtio.SectorOnceIff | kernel/driver/virtio_disk.c:188 | two buffers name the same block of the disk if and only if their numbers agree in 31 bits |
| Virtio.SubmitKeepsIff | kernel/driver/virtio_disk.c:186-234 | a request keeps everything in order if and only if no other is under way for its buffer |
| Virtio.TakeKeeps | kernel/driver/virtio_disk.c:227-232 | the device takes the requests in order, also after the 16-bit indexes have wrapped |
| Virtio.ServeIs | kernel/driver/virtio_disk.c:203-225 | serving a request moves the block its process asked for between the disk and that process's buffer, in the right direction, and touches nothing else |
| Virtio.CompleteKeeps | kernel/driver/virtio_disk.c:255-284 | the device may complete any of the requests it has, in any order |
| Virtio.IntrKeeps | kernel/driver/virtio_disk.c:256-287 | one turn of the interrupt clears the flag of the finished request's buffer and of no other; it panics if and only if the device reported an error |
| Virtio.FreeChainIs | kernel/driver/virtio_disk.c:155-183 | free_chain frees exactly the three descriptors of the request and reaches no panic |
| Virtio.ReleaseKeeps | kernel/driver/virtio_disk.c:236-252 | who finds the flag of its buffer clear has its request finished, and its chain is not reused before |
| Virtio.StepKeeps | kernel/driver/virtio_disk.c:127-287 | every step of any process, the device or the interrupt, other than a second request for one buffer or a request that the device could not serve, keeps the invariant, and none panics |
| Virtio.RunKeeps | kernel/driver/virtio_disk.c:127-287 | in every state of every such run the descriptors are free ones and disjoint chains, the rings agree, and nobody sleeps for nothing |
| Virtio.FreedInFlight | kernel/driver/virtio_disk.c:236-252 | from the initial queue: two processes ask for one buffer, the device takes both and completes the first, and behind the interrupt the process of the second frees a chain that the device still works on |
| VirtioOps.Disk.constructor | kernel/driver/virtio_disk.c:118-120 | all descriptors are free and the invariant holds |
| VirtioOps.Disk.Alloc3Desc | kernel/driver/virtio_disk.c:127-152 | the three lowest free descriptors, or none and all as before |
| VirtioOps.Disk.TakeOne | kernel/driver/virtio_disk.c:133-142 | the lowest free descriptor is taken |
| VirtioOps.Disk.PutBack | kernel/driver/virtio_disk.c:143-149 | the descriptors taken are given back |
| VirtioOps.Disk.FreeOne | kernel/driver/virtio_disk.c:155-168 | one descriptor is cleared and free, the waiting are woken; the two panics |
| VirtioOps.Disk.FreeAll | kernel/driver/virtio_disk.c:170-183 | the chain is followed by its flags and freed |
| VirtioOps.Disk.DiskRw | kernel/driver/virtio_disk.c:186-253 | up to a sleep, it does what the step of the protocol does |
| VirtioOps.Disk.Fill | kernel/driver/virtio_disk.c:200-225 | header, three linked descriptors and the flag |
| VirtioOps.Disk.IntrTurn | kernel/driver/virtio_disk.c:265-284 | one completed request is finished |
| VirtioOps.Disk.Intr | kernel/driver/virtio_disk.c:256-287 | the loop ends, with every completed request finished; it panics only for an error that the device reported |
| ArmConst.EncodedMeans | ports/tinycc/arm-gen.c:300-306 | an immediate field made from a constant within a rotated byte gives an instruction that computes with exactly that constant |
| ArmConst.NegatedMeans | ports/tinycc/arm-gen.c:268-291 | the opposite operation with the opposite constant leaves the same value in the register |
| ArmConst.OnesMean | ports/tinycc/arm-gen.c:280-295 | the instructions chosen for the constant with all bits set leave the same value |
| ArmConst.TryRotations | ports/tinycc/arm-gen.c:297-309 | a rotation is found if and only if the constant fits one, and then the instruction means the operation |
| ArmConst.StuffConst | ports/tinycc/arm-gen.c:261-311 | for every 32-bit constant a result that is not zero computes the same register value as the operation with the constant; it is zero exactly if neither the constant nor its opposite fits a rotation and no special case applies |
| ArmHarder.PartsAdd | ports/tinycc/arm-gen.c:324-331 | one instruction from rn to rd and the others from rd to rd add up to the sum of their parts |
| ArmHarder.FlippedAdds | ports/tinycc/arm-gen.c:334-343 | subtracting the parts of the negated constant is adding the constant |
| ArmHarder.WindowsApart | ports/tinycc/arm-gen.c:323-329 | windows at least four steps apart around the circle share no bit |
| ArmHarder.TwoParts | ports/tinycc/arm-gen.c:329-333 | a constant inside two such windows is the sum of its parts |
| ArmHarder.FourParts | ports/tinycc/arm-gen.c:364-367 | every constant is the sum of its four bytes |
| ArmHarder.CodeGen.Part | ports/tinycc/arm-gen.c:330-367 | the part of a constant inside a window always fits one instruction |
| ArmHarder.CodeGen.TryTwo | ports/tinycc/arm-gen.c:327-343 | two instructions do the operation, or nothing was emitted |
| ArmHarder.CodeGen.TryThree | ports/tinycc/arm-gen.c:344-363 | three do, or nothing was emitted |
| ArmHarder.CodeGen.Four | ports/tinycc/arm-gen.c:364-367 | four do, for every constant |
| ArmHarder.CodeGen.StuffConstHarder | ports/tinycc/arm-gen.c:315-369 | for every constant at most four instructions are appended, and running them leaves rd = rn + v, or rn - v, modulo 2^32 |
| ArmJumps.BranchRoundTripIff | ports/tinycc/arm-gen.c:371-391 | decbranch gives back what encbranch stored if and only if the word offset fits 24 bits with sign |
| ArmJumps.FarBranchGoesAstray | ports/tinycc/arm-gen.c:375-380 | the check of encbranch is twice too wide: a branch 32 MB ahead passes it and goes back |
| ArmJumps.ListDistinct | ports/tinycc/arm-gen.c:383-1596 | a list threaded through offset fields has no cycle |
| ArmJumps.ListOnce | ports/tinycc/arm-gen.c:383-391 | and no two readings |
| ArmJumps.ListJoin | ports/tinycc/arm-gen.c:1586-1593 | patching the end of one list with the head of another makes their concatenation |
| ArmJumps.PatchedGoesIff | ports/tinycc/arm-gen.c:394-408 | a patched branch goes to its target, under the condition it had, if and only if the target is the next instruction or near |
| ArmJumps.CodeBuffer.Gjmp | ports/tinycc/arm-gen.c:1553-1561 | the new branch leads the list that was given, if that is near; when no code is wanted the list stays |
| ArmJumps.CodeBuffer.GjmpAppend | ports/tinycc/arm-gen.c:1581-1596 | one word changes, and the two lists are joined if and only if the second is near the end of the first |
| ArmJumps.CodeBuffer.GsymAddr | ports/tinycc/arm-gen.c:394-408 | the loop ends with every branch of the list patched, each going to the target if and only if it is next or near, and no other word changed |
| ArmJumps.CodeBuffer.PatchWord | ports/tinycc/arm-gen.c:399-406 | a nop for the next instruction, else the offset with the condition kept |
| BufferCache.Cache.constructor | kernel/fs/bio.c:50-70 | all buffers are in one ring, the last one first |
| BufferCache.Cache.Bget | kernel/fs/bio.c:83-119 | the buffer that has the block, or the unreferenced one released longest ago; the panic exactly when all are in use and none has the block |
| BufferCache.Cache.Bread | kernel/fs/bio.c:124-143 | up to where it sleeps: the one buffer of the block, marked valid before its bytes are there; it waits exactly if the buffer was not valid; the bytes are those of the disk unless the holder changed them or a read is under way |
| BufferCache.Cache.Arrive | kernel/fs/bio.c:124-143 | the bytes of the disk come in, over whatever was in the buffer |
| BufferCache.Cache.Bwrite | kernel/fs/bio.c:148-157 | the disk block is the buffer, and no other block changes |
| BufferCache.Cache.Brelse | kernel/fs/bio.c:167-188 | one reference less; the last one puts the buffer at the front of the ring, as the one released last |
| BufferCache.Cache.ReadBlock | kernel/fs/bio.c:124-188 | bread and brelse by a process on its own give the bytes of the disk, whatever the cache holds, and leave it as much in use |
| BufferCache.Cache.WriteBlock | kernel/fs/bio.c:124-188 | bread, a change, bwrite and brelse change that one block of the disk |
| BufferCache.GotKeeps | kernel/fs/bio.c:83-119 | at most one buffer holds any block, and a valid one that was not changed and is not being read equals its disk block, also after reuse |
| BufferCache.TrustedIff | kernel/fs/bio.c:124-157 | what a process finds in a valid buffer that nobody changed is bound to be on the disk if and only if no read into it is under way |
| BufferCache.StaleRead | kernel/fs/bio.c:124-143 | from an empty cache: of two processes that read a block the second is given the old bytes of the buffer |
| BufferCache.OldestIs | kernel/fs/bio.c:106-116 | the search from the back finds the unreferenced buffer released longest ago |
| BufferCache.FrontStamped | kernel/fs/bio.c:174-185 | moving to the front keeps the ring in the order of release |
| BufferCache.MoveKeeps | kernel/fs/bio.c:174-185 | the eight assignments of brelse keep both directions of the ring a circle through all buffers |
| BufferCache.Along | kernel/fs/bio.c:50-188 | following the ring from its head meets every buffer once, in the order of release, and comes back |
| BufferCache.WrittenKeeps | kernel/fs/bio.c:148-157 | no other buffer is stale after a write |
| Build.BuildableIff | user/build.c:513-743 | a target can be built if and only if every target on every path of dependencies from it is sound, and no such path comes back to where it was |
| Build.GoodFiles | user/build.c:500-532 | more files do no harm |
| Build.GoodApart | user/build.c:500-532 | outputs do not matter if no target depends on one as a file |
| Build.PathsGood | user/build.c:692-743 | if all paths of n steps are sound and do not come back, n levels of recursion suffice |
| BuildOps.CompletedGood | user/build.c:692-743 | what is completed can be built: everything it depends on was completed earlier |
| BuildOps.Builder.FindTarget | user/build.c:488-498 | the first target of the name |
| BuildOps.Builder.CheckDependency | user/build.c:500-532 | success only if the file is there or the target completed |
| BuildOps.Builder.CheckDependencyRange | user/build.c:534-553 | names of 128 characters and more fail |
| BuildOps.Builder.CheckDependencies | user/build.c:555-587 | success only if every dependency in the list is there, and there is one |
| BuildOps.Builder.BuildTarget | user/build.c:692-743 | it ends on every graph, cyclic or not, leaves every visiting flag as it was, and succeeds exactly if the target is completed, after all it depends on; files come and go with the recipes meanwhile |
| BuildOps.Builder.Complete | user/build.c:717-742 | the target is completed exactly if it is up to date or its recipe succeeds |
| BuildOps.Builder.RunRecipe | user/build.c:657-690 | the output is there behind a recipe that succeeds, and no other file changes |
| BuildOps.Builder.BuildOne | user/build.c:692-743 | a call from the top succeeds if the target can be built with the files there are, and only if it can with these and those that recipes made; so never when it can reach a cycle. If no target depends on an output as a file, it succeeds if and only if the target can be built |
| BuildOps.Builder.BuildGroup | user/build.c:757-775 | the same of a group, which must not be empty, and all its targets |
| Mkfs.DataStep | mkfs.c:415-442 | a data block goes into the slot that the kernel's bmap looks in |
| Mkfs.SecondStep | mkfs.c:430-437 | a full second-level index block is written out and the next one gets a block, with all earlier blocks still in their slots |
| Mkfs.AddrStep | mkfs.c:412-429 | an index block that the inode names is put in place |
| MkfsOps.FoundIsAt | mkfs.c:451-456 | through the index blocks as written the kernel finds every block where mkfs meant it |
| MkfsOps.PackedContent | mkfs.c:389-457 | the kernel reads the contents of the host's file from the image |
| MkfsOps.PackedSlots | mkfs.c:389-457 | all slots of the image hold distinct blocks below the next free one |
| MkfsOps.PackedOthers | mkfs.c:389-457 | every file added before is as it was |
| MkfsOps.PackedSaved | mkfs.c:143-457 | the inode written is the one the kernel will load, and the others of its block are as they were |
| MkfsOps.MarkedMapped | mkfs.c:525-542 | with its bitmap the image satisfies what the kernel's operations keep |
| MkfsOps.Image.constructor | mkfs.c:149-170 | a disk of zeroes with free inodes |
| MkfsOps.Image.AllocBlock | mkfs.c:135-141 | the next block, zeroed; the end of the program exactly when the image is full |
| MkfsOps.Image.AddFile | mkfs.c:389-508 | a file is added if and only if it is at most the largest file and the image has room for its blocks and index blocks; then the image read back through the kernel's index arithmetic is its content, and no other file changes |
| MkfsOps.Image.AddBlock | mkfs.c:402-443 | one turn of the loop of add_file_data, which succeeds if and only if there is room for the block and the index blocks that are new with it |
| MkfsOps.Image.WriteIndex | mkfs.c:451-456 | the index blocks are written |
| MkfsOps.Image.WriteBitmap | mkfs.c:525-542 | exactly the bits below the first free block are set, and the image is one on which the kernel's invariant holds |
| PageCases.LeftBehind | kernel/mm/vm.c:238-282 | a run from kinit on, in which uvmcopy fails at the second page and leaves the new space with the first |

## Left out

- RegexExec.RegExec: says nothing when the search runs into a loop that does not move before it finds a match, because re_rec does not return then (RegexCorrect.HaltsIff); a start behind one that matches is not asked about.
- RegexExec.RState.Push: memory for a longer array is always found, in this and in the log of captures.
- RegexEmit.RegComp: an int that overflows wraps around, as the compilers in use have it; a malloc for more memory than there is fails in the original, and is granted here.
- AllocHeap.Heap.Malloc: the state of a heap that was broken is not modelled further; how much memory the process may have is the length of the array.
- AllocHeap.Heap.Copy: memcpy copies whole headers' worth of units, as realloc asks for, not single bytes.
- FsOps.FileSystem.Readi: the destination is the number of its bytes that are there, and copyout beyond MAXVA is left out.
- FsOps.FileSystem.Iput: the count of references is a parameter; the table of inodes in memory (iget, idup) is not part of this model.
- FsOps.FileSystem.Ialloc: whether iget has a slot is a parameter.
- FsOps.FileSystem.Ftruncate: begins behind the checks of the file descriptor.
- BufferCache.Cache.Bwrite: the disk stores a buffer in one step, while its process sleeps.
- PageOps.Paging.NewSpace: the kernel's own entries (trampoline, devices, the direct map) are left out, because the direct map names pages that are free.
- PageOps.Paging.Walk: addresses are numbers, so the wrap of sums at 2^64 is not modelled; no translation is cached.
- LbufOps.Lbuf.EditRaw: the text has no NUL; lbuf_opt copies one that has only up to it into the history.
- LbufOps.Lbuf.ReplaceLines: growing the arrays, the offsets of marks in their lines and the marks of the global command are left out.
- PipeOps.Kernel.PipeClose: the pipe's page is not freed, and which process holds which end is not modelled.
- PipeOps.Kernel.PipeRead: the reader's address space is the number of bytes that have a page.
- VirtioOps.Disk.DiskRw: a caller without a process, which polls before the first process runs, is not modelled.
- ArmHarder.CodeGen.StuffConstHarder: operand registers other than pc, and the effect on the carry flag is left out.
- ArmJumps.CodeBuffer.Gjmp: the buffer holds nothing but words.
- BuildOps.Builder.BuildTarget: which targets are current and which recipes fail are fixed for a run, and the messages are left out.
- MkfsOps.Image.AddFile: every read of the host's file fills a block but the last, and the directory entry is not made.
- The regex parser and the matching of one atom: trees are given, and an atom is a partial step on positions.
- Directories, paths, the superblock's contents, and exec, wait and exit of processes.
- Interrupt handlers but that of the disk, device registers, boot code and locks between harts.
- The rest of the C library, of TinyCC's ARM back end, of neatvi, and the other tools.
- user/malloc.c and ports/cxx/myos-cxx-runtime.cc: the same algorithm as ports/myos/libc.c.
