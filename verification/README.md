# Proofs about the System III commands

This project models the algorithms inside a group of single-file C commands and proves what each of them is for.
Input and output are sequences, a disk is a map from block number to block contents, and the answers to questions
are parameters. Every module verifies on its own with the modules it imports; `dafny verify dfyconfig.toml` checks
all of them. `Basics` has what several programs share.

## What is proved

**pack and pcat** (`Sums`, `KraftCost`, `HuffmanTree`, `PrefixCode`, `DepthBound`, `RoundedEnd`, `PackHeap`,
`HeapTree`, `BitStrings`, `PackCode`, `CodeSpace`, `PackBits`, `Pack`, `Unpack`, `Decoding`, `Pcat`,
`PackTheorems`). The heap is run in place on arrays; `HeapTree` shows that what it does is a history of merges of
the two lightest live nodes. From that history alone follow the optimality of the code lengths among all prefix
codes, also in bits of the text and its end marker (pack counts the end marker for half of what it counts a byte
for), the even number of nodes on every level, the place of END at the end of the deepest level, and the bound on
the depth. `PackFile` promises that what it wrote is unpacked to the input by `pcat`, a program that shares only the
file format with it, and that no proper prefix of it is unpacked. `Decoding` says what `pcat` does with any other
file: it succeeds with a text exactly when the file has a header, the code words of the text and that of END, and
the size in the header agrees with the text; it reports an unpacking error exactly when the bits run out inside a
word or the sizes differ. The comment on the guard in `pack.c` (line 238) gives 2^24 as the input size below which
it cannot fire. That is not so: `GuardExact` shows that inputs with a tree too deep exist from 196417 bytes on, and
none below.

**diff** (`DiffSort`, `CommonLines`, `Stone`, `DiffClasses`, `DiffMatch`, `DiffOutput`, `Diff`). The shell sort, the
equivalence classes, the k-candidates and the unravelling together give a match vector of the whole files that no
other match vector beats; the hunks made from it, forwards or backwards, turn the first file into the second, and
each of them reaches from one pair of matched lines to another. When a file is empty the sort's gap is never set;
the model passes in an arbitrary value for it and shows that it does no harm.

**crypt** (`Crypt`). The table setup terminates for every random sequence, and running the cipher twice gives the
text back. The tables are given as functions of the random numbers: every permutation of the bytes occurs with every
pairing of them for some numbers in the range of those that are drawn, and numbers that lead to the same permutation
make the same picks for it.

**The free list** (`FreeList`, `FreeMap`, `Fsck`, `FsckFree`). The list of free blocks is a chain of batches, the
first in the superblock. Phase 6 of `fsck` builds a list with every unused block in it once; phase 5 is to find
nothing wrong with a list exactly when it is such a list. It does so with one exception. Phase 5 writes the
superblock's batch into a buffer without changing the block number the buffer is marked with, so a first link equal
to that number is not read, and the batch already in the buffer is taken for the next one. `Phase5` is the exact
statement: nothing is found wrong if and only if the list is a good one and its first link is not that number.
`GoodListCondemned` is a good list that is condemned. The buffer gets such a mark when the last directory block that
was read, in phase 3, is one of an orphan that phase 4 then clears, while the same block is the first link of the
free list.

**Files on disk** (`BlockTree`, `FileTable`, `FileNeeds`, `Restor`, `Fsdb`, `Mkfs`, `BlockCount`). `restor` writes
files through a cache of three blocks, `fsdb` reads them back by its own walk, `mkfs` lays files out in another
order, and `du` and `fsck` count their blocks in two other ways. The modules prove that these agree: what `restor`
and `mkfs` write, `fsdb` finds; no block is used twice; a block is lost only when a direct block is mapped again,
which `restor` never does; truncating a restored file returns exactly the blocks it took; the two counts are the
number of blocks `mkfs` takes, and the number `restor` needs for a file without holes. A file is restored if and
only if the free list has the blocks it needs, holes or not. A tape with more blocks than triple indirection can
reach is not refused: `restor` writes the rest to block 0, and `RestoreFile` says what block 0 then has.

Truncating goes wrong on a full volume. The kernel leaves the superblock of one with `s_nfree` 0
(`usr/src/uts/vax/os/alloc.c`, lines 63 and 64) and puts an empty batch there before it frees a block (line 89).
`bfree` in `restor` does not: the first block it frees becomes the link to a batch that nobody writes, and whatever
the block held is read as that batch. `ITrunc` states exactly when the superblock stands for a free list again: if
there was a batch, or nothing was freed, or the block freed first happens to read as an empty batch, a count of 1
with the number 0. A batch with a count of 0 is no list for `fsck` (`usr/src/cmd/fsck.c`, line 1413) nor for the
kernel (`alloc.c`, line 53), and is none here, though `balloc` in `restor` would take it for the end. `FullVolume`
is a volume whose file, once truncated, leaves no list at all.

**fsck's other phases** (`FsckDups`, `FsckRepair`, `FsckNames`). Each inode is recorded up to its first block that
meets a table limit, given the claims on record so far, and the scan goes on with the next inode. If no limit is
met, the inodes marked after phases 1 and 1b are exactly those with a block that is out of range or claimed twice;
if one is met, they are those cut short, those with a recorded block that is bad or claimed before, and those where
the second scan comes upon a block recorded twice. What is on record, the bits of the map and the entries of the
list, is the number of claims of each block through phases 1, 1b and 4. Phase 4 starts with inode 2, so inode 1,
where `mkfs` keeps the bad blocks, is not cleared: with the others at fault cleared, the map has the blocks of the
sound inodes and of inode 1, and the list is empty if and only if inode 1 has no block twice. `FirstInodeTwice` is a
volume where it has. Just when inode 1 has no block twice, salvaging the free list leaves every block of the data
area with one owner, an inode or the list. Phase 2 terminates on every directory graph, goes into exactly the
directories reached from the root, and takes one link off for every entry there; the state it leaves to the later
phases is that of a directory exactly for the directories not gone into.

**dump** (`Dump`). The repeated pass of phase II ends with the least set that has the changed inodes and every
directory with an entry in the set, although the pass throws directories away as it goes; phases III and IV put
every chosen inode on the tape once, directories first.

**sort, join and reform** (`Qsort`, `Join`, `Reform`). The partition from the middle sorts by any total preorder
with a recursion no deeper than the base-2 logarithm of the number of lines, and under -u cuts off every line but
the first of its kind, without ever comparing a line that has been cut off. The merge of `join` writes the pairs of
equal keys in order. Reading back with the same tab stops what `reform` puts out gives the line back if the line has
no backspace or escape in it, and what it puts out for a run of blanks it compresses is then the shortest text that
gives the run. Where the column goes back the pointers into the tab stops do not, and only the one of the writer is
moved for blanks that stay blanks: `RoundTripExactly` says when such a line is read back as it was, and
`BackspaceBreaks` is one that is not.

## Model

| member | source | states |
|---|---|---|
| PackHeap.Heapify | usr/src/cmd/pack.c:158-175 | sifting in place restores the heap from the given index on and only rearranges its entries |
| PackHeap.TopIsLeast | usr/src/cmd/pack.c:158-175 | the first entry of a heap has the least count of all |
| HeapTree.TopIsLightest | usr/src/cmd/pack.c:211-218 | the first entry of the heap is a lightest live node of the tree being built |
| HeapTree.FirstTaken | usr/src/cmd/pack.c:211-215 | after the first of a pair is taken off, the heap holds the live nodes without it, and it was a lightest one |
| HeapTree.SecondTaken | usr/src/cmd/pack.c:216-219 | the second one taken is lightest among the rest, and the merged node takes its place in the heap |
| HeapTree.MergeRecorded | usr/src/cmd/pack.c:211-218 | recording a merge of two lightest nodes keeps the history greedy and the parents and weights right |
| Pack.Packer.Input | usr/src/cmd/pack.c:69-81 | each count is twice the number of occurrences of its byte |
| Pack.Packer.FillHeap | usr/src/cmd/pack.c:187-206 | the heap holds exactly the symbols that occur, with their counts |
| Pack.Packer.BuildTree | usr/src/cmd/pack.c:208-221 | the parent array is that of a complete history of merges of the two lightest nodes |
| Pack.Packer.WalkUp | usr/src/cmd/pack.c:228-230 | following the parents from a leaf terminates and counts its depth |
| Pack.Packer.AssignLengths | usr/src/cmd/pack.c:223-236 | the lengths are the depths of the leaves, maxlev is the greatest, levcount has the size of each level, bitsout the weighted length |
| Pack.Packer.ComputeBits | usr/src/cmd/pack.c:250-262 | every bit pattern is the canonical code word of its symbol, and the mask ends at 2^24 |
| Pack.Packer.Output | usr/src/cmd/pack.c:85-155 | the file is the header, the dictionary and the code words of the text and of END, filled up to a byte |
| Pack.Packer.WritePrelude | usr/src/cmd/pack.c:93-110 | header, level counts with the last less two, and the symbols level by level without END |
| PackBits.Emit | usr/src/cmd/pack.c:127-137 | one code word is appended to the bits written so far, whatever the bit offset |
| Pack.Packer.PackFile | usr/src/cmd/pack.c:178-265 | when each outcome occurs; a packed file unpacks to the input and none of its proper prefixes to anything, and too many levels needs at least 196417 bytes |
| Pack.Packer.Encode | usr/src/cmd/pack.c:250-264 | whatever the tree, the file written unpacks to the input, and no proper prefix of it unpacks |
| Pack.Blocks | usr/src/cmd/pack.c:243-248 | the least number of blocks of 512 bytes that holds n bytes |
| Pack.EndIsDeepest | usr/src/cmd/pack.c:187-189 | END, the only odd and lightest symbol, has the greatest length |
| Pack.TableIsFull | usr/src/cmd/pack.c:223-241 | the lengths of the tree are those of a full canonical code within 24 levels |
| Pack.DeepInput | usr/src/cmd/pack.c:237-241 | a tree deeper than 24 levels needs an input of at least 196417 bytes |
| HuffmanTree.Optimal | usr/src/cmd/pack.c:208-236 | no assignment of lengths that meets the Kraft inequality has a smaller weighted total |
| HuffmanTree.KraftEquality | usr/src/cmd/pack.c:208-236 | the leaf depths meet the Kraft inequality with equality |
| HuffmanTree.LighterIsDeeper | usr/src/cmd/pack.c:208-236 | a lighter symbol is nowhere less deep than a heavier one |
| PrefixCode.KraftBelow | usr/src/cmd/pack.c:208-236 | code words of a prefix code below a common prefix meet the Kraft inequality |
| PrefixCode.OptimalAmongPrefixCodes | usr/src/cmd/pack.c:208-236 | no prefix code for the symbols has a smaller weighted length than the tree |
| RoundedEnd.RoundedIsGreedy | usr/src/cmd/pack.c:187-221 | the tree pack builds, where END counts for half of a byte, is also a tree of merges of two lightest nodes when END counts for a whole one |
| RoundedEnd.OptimalRounded | usr/src/cmd/pack.c:187-236 | so its weighted length is least among prefix codes for these counts too |
| PackTheorems.OptimalPrefixCode | usr/src/cmd/pack.c:208-262 | the words pack assigns are a prefix code, and no prefix code writes the input and the end marker in fewer bits |
| PackTheorems.WordsApart | usr/src/cmd/pack.c:250-262 | no assigned code word is a prefix of another |
| DepthBound.DepthNeedsWeight | usr/src/cmd/pack.c:208-241 | a leaf at depth d needs a total weight of at least the Fibonacci number of d plus 2 |
| DepthBound.FibonacciDepth | usr/src/cmd/pack.c:208-241 | with Fibonacci counts every greedy tree is a chain, so END reaches exactly the greatest depth |
| PackTheorems.GuardCanFire | usr/src/cmd/pack.c:237-241 | for every length from 196417 on there is an input all of whose trees are 25 levels deep |
| PackTheorems.FinishTree | usr/src/cmd/pack.c:210-220 | every greedy history can be carried on to a complete one |
| PackTheorems.GuardExact | usr/src/cmd/pack.c:237-241 | inputs of a length whose tree has too many levels exist if and only if the length is at least 196417 |
| PackTheorems.EncodedSize | usr/src/cmd/pack.c:224-236 | the encoded text is as many bits long as counts and lengths say |
| PackTheorems.DictionaryIsBytes | usr/src/cmd/pack.c:107-110 | the dictionary has one byte for each distinct byte of the input |
| PackTheorems.PackedSize | usr/src/cmd/pack.c:243-248 | the file is one to four bytes longer than the estimate, and still takes no more blocks than the input |
| CodeSpace.EvenLevels | usr/src/cmd/pack.c:254-262 | every level of a code with Kraft equality has an even number of nodes |
| CodeSpace.TreeGivesFullCode | usr/src/cmd/pack.c:208-262 | the depths of a complete tree make a full canonical code |
| PackCode.StaysInside | usr/src/cmd/pcat.c:141-162 | a proper prefix of a code word is always one of the inner nodes of its level |
| PackCode.EndIsLast | usr/src/cmd/pack.c:106-110 | END has the last code of the deepest level, so the dictionary need not name it |
| PackCode.LevelAscends | usr/src/cmd/pack.c:107-110 | a level has the symbols of its length, each once, in ascending order |
| PackCode.CodesAscend | usr/src/cmd/pack.c:254-262 | of two symbols with words of one length, the smaller has the smaller code |
| Unpack.CountsFit | usr/src/cmd/pack.c:104-106 | every level count fits its byte and the stored counts give back the real ones |
| Unpack.InnerAgrees | usr/src/cmd/pcat.c:103-108 | the inner-node counts pcat derives from level counts are those of the code |
| Unpack.SymbolPlace | usr/src/cmd/pcat.c:85-93 | the place of each symbol in the stored dictionary is its level's offset plus its rank |
| Unpack.DecodeFrom | usr/src/cmd/pcat.c:136-163 | from any point inside a code word decoding goes on to its symbol |
| Unpack.DecodeWord | usr/src/cmd/pcat.c:136-163 | decoding a code word yields its symbol and starts afresh, or stops at END |
| Unpack.DecodeText | usr/src/cmd/pcat.c:122-164 | decoding the encoded text yields the text and then the end marker, with origsize 0 |
| Unpack.DictionaryFound | usr/src/cmd/pcat.c:71-97 | the dictionary read from a packed file is the one written |
| Unpack.RoundTrip | usr/src/cmd/pcat.c:46-165 | unpacking a packed file gives the input back |
| Decoding.DecodesExactly | usr/src/cmd/pcat.c:122-164 | decoding succeeds with a text exactly when the bits are its code words and that of END and its size is the one in the header modulo 2^32 |
| Decoding.FailsExactly | usr/src/cmd/pcat.c:122-164 | decoding is an unpacking error exactly when the bits run out inside the word after the text, or the sizes differ |
| Decoding.UndefinedExactly | usr/src/cmd/pcat.c:141-146 | it leaves its tables exactly when a code word leads past the characters or there are bits and no levels |
| Decoding.NotPackedExactly | usr/src/cmd/pcat.c:62-99 | a file is not in packed format exactly when it has no header: two marks, a size, at most 24 level counts, and one character more than they add up to, at most 256 |
| Decoding.UnpacksExactly | usr/src/cmd/pcat.c:46-165 | a file is unpacked to a text exactly when it has a header, the code words of the text and that of END, and the size of the text |
| Decoding.CutFile | usr/src/cmd/pcat.c:122-133 | a packed file that has been cut off is not in packed format if the cut is in the header, and an unpacking error otherwise |
| Pcat.Unpacker.FillTree | usr/src/cmd/pcat.c:85-97 | tree pointers and characters are those of the stored dictionary, and a dictionary that does not fit is refused |
| Pcat.Unpacker.CountInner | usr/src/cmd/pcat.c:103-108 | the counts are replaced in place by the numbers of inner nodes |
| Pcat.Unpacker.GetDict | usr/src/cmd/pcat.c:46-110 | the arrays hold the dictionary of the file, or the file is refused just when it has none |
| Pcat.Unpacker.DecodeLoop | usr/src/cmd/pcat.c:114-165 | the bit loop computes the decoding of the remaining bits, which succeeds exactly when they are the code words of a text and of END |
| Pcat.Unpacker.Run | usr/src/cmd/pcat.c:46-165 | the whole program computes the unpacking of the file: refused exactly without a header, and unpacked to a text exactly when the file has its code words, END and its size |
| DiffSort.SiftLine | usr/src/cmd/diff.c:158-172 | an element is put in its place among those a gap apart, rearranging the lines only |
| DiffSort.Sort | usr/src/cmd/diff.c:145-175 | the lines are sorted by value and then number, a permutation of what they were, for every n and any initial gap |
| DiffClasses.Classify | usr/src/cmd/diff.c:261-275 | each line of the first file gets the place of the first line with its value in the second, or 0 |
| DiffClasses.Squeeze | usr/src/cmd/diff.c:276-286 | the member list has the serial numbers class by class, the first of each negated |
| DiffClasses.Equiv | usr/src/cmd/diff.c:261-287 | both of these, for sorted files |
| DiffClasses.Unsort | usr/src/cmd/diff.c:177-189 | the classes are put back in the order of the serial numbers |
| DiffMatch.Prune | usr/src/cmd/diff.c:244-259 | the longest common prefix, and the longest common suffix of what is left of both files |
| DiffMatch.ClassesRepresent | usr/src/cmd/diff.c:261-287 | a line's class lists exactly the lines of the other file that are equal to it, in increasing order |
| CommonLines.LcsRow | usr/src/cmd/diff.c:358-397 | when a common subsequence of length l ends in a row: the recurrence behind the candidates |
| CommonLines.MatchedBound | usr/src/cmd/diff.c:358-397 | no match vector pairs more lines than the longest common subsequence |
| CommonLines.LcsPrefix | usr/src/cmd/diff.c:244-259 | a common prefix adds its length to the longest common subsequence |
| CommonLines.LcsSuffix | usr/src/cmd/diff.c:244-259 | so does a common suffix |
| Stone.Matcher.NewCand | usr/src/cmd/diff.c:399-408 | a candidate is added to the pool and the others stay |
| Stone.Matcher.Search | usr/src/cmd/diff.c:410-429 | the binary search finds the level a line belongs to, in an increasing list of candidates |
| Stone.LevelsAfterRow | usr/src/cmd/diff.c:367-395 | after a row, candidate l is the least line that ends a common subsequence of length l |
| Stone.Matcher.StoneRow | usr/src/cmd/diff.c:367-395 | one row takes the candidates from those of the rows before to those including it |
| Stone.Matcher.Stone | usr/src/cmd/diff.c:358-397 | the number returned is the length of a longest common subsequence, and a chain of that length hangs on the last candidate |
| DiffMatch.Unravel | usr/src/cmd/diff.c:431-441 | following the chain fills in a match vector of as many lines as the chain has, besides prefix and suffix |
| DiffMatch.LcsPruned | usr/src/cmd/diff.c:244-259 | pruning takes exactly its length off the longest common subsequence |
| DiffMatch.MatchLines | usr/src/cmd/diff.c:315-349 | the match vector of the whole files is increasing on equal lines and as long as a longest common subsequence |
| DiffMatch.MatchesMost | usr/src/cmd/diff.c:431-441 | no other match vector has more lines |
| DiffOutput.OutputForward | usr/src/cmd/diff.c:519-538 | the loop ends, each unmatched line is in exactly one hunk, each hunk reaches from one pair of matched lines to another, with a line kept in both files between two hunks, and the hunks turn file 0 into file 1 |
| DiffOutput.OutputBackward | usr/src/cmd/diff.c:539-549 | the same for the reverse loop of -e, in reverse order, applied from the end |
| Diff.DiffFiles | usr/src/cmd/diff.c:289-356 | for any two files the hunks written patch one into the other, each as long as it can be, and leave a longest common subsequence alone |
| Crypt.Probe | usr/src/cmd/crypt.c:61-62 | the circular probe ends at the first unpaired slot from the one it starts at, going round the slots below k |
| Crypt.NextSlot | usr/src/cmd/crypt.c:60-62 | an unpaired slot is never the only one left, so k is not 0 where it is divided by |
| Crypt.Turn | usr/src/cmd/crypt.c:51-65 | the entries of slot k and of the slot the low byte of the number picks are exchanged, and a free slot k is paired with the first free slot from the one the next byte picks |
| Crypt.Setup | usr/src/cmd/crypt.c:47-68 | t2 inverts t1, t3 is an involution without fixed points, and both are the functions of the random numbers that these turns make up |
| Crypt.AllTablesOccur | usr/src/cmd/crypt.c:47-65 | every permutation with every pairing is what some numbers below 65521 lead to |
| Crypt.SamePicks | usr/src/cmd/crypt.c:47-59 | numbers that lead to the same t1 make the same picks for it |
| Crypt.Invert | usr/src/cmd/crypt.c:66-67 | t2 is the inverse of t1 |
| Crypt.RotateTwice | usr/src/cmd/crypt.c:84-84 | one rotor position is its own inverse and encrypts no byte to itself |
| Crypt.Run | usr/src/cmd/crypt.c:80-92 | the loop enciphers byte k with the first rotor turned k times and the second once for each 256 bytes |
| Crypt.TransformTwice | usr/src/cmd/crypt.c:80-92 | running the cipher twice restores the text |
| FreeList.Push | usr/src/cmd/fsck.c:1482-1483 | a block put on a batch with room goes to the head of the list |
| FreeList.Spill | usr/src/cmd/fsck.c:1476-1483 | a full batch moves into the block that starts the next one, and the list only grows by that block |
| FreeList.Pop | usr/src/cmd/restor.c:887-887 | taking the top of a batch takes the head of the list |
| FreeList.PopLast | usr/src/cmd/restor.c:895-900 | taking the last of a batch takes the head, and the block holds the rest of the list |
| FreeList.ListsFrame | usr/src/cmd/restor.c:854-873 | writing blocks that are not on the list leaves it as it is |
| FreeMap.Counted | usr/src/cmd/fsck.c:496-499 | a list without duplicates and used blocks is complete exactly when the counts add up |
| FreeMap.ListsOne | usr/src/cmd/fsck.c:1406-1426 | a batch stands for only one list |
| FsckFree.NextClear | usr/src/cmd/fsck.c:1464-1465 | the probe for a free slot of the cylinder ends |
| FsckFree.Spacing | usr/src/cmd/fsck.c:1460-1469 | the offsets are a permutation of 1 to cyl for every step, each the first free one at least a step on from the one before |
| FsckFree.Checker.AddFree | usr/src/cmd/fsck.c:1475-1484 | the block goes to the head of the list on disk, a full batch into the block itself, and nothing else is disturbed |
| FsckFree.Checker.MakeFree | usr/src/cmd/fsck.c:1429-1490 | the new free list has every block of the data area that the map leaves clear, once, in the order of the spacing from the lowest cylinder up, and s_tfree is its length; the spacing is the one asked for, else that of the superblock, and 9 and 400 if that is out of bounds |
| FsckFree.Checker.Pass5 | usr/src/cmd/fsck.c:743-770 | a good block is counted once; a bad or repeated one is counted as such and condemns the list; a count that reaches its limit stops the walk |
| FsckFree.Checker.GetBlk | usr/src/cmd/fsck.c:1287-1308 | the buffer holds the block asked for, unless it was already marked with its number; a block that cannot be read leaves it marked with none |
| FsckFree.Checker.ScanBatch | usr/src/cmd/fsck.c:1417-1421 | the numbers of a right list pass; if none is condemned they are the batch |
| FsckFree.Checker.NextBatch | usr/src/cmd/fsck.c:1412-1425 | after each turn what has been met, followed by what the buffer lists, is the list; if the buffer was marked with the first link, it keeps the first batch instead, and the second turn condemns the list |
| FsckFree.Checker.FreeChk | usr/src/cmd/fsck.c:1406-1426 | the walk ends for every list; uncondemned, what it met is the list; a sound list is never condemned, unless the buffer was marked with its first link, and then every list is |
| FsckFree.Checker.Phase5 | usr/src/cmd/fsck.c:468-512 | nothing is wrong if and only if the list has every unused block once and the buffer was not marked with its first link; then n_blks and n_free make up the data area, and the count is wrong exactly if s_tfree differs |
| FsckFree.TwoBatchesAreGood | usr/src/cmd/fsck.c:1406-1426 | a list of two blocks in two batches has every unused block once |
| FsckFree.GoodListCondemned | usr/src/cmd/fsck.c:468-512 | with the buffer marked with its first link, phase 5 condemns this good list |
| FsckFree.SalvageThenCheck | usr/src/cmd/fsck.c:515-519 | after a salvage the list has every unused block once, in the order of the spacing asked for or recorded, no used block has been written, and a fresh check of the volume finds neither the list nor the count wrong |
| BlockTree.BlocksFrame | usr/src/cmd/restor.c:911-971 | the blocks of a tree depend on those blocks only |
| BlockTree.FillBlocks | usr/src/cmd/restor.c:957-969 | a new block in an empty slot of a tree adds just that block to it |
| BlockTree.FillLeaf | usr/src/cmd/restor.c:957-969 | it changes the place of no data block but the one it was made for |
| BlockTree.WriteLeaf | usr/src/cmd/restor.c:1062-1071 | writing data moves no block of the tree |
| BlockTree.LeafApart | usr/src/cmd/restor.c:957-969 | one block is never two data blocks of a tree |
| BlockTree.InnerIsNoLeaf | usr/src/cmd/restor.c:957-969 | an indirect block is never a data block |
| FileTable.WalkApart | usr/src/cmd/fsdb.c:1214-1252 | two logical blocks are never in one block |
| FileTable.NewNodeWalk | usr/src/cmd/restor.c:957-969 | filling a slot in one tree of the file changes the walk to that logical block only |
| FileTable.WriteData | usr/src/cmd/restor.c:1062-1071 | writing a data block changes neither what the file owns nor where anything is |
| Restor.Restorer.DWrite | usr/src/cmd/restor.c:713-737 | the disk has the block, and every cache slot agrees with the disk, also when block 0 is written; the slot that has the block is as new |
| FileTable.FileFrame | usr/src/cmd/restor.c:1062-1071 | writing a block the file does not own changes neither what it owns nor where anything is |
| Restor.Restorer.FindSlot | usr/src/cmd/restor.c:745-759 | a block in the cache is found; if it is not there, the slot chosen is one unused for longest |
| Restor.Restorer.DRead | usr/src/cmd/restor.c:739-773 | the block read is the one on the disk, the cache goes on agreeing with it, and a block not in the cache takes the slot unused for longest |
| Restor.Restorer.BAlloc | usr/src/cmd/restor.c:876-904 | the head of the free list, zeroed; nothing only when the list is empty, with or without a batch in the superblock |
| FreeList.ChainLists | usr/src/cmd/restor.c:876-904 | batches that lead to a given block list their own numbers and then whatever that block lists |
| Restor.Restorer.BFree | usr/src/cmd/restor.c:854-873 | the block heads what the batches list and no other block is written; without a batch in the superblock it becomes the link to a batch nobody has written |
| Restor.FirstIsOwned | usr/src/cmd/restor.c:806-826 | the block freed first is one of the file's, and there is none just when the file has no blocks |
| Restor.Restorer.TLoop | usr/src/cmd/restor.c:830-851 | every block of the tree is put on the batches once, and no other block is written; without a batch the first one freed is where they end |
| Restor.Restorer.ITrunc | usr/src/cmd/restor.c:794-828 | the batches gain exactly the blocks the file owns, once each; they are a free list if and only if there was a batch before, nothing was freed, or the block freed first reads as an empty batch; a file without blocks is left alone |
| Restor.Restorer.WhatIsListed | usr/src/cmd/restor.c:854-904 | what the superblock stands for after the block freed first became a link: the freed blocks and then what that block lists, if anything |
| Restor.FullVolume | usr/src/cmd/restor.c:854-873 | on a full volume with no batch in the superblock, truncating a file whose block starts with 777 leaves no free list |
| Restor.Restorer.Fetch | usr/src/cmd/restor.c:957-969 | one step down: the block in the slot, or a new one, with the rest of the file and other files as they were |
| Restor.Restorer.BMap | usr/src/cmd/restor.c:910-971 | the block returned is where the walk finds it, 0 just beyond triple indirection; every other logical block and every other file is as it was; no indirect block is made that leads to no wanted block |
| Restor.NothingLost | usr/src/cmd/restor.c:922-924 | file and free list keep all their blocks exactly when the entry of a direct block was empty; otherwise the old block is lost |
| FileNeeds.CountFile | usr/src/cmd/restor.c:910-971 | a file without needless indirect blocks has as many blocks as it needs exactly when no wanted block is missing, and fewer otherwise |
| FileNeeds.NeedsUpTo | usr/src/cmd/du.c:176-189 | without holes a file needs the number of blocks du computes |
| Restor.Restorer.RestoreFile | usr/src/cmd/restor.c:1062-1078 | for a tape of any length the walk finds every block written below the limit of triple indirection, unchanged, and none where nothing was written; no block is used twice; what is beyond the limit went to block 0, which has the last of it; no other block is touched; it succeeds if and only if the free list has as many blocks as the file needs |
| Restor.WithoutHoles | usr/src/cmd/restor.c:1062-1071 | for a tape without holes the blocks needed are those du counts |
| Restor.AllRestored | usr/src/cmd/restor.c:945-947 | the file has the whole tape if and only if nothing was written to the tape beyond the limit |
| Restor.RestoreThenTruncate | usr/src/cmd/restor.c:794-828 | freeing a restored file gives back exactly the blocks it took |
| Fsdb.BMap | usr/src/cmd/fsdb.c:1214-1252 | the loops find what the walk through the trees finds |
| Fsdb.ReadBack | usr/src/cmd/fsdb.c:1214-1252 | fsdb finds each block restor restored, and 0 for the rest, beyond the limit too |
| Mkfs.WalkFinds | usr/src/cmd/mkfs.c:565-597 | the walk through a table laid out by mkfs finds each data block and nothing past the end |
| Mkfs.Maker.Alloc | usr/src/cmd/mkfs.c:383-401 | the head of the free list; nothing only when the list is empty |
| Mkfs.Maker.NewBlk | usr/src/cmd/mkfs.c:442-462 | the next data block is written and remembered; the block that fills the table is an error |
| Mkfs.Maker.WriteAll | usr/src/cmd/mkfs.c:246-249 | the data blocks are written one after the other; the table keeps those that follow the last whole run of 628, and the free list must have as many as there are |
| Mkfs.Maker.Gather | usr/src/cmd/mkfs.c:577-580 | the next pointers are moved to the front in place, filled up with zeroes |
| Mkfs.Maker.DoubleIndirect | usr/src/cmd/mkfs.c:585-595 | the blocks of the second level lead to the rest of the data, as many as needed |
| Mkfs.Maker.IPut | usr/src/cmd/mkfs.c:530-597 | the table leads to the data blocks, using just the indirect blocks a file of that length has |
| Mkfs.Maker.MakeFile | usr/src/cmd/mkfs.c:229-290 | the whole file reads back through the walk and takes as many blocks as du counts, and nothing else is written; from 628 blocks on it is an error and the file has what follows the last whole run of 628; it runs out of space exactly when the free list has too few blocks |
| BlockCount.TotalIs | usr/src/cmd/du.c:176-189 | the blocks of a file's trees, counted level by level |
| BlockCount.NBlock | usr/src/cmd/du.c:176-189 | the closed form is the number of blocks of the trees, up to triple indirection |
| BlockCount.SizeChk | usr/src/cmd/fsck.c:1332-1344 | the loop ends with the same number |
| FsckDups.AccountFresh | usr/src/cmd/fsck.c:642-645 | a block seen to be claimed again joins the first part of the list, which keeps one entry for each |
| FsckDups.AccountSeen | usr/src/cmd/fsck.c:636-641 | a further claim of it goes to the end of the list |
| FsckDups.DupIsAgain | usr/src/cmd/fsck.c:622-623 | the map has a block exactly when it has been claimed before |
| FsckDups.LimitNext | usr/src/cmd/fsck.c:614-635 | a claim meets a limit only on the account of its own inode or of the list |
| FsckDups.Claims.Pass1 | usr/src/cmd/fsck.c:607-653 | claims of a block are its bit plus its entries in the list, n_blks is the number of bits, the right inodes are marked, and the scan of an inode is stopped just at a limit, without recording the claim |
| FsckDups.CutMeetsLimit | usr/src/cmd/fsck.c:614-635 | if an inode has been cut short, the claims of all inodes exceed a limit |
| FsckDups.Claims.Pass1All | usr/src/cmd/fsck.c:338-339 | an inode is recorded up to its first block that meets a limit given the claims so far, and to its end if there is none |
| FsckDups.Claims.Phase1 | usr/src/cmd/fsck.c:316-343 | so for every inode, also after a limit has stopped another; the claims are the recorded parts one after the other, the inodes marked are those cut short and those with a recorded block out of range or claimed before, and some inode is cut short exactly when all claims exceed a limit |
| FsckDups.Claims.Pass1b | usr/src/cmd/fsck.c:656-672 | the list is only rearranged, its first part holds the recorded duplicates still to be found, and an inode is marked exactly where one is first met |
| FsckDups.Claims.Phase1b | usr/src/cmd/fsck.c:354-362 | the second scan ends when every duplicate has been found or all inodes have been read, whether or not a limit cut the first one short |
| FsckDups.SuspectIsAtFault | usr/src/cmd/fsck.c:310-362 | if no limit was met, the inodes both scans mark are those with a block out of range or claimed more than once |
| FsckDups.Claims.FindFaults | usr/src/cmd/fsck.c:310-362 | what is recorded and who is marked, for every scan: each inode up to its limit, and marked if cut short, at fault in what is recorded, or first to claim a recorded duplicate; a limit is met exactly when an inode has ten bad or ten duplicate blocks or there are more than a hundred duplicates; bits and list entries make up the recorded claims |
| FsckDups.Claims.Pass4 | usr/src/cmd/fsck.c:723-740 | one claim of the block is withdrawn and no other |
| FsckDups.Claims.Withdraw | usr/src/cmd/fsck.c:885-898 | clearing an inode takes one recorded claim off for each of its blocks, as far as there are any |
| FsckDups.LeftAre | usr/src/cmd/fsck.c:435-462 | taking the blocks of some inodes off the claims of all leaves the claims of the others |
| FsckDups.Claims.Phase4 | usr/src/cmd/fsck.c:435-462 | what is left on record for each block after the inodes to be cleared, but for the first, have been |
| FsckDups.AtMostOne | usr/src/cmd/fsck.c:435-462 | without the inodes at fault every block is claimed at most once |
| FsckDups.LeftOver | usr/src/cmd/fsck.c:435-462 | with the inodes at fault gone except the first, a block is claimed twice just when the first inode has it twice |
| FsckDups.Claims.ClearFaults | usr/src/cmd/fsck.c:310-462 | what is left on record of each block, whether or not a limit was met; if none was, the map has exactly the blocks of the sound inodes and of the first one, and the list is empty if and only if the first inode has no block twice |
| FsckDups.FirstInodeTwice | usr/src/cmd/fsck.c:310-462 | a first inode with a block twice leaves a duplicate on the list |
| FsckRepair.ClearThenSalvage | usr/src/cmd/fsck.c:310-519 | after clearing and salvaging, the free list has exactly the blocks left without a recorded claim, no other block has been written and a fresh check finds nothing wrong; if no limit was met these are the blocks no remaining inode claims, and every block has one owner if and only if the first inode has no block twice |
| FsckNames.Namer.Pass2 | usr/src/cmd/fsck.c:675-720 | an entry takes one link off what it names and goes into a directory not gone into before |
| FsckNames.Namer.Descend | usr/src/cmd/fsck.c:782-799 | the recursion ends on every graph; all that is newly reached is scanned to the end |
| FsckNames.Namer.Phase2 | usr/src/cmd/fsck.c:381-407 | the directories gone into are those reached from the root; each count is the link count less the names there; a directory keeps the state of one exactly if it was not gone into, and an inode keeps the state to be cleared exactly if no directory gone into names it |
| Dump.AddSound | usr/src/cmd/dump.c:287-291 | an added directory belongs to every closed set |
| Dump.PruneSound | usr/src/cmd/dump.c:292-294 | a pruned directory names nothing that is, or can come to be, chosen |
| Dump.FixpointIsLeast | usr/src/cmd/dump.c:150-154 | when a round adds nothing the chosen set is the least closed one |
| Dump.Dumper.PassMark | usr/src/cmd/dump.c:257-275 | clrmap has the inodes in use, dirmap the directories, nodmap what has changed |
| Dump.Dumper.DSrch | usr/src/cmd/dump.c:369-398 | whether the directory names a chosen inode or one that may still be |
| Dump.Dumper.Add | usr/src/cmd/dump.c:277-294 | a directory is chosen only if it has to be, and pruned only if it can never be |
| Dump.Dumper.PassAdd | usr/src/cmd/dump.c:175-211 | a round that adds nothing leaves no directory that should have been added, and any round only keeps directories that name one still kept |
| Dump.Dumper.PassDump | usr/src/cmd/dump.c:296-315 | the inodes of the map go to the tape in order, though the map may be cleared meanwhile |
| Dump.TapeInOrder | usr/src/cmd/dump.c:160-164 | each chosen inode is on the tape once and directories come before all else |
| Dump.Dumper.Run | usr/src/cmd/dump.c:149-165 | the chosen set is the least closed one, the tape has it in order, and a directory dumped besides names one that was still kept |
| Qsort.Sorter.Partition | usr/src/cmd/sort.c:840-890 | less, equal and greater lines than the middle one are apart, the lines permuted within the range, and no cut-off line compared |
| Qsort.Sorter.CutOff | usr/src/cmd/sort.c:893-894 | of the equal lines all but the first are cut off |
| Qsort.Sorter.QSort | usr/src/cmd/sort.c:832-910 | the range is a sorted permutation; calls are nested no deeper than the base-2 logarithm of the number of lines, which is what decreases from call to call |
| Qsort.OneOfEach | usr/src/cmd/sort.c:893-894 | the lines not cut off are the first of each class of equal lines |
| Qsort.SortLines | usr/src/cmd/sort.c:832-910 | all the lines are sorted, and under -u one line of each class is kept |
| Join.PairsHas | usr/src/cmd/join.c:102-138 | the join has the pairs of lines with equal keys and no other |
| Join.PairsOrder | usr/src/cmd/join.c:102-138 | each once, in the order of the first file and then of the second |
| Join.FirstTime | usr/src/cmd/join.c:111-115 | the group of the key is written and its end remembered |
| Join.Rewind | usr/src/cmd/join.c:119-136 | the group is read again for each further line with its key, and then passed |
| Join.Join | usr/src/cmd/join.c:102-138 | for ordered files the merge ends and writes the join |
| Reform.NextStopIsNearest | usr/src/cmd/reform.c:369-371 | a tab goes to the nearest stop beyond the column |
| Reform.GetLine | usr/src/cmd/reform.c:342-386 | the tabs of any line are expanded with a pointer into the stops that does not go back; where the column never goes back either, each tab goes to the nearest stop |
| Reform.ExpandOneMore | usr/src/cmd/reform.c:369-379 | expanding keeps every character but a tab, which becomes blanks up to the nearest stop beyond the column, or one blank past the last stop |
| Reform.PutTabs | usr/src/cmd/reform.c:529-536 | a run becomes a tab for every stop it reaches from the pointer on, and blanks for the rest |
| Reform.GapShortest | usr/src/cmd/reform.c:529-541 | the tabs and blanks put out for a run are the shortest text that expands to it |
| Reform.SqueezeRun | usr/src/cmd/reform.c:524-545 | a run of blanks is compressed if it has at least n of them or starts in the first column, and kept otherwise, and what stands before and after it is compressed on its own |
| Reform.SqueezeKeeps | usr/src/cmd/reform.c:524-549 | a line without blanks stays as it is |
| Reform.Contract | usr/src/cmd/reform.c:510-549 | runs of blanks of any line are compressed by the threshold, with a pointer that does not go back |
| Reform.ContractForward | usr/src/cmd/reform.c:510-549 | where the column never goes back, what the loop writes expands to the line and has nothing that moves back |
| Reform.SqueezeForward | usr/src/cmd/reform.c:510-549 | a compressed line has only characters and tabs that move forward |
| Reform.ContractThenGetLine | usr/src/cmd/reform.c:342-386 | the line read back by the one loop is the line given to the other if and only if the two pointers keep in step, as they do where the column never goes back |
| Reform.RoundTrip | usr/src/cmd/reform.c:510-549 | expanding a compressed line with the same stops gives it back, for any threshold |
| Reform.RoundTripExactly | usr/src/cmd/reform.c:524-545 | reading back gives the line if and only if, at each run that becomes tabs, the pointer moved for tabs only leads to the same stop as the pointer moved for all blanks |
| Reform.BackspaceBreaks | usr/src/cmd/reform.c:524-545 | a line with two backspaces that is not read back as it was |
| Reform.NoLonger | usr/src/cmd/reform.c:510-549 | compressing never makes a line longer |

## Left out

- Pack.Packer.AssignLengths: the C array of level counts has 25 entries and is written past its end by trees deeper than 24 levels before the guard is reached; the model's array has room for them.
- Pack.Packer.WritePrelude: the length in the header is taken modulo 2^32 as the source does; overflow of the 32-bit counters for inputs of 2^30 bytes and more is not modelled, the counts are unbounded.
- Unpack.RoundTrip: files that pack did not write are decoded as the source does as long as it stays inside its tables; beyond them the outcome is Undefined.
- DiffMatch.MatchLines: line values are given and not zero; reading and hashing lines, the check for hash collisions, and the reuse of storage are not modelled.
- Crypt.Setup: the random numbers are arbitrary; how they come from the password is not modelled.
- FsckFree.Checker.Phase5: read errors, the exit when a question about excessive errors is answered no, and the SALVAGE question are not modelled.
- FsckDups.Claims.Phase1: the blocks of an inode are given in the order a scan meets them; that a refused indirect block hides the blocks below it is part of that sequence; the question whether to go on after a limit is answered yes.
- FsckNames.Namer.Phase2: questions are answered no, link counts are unbounded instead of 16 bits, and the entries of a directory are given as a scan of it sees them.
- fsck phase 3: its loop over the entries for the parent has no mark for visited inodes and need not end on a cycle of orphans.
- FsckRepair.ClearThenSalvage: phases 2 and 3, and the clearing of unreferenced inodes in phase 4, are not part of the sequence.
- fsck phase 4 apart from withdrawing claims, and all interactive repairs.
- Restor.Restorer.RestoreFile: the table starts empty; tape reading, name search and the reading of an inode's first address are not modelled.
- Disk addresses packed into three bytes, and errors of reading and writing.
- mkfs's own free list of a new file system, which skips the last block for some sizes.
- Dump.Dumper.Run: tape records, size estimates and the bit maps written to further volumes are not modelled; the file system does not change during the dump.
- Qsort.Sorter.QSort: comparison of fields and keys is a parameter; temporary files and merging are not modelled.
- Join.Join: keys are given by their rank in the order of strcmp; -a, -o and the splitting of lines are not modelled.
- Reform.Contract: the limits of the line buffers are not modelled, and the newline that ends a line is not part of it.
- Reform.GetLine: the same; the other line operations of reform are not modelled.
