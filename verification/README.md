# A verified model of the ChFS inode file system

ChFS keeps a small Unix-like file system on a simulated disk of 512-byte blocks. This project models
three parts of it in Dafny and proves what they promise:

- **the disk** (`inode_manager.h`, `inode_manager.cc`): a free-block bitmap that lives inside the disk,
  a table of 1024 inodes, and files and directories built from them. An inode has 100 direct block
  pointers and one table block; the table holds 128 *inode numbers*. `write_file` cuts a buffer into
  chunks of 51,200 bytes, gives chunks to sub-inodes 0..126 and lets sub-inode 127 recurse on all the
  rest, so a large file is a tree of inodes of any depth;
- **the client** (`chfs_client.cc`): create, mkdir, ln, lookup, unlink, read and write on top of it;
- **the bounded queue** (`rpc/fifo.h`): a monitor with two condition variables.

## How the model is built

The disk is an array of byte blocks (`BlockLayer.Disk`), changed in place by `BlockManager`,
`InodeManager` and `ChfsClient`, one class per class of the source. Proofs work on three abstractions,
each tied to the one below:

1. `Stores.Abs` turns a disk image into a `Store`: the free data blocks as a set, the data blocks as a
   map, the inode records as a sequence. Bit and byte arithmetic ends here (`Bytes`, `Layout`, `Stores`).
2. `Forests.Inv(s, f)` ties a store to a *forest*: for every live inode the finite tree (`FileTree.File`)
   of inodes and blocks under it. This is the disjoint-forest invariant: active pointers (left-over ones
   beyond `size` included) are marked data blocks and pairwise distinct, every table entry is a live inode
   and is listed once, and the reference graph has no cycle, because every live inode has a finite tree.
   The forest is ghost state that the disk determines (`Forests.ForestUnique`). What the readers compute
   is a function of the tree alone, so "this file is unchanged" is one equation, `f'[i] == f[i]`.
   `Losses.Lost` is what the disk has marked and the forest does not reach.
3. `Names.NameSpace` and `Names.DirsOf` turn a forest into a map from directories to maps from names to
   inode numbers, and `Names.ListsOf` into a map from directories to what readdir lists.

`write_file` is specified by `Growth.Wrote`: the tree of the inode now holds the buffer in the layout
`FileFormat.Holds`, it is made of inodes and blocks that were free, and with that inode put back, the
rest of the disk is the old one plus those parts. `remove_file` is specified by `Growth.Removed`.
`Valid()` of each class is the invariant, and every public method proves that it keeps it, so it holds
over every run of these operations. Two modules go on from the methods' contracts to statements about
whole runs: `BlockRuns` for the allocator and `Runs` for the client. Their step relations `Next` are what
the methods of `BlockManager` and `ChfsClient` ensure. `Losses` says which blocks each operation loses for
good; that `unlink` loses the table blocks and nothing else rests on `Losses.Tidy`, which is part of the
client's `Valid()`.

A loop of the source that does many things in one body is split over several methods (`WriteDirect`,
`WriteTable`, `WriteKids`, `WriteKid` and so on for `write_file`), each with its own contract. An
exception or a NULL dereference is a result: `ok == false`, `None`, or `Crash`.

## Where the code differs from what it is meant to do

- **Zeros can be lost.** `read_file` strips the trailing zero bytes of *every* sub-inode, not only of the
  whole file (`inode_manager.cc:295`). `RoundTrip.RoundTripExact` gives the exact condition under which a
  written buffer reads back; `RoundTrip.LostZeros` is the shortest counterexample. Buffers without zero
  bytes, and buffers of at most two chunks, always survive. For every other buffer `Contents.ReadClosed`
  says what is read instead, and `Contents.OnlyZerosLost` that no other byte is lost or moved past another.
- **The reported size** of a file is exact under a slightly different condition, because a last block of
  zeros is reported as one byte (`RoundTrip.ReportedSizeExact`; a file of two zero bytes reports size 1,
  `RoundTrip.ShortReport`). `Contents.SizeClosed` gives the report for every buffer: at most 511 bytes per
  chunk are missed.
- **Table blocks leak**: `remove_file` never frees them (`Growth.TablesKept`), one per level
  (`Growth.TablesExact`). Create, write, remove restores the disk if and only if the buffer has at most
  CHUNK bytes (`Growth.WriteRemoveConserves`); one byte more leaves one block behind
  (`Growth.TableLeftBehind`).
- **Overwriting loses blocks.** `write_file` replaces the direct pointers in front and keeps those behind
  them, which `remove_file` still frees. What is lost is exactly the old blocks in the slots that are
  filled, and the old table (`Losses.OverwriteLoses`); the sub-inodes of that table are left behind as
  roots without a name (`Losses.OverwriteUnlists`). Nothing is lost if and only if those slots were empty
  and no table was in use (`Losses.OverwriteLosesNothing`). Ten blocks overwritten with three lose three
  (`Losses.ThreeBlocksLost`). The client's `write` empties the file first and loses the same
  (`Chfs.RewriteLoses`).
- **An empty sub-inode** is made, on the last level, for every size whose number of chunks is a multiple
  of 128; `Accounting.InodeCostClosed` counts it.
- **A shrinking `set_attr` keeps whole blocks** (`Chfs.CutAtBlock`), although the comment in
  `chfs_client.cc:142-146` asks for the given size: two bytes cut to one still read as two
  (`Chfs.CutKeepsTail`). `write` only uses size 0, where this is exact.
- **A create that runs out of blocks** leaves a nameless inode behind (`Chfs.Stranded`), and **a write that
  runs out of space** loses the old contents and uses up all that was free, blocks or inodes, on the way
  (`WriteSteps.Exhausted`, `Chfs.WriteLoses`).

## Model

| member | source | states |
|---|---|---|
| Layout.ConstantsAgree | inode_manager.h:61-78 | the numerals used for the derived constants are the source's products of sizes |
| Layout.RegionsDisjoint | inode_manager.h:61-74 | for every disk size that fits: bitmap blocks precede inode blocks, inode blocks precede data blocks, and no two inodes share a block |
| Layout.SourceDisk | inode_manager.h:12-74 | on the 2^30-byte disk of the source: bitmap in blocks 2 to 513, inodes in blocks 516 to 1539, data from block 1540 to the last block |
| Bytes.OneBit | inode_manager.cc:21-42 | setting or clearing one bit of a byte changes the test of that bit and of no other |
| Bytes.MaskBits | inode_manager.cc:25-40 | the mask 1 << k has bit k and no other |
| Bytes.MaskValue | inode_manager.cc:25-40 | bit k of a byte has the weight 2^k |
| Bytes.WordRoundTrip | inode_manager.cc:452-459 | a 32-bit value survives being stored as four bytes |
| Bytes.WordBytes | inode_manager.cc:452-459 | the least significant byte of a stored word comes first |
| Bytes.PackRoundTrip | inode_manager.cc:356-375 | a list of 32-bit values stored anywhere in a block reads back as that list |
| Bytes.StripTail | inode_manager.cc:293-299 | dropping trailing zeros keeps the one prefix that ends in a non-zero byte and that only zeros follow |
| Bytes.StripAppend | inode_manager.cc:293-299 | how dropping trailing zeros acts on a concatenation |
| Stores.InodeRoundTrip | inode_manager.cc:166-199 | an inode record written over any block contents reads back as that record |
| Stores.InodeFields | inode_manager.h:80-88 | where the type, the size and each pointer are in the block of an inode; the bytes behind the struct are kept |
| Stores.ZeroBlockIsFreeInode | inode_manager.cc:5-8 | a zeroed inode block is a free inode |
| Stores.BitmapIsSet | inode_manager.cc:21-42 | for every pair of ids, mark_bit and unmark_bit change the status of their own id only, and touch no other block |
| Stores.BitmapIsFlat | inode_manager.cc:21-42 | the bitmap is one string of bits from block 2 on: the status of block id is bit id % 8 of byte id / 8 |
| Stores.AbsMark | inode_manager.cc:28-34 | marking a data block removes it from the free set and moves nothing else of the abstract disk |
| Stores.AbsUnmark | inode_manager.cc:36-42 | unmarking a data block adds it to the free set and moves nothing else |
| Stores.AbsWriteData | inode_manager.cc:97-100 | a write to a data block cannot alter the bitmap or any inode |
| Stores.AbsWriteInode | inode_manager.cc:184-199 | a write of one inode changes neither the bitmap, nor data, nor any other inode |
| BlockRuns.StaysInUse | inode_manager.cc:44-78 | over any run of allocations, frees and writes, a block in use stays in use until it is freed |
| BlockRuns.NeverTwice | inode_manager.cc:44-78 | over any run, no id is handed out twice without being freed in between |
| BlockRuns.FreeStaysZero | inode_manager.cc:65-78 | over any run that writes only to blocks in use, every free data block holds only zeros in every state |
| BlockLayer.Disk.constructor | inode_manager.cc:5-8 | a new disk is all zeros |
| BlockLayer.Disk.ReadBlock | inode_manager.cc:10-13 | returns the block |
| BlockLayer.Disk.WriteBlock | inode_manager.cc:15-18 | replaces one block and no other |
| BlockLayer.BlockManager.constructor | inode_manager.cc:82-90 | a formatted disk: every data block free and zero, every inode free |
| BlockLayer.BlockManager.WriteBlock | inode_manager.cc:97-100 | on a data block, changes only that block's contents in the abstract disk |
| BlockLayer.BlockManager.IsFree | inode_manager.cc:21-26 | true exactly when the bitmap bit is clear |
| BlockLayer.BlockManager.MarkBit | inode_manager.cc:28-34 | the image with exactly that bit set |
| BlockLayer.BlockManager.UnmarkBit | inode_manager.cc:36-42 | the image with exactly that bit cleared |
| BlockLayer.BlockManager.AllocBlock | inode_manager.cc:45-63 | the least free data block, now marked; 0 exactly when none is free, and then nothing changes |
| BlockLayer.BlockManager.FreeBlock | inode_manager.cc:65-78 | a marked data block becomes free and zero; any other id changes nothing |
| FileTree.SizeReportSound | inode_manager.cc:233-303 | on every tree: bytes read <= get_file_size <= BLOCK_SIZE * get_file_block_num |
| FileTree.BlockCountsAgree | inode_manager.cc:578-603 | get_file_block_num equals the number of ids read_blockid lists, on every tree |
| FileFormat.KidCountStep | inode_manager.cc:358-374 | the do-while loop and the branch after it make exactly KidCount sub-inodes |
| FileFormat.ShareIsLen | inode_manager.cc:362-373 | the possibly negative size passed to a sub-inode writes exactly the bytes of its chunk |
| FileFormat.HoldsIsFormed | inode_manager.cc:325-378 | what write_file lays out is a well formed tree |
| FileFormat.FlatPieces | inode_manager.cc:325-347 | the direct blocks are the front of the buffer, padded with zeros to whole blocks |
| FileFormat.ReadHeld | inode_manager.cc:233-303 | reading any tree that holds buf gives a function of buf alone, at any depth |
| RoundTrip.RoundTripExact | inode_manager.cc:293-299 | for every buffer: it reads back, up to trailing zeros, if and only if no boundary between sub-inodes inside its significant part follows a zero byte; what is read is never longer |
| RoundTrip.FrontSurvives | inode_manager.cc:259-303 | the same for the first n sub-inodes |
| RoundTrip.SurvivesSplit | inode_manager.cc:367-374 | the condition for a buffer is the condition for its first 128 chunks and for the rest given to the last sub-inode |
| RoundTrip.ReportedSizeExact | inode_manager.cc:605-648 | after a write the reported size is at most the buffer length, and equal to it if and only if no sub-inode's share ends in a zero and the last byte counts |
| RoundTrip.LastPiece | inode_manager.cc:614-617 | the size read off the last block is exact except for a block of zeros |
| RoundTrip.ShortReport | inode_manager.cc:636-648 | a file of two zero bytes reports size 1 |
| RoundTrip.WrittenReadReported | inode_manager.cc:233-383 | for a buffer ending in a non-zero byte: bytes written, bytes read and size reported are the same if and only if the boundaries are solid |
| RoundTrip.TextRoundTrip | inode_manager.cc:233-383 | a buffer without zero bytes reads back whole, at any length |
| RoundTrip.TwoChunkRoundTrip | inode_manager.cc:233-383 | a buffer of at most two chunks reads back up to its trailing zeros |
| RoundTrip.LostZeros | inode_manager.cc:293-299 | two chunks of zeros and one byte read back with the byte one chunk too early |
| Contents.ReadClosed | inode_manager.cc:233-303 | what any written buffer reads as, also where it does not survive: its chunks one after the other, each that is the share of a sub-inode without the zeros it ends in (every 128th chunk is in direct blocks and kept whole), and the whole without trailing zeros |
| Contents.OnlyZerosLost | inode_manager.cc:233-303 | reading any written buffer gives its non-zero bytes, all of them and in order |
| Contents.SizeClosed | inode_manager.cc:605-648 | the reported size and the zeros that end the last block of each measured share (one fewer where the block is all zero) add up to the length written; so at most 511 bytes per chunk are missed |
| Contents.BlocksInOrder | inode_manager.cc:756-786 | in a written file of any depth, the k-th id that read_blockid lists is that of the block with the k-th 512 bytes of the buffer |
| Accounting.BlockCostClosed | inode_manager.cc:325-378 | the blocks the recursion spends on n bytes: ceil(n / BLOCK_SIZE) and one table per level |
| Accounting.InodeCostClosed | inode_manager.cc:356-374 | the sub-inodes it makes: chunks - 1, plus one when the number of chunks is a multiple of 128 |
| Accounting.HeldBlockNum | inode_manager.cc:578-603 | after a write of n bytes both block counters find ceil(n / BLOCK_SIZE) |
| Accounting.HoldsIsPacked | inode_manager.cc:356-374 | write_file fills sub-inodes one after the other |
| Accounting.BlockAtIndex | inode_manager.cc:744-751 | the slot arithmetic of ino_next_block, capped at the last slot, lands on the i-th listed block |
| Forests.InvFormatted | inode_manager.cc:82-90 | the formatted disk satisfies the invariant |
| Forests.InvNewInode | inode_manager.cc:117-145 | a new inode keeps the invariant and roots a tree of its own |
| Forests.InvAlloc | inode_manager.cc:45-63 | taking a free block keeps the invariant |
| Forests.InvWriteReserved | inode_manager.cc:335-339 | writing a block nobody points at yet keeps the invariant |
| Forests.Attach | inode_manager.cc:376-380 | giving an inode new blocks and new sub-inodes keeps the invariant |
| Forests.Nested | inode_manager.cc:356-377 | two trees that share an inode are one inside the other |
| Forests.SiblingsDisjoint | inode_manager.cc:356-377 | two sub-inodes of one inode share nothing |
| Forests.RootsDisjoint | inode_manager.cc:306-439 | the trees of two different files share no inode |
| Forests.ForestUnique | inode_manager.cc:233-303 | the disk determines the trees |
| Forests.TreeFormed | inode_manager.cc:306-439 | every tree on a disk that satisfies the invariant is well formed |
| Forests.EraseTree | inode_manager.cc:402-439 | clearing all inodes of a root's tree and freeing any of its blocks keeps the invariant and all other roots |
| Growth.WroteFrame | inode_manager.cc:306-383 | a write leaves every other file and directory as it was: contents, size, type, entries |
| Growth.WroteKinds | inode_manager.cc:306-383 | the type of the written inode stays, and all inodes made on the way are plain files |
| Growth.WroteRoots | inode_manager.cc:306-383 | a write lists no inode that was there before |
| Growth.ReleasedActive | inode_manager.cc:415-422 | remove_file frees only blocks that the inode points at, and never its table block |
| Growth.RemovedKeepsInv | inode_manager.cc:402-439 | removing a root keeps the invariant and every other file |
| Growth.CleanReleases | inode_manager.cc:415-422 | on a tree without left-over pointers remove_file frees exactly the data blocks |
| Growth.TablesKept | inode_manager.cc:423-435 | remove_file frees no table block of the tree, whatever the tree |
| Growth.TablesExact | inode_manager.cc:348-377 | a written file has exactly one table block per level |
| Growth.WriteRemoveConserves | inode_manager.cc:306-439 | alloc_inode, write_file, remove_file: bitmap, data and inode table are back, except that exactly the table blocks of the tree, one per level, stay marked; everything is back if and only if the buffer has at most CHUNK bytes |
| Growth.TableLeftBehind | inode_manager.cc:423-435 | CHUNK + 1 bytes written to a new file and removed again leave exactly one block marked |
| Losses.OverwriteLoses | inode_manager.cc:325-379 | write_file to any inode: the marked blocks nobody points at are the old ones, plus exactly the non-zero direct pointers in the slots it fills and the old table |
| Losses.OverwriteUnlists | inode_manager.cc:348-379 | the sub-inodes of the old table become roots, and no other inode does or ceases to be one |
| Losses.OverwriteLosesNothing | inode_manager.cc:325-379 | a write loses no block if and only if the slots it fills were zero and no table was in use |
| Losses.OverwriteCount | inode_manager.cc:325-379 | for a file without left-over pointers: the number of blocks lost, from the old and the new length |
| Losses.ThreeBlocksLost | inode_manager.cc:325-346 | a new file of ten blocks overwritten with three blocks loses three |
| Losses.CutLoses | inode_manager.cc:720-726 | lowering the size forgets the table, leaves its sub-inodes behind, and loses nothing else |
| Losses.GrowthLoses | inode_manager.cc:339-353 | an operation that only takes free parts loses exactly the blocks it took and no inode it made points at |
| Losses.RemovalLoses | inode_manager.cc:402-439 | remove_file loses exactly the blocks its inodes point at and it does not free; only the removed inode ceases to be a root |
| Losses.RemovalLosesTables | inode_manager.cc:415-435 | where no record has a zero pointer before a non-zero one, these are exactly the tables of the tree |
| Losses.RemovalLosesNothing | inode_manager.cc:415-435 | a removal loses nothing if and only if the file has no table and no such gap |
| Losses.AppendLosesNothing | inode_manager.cc:492-507 | add_to_dir loses no block |
| Losses.DropLosesNothing | inode_manager.cc:533-555 | remove_from_dir of an entry that is there loses no block |
| Losses.TidyWrote | inode_manager.cc:325-379 | write_file leaves no gap in any record that had none |
| Losses.TidyDropped | inode_manager.cc:533-555 | remove_from_dir leaves no gap and no left-over pointer in the directory |
| WriteSteps.DirectStep | inode_manager.cc:325-347 | one more direct block: the blocks so far hold the front of the buffer, are distinct, were free, and nobody else points at them |
| WriteSteps.KidStep | inode_manager.cc:360-364 | a sub-inode and its tree are made of free inodes and blocks only |
| WriteSteps.KidsStep | inode_manager.cc:358-374 | one more sub-inode: the chunks so far are held by disjoint new trees that no table lists |
| WriteSteps.TableStored | inode_manager.cc:348-377 | the table block, reserved before and written after the recursion, lists the sub-inodes in order |
| WriteSteps.SmallReady | inode_manager.cc:325-347 | before the final put_inode a small file is complete |
| WriteSteps.LargeReady | inode_manager.cc:348-377 | before the final put_inode a large file is complete |
| WriteSteps.FinishWrite | inode_manager.cc:378-380 | the final put_inode turns that into the specified outcome of write_file |
| WriteSteps.ExhaustedAfter | inode_manager.cc:339-353 | steps that took free parts, and then one that ran out of space, amount to an operation that ran out |
| WriteSteps.ExhaustedFiles | inode_manager.cc:339-361 | what a write that ran out of space leaves behind are plain files, and every root is a root still |
| RemoveSteps.RemovalAddsUp | inode_manager.cc:415-436 | direct blocks, then sub-trees, then the inode add up to the removal of the tree |
| RemoveSteps.KidUntouched | inode_manager.cc:427-434 | the sub-inodes removed before do not touch the next one |
| RemoveSteps.NodeStillThere | inode_manager.cc:423-435 | after the direct blocks are freed the table is still readable |
| RemoveSteps.RemovalIsGone | inode_manager.cc:402-439 | the step-wise removal of a root is the specified outcome of remove_file |
| Directory.EntryRoundTrip | inode_manager.cc:499-502 | a name of at most BLOCK_SIZE - 4 bytes without zeros and its inode number survive their block |
| Directory.EntryFields | inode_manager.cc:499-502 | the inode number is in bytes 0 to 3 of the block, then comes the name, then zeros |
| Directory.AppendListing | inode_manager.cc:491-507 | add_to_dir appends exactly the new pair to the listing |
| Directory.AppendAllListing | inode_manager.cc:484-531 | over any run of appends within NDIRECT entries: the old listing, then all new pairs in the order they were added |
| Directory.ListingInOrder | inode_manager.cc:441-482 | for a directory tree of any depth, the k-th entry of read_dir is in the k-th block of read_blockid |
| Directory.DropListing | inode_manager.cc:533-555 | remove_from_dir overwrites the entry with the last one and drops the last |
| Directory.DropMovesLast | inode_manager.cc:533-555 | place by place: the last entry is where the removed one was, and every other entry stays in its place |
| Directory.DropKeepsOthers | inode_manager.cc:533-555 | so exactly one occurrence of that entry is gone, and every other entry stays |
| Directory.AppendKeepsInv | inode_manager.cc:484-531 | appending an entry keeps the invariant and all roots |
| Directory.DroppedKeepsInv | inode_manager.cc:533-555 | removing an entry and freeing its block keeps the invariant and all roots |
| Directory.CutKeepsInv | inode_manager.cc:691-727 | lowering `size` keeps the invariant, left-over pointers included |
| InodeLayer.InodeManager.constructor | inode_manager.cc:104-113 | a valid disk whose only inode is the empty root directory 1 |
| InodeLayer.InodeManager.GetInode | inode_manager.cc:166-182 | the record of an inode number in range, absent otherwise |
| InodeLayer.InodeManager.PutInode | inode_manager.cc:184-199 | replaces that record and nothing else; ignores numbers out of range |
| InodeLayer.InodeManager.FindFreeInode | inode_manager.cc:201-216 | the least free inode; absent exactly when all 1024 are in use |
| InodeLayer.InodeManager.AllocInode | inode_manager.cc:117-145 | succeeds exactly when fewer than 1024 inodes are live; the least free inode becomes a new root of the kind asked for, with size 0 and no pointer |
| InodeLayer.InodeManager.FreeInode | inode_manager.cc:147-162 | clears a live inode and nothing else |
| InodeLayer.InodeManager.WritePiece | inode_manager.cc:327-346 | one free block now holds piece i, padded; 0 exactly when no block is free |
| InodeLayer.InodeManager.WriteDirect | inode_manager.cc:325-347 | one new block per piece up to NDIRECT, succeeding exactly when that many are free |
| InodeLayer.InodeManager.WriteKid | inode_manager.cc:360-364 | a new sub-inode holding its share, at the exact cost |
| InodeLayer.InodeManager.WriteFrontKids | inode_manager.cc:357-366 | the do-while loop: sub-inodes 0..126 as far as the buffer reaches, in table order, at the exact cost so far |
| InodeLayer.InodeManager.WriteKids | inode_manager.cc:356-374 | all sub-inodes of a file, in table order, at the exact cost; or no block or inode is left |
| InodeLayer.InodeManager.WriteTable | inode_manager.cc:348-377 | table and sub-inodes; succeeds exactly when enough blocks and inodes are free, other files untouched |
| InodeLayer.InodeManager.WriteRest | inode_manager.cc:348-378 | everything between the direct blocks and the final put_inode |
| InodeLayer.InodeManager.WriteFile | inode_manager.cc:306-383 | succeeds if and only if BlockCost blocks and InodeCost inodes are free, consumes exactly those, and then the inode holds the buffer and everything else is as it was; otherwise all that was there is as it was, what was taken stays taken, and no block or no inode is left; the invariant holds either way |
| InodeLayer.InodeManager.Adjust | inode_manager.cc:293-299 | drops exactly the trailing zeros |
| InodeLayer.InodeManager.ReadFile | inode_manager.cc:233-303 | returns the contents of the tree (for a written file, those of Contents.ReadClosed); nothing for an inode not in use or out of range |
| InodeLayer.InodeManager.LastNonZeroIndex | inode_manager.cc:636-648 | the last non-zero position of a block, 0 if it is all zero |
| InodeLayer.InodeManager.GetFileSize | inode_manager.cc:605-634 | the size report of the tree (for a written file, that of Contents.SizeClosed) |
| InodeLayer.InodeManager.GetFileBlockNum | inode_manager.cc:578-603 | the block count of the tree |
| InodeLayer.InodeManager.ReadBlockIds | inode_manager.cc:756-786 | the data blocks of the tree in order |
| InodeLayer.InodeManager.InoNextBlock | inode_manager.cc:729-754 | on packed trees, the i-th element of what read_blockid lists |
| InodeLayer.InodeManager.RemoveFile | inode_manager.cc:402-439 | clears all inodes of the tree and frees the direct blocks they point at, nothing else |
| InodeLayer.InodeManager.RemoveDirect | inode_manager.cc:415-422 | frees the pointers before the first zero one, left-over ones included |
| InodeLayer.InodeManager.RemoveKids | inode_manager.cc:425-434 | removes every listed sub-inode with its tree |
| InodeLayer.InodeManager.Remove | extent_server.cc:71-79 | the tree of a root is gone, every other file is as it was; a dead inode is ignored |
| InodeLayer.InodeManager.SetAttr | inode_manager.cc:565-576 | lowering the size changes the size field alone and keeps the blocks of the new size; equal sizes change nothing |
| InodeLayer.InodeManager.PaddingFile | inode_manager.cc:691-727 | where no block has to be added, only the size field changes |
| InodeLayer.InodeManager.AddToDir | inode_manager.cc:484-531 | below NDIRECT entries: one free block becomes the new last entry; fails exactly when none is free; ignores what is not a directory |
| InodeLayer.InodeManager.ReadDir | inode_manager.cc:441-482 | the entries of the whole directory tree in order; nothing for what is not a directory |
| InodeLayer.InodeManager.FindEntry | inode_manager.cc:803-816 | the index of the first entry for that inode, the length if there is none |
| InodeLayer.InodeManager.FreeAndFindLast | inode_manager.cc:788-821 | frees the block of exactly that entry and reports it and the last one |
| InodeLayer.InodeManager.SetInoBlockId | inode_manager.cc:823-855 | replaces one direct pointer of a directory; a zero also lowers the size |
| InodeLayer.InodeManager.RemoveFromDir | inode_manager.cc:533-555 | the first matching entry is overwritten by the last, the last dropped, and exactly its block freed |
| InodeLayer.FullTable | inode_manager.cc:201-216 | all inodes are in use exactly when 1024 are live |
| Names.DirMapIs | chfs_client.cc:230-254 | a listing without repeated names is a map: same names, same inodes |
| Names.WithoutMap | inode_manager.cc:533-555 | moving the last entry into the hole removes exactly one name from the map |
| Names.FirstIndexUnique | inode_manager.cc:803-816 | where no inode is listed twice, the search by inode finds the entry found by name |
| Names.NewInodeNames | chfs_client.cc:153-228 | a new inode keeps the name space; a new directory is empty |
| Names.AppendNames | chfs_client.cc:153-228 | appending a fresh name for a nameless inode keeps the name space and binds exactly that name |
| Names.UnlinkNames | chfs_client.cc:333-355 | removing a file and its entry keeps the name space and unbinds exactly that name |
| Names.SameNames | chfs_client.cc:306-331 | changes to plain files leave the name space alone |
| Chfs.SpliceSlices | chfs_client.cc:306-331 | after a splice the written range is the data, bytes outside it are unchanged, and a hole is zero |
| Chfs.WriteThenRead | chfs_client.cc:278-331 | after a write the file is the spliced content without trailing zeros if and only if that content survives; the range just written then reads back |
| Chfs.CutAtBlock | inode_manager.cc:691-727 | cutting a file to n bytes keeps whole blocks, and cuts at byte n if and only if only zeros follow it in its block |
| Chfs.CutKeepsTail | inode_manager.cc:691-727 | a file of two non-zero bytes cut to one byte still reads as two |
| Chfs.ExhaustedNames | chfs_client.cc:306-331 | a write that runs out of space leaves every name as it was |
| Chfs.RewriteLoses | chfs_client.cc:306-331 | emptying a file and writing it loses the blocks overwritten and the old table, whose sub-inodes are left behind; when space runs out, the old table and all that was taken and is not pointed at |
| Chfs.ChfsClient.constructor | chfs_client.cc:21-27 | a new file system: an empty root directory, nothing lost |
| Chfs.ChfsClient.Lookup | chfs_client.cc:230-254 | finds a name if and only if the abstract map of that directory has it, and the inode it maps to |
| Chfs.ChfsClient.CreateEntry | chfs_client.cc:153-228 | EXIST exactly when the name is bound, and then nothing changes; fails exactly when inodes or, below a directory, blocks have run out; otherwise binds exactly that name, as the last entry of the directory, to a new empty inode of the kind asked for (below what is no directory the inode stays nameless) and keeps every other file; loses no block |
| Chfs.ChfsClient.Unlink | chfs_client.cc:333-355 | unbinds exactly that name, its place in the listing taken by the last entry, and removes exactly that file; loses exactly its table blocks; an unbound name changes nothing |
| Chfs.ChfsClient.Read | chfs_client.cc:278-304 | byte j of the result is byte off + j of the contents, and there are as many as size and the end of the file allow: none at or beyond the end |
| Chfs.ChfsClient.SpliceInto | chfs_client.cc:320-327 | the resize and the copying loop compute the splice |
| Chfs.ChfsClient.Clear | chfs_client.cc:319-319 | set_attr to 0 changes the size field alone: the file is empty, no block is freed, its table is lost |
| Chfs.ChfsClient.Put | extent_server.cc:26-35 | write_file of the whole string: names and other files are kept whether it succeeds or not; the name space and the invariant hold either way |
| Chfs.ChfsClient.Write | chfs_client.cc:306-331 | the file holds the old contents with the data spliced in at off, succeeding exactly when the spliced content fits in the free space; on failure the old contents are lost; other files and all names are kept either way, and the blocks lost are exactly those of WriteLoses |
| Runs.FileStays | chfs_client.cc:153-355 | over any run of creates, unlinks and writes, failed ones included: a file that is neither unlinked nor written keeps its name, its inode and its whole tree, whatever else is created, removed or written meanwhile |
| Runs.LastWriteCounts | chfs_client.cc:278-331 | over any run, until the next write or unlink of a file, it reads as the splice of the last write without trailing zeros, if and only if that content survives |
| Runs.LastWriteReads | chfs_client.cc:278-331 | what it reads as then and the size it reports, in closed form, also where the content does not survive |
| Runs.NamesReplay | chfs_client.cc:153-355 | over any run, the directories are what replaying the calls on a map of maps gives |
| Runs.FoundByReplay | chfs_client.cc:230-254 | after any run a name is found if and only if the replay has it, with the inode it has there |
| Runs.ListsReplay | chfs_client.cc:153-355 | over any run, what readdir lists of each directory, in order, is what replaying the calls on sequences gives |
| Runs.CallKeepsKind | chfs_client.cc:153-355 | no call changes the kind of an inode that stays in use |
| Runs.KindStays | chfs_client.cc:153-355 | over any run, an inode has the same kind as long as it is in use |
| Runs.KindAsAsked | chfs_client.cc:153-228 | over any run, that is the kind which the create, mkdir or ln that made it asked for |
| Runs.CallKeepsFile | chfs_client.cc:153-355 | one call that neither unlinks the name nor writes the file leaves both as they are |
| Runs.NamesApart | inode_manager.cc:484-555 | entries of one directory or of two never list the same inode |
| Fifo.StepKeepsInv | rpc/fifo.h:56-92 | every step of every thread keeps order, bound and wake-up promises |
| Fifo.EveryRun | rpc/fifo.h:56-92 | over every interleaving: values come out in the order they went in, none is lost or made up, a bounded queue never exceeds its bound, and no wake-up is lost |
| Fifo.RunServes | rpc/fifo.h:56-92 | over every interleaving the monitor does what a plain bounded queue does: each turn of enq that finds room puts in the value of its own thread's latest call, each turn of deq takes out the first value not taken yet, and whoever waits or was woken still carries its own value |
| Fifo.StepServes | rpc/fifo.h:56-92 | every step keeps that agreement |
| Fifo.PushKeeps | rpc/fifo.h:61-71 | an enqueue that finds room adds one value and wakes one waiting taker |
| Fifo.PopKeeps | rpc/fifo.h:83-88 | a dequeue frees one slot and wakes one waiting giver of a bounded queue |
| Fifo.TakerIsWoken | rpc/fifo.h:70-81 | while a taker waits and a value is there, some taker has been woken |
| Fifo.GiverIsWoken | rpc/fifo.h:65-87 | while a giver waits and there is room, some giver has been woken |
| Fifo.EnqGives | rpc/fifo.h:56-72 | a turn of enq puts its value in exactly if there is room and stays behind, carrying that value, exactly if there is none and it is willing to wait |
| Fifo.DeqGives | rpc/fifo.h:74-92 | a turn of deq takes the front value exactly if there is one and waits otherwise |
| Fifo.EnqSignals | rpc/fifo.h:61-71 | a turn of enq signals exactly if it puts a value in, and then the one waiting taker that is picked moves to the woken ones |
| Fifo.DeqSignals | rpc/fifo.h:77-89 | a turn of deq signals exactly if it makes room in a bounded queue, and then the one waiting giver that is picked moves to the woken ones |
| Fifo.NoDeadlock | rpc/fifo.h:56-92 | takers and givers never wait for each other with nobody woken |
| Fifo.Monitor.constructor | rpc/fifo.h:32-38 | an empty queue with nobody waiting |
| Fifo.Monitor.Size | rpc/fifo.h:49-54 | true exactly when more has been put in than taken out |
| Fifo.Monitor.EnqTurn | rpc/fifo.h:56-72 | the queue object does what the step says; the outcome tells whether the value went in, and a turn that waits carries that very value |
| Fifo.Monitor.DeqTurn | rpc/fifo.h:74-92 | the queue object does what the step says and returns the value taken |

## Left out

- InodeLayer.InodeManager.SetAttr: only sizes up to the reported size and up to CHUNK bytes. A larger size goes to truncate_file, which frees blocks instead of adding them, and a cut above CHUNK keeps a table whose later entries stay in use; no size-setting contract holds for either, and `write` only uses size 0.
- InodeLayer.InodeManager.PaddingFile: only where no block has to be added, for the same reason.
- InodeLayer.InodeManager.AddToDir: directories below NDIRECT entries. At NDIRECT entries the source uses block 0 as the table without allocating one, so two such directories would share their entries.
- InodeLayer.InodeManager.RemoveFromDir: directories of 1 to NDIRECT entries; above that set_ino_block_id does not write back a cleared table slot, and on an empty directory the source takes the last element of an empty vector.
- InodeLayer.InodeManager.SetInoBlockId: the branch for directories with a table, and the auto_free argument that only that branch sets.
- Chfs.ChfsClient.CreateEntry: parents that are inodes in use, directories below NDIRECT entries, and names of at most BLOCK_SIZE - 4 bytes without a zero byte; longer names overrun the source's stack buffer.
- Chfs.ChfsClient.Unlink: names of plain files and links. Unlinking a directory orphans what it lists; fuse.cc:429 forbids it.
- InodeLayer.InodeManager.WriteFile: root inodes in use, which is what every caller passes; on a dead inode the allocation inside could hand out the same number again.
- InodeLayer.InodeManager.InoNextBlock: packed trees, which is what write_file builds.
- Names over several clients or crashes: one client runs one operation at a time, as in the source.
- Timestamps: the three fields are stored as zero.
- get_attr, isfile, isdir, getfile, getdir, n2i and filename: they copy fields.
- extent_client and extent_server: their forwarding is inlined; the id mask 0x7fffffff changes no inode number in range.
- Files of 2^31 bytes or more, where the source's int sizes overflow.
- The reads and writes one past the end of a stack buffer in read_file (inode_manager.cc:254, 295), and the memory the source allocates and frees.
- using_blocks of block_manager and MAXFILE: never used.
- The table of write_file is built as a list of numbers and padded with zeros when it is stored, instead of in a zeroed array.
- fifo: a negative limit, and errors of the mutex and condition variable calls.
- fuse.cc, extent_smain.cc, the RPC library other than fifo.h, and the test scripts: I/O, mounting and networking.
