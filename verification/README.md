# A verified model of ouiche_fs

ouiche_fs is a small Linux file system on 4096-byte blocks. Files of at most 3968 bytes share *sliced blocks*: a sliced
block has a 32-bit bitmap of free 128-byte slices, a link to the next sliced block, and the runs of slices of several
files. Larger files have an index block of 1024 links. Directories are single blocks of 128 entries. Two bitmaps and a few
superblock counters say what is free.

This project models that storage engine and its namespace over an in-memory disk, and proves what the code is for: every
block has exactly one owner, free space is always zero, a write changes one file only and changes it as a write should, an
unlink gives back exactly what the file owned, and all of that in every state that any run of operations reaches, with
syncs and mounts anywhere in between, from the blocks that `mkfs` writes on. Where the code breaks a promise, the input is
named and the exact condition is proved.

`dafny verify dfyconfig.toml` checks the whole project.

## How the model is built

The state is a value, `Volume.Volume`: blocks, both free bitmaps, the inodes and the counters. Each C function has a
specification function on volumes with the same branches and error exits. The class `Engine.FileSystem` holds the same state
in arrays and fields; its methods have the loops and branches of the C code (mask shifting, probe loop, list sweep, chunk
loops, scans) and each is proved equal to its specification function. What C does with one memcpy, memmove or memset is one
store of a pure function here. The theorems are about the specification functions and so about the methods.

The layers, from the bottom:

- `Words`, `HeaderBytes`, `SliceMask`, `Bytes`: masks as sets of slices, stored words, the first-fit search in a block.
- `Bitmap`, `Alloc`: free bitmaps and counters.
- `Volume`: the state and the invariant `Core`: one owner for each block (`Partition`), slice bitmaps against inodes
  (`SlicesOk`), well-formed files with zeros behind their end (`FilesOk`), zero free blocks (`FreeClean`), exact counters
  (`CountersOk`), inode bits (`InodesMatch`). While a file moves or is deleted, `Core` carries the run that is still to be
  given back.
- `Frames`: what a step on one inode leaves alone.
- `BigFile`, `BigWrite`: index blocks, chunks, holes, the free-space check.
- `Slices`, `Chain`, `SmallFile`, `Place`, `SmallWrite`: runs of slices, the linked list on disk and its sweep, the probe
  loop, `write_small_file`, `delete_slice`.
- `WriteIter`, `Convert`, `Read`: the dispatcher, the conversion, reading.
- `Reclaim`, `DirBlock`, `Namespace`, `NsOps`: giving storage back, directory blocks, the tree of names, whole operations.
- `Failure`, `Loss`: writes that fail: what they leave, exactly when that is harmless, what an unlink then loses.
- `Truncate`: opening a file with O_TRUNC.
- `RoundTrip`, `Runs`, `SliceCount`: create-write-unlink, all runs against a file system of byte strings, the slice counter.
- `Mkfs`, `Persist`, `Sync`, `Format`: geometry, bit order on disk, sync and mount, the blocks mkfs writes.
- `Durable`, `FromMkfs`, `AsWritten`: sync and mount at any point of a run, the life of a partition from mkfs on, and the
  write path with nothing repaired.
- `Engine`: the object with its methods.

The owners of blocks (`own`), the sliced chain as a sequence (`chain`) and the place of each name (`home`) are ghost values:
the code does not store them, the theorems say that they exist.

## Where the model departs from the code

- Conversion. file.c:721 calls `write_big_file` while `index_block` still holds the packed small-file value, and file.c:736
  returns 0. `WriteIter.Convert` clears the index first, as the saved copy at file.c:640 implies, releases the saved run
  and returns the byte count; `WriteIter.Write`, `Engine.FileSystem.ConvertFile` and the runs of `Runs` use it.
  `AsWritten.WriteAsWritten` is the write path as it stands. `AsWritten.AsWrittenExact` says exactly when a write of at
  least one byte keeps its promise there: when it is admissible, finds room, and does not convert. For calls that do not
  convert the two paths are the same, so that every theorem about runs holds of the code's own runs
  (`AsWritten.CodeRunRefines`, `AsWritten.CodeRoundTrip`). `AsWritten.FiftyMegabytes` is the failing input: on the 50 MiB
  image of the repository's README the first conversion of the first file answers 0 and leaves a volume that no assignment
  of owners fits.
- Everything else follows the code where it errs, and says so: a failed allocation of a sliced block marks block 0 free
  (`Place.ProbeFull`, `WriteIter.BlockZeroFree`) and, on an empty chain, stores -ENOSPC as a block number and then
  dereferences a null buffer (`Place.Crash`); small reads ignore the position (`Read.SmallRead` says exactly when that
  does not matter); in-place rewrites count their slices again (`SliceCount.RunDrift`); an append is dispatched before its offset is known (`WriteIter.ProbeNever`);
  a big write that stops in mid-loop leaves what it has linked (`Failure.FailureExact`); mkfs supposes that one bitmap block
  counts the used blocks (`FromMkfs.FirstMount`); opening a file with O_TRUNC frees blocks without clearing them and leaves
  the block count (`Truncate.TruncateBreaks`, `Truncate.UnlinkAfterTruncate`); 28-character names are stored cut short (`NsOps.CreateName`).
- README.md:32 of the file system promises names of 28 characters and README.md:31 as many inodes as blocks. The code keeps
  27 characters (inode.c:295), and counts `n + n % 51` inodes for n blocks (mkfs/mkfs-ouichefs.c:106-109).

Runs contain the calls that the invariant survives, and no others are shut out: for a write that is exactly
`Failure.Survives` (`Runs.GoesExact`). Such a write succeeds (`WriteIter.CanWrite`, a condition on sizes and free blocks) or
fails cleanly (`Failure.CleanFailure`: it would outgrow the free blocks, or stopped before anything was linked or stored
past the recorded end, or no block was free at all). `Runs.Allowed` is what the kernel's VFS guarantees (a name that was looked up, a directory
that is one), plus two guards a caller can check: `WriteIter.Admissible`, proved exact by `Failure.WriteExact`, and
`NsOps.RenameOutside`, the renames that read beside a directory block, since inode.c:501 takes any position and inode.c:534
has no loop bound.

## Model

| member | source | states |
|---|---|---|
| Words.BitsOfRun | file.c:982-991 | bit k of ((1 << n) - 1) << i is set exactly for i <= k < i + n |
| Words.SameBits | ouichefs.h:119-122 | a 32-bit bitmap is determined by its 32 bits |
| HeaderBytes.HeaderRoundTrip | ouichefs.h:119-122 | splitting a bitmap into four bytes and reading it back gives the bitmap |
| HeaderBytes.HeaderOrder | ouichefs.h:119-122 | bits 0 to 7 of the bitmap are the first byte of the block, bits 24 to 31 the fourth, as a little-endian machine stores it |
| HeaderBytes.HeaderInjective | ouichefs.h:119-122 | different header bytes are different bitmaps |
| SliceMask.SetRunBits | file.c:499-502 | or-ing the mask into the bitmap frees exactly the slices of the run and no other |
| SliceMask.ClearRunBits | file.c:986-988 | clearing the mask in the bitmap claims exactly the slices of the run and no other |
| SliceMask.FitTest | file.c:986 | the test whether bitmap or-ed with mask is bitmap succeeds exactly when every slice of the run is free |
| SliceMask.AllFreeTest | ouichefs.h:105-109 | bitmap == 4294967294 exactly when bit 0 is clear and slices 1 to 31 are free |
| SliceMask.FirstFit | file.c:984-992 | the least start of a free run of n slices, 0 only if there is none |
| SliceMask.GetConsecutiveFreeSlices | file.c:967-999 | the mask-shifting loop returns the least start index of a free run and claims exactly that run, or changes nothing |
| SliceMask.FreshBlockFits | file.c:418-421 | a fresh block takes a file exactly when it has at most 31 slices, and then at slice 1 |
| SliceMask.LargeNeverFits | file.c:973-984 | no bitmap ever has room for a file of more than 31 slices |
| SliceMask.PutHeaderBits | ouichefs.h:119-127 | setting the bitmap changes neither the link word nor any slice |
| SliceMask.HeaderDetermines | ouichefs.h:119 | equal bitmaps are equal header bytes |
| Bytes.WordRoundTrip | ouichefs.h:93-95 | a little-endian 32-bit link read back is the link written |
| Bytes.WordInjective | ouichefs.h:93-95 | different stored words have different values |
| Volume.PackRoundTrip | file.c:1270 | packing block and slice into index_block and unpacking it (ouichefs.h:130-135) is the identity exactly for block numbers below 2^27 |
| Bitmap.CountUpdate | bitmap.h:20-81 | setting or clearing one bit changes the number of set bits by exactly that bit |
| Bitmap.FirstSet | bitmap.h:20-32 | the least set bit at or after a position, or the size |
| Bitmap.GetFirstFreeBit | bitmap.h:20-32 | finds and clears the least set bit; answers 0 and changes nothing if no bit is set |
| Bitmap.PutFreeBit | bitmap.h:71-81 | sets the bit, or refuses a number above the size; the size itself must not be passed |
| Alloc.GetFreeBlockOk | bitmap.h:55-66 | under the invariant get_free_block fails exactly when the counter is 0, and otherwise hands out the lowest free, zeroed data block and keeps counter and bitmap in step |
| Alloc.PutBlockOk | bitmap.h:71-105 | giving a used block back sets its bit and keeps counter and bitmap in step; a number above the size changes nothing |
| Namespace.GetFreeInodeOk | bitmap.h:38-49 | the lowest unused inode from 1 on, or none exactly when all are in use |
| Frames.FileFrame | file.c:791-965 | a file whose own blocks or slices are unchanged reads the same, even if a sliced block it shares changed |
| Frames.ElsewhereFiles | file.c:1001-1286 | after a step on one inode every other file is well formed and has the same bytes |
| BigFile.ReachApart | file.c:875-888 | a block that is free or belongs to one inode is not reached from any other |
| BigFile.ConfinedCore | file.c:791-965 | a step that touches only free blocks and blocks of one file keeps the whole invariant if it keeps that file, ownership and clean free space |
| BigFile.ChunkBytes | file.c:902-927 | gap zeroing and copy byte by byte: data where it was written, zero in the gap, the old byte elsewhere; the zeroing never reaches the data |
| BigFile.LinkPartition | file.c:876-888 | linking a freshly allocated block into an index entry makes it that entry's block and nobody else's |
| BigFile.LinkBytes | file.c:876-927 | writing into a hole gives the data over zeros, because free blocks are zero |
| BigFile.RewriteBytes | file.c:876-927 | writing into an allocated entry changes exactly the written bytes of the file |
| BigWrite.LoopInodes | file.c:859-943 | i_size, although not updated until the loop ends, matters only for the first chunk |
| BigWrite.LoopOk | file.c:859-948 | with as many free blocks as holes the loop succeeds and is one write of the whole data that kept the invariant at every chunk |
| BigWrite.LoopIff | file.c:859-939 | the loop succeeds exactly when the write ends within 4 MiB and its holes do not outnumber the free blocks |
| BigWrite.BecomeBig | file.c:812-823 | a fresh index block reads as 1024 holes, because free blocks are zero |
| BigWrite.WriteExisting | file.c:791-965 | a successful write to a big file gives old bytes, zeros to the offset, data over them; everything else is untouched and the invariant holds |
| BigWrite.WriteFirst | file.c:812-965 | the same for the first write of a new file |
| BigWrite.CheckExact | file.c:830-842 | the free-space check fires exactly if the file would grow, in blocks of its size, by more than the free blocks |
| BigWrite.WriteExistingIff | file.c:830-888 | a nonempty write to a big file succeeds exactly when it ends within 4 MiB, ceil(new size / 4096) - ceil(old size / 4096) is at most the number of free blocks, and so is the number of holes in the range |
| BigWrite.WriteFirstIff | file.c:812-888 | exactly when the first write of a big file succeeds: one index block and one block per entry touched are free; the unsigned i_blocks - 1 keeps the check from ever firing |
| BigWrite.WriteBigIff | file.c:791-965 | a big write, of any length, to a new or an existing file, succeeds exactly under conditions on sizes, holes and free blocks |
| BigWrite.CheckSuffices | file.c:830-842 | on a file without holes a write within 4 MiB succeeds exactly if ceil(new size / 4096) - ceil(old size / 4096) is at most the number of free blocks |
| BigWrite.CheckMissesHole | file.c:830-842 | with a hole and no free block the check passes and the write still fails |
| BigWrite.ExtendOk | file.c:940-946 | a write of no bytes only moves the end of file |
| Slices.ClaimSlices | file.c:986-988 | claiming a free run keeps every slice either free and zero or covered by exactly one run |
| Slices.ReleaseSlices | file.c:499-506 | releasing a run makes exactly its slices free and zero, whoever else is in the block |
| Slices.MoveSlices | file.c:1150-1151 | a run handed from an inode to a pending deletion stays covered |
| Slices.RewriteSlices | file.c:1247-1253 | rewriting inside a run changes no other run of the block |
| Chain.DropChain | file.c:541-552 | repointing the previous link, or the head, leaves a linked list without exactly the dropped block |
| Chain.DropCore | file.c:536-562 | dropping one empty block keeps the invariant and touches no file |
| Chain.SweepOk | file.c:517-592 | the sweep from any position: the chain becomes the old one minus exactly the empty blocks, in order, with the invariant kept and no bitmap of a kept block changed |
| Chain.SweepCounts | file.c:554-559 | every dropped block is freed once: the free count rises and the sliced count falls by the number of blocks dropped |
| Chain.InUseMembers | file.c:536-576 | a block stays in the chain exactly when it is not empty |
| SmallFile.ClaimCore | file.c:1246-1272 | a new file's run holds zeros up to the offset and then the data, and the invariant holds with the new file as tenant |
| SmallFile.RewriteRunCore | file.c:1145-1148 | an in-place rewrite overlays the file and leaves all files of the block alone |
| SmallFile.DetachCore | file.c:1150-1151 | after index_block is cleared the old run is still held and belongs to nobody else |
| SmallFile.ReleaseCore | file.c:499-510 | releasing the held run keeps the invariant and every file |
| Place.FreshBlockOk | file.c:417-423 | a zeroed block with its four bitmap bytes set is an empty sliced block with no successor |
| Place.AppendCore | file.c:1066-1088 | allocating a sliced block and linking it at the end keeps the invariant and touches no file |
| Place.ProbeHit | file.c:1053-1110 | the probe stops at the first block with room |
| Place.ProbeFresh | file.c:1066-1110 | if no block has room one allocation ends the search, at slice 1 of the new last block |
| Place.ProbeFull | file.c:1028-1075 | without room and without free blocks: an oops on an empty chain, ENOSPC otherwise, and in both cases block 0 is left marked free |
| Place.ProbeOk | file.c:1026-1110 | first fit: the earliest chain block with room and the least slice in it, or one fresh block; it fails exactly when there is neither |
| SmallWrite.WriteNewOk | file.c:1024-1110 | storing a new small file succeeds exactly when there is room; contents, frame, invariant, counter, and no empty sliced block |
| SmallWrite.SweepAll | file.c:517-592 | after a whole sweep no sliced block is empty and no file has changed |
| SmallWrite.DeleteOk | file.c:475-592 | delete_slice gives exactly the held run back and drops exactly the blocks that became empty |
| SmallWrite.WholeIsOverlay | file.c:1149-1214 | forgetting the old bytes at pos == 0 loses nothing, because a changed slice count means that the data are longer than the file |
| SmallWrite.RelocateWrite | file.c:1150-1214 | old and new run are held side by side without overlap, and the new one has the whole new contents |
| SmallWrite.RelocateOk | file.c:1145-1233 | a relocation succeeds exactly when there is room for the new run; contents survive, used slices change by new minus old |
| WriteIter.WriteSmallOk | file.c:1001-1286 | a small write succeeds exactly when it fits in place, in a chain block or in a fresh block, and then means what a write should mean |
| WriteIter.NonEmptyIff | file.c:536-562 | a chain block is not empty exactly when some file's run lies in it |
| WriteIter.ConvertOk | file.c:627-753 | conversion with the index cleared first (not file.c:721 as it stands): exactly when it succeeds; every byte kept, the old run released once, 1 + ceil(size / 4096) blocks taken |
| WriteIter.RelocateFailure | file.c:1223-1231 | a relocation without space restores the file; only block 0 is left marked free |
| WriteIter.BlockZeroFree | file.c:431-435 | after that the next allocation fails although it clears a bit, and the counter stays one too high |
| WriteIter.EmptyFirstWrite | file.c:984-992 | a first write of no bytes at offset 0 claims no slice and yet sets index_block; from then on every small write to that file fails with EIO (file.c:1117-1121) |
| WriteIter.ProbeNever | file.c:764-765 | an append taken for small although it is not appends every free block to the chain as an empty sliced block, and then fails with block 0 marked free |
| WriteIter.WriteOk | file.c:755-789 | write refinement with frame for every admissible write, conversions repaired: success exactly under CanWrite, which tests sizes and free blocks; old bytes, zeros to the offset, data over them; all other files, directories and runs as before; invariant and no empty sliced block |
| WriteIter.AdmissibleExact | file.c:764-787 | with conversions repaired, a write that succeeds leaves a well-formed file exactly if it was admissible, a condition on size, offset, flag and count before the call |
| Failure.LoopReaches | file.c:859-939 | the loop stops exactly where a hole finds no free block or index entry 1024 begins, computed from the index block and the free count before the call, with EFBIG or ENOSPC accordingly; up to there it is the write of the shorter data |
| Failure.BigFailure | file.c:830-939 | a failing write to a big file either changed nothing, or stored exactly the bytes before that point with size and block count as before, and every block still has exactly one owner |
| Failure.StoredExact | file.c:876-939 | after it the file is well formed exactly if nothing was linked or stored past the recorded end, and then reads as its old bytes overlaid as far as it goes |
| Failure.NewFailure | file.c:812-823 | the first big write of a new file fails: EFBIG exactly if there is a free block for the index and for every entry up to the last, ENOSPC otherwise; nothing changed if no block was free; otherwise index_block stays set with a block count of 0, and exactly the blocks taken have no owner |
| Failure.ConvertLoss | file.c:721-743 | a repaired conversion that fails although a block was free, with EFBIG exactly if more than 1024 were: the file is as before byte for byte, and exactly the blocks taken have no owner |
| Failure.SmallFailure | file.c:426-451 | a small write that fails has marked block 0 free and touched no inode; it answers ENOSPC, or ends in a null dereference exactly if there is neither a sliced nor a free block; up to 31 slices it changed nothing else but, then, the head of the chain to 4294967268 |
| Failure.LostForGood | bitmap.h:55-66 | a used block that nothing refers to makes the invariant impossible for every chain and every assignment of owners |
| Failure.FailureExact | file.c:755-789 | a failing write keeps the invariant exactly if it is clean, a condition on the state before the call; then the file has its size and its old bytes overlaid by the part that went in; otherwise no chain and no owners fit |
| Failure.WriteExact | file.c:755-789 | whatever a write answers (conversions repaired): the volume still makes sense exactly if the write succeeded and was admissible, or failed cleanly |
| Failure.WriteSurvives | file.c:755-789 | a write that survives, successful or not: invariant, frame, and the bytes of the file |
| Loss.UnlinkAfterNew | inode.c:384-394 | unlinking a file whose first big write failed releases nothing: exactly the blocks that write took belong to nobody from then on |
| Loss.UnlinkAfterBig | inode.c:396-452 | unlinking a big file after a failed write loses exactly the blocks that index entries at or above the block count point at, and some if the loop got past the recorded end |
| Loss.UnlinkAfterConvert | inode.c:384-394 | unlinking a file whose conversion failed: exactly the blocks the conversion took belong to nobody from then on |
| Truncate.TruncateIs | file.c:201-232 | opening a nonempty big file with O_TRUNC frees its blocks up to the first hole and no others, without scrubbing them; size becomes 0, the block count stays; with no zero entry the loop leaves the index block |
| Truncate.TruncateError | file.c:213-217 | it fails, with EIO, exactly if the file has bytes and its index, packed or not, is no block of the partition |
| Truncate.TruncateBreaks | file.c:201-232 | the invariant survives no such opening of a nonempty file, big or small: the block count of a big one no longer fits its size, and a small one without a byte is malformed |
| Truncate.TruncateDirty | file.c:222-225 | free blocks are zero afterwards exactly if the freed blocks held nothing but zeros |
| Truncate.TruncateUnlink | inode.c:396-452 | unlinking the file then gives back what unlinking it right away gives back, in every bit, counter and inode; only the bytes of the freed blocks differ |
| Truncate.UnlinkAfterTruncate | inode.c:396-452 | so open with O_TRUNC and unlink leave a volume that makes sense exactly if the freed blocks held nothing but zeros |
| Truncate.TruncateSmall | file.c:213-226 | of a small file the packed value is taken for the index block: if it is a free block nothing is freed, the slices keep their bytes, and only the size is lost |
| Convert.AsWrittenBeyond | file.c:721-743 | the conversion as it stands fails with EIO and changes nothing if the packed value is no block number of the volume |
| Convert.AsWrittenStops | file.c:859-900 | if the first word of the block the packed value names is no block number it fails with EIO, and if it is zero and no block is free with ENOSPC, and changes nothing |
| Convert.AsWrittenStray | file.c:721-736 | if the packed value is a free block with enough lower free blocks, it reports 0 bytes and leaves an index block that is marked free: no assignment of owners is possible any more |
| Convert.AsWrittenStolen | file.c:721-736 | if it is another inode's index or directory block, success leaves that block with two owners |
| Read.ReadBig | file.c:338-385 | the chunked read delivers exactly the requested bytes, zeros for holes |
| Read.ReadIter | file.c:239-402 | a read delivers min(count, size - pos) bytes, none from the end on; of a big file byte k is the file's byte pos + k, of a small one the file's byte k whatever the position |
| Read.WantedBytes | file.c:263-267 | what a read should deliver, byte by byte |
| Read.SmallRead | file.c:303-315 | a small read is right for every content exactly at offset 0, at or past the end, or for no bytes |
| Read.SmallReadAt | file.c:303-315 | a small read delivers as many bytes as it should, and the wrong ones wherever the first one wanted differs from the file's first byte |
| Read.ReadOverlay | file.c:859-939 | reading back a range just written delivers the data |
| Reclaim.FreeIsPunch | inode.c:405-431 | scrubbing the index at the end does the same as clearing each entry when its block is freed |
| Reclaim.PunchAllOk | inode.c:405-424 | the loop frees each allocated entry exactly once and keeps the invariant at every turn |
| Reclaim.ReclaimBig | inode.c:396-452 | unlinking a big file raises the free count by its allocated entries plus one, holes included; none is missed below i_blocks - 1 |
| Reclaim.ReclaimSmall | inode.c:389-394 | unlinking a small file gives exactly its run back |
| Reclaim.ReclaimOk | inode.c:377-454 | reclaiming any inode returns all it owned, touches no other inode, and keeps the invariant |
| DirBlock.StrNCmpEqual | inode.c:129-130 | the comparison of at most 28 characters succeeds exactly when slot name and name agree up to there |
| DirBlock.StoredIsFound | inode.c:295-296 | a stored name is found under the name it was created with exactly if it has at most 27 characters |
| DirBlock.InsertBytes | inode.c:290-296 | a new entry byte by byte: the inode number, at most 27 characters and a NUL; every other byte of the block stays |
| DirBlock.InsertListing | inode.c:290-296 | creating appends exactly one entry and keeps the directory packed |
| DirBlock.RemoveListing | inode.c:363-367 | the memmove and memset take exactly one entry out, keep the order of the others and keep the directory packed |
| DirBlock.RenameListing | inode.c:500-502 | a rename in place changes one name and nothing else |
| DirBlock.RemoveInsert | inode.c:290-367 | create then unlink restores the directory block byte for byte |
| DirBlock.Lookup | inode.c:112-139 | lookup refuses a name of more than 28 characters with ENAMETOOLONG, and otherwise finds the first entry of the name in the listing, or none |
| DirBlock.FindFreeSlot | inode.c:290-293 | the first free slot is the number of used ones |
| DirBlock.FindInode | inode.c:354-361 | the search finds the last slot of the inode before the first free slot, and counts the used slots |
| DirBlock.Iterate | dir.c:21-66 | a read of the directory delivers from the position on, as many entries as the caller has room for: the directory itself as ".", its parent as "..", then inode number and 28-byte name field of each used slot; the position is left behind them |
| DirBlock.EmittedListing | dir.c:53-61 | behind the dots, a reader that stops at the first NUL of each field finds the listing |
| DirBlock.ReadDir | dir.c:21-66 | calls that read on where the one before stopped, with buffers of any sizes, deliver every such entry once and in order as far as the buffers reach |
| DirBlock.UsedSlot | dir.c:53-58 | in a packed directory a slot is free exactly when it lies behind the used ones |
| Namespace.SpawnFile | inode.c:146-221 | a new file takes one unused inode and nothing else |
| Namespace.SpawnDir | inode.c:179-202 | a new directory takes one unused inode and one zeroed block |
| Namespace.RegisterTree | inode.c:290-296 | naming an inode gives it exactly one place in the tree and moves no other name |
| Namespace.RegisterLinks | inode.c:301-304 | the parent's link count keeps counting its subdirectories |
| Namespace.UnregisterTree | inode.c:354-367 | removing a name shifts the names behind it and leaves every other inode named exactly once |
| Namespace.UnregisterLinks | inode.c:371-375 | the parent's link count keeps counting its subdirectories after a removal |
| Namespace.StorageTree | file.c:755-789 | a step on a file's storage changes no name and no link count |
| NsOps.CreateOk | inode.c:230-318 | create and mkdir either fail without any effect or add one entry at the end of the listing and one fresh inode: an empty file with one link, or an empty directory of 4096 bytes in the lowest free block; metadata blocks are not touched |
| NsOps.CreateRefused | inode.c:239-266 | what create and mkdir answer: ENAMETOOLONG for more than 28 characters, else EMLINK if 128 entries are listed, else ENOSPC if no block is free or all inodes are in use, else the least unused inode number |
| NsOps.CreateName | inode.c:295-296 | a name just created can be looked up exactly if it has at most 27 characters |
| NsOps.UnlinkOk | inode.c:327-455 | unlink takes out exactly one entry and clears one inode but for its slice count, gives back all it owned, and touches no third inode |
| NsOps.RmdirTest | inode.c:580-595 | the two tests of rmdir refuse exactly the directories that list something |
| NsOps.ScanNames | inode.c:482-498 | the scan of rename: whether the new name is taken, and if not, the last slot of the old name and the first free slot |
| NsOps.AnySlotListed | inode.c:482-495 | looking at all 128 slots is looking at the listing, because unused slots are zero |
| NsOps.RenameAnswers | inode.c:473-512 | what a rename answers, by the two listings: ENAMETOOLONG for more than 28 characters, else EEXIST if the new name is listed, else EMLINK if another directory lists 128 entries; the accesses beside a block exactly if no entry has the old name, or the old directory lists 128 |
| NsOps.RenameInPlace | inode.c:499-506 | a rename in one directory fails exactly if the new name is taken, and otherwise changes the last entry of the old name in place |
| NsOps.RenameHere | inode.c:483-506 | with distinct names that is the entry a lookup finds, and names stay distinct |
| NsOps.MoveCommutes | inode.c:514-554 | inserting first and removing second gives what removing first and inserting second would |
| NsOps.RenameAway | inode.c:508-556 | a rename across directories moves exactly one entry, and link counts follow |
| RoundTrip.Determined | file.c:475-592 | two volumes with the invariant that agree on everything but one unused inode are equal in every byte, bitmap and counter but the slice counter |
| RoundTrip.WriteRunOk | file.c:755-789 | any sequence of admissible writes that succeed or fail cleanly (conversions repaired): the invariant holds and nothing else changed; if all succeed the file reads as all of them overlaid in order |
| RoundTrip.CreateWriteUnlink | inode.c:230-455 | create, any writes that succeed or fail cleanly (conversions repaired), unlink: both bitmaps, the chain in order, all slice bitmaps, the directory block and every byte on disk are as before |
| Runs.StepOk | inode.c:602-609 | every allowed call is defined, and unless it is a write that does not survive, it keeps the invariant and does to a file system of byte strings and listings exactly what the call says; conversions repaired |
| Runs.GoesExact | file.c:755-789 | the writes that are no steps of a run are exactly those after which the invariant does not hold |
| Runs.RunSound | file.c:755-789 | safety over all runs of create, mkdir, write, unlink, rmdir and rename, clean failures included, conversions repaired: every block has exactly one owner, slice bitmaps match inodes, free space is zero, counters are exact, directories packed |
| Runs.RunRefines | file.c:755-789 | every step of every run, conversions repaired, is a step of the byte-string file system; a write that failed stored a part of its data inside the old end of file and nothing else |
| Runs.Untouched | file.c:755-789 | a file keeps its bytes for as long as nobody writes or unlinks it, whatever else happens |
| Runs.ReadBack | file.c:755-789 | what a successful write stored stays readable until the file is touched again |
| Runs.SpecDistinct | inode.c:490-495 | an operation leaves all names distinct exactly if it was refused or the name as stored, at most 27 characters, was not listed by an entry other than the one renamed |
| Runs.NameCutShort | inode.c:295-296 | a 28-character name that no lookup finds and whose creation makes the directory list a name twice |
| Runs.RunDistinct | inode.c:490-495 | names are distinct all along a run exactly if no step that took effect had such a clashing name |
| SliceCount.UsedIsOwned | file.c:967-999 | the slices in use by the bitmaps are as many as the small files hold by their inodes; used and free add up to 31 per block |
| SliceCount.ShownFreeExact | sysfs.c:131-143 | the free-slice file shows the free slices less the counter's drift, and 0 without sliced blocks |
| SliceCount.WriteCounter | file.c:1256 | the slice counter after a successful write (conversions repaired): exact but for in-place rewrites, which count their slices again |
| SliceCount.RunDrift | file.c:1256 | over any run, clean failures included, the counter is ahead of the bitmaps by exactly the slices of all successful in-place rewrites, modulo 2^32 |
| Mkfs.IDivCeil | mkfs/mkfs-ouichefs.c:84-90 | the ceiling of a / b: a <= r * b < a + b |
| Mkfs.RegionsOrdered | mkfs/mkfs-ouichefs.c:105-114 | n + n % 51 inodes for n blocks; for every partition of at least 100 blocks the regions follow one another, are large enough for inodes and bits, and leave room for data |
| Mkfs.SlotsDistinct | super.c:65-66 | distinct inode numbers have disjoint slots inside the inode store |
| Mkfs.WriteBfree | mkfs/mkfs-ouichefs.c:264-282 | the bit-clearing loop clears exactly the bits of the block below the number of used blocks, and stays inside the block exactly if at most 32768 blocks are used |
| Mkfs.FormattableSizes | mkfs/mkfs-ouichefs.c:104-114 | at most 32768 blocks are used exactly for partitions of up to 1665838 blocks, and of 1665864 |
| Mkfs.FreshStorage | mkfs/mkfs-ouichefs.c:92-330 | for those sizes, the volume with the used blocks taken, the root directory and nothing else satisfies the storage invariant |
| Mkfs.FreshSound | mkfs/mkfs-ouichefs.c:152-330 | for those sizes it is a sound file system with one empty directory |
| Mkfs.InodeCounter | mkfs/mkfs-ouichefs.c:124-226 | inode bits 0 and 1 are clear but one inode is counted as used, so the counter is one above the bitmap; the block counter is exact |
| Persist.CopyFromLe64 | bitmap.h:107-121 | copying to 32-bit words puts the low half of each line before the high half |
| Persist.CopyToLe64 | bitmap.h:123-136 | copying back joins the halves |
| Persist.CopyInOut | bitmap.h:107-136 | copying a bitmap in and out gives back the lines |
| Persist.CopyOutIn | bitmap.h:107-136 | copying a bitmap out and in gives back the words |
| Persist.SameBitEitherWay | bitmap.h:107-121 | bit k is the same bit with 32-bit and with 64-bit words |
| Persist.BitmapRoundTrip | super.c:133-185 | a bitmap block written and read back has the same 32768 bits |
| Persist.WordBit | bitmap.h:107-121 | the bit of number k is bit k % 32 of little-endian word k / 32 of the block |
| Sync.RecordRoundTrip | super.c:76-90 | an inode stored and loaded (inode.c:60-77) is the same exactly if each field fits its place |
| Sync.RecordFrame | super.c:73-74 | storing one inode leaves the others of its block alone |
| Sync.FieldPlace | super.c:65-90 | a field of an inode lies in the inode's slot, at its offset in the record |
| Sync.SyncMount | super.c:199-214 | sync and then mount (super.c:285-347) restores both bitmaps, every counter and every inode |
| Sync.MountAnswers | super.c:258-347 | what a mount answers, by the words of block 0: EPERM without the magic number 0x48434957, EIO for a missing bitmap block, EINVAL for less than two inodes, and success if the counts stay inside the bitmaps and the partition |
| Sync.MountReads | super.c:285-345 | which word of the superblock gives which counter, and which bit of which word of the partition each bit of the two bitmaps is |
| Sync.MountInode | inode.c:60-77 | which words of the partition each field of an inode is read from |
| Sync.MetaOk | super.c:100-185 | writing metadata blocks keeps the invariant, every file and every directory |
| Sync.SyncMountSound | super.c:199-347 | after sync and mount the invariant holds and a user sees the same files and directories, if the layout is mkfs's and every field fits; Durable.LifeRefines proves that along runs |
| Durable.SoundFits | super.c:76-185 | what the invariant and the tidy fields bound: every counter and inode field fits its place on disk |
| Durable.StepTidy | super.c:76-90 | every step leaves the metadata blocks alone, and slice counts, directory sizes, link counts and the slice counter small |
| Durable.RemountOk | super.c:199-347 | sync and then mount at any such state: the same files and directories, and as durable as before |
| Durable.LifeRefines | super.c:199-347 | over any sequence of operations, syncs and mounts every operation refines the byte-string file system and no sync and mount shows |
| Sync.SyncBitmap | super.c:133-185 | the sync loops write each block's worth of bits to its block of the region |
| Sync.SyncedTail | super.c:133-185 | behind the end of a bitmap sync leaves the bits of its last block set |
| Format.WriteSuperblock | mkfs/mkfs-ouichefs.c:92-152 | the fields of the superblock, each cut to 32 bits |
| Format.Format | mkfs/mkfs-ouichefs.c:398-460 | mkfs refuses a partition of less than 100 blocks untouched; otherwise it writes superblock, inode store, both bitmaps and the root block in place, exactly as Format.Image says, and stays inside its buffer exactly for the formattable sizes |
| Format.SuperblockWords | mkfs/mkfs-ouichefs.c:117-131 | the superblock word by word |
| Format.RootStoreWords | mkfs/mkfs-ouichefs.c:166-186 | the first block of the inode store word by word: drwxrwxr-x, 4096 bytes, 1 block, 2 links, the first data block, and zeros |
| Format.ImageBytes | mkfs/mkfs-ouichefs.c:190-330 | the other blocks of inode store, bitmaps, root directory and data byte by byte |
| Format.ImageFirstBits | mkfs/mkfs-ouichefs.c:264-287 | the first block of the block bitmap bit by bit |
| Format.ImageIfree | mkfs/mkfs-ouichefs.c:205-246 | the inode bitmap that mount reads back from 0xfffffffffffffffc and all ones: every inode from 2 on is free |
| Format.ImageBfree | mkfs/mkfs-ouichefs.c:249-300 | the block bitmap that mount reads back: used blocks are taken below 32768 and everything from there on is free |
| Format.ImageRecord | mkfs/mkfs-ouichefs.c:155-203 | the inode records that mount reads back: a root directory at number 1 and nothing else |
| Format.MountImage | super.c:243-347 | what a mount finds after mkfs, for every size |
| FromMkfs.MountFresh | super.c:243-347 | mounting the blocks mkfs wrote gives the fresh volume exactly for the formattable sizes |
| FromMkfs.FirstMount | mkfs/mkfs-ouichefs.c:264-350 | the first mount makes sense for some chain and owners exactly if the size is formattable and the partition was zero where mkfs does not write, which mkfs does not see to |
| FromMkfs.OverrunMount | mkfs/mkfs-ouichefs.c:289-297 | on larger partitions block 32768 is marked free although it is in use |
| FromMkfs.StartFacts | super.c:243-389 | on a formattable blank partition the first mount shows an empty root directory and nothing else, and can be synced without loss |
| FromMkfs.RunFromMkfs | super.c:243-389 | every run from the first mount on keeps the invariant, with the exact drift of the slice counter |
| FromMkfs.NamesFromMkfs | inode.c:490-495 | names stay distinct in a run from mkfs on exactly if no step that took effect had a clashing name |
| FromMkfs.LifeFromMkfs | super.c:199-389 | from mkfs on, through any operations and any syncs and mounts: every operation refines the byte-string file system, and no sync and mount shows |
| AsWritten.AsWrittenSame | file.c:774-787 | the write path as it stands differs from the repaired one only for calls that convert |
| AsWritten.AsWrittenExact | file.c:755-789 | a write of at least one byte by the code as it stands reports all bytes and does what a write should exactly if it is admissible, finds room and does not convert |
| AsWritten.CodeRunRefines | file.c:755-789 | every run of the code as it stands in which no write converts is a run of Runs: sound in every state, each step a step of the byte-string file system |
| AsWritten.CodeRoundTrip | inode.c:230-455 | create, any writes of the code that convert nothing, unlink: every byte and bitmap as before |
| AsWritten.FirstSmall | file.c:1066-1272 | the first small file takes the lowest free block for its slices, and slice 1 in it |
| AsWritten.FirstConversion | file.c:721-736 | on a fresh partition of more than 32 f + 1 blocks, f the first free block, the first small file is packed as 32 f + 1, and every write that converts it, to at most 31 f blocks, answers 0 and leaves a volume no owners fit |
| AsWritten.FiftyMegabytes | file.c:721-736 | so on 12800 blocks, where the first file is packed as 8193, for every conversion within 4 MiB |
| Engine.FileSystem.constructor | super.c:285-347 | an object for a given volume and the order of its sliced blocks |
| Engine.FileSystem.GetFreeBlock | bitmap.h:55-66 | in-place allocation is Alloc.GetFreeBlock |
| Engine.FileSystem.PutBlock | bitmap.h:98-105 | in-place release is Alloc.PutBlock |
| Engine.FileSystem.GetFreeInode | bitmap.h:38-49 | in-place inode allocation is Alloc.GetFreeInode |
| Engine.FileSystem.PutInode | bitmap.h:86-93 | in-place inode release is Alloc.PutInode |
| Engine.FileSystem.AllocateSlicedBlock | file.c:426-451 | allocates, marks and counts a sliced block, or puts block 0 back and fails |
| Engine.FileSystem.TakeSlices | file.c:967-999 | claims the first free run of a block in place and notes its length in the inode |
| Engine.FileSystem.FindRun | file.c:1026-1110 | the probe loop over the links on disk finds what Place.Probe finds, and ends for every size |
| Engine.FileSystem.StoreNew | file.c:1024-1286 | the branch for a new file has exactly the effect of SmallWrite.WriteNew |
| Engine.FileSystem.SweepTurn | file.c:522-578 | one turn of the walk over the list is one step of Chain.Sweep |
| Engine.FileSystem.SweepChain | file.c:520-592 | the loop with current and previous block ends and computes Chain.Sweep |
| Engine.FileSystem.DeleteRun | file.c:475-592 | delete_slice in place is SmallWrite.DeleteSlice |
| Engine.FileSystem.StoreInPlace | file.c:1145-1148 | an unchanged slice count rewrites the run where it is |
| Engine.FileSystem.MoveFile | file.c:1149-1233 | the relocation branch in place is SmallWrite.Relocate, with its restore on failure |
| Engine.FileSystem.WriteSmallFile | file.c:1001-1286 | write_small_file in place is SmallWrite.WriteSmall |
| Engine.FileSystem.WriteChunk | file.c:859-938 | one turn of the big loop is BigFile.Chunk |
| Engine.FileSystem.WriteChunks | file.c:859-939 | the big loop is BigWrite.WriteLoop |
| Engine.FileSystem.WriteBigFile | file.c:791-965 | write_big_file in place is BigWrite.WriteBig |
| Engine.FileSystem.ConvertFile | file.c:627-753 | the repaired conversion in place is WriteIter.Convert |
| Engine.FileSystem.WriteFile | file.c:755-789 | custom_write_iter in place is WriteIter.Write, and the write path as it stands for every call that does not convert |
| Engine.FileSystem.ReadFile | file.c:239-402 | custom_read_iter on the object: as many bytes as asked for or left, and which they are |
| Engine.FileSystem.OpenFile | file.c:201-232 | ouichefs_open in place is Truncate.OpenTruncate |
| Engine.FileSystem.FreeBlocks | inode.c:405-424 | unlink's loop in place is Reclaim.FreeData |
| Engine.FileSystem.RetireInode | inode.c:433-452 | clearing the inode and freeing its block and number |
| Engine.FileSystem.ReclaimInode | inode.c:384-452 | the storage half of unlink in place is Reclaim.Reclaimed |
| Engine.FileSystem.TakeInode | inode.c:161-212 | ouichefs_new_inode in place is Namespace.NewInode |
| Engine.FileSystem.AddEntry | inode.c:290-304 | registering a name in place is Namespace.Register |
| Engine.FileSystem.DropEntry | inode.c:363-375 | removing a name in place is Namespace.Unregister |
| Engine.FileSystem.CreateEntry | inode.c:230-318 | create and mkdir in place are NsOps.Create |
| Engine.FileSystem.UnlinkEntry | inode.c:327-455 | unlink in place is NsOps.Unlink |
| Engine.FileSystem.RmdirEntry | inode.c:570-600 | rmdir refuses with ENOTEMPTY or unlinks |
| Engine.FileSystem.RenameEntry | inode.c:457-561 | rename in place is NsOps.Rename, whose answers NsOps.RenameAnswers tells, including when it reads beside a directory block: exactly then, and with the new entry already made |
| Engine.FileSystem.Execute | inode.c:602-609 | carrying out any operation of a run in place, clean failures included, takes the state where the run says and keeps the invariant; conversions repaired |

## Left out

- Engine.FileSystem.ConvertFile: models the repaired conversion, not file.c:721 as it stands; the sweep after the code's own conversion walks links that the big write may have overwritten.
- WriteIter.ConvertOk: proves the repaired conversion; for the code as it stands see AsWritten.AsWrittenExact.
- Runs.RunSound: its writes convert with the repaired conversion; AsWritten.CodeRunRefines is the statement for the code as it stands.
- Convert.AsWrittenStray: states the state left behind for packed values that name a free block with enough lower free blocks; for a free block that the loop itself hands out again, a data block or a sliced block as accidental index only the wrong answer is proved (AsWritten.AsWrittenExact).
- WriteIter.ConvertAsWritten: releases the old run and sweeps along the chain as it was before the big write.
- AsWritten.AsWrittenExact: says nothing of writes of no bytes, whose answer 0 is right either way.
- Writes that fail and break the invariant end a run; `Failure` and `Loss` prove the state they leave and what one unlink then loses, not whole runs from there.
- Loss.UnlinkAfterNew: for a file whose slice count is 0, which Durable.StepTidy proves of every new file.
- Engine.FileSystem.DropEntry: memmove and memset on the directory block are one store of the pure `DirBlock.Remove`; `AddEntry` and `ReleaseSlices` store their block in one piece as well.
- Mkfs.WriteBfree: a 64-bit line is modelled by its 64 bits, not as a machine word with a shifted mask; a line beyond the buffer is not stored.
- Format.Format: sizes are counted in blocks; the device size and I/O errors are not modelled, nor that the fields wrap for partitions of 16 TiB and more.
- Sync.SyncMountSound: permission bits, owners and timestamps of inodes are not modelled, only the file type.
- Sync.MountAnswers: a superblock that counts more inodes or blocks than its bitmaps or the partition hold mounts as `Overlong`, whose state the model does not describe.
- DirBlock.InsertBytes: strscpy is taken to write the kept characters and one NUL, and no byte behind it.
- Kernel plumbing: buffer heads, dentries, inode cache, locking, page cache operations (file.c:26-199) and readahead.
- `ouichefs_open` with O_TRUNC is not a step of a run, because the invariant never survives it; what it frees is stated for big files and for small ones whose packed value is a free block. The truncation by the VFS that follows, which sets the size to 0 again, is not modelled.
- I/O errors, allocation failures of kernel memory and faults while copying from user space.
- `ki_pos` after a call, timestamps, ownership and mode bits, logging, mount and module registration.
- sysfs.c beyond the free-slice formula, ioctl.c, the util program and the test drivers.
- Concurrency: the code takes no locks of its own in these paths, so every operation is one atomic step.
- Wrap-around of the counters other than `nr_used_slices`: the invariant bounds them by the size of the partition.
