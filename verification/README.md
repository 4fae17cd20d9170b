# fscheck: a verified model of an xv6 file-system image checker

`fscheck` reads an xv6-style disk image. Block 0 is the boot block and block 1
the superblock. The inode table starts at block 2, followed by one free-block
bitmap block and then the data blocks. From the inode count the checker derives
where the bitmap and the data region begin. It then runs five fail-fast checks
in a fixed order:

1. bad address in inode;
2. address used by inode but marked free in bitmap;
3. address used more than once;
4. root directory does not exist;
5. directory not properly formatted (a recursive walk from the root).

The first check that fails prints its message and the process exits with
status 1. If every check passes, nothing is printed and the exit status is 0.

The model works on an image that has already been decoded. That image holds
the superblock, the inode table as a `seq<Inode>`, the bitmap block as 512
`bv8` bytes, and the contents of every block read as 32 directory entries.
Each check is a pure function, stated against a declarative predicate.

Modules:

- `FsFormat`: the fs.h constants with their xv6 values (BSIZE 512, NDIRECT 12,
  DIRSIZ 14, BPB = BSIZE*8, inode record 64 bytes, directory entry 16 bytes),
  the records, and `GetInode`.
- `Extents`: the blocks an inode claims. These are its nonzero direct slots in
  slot order, then the indirect extent, which is the inclusive run
  `base .. base + size/BSIZE - NDIRECT` (floor division). Every scan and the
  directory walk use this one linearization.
- `Bitmap`: the bitmap lookup.
- `Geometry`: the layout derivation.
- `InodeChecks`: checks 1-3, including the ledger used for duplicate detection.
- `DirectoryChecks`: check 4, the directory listing and the walk of check 5.
  The walk reads each directory's listing from `Listings`, the listing of every
  inode of the table computed once from the image's blocks.
- `FsCheck`: the checks in their fixed order, plus a minimal consistent image.
- `AsWritten`: the address scans exactly as their loops are written (see Findings).
- `Outcomes`, `Wrappers`: diagnostics, verdicts and `Option`/`Result`.

The run ends in one of four verdicts:

- `Clean`;
- `Failed(d)`, with the exact message of diagnostic `d`;
- `NullInode(n)`: a directory entry names inode slot `n`, which is outside the
  table. The source looks that slot up without a guard and dereferences NULL
  (a/fscheck.c:249-250, 303-304).
- `Diverged`: the walk needed more recursion depth than the `fuel` it was
  given. The source keeps no visited set, so on a cyclic tree it recurses
  without bound.

Some details of the code that a reader might expect to be otherwise:

- Inode-table block count: `1 + floor(ninodes*64/BSIZE)`, which is one block
  more than the ceiling when the table fills its last block exactly
  (`Geometry.InodeBlocksVersusCeiling`).
- Indirect extent: its length uses floor division of the file size by BSIZE.
- Check order: the bitmap check runs before the duplicate check. So an address
  that is claimed twice and also marked free is reported as "marked free".
- Coverage: the checker has exactly these five checks. It keeps no visited set
  and has no code for link counts or reachability.

## Model

| member | source | states |
|---|---|---|
| `FsFormat.GetInode` | a/fscheck.c:40-45 | yields the inode record exactly when 0 <= i < numInodes, and that record is slot i; otherwise none (NULL) |
| `Outcomes.MessagesIdentifyCheck` | a/fscheck.c:71-335 | each diagnostic prints its own line (the five strings printed at lines 71, 110, 147, 175 and 335), so the output names the check that failed |
| `Outcomes.Diagnostic.Message` | a/fscheck.c:71 | each message is a line ended by a newline |
| `Bitmap.IsAllocated` | a/fscheck.c:32-37 | the mask test is true iff bit (a % BPB) % 8, counted from the least significant bit, of bitmap byte (a % BPB) / 8 is set |
| `Bitmap.AllocationDependsOnBitIndexOnly` | a/fscheck.c:33-35 | the lookup depends only on a % BPB: addresses congruent modulo BPB, or BPB apart, get the same answer |
| `Geometry.DeriveLayout` | a/fscheck.c:413-415 | the inode table's bytes fit strictly inside the derived block count, which exceeds them by at most one block (1 + floor); the bitmap sits at 2 + that count and the data region starts right after it |
| `Geometry.InodeBlocksVersusCeiling` | a/fscheck.c:413 | the derived count equals the ceiling of the table size, plus one exactly when the table fills its last block |
| `Extents.DirectBlocks` | a/fscheck.c:64-68 | the direct blocks are exactly the nonzero values among slots 0..NDIRECT-1 (zero slots are skipped) |
| `Extents.DirectBlocksInSlotOrder` | a/fscheck.c:64-68 | the direct blocks hold one entry per nonzero direct slot, in increasing slot order, repeats included: entry k is the address of the k-th nonzero slot |
| `Extents.IndirectRun` | a/fscheck.c:81-83 | the extent is empty when the indirect slot is 0; otherwise it holds exactly the addresses k with base <= k <= base + size/BSIZE - NDIRECT, ascending from base |
| `Extents.BlocksOfMembers` | a/fscheck.c:64-83 | an inode claims an address exactly when a nonzero direct slot holds it or it lies in the inclusive range of a nonzero indirect slot |
| `Extents.Claims` | a/fscheck.c:137-168 | an address is claimed by the table exactly when some inode's direct blocks or indirect extent hold it |
| `InodeChecks.BadAddressInInode` | a/fscheck.c:57-94 | fails (with "bad address in inode") exactly when some inode has a nonzero direct address outside [dataStart, imageSize), or a nonzero indirect slot whose base or extent end lies outside that range |
| `InodeChecks.AddressUsedByInodeButMarkedFreeInBitmap` | a/fscheck.c:96-131 | fails (with "address used by inode but marked free in bitmap") exactly when some nonzero direct address, or some block of a nonzero indirect slot's inclusive range, is not allocated in the bitmap |
| `InodeChecks.ClaimsMarked` | a/fscheck.c:100-130 | every claimed address is allocated exactly when, for every inode, each nonzero direct address and each block of its indirect range is allocated |
| `InodeChecks.RecordClaims` | a/fscheck.c:146-167 | recording claims into the ledger fails exactly when a claim repeats or is already recorded; on success the ledger gains exactly the claimed addresses and nothing else |
| `InodeChecks.AddressUsedMoreThanOnce` | a/fscheck.c:133-170 | fails (with "address used more than once") exactly when the table's claim list contains a duplicate |
| `InodeChecks.ClaimsDistinctIff` | a/fscheck.c:137-168 | the table's claim list repeats no address exactly when no inode claims a block twice and no two inodes claim the same block |
| `InodeChecks.BlocksOfDistinct` | a/fscheck.c:140-167 | an inode claims no block twice exactly when no nonzero direct slot holds the address of a later slot and none lies in its indirect range |
| `InodeChecks.DirectBlocksDistinct` | a/fscheck.c:140-152 | an inode's direct blocks repeat no address exactly when no nonzero direct slot holds the same address as a later slot |
| `InodeChecks.LedgerWithinImage` | a/fscheck.c:85-92 | when every inode passes the bad-address test, every claimed address, and so every ledger entry, lies in [dataStart, imageSize) |
| `DirectoryChecks.RootDirectoryDoesNotExist` | a/fscheck.c:172-216 | fails exactly when inode 1 is missing or not a directory, or the first entry of its first block is "." but names another inode, or the first two entries are "." and ".." and the second names another inode |
| `DirectoryChecks.RootCheckReadsOnlyRoot` | a/fscheck.c:184-210 | check 4 depends on nothing but inode 1 and the first two entries of its first block |
| `DirectoryChecks.LiveEntries` | a/fscheck.c:235-246 | a block yields its entries, in offset order, up to but not including the first whose name begins with a zero byte |
| `DirectoryChecks.EntriesIn` | a/fscheck.c:226-246 | no blocks give no entries, a single block gives its live entries, and no entry read has a name beginning with a zero byte; with `EntriesInAppend` this fixes the entries of any list of blocks |
| `DirectoryChecks.EntriesInAppend` | a/fscheck.c:226-231 | reading two lists of blocks in turn gives the entries of the first list followed by those of the second |
| `DirectoryChecks.Listing` | a/fscheck.c:225-332 | a directory's listing is the entries of its direct blocks in slot order, then those of its indirect extent in address order |
| `DirectoryChecks.WalkDirectory` | a/fscheck.c:218-340 | the walk can fail only with "directory not properly formatted", and reports a NULL lookup only for an inode number outside the table |
| `DirectoryChecks.ScanEntries` | a/fscheck.c:244-276 | the scan of a listing can fail only with "directory not properly formatted", and reports a NULL lookup only for an inode number outside the table |
| `DirectoryChecks.ScanClean` | a/fscheck.c:248-276 | a scan is clean exactly when every entry names a table slot, entries named "." and ".." that point at directories were seen, and every other directory entry walks clean |
| `DirectoryChecks.WalkClean` | a/fscheck.c:334-337 | a directory walks clean exactly when its listing names only table slots, holds "." and ".." entries naming directories, and all its subdirectories walk clean one level deeper |
| `DirectoryChecks.WalkFuelMonotone` | a/fscheck.c:275 | more recursion depth never changes a verdict reached within the smaller depth |
| `DirectoryChecks.ScanFuelMonotone` | a/fscheck.c:329 | more recursion depth never changes the verdict of a scan reached within the smaller depth |
| `FsCheck.Check` | a/fscheck.c:428-435 | each of diagnostics 1-4 is reported exactly when its check fails and every earlier check passed; once checks 1-4 pass, the run's verdict is the verdict of the walk from inode 1; the run is clean exactly when all four conditions hold and that walk is clean |
| `FsCheck.LedgerWritesInBounds` | a/fscheck.c:420-431 | when the run gets past check 1, every address the duplicate check writes into its imageSize-long ledger lies in [dataStart, size) |
| `FsCheck.MinimalImageIsClean` | a/fscheck.c:384-436 | an image whose root directory owns one block holding "." and "..", both naming inode 1, with that block marked in the bitmap, passes every check |
| `AsWritten.AsWrittenVisits` | a/fscheck.c:61-65 | the slots the written loops read all belong to inodes inside the table, and the only direct slot read is slot 0 of inode 0 |
| `AsWritten.AsWrittenVisitsShape` | a/fscheck.c:61-93 | position k of the written visit order is slot 0 of inode 0 for k < NDIRECT, the indirect slot of inode 0 for k = NDIRECT, and the indirect slot of inode k after that |
| `AsWritten.ScanOrderAsWritten` | a/fscheck.c:61-93 | the written loop nest visits slot 0 of inode 0 NDIRECT times, then inode 0's indirect slot, then only the indirect slots of inodes NDIRECT+1 onward; it never reads other direct slots or inodes 1..NDIRECT |
| `AsWritten.WrittenVisitsValid` | a/fscheck.c:64-92 | every slot the written loops visit passes the range test exactly when slot 0 and the indirect slot of inode 0 and the indirect slots of inodes after NDIRECT are in range |
| `AsWritten.BadAddressAsWritten` | a/fscheck.c:57-94 | the written check fails exactly when slot 0 or the indirect slot of inode 0, or the indirect slot of an inode after inode NDIRECT, is out of range; no other slot is tested |
| `AsWritten.MarkedFreeAsWritten` | a/fscheck.c:96-131 | the written check fails exactly when an address claimed by a visited slot is not allocated |
| `AsWritten.UsedMoreThanOnceAsWritten` | a/fscheck.c:133-170 | the written check fails exactly when the claims of the visited slots contain a duplicate |
| `AsWritten.BadAddressMissedAsWritten` | a/fscheck.c:65-73 | an inode 1 that names the superblock passes the written check but fails the intended one |
| `AsWritten.MarkedFreeMissedAsWritten` | a/fscheck.c:104-112 | an inode 1 whose block is free in the bitmap passes the written check but fails the intended one |
| `AsWritten.SpuriousDuplicateAsWritten` | a/fscheck.c:141-150 | a block claimed once, by slot 0 of inode 0, is reported as used twice by the written check and passes the intended one |

## Left out

- Raw I/O and struct decoding (`aquireBlock`, the `open`/`lseek`/`read` calls, a/fscheck.c:48-51 and 391-417). The model starts from decoded records. A read past the end of the file, which leaves the buffer unchanged, is not modelled: every block is taken to be readable.
- Argument and usage handling (a/fscheck.c:387-394) is command-line glue.
- The debug printers `printBitMap` and `printInodes` (a/fscheck.c:346-378) only produce output.
- Memory management and process exit: `malloc`/`free` and `exit` are not modelled. Neither is the `sizeof(short)` versus `int` size mismatch of the ledger allocation (a/fscheck.c:420). The ledger is a set, and `LedgerWithinImage` states the bounds that its writes keep.
- Machine integer widths. The superblock and inode fields are unsigned in xv6 but are stored into `int` variables, and `numInodes * sizeof(dinode)` is computed in a machine word. The model uses unbounded naturals, so values that would wrap past 2^31 are not modelled. The `char` bitmap's sign extension does not change which bit is tested, so bytes are `bv8`.
- a/hash.c and a/hash.h: a mutex-guarded hashtable that the checker does not use. xv6/user/hello.c: a system-call demo. Neither is part of the checker's logic.
- The checker has no code for a bitmap marking a block no inode uses, an unreachable in-use inode, a dangling directory reference, a bad link count, a directory linked twice, a parent/child mismatch, or an invalid inode type, so the model has none either.
- DirectoryChecks.WalkDirectory: recursion depth is bounded by `fuel`. A walk that needs more depth yields `Diverged`. A walk that re-enters a directory before any NULL lookup always does, and there the source recurses until its stack overflows. `WalkFuelMonotone` shows that more fuel never changes any other verdict.
- DirectoryChecks.WalkDirectory: when the walk does not end clean, its contract does not say which non-clean verdict comes out. It only says the verdict is "directory not properly formatted" or a NULL lookup of an out-of-table inode. The exact one depends on entry order, which the function itself models.
- DirectoryChecks.ScanEntries: as for `WalkDirectory`, its contract does not say which non-clean verdict comes out, only that it is "directory not properly formatted" or a NULL lookup of an out-of-table inode; `ScanClean` states when it is clean.
- Extents.DirectBlocks: its own contract states which addresses it holds. Slot order and one entry per nonzero slot are stated by `Extents.DirectBlocksInSlotOrder`, kept apart so that proofs about claim membership do not carry them.
- Extents.Claims: its contract states which addresses are claimed, not how often. How often matters only to check 3, and `InodeChecks.ClaimsDistinctIff`, `BlocksOfDistinct` and `DirectBlocksDistinct` state exactly when the list holds a repeat; the body lists each inode's blocks in turn.

## Findings

The three address scans write their inner loop as `for(j = 0; i < NDIRECT; i++)`. That loop tests and advances the inode counter `i` rather than the slot counter `j`. The model's checks use the intended loop over `j` for every inode. `AsWritten` models the loop as written.

| source | as written | input that shows it | evidently intended | confidence | as-written member | corrected member |
|---|---|---|---|---|---|---|
| a/fscheck.c:65 | only slot 0 of inode 0 and the indirect slots of inode 0 and inodes 13 onward are range-checked | two inodes, so the data region starts at block 4; inode 1 is a file whose direct address 0 is block 1 (the superblock) | every nonzero direct address of every inode is range-checked | high; not executed | `AsWritten.BadAddressMissedAsWritten` | `InodeChecks.BadAddressInInode` |
| a/fscheck.c:104 | the bitmap test reads only slot 0 of inode 0 among all direct slots, and no slot of inodes 1..12 | two inodes; inode 1 uses block 5; the bitmap marks nothing | every block an inode uses is tested against the bitmap | high; not executed | `AsWritten.MarkedFreeMissedAsWritten` | `InodeChecks.AddressUsedByInodeButMarkedFreeInBitmap` |
| a/fscheck.c:141 | slot 0 of inode 0 is recorded in the ledger twelve times, so a nonzero address there is always reported as used more than once | two inodes; inode 0 uses block 5 in direct slot 0 and nothing else; inode 1 is unused | an address claimed once passes the duplicate check | high; not executed | `AsWritten.SpuriousDuplicateAsWritten` | `InodeChecks.AddressUsedMoreThanOnce` |
