/**
 The checker's entry point: derive the layout from the inode count, then run
 the five checks in their fixed order and stop at the first that fails.
 */
module FsCheck {
  import opened Wrappers
  import opened FsFormat
  import opened Extents
  import opened Bitmap
  import opened Geometry
  import opened Outcomes
  import opened InodeChecks
  import opened DirectoryChecks

  /** First block of the data region. */
  function DataStart(img: Image): nat {
    DeriveLayout(img.sb.ninodes).dataStart
  }

  /** Check 1's condition: every inode address lies in [DataStart, size). */
  predicate AddressesValid(img: Image) {
    AllAddressesValid(img.inodes, DataStart(img), img.sb.size)
  }

  /** Check 2's condition: the bitmap marks every block an inode uses. */
  predicate BlocksMarked(img: Image) {
    forall i | 0 <= i < |img.inodes| :: InodeBlocksMarked(img.bitmap, img.inodes[i])
  }

  /** Check 3's condition: no block is claimed twice. */
  predicate ClaimsDistinct(img: Image) {
    Distinct(Claims(img.inodes))
  }

  /** Check 4's condition: the root is a directory whose "." and ".." name inode 1. */
  predicate RootValid(img: Image) {
    RootIsDirectory(img.inodes) && RootSelfLinksPointToRoot(img.inodes, img.block)
  }

  /**
   The whole run, with the directory walk given recursion depth fuel. Each
   diagnostic is reported exactly when its check fails and every earlier check
   passed; once the first four pass, the verdict is the walk's verdict from the
   root.
   */
  function Check(img: Image, fuel: nat): (r: Verdict)
    requires img.Decoded()
    ensures r == Failed(BadAddress) <==> !AddressesValid(img)
    ensures r == Failed(MarkedFree) <==> AddressesValid(img) && !BlocksMarked(img)
    ensures r == Failed(UsedMoreThanOnce) <==>
              AddressesValid(img) && BlocksMarked(img) && !ClaimsDistinct(img)
    ensures r == Failed(RootMissing) <==>
              AddressesValid(img) && BlocksMarked(img) && ClaimsDistinct(img) && !RootValid(img)
    ensures r == Clean <==>
              && AddressesValid(img) && BlocksMarked(img) && ClaimsDistinct(img) && RootValid(img)
              && WalkDirectory(img.inodes, Listings(img.inodes, img.block), 1, fuel) == Clean
    ensures AddressesValid(img) && BlocksMarked(img) && ClaimsDistinct(img) && RootValid(img) ==>
              r == WalkDirectory(img.inodes, Listings(img.inodes, img.block), 1, fuel)
    ensures !r.Clean? && !r.Failed? ==>
              AddressesValid(img) && BlocksMarked(img) && ClaimsDistinct(img) && RootValid(img)
  {
    var layout := DeriveLayout(img.sb.ninodes);
    if BadAddressInInode(img.inodes, layout.dataStart, img.sb.size).Some? then Failed(BadAddress)
    else if AddressUsedByInodeButMarkedFreeInBitmap(img.bitmap, img.inodes).Some? then Failed(MarkedFree)
    else if AddressUsedMoreThanOnce(img.inodes).Some? then Failed(UsedMoreThanOnce)
    else if RootDirectoryDoesNotExist(img.inodes, img.block).Some? then Failed(RootMissing)
    else WalkDirectory(img.inodes, Listings(img.inodes, img.block), 1, fuel)
  }

  /**
   Once checks 1 and 2 pass, every address the duplicate check writes into its
   imageSize-long ledger lies in [DataStart, size).
   */
  lemma LedgerWritesInBounds(img: Image)
    requires img.Decoded()
    requires Check(img, 0) != Failed(BadAddress)
    ensures forall a | a in Claims(img.inodes) :: DataStart(img) <= a < img.sb.size
  {
    LedgerWithinImage(img.inodes, DataStart(img), img.sb.size);
  }

  /*** A minimal consistent image ***/

  /** A name field holding the C string s, zero-padded. */
  function PaddedName(s: string): Name
    requires |s| <= DIRSIZ
  {
    s + seq(DIRSIZ - |s|, _ => '\0')
  }

  const UnusedEntry: DirEnt := DirEnt(0, PaddedName(""))

  /** The root of the minimal image: a directory owning data block 5. */
  const MinimalRoot: Inode := Inode(T_DIR, 1, 2 * DIRENT_SIZE, seq(NDIRECT + 1, j => if j == 0 then 5 else 0))

  /** The root's block: "." and ".." naming inode 1, then unused entries. */
  const MinimalRootBlock: DirBlock :=
    [DirEnt(1, PaddedName(".")), DirEnt(1, PaddedName(".."))] + seq(DIRENTS_PER_BLOCK - 2, _ => UnusedEntry)

  const EmptyBlock: DirBlock := seq(DIRENTS_PER_BLOCK, _ => UnusedEntry)

  /**
   Eight inode slots of which only the root is used; the root directory owns
   data block 5; the bitmap marks block 5 and nothing else.
   */
  function MinimalImage(): (img: Image)
    ensures img.Decoded()
  {
    Image(
      Superblock(16, 11, 8),
      seq(8, i => if i == 1 then MinimalRoot else FreeInode),
      seq(BSIZE, i => if i == 0 then 0x20 else 0),
      b => if b == 5 then MinimalRootBlock else EmptyBlock)
  }

  lemma MinimalClaims()
    ensures Claims(MinimalImage().inodes) == [5]
  {
    var inodes := MinimalImage().inodes;
    FreeInodeClaimsNothing();
    MinimalRootBlocks();
    assert forall i | 0 <= i < |inodes| && i != 1 :: inodes[i] == FreeInode;
    ClaimsOfSoleUser(inodes, 1);
  }

  /** The minimal root claims block 5 and nothing else. */
  lemma MinimalRootBlocks()
    ensures BlocksOf(MinimalRoot) == [5]
  {
    ZeroSlotsClaimNothing(MinimalRoot.addrs, 1);
    assert DirectBlocks(MinimalRoot) == [5];
  }

  lemma MinimalRootListing()
    ensures Listing(MinimalRoot, MinimalImage().block) == MinimalRootBlock[..2]
  {
    var b := MinimalRootBlock;
    var es := LiveEntries(b);
    assert !IsEndOfEntries(b[0].name) && !IsEndOfEntries(b[1].name) && IsEndOfEntries(b[2].name);
    assert |es| == 2;
    MinimalRootBlocks();
    assert EntriesIn(MinimalImage().block, [5]) == es + EntriesIn(MinimalImage().block, []);
  }

  lemma MinimalWalk()
    ensures WalkDirectory(MinimalImage().inodes, Listings(MinimalImage().inodes, MinimalImage().block), 1, 1) == Clean
  {
    var img := MinimalImage();
    var listings := Listings(img.inodes, img.block);
    var es := listings[1];
    MinimalRootListing();
    assert NamesDirectory(img.inodes, es[0]) && IsDotName(es[0].name);
    assert NamesDirectory(img.inodes, es[1]) && IsDotDotName(es[1].name);
    assert !IsSubdirectory(img.inodes, es[0]) && !IsSubdirectory(img.inodes, es[1]);
    WalkClean(img.inodes, listings, 1, 1);
  }

  lemma MinimalChecksPass()
    ensures AddressesValid(MinimalImage()) && BlocksMarked(MinimalImage())
    ensures ClaimsDistinct(MinimalImage()) && RootValid(MinimalImage())
  {
    MinimalInodesPass();
    MinimalClaimsDistinct();
    MinimalRootValid();
  }

  lemma MinimalClaimsDistinct()
    ensures ClaimsDistinct(MinimalImage())
  {
    MinimalClaims();
  }

  lemma MinimalRootValid()
    ensures RootValid(MinimalImage())
  {
    var img := MinimalImage();
    assert img.inodes[1] == MinimalRoot;
    assert img.block(5) == MinimalRootBlock;
  }

  /** Every inode of the minimal image has its addresses in [5, 16) and marked in the bitmap. */
  lemma MinimalInodesPass()
    ensures AddressesValid(MinimalImage()) && BlocksMarked(MinimalImage())
  {
    var img := MinimalImage();
    assert DataStart(img) == 5;
    MinimalInodePasses(img.bitmap, MinimalRoot);
    MinimalInodePasses(img.bitmap, FreeInode);
    assert forall i | 0 <= i < |img.inodes| :: img.inodes[i] == MinimalRoot || img.inodes[i] == FreeInode;
  }

  lemma MinimalInodePasses(bitmap: BitmapBlock, ino: Inode)
    requires bitmap == MinimalImage().bitmap
    requires ino == MinimalRoot || ino == FreeInode
    ensures InodeAddressesValid(ino, 5, 16) && InodeBlocksMarked(bitmap, ino)
  {
    assert IsAllocated(bitmap, 5);
  }

  /** The minimal image passes every check with a walk of depth one. */
  lemma MinimalImageIsClean()
    ensures Check(MinimalImage(), 1) == Clean
  {
    MinimalChecksPass();
    MinimalWalk();
  }
}
