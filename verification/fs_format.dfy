/**
 The decoded on-disk format of the xv6-style image the checker reads:
 block 0 is the boot block, block 1 the superblock, the inode table starts at
 block 2, one free-block bitmap block follows it, and data blocks follow that.
 The constants are the xv6 values of fs.h (fs.h is not part of this model).
 */
module FsFormat {
  import opened Wrappers

  /** Block size in bytes. */
  const BSIZE: nat := 512
  /** Number of direct address slots in an inode. */
  const NDIRECT: nat := 12
  /** Width of the name field of a directory entry. */
  const DIRSIZ: nat := 14
  /** Bitmap bits per bitmap block. */
  const BPB: nat := BSIZE * 8
  /** sizeof(struct dinode). */
  const DINODE_SIZE: nat := 64
  /** sizeof(struct dirent): a 2-byte inode number and the name. */
  const DIRENT_SIZE: nat := 16
  /** Directory entries that fit whole in one block. */
  const DIRENTS_PER_BLOCK: nat := BSIZE / DIRENT_SIZE

  /** Inode types. Type 0 marks a free inode slot. */
  const T_DIR: int := 1
  const T_FILE: int := 2
  const T_DEV: int := 3

  /** The NDIRECT direct addresses followed by the indirect-extent slot. */
  type AddrSlots = s: seq<nat> | |s| == NDIRECT + 1 witness seq(NDIRECT + 1, _ => 0)

  /** One inode record of the inode table. */
  datatype Inode = Inode(kind: int, nlink: int, size: nat, addrs: AddrSlots)

  /** An unused inode slot: type 0 and every address zero. */
  const FreeInode: Inode := Inode(0, 0, 0, seq(NDIRECT + 1, _ => 0))

  /** The fixed-width, not necessarily terminated, name field of a directory entry. */
  type Name = s: seq<char> | |s| == DIRSIZ witness seq(DIRSIZ, _ => '\0')

  /** One directory entry: a target inode number and a name. */
  datatype DirEnt = DirEnt(inum: nat, name: Name)

  /** A data block read as directory entries at offsets 0, DIRENT_SIZE, ... */
  type DirBlock = s: seq<DirEnt> | |s| == DIRENTS_PER_BLOCK
    witness seq(DIRENTS_PER_BLOCK, _ => DirEnt(0, seq(DIRSIZ, _ => '\0')))

  /** The single free-block bitmap block, as raw bytes. */
  type BitmapBlock = s: seq<bv8> | |s| == BSIZE witness seq(BSIZE, _ => 0)

  /** Image geometry: total blocks, data blocks, inode count. */
  datatype Superblock = Superblock(size: nat, nblocks: nat, ninodes: nat)

  /**
   A decoded image: the superblock, the inode table, the bitmap block and the
   content of every block read as directory entries.
   */
  datatype Image = Image(sb: Superblock, inodes: seq<Inode>, bitmap: BitmapBlock, block: nat -> DirBlock)
  {
    /** The inode table holds exactly the superblock's inode count, as the loader reads it. */
    predicate Decoded() {
      |inodes| == sb.ninodes
    }
  }

  /** A name field that reads as the C string ".". */
  predicate IsDotName(n: Name) {
    n[0] == '.' && n[1] == '\0'
  }

  /** A name field that reads as the C string "..". */
  predicate IsDotDotName(n: Name) {
    n[0] == '.' && n[1] == '.' && n[2] == '\0'
  }

  /** A name field whose first byte is zero: the end of a block's entries. */
  predicate IsEndOfEntries(n: Name) {
    n[0] == '\0'
  }

  /** The inode in slot i, or None (the source's NULL) when i is outside the table. */
  function GetInode(inodes: seq<Inode>, i: int): (r: Option<Inode>)
    ensures r.Some? <==> 0 <= i < |inodes|
    ensures r.Some? ==> r.value == inodes[i]
  {
    if 0 <= i < |inodes| then Some(inodes[i]) else None
  }

  /** The last block of an inode's indirect extent (inclusive, floor division of the size). */
  function IndirectEnd(ino: Inode): int {
    ino.addrs[NDIRECT] + ino.size / BSIZE - NDIRECT
  }
}
