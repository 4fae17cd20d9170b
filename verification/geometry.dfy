/** Where the inode table, the bitmap and the data region sit in the image. */
module Geometry {
  import opened FsFormat

  /** Block counts and addresses derived from the inode count. */
  datatype Layout = Layout(inodeBlocks: nat, bitmapAddr: nat, dataStart: nat)

  /**
   The layout the checker derives: one more inode-table block than the floor
   of the table's byte size over BSIZE, the bitmap right after the table
   (which starts at block 2), and the data region right after the bitmap.
   */
  function DeriveLayout(ninodes: nat): (l: Layout)
    ensures ninodes * DINODE_SIZE < l.inodeBlocks * BSIZE <= ninodes * DINODE_SIZE + BSIZE
    ensures l.bitmapAddr == 2 + l.inodeBlocks
    ensures l.dataStart == l.bitmapAddr + 1
  {
    var n := 1 + (ninodes * DINODE_SIZE) / BSIZE;
    Layout(n, 2 + n, 3 + n)
  }

  /**
   Against the ceiling of the table size: the derived block count is the
   ceiling when the table does not fill its last block exactly, and one more
   than the ceiling when it does.
   */
  lemma InodeBlocksVersusCeiling(ninodes: nat)
    ensures var bytes := ninodes * DINODE_SIZE;
            var ceil := (bytes + BSIZE - 1) / BSIZE;
            DeriveLayout(ninodes).inodeBlocks == if bytes % BSIZE == 0 then ceil + 1 else ceil
  {
  }
}
