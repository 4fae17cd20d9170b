/** The free-block bitmap lookup. */
module Bitmap {
  import opened FsFormat

  /** Bit k of a byte, counting from the least significant bit. */
  predicate Bit(byte: bv8, k: nat)
    requires k < 8
  {
    (byte >> k) & 1 == 1
  }

  /**
   Whether the bitmap marks block blockAddr allocated. The lookup reduces the
   address modulo BPB, selects byte base / 8 and masks bit base % 8 of it.
   */
  function IsAllocated(bitmap: BitmapBlock, blockAddr: nat): (r: bool)
    ensures r <==> Bit(bitmap[(blockAddr % BPB) / 8], (blockAddr % BPB) % 8)
  {
    var base := blockAddr % BPB;
    var bitSelect: bv8 := 1 << (base % 8);
    bitmap[base / 8] & bitSelect != 0
  }

  /** The lookup sees only the address modulo BPB: addresses BPB apart share a bit. */
  lemma AllocationDependsOnBitIndexOnly(bitmap: BitmapBlock, a: nat, b: nat)
    requires a % BPB == b % BPB
    ensures IsAllocated(bitmap, a) == IsAllocated(bitmap, b)
    ensures IsAllocated(bitmap, a + BPB) == IsAllocated(bitmap, a)
  {
    assert (a + BPB) % BPB == a % BPB;
  }
}
