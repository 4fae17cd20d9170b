/**
 The blocks an inode claims, in the order the checker visits them: its nonzero
 direct addresses in slot order, then its indirect extent. Every scan over
 inode addresses and the directory walker use this one linearization.
 */
module Extents {
  import opened FsFormat

  /** The nonzero direct slots j, j+1, ..., NDIRECT-1, in increasing slot order. */
  function NonzeroSlots(addrs: AddrSlots, j: nat): (r: seq<nat>)
    requires j <= NDIRECT
    ensures forall k | 0 <= k < |r| :: j <= r[k] < NDIRECT && addrs[r[k]] != 0
    ensures forall k, l | 0 <= k < l < |r| :: r[k] < r[l]
    ensures forall s | j <= s < NDIRECT && addrs[s] != 0 :: s in r
    decreases NDIRECT - j
  {
    if j == NDIRECT then []
    else if addrs[j] == 0 then NonzeroSlots(addrs, j + 1)
    else [j] + NonzeroSlots(addrs, j + 1)
  }

  /**
   The nonzero addresses among the direct slots j, j+1, ..., NDIRECT-1: one
   per nonzero slot, in slot order, repeats included.
   */
  function NonzeroFrom(addrs: AddrSlots, j: nat): (r: seq<nat>)
    requires j <= NDIRECT
    ensures forall k | 0 <= k < |r| :: r[k] != 0
    ensures forall a :: a in r <==> exists s :: j <= s < NDIRECT && addrs[s] == a && a != 0
    decreases NDIRECT - j
  {
    if j == NDIRECT then []
    else if addrs[j] == 0 then NonzeroFrom(addrs, j + 1)
    else [addrs[j]] + NonzeroFrom(addrs, j + 1)
  }

  /**
   The direct blocks of an inode: the address of each nonzero slot among
   0..NDIRECT-1, in slot order, repeats included; a zero slot is unused.
   */
  function DirectBlocks(ino: Inode): (r: seq<nat>)
    ensures forall k | 0 <= k < |r| :: r[k] != 0
    ensures forall a :: a in r <==> exists s :: 0 <= s < NDIRECT && ino.addrs[s] == a && a != 0
  {
    NonzeroFrom(ino.addrs, 0)
  }

  /** Entry k of NonzeroFrom is the address held by the k-th nonzero slot from j. */
  lemma {:induction false} NonzeroFromSlots(addrs: AddrSlots, j: nat)
    requires j <= NDIRECT
    ensures |NonzeroFrom(addrs, j)| == |NonzeroSlots(addrs, j)|
    ensures forall k | 0 <= k < |NonzeroFrom(addrs, j)| :: NonzeroFrom(addrs, j)[k] == addrs[NonzeroSlots(addrs, j)[k]]
    decreases NDIRECT - j
  {
    if j < NDIRECT {
      NonzeroFromSlots(addrs, j + 1);
    }
  }

  /**
   The direct blocks in slot order, repeats included: entry k is the address
   held by the k-th nonzero direct slot, and there is one entry per nonzero slot.
   */
  lemma DirectBlocksInSlotOrder(ino: Inode)
    ensures |DirectBlocks(ino)| == |NonzeroSlots(ino.addrs, 0)|
    ensures forall k | 0 <= k < |DirectBlocks(ino)| :: DirectBlocks(ino)[k] == ino.addrs[NonzeroSlots(ino.addrs, 0)[k]]
  {
    NonzeroFromSlots(ino.addrs, 0);
  }

  /**
   The indirect extent: when the indirect slot holds a nonzero base, the
   contiguous run base, base+1, ..., IndirectEnd(ino); empty when the slot is
   zero or the end lies below the base.
   */
  function IndirectRun(ino: Inode): (r: seq<nat>)
    ensures ino.addrs[NDIRECT] == 0 ==> r == []
    ensures forall i | 0 <= i < |r| :: r[i] == ino.addrs[NDIRECT] + i
    ensures forall k: nat :: k in r <==> ino.addrs[NDIRECT] != 0 && ino.addrs[NDIRECT] <= k <= IndirectEnd(ino)
  {
    var base := ino.addrs[NDIRECT];
    if base == 0 then []
    else
      var n := if IndirectEnd(ino) >= base then IndirectEnd(ino) - base + 1 else 0;
      var r := seq(n, i => base + i);
      RunMembers(r, base);
      r
  }

  /** A run of consecutive addresses from base holds exactly the addresses base..base+|r|-1. */
  lemma RunMembers(r: seq<nat>, base: nat)
    requires forall i | 0 <= i < |r| :: r[i] == base + i
    ensures forall k: nat :: k in r <==> base <= k < base + |r|
  {
    forall k: nat | base <= k < base + |r|
      ensures k in r
    {
      assert r[k - base] == k;
    }
  }

  /** Every block an inode claims: direct blocks first, then the indirect extent. */
  function BlocksOf(ino: Inode): seq<nat> {
    DirectBlocks(ino) + IndirectRun(ino)
  }

  /**
   An address is claimed by an inode exactly when a nonzero direct slot holds
   it or it lies in the inclusive range of a nonzero indirect slot.
   */
  lemma BlocksOfMembers(ino: Inode, a: nat)
    ensures a in BlocksOf(ino) <==>
              || (exists s :: 0 <= s < NDIRECT && ino.addrs[s] == a && a != 0)
              || (ino.addrs[NDIRECT] != 0 && ino.addrs[NDIRECT] <= a <= IndirectEnd(ino))
  {
  }

  /** The claim list of a whole inode table: each inode's blocks, in slot order. */
  function Claims(inodes: seq<Inode>): (r: seq<nat>)
    ensures forall a :: a in r <==> exists i :: 0 <= i < |inodes| && a in BlocksOf(inodes[i])
  {
    if |inodes| == 0 then []
    else
      var rest := Claims(inodes[1..]);
      assert forall i | 1 <= i < |inodes| :: inodes[1..][i - 1] == inodes[i];
      BlocksOf(inodes[0]) + rest
  }

  /** An inode whose address slots are all zero claims no block. */
  lemma {:induction false} ZeroSlotsClaimNothing(addrs: AddrSlots, j: nat)
    requires j <= NDIRECT
    requires forall k | j <= k <= NDIRECT :: addrs[k] == 0
    ensures NonzeroFrom(addrs, j) == []
    decreases NDIRECT - j
  {
    if j < NDIRECT {
      ZeroSlotsClaimNothing(addrs, j + 1);
    }
  }

  /** An unused inode, all of whose slots are zero, claims no block. */
  lemma FreeInodeClaimsNothing()
    ensures DirectBlocks(FreeInode) == [] && IndirectRun(FreeInode) == []
    ensures BlocksOf(FreeInode) == []
  {
    ZeroSlotsClaimNothing(FreeInode.addrs, 0);
  }

  /** When only inode n claims blocks, the table's claim list is n's block list. */
  lemma {:induction false} ClaimsOfSoleUser(inodes: seq<Inode>, n: nat)
    requires n < |inodes|
    requires forall i | 0 <= i < |inodes| && i != n :: BlocksOf(inodes[i]) == []
    ensures Claims(inodes) == BlocksOf(inodes[n])
  {
    if n == 0 {
      ClaimsOfNone(inodes[1..]);
    } else {
      ClaimsOfSoleUser(inodes[1..], n - 1);
    }
  }

  lemma {:induction false} ClaimsOfNone(inodes: seq<Inode>)
    requires forall i | 0 <= i < |inodes| :: BlocksOf(inodes[i]) == []
    ensures Claims(inodes) == []
  {
    if |inodes| > 0 {
      ClaimsOfNone(inodes[1..]);
    }
  }
}
