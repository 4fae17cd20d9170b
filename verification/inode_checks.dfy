/**
 The three checks that scan every inode's addresses: bad address, address used
 but marked free, and address used more than once. Each scans the inodes in
 slot order and, within an inode, the direct slots 0..NDIRECT-1 and then the
 indirect extent.
 */
module InodeChecks {
  import opened Wrappers
  import opened FsFormat
  import opened Extents
  import opened Bitmap
  import opened Outcomes

  /*** Check 1: bad address in inode ***/

  /**
   An inode's addresses lie in the data region [lo, hi): every nonzero direct
   address does, and when the indirect slot is nonzero both the base and the
   last block of the extent do. Zero addresses are unused and always pass.
   */
  predicate InodeAddressesValid(ino: Inode, lo: nat, hi: nat) {
    && (forall j | 0 <= j < NDIRECT :: ino.addrs[j] == 0 || lo <= ino.addrs[j] < hi)
    && (ino.addrs[NDIRECT] == 0 || (lo <= ino.addrs[NDIRECT] < hi && lo <= IndirectEnd(ino) < hi))
  }

  predicate AllAddressesValid(inodes: seq<Inode>, lo: nat, hi: nat) {
    forall i | 0 <= i < |inodes| :: InodeAddressesValid(inodes[i], lo, hi)
  }

  /** The scan of direct slots j..NDIRECT-1 of one inode, as a loop over j. */
  function DirectSlotsValid(addrs: AddrSlots, j: nat, lo: nat, hi: nat): (ok: bool)
    requires j <= NDIRECT
    ensures ok <==> forall k | j <= k < NDIRECT :: addrs[k] == 0 || lo <= addrs[k] < hi
    decreases NDIRECT - j
  {
    if j == NDIRECT then true
    else if addrs[j] != 0 && (addrs[j] < lo || addrs[j] >= hi) then false
    else DirectSlotsValid(addrs, j + 1, lo, hi)
  }

  /** The indirect-slot test of one inode: the base, then the extent's end. */
  function IndirectValid(ino: Inode, lo: nat, hi: nat): bool {
    var base := ino.addrs[NDIRECT];
    var end := IndirectEnd(ino);
    base == 0 || (!(base < lo || base >= hi) && !(end < lo || end >= hi))
  }

  /**
   Check 1 over the inode table with data region [dataStart, imageSize):
   passes exactly when every inode's addresses are valid.
   */
  function BadAddressInInode(inodes: seq<Inode>, dataStart: nat, imageSize: nat): (r: Option<Diagnostic>)
    ensures r.Some? ==> r.value == BadAddress
    ensures r.None? <==> AllAddressesValid(inodes, dataStart, imageSize)
  {
    if |inodes| == 0 then None
    else if !DirectSlotsValid(inodes[0].addrs, 0, dataStart, imageSize) then Some(BadAddress)
    else if !IndirectValid(inodes[0], dataStart, imageSize) then Some(BadAddress)
    else
      var r := BadAddressInInode(inodes[1..], dataStart, imageSize);
      assert forall i | 1 <= i < |inodes| :: inodes[1..][i - 1] == inodes[i];
      r
  }

  /*** Check 2: address used by inode but marked free in bitmap ***/

  /**
   The bitmap marks every block an inode uses: each nonzero direct address and
   each block of the inclusive indirect range base..IndirectEnd.
   */
  predicate InodeBlocksMarked(bitmap: BitmapBlock, ino: Inode) {
    && (forall j | 0 <= j < NDIRECT :: ino.addrs[j] != 0 ==> IsAllocated(bitmap, ino.addrs[j]))
    && (ino.addrs[NDIRECT] != 0 ==>
          forall k: nat | ino.addrs[NDIRECT] <= k <= IndirectEnd(ino) :: IsAllocated(bitmap, k))
  }

  /** The bitmap test run over a claim list, stopping at the first free address. */
  function AllMarked(bitmap: BitmapBlock, claims: seq<nat>): (ok: bool)
    ensures ok <==> forall i | 0 <= i < |claims| :: IsAllocated(bitmap, claims[i])
  {
    if |claims| == 0 then true
    else if !IsAllocated(bitmap, claims[0]) then false
    else
      var ok := AllMarked(bitmap, claims[1..]);
      assert forall i | 1 <= i < |claims| :: claims[1..][i - 1] == claims[i];
      ok
  }

  /** Every claim of the table is marked exactly when every inode's blocks are. */
  lemma ClaimsMarked(bitmap: BitmapBlock, inodes: seq<Inode>)
    ensures (forall a | a in Claims(inodes) :: IsAllocated(bitmap, a))
            <==> forall i | 0 <= i < |inodes| :: InodeBlocksMarked(bitmap, inodes[i])
  {
    if forall a | a in Claims(inodes) :: IsAllocated(bitmap, a) {
      forall i | 0 <= i < |inodes|
        ensures InodeBlocksMarked(bitmap, inodes[i])
      {
        var ino := inodes[i];
        forall j | 0 <= j < NDIRECT && ino.addrs[j] != 0
          ensures IsAllocated(bitmap, ino.addrs[j])
        {
          assert ino.addrs[j] in BlocksOf(ino);
        }
        forall k: nat | ino.addrs[NDIRECT] != 0 && ino.addrs[NDIRECT] <= k <= IndirectEnd(ino)
          ensures IsAllocated(bitmap, k)
        {
          assert k in BlocksOf(ino);
        }
      }
    }
    if forall i | 0 <= i < |inodes| :: InodeBlocksMarked(bitmap, inodes[i]) {
      forall a | a in Claims(inodes)
        ensures IsAllocated(bitmap, a)
      {
        var n :| 0 <= n < |inodes| && a in BlocksOf(inodes[n]);
        assert InodeBlocksMarked(bitmap, inodes[n]);
      }
    }
  }

  /**
   Check 2: passes exactly when the bitmap marks every block of every inode
   allocated.
   */
  function AddressUsedByInodeButMarkedFreeInBitmap(bitmap: BitmapBlock, inodes: seq<Inode>): (r: Option<Diagnostic>)
    ensures r.Some? ==> r.value == MarkedFree
    ensures r.None? <==> forall i | 0 <= i < |inodes| :: InodeBlocksMarked(bitmap, inodes[i])
  {
    ClaimsMarked(bitmap, inodes);
    if AllMarked(bitmap, Claims(inodes)) then None else Some(MarkedFree)
  }

  /*** Check 3: address used more than once ***/

  /** No address appears twice in a claim list. */
  predicate Distinct(claims: seq<nat>) {
    forall i, j | 0 <= i < j < |claims| :: claims[i] != claims[j]
  }

  /** Two claim lists joined have no repeat exactly when neither has one and they share no address. */
  lemma DistinctAppend(xs: seq<nat>, ys: seq<nat>)
    ensures Distinct(xs + ys) <==> Distinct(xs) && Distinct(ys) && forall a | a in xs :: a !in ys
  {
    var zs := xs + ys;
    if Distinct(xs) && Distinct(ys) && (forall a | a in xs :: a !in ys) {
      forall i, j | 0 <= i < j < |zs|
        ensures zs[i] != zs[j]
      {
        if |xs| <= i {
          assert zs[i] == ys[i - |xs|] && zs[j] == ys[j - |xs|];
        } else if |xs| <= j {
          assert zs[i] in xs && zs[j] == ys[j - |xs|];
        }
      }
    }
    if Distinct(zs) {
      forall i, j | 0 <= i < j < |xs|
        ensures xs[i] != xs[j]
      {
        assert zs[i] == xs[i] && zs[j] == xs[j];
      }
      forall i, j | 0 <= i < j < |ys|
        ensures ys[i] != ys[j]
      {
        assert zs[|xs| + i] == ys[i] && zs[|xs| + j] == ys[j];
      }
      forall i, j | 0 <= i < |xs| && 0 <= j < |ys|
        ensures xs[i] != ys[j]
      {
        assert zs[i] == xs[i] && zs[|xs| + j] == ys[j];
      }
    }
  }

  /**
   An inode's direct blocks repeat no address exactly when no nonzero direct
   slot holds the same address as a later slot.
   */
  lemma DirectBlocksDistinct(ino: Inode)
    ensures Distinct(DirectBlocks(ino)) <==>
              forall s, t | 0 <= s < t < NDIRECT && ino.addrs[s] != 0 :: ino.addrs[s] != ino.addrs[t]
  {
    DirectBlocksInSlotOrder(ino);
    SlotListDistinct(ino.addrs, NonzeroSlots(ino.addrs, 0), DirectBlocks(ino));
  }

  /**
   A list holding, in order, the address of each nonzero slot of a strictly
   increasing list of exactly the nonzero direct slots repeats no address
   exactly when no nonzero slot shares its address with a later slot.
   */
  lemma SlotListDistinct(addrs: AddrSlots, slots: seq<nat>, r: seq<nat>)
    requires forall k | 0 <= k < |slots| :: slots[k] < NDIRECT && addrs[slots[k]] != 0
    requires forall k, l | 0 <= k < l < |slots| :: slots[k] < slots[l]
    requires forall s | 0 <= s < NDIRECT && addrs[s] != 0 :: s in slots
    requires |r| == |slots| && forall k | 0 <= k < |r| :: r[k] == addrs[slots[k]]
    ensures Distinct(r) <==> forall s, t | 0 <= s < t < NDIRECT && addrs[s] != 0 :: addrs[s] != addrs[t]
  {
    if Distinct(r) {
      forall s, t | 0 <= s < t < NDIRECT && addrs[s] != 0
        ensures addrs[s] != addrs[t]
      {
        if addrs[t] != 0 {
          var k :| 0 <= k < |slots| && slots[k] == s;
          var l :| 0 <= l < |slots| && slots[l] == t;
          assert r[k] != r[l];
        }
      }
    }
  }

  /** The indirect extent is a run of consecutive addresses, so it repeats none. */
  lemma IndirectRunDistinct(ino: Inode)
    ensures Distinct(IndirectRun(ino))
  {
  }

  /**
   An inode claims no block twice exactly when no nonzero direct slot repeats a
   later slot's address and none lies in the inode's indirect extent.
   */
  lemma BlocksOfDistinct(ino: Inode)
    ensures Distinct(BlocksOf(ino)) <==>
              && (forall s, t | 0 <= s < t < NDIRECT && ino.addrs[s] != 0 :: ino.addrs[s] != ino.addrs[t])
              && (forall s | 0 <= s < NDIRECT && ino.addrs[s] != 0 ::
                    !(ino.addrs[NDIRECT] != 0 && ino.addrs[NDIRECT] <= ino.addrs[s] <= IndirectEnd(ino)))
  {
    DistinctAppend(DirectBlocks(ino), IndirectRun(ino));
    DirectBlocksDistinct(ino);
    IndirectRunDistinct(ino);
    var disjoint := forall a | a in DirectBlocks(ino) :: a !in IndirectRun(ino);
    if disjoint {
      forall s | 0 <= s < NDIRECT && ino.addrs[s] != 0
        ensures !(ino.addrs[NDIRECT] != 0 && ino.addrs[NDIRECT] <= ino.addrs[s] <= IndirectEnd(ino))
      {
        assert ino.addrs[s] in DirectBlocks(ino);
      }
    } else {
      var a :| a in DirectBlocks(ino) && a in IndirectRun(ino);
      var s :| 0 <= s < NDIRECT && ino.addrs[s] == a && a != 0;
      assert ino.addrs[NDIRECT] != 0 && ino.addrs[NDIRECT] <= ino.addrs[s] <= IndirectEnd(ino);
    }
  }

  /**
   The table's claim list repeats no address exactly when no inode claims a
   block twice and no two inodes claim the same block.
   */
  lemma {:induction false} ClaimsDistinctIff(inodes: seq<Inode>)
    ensures Distinct(Claims(inodes)) <==>
              && (forall i | 0 <= i < |inodes| :: Distinct(BlocksOf(inodes[i])))
              && (forall i, j, a | 0 <= i < j < |inodes| && a in BlocksOf(inodes[i]) :: a !in BlocksOf(inodes[j]))
  {
    if |inodes| > 0 {
      var tail := inodes[1..];
      assert forall i | 1 <= i < |inodes| :: tail[i - 1] == inodes[i];
      ClaimsDistinctIff(tail);
      assert Claims(inodes) == BlocksOf(inodes[0]) + Claims(tail);
      DistinctAppend(BlocksOf(inodes[0]), Claims(tail));
    }
  }

  /**
   Records each claim in the ledger in order. It fails at the first address the
   ledger already holds; on success the ledger gains exactly the claimed
   addresses.
   */
  function RecordClaims(ledger: set<nat>, claims: seq<nat>): (r: Result<set<nat>, Diagnostic>)
    ensures r.Err? ==> r.error == UsedMoreThanOnce
    ensures r.Ok? <==> Distinct(claims) && forall i | 0 <= i < |claims| :: claims[i] !in ledger
    ensures r.Ok? ==> r.value == ledger + (set i | 0 <= i < |claims| :: claims[i])
    decreases |claims|
  {
    if |claims| == 0 then Ok(ledger)
    else if claims[0] in ledger then Err(UsedMoreThanOnce)
    else
      var r := RecordClaims(ledger + {claims[0]}, claims[1..]);
      assert forall i | 1 <= i < |claims| :: claims[1..][i - 1] == claims[i];
      assert (set i | 0 <= i < |claims| :: claims[i])
        == {claims[0]} + (set i | 0 <= i < |claims[1..]| :: claims[1..][i]);
      r
  }

  /** Check 3: passes exactly when no address appears twice in the claim list. */
  function AddressUsedMoreThanOnce(inodes: seq<Inode>): (r: Option<Diagnostic>)
    ensures r.Some? ==> r.value == UsedMoreThanOnce
    ensures r.None? <==> Distinct(Claims(inodes))
  {
    match RecordClaims({}, Claims(inodes))
    case Ok(_) => None
    case Err(d) => Some(d)
  }

  /**
   The ledger after a passing check 3 holds exactly the claimed addresses, and,
   once check 1 has passed, each of them lies in [dataStart, imageSize): every
   ledger write falls inside an imageSize-long table.
   */
  lemma LedgerWithinImage(inodes: seq<Inode>, dataStart: nat, imageSize: nat)
    requires AllAddressesValid(inodes, dataStart, imageSize)
    ensures forall a | a in Claims(inodes) :: dataStart <= a < imageSize
    ensures RecordClaims({}, Claims(inodes)).Ok? ==>
              forall a | a in RecordClaims({}, Claims(inodes)).value :: dataStart <= a < imageSize
  {
    forall a | a in Claims(inodes)
      ensures dataStart <= a < imageSize
    {
      var n :| 0 <= n < |inodes| && a in BlocksOf(inodes[n]);
      BlockInDataRegion(inodes[n], dataStart, imageSize, a);
    }
    var claims := Claims(inodes);
    var r := RecordClaims({}, claims);
    if r.Ok? {
      forall a | a in r.value
        ensures dataStart <= a < imageSize
      {
        var i :| 0 <= i < |claims| && claims[i] == a;
        assert a in claims;
      }
    }
  }

  /** A block of an inode with valid addresses lies in the data region. */
  lemma BlockInDataRegion(ino: Inode, lo: nat, hi: nat, a: nat)
    requires InodeAddressesValid(ino, lo, hi)
    requires a in BlocksOf(ino)
    ensures lo <= a < hi
  {
  }
}
