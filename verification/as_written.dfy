/**
 The three address scans exactly as their loops are written. The inner loop
 `for(j = 0; i < NDIRECT; i++)` tests and advances the inode counter i rather
 than the slot counter j, so the scans visit slot 0 of inode 0 NDIRECT times,
 then the indirect slot of inode 0, and afterwards only the indirect slots of
 inodes NDIRECT+1 onwards. The rest of the model uses the intended scans of
 InodeChecks; this module shows where the two differ.
 */
module AsWritten {
  import opened Wrappers
  import opened FsFormat
  import opened Extents
  import opened Bitmap
  import opened Outcomes
  import opened InodeChecks
  import opened Geometry

  /** One address slot read by a scan: direct slot `slot` or the indirect slot of inode inum. */
  datatype Visit = Direct(inum: nat, slot: nat) | Indirect(inum: nat)

  /** The indirect slots of inodes start..stop-1, in order. */
  function IndirectVisits(start: nat, stop: nat): (v: seq<Visit>)
    ensures |v| == if stop <= start then 0 else stop - start
    ensures forall k | 0 <= k < |v| :: v[k] == Indirect(start + k)
    decreases stop
  {
    if stop <= start then [] else IndirectVisits(start, stop - 1) + [Indirect(stop - 1)]
  }

  /** The slots the written loops read, in order, for a table of n inodes. */
  function AsWrittenVisits(n: nat): (v: seq<Visit>)
    ensures forall k | 0 <= k < |v| :: v[k].inum < n
    ensures forall k | 0 <= k < |v| :: v[k].Direct? ==> v[k] == Direct(0, 0)
  {
    if n == 0 then []
    else seq(NDIRECT, _ => Direct(0, 0)) + [Indirect(0)] + IndirectVisits(NDIRECT + 1, n)
  }

  /**
   The written visit order position by position: at positions 0..NDIRECT-1
   slot 0 of inode 0, at position NDIRECT the indirect slot of inode 0, and at
   every later position k the indirect slot of inode k.
   */
  lemma AsWrittenVisitsShape(n: nat)
    ensures n == 0 ==> AsWrittenVisits(n) == []
    ensures 0 < n ==> |AsWrittenVisits(n)| == if n <= NDIRECT + 1 then NDIRECT + 1 else n
    ensures forall k | 0 <= k < |AsWrittenVisits(n)| ::
              AsWrittenVisits(n)[k] == if k < NDIRECT then Direct(0, 0) else if k == NDIRECT then Indirect(0) else Indirect(k)
  {
  }

  /**
   The written loop nest, step by step: its visit order is AsWrittenVisits,
   which never reads a direct slot other than slot 0 of inode 0 and never
   reads any slot of inodes 1..NDIRECT.
   */
  method ScanOrderAsWritten(n: nat) returns (visits: seq<Visit>)
    ensures visits == AsWrittenVisits(n)
    ensures forall k | 0 <= k < |visits| :: visits[k].Direct? ==> visits[k] == Direct(0, 0)
    ensures forall k | 0 <= k < |visits| :: !(1 <= visits[k].inum <= NDIRECT)
  {
    visits := [];
    var i := 0;
    while i < n
      invariant i == 0 ==> visits == []
      invariant i != 0 ==> NDIRECT + 1 <= i && visits == AsWrittenVisits(i)
      invariant i <= n || (0 < n && i == NDIRECT + 1)
    {
      var cur := i;
      var j := 0;
      var before := visits;
      while i < NDIRECT
        invariant cur <= i
        invariant cur < NDIRECT ==> i <= NDIRECT
        invariant cur < NDIRECT ==> visits == before + seq(i - cur, _ => Direct(cur, 0))
        invariant cur >= NDIRECT ==> i == cur && visits == before
      {
        visits := visits + [Direct(cur, j)];
        i := i + 1;
      }
      visits := visits + [Indirect(cur)];
      i := i + 1;
    }
    if n != 0 {
      assert IndirectVisits(NDIRECT + 1, i) == IndirectVisits(NDIRECT + 1, n);
      assert AsWrittenVisits(i) == AsWrittenVisits(n);
    }
  }

  /** The inode a visit reads from the table, when the visit stays inside it. */
  predicate VisitInTable(inodes: seq<Inode>, v: Visit) {
    v.inum < |inodes| && (v.Direct? ==> v.slot < NDIRECT)
  }

  /** The bad-address test of one visited slot. */
  predicate VisitValid(inodes: seq<Inode>, v: Visit, lo: nat, hi: nat)
    requires VisitInTable(inodes, v)
  {
    var ino := inodes[v.inum];
    match v
    case Direct(_, s) => ino.addrs[s] == 0 || (lo <= ino.addrs[s] < hi)
    case Indirect(_) => IndirectValid(ino, lo, hi)
  }

  /** The addresses a visited slot claims. */
  function VisitClaims(inodes: seq<Inode>, v: Visit): seq<nat>
    requires VisitInTable(inodes, v)
  {
    var ino := inodes[v.inum];
    match v
    case Direct(_, s) => if ino.addrs[s] == 0 then [] else [ino.addrs[s]]
    case Indirect(_) => IndirectRun(ino)
  }

  function ClaimsAlong(inodes: seq<Inode>, visits: seq<Visit>): seq<nat>
    requires forall k | 0 <= k < |visits| :: VisitInTable(inodes, visits[k])
  {
    if |visits| == 0 then [] else VisitClaims(inodes, visits[0]) + ClaimsAlong(inodes, visits[1..])
  }

  /**
   The slots check 1 as written actually tests are valid: slot 0 and the
   indirect slot of inode 0, and the indirect slot of every inode after
   inode NDIRECT.
   */
  predicate WrittenSlotsValid(inodes: seq<Inode>, lo: nat, hi: nat) {
    && (0 < |inodes| ==>
          && (inodes[0].addrs[0] == 0 || lo <= inodes[0].addrs[0] < hi)
          && IndirectValid(inodes[0], lo, hi))
    && forall i | NDIRECT < i < |inodes| :: IndirectValid(inodes[i], lo, hi)
  }

  /** Every visited slot passes exactly when the slots the written check tests are valid. */
  lemma WrittenVisitsValid(inodes: seq<Inode>, lo: nat, hi: nat)
    ensures (forall k | 0 <= k < |AsWrittenVisits(|inodes|)| :: VisitValid(inodes, AsWrittenVisits(|inodes|)[k], lo, hi))
            <==> WrittenSlotsValid(inodes, lo, hi)
  {
    var v := AsWrittenVisits(|inodes|);
    AsWrittenVisitsShape(|inodes|);
    if 0 < |inodes| {
      if forall k | 0 <= k < |v| :: VisitValid(inodes, v[k], lo, hi) {
        assert VisitValid(inodes, v[0], lo, hi);
        assert VisitValid(inodes, v[NDIRECT], lo, hi);
        forall i | NDIRECT < i < |inodes|
          ensures IndirectValid(inodes[i], lo, hi)
        {
          assert VisitValid(inodes, v[i], lo, hi);
        }
      }
    }
  }

  /**
   Check 1 as written: fails exactly when slot 0 or the indirect slot of inode
   0, or the indirect slot of an inode after inode NDIRECT, is out of range.
   */
  function BadAddressAsWritten(inodes: seq<Inode>, lo: nat, hi: nat): (r: Option<Diagnostic>)
    ensures r.Some? ==> r.value == BadAddress
    ensures r.None? <==> WrittenSlotsValid(inodes, lo, hi)
  {
    var visits := AsWrittenVisits(|inodes|);
    WrittenVisitsValid(inodes, lo, hi);
    if forall k | 0 <= k < |visits| :: VisitValid(inodes, visits[k], lo, hi) then None else Some(BadAddress)
  }

  /** Check 2 as written: the bitmap test over the claims of the visited slots. */
  function MarkedFreeAsWritten(bitmap: BitmapBlock, inodes: seq<Inode>): (r: Option<Diagnostic>)
    ensures r.Some? ==> r.value == MarkedFree
    ensures r.None? <==> forall a | a in ClaimsAlong(inodes, AsWrittenVisits(|inodes|)) :: IsAllocated(bitmap, a)
  {
    if AllMarked(bitmap, ClaimsAlong(inodes, AsWrittenVisits(|inodes|))) then None else Some(MarkedFree)
  }

  /** Check 3 as written: the ledger run over the claims of the visited slots. */
  function UsedMoreThanOnceAsWritten(inodes: seq<Inode>): (r: Option<Diagnostic>)
    ensures r.Some? ==> r.value == UsedMoreThanOnce
    ensures r.None? <==> Distinct(ClaimsAlong(inodes, AsWrittenVisits(|inodes|)))
  {
    match RecordClaims({}, ClaimsAlong(inodes, AsWrittenVisits(|inodes|)))
    case Ok(_) => None
    case Err(d) => Some(d)
  }

  /*** Counterexamples ***/

  /** A bitmap block marking nothing allocated. */
  const NothingMarked: BitmapBlock := seq(BSIZE, _ => 0)

  /** A regular file whose only block is the direct address a. */
  function OneBlockFile(a: nat): (ino: Inode)
    ensures ino.addrs[0] == a
    ensures forall k | 1 <= k <= NDIRECT :: ino.addrs[k] == 0
  {
    Inode(T_FILE, 1, BSIZE, seq(NDIRECT + 1, j => if j == 0 then a else 0))
  }

  /** For a two-inode table the written scans read slot 0 of inode 0 twelve times, then its indirect slot. */
  lemma VisitsOfTwo()
    ensures AsWrittenVisits(2) == seq(NDIRECT, _ => Direct(0, 0)) + [Indirect(0)]
  {
  }

  /** Inode 0 unused: none of the written scans' visits of a two-inode table claims anything. */
  lemma FreeInodeFirstClaimsNothing(inodes: seq<Inode>)
    requires |inodes| == 2 && inodes[0] == FreeInode
    ensures ClaimsAlong(inodes, AsWrittenVisits(2)) == []
  {
    var visits := AsWrittenVisits(2);
    AsWrittenVisitsShape(2);
    FreeInodeClaimsNothing();
    assert FreeInode.addrs[0] == 0;
    forall k | 0 <= k < |visits|
      ensures VisitClaims(inodes, visits[k]) == []
    {
      assert visits[k] == Direct(0, 0) || visits[k] == Indirect(0);
    }
    ClaimsAlongEmpty(inodes, visits);
  }

  /**
   Inode 1 names block 1, the superblock, while the data region of a
   two-inode table starts at block 4: the written scan never reads inode 1 and
   passes; the intended scan reports the bad address.
   */
  lemma BadAddressMissedAsWritten()
    ensures DeriveLayout(2).dataStart == 4
    ensures BadAddressAsWritten([FreeInode, OneBlockFile(1)], DeriveLayout(2).dataStart, 16).None?
    ensures BadAddressInInode([FreeInode, OneBlockFile(1)], DeriveLayout(2).dataStart, 16) == Some(BadAddress)
  {
  }

  /**
   Inode 1 uses block 5 but the bitmap marks nothing: the written scan never
   reads inode 1 and passes; the intended scan reports the free block.
   */
  lemma MarkedFreeMissedAsWritten()
    ensures MarkedFreeAsWritten(NothingMarked, [FreeInode, OneBlockFile(5)]).None?
    ensures AddressUsedByInodeButMarkedFreeInBitmap(NothingMarked, [FreeInode, OneBlockFile(5)]) == Some(MarkedFree)
  {
    var inodes := [FreeInode, OneBlockFile(5)];
    FreeInodeFirstClaimsNothing(inodes);
    assert NothingMarked[0] == 0;
    assert !IsAllocated(NothingMarked, 5);
    assert inodes[1].addrs[0] == 5;
    assert !InodeBlocksMarked(NothingMarked, inodes[1]);
  }

  lemma {:induction false} ClaimsAlongEmpty(inodes: seq<Inode>, visits: seq<Visit>)
    requires forall k | 0 <= k < |visits| :: VisitInTable(inodes, visits[k])
    requires forall k | 0 <= k < |visits| :: VisitClaims(inodes, visits[k]) == []
    ensures ClaimsAlong(inodes, visits) == []
  {
    if |visits| > 0 {
      ClaimsAlongEmpty(inodes, visits[1..]);
    }
  }

  /** The written duplicate scan claims block a at least twice when inode 0 holds a in slot 0. */
  lemma RepeatedSlotZero(inodes: seq<Inode>, a: nat)
    requires |inodes| == 2 && inodes[0].addrs[0] == a && a != 0
    ensures !Distinct(ClaimsAlong(inodes, AsWrittenVisits(2)))
  {
    VisitsOfTwo();
    var visits := AsWrittenVisits(2);
    var claims := ClaimsAlong(inodes, visits);
    assert VisitClaims(inodes, visits[0]) == [a] && VisitClaims(inodes, visits[1]) == [a];
    assert claims == [a] + ClaimsAlong(inodes, visits[1..]);
    assert ClaimsAlong(inodes, visits[1..]) == [a] + ClaimsAlong(inodes, visits[1..][1..]);
    assert claims[0] == claims[1];
  }

  /** The intended claim list of a one-block file followed by an unused inode is that block. */
  lemma OneBlockFileClaims(a: nat)
    requires a != 0
    ensures Claims([OneBlockFile(a), FreeInode]) == [a]
  {
    var f := OneBlockFile(a);
    OneBlockFileBlocks(a);
    FreeInodeClaimsNothing();
    ClaimsOfSoleUser([f, FreeInode], 0);
  }

  /** A one-block file claims its block and nothing else. */
  lemma OneBlockFileBlocks(a: nat)
    requires a != 0
    ensures BlocksOf(OneBlockFile(a)) == [a]
  {
    var f := OneBlockFile(a);
    ZeroSlotsClaimNothing(f.addrs, 1);
    assert NonzeroFrom(f.addrs, 0) == [a] + NonzeroFrom(f.addrs, 1);
    assert IndirectRun(f) == [];
  }

  /**
   Inode 0 uses block 5 once and nothing else claims it: the written scan reads
   slot 0 of inode 0 twelve times and reports a double use; the intended scan
   passes.
   */
  lemma SpuriousDuplicateAsWritten()
    ensures UsedMoreThanOnceAsWritten([OneBlockFile(5), FreeInode]) == Some(UsedMoreThanOnce)
    ensures AddressUsedMoreThanOnce([OneBlockFile(5), FreeInode]) == None
  {
    RepeatedSlotZero([OneBlockFile(5), FreeInode], 5);
    OneBlockFileClaims(5);
  }
}
