/**
 The two checks that read directory contents: the root-directory check and the
 recursive walk that checks every directory reachable from the root for its
 "." and ".." entries.
 */
module DirectoryChecks {
  import opened Wrappers
  import opened FsFormat
  import opened Extents
  import opened Outcomes

  /*** Check 4: root directory does not exist ***/

  /** Inode 1 is inside the table and is a directory. */
  predicate RootIsDirectory(inodes: seq<Inode>) {
    1 < |inodes| && inodes[1].kind == T_DIR
  }

  /**
   The first two entries of the root's first block, when named "." and then
   "..", both name inode 1. A first entry not named "." (or a second not named
   "..") ends the check without a verdict on the rest.
   */
  predicate RootSelfLinksPointToRoot(inodes: seq<Inode>, block: nat -> DirBlock)
    requires RootIsDirectory(inodes)
  {
    var b := block(inodes[1].addrs[0]);
    && (IsDotName(b[0].name) ==> b[0].inum == 1)
    && (IsDotName(b[0].name) && IsDotDotName(b[1].name) ==> b[1].inum == 1)
  }

  /** Check 4: fails exactly when the root is missing or a self-link misses inode 1. */
  function RootDirectoryDoesNotExist(inodes: seq<Inode>, block: nat -> DirBlock): (r: Option<Diagnostic>)
    ensures r.Some? ==> r.value == RootMissing
    ensures r.None? <==> RootIsDirectory(inodes) && RootSelfLinksPointToRoot(inodes, block)
  {
    match GetInode(inodes, 1)
    case None => Some(RootMissing)
    case Some(root) =>
      if root.kind != T_DIR then Some(RootMissing)
      else
        var b := block(root.addrs[0]);
        if !IsDotName(b[0].name) then None
        else if b[0].inum != 1 then Some(RootMissing)
        else if !IsDotDotName(b[1].name) then None
        else if b[1].inum != 1 then Some(RootMissing)
        else None
  }

  /** Check 4 reads nothing but inode 1 and the first two entries of its first block. */
  lemma RootCheckReadsOnlyRoot(inodes: seq<Inode>, block: nat -> DirBlock, inodes': seq<Inode>, block': nat -> DirBlock)
    requires 1 < |inodes| <==> 1 < |inodes'|
    requires 1 < |inodes| ==> inodes[1] == inodes'[1]
    requires 1 < |inodes| ==> block(inodes[1].addrs[0])[..2] == block'(inodes[1].addrs[0])[..2]
    ensures RootDirectoryDoesNotExist(inodes, block) == RootDirectoryDoesNotExist(inodes', block')
  {
  }

  /*** Directory contents ***/

  /**
   The entries of one directory block: entries in offset order up to, and not
   including, the first whose name starts with a zero byte.
   */
  function LiveEntries(b: seq<DirEnt>): (r: seq<DirEnt>)
    ensures |r| <= |b| && r == b[..|r|]
    ensures forall k | 0 <= k < |r| :: !IsEndOfEntries(r[k].name)
    ensures |r| < |b| ==> IsEndOfEntries(b[|r|].name)
  {
    if |b| == 0 || IsEndOfEntries(b[0].name) then []
    else [b[0]] + LiveEntries(b[1..])
  }

  /**
   The entries of a list of blocks, block after block: no blocks give no
   entries, one block gives its live entries, and (EntriesInAppend) a list read
   in two parts gives the entries of the first part, then of the second.
   */
  function EntriesIn(block: nat -> DirBlock, blocks: seq<nat>): (r: seq<DirEnt>)
    ensures |blocks| == 0 ==> r == []
    ensures |blocks| == 1 ==> r == LiveEntries(block(blocks[0]))
    ensures forall k | 0 <= k < |r| :: !IsEndOfEntries(r[k].name)
  {
    if |blocks| == 0 then []
    else LiveEntries(block(blocks[0])) + EntriesIn(block, blocks[1..])
  }

  /**
   A directory's listing: the entries of its blocks in the order BlocksOf gives
   them, that is, the entries of its direct blocks in slot order, then those of
   its indirect extent in address order.
   */
  function Listing(ino: Inode, block: nat -> DirBlock): (r: seq<DirEnt>)
    ensures r == EntriesIn(block, DirectBlocks(ino)) + EntriesIn(block, IndirectRun(ino))
  {
    EntriesInAppend(block, DirectBlocks(ino), IndirectRun(ino));
    EntriesIn(block, BlocksOf(ino))
  }

  /** Reading a list of blocks in two parts reads the entries of the first part, then of the second. */
  lemma {:induction false} EntriesInAppend(block: nat -> DirBlock, xs: seq<nat>, ys: seq<nat>)
    ensures EntriesIn(block, xs + ys) == EntriesIn(block, xs) + EntriesIn(block, ys)
  {
    if |xs| > 0 {
      assert (xs + ys)[1..] == xs[1..] + ys;
      EntriesInAppend(block, xs[1..], ys);
    } else {
      assert xs + ys == ys;
    }
  }

  /*** Check 5: directory not properly formatted ***/

  /** The entry names an inode of the table whose type is directory. */
  predicate NamesDirectory(inodes: seq<Inode>, e: DirEnt) {
    e.inum < |inodes| && inodes[e.inum].kind == T_DIR
  }

  /** A directory entry the walk descends into: a directory not named "." or "..". */
  predicate IsSubdirectory(inodes: seq<Inode>, e: DirEnt) {
    NamesDirectory(inodes, e) && !IsDotName(e.name) && !IsDotDotName(e.name)
  }

  predicate HasDot(inodes: seq<Inode>, es: seq<DirEnt>) {
    exists k | 0 <= k < |es| :: NamesDirectory(inodes, es[k]) && IsDotName(es[k].name)
  }

  predicate HasDotDot(inodes: seq<Inode>, es: seq<DirEnt>) {
    exists k | 0 <= k < |es| :: NamesDirectory(inodes, es[k]) && IsDotDotName(es[k].name)
  }

  /** Every entry names a slot of the inode table (the walk never looks up a missing inode). */
  predicate NamesOnlyTableSlots(inodes: seq<Inode>, es: seq<DirEnt>) {
    forall k | 0 <= k < |es| :: es[k].inum < |inodes|
  }

  /**
   The listing of every inode of the table, indexed by inode number: what the
   walk reads when it opens a directory.
   */
  function Listings(inodes: seq<Inode>, block: nat -> DirBlock): (ls: seq<seq<DirEnt>>)
    ensures |ls| == |inodes|
    ensures forall i | 0 <= i < |inodes| :: ls[i] == Listing(inodes[i], block)
  {
    seq(|inodes|, i requires 0 <= i < |inodes| => Listing(inodes[i], block))
  }

  /**
   Check 5 on directory inum with recursion depth at most fuel: scans the
   directory's listing (listings[inum], see Listings), notes "." and ".." entries that name directories, descends into
   every other directory entry, and fails when "." or ".." was not seen. Fuel
   exhaustion stands for the unbounded recursion of a cyclic tree.
   */
  function WalkDirectory(inodes: seq<Inode>, listings: seq<seq<DirEnt>>, inum: nat, fuel: nat): (r: Verdict)
    requires |listings| == |inodes|
    requires inum < |inodes|
    ensures r.Failed? ==> r.diag == DirectoryMalformed
    ensures r.NullInode? ==> r.inum >= |inodes|
    decreases fuel, 0
  {
    if fuel == 0 then Diverged
    else ScanEntries(inodes, listings, listings[inum], fuel - 1, false, false)
  }

  /** The scan of the rest `es` of a listing, given whether "." and ".." were already seen. */
  function ScanEntries(inodes: seq<Inode>, listings: seq<seq<DirEnt>>, es: seq<DirEnt>, fuel: nat,
                       foundDot: bool, foundDotDot: bool): (r: Verdict)
    requires |listings| == |inodes|
    ensures r.Failed? ==> r.diag == DirectoryMalformed
    ensures r.NullInode? ==> r.inum >= |inodes|
    decreases fuel, |es|
  {
    if |es| == 0 then
      if foundDot && foundDotDot then Clean else Failed(DirectoryMalformed)
    else
      var e := es[0];
      match GetInode(inodes, e.inum)
      case None => NullInode(e.inum)
      case Some(sub) =>
        if sub.kind != T_DIR then ScanEntries(inodes, listings, es[1..], fuel, foundDot, foundDotDot)
        else if IsDotName(e.name) then ScanEntries(inodes, listings, es[1..], fuel, true, foundDotDot)
        else if IsDotDotName(e.name) then ScanEntries(inodes, listings, es[1..], fuel, foundDot, true)
        else
          match WalkDirectory(inodes, listings, e.inum, fuel)
          case Clean => ScanEntries(inodes, listings, es[1..], fuel, foundDot, foundDotDot)
          case v => v
  }

  /**
   A scan is clean exactly when every entry names a table slot, "." and ".."
   entries naming directories were seen (before or within es), and every
   subdirectory's walk is clean.
   */
  lemma {:induction false} ScanClean(inodes: seq<Inode>, listings: seq<seq<DirEnt>>, es: seq<DirEnt>, fuel: nat,
                                     foundDot: bool, foundDotDot: bool)
    requires |listings| == |inodes|
    ensures ScanEntries(inodes, listings, es, fuel, foundDot, foundDotDot) == Clean <==>
              && NamesOnlyTableSlots(inodes, es)
              && (foundDot || HasDot(inodes, es))
              && (foundDotDot || HasDotDot(inodes, es))
              && forall k | 0 <= k < |es| && IsSubdirectory(inodes, es[k]) ::
                   WalkDirectory(inodes, listings, es[k].inum, fuel) == Clean
    decreases |es|
  {
    if |es| > 0 {
      var e := es[0];
      var tail := es[1..];
      assert forall k | 1 <= k < |es| :: tail[k - 1] == es[k];
      if e.inum < |inodes| {
        var dot := foundDot || (NamesDirectory(inodes, e) && IsDotName(e.name));
        var dotdot := foundDotDot || (NamesDirectory(inodes, e) && IsDotDotName(e.name));
        ScanClean(inodes, listings, tail, fuel, dot, dotdot);
        assert HasDot(inodes, es) <==> (NamesDirectory(inodes, e) && IsDotName(e.name)) || HasDot(inodes, tail) by {
          if HasDot(inodes, tail) {
            var k :| 0 <= k < |tail| && NamesDirectory(inodes, tail[k]) && IsDotName(tail[k].name);
            assert es[k + 1] == tail[k];
          }
        }
        assert HasDotDot(inodes, es) <==> (NamesDirectory(inodes, e) && IsDotDotName(e.name)) || HasDotDot(inodes, tail) by {
          if HasDotDot(inodes, tail) {
            var k :| 0 <= k < |tail| && NamesDirectory(inodes, tail[k]) && IsDotDotName(tail[k].name);
            assert es[k + 1] == tail[k];
          }
        }
      }
    }
  }

  /**
   A walk is clean exactly when it has depth to spare and the directory's
   listing names only table slots, holds "." and ".." entries naming
   directories, and every subdirectory walks clean one level down.
   */
  lemma WalkClean(inodes: seq<Inode>, listings: seq<seq<DirEnt>>, inum: nat, fuel: nat)
    requires |listings| == |inodes|
    requires inum < |inodes|
    ensures WalkDirectory(inodes, listings, inum, fuel) == Clean <==>
              && fuel > 0
              && var es := listings[inum];
              && NamesOnlyTableSlots(inodes, es)
              && HasDot(inodes, es)
              && HasDotDot(inodes, es)
              && forall k | 0 <= k < |es| && IsSubdirectory(inodes, es[k]) ::
                   WalkDirectory(inodes, listings, es[k].inum, fuel - 1) == Clean
  {
    if fuel > 0 {
      ScanClean(inodes, listings, listings[inum], fuel - 1, false, false);
    }
  }

  /**
   More depth never changes a walk that ended within the depth it had: the
   verdict with fuel is the source's verdict whenever it is not Diverged.
   */
  lemma {:induction false} WalkFuelMonotone(inodes: seq<Inode>, listings: seq<seq<DirEnt>>, inum: nat, fuel: nat, more: nat)
    requires |listings| == |inodes|
    requires inum < |inodes|
    requires fuel <= more
    requires WalkDirectory(inodes, listings, inum, fuel) != Diverged
    ensures WalkDirectory(inodes, listings, inum, more) == WalkDirectory(inodes, listings, inum, fuel)
    decreases fuel, 0
  {
    ScanFuelMonotone(inodes, listings, listings[inum], fuel - 1, more - 1, false, false);
  }

  lemma {:induction false} ScanFuelMonotone(inodes: seq<Inode>, listings: seq<seq<DirEnt>>, es: seq<DirEnt>,
                                            fuel: nat, more: nat, foundDot: bool, foundDotDot: bool)
    requires |listings| == |inodes|
    requires fuel <= more
    requires ScanEntries(inodes, listings, es, fuel, foundDot, foundDotDot) != Diverged
    ensures ScanEntries(inodes, listings, es, more, foundDot, foundDotDot)
            == ScanEntries(inodes, listings, es, fuel, foundDot, foundDotDot)
    decreases fuel, |es|
  {
    if |es| > 0 {
      var e := es[0];
      if e.inum < |inodes| {
        var sub := inodes[e.inum];
        if sub.kind != T_DIR {
          ScanFuelMonotone(inodes, listings, es[1..], fuel, more, foundDot, foundDotDot);
        } else if IsDotName(e.name) {
          ScanFuelMonotone(inodes, listings, es[1..], fuel, more, true, foundDotDot);
        } else if IsDotDotName(e.name) {
          ScanFuelMonotone(inodes, listings, es[1..], fuel, more, foundDot, true);
        } else {
          WalkFuelMonotone(inodes, listings, e.inum, fuel, more);
          if WalkDirectory(inodes, listings, e.inum, fuel) == Clean {
            ScanFuelMonotone(inodes, listings, es[1..], fuel, more, foundDot, foundDotDot);
          }
        }
      }
    }
  }
}
