/** What FileHeader::Deallocate (filehdr.cc:119-137) does to a chain, in
    particular to one that Allocate has just built. Deallocate takes the last
    slot as a data sector whenever numSectors <= NumDirect, while Allocate
    and ByteToSector read it as the child header's sector from
    numSectors > NumDirect-1 on; the lemmas here say what that costs. */
module DeallocateProps {
  import opened Geometry
  import opened BitMaps
  import opened Chain
  import opened FileHeaderSpec
  import opened AllocateProps

  /** Everything Deallocate clears belongs to the chain. */
  lemma {:induction false} DeallocWithinOwned(h: HeaderImage, d: Disk)
    requires ChainValid(h, d)
    ensures DeallocWalk(h, d)
    ensures forall x :: x in DeallocSeq(h, d) ==> x in OwnedSeq(h, d)
    decreases h.numBytes
  {
    ValidIsWalkable(h, d);
    IndirectIffBytes(h, d);
    var ds := h.dataSectors;
    if h.numSectors == NumDirect {
      assert DeallocSeq(h, d) == ds[..IndirectSlot] + [ds[IndirectSlot]];
      assert OwnedSeq(h, d) == ds[..IndirectSlot] + OwnedSeq(Child(h, d), d) + [ds[IndirectSlot]];
    } else if Indirect(h) {
      var c := Child(h, d);
      DeallocWithinOwned(c, d);
      assert DeallocSeq(h, d) == ds[..IndirectSlot] + DeallocSeq(c, d) + [ds[IndirectSlot]];
      assert OwnedSeq(h, d) == ds[..IndirectSlot] + OwnedSeq(c, d) + [ds[IndirectSlot]];
    }
  }

  /** A chain whose sectors are distinct gives Deallocate distinct sectors. */
  lemma {:induction false} DeallocDistinct(h: HeaderImage, d: Disk)
    requires ChainValid(h, d) && Distinct(OwnedSeq(h, d))
    ensures DeallocWalk(h, d) && Distinct(DeallocSeq(h, d))
    decreases h.numBytes
  {
    ValidIsWalkable(h, d);
    IndirectIffBytes(h, d);
    var ds := h.dataSectors;
    var pre, post := ds[..IndirectSlot], [ds[IndirectSlot]];
    if h.numSectors == NumDirect {
      var c := Child(h, d);
      assert DeallocSeq(h, d) == pre + [] + post;
      DistinctJoin(pre, OwnedSeq(c, d), post, []);
    } else if Indirect(h) {
      var c := Child(h, d);
      DistinctMiddle(pre, OwnedSeq(c, d), post);
      DeallocDistinct(c, d);
      DeallocWithinOwned(c, d);
      DistinctJoin(pre, OwnedSeq(c, d), post, DeallocSeq(c, d));
    }
  }

  /** The data sector of the child of the first header that has exactly
      NumDirect sectors: the one sector Deallocate does not reach. */
  ghost function LeakedSector(h: HeaderImage, d: Disk): int
    requires ChainValid(h, d) && !NoBoundary(h, d)
    decreases h.numBytes
  {
    IndirectIffBytes(h, d);
    assert ChainValid(Child(h, d), d);
    if h.numSectors == NumDirect then Child(h, d).dataSectors[0]
    else LeakedSector(Child(h, d), d)
  }

  /** When some header of a chain with distinct sectors has exactly
      NumDirect sectors, one sector of the chain is never cleared. */
  lemma {:induction false} LeakedSectorMissed(h: HeaderImage, d: Disk)
    requires ChainValid(h, d) && !NoBoundary(h, d) && Distinct(OwnedSeq(h, d))
    ensures DeallocWalk(h, d)
    ensures LeakedSector(h, d) in OwnedSeq(h, d)
    ensures LeakedSector(h, d) !in DeallocSeq(h, d)
    decreases h.numBytes
  {
    ValidIsWalkable(h, d);
    IndirectIffBytes(h, d);
    var ds := h.dataSectors;
    var pre, post := ds[..IndirectSlot], [ds[IndirectSlot]];
    var c := Child(h, d);
    var x := LeakedSector(h, d);
    assert OwnedSeq(h, d) == pre + OwnedSeq(c, d) + post;
    if h.numSectors == NumDirect {
      DirectIffBytes(c.numBytes);
      assert OwnedSeq(c, d) == [x];
      DistinctMiddle(pre, [x], post);
      assert DeallocSeq(h, d) == pre + post;
    } else {
      DistinctMiddle(pre, OwnedSeq(c, d), post);
      LeakedSectorMissed(c, d);
      assert DeallocSeq(h, d) == pre + DeallocSeq(c, d) + post;
    }
  }

  /** A header Allocate builds meets Deallocate's requirements: the sectors
      it walks are distinct and all in use, so its ASSERTs hold. */
  lemma DeallocateAfterAllocateSafe(h: HeaderImage, b: seq<bool>, d: Disk, fileSize: nat)
    requires |h.dataSectors| == NumDirect
    requires fileSize <= MaxFileSize && TotalSectors(fileSize) <= CountClear(b)
    ensures var e := AllocateSpec(h, b, d, fileSize);
            && DeallocWalk(e.hdr, e.disk)
            && Distinct(DeallocSeq(e.hdr, e.disk)) && Marked(e.free, DeallocSeq(e.hdr, e.disk))
  {
    var e := AllocateSpec(h, b, d, fileSize);
    AllocateExclusive(h, b, d, fileSize);
    DeallocDistinct(e.hdr, e.disk);
    DeallocWithinOwned(e.hdr, e.disk);
  }

  /** Deallocating what Allocate has just built gives the free map back
      exactly when no header of the chain has NumDirect sectors. */
  lemma AllocateThenDeallocate(h: HeaderImage, b: seq<bool>, d: Disk, fileSize: nat)
    requires |h.dataSectors| == NumDirect
    requires fileSize <= MaxFileSize && TotalSectors(fileSize) <= CountClear(b)
    ensures var e := AllocateSpec(h, b, d, fileSize);
            && ChainValid(e.hdr, e.disk) && DeallocWalk(e.hdr, e.disk)
            && (ClearAll(e.free, DeallocSeq(e.hdr, e.disk)) == b <==> NoBoundary(e.hdr, e.disk))
  {
    var e := AllocateSpec(h, b, d, fileSize);
    var t := TotalSectors(fileSize);
    AllocateClaims(h, b, d, fileSize);
    FindNClaims(b, t);
    DeallocMatchesOwned(e.hdr, e.disk);
    if NoBoundary(e.hdr, e.disk) {
      FindNThenClearAll(b, t);
    } else {
      var x := LeakedSector(e.hdr, e.disk);
      LeakedSectorMissed(e.hdr, e.disk);
      ClearAllAt(e.free, DeallocSeq(e.hdr, e.disk));
      assert ClearAll(e.free, DeallocSeq(e.hdr, e.disk))[x] != b[x];
    }
  }

  /** The smallest case: a file one byte past the direct slots has exactly
      NumDirect sectors, so allocating and deallocating it leaks the child's
      data sector. */
  lemma BoundaryFileLeaks(b: seq<bool>, d: Disk)
    requires DirectBytes < MaxFileSize && NumDirect + 1 <= CountClear(b)
    ensures var e := AllocateSpec(EmptyImage(), b, d, DirectBytes + 1);
            && e.ok && e.hdr.numSectors == NumDirect && DeallocWalk(e.hdr, e.disk)
            && ClearAll(e.free, DeallocSeq(e.hdr, e.disk)) != b
  {
    var fileSize := DirectBytes + 1;
    DivRoundUpShift(fileSize);
    DivRoundUpUnique(1, 1);
    assert TotalSectors(1) == 1 by { DirectIffBytes(1); }
    assert TotalSectors(fileSize) == NumDirect + 1;
    AllocateThenDeallocate(EmptyImage(), b, d, fileSize);
    AllocateClaims(EmptyImage(), b, d, fileSize);
  }

  /** Clearing every sector the chain owns, which the corrected Deallocate
      does, always gives back the map Allocate started from. */
  lemma AllocateThenDeallocateCorrected(h: HeaderImage, b: seq<bool>, d: Disk, fileSize: nat)
    requires |h.dataSectors| == NumDirect
    ensures var e := AllocateCorrected(h, b, d, fileSize);
            e.ok ==> ChainValid(e.hdr, e.disk) && ClearAll(e.free, OwnedSeq(e.hdr, e.disk)) == b
  {
    var e := AllocateCorrected(h, b, d, fileSize);
    AllocateCorrectedSound(h, b, d, fileSize);
    if e.ok {
      AllocateClaims(h, b, d, fileSize);
      FindNThenClearAll(b, TotalSectors(fileSize));
    }
  }

  /** Deallocate raises the free count by exactly the number of sectors it
      clears, all of them the chain's; when no header has NumDirect sectors
      that is every sector the chain owns. */
  lemma DeallocateConserves(h: HeaderImage, d: Disk, b: seq<bool>)
    requires ChainValid(h, d) && Distinct(OwnedSeq(h, d)) && Marked(b, OwnedSeq(h, d))
    ensures DeallocWalk(h, d)
    ensures CountClear(ClearAll(b, DeallocSeq(h, d))) == CountClear(b) + |DeallocSeq(h, d)|
    ensures NoBoundary(h, d) ==> |DeallocSeq(h, d)| == TotalSectors(h.numBytes)
  {
    DeallocDistinct(h, d);
    DeallocWithinOwned(h, d);
    DeallocMatchesOwned(h, d);
    ClearAllCount(b, DeallocSeq(h, d));
  }
}
