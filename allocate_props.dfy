/** What FileHeader::Allocate (filehdr.cc:41-68) guarantees, proved about
    AllocateSpec, which the Allocate method is proved to compute. */
module AllocateProps {
  import opened Geometry
  import opened BitMaps
  import opened Chain
  import opened FileHeaderSpec

  /** Allocate succeeds exactly when the file is within the byte ceiling and
      the free map has as many clear sectors as the file has data sectors.
      On the ceiling failure nothing changes; on the space failure only the
      header's length fields have been set. */
  lemma {:induction false} AllocateOutcome(h: HeaderImage, b: seq<bool>, d: Disk, fileSize: nat)
    requires |h.dataSectors| == NumDirect
    ensures AllocateSpec(h, b, d, fileSize).ok
            <==> fileSize <= MaxFileSize && DivRoundUp(fileSize) <= CountClear(b)
    ensures fileSize > MaxFileSize ==> AllocateSpec(h, b, d, fileSize) == Effect(false, h, b, d)
    ensures fileSize <= MaxFileSize && CountClear(b) < DivRoundUp(fileSize) ==>
              AllocateSpec(h, b, d, fileSize)
              == Effect(false, h.(numBytes := fileSize, numSectors := DivRoundUp(fileSize)), b, d)
    decreases fileSize
  {
    if fileSize <= MaxFileSize && DivRoundUp(fileSize) <= CountClear(b) && fileSize > DirectBytes {
      DivRoundUpShift(fileSize);
      FindNClaims(b, NumDirect - 1);
      AllocateOutcome(EmptyImage(), FindN(b, NumDirect - 1).1, d, fileSize - DirectBytes);
      assert AllocateSpec(h, b, d, fileSize) == AllocateIndirect(h, b, d, fileSize);
    }
  }

  /** The sector counts of Allocate's indirect case: the child's chain fits
      in what is left after the direct slots. */
  lemma AllocateIndirectCounts(b: seq<bool>, fileSize: nat)
    requires DirectBytes < fileSize && TotalSectors(fileSize) <= CountClear(b)
    ensures NumDirect - 1 <= CountClear(b)
    ensures TotalSectors(fileSize) == (NumDirect - 1) + TotalSectors(fileSize - DirectBytes) + 1
    ensures TotalSectors(fileSize - DirectBytes) <= CountClear(FindN(b, NumDirect - 1).1)
    ensures DivRoundUp(fileSize - DirectBytes) <= CountClear(FindN(b, NumDirect - 1).1)
  {
    FindNClaims(b, NumDirect - 1);
  }

  /** With room for the whole chain, Allocate takes its indirect case. */
  lemma AllocateTakesIndirect(h: HeaderImage, b: seq<bool>, d: Disk, fileSize: nat)
    requires |h.dataSectors| == NumDirect && DirectBytes < fileSize <= MaxFileSize
    requires TotalSectors(fileSize) <= CountClear(b)
    ensures AllocateSpec(h, b, d, fileSize) == AllocateIndirect(h, b, d, fileSize)
  {
  }

  /** One step of Allocate's indirect case: the child allocation succeeds,
      and the result is assembled from it. */
  lemma AllocateIndirectStep(h: HeaderImage, b: seq<bool>, d: Disk, fileSize: nat)
    requires |h.dataSectors| == NumDirect && DirectBytes < fileSize <= MaxFileSize
    requires TotalSectors(fileSize) <= CountClear(b)
    ensures var direct := FindN(b, NumDirect - 1);
            var c := AllocateSpec(EmptyImage(), direct.1, d, fileSize - DirectBytes);
            var s := LowestClear(c.free);
            var e := AllocateIndirect(h, b, d, fileSize);
            && TotalSectors(fileSize) == (NumDirect - 1) + TotalSectors(fileSize - DirectBytes) + 1
            && TotalSectors(fileSize - DirectBytes) <= CountClear(direct.1)
            && c.ok && e.ok
            && e.hdr == HeaderImage(fileSize, DivRoundUp(fileSize), Overwrite(h.dataSectors, 0, direct.0)[IndirectSlot := s])
            && e.free == Mark(c.free, s) && e.disk == c.disk[s := c.hdr]
  {
    AllocateIndirectCounts(b, fileSize);
    AllocateOutcome(EmptyImage(), FindN(b, NumDirect - 1).1, d, fileSize - DirectBytes);
  }

  /** On success Allocate leaves the map exactly as TotalSectors(fileSize)
      calls of Find would, and sets the byte length. */
  lemma {:induction false} AllocateFree(h: HeaderImage, b: seq<bool>, d: Disk, fileSize: nat)
    requires |h.dataSectors| == NumDirect
    requires fileSize <= MaxFileSize && TotalSectors(fileSize) <= CountClear(b)
    ensures var e := AllocateSpec(h, b, d, fileSize);
            e.ok && e.hdr.numBytes == fileSize && e.free == FindN(b, TotalSectors(fileSize)).1
    decreases fileSize, 2
  {
    if fileSize > DirectBytes {
      AllocateTakesIndirect(h, b, d, fileSize);
      AllocateIndirectFree(h, b, d, fileSize);
    }
  }

  /** What Allocate's indirect case needs to know about the child
      allocation: it builds a valid chain over the Find run q that follows
      the direct run m, leaves the map as that run does, touches the disk only
      there, and the whole file's run is m, then q, then one more sector. */
  lemma {:induction false} AllocateChildFacts(b: seq<bool>, d: Disk, fileSize: nat)
    requires DirectBytes < fileSize <= MaxFileSize && TotalSectors(fileSize) <= CountClear(b)
    ensures var m := FindN(b, NumDirect - 1);
            var q := FindN(m.1, TotalSectors(fileSize - DirectBytes));
            var c := AllocateSpec(EmptyImage(), m.1, d, fileSize - DirectBytes);
            && ChainValid(c.hdr, c.disk) && c.hdr.numBytes == fileSize - DirectBytes
            && OwnedSeq(c.hdr, c.disk) == q.0 && c.free == q.1
            && (forall x :: x !in q.0 ==> (x in c.disk <==> x in d) && (x in d ==> c.disk[x] == d[x]))
            && FindN(b, TotalSectors(fileSize)) == (m.0 + q.0 + [LowestClear(q.1)], Mark(q.1, LowestClear(q.1)))
            && LowestClear(q.1) !in q.0
    decreases fileSize, 0
  {
    AllocateIndirectCounts(b, fileSize);
    AllocateClaims(EmptyImage(), FindN(b, NumDirect - 1).1, d, fileSize - DirectBytes);
    FindNThree(b, NumDirect - 1, TotalSectors(fileSize - DirectBytes), TotalSectors(fileSize));
  }

  /** The indirect case of AllocateFree. */
  lemma AllocateIndirectFree(h: HeaderImage, b: seq<bool>, d: Disk, fileSize: nat)
    requires |h.dataSectors| == NumDirect && DirectBytes < fileSize
    requires fileSize <= MaxFileSize && TotalSectors(fileSize) <= CountClear(b)
    ensures var e := AllocateIndirect(h, b, d, fileSize);
            e.ok && e.hdr.numBytes == fileSize && e.free == FindN(b, TotalSectors(fileSize)).1
    decreases fileSize, 1
  {
    AllocateIndirectStep(h, b, d, fileSize);
    AllocateChildFacts(b, d, fileSize);
  }

  /** Allocate writes header images only to sectors it claimed. */
  lemma {:induction false} AllocateDiskFrame(h: HeaderImage, b: seq<bool>, d: Disk, fileSize: nat)
    requires |h.dataSectors| == NumDirect
    requires fileSize <= MaxFileSize && TotalSectors(fileSize) <= CountClear(b)
    ensures var e := AllocateSpec(h, b, d, fileSize);
            forall s :: s !in FindN(b, TotalSectors(fileSize)).0 ==>
              (s in e.disk <==> s in d) && (s in d ==> e.disk[s] == d[s])
    decreases fileSize, 2
  {
    if fileSize > DirectBytes {
      AllocateTakesIndirect(h, b, d, fileSize);
      AllocateIndirectFrame(h, b, d, fileSize);
    }
  }

  /** The indirect case of AllocateDiskFrame. */
  lemma AllocateIndirectFrame(h: HeaderImage, b: seq<bool>, d: Disk, fileSize: nat)
    requires |h.dataSectors| == NumDirect && DirectBytes < fileSize
    requires fileSize <= MaxFileSize && TotalSectors(fileSize) <= CountClear(b)
    ensures var e := AllocateIndirect(h, b, d, fileSize);
            forall s :: s !in FindN(b, TotalSectors(fileSize)).0 ==>
              (s in e.disk <==> s in d) && (s in d ==> e.disk[s] == d[s])
    decreases fileSize, 1
  {
    var m := FindN(b, NumDirect - 1);
    var q := FindN(m.1, TotalSectors(fileSize - DirectBytes));
    var c := AllocateSpec(EmptyImage(), m.1, d, fileSize - DirectBytes);
    AllocateIndirectStep(h, b, d, fileSize);
    AllocateChildFacts(b, d, fileSize);
    LinkFrame(AllocateIndirect(h, b, d, fileSize).disk, c.disk, d, LowestClear(c.free), c.hdr, m.0, q.0);
  }

  /** The frame step of AllocateIndirectFrame, over plain values: writing
      the child's image at s keeps every sector outside pre + mid + [s]. */
  lemma LinkFrame(e: Disk, c: Disk, d: Disk, s: int, img: HeaderImage, pre: seq<int>, mid: seq<int>)
    requires e == c[s := img]
    requires forall x :: x !in mid ==> (x in c <==> x in d) && (x in d ==> c[x] == d[x])
    ensures forall x :: x !in pre + mid + [s] ==> (x in e <==> x in d) && (x in d ==> e[x] == d[x])
  {
  }

  /** When the free map also has room for the header sectors of the chain,
      Allocate builds a valid chain of the requested length whose sectors are
      exactly the first TotalSectors(fileSize) sectors Find hands out, in the
      order Allocate claims them, leaves the map as those Finds do, and
      writes to disk only at sectors it claimed. */
  lemma {:induction false} AllocateClaims(h: HeaderImage, b: seq<bool>, d: Disk, fileSize: nat)
    requires |h.dataSectors| == NumDirect
    requires fileSize <= MaxFileSize && TotalSectors(fileSize) <= CountClear(b)
    ensures var e := AllocateSpec(h, b, d, fileSize);
            && e.ok && e.hdr.numBytes == fileSize
            && ChainValid(e.hdr, e.disk)
            && OwnedSeq(e.hdr, e.disk) == FindN(b, TotalSectors(fileSize)).0
            && e.free == FindN(b, TotalSectors(fileSize)).1
            && forall s :: s !in FindN(b, TotalSectors(fileSize)).0 ==>
                 (s in e.disk <==> s in d) && (s in d ==> e.disk[s] == d[s])
    decreases fileSize, 3
  {
    AllocateFree(h, b, d, fileSize);
    AllocateDiskFrame(h, b, d, fileSize);
    AllocateChain(h, b, d, fileSize);
  }

  /** The chain half of AllocateClaims. */
  lemma {:induction false} AllocateChain(h: HeaderImage, b: seq<bool>, d: Disk, fileSize: nat)
    requires |h.dataSectors| == NumDirect
    requires fileSize <= MaxFileSize && TotalSectors(fileSize) <= CountClear(b)
    ensures var e := AllocateSpec(h, b, d, fileSize);
            && ChainValid(e.hdr, e.disk)
            && OwnedSeq(e.hdr, e.disk) == FindN(b, TotalSectors(fileSize)).0
    decreases fileSize, 2
  {
    if fileSize > DirectBytes {
      AllocateTakesIndirect(h, b, d, fileSize);
      AllocateIndirectChain(h, b, d, fileSize);
    } else {
      var e := AllocateSpec(h, b, d, fileSize);
      var n := DivRoundUp(fileSize);
      DirectIffBytes(fileSize);
      var claimed := FindN(b, n);
      assert e.hdr == h.(numBytes := fileSize, numSectors := n, dataSectors := Overwrite(h.dataSectors, 0, claimed.0));
      OverwriteAt(h.dataSectors, 0, claimed.0);
      assert e.hdr.dataSectors[..n] == claimed.0;
    }
  }

  /** The indirect case of AllocateChain: the direct sectors, then the
      child chain's sectors, then the child header's own sector. */
  lemma AllocateIndirectChain(h: HeaderImage, b: seq<bool>, d: Disk, fileSize: nat)
    requires |h.dataSectors| == NumDirect && fileSize > DirectBytes
    requires fileSize <= MaxFileSize && TotalSectors(fileSize) <= CountClear(b)
    ensures var e := AllocateIndirect(h, b, d, fileSize);
            && ChainValid(e.hdr, e.disk)
            && OwnedSeq(e.hdr, e.disk) == FindN(b, TotalSectors(fileSize)).0
    decreases fileSize, 1
  {
    var m := FindN(b, NumDirect - 1);
    var c := AllocateSpec(EmptyImage(), m.1, d, fileSize - DirectBytes);
    AllocateIndirectStep(h, b, d, fileSize);
    AllocateChildFacts(b, d, fileSize);
    LinkChild(AllocateIndirect(h, b, d, fileSize), c, h.dataSectors, m, FindN(m.1, TotalSectors(fileSize - DirectBytes)),
              FindN(b, TotalSectors(fileSize)), fileSize);
  }

  /** The assembly step of AllocateIndirectChain, over plain values: the
      direct run m, the child's run q, and the sector after them. */
  lemma LinkChild(e: Effect, c: Effect, table: seq<int>, m: (seq<int>, seq<bool>), q: (seq<int>, seq<bool>),
                  whole: (seq<int>, seq<bool>), fileSize: nat)
    requires fileSize > DirectBytes && |table| == NumDirect && |m.0| == NumDirect - 1
    requires e.hdr == HeaderImage(fileSize, DivRoundUp(fileSize), Overwrite(table, 0, m.0)[IndirectSlot := LowestClear(c.free)])
    requires e.disk == c.disk[LowestClear(c.free) := c.hdr]
    requires ChainValid(c.hdr, c.disk) && OwnedSeq(c.hdr, c.disk) == q.0
    requires c.hdr.numBytes == fileSize - DirectBytes && c.free == q.1
    requires whole == (m.0 + q.0 + [LowestClear(q.1)], Mark(q.1, LowestClear(q.1))) && LowestClear(q.1) !in q.0
    ensures ChainValid(e.hdr, e.disk) && OwnedSeq(e.hdr, e.disk) == whole.0
  {
    var s := LowestClear(q.1);
    OverwriteAt(table, 0, m.0);
    assert Overwrite(table, 0, m.0)[IndirectSlot := s] == m.0 + [s];
    ChainCons(m.0, c.hdr, s, c.disk, fileSize);
  }

  /** Corollary: the sectors of a newly allocated chain are pairwise
      distinct, were all free before, are all in use afterwards, and are the
      only bits Allocate sets; the free count drops by exactly their number. */
  lemma AllocateExclusive(h: HeaderImage, b: seq<bool>, d: Disk, fileSize: nat)
    requires |h.dataSectors| == NumDirect
    requires fileSize <= MaxFileSize && TotalSectors(fileSize) <= CountClear(b)
    ensures var e := AllocateSpec(h, b, d, fileSize);
            && ChainValid(e.hdr, e.disk)
            && var owned := OwnedSeq(e.hdr, e.disk);
            && |owned| == TotalSectors(fileSize)
            && Distinct(owned) && AllClear(b, owned) && Marked(e.free, owned)
            && (forall i :: 0 <= i < |b| ==> e.free[i] == (b[i] || i in owned))
            && CountClear(e.free) == CountClear(b) - |owned|
  {
    AllocateClaims(h, b, d, fileSize);
    FindNClaims(b, TotalSectors(fileSize));
  }

  /** Allocate's space check counts data sectors only. When exactly NumDirect
      sectors are free, a file one byte past the direct slots passes it, but
      its direct sectors and the child's one data sector use up the map, so
      the Find for the child header returns -1: Allocate reports success,
      stores -1 as the child's sector and writes the child header there. */
  lemma AllocateLosesHeaderSector(b: seq<bool>, d: Disk)
    requires DirectBytes < MaxFileSize && CountClear(b) == NumDirect
    ensures var e := AllocateSpec(EmptyImage(), b, d, DirectBytes + 1);
            && e.ok
            && e.hdr.dataSectors[IndirectSlot] == -1
            && -1 in e.disk && e.disk[-1].numBytes == 1
  {
    var fileSize := DirectBytes + 1;
    DivRoundUpShift(fileSize);
    DivRoundUpUnique(1, 1);
    assert DivRoundUp(fileSize) == NumDirect;
    var direct := FindN(b, NumDirect - 1);
    FindNClaims(b, NumDirect - 1);
    assert TotalSectors(1) == 1 by { DirectIffBytes(1); }
    AllocateClaims(EmptyImage(), direct.1, d, 1);
    var c := AllocateSpec(EmptyImage(), direct.1, d, 1);
    FindNClaims(direct.1, 1);
    NoClearIffFull(c.free);
  }

  /** Allocate with the space check the chain needs: header sectors counted. */
  function AllocateCorrected(h: HeaderImage, b: seq<bool>, d: Disk, fileSize: nat): (e: Effect)
    requires |h.dataSectors| == NumDirect
    ensures |e.free| == |b|
  {
    if fileSize > MaxFileSize then Effect(false, h, b, d)
    else if CountClear(b) < TotalSectors(fileSize) then
      Effect(false, h.(numBytes := fileSize, numSectors := DivRoundUp(fileSize)), b, d)
    else AllocateSpec(h, b, d, fileSize)
  }

  /** With the corrected check, Allocate succeeds exactly when the whole
      chain fits; on success every sector it hands out is a real sector,
      distinct and previously free, and the chain is valid; on failure the
      free map and the disk are untouched. */
  lemma AllocateCorrectedSound(h: HeaderImage, b: seq<bool>, d: Disk, fileSize: nat)
    requires |h.dataSectors| == NumDirect
    ensures var e := AllocateCorrected(h, b, d, fileSize);
            && (e.ok <==> fileSize <= MaxFileSize && TotalSectors(fileSize) <= CountClear(b))
            && (!e.ok ==> e.free == b && e.disk == d)
            && (e.ok ==> && ChainValid(e.hdr, e.disk) && e.hdr.numBytes == fileSize
                         && OwnedSeq(e.hdr, e.disk) == FindN(b, TotalSectors(fileSize)).0
                         && Distinct(OwnedSeq(e.hdr, e.disk)) && AllClear(b, OwnedSeq(e.hdr, e.disk))
                         && Marked(e.free, OwnedSeq(e.hdr, e.disk)))
  {
    if fileSize <= MaxFileSize && TotalSectors(fileSize) <= CountClear(b) {
      AllocateExclusive(h, b, d, fileSize);
      AllocateClaims(h, b, d, fileSize);
    }
  }
}
