/** The on-disk image of a file header and the chain of headers a file is made
    of. The last slot of a header whose sector count exceeds NumDirect-1 names
    the disk sector holding the next header of the chain; which reading applies
    is decided by the sector count alone, as in filehdr.cc. */
module Chain {
  import opened Geometry
  import opened BitMaps

  /** What FetchFrom and WriteBack move between memory and one disk sector. */
  datatype HeaderImage = HeaderImage(numBytes: int, numSectors: int, dataSectors: seq<int>)

  /** The header images stored on disk, by sector number. */
  type Disk = map<int, HeaderImage>

  /** A header as `new FileHeader` leaves it: zero length, zero sectors. */
  function EmptyImage(): (h: HeaderImage)
    ensures |h.dataSectors| == NumDirect && h.numBytes == 0 && h.numSectors == 0
  {
    HeaderImage(0, 0, seq(NumDirect, _ => 0))
  }

  /** Whether the last slot names a child header (the threshold Allocate and
      ByteToSector use). */
  predicate Indirect(h: HeaderImage)
  {
    h.numSectors > NumDirect - 1
  }

  /** The header stored in the sector named by h's last slot. */
  function Child(h: HeaderImage, d: Disk): HeaderImage
    requires |h.dataSectors| == NumDirect && h.dataSectors[IndirectSlot] in d
  {
    d[h.dataSectors[IndirectSlot]]
  }

  /** The chain invariant: every header's sector count matches its length,
      and a header that is indirect names, through its last slot, a header on
      disk that covers the rest of the file. */
  ghost predicate ChainValid(h: HeaderImage, d: Disk)
    decreases if h.numBytes < 0 then 0 else h.numBytes
  {
    && |h.dataSectors| == NumDirect
    && 0 <= h.numBytes
    && h.numSectors == DivRoundUp(h.numBytes)
    && (Indirect(h) ==>
          && h.dataSectors[IndirectSlot] in d
          && Child(h, d).numBytes == h.numBytes - DirectBytes
          && ChainValid(Child(h, d), d))
  }

  /** A valid header is indirect exactly when its bytes overflow the direct slots. */
  lemma IndirectIffBytes(h: HeaderImage, d: Disk)
    requires ChainValid(h, d)
    ensures Indirect(h) <==> h.numBytes > DirectBytes
    ensures Indirect(h) ==> Child(h, d).numSectors == h.numSectors - (NumDirect - 1)
  {
    DirectIffBytes(h.numBytes);
    if Indirect(h) {
      DivRoundUpShift(h.numBytes);
    }
  }

  /** Sectors needed to store a file of n bytes: its data sectors plus one
      sector for every header after the first. */
  function TotalSectors(n: nat): (r: nat)
    ensures r >= DivRoundUp(n)
    decreases n
  {
    if n > DirectBytes then
      DivRoundUpShift(n);
      (NumDirect - 1) + TotalSectors(n - DirectBytes) + 1
    else DivRoundUp(n)
  }

  /** Every sector a valid chain owns, in the order Allocate claims them: the
      direct slots, then the child chain's, then the child header's own sector. */
  ghost function OwnedSeq(h: HeaderImage, d: Disk): (r: seq<int>)
    requires ChainValid(h, d)
    ensures |r| == TotalSectors(h.numBytes)
    decreases h.numBytes
  {
    IndirectIffBytes(h, d);
    if Indirect(h) then
      h.dataSectors[..IndirectSlot] + OwnedSeq(Child(h, d), d) + [h.dataSectors[IndirectSlot]]
    else h.dataSectors[..h.numSectors]
  }

  /** The data sectors of a valid chain in file order: sector i holds bytes
      i*SectorSize .. (i+1)*SectorSize-1 of the file. */
  ghost function FileSectors(h: HeaderImage, d: Disk): (r: seq<int>)
    requires ChainValid(h, d)
    ensures |r| == h.numSectors
    decreases h.numBytes
  {
    IndirectIffBytes(h, d);
    if Indirect(h) then h.dataSectors[..IndirectSlot] + FileSectors(Child(h, d), d)
    else h.dataSectors[..h.numSectors]
  }

  /** The data sector holding byte `offset` of a valid chain's file. */
  ghost function FileSectorAt(h: HeaderImage, d: Disk, offset: int): int
    requires ChainValid(h, d) && 0 <= offset < h.numBytes
  {
    OffsetSector(offset, h.numBytes);
    FileSectors(h, d)[offset / SectorSize]
  }

  /** A byte past the direct slots of an indirect header lies in its child,
      DirectBytes further back. */
  lemma FileSectorAtShift(h: HeaderImage, d: Disk, offset: int)
    requires ChainValid(h, d) && Indirect(h) && DirectBytes <= offset < h.numBytes
    ensures ChainValid(Child(h, d), d) && offset - DirectBytes < Child(h, d).numBytes
    ensures FileSectorAt(h, d, offset) == FileSectorAt(Child(h, d), d, offset - DirectBytes)
  {
    IndirectIffBytes(h, d);
    var c := Child(h, d);
    assert ChainValid(c, d) && c.numBytes == h.numBytes - DirectBytes;
    assert c.numSectors == DivRoundUp(c.numBytes);
    var k, k' := offset / SectorSize, (offset - DirectBytes) / SectorSize;
    OffsetShift(offset);
    OffsetSector(offset, h.numBytes);
    OffsetSector(offset - DirectBytes, c.numBytes);
    assert k == k' + (NumDirect - 1);
    var pre := h.dataSectors[..IndirectSlot];
    assert |pre| == NumDirect - 1;
    assert FileSectors(h, d) == pre + FileSectors(c, d);
    assert (pre + FileSectors(c, d))[|pre| + k'] == FileSectors(c, d)[k'];
  }

  /** What Deallocate needs to walk a chain: a header whose count exceeds
      NumDirect names a header on disk with a smaller count. */
  ghost predicate DeallocWalk(h: HeaderImage, d: Disk)
    decreases if h.numSectors < 0 then 0 else h.numSectors
  {
    && |h.dataSectors| == NumDirect
    && 0 <= h.numSectors
    && (h.numSectors > NumDirect ==>
          && h.dataSectors[IndirectSlot] in d
          && Child(h, d).numSectors < h.numSectors
          && DeallocWalk(Child(h, d), d))
  }

  /** The sectors Deallocate clears, in the order it clears them. It takes the
      last slot as a data sector whenever numSectors <= NumDirect. */
  ghost function DeallocSeq(h: HeaderImage, d: Disk): seq<int>
    requires DeallocWalk(h, d)
    decreases h.numSectors
  {
    if h.numSectors <= NumDirect then h.dataSectors[..h.numSectors]
    else h.dataSectors[..IndirectSlot] + DeallocSeq(Child(h, d), d) + [h.dataSectors[IndirectSlot]]
  }

  /** No header of the chain has exactly NumDirect sectors, the one count at
      which Deallocate and Allocate read the last slot differently. */
  ghost predicate NoBoundary(h: HeaderImage, d: Disk)
    requires ChainValid(h, d)
    decreases h.numBytes
  {
    h.numSectors != NumDirect && (Indirect(h) ==> NoBoundary(Child(h, d), d))
  }

  /** Every valid chain can be walked by Deallocate. */
  lemma {:induction false} ValidIsWalkable(h: HeaderImage, d: Disk)
    requires ChainValid(h, d)
    ensures DeallocWalk(h, d)
    decreases h.numBytes
  {
    IndirectIffBytes(h, d);
    if Indirect(h) {
      ValidIsWalkable(Child(h, d), d);
    }
  }

  /** Deallocate clears exactly the sectors Allocate claimed, in the same
      order, if and only if no header of the chain has NumDirect sectors. */
  lemma {:induction false} DeallocMatchesOwned(h: HeaderImage, d: Disk)
    requires ChainValid(h, d)
    ensures DeallocWalk(h, d)
    ensures DeallocSeq(h, d) == OwnedSeq(h, d) <==> NoBoundary(h, d)
    decreases h.numBytes
  {
    ValidIsWalkable(h, d);
    IndirectIffBytes(h, d);
    if h.numSectors == NumDirect {
      assert |DeallocSeq(h, d)| == NumDirect;
      assert |OwnedSeq(h, d)| == NumDirect + 1 by {
        assert TotalSectors(Child(h, d).numBytes) == 1 by {
          DirectIffBytes(Child(h, d).numBytes);
        }
      }
    } else if Indirect(h) {
      var c := Child(h, d);
      DeallocMatchesOwned(c, d);
      var pre := h.dataSectors[..IndirectSlot];
      var post := [h.dataSectors[IndirectSlot]];
      if DeallocSeq(h, d) == OwnedSeq(h, d) {
        assert DeallocSeq(c, d) == DeallocSeq(h, d)[|pre|..|DeallocSeq(h, d)| - 1];
        assert OwnedSeq(c, d) == OwnedSeq(h, d)[|pre|..|OwnedSeq(h, d)| - 1];
      }
    }
  }

  /** Writing a header image to a sector outside a valid chain leaves the
      chain, and everything computed from it, unchanged. */
  lemma {:induction false} ChainFrame(h: HeaderImage, d: Disk, s: int, x: HeaderImage)
    requires ChainValid(h, d) && s !in OwnedSeq(h, d)
    ensures ChainValid(h, d[s := x])
    ensures OwnedSeq(h, d[s := x]) == OwnedSeq(h, d)
    ensures FileSectors(h, d[s := x]) == FileSectors(h, d)
    decreases h.numBytes
  {
    IndirectIffBytes(h, d);
    if Indirect(h) {
      assert h.dataSectors[IndirectSlot] in OwnedSeq(h, d);
      ChainFrame(Child(h, d), d, s, x);
    }
  }

  /** Linking a valid chain behind NumDirect-1 direct sectors, through a
      sector the chain does not use, gives a valid chain one header longer. */
  lemma ChainCons(pre: seq<int>, c: HeaderImage, s: int, d: Disk, fileSize: nat)
    requires |pre| == NumDirect - 1 && fileSize > DirectBytes
    requires ChainValid(c, d) && c.numBytes == fileSize - DirectBytes && s !in OwnedSeq(c, d)
    ensures var h := HeaderImage(fileSize, DivRoundUp(fileSize), pre + [s]);
            && ChainValid(h, d[s := c])
            && OwnedSeq(h, d[s := c]) == pre + OwnedSeq(c, d) + [s]
            && FileSectors(h, d[s := c]) == pre + FileSectors(c, d)
  {
    var h := HeaderImage(fileSize, DivRoundUp(fileSize), pre + [s]);
    var d' := d[s := c];
    DirectIffBytes(fileSize);
    ChainFrame(c, d, s, c);
    assert h.dataSectors[IndirectSlot] == s && Child(h, d') == c;
    assert h.dataSectors[..IndirectSlot] == pre;
    assert ChainValid(h, d');
  }

  /** The byte offset at which the last header of a valid chain starts. */
  ghost function TailStart(h: HeaderImage, d: Disk): (r: nat)
    requires ChainValid(h, d)
    ensures r <= h.numBytes
    ensures Indirect(h) ==> r < h.numBytes && r >= DirectBytes
    decreases h.numBytes
  {
    IndirectIffBytes(h, d);
    if Indirect(h) then DirectBytes + TailStart(Child(h, d), d) else 0
  }

  /** The last header of a valid chain, the one whose last slot is data. */
  ghost function LastHeader(h: HeaderImage, d: Disk): (r: HeaderImage)
    requires ChainValid(h, d)
    ensures ChainValid(r, d) && !Indirect(r)
    decreases h.numBytes
  {
    IndirectIffBytes(h, d);
    if Indirect(h) then LastHeader(Child(h, d), d) else h
  }
}
