/** The file header ("i-node") of filehdr.cc: a byte length, a sector count
    and a fixed table of NumDirect sector numbers, the last of which may name
    the disk sector of the next header of the same kind. Each operation is
    proved to do exactly what the matching function of FileHeaderSpec, or the
    chain functions of Chain, say. */
module FileHeaders {
  import opened Geometry
  import opened BitMaps
  import opened Chain
  import opened FileHeaderSpec
  import opened SynchDisks
  import opened TranslateProps

  class FileHeader {
    var numBytes: int
    var numSectors: int
    var dataSectors: array<int>

    ghost predicate Valid()
      reads this
    {
      dataSectors.Length == NumDirect
    }

    /** The fixed-size image FetchFrom and WriteBack move to and from disk. */
    function Image(): HeaderImage
      reads this, dataSectors
    {
      HeaderImage(numBytes, numSectors, dataSectors[..])
    }

    /** `new FileHeader`: the model starts a header zeroed. */
    constructor ()
      ensures Valid() && fresh(dataSectors)
      ensures Image() == EmptyImage()
    {
      numBytes := 0;
      numSectors := 0;
      var slots := new int[NumDirect](_ => 0);
      assert slots[..] == seq(NumDirect, _ => 0);
      dataSectors := slots;
    }

    /** Loads the header image stored in a sector into this header. */
    method FetchFrom(disk: SynchDisk, sector: int)
      requires Valid()
      requires sector in disk.headers && |disk.headers[sector].dataSectors| == NumDirect
      modifies this, dataSectors
      ensures Valid() && dataSectors == old(dataSectors)
      ensures Image() == disk.headers[sector]
    {
      var h := disk.ReadSector(sector);
      numBytes := h.numBytes;
      numSectors := h.numSectors;
      forall i | 0 <= i < NumDirect {
        dataSectors[i] := h.dataSectors[i];
      }
      assert dataSectors[..] == h.dataSectors;
    }

    /** Stores this header's image in a sector. */
    method WriteBack(disk: SynchDisk, sector: int)
      requires Valid()
      modifies disk
      ensures disk.headers == old(disk.headers)[sector := Image()]
    {
      disk.WriteSector(sector, Image());
    }

    /** The length of the file in bytes. */
    function FileLength(): (length: int)
      reads this
      ensures length == numBytes
    {
      numBytes
    }

    /** The source's `for (i = from; i < to; i++) dataSectors[i] = freeMap->Find();`:
        fills the slots from .. to-1 with the sectors Find hands out. */
    method ClaimSlots(freeMap: BitMap, from: int, to: int)
      requires Valid() && (from < to ==> 0 <= from && to <= NumDirect)
      modifies dataSectors, freeMap
      ensures dataSectors[..] == Overwrite(old(dataSectors[..]), from, FindN(old(freeMap.bits), Span(from, to)).0)
      ensures freeMap.bits == FindN(old(freeMap.bits), Span(from, to)).1
    {
      ghost var a0, b0 := dataSectors[..], freeMap.bits;
      var i := from;
      while i < to
        invariant from <= i && (i <= to || i == from)
        invariant dataSectors[..] == Overwrite(a0, from, FindN(b0, i - from).0)
        invariant freeMap.bits == FindN(b0, i - from).1
      {
        ghost var done := FindN(b0, i - from);
        var s := freeMap.Find();
        dataSectors[i] := s;
        OverwriteSnoc(a0, from, done.0, s);
        assert FindN(b0, i + 1 - from) == (done.0 + [s], Mark(done.1, s));
        i := i + 1;
      }
    }

    /** The source's loop that asserts and clears dataSectors[0 .. count-1]. */
    method ReleaseSlots(freeMap: BitMap, count: int)
      requires Valid() && 0 <= count <= NumDirect
      requires Distinct(dataSectors[..count]) && Marked(freeMap.bits, dataSectors[..count])
      modifies freeMap
      ensures freeMap.bits == ClearAll(old(freeMap.bits), dataSectors[..count])
    {
      var i := 0;
      while i < count
        invariant 0 <= i <= count
        invariant freeMap.bits == ClearAll(old(freeMap.bits), dataSectors[..i])
      {
        ClearAllAt(old(freeMap.bits), dataSectors[..i]);
        assert dataSectors[..count][i] == dataSectors[i];
        assert dataSectors[i] in dataSectors[..count];
        assert dataSectors[i] !in dataSectors[..i] by {
          forall j | 0 <= j < i ensures dataSectors[j] != dataSectors[i] {
            assert dataSectors[..count][j] == dataSectors[j];
          }
        }
        var inUse := freeMap.Test(dataSectors[i]);
        assert inUse;
        freeMap.Clear(dataSectors[i]);
        assert dataSectors[..i + 1] == dataSectors[..i] + [dataSectors[i]];
        i := i + 1;
      }
    }

    method Allocate(freeMap: BitMap, disk: SynchDisk, fileSize: nat) returns (ok: bool)
      requires Valid()
      modifies this, dataSectors, freeMap, disk
      ensures Valid() && dataSectors == old(dataSectors)
      ensures Effect(ok, Image(), freeMap.bits, disk.headers)
              == AllocateSpec(old(Image()), old(freeMap.bits), old(disk.headers), fileSize)
      decreases fileSize
    {
      ghost var h0, b0, d0 := Image(), freeMap.bits, disk.headers;
      ghost var e := AllocateSpec(h0, b0, d0, fileSize);
      if fileSize > MaxFileSize {
        return false;
      }
      numBytes := fileSize;
      numSectors := DivRoundUp(fileSize);
      var clear := freeMap.NumClear();
      if clear < numSectors {
        assert e == Effect(false, Image(), b0, d0);
        return false;
      }
      if fileSize > (NumDirect - 1) * SectorSize {
        assert e == AllocateIndirect(h0, b0, d0, fileSize);
        ClaimSlots(freeMap, 0, NumDirect - 1);
        ghost var direct := FindN(b0, NumDirect - 1);
        assert dataSectors[..] == Overwrite(h0.dataSectors, 0, direct.0);
        assert freeMap.bits == direct.1;
        var child := new FileHeader();
        var childOk := child.Allocate(freeMap, disk, fileSize - (NumDirect - 1) * SectorSize);
        ghost var c := AllocateSpec(EmptyImage(), direct.1, d0, fileSize - DirectBytes);
        assert childOk == c.ok && child.Image() == c.hdr && freeMap.bits == c.free && disk.headers == c.disk;
        assert dataSectors[..] == Overwrite(h0.dataSectors, 0, direct.0);
        if !childOk {
          assert e == Effect(false, Image(), c.free, c.disk);
          return false;
        }
        var s := freeMap.Find();
        dataSectors[NumDirect - 1] := s;
        child.WriteBack(disk, dataSectors[NumDirect - 1]);
        assert e == Effect(true, Image(), freeMap.bits, disk.headers);
      } else {
        DirectIffBytes(fileSize);
        ClaimSlots(freeMap, 0, numSectors);
        assert e == Effect(true, Image(), freeMap.bits, disk.headers);
      }
      return true;
    }

    /** Extend's move from a direct header to a chain (filehdr.cc:85-91): the
        remaining direct slots are filled, a fresh child header is allocated
        for the bytes past the direct slots (whether it succeeds is not
        looked at), and the child is written to one more sector from Find,
        which the last slot records. The length fields are left to Extend. */
    method StartChain(freeMap: BitMap, disk: SynchDisk, fileSize: nat)
      requires Valid() && 0 <= numSectors && fileSize > DirectBytes
      modifies dataSectors, freeMap, disk
      ensures numBytes == old(numBytes) && numSectors == old(numSectors)
      ensures ghost var e := ExtendToIndirect(old(Image()), old(freeMap.bits), old(disk.headers), fileSize);
              dataSectors[..] == e.hdr.dataSectors && freeMap.bits == e.free && disk.headers == e.disk
    {
      ghost var h0, b0, d0 := Image(), freeMap.bits, disk.headers;
      ghost var e := ExtendToIndirect(h0, b0, d0, fileSize);
      ghost var fill := FindN(b0, Span(h0.numSectors, NumDirect - 1));
      ghost var c := AllocateSpec(EmptyImage(), fill.1, d0, fileSize - DirectBytes);
      ClaimSlots(freeMap, numSectors, NumDirect - 1);
      ghost var filled := dataSectors[..];
      assert filled == Overwrite(h0.dataSectors, h0.numSectors, fill.0) && freeMap.bits == fill.1;
      var child := new FileHeader();
      ghost var rest: nat := fileSize - (NumDirect - 1) * SectorSize;
      assert rest == fileSize - DirectBytes;
      assert freeMap.bits == fill.1 && disk.headers == d0 && child.Image() == EmptyImage();
      var childOk := child.Allocate(freeMap, disk, fileSize - (NumDirect - 1) * SectorSize);
      assert Effect(childOk, child.Image(), freeMap.bits, disk.headers) == c;
      var s := freeMap.Find();
      dataSectors[NumDirect - 1] := s;
      assert dataSectors[..] == filled[IndirectSlot := s] == e.hdr.dataSectors;
      child.WriteBack(disk, dataSectors[NumDirect - 1]);
    }

    /** Extend's step down an existing chain (filehdr.cc:93-100): the child
        header is fetched and extended by the bytes past the direct slots; on
        success it is written back to the sector it came from. The length
        fields are left to Extend. */
    method GrowChain(freeMap: BitMap, disk: SynchDisk, fileSize: nat) returns (childOk: bool)
      requires Valid() && fileSize > DirectBytes
      requires dataSectors[IndirectSlot] in disk.headers
      requires Extendable(Child(Image(), disk.headers), disk.headers, fileSize - DirectBytes)
      modifies freeMap, disk
      ensures ghost var c := ExtendSpec(Child(old(Image()), old(disk.headers)), old(freeMap.bits),
                                        old(disk.headers), fileSize - DirectBytes);
              && childOk == c.ok && freeMap.bits == c.free
              && disk.headers == (if c.ok then c.disk[dataSectors[IndirectSlot] := c.hdr] else c.disk)
      decreases fileSize, 0
    {
      var child := new FileHeader();
      child.FetchFrom(disk, dataSectors[NumDirect - 1]);
      childOk := child.Extend(freeMap, disk, fileSize - (NumDirect - 1) * SectorSize);
      if !childOk {
        return false;
      }
      child.WriteBack(disk, dataSectors[NumDirect - 1]);
    }

    method Extend(freeMap: BitMap, disk: SynchDisk, fileSize: nat) returns (ok: bool)
      requires Valid() && Extendable(Image(), disk.headers, fileSize)
      modifies this, dataSectors, freeMap, disk
      ensures Valid() && dataSectors == old(dataSectors)
      ensures Effect(ok, Image(), freeMap.bits, disk.headers)
              == ExtendSpec(old(Image()), old(freeMap.bits), old(disk.headers), fileSize)
      decreases fileSize, 2
    {
      var newNumSectors := DivRoundUp(fileSize);
      if newNumSectors > MaxFileSize {
        return false;
      }
      var clear := freeMap.NumClear();
      if clear < newNumSectors {
        return false;
      }
      ok := Grow(freeMap, disk, fileSize);
    }

    /** The part of Extend after its two checks have passed (filehdr.cc:85-108):
        the header grows within its direct slots, starts a chain, or extends
        the chain it has; then it takes the new length. */
    method Grow(freeMap: BitMap, disk: SynchDisk, fileSize: nat) returns (ok: bool)
      requires Valid() && Extendable(Image(), disk.headers, fileSize)
      requires DivRoundUp(fileSize) <= MaxFileSize && DivRoundUp(fileSize) <= CountClear(freeMap.bits)
      modifies this, dataSectors, freeMap, disk
      ensures Valid() && dataSectors == old(dataSectors)
      ensures Effect(ok, Image(), freeMap.bits, disk.headers)
              == ExtendSpec(old(Image()), old(freeMap.bits), old(disk.headers), fileSize)
      decreases fileSize, 1
    {
      ghost var h0, b0, d0 := Image(), freeMap.bits, disk.headers;
      ghost var e := ExtendSpec(h0, b0, d0, fileSize);
      var newNumBytes := fileSize;
      var newNumSectors := DivRoundUp(fileSize);
      if fileSize > (NumDirect - 1) * SectorSize {
        if numBytes <= (NumDirect - 1) * SectorSize {
          assert e == ExtendToIndirect(h0, b0, d0, fileSize);
          StartChain(freeMap, disk, fileSize);
          assert e.hdr.dataSectors == dataSectors[..] && e.free == freeMap.bits && e.disk == disk.headers;
        } else {
          ghost var c := ExtendSpec(Child(h0, d0), b0, d0, fileSize - DirectBytes);
          assert e == ExtendChild(h0, fileSize, c);
          var childOk := GrowChain(freeMap, disk, fileSize);
          if !childOk {
            assert !e.ok && e.hdr == Image() && e.free == freeMap.bits && e.disk == disk.headers;
            return false;
          }
          assert e.hdr.dataSectors == dataSectors[..] && e.free == freeMap.bits && e.disk == disk.headers;
        }
      } else {
        assert e == ExtendDirect(h0, b0, d0, fileSize);
        DirectIffBytes(fileSize);
        ClaimSlots(freeMap, numSectors, newNumSectors);
        assert e.hdr.dataSectors == dataSectors[..] && e.free == freeMap.bits && e.disk == disk.headers;
      }
      assert e.ok && e.hdr.numBytes == newNumBytes && e.hdr.numSectors == newNumSectors;
      numBytes := newNumBytes;
      numSectors := newNumSectors;
      return true;
    }

    method Deallocate(freeMap: BitMap, disk: SynchDisk)
      requires Valid() && DeallocWalk(Image(), disk.headers)
      requires Distinct(DeallocSeq(Image(), disk.headers))
      requires Marked(freeMap.bits, DeallocSeq(Image(), disk.headers))
      modifies freeMap
      ensures freeMap.bits == ClearAll(old(freeMap.bits), DeallocSeq(Image(), disk.headers))
      decreases numSectors
    {
      ghost var b0, all := freeMap.bits, DeallocSeq(Image(), disk.headers);
      if numSectors <= NumDirect {
        ReleaseSlots(freeMap, numSectors);
      } else {
        var child := new FileHeader();
        child.FetchFrom(disk, dataSectors[NumDirect - 1]);
        ghost var pre, rest, last := dataSectors[..NumDirect - 1], DeallocSeq(child.Image(), disk.headers), dataSectors[NumDirect - 1];
        assert all == pre + rest + [last];
        ClearInThree(b0, pre, rest, last);
        ReleaseSlots(freeMap, NumDirect - 1);
        child.Deallocate(freeMap, disk);
        var inUse := freeMap.Test(dataSectors[NumDirect - 1]);
        assert inUse;
        freeMap.Clear(dataSectors[NumDirect - 1]);
      }
    }

    /** Deallocate with the threshold Allocate uses: the last slot is a data
        sector only while numSectors <= NumDirect-1, so every sector the chain
        owns is cleared exactly once, the child header's sector after the
        child's own. */
    method DeallocateCorrected(freeMap: BitMap, disk: SynchDisk)
      requires Valid() && ChainValid(Image(), disk.headers)
      requires Distinct(OwnedSeq(Image(), disk.headers))
      requires Marked(freeMap.bits, OwnedSeq(Image(), disk.headers))
      modifies freeMap
      ensures freeMap.bits == ClearAll(old(freeMap.bits), OwnedSeq(Image(), disk.headers))
      decreases numBytes
    {
      ghost var b0, all := freeMap.bits, OwnedSeq(Image(), disk.headers);
      IndirectIffBytes(Image(), disk.headers);
      if numSectors <= NumDirect - 1 {
        ReleaseSlots(freeMap, numSectors);
      } else {
        var child := new FileHeader();
        child.FetchFrom(disk, dataSectors[NumDirect - 1]);
        assert child.Image() == Child(Image(), disk.headers);
        ghost var pre, rest, last := dataSectors[..NumDirect - 1], OwnedSeq(child.Image(), disk.headers), dataSectors[NumDirect - 1];
        assert all == pre + rest + [last];
        ClearInThree(b0, pre, rest, last);
        ReleaseSlots(freeMap, NumDirect - 1);
        child.DeallocateCorrected(freeMap, disk);
        var inUse := freeMap.Test(dataSectors[NumDirect - 1]);
        assert inUse;
        freeMap.Clear(dataSectors[NumDirect - 1]);
      }
    }

    /** Translates a byte offset to a sector. An indirect header always passes
        offset - DirectBytes to its child, without checking whether the byte
        lies in its own direct slots, so only offsets in the last header of
        the chain reach their own sector; smaller offsets that stay within one
        sector of it reach slot 0 of the last header, and smaller ones still
        index below the table. */
    method ByteToSector(disk: SynchDisk, offset: int) returns (sector: int)
      requires Valid() && ChainValid(Image(), disk.headers)
      requires TailStart(Image(), disk.headers) - SectorSize < offset < numBytes
      ensures offset >= TailStart(Image(), disk.headers) ==>
                sector == FileSectorAt(Image(), disk.headers, offset)
      ensures offset < TailStart(Image(), disk.headers) ==>
                sector == LastHeader(Image(), disk.headers).dataSectors[0]
      ensures 0 <= ByteToSectorWalk(Image(), disk.headers, offset).1 < NumDirect
      ensures sector == LastHeader(Image(), disk.headers).dataSectors[ByteToSectorWalk(Image(), disk.headers, offset).1]
      decreases numBytes
    {
      ghost var h := Image();
      IndirectIffBytes(h, disk.headers);
      if numSectors <= NumDirect - 1 {
        if offset >= 0 {
          OffsetSector(offset, numBytes);
        }
        sector := dataSectors[CDiv(offset, SectorSize)];
      } else {
        var child := new FileHeader();
        child.FetchFrom(disk, dataSectors[NumDirect - 1]);
        assert child.Image() == Child(h, disk.headers);
        assert TailStart(h, disk.headers) == DirectBytes + TailStart(child.Image(), disk.headers);
        assert LastHeader(h, disk.headers) == LastHeader(child.Image(), disk.headers);
        assert ByteToSectorWalk(h, disk.headers, offset)
               == ByteToSectorWalk(child.Image(), disk.headers, offset - DirectBytes);
        if offset >= TailStart(h, disk.headers) {
          FileSectorAtShift(h, disk.headers, offset);
        }
        sector := child.ByteToSector(disk, offset - (NumDirect - 1) * SectorSize);
      }
    }

    /** ByteToSector as its comment describes it: a byte in this header's
        direct slots is looked up here, and only a byte past them is passed
        to the child, DirectBytes further back. Every byte of a valid chain
        then reaches the data sector that holds it. */
    method ByteToSectorCorrected(disk: SynchDisk, offset: int) returns (sector: int)
      requires Valid() && ChainValid(Image(), disk.headers) && 0 <= offset < numBytes
      ensures sector == FileSectorAt(Image(), disk.headers, offset)
      decreases numBytes
    {
      ghost var h := Image();
      IndirectIffBytes(h, disk.headers);
      OffsetSector(offset, numBytes);
      if numSectors <= NumDirect - 1 {
        sector := dataSectors[offset / SectorSize];
      } else if offset < (NumDirect - 1) * SectorSize {
        OffsetSector(offset, DirectBytes);
        DirectIffBytes(DirectBytes);
        ghost var pre := dataSectors[..NumDirect - 1];
        assert FileSectors(h, disk.headers) == pre + FileSectors(Child(h, disk.headers), disk.headers);
        assert FileSectors(h, disk.headers)[offset / SectorSize] == pre[offset / SectorSize];
        sector := dataSectors[offset / SectorSize];
      } else {
        var child := new FileHeader();
        child.FetchFrom(disk, dataSectors[NumDirect - 1]);
        assert child.Image() == Child(h, disk.headers);
        FileSectorAtShift(h, disk.headers, offset);
        sector := child.ByteToSectorCorrected(disk, offset - (NumDirect - 1) * SectorSize);
      }
    }
  }

  /** Storing a header in a sector and loading that sector into a header
      (the same one or another) gives back the stored length, sector count
      and table. */
  method WriteBackThenFetch(h: FileHeader, g: FileHeader, disk: SynchDisk, sector: int)
    requires h.Valid() && g.Valid()
    modifies disk, g, g.dataSectors
    ensures g.Valid() && g.Image() == old(h.Image())
    ensures disk.headers == old(disk.headers)[sector := old(h.Image())]
  {
    h.WriteBack(disk, sector);
    g.FetchFrom(disk, sector);
  }
}
