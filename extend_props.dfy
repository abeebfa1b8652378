/** What FileHeader::Extend (filehdr.cc:74-110) guarantees, proved about
    ExtendSpec, which the Extend method is proved to compute. */
module ExtendProps {
  import opened Geometry
  import opened BitMaps
  import opened Chain
  import opened FileHeaderSpec
  import opened AllocateProps

  /** Extend succeeds exactly when its two checks pass (the child extension
      of an indirect header then always passes its own); on failure nothing
      at all changes, and on success the header takes the new length. */
  lemma {:induction false} ExtendOutcome(h: HeaderImage, b: seq<bool>, d: Disk, fileSize: nat)
    requires Extendable(h, d, fileSize)
    ensures var e := ExtendSpec(h, b, d, fileSize);
            && (e.ok <==> DivRoundUp(fileSize) <= MaxFileSize && DivRoundUp(fileSize) <= CountClear(b))
            && (!e.ok ==> e == Effect(false, h, b, d))
            && (e.ok ==> e.hdr.numBytes == fileSize && e.hdr.numSectors == DivRoundUp(fileSize))
    decreases fileSize
  {
    var n := DivRoundUp(fileSize);
    if n <= MaxFileSize && n <= CountClear(b) && fileSize > DirectBytes && h.numBytes > DirectBytes {
      DivRoundUpShift(fileSize);
      var c := ExtendSpec(Child(h, d), b, d, fileSize - DirectBytes);
      ExtendOutcome(Child(h, d), b, d, fileSize - DirectBytes);
      assert ExtendSpec(h, b, d, fileSize) == ExtendChild(h, fileSize, c);
    }
  }

  /** Extend within the direct slots claims exactly the slots from the old
      sector count up to the new one, with sectors that were free, are
      distinct and are now in use; every other slot, every other bit and the
      disk are unchanged. */
  lemma ExtendDirectClaims(h: HeaderImage, b: seq<bool>, d: Disk, fileSize: nat)
    requires Extendable(h, d, fileSize) && fileSize <= DirectBytes
    requires DivRoundUp(fileSize) <= MaxFileSize && DivRoundUp(fileSize) <= CountClear(b)
    ensures var e := ExtendSpec(h, b, d, fileSize);
            var n := DivRoundUp(fileSize);
            var fill := FindN(b, Span(h.numSectors, n)).0;
            && e.ok && e.hdr.numBytes == fileSize && e.hdr.numSectors == n && e.disk == d
            && (forall i :: 0 <= i < NumDirect && !(h.numSectors <= i < n) ==>
                  e.hdr.dataSectors[i] == h.dataSectors[i])
            && (forall i :: h.numSectors <= i < n ==> e.hdr.dataSectors[i] == fill[i - h.numSectors])
            && Distinct(fill) && AllClear(b, fill)
            && (forall i :: 0 <= i < |b| ==> e.free[i] == (b[i] || i in fill))
  {
    var n := DivRoundUp(fileSize);
    DirectIffBytes(fileSize);
    var k := Span(h.numSectors, n);
    var fill := FindN(b, k);
    assert ExtendSpec(h, b, d, fileSize) == ExtendDirect(h, b, d, fileSize);
    FindNClaims(b, k);
    OverwriteAt(h.dataSectors, h.numSectors, fill.0);
  }

  /** Extend on a header that is already indirect never touches its sector
      table: it extends the child and writes it back to the sector it came
      from, and takes the new length. */
  lemma ExtendIndirectKeepsSlot(h: HeaderImage, b: seq<bool>, d: Disk, fileSize: nat)
    requires Extendable(h, d, fileSize) && fileSize > DirectBytes && h.numBytes > DirectBytes
    requires DivRoundUp(fileSize) <= MaxFileSize && DivRoundUp(fileSize) <= CountClear(b)
    ensures var e := ExtendSpec(h, b, d, fileSize);
            var c := ExtendSpec(Child(h, d), b, d, fileSize - DirectBytes);
            && e.ok && c.ok
            && e.hdr.dataSectors == h.dataSectors && e.hdr.numBytes == fileSize
            && c.hdr.numBytes == fileSize - DirectBytes
            && e.free == c.free && e.disk == c.disk[h.dataSectors[IndirectSlot] := c.hdr]
  {
    DivRoundUpShift(fileSize);
    ExtendOutcome(Child(h, d), b, d, fileSize - DirectBytes);
  }

  /** Extend checks the new sector count against the byte ceiling and
      ignores whether the child's Allocate succeeded. A direct header grown
      past the direct slots by more than MaxFileSize bytes, while its sector
      count stays under MaxFileSize, gets a child Allocate refuses: the
      child header stays empty, is written to disk anyway, and Extend
      reports success with a chain whose child covers none of the bytes. */
  lemma ExtendBreaksChain(h: HeaderImage, b: seq<bool>, d: Disk, fileSize: nat)
    requires ChainValid(h, d) && h.numBytes <= DirectBytes < fileSize
    requires DivRoundUp(fileSize) <= MaxFileSize < fileSize - DirectBytes
    requires DivRoundUp(fileSize) <= CountClear(b)
    ensures Extendable(h, d, fileSize)
    ensures var e := ExtendSpec(h, b, d, fileSize);
            e.ok && e.hdr.numBytes == fileSize && !ChainValid(e.hdr, e.disk)
  {
    var e := ExtendSpec(h, b, d, fileSize);
    assert e == ExtendToIndirect(h, b, d, fileSize);
    DirectIffBytes(fileSize);
    var fill := FindN(b, Span(h.numSectors, NumDirect - 1));
    var c := AllocateSpec(EmptyImage(), fill.1, d, fileSize - DirectBytes);
    assert c == Effect(false, EmptyImage(), fill.1, d);
    var s := LowestClear(c.free);
    assert e.hdr.dataSectors[IndirectSlot] == s && e.disk[s] == EmptyImage();
  }

  /** Extend as intended: the ceiling is in bytes, the file only grows, and
      the space check counts every sector the longer chain adds, its header
      sectors included. The branches are Extend's own. */
  function ExtendCorrected(h: HeaderImage, b: seq<bool>, d: Disk, fileSize: nat): (e: Effect)
    requires ChainValid(h, d)
    ensures |e.hdr.dataSectors| == NumDirect && |e.free| == |b|
    decreases fileSize
  {
    if fileSize > MaxFileSize || fileSize < h.numBytes
       || CountClear(b) + TotalSectors(h.numBytes) < TotalSectors(fileSize) then
      Effect(false, h, b, d)
    else if fileSize > DirectBytes then
      if h.numBytes <= DirectBytes then ExtendToIndirect(h, b, d, fileSize)
      else
        IndirectIffBytes(h, d);
        ExtendChild(h, fileSize, ExtendCorrected(Child(h, d), b, d, fileSize - DirectBytes))
    else ExtendDirect(h, b, d, fileSize)
  }

  /** The number of sectors growing a file from `from` to `to` bytes adds. */
  function Added(from: nat, to: nat): (k: nat)
    requires from <= to
    ensures k == TotalSectors(to) - TotalSectors(from)
  {
    TotalSectorsMonotone(from, to);
    TotalSectors(to) - TotalSectors(from)
  }

  lemma {:induction false} TotalSectorsMonotone(m: nat, n: nat)
    requires m <= n
    ensures TotalSectors(m) <= TotalSectors(n)
    decreases n
  {
    DivRoundUpMonotone(m, n);
    if m > DirectBytes {
      TotalSectorsMonotone(m - DirectBytes, n - DirectBytes);
    } else if n > DirectBytes {
      DirectIffBytes(m);
      DivRoundUpShift(n);
    }
  }

  /** The corrected Extend succeeds exactly when the longer file is within
      the byte ceiling and the map has a sector for everything it adds;
      on failure nothing changes. */
  lemma {:induction false} ExtendCorrectedOutcome(h: HeaderImage, b: seq<bool>, d: Disk, fileSize: nat)
    requires ChainValid(h, d) && h.numBytes <= fileSize
    ensures var e := ExtendCorrected(h, b, d, fileSize);
            && (e.ok <==> fileSize <= MaxFileSize && Added(h.numBytes, fileSize) <= CountClear(b))
            && (!e.ok ==> e == Effect(false, h, b, d))
    decreases fileSize
  {
    IndirectIffBytes(h, d);
    if fileSize <= MaxFileSize && Added(h.numBytes, fileSize) <= CountClear(b)
       && fileSize > DirectBytes && h.numBytes > DirectBytes {
      var c := Child(h, d);
      assert Added(c.numBytes, fileSize - DirectBytes) == Added(h.numBytes, fileSize);
      ExtendCorrectedOutcome(c, b, d, fileSize - DirectBytes);
    }
  }

  /** Growing a valid chain whose sectors are distinct and in use keeps
      all of that: the longer chain is valid, its sectors are the old ones
      plus the next Added(old, new) sectors Find hands out, and the map is
      left as those Finds leave it. */
  lemma {:induction false} ExtendCorrectedGrows(h: HeaderImage, b: seq<bool>, d: Disk, fileSize: nat)
    requires ChainValid(h, d) && Distinct(OwnedSeq(h, d)) && Marked(b, OwnedSeq(h, d))
    requires h.numBytes <= fileSize <= MaxFileSize && Added(h.numBytes, fileSize) <= CountClear(b)
    ensures var e := ExtendCorrected(h, b, d, fileSize);
            var k := Added(h.numBytes, fileSize);
            && e.ok && ChainValid(e.hdr, e.disk) && e.hdr.numBytes == fileSize
            && multiset(OwnedSeq(e.hdr, e.disk)) == multiset(OwnedSeq(h, d)) + multiset(FindN(b, k).0)
            && e.free == FindN(b, k).1
    decreases fileSize
  {
    IndirectIffBytes(h, d);
    if fileSize > DirectBytes {
      if h.numBytes <= DirectBytes {
        assert ExtendCorrected(h, b, d, fileSize) == ExtendToIndirect(h, b, d, fileSize);
        ToIndirectGrows(h, b, d, fileSize);
      } else {
        ExtendCorrectedChild(h, b, d, fileSize);
      }
    } else {
      ExtendCorrectedDirect(h, b, d, fileSize);
    }
  }

  /** The direct-to-direct case of ExtendCorrectedGrows. */
  lemma ExtendCorrectedDirect(h: HeaderImage, b: seq<bool>, d: Disk, fileSize: nat)
    requires ChainValid(h, d) && fileSize <= DirectBytes
    requires h.numBytes <= fileSize <= MaxFileSize && Added(h.numBytes, fileSize) <= CountClear(b)
    ensures var e := ExtendCorrected(h, b, d, fileSize);
            var k := Added(h.numBytes, fileSize);
            && e.ok && ChainValid(e.hdr, e.disk) && e.hdr.numBytes == fileSize
            && OwnedSeq(e.hdr, e.disk) == OwnedSeq(h, d) + FindN(b, k).0
            && e.free == FindN(b, k).1
  {
    var n := DivRoundUp(fileSize);
    DirectIffBytes(fileSize);
    DivRoundUpMonotone(h.numBytes, fileSize);
    IndirectIffBytes(h, d);
    var k := Added(h.numBytes, fileSize);
    assert k == Span(h.numSectors, n);
    var fill := FindN(b, k);
    var e := ExtendCorrected(h, b, d, fileSize);
    assert e == ExtendDirect(h, b, d, fileSize);
    OverwriteAt(h.dataSectors, h.numSectors, fill.0);
    assert e.hdr.dataSectors[..n] == h.dataSectors[..h.numSectors] + fill.0;
  }

  /** ExtendToIndirect's result, with the sector table written out. */
  lemma ToIndirectParts(h: HeaderImage, b: seq<bool>, d: Disk, fileSize: nat)
    requires |h.dataSectors| == NumDirect && 0 <= h.numSectors <= NumDirect - 1 && fileSize > DirectBytes
    ensures var fill := FindN(b, NumDirect - 1 - h.numSectors);
            var c := AllocateSpec(EmptyImage(), fill.1, d, fileSize - DirectBytes);
            var s := LowestClear(c.free);
            var e := ExtendToIndirect(h, b, d, fileSize);
            && e.ok
            && e.hdr == HeaderImage(fileSize, DivRoundUp(fileSize), h.dataSectors[..h.numSectors] + fill.0 + [s])
            && e.free == Mark(c.free, s) && e.disk == c.disk[s := c.hdr]
  {
    var fill := FindN(b, NumDirect - 1 - h.numSectors);
    OverwriteAt(h.dataSectors, h.numSectors, fill.0);
    var s := LowestClear(AllocateSpec(EmptyImage(), fill.1, d, fileSize - DirectBytes).free);
    assert Overwrite(h.dataSectors, h.numSectors, fill.0)[IndirectSlot := s]
           == h.dataSectors[..h.numSectors] + fill.0 + [s];
  }

  /** The assembly step of ToIndirectGrows, over plain values. */
  lemma StartAssemble(e: Effect, c: Effect, kept: seq<int>, fill: seq<int>, x: seq<int>, s: int,
                      fileSize: nat, all: seq<int>)
    requires fileSize > DirectBytes && |kept + fill| == NumDirect - 1
    requires ChainValid(c.hdr, c.disk) && c.hdr.numBytes == fileSize - DirectBytes
    requires OwnedSeq(c.hdr, c.disk) == x && s !in x
    requires e.hdr == HeaderImage(fileSize, DivRoundUp(fileSize), kept + fill + [s]) && e.disk == c.disk[s := c.hdr]
    requires all == fill + x + [s]
    ensures ChainValid(e.hdr, e.disk) && OwnedSeq(e.hdr, e.disk) == kept + all
  {
    ChainCons(kept + fill, c.hdr, s, c.disk, fileSize);
    assert (kept + fill) + x + [s] == kept + (fill + x + [s]);
  }

  /** The direct-to-indirect case of ExtendCorrectedGrows: the rest of the
      direct slots, then a child chain as Allocate builds it, then the child
      header's own sector. */
  lemma ToIndirectGrows(h: HeaderImage, b: seq<bool>, d: Disk, fileSize: nat)
    requires ChainValid(h, d) && h.numBytes <= DirectBytes < fileSize
    requires fileSize <= MaxFileSize && Added(h.numBytes, fileSize) <= CountClear(b)
    ensures var e := ExtendToIndirect(h, b, d, fileSize);
            var k := Added(h.numBytes, fileSize);
            && e.ok && ChainValid(e.hdr, e.disk) && e.hdr.numBytes == fileSize
            && OwnedSeq(e.hdr, e.disk) == OwnedSeq(h, d) + FindN(b, k).0
            && e.free == FindN(b, k).1
  {
    IndirectIffBytes(h, d);
    DirectIffBytes(h.numBytes);
    var k := Added(h.numBytes, fileSize);
    var ns := h.numSectors;
    var span := NumDirect - 1 - ns;
    var rest := fileSize - DirectBytes;
    var t' := TotalSectors(rest);
    assert k == span + t' + 1;
    var fill := FindN(b, span);
    FindNClaims(b, span);
    var c := AllocateSpec(EmptyImage(), fill.1, d, rest);
    AllocateClaims(EmptyImage(), fill.1, d, rest);
    FindNThree(b, span, t', k);
    ToIndirectParts(h, b, d, fileSize);
    var e := ExtendToIndirect(h, b, d, fileSize);
    var s := LowestClear(c.free);
    StartAssemble(e, c, h.dataSectors[..ns], fill.0, FindN(fill.1, t').0, s, fileSize, FindN(b, k).0);
  }

  /** ExtendCorrected's indirect-to-indirect branch, unfolded on its own. */
  lemma ChildParts(h: HeaderImage, b: seq<bool>, d: Disk, fileSize: nat)
    requires ChainValid(h, d) && DirectBytes < h.numBytes <= fileSize <= MaxFileSize
    requires Added(h.numBytes, fileSize) <= CountClear(b)
    ensures Indirect(h) && ChainValid(Child(h, d), d)
    ensures var c := ExtendCorrected(Child(h, d), b, d, fileSize - DirectBytes);
            var e := ExtendCorrected(h, b, d, fileSize);
            c.ok ==> && e.ok && e.hdr == h.(numBytes := fileSize, numSectors := DivRoundUp(fileSize))
                     && e.free == c.free && e.disk == c.disk[h.dataSectors[IndirectSlot] := c.hdr]
  {
    IndirectIffBytes(h, d);
    var c := ExtendCorrected(Child(h, d), b, d, fileSize - DirectBytes);
    assert ExtendCorrected(h, b, d, fileSize) == ExtendChild(h, fileSize, c);
  }

  /** A sector in use that a chain did not own is not among the sectors it
      owns after growing by free sectors. */
  lemma SlotOutside(slot: int, before: seq<int>, added: seq<int>, after: seq<int>, b: seq<bool>)
    requires slot !in before && AllClear(b, added) && 0 <= slot < |b| && b[slot]
    requires multiset(after) == multiset(before) + multiset(added)
    ensures slot !in after
  {
    assert slot !in added;
    assert slot !in multiset(before) + multiset(added);
  }

  /** The assembly step of ExtendCorrectedChild, over plain values. */
  lemma ChildAssemble(e: Effect, c: Effect, h: HeaderImage, fileSize: nat, before: seq<int>, added: seq<int>)
    requires |h.dataSectors| == NumDirect && fileSize > DirectBytes
    requires e.hdr == h.(numBytes := fileSize, numSectors := DivRoundUp(fileSize))
    requires e.disk == c.disk[h.dataSectors[IndirectSlot] := c.hdr]
    requires ChainValid(c.hdr, c.disk) && c.hdr.numBytes == fileSize - DirectBytes
    requires h.dataSectors[IndirectSlot] !in OwnedSeq(c.hdr, c.disk)
    requires multiset(OwnedSeq(c.hdr, c.disk)) == multiset(before) + multiset(added)
    ensures ChainValid(e.hdr, e.disk)
    ensures multiset(OwnedSeq(e.hdr, e.disk))
            == multiset(h.dataSectors[..IndirectSlot] + before + [h.dataSectors[IndirectSlot]]) + multiset(added)
  {
    var pre, slot := h.dataSectors[..IndirectSlot], h.dataSectors[IndirectSlot];
    assert h.dataSectors == pre + [slot];
    ChainCons(pre, c.hdr, slot, c.disk, fileSize);
    assert e.hdr == HeaderImage(fileSize, DivRoundUp(fileSize), pre + [slot]);
  }

  /** The indirect-to-indirect case of ExtendCorrectedGrows: the child
      chain grows, and goes back to the sector the last slot names. */
  lemma {:induction false} ExtendCorrectedChild(h: HeaderImage, b: seq<bool>, d: Disk, fileSize: nat)
    requires ChainValid(h, d) && Distinct(OwnedSeq(h, d)) && Marked(b, OwnedSeq(h, d))
    requires DirectBytes < h.numBytes <= fileSize <= MaxFileSize && Added(h.numBytes, fileSize) <= CountClear(b)
    ensures var e := ExtendCorrected(h, b, d, fileSize);
            var k := Added(h.numBytes, fileSize);
            && e.ok && ChainValid(e.hdr, e.disk) && e.hdr.numBytes == fileSize
            && multiset(OwnedSeq(e.hdr, e.disk)) == multiset(OwnedSeq(h, d)) + multiset(FindN(b, k).0)
            && e.free == FindN(b, k).1
    decreases fileSize, 0
  {
    IndirectIffBytes(h, d);
    var k := Added(h.numBytes, fileSize);
    var ch := Child(h, d);
    var slot := h.dataSectors[IndirectSlot];
    var pre, post := h.dataSectors[..IndirectSlot], [slot];
    assert OwnedSeq(h, d) == pre + OwnedSeq(ch, d) + post;
    DistinctMiddle(pre, OwnedSeq(ch, d), post);
    assert Marked(b, OwnedSeq(ch, d)) by {
      forall x | x in OwnedSeq(ch, d) ensures 0 <= x < |b| && b[x] {
        assert x in OwnedSeq(h, d);
      }
    }
    assert slot in OwnedSeq(h, d);
    assert Added(ch.numBytes, fileSize - DirectBytes) == k;
    var c := ExtendCorrected(ch, b, d, fileSize - DirectBytes);
    ExtendCorrectedGrows(ch, b, d, fileSize - DirectBytes);
    FindNClaims(b, k);
    SlotOutside(slot, OwnedSeq(ch, d), FindN(b, k).0, OwnedSeq(c.hdr, c.disk), b);
    ChildParts(h, b, d, fileSize);
    var e := ExtendCorrected(h, b, d, fileSize);
    ChildAssemble(e, c, h, fileSize, OwnedSeq(ch, d), FindN(b, k).0);
  }

  /** Every valid chain meets Extend's requirements, whatever the new length. */
  lemma {:induction false} ValidIsExtendable(h: HeaderImage, d: Disk, fileSize: nat)
    requires ChainValid(h, d)
    ensures Extendable(h, d, fileSize)
    decreases fileSize
  {
    IndirectIffBytes(h, d);
    if fileSize > DirectBytes && h.numBytes > DirectBytes {
      ValidIsExtendable(Child(h, d), d, fileSize - DirectBytes);
    }
  }

  /** On a valid chain grown to a length within the byte ceiling, when the
      map has room both for every sector the growth adds and for the new
      data-sector count, Extend as written and the corrected Extend agree. */
  lemma {:induction false} ExtendMatchesCorrected(h: HeaderImage, b: seq<bool>, d: Disk, fileSize: nat)
    requires ChainValid(h, d) && h.numBytes <= fileSize <= MaxFileSize
    requires Added(h.numBytes, fileSize) <= CountClear(b) && DivRoundUp(fileSize) <= CountClear(b)
    ensures Extendable(h, d, fileSize)
    ensures ExtendSpec(h, b, d, fileSize) == ExtendCorrected(h, b, d, fileSize)
    decreases fileSize
  {
    ValidIsExtendable(h, d, fileSize);
    DivRoundUpAtMost(fileSize);
    IndirectIffBytes(h, d);
    if fileSize > DirectBytes && h.numBytes > DirectBytes {
      var c := Child(h, d);
      assert Added(c.numBytes, fileSize - DirectBytes) == Added(h.numBytes, fileSize);
      DivRoundUpMonotone(fileSize - DirectBytes, fileSize);
      ExtendMatchesCorrected(c, b, d, fileSize - DirectBytes);
      assert ExtendSpec(h, b, d, fileSize) == ExtendChild(h, fileSize, ExtendSpec(c, b, d, fileSize - DirectBytes));
      assert ExtendCorrected(h, b, d, fileSize)
             == ExtendChild(h, fileSize, ExtendCorrected(c, b, d, fileSize - DirectBytes));
    }
  }

  /** Extend as written, on a valid chain whose sectors are distinct and in
      use, grown within the byte ceiling with room for every sector the
      growth adds and for the new data-sector count: the result is a valid
      chain owning the old sectors plus the next Added(old, new) sectors Find
      hands out, still distinct and in use, and the map is left as those
      Finds leave it. */
  lemma ExtendGrows(h: HeaderImage, b: seq<bool>, d: Disk, fileSize: nat)
    requires ChainValid(h, d) && Distinct(OwnedSeq(h, d)) && Marked(b, OwnedSeq(h, d))
    requires h.numBytes <= fileSize <= MaxFileSize
    requires Added(h.numBytes, fileSize) <= CountClear(b) && DivRoundUp(fileSize) <= CountClear(b)
    ensures Extendable(h, d, fileSize)
    ensures var e := ExtendSpec(h, b, d, fileSize);
            var k := Added(h.numBytes, fileSize);
            && e.ok && ChainValid(e.hdr, e.disk)
            && e.hdr.numBytes == fileSize && e.hdr.numSectors == DivRoundUp(fileSize)
            && multiset(OwnedSeq(e.hdr, e.disk)) == multiset(OwnedSeq(h, d)) + multiset(FindN(b, k).0)
            && e.free == FindN(b, k).1
            && Distinct(OwnedSeq(e.hdr, e.disk)) && Marked(e.free, OwnedSeq(e.hdr, e.disk))
  {
    ExtendMatchesCorrected(h, b, d, fileSize);
    ExtendCorrectedGrows(h, b, d, fileSize);
    var e := ExtendSpec(h, b, d, fileSize);
    var k := Added(h.numBytes, fileSize);
    FindNClaims(b, k);
    GrowExclusive(OwnedSeq(h, d), FindN(b, k).0, OwnedSeq(e.hdr, e.disk), b, e.free);
  }

  /** Allocating `small` bytes and then extending to `large` bytes leaves the
      same sector count, the same sectors (in another order) and the same
      free map as allocating `large` bytes at once, whenever the map has room
      for the large file's whole chain and, after the small one, for the
      large file's data-sector count. */
  lemma AllocateThenExtend(h: HeaderImage, b: seq<bool>, d: Disk, small: nat, large: nat)
    requires |h.dataSectors| == NumDirect && small <= large <= MaxFileSize
    requires TotalSectors(large) <= CountClear(b)
    requires TotalSectors(small) + DivRoundUp(large) <= CountClear(b)
    ensures var a := AllocateSpec(h, b, d, small);
            && a.ok && Extendable(a.hdr, a.disk, large)
            && var e := ExtendSpec(a.hdr, a.free, a.disk, large);
            var whole := AllocateSpec(h, b, d, large);
            && e.ok && whole.ok && ChainValid(e.hdr, e.disk) && ChainValid(whole.hdr, whole.disk)
            && e.hdr.numBytes == large && whole.hdr.numBytes == large
            && e.hdr.numSectors == whole.hdr.numSectors
            && multiset(OwnedSeq(e.hdr, e.disk)) == multiset(OwnedSeq(whole.hdr, whole.disk))
            && e.free == whole.free
  {
    TotalSectorsMonotone(small, large);
    var ts, tl := TotalSectors(small), TotalSectors(large);
    var a := AllocateSpec(h, b, d, small);
    AllocateClaims(h, b, d, small);
    AllocateExclusive(h, b, d, small);
    AllocateClaims(h, b, d, large);
    FindNClaims(b, ts);
    var k := Added(small, large);
    assert k == tl - ts && CountClear(a.free) == CountClear(b) - ts;
    ExtendGrows(a.hdr, a.free, a.disk, large);
    FindNSplit(b, ts, k);
    assert FindN(b, tl).0 == FindN(b, ts).0 + FindN(a.free, k).0;
  }

  /** Extend's space check counts data sectors only, like Allocate's. With
      exactly NumDirect sectors free, an empty header extended one byte past
      the direct slots passes it, and the child takes the last free sector,
      so the Find for the child header returns -1: Extend reports success,
      stores -1 as the link and writes the child header there. */
  lemma ExtendLosesHeaderSector(b: seq<bool>, d: Disk)
    requires NumDirect <= MaxFileSize && CountClear(b) == NumDirect
    ensures Extendable(EmptyImage(), d, DirectBytes + 1)
    ensures var e := ExtendSpec(EmptyImage(), b, d, DirectBytes + 1);
            && e.ok && e.hdr.numBytes == DirectBytes + 1
            && e.hdr.dataSectors[IndirectSlot] == -1
            && -1 in e.disk && e.disk[-1].numBytes == 1
  {
    var fileSize := DirectBytes + 1;
    DivRoundUpShift(fileSize);
    DivRoundUpUnique(1, 1);
    assert DivRoundUp(fileSize) == NumDirect;
    var h := EmptyImage();
    assert ExtendSpec(h, b, d, fileSize) == ExtendToIndirect(h, b, d, fileSize);
    var fill := FindN(b, NumDirect - 1);
    FindNClaims(b, NumDirect - 1);
    assert TotalSectors(1) == 1 by { DirectIffBytes(1); }
    AllocateClaims(EmptyImage(), fill.1, d, 1);
    var c := AllocateSpec(EmptyImage(), fill.1, d, 1);
    FindNClaims(fill.1, 1);
    NoClearIffFull(c.free);
  }
}
