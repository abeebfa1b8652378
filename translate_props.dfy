/** Where FileHeader::ByteToSector (filehdr.cc:175-184) ends up. An indirect
    header hands every offset to its child, DirectBytes further back, even
    when the byte lies in its own direct slots, so the walk always stops at
    the last header of the chain. */
module TranslateProps {
  import opened Geometry
  import opened Chain

  /** The header ByteToSector finally reads and the table index it computes
      there with C division: the last header of the chain, at the offset
      measured from where that header starts. */
  ghost function ByteToSectorWalk(h: HeaderImage, d: Disk, offset: int): (r: (HeaderImage, int))
    requires ChainValid(h, d)
    ensures r.0 == LastHeader(h, d)
    ensures r.1 == CDiv(offset - TailStart(h, d), SectorSize)
    decreases h.numBytes
  {
    IndirectIffBytes(h, d);
    if !Indirect(h) then (h, CDiv(offset, SectorSize))
    else ByteToSectorWalk(Child(h, d), d, offset - DirectBytes)
  }

  /** A byte before the last header of the chain is never looked up where
      it lies: within one sector of that header the walk reads slot 0 of the
      last header, and further back it computes a negative table index. */
  lemma ByteToSectorMisses(h: HeaderImage, d: Disk, offset: int)
    requires ChainValid(h, d) && 0 <= offset < TailStart(h, d)
    ensures var r := ByteToSectorWalk(h, d, offset);
            && r.0 == LastHeader(h, d)
            && (offset <= TailStart(h, d) - SectorSize ==> r.1 < 0)
            && (offset > TailStart(h, d) - SectorSize ==> r.1 == 0)
  {
    if offset <= TailStart(h, d) - SectorSize {
      DivAtLeastOne(TailStart(h, d) - offset);
    }
  }

  /** The plainest case: byte 0 of any file longer than the direct slots is
      translated to a negative index into the last header's table. */
  lemma FirstByteOfChainMisses(h: HeaderImage, d: Disk)
    requires ChainValid(h, d) && h.numBytes > DirectBytes
    ensures ByteToSectorWalk(h, d, 0).1 < 0
  {
    IndirectIffBytes(h, d);
    MulMono(1, NumDirect - 1, SectorSize);
    ByteToSectorMisses(h, d, 0);
  }
}
