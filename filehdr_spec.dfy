/** What FileHeader::Allocate and FileHeader::Extend do, as functions of the
    header image, the free map and the disk before the call. The methods of
    FileHeader are proved to compute exactly these. */
module FileHeaderSpec {
  import opened Geometry
  import opened BitMaps
  import opened Chain

  /** The result of a call together with the state it leaves behind. */
  datatype Effect = Effect(ok: bool, hdr: HeaderImage, free: seq<bool>, disk: Disk)

  /** A table whose slots from .. from+|vals|-1 are replaced by vals. */
  function Overwrite(a: seq<int>, from: int, vals: seq<int>): (r: seq<int>)
    requires |vals| > 0 ==> 0 <= from && from + |vals| <= |a|
    ensures |r| == |a|
  {
    if |vals| == 0 then a else a[..from] + vals + a[from + |vals|..]
  }

  /** Slot by slot: the overwritten run holds vals, every other slot is kept. */
  lemma OverwriteAt(a: seq<int>, from: int, vals: seq<int>)
    requires |vals| > 0 ==> 0 <= from && from + |vals| <= |a|
    ensures forall i :: 0 <= i < |a| ==>
              Overwrite(a, from, vals)[i] == if from <= i < from + |vals| then vals[i - from] else a[i]
  {
  }

  /** Writing one more value after a run of overwritten slots. */
  lemma OverwriteSnoc(a: seq<int>, from: int, vals: seq<int>, x: int)
    requires 0 <= from && from + |vals| < |a|
    ensures Overwrite(a, from, vals + [x]) == Overwrite(a, from, vals)[from + |vals| := x]
  {
    var l, r := Overwrite(a, from, vals + [x]), Overwrite(a, from, vals)[from + |vals| := x];
    OverwriteAt(a, from, vals + [x]);
    OverwriteAt(a, from, vals);
    forall i | 0 <= i < |a| ensures l[i] == r[i] {
      if from <= i < from + |vals| {
        assert (vals + [x])[i - from] == vals[i - from];
      }
    }
  }

  /** FileHeader::Allocate (filehdr.cc:41-68). The size ceiling is checked in
      bytes; the space check counts data sectors only; a failed child
      allocation returns false without giving back the direct sectors; and
      the sector Find gives for the child header (-1 when the map is full)
      is stored and written to unchecked. */
  function AllocateSpec(h: HeaderImage, b: seq<bool>, d: Disk, fileSize: nat): (e: Effect)
    requires |h.dataSectors| == NumDirect
    ensures |e.hdr.dataSectors| == NumDirect && |e.free| == |b|
    decreases fileSize, 1
  {
    if fileSize > MaxFileSize then Effect(false, h, b, d)
    else
      var n := DivRoundUp(fileSize);
      var sized := h.(numBytes := fileSize, numSectors := n);
      if CountClear(b) < n then Effect(false, sized, b, d)
      else if fileSize > DirectBytes then AllocateIndirect(h, b, d, fileSize)
      else
        DirectIffBytes(fileSize);
        var claimed := FindN(b, n);
        Effect(true, sized.(dataSectors := Overwrite(h.dataSectors, 0, claimed.0)), claimed.1, d)
  }

  /** Allocate's indirect case (filehdr.cc:52-60), once both checks have
      passed: the NumDirect-1 direct slots are filled by Find, then a fresh
      child header is allocated for the bytes past them. */
  function AllocateIndirect(h: HeaderImage, b: seq<bool>, d: Disk, fileSize: nat): (e: Effect)
    requires |h.dataSectors| == NumDirect && fileSize > DirectBytes
    ensures |e.hdr.dataSectors| == NumDirect && |e.free| == |b|
    decreases fileSize, 0
  {
    var direct := FindN(b, NumDirect - 1);
    AllocateLink(HeaderImage(fileSize, DivRoundUp(fileSize), Overwrite(h.dataSectors, 0, direct.0)),
                 AllocateSpec(EmptyImage(), direct.1, d, fileSize - DirectBytes))
  }

  /** The end of Allocate's indirect case (filehdr.cc:56-60), given what
      allocating the child did: on failure the header keeps its direct
      sectors and nothing is given back; on success one more sector from
      Find (-1 when the map is full) goes into the last slot and receives
      the child's image. */
  function AllocateLink(withDirect: HeaderImage, child: Effect): (e: Effect)
    requires |withDirect.dataSectors| == NumDirect
    ensures |e.hdr.dataSectors| == NumDirect && |e.free| == |child.free|
  {
    if !child.ok then Effect(false, withDirect, child.free, child.disk)
    else
      var s := LowestClear(child.free);
      Effect(true, withDirect.(dataSectors := withDirect.dataSectors[IndirectSlot := s]),
             Mark(child.free, s), child.disk[s := child.hdr])
  }

  /** What Extend needs to run to completion on a header: slot indices it
      writes are in range, and the headers it fetches along the chain exist. */
  ghost predicate Extendable(h: HeaderImage, d: Disk, fileSize: nat)
    decreases fileSize
  {
    && |h.dataSectors| == NumDirect
    && 0 <= h.numSectors
    && (fileSize > DirectBytes && h.numBytes > DirectBytes ==>
          && h.dataSectors[IndirectSlot] in d
          && Extendable(Child(h, d), d, fileSize - DirectBytes))
  }

  /** Number of slots a C loop `for (i = from; i < to; i++)` visits. */
  function Span(from: int, to: int): nat
  {
    if from < to then to - from else 0
  }

  /** FileHeader::Extend (filehdr.cc:74-110). The ceiling compares a sector
      count with MaxFileSize; the space check counts the file's whole new
      sector count; the branch is chosen by the current byte length. */
  function ExtendSpec(h: HeaderImage, b: seq<bool>, d: Disk, fileSize: nat): (e: Effect)
    requires Extendable(h, d, fileSize)
    ensures |e.hdr.dataSectors| == NumDirect && |e.free| == |b|
    decreases fileSize
  {
    var n := DivRoundUp(fileSize);
    if n > MaxFileSize || CountClear(b) < n then Effect(false, h, b, d)
    else if fileSize > DirectBytes then
      if h.numBytes <= DirectBytes then ExtendToIndirect(h, b, d, fileSize)
      else ExtendChild(h, fileSize, ExtendSpec(Child(h, d), b, d, fileSize - DirectBytes))
    else ExtendDirect(h, b, d, fileSize)
  }

  /** Extend's direct-to-direct branch (filehdr.cc:102-106): Find fills the
      slots from numSectors up to the new sector count. */
  function ExtendDirect(h: HeaderImage, b: seq<bool>, d: Disk, fileSize: nat): (e: Effect)
    requires |h.dataSectors| == NumDirect && 0 <= h.numSectors && fileSize <= DirectBytes
    ensures |e.hdr.dataSectors| == NumDirect && |e.free| == |b|
  {
    var n := DivRoundUp(fileSize);
    DirectIffBytes(fileSize);
    var fill := FindN(b, Span(h.numSectors, n));
    Effect(true, HeaderImage(fileSize, n, Overwrite(h.dataSectors, h.numSectors, fill.0)), fill.1, d)
  }

  /** Extend's direct-to-indirect branch (filehdr.cc:85-91): Find fills the
      remaining direct slots, a fresh child is allocated for the rest of the
      bytes (its result ignored), and the child is written to one more sector
      from Find, which the last slot records. */
  function ExtendToIndirect(h: HeaderImage, b: seq<bool>, d: Disk, fileSize: nat): (e: Effect)
    requires |h.dataSectors| == NumDirect && 0 <= h.numSectors && fileSize > DirectBytes
    ensures |e.hdr.dataSectors| == NumDirect && |e.free| == |b|
  {
    var fill := FindN(b, Span(h.numSectors, NumDirect - 1));
    var child := AllocateSpec(EmptyImage(), fill.1, d, fileSize - DirectBytes);
    var s := LowestClear(child.free);
    var slots := Overwrite(h.dataSectors, h.numSectors, fill.0)[IndirectSlot := s];
    Effect(true, HeaderImage(fileSize, DivRoundUp(fileSize), slots), Mark(child.free, s), child.disk[s := child.hdr])
  }

  /** Extend's indirect-to-indirect branch (filehdr.cc:93-100), given what
      extending the child did: on success the child goes back to the sector
      it came from and this header takes the new size; on failure this header
      is unchanged. */
  function ExtendChild(h: HeaderImage, fileSize: nat, child: Effect): (e: Effect)
    requires |h.dataSectors| == NumDirect
    ensures |e.hdr.dataSectors| == NumDirect && |e.free| == |child.free|
  {
    if !child.ok then Effect(false, h, child.free, child.disk)
    else Effect(true, h.(numBytes := fileSize, numSectors := DivRoundUp(fileSize)), child.free,
                child.disk[h.dataSectors[IndirectSlot] := child.hdr])
  }
}
