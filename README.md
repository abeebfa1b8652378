# nachos file headers, modelled in Dafny

The nachos file system describes each file with a file header (its
"i-node"). A header has three fields:

- `numBytes`, the file length;
- `numSectors`, the number of data sectors;
- `dataSectors`, a table of `NumDirect` sector numbers.

The first `NumDirect-1` slots always hold data sectors. The last slot holds
one more data sector, or, once `numSectors > NumDirect-1`, the disk sector
where the next header of the same file is stored. A file is therefore a chain
of headers linked through disk sectors. Sectors are taken from a shared
free-sector bitmap.

This project models `FileHeader` from `filesys/filehdr.cc`: `Allocate`,
`Extend`, `Deallocate`, `ByteToSector`, `FetchFrom`, `WriteBack` and
`FileLength`. It proves what these operations do to the header, to the free
map and to the header images on disk.

Modules:

- `Geometry`: the constants `SectorSize`, `NumDirect` and `MaxFileSize`, and
  `divRoundUp`. The constants are declared in filehdr.h, which is not part of
  this model, so they stay abstract with `SectorSize > 0` and `NumDirect >= 2`.
  Also C's truncating division.
- `BitMaps`: the free map as a `seq<bool>`, with `Find` (the lowest clear bit,
  or -1), `Test`, `Clear` and `NumClear` as a class, plus the functions that
  specify them. `FindN` describes k successive `Find`s.
- `SynchDisks`: the disk as a map from sector number to header image, read
  and written one sector per call.
- `Chain`: the header image and the chain invariant `ChainValid`, which says
  the sector count matches the length and an indirect header names its child
  on disk. Also the sequence of sectors a chain owns (`OwnedSeq`), the data
  sectors in file order (`FileSectors`), and the sectors `Deallocate` clears
  (`DeallocSeq`).
- `FileHeaderSpec`: `Allocate` and `Extend` as functions from the header
  image, free map and disk before the call to the result and the state after.
- `FileHeaders`: the class `FileHeader`, with an `array<int>` table and the
  same fields as the source. Each method is proved to compute its
  specification function or chain function.
- `AllocateProps`, `ExtendProps`, `DeallocateProps`, `TranslateProps`: what
  the operations guarantee, and where they go wrong.

Quirks of the source are kept as they are:

- Allocate and ByteToSector treat the last slot as a link from
  `numSectors > NumDirect-1` on, while Deallocate does so only from
  `numSectors > NumDirect`.
- Allocate's and Extend's space checks (lines 49 and 82) count data sectors
  only, not the header sectors of the chain.
- Extend compares a sector count with `MaxFileSize`.
- Extend ignores the result of its child `Allocate`.
- A failed child allocation inside Allocate gives nothing back.

Inside Allocate a child allocation never fails: Allocate's own space check
already guarantees room for the child's data sectors (`AllocateOutcome`).
Extend's child `Allocate` at line 89 does fail, on a length whose remainder
exceeds `MaxFileSize` (`ExtendBreaksChain`). Each of the other quirks has a
corrected counterpart, listed under Findings.

Several lemmas about a successful Allocate assume the map has room for the
whole chain, header sectors included: `TotalSectors(fileSize) <= NumClear`,
where `TotalSectors` counts the data sectors plus one sector per header after
the first. That is stronger than Allocate's own check at line 49. Under the
weaker check alone, Allocate can report success with a chain linked through
sector -1 (`AllocateLosesHeaderSector`).

## Model

| member | source | states |
|---|---|---|
| FileHeaders.FileHeader.constructor | filesys/filehdr.cc:56 | `new FileHeader` gives a header of NumDirect slots with zero length and zero sectors |
| FileHeaders.FileHeader.FetchFrom | filesys/filehdr.cc:147-150 | after loading sector s, the header's length, count and table are the image stored at s, in the same table array |
| FileHeaders.FileHeader.WriteBack | filesys/filehdr.cc:160-163 | sector s of the disk now holds this header's image and no other sector changes |
| FileHeaders.WriteBackThenFetch | filesys/filehdr.cc:149-162 | WriteBack(s) followed by FetchFrom(s), into the same header or another, restores the stored length, count and table |
| FileHeaders.FileHeader.FileLength | filesys/filehdr.cc:192-195 | returns numBytes |
| FileHeaders.FileHeader.ClaimSlots | filesys/filehdr.cc:64-65 | the `for` loop that fills slots from..to-1 by Find leaves exactly those slots holding the sectors that to-from Finds hand out, all other slots kept, and the map as those Finds leave it |
| FileHeaders.FileHeader.ReleaseSlots | filesys/filehdr.cc:123-126 | the loop that asserts Test and calls Clear on slots 0..count-1 never fails its ASSERT when those sectors are distinct and in use, and leaves the map with exactly them cleared |
| FileHeaders.FileHeader.Allocate | filesys/filehdr.cc:42-68 | the new header, free map and disk are exactly AllocateSpec of the old ones: the byte-ceiling check, the data-sector space check, the direct case, and the indirect case of NumDirect-1 Finds, a recursive child allocation, one more Find for the link slot and a WriteBack of the child there |
| FileHeaders.FileHeader.StartChain | filesys/filehdr.cc:85-91 | Extend's direct-to-indirect step fills slots numSectors..NumDirect-2, allocates a fresh child (its result unused), and links it through one more Find, as ExtendToIndirect states |
| FileHeaders.FileHeader.GrowChain | filesys/filehdr.cc:94-99 | Extend's indirect step fetches the child from the link slot, extends it, and on success writes it back to that same sector |
| FileHeaders.FileHeader.Extend | filesys/filehdr.cc:75-110 | the new header, free map and disk are exactly ExtendSpec of the old ones |
| FileHeaders.FileHeader.Grow | filesys/filehdr.cc:84-109 | Extend after its two checks: the three branches, chosen by fileSize and the current numBytes, then the new length and count |
| FileHeaders.FileHeader.Deallocate | filesys/filehdr.cc:120-137 | every ASSERT(Test) holds, and the map ends with exactly the sectors of DeallocSeq cleared: slots 0..numSectors-1 while numSectors <= NumDirect, otherwise the direct slots, then the child chain, then the link sector |
| FileHeaders.FileHeader.DeallocateCorrected | filesys/filehdr.cc:120-137 | with the threshold of lines 52 and 178, Deallocate clears exactly every sector the chain owns, once each, the link sector after the child's own |
| FileHeaders.FileHeader.ByteToSector | filesys/filehdr.cc:176-184 | the returned sector is the last header's slot at the index ByteToSectorWalk computes, always in range on this domain: the sector holding the byte when the offset lies in the last header of the chain, and slot 0 of the last header when it lies within one sector before it |
| FileHeaders.FileHeader.ByteToSectorCorrected | filesys/filehdr.cc:176-184 | translating with a direct-slot check first returns, for every offset below numBytes, the data sector that holds that byte |
| BitMaps.BitMap.Find | filesys/filehdr.cc:54 | returns the lowest clear sector and marks it, or returns -1 and changes nothing when none is clear |
| BitMaps.BitMap.Test | filesys/filehdr.cc:124 | returns whether the sector is in use |
| BitMaps.BitMap.Clear | filesys/filehdr.cc:125 | frees exactly that sector |
| BitMaps.BitMap.NumClear | filesys/filehdr.cc:49 | returns the number of clear bits |
| BitMaps.LowestClearIsLowest | filesys/filehdr.cc:54 | the sector Find takes is clear and every lower one is set; -1 only when all are set |
| BitMaps.NoClearIffFull | filesys/filehdr.cc:59 | Find returns -1 exactly when NumClear is 0 |
| BitMaps.FindNClaims | filesys/filehdr.cc:53-54 | k Finds with at least k clear bits hand out k distinct sectors that were free, set exactly those bits, and lower NumClear by k |
| BitMaps.FindNThenClearAll | filesys/filehdr.cc:123-125 | clearing the sectors k Finds handed out restores the map they started from |
| BitMaps.ClearInThree | filesys/filehdr.cc:127-135 | clearing a distinct, in-use run of direct sectors, child sectors and link sector in three steps meets every ASSERT(Test) and equals clearing the whole run |
| BitMaps.ClearAllCount | filesys/filehdr.cc:123-135 | clearing distinct, in-use sectors raises NumClear by exactly their number |
| BitMaps.DistinctMultiset | filesys/filehdr.cc:54 | a run of sectors is distinct iff no sector occurs in it twice |
| BitMaps.GrowExclusive | filesys/filehdr.cc:104-105 | distinct in-use sectors plus distinct free sectors that are then marked form a distinct run of in-use sectors |
| SynchDisks.SynchDisk.ReadSector | filesys/filehdr.cc:149 | returns the image stored at that sector |
| SynchDisks.SynchDisk.WriteSector | filesys/filehdr.cc:162 | stores the image at that sector and changes no other |
| Geometry.DivRoundUpBounds | filesys/filehdr.cc:47 | divRoundUp gives the fewest sectors that hold the bytes |
| Geometry.DivRoundUpShift | filesys/filehdr.cc:57 | the child of a file past the direct slots has exactly NumDirect-1 fewer sectors |
| Geometry.DirectIffBytes | filesys/filehdr.cc:52 | the byte test of line 52 and the sector test of line 178 agree: fileSize <= (NumDirect-1)*SectorSize iff divRoundUp(fileSize) <= NumDirect-1 |
| Geometry.DivRoundUpAtMost | filesys/filehdr.cc:78-79 | a sector count never exceeds the byte count, so a length within MaxFileSize passes line 79's sector test |
| Geometry.CDiv | filesys/filehdr.cc:179 | C's division agrees with Dafny's for non-negative dividends and truncates to 0 just below 0 |
| Chain.IndirectIffBytes | filesys/filehdr.cc:178 | a valid header links a child exactly when its length exceeds the direct slots, and the child has NumDirect-1 fewer sectors |
| Chain.ValidIsWalkable | filesys/filehdr.cc:127-133 | Deallocate's recursion terminates on every valid chain |
| Chain.DeallocMatchesOwned | filesys/filehdr.cc:122 | Deallocate clears exactly the sectors the chain owns, in Allocate's order, iff no header of the chain has exactly NumDirect sectors |
| Chain.ChainFrame | filesys/filehdr.cc:60 | writing a header image to a sector outside a valid chain leaves the chain, its sectors and its file layout unchanged |
| Chain.ChainCons | filesys/filehdr.cc:59-60 | linking a valid child chain behind NumDirect-1 direct sectors through an unused sector gives a valid chain that owns the direct sectors, the child's, then the link |
| Chain.FileSectorAtShift | filesys/filehdr.cc:182 | a byte past an indirect header's direct slots lies in its child, DirectBytes further back |
| AllocateProps.AllocateOutcome | filesys/filehdr.cc:44-50 | Allocate succeeds iff fileSize <= MaxFileSize and divRoundUp(fileSize) <= NumClear; over the ceiling nothing changes; short of space only numBytes and numSectors have been set |
| AllocateProps.AllocateClaims | filesys/filehdr.cc:52-66 | when the whole chain fits (TotalSectors(fileSize) <= NumClear) Allocate succeeds, and the header heads a valid chain of length fileSize whose sectors are exactly the first TotalSectors(fileSize) sectors Find hands out, in claim order; the map is left as those Finds leave it, and the disk changes only at claimed sectors |
| AllocateProps.AllocateIndirectStep | filesys/filehdr.cc:52-60 | in the indirect case the child allocation succeeds and the result is the direct run, then the link sector found after the child's sectors, with the child's image written there |
| AllocateProps.AllocateExclusive | filesys/filehdr.cc:52-66 | when the whole chain fits (TotalSectors(fileSize) <= NumClear), the chain's sectors are pairwise distinct, were clear and are now set, are the only bits set, and NumClear drops by exactly their number |
| AllocateProps.AllocateLosesHeaderSector | filesys/filehdr.cc:49-60 | with exactly NumDirect sectors free, a file one byte past the direct slots is "allocated" with -1 as its link sector and its child written to sector -1; Allocate returns TRUE because the modelled disk accepts a write to any sector number, which synchdisk.cc (not part of this model) may not |
| AllocateProps.AllocateCorrected | filesys/filehdr.cc:42-68 | Allocate with a space check that counts the header sectors too; it keeps the map's length |
| AllocateProps.AllocateCorrectedSound | filesys/filehdr.cc:42-68 | the corrected Allocate succeeds iff the whole chain fits; on success the chain is valid with distinct, formerly free, now marked sectors; on failure the map and disk are untouched |
| ExtendProps.ExtendOutcome | filesys/filehdr.cc:77-83 | Extend succeeds iff divRoundUp(fileSize) <= MaxFileSize and <= NumClear; on failure nothing changes; on success numBytes and numSectors take the new values |
| ExtendProps.ExtendDirectClaims | filesys/filehdr.cc:102-106 | staying direct, Extend fills exactly slots numSectors..newNumSectors-1 with distinct, formerly free sectors now set, keeps every other slot and bit, and leaves the disk alone |
| ExtendProps.ExtendIndirectKeepsSlot | filesys/filehdr.cc:93-100 | on an indirect header Extend keeps the whole table, link slot included, extends the child by the remainder and writes it back to the same sector |
| ExtendProps.ExtendBreaksChain | filesys/filehdr.cc:79-91 | a direct header grown past the direct slots by more than MaxFileSize bytes, with its sector count within MaxFileSize, gets an empty child, and Extend still reports success with a chain that is no longer valid |
| ExtendProps.ExtendCorrected | filesys/filehdr.cc:75-110 | Extend with a byte ceiling, no shrinking, and a space check over every sector the longer chain adds, in the source's three branches; it keeps the table and map lengths |
| ExtendProps.Added | filesys/filehdr.cc:82 | the number of sectors that growing a file from one length to another adds, header sectors included |
| ExtendProps.TotalSectorsMonotone | filesys/filehdr.cc:82 | a longer file never needs fewer sectors |
| ExtendProps.ExtendCorrectedOutcome | filesys/filehdr.cc:77-83 | the corrected Extend succeeds iff the new length is within MaxFileSize and the map has a sector for everything added; on failure nothing changes |
| ExtendProps.ExtendCorrectedGrows | filesys/filehdr.cc:84-108 | growing a valid chain with distinct, marked sectors gives a valid chain whose sectors are the old ones plus the next Added(old, new) sectors Find hands out, and leaves the map as those Finds do |
| ExtendProps.ValidIsExtendable | filesys/filehdr.cc:93-97 | on every valid chain Extend's walk down the links finds each header it fetches, whatever the new length |
| ExtendProps.ExtendMatchesCorrected | filesys/filehdr.cc:75-110 | on a valid chain grown within MaxFileSize bytes, with room for every added sector and for the new data-sector count, Extend as written computes exactly the corrected Extend |
| ExtendProps.ExtendGrows | filesys/filehdr.cc:75-110 | under the same conditions Extend as written succeeds and turns a valid chain of distinct, in-use sectors into a valid chain of the new length and count, owning the old sectors plus the next Added(old, new) sectors Find hands out, still distinct and in use, with the map as those Finds leave it |
| ExtendProps.AllocateThenExtend | filesys/filehdr.cc:42-110 | Allocate(small) then Extend(large) gives the same sector count, the same sectors as a multiset and the same free map as Allocate(large), when the large chain fits and, after the small one, the large data-sector count does too |
| ExtendProps.ExtendLosesHeaderSector | filesys/filehdr.cc:82-91 | with exactly NumDirect sectors free, an empty header extended one byte past the direct slots passes line 82's check; Extend reports success with -1 as its link sector and its child written to sector -1 |
| DeallocateProps.DeallocWithinOwned | filesys/filehdr.cc:120-137 | everything Deallocate clears belongs to the chain |
| DeallocateProps.DeallocDistinct | filesys/filehdr.cc:124-134 | on a chain with distinct sectors Deallocate never clears a sector twice, so no ASSERT sees an already freed sector |
| DeallocateProps.LeakedSectorMissed | filesys/filehdr.cc:122 | when some header has exactly NumDirect sectors, the child data sector behind it belongs to the chain and is never cleared |
| DeallocateProps.DeallocateAfterAllocateSafe | filesys/filehdr.cc:124-134 | on any chain Allocate builds when the whole chain fits (TotalSectors(fileSize) <= NumClear), Deallocate's ASSERTs hold: the sectors it walks are distinct and in use |
| DeallocateProps.AllocateThenDeallocate | filesys/filehdr.cc:122 | when the whole chain fits (TotalSectors(fileSize) <= NumClear), Allocate then Deallocate restores the free map iff no header of the chain has exactly NumDirect sectors |
| DeallocateProps.BoundaryFileLeaks | filesys/filehdr.cc:122 | a file of (NumDirect-1)*SectorSize+1 bytes has NumDirect sectors, and Allocate then Deallocate does not restore the map |
| DeallocateProps.AllocateThenDeallocateCorrected | filesys/filehdr.cc:120-137 | clearing every owned sector after the corrected Allocate always restores the map |
| DeallocateProps.DeallocateConserves | filesys/filehdr.cc:120-137 | on a valid chain of distinct, in-use sectors Deallocate raises NumClear by exactly the number of sectors it clears, and that number is the chain's whole sector count when no header has NumDirect sectors |
| TranslateProps.ByteToSectorWalk | filesys/filehdr.cc:178-182 | ByteToSector always ends in the last header of the chain, at the C quotient of the offset measured from that header's start |
| TranslateProps.ByteToSectorMisses | filesys/filehdr.cc:178-182 | a byte before the last header is never looked up where it lies: within one sector it reads slot 0 of the last header, further back the table index is negative |
| TranslateProps.FirstByteOfChainMisses | filesys/filehdr.cc:179-182 | byte 0 of any file longer than the direct slots gets a negative table index |

## Left out

- `FileHeader::Print` (filesys/filehdr.cc:203-243): debugging output only.
- The byte layout of a header on disk and the in-memory `indirect` pointer. The disk maps each sector to a header value, and a child header is a fresh `FileHeader` read from the link sector.
- Data sectors' contents: the disk holds header images only.
- Constants: filehdr.h is not part of this model, so `SectorSize`, `NumDirect` and `MaxFileSize` are abstract.
- BitMap: bitmap.cc is not part of this model. `Find` is taken to return the lowest clear bit, which makes the sector runs deterministic.
- SynchDisk: synchdisk.cc is not part of this model. Disk access is synchronous and without failures, and only what is read and written is modelled. SynchDisks.SynchDisk.WriteSector accepts any sector number, -1 included, so the model does not capture whatever nachos' disk does with an out-of-range sector; the "returns TRUE" of AllocateLosesHeaderSector and ExtendLosesHeaderSector rests on that.
- `divRoundUp`: utility.h is not part of this model. It is modelled as `n / SectorSize` plus one when there is a remainder.
- Concurrency: none; every operation runs alone.
- Integer width: 32-bit overflow of sizes and sector numbers is not modelled. Sizes are `nat`, so negative sizes are not modelled either.
- FileHeaders.FileHeader.constructor: `new FileHeader` leaves the fields uninitialised in C++; the model starts the header zeroed.
- FileHeaders.FileHeader.Allocate: `fileSize` is a `nat`, so negative sizes are excluded.
- FileHeaders.FileHeader.Extend: requires `Extendable`. This means the slot indices it writes are within the table and every header it fetches exists on disk; the source reads garbage otherwise.
- FileHeaders.FileHeader.Deallocate: requires that the sectors it walks be distinct and in use, which is what its ASSERTs demand. It also requires that the headers it fetches exist on disk. Otherwise the C++ aborts or reads garbage.
- FileHeaders.FileHeader.ByteToSector: requires a valid chain and `TailStart - SectorSize < offset < numBytes`. Smaller offsets index below `dataSectors` (undefined behaviour in C++), and `ByteToSectorMisses` states what they compute. Offsets past the end are not checked by the source.
- BitMaps.BitMap.Test and BitMaps.BitMap.Clear: require an in-range sector; bitmap.cc ASSERTs this.

## Findings

| source | as written | input that shows it | evidently intended | confidence | as-written member | corrected member |
|---|---|---|---|---|---|---|
| filesys/filehdr.cc:122 | Deallocate takes the last slot as a data sector while `numSectors <= NumDirect` | a file of (NumDirect-1)*SectorSize+1 bytes: its header has NumDirect sectors, so Deallocate frees the child header's sector as data and never frees the child's data sector | `numSectors <= NumDirect-1`, the threshold of lines 52 and 178 | high; not executed | DeallocateProps.BoundaryFileLeaks | FileHeaders.FileHeader.DeallocateCorrected |
| filesys/filehdr.cc:49 | the space check counts data sectors only | a file of (NumDirect-1)*SectorSize+1 bytes with exactly NumDirect free sectors: the last Find returns -1, Allocate stores it as the link and returns TRUE | count the header sectors of the chain as well | high; not executed | AllocateProps.AllocateLosesHeaderSector | AllocateProps.AllocateCorrectedSound |
| filesys/filehdr.cc:79 | Extend compares a sector count with a byte ceiling and ignores the child Allocate's result (line 89) | a direct header extended to a length whose remainder past the direct slots exceeds MaxFileSize while its sector count does not: the child is refused and stays empty, and Extend returns TRUE | compare bytes with MaxFileSize and only link a child that was allocated; ExtendCorrected also replaces line 82's check (next row) | medium; not executed | ExtendProps.ExtendBreaksChain | ExtendProps.ExtendCorrectedGrows |
| filesys/filehdr.cc:82 | Extend's space check compares NumClear with the whole new data-sector count and counts no header sectors | an empty header extended to (NumDirect-1)*SectorSize+1 bytes with exactly NumDirect free sectors: the child takes the last free sector, Find's -1 becomes the link, and Extend returns TRUE; conversely a one-sector extension of a long file is refused unless its whole data-sector count is free | require a free sector for every sector the growth adds, header sectors included, as ExtendCorrected does | high; not executed | ExtendProps.ExtendLosesHeaderSector | ExtendProps.ExtendCorrectedOutcome |
| filesys/filehdr.cc:178 | an indirect header passes every offset to its child, even one in its own direct slots | offset 0 of a file longer than (NumDirect-1)*SectorSize: the last header is indexed at a negative slot | look up offsets below (NumDirect-1)*SectorSize in this header's table | high; not executed | TranslateProps.FirstByteOfChainMisses | FileHeaders.FileHeader.ByteToSectorCorrected |
