/** The synchronous disk, as the file header sees it: a store of header images
    by sector number, one sector read or written per call. The bytes of data
    sectors are not modelled. */
module SynchDisks {
  import opened Chain

  class SynchDisk {
    var headers: Disk

    constructor ()
      ensures headers == map[]
    {
      headers := map[];
    }

    /** Reads the header image stored in a sector. */
    method ReadSector(sector: int) returns (h: HeaderImage)
      requires sector in headers
      ensures h == headers[sector]
    {
      h := headers[sector];
    }

    /** Stores a header image in a sector; every other sector is unchanged. */
    method WriteSector(sector: int, h: HeaderImage)
      modifies this
      ensures headers == old(headers)[sector := h]
    {
      headers := headers[sector := h];
    }
  }
}
