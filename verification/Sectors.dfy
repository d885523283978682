/** Disk sectors, and the part of a byte range that one sector serves. */
module Sectors {
  import opened Numbers

  const SECTOR: nat := 512

  type Sector = s: seq<Byte> | |s| == SECTOR witness seq(SECTOR, _ => 0)

  function SectorOf(x: nat): nat {
    x / SECTOR
  }

  function Offset(x: nat): (r: nat)
    ensures r < SECTOR
  {
    x % SECTOR
  }

  /** What the sector of position `x` can serve of a request for `want` bytes. */
  function Take(x: nat, want: nat): (r: nat)
    ensures want > 0 ==> r > 0
    ensures r <= want && Offset(x) + r <= SECTOR
  {
    if SECTOR - Offset(x) > want then want else SECTOR - Offset(x)
  }
}
