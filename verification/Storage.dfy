/** Bytes, and the sectors that disks are made of. */
module Storage {
  type Byte = x: int | 0 <= x < 256
  type Sector = seq<Byte>

  const SECTOR_SIZE := 512
}
