/** The fixed table of baud rates a Septentrio receiver accepts, and the
    machine integer types the driver stores rates and table indices in. */
module Baudrates {

  /** C++ `uint32_t`: the type of the table entries and of the requested rate. */
  newtype uint32 = x: int | 0 <= x < 0x1_0000_0000

  /** C++ `uint8_t`: the type of the index that walks the table. */
  newtype uint8 = x: int | 0 <= x < 0x100

  /** The 21 rates, in the order the stepping procedure visits them. */
  const Table: seq<uint32> := [
    1200, 2400, 4800, 9600, 19200, 38400, 57600,
    115200, 230400, 460800, 500000, 576000, 921600, 1000000,
    1152000, 1500000, 2000000, 2500000, 3000000, 3500000, 4000000]

  /** The largest entry, where stepping ends when the target is not in the table. */
  const Last: uint32 := 4000000

  ghost predicate StrictlyIncreasing(s: seq<uint32>)
  {
    forall i, j :: 0 <= i < j < |s| ==> s[i] < s[j]
  }

  /** The table has 21 entries, its last one is `Last`, it is strictly
      increasing (hence free of duplicates), and an 8-bit index can walk all
      of it without wrapping. */
  lemma TableWellFormed()
    ensures |Table| == 21 && Table[|Table| - 1] == Last
    ensures StrictlyIncreasing(Table)
    ensures forall i, j :: 0 <= i < |Table| && 0 <= j < |Table| && Table[i] == Table[j] ==> i == j
    ensures |Table| < 0x100
  {
  }
}
