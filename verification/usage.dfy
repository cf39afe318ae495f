/** The accounting record of rat/include/rat/ralc.h that every allocator fills in. */
module Usage {
  datatype Usage = Usage(blockCount: nat, blockSize: nat, holeCount: nat, holeSize: nat, systemSize: nat) {
    /** All bytes the record accounts for. */
    function Total(): nat {
      blockSize + holeSize + systemSize
    }
  }
}
