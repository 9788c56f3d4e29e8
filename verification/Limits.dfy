/** The hard limits of internal/util/limits.go. */
module Limits {
  import opened Wrappers

  const MAX_INT: nat := 0x7FFF_FFFF_FFFF_FFFF   // the largest Go int: no slice is longer
  const MAX_COLUMNS: nat := 4096
  const MAX_SEGMENT_ROWS: nat := 0x100_0000
  const MAX_SEGMENTS: nat := 0x10_0000
  const MAX_DICT_ENTRIES: nat := 0x100_0000
  const MAX_CHUNK_STORED: nat := 0x4000_0000
  const MAX_CHUNK_UNCOMPRESSED: nat := 0x1_0000_0000
  const MAX_DECOMPRESS_RATIO: nat := 256
  const MAX_FOOTER_SIZE: nat := 0x1000_0000
  const MAX_BYTES_VALUE: nat := 0x100_0000
  const MAX_STRING_TABLE_BYTES: nat := 0x4000_0000
  const MAX_NAME: nat := 4096

  /** CheckCount: a file-declared count must not exceed its limit. */
  function CheckCount(n: nat, max: nat): Outcome {
    if n > max then Fail(LimitExceeded) else Pass
  }

  /** CheckDecompress: the declared size against the ceiling and the ratio. */
  function CheckDecompress(storedLen: nat, uncompressedLen: nat): Outcome {
    if uncompressedLen > MAX_CHUNK_UNCOMPRESSED then Fail(LimitExceeded)
    else if storedLen > 0 && uncompressedLen / storedLen > MAX_DECOMPRESS_RATIO then Fail(LimitExceeded)
    else Pass
  }

  /** At most 4 GiB, and less than 257 times what is stored, if anything is. */
  predicate SizesPass(storedLen: nat, uncompressedLen: nat) {
    uncompressedLen <= 0x1_0000_0000 && (storedLen > 0 ==> uncompressedLen < 257 * storedLen)
  }

  /** The check is exact: it divides, and passes the same sizes. */
  lemma DecompressPasses(storedLen: nat, uncompressedLen: nat)
    ensures CheckDecompress(storedLen, uncompressedLen).Pass? <==> SizesPass(storedLen, uncompressedLen)
  {
    if storedLen > 0 {
      var q := uncompressedLen / storedLen;
      assert uncompressedLen == storedLen * q + uncompressedLen % storedLen;
      if q <= 256 {
        assert storedLen * q <= storedLen * 256;
      } else {
        assert storedLen * q >= storedLen * 257;
      }
    }
  }
}
