/** The libraries NTCF calls and does not contain, as parameters: checksums,
    entropy codecs, Roaring serialisation, Bloom sizing in floating point, and
    dates and IP addresses in text. */
module Libraries {
  import opened Bits
  import opened Wrappers
  import opened Limits

  const NONE: byte := 0
  const ZSTD: byte := 1
  const LZ4: byte := 2

  datatype Platform = Platform(
    crc32c: bytes -> u32,
    xxh64: bytes -> u64,
    compress: (byte, bytes) -> bytes,                  // codec id, payload
    decompress: (byte, bytes, nat) -> Result<bytes>,   // codec id, stored, expected length
    marshal: set<nat> -> bytes,                        // Roaring MarshalBinary
    unmarshal: bytes -> Result<set<nat>>,              // Roaring UnmarshalBinary
    bloomSize: nat -> (nat, nat),                      // expected keys to words, probes
    parseTime: bytes -> Option<u64>,                   // the layouts of parseTimestamp, as nanoseconds
    parseIP: bytes -> Option<bytes>,                   // util.NormalizeIP
    showTime: u64 -> bytes,                            // RFC 3339 with nanoseconds
    showIP: bytes -> bytes                             // util.IPString
  )

  predicate KnownCodec(id: byte) {
    id == NONE || id == ZSTD || id == LZ4
  }

  /** codec.Decompress of the codec compress.Get returns. */
  function Decompressed(p: Platform, id: byte, stored: bytes, outLen: nat): Result<bytes> {
    if id == NONE then
      if |stored| != outLen then Err(Corrupt) else Ok(stored)
    else if KnownCodec(id) then p.decompress(id, stored, outLen)
    else Err(UnknownCompression)
  }

  /** What the libraries promise: their inverses are inverses. Roaring bitmaps
      hold row numbers, of which there are at most MAX_SEGMENT_ROWS. */
  ghost predicate Lossless(p: Platform) {
    && (forall id: byte, x: bytes :: KnownCodec(id) ==> p.decompress(id, p.compress(id, x), |x|) == Ok(x))
    && (forall s: set<nat> :: Rows(s) ==> p.unmarshal(p.marshal(s)) == Ok(s) && |p.marshal(s)| <= MAX_CHUNK_STORED)
    && (forall n: nat :: var (words, k) := p.bloomSize(n); 1 <= words && 1 <= k <= 32)
    && (forall n: nat :: n <= MAX_SEGMENT_ROWS ==> p.bloomSize(n).0 <= MAX_BLOOM_WORDS)
  }

  /** ReadBloom accepts at most this many words. */
  const MAX_BLOOM_WORDS: nat := 0x1000_0000

  predicate Rows(s: set<nat>) {
    forall i :: i in s ==> i < MAX_SEGMENT_ROWS
  }

  /** The codecs a chunk may name, and what an uncompressed one holds. */
  lemma CodecsAre(p: Platform, id: byte, stored: bytes, outLen: nat)
    ensures KnownCodec(id) <==> id <= 2
    ensures id > 2 ==> Decompressed(p, id, stored, outLen) == Err(UnknownCompression)
    ensures id == 0 ==>
              Decompressed(p, id, stored, outLen) == if |stored| == outLen then Ok(stored) else Err(Corrupt)
    ensures id in {1, 2} ==> Decompressed(p, id, stored, outLen) == p.decompress(id, stored, outLen)
  {
  }
}
