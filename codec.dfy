/** The DEFLATE codec the archive code calls (`tdefl_compress_mem_to_heap`,
    `tinfl_decompress_mem_to_mem`, `wDecompressMemToMem`). It is foreign code, so
    the model takes it as a pair of function parameters; the only thing any proof
    assumes of it is the explicit round-trip predicate below. */
module Codec {
  import opened Bytes
  import opened Wrappers

  /** A compressor: the compressed bytes, or None where the C call returns NULL. */
  type Compressor = seq<u8> -> Option<seq<u8>>

  /** A decompressor: given the input and the size of the output buffer, the bytes
      it writes at the start of that buffer. */
  type Decompressor = (seq<u8>, nat) -> seq<u8>

  /** The output buffer after the decompressor ran: `cap` bytes, the written bytes
      first (cut at `cap`), the rest as the arena left it (zeroed). */
  function FillBuffer(written: seq<u8>, cap: nat): (r: seq<u8>)
    ensures |r| == cap
    ensures forall i :: 0 <= i < cap ==> r[i] == if i < |written| then written[i] else 0
  {
    if |written| >= cap then written[..cap] else written + Zeros(cap - |written|)
  }

  /** What the archive code needs of the codec: whatever was compressed successfully
      decompresses back to the original bytes when the output buffer has room. */
  ghost predicate RoundTrips(compress: Compressor, decompress: Decompressor) {
    forall x {:trigger compress(x)} :: compress(x).Some? ==>
      forall cap: nat {:trigger decompress(compress(x).value, cap)} ::
        cap >= |x| ==> decompress(compress(x).value, cap) == x
  }
}
