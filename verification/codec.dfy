/** The two LZ4 block primitives the decoder calls. They belong to a library
    this model does not contain, so they enter as function parameters
    constrained by the contracts below and nothing else. */
module BlockCodec {
  import opened Bytes

  /** What one codec call reports (`result`, a C `int`) and the bytes it
      writes at the destination. */
  datatype Decoded = Decoded(result: int, bytes: seq<byte>)

  /** `fast(src, originalSize)`: decode a block known to expand to exactly
      `originalSize` bytes; the result is the count of source bytes read,
      or negative on malformed input. */
  type FastCodec = (seq<byte>, int) -> Decoded

  /** `safe(src, compressedSize, capacity)`: decode at most `capacity`
      bytes; the result is the count of bytes written, or negative. */
  type SafeCodec = (seq<byte>, int, int) -> Decoded

  /** Room a C `int` length gives: nothing when it is negative. */
  function Room(n: int): (r: nat)
    ensures r <= n || n < 0
  {
    if n < 0 then 0 else n
  }

  predicate FastOk(d: Decoded, size: int) {
    IsInt32(d.result) && |d.bytes| <= Room(size)
    && (d.result >= 0 ==> |d.bytes| == size)
  }

  predicate SafeOk(d: Decoded, capacity: int) {
    IsInt32(d.result) && |d.bytes| <= Room(capacity)
    && (d.result >= 0 ==> d.result == |d.bytes|)
  }

  /** `src` and `src'` agree on their first `k` bytes, and both hold them. */
  predicate Agree(k: int, src: seq<byte>, src': seq<byte>) {
    0 <= k <= |src| && k <= |src'| && src[..k] == src'[..k]
  }

  /** On a source `src'` that starts with the `result` bytes the fast
      decoder read from `src`, it reports the same. */
  ghost predicate FastReads(fast: FastCodec, src: seq<byte>, src': seq<byte>, size: int) {
    Agree(fast(src, size).result, src, src') ==> fast(src', size) == fast(src, size)
  }

  /** On a source `src'` that starts with the same `compressedSize` bytes
      as `src` (none when it is negative), the safe decoder reports the same. */
  ghost predicate SafeReads(safe: SafeCodec, src: seq<byte>, src': seq<byte>, len: int, capacity: int) {
    Agree(Room(len), src, src') ==> safe(src', len, capacity) == safe(src, len, capacity)
  }

  /** The fast decoder never writes past `originalSize` bytes and, when it
      succeeds, writes exactly that many. Its report depends only on the
      source bytes it says it read. */
  ghost predicate FastContract(fast: FastCodec) {
    (forall src, size :: FastOk(fast(src, size), size))
    && (forall src, src', size {:trigger FastReads(fast, src, src', size)} :: FastReads(fast, src, src', size))
  }

  /** The safe decoder never writes past its capacity and, when it
      succeeds, reports how many bytes it wrote. It reads no source byte
      past `compressedSize`. */
  ghost predicate SafeContract(safe: SafeCodec) {
    (forall src, len, capacity :: SafeOk(safe(src, len, capacity), capacity))
    && (forall src, src', len, capacity {:trigger SafeReads(safe, src, src', len, capacity)} ::
          SafeReads(safe, src, src', len, capacity))
  }
}
