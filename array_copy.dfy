/** The array copy underneath every bulk read and write of the streams
    (`System.arraycopy`, `ByteBuffer.get` and `ByteBuffer.put`). */
module ArrayCopy {
  import opened JavaInt

  /** Copies `chunk` into `dst` from index `at` on. The bytes are taken out of their
      source before the copy, as `System.arraycopy` does, so the source may be `dst`
      itself. */
  method Put(chunk: seq<byte>, dst: array<byte>, at: nat)
    requires at + |chunk| <= dst.Length
    modifies dst
    ensures dst[..] == old(dst[..])[..at] + chunk + old(dst[..])[at + |chunk|..]
  {
    ghost var before := dst[..];
    forall k | at <= k < at + |chunk| {
      dst[k] := chunk[k - at];
    }
    assert dst[..] == before[..at] + chunk + before[at + |chunk|..];
  }
}
