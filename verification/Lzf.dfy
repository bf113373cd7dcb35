// The two halves of LZF together, as quicklist nodes use them.
module Lzf {
  import opened Bytes
  import opened LzfFormat
  import C = LzfCompress
  import S = LzfSize
  import D = LzfDecompress

  /** Compress, then decompress into a buffer of the original length. */
  method RoundTrip(input: bytes, size: nat, stack: seq<S.u32>) returns (n: nat, m: nat, back: array<u8>)
    requires S.Compressible(input, stack)
    ensures n <= size
    ensures n > 0 ==> m == |input| && back[..] == input
    ensures |input| > 0 && 32 * size >= 33 * |input| + 128 ==> n > 0
  {
    var packed := new u8[size];
    n := C.Compress(input, packed, stack);
    back := new u8[|input|];
    m := 0;
    if n > 0 {
      var errno;
      m, errno := D.Decompress(packed[..n], back);
      assert back[..] == back[..m];
    }
  }
}
