/** Byte strings as the original handles them: Python 2 `str` values used as
    raw bytes, Python's negative-stop slice, and the little-endian unsigned
    integers that `struct` reads on Windows. */
module Bytes {

  type byte = b: int | 0 <= b < 256

  type Bytes = seq<byte>

  /** Python's `s[:-k]`. For k > 0 the stop index is |s| - k, clamped at 0, so
      the slice is everything but the last k bytes (nothing once k >= |s|).
      For k == 0 the stop index is 0 and the slice is empty. */
  function DropLast(s: Bytes, k: nat): (r: Bytes)
    ensures r <= s
    ensures |r| == if k == 0 || k >= |s| then 0 else |s| - k
  {
    if k == 0 || k >= |s| then [] else s[..|s| - k]
  }

  /** 256 to the power k: one more than the largest k-byte unsigned value. */
  function Pow256(k: nat): (p: nat)
    ensures p >= 1
  {
    if k == 0 then 1 else 256 * Pow256(k - 1)
  }

  /** The unsigned integer stored little-endian in bs (least significant byte first). */
  function FromLE(bs: Bytes): (n: nat)
    ensures n < Pow256(|bs|)
  {
    if bs == [] then 0 else bs[0] + 256 * FromLE(bs[1..])
  }

  /** The width-byte little-endian encoding of n, keeping the low width bytes. */
  function ToLE(n: nat, width: nat): (bs: Bytes)
    ensures |bs| == width
  {
    if width == 0 then [] else [n % 256] + ToLE(n / 256, width - 1)
  }

  /** Encoding a value that fits, then decoding it, gives the value back. */
  lemma {:induction false} FromToLE(n: nat, width: nat)
    requires n < Pow256(width)
    ensures FromLE(ToLE(n, width)) == n
  {
    if width > 0 {
      var bs := ToLE(n, width);
      assert bs[1..] == ToLE(n / 256, width - 1);
      assert n / 256 < Pow256(width - 1);
      FromToLE(n / 256, width - 1);
    }
  }

  /** Decoding a byte string, then encoding the value at the same width, gives the bytes back. */
  lemma {:induction false} ToFromLE(bs: Bytes)
    ensures ToLE(FromLE(bs), |bs|) == bs
  {
    if bs != [] {
      var n := FromLE(bs);
      var rest := FromLE(bs[1..]);
      assert n == bs[0] + 256 * rest;
      assert n % 256 == bs[0];
      assert n / 256 == rest;
      ToFromLE(bs[1..]);
      assert ToLE(n, |bs|) == [bs[0]] + bs[1..];
    }
  }

  /** A 4-byte unsigned long holds exactly the values below 2^32. */
  lemma Pow256Of4()
    ensures Pow256(4) == 0x1_0000_0000
  {
  }
}
