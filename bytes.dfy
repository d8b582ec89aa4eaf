/** Fixed-width unsigned integers and their little-endian byte serialisation. */
module Bytes {
  type byte = b: int | 0 <= b < 0x100
  type u32 = x: int | 0 <= x < 0x1_0000_0000
  type u64 = x: int | 0 <= x < 0x1_0000_0000_0000_0000

  /** 256 raised to the n, the number of values n bytes can hold. */
  function Pow256(n: nat): (r: nat)
    ensures r > 0
  {
    if n == 0 then 1 else 0x100 * Pow256(n - 1)
  }

  lemma Pow256Widths()
    ensures Pow256(4) == 0x1_0000_0000
    ensures Pow256(8) == 0x1_0000_0000_0000_0000
  {
    // Dafny unfolds Pow256 on these literals by itself.
  }

  /** The n low-order bytes of x, least significant first. */
  function ToLE(x: nat, n: nat): (r: seq<byte>)
    ensures |r| == n
  {
    if n == 0 then [] else [x % 0x100] + ToLE(x / 0x100, n - 1)
  }

  /** The number whose little-endian bytes are s. */
  function FromLE(s: seq<byte>): (r: nat)
    ensures r < Pow256(|s|)
  {
    if |s| == 0 then 0 else s[0] + 0x100 * FromLE(s[1..])
  }

  /** Reading back what was written gives the value, for every value that fits in n bytes. */
  lemma {:induction false} FromLEToLE(x: nat, n: nat)
    requires x < Pow256(n)
    ensures FromLE(ToLE(x, n)) == x
  {
    if n > 0 {
      FromLEToLE(x / 0x100, n - 1);
    }
  }

  /** Writing what was read gives the bytes back. */
  lemma {:induction false} ToLEFromLE(s: seq<byte>)
    ensures ToLE(FromLE(s), |s|) == s
  {
    if |s| > 0 {
      ToLEFromLE(s[1..]);
      var x := FromLE(s);
      assert x % 0x100 == s[0];
      assert x / 0x100 == FromLE(s[1..]);
    }
  }

  /** n zero bytes. */
  function Zeros(n: nat): (r: seq<byte>)
    ensures |r| == n && forall i :: 0 <= i < n ==> r[i] == 0
  {
    seq(n, _ => 0)
  }
}
