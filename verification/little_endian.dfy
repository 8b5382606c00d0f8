/**
 * Fixed-width unsigned integers and their little-endian byte forms, as
 * Rust's `to_le_bytes` and `from_le_bytes` produce and read them.
 */
module LittleEndian {

  type byte = x: int | 0 <= x < 0x100
  type u32 = x: int | 0 <= x < 0x1_0000_0000
  type u64 = x: int | 0 <= x < 0x1_0000_0000_0000_0000

  /** 256 to the power `n`: one more than the largest `n`-byte value. */
  function Pow256(n: nat): (r: nat)
    ensures r > 0
  {
    if n == 0 then 1 else 256 * Pow256(n - 1)
  }

  /** The `n` bytes of `x`, least significant first. */
  function ToLe(x: nat, n: nat): (r: seq<byte>)
    requires x < Pow256(n)
    ensures |r| == n
  {
    if n == 0 then []
    else
      assert x / 256 < Pow256(n - 1);
      [x % 256] + ToLe(x / 256, n - 1)
  }

  /** The number whose bytes, least significant first, are `b`. */
  function FromLe(b: seq<byte>): (r: nat)
    ensures r < Pow256(|b|)
  {
    if b == [] then 0 else b[0] + 256 * FromLe(b[1..])
  }

  /** Reading back the bytes of a number gives the number. */
  lemma {:induction false} FromToLe(x: nat, n: nat)
    requires x < Pow256(n)
    ensures FromLe(ToLe(x, n)) == x
    decreases n
  {
    if n > 0 {
      assert x / 256 < Pow256(n - 1);
      FromToLe(x / 256, n - 1);
      assert ToLe(x, n)[1..] == ToLe(x / 256, n - 1);
    }
  }

  /** Writing out the value of some bytes gives the bytes. */
  lemma {:induction false} ToFromLe(b: seq<byte>)
    ensures ToLe(FromLe(b), |b|) == b
    decreases |b|
  {
    if b != [] {
      ToFromLe(b[1..]);
      var x := FromLe(b);
      assert x % 256 == b[0] && x / 256 == FromLe(b[1..]);
    }
  }

  /** Equal byte forms of the same width come from equal numbers. */
  lemma ToLeInjective(x: nat, y: nat, n: nat)
    requires x < Pow256(n) && y < Pow256(n) && ToLe(x, n) == ToLe(y, n)
    ensures x == y
  {
    FromToLe(x, n);
    FromToLe(y, n);
  }

  /** `u64::to_le_bytes`. */
  function U64ToLe(x: u64): (r: seq<byte>)
    ensures |r| == 8 && FromLe(r) == x
  {
    assert Pow256(8) == 0x1_0000_0000_0000_0000;
    FromToLe(x, 8);
    ToLe(x, 8)
  }

  /** `u32::to_le_bytes`. */
  function U32ToLe(x: u32): (r: seq<byte>)
    ensures |r| == 4 && FromLe(r) == x
  {
    assert Pow256(4) == 0x1_0000_0000;
    FromToLe(x, 4);
    ToLe(x, 4)
  }

  /** `u64::from_le_bytes` on an eight-byte array. */
  function U64FromLe(b: seq<byte>): (r: u64)
    requires |b| == 8
    ensures U64ToLe(r) == b
  {
    assert Pow256(8) == 0x1_0000_0000_0000_0000;
    ToFromLe(b);
    FromLe(b)
  }

  /** `u32::from_le_bytes` on a four-byte array. */
  function U32FromLe(b: seq<byte>): (r: u32)
    requires |b| == 4
    ensures U32ToLe(r) == b
  {
    assert Pow256(4) == 0x1_0000_0000;
    ToFromLe(b);
    FromLe(b)
  }
}
