/** Bytes, fixed-width integers and their little-endian two's-complement encoding,
    as the runtime lays out the fields of an explicitly laid-out struct. */
module Bytes {

  newtype byte = x: int | 0 <= x < 0x100
  newtype uint16 = x: int | 0 <= x < 0x1_0000
  newtype int32 = x: int | -0x8000_0000 <= x < 0x8000_0000
  newtype int64 = x: int | -0x8000_0000_0000_0000 <= x < 0x8000_0000_0000_0000

  /** 256^n: the number of values n bytes can hold. */
  function Pow256(n: nat): (r: nat)
    ensures r > 0
  {
    if n == 0 then 1 else 256 * Pow256(n - 1)
  }

  lemma Pow256Values()
    ensures Pow256(1) == 0x100 && Pow256(2) == 0x1_0000
    ensures Pow256(4) == 0x1_0000_0000 && Pow256(8) == 0x1_0000_0000_0000_0000
  {
  }

  /** The value of a little-endian byte sequence read as an unsigned number. */
  function DecodeLE(s: seq<byte>): (r: nat)
    ensures r < Pow256(|s|)
  {
    if |s| == 0 then 0 else s[0] as nat + 256 * DecodeLE(s[1..])
  }

  /** The n little-endian bytes of an unsigned value that fits in n bytes. */
  function EncodeLE(x: nat, n: nat): (r: seq<byte>)
    requires x < Pow256(n)
    ensures |r| == n && DecodeLE(r) == x
  {
    if n == 0 then [] else [(x % 256) as byte] + EncodeLE(x / 256, n - 1)
  }

  /** Encoding is also a left inverse of decoding: every byte sequence is the encoding of its value. */
  lemma {:induction false} EncodeDecodeLE(s: seq<byte>)
    ensures EncodeLE(DecodeLE(s), |s|) == s
  {
    if |s| > 0 {
      EncodeDecodeLE(s[1..]);
      assert DecodeLE(s) % 256 == s[0] as nat;
      assert DecodeLE(s) / 256 == DecodeLE(s[1..]);
      assert s == [s[0]] + s[1..];
    }
  }

  /** The two's-complement bit pattern, as an unsigned number, of a signed n-byte value. */
  function Unsigned(x: int, n: nat): (r: nat)
    requires n > 0 && -(Pow256(n) as int) / 2 <= x < Pow256(n) / 2
    ensures r < Pow256(n)
    ensures x >= 0 ==> r == x
    ensures x < 0 ==> r >= Pow256(n) / 2
  {
    if x < 0 then x + Pow256(n) else x
  }

  /** The signed n-byte value whose two's-complement bit pattern is u. */
  function Signed(u: nat, n: nat): (r: int)
    requires n > 0 && u < Pow256(n)
    ensures -(Pow256(n) as int) / 2 <= r < Pow256(n) / 2
    ensures r < 0 <==> u >= Pow256(n) / 2
  {
    if u >= Pow256(n) / 2 then u - Pow256(n) else u
  }

  lemma SignedUnsigned(x: int, n: nat)
    requires n > 0 && -(Pow256(n) as int) / 2 <= x < Pow256(n) / 2
    ensures Signed(Unsigned(x, n), n) == x
  {
  }

  lemma UnsignedSigned(u: nat, n: nat)
    requires n > 0 && u < Pow256(n)
    ensures Unsigned(Signed(u, n), n) == u
  {
  }
}
