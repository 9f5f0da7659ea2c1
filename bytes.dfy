/**
  Bytes, big-endian unsigned integers and the opaque binary64 bit pattern
  that the frame header carries.
*/
module Bytes {

  newtype byte = x: int | 0 <= x < 256

  /** One more than the largest value of the unsigned 64-bit `Q` field of a `struct` format. */
  const TwoTo64: nat := 0x1_0000_0000_0000_0000

  /**
    An IEEE 754-2008 binary64 value (section 3.4) kept as its eight bytes in
    big-endian order. The store and the frame header only copy such values,
    so no arithmetic on them is modelled.
  */
  type Float64 = s: seq<byte> | |s| == 8 witness [0, 0, 0, 0, 0, 0, 0, 0]

  /** The bit pattern of +0.0: sign, exponent and fraction all zero. */
  const PositiveZero: Float64 := [0, 0, 0, 0, 0, 0, 0, 0]

  function Pow256(k: nat): (p: nat)
    ensures p > 0
  {
    if k == 0 then 1 else 256 * Pow256(k - 1)
  }

  lemma Pow256Of8()
    ensures Pow256(8) == TwoTo64
  {
    assert Pow256(4) == 0x1_0000_0000;
  }

  /** The `k`-byte big-endian encoding of `n`: most significant byte first. */
  function ToBigEndian(n: nat, k: nat): (s: seq<byte>)
    requires n < Pow256(k)
    ensures |s| == k
  {
    if k == 0 then [] else ToBigEndian(n / 256, k - 1) + [(n % 256) as byte]
  }

  /** The unsigned number a big-endian byte string denotes. */
  function FromBigEndian(s: seq<byte>): (n: nat)
    ensures n < Pow256(|s|)
  {
    if s == [] then 0 else FromBigEndian(s[..|s| - 1]) * 256 + s[|s| - 1] as nat
  }

  lemma {:induction false} FromToBigEndian(n: nat, k: nat)
    requires n < Pow256(k)
    ensures FromBigEndian(ToBigEndian(n, k)) == n
  {
    if k > 0 {
      var s := ToBigEndian(n, k);
      assert s[..k - 1] == ToBigEndian(n / 256, k - 1);
      FromToBigEndian(n / 256, k - 1);
    }
  }

  lemma {:induction false} ToFromBigEndian(s: seq<byte>)
    ensures ToBigEndian(FromBigEndian(s), |s|) == s
  {
    if s != [] {
      var init := s[..|s| - 1];
      ToFromBigEndian(init);
      var n := FromBigEndian(s);
      assert n / 256 == FromBigEndian(init);
      assert n % 256 == s[|s| - 1] as nat;
      assert s == init + [s[|s| - 1]];
    }
  }
}
