/** Bytes, signed bytes and big-endian assembly of register bytes. */
module Bytes {

  /** One register byte as it travels over the bus. */
  type byte = bv8

  /** The C++ `int8_t` taken by the altitude-offset setter. */
  newtype int8 = x: int | -128 <= x < 128

  function Pow256(k: nat): (r: nat)
    ensures r >= 1
  {
    if k == 0 then 1 else 256 * Pow256(k - 1)
  }

  /** The unsigned value of `bs` read most significant byte first. */
  function FromBigEndian(bs: seq<byte>): (n: nat)
    ensures n < Pow256(|bs|)
  {
    if bs == [] then 0
    else
      var init := bs[..|bs| - 1];
      var m := FromBigEndian(init);
      assert m * 256 + 256 <= Pow256(|init|) * 256;
      m * 256 + bs[|bs| - 1] as int
  }

  /** The `k` bytes of `n`, most significant first. */
  function ToBigEndian(n: nat, k: nat): (bs: seq<byte>)
    requires n < Pow256(k)
    ensures |bs| == k
  {
    if k == 0 then []
    else ToBigEndian(n / 256, k - 1) + [(n % 256) as bv8]
  }

  lemma LowByte(x: int)
    requires 0 <= x < 256
    ensures (x as bv8) as int == x
  {
    if x < 128 {
      assert (x as bv8) as int < 128;
    }
  }

  /** Splitting a value into bytes and assembling them again gives the value back. */
  lemma {:induction false} FromToBigEndian(n: nat, k: nat)
    requires n < Pow256(k)
    ensures FromBigEndian(ToBigEndian(n, k)) == n
  {
    if k > 0 {
      var bs := ToBigEndian(n, k);
      FromToBigEndian(n / 256, k - 1);
      assert bs[..k - 1] == ToBigEndian(n / 256, k - 1);
      var low := n % 256;
      assert bs[k - 1] as int == low by { LowByte(low); }
      assert FromBigEndian(bs) == (n / 256) * 256 + low;
    }
  }

  /** Assembling bytes and splitting the value again gives the bytes back. */
  lemma {:induction false} ToFromBigEndian(bs: seq<byte>)
    ensures ToBigEndian(FromBigEndian(bs), |bs|) == bs
  {
    if bs != [] {
      var init := bs[..|bs| - 1];
      ToFromBigEndian(init);
      var n := FromBigEndian(bs);
      assert n / 256 == FromBigEndian(init);
      assert (n % 256) as bv8 == bs[|bs| - 1];
      assert bs == init + [bs[|bs| - 1]];
    }
  }

  /** Two's-complement reading of a byte, as a cast of `hal::byte` to `int8_t`. */
  function AsInt8(b: byte): (v: int8)
    ensures v as int == b as int || v as int == b as int - 256
    ensures v < 0 <==> b as int >= 128
  {
    var u := b as int;
    if u >= 128 then (u - 256) as int8 else u as int8
  }

  /** Two's-complement encoding of a signed byte, as `hal::byte(offset)`. */
  function FromInt8(v: int8): (b: byte)
    ensures v >= 0 ==> b as int == v as int
    ensures v < 0 ==> b as int == v as int + 256
  {
    LowByte((v as int + 256) % 256);
    ((v as int + 256) % 256) as bv8
  }

  lemma Int8RoundTrip(v: int8)
    ensures AsInt8(FromInt8(v)) == v
  {
  }

  lemma ByteRoundTrip(b: byte)
    ensures FromInt8(AsInt8(b)) == b
  {
  }
}
