/** Raw-reading assembly, unit conversion and the calibration payloads. */
module Conversion {
  import opened Bytes
  import opened Registers

  lemma Pow256Values()
    ensures Pow256(2) == 0x1_0000 && Pow256(3) == 0x100_0000 && Pow256(4) == 0x1_0000_0000
  {
    assert Pow256(1) == 256;
  }

  lemma TwoBytes(d: seq<byte>)
    requires |d| == 2
    ensures FromBigEndian(d) == d[0] as int * 256 + d[1] as int
  {
    assert d[..1][..0] == [];
  }

  lemma ThreeBytes(d: seq<byte>)
    requires |d| == 3
    ensures FromBigEndian(d) == d[0] as int * 0x1_0000 + d[1] as int * 256 + d[2] as int
  {
    TwoBytes(d[..2]);
    assert d[..2] == d[..|d| - 1];
  }

  /**
   * Raw temperature from OUT_T_MSB, OUT_T_LSB: the big-endian 16-bit value
   * reinterpreted as `int16_t`.
   */
  function TemperatureRaw(d: seq<byte>): (raw: int)
    requires |d| == 2
    ensures -0x8000 <= raw < 0x8000
    ensures raw < 0 <==> d[0] as int >= 128
    ensures var u := raw + (if raw < 0 then 0x1_0000 else 0);
      u == d[0] as int * 256 + d[1] as int && ToBigEndian(u, 2) == d
  {
    var u := FromBigEndian(d);
    TwoBytes(d);
    Pow256Values();
    ToFromBigEndian(d);
    var hi := d[0] as int;
    assert 0 <= d[1] as int < 256;
    assert u >= 0x8000 <==> hi >= 128;
    if u >= 0x8000 then u - 0x1_0000 else u
  }

  /** Raw pressure from OUT_P_MSB, OUT_P_CSB, OUT_P_LSB: a big-endian unsigned 24-bit value. */
  function PressureRaw(d: seq<byte>): (raw: nat)
    requires |d| == 3
    ensures raw == d[0] as int * 0x1_0000 + d[1] as int * 256 + d[2] as int
    ensures raw < 0x100_0000
    ensures ToBigEndian(raw, 3) == d
  {
    ThreeBytes(d);
    Pow256Values();
    ToFromBigEndian(d);
    FromBigEndian(d)
  }

  /**
   * Raw altitude from OUT_P_MSB, OUT_P_CSB, OUT_P_LSB: the three bytes as the
   * top of a `uint32_t` whose low byte is zero, i.e. the 24-bit value shifted left by 8.
   */
  function AltitudeRaw(d: seq<byte>): (raw: nat)
    requires |d| == 3
    ensures raw == PressureRaw(d) * 256
    ensures raw < 0x1_0000_0000 && raw % 256 == 0
    ensures ToBigEndian(raw, 4) == d + [0]
  {
    var e := d + [0];
    assert e[..|e| - 1] == d;
    assert e[|e| - 1] as int == 0;
    var p := PressureRaw(d);
    assert FromBigEndian(e) == p * 256;
    ToFromBigEndian(e);
    p * 256
  }

  /** Degrees Celsius: 1/256 degree per count. */
  function Celsius(d: seq<byte>): (c: real)
    requires |d| == 2
    ensures c * 256.0 == TemperatureRaw(d) as real
    ensures -128.0 <= c < 128.0
  {
    TemperatureRaw(d) as real / 256.0
  }

  /** Pascals: 1/64 Pa per count. */
  function Pascals(d: seq<byte>): (p: real)
    requires |d| == 3
    ensures p * 64.0 == PressureRaw(d) as real
    ensures 0.0 <= p < 262144.0
  {
    PressureRaw(d) as real / 64.0
  }

  /** Meters: 1/65536 m per count. */
  function Meters(d: seq<byte>): (m: real)
    requires |d| == 3
    ensures m * 65536.0 == AltitudeRaw(d) as real
    ensures 0.0 <= m < 65536.0
  {
    AltitudeRaw(d) as real / 65536.0
  }

  /** 25600 counts are 100 degrees, 6400 counts 100 Pa, 50 * 65536 counts 50 m. */
  lemma ConversionExamples()
    ensures Celsius([0x64, 0x00]) == 100.0
    ensures Pascals([0x00, 0x19, 0x00]) == 100.0
    ensures Meters([0x00, 0x32, 0x00]) == 50.0
  {
  }

  /**
   * The sea-level pressures set_sea_pressure can convert: the conversion of `pascals / 2`
   * to `uint16_t` is defined when its truncation toward zero lies in 0 .. 65535.
   */
  predicate SeaPressureInRange(pascals: real)
  {
    -2.0 < pascals < 131072.0
  }

  /** `pascals / 2` converted to an integer as C++ does: truncated toward zero. */
  function HalfTruncated(pascals: real): (bar: int)
    ensures pascals >= 0.0 ==> 0 <= bar && 2.0 * bar as real <= pascals < 2.0 * bar as real + 2.0
    ensures pascals < 0.0 ==> bar <= 0 && 2.0 * bar as real - 2.0 < pascals <= 2.0 * bar as real
  {
    if pascals < 0.0 then -((-pascals / 2.0).Floor) else (pascals / 2.0).Floor
  }

  /**
   * set_sea_pressure's write: BAR_IN_MSB, then the count of 2 Pa units, truncated
   * toward zero, as MSB and LSB.
   */
  function SeaPressurePayload(regs: RegisterMap, pascals: real): (payload: seq<byte>)
    requires SeaPressureInRange(pascals)
    ensures |payload| == 3 && payload[0] == regs.barInMsb
    ensures var bar := FromBigEndian(payload[1..]);
      (pascals >= 0.0 ==> 2.0 * bar as real <= pascals < 2.0 * bar as real + 2.0) &&
      (pascals < 0.0 ==> bar == 0)
  {
    var bar := HalfTruncated(pascals);
    assert 0 <= bar < 0x1_0000;
    Pow256Values();
    FromToBigEndian(bar, 2);
    var payload := [regs.barInMsb] + ToBigEndian(bar, 2);
    assert payload[1..] == ToBigEndian(bar, 2);
    payload
  }

  /** The startup default 101326 Pa is 50663 = 0xC5E7 two-pascal units. */
  lemma SeaPressureDefault(regs: RegisterMap)
    ensures SeaPressurePayload(regs, 101326.0) == [regs.barInMsb, 0xC5, 0xE7]
  {
    assert HalfTruncated(101326.0) == 50663;
    assert ToBigEndian(197, 1) == [0xC5];
    assert ToBigEndian(50663, 2) == [0xC5, 0xE7];
  }

  /** set_altitude_offset's write: OFF_H, then the offset as a two's-complement byte. */
  function OffsetPayload(regs: RegisterMap, offset: int8): (payload: seq<byte>)
    ensures |payload| == 2 && payload[0] == regs.offH
    ensures AsInt8(payload[1]) == offset
  {
    Int8RoundTrip(offset);
    [regs.offH, FromInt8(offset)]
  }
}
