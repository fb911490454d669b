/**
 * The uplink decoder of the payload formatter (device to network).
 *
 * An uplink frame carries four big-endian 16-bit registers:
 *
 *   offset 0-1  temperature  signed    tenths of a degree Celsius
 *   offset 2-3  humidity     unsigned  tenths of a percent
 *   offset 4-5  current      signed    hundredths of an ampere
 *   offset 6-7  pressure     unsigned  tenths of a hectopascal
 *
 * The decoder also derives the power drawn at a nominal 230 V. Values are kept
 * in these integer raw units; the functions at the end give the exact real
 * numbers the formatter reports (it divides by 10.0 and 100.0).
 */
module Uplink {
  import opened JsNumbers

  /** Nominal mains voltage used for the derived power. */
  const VOLTAGE: int := 230

  /** The decoded record; power is in hundredths of a watt. */
  datatype Measurements = Measurements(
    temperature: int,
    humidity: int,
    current: int,
    pressure: int,
    power: int)

  /**
   * The `data` part of the result: either the decoded record or the in-band
   * error marker `{ error: "..." }` that the formatter returns for short frames.
   */
  datatype UplinkData = Decoded(m: Measurements) | ErrorMarker(error: string)

  datatype UplinkResult = UplinkResult(data: UplinkData, warnings: seq<string>, errors: seq<string>)

  const MIN_PAYLOAD_LENGTH: nat := 8

  /** What the decoder returns for a frame shorter than eight bytes. */
  const TooShort: UplinkResult :=
    UplinkResult(ErrorMarker("Payload too short"), ["Expected at least 8 bytes"], [])

  /** The derived field is determined by the current. */
  predicate PowerConsistent(m: Measurements) {
    m.power == Abs(m.current) * VOLTAGE
  }

  /** `(bytes[i] << 8) | bytes[i + 1]` */
  function Register(bytes: seq<Byte>, i: nat): (r: int)
    requires i + 1 < |bytes|
    ensures r == (bytes[i] as int) * 256 + bytes[i + 1]
  {
    BigEndianWord(bytes[i], bytes[i + 1]);
    BitwiseOr(ShiftLeft(bytes[i], 8), bytes[i + 1])
  }

  /** `if (raw & 0x8000) { raw = raw - 0x10000; }` */
  function SignCorrected(raw: int): (r: int)
    requires 0 <= raw < 0x1_0000
    ensures raw < 0x8000 ==> r == raw
    ensures raw >= 0x8000 ==> r == raw - 0x1_0000
  {
    SignBit(raw);
    if BitwiseAnd(raw, 0x8000) != 0 then raw - 0x1_0000 else raw
  }

  /** decodeUplink */
  function DecodeUplink(bytes: seq<Byte>): (r: UplinkResult)
    ensures r == TooShort <==> |bytes| < MIN_PAYLOAD_LENGTH
    ensures r.data.Decoded? <==> |bytes| >= MIN_PAYLOAD_LENGTH
    ensures r.data.Decoded? ==> r.warnings == [] && r.errors == [] && PowerConsistent(r.data.m)
  {
    if |bytes| < MIN_PAYLOAD_LENGTH then
      TooShort
    else
      var tempRaw := SignCorrected(Register(bytes, 0));
      var humRaw := Register(bytes, 2);
      var currRaw := SignCorrected(Register(bytes, 4));
      var presRaw := Register(bytes, 6);
      UplinkResult(Decoded(Measurements(tempRaw, humRaw, currRaw, presRaw, Abs(currRaw) * VOLTAGE)), [], [])
  }

  // ---------------------------------------------------------------------------
  // Properties of the decoder
  // ---------------------------------------------------------------------------

  /** Two's-complement reading of a 16-bit word: the reference for the sign correction. */
  function Int16Of(w: int): int {
    if w >= 0x8000 then w - 0x1_0000 else w
  }

  predicate IsInt16(v: int) { -0x8000 <= v < 0x8000 }

  predicate IsUint16(v: int) { 0 <= v < 0x1_0000 }

  /** A short frame yields exactly the error marker and the warning, whatever its bytes. */
  lemma DecodeShortFrame(bytes: seq<Byte>)
    requires |bytes| < MIN_PAYLOAD_LENGTH
    ensures DecodeUplink(bytes).data == ErrorMarker("Payload too short")
    ensures DecodeUplink(bytes).warnings == ["Expected at least 8 bytes"]
    ensures DecodeUplink(bytes).errors == []
  {
  }

  /** Each field of a decoded frame is its register read by the field's sign convention. */
  lemma DecodeFields(bytes: seq<Byte>)
    requires |bytes| >= MIN_PAYLOAD_LENGTH
    ensures DecodeUplink(bytes).data.Decoded?
    ensures var m := DecodeUplink(bytes).data.m;
      && m.temperature == Int16Of((bytes[0] as int) * 256 + bytes[1])
      && m.humidity == (bytes[2] as int) * 256 + bytes[3]
      && m.current == Int16Of((bytes[4] as int) * 256 + bytes[5])
      && m.pressure == (bytes[6] as int) * 256 + bytes[7]
      && m.power == Abs(m.current) * VOLTAGE
      && IsInt16(m.temperature) && IsUint16(m.humidity)
      && IsInt16(m.current) && IsUint16(m.pressure)
  {
  }

  /** Bytes after the eighth are ignored. */
  lemma DecodeIgnoresTrailingBytes(bytes: seq<Byte>)
    requires |bytes| >= MIN_PAYLOAD_LENGTH
    ensures DecodeUplink(bytes) == DecodeUplink(bytes[..MIN_PAYLOAD_LENGTH])
  {
    DecodeFields(bytes);
    DecodeFields(bytes[..MIN_PAYLOAD_LENGTH]);
  }

  /** Sign extension at the edges of the range: 0x8000 is the least value, 0x7FFF the greatest. */
  lemma SignExtensionLimits(bytes: seq<Byte>)
    requires |bytes| >= MIN_PAYLOAD_LENGTH
    ensures bytes[0] == 0x80 && bytes[1] == 0x00 ==> DecodeUplink(bytes).data.m.temperature == -0x8000
    ensures bytes[0] == 0x7F && bytes[1] == 0xFF ==> DecodeUplink(bytes).data.m.temperature == 0x7FFF
    ensures bytes[4] == 0x80 && bytes[5] == 0x00 ==> DecodeUplink(bytes).data.m.current == -0x8000
    ensures bytes[4] == 0x7F && bytes[5] == 0xFF ==> DecodeUplink(bytes).data.m.current == 0x7FFF
  {
    DecodeFields(bytes);
  }

  // ---------------------------------------------------------------------------
  // The device-side encoding (the ESP32 firmware writes each register as
  // `payload[0] = (v >> 8) & 0xFF; payload[1] = v & 0xFF;`). On that target an
  // int16_t value is promoted to a 32-bit two's-complement int. Right-shifting
  // a negative value is implementation-defined before C++20; as GCC and C++20
  // define it, the shift is arithmetic, so the operators are the same int32
  // operators as in JavaScript.
  // ---------------------------------------------------------------------------

  function DeviceHighByte(v: int): (b: Byte)
    ensures b == (v / 256) % 256
  {
    HighByte(v);
    BitwiseAnd(SignedShiftRight(v, 8), 0xFF)
  }

  function DeviceLowByte(v: int): (b: Byte)
    ensures b == v % 256
  {
    LowByte(v);
    BitwiseAnd(v, 0xFF)
  }

  /** The eight-byte frame the device sends: each value modulo 2^16 as a big-endian word. */
  function DeviceFrame(temperature: int, humidity: int, current: int, pressure: int): (f: seq<Byte>)
    ensures |f| == MIN_PAYLOAD_LENGTH
    ensures (f[0] as int) * 256 + f[1] == temperature % 0x1_0000
    ensures (f[2] as int) * 256 + f[3] == humidity % 0x1_0000
    ensures (f[4] as int) * 256 + f[5] == current % 0x1_0000
    ensures (f[6] as int) * 256 + f[7] == pressure % 0x1_0000
  {
    DeviceBytesWord(temperature);
    DeviceBytesWord(humidity);
    DeviceBytesWord(current);
    DeviceBytesWord(pressure);
    [DeviceHighByte(temperature), DeviceLowByte(temperature),
     DeviceHighByte(humidity), DeviceLowByte(humidity),
     DeviceHighByte(current), DeviceLowByte(current),
     DeviceHighByte(pressure), DeviceLowByte(pressure)]
  }

  /** The two bytes the device writes for v, read back as a big-endian word, give v modulo 2^16. */
  lemma {:induction false} DeviceBytesWord(v: int)
    ensures (DeviceHighByte(v) as int) * 256 + DeviceLowByte(v) == v % 0x1_0000
  {
    DivModNested(v, 256, 256);
  }

  /** A signed register survives the device encoding and the decoder's sign correction. */
  lemma SignedRegisterRoundTrip(v: int)
    requires IsInt16(v)
    ensures Int16Of((DeviceHighByte(v) as int) * 256 + DeviceLowByte(v)) == v
  {
    DeviceBytesWord(v);
    if v < 0 {
      DivModUnique(v, 0x1_0000, -1, v + 0x1_0000);
    } else {
      DivModUnique(v, 0x1_0000, 0, v);
    }
  }

  /** An unsigned register survives the device encoding and the decoder. */
  lemma UnsignedRegisterRoundTrip(u: int)
    requires IsUint16(u)
    ensures (DeviceHighByte(u) as int) * 256 + DeviceLowByte(u) == u
  {
    DeviceBytesWord(u);
    DivModUnique(u, 0x1_0000, 0, u);
  }

  /** Decoding what the device sends gives back the device's values, with the derived power. */
  lemma DecodeDeviceFrame(temperature: int, humidity: int, current: int, pressure: int)
    requires IsInt16(temperature) && IsUint16(humidity) && IsInt16(current) && IsUint16(pressure)
    ensures DecodeUplink(DeviceFrame(temperature, humidity, current, pressure)) ==
      UplinkResult(Decoded(Measurements(temperature, humidity, current, pressure, Abs(current) * VOLTAGE)), [], [])
  {
    var f := DeviceFrame(temperature, humidity, current, pressure);
    DecodeFields(f);
    SignedRegisterRoundTrip(temperature);
    UnsignedRegisterRoundTrip(humidity);
    SignedRegisterRoundTrip(current);
    UnsignedRegisterRoundTrip(pressure);
  }

  /** Conversely, re-encoding the decoded values reproduces the first eight bytes of any frame. */
  lemma DeviceFrameOfDecoded(bytes: seq<Byte>)
    requires |bytes| >= MIN_PAYLOAD_LENGTH
    ensures var m := DecodeUplink(bytes).data.m;
      DeviceFrame(m.temperature, m.humidity, m.current, m.pressure) == bytes[..MIN_PAYLOAD_LENGTH]
  {
    var m := DecodeUplink(bytes).data.m;
    DecodeFields(bytes);
    ReencodeRegister(bytes[0], bytes[1], m.temperature);
    ReencodeRegister(bytes[2], bytes[3], m.humidity);
    ReencodeRegister(bytes[4], bytes[5], m.current);
    ReencodeRegister(bytes[6], bytes[7], m.pressure);
  }

  /** A register value congruent to hi * 256 + lo modulo 2^16 is encoded back as hi, lo. */
  lemma ReencodeRegister(hi: Byte, lo: Byte, v: int)
    requires v == (hi as int) * 256 + lo || v == (hi as int) * 256 + lo - 0x1_0000
    ensures DeviceHighByte(v) == hi && DeviceLowByte(v) == lo
  {
    if v == (hi as int) * 256 + lo {
      DivModUnique(v, 256, hi, lo);
    } else {
      DivModUnique(v, 256, hi - 256, lo);
      DivModAddMultiple(hi, 256, -1);
    }
    DivModUnique(hi, 256, 0, hi);
  }

  // ---------------------------------------------------------------------------
  // The reported engineering values
  // ---------------------------------------------------------------------------

  /** Tenths of a degree, divided by 10.0. */
  function TemperatureCelsius(m: Measurements): (c: real)
    ensures c * 10.0 == m.temperature as real
  {
    m.temperature as real / 10.0
  }

  /** Tenths of a percent, divided by 10.0. */
  function HumidityPercent(m: Measurements): (h: real)
    ensures h * 10.0 == m.humidity as real
  {
    m.humidity as real / 10.0
  }

  /** Hundredths of an ampere, divided by 100.0. */
  function CurrentAmperes(m: Measurements): (a: real)
    ensures a * 100.0 == m.current as real
  {
    m.current as real / 100.0
  }

  /** Tenths of a hectopascal, divided by 10.0. */
  function PressureHectopascals(m: Measurements): (p: real)
    ensures p * 10.0 == m.pressure as real
  {
    m.pressure as real / 10.0
  }

  /** Hundredths of a watt, divided by 100.0. */
  function PowerWatts(m: Measurements): (w: real)
    ensures w * 100.0 == m.power as real
  {
    m.power as real / 100.0
  }

  function AbsReal(x: real): real { if x < 0.0 then -x else x }

  /** The reported power is `Math.abs(current) * 230` of the reported current. */
  lemma PowerFromReportedCurrent(bytes: seq<Byte>)
    requires |bytes| >= MIN_PAYLOAD_LENGTH
    ensures var m := DecodeUplink(bytes).data.m;
      PowerWatts(m) == AbsReal(CurrentAmperes(m)) * 230.0
  {
    var m := DecodeUplink(bytes).data.m;
    assert (Abs(m.current) * VOLTAGE) as real == (Abs(m.current) as real) * 230.0;
  }

  /** The ranges of the reported values that the 16-bit registers allow. */
  lemma ReportedRanges(bytes: seq<Byte>)
    requires |bytes| >= MIN_PAYLOAD_LENGTH
    ensures var m := DecodeUplink(bytes).data.m;
      && -3276.8 <= TemperatureCelsius(m) <= 3276.7
      && 0.0 <= HumidityPercent(m) <= 6553.5
      && -327.68 <= CurrentAmperes(m) <= 327.67
      && 0.0 <= PressureHectopascals(m) <= 6553.5
      && 0.0 <= PowerWatts(m) <= 75366.4
  {
    DecodeFields(bytes);
  }

  /** Sign extension at the edges of the range, in the reported units. */
  lemma ReportedSignExtensionLimits(bytes: seq<Byte>)
    requires |bytes| >= MIN_PAYLOAD_LENGTH
    ensures bytes[0] == 0x80 && bytes[1] == 0x00 ==> TemperatureCelsius(DecodeUplink(bytes).data.m) == -3276.8
    ensures bytes[0] == 0x7F && bytes[1] == 0xFF ==> TemperatureCelsius(DecodeUplink(bytes).data.m) == 3276.7
    ensures bytes[4] == 0x80 && bytes[5] == 0x00 ==> CurrentAmperes(DecodeUplink(bytes).data.m) == -327.68
    ensures bytes[4] == 0x7F && bytes[5] == 0xFF ==> CurrentAmperes(DecodeUplink(bytes).data.m) == 327.67
  {
    SignExtensionLimits(bytes);
  }

  /** The test frame `00 FF 02 58 01 F4 04 B0`, as the code decodes it. */
  lemma WorkedExample(bytes: seq<Byte>)
    requires bytes == [0x00, 0xFF, 0x02, 0x58, 0x01, 0xF4, 0x04, 0xB0]
    ensures DecodeUplink(bytes) == UplinkResult(Decoded(Measurements(255, 600, 500, 1200, 115000)), [], [])
    ensures var m := DecodeUplink(bytes).data.m;
      && TemperatureCelsius(m) == 25.5
      && HumidityPercent(m) == 60.0
      && CurrentAmperes(m) == 5.0
      && PressureHectopascals(m) == 120.0
      && PowerWatts(m) == 1150.0
  {
    DecodeFields(bytes);
  }

  /**
   * The pressure documented beside the test frame, 1200.0 hPa, is not what the
   * frame decodes to: its last register 0x04B0 is 1200 tenths, i.e. 120.0 hPa.
   */
  lemma DocumentedPressureNotDecoded(bytes: seq<Byte>)
    requires bytes == [0x00, 0xFF, 0x02, 0x58, 0x01, 0xF4, 0x04, 0xB0]
    ensures PressureHectopascals(DecodeUplink(bytes).data.m) != 1200.0
  {
    WorkedExample(bytes);
  }

  /** A frame that does carry the documented values, 1200.0 hPa included, ends in 2E E0. */
  lemma DocumentedValuesFrame(bytes: seq<Byte>)
    requires bytes == [0x00, 0xFF, 0x02, 0x58, 0x01, 0xF4, 0x2E, 0xE0]
    ensures var m := DecodeUplink(bytes).data.m;
      && TemperatureCelsius(m) == 25.5
      && HumidityPercent(m) == 60.0
      && CurrentAmperes(m) == 5.0
      && PressureHectopascals(m) == 1200.0
      && PowerWatts(m) == 1150.0
  {
    DecodeFields(bytes);
  }
}
