# TTN payload formatter: a verified Dafny model

This project models the payload formatter a LoRaWAN application registers with The Things Network.
The formatter has two stateless functions:

- `decodeUplink` turns an uplink frame from the sensor device into measurements.
  The frame holds four big-endian 16-bit registers:
  - temperature: signed, in tenths of a degree Celsius;
  - humidity: unsigned, in tenths of a percent;
  - current: signed, in hundredths of an ampere;
  - pressure: unsigned, in tenths of a hectopascal.
- The decoder also derives the power drawn at a nominal 230 V.
- `encodeDownlink` turns a command record into a downlink frame:
  - `SET_INTERVAL` gives opcode `0x01` followed by the interval in seconds as a big-endian word;
  - `RESET` gives `0xFF`;
  - anything else gives an empty frame.
- Every downlink frame goes out on fPort 1.

The project has three modules:

- `JsNumbers` (`js_numbers.dfy`) models the JavaScript integer operators the formatter uses, exactly, over mathematical integers:
  - `ToUint32` and `ToInt32`;
  - `<<` and the sign-propagating `>>`;
  - `&` and `|`, as recursive bit-by-bit functions on the 32-bit patterns.

  It defines `Byte`, the integers 0..255, the element type of both kinds of frame.
  It also proves what the formatter's byte manipulations compute: `(hi << 8) | lo`, the `& 0x8000` sign test, `& 0xFF`, and `(x >> 8) & 0xFF`.
- `Uplink` (`uplink.dfy`) has the decoder, its properties, and the device-side register encoding shown in the file's ESP32 example.
  That encoding is the reference for two round trips.
- `Downlink` (`downlink.dfy`) has the encoder and its properties.

Decoded values are kept in integer raw units:

- temperature, humidity and pressure in tenths;
- current in hundredths of an ampere;
- power in hundredths of a watt, which is `|current| * 230`.

Exact `real` views (`TemperatureCelsius`, `PowerWatts`, …) give the numbers the formatter reports after its divisions by 10.0 and 100.0.

The test frame documented in the source disagrees with the code.
The comment says `00 FF 02 58 01 F4 04 B0` decodes to a pressure of 1200.0.
The code reads `04 B0` as 1200 tenths of a hectopascal, which is 120.0 hPa.
The model follows the code. See "## Findings" below.

## Model

| member | source | states |
|---|---|---|
| `JsNumbers.BitOrDisjoint` | 03_LoRaWAN/ttn_intergration/ttn_payload_formatter.js:31 | Or-ing a number below 2^k into a multiple of 2^k is plain addition, so the shift-and-or of two bytes does not mix bits |
| `JsNumbers.BitAndSingleBit` | 03_LoRaWAN/ttn_intergration/ttn_payload_formatter.js:32 | `a & 2^k` is 2^k when bit k of a is set and 0 otherwise |
| `JsNumbers.BitAndLowMask` | 03_LoRaWAN/ttn_intergration/ttn_payload_formatter.js:74 | `a & (2^k - 1)` is a mod 2^k |
| `JsNumbers.ShiftLeft` | 03_LoRaWAN/ttn_intergration/ttn_payload_formatter.js:31 | `x << n` is a signed 32-bit integer whose 32-bit pattern is that of ToInt32(x) * 2^n |
| `JsNumbers.SignedShiftRight` | 03_LoRaWAN/ttn_intergration/ttn_payload_formatter.js:73 | `x >> n` is the floor of ToInt32(x) / 2^n: r * 2^n <= ToInt32(x) < (r + 1) * 2^n |
| `JsNumbers.BitwiseAnd` | 03_LoRaWAN/ttn_intergration/ttn_payload_formatter.js:32-33 | `x & y` is a signed 32-bit integer whose pattern is the bit-by-bit and of the operands' 32-bit patterns |
| `JsNumbers.BitwiseOr` | 03_LoRaWAN/ttn_intergration/ttn_payload_formatter.js:31 | `x OR y` is a signed 32-bit integer whose pattern is the bit-by-bit or of the operands' 32-bit patterns |
| `JsNumbers.Abs` | 03_LoRaWAN/ttn_intergration/ttn_payload_formatter.js:53 | `Math.abs` on an integer: the result is x or -x and is never negative |
| `JsNumbers.BigEndianWord` | 03_LoRaWAN/ttn_intergration/ttn_payload_formatter.js:31 | for two bytes, the JavaScript value of `(hi << 8) OR lo` is hi * 256 + lo |
| `JsNumbers.SignBit` | 03_LoRaWAN/ttn_intergration/ttn_payload_formatter.js:32 | for a 16-bit word w, `w & 0x8000` is non-zero exactly when w >= 0x8000 |
| `JsNumbers.LowByte` | 03_LoRaWAN/ttn_intergration/ttn_payload_formatter.js:74 | `x & 0xFF` is x mod 256 for every integer x, also negative x and x beyond 32 bits |
| `JsNumbers.HighByte` | 03_LoRaWAN/ttn_intergration/ttn_payload_formatter.js:73 | `(x >> 8) & 0xFF` is (x div 256) mod 256 for every integer x |
| `Uplink.Register` | 03_LoRaWAN/ttn_intergration/ttn_payload_formatter.js:31-49 | each register read `(bytes[i] << 8) OR bytes[i+1]` is the big-endian word bytes[i] * 256 + bytes[i+1] |
| `Uplink.SignCorrected` | 03_LoRaWAN/ttn_intergration/ttn_payload_formatter.js:32-34 | the sign correction leaves words below 0x8000 unchanged and subtracts 0x10000 from the others |
| `Uplink.DecodeUplink` | 03_LoRaWAN/ttn_intergration/ttn_payload_formatter.js:14-60 | the result is the "too short" result exactly when the frame has fewer than 8 bytes; otherwise it is a decoded record with no warnings and no errors, and its power is abs(current) * 230 |
| `Uplink.DecodeShortFrame` | 03_LoRaWAN/ttn_intergration/ttn_payload_formatter.js:19-25 | a frame of fewer than 8 bytes, whatever its contents, gives data `{error: "Payload too short"}`, warnings `["Expected at least 8 bytes"]` and no errors |
| `Uplink.DecodeFields` | 03_LoRaWAN/ttn_intergration/ttn_payload_formatter.js:30-53 | humidity and pressure are the unsigned big-endian words at offsets 2 and 6; temperature and current are the two's-complement readings of the words at offsets 0 and 4; all four are within their 16-bit ranges; power is abs(current) * 230 |
| `Uplink.DecodeIgnoresTrailingBytes` | 03_LoRaWAN/ttn_intergration/ttn_payload_formatter.js:28-50 | decoding a frame of 8 or more bytes gives the same result as decoding its first 8 bytes |
| `Uplink.SignExtensionLimits` | 03_LoRaWAN/ttn_intergration/ttn_payload_formatter.js:32-45 | a signed register holding 0x8000 decodes to -32768 and one holding 0x7FFF decodes to 32767 |
| `Uplink.DeviceFrame` | 03_LoRaWAN/ttn_intergration/ttn_payload_formatter.js:121-133 | the device frame is 8 bytes, and each pair of bytes read as a big-endian word is the register's value mod 65536 |
| `Uplink.DeviceHighByte` | 03_LoRaWAN/ttn_intergration/ttn_payload_formatter.js:125 | the device's `(v >> 8) & 0xFF` is (v div 256) mod 256 |
| `Uplink.DeviceLowByte` | 03_LoRaWAN/ttn_intergration/ttn_payload_formatter.js:126 | the device's `v & 0xFF` is v mod 256 |
| `Uplink.DeviceBytesWord` | 03_LoRaWAN/ttn_intergration/ttn_payload_formatter.js:124-131 | the two bytes the device writes for v, read as a big-endian word, give v mod 65536 |
| `Uplink.SignedRegisterRoundTrip` | 03_LoRaWAN/ttn_intergration/ttn_payload_formatter.js:124-126 | for every int16 v, the device encoding followed by the decoder's sign correction gives back v |
| `Uplink.UnsignedRegisterRoundTrip` | 03_LoRaWAN/ttn_intergration/ttn_payload_formatter.js:129-131 | for every uint16 u, the device encoding read back as a big-endian word gives back u |
| `Uplink.DecodeDeviceFrame` | 03_LoRaWAN/ttn_intergration/ttn_payload_formatter.js:121-133 | decoding the 8-byte frame the device builds from int16 temperature and current and uint16 humidity and pressure gives exactly those values, the derived power, and no warnings or errors |
| `Uplink.DeviceFrameOfDecoded` | 03_LoRaWAN/ttn_intergration/ttn_payload_formatter.js:28-50 | re-encoding the decoded values of any frame of 8 or more bytes gives back its first 8 bytes, so the decoder loses nothing |
| `Uplink.TemperatureCelsius` | 03_LoRaWAN/ttn_intergration/ttn_payload_formatter.js:35 | the reported temperature times 10 is the raw temperature register value |
| `Uplink.HumidityPercent` | 03_LoRaWAN/ttn_intergration/ttn_payload_formatter.js:39 | the reported humidity times 10 is the raw humidity register value |
| `Uplink.CurrentAmperes` | 03_LoRaWAN/ttn_intergration/ttn_payload_formatter.js:46 | the reported current times 100 is the raw current register value |
| `Uplink.PressureHectopascals` | 03_LoRaWAN/ttn_intergration/ttn_payload_formatter.js:50 | the reported pressure times 10 is the raw pressure register value |
| `Uplink.PowerWatts` | 03_LoRaWAN/ttn_intergration/ttn_payload_formatter.js:53 | the reported power times 100 is the raw power in hundredths of a watt |
| `Uplink.ReportedRanges` | 03_LoRaWAN/ttn_intergration/ttn_payload_formatter.js:30-53 | for every decoded frame: temperature in [-3276.8, 3276.7], humidity and pressure in [0, 6553.5], current in [-327.68, 327.67], power in [0, 75366.4] |
| `Uplink.ReportedSignExtensionLimits` | 03_LoRaWAN/ttn_intergration/ttn_payload_formatter.js:32-46 | in reported units, a signed register holding 0x8000 gives -3276.8 °C or -327.68 A, and one holding 0x7FFF gives 3276.7 °C or 327.67 A |
| `Uplink.PowerFromReportedCurrent` | 03_LoRaWAN/ttn_intergration/ttn_payload_formatter.js:53 | the reported power in watts is `Math.abs(current) * 230` of the reported current in amperes, exactly, also for negative current |
| `Uplink.WorkedExample` | 03_LoRaWAN/ttn_intergration/ttn_payload_formatter.js:153-160 | the documented test frame `00FF025801F404B0` decodes to temperature 25.5, humidity 60.0, current 5.00 and power 1150.0, and to a pressure of 120.0 hPa |
| `Uplink.DocumentedPressureNotDecoded` | 03_LoRaWAN/ttn_intergration/ttn_payload_formatter.js:159 | the documented test frame does not decode to the documented pressure of 1200.0 |
| `Uplink.DocumentedValuesFrame` | 03_LoRaWAN/ttn_intergration/ttn_payload_formatter.js:153-160 | the frame `00FF025801F42EE0` decodes to all the documented values, pressure 1200.0 included |
| `Downlink.ResolveInterval` | 03_LoRaWAN/ttn_intergration/ttn_payload_formatter.js:72 | the JavaScript default `data.interval OR 60`: an absent or zero interval resolves to 60, any other interval is kept, and the result is never 0 |
| `Downlink.EncodeDownlink` | 03_LoRaWAN/ttn_intergration/ttn_payload_formatter.js:63-86 | every result has fPort 1, no warnings and no errors; its frame, a sequence of bytes, is non-empty exactly for `SET_INTERVAL` and `RESET` |
| `Downlink.EncodeSetInterval` | 03_LoRaWAN/ttn_intergration/ttn_payload_formatter.js:70-75 | `SET_INTERVAL` gives exactly 3 bytes: `0x01`, then the resolved interval mod 65536 as a big-endian word (silent truncation) |
| `Downlink.SetIntervalRoundTrip` | 03_LoRaWAN/ttn_intergration/ttn_payload_formatter.js:73-74 | for every interval in 1..65535, reading bytes 1 and 2 back as a big-endian word gives the interval |
| `Downlink.EncodeDefaultInterval` | 03_LoRaWAN/ttn_intergration/ttn_payload_formatter.js:72-74 | `SET_INTERVAL` with no interval, or with interval 0, is the frame `01 00 3C` |
| `Downlink.EncodeInterval300` | 03_LoRaWAN/ttn_intergration/ttn_payload_formatter.js:70-75 | `SET_INTERVAL` with interval 300 is the frame `01 01 2C` |
| `Downlink.EncodeReset` | 03_LoRaWAN/ttn_intergration/ttn_payload_formatter.js:76-78 | `RESET` is the frame `FF`, whatever the interval field holds |
| `Downlink.EncodeOther` | 03_LoRaWAN/ttn_intergration/ttn_payload_formatter.js:80-85 | any other command, or none, gives an empty frame on fPort 1 with no warnings and no errors |

## Left out

- IEEE 754 doubles. The divisions by 10.0 and 100.0 and `Math.abs` on the scaled current are exact `real` arithmetic here. The model does not capture rounding in the last binary digit, for example `0.1 * 3`.
- Byte elements outside 0..255. The input frame is a sequence of `Byte`, the integers 0..255, so this is a precondition of the decoder.
- Dynamic typing of the command record. The model does not cover:
  - a `command` that is not a string;
  - an `interval` that is not an integer;
  - falsy interval values other than absent and 0 (`NaN`, `""`, `false`, `null`);
  - a missing `data` object, which would throw.
- Integer intervals above 2^53. In JavaScript these are not exact Numbers. The model treats every interval as an exact integer.
- Shift counts. JavaScript masks the shift count with `& 31`. The formatter only shifts by 8, so `ShiftLeft` and `SignedShiftRight` require a count below 32.
- The host envelope around the formatter: extra input metadata and console usage (:139-149). These are platform behaviour.
- The ESP32 firmware snippet (:119-137). It appears only as the reference encoding `DeviceFrame` for the round-trip lemmas. `LMIC_setTxData2` and radio transmission are not modelled.

## Findings

| source | as written | input that shows it | evidently intended | confidence | as-written member | corrected member |
|---|---|---|---|---|---|---|
| 03_LoRaWAN/ttn_intergration/ttn_payload_formatter.js:153-160 | the documented test frame is said to decode to pressure 1200.0 | `00FF025801F404B0`: its pressure register `04B0` is 1200 tenths, which is 120.0 hPa | a test frame whose pressure register is `2EE0` (12000 tenths, 1200.0 hPa), or an expected pressure of 120.0 for the frame as given | not executed; follows from the decoder's ÷10 at :50 | `Uplink.DocumentedPressureNotDecoded` | `Uplink.DocumentedValuesFrame` |
