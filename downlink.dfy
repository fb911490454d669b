/**
 * The downlink encoder of the payload formatter (network to device).
 *
 *   SET_INTERVAL  [0x01, interval high byte, interval low byte]
 *   RESET         [0xFF]
 *   anything else []
 *
 * Every frame goes out on fPort 1 with no warnings and no errors.
 */
module Downlink {
  import opened JsNumbers

  datatype Option<+T> = None | Some(value: T)

  /**
   * The command record handed to the encoder: `command` and `interval` are
   * each either absent or present.
   */
  datatype DownlinkData = DownlinkData(command: Option<string>, interval: Option<int>)

  datatype DownlinkResult = DownlinkResult(bytes: seq<Byte>, fPort: int, warnings: seq<string>, errors: seq<string>)

  const SET_INTERVAL: string := "SET_INTERVAL"
  const RESET: string := "RESET"

  const OPCODE_SET_INTERVAL: Byte := 0x01
  const OPCODE_RESET: Byte := 0xFF
  const DEFAULT_INTERVAL: int := 60
  const DOWNLINK_PORT: int := 1

  /** `data.interval || 60`: an absent or zero interval falls back to the default. */
  function ResolveInterval(interval: Option<int>): (seconds: int)
    ensures interval == None || interval == Some(0) ==> seconds == DEFAULT_INTERVAL
    ensures interval.Some? && interval.value != 0 ==> seconds == interval.value
    ensures seconds != 0
  {
    match interval
    case Some(v) => if v != 0 then v else DEFAULT_INTERVAL
    case None => DEFAULT_INTERVAL
  }

  /** encodeDownlink */
  function EncodeDownlink(data: DownlinkData): (r: DownlinkResult)
    ensures r.fPort == DOWNLINK_PORT && r.warnings == [] && r.errors == []
    ensures r.bytes != [] <==> data.command == Some(SET_INTERVAL) || data.command == Some(RESET)
  {
    var bytes :=
      if data.command == Some(SET_INTERVAL) then
        var interval := ResolveInterval(data.interval);
        HighByte(interval);
        LowByte(interval);
        [OPCODE_SET_INTERVAL, BitwiseAnd(SignedShiftRight(interval, 8), 0xFF), BitwiseAnd(interval, 0xFF)]
      else if data.command == Some(RESET) then
        [OPCODE_RESET]
      else
        [];
    DownlinkResult(bytes, DOWNLINK_PORT, [], [])
  }

  // ---------------------------------------------------------------------------
  // Properties of the encoder
  // ---------------------------------------------------------------------------

  /**
   * SET_INTERVAL is the opcode followed by the resolved interval as a
   * big-endian 16-bit word; intervals outside 0..65535 are silently reduced
   * modulo 2^16.
   */
  lemma EncodeSetInterval(data: DownlinkData)
    requires data.command == Some(SET_INTERVAL)
    ensures var b := EncodeDownlink(data).bytes;
      && |b| == 3
      && b[0] == OPCODE_SET_INTERVAL
      && (b[1] as int) * 256 + b[2] == ResolveInterval(data.interval) % 0x1_0000
  {
    var interval := ResolveInterval(data.interval);
    HighByte(interval);
    LowByte(interval);
    DivModNested(interval, 256, 256);
  }

  /** A device reading the big-endian word back recovers every interval in 1..65535. */
  lemma SetIntervalRoundTrip(seconds: int)
    requires 0 < seconds < 0x1_0000
    ensures var b := EncodeDownlink(DownlinkData(Some(SET_INTERVAL), Some(seconds))).bytes;
      (b[1] as int) * 256 + b[2] == seconds
  {
    EncodeSetInterval(DownlinkData(Some(SET_INTERVAL), Some(seconds)));
    DivModUnique(seconds, 0x1_0000, 0, seconds);
  }

  /** Without an interval, or with interval 0, the frame asks for the 60 s default. */
  lemma EncodeDefaultInterval(data: DownlinkData)
    requires data.command == Some(SET_INTERVAL)
    requires data.interval == None || data.interval == Some(0)
    ensures EncodeDownlink(data).bytes == [0x01, 0x00, 0x3C]
  {
    DivModUnique(60, 0x1_0000, 0, 60);
    DivModUnique(60, 256, 0, 60);
    HighByte(60);
    LowByte(60);
  }

  /** An interval of 300 s is sent as 01 01 2C. */
  lemma EncodeInterval300(data: DownlinkData)
    requires data == DownlinkData(Some(SET_INTERVAL), Some(300))
    ensures EncodeDownlink(data).bytes == [0x01, 0x01, 0x2C]
  {
    HighByte(300);
    LowByte(300);
    DivModUnique(300, 256, 1, 0x2C);
    DivModUnique(1, 256, 0, 1);
  }

  /** RESET is the single opcode byte, whatever the interval field holds. */
  lemma EncodeReset(data: DownlinkData)
    requires data.command == Some(RESET)
    ensures EncodeDownlink(data).bytes == [OPCODE_RESET]
  {
  }

  /** Any other command, or none, is an empty frame (still on fPort 1). */
  lemma EncodeOther(data: DownlinkData)
    requires data.command != Some(SET_INTERVAL) && data.command != Some(RESET)
    ensures EncodeDownlink(data) == DownlinkResult([], DOWNLINK_PORT, [], [])
  {
  }
}
