/** Types and constants of the T-code library (src/tcode.h). */
module Types {

  /** An 8-bit byte, as stored in the text buffer and in uint8_t fields. */
  newtype byte = x: int | 0 <= x < 256

  /** Capacity of the circular text buffer (TCODE_TEXT_BUFFER_LEN). */
  const TextBufferLen: nat := 128

  /** The byte that ends tcode_getc's read loop; EOF read into a char has the same bits. */
  const Sentinel: byte := 0xFF

  /** size_t on a 64-bit target; C arithmetic on it wraps modulo 2^64. */
  newtype uint64 = x: int | 0 <= x < 0x1_0000_0000_0000_0000

  /** SIZE_MAX. */
  const MaxUint64: uint64 := 0xFFFF_FFFF_FFFF_FFFF

  /** The value of `x - 1` on a size_t: 0 wraps to SIZE_MAX. */
  function Decr(x: uint64): (r: uint64)
    ensures r as int == (x as int - 1) % 0x1_0000_0000_0000_0000
  {
    if x == 0 then MaxUint64 else x - 1
  }

  /** The value of `x + 1` on a size_t: SIZE_MAX wraps to 0. */
  function Incr(x: uint64): (r: uint64)
    ensures r as int == (x as int + 1) % 0x1_0000_0000_0000_0000
  {
    if x == MaxUint64 then 0 else x + 1
  }

  const Nul: byte := 0
  const Space: byte := ' ' as byte
  const Newline: byte := '\n' as byte

  /** Result codes (tcode_err_t). */
  datatype Status = Ok | Fail | NoData | BufferOverflow

  /** The actuator class of a command (tcode_command_type_t). */
  datatype CommandType = Invalid | Linear | Rotate | Vibrate | Auxilliary

  /**
   * One actuator instruction (tcode_command_t). The float fields are exact reals;
   * `kind` is the C field `type`, `channel` and `executeImmediate` are uint8_t.
   */
  datatype Command = Command(
    kind: CommandType,
    channel: byte,
    magnitude: real,
    interval: real,
    speed: real,
    transitionMagnitude: real,
    lastTransitionMs: int,
    executeImmediate: byte)

  /** TCODE_COMMAND_DEFAULT: every field zero, type invalid. */
  const DefaultCommand := Command(Invalid, 0, 0.0, 0.0, 0.0, 0.0, 0, 0)

  datatype Option<T> = None | Some(value: T)

  /** The bytes of an ASCII string literal. */
  function Ascii(s: string): (r: seq<byte>)
    requires forall i :: 0 <= i < |s| ==> s[i] as int < 256
    ensures |r| == |s| && forall i :: 0 <= i < |s| ==> r[i] as int == s[i] as int
  {
    seq(|s|, i requires 0 <= i < |s| => s[i] as int as byte)
  }
}
