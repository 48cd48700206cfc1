/**
 * Wire constants and types of the framing protocol (include/message_protocol.h):
 * the header sentinel, the result codes, the command identifiers and the
 * payload records.
 */
module ProtocolTypes {
  import opened Wrappers
  import opened Bytes

  /** A C `int16_t` value. */
  type int16 = x: int | -0x8000 <= x < 0x8000

  /** A C `int8_t` value. */
  type int8 = x: int | -0x80 <= x < 0x80

  /** The byte that marks the start of every frame. */
  const MSG_HEADER: byte := 0xAA

  /** `MessageError_t`: every outcome of the codec. */
  datatype MessageError =
    | MsgSuccess
    | BufferSmall
    | Malloc
    | InvalidParam
    | Serialize
    | Deserialize
    | BadHeader
    | BadChecksum
    | UnknownCmd
    | Incomplete
  {
    /** The numeric value the C enumeration gives this outcome. */
    function Code(): int {
      match this
      case MsgSuccess => 0
      case BufferSmall => -101
      case Malloc => -102
      case InvalidParam => -103
      case Serialize => -104
      case Deserialize => -105
      case BadHeader => -106
      case BadChecksum => -107
      case UnknownCmd => -108
      case Incomplete => -109
    }
  }

  /** Success is 0 and every error is a distinct value in -109..-101. */
  lemma CodesDistinct(e1: MessageError, e2: MessageError)
    ensures e1.Code() == e2.Code() ==> e1 == e2
    ensures e1 == MsgSuccess <==> e1.Code() == 0
    ensures e1 != MsgSuccess ==> -109 <= e1.Code() <= -101
  {
  }

  /** `CommandID_t`: the closed set of commands the protocol knows. */
  datatype CommandId = SetString | SetInt8 | SetTwist | Ack | Nack
  {
    /** The command byte sent on the wire. */
    function Id(): byte {
      match this
      case SetString => 0x01
      case SetInt8 => 0x02
      case SetTwist => 0x03
      case Ack => 0xFE
      case Nack => 0xFF
    }
  }

  /** The command a wire byte names, if any (the `switch (cmd)` of the parser). */
  function CommandFromByte(b: byte): (r: Option<CommandId>)
    ensures r.Some? ==> r.value.Id() == b
    ensures r.None? ==> forall c: CommandId :: c.Id() != b
  {
    if b == 0x01 then Some(SetString)
    else if b == 0x02 then Some(SetInt8)
    else if b == 0x03 then Some(SetTwist)
    else if b == 0xFE then Some(Ack)
    else if b == 0xFF then Some(Nack)
    else None
  }

  /** Reading back the byte of a command gives the command again. */
  lemma CommandIdRoundTrip(c: CommandId)
    ensures CommandFromByte(c.Id()) == Some(c)
  {
  }

  /** How a command's payload is sized on the wire. */
  datatype PayloadShape = Fixed(size: nat) | LengthPrefixed

  /** SET_STRING carries a length byte; the others have a fixed payload size. */
  function Shape(c: CommandId): (s: PayloadShape)
    ensures s.LengthPrefixed? <==> c == SetString
    ensures c == SetInt8 ==> s == Fixed(1)
    ensures c == SetTwist ==> s == Fixed(TWIST_SIZE)
    ensures c == Ack || c == Nack ==> s == Fixed(0)
  {
    match c
    case SetString => LengthPrefixed
    case SetInt8 => Fixed(1)
    case SetTwist => Fixed(TWIST_SIZE)
    case Ack => Fixed(0)
    case Nack => Fixed(0)
  }

  /** `Vector3_t`: three int16 components. */
  datatype Vector3 = Vector3(x: int16, y: int16, z: int16)

  /** `TwistData_t`: a linear and an angular vector. */
  datatype TwistData = TwistData(linear: Vector3, angular: Vector3)

  /** `sizeof(Vector3_t)`: three two-byte fields. */
  const VECTOR3_SIZE: nat := 6

  /** `sizeof(TwistData_t)`: two vectors. */
  const TWIST_SIZE: nat := 2 * VECTOR3_SIZE

  /** The decoded contents of one frame (`ParsedMessage_t` as a value). */
  datatype Message = Message(commandId: CommandId, payload: seq<byte>)
}
