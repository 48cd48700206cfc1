/**
 * The framing codec of src/message_protocal.c.
 *
 * A frame is `0xAA · command · [length] · payload · checksum`, where the
 * checksum is the XOR of every byte before it. The pure part (int16 and
 * vector byte order, the frame a message becomes, and `Parse`, the outcome of
 * scanning a buffer) specifies the imperative part: the checksum loop, the
 * three encoders that fill a fresh buffer index by index, and the parser that
 * scans a caller's buffer and fills a `ParsedMessage` record.
 */
module Codec {
  import opened Wrappers
  import opened Bytes
  import opened ProtocolTypes

  // ---------------------------------------------------------------------------
  // Checksum

  /** The XOR of all bytes of `s`, folded from the first byte to the last. */
  function Xor(s: seq<byte>): byte
  {
    if s == [] then 0 else Xor8(Xor(s[..|s| - 1]), s[|s| - 1])
  }

  /** `calculate_checksum` over the `length` bytes of `data` from `offset`. */
  method CalculateChecksum(data: array<byte>, offset: nat, length: nat) returns (checksum: byte)
    requires offset + length <= data.Length
    ensures checksum == Xor(data[offset .. offset + length])
  {
    checksum := 0;
    var i := 0;
    while i < length
      invariant i <= length
      invariant checksum == Xor(data[offset .. offset + i])
    {
      assert data[offset .. offset + i + 1][..i] == data[offset .. offset + i];
      checksum := Xor8(checksum, data[offset + i]);
      i := i + 1;
    }
  }

  // ---------------------------------------------------------------------------
  // Little-endian integers

  /** `serialize_int16_le`: the two's-complement low byte, then the high byte. */
  function SerializeInt16(v: int16): (b: seq<byte>)
    ensures |b| == 2
  {
    [v % 256, (v / 256) % 256]
  }

  /** `deserialize_int16_le`: `b[1]` is the high byte, reinterpreted as signed. */
  function DeserializeInt16(b: seq<byte>): (v: int16)
    requires |b| >= 2
    ensures v % 256 == b[0] as int && (v / 256) % 256 == b[1] as int
  {
    var u := (b[1] as int) * 256 + b[0] as int;
    if u >= 0x8000 then
      assert (u - 0x1_0000) / 256 == b[1] as int - 256;
      u - 0x1_0000
    else
      assert u / 256 == b[1] as int;
      u
  }

  /** `serialize_vector3_le`: x, y and z, two bytes each. */
  function SerializeVector3(v: Vector3): (b: seq<byte>)
    ensures |b| == VECTOR3_SIZE
  {
    SerializeInt16(v.x) + SerializeInt16(v.y) + SerializeInt16(v.z)
  }

  /** `deserialize_vector3_le`: reads x, y and z from offsets 0, 2 and 4. */
  function DeserializeVector3(b: seq<byte>): (v: Vector3)
    requires |b| >= VECTOR3_SIZE
    ensures SerializeVector3(v) == b[..VECTOR3_SIZE]
  {
    var v := Vector3(DeserializeInt16(b[0..2]), DeserializeInt16(b[2..4]), DeserializeInt16(b[4..6]));
    assert SerializeInt16(v.x) == b[0..2] && SerializeInt16(v.y) == b[2..4] && SerializeInt16(v.z) == b[4..6];
    assert b[..VECTOR3_SIZE] == b[0..2] + b[2..4] + b[4..6];
    v
  }

  /** `(uint8_t)value` for an `int8_t` value. */
  function Int8ToByte(v: int8): byte
  {
    v % 256
  }

  /** The 12 payload bytes of a twist: linear then angular. */
  function TwistPayload(t: TwistData): (p: seq<byte>)
    ensures |p| == TWIST_SIZE
  {
    SerializeVector3(t.linear) + SerializeVector3(t.angular)
  }

  // ---------------------------------------------------------------------------
  // Frames

  /** The frame that carries `body` (length byte, if any, and payload) for `cmd`. */
  function Frame(cmd: CommandId, body: seq<byte>): seq<byte>
  {
    var head := [MSG_HEADER, cmd.Id()] + body;
    head + [Xor(head)]
  }

  /** A message whose payload fits its command's size rule. */
  predicate WellFormed(m: Message)
  {
    match Shape(m.commandId)
    case Fixed(n) => |m.payload| == n
    case LengthPrefixed => |m.payload| <= 255
  }

  /** What follows the command byte: a length byte for SET_STRING, then the payload. */
  function Body(m: Message): seq<byte>
    requires WellFormed(m)
  {
    if Shape(m.commandId).LengthPrefixed? then [|m.payload|] + m.payload else m.payload
  }

  /** The frame a well-formed message travels in. */
  function Encode(m: Message): (f: seq<byte>)
    requires WellFormed(m)
    ensures |f| == |m.payload| + (if Shape(m.commandId).LengthPrefixed? then 4 else 3)
    ensures f[0] == MSG_HEADER && f[1] == m.commandId.Id()
  {
    Frame(m.commandId, Body(m))
  }

  // ---------------------------------------------------------------------------
  // Encoders

  /** `memcpy(dst + offset, src, |src|)`. */
  method CopyInto(dst: array<byte>, offset: nat, src: seq<byte>)
    requires offset + |src| <= dst.Length
    modifies dst
    ensures forall k | 0 <= k < dst.Length ::
      dst[k] == if offset <= k < offset + |src| then src[k - offset] else old(dst[k])
  {
    var i := 0;
    while i < |src|
      invariant i <= |src|
      invariant forall k | 0 <= k < dst.Length ::
        dst[k] == if offset <= k < offset + i then src[k - offset] else old(dst[k])
    {
      dst[offset + i] := src[i];
      i := i + 1;
    }
  }

  /**
   * `create_string_message`: a string longer than 255 bytes is refused;
   * otherwise a fresh buffer holds `[0xAA, 0x01, len] + str + [checksum]`.
   * `str` stands for the bytes `strlen` counts.
   */
  method CreateStringMessage(str: seq<byte>) returns (err: MessageError, buffer: array?<byte>)
    ensures |str| > 255 <==> err == InvalidParam
    ensures err == InvalidParam ==> buffer == null
    ensures |str| <= 255 ==> err == MsgSuccess && buffer != null && fresh(buffer)
    ensures |str| <= 255 ==> buffer[..] == Encode(Message(SetString, str))
  {
    if |str| > 255 {
      return InvalidParam, null;
    }
    var total := 1 + 1 + 1 + |str| + 1;
    buffer := new byte[total];
    buffer[0] := MSG_HEADER;
    buffer[1] := SetString.Id();
    buffer[2] := |str|;
    CopyInto(buffer, 3, str);
    assert buffer[..total - 1] == [MSG_HEADER, SetString.Id()] + Body(Message(SetString, str));
    ghost var head := buffer[..total - 1];
    var checksum := CalculateChecksum(buffer, 0, total - 1);
    assert buffer[0 .. total - 1] == head;
    buffer[total - 1] := checksum;
    assert buffer[..] == head + [checksum];
    err := MsgSuccess;
  }

  /** `create_int8_message`: a fresh 4-byte buffer `[0xAA, 0x02, (uint8)value, checksum]`. */
  method CreateInt8Message(value: int8) returns (err: MessageError, buffer: array<byte>)
    ensures err == MsgSuccess && fresh(buffer)
    ensures buffer[..] == Encode(Message(SetInt8, [Int8ToByte(value)]))
  {
    var total := 1 + 1 + 1 + 1;
    buffer := new byte[total];
    buffer[0] := MSG_HEADER;
    buffer[1] := SetInt8.Id();
    buffer[2] := Int8ToByte(value);
    assert Body(Message(SetInt8, [Int8ToByte(value)])) == [Int8ToByte(value)];
    assert buffer[..total - 1] == [MSG_HEADER, SetInt8.Id()] + [Int8ToByte(value)];
    ghost var head := buffer[..total - 1];
    var checksum := CalculateChecksum(buffer, 0, total - 1);
    assert buffer[0 .. total - 1] == head;
    buffer[total - 1] := checksum;
    assert buffer[..] == head + [checksum];
    err := MsgSuccess;
  }

  /**
   * `create_twist_message`: a fresh 15-byte buffer with the linear then the
   * angular vector in little-endian order at offsets 2..13.
   */
  method CreateTwistMessage(twist: TwistData) returns (err: MessageError, buffer: array<byte>)
    ensures err == MsgSuccess && fresh(buffer)
    ensures buffer[..] == Encode(Message(SetTwist, TwistPayload(twist)))
  {
    var total := 1 + 1 + TWIST_SIZE + 1;
    buffer := new byte[total];
    buffer[0] := MSG_HEADER;
    buffer[1] := SetTwist.Id();
    CopyInto(buffer, 2, SerializeVector3(twist.linear));
    CopyInto(buffer, 2 + VECTOR3_SIZE, SerializeVector3(twist.angular));
    assert buffer[..total - 1] == [MSG_HEADER, SetTwist.Id()] + TwistPayload(twist);
    ghost var head := buffer[..total - 1];
    var checksum := CalculateChecksum(buffer, 0, total - 1);
    assert buffer[0 .. total - 1] == head;
    buffer[total - 1] := checksum;
    assert buffer[..] == head + [checksum];
    err := MsgSuccess;
  }

  // ---------------------------------------------------------------------------
  // Parser

  /** What one call of the parser reports: the outcome and `bytes_consumed`. */
  datatype ParseResult =
    | Parsed(message: Message, consumed: nat)
    | Failed(error: MessageError, consumed: nat)
  {
    function Status(): MessageError {
      if Parsed? then MsgSuccess else error
    }
  }

  /** The first offset at or after `from` holding the header byte, if any. */
  function FirstHeader(buf: seq<byte>, from: nat): (r: Option<nat>)
    requires from <= |buf|
    ensures r.Some? ==> from <= r.value < |buf| && buf[r.value] == MSG_HEADER
    ensures r.Some? ==> forall j | from <= j < r.value :: buf[j] != MSG_HEADER
    ensures r.None? <==> forall j | from <= j < |buf| :: buf[j] != MSG_HEADER
    decreases |buf| - from
  {
    if from == |buf| then None
    else if buf[from] == MSG_HEADER then Some(from)
    else FirstHeader(buf, from + 1)
  }

  /**
   * `parse_message_from_buffer` as a value: the outcome of scanning `buf`
   * and the number of bytes the caller may drop.
   */
  function Parse(buf: seq<byte>): (r: ParseResult)
    ensures r.consumed <= |buf|
  {
    match FirstHeader(buf, 0)
    case None => Failed(Incomplete, |buf|)
    case Some(h) => ParseFrom(buf, h)
  }

  /** The parse once the first header sits at offset `h`. */
  function ParseFrom(buf: seq<byte>, h: nat): (r: ParseResult)
    requires h < |buf|
    ensures r.consumed <= |buf|
  {
    if |buf| - h < 3 then Failed(Incomplete, h + 1)
    else match CommandFromByte(buf[h + 1])
      case None => Failed(UnknownCmd, h + 2)
      case Some(cmd) => ParseCommand(buf, h, cmd)
  }

  /** The parse once a known command follows the header at `h`. */
  function ParseCommand(buf: seq<byte>, h: nat, cmd: CommandId): (r: ParseResult)
    requires h + 3 <= |buf|
    ensures r.consumed <= |buf|
  {
    var remaining := |buf| - h;
    var variable := Shape(cmd).LengthPrefixed?;
    if variable && remaining < 4 then Failed(Incomplete, h + 2)
    else
      var lengthField := if variable then 1 else 0;
      var payloadLen := if variable then buf[h + 2] as nat else Shape(cmd).size;
      var total := 2 + lengthField + payloadLen + 1;
      if remaining < total then Failed(Incomplete, h)
      else if buf[h + total - 1] != Xor(buf[h .. h + total - 1]) then Failed(BadChecksum, h + total)
      else Parsed(Message(cmd, buf[h + 2 + lengthField .. h + total - 1]), h + total)
  }

  /** `ParsedMessage_t`, the record the parser fills in and the caller frees. */
  class ParsedMessage {
    /** The raw `command_id` field. */
    var commandId: byte
    /** The owned payload buffer; null when there is none. */
    var payload: array?<byte>
    var payloadLength: nat
  }

  /** `malloc(n)` and `memcpy` of `n` bytes of `src` from `offset`. */
  method CopyOut(src: array<byte>, offset: nat, n: nat) returns (dst: array<byte>)
    requires offset + n <= src.Length
    ensures fresh(dst) && dst[..] == src[offset .. offset + n]
  {
    dst := new byte[n];
    var i := 0;
    while i < n
      invariant i <= n
      invariant dst[..i] == src[offset .. offset + i]
    {
      dst[i] := src[offset + i];
      i := i + 1;
    }
  }

  /** The header search loop: the first header offset, or `bufferLen` when there is none. */
  method FindHeader(recv: array<byte>, bufferLen: nat) returns (h: nat)
    requires bufferLen <= recv.Length
    ensures h == bufferLen ==> FirstHeader(recv[..bufferLen], 0).None?
    ensures h < bufferLen ==> FirstHeader(recv[..bufferLen], 0) == Some(h)
    ensures h <= bufferLen
  {
    h := 0;
    while h < bufferLen && recv[h] != MSG_HEADER
      invariant h <= bufferLen
      invariant forall j | 0 <= j < h :: recv[j] != MSG_HEADER
    {
      h := h + 1;
    }
  }

  /**
   * What the parser leaves behind for the outcome `r`: the status and the
   * consumed count it returns, and a record that only a successful parse
   * writes (command byte, payload length and a fresh copy of the payload, or
   * no buffer for an empty payload).
   */
  twostate predicate Reports(r: ParseResult, err: MessageError, consumed: nat, msg: ParsedMessage)
    reads msg, msg.payload
  {
    && err == r.Status()
    && consumed == r.consumed
    && (r.Failed? ==> unchanged(msg))
    && (r.Parsed? ==>
          && msg.commandId == r.message.commandId.Id()
          && msg.payloadLength == |r.message.payload|
          && (|r.message.payload| == 0 ==> msg.payload == null)
          && (|r.message.payload| > 0 ==>
                msg.payload != null && fresh(msg.payload) && msg.payload[..] == r.message.payload))
  }

  /**
   * `parse_message_from_buffer` over the first `bufferLen` bytes of `recv`.
   * A null `msg` is refused (the C function then leaves `bytes_consumed`
   * alone; here it is 0). Otherwise the outcome and the consumed count are
   * those of `Parse`, and only a successful parse writes `msg`.
   */
  method ParseMessageFromBuffer(recv: array<byte>, bufferLen: nat, msg: ParsedMessage?)
    returns (err: MessageError, consumed: nat)
    requires bufferLen <= recv.Length
    modifies msg
    ensures msg == null ==> err == InvalidParam && consumed == 0
    ensures msg != null ==> Reports(Parse(recv[..bufferLen]), err, consumed, msg)
  {
    if msg == null {
      return InvalidParam, 0;
    }
    // 1. Find the header.
    var h := FindHeader(recv, bufferLen);
    if h == bufferLen {
      return Incomplete, bufferLen;
    }
    err, consumed := ParseAtHeader(recv, bufferLen, h, msg);
  }

  /** Steps 2 to 4 of the parser, once the header sits at `h`. */
  method ParseAtHeader(recv: array<byte>, bufferLen: nat, h: nat, msg: ParsedMessage)
    returns (err: MessageError, consumed: nat)
    requires h < bufferLen <= recv.Length
    modifies msg
    ensures Reports(ParseFrom(recv[..bufferLen], h), err, consumed, msg)
  {
    consumed := h + 1;
    // 2. Header, command and checksum at least.
    if bufferLen - h < 3 {
      return Incomplete, consumed;
    }
    // 3. The command.
    var cmdByte := recv[h + 1];
    consumed := h + 2;
    match CommandFromByte(cmdByte)
    case None =>
      return UnknownCmd, consumed;
    case Some(c) =>
      err, consumed := ParseCommandFrame(recv, bufferLen, h, c, msg);
  }

  /** Steps 4 to 8 of the parser for the known command `cmd` after the header at `h`. */
  method ParseCommandFrame(recv: array<byte>, bufferLen: nat, h: nat, cmd: CommandId, msg: ParsedMessage)
    returns (err: MessageError, consumed: nat)
    requires h + 3 <= bufferLen <= recv.Length
    requires recv[h + 1] == cmd.Id()
    modifies msg
    ensures Reports(ParseCommand(recv[..bufferLen], h, cmd), err, consumed, msg)
  {
    ghost var buf := recv[..bufferLen];
    var remaining := bufferLen - h;
    consumed := h + 2;
    // 4. The payload length the command implies.
    var expectedPayloadLen := 0;
    var variableLen := false;
    if cmd == SetString {
      variableLen := true;
      if remaining < 4 {
        return Incomplete, consumed;
      }
      expectedPayloadLen := recv[h + 2] as nat;
      consumed := h + 3;
    } else {
      expectedPayloadLen := Shape(cmd).size;
    }

    // 5. The whole frame's length.
    var lengthField := if variableLen then 1 else 0;
    var total := 1 + 1 + lengthField + expectedPayloadLen + 1;

    // 6. Wait for the rest of the frame without dropping its start.
    if remaining < total {
      consumed := h;
      return Incomplete, consumed;
    }
    consumed := h + total;

    // 7. and 8. The checksum, then the payload.
    assert buf[h .. h + total - 1] == recv[h .. h + total - 1];
    assert buf[h + 2 + lengthField .. h + total - 1] == recv[h + 2 + lengthField .. h + total - 1];
    err := CheckAndCopy(recv, h, lengthField, expectedPayloadLen, msg);
  }

  /**
   * The last two steps of the parser for the complete frame at `h` with a
   * `lengthField`-byte length and `n` payload bytes: compare the checksum
   * byte with the XOR of the bytes before it, then copy the payload out.
   */
  method CheckAndCopy(recv: array<byte>, h: nat, lengthField: nat, n: nat, msg: ParsedMessage)
    returns (err: MessageError)
    requires h + 2 + lengthField + n + 1 <= recv.Length
    modifies msg
    ensures var total := 2 + lengthField + n + 1;
      if recv[h + total - 1] != Xor(recv[h .. h + total - 1]) then
        err == BadChecksum && unchanged(msg)
      else
        && err == MsgSuccess
        && msg.commandId == recv[h + 1]
        && msg.payloadLength == n
        && (n == 0 ==> msg.payload == null)
        && (n > 0 ==> msg.payload != null && fresh(msg.payload)
                      && msg.payload[..] == recv[h + 2 + lengthField .. h + total - 1])
  {
    var total := 1 + 1 + lengthField + n + 1;
    var received := recv[h + total - 1];
    var calculated := CalculateChecksum(recv, h, total - 1);
    if received != calculated {
      return BadChecksum;
    }
    msg.commandId := recv[h + 1];
    msg.payloadLength := n;
    if n > 0 {
      var p := CopyOut(recv, h + 2 + lengthField, n);
      msg.payload := p;
    } else {
      msg.payload := null;
    }
    return MsgSuccess;
  }

  /** `free_parsed_message_payload`: drops an owned payload and zeroes its length. */
  method FreeParsedMessagePayload(msg: ParsedMessage?)
    modifies msg
    ensures msg != null && old(msg.payload) != null ==>
      msg.payload == null && msg.payloadLength == 0 && msg.commandId == old(msg.commandId)
    ensures msg != null && old(msg.payload) == null ==> unchanged(msg)
  {
    if msg != null && msg.payload != null {
      msg.payload := null;
      msg.payloadLength := 0;
    }
  }
}
