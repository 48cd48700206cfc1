/**
 * Properties of the framing codec: byte-order round trips, the checksum
 * every encoder appends, and what the parser reports for encoded,
 * truncated, corrupted and unknown frames.
 */
module CodecLemmas {
  import opened Wrappers
  import opened Bytes
  import opened ProtocolTypes
  import opened Codec

  // ---------------------------------------------------------------------------
  // Byte order

  /** Reading back a serialized int16 gives the value; the low byte goes first. */
  lemma Int16RoundTrip(v: int16)
    ensures DeserializeInt16(SerializeInt16(v)) == v
    ensures SerializeInt16(v)[0] as int == v % 256
  {
    var b := SerializeInt16(v);
    assert b[0] as int == v % 256;
    assert b[1] as int == (v / 256) % 256;
    if v >= 0 {
      assert (v / 256) % 256 == v / 256;
    } else {
      assert (v / 256) % 256 == v / 256 + 256;
    }
  }

  /** Every pair of bytes is the serialization of the int16 it decodes to. */
  lemma Int16BytesRoundTrip(b: seq<byte>)
    requires |b| == 2
    ensures SerializeInt16(DeserializeInt16(b)) == b
  {
    var v := DeserializeInt16(b);
    var u := (b[1] as int) * 256 + b[0] as int;
    var s := SerializeInt16(v);
    if u >= 0x8000 {
      assert v == u - 0x1_0000;
      assert v % 256 == b[0] as int;
      assert v / 256 == b[1] as int - 256;
    } else {
      assert v % 256 == b[0] as int;
      assert v / 256 == b[1] as int;
    }
    assert s[0] == b[0] && s[1] == b[1];
  }

  /** Reading back a serialized vector gives the vector. */
  lemma Vector3RoundTrip(v: Vector3)
    ensures DeserializeVector3(SerializeVector3(v)) == v
  {
    var b := SerializeVector3(v);
    assert b[0..2] == SerializeInt16(v.x);
    assert b[2..4] == SerializeInt16(v.y);
    assert b[4..6] == SerializeInt16(v.z);
    Int16RoundTrip(v.x);
    Int16RoundTrip(v.y);
    Int16RoundTrip(v.z);
  }

  // ---------------------------------------------------------------------------
  // Checksum

  /** The checksum of a concatenation is the XOR of the parts' checksums. */
  lemma {:induction false} XorAppend(a: seq<byte>, b: seq<byte>)
    ensures Xor(a + b) == Xor8(Xor(a), Xor(b))
    decreases |b|
  {
    if b == [] {
      assert a + b == a;
      Xor8Laws(Xor(a), 0, 0);
    } else {
      var b' := b[..|b| - 1];
      assert (a + b)[..|a + b| - 1] == a + b';
      XorAppend(a, b');
      Xor8Laws(Xor(a), Xor(b'), b[|b| - 1]);
    }
  }

  /** Flipping bits of one byte flips the same bits of the checksum. */
  lemma XorFlip(s: seq<byte>, i: nat, mask: byte)
    requires i < |s|
    ensures Xor(s[i := Xor8(s[i], mask)]) == Xor8(Xor(s), mask)
  {
    var x := s[i];
    var y := Xor8(x, mask);
    var t := s[i := y];
    var pre := s[..i];
    var rest := s[i + 1..];
    assert s == pre + [x] + rest;
    assert t == pre + [y] + rest;
    SingleXor(x);
    SingleXor(y);
    XorAppend(pre + [x], rest);
    XorAppend(pre, [x]);
    XorAppend(pre + [y], rest);
    XorAppend(pre, [y]);
    var p := Xor(pre);
    var r := Xor(rest);
    // (p ^ (x ^ m)) ^ r == ((p ^ x) ^ r) ^ m
    Xor8Laws(p, x, mask);
    Xor8Laws(Xor8(p, x), mask, r);
    Xor8Laws(mask, r, 0);
    Xor8Laws(Xor8(p, x), r, mask);
  }

  /** The checksum of a single byte is that byte. */
  lemma SingleXor(x: byte)
    ensures Xor([x]) == x
  {
    assert [x][..0] == [];
    Xor8Laws(x, 0, 0);
  }

  /**
   * Every frame ends with the XOR of all bytes before it, so the XOR of the
   * whole frame is zero.
   */
  lemma FrameChecksum(cmd: CommandId, body: seq<byte>)
    ensures var f := Frame(cmd, body);
      |f| == |body| + 3 && f[|f| - 1] == Xor(f[..|f| - 1]) && Xor(f) == 0
  {
    var f := Frame(cmd, body);
    var head := [MSG_HEADER, cmd.Id()] + body;
    assert f[..|f| - 1] == head;
    Xor8Laws(Xor(head), 0, 0);
  }

  /** `create_string_message`'s frame: header, command, length byte, the string, checksum. */
  lemma StringLayout(str: seq<byte>)
    requires |str| <= 255
    ensures var f := Encode(Message(SetString, str));
      && |f| == |str| + 4 && f[0] == 0xAA && f[1] == 0x01 && f[2] as int == |str|
      && f[3 .. 3 + |str|] == str && f[|f| - 1] == Xor(f[..|f| - 1])
  {
    FrameChecksum(SetString, Body(Message(SetString, str)));
  }

  /** `create_int8_message`'s frame: header, command, the value's byte, checksum. */
  lemma Int8Layout(value: int8)
    ensures var f := Encode(Message(SetInt8, [Int8ToByte(value)]));
      && f == [0xAA, 0x02, Int8ToByte(value), Xor([0xAA, 0x02, Int8ToByte(value)])]
  {
    var g := Encode(Message(SetInt8, [Int8ToByte(value)]));
    assert g[..3] == [0xAA, 0x02, Int8ToByte(value)];
  }

  /** `create_twist_message`'s frame: header, command, linear, angular, checksum. */
  lemma TwistLayout(twist: TwistData)
    ensures var f := Encode(Message(SetTwist, TwistPayload(twist)));
      && |f| == 15 && f[0] == 0xAA && f[1] == 0x03
      && DeserializeVector3(f[2..8]) == twist.linear
      && DeserializeVector3(f[8..14]) == twist.angular
      && f[14] == Xor(f[..14])
  {
    var lin, ang := SerializeVector3(twist.linear), SerializeVector3(twist.angular);
    var head := [MSG_HEADER, SetTwist.Id()] + (lin + ang);
    var t := Encode(Message(SetTwist, lin + ang));
    assert t == head + [Xor(head)];
    assert t[2..8] == lin by { assert forall k | 0 <= k < 6 :: t[2 + k] == lin[k]; }
    assert t[8..14] == ang by { assert forall k | 0 <= k < 6 :: t[8 + k] == ang[k]; }
    Vector3RoundTrip(twist.linear);
    Vector3RoundTrip(twist.angular);
  }

  // ---------------------------------------------------------------------------
  // Parsing encoded frames

  /** No header byte anywhere in `s`. */
  predicate HeaderFree(s: seq<byte>)
  {
    forall j | 0 <= j < |s| :: s[j] != MSG_HEADER
  }

  /** After a header-free prefix, the first header is where the frame starts. */
  lemma FirstHeaderAfterPrefix(prefix: seq<byte>, rest: seq<byte>)
    requires HeaderFree(prefix)
    requires |rest| > 0 && rest[0] == MSG_HEADER
    ensures FirstHeader(prefix + rest, 0) == Some(|prefix|)
  {
    var buf := prefix + rest;
    assert buf[|prefix|] == MSG_HEADER;
    assert forall j | 0 <= j < |prefix| :: buf[j] != MSG_HEADER by {
      forall j | 0 <= j < |prefix| ensures buf[j] != MSG_HEADER {
        assert buf[j] == prefix[j];
      }
    }
  }

  /** Frame length: header, command, the length byte if any, payload and checksum. */
  lemma EncodeLength(m: Message)
    requires WellFormed(m)
    ensures |Encode(m)| == 3 + (if m.commandId == SetString then 1 else 0) + |m.payload|
  {
  }

  /** A slice of a window `w` lying at `h` in `buf` is the same slice of `buf`, shifted by `h`. */
  lemma WindowSlice(buf: seq<byte>, h: nat, w: seq<byte>, a: nat, b: nat)
    requires h + |w| <= |buf| && buf[h .. h + |w|] == w && a <= b <= |w|
    ensures buf[h + a .. h + b] == w[a..b]
  {
    forall k | 0 <= k < b - a
      ensures buf[h + a .. h + b][k] == w[a..b][k]
    {
      assert buf[h .. h + |w|][a + k] == buf[h + a + k];
    }
  }

  /** `ParseCommand` on bytes laid out as a frame of `cmd` with `payload` and a matching checksum. */
  lemma ParseCommandOnFrame(buf: seq<byte>, h: nat, cmd: CommandId, payload: seq<byte>, lengthField: nat, total: nat)
    requires WellFormed(Message(cmd, payload))
    requires lengthField == (if Shape(cmd).LengthPrefixed? then 1 else 0) && total == 3 + lengthField + |payload|
    requires h + total <= |buf|
    requires Shape(cmd).LengthPrefixed? ==> buf[h + 2] as nat == |payload|
    requires buf[h + 2 + lengthField .. h + total - 1] == payload
    requires buf[h + total - 1] == Xor(buf[h .. h + total - 1])
    ensures h + 3 <= |buf| && ParseCommand(buf, h, cmd) == Parsed(Message(cmd, payload), h + total)
  {
  }

  /** Where the payload, the length byte and the checksum sit in an encoded frame. */
  lemma EncodeLayout(m: Message)
    requires WellFormed(m)
    ensures var f := Encode(m);
      var lengthField := if Shape(m.commandId).LengthPrefixed? then 1 else 0;
      && f[2 + lengthField .. |f| - 1] == m.payload
      && (lengthField == 1 ==> f[2] as nat == |m.payload|)
      && f[|f| - 1] == Xor(f[..|f| - 1])
  {
    var f := Encode(m);
    var body := Body(m);
    var head := [MSG_HEADER, m.commandId.Id()] + body;
    assert f == head + [Xor(head)];
    assert f[..|f| - 1] == head;
    assert f[2 .. |f| - 1] == body;
    if Shape(m.commandId).LengthPrefixed? {
      assert body == [|m.payload| as byte] + m.payload;
      assert f[3 .. |f| - 1] == body[1..];
    }
  }

  /** A frame's checksum byte still matches the bytes before it once the frame lies at `h` in `buf`. */
  lemma ChecksumInWindow(buf: seq<byte>, h: nat, w: seq<byte>)
    requires h + |w| <= |buf| && buf[h .. h + |w|] == w
    requires |w| >= 1 && w[|w| - 1] == Xor(w[..|w| - 1])
    ensures buf[h + |w| - 1] == Xor(buf[h .. h + |w| - 1])
  {
    WindowSlice(buf, h, w, 0, |w| - 1);
    assert w[0 .. |w| - 1] == w[..|w| - 1];
    assert buf[h + |w| - 1] == buf[h .. h + |w|][|w| - 1];
  }

  /** Bytes `f` laid out as a frame of `cmd` and `payload`, found at `h`, parse back to that message. */
  lemma FrameBytesAt(buf: seq<byte>, h: nat, f: seq<byte>, cmd: CommandId, payload: seq<byte>, lengthField: nat)
    requires WellFormed(Message(cmd, payload))
    requires lengthField == (if Shape(cmd).LengthPrefixed? then 1 else 0) && |f| == 3 + lengthField + |payload|
    requires lengthField == 1 ==> f[2] as nat == |payload|
    requires f[2 + lengthField .. |f| - 1] == payload && f[|f| - 1] == Xor(f[..|f| - 1])
    requires h + |f| <= |buf| && buf[h .. h + |f|] == f
    ensures h + 3 <= |buf| && buf[h] == f[0] && buf[h + 1] == f[1]
    ensures ParseCommand(buf, h, cmd) == Parsed(Message(cmd, payload), h + |f|)
  {
    var total := |f|;
    assert buf[h] == f[0] && buf[h + 1] == f[1] by {
      assert buf[h .. h + total][0] == buf[h] && buf[h .. h + total][1] == buf[h + 1];
    }
    assert lengthField == 1 ==> buf[h + 2] as nat == |payload| by {
      assert buf[h .. h + total][2] == buf[h + 2];
    }
    assert buf[h + total - 1] == Xor(buf[h .. h + total - 1]) by {
      ChecksumInWindow(buf, h, f);
    }
    assert buf[h + 2 + lengthField .. h + total - 1] == payload by {
      WindowSlice(buf, h, f, 2 + lengthField, total - 1);
    }
    ParseCommandOnFrame(buf, h, cmd, payload, lengthField, total);
  }

  /** A well-formed frame found at `h` parses back to its message and is consumed whole. */
  lemma FrameAt(buf: seq<byte>, h: nat, m: Message)
    requires WellFormed(m) && h + |Encode(m)| <= |buf| && buf[h .. h + |Encode(m)|] == Encode(m)
    ensures h + 3 <= |buf| && buf[h] == MSG_HEADER && buf[h + 1] == m.commandId.Id()
    ensures ParseCommand(buf, h, m.commandId) == Parsed(m, h + |Encode(m)|)
  {
    EncodeLayout(m);
    FrameBytesAt(buf, h, Encode(m), m.commandId, m.payload, if Shape(m.commandId).LengthPrefixed? then 1 else 0);
  }

  /**
   * Round trip: after junk that holds no header byte, an encoded message is
   * parsed back exactly and the whole frame is consumed, whatever follows it.
   */
  lemma ParseEncoded(prefix: seq<byte>, m: Message, suffix: seq<byte>)
    requires WellFormed(m) && HeaderFree(prefix)
    ensures Parse(prefix + Encode(m) + suffix) == Parsed(m, |prefix| + |Encode(m)|)
  {
    var f := Encode(m);
    var buf := prefix + f + suffix;
    var h := |prefix|;
    assert buf == prefix + (f + suffix);
    assert f[0] == MSG_HEADER;
    FirstHeaderAfterPrefix(prefix, f + suffix);
    assert buf[h .. h + |f|] == f;
    FrameAt(buf, h, m);
    CommandIdRoundTrip(m.commandId);
  }

  /** An encoded message on its own parses back, consuming the whole frame. */
  lemma ParseEncodedAlone(m: Message)
    requires WellFormed(m)
    ensures Parse(Encode(m)) == Parsed(m, |Encode(m)|)
  {
    var f := Encode(m);
    assert FirstHeader(f, 0) == Some(0);
    assert f[0 .. |f|] == f;
    FrameAt(f, 0, m);
    CommandIdRoundTrip(m.commandId);
  }

  /** `create_string_message` then the parser gives the string back. */
  lemma StringRoundTrip(str: seq<byte>)
    requires |str| <= 255
    ensures Parse(Encode(Message(SetString, str))) == Parsed(Message(SetString, str), |str| + 4)
  {
    ParseEncodedAlone(Message(SetString, str));
  }

  /** `create_int8_message` then the parser gives the byte of the value back. */
  lemma Int8MessageRoundTrip(value: int8)
    ensures Parse(Encode(Message(SetInt8, [Int8ToByte(value)]))) == Parsed(Message(SetInt8, [Int8ToByte(value)]), 4)
  {
    ParseEncodedAlone(Message(SetInt8, [Int8ToByte(value)]));
  }

  /** `create_twist_message` then the parser and the vector decoder give the twist back. */
  lemma TwistRoundTrip(twist: TwistData)
    ensures var r := Parse(Encode(Message(SetTwist, TwistPayload(twist))));
      && r.Parsed? && r.consumed == 15 && r.message.commandId == SetTwist
      && DeserializeVector3(r.message.payload[0..6]) == twist.linear
      && DeserializeVector3(r.message.payload[6..12]) == twist.angular
  {
    ParseEncodedAlone(Message(SetTwist, TwistPayload(twist)));
    TwistPayloadRoundTrip(twist);
  }

  /** The two vectors read back from a twist payload are the twist's. */
  lemma TwistPayloadRoundTrip(twist: TwistData)
    ensures DeserializeVector3(TwistPayload(twist)[0..6]) == twist.linear
    ensures DeserializeVector3(TwistPayload(twist)[6..12]) == twist.angular
  {
    var p := TwistPayload(twist);
    assert p[0..6] == SerializeVector3(twist.linear);
    assert p[6..12] == SerializeVector3(twist.angular);
    Vector3RoundTrip(twist.linear);
    Vector3RoundTrip(twist.angular);
  }

  /** A frame the parser accepts at `h` is the encoding of the message it reports. */
  lemma ParsedCommandIsEncoded(buf: seq<byte>, h: nat, cmd: CommandId)
    requires h + 3 <= |buf| && buf[h] == MSG_HEADER && buf[h + 1] == cmd.Id()
    requires ParseCommand(buf, h, cmd).Parsed?
    ensures var r := ParseCommand(buf, h, cmd);
      && WellFormed(r.message)
      && h + |Encode(r.message)| == r.consumed
      && buf[h .. r.consumed] == Encode(r.message)
  {
    var r := ParseCommand(buf, h, cmd);
    var m := r.message;
    var variable := Shape(cmd).LengthPrefixed?;
    var lengthField := if variable then 1 else 0;
    var total := r.consumed - h;
    assert m.payload == buf[h + 2 + lengthField .. h + total - 1];
    assert WellFormed(m);
    var head := [MSG_HEADER, cmd.Id()] + Body(m);
    assert buf[h .. h + total - 1] == head;
    assert buf[h .. h + total] == buf[h .. h + total - 1] + [buf[h + total - 1]];
  }

  /** Decoding the other way: a successful parse consumed exactly an encoded frame. */
  lemma ParsedIsEncoded(buf: seq<byte>)
    requires Parse(buf).Parsed?
    ensures var r := Parse(buf);
      && WellFormed(r.message)
      && |Encode(r.message)| <= r.consumed
      && buf[r.consumed - |Encode(r.message)| .. r.consumed] == Encode(r.message)
      && HeaderFree(buf[..r.consumed - |Encode(r.message)|])
  {
    var h := FirstHeader(buf, 0).value;
    var cmd := CommandFromByte(buf[h + 1]).value;
    assert Parse(buf) == ParseFrom(buf, h) == ParseCommand(buf, h, cmd);
    ParsedCommandIsEncoded(buf, h, cmd);
  }

  /**
   * A frame cut short after `k` bytes is INCOMPLETE. The count consumed
   * points at the frame start except with one or two bytes available (the
   * header is consumed) and for a string with exactly three (the header and
   * command are consumed).
   */
  lemma ParseTruncated(prefix: seq<byte>, m: Message, k: nat)
    requires WellFormed(m) && HeaderFree(prefix)
    requires k < |Encode(m)|
    ensures Parse(prefix + Encode(m)[..k]) == Failed(Incomplete,
      |prefix| + (if k == 1 || k == 2 then 1 else if k == 3 && m.commandId == SetString then 2 else 0))
  {
    var f := Encode(m);
    var buf := prefix + f[..k];
    var h := |prefix|;
    var head := [MSG_HEADER, m.commandId.Id()] + Body(m);
    assert f == head + [Xor(head)];
    if k == 0 {
      assert buf == prefix;
      assert FirstHeader(buf, 0).None?;
    } else {
      FirstHeaderAfterPrefix(prefix, f[..k]);
      if k >= 3 {
        assert buf[h + 1] == m.commandId.Id();
        CommandIdRoundTrip(m.commandId);
        if Shape(m.commandId).LengthPrefixed? && k >= 4 {
          assert buf[h + 2] as int == |m.payload|;
        }
      }
    }
  }

  /**
   * Corrupting any payload byte or the checksum byte of a frame makes the
   * parser report BAD_CHECKSUM and still consume the whole frame.
   */
  lemma ParseCorrupted(m: Message, i: nat, mask: byte)
    requires WellFormed(m) && mask != 0
    requires |Encode(m)| - 1 - |m.payload| <= i < |Encode(m)|
    ensures Parse(Encode(m)[i := Xor8(Encode(m)[i], mask)]) == Failed(BadChecksum, |Encode(m)|)
  {
    var f := Encode(m);
    var g := f[i := Xor8(f[i], mask)];
    var head := [MSG_HEADER, m.commandId.Id()] + Body(m);
    assert f == head + [Xor(head)];
    var n := |f|;
    assert g[0] == MSG_HEADER;
    assert FirstHeader(g, 0) == Some(0);
    CommandIdRoundTrip(m.commandId);
    assert g[1] == m.commandId.Id();
    if Shape(m.commandId).LengthPrefixed? {
      assert g[2] as int == |m.payload|;
    }
    if i == n - 1 {
      assert g[..n - 1] == head;
      assert g[n - 1] == Xor8(Xor(head), mask);
      Xor8Changes(Xor(head), mask);
    } else {
      assert g[..n - 1] == head[i := Xor8(head[i], mask)];
      XorFlip(head, i, mask);
      Xor8Changes(Xor(head), mask);
      assert g[n - 1] == Xor(head);
    }
    assert g[0 .. n - 1] == g[..n - 1];
  }

  /**
   * A header followed by an unknown command byte and at least one more byte
   * is UNKNOWN_CMD, consuming the header and the command byte.
   */
  lemma ParseUnknownCommand(prefix: seq<byte>, cmd: byte, rest: seq<byte>)
    requires HeaderFree(prefix) && CommandFromByte(cmd).None? && |rest| >= 1
    ensures Parse(prefix + [MSG_HEADER, cmd] + rest) == Failed(UnknownCmd, |prefix| + 2)
  {
    var buf := prefix + [MSG_HEADER, cmd] + rest;
    assert buf == prefix + ([MSG_HEADER, cmd] + rest);
    FirstHeaderAfterPrefix(prefix, [MSG_HEADER, cmd] + rest);
    assert buf[|prefix| + 1] == cmd;
  }

  /** A buffer with no header byte is INCOMPLETE and may be dropped entirely. */
  lemma ParseNoHeader(buf: seq<byte>)
    requires HeaderFree(buf)
    ensures Parse(buf) == Failed(Incomplete, |buf|)
  {
  }

  /**
   * The parser reports only success, INCOMPLETE, UNKNOWN_CMD or BAD_CHECKSUM;
   * BAD_HEADER in particular is never returned.
   */
  lemma ParseOutcomes(buf: seq<byte>)
    ensures Parse(buf).Status() in {MsgSuccess, Incomplete, UnknownCmd, BadChecksum}
  {
  }

  /** The int8 frame carrying 7: its checksum is 0xAA ^ 0x02 ^ 0x07 == 0xAF. */
  lemma Int8SevenFrame()
    ensures Encode(Message(SetInt8, [0x07])) == [0xAA, 0x02, 0x07, 0xAF]
  {
    var head: seq<byte> := [0xAA, 0x02, 0x07];
    assert head[..2] == [0xAA, 0x02];
    assert head[..2][..1] == [0xAA];
    assert head[..2][..1][..0] == [];
    XorSevenSteps();
    assert Xor(head[..2][..1]) == 0xAA;
    assert Xor(head[..2]) == 0xA8;
    assert Xor(head) == 0xAF;
  }

  /** The three XOR steps of the int8 frame carrying 7. */
  lemma XorSevenSteps()
    ensures Xor8(0, 0xAA) == 0xAA && Xor8(0xAA, 0x02) == 0xA8 && Xor8(0xA8, 0x07) == 0xAF
  {
    Xor8Laws(0xAA, 0, 0);
    XorStep1();
    XorStep2();
  }

  lemma XorStep1()
    ensures Xor8(0xAA, 0x02) == 0xA8
  {
  }

  lemma XorStep2()
    ensures Xor8(0xA8, 0x07) == 0xAF
  {
    BitXorZero(21);
    assert BitXor(42, 1) == 2 * BitXor(21, 0) + 1 == 43;
    assert BitXor(84, 3) == 2 * BitXor(42, 1) + 1 == 87;
    assert BitXor(168, 7) == 2 * BitXor(84, 3) + 1 == 175;
  }

  /** The garbage-prefix example: two junk bytes, then an int8 frame carrying 7. */
  lemma GarbagePrefixExample()
    ensures Parse([0x00, 0x00, 0xAA, 0x02, 0x07, 0xAF]) == Parsed(Message(SetInt8, [0x07]), 6)
  {
    var m := Message(SetInt8, [0x07]);
    Int8SevenFrame();
    ParseEncoded([0x00, 0x00], m, []);
    assert [0x00, 0x00] + Encode(m) + [] == [0x00, 0x00, 0xAA, 0x02, 0x07, 0xAF];
  }
}
