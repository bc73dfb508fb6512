/**
 The wire format of one message inside one UDP datagram: the magic byte 80
 ('P'), the topic, a NUL, then the payload up to the datagram's end. The
 length is implied by the datagram boundary and must lie strictly between
 2 and 1500.
 */
module Frame {
  import opened CStrings
  import opened Wrappers

  /** The magic byte that opens every frame. */
  const MAGIC: byte := 80

  /** Datagram lengths must be strictly above this... */
  const MIN_LENGTH_EXCLUSIVE: nat := 2

  /** ...and strictly below this. */
  const MAX_LENGTH_EXCLUSIVE: nat := 1500

  /** size_t on the supported 32-bit boards wraps modulo 2^32. */
  const SIZE_MODULUS: nat := 0x1_0000_0000

  /** Why a datagram is not a frame. */
  datatype FrameError = TooShort | TooLong | BadMagic | UnterminatedTopic

  /** A decoded frame. */
  datatype Message = Message(topic: seq<Char8>, payload: seq<byte>)

  /** The topic octets `begin_publish` writes: its do-while writes every
      character up to and including the terminating NUL, once. */
  function TopicBytes(topic: seq<Char8>): (b: seq<byte>)
    ensures |b| >= 1 && b[|b| - 1] == 0
    ensures forall i :: 0 <= i < |b| - 1 ==> b[i] != 0
    ensures NulFree(topic) ==> b == BytesOf(topic) + [0]
    decreases |topic|
  {
    if Peek(topic) == '\0' then [0]
    else [topic[0] as int] + TopicBytes(topic[1..])
  }

  /** The frame header: magic byte, topic, NUL. */
  function Header(topic: seq<Char8>): seq<byte>
  {
    [MAGIC] + TopicBytes(topic)
  }

  /** The whole datagram a publish of `payload` to `topic` sends. */
  function Encode(topic: seq<Char8>, payload: seq<byte>): seq<byte>
  {
    Header(topic) + payload
  }

  /** The validation block of the receive loop, as a decoder. */
  function Decode(d: seq<byte>): Result<Message, FrameError>
  {
    if |d| <= MIN_LENGTH_EXCLUSIVE || |d| >= MAX_LENGTH_EXCLUSIVE then
      Failure(if |d| <= MIN_LENGTH_EXCLUSIVE then TooShort else TooLong)
    else if d[0] != MAGIC then
      Failure(BadMagic)
    else
      var topicLen := CLen(d[1..]);
      if topicLen + 2 > |d| then
        Failure(UnterminatedTopic)
      else
        Success(Message(CharsOf(d[1..1 + topicLen]), d[topicLen + 2..]))
  }

  /** Each rejection arises exactly in its own case, checked in the order
      length, magic byte, terminator; an accepted datagram holds the topic,
      its NUL and then the payload, to the end. */
  lemma DecodeChecks(d: seq<byte>)
    ensures |d| <= 2 ==> Decode(d) == Failure(TooShort)
    ensures 2 < |d| && |d| >= 1500 ==> Decode(d) == Failure(TooLong)
    ensures 2 < |d| < 1500 && d[0] != 80 ==> Decode(d) == Failure(BadMagic)
    ensures 2 < |d| < 1500 && d[0] == 80 ==> (Decode(d) == Failure(UnterminatedTopic) <==> 0 !in d[1..])
    ensures Decode(d).Success? <==> 2 < |d| < 1500 && d[0] == 80 && 0 in d[1..]
    ensures Decode(d).Success? ==>
      var m := Decode(d).value;
      NulFree(m.topic) &&
      1 + |m.topic| < |d| &&
      d[1 + |m.topic|] == 0 &&
      BytesOf(m.topic) == d[1..1 + |m.topic|] &&
      m.payload == d[|m.topic| + 2..] &&
      |m.payload| == |d| - |m.topic| - 2
  {
    if 2 < |d| < 1500 && d[0] == 80 && 0 in d[1..] {
      var k :| 0 <= k < |d[1..]| && d[1..][k] == 0;
      assert CLen(d[1..]) <= k;
    }
  }

  /** The decoder of src/picomq.h, the header-only version of the library.
      It differs only in writing the terminator check as
      `topic_len > packet_size - 2`; the subtraction is taken modulo 2^32. */
  function DraftDecode(d: seq<byte>): Result<Message, FrameError>
  {
    if |d| <= MIN_LENGTH_EXCLUSIVE || |d| >= MAX_LENGTH_EXCLUSIVE then
      Failure(if |d| <= MIN_LENGTH_EXCLUSIVE then TooShort else TooLong)
    else if d[0] != MAGIC then
      Failure(BadMagic)
    else
      var topicLen := CLen(d[1..]);
      if topicLen > (|d| - 2) % SIZE_MODULUS then
        Failure(UnterminatedTopic)
      else
        Success(Message(CharsOf(d[1..1 + topicLen]), d[topicLen + 2..]))
  }
}

/** What the codec promises across encode and decode. */
module FrameLaws {
  import opened CStrings
  import opened Wrappers
  import opened Frame

  /** A header is the magic byte, the topic's octets and one NUL; the NUL
      closing the header is its only zero byte. */
  lemma HeaderLayout(topic: seq<Char8>)
    requires NulFree(topic)
    ensures Header(topic) == [MAGIC] + BytesOf(topic) + [0]
    ensures forall i :: 0 <= i < |Header(topic)| ==> (Header(topic)[i] == 0 <==> i == |topic| + 1)
  {
  }

  /** Decoding what a publish sends gives back its topic and payload,
      whenever the datagram has a length the receiver accepts. */
  lemma DecodeEncode(topic: seq<Char8>, payload: seq<byte>)
    requires NulFree(topic)
    requires 1 <= |topic| + |payload| < MAX_LENGTH_EXCLUSIVE - 2
    ensures Decode(Encode(topic, payload)) == Success(Message(topic, payload))
  {
    var d := Encode(topic, payload);
    HeaderLayout(topic);
    assert d[1..] == BytesOf(topic) + [0] + payload;
    assert CLen(d[1..]) == |topic| by {
      assert d[1..][|topic|] == 0;
      assert forall i :: 0 <= i < |topic| ==> d[1..][i] == BytesOf(topic)[i];
    }
    assert d[1..1 + |topic|] == BytesOf(topic);
    CharsOfBytesOf(topic);
    assert d[|topic| + 2..] == payload;
  }

  /** A publish is decodable exactly when its datagram length is in range:
      an empty topic with an empty payload is too short, and a datagram of
      1500 bytes or more too long. */
  lemma EncodeDecodable(topic: seq<Char8>, payload: seq<byte>)
    requires NulFree(topic)
    ensures |topic| + |payload| == 0 ==> Decode(Encode(topic, payload)) == Failure(TooShort)
    ensures |topic| + |payload| >= MAX_LENGTH_EXCLUSIVE - 2 ==>
      Decode(Encode(topic, payload)) == Failure(TooLong)
    ensures Decode(Encode(topic, payload)).Success? <==>
      1 <= |topic| + |payload| < MAX_LENGTH_EXCLUSIVE - 2
  {
    HeaderLayout(topic);
    if 1 <= |topic| + |payload| < MAX_LENGTH_EXCLUSIVE - 2 {
      DecodeEncode(topic, payload);
    }
  }

  /** Every datagram the decoder accepts is exactly the encoding of what it
      returned: decode is a left inverse of encode. */
  lemma EncodeDecode(d: seq<byte>)
    requires Decode(d).Success?
    ensures Encode(Decode(d).value.topic, Decode(d).value.payload) == d
  {
    var m := Decode(d).value;
    DecodeChecks(d);
    HeaderLayout(m.topic);
    FrameParts(d, BytesOf(m.topic), m.payload);
  }

  /** A datagram is its magic byte, its topic octets, a NUL and the rest. */
  lemma FrameParts(d: seq<byte>, topic: seq<byte>, payload: seq<byte>)
    requires 1 + |topic| < |d| && d[0] == MAGIC && d[1 + |topic|] == 0
    requires topic == d[1..1 + |topic|] && payload == d[|topic| + 2..]
    ensures [MAGIC] + topic + [0] + payload == d
  {
    assert d == [d[0]] + d[1..1 + |topic|] + [d[1 + |topic|]] + d[|topic| + 2..];
  }

  /** The header-only version's terminator check `topic_len > packet_size - 2`
      rejects the same datagrams as `topic_len + 2 > packet_size`. It only runs
      once 2 < `packet_size` < 1500 is known, so the subtraction cannot wrap,
      whether `packet_size` is unsigned or a plain `int`. */
  lemma DraftDecodeAgrees(d: seq<byte>)
    ensures DraftDecode(d) == Decode(d)
  {
  }
}
