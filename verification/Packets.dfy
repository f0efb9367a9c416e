/** What the encoders build and the decoders take apart.

    An encoder writes its first byte, leaves four bytes for the Remaining Length,
    appends the fields of the body, and then closes the gap in place. `Encoding`
    gives the whole buffer it leaves behind, also when it fails half way. */
module Packets {
  import opened Bytes
  import opened Statuses
  import H = FixedHeader
  import RL = RemainingLength

  datatype Message = Message(topic: seq<byte>, payload: seq<byte>)

  const RESERVED := 4
  const BODY_START := 5

  const CONNECT_BYTE := 0x10
  const PUBLISH_BYTE := 0x30
  const SUBSCRIBE_BYTE := 0x82
  const PINGREQ_BYTE := 0xC0

  // ----- the packets of the standard -----

  function Packet(first: byte, body: seq<byte>): seq<byte> {
    [first] + RL.Encode(|body|) + body
  }

  /** A string field: a 16-bit length, which longer strings overflow, and the bytes. */
  function Utf8(str: seq<byte>): seq<byte> {
    BigEndian16(|str|) + str
  }

  function PublishFields(m: Message): seq<seq<byte>> {
    [Utf8(m.topic), m.payload]
  }

  function ConnectFields(clientId: seq<byte>, keepAlive: u16): seq<seq<byte>> {
    [Utf8(['M' as int, 'Q' as int, 'T' as int, 'T' as int]), [4], [2], BigEndian16(keepAlive), Utf8(clientId)]
  }

  function SubscribeFields(packetId: u16, topic: seq<byte>): seq<seq<byte>> {
    [BigEndian16(packetId), Utf8(topic), [0]]
  }

  function PublishPacket(m: Message): seq<byte> {
    Packet(PUBLISH_BYTE, Utf8(m.topic) + m.payload)
  }

  function ConnectPacket(keepAlive: u16): seq<byte> {
    Packet(CONNECT_BYTE, Concat(ConnectFields([], keepAlive)))
  }

  function SubscribePacket(packetId: u16, topic: seq<byte>): seq<byte> {
    Packet(SUBSCRIBE_BYTE, Concat(SubscribeFields(packetId, topic)))
  }

  const PINGREQ_PACKET: seq<byte> := [PINGREQ_BYTE, 0]

  // ----- encoding into a buffer -----

  datatype Filled = Filled(ok: bool, buf: seq<byte>, end: nat)

  /** Appends fields from `off` on, stopping at the first that does not fit. */
  function PutFields(buf: seq<byte>, off: nat, fields: seq<seq<byte>>): (r: Filled)
    requires off <= |buf|
    ensures |r.buf| == |buf| && off <= r.end <= |buf|
    decreases |fields|
  {
    if fields == [] then Filled(true, buf, off)
    else if off + |fields[0]| > |buf| then Filled(false, buf, off)
    else PutFields(Splice(buf, off, fields[0]), off + |fields[0]|, fields[1..])
  }

  datatype Encoded = Encoded(status: Status, buf: seq<byte>, outLen: nat)

  /** Computes the length as a 32-bit value and moves the body down over what is left
      of the reserved bytes. */
  function ClosePacket(buf: seq<byte>, end: nat): (r: Encoded)
    requires BODY_START <= end <= |buf|
    ensures |r.buf| == |buf| && r.outLen <= |buf|
  {
    var rl := (end - BODY_START) % U32_SIZE;
    var digits := RL.Encode(rl);
    if |digits| > RESERVED then Encoded(TOO_SMALL, buf, 0)
    else
      var moved := Splice(buf, 1 + |digits|, buf[BODY_START..BODY_START + rl]);
      Encoded(OK, Splice(moved, 1, digits), 1 + |digits| + rl)
  }

  function Encoding(buf: seq<byte>, first: byte, fields: seq<seq<byte>>): (r: Encoded)
    ensures |r.buf| == |buf| && r.outLen <= |buf|
  {
    if |buf| < 1 then Encoded(TOO_SMALL, buf, 0)
    else
      var started := Splice(buf, 0, [first]);
      if |buf| < BODY_START then Encoded(TOO_SMALL, started, 0)
      else
        var body := PutFields(started, BODY_START, fields);
        if !body.ok then Encoded(TOO_SMALL, body.buf, 0) else ClosePacket(body.buf, body.end)
  }

  function EncodingPingreq(buf: seq<byte>): (r: Encoded)
    ensures |r.buf| == |buf| && r.outLen <= |buf|
  {
    if |buf| < 2 then Encoded(TOO_SMALL, buf, 0) else Encoded(OK, Splice(buf, 0, PINGREQ_PACKET), 2)
  }

  // ----- what the encodings mean -----

  lemma {:induction false} PutFieldsFills(buf: seq<byte>, off: nat, fields: seq<seq<byte>>)
    requires off <= |buf|
    ensures var r := PutFields(buf, off, fields);
            && (r.ok <==> off + |Concat(fields)| <= |buf|)
            && (r.ok ==> r.end == off + |Concat(fields)| && r.buf == Splice(buf, off, Concat(fields)))
    decreases |fields|
  {
    hide Splice;
    if fields == [] {
      SpliceSame(buf, off);
    } else if off + |fields[0]| <= |buf| {
      PutFieldsFills(Splice(buf, off, fields[0]), off + |fields[0]|, fields[1..]);
      if off + |Concat(fields)| <= |buf| {
        SpliceTwice(buf, off, fields[0], Concat(fields[1..]));
      }
    }
  }

  lemma SpliceTwice(buf: seq<byte>, off: nat, a: seq<byte>, b: seq<byte>)
    requires off + |a| + |b| <= |buf|
    ensures Splice(Splice(buf, off, a), off + |a|, b) == Splice(buf, off, a + b)
  {
  }

  lemma {:induction false} PutFieldsBehind(buf: seq<byte>, off: nat, fields: seq<seq<byte>>)
    requires off <= |buf|
    ensures forall i :: 0 <= i < off ==> PutFields(buf, off, fields).buf[i] == buf[i]
    decreases |fields|
  {
    if fields != [] && off + |fields[0]| <= |buf| {
      PutFieldsBehind(Splice(buf, off, fields[0]), off + |fields[0]|, fields[1..]);
    }
  }

  /** Exact capacity and exact output: the five bytes of slack are what the reserved
      gap costs, the length is taken modulo 2^32, and the moved body is intact. */
  lemma EncodingExact(buf: seq<byte>, first: byte, fields: seq<seq<byte>>)
    ensures var body := Concat(fields); var r := Encoding(buf, first, fields);
            && r.status == (if BODY_START + |body| <= |buf| && |body| % U32_SIZE <= RL.MAX then OK else TOO_SMALL)
            && (r.status == OK ==> r.buf[..r.outLen] == Packet(first, body[..|body| % U32_SIZE]))
            && (r.status == OK ==> r.outLen <= BODY_START + |body|)
            && (|buf| > 0 ==> r.buf[0] == first)
  {
    hide Concat, RL.Encode;
    if |buf| >= 1 {
      var body := Concat(fields);
      var started := Splice(buf, 0, [first]);
      if |buf| >= BODY_START {
        PutFieldsFills(started, BODY_START, fields);
        PutFieldsBehind(started, BODY_START, fields);
        var filled := PutFields(started, BODY_START, fields);
        assert filled.buf[0] == first;
        if filled.ok {
          var rl := |body| % U32_SIZE;
          RL.FitsFourBytes(rl);
          assert filled.buf[BODY_START..BODY_START + rl] == body[..rl];
          if rl <= RL.MAX {
            CloseExact(filled.buf, first, body);
          }
        }
      }
    }
  }

  lemma CloseExact(buf: seq<byte>, first: byte, body: seq<byte>)
    requires BODY_START + |body| <= |buf| && buf[0] == first
    requires var rl := |body| % U32_SIZE; rl <= RL.MAX && buf[BODY_START..BODY_START + rl] == body[..rl]
    ensures var r := ClosePacket(buf, BODY_START + |body|); var rl := |body| % U32_SIZE;
            && r.status == OK && r.outLen <= BODY_START + |body|
            && r.buf[..r.outLen] == Packet(first, body[..rl]) && r.buf[0] == first
  {
    var rl := |body| % U32_SIZE;
    var digits := RL.Encode(rl);
    RL.FitsFourBytes(rl);
    var moved := Splice(buf, 1 + |digits|, body[..rl]);
    var closed := Splice(moved, 1, digits);
    assert closed[..1 + |digits| + rl] == [first] + digits + body[..rl];
  }

  /** Bytes that are one packet: their own header says how long they are. */
  predicate Framed(p: seq<byte>) {
    H.Decode(p).Got? && H.Decode(p).value.PacketLength() == |p|
  }

  /** Every packet announces its type, flags and length, whatever comes behind it. */
  lemma PacketHeader(first: byte, body: seq<byte>, suffix: seq<byte>)
    requires |body| <= RL.MAX && H.FlagsValid(first / 16, first % 16)
    ensures H.Decode(Packet(first, body) + suffix)
         == Got(H.Header(first / 16, first % 16, |body|, |Packet(first, body)| - |body|))
  {
    RL.RoundTrip(|body|, body + suffix);
    assert (Packet(first, body) + suffix)[1..] == RL.Encode(|body|) + (body + suffix);
  }

  lemma PublishEncodes(buf: seq<byte>, m: Message)
    requires 2 + |m.topic| + |m.payload| <= RL.MAX
    ensures var e := Encoding(buf, PUBLISH_BYTE, PublishFields(m));
            e.status == OK ==> e.buf[..e.outLen] == PublishPacket(m)
  {
    hide Encoding, Concat, BigEndian16, RL.Encode;
    var body := Utf8(m.topic) + m.payload;
    ConcatTwo(Utf8(m.topic), m.payload);
    EncodingExact(buf, PUBLISH_BYTE, PublishFields(m));
    assert body[..|body|] == body;
  }

  lemma PublishMeaning(buf: seq<byte>, m: Message)
    ensures var e := Encoding(buf, PUBLISH_BYTE, PublishFields(m));
            2 + |m.topic| + |m.payload| <= RL.MAX ==>
              && (e.status == OK <==> BODY_START + 2 + |m.topic| + |m.payload| <= |buf|)
              && (e.status == OK ==> e.buf[..e.outLen] == PublishPacket(m))
  {
    hide Encoding, Concat, BigEndian16, RL.Encode;
    if 2 + |m.topic| + |m.payload| <= RL.MAX {
      PublishEncodes(buf, m);
      EncodingExact(buf, PUBLISH_BYTE, PublishFields(m));
      ConcatTwo(Utf8(m.topic), m.payload);
    }
  }

  lemma SubscribeEncodes(buf: seq<byte>, packetId: u16, topic: seq<byte>)
    requires 5 + |topic| <= RL.MAX
    ensures var e := Encoding(buf, SUBSCRIBE_BYTE, SubscribeFields(packetId, topic));
            e.status == OK ==> e.buf[..e.outLen] == SubscribePacket(packetId, topic)
  {
    hide Encoding, Concat, BigEndian16, RL.Encode;
    var body := Concat(SubscribeFields(packetId, topic));
    ConcatThree(BigEndian16(packetId), Utf8(topic), [0]);
    EncodingExact(buf, SUBSCRIBE_BYTE, SubscribeFields(packetId, topic));
    assert body[..|body|] == body;
  }

  /** Self-delimiting output: the header of whatever an encoder produces, decoded from
      the output alone, gives the right type and flags and the output's own length. */
  lemma EncodingFramed(buf: seq<byte>, first: byte, fields: seq<seq<byte>>)
    requires H.FlagsValid(first / 16, first % 16)
    requires Encoding(buf, first, fields).status == OK
    ensures var r := Encoding(buf, first, fields); var p := r.buf[..r.outLen];
            && Framed(p) && |p| > 0 && p[0] == first && r.outLen <= |buf|
            && H.Decode(p).value.kind == first / 16 && H.Decode(p).value.flags == first % 16
  {
    var body := Concat(fields);
    EncodingExact(buf, first, fields);
    var packet := Packet(first, body[..|body| % U32_SIZE]);
    PacketHeader(first, body[..|body| % U32_SIZE], []);
    assert packet + [] == packet;
  }

  /** The two bytes of PINGREQ, whatever stood in the buffer, decode as one. */
  lemma PingreqBytes(buf: seq<byte>)
    requires 2 <= |buf|
    ensures var e := EncodingPingreq(buf);
            && e.status == OK && e.outLen == 2 && e.buf == [0xC0, 0x00] + buf[2..]
            && H.Decode(e.buf) == Got(H.Header(12, 0, 0, 2))
  {
    var e := EncodingPingreq(buf);
    assert e.buf == [0xC0, 0x00] + buf[2..];
    RL.DecodeOne(e.buf[1..]);
    hide RL.Decode;
  }

  /** The body of CONNECT: name, level, flags, keepalive, empty identifier. */
  function ConnectBody(keepAlive: u16): (b: seq<byte>)
    ensures |b| == 12
  {
    [0, 4, 0x4D, 0x51, 0x54, 0x54, 4, 2, keepAlive / 256, keepAlive % 256, 0, 0]
  }

  /** The body is the fields, one after the other. */
  lemma ConnectPieces(keepAlive: u16)
    ensures var f := ConnectFields([], keepAlive); var b := ConnectBody(keepAlive);
            && Concat([]) == [] && Concat(f[..1]) == b[..6] && Concat(f[..2]) == b[..7]
            && Concat(f[..3]) == b[..8] && Concat(f[..4]) == b[..10] && Concat(f) == b
            && |f| == 5 && |f[0]| == 6 && |f[1]| == 1 && |f[2]| == 1 && |f[3]| == 2 && |f[4]| == 2
  {
    var f, b := ConnectFields([], keepAlive), ConnectBody(keepAlive);
    var none: seq<seq<byte>> := [];
    assert f[..1] == none + [f[0]] && f[..2] == f[..1] + [f[1]] && f[..3] == f[..2] + [f[2]];
    assert f[..4] == f[..3] + [f[3]] && f == f[..4] + [f[4]];
    ConcatSnoc(none, f[0]);
    ConcatSnoc(f[..1], f[1]);
    ConcatSnoc(f[..2], f[2]);
    ConcatSnoc(f[..3], f[3]);
    ConcatSnoc(f[..4], f[4]);
    assert BigEndian16(keepAlive) == [keepAlive / 256, keepAlive % 256];
    hide Concat, BigEndian16;
    assert f[0] == b[..6] && f[4] == [0, 0];
  }

  // ----- decoding -----

  function DecodePublish(buf: seq<byte>, h: H.Header): Decoded<Message> {
    if H.QosBits(h.flags) != 0 then Fail(Status(Protocol, Unsupported))
    else if h.PacketLength() > |buf| then Fail(TOO_SMALL)
    else if h.remaining < 2 then Fail(Status(Protocol, Malformed))
    else
      var topicLength := buf[h.size] as int * 256 + buf[h.size + 1] as int;
      if 2 + topicLength > h.remaining then Fail(Status(Protocol, Malformed))
      else
        var payloadStart := h.size + 2 + topicLength;
        Got(Message(buf[h.size + 2..payloadStart], buf[payloadStart..h.PacketLength()]))
  }

  /** Which PUBLISH packets are refused, and with what: any QoS above 0, which would carry an
      identifier, then a packet cut short, then a body that does not hold its topic. */
  lemma PublishRefusedExactly(buf: seq<byte>, h: H.Header)
    ensures var d := DecodePublish(buf, h); var n := h.size + h.remaining;
            && (d == Fail(Status(Protocol, Unsupported)) <==> h.flags / 2 % 4 in {1, 2, 3})
            && (d == Fail(Status(Protocol, BufferTooSmall)) <==> h.flags / 2 % 4 == 0 && |buf| < n)
            && (d == Fail(Status(Protocol, Malformed)) <==>
                  && h.flags / 2 % 4 == 0 && n <= |buf|
                  && !(2 <= h.remaining && 2 + (256 * buf[h.size] as int + buf[h.size + 1] as int) <= h.remaining))
            && (d.Fail? ==> d.status.code in {Unsupported, BufferTooSmall, Malformed})
  {
  }

  datatype Connack = Connack(sessionPresent: bool, returnCode: byte)

  /** Reads bytes 2 and 3 whatever the size of the header. */
  function DecodeConnack(buf: seq<byte>): Decoded<Connack> {
    if |buf| < 4 then Fail(TOO_SMALL) else Got(Connack(buf[2] % 2 == 1, buf[3]))
  }

  /** The four bytes of section 3.2 of MQTT 3.1.1 are read for what they say. */
  lemma ConnackRead(sessionPresent: bool, code: byte)
    ensures var connack := [0x20, 0x02, if sessionPresent then 1 else 0, code];
            && H.Decode(connack) == Got(H.Header(2, 0, 2, 2))
            && DecodeConnack(connack) == Got(Connack(sessionPresent, code))
  {
    var connack := [0x20, 0x02, if sessionPresent then 1 else 0, code];
    RL.DecodeOne(connack[1..]);
    hide RL.Decode;
  }

  /** A message whose packet carries all of it. */
  predicate Encodable(m: Message) {
    |m.topic| < U16_SIZE && 2 + |m.topic| + |m.payload| <= RL.MAX
  }

  lemma PublishLayout(head: seq<byte>, prefix: seq<byte>, rest: seq<byte>, cut: nat)
    requires |prefix| == 2 && cut <= |rest|
    ensures var p, n := head + prefix + rest, |head|;
            && p[n] == prefix[0] && p[n + 1] == prefix[1]
            && p[n + 2..n + 2 + cut] == rest[..cut] && p[n + 2 + cut..] == rest[cut..]
            && rest[..cut] + rest[cut..] == rest
  {
  }

  /** Behind any header, the decoder finds the topic that the 16-bit prefix announces. */
  lemma DecodePublishBody(head: seq<byte>, m: Message, h: H.Header)
    requires h.size == |head| && h.remaining == 2 + |m.topic| + |m.payload| && H.QosBits(h.flags) == 0
    ensures var d := DecodePublish(head + Utf8(m.topic) + m.payload, h);
            && d.Got? && |d.value.topic| == |m.topic| % U16_SIZE
            && d.value.topic + d.value.payload == m.topic + m.payload
  {
    hide BigEndian16, H.QosBits;
    var p, prefix, rest := head + Utf8(m.topic) + m.payload, BigEndian16(|m.topic|), m.topic + m.payload;
    var cut := |m.topic| % U16_SIZE;
    assert p == head + prefix + rest;
    PublishLayout(head, prefix, rest, cut);
    assert p[h.size + 2 + cut..h.PacketLength()] == p[h.size + 2 + cut..];
  }

  /** PUBLISH round trip, with anything behind the packet; it holds exactly for topics
      whose length fits the 16-bit prefix. */
  lemma PublishRoundTrip(m: Message, suffix: seq<byte>)
    requires 2 + |m.topic| + |m.payload| <= RL.MAX
    ensures H.Decode(PublishPacket(m) + suffix)
         == Got(H.Header(H.PUBLISH, 0, 2 + |m.topic| + |m.payload|,
                         |PublishPacket(m)| - (2 + |m.topic| + |m.payload|)))
    ensures DecodePublish(PublishPacket(m), H.Decode(PublishPacket(m) + suffix).value) == Got(m)
       <==> |m.topic| < U16_SIZE
  {
    hide H.Decode, DecodePublish, BigEndian16, RL.Encode;
    var body := Utf8(m.topic) + m.payload;
    var head := [PUBLISH_BYTE] + RL.Encode(|body|);
    PacketHeader(PUBLISH_BYTE, body, suffix);
    var h := H.Decode(PublishPacket(m) + suffix).value;
    assert PublishPacket(m) == head + Utf8(m.topic) + m.payload;
    DecodePublishBody(head, m, h);
    var d := DecodePublish(PublishPacket(m), h).value;
    if |m.topic| < U16_SIZE {
      assert d.topic == (d.topic + d.payload)[..|m.topic|] == m.topic;
      assert d.payload == (d.topic + d.payload)[|m.topic|..] == m.payload;
    }
  }

  /** PUBLISH through the buffer: if the encoder succeeds, then from what it left behind,
      stale bytes included, the decoders recover type, flags, length, topic and payload. */
  lemma PublishSurvivesCompaction(buf: seq<byte>, m: Message)
    requires 2 + |m.topic| + |m.payload| <= RL.MAX
    requires Encoding(buf, PUBLISH_BYTE, PublishFields(m)).status == OK
    ensures var e := Encoding(buf, PUBLISH_BYTE, PublishFields(m));
            && H.Decode(e.buf).Got?
            && var h := H.Decode(e.buf).value;
            && h.kind == H.PUBLISH && h.flags == 0 && h.PacketLength() == e.outLen
            && (DecodePublish(e.buf[..e.outLen], h) == Got(m) <==> |m.topic| < U16_SIZE)
  {
    hide Encoding, H.Decode, DecodePublish;
    var e := Encoding(buf, PUBLISH_BYTE, PublishFields(m));
    PublishEncodes(buf, m);
    PublishRoundTrip(m, e.buf[e.outLen..]);
    assert e.buf == PublishPacket(m) + e.buf[e.outLen..];
  }

  /** SUBSCRIBE as a broker reads it: identifier, topic filter and requested QoS stand
      where section 3.8 of MQTT 3.1.1 puts them, the filter in full exactly when its
      length fits the 16-bit prefix. */
  lemma SubscribeRoundTrip(packetId: u16, topic: seq<byte>, suffix: seq<byte>)
    requires 5 + |topic| <= RL.MAX
    ensures var p := SubscribePacket(packetId, topic);
            && H.Decode(p + suffix).Got?
            && var h := H.Decode(p + suffix).value; var n := h.size;
            && h.kind == H.SUBSCRIBE && h.flags == 2 && h.remaining == 5 + |topic| && h.PacketLength() == |p|
            && p[n] as int * 256 + p[n + 1] as int == packetId
            && p[n + 2] as int * 256 + p[n + 3] as int == |topic| % U16_SIZE
            && p[n + 4..n + 4 + |topic|] == topic && p[|p| - 1] == 0
  {
    hide H.Decode, BigEndian16, RL.Encode, Concat;
    var id, name := BigEndian16(packetId), BigEndian16(|topic|);
    var body := Concat(SubscribeFields(packetId, topic));
    ConcatThree(id, Utf8(topic), [0]);
    assert body == id + name + topic + [0] by {
      assert id + (name + topic + [0]) == id + name + topic + [0];
    }
    PacketHeader(SUBSCRIBE_BYTE, body, suffix);
    var p := SubscribePacket(packetId, topic);
    assert p == [SUBSCRIBE_BYTE] + RL.Encode(|body|) + (id + name + topic + [0]);
    SubscribeLayout([SUBSCRIBE_BYTE] + RL.Encode(|body|), id, name, topic);
  }

  lemma SubscribeLayout(head: seq<byte>, id: seq<byte>, name: seq<byte>, topic: seq<byte>)
    requires |id| == 2 && |name| == 2
    ensures var p, n := head + (id + name + topic + [0]), |head|;
            && p[n] == id[0] && p[n + 1] == id[1] && p[n + 2] == name[0] && p[n + 3] == name[1]
            && p[n + 4..n + 4 + |topic|] == topic && p[|p| - 1] == 0
  {
  }

  /** The return code field of a CONNACK follows the header and the session flags. */
  ghost predicate ReadsReturnCode(headerSize: nat) {
    forall buf :: H.Decode(buf).Got? && H.Decode(buf).value.kind == H.CONNACK
               && H.Decode(buf).value.size == headerSize && H.Decode(buf).value.remaining == 2
               && |buf| == headerSize + 2
      ==> DecodeConnack(buf).Got? && DecodeConnack(buf).value.returnCode == buf[headerSize + 1]
  }

  /** Two bytes of body, announced in headerSize - 1 digits. */
  function LongConnack(headerSize: nat, code: byte): seq<byte>
    requires 3 <= headerSize <= 5
  {
    [0x20, 0x82] + seq(headerSize - 3, _ => 0x80) + [0x00, 0x00, code]
  }

  lemma LongConnackDecodes(headerSize: nat, code: byte)
    requires 3 <= headerSize <= 5
    ensures H.Decode(LongConnack(headerSize, code)) == Got(H.Header(H.CONNACK, 0, 2, headerSize))
  {
    hide RL.Decode;
    RL.PaddedDigit(LongConnack(headerSize, code)[1..], headerSize - 2);
  }

  /** Bytes 2 and 3 are the right ones exactly behind a two-byte header; a CONNACK whose
      length is spelled with leading zero digits is misread. */
  lemma ReturnCodeReadExactly(headerSize: nat)
    requires 2 <= headerSize <= 5
    ensures ReadsReturnCode(headerSize) <==> headerSize == 2
  {
    if headerSize > 2 {
      LongConnackDecodes(headerSize, 5);
      var buf := LongConnack(headerSize, 5);
      assert DecodeConnack(buf).value.returnCode != buf[headerSize + 1];
    }
  }

  // ----- the encoders -----

  lemma OneField(buf: seq<byte>, off: nat, field: seq<byte>)
    requires off <= |buf|
    ensures PutFields(buf, off, [field])
         == if off + |field| > |buf| then Filled(false, buf, off)
            else Filled(true, Splice(buf, off, field), off + |field|)
  {
    assert [field][1..] == [];
  }

  method AppendByte(buf: array<byte>, offset: nat, value: byte) returns (status: Status, end: nat)
    requires offset <= buf.Length
    modifies buf
    ensures Filled(status == OK, buf[..], end) == PutFields(old(buf[..]), offset, [[value]])
    ensures status in {OK, TOO_SMALL}
  {
    OneField(buf[..], offset, [value]);
    if offset + 1 > buf.Length {
      return TOO_SMALL, offset;
    }
    buf[offset] := value;
    return OK, offset + 1;
  }

  method AppendUint16(buf: array<byte>, offset: nat, value: u16) returns (status: Status, end: nat)
    requires offset <= buf.Length
    modifies buf
    ensures Filled(status == OK, buf[..], end) == PutFields(old(buf[..]), offset, [BigEndian16(value)])
    ensures status in {OK, TOO_SMALL}
  {
    ghost var field := BigEndian16(value);
    OneField(buf[..], offset, field);
    if offset + 2 > buf.Length {
      return TOO_SMALL, offset;
    }
    buf[offset] := value / 256;
    buf[offset + 1] := value % 256;
    return OK, offset + 2;
  }

  method WriteUtf8(buf: array<byte>, offset: nat, str: CString) returns (status: Status, end: nat)
    requires offset <= buf.Length
    modifies buf
    ensures Filled(status == OK, buf[..], end) == PutFields(old(buf[..]), offset, [Utf8(str)])
    ensures status in {OK, TOO_SMALL}
  {
    ghost var before := buf[..];
    ghost var prefix := BigEndian16(|str|);
    assert prefix == [|str| / 256 % 256, |str| % 256];
    hide BigEndian16;
    OneField(before, offset, Utf8(str));
    if offset + 2 + |str| > buf.Length {
      return TOO_SMALL, offset;
    }
    buf[offset] := |str| / 256 % 256;
    buf[offset + 1] := |str| % 256;
    assert buf[..] == Splice(before, offset, prefix);
    Memcpy(buf, offset + 2, str);
    SpliceTwice(before, offset, prefix, str);
    return OK, offset + 2 + |str|;
  }

  method AppendPayload(buf: array<byte>, offset: nat, payload: seq<byte>) returns (status: Status, end: nat)
    requires offset <= buf.Length
    modifies buf
    ensures Filled(status == OK, buf[..], end) == PutFields(old(buf[..]), offset, [payload])
    ensures status in {OK, TOO_SMALL}
  {
    ghost var before := buf[..];
    OneField(before, offset, payload);
    if offset + |payload| > buf.Length {
      return TOO_SMALL, offset;
    }
    Memcpy(buf, offset, payload);
    return OK, offset + |payload|;
  }

  lemma {:induction false} PutFieldsSplit(buf: seq<byte>, off: nat, done: seq<seq<byte>>, rest: seq<seq<byte>>)
    requires off <= |buf|
    ensures var r := PutFields(buf, off, done);
            PutFields(buf, off, done + rest) == if r.ok then PutFields(r.buf, r.end, rest) else r
    decreases |done|
  {
    if done == [] {
      assert done + rest == rest;
    } else if off + |done[0]| <= |buf| {
      assert (done + rest)[1..] == done[1..] + rest;
      PutFieldsSplit(Splice(buf, off, done[0]), off + |done[0]|, done[1..], rest);
    }
  }

  /** Type byte and reserved gap. */
  method OpenPacket(buf: array<byte>, first: byte) returns (status: Status)
    modifies buf
    ensures status == if buf.Length < BODY_START then TOO_SMALL else OK
    ensures buf[..] == if buf.Length < 1 then old(buf[..]) else Splice(old(buf[..]), 0, [first])
  {
    if buf.Length < 1 {
      return TOO_SMALL;
    }
    buf[0] := first;
    if 1 + RESERVED > buf.Length {
      return TOO_SMALL;
    }
    return OK;
  }

  /** Length digits, then the body moved down behind them. */
  method FinishPacket(buf: array<byte>, end: nat) returns (status: Status, outLen: nat)
    requires BODY_START <= end <= buf.Length
    modifies buf
    ensures Encoded(status, buf[..], outLen) == ClosePacket(old(buf[..]), end)
  {
    hide Splice, RL.Encode;
    var rl: u32 := (end - BODY_START) % U32_SIZE;
    var digits := new byte[RESERVED];
    ghost var blank := digits[..];
    var rlLen;
    status, rlLen := RL.EncodeRemainingLength(rl, digits);
    if status != OK {
      return status, 0;
    }
    SpliceFront(blank, RL.Encode(rl));
    assert digits[..rlLen] == digits[..][..rlLen];
    Memmove(buf, 1 + rlLen, BODY_START, rl);
    Memcpy(buf, 1, digits[..rlLen]);
    return OK, 1 + rlLen + rl;
  }

  method EncodeConnect(buf: array<byte>, clientId: CString, keepAlive: u16) returns (status: Status, outLen: nat)
    modifies buf
    ensures Encoded(status, buf[..], outLen) == Encoding(old(buf[..]), CONNECT_BYTE, ConnectFields(clientId, keepAlive))
  {
    var name: CString := ['M' as int, 'Q' as int, 'T' as int, 'T' as int];
    ghost var idField := [Utf8(clientId)];
    ghost var fromKeepAlive := [BigEndian16(keepAlive)] + idField;
    ghost var fromFlags := [[2]] + fromKeepAlive;
    ghost var fromLevel := [[4]] + fromFlags;
    assert ConnectFields(clientId, keepAlive) == [Utf8(name)] + fromLevel;
    status := OpenPacket(buf, CONNECT_BYTE);
    if status != OK {
      return status, 0;
    }
    var end;
    PutFieldsSplit(buf[..], BODY_START, [Utf8(name)], fromLevel);
    status, end := WriteUtf8(buf, BODY_START, name);
    if status != OK {
      return status, 0;
    }
    PutFieldsSplit(buf[..], end, [[4]], fromFlags);
    status, end := AppendByte(buf, end, 4);
    if status != OK {
      return status, 0;
    }
    PutFieldsSplit(buf[..], end, [[2]], fromKeepAlive);
    status, end := AppendByte(buf, end, 2);
    if status != OK {
      return status, 0;
    }
    PutFieldsSplit(buf[..], end, [BigEndian16(keepAlive)], idField);
    status, end := AppendUint16(buf, end, keepAlive);
    if status != OK {
      return status, 0;
    }
    status, end := WriteUtf8(buf, end, clientId);
    if status != OK {
      return status, 0;
    }
    status, outLen := FinishPacket(buf, end);
  }

  method EncodePublish(buf: array<byte>, topic: CString, payload: seq<byte>) returns (status: Status, outLen: nat)
    modifies buf
    ensures Encoded(status, buf[..], outLen)
         == Encoding(old(buf[..]), PUBLISH_BYTE, PublishFields(Message(topic, payload)))
    ensures 2 + |topic| + |payload| <= RL.MAX ==>
              && (status == OK <==> BODY_START + 2 + |topic| + |payload| <= buf.Length)
              && (status == OK ==> buf[..outLen] == PublishPacket(Message(topic, payload)))
  {
    PublishMeaning(buf[..], Message(topic, payload));
    status := OpenPacket(buf, PUBLISH_BYTE);
    if status != OK {
      return status, 0;
    }
    PutFieldsSplit(buf[..], BODY_START, [Utf8(topic)], [payload]);
    assert [Utf8(topic)] + [payload] == PublishFields(Message(topic, payload));
    var end;
    status, end := WriteUtf8(buf, BODY_START, topic);
    if status != OK {
      return status, 0;
    }
    status, end := AppendPayload(buf, end, payload);
    if status != OK {
      return status, 0;
    }
    status, outLen := FinishPacket(buf, end);
  }

  method EncodeSubscribe(buf: array<byte>, packetId: u16, topic: CString) returns (status: Status, outLen: nat)
    modifies buf
    ensures Encoded(status, buf[..], outLen) == Encoding(old(buf[..]), SUBSCRIBE_BYTE, SubscribeFields(packetId, topic))
  {
    status := OpenPacket(buf, SUBSCRIBE_BYTE);
    if status != OK {
      return status, 0;
    }
    PutFieldsSplit(buf[..], BODY_START, [BigEndian16(packetId)], [Utf8(topic), [0]]);
    assert [BigEndian16(packetId)] + [Utf8(topic), [0]] == SubscribeFields(packetId, topic);
    var end;
    status, end := AppendUint16(buf, BODY_START, packetId);
    if status != OK {
      return status, 0;
    }
    PutFieldsSplit(buf[..], end, [Utf8(topic)], [[0]]);
    assert [Utf8(topic)] + [[0]] == [Utf8(topic), [0]];
    status, end := WriteUtf8(buf, end, topic);
    if status != OK {
      return status, 0;
    }
    status, end := AppendByte(buf, end, 0);
    if status != OK {
      return status, 0;
    }
    status, outLen := FinishPacket(buf, end);
  }

  method EncodePingreq(buf: array<byte>) returns (status: Status, outLen: nat)
    modifies buf
    ensures Encoded(status, buf[..], outLen) == EncodingPingreq(old(buf[..]))
  {
    if buf.Length < 2 {
      return TOO_SMALL, 0;
    }
    buf[0] := PINGREQ_BYTE;
    buf[1] := 0;
    return OK, 2;
  }
}
