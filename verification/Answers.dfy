/** What the calls that send or change the state answer, and what each leaves behind, with
    the constants of the protocol and the status words written out. */
module Answers {
  import opened Bytes
  import opened Statuses
  import opened Packets
  import opened ClientModel
  import opened Outbound
  import RL = RemainingLength

  // ----- sends -----

  /** The questions a send asks, in order: room for the packet, nothing staged, a transport
      that does not fail. */
  function SendAnswer(fits: bool, staged: nat, reply: WriteReply): Status {
    if !fits then Status(Protocol, BufferTooSmall)
    else if staged > 0 then Status(Io, WouldBlock)
    else if reply.status != OK && reply.status.code != WouldBlock then reply.status
    else Status(General, Okay)
  }

  /** Five bytes in front of the body, and a length that four digits can spell. */
  predicate Fits(size: nat, body: nat) {
    5 + body <= size && body % 0x1_0000_0000 <= 268435455
  }

  /** The packet p was accepted: a prefix of it is on the wire, the rest is staged. */
  predicate Sent(s: ClientState, s1: ClientState, p: seq<byte>, reply: WriteReply)
    requires s1.pending <= |s1.tx|
  {
    var k := if reply.status == OK then Min(|p|, reply.room) else 0;
    s1.accepted == s.accepted + [p] && s1.wire == s.wire + p[..k] && Staged(s1) == p[k..]
  }

  lemma AcceptedSends(s: ClientState, e: Encoded, reply: WriteReply)
    requires Valid(s) && |e.buf| == |s.tx| && e.outLen <= |e.buf|
    ensures var (s1, status) := SendEncoded(s, e, reply);
            && (e.status == OK ==> status == SendAnswer(true, s.pending, reply))
            && (e.status != OK ==> status == e.status)
            && (status == OK ==> Sent(s, s1, e.buf[..e.outLen], reply))
            && (status != OK ==> s1 == s.(tx := e.buf))
  {
    hide Send;
    var s1 := s.(tx := e.buf);
    if e.status == OK {
      SendRefusals(s1, e.outLen, reply);
      if s.pending == 0 {
        SendDivides(s1, e.outLen, reply);
      }
    }
  }

  lemma SendRefusals(s: ClientState, len: nat, reply: WriteReply)
    requires Valid(s) && len <= |s.tx|
    ensures var (s1, status) := Send(s, len, reply);
            status == SendAnswer(true, s.pending, reply) && (status != OK ==> s1 == s)
  {
  }

  lemma EncodedAnswers(s: ClientState, first: byte, fields: seq<seq<byte>>, reply: WriteReply)
    requires Valid(s)
    ensures var body := Concat(fields); var (s1, status) := SendEncoded(s, Encoding(s.tx, first, fields), reply);
            && status == SendAnswer(Fits(|s.tx|, |body|), s.pending, reply)
            && (if status == OK then Sent(s, s1, Packet(first, body[..|body| % U32_SIZE]), reply)
                else s1 == s.(tx := s1.tx))
  {
    hide SendEncoded, Encoding, Concat, Packet, Sent;
    AcceptedSends(s, Encoding(s.tx, first, fields), reply);
    EncodingExact(s.tx, first, fields);
  }

  /** A publish is refused above QoS 0, and then for want of room, for what is staged and for
      a transport that fails, in that order; otherwise its packet is on its way. */
  lemma PublishAnswers(s: ClientState, m: Message, qos: int, reply: WriteReply)
    requires Valid(s)
    ensures var (s1, status) := Publish(s, m, qos, reply); var body := 2 + |m.topic| + |m.payload|;
            if qos != 0 then s1 == s && status == Status(General, Unsupported)
            else
              && status == SendAnswer(Fits(|s.tx|, body), s.pending, reply)
              && (status != OK ==> s1 == s.(tx := s1.tx))
              && (status == OK && body <= RL.MAX ==> Sent(s, s1, PublishPacket(m), reply))
  {
    hide SendEncoded, Encoding, Concat, Fits, Sent, BigEndian16, Packet;
    if qos == 0 {
      EncodedAnswers(s, PUBLISH_BYTE, PublishFields(m), reply);
      ConcatTwo(Utf8(m.topic), m.payload);
      var body := Utf8(m.topic) + m.payload;
      assert body[..|body|] == body;
    }
  }

  /** The same for a subscribe, whose packet carries the identifier after the last one. */
  lemma SubscribeAnswers(s: ClientState, topic: seq<byte>, qos: int, reply: WriteReply)
    requires Valid(s)
    ensures var (s1, status) := Subscribe(s, topic, qos, reply);
            var id := if s.packetId == 0xFFFF then 1 else s.packetId + 1;
            if qos != 0 then s1 == s && status == Status(General, Unsupported)
            else
              && s1.packetId == id && status == SendAnswer(Fits(|s.tx|, 5 + |topic|), s.pending, reply)
              && (status != OK ==> s1 == s.(tx := s1.tx, packetId := id))
              && (status == OK && 5 + |topic| <= RL.MAX ==> Sent(s, s1, SubscribePacket(id, topic), reply))
  {
    hide SendEncoded, Encoding, Concat, Fits, Sent, BigEndian16, Packet;
    if qos == 0 {
      var s1 := s.(packetId := NextPacketId(s.packetId));
      SendEncodedFrame(s1, Encoding(s1.tx, SUBSCRIBE_BYTE, SubscribeFields(s1.packetId, topic)), reply);
      EncodedAnswers(s1, SUBSCRIBE_BYTE, SubscribeFields(s1.packetId, topic), reply);
      ConcatThree(BigEndian16(s1.packetId), Utf8(topic), [0]);
      var body := Concat(SubscribeFields(s1.packetId, topic));
      assert |body| == 5 + |topic| && body[..|body|] == body;
      SameSent(s1, s, Subscribe(s, topic, qos, reply).0, SubscribePacket(s1.packetId, topic), reply);
    }
  }

  lemma SameSent(s: ClientState, t: ClientState, s1: ClientState, p: seq<byte>, reply: WriteReply)
    requires s1.pending <= |s1.tx| && s.accepted == t.accepted && s.wire == t.wire
    ensures Sent(s, s1, p, reply) <==> Sent(t, s1, p, reply)
  {
  }

  /** A keepalive needs two bytes of buffer and sends C0 00. */
  lemma PingAnswers(s: ClientState, reply: WriteReply)
    requires Valid(s)
    ensures var (s1, status) := SendPing(s, reply);
            && status == SendAnswer(2 <= |s.tx|, s.pending, reply)
            && (if status == OK then Sent(s, s1, [0xC0, 0x00], reply) else s1 == s.(tx := s1.tx))
  {
    hide SendEncoded, EncodingPingreq, Sent;
    AcceptedSends(s, EncodingPingreq(s.tx), reply);
    assert |s.tx| < 2 ==> EncodingPingreq(s.tx).status == TOO_SMALL by { PingreqRefused(s.tx); }
    if 2 <= |s.tx| {
      PingreqBytes(s.tx);
      assert EncodingPingreq(s.tx).buf[..2] == [0xC0, 0x00];
    }
  }

  lemma PingreqRefused(buf: seq<byte>)
    ensures |buf| < 2 ==> EncodingPingreq(buf) == Encoded(TOO_SMALL, buf, 0)
  {
  }

  /** CONNECT needs seventeen bytes of buffer, of which its packet fills fourteen. */
  lemma ConnectAnswers(s: ClientState, reply: WriteReply)
    requires Valid(s)
    ensures var (s1, status) := SendConnect(s, reply); var k := KeepAliveSeconds(s.interval);
            && status == SendAnswer(17 <= |s.tx|, s.pending, reply)
            && (if status == OK
                then Sent(s, s1, [0x10, 12, 0, 4, 0x4D, 0x51, 0x54, 0x54, 4, 2, k / 256, k % 256, 0, 0], reply)
                else s1 == s.(tx := s1.tx))
  {
    hide SendEncoded, Encoding, Concat, Sent, ConnectFields, RL.Encode;
    var k := KeepAliveSeconds(s.interval);
    EncodedAnswers(s, CONNECT_BYTE, ConnectFields([], k), reply);
    ConnectPieces(k);
    var body := ConnectBody(k);
    assert body[..12] == body;
    RL.EncodeDigit(12);
    assert Packet(CONNECT_BYTE, body) == [0x10, 12, 0, 4, 0x4D, 0x51, 0x54, 0x54, 4, 2, k / 256, k % 256, 0, 0];
  }

  // ----- connect and disconnect -----

  /** A connect call is for a disconnected client, a disconnect call for a connected one; in
      any other state they are refused, and the disconnect call then changes nothing. */
  lemma CallsByState(s: ClientState)
    requires Valid(s)
    ensures var (s1, status) := Connect(s);
            && s1.pending == 0 && s1.rx == []
            && (if s.state == Disconnected then status == OK && s1.state == Connecting && !s1.connectSent
                else status == Status(General, StateInvalid) && s1 == s.(pending := 0, rx := []))
    ensures var (s1, status) := Disconnect(s);
            if s.state == Connected then status == OK && s1 == s.(state := Disconnecting)
            else status == Status(General, StateInvalid) && s1 == s
  {
  }
}
