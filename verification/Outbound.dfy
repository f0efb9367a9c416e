/** The outbound byte stream: what the transport has taken, followed by what is still
    staged, is the concatenation of the accepted packets. */
module Outbound {
  import opened Bytes
  import opened Statuses
  import opened Packets
  import opened Framing
  import opened ClientModel
  import H = FixedHeader

  ghost predicate StreamInv(s: ClientState)
    requires Valid(s)
  {
    s.wire + Staged(s) == Concat(s.accepted)
  }

  lemma FreshStream(s: ClientState)
    requires Valid(s) && s.pending == 0 && s.wire == [] && s.accepted == []
    ensures StreamInv(s)
  {
    assert Staged(s) == [];
  }

  // ----- one step -----

  /** Only an accepted send touches the history, and it accepts exactly what was encoded. */
  lemma SendEncodedFrame(s: ClientState, e: Encoded, reply: WriteReply)
    requires Valid(s) && |e.buf| == |s.tx| && e.outLen <= |e.buf|
    ensures var (s1, status) := SendEncoded(s, e, reply);
            && s1 == s.(tx := s1.tx, pending := s1.pending, wire := s1.wire, accepted := s1.accepted)
            && |s1.tx| == |s.tx|
            && s1.accepted == (if status == OK then s.accepted + [e.buf[..e.outLen]] else s.accepted)
            && (status == OK ==> e.status == OK && s.pending == 0)
            && (status != OK ==> s1.tx == e.buf && s1.pending == s.pending && s1.wire == s.wire)
            && (e.status == OK && s.pending == 0 && !Hard(reply.status) ==> status == OK)
  {
  }

  /** Publish and subscribe touch the sending side only, in whatever state the client is;
      a subscribe at QoS 0 draws an identifier even if it then fails. */
  lemma SendingFrame(s: ClientState, op: Op)
    requires Valid(s) && (op.OpPublish? || op.OpSubscribe?)
    ensures var s1 := Apply(s, op).0;
            && s1 == s.(tx := s1.tx, pending := s1.pending, wire := s1.wire, accepted := s1.accepted,
                        packetId := s1.packetId)
            && |s1.tx| == |s.tx|
            && s1.packetId == if op.OpSubscribe? && op.qos == 0 then NextPacketId(s.packetId) else s.packetId
  {
    hide SendEncoded, Encoding;
    match op {
      case OpPublish(topic, payload, qos, reply) =>
        if qos == 0 {
          SendEncodedFrame(s, Encoding(s.tx, PUBLISH_BYTE, PublishFields(Message(topic, payload))), reply);
        }
      case OpSubscribe(topic, qos, reply) =>
        if qos == 0 {
          var s1 := s.(packetId := NextPacketId(s.packetId));
          SendEncodedFrame(s1, Encoding(s1.tx, SUBSCRIBE_BYTE, SubscribeFields(s1.packetId, topic)), reply);
        }
    }
  }

  /** Where a packet sent with nothing staged goes: a prefix to the wire, the rest to
      the front of the buffer. */
  lemma SendDivides(s: ClientState, len: nat, reply: WriteReply)
    requires Valid(s) && len <= |s.tx| && s.pending == 0
    ensures var (s1, status) := Send(s, len, reply); var p, k := s.tx[..len], reply.Taken(len);
            if Hard(reply.status) then s1 == s && status == reply.status
            else
              && status == OK && s1.accepted == s.accepted + [p]
              && s1.wire == s.wire + p[..k] && Staged(s1) == p[k..]
  {
    var p, k := s.tx[..len], reply.Taken(len);
    assert p[..k] == s.tx[..k] && p[k..] == s.tx[k..len];
  }

  lemma SendKeepsStream(s: ClientState, len: nat, reply: WriteReply)
    requires Valid(s) && len <= |s.tx| && StreamInv(s) && s.pending == 0
    ensures StreamInv(Send(s, len, reply).0)
  {
    hide Send, Concat;
    SendDivides(s, len, reply);
    assert Staged(s) == [] && s.wire + [] == s.wire;
    ConcatSnoc(s.accepted, s.tx[..len]);
    SplitAt(s.wire, s.tx[..len], reply.Taken(len));
  }

  lemma FlushMoves(s: ClientState, reply: WriteReply)
    requires Valid(s)
    ensures var s1 := FlushPending(s, reply).0; var k := s.pending - s1.pending;
            && k >= 0 && s1.wire == s.wire + Staged(s)[..k] && Staged(s1) == Staged(s)[k..]
            && s1 == s.(wire := s1.wire, tx := s1.tx, pending := s1.pending)
  {
    if s.pending == 0 || Hard(reply.status) {
      assert s.wire + Staged(s)[..0] == s.wire;
    } else {
      var k := reply.Taken(s.pending);
      assert s.tx[..k] == Staged(s)[..k];
      assert Splice(s.tx, 0, s.tx[k..s.pending])[..s.pending - k] == Staged(s)[k..];
    }
  }

  lemma FlushStatus(s: ClientState, reply: WriteReply)
    requires Valid(s)
    ensures FlushPending(s, reply).1 == if s.pending > 0 && Hard(reply.status) then reply.status else OK
    ensures |FlushPending(s, reply).0.tx| == |s.tx|
  {
  }

  lemma FlushKeepsStream(s: ClientState, reply: WriteReply)
    requires Valid(s)
    ensures var s1 := FlushPending(s, reply).0; s1.wire + Staged(s1) == s.wire + Staged(s)
  {
    FlushMoves(s, reply);
    SplitAt(s.wire, Staged(s), s.pending - FlushPending(s, reply).0.pending);
  }

  /** Whether a poll that has got this far will encode a packet. */
  ghost predicate PollEncodes(s: ClientState, env: PollEnv)
    requires Valid(s)
  {
    || (s.state == ConnectSent && !s.connectSent)
    || (s.state == Connected && ClientRead(s, env.read).1 == OK
        && Elapsed(env.now, s.lastActivity) >= s.interval)
  }

  /** No packet is encoded over staged bytes, and none are thrown away unsent. */
  ghost predicate LeavesStagedAlone(s: ClientState, op: Op)
    requires Valid(s)
  {
    match op
    case OpConnect => s.state == Disconnected || s.pending == 0
    case OpDisconnect => true
    case OpPublish(_, _, qos, _) => qos == 0 ==> s.pending == 0
    case OpSubscribe(_, qos, _) => qos == 0 ==> s.pending == 0
    case OpPoll(env) =>
      var (s1, flushed) := FlushPending(s, env.flush);
      var (s2, core) := CorePoll(s1, env);
      flushed == OK && core == OK && PollEncodes(s2, env) ==> s1.pending == 0
  }

  /** The state machine leaves the sending side alone. */
  ghost predicate SameSending(s: ClientState, s1: ClientState) {
    && s1.tx == s.tx && s1.pending == s.pending && s1.wire == s.wire && s1.accepted == s.accepted
    && s1.connectSent == s.connectSent && s1.interval == s.interval && s1.rxSize == s.rxSize
    && s1.packetId == s.packetId && s1.delivered == s.delivered && s1.pings == s.pings
  }

  lemma JudgeFrame(s: ClientState, now: u64)
    requires Valid(s)
    ensures SameSending(s, JudgeConnack(s, now).0)
  {
    hide H.Decode, DecodeConnack;
  }

  lemma CoreFrame(s: ClientState, env: PollEnv)
    requires Valid(s)
    ensures SameSending(s, CorePoll(s, env).0)
  {
    hide JudgeConnack;
    if s.state == ConnectSent {
      JudgeFrame(Receive(s, env.ackRead), env.coreNow);
    }
  }

  lemma SendEncodedKeepsStream(s: ClientState, e: Encoded, reply: WriteReply)
    requires Valid(s) && StreamInv(s) && s.pending == 0 && |e.buf| == |s.tx| && e.outLen <= |e.buf|
    ensures StreamInv(SendEncoded(s, e, reply).0)
  {
    var s1 := s.(tx := e.buf);
    assert Staged(s1) == [] == Staged(s);
    if e.status == OK {
      SendKeepsStream(s1, e.outLen, reply);
    }
  }

  lemma PollIoKeepsStream(s: ClientState, env: PollEnv)
    requires Valid(s) && StreamInv(s)
    requires PollEncodes(s, env) ==> s.pending == 0
    ensures StreamInv(PollIo(s, env).0)
  {
    if s.state == ConnectSent && !s.connectSent {
      SendEncodedKeepsStream(s, ConnectEncoding(s), env.send);
    } else if s.state == Connected {
      var (s1, status) := ClientRead(s, env.read);
      assert StreamInv(s1);
      if status == OK && Elapsed(env.now, s1.lastActivity) >= s1.interval {
        SendEncodedKeepsStream(s1, EncodingPingreq(s1.tx), env.send);
      }
    }
  }

  lemma StepKeepsStream(s: ClientState, op: Op)
    requires Valid(s) && StreamInv(s) && LeavesStagedAlone(s, op)
    ensures StreamInv(Apply(s, op).0)
  {
    match op {
      case OpConnect =>
        assert Connect(s).0.tx[..0] == [];
        assert s.pending == 0 ==> Staged(s) == [];
      case OpDisconnect =>
      case OpPublish(topic, payload, qos, reply) =>
        if qos == 0 {
          SendEncodedKeepsStream(s, Encoding(s.tx, PUBLISH_BYTE, PublishFields(Message(topic, payload))), reply);
        }
      case OpSubscribe(topic, qos, reply) =>
        if qos == 0 {
          var s1 := s.(packetId := NextPacketId(s.packetId));
          SendEncodedKeepsStream(s1, Encoding(s1.tx, SUBSCRIBE_BYTE, SubscribeFields(s1.packetId, topic)), reply);
        }
      case OpPoll(env) =>
        FlushKeepsStream(s, env.flush);
        var (s1, flushed) := FlushPending(s, env.flush);
        if flushed == OK {
          CoreFrame(s1, env);
          var (s2, core) := CorePoll(s1, env);
          if core == OK {
            PollIoKeepsStream(s2, env);
          }
        }
    }
  }

  // ----- runs -----

  ghost predicate RunLeavesStagedAlone(s: ClientState, ops: seq<Op>)
    requires Valid(s)
    decreases |ops|
  {
    ops == [] || (LeavesStagedAlone(s, ops[0]) && RunLeavesStagedAlone(Apply(s, ops[0]).0, ops[1..]))
  }

  /** Over any run, whatever the transport does, the stream is the accepted packets in
      order, cut exactly where the transport stopped taking bytes. */
  lemma {:induction false} OutboundStream(s: ClientState, ops: seq<Op>)
    requires Valid(s) && StreamInv(s) && RunLeavesStagedAlone(s, ops)
    ensures StreamInv(Run(s, ops))
    decreases |ops|
  {
    if ops != [] {
      StepKeepsStream(s, ops[0]);
      OutboundStream(Apply(s, ops[0]).0, ops[1..]);
    }
  }

  ghost predicate AllFramed(s: ClientState) {
    forall p :: p in s.accepted ==> Framed(p)
  }

  lemma PingFramed()
    ensures Framed(PINGREQ_PACKET)
  {
    PacketHeader(PINGREQ_BYTE, [], []);
    assert Packet(PINGREQ_BYTE, []) + [] == PINGREQ_PACKET;
  }

  /** The first byte of the packet a call sends, if it sends one. */
  ghost function FirstByte(s: ClientState, op: Op): byte
    requires Valid(s)
  {
    match op
    case OpPublish(_, _, _, _) => PUBLISH_BYTE
    case OpSubscribe(_, _, _) => SUBSCRIBE_BYTE
    case _ => if Apply(s, op).0.state == ConnectSent then CONNECT_BYTE else PINGREQ_BYTE
  }

  /** A step accepts at most one packet, and that one is framed. */
  lemma StepAccepts(s: ClientState, op: Op)
    requires Valid(s)
    ensures var s1 := Apply(s, op).0;
            || s1.accepted == s.accepted
            || (op.OpConnect? && s1.accepted == [])
            || (!op.OpConnect? && AddsFramed(s, s1, FirstByte(s, op)))
  {
    match op {
      case OpConnect =>
      case OpDisconnect =>
      case OpPublish(topic, payload, qos, reply) =>
        if qos == 0 {
          AcceptsOne(s, PUBLISH_BYTE, PublishFields(Message(topic, payload)), reply);
        }
      case OpSubscribe(topic, qos, reply) =>
        if qos == 0 {
          var s1 := s.(packetId := NextPacketId(s.packetId));
          AcceptsOne(s1, SUBSCRIBE_BYTE, SubscribeFields(s1.packetId, topic), reply);
        }
      case OpPoll(env) =>
        FlushMoves(s, env.flush);
        var (s1, flushed) := FlushPending(s, env.flush);
        if flushed == OK {
          CoreFrame(s1, env);
          var (s2, core) := CorePoll(s1, env);
          if core == OK {
            PollIoAccepts(s2, env);
          }
        }
    }
  }

  lemma AcceptsOne(s: ClientState, first: byte, fields: seq<seq<byte>>, reply: WriteReply)
    requires Valid(s) && H.FlagsValid(first / 16, first % 16)
    ensures var (s1, status) := SendEncoded(s, Encoding(s.tx, first, fields), reply);
            if status == OK then AddsFramed(s, s1, first) else s1.accepted == s.accepted
  {
    hide SendEncoded, Encoding, Framed;
    var e := Encoding(s.tx, first, fields);
    SendEncodedFrame(s, e, reply);
    if e.status == OK {
      EncodingFramed(s.tx, first, fields);
    }
  }

  lemma PingAccepts(s: ClientState, reply: WriteReply)
    requires Valid(s)
    ensures var (s1, status) := SendPing(s, reply);
            s1.accepted == s.accepted + if status == OK then [PINGREQ_PACKET] else []
  {
    hide SendEncoded;
    var e := EncodingPingreq(s.tx);
    SendEncodedFrame(s, e, reply);
    if e.status == OK {
      assert e.buf[..2] == PINGREQ_PACKET;
    }
    assert s.accepted + [] == s.accepted;
  }

  lemma KeepAliveAccepts(s: ClientState, env: PollEnv)
    requires Valid(s)
    ensures var s1 := KeepAlive(s, env).0;
            s1.state == s.state && (s1.accepted == s.accepted || AddsFramed(s, s1, PINGREQ_BYTE))
  {
    hide SendEncoded, EncodingPingreq, Framed;
    PingAccepts(s, env.send);
    PingFramed();
    SendEncodedFrame(s, EncodingPingreq(s.tx), env.send);
  }

  lemma PollIoAccepts(s: ClientState, env: PollEnv)
    requires Valid(s)
    ensures var s1 := PollIo(s, env).0;
            && s1.state == s.state
            && (|| s1.accepted == s.accepted
                || AddsFramed(s, s1, if s.state == ConnectSent then CONNECT_BYTE else PINGREQ_BYTE))
  {
    hide SendEncoded, Encoding, KeepAlive, Parse, Framed;
    if s.state == ConnectSent {
      AcceptsOne(s, CONNECT_BYTE, ConnectFields([], KeepAliveSeconds(s.interval)), env.send);
      SendEncodedFrame(s, ConnectEncoding(s), env.send);
    } else if s.state == Connected {
      KeepAliveAccepts(ClientRead(s, env.read).0, env);
    }
  }

  ghost predicate AddsFramed(s: ClientState, s1: ClientState, first: byte) {
    && |s1.accepted| == |s.accepted| + 1 && s1.accepted[..|s.accepted|] == s.accepted
    && var p := s1.accepted[|s.accepted|];
    Framed(p) && |p| > 0 && p[0] == first
  }

  lemma StepFramed(s: ClientState, op: Op)
    requires Valid(s) && AllFramed(s)
    ensures AllFramed(Apply(s, op).0)
  {
    hide Apply, Framed;
    StepAccepts(s, op);
    var s1 := Apply(s, op).0;
    forall p | p in s1.accepted
      ensures Framed(p)
    {
      assert p in s.accepted || AddsFramed(s, s1, FirstByte(s, op));
    }
  }

  /** Every packet ever accepted announces its own length, with no condition on the run. */
  lemma {:induction false} AcceptedPacketsFramed(s: ClientState, ops: seq<Op>)
    requires Valid(s) && AllFramed(s)
    ensures AllFramed(Run(s, ops))
    decreases |ops|
  {
    hide Apply, AllFramed;
    if ops != [] {
      StepFramed(s, ops[0]);
      AcceptedPacketsFramed(Apply(s, ops[0]).0, ops[1..]);
    }
  }

  /** The peer that splits what it was sent at the announced lengths recovers the first of
      the accepted packets, and with what is still to come all of them, and nothing else. */
  lemma PeerRecoversPackets(tx: seq<byte>, rxSize: nat, interval: u64, now: u64, ops: seq<Op>)
    requires 0 < |tx| && 0 < rxSize
    requires RunLeavesStagedAlone(Init(tx, rxSize, interval, now), ops)
    ensures var s := Run(Init(tx, rxSize, interval, now), ops);
            Split(s.wire) <= s.accepted && Split(s.wire + Staged(s)) == s.accepted
  {
    var s0 := Init(tx, rxSize, interval, now);
    FreshStream(s0);
    OutboundStream(s0, ops);
    AcceptedPacketsFramed(s0, ops);
    SplitConcat(Run(s0, ops).accepted);
    SplitPrefix(Run(s0, ops).accepted, Run(s0, ops).wire, Staged(Run(s0, ops)));
  }

  /** A poll first puts staged bytes on the wire, as many as the transport takes, and
      only adds to them. */
  lemma PollFlushesFirst(s: ClientState, env: PollEnv)
    requires Valid(s) && !Hard(env.flush.status)
    ensures s.wire + Staged(s)[..env.flush.Taken(s.pending)] <= Poll(s, env).0.wire
  {
    hide FlushPending, CorePoll, PollIo;
    FlushTakes(s, env.flush);
    FlushMoves(s, env.flush);
    FlushStatus(s, env.flush);
    var s1 := FlushPending(s, env.flush).0;
    CoreFrame(s1, env);
    PollIoAdds(CorePoll(s1, env).0, env);
  }

  lemma FlushTakes(s: ClientState, reply: WriteReply)
    requires Valid(s) && !Hard(reply.status)
    ensures FlushPending(s, reply).0.pending == s.pending - reply.Taken(s.pending)
  {
  }

  lemma SendEncodedAdds(s: ClientState, e: Encoded, reply: WriteReply)
    requires Valid(s) && |e.buf| == |s.tx| && e.outLen <= |e.buf|
    ensures s.wire <= SendEncoded(s, e, reply).0.wire
  {
  }

  lemma PollIoAdds(s: ClientState, env: PollEnv)
    requires Valid(s)
    ensures s.wire <= PollIo(s, env).0.wire
  {
    hide SendEncoded, Encoding, EncodingPingreq, Parse;
    if s.state == ConnectSent {
      SendEncodedAdds(s, ConnectEncoding(s), env.send);
    } else if s.state == Connected {
      var s1 := ClientRead(s, env.read).0;
      SendEncodedAdds(s1, EncodingPingreq(s1.tx), env.send);
    }
  }

  // ----- draining -----

  function FlushMany(s: ClientState, replies: seq<WriteReply>): (r: ClientState)
    requires Valid(s)
    ensures Valid(r)
    decreases |replies|
  {
    if replies == [] then s else FlushMany(FlushPending(s, replies[0]).0, replies[1..])
  }

  /** However the transport answers, the staged bytes stay the exact unsent suffix. */
  lemma {:induction false} FlushManyMoves(s: ClientState, replies: seq<WriteReply>)
    requires Valid(s)
    ensures var s1 := FlushMany(s, replies); var k := s.pending - s1.pending;
            k >= 0 && s1.accepted == s.accepted
            && s1.wire == s.wire + Staged(s)[..k] && Staged(s1) == Staged(s)[k..]
    decreases |replies|
  {
    hide FlushPending;
    if replies == [] {
      assert s.wire + Staged(s)[..0] == s.wire;
    } else {
      var s1 := FlushPending(s, replies[0]).0;
      FlushMoves(s, replies[0]);
      FlushManyMoves(s1, replies[1..]);
      DropTwice(s.wire, Staged(s), s.pending - s1.pending, s1.pending - FlushMany(s1, replies[1..]).pending);
    }
  }

  /** If the transport always takes something, as many flushes as there are staged bytes
      put all of them on the wire, in order. */
  lemma {:induction false} FlushDrains(s: ClientState, replies: seq<WriteReply>)
    requires Valid(s) && |replies| >= s.pending
    requires forall i :: 0 <= i < |replies| ==> replies[i].status == OK && replies[i].room > 0
    ensures var s1 := FlushMany(s, replies); s1.pending == 0 && s1.wire == s.wire + Staged(s)
  {
    FlushManyMoves(s, replies);
    FlushShrinks(s, replies);
    assert Staged(s)[..s.pending] == Staged(s);
  }

  lemma {:induction false} FlushShrinks(s: ClientState, replies: seq<WriteReply>)
    requires Valid(s)
    requires forall i :: 0 <= i < |replies| ==> replies[i].status == OK && replies[i].room > 0
    ensures FlushMany(s, replies).pending <= if |replies| >= s.pending then 0 else s.pending - |replies|
    decreases |replies|
  {
    if replies != [] {
      FlushShrinks(FlushPending(s, replies[0]).0, replies[1..]);
    }
  }

  lemma DropTwice(w: seq<byte>, s: seq<byte>, j: nat, k: nat)
    requires j + k <= |s|
    ensures s[j..][k..] == s[j + k..] && (w + s[..j]) + s[j..][..k] == w + s[..j + k]
    ensures s[..|s|] == s
  {
    assert s[..j] + s[j..][..k] == s[..j + k];
  }
}
