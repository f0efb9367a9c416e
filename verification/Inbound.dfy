/** The inbound byte stream: what is delivered depends on the bytes the transport gave,
    not on how it cut them into reads, from the CONNACK to the last message. */
module Inbound {
  import opened Bytes
  import opened Statuses
  import opened Packets
  import opened Framing
  import opened ClientModel
  import Outbound
  import H = FixedHeader

  // ----- the read loop by itself -----

  /** Bytes given now continue a stream that the log and the buffer stand for. */
  lemma StreamGrows(cap: nat, log: seq<Message>, rx: seq<byte>, stream: seq<byte>, more: seq<byte>)
    requires Before(log, Parse(cap, rx)) == Parse(cap, stream)
    ensures Before(log, Parse(cap, rx + more)) == Parse(cap, stream + more)
  {
    hide Parse;
    ParseContinue(cap, stream, more);
    ParseContinue(cap, rx, more);
    BeforeTwice(log, Parse(cap, rx).log, Parse(cap, Parse(cap, rx).rest + more));
  }

  /** Moving what the buffer parses to into the log changes nothing. */
  lemma LogSettles(cap: nat, log: seq<Message>, rx: seq<byte>)
    ensures var p := Parse(cap, rx);
            Before(log + p.log, Parse(cap, p.rest)) == Before(log, p)
  {
    var p := Parse(cap, rx);
    ParseRest(cap, rx);
    assert log + p.log + [] == log + p.log;
  }

  function ReadMany(s: ClientState, replies: seq<ReadReply>): (r: Outcome)
    requires Valid(s)
    ensures Valid(r.0)
    decreases |replies|
  {
    if replies == [] then (s, OK)
    else if |replies| == 1 then ClientRead(s, replies[0])
    else ReadMany(ClientRead(s, replies[0]).0, replies[1..])
  }

  /** The callback log and the buffer are those of a one-shot parse of all that was read. */
  ghost predicate ReadsAsOne(s: ClientState) {
    var p := Parse(s.rxSize, s.received);
    s.delivered == p.log && s.rx == p.rest
  }

  lemma OneReadMore(cap: nat, log: seq<Message>, rx: seq<byte>, stream: seq<byte>, more: seq<byte>)
    requires Parse(cap, stream).log == log && Parse(cap, stream).rest == rx
    ensures var p, whole := Parse(cap, rx + more), Parse(cap, stream + more);
            log + p.log == whole.log && p.rest == whole.rest && p.status == whole.status
  {
    ParseContinue(cap, stream, more);
  }

  lemma ReadKeepsOne(s: ClientState, reply: ReadReply)
    requires Valid(s) && ReadsAsOne(s)
    ensures var (s1, status) := ClientRead(s, reply);
            && ReadsAsOne(s1) && s1.rxSize == s.rxSize
            && (!Hard(reply.status) ==> status == Parse(s1.rxSize, s1.received).status)
  {
    hide Parse;
    if !Hard(reply.status) {
      var given := reply.Given(s.rxSize - |s.rx|);
      var s1 := ClientRead(s, reply).0;
      OneReadMore(s.rxSize, s.delivered, s.rx, s.received, given);
      assert s1.received == s.received + given;
      assert s1.rx == Parse(s.rxSize, s.rx + given).rest;
      assert s1.delivered == s.delivered + Parse(s.rxSize, s.rx + given).log;
      assert s1.rx == Parse(s.rxSize, s1.received).rest;
      assert s1.delivered == Parse(s.rxSize, s1.received).log;
    }
  }

  /** A read takes as much of what is there as fits behind the buffered bytes; one that would
      block takes nothing, whatever it claims, and only cuts up what is buffered. */
  lemma ReadTakesExactly(s: ClientState, reply: ReadReply)
    requires Valid(s)
    ensures var s1 := Receive(s, reply); var room := s.rxSize - |s.rx|;
            var more := if reply.status != OK then []
                        else if |reply.avail| <= room then reply.avail
                        else reply.avail[..room];
            s1 == s.(rx := s.rx + more, received := s.received + more)
    ensures reply.status.code == WouldBlock ==>
              var (s1, status) := ClientRead(s, reply); var p := Parse(s.rxSize, s.rx);
              s1 == s.(rx := p.rest, delivered := s.delivered + p.log) && status == p.status
  {
    hide Parse;
    assert s.rx + [] == s.rx && s.received + [] == s.received;
    assert reply.avail[..|reply.avail|] == reply.avail;
  }

  /** A read that ends well leaves room for the next one. */
  lemma ReadLeavesRoom(s: ClientState, reply: ReadReply)
    requires Valid(s) && !Hard(reply.status) && ClientRead(s, reply).1 == OK
    ensures |ClientRead(s, reply).0.rx| < s.rxSize == ClientRead(s, reply).0.rxSize
  {
    ParseRoom(s.rxSize, Receive(s, reply).rx);
  }

  /** Chunking independence: for every sequence of answers the transport gives, refusals
      and failures among them. */
  lemma {:induction false} ChunkingIndependence(s: ClientState, replies: seq<ReadReply>)
    requires Valid(s) && ReadsAsOne(s)
    ensures var (s1, status) := ReadMany(s, replies);
            && ReadsAsOne(s1) && s1.rxSize == s.rxSize
            && (replies != [] && !Hard(replies[|replies| - 1].status) ==>
                  && status == Parse(s1.rxSize, s1.received).status
                  && (status == OK ==> |s1.rx| < s1.rxSize))
    decreases |replies|
  {
    if replies != [] {
      ReadKeepsOne(s, replies[0]);
      if |replies| > 1 {
        ChunkingIndependence(ClientRead(s, replies[0]).0, replies[1..]);
      } else if !Hard(replies[0].status) && ClientRead(s, replies[0]).1 == OK {
        ReadLeavesRoom(s, replies[0]);
      }
    }
  }

  /** Two ways of cutting the same bytes deliver the same messages, leave the same bytes
      and give the same verdict. */
  lemma SameBytesSameResult(s: ClientState, one: seq<ReadReply>, other: seq<ReadReply>)
    requires Valid(s) && ReadsAsOne(s) && one != [] && other != []
    requires !Hard(one[|one| - 1].status) && !Hard(other[|other| - 1].status)
    requires ReadMany(s, one).0.received == ReadMany(s, other).0.received
    ensures var (a, b) := (ReadMany(s, one), ReadMany(s, other));
            a.0.delivered == b.0.delivered && a.0.rx == b.0.rx && a.1 == b.1
  {
    ChunkingIndependence(s, one);
    ChunkingIndependence(s, other);
  }

  /** The bad packet stands at the front of the buffer. */
  ghost predicate StuckWith(s: ClientState, status: Status) {
    status != OK && Parse(s.rxSize, s.rx) == Parsed([], s.rx, status)
  }

  lemma ErrorsStick(s: ClientState, reply: ReadReply)
    requires Valid(s) && !Hard(reply.status) && ClientRead(s, reply).1 != OK
    ensures StuckWith(ClientRead(s, reply).0, ClientRead(s, reply).1)
  {
    ParseRest(s.rxSize, Receive(s, reply).rx);
  }

  lemma StuckRead(s: ClientState, status: Status, reply: ReadReply)
    requires Valid(s) && StuckWith(s, status)
    ensures var (s1, again) := ClientRead(s, reply);
            && StuckWith(s1, status) && s1.delivered == s.delivered
            && again == if Hard(reply.status) then reply.status else status
  {
    StuckForGood(s.rxSize, s.rx, Receive(s, reply).rx[|s.rx|..]);
    assert s.delivered + [] == s.delivered;
  }

  /** After a decoding, framing or dispatch error, no sequence of later reads delivers
      anything, and each that the transport does not fail answers the same error. */
  lemma {:induction false} StickyErrors(s: ClientState, status: Status, replies: seq<ReadReply>)
    requires Valid(s) && StuckWith(s, status)
    ensures var (s1, again) := ReadMany(s, replies);
            && StuckWith(s1, status) && s1.delivered == s.delivered
            && (replies != [] && !Hard(replies[|replies| - 1].status) ==> again == status)
    decreases |replies|
  {
    if replies != [] {
      StuckRead(s, status, replies[0]);
      if |replies| > 1 {
        StickyErrors(ClientRead(s, replies[0]).0, status, replies[1..]);
      }
    }
  }

  /** The client does not leave the connected state over such an error: no poll answers OK,
      those that the transport does not fail answer with it, and no keepalive goes out. */
  lemma StuckPoll(s: ClientState, status: Status, env: PollEnv)
    requires Valid(s) && s.state == Connected && StuckWith(s, status)
    ensures var (s1, again) := Poll(s, env);
            && s1.state == Connected && StuckWith(s1, status) && again != OK
            && (!Hard(env.flush.status) && !Hard(env.read.status) ==> again == status)
            && s1.delivered == s.delivered && s1.accepted == s.accepted && s1.pings == s.pings
  {
    hide FlushPending, Parse;
    Outbound.FlushMoves(s, env.flush);
    Outbound.FlushStatus(s, env.flush);
    StuckRead(FlushPending(s, env.flush).0, status, env.read);
  }

  lemma StuckStep(s: ClientState, status: Status, op: Op)
    requires Valid(s) && s.state == Connected && StuckWith(s, status)
    requires !op.OpConnect? && !op.OpDisconnect?
    ensures var s1 := Apply(s, op).0;
            s1.state == Connected && StuckWith(s1, status) && s1.delivered == s.delivered && s1.pings == s.pings
  {
    hide Publish, Subscribe, Poll, Parse;
    if op.OpPoll? {
      StuckPoll(s, status, op.env);
    } else {
      Outbound.SendingFrame(s, op);
    }
  }

  /** Nothing but the caller ends this: over any polls and sends the client stays connected
      to a stream it cannot read, delivers nothing and sends no PINGREQ. */
  lemma {:induction false} StuckRun(s: ClientState, status: Status, ops: seq<Op>)
    requires Valid(s) && s.state == Connected && StuckWith(s, status)
    requires forall op :: op in ops ==> !op.OpConnect? && !op.OpDisconnect?
    ensures var s1 := Run(s, ops);
            s1.state == Connected && StuckWith(s1, status) && s1.delivered == s.delivered && s1.pings == s.pings
    decreases |ops|
  {
    hide Apply, StuckWith;
    if ops != [] {
      assert ops[0] in ops && forall op :: op in ops[1..] ==> op in ops;
      StuckStep(s, status, ops[0]);
      StuckRun(Apply(s, ops[0]).0, status, ops[1..]);
    }
  }

  // ----- the whole connection -----

  /** The stream starts with a complete CONNACK of at least four bytes whose byte 3, which
      the client takes for the return code, is zero. */
  ghost predicate Acked(received: seq<byte>) {
    && H.Decode(received).Got?
    && var h := H.Decode(received).value;
    h.kind == H.CONNACK && 4 <= h.PacketLength() <= |received| && received[3] == 0
  }

  ghost function AfterConnack(received: seq<byte>): seq<byte>
    requires Acked(received)
  {
    received[H.Decode(received).value.PacketLength()..]
  }

  lemma AckedGrows(received: seq<byte>, more: seq<byte>)
    requires Acked(received)
    ensures Acked(received + more) && AfterConnack(received + more) == AfterConnack(received) + more
  {
    H.DecodeStable(received, more);
  }

  ghost predicate InboundInv(s: ClientState) {
    match s.state
    case Disconnected => true
    case Connecting => s.received == [] && s.rx == [] && s.delivered == []
    case ConnectSent => s.rx == s.received && s.delivered == []
    case _ =>
      && Acked(s.received)
      && Before(s.delivered, Parse(s.rxSize, s.rx)) == Parse(s.rxSize, AfterConnack(s.received))
  }

  /** All that has been read since the CONNACK has been dealt with. */
  ghost predicate Settled(s: ClientState) {
    && Acked(s.received)
    && var p := Parse(s.rxSize, AfterConnack(s.received));
    s.delivered == p.log && s.rx == p.rest
  }

  /** What one read does to a log, a buffer and the stream they stand for. */
  lemma ReadSettles(cap: nat, log: seq<Message>, rx: seq<byte>, stream: seq<byte>, more: seq<byte>)
    requires Before(log, Parse(cap, rx)) == Parse(cap, stream)
    ensures var p := Parse(cap, rx + more); var whole := Parse(cap, stream + more);
            && log + p.log == whole.log && p.rest == whole.rest && p.status == whole.status
            && Before(log + p.log, Parse(cap, p.rest)) == whole
  {
    hide Parse;
    StreamGrows(cap, log, rx, stream, more);
    LogSettles(cap, log, rx + more);
  }

  /** And it was all in order, with room for more. */
  ghost predicate CaughtUp(s: ClientState) {
    && Settled(s) && |s.rx| < s.rxSize
    && Parse(s.rxSize, AfterConnack(s.received)).status == OK
  }

  lemma ConnectedRead(s: ClientState, reply: ReadReply)
    requires Valid(s) && s.state == Connected && InboundInv(s)
    ensures var (s1, status) := ClientRead(s, reply);
            && InboundInv(s1)
            && (if Hard(reply.status) then status == reply.status
                else Settled(s1) && status == Parse(s1.rxSize, AfterConnack(s1.received)).status)
  {
    hide Parse, H.Decode;
    if !Hard(reply.status) {
      var given := reply.Given(s.rxSize - |s.rx|);
      var s1 := ClientRead(s, reply).0;
      AckedGrows(s.received, given);
      ReadSettles(s.rxSize, s.delivered, s.rx, AfterConnack(s.received), given);
      assert s1.received == s.received + given;
      assert s1.rx == Parse(s.rxSize, s.rx + given).rest;
      assert s1.delivered == s.delivered + Parse(s.rxSize, s.rx + given).log;
    }
  }

  /** The CONNACK is cut off the front, and what came behind it stays. */
  lemma Handshake(s: ClientState, now: u64)
    requires Valid(s) && s.state == ConnectSent && InboundInv(s)
    ensures var s1 := JudgeConnack(s, now).0;
            && InboundInv(s1) && s1.received == s.received
            && (s1.state == Connected <==> Acked(s1.received))
            && (s1.state == Connected ==> s1.rx == AfterConnack(s1.received) && s1.delivered == [])
  {
    hide H.Decode, TakeConnack, Parse;
    if H.Decode(s.rx).Got? && H.Decode(s.rx).value.PacketLength() <= |s.rx| {
      TakeConnackExactly(s, H.Decode(s.rx).value.PacketLength(), now);
      if JudgeConnack(s, now).0.state == Connected {
        TakeConnackCuts(s, now);
      }
    }
  }

  // ----- what the broker meant -----

  /** A waiting client holds a complete CONNACK with a two-byte body behind a header of
      n bytes; its return code is the second byte of that body. */
  ghost predicate HoldsConnack(s: ClientState, n: nat) {
    && Valid(s) && s.state == ConnectSent
    && H.Decode(s.rx) == Got(H.Header(H.CONNACK, 0, 2, n)) && n + 2 <= |s.rx|
  }

  ghost predicate TrustsOnlyAcceptance(n: nat) {
    forall s: ClientState, now: u64 ::
      HoldsConnack(s, n) && JudgeConnack(s, now).0.state == Connected ==> s.rx[n + 1] == 0
  }

  ghost predicate JudgesRight(n: nat) {
    forall s: ClientState, now: u64 ::
      HoldsConnack(s, n) ==> (JudgeConnack(s, now).0.state == Connected <==> s.rx[n + 1] == 0)
  }

  lemma JudgedByByteThree(s: ClientState, n: nat, now: u64)
    requires HoldsConnack(s, n)
    ensures JudgeConnack(s, now).0.state == Connected <==> n + 2 >= 4 && s.rx[3] == 0
  {
    TakeConnackExactly(s, n + 2, now);
  }

  function Holding(connack: seq<byte>): ClientState {
    Init([0], 16, 0, 0).(state := ConnectSent, rx := connack)
  }

  lemma LongConnackJudged(n: nat, code: byte)
    requires 3 <= n <= 5
    ensures HoldsConnack(Holding(LongConnack(n, code)), n) && LongConnack(n, code)[n + 1] == code
    ensures JudgeConnack(Holding(LongConnack(n, code)), 0).0.state == Connected <==> n < 5
  {
    LongConnackDecodes(n, code);
    JudgedByByteThree(Holding(LongConnack(n, code)), n, 0);
  }

  lemma FiveByteHeaderRefused(s: ClientState, now: u64)
    requires HoldsConnack(s, 5)
    ensures JudgeConnack(s, now).0.state != Connected
  {
    JudgedByByteThree(s, 5, now);
    assert s.rx[1..][2] == s.rx[3];
  }

  /** That a connected client was accepted by its broker holds exactly for CONNACKs behind a
      two-byte header, where byte 3 is the return code, and a five-byte one, where byte 3 is
      part of the header and never zero, so that none is believed. */
  lemma ConnectedMeansAcceptedExactly(n: nat)
    requires 2 <= n <= 5
    ensures TrustsOnlyAcceptance(n) <==> n == 2 || n == 5
  {
    hide JudgeConnack;
    if n == 3 || n == 4 {
      LongConnackJudged(n, 5);
    } else {
      forall s: ClientState, now: u64 | HoldsConnack(s, n) && JudgeConnack(s, now).0.state == Connected
        ensures s.rx[n + 1] == 0
      {
        JudgedByByteThree(s, n, now);
        if n == 5 {
          FiveByteHeaderRefused(s, now);
        }
      }
    }
  }

  /** And the verdict is the broker's, both ways, exactly behind a two-byte header. */
  lemma JudgesRightExactly(n: nat)
    requires 2 <= n <= 5
    ensures JudgesRight(n) <==> n == 2
  {
    hide JudgeConnack;
    if n == 2 {
      forall s: ClientState, now: u64 | HoldsConnack(s, n)
        ensures JudgeConnack(s, now).0.state == Connected <==> s.rx[n + 1] == 0
      {
        JudgedByByteThree(s, n, now);
      }
    } else {
      LongConnackJudged(n, if n == 5 then 0 else 5);
    }
  }

  lemma TakeConnackExactly(s: ClientState, n: nat, now: u64)
    requires Valid(s) && n <= |s.rx|
    ensures var s1 := TakeConnack(s, n, now).0;
            && s1.state == (if n >= 4 && s.rx[3] == 0 then Connected else Disconnected)
            && s1.received == s.received
  {
    assert n >= 4 ==> s.rx[..n][3] == s.rx[3];
  }

  lemma TakeConnackCuts(s: ClientState, now: u64)
    requires Valid(s) && s.rx == s.received && H.Decode(s.rx).Got?
    requires var h := H.Decode(s.rx).value; h.kind == H.CONNACK && h.PacketLength() <= |s.rx|
    requires TakeConnack(s, H.Decode(s.rx).value.PacketLength(), now).0.state == Connected && s.state != Connected
    ensures Acked(s.received)
    ensures var s1 := TakeConnack(s, H.Decode(s.rx).value.PacketLength(), now).0;
            s1.rx == AfterConnack(s.received) && s1.delivered == s.delivered
            && Before([], Parse(s1.rxSize, s1.rx)) == Parse(s1.rxSize, s1.rx)
  {
    hide H.Decode, Parse;
    var n := H.Decode(s.rx).value.PacketLength();
    assert |s.rx[..n]| >= 4 && s.rx[..n][3] == s.rx[3];
    BeforeNothing(Parse(s.rxSize, s.rx[n..]));
  }

  lemma PollIoInbound(s: ClientState, env: PollEnv)
    requires Valid(s) && InboundInv(s)
    ensures var (s1, status) := PollIo(s, env);
            && InboundInv(s1)
            && (s1.state == Connected && status == OK ==> CaughtUp(s1))
  {
    hide SendEncoded, Encoding, ClientRead, KeepAlive, Parse;
    if s.state == ConnectSent {
      Outbound.SendEncodedFrame(s, ConnectEncoding(s), env.send);
    } else if s.state == Connected {
      ConnectedRead(s, env.read);
      var (s1, status) := ClientRead(s, env.read);
      KeepAliveFrame(s1, env);
      if status == OK {
        ReadLeavesRoom(s, env.read);
      }
    }
  }

  lemma KeepAliveFrame(s: ClientState, env: PollEnv)
    requires Valid(s)
    ensures var s1 := KeepAlive(s, env).0;
            && s1.state == s.state && s1.rx == s.rx && s1.rxSize == s.rxSize
            && s1.received == s.received && s1.delivered == s.delivered
  {
    hide SendEncoded, EncodingPingreq;
    Outbound.SendEncodedFrame(s, EncodingPingreq(s.tx), env.send);
  }

  /** Connect throws away the receive buffer before it looks at the state. */
  predicate LosesNoInput(s: ClientState, op: Op) {
    op.OpConnect? ==> s.state == Disconnected || s.rx == []
  }

  lemma StepInbound(s: ClientState, op: Op)
    requires Valid(s) && InboundInv(s) && LosesNoInput(s, op)
    ensures var (s1, status) := Apply(s, op);
            && InboundInv(s1)
            && (op.OpPoll? && s1.state == Connected && status == OK ==> CaughtUp(s1))
  {
    hide Publish, Subscribe, FlushPending, CorePoll, PollIo, Parse;
    match op {
      case OpConnect =>
      case OpDisconnect =>
      case OpPublish(_, _, _, _) => Outbound.SendingFrame(s, op);
      case OpSubscribe(_, _, _) => Outbound.SendingFrame(s, op);
      case OpPoll(env) =>
        Outbound.FlushMoves(s, env.flush);
        var (s1, flushed) := FlushPending(s, env.flush);
        if flushed == OK {
          CoreInbound(s1, env);
          var (s2, core) := CorePoll(s1, env);
          if core == OK {
            PollIoInbound(s2, env);
          }
        }
    }
  }

  lemma CoreInbound(s: ClientState, env: PollEnv)
    requires Valid(s) && InboundInv(s)
    ensures InboundInv(CorePoll(s, env).0)
  {
    if s.state == ConnectSent && !Hard(env.ackRead.status) {
      Handshake(Receive(s, env.ackRead), env.coreNow);
    }
  }

  ghost predicate RunLosesNoInput(s: ClientState, ops: seq<Op>)
    requires Valid(s)
    decreases |ops|
  {
    ops == [] || (LosesNoInput(s, ops[0]) && RunLosesNoInput(Apply(s, ops[0]).0, ops[1..]))
  }

  /** Over any run, the bytes read while waiting for the CONNACK and those read once
      connected are one stream: a CONNACK, then exactly what has been and will be
      delivered. */
  lemma {:induction false} InboundStream(s: ClientState, ops: seq<Op>)
    requires Valid(s) && InboundInv(s) && RunLosesNoInput(s, ops)
    ensures InboundInv(Run(s, ops))
    decreases |ops|
  {
    if ops != [] {
      StepInbound(s, ops[0]);
      InboundStream(Apply(s, ops[0]).0, ops[1..]);
    }
  }

  /** After any run from the start, a poll that leaves the client connected and answers
      OK has delivered the parse of everything behind the CONNACK, kept the incomplete
      rest, and left room to read more. */
  lemma PollDeliversAll(tx: seq<byte>, rxSize: nat, interval: u64, now: u64, ops: seq<Op>, env: PollEnv)
    requires 0 < |tx| && 0 < rxSize
    requires RunLosesNoInput(Init(tx, rxSize, interval, now), ops)
    ensures var (s, status) := Poll(Run(Init(tx, rxSize, interval, now), ops), env);
            status == OK && s.state == Connected ==> CaughtUp(s)
  {
    hide Poll, Run, Parse;
    var s0 := Init(tx, rxSize, interval, now);
    InboundStream(s0, ops);
    StepInbound(Run(s0, ops), OpPoll(env));
  }

  /** A stray connect call, in whatever state, keeps the stream exactly when it throws away
      nothing: always before the transport is reached, only an empty buffer while waiting,
      and afterwards only bytes that parse, in full, to no message. */
  lemma StrayConnectSafeExactly(s: ClientState)
    requires Valid(s) && InboundInv(s)
    ensures InboundInv(Connect(s).0) <==>
              match s.state
              case Disconnected => true
              case Connecting => true
              case ConnectSent => s.rx == []
              case _ => Parse(s.rxSize, s.rx) == Parsed([], [], OK)
  {
    if s.state == Connected || s.state == Disconnecting {
      var p := Parse(s.rxSize, s.rx);
      assert Parse(s.rxSize, []) == Parsed([], [], OK);
      assert |(s.delivered + p.log)| == |s.delivered| + |p.log|;
      assert s.delivered + [] == s.delivered;
      assert p.log == [] ==> s.delivered + p.log == s.delivered;
    }
  }
}
