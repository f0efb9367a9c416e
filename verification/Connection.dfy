/** Safety of the connection state machine over all runs. */
module Connection {
  import opened Bytes
  import opened Statuses
  import opened Packets
  import opened Framing
  import opened ClientModel
  import Outbound
  import Inbound
  import H = FixedHeader
  import RL = RemainingLength

  // ----- edges -----

  /** The edges the code has, and the call that takes each. */
  ghost predicate Edge(a: ConnState, op: Op, b: ConnState) {
    match op
    case OpConnect => a == Disconnected && b == Connecting
    case OpDisconnect => a == Connected && b == Disconnecting
    case OpPoll(_) =>
      || (a == Connecting && b in {ConnectSent, Disconnected})
      || (a == ConnectSent && b in {Connected, Disconnected})
      || (a == Disconnecting && b == Disconnected)
    case _ => false
  }

  /** In these states, and no others, the transport is connected. */
  ghost predicate LinkInv(s: ClientState) {
    s.linkUp <==> s.state in {ConnectSent, Connected, Disconnecting}
  }

  lemma CoreEdges(s: ClientState, env: PollEnv)
    requires Valid(s) && LinkInv(s)
    ensures var s1 := CorePoll(s, env).0;
            LinkInv(s1) && (s1.state == s.state || Edge(s.state, OpPoll(env), s1.state))
  {
    if s.state == ConnectSent && !Hard(env.ackRead.status) {
      JudgeEdges(Receive(s, env.ackRead), env.coreNow);
    }
  }

  lemma JudgeEdges(s: ClientState, now: u64)
    requires Valid(s) && LinkInv(s) && s.state == ConnectSent
    ensures var s1 := JudgeConnack(s, now).0;
            LinkInv(s1) && s1.state in {ConnectSent, Connected, Disconnected}
  {
  }

  lemma PollIoFrame(s: ClientState, env: PollEnv)
    requires Valid(s)
    ensures var s1 := PollIo(s, env).0;
            && s1.state == s.state && s1.linkUp == s.linkUp && s1.connectedAt == s.connectedAt
            && s1.interval == s.interval && s1.packetId == s.packetId && |s1.tx| == |s.tx|
  {
    hide SendEncoded, Encoding, EncodingPingreq, Parse;
    if s.state == Connected {
      var s1 := ClientRead(s, env.read).0;
      Outbound.SendEncodedFrame(s1, EncodingPingreq(s1.tx), env.send);
    } else if s.state == ConnectSent {
      Outbound.SendEncodedFrame(s, ConnectEncoding(s), env.send);
    }
  }

  /** Every step stays or takes a coded edge; the transport is up exactly in the three
      states that need it. */
  lemma OnlyCodedEdges(s: ClientState, op: Op)
    requires Valid(s) && LinkInv(s)
    ensures var s1 := Apply(s, op).0;
            LinkInv(s1) && (s1.state == s.state || Edge(s.state, op, s1.state))
  {
    hide Publish, Subscribe, FlushPending, CorePoll, PollIo;
    match op {
      case OpConnect =>
      case OpDisconnect =>
      case OpPublish(_, _, _, _) => Outbound.SendingFrame(s, op);
      case OpSubscribe(_, _, _) => Outbound.SendingFrame(s, op);
      case OpPoll(env) =>
        Outbound.FlushMoves(s, env.flush);
        var (s1, flushed) := FlushPending(s, env.flush);
        if flushed == OK {
          CoreEdges(s1, env);
          PollIoFrame(CorePoll(s1, env).0, env);
        }
    }
  }

  lemma PollConfig(s: ClientState, env: PollEnv)
    requires Valid(s)
    ensures var s1 := Poll(s, env).0; |s1.tx| == |s.tx| && s1.interval == s.interval && s1.packetId == s.packetId
  {
    hide FlushPending, CorePoll, PollIo;
    var s1 := FlushPending(s, env.flush).0;
    Outbound.FlushMoves(s, env.flush);
    Outbound.FlushStatus(s, env.flush);
    Outbound.CoreFrame(s1, env);
    PollIoFrame(CorePoll(s1, env).0, env);
  }

  /** The caller's buffer and settings stay as configured. */
  lemma ConfigStays(s: ClientState, op: Op)
    requires Valid(s)
    ensures var s1 := Apply(s, op).0; |s1.tx| == |s.tx| && s1.interval == s.interval
  {
    hide Publish, Subscribe, Poll;
    match op {
      case OpConnect =>
      case OpDisconnect =>
      case OpPublish(_, _, _, _) => Outbound.SendingFrame(s, op);
      case OpSubscribe(_, _, _) => Outbound.SendingFrame(s, op);
      case OpPoll(env) => PollConfig(s, env);
    }
  }

  /** An attempt or a connection that a call ends is never ended silently. */
  lemma LossIsReported(s: ClientState, op: Op)
    requires Valid(s) && s.state in {Connecting, ConnectSent, Connected}
    ensures Apply(s, op).0.state == Disconnected ==> Apply(s, op).1 != OK
  {
    hide Publish, Subscribe, FlushPending, JudgeConnack, PollIo;
    match op {
      case OpPublish(_, _, _, _) => Outbound.SendingFrame(s, op);
      case OpSubscribe(_, _, _) => Outbound.SendingFrame(s, op);
      case OpPoll(env) =>
        Outbound.FlushMoves(s, env.flush);
        var s1 := FlushPending(s, env.flush).0;
        JudgeReports(Receive(s1, env.ackRead), env.coreNow);
        PollIoFrame(CorePoll(s1, env).0, env);
      case _ =>
    }
  }

  lemma JudgeReports(s: ClientState, now: u64)
    requires Valid(s)
    ensures s.state != Disconnected && JudgeConnack(s, now).0.state == Disconnected ==> JudgeConnack(s, now).1 != OK
  {
    hide H.Decode, DecodeConnack;
    H.DecodeBounds(s.rx);
  }

  lemma {:induction false} LinkFollowsState(s: ClientState, ops: seq<Op>)
    requires Valid(s) && LinkInv(s)
    ensures LinkInv(Run(s, ops))
    decreases |ops|
  {
    if ops != [] {
      OnlyCodedEdges(s, ops[0]);
      LinkFollowsState(Apply(s, ops[0]).0, ops[1..]);
    }
  }

  /** Whenever a step of a run from the start makes the client connected, it is a poll
      taken while waiting for the CONNACK, and an accepting CONNACK heads the stream. */
  lemma ConnectedOnlyByConnack(tx: seq<byte>, rxSize: nat, interval: u64, now: u64, ops: seq<Op>, op: Op)
    requires 0 < |tx| && 0 < rxSize
    requires Inbound.RunLosesNoInput(Init(tx, rxSize, interval, now), ops)
    ensures var s := Run(Init(tx, rxSize, interval, now), ops); var s1 := Apply(s, op).0;
            s.state != Connected && s1.state == Connected ==>
              op.OpPoll? && s.state == ConnectSent && Inbound.Acked(s1.received)
  {
    hide Apply, Run, Inbound.Acked;
    var s0 := Init(tx, rxSize, interval, now);
    LinkFollowsState(s0, ops);
    Inbound.InboundStream(s0, ops);
    var s := Run(s0, ops);
    OnlyCodedEdges(s, op);
    if s.state != Connected && Apply(s, op).0.state == Connected {
      Inbound.StepInbound(s, op);
    }
  }

  // ----- one CONNECT per attempt -----

  function CountConnects(packets: seq<seq<byte>>): nat {
    if packets == [] then 0
    else CountConnects(packets[..|packets| - 1]) + (if IsConnect(packets[|packets| - 1]) then 1 else 0)
  }

  predicate IsConnect(p: seq<byte>) {
    |p| > 0 && p[0] == CONNECT_BYTE
  }

  ghost predicate OneConnect(s: ClientState) {
    CountConnects(s.accepted) == if s.connectSent then 1 else 0
  }

  lemma Recount(s: ClientState, s1: ClientState, first: byte)
    requires Outbound.AddsFramed(s, s1, first)
    ensures CountConnects(s1.accepted) == CountConnects(s.accepted) + if first == CONNECT_BYTE then 1 else 0
  {
    assert s1.accepted[..|s1.accepted| - 1] == s.accepted;
  }

  lemma PollIoCounts(s: ClientState, env: PollEnv)
    requires Valid(s) && OneConnect(s)
    ensures OneConnect(PollIo(s, env).0)
  {
    hide SendEncoded, Encoding, EncodingPingreq, Parse;
    if s.state == ConnectSent && !s.connectSent {
      var fields := ConnectFields([], KeepAliveSeconds(s.interval));
      var s1 := SendConnect(s, env.send).0;
      Outbound.SendEncodedFrame(s, Encoding(s.tx, CONNECT_BYTE, fields), env.send);
      Outbound.AcceptsOne(s, CONNECT_BYTE, fields, env.send);
      if SendConnect(s, env.send).1 == OK {
        Recount(s, s1, CONNECT_BYTE);
      }
    } else if s.state == Connected {
      var s1 := PollIo(s, env).0;
      var s2 := ClientRead(s, env.read).0;
      Outbound.SendEncodedFrame(s2, EncodingPingreq(s2.tx), env.send);
      Outbound.PollIoAccepts(s, env);
      if s1.accepted != s.accepted {
        Recount(s, s1, PINGREQ_BYTE);
      }
    }
  }

  lemma StepCounts(s: ClientState, op: Op)
    requires Valid(s) && OneConnect(s)
    ensures OneConnect(Apply(s, op).0)
  {
    hide Publish, Subscribe, FlushPending, CorePoll, PollIo;
    match op {
      case OpConnect =>
      case OpDisconnect =>
      case OpPublish(_, _, _, _) =>
        Outbound.SendingFrame(s, op);
        Outbound.StepAccepts(s, op);
        if Apply(s, op).0.accepted != s.accepted {
          Recount(s, Apply(s, op).0, PUBLISH_BYTE);
        }
      case OpSubscribe(_, _, _) =>
        Outbound.SendingFrame(s, op);
        Outbound.StepAccepts(s, op);
        if Apply(s, op).0.accepted != s.accepted {
          Recount(s, Apply(s, op).0, SUBSCRIBE_BYTE);
        }
      case OpPoll(env) =>
        Outbound.FlushMoves(s, env.flush);
        var (s1, flushed) := FlushPending(s, env.flush);
        if flushed == OK {
          Outbound.CoreFrame(s1, env);
          PollIoCounts(CorePoll(s1, env).0, env);
        }
    }
  }

  /** However long the CONNACK takes and however often the caller polls, at most one
      CONNECT is accepted per connection attempt, and the flag says whether it was. */
  lemma {:induction false} AtMostOneConnect(s: ClientState, ops: seq<Op>)
    requires Valid(s) && OneConnect(s)
    ensures OneConnect(Run(s, ops)) && CountConnects(Run(s, ops).accepted) <= 1
    decreases |ops|
  {
    if ops != [] {
      StepCounts(s, ops[0]);
      AtMostOneConnect(Apply(s, ops[0]).0, ops[1..]);
    }
  }

  /** A configured client is where the invariants of all runs begin. */
  lemma ConfiguredHolds(tx: seq<byte>, rxSize: nat, interval: u64, now: u64)
    requires 0 < |tx| && 0 < rxSize
    ensures var s := Init(tx, rxSize, interval, now);
            && Valid(s) && LinkInv(s) && OneConnect(s) && Inbound.InboundInv(s)
            && Outbound.StreamInv(s) && Outbound.AllFramed(s)
  {
    Outbound.FreshStream(Init(tx, rxSize, interval, now));
  }

  // ----- CONNECT comes first -----

  /** The caller sends only when connected, and no write fails hard. */
  ghost predicate Polite(s: ClientState, op: Op) {
    match op
    case OpPublish(_, _, _, _) => s.state == Connected
    case OpSubscribe(_, _, _) => s.state == Connected
    case OpPoll(env) => !Hard(env.flush.status) && !Hard(env.send.status)
    case _ => true
  }

  ghost predicate PoliteRun(s: ClientState, ops: seq<Op>)
    requires Valid(s)
    decreases |ops|
  {
    ops == [] || (Polite(s, ops[0]) && PoliteRun(Apply(s, ops[0]).0, ops[1..]))
  }

  const CONNECT_ROOM := 17

  ghost predicate StartsWithConnect(s: ClientState) {
    s.accepted != [] && s.accepted[0] == ConnectPacket(KeepAliveSeconds(s.interval))
  }

  ghost predicate ConnectFirst(s: ClientState) {
    match s.state
    case Disconnected => true
    case Connecting => s.accepted == [] && s.pending == 0 && !s.connectSent
    case _ => s.connectSent && StartsWithConnect(s)
  }

  /** Seventeen bytes of transmit buffer are what an empty client identifier needs. */
  lemma ConnectEncodes(s: ClientState)
    requires Valid(s)
    ensures var k := KeepAliveSeconds(s.interval);
            var e := Encoding(s.tx, CONNECT_BYTE, ConnectFields([], k));
            && (e.status == OK <==> |s.tx| >= CONNECT_ROOM)
            && (e.status == OK ==> e.buf[..e.outLen] == ConnectPacket(k))
  {
    var k := KeepAliveSeconds(s.interval);
    var fields := ConnectFields([], k);
    ConnectPieces(k);
    EncodingExact(s.tx, CONNECT_BYTE, fields);
    assert Concat(fields)[..12] == Concat(fields);
  }

  lemma PollIoConnects(s: ClientState, env: PollEnv)
    requires Valid(s) && |s.tx| >= CONNECT_ROOM && !Hard(env.send.status)
    requires ConnectFirst(s) || ConnectDue(s)
    ensures ConnectFirst(PollIo(s, env).0)
  {
    hide SendEncoded, Encoding, EncodingPingreq, Parse;
    if s.state == ConnectSent && !s.connectSent {
      ConnectEncodes(s);
      Outbound.SendEncodedFrame(s, ConnectEncoding(s), env.send);
    } else if s.state == Connected {
      var s1 := ClientRead(s, env.read).0;
      Outbound.SendEncodedFrame(s1, EncodingPingreq(s1.tx), env.send);
    }
  }

  /** The transport has just been reached and CONNECT is due. */
  ghost predicate ConnectDue(s: ClientState) {
    s.state == ConnectSent && s.accepted == [] && s.pending == 0 && !s.connectSent
  }

  lemma CoreConnectFirst(s: ClientState, env: PollEnv)
    requires Valid(s) && LinkInv(s) && ConnectFirst(s)
    ensures var (s1, core) := CorePoll(s, env);
            |s1.tx| == |s.tx| && (ConnectFirst(s1) || (core == OK && ConnectDue(s1)))
  {
    hide AwaitConnack, ConnectPacket;
    Outbound.CoreFrame(s, env);
    CoreEdges(s, env);
  }

  lemma PollConnectFirst(s: ClientState, env: PollEnv)
    requires Valid(s) && |s.tx| >= CONNECT_ROOM && LinkInv(s) && ConnectFirst(s) && Polite(s, OpPoll(env))
    ensures ConnectFirst(Poll(s, env).0)
  {
    hide FlushPending, CorePoll, PollIo, ConnectPacket;
    Outbound.FlushMoves(s, env.flush);
    Outbound.FlushStatus(s, env.flush);
    var s1 := FlushPending(s, env.flush).0;
    CoreConnectFirst(s1, env);
    var (s2, core) := CorePoll(s1, env);
    if core == OK {
      PollIoConnects(s2, env);
    }
  }

  lemma StepConnectFirst(s: ClientState, op: Op)
    requires Valid(s) && |s.tx| >= CONNECT_ROOM && LinkInv(s) && ConnectFirst(s) && Polite(s, op)
    ensures ConnectFirst(Apply(s, op).0)
  {
    hide Publish, Subscribe, Poll, ConnectPacket;
    match op {
      case OpConnect =>
      case OpDisconnect =>
      case OpPublish(_, _, _, _) =>
        Outbound.SendingFrame(s, op);
        Outbound.StepAccepts(s, op);
        SameHead(s, Apply(s, op).0);
      case OpSubscribe(_, _, _) =>
        Outbound.SendingFrame(s, op);
        Outbound.StepAccepts(s, op);
        SameHead(s, Apply(s, op).0);
      case OpPoll(env) => PollConnectFirst(s, env);
    }
  }

  lemma SameHead(s: ClientState, s1: ClientState)
    requires StartsWithConnect(s) && s1.interval == s.interval
    requires || s1.accepted == s.accepted
             || (|s1.accepted| == |s.accepted| + 1 && s1.accepted[..|s.accepted|] == s.accepted)
    ensures StartsWithConnect(s1)
  {
    assert s1.accepted[0] == s1.accepted[..|s.accepted|][0];
  }

  lemma {:induction false} ConnectComesFirst(s: ClientState, ops: seq<Op>)
    requires Valid(s) && |s.tx| >= CONNECT_ROOM && LinkInv(s) && ConnectFirst(s) && PoliteRun(s, ops)
    ensures ConnectFirst(Run(s, ops))
    decreases |ops|
  {
    if ops != [] {
      StepConnectFirst(s, ops[0]);
      OnlyCodedEdges(s, ops[0]);
      ConfigStays(s, ops[0]);
      ConnectComesFirst(Apply(s, ops[0]).0, ops[1..]);
    }
  }

  const GREETING: seq<byte> := [0x20, 0x02, 0x00, 0x00]

  lemma GreetingIsConnack()
    ensures H.Decode(GREETING) == Got(H.Header(H.CONNACK, 0, 2, 2))
  {
    assert RL.Encode(2) == [2];
    RL.RoundTrip(2, [0, 0]);
    assert GREETING[1..] == [2] + [0, 0];
  }

  /** The transport connects at once. */
  function Reached(now: u64): PollEnv {
    PollEnv(WriteReply(OK, 0), OK, ReadReply(OK, []), now, ReadReply(OK, []), now, WriteReply(OK, 0))
  }

  /** A CONNACK is there to be read, and then the connection fails. */
  function Greeted(now: u64): PollEnv {
    Reached(now).(ackRead := ReadReply(OK, GREETING), read := ReadReply(Status(Io, Closed), []))
  }

  /** Connect, reach the transport, and find a CONNACK there. */
  function Hasty(now: u64): seq<Op> {
    [OpConnect, OpPoll(Reached(now)), OpPoll(Greeted(now))]
  }

  lemma GreetingConnects(s: ClientState, now: u64)
    requires Valid(s) && s.state == ConnectSent && s.rx == [] && 4 <= s.rxSize
    ensures var s1 := AwaitConnack(s, Greeted(now)).0;
            && s1.state == Connected && s1.accepted == s.accepted && s1.rx == [] && s1.lastActivity == now && Valid(s1)
            && AwaitConnack(s, Greeted(now)).1 == OK
  {
    var s1 := Receive(s, Greeted(now).ackRead);
    assert s1.rx == GREETING;
    GreetingIsConnack();
    assert GREETING[..4] == GREETING;
    assert JudgeConnack(s1, now) == TakeConnack(s1, 4, now);
  }

  /** With less room the poll that should send CONNECT reports an error, the next one
      still looks for the CONNACK, and a peer that volunteers one is believed. */
  lemma SmallBufferSkipsConnect(tx: seq<byte>, rxSize: nat, interval: u64, now: u64)
    requires 0 < |tx| < CONNECT_ROOM && 4 <= rxSize
    ensures var s0 := Init(tx, rxSize, interval, now);
            PoliteRun(s0, Hasty(now)) && Run(s0, Hasty(now)).state == Connected && Run(s0, Hasty(now)).accepted == []
  {
    var s0 := Init(tx, rxSize, interval, now);
    var s1 := Apply(s0, OpConnect).0;
    var s2 := Apply(s1, OpPoll(Reached(now))).0;
    ConnectEncodes(CorePoll(s1, Reached(now)).0);
    assert s2.state == ConnectSent && s2.accepted == [] && s2.pending == 0 && s2.rx == [];
    GreetingConnects(s2, now);
    var s3 := Apply(s2, OpPoll(Greeted(now))).0;
    assert s3.state == Connected && s3.accepted == [];
    ThreeSteps(s0, OpConnect, OpPoll(Reached(now)), OpPoll(Greeted(now)));
  }

  lemma ThreeSteps(s: ClientState, a: Op, b: Op, c: Op)
    requires Valid(s)
    ensures var s1 := Apply(s, a).0; var s2 := Apply(s1, b).0; var s3 := Apply(s2, c).0;
            && Run(s, [a, b, c]) == s3
            && (PoliteRun(s, [a, b, c]) <==> Polite(s, a) && Polite(s1, b) && Polite(s2, c))
  {
    var s1 := Apply(s, a).0;
    var s2 := Apply(s1, b).0;
    var s3 := Apply(s2, c).0;
    assert [a, b, c][1..] == [b, c] && [b, c][1..] == [c] && [c][1..] == [];
    assert Run(s3, []) == s3 && Run(s2, [c]) == s3 && Run(s1, [b, c]) == s3;
    assert PoliteRun(s2, [c]) <==> Polite(s2, c);
    assert PoliteRun(s1, [b, c]) <==> Polite(s1, b) && PoliteRun(s2, [c]);
  }

  /** A connected client has sent CONNECT first, on every polite run, exactly when the
      transmit buffer has room for it. */
  lemma ConnectFirstIffRoom(tx: seq<byte>, rxSize: nat, interval: u64, now: u64)
    requires 0 < |tx| && 4 <= rxSize
    ensures (forall ops :: PoliteRun(Init(tx, rxSize, interval, now), ops)
                        && Run(Init(tx, rxSize, interval, now), ops).state == Connected
                       ==> StartsWithConnect(Run(Init(tx, rxSize, interval, now), ops)))
       <==> |tx| >= CONNECT_ROOM
  {
    var s0 := Init(tx, rxSize, interval, now);
    if |tx| >= CONNECT_ROOM {
      forall ops | PoliteRun(s0, ops) && Run(s0, ops).state == Connected
        ensures StartsWithConnect(Run(s0, ops))
      {
        ConnectComesFirst(s0, ops);
      }
    } else {
      SmallBufferSkipsConnect(tx, rxSize, interval, now);
    }
  }
}
