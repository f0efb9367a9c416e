/** Clocks and counters: the CONNACK timeout, the keepalive interval and the packet
    identifiers. */
module Timing {
  import opened Bytes
  import opened Statuses
  import opened Packets
  import opened Framing
  import opened ClientModel
  import Outbound
  import Connection
  import H = FixedHeader
  import RL = RemainingLength

  // ----- CONNACK timeout -----

  /** While the client waits, the last activity is the moment the transport connected. */
  ghost predicate WaitInv(s: ClientState, clock: u64) {
    s.state == ConnectSent ==> s.lastActivity == s.connectedAt <= clock
  }

  /** The readings a poll takes do not go back behind `clock` or behind each other. */
  predicate Monotone(op: Op, clock: u64) {
    op.OpPoll? ==> clock <= op.env.coreNow <= op.env.now
  }

  function ClockAfter(op: Op, clock: u64): u64 {
    if op.OpPoll? then op.env.now else clock
  }

  lemma JudgeTimes(s: ClientState, now: u64)
    requires Valid(s) && s.state == ConnectSent && s.lastActivity == s.connectedAt <= now
    ensures var (s1, status) := JudgeConnack(s, now);
            && s1.state in {ConnectSent, Connected, Disconnected} && s1.connectedAt == s.connectedAt
            && (s1.state == ConnectSent ==> s1.lastActivity == s.lastActivity)
            && (s1.state == ConnectSent ==> now < s1.connectedAt + CONNACK_TIMEOUT_MS)
  {
  }

  lemma PollIoWaits(s: ClientState, env: PollEnv)
    requires Valid(s)
    ensures var s1 := PollIo(s, env).0;
            && s1.state == s.state && s1.connectedAt == s.connectedAt
            && (s.state != Connected ==> s1.lastActivity == s.lastActivity)
  {
    hide SendEncoded, Encoding, ClientRead, KeepAlive;
    Connection.PollIoFrame(s, env);
    if s.state == ConnectSent {
      Outbound.SendEncodedFrame(s, ConnectEncoding(s), env.send);
    }
  }

  lemma PollWaits(s: ClientState, env: PollEnv, clock: u64)
    requires Valid(s) && WaitInv(s, clock) && Monotone(OpPoll(env), clock)
    ensures var (s1, status) := Poll(s, env);
            && WaitInv(s1, env.now)
            && (status == OK && s1.state == ConnectSent ==>
                  s1.connectedAt <= env.coreNow < s1.connectedAt + CONNACK_TIMEOUT_MS)
  {
    hide FlushPending, JudgeConnack, PollIo;
    Outbound.FlushMoves(s, env.flush);
    var (s1, flushed) := FlushPending(s, env.flush);
    if flushed == OK {
      if s1.state == ConnectSent && !Hard(env.ackRead.status) {
        JudgeTimes(Receive(s1, env.ackRead), env.coreNow);
      }
      PollIoWaits(CorePoll(s1, env).0, env);
    }
  }

  lemma StepWaits(s: ClientState, op: Op, clock: u64)
    requires Valid(s) && WaitInv(s, clock) && Monotone(op, clock)
    ensures WaitInv(Apply(s, op).0, ClockAfter(op, clock))
  {
    match op {
      case OpConnect =>
      case OpDisconnect =>
      case OpPublish(_, _, _, _) => Outbound.SendingFrame(s, op);
      case OpSubscribe(_, _, _) => Outbound.SendingFrame(s, op);
      case OpPoll(env) => PollWaits(s, env, clock);
    }
  }

  ghost predicate MonotoneRun(ops: seq<Op>, clock: u64)
    decreases |ops|
  {
    ops == [] || (Monotone(ops[0], clock) && MonotoneRun(ops[1..], ClockAfter(ops[0], clock)))
  }

  function ClockAfterRun(ops: seq<Op>, clock: u64): u64
    decreases |ops|
  {
    if ops == [] then clock else ClockAfterRun(ops[1..], ClockAfter(ops[0], clock))
  }

  lemma {:induction false} RunWaits(s: ClientState, ops: seq<Op>, clock: u64)
    requires Valid(s) && WaitInv(s, clock) && MonotoneRun(ops, clock)
    ensures WaitInv(Run(s, ops), ClockAfterRun(ops, clock))
    decreases |ops|
  {
    if ops != [] {
      StepWaits(s, ops[0], clock);
      RunWaits(Apply(s, ops[0]).0, ops[1..], ClockAfter(ops[0], clock));
    }
  }

  /** After any run from the start, a poll that answers OK and leaves the client waiting
      read the clock less than five seconds after the transport connected, whatever
      polls, sends and partial CONNACKs came before. */
  lemma ConnackTimeout(tx: seq<byte>, rxSize: nat, interval: u64, start: u64, ops: seq<Op>, env: PollEnv)
    requires 0 < |tx| && 0 < rxSize
    requires MonotoneRun(ops, start) && Monotone(OpPoll(env), ClockAfterRun(ops, start))
    ensures var (s, status) := Poll(Run(Init(tx, rxSize, interval, start), ops), env);
            status == OK && s.state == ConnectSent ==> s.connectedAt <= env.coreNow < s.connectedAt + 5000
  {
    var s0 := Init(tx, rxSize, interval, start);
    RunWaits(s0, ops, start);
    PollWaits(Run(s0, ops), env, ClockAfterRun(ops, start));
  }

  /** And once five seconds have passed, a poll ends the wait one way or the other, unless
      there are staged bytes that the transport fails to take. */
  lemma WaitEnds(s: ClientState, env: PollEnv)
    requires Valid(s) && s.state == ConnectSent && WaitInv(s, env.coreNow)
    requires env.coreNow >= s.connectedAt + CONNACK_TIMEOUT_MS
    ensures var s1 := Poll(s, env).0;
            && (s1.state == ConnectSent <==> s.pending > 0 && Hard(env.flush.status))
            && s1.state in {ConnectSent, Connected, Disconnected}
  {
    hide FlushPending, JudgeConnack, PollIo;
    Outbound.FlushMoves(s, env.flush);
    Outbound.FlushStatus(s, env.flush);
    var s1 := FlushPending(s, env.flush).0;
    if !Hard(env.ackRead.status) {
      JudgeTimes(Receive(s1, env.ackRead), env.coreNow);
    }
    PollIoWaits(CorePoll(s1, env).0, env);
  }

  /** Polls of a client that is connected or disconnected leave it so. */
  lemma {:induction false} PollsSettle(s: ClientState, ops: seq<Op>)
    requires Valid(s) && s.state in {Connected, Disconnected}
    requires forall op :: op in ops ==> op.OpPoll?
    ensures Run(s, ops).state == s.state
    decreases |ops|
  {
    hide FlushPending, PollIo;
    if ops != [] {
      var env := ops[0].env;
      assert ops[0] in ops && forall op :: op in ops[1..] ==> op in ops;
      Outbound.FlushMoves(s, env.flush);
      PollIoWaits(CorePoll(FlushPending(s, env.flush).0, env).0, env);
      PollsSettle(Apply(s, ops[0]).0, ops[1..]);
    }
  }

  /** Polls whose flush fails over staged bytes do nothing, in any state: on a dead link the
      wait does not time out, and a disconnect call is never carried out. */
  lemma {:induction false} DeadLinkFreezes(s: ClientState, ops: seq<Op>)
    requires Valid(s) && s.pending > 0
    requires forall op :: op in ops ==> op.OpPoll? && Hard(op.env.flush.status)
    ensures Run(s, ops) == s
    decreases |ops|
  {
    hide CorePoll, PollIo;
    if ops != [] {
      assert ops[0] in ops && forall op :: op in ops[1..] ==> op in ops;
      DeadLinkFreezes(s, ops[1..]);
    }
  }

  /** However many polls come after the five seconds, the wait outlasts them exactly when
      every flush fails over staged bytes. */
  lemma {:induction false} WaitOutlastsExactly(s: ClientState, ops: seq<Op>)
    requires Valid(s) && s.state == ConnectSent && s.lastActivity == s.connectedAt && ops != []
    requires forall op :: op in ops ==> op.OpPoll? && op.env.coreNow >= s.connectedAt + CONNACK_TIMEOUT_MS
    ensures Run(s, ops).state == ConnectSent
       <==> s.pending > 0 && forall op :: op in ops ==> Hard(op.env.flush.status)
    decreases |ops|
  {
    hide Poll;
    var env, rest := ops[0].env, ops[1..];
    assert ops[0] in ops && ops == [ops[0]] + rest && forall op :: op in ops <==> op == ops[0] || op in rest;
    WaitEnds(s, env);
    var s1 := Poll(s, env).0;
    if s1.state == ConnectSent {
      DeadLinkFreezes(s, [ops[0]]);
      assert [ops[0]][1..] == [];
      assert Run(s1, []) == s1;
      assert s1 == s;
      if rest != [] {
        WaitOutlastsExactly(s, rest);
      }
    } else {
      PollsSettle(s1, rest);
    }
  }

  // ----- keepalive -----

  /** Consecutive entries differ by at least lo and by less than hi. */
  ghost predicate Gaps(times: seq<u64>, lo: nat, hi: nat) {
    forall i :: 0 < i < |times| ==> lo <= times[i] - times[i - 1] < hi
  }

  /** A connected client whose last keepalive check, at `checked`, left it inside its
      interval. */
  ghost predicate Fresh(s: ClientState, checked: u64) {
    s.state == Connected && s.lastActivity <= checked < s.lastActivity + s.interval
  }

  /** Polls answer OK, keep the client connected and come at most d after the last. */
  ghost predicate Attentive(s: ClientState, op: Op, checked: u64, d: nat)
    requires Valid(s)
  {
    match op
    case OpPoll(env) => Poll(s, env).1 == OK && Poll(s, env).0.state == Connected && checked <= env.now <= checked + d
    case OpPublish(_, _, _, _) => true
    case OpSubscribe(_, _, _) => true
    case _ => false
  }

  ghost predicate AttentiveRun(s: ClientState, ops: seq<Op>, checked: u64, d: nat)
    requires Valid(s)
    decreases |ops|
  {
    ops == [] || (Attentive(s, ops[0], checked, d)
                  && AttentiveRun(Apply(s, ops[0]).0, ops[1..], ClockAfter(ops[0], checked), d))
  }

  lemma KeepAliveTimes(s: ClientState, env: PollEnv)
    requires Valid(s) && s.lastActivity <= env.now && KeepAlive(s, env).1 == OK
    ensures var s1 := KeepAlive(s, env).0;
            && s1.state == s.state && s1.interval == s.interval
            && (if env.now - s.lastActivity < s.interval
                then s1.pings == s.pings && s1.lastActivity == s.lastActivity && s1.accepted == s.accepted
                else s1.pings == s.pings + [env.now] && s1.lastActivity == env.now
                     && s1.accepted == s.accepted + [[0xC0, 0x00]])
  {
    hide SendEncoded, EncodingPingreq;
    Outbound.PingAccepts(s, env.send);
    Outbound.SendEncodedFrame(s, EncodingPingreq(s.tx), env.send);
  }

  /** A poll of a connected client accepts a PINGREQ exactly when the interval is over. */
  lemma ConnectedPoll(s: ClientState, env: PollEnv)
    requires Valid(s) && s.state == Connected && s.lastActivity <= env.now
    requires Poll(s, env).1 == OK
    ensures var s1 := Poll(s, env).0;
            && s1.state == Connected && s1.interval == s.interval
            && (if env.now - s.lastActivity < s.interval
                then s1.pings == s.pings && s1.lastActivity == s.lastActivity && s1.accepted == s.accepted
                else s1.pings == s.pings + [env.now] && s1.lastActivity == env.now
                     && s1.accepted == s.accepted + [[0xC0, 0x00]])
  {
    hide FlushPending, KeepAlive, Parse;
    Outbound.FlushMoves(s, env.flush);
    var s1 := FlushPending(s, env.flush).0;
    KeepAliveTimes(ClientRead(s1, env.read).0, env);
  }

  /** The poll that completes the handshake leaves the client fresh. */
  lemma HandshakeFresh(s: ClientState, env: PollEnv)
    requires Valid(s) && s.state == ConnectSent && s.interval > 0
    requires env.coreNow <= env.now && Poll(s, env).1 == OK && Poll(s, env).0.state == Connected
    ensures Fresh(Poll(s, env).0, env.now)
  {
    Outbound.FlushMoves(s, env.flush);
    var s1 := FlushPending(s, env.flush).0;
    Outbound.CoreFrame(s1, env);
    var s2 := CorePoll(s1, env).0;
    Connection.PollIoFrame(s2, env);
    assert s2.state == Connected && s2.lastActivity == env.coreNow by {
      JudgeConnects(Receive(s1, env.ackRead), env.coreNow);
    }
    KeepAliveTimes(ClientRead(s2, env.read).0, env);
  }

  lemma JudgeConnects(s: ClientState, now: u64)
    requires Valid(s) && s.state == ConnectSent
    ensures var s1 := JudgeConnack(s, now).0; s1.state == Connected ==> s1.lastActivity == now
  {
  }

  lemma StepKeepsAlive(s: ClientState, op: Op, checked: u64, d: nat)
    requires Valid(s) && s.interval > 0 && Fresh(s, checked) && Attentive(s, op, checked, d)
    ensures var s1 := Apply(s, op).0;
            && Fresh(s1, ClockAfter(op, checked)) && s1.interval == s.interval
            && ((s1.pings == s.pings && s1.lastActivity == s.lastActivity)
                || (s1.pings == s.pings + [s1.lastActivity]
                    && s.interval <= s1.lastActivity - s.lastActivity < s.interval + d))
  {
    match op {
      case OpPublish(_, _, _, _) => Outbound.SendingFrame(s, op);
      case OpSubscribe(_, _, _) => Outbound.SendingFrame(s, op);
      case OpPoll(env) => ConnectedPoll(s, env);
    }
  }

  lemma GapsExtend(first: u64, times: seq<u64>, lo: nat, hi: nat)
    requires times != [] && Gaps(times, lo, hi) && lo <= times[0] - first < hi
    ensures Gaps([first] + times, lo, hi)
  {
    var more := [first] + times;
    forall i | 0 < i < |more|
      ensures lo <= more[i] - more[i - 1] < hi
    {
      assert more[i] == times[i - 1];
      if i > 1 {
        assert more[i - 1] == times[i - 2];
      }
    }
  }

  /** However sends and polls are interleaved, from the last activity on the PINGREQs
      are at least the interval and less than interval + d apart. */
  lemma {:induction false} KeepAliveGaps(s: ClientState, ops: seq<Op>, checked: u64, d: nat)
    requires Valid(s) && s.interval > 0 && Fresh(s, checked) && AttentiveRun(s, ops, checked, d)
    ensures s.pings <= Run(s, ops).pings
    ensures Gaps([s.lastActivity] + Run(s, ops).pings[|s.pings|..], s.interval, s.interval + d)
    decreases |ops|
  {
    if ops == [] {
      assert s.pings[|s.pings|..] == [];
    } else {
      var s1 := Apply(s, ops[0]).0;
      StepKeepsAlive(s, ops[0], checked, d);
      KeepAliveGaps(s1, ops[1..], ClockAfter(ops[0], checked), d);
      PingsSplit(s, s1, Run(s1, ops[1..]).pings, d);
    }
  }

  lemma PingsSplit(s: ClientState, s1: ClientState, all: seq<u64>, d: nat)
    requires s1.interval == s.interval && s1.pings <= all
    requires Gaps([s1.lastActivity] + all[|s1.pings|..], s.interval, s.interval + d)
    requires || (s1.pings == s.pings && s1.lastActivity == s.lastActivity)
             || (s1.pings == s.pings + [s1.lastActivity]
                 && s.interval <= s1.lastActivity - s.lastActivity < s.interval + d)
    ensures s.pings <= all && Gaps([s.lastActivity] + all[|s.pings|..], s.interval, s.interval + d)
  {
    if s1.pings != s.pings {
      var times := [s1.lastActivity] + all[|s1.pings|..];
      assert all[|s.pings|] == s1.pings[|s.pings|];
      assert all[|s.pings|..] == times;
      GapsExtend(s.lastActivity, times, s.interval, s.interval + d);
    }
  }

  // ----- keepalive from the start -----

  /** No PINGREQ is counted before the connection stands. */
  ghost predicate NoPingsYet(s: ClientState) {
    s.state == Connecting || s.state == ConnectSent ==> s.pings == []
  }

  lemma PollNoPings(s: ClientState, env: PollEnv)
    requires Valid(s) && NoPingsYet(s)
    ensures NoPingsYet(Poll(s, env).0)
  {
    hide FlushPending, AwaitConnack, ClientRead, KeepAlive, SendConnect;
    Outbound.FlushMoves(s, env.flush);
    var s1 := FlushPending(s, env.flush).0;
    Outbound.CoreFrame(s1, env);
    CoreBefore(s1, env);
    var s2 := CorePoll(s1, env).0;
    PollIoWaits(s2, env);
    ConnectNoPings(s2, env.send);
  }

  /** Waiting and connecting are entered from before the connection only. */
  lemma CoreBefore(s: ClientState, env: PollEnv)
    requires Valid(s)
    ensures var s1 := CorePoll(s, env).0;
            s1.state == Connecting || s1.state == ConnectSent ==> s.state == Connecting || s.state == ConnectSent
  {
    hide AwaitConnack;
  }

  lemma ConnectNoPings(s: ClientState, reply: WriteReply)
    requires Valid(s)
    ensures SendConnect(s, reply).0.pings == s.pings
  {
    hide SendEncoded, Encoding;
    Outbound.SendEncodedFrame(s, ConnectEncoding(s), reply);
  }

  lemma StepNoPings(s: ClientState, op: Op)
    requires Valid(s) && NoPingsYet(s)
    ensures NoPingsYet(Apply(s, op).0)
  {
    hide Publish, Subscribe, Poll;
    match op {
      case OpConnect =>
      case OpDisconnect =>
      case OpPublish(_, _, _, _) => Outbound.SendingFrame(s, op);
      case OpSubscribe(_, _, _) => Outbound.SendingFrame(s, op);
      case OpPoll(env) => PollNoPings(s, env);
    }
  }

  lemma {:induction false} RunNoPings(s: ClientState, ops: seq<Op>)
    requires Valid(s) && NoPingsYet(s)
    ensures NoPingsYet(Run(s, ops))
    decreases |ops|
  {
    hide Apply, NoPingsYet;
    if ops != [] {
      StepNoPings(s, ops[0]);
      RunNoPings(Apply(s, ops[0]).0, ops[1..]);
    }
  }

  /** The poll that completes the handshake starts the keepalive at its own clock reading. */
  lemma HandshakePings(s: ClientState, env: PollEnv)
    requires Valid(s) && s.state == ConnectSent && NoPingsYet(s)
    requires env.coreNow <= env.now && Poll(s, env).1 == OK && Poll(s, env).0.state == Connected
    ensures var s1 := Poll(s, env).0;
            && s1.interval == s.interval
            && if env.now - env.coreNow < s.interval then s1.pings == [] && s1.lastActivity == env.coreNow
               else s1.pings == [env.now] && s1.lastActivity == env.now
  {
    hide FlushPending, JudgeConnack, ClientRead, KeepAlive, SendConnect;
    Outbound.FlushMoves(s, env.flush);
    var s1 := FlushPending(s, env.flush).0;
    Outbound.CoreFrame(s1, env);
    var s2 := CorePoll(s1, env).0;
    Connection.PollIoFrame(s2, env);
    JudgeConnects(Receive(s1, env.ackRead), env.coreNow);
    ReadKeepsTimes(s2, env.read);
    KeepAliveTimes(ClientRead(s2, env.read).0, env);
  }

  lemma ReadKeepsTimes(s: ClientState, reply: ReadReply)
    requires Valid(s)
    ensures var s1 := ClientRead(s, reply).0;
            s1.state == s.state && s1.lastActivity == s.lastActivity && s1.interval == s.interval && s1.pings == s.pings
  {
    hide Parse;
  }

  /** After any run from the start, a poll that completes the handshake, and then polls that
      answer OK and come at most d apart: from the CONNACK on, all PINGREQs of the connection
      are at least the interval and less than interval + d apart. */
  lemma KeepAliveFromStart(tx: seq<byte>, rxSize: nat, interval: u64, start: u64,
                           before: seq<Op>, env: PollEnv, after: seq<Op>, d: nat)
    requires 0 < |tx| && 0 < rxSize && 0 < interval
    requires env.coreNow <= env.now <= env.coreNow + d
    ensures var s := Run(Init(tx, rxSize, interval, start), before);
            var (s1, status) := Poll(s, env);
            s.state == ConnectSent && status == OK && s1.state == Connected && AttentiveRun(s1, after, env.now, d) ==>
              Gaps([env.coreNow] + Run(s1, after).pings, interval, interval + d)
  {
    hide Poll, Run, AttentiveRun, Gaps;
    var s0 := Init(tx, rxSize, interval, start);
    var s := Run(s0, before);
    RunNoPings(s0, before);
    RunInterval(s0, before);
    var (s1, status) := Poll(s, env);
    if s.state == ConnectSent && status == OK && s1.state == Connected && AttentiveRun(s1, after, env.now, d) {
      HandshakeFresh(s, env);
      HandshakePings(s, env);
      KeepAliveGaps(s1, after, env.now, d);
      FirstGap(env.coreNow, s1, Run(s1, after).pings, d);
    }
  }

  lemma FirstGap(connack: u64, s1: ClientState, all: seq<u64>, d: nat)
    requires s1.pings <= all && Gaps([s1.lastActivity] + all[|s1.pings|..], s1.interval, s1.interval + d)
    requires || (s1.pings == [] && s1.lastActivity == connack)
             || (s1.pings == [s1.lastActivity] && 0 < s1.interval <= s1.lastActivity - connack <= d)
    ensures Gaps([connack] + all, s1.interval, s1.interval + d)
  {
    if s1.pings == [] {
      assert all[0..] == all;
    } else {
      assert all == [s1.lastActivity] + all[1..];
      GapsExtend(connack, all, s1.interval, s1.interval + d);
    }
  }

  lemma {:induction false} RunInterval(s: ClientState, ops: seq<Op>)
    requires Valid(s)
    ensures Run(s, ops).interval == s.interval
    decreases |ops|
  {
    hide Apply;
    if ops != [] {
      Connection.ConfigStays(s, ops[0]);
      RunInterval(Apply(s, ops[0]).0, ops[1..]);
    }
  }

  /** The CONNECT packet of section 3.1 of MQTT 3.1.1: protocol name and level, clean
      session, the keepalive in seconds, and an empty client identifier. */
  lemma ConnectBytes(keepAlive: u16)
    ensures ConnectPacket(keepAlive)
         == [0x10, 12, 0, 4, 0x4D, 0x51, 0x54, 0x54, 4, 2, keepAlive / 256, keepAlive % 256, 0, 0]
  {
    ConnectPieces(keepAlive);
    RL.EncodeDigit(12);
  }

  /** A broker may drop a client that is silent for one and a half times the announced
      keepalive; with polls close enough together no gap is that long. */
  lemma KeepAliveWithinGrace(s: ClientState, ops: seq<Op>, checked: u64, d: nat)
    requires Valid(s) && 1000 <= s.interval <= 65535999
    requires Fresh(s, checked) && AttentiveRun(s, ops, checked, d)
    requires d <= 500 * KeepAliveSeconds(s.interval) - s.interval % 1000
    ensures var k := KeepAliveSeconds(s.interval); var s1 := Run(s, ops);
            && 1000 * k <= s.interval < 1000 * k + 1000
            && s.pings <= s1.pings
            && Gaps([s.lastActivity] + s1.pings[|s.pings|..], 1000 * k, 1500 * k)
  {
    KeepAliveGaps(s, ops, checked, d);
  }

  /** The 16 bits of the field announce the interval, in whole seconds, exactly up to here;
      beyond, the announced grace period is over before the first keepalive is due. */
  lemma AnnouncedExactly(interval: u64)
    ensures var k := KeepAliveSeconds(interval);
            && (1000 * k <= interval < 1000 * k + 1000 <==> interval <= 65535999)
            && (interval > 65535999 ==> interval > 1500 * k)
  {
    var seconds := interval / 1000;
    var wraps := seconds / U16_SIZE;
    assert seconds == U16_SIZE * wraps + KeepAliveSeconds(interval);
    assert seconds >= U16_SIZE <==> wraps >= 1;
  }

  /** Then no polls, however close together, keep a gap within it. */
  lemma KeepAliveMissesGrace(s: ClientState, ops: seq<Op>, checked: u64, d: nat)
    requires Valid(s) && s.interval > 65535999
    requires Fresh(s, checked) && AttentiveRun(s, ops, checked, d)
    ensures var k := KeepAliveSeconds(s.interval); var s1 := Run(s, ops);
            && s.pings <= s1.pings
            && Gaps([s.lastActivity] + s1.pings[|s.pings|..], 1500 * k + 1, s.interval + d)
  {
    KeepAliveGaps(s, ops, checked, d);
    AnnouncedExactly(s.interval);
  }

  // ----- packet identifiers -----

  function DrawMany(id: u16, n: nat): u16 {
    if n == 0 then id else NextPacketId(DrawMany(id, n - 1))
  }

  lemma Mod65535(n: nat, q: nat, r: nat)
    requires n == 65535 * q + r && r < 65535
    ensures n % 65535 == r
  {
  }

  lemma NextInCycle(x: nat)
    ensures (x + 1) % 65535 == if x % 65535 == 65534 then 0 else x % 65535 + 1
  {
    var q, r := x / 65535, x % 65535;
    if r == 65534 {
      Mod65535(x + 1, q + 1, 0);
    } else {
      Mod65535(x + 1, q, r + 1);
    }
  }

  /** The n-th identifier drawn, in closed form; zero is never drawn. */
  lemma {:induction false} NthPacketId(id: u16, n: nat)
    requires 1 <= id
    ensures DrawMany(id, n) == (id as int - 1 + n) % 65535 + 1
  {
    if n == 0 {
      Mod65535(id - 1, 0, id - 1);
    } else {
      NthPacketId(id, n - 1);
      NextInCycle(id as int - 1 + (n - 1));
    }
  }

  /** Among 65535 consecutive draws no identifier repeats. */
  lemma PacketIdsDistinct(id: u16, i: nat, j: nat)
    requires 1 <= id && i < j < i + 65535
    ensures DrawMany(id, i) != DrawMany(id, j)
  {
    hide DrawMany;
    NthPacketId(id, i);
    NthPacketId(id, j);
    var x, y := id as int - 1 + i, id as int - 1 + j;
    if x % 65535 == y % 65535 {
      assert y - x == 65535 * (y / 65535 - x / 65535);
    }
  }

  /** How many identifiers a run draws: one for each subscribe call at QoS 0, also for
      those that fail afterwards. */
  function Draws(ops: seq<Op>): nat {
    if ops == [] then 0 else DrawsOf(ops[0]) + Draws(ops[1..])
  }

  function DrawsOf(op: Op): nat {
    if op.OpSubscribe? && op.qos == 0 then 1 else 0
  }

  lemma {:induction false} DrawManyTwice(id: u16, m: nat, n: nat)
    ensures DrawMany(DrawMany(id, m), n) == DrawMany(id, m + n)
  {
    if n > 0 {
      DrawManyTwice(id, m, n - 1);
    }
  }

  lemma StepDraws(s: ClientState, op: Op)
    requires Valid(s)
    ensures Apply(s, op).0.packetId
         == DrawMany(s.packetId, DrawsOf(op))
  {
    assert DrawMany(s.packetId, 1) == NextPacketId(DrawMany(s.packetId, 0));
    match op {
      case OpConnect =>
      case OpDisconnect =>
      case OpPublish(_, _, _, _) => Outbound.SendingFrame(s, op);
      case OpSubscribe(_, _, _) => Outbound.SendingFrame(s, op);
      case OpPoll(env) => Connection.PollConfig(s, env);
    }
  }

  /** After any run the counter is the closed form of the draws made. */
  lemma {:induction false} RunPacketIds(s: ClientState, ops: seq<Op>)
    requires Valid(s)
    ensures Run(s, ops).packetId == DrawMany(s.packetId, Draws(ops))
    decreases |ops|
  {
    hide Apply, NextPacketId;
    if ops != [] {
      var s1 := Apply(s, ops[0]).0;
      StepDraws(s, ops[0]);
      RunPacketIds(s1, ops[1..]);
      DrawManyTwice(s.packetId, DrawsOf(ops[0]), Draws(ops[1..]));
    }
  }

  /** A client draws 2 first, and after n draws since it was configured stands at
      n % 65535 + 1. */
  lemma IdsFromStart(tx: seq<byte>, rxSize: nat, interval: u64, start: u64, ops: seq<Op>)
    requires 0 < |tx| && 0 < rxSize
    ensures Run(Init(tx, rxSize, interval, start), ops).packetId == Draws(ops) % 65535 + 1
  {
    hide Run, DrawMany;
    RunPacketIds(Init(tx, rxSize, interval, start), ops);
    NthPacketId(1, Draws(ops));
  }

  /** An accepted SUBSCRIBE is the packet of the standard under the identifier drawn. */
  lemma SubscribeCarriesId(s: ClientState, topic: CString, reply: WriteReply)
    requires Valid(s) && 5 + |topic| <= RL.MAX && Subscribe(s, topic, 0, reply).1 == OK
    ensures Subscribe(s, topic, 0, reply).0.accepted
         == s.accepted + [SubscribePacket(NextPacketId(s.packetId), topic)]
  {
    var s1 := s.(packetId := NextPacketId(s.packetId));
    SubscribeEncodes(s1.tx, s1.packetId, topic);
    Outbound.SendEncodedFrame(s1, Encoding(s1.tx, SUBSCRIBE_BYTE, SubscribeFields(s1.packetId, topic)), reply);
  }

  /** The identifier in the body of a packet, behind its fixed header. */
  function IdIn(p: seq<byte>): int
    requires H.Decode(p).Got? && H.Decode(p).value.size + 2 <= |p|
  {
    p[H.Decode(p).value.size] as int * 256 + p[H.Decode(p).value.size + 1] as int
  }

  lemma SubscribePacketId(packetId: u16, topic: seq<byte>)
    requires 5 + |topic| <= RL.MAX
    ensures var p := SubscribePacket(packetId, topic);
            H.Decode(p).Got? && H.Decode(p).value.size + 2 <= |p| && IdIn(p) == packetId
  {
    hide H.Decode, SubscribePacket;
    SubscribeRoundTrip(packetId, topic, []);
    assert SubscribePacket(packetId, topic) + [] == SubscribePacket(packetId, topic);
  }

  lemma DrawnInRange(id: u16, n: nat)
    requires 1 <= id
    ensures 1 <= DrawMany(id, n)
  {
    NthPacketId(id, n);
  }

  /** In any run, two SUBSCRIBE packets accepted with fewer than 65534 other draws between
      them carry different identifiers, neither of them zero. */
  lemma SubscribeIdsDiffer(s: ClientState, before: seq<Op>, one: Op, between: seq<Op>, other: Op)
    requires Valid(s) && 1 <= s.packetId && Draws(between) < 65534
    requires one.OpSubscribe? && one.qos == 0 && 5 + |one.topic| <= RL.MAX
    requires other.OpSubscribe? && other.qos == 0 && 5 + |other.topic| <= RL.MAX
    ensures var s1 := Run(s, before);
            var (s2, first) := Apply(s1, one);
            var s3 := Run(s2, between);
            var (s4, second) := Apply(s3, other);
            first == OK && second == OK ==>
              exists p, q ::
                && s2.accepted == s1.accepted + [p] && s4.accepted == s3.accepted + [q]
                && Framed(p) && H.Decode(p).value.size + 2 <= |p| && Framed(q) && H.Decode(q).value.size + 2 <= |q|
                && IdIn(p) != IdIn(q) && IdIn(p) > 0 && IdIn(q) > 0
  {
    hide Run, Subscribe, DrawMany, H.Decode, SubscribePacket, IdIn, NextPacketId;
    var s1 := Run(s, before);
    var (s2, first) := Apply(s1, one);
    var s3 := Run(s2, between);
    var (s4, second) := Apply(s3, other);
    if first == OK && second == OK {
      RunPacketIds(s, before);
      DrawnInRange(s.packetId, Draws(before));
      StepDraws(s1, one);
      DrawnInRange(s1.packetId, 1);
      RunPacketIds(s2, between);
      StepDraws(s3, other);
      DrawManyTwice(s2.packetId, Draws(between), 1);
      DrawnInRange(s2.packetId, Draws(between) + 1);
      PacketIdsDistinct(s2.packetId, 0, Draws(between) + 1);
      assert DrawMany(s2.packetId, 0) == s2.packetId by { DrawNone(s2.packetId); }
      DrawOne(s1.packetId);
      DrawOne(s3.packetId);
      SubscribeCarriesId(s1, one.topic, one.reply);
      SubscribeCarriesId(s3, other.topic, other.reply);
      SubscribePacketId(s2.packetId, one.topic);
      SubscribePacketId(s4.packetId, other.topic);
      var p, q := SubscribePacket(s2.packetId, one.topic), SubscribePacket(s4.packetId, other.topic);
      SubscribeFramed(s2.packetId, one.topic);
      SubscribeFramed(s4.packetId, other.topic);
      assert s2.accepted == s1.accepted + [p] && s4.accepted == s3.accepted + [q];
    }
  }

  lemma SubscribeFramed(packetId: u16, topic: seq<byte>)
    requires 5 + |topic| <= RL.MAX
    ensures Framed(SubscribePacket(packetId, topic))
  {
    hide H.Decode, SubscribePacket;
    SubscribeRoundTrip(packetId, topic, []);
    assert SubscribePacket(packetId, topic) + [] == SubscribePacket(packetId, topic);
  }

  lemma DrawNone(id: u16)
    ensures DrawMany(id, 0) == id
  {
  }

  lemma DrawOne(id: u16)
    ensures DrawMany(id, 1) == NextPacketId(id)
  {
    assert DrawMany(id, 1) == NextPacketId(DrawMany(id, 0));
  }
}
