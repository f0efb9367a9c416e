/** What one poll does in each state, exactly, and how far runs of polls therefore get: a
    connection attempt goes on until the transport answers, a wait until the CONNACK or five
    seconds, and a disconnect call is carried out. */
module Progress {
  import opened Bytes
  import opened Statuses
  import opened Packets
  import opened Framing
  import opened ClientModel
  import opened Outbound
  import opened Answers
  import Connection
  import Inbound
  import PollReach
  import H = FixedHeader

  // ----- the flush in front -----

  /** The transport does not fail on what is staged. */
  predicate Flushes(s: ClientState, env: PollEnv) {
    s.pending == 0 || env.flush.status == OK || env.flush.status.code == WouldBlock
  }

  /** The client as it is, but for staged bytes that went to the wire. */
  predicate Flushed(s: ClientState, s1: ClientState)
    requires s.pending <= |s.tx|
  {
    && s1.pending <= |s1.tx| == |s.tx| && s1.pending <= s.pending
    && Staged(s1) == Staged(s)[s.pending - s1.pending..]
    && s1.wire == s.wire + Staged(s)[..s.pending - s1.pending]
    && s1 == s.(tx := s1.tx, pending := s1.pending, wire := s1.wire)
  }

  lemma FlushFirst(s: ClientState, env: PollEnv)
    requires Valid(s)
    ensures var (s1, status) := FlushPending(s, env.flush);
            if Flushes(s, env) then status == OK && Flushed(s, s1) else s1 == s && status == env.flush.status
    ensures !Flushes(s, env) ==> Poll(s, env) == (s, env.flush.status)
  {
    hide CorePoll, PollIo;
    FlushMoves(s, env.flush);
    FlushStatus(s, env.flush);
  }

  // ----- a disconnected client -----

  /** A poll of a disconnected client flushes, if anything is staged, and answers OK. */
  lemma IdlePoll(s: ClientState, env: PollEnv)
    requires Valid(s) && s.state == Disconnected && Flushes(s, env)
    ensures Poll(s, env).1 == OK && Flushed(s, Poll(s, env).0)
  {
    hide FlushPending;
    FlushFirst(s, env);
  }

  // ----- connecting -----

  /** CONNECT is sent by the poll that finds it owed; its answer is the poll's, and the flag
      says whether it was OK. */
  lemma OwedConnect(s: ClientState, env: PollEnv)
    requires Valid(s) && s.state == ConnectSent
    ensures var (s1, status) := PollIo(s, env);
            && s1.state == ConnectSent && s1.linkUp == s.linkUp && s1.lastActivity == s.lastActivity
            && s1.rx == s.rx && s1.rxSize == s.rxSize && s1.received == s.received && s1.connectedAt == s.connectedAt
            && (if s.connectSent then s1 == s && status == OK
                else status == SendAnswer(17 <= |s.tx|, s.pending, env.send) && (s1.connectSent <==> status == OK))
  {
    hide SendEncoded, Encoding, SendAnswer;
    if !s.connectSent {
      ConnectAnswers(s, env.send);
      SendEncodedFrame(s, ConnectEncoding(s), env.send);
    }
  }

  /** The three outcomes of a poll that asks the transport to connect. */
  lemma ConnectingPoll(s: ClientState, env: PollEnv)
    requires Valid(s) && s.state == Connecting && Flushes(s, env)
    ensures var (s1, status) := Poll(s, env); var f := FlushPending(s, env.flush).0;
            && (env.connect == OK ==>
                  && s1.state == ConnectSent && s1.linkUp && s1.lastActivity == s1.connectedAt == env.coreNow
                  && s1.rx == s.rx && s1.rxSize == s.rxSize && s1.received == s.received
                  && (!s.connectSent ==>
                        && status == SendAnswer(17 <= |s.tx|, f.pending, env.send)
                        && (s1.connectSent <==> status == OK)))
            && (env.connect.code == WouldBlock ==> s1.state == Connecting && Flushed(s, s1) && status == OK)
            && (env.connect != OK && env.connect.code != WouldBlock ==>
                  s1 == f.(state := Disconnected) && status == env.connect)
  {
    hide FlushPending, PollIo, SendAnswer;
    FlushFirst(s, env);
    var f := FlushPending(s, env.flush).0;
    var f1 := CorePoll(f, env).0;
    if env.connect == OK {
      OwedConnect(f1, env);
    } else {
      assert f1.state != ConnectSent;
      NoIo(f1, env);
    }
  }

  lemma NoIo(s: ClientState, env: PollEnv)
    requires Valid(s) && s.state != ConnectSent && s.state != Connected
    ensures PollIo(s, env) == (s, OK)
  {
  }

  /** The transport was asked and could not say yet. */
  ghost predicate StillTrying(op: Op) {
    op.OpPoll? && op.env.connect.code == WouldBlock
  }

  /** Every call is a poll, and no flush fails. */
  ghost predicate SoftPolls(ops: seq<Op>) {
    forall op :: op in ops ==>
      op.OpPoll? && (op.env.flush.status == OK || op.env.flush.status.code == WouldBlock)
  }

  lemma SoftTail(ops: seq<Op>)
    requires SoftPolls(ops) && ops != []
    ensures ops[0].OpPoll? && SoftPolls(ops[1..]) && ops == [ops[0]] + ops[1..]
    ensures forall s: ClientState :: Flushes(s, ops[0].env)
  {
    assert ops[0] in ops && forall op :: op in ops[1..] ==> op in ops;
  }

  /** A poll never leads back to connecting. */
  lemma NeverBackToConnecting(s: ClientState, env: PollEnv)
    requires Valid(s) && s.state != Connecting
    ensures Poll(s, env).0.state != Connecting
  {
    hide FlushPending, PollIo, AwaitConnack;
    FlushMoves(s, env.flush);
    var f := FlushPending(s, env.flush).0;
    if s.state == ConnectSent {
      AwaitEnds(f, env);
    }
    Connection.PollIoFrame(CorePoll(f, env).0, env);
  }

  lemma AwaitEnds(s: ClientState, env: PollEnv)
    requires Valid(s) && s.state == ConnectSent
    ensures AwaitConnack(s, env).0.state in {ConnectSent, Connected, Disconnected}
  {
    hide H.Decode, DecodeConnack;
  }

  lemma {:induction false} NeverConnectingAgain(s: ClientState, ops: seq<Op>)
    requires Valid(s) && s.state != Connecting && SoftPolls(ops)
    ensures Run(s, ops).state != Connecting
    decreases |ops|
  {
    hide Poll, SoftPolls;
    if ops != [] {
      SoftTail(ops);
      NeverBackToConnecting(s, ops[0].env);
      NeverConnectingAgain(Apply(s, ops[0]).0, ops[1..]);
    }
  }

  /** Polls leave a client connecting exactly as long as the transport cannot say yet, and
      then change nothing but what is staged. */
  lemma {:induction false} ConnectingRun(s: ClientState, ops: seq<Op>)
    requires Valid(s) && s.state == Connecting && SoftPolls(ops)
    ensures Run(s, ops).state == Connecting <==> forall op :: op in ops ==> StillTrying(op)
    ensures (forall op :: op in ops ==> StillTrying(op)) ==> SameBut(s, Run(s, ops))
    decreases |ops|
  {
    hide Poll, SoftPolls, FlushPending, SendAnswer;
    if ops != [] {
      SoftTail(ops);
      assert forall op :: op in ops <==> op == ops[0] || op in ops[1..];
      var s1 := Apply(s, ops[0]).0;
      ConnectingPoll(s, ops[0].env);
      if StillTrying(ops[0]) {
        ConnectingRun(s1, ops[1..]);
      } else {
        FlushFirst(s, ops[0].env);
        NeverConnectingAgain(s1, ops[1..]);
      }
    }
  }

  /** The same client, but for its staged bytes and what the transport has taken of them. */
  predicate SameBut(s: ClientState, s1: ClientState) {
    s1 == s.(tx := s1.tx, pending := s1.pending, wire := s1.wire) && s1.pending <= s.pending && |s1.tx| == |s.tx|
  }

  // ----- waiting for the CONNACK -----

  /** What the buffer and the clock decide, with every status. */
  lemma Verdict(s: ClientState, now: u64)
    requires Valid(s) && s.state == ConnectSent && s.lastActivity <= now
    ensures var (s1, status) := JudgeConnack(s, now); var dropped := s.(state := Disconnected, linkUp := false);
            if Inbound.Acked(s.rx) then
              && s1 == s.(state := Connected, lastActivity := now, rx := Inbound.AfterConnack(s.rx)) && status == OK
            else if PollReach.Undecided(s.rx, s.rxSize) then
              if now - s.lastActivity < 5000 then s1 == s && status == OK
              else s1 == dropped && status == Status(General, Timeout)
            else match H.Decode(s.rx)
              case Fail(_) => s1 == dropped && status == Status(Protocol, ProtocolViolation)
              case Got(h) =>
                if h.kind != 2 then s1 == dropped && status == Status(Protocol, ProtocolViolation)
                else if h.PacketLength() > s.rxSize then s1 == dropped && status == Status(Protocol, BufferTooSmall)
                else
                  && h.PacketLength() <= |s.rx| && s1 == dropped.(rx := s.rx[h.PacketLength()..])
                  && status == Status(Protocol, ConnectFailed)
  {
    hide H.Decode, TakeConnack;
    H.DecodeBounds(s.rx);
    if H.Decode(s.rx).Got? && H.Decode(s.rx).value.PacketLength() <= |s.rx| {
      Taken(s, H.Decode(s.rx).value.PacketLength(), now);
    }
  }

  lemma Taken(s: ClientState, n: nat, now: u64)
    requires Valid(s) && n <= |s.rx|
    ensures TakeConnack(s, n, now)
         == if n >= 4 && s.rx[3] == 0 then (s.(state := Connected, lastActivity := now, rx := s.rx[n..]), OK)
            else (s.(state := Disconnected, linkUp := false, rx := s.rx[n..]), Status(Protocol, ConnectFailed))
  {
    assert n >= 4 ==> s.rx[..n][3] == s.rx[3];
  }

  /** The client has read what the transport gives and the stream is still undecided. */
  ghost predicate ReadsUndecided(s: ClientState, env: PollEnv)
    requires Valid(s)
  {
    && (env.ackRead.status == OK || env.ackRead.status.code == WouldBlock)
    && PollReach.Undecided(Receive(s, env.ackRead).rx, s.rxSize)
  }

  /** While the stream is undecided, the clock alone ends the wait. */
  lemma WaitingPoll(s: ClientState, env: PollEnv)
    requires Valid(s) && s.state == ConnectSent && Flushes(s, env) && s.lastActivity <= env.coreNow
    requires ReadsUndecided(s, env)
    ensures var (s1, status) := Poll(s, env); var f := FlushPending(s, env.flush).0;
            if env.coreNow - s.lastActivity < 5000 then
              && s1.state == ConnectSent && s1.linkUp == s.linkUp && s1.lastActivity == s.lastActivity
              && s1.rx == Receive(s, env.ackRead).rx && s1.rxSize == s.rxSize
              && (if s.connectSent then status == OK
                  else status == SendAnswer(17 <= |s.tx|, f.pending, env.send) && (s1.connectSent <==> status == OK))
            else s1.state == Disconnected && !s1.linkUp && status == Status(General, Timeout)
  {
    hide FlushPending, PollIo, JudgeConnack, SendAnswer, PollReach.Undecided, Inbound.Acked;
    FlushFirst(s, env);
    var f := FlushPending(s, env.flush).0;
    var f1 := Receive(f, env.ackRead);
    UndecidedNotAcked(f1.rx, f1.rxSize);
    Verdict(f1, env.coreNow);
    if env.coreNow - s.lastActivity < 5000 {
      OwedConnect(f1, env);
    }
  }

  lemma UndecidedNotAcked(rx: seq<byte>, rxSize: nat)
    requires PollReach.Undecided(rx, rxSize)
    ensures !Inbound.Acked(rx)
  {
    hide H.Decode;
    H.DecodeStable([], []);
    assert H.Decode([]) == Fail(TOO_SMALL) by { EmptyUndecided(); }
  }

  lemma EmptyUndecided()
    ensures H.Decode([]) == Fail(TOO_SMALL)
  {
  }

  /** A read that fails ends the wait with its status. */
  lemma FailedWait(s: ClientState, env: PollEnv)
    requires Valid(s) && s.state == ConnectSent && Flushes(s, env)
    requires env.ackRead.status != OK && env.ackRead.status.code != WouldBlock
    ensures var (s1, status) := Poll(s, env);
            s1.state == Disconnected && !s1.linkUp && status == env.ackRead.status
  {
    hide FlushPending, JudgeConnack;
    FlushFirst(s, env);
  }

  /** As long as the client waits, its reads leave the stream undecided. */
  ghost predicate UndecidedRun(s: ClientState, ops: seq<Op>)
    requires Valid(s)
    decreases |ops|
  {
    ops == [] ||
    (&& ops[0].OpPoll? && (s.state == ConnectSent ==> ReadsUndecided(s, ops[0].env))
     && UndecidedRun(Apply(s, ops[0]).0, ops[1..]))
  }

  /** However many polls it takes, an undecided wait whose reads and flushes do not fail goes
      on exactly until a poll reads the clock five seconds after the last activity, which is
      when the transport connected. */
  lemma {:induction false} WaitRun(s: ClientState, ops: seq<Op>)
    requires Valid(s) && s.state == ConnectSent && SoftPolls(ops) && UndecidedRun(s, ops)
    requires forall op :: op in ops ==> op.env.coreNow >= s.lastActivity
    ensures var s1 := Run(s, ops);
            if forall op :: op in ops ==> op.env.coreNow - s.lastActivity < 5000
            then s1.state == ConnectSent && s1.linkUp == s.linkUp && s1.lastActivity == s.lastActivity
                 && s1.rxSize == s.rxSize
            else s1.state == Disconnected
    decreases |ops|
  {
    hide Poll, SoftPolls, FlushPending, SendAnswer, ReadsUndecided;
    if ops != [] {
      SoftTail(ops);
      assert forall op :: op in ops <==> op == ops[0] || op in ops[1..];
      var s1 := Apply(s, ops[0]).0;
      WaitingPoll(s, ops[0].env);
      if ops[0].env.coreNow - s.lastActivity < 5000 {
        WaitRun(s1, ops[1..]);
      } else {
        StaysDisconnected(s1, ops[1..]);
      }
    }
  }

  lemma {:induction false} StaysDisconnected(s: ClientState, ops: seq<Op>)
    requires Valid(s) && s.state == Disconnected
    requires forall op :: op in ops ==> op.OpPoll?
    ensures Run(s, ops).state == Disconnected && Run(s, ops).linkUp == s.linkUp
    decreases |ops|
  {
    hide Poll;
    if ops != [] {
      assert ops[0] in ops && forall op :: op in ops[1..] ==> op in ops;
      if Flushes(s, ops[0].env) {
        IdlePoll(s, ops[0].env);
      } else {
        FlushFirst(s, ops[0].env);
      }
      StaysDisconnected(Apply(s, ops[0]).0, ops[1..]);
    }
  }

  // ----- disconnecting -----

  /** A poll carries out the disconnect, unless, and only unless, the flush in front of it
      fails. */
  lemma DisconnectingPoll(s: ClientState, env: PollEnv)
    requires Valid(s) && s.state == Disconnecting
    ensures var (s1, status) := Poll(s, env);
            if Flushes(s, env)
            then s1.state == Disconnected && !s1.linkUp && status == OK && s1.received == s.received
                 && s1.delivered == s.delivered && s1.accepted == s.accepted
            else s1 == s && status == env.flush.status
  {
    hide FlushPending, PollIo;
    FlushFirst(s, env);
    if Flushes(s, env) {
      NoIo(CorePoll(FlushPending(s, env.flush).0, env).0, env);
    }
  }

  /** Disconnect a connected client and poll it: it is disconnected exactly when one of the
      polls finds nothing staged or a transport that does not fail. */
  lemma {:induction false} DisconnectCompletes(s: ClientState, polls: seq<Op>)
    requires Valid(s) && s.state == Connected
    requires forall op :: op in polls ==> op.OpPoll?
    ensures var s1 := Run(s, [OpDisconnect] + polls);
            if exists op :: op in polls && Flushes(s, op.env)
            then s1.state == Disconnected && !s1.linkUp
            else s1 == s.(state := Disconnecting)
  {
    hide Flushes;
    var s1 := Apply(s, OpDisconnect).0;
    assert ([OpDisconnect] + polls)[0] == OpDisconnect && ([OpDisconnect] + polls)[1..] == polls;
    DisconnectingRun(s1, polls);
    SameFlushes(s, s1);
  }

  lemma SameFlushes(s: ClientState, s1: ClientState)
    requires s1.pending == s.pending
    ensures forall env :: Flushes(s1, env) <==> Flushes(s, env)
  {
  }

  lemma {:induction false} DisconnectingRun(s: ClientState, polls: seq<Op>)
    requires Valid(s) && s.state == Disconnecting
    requires forall op :: op in polls ==> op.OpPoll?
    ensures var s1 := Run(s, polls);
            if exists op :: op in polls && Flushes(s, op.env) then s1.state == Disconnected && !s1.linkUp else s1 == s
    decreases |polls|
  {
    hide Poll, Flushes;
    if polls != [] {
      var env, rest := polls[0].env, polls[1..];
      assert polls[0] in polls && forall op :: op in polls <==> op == polls[0] || op in rest;
      DisconnectingPoll(s, env);
      if Flushes(s, env) {
        StaysDisconnected(Apply(s, polls[0]).0, rest);
      } else {
        DisconnectingRun(s, rest);
      }
    }
  }

  // ----- a whole connection -----

  lemma {:induction false} RunTwice(s: ClientState, a: seq<Op>, b: seq<Op>)
    requires Valid(s)
    ensures Run(s, a + b) == Run(Run(s, a), b)
    decreases |a|
  {
    hide Apply;
    if a == [] {
      assert a + b == b;
    } else {
      assert (a + b)[0] == a[0] && (a + b)[1..] == a[1..] + b;
      RunTwice(Apply(s, a[0]).0, a[1..], b);
    }
  }

  lemma RunOne(s: ClientState, op: Op)
    requires Valid(s)
    ensures Run(s, [op]) == Apply(s, op).0
  {
    hide Apply;
    assert [op][1..] == [] && Run(Apply(s, op).0, []) == Apply(s, op).0;
  }

  /** The poll that finds the accepting CONNACK connects, whatever it then reads or sends. */
  lemma AckedPoll(s: ClientState, env: PollEnv)
    requires Valid(s) && s.state == ConnectSent && Flushes(s, env) && s.lastActivity <= env.coreNow
    requires env.ackRead.status == OK && Inbound.Acked(Receive(s, env.ackRead).rx)
    ensures Poll(s, env).0.state == Connected && Poll(s, env).0.linkUp == s.linkUp
  {
    hide FlushPending, PollIo, JudgeConnack, PollReach.Undecided, Inbound.Acked;
    FlushFirst(s, env);
    var f := FlushPending(s, env.flush).0;
    Verdict(Receive(f, env.ackRead), env.coreNow);
    Connection.PollIoFrame(CorePoll(f, env).0, env);
  }

  /** The calls that make a connection: connect, polls that find the transport not there yet,
      one that reaches it, polls that wait, and one that finds the CONNACK. */
  function Opening(tries: seq<Op>, reach: PollEnv, waits: seq<Op>, greet: PollEnv): seq<Op> {
    [OpConnect] + tries + [OpPoll(reach)] + waits + [OpPoll(greet)]
  }

  /** What is asked of the transport and the clock: no flush fails, the transport connects
      after any number of tries, and an accepting CONNACK arrives in any number of pieces
      within five seconds. */
  ghost predicate Reachable(s: ClientState, tries: seq<Op>, reach: PollEnv, waits: seq<Op>, greet: PollEnv)
    requires Valid(s)
  {
    && SoftPolls(tries) && SoftPolls(waits) && SoftPolls([OpPoll(reach), OpPoll(greet)])
    && (forall op :: op in tries ==> StillTrying(op)) && reach.connect == OK
    && (forall op :: op in waits ==> reach.coreNow <= op.env.coreNow < reach.coreNow + 5000)
    && reach.coreNow <= greet.coreNow && greet.ackRead.status == OK
    && var waiting := Run(s, [OpConnect] + tries + [OpPoll(reach)]);
    UndecidedRun(waiting, waits) && Inbound.Acked(Receive(Run(waiting, waits), greet.ackRead).rx)
  }

  /** Four bytes of receive buffer are enough for it to happen. */
  lemma SomeReachable(s: ClientState)
    requires Valid(s) && s.state == Disconnected && 4 <= s.rxSize
    ensures Reachable(s, [], Connection.Reached(0), [], Connection.Greeted(0))
  {
    hide Poll, Inbound.Acked, H.Decode;
    var reach := Connection.Reached(0);
    var s1 := Apply(s, OpConnect).0;
    ConnectingPoll(s1, reach);
    assert [OpConnect] + [] + [OpPoll(reach)] == [OpConnect] + [OpPoll(reach)];
    RunTwice(s, [OpConnect], [OpPoll(reach)]);
    RunOne(s, OpConnect);
    RunOne(s1, OpPoll(reach));
    var waiting := Run(s, [OpConnect] + [] + [OpPoll(reach)]);
    assert Receive(waiting, Connection.Greeted(0).ackRead).rx == Connection.GREETING;
    Connection.GreetingIsConnack();
    assert Inbound.Acked(Connection.GREETING) by { Greets(); }
    assert Run(waiting, []) == waiting;
  }

  lemma Greets()
    requires H.Decode(Connection.GREETING) == Got(H.Header(H.CONNACK, 0, 2, 2))
    ensures Inbound.Acked(Connection.GREETING)
  {
  }

  /** From any disconnected client, such calls lead to a connection. */
  lemma ConnectionCompletes(s: ClientState, tries: seq<Op>, reach: PollEnv, waits: seq<Op>, greet: PollEnv)
    requires Valid(s) && s.state == Disconnected && Reachable(s, tries, reach, waits, greet)
    ensures var s1 := Run(s, Opening(tries, reach, waits, greet)); s1.state == Connected && s1.linkUp
  {
    hide Poll, Run, UndecidedRun, SendAnswer, FlushPending, Receive, Inbound.Acked;
    assert OpPoll(reach) in [OpPoll(reach), OpPoll(greet)] && OpPoll(greet) in [OpPoll(reach), OpPoll(greet)];
    RunOne(s, OpConnect);
    var s1 := Apply(s, OpConnect).0;
    RunTwice(s, [OpConnect], tries);
    ConnectingRun(s1, tries);
    var s2 := Run(s1, tries);
    RunTwice(s, [OpConnect] + tries, [OpPoll(reach)]);
    RunOne(s2, OpPoll(reach));
    ConnectingPoll(s2, reach);
    var s3 := Poll(s2, reach).0;
    RunTwice(s, [OpConnect] + tries + [OpPoll(reach)], waits);
    WaitRun(s3, waits);
    var s4 := Run(s3, waits);
    RunTwice(s, [OpConnect] + tries + [OpPoll(reach)] + waits, [OpPoll(greet)]);
    RunOne(s4, OpPoll(greet));
    AckedPoll(s4, greet);
  }

  /** And from there a disconnect call and a poll without a failing flush lead back, so that
      a connect call is accepted again. */
  lemma ConnectionCycle(s: ClientState, tries: seq<Op>, reach: PollEnv, waits: seq<Op>, greet: PollEnv, last: PollEnv)
    requires Valid(s) && s.state == Disconnected && Reachable(s, tries, reach, waits, greet)
    requires SoftPolls([OpPoll(last)])
    ensures var s1 := Run(s, Opening(tries, reach, waits, greet) + [OpDisconnect, OpPoll(last)]);
            s1.state == Disconnected && !s1.linkUp && Connect(s1).1 == OK
  {
    hide Run, Reachable, Opening, Poll;
    var opening := Opening(tries, reach, waits, greet);
    ConnectionCompletes(s, tries, reach, waits, greet);
    RunTwice(s, opening, [OpDisconnect, OpPoll(last)]);
    assert [OpDisconnect] + [OpPoll(last)] == [OpDisconnect, OpPoll(last)];
    assert OpPoll(last) in [OpPoll(last)] && Flushes(Run(s, opening), last);
    DisconnectCompletes(Run(s, opening), [OpPoll(last)]);
  }
}
