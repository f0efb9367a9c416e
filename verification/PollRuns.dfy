/** Whether a caller who does nothing but connect and poll can rely on the outbound stream. */
module PollRuns {
  import opened Bytes
  import opened Statuses
  import opened Packets
  import opened Framing
  import opened ClientModel
  import opened Outbound
  import Connection
  import Overwrite
  import PollReach
  import H = FixedHeader

  /** Every call is a poll, or a connect call of a disconnected client. */
  ghost predicate PollOnly(s: ClientState, ops: seq<Op>)
    requires Valid(s)
    decreases |ops|
  {
    ops == [] || (PollOrConnect(s, ops[0]) && PollOnly(Apply(s, ops[0]).0, ops[1..]))
  }

  ghost predicate PollOrConnect(s: ClientState, op: Op) {
    op.OpPoll? || (op.OpConnect? && s.state == Disconnected)
  }

  // ----- buffers too small for a PINGREQ or a CONNACK -----

  /** Nothing is ever staged where a poll could encode over it. */
  ghost predicate NeverOver(s: ClientState) {
    && Connection.LinkInv(s) && (|s.tx| < 2 || s.rxSize < 4)
    && (|s.tx| < 2 ==> s.pending == 0)
    && (s.rxSize < 4 ==> s.state !in {Connected, Disconnecting})
    && (s.state == Connecting ==> s.pending == 0 && !s.connectSent)
    && (s.state == ConnectSent && !s.connectSent ==> s.pending == 0)
  }

  lemma AcceptsFour(s: ClientState, env: PollEnv)
    requires Valid(s) && s.state == ConnectSent && AwaitConnack(s, env).0.state == Connected
    ensures s.rxSize >= 4
  {
    hide JudgeConnack, H.Decode;
    PollReach.JudgeExactly(Receive(s, env.ackRead), env.coreNow);
  }

  lemma CoreNeverOver(s: ClientState, env: PollEnv)
    requires Valid(s) && NeverOver(s)
    ensures NeverOver(CorePoll(s, env).0)
  {
    hide AwaitConnack;
    CoreFrame(s, env);
    Connection.CoreEdges(s, env);
    if s.state == ConnectSent && AwaitConnack(s, env).0.state == Connected {
      AcceptsFour(s, env);
    }
  }

  lemma PollIoNeverOver(s: ClientState, env: PollEnv)
    requires Valid(s) && NeverOver(s)
    ensures NeverOver(PollIo(s, env).0)
    ensures PollEncodes(s, env) ==> s.pending == 0
  {
    hide SendEncoded, Encoding, Parse;
    Connection.PollIoFrame(s, env);
    if s.state == ConnectSent {
      Connection.ConnectEncodes(s);
      SendEncodedFrame(s, ConnectEncoding(s), env.send);
    } else if s.state == Connected {
      var s1 := ClientRead(s, env.read).0;
      SendEncodedFrame(s1, EncodingPingreq(s1.tx), env.send);
    }
  }

  lemma FlushNeverOver(s: ClientState, reply: WriteReply)
    requires Valid(s) && NeverOver(s)
    ensures NeverOver(FlushPending(s, reply).0)
  {
    hide FlushPending;
    FlushMoves(s, reply);
    FlushStatus(s, reply);
  }

  lemma PollNeverOver(s: ClientState, env: PollEnv)
    requires Valid(s) && NeverOver(s)
    ensures NeverOver(Poll(s, env).0) && LeavesStagedAlone(s, OpPoll(env))
  {
    hide FlushPending, CorePoll, PollIo, PollEncodes, NeverOver;
    FlushNeverOver(s, env.flush);
    var s1 := FlushPending(s, env.flush).0;
    CoreNeverOver(s1, env);
    CoreFrame(s1, env);
    PollIoNeverOver(CorePoll(s1, env).0, env);
  }

  lemma {:induction false} NeverOverKeepsStream(s: ClientState, ops: seq<Op>)
    requires Valid(s) && StreamInv(s) && NeverOver(s) && PollOnly(s, ops)
    ensures StreamInv(Run(s, ops))
    decreases |ops|
  {
    hide StreamInv, Poll, NeverOver, LeavesStagedAlone;
    if ops != [] {
      StepNeverOver(s, ops[0]);
      StepKeepsStream(s, ops[0]);
      NeverOverKeepsStream(Apply(s, ops[0]).0, ops[1..]);
    }
  }

  lemma StepNeverOver(s: ClientState, op: Op)
    requires Valid(s) && NeverOver(s) && PollOrConnect(s, op)
    ensures NeverOver(Apply(s, op).0) && LeavesStagedAlone(s, op)
  {
    hide Poll;
    if op.OpPoll? {
      PollNeverOver(s, op.env);
    }
  }

  // ----- the run that breaks it -----

  /** The transport is reached and takes a whole CONNECT, if one fits the buffer. */
  function Reach(size: nat): PollEnv {
    Connection.Reached(0).(send := WriteReply(OK, size))
  }

  /** The CONNACK is there at time 0, and the clock jumps to the first keepalive, of which
      the transport takes one byte. */
  function Greet(interval: u64): PollEnv {
    Connection.Greeted(0).(read := ReadReply(OK, []), now := interval, send := WriteReply(OK, 1))
  }

  /** Neither direction moves, and the next keepalive is due. */
  function Stall(interval: u64): PollEnv {
    Connection.Reached(0).(flush := WriteReply(BUSY, 0), read := ReadReply(BUSY, []),
                           now := (interval + interval) % U64_SIZE)
  }

  function Stalled(size: nat, interval: u64): seq<Op> {
    [OpConnect, OpPoll(Reach(size)), OpPoll(Greet(interval)), OpPoll(Stall(interval))]
  }

  /** After the first poll the client waits, with nothing staged. */
  lemma ReachWaits(s: ClientState)
    requires Valid(s) && s.state == Connecting && !s.connectSent && s.pending == 0 && s.rx == []
    ensures var s1 := Poll(s, Reach(|s.tx|)).0;
            && s1.state == ConnectSent && s1.pending == 0 && s1.rx == [] && s1.rxSize == s.rxSize
            && |s1.tx| == |s.tx| && s1.interval == s.interval
  {
    hide Encoding, Concat;
    var s1 := CorePoll(s, Reach(|s.tx|)).0;
    Connection.ConnectEncodes(s1);
    SendEncodedFrame(s1, ConnectEncoding(s1), Reach(|s.tx|).send);
    SendAll(s1, ConnectEncoding(s1));
  }

  lemma SendAll(s: ClientState, e: Encoded)
    requires Valid(s) && s.pending == 0 && |e.buf| == |s.tx| && e.outLen <= |e.buf|
    ensures SendEncoded(s, e, WriteReply(OK, |s.tx|)).0.pending == 0
  {
  }

  lemma AwaitUses(s: ClientState, env: PollEnv, other: PollEnv)
    requires Valid(s) && other.ackRead == env.ackRead && other.coreNow == env.coreNow
    ensures AwaitConnack(s, other) == AwaitConnack(s, env)
  {
    hide JudgeConnack;
  }

  lemma SendOne(s: ClientState)
    requires Valid(s) && s.pending == 0 && 2 <= |s.tx|
    ensures var (s1, status) := SendPing(s, WriteReply(OK, 1));
            status == OK && s1.pending == 1 && s1.tx[0] == 0
  {
  }

  /** The second poll connects and stages the last byte of a PINGREQ. */
  lemma GreetStages(s: ClientState)
    requires Valid(s) && s.state == ConnectSent && s.pending == 0 && s.rx == [] && 4 <= s.rxSize && 2 <= |s.tx|
    ensures var s1 := Poll(s, Greet(s.interval)).0;
            && s1.state == Connected && s1.pending == 1 && s1.tx[0] == 0 && s1.rx == [] && |s1.tx| == |s.tx|
            && s1.lastActivity == s.interval == s1.interval
  {
    hide AwaitConnack, SendEncoded, EncodingPingreq;
    var env := Greet(s.interval);
    Connection.GreetingConnects(s, 0);
    AwaitUses(s, Connection.Greeted(0), env);
    CoreFrame(s, env);
    var s1 := CorePoll(s, env).0;
    assert s1.lastActivity == 0;
    assert s1.rx + [] == [];
    SendOne(ClientRead(s1, env.read).0);
    SendEncodedFrame(ClientRead(s1, env.read).0, EncodingPingreq(s1.tx), env.send);
  }

  lemma FourSteps(s: ClientState, a: Op, b: Op, c: Op, d: Op)
    requires Valid(s)
    ensures var s1 := Apply(s, a).0; var s2 := Apply(s1, b).0; var s3 := Apply(s2, c).0;
            && Run(s, [a, b, c, d]) == Apply(s3, d).0
            && (PollOrConnect(s, a) && b.OpPoll? && c.OpPoll? && d.OpPoll? ==> PollOnly(s, [a, b, c, d]))
  {
    hide Apply;
    var s1 := Apply(s, a).0;
    assert [a, b, c, d][1..] == [b, c, d] && [b, c, d][1..] == [c, d] && [c, d][1..] == [d] && [d][1..] == [];
    Connection.ThreeSteps(s1, b, c, d);
    var s2 := Apply(s1, b).0;
    var s3 := Apply(s2, c).0;
    var s4 := Apply(s3, d).0;
    assert PollOnly(s4, []);
    assert d.OpPoll? ==> PollOnly(s3, [d]);
    assert c.OpPoll? && d.OpPoll? ==> PollOnly(s2, [c, d]);
    assert b.OpPoll? && c.OpPoll? && d.OpPoll? ==> PollOnly(s1, [b, c, d]);
  }

  /** Connect and poll three times: the rest of one keepalive is overwritten by the next. */
  lemma StalledBreaksStream(tx: seq<byte>, rxSize: nat, interval: u64, start: u64)
    requires 2 <= |tx| && 4 <= rxSize
    ensures var s := Init(tx, rxSize, interval, start);
            PollOnly(s, Stalled(|tx|, interval)) && !StreamInv(Run(s, Stalled(|tx|, interval)))
  {
    hide StreamInv, Poll, Run, PollOnly;
    var s0 := Init(tx, rxSize, interval, start);
    FourSteps(s0, OpConnect, OpPoll(Reach(|tx|)), OpPoll(Greet(interval)), OpPoll(Stall(interval)));
    var s1 := Apply(s0, OpConnect).0;
    ReachWaits(s1);
    var s2 := Apply(s1, OpPoll(Reach(|tx|))).0;
    GreetStages(s2);
    var s3 := Apply(s2, OpPoll(Greet(interval))).0;
    FreshStream(s0);
    StepKeepsStream(s0, OpConnect);
    PollOverNothing(s1, Reach(|tx|));
    PollOverNothing(s2, Greet(interval));
    StallBreaks(s3);
  }

  lemma PollOverNothing(s: ClientState, env: PollEnv)
    requires Valid(s) && StreamInv(s) && s.pending == 0
    ensures StreamInv(Poll(s, env).0)
  {
    hide StreamInv, FlushPending, CorePoll, PollEncodes, Poll;
    FlushMoves(s, env.flush);
    StepKeepsStream(s, OpPoll(env));
  }

  lemma StallBreaks(s: ClientState)
    requires Valid(s) && StreamInv(s) && s.state == Connected && s.pending == 1 && s.tx[0] == 0 && 2 <= |s.tx|
    requires s.rx == [] && s.lastActivity == s.interval
    ensures !StreamInv(Poll(s, Stall(s.interval)).0)
  {
    hide StreamInv, Poll;
    Overwrite.LateEnough(s.interval, s.interval);
    Overwrite.PollBreaksStream(s, Stall(s.interval));
  }

  /** A caller who only connects and polls can rely on the outbound stream exactly when no
      PINGREQ can ever be encoded: for want of transmit buffer, or of a CONNACK that fits. */
  lemma PollOnlySafeExactly(tx: seq<byte>, rxSize: nat, interval: u64, start: u64)
    requires 0 < |tx| && 0 < rxSize
    ensures (forall ops :: PollOnly(Init(tx, rxSize, interval, start), ops)
                       ==> StreamInv(Run(Init(tx, rxSize, interval, start), ops)))
       <==> |tx| < 2 || rxSize < 4
  {
    hide StreamInv, Run, PollOnly;
    var s := Init(tx, rxSize, interval, start);
    if |tx| < 2 || rxSize < 4 {
      FreshStream(s);
      forall ops | PollOnly(s, ops)
        ensures StreamInv(Run(s, ops))
      {
        NeverOverKeepsStream(s, ops);
      }
    } else {
      StalledBreaksStream(tx, rxSize, interval, start);
    }
  }
}
