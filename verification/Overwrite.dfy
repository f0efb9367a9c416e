/** Every sender encodes into the transmit buffer before it is refused. This module says,
    for each sender and for whole polls, exactly when that leaves the outbound stream
    intact. */
module Overwrite {
  import opened Bytes
  import opened Statuses
  import opened Packets
  import opened Framing
  import opened ClientModel
  import opened Outbound
  import Connection
  import H = FixedHeader
  import RL = RemainingLength

  lemma SameStreamSameStaged(s: ClientState, s1: ClientState)
    requires Valid(s) && Valid(s1) && StreamInv(s)
    requires s1.wire == s.wire && s1.accepted == s.accepted && s1.pending == s.pending
    ensures StreamInv(s1) <==> Staged(s1) == Staged(s)
  {
    if StreamInv(s1) {
      assert Staged(s1) == (s1.wire + Staged(s1))[|s.wire|..] == (s.wire + Staged(s))[|s.wire|..] == Staged(s);
    }
  }

  /** A send keeps the stream exactly when what its encoder left still starts with the
      staged bytes. */
  lemma SendEncodedSafeExactly(s: ClientState, e: Encoded, reply: WriteReply)
    requires Valid(s) && StreamInv(s) && |e.buf| == |s.tx| && e.outLen <= |e.buf|
    ensures StreamInv(SendEncoded(s, e, reply).0) <==> e.buf[..s.pending] == Staged(s)
  {
    hide SendEncoded, Concat;
    if s.pending == 0 {
      SendEncodedKeepsStream(s, e, reply);
    } else {
      SendEncodedFrame(s, e, reply);
      SameStreamSameStaged(s, SendEncoded(s, e, reply).0);
    }
  }

  // ----- publish and subscribe -----

  /** Sends are safe whatever they send exactly when nothing is staged. */
  lemma SendsSafeIffNothingStaged(s: ClientState)
    requires Valid(s) && StreamInv(s)
    ensures (forall op: Op :: op.OpPublish? || op.OpSubscribe? ==> StreamInv(Apply(s, op).0)) <==> s.pending == 0
  {
    hide StreamInv, Encoding, SendEncoded;
    if s.pending == 0 {
      forall op: Op | op.OpPublish? || op.OpSubscribe?
        ensures StreamInv(Apply(s, op).0)
      {
        StepKeepsStream(s, op);
      }
    } else {
      var reply := WriteReply(OK, 0);
      var publish, subscribe := OpPublish([], [], 0, reply), OpSubscribe([], 0, reply);
      var p := Encoding(s.tx, PUBLISH_BYTE, PublishFields(Message([], [])));
      var s1 := s.(packetId := NextPacketId(s.packetId));
      var q := Encoding(s.tx, SUBSCRIBE_BYTE, SubscribeFields(s1.packetId, []));
      EncodingExact(s.tx, PUBLISH_BYTE, PublishFields(Message([], [])));
      EncodingExact(s.tx, SUBSCRIBE_BYTE, SubscribeFields(s1.packetId, []));
      SendEncodedSafeExactly(s, p, reply);
      SameInvariant(s, s1);
      SendEncodedSafeExactly(s1, q, reply);
      assert p.buf[..s.pending][0] != q.buf[..s.pending][0];
      assert Apply(s, publish) == SendEncoded(s, p, reply) && Apply(s, subscribe) == SendEncoded(s1, q, reply);
    }
  }

  lemma SameInvariant(s: ClientState, s1: ClientState)
    requires Valid(s) && Valid(s1) && StreamInv(s)
    requires s1.wire == s.wire && s1.accepted == s.accepted && s1.tx == s.tx && s1.pending == s.pending
    ensures StreamInv(s1)
  {
  }

  // ----- keepalive -----

  /** The staged bytes that a PINGREQ does not damage. */
  predicate SparedByPing(tx: seq<byte>, pending: nat)
    requires pending <= |tx|
  {
    pending == 0 || |tx| < 2 || (tx[0] == PINGREQ_BYTE && (pending == 1 || tx[1] == 0))
  }

  lemma PingreqOver(tx: seq<byte>, pending: nat)
    requires pending <= |tx|
    ensures EncodingPingreq(tx).buf[..pending] == tx[..pending] <==> SparedByPing(tx, pending)
  {
    var w := EncodingPingreq(tx).buf;
    if |tx| >= 2 {
      assert w[0] == PINGREQ_BYTE && w[1] == 0 && forall i :: 2 <= i < |tx| ==> w[i] == tx[i];
      if pending > 0 {
        assert w[..pending][0] == w[0] && tx[..pending][0] == tx[0];
      }
      if pending > 1 {
        assert w[..pending][1] == w[1] && tx[..pending][1] == tx[1];
      }
    }
  }

  /** A keepalive due while bytes are staged overwrites the first two, which goes unnoticed
      only if they are those of a PINGREQ. */
  lemma PingSafeExactly(s: ClientState, reply: WriteReply)
    requires Valid(s) && StreamInv(s)
    ensures StreamInv(SendPing(s, reply).0) <==> SparedByPing(s.tx, s.pending)
  {
    hide StreamInv, SendEncoded, EncodingPingreq;
    SendEncodedSafeExactly(s, EncodingPingreq(s.tx), reply);
    PingreqOver(s.tx, s.pending);
  }

  // ----- CONNECT -----

  /** How much of the body is written behind the gap before a field does not fit. */
  function BodyRoom(size: nat): nat {
    if size < 11 then 0
    else if size < 12 then 6
    else if size < 13 then 7
    else if size < 15 then 8
    else if size < 17 then 10
    else 12
  }

  /** The transmit buffer after CONNECT was encoded over it: the fields that fit, or the
      packet, three stale bytes of the body it was moved from, and the rest. */
  function ConnectOver(tx: seq<byte>, keepAlive: u16): (w: seq<byte>)
    requires 0 < |tx|
    ensures |w| == |tx|
  {
    if |tx| < 11 then [CONNECT_BYTE] + tx[1..]
    else if |tx| < 17 then
      [CONNECT_BYTE] + tx[1..5] + ConnectBody(keepAlive)[..BodyRoom(|tx|)] + tx[5 + BodyRoom(|tx|)..]
    else
      [CONNECT_BYTE, 12] + ConnectBody(keepAlive) + ConnectBody(keepAlive)[9..] + tx[17..]
  }

  /** Where the first field that does not fit stops the encoder. */
  lemma PutFieldsStops(buf: seq<byte>, off: nat, done: seq<seq<byte>>, next: seq<byte>, rest: seq<seq<byte>>)
    requires off + |Concat(done)| <= |buf| < off + |Concat(done)| + |next|
    ensures var r := PutFields(buf, off, done + ([next] + rest));
            !r.ok && r.buf == Splice(buf, off, Concat(done))
  {
    PutFieldsFills(buf, off, done);
    PutFieldsSplit(buf, off, done, [next] + rest);
  }

  lemma ConnectStops(tx: seq<byte>, keepAlive: u16, n: nat)
    requires 5 <= |tx| < 17 && n < 5
    requires |Concat(ConnectFields([], keepAlive)[..n])| == BodyRoom(|tx|)
    requires 5 + BodyRoom(|tx|) <= |tx| < 5 + BodyRoom(|tx|) + |ConnectFields([], keepAlive)[n]|
    ensures Encoding(tx, CONNECT_BYTE, ConnectFields([], keepAlive)).buf
         == Splice(Splice(tx, 0, [CONNECT_BYTE]), 5, Concat(ConnectFields([], keepAlive)[..n]))
  {
    hide Concat, Splice, ConnectFields;
    var f := ConnectFields([], keepAlive);
    assert |f| == 5 by { ConnectPieces(keepAlive); }
    assert f == f[..n] + ([f[n]] + f[n + 1..]);
    PutFieldsStops(Splice(tx, 0, [CONNECT_BYTE]), 5, f[..n], f[n], f[n + 1..]);
  }

  /** Twelve bytes move down by three over one digit; their last three stay behind as well. */
  lemma CloseTwelve(filled: seq<byte>, b: seq<byte>)
    requires 17 <= |filled| && |b| == 12 && filled[5..17] == b
    ensures ClosePacket(filled, 17).buf == [filled[0], 12] + b + b[9..] + filled[17..]
  {
    RL.EncodeDigit(12);
    hide RL.Encode;
    var closed := ClosePacket(filled, 17).buf;
    forall i | 0 <= i < |filled|
      ensures closed[i] == ([filled[0], 12] + b + b[9..] + filled[17..])[i]
    {
      assert 5 <= i < 17 ==> filled[i] == b[i - 5];
    }
  }

  lemma ConnectFits(tx: seq<byte>, keepAlive: u16)
    requires 17 <= |tx|
    ensures Encoding(tx, CONNECT_BYTE, ConnectFields([], keepAlive)).buf == ConnectOver(tx, keepAlive)
  {
    hide Concat, ConnectFields, ConnectBody, PutFields, ClosePacket;
    var f, b := ConnectFields([], keepAlive), ConnectBody(keepAlive);
    ConnectPieces(keepAlive);
    var started := Splice(tx, 0, [CONNECT_BYTE]);
    PutFieldsFills(started, 5, f);
    var filled := Splice(started, 5, b);
    assert filled[5..17] == b && filled[17..] == tx[17..] && filled[0] == CONNECT_BYTE;
    CloseTwelve(filled, b);
  }

  lemma ConnectEncodingOver(tx: seq<byte>, keepAlive: u16)
    requires 0 < |tx|
    ensures Encoding(tx, CONNECT_BYTE, ConnectFields([], keepAlive)).buf == ConnectOver(tx, keepAlive)
  {
    hide Encoding, ConnectFields, ConnectBody, Concat;
    if |tx| >= 17 {
      ConnectFits(tx, keepAlive);
    } else if |tx| >= 5 {
      ConnectPieces(keepAlive);
      var f := ConnectFields([], keepAlive);
      var n := if |tx| < 11 then 0 else if |tx| < 12 then 1 else if |tx| < 13 then 2 else if |tx| < 15 then 3 else 4;
      assert f[..0] == [];
      ConnectStops(tx, keepAlive, n);
      SpliceBehindGap(tx, ConnectBody(keepAlive)[..BodyRoom(|tx|)]);
    } else {
      ConnectTiny(tx, keepAlive);
    }
  }

  lemma SpliceBehindGap(tx: seq<byte>, x: seq<byte>)
    requires 5 + |x| <= |tx|
    ensures Splice(Splice(tx, 0, [CONNECT_BYTE]), 5, x) == [CONNECT_BYTE] + tx[1..5] + x + tx[5 + |x|..]
    ensures x == [] ==> [CONNECT_BYTE] + tx[1..5] + x + tx[5 + |x|..] == [CONNECT_BYTE] + tx[1..]
  {
  }

  lemma ConnectTiny(tx: seq<byte>, keepAlive: u16)
    requires 0 < |tx| < 5
    ensures Encoding(tx, CONNECT_BYTE, ConnectFields([], keepAlive)).buf == ConnectOver(tx, keepAlive)
  {
  }

  /** A CONNECT over staged bytes keeps the stream exactly when the bytes it leaves there,
      spelled out by ConnectOver, are the staged ones. */
  lemma SendConnectSafeExactly(s: ClientState, reply: WriteReply)
    requires Valid(s) && StreamInv(s)
    ensures StreamInv(SendConnect(s, reply).0)
       <==> ConnectOver(s.tx, KeepAliveSeconds(s.interval))[..s.pending] == Staged(s)
    ensures s.pending == 0 ==> StreamInv(SendConnect(s, reply).0)
    ensures s.pending > 0 && s.tx[0] != CONNECT_BYTE ==> !StreamInv(SendConnect(s, reply).0)
  {
    hide StreamInv, SendEncoded, Encoding;
    SendEncodedSafeExactly(s, ConnectEncoding(s), reply);
    ConnectEncodingOver(s.tx, KeepAliveSeconds(s.interval));
    var w := ConnectOver(s.tx, KeepAliveSeconds(s.interval));
    assert s.pending == 0 ==> w[..s.pending] == Staged(s);
    assert s.pending > 0 ==> w[..s.pending][0] == CONNECT_BYTE && Staged(s)[0] == s.tx[0];
  }

  // ----- one poll -----

  /** What a poll that encodes leaves in the transmit buffer. */
  function PollWrites(s: ClientState): (w: seq<byte>)
    requires 0 < |s.tx|
    ensures |w| == |s.tx|
  {
    if s.state == Connected then EncodingPingreq(s.tx).buf else ConnectOver(s.tx, KeepAliveSeconds(s.interval))
  }

  lemma PollIoSafeExactly(s: ClientState, env: PollEnv)
    requires Valid(s) && StreamInv(s)
    ensures StreamInv(PollIo(s, env).0)
       <==> (PollEncodes(s, env) && s.pending > 0 ==> PollWrites(s)[..s.pending] == Staged(s))
  {
    hide StreamInv, SendEncoded, EncodingPingreq, Encoding, Parse, ConnectOver;
    if !PollEncodes(s, env) || s.pending == 0 {
      PollIoKeepsStream(s, env);
    } else if s.state == ConnectSent {
      SendConnectSafeExactly(s, env.send);
      ConnectedAgain(SendConnect(s, env.send).0);
    } else {
      var s1 := ClientRead(s, env.read).0;
      SameInvariant(s, s1);
      SendEncodedSafeExactly(s1, EncodingPingreq(s1.tx), env.send);
      SendEncodedFrame(s1, EncodingPingreq(s1.tx), env.send);
    }
  }

  lemma ConnectedAgain(s: ClientState)
    requires Valid(s)
    ensures StreamInv(s.(connectSent := true)) <==> StreamInv(s)
  {
  }

  lemma FlushAndCoreKeep(s: ClientState, env: PollEnv)
    requires Valid(s) && StreamInv(s)
    ensures var s1 := FlushPending(s, env.flush).0;
            StreamInv(s1) && StreamInv(CorePoll(s1, env).0)
  {
    hide FlushPending, CorePoll;
    FlushKeepsStream(s, env.flush);
    FlushMoves(s, env.flush);
    var s1 := FlushPending(s, env.flush).0;
    CoreFrame(s1, env);
    SameInvariant(s1, CorePoll(s1, env).0);
  }

  /** A poll keeps the outbound stream exactly when it does not encode over staged bytes, or
      what it encodes over them is what they are. */
  lemma PollSafeExactly(s: ClientState, env: PollEnv)
    requires Valid(s) && StreamInv(s)
    ensures var (s1, flushed) := FlushPending(s, env.flush);
            var (s2, core) := CorePoll(s1, env);
            var overwrites := flushed == OK && core == OK && PollEncodes(s2, env) && s2.pending > 0;
            StreamInv(Poll(s, env).0) <==> (overwrites ==> PollWrites(s2)[..s2.pending] == Staged(s2))
  {
    hide StreamInv, FlushPending, CorePoll, PollIo, PollEncodes, PollWrites;
    FlushAndCoreKeep(s, env);
    PollIoSafeExactly(CorePoll(FlushPending(s, env.flush).0, env).0, env);
  }

  // ----- one poll, whatever it is answered -----

  /** The poll gets past the state machine, connected, and its read ends well: with a clock
      far enough on, it encodes a PINGREQ. */
  ghost predicate ReachesPing(s: ClientState, env: PollEnv)
    requires Valid(s)
  {
    var (s1, core) := CorePoll(s, env);
    core == OK && s1.state == Connected && ClientRead(s1, env.read).1 == OK
  }

  /** The poll gets past the state machine, still owing a CONNECT. */
  ghost predicate ReachesConnect(s: ClientState, env: PollEnv)
    requires Valid(s)
  {
    var (s1, core) := CorePoll(s, env);
    core == OK && s1.state == ConnectSent && !s1.connectSent
  }

  ghost predicate CanPing(s: ClientState)
    requires Valid(s)
  {
    exists env :: ReachesPing(s, env)
  }

  ghost predicate CanConnect(s: ClientState)
    requires Valid(s)
  {
    exists env :: ReachesConnect(s, env)
  }

  /** The flush may take any number of bytes first, so every suffix has to be spared. */
  predicate AlwaysSparedByPing(tx: seq<byte>, pending: nat)
    requires pending <= |tx|
  {
    pending == 0 || |tx| < 2 || (pending == 1 && tx[0] == PINGREQ_BYTE)
  }

  /** How many bytes, all of them the first byte of CONNECT, an encoded CONNECT repeats. */
  function RepeatedByConnect(size: nat): nat {
    if size < 11 then size else if size < 17 then 5 else 1
  }

  predicate AlwaysSparedByConnect(tx: seq<byte>, pending: nat)
    requires pending <= |tx|
  {
    pending <= RepeatedByConnect(|tx|) && forall i :: 0 <= i < pending ==> tx[i] == CONNECT_BYTE
  }

  /** The environment of another, with its own flush and clock. */
  function Retimed(env: PollEnv, flush: WriteReply, now: u64): PollEnv {
    env.(flush := flush, now := now)
  }

  lemma JudgeIgnoresSending(s: ClientState, s1: ClientState, now: u64)
    requires Valid(s) && Valid(s1) && s1 == s.(tx := s1.tx, pending := s1.pending, wire := s1.wire)
    ensures var (r, status) := JudgeConnack(s, now);
            JudgeConnack(s1, now) == (r.(tx := s1.tx, pending := s1.pending, wire := s1.wire), status)
  {
    hide H.Decode, TakeConnack;
    if H.Decode(s.rx).Got? && H.Decode(s.rx).value.PacketLength() <= |s.rx| {
      TakeIgnoresSending(s, s1, H.Decode(s.rx).value.PacketLength(), now);
    }
  }

  lemma TakeIgnoresSending(s: ClientState, s1: ClientState, length: nat, now: u64)
    requires Valid(s) && Valid(s1) && s1 == s.(tx := s1.tx, pending := s1.pending, wire := s1.wire)
    requires length <= |s.rx|
    ensures var (r, status) := TakeConnack(s, length, now);
            TakeConnack(s1, length, now) == (r.(tx := s1.tx, pending := s1.pending, wire := s1.wire), status)
  {
    hide DecodeConnack;
  }

  lemma AwaitIgnoresSending(s: ClientState, s1: ClientState, env: PollEnv, other: PollEnv)
    requires Valid(s) && Valid(s1) && s1 == s.(tx := s1.tx, pending := s1.pending, wire := s1.wire)
    requires other == Retimed(env, other.flush, other.now)
    ensures var (r, status) := AwaitConnack(s, env);
            AwaitConnack(s1, other) == (r.(tx := s1.tx, pending := s1.pending, wire := s1.wire), status)
  {
    hide JudgeConnack;
    JudgeIgnoresSending(Receive(s, env.ackRead), Receive(s1, env.ackRead), env.coreNow);
  }

  lemma CoreIgnoresSending(s: ClientState, s1: ClientState, env: PollEnv, other: PollEnv)
    requires Valid(s) && Valid(s1) && s1 == s.(tx := s1.tx, pending := s1.pending, wire := s1.wire)
    requires other == Retimed(env, other.flush, other.now)
    ensures var (r, status) := CorePoll(s, env);
            CorePoll(s1, other) == (r.(tx := s1.tx, pending := s1.pending, wire := s1.wire), status)
  {
    hide AwaitConnack;
    AwaitIgnoresSending(s, s1, env, other);
  }

  lemma ReadIgnoresSending(s: ClientState, s1: ClientState, reply: ReadReply)
    requires Valid(s) && Valid(s1) && s1 == s.(tx := s1.tx, pending := s1.pending, wire := s1.wire)
    ensures ClientRead(s1, reply).1 == ClientRead(s, reply).1
  {
    hide Parse;
  }

  /** The flush that takes k of the staged bytes. */
  lemma FlushSome(s: ClientState, k: nat)
    requires Valid(s) && k <= s.pending
    ensures var (s1, status) := FlushPending(s, WriteReply(OK, k));
            && status == OK && s1 == s.(tx := s1.tx, pending := s1.pending, wire := s1.wire)
            && s1.pending == s.pending - k && Staged(s1) == Staged(s)[k..] && |s1.tx| == |s.tx|
  {
    hide FlushPending;
    FlushMoves(s, WriteReply(OK, k));
    FlushStatus(s, WriteReply(OK, k));
    FlushTakes(s, WriteReply(OK, k));
  }

  lemma LateEnough(since: u64, interval: u64)
    ensures Elapsed((since + interval) % U64_SIZE, since) == interval
  {
  }

  /** From a state that can ping, every flush position has a poll that encodes a PINGREQ over
      what is left. */
  lemma PingOverSuffix(s: ClientState, k: nat)
    requires Valid(s) && StreamInv(s) && CanPing(s) && k < s.pending
    requires forall env :: StreamInv(Poll(s, env).0)
    ensures |s.tx| < 2 || (s.tx[k] == PINGREQ_BYTE && (s.pending == k + 1 || s.tx[k + 1] == 0))
  {
    hide StreamInv, FlushPending, CorePoll, Poll, ClientRead, EncodingPingreq;
    var env0 :| ReachesPing(s, env0);
    var r := CorePoll(s, env0).0;
    var env := Retimed(env0, WriteReply(OK, k), (r.lastActivity + s.interval) % U64_SIZE);
    FlushSome(s, k);
    var s1 := FlushPending(s, env.flush).0;
    CoreIgnoresSending(s, s1, env0, env);
    CoreFrame(s, env0);
    var s2 := CorePoll(s1, env).0;
    ReadIgnoresSending(r, s2, env.read);
    LateEnough(r.lastActivity, s.interval);
    PollSafeExactly(s, env);
    PingreqOver(s2.tx, s2.pending);
    assert Staged(s2)[0] == Staged(s)[k] == s.tx[k] && Staged(s2)[0] == s2.tx[0];
    if s2.pending > 1 {
      assert Staged(s2)[1] == Staged(s)[k + 1] == s.tx[k + 1] && Staged(s2)[1] == s2.tx[1];
    }
  }

  lemma ConnectOverSuffix(s: ClientState, k: nat)
    requires Valid(s) && StreamInv(s) && CanConnect(s) && k < s.pending
    requires forall env :: StreamInv(Poll(s, env).0)
    ensures s.tx[k] == CONNECT_BYTE
    ensures s.pending - k <= RepeatedByConnect(|s.tx|) || exists i :: k < i < s.pending && s.tx[i] != CONNECT_BYTE
  {
    hide StreamInv, FlushPending, CorePoll, Poll, ConnectOver;
    var env0 :| ReachesConnect(s, env0);
    var r := CorePoll(s, env0).0;
    var env := Retimed(env0, WriteReply(OK, k), env0.now);
    FlushSome(s, k);
    var s1 := FlushPending(s, env.flush).0;
    CoreIgnoresSending(s, s1, env0, env);
    CoreFrame(s, env0);
    var s2 := CorePoll(s1, env).0;
    PollSafeExactly(s, env);
    var w := ConnectOver(s2.tx, KeepAliveSeconds(s2.interval));
    assert w[..s2.pending] == Staged(s2) == s.tx[..s.pending][k..];
    ConnectRepeats(s2.tx, KeepAliveSeconds(s2.interval));
    assert w[..s2.pending][0] == w[0] && Staged(s2)[0] == s.tx[k];
    var n := RepeatedByConnect(|s.tx|);
    if s2.pending > n {
      assert w[..s2.pending][n] == w[n] && Staged(s2)[n] == s.tx[k + n];
    }
  }

  /** CONNECT puts its first byte at the front, leaves the next few alone, and then writes
      something else. */
  lemma ConnectRepeats(tx: seq<byte>, keepAlive: u16)
    requires 0 < |tx|
    ensures var w, n := ConnectOver(tx, keepAlive), RepeatedByConnect(|tx|);
            && w[0] == CONNECT_BYTE && 1 <= n <= |tx|
            && (forall i :: 1 <= i < n ==> w[i] == tx[i])
            && (n < |tx| ==> w[n] != CONNECT_BYTE)
  {
  }

  lemma SparedConnect(tx: seq<byte>, keepAlive: u16, pending: nat)
    requires 0 < pending <= |tx| && AlwaysSparedByConnect(tx, pending)
    ensures ConnectOver(tx, keepAlive)[..pending] == tx[..pending]
  {
    hide ConnectOver;
    ConnectRepeats(tx, keepAlive);
  }

  /** One poll is safe whatever the transport and the clock answer exactly when nothing is
      staged, or the staged bytes survive each packet that a poll from here can come to
      encode. `PollReach` says which packets those are, `PollRuns` what further polls do. */
  lemma PollSafeForAllExactly(s: ClientState)
    requires Valid(s) && StreamInv(s)
    ensures (forall env :: StreamInv(Poll(s, env).0))
       <==> s.pending == 0 || ((CanPing(s) ==> AlwaysSparedByPing(s.tx, s.pending))
                               && (CanConnect(s) ==> AlwaysSparedByConnect(s.tx, s.pending)))
  {
    hide StreamInv, Poll, CanPing, CanConnect;
    if forall env :: StreamInv(Poll(s, env).0) {
      if s.pending > 0 && CanPing(s) {
        PingOverSuffix(s, 0);
        if s.pending > 1 {
          PingOverSuffix(s, 1);
        }
      }
      if s.pending > 0 && CanConnect(s) {
        forall i | 0 <= i < s.pending
          ensures s.tx[i] == CONNECT_BYTE
        {
          ConnectOverSuffix(s, i);
        }
        ConnectOverSuffix(s, 0);
      }
    } else if s.pending == 0 || ((CanPing(s) ==> AlwaysSparedByPing(s.tx, s.pending))
                                 && (CanConnect(s) ==> AlwaysSparedByConnect(s.tx, s.pending))) {
      var env :| !StreamInv(Poll(s, env).0);
      SparedPoll(s, env);
    }
  }

  lemma SparedPoll(s: ClientState, env: PollEnv)
    requires Valid(s) && StreamInv(s)
    requires s.pending == 0 || ((CanPing(s) ==> AlwaysSparedByPing(s.tx, s.pending))
                                && (CanConnect(s) ==> AlwaysSparedByConnect(s.tx, s.pending)))
    ensures StreamInv(Poll(s, env).0)
  {
    hide StreamInv, FlushPending, CorePoll, Poll, ClientRead, EncodingPingreq, ConnectOver;
    PollSafeExactly(s, env);
    FlushMoves(s, env.flush);
    FlushStatus(s, env.flush);
    var s1 := FlushPending(s, env.flush).0;
    CoreIgnoresSending(s, s1, env, env);
    var (r, core) := CorePoll(s, env);
    var s2 := CorePoll(s1, env).0;
    CoreFrame(s, env);
    if core == OK && PollEncodes(s2, env) && s2.pending > 0 {
      SuffixSpared(s.tx, s.pending, s1.tx, s1.pending);
      if s2.state == Connected {
        ReadIgnoresSending(r, s2, env.read);
        assert ReachesPing(s, env);
        PingreqOver(s2.tx, s2.pending);
      } else {
        assert ReachesConnect(s, env);
        SparedConnect(s2.tx, KeepAliveSeconds(s2.interval), s2.pending);
      }
    }
  }

  lemma SuffixSpared(tx: seq<byte>, pending: nat, tx1: seq<byte>, pending1: nat)
    requires |tx1| == |tx| && 0 < pending1 <= pending <= |tx|
    requires tx1[..pending1] == tx[..pending][pending - pending1..]
    ensures AlwaysSparedByPing(tx, pending) ==> SparedByPing(tx1, pending1)
    ensures AlwaysSparedByConnect(tx, pending) ==> AlwaysSparedByConnect(tx1, pending1)
  {
    forall i | 0 <= i < pending1
      ensures tx1[i] == tx[pending - pending1 + i]
    {
      assert tx1[i] == tx1[..pending1][i] == tx[..pending][pending - pending1 + i];
    }
  }

  // ----- runs that do it -----

  /** The transport takes nothing, the keepalive falls due, the poll answers WOULD_BLOCK and
      the stream is broken. */
  lemma PollBreaksStream(s: ClientState, env: PollEnv)
    requires Valid(s) && StreamInv(s) && 2 <= |s.tx|
    requires s.state == Connected && s.pending > 0 && s.tx[0] != PINGREQ_BYTE
    requires env.flush == WriteReply(BUSY, 0) && env.read == ReadReply(BUSY, [])
    requires Parse(s.rxSize, s.rx).status == OK && Elapsed(env.now, s.lastActivity) >= s.interval
    ensures Poll(s, env).1 == BUSY && !StreamInv(Poll(s, env).0)
  {
    hide StreamInv, FlushPending, Parse, SendEncoded, EncodingPingreq;
    FlushBlocked(s);
    assert s.rx + [] == s.rx;
    var s1 := ClientRead(s, env.read).0;
    SameInvariant(s, s1);
    PingSafeExactly(s1, env.send);
    SendEncodedFrame(s1, EncodingPingreq(s1.tx), env.send);
    PingRefused(s1, env.send);
  }

  lemma FlushBlocked(s: ClientState)
    requires Valid(s)
    ensures FlushPending(s, WriteReply(BUSY, 0)) == (s, OK)
  {
    SpliceSame(s.tx, s.pending);
    assert s.tx[0..s.pending] == s.tx[..s.pending];
    assert s.wire + [] == s.wire;
  }

  lemma PingRefused(s: ClientState, reply: WriteReply)
    requires Valid(s) && s.pending > 0 && 2 <= |s.tx|
    ensures SendPing(s, reply).1 == BUSY
  {
  }

  /** A publish looks at no state, so one staged while connecting is overwritten by the
      CONNECT of the poll that reaches the transport. */
  lemma ConnectBreaksStream(s: ClientState, env: PollEnv)
    requires Valid(s) && StreamInv(s) && s.state == Connecting && !s.connectSent
    requires s.pending > 0 && s.tx[0] != CONNECT_BYTE
    requires env.flush == WriteReply(BUSY, 0) && env.connect == OK
    ensures !StreamInv(Poll(s, env).0)
  {
    hide StreamInv, FlushPending, SendConnect;
    FlushBlocked(s);
    var s2 := CorePoll(s, env).0;
    SameInvariant(s, s2);
    SendConnectSafeExactly(s2, env.send);
    ConnectedAgain(SendConnect(s2, env.send).0);
  }

  /** An empty publish, staged whole because the transport takes nothing. */
  lemma PublishStaged(s: ClientState)
    requires Valid(s) && 7 <= |s.tx| && s.pending == 0
    ensures var (s1, status) := Publish(s, Message([], []), 0, WriteReply(BUSY, 0));
            && status == OK && s1.pending > 0 && s1.tx[0] == PUBLISH_BYTE
            && s1.state == s.state && s1.connectSent == s.connectSent
  {
    hide Encoding, Concat;
    var m := Message([], []);
    PublishMeaning(s.tx, m);
    EncodingFramed(s.tx, PUBLISH_BYTE, PublishFields(m));
    var e := Encoding(s.tx, PUBLISH_BYTE, PublishFields(m));
    assert |Splice(e.buf, 0, e.buf[0..e.outLen])| == |e.buf|;
    assert Splice(e.buf, 0, e.buf[0..e.outLen])[0] == e.buf[0];
  }

  /** From the start: connect, publish while connecting, poll. */
  lemma ConnectingPublishBreaksStream(tx: seq<byte>, rxSize: nat, interval: u64, now: u64)
    requires 7 <= |tx| && 0 < rxSize
    ensures var blocked := WriteReply(BUSY, 0);
            var env := Connection.Reached(now).(flush := blocked);
            !StreamInv(Run(Init(tx, rxSize, interval, now), [OpConnect, OpPublish([], [], 0, blocked), OpPoll(env)]))
  {
    hide StreamInv, Poll, Publish;
    var blocked := WriteReply(BUSY, 0);
    var env := Connection.Reached(now).(flush := blocked);
    var s0 := Init(tx, rxSize, interval, now);
    var s1 := Apply(s0, OpConnect).0;
    var publish := OpPublish([], [], 0, blocked);
    var s2 := Apply(s1, publish).0;
    FreshStream(s1);
    StepKeepsStream(s1, publish);
    PublishStaged(s1);
    ConnectBreaksStream(s2, env);
    Connection.ThreeSteps(s0, OpConnect, publish, OpPoll(env));
  }

  // ----- connect calls -----

  /** A connect call clears the staged bytes before it looks at the state. */
  lemma ConnectSafeExactly(s: ClientState)
    requires Valid(s) && StreamInv(s)
    ensures StreamInv(Connect(s).0) <==> s.state == Disconnected || s.pending == 0
  {
    var s1 := Connect(s).0;
    assert Staged(s1) == [];
    if s.state != Disconnected && s.pending > 0 {
      assert |s1.wire + Staged(s1)| < |s.wire + Staged(s)|;
    } else if s.state != Disconnected {
      assert Staged(s) == [];
    }
  }
}
