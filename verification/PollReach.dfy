/** Which packets a poll from a state can come to encode, over all that the transport and
    the clock can answer. It is read off the state: its buffers and its flag. */
module PollReach {
  import opened Bytes
  import opened Statuses
  import opened Packets
  import opened Framing
  import opened ClientModel
  import opened Outbound
  import opened Overwrite
  import Inbound
  import H = FixedHeader
  import RL = RemainingLength

  // ----- what can still become a CONNACK -----

  /** The least length of an accepted CONNACK that starts with at most three bytes, the
      digits among them marked: its byte 3 has to be zero. */
  function LeastConnack(rx: seq<byte>): nat {
    if |rx| < 2 then 4
    else if |rx| == 2 then (if rx[1] % 128 == 0 then 4 else 3 + rx[1] as int % 128)
    else 4 + rx[1] as int % 128 + 128 * (rx[2] as int % 128)
  }

  /** What has been read is, or can be continued to, an accepting CONNACK that fits the
      buffer, and nothing unreadable has come behind it. */
  predicate CanBeAcked(rx: seq<byte>, rxSize: nat) {
    match H.Decode(rx)
    case Got(h) =>
      && h.kind == H.CONNACK && 4 <= h.PacketLength() <= rxSize && (|rx| > 3 ==> rx[3] == 0)
      && (h.PacketLength() <= |rx| ==> Parse(rxSize, rx[h.PacketLength()..]).status == OK)
    case Fail(status) =>
      status == TOO_SMALL && |rx| <= 3 && (rx != [] ==> rx[0] == 0x20) && LeastConnack(rx) <= rxSize
  }

  /** More bytes make it an accepting CONNACK with readable bytes behind it. */
  ghost predicate AckedWith(rx: seq<byte>, more: seq<byte>, rxSize: nat) {
    && |rx + more| <= rxSize && Inbound.Acked(rx + more)
    && Parse(rxSize, Inbound.AfterConnack(rx + more)).status == OK
  }

  lemma ReadableBefore(cap: nat, s: seq<byte>, more: seq<byte>)
    ensures Parse(cap, s + more).status == OK ==> Parse(cap, s).status == OK
  {
    hide Parse;
    if Parse(cap, s).status != OK {
      StuckForGood(cap, s, more);
    }
  }

  /** The digits of a header that is still open are all marked. */
  lemma OpenDigits(rx: seq<byte>)
    requires H.Decode(rx) == Fail(TOO_SMALL)
    ensures forall i :: 1 <= i < |rx| ==> rx[i] >= 128
  {
    forall i | 1 <= i < |rx|
      ensures rx[i] >= 128
    {
      assert rx[1..][i - 1] == rx[i];
    }
  }

  /** The length of an accepted CONNACK from the digits in front of its byte 3. */
  lemma AckedDigits(rx: seq<byte>)
    requires Inbound.Acked(rx)
    ensures rx[0] == 0x20
    ensures var n := H.Decode(rx).value.PacketLength();
            && (rx[1] >= 128 && rx[2] < 128 ==> n == 3 + rx[1] as int % 128 + 128 * rx[2] as int)
            && (rx[1] >= 128 && rx[2] >= 128 ==> n == 4 + rx[1] as int % 128 + 128 * (rx[2] as int % 128))
  {
    hide RL.Decode;
    H.DecodeBounds(rx);
    var d := rx[1..];
    assert d[0] == rx[1] && d[1] == rx[2] && d[2] == rx[3];
    if rx[1] >= 128 && rx[2] < 128 {
      RL.DecodeTwo(d);
    } else if rx[1] >= 128 {
      RL.DecodeThree(d);
    }
  }

  lemma AckedOnlyFrom(rx: seq<byte>, more: seq<byte>, rxSize: nat)
    requires AckedWith(rx, more, rxSize)
    ensures CanBeAcked(rx, rxSize)
  {
    hide H.Decode, Parse;
    H.DecodeStable(rx, more);
    if H.Decode(rx) == Fail(TOO_SMALL) {
      OpenDigits(rx);
      AckedDigits(rx + more);
      assert forall i :: 0 <= i < |rx| ==> (rx + more)[i] == rx[i];
    } else {
      var n := H.Decode(rx).value.PacketLength();
      assert |rx| > 3 ==> (rx + more)[3] == rx[3];
      if n <= |rx| {
        assert (rx + more)[n..] == rx[n..] + more;
        ReadableBefore(rxSize, rx[n..], more);
      }
    }
  }

  /** A header that is complete needs its body, all zeros. */
  lemma FillBody(rx: seq<byte>, rxSize: nat)
    requires |rx| <= rxSize && H.Decode(rx).Got? && CanBeAcked(rx, rxSize)
    ensures exists more :: AckedWith(rx, more, rxSize)
  {
    hide H.Decode, Parse;
    var n := H.Decode(rx).value.PacketLength();
    if n <= |rx| {
      assert rx + [] == rx;
      assert AckedWith(rx, [], rxSize);
    } else {
      var more := seq(n - |rx|, _ => 0 as byte);
      H.DecodeStable(rx, more);
      assert (rx + more)[n..] == [];
      assert Parse(rxSize, []).status == OK by { NothingParses(rxSize); }
      assert AckedWith(rx, more, rxSize);
    }
  }

  lemma NothingParses(cap: nat)
    ensures Parse(cap, []).status == OK
  {
  }

  /** The bytes that complete an open header, as short as can be. */
  function LastDigits(rx: seq<byte>): seq<byte> {
    if rx == [] then [0x20, 2]
    else if |rx| == 1 then [2]
    else if |rx| == 2 && rx[1] % 128 == 0 then [0x80, 0]
    else [0]
  }

  lemma FillHeader(rx: seq<byte>)
    requires H.Decode(rx) == Fail(TOO_SMALL) && |rx| <= 3 && (rx != [] ==> rx[0] == 0x20)
    ensures var front := rx + LastDigits(rx);
            && H.Decode(front).Got? && H.Decode(front).value.kind == H.CONNACK
            && H.Decode(front).value.PacketLength() == LeastConnack(rx) >= |front|
            && (|front| > 3 ==> front[3] == 0)
  {
    OpenDigits(rx);
    hide H.Decode;
    var front := rx + LastDigits(rx);
    var d := front[1..];
    assert front[0] == 0x20 && (|rx| > 1 ==> d[0] == rx[1]) && (|rx| > 2 ==> d[1] == rx[2]);
    if |d| == 1 {
      RL.DecodeOne(d);
      HeaderOf(front, d[0], 1);
    } else if |d| == 2 {
      RL.DecodeTwo(d);
      HeaderOf(front, d[0] as int % 128 + 128 * d[1] as int, 2);
    } else {
      RL.DecodeThree(d);
      HeaderOf(front, d[0] as int % 128 + 128 * (d[1] as int % 128) + 16384 * d[2] as int, 3);
    }
  }

  lemma HeaderOf(front: seq<byte>, v: nat, consumed: nat)
    requires |front| >= 2 && front[0] == 0x20 && RL.Decode(front[1..]) == RL.Value(v, consumed)
    ensures H.Decode(front) == Got(H.Header(H.CONNACK, 0, v, 1 + consumed))
  {
  }

  /** Reading on can end in an accepting CONNACK exactly when the bytes and the buffer size
      say so. */
  lemma AckableExactly(rx: seq<byte>, rxSize: nat)
    requires |rx| <= rxSize
    ensures (exists more :: AckedWith(rx, more, rxSize)) <==> CanBeAcked(rx, rxSize)
  {
    hide AckedWith, CanBeAcked;
    forall more | AckedWith(rx, more, rxSize)
      ensures CanBeAcked(rx, rxSize)
    {
      AckedOnlyFrom(rx, more, rxSize);
    }
    if CanBeAcked(rx, rxSize) {
      if H.Decode(rx).Got? {
        FillBody(rx, rxSize);
      } else {
        FillOpen(rx, rxSize);
      }
    }
  }

  lemma FillOpen(rx: seq<byte>, rxSize: nat)
    requires H.Decode(rx).Fail? && CanBeAcked(rx, rxSize)
    ensures exists more :: AckedWith(rx, more, rxSize)
  {
    FillHeader(rx);
    var digits := LastDigits(rx);
    FillFront(rx + digits, LeastConnack(rx), rxSize);
    hide AckedWith, H.Decode, CanBeAcked, LastDigits;
    var more :| AckedWith(rx + digits, more, rxSize);
    AckedLater(rx, digits, more, rxSize);
  }

  lemma AckedLater(rx: seq<byte>, digits: seq<byte>, more: seq<byte>, rxSize: nat)
    requires AckedWith(rx + digits, more, rxSize)
    ensures AckedWith(rx, digits + more, rxSize)
  {
    hide H.Decode, Parse;
    assert rx + (digits + more) == rx + digits + more;
  }

  lemma FillFront(front: seq<byte>, n: nat, rxSize: nat)
    requires H.Decode(front).Got? && H.Decode(front).value.kind == H.CONNACK
    requires H.Decode(front).value.PacketLength() == n && 4 <= n <= rxSize && |front| <= n
    requires |front| > 3 ==> front[3] == 0
    ensures exists more :: AckedWith(front, more, rxSize)
  {
    hide H.Decode, Parse;
    NothingParses(rxSize);
    assert n <= |front| ==> front[n..] == [];
    FillBody(front, rxSize);
  }

  // ----- a waiting client -----

  lemma JudgeExactly(s: ClientState, now: u64)
    requires Valid(s) && s.state == ConnectSent
    ensures var (s1, status) := JudgeConnack(s, now);
            && (s1.state == Connected <==> Inbound.Acked(s.rx))
            && (s1.state == Connected ==>
                  status == OK && s1.rx == Inbound.AfterConnack(s.rx) && s1.rxSize == s.rxSize)
  {
    hide H.Decode, TakeConnack;
    if H.Decode(s.rx).Got? && H.Decode(s.rx).value.PacketLength() <= |s.rx| {
      TakenExactly(s, H.Decode(s.rx).value.PacketLength(), now);
    }
  }

  lemma TakenExactly(s: ClientState, n: nat, now: u64)
    requires Valid(s) && n <= |s.rx|
    ensures var (s1, status) := TakeConnack(s, n, now);
            && s1.state == (if n >= 4 && s.rx[3] == 0 then Connected else Disconnected)
            && (s1.state == Connected ==> status == OK && s1.rx == s.rx[n..] && s1.rxSize == s.rxSize)
  {
    Inbound.TakeConnackExactly(s, n, now);
  }

  lemma WaitingPings(s: ClientState)
    requires Valid(s) && s.state == ConnectSent
    ensures CanPing(s) <==> CanBeAcked(s.rx, s.rxSize)
  {
    hide JudgeConnack, CanBeAcked, Parse, Inbound.Acked, Inbound.AfterConnack;
    AckableExactly(s.rx, s.rxSize);
    forall e: PollEnv | ReachesPing(s, e)
      ensures exists more :: AckedWith(s.rx, more, s.rxSize)
    {
      var s1 := Receive(s, e.ackRead);
      JudgeExactly(s1, e.coreNow);
      ReadsOnlyReadable(CorePoll(s, e).0, e.read);
      assert AckedWith(s.rx, e.ackRead.Given(s.rxSize - |s.rx|), s.rxSize);
    }
    if more :| AckedWith(s.rx, more, s.rxSize) {
      var env := Quiet(s).(ackRead := ReadReply(OK, more));
      assert env.ackRead.Given(s.rxSize - |s.rx|) == more;
      JudgeExactly(Receive(s, env.ackRead), env.coreNow);
      var s1 := CorePoll(s, env).0;
      assert s1.rx + [] == s1.rx;
      assert ReachesPing(s, env);
    }
  }

  lemma ReadsOnlyReadable(s: ClientState, reply: ReadReply)
    requires Valid(s)
    ensures ClientRead(s, reply).1 == OK ==> Parse(s.rxSize, s.rx).status == OK
  {
    hide Parse;
    ReadableBefore(s.rxSize, s.rx, reply.Given(s.rxSize - |s.rx|));
  }

  /** The wait for the CONNACK is undecided by what has been read. */
  predicate Undecided(rx: seq<byte>, rxSize: nat) {
    || rx == []
    || H.Decode(rx) == Fail(TOO_SMALL)
    || (H.Decode(rx).Got? && H.Decode(rx).value.kind == H.CONNACK
        && |rx| < H.Decode(rx).value.PacketLength() <= rxSize)
  }

  lemma UndecidedBefore(rx: seq<byte>, more: seq<byte>, rxSize: nat)
    requires Undecided(rx + more, rxSize)
    ensures Undecided(rx, rxSize)
  {
    H.DecodeStable(rx, more);
  }

  lemma WaitsOnlyUndecided(s: ClientState, now: u64)
    requires Valid(s) && s.state == ConnectSent
    ensures var (s1, status) := JudgeConnack(s, now);
            && (s1.state == ConnectSent ==> Undecided(s.rx, s.rxSize))
            && (Undecided(s.rx, s.rxSize) && now == s.lastActivity ==> s1 == s && status == OK)
  {
    hide H.Decode, DecodeConnack;
    H.DecodeBounds(s.rx);
  }

  /** Nothing more is read, and no time passes. */
  function Quiet(s: ClientState): PollEnv {
    PollEnv(WriteReply(OK, 0), OK, ReadReply(OK, []), s.lastActivity, ReadReply(OK, []), s.lastActivity,
            WriteReply(OK, 0))
  }

  lemma WaitingConnects(s: ClientState)
    requires Valid(s) && s.state == ConnectSent
    ensures CanConnect(s) <==> !s.connectSent && Undecided(s.rx, s.rxSize)
  {
    hide JudgeConnack, Undecided;
    forall e: PollEnv | ReachesConnect(s, e)
      ensures !s.connectSent && Undecided(s.rx, s.rxSize)
    {
      CoreFrame(s, e);
      WaitsOnlyUndecided(Receive(s, e.ackRead), e.coreNow);
      UndecidedBefore(s.rx, e.ackRead.Given(s.rxSize - |s.rx|), s.rxSize);
    }
    if !s.connectSent && Undecided(s.rx, s.rxSize) {
      assert s.rx + [] == s.rx && s.received + [] == s.received;
      WaitsOnlyUndecided(s, s.lastActivity);
      assert Receive(s, Quiet(s).ackRead) == s;
      assert ReachesConnect(s, Quiet(s));
    }
  }

  // ----- any client -----

  predicate PingAhead(s: ClientState) {
    match s.state
    case Connected => Parse(s.rxSize, s.rx).status == OK
    case ConnectSent => CanBeAcked(s.rx, s.rxSize)
    case _ => false
  }

  predicate ConnectAhead(s: ClientState) {
    match s.state
    case Connecting => !s.connectSent
    case ConnectSent => !s.connectSent && Undecided(s.rx, s.rxSize)
    case _ => false
  }

  /** A connected client can come to send a PINGREQ unless an inbound error blocks it, a
      connecting one its CONNECT, a waiting one the CONNECT it still owes, and a PINGREQ if
      what it has read can become an accepting CONNACK. */
  lemma WhatPollsEncode(s: ClientState)
    requires Valid(s)
    ensures CanPing(s) <==> PingAhead(s)
    ensures CanConnect(s) <==> ConnectAhead(s)
  {
    hide Parse, JudgeConnack, CanBeAcked, Undecided;
    var env := Quiet(s);
    if s.state == Connected {
      forall e: PollEnv | ReachesPing(s, e)
        ensures Parse(s.rxSize, s.rx).status == OK
      {
        ReadsOnlyReadable(s, e.read);
      }
      assert s.rx + [] == s.rx;
      assert Parse(s.rxSize, s.rx).status == OK ==> ReachesPing(s, env);
    } else if s.state == Connecting {
      assert !s.connectSent ==> ReachesConnect(s, env);
    } else if s.state == ConnectSent {
      WaitingConnects(s);
      WaitingPings(s);
    }
  }

  /** The safety of one poll, whatever it is answered, as a condition on the state alone. */
  lemma PollSafeIffState(s: ClientState)
    requires Valid(s) && StreamInv(s)
    ensures (forall env :: StreamInv(Poll(s, env).0))
       <==> s.pending == 0 || ((PingAhead(s) ==> AlwaysSparedByPing(s.tx, s.pending))
                               && (ConnectAhead(s) ==> AlwaysSparedByConnect(s.tx, s.pending)))
  {
    hide StreamInv, Poll, CanPing, CanConnect, PingAhead, ConnectAhead;
    PollSafeForAllExactly(s);
    WhatPollsEncode(s);
  }
}
